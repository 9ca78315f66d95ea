/** Everything a writer produces verifies, and nothing else ends in its last hash. */
module Journal {
  import opened Options
  import opened Decimal
  import opened Preimage
  import opened AuditJson
  import opened LogLines
  import opened Integrity
  import opened Verifier
  import opened Binding
  import Sidecar

  /** A writer and a verifier that share key, algorithm and JSON library. */
  datatype Site = Site(writer: Writer, ck: Checker, fingerprint: string) {
    ghost predicate Valid() {
      && writer.Valid() && ck.Valid() && fingerprint != ""
      && ck.codec == writer.codec && ck.hash == writer.hash
      && (forall m :: LogLine(ck.trim, ck.codec.marshal(m)))
    }
  }

  /** Compact JSON is one non-empty line with nothing to trim. */
  ghost predicate LogLine(trim: Trim, text: string) { text != "" && '\n' !in text && trim(text) == text }

  ghost predicate LogTexts(trim: Trim, texts: seq<string>) {
    forall i :: 0 <= i < |texts| ==> LogLine(trim, texts[i])
  }

  /** The chain state and all lines written so far. The rest is history: before which lines a `null` payload had
      used up a number since the line before or since the chain began, whether one has since the last line, and
      whether a restart was refused. */
  datatype Log = Log(state: ChainState, lines: seq<string>, skips: seq<bool>, skipped: bool, halted: bool)

  const EMPTY := Log(GENESIS, [], [], false, false)

  /** `Rotate` is an in-place reset: a new chain whose first entry names the end of the old one. */
  datatype Op = Append(payload: string) | Restart | Rotate(payload: string)

  /** After a refused restart only a reset helps. */
  function Step(s: Site, l: Log, op: Op): Log
    requires forall f :: s.writer.hash(f).Some?
  {
    if l.halted && !op.Rotate? then l
    else
      match op
      case Append(payload) => Write(l, WrapStep(s.writer, l.state, payload))
      case Rotate(payload) => Write(l.(skipped := false, halted := false), WrapStep(s.writer, GENESIS, payload))
      case Restart =>
        var back := Sidecar.ReadSidecar(Sidecar.Persisted(l.state, s.fingerprint));
        if back.Accepted? && Restorable(s.writer.algorithm, back.state.chain)
        then l.(state := back.state.chain) else l.(halted := true)
  }

  function Write(l: Log, r: (WrapOutcome, ChainState)): Log {
    match r.0
    case Wrapped(line) => Log(r.1, l.lines + [line], l.skips + [l.skipped], false, l.halted)
    case Panicked => l.(state := r.1, skipped := true)
    case _ => l.(state := r.1)
  }

  function Exec(s: Site, ops: seq<Op>): Log
    requires forall f :: s.writer.hash(f).Some?
  {
    if ops == [] then EMPTY else Step(s, Exec(s, ops[..|ops| - 1]), ops[|ops| - 1])
  }

  /** The summary an in-place reset records, taken from the last line of the log. */
  function PriorOf(ck: Checker, l: Log): Option<Prior> {
    if l.lines == [] || EntryOf(ck, l.lines[|l.lines| - 1]).None? then None
    else
      var meta := EntryOf(ck, l.lines[|l.lines| - 1]).value.meta;
      Some(Prior(meta.sequence, meta.entryHash))
  }

  /** Payloads bring no integrity key; rotation events come from resets, which fill in the summary. The code
      resets only a log that verifies; here it may be any. */
  ghost predicate Admissible(s: Site, l: Log, op: Op) {
    match op
    case Restart => true
    case Append(payload) =>
      || !s.ck.codec.parse(payload).Document?
      || (Clean(s.ck.codec, payload) && (l.state == GENESIS ==> KindOf(s.ck, payload) != ROTATED))
    case Rotate(payload) =>
      && Clean(s.ck.codec, payload) && KindOf(s.ck, payload) == ROTATED
      && s.ck.rotation(s.ck.codec.marshal(s.ck.codec.parse(payload).fields)) == Some(Rotation("", PriorOf(s.ck, l)))
  }

  ghost predicate AdmissibleRun(s: Site, ops: seq<Op>)
    requires forall f :: s.writer.hash(f).Some?
  {
    ops == [] || (AdmissibleRun(s, ops[..|ops| - 1]) && Admissible(s, Exec(s, ops[..|ops| - 1]), ops[|ops| - 1]))
  }

  ghost predicate Signed(ck: Checker, texts: seq<string>) {
    forall i :: 0 <= i < |texts| ==> EntryOf(ck, texts[i]).Some? && LogLine(ck.trim, texts[i])
  }

  ghost function Entries(ck: Checker, texts: seq<string>): seq<Entry>
    requires Signed(ck, texts)
  { seq(|texts|, i requires 0 <= i < |texts| => EntryOf(ck, texts[i]).value) }

  /** The state continues the last entry, or has skipped numbers since. */
  ghost predicate AtEnd(l: Log, es: seq<Entry>) {
    var last := if es == [] then GENESIS else ChainState(es[|es| - 1].meta.sequence, es[|es| - 1].meta.entryHash);
    && l.state.prevHash == last.prevHash && l.state.sequence >= last.sequence >= -1
    && (l.skipped <==> l.state.sequence > last.sequence)
  }

  /** The first entry has no predecessor, and number 0 unless it was skipped. */
  ghost predicate Starts(ck: Checker, e: Entry, skipped: bool) {
    Anchored(ck, e) && e.meta.sequence >= 0 && (e.meta.sequence == 0 <==> !skipped)
  }

  /** A reset in place names no archive. */
  ghost predicate InPlace(ck: Checker, e: Entry) {
    IsBoundary(e) ==> ck.rotation(e.payload).Some? && ck.rotation(e.payload).value.archivedTo == ""
  }

  /** What every admissible run keeps. */
  ghost predicate Inv(s: Site, l: Log) {
    && Signed(s.ck, l.lines) && |l.skips| == |l.lines| && Restorable(s.writer.algorithm, l.state)
    && var es := Entries(s.ck, l.lines);
    && Chained(s.ck, es) && AtEnd(l, es)
    && (es != [] ==> Starts(s.ck, es[0], l.skips[0]))
    && (forall i :: 0 <= i < |es| ==> es[i].meta.sequence >= 0)
    && (forall i :: 0 < i < |es| ==> (Follows(s.ck, es[i - 1], es[i]) <==> !l.skips[i]) && InPlace(s.ck, es[i]))
  }

  /** The entry a successful Wrap writes. */
  lemma WrittenEntry(s: Site, st: ChainState, payload: string)
    requires s.Valid() && Restorable(s.writer.algorithm, st) && st.sequence < MAX_INT64
    requires Clean(s.ck.codec, payload)
    ensures var (r, st') := WrapStep(s.writer, st, payload);
            && r.Wrapped? && LogLine(s.ck.trim, r.line) && Restorable(s.writer.algorithm, st')
            && var e := EntryOf(s.ck, r.line);
            && e.Some? && Sealed(s.ck, e.value) && Closed(e.value.payload)
            && e.value.kind == KindOf(s.ck, payload) == KindOf(s.ck, e.value.payload)
            && e.value.meta.sequence == st.sequence + 1 && e.value.meta.prevHash == st.prevHash
            && st' == ChainState(e.value.meta.sequence, e.value.meta.entryHash)
            && e.value.payload == s.ck.codec.marshal(s.ck.codec.parse(payload).fields)
  {
    hide Closed;
    var (r, st') := WrapStep(s.writer, st, payload);
    WrapVerifies(s.writer, st, payload);
    WrapKeepsRestorable(s.writer, st, payload);
    KindIsInPayload(s.ck, r.line);
  }

  /** An entry that is linked to the last one, in sequence exactly unless numbers were skipped. */
  lemma AppendEntry(s: Site, l: Log, text: string, st: ChainState, skip: bool, halted: bool)
    requires Inv(s, l) && EntryOf(s.ck, text).Some? && LogLine(s.ck.trim, text)
    requires var e := EntryOf(s.ck, text).value;
             && Sealed(s.ck, e) && e.kind == KindOf(s.ck, e.payload) && Closed(e.payload)
             && st == ChainState(e.meta.sequence, e.meta.entryHash) && st.sequence >= 0
             && Restorable(s.writer.algorithm, st)
             && (if l.lines == [] then Starts(s.ck, e, skip)
                 else
                   var p := Entries(s.ck, l.lines)[|l.lines| - 1];
                   Linked(s.ck, p, e) && (Follows(s.ck, p, e) <==> !skip) && InPlace(s.ck, e))
    ensures Inv(s, Log(st, l.lines + [text], l.skips + [skip], false, halted))
  {
    hide EntryOf, Sealed, Follows, Linked, KindOf, LogLine, Starts, Closed, Restorable, InPlace, Chained;
    var lines, e := l.lines + [text], EntryOf(s.ck, text).value;
    var es, es' := Entries(s.ck, l.lines), Entries(s.ck, lines);
    assert es' == es + [e];
    assert forall i :: 0 <= i < |es| ==> es'[i] == es[i] && (l.skips + [skip])[i] == l.skips[i];
    ChainedAppend(s.ck, es, e);
  }

  lemma ChainedAppend(ck: Checker, es: seq<Entry>, e: Entry)
    requires Chained(ck, es) && Sealed(ck, e) && e.kind == KindOf(ck, e.payload) && Closed(e.payload)
    requires es != [] ==> Linked(ck, es[|es| - 1], e)
    ensures Chained(ck, es + [e])
  {
    hide Sealed, Linked, KindOf, Closed;
    var all := es + [e];
    assert forall i :: 0 <= i < |es| ==> all[i] == es[i];
  }

  /** What a plain append writes after the last entry. */
  lemma NextEntry(s: Site, l: Log, e: Entry)
    requires Inv(s, l) && l.state.sequence < MAX_INT64
    requires e.meta.sequence == l.state.sequence + 1 && e.meta.prevHash == l.state.prevHash
    requires l.state == GENESIS ==> e.kind != ROTATED
    ensures if l.lines == [] then Starts(s.ck, e, l.skipped)
            else
              var p := Entries(s.ck, l.lines)[|l.lines| - 1];
              Linked(s.ck, p, e) && (Follows(s.ck, p, e) <==> !l.skipped) && InPlace(s.ck, e)
  {
    hide EntryOf, Sealed, KindOf, LogLine, Chained;
    assert !IsBoundary(e);
  }

  /** What a reset writes after the last entry. */
  lemma BoundaryEntry(s: Site, l: Log, e: Entry)
    requires Inv(s, l) && IsBoundary(e) && s.ck.rotation(e.payload) == Some(Rotation("", PriorOf(s.ck, l)))
    ensures if l.lines == [] then Starts(s.ck, e, false)
            else
              var p := Entries(s.ck, l.lines)[|l.lines| - 1];
              Linked(s.ck, p, e) && Follows(s.ck, p, e) && InPlace(s.ck, e)
  {
    hide EntryOf, Sealed, KindOf, LogLine, Chained, Restorable;
    if l.lines != [] { assert EntryOf(s.ck, l.lines[|l.lines| - 1]).Some?; }
  }

  lemma AppendKeepsInv(s: Site, l: Log, payload: string)
    requires s.Valid() && Inv(s, l) && Admissible(s, l, Append(payload)) && Clean(s.ck.codec, payload)
    requires l.state.sequence < MAX_INT64
    ensures Inv(s, Write(l, WrapStep(s.writer, l.state, payload)))
  {
    assert Restorable(s.writer.algorithm, l.state);
    hide EntryOf, Sealed, KindOf, LogLine, Chained, WrapStep, Codec.Faithful, Inv, Closed, Follows, Linked, Starts,
      Restorable, Clean, InPlace;
    WrittenEntry(s, l.state, payload);
    var (r, st') := WrapStep(s.writer, l.state, payload);
    NextEntry(s, l, EntryOf(s.ck, r.line).value);
    AppendEntry(s, l, r.line, st', l.skipped, l.halted);
  }

  lemma RotateKeepsInv(s: Site, l: Log, payload: string)
    requires s.Valid() && Inv(s, l) && Admissible(s, l, Rotate(payload))
    ensures Inv(s, Step(s, l, Rotate(payload)))
  {
    hide EntryOf, Sealed, KindOf, LogLine, Chained, WrapStep, Codec.Faithful, Inv, Closed, Follows, Linked, Starts,
      Clean, PriorOf, InPlace;
    WrittenEntry(s, GENESIS, payload);
    var (r, st') := WrapStep(s.writer, GENESIS, payload);
    BoundaryEntry(s, l, EntryOf(s.ck, r.line).value);
    AppendEntry(s, l, r.line, st', false, false);
  }

  /** A payload that writes nothing leaves the log; `null` skips a number. */
  lemma IdleKeepsInv(s: Site, l: Log, payload: string)
    requires s.Valid() && Inv(s, l)
    requires !s.ck.codec.parse(payload).Document? || l.state.sequence == MAX_INT64
    ensures Inv(s, Write(l, WrapStep(s.writer, l.state, payload)))
  {
    hide EntryOf, Sealed, KindOf, LogLine, Chained, Codec.Faithful, Follows, Starts;
  }

  lemma RestartKeepsInv(s: Site, l: Log)
    requires s.Valid() && Inv(s, l)
    ensures Inv(s, Step(s, l, Restart))
  {
    hide EntryOf, Sealed, KindOf, LogLine, Chained, Codec.Faithful, Follows, Starts, Signed;
    Sidecar.PersistedReadsBack(s.writer.algorithm, l.state, s.fingerprint);
  }

  lemma StepKeepsInv(s: Site, l: Log, op: Op)
    requires s.Valid() && Inv(s, l) && Admissible(s, l, op)
    ensures Inv(s, Step(s, l, op))
  {
    hide Inv, WrapStep, Write, Codec.Faithful, Sidecar.ReadSidecar, Restorable, KindOf, LogLine;
    match op {
      case Restart => RestartKeepsInv(s, l);
      case Rotate(payload) => RotateKeepsInv(s, l, payload);
      case Append(payload) =>
        if s.ck.codec.parse(payload).Document? && l.state.sequence < MAX_INT64 {
          AppendKeepsInv(s, l, payload);
        } else {
          IdleKeepsInv(s, l, payload);
        }
    }
  }

  lemma {:induction false} ExecKeepsInv(s: Site, ops: seq<Op>)
    requires s.Valid() && AdmissibleRun(s, ops)
    ensures Inv(s, Exec(s, ops))
  {
    hide Inv, Admissible, Step;
    if ops == [] {
      EmptyInv(s);
    } else {
      ExecKeepsInv(s, ops[..|ops| - 1]);
      StepKeepsInv(s, Exec(s, ops[..|ops| - 1]), ops[|ops| - 1]);
    }
  }

  lemma EmptyInv(s: Site)
    ensures Inv(s, EMPTY)
  {}

  function Texts(lines: seq<Line>): seq<string> {
    seq(|lines|, i requires 0 <= i < |lines| => lines[i].text)
  }

  /** The line may be the oldest visible one exactly in a backup, or as the first line of the log when no number
      was skipped before it. */
  lemma MayStartAt(s: Site, l: Log, k: nat, backup: bool)
    requires s.Valid() && Inv(s, l) && k < |l.lines|
    ensures MayStart(s.ck, backup, Entries(s.ck, l.lines)[k]) <==> backup || (k == 0 && !l.skips[0])
  {
    hide EntryOf, KindOf, LogLine, Codec.Faithful, Closed;
    var es := Entries(s.ck, l.lines);
    if k > 0 {
      assert Linked(s.ck, es[k - 1], es[k]) && Sealed(s.ck, es[k - 1]);
      DigestHasNoBar(s.writer.algorithm, es[k - 1].meta.entryHash);
    }
  }

  /** No number was skipped inside the part of the log from line `k` on. */
  predicate Unbroken(l: Log, k: nat) { forall i :: k < i < |l.skips| ==> !l.skips[i] }

  /** Completeness. After any admissible run, the part of the log from line `k` on, in any files, verifies exactly
      when no `null` payload came between two of its lines and its first line is in a backup or is the first line
      of the log, with no `null` before it. */
  lemma VisibleLogVerifies(s: Site, ops: seq<Op>, k: nat, lines: seq<Line>)
    requires s.Valid() && AdmissibleRun(s, ops)
    requires k <= |Exec(s, ops).lines| && Texts(lines) == Exec(s, ops).lines[k..]
    ensures forall i :: 0 <= i < |lines| ==> EntryOf(s.ck, lines[i].text).Some?
    ensures |Exec(s, ops).skips| == |Exec(s, ops).lines|
    ensures ValidLog(s.ck, lines) <==>
            lines == [] ||
            (Unbroken(Exec(s, ops), k) && (lines[0].backup || (k == 0 && !Exec(s, ops).skips[0])))
  {
    hide EntryOf, Sealed, KindOf, LogLine, Codec.Faithful, Step, Follows, MayStart, Closed, Linked, Starts, AtEnd,
      InPlace;
    ExecKeepsInv(s, ops);
    var l := Exec(s, ops);
    var es := Entries(s.ck, l.lines);
    forall i | 0 <= i < |lines| ensures EntryOf(s.ck, lines[i].text) == Some(es[k + i]) {
      assert Texts(lines)[i] == l.lines[k..][i];
    }
    if lines != [] {
      MayStartAt(s, l, k, lines[0].backup);
      FollowsIffUnbroken(s, l, k);
      if Unbroken(l, k) {
        forall i | 0 < i < |lines|
          ensures Follows(s.ck, EntryOf(s.ck, lines[i - 1].text).value, EntryOf(s.ck, lines[i].text).value)
        {
          assert Follows(s.ck, es[k + i - 1], es[k + i]);
        }
      } else {
        var j :| k < j < |l.skips| && l.skips[j];
        assert !Follows(s.ck, es[j - 1], es[j]);
        assert EntryOf(s.ck, lines[j - k - 1].text).value == es[j - 1];
        assert EntryOf(s.ck, lines[j - k].text).value == es[j];
      }
    }
  }

  lemma FollowsIffUnbroken(s: Site, l: Log, k: nat)
    requires Inv(s, l) && k < |l.lines|
    ensures var es := Entries(s.ck, l.lines);
            Unbroken(l, k) <==> forall i :: k < i < |es| ==> Follows(s.ck, es[i - 1], es[i])
  {
    hide EntryOf, LogLine, Follows, Chained, Starts, AtEnd, InPlace;
    var es := Entries(s.ck, l.lines);
    if forall i :: k < i < |es| ==> Follows(s.ck, es[i - 1], es[i]) {
      forall i | k < i < |l.skips| ensures !l.skips[i] {
        assert Follows(s.ck, es[i - 1], es[i]);
      }
    }
  }

  /** A run without `null` payloads skips no number. */
  lemma {:induction false} WithoutNullUnbroken(s: Site, ops: seq<Op>)
    requires s.Valid() && AdmissibleRun(s, ops)
    requires forall i :: 0 <= i < |ops| && ops[i].Append? ==> !s.ck.codec.parse(ops[i].payload).NullDocument?
    ensures !Exec(s, ops).skipped && forall i :: 0 <= i < |Exec(s, ops).skips| ==> !Exec(s, ops).skips[i]
  {
    hide AdmissibleRun, Codec.Faithful, LogLine, KindOf;
    if ops != [] {
      PrefixAdmissible(s, ops);
      WithoutNullUnbroken(s, ops[..|ops| - 1]);
      StepUnbroken(s, Exec(s, ops[..|ops| - 1]), ops[|ops| - 1]);
    }
  }

  lemma PrefixAdmissible(s: Site, ops: seq<Op>)
    requires s.Valid() && AdmissibleRun(s, ops) && ops != []
    ensures AdmissibleRun(s, ops[..|ops| - 1])
    ensures ops[|ops| - 1].Rotate? ==> Clean(s.ck.codec, ops[|ops| - 1].payload)
  {
    hide Step, KindOf;
  }

  lemma StepUnbroken(s: Site, l: Log, op: Op)
    requires s.Valid() && !l.skipped && forall i :: 0 <= i < |l.skips| ==> !l.skips[i]
    requires op.Append? ==> !s.ck.codec.parse(op.payload).NullDocument?
    requires op.Rotate? ==> Clean(s.ck.codec, op.payload)
    ensures !Step(s, l, op).skipped && forall i :: 0 <= i < |Step(s, l, op).skips| ==> !Step(s, l, op).skips[i]
  {
    hide Codec.Faithful, LogLine, KindOf;
  }

  // ---- The condition on the operations ----

  predicate IsNull(s: Site, op: Op) { op.Append? && s.writer.codec.parse(op.payload).NullDocument? }

  /** Operation `b` writes a line to a chain that has seen a `null` payload at `a`. */
  ghost predicate SkipsAt(s: Site, ops: seq<Op>, a: nat, b: nat)
    requires forall f :: s.writer.hash(f).Some?
  {
    && a < b < |ops| && IsNull(s, ops[a]) && ops[b].Append?
    && |Exec(s, ops[..b + 1]).lines| > |Exec(s, ops[..b]).lines|
    && forall i :: a < i < b ==> !ops[i].Rotate?
  }

  ghost predicate Skips(s: Site, ops: seq<Op>)
    requires forall f :: s.writer.hash(f).Some?
  { exists a, b :: 0 <= a < b < |ops| && SkipsAt(s, ops, a, b) }

  /** A `null` payload at `a` and no reset since. */
  predicate NullAt(s: Site, ops: seq<Op>, a: nat) {
    a < |ops| && IsNull(s, ops[a]) && forall i :: a < i < |ops| ==> !ops[i].Rotate?
  }

  /** The current chain has seen a `null` payload. */
  predicate NullSeen(s: Site, ops: seq<Op>) {
    exists a :: 0 <= a < |ops| && NullAt(s, ops, a)
  }

  predicate AnySkip(l: Log) { exists i :: 0 <= i < |l.skips| && l.skips[i] }

  ghost predicate Tracked(s: Site, ops: seq<Op>)
    requires forall f :: s.writer.hash(f).Some?
  {
    var l := Exec(s, ops);
    && (l.skipped ==> NullSeen(s, ops))
    && (NullSeen(s, ops) && !l.halted && l.state.sequence < MAX_INT64 ==> l.skipped || AnySkip(l))
    && (AnySkip(l) <==> Skips(s, ops))
  }

  lemma NullAtFront(s: Site, ops: seq<Op>, a: nat)
    requires ops != [] && a < |ops| - 1
    ensures NullAt(s, ops, a) <==> NullAt(s, ops[..|ops| - 1], a) && !ops[|ops| - 1].Rotate?
  {
    hide IsNull;
    var front := ops[..|ops| - 1];
    assert forall i :: 0 <= i < |front| ==> ops[i] == front[i];
  }

  lemma NullSeenLast(s: Site, ops: seq<Op>)
    requires ops != []
    ensures var front, op := ops[..|ops| - 1], ops[|ops| - 1];
            NullSeen(s, ops) <==> IsNull(s, op) || (!op.Rotate? && NullSeen(s, front))
  {
    var front, op := ops[..|ops| - 1], ops[|ops| - 1];
    assert NullAt(s, ops, |ops| - 1) <==> IsNull(s, op);
    hide NullAt, IsNull;
    if NullSeen(s, ops) {
      var a :| 0 <= a < |ops| && NullAt(s, ops, a);
      if a < |front| { NullAtFront(s, ops, a); }
    }
    if NullSeen(s, front) {
      var a :| 0 <= a < |front| && NullAt(s, front, a);
      NullAtFront(s, ops, a);
    }
  }

  lemma SkipsPrefix(s: Site, ops: seq<Op>, a: nat, b: nat)
    requires (forall f :: s.writer.hash(f).Some?) && ops != [] && b < |ops| - 1
    ensures SkipsAt(s, ops, a, b) <==> SkipsAt(s, ops[..|ops| - 1], a, b)
  {
    hide Exec, IsNull;
    var front := ops[..|ops| - 1];
    assert ops[..b + 1] == front[..b + 1] && ops[..b] == front[..b];
    if a < b { assert ops[a] == front[a] && ops[b] == front[b]; }
    assert forall i :: 0 <= i < b ==> ops[i] == front[i];
  }

  lemma SkipsAtLast(s: Site, ops: seq<Op>, a: nat)
    requires (forall f :: s.writer.hash(f).Some?) && ops != []
    ensures var front, op := ops[..|ops| - 1], ops[|ops| - 1];
            SkipsAt(s, ops, a, |ops| - 1) <==>
            op.Append? && NullAt(s, front, a) && |Exec(s, ops).lines| > |Exec(s, front).lines|
  {
    hide Exec, IsNull;
    var front, n := ops[..|ops| - 1], |ops| - 1;
    assert ops[..n + 1] == ops && ops[..n] == front;
    assert forall i :: 0 <= i < n ==> ops[i] == front[i];
  }

  lemma SkipsLast(s: Site, ops: seq<Op>)
    requires (forall f :: s.writer.hash(f).Some?) && ops != []
    ensures var front, op := ops[..|ops| - 1], ops[|ops| - 1];
            Skips(s, ops) <==>
            || Skips(s, front)
            || (op.Append? && NullSeen(s, front) && |Exec(s, ops).lines| > |Exec(s, front).lines|)
  {
    hide Exec, IsNull, SkipsAt, NullAt;
    var front, n := ops[..|ops| - 1], |ops| - 1;
    if Skips(s, ops) {
      var a, b :| 0 <= a < b < |ops| && SkipsAt(s, ops, a, b);
      if b < n { SkipsPrefix(s, ops, a, b); } else { SkipsAtLast(s, ops, a); }
    }
    if Skips(s, front) {
      var a, b :| 0 <= a < b < |front| && SkipsAt(s, front, a, b);
      SkipsPrefix(s, ops, a, b);
    }
    if NullSeen(s, front) {
      var a :| 0 <= a < |front| && NullAt(s, front, a);
      SkipsAtLast(s, ops, a);
    }
  }

  lemma AnySkipAppend(l: Log, skip: bool, l': Log)
    requires l'.skips == l.skips + [skip]
    ensures AnySkip(l') <==> AnySkip(l) || skip
  {
    if AnySkip(l) {
      var i :| 0 <= i < |l.skips| && l.skips[i];
      assert l'.skips[i];
    }
    if skip { assert l'.skips[|l.skips|]; }
  }

  /** What one step does to the history. */
  lemma StepHistory(s: Site, l: Log, op: Op)
    requires s.Valid() && (op.Rotate? ==> Clean(s.ck.codec, op.payload))
    ensures var l' := Step(s, l, op);
            && (|l'.lines| > |l.lines| ==> l'.skips == l.skips + [l.skipped && !op.Rotate?] && !l'.skipped)
            && (|l'.lines| <= |l.lines| ==>
                  && l'.skips == l.skips && !op.Rotate?
                  && (l'.skipped <==> l.skipped || (IsNull(s, op) && !l.halted && l.state.sequence < MAX_INT64)))
            && (op.Append? && |l'.lines| > |l.lines| ==> !l.halted && l.state.sequence < MAX_INT64)
            && (!op.Rotate? && !l'.halted && l'.state.sequence < MAX_INT64 ==>
                  !l.halted && l.state.sequence < MAX_INT64)
            && (IsNull(s, op) || op.Restart? ==> |l'.lines| == |l.lines|)
  {
    hide Codec.Faithful, LogLine, KindOf, EntryOf;
    RestartKeepsState(s, l);
  }

  lemma RestartKeepsState(s: Site, l: Log)
    requires s.Valid()
    ensures var l' := Step(s, l, Restart);
            l'.lines == l.lines && l'.skips == l.skips && l'.skipped == l.skipped && l'.state == l.state
            && (l.halted ==> l'.halted)
  {
    hide Codec.Faithful, LogLine, Restorable;
  }

  lemma {:induction false} ExecTracked(s: Site, ops: seq<Op>)
    requires s.Valid() && AdmissibleRun(s, ops)
    ensures Tracked(s, ops)
  {
    hide NullSeen, Skips, AnySkip, AdmissibleRun, Step, Codec.Faithful, LogLine, KindOf;
    if ops == [] {
      NothingTracked(s);
    } else {
      var front, op := ops[..|ops| - 1], ops[|ops| - 1];
      PrefixAdmissible(s, ops);
      ExecTracked(s, front);
      var l, l' := Exec(s, front), Exec(s, ops);
      StepHistory(s, l, op);
      NullSeenLast(s, ops);
      SkipsLast(s, ops);
      if |l'.lines| > |l.lines| { AnySkipAppend(l, l.skipped && !op.Rotate?, l'); }
      else { SameSkips(l, l'); }
    }
  }

  lemma NothingTracked(s: Site)
    requires s.Valid()
    ensures Tracked(s, [])
  {}

  lemma SameSkips(l: Log, l': Log)
    requires l'.skips == l.skips
    ensures AnySkip(l') <==> AnySkip(l)
  {}

  /** The whole log, none of it in a backup, verifies exactly when no line was written to a chain that had seen a
      `null` payload. */
  lemma WholeLogVerifies(s: Site, ops: seq<Op>, lines: seq<Line>)
    requires s.Valid() && AdmissibleRun(s, ops)
    requires Texts(lines) == Exec(s, ops).lines && (lines != [] ==> !lines[0].backup)
    ensures ValidLog(s.ck, lines) <==> !Skips(s, ops)
  {
    hide Step, ValidLog, Codec.Faithful, LogLine, AdmissibleRun, Skips, NullSeen, EntryOf;
    var l := Exec(s, ops);
    assert l.lines[0..] == l.lines;
    VisibleLogVerifies(s, ops, 0, lines);
    ExecTracked(s, ops);
    if lines == [] { assert |l.skips| == 0; }
    if AnySkip(l) {
      var i :| 0 <= i < |l.skips| && l.skips[i];
      assert i > 0 ==> !Unbroken(l, 0);
    }
  }

  /** The lines of one file of the rotation set. */
  datatype Part = Part(backup: bool, texts: seq<string>)

  /** The bytes of a file: every line with its newline. */
  function Join(texts: seq<string>): string {
    if texts == [] then "" else Join(texts[..|texts| - 1]) + (texts[|texts| - 1] + "\n")
  }

  function FilesOf(parts: seq<Part>): seq<LogFile> {
    seq(|parts|, i requires 0 <= i < |parts| => LogFile(parts[i].backup, Some(Join(parts[i].texts))))
  }

  function Flatten(parts: seq<Part>): seq<string> {
    if parts == [] then [] else Flatten(parts[..|parts| - 1]) + parts[|parts| - 1].texts
  }

  lemma {:induction false} JoinedLinesAreRead(trim: Trim, texts: seq<string>)
    requires ValidTrim(trim) && LogTexts(trim, texts)
    ensures NonBlank(trim, Join(texts)) == texts
    ensures LineStart(Join(texts), |Join(texts)|) == |Join(texts)|
  {
    hide ValidTrim, NonBlank, LogLine;
    if texts == [] {
      EmptyFile(trim);
    } else {
      var front, line := texts[..|texts| - 1], texts[|texts| - 1];
      JoinedLinesAreRead(trim, front);
      AppendedLine(trim, Join(front), line);
    }
  }

  lemma EmptyFile(trim: Trim)
    requires ValidTrim(trim)
    ensures NonBlank(trim, "") == [] && Join([]) == ""
  {}

  lemma AppendedLine(trim: Trim, a: string, line: string)
    requires ValidTrim(trim) && LogLine(trim, line) && LineStart(a, |a|) == |a|
    ensures var s := a + (line + "\n");
            NonBlank(trim, s) == NonBlank(trim, a) + [line] && LineStart(s, |s|) == |s|
  {
    var s := a + (line + "\n");
    PrefixStable(trim, a, line + "\n", |a|);
    assert s[|a|..|s|] == line + "\n" && s[|a|..|a|] == a[|a|..|a|];
    assert RawLine(s, |a|, |s|);
    assert LinesUpTo(trim, s, |a|) == NonBlank(trim, a);
    hide LinesUpTo;
    ReadLine(trim, s, |a|, |s|);
  }

  lemma SplitLogLines(trim: Trim, a: seq<string>, b: seq<string>)
    requires LogTexts(trim, a + b)
    ensures LogTexts(trim, a) && LogTexts(trim, b)
  {
    hide LogLine;
    assert forall i :: 0 <= i < |a| ==> a[i] == (a + b)[i];
    assert forall i :: 0 <= i < |b| ==> b[i] == (a + b)[|a| + i];
  }

  lemma FlattenLast(parts: seq<Part>)
    requires parts != []
    ensures Flatten(parts) == Flatten(parts[..|parts| - 1]) + parts[|parts| - 1].texts
  {}

  lemma AllLinesLast(ck: Checker, parts: seq<Part>)
    requires parts != []
    ensures AllLines(ck, FilesOf(parts))
            == AllLines(ck, FilesOf(parts[..|parts| - 1]))
               + Tag(parts[|parts| - 1].backup, NonBlank(ck.trim, Join(parts[|parts| - 1].texts)))
  {
    hide NonBlank, Join;
    assert FilesOf(parts)[..|parts| - 1] == FilesOf(parts[..|parts| - 1]);
  }

  lemma {:induction false} WrittenFilesAreRead(ck: Checker, parts: seq<Part>)
    requires ValidTrim(ck.trim) && LogTexts(ck.trim, Flatten(parts))
    ensures Texts(AllLines(ck, FilesOf(parts))) == Flatten(parts)
  {
    hide *;
    if parts == [] {
      NoFiles(ck);
    } else {
      var front, part := parts[..|parts| - 1], parts[|parts| - 1];
      FlattenLast(parts);
      SplitLogLines(ck.trim, Flatten(front), part.texts);
      WrittenFilesAreRead(ck, front);
      JoinedLinesAreRead(ck.trim, part.texts);
      AllLinesLast(ck, parts);
      TextsOfTagged(AllLines(ck, FilesOf(front)), part.backup, part.texts);
    }
  }

  lemma NoFiles(ck: Checker)
    ensures Texts(AllLines(ck, FilesOf([]))) == Flatten([])
  {}

  lemma TextsOfTagged(lines: seq<Line>, backup: bool, texts: seq<string>)
    ensures Texts(lines + Tag(backup, texts)) == Texts(lines) + texts
  {}

  /** Completeness on bytes: cut what a run wrote into files anywhere, drop any number of the oldest lines;
      the verifier accepts exactly under the same condition. */
  lemma RotatedFilesVerify(s: Site, ops: seq<Op>, k: nat, parts: seq<Part>)
    requires s.Valid() && AdmissibleRun(s, ops)
    requires k <= |Exec(s, ops).lines| && Flatten(parts) == Exec(s, ops).lines[k..]
    ensures |Exec(s, ops).skips| == |Exec(s, ops).lines|
    ensures var lines := AllLines(s.ck, FilesOf(parts));
            && Texts(lines) == Exec(s, ops).lines[k..]
            && (ValidLog(s.ck, lines) <==>
                lines == [] ||
                (Unbroken(Exec(s, ops), k) && (lines[0].backup || (k == 0 && !Exec(s, ops).skips[0]))))
  {
    hide EntryOf, LogLine, Step, ValidLog, MayStart, Codec.Faithful, Chained, Follows, Starts, AtEnd, Unbroken;
    ExecKeepsInv(s, ops);
    WrittenFilesAreRead(s.ck, parts);
    VisibleLogVerifies(s, ops, k, AllLines(s.ck, FilesOf(parts)));
  }

  /** One `null` payload breaks the log for good: after it the next line skips a number, and from then on no part
      that shows that line and the one before it verifies, nor does a whole log that begins with it. */
  lemma NullBreaksLog(s: Site, l: Log, nil: string, payload: string)
    requires s.Valid() && Inv(s, l) && !l.halted && l.state.sequence < MAX_INT64 - 1
    requires s.ck.codec.parse(nil).NullDocument? && Clean(s.ck.codec, payload)
    ensures var l' := Step(s, Step(s, l, Append(nil)), Append(payload));
            |l'.lines| == |l.lines| + 1 == |l'.skips| && l'.skips[|l.lines|] && l'.lines[..|l.lines|] == l.lines
  {
    hide EntryOf, LogLine, Chained, Follows, Starts, Signed, Entries, Codec.Faithful, KindOf;
    var l1 := Step(s, l, Append(nil));
    assert l1 == l.(state := l.state.(sequence := l.state.sequence + 1), skipped := true);
  }

  /** The failing runs: whatever came before, a `null` payload and then an entry. */
  lemma NullRunFails(s: Site, ops: seq<Op>, nil: string, payload: string, lines: seq<Line>)
    requires s.Valid() && AdmissibleRun(s, ops) && !Exec(s, ops).halted && Exec(s, ops).state.sequence < MAX_INT64 - 1
    requires s.ck.codec.parse(nil).NullDocument? && Clean(s.ck.codec, payload)
    requires Texts(lines) == Exec(s, ops + [Append(nil)] + [Append(payload)]).lines && lines != [] && !lines[0].backup
    ensures AdmissibleRun(s, ops + [Append(nil)] + [Append(payload)]) && !ValidLog(s.ck, lines)
  {
    hide Step, Codec.Faithful, LogLine, KindOf, ValidLog, Inv, EntryOf;
    var ops1 := ops + [Append(nil)];
    var ops2 := ops1 + [Append(payload)];
    assert ops1[..|ops1| - 1] == ops && ops2[..|ops2| - 1] == ops1;
    ExecKeepsInv(s, ops);
    NullLeavesGenesis(s, Exec(s, ops), nil);
    NullBreaksLog(s, Exec(s, ops), nil, payload);
    var l := Exec(s, ops2);
    assert l.lines[0..] == l.lines;
    VisibleLogVerifies(s, ops2, 0, lines);
    assert |l.lines| > 1 ==> !Unbroken(l, 0);
  }

  lemma NullLeavesGenesis(s: Site, l: Log, nil: string)
    requires s.Valid() && Inv(s, l) && !l.halted && l.state.sequence < MAX_INT64
    requires s.ck.codec.parse(nil).NullDocument?
    ensures Step(s, l, Append(nil)).state != GENESIS
  {
    hide EntryOf, LogLine, Chained, Follows, Starts, Signed, Entries, Codec.Faithful, KindOf;
  }

  /** Tamper evidence, end to end. Any log that verifies and ends in the hash the writer has persisted
      is, entry by entry, the newest part of what the writer wrote, and all of it when it starts at an
      anchored entry; otherwise the two hold a digest clash. */
  lemma TamperEvident(s: Site, ops: seq<Op>, lines: seq<Line>)
    requires s.Valid() && AdmissibleRun(s, ops) && ValidLog(s.ck, lines) && lines != []
    requires Exec(s, ops).lines != []
    requires EntriesOf(s.ck, lines)[|lines| - 1].meta.entryHash == Exec(s, ops).state.prevHash
    ensures Signed(s.ck, Exec(s, ops).lines)
    ensures var written, shown := Entries(s.ck, Exec(s, ops).lines), EntriesOf(s.ck, lines);
            || HasClash(s.ck, written, shown)
            || (&& |shown| <= |written| && shown == written[|written| - |shown|..]
                && (Anchored(s.ck, shown[0]) ==> shown == written))
  {
    hide EntryOf, Sealed, KindOf, LogLine, Codec.Faithful, Step, Follows, MayStart, Anchored, Chained, HasClash;
    ExecKeepsInv(s, ops);
    ValidLogIsChained(s.ck, lines);
    var a, b := Entries(s.ck, Exec(s, ops).lines), EntriesOf(s.ck, lines);
    if !HasClash(s.ck, a, b) {
      BoundEntries(s.ck, s.writer.algorithm, a, b);
      assert b[0..] == b;
    }
  }
}
