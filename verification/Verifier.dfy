/** The chain verifier over a rotated set of audit logs, as code and as a declarative meaning. */
module Verifier {
  import opened Options
  import opened Decimal
  import opened Preimage
  import opened AuditJson
  import opened LogLines

  const ROTATED := "integrity_chain_rotated"

  /** The last entry of the chain a rotation event replaced. */
  datatype Prior = Prior(lastSequence: Int64, lastHash: string)

  /** The fields of a rotation event that are checked. */
  datatype Rotation = Rotation(archivedTo: string, prior: Option<Prior>)

  /** What the verifier works with: the JSON library, the keyed hash, the decoder of rotation
      events (None when the payload does not decode) and bytes.TrimSpace. */
  datatype Checker = Checker(codec: Codec, hash: Hash, rotation: string -> Option<Rotation>, trim: Trim) {
    ghost predicate Valid() { codec.Faithful() && ValidTrim(trim) }
  }

  /** A signed entry. */
  datatype Entry = Entry(kind: string, meta: Meta, payload: string)

  /** A non-blank line and whether it is in a backup (rotated) file. */
  datatype Line = Line(backup: bool, text: string)

  function EntryOf(ck: Checker, text: string): Option<Entry> {
    var e := ParseEntry(ck.codec, text);
    if e.None? || e.value.integrity.None? then None
    else Some(Entry(e.value.kind, e.value.integrity.value, e.value.payload))
  }

  function FieldsOf(e: Entry): Fields {
    Fields(e.meta.version, e.meta.sequence, e.meta.prevHash, e.payload)
  }

  /** The format is current and the stored hash is the hash of the content. */
  predicate Sealed(ck: Checker, e: Entry) {
    e.meta.version == FORMAT_VERSION && ck.hash(FieldsOf(e)) == Some(e.meta.entryHash)
  }

  predicate IsBoundary(e: Entry) { e.kind == ROTATED && e.meta.sequence == 0 && e.meta.prevHash == "" }

  /** The entry may be the oldest visible one. */
  predicate MayStart(ck: Checker, backup: bool, e: Entry) {
    if IsBoundary(e) then
      var r := ck.rotation(e.payload);
      r.Some? && (backup || r.value.prior.None? || r.value.archivedTo != "")
    else backup || (e.meta.sequence == 0 && e.meta.prevHash == "")
  }

  /** The entry continues `p`, or names `p` as the end of the chain it replaces. */
  predicate Follows(ck: Checker, p: Entry, e: Entry) {
    if IsBoundary(e) then
      var r := ck.rotation(e.payload);
      r.Some? && r.value.prior == Some(Prior(p.meta.sequence, p.meta.entryHash))
    else e.meta.sequence == Increment(p.meta.sequence) && e.meta.prevHash == p.meta.entryHash
  }

  /** What it means for a log to verify. */
  ghost predicate ValidLog(ck: Checker, lines: seq<Line>) {
    && (forall i :: 0 <= i < |lines| ==>
          EntryOf(ck, lines[i].text).Some? && Sealed(ck, EntryOf(ck, lines[i].text).value))
    && (lines != [] ==> MayStart(ck, lines[0].backup, EntryOf(ck, lines[0].text).value))
    && (forall i :: 0 < i < |lines| ==>
          Follows(ck, EntryOf(ck, lines[i - 1].text).value, EntryOf(ck, lines[i].text).value))
  }

  /** A valid log, written out: every line has readable metadata of the current format and the hash of its content;
      a log that begins with the current file begins with number 0 and no hash; and each entry continues the one
      before it or, as a rotation event, names it. */
  lemma ValidLogSays(ck: Checker, lines: seq<Line>, i: nat)
    requires ValidLog(ck, lines) && i < |lines|
    ensures var e := ParseEntry(ck.codec, lines[i].text);
            && e.Some? && e.value.integrity.Some?
            && var meta, kind, payload := e.value.integrity.value, e.value.kind, e.value.payload;
               && meta.version == 2
               && ck.hash(Fields(2, meta.sequence, meta.prevHash, payload)) == Some(meta.entryHash)
               && (i == 0 && !lines[0].backup ==>
                     && meta.sequence == 0 && meta.prevHash == ""
                     && (kind == "integrity_chain_rotated" ==>
                           && ck.rotation(payload).Some?
                           && (ck.rotation(payload).value.prior.None? || ck.rotation(payload).value.archivedTo != "")))
               && (i > 0 ==>
                     var before := EntryOf(ck, lines[i - 1].text).value.meta;
                     if kind == "integrity_chain_rotated" && meta.sequence == 0 && meta.prevHash == "" then
                       && ck.rotation(payload).Some?
                       && ck.rotation(payload).value.prior == Some(Prior(before.sequence, before.entryHash))
                     else
                       && meta.prevHash == before.entryHash
                       && (before.sequence < MAX_INT64 ==> meta.sequence == before.sequence + 1))
  {
    hide ParseEntry;
    assert Sealed(ck, EntryOf(ck, lines[i].text).value);
    if i > 0 {
      assert EntryOf(ck, lines[i - 1].text).Some?;
      assert Follows(ck, EntryOf(ck, lines[i - 1].text).value, EntryOf(ck, lines[i].text).value);
    }
  }

  datatype LogFile = LogFile(backup: bool, content: Option<string>)

  function Tag(backup: bool, texts: seq<string>): seq<Line> {
    seq(|texts|, i requires 0 <= i < |texts| => Line(backup, texts[i]))
  }

  /** The non-blank lines of a file; a file that has vanished has none. */
  function LinesOf(ck: Checker, f: LogFile): seq<Line> {
    if f.content.None? then [] else Tag(f.backup, NonBlank(ck.trim, f.content.value))
  }

  function AllLines(ck: Checker, files: seq<LogFile>): seq<Line> {
    if files == [] then [] else AllLines(ck, files[..|files| - 1]) + LinesOf(ck, files[|files| - 1])
  }

  /** The loop's running state. */
  datatype VerifyState = VerifyState(expectedSequence: Int64, expectedPrevHash: string, seeded: bool, verified: nat)

  /** The state after the given last verified entry, if any. */
  ghost predicate StateAfter(st: VerifyState, last: Option<Entry>) {
    && (st.seeded <==> last.Some?) && (st.verified > 0 <==> last.Some?)
    && (last.Some? ==>
          && st.expectedSequence == Increment(last.value.meta.sequence)
          && st.expectedPrevHash == last.value.meta.entryHash)
  }

  function Decrement(x: Int64): Int64 { if x == MIN_INT64 then MAX_INT64 else x - 1 }

  method VerifyRotationBoundary(ck: Checker, payload: string, st: VerifyState, backup: bool) returns (ok: bool)
    ensures ok <==>
            var r := ck.rotation(payload);
            && r.Some?
            && (if st.verified == 0 then backup || r.value.prior.None? || r.value.archivedTo != ""
                else r.value.prior == Some(Prior(Decrement(st.expectedSequence), st.expectedPrevHash)))
  {
    var event := ck.rotation(payload);
    if event.None? { return false; }
    var Rotation(archivedTo, prior) := event.value;
    if st.verified == 0 {
      if !backup && prior.Some? && archivedTo == "" { return false; }
      return true;
    }
    if prior.None? { return false; }
    var wantSequence := Decrement(st.expectedSequence);
    if prior.value.lastSequence != wantSequence { return false; }
    if prior.value.lastHash != st.expectedPrevHash { return false; }
    return true;
  }

  /** One line. It is accepted exactly when it is a sealed entry that may start or continue the log. */
  method VerifyLine(ck: Checker, st0: VerifyState, line: Line, ghost last: Option<Entry>)
    returns (ok: bool, st: VerifyState)
    requires ck.Valid() && StateAfter(st0, last)
    ensures ok <==>
            var e := EntryOf(ck, line.text);
            && e.Some? && Sealed(ck, e.value)
            && (if last.None? then MayStart(ck, line.backup, e.value) else Follows(ck, last.value, e.value))
    ensures ok ==> StateAfter(st, EntryOf(ck, line.text))
  {
    hide ParseEntry, VerifyHash, Codec.Faithful;
    st := st0;
    var parsed := ParseEntry(ck.codec, line.text);
    if parsed.None? || parsed.value.integrity.None? { return false, st; }
    var e := Entry(parsed.value.kind, parsed.value.integrity.value, parsed.value.payload);
    if e.meta.version != FORMAT_VERSION { return false, st; }
    var boundary := e.kind == ROTATED && e.meta.sequence == 0 && e.meta.prevHash == "";
    if !st.seeded && line.backup && st.verified == 0 {
      st := st.(expectedSequence := e.meta.sequence, expectedPrevHash := e.meta.prevHash, seeded := true);
    }
    if boundary {
      ok := VerifyRotationBoundary(ck, e.payload, st, line.backup);
      if !ok { return false, st; }
    } else {
      if !st.seeded { st := st.(expectedSequence := 0, expectedPrevHash := "", seeded := true); }
      if e.meta.sequence != st.expectedSequence { return false, st; }
      if e.meta.prevHash != st.expectedPrevHash { return false, st; }
    }
    SealedIsVerified(ck, line.text);
    var verdict := VerifyHash(ck.codec, ck.hash, e.meta, e.payload);
    if verdict != Some(true) { return false, st; }
    return true, VerifyState(Increment(e.meta.sequence), e.meta.entryHash, true, st.verified + 1);
  }

  /** Re-parsing the canonical payload changes nothing, so the hash check is the seal. */
  lemma SealedIsVerified(ck: Checker, text: string)
    requires ck.codec.Faithful() && EntryOf(ck, text).Some? && EntryOf(ck, text).value.meta.version == FORMAT_VERSION
    ensures var e := EntryOf(ck, text).value;
            VerifyHash(ck.codec, ck.hash, e.meta, e.payload) == Some(true) <==> Sealed(ck, e)
  {
    hide Codec.Faithful;
    PayloadParses(ck.codec, text);
  }

  /** Extending a log by one line. */
  lemma ExtendLog(ck: Checker, done: seq<Line>, line: Line)
    requires ValidLog(ck, done)
    ensures ValidLog(ck, done + [line]) <==>
            var e := EntryOf(ck, line.text);
            && e.Some? && Sealed(ck, e.value)
            && (if LastEntry(ck, done).None? then MayStart(ck, line.backup, e.value)
                else Follows(ck, LastEntry(ck, done).value, e.value))
  {
    hide ParseEntry, Sealed, Follows, MayStart, EntryOf;
    var all := done + [line];
    assert all[|done|] == line;
    assert forall i :: 0 <= i < |done| ==> all[i] == done[i];
    if done != [] { assert all[|done| - 1] == done[|done| - 1]; }
  }

  lemma PrefixOfValid(ck: Checker, lines: seq<Line>, n: nat)
    requires ValidLog(ck, lines) && n <= |lines|
    ensures ValidLog(ck, lines[..n])
  {
    hide ParseEntry, Sealed, Follows, MayStart, EntryOf;
  }

  lemma TagAppend(backup: bool, xs: seq<string>, ys: seq<string>)
    ensures Tag(backup, xs + ys) == Tag(backup, xs) + Tag(backup, ys)
  {}

  ghost function LastEntry(ck: Checker, done: seq<Line>): Option<Entry> {
    if done == [] then None else EntryOf(ck, done[|done| - 1].text)
  }

  /** The line loop over one file, continuing a verified log `done`. */
  method VerifyFile(ck: Checker, backup: bool, content: string, st0: VerifyState, ghost done: seq<Line>)
    returns (ok: bool, st: VerifyState)
    requires ck.Valid() && ValidLog(ck, done) && StateAfter(st0, LastEntry(ck, done))
    ensures ok <==> ValidLog(ck, done + Tag(backup, NonBlank(ck.trim, content)))
    ensures ok ==> StateAfter(st, LastEntry(ck, done + Tag(backup, NonBlank(ck.trim, content))))
  {
    hide LinesUpTo, ValidLog, EntryOf, Sealed, MayStart, Follows, StateAfter, Codec.Faithful;
    st := st0;
    var pos := 0;
    NothingYet(ck.trim, content);
    ghost var seen := done;
    assert done + Tag(backup, []) == done;
    while pos < |content|
      invariant 0 <= pos <= |content|
      invariant LineStart(content, pos) == pos || pos == |content|
      invariant seen == done + Tag(backup, LinesUpTo(ck.trim, content, pos))
      invariant ValidLog(ck, seen) && StateAfter(st, LastEntry(ck, seen))
    {
      var n := ReadBytes(content, pos);
      ReadLine(ck.trim, content, pos, n);
      var text := ck.trim(content[pos..n]);
      ghost var before := LinesUpTo(ck.trim, content, pos);
      if text != "" {
        var line := Line(backup, text);
        ExtendLog(ck, seen, line);
        TagAppend(backup, before, [text]);
        assert Tag(backup, [text]) == [line];
        ok, st := VerifyLine(ck, st, line, LastEntry(ck, seen));
        seen := seen + [line];
        assert seen == done + Tag(backup, LinesUpTo(ck.trim, content, n));
        if !ok {
          RejectEarly(ck, backup, content, done, n);
          return;
        }
      }
      pos := n;
    }
    ok := true;
  }

  /** A bad line cannot be repaired by what follows it. */
  lemma RejectEarly(ck: Checker, backup: bool, content: string, done: seq<Line>, n: nat)
    requires n <= |content| && (n == |content| || LineStart(content, n) == n) && ck.trim("") == ""
    requires !ValidLog(ck, done + Tag(backup, LinesUpTo(ck.trim, content, n)))
    ensures !ValidLog(ck, done + Tag(backup, NonBlank(ck.trim, content)))
  {
    hide ValidLog;
    var seen := LinesUpTo(ck.trim, content, n);
    var all := NonBlank(ck.trim, content);
    LinesGrow(ck.trim, content, n, |content|);
    var lines := done + Tag(backup, all);
    assert lines[..|done| + |seen|] == done + Tag(backup, seen);
    if ValidLog(ck, lines) { PrefixOfValid(ck, lines, |done| + |seen|); }
  }

  /** Reading on only appends lines. */
  lemma LinesGrow(trim: Trim, s: string, p: nat, q: nat)
    requires p <= q <= |s| && trim("") == "" && (LineStart(s, p) == p || p == q)
    ensures LinesUpTo(trim, s, p) <= LinesUpTo(trim, s, q)
  {
    if LineStart(s, p) == p {
      TerminatedGrow(trim, s, p, q);
      assert s[p..p] == "";
    }
  }

  lemma {:induction false} TerminatedGrow(trim: Trim, s: string, p: nat, q: nat)
    requires p <= q <= |s|
    ensures Terminated(trim, s, p) <= Terminated(trim, s, q)
  {
    if p < q { TerminatedGrow(trim, s, p, q - 1); }
  }

  lemma {:induction false} AllLinesAppend(ck: Checker, a: seq<LogFile>, b: seq<LogFile>)
    ensures AllLines(ck, a + b) == AllLines(ck, a) + AllLines(ck, b)
  {
    hide LinesOf;
    if b == [] {
      assert a + b == a;
    } else {
      assert (a + b)[..|a + b| - 1] == a + b[..|b| - 1];
      AllLinesAppend(ck, a, b[..|b| - 1]);
    }
  }

  /** The whole verifier accepts exactly the valid logs. */
  method VerifyVisible(ck: Checker, files: seq<LogFile>) returns (ok: bool)
    requires ck.Valid()
    ensures ok <==> ValidLog(ck, AllLines(ck, files))
  {
    hide ValidLog, EntryOf, StateAfter, Codec.Faithful, NonBlank, Tag, LastEntry;
    var st := VerifyState(0, "", false, 0);
    NothingVerified(ck, st);
    var i := 0;
    while i < |files|
      invariant 0 <= i <= |files|
      invariant ValidLog(ck, AllLines(ck, files[..i])) && StateAfter(st, LastEntry(ck, AllLines(ck, files[..i])))
    {
      ghost var done := AllLines(ck, files[..i]);
      assert files[..i + 1][..i] == files[..i];
      assert AllLines(ck, files[..i + 1]) == done + LinesOf(ck, files[i]);
      if files[i].content.None? {
        assert done + LinesOf(ck, files[i]) == done;
      } else {
        ok, st := VerifyFile(ck, files[i].backup, files[i].content.value, st, done);
        if !ok {
          assert files == files[..i + 1] + files[i + 1..];
          AllLinesAppend(ck, files[..i + 1], files[i + 1..]);
          ghost var bad := AllLines(ck, files[..i + 1]);
          assert AllLines(ck, files)[..|bad|] == bad;
          if ValidLog(ck, AllLines(ck, files)) { PrefixOfValid(ck, AllLines(ck, files), |bad|); }
          return;
        }
      }
      i := i + 1;
    }
    assert files[..i] == files;
    ok := true;
  }

  lemma NothingVerified(ck: Checker, st: VerifyState)
    requires !st.seeded && st.verified == 0
    ensures ValidLog(ck, []) && StateAfter(st, LastEntry(ck, []))
  {}
}
