/** The persisted chain state next to the log, and what a restart through it preserves. */
module Sidecar {
  import opened Options
  import opened Decimal
  import opened Preimage
  import opened AuditJson
  import opened Integrity

  /** The file as decoded: every field may be missing. */
  datatype Disk = Disk(
    version: Option<int>, sequence: Option<Int64>, prevHash: Option<string>, fingerprint: Option<string>)

  datatype SidecarState = SidecarState(chain: ChainState, fingerprint: string)

  datatype ReadResult = Accepted(state: SidecarState) | Corrupt | UnsupportedFormat

  /** Every field is there, with a version and a fingerprint that say something. */
  predicate Complete(disk: Disk) {
    && disk.version.Some? && disk.version.value > 0 && disk.sequence.Some? && disk.prevHash.Some?
    && disk.fingerprint.Some? && disk.fingerprint.value != ""
  }

  /** A missing field is corruption; a newer format is told from it; and of the current formats exactly the states
      with no hash before the first entry and a hex one after it are accepted, unchanged. */
  function ReadSidecar(disk: Disk): (r: ReadResult)
    ensures disk.version.None? || disk.sequence.None? || disk.prevHash.None? || disk.fingerprint.None? ==> r.Corrupt?
    ensures disk.version == Some(0) || disk.fingerprint == Some("") ==> r.Corrupt?
    ensures r.UnsupportedFormat? <==> Complete(disk) && disk.version.value > 2
    ensures r.Accepted? <==>
            && Complete(disk) && disk.version.value <= 2
            && (|| (disk.sequence.value == -1 && disk.prevHash.value == "")
                || (disk.sequence.value >= 0 && disk.prevHash.value != "" && IsHex(disk.prevHash.value)))
    ensures r.Accepted? ==>
              && Some(r.state.chain.sequence) == disk.sequence && Some(r.state.chain.prevHash) == disk.prevHash
              && Some(r.state.fingerprint) == disk.fingerprint
  {
    if disk.version.None? || disk.version.value <= 0 then Corrupt
    else if disk.sequence.None? then Corrupt
    else if disk.prevHash.None? then Corrupt
    else if disk.fingerprint.None? || disk.fingerprint.value == "" then Corrupt
    else
      var sequence, prevHash := disk.sequence.value, disk.prevHash.value;
      if disk.version.value > FORMAT_VERSION then UnsupportedFormat
      else if sequence < -1 then Corrupt
      else if sequence < 0 && prevHash != "" then Corrupt
      else if sequence >= 0 && prevHash == "" then Corrupt
      else if prevHash != "" && !IsHex(prevHash) then Corrupt
      else Accepted(SidecarState(ChainState(sequence, prevHash), disk.fingerprint.value))
  }

  /** What WriteSidecar puts in the file: the current format, whatever the caller filled in. */
  function Persisted(st: ChainState, fingerprint: string): Disk {
    Disk(Some(FORMAT_VERSION), Some(st.sequence), Some(st.prevHash), Some(fingerprint))
  }

  /** A state in which nothing written and no hash go together. */
  predicate Coherent(algorithm: string, st: ChainState) {
    Restorable(algorithm, st) && (st.sequence == -1 <==> st.prevHash == "")
  }

  /** Reading back what was written accepts a restorable state exactly when it is coherent, and unchanged. */
  lemma PersistedReadsBack(algorithm: string, st: ChainState, fingerprint: string)
    requires Restorable(algorithm, st) && fingerprint != ""
    ensures ReadSidecar(Persisted(st, fingerprint))
            == if Coherent(algorithm, st) then Accepted(SidecarState(st, fingerprint)) else Corrupt
    ensures Persisted(st, fingerprint).version == Some(2)
  {}

  /** Every accepted sidecar whose hash fits the algorithm is a coherent state. */
  lemma AcceptedIsCoherent(algorithm: string, disk: Disk)
    requires ReadSidecar(disk).Accepted? && Restorable(algorithm, ReadSidecar(disk).state.chain)
    ensures Coherent(algorithm, ReadSidecar(disk).state.chain)
  {}

  /** Wrap keeps coherence, except for the payload `null` on a chain that has written nothing. */
  lemma WrapKeepsCoherence(w: Writer, st: ChainState, payload: string)
    requires w.Valid() && Coherent(w.algorithm, st)
    ensures Coherent(w.algorithm, WrapStep(w, st, payload).1)
            <==> !(st == GENESIS && w.codec.parse(payload).NullDocument?)
  {
    var p := w.codec.parse(payload);
    if p.Document? && st.sequence < MAX_INT64 {
      var meta := EntryMeta(w, st, p.fields);
      assert IsDigest(w.algorithm, meta.entryHash);
    }
  }

  datatype Op = Append(payload: string) | Restart

  /** The outcomes of a run. A restart persists the state, reads it back and restores a fresh chain;
      where that is refused the run ends. */
  function Outcomes(w: Writer, fingerprint: string, st: ChainState, ops: seq<Op>): (seq<WrapOutcome>, ChainState)
    requires forall f :: w.hash(f).Some?
    decreases |ops|
  {
    if ops == [] then ([], st)
    else match ops[0]
      case Append(payload) =>
        var step := WrapStep(w, st, payload);
        var rest := Outcomes(w, fingerprint, step.1, ops[1..]);
        ([step.0] + rest.0, rest.1)
      case Restart =>
        var back := ReadSidecar(Persisted(st, fingerprint));
        if back.Accepted? && Restorable(w.algorithm, back.state.chain)
        then Outcomes(w, fingerprint, back.state.chain, ops[1..])
        else ([], st)
  }

  function WithoutRestarts(ops: seq<Op>): seq<Op> {
    if ops == [] then []
    else (if ops[0].Restart? then [] else [ops[0]]) + WithoutRestarts(ops[1..])
  }

  predicate AllRestarts(ops: seq<Op>) { forall i :: 0 <= i < |ops| ==> ops[i].Restart? }

  predicate AllAppends(ops: seq<Op>) { forall i :: 0 <= i < |ops| ==> ops[i].Append? }

  /** No restart with writes after it falls into an incoherent state. From a coherent state the run can only be
      incoherent between a `null` payload before the first entry and that entry. */
  ghost predicate NeverStranded(w: Writer, st: ChainState, ops: seq<Op>)
    requires forall f :: w.hash(f).Some?
    decreases |ops|
  {
    if ops == [] then true
    else match ops[0]
      case Append(payload) => NeverStranded(w, WrapStep(w, st, payload).1, ops[1..])
      case Restart =>
        if Coherent(w.algorithm, st) then NeverStranded(w, st, ops[1..]) else AllRestarts(ops[1..])
  }

  lemma {:induction false} EveryAppendReturns(w: Writer, fingerprint: string, st: ChainState, ops: seq<Op>)
    requires (forall f :: w.hash(f).Some?) && AllAppends(ops)
    ensures |Outcomes(w, fingerprint, st, ops).0| == |ops|
    decreases |ops|
  {
    hide WrapStep;
    if ops != [] { EveryAppendReturns(w, fingerprint, WrapStep(w, st, ops[0].payload).1, ops[1..]); }
  }

  lemma {:induction false} OnlyAppendsRemain(ops: seq<Op>)
    ensures AllAppends(WithoutRestarts(ops))
    ensures WithoutRestarts(ops) == [] <==> AllRestarts(ops)
  {
    if ops != [] {
      OnlyAppendsRemain(ops[1..]);
      assert ops == [ops[0]] + ops[1..];
    }
  }

  /** Restarts are invisible: with any number of them anywhere in a run, every Wrap returns what it would have
      returned without them, and the final state is the same, exactly when the run is never stranded. */
  lemma {:induction false} RestartsAreInvisible(w: Writer, fingerprint: string, st: ChainState, ops: seq<Op>)
    requires w.Valid() && fingerprint != "" && Restorable(w.algorithm, st)
    ensures Outcomes(w, fingerprint, st, ops) == Outcomes(w, fingerprint, st, WithoutRestarts(ops))
            <==> NeverStranded(w, st, ops)
    decreases |ops|
  {
    hide WrapStep, Coherent, ReadSidecar, Restorable;
    if ops != [] {
      if ops[0].Append? {
        AppendStep(w, fingerprint, st, ops);
      } else {
        assert WithoutRestarts(ops) == WithoutRestarts(ops[1..]);
        PersistedReadsBack(w.algorithm, st, fingerprint);
        if Coherent(w.algorithm, st) {
          RestartsAreInvisible(w, fingerprint, st, ops[1..]);
        } else {
          OnlyAppendsRemain(ops[1..]);
          EveryAppendReturns(w, fingerprint, st, WithoutRestarts(ops[1..]));
        }
      }
    }
  }

  lemma AppendStep(w: Writer, fingerprint: string, st: ChainState, ops: seq<Op>)
    requires w.Valid() && fingerprint != "" && Restorable(w.algorithm, st)
    requires ops != [] && ops[0].Append?
    ensures Outcomes(w, fingerprint, st, ops) == Outcomes(w, fingerprint, st, WithoutRestarts(ops))
            <==> NeverStranded(w, st, ops)
    decreases |ops|, 0
  {
    hide WrapStep, Coherent, ReadSidecar, Restorable;
    var step := WrapStep(w, st, ops[0].payload);
    WrapKeepsRestorable(w, st, ops[0].payload);
    RestartsAreInvisible(w, fingerprint, step.1, ops[1..]);
    var slim := [ops[0]] + WithoutRestarts(ops[1..]);
    assert slim[0] == ops[0] && slim[1..] == WithoutRestarts(ops[1..]);
    assert WithoutRestarts(ops) == slim;
    var (a, b) := (Outcomes(w, fingerprint, step.1, ops[1..]), Outcomes(w, fingerprint, step.1, slim[1..]));
    assert ([step.0] + a.0)[1..] == a.0 && ([step.0] + b.0)[1..] == b.0;
  }

  /** Without `null` payloads a run that starts coherent is never stranded. */
  lemma {:induction false} WithoutNullNeverStranded(w: Writer, st: ChainState, ops: seq<Op>)
    requires w.Valid() && Coherent(w.algorithm, st)
    requires forall i :: 0 <= i < |ops| && ops[i].Append? ==> !w.codec.parse(ops[i].payload).NullDocument?
    ensures NeverStranded(w, st, ops)
    decreases |ops|
  {
    hide WrapStep, Coherent;
    if ops != [] {
      if ops[0].Append? {
        WrapKeepsCoherence(w, st, ops[0].payload);
        WithoutNullNeverStranded(w, WrapStep(w, st, ops[0].payload).1, ops[1..]);
      } else {
        WithoutNullNeverStranded(w, st, ops[1..]);
      }
    }
  }

  // ---- The same on the operations alone ----

  predicate IsNull(codec: Codec, op: Op) { op.Append? && codec.parse(op.payload).NullDocument? }

  predicate IsDocument(codec: Codec, op: Op) { op.Append? && codec.parse(op.payload).Document? }

  /** A restart at `b`, before any entry, and a write after it. */
  predicate StrandsAt(codec: Codec, ops: seq<Op>, b: nat, c: nat) {
    b < c < |ops| && ops[b].Restart? && ops[c].Append? && forall i :: 0 <= i < b ==> !IsDocument(codec, ops[i])
  }

  predicate Strands(codec: Codec, ops: seq<Op>) {
    exists b, c :: 0 <= b < c < |ops| && StrandsAt(codec, ops, b, c)
  }

  /** A `null` payload, then a restart before any entry, then a write. */
  predicate StrandsAfterNull(codec: Codec, ops: seq<Op>) {
    exists a, b, c :: 0 <= a < b < c < |ops| && IsNull(codec, ops[a]) && StrandsAt(codec, ops, b, c)
  }

  /** Once an entry is written there is always a hash. */
  lemma {:induction false} SettledNeverStranded(w: Writer, st: ChainState, ops: seq<Op>)
    requires w.Valid() && Coherent(w.algorithm, st) && st != GENESIS
    ensures NeverStranded(w, st, ops)
    decreases |ops|
  {
    hide WrapStep, Coherent;
    if ops != [] {
      if ops[0].Append? {
        WrapKeepsCoherence(w, st, ops[0].payload);
        NotGenesisAgain(w, st, ops[0].payload);
        SettledNeverStranded(w, WrapStep(w, st, ops[0].payload).1, ops[1..]);
      } else {
        SettledNeverStranded(w, st, ops[1..]);
      }
    }
  }

  lemma NotGenesisAgain(w: Writer, st: ChainState, payload: string)
    requires w.Valid() && Coherent(w.algorithm, st)
    ensures WrapStep(w, st, payload).1 == GENESIS ==> st == GENESIS
  {}

  /** Dropping an operation that writes no entry. */
  lemma StrandsShift(codec: Codec, ops: seq<Op>)
    requires ops != [] && !IsDocument(codec, ops[0])
    ensures Strands(codec, ops) <==> (ops[0].Restart? && !AllRestarts(ops[1..])) || Strands(codec, ops[1..])
  {
    hide IsDocument, StrandsAt;
    var rest := ops[1..];
    if ops[0].Restart? && !AllRestarts(rest) {
      var c :| 0 <= c < |rest| && !rest[c].Restart?;
      assert StrandsAt(codec, ops, 0, c + 1) by { StrandsAtFirst(codec, ops, c + 1); }
    }
    if Strands(codec, rest) {
      var b, c :| 0 <= b < c < |rest| && StrandsAt(codec, rest, b, c);
      ShiftAt(codec, ops, b, c);
    }
    if Strands(codec, ops) {
      var b, c :| 0 <= b < c < |ops| && StrandsAt(codec, ops, b, c);
      if b > 0 { ShiftAt(codec, ops, b - 1, c - 1); } else { StrandsAtFirst(codec, ops, c); }
    }
  }

  lemma StrandsAtFirst(codec: Codec, ops: seq<Op>, c: nat)
    requires 0 < c < |ops|
    ensures StrandsAt(codec, ops, 0, c) <==> ops[0].Restart? && ops[1..][c - 1].Append?
  {}

  lemma StrandsAfterNullShift(codec: Codec, ops: seq<Op>)
    requires ops != [] && !IsDocument(codec, ops[0])
    ensures StrandsAfterNull(codec, ops) <==>
            (IsNull(codec, ops[0]) && Strands(codec, ops[1..])) || StrandsAfterNull(codec, ops[1..])
  {
    hide IsDocument, IsNull, StrandsAt;
    var rest := ops[1..];
    if IsNull(codec, ops[0]) && Strands(codec, rest) {
      var b, c :| 0 <= b < c < |rest| && StrandsAt(codec, rest, b, c);
      ShiftAt(codec, ops, b, c);
      assert 0 <= 0 < b + 1 < c + 1 < |ops|;
    }
    if StrandsAfterNull(codec, rest) {
      var a, b, c :| 0 <= a < b < c < |rest| && IsNull(codec, rest[a]) && StrandsAt(codec, rest, b, c);
      ShiftAt(codec, ops, b, c);
      assert IsNull(codec, ops[a + 1]);
    }
    if StrandsAfterNull(codec, ops) {
      var a, b, c :| 0 <= a < b < c < |ops| && IsNull(codec, ops[a]) && StrandsAt(codec, ops, b, c);
      ShiftAt(codec, ops, b - 1, c - 1);
      if a > 0 { assert IsNull(codec, rest[a - 1]); }
    }
  }

  lemma ShiftAt(codec: Codec, ops: seq<Op>, b: nat, c: nat)
    requires ops != [] && !IsDocument(codec, ops[0]) && b < c < |ops| - 1
    ensures StrandsAt(codec, ops[1..], b, c) <==> StrandsAt(codec, ops, b + 1, c + 1)
  {
    hide IsDocument;
    var rest := ops[1..];
    if forall i :: 0 <= i < b ==> !IsDocument(codec, rest[i]) {
      forall i | 0 <= i < b + 1 ensures !IsDocument(codec, ops[i]) {
        if i > 0 { assert ops[i] == rest[i - 1]; }
      }
    }
    if forall i :: 0 <= i < b + 1 ==> !IsDocument(codec, ops[i]) {
      forall i | 0 <= i < b ensures !IsDocument(codec, rest[i]) { assert rest[i] == ops[i + 1]; }
    }
  }

  /** An entry first: nothing can strand behind it. */
  lemma DocumentFirst(codec: Codec, ops: seq<Op>)
    requires ops != [] && IsDocument(codec, ops[0])
    ensures !Strands(codec, ops) && !StrandsAfterNull(codec, ops)
  {
    forall b, c | 0 <= b < c < |ops| ensures !StrandsAt(codec, ops, b, c) {
      if b > 0 { assert IsDocument(codec, ops[0]); }
    }
  }

  /** With a number used up and no hash. */
  lemma {:induction false} BurntStrands(w: Writer, st: ChainState, ops: seq<Op>)
    requires w.Valid() && st.prevHash == "" && 0 <= st.sequence <= MAX_INT64 - |ops|
    ensures NeverStranded(w, st, ops) <==> !Strands(w.codec, ops)
    decreases |ops|
  {
    hide Strands, StrandsAfterNull, WrapStep;
    if ops == [] {
      NoOps(w.codec);
    } else if IsDocument(w.codec, ops[0]) {
      DocumentFirst(w.codec, ops);
      FirstEntry(w, st, ops[0].payload);
      SettledNeverStranded(w, WrapStep(w, st, ops[0].payload).1, ops[1..]);
    } else {
      StrandsShift(w.codec, ops);
      if ops[0].Append? {
        NoEntry(w, st, ops[0]);
        BurntStrands(w, WrapStep(w, st, ops[0].payload).1, ops[1..]);
      } else {
        if AllRestarts(ops[1..]) { OnlyRestarts(w.codec, ops[1..]); }
      }
    }
  }

  lemma NoOps(codec: Codec)
    ensures !Strands(codec, []) && !StrandsAfterNull(codec, [])
  {}

  lemma OnlyRestarts(codec: Codec, ops: seq<Op>)
    requires AllRestarts(ops)
    ensures !Strands(codec, ops)
  {}

  lemma FirstEntry(w: Writer, st: ChainState, payload: string)
    requires w.Valid() && st.prevHash == "" && -1 <= st.sequence < MAX_INT64 && w.codec.parse(payload).Document?
    ensures Coherent(w.algorithm, WrapStep(w, st, payload).1) && WrapStep(w, st, payload).1 != GENESIS
  {
    assert IsDigest(w.algorithm, EntryMeta(w, st, w.codec.parse(payload).fields).entryHash);
  }

  lemma NoEntry(w: Writer, st: ChainState, op: Op)
    requires w.Valid() && op.Append? && !IsDocument(w.codec, op) && st.sequence < MAX_INT64
    ensures WrapStep(w, st, op.payload).1 ==
            if IsNull(w.codec, op) then ChainState(st.sequence + 1, st.prevHash) else st
  {}

  lemma {:induction false} FreshStrands(w: Writer, ops: seq<Op>)
    requires w.Valid() && |ops| <= MAX_INT64
    ensures NeverStranded(w, GENESIS, ops) <==> !StrandsAfterNull(w.codec, ops)
    decreases |ops|
  {
    hide Strands, StrandsAfterNull, WrapStep;
    if ops == [] {
      NoOps(w.codec);
    } else if IsDocument(w.codec, ops[0]) {
      DocumentFirst(w.codec, ops);
      FirstEntry(w, GENESIS, ops[0].payload);
      SettledNeverStranded(w, WrapStep(w, GENESIS, ops[0].payload).1, ops[1..]);
    } else {
      StrandsAfterNullShift(w.codec, ops);
      if ops[0].Append? { NoEntry(w, GENESIS, ops[0]); }
      if IsNull(w.codec, ops[0]) {
        BurntStrands(w, ChainState(0, ""), ops[1..]);
        if StrandsAfterNull(w.codec, ops[1..]) { WeakerStrands(w.codec, ops[1..]); }
      } else {
        FreshStrands(w, ops[1..]);
      }
    }
  }

  lemma WeakerStrands(codec: Codec, ops: seq<Op>)
    requires StrandsAfterNull(codec, ops)
    ensures Strands(codec, ops)
  {}

  /** From a coherent state a run is stranded exactly when the chain has written nothing and the operations hold a
      `null` payload, then a restart before any entry, then a write. (Fewer than 2^63 operations: beyond that the
      numbers run out.) */
  lemma StrandedExactly(w: Writer, st: ChainState, ops: seq<Op>)
    requires w.Valid() && Coherent(w.algorithm, st) && |ops| <= MAX_INT64
    ensures NeverStranded(w, st, ops) <==> !(st == GENESIS && StrandsAfterNull(w.codec, ops))
  {
    hide NeverStranded, StrandsAfterNull, Coherent;
    if st == GENESIS { FreshStrands(w, ops); } else { SettledNeverStranded(w, st, ops); }
  }

  /** From every accepted sidecar whose hash fits the algorithm, restarts are invisible, exactly unless nothing had
      been written and the run strands after a `null` payload. */
  lemma RestartsFromSidecar(w: Writer, fingerprint: string, disk: Disk, ops: seq<Op>)
    requires w.Valid() && fingerprint != "" && |ops| <= MAX_INT64
    requires ReadSidecar(disk).Accepted? && Restorable(w.algorithm, ReadSidecar(disk).state.chain)
    ensures var st := ReadSidecar(disk).state.chain;
            Outcomes(w, fingerprint, st, ops) == Outcomes(w, fingerprint, st, WithoutRestarts(ops))
            <==> !(st == GENESIS && StrandsAfterNull(w.codec, ops))
  {
    hide NeverStranded, StrandsAfterNull, Outcomes, ReadSidecar, Restorable;
    AcceptedIsCoherent(w.algorithm, disk);
    RestartsAreInvisible(w, fingerprint, ReadSidecar(disk).state.chain, ops);
    StrandedExactly(w, ReadSidecar(disk).state.chain, ops);
  }

  /** Without the exclusion it fails: after the payload `null` on a new chain, the persisted state is refused. */
  lemma NullPayloadBlocksRestart(w: Writer, fingerprint: string, nil: string, payload: string)
    requires w.Valid() && fingerprint != ""
    requires w.codec.parse(nil).NullDocument? && w.codec.parse(payload).Document?
    ensures Outcomes(w, fingerprint, GENESIS, [Append(nil), Restart, Append(payload)]).0 == [Panicked]
    ensures |Outcomes(w, fingerprint, GENESIS, [Append(nil), Append(payload)]).0| == 2
  {
    assert WrapStep(w, GENESIS, nil) == (Panicked, ChainState(0, ""));
    var burnt := ChainState(0, "");
    assert ReadSidecar(Persisted(burnt, fingerprint)) == Corrupt;
    assert [Append(nil), Restart, Append(payload)][1..] == [Restart, Append(payload)];
    assert Outcomes(w, fingerprint, burnt, [Restart, Append(payload)]) == ([], burnt);
    assert [Append(nil), Append(payload)][1..] == [Append(payload)];
    assert [Append(payload)][1..] == [];
    assert |Outcomes(w, fingerprint, burnt, [Append(payload)]).0| == 1;
  }
}
