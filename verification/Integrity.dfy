/** The allocator of (sequence, generation) pairs. */
module SequenceAllocators {
  import opened Options
  import opened Decimal

  const MAX_UINT32: UInt32 := 0xFFFF_FFFF

  datatype AllocatorError = SequenceOverflow | GenerationOverflow | InvalidAllocatorState

  class SequenceAllocator {
    var sequence: Int64
    var generation: UInt32

    constructor ()
      ensures sequence == -1 && generation == 0
    { sequence, generation := -1, 0; }

    method Next() returns (seqNo: Int64, gen: UInt32, err: Option<AllocatorError>)
      modifies this
      ensures generation == old(generation)
      ensures err == if old(sequence) == MAX_INT64 then Some(SequenceOverflow) else None
      ensures err.Some? ==> sequence == old(sequence)
      ensures err.None? ==> sequence == old(sequence) + 1 && (seqNo, gen) == (sequence, generation)
    {
      if sequence == MAX_INT64 { return 0, 0, Some(SequenceOverflow); }
      sequence := sequence + 1;
      return sequence, generation, None;
    }

    method NextGeneration() returns (gen: UInt32, err: Option<AllocatorError>)
      modifies this
      ensures err == if old(generation) == MAX_UINT32 then Some(GenerationOverflow) else None
      ensures err.Some? ==> sequence == old(sequence) && generation == old(generation)
      ensures err.None? ==> sequence == -1 && gen == generation == old(generation) + 1
    {
      if generation == MAX_UINT32 { return 0, Some(GenerationOverflow); }
      generation, sequence := generation + 1, -1;
      return generation, None;
    }

    method Restore(seqNo: Int64, gen: UInt32) returns (err: Option<AllocatorError>)
      modifies this
      ensures err == if seqNo < -1 then Some(InvalidAllocatorState) else None
      ensures (sequence, generation) == if err.None? then (seqNo, gen) else (old(sequence), old(generation))
    {
      if seqNo < -1 { return Some(InvalidAllocatorState); }
      sequence, generation := seqNo, gen;
      return None;
    }
  }
}

/** One allocator and one chain behind one mutex: every method is one atomic step. */
module Integrity {
  import opened Options
  import opened Decimal
  import opened Preimage
  import opened AuditJson
  import opened SinkChains
  import opened SequenceAllocators

  /** The key, the algorithm and the JSON library a writer works with. */
  datatype Writer = Writer(hash: Hash, algorithm: string, codec: Codec) {
    ghost predicate Valid() {
      Digests(hash, algorithm) && (forall f :: hash(f).Some?) && codec.Faithful()
    }
  }

  /** The persisted state: the last written sequence (-1 before the first) and its hash. */
  datatype ChainState = ChainState(sequence: Int64, prevHash: string)

  const GENESIS := ChainState(-1, "")

  /** Wrapping a nil map (the payload `null`) panics on the assignment of the metadata. */
  datatype WrapOutcome = Wrapped(line: string) | BadPayload | Overflow | Panicked

  function EntryFields(st: ChainState, payload: string): Fields
    requires st.sequence < MAX_INT64
  { Fields(FORMAT_VERSION, st.sequence + 1, st.prevHash, payload) }

  function EntryMeta(w: Writer, st: ChainState, m: map<string, Json>): Meta
    requires st.sequence < MAX_INT64 && w.hash(EntryFields(st, w.codec.marshal(m))).Some?
  {
    Meta(FORMAT_VERSION, st.sequence + 1, st.prevHash, w.hash(EntryFields(st, w.codec.marshal(m))).value)
  }

  /** One Wrap call: what it returns and the state it leaves. */
  function WrapStep(w: Writer, st: ChainState, payload: string): (WrapOutcome, ChainState)
    requires forall f :: w.hash(f).Some?
  {
    match w.codec.parse(payload)
    case Malformed => (BadPayload, st)
    case NullDocument =>
      if st.sequence == MAX_INT64 then (Overflow, st) else (Panicked, st.(sequence := st.sequence + 1))
    case Document(m) =>
      if st.sequence == MAX_INT64 then (Overflow, st)
      else
        var meta := EntryMeta(w, st, m);
        (Wrapped(w.codec.marshal(m[INTEGRITY := MetaJson(meta)])), ChainState(meta.sequence, meta.entryHash))
  }

  predicate Restorable(algorithm: string, st: ChainState) {
    st.sequence >= -1 && ValidPrevHash(algorithm, st.prevHash)
  }

  class IntegrityChain {
    const codec: Codec
    const alloc: SequenceAllocator
    const chain: SinkChain

    /** In every reachable state the inner chain is not latched and both parts are in generation 0. */
    ghost predicate Valid()
      reads alloc, chain
    {
      && chain.mac.Valid() && Supported(chain.algorithm)
      && chain.generation == 0 && !chain.fatal && alloc.generation == 0
      && Restorable(chain.algorithm, State())
    }

    /** The persisted snapshot. */
    function State(): ChainState
      reads alloc, chain
    { ChainState(alloc.sequence, chain.prevHash) }

    ghost function AsWriter(): Writer { Writer(Keyed(chain.mac, chain.key, chain.algorithm), chain.algorithm, codec) }

    constructor (codec: Codec, chain: SinkChain)
      requires chain.mac.Valid() && Supported(chain.algorithm) && chain.State() == Head(0, "", false)
      ensures Valid() && State() == GENESIS
      ensures this.codec == codec && this.chain == chain && fresh(alloc)
    {
      this.codec, this.chain := codec, chain;
      alloc := new SequenceAllocator();
    }

    /** Wrap follows its specification and keeps the invariant on every outcome. */
    method Wrap(payload: string) returns (r: WrapOutcome)
      requires Valid()
      modifies alloc, chain
      ensures Valid()
      ensures (r, State()) == WrapStep(AsWriter(), old(State()), payload)
      ensures r.BadPayload? <==> codec.parse(payload).Malformed?
      ensures r.Overflow? <==> !codec.parse(payload).Malformed? && old(alloc.sequence) == MAX_INT64
      ensures r.Wrapped? <==> codec.parse(payload).Document? && old(alloc.sequence) < MAX_INT64
      ensures r.BadPayload? || r.Overflow? ==> State() == old(State())
      ensures r.Panicked? || r.Wrapped? ==> alloc.sequence == old(alloc.sequence) + 1
      ensures r.Panicked? ==> chain.prevHash == old(chain.prevHash)
    {
      var data := codec.parse(payload);
      if data.Malformed? { return BadPayload; }
      var canonical := codec.MarshalParsed(data);
      var seqNo, gen, err := alloc.Next();
      if err.Some? { return Overflow; }
      var result, cerr := chain.Compute(FORMAT_VERSION, seqNo, gen, canonical);
      assert result.Some?;
      if data.NullDocument? { return Panicked; }
      var t := result.value.token;
      var meta := Meta(FORMAT_VERSION, seqNo, t.prevHash, t.entryHash);
      var wrapped := codec.marshal(data.fields[INTEGRITY := MetaJson(meta)]);
      cerr := chain.Commit(result);
      assert cerr.None?;
      return Wrapped(wrapped);
    }

    /** All or nothing: a rejected part leaves both parts as they were. */
    method Restore(seqNo: Int64, prev: string) returns (ok: bool)
      requires Valid()
      modifies alloc, chain
      ensures Valid()
      ensures ok == Restorable(chain.algorithm, ChainState(seqNo, prev))
      ensures ok <==>
              && seqNo >= -1
              && (prev == "" || (IsHex(prev) && |prev| == if chain.algorithm == "hmac-sha512" then 128 else 64))
      ensures State() == if ok then ChainState(seqNo, prev) else old(State())
    {
      var oldSequence, oldGeneration := alloc.sequence, alloc.generation;
      var err := alloc.Restore(seqNo, 0);
      if err.Some? { return false; }
      var cerr := chain.Restore(0, prev, false);
      if cerr.Some? {
        err := alloc.Restore(oldSequence, oldGeneration);
        return false;
      }
      return true;
    }
  }

  /** A failed Wrap changes nothing, with one exception: the payload `null` burns a sequence number. */
  lemma FailedWrapIsClean(w: Writer, st: ChainState, payload: string)
    requires w.Valid()
    ensures var (r, st') := WrapStep(w, st, payload);
            !r.Wrapped? ==>
              (st' == st <==> !(w.codec.parse(payload).NullDocument? && st.sequence < MAX_INT64))
  {}

  /** The payload has no metadata key of its own. */
  predicate Clean(codec: Codec, payload: string) {
    codec.parse(payload).Document? && INTEGRITY !in codec.parse(payload).fields
  }

  /** A wrapped line verifies, and parsing it recovers the canonical payload that was hashed. */
  lemma WrapVerifies(w: Writer, st: ChainState, payload: string)
    requires w.Valid() && Restorable(w.algorithm, st) && Clean(w.codec, payload) && st.sequence < MAX_INT64
    ensures var (r, _) := WrapStep(w, st, payload);
            var m := w.codec.parse(payload).fields;
            && r.Wrapped?
            && VerifyWrapped(w.codec, w.hash, r.line) == Some(true)
            && ParseEntry(w.codec, r.line)
               == Some(ParsedEntry(if TextAt(m, "type").Some? then TextAt(m, "type").value else "",
                                   Some(EntryMeta(w, st, m)), w.codec.marshal(m)))
  {
    var m := w.codec.parse(payload).fields;
    var meta := EntryMeta(w, st, m);
    var full := m[INTEGRITY := MetaJson(meta)];
    assert w.codec.Stable(m) && w.codec.Stable(full);
    assert full - {INTEGRITY} == m;
    MetaRoundTrip(meta);
    assert TextAt(full, "type") == TextAt(m, "type");
  }

  /** The round trip holds exactly for payloads without an integrity key, up to a digest clash between the
      payload with the key and the payload without it. */
  lemma RoundTripExactlyWhenClean(w: Writer, st: ChainState, payload: string)
    requires w.Valid() && Restorable(w.algorithm, st) && st.sequence < MAX_INT64
    requires w.codec.parse(payload).Document?
    ensures var m := w.codec.parse(payload).fields;
            var accepted := VerifyWrapped(w.codec, w.hash, WrapStep(w, st, payload).0.line) == Some(true);
            accepted <==>
            (Clean(w.codec, payload)
             || Clash(w.hash, EntryFields(st, w.codec.marshal(m)), EntryFields(st, w.codec.marshal(m - {INTEGRITY}))))
  {
    hide Codec.Faithful, MetaJson, MetaFromJson;
    var m := w.codec.parse(payload).fields;
    var bare := m - {INTEGRITY};
    StableParts(w, st, payload);
    MetaRoundTrip(EntryMeta(w, st, m));
    if Clean(w.codec, payload) {
      assert bare == m;
    } else {
      assert INTEGRITY in m && INTEGRITY !in bare;
    }
  }

  lemma StableParts(w: Writer, st: ChainState, payload: string)
    requires w.Valid() && Restorable(w.algorithm, st) && st.sequence < MAX_INT64
    requires w.codec.parse(payload).Document?
    ensures var m := w.codec.parse(payload).fields;
            var full := m[INTEGRITY := MetaJson(EntryMeta(w, st, m))];
            && w.codec.Stable(m) && w.codec.Stable(full) && w.codec.Stable(m - {INTEGRITY})
            && Closed(w.codec.marshal(m)) && Closed(w.codec.marshal(m - {INTEGRITY}))
            && full - {INTEGRITY} == m - {INTEGRITY}
  {
    hide MetaJson;
    var m := w.codec.parse(payload).fields;
    assert w.codec.Stable(m) && w.codec.Stable(m[INTEGRITY := MetaJson(EntryMeta(w, st, m))]);
  }

  // ---- Whole runs between two Restores ----

  function After(w: Writer, st: ChainState, payloads: seq<string>): ChainState
    requires forall f :: w.hash(f).Some?
  {
    if payloads == [] then st
    else WrapStep(w, After(w, st, payloads[..|payloads| - 1]), payloads[|payloads| - 1]).1
  }

  /** How many of the payloads are JSON documents, `null` included. */
  function WellFormed(codec: Codec, payloads: seq<string>): nat {
    if payloads == [] then 0
    else
      WellFormed(codec, payloads[..|payloads| - 1])
      + if codec.parse(payloads[|payloads| - 1]).Malformed? then 0 else 1
  }

  /** The sequence number counts the well-formed payloads and stops at the largest int64. */
  lemma {:induction false} SequenceCounts(w: Writer, st: ChainState, payloads: seq<string>)
    requires w.Valid() && Restorable(w.algorithm, st)
    ensures Restorable(w.algorithm, After(w, st, payloads))
    ensures var n := st.sequence + WellFormed(w.codec, payloads);
            After(w, st, payloads).sequence == if n < MAX_INT64 then n else MAX_INT64
  {
    if payloads != [] {
      SequenceCounts(w, st, payloads[..|payloads| - 1]);
      WrapKeepsRestorable(w, After(w, st, payloads[..|payloads| - 1]), payloads[|payloads| - 1]);
    }
  }

  lemma WrapKeepsRestorable(w: Writer, st: ChainState, payload: string)
    requires w.Valid() && Restorable(w.algorithm, st)
    ensures Restorable(w.algorithm, WrapStep(w, st, payload).1)
  {
    var p := w.codec.parse(payload);
    if p.Document? && st.sequence < MAX_INT64 {
      assert IsDigest(w.algorithm, EntryMeta(w, st, p.fields).entryHash);
    }
  }

  /** The entry written after any run carries the next number: numbers are consecutive but for the payload
      `null`, which uses one up without an entry. */
  lemma NumbersAreConsecutive(w: Writer, st: ChainState, payloads: seq<string>, payload: string)
    requires w.Valid() && Restorable(w.algorithm, st)
    ensures var (r, _) := WrapStep(w, After(w, st, payloads), payload);
            r.Wrapped? ==>
              && ParseEntry(w.codec, r.line).Some? && ParseEntry(w.codec, r.line).value.integrity.Some?
              && ParseEntry(w.codec, r.line).value.integrity.value.sequence
                 == st.sequence + 1 + WellFormed(w.codec, payloads)
  {
    hide After;
    SequenceCounts(w, st, payloads);
    var last := After(w, st, payloads);
    if w.codec.parse(payload).Document? && last.sequence < MAX_INT64 {
      var m := w.codec.parse(payload).fields;
      var meta := EntryMeta(w, last, m);
      assert w.codec.Stable(m) && w.codec.Stable(m[INTEGRITY := MetaJson(meta)]);
      MetaRoundTrip(meta);
    }
  }
}
