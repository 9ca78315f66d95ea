/** The per-sink hash chain: a read-only Compute, a checked Commit and a sticky fatal latch. */
module SinkChains {
  import opened Options
  import opened Decimal
  import opened Preimage

  const MIN_KEY_LENGTH := 32

  datatype ChainError =
    | NilResult | FatalIntegrity | CrossChainResult | BackwardsGeneration | StaleResult
    | InvalidChainState | UnsupportedAlgorithm | KeyTooShort

  /** The mutable part of a chain. */
  datatype Head = Head(generation: UInt32, prevHash: string, fatal: bool)

  /** The immutable content of a ComputeResult. */
  datatype Token = Token(entryHash: string, prevHash: string, sequence: Int64, generation: UInt32)

  /** The hash an entry of the given generation is chained against. */
  function PrevFor(h: Head, generation: UInt32): string {
    if generation == h.generation then h.prevHash else ""
  }

  /** When a commit extends the chain: `own` says that this chain computed the token. */
  predicate Extends(h: Head, own: bool, t: Token) {
    && !h.fatal && own
    && h.generation <= t.generation
    && t.prevHash == PrevFor(h, t.generation)
  }

  function CommitHead(h: Head, own: bool, t: Token): Head {
    if Extends(h, own, t) then Head(t.generation, t.entryHash, false) else h.(fatal := true)
  }

  /** A hash that may be restored: none yet, or a hex digest of the algorithm's size. */
  predicate ValidPrevHash(algorithm: string, prevHash: string) {
    prevHash == "" || IsDigest(algorithm, prevHash)
  }

  /** A result is bound to the chain object that computed it. */
  datatype ComputeResult = ComputeResult(token: Token, chain: SinkChain)

  class SinkChain {
    const mac: Mac
    const key: string
    const algorithm: string
    var generation: UInt32
    var prevHash: string
    var fatal: bool

    function State(): Head
      reads this
    { Head(generation, prevHash, fatal) }

    constructor (mac: Mac, key: string, algorithm: string)
      ensures this.mac == mac && this.key == key && this.algorithm == algorithm
      ensures State() == Head(0, "", false)
    {
      this.mac, this.key, this.algorithm := mac, key, algorithm;
      generation, prevHash, fatal := 0, "", false;
    }

    static method New(mac: Mac, key: string, algorithm: string) returns (chain: SinkChain?, err: Option<ChainError>)
      ensures chain == null <==> err.Some?
      ensures err == if |key| < MIN_KEY_LENGTH then Some(KeyTooShort)
                     else if !Supported(algorithm) then Some(UnsupportedAlgorithm)
                     else None
      ensures chain != null ==>
                && fresh(chain) && chain.State() == Head(0, "", false) && chain.mac == mac && chain.key == key
                && chain.algorithm == if algorithm == "" then SHA256_NAME else algorithm
    {
      if |key| < MIN_KEY_LENGTH { return null, Some(KeyTooShort); }
      var alg := if algorithm == "" then SHA256_NAME else algorithm;
      if alg != SHA256_NAME && alg != SHA512_NAME { return null, Some(UnsupportedAlgorithm); }
      chain := new SinkChain(mac, key, alg);
      err := None;
    }

    method Compute(version: int, sequence: Int64, gen: UInt32, payload: string)
      returns (result: Option<ComputeResult>, err: Option<ChainError>)
      ensures result.None? <==> err.Some?
      ensures fatal ==> err == Some(FatalIntegrity)
      ensures !fatal ==>
                var hash := EntryHash(mac, key, algorithm, Fields(version, sequence, PrevFor(State(), gen), payload));
                if hash.None? then err == Some(UnsupportedAlgorithm)
                else result == Some(ComputeResult(Token(hash.value, PrevFor(State(), gen), sequence, gen), this))
    {
      if fatal { return None, Some(FatalIntegrity); }
      var prev := prevHash;
      if gen != generation { prev := ""; }
      var hash := EntryHash(mac, key, algorithm, Fields(version, sequence, prev, payload));
      if hash.None? { return None, Some(UnsupportedAlgorithm); }
      return Some(ComputeResult(Token(hash.value, prev, sequence, gen), this)), None;
    }

    /** No error exactly when the token extends the chain; every refusal but a nil result latches. */
    method Commit(result: Option<ComputeResult>) returns (err: Option<ChainError>)
      modifies this
      ensures result.None? ==> err == Some(NilResult) && State() == old(State())
      ensures result.Some? ==>
                var own, t := result.value.chain == this, result.value.token;
                && State() == CommitHead(old(State()), own, t)
                && (err.None? <==> Extends(old(State()), own, t))
                && (err == Some(FatalIntegrity) <==> old(fatal))
                && (err == Some(CrossChainResult) <==> !old(fatal) && !own)
                && (err == Some(BackwardsGeneration) <==> !old(fatal) && own && t.generation < old(generation))
                && (err.Some? ==> err.value in {FatalIntegrity, CrossChainResult, BackwardsGeneration, StaleResult})
                && (err.Some? ==> fatal && generation == old(generation) && prevHash == old(prevHash))
                && (err.None? ==>
                      && !fatal && generation == t.generation && prevHash == t.entryHash
                      && own && !old(fatal) && old(generation) <= t.generation
                      && t.prevHash == if t.generation == old(generation) then old(prevHash) else "")
    {
      if result.None? { return Some(NilResult); }
      if fatal { return Some(FatalIntegrity); }
      var t := result.value.token;
      if result.value.chain != this {
        fatal := true;
        return Some(CrossChainResult);
      }
      if t.generation < generation {
        fatal := true;
        return Some(BackwardsGeneration);
      }
      if t.generation == generation {
        if t.prevHash != prevHash {
          fatal := true;
          return Some(StaleResult);
        }
      } else if t.prevHash != "" {
        fatal := true;
        return Some(StaleResult);
      }
      generation, prevHash := t.generation, t.entryHash;
      return None;
    }

    method Fatal()
      modifies this
      ensures State() == old(State()).(fatal := true)
    { fatal := true; }

    method Restore(gen: UInt32, prev: string, latched: bool) returns (err: Option<ChainError>)
      modifies this
      ensures err == if ValidPrevHash(algorithm, prev) then None else Some(InvalidChainState)
      ensures err.None? <==> prev == "" || (IsHex(prev) && |prev| == if algorithm == "hmac-sha512" then 128 else 64)
      ensures State() == if err.None? then Head(gen, prev, latched) else old(State())
    {
      if prev != "" {
        var wantBytes := if algorithm == SHA512_NAME then 64 else 32;
        if |prev| != wantBytes * 2 || !IsHex(prev) { return Some(InvalidChainState); }
      }
      generation, prevHash, fatal := gen, prev, latched;
      return None;
    }
  }
}

/** Any interleaving of operations on one chain, and why it never forks. */
module ForkFreedom {
  import opened Options
  import opened Decimal
  import opened Preimage
  import opened SinkChains

  datatype Settings = Settings(hash: Hash, algorithm: string) {
    ghost predicate Valid() { Digests(hash, algorithm) }
  }

  /** A computed result together with the content it was computed from. */
  datatype Issue = Issue(token: Token, fields: Fields)

  /** Calls in the order their locked regions run. `Commit(i)` presents the i-th result this chain
      computed, `CommitForeign` a result of another chain. */
  datatype Op =
    | Compute(version: int, sequence: Int64, generation: UInt32, payload: string)
    | Commit(issue: nat)
    | CommitForeign(token: Token)
    | Latch
    | Restore(generation: UInt32, prevHash: string, latched: bool)

  /** The chain, every result computed so far, which of them were committed, in order, and the restored hashes
      that no commit of their generation had produced. */
  datatype World = World(head: Head, issued: seq<Issue>, committed: seq<nat>, foreign: seq<(UInt32, string)>)

  const FRESH := World(Head(0, "", false), [], [], [])

  /** A commit of the generation produced the hash. */
  predicate Produced(w: World, generation: UInt32, hash: string) {
    exists k :: 0 <= k < |w.committed| && w.committed[k] < |w.issued|
                && w.issued[w.committed[k]].token.generation == generation
                && w.issued[w.committed[k]].token.entryHash == hash
  }

  function Step(env: Settings, w: World, op: Op): World {
    match op
    case Compute(version, sequence, generation, payload) =>
      var fields := Fields(version, sequence, PrevFor(w.head, generation), payload);
      if w.head.fatal || env.hash(fields).None? then w
      else w.(issued := w.issued + [Issue(Token(env.hash(fields).value, fields.prev, sequence, generation), fields)])
    case Commit(i) =>
      if i >= |w.issued| then w
      else
        var t := w.issued[i].token;
        w.(head := CommitHead(w.head, true, t),
           committed := if Extends(w.head, true, t) then w.committed + [i] else w.committed)
    case CommitForeign(t) => w.(head := CommitHead(w.head, false, t))
    case Latch => w.(head := w.head.(fatal := true))
    case Restore(generation, prevHash, latched) =>
      if !ValidPrevHash(env.algorithm, prevHash) then w
      else
        w.(head := Head(generation, prevHash, latched),
           foreign := if prevHash == "" || Produced(w, generation, prevHash) then w.foreign
                      else w.foreign + [(generation, prevHash)])
  }

  function Exec(env: Settings, ops: seq<Op>): World {
    if ops == [] then FRESH else Step(env, Exec(env, ops[..|ops| - 1]), ops[|ops| - 1])
  }

  ghost predicate NoRestore(ops: seq<Op>) { forall i :: 0 <= i < |ops| ==> !ops[i].Restore? }

  /** Every Restore is refused or puts back the generation and hash that the chain has at that moment. */
  ghost predicate RestoresInPlace(env: Settings, ops: seq<Op>) {
    ops == [] ||
    (&& RestoresInPlace(env, ops[..|ops| - 1])
     && var op, head := ops[|ops| - 1], Exec(env, ops[..|ops| - 1]).head;
        (op.Restore? && ValidPrevHash(env.algorithm, op.prevHash) ==>
           op.generation == head.generation && op.prevHash == head.prevHash))
  }

  /** The tokens committed so far, oldest first. */
  ghost function Commits(w: World): seq<Token>
    requires InRange(w)
  { seq(|w.committed|, k requires 0 <= k < |w.committed| => w.issued[w.committed[k]].token) }

  ghost predicate InRange(w: World) { forall k :: 0 <= k < |w.committed| ==> w.committed[k] < |w.issued| }

  /** Each token continues the one before it, or opens a later generation with an empty previous hash. */
  ghost predicate LinkedAt(ts: seq<Token>, k: nat)
    requires k < |ts|
  {
    if k == 0 then ts[k].prevHash == ""
    else if ts[k].generation == ts[k - 1].generation then ts[k].prevHash == ts[k - 1].entryHash
    else ts[k - 1].generation < ts[k].generation && ts[k].prevHash == ""
  }

  ghost predicate Linked(ts: seq<Token>) { forall k :: 0 <= k < |ts| ==> LinkedAt(ts, k) }

  /** The digest was computed from these very fields, and is a digest. */
  ghost predicate Honest(env: Settings, i: Issue) {
    && env.hash(i.fields) == Some(i.token.entryHash)
    && i.token.prevHash == i.fields.prev
    && '|' !in i.fields.prev
    && i.token.entryHash != ""
  }

  ghost predicate AllHonest(env: Settings, issued: seq<Issue>) {
    forall i :: 0 <= i < |issued| ==> Honest(env, issued[i])
  }

  ghost predicate AtHead(h: Head, ts: seq<Token>) {
    if ts == [] then h.generation == 0 && h.prevHash == ""
    else h.generation == ts[|ts| - 1].generation && h.prevHash == ts[|ts| - 1].entryHash
  }

  /** What every interleaving keeps. */
  ghost predicate Inv(env: Settings, w: World) {
    && InRange(w) && Linked(Commits(w)) && AllHonest(env, w.issued)
    && AtHead(w.head, Commits(w)) && '|' !in w.head.prevHash
  }

  lemma ComputeKeepsInv(env: Settings, w: World, op: Op)
    requires env.Valid() && Inv(env, w) && op.Compute?
    ensures Inv(env, Step(env, w, op))
  {
    var w' := Step(env, w, op);
    if w' != w {
      var i := w'.issued[|w.issued|];
      DigestHasNoBar(env.algorithm, i.token.entryHash);
      assert Honest(env, i);
      assert Commits(w') == Commits(w);
    }
  }

  lemma CommitKeepsInv(env: Settings, w: World, op: Op)
    requires env.Valid() && Inv(env, w) && op.Commit?
    ensures Inv(env, Step(env, w, op))
  {
    var w' := Step(env, w, op);
    if w'.committed == w.committed {
      assert Commits(w') == Commits(w);
    } else {
      var i := w.issued[op.issue];
      assert Honest(env, i);
      DigestHasNoBar(env.algorithm, i.token.entryHash);
      var ts, ts' := Commits(w), Commits(w');
      assert ts' == ts + [i.token];
      forall k | 0 <= k < |ts'| ensures LinkedAt(ts', k) {
        if k < |ts| { assert LinkedAt(ts, k); }
      }
    }
  }

  lemma {:induction false} ExecKeepsInv(env: Settings, ops: seq<Op>)
    requires env.Valid() && RestoresInPlace(env, ops)
    ensures Inv(env, Exec(env, ops))
  {
    if ops != [] {
      var w, op := Exec(env, ops[..|ops| - 1]), ops[|ops| - 1];
      ExecKeepsInv(env, ops[..|ops| - 1]);
      if op.Compute? {
        ComputeKeepsInv(env, w, op);
      } else if op.Commit? {
        CommitKeepsInv(env, w, op);
      } else {
        assert Commits(Step(env, w, op)) == Commits(w);
      }
    }
  }

  /** Two different contents hashed in this run share a digest. */
  ghost predicate HasClash(env: Settings, w: World) {
    exists a, b :: 0 <= a < |w.issued| && 0 <= b < |w.issued| && Clash(env.hash, w.issued[a].fields, w.issued[b].fields)
  }

  lemma {:induction false} GenerationsAscend(ts: seq<Token>, i: nat, j: nat)
    requires Linked(ts) && i <= j < |ts|
    ensures ts[i].generation <= ts[j].generation
  {
    if i < j {
      assert LinkedAt(ts, j);
      GenerationsAscend(ts, i, j - 1);
    }
  }

  /** Equal digests have equal predecessors, unless the run holds a clash. */
  lemma EqualHashEqualPrev(env: Settings, w: World, i: nat, j: nat)
    requires Inv(env, w) && !HasClash(env, w)
    requires i < |w.committed| && j < |w.committed| && Commits(w)[i].entryHash == Commits(w)[j].entryHash
    ensures Commits(w)[i].prevHash == Commits(w)[j].prevHash
  {
    var a, b := w.committed[i], w.committed[j];
    assert Honest(env, w.issued[a]) && Honest(env, w.issued[b]);
    assert !Clash(env.hash, w.issued[a].fields, w.issued[b].fields);
  }

  /** The chain is acyclic: within a generation all committed digests differ. Two equal ones would
      have equal predecessors, and so on down to the empty hash that only the first one has. */
  lemma {:induction false} HashesDistinct(env: Settings, w: World, i: nat, j: nat)
    requires Inv(env, w) && !HasClash(env, w)
    requires i < j < |w.committed| && Commits(w)[i].generation == Commits(w)[j].generation
    ensures Commits(w)[i].entryHash != Commits(w)[j].entryHash
    decreases i
  {
    var ts := Commits(w);
    if ts[i].entryHash == ts[j].entryHash {
      EqualHashEqualPrev(env, w, i, j);
      HeadsDistinct(env, w, i, j);
    }
  }

  lemma {:induction false} HeadsDistinct(env: Settings, w: World, i: nat, j: nat)
    requires Inv(env, w) && !HasClash(env, w)
    requires i < j < |w.committed| && Commits(w)[i].generation == Commits(w)[j].generation
    ensures Commits(w)[i].prevHash != Commits(w)[j].prevHash
    decreases i, 0
  {
    var ts := Commits(w);
    GenerationsAscend(ts, i, j - 1);
    GenerationsAscend(ts, j - 1, j);
    assert LinkedAt(ts, i) && LinkedAt(ts, j);
    assert Honest(env, w.issued[w.committed[j - 1]]);
    if ts[i].prevHash == ts[j].prevHash {
      HashesDistinct(env, w, i - 1, j - 1);
    }
  }

  /** No result commits twice, and of all results computed from one head of one generation at most one commits. */
  ghost predicate NoFork(w: World)
    requires InRange(w)
  {
    forall i, j :: 0 <= i < j < |w.committed| ==>
      && w.committed[i] != w.committed[j]
      && (Commits(w)[i].generation != Commits(w)[j].generation || Commits(w)[i].prevHash != Commits(w)[j].prevHash)
  }

  lemma NoForkOrClash(env: Settings, w: World)
    requires Inv(env, w) && !HasClash(env, w)
    ensures NoFork(w)
  {
    forall i, j | 0 <= i < j < |w.committed|
      ensures w.committed[i] != w.committed[j]
      ensures Commits(w)[i].generation != Commits(w)[j].generation || Commits(w)[i].prevHash != Commits(w)[j].prevHash
    {
      assert Commits(w)[i] == w.issued[w.committed[i]].token && Commits(w)[j] == w.issued[w.committed[j]].token;
      if Commits(w)[i].generation == Commits(w)[j].generation { HeadsDistinct(env, w, i, j); }
    }
  }

  /** Two messages hashed in this run have the same MAC. */
  ghost predicate HasMacCollision(mac: Mac, key: string, w: World) {
    exists a, b :: 0 <= a < |w.issued| && 0 <= b < |w.issued|
                   && MacCollision(mac, key, Message(w.issued[a].fields), Message(w.issued[b].fields))
  }

  lemma ClashGivesMacCollision(mac: Mac, key: string, algorithm: string, w: World)
    requires HasClash(Settings(Keyed(mac, key, algorithm), algorithm), w)
    ensures HasMacCollision(mac, key, w)
  {
    var hash := Keyed(mac, key, algorithm);
    var a, b :| 0 <= a < |w.issued| && 0 <= b < |w.issued| && Clash(hash, w.issued[a].fields, w.issued[b].fields);
    ClashIsMacCollision(mac, key, algorithm, w.issued[a].fields, w.issued[b].fields);
  }

  /** Fork freedom over every interleaving in which a Restore only puts back what is there: the commits form one
      linked list that never forks, unless two messages hashed in this very run collide under the MAC. */
  lemma ForkFree(mac: Mac, key: string, algorithm: string, ops: seq<Op>)
    requires mac.Valid() && RestoresInPlace(Settings(Keyed(mac, key, algorithm), algorithm), ops)
    ensures var w := Exec(Settings(Keyed(mac, key, algorithm), algorithm), ops);
            InRange(w) && Linked(Commits(w)) && (HasMacCollision(mac, key, w) || NoFork(w))
  {
    var env := Settings(Keyed(mac, key, algorithm), algorithm);
    KeyedDigests(mac, key, algorithm);
    ExecKeepsInv(env, ops);
    var w := Exec(env, ops);
    if HasClash(env, w) {
      ClashGivesMacCollision(mac, key, algorithm, w);
    } else {
      NoForkOrClash(env, w);
    }
  }

  /** A latched chain keeps its head, commits nothing more and computes nothing more, unless it is restored. */
  lemma {:induction false} LatchIsSticky(env: Settings, ops: seq<Op>, more: seq<Op>)
    requires Exec(env, ops).head.fatal && NoRestore(more)
    ensures Exec(env, ops + more) == Exec(env, ops)
  {
    if more == [] {
      assert ops + more == ops;
    } else {
      var all := ops + more;
      assert all[..|all| - 1] == ops + more[..|more| - 1];
      LatchIsSticky(env, ops, more[..|more| - 1]);
    }
  }

  predicate Presents(w: World, op: Op) { op.CommitForeign? || (op.Commit? && op.issue < |w.issued|) }

  /** A presented result is committed exactly when it is the chain's own, the chain is not latched, and it continues
      the head of its generation or opens a later one. Then it is the new head; otherwise the chain is latched with
      the head it had. */
  lemma CommitsExactly(env: Settings, w: World, op: Op)
    requires Presents(w, op)
    ensures var w' := Step(env, w, op);
            && w'.issued == w.issued && w'.foreign == w.foreign
            && (w'.committed != w.committed <==>
                op.Commit? && !w.head.fatal
                && var t := w.issued[op.issue].token;
                   if t.generation == w.head.generation then t.prevHash == w.head.prevHash
                   else t.generation > w.head.generation && t.prevHash == "")
            && (w'.committed != w.committed ==>
                  && w'.committed == w.committed + [op.issue]
                  && w'.head == Head(w.issued[op.issue].token.generation, w.issued[op.issue].token.entryHash, false))
            && (w'.committed == w.committed ==> w'.head == w.head.(fatal := true))
  {}

  /** After a presented result that was not committed, and until a Restore, nothing more is computed or committed,
      and the head stays where it was. */
  lemma RefusedEndsChain(env: Settings, ops: seq<Op>, op: Op, more: seq<Op>)
    requires Presents(Exec(env, ops), op) && NoRestore(more)
    requires Exec(env, ops + [op]).committed == Exec(env, ops).committed
    ensures var w, w' := Exec(env, ops), Exec(env, ops + [op] + more);
            w'.issued == w.issued && w'.committed == w.committed && w'.head == w.head.(fatal := true)
  {
    hide Step;
    assert (ops + [op])[..|ops|] == ops;
    CommitsExactly(env, Exec(env, ops), op);
    LatchIsSticky(env, ops + [op], more);
  }

  /** The exclusion of Restore is needed: restoring an earlier head lets one result commit twice. */
  lemma RestoreAllowsReplay(env: Settings, payload: string)
    requires env.hash(Fields(2, 0, "", payload)).Some?
    ensures Exec(env, [Compute(2, 0, 0, payload), Commit(0), Restore(0, "", false), Commit(0)]).committed == [0, 0]
  {
    var ops := [Compute(2, 0, 0, payload), Commit(0), Restore(0, "", false), Commit(0)];
    assert ops[..3] == ops[..|ops| - 1];
    assert ops[..3][..2] == ops[..2] && ops[..2][..1] == ops[..1] && ops[..1][..0] == [];
    assert Exec(env, ops[..1]) == Step(env, FRESH, ops[0]);
    assert Exec(env, ops[..2]) == Step(env, Exec(env, ops[..1]), ops[1]);
    assert Exec(env, ops[..3]) == Step(env, Exec(env, ops[..2]), ops[2]);
    assert Exec(env, ops) == Step(env, Exec(env, ops[..3]), ops[3]);
  }

  // ---- Which Restores are safe ----

  /** A commit chained to this hash in this generation. */
  predicate Used(w: World, generation: UInt32, prevHash: string) {
    exists k :: 0 <= k < |w.committed| && w.committed[k] < |w.issued|
                && w.issued[w.committed[k]].token.generation == generation
                && w.issued[w.committed[k]].token.prevHash == prevHash
  }

  /** Nothing has been chained to the given head, nor to the start of a later generation. */
  ghost predicate Safe(w: World, generation: UInt32, prevHash: string) {
    !Used(w, generation, prevHash) && forall g: UInt32 :: generation < g ==> !Used(w, g, "")
  }

  /** Every Restore is refused or goes to a safe head. */
  ghost predicate SafeRestores(env: Settings, ops: seq<Op>) {
    ops == [] ||
    (&& SafeRestores(env, ops[..|ops| - 1])
     && var op := ops[|ops| - 1];
        (op.Restore? && ValidPrevHash(env.algorithm, op.prevHash) ==>
           Safe(Exec(env, ops[..|ops| - 1]), op.generation, op.prevHash)))
  }

  /** The chain has produced a hash that had been restored from elsewhere. */
  ghost predicate HasEcho(w: World) {
    exists i :: 0 <= i < |w.foreign| && Produced(w, w.foreign[i].0, w.foreign[i].1)
  }

  /** Where the hash a commit is chained to comes from. */
  ghost predicate Origin(w: World, generation: UInt32, prevHash: string) {
    prevHash == "" || Produced(w, generation, prevHash) || (generation, prevHash) in w.foreign
  }

  /** What every interleaving with safe Restores keeps, as long as there is no clash and no echo. */
  ghost predicate SafeInv(env: Settings, w: World) {
    && InRange(w) && AllHonest(env, w.issued) && '|' !in w.head.prevHash
    && Safe(w, w.head.generation, w.head.prevHash) && Origin(w, w.head.generation, w.head.prevHash)
    && (forall k :: 0 <= k < |w.committed| ==>
          Origin(w, w.issued[w.committed[k]].token.generation, w.issued[w.committed[k]].token.prevHash))
    && NoFork(w)
  }

  /** A commit takes an unused place, so nothing forks. */
  lemma CommitTakesNewPlace(env: Settings, w: World, i: nat)
    requires SafeInv(env, w) && i < |w.issued| && Extends(w.head, true, w.issued[i].token)
    ensures !Used(w, w.issued[i].token.generation, w.issued[i].token.prevHash)
    ensures Origin(w, w.issued[i].token.generation, w.issued[i].token.prevHash)
  {
    hide NoFork, AllHonest, Used, Produced;
  }

  /** An equal hash means an equal content, and so an equal place. */
  lemma ProducedAtUsedPlace(env: Settings, w: World, i: nat)
    requires InRange(w) && AllHonest(env, w.issued) && !HasClash(env, w) && i < |w.issued|
    requires Produced(w, w.issued[i].token.generation, w.issued[i].token.entryHash)
    ensures Used(w, w.issued[i].token.generation, w.issued[i].token.prevHash)
  {
    var t := w.issued[i].token;
    var j :| 0 <= j < |w.committed| && w.committed[j] < |w.issued|
             && w.issued[w.committed[j]].token.generation == t.generation
             && w.issued[w.committed[j]].token.entryHash == t.entryHash;
    assert Honest(env, w.issued[i]) && Honest(env, w.issued[w.committed[j]]);
    assert !Clash(env.hash, w.issued[w.committed[j]].fields, w.issued[i].fields);
  }

  /** Whatever a commit is chained to has an origin. */
  lemma UsedHasOrigin(env: Settings, w: World, i: nat, generation: UInt32, prevHash: string)
    requires SafeInv(env, w) && i < |w.issued| && Extends(w.head, true, w.issued[i].token)
    requires Used(w.(committed := w.committed + [i]), generation, prevHash)
    ensures Origin(w, generation, prevHash)
  {
    hide Safe, NoFork, AllHonest, Produced, Extends, Origin;
    CommitTakesNewPlace(env, w, i);
    var all := w.committed + [i];
    var k :| 0 <= k < |all| && all[k] < |w.issued| && w.issued[all[k]].token.generation == generation
             && w.issued[all[k]].token.prevHash == prevHash;
    assert all[k] == if k < |w.committed| then w.committed[k] else i;
  }

  lemma CommitProduces(w: World, i: nat)
    requires i < |w.issued|
    ensures Produced(w.(committed := w.committed + [i]), w.issued[i].token.generation, w.issued[i].token.entryHash)
  {
    assert (w.committed + [i])[|w.committed|] == i;
  }

  /** The world after a commit that extends the chain. */
  function Committed(w: World, i: nat): World
    requires i < |w.issued|
  {
    var t := w.issued[i].token;
    w.(head := Head(t.generation, t.entryHash, false), committed := w.committed + [i])
  }

  /** The hash a commit produces has nothing chained to it: what is chained to it came after an equal hash of the
      same generation, and so after an equal content at the same place, or after a restored one. */
  lemma NewHeadIsUnused(env: Settings, w: World, i: nat)
    requires SafeInv(env, w) && i < |w.issued| && Extends(w.head, true, w.issued[i].token)
    requires !HasClash(env, w) && !HasEcho(Committed(w, i))
    ensures !Used(Committed(w, i), w.issued[i].token.generation, w.issued[i].token.entryHash)
  {
    var t := w.issued[i].token;
    assert Honest(env, w.issued[i]);
    hide Used, Produced, Safe, NoFork, Extends, HasClash;
    CommitTakesNewPlace(env, w, i);
    CommitProduces(w, i);
    SameCommits(Committed(w, i), w.(committed := w.committed + [i]), t.generation, t.entryHash);
    assert (t.generation, t.entryHash) !in w.foreign;
    if Produced(w, t.generation, t.entryHash) { ProducedAtUsedPlace(env, w, i); }
    if Used(w.(committed := w.committed + [i]), t.generation, t.entryHash) {
      UsedHasOrigin(env, w, i, t.generation, t.entryHash);
    }
  }

  lemma SameCommits(w: World, v: World, generation: UInt32, hash: string)
    requires w.committed == v.committed && w.issued == v.issued
    ensures Produced(w, generation, hash) <==> Produced(v, generation, hash)
    ensures Used(w, generation, hash) <==> Used(v, generation, hash)
  {}

  /** More commits and more results: what was produced stays produced, what is used was used or is the new one. */
  lemma MoreCommits(w: World, i: nat, generation: UInt32, hash: string)
    requires InRange(w) && i < |w.issued|
    ensures Produced(w, generation, hash) ==> Produced(Committed(w, i), generation, hash)
    ensures Used(Committed(w, i), generation, hash) ==>
              Used(w, generation, hash)
              || (generation == w.issued[i].token.generation && hash == w.issued[i].token.prevHash)
  {
    var w' := Committed(w, i);
    if Produced(w, generation, hash) {
      var k :| 0 <= k < |w.committed| && w.issued[w.committed[k]].token.generation == generation
               && w.issued[w.committed[k]].token.entryHash == hash;
      assert w'.committed[k] == w.committed[k];
    }
    if Used(w', generation, hash) {
      var k :| 0 <= k < |w'.committed| && w'.committed[k] < |w.issued|
               && w.issued[w'.committed[k]].token.generation == generation
               && w.issued[w'.committed[k]].token.prevHash == hash;
      assert w'.committed[k] == if k < |w.committed| then w.committed[k] else i;
    }
  }

  lemma CommitKeepsNoFork(env: Settings, w: World, i: nat)
    requires SafeInv(env, w) && i < |w.issued| && Extends(w.head, true, w.issued[i].token)
    ensures InRange(Committed(w, i)) && NoFork(Committed(w, i))
  {
    var w', n := Committed(w, i), |w.committed|;
    assert w'.committed[n] == i && forall k :: 0 <= k < n ==> w'.committed[k] == w.committed[k];
    CommitTakesNewPlace(env, w, i);
    assert forall k :: 0 <= k < n ==> Commits(w')[k] == Commits(w)[k];
    forall k | 0 <= k < n
      ensures w'.committed[k] != i
      ensures Commits(w')[k].generation != Commits(w')[n].generation
              || Commits(w')[k].prevHash != Commits(w')[n].prevHash
    {
      assert w.issued[w.committed[k]].token == Commits(w)[k];
    }
  }

  lemma CommitKeepsSafeInv(env: Settings, w: World, i: nat)
    requires env.Valid() && SafeInv(env, w) && i < |w.issued| && Extends(w.head, true, w.issued[i].token)
    requires !HasClash(env, w) && !HasEcho(Committed(w, i))
    ensures SafeInv(env, Committed(w, i))
  {
    var t, w', n := w.issued[i].token, Committed(w, i), |w.committed|;
    assert Honest(env, w.issued[i]);
    DigestHasNoBar(env.algorithm, t.entryHash);
    hide Used, Produced, HasClash, HasEcho, NoFork, AllHonest;
    CommitTakesNewPlace(env, w, i);
    CommitKeepsNoFork(env, w, i);
    NewHeadIsUnused(env, w, i);
    CommitProduces(w, i);
    SameCommits(w', w.(committed := w.committed + [i]), t.generation, t.entryHash);
    forall g: UInt32 | t.generation < g ensures !Used(w', g, "") {
      MoreCommits(w, i, g, "");
    }
    forall k | 0 <= k < |w'.committed|
      ensures Origin(w', w'.issued[w'.committed[k]].token.generation, w'.issued[w'.committed[k]].token.prevHash)
    {
      var u := w'.issued[w'.committed[k]].token;
      MoreCommits(w, i, u.generation, u.prevHash);
      assert w'.committed[k] == if k < n then w.committed[k] else i;
    }
  }

  lemma MoreIssues(w: World, x: Issue, generation: UInt32, hash: string)
    requires InRange(w)
    ensures var w' := w.(issued := w.issued + [x]);
            && (Produced(w', generation, hash) <==> Produced(w, generation, hash))
            && (Used(w', generation, hash) <==> Used(w, generation, hash))
  {
    var w' := w.(issued := w.issued + [x]);
    assert forall k :: 0 <= k < |w.committed| ==> w'.issued[w.committed[k]] == w.issued[w.committed[k]];
  }

  lemma IssueKeepsSafeInv(env: Settings, w: World, x: Issue)
    requires SafeInv(env, w) && Honest(env, x)
    ensures SafeInv(env, w.(issued := w.issued + [x]))
  {
    hide Used, Produced, Honest;
    var w' := w.(issued := w.issued + [x]);
    forall g: UInt32, h: string
      ensures (Produced(w', g, h) <==> Produced(w, g, h)) && (Used(w', g, h) <==> Used(w, g, h))
    {
      MoreIssues(w, x, g, h);
    }
    assert forall k :: 0 <= k < |w.committed| ==> w'.issued[w.committed[k]] == w.issued[w.committed[k]];
    assert Commits(w') == Commits(w);
  }

  lemma ComputeKeepsSafeInv(env: Settings, w: World, op: Op)
    requires env.Valid() && SafeInv(env, w) && op.Compute?
    ensures SafeInv(env, Step(env, w, op))
  {
    assert '|' !in w.head.prevHash;
    hide SafeInv;
    var w' := Step(env, w, op);
    if w' != w {
      var x := w'.issued[|w.issued|];
      assert w' == w.(issued := w.issued + [x]);
      DigestHasNoBar(env.algorithm, x.token.entryHash);
      assert Honest(env, x);
      IssueKeepsSafeInv(env, w, x);
    }
  }

  lemma RestoreKeepsSafeInv(env: Settings, w: World, op: Op)
    requires env.Valid() && SafeInv(env, w) && op.Restore?
    requires ValidPrevHash(env.algorithm, op.prevHash) ==> Safe(w, op.generation, op.prevHash)
    ensures SafeInv(env, Step(env, w, op))
  {
    var w' := Step(env, w, op);
    if ValidPrevHash(env.algorithm, op.prevHash) && op.prevHash != "" { DigestHasNoBar(env.algorithm, op.prevHash); }
    hide Used, Produced, AllHonest;
    forall g: UInt32, h: string
      ensures (Produced(w', g, h) <==> Produced(w, g, h)) && (Used(w', g, h) <==> Used(w, g, h))
    {
      SameCommits(w', w, g, h);
    }
    assert Commits(w') == Commits(w);
  }

  /** A step that changes at most the latch. */
  lemma LatchKeepsSafeInv(env: Settings, w: World, fatal: bool)
    requires SafeInv(env, w)
    ensures SafeInv(env, w.(head := w.head.(fatal := fatal)))
  {
    var w' := w.(head := w.head.(fatal := fatal));
    hide Used, Produced, AllHonest;
    forall g: UInt32, h: string
      ensures (Produced(w', g, h) <==> Produced(w, g, h)) && (Used(w', g, h) <==> Used(w, g, h))
    {
      SameCommits(w', w, g, h);
    }
    assert Commits(w') == Commits(w);
  }

  lemma StepKeepsSafeInv(env: Settings, w: World, op: Op)
    requires env.Valid() && SafeInv(env, w) && !HasClash(env, w) && !HasEcho(Step(env, w, op))
    requires op.Restore? && ValidPrevHash(env.algorithm, op.prevHash) ==> Safe(w, op.generation, op.prevHash)
    ensures SafeInv(env, Step(env, w, op))
  {
    hide SafeInv, HasClash, HasEcho, Safe, ValidPrevHash;
    match op {
      case Compute(_, _, _, _) => ComputeKeepsSafeInv(env, w, op);
      case Restore(_, _, _) => RestoreKeepsSafeInv(env, w, op);
      case Commit(i) =>
        if i < |w.issued| && Extends(w.head, true, w.issued[i].token) {
          assert Step(env, w, op) == Committed(w, i);
          CommitKeepsSafeInv(env, w, i);
        } else {
          LatchKeepsSafeInv(env, w, true);
          assert w.head.(fatal := w.head.fatal) == w.head;
        }
      case CommitForeign(_) => LatchKeepsSafeInv(env, w, true);
      case Latch => LatchKeepsSafeInv(env, w, true);
    }
  }

  /** Clashes and echoes stay. */
  lemma NothingIsForgotten(env: Settings, w: World, op: Op)
    requires InRange(w)
    ensures InRange(Step(env, w, op))
    ensures HasClash(env, w) ==> HasClash(env, Step(env, w, op))
    ensures HasEcho(w) ==> HasEcho(Step(env, w, op))
  {
    var w' := Step(env, w, op);
    StepAppends(env, w, op);
    hide Step, Clash, Produced;
    if HasClash(env, w) {
      var a, b :| 0 <= a < |w.issued| && 0 <= b < |w.issued| && Clash(env.hash, w.issued[a].fields, w.issued[b].fields);
      assert w'.issued[a] == w.issued[a] && w'.issued[b] == w.issued[b];
    }
    if HasEcho(w) {
      var i :| 0 <= i < |w.foreign| && Produced(w, w.foreign[i].0, w.foreign[i].1);
      StaysProduced(w, w', w.foreign[i].0, w.foreign[i].1);
      assert w'.foreign[i] == w.foreign[i];
    }
  }

  lemma StepAppends(env: Settings, w: World, op: Op)
    requires InRange(w)
    ensures var w' := Step(env, w, op);
            InRange(w') && w.issued <= w'.issued && w.committed <= w'.committed && w.foreign <= w'.foreign
  {
    hide Produced, Extends;
  }

  lemma StaysProduced(w: World, w': World, generation: UInt32, hash: string)
    requires InRange(w) && w.issued <= w'.issued && w.committed <= w'.committed && Produced(w, generation, hash)
    ensures Produced(w', generation, hash)
  {
    var k :| 0 <= k < |w.committed| && w.issued[w.committed[k]].token.generation == generation
             && w.issued[w.committed[k]].token.entryHash == hash;
    assert w'.committed[k] == w.committed[k] && w'.issued[w.committed[k]] == w.issued[w.committed[k]];
  }

  lemma {:induction false} ExecKeepsSafeInv(env: Settings, ops: seq<Op>)
    requires env.Valid() && SafeRestores(env, ops)
    ensures InRange(Exec(env, ops))
    ensures HasClash(env, Exec(env, ops)) || HasEcho(Exec(env, ops)) || SafeInv(env, Exec(env, ops))
  {
    hide HasClash, HasEcho, SafeInv, Step, Safe, ValidPrevHash;
    if ops == [] {
      FreshIsSafe(env);
    } else {
      var w, op := Exec(env, ops[..|ops| - 1]), ops[|ops| - 1];
      ExecKeepsSafeInv(env, ops[..|ops| - 1]);
      NothingIsForgotten(env, w, op);
      if !HasClash(env, w) && !HasEcho(w) && !HasEcho(Step(env, w, op)) { StepKeepsSafeInv(env, w, op); }
    }
  }

  lemma FreshIsSafe(env: Settings)
    ensures InRange(FRESH) && SafeInv(env, FRESH)
  {}

  /** Fork freedom over every interleaving in which each Restore goes to a head that nothing has been chained to:
      no fork, unless two messages hashed in this very run collide under the MAC, or the chain produces a hash
      that had been restored from elsewhere. */
  lemma SafeRestoresForkFree(mac: Mac, key: string, algorithm: string, ops: seq<Op>)
    requires mac.Valid() && SafeRestores(Settings(Keyed(mac, key, algorithm), algorithm), ops)
    ensures var w := Exec(Settings(Keyed(mac, key, algorithm), algorithm), ops);
            InRange(w) && (HasMacCollision(mac, key, w) || HasEcho(w) || NoFork(w))
  {
    hide HasClash, HasEcho, HasMacCollision;
    var env := Settings(Keyed(mac, key, algorithm), algorithm);
    KeyedDigests(mac, key, algorithm);
    ExecKeepsSafeInv(env, ops);
    var w := Exec(env, ops);
    if HasClash(env, w) { ClashGivesMacCollision(mac, key, algorithm, w); }
  }

  /** One result for the current head, and its commit. */
  function Grown(env: Settings, w: World, payload: string): World {
    Step(env, Step(env, w, Compute(2, 0, 0, payload)), Commit(|w.issued|))
  }

  lemma GrownBy(env: Settings, w: World, payload: string)
    requires w.head.generation == 0 && !w.head.fatal && env.hash(Fields(2, 0, w.head.prevHash, payload)).Some?
    ensures var hash := env.hash(Fields(2, 0, w.head.prevHash, payload)).value;
            && Grown(env, w, payload).head == Head(0, hash, false)
            && Grown(env, w, payload).committed == w.committed + [|w.issued|]
            && Grown(env, w, payload).foreign == w.foreign
            && Grown(env, w, payload).issued ==
               w.issued + [Issue(Token(hash, w.head.prevHash, 0, 0), Fields(2, 0, w.head.prevHash, payload))]
  {}

  lemma RestoredTo(env: Settings, w: World, prevHash: string)
    requires IsDigest(env.algorithm, prevHash)
    ensures var w' := Step(env, w, Restore(0, prevHash, false));
            && w'.head == Head(0, prevHash, false) && w'.issued == w.issued && w'.committed == w.committed
            && w.foreign <= w'.foreign && (!Produced(w, 0, prevHash) && prevHash != "" ==> (0, prevHash) in w'.foreign)
  {}

  /** Why the echo cannot be left out: a chain restored to a hash from elsewhere, then to the hash before that one,
      produces the first one again, and so forks although each Restore went to a head nothing was chained to. */
  lemma EchoForks(env: Settings, before: string, payload: string)
    requires env.Valid() && IsDigest(env.algorithm, before) && forall f :: env.hash(f).Some?
    requires env.hash(Fields(2, 0, before, payload)).value != before
    ensures var hash := env.hash(Fields(2, 0, before, payload)).value;
            var w1 := Grown(env, Step(env, FRESH, Restore(0, hash, false)), "");
            var w2 := Grown(env, Grown(env, Step(env, w1, Restore(0, before, false)), payload), "");
            Safe(FRESH, 0, hash) && Safe(w1, 0, before) && InRange(w2) && HasEcho(w2) && !NoFork(w2)
  {
    hide Step, Grown, Produced, Used, Safe, HasEcho, NoFork;
    var hash := env.hash(Fields(2, 0, before, payload)).value;
    DigestHasNoBar(env.algorithm, hash);
    assert Safe(FRESH, 0, hash) && !Produced(FRESH, 0, hash) by { NothingChained(hash); }
    var r1 := Step(env, FRESH, Restore(0, hash, false));
    RestoredTo(env, FRESH, hash);
    var w1 := Grown(env, r1, "");
    GrownBy(env, r1, "");
    assert w1.committed == [0] && w1.issued[0].token.prevHash == hash;
    OneChained(w1, before);
    var r2 := Step(env, w1, Restore(0, before, false));
    RestoredTo(env, w1, before);
    var w := Grown(env, r2, payload);
    GrownBy(env, r2, payload);
    assert w.committed == [0, 1] && w.issued[1].token.entryHash == hash && w.issued[0] == w1.issued[0];
    var w2 := Grown(env, w, "");
    GrownBy(env, w, "");
    EchoedFork(w2, hash);
  }

  lemma NothingChained(hash: string)
    ensures Safe(FRESH, 0, hash) && !Produced(FRESH, 0, hash)
  {}

  lemma OneChained(w: World, before: string)
    requires w.committed == [0] && |w.issued| == 1 && w.issued[0].token.generation == 0
    requires w.issued[0].token.prevHash != before
    ensures Safe(w, 0, before)
  {}

  lemma EchoedFork(w: World, hash: string)
    requires w.committed == [0, 1, 2] && |w.issued| == 3 && (0, hash) in w.foreign
    requires w.issued[0].token.generation == w.issued[1].token.generation == w.issued[2].token.generation == 0
    requires w.issued[0].token.prevHash == hash == w.issued[2].token.prevHash && w.issued[1].token.entryHash == hash
    ensures InRange(w) && HasEcho(w) && !NoFork(w)
  {
    assert w.issued[w.committed[1]].token.entryHash == hash;
    assert Produced(w, 0, hash);
    assert Commits(w)[0].prevHash == Commits(w)[2].prevHash;
  }

  /** And no other Restore is: from every other head one result and its commit make a fork. */
  lemma UnsafeRestoreForks(env: Settings, w: World, op: Op, payload: string)
    requires InRange(w) && op.Restore? && ValidPrevHash(env.algorithm, op.prevHash) && !op.latched
    requires !Safe(w, op.generation, op.prevHash) && forall f :: env.hash(f).Some?
    ensures exists generation: UInt32 ::
              var w' := Step(env, Step(env, Step(env, w, op), Compute(2, 0, generation, payload)), Commit(|w.issued|));
              InRange(w') && !NoFork(w')
  {
    if Used(w, op.generation, op.prevHash) {
      ForkAt(env, w, op, op.generation, payload);
    } else {
      var g: UInt32 :| op.generation < g && Used(w, g, "");
      ForkAt(env, w, op, g, payload);
    }
  }

  lemma ForkAt(env: Settings, w: World, op: Op, generation: UInt32, payload: string)
    requires InRange(w) && op.Restore? && ValidPrevHash(env.algorithm, op.prevHash) && !op.latched
    requires op.generation <= generation && forall f :: env.hash(f).Some?
    requires Used(w, generation, if generation == op.generation then op.prevHash else "")
    ensures var w' := Step(env, Step(env, Step(env, w, op), Compute(2, 0, generation, payload)), Commit(|w.issued|));
            InRange(w') && !NoFork(w')
  {
    hide Produced, Safe;
    var prev := if generation == op.generation then op.prevHash else "";
    var w1 := Step(env, w, op);
    var w2 := Step(env, w1, Compute(2, 0, generation, payload));
    assert w2.issued[|w.issued|].token.prevHash == prev && w2.issued[|w.issued|].token.generation == generation;
    var w' := Step(env, w2, Commit(|w.issued|));
    assert w'.committed == w.committed + [|w.issued|];
    var k :| 0 <= k < |w.committed| && w.issued[w.committed[k]].token.generation == generation
             && w.issued[w.committed[k]].token.prevHash == prev;
    assert InRange(w');
    assert Commits(w')[k] == w.issued[w.committed[k]].token;
    assert Commits(w')[|w.committed|] == w'.issued[|w.issued|].token;
  }
}
