/** Starting again after a crash, when the sidecar may be behind the log and the last line cut off. */
module Recovery {
  import opened Options
  import opened Decimal
  import opened Preimage
  import opened AuditJson
  import opened LogLines
  import opened Integrity
  import opened Verifier
  import opened Binding
  import opened Journal

  function StateOf(e: Entry): ChainState { ChainState(e.meta.sequence, e.meta.entryHash) }

  /** The walk forward from the sidecar: the last entry it accepted and whether it accepted any; stopped at a line
      that does not parse; or broken. */
  datatype Walk = Going(st: ChainState, moved: bool) | Stopped(st: ChainState, moved: bool) | Broken

  predicate Verified(ck: Checker, e: Entry) { VerifyHash(ck.codec, ck.hash, e.meta, e.payload) == Some(true) }

  function StepWalk(ck: Checker, q: Int64, w: Walk, text: string): Walk {
    if !w.Going? then w
    else
      match EntryOf(ck, text)
      case None => Stopped(w.st, w.moved)
      case Some(e) =>
        if e.meta.sequence <= q then w
        else if e.meta.sequence != Increment(w.st.sequence) || e.meta.prevHash != w.st.prevHash then Broken
        else if !Verified(ck, e) then Broken
        else Going(StateOf(e), true)
  }

  function Walked(ck: Checker, sidecar: ChainState, lines: seq<string>): Walk {
    if lines == [] then Going(sidecar, false)
    else StepWalk(ck, sidecar.sequence, Walked(ck, sidecar, lines[..|lines| - 1]), lines[|lines| - 1])
  }

  /** Once the walk is over it does not go on. */
  lemma {:induction false} WalkIsOver(ck: Checker, sidecar: ChainState, a: seq<string>, b: seq<string>)
    requires !Walked(ck, sidecar, a).Going?
    ensures Walked(ck, sidecar, a + b) == Walked(ck, sidecar, a)
  {
    hide StepWalk;
    if b == [] {
      assert a + b == a;
    } else {
      assert (a + b)[..|a + b| - 1] == a + b[..|b| - 1];
      WalkIsOver(ck, sidecar, a, b[..|b| - 1]);
      OverStays(ck, sidecar.sequence, Walked(ck, sidecar, a), (a + b)[|a + b| - 1]);
    }
  }

  lemma OverStays(ck: Checker, q: Int64, w: Walk, text: string)
    requires !w.Going?
    ensures StepWalk(ck, q, w, text) == w
  {}

  // ---- Over a log that was written without gaps ----

  /** What a writer leaves that never wrapped `null`: linked, consecutive, never negative, from an anchored start. */
  ghost predicate Written(ck: Checker, es: seq<Entry>) {
    && Chained(ck, es) && Consecutive(ck, es) && (es != [] ==> Anchored(ck, es[0]))
    && forall i :: 0 <= i < |es| ==> es[i].meta.sequence >= 0
  }

  /** All hashes of a written log differ, or it holds a clash. */
  lemma {:induction false} HashesDiffer(ck: Checker, algorithm: string, es: seq<Entry>, i: nat, j: nat)
    requires Digests(ck.hash, algorithm) && Written(ck, es) && !HasClash(ck, es, es) && i < j < |es|
    ensures es[i].meta.entryHash != es[j].meta.entryHash
  {
    hide HasClash, Digests, Anchored, Chained, Consecutive;
    if es[i].meta.entryHash == es[j].meta.entryHash {
      EqualHashEqualEntry(ck, es, es, i, j);
      AnchoredHasNoPredecessor(ck, algorithm, es, j);
      if i > 0 {
        EqualPredecessors(ck, es, es, i, j);
        HashesDiffer(ck, algorithm, es, i - 1, j - 1);
      }
    }
  }

  /** The entry after the sidecar, and the ones after that, in one chain. */
  lemma NextInChain(ck: Checker, es: seq<Entry>, i: nat)
    requires Written(ck, es) && 0 < i < |es| && !IsBoundary(es[i])
    ensures es[i].meta.sequence == es[i - 1].meta.sequence + 1 && es[i].meta.prevHash == es[i - 1].meta.entryHash
  {
    assert Follows(ck, es[i - 1], es[i]);
  }

  lemma {:induction false} CountsOn(ck: Checker, es: seq<Entry>, p: nat, i: nat)
    requires Written(ck, es) && p <= i < |es| && forall j :: p < j <= i ==> !IsBoundary(es[j])
    ensures es[i].meta.sequence == es[p].meta.sequence + (i - p)
  {
    hide Written;
    if i > p {
      NextInChain(ck, es, i);
      CountsOn(ck, es, p, i - 1);
    }
  }

  lemma WalkOneMore(ck: Checker, sidecar: ChainState, texts: seq<string>, k: nat, i: nat)
    requires k <= i < |texts|
    ensures Walked(ck, sidecar, texts[k..i + 1]) ==
            StepWalk(ck, sidecar.sequence, Walked(ck, sidecar, texts[k..i]), texts[i])
  {
    hide StepWalk;
    assert texts[k..i + 1] == texts[k..i] + [texts[i]];
    WalkLast(ck, sidecar, texts[k..i], texts[i]);
  }

  /** Entries with numbers up to the sidecar's are passed over, whatever chain they belong to. */
  lemma {:induction false} PassesOver(ck: Checker, texts: seq<string>, sidecar: ChainState, k: nat, i: nat)
    requires Signed(ck, texts) && k <= i <= |texts|
    requires forall j :: k <= j < i ==> Entries(ck, texts)[j].meta.sequence <= sidecar.sequence
    ensures Walked(ck, sidecar, texts[k..i]) == Going(sidecar, false)
  {
    hide EntryOf, Verified, LogLine;
    if i > k {
      PassesOver(ck, texts, sidecar, k, i - 1);
      WalkOneMore(ck, sidecar, texts, k, i - 1);
      assert EntryOf(ck, texts[i - 1]) == Some(Entries(ck, texts)[i - 1]);
    } else {
      assert texts[k..i] == [];
    }
  }

  lemma EntryIsVerified(ck: Checker, texts: seq<string>, i: nat)
    requires ck.codec.Faithful() && Signed(ck, texts) && Chained(ck, Entries(ck, texts)) && i < |texts|
    ensures EntryOf(ck, texts[i]) == Some(Entries(ck, texts)[i]) && Verified(ck, Entries(ck, texts)[i])
  {
    assert Sealed(ck, Entries(ck, texts)[i]);
    hide Chained, Codec.Faithful;
    SealedIsVerified(ck, texts[i]);
  }

  /** The next entry of the chain is accepted. */
  lemma AcceptsNext(ck: Checker, q: Int64, text: string, e: Entry, before: Entry, moved: bool)
    requires EntryOf(ck, text) == Some(e) && Verified(ck, e) && e.meta.sequence > q
    requires e.meta.sequence == before.meta.sequence + 1 && e.meta.prevHash == before.meta.entryHash
    ensures StepWalk(ck, q, Going(StateOf(before), moved), text) == Going(StateOf(e), true)
  {
    hide EntryOf, Verified;
  }

  /** The entries after `p` are of its chain. */
  ghost predicate SameChain(es: seq<Entry>, p: nat) { forall j :: p < j < |es| ==> !IsBoundary(es[j]) }

  /** The file begins with entry `k`, not later than right after `p`, and up to `p` has no larger number. */
  predicate Recoverable(es: seq<Entry>, k: nat, p: nat)
    requires p < |es|
  {
    k <= p + 1 && forall j :: k <= j <= p ==> es[j].meta.sequence <= es[p].meta.sequence
  }

  lemma StartsAt(ck: Checker, texts: seq<string>, k: nat, p: nat)
    requires Signed(ck, texts) && p < |texts| && Recoverable(Entries(ck, texts), k, p)
    ensures Walked(ck, StateOf(Entries(ck, texts)[p]), texts[k..p + 1]) == Going(StateOf(Entries(ck, texts)[p]), false)
  {
    hide EntryOf, Verified, LogLine, Walked;
    PassesOver(ck, texts, StateOf(Entries(ck, texts)[p]), k, p + 1);
  }

  lemma NextOfChain(ck: Checker, es: seq<Entry>, p: nat, i: nat)
    requires Written(ck, es) && p < i < |es| && SameChain(es, p)
    ensures es[i].meta.sequence == es[i - 1].meta.sequence + 1 && es[i].meta.prevHash == es[i - 1].meta.entryHash
    ensures es[i].meta.sequence == es[p].meta.sequence + (i - p)
  {
    hide Written, IsBoundary;
    NextInChain(ck, es, i);
    CountsOn(ck, es, p, i);
  }

  /** From the sidecar's entry on the walk accepts everything. */
  lemma {:induction false} WalksOn(ck: Checker, texts: seq<string>, k: nat, p: nat, i: nat)
    requires ck.codec.Faithful() && Signed(ck, texts) && Written(ck, Entries(ck, texts))
    requires p + 1 <= i <= |texts| && Recoverable(Entries(ck, texts), k, p) && SameChain(Entries(ck, texts), p)
    ensures Walked(ck, StateOf(Entries(ck, texts)[p]), texts[k..i]) ==
            Going(StateOf(Entries(ck, texts)[i - 1]), i > p + 1)
  {
    hide EntryOf, Verified, LogLine, Chained, Consecutive, Codec.Faithful, SameChain, Walked, StepWalk, Anchored;
    var es := Entries(ck, texts);
    if i == p + 1 {
      StartsAt(ck, texts, k, p);
    } else {
      WalksOn(ck, texts, k, p, i - 1);
      WalkOneMore(ck, StateOf(es[p]), texts, k, i - 1);
      EntryIsVerified(ck, texts, i - 1);
      NextOfChain(ck, es, p, i - 1);
      AcceptsNext(ck, es[p].meta.sequence, texts[i - 1], es[i - 1], es[i - 2], i - 1 > p + 1);
    }
  }

  /** An entry with a larger number that does not come right after the sidecar's breaks the walk. */
  lemma BreaksAt(ck: Checker, texts: seq<string>, sidecar: ChainState, k: nat, j: nat)
    requires Signed(ck, texts) && k <= j < |texts|
    requires forall i :: k <= i < j ==> Entries(ck, texts)[i].meta.sequence <= sidecar.sequence
    requires var e := Entries(ck, texts)[j];
             e.meta.sequence > sidecar.sequence
             && (e.meta.sequence != Increment(sidecar.sequence) || e.meta.prevHash != sidecar.prevHash)
    ensures Walked(ck, sidecar, texts[k..]) == Broken
  {
    hide EntryOf, Verified, LogLine;
    PassesOver(ck, texts, sidecar, k, j);
    WalkOneMore(ck, sidecar, texts, k, j);
    assert EntryOf(ck, texts[j]) == Some(Entries(ck, texts)[j]);
    WalkIsOver(ck, sidecar, texts[k..j + 1], texts[j + 1..]);
    assert texts[k..j + 1] + texts[j + 1..] == texts[k..];
  }

  /** No entry before the sidecar's names the sidecar's hash. */
  lemma NobodyElseFollows(ck: Checker, algorithm: string, es: seq<Entry>, p: nat, j: nat)
    requires Digests(ck.hash, algorithm) && Written(ck, es) && !HasClash(ck, es, es) && j <= p < |es|
    ensures es[j].meta.prevHash != es[p].meta.entryHash
  {
    assert Sealed(ck, es[p]);
    DigestHasNoBar(algorithm, es[p].meta.entryHash);
    if j > 0 {
      assert Linked(ck, es[j - 1], es[j]);
      hide Written, HasClash, Digests;
      HashesDiffer(ck, algorithm, es, j - 1, p);
    }
  }

  /** A file that begins too late. */
  lemma TooLate(ck: Checker, texts: seq<string>, k: nat, p: nat)
    requires Signed(ck, texts) && Written(ck, Entries(ck, texts)) && SameChain(Entries(ck, texts), p)
    requires p + 1 < k < |texts|
    ensures Walked(ck, StateOf(Entries(ck, texts)[p]), texts[k..]) == Broken
  {
    hide EntryOf, Verified, LogLine, Written, SameChain, Walked;
    var es := Entries(ck, texts);
    NextOfChain(ck, es, p, k);
    NotNext(es[p].meta.sequence, es[k].meta.sequence);
    BreaksAt(ck, texts, StateOf(es[p]), k, k);
  }

  /** A file with a larger number of an earlier chain. */
  lemma Interrupted(ck: Checker, algorithm: string, texts: seq<string>, k: nat, p: nat)
    requires Digests(ck.hash, algorithm) && Signed(ck, texts) && Written(ck, Entries(ck, texts))
    requires !HasClash(ck, Entries(ck, texts), Entries(ck, texts))
    requires p < |texts| && k <= p + 1 && !Recoverable(Entries(ck, texts), k, p)
    ensures Walked(ck, StateOf(Entries(ck, texts)[p]), texts[k..]) == Broken
  {
    hide EntryOf, Verified, LogLine, Written, HasClash, Digests, Walked;
    var es := Entries(ck, texts);
    var j := FirstLarger(es, k, p);
    NobodyElseFollows(ck, algorithm, es, p, j);
    BreaksAt(ck, texts, StateOf(es[p]), k, j);
  }

  /** Crash recovery. The log was written without gaps, the sidecar is that of entry `p`, in the chain that was
      being written, and the newest file begins with entry `k`. The walk ends at the last entry exactly when the
      file is recoverable, and breaks otherwise: it never ends anywhere else. */
  lemma RecoversExactly(ck: Checker, algorithm: string, texts: seq<string>, k: nat, p: nat)
    requires ck.codec.Faithful() && Digests(ck.hash, algorithm)
    requires Signed(ck, texts) && Written(ck, Entries(ck, texts))
    requires !HasClash(ck, Entries(ck, texts), Entries(ck, texts))
    requires p < |texts| - 1 && k < |texts| && SameChain(Entries(ck, texts), p)
    ensures var es := Entries(ck, texts);
            Walked(ck, StateOf(es[p]), texts[k..]) ==
            if Recoverable(es, k, p) then Going(StateOf(es[|es| - 1]), true) else Broken
  {
    hide EntryOf, Verified, LogLine, Written, Codec.Faithful, HasClash, Digests, Walked, SameChain;
    if k > p + 1 {
      TooLate(ck, texts, k, p);
    } else if Recoverable(Entries(ck, texts), k, p) {
      WalksOn(ck, texts, k, p, |texts|);
      assert texts[k..|texts|] == texts[k..];
    } else {
      Interrupted(ck, algorithm, texts, k, p);
    }
  }

  lemma NotNext(q: Int64, n: Int64)
    requires n > q + 1
    ensures n > q && n != Increment(q)
  {}

  ghost function FirstLarger(es: seq<Entry>, k: nat, p: nat): (j: nat)
    requires p < |es| && k <= p && exists j :: k <= j <= p && es[j].meta.sequence > es[p].meta.sequence
    ensures k <= j <= p && es[j].meta.sequence > es[p].meta.sequence
    ensures forall i :: k <= i < j ==> es[i].meta.sequence <= es[p].meta.sequence
    decreases p - k
  {
    if es[k].meta.sequence > es[p].meta.sequence then k else FirstLarger(es, k + 1, p)
  }

  // ---- The code ----

  lemma PrefixLines(trim: Trim, s: string, q: nat)
    requires q <= |s|
    ensures NonBlank(trim, s[..q]) == LinesUpTo(trim, s, q)
  {
    assert s == s[..q] + s[q..];
    PrefixStable(trim, s[..q], s[q..], q);
    var p := LineStart(s, q);
    assert s[..q][p..q] == s[p..q];
  }

  lemma WalkLast(ck: Checker, sidecar: ChainState, lines: seq<string>, text: string)
    ensures Walked(ck, sidecar, lines + [text]) == StepWalk(ck, sidecar.sequence, Walked(ck, sidecar, lines), text)
  {
    assert (lines + [text])[..|lines|] == lines;
  }

  /** The walk over the bytes of the newest file. At a line that does not parse it cuts the file back to the end of
      the last line it has passed. */
  method RecoverFromSidecarGap(ck: Checker, sidecar: ChainState, content: string) returns (w: Walk, kept: string)
    requires ck.Valid()
    ensures w == Walked(ck, sidecar, NonBlank(ck.trim, content))
    ensures kept <= content && (!w.Stopped? ==> kept == content)
    ensures w.Stopped? ==>
              && NonBlank(ck.trim, kept) <= NonBlank(ck.trim, content)
              && |NonBlank(ck.trim, kept)| < |NonBlank(ck.trim, content)|
              && EntryOf(ck, NonBlank(ck.trim, content)[|NonBlank(ck.trim, kept)|]).None?
              && Walked(ck, sidecar, NonBlank(ck.trim, kept)) == Going(w.st, w.moved)
  {
    hide LinesUpTo, NonBlank, EntryOf, Walked, StepWalk, Codec.Faithful;
    kept := content;
    var pos, good := 0, 0;
    var st, moved := sidecar, false;
    assert Walked(ck, sidecar, []) == Going(sidecar, false) by { NothingWalked(ck, sidecar); }
    ghost var seen: seq<string> := [];
    assert LinesUpTo(ck.trim, content, 0) == [] by { NothingYet(ck.trim, content); }
    while pos < |content|
      invariant good <= pos <= |content| && (LineStart(content, pos) == pos || pos == |content|)
      invariant LinesUpTo(ck.trim, content, pos) == seen == LinesUpTo(ck.trim, content, good)
      invariant Walked(ck, sidecar, seen) == Going(st, moved)
    {
      var n := ReadBytes(content, pos);
      ReadLine(ck.trim, content, pos, n);
      var line := ck.trim(content[pos..n]);
      if line != "" {
        WalkLast(ck, sidecar, seen, line);
        assert LinesUpTo(ck.trim, content, n) == seen + [line];
        OneStep(ck, sidecar.sequence, st, moved, line);
        var entry := EntryOf(ck, line);
        if entry.None? {
          WholeWalk(ck, sidecar, content, n);
          PrefixLines(ck.trim, content, good);
          AllAfter(ck, content, n, seen, line);
          return Stopped(st, moved), content[..good];
        }
        var e := entry.value;
        if e.meta.sequence > sidecar.sequence {
          if e.meta.sequence != Increment(st.sequence) || e.meta.prevHash != st.prevHash || !Verified(ck, e) {
            WholeWalk(ck, sidecar, content, n);
            return Broken, content;
          }
          st, moved := ChainState(e.meta.sequence, e.meta.entryHash), true;
        }
        seen, good := seen + [line], n;
      }
      pos := n;
    }
    assert LinesUpTo(ck.trim, content, |content|) == NonBlank(ck.trim, content) by { WholeFile(ck.trim, content); }
    return Going(st, moved), content;
  }

  lemma NothingWalked(ck: Checker, sidecar: ChainState)
    ensures Walked(ck, sidecar, []) == Going(sidecar, false)
  {}

  lemma WholeFile(trim: Trim, content: string)
    ensures LinesUpTo(trim, content, |content|) == NonBlank(trim, content)
  {}

  lemma OneStep(ck: Checker, q: Int64, st: ChainState, moved: bool, text: string)
    ensures StepWalk(ck, q, Going(st, moved), text) ==
            match EntryOf(ck, text)
            case None => Stopped(st, moved)
            case Some(e) =>
              if e.meta.sequence <= q then Going(st, moved)
              else if e.meta.sequence != Increment(st.sequence) || e.meta.prevHash != st.prevHash || !Verified(ck, e)
              then Broken else Going(ChainState(e.meta.sequence, e.meta.entryHash), true)
  {}

  /** The rest of the file does not change a walk that is over. */
  lemma WholeWalk(ck: Checker, sidecar: ChainState, content: string, n: nat)
    requires ck.trim("") == "" && n <= |content| && (LineStart(content, n) == n || n == |content|)
    requires !Walked(ck, sidecar, LinesUpTo(ck.trim, content, n)).Going?
    ensures Walked(ck, sidecar, NonBlank(ck.trim, content)) == Walked(ck, sidecar, LinesUpTo(ck.trim, content, n))
  {
    hide Walked;
    LinesGrow(ck.trim, content, n, |content|);
    var a, all := LinesUpTo(ck.trim, content, n), NonBlank(ck.trim, content);
    assert all == a + all[|a|..];
    WalkIsOver(ck, sidecar, a, all[|a|..]);
  }

  lemma AllAfter(ck: Checker, content: string, n: nat, seen: seq<string>, line: string)
    requires ck.trim("") == "" && n <= |content| && (LineStart(content, n) == n || n == |content|)
    requires LinesUpTo(ck.trim, content, n) == seen + [line]
    ensures seen <= NonBlank(ck.trim, content) && |seen| < |NonBlank(ck.trim, content)|
    ensures NonBlank(ck.trim, content)[|seen|] == line
  {
    hide LinesUpTo;
    LinesGrow(ck.trim, content, n, |content|);
    WholeFile(ck.trim, content);
    assert (seen + [line])[|seen|] == line;
  }

  const CHUNK_SIZE: nat := 64 * 1024

  /** What the start-up resumes with: the sidecar, when it is that of the last line; where the walk ends, when the
      sidecar is behind or the last line is cut off; otherwise it is refused. */
  function Resumed(ck: Checker, sidecar: ChainState, lines: seq<string>): Option<ChainState> {
    if lines == [] then None
    else
      var last, w := EntryOf(ck, lines[|lines| - 1]), Walked(ck, sidecar, lines);
      if last.Some? && sidecar == StateOf(last.value) then
        if Verified(ck, last.value) then Some(sidecar) else None
      else if last.None? || sidecar.sequence < last.value.meta.sequence then
        if !w.Broken? && w.moved then Some(w.st) else None
      else None
  }

  method ResumeFromSidecar(ck: Checker, sidecar: ChainState, content: string)
    returns (r: Option<ChainState>, kept: string)
    requires ck.Valid()
    ensures r == Resumed(ck, sidecar, NonBlank(ck.trim, content))
    ensures Walked(ck, sidecar, NonBlank(ck.trim, content)).Stopped? && NonBlank(ck.trim, content) != []
            && EntryOf(ck, NonBlank(ck.trim, content)[|NonBlank(ck.trim, content)| - 1]).None? ==>
              && NonBlank(ck.trim, kept) < NonBlank(ck.trim, content)
              && EntryOf(ck, NonBlank(ck.trim, content)[|NonBlank(ck.trim, kept)|]).None?
    ensures kept <= content
    ensures kept != content ==> Walked(ck, sidecar, NonBlank(ck.trim, content)).Stopped?
    ensures var lines := NonBlank(ck.trim, content);
            (&& lines != [] && EntryOf(ck, lines[|lines| - 1]).Some?
             && EntryOf(ck, lines[|lines| - 1]).value.meta.sequence <= sidecar.sequence) ==> kept == content
  {
    hide NonBlank, EntryOf, Walked, Codec.Faithful;
    kept := content;
    var last := ReadLastBackward(ck.trim, content, CHUNK_SIZE);
    if last.None? { return None, kept; }
    var entry := EntryOf(ck, last.value);
    if entry.Some? && sidecar == StateOf(entry.value) {
      return if Verified(ck, entry.value) then Some(sidecar) else None, kept;
    }
    if entry.None? || sidecar.sequence < entry.value.meta.sequence {
      var w;
      w, kept := RecoverFromSidecarGap(ck, sidecar, content);
      return if !w.Broken? && w.moved then Some(w.st) else None, kept;
    }
    return None, kept;
  }

  lemma LastOfFile(ck: Checker, texts: seq<string>, k: nat)
    requires Signed(ck, texts) && k < |texts|
    ensures texts[k..] != [] && texts[k..][|texts[k..]| - 1] == texts[|texts| - 1]
    ensures EntryOf(ck, texts[|texts| - 1]) == Some(Entries(ck, texts)[|texts| - 1])
  {
    hide EntryOf, LogLine;
  }

  /** The last line decides how to go on. */
  lemma ResumedBy(ck: Checker, sidecar: ChainState, lines: seq<string>, e: Entry)
    requires lines != [] && EntryOf(ck, lines[|lines| - 1]) == Some(e) && Verified(ck, e)
    ensures sidecar == StateOf(e) ==> Resumed(ck, sidecar, lines) == Some(sidecar)
    ensures sidecar.sequence < e.meta.sequence ==>
              var w := Walked(ck, sidecar, lines);
              Resumed(ck, sidecar, lines) == if !w.Broken? && w.moved then Some(w.st) else None
  {
    hide EntryOf, Verified, Walked;
  }

  /** The start-up after a crash, all lines complete: it resumes with the state of the run without the crash exactly
      when the sidecar is up to date or the newest file is recoverable, and is refused otherwise. */
  lemma ResumesExactly(ck: Checker, algorithm: string, texts: seq<string>, k: nat, p: nat)
    requires ck.codec.Faithful() && Digests(ck.hash, algorithm)
    requires Signed(ck, texts) && Written(ck, Entries(ck, texts))
    requires !HasClash(ck, Entries(ck, texts), Entries(ck, texts))
    requires p < |texts| && k < |texts| && SameChain(Entries(ck, texts), p)
    ensures var es := Entries(ck, texts);
            Resumed(ck, StateOf(es[p]), texts[k..]) ==
            if p == |es| - 1 || Recoverable(es, k, p) then Some(StateOf(es[|es| - 1])) else None
  {
    hide EntryOf, Verified, LogLine, Chained, Consecutive, Anchored, Codec.Faithful, HasClash, Digests, Walked,
      SameChain, Recoverable, Resumed;
    var es := Entries(ck, texts);
    LastOfFile(ck, texts, k);
    EntryIsVerified(ck, texts, |texts| - 1);
    ResumedBy(ck, StateOf(es[p]), texts[k..], es[|es| - 1]);
    if p < |texts| - 1 {
      RecoversExactly(ck, algorithm, texts, k, p);
      NextOfChain(ck, es, p, |es| - 1);
    }
  }

  // ---- Nothing is resumed with that the file does not hold ----

  /** Some line of the file is an entry with this state whose hash checks out. */
  ghost predicate Held(ck: Checker, st: ChainState, lines: seq<string>) {
    exists i :: 0 <= i < |lines| && EntryOf(ck, lines[i]).Some?
                && StateOf(EntryOf(ck, lines[i]).value) == st && Verified(ck, EntryOf(ck, lines[i]).value)
  }

  /** A walk that has accepted something is at an entry of the file, with a larger number than the sidecar's. */
  lemma {:induction false} WalkIsHeld(ck: Checker, sidecar: ChainState, lines: seq<string>)
    ensures var w := Walked(ck, sidecar, lines);
            !w.Broken? ==> if w.moved then Held(ck, w.st, lines) && w.st.sequence > sidecar.sequence
                           else w.st == sidecar
  {
    hide EntryOf, Verified;
    if lines != [] {
      var front, text := lines[..|lines| - 1], lines[|lines| - 1];
      WalkIsHeld(ck, sidecar, front);
      var w, w' := Walked(ck, sidecar, front), Walked(ck, sidecar, lines);
      if !w'.Broken? && w.moved && w'.st == w.st {
        var i :| 0 <= i < |front| && EntryOf(ck, front[i]).Some?
                 && StateOf(EntryOf(ck, front[i]).value) == w.st && Verified(ck, EntryOf(ck, front[i]).value);
        assert lines[i] == front[i];
      }
    }
  }

  /** Whatever the sidecar and the file hold: the start-up resumes only with an entry of the file whose hash checks
      out, the last one when it is the sidecar's own, and otherwise one with a larger number. */
  lemma ResumesWithHeld(ck: Checker, sidecar: ChainState, lines: seq<string>, st: ChainState)
    requires Resumed(ck, sidecar, lines) == Some(st)
    ensures Held(ck, st, lines) && (st == sidecar || st.sequence > sidecar.sequence)
    ensures st == sidecar ==> EntryOf(ck, lines[|lines| - 1]).Some?
                              && StateOf(EntryOf(ck, lines[|lines| - 1]).value) == sidecar
  {
    hide EntryOf, Verified, Walked;
    WalkIsHeld(ck, sidecar, lines);
  }

  lemma PrefixSigned(ck: Checker, texts: seq<string>, n: nat)
    requires Signed(ck, texts) && n <= |texts|
    ensures Signed(ck, texts[..n]) && Entries(ck, texts[..n]) == Entries(ck, texts)[..n]
  {
    hide EntryOf, LogLine;
  }

  /** Over lines that end before the sidecar's entry the walk accepts nothing. */
  lemma AcceptsNothing(ck: Checker, algorithm: string, texts: seq<string>, k: nat, n: nat, p: nat)
    requires Digests(ck.hash, algorithm) && Signed(ck, texts) && Written(ck, Entries(ck, texts))
    requires !HasClash(ck, Entries(ck, texts), Entries(ck, texts)) && k <= n <= p < |texts|
    ensures var w := Walked(ck, StateOf(Entries(ck, texts)[p]), texts[k..n]); w.Broken? || (w.Going? && !w.moved)
  {
    hide EntryOf, Verified, LogLine, Written, HasClash, Digests, Walked;
    var es, front := Entries(ck, texts), texts[..n];
    var sidecar := StateOf(es[p]);
    PrefixSigned(ck, texts, n);
    assert front[k..] == front[k..n] == texts[k..n];
    if j :| k <= j < n && es[j].meta.sequence > es[p].meta.sequence {
      var first := FirstLarger(es, k, p);
      assert first <= j;
      NobodyElseFollows(ck, algorithm, es, p, first);
      BreaksAt(ck, front, sidecar, k, first);
    } else {
      PassesOver(ck, front, sidecar, k, n);
    }
  }

  /** A log cut short is noticed. The sidecar is that of entry `p`, of whatever chain, and the newest file ends before
      it, with or without a cut-off line: the start-up is refused. */
  lemma TruncatedIsRefused(ck: Checker, algorithm: string, texts: seq<string>, k: nat, n: nat, p: nat, cut: string)
    requires Digests(ck.hash, algorithm) && Signed(ck, texts) && Written(ck, Entries(ck, texts))
    requires !HasClash(ck, Entries(ck, texts), Entries(ck, texts)) && k <= n <= p < |texts|
    ensures Resumed(ck, StateOf(Entries(ck, texts)[p]), texts[k..n]) == None
    ensures EntryOf(ck, cut).None? ==> Resumed(ck, StateOf(Entries(ck, texts)[p]), texts[k..n] + [cut]) == None
  {
    hide EntryOf, Verified, LogLine, Written, HasClash, Digests, Walked;
    var es, file := Entries(ck, texts), texts[k..n];
    AcceptsNothing(ck, algorithm, texts, k, n, p);
    WalkLast(ck, StateOf(es[p]), file, cut);
    if k < n {
      assert file[|file| - 1] == texts[n - 1] && EntryOf(ck, texts[n - 1]) == Some(es[n - 1]);
      HashesDiffer(ck, algorithm, es, n - 1, p);
    }
  }

  /** With the sidecar up to date and a cut-off line the walk stops where it began, or breaks. */
  lemma StopsAtOnce(ck: Checker, algorithm: string, texts: seq<string>, k: nat)
    requires Digests(ck.hash, algorithm) && Signed(ck, texts) && Written(ck, Entries(ck, texts))
    requires !HasClash(ck, Entries(ck, texts), Entries(ck, texts)) && k < |texts|
    ensures var es, p := Entries(ck, texts), |texts| - 1;
            Walked(ck, StateOf(es[p]), texts[k..]) ==
            if Recoverable(es, k, p) then Going(StateOf(es[p]), false) else Broken
  {
    hide EntryOf, Verified, LogLine, Written, HasClash, Digests, Walked, Recoverable;
    var p := |texts| - 1;
    assert texts[k..p + 1] == texts[k..];
    if Recoverable(Entries(ck, texts), k, p) { StartsAt(ck, texts, k, p); }
    else { RecoverableStart(Entries(ck, texts), k, p); Interrupted(ck, algorithm, texts, k, p); }
  }

  lemma RecoverableStart(es: seq<Entry>, k: nat, p: nat)
    requires p < |es| && k <= p
    ensures k <= p + 1
  {}

  /** The start-up after a crash in the middle of a write: the same, but for a sidecar that is up to date. Then the
      walk has nothing to accept and the start-up is refused; it has cut the file back, and the next one resumes. */
  lemma CutOffExactly(ck: Checker, algorithm: string, texts: seq<string>, k: nat, p: nat, cut: string)
    requires ck.codec.Faithful() && Digests(ck.hash, algorithm)
    requires Signed(ck, texts) && Written(ck, Entries(ck, texts)) && EntryOf(ck, cut).None?
    requires !HasClash(ck, Entries(ck, texts), Entries(ck, texts))
    requires p < |texts| && k < |texts| && SameChain(Entries(ck, texts), p)
    ensures var es := Entries(ck, texts);
            && Resumed(ck, StateOf(es[p]), texts[k..] + [cut]) ==
               (if p < |es| - 1 && Recoverable(es, k, p) then Some(StateOf(es[|es| - 1])) else None)
            && (Walked(ck, StateOf(es[p]), texts[k..] + [cut]).Stopped? <==> Recoverable(es, k, p))
  {
    hide EntryOf, Verified, LogLine, Written, Codec.Faithful, HasClash, Digests, Walked, SameChain, Recoverable;
    var es := Entries(ck, texts);
    WalkLast(ck, StateOf(es[p]), texts[k..], cut);
    if p < |texts| - 1 { RecoversExactly(ck, algorithm, texts, k, p); } else { StopsAtOnce(ck, algorithm, texts, k); }
  }

  /** What the cut leaves is exactly the complete lines. */
  lemma CutLeavesCompleteLines(ck: Checker, texts: seq<string>, k: nat, cut: string, left: seq<string>)
    requires Signed(ck, texts) && k <= |texts| && EntryOf(ck, cut).None?
    requires left < texts[k..] + [cut] && EntryOf(ck, (texts[k..] + [cut])[|left|]).None?
    ensures left == texts[k..]
  {
    hide EntryOf, LogLine;
    var file := texts[k..];
    forall i | 0 <= i < |file| ensures EntryOf(ck, (file + [cut])[i]).Some? {
      assert (file + [cut])[i] == texts[k + i];
    }
    assert (file + [cut])[..|file|] == file;
  }

  // ---- Over whole runs ----

  ghost predicate NullFree(s: Site, ops: seq<Op>) {
    forall i :: 0 <= i < |ops| && ops[i].Append? ==> !s.ck.codec.parse(ops[i].payload).NullDocument?
  }

  lemma StepGrows(s: Site, l: Log, op: Op)
    requires s.Valid()
    ensures l.lines <= Step(s, l, op).lines
  {
    hide Codec.Faithful, LogLine;
  }

  lemma {:induction false} LogGrows(s: Site, ops: seq<Op>, m: nat)
    requires s.Valid() && m <= |ops|
    ensures Exec(s, ops[..m]).lines <= Exec(s, ops).lines
  {
    hide Step, Codec.Faithful, LogLine;
    if m == |ops| {
      assert ops[..m] == ops;
    } else {
      var front := ops[..|ops| - 1];
      assert front[..m] == ops[..m];
      LogGrows(s, front, m);
      StepGrows(s, Exec(s, front), ops[|ops| - 1]);
    }
  }

  lemma {:induction false} PrefixIsAdmissible(s: Site, ops: seq<Op>, m: nat)
    requires s.Valid() && AdmissibleRun(s, ops) && m <= |ops|
    ensures AdmissibleRun(s, ops[..m])
  {
    hide AdmissibleRun, Codec.Faithful, LogLine;
    if m == |ops| {
      assert ops[..m] == ops;
    } else {
      PrefixAdmissible(s, ops);
      assert ops[..|ops| - 1][..m] == ops[..m];
      PrefixIsAdmissible(s, ops[..|ops| - 1], m);
    }
  }

  lemma InvIsWritten(s: Site, l: Log)
    requires s.Valid() && Inv(s, l) && forall i :: 0 <= i < |l.skips| ==> !l.skips[i]
    ensures Written(s.ck, Entries(s.ck, l.lines))
  {
    hide EntryOf, LogLine, Chained, Follows, AtEnd, InPlace, Anchored, Codec.Faithful;
  }

  lemma InvIsSigned(s: Site, l: Log)
    requires Inv(s, l)
    ensures Signed(s.ck, l.lines)
  {
    hide EntryOf, LogLine, Chained, Follows, AtEnd, InPlace, Anchored;
  }

  lemma InvStateIsLast(s: Site, l: Log)
    requires s.Valid() && Inv(s, l) && !l.skipped && l.lines != []
    ensures l.state == StateOf(Entries(s.ck, l.lines)[|l.lines| - 1]) && l.state.prevHash != ""
  {
    var es := Entries(s.ck, l.lines);
    assert Sealed(s.ck, es[|es| - 1]);
    DigestHasNoBar(s.writer.algorithm, es[|es| - 1].meta.entryHash);
  }

  /** A plain append to a chain that has a hash writes no rotation event. */
  lemma AppendIsNoBoundary(s: Site, l: Log, op: Op, j: nat)
    requires s.Valid() && Inv(s, l) && Admissible(s, l, op) && !op.Rotate? && l.state.prevHash != ""
    requires Signed(s.ck, Step(s, l, op).lines) && |l.lines| <= j < |Step(s, l, op).lines|
    ensures !IsBoundary(Entries(s.ck, Step(s, l, op).lines)[j])
  {
    hide EntryOf, Sealed, KindOf, LogLine, Codec.Faithful, Closed, Inv, Restorable, WrapStep, Step;
    InvIsRestorable(s, l);
    OnlyDocumentsAreWritten(s, l, op);
    WrittenEntry(s, l.state, op.payload);
  }

  lemma InvIsRestorable(s: Site, l: Log)
    requires Inv(s, l)
    ensures Restorable(s.writer.algorithm, l.state)
  {
    hide EntryOf, LogLine, Chained, Follows, AtEnd, InPlace, Anchored, Restorable;
  }

  lemma OnlyDocumentsAreWritten(s: Site, l: Log, op: Op)
    requires s.Valid() && Admissible(s, l, op) && !op.Rotate? && |Step(s, l, op).lines| > |l.lines|
    ensures op.Append? && Clean(s.ck.codec, op.payload) && l.state.sequence < MAX_INT64
    ensures WrapStep(s.writer, l.state, op.payload).0.Wrapped?
    ensures Step(s, l, op).lines == l.lines + [WrapStep(s.writer, l.state, op.payload).0.line]
  {
    hide EntryOf, KindOf, LogLine, Codec.Faithful;
  }

  lemma {:induction false} NoBoundaryAfter(s: Site, ops: seq<Op>, m: nat)
    requires s.Valid() && AdmissibleRun(s, ops) && NullFree(s, ops) && m <= |ops|
    requires (forall i :: m <= i < |ops| ==> !ops[i].Rotate?) && Exec(s, ops[..m]).lines != []
    ensures Signed(s.ck, Exec(s, ops).lines) && |Exec(s, ops[..m]).lines| <= |Exec(s, ops).lines|
    ensures forall j :: |Exec(s, ops[..m]).lines| <= j < |Exec(s, ops).lines| ==>
              !IsBoundary(Entries(s.ck, Exec(s, ops).lines)[j])
    decreases |ops|, 1
  {
    hide Step, Codec.Faithful, LogLine, EntryOf, IsBoundary, Inv, AdmissibleRun, Exec, NullFree;
    ExecKeepsInv(s, ops);
    InvIsSigned(s, Exec(s, ops));
    LogGrows(s, ops, m);
    if m == |ops| {
      assert ops[..m] == ops;
    } else {
      OneMoreRun(s, ops, m);
    }
  }

  lemma OneMoreRun(s: Site, ops: seq<Op>, m: nat)
    requires s.Valid() && AdmissibleRun(s, ops) && NullFree(s, ops) && m < |ops| && Signed(s.ck, Exec(s, ops).lines)
    requires (forall i :: m <= i < |ops| ==> !ops[i].Rotate?) && Exec(s, ops[..m]).lines != []
    ensures forall j :: |Exec(s, ops[..m]).lines| <= j < |Exec(s, ops).lines| ==>
              !IsBoundary(Entries(s.ck, Exec(s, ops).lines)[j])
    decreases |ops|, 0
  {
    hide Step, Codec.Faithful, LogLine, EntryOf, IsBoundary, Inv, Admissible;
    var front, op := ops[..|ops| - 1], ops[|ops| - 1];
    assert front[..m] == ops[..m];
    PrefixAdmissible(s, ops);
    NoBoundaryAfter(s, front, m);
    ExecKeepsInv(s, front);
    WithoutNullUnbroken(s, front);
    var l, l' := Exec(s, front), Exec(s, ops);
    LogGrows(s, front, m);
    InvStateIsLast(s, l);
    StepGrows(s, l, op);
    assert Admissible(s, l, op) by { LastIsAdmissible(s, ops); }
    forall j | |Exec(s, ops[..m]).lines| <= j < |l'.lines|
      ensures !IsBoundary(Entries(s.ck, l'.lines)[j])
    {
      if j < |l.lines| {
        assert Entries(s.ck, l'.lines)[j] == Entries(s.ck, l.lines)[j];
      } else {
        AppendIsNoBoundary(s, l, op, j);
      }
    }
  }

  lemma LastIsAdmissible(s: Site, ops: seq<Op>)
    requires s.Valid() && AdmissibleRun(s, ops) && ops != []
    ensures Admissible(s, Exec(s, ops[..|ops| - 1]), ops[|ops| - 1])
  {
    hide Admissible, Step;
  }

  /** Crash recovery over whole runs. A run without `null` payloads flushed its sidecar after `m` operations, wrote
      on without a reset, and crashed; the newest file begins with line `k`. The start-up resumes with the state of
      the run without the crash exactly when nothing had been written since or the newest file is recoverable, and
      is refused otherwise, or the log holds a clash. */
  lemma CrashRecovery(s: Site, ops: seq<Op>, m: nat, k: nat)
    requires s.Valid() && AdmissibleRun(s, ops) && NullFree(s, ops) && m <= |ops|
    requires (forall i :: m <= i < |ops| ==> !ops[i].Rotate?) && Exec(s, ops[..m]).lines != []
    requires k < |Exec(s, ops).lines|
    ensures Signed(s.ck, Exec(s, ops).lines) && |Exec(s, ops[..m]).lines| <= |Exec(s, ops).lines|
    ensures var flushed, l := Exec(s, ops[..m]), Exec(s, ops);
            var es := Entries(s.ck, l.lines);
            || HasClash(s.ck, es, es)
            || Resumed(s.ck, flushed.state, l.lines[k..]) ==
               (if |flushed.lines| == |l.lines| || Recoverable(es, k, |flushed.lines| - 1) then Some(l.state) else None)
  {
    hide Step, Codec.Faithful, LogLine, EntryOf, IsBoundary, Inv, Admissible, HasClash, Resumed, Recoverable, Written,
      AdmissibleRun;
    var flushed, l := Exec(s, ops[..m]), Exec(s, ops);
    NoBoundaryAfter(s, ops, m);
    LogGrows(s, ops, m);
    PrefixIsAdmissible(s, ops, m);
    ExecKeepsInv(s, ops);
    ExecKeepsInv(s, ops[..m]);
    WithoutNullUnbroken(s, ops);
    WithoutNullUnbroken(s, ops[..m]);
    InvIsWritten(s, l);
    InvStateIsLast(s, l);
    InvStateIsLast(s, flushed);
    var es, p := Entries(s.ck, l.lines), |flushed.lines| - 1;
    assert flushed.lines[p] == l.lines[p];
    assert flushed.state == StateOf(es[p]);
    if !HasClash(s.ck, es, es) { ResumesExactly(s.ck, s.writer.algorithm, l.lines, k, p); }
  }

  /** Lost lines over whole runs: the run flushed its sidecar, and the newest file has since lost its last lines. The
      start-up is refused, or the log holds a clash. */
  lemma LostLinesRefused(s: Site, ops: seq<Op>, k: nat, n: nat)
    requires s.Valid() && AdmissibleRun(s, ops) && NullFree(s, ops) && k <= n < |Exec(s, ops).lines|
    ensures var l := Exec(s, ops);
            && Signed(s.ck, l.lines)
            && (|| HasClash(s.ck, Entries(s.ck, l.lines), Entries(s.ck, l.lines))
                || Resumed(s.ck, l.state, l.lines[k..n]) == None)
  {
    hide Step, Codec.Faithful, LogLine, EntryOf, IsBoundary, Inv, HasClash, Resumed, Written, AdmissibleRun;
    var l := Exec(s, ops);
    ExecKeepsInv(s, ops);
    InvIsSigned(s, l);
    WithoutNullUnbroken(s, ops);
    InvIsWritten(s, l);
    InvStateIsLast(s, l);
    if !HasClash(s.ck, Entries(s.ck, l.lines), Entries(s.ck, l.lines)) {
      TruncatedIsRefused(s.ck, s.writer.algorithm, l.lines, k, n, |l.lines| - 1, "");
    }
  }
}
