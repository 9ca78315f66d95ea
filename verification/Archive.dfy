/** Archiving a legacy rotation set: rename everything to a stamped name, and back again if a rename fails. */
module Archive {
  import opened Decimal

  datatype Node = File(content: string) | Folder

  type Files = map<string, Node>

  datatype RenameResult = Renamed | NotExist | Failed

  /** A rename fails when the system says so, or when it would replace a folder, an empty one too, or put a folder
      over a file. */
  predicate Fails(fs: Files, src: string, dst: string, fault: bool)
    requires src in fs
  {
    fault || (dst in fs && (fs[src].Folder? || fs[dst].Folder?))
  }

  /** The directory of the log. `faults` tells which calls, counted from 0, the system lets fail. */
  class Directory {
    var files: Files
    var calls: nat
    const faults: nat -> bool

    constructor (files: Files, faults: nat -> bool)
      ensures this.files == files && this.faults == faults && calls == 0
    { this.files, this.faults, calls := files, faults, 0; }

    method Rename(src: string, dst: string) returns (r: RenameResult)
      modifies this
      ensures calls == old(calls) + 1
      ensures r == NotExist <==> src !in old(files)
      ensures src in old(files) ==> (r == Failed <==> Fails(old(files), src, dst, faults(old(calls))))
      ensures r == Renamed <==>
              && src in old(files) && !faults(old(calls))
              && (dst in old(files) ==> old(files)[src].File? && old(files)[dst].File?)
      ensures files == if r == Renamed then (old(files) - {src})[dst := old(files)[src]] else old(files)
    {
      calls := calls + 1;
      if src !in files { return NotExist; }
      if faults(calls - 1) { return Failed; }
      if dst in files && (files[src].Folder? || files[dst].Folder?) { return Failed; }
      files := (files - {src})[dst := files[src]];
      return Renamed;
    }
  }

  datatype Move = Move(src: string, dst: string)

  /** No name occurs twice among the sources and targets. */
  predicate Distinct(moves: seq<Move>) {
    && (forall i, j :: 0 <= i < |moves| && 0 <= j < |moves| ==> moves[i].src != moves[j].dst)
    && (forall i, j :: 0 <= i < j < |moves| ==> moves[i].src != moves[j].src && moves[i].dst != moves[j].dst)
  }

  /** What became of a move: not made, made, or made and undone. */
  datatype Place = Home | Away | Back

  predicate Same(a: Files, b: Files, name: string) {
    (name in a <==> name in b) && (name in a ==> a[name] == b[name])
  }

  predicate Mentioned(moves: seq<Move>, name: string) {
    exists i :: 0 <= i < |moves| && (moves[i].src == name || moves[i].dst == name)
  }

  predicate PlacedAt(was: Files, now: Files, m: Move, p: Place) {
    match p
    case Home => Same(was, now, m.src) && Same(was, now, m.dst)
    case Away => m.src in was && m.src !in now && m.dst in now && now[m.dst] == was[m.src]
    case Back => m.src in was && Same(was, now, m.src) && m.dst !in now
  }

  /** The directory `now` in terms of the directory `was`: every move is where `places` says, with its content,
      and nothing else has changed. */
  ghost predicate Placed(was: Files, now: Files, moves: seq<Move>, places: seq<Place>) {
    && |places| == |moves|
    && (forall i :: 0 <= i < |moves| ==> PlacedAt(was, now, moves[i], places[i]))
    && (forall name :: !Mentioned(moves, name) ==> Same(was, now, name))
  }

  /** Renaming a source to its target, or a target to its source, changes the place of that one move. */
  lemma RenameMoves(was: Files, now: Files, moves: seq<Move>, places: seq<Place>, i: nat)
    requires Distinct(moves) && Placed(was, now, moves, places) && i < |moves|
    ensures places[i] == Home && moves[i].src in now ==>
              Placed(was, (now - {moves[i].src})[moves[i].dst := now[moves[i].src]], moves, places[i := Away])
    ensures places[i] == Away ==>
              Placed(was, (now - {moves[i].dst})[moves[i].src := now[moves[i].dst]], moves, places[i := Back])
  {
    var m := moves[i];
    assert Mentioned(moves, m.src) && Mentioned(moves, m.dst);
    assert PlacedAt(was, now, m, places[i]);
    forall j | 0 <= j < |moves| && j != i
      ensures moves[j].src != m.src && moves[j].dst != m.dst && moves[j].src != m.dst && moves[j].dst != m.src
    {
      if j < i { assert moves[j].src != moves[i].src; } else { assert moves[i].src != moves[j].src; }
    }
  }

  /** The backups are back under their own names, and what a finished move had overwritten is gone. */
  lemma Restored(was: Files, now: Files, moves: seq<Move>, places: seq<Place>)
    requires Placed(was, now, moves, places) && Away !in places
    ensures now == was <==> forall i :: 0 <= i < |moves| && places[i] == Back ==> moves[i].dst !in was
  {
    if forall i :: 0 <= i < |moves| && places[i] == Back ==> moves[i].dst !in was {
      forall name
        ensures Same(was, now, name)
      {
        if Mentioned(moves, name) {
          var i :| 0 <= i < |moves| && (moves[i].src == name || moves[i].dst == name);
          assert places[i] in places;
          assert PlacedAt(was, now, moves[i], places[i]);
        }
      }
      assert forall name :: name in now ==> name in was && now[name] == was[name] by {
        forall name | name in now ensures name in was && now[name] == was[name] { assert Same(was, now, name); }
      }
      assert forall name :: name in was ==> name in now by {
        forall name | name in was ensures name in now { assert Same(was, now, name); }
      }
      assert now == was;
    } else {
      var i :| 0 <= i < |moves| && places[i] == Back && moves[i].dst in was;
      assert PlacedAt(was, now, moves[i], places[i]);
    }
  }

  function Source(base: string, suffix: string): string { if suffix == "" then base else base + "." + suffix }

  function Target(base: string, stamp: string, suffix: string): string {
    Source(base + ".legacy." + stamp, suffix)
  }

  /** The base log has the empty suffix, a backup a decimal number. */
  predicate IsLogSuffix(suffix: string) { suffix == "" || ParseInt64(suffix).Some? }

  lemma SourceInjective(base: string, a: string, b: string)
    requires a != b
    ensures Source(base, a) != Source(base, b)
  {
    if a != "" && b != "" {
      var (x, y) := (base + "." + a, base + "." + b);
      assert x[|base| + 1..] == a && y[|base| + 1..] == b;
    }
  }

  /** No source is a target: a target goes on with a letter that neither a number nor "chain" begins with. */
  lemma SourceIsNoTarget(base: string, stamp: string, a: string, b: string)
    requires IsLogSuffix(a) || a == "chain"
    ensures Source(base, a) != Target(base, stamp, b)
  {
    var t := Target(base, stamp, b);
    assert |t| > |base| + 1 && t[|base| + 1] == 'l';
    if a != "" {
      var x := base + "." + a;
      assert x[|base| + 1] == a[0];
      assert a[0] != 'l';
    }
  }

  /** The suffixes that are archived: those of the log files that exist. A folder with the name of a backup is
      left alone. */
  predicate Archiveable(fs: Files, base: string, suffix: string) {
    && IsLogSuffix(suffix)
    && Source(base, suffix) in fs
    && (suffix == "" || fs[Source(base, suffix)].File?)
  }

  predicate NoDuplicates(s: seq<string>) { forall i, j :: 0 <= i < j < |s| ==> s[i] != s[j] }

  lemma ScanStep(fs: Files, base: string, listing: seq<string>, i: nat, x: string)
    requires i < |listing| && NoDuplicates(listing) && (forall name :: name in listing ==> name in fs)
    requires x != "" && Source(base, x) == listing[i]
    ensures Source(base, x) !in listing[..i]
    ensures forall y :: y != "" && Source(base, y) in listing[..i + 1] ==> y == x || Source(base, y) in listing[..i]
  {
    forall y | y != "" && Source(base, y) in listing[..i + 1]
      ensures y == x || Source(base, y) in listing[..i]
    {
      if y != x { SourceInjective(base, x, y); }
    }
  }

  lemma NumberIsLogSuffix(i: Int64)
    ensures FormatInt(i) != "" && IsLogSuffix(FormatInt(i))
  {
    ParseFormat(i);
    hide ParseInt64, FormatNat;
  }

  /** The scan for log files, over a listing of the directory in any order. */
  method ArchiveableSuffixes(fs: Files, base: string, listing: seq<string>) returns (suffixes: seq<string>)
    requires NoDuplicates(listing) && forall name :: name in listing <==> name in fs
    ensures NoDuplicates(suffixes)
    ensures forall x :: x in suffixes <==> Archiveable(fs, base, x)
    ensures "" in suffixes <==> base in fs
    ensures forall i: Int64 :: FormatInt(i) in suffixes <==>
              base + "." + FormatInt(i) in fs && fs[base + "." + FormatInt(i)].File?
    ensures forall x :: x in suffixes && x != "" ==> ParseInt64(x).Some?
  {
    hide ParseInt64, NoDuplicates, FormatInt;
    forall i: Int64 ensures FormatInt(i) != "" && IsLogSuffix(FormatInt(i)) { NumberIsLogSuffix(i); }
    suffixes := if base in fs then [""] else [];
    assert NoDuplicates(suffixes) by { AtMostOne(suffixes); }
    for i := 0 to |listing|
      invariant NoDuplicates(suffixes)
      invariant forall x :: x in suffixes <==>
                  Archiveable(fs, base, x) && (x == "" || Source(base, x) in listing[..i])
    {
      var name := listing[i];
      var prefix := base + ".";
      SuffixOf(base, name);
      if !fs[name].Folder? && prefix <= name && ParseInt64(name[|prefix|..]).Some? {
        var x := name[|prefix|..];
        EmptyIsNoNumber(x);
        assert name == Source(base, x);
        ScanStep(fs, base, listing, i, x);
        AppendNew(suffixes, x);
        suffixes := suffixes + [x];
      }
    }
  }

  lemma SuffixOf(base: string, name: string)
    ensures forall x :: x != "" && Source(base, x) == name ==> base + "." <= name && name[|base| + 1..] == x
  {}

  lemma AtMostOne(s: seq<string>)
    requires |s| <= 1
    ensures NoDuplicates(s)
  {}

  lemma AppendNew(s: seq<string>, x: string)
    requires NoDuplicates(s) && x !in s
    ensures NoDuplicates(s + [x])
  {}

  lemma EmptyIsNoNumber(x: string)
    requires ParseInt64(x).Some?
    ensures x != ""
  {}

  function Moves(base: string, stamp: string, suffixes: seq<string>): seq<Move> {
    seq(|suffixes|, i requires 0 <= i < |suffixes| => Move(Source(base, suffixes[i]), Target(base, stamp, suffixes[i])))
  }

  lemma MovesDistinct(base: string, stamp: string, suffixes: seq<string>)
    requires NoDuplicates(suffixes) && forall x :: x in suffixes ==> IsLogSuffix(x) || x == "chain"
    ensures Distinct(Moves(base, stamp, suffixes))
  {
    var moves := Moves(base, stamp, suffixes);
    forall i, j | 0 <= i < |moves| && 0 <= j < |moves|
      ensures moves[i].src != moves[j].dst
    {
      assert suffixes[i] in suffixes;
      SourceIsNoTarget(base, stamp, suffixes[i], suffixes[j]);
    }
    forall i, j | 0 <= i < j < |moves|
      ensures moves[i].src != moves[j].src && moves[i].dst != moves[j].dst
    {
      SourceInjective(base, suffixes[i], suffixes[j]);
      SourceInjective(base + ".legacy." + stamp, suffixes[i], suffixes[j]);
    }
  }

  /** The moves made so far, by index: ascending, and all of them. */
  ghost predicate Completed(moves: seq<Move>, places: seq<Place>, completed: seq<Move>, at: seq<nat>) {
    && |at| == |completed| && |places| == |moves|
    && (forall j :: 0 <= j < |at| ==> at[j] < |moves| && moves[at[j]] == completed[j] && places[at[j]] == Away)
    && (forall j, k :: 0 <= j < k < |at| ==> at[j] < at[k])
    && (forall i :: 0 <= i < |moves| && places[i] == Away ==> i in at)
  }

  /** Undo the completed moves, ignoring failures. */
  method RollBack(d: Directory, completed: seq<Move>, ghost was: Files, ghost moves: seq<Move>,
                  ghost places0: seq<Place>, ghost at: seq<nat>)
    returns (ghost places: seq<Place>)
    requires Distinct(moves) && Placed(was, d.files, moves, places0) && Completed(moves, places0, completed, at)
    modifies d
    ensures Placed(was, d.files, moves, places) && |places| == |moves|
    ensures forall i :: 0 <= i < |moves| ==> (places[i] == Home <==> places0[i] == Home)
    ensures (forall k :: old(d.calls) <= k ==> !d.faults(k)) ==> Away !in places
  {
    hide Distinct, Placed;
    places := places0;
    for j := 0 to |completed|
      invariant Placed(was, d.files, moves, places) && |places| == |moves| && old(d.calls) <= d.calls
      invariant forall i :: 0 <= i < |moves| ==> (places[i] == Home <==> places0[i] == Home)
      invariant forall i :: 0 <= i < |moves| && places[i] == Away ==> places0[i] == Away
      invariant forall k :: j <= k < |at| ==> places[at[k]] == Away
      invariant (forall k :: old(d.calls) <= k ==> !d.faults(k)) ==>
                  forall k :: 0 <= k < j ==> places[at[k]] == Back
    {
      var done := completed[j];
      AwayIsMoved(was, d.files, moves, places, at[j]);
      RenameMoves(was, d.files, moves, places, at[j]);
      var r := d.Rename(done.dst, done.src);
      if r == Renamed { places := places[at[j] := Back]; }
    }
  }

  predicate Fresh(fs: Files, moves: seq<Move>) { forall m :: m in moves ==> m.dst !in fs }

  lemma AwayIsMoved(was: Files, now: Files, moves: seq<Move>, places: seq<Place>, i: nat)
    requires Placed(was, now, moves, places) && i < |moves| && places[i] == Away
    ensures moves[i].dst in now && moves[i].src !in now
  {
    assert PlacedAt(was, now, moves[i], places[i]);
  }

  lemma HomeIsThere(was: Files, now: Files, moves: seq<Move>, places: seq<Place>, i: nat)
    requires Placed(was, now, moves, places) && i < |moves| && places[i] == Home
    ensures Same(was, now, moves[i].src) && Same(was, now, moves[i].dst)
  {
    assert PlacedAt(was, now, moves[i], places[i]);
  }

  /** Move `j` fails when it is tried with call number `calls + j`. */
  predicate FailsAt(fs: Files, moves: seq<Move>, faults: nat -> bool, calls: nat, j: nat) {
    j < |moves| && moves[j].src in fs && Fails(fs, moves[j].src, moves[j].dst, faults(calls + j))
  }

  /** One of the first `n` moves, as far as they are made, puts a file over an older archive. */
  predicate Overwrites(fs: Files, moves: seq<Move>, n: nat) {
    exists j :: 0 <= j < n && j < |moves| && moves[j].src in fs && moves[j].dst in fs
  }

  lemma RestoredExactly(was: Files, now: Files, moves: seq<Move>, places: seq<Place>, n: nat)
    requires Placed(was, now, moves, places) && Away !in places && n <= |moves|
    requires forall j :: 0 <= j < |moves| ==> (places[j] == Back <==> j < n && moves[j].src in was)
    ensures now == was <==> !Overwrites(was, moves, n)
  {
    hide Placed;
    assert |places| == |moves| by { PlacedLength(was, now, moves, places); }
    Restored(was, now, moves, places);
  }

  lemma PlacedLength(was: Files, now: Files, moves: seq<Move>, places: seq<Place>)
    requires Placed(was, now, moves, places)
    ensures |places| == |moves|
  {}

  /** The state after a failing move `n` and a rollback. */
  ghost predicate RolledBack(was: Files, now: Files, moves: seq<Move>, places: seq<Place>, n: nat) {
    && Away !in places
    && (now == was <==> !Overwrites(was, moves, n))
    && (Fresh(was, moves) ==> now == was)
  }

  lemma BackIsRolledBack(was: Files, now: Files, moves: seq<Move>, places: seq<Place>, n: nat)
    requires Placed(was, now, moves, places) && |places| == |moves| && Away !in places && n <= |moves|
    requires forall j :: 0 <= j < |moves| ==> (places[j] == Home <==> !(j < n && moves[j].src in was))
    ensures RolledBack(was, now, moves, places, n)
  {
    hide Placed, Overwrites, Fresh;
    forall j | 0 <= j < |moves| ensures places[j] == Back <==> j < n && moves[j].src in was {
      assert places[j] in places;
    }
    RestoredExactly(was, now, moves, places, n);
    if Fresh(was, moves) { FreshIsSafe(was, moves, n); }
  }

  /** The move fails now exactly when it would have failed at the start: nobody else touches its names. */
  lemma FailsAsAtFirst(was: Files, now: Files, m: Move, fault: bool)
    requires Same(was, now, m.src) && Same(was, now, m.dst) && m.src in now
    ensures Fails(now, m.src, m.dst, fault) <==> Fails(was, m.src, m.dst, fault)
  {}

  method MoveAll(d: Directory, moves: seq<Move>) returns (ok: bool, failedAt: nat, ghost places: seq<Place>)
    requires Distinct(moves)
    modifies d
    ensures Placed(old(d.files), d.files, moves, places) && |places| == |moves|
    ensures ok <==> forall j :: 0 <= j < |moves| ==> !FailsAt(old(d.files), moves, d.faults, old(d.calls), j)
    ensures ok ==> forall j :: 0 <= j < |moves| ==>
              places[j] == if moves[j].src in old(d.files) then Away else Home
    ensures !ok ==>
              var n := failedAt - old(d.calls);
              && 0 <= n < |moves| && FailsAt(old(d.files), moves, d.faults, old(d.calls), n)
              && (forall j :: 0 <= j < n ==> !FailsAt(old(d.files), moves, d.faults, old(d.calls), j))
              && ((forall k :: failedAt < k ==> !d.faults(k)) ==>
                    RolledBack(old(d.files), d.files, moves, places, n))
  {
    hide Distinct, Placed, Fails, RolledBack, Completed;
    ghost var was, calls := d.files, d.calls;
    places := seq(|moves|, i => Home);
    NothingMoved(was, moves, places);
    var completed: seq<Move> := [];
    ghost var at: seq<nat> := [];
    NothingCompleted(moves, places);
    failedAt := 0;
    for i := 0 to |moves|
      invariant d.calls == calls + i
      invariant Placed(was, d.files, moves, places) && Completed(moves, places, completed, at)
      invariant |places| == |moves| && forall j :: j in at ==> j < i
      invariant forall j :: 0 <= j < i ==> places[j] == if moves[j].src in was then Away else Home
      invariant forall j :: i <= j < |moves| ==> places[j] == Home
      invariant forall j :: 0 <= j < i ==> !FailsAt(was, moves, d.faults, calls, j)
    {
      var m := moves[i];
      HomeIsThere(was, d.files, moves, places, i);
      RenameMoves(was, d.files, moves, places, i);
      failedAt := d.calls;
      if m.src in d.files { FailsAsAtFirst(was, d.files, m, d.faults(d.calls)); }
      var r := d.Rename(m.src, m.dst);
      if r == Failed {
        assert FailsAt(was, moves, d.faults, calls, i);
        places := RollBack(d, completed, was, moves, places, at);
        if Away !in places { BackIsRolledBack(was, d.files, moves, places, i); }
        return false, failedAt, places;
      }
      if r == Renamed {
        OneMoreCompleted(moves, places, completed, at, i);
        completed, at, places := completed + [m], at + [i], places[i := Away];
      }
    }
    ok := true;
  }

  lemma NothingCompleted(moves: seq<Move>, places: seq<Place>)
    requires |places| == |moves| && forall i :: 0 <= i < |places| ==> places[i] == Home
    ensures Completed(moves, places, [], [])
  {}

  lemma OneMoreCompleted(moves: seq<Move>, places: seq<Place>, completed: seq<Move>, at: seq<nat>, i: nat)
    requires Completed(moves, places, completed, at) && i < |moves| && forall j :: j in at ==> j < i
    ensures Completed(moves, places[i := Away], completed + [moves[i]], at + [i])
  {}

  /** What was under the one name is under the other. */
  predicate Gone(was: Files, now: Files, src: string, dst: string) {
    src in was && src !in now && dst in now && now[dst] == was[src]
  }

  /** The move of a suffix, on the names. */
  lemma SuffixMoved(was: Files, now: Files, base: string, stamp: string, suffixes: seq<string>, places: seq<Place>,
                    x: string)
    requires Placed(was, now, Moves(base, stamp, suffixes), places) && |places| == |suffixes| && x in suffixes
    requires forall j :: 0 <= j < |suffixes| ==>
               places[j] == if Moves(base, stamp, suffixes)[j].src in was then Away else Home
    requires Source(base, x) in was
    ensures Gone(was, now, Source(base, x), Target(base, stamp, x))
  {
    var j :| 0 <= j < |suffixes| && suffixes[j] == x;
    assert PlacedAt(was, now, Moves(base, stamp, suffixes)[j], places[j]);
  }

  /** The log, its numbered backups and the sidecar, as far as they existed, are under their new names. */
  ghost predicate Archived(was: Files, now: Files, base: string, stamp: string) {
    && (base in was ==> Gone(was, now, base, base + ".legacy." + stamp))
    && (base + ".chain" in was ==> Gone(was, now, base + ".chain", base + ".legacy." + stamp + ".chain"))
    && (forall i: Int64 :: base + "." + FormatInt(i) in was && was[base + "." + FormatInt(i)].File? ==>
          Gone(was, now, base + "." + FormatInt(i), base + ".legacy." + stamp + "." + FormatInt(i)))
  }

  lemma AllArchived(was: Files, now: Files, base: string, stamp: string, suffixes: seq<string>, places: seq<Place>)
    requires forall x :: x in suffixes <==> Archiveable(was, base, x)
    requires var moves := Moves(base, stamp, suffixes + ["chain"]);
             && Placed(was, now, moves, places) && |places| == |moves|
             && forall j :: 0 <= j < |moves| ==> places[j] == if moves[j].src in was then Away else Home
    ensures Archived(was, now, base, stamp)
  {
    hide Placed, Moves, Gone, FormatInt, ParseInt64;
    var all := suffixes + ["chain"];
    assert |Moves(base, stamp, all)| == |all| by { MovesLength(base, stamp, all); }
    assert all[|suffixes|] == "chain" && forall x :: x in suffixes ==> x in all;
    if base in was { SuffixMoved(was, now, base, stamp, all, places, ""); }
    assert base + "." + "chain" == base + ".chain";
    assert (base + ".legacy." + stamp) + "." + "chain" == base + ".legacy." + stamp + ".chain";
    if base + ".chain" in was { SuffixMoved(was, now, base, stamp, all, places, "chain"); }
    forall i: Int64 | base + "." + FormatInt(i) in was && was[base + "." + FormatInt(i)].File?
      ensures Gone(was, now, base + "." + FormatInt(i), base + ".legacy." + stamp + "." + FormatInt(i))
    {
      NumberIsLogSuffix(i);
      SuffixMoved(was, now, base, stamp, all, places, FormatInt(i));
    }
  }

  lemma MovesLength(base: string, stamp: string, suffixes: seq<string>)
    ensures |Moves(base, stamp, suffixes)| == |suffixes|
  {}

  /** Archiving. It succeeds exactly when no move fails, and then every log file and the sidecar, as far as they
      existed, have moved. After a failure whose rollback works nothing has moved, and the directory is exactly as
      before if and only if no move before the failing one had overwritten an older archive; so it is when the
      targets are fresh. Whatever fails, each file is under its old or its new name with its content, and no other
      name is touched. */
  method ArchiveRotationSet(d: Directory, base: string, stamp: string, suffixes: seq<string>)
    returns (ok: bool, failedAt: nat, ghost places: seq<Place>)
    requires NoDuplicates(suffixes) && forall x :: x in suffixes <==> Archiveable(d.files, base, x)
    modifies d
    ensures var moves := Moves(base, stamp, suffixes + ["chain"]);
            && Placed(old(d.files), d.files, moves, places) && |places| == |moves|
            && (ok <==> forall j :: 0 <= j < |moves| ==> !FailsAt(old(d.files), moves, d.faults, old(d.calls), j))
            && (ok ==> forall j :: 0 <= j < |moves| ==>
                  places[j] == if moves[j].src in old(d.files) then Away else Home)
    ensures !ok ==>
              var moves, n := Moves(base, stamp, suffixes + ["chain"]), failedAt - old(d.calls);
              && 0 <= n < |moves| && FailsAt(old(d.files), moves, d.faults, old(d.calls), n)
              && (forall j :: 0 <= j < n ==> !FailsAt(old(d.files), moves, d.faults, old(d.calls), j))
              && ((forall k :: failedAt < k ==> !d.faults(k)) ==>
                    && Away !in places
                    && (d.files == old(d.files) <==> !Overwrites(old(d.files), moves, n))
                    && (Fresh(old(d.files), moves) ==> d.files == old(d.files)))
    ensures ok ==> Archived(old(d.files), d.files, base, stamp)
  {
    hide Distinct, Placed, FailsAt, Overwrites, Fresh, Moves, Archived;
    AllDistinct(d.files, base, stamp, suffixes);
    ok, failedAt, places := MoveAll(d, Moves(base, stamp, suffixes + ["chain"]));
    if ok { AllArchived(old(d.files), d.files, base, stamp, suffixes, places); }
  }

  lemma FreshIsSafe(fs: Files, moves: seq<Move>, n: nat)
    requires Fresh(fs, moves)
    ensures !Overwrites(fs, moves, n)
  {
    forall j | 0 <= j < n && j < |moves| ensures moves[j].dst !in fs { assert moves[j] in moves; }
  }

  lemma NothingMoved(was: Files, moves: seq<Move>, places: seq<Place>)
    requires |places| == |moves| && forall i :: 0 <= i < |places| ==> places[i] == Home
    ensures Placed(was, was, moves, places)
  {}

  lemma AllDistinct(fs: Files, base: string, stamp: string, suffixes: seq<string>)
    requires NoDuplicates(suffixes) && forall x :: x in suffixes <==> Archiveable(fs, base, x)
    ensures Distinct(Moves(base, stamp, suffixes + ["chain"]))
  {
    assert "chain" !in suffixes by { assert !IsDigit("chain"[0]); }
    AppendNew(suffixes, "chain");
    MovesDistinct(base, stamp, suffixes + ["chain"]);
  }

  /** A directory with an older archive under the same stamp. */
  const TAKEN: Files := map["log" := File("new"), "log.chain" := File("state"), "log.legacy.S" := File("older")]

  lemma TakenIsArchiveable(x: string)
    ensures Archiveable(TAKEN, "log", x) <==> x == ""
  {
    if x != "" && Source("log", x) in TAKEN {
      var name := Source("log", x);
      assert name[4..] == x && |name| > 4;
      assert "log.chain"[4..] == "chain" && "log.legacy.S"[4..] == "legacy.S";
      assert x == "chain" || x == "legacy.S";
      assert !IsDigit(x[0]) && x[0] != '-' && x[0] != '+';
      assert ParseInt64(x).None?;
    }
  }

  lemma TakenMoves()
    ensures Moves("log", "S", [""] + ["chain"])
            == [Move("log", "log.legacy.S"), Move("log.chain", "log.legacy.S.chain")]
  {
    assert "log" + ".legacy." + "S" == "log.legacy.S" && "log" + "." + "chain" == "log.chain";
    assert "log.legacy.S" + "." + "chain" == "log.legacy.S.chain";
  }

  /** The failing run: the log goes over the older archive, moving the sidecar fails, and the rollback, though it
      works, does not bring the older archive back. */
  method OlderArchiveIsLost() returns (ok: bool, after: Files)
    ensures !ok && after != TAKEN
  {
    var d := new Directory(TAKEN, k => k == 1);
    forall x ensures x in [""] <==> Archiveable(TAKEN, "log", x) { TakenIsArchiveable(x); }
    var failedAt;
    ghost var places;
    ok, failedAt, places := ArchiveRotationSet(d, "log", "S", [""]);
    TakenMoves();
    ghost var moves := Moves("log", "S", [""] + ["chain"]);
    assert FailsAt(TAKEN, moves, d.faults, 0, 1);
    assert !FailsAt(TAKEN, moves, d.faults, 0, 0);
    assert Overwrites(TAKEN, moves, 1);
    after := d.files;
  }
}
