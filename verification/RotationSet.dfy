/** Finding the files of a rotated log: the log and its backups, numbered from 1 without a gap. */
module RotationSet {
  import opened Options
  import opened Decimal

  datatype LogName = LogName(path: string, index: int, isBackup: bool)

  /** The number of a backup, from a directory entry; None for any other entry. */
  function BackupIndex(base: string, name: string): Option<Int64> {
    if base + "." <= name then ParseInt64(name[|base| + 1..]) else None
  }

  /** The numbers of all backups in a listing, in its order. */
  function Indexes(base: string, names: seq<string>): seq<int> {
    if names == [] then []
    else
      Indexes(base, names[..|names| - 1])
      + match BackupIndex(base, names[|names| - 1]) case None => [] case Some(i) => [i]
  }

  predicate Ascending(s: seq<int>) { forall i, j :: 0 <= i < j < |s| ==> s[i] <= s[j] }

  /** The sorting function of the library. */
  ghost predicate ValidSort(sort: seq<int> -> seq<int>) {
    forall s :: Ascending(sort(s)) && multiset(sort(s)) == multiset(s)
  }

  /** 1, 2, ..., n. */
  function UpTo(n: nat): seq<int> { seq(n, i requires 0 <= i => i + 1) }

  lemma LastIsLargest(s: seq<int>, t: seq<int>)
    requires Ascending(s) && multiset(s) == multiset(t) && s != []
    ensures forall x :: x in t ==> x <= s[|s| - 1]
  {
    forall x | x in t
      ensures x <= s[|s| - 1]
    {
      assert x in multiset(t) && x in multiset(s);
      var i :| 0 <= i < |s| && s[i] == x;
    }
  }

  lemma WithoutLast(s: seq<int>)
    requires s != []
    ensures multiset(s[..|s| - 1]) == multiset(s) - multiset{s[|s| - 1]}
  {
    assert s == s[..|s| - 1] + [s[|s| - 1]];
  }

  lemma SameLast(s: seq<int>, t: seq<int>)
    requires s != [] && t != [] && Ascending(s) && Ascending(t) && multiset(s) == multiset(t)
    ensures s[|s| - 1] == t[|t| - 1]
  {
    hide Ascending;
    LastIsLargest(s, t);
    LastIsLargest(t, s);
    assert s[|s| - 1] in s && t[|t| - 1] in t;
  }

  lemma AscendingFront(s: seq<int>)
    requires s != [] && Ascending(s)
    ensures Ascending(s[..|s| - 1])
  {}

  lemma FrontsAgree(s: seq<int>, t: seq<int>)
    requires s != [] && t != [] && Ascending(s) && Ascending(t) && multiset(s) == multiset(t)
    ensures multiset(s[..|s| - 1]) == multiset(t[..|t| - 1])
  {
    hide Ascending;
    SameLast(s, t);
    WithoutLast(s);
    WithoutLast(t);
  }

  lemma {:induction false} SortedIsUnique(s: seq<int>, t: seq<int>)
    requires |s| == |t| && Ascending(s) && Ascending(t) && multiset(s) == multiset(t)
    ensures s == t
  {
    hide Ascending;
    if s != [] {
      SameLast(s, t);
      AscendingFront(s);
      AscendingFront(t);
      FrontsAgree(s, t);
      var (a, b) := (s[..|s| - 1], t[..|t| - 1]);
      SortedIsUnique(a, b);
      assert forall i :: 0 <= i < |a| ==> s[i] == a[i] && t[i] == b[i];
    }
  }

  /** The backups n, ..., 1 and then the log: oldest first. */
  function OldestFirst(base: string, n: nat, baseExists: bool): seq<LogName> {
    seq(n, i requires 0 <= i < n => LogName(base + "." + FormatInt(n - i), n - i, true))
    + if baseExists then [LogName(base, 0, false)] else []
  }

  method ScanIndexes(base: string, names: seq<string>) returns (indexes: seq<int>)
    ensures indexes == Indexes(base, names)
  {
    hide ParseInt64;
    indexes := [];
    for i := 0 to |names|
      invariant indexes == Indexes(base, names[..i])
    {
      assert names[..i + 1][..i] == names[..i];
      var prefix := base + ".";
      if !(prefix <= names[i]) { continue; }
      var index := ParseInt64(names[i][|prefix|..]);
      if index.None? { continue; }
      indexes := indexes + [index.value];
    }
    assert names[..|names|] == names;
  }

  method IsGapless(indexes: seq<int>) returns (gapless: bool)
    ensures gapless <==> indexes == UpTo(|indexes|)
  {
    for i := 0 to |indexes|
      invariant forall j :: 0 <= j < i ==> indexes[j] == j + 1
    {
      if indexes[i] != i + 1 {
        assert UpTo(|indexes|)[i] == i + 1;
        return false;
      }
    }
    assert indexes == UpTo(|indexes|);
    return true;
  }

  method ListBackups(base: string, indexes: seq<int>) returns (files: seq<LogName>)
    requires indexes == UpTo(|indexes|)
    ensures files == OldestFirst(base, |indexes|, false)
  {
    hide FormatInt;
    files := [];
    var i := |indexes| - 1;
    while i >= 0
      invariant -1 <= i < |indexes| && |files| == |indexes| - 1 - i
      invariant forall j :: 0 <= j < |files| ==>
                  files[j] == LogName(base + "." + FormatInt(|indexes| - j), |indexes| - j, true)
    {
      files := files + [LogName(base + "." + FormatInt(indexes[i]), indexes[i], true)];
      i := i - 1;
    }
  }

  lemma Gapless(sorted: seq<int>, found: seq<int>)
    requires Ascending(sorted) && multiset(sorted) == multiset(found)
    ensures |sorted| == |found|
    ensures sorted == UpTo(|found|) <==> multiset(found) == multiset(UpTo(|found|))
  {
    assert |sorted| == |multiset(sorted)| == |multiset(found)| == |found|;
    if multiset(found) == multiset(UpTo(|found|)) { SortedIsUnique(sorted, UpTo(|found|)); }
  }

  /** Succeeds exactly when the backup numbers are 1..n, each once, and backups come with a log; then lists
      them oldest first. */
  method DiscoverRotationSet(sort: seq<int> -> seq<int>, base: string, names: seq<string>)
    returns (files: Option<seq<LogName>>)
    requires ValidSort(sort)
    ensures var found := Indexes(base, names);
            && (files.Some? <==> multiset(found) == multiset(UpTo(|found|)) && (found != [] ==> base in names))
            && (files.Some? ==> files.value == OldestFirst(base, |found|, base in names))
  {
    hide Indexes, UpTo;
    var indexes := ScanIndexes(base, names);
    ghost var found := indexes;
    indexes := sort(indexes);
    Gapless(indexes, found);
    var gapless := IsGapless(indexes);
    if !gapless { return None; }
    var result := ListBackups(base, indexes);
    if base in names { result := result + [LogName(base, 0, false)]; }
    if |indexes| > 0 && base !in names { return None; }
    return Some(result);
  }

  /** The backups are spelled as the rotation spells them. */
  predicate Canonical(base: string, names: seq<string>) {
    forall name :: name in names && BackupIndex(base, name).Some? ==>
      name == base + "." + FormatInt(BackupIndex(base, name).value)
  }

  lemma {:induction false} IndexHasName(base: string, names: seq<string>, i: int)
    requires i in Indexes(base, names)
    ensures exists name :: name in names && BackupIndex(base, name) == Some(i)
  {
    var last := names[|names| - 1];
    if BackupIndex(base, last) == Some(i) {
      assert last in names;
    } else {
      IndexHasName(base, names[..|names| - 1], i);
    }
  }

  lemma ListedFileExists(base: string, names: seq<string>, f: LogName)
    requires var found := Indexes(base, names);
             multiset(found) == multiset(UpTo(|found|)) && f in OldestFirst(base, |found|, base in names)
    requires Canonical(base, names)
    ensures f.path in names
  {
    hide BackupIndex, FormatInt, Indexes;
    var n := |Indexes(base, names)|;
    if f.isBackup {
      assert 1 <= f.index <= n && f.path == base + "." + FormatInt(f.index);
      assert UpTo(n)[f.index - 1] == f.index;
      assert f.index in multiset(UpTo(n));
      IndexHasName(base, names, f.index);
    }
  }

  lemma IndexesLast(base: string, names: seq<string>)
    requires names != []
    ensures var front := multiset(Indexes(base, names[..|names| - 1]));
            multiset(Indexes(base, names)) ==
            match BackupIndex(base, names[|names| - 1]) case None => front case Some(i) => front + multiset{i as int}
  {
    hide BackupIndex;
  }

  lemma {:induction false} NameHasIndex(base: string, names: seq<string>, name: string, i: Int64)
    requires name in names && BackupIndex(base, name) == Some(i)
    ensures multiset(Indexes(base, names))[i] >= 1
  {
    hide BackupIndex, Indexes;
    IndexesLast(base, names);
    if name != names[|names| - 1] {
      assert names == names[..|names| - 1] + [names[|names| - 1]];
      NameHasIndex(base, names[..|names| - 1], name, i);
    }
  }

  /** Two names with one number count twice. */
  lemma {:induction false} TwoNamesCountTwice(base: string, names: seq<string>, x: string, y: string, i: Int64)
    requires x in names && y in names && x != y && BackupIndex(base, x) == Some(i) && BackupIndex(base, y) == Some(i)
    ensures multiset(Indexes(base, names))[i] >= 2
  {
    hide BackupIndex, Indexes;
    var (front, last) := (names[..|names| - 1], names[|names| - 1]);
    IndexesLast(base, names);
    assert names == front + [last];
    if x == last {
      NameHasIndex(base, front, y, i);
    } else if y == last {
      NameHasIndex(base, front, x, i);
    } else {
      TwoNamesCountTwice(base, front, x, y, i);
    }
  }

  lemma {:induction false} CountsOnce(n: nat, i: int)
    ensures multiset(UpTo(n))[i] <= 1 && (i in multiset(UpTo(n)) ==> 1 <= i <= n)
  {
    if n > 0 {
      CountsOnce(n - 1, i);
      assert UpTo(n) == UpTo(n - 1) + [n];
    }
  }

  lemma CanonicalIndex(base: string, i: Int64)
    ensures BackupIndex(base, base + "." + FormatInt(i)) == Some(i)
  {
    hide ParseInt64, FormatInt;
    ParseFormat(i);
    var name := base + "." + FormatInt(i);
    assert base + "." <= name && name[|base| + 1..] == FormatInt(i);
  }

  lemma ListedIsThere(base: string, n: nat, i: int, withBase: bool)
    requires 1 <= i <= n
    ensures LogName(base + "." + FormatInt(i), i, true) in OldestFirst(base, n, withBase)
  {
    hide FormatInt;
    assert OldestFirst(base, n, withBase)[n - i] == LogName(base + "." + FormatInt(i), i, true);
  }

  lemma SpelledCanonically(base: string, names: seq<string>, name: string)
    requires var found := Indexes(base, names);
             && multiset(found) == multiset(UpTo(|found|))
             && forall f :: f in OldestFirst(base, |found|, base in names) ==> f.path in names
    requires name in names && BackupIndex(base, name).Some?
    ensures name == base + "." + FormatInt(BackupIndex(base, name).value)
  {
    hide BackupIndex, FormatInt, Indexes, OldestFirst, UpTo;
    var n, i := |Indexes(base, names)|, BackupIndex(base, name).value;
    NameHasIndex(base, names, name, i);
    CountsOnce(n, i);
    ListedIsThere(base, n, i, base in names);
    var listed := base + "." + FormatInt(i);
    CanonicalIndex(base, i);
    if name != listed { TwoNamesCountTwice(base, names, name, listed, i); }
  }

  /** Every listed file is in the directory exactly when the numbers are spelled as the rotation spells them. */
  lemma ListedFilesExist(base: string, names: seq<string>)
    requires multiset(Indexes(base, names)) == multiset(UpTo(|Indexes(base, names)|))
    ensures (forall f :: f in OldestFirst(base, |Indexes(base, names)|, base in names) ==> f.path in names)
            <==> Canonical(base, names)
  {
    hide BackupIndex, FormatInt, Indexes, OldestFirst, UpTo;
    var listed := OldestFirst(base, |Indexes(base, names)|, base in names);
    if Canonical(base, names) {
      forall f | f in listed ensures f.path in names { ListedFileExists(base, names, f); }
    }
    if forall f :: f in listed ==> f.path in names {
      forall name | name in names && BackupIndex(base, name).Some?
        ensures name == base + "." + FormatInt(BackupIndex(base, name).value)
      {
        SpelledCanonically(base, names, name);
      }
    }
  }

  /** In a directory that is spelled so and has no gap, the backups are exactly the numbers up to the last one. */
  lemma BackupsAreNumbered(base: string, names: seq<string>, i: Int64)
    requires multiset(Indexes(base, names)) == multiset(UpTo(|Indexes(base, names)|)) && Canonical(base, names)
    ensures base + "." + FormatInt(i) in names <==> 1 <= i <= |Indexes(base, names)|
  {
    hide BackupIndex, FormatInt, Indexes, OldestFirst, UpTo;
    var n, name := |Indexes(base, names)|, base + "." + FormatInt(i);
    CanonicalIndex(base, i);
    if name in names {
      NameHasIndex(base, names, name, i);
      CountsOnce(n, i);
    }
    if 1 <= i <= n {
      ListedIsThere(base, n, i, base in names);
      ListedFileExists(base, names, LogName(name, i, true));
    }
  }

  lemma OddSpelling()
    ensures BackupIndex("log", "log") == None && BackupIndex("log", "log.01") == Some(1)
  {
    assert "log.01"[4..] == "01" && "01"[..1] == "0" && "0"[..0] == "";
    assert NatValue("0") == 0 && NatValue("01") == 1;
    assert !("log." <= "log");
  }

  lemma OddSpellingIndexes()
    ensures Indexes("log", ["log", "log.01"]) == [1] == UpTo(1)
  {
    hide BackupIndex;
    OddSpelling();
    var names := ["log", "log.01"];
    assert names[..1] == ["log"] && ["log"][..0] == [];
    assert Indexes("log", ["log"]) == [];
  }

  /** Without it, it need not be: a file with the number spelled "01" stands in for one that is missing. */
  lemma OddSpellingListsMissingFile()
    ensures var names := ["log", "log.01"];
            && Indexes("log", names) == UpTo(|Indexes("log", names)|)
            && LogName("log.1", 1, true) in OldestFirst("log", |Indexes("log", names)|, true)
            && "log.1" !in names
  {
    hide Indexes, BackupIndex;
    OddSpellingIndexes();
    assert FormatInt(1) == "1";
    assert "log" + "." + "1" == "log.1";
    assert OldestFirst("log", 1, true)[0] == LogName("log.1", 1, true);
    assert |"log.1"| == 5 && |"log"| == 3 && |"log.01"| == 6;
  }
}
