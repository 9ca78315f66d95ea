/** The visible rotation set of a directory: finding its files, reading them, verifying them. */
module VisibleSet {
  import opened Options
  import opened Decimal
  import opened AuditJson
  import opened LogLines
  import opened RotationSet
  import opened Verifier
  import opened Journal

  /** The contents of the regular files of a directory, by name. */
  type Directory = map<string, string>

  function FileIn(dir: Directory, f: LogName): LogFile {
    LogFile(f.isBackup, if f.path in dir then Some(dir[f.path]) else None)
  }

  function FilesIn(dir: Directory, files: seq<LogName>): seq<LogFile> {
    seq(|files|, i requires 0 <= i < |files| => FileIn(dir, files[i]))
  }

  /** The verifier over a directory: None when the set of files is incomplete, otherwise whether the log that the
      files hold, oldest first, is valid. */
  method VisibleRotationSetVerifies(sort: seq<int> -> seq<int>, ck: Checker, base: string, dir: Directory,
                                    listing: seq<string>)
    returns (r: Option<bool>)
    requires ValidSort(sort) && ck.Valid()
    ensures var found := Indexes(base, listing);
            && (r.Some? <==> multiset(found) == multiset(UpTo(|found|)) && (found != [] ==> base in listing))
            && (r.Some? ==>
                  (r.value <==> ValidLog(ck, AllLines(ck, FilesIn(dir, OldestFirst(base, |found|, base in listing))))))
  {
    hide ValidLog, Indexes, UpTo, OldestFirst, Checker.Valid;
    var names := DiscoverRotationSet(sort, base, listing);
    if names.None? { return None; }
    var files := FilesIn(dir, names.value);
    var ok := VerifyVisible(ck, files);
    return Some(ok);
  }

  // ---- What a run wrote, cut into files ----

  /** The part that backup number `i` holds; the last part is the log itself. */
  ghost predicate Holds(dir: Directory, listing: seq<string>, base: string, parts: seq<Part>) {
    && parts != [] && |parts| <= MAX_INT64
    && (forall i, j :: 0 <= i < j < |listing| ==> listing[i] != listing[j])
    && base in listing && base in dir && dir[base] == Join(parts[|parts| - 1].texts)
    && (forall i :: 0 <= i < |parts| ==> parts[i].backup == (i < |parts| - 1))
    && (forall i :: 1 <= i < |parts| ==>
          var name := base + "." + FormatInt(i);
          name in listing && name in dir && dir[name] == Join(parts[|parts| - 1 - i].texts))
    && (forall name :: name in listing && BackupIndex(base, name).Some? ==>
          var i := BackupIndex(base, name).value;
          1 <= i < |parts| && name == base + "." + FormatInt(i))
  }

  /** A name that occurs once counts once. */
  lemma {:induction false} CountsAtMostOnce(base: string, names: seq<string>, x: Int64)
    requires forall i, j :: 0 <= i < j < |names| ==> names[i] != names[j]
    requires forall name :: name in names && BackupIndex(base, name) == Some(x) ==> name == base + "." + FormatInt(x)
    ensures multiset(Indexes(base, names))[x] <= 1
  {
    hide BackupIndex, Indexes, FormatInt;
    if names != [] {
      var (front, last) := (names[..|names| - 1], names[|names| - 1]);
      IndexesLast(base, names);
      CountsAtMostOnce(base, front, x);
      if BackupIndex(base, last) == Some(x) {
        assert last !in front;
        NotCounted(base, front, x);
      }
    } else {
      NoIndexes(base);
    }
  }

  lemma NoIndexes(base: string)
    ensures Indexes(base, []) == []
  {}

  lemma {:induction false} NotCounted(base: string, names: seq<string>, x: int)
    requires forall name :: name in names && BackupIndex(base, name).Some? ==> BackupIndex(base, name).value != x
    ensures multiset(Indexes(base, names))[x] == 0
  {
    hide BackupIndex, Indexes;
    if names != [] {
      IndexesLast(base, names);
      assert names[|names| - 1] in names;
      NotCounted(base, names[..|names| - 1], x);
    } else {
      NoIndexes(base);
    }
  }

  lemma {:induction false} UpToCounts(n: nat, x: int)
    ensures multiset(UpTo(n))[x] == if 1 <= x <= n then 1 else 0
  {
    if n > 0 {
      UpToCounts(n - 1, x);
      assert UpTo(n) == UpTo(n - 1) + [n];
    }
  }

  lemma CountedLikeUpTo(dir: Directory, listing: seq<string>, base: string, parts: seq<Part>, x: int)
    requires Holds(dir, listing, base, parts)
    ensures multiset(Indexes(base, listing))[x] == multiset(UpTo(|parts| - 1))[x]
  {
    hide BackupIndex, Indexes, FormatInt, Join, UpTo;
    UpToCounts(|parts| - 1, x);
    if 1 <= x < |parts| {
      CanonicalIndex(base, x);
      NameHasIndex(base, listing, base + "." + FormatInt(x), x);
      CountsAtMostOnce(base, listing, x);
    } else {
      NotCounted(base, listing, x);
    }
  }

  /** The set of files is complete, and holds the parts in order. */
  lemma HeldIsFound(dir: Directory, listing: seq<string>, base: string, parts: seq<Part>)
    requires Holds(dir, listing, base, parts)
    ensures var found := Indexes(base, listing);
            |found| == |parts| - 1 && multiset(found) == multiset(UpTo(|found|))
    ensures FilesIn(dir, OldestFirst(base, |parts| - 1, true)) == FilesOf(parts)
  {
    hide BackupIndex, Indexes, UpTo;
    var found, n := Indexes(base, listing), |parts| - 1;
    assert multiset(found) == multiset(UpTo(n)) by {
      forall x: int ensures multiset(found)[x] == multiset(UpTo(n))[x] {
        CountedLikeUpTo(dir, listing, base, parts, x);
      }
    }
    SameLength(found, n);
    HeldFiles(dir, listing, base, parts);
  }

  lemma SameLength(found: seq<int>, n: nat)
    requires multiset(found) == multiset(UpTo(n))
    ensures |found| == n
  {
    assert |multiset(found)| == |multiset(UpTo(n))|;
  }

  lemma HeldFiles(dir: Directory, listing: seq<string>, base: string, parts: seq<Part>)
    requires Holds(dir, listing, base, parts)
    ensures FilesIn(dir, OldestFirst(base, |parts| - 1, true)) == FilesOf(parts)
  {
    hide BackupIndex, FormatInt, Join;
    var n := |parts| - 1;
    var files := OldestFirst(base, n, true);
    assert |files| == |parts|;
    forall i | 0 <= i < |parts| ensures FileIn(dir, files[i]) == LogFile(parts[i].backup, Some(Join(parts[i].texts))) {
      if i < n {
        assert files[i] == LogName(base + "." + FormatInt(n - i), n - i, true);
        assert |parts| - 1 - (n - i) == i;
      } else {
        assert files[i] == LogName(base, 0, false);
      }
    }
  }

  /** Completeness over a directory. What a run wrote, cut anywhere into a log and numbered backups, other files
      beside them or not, is found, and verifies exactly when no number is skipped inside of it and its first line
      is in a backup, or is the first line of all and not skipped to. */
  lemma DirectoryVerifies(s: Site, ops: seq<Op>, k: nat, dir: Directory, listing: seq<string>, base: string,
                          parts: seq<Part>)
    requires s.Valid() && AdmissibleRun(s, ops) && Holds(dir, listing, base, parts)
    requires k <= |Exec(s, ops).lines| && Flatten(parts) == Exec(s, ops).lines[k..]
    ensures var found := Indexes(base, listing);
            && multiset(found) == multiset(UpTo(|found|)) && base in listing
            && |Exec(s, ops).skips| == |Exec(s, ops).lines|
            && var lines := AllLines(s.ck, FilesIn(dir, OldestFirst(base, |found|, true)));
            && Texts(lines) == Exec(s, ops).lines[k..]
            && (ValidLog(s.ck, lines) <==>
                lines == [] ||
                (Unbroken(Exec(s, ops), k) && (lines[0].backup || (k == 0 && !Exec(s, ops).skips[0]))))
  {
    hide ValidLog, Indexes, UpTo, OldestFirst, FilesIn, FilesOf, Flatten, Exec, AdmissibleRun, Unbroken, Texts,
      AllLines, Codec.Faithful, LogLine, BackupIndex, FormatInt, Join;
    HeldIsFound(dir, listing, base, parts);
    RotatedFilesVerify(s, ops, k, parts);
  }

  // ---- The newest line of a set of files ----

  lemma LastOfAll(ck: Checker, files: seq<LogFile>, i: nat)
    requires i < |files|
    ensures AllLines(ck, files[..i + 1]) == AllLines(ck, files[..i]) + LinesOf(ck, files[i])
  {
    assert files[..i + 1][..i] == files[..i];
  }

  function NewestLine(ck: Checker, files: seq<LogFile>): Option<string> {
    var lines := AllLines(ck, files);
    if lines == [] then None else Some(lines[|lines| - 1].text)
  }

  lemma NewestInFile(ck: Checker, files: seq<LogFile>, i: nat)
    requires i < |files|
    ensures var texts := if files[i].content.None? then [] else NonBlank(ck.trim, files[i].content.value);
            NewestLine(ck, files[..i + 1]) ==
            if texts == [] then NewestLine(ck, files[..i]) else Some(texts[|texts| - 1])
  {
    hide NonBlank, AllLines;
    LastOfAll(ck, files, i);
  }

  /** Both readers, over all files from the newest: the backward reader of the store and the line-by-line reader of
      the command find the newest line of the log, and the same one. */
  method ReadLastNonEmptyLine(ck: Checker, files: seq<LogFile>, chunkSize: nat) returns (line: Option<string>)
    requires ck.Valid() && chunkSize > 0
    ensures line == NewestLine(ck, files)
  {
    hide NonBlank, AllLines, NewestLine, Codec.Faithful;
    var i := |files|;
    assert files[..i] == files;
    while i > 0
      invariant 0 <= i <= |files| && NewestLine(ck, files) == NewestLine(ck, files[..i])
    {
      i := i - 1;
      NewestInFile(ck, files, i);
      if files[i].content.Some? {
        line := ReadLastBackward(ck.trim, files[i].content.value, chunkSize);
        if line.Some? { return; }
      }
    }
    line := None;
    assert files[..0] == [];
    NoNewestLine(ck);
  }

  method ReadLastBestEffort(ck: Checker, files: seq<LogFile>) returns (line: Option<string>)
    requires ck.Valid()
    ensures line == NewestLine(ck, files)
  {
    hide NonBlank, AllLines, NewestLine, Codec.Faithful;
    var i := |files|;
    assert files[..i] == files;
    while i > 0
      invariant 0 <= i <= |files| && NewestLine(ck, files) == NewestLine(ck, files[..i])
    {
      i := i - 1;
      NewestInFile(ck, files, i);
      if files[i].content.Some? {
        line := ReadLastForward(ck.trim, files[i].content.value);
        if line.Some? { return; }
      }
    }
    line := None;
    assert files[..0] == [];
    NoNewestLine(ck);
  }

  lemma NoNewestLine(ck: Checker)
    ensures NewestLine(ck, []) == None
  {}
}
