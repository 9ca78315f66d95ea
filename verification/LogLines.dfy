/** Lines of an audit log file, and the two ways the repository finds the last non-blank one. */
module LogLines {
  import opened Options

  /** bytes.TrimSpace, of which only this is used: nothing is left of the empty line, and a
      trailing newline makes no difference. */
  type Trim = string -> string

  ghost predicate ValidTrim(trim: Trim) {
    trim("") == "" && forall s: string {:trigger trim(s + "\n")} :: trim(s + "\n") == trim(s)
  }

  /** Where the line that position `q` belongs to begins. */
  function LineStart(s: string, q: nat): (p: nat)
    requires q <= |s|
    ensures p <= q
  {
    if q == 0 || s[q - 1] == '\n' then q else LineStart(s, q - 1)
  }

  function Single(trim: Trim, line: string): seq<string> { if trim(line) == "" then [] else [trim(line)] }

  /** The non-blank lines, trimmed, that are terminated by a newline before position `q`. */
  function Terminated(trim: Trim, s: string, q: nat): seq<string>
    requires q <= |s|
  {
    if q == 0 then []
    else if s[q - 1] != '\n' then Terminated(trim, s, q - 1)
    else Terminated(trim, s, q - 1) + Single(trim, s[LineStart(s, q - 1)..q - 1])
  }

  /** The non-blank lines of the first `q` bytes, the last of which may lack its newline. */
  function LinesUpTo(trim: Trim, s: string, q: nat): seq<string>
    requires q <= |s|
  { Terminated(trim, s, q) + Single(trim, s[LineStart(s, q)..q]) }

  /** All non-blank lines of a file, trimmed, first to last. */
  function NonBlank(trim: Trim, s: string): seq<string> { LinesUpTo(trim, s, |s|) }

  function Last<T>(xs: seq<T>): Option<T> { if xs == [] then None else Some(xs[|xs| - 1]) }

  predicate NoNewline(s: string, p: nat, q: nat)
    requires p <= q <= |s|
  { forall k :: p <= k < q ==> s[k] != '\n' }

  /** Without a newline in between, position `q` is on the line that starts at `p`. */
  lemma {:induction false} SameLine(trim: Trim, s: string, p: nat, q: nat)
    requires p <= q <= |s| && NoNewline(s, p, q) && LineStart(s, p) == p
    ensures LineStart(s, q) == p && Terminated(trim, s, q) == Terminated(trim, s, p)
  {
    if p < q { SameLine(trim, s, p, q - 1); }
  }

  /** The text from a line start up to a point on the same line is that line so far. */
  lemma OnLine(trim: Trim, s: string, p: nat, q: nat)
    requires trim("") == "" && p <= q <= |s| && NoNewline(s, p, q) && LineStart(s, p) == p
    ensures LinesUpTo(trim, s, q) == LinesUpTo(trim, s, p) + Single(trim, s[p..q])
  {
    SameLine(trim, s, p, q);
    assert s[p..p] == "";
  }

  /** Cutting the text at a newline drops exactly the line after it. */
  lemma DropLine(trim: Trim, s: string, i: nat, q: nat)
    requires i < q <= |s| && s[i] == '\n' && NoNewline(s, i + 1, q)
    ensures LinesUpTo(trim, s, q) == LinesUpTo(trim, s, i) + Single(trim, s[i + 1..q])
  {
    SameLine(trim, s, i + 1, q);
  }

  /** What is read from the first bytes of a file does not depend on what follows them. */
  lemma {:induction false} PrefixStable(trim: Trim, a: string, b: string, q: nat)
    requires q <= |a|
    ensures LineStart(a + b, q) == LineStart(a, q) && Terminated(trim, a + b, q) == Terminated(trim, a, q)
  {
    if q > 0 {
      PrefixStable(trim, a, b, q - 1);
      var p := LineStart(a, q - 1);
      assert (a + b)[p..q - 1] == a[p..q - 1];
    }
  }

  lemma {:induction false} StartShift(s: string, b: string, n: nat, q: nat)
    requires 0 < n <= |s| && s[n - 1] == '\n' && s[n..] == b && q <= |b|
    ensures LineStart(s, n + q) == n + LineStart(b, q)
  {
    if q > 0 {
      assert s[n + q - 1] == s[n..][q - 1];
      StartShift(s, b, n, q - 1);
    }
  }

  lemma SliceShift(s: string, b: string, n: nat, p: nat, q: nat)
    requires n <= |s| && s[n..] == b && p <= q <= |b|
    ensures s[n + p..n + q] == b[p..q]
  {
    assert s[n..|s|] == s[n..];
    SliceOfSlice(s, n, |s|, p, q);
  }

  /** Nor does what is read behind a newline depend on what comes before it. */
  lemma {:induction false} SuffixShift(trim: Trim, s: string, b: string, n: nat, q: nat)
    requires 0 < n <= |s| && s[n - 1] == '\n' && s[n..] == b && q <= |b|
    ensures Terminated(trim, s, n + q) == Terminated(trim, s, n) + Terminated(trim, b, q)
  {
    hide LineStart, Single;
    if q > 0 {
      assert s[n + q - 1] == s[n..][q - 1];
      SuffixShift(trim, s, b, n, q - 1);
      StartShift(s, b, n, q - 1);
      SliceShift(s, b, n, LineStart(b, q - 1), q - 1);
    }
  }

  lemma LinesBehind(trim: Trim, s: string, b: string, n: nat)
    requires 0 < n <= |s| && s[n - 1] == '\n' && s[n..] == b
    ensures NonBlank(trim, s) == Terminated(trim, s, n) + NonBlank(trim, b)
  {
    hide Terminated, LineStart, Single;
    SuffixShift(trim, s, b, n, |b|);
    StartShift(s, b, n, |b|);
    SliceShift(s, b, n, LineStart(b, |b|), |b|);
  }

  lemma LinesBefore(trim: Trim, a: string, b: string)
    ensures Terminated(trim, a + ("\n" + b), |a| + 1) == NonBlank(trim, a)
  {
    var s := a + ("\n" + b);
    PrefixStable(trim, a, "\n" + b, |a|);
    var p := LineStart(a, |a|);
    assert s[p..|a|] == a[p..|a|];
    assert s[|a|] == '\n';
  }

  /** What the lines of a file are, independently of how they are found: a newline parts the lines before it from
      those after it, and a text without a newline is one line, unless it is blank. */
  lemma NewlineParts(trim: Trim, a: string, b: string)
    ensures NonBlank(trim, a + "\n" + b) == NonBlank(trim, a) + NonBlank(trim, b)
    ensures '\n' !in a ==> NonBlank(trim, a) == if trim(a) == "" then [] else [trim(a)]
  {
    hide Terminated, LineStart, NonBlank;
    var s := a + ("\n" + b);
    assert s == a + "\n" + b && s[|a|] == '\n' && s[|a| + 1..] == b;
    LinesBefore(trim, a, b);
    LinesBehind(trim, s, b, |a| + 1);
    if '\n' !in a { OneLine(trim, a); }
  }

  lemma OneLine(trim: Trim, a: string)
    requires '\n' !in a
    ensures NonBlank(trim, a) == if trim(a) == "" then [] else [trim(a)]
  {
    SameLine(trim, a, 0, |a|);
    assert a[0..|a|] == a;
  }

  /** The simple scan: read every line, remember the last one that is not blank. */
  method ReadLastForward(trim: Trim, content: string) returns (line: Option<string>)
    requires ValidTrim(trim)
    ensures line == Last(NonBlank(trim, content))
  {
    hide LinesUpTo;
    line := None;
    var pos := 0;
    NothingYet(trim, content);
    while pos < |content|
      invariant 0 <= pos <= |content|
      invariant LineStart(content, pos) == pos || pos == |content|
      invariant line == Last(LinesUpTo(trim, content, pos))
    {
      var n := ReadBytes(content, pos);
      ReadLine(trim, content, pos, n);
      var text := trim(content[pos..n]);
      if text != "" { line := Some(text); }
      pos := n;
    }
  }

  lemma NothingYet(trim: Trim, s: string)
    requires trim("") == ""
    ensures LinesUpTo(trim, s, 0) == []
  {}

  /** The end of the raw line at `pos`: after its newline, or the end of the file. */
  method ReadBytes(content: string, pos: nat) returns (end: nat)
    requires pos < |content|
    ensures RawLine(content, pos, end)
  {
    end := pos;
    while end < |content| && content[end] != '\n'
      invariant pos <= end <= |content| && NoNewline(content, pos, end)
    {
      end := end + 1;
    }
    if end < |content| { end := end + 1; }
  }

  predicate RawLine(s: string, pos: nat, end: nat) {
    && pos < end <= |s| && NoNewline(s, pos, end - 1)
    && (end == |s| || s[end - 1] == '\n')
  }

  /** Reading one raw line adds that line, trimmed, unless it is blank. */
  lemma ReadLine(trim: Trim, s: string, pos: nat, end: nat)
    requires ValidTrim(trim) && RawLine(s, pos, end) && LineStart(s, pos) == pos
    ensures LinesUpTo(trim, s, end) == LinesUpTo(trim, s, pos) + Single(trim, s[pos..end])
    ensures end == |s| || LineStart(s, end) == end
  {
    hide LinesUpTo;
    if s[end - 1] == '\n' {
      OnLine(trim, s, pos, end - 1);
      DropLine(trim, s, end - 1, end);
      assert s[pos..end] == s[pos..end - 1] + "\n";
      assert s[end..end] == "";
    } else {
      OnLine(trim, s, pos, end);
    }
  }

  lemma SliceOfSlice(s: string, a: nat, b: nat, i: nat, j: nat)
    requires a <= b <= |s| && i <= j <= b - a
    ensures s[a..b][i..j] == s[a + i..a + j]
  {
    forall k | 0 <= k < j - i ensures s[a..b][i..j][k] == s[a + i..a + j][k] {
      assert s[a..b][i + k] == s[a + i + k];
    }
  }

  /** One chunk, scanned from its end: the last non-blank line that begins in it, or the unfinished first line. */
  method ScanChunk(trim: Trim, ghost content: string, ghost start: nat, data: string, limit: nat)
    returns (line: Option<string>, scanEnd: nat)
    requires limit <= |data| && start + |data| <= |content| && data == content[start..start + |data|]
    ensures line.Some? ==> line == Last(LinesUpTo(trim, content, start + limit))
    ensures line.None? ==>
              && scanEnd <= limit && NoNewline(content, start, start + scanEnd)
              && Last(LinesUpTo(trim, content, start + limit)) == Last(LinesUpTo(trim, content, start + scanEnd))
  {
    hide LinesUpTo;
    scanEnd := limit;
    var i := limit - 1;
    ghost var answer := Last(LinesUpTo(trim, content, start + limit));
    while i >= 0
      invariant -1 <= i < limit && i < scanEnd <= limit
      invariant NoNewline(content, start + i + 1, start + scanEnd)
      invariant answer == Last(LinesUpTo(trim, content, start + scanEnd))
    {
      assert data[i] == content[start + i];
      if data[i] == '\n' {
        var text := trim(data[i + 1..scanEnd]);
        SliceOfSlice(content, start, start + |data|, i + 1, scanEnd);
        DropLine(trim, content, start + i, start + scanEnd);
        if text != "" { return Some(text), scanEnd; }
        scanEnd := i;
      }
      i := i - 1;
    }
    line := None;
  }

  /** The fast scan: read chunks from the end of the file backwards, keeping the unfinished line between them. */
  method ReadLastBackward(trim: Trim, content: string, chunkSize: nat) returns (line: Option<string>)
    requires trim("") == "" && chunkSize > 0
    ensures line == Last(NonBlank(trim, content))
  {
    hide LinesUpTo;
    var end, tail := |content|, "";
    ghost var cut := |content|;
    ghost var answer := Last(NonBlank(trim, content));
    while end > 0
      invariant 0 <= end <= cut <= |content| && tail == content[end..cut] && NoNewline(content, end, cut)
      invariant answer == Last(LinesUpTo(trim, content, cut))
    {
      var start := if end < chunkSize then 0 else end - chunkSize;
      var data := content[start..end] + tail;
      assert data == content[start..cut];
      var scanEnd := |data|;
      if end == |content| && data[scanEnd - 1] == '\n' {
        DropLine(trim, content, cut - 1, cut);
        assert content[cut..cut] == "";
        scanEnd := scanEnd - 1;
      }
      line, scanEnd := ScanChunk(trim, content, start, data, scanEnd);
      if line.Some? { return; }
      SliceOfSlice(content, start, cut, 0, scanEnd);
      tail := data[..scanEnd];
      end, cut := start, start + scanEnd;
    }
    NothingYet(trim, content);
    OnLine(trim, content, 0, cut);
    var text := trim(tail);
    line := if text == "" then None else Some(text);
  }
}
