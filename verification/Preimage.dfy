/** What is fed to the keyed hash of an audit entry, and the hash itself. */
module Preimage {
  import opened Options
  import opened Decimal

  const SHA256_NAME := "hmac-sha256"
  const SHA512_NAME := "hmac-sha512"

  /** HMAC (section 2 of RFC 2104) with its hex encoding, as two functions of key and message. */
  datatype Mac = Mac(sha256: (string, string) -> string, sha512: (string, string) -> string) {
    /** The digests are lower-level facts about hex.EncodeToString: hex text of a fixed, positive length. */
    ghost predicate Valid() {
      && (forall k, m :: IsHex(sha256(k, m)) && |sha256(k, m)| == 64)
      && (forall k, m :: IsHex(sha512(k, m)) && |sha512(k, m)| == 128)
    }
  }

  predicate IsHexDigit(c: char) { '0' <= c <= '9' || 'a' <= c <= 'f' || 'A' <= c <= 'F' }

  /** hex.DecodeString accepts exactly the even-length strings of hex digits. */
  predicate IsHex(s: string) { |s| % 2 == 0 && forall i :: 0 <= i < |s| ==> IsHexDigit(s[i]) }

  /** The four values an entry hash covers. */
  datatype Fields = Fields(version: int, sequence: int, prev: string, payload: string)

  /** The hashed bytes "version|sequence|prev|payload". */
  function Message(f: Fields): string {
    FormatInt(f.version) + "|" + FormatInt(f.sequence) + "|" + f.prev + "|" + f.payload
  }

  predicate Supported(algorithm: string) { algorithm in {"", SHA256_NAME, SHA512_NAME} }

  /** The hex digest length of a supported algorithm. */
  function DigestLength(algorithm: string): nat { if algorithm == SHA512_NAME then 128 else 64 }

  function EntryHash(mac: Mac, key: string, algorithm: string, f: Fields): (r: Option<string>)
    ensures r.Some? <==> Supported(algorithm)
    ensures mac.Valid() && r.Some? ==> IsDigest(algorithm, r.value)
  {
    if algorithm == SHA512_NAME then Some(mac.sha512(key, Message(f)))
    else if algorithm == "" || algorithm == SHA256_NAME then Some(mac.sha256(key, Message(f)))
    else None
  }

  predicate IsDigest(algorithm: string, s: string) { IsHex(s) && |s| == DigestLength(algorithm) }

  /** The hash function of one key and algorithm. */
  type Hash = Fields -> Option<string>

  function Keyed(mac: Mac, key: string, algorithm: string): Hash {
    f => EntryHash(mac, key, algorithm, f)
  }

  /** All a chain proof needs to know of a hash function. */
  ghost predicate Digests(hash: Hash, algorithm: string) {
    forall f :: hash(f).Some? ==> IsDigest(algorithm, hash(f).value)
  }

  lemma KeyedDigests(mac: Mac, key: string, algorithm: string)
    requires mac.Valid()
    ensures Digests(Keyed(mac, key, algorithm), algorithm)
  {}

  // ---- Closed payloads ----

  /** A scan over JSON text. A bar or a backslash occurs only inside a string literal. */
  datatype Quote = Outside | Inside | Escaped | Bad

  function ScanChar(q: Quote, c: char): Quote {
    match q
    case Outside => if c == '"' then Inside else if c == '|' || c == '\\' then Bad else Outside
    case Inside => if c == '"' then Outside else if c == '\\' then Escaped else Inside
    case Escaped => Inside
    case Bad => Bad
  }

  function Scan(q: Quote, s: string): Quote
    decreases |s|
  {
    if s == "" then q else Scan(ScanChar(q, s[0]), s[1..])
  }

  /** Every literal is closed, and there is no bar or backslash outside of literals. JSON text is like that. */
  predicate Closed(s: string) { Scan(Outside, s) == Outside }

  lemma {:induction false} ScanAppend(q: Quote, s: string, t: string)
    ensures Scan(q, s + t) == Scan(Scan(q, s), t)
    decreases |s|
  {
    if s == "" {
      assert s + t == t;
    } else {
      assert (s + t)[1..] == s[1..] + t;
      ScanAppend(ScanChar(q, s[0]), s[1..], t);
    }
  }

  lemma {:induction false} BadStaysBad(s: string)
    ensures Scan(Bad, s) == Bad
  {
    if s != "" { BadStaysBad(s[1..]); }
  }

  /** From inside and from outside of a literal one text cannot end outside both times: the two scans stay in
      opposition until one of them fails. */
  lemma {:induction false} Opposition(s: string)
    ensures !(Scan(Outside, s) == Outside && Scan(Inside, s) == Outside)
  {
    if s != "" {
      BadStaysBad(s[1..]);
      Opposition(s[1..]);
    }
  }

  /** A closed text is not a closed text behind a bar. */
  lemma NoSplit(q: string, p: string)
    requires Closed(p)
    ensures !Closed(q + "|" + p)
  {
    ScanAppend(Outside, q, "|" + p);
    assert q + "|" + p == q + ("|" + p);
    assert ("|" + p)[1..] == p;
    BadStaysBad(p);
    Opposition(p);
  }

  /** The end of the previous hash can be told: there is no bar in it, or the payload is closed. */
  predicate Separable(f: Fields, g: Fields) {
    ('|' !in f.prev && '|' !in g.prev) || (Closed(f.payload) && Closed(g.payload))
  }

  /** Two different contents share a digest. */
  ghost predicate Clash(hash: Hash, f: Fields, g: Fields) {
    f != g && Separable(f, g) && hash(f).Some? && hash(f) == hash(g)
  }

  /** Two different byte strings have one MAC under one key. */
  ghost predicate MacCollision(mac: Mac, key: string, m1: string, m2: string) {
    m1 != m2 && (mac.sha256(key, m1) == mac.sha256(key, m2) || mac.sha512(key, m1) == mac.sha512(key, m2))
  }

  lemma DigestHasNoBar(algorithm: string, s: string)
    requires IsDigest(algorithm, s)
    ensures s != "" && '|' !in s
  {
    assert forall i :: 0 <= i < |s| ==> IsHexDigit(s[i]);
  }

  lemma CutUnique(a: string, b: string, x: string, y: string)
    requires '|' !in a && '|' !in b
    requires a + "|" + x == b + "|" + y
    ensures a == b && x == y
  {
    var s := a + "|" + x;
    assert s[|a|] == '|' && s[|b|] == '|';
    assert forall i :: 0 <= i < |a| ==> s[i] == a[i] != '|';
    assert forall i :: 0 <= i < |b| ==> s[i] == b[i] != '|';
    assert a == s[..|a|] && b == s[..|b|];
    assert x == s[|a| + 1..] && y == s[|b| + 1..];
  }

  /** The text up to the first bar. */
  function UpToBar(s: string): (r: string)
    ensures |r| <= |s|
  { if s == "" || s[0] == '|' then "" else [s[0]] + UpToBar(s[1..]) }

  /** The text behind the first bar. */
  function PastBar(s: string): string { if |UpToBar(s)| == |s| then "" else s[|UpToBar(s)| + 1..] }

  lemma {:induction false} CutAtBar(a: string, x: string)
    requires '|' !in a
    ensures UpToBar(a + "|" + x) == a && PastBar(a + "|" + x) == x
  {
    var s := a + "|" + x;
    if a != "" {
      assert s[1..] == a[1..] + "|" + x;
      CutAtBar(a[1..], x);
      assert s[|a| + 1..] == x;
    }
  }

  /** The layout of the hashed bytes: the version up to the first bar, the sequence number up to the second, both in
      decimal, then the previous hash and the payload. */
  lemma MessageLayout(f: Fields)
    requires MIN_INT64 <= f.version <= MAX_INT64 && MIN_INT64 <= f.sequence <= MAX_INT64
    ensures var rest := PastBar(Message(f));
            && ParseInt64(UpToBar(Message(f))) == Some(f.version) && ParseInt64(UpToBar(rest)) == Some(f.sequence)
            && PastBar(rest) == f.prev + "|" + f.payload
            && ('|' !in f.prev ==> UpToBar(PastBar(rest)) == f.prev && PastBar(PastBar(rest)) == f.payload)
  {
    hide FormatInt, ParseInt64, UpToBar, PastBar;
    FormatIntHasNoBar(f.version);
    FormatIntHasNoBar(f.sequence);
    ParseFormat(f.version);
    ParseFormat(f.sequence);
    var tail := f.prev + "|" + f.payload;
    assert Message(f) == FormatInt(f.version) + "|" + (FormatInt(f.sequence) + "|" + tail);
    CutAtBar(FormatInt(f.version), FormatInt(f.sequence) + "|" + tail);
    CutAtBar(FormatInt(f.sequence), tail);
    if '|' !in f.prev { CutAtBar(f.prev, f.payload); }
  }

  lemma ClosedCutUnique(a: string, b: string, x: string, y: string)
    requires Closed(x) && Closed(y) && a + "|" + x == b + "|" + y && |a| <= |b|
    ensures a == b && x == y
  {
    var s := a + "|" + x;
    assert a == s[..|a|] && b == s[..|b|] && x == s[|a| + 1..] && y == s[|b| + 1..];
    if |a| < |b| {
      var q := s[|a| + 1..|b|];
      assert x == q + "|" + y by {
        assert s[|b|] == '|';
      }
      NoSplit(q, y);
    }
  }

  lemma TailUnambiguous(f: Fields, g: Fields)
    requires Separable(f, g) && f.prev + "|" + f.payload == g.prev + "|" + g.payload
    ensures f.prev == g.prev && f.payload == g.payload
  {
    hide Closed;
    if '|' !in f.prev && '|' !in g.prev {
      CutUnique(f.prev, g.prev, f.payload, g.payload);
    } else if |f.prev| <= |g.prev| {
      ClosedCutUnique(f.prev, g.prev, f.payload, g.payload);
    } else {
      ClosedCutUnique(g.prev, f.prev, g.payload, f.payload);
    }
  }

  /** The hashed bytes determine all four fields: for previous hashes without a separator, which hex digests and
      the empty genesis hash are, whatever the payloads contain; and for JSON payloads whatever the previous
      hashes contain. */
  lemma MessageUnambiguous(f: Fields, g: Fields)
    requires Separable(f, g) && Message(f) == Message(g)
    ensures f == g
  {
    hide Separable, FormatInt;
    FormatIntHasNoBar(f.version);
    FormatIntHasNoBar(g.version);
    FormatIntHasNoBar(f.sequence);
    FormatIntHasNoBar(g.sequence);
    var t1, t2 := f.prev + "|" + f.payload, g.prev + "|" + g.payload;
    var r1, r2 := FormatInt(f.sequence) + "|" + t1, FormatInt(g.sequence) + "|" + t2;
    assert Message(f) == FormatInt(f.version) + "|" + r1;
    assert Message(g) == FormatInt(g.version) + "|" + r2;
    CutUnique(FormatInt(f.version), FormatInt(g.version), r1, r2);
    CutUnique(FormatInt(f.sequence), FormatInt(g.sequence), t1, t2);
    TailUnambiguous(f, g);
    FormatIntInjective(f.version, g.version);
    FormatIntInjective(f.sequence, g.sequence);
  }

  /** So a clash of contents is a collision of the MAC itself. */
  lemma ClashIsMacCollision(mac: Mac, key: string, algorithm: string, f: Fields, g: Fields)
    requires Clash(Keyed(mac, key, algorithm), f, g)
    ensures MacCollision(mac, key, Message(f), Message(g))
  {
    if Message(f) == Message(g) { MessageUnambiguous(f, g); }
  }
}
