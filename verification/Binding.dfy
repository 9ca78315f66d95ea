/** What a verifying log is worth: its last hash pins down everything before it. */
module Binding {
  import opened Options
  import opened Decimal
  import opened Preimage
  import opened AuditJson
  import opened Verifier

  /** The entry names the hash of `p` as its predecessor, in its metadata or as the end of a chain it replaces. */
  predicate Linked(ck: Checker, p: Entry, e: Entry) {
    if IsBoundary(e) then
      ck.rotation(e.payload).Some?
      && ck.rotation(e.payload).value.prior == Some(Prior(p.meta.sequence, p.meta.entryHash))
    else e.meta.prevHash == p.meta.entryHash
  }

  /** Sealed entries, each linked to the one before it. The numbers may have gaps. */
  ghost predicate Chained(ck: Checker, es: seq<Entry>) {
    && (forall i :: 0 <= i < |es| ==>
          Sealed(ck, es[i]) && es[i].kind == KindOf(ck, es[i].payload) && Closed(es[i].payload))
    && (forall i :: 0 < i < |es| ==> Linked(ck, es[i - 1], es[i]))
  }

  ghost predicate Consecutive(ck: Checker, es: seq<Entry>) {
    forall i :: 0 < i < |es| ==> Follows(ck, es[i - 1], es[i])
  }

  /** The event type is part of the canonical payload. */
  function KindOf(ck: Checker, payload: string): string {
    var p := ck.codec.parse(payload);
    if p.Document? && TextAt(p.fields, "type").Some? then TextAt(p.fields, "type").value else ""
  }

  lemma KindIsInPayload(ck: Checker, text: string)
    requires ck.codec.Faithful() && EntryOf(ck, text).Some?
    ensures EntryOf(ck, text).value.kind == KindOf(ck, EntryOf(ck, text).value.payload)
    ensures Closed(EntryOf(ck, text).value.payload)
  {
    hide Codec.Faithful, Closed;
    PayloadParses(ck.codec, text);
    var m := ck.codec.parse(text).fields;
    assert TextAt(m - {INTEGRITY}, "type") == TextAt(m, "type");
  }

  function EntriesOf(ck: Checker, lines: seq<Line>): seq<Entry>
    requires forall i :: 0 <= i < |lines| ==> EntryOf(ck, lines[i].text).Some?
  {
    seq(|lines|, i requires 0 <= i < |lines| => EntryOf(ck, lines[i].text).value)
  }

  lemma ValidLogIsChained(ck: Checker, lines: seq<Line>)
    requires ck.codec.Faithful() && ValidLog(ck, lines)
    ensures Chained(ck, EntriesOf(ck, lines)) && Consecutive(ck, EntriesOf(ck, lines))
  {
    hide EntryOf, Sealed, MayStart, KindOf, Codec.Faithful, Closed;
    forall i | 0 <= i < |lines|
      ensures EntriesOf(ck, lines)[i].kind == KindOf(ck, EntriesOf(ck, lines)[i].payload)
      ensures Closed(EntriesOf(ck, lines)[i].payload)
    {
      KindIsInPayload(ck, lines[i].text);
    }
  }

  /** Two different contents in the two logs share a digest. */
  ghost predicate HasClash(ck: Checker, a: seq<Entry>, b: seq<Entry>) {
    exists i, j :: 0 <= i < |a| && 0 <= j < |b| && Clash(ck.hash, FieldsOf(a[i]), FieldsOf(b[j]))
  }

  /** Equal hashes mean equal entries. */
  lemma EqualHashEqualEntry(ck: Checker, a: seq<Entry>, b: seq<Entry>, i: nat, j: nat)
    requires Chained(ck, a) && Chained(ck, b)
    requires i < |a| && j < |b| && a[i].meta.entryHash == b[j].meta.entryHash && !HasClash(ck, a, b)
    ensures a[i] == b[j]
  {
    hide Closed;
    assert Sealed(ck, a[i]) && Sealed(ck, b[j]);
    assert !Clash(ck.hash, FieldsOf(a[i]), FieldsOf(b[j]));
  }

  /** The last `n` entries of both logs are the same. */
  ghost predicate SameTail(a: seq<Entry>, b: seq<Entry>, n: nat)
    requires n <= |a| && n <= |b|
  { a[|a| - n..] == b[|b| - n..] }

  /** Equal entries have equal predecessors, across rotation events too. */
  lemma EqualPredecessors(ck: Checker, a: seq<Entry>, b: seq<Entry>, i: nat, j: nat)
    requires Chained(ck, a) && Chained(ck, b) && 0 < i < |a| && 0 < j < |b| && a[i] == b[j]
    ensures a[i - 1].meta.entryHash == b[j - 1].meta.entryHash
  {
    assert Linked(ck, a[i - 1], a[i]) && Linked(ck, b[j - 1], b[j]);
  }

  lemma {:induction false} TailsAgree(ck: Checker, a: seq<Entry>, b: seq<Entry>, n: nat)
    requires Chained(ck, a) && Chained(ck, b)
    requires 0 < n <= |a| && n <= |b| && !HasClash(ck, a, b)
    requires a[|a| - 1].meta.entryHash == b[|b| - 1].meta.entryHash
    ensures SameTail(a, b, n)
  {
    hide Chained, HasClash;
    var i, j := |a| - n, |b| - n;
    if n > 1 {
      TailsAgree(ck, a, b, n - 1);
      assert a[i + 1] == a[|a| - (n - 1)..][0] && b[j + 1] == b[|b| - (n - 1)..][0];
      EqualPredecessors(ck, a, b, i + 1, j + 1);
    }
    EqualHashEqualEntry(ck, a, b, i, j);
    assert a[i..] == [a[i]] + a[i + 1..] && b[j..] == [b[j]] + b[j + 1..];
  }

  /** An entry that no earlier entry can precede: an empty previous hash, and no named prior chain. */
  predicate Anchored(ck: Checker, e: Entry) {
    && e.meta.prevHash == ""
    && (IsBoundary(e) ==> ck.rotation(e.payload).Some? && ck.rotation(e.payload).value.prior.None?)
  }

  /** An entry with a predecessor is not anchored. */
  lemma AnchoredHasNoPredecessor(ck: Checker, algorithm: string, es: seq<Entry>, i: nat)
    requires Digests(ck.hash, algorithm) && Chained(ck, es) && 0 < i < |es|
    ensures !Anchored(ck, es[i])
  {
    assert Linked(ck, es[i - 1], es[i]) && Sealed(ck, es[i - 1]);
    DigestHasNoBar(algorithm, es[i - 1].meta.entryHash);
  }

  /** Chain binding. Two logs that verify and end in the same entry hash agree, entry by entry, on
      everything both of them show: type, sequence, hashes and canonical payload. If one starts at an
      anchored entry the other is not longer. Otherwise the two logs hold a digest clash. */
  lemma ChainBinding(ck: Checker, algorithm: string, x: seq<Line>, y: seq<Line>)
    requires ck.Valid() && Digests(ck.hash, algorithm) && ValidLog(ck, x) && ValidLog(ck, y) && x != [] && y != []
    requires EntriesOf(ck, x)[|x| - 1].meta.entryHash == EntriesOf(ck, y)[|y| - 1].meta.entryHash
    ensures var a, b := EntriesOf(ck, x), EntriesOf(ck, y);
            || HasClash(ck, a, b)
            || (&& SameTail(a, b, if |a| < |b| then |a| else |b|)
                && (Anchored(ck, a[0]) ==> |b| <= |a|)
                && (Anchored(ck, a[0]) && Anchored(ck, b[0]) ==> a == b))
  {
    hide EntryOf, Codec.Faithful, Chained, HasClash, SameTail, Anchored;
    ValidLogIsChained(ck, x);
    ValidLogIsChained(ck, y);
    var a, b := EntriesOf(ck, x), EntriesOf(ck, y);
    if !HasClash(ck, a, b) {
      BoundEntries(ck, algorithm, a, b);
    }
  }

  lemma BoundEntries(ck: Checker, algorithm: string, a: seq<Entry>, b: seq<Entry>)
    requires Digests(ck.hash, algorithm) && Chained(ck, a) && Chained(ck, b)
    requires a != [] && b != [] && !HasClash(ck, a, b)
    requires a[|a| - 1].meta.entryHash == b[|b| - 1].meta.entryHash
    ensures SameTail(a, b, if |a| < |b| then |a| else |b|)
    ensures Anchored(ck, a[0]) ==> |b| <= |a|
    ensures Anchored(ck, a[0]) && Anchored(ck, b[0]) ==> a == b
  {
    hide Chained, HasClash, Digests, Anchored;
    var n := if |a| < |b| then |a| else |b|;
    TailsAgree(ck, a, b, n);
    if |a| < |b| {
      assert a[0] == a[|a| - n..][0] == b[|b| - n];
      AnchoredHasNoPredecessor(ck, algorithm, b, |b| - n);
    } else if |b| < |a| {
      assert b[0] == b[|b| - n..][0] == a[|a| - n];
      AnchoredHasNoPredecessor(ck, algorithm, a, |a| - n);
    } else {
      assert a[0..] == a && b[0..] == b;
    }
  }

  const TWO_TO_THE_64: int := 0x1_0000_0000_0000_0000

  /** Counting from 0 in an int64. */
  function Wrapped(i: nat): int { (i + 0x8000_0000_0000_0000) % TWO_TO_THE_64 - 0x8000_0000_0000_0000 }

  /** No rotation events, and numbered from 0. */
  ghost predicate CountsFromZero(es: seq<Entry>) {
    (es != [] ==> es[0].meta.sequence == 0) && forall i :: 0 <= i < |es| ==> !IsBoundary(es[i])
  }

  lemma WrappedZero()
    ensures Wrapped(0) == 0
  {}

  lemma WrappedStep(i: nat)
    ensures MIN_INT64 <= Wrapped(i) <= MAX_INT64 && Wrapped(i + 1) == Increment(Wrapped(i))
  {}

  lemma {:induction false} SequenceIsPosition(ck: Checker, es: seq<Entry>, i: nat)
    requires Consecutive(ck, es) && CountsFromZero(es) && i < |es|
    ensures es[i].meta.sequence == Wrapped(i)
  {
    hide Wrapped, Sealed, KindOf;
    if i == 0 {
      assert Wrapped(0) == 0 by { WrappedZero(); }
    } else {
      assert Follows(ck, es[i - 1], es[i]) && !IsBoundary(es[i]);
      SequenceIsPosition(ck, es, i - 1);
      WrappedStep(i - 1);
    }
  }

  /** Chain binding for logs that only count from 0, whatever previous hash their oldest entry carries: they have
      the same length as well. Only beyond 2^64 entries could the sequence numbers come round again. */
  lemma CountedBinding(ck: Checker, a: seq<Entry>, b: seq<Entry>)
    requires Chained(ck, a) && Chained(ck, b) && Consecutive(ck, a) && Consecutive(ck, b)
    requires CountsFromZero(a) && CountsFromZero(b) && 0 < |a| <= TWO_TO_THE_64 && 0 < |b| <= TWO_TO_THE_64
    requires a[|a| - 1].meta.entryHash == b[|b| - 1].meta.entryHash
    ensures a == b || HasClash(ck, a, b)
  {
    hide Chained, Consecutive, HasClash, CountsFromZero;
    if !HasClash(ck, a, b) {
      EqualHashEqualEntry(ck, a, b, |a| - 1, |b| - 1);
      SequenceIsPosition(ck, a, |a| - 1);
      SequenceIsPosition(ck, b, |b| - 1);
      assert |a| == |b|;
      TailsAgree(ck, a, b, |a|);
      assert a[0..] == a && b[0..] == b;
    }
  }

  /** The same for verifying logs as lines. */
  lemma CountedLogs(ck: Checker, x: seq<Line>, y: seq<Line>)
    requires ck.Valid() && ValidLog(ck, x) && ValidLog(ck, y)
    requires 0 < |x| <= TWO_TO_THE_64 && 0 < |y| <= TWO_TO_THE_64
    requires CountsFromZero(EntriesOf(ck, x)) && CountsFromZero(EntriesOf(ck, y))
    requires EntriesOf(ck, x)[|x| - 1].meta.entryHash == EntriesOf(ck, y)[|y| - 1].meta.entryHash
    ensures EntriesOf(ck, x) == EntriesOf(ck, y) || HasClash(ck, EntriesOf(ck, x), EntriesOf(ck, y))
  {
    hide EntryOf, Codec.Faithful, Chained, Consecutive, HasClash, CountsFromZero;
    ValidLogIsChained(ck, x);
    ValidLogIsChained(ck, y);
    CountedBinding(ck, EntriesOf(ck, x), EntriesOf(ck, y));
  }

  /** Two verifying logs that begin outside of backups and with no rotation event, and end in the same hash, are
      the same, or hold a clash. */
  lemma UnrotatedBinding(ck: Checker, algorithm: string, x: seq<Line>, y: seq<Line>)
    requires ck.Valid() && Digests(ck.hash, algorithm) && ValidLog(ck, x) && ValidLog(ck, y) && x != [] && y != []
    requires !x[0].backup && !IsBoundary(EntriesOf(ck, x)[0]) && !y[0].backup && !IsBoundary(EntriesOf(ck, y)[0])
    requires EntriesOf(ck, x)[|x| - 1].meta.entryHash == EntriesOf(ck, y)[|y| - 1].meta.entryHash
    ensures EntriesOf(ck, x) == EntriesOf(ck, y) || HasClash(ck, EntriesOf(ck, x), EntriesOf(ck, y))
  {
    hide EntryOf, Codec.Faithful, HasClash, SameTail, Follows, Sealed;
    ChainBinding(ck, algorithm, x, y);
    assert MayStart(ck, x[0].backup, EntriesOf(ck, x)[0]) && MayStart(ck, y[0].backup, EntriesOf(ck, y)[0]);
  }

  /** A clash between logs is a collision of the MAC on two of their hashed messages. */
  lemma ClashBreaksMac(ck: Checker, mac: Mac, key: string, algorithm: string, a: seq<Entry>, b: seq<Entry>)
    requires ck.hash == Keyed(mac, key, algorithm) && HasClash(ck, a, b)
    ensures exists i, j :: 0 <= i < |a| && 0 <= j < |b|
                           && MacCollision(mac, key, Message(FieldsOf(a[i])), Message(FieldsOf(b[j])))
  {
    var i, j :| 0 <= i < |a| && 0 <= j < |b| && Clash(ck.hash, FieldsOf(a[i]), FieldsOf(b[j]));
    ClashIsMacCollision(mac, key, algorithm, FieldsOf(a[i]), FieldsOf(b[j]));
  }
}
