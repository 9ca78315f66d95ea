/** Decimal text of signed integers: strconv.FormatInt, strconv.Itoa and
    strconv.ParseInt as the audit package uses them (base 10, 64 bits). */
module Decimal {
  import opened Options

  const MIN_INT64: int := -0x8000_0000_0000_0000
  const MAX_INT64: int := 0x7FFF_FFFF_FFFF_FFFF

  type Int64 = x: int | MIN_INT64 <= x <= MAX_INT64
  type UInt32 = x: int | 0 <= x <= 0xFFFF_FFFF

  /** Two's complement increment of an int64. */
  function Increment(x: Int64): (r: Int64) {
    if x == MAX_INT64 then MIN_INT64 else x + 1
  }

  predicate IsDigit(c: char) { '0' <= c <= '9' }

  predicate AllDigits(s: string) { forall i :: 0 <= i < |s| ==> IsDigit(s[i]) }

  function DigitOf(c: char): nat
    requires IsDigit(c)
  { c as int - '0' as int }

  function CharOf(d: nat): (c: char)
    requires d < 10
    ensures IsDigit(c) && DigitOf(c) == d
  { (d + '0' as int) as char }

  function FormatNat(n: nat): (s: string)
    ensures s != "" && AllDigits(s)
  {
    if n < 10 then [CharOf(n)] else FormatNat(n / 10) + [CharOf(n % 10)]
  }

  function FormatInt(n: int): string {
    if n < 0 then "-" + FormatNat(-n) else FormatNat(n)
  }

  function NatValue(s: string): nat
    requires AllDigits(s)
  {
    if s == "" then 0 else 10 * NatValue(s[..|s| - 1]) + DigitOf(s[|s| - 1])
  }

  /** strconv.ParseInt(s, 10, 64): an optional sign, at least one digit, in range. */
  function ParseInt64(s: string): Option<Int64> {
    var negative := s != "" && s[0] == '-';
    var body := if s != "" && (s[0] == '-' || s[0] == '+') then s[1..] else s;
    if body == "" || !AllDigits(body) then None
    else
      var n: int := NatValue(body);
      var v := if negative then -n else n;
      if MIN_INT64 <= v <= MAX_INT64 then Some(v) else None
  }

  lemma {:induction false} NatValueOfFormat(n: nat)
    ensures NatValue(FormatNat(n)) == n
  {
    if n >= 10 {
      NatValueOfFormat(n / 10);
      var s := FormatNat(n);
      assert s[..|s| - 1] == FormatNat(n / 10);
    }
  }

  /** Formatting and parsing are inverse over the whole int64 range. */
  lemma ParseFormat(n: int)
    requires MIN_INT64 <= n <= MAX_INT64
    ensures ParseInt64(FormatInt(n)) == Some(n)
  {
    hide NatValue, FormatNat;
    if n < 0 {
      NatValueOfFormat(-n);
      assert FormatInt(n)[0] == '-' && FormatInt(n)[1..] == FormatNat(-n);
    } else {
      NatValueOfFormat(n);
      assert IsDigit(FormatNat(n)[0]);
    }
  }

  /** A plus sign is read as well. */
  lemma ParsePlus(n: int)
    requires 0 <= n <= MAX_INT64
    ensures ParseInt64("+" + FormatInt(n)) == Some(n)
  {
    hide NatValue, FormatNat;
    NatValueOfFormat(n);
    assert ("+" + FormatInt(n))[1..] == FormatNat(n);
  }

  lemma FormatIntInjective(m: int, n: int)
    requires FormatInt(m) == FormatInt(n)
    ensures m == n
  {
    assert forall k: nat :: IsDigit(FormatNat(k)[0]);
    if m < 0 {
      assert FormatInt(m)[0] == '-';
      assert FormatInt(m)[1..] == FormatNat(-m) && FormatInt(n)[1..] == FormatNat(-n);
      NatValueOfFormat(-m);
      NatValueOfFormat(-n);
    } else {
      NatValueOfFormat(m);
      NatValueOfFormat(n);
    }
  }

  lemma FormatIntHasNoBar(n: int)
    ensures '|' !in FormatInt(n)
  {
    var s := if n < 0 then FormatNat(-n) else FormatNat(n);
    assert forall i :: 0 <= i < |s| ==> IsDigit(s[i]);
  }
}
