/** Detecting dropped Linux capabilities: 64-bit sets as two 32-bit words, masks, and a population count that
    works on all fields of a word at once. Words are bit-vectors, so every sum and product is modulo 2^32. */
module Capabilities {

  function Half(x: bv32): bv32 { x >> 1 }

  /** Bit i of a word. */
  predicate Bit(x: bv32, i: nat) {
    if i == 0 then x & 1 == 1 else Bit(Half(x), i - 1)
  }

  /** The true number of set bits below n. */
  function Count(x: bv32, n: nat): nat {
    if n == 0 then 0 else Count(x, n - 1) + if Bit(x, n - 1) then 1 else 0
  }

  // ---- The population count ----

  function Pairs(x: bv32): bv32 { x - ((x >> 1) & 0x5555_5555) }

  function Nibbles(x: bv32): bv32 { (x & 0x3333_3333) + ((x >> 2) & 0x3333_3333) }

  function Bytes(x: bv32): bv32 { (x + (x >> 4)) & 0x0f0f_0f0f }

  function Gather(x: bv32): bv32 { (x * 0x0101_0101) >> 24 }

  function Eighth(x: bv32): bv32 { x >> 8 }

  /** The bits of the lowest byte, added up. */
  function LowByte(x: bv32): bv32 {
    (x & 1) + ((x >> 1) & 1) + ((x >> 2) & 1) + ((x >> 3) & 1)
    + ((x >> 4) & 1) + ((x >> 5) & 1) + ((x >> 6) & 1) + ((x >> 7) & 1)
  }

  function Plus(a: bv32, b: bv32): bv32 { a + b }

  function Byte0(z: bv32): bv32 { z & 0xff }

  function Byte1(z: bv32): bv32 { (z >> 8) & 0xff }

  function Byte2(z: bv32): bv32 { (z >> 16) & 0xff }

  function Byte3(z: bv32): bv32 { z >> 24 }

  lemma FirstByte(x: bv32)
    ensures Byte0(Bytes(Nibbles(Pairs(x)))) == LowByte(x)
  {}

  lemma SecondByte(x: bv32)
    ensures Byte1(Bytes(Nibbles(Pairs(x)))) == LowByte(Eighth(x))
  {}

  lemma ThirdByte(x: bv32)
    ensures Byte2(Bytes(Nibbles(Pairs(x)))) == LowByte(Eighth(Eighth(x)))
  {}

  lemma FourthByte(x: bv32)
    ensures Byte3(Bytes(Nibbles(Pairs(x)))) == LowByte(Eighth(Eighth(Eighth(x))))
  {}

  /** The product gathers the four byte sums in the top byte. */
  lemma GatherAdds(z: bv32)
    requires z & 0x0f0f_0f0f == z
    ensures Gather(z) == Plus(Plus(Plus(Byte0(z), Byte1(z)), Byte2(z)), Byte3(z))
  {}

  lemma GatherAddsBytes(y: bv32)
    ensures var z := Bytes(y); Gather(z) == Plus(Plus(Plus(Byte0(z), Byte1(z)), Byte2(z)), Byte3(z))
  {
    hide Gather, Byte0, Byte1, Byte2, Byte3, Plus;
    GatherAdds(Bytes(y));
  }

  /** A bit, as a number. */
  function Digit(x: bv32): int { if x & 1 == 1 then 1 else 0 }

  function Value(x: bv32): int { x as int }

  lemma LowByteDigits(x: bv32)
    ensures Value(LowByte(x)) ==
            Digit(x) + Digit(Half(x)) + Digit(Half(Half(x))) + Digit(Half(Half(Half(x))))
            + Digit(Half(Half(Half(Half(x))))) + Digit(Half(Half(Half(Half(Half(x))))))
            + Digit(Half(Half(Half(Half(Half(Half(x))))))) + Digit(Half(Half(Half(Half(Half(Half(Half(x))))))))
  {}

  lemma EightHalves(x: bv32)
    ensures Half(Half(Half(Half(Half(Half(Half(Half(x)))))))) == Eighth(x)
  {}

  /** Counting from the low end. */
  lemma {:induction false} CountFirst(x: bv32, n: nat)
    ensures Count(x, n + 1) == Digit(x) + Count(Half(x), n)
  {
    hide Half;
    if n == 0 {
      assert Count(x, 1) == Count(x, 0) + if Bit(x, 0) then 1 else 0;
    } else {
      CountFirst(x, n - 1);
    }
  }

  lemma CountByte(x: bv32, n: nat)
    ensures Count(x, n + 8) == Value(LowByte(x)) + Count(Eighth(x), n)
  {
    hide *;
    LowByteDigits(x);
    EightHalves(x);
    var x1 := Half(x);
    var x2 := Half(x1);
    var x3 := Half(x2);
    var x4 := Half(x3);
    var x5 := Half(x4);
    var x6 := Half(x5);
    var x7 := Half(x6);
    CountFirst(x, n + 7);
    CountFirst(x1, n + 6);
    CountFirst(x2, n + 5);
    CountFirst(x3, n + 4);
    CountFirst(x4, n + 3);
    CountFirst(x5, n + 2);
    CountFirst(x6, n + 1);
    CountFirst(x7, n);
  }

  predicate AtMost(x: bv32, n: bv32) { x <= n }

  /** Small sums do not wrap around. */
  lemma PlusValue(a: bv32, b: bv32)
    requires AtMost(a, 24) && AtMost(b, 8)
    ensures Value(Plus(a, b)) == Value(a) + Value(b)
  {}

  lemma PlusBound(a: bv32, b: bv32)
    requires AtMost(b, 8)
    ensures AtMost(a, 8) ==> AtMost(Plus(a, b), 16)
    ensures AtMost(a, 16) ==> AtMost(Plus(a, b), 24)
  {}

  lemma LowByteBound(x: bv32)
    ensures AtMost(LowByte(x), 8)
  {}

  lemma AtMostMore(a: bv32)
    ensures AtMost(a, 8) ==> AtMost(a, 24)
    ensures AtMost(a, 16) ==> AtMost(a, 24)
  {}

  lemma AddBytes(a: bv32, b: bv32, c: bv32, d: bv32)
    requires AtMost(a, 8) && AtMost(b, 8) && AtMost(c, 8) && AtMost(d, 8)
    ensures Value(Plus(Plus(Plus(a, b), c), d)) == Value(a) + Value(b) + Value(c) + Value(d)
  {
    hide *;
    AtMostMore(a);
    PlusValue(a, b);
    PlusBound(a, b);
    AtMostMore(Plus(a, b));
    PlusValue(Plus(a, b), c);
    PlusBound(Plus(a, b), c);
    PlusValue(Plus(Plus(a, b), c), d);
  }

  lemma CountBytes(x: bv32, y: bv32, z: bv32, w: bv32)
    requires y == Eighth(x) && z == Eighth(y) && w == Eighth(z)
    ensures Count(x, 32) == Value(LowByte(x)) + Value(LowByte(y)) + Value(LowByte(z)) + Value(LowByte(w))
  {
    hide *;
    CountByte(x, 24);
    CountByte(y, 16);
    CountByte(z, 8);
    CountByte(w, 0);
    CountNone(Eighth(w));
  }

  lemma CountWord(x: bv32, y: bv32, z: bv32, w: bv32)
    requires y == Eighth(x) && z == Eighth(y) && w == Eighth(z)
    ensures Count(x, 32) == Value(Plus(Plus(Plus(LowByte(x), LowByte(y)), LowByte(z)), LowByte(w)))
  {
    hide *;
    CountBytes(x, y, z, w);
    LowByteBound(x);
    LowByteBound(y);
    LowByteBound(z);
    LowByteBound(w);
    AddBytes(LowByte(x), LowByte(y), LowByte(z), LowByte(w));
  }

  lemma CountNone(x: bv32)
    ensures Count(x, 0) == 0
  {}

  lemma PopCountCorrect(x: bv32)
    ensures Value(Gather(Bytes(Nibbles(Pairs(x))))) == Count(x, 32)
  {
    hide *;
    FirstByte(x);
    SecondByte(x);
    ThirdByte(x);
    FourthByte(x);
    GatherAddsBytes(Nibbles(Pairs(x)));
    CountWord(x, Eighth(x), Eighth(Eighth(x)), Eighth(Eighth(Eighth(x))));
  }

  method PopCount32(word: bv32) returns (n: int)
    ensures n == Count(word, 32)
  {
    hide *;
    var x := word;
    x := Pairs(x);
    x := Nibbles(x);
    x := Bytes(x);
    PopCountCorrect(word);
    n := Value(Gather(x));
  }

  // ---- Masks ----

  lemma Succ(b: bv64)
    requires b as int < 64
    ensures (b + 1) as int == b as int + 1
  {}

  /** The conversion of a shift amount to an unsigned word. */
  function Uint(n: nat): (b: bv64)
    requires n <= 64
    ensures b as int == n
  {
    if n == 0 then 0
    else
      Succ(Uint(n - 1));
      Uint(n - 1) + 1
  }

  lemma ShiftFits(b: bv64)
    requires b as int <= 32
    ensures b <= 32 && ((1 as bv64) << b) - 1 <= 0xFFFF_FFFF
    ensures b as int < 32 ==> b < 32 && (1 as bv64) << b <= 0xFFFF_FFFF
  {}

  /** The n lowest bits. */
  function LowOnes(n: nat): bv32
    requires n <= 32
  {
    ShiftFits(Uint(n));
    (((1 as bv64) << Uint(n)) - 1) as bv32
  }

  lemma OnesShift(b: bv64)
    requires b < 32
    ensures (((1 as bv64) << (b + 1)) - 1) as bv32 & 1 == 1
    ensures Half((((1 as bv64) << (b + 1)) - 1) as bv32) == (((1 as bv64) << b) - 1) as bv32
  {}

  lemma LowOnesStep(n: nat)
    requires n < 32
    ensures LowOnes(n + 1) & 1 == 1 && Half(LowOnes(n + 1)) == LowOnes(n)
  {
    ShiftFits(Uint(n));
    assert Uint(n + 1) == Uint(n) + 1;
    OnesShift(Uint(n));
  }

  lemma ZeroBits(i: nat)
    ensures !Bit(0, i)
  {
    if i > 0 { ZeroBits(i - 1); }
  }

  lemma {:induction false} LowOnesBit(n: nat, i: nat)
    requires n <= 32
    ensures Bit(LowOnes(n), i) <==> i < n
  {
    if n == 0 {
      ZeroBits(i);
    } else {
      LowOnesStep(n - 1);
      if i > 0 { LowOnesBit(n - 1, i - 1); }
    }
  }

  /** The set of all capabilities up to lastCap. */
  function CapFullMask(lastCap: int): (bv32, bv32) {
    if lastCap < 0 then (0, 0)
    else if lastCap >= 63 then (0xFFFF_FFFF, 0xFFFF_FFFF)
    else if lastCap < 32 then (LowOnes(lastCap + 1), 0)
    else (0xFFFF_FFFF, LowOnes(lastCap - 32 + 1))
  }

  lemma AllOnes()
    ensures LowOnes(32) == 0xFFFF_FFFF
  {
    var b := Uint(32);
    assert b == 32 by { ThirtyTwo(b); }
  }

  lemma ThirtyTwo(b: bv64)
    requires b as int == 32
    ensures b == 32
  {}

  /** A capability in a set given as two words. */
  predicate Member(caps: (bv32, bv32), cap: nat) {
    if cap < 32 then Bit(caps.0, cap) else Bit(caps.1, cap - 32)
  }

  /** Whatever lastCap is, the mask has exactly the bits 0..lastCap, as far as there are bits. */
  lemma FullMaskBits(lastCap: int, cap: nat)
    requires cap < 64
    ensures Member(CapFullMask(lastCap), cap) <==> cap <= lastCap
  {
    hide LowOnes, Bit;
    AllOnes();
    var i := if cap < 32 then cap else cap - 32;
    LowOnesBit(32, i);
    ZeroBits(i);
    if 0 <= lastCap < 32 { LowOnesBit(lastCap + 1, i); }
    if 32 <= lastCap < 63 { LowOnesBit(lastCap - 32 + 1, i); }
  }

  // ---- Counting what is missing ----

  /** What `full` has and `have` lacks. */
  function Gap(full: bv32, have: bv32): bv32 { full & !(have & full) }

  lemma GapHalves(full: bv32, have: bv32)
    ensures Half(Gap(full, have)) == Gap(Half(full), Half(have))
    ensures Gap(full, have) & 1 == 1 <==> full & 1 == 1 && have & 1 != 1
  {}

  lemma {:induction false} GapBit(full: bv32, have: bv32, i: nat)
    ensures Bit(Gap(full, have), i) <==> Bit(full, i) && !Bit(have, i)
    decreases i
  {
    hide Gap, Half;
    GapHalves(full, have);
    if i > 0 { GapBit(Half(full), Half(have), i - 1); }
  }

  /** The true number of capabilities below n that the set lacks. */
  function Missing(caps: (bv32, bv32), n: nat): nat {
    if n == 0 then 0 else Missing(caps, n - 1) + if Member(caps, n - 1) then 0 else 1
  }

  function Min(a: int, b: int): int { if a < b then a else b }

  lemma {:induction false} LowGap(caps: (bv32, bv32), lastCap: int, k: nat)
    requires 0 <= lastCap && k <= 32
    ensures Count(Gap(CapFullMask(lastCap).0, caps.0), k) == Missing(caps, Min(k, lastCap + 1))
  {
    hide Bit, Gap, CapFullMask;
    if k > 0 {
      LowGap(caps, lastCap, k - 1);
      GapBit(CapFullMask(lastCap).0, caps.0, k - 1);
      FullMaskBits(lastCap, k - 1);
    }
  }

  lemma {:induction false} HighGap(caps: (bv32, bv32), lastCap: int, k: nat)
    requires 0 <= lastCap && k <= 32
    ensures Missing(caps, Min(32, lastCap + 1)) + Count(Gap(CapFullMask(lastCap).1, caps.1), k)
            == Missing(caps, Min(32 + k, lastCap + 1))
  {
    hide Bit, Gap, CapFullMask;
    if k > 0 {
      HighGap(caps, lastCap, k - 1);
      GapBit(CapFullMask(lastCap).1, caps.1, k - 1);
      FullMaskBits(lastCap, 32 + k - 1);
    }
  }

  lemma {:induction false} MissingRange(caps: (bv32, bv32), n: nat)
    ensures Missing(caps, n) <= n
    ensures Missing(caps, n) == 0 <==> forall cap :: 0 <= cap < n ==> Member(caps, cap)
  {
    hide Member;
    if n > 0 { MissingRange(caps, n - 1); }
  }

  /** Bits above the last capability neither hide nor feign a drop. */
  lemma {:induction false} HighBitsIgnored(a: (bv32, bv32), b: (bv32, bv32), n: nat)
    requires forall cap :: 0 <= cap < n ==> (Member(a, cap) <==> Member(b, cap))
    ensures Missing(a, n) == Missing(b, n)
  {
    hide Member;
    if n > 0 { HighBitsIgnored(a, b, n - 1); }
  }

  method CountMissing(caps: (bv32, bv32), full: (bv32, bv32)) returns (n: int)
    ensures n == Count(Gap(full.0, caps.0), 32) + Count(Gap(full.1, caps.1), 32)
  {
    hide *;
    var low := PopCount32(Gap(full.0, caps.0));
    var high := PopCount32(Gap(full.1, caps.1));
    return low + high;
  }

  datatype Report = Report(permitted: int, bounding: int, total: int, boundingUnknown: bool)

  /** The drop report counts exactly the missing capabilities among 0..lastCap, lastCap being cut to 63. */
  method CapsDropped(permitted: (bv32, bv32), bounding: (bv32, bv32), boundingUnknown: bool, lastCap: int)
    returns (r: Report)
    ensures lastCap < 0 ==> r == Report(0, 0, 0, false)
    ensures lastCap >= 0 ==>
              r == Report(Missing(permitted, Min(lastCap, 63) + 1),
                          if boundingUnknown then 0 else Missing(bounding, Min(lastCap, 63) + 1),
                          Min(lastCap, 63) + 1, boundingUnknown)
  {
    hide Missing, Count, Gap, CapFullMask;
    if lastCap < 0 { return Report(0, 0, 0, false); }
    var last := if lastCap > 63 then 63 else lastCap;
    var full := CapFullMask(last);
    var missing := CountMissing(permitted, full);
    LowGap(permitted, last, 32);
    HighGap(permitted, last, 32);
    r := Report(missing, 0, last + 1, boundingUnknown);
    if boundingUnknown { return; }
    missing := CountMissing(bounding, full);
    LowGap(bounding, last, 32);
    HighGap(bounding, last, 32);
    r := r.(bounding := missing);
  }

  // ---- Reading the bounding set ----

  /** What the kernel says about one capability; it may not know the number, or refuse the call. */
  datatype Answer = Present | Absent | Unrecognised | Refused

  function OneAt(k: nat): bv32
    requires k < 32
  {
    ShiftFits(Uint(k));
    ((1 as bv64) << Uint(k)) as bv32
  }

  lemma OneShift(b: bv64)
    requires b < 31
    ensures ((1 as bv64) << (b + 1)) as bv32 & 1 == 0
    ensures Half(((1 as bv64) << (b + 1)) as bv32) == ((1 as bv64) << b) as bv32
  {}

  lemma OneAtStep(k: nat)
    requires k < 31
    ensures OneAt(k + 1) & 1 == 0 && Half(OneAt(k + 1)) == OneAt(k)
  {
    Small(Uint(k));
    assert Uint(k + 1) == Uint(k) + 1;
    OneShift(Uint(k));
  }

  lemma Small(b: bv64)
    requires b as int < 31
    ensures b < 31
  {}

  function Or(x: bv32, y: bv32): bv32 { x | y }

  lemma OrHalves(x: bv32, y: bv32)
    ensures Half(Or(x, y)) == Or(Half(x), Half(y))
  {}

  lemma OrLowBit(x: bv32, y: bv32)
    ensures Or(x, y) & 1 == 1 <==> x & 1 == 1 || y & 1 == 1
  {
    assert Or(x, y) & 1 == Or(x & 1, y & 1);
    LowBitIsBit(x);
    LowBitIsBit(y);
  }

  lemma LowBitIsBit(x: bv32)
    ensures x & 1 == 0 || x & 1 == 1
  {}

  lemma {:induction false} OrBit(x: bv32, y: bv32, i: nat)
    ensures Bit(Or(x, y), i) <==> Bit(x, i) || Bit(y, i)
    decreases i
  {
    hide Half, Or;
    OrHalves(x, y);
    OrLowBit(x, y);
    if i > 0 { OrBit(Half(x), Half(y), i - 1); }
  }

  lemma FirstOne()
    ensures OneAt(0) == 1 && Half(1) == 0
  {}

  lemma {:induction false} OneAtBit(k: nat, i: nat)
    requires k < 32
    ensures Bit(OneAt(k), i) <==> i == k
  {
    hide OneAt, Half;
    if k == 0 {
      FirstOne();
      if i > 0 { ZeroBits(i - 1); }
    } else {
      OneAtStep(k - 1);
      if i > 0 { OneAtBit(k - 1, i - 1); }
    }
  }

  function With(caps: (bv32, bv32), cap: nat): (bv32, bv32)
    requires cap < 64
  {
    if cap < 32 then (Or(caps.0, OneAt(cap)), caps.1) else (caps.0, Or(caps.1, OneAt(cap - 32)))
  }

  lemma WithMember(caps: (bv32, bv32), cap: nat, c: nat)
    requires cap < 64 && c < 64
    ensures Member(With(caps, cap), c) <==> c == cap || Member(caps, c)
  {
    hide OneAt, Bit, Or;
    var i := if c < 32 then c else c - 32;
    var k := if cap < 32 then cap else cap - 32;
    OneAtBit(k, i);
    OrBit(caps.0, OneAt(k), i);
    OrBit(caps.1, OneAt(k), i);
  }

  /** The walk over the bounding set: the result holds exactly the capabilities reported present. */
  method ReadBoundingSet(answer: nat -> Answer, lastCap: int) returns (caps: (bv32, bv32), ok: bool)
    ensures ok <==> forall cap :: 0 <= cap <= Min(lastCap, 63) ==> answer(cap) != Refused
    ensures !ok ==> caps == (0, 0)
    ensures ok ==> forall cap :: 0 <= cap < 64 ==> (Member(caps, cap) <==> cap <= lastCap && answer(cap) == Present)
  {
    hide Member, With;
    caps, ok := (0, 0), true;
    assert forall c :: 0 <= c < 64 ==> !Member(caps, c) by { NoMembers(); }
    if lastCap < 0 { return; }
    var last := if lastCap > 63 then 63 else lastCap;
    for cap := 0 to last + 1
      invariant forall c :: 0 <= c < cap ==> answer(c) != Refused
      invariant forall c :: 0 <= c < 64 ==> (Member(caps, c) <==> c < cap && answer(c) == Present)
    {
      var a := answer(cap);
      if a == Refused { return (0, 0), false; }
      if a != Present { continue; }
      forall c | 0 <= c < 64
        ensures Member(With(caps, cap), c) <==> c == cap || Member(caps, c)
      {
        WithMember(caps, cap, c);
      }
      caps := With(caps, cap);
    }
  }

  lemma NoMembers()
    ensures forall c :: 0 <= c < 64 ==> !Member((0, 0), c)
  {
    forall c | 0 <= c < 64 ensures !Member((0, 0), c) {
      ZeroBits(if c < 32 then c else c - 32);
    }
  }

  /** The probe: capability dropping is in use exactly when some capability up to lastCap is missing from the
      permitted caps or, if it could be read, from the bounding caps. */
  method ProbeCapabilityDrop(permitted: (bv32, bv32), answer: nat -> Answer, lastCap: int) returns (dropped: bool)
    requires 0 <= lastCap <= 63
    ensures dropped <==>
              exists cap :: 0 <= cap <= lastCap
                            && (|| !Member(permitted, cap)
                                || (answer(cap) != Present
                                    && forall c :: 0 <= c <= lastCap ==> answer(c) != Refused))
  {
    hide Member, Missing;
    var bounding, ok := ReadBoundingSet(answer, lastCap);
    var r := CapsDropped(permitted, bounding, !ok, lastCap);
    MissingRange(permitted, lastCap + 1);
    MissingRange(bounding, lastCap + 1);
    dropped := r.permitted > 0 || r.bounding > 0;
    if ok && r.bounding > 0 {
      var cap :| 0 <= cap < lastCap + 1 && !Member(bounding, cap);
      assert answer(cap) != Present;
    }
  }
}
