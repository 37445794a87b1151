/**
  The shift-or cascade by which FastLRU rounds its shard count up to a power of
  two. Go's int is 64 bits wide here; a bv64 stands for it in two's complement.
  The cascade stops at a shift by 16, so it does not do so for every count; for which
  it does is proved here.
 */
module Rounding {

  predicate IsPowerOfTwo(p: bv64) {
    p != 0 && p & (p - 1) == 0
  }

  predicate Negative(n: bv64) {
    n >= 0x8000_0000_0000_0000
  }

  lemma SignBit(n: bv64)
    ensures Negative(n) <==> n >> 63 == 1
  {}

  // n |= n >> k, for the five k of the cascade
  function Or1(n: bv64): bv64 { n | (n >> 1) }
  function Or2(n: bv64): bv64 { n | (n >> 2) }
  function Or4(n: bv64): bv64 { n | (n >> 4) }
  function Or8(n: bv64): bv64 { n | (n >> 8) }
  function Or16(n: bv64): bv64 { n | (n >> 16) }

  function Cascade(m: bv64): bv64 {
    Or16(Or8(Or4(Or2(Or1(m)))))
  }

  function RoundUp(count: bv64): bv64 {
    Cascade(count - 1) + 1
  }

  /** The power of two that the count should be rounded up to. */
  predicate IsRoundedUp(count: bv64, n: bv64) {
    IsPowerOfTwo(n) && !Negative(n) && count <= n && n >> 1 < count
  }

  /** From position `i` up there are 32 zero bits in a row, and a one above them. */
  predicate Gap(m: bv64, i: bv64)
    requires i < 32
  {
    (m >> i) & 0xFFFF_FFFF == 0 && m >> i != 0
  }

  ghost predicate HasGap(m: bv64) {
    exists i: bv64 :: i < 32 && Gap(m, i)
  }

  /** There is a power of two to round up to, and count - 1 has no gap that the five shifts cannot bridge. */
  ghost predicate Roundable(count: bv64) {
    count <= 0x4000_0000_0000_0000 && !HasGap(count - 1)
  }

  method NextPowerOfTwo(count: bv64) returns (n: bv64)
    ensures n == if count == 0 || Negative(count) then 1 else RoundUp(count)
    ensures count != 0 && !Negative(count) ==> (IsRoundedUp(count, n) <==> Roundable(count))
  {
    hide RoundUp, IsRoundedUp, Roundable;
    if count == 0 || Negative(count) {
      return 1;
    }
    RoundsUpIff(count);
    n := RoundUpPositive(count);
  }

  method RoundUpPositive(count: bv64) returns (n: bv64)
    ensures n == RoundUp(count)
  {
    n := FillBelow(count - 1);
    n := n + 1;
  }

  /** The five assignments. */
  method FillBelow(m: bv64) returns (n: bv64)
    ensures n == Cascade(m)
  {
    n := m;
    n := Or1(n);
    n := Or2(n);
    n := Or4(n);
    n := Or8(n);
    n := Or16(n);
  }

  /** A power of two whose half is too small is the least one that is large enough. */
  lemma IsLeastPower(count: bv64, n: bv64, p: bv64)
    requires IsPowerOfTwo(n) && n >> 1 < count
    requires IsPowerOfTwo(p) && count <= p
    ensures n <= p
  {}

  // ---- what the cascade fills --------------------------------------------------------------

  predicate IsMask(c: bv64) {
    c & (c + 1) == 0
  }

  lemma GapStaysOpen(m: bv64, i: bv64)
    requires i < 32 && Gap(m, i)
    ensures !IsMask(Cascade(m))
  {}

  /** The lowest eight bits of the result are ones, or all its ones are among them; and so on upwards. */
  lemma FirstByte(m: bv64)
    requires !Gap(m, 0) && !Gap(m, 1) && !Gap(m, 2) && !Gap(m, 3)
    requires !Gap(m, 4) && !Gap(m, 5) && !Gap(m, 6) && !Gap(m, 7)
    ensures Cascade(m) & 0x0000_00FF == 0x0000_00FF || IsMask(Cascade(m))
  {}

  lemma SecondByte(m: bv64)
    requires Cascade(m) & 0x0000_00FF == 0x0000_00FF
    requires !Gap(m, 8) && !Gap(m, 9) && !Gap(m, 10) && !Gap(m, 11)
    requires !Gap(m, 12) && !Gap(m, 13) && !Gap(m, 14) && !Gap(m, 15)
    ensures Cascade(m) & 0x0000_FFFF == 0x0000_FFFF || IsMask(Cascade(m))
  {}

  lemma ThirdByte(m: bv64)
    requires Cascade(m) & 0x0000_FFFF == 0x0000_FFFF
    requires !Gap(m, 16) && !Gap(m, 17) && !Gap(m, 18) && !Gap(m, 19)
    requires !Gap(m, 20) && !Gap(m, 21) && !Gap(m, 22) && !Gap(m, 23)
    ensures Cascade(m) & 0x00FF_FFFF == 0x00FF_FFFF || IsMask(Cascade(m))
  {}

  lemma FourthByte(m: bv64)
    requires Cascade(m) & 0x00FF_FFFF == 0x00FF_FFFF
    requires !Gap(m, 24) && !Gap(m, 25) && !Gap(m, 26) && !Gap(m, 27)
    requires !Gap(m, 28) && !Gap(m, 29) && !Gap(m, 30) && !Gap(m, 31)
    ensures Cascade(m) & 0xFFFF_FFFF == 0xFFFF_FFFF || IsMask(Cascade(m))
  {}

  /** 32 ones in a row reach the leading one. */
  lemma HigherBytes(m: bv64)
    requires Cascade(m) & 0xFFFF_FFFF == 0xFFFF_FFFF
    ensures IsMask(Cascade(m))
  {}

  /** The cascade fills everything below the leading one exactly when there is no gap. */
  lemma FillsIff(m: bv64)
    ensures IsMask(Cascade(m)) <==> !HasGap(m)
  {
    hide Cascade, IsMask, Gap;
    if HasGap(m) {
      var i: bv64 :| i < 32 && Gap(m, i);
      GapStaysOpen(m, i);
    } else if !IsMask(Cascade(m)) {
      FirstByte(m);
      SecondByte(m);
      ThirdByte(m);
      FourthByte(m);
      HigherBytes(m);
    }
  }

  // ---- exactly which counts are rounded as they should be ------------------------------------

  /** c has the leading one of m, and no higher. */
  predicate Spans(m: bv64, c: bv64) {
    m <= c < 0x4000_0000_0000_0000 && (if m == 0 then c == 0 else c >> 1 < m)
  }

  lemma CascadeSpans(m: bv64)
    requires m < 0x4000_0000_0000_0000
    ensures Spans(m, Cascade(m))
  {}

  lemma MaskPlusOne(count: bv64, m: bv64, c: bv64, n: bv64)
    requires m + 1 == count && c + 1 == n && Spans(m, c)
    ensures IsRoundedUp(count, n) <==> IsMask(c)
  {
    if IsMask(c) {
      hide IsRoundedUp, Spans, IsMask;
      MaskGives(m, c);
    } else {
      hide Spans;
    }
  }

  lemma MaskGives(m: bv64, c: bv64)
    requires Spans(m, c) && IsMask(c)
    ensures IsRoundedUp(m + 1, c + 1)
  {}

  lemma TooLarge(count: bv64)
    requires 0x4000_0000_0000_0000 < count && !Negative(count)
    ensures !IsRoundedUp(count, RoundUp(count))
  {}

  lemma RoundsUpIff(count: bv64)
    requires count != 0 && !Negative(count)
    ensures IsRoundedUp(count, RoundUp(count)) <==> Roundable(count)
  {
    if count <= 0x4000_0000_0000_0000 {
      FillsIff(count - 1);
      SmallCount(count);
    } else {
      TooLarge(count);
    }
    hide IsRoundedUp, RoundUp, HasGap, IsMask, Cascade;
  }

  lemma SmallCount(count: bv64)
    requires 1 <= count <= 0x4000_0000_0000_0000
    ensures IsRoundedUp(count, RoundUp(count)) <==> IsMask(Cascade(count - 1))
  {
    CascadeSpans(count - 1);
    hide Cascade, IsRoundedUp, IsMask, Spans;
    MaskPlusOne(count, count - 1, Cascade(count - 1), RoundUp(count));
  }

  /** No count up to 2^32 has a gap; 2^32 + 1 is the first that has. */
  lemma FirstFailure(count: bv64)
    requires 1 <= count <= 0x1_0000_0001
    ensures Roundable(count) <==> count <= 0x1_0000_0000
  {
    if count == 0x1_0000_0001 {
      assert Gap(0x1_0000_0000, 0);
    } else {
      NoRoomForGap(count - 1);
    }
  }

  lemma NoRoomForGap(m: bv64)
    requires m < 0x1_0000_0000
    ensures !HasGap(m)
  {}
}
