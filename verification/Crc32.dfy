/**
  CRC-32 with the IEEE polynomial, as Go's standard package hash/crc32 computes it
  from a table of 256 entries (compare section 8 of RFC 1952), and the one thing that makes
  it detect changes: each step is injective in the state and in the byte.
 */
module Crc32 {
  import opened Prelude

  const POLYNOMIAL: bv32 := 0xEDB8_8320

  /** One bit of the division. */
  function Bit(c: bv32): bv32 {
    if c & 1 == 1 then (c >> 1) ^ POLYNOMIAL else c >> 1
  }

  function EightBits(c: bv32): bv32 {
    Bit(Bit(Bit(Bit(Bit(Bit(Bit(Bit(c))))))))
  }

  /** IEEETable[i] */
  function TableEntry(i: bv32): bv32 {
    EightBits(i)
  }

  // Operations on bits under a name, so that a proof may go by equalities alone.
  function Sum(c: bv32, d: bv32): bv32 { c ^ d }
  function Wide(b: Byte): bv32 { b as bv32 }
  function Low(c: bv32, b: Byte): bv32 { (c & 0xFF) ^ (b as bv32) }
  function High(c: bv32): bv32 { c & 0xFFFF_FF00 }
  function Shifted(c: bv32): bv32 { c >> 8 }

  /** tab[byte(crc) ^ v] ^ (crc >> 8) */
  function Step(c: bv32, b: Byte): bv32 {
    Sum(TableEntry(Low(c, b)), Shifted(c))
  }

  function Fold(c: bv32, s: Str): bv32 {
    if s == [] then c else Step(Fold(c, s[..|s| - 1]), s[|s| - 1])
  }

  function Not(c: bv32): bv32 {
    c ^ 0xFFFF_FFFF
  }

  /** crc32.Update(crc, IEEETable, s): the state is complemented on the way in and out. */
  function Update(crc: bv32, s: Str): bv32 {
    Not(Fold(Not(crc), s))
  }

  /** crc32.ChecksumIEEE */
  function Checksum(s: Str): bv32 {
    Update(0, s)
  }

  lemma NotTwice(c: bv32)
    ensures Not(Not(c)) == c
  {}

  lemma {:induction false} FoldConcat(c: bv32, s: Str, t: Str)
    ensures Fold(c, s + t) == Fold(Fold(c, s), t)
  {
    hide Step;
    if t == [] {
      assert s + t == s;
    } else {
      FoldConcat(c, s, t[..|t| - 1]);
      assert (s + t)[..|s + t| - 1] == s + t[..|t| - 1];
    }
  }

  /** A running checksum is the checksum of all that has run through it. */
  lemma UpdateConcat(s: Str, t: Str)
    ensures Update(Checksum(s), t) == Checksum(s + t)
  {
    hide Fold, Not;
    FoldConcat(Not(0), s, t);
    NotTwice(Fold(Not(0), s));
  }

  lemma EmptyChecksum()
    ensures Checksum([]) == 0
  {
    NotTwice(0);
  }

  // ---- injectivity ------------------------------------------------------------------------

  /** The top bit of the result tells which branch was taken. */
  lemma BitInjective(c: bv32, d: bv32)
    requires Bit(c) == Bit(d)
    ensures c == d
  {}

  lemma EightBitsInjective(c: bv32, d: bv32)
    requires EightBits(c) == EightBits(d)
    ensures c == d
  {
    hide Bit;
    BitInjective(Bit(Bit(Bit(Bit(Bit(Bit(Bit(c))))))), Bit(Bit(Bit(Bit(Bit(Bit(Bit(d))))))));
    BitInjective(Bit(Bit(Bit(Bit(Bit(Bit(c)))))), Bit(Bit(Bit(Bit(Bit(Bit(d)))))));
    BitInjective(Bit(Bit(Bit(Bit(Bit(c))))), Bit(Bit(Bit(Bit(Bit(d))))));
    BitInjective(Bit(Bit(Bit(Bit(c)))), Bit(Bit(Bit(Bit(d)))));
    BitInjective(Bit(Bit(Bit(c))), Bit(Bit(Bit(d))));
    BitInjective(Bit(Bit(c)), Bit(Bit(d)));
    BitInjective(Bit(c), Bit(d));
    BitInjective(c, d);
  }

  /** Addition of bits is exclusive or, and the division of one bit respects it. */
  lemma BitLinear(c: bv32, d: bv32)
    ensures Bit(c ^ d) == Bit(c) ^ Bit(d)
  {
    ShiftLinear(c, d);
    LowBit(c, d);
    CancelPolynomial(c >> 1, d >> 1);
  }

  lemma ShiftLinear(c: bv32, d: bv32)
    ensures (c ^ d) >> 1 == (c >> 1) ^ (d >> 1)
  {}

  lemma LowBit(c: bv32, d: bv32)
    ensures (c ^ d) & 1 == 1 <==> (c & 1 == 1) != (d & 1 == 1)
  {}

  lemma CancelPolynomial(x: bv32, y: bv32)
    ensures (x ^ POLYNOMIAL) ^ (y ^ POLYNOMIAL) == x ^ y
    ensures (x ^ POLYNOMIAL) ^ y == (x ^ y) ^ POLYNOMIAL
    ensures x ^ (y ^ POLYNOMIAL) == (x ^ y) ^ POLYNOMIAL
  {}

  lemma BitOfSum(c: bv32, d: bv32)
    ensures Bit(Sum(c, d)) == Sum(Bit(c), Bit(d))
  {
    BitLinear(c, d);
  }

  ghost function FourBits(c: bv32): bv32 {
    Bit(Bit(Bit(Bit(c))))
  }

  lemma FourBitsOfSum(c: bv32, d: bv32)
    ensures FourBits(Sum(c, d)) == Sum(FourBits(c), FourBits(d))
  {
    hide Bit, Sum;
    BitOfSum(c, d);
    BitOfSum(Bit(c), Bit(d));
    BitOfSum(Bit(Bit(c)), Bit(Bit(d)));
    BitOfSum(Bit(Bit(Bit(c))), Bit(Bit(Bit(d))));
  }

  lemma EightIsTwiceFour(c: bv32)
    ensures EightBits(c) == FourBits(FourBits(c))
  {
    hide Bit;
  }

  lemma EightBitsOfSum(c: bv32, d: bv32)
    ensures EightBits(Sum(c, d)) == Sum(EightBits(c), EightBits(d))
  {
    hide EightBits, FourBits, Sum;
    EightIsTwiceFour(c);
    EightIsTwiceFour(d);
    EightIsTwiceFour(Sum(c, d));
    FourBitsOfSum(c, d);
    FourBitsOfSum(FourBits(c), FourBits(d));
  }

  /** Without bits among the lowest eight the division only shifts. */
  lemma HighBitsShift(c: bv32)
    ensures EightBits(High(c)) == Shifted(c)
  {}

  /** The table form is the bitwise division of the state with the byte added in. */
  lemma StepIsDivision(c: bv32, b: Byte)
    ensures Step(c, b) == EightBits(Sum(c, Wide(b)))
  {
    hide EightBits, Sum, Low, High, Wide, Shifted;
    Halves(c, b);
    HighBitsShift(c);
    EightBitsOfSum(Low(c, b), High(c));
  }

  lemma Halves(c: bv32, b: Byte)
    ensures Sum(Low(c, b), High(c)) == Sum(c, Wide(b))
  {}

  lemma StepInjectiveInState(c: bv32, d: bv32, b: Byte)
    requires Step(c, b) == Step(d, b)
    ensures c == d
  {
    hide Step, EightBits, Sum, Wide;
    StepIsDivision(c, b);
    StepIsDivision(d, b);
    EightBitsInjective(Sum(c, Wide(b)), Sum(d, Wide(b)));
    StateCancels(c, d, Wide(b));
  }

  lemma StateCancels(c: bv32, d: bv32, x: bv32)
    requires Sum(c, x) == Sum(d, x)
    ensures c == d
  {}

  lemma StepInjectiveInByte(c: bv32, a: Byte, b: Byte)
    requires Step(c, a) == Step(c, b)
    ensures a == b
  {
    hide Step, EightBits, Sum, Wide;
    StepIsDivision(c, a);
    StepIsDivision(c, b);
    EightBitsInjective(Sum(c, Wide(a)), Sum(c, Wide(b)));
    ByteCancels(c, a, b);
  }

  lemma ByteCancels(c: bv32, a: Byte, b: Byte)
    requires Sum(c, Wide(a)) == Sum(c, Wide(b))
    ensures a == b
  {}

  /** What follows cannot make two different states equal again. */
  lemma {:induction false} FoldInjective(c: bv32, d: bv32, s: Str)
    requires Fold(c, s) == Fold(d, s)
    ensures c == d
  {
    hide Step;
    if s != [] {
      StepInjectiveInState(Fold(c, s[..|s| - 1]), Fold(d, s[..|s| - 1]), s[|s| - 1]);
      FoldInjective(c, d, s[..|s| - 1]);
    }
  }

  /** Changing one byte changes the checksum. */
  lemma OneByteChangesChecksum(s: Str, i: nat, b: Byte)
    requires i < |s| && b != s[i]
    ensures Checksum(s[i := b]) != Checksum(s)
  {
    hide Fold, Step, Not;
    if Checksum(s[i := b]) == Checksum(s) {
      var c := Fold(Not(0), s[..i]);
      SplitFold(s, i);
      SplitFold(s[i := b], i);
      assert s[i := b][..i] == s[..i] && s[i := b][i + 1..] == s[i + 1..];
      NotTwice(Fold(Not(0), s));
      NotTwice(Fold(Not(0), s[i := b]));
      FoldInjective(Step(c, s[i]), Step(c, b), s[i + 1..]);
      StepInjectiveInByte(c, s[i], b);
    }
  }

  lemma SplitFold(s: Str, i: nat)
    requires i < |s|
    ensures Fold(Not(0), s) == Fold(Step(Fold(Not(0), s[..i]), s[i]), s[i + 1..])
  {
    hide Step, Not;
    FoldConcat(Not(0), s[..i + 1], s[i + 1..]);
    SplitAfter(s, i);
  }

  lemma SplitAfter(s: Str, i: nat)
    requires i < |s|
    ensures s == s[..i + 1] + s[i + 1..] && s[..i + 1][..i] == s[..i]
  {}
}
