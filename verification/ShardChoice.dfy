/** How FastLRU chooses the shard of a key: the FNV-1a hash and the mask. */
module ShardChoice {
  import opened Prelude
  import opened Rounding

  /** The number that the bits of `b` write, least significant bit first. */
  function ToNat(b: bv64): nat
    decreases b
  {
    if b == 0 then 0 else (if b & 1 == 1 then 1 else 0) + 2 * ToNat(b >> 1)
  }

  // ---- masking is taking the remainder --------------------------------------------------

  lemma ShiftDown(h: bv64, m: bv64)
    requires m != 0 && m & (m + 1) == 0
    ensures (h & m) >> 1 == (h >> 1) & (m >> 1)
    ensures (h & m) & 1 == h & 1 && m & 1 == 1
    ensures (m >> 1) & ((m >> 1) + 1) == 0 && m >> 1 < m
  {}

  lemma NatUnfolds(b: bv64)
    ensures ToNat(b) == (if b & 1 == 1 then 1 else 0) + 2 * ToNat(b >> 1)
  {
    if b == 0 {
      assert b >> 1 == 0 && b & 1 == 0;
    }
  }

  lemma {:induction false} EvenRemainder(bit: nat, x: nat, c: nat)
    requires bit < 2 && c > 0
    ensures (bit + 2 * x) % (2 * c) == bit + 2 * (x % c)
  {
    if x < c {
      SmallRemainder(x, c);
      SmallRemainder(bit + 2 * x, 2 * c);
    } else {
      EvenRemainder(bit, x - c, c);
      OneTurnLess(x, c);
      OneTurnLess(bit + 2 * x, 2 * c);
      assert bit + 2 * x - 2 * c == bit + 2 * (x - c);
    }
  }

  lemma SmallRemainder(a: nat, b: nat)
    requires a < b
    ensures a % b == a
  {}

  lemma OneTurnLess(a: nat, b: nat)
    requires 0 < b <= a
    ensures a % b == (a - b) % b
  {
    var q, r := a / b, a % b;
    var q', r' := (a - b) / b, (a - b) % b;
    assert a == b * q + r && a - b == b * q' + r';
    Factor(b, q, q');
    OnlyZeroFits(b, q - q' - 1, r' - r);
  }

  lemma Factor(b: int, q: int, p: int)
    ensures b * (q - p - 1) == b * q - b * p - b
  {}

  lemma OnlyZeroFits(b: int, d: int, e: int)
    requires b > 0 && b * d == e && -b < e < b
    ensures d == 0
  {
    if d >= 1 {
      AtLeastOnce(b, d);
    } else if d <= -1 {
      AtMostMinusOnce(b, d);
    }
  }

  lemma AtMostMinusOnce(b: int, d: int)
    requires b > 0 && d <= -1
    ensures b * d <= -b
  {}

  lemma AtLeastOnce(b: int, d: int)
    requires b > 0 && d >= 1
    ensures b * d >= b
  {}

  /** The three numbers in bits and halves. */
  lemma InHalves(h: bv64, m: bv64) returns (bit: nat)
    requires m != 0 && m & (m + 1) == 0
    ensures bit < 2
    ensures ToNat(h) == bit + 2 * ToNat(h >> 1)
    ensures ToNat(m) == 1 + 2 * ToNat(m >> 1)
    ensures ToNat(h & m) == bit + 2 * ToNat((h >> 1) & (m >> 1))
  {
    ShiftDown(h, m);
    NatUnfolds(h);
    NatUnfolds(m);
    NatUnfolds(h & m);
    bit := if h & 1 == 1 then 1 else 0;
  }

  /** Masking with a number of the form 2^k - 1 is the remainder by that number plus one. */
  lemma {:induction false} MaskIsRemainder(h: bv64, m: bv64)
    requires m & (m + 1) == 0
    ensures ToNat(h & m) == ToNat(h) % (ToNat(m) + 1)
    decreases m
  {
    if m == 0 {
      assert h & m == 0;
    } else {
      hide ToNat;
      ShiftDown(h, m);
      var bit := InHalves(h, m);
      MaskIsRemainder(h >> 1, m >> 1);
      EvenRemainder(bit, ToNat(h >> 1), ToNat(m >> 1) + 1);
      assert ToNat(m) + 1 == 2 * (ToNat(m >> 1) + 1);
    }
  }

  /** The mask taken off. */
  function Masked(h: bv64, count: bv64): bv64 {
    h & (count - 1)
  }

  // Bit operations under a name, so that a proof may go by equalities alone.
  ghost function Half(b: bv64): bv64 { b >> 1 }
  ghost function Pred(b: bv64): bv64 { b - 1 }
  ghost predicate Odd(b: bv64) { b & 1 == 1 }
  ghost predicate Zero(b: bv64) { b == 0 }

  lemma NatInHalves(b: bv64)
    ensures ToNat(b) == (if Odd(b) then 1 else 0) + 2 * ToNat(Half(b))
    ensures !Zero(b) ==> Half(b) < b
  {
    NatUnfolds(b);
    HalfIsLess(b);
    hide ToNat;
  }

  lemma HalfIsLess(b: bv64)
    ensures !Zero(b) ==> Half(b) < b
  {}

  lemma {:induction false} NatOfPredecessor(p: bv64)
    requires !Zero(p)
    ensures ToNat(Pred(p)) + 1 == ToNat(p)
    decreases p
  {
    hide ToNat, Half, Pred, Odd, Zero;
    NatInHalves(p);
    NatInHalves(Pred(p));
    if Odd(p) {
      OddPredecessor(p);
    } else {
      EvenIsNotOne(p);
      EvenPredecessor(p);
      NatOfPredecessor(Half(p));
    }
  }

  lemma OddPredecessor(p: bv64)
    requires Odd(p)
    ensures !Odd(Pred(p)) && Half(Pred(p)) == Half(p)
  {}

  lemma EvenIsNotOne(p: bv64)
    requires !Zero(p) && !Odd(p)
    ensures !Zero(Half(p)) && Odd(Pred(p))
  {}

  lemma EvenPredecessor(p: bv64)
    requires !Zero(p) && !Odd(p)
    ensures Half(Pred(p)) == Pred(Half(p))
  {}

  lemma BitsOfMasked(h: bv64, m: bv64)
    ensures (h & m) >> 1 == (h >> 1) & (m >> 1)
    ensures (h & m) & 1 == 1 ==> m & 1 == 1
    ensures m != 0 ==> m >> 1 < m
    ensures m == 0 ==> h & m == 0
  {}

  /** Taking bits away makes no number larger. */
  lemma {:induction false} MaskedAtMost(h: bv64, m: bv64)
    ensures ToNat(h & m) <= ToNat(m)
    decreases m
  {
    hide ToNat;
    BitsOfMasked(h, m);
    NatUnfolds(m);
    NatUnfolds(h & m);
    if m != 0 {
      MaskedAtMost(h >> 1, m >> 1);
    }
  }

  lemma MaskedInRange(h: bv64, count: bv64)
    requires count != 0
    ensures ToNat(Masked(h, count)) < ToNat(count)
  {
    MaskedAtMost(h, count - 1);
    NatOfPredecessor(count);
    hide ToNat;
  }

  lemma MaskedIsModulo(h: bv64, count: bv64)
    requires IsPowerOfTwo(count)
    ensures 0 < ToNat(count)
    ensures ToNat(Masked(h, count)) == ToNat(h) % ToNat(count)
  {
    NatOfPredecessor(count);
    PredecessorIsMask(count);
    hide ToNat;
    MaskIsRemainder(h, count - 1);
  }

  lemma PredecessorIsMask(p: bv64)
    requires IsPowerOfTwo(p)
    ensures (p - 1) & ((p - 1) + 1) == 0
  {}

  // ---- the hash and the shard --------------------------------------------------------------

  /** The loop body of the hash: exclusive or with the byte, then multiply modulo 2^32. */
  function Mix(h: bv32, b: Byte): bv32 {
    (h ^ (b as bv32)) * 16777619
  }

  /** FNV-1a over the bytes of a key. */
  function Fnv(s: Str): bv32 {
    if s == [] then 2166136261 else Mix(Fnv(s[..|s| - 1]), s[|s| - 1])
  }

  lemma FnvStep(s: Str, b: Byte)
    ensures Fnv([]) == 0x811C_9DC5
    ensures Fnv(s + [b]) == Mix(Fnv(s), b)
  {
    hide Mix;
    assert (s + [b])[..|s|] == s;
  }

  /** The sum by exclusive or, multiplied; and multiplying by the inverse modulo 2^32 brings the sum back. */
  ghost predicate Mixed(h: bv32, b: Byte, next: bv32) {
    var product := (h ^ (b as bv32)) * 0x0100_0193;
    next == product && product * 0x359C_449B == h ^ (b as bv32)
  }

  lemma MixMeaning(h: bv32, b: Byte, next: bv32)
    requires next == Mix(h, b)
    ensures Mixed(h, b, next)
  {}

  lemma FnvMixed(s: Str, b: Byte)
    ensures Mixed(Fnv(s), b, Fnv(s + [b]))
  {
    FnvStep(s, b);
    hide Fnv, Mix, Mixed;
    MixMeaning(Fnv(s), b, Fnv(s + [b]));
  }

  /**
    What determines the hash: where it starts, and that each byte is first added to it by exclusive
    or and the sum then multiplied, by a factor that has an inverse.
   */
  lemma FnvMeaning(s: Str, b: Byte)
    ensures Fnv([]) == 0x811C_9DC5
    ensures var product := (Fnv(s) ^ (b as bv32)) * 0x0100_0193;
            Fnv(s + [b]) == product && product * 0x359C_449B == Fnv(s) ^ (b as bv32)
  {
    FnvMixed(s, b);
    hide Mix;
  }

  lemma MixValues()
    ensures Mix(0x811C_9DC5, 0x61) == 0xE40C_292C
    ensures Mix(0x811C_9DC5, 0x66) == 0xE30C_2799
    ensures Mix(0xE30C_2799, 0x6F) == 0x6222_E842
    ensures Mix(0x6222_E842, 0x6F) == 0xA9F3_7ED7
    ensures Mix(0xA9F3_7ED7, 0x62) == 0x3F50_76EF
    ensures Mix(0x3F50_76EF, 0x61) == 0x39AA_A18A
    ensures Mix(0x39AA_A18A, 0x72) == 0xBF9C_F968
  {}

  /** Published values of 32-bit FNV-1a: of "a" and of "foobar". */
  lemma FnvValues()
    ensures Fnv([0x61]) == 0xE40C_292C
    ensures Fnv([0x66, 0x6F, 0x6F, 0x62, 0x61, 0x72]) == 0xBF9C_F968
  {
    MixValues();
    FnvStep([], 0x61);
    FnvStep([], 0x66);
    FnvStep([0x66], 0x6F);
    FnvStep([0x66, 0x6F], 0x6F);
    FnvStep([0x66, 0x6F, 0x6F], 0x62);
    FnvStep([0x66, 0x6F, 0x6F, 0x62], 0x61);
    FnvStep([0x66, 0x6F, 0x6F, 0x62, 0x61], 0x72);
    hide Fnv, Mix;
    assert [] + [0x61 as Byte] == [0x61] && [] + [0x66 as Byte] == [0x66];
    assert [0x66 as Byte] + [0x6F] == [0x66, 0x6F];
    assert [0x66 as Byte, 0x6F] + [0x6F] == [0x66, 0x6F, 0x6F];
    assert [0x66 as Byte, 0x6F, 0x6F] + [0x62] == [0x66, 0x6F, 0x6F, 0x62];
    assert [0x66 as Byte, 0x6F, 0x6F, 0x62] + [0x61] == [0x66, 0x6F, 0x6F, 0x62, 0x61];
    assert [0x66 as Byte, 0x6F, 0x6F, 0x62, 0x61] + [0x72] == [0x66, 0x6F, 0x6F, 0x62, 0x61, 0x72];
  }

  method FastHash(s: Str) returns (h: bv32)
    ensures h == Fnv(s)
    ensures s == [] ==> h == 0x811C_9DC5
    ensures s != [] ==> Mixed(Fnv(s[..|s| - 1]), s[|s| - 1], h)
  {
    hide Mix, Mixed;
    h := 2166136261;
    for i := 0 to |s|
      invariant h == Fnv(s[..i])
    {
      assert s[..i + 1][..i] == s[..i];
      h := Mix(h, s[i]);
    }
    assert s[..|s|] == s;
    if s != [] {
      LastByte(s);
    }
  }

  lemma LastByte(s: Str)
    requires s != []
    ensures Mixed(Fnv(s[..|s| - 1]), s[|s| - 1], Fnv(s))
  {
    FnvMixed(s[..|s| - 1], s[|s| - 1]);
    hide Fnv, Mixed;
    assert s == s[..|s| - 1] + [s[|s| - 1]];
  }

  /** uint32(shardCount - 1) */
  function ShardMask(count: bv64): bv32 {
    ((count - 1) & 0xFFFF_FFFF) as bv32
  }

  /** hash & shardMask */
  function ShardIndex(h: bv32, count: bv64): bv64 {
    (h & ShardMask(count)) as bv64
  }

  /** The shard of a key among `count` shards. */
  function ShardOf(count: bv64, key: Str): nat {
    ToNat(ShardIndex(Fnv(key), count))
  }

  function Wide(h: bv32): bv64 {
    h as bv64
  }

  /** Cutting the mask off to 32 bits makes no difference to a hash of 32 bits. */
  lemma Widen(h: bv32, count: bv64)
    ensures ShardIndex(h, count) == Masked(Wide(h), count)
  {}

  /** hash & (shardCount - 1), for every count. */
  lemma ShardIsMasked(count: bv64, key: Str)
    ensures ShardOf(count, key) == ToNat((Fnv(key) as bv64) & (count - 1))
  {
    Widen(Fnv(key), count);
    hide ShardIndex, ToNat, Fnv;
  }

  /** The index is always that of a shard, even if the count is not a power of two. */
  lemma ShardInRange(count: bv64, key: Str)
    requires count != 0
    ensures ShardOf(count, key) < ToNat(count)
  {
    hide ShardIndex, ToNat, Fnv, Wide, Masked;
    Widen(Fnv(key), count);
    MaskedInRange(Wide(Fnv(key)), count);
  }

  /** For a power of two the shard is the hash modulo the count. */
  lemma ShardIsHashModulo(count: bv64, key: Str)
    requires IsPowerOfTwo(count)
    ensures 0 < ToNat(count)
    ensures ShardOf(count, key) == ToNat(Wide(Fnv(key))) % ToNat(count)
  {
    hide ShardIndex, ToNat, Fnv, Wide, Masked, IsPowerOfTwo;
    Widen(Fnv(key), count);
    MaskedIsModulo(Wide(Fnv(key)), count);
  }
}
