/** The labels of virtual nodes, strconv.Itoa(i) + ":" + key, name node and number without ambiguity. */
module Labels {
  import opened Prelude

  const COLON: Byte := 0x3A

  function Digit(d: nat): (b: Byte)
    requires d < 10
    ensures b != COLON
  {
    match d
    case 0 => 0x30
    case 1 => 0x31
    case 2 => 0x32
    case 3 => 0x33
    case 4 => 0x34
    case 5 => 0x35
    case 6 => 0x36
    case 7 => 0x37
    case 8 => 0x38
    case _ => 0x39
  }

  lemma DigitInjective(c: nat, d: nat)
    requires c < 10 && d < 10 && Digit(c) == Digit(d)
    ensures c == d
  {}

  /** strconv.Itoa of a number that is not negative. */
  function Itoa(n: nat): (s: Str)
    ensures s != []
  {
    if n < 10 then [Digit(n)] else Itoa(n / 10) + [Digit(n % 10)]
  }

  lemma {:induction false} NoColon(n: nat)
    ensures forall i :: 0 <= i < |Itoa(n)| ==> Itoa(n)[i] != COLON
  {
    if n >= 10 {
      NoColon(n / 10);
    }
  }

  lemma {:induction false} ItoaInjective(m: nat, n: nat)
    requires Itoa(m) == Itoa(n)
    ensures m == n
  {
    var a, b := Itoa(m), Itoa(n);
    assert a[|a| - 1] == b[|b| - 1];
    if m < 10 && n < 10 {
      DigitInjective(m, n);
    } else {
      assert m >= 10 && n >= 10;
      assert Itoa(m / 10) == a[..|a| - 1] == b[..|b| - 1] == Itoa(n / 10);
      ItoaInjective(m / 10, n / 10);
      DigitInjective(m % 10, n % 10);
    }
  }

  function Label(i: nat, key: Str): Str {
    Itoa(i) + [COLON] + key
  }

  /** The number that decimal digits write, read from left to right. */
  function Decimal(s: Str): int {
    if s == [] then 0 else 10 * Decimal(s[..|s| - 1]) + (s[|s| - 1] as int - 0x30)
  }

  lemma DigitMeaning(d: nat)
    requires d < 10
    ensures Digit(d) as int == 0x30 + d
  {}

  lemma {:induction false} ItoaMeaning(n: nat)
    ensures forall j :: 0 <= j < |Itoa(n)| ==> 0x30 <= Itoa(n)[j] as int <= 0x39
    ensures |Itoa(n)| > 1 ==> Itoa(n)[0] != 0x30
    ensures Decimal(Itoa(n)) == n
    ensures n > 0 ==> Itoa(n)[0] != 0x30
  {
    DigitMeaning(n % 10);
    if n >= 10 {
      ItoaMeaning(n / 10);
      assert Itoa(n)[..|Itoa(n)| - 1] == Itoa(n / 10);
    } else {
      assert Itoa(n)[..0] == [];
    }
  }

  /** A label reads back: digits without a leading zero that write the number, a colon, the name. */
  lemma LabelMeaning(i: nat, key: Str) returns (c: nat)
    ensures var s := Label(i, key);
            && 0 < c < |s| && s[c] == 0x3A
            && (forall j :: 0 <= j < c ==> 0x30 <= s[j] as int <= 0x39)
            && (c > 1 ==> s[0] != 0x30)
            && Decimal(s[..c]) == i
            && s[c + 1..] == key
  {
    ItoaMeaning(i);
    c := |Itoa(i)|;
    assert Label(i, key)[..c] == Itoa(i);
  }

  lemma LabelInjective(i: nat, a: Str, j: nat, b: Str)
    requires Label(i, a) == Label(j, b)
    ensures i == j && a == b
  {
    var x, y, s := Itoa(i), Itoa(j), Label(i, a);
    NoColon(i);
    NoColon(j);
    assert s[|x|] == COLON && s[|y|] == COLON;
    assert forall k :: 0 <= k < |x| ==> s[k] == x[k] != COLON;
    assert forall k :: 0 <= k < |y| ==> s[k] == y[k] != COLON;
    assert |x| == |y|;
    assert x == s[..|x|] && y == s[..|y|];
    assert a == s[|x| + 1..] && b == s[|y| + 1..];
    ItoaInjective(i, j);
  }
}
