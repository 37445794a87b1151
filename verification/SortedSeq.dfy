/** Sorted sequences of numbers: what sort.Ints and sort.SearchInts of Go's standard library are used for. */
module SortedSeq {

  ghost predicate Sorted(s: seq<int>) {
    forall i, j :: 0 <= i < j < |s| ==> s[i] <= s[j]
  }

  function Insert(x: int, s: seq<int>): (r: seq<int>)
    ensures multiset(r) == multiset(s) + multiset{x}
    ensures Sorted(s) ==> Sorted(r)
  {
    if s == [] || x <= s[0] then [x] + s
    else
      assert s == [s[0]] + s[1..];
      var r := [s[0]] + Insert(x, s[1..]);
      InsertSorted(x, s, r);
      r
  }

  lemma InsertSorted(x: int, s: seq<int>, r: seq<int>)
    requires s != [] && s[0] < x && |r| > 0 && r[0] == s[0]
    requires multiset(r[1..]) == multiset(s[1..]) + multiset{x}
    requires Sorted(s[1..]) ==> Sorted(r[1..])
    ensures Sorted(s) ==> Sorted(r)
  {
    if Sorted(s) {
      forall k | 0 < k < |r| ensures r[0] <= r[k] {
        assert r[1..][k - 1] in multiset(r[1..]);
        assert r[k] in multiset(s[1..]) || r[k] == x;
        if r[k] in multiset(s[1..]) {
          var i :| 0 <= i < |s[1..]| && s[1..][i] == r[k];
          assert s[i + 1] == r[k];
        }
      }
      forall i, j | 0 <= i < j < |r| ensures r[i] <= r[j] {
        if i > 0 {
          assert r[1..][i - 1] <= r[1..][j - 1];
        }
      }
    }
  }

  function Sort(s: seq<int>): (r: seq<int>)
    ensures multiset(r) == multiset(s) && Sorted(r)
  {
    if s == [] then []
    else
      assert s == [s[0]] + s[1..];
      Insert(s[0], Sort(s[1..]))
  }

  /** There is only one way to sort. */
  lemma {:induction false} SortedUnique(a: seq<int>, b: seq<int>)
    requires Sorted(a) && Sorted(b) && multiset(a) == multiset(b)
    ensures a == b
  {
    SameLength(a, b);
    if a != [] {
      SameHead(a, b);
      assert a == [a[0]] + a[1..] && b == [b[0]] + b[1..];
      assert multiset(a[1..]) == multiset(a) - multiset{a[0]};
      assert multiset(b[1..]) == multiset(b) - multiset{b[0]};
      SortedUnique(a[1..], b[1..]);
    }
  }

  lemma SameLength(a: seq<int>, b: seq<int>)
    requires multiset(a) == multiset(b)
    ensures |a| == |b|
  {
    assert |multiset(a)| == |a| && |multiset(b)| == |b|;
  }

  lemma SameHead(a: seq<int>, b: seq<int>)
    requires Sorted(a) && Sorted(b) && multiset(a) == multiset(b) && a != [] && b != []
    ensures a[0] == b[0]
  {
    assert a[0] in multiset(b) && b[0] in multiset(a);
    var i :| 0 <= i < |b| && b[i] == a[0];
    var j :| 0 <= j < |a| && a[j] == b[0];
  }

  /** The first index whose element is at least `x`, or the length: what sort.Search looks for. */
  function Search(s: seq<int>, x: int): (i: nat)
    ensures i <= |s|
    ensures forall j :: 0 <= j < i ==> s[j] < x
    ensures i < |s| ==> s[i] >= x
  {
    if s == [] || s[0] >= x then 0 else 1 + Search(s[1..], x)
  }

  /** sort.Search by bisection, as the standard library does it. */
  method BinarySearch(s: seq<int>, x: int) returns (i: nat)
    requires Sorted(s)
    ensures i == Search(s, x)
  {
    var lo, hi := 0, |s|;
    while lo < hi
      invariant lo <= Search(s, x) <= hi <= |s|
      invariant hi < |s| ==> s[hi] >= x
    {
      var mid := lo + (hi - lo) / 2;
      if s[mid] < x {
        lo := mid + 1;
      } else {
        hi := mid;
      }
    }
    i := lo;
  }

  lemma SearchFinds(s: seq<int>, x: int)
    requires Sorted(s)
    ensures x in s <==> Search(s, x) < |s| && s[Search(s, x)] == x
  {
    if x in s {
      var k :| 0 <= k < |s| && s[k] == x;
    }
  }

  function RemoveAt(s: seq<int>, i: nat): seq<int>
    requires i < |s|
  {
    s[..i] + s[i + 1..]
  }

  lemma RemoveAtMeaning(s: seq<int>, i: nat)
    requires i < |s|
    ensures multiset(RemoveAt(s, i)) == multiset(s) - multiset{s[i]}
    ensures Sorted(s) ==> Sorted(RemoveAt(s, i))
  {
    if Sorted(s) {
      RemoveAtSorted(s, i);
    }
    hide Sorted;
    SplitAt(s, i);
  }

  lemma RemoveAtSorted(s: seq<int>, i: nat)
    requires i < |s| && Sorted(s)
    ensures Sorted(RemoveAt(s, i))
  {}

  lemma SplitAt(s: seq<int>, i: nat)
    requires i < |s|
    ensures s == s[..i] + [s[i]] + s[i + 1..]
  {}

  // ---- copies of a number ------------------------------------------------------------------

  function Count(s: seq<int>, p: int): nat {
    multiset(s)[p]
  }

  lemma CountMeaning(s: seq<int>, p: int)
    ensures p in s <==> Count(s, p) > 0
  {
    assert p in s <==> p in multiset(s);
  }

  lemma CountConcat(a: seq<int>, b: seq<int>, p: int)
    ensures Count(a + b, p) == Count(a, p) + Count(b, p)
  {
    assert multiset(a + b) == multiset(a) + multiset(b);
  }

  lemma CountAppend(s: seq<int>, x: int, p: int)
    ensures Count(s + [x], p) == Count(s, p) + if x == p then 1 else 0
  {
    CountConcat(s, [x], p);
  }

  lemma CountSorted(s: seq<int>, p: int)
    ensures Count(Sort(s), p) == Count(s, p)
  {}

  lemma SameCounts(a: seq<int>, b: seq<int>)
    requires forall p :: Count(a, p) == Count(b, p)
    ensures multiset(a) == multiset(b)
  {
    forall p ensures multiset(a)[p] == multiset(b)[p] {
      assert Count(a, p) == Count(b, p);
    }
  }
}
