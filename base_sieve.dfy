/**
 * The shared sieve machinery of src/BaseSieve.cpp: the integer square root that
 * every loop bound is computed with, the non-negative remainder `mod`, and the
 * sorting of harvested primes by the Gaussian-integer order.
 */
module BaseSieve {
  import opened GaussianInt

  /** A value or nothing: a constructor whose argument check failed, or a search that ran out. */
  datatype Option<T> = None | Some(value: T)

  /** Some r has r^2 <= n < (r + 1)^2. */
  lemma {:induction false} SqrtExists(n: nat)
    ensures exists r: nat :: r * r <= n < (r + 1) * (r + 1)
  {
    if n > 0 {
      SqrtExists(n - 1);
      var r: nat :| r * r <= n - 1 < (r + 1) * (r + 1);
      if (r + 1) * (r + 1) <= n {
        assert (r + 1) * (r + 1) <= n < (r + 2) * (r + 2);
      } else {
        assert r * r <= n < (r + 1) * (r + 1);
      }
    } else {
      assert 0 * 0 <= n < 1 * 1;
    }
  }

  /** The integer square root: the r with r^2 <= n < (r + 1)^2. */
  ghost function IntSqrt(n: nat): (r: nat)
    ensures r * r <= n < (r + 1) * (r + 1)
  {
    SqrtExists(n);
    var r: nat :| r * r <= n < (r + 1) * (r + 1);
    r
  }

  /** Any r whose square brackets n is the integer square root. */
  lemma {:induction false} IntSqrtUnique(n: nat, r: nat)
    requires r * r <= n < (r + 1) * (r + 1)
    ensures r == IntSqrt(n)
  {
    var s := IntSqrt(n);
    if r + 1 < s {
      SquareMonotone(r + 1, s);
    } else if s + 1 < r {
      SquareMonotone(s + 1, r);
    }
  }

  /** IntSqrt(n) is the largest r with r^2 <= n. */
  lemma IntSqrtGreatest(n: nat, r: nat)
    requires r * r <= n
    ensures r <= IntSqrt(n)
  {
    var s := IntSqrt(n);
    if s < r {
      if s + 1 < r { SquareMonotone(s + 1, r); }
      assert false;
    }
  }

  /** IntSqrt is monotone. */
  lemma IntSqrtMonotone(m: nat, n: nat)
    requires m <= n
    ensures IntSqrt(m) <= IntSqrt(n)
  {
    IntSqrtGreatest(n, IntSqrt(m));
  }

  lemma DivFacts(n: nat, x: nat)
    requires x > 0
    ensures (n / x) * x > n - x && (n / x) * x <= n
  {
    var q, r := n / x, n % x;
    assert n == x * q + r;
  }

  lemma DivNonneg(n: nat, x: nat)
    requires x > 0
    ensures n / x >= 0
  {
    var q := n / x;
    DivFacts(n, x);
    if q < 0 {
      MulLe(x, q, -1);
      assert false;
    }
  }

  /** n / x for a positive divisor, as a natural number. */
  function Quot(n: nat, x: nat): nat
    requires x > 0
  {
    DivNonneg(n, x);
    n / x
  }

  lemma TangentBound(s: int, x: int)
    ensures (2 * s - 1 - x) * x == s * s - (s - x) * (s - x) - x
  {
  }

  lemma ArithAbove(n: int, x: int, q: int, s: int)
    requires x > 0 && s * s <= n && q * x > n - x
    ensures x + q >= 2 * s
  {
    if x + q < 2 * s {
      var t := 2 * s - 1 - x;
      MulLe(x, q, t);
      assert x * q == q * x;
      TangentBound(s, x);
      SquareNonneg(s - x);
    }
  }

  lemma ArithBelow(n: int, x: int, q: int, s: int)
    requires 0 <= s < x && n < (s + 1) * (s + 1) && q * x <= n
    ensures q < x
  {
    if s + 1 < x {
      SquareMonotone(s + 1, x);
    }
    if q >= x {
      MulLe(x, x, q);
    }
  }

  /** The Newton step (x + n / x) / 2 never drops below the root. */
  lemma NewtonStepAbove(n: nat, x: nat)
    requires x > 0
    ensures (x + n / x) / 2 >= IntSqrt(n)
  {
    DivFacts(n, x);
    ArithAbove(n, x, n / x, IntSqrt(n));
  }

  /** Above the root the Newton step strictly decreases x. */
  lemma NewtonStepDecreases(n: nat, x: nat)
    requires x > IntSqrt(n)
    ensures (x + n / x) / 2 < x
  {
    DivFacts(n, x);
    ArithBelow(n, x, n / x, IntSqrt(n));
  }

  /**
   * isqrt (src/BaseSieve.cpp:213-222): Newton's iteration from x = n. The loop ends
   * because x strictly decreases while y < x, and it ends at the integer square root.
   */
  method Isqrt(n: nat) returns (r: nat)
    ensures r * r <= n < (r + 1) * (r + 1)
    ensures r == IntSqrt(n)
  {
    ghost var s: int := IntSqrt(n);
    if n > 0 {
      SquareNonneg(s - 1);
      assert (s - 1) * (s - 1) == s * s - 2 * s + 1;
    }
    var x: nat := n;
    var y: nat := (x + 1) / 2;
    while y < x
      invariant x >= s && y >= s
      invariant n > 0 ==> x > 0 && y == (x + n / x) / 2
      decreases x
    {
      x := y;
      NewtonStepAbove(n, x);
      y := (x + n / x) / 2;
    }
    if x > s {
      NewtonStepDecreases(n, x);
    }
    r := x;
    IntSqrtUnique(n, r);
  }

  /**
   * mod(int64_t, uint32_t) (include/BaseSieve.hpp:86): the remainder of a modulo m
   * taken in [0, m), also for negative a.
   */
  function Mod(a: int, m: nat): (r: nat)
    requires m > 0
    ensures r < m && (a - r) % m == 0
  {
    DivExact(m, a / m);
    a % m
  }

  /** Sorted by the gint order: no element comes after a later one. */
  predicate Sorted(s: seq<Gint>)
  {
    forall i, j :: 0 <= i < j < |s| ==> LessEq(s[i], s[j])
  }

  /**
   * sortBigPrimes (src/BaseSieve.cpp:58-62): std::sort with gint <, written as an
   * insertion sort; the result is sorted and a permutation of the input.
   */
  method SortGints(s: seq<Gint>) returns (r: seq<Gint>)
    ensures Sorted(r) && multiset(r) == multiset(s)
  {
    r := [];
    var i := 0;
    while i < |s|
      invariant 0 <= i <= |s|
      invariant Sorted(r) && multiset(r) == multiset(s[..i])
    {
      var x := s[i];
      var k := |r|;
      while k > 0 && Less(x, r[k - 1])
        invariant 0 <= k <= |r|
        invariant forall m :: k <= m < |r| ==> Less(x, r[m])
      {
        k := k - 1;
      }
      InsertSorted(r, k, x);
      assert r == r[..k] + r[k..];
      r := r[..k] + [x] + r[k..];
      assert s[..i + 1] == s[..i] + [x];
      i := i + 1;
    }
    assert s[..i] == s;
  }

  lemma InsertSorted(r: seq<Gint>, k: nat, x: Gint)
    requires Sorted(r) && k <= |r|
    requires k > 0 ==> !Less(x, r[k - 1])
    requires forall m :: k <= m < |r| ==> Less(x, r[m])
    ensures Sorted(r[..k] + [x] + r[k..])
  {
    var t := r[..k] + [x] + r[k..];
    forall i, j | 0 <= i < j < |t|
      ensures LessEq(t[i], t[j])
    {
      if j < k {
        assert t[i] == r[i] && t[j] == r[j];
      } else if j == k {
        assert t[i] == r[i];
        LessEqTotalPreorder(r[i], r[k - 1], x);
      } else if i == k {
        assert t[j] == r[j - 1];
        LessEqTotalPreorder(x, r[j - 1], x);
      } else if i < k {
        assert t[i] == r[i] && t[j] == r[j - 1];
      } else {
        assert t[i] == r[i - 1] && t[j] == r[j - 1];
      }
    }
  }

  /** The first element of a sorted list is not after any element of it. */
  lemma SortedFirstLeast(s: seq<Gint>, y: Gint)
    requires Sorted(s) && y in s
    ensures LessEq(s[0], y)
  {
    var j :| 0 <= j < |s| && s[j] == y;
    if j > 0 {
      assert LessEq(s[0], s[j]);
    }
  }

  lemma SortedTail(s: seq<Gint>)
    requires Sorted(s) && |s| > 0
    ensures Sorted(s[1..])
  {
    forall i, j | 0 <= i < j < |s| - 1
      ensures LessEq(s[1..][i], s[1..][j])
    {
      assert s[1..][i] == s[i + 1] && s[1..][j] == s[j + 1];
    }
  }

  lemma SortedHeads(s: seq<Gint>, t: seq<Gint>)
    requires Sorted(s) && Sorted(t) && multiset(s) == multiset(t) && |s| > 0
    requires forall k :: 0 <= k < |s| ==> s[k].b >= 0
    ensures |t| > 0 && s[0] == t[0]
  {
    assert s[0] in multiset(t);
    assert t[0] in multiset(s);
    SortedFirstLeast(t, s[0]);
    SortedFirstLeast(s, t[0]);
    var j :| 0 <= j < |s| && s[j] == t[0];
    LessIsStrictTotalOrder(s[0], s[j], s[0]);
  }

  /** Two sorted lists of upper-half-plane gints with the same elements are equal: the sorted output is unique. */
  lemma {:induction false} SortedUnique(s: seq<Gint>, t: seq<Gint>)
    requires Sorted(s) && Sorted(t) && multiset(s) == multiset(t)
    requires forall k :: 0 <= k < |s| ==> s[k].b >= 0
    ensures s == t
  {
    if |s| == 0 {
      assert |t| == |multiset(t)| == 0;
    } else {
      SortedHeads(s, t);
      SortedTail(s);
      SortedTail(t);
      MultisetTail(s, t);
      forall k | 0 <= k < |s[1..]|
        ensures s[1..][k].b >= 0
      {
        assert s[1..][k] == s[k + 1];
      }
      SortedUnique(s[1..], t[1..]);
      assert s == [s[0]] + s[1..] && t == [t[0]] + t[1..];
    }
  }

  /** No point occurs twice. */
  predicate Distinct(s: seq<Gint>)
  {
    forall i, j :: 0 <= i < j < |s| ==> s[i] != s[j]
  }

  /** Two lists without repeats and without a common point concatenate to a list without repeats. */
  lemma DistinctConcat(s: seq<Gint>, t: seq<Gint>)
    requires Distinct(s) && Distinct(t) && forall x :: x in s ==> x !in t
    ensures Distinct(s + t)
  {
    var st := s + t;
    forall i, j | 0 <= i < j < |st|
      ensures st[i] != st[j]
    {
      if i < |s| && j >= |s| {
        assert st[i] in s && st[j] == t[j - |s|];
      } else if i >= |s| {
        assert st[i] == t[i - |s|] && st[j] == t[j - |s|];
      }
    }
  }

  /** The tail of a list without repeats has none either, and does not hold the head. */
  lemma DistinctTail(s: seq<Gint>)
    requires Distinct(s) && s != []
    ensures Distinct(s[1..]) && s[0] !in s[1..]
  {
    var rest := s[1..];
    forall i, j | 0 <= i < j < |rest|
      ensures rest[i] != rest[j]
    {
      assert rest[i] == s[i + 1] && rest[j] == s[j + 1];
    }
  }

  /** In a list without repeats every point occurs once or not at all. */
  lemma {:induction false} DistinctCount(s: seq<Gint>, x: Gint)
    requires Distinct(s)
    ensures multiset(s)[x] == if x in s then 1 else 0
  {
    if s != [] {
      var rest := s[1..];
      assert s == [s[0]] + rest;
      DistinctTail(s);
      DistinctCount(rest, x);
    }
  }

  /** Two lists without repeats that hold the same points are permutations of each other. */
  lemma DistinctSameMembers(s: seq<Gint>, t: seq<Gint>)
    requires Distinct(s) && Distinct(t) && forall x :: x in s <==> x in t
    ensures multiset(s) == multiset(t)
  {
    forall x
      ensures multiset(s)[x] == multiset(t)[x]
    {
      DistinctCount(s, x);
      DistinctCount(t, x);
    }
  }

  lemma MultisetTail(s: seq<Gint>, t: seq<Gint>)
    requires multiset(s) == multiset(t) && |s| > 0 && |t| > 0 && s[0] == t[0]
    ensures multiset(s[1..]) == multiset(t[1..])
  {
    assert s == [s[0]] + s[1..] && t == [t[0]] + t[1..];
    assert multiset(s) == multiset{s[0]} + multiset(s[1..]);
    assert multiset(t) == multiset{s[0]} + multiset(t[1..]);
    assert multiset(s[1..]) == multiset(s) - multiset{s[0]};
    assert multiset(t[1..]) == multiset(t) - multiset{s[0]};
  }

  /** Inserts x before the first element it is Less than (after any it ties with). */
  function Insert(x: Gint, s: seq<Gint>): (r: seq<Gint>)
    ensures multiset(r) == multiset(s) + multiset{x}
  {
    if s == [] then [x]
    else if Less(x, s[0]) then [x] + s
    else
      assert s == [s[0]] + s[1..];
      [s[0]] + Insert(x, s[1..])
  }

  /** The sorted order of s, as insertion sort builds it: the reference for every sorted prime list. */
  function SortedOf(s: seq<Gint>): (r: seq<Gint>)
    ensures multiset(r) == multiset(s)
  {
    if s == [] then []
    else
      assert s == s[..|s| - 1] + [s[|s| - 1]];
      Insert(s[|s| - 1], SortedOf(s[..|s| - 1]))
  }

  lemma {:induction false} InsertKeepsSorted(x: Gint, s: seq<Gint>)
    requires Sorted(s)
    ensures Sorted(Insert(x, s))
  {
    if s != [] && !Less(x, s[0]) {
      SortedTail(s);
      InsertKeepsSorted(x, s[1..]);
      var t := Insert(x, s[1..]);
      var r := [s[0]] + t;
      forall i, j | 0 <= i < j < |r|
        ensures LessEq(r[i], r[j])
      {
        if i == 0 {
          assert r[j] in multiset(t);
          assert r[j] == x || r[j] in multiset(s[1..]);
          if r[j] != x {
            var k :| 0 <= k < |s[1..]| && s[1..][k] == r[j];
            assert s[k + 1] == r[j];
          } else {
            LessEqTotalPreorder(x, s[0], x);
          }
        }
      }
    }
    if s != [] && Less(x, s[0]) {
      var r := [x] + s;
      forall i, j | 0 <= i < j < |r|
        ensures LessEq(r[i], r[j])
      {
        if i == 0 {
          LessEqTotalPreorder(x, s[0], s[j - 1]);
          LessEqTotalPreorder(s[0], x, x);
        }
      }
    }
  }

  /** SortedOf sorts. */
  lemma {:induction false} SortedOfSorted(s: seq<Gint>)
    ensures Sorted(SortedOf(s))
  {
    if s != [] {
      SortedOfSorted(s[..|s| - 1]);
      InsertKeepsSorted(s[|s| - 1], SortedOf(s[..|s| - 1]));
    }
  }

  /** Any sorted permutation of upper-half-plane gints is SortedOf the input. */
  lemma SortedIsSortedOf(s: seq<Gint>, r: seq<Gint>)
    requires Sorted(r) && multiset(r) == multiset(s)
    requires forall k :: 0 <= k < |s| ==> s[k].b >= 0
    ensures r == SortedOf(s)
  {
    SortedOfSorted(s);
    forall k | 0 <= k < |r|
      ensures r[k].b >= 0
    {
      assert r[k] in multiset(s);
    }
    SortedUnique(r, SortedOf(s));
  }
}
