/**
 * The pieces that every sieve over a jagged boolean array shares
 * (SieveTemplate<bool> of include/BaseSieve.hpp): cells and their values, the
 * cofactor bound isqrt(maxNorm / N(g)), the points of a column, the cells that
 * survived a scan, and the notion of a composite Gaussian integer.
 */
module SieveGrid {
  import opened GaussianInt
  import opened BaseSieve

  lemma DivMulLe(k: nat, n: nat, m: nat)
    requires n > 0 && k * n <= m
    ensures k <= Quot(m, n)
  {
    DivFacts(m, n);
    if k > Quot(m, n) {
      MulLe(n, Quot(m, n) + 1, k);
    }
  }

  lemma SquareLe(x: nat, y: nat)
    requires x <= y
    ensures x * x <= y * y
  {
    if x < y { SquareMonotone(x, y); }
  }

  /** The last column c of cofactors c + di that are swept: isqrt(maxNorm / N(g)). */
  ghost function CUpper(m: nat, n: nat): nat
    requires n > 0
  {
    IntSqrt(Quot(m, n))
  }

  lemma ProductUpper(g: Gint, h: Gint)
    requires g.a >= 0 && g.b >= 0 && h.a >= 0 && h.b >= 0
    ensures Mul(g, h).b >= 0
  {
    MulLe(g.b, 0, h.a);
    MulLe(g.a, 0, h.b);
  }

  lemma ScaleBound(m: nat, n: nat, k: nat)
    requires n > 0 && k <= Quot(m, n)
    ensures n * k <= m
  {
    DivFacts(m, n);
    MulLe(n, k, Quot(m, n));
  }

  /** The incremental update of u + vi from d to d + 1. */
  lemma MulStepD(g: Gint, c: int, d: int)
    ensures Mul(g, Gint(c, 0)) == Gint(c * g.a, c * g.b)
    ensures Mul(g, Gint(c, d + 1)) == Gint(Mul(g, Gint(c, d)).a - g.b, Mul(g, Gint(c, d)).b + g.a)
  {
  }

  /** g can be swept in an array for maxNorm m: a first-quadrant non-zero point with a cell. */
  ghost predicate Sweepable(m: nat, g: Gint)
  {
    g.a >= 0 && g.b >= 0 && 0 < Norm(g) <= m
  }

  /** r names a cell of the array. */
  ghost predicate Cell(grid: seq<seq<bool>>, r: Gint)
  {
    0 <= r.a < |grid| && 0 <= r.b < |grid[r.a]|
  }

  /** r names a cell of the array and that cell is true. */
  ghost predicate IsSet(grid: seq<seq<bool>>, r: Gint)
  {
    Cell(grid, r) && grid[r.a][r.b]
  }

  lemma NonUnitCofactor(h: Gint)
    requires 1 <= h.a && 0 <= h.b && h != Gint(1, 0)
    ensures Norm(h) >= 2
  {
    if h.a >= 2 {
      SquareLe(2, h.a);
    }
    SquareNonneg(h.b);
  }

  lemma SieveWithTail(m: nat, ps: seq<Gint>)
    requires forall k :: 0 <= k < |ps| ==> Sweepable(m, ps[k])
    requires ps != []
    ensures forall k :: 0 <= k < |ps| - 1 ==> Sweepable(m, ps[1..][k])
  {
    assert forall k :: 0 <= k < |ps| - 1 ==> ps[1..][k] == ps[k + 1];
  }

  /** r is, up to units and conjugation, a product of two non-units: not a Gaussian prime. */
  ghost predicate Composite(r: Gint)
  {
    exists g, h :: Norm(g) >= 2 && Norm(h) >= 2 && SameClass(r, Mul(g, h))
  }

  /** The norm of a composite point is a product of two norms of at least 2. */
  lemma CompositeNorm(r: Gint) returns (s: nat, t: nat)
    requires Composite(r)
    ensures s >= 2 && t >= 2 && Norm(r) == s * t
  {
    var g, h :| Norm(g) >= 2 && Norm(h) >= 2 && SameClass(r, Mul(g, h));
    SameClassNorm(r, Mul(g, h));
    MulNorm(g, h);
    s, t := Norm(g), Norm(h);
  }

  /** A point of norm 2 or 5 is a Gaussian prime: neither is a product of two integers of at least 2. */
  lemma NormTwoFivePrime(r: Gint)
    requires Norm(r) == 2 || Norm(r) == 5
    ensures !Composite(r)
  {
    if Composite(r) {
      var s, t := CompositeNorm(r);
      MulLe(s, 2, t);
      if s >= 3 {
        MulLe(2, 3, s);
      }
    }
  }

  /** The points a + bi for b = 0 .. top. */
  function Column(a: nat, top: int): (r: seq<Gint>)
    ensures |r| == if top < 0 then 0 else top + 1
    ensures forall k :: 0 <= k < |r| ==> r[k] == Gint(a, k)
  {
    if top < 0 then [] else seq(top + 1, b => Gint(a, b))
  }

  /** The scanned points whose cells survived. */
  ghost function Survivors(grid: seq<seq<bool>>, s: seq<Gint>): seq<Gint>
  {
    if s == [] then []
    else (if IsSet(grid, s[0]) then [s[0]] else []) + Survivors(grid, s[1..])
  }

  lemma {:induction false} SurvivorsMembers(grid: seq<seq<bool>>, s: seq<Gint>, g: Gint)
    ensures g in Survivors(grid, s) <==> g in s && IsSet(grid, g)
  {
    if s != [] {
      SurvivorsMembers(grid, s[1..], g);
      assert s == [s[0]] + s[1..];
    }
  }

  lemma {:induction false} SurvivorsAppend(grid: seq<seq<bool>>, s: seq<Gint>, x: Gint)
    ensures Survivors(grid, s + [x]) == Survivors(grid, s) + (if IsSet(grid, x) then [x] else [])
  {
    if s != [] {
      assert (s + [x])[1..] == s[1..] + [x];
      SurvivorsAppend(grid, s[1..], x);
    }
  }

  lemma IntSqrtBelow(m: nat)
    ensures IntSqrt(m) <= m
  {
    var r := IntSqrt(m);
    if r >= 1 {
      MulLe(r, 1, r);
    }
  }

  lemma {:induction false} SurvivorsConcat(grid: seq<seq<bool>>, s: seq<Gint>, t: seq<Gint>)
    ensures Survivors(grid, s + t) == Survivors(grid, s) + Survivors(grid, t)
  {
    if s != [] {
      assert (s + t)[1..] == s[1..] + t;
      SurvivorsConcat(grid, s[1..], t);
    } else {
      assert s + t == t;
    }
  }

  /** Keeping the survivors of a list without repeats leaves a list without repeats. */
  lemma {:induction false} SurvivorsDistinct(grid: seq<seq<bool>>, s: seq<Gint>)
    requires Distinct(s)
    ensures Distinct(Survivors(grid, s))
  {
    if s != [] {
      DistinctTail(s);
      SurvivorsDistinct(grid, s[1..]);
      SurvivorsMembers(grid, s[1..], s[0]);
      DistinctConcat(if IsSet(grid, s[0]) then [s[0]] else [], Survivors(grid, s[1..]));
    }
  }

  lemma ColumnStep(a: nat, b: nat)
    ensures Column(a, b) == Column(a, b - 1) + [Gint(a, b)]
  {
  }

  lemma ScanAccumulate(seen: seq<Gint>, column: seq<Gint>, rest: seq<Gint>)
    ensures (seen + column) + rest == seen + (column + rest)
  {
  }

}
