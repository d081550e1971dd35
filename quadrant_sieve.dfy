/**
 * The quadrant sieve of src/QuadrantSieve.cpp. Its array holds one cell per
 * Gaussian integer a + bi with a, b >= 0 and a^2 + b^2 <= maxNorm; every multiple
 * of a small prime that lands in the second quadrant is brought back to the first
 * by the unit -i, and its cell is cleared.
 */
module QuadrantSieve {
  import opened GaussianInt
  import opened BaseSieve
  import opened SieveGrid
  import opened Factorization

  // ---------------------------------------------------------------------------
  // Geometry of the array

  /** The height of column a, isqrt(x - a^2) + 1 (src/QuadrantSieve.cpp:28-32). */
  ghost function Height(m: nat, a: nat): nat
  {
    if a * a <= m then IntSqrt(m - a * a) + 1 else 0
  }

  /** A first-quadrant point has a cell exactly when its norm is at most m. */
  lemma {:induction false} ShapeExact(m: nat, i: nat, j: nat)
    ensures (i <= IntSqrt(m) && j < Height(m, i)) <==> i * i + j * j <= m
  {
    SquareNonneg(j);
    if i <= IntSqrt(m) && j < Height(m, i) {
      SquareLe(i, IntSqrt(m));
      SquareLe(j, IntSqrt(m - i * i));
    }
    if i * i + j * j <= m {
      IntSqrtGreatest(m, i);
      IntSqrtGreatest(m - i * i, j);
    }
  }

  /** The cells that setSieveArray sets false: 0, 1 and i. */
  predicate Excluded(a: int, b: int)
  {
    (a <= 1 && b == 0) || (a == 0 && b == 1)
  }

  /** The array as setSieveArray leaves it: the cells of 0, 1 and i false, all others true. */
  ghost function InitialGrid(m: nat): (grid: seq<seq<bool>>)
    ensures |grid| == IntSqrt(m) + 1
    ensures forall a :: 0 <= a < |grid| ==> |grid[a]| == Height(m, a)
  {
    seq(IntSqrt(m) + 1, a requires 0 <= a => seq(Height(m, a), b => !Excluded(a, b)))
  }

  /** The array has the allocated shape for maxNorm m. */
  ghost predicate Shaped(m: nat, grid: seq<seq<bool>>)
  {
    |grid| == IntSqrt(m) + 1 && forall a :: 0 <= a < |grid| ==> |grid[a]| == Height(m, a)
  }

  /** A first-quadrant point of norm at most m has a cell in a shaped array. */
  lemma CellInGrid(m: nat, grid: seq<seq<bool>>, r: Gint)
    requires Shaped(m, grid) && r.a >= 0 && r.b >= 0 && Norm(r) <= m
    ensures r.a < |grid| && r.b < |grid[r.a]|
  {
    ShapeExact(m, r.a, r.b);
  }

  /** After allocation the cells are the first-quadrant points of norm at most m; all but 0, 1 and i are true. */
  lemma {:induction false} InitialGridCells(m: nat, r: Gint)
    ensures Cell(InitialGrid(m), r) <==> r.a >= 0 && r.b >= 0 && Norm(r) <= m
    ensures IsSet(InitialGrid(m), r) <==> r.a >= 0 && r.b >= 0 && 2 <= Norm(r) <= m
  {
    if r.a >= 0 && r.b >= 0 {
      ShapeExact(m, r.a, r.b);
      SquareNonneg(r.a);
      SquareNonneg(r.b);
      if r.a >= 2 { SquareLe(2, r.a); }
      if r.b >= 2 { SquareLe(2, r.b); }
    }
  }

  // ---------------------------------------------------------------------------
  // crossOffMultiples

  /** The last d swept in column c: isqrt(x / N(g) - c^2) (src/QuadrantSieve.cpp:48). */
  ghost function DUpper(m: nat, n: nat, c: nat): nat
    requires n > 0
  {
    if c * c <= Quot(m, n) then IntSqrt(Quot(m, n) - c * c) else 0
  }

  /** The cofactors h = c + di visited by the c/d loops: a quarter disc without the imaginary axis. */
  ghost predicate Swept(m: nat, n: nat, h: Gint)
    requires n > 0
  {
    1 <= h.a <= CUpper(m, n) && 0 <= h.b <= DUpper(m, n, h.a)
  }

  /** h is visited before the loops reach c + di. */
  ghost predicate SweptBefore(m: nat, n: nat, h: Gint, c: int, d: int)
    requires n > 0
  {
    Swept(m, n, h) && (h.a < c || (h.a == c && h.b < d))
  }

  /** p folds onto cell (i, j) and is g times a cofactor swept before c + di. */
  ghost predicate Hit(m: nat, g: Gint, p: Gint, i: int, j: int, c: int, d: int)
  {
    p.b >= 0 && QuadFold(p) == Gint(i, j) && Divides(g, p) &&
    SweptBefore(m, Norm(g), Cofactor(g, p), c, d)
  }

  /** Cell (i, j) has been cleared once the loops reach c + di: i + ji or its turn by i is a swept multiple of g. */
  ghost predicate StruckBy(m: nat, g: Gint, i: int, j: int, c: int, d: int)
  {
    Hit(m, g, Gint(i, j), i, j, c, d) || Hit(m, g, Gint(-j, i), i, j, c, d)
  }

  /** The only points of the upper half plane that fold onto (i, j). */
  lemma FoldPreimages(p: Gint, i: int, j: int)
    requires p.b >= 0 && QuadFold(p) == Gint(i, j)
    ensures p == Gint(i, j) || p == Gint(-j, i)
  {
  }

  /** The array part way through the sweep of g: every cell cleared that a cofactor swept before c + di hit. */
  ghost function Struck(grid: seq<seq<bool>>, m: nat, g: Gint, c: int, d: int): (r: seq<seq<bool>>)
    ensures |r| == |grid| && forall a :: 0 <= a < |r| ==> |r[a]| == |grid[a]|
  {
    seq(|grid|, i requires 0 <= i < |grid| =>
      seq(|grid[i]|, j requires 0 <= j < |grid[i]| => grid[i][j] && !StruckBy(m, g, i, j, c, d)))
  }

  /** The cell that the product g h of two first-quadrant points lands on. */
  function ProductCellOf(g: Gint, h: Gint): Gint
    requires g.a >= 0 && g.b >= 0 && h.a >= 0 && h.b >= 0
  {
    ProductUpper(g, h);
    QuadFold(Mul(g, h))
  }

  lemma HitStep(m: nat, g: Gint, p: Gint, c: int, d: int, i: int, j: int)
    requires Norm(g) > 0 && Swept(m, Norm(g), Gint(c, d))
    ensures Hit(m, g, p, i, j, c, d + 1) <==>
      Hit(m, g, p, i, j, c, d) || (p == Mul(g, Gint(c, d)) && p.b >= 0 && QuadFold(p) == Gint(i, j))
  {
    MulIffCofactor(g, Gint(c, d), p);
  }

  /** Sweeping cofactor c + di clears exactly the cell of g (c + di). */
  lemma {:induction false} StruckByStep(m: nat, g: Gint, c: int, d: int, i: int, j: int)
    requires g.a >= 0 && g.b >= 0 && Norm(g) > 0
    requires Swept(m, Norm(g), Gint(c, d))
    ensures StruckBy(m, g, i, j, c, d + 1) <==>
      StruckBy(m, g, i, j, c, d) || ProductCellOf(g, Gint(c, d)) == Gint(i, j)
  {
    var p0 := Mul(g, Gint(c, d));
    ProductUpper(g, Gint(c, d));
    HitStep(m, g, Gint(i, j), c, d, i, j);
    HitStep(m, g, Gint(-j, i), c, d, i, j);
    if QuadFold(p0) == Gint(i, j) {
      FoldPreimages(p0, i, j);
    }
  }

  lemma StruckCellStep(grid: seq<seq<bool>>, m: nat, g: Gint, c: int, d: int, i: int, j: int)
    requires g.a >= 0 && g.b >= 0 && Norm(g) > 0
    requires Swept(m, Norm(g), Gint(c, d))
    requires 0 <= i < |grid| && 0 <= j < |grid[i]|
    ensures Struck(grid, m, g, c, d + 1)[i][j] ==
      (Struck(grid, m, g, c, d)[i][j] && ProductCellOf(g, Gint(c, d)) != Gint(i, j))
  {
    StruckByStep(m, g, c, d, i, j);
  }

  /** One step of the d loop clears the product's cell and nothing else. */
  lemma StruckStep(grid: seq<seq<bool>>, m: nat, g: Gint, c: int, d: int)
    requires g.a >= 0 && g.b >= 0 && Norm(g) > 0
    requires Swept(m, Norm(g), Gint(c, d))
    requires ProductCellOf(g, Gint(c, d)).a < |grid|
    requires ProductCellOf(g, Gint(c, d)).b < |grid[ProductCellOf(g, Gint(c, d)).a]|
    ensures var r := ProductCellOf(g, Gint(c, d));
      Struck(grid, m, g, c, d + 1) ==
      Struck(grid, m, g, c, d)[r.a := Struck(grid, m, g, c, d)[r.a][r.b := false]]
  {
    var r := ProductCellOf(g, Gint(c, d));
    var s0, s1 := Struck(grid, m, g, c, d), Struck(grid, m, g, c, d + 1);
    var t := s0[r.a := s0[r.a][r.b := false]];
    forall i | 0 <= i < |grid|
      ensures s1[i] == t[i]
    {
      forall j | 0 <= j < |grid[i]|
        ensures s1[i][j] == t[i][j]
      {
        StruckCellStep(grid, m, g, c, d, i, j);
      }
    }
  }

  /** Every swept cofactor h keeps the product within the array: N(g) N(h) <= maxNorm. */
  lemma {:induction false} SweptNormBound(m: nat, n: nat, h: Gint)
    requires n > 0 && Swept(m, n, h)
    ensures Norm(h) <= Quot(m, n) && n * Norm(h) <= m
  {
    SquareLe(h.a, CUpper(m, n));
    SquareLe(h.b, IntSqrt(Quot(m, n) - h.a * h.a));
    ScaleBound(m, n, Norm(h));
  }

  /** Where the product g (c + di) lands: a cell of the array. */
  lemma ProductCell(m: nat, grid: seq<seq<bool>>, g: Gint, h: Gint)
    requires Shaped(m, grid) && g.a >= 0 && g.b >= 0 && Norm(g) > 0 && Swept(m, Norm(g), h)
    ensures Mul(g, h).b >= 0
    ensures ProductCellOf(g, h).a < |grid| && ProductCellOf(g, h).b < |grid[ProductCellOf(g, h).a]|
  {
    ProductUpper(g, h);
    SweptNormBound(m, Norm(g), h);
    MulNorm(g, h);
    assert Norm(g) * Norm(h) == Norm(ProductCellOf(g, h));
    CellInGrid(m, grid, ProductCellOf(g, h));
  }

  /** Before the first cofactor nothing is struck. */
  lemma StruckStart(grid: seq<seq<bool>>, m: nat, g: Gint)
    requires Norm(g) > 0
    ensures Struck(grid, m, g, 1, 0) == grid
  {
    var s := Struck(grid, m, g, 1, 0);
    forall i | 0 <= i < |grid|
      ensures s[i] == grid[i]
    {
      assert forall j | 0 <= j < |grid[i]| :: s[i][j] == grid[i][j];
    }
  }

  /** Finishing column c is the same as starting column c + 1. */
  lemma StruckNextColumn(grid: seq<seq<bool>>, m: nat, g: Gint, c: nat)
    requires Norm(g) > 0
    ensures Struck(grid, m, g, c, DUpper(m, Norm(g), c) + 1) == Struck(grid, m, g, c + 1, 0)
  {
    var s0, s1 := Struck(grid, m, g, c, DUpper(m, Norm(g), c) + 1), Struck(grid, m, g, c + 1, 0);
    forall i | 0 <= i < |grid|
      ensures s0[i] == s1[i]
    {
      assert forall j | 0 <= j < |grid[i]| :: s0[i][j] == s1[i][j];
    }
  }

  /**
   * The array after crossOffMultiples(g): unchanged if g's own cell is already false
   * (the early exit); otherwise every cell hit by a swept multiple is cleared and
   * g's own cell is set true again.
   */
  ghost function CrossOff(grid: seq<seq<bool>>, m: nat, g: Gint): (r: seq<seq<bool>>)
    requires Shaped(m, grid) && Sweepable(m, g)
    ensures Shaped(m, r)
  {
    CellInGrid(m, grid, g);
    if !grid[g.a][g.b] then grid
    else
      var s := Struck(grid, m, g, CUpper(m, Norm(g)) + 1, 0);
      s[g.a := s[g.a][g.b := true]]
  }

  /** The array after sieving with each prime of ps in turn. */
  ghost function SieveWith(grid: seq<seq<bool>>, m: nat, ps: seq<Gint>): (r: seq<seq<bool>>)
    requires Shaped(m, grid)
    requires forall k :: 0 <= k < |ps| ==> Sweepable(m, ps[k])
    ensures Shaped(m, r)
    decreases |ps|
  {
    if ps == [] then grid
    else
      var next := CrossOff(grid, m, ps[0]);
      assert forall k :: 0 <= k < |ps| - 1 ==> ps[1..][k] == ps[k + 1];
      SieveWith(next, m, ps[1..])
  }

  /** One cell of the array after crossOffMultiples(g). */
  lemma CrossOffAt(grid: seq<seq<bool>>, m: nat, g: Gint, r: Gint)
    requires Shaped(m, grid) && Sweepable(m, g) && Cell(grid, r)
    ensures Cell(grid, g) && Cell(CrossOff(grid, m, g), r)
    ensures CrossOff(grid, m, g)[r.a][r.b] ==
      if !IsSet(grid, g) then grid[r.a][r.b]
      else if r == g then true
      else grid[r.a][r.b] && !StruckBy(m, g, r.a, r.b, CUpper(m, Norm(g)) + 1, 0)
  {
    CellInGrid(m, grid, g);
  }

  /** A first-quadrant cofactor within the norm bound is swept. */
  lemma {:induction false} SweptOfBound(m: nat, n: nat, h: Gint)
    requires n > 0 && 1 <= h.a && 0 <= h.b && Norm(h) * n <= m
    ensures Swept(m, n, h)
  {
    DivMulLe(Norm(h), n, m);
    SquareNonneg(h.b);
    IntSqrtGreatest(Quot(m, n), h.a);
    IntSqrtGreatest(Quot(m, n) - h.a * h.a, h.b);
  }

  /** A struck cell holds, up to a unit, g times a swept cofactor. */
  lemma StruckFactor(m: nat, g: Gint, i: int, j: int, c: int) returns (h: Gint)
    requires Norm(g) > 0 && StruckBy(m, g, i, j, c, 0)
    ensures Mul(g, h).b >= 0 && QuadFold(Mul(g, h)) == Gint(i, j)
    ensures IsAssociate(Gint(i, j), Mul(g, h)) && Swept(m, Norm(g), h)
  {
    var p := if Hit(m, g, Gint(i, j), i, j, c, 0) then Gint(i, j) else Gint(-j, i);
    h := Cofactor(g, p);
    MulIffCofactor(g, h, p);
  }

  lemma StruckProduct(m: nat, grid: seq<seq<bool>>, g: Gint, h: Gint)
    requires Shaped(m, grid) && Sweepable(m, g)
    requires 1 <= h.a && 0 <= h.b && Norm(g) * Norm(h) <= m
    ensures Cell(grid, ProductCellOf(g, h))
    ensures StruckBy(m, g, ProductCellOf(g, h).a, ProductCellOf(g, h).b, CUpper(m, Norm(g)) + 1, 0)
  {
    var n := Norm(g);
    var p := Mul(g, h);
    assert Norm(h) * n == n * Norm(h);
    SweptOfBound(m, n, h);
    ProductCell(m, grid, g, h);
    MulIffCofactor(g, h, p);
    var r := QuadFold(p);
    FoldPreimages(p, r.a, r.b);
  }

  lemma ProductAwayFromHome(g: Gint, h: Gint)
    requires g.a >= 0 && g.b >= 0 && Norm(g) > 0
    requires 1 <= h.a && 0 <= h.b && h != Gint(1, 0)
    ensures ProductCellOf(g, h) != g
  {
    MulNorm(g, h);
    NonUnitCofactor(h);
    MulLe(Norm(g), 2, Norm(h));
  }

  /**
   * Completeness of one sweep: when g's cell is still true, every product g h with h in
   * the first quadrant off the imaginary axis, h not 1, and N(g) N(h) <= maxNorm has
   * its cell cleared.
   */
  lemma {:induction false} CrossOffClearsMultiples(grid: seq<seq<bool>>, m: nat, g: Gint, h: Gint)
    requires Shaped(m, grid) && Sweepable(m, g) && IsSet(grid, g)
    requires 1 <= h.a && 0 <= h.b && h != Gint(1, 0) && Norm(g) * Norm(h) <= m
    ensures Cell(grid, ProductCellOf(g, h)) && !IsSet(CrossOff(grid, m, g), ProductCellOf(g, h))
  {
    var r := ProductCellOf(g, h);
    StruckProduct(m, grid, g, h);
    ProductAwayFromHome(g, h);
    CrossOffAt(grid, m, g, r);
  }

  /**
   * Soundness of one sweep: a cell that crossOffMultiples(g) clears holds, up to a
   * unit, g times a cofactor of norm at least 2.
   */
  lemma {:induction false} CrossOffClearsOnlyMultiples(grid: seq<seq<bool>>, m: nat, g: Gint, r: Gint)
    requires Shaped(m, grid) && Sweepable(m, g) && g.a >= 1
    requires IsSet(grid, r) && !IsSet(CrossOff(grid, m, g), r)
    ensures exists h :: Norm(h) >= 2 && IsAssociate(r, Mul(g, h))
  {
    CrossOffAt(grid, m, g, r);
    var h := StruckFactor(m, g, r.a, r.b, CUpper(m, Norm(g)) + 1);
    assert h != Gint(1, 0) by {
      assert Mul(g, Gint(1, 0)) == g;
    }
    NonUnitCofactor(h);
    assert Norm(h) >= 2 && IsAssociate(r, Mul(g, h));
  }

  /** The sweep of g never sets a cell true, and g's own cell keeps its value. */
  lemma CrossOffMonotone(grid: seq<seq<bool>>, m: nat, g: Gint, r: Gint)
    requires Shaped(m, grid) && Sweepable(m, g)
    ensures IsSet(CrossOff(grid, m, g), r) ==> IsSet(grid, r)
    ensures IsSet(CrossOff(grid, m, g), g) == IsSet(grid, g)
  {
    CellInGrid(m, grid, g);
  }

  /** Crossing off the multiples of the same g twice changes nothing the second time. */
  lemma {:induction false} CrossOffIdempotent(grid: seq<seq<bool>>, m: nat, g: Gint)
    requires Shaped(m, grid) && Sweepable(m, g)
    ensures CrossOff(CrossOff(grid, m, g), m, g) == CrossOff(grid, m, g)
  {
    var g1 := CrossOff(grid, m, g);
    var g2 := CrossOff(g1, m, g);
    CrossOffMonotone(grid, m, g, g);
    forall i | 0 <= i < |g1|
      ensures g2[i] == g1[i]
    {
      forall j | 0 <= j < |g1[i]|
        ensures g2[i][j] == g1[i][j]
      {
        CrossOffAt(g1, m, g, Gint(i, j));
        CrossOffAt(grid, m, g, Gint(i, j));
      }
    }
  }

  // ---------------------------------------------------------------------------
  // The whole sieve

  /** Sieving never sets a cell true. */
  lemma {:induction false} SieveWithMonotone(grid: seq<seq<bool>>, m: nat, ps: seq<Gint>, r: Gint)
    requires Shaped(m, grid) && forall k :: 0 <= k < |ps| ==> Sweepable(m, ps[k])
    ensures IsSet(SieveWith(grid, m, ps), r) ==> IsSet(grid, r)
    decreases |ps|
  {
    if ps != [] {
      CrossOffMonotone(grid, m, ps[0], r);
      SieveWithTail(m, ps);
      SieveWithMonotone(CrossOff(grid, m, ps[0]), m, ps[1..], r);
    }
  }

  /**
   * Each small prime lies off the imaginary axis and is a non-unit, or a unit whose
   * cell is already false (1 in the sorted list).
   */
  ghost predicate PrimesUsable(grid: seq<seq<bool>>, m: nat, ps: seq<Gint>)
  {
    forall k :: 0 <= k < |ps| ==> Sweepable(m, ps[k]) && ps[k].a >= 1 && (Norm(ps[k]) >= 2 || !IsSet(grid, ps[k]))
  }

  /** After the first prime's sweep the remaining primes are still usable. */
  lemma PrimesUsableTail(grid: seq<seq<bool>>, m: nat, ps: seq<Gint>)
    requires Shaped(m, grid) && PrimesUsable(grid, m, ps) && ps != []
    ensures PrimesUsable(CrossOff(grid, m, ps[0]), m, ps[1..])
  {
    var g1 := CrossOff(grid, m, ps[0]);
    forall k | 0 <= k < |ps| - 1
      ensures Sweepable(m, ps[1..][k]) && ps[1..][k].a >= 1 && (Norm(ps[1..][k]) >= 2 || !IsSet(g1, ps[1..][k]))
    {
      assert ps[1..][k] == ps[k + 1];
      CrossOffMonotone(grid, m, ps[0], ps[k + 1]);
    }
  }

  /** Soundness of the sieve: every cell it clears holds a composite. */
  lemma {:induction false} SieveWithClearsOnlyComposites(grid: seq<seq<bool>>, m: nat, ps: seq<Gint>, r: Gint)
    requires Shaped(m, grid) && PrimesUsable(grid, m, ps)
    requires IsSet(grid, r) && !IsSet(SieveWith(grid, m, ps), r)
    ensures Composite(r)
    decreases |ps|
  {
    var g1 := CrossOff(grid, m, ps[0]);
    if IsSet(g1, r) {
      PrimesUsableTail(grid, m, ps);
      SieveWithClearsOnlyComposites(g1, m, ps[1..], r);
    } else {
      CrossOffAt(grid, m, ps[0], r);
      assert IsSet(grid, ps[0]) && Norm(ps[0]) >= 2;
      CrossOffClearsOnlyMultiples(grid, m, ps[0], r);
      var h :| Norm(h) >= 2 && IsAssociate(r, Mul(ps[0], h));
      assert SameClass(r, Mul(ps[0], h));
    }
  }

  /** Sieving with ps is sieving with its first k primes, then with the rest. */
  lemma {:induction false} SieveWithSplit(grid: seq<seq<bool>>, m: nat, ps: seq<Gint>, k: nat)
    requires Shaped(m, grid) && forall k :: 0 <= k < |ps| ==> Sweepable(m, ps[k])
    requires k <= |ps|
    ensures forall i :: 0 <= i < |ps[k..]| ==> Sweepable(m, ps[k..][i])
    ensures SieveWith(grid, m, ps) == SieveWith(SieveWith(grid, m, ps[..k]), m, ps[k..])
    decreases k
  {
    assert forall i :: 0 <= i < |ps[k..]| ==> ps[k..][i] == ps[i + k];
    assert forall i :: 0 <= i < k ==> ps[..k][i] == ps[i];
    if k > 0 {
      SieveWithTail(m, ps);
      SieveWithSplit(CrossOff(grid, m, ps[0]), m, ps[1..], k - 1);
      assert ps[1..][..k - 1] == ps[..k][1..];
      assert ps[1..][k - 1..] == ps[k..];
    } else {
      assert ps[..0] == [] && ps[0..] == ps;
    }
  }

  /** The array when the k-th small prime's turn comes. */
  ghost function SievedBefore(grid: seq<seq<bool>>, m: nat, ps: seq<Gint>, k: nat): seq<seq<bool>>
    requires Shaped(m, grid) && forall k :: 0 <= k < |ps| ==> Sweepable(m, ps[k])
    requires k <= |ps|
  {
    assert forall i :: 0 <= i < k ==> ps[..k][i] == ps[i];
    SieveWith(grid, m, ps[..k])
  }

  /**
   * Completeness for each prime still marked when its turn comes: after the whole
   * sieve, every first-quadrant multiple g h (h not 1) within the bound has a false cell.
   */
  lemma {:induction false} SieveWithClearsMultiples(grid: seq<seq<bool>>, m: nat, ps: seq<Gint>, k: nat, h: Gint)
    requires Shaped(m, grid) && forall k :: 0 <= k < |ps| ==> Sweepable(m, ps[k])
    requires k < |ps| && IsSet(SievedBefore(grid, m, ps, k), ps[k])
    requires 1 <= h.a && 0 <= h.b && h != Gint(1, 0) && Norm(ps[k]) * Norm(h) <= m
    ensures !IsSet(SieveWith(grid, m, ps), ProductCellOf(ps[k], h))
  {
    SieveWithSplit(grid, m, ps, k);
    var gk := SieveWith(grid, m, ps[..k]);
    CrossOffClearsMultiples(gk, m, ps[k], h);
    assert ps[k..][0] == ps[k];
    SieveWithTail(m, ps[k..]);
    assert ps[k..][1..] == ps[k + 1..];
    SieveWithMonotone(CrossOff(gk, m, ps[k]), m, ps[k + 1..], ProductCellOf(ps[k], h));
  }

  // ---------------------------------------------------------------------------
  // Scanning the quadrant: small-prime candidates and harvest

  /** The scan order of the quadrant loops: columns a, a + 1, ... up to isqrt(m), each from b = 0 to isqrt(m - a^2). */
  ghost function Scan(m: nat, a: nat): seq<Gint>
    decreases IntSqrt(m) + 1 - a
  {
    if a > IntSqrt(m) then [] else Column(a, Height(m, a) - 1) + Scan(m, a + 1)
  }

  /** The scan from column a0 visits exactly the points a + bi with a >= a0, b >= 0, norm at most m. */
  lemma {:induction false} ScanMembers(m: nat, a0: nat, g: Gint)
    ensures g in Scan(m, a0) <==> a0 <= g.a && 0 <= g.b && Norm(g) <= m
    decreases IntSqrt(m) + 1 - a0
  {
    if a0 > IntSqrt(m) {
      if a0 <= g.a && 0 <= g.b && Norm(g) <= m {
        SquareNonneg(g.b);
        IntSqrtGreatest(m, g.a);
      }
    } else {
      ScanMembers(m, a0 + 1, g);
      var col := Column(a0, Height(m, a0) - 1);
      if g.a == a0 && g.b >= 0 {
        ShapeExact(m, a0, g.b);
        if g.b < Height(m, a0) {
          assert col[g.b] == g;
        }
      }
    }
  }

  lemma ScanStep(m: nat, a: nat)
    requires a <= IntSqrt(m)
    ensures Scan(m, a) == Column(a, Height(m, a) - 1) + Scan(m, a + 1)
  {
  }

  lemma ScanEnd(m: nat, a: nat)
    requires a > IntSqrt(m)
    ensures Scan(m, a) == []
  {
  }

  /** The small primes of setSmallPrimes: the scan of radius isqrt(maxNorm) from a = 1, sorted by the gint order. */
  ghost function SmallPrimeList(m: nat): seq<Gint>
  {
    SortedOf(Scan(IntSqrt(m), 1))
  }

  /** The small-prime list is sorted by the gint order. */
  lemma SmallPrimeListSorted(m: nat)
    ensures Sorted(SmallPrimeList(m))
  {
    SortedOfSorted(Scan(IntSqrt(m), 1));
  }

  /** The small-prime list holds exactly the points a + bi with a >= 1, b >= 0 and norm at most isqrt(maxNorm). */
  lemma {:induction false} SmallPrimeListMembers(m: nat, g: Gint)
    ensures g in SmallPrimeList(m) <==> 1 <= g.a && 0 <= g.b && Norm(g) <= IntSqrt(m)
  {
    var cand := Scan(IntSqrt(m), 1);
    SortedOfSorted(cand);
    assert g in SmallPrimeList(m) <==> g in multiset(cand);
    ScanMembers(IntSqrt(m), 1, g);
  }

  /** Every entry of the small-prime list lies off the imaginary axis and can be swept in the array for maxNorm m. */
  lemma SmallPrimeListSweepable(m: nat)
    ensures forall k :: 0 <= k < |SmallPrimeList(m)| ==> Sweepable(m, SmallPrimeList(m)[k]) && SmallPrimeList(m)[k].a >= 1
  {
    forall k | 0 <= k < |SmallPrimeList(m)|
      ensures Sweepable(m, SmallPrimeList(m)[k]) && SmallPrimeList(m)[k].a >= 1
    {
      var g := SmallPrimeList(m)[k];
      SmallPrimeListMembers(m, g);
      IntSqrtBelow(m);
      SquareNonneg(g.b);
      SquareLe(1, g.a);
    }
  }

  /** In the freshly allocated array, the only unit among the small primes (1) has a false cell. */
  lemma {:induction false} SmallPrimeListUsable(m: nat)
    requires m >= 1
    ensures PrimesUsable(InitialGrid(m), m, SmallPrimeList(m))
  {
    SmallPrimeListSweepable(m);
    forall k | 0 <= k < |SmallPrimeList(m)|
      ensures Norm(SmallPrimeList(m)[k]) >= 2 || !IsSet(InitialGrid(m), SmallPrimeList(m)[k])
    {
      var g := SmallPrimeList(m)[k];
      SmallPrimeListMembers(m, g);
      InitialGridCells(m, g);
    }
  }

  /** The array after run(): allocated, then sieved with the small-prime list. */
  ghost function Sieved(m: nat): (r: seq<seq<bool>>)
    ensures Shaped(m, r)
  {
    SmallPrimeListSweepable(m);
    SieveWith(InitialGrid(m), m, SmallPrimeList(m))
  }

  /** The first-quadrant points that are Gaussian primes survive the whole run. */
  lemma {:induction false} PrimesSurvive(m: nat, r: Gint)
    requires m >= 1 && r.a >= 0 && r.b >= 0 && 2 <= Norm(r) <= m && !Composite(r)
    ensures IsSet(Sieved(m), r)
  {
    SmallPrimeListUsable(m);
    InitialGridCells(m, r);
    if !IsSet(Sieved(m), r) {
      SieveWithClearsOnlyComposites(InitialGrid(m), m, SmallPrimeList(m), r);
    }
  }

  /** A Gaussian prime of the small-prime list still has its cell when its turn comes: the sweeps before it clear only composites. */
  lemma {:induction false} PrimeSetAtTurn(m: nat, k: nat)
    requires m >= 1 && k < |SmallPrimeList(m)| && !Composite(SmallPrimeList(m)[k]) && Norm(SmallPrimeList(m)[k]) >= 2
    ensures forall i :: 0 <= i < |SmallPrimeList(m)| ==> Sweepable(m, SmallPrimeList(m)[i])
    ensures IsSet(SievedBefore(InitialGrid(m), m, SmallPrimeList(m), k), SmallPrimeList(m)[k])
  {
    var ps := SmallPrimeList(m);
    SmallPrimeListUsable(m);
    var before := ps[..k];
    assert forall i :: 0 <= i < |before| ==> before[i] == ps[i];
    assert PrimesUsable(InitialGrid(m), m, before);
    InitialGridCells(m, ps[k]);
    if !IsSet(SieveWith(InitialGrid(m), m, before), ps[k]) {
      SieveWithClearsOnlyComposites(InitialGrid(m), m, before, ps[k]);
    }
  }

  /**
   * Completeness of the run: every composite off the imaginary axis of norm at most m has
   * a false cell. Its first-quadrant Gaussian prime factor p has N(p)^2 <= m, so p is a
   * small prime still marked at its turn, and p's sweep visits the composite. (Cells on
   * the imaginary axis other than i are never cleared: a product of two points with
   * positive real part never lands on the negative real axis, which is what -i would turn
   * onto them; the harvest does not read that axis.)
   */
  lemma {:induction false} CompositesCleared(m: nat, r: Gint)
    requires m >= 1 && r.a >= 1 && r.b >= 0 && Norm(r) <= m && Composite(r)
    ensures !IsSet(Sieved(m), r)
  {
    var p, q := FirstQuadrantPrimeFactor(r);
    IntSqrtGreatest(m, Norm(p));
    SmallPrimeListMembers(m, p);
    var h := QuadrantCofactor(p, q, r);
    var ps := SmallPrimeList(m);
    var k :| 0 <= k < |ps| && ps[k] == p;
    PrimeSetAtTurn(m, k);
    assert h != Gint(1, 0);
    SieveWithClearsMultiples(InitialGrid(m), m, ps, k, h);
  }

  /** After the run, a first-quadrant point off the imaginary axis of norm 2 to m has a true cell exactly when it is a Gaussian prime. */
  lemma SievedExact(m: nat, r: Gint)
    requires m >= 1 && r.a >= 1 && r.b >= 0 && 2 <= Norm(r) <= m
    ensures IsSet(Sieved(m), r) <==> !Composite(r)
  {
    if Composite(r) {
      CompositesCleared(m, r);
    } else {
      PrimesSurvive(m, r);
    }
  }

  /**
   * What setBigPrimes collects after the run is exactly the Gaussian primes of the first
   * quadrant, off the imaginary axis, of norm at most m.
   */
  lemma {:induction false} HarvestIsPrimes(m: nat, g: Gint)
    requires m >= 1
    ensures g in Harvest(m, Sieved(m)) <==> g.a > 0 && g.b >= 0 && 2 <= Norm(g) <= m && !Composite(g)
  {
    var grid := Sieved(m);
    HarvestMembers(m, grid, g);
    if g.a > 0 && g.b >= 0 && Norm(g) <= m {
      if 2 <= Norm(g) {
        SievedExact(m, g);
      } else {
        InitialGridCells(m, g);
        SmallPrimeListSweepable(m);
        SieveWithMonotone(InitialGrid(m), m, SmallPrimeList(m), g);
        assert !IsSet(grid, g);
      }
    }
  }

  /** What setBigPrimes collects: the true cells off the imaginary axis, in scan order. */
  ghost function Harvest(m: nat, grid: seq<seq<bool>>): seq<Gint>
  {
    Survivors(grid, Scan(m, 1))
  }

  /** The harvest holds exactly the points a + bi with a >= 1, b >= 0, norm at most m, whose cell is true. */
  lemma {:induction false} HarvestMembers(m: nat, grid: seq<seq<bool>>, g: Gint)
    ensures g in Harvest(m, grid) <==> g.a >= 1 && g.b >= 0 && Norm(g) <= m && IsSet(grid, g)
  {
    SurvivorsMembers(grid, Scan(m, 1), g);
    ScanMembers(m, 1, g);
  }

  /** Scanning one more point of a column adds it to the harvest when its cell is true. */
  lemma HarvestStep(grid: seq<seq<bool>>, a: nat, b: nat)
    requires a < |grid| && b < |grid[a]|
    ensures Survivors(grid, Column(a, b)) ==
      Survivors(grid, Column(a, b - 1)) + (if grid[a][b] then [Gint(a, b)] else [])
  {
    ColumnStep(a, b);
    SurvivorsAppend(grid, Column(a, b - 1), Gint(a, b));
  }

  lemma HarvestAccumulate(grid: seq<seq<bool>>, acc: seq<Gint>, seen: seq<Gint>, column: seq<Gint>)
    requires acc == Survivors(grid, seen)
    ensures acc + Survivors(grid, column) == Survivors(grid, seen + column)
  {
    SurvivorsConcat(grid, seen, column);
  }

  /** The top of column a, isqrt(m - a^2), as the source computes it. */
  method ColumnHeight(m: nat, a: nat, aMax: nat) returns (height: nat)
    requires aMax == IntSqrt(m) && a <= aMax
    ensures height == Height(m, a)
  {
    SquareLe(a, aMax);
    var t := Isqrt(m - a * a);
    height := t + 1;
  }

  /** The points of column a of the scan have cells in a shaped array. */
  lemma ScanCell(m: nat, grid: seq<seq<bool>>, a: nat, b: nat)
    requires Shaped(m, grid) && a <= IntSqrt(m) && b < Height(m, a)
    ensures a < |grid| && b < |grid[a]|
  {
  }

  /** The nested loops of setSmallPrimes (src/QuadrantSieve.cpp:11-16), over the scan of radius rt. */
  method ScanCandidates(rt: nat) returns (temp: seq<Gint>)
    ensures temp == Scan(rt, 1)
  {
    var aMax := Isqrt(rt);
    temp := [];
    var a := 1;
    while a <= aMax
      invariant 1 <= a && (a <= aMax + 1 || aMax < 1)
      invariant temp + Scan(rt, a) == Scan(rt, 1)
    {
      var height := ColumnHeight(rt, a, aMax);
      var column := CandidateColumn(a, height);
      ScanStep(rt, a);
      ScanAccumulate(temp, column, Scan(rt, a + 1));
      temp := temp + column;
      a := a + 1;
    }
    ScanEnd(rt, a);
    assert temp + [] == temp;
  }

  /** The inner loop of setSmallPrimes (src/QuadrantSieve.cpp:12-15): the points a + bi for b below the column height. */
  method CandidateColumn(a: nat, height: nat) returns (column: seq<Gint>)
    ensures column == Column(a, height - 1)
  {
    column := [];
    var b := 0;
    while b < height
      invariant 0 <= b <= height
      invariant column == Column(a, b - 1)
    {
      ColumnStep(a, b);
      column := column + [Gint(a, b)];
      b := b + 1;
    }
  }

  /** The columns scanned before column a, and the primes they hold. */
  ghost predicate HarvestedTo(m: nat, grid: seq<seq<bool>>, a: nat, seen: seq<Gint>, found: seq<Gint>)
  {
    seen + Scan(m, a) == Scan(m, 1) && found == Survivors(grid, seen)
  }

  /** One pass of the outer loop of setBigPrimes: the primes of column a are appended. */
  method HarvestNext(m: nat, grid: seq<seq<bool>>, a: nat, aMax: nat, found: seq<Gint>, ghost seen: seq<Gint>)
    returns (next: seq<Gint>, ghost seen1: seq<Gint>)
    requires Shaped(m, grid) && aMax == IntSqrt(m) && 1 <= a <= aMax
    requires HarvestedTo(m, grid, a, seen, found)
    ensures HarvestedTo(m, grid, a + 1, seen1, next)
  {
    ghost var column := Column(a, Height(m, a) - 1);
    HarvestAccumulate(grid, found, seen, column);
    var more := HarvestColumn(m, grid, a, aMax);
    next := found + more;
    ScanStep(m, a);
    ScanAccumulate(seen, column, Scan(m, a + 1));
    seen1 := seen + column;
  }

  /** The loops of setBigPrimes (src/QuadrantSieve.cpp:69-76): the true cells of the scan. */
  method HarvestScan(m: nat, grid: seq<seq<bool>>) returns (found: seq<Gint>)
    requires Shaped(m, grid)
    ensures found == Harvest(m, grid)
  {
    var aMax := Isqrt(m);
    ghost var seen: seq<Gint> := [];
    found := [];
    var a := 1;
    while a <= aMax
      invariant 1 <= a && (a <= aMax + 1 || aMax < 1)
      invariant HarvestedTo(m, grid, a, seen, found)
    {
      found, seen := HarvestNext(m, grid, a, aMax, found, seen);
      a := a + 1;
    }
    ScanEnd(m, a);
    assert seen + [] == seen;
  }

  /** The inner loop of setBigPrimes (src/QuadrantSieve.cpp:70-75) over column a. */
  method HarvestColumn(m: nat, grid: seq<seq<bool>>, a: nat, aMax: nat) returns (found: seq<Gint>)
    requires Shaped(m, grid) && aMax == IntSqrt(m) && a <= aMax
    ensures found == Survivors(grid, Column(a, Height(m, a) - 1))
  {
    var height := ColumnHeight(m, a, aMax);
    found := [];
    var b := 0;
    while b < height
      invariant 0 <= b <= height
      invariant found == Survivors(grid, Column(a, b - 1))
    {
      ScanCell(m, grid, a, b);
      HarvestStep(grid, a, b);
      if grid[a][b] {
        found := found + [Gint(a, b)];
      }
      b := b + 1;
    }
  }

  /** The columns scanned before column a, and the number of primes they hold. */
  ghost predicate CountedTo(m: nat, grid: seq<seq<bool>>, a: nat, seen: seq<Gint>, count: nat)
  {
    seen + Scan(m, a) == Scan(m, 1) && count == |Survivors(grid, seen)|
  }

  /** One pass of the outer loop of getCountBigPrimes: column a is counted. */
  method CountNext(m: nat, grid: seq<seq<bool>>, a: nat, aMax: nat, count: nat, ghost seen: seq<Gint>)
    returns (next: nat, ghost seen1: seq<Gint>)
    requires Shaped(m, grid) && aMax == IntSqrt(m) && 1 <= a <= aMax
    requires CountedTo(m, grid, a, seen, count)
    ensures CountedTo(m, grid, a + 1, seen1, next)
  {
    ghost var column := Column(a, Height(m, a) - 1);
    HarvestAccumulate(grid, Survivors(grid, seen), seen, column);
    var more := CountColumn(m, grid, a, aMax);
    next := count + more;
    ScanStep(m, a);
    ScanAccumulate(seen, column, Scan(m, a + 1));
    seen1 := seen + column;
  }

  /** The loops of getCountBigPrimes (src/QuadrantSieve.cpp:87-93): the length of the harvest. */
  method CountScan(m: nat, grid: seq<seq<bool>>) returns (count: nat)
    requires Shaped(m, grid)
    ensures count == |Harvest(m, grid)|
  {
    var aMax := Isqrt(m);
    ghost var seen: seq<Gint> := [];
    count := 0;
    var a := 1;
    while a <= aMax
      invariant 1 <= a && (a <= aMax + 1 || aMax < 1)
      invariant CountedTo(m, grid, a, seen, count)
    {
      count, seen := CountNext(m, grid, a, aMax, count, seen);
      a := a + 1;
    }
    ScanEnd(m, a);
    assert seen + [] == seen;
  }

  /** The inner loop of getCountBigPrimes (src/QuadrantSieve.cpp:88-92) over column a. */
  method CountColumn(m: nat, grid: seq<seq<bool>>, a: nat, aMax: nat) returns (count: nat)
    requires Shaped(m, grid) && aMax == IntSqrt(m) && a <= aMax
    ensures count == |Survivors(grid, Column(a, Height(m, a) - 1))|
  {
    var height := ColumnHeight(m, a, aMax);
    count := 0;
    var b := 0;
    while b < height
      invariant 0 <= b <= height
      invariant count == |Survivors(grid, Column(a, b - 1))|
    {
      ScanCell(m, grid, a, b);
      HarvestStep(grid, a, b);
      if grid[a][b] {
        count := count + 1;
      }
      b := b + 1;
    }
  }

  class QuadrantSieve {
    const maxNorm: nat
    var smallPrimes: seq<Gint>
    var bigPrimes: seq<Gint>
    var sieveArray: seq<seq<bool>>

    constructor (x: nat)
      ensures maxNorm == x && smallPrimes == [] && bigPrimes == [] && sieveArray == []
    {
      maxNorm := x;
      smallPrimes := [];
      bigPrimes := [];
      sieveArray := [];
    }

    /**
     * setSmallPrimes (src/QuadrantSieve.cpp:5-18): every a + bi with a >= 1, b >= 0 and
     * norm at most isqrt(maxNorm) is appended, then the whole list is sorted by the gint
     * order; starting from an empty list that is the small-prime list.
     */
    method SetSmallPrimes()
      modifies this`smallPrimes
      ensures Sorted(smallPrimes)
      ensures multiset(smallPrimes) == multiset(old(smallPrimes) + Scan(IntSqrt(maxNorm), 1))
      ensures old(smallPrimes) == [] ==> smallPrimes == SmallPrimeList(maxNorm)
    {
      var rt := Isqrt(maxNorm);
      var temp := ScanCandidates(rt);
      smallPrimes := smallPrimes + temp;
      smallPrimes := SortGints(smallPrimes);
      if old(smallPrimes) == [] {
        assert old(smallPrimes) + temp == temp;
        forall k | 0 <= k < |temp|
          ensures temp[k].b >= 0
        {
          ScanMembers(rt, 1, temp[k]);
        }
        SortedIsSortedOf(temp, smallPrimes);
      }
    }

    /**
     * setSieveArray (src/QuadrantSieve.cpp:21-39): column a, for a = 0 .. isqrt(maxNorm),
     * of height isqrt(maxNorm - a^2) + 1, all true; then the cells of 0, 1 and i set false.
     */
    method SetSieveArray()
      requires sieveArray == [] && maxNorm >= 1
      modifies this`sieveArray
      ensures sieveArray == InitialGrid(maxNorm)
    {
      var top := Isqrt(maxNorm);
      var a := 0;
      while a <= top
        invariant 0 <= a <= top + 1 && |sieveArray| == a
        invariant forall k :: 0 <= k < a ==> sieveArray[k] == seq(Height(maxNorm, k), _ => true)
      {
        var height := ColumnHeight(maxNorm, a, top);
        sieveArray := sieveArray + [seq(height, _ => true)];
        a := a + 1;
      }
      assert |sieveArray[0]| >= 2 && |sieveArray[1]| >= 1 by {
        ShapeExact(maxNorm, 0, 1);
        ShapeExact(maxNorm, 1, 0);
      }
      sieveArray := sieveArray[0 := sieveArray[0][0 := false]];
      sieveArray := sieveArray[1 := sieveArray[1][0 := false]];
      sieveArray := sieveArray[0 := sieveArray[0][1 := false]];
      ghost var init := InitialGrid(maxNorm);
      forall i | 0 <= i < |init|
        ensures sieveArray[i] == init[i]
      {
        assert forall j | 0 <= j < |init[i]| :: sieveArray[i][j] == init[i][j];
      }
    }

    /** sieve (src/BaseSieve.cpp:19-33): crossOffMultiples for each small prime, in list order. */
    method Sieve()
      requires Shaped(maxNorm, sieveArray) && forall k :: 0 <= k < |smallPrimes| ==> Sweepable(maxNorm, smallPrimes[k])
      modifies this`sieveArray
      ensures sieveArray == SieveWith(old(sieveArray), maxNorm, smallPrimes)
    {
      var i := 0;
      while i < |smallPrimes|
        invariant 0 <= i <= |smallPrimes| && Shaped(maxNorm, sieveArray)
        invariant forall k :: 0 <= k < |smallPrimes[i..]| ==> Sweepable(maxNorm, smallPrimes[i..][k])
        invariant SieveWith(sieveArray, maxNorm, smallPrimes[i..]) == SieveWith(old(sieveArray), maxNorm, smallPrimes)
      {
        assert smallPrimes[i..][0] == smallPrimes[i];
        assert smallPrimes[i..][1..] == smallPrimes[i + 1..];
        SieveWithTail(maxNorm, smallPrimes[i..]);
        CrossOffMultiples(smallPrimes[i]);
        i := i + 1;
      }
    }

    /** run (src/BaseSieve.cpp:46-50): small primes, then the array, then the sieve. */
    method Run()
      requires smallPrimes == [] && sieveArray == [] && maxNorm >= 1
      modifies this`smallPrimes, this`sieveArray
      ensures smallPrimes == SmallPrimeList(maxNorm)
      ensures sieveArray == Sieved(maxNorm)
      ensures forall r: Gint :: r.a >= 1 && r.b >= 0 && 2 <= Norm(r) <= maxNorm ==> (IsSet(sieveArray, r) <==> !Composite(r))
    {
      SetSmallPrimes();
      SetSieveArray();
      SmallPrimeListSweepable(maxNorm);
      Sieve();
      forall r: Gint | r.a >= 1 && r.b >= 0 && 2 <= Norm(r) <= maxNorm
        ensures IsSet(sieveArray, r) <==> !Composite(r)
      {
        SievedExact(maxNorm, r);
      }
    }

    /**
     * crossOffMultiples (src/QuadrantSieve.cpp:41-62): nothing if g's cell is false;
     * otherwise g (c + di) for c from 1 to isqrt(x / N(g)) and d from 0 to
     * isqrt(x / N(g) - c^2) is cleared, turned by -i when its real part is not
     * positive, and g's own cell is set true again.
     */
    method CrossOffMultiples(g: Gint)
      requires Shaped(maxNorm, sieveArray) && Sweepable(maxNorm, g)
      modifies this`sieveArray
      ensures sieveArray == CrossOff(old(sieveArray), maxNorm, g)
    {
      CellInGrid(maxNorm, sieveArray, g);
      if !sieveArray[g.a][g.b] { return; }
      SweepMultiples(g);
      sieveArray := sieveArray[g.a := sieveArray[g.a][g.b := true]];
    }

    /** The c loop of crossOffMultiples (src/QuadrantSieve.cpp:45-57). */
    method SweepMultiples(g: Gint)
      requires Shaped(maxNorm, sieveArray) && Sweepable(maxNorm, g)
      modifies this`sieveArray
      ensures sieveArray == Struck(old(sieveArray), maxNorm, g, CUpper(maxNorm, Norm(g)) + 1, 0)
    {
      ghost var g0 := sieveArray;
      var n := Norm(g);
      var q := Quot(maxNorm, n);
      var cMax := Isqrt(q);
      StruckStart(g0, maxNorm, g);
      var c := 1;
      while c <= cMax
        invariant 1 <= c <= cMax + 1
        invariant sieveArray == Struck(g0, maxNorm, g, c, 0)
      {
        var dUpper := ColumnTop(n, c, cMax);
        SweepColumn(g, c, dUpper, g0);
        StruckNextColumn(g0, maxNorm, g, c);
        c := c + 1;
      }
    }

    /** The bound of the d loop, isqrt(x / N(g) - c^2) (src/QuadrantSieve.cpp:48). */
    method ColumnTop(n: nat, c: nat, cMax: nat) returns (dUpper: nat)
      requires n > 0 && cMax == CUpper(maxNorm, n) && c <= cMax
      ensures dUpper == DUpper(maxNorm, n, c)
    {
      SquareLe(c, cMax);
      dUpper := Isqrt(Quot(maxNorm, n) - c * c);
    }

    /** The inner d loop of crossOffMultiples: u + vi = g (c + di) stepped by i g. */
    method SweepColumn(g: Gint, c: nat, dUpper: nat, ghost g0: seq<seq<bool>>)
      requires Shaped(maxNorm, g0) && Sweepable(maxNorm, g)
      requires 1 <= c <= CUpper(maxNorm, Norm(g)) && dUpper == DUpper(maxNorm, Norm(g), c)
      requires sieveArray == Struck(g0, maxNorm, g, c, 0)
      modifies this`sieveArray
      ensures sieveArray == Struck(g0, maxNorm, g, c, dUpper + 1)
    {
      var u := c * g.a;
      var v := c * g.b;
      var d := 0;
      MulStepD(g, c, 0);
      while d <= dUpper
        invariant 0 <= d <= dUpper + 1
        invariant Gint(u, v) == Mul(g, Gint(c, d))
        invariant sieveArray == Struck(g0, maxNorm, g, c, d)
      {
        ProductCell(maxNorm, g0, g, Gint(c, d));
        StruckStep(g0, maxNorm, g, c, d);
        if u > 0 {
          sieveArray := sieveArray[u := sieveArray[u][v := false]];
        } else {
          // u + vi is in the second quadrant; multiplying by -i brings it back.
          sieveArray := sieveArray[v := sieveArray[v][-u := false]];
        }
        MulStepD(g, c, d);
        u := u - g.b;
        v := v + g.a;
        d := d + 1;
      }
    }

    /** setBigPrimes (src/QuadrantSieve.cpp:65-80): every true cell a + bi with a >= 1, in scan order. */
    method SetBigPrimes()
      requires Shaped(maxNorm, sieveArray)
      modifies this`bigPrimes
      ensures bigPrimes == old(bigPrimes) + Harvest(maxNorm, sieveArray)
    {
      var found := HarvestScan(maxNorm, sieveArray);
      bigPrimes := bigPrimes + found;
    }

    /** getCountBigPrimes (src/QuadrantSieve.cpp:82-100): four times the length of the harvest, one per quadrant. */
    method GetCountBigPrimes() returns (count: nat)
      requires Shaped(maxNorm, sieveArray)
      ensures count == 4 * |Harvest(maxNorm, sieveArray)|
    {
      count := CountScan(maxNorm, sieveArray);
      count := count * 4;
    }

    /** getBigPrimes (src/BaseSieve.cpp:52-62): harvest, then sort by the gint order. */
    method GetBigPrimes() returns (primes: seq<Gint>)
      requires Shaped(maxNorm, sieveArray)
      modifies this`bigPrimes
      ensures Sorted(primes) && primes == bigPrimes
      ensures multiset(bigPrimes) == multiset(old(bigPrimes) + Harvest(maxNorm, sieveArray))
    {
      SetBigPrimes();
      bigPrimes := SortGints(bigPrimes);
      primes := bigPrimes;
    }
  }
}
