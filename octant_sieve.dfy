/**
 * The octant sieve of src/OctantSieve.cpp. Its array holds one cell per Gaussian
 * integer a + bi with 0 <= b <= a and a^2 + b^2 <= maxNorm; every multiple of a
 * small prime is folded into that octant by a unit and possibly conjugation, and
 * its cell is cleared.
 */
module OctantSieve {
  import opened GaussianInt
  import opened BaseSieve
  import opened SieveGrid
  import opened Factorization

  // ---------------------------------------------------------------------------
  // Geometry of the array

  /** The height of column a (src/OctantSieve.cpp:50-56). */
  ghost function Height(m: nat, a: nat): nat
  {
    if a <= IntSqrt(m / 2) then a + 1
    else if a * a <= m then IntSqrt(m - a * a) + 1
    else 0
  }

  /** The cells of the array are exactly the octant points of norm at most m. */
  ghost predicate InShape(m: nat, i: int, j: int)
  {
    0 <= j <= i && i * i + j * j <= m
  }

  lemma HalfSquare(m: nat, i: nat)
    requires i > IntSqrt(m / 2)
    ensures m < 2 * (i * i)
  {
    SquareMonotone(IntSqrt(m / 2), i);
    if i > IntSqrt(m / 2) + 1 {
      SquareMonotone(IntSqrt(m / 2) + 1, i);
    }
  }

  /** A point of the octant with norm at most m has a cell, and every cell is such a point. */
  lemma {:induction false} ShapeExact(m: nat, i: nat, j: nat)
    ensures (i <= IntSqrt(m) && j < Height(m, i)) <==> InShape(m, i, j)
  {
    var h := IntSqrt(m / 2);
    SquareNonneg(j);
    if i <= IntSqrt(m) && j < Height(m, i) {
      SquareLe(i, IntSqrt(m));
      if i <= h {
        SquareLe(i, h);
        SquareLe(j, i);
      } else {
        HalfSquare(m, i);
        SquareLe(j, IntSqrt(m - i * i));
        if j >= i {
          SquareLe(i, j);
        }
      }
    }
    if InShape(m, i, j) {
      IntSqrtGreatest(m, i);
      if i > h {
        IntSqrtGreatest(m - i * i, j);
      }
    }
  }

  /**
   * The height as src/OctantSieve.cpp:52 computes it: a and a are uint32_t, so a * a is
   * taken modulo 2^32 before it is subtracted from maxNorm.
   */
  ghost function WrittenHeight(m: nat, a: nat): nat
  {
    if a <= IntSqrt(m / 2) then a + 1
    else if (a * a) % 0x1_0000_0000 <= m then IntSqrt(m - (a * a) % 0x1_0000_0000) + 1
    else 0
  }

  /**
   * For maxNorm = 2^32 the last column a = 65536 has a * a = 2^32, which wraps to 0: the
   * written height is isqrt(2^32) + 1 = 65537, where the column holds the one point 65536.
   */
  lemma WrittenHeightWraps()
    ensures 65536 == IntSqrt(0x1_0000_0000)
    ensures Height(0x1_0000_0000, 65536) == 1 && WrittenHeight(0x1_0000_0000, 65536) == 65537
  {
    IntSqrtUnique(0x1_0000_0000, 65536);
    IntSqrtUnique(0x8000_0000, 46340);
    IntSqrtUnique(0, 0);
  }

  /** The array as setSieveArray allocates it: cells 0 and 1 false, all other cells true. */
  ghost function InitialGrid(m: nat): (grid: seq<seq<bool>>)
    ensures |grid| == IntSqrt(m) + 1
    ensures forall a :: 0 <= a < |grid| ==> |grid[a]| == Height(m, a)
  {
    seq(IntSqrt(m) + 1, a requires 0 <= a => seq(Height(m, a), b => !(a <= 1 && b == 0)))
  }

  /** The array has the allocated shape for maxNorm m. */
  ghost predicate Shaped(m: nat, grid: seq<seq<bool>>)
  {
    |grid| == IntSqrt(m) + 1 && forall a :: 0 <= a < |grid| ==> |grid[a]| == Height(m, a)
  }

  /** The cell of an octant point of norm at most m lies in a shaped array. */
  lemma CellInGrid(m: nat, grid: seq<seq<bool>>, r: Gint)
    requires Shaped(m, grid) && InOctant(r) && Norm(r) <= m
    ensures r.a < |grid| && r.b < |grid[r.a]|
  {
    ShapeExact(m, r.a, r.b);
  }

  // ---------------------------------------------------------------------------
  // crossOffMultiples

  /** The column where the cofactor octant meets the diagonal: isqrt(maxNorm / (2 N(g))). */
  ghost function Diagonal(m: nat, n: nat): nat
    requires n > 0
  {
    CUpper(m, 2 * n)
  }

  /** dUpper: the last d swept in column c (src/OctantSieve.cpp:82-83). */
  ghost function DUpper(m: nat, n: nat, c: nat): nat
    requires n > 0
  {
    if c <= Diagonal(m, n) then c
    else if c * c <= Quot(m, n) then IntSqrt(Quot(m, n) - c * c)
    else 0
  }

  /** The cofactors h = c + di visited by the c/d loops. */
  ghost predicate Swept(m: nat, n: nat, h: Gint)
    requires n > 0
  {
    1 <= h.a <= CUpper(m, n) && 0 <= h.b <= DUpper(m, n, h.a)
  }

  /** h is visited before the loop reaches c + di. */
  ghost predicate SweptBefore(m: nat, n: nat, h: Gint, c: int, d: int)
    requires n > 0
  {
    Swept(m, n, h) && (h.a < c || (h.a == c && h.b < d))
  }

  /** p folds onto cell (i, j) and is g times a cofactor swept before c + di. */
  ghost predicate Hit(m: nat, g: Gint, p: Gint, i: int, j: int, c: int, d: int)
  {
    p.b >= 0 && OctFold(p) == Gint(i, j) && Divides(g, p) &&
    SweptBefore(m, Norm(g), Cofactor(g, p), c, d)
  }

  /**
   * Cell (i, j) has been cleared by the sweep of g once the loops reach c + di: one of
   * the four upper-half-plane points folding onto it is a swept multiple of g.
   */
  ghost predicate StruckBy(m: nat, g: Gint, i: int, j: int, c: int, d: int)
  {
    Hit(m, g, Gint(i, j), i, j, c, d) || Hit(m, g, Gint(j, i), i, j, c, d) ||
    Hit(m, g, Gint(-j, i), i, j, c, d) || Hit(m, g, Gint(-i, j), i, j, c, d)
  }

  /** The only points of the upper half plane that fold onto (i, j). */
  lemma FoldPreimages(p: Gint, i: int, j: int)
    requires p.b >= 0 && OctFold(p) == Gint(i, j)
    ensures p == Gint(i, j) || p == Gint(j, i) || p == Gint(-j, i) || p == Gint(-i, j)
  {
  }

  /** The array part way through the sweep of g: every cell cleared that a swept cofactor before c + di hit. */
  ghost function Struck(grid: seq<seq<bool>>, m: nat, g: Gint, c: int, d: int): (r: seq<seq<bool>>)
    ensures |r| == |grid| && forall a :: 0 <= a < |r| ==> |r[a]| == |grid[a]|
  {
    seq(|grid|, i requires 0 <= i < |grid| =>
      seq(|grid[i]|, j requires 0 <= j < |grid[i]| => grid[i][j] && !StruckBy(m, g, i, j, c, d)))
  }

  lemma HitStep(m: nat, g: Gint, p: Gint, c: int, d: int, i: int, j: int)
    requires Norm(g) > 0 && Swept(m, Norm(g), Gint(c, d))
    ensures Hit(m, g, p, i, j, c, d + 1) <==>
      Hit(m, g, p, i, j, c, d) || (p == Mul(g, Gint(c, d)) && p.b >= 0 && OctFold(p) == Gint(i, j))
  {
    MulIffCofactor(g, Gint(c, d), p);
  }

  /** Sweeping cofactor c + di clears exactly the cell of g (c + di). */
  lemma {:induction false} StruckByStep(m: nat, g: Gint, c: int, d: int, i: int, j: int)
    requires g.a >= 0 && g.b >= 0 && Norm(g) > 0
    requires Swept(m, Norm(g), Gint(c, d))
    ensures StruckBy(m, g, i, j, c, d + 1) <==>
      StruckBy(m, g, i, j, c, d) || ProductCellOf(g, Gint(c, d)) == Gint(i, j)
  {
    var p0 := Mul(g, Gint(c, d));
    ProductUpper(g, Gint(c, d));
    HitStep(m, g, Gint(i, j), c, d, i, j);
    HitStep(m, g, Gint(j, i), c, d, i, j);
    HitStep(m, g, Gint(-j, i), c, d, i, j);
    HitStep(m, g, Gint(-i, j), c, d, i, j);
    if OctFold(p0) == Gint(i, j) {
      FoldPreimages(p0, i, j);
    }
  }

  lemma StruckStep(grid: seq<seq<bool>>, m: nat, g: Gint, c: int, d: int)
    requires g.a >= 0 && g.b >= 0 && Norm(g) > 0
    requires Swept(m, Norm(g), Gint(c, d))
    requires ProductCellOf(g, Gint(c, d)).a < |grid|
    requires ProductCellOf(g, Gint(c, d)).b < |grid[ProductCellOf(g, Gint(c, d)).a]|
    ensures var r := ProductCellOf(g, Gint(c, d));
      Struck(grid, m, g, c, d + 1) ==
      Struck(grid, m, g, c, d)[r.a := Struck(grid, m, g, c, d)[r.a][r.b := false]]
  {
    var r := ProductCellOf(g, Gint(c, d));
    var s0, s1 := Struck(grid, m, g, c, d), Struck(grid, m, g, c, d + 1);
    var t := s0[r.a := s0[r.a][r.b := false]];
    forall i | 0 <= i < |grid|
      ensures s1[i] == t[i]
    {
      forall j | 0 <= j < |grid[i]|
        ensures s1[i][j] == t[i][j]
      {
        StruckCellStep(grid, m, g, c, d, i, j);
      }
    }
  }

  lemma StruckCellStep(grid: seq<seq<bool>>, m: nat, g: Gint, c: int, d: int, i: int, j: int)
    requires g.a >= 0 && g.b >= 0 && Norm(g) > 0
    requires Swept(m, Norm(g), Gint(c, d))
    requires 0 <= i < |grid| && 0 <= j < |grid[i]|
    ensures Struck(grid, m, g, c, d + 1)[i][j] ==
      (Struck(grid, m, g, c, d)[i][j] && ProductCellOf(g, Gint(c, d)) != Gint(i, j))
  {
    StruckByStep(m, g, c, d, i, j);
  }

  lemma DiagonalHalf(m: nat, n: nat, c: nat, d: nat)
    requires n > 0 && c <= IntSqrt(Quot(m, 2 * n)) && d <= c
    ensures c * c + d * d <= Quot(m, n)
  {
    var q := Quot(m, 2 * n);
    SquareLe(c, IntSqrt(q));
    SquareLe(d, c);
    assert (2 * q) * n == q * (2 * n);
    DivFacts(m, 2 * n);
    DivMulLe(2 * q, n, m);
  }

  lemma BeyondDiagonal(m: nat, n: nat, c: nat, d: nat)
    requires n > 0 && c * c <= Quot(m, n) && d <= IntSqrt(Quot(m, n) - c * c)
    ensures c * c + d * d <= Quot(m, n)
  {
    SquareLe(d, IntSqrt(Quot(m, n) - c * c));
  }

  /** Every swept cofactor h keeps the product within the array: N(g) N(h) <= maxNorm. */
  lemma {:induction false} SweptNormBound(m: nat, n: nat, h: Gint)
    requires n > 0 && Swept(m, n, h)
    ensures Norm(h) <= Quot(m, n) && n * Norm(h) <= m
  {
    SquareLe(h.a, CUpper(m, n));
    if h.a <= IntSqrt(Quot(m, 2 * n)) {
      DiagonalHalf(m, n, h.a, h.b);
    } else {
      BeyondDiagonal(m, n, h.a, h.b);
    }
    ScaleBound(m, n, Norm(h));
  }

  /** Where the product g (c + di) lands: an octant cell of the array. */
  lemma ProductCell(m: nat, grid: seq<seq<bool>>, g: Gint, h: Gint)
    requires Shaped(m, grid) && g.a >= 0 && g.b >= 0 && Norm(g) > 0 && Swept(m, Norm(g), h)
    ensures Mul(g, h).b >= 0
    ensures ProductCellOf(g, h).a < |grid| && ProductCellOf(g, h).b < |grid[ProductCellOf(g, h).a]|
  {
    ProductUpper(g, h);
    SweptNormBound(m, Norm(g), h);
    MulNorm(g, h);
    OctFoldKeepsClass(Mul(g, h));
    assert Norm(g) * Norm(h) == Norm(Mul(g, h));
    CellInGrid(m, grid, ProductCellOf(g, h));
  }

  /** Before the first cofactor nothing is struck. */
  lemma StruckStart(grid: seq<seq<bool>>, m: nat, g: Gint)
    requires Norm(g) > 0
    ensures Struck(grid, m, g, 1, 0) == grid
  {
    var s := Struck(grid, m, g, 1, 0);
    forall i | 0 <= i < |grid|
      ensures s[i] == grid[i]
    {
      assert forall j | 0 <= j < |grid[i]| :: s[i][j] == grid[i][j];
    }
  }

  /** Finishing column c is the same as starting column c + 1. */
  lemma StruckNextColumn(grid: seq<seq<bool>>, m: nat, g: Gint, c: nat)
    requires Norm(g) > 0
    ensures Struck(grid, m, g, c, DUpper(m, Norm(g), c) + 1) == Struck(grid, m, g, c + 1, 0)
  {
    var s0, s1 := Struck(grid, m, g, c, DUpper(m, Norm(g), c) + 1), Struck(grid, m, g, c + 1, 0);
    forall i | 0 <= i < |grid|
      ensures s0[i] == s1[i]
    {
      assert forall j | 0 <= j < |grid[i]| :: s0[i][j] == s1[i][j];
    }
  }

  /** The octant cell that holds g (the early exit test and the re-marking). */
  function Home(g: Gint): (r: Gint)
    requires g.a >= 0 && g.b >= 0
    ensures InOctant(r) && Norm(r) == Norm(g) && SameClass(r, g)
  {
    OctIndex(g)
  }

  /**
   * The array after crossOffMultiples(g): unchanged if g's cell is already false;
   * otherwise every cell hit by a swept multiple is cleared and g's own cell is set
   * true again.
   */
  ghost function CrossOff(grid: seq<seq<bool>>, m: nat, g: Gint): (r: seq<seq<bool>>)
    requires Shaped(m, grid) && Sweepable(m, g)
    ensures Shaped(m, r)
  {
    var home := Home(g);
    CellInGrid(m, grid, home);
    if !grid[home.a][home.b] then grid
    else
      var s := Struck(grid, m, g, CUpper(m, Norm(g)) + 1, 0);
      s[home.a := s[home.a][home.b := true]]
  }

  /** The array after sieving with each prime of ps in turn. */
  ghost function SieveWith(grid: seq<seq<bool>>, m: nat, ps: seq<Gint>): (r: seq<seq<bool>>)
    requires Shaped(m, grid)
    requires forall k :: 0 <= k < |ps| ==> Sweepable(m, ps[k])
    ensures Shaped(m, r)
    decreases |ps|
  {
    if ps == [] then grid
    else
      var next := CrossOff(grid, m, ps[0]);
      assert forall k :: 0 <= k < |ps| - 1 ==> ps[1..][k] == ps[k + 1];
      SieveWith(next, m, ps[1..])
  }

  /** The cell that the product g h of two first-quadrant points folds onto. */
  function ProductCellOf(g: Gint, h: Gint): Gint
    requires g.a >= 0 && g.b >= 0 && h.a >= 0 && h.b >= 0
  {
    ProductUpper(g, h);
    OctFold(Mul(g, h))
  }

  /** One cell of the array after the sweep of g. */
  lemma CrossOffAt(grid: seq<seq<bool>>, m: nat, g: Gint, r: Gint)
    requires Shaped(m, grid) && Sweepable(m, g) && Cell(grid, r)
    ensures Cell(grid, Home(g)) && Cell(CrossOff(grid, m, g), r)
    ensures CrossOff(grid, m, g)[r.a][r.b] ==
      if !IsSet(grid, Home(g)) then grid[r.a][r.b]
      else if r == Home(g) then true
      else grid[r.a][r.b] && !StruckBy(m, g, r.a, r.b, CUpper(m, Norm(g)) + 1, 0)
  {
    CellInGrid(m, grid, Home(g));
  }

  /** A first-quadrant g folds onto its own cell. */
  lemma FoldHome(g: Gint)
    requires g.a >= 0 && g.b >= 0
    ensures OctFold(g) == Home(g)
  {
  }

  /** An octant cofactor within the norm bound is swept. */
  lemma {:induction false} SweptOfBound(m: nat, n: nat, h: Gint)
    requires n > 0 && 1 <= h.a && 0 <= h.b <= h.a && Norm(h) * n <= m
    ensures Swept(m, n, h)
  {
    DivMulLe(Norm(h), n, m);
    SquareNonneg(h.b);
    IntSqrtGreatest(Quot(m, n), h.a);
    if h.a > IntSqrt(Quot(m, 2 * n)) {
      IntSqrtGreatest(Quot(m, n) - h.a * h.a, h.b);
    }
  }

  /** A cell struck by the sweep is g times a cofactor that is not a unit, up to units and conjugation. */
  lemma HitFactor(m: nat, g: Gint, p: Gint, i: int, j: int, c: int, d: int) returns (h: Gint)
    requires Norm(g) > 0 && Hit(m, g, p, i, j, c, d)
    ensures Mul(g, h) == p && SameClass(Gint(i, j), p) && Swept(m, Norm(g), h)
  {
    h := Cofactor(g, p);
    MulIffCofactor(g, h, p);
  }

  /**
   * Completeness of one sweep: when g's cell is still true, every product g h with h in
   * the first octant, h not 1, and N(g) N(h) <= maxNorm has its cell cleared.
   */
  lemma {:induction false} CrossOffClearsMultiples(grid: seq<seq<bool>>, m: nat, g: Gint, h: Gint)
    requires Shaped(m, grid) && Sweepable(m, g) && IsSet(grid, Home(g))
    requires 1 <= h.a && 0 <= h.b <= h.a && h != Gint(1, 0) && Norm(g) * Norm(h) <= m
    ensures Cell(grid, ProductCellOf(g, h)) && !IsSet(CrossOff(grid, m, g), ProductCellOf(g, h))
  {
    var r := ProductCellOf(g, h);
    StruckProduct(m, grid, g, h);
    ProductAwayFromHome(g, h);
    CrossOffAt(grid, m, g, r);
  }

  lemma StruckProduct(m: nat, grid: seq<seq<bool>>, g: Gint, h: Gint)
    requires Shaped(m, grid) && Sweepable(m, g)
    requires 1 <= h.a && 0 <= h.b <= h.a && Norm(g) * Norm(h) <= m
    ensures Cell(grid, ProductCellOf(g, h))
    ensures StruckBy(m, g, ProductCellOf(g, h).a, ProductCellOf(g, h).b, CUpper(m, Norm(g)) + 1, 0)
  {
    var n := Norm(g);
    var p := Mul(g, h);
    assert Norm(h) * n == n * Norm(h);
    SweptOfBound(m, n, h);
    ProductCell(m, grid, g, h);
    MulIffCofactor(g, h, p);
    var r := OctFold(p);
    FoldPreimages(p, r.a, r.b);
  }

  lemma ProductAwayFromHome(g: Gint, h: Gint)
    requires g.a >= 0 && g.b >= 0 && Norm(g) > 0
    requires 1 <= h.a && 0 <= h.b && h != Gint(1, 0)
    ensures Mul(g, h).b >= 0 && OctFold(Mul(g, h)) != Home(g)
  {
    ProductUpper(g, h);
    MulNorm(g, h);
    NonUnitCofactor(h);
    MulLe(Norm(g), 2, Norm(h));
  }

  /**
   * Soundness of one sweep: a cell the sweep of g clears holds, up to units and
   * conjugation, g times a cofactor of norm at least 2, so it is not a Gaussian prime.
   */
  lemma {:induction false} CrossOffClearsOnlyMultiples(grid: seq<seq<bool>>, m: nat, g: Gint, r: Gint)
    requires Shaped(m, grid) && Sweepable(m, g)
    requires IsSet(grid, r) && !IsSet(CrossOff(grid, m, g), r)
    ensures exists h :: Norm(h) >= 2 && SameClass(r, Mul(g, h))
  {
    CrossOffAt(grid, m, g, r);
    var h := StruckFactor(m, g, r.a, r.b, CUpper(m, Norm(g)) + 1);
    assert h != Gint(1, 0) by {
      FoldHome(g);
      assert Mul(g, Gint(1, 0)) == g;
    }
    NonUnitCofactor(h);
  }

  /** A struck cell holds, up to units and conjugation, g times a swept cofactor. */
  lemma StruckFactor(m: nat, g: Gint, i: int, j: int, c: int) returns (h: Gint)
    requires Norm(g) > 0 && StruckBy(m, g, i, j, c, 0)
    ensures Mul(g, h).b >= 0 && OctFold(Mul(g, h)) == Gint(i, j)
    ensures SameClass(Gint(i, j), Mul(g, h)) && Swept(m, Norm(g), h)
  {
    var p: Gint;
    if Hit(m, g, Gint(i, j), i, j, c, 0) {
      p := Gint(i, j);
    } else if Hit(m, g, Gint(j, i), i, j, c, 0) {
      p := Gint(j, i);
    } else if Hit(m, g, Gint(-j, i), i, j, c, 0) {
      p := Gint(-j, i);
    } else {
      p := Gint(-i, j);
    }
    h := HitFactor(m, g, p, i, j, c, 0);
  }

  /** The sweep of g never sets a cell true, and g's own cell keeps its value. */
  lemma CrossOffMonotone(grid: seq<seq<bool>>, m: nat, g: Gint, r: Gint)
    requires Shaped(m, grid) && Sweepable(m, g)
    ensures IsSet(CrossOff(grid, m, g), r) ==> IsSet(grid, r)
    ensures IsSet(CrossOff(grid, m, g), Home(g)) == IsSet(grid, Home(g))
  {
    CellInGrid(m, grid, Home(g));
  }

  /** Sweeping with the same g twice changes nothing the second time. */
  lemma {:induction false} CrossOffIdempotent(grid: seq<seq<bool>>, m: nat, g: Gint)
    requires Shaped(m, grid) && Sweepable(m, g)
    ensures CrossOff(CrossOff(grid, m, g), m, g) == CrossOff(grid, m, g)
  {
    var g1 := CrossOff(grid, m, g);
    var g2 := CrossOff(g1, m, g);
    CrossOffMonotone(grid, m, g, Home(g));
    forall i | 0 <= i < |g1|
      ensures g2[i] == g1[i]
    {
      forall j | 0 <= j < |g1[i]|
        ensures g2[i][j] == g1[i][j]
      {
        CrossOffAt(g1, m, g, Gint(i, j));
        CrossOffAt(grid, m, g, Gint(i, j));
      }
    }
  }


  // ---------------------------------------------------------------------------
  // The whole sieve

  /** Sieving never sets a cell true. */
  lemma {:induction false} SieveWithMonotone(grid: seq<seq<bool>>, m: nat, ps: seq<Gint>, r: Gint)
    requires Shaped(m, grid) && forall k :: 0 <= k < |ps| ==> Sweepable(m, ps[k])
    ensures IsSet(SieveWith(grid, m, ps), r) ==> IsSet(grid, r)
    decreases |ps|
  {
    if ps != [] {
      CrossOffMonotone(grid, m, ps[0], r);
      SieveWithTail(m, ps);
      SieveWithMonotone(CrossOff(grid, m, ps[0]), m, ps[1..], r);
    }
  }

  /** Soundness of the sieve: every cell it clears holds a composite. */
  lemma {:induction false} SieveWithClearsOnlyComposites(grid: seq<seq<bool>>, m: nat, ps: seq<Gint>, r: Gint)
    requires Shaped(m, grid) && forall k :: 0 <= k < |ps| ==> Sweepable(m, ps[k]) && Norm(ps[k]) >= 2
    requires IsSet(grid, r) && !IsSet(SieveWith(grid, m, ps), r)
    ensures Composite(r)
    decreases |ps|
  {
    SieveWithTail(m, ps);
    var g1 := CrossOff(grid, m, ps[0]);
    if IsSet(g1, r) {
      assert forall k :: 0 <= k < |ps| - 1 ==> ps[1..][k] == ps[k + 1];
      SieveWithClearsOnlyComposites(g1, m, ps[1..], r);
    } else {
      CrossOffClearsOnlyMultiples(grid, m, ps[0], r);
      var h :| Norm(h) >= 2 && SameClass(r, Mul(ps[0], h));
      assert Norm(ps[0]) >= 2;
    }
  }

  /** Sieving with ps is sieving with its first k primes, then with the rest. */
  lemma {:induction false} SieveWithSplit(grid: seq<seq<bool>>, m: nat, ps: seq<Gint>, k: nat)
    requires Shaped(m, grid) && forall k :: 0 <= k < |ps| ==> Sweepable(m, ps[k])
    requires k <= |ps|
    ensures forall i :: 0 <= i < |ps[k..]| ==> Sweepable(m, ps[k..][i])
    ensures SieveWith(grid, m, ps) == SieveWith(SieveWith(grid, m, ps[..k]), m, ps[k..])
    decreases k
  {
    assert forall i :: 0 <= i < |ps[k..]| ==> ps[k..][i] == ps[i + k];
    assert forall i :: 0 <= i < k ==> ps[..k][i] == ps[i];
    if k > 0 {
      SieveWithTail(m, ps);
      SieveWithSplit(CrossOff(grid, m, ps[0]), m, ps[1..], k - 1);
      assert ps[1..][..k - 1] == ps[..k][1..];
      assert ps[1..][k - 1..] == ps[k..];
    } else {
      assert ps[..0] == [] && ps[0..] == ps;
    }
  }

  /** The array when the k-th small prime's turn comes. */
  ghost function SievedBefore(grid: seq<seq<bool>>, m: nat, ps: seq<Gint>, k: nat): seq<seq<bool>>
    requires Shaped(m, grid) && forall k :: 0 <= k < |ps| ==> Sweepable(m, ps[k])
    requires k <= |ps|
  {
    assert forall i :: 0 <= i < k ==> ps[..k][i] == ps[i];
    SieveWith(grid, m, ps[..k])
  }

  /**
   * Completeness for each prime that is still marked when its turn comes: after the
   * whole sieve, every octant multiple g h (h not 1) within the bound has a false cell.
   */
  lemma {:induction false} SieveWithClearsMultiples(grid: seq<seq<bool>>, m: nat, ps: seq<Gint>, k: nat, h: Gint)
    requires Shaped(m, grid) && forall k :: 0 <= k < |ps| ==> Sweepable(m, ps[k])
    requires k < |ps| && IsSet(SievedBefore(grid, m, ps, k), Home(ps[k]))
    requires 1 <= h.a && 0 <= h.b <= h.a && h != Gint(1, 0) && Norm(ps[k]) * Norm(h) <= m
    ensures !IsSet(SieveWith(grid, m, ps), ProductCellOf(ps[k], h))
  {
    SieveWithSplit(grid, m, ps, k);
    var gk := SieveWith(grid, m, ps[..k]);
    CrossOffClearsMultiples(gk, m, ps[k], h);
    assert ps[k..][0] == ps[k];
    SieveWithTail(m, ps[k..]);
    assert ps[k..][1..] == ps[k + 1..];
    SieveWithMonotone(CrossOff(gk, m, ps[k]), m, ps[k + 1..], ProductCellOf(ps[k], h));
  }

  // ---------------------------------------------------------------------------
  // Scanning the octant: small-prime candidates and harvest

  /** bUpper of setSmallPrimes and setBigPrimes: a - 1 up to the diagonal, else isqrt(m - a^2). */
  ghost function BUpper(m: nat, a: nat): int
  {
    if a <= IntSqrt(m / 2) then a - 1
    else if a * a <= m then IntSqrt(m - a * a)
    else -1
  }

  /** The scan order of the octant loops: columns a, a + 1, ... up to isqrt(m), each from b = 0 to bUpper. */
  ghost function Scan(m: nat, a: nat): seq<Gint>
    decreases IntSqrt(m) + 1 - a
  {
    if a > IntSqrt(m) then [] else Column(a, BUpper(m, a)) + Scan(m, a + 1)
  }

  /** Column a of the scan holds exactly the points a + bi, 0 <= b < a, of norm at most m. */
  lemma {:induction false} BUpperExact(m: nat, a: nat, b: nat)
    requires 1 <= a <= IntSqrt(m)
    ensures b <= BUpper(m, a) <==> b < a && a * a + b * b <= m
  {
    ShapeExact(m, a, b);
    if a > IntSqrt(m / 2) {
      HalfSquare(m, a);
      if b == a {
        assert a * a + b * b == 2 * (a * a);
      }
    } else {
      SquareLe(a, IntSqrt(m / 2));
      if b < a {
        SquareLe(b, a);
      }
    }
    SquareLe(a, IntSqrt(m));
  }

  /** The scan from column a0 >= 1 visits exactly the points a + bi with a >= a0, 0 <= b < a, norm at most m. */
  lemma {:induction false} ScanMembers(m: nat, a0: nat, g: Gint)
    requires a0 >= 1
    ensures g in Scan(m, a0) <==> a0 <= g.a && 0 <= g.b < g.a && Norm(g) <= m
    decreases IntSqrt(m) + 1 - a0
  {
    if a0 > IntSqrt(m) {
      if a0 <= g.a && 0 <= g.b && Norm(g) <= m {
        SquareNonneg(g.b);
        IntSqrtGreatest(m, g.a);
      }
    } else {
      ScanMembers(m, a0 + 1, g);
      var col := Column(a0, BUpper(m, a0));
      if g.a == a0 && g.b >= 0 {
        BUpperExact(m, a0, g.b);
        if g.b <= BUpper(m, a0) {
          assert col[g.b] == g;
        }
      }
    }
  }

  /** Each point followed by its flip when it is off the real axis. */
  function WithFlips(s: seq<Gint>): (r: seq<Gint>)
    ensures |r| >= |s|
  {
    if s == [] then []
    else [s[0]] + (if s[0].b != 0 then [Flip(s[0])] else []) + WithFlips(s[1..])
  }

  lemma {:induction false} WithFlipsAppend(s: seq<Gint>, x: Gint)
    ensures WithFlips(s + [x]) == WithFlips(s) + [x] + (if x.b != 0 then [Flip(x)] else [])
  {
    if s != [] {
      assert (s + [x])[1..] == s[1..] + [x];
      WithFlipsAppend(s[1..], x);
    } else {
      assert WithFlips([x]) == [x] + (if x.b != 0 then [Flip(x)] else []) + WithFlips([]);
    }
  }

  /** g is in WithFlips(s) exactly when g is in s or g is the flip of a point of s off the real axis. */
  lemma {:induction false} WithFlipsMembers(s: seq<Gint>, g: Gint)
    ensures g in WithFlips(s) <==> g in s || (g.a != 0 && Flip(g) in s)
  {
    if s != [] {
      WithFlipsMembers(s[1..], g);
      assert s == [s[0]] + s[1..];
      assert Flip(Flip(g)) == g;
    }
  }

  /** The primes of the small-prime list for maxNorm m: 1 + i, then the sorted candidates, each followed by its flip. */
  ghost function SmallPrimeList(m: nat): seq<Gint>
  {
    [Gint(1, 1)] + WithFlips(SortedOf(Scan(IntSqrt(m), 2)))
  }

  /** What setBigPrimes collects: 1 + i when maxNorm >= 2, then the surviving off-diagonal cells and their flips. */
  ghost function Harvest(m: nat, grid: seq<seq<bool>>): seq<Gint>
  {
    (if m >= 2 then [Gint(1, 1)] else []) + WithFlips(Survivors(grid, Scan(m, 2)))
  }

  /**
   * The harvest holds 1 + i (when maxNorm >= 2) and exactly the first-quadrant points off
   * the diagonal and off the imaginary axis whose octant cell survived.
   */
  lemma {:induction false} HarvestMembers(m: nat, grid: seq<seq<bool>>, g: Gint)
    ensures g in Harvest(m, grid) <==>
      (m >= 2 && g == Gint(1, 1)) ||
      (g.a > 0 && g.b >= 0 && g.a != g.b && Home(g).a >= 2 && Norm(g) <= m && IsSet(grid, Home(g)))
  {
    var sv := Survivors(grid, Scan(m, 2));
    WithFlipsMembers(sv, g);
    SurvivorsMembers(grid, Scan(m, 2), g);
    SurvivorsMembers(grid, Scan(m, 2), Flip(g));
    ScanMembers(m, 2, g);
    ScanMembers(m, 2, Flip(g));
    FlipInvolution(g);
  }

  /** The scan visits no point twice: columns hold different a, and a column different b. */
  lemma {:induction false} ScanDistinct(m: nat, a0: nat)
    requires a0 >= 1
    ensures Distinct(Scan(m, a0))
    decreases IntSqrt(m) + 1 - a0
  {
    if a0 <= IntSqrt(m) {
      ScanDistinct(m, a0 + 1);
      var col := Column(a0, BUpper(m, a0));
      forall x | x in col
        ensures x !in Scan(m, a0 + 1)
      {
        ScanMembers(m, a0 + 1, x);
      }
      DistinctConcat(col, Scan(m, a0 + 1));
    }
  }

  /** Adding the flips to points strictly below the diagonal repeats nothing: the flips lie strictly above it. */
  lemma {:induction false} WithFlipsDistinct(s: seq<Gint>)
    requires Distinct(s) && forall k :: 0 <= k < |s| ==> 0 <= s[k].b < s[k].a
    ensures Distinct(WithFlips(s))
  {
    if s != [] {
      var x, rest := s[0], s[1..];
      DistinctTail(s);
      assert forall k :: 0 <= k < |rest| ==> rest[k] == s[k + 1];
      WithFlipsDistinct(rest);
      WithFlipsMembers(rest, x);
      WithFlipsMembers(rest, Flip(x));
      FlipInvolution(x);
      var head := [x] + (if x.b != 0 then [Flip(x)] else []);
      DistinctConcat(head, WithFlips(rest));
    }
  }

  /** The harvest lists no point twice. */
  lemma HarvestDistinct(m: nat, grid: seq<seq<bool>>)
    ensures Distinct(Harvest(m, grid))
  {
    var sv := Survivors(grid, Scan(m, 2));
    ScanDistinct(m, 2);
    SurvivorsDistinct(grid, Scan(m, 2));
    forall k | 0 <= k < |sv|
      ensures 0 <= sv[k].b < sv[k].a
    {
      SurvivorsMembers(grid, Scan(m, 2), sv[k]);
      ScanMembers(m, 2, sv[k]);
    }
    WithFlipsDistinct(sv);
    WithFlipsMembers(sv, Gint(1, 1));
    SurvivorsMembers(grid, Scan(m, 2), Gint(1, 1));
    ScanMembers(m, 2, Gint(1, 1));
    DistinctConcat(if m >= 2 then [Gint(1, 1)] else [], WithFlips(sv));
  }

  /** The bounds of the c loop of crossOffMultiples (src/OctantSieve.cpp:79, 82). */
  method SweepBounds(m: nat, n: nat) returns (cMax: nat, inter: nat)
    requires n > 0
    ensures cMax == CUpper(m, n) && inter == Diagonal(m, n)
  {
    var twoN := 2 * n;
    var q1 := Quot(m, n);
    var q2 := Quot(m, twoN);
    cMax := Isqrt(q1);
    inter := Isqrt(q2);
  }

  /** Every small prime can be swept and is not a unit. */
  ghost predicate SmallPrimesValid(m: nat, ps: seq<Gint>)
  {
    forall k :: 0 <= k < |ps| ==> Sweepable(m, ps[k]) && Norm(ps[k]) >= 2
  }

  lemma CandidateValid(m: nat, y: Gint)
    requires y in Scan(IntSqrt(m), 2)
    ensures Sweepable(m, y) && Norm(y) >= 2
    ensures Sweepable(m, Flip(y)) && Norm(Flip(y)) >= 2
  {
    IntSqrtBelow(m);
    ScanMembers(IntSqrt(m), 2, y);
    FlipInvolution(y);
    SquareLe(2, y.a);
    SquareNonneg(y.b);
  }

  /** The small-prime list for maxNorm >= 2 consists of sweepable non-units of norm at most m. */
  lemma {:induction false} SmallPrimeListValid(m: nat)
    requires m >= 2
    ensures SmallPrimesValid(m, SmallPrimeList(m))
  {
    var cand := Scan(IntSqrt(m), 2);
    var sorted := SortedOf(cand);
    var ps := SmallPrimeList(m);
    forall k | 0 <= k < |ps|
      ensures Sweepable(m, ps[k]) && Norm(ps[k]) >= 2
    {
      var x := ps[k];
      if k > 0 {
        assert x in WithFlips(sorted);
        WithFlipsMembers(sorted, x);
        if x in sorted {
          assert x in multiset(cand);
          CandidateValid(m, x);
        } else {
          assert Flip(x) in multiset(cand);
          CandidateValid(m, Flip(x));
          FlipInvolution(x);
        }
      }
    }
  }

  /** After allocation the cells are the octant points of norm at most m; those of 0 and 1 are false, all others true. */
  lemma {:induction false} InitialGridCells(m: nat, r: Gint)
    ensures Cell(InitialGrid(m), r) <==> InOctant(r) && Norm(r) <= m
    ensures IsSet(InitialGrid(m), r) <==> InOctant(r) && 2 <= Norm(r) <= m
  {
    if r.a >= 0 && r.b >= 0 {
      ShapeExact(m, r.a, r.b);
      SquareNonneg(r.b);
      if r.a >= 2 { SquareLe(2, r.a); }
    }
  }

  lemma {:induction false} WithFlipsConcat(s: seq<Gint>, t: seq<Gint>)
    ensures WithFlips(s + t) == WithFlips(s) + WithFlips(t)
  {
    if s != [] {
      assert (s + t)[1..] == s[1..] + t;
      WithFlipsConcat(s[1..], t);
    } else {
      assert s + t == t;
    }
  }

  lemma ScanStep(m: nat, a: nat)
    requires a <= IntSqrt(m)
    ensures Scan(m, a) == Column(a, BUpper(m, a)) + Scan(m, a + 1)
  {
  }

  lemma ScanEnd(m: nat, a: nat)
    requires a > IntSqrt(m)
    ensures Scan(m, a) == []
  {
  }

  /** The points of column a of the scan have cells in a shaped array. */
  lemma ScanCell(m: nat, grid: seq<seq<bool>>, a: nat, b: nat)
    requires Shaped(m, grid) && 1 <= a <= IntSqrt(m) && b <= BUpper(m, a)
    ensures a < |grid| && b < |grid[a]|
  {
    BUpperExact(m, a, b);
    ShapeExact(m, a, b);
  }

  /** What one scanned cell contributes: nothing when false, else the point and, off the real axis, its flip. */
  function PrimeAndFlip(alive: bool, g: Gint): (r: seq<Gint>)
    ensures |r| == if !alive then 0 else if g.b != 0 then 2 else 1
  {
    if !alive then [] else [g] + (if g.b != 0 then [Flip(g)] else [])
  }

  /** Scanning one more point of a column adds it and its flip to the harvest when its cell is true. */
  lemma HarvestStep(grid: seq<seq<bool>>, a: nat, b: nat)
    requires a < |grid| && b < |grid[a]|
    ensures WithFlips(Survivors(grid, Column(a, b))) == WithFlips(Survivors(grid, Column(a, b - 1))) +
      PrimeAndFlip(grid[a][b], Gint(a, b))
  {
    var g := Gint(a, b);
    ColumnStep(a, b);
    SurvivorsAppend(grid, Column(a, b - 1), g);
    var sv := Survivors(grid, Column(a, b - 1));
    WithFlipsAppend(sv, g);
    if !grid[a][b] {
      assert sv + [] == sv;
    }
  }

  lemma HarvestAccumulate(grid: seq<seq<bool>>, acc: seq<Gint>, seen: seq<Gint>, column: seq<Gint>)
    requires acc == WithFlips(Survivors(grid, seen))
    ensures acc + WithFlips(Survivors(grid, column)) == WithFlips(Survivors(grid, seen + column))
  {
    SurvivorsConcat(grid, seen, column);
    WithFlipsConcat(Survivors(grid, seen), Survivors(grid, column));
  }

  /** bUpper as the source computes it, from the intersection point isqrt(m / 2). */
  method ComputeBUpper(m: nat, a: nat, inter: nat) returns (bUpper: int)
    requires inter == IntSqrt(m / 2) && a <= IntSqrt(m)
    ensures bUpper == BUpper(m, a)
  {
    if a <= inter {
      bUpper := a - 1;
    } else {
      SquareLe(a, IntSqrt(m));
      bUpper := Isqrt(m - a * a);
    }
  }

  /** The nested loops of setSmallPrimes (src/OctantSieve.cpp:20-28), which list the scan of radius isqrt(maxNorm). */
  method ScanCandidates(rt: nat) returns (temp: seq<Gint>)
    ensures temp == Scan(rt, 2)
  {
    var inter, aMax := ScanBounds(rt);
    temp := [];
    var a := 2;
    while a <= aMax
      invariant 2 <= a && (a <= aMax + 1 || aMax < 2)
      invariant temp + Scan(rt, a) == Scan(rt, 2)
    {
      var column := CandidateColumn(rt, a, inter);
      ScanStep(rt, a);
      ScanAccumulate(temp, column, Scan(rt, a + 1));
      temp := temp + column;
      a := a + 1;
    }
    ScanEnd(rt, a);
    assert temp + [] == temp;
  }

  /** The inner loop of setSmallPrimes (src/OctantSieve.cpp:23-27): the points of column a. */
  method CandidateColumn(rt: nat, a: nat, inter: nat) returns (column: seq<Gint>)
    requires 1 <= a <= IntSqrt(rt) && inter == IntSqrt(rt / 2)
    ensures column == Column(a, BUpper(rt, a))
  {
    var bUpper := ComputeBUpper(rt, a, inter);
    column := [];
    var b := 0;
    while b <= bUpper
      invariant 0 <= b && (b <= bUpper + 1 || b == 0)
      invariant column == Column(a, b - 1)
    {
      ColumnStep(a, b);
      column := column + [Gint(a, b)];
      b := b + 1;
    }
    assert column == Column(a, bUpper) by {
      if bUpper >= 0 {
        assert b == bUpper + 1;
      }
    }
  }


  /** Any sorted permutation of the candidate scan is the sorted candidate list. */
  lemma CandidatesSorted(rt: nat, temp: seq<Gint>, sorted: seq<Gint>)
    requires temp == Scan(rt, 2) && Sorted(sorted) && multiset(sorted) == multiset(temp)
    ensures sorted == SortedOf(Scan(rt, 2))
  {
    forall k | 0 <= k < |temp|
      ensures temp[k].b >= 0
    {
      ScanMembers(rt, 2, temp[k]);
    }
    SortedIsSortedOf(temp, sorted);
  }

  /** The candidates of setSmallPrimes sorted by the gint order (src/OctantSieve.cpp:17-30). */
  method SortedCandidates(m: nat) returns (sorted: seq<Gint>)
    ensures sorted == SortedOf(Scan(IntSqrt(m), 2))
  {
    var rt := Isqrt(m);
    var temp := ScanCandidates(rt);
    sorted := SortGints(temp);
    CandidatesSorted(rt, temp, sorted);
  }

  /** The loop bounds of the octant scans: the diagonal crossing isqrt(m / 2) and the last column isqrt(m). */
  method ScanBounds(m: nat) returns (inter: nat, aMax: nat)
    ensures inter == IntSqrt(m / 2) && aMax == IntSqrt(m)
  {
    inter := Isqrt(m / 2);
    aMax := Isqrt(m);
  }

  /** The loops of setBigPrimes (src/OctantSieve.cpp:124-137): the true cells of the scan, each followed by its flip. */
  method HarvestScan(m: nat, grid: seq<seq<bool>>) returns (found: seq<Gint>)
    requires Shaped(m, grid)
    ensures found == WithFlips(Survivors(grid, Scan(m, 2)))
  {
    var inter, aMax := ScanBounds(m);
    ghost var seen: seq<Gint> := [];
    found := [];
    var a := 2;
    while a <= aMax
      invariant 2 <= a && (a <= aMax + 1 || aMax < 2)
      invariant seen + Scan(m, a) == Scan(m, 2)
      invariant found == WithFlips(Survivors(grid, seen))
    {
      ghost var column := Column(a, BUpper(m, a));
      HarvestAccumulate(grid, found, seen, column);
      var more := HarvestColumn(m, grid, a, inter);
      found := found + more;
      ScanStep(m, a);
      ScanAccumulate(seen, column, Scan(m, a + 1));
      seen := seen + column;
      a := a + 1;
    }
    ScanEnd(m, a);
    assert seen + [] == seen;
  }

  /** The inner loop of setBigPrimes (src/OctantSieve.cpp:128-136) over column a. */
  method HarvestColumn(m: nat, grid: seq<seq<bool>>, a: nat, inter: nat) returns (found: seq<Gint>)
    requires Shaped(m, grid) && 1 <= a <= IntSqrt(m) && inter == IntSqrt(m / 2)
    ensures found == WithFlips(Survivors(grid, Column(a, BUpper(m, a))))
  {
    var bUpper := ComputeBUpper(m, a, inter);
    if bUpper >= 0 {
      ScanCell(m, grid, a, bUpper);
    }
    found := [];
    var b := 0;
    while b <= bUpper
      invariant 0 <= b && (b <= bUpper + 1 || b == 0)
      invariant found == WithFlips(Survivors(grid, Column(a, b - 1)))
    {
      HarvestStep(grid, a, b);
      found := found + PrimeAndFlip(grid[a][b], Gint(a, b));
      b := b + 1;
    }
    assert Column(a, b - 1) == Column(a, bUpper) by {
      if bUpper < 0 {
        assert b == 0;
      } else {
        assert b - 1 == bUpper;
      }
    }
  }

  /** The loops of getCountBigPrimes (src/OctantSieve.cpp:152-164): how many points setBigPrimes would add after 1 + i. */
  method CountScan(m: nat, grid: seq<seq<bool>>) returns (count: nat)
    requires Shaped(m, grid)
    ensures count == |WithFlips(Survivors(grid, Scan(m, 2)))|
  {
    var inter, aMax := ScanBounds(m);
    ghost var seen: seq<Gint> := [];
    count := 0;
    var a := 2;
    while a <= aMax
      invariant 2 <= a && (a <= aMax + 1 || aMax < 2)
      invariant seen + Scan(m, a) == Scan(m, 2)
      invariant count == |WithFlips(Survivors(grid, seen))|
    {
      ghost var column := Column(a, BUpper(m, a));
      HarvestAccumulate(grid, WithFlips(Survivors(grid, seen)), seen, column);
      var more := CountColumn(m, grid, a, inter);
      count := count + more;
      ScanStep(m, a);
      ScanAccumulate(seen, column, Scan(m, a + 1));
      seen := seen + column;
      a := a + 1;
    }
    ScanEnd(m, a);
    assert seen + [] == seen;
  }

  /** The inner loop of getCountBigPrimes (src/OctantSieve.cpp:156-163) over column a. */
  method CountColumn(m: nat, grid: seq<seq<bool>>, a: nat, inter: nat) returns (count: nat)
    requires Shaped(m, grid) && 1 <= a <= IntSqrt(m) && inter == IntSqrt(m / 2)
    ensures count == |WithFlips(Survivors(grid, Column(a, BUpper(m, a))))|
  {
    var bUpper := ComputeBUpper(m, a, inter);
    if bUpper >= 0 {
      ScanCell(m, grid, a, bUpper);
    }
    count := 0;
    var b := 0;
    while b <= bUpper
      invariant 0 <= b && (b <= bUpper + 1 || b == 0)
      invariant count == |WithFlips(Survivors(grid, Column(a, b - 1)))|
    {
      HarvestStep(grid, a, b);
      ghost var added := PrimeAndFlip(grid[a][b], Gint(a, b));
      assert |WithFlips(Survivors(grid, Column(a, b)))| == count + |added|;
      if grid[a][b] {
        count := count + 1;
        if b != 0 {
          count := count + 1;
        }
      }
      b := b + 1;
    }
    assert Column(a, b - 1) == Column(a, bUpper) by {
      if bUpper < 0 {
        assert b == 0;
      } else {
        assert b - 1 == bUpper;
      }
    }
  }

  /** The array after run(): allocated, then sieved with the small-prime list. */
  ghost function Sieved(m: nat): (r: seq<seq<bool>>)
    requires m >= 2
    ensures Shaped(m, r)
  {
    SmallPrimeListValid(m);
    SieveWith(InitialGrid(m), m, SmallPrimeList(m))
  }

  /** The octant points that are Gaussian primes other than 1 + i survive the whole run. */
  lemma {:induction false} PrimesSurvive(m: nat, r: Gint)
    requires m >= 2 && InOctant(r) && 2 <= Norm(r) <= m && !Composite(r)
    ensures IsSet(Sieved(m), r)
  {
    SmallPrimeListValid(m);
    InitialGridCells(m, r);
    if !IsSet(SieveWith(InitialGrid(m), m, SmallPrimeList(m)), r) {
      SieveWithClearsOnlyComposites(InitialGrid(m), m, SmallPrimeList(m), r);
    }
  }

  /**
   * A Gaussian prime of the first quadrant, off the imaginary axis, of norm 2 to
   * isqrt(m), is in the small-prime list, and so is its flip when it is off the real axis.
   */
  lemma {:induction false} PrimeListed(m: nat, p: Gint)
    requires p.a > 0 && p.b >= 0 && 2 <= Norm(p) <= IntSqrt(m) && !Composite(p)
    ensures p in SmallPrimeList(m) && (p.b != 0 ==> Flip(p) in SmallPrimeList(m))
  {
    if p != Gint(1, 1) {
      if p.a == p.b {
        DiagonalComposite(p);
      }
      var sorted := SortedOf(Scan(IntSqrt(m), 2));
      FlipInvolution(p);
      var y := if p.b < p.a then p else Flip(p);
      assert y == p || y == Flip(p);
      CandidateListed(m, y);
      WithFlipsMembers(sorted, p);
      WithFlipsMembers(sorted, Flip(p));
      assert p in WithFlips(sorted) && (p.b != 0 ==> Flip(p) in WithFlips(sorted));
    }
  }

  /** A point below the diagonal of norm at least 2 lies in column 2 or beyond. */
  lemma BelowDiagonalColumn(y: Gint)
    requires 0 <= y.b < y.a && Norm(y) >= 2
    ensures y.a >= 2
  {
  }

  /** A point below the diagonal of norm 2 to isqrt(m) is among the sorted candidates. */
  lemma CandidateListed(m: nat, y: Gint)
    requires 0 <= y.b < y.a && 2 <= Norm(y) <= IntSqrt(m)
    ensures y in SortedOf(Scan(IntSqrt(m), 2))
  {
    BelowDiagonalColumn(y);
    ScanMembers(IntSqrt(m), 2, y);
    assert y in multiset(Scan(IntSqrt(m), 2));
    assert y in multiset(SortedOf(Scan(IntSqrt(m), 2)));
  }

  /** A Gaussian prime of the small-prime list still has its cell when its turn comes: the sweeps before it clear only composites. */
  lemma {:induction false} PrimeSetAtTurn(m: nat, k: nat)
    requires m >= 2 && k < |SmallPrimeList(m)| && !Composite(SmallPrimeList(m)[k])
    ensures SmallPrimesValid(m, SmallPrimeList(m)) &&
      IsSet(SievedBefore(InitialGrid(m), m, SmallPrimeList(m), k), Home(SmallPrimeList(m)[k]))
  {
    var ps := SmallPrimeList(m);
    SmallPrimeListValid(m);
    var home := Home(ps[k]);
    var before := ps[..k];
    assert forall i :: 0 <= i < |before| ==> before[i] == ps[i];
    InitialGridCells(m, home);
    if home != ps[k] && Composite(home) {
      FlipComposite(ps[k]);
    }
    if !IsSet(SieveWith(InitialGrid(m), m, before), home) {
      SieveWithClearsOnlyComposites(InitialGrid(m), m, before, home);
    }
  }

  /**
   * Completeness of the run: every composite of the octant of norm at most m has a false
   * cell. Its first-quadrant Gaussian prime factor p has N(p)^2 <= m, so p or its flip is
   * a small prime that is still marked at its turn, and that sweep visits the composite.
   */
  lemma {:induction false} CompositesCleared(m: nat, r: Gint)
    requires m >= 2 && InOctant(r) && Norm(r) <= m && Composite(r)
    ensures !IsSet(Sieved(m), r)
  {
    var p, q := FirstQuadrantPrimeFactor(r);
    IntSqrtGreatest(m, Norm(p));
    PrimeListed(m, p);
    var g, h := OctantCofactor(p, q, r);
    FlipInvolution(p);
    if g != p && Composite(g) {
      FlipComposite(p);
    }
    var ps := SmallPrimeList(m);
    var k :| 0 <= k < |ps| && ps[k] == g;
    PrimeSetAtTurn(m, k);
    assert h != Gint(1, 0);
    SieveWithClearsMultiples(InitialGrid(m), m, ps, k, h);
  }

  /** After the run, an octant point of norm 2 to m has a true cell exactly when it is a Gaussian prime. */
  lemma SievedExact(m: nat, r: Gint)
    requires m >= 2 && InOctant(r) && 2 <= Norm(r) <= m
    ensures IsSet(Sieved(m), r) <==> !Composite(r)
  {
    if Composite(r) {
      CompositesCleared(m, r);
    } else {
      PrimesSurvive(m, r);
    }
  }

  /** After the run, a stored cell of norm at least 2 is on exactly when it is not composite. */
  lemma SievedAllExact(m: nat)
    requires m >= 2
    ensures forall r :: InOctant(r) && 2 <= Norm(r) <= m ==> (IsSet(Sieved(m), r) <==> !Composite(r))
  {
    forall r | InOctant(r) && 2 <= Norm(r) <= m
      ensures IsSet(Sieved(m), r) <==> !Composite(r)
    {
      SievedExact(m, r);
    }
  }

  /**
   * What setBigPrimes collects after the run is exactly the Gaussian primes of the first
   * quadrant, off the imaginary axis, of norm at most m.
   */
  lemma {:induction false} HarvestIsPrimes(m: nat, g: Gint)
    requires m >= 2
    ensures g in Harvest(m, Sieved(m)) <==> g.a > 0 && g.b >= 0 && 2 <= Norm(g) <= m && !Composite(g)
  {
    HarvestMembers(m, Sieved(m), g);
    if g == Gint(1, 1) {
      NormTwoFivePrime(g);
    } else if g.a > 0 && g.b >= 0 {
      HomeCellExact(m, g);
    }
  }

  /** Off 1 + i, the harvest's test on the octant cell of a first-quadrant point is exactly "a Gaussian prime of norm 2 to m". */
  lemma HomeCellExact(m: nat, g: Gint)
    requires m >= 2 && g.a > 0 && g.b >= 0 && g != Gint(1, 1)
    ensures (g.a != g.b && Home(g).a >= 2 && Norm(g) <= m && IsSet(Sieved(m), Home(g))) <==>
      (2 <= Norm(g) <= m && !Composite(g))
  {
    var home := Home(g);
    if 2 <= Norm(g) <= m {
      SievedExact(m, home);
      HomeClass(g);
      HomeColumn(g);
      if g.a == g.b {
        DiagonalComposite(g);
      }
    } else if Norm(g) <= m {
      LowNormColumn(g);
    }
  }

  /** A point and its octant cell are composite together. */
  lemma HomeClass(g: Gint)
    requires g.a >= 0 && g.b >= 0
    ensures Composite(Home(g)) <==> Composite(g)
  {
    var home := Home(g);
    FlipInvolution(g);
    if home != g {
      FlipCompositeIff(g);
    }
  }

  /** The octant cell of a first-quadrant point of norm at least 2 other than 1 + i lies in column 2 or beyond. */
  lemma HomeColumn(g: Gint)
    requires g.a > 0 && g.b >= 0 && g != Gint(1, 1) && Norm(g) >= 2
    ensures Home(g).a >= 2
  {
    FlipInvolution(g);
  }

  /** A first-quadrant point of norm below 2 has its octant cell in column 1 or below. */
  lemma LowNormColumn(g: Gint)
    requires g.a > 0 && g.b >= 0 && Norm(g) < 2
    ensures Home(g).a < 2
  {
    SquareNonneg(Home(g).b);
  }

  /**
   * The list holds Gaussian primes only, and every Gaussian prime a + bi with a > 0,
   * b >= 0 and norm 2 to M.
   */
  ghost predicate AllPrimesTo(ps: seq<Gint>, M: nat)
  {
    (forall k :: 0 <= k < |ps| ==> !Composite(ps[k])) &&
    (forall p: Gint :: p.a > 0 && p.b >= 0 && 2 <= Norm(p) <= M && !Composite(p) ==> p in ps)
  }

  /** Any ordering of the harvest of radius M lists exactly the Gaussian primes a + bi with a > 0, b >= 0 and norm 2 to M. */
  lemma HarvestListsAllPrimes(M: nat, ps: seq<Gint>)
    requires M >= 2 && multiset(ps) == multiset(Harvest(M, Sieved(M)))
    ensures AllPrimesTo(ps, M)
  {
    forall k | 0 <= k < |ps|
      ensures !Composite(ps[k])
    {
      assert ps[k] in multiset(Harvest(M, Sieved(M)));
      HarvestIsPrimes(M, ps[k]);
    }
    forall p: Gint | p.a > 0 && p.b >= 0 && 2 <= Norm(p) <= M && !Composite(p)
      ensures p in ps
    {
      HarvestIsPrimes(M, p);
      assert p in multiset(ps);
    }
  }

  class OctantSieve {
    const maxNorm: nat
    var smallPrimes: seq<Gint>
    var bigPrimes: seq<Gint>
    var sieveArray: seq<seq<bool>>

    constructor (x: nat)
      ensures maxNorm == x && smallPrimes == [] && bigPrimes == [] && sieveArray == []
    {
      maxNorm := x;
      smallPrimes := [];
      bigPrimes := [];
      sieveArray := [];
    }

    /**
     * setSmallPrimes (src/OctantSieve.cpp:10-39): 1 + i, then the octant points a + bi
     * with a >= 2, b < a and norm at most isqrt(maxNorm) sorted by the gint order, each
     * followed by its flip when b != 0.
     */
    method SetSmallPrimes()
      modifies this`smallPrimes
      ensures smallPrimes == old(smallPrimes) + SmallPrimeList(maxNorm)
    {
      smallPrimes := smallPrimes + [Gint(1, 1)];
      var sorted := SortedCandidates(maxNorm);
      AppendWithFlips(sorted);
    }

    /** The last loop of setSmallPrimes (src/OctantSieve.cpp:33-38): each point, then its flip when b != 0. */
    method AppendWithFlips(sorted: seq<Gint>)
      modifies this`smallPrimes
      ensures smallPrimes == old(smallPrimes) + WithFlips(sorted)
    {
      assert WithFlips(sorted[..0]) == [];
      var k := 0;
      while k < |sorted|
        invariant 0 <= k <= |sorted|
        invariant smallPrimes == old(smallPrimes) + WithFlips(sorted[..k])
      {
        var g := sorted[k];
        WithFlipsAppend(sorted[..k], g);
        assert sorted[..k + 1] == sorted[..k] + [g];
        smallPrimes := smallPrimes + [g];
        if g.b != 0 {
          smallPrimes := smallPrimes + [Flip(g)];
        }
        k := k + 1;
      }
      assert sorted[..k] == sorted;
    }

    /**
     * setSieveArray (src/OctantSieve.cpp:44-62): column a, for a = 0 .. isqrt(maxNorm),
     * of the given height, all true; then the cells of 0 and 1 set false.
     */
    method SetSieveArray()
      requires sieveArray == [] && maxNorm >= 1
      modifies this`sieveArray
      ensures sieveArray == InitialGrid(maxNorm)
    {
      var inter := Isqrt(maxNorm / 2);
      var top := Isqrt(maxNorm);
      var a := 0;
      while a <= top
        invariant 0 <= a <= top + 1 && |sieveArray| == a
        invariant forall k :: 0 <= k < a ==> sieveArray[k] == seq(Height(maxNorm, k), _ => true)
      {
        var height: nat;
        if a <= inter {
          height := a + 1;
        } else {
          SquareLe(a, top);
          var t := Isqrt(maxNorm - a * a);
          height := t + 1;
        }
        sieveArray := sieveArray + [seq(height, _ => true)];
        a := a + 1;
      }
      assert |sieveArray[1]| == Height(maxNorm, 1) >= 1 by {
        IntSqrtGreatest(maxNorm, 1);
      }
      sieveArray := sieveArray[0 := sieveArray[0][0 := false]];
      sieveArray := sieveArray[1 := sieveArray[1][0 := false]];
      ghost var init := InitialGrid(maxNorm);
      forall i | 0 <= i < |init|
        ensures sieveArray[i] == init[i]
      {
        assert forall j | 0 <= j < |init[i]| :: sieveArray[i][j] == init[i][j];
      }
    }

    /** sieve (src/BaseSieve.cpp:19-33): crossOffMultiples for each small prime, in list order. */
    method Sieve()
      requires Shaped(maxNorm, sieveArray) && forall k :: 0 <= k < |smallPrimes| ==> Sweepable(maxNorm, smallPrimes[k])
      modifies this`sieveArray
      ensures sieveArray == SieveWith(old(sieveArray), maxNorm, smallPrimes)
    {
      var i := 0;
      while i < |smallPrimes|
        invariant 0 <= i <= |smallPrimes| && Shaped(maxNorm, sieveArray)
        invariant forall k :: 0 <= k < |smallPrimes[i..]| ==> Sweepable(maxNorm, smallPrimes[i..][k])
        invariant SieveWith(sieveArray, maxNorm, smallPrimes[i..]) == SieveWith(old(sieveArray), maxNorm, smallPrimes)
      {
        assert smallPrimes[i..][0] == smallPrimes[i];
        assert smallPrimes[i..][1..] == smallPrimes[i + 1..];
        SieveWithTail(maxNorm, smallPrimes[i..]);
        CrossOffMultiples(smallPrimes[i]);
        i := i + 1;
      }
    }

    /** run (src/BaseSieve.cpp:46-50): small primes, then the array, then the sieve. */
    method Run()
      requires smallPrimes == [] && sieveArray == [] && maxNorm >= 2
      modifies this`smallPrimes, this`sieveArray
      ensures smallPrimes == SmallPrimeList(maxNorm)
      ensures sieveArray == Sieved(maxNorm)
      ensures forall r :: InOctant(r) && 2 <= Norm(r) <= maxNorm ==> (IsSet(sieveArray, r) <==> !Composite(r))
    {
      SetSmallPrimes();
      SetSieveArray();
      SmallPrimeListValid(maxNorm);
      Sieve();
      SievedAllExact(maxNorm);
    }

    /**
     * setBigPrimes (src/OctantSieve.cpp:117-141): 1 + i when maxNorm >= 2, then every
     * true cell a + bi with a >= 2, b < a, followed by its flip when b != 0.
     */
    method SetBigPrimes()
      requires Shaped(maxNorm, sieveArray)
      modifies this`bigPrimes
      ensures bigPrimes == old(bigPrimes) + Harvest(maxNorm, sieveArray)
    {
      if maxNorm >= 2 {
        bigPrimes := bigPrimes + [Gint(1, 1)];
      }
      var found := HarvestScan(maxNorm, sieveArray);
      bigPrimes := bigPrimes + found;
    }

    /** getCountBigPrimes (src/OctantSieve.cpp:145-170): four times the length of the harvest, without building it. */
    method GetCountBigPrimes() returns (count: nat)
      requires Shaped(maxNorm, sieveArray)
      ensures count == 4 * |Harvest(maxNorm, sieveArray)|
    {
      if maxNorm < 2 {
        assert IntSqrt(maxNorm) <= 1 by {
          IntSqrtMonotone(maxNorm, 1);
          IntSqrtUnique(1, 1);
        }
        ScanEnd(maxNorm, 2);
        return 0;
      }
      count := 1;
      var more := CountScan(maxNorm, sieveArray);
      count := count + more;
      count := count * 4;
    }

    /** getBigPrimes (src/BaseSieve.cpp:52-62): harvest, then sort by the gint order. */
    method GetBigPrimes() returns (primes: seq<Gint>)
      requires Shaped(maxNorm, sieveArray)
      modifies this`bigPrimes
      ensures Sorted(primes) && primes == bigPrimes
      ensures multiset(bigPrimes) == multiset(old(bigPrimes) + Harvest(maxNorm, sieveArray))
    {
      SetBigPrimes();
      bigPrimes := SortGints(bigPrimes);
      primes := bigPrimes;
    }

    /**
     * crossOffMultiples (src/OctantSieve.cpp:70-113): g (c + di) for c from 1 to
     * isqrt(maxNorm / N(g)) and d from 0 to dUpper, folded into the octant and
     * cleared; then g's own cell is re-marked.
     */
    method CrossOffMultiples(g: Gint)
      requires Shaped(maxNorm, sieveArray) && Sweepable(maxNorm, g)
      modifies this`sieveArray
      ensures sieveArray == CrossOff(old(sieveArray), maxNorm, g)
    {
      // Early exit if g's cell, [g.a][g.b] or [g.b][g.a], is already false.
      var home := Home(g);
      CellInGrid(maxNorm, sieveArray, home);
      if !sieveArray[home.a][home.b] { return; }
      SweepMultiples(g);
      // Re-mark g's own cell, cleared when c + di = 1.
      sieveArray := sieveArray[home.a := sieveArray[home.a][home.b := true]];
    }

    /** The c loop of crossOffMultiples (src/OctantSieve.cpp:79-102): clears every cell hit by a swept multiple. */
    method SweepMultiples(g: Gint)
      requires Shaped(maxNorm, sieveArray) && Sweepable(maxNorm, g)
      modifies this`sieveArray
      ensures sieveArray == Struck(old(sieveArray), maxNorm, g, CUpper(maxNorm, Norm(g)) + 1, 0)
    {
      ghost var g0 := sieveArray;
      var n := Norm(g);
      var cMax, inter := SweepBounds(maxNorm, n);
      StruckStart(g0, maxNorm, g);
      var c := 1;
      while c <= cMax
        invariant 1 <= c <= cMax + 1
        invariant sieveArray == Struck(g0, maxNorm, g, c, 0)
      {
        var dUpper := ColumnTop(n, c, inter, cMax);
        SweepColumn(g, c, dUpper, g0);
        StruckNextColumn(g0, maxNorm, g, c);
        c := c + 1;
      }
    }

    /** dUpper of src/OctantSieve.cpp:83: c below the diagonal, else isqrt(maxNorm / N(g) - c^2). */
    method ColumnTop(n: nat, c: nat, inter: nat, cMax: nat) returns (dUpper: nat)
      requires n > 0 && inter == Diagonal(maxNorm, n) && cMax == CUpper(maxNorm, n) && c <= cMax
      ensures dUpper == DUpper(maxNorm, n, c)
    {
      if c <= inter {
        dUpper := c;
      } else {
        SquareLe(c, cMax);
        dUpper := Isqrt(Quot(maxNorm, n) - c * c);
      }
    }

    /** The inner d loop of crossOffMultiples: u + vi = g (c + di) stepped by i g. */
    method SweepColumn(g: Gint, c: nat, dUpper: nat, ghost g0: seq<seq<bool>>)
      requires Shaped(maxNorm, g0) && Sweepable(maxNorm, g)
      requires 1 <= c <= CUpper(maxNorm, Norm(g)) && dUpper == DUpper(maxNorm, Norm(g), c)
      requires sieveArray == Struck(g0, maxNorm, g, c, 0)
      modifies this`sieveArray
      ensures sieveArray == Struck(g0, maxNorm, g, c, dUpper + 1)
    {
      var u := c * g.a;
      var v := c * g.b;
      var d := 0;
      MulStepD(g, c, 0);
      while d <= dUpper
        invariant 0 <= d <= dUpper + 1
        invariant Gint(u, v) == Mul(g, Gint(c, d))
        invariant sieveArray == Struck(g0, maxNorm, g, c, d)
      {
        StrikeProduct(g, c, d, u, v, g0);
        MulStepD(g, c, d);
        u := u - g.b;
        v := v + g.a;
        d := d + 1;
      }
    }

    /** One pass of the d loop: the cell of u + vi = g (c + di), folded into the octant, is cleared. */
    method StrikeProduct(g: Gint, c: nat, d: nat, u: int, v: int, ghost g0: seq<seq<bool>>)
      requires Shaped(maxNorm, g0) && Sweepable(maxNorm, g)
      requires 1 <= c <= CUpper(maxNorm, Norm(g)) && d <= DUpper(maxNorm, Norm(g), c)
      requires Gint(u, v) == Mul(g, Gint(c, d))
      requires sieveArray == Struck(g0, maxNorm, g, c, d)
      modifies this`sieveArray
      ensures sieveArray == Struck(g0, maxNorm, g, c, d + 1)
    {
      ProductCell(maxNorm, g0, g, Gint(c, d));
      StruckStep(g0, maxNorm, g, c, d);
      // Apply units and conjugation until u + vi is an index of the array.
      if u > 0 {
        if u >= v {
          sieveArray := sieveArray[u := sieveArray[u][v := false]];
        } else {
          sieveArray := sieveArray[v := sieveArray[v][u := false]];
        }
      } else {
        if v >= -u {
          sieveArray := sieveArray[v := sieveArray[v][-u := false]];
        } else {
          sieveArray := sieveArray[-u := sieveArray[-u][v := false]];
        }
      }
    }
  }
}
