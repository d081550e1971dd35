/**
 * The block sieve (src/BlockSieve.cpp): the Gaussian primes a + bi of the window
 * x <= a < x + dx, y <= b < y + dy. Cell (i, j) of a dx by dy boolean array stands
 * for (x + i) + (y + j)i. For each small prime g every product g (c + di) in the
 * window is cleared, then g and its flip are set true again.
 */
module BlockSieve {
  import opened GaussianInt
  import opened BaseSieve
  import opened SieveGrid
  import opened BlockWindow
  import opened Factorization
  import Oct = OctantSieve

  /** dx columns of dy cells each. */
  ghost predicate BlockShaped(w: Window, grid: seq<seq<bool>>)
  {
    |grid| == w.dx && forall i :: 0 <= i < |grid| ==> |grid[i]| == w.dy
  }

  /** p lies in the window and its cell is true. */
  ghost predicate On(w: Window, grid: seq<seq<bool>>, p: Gint)
  {
    InWindow(w, p) && p.a - w.x < |grid| && p.b - w.y < |grid[p.a - w.x]| && grid[p.a - w.x][p.b - w.y]
  }

  /** setSieveArray: every cell true except the cells of 1 and i. */
  ghost function InitialBlock(w: Window): (grid: seq<seq<bool>>)
    ensures BlockShaped(w, grid)
  {
    seq(w.dx, i => seq(w.dy, j => PointAt(w, i, j) != Gint(1, 0) && PointAt(w, i, j) != Gint(0, 1)))
  }

  /** The cells setSieveArray writes exist: 1 is in the window when x <= 1 and y = 0, and i when y <= 1 and x = 0. */
  predicate UnitsFit(w: Window)
  {
    (w.x <= 1 && w.y == 0 ==> InWindow(w, Gint(1, 0))) && (w.y <= 1 && w.x == 0 ==> InWindow(w, Gint(0, 1)))
  }

  // ---------------------------------------------------------------------------
  // crossOffMultiples

  /** p = g h for a cofactor h in a column before c. */
  ghost predicate SweptCols(g: Gint, p: Gint, c: int)
  {
    Divides(g, p) && Cofactor(g, p).a < c
  }

  /** p = g h for a cofactor h before c + di in the order of the sweep. */
  ghost predicate SweptTo(g: Gint, p: Gint, c: int, d: int)
  {
    SweptCols(g, p, c) || (Divides(g, p) && Cofactor(g, p).a == c && Cofactor(g, p).b < d)
  }

  /** The array once the columns before c are swept. */
  ghost function StruckCols(w: Window, g0: seq<seq<bool>>, g: Gint, c: int): (r: seq<seq<bool>>)
    ensures |r| == |g0| && forall i :: 0 <= i < |r| ==> |r[i]| == |g0[i]|
  {
    seq(|g0|, i requires 0 <= i < |g0| =>
      seq(|g0[i]|, j requires 0 <= j < |g0[i]| => g0[i][j] && !SweptCols(g, PointAt(w, i, j), c)))
  }

  /** The array once the cofactors before c + di are swept. */
  ghost function Struck(w: Window, g0: seq<seq<bool>>, g: Gint, c: int, d: int): (r: seq<seq<bool>>)
    ensures |r| == |g0| && forall i :: 0 <= i < |r| ==> |r[i]| == |g0[i]|
  {
    seq(|g0|, i requires 0 <= i < |g0| =>
      seq(|g0[i]|, j requires 0 <= j < |g0[i]| => g0[i][j] && !SweptTo(g, PointAt(w, i, j), c, d)))
  }

  /** The array once the c loop is done: every multiple of g in the window cleared. */
  ghost function Cleared(w: Window, g0: seq<seq<bool>>, g: Gint): (r: seq<seq<bool>>)
    ensures |r| == |g0| && forall i :: 0 <= i < |r| ==> |r[i]| == |g0[i]|
  {
    seq(|g0|, i requires 0 <= i < |g0| =>
      seq(|g0[i]|, j requires 0 <= j < |g0[i]| => g0[i][j] && !Divides(g, PointAt(w, i, j))))
  }

  /** Setting the cell of p true when p lies in the window. */
  function Remark(w: Window, grid: seq<seq<bool>>, p: Gint): (r: seq<seq<bool>>)
    requires BlockShaped(w, grid)
    ensures BlockShaped(w, r)
  {
    if InWindow(w, p) then grid[p.a - w.x := grid[p.a - w.x][p.b - w.y := true]] else grid
  }

  /**
   * The array after crossOffMultiples(g): a cell is true when its point is g or the
   * flip of g, or when it was true and g does not divide its point.
   */
  ghost function CrossOff(w: Window, grid: seq<seq<bool>>, g: Gint): (r: seq<seq<bool>>)
    requires BlockShaped(w, grid)
    ensures BlockShaped(w, r)
  {
    seq(w.dx, i requires 0 <= i < w.dx => seq(w.dy, j requires 0 <= j < w.dy =>
      var p := PointAt(w, i, j);
      p == g || p == Flip(g) || (grid[i][j] && !Divides(g, p))))
  }

  /** No product of the window has a cofactor in a column before CLow. */
  lemma StruckStart(w: Window, g0: seq<seq<bool>>, g: Gint)
    requires Sweeps(g) && BlockShaped(w, g0)
    ensures StruckCols(w, g0, g, CLow(w, g)) == g0
  {
    var s := StruckCols(w, g0, g, CLow(w, g));
    forall i | 0 <= i < |g0|
      ensures s[i] == g0[i]
    {
      forall j | 0 <= j < |g0[i]|
        ensures s[i][j] == g0[i][j]
      {
        CofactorInRange(w, g, i, j);
      }
    }
  }

  /** A multiple of g at cell (i, j) in the window has its cofactor in the c range and, within its column, in the d range. */
  lemma CofactorInRange(w: Window, g: Gint, i: int, j: int)
    requires Sweeps(g) && 0 <= i < w.dx && 0 <= j < w.dy
    ensures var p := PointAt(w, i, j);
      Divides(g, p) ==>
        (CLow(w, g) <= Cofactor(g, p).a <= CHigh(w, g) &&
         DLow(w, g, Cofactor(g, p).a) <= Cofactor(g, p).b <= DHigh(w, g, Cofactor(g, p).a))
  {
    var p := PointAt(w, i, j);
    if Divides(g, p) {
      var h := Cofactor(g, p);
      CofactorGivesMul(g, p);
      CRange(w, g, h);
      ColumnExact(w, g, h.a, h.b);
    }
  }

  /** Column c starts at DLow: no product of the window has a cofactor (c, e) with e below it. */
  lemma ColumnStart(w: Window, g0: seq<seq<bool>>, g: Gint, c: int)
    requires Sweeps(g) && BlockShaped(w, g0)
    ensures Struck(w, g0, g, c, DLow(w, g, c)) == StruckCols(w, g0, g, c)
  {
    var s0, s1 := Struck(w, g0, g, c, DLow(w, g, c)), StruckCols(w, g0, g, c);
    forall i | 0 <= i < |g0|
      ensures s0[i] == s1[i]
    {
      forall j | 0 <= j < |g0[i]|
        ensures s0[i][j] == s1[i][j]
      {
        CofactorInRange(w, g, i, j);
      }
    }
  }

  /** Column c ends past DHigh: every product of the window with cofactor in column c has been reached. */
  lemma ColumnEnd(w: Window, g0: seq<seq<bool>>, g: Gint, c: int, d: int)
    requires Sweeps(g) && BlockShaped(w, g0) && d > DHigh(w, g, c)
    ensures Struck(w, g0, g, c, d) == StruckCols(w, g0, g, c + 1)
  {
    var s0, s1 := Struck(w, g0, g, c, d), StruckCols(w, g0, g, c + 1);
    forall i | 0 <= i < |g0|
      ensures s0[i] == s1[i]
    {
      forall j | 0 <= j < |g0[i]|
        ensures s0[i][j] == s1[i][j]
      {
        CofactorInRange(w, g, i, j);
      }
    }
  }

  /** After the last column every multiple of g in the window is cleared. */
  lemma SweepEnd(w: Window, g0: seq<seq<bool>>, g: Gint, c: int)
    requires Sweeps(g) && BlockShaped(w, g0) && c > CHigh(w, g)
    ensures StruckCols(w, g0, g, c) == Cleared(w, g0, g)
  {
    var s0, s1 := StruckCols(w, g0, g, c), Cleared(w, g0, g);
    forall i | 0 <= i < |g0|
      ensures s0[i] == s1[i]
    {
      forall j | 0 <= j < |g0[i]|
        ensures s0[i][j] == s1[i][j]
      {
        CofactorInRange(w, g, i, j);
      }
    }
  }

  /** Sweeping c + di clears exactly the cell of g (c + di), which lies in the window. */
  lemma {:induction false} StruckStep(w: Window, g0: seq<seq<bool>>, g: Gint, c: int, d: int)
    requires Sweeps(g) && BlockShaped(w, g0)
    requires CLow(w, g) <= c <= CHigh(w, g) && DLow(w, g, c) <= d <= DHigh(w, g, c)
    ensures InWindow(w, Mul(g, Gint(c, d)))
    ensures var u, v := Mul(g, Gint(c, d)).a - w.x, Mul(g, Gint(c, d)).b - w.y;
      Struck(w, g0, g, c, d + 1) == Struck(w, g0, g, c, d)[u := Struck(w, g0, g, c, d)[u][v := false]]
  {
    NormPositive(g);
    ColumnExact(w, g, c, d);
    var q := Mul(g, Gint(c, d));
    var u, v := q.a - w.x, q.b - w.y;
    var s0, s1 := Struck(w, g0, g, c, d), Struck(w, g0, g, c, d + 1);
    var t := s0[u := s0[u][v := false]];
    forall i | 0 <= i < |g0|
      ensures s1[i] == t[i]
    {
      forall j | 0 <= j < |g0[i]|
        ensures s1[i][j] == t[i][j]
      {
        MulIffCofactor(g, Gint(c, d), PointAt(w, i, j));
      }
    }
  }

  /** The c loop followed by the two re-markings is CrossOff. */
  lemma CrossOffRemark(w: Window, g0: seq<seq<bool>>, g: Gint)
    requires BlockShaped(w, g0)
    ensures Remark(w, Remark(w, Cleared(w, g0, g), g), Flip(g)) == CrossOff(w, g0, g)
  {
    var s0, s1 := Remark(w, Remark(w, Cleared(w, g0, g), g), Flip(g)), CrossOff(w, g0, g);
    forall i | 0 <= i < w.dx
      ensures s0[i] == s1[i]
    {
      assert forall j | 0 <= j < w.dy :: s0[i][j] == s1[i][j];
    }
  }

  // ---------------------------------------------------------------------------
  // What one crossOffMultiples does

  lemma SmallNorm(h: Gint)
    requires Norm(h) <= 1
    ensures h == Gint(0, 0) || h == Gint(1, 0) || h == Gint(-1, 0) || h == Gint(0, 1) || h == Gint(0, -1)
  {
    SquareNonneg(h.a);
    SquareNonneg(h.b);
    if h.a >= 2 || h.a <= -2 {
      MulLe(2, 2, if h.a >= 2 then h.a else -h.a);
      MulLe(if h.a >= 2 then h.a else -h.a, 2, if h.a >= 2 then h.a else -h.a);
    }
    if h.b >= 2 || h.b <= -2 {
      MulLe(2, 2, if h.b >= 2 then h.b else -h.b);
      MulLe(if h.b >= 2 then h.b else -h.b, 2, if h.b >= 2 then h.b else -h.b);
    }
  }

  /**
   * A cell that crossOffMultiples(g) turns off holds g h for a cofactor h that is 0 or
   * a non-unit: the unit multiples of g that lie in the window are g and its flip,
   * which are re-marked.
   */
  lemma {:induction false} CrossOffSound(w: Window, grid: seq<seq<bool>>, g: Gint, p: Gint)
    requires BlockShaped(w, grid) && Sweeps(g)
    requires On(w, grid, p) && !On(w, CrossOff(w, grid, g), p)
    ensures Divides(g, p) && (p == Gint(0, 0) || Norm(Cofactor(g, p)) >= 2)
  {
    var h := Cofactor(g, p);
    CofactorGivesMul(g, p);
    if Norm(h) <= 1 {
      SmallNorm(h);
    }
  }

  /** The same for a small prime of norm at least 2: the cell turned off is 0 or composite. */
  lemma CrossOffClearsComposites(w: Window, grid: seq<seq<bool>>, g: Gint, p: Gint)
    requires BlockShaped(w, grid) && Sweeps(g) && Norm(g) >= 2
    requires On(w, grid, p) && !On(w, CrossOff(w, grid, g), p)
    ensures p == Gint(0, 0) || Composite(p)
  {
    CrossOffSound(w, grid, g, p);
    if p != Gint(0, 0) {
      var h := Cofactor(g, p);
      CofactorGivesMul(g, p);
      assert SameClass(p, Mul(g, h));
    }
  }

  /** Every product g h of the window with h a non-unit is off after crossOffMultiples(g); so is 0. */
  lemma {:induction false} CrossOffComplete(w: Window, grid: seq<seq<bool>>, g: Gint, h: Gint)
    requires BlockShaped(w, grid) && Sweeps(g)
    requires (Norm(h) >= 2 || h == Gint(0, 0)) && InWindow(w, Mul(g, h))
    ensures !On(w, CrossOff(w, grid, g), Mul(g, h))
  {
    var p := Mul(g, h);
    NormPositive(g);
    MulGivesCofactor(g, h);
    ProductNorm(g, h);
    FlipInvolution(g);
    var i, j := p.a - w.x, p.b - w.y;
    assert PointAt(w, i, j) == p;
    assert CrossOff(w, grid, g)[i][j] == (p == g || p == Flip(g) || (grid[i][j] && !Divides(g, p)));
  }

  /** g h with N(h) >= 2 or h = 0 has a norm other than N(g): 0 or at least 2 N(g). */
  lemma ProductNorm(g: Gint, h: Gint)
    requires Norm(g) > 0 && (Norm(h) >= 2 || h == Gint(0, 0))
    ensures Norm(Mul(g, h)) != Norm(g)
  {
    var n, k := Norm(g), Norm(h);
    MulNorm(g, h);
    if h != Gint(0, 0) {
      MulLe(n, 2, k);
    }
  }

  /** A cell that crossOffMultiples(g) turns on holds g or its flip. */
  lemma CrossOffOnlyRemarks(w: Window, grid: seq<seq<bool>>, g: Gint, p: Gint)
    requires BlockShaped(w, grid)
    requires On(w, CrossOff(w, grid, g), p) && !On(w, grid, p)
    ensures p == g || p == Flip(g)
  {
  }

  // ---------------------------------------------------------------------------
  // sieve

  /** The array after crossOffMultiples for each of ps in order. */
  ghost function SieveWith(w: Window, grid: seq<seq<bool>>, ps: seq<Gint>): (r: seq<seq<bool>>)
    requires BlockShaped(w, grid)
    ensures BlockShaped(w, r)
    decreases |ps|
  {
    if ps == [] then grid else SieveWith(w, CrossOff(w, grid, ps[0]), ps[1..])
  }

  /** Small primes a + bi with a > 0, b >= 0 and norm at least 2. */
  ghost predicate PrimesSweep(ps: seq<Gint>)
  {
    forall k :: 0 <= k < |ps| ==> Sweeps(ps[k]) && Norm(ps[k]) >= 2
  }

  lemma PrimesSweepTail(ps: seq<Gint>)
    requires PrimesSweep(ps) && ps != []
    ensures Sweeps(ps[0]) && Norm(ps[0]) >= 2 && PrimesSweep(ps[1..])
  {
    assert forall k :: 0 <= k < |ps| - 1 ==> ps[1..][k] == ps[k + 1];
  }

  /** One crossOffMultiples keeps a Gaussian prime on. */
  lemma KeepsPrime(w: Window, grid: seq<seq<bool>>, g: Gint, p: Gint)
    requires BlockShaped(w, grid) && Sweeps(g) && Norm(g) >= 2
    requires On(w, grid, p) && Norm(p) >= 2 && !Composite(p)
    ensures On(w, CrossOff(w, grid, g), p)
  {
    if !On(w, CrossOff(w, grid, g), p) {
      CrossOffClearsComposites(w, grid, g, p);
    }
  }

  /** No Gaussian prime of the window that is on is ever turned off. */
  lemma {:induction false} SieveWithKeepsPrimes(w: Window, grid: seq<seq<bool>>, ps: seq<Gint>, p: Gint)
    requires BlockShaped(w, grid) && PrimesSweep(ps)
    requires On(w, grid, p) && Norm(p) >= 2 && !Composite(p)
    ensures On(w, SieveWith(w, grid, ps), p)
    decreases |ps|
  {
    if ps != [] {
      var next := CrossOff(w, grid, ps[0]);
      PrimesSweepTail(ps);
      KeepsPrime(w, grid, ps[0], p);
      SieveWithKeepsPrimes(w, next, ps[1..], p);
    }
  }

  /**
   * Every product ps[k] h of the window with h a non-unit is off at the end, unless it is
   * one of the listed primes or the flip of one (those cells are re-marked).
   */
  lemma {:induction false} SieveWithClearsMultiples(w: Window, grid: seq<seq<bool>>, ps: seq<Gint>, k: nat, h: Gint)
    requires BlockShaped(w, grid) && PrimesSweep(ps) && k < |ps|
    requires Norm(h) >= 2 && InWindow(w, Mul(ps[k], h))
    requires forall j :: 0 <= j < |ps| ==> Mul(ps[k], h) != ps[j] && Mul(ps[k], h) != Flip(ps[j])
    ensures !On(w, SieveWith(w, grid, ps), Mul(ps[k], h))
    decreases |ps|
  {
    var next := CrossOff(w, grid, ps[0]);
    assert forall j :: 0 <= j < |ps| - 1 ==> ps[1..][j] == ps[j + 1];
    if k == 0 {
      CrossOffComplete(w, grid, ps[0], h);
      StaysOff(w, next, ps[1..], Mul(ps[k], h));
    } else {
      SieveWithClearsMultiples(w, next, ps[1..], k - 1, h);
    }
  }

  /** A cell that is off stays off through sweeps none of whose primes or flips is its point. */
  lemma {:induction false} StaysOff(w: Window, grid: seq<seq<bool>>, ps: seq<Gint>, p: Gint)
    requires BlockShaped(w, grid) && !On(w, grid, p)
    requires forall j :: 0 <= j < |ps| ==> p != ps[j] && p != Flip(ps[j])
    ensures !On(w, SieveWith(w, grid, ps), p)
    decreases |ps|
  {
    if ps != [] {
      var next := CrossOff(w, grid, ps[0]);
      if On(w, next, p) {
        CrossOffOnlyRemarks(w, grid, ps[0], p);
      }
      assert forall j :: 0 <= j < |ps| - 1 ==> ps[1..][j] == ps[j + 1];
      StaysOff(w, next, ps[1..], p);
    }
  }

  /** A cell that is on stays on through sweeps none of whose primes divides its point. */
  lemma {:induction false} StaysOn(w: Window, grid: seq<seq<bool>>, ps: seq<Gint>, p: Gint)
    requires BlockShaped(w, grid) && On(w, grid, p)
    requires forall j :: 0 <= j < |ps| ==> !Divides(ps[j], p)
    ensures On(w, SieveWith(w, grid, ps), p)
    decreases |ps|
  {
    if ps != [] {
      assert forall j :: 0 <= j < |ps| - 1 ==> ps[1..][j] == ps[j + 1];
      StaysOn(w, CrossOff(w, grid, ps[0]), ps[1..], p);
    }
  }

  // ---------------------------------------------------------------------------
  // The bound on the small primes

  /**
   * The bound the constructor passes to SieveTemplate (src/BlockSieve.cpp:10): the
   * product (x + dx - 1)(y + dy - 1) of the far corner's coordinates rather than its
   * norm.
   */
  function WrittenMaxNorm(w: Window): int
  {
    (w.x + w.dx - 1) * (w.y + w.dy - 1)
  }

  /**
   * With the written bound, the window [0, 10) x [0, 2) gets maxNorm 9 and small primes
   * of norm at most isqrt(9) = 3, that is 1 + i alone; 9 = 3 * 3 is composite, 1 + i does
   * not divide it, and its cell stays on: the sieve reports 9 as a Gaussian prime.
   */
  lemma WrittenMaxNormKeepsNine(w: Window, p: Gint, ps: seq<Gint>)
    requires w == Window(0, 0, 10, 2) && p == Gint(9, 0)
    requires PrimesSweep(ps) && forall k :: 0 <= k < |ps| ==> Norm(ps[k]) <= IntSqrt(WrittenMaxNorm(w))
    ensures WrittenMaxNorm(w) == 9 && IntSqrt(WrittenMaxNorm(w)) == 3
    ensures InWindow(w, p) && Composite(p)
    ensures On(w, SieveWith(w, InitialBlock(w), ps), p)
  {
    IntSqrtUnique(9, 3);
    NineComposite(w, p);
    NoneDividesNine(ps, p);
    StaysOn(w, InitialBlock(w), ps, p);
  }

  /** 9 = 3 * 3 lies in the window and starts on. */
  lemma NineComposite(w: Window, p: Gint)
    requires w == Window(0, 0, 10, 2) && p == Gint(9, 0)
    ensures InWindow(w, p) && Composite(p) && On(w, InitialBlock(w), p)
  {
    NineIsComposite(p);
    assert PointAt(w, 9, 0) == p;
  }

  lemma NineIsComposite(p: Gint)
    requires p == Gint(9, 0)
    ensures Composite(p)
  {
    var three := Gint(3, 0);
    ProductComposite(three, three, p);
  }

  /** g h is composite when both are non-units. */
  lemma ProductComposite(g: Gint, h: Gint, r: Gint)
    requires Norm(g) >= 2 && Norm(h) >= 2 && r == Mul(g, h)
    ensures Composite(r)
  {
    assert SameClass(r, Mul(g, h));
  }

  lemma NoneDividesNine(ps: seq<Gint>, p: Gint)
    requires p == Gint(9, 0) && PrimesSweep(ps) && forall k :: 0 <= k < |ps| ==> Norm(ps[k]) <= 3
    ensures forall j :: 0 <= j < |ps| ==> !Divides(ps[j], p)
  {
    forall j | 0 <= j < |ps|
      ensures !Divides(ps[j], p)
    {
      OnlyOnePlusI(ps[j], p);
    }
  }

  /** The only a + bi with a > 0, b >= 0 and norm 2 or 3 is 1 + i, which does not divide 9. */
  lemma OnlyOnePlusI(g: Gint, p: Gint)
    requires p == Gint(9, 0) && Sweeps(g) && 2 <= Norm(g) <= 3
    ensures g == Gint(1, 1) && !Divides(g, p)
  {
    if g.a >= 2 {
      MulLe(2, 2, g.a);
      MulLe(g.a, 2, g.a);
    }
    if g.b >= 2 {
      MulLe(2, 2, g.b);
      MulLe(g.b, 2, g.b);
    }
  }

  // ---------------------------------------------------------------------------
  // setBigPrimes and getCountBigPrimes

  /** The points of the first n cells of column i that are true, bottom to top. */
  ghost function ColumnHarvest(w: Window, column: seq<bool>, i: int, n: nat): seq<Gint>
    requires n <= |column|
  {
    if n == 0 then []
    else ColumnHarvest(w, column, i, n - 1) + (if column[n - 1] then [PointAt(w, i, n - 1)] else [])
  }

  /** The points of the true cells of the first n columns, column by column. */
  ghost function Harvest(w: Window, grid: seq<seq<bool>>, n: nat): seq<Gint>
    requires n <= |grid|
  {
    if n == 0 then [] else Harvest(w, grid, n - 1) + ColumnHarvest(w, grid[n - 1], n - 1, |grid[n - 1]|)
  }

  /** s is strictly increasing in the order of the scan: by a, then by b. */
  predicate ScanOrdered(s: seq<Gint>)
  {
    forall k, l :: 0 <= k < l < |s| ==> s[k].a < s[l].a || (s[k].a == s[l].a && s[k].b < s[l].b)
  }

  lemma {:induction false} ColumnHarvestMembers(w: Window, column: seq<bool>, i: int, n: nat, p: Gint)
    requires n <= |column|
    ensures p in ColumnHarvest(w, column, i, n) <==>
      p.a == w.x + i && w.y <= p.b < w.y + n && column[p.b - w.y]
    ensures ScanOrdered(ColumnHarvest(w, column, i, n))
  {
    if n > 0 {
      ColumnHarvestMembers(w, column, i, n - 1, p);
      var s := ColumnHarvest(w, column, i, n - 1);
      forall k | 0 <= k < |s|
        ensures s[k].a == w.x + i && s[k].b < w.y + n - 1
      {
        ColumnHarvestMembers(w, column, i, n - 1, s[k]);
      }
    }
  }

  lemma HarvestPrefixMembers(w: Window, grid: seq<seq<bool>>, n: nat, p: Gint)
    requires BlockShaped(w, grid) && n <= |grid|
    ensures p in Harvest(w, grid, n) <==> On(w, grid, p) && p.a < w.x + n
    ensures ScanOrdered(Harvest(w, grid, n))
  {
    HarvestPrefixHas(w, grid, n, p);
    HarvestPrefixOrdered(w, grid, n);
  }

  lemma {:induction false} HarvestPrefixHas(w: Window, grid: seq<seq<bool>>, n: nat, p: Gint)
    requires BlockShaped(w, grid) && n <= |grid|
    ensures p in Harvest(w, grid, n) <==> On(w, grid, p) && p.a < w.x + n
  {
    if n > 0 {
      HarvestPrefixHas(w, grid, n - 1, p);
      ColumnHarvestMembers(w, grid[n - 1], n - 1, |grid[n - 1]|, p);
    }
  }

  lemma {:induction false} HarvestPrefixOrdered(w: Window, grid: seq<seq<bool>>, n: nat)
    requires BlockShaped(w, grid) && n <= |grid|
    ensures ScanOrdered(Harvest(w, grid, n))
  {
    if n > 0 {
      HarvestPrefixOrdered(w, grid, n - 1);
      var s, t := Harvest(w, grid, n - 1), ColumnHarvest(w, grid[n - 1], n - 1, |grid[n - 1]|);
      forall k | 0 <= k < |s|
        ensures s[k].a < w.x + n - 1
      {
        HarvestPrefixHas(w, grid, n - 1, s[k]);
      }
      forall k | 0 <= k < |t|
        ensures t[k].a == w.x + n - 1
      {
        ColumnHarvestMembers(w, grid[n - 1], n - 1, |grid[n - 1]|, t[k]);
      }
      ColumnHarvestMembers(w, grid[n - 1], n - 1, |grid[n - 1]|, Gint(0, 0));
    }
  }

  /**
   * setBigPrimes returns exactly the points of the window whose cell is true, each once,
   * in the order of the scan.
   */
  lemma HarvestMembers(w: Window, grid: seq<seq<bool>>, p: Gint)
    requires BlockShaped(w, grid)
    ensures p in Harvest(w, grid, |grid|) <==> On(w, grid, p)
    ensures ScanOrdered(Harvest(w, grid, |grid|))
  {
    HarvestPrefixMembers(w, grid, |grid|, p);
  }

  /** After a full run, every Gaussian prime of the window is in the harvest. */
  lemma PrimesHarvested(w: Window, ps: seq<Gint>, p: Gint)
    requires PrimesSweep(ps) && InWindow(w, p) && Norm(p) >= 2 && !Composite(p)
    ensures p in Harvest(w, SieveWith(w, InitialBlock(w), ps), w.dx)
  {
    NotUnit(p);
    InitialOn(w, p);
    SieveWithKeepsPrimes(w, InitialBlock(w), ps, p);
    HarvestMembers(w, SieveWith(w, InitialBlock(w), ps), p);
  }

  /** The composite multiples the sweeps reach are not in the harvest. */
  lemma MultiplesNotHarvested(w: Window, ps: seq<Gint>, k: nat, h: Gint)
    requires PrimesSweep(ps) && k < |ps| && Norm(h) >= 2 && InWindow(w, Mul(ps[k], h))
    requires forall j :: 0 <= j < |ps| ==> Mul(ps[k], h) != ps[j] && Mul(ps[k], h) != Flip(ps[j])
    ensures Mul(ps[k], h) !in Harvest(w, SieveWith(w, InitialBlock(w), ps), w.dx)
  {
    SieveWithClearsMultiples(w, InitialBlock(w), ps, k, h);
    HarvestMembers(w, SieveWith(w, InitialBlock(w), ps), Mul(ps[k], h));
  }

  /**
   * Completeness of the sieve: when the small primes are the Gaussian primes up to
   * isqrt(MaxNorm), every composite of the window ends off. Its first-quadrant prime
   * factor p has N(p)^2 <= MaxNorm, so p is listed; p's sweep clears it, and no later
   * sweep re-marks it, since only listed primes and their flips are re-marked.
   */
  lemma {:induction false} CompositesCleared(w: Window, ps: seq<Gint>, M: nat, r: Gint)
    requires PrimesSweep(ps) && Oct.AllPrimesTo(ps, M) && IntSqrt(MaxNorm(w)) <= M
    requires InWindow(w, r) && Composite(r)
    ensures !On(w, SieveWith(w, InitialBlock(w), ps), r)
  {
    var p, q := FirstQuadrantPrimeFactor(r);
    WindowNorm(w, r);
    IntSqrtGreatest(MaxNorm(w), Norm(p));
    assert p in ps;
    var k :| 0 <= k < |ps| && ps[k] == p;
    forall j | 0 <= j < |ps|
      ensures r != ps[j] && r != Flip(ps[j])
    {
      if r == Flip(ps[j]) {
        FlipInvolution(ps[j]);
        FlipComposite(ps[j]);
      }
    }
    SieveWithClearsMultiples(w, InitialBlock(w), ps, k, q);
  }

  /** With the Gaussian primes up to isqrt(MaxNorm) as small primes, a point of the window of norm at least 2 ends on exactly when it is a Gaussian prime. */
  lemma RunExact(w: Window, ps: seq<Gint>, M: nat)
    requires PrimesSweep(ps) && Oct.AllPrimesTo(ps, M) && IntSqrt(MaxNorm(w)) <= M
    ensures forall p :: InWindow(w, p) && Norm(p) >= 2 ==> (On(w, SieveWith(w, InitialBlock(w), ps), p) <==> !Composite(p))
  {
    RunKeepsPrimes(w, ps);
    forall p | InWindow(w, p) && Composite(p)
      ensures !On(w, SieveWith(w, InitialBlock(w), ps), p)
    {
      CompositesCleared(w, ps, M, p);
    }
  }

  /** RunExact for the small primes an octant sieve of radius at least isqrt(MaxNorm) returns. */
  lemma OctantRunExact(w: Window, ps: seq<Gint>, M: nat)
    requires M >= 2 && IntSqrt(MaxNorm(w)) <= M && PrimesSweep(ps)
    requires multiset(ps) == multiset(Oct.Harvest(M, Oct.Sieved(M)))
    ensures forall p :: InWindow(w, p) && Norm(p) >= 2 ==> (On(w, SieveWith(w, InitialBlock(w), ps), p) <==> !Composite(p))
  {
    Oct.HarvestListsAllPrimes(M, ps);
    RunExact(w, ps, M);
  }

  /** The output of the octant sieve of radius M >= 2 is exactly the Gaussian primes a + bi with a > 0, b >= 0 and norm 2 to M. */
  /** 0 is off once a sweep has run: it is a multiple of everything. */
  lemma {:induction false} ZeroOff(w: Window, grid: seq<seq<bool>>, ps: seq<Gint>)
    requires BlockShaped(w, grid) && PrimesSweep(ps) && ps != []
    ensures !On(w, SieveWith(w, grid, ps), Gint(0, 0))
  {
    var zero := Gint(0, 0);
    if InWindow(w, zero) {
      PrimesSweepTail(ps);
      assert Mul(ps[0], zero) == zero;
      CrossOffComplete(w, grid, ps[0], zero);
      var next := CrossOff(w, grid, ps[0]);
      forall j | 0 <= j < |ps[1..]|
        ensures zero != ps[1..][j] && zero != Flip(ps[1..][j])
      {
        assert ps[1..][j] == ps[j + 1];
      }
      StaysOff(w, next, ps[1..], zero);
    }
  }

  /** 1 and i, cleared by setSieveArray, stay off: a sweep re-marks only points of norm at least 2. */
  lemma UnitsOff(w: Window, ps: seq<Gint>, u: Gint)
    requires PrimesSweep(ps) && (u == Gint(1, 0) || u == Gint(0, 1))
    ensures !On(w, SieveWith(w, InitialBlock(w), ps), u)
  {
    forall j | 0 <= j < |ps|
      ensures u != ps[j] && u != Flip(ps[j])
    {
      FlipInvolution(ps[j]);
    }
    StaysOff(w, InitialBlock(w), ps, u);
  }

  lemma ScanOrderedDistinct(s: seq<Gint>)
    requires ScanOrdered(s)
    ensures Distinct(s)
  {
  }

  /**
   * After a run with the Gaussian primes up to M >= isqrt(MaxNorm) as small primes,
   * setBigPrimes collects exactly the Gaussian primes of the window, each once.
   */
  lemma HarvestIsPrimes(w: Window, ps: seq<Gint>, M: nat, p: Gint)
    requires M >= 2 && PrimesSweep(ps) && Oct.AllPrimesTo(ps, M) && IntSqrt(MaxNorm(w)) <= M
    ensures Distinct(Harvest(w, SieveWith(w, InitialBlock(w), ps), w.dx))
    ensures p in Harvest(w, SieveWith(w, InitialBlock(w), ps), w.dx) <==> InWindow(w, p) && Norm(p) >= 2 && !Composite(p)
  {
    var grid := SieveWith(w, InitialBlock(w), ps);
    HarvestMembers(w, grid, p);
    ScanOrderedDistinct(Harvest(w, grid, w.dx));
    if InWindow(w, p) {
      if Norm(p) < 2 {
        NormTwoFivePrime(Gint(1, 1));
        assert Gint(1, 1) in ps;
        LowNormOff(w, ps, p);
      } else if Composite(p) {
        CompositesCleared(w, ps, M, p);
      } else {
        RunKeepsPrimes(w, ps);
      }
    }
  }

  /** 0, 1 and i are off after a run that swept at least one prime. */
  lemma LowNormOff(w: Window, ps: seq<Gint>, p: Gint)
    requires PrimesSweep(ps) && ps != [] && InWindow(w, p) && Norm(p) < 2
    ensures !On(w, SieveWith(w, InitialBlock(w), ps), p)
  {
    SmallNorm(p);
    if p == Gint(0, 0) {
      ZeroOff(w, InitialBlock(w), ps);
    } else {
      UnitsOff(w, ps, p);
    }
  }

  // ---------------------------------------------------------------------------
  // The class

  class BlockSieve {
    const x: nat
    const y: nat
    const dx: nat
    const dy: nat
    const maxNorm: nat
    var smallPrimes: seq<Gint>
    var bigPrimes: seq<Gint>
    var sieveArray: seq<seq<bool>>

    function Win(): Window
    {
      Window(x, y, dx, dy)
    }

    /**
     * The constructor (src/BlockSieve.cpp:8-15), corrected: maxNorm is the norm
     * (x + dx - 1)^2 + (y + dy - 1)^2 of the far corner, not the product
     * (x + dx - 1)(y + dy - 1) that line 10 passes on (WrittenMaxNorm).
     */
    constructor (x: nat, y: nat, dx: nat, dy: nat)
      ensures this.x == x && this.y == y && this.dx == dx && this.dy == dy
      ensures maxNorm == MaxNorm(Window(x, y, dx, dy))
      ensures smallPrimes == [] && bigPrimes == [] && sieveArray == []
    {
      this.x := x;
      this.y := y;
      this.dx := dx;
      this.dy := dy;
      maxNorm := MaxNorm(Window(x, y, dx, dy));
      smallPrimes := [];
      bigPrimes := [];
      sieveArray := [];
    }

    /** setSmallPrimes (src/BlockSieve.cpp:18-25): the sorted output of an octant sieve of radius isqrt(maxNorm). */
    method SetSmallPrimes()
      requires maxNorm >= 4
      modifies this`smallPrimes
      ensures Sorted(smallPrimes)
      ensures multiset(smallPrimes) == multiset(Oct.Harvest(IntSqrt(maxNorm), Oct.Sieved(IntSqrt(maxNorm))))
    {
      var rt := Isqrt(maxNorm);
      IntSqrtGreatest(maxNorm, 2);
      var s := new Oct.OctantSieve(rt);
      s.Run();
      smallPrimes := s.GetBigPrimes();
    }

    /** setSieveArray (src/BlockSieve.cpp:29-46): dx columns of dy true cells, then 1 and i cleared when they are in the window. */
    method SetSieveArray()
      requires sieveArray == [] && UnitsFit(Win())
      modifies this`sieveArray
      ensures sieveArray == InitialBlock(Win())
    {
      var i := 0;
      while i < dx
        invariant 0 <= i <= dx && |sieveArray| == i
        invariant forall k :: 0 <= k < i ==> sieveArray[k] == seq(dy, _ => true)
      {
        sieveArray := sieveArray + [seq(dy, _ => true)];
        i := i + 1;
      }
      if x <= 1 && y == 0 {
        sieveArray := sieveArray[1 - x := sieveArray[1 - x][0 := false]];
      }
      if y <= 1 && x == 0 {
        sieveArray := sieveArray[0 := sieveArray[0][1 - y := false]];
      }
      ghost var init := InitialBlock(Win());
      forall k | 0 <= k < dx
        ensures sieveArray[k] == init[k]
      {
        assert forall j | 0 <= j < dy :: sieveArray[k][j] == init[k][j];
      }
    }

    /**
     * crossOffMultiples (src/BlockSieve.cpp:55-102): for c from CLow to CHigh and d from
     * DLow(c) to DHigh(c), clear the cell of g (c + di); then set the cells of g and of
     * its flip true when they are in the window.
     */
    method CrossOffMultiples(g: Gint)
      requires BlockShaped(Win(), sieveArray) && Sweeps(g)
      modifies this`sieveArray
      ensures sieveArray == CrossOff(Win(), old(sieveArray), g)
    {
      ghost var g0 := sieveArray;
      var w := Win();
      SweepMultiples(g);
      Remark1(g);
      Remark1(Flip(g));
      CrossOffRemark(w, g0, g);
    }

    /** Sets the cell of p back to true when p lies in the block. */
    method Remark1(p: Gint)
      requires BlockShaped(Win(), sieveArray)
      modifies this`sieveArray
      ensures sieveArray == Remark(Win(), old(sieveArray), p)
    {
      if x <= p.a < x + dx && y <= p.b < y + dy {
        sieveArray := sieveArray[p.a - x := sieveArray[p.a - x][p.b - y := true]];
      }
    }

    /** The c loop of crossOffMultiples (src/BlockSieve.cpp:64-93): every multiple of g in the window is cleared. */
    method SweepMultiples(g: Gint)
      requires BlockShaped(Win(), sieveArray) && Sweeps(g)
      modifies this`sieveArray
      ensures sieveArray == Cleared(Win(), old(sieveArray), g)
    {
      ghost var g0 := sieveArray;
      var w := Win();
      var c := CLow(w, g);
      var cUpper := CHigh(w, g);
      StruckStart(w, g0, g);
      while c <= cUpper
        invariant CLow(w, g) <= c && (c <= cUpper + 1 || c == CLow(w, g))
        invariant sieveArray == StruckCols(w, g0, g, c)
        decreases cUpper - c
      {
        SweepColumn(g, c, g0);
        c := c + 1;
      }
      SweepEnd(w, g0, g, c);
    }

    /** The d loop of crossOffMultiples for column c (src/BlockSieve.cpp:72-92): u + vi steps by i g. */
    method SweepColumn(g: Gint, c: int, ghost g0: seq<seq<bool>>)
      requires BlockShaped(Win(), g0) && Sweeps(g) && CLow(Win(), g) <= c <= CHigh(Win(), g)
      requires sieveArray == StruckCols(Win(), g0, g, c)
      modifies this`sieveArray
      ensures sieveArray == StruckCols(Win(), g0, g, c + 1)
    {
      var w := Win();
      var a, b := g.a, g.b;
      var d := DLow(w, g, c);
      var dUpper := DHigh(w, g, c);
      ColumnStart(w, g0, g, c);
      var u := a * c - b * d - x;
      var v := b * c + a * d - y;
      while d <= dUpper
        invariant DLow(w, g, c) <= d && (d <= dUpper + 1 || d == DLow(w, g, c))
        invariant Gint(u + x, v + y) == Mul(g, Gint(c, d))
        invariant sieveArray == Struck(w, g0, g, c, d)
        decreases dUpper - d
      {
        StruckStep(w, g0, g, c, d);
        sieveArray := sieveArray[u := sieveArray[u][v := false]];
        MulStepD(g, c, d);
        u := u - b;
        v := v + a;
        d := d + 1;
      }
      ColumnEnd(w, g0, g, c, d);
    }

    /** sieve (src/BaseSieve.cpp:19-33): crossOffMultiples for each small prime, in list order. */
    method Sieve()
      requires BlockShaped(Win(), sieveArray) && forall k :: 0 <= k < |smallPrimes| ==> Sweeps(smallPrimes[k])
      modifies this`sieveArray
      ensures sieveArray == SieveWith(Win(), old(sieveArray), smallPrimes)
    {
      var i := 0;
      while i < |smallPrimes|
        invariant 0 <= i <= |smallPrimes| && BlockShaped(Win(), sieveArray)
        invariant SieveWith(Win(), sieveArray, smallPrimes[i..]) == SieveWith(Win(), old(sieveArray), smallPrimes)
      {
        assert smallPrimes[i..][0] == smallPrimes[i];
        assert smallPrimes[i..][1..] == smallPrimes[i + 1..];
        CrossOffMultiples(smallPrimes[i]);
        i := i + 1;
      }
    }

    /**
     * run (src/BaseSieve.cpp:46-50): small primes, then the array, then the sieve. When
     * maxNorm is at least the norm of the far corner, as the constructor makes it, at the
     * end a point of the window of norm at least 2 is on exactly when it is a Gaussian
     * prime.
     */
    method Run()
      requires smallPrimes == [] && sieveArray == [] && maxNorm >= 4 && UnitsFit(Win())
      modifies this`smallPrimes, this`sieveArray
      ensures Sorted(smallPrimes)
      ensures multiset(smallPrimes) == multiset(Oct.Harvest(IntSqrt(maxNorm), Oct.Sieved(IntSqrt(maxNorm))))
      ensures PrimesSweep(smallPrimes)
      ensures sieveArray == SieveWith(Win(), InitialBlock(Win()), smallPrimes)
      ensures maxNorm >= MaxNorm(Win()) ==>
        forall p :: InWindow(Win(), p) && Norm(p) >= 2 ==> (On(Win(), sieveArray, p) <==> !Composite(p))
    {
      SetSmallPrimes();
      SetSieveArray();
      IntSqrtGreatest(maxNorm, 2);
      SmallPrimesSweep(IntSqrt(maxNorm), smallPrimes);
      Sieve();
      if maxNorm >= MaxNorm(Win()) {
        IntSqrtMonotone(MaxNorm(Win()), maxNorm);
        OctantRunExact(Win(), smallPrimes, IntSqrt(maxNorm));
      }
    }

    /** setBigPrimes (src/BlockSieve.cpp:105-120): the point of every true cell, column by column. */
    method SetBigPrimes()
      requires BlockShaped(Win(), sieveArray)
      modifies this`bigPrimes
      ensures bigPrimes == old(bigPrimes) + Harvest(Win(), sieveArray, dx)
    {
      var a := 0;
      while a < dx
        invariant 0 <= a <= dx
        invariant bigPrimes == old(bigPrimes) + Harvest(Win(), sieveArray, a)
      {
        var b := 0;
        ghost var before := bigPrimes;
        while b < dy
          invariant 0 <= b <= dy
          invariant bigPrimes == before + ColumnHarvest(Win(), sieveArray[a], a, b)
        {
          if sieveArray[a][b] {
            bigPrimes := bigPrimes + [Gint(a + x, b + y)];
          }
          b := b + 1;
        }
        a := a + 1;
      }
    }

    /** getCountBigPrimes (src/BlockSieve.cpp:122-138): the number of true cells, the length of the harvest. */
    method GetCountBigPrimes() returns (count: nat)
      requires BlockShaped(Win(), sieveArray)
      ensures count == |Harvest(Win(), sieveArray, dx)|
    {
      count := 0;
      var a := 0;
      while a < dx
        invariant 0 <= a <= dx
        invariant count == |Harvest(Win(), sieveArray, a)|
      {
        var b := 0;
        ghost var before := count;
        while b < dy
          invariant 0 <= b <= dy
          invariant count == before + |ColumnHarvest(Win(), sieveArray[a], a, b)|
        {
          if sieveArray[a][b] {
            count := count + 1;
          }
          b := b + 1;
        }
        a := a + 1;
      }
    }

    /** getBigPrimes (src/BaseSieve.cpp:52-62): harvest, then sort by the gint order. */
    method GetBigPrimes() returns (primes: seq<Gint>)
      requires BlockShaped(Win(), sieveArray)
      modifies this`bigPrimes
      ensures Sorted(primes) && primes == bigPrimes
      ensures multiset(bigPrimes) == multiset(old(bigPrimes) + Harvest(Win(), sieveArray, dx))
    {
      SetBigPrimes();
      bigPrimes := SortGints(bigPrimes);
      primes := bigPrimes;
    }
  }

  /** The small primes from the octant sieve can all be swept. */
  lemma SmallPrimesSweep(M: nat, ps: seq<Gint>)
    requires M >= 2 && multiset(ps) == multiset(Oct.Harvest(M, Oct.Sieved(M)))
    ensures PrimesSweep(ps)
  {
    forall k | 0 <= k < |ps|
      ensures Sweeps(ps[k]) && Norm(ps[k]) >= 2
    {
      assert ps[k] in multiset(Oct.Harvest(M, Oct.Sieved(M)));
      SmallPrimeSweeps(M, ps[k]);
    }
  }

  /** A run from the initial array keeps every Gaussian prime of the window on. */
  lemma RunKeepsPrimes(w: Window, ps: seq<Gint>)
    requires PrimesSweep(ps)
    ensures forall p :: InWindow(w, p) && Norm(p) >= 2 && !Composite(p) ==> On(w, SieveWith(w, InitialBlock(w), ps), p)
  {
    forall p | InWindow(w, p) && Norm(p) >= 2 && !Composite(p)
      ensures On(w, SieveWith(w, InitialBlock(w), ps), p)
    {
      NotUnit(p);
      InitialOn(w, p);
      SieveWithKeepsPrimes(w, InitialBlock(w), ps, p);
    }
  }

  /** Every point of the window other than 1 and i starts on. */
  lemma InitialOn(w: Window, p: Gint)
    requires InWindow(w, p) && p != Gint(1, 0) && p != Gint(0, 1)
    ensures On(w, InitialBlock(w), p)
  {
    assert PointAt(w, p.a - w.x, p.b - w.y) == p;
  }

  /** Every point of the octant sieve's output is a valid block sweep of norm at least 2. */
  lemma SmallPrimeSweeps(M: nat, g: Gint)
    requires M >= 2 && g in Oct.Harvest(M, Oct.Sieved(M))
    ensures Sweeps(g) && Norm(g) >= 2
  {
    Oct.HarvestMembers(M, Oct.Sieved(M), g);
    if g != Gint(1, 1) {
      var home := Oct.Home(g);
      SquareLe(2, home.a);
      SquareNonneg(home.b);
    }
  }
}
