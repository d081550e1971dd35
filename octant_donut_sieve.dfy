/**
 * The octant donut sieve of src/OctantDonutSieve.cpp. It sieves the same octant as
 * the octant sieve, but stores only the points coprime to 10: the 10 x 10 block
 * [10A, 10A + 9] x [10B, 10B + 9] is packed into the 32-bit word (A, B) by the wheel
 * tables, and the cofactors c + di that are not coprime to 10 are skipped.
 */
module OctantDonutSieve {
  import opened GaussianInt
  import opened BaseSieve
  import opened SieveGrid
  import opened DonutTables
  import opened Factorization
  import Oct = OctantSieve
  import DonutSmallPrimes

  // ---------------------------------------------------------------------------
  // Geometry of the array

  /** The number of words in column A (src/OctantDonutSieve.cpp:79-81). */
  ghost function DHeight(m: nat, A: nat): nat
  {
    if A <= IntSqrt(Quot(m, 200)) then A + 1
    else if A * A <= Quot(m, 100) then IntSqrt(Quot(m, 100) - A * A) + 1
    else 0
  }

  /** The array has the allocated shape for maxNorm m. */
  ghost predicate DShaped(m: nat, grid: seq<seq<bv32>>)
  {
    |grid| == IntSqrt(m) / 10 + 1 && forall A :: 0 <= A < |grid| ==> |grid[A]| == DHeight(m, A)
  }

  /** The words of a fresh array: every bit set. */
  ghost function FullWords(m: nat): (grid: seq<seq<bv32>>)
    ensures DShaped(m, grid)
  {
    seq(IntSqrt(m) / 10 + 1, A requires 0 <= A => seq(DHeight(m, A), _ => AllOnes))
  }

  lemma FirstWord(m: nat, grid: seq<seq<bv32>>)
    requires DShaped(m, grid)
    ensures Stored(grid, Gint(1, 0)) && Stored(grid, Gint(0, 1))
  {
  }

  /** The array as setSieveArray leaves it: all ones, then the bits of 1 and i cleared. */
  ghost function InitialWords(m: nat): (grid: seq<seq<bv32>>)
    ensures DShaped(m, grid)
  {
    var full := FullWords(m);
    FirstWord(m, full);
    var once := ClearCell(full, 1, 0);
    FirstWord(m, once);
    ClearCell(once, 0, 1)
  }

  /** After allocation every stored point is on except 1 and i. */
  lemma {:induction false} InitialWordsBits(m: nat, r: Gint)
    ensures Stored(InitialWords(m), r) == Stored(FullWords(m), r)
    ensures IsOn(InitialWords(m), r) <==> Stored(FullWords(m), r) && r != Gint(1, 0) && r != Gint(0, 1)
  {
    var full := FullWords(m);
    FirstWord(m, full);
    var once := ClearCell(full, 1, 0);
    FirstWord(m, once);
    ClearCellAt(full, 1, 0, r);
    ClearCellAt(once, 0, 1, r);
    if Stored(full, r) {
      AllOnesBits(BitOf(r.a, r.b));
    }
  }

  /** Every octant point of norm at most m that is coprime to 10 is stored in a shaped array. */
  lemma {:induction false} StoredInGrid(m: nat, grid: seq<seq<bv32>>, r: Gint)
    requires DShaped(m, grid) && InOctant(r) && Norm(r) <= m && Coprime10(r.a, r.b)
    ensures Stored(grid, r)
  {
    SquareNonneg(r.b);
    IntSqrtGreatest(m, r.a);
    DivTenLe(r.a, IntSqrt(m));
    DivTenLe(r.b, r.a);
    if r.a / 10 > IntSqrt(Quot(m, 200)) {
      WordBelowCircle(m, r);
    }
  }

  lemma DivTenLe(x: nat, y: nat)
    requires x <= y
    ensures x / 10 <= y / 10
  {
  }

  /** Beyond the diagonal, the word of a point of norm at most m lies below the column's height. */
  lemma {:induction false} WordBelowCircle(m: nat, r: Gint)
    requires r.a >= 0 && r.b >= 0 && Norm(r) <= m
    ensures (r.a / 10) * (r.a / 10) <= Quot(m, 100)
    ensures r.b / 10 <= IntSqrt(Quot(m, 100) - (r.a / 10) * (r.a / 10))
  {
    var A, B := r.a / 10, r.b / 10;
    SquareLe(10 * A, r.a);
    SquareLe(10 * B, r.b);
    assert (A * A + B * B) * 100 == (10 * A) * (10 * A) + (10 * B) * (10 * B);
    DivMulLe(A * A + B * B, 100, m);
    SquareNonneg(B);
    IntSqrtGreatest(Quot(m, 100) - A * A, B);
  }

  // ---------------------------------------------------------------------------
  // crossOffMultiples

  /** The product cell of a cofactor coprime to 10 is coprime to 10 when g is. */
  lemma ProductCellCoprime(g: Gint, h: Gint)
    requires g.a >= 0 && g.b >= 0 && h.a >= 0 && h.b >= 0
    ensures Coprime10(Oct.ProductCellOf(g, h).a, Oct.ProductCellOf(g, h).b) <==>
      Coprime10(g.a, g.b) && Coprime10(h.a, h.b)
  {
    ProductUpper(g, h);
    OctFoldKeepsClass(Mul(g, h));
    ClassCoprime10(Oct.ProductCellOf(g, h), Mul(g, h));
    MulCoprime10(g, h);
  }

  /** A cofactor that is not coprime to 10 strikes no cell coprime to 10, swept or not. */
  lemma {:induction false} SkipCofactor(m: nat, g: Gint, c: int, e: int, r: Gint)
    requires g.a >= 0 && g.b >= 0 && Norm(g) > 0 && Coprime10(r.a, r.b) && !Coprime10(c, e)
    ensures Oct.StruckBy(m, g, r.a, r.b, c, e + 1) == Oct.StruckBy(m, g, r.a, r.b, c, e)
  {
    if Oct.Swept(m, Norm(g), Gint(c, e)) {
      Oct.StruckByStep(m, g, c, e, r.a, r.b);
      ProductCellCoprime(g, Gint(c, e));
    }
  }

  /** Skipping a run of cofactors that are not coprime to 10 strikes no further cell coprime to 10. */
  lemma {:induction false} SkipRun(m: nat, g: Gint, c: int, d1: int, d2: int, r: Gint)
    requires g.a >= 0 && g.b >= 0 && Norm(g) > 0 && Coprime10(r.a, r.b) && d1 <= d2
    requires forall e :: d1 <= e < d2 ==> !Coprime10(c, e)
    ensures Oct.StruckBy(m, g, r.a, r.b, c, d1) == Oct.StruckBy(m, g, r.a, r.b, c, d2)
    decreases d2 - d1
  {
    if d1 < d2 {
      SkipCofactor(m, g, c, d1, r);
      SkipRun(m, g, c, d1 + 1, d2, r);
    }
  }

  /** Past dUpper nothing more is swept in column c. */
  lemma ColumnDone(m: nat, g: Gint, c: nat, d: int, r: Gint)
    requires Norm(g) > 0 && d > Oct.DUpper(m, Norm(g), c)
    ensures Oct.StruckBy(m, g, r.a, r.b, c, d) == Oct.StruckBy(m, g, r.a, r.b, c + 1, 0)
  {
  }

  /**
   * The array part way through the sweep of g, once the loops reach c + di: every stored
   * point keeps its bit unless one of the cofactors swept so far strikes its cell.
   */
  ghost predicate Struck(g0: seq<seq<bv32>>, grid: seq<seq<bv32>>, m: nat, g: Gint, c: int, d: int)
  {
    SameShape(g0, grid) &&
    forall r :: Stored(g0, r) ==> (IsOn(grid, r) <==> IsOn(g0, r) && !Oct.StruckBy(m, g, r.a, r.b, c, d))
  }

  lemma StruckStart(g0: seq<seq<bv32>>, m: nat, g: Gint)
    ensures Struck(g0, g0, m, g, 0, 0)
  {
  }

  /** Clearing the product cell of a swept cofactor coprime to 10 advances the sweep by one d. */
  lemma {:induction false} StruckClear(g0: seq<seq<bv32>>, grid: seq<seq<bv32>>, m: nat, g: Gint, c: nat, d: nat)
    requires DShaped(m, g0) && Sweepable(m, g) && Coprime10(g.a, g.b)
    requires Oct.Swept(m, Norm(g), Gint(c, d)) && Coprime10(c, d)
    requires Struck(g0, grid, m, g, c, d)
    ensures Stored(grid, Oct.ProductCellOf(g, Gint(c, d)))
    ensures var p := Oct.ProductCellOf(g, Gint(c, d));
      Struck(g0, ClearCell(grid, p.a, p.b), m, g, c, d + 1)
  {
    var h := Gint(c, d);
    var p := Oct.ProductCellOf(g, h);
    ProductUpper(g, h);
    Oct.SweptNormBound(m, Norm(g), h);
    MulNorm(g, h);
    OctFoldKeepsClass(Mul(g, h));
    assert Norm(g) * Norm(h) == Norm(p);
    ProductCellCoprime(g, h);
    StoredInGrid(m, g0, p);
    var next := ClearCell(grid, p.a, p.b);
    forall r | Stored(g0, r)
      ensures IsOn(next, r) <==> IsOn(g0, r) && !Oct.StruckBy(m, g, r.a, r.b, c, d + 1)
    {
      ClearCellAt(grid, p.a, p.b, r);
      Oct.StruckByStep(m, g, c, d, r.a, r.b);
    }
  }

  /** Jumping over a run of cofactors that are not coprime to 10 changes no point of the array. */
  lemma {:induction false} StruckSkip(g0: seq<seq<bv32>>, grid: seq<seq<bv32>>, m: nat, g: Gint, c: int, d1: int, d2: int)
    requires g.a >= 0 && g.b >= 0 && Norm(g) > 0 && d1 <= d2
    requires forall e :: d1 <= e < d2 ==> !Coprime10(c, e)
    requires Struck(g0, grid, m, g, c, d1)
    ensures Struck(g0, grid, m, g, c, d2)
  {
    forall r | Stored(g0, r)
      ensures Oct.StruckBy(m, g, r.a, r.b, c, d1) == Oct.StruckBy(m, g, r.a, r.b, c, d2)
    {
      SkipRun(m, g, c, d1, d2, r);
    }
  }

  lemma {:induction false} StruckNextColumn(g0: seq<seq<bv32>>, grid: seq<seq<bv32>>, m: nat, g: Gint, c: nat, d: int)
    requires Norm(g) > 0 && d > Oct.DUpper(m, Norm(g), c)
    requires Struck(g0, grid, m, g, c, d)
    ensures Struck(g0, grid, m, g, c + 1, 0)
  {
    forall r | Stored(g0, r)
      ensures Oct.StruckBy(m, g, r.a, r.b, c, d) == Oct.StruckBy(m, g, r.a, r.b, c + 1, 0)
    {
      ColumnDone(m, g, c, d, r);
    }
  }

  /** The sweep needs g's own cell, which only exists when g is coprime to 10. */
  ghost predicate DonutSweepable(m: nat, g: Gint)
  {
    Sweepable(m, g) && (Norm(g) <= 5 || Coprime10(g.a, g.b))
  }

  /**
   * The effect of crossOffMultiples(g) for N(g) > 5: a stored point is on afterwards
   * exactly when it is g's own cell, or it was on and no swept multiple of g folds onto
   * it. This is the octant sweep restricted to the points coprime to 10.
   */
  ghost predicate DonutSwept(g0: seq<seq<bv32>>, g1: seq<seq<bv32>>, m: nat, g: Gint)
    requires Sweepable(m, g)
  {
    SameShape(g0, g1) &&
    forall r {:trigger IsOn(g1, r)} {:trigger Stored(g0, r)} :: Stored(g0, r) ==>
      (IsOn(g1, r) <==>
        r == Oct.Home(g) || (IsOn(g0, r) && !Oct.StruckBy(m, g, r.a, r.b, CUpper(m, Norm(g)) + 1, 0)))
  }

  /** g's own cell is stored. */
  lemma HomeStored(m: nat, grid: seq<seq<bv32>>, g: Gint)
    requires DShaped(m, grid) && Sweepable(m, g) && Coprime10(g.a, g.b)
    ensures Stored(grid, Oct.Home(g))
  {
    ClassCoprime10(Oct.Home(g), g);
    StoredInGrid(m, grid, Oct.Home(g));
  }

  /** Re-marking g's own cell after the whole sweep completes the effect of crossOffMultiples. */
  lemma {:induction false} SweptAfterRemark(g0: seq<seq<bv32>>, grid: seq<seq<bv32>>, m: nat, g: Gint)
    requires DShaped(m, g0) && Sweepable(m, g) && Coprime10(g.a, g.b)
    requires Struck(g0, grid, m, g, CUpper(m, Norm(g)) + 1, 0)
    ensures Stored(grid, Oct.Home(g))
    ensures DonutSwept(g0, SetCell(grid, Oct.Home(g).a, Oct.Home(g).b), m, g)
  {
    var home := Oct.Home(g);
    HomeStored(m, g0, g);
    var next := SetCell(grid, home.a, home.b);
    forall r | Stored(g0, r)
      ensures IsOn(next, r) <==>
        r == home || (IsOn(g0, r) && !Oct.StruckBy(m, g, r.a, r.b, CUpper(m, Norm(g)) + 1, 0))
    {
      SetCellAt(grid, home.a, home.b, r);
    }
  }

  /** The d loop starts at dStart[c % 10], the first cofactor coprime to 10, and nothing before it is struck. */
  lemma ColumnStart(g0: seq<seq<bv32>>, grid: seq<seq<bv32>>, m: nat, g: Gint, c: nat)
    requires g.a >= 0 && g.b >= 0 && Norm(g) > 0
    requires Struck(g0, grid, m, g, c, 0)
    ensures Coprime10(c, DStart[c % 10]) && Struck(g0, grid, m, g, c, DStart[c % 10])
  {
    var d := DStart[c % 10];
    forall e | 0 <= e < d
      ensures !Coprime10(c, e)
    {
      WheelStart(c, e);
    }
    WheelStart(c, 0);
    StruckSkip(g0, grid, m, g, c, 0, d);
  }

  /** Jump and MulJump together: the next cofactor coprime to 10 and its product. */
  lemma JumpOn(g0: seq<seq<bv32>>, grid: seq<seq<bv32>>, m: nat, g: Gint, c: nat, d: nat, u: int, v: int)
    requires g.a >= 0 && g.b >= 0 && Norm(g) > 0 && Coprime10(c, d)
    requires Gint(u, v) == Mul(g, Gint(c, d))
    requires Struck(g0, grid, m, g, c, d + 1)
    ensures GapDonut[c % 10][d % 10] > 0 && Coprime10(c, d + GapDonut[c % 10][d % 10])
    ensures Struck(g0, grid, m, g, c, d + GapDonut[c % 10][d % 10])
    ensures Mul(g, Gint(c, d + GapDonut[c % 10][d % 10])) ==
      Gint(u - GapDonut[c % 10][d % 10] * g.b, v + GapDonut[c % 10][d % 10] * g.a)
  {
    Jump(g0, grid, m, g, c, d);
    MulJump(g, c, d, GapDonut[c % 10][d % 10]);
  }

  lemma MulJump(g: Gint, c: int, d: int, j: int)
    ensures Mul(g, Gint(c, d + j)) == Gint(Mul(g, Gint(c, d)).a - j * g.b, Mul(g, Gint(c, d)).b + j * g.a)
  {
    assert g.b * (d + j) == g.b * d + j * g.b;
    assert g.a * (d + j) == g.a * d + j * g.a;
  }

  /** The bounds of the c loop of crossOffMultiples (src/OctantDonutSieve.cpp:106, 112). */
  method SweepBounds(m: nat, n: nat) returns (cMax: nat, inter: nat)
    requires n > 0
    ensures cMax == CUpper(m, n) && inter == Oct.Diagonal(m, n)
  {
    var twoN := 2 * n;
    var q1 := Quot(m, n);
    var q2 := Quot(m, twoN);
    cMax := Isqrt(q1);
    inter := Isqrt(q2);
  }

  /** dBound of src/OctantDonutSieve.cpp:113: c below the diagonal, else isqrt(maxNorm / N(g) - c^2). */
  method ColumnTop(m: nat, n: nat, c: nat, inter: nat, cMax: nat) returns (dBound: nat)
    requires n > 0 && inter == Oct.Diagonal(m, n) && cMax == CUpper(m, n) && c <= cMax
    ensures dBound == Oct.DUpper(m, n, c)
  {
    if c <= inter {
      dBound := c;
    } else {
      SquareLe(c, cMax);
      dBound := Isqrt(Quot(m, n) - c * c);
    }
  }

  class OctantDonutSieve {
    const maxNorm: nat
    var smallPrimes: seq<Gint>
    var bigPrimes: seq<Gint>
    var sieveArray: seq<seq<bv32>>

    constructor (x: nat)
      ensures maxNorm == x && smallPrimes == [] && bigPrimes == [] && sieveArray == []
    {
      maxNorm := x;
      smallPrimes := [];
      bigPrimes := [];
      sieveArray := [];
    }

    /**
     * setSieveArray (src/OctantDonutSieve.cpp:65-92): column A, for A = 0 .. isqrt(x) / 10,
     * of DHeight words of all ones; then the bits of 1 and i cleared.
     */
    method SetSieveArray()
      requires sieveArray == []
      modifies this`sieveArray
      ensures sieveArray == InitialWords(maxNorm)
    {
      sieveArray := FullColumns(maxNorm);
      FirstWord(maxNorm, sieveArray);
      SetFalse(1, 0);
      FirstWord(maxNorm, sieveArray);
      SetFalse(0, 1);
    }

    /** setFalse (src/OctantDonutSieve.cpp:160-165): clears the bit of u + vi. */
    method SetFalse(u: nat, v: nat)
      requires Stored(sieveArray, Gint(u, v))
      modifies this`sieveArray
      ensures sieveArray == ClearCell(old(sieveArray), u, v)
    {
      var bit := BitOf(u, v);
      var word := sieveArray[u / 10][v / 10] & !(1 << bit);
      sieveArray := sieveArray[u / 10 := sieveArray[u / 10][v / 10 := word]];
    }

    /** setTrue (src/OctantDonutSieve.cpp:167-172): sets the bit of u + vi. */
    method SetTrue(u: nat, v: nat)
      requires Stored(sieveArray, Gint(u, v))
      modifies this`sieveArray
      ensures sieveArray == SetCell(old(sieveArray), u, v)
    {
      var bit := BitOf(u, v);
      var word := sieveArray[u / 10][v / 10] | (1 << bit);
      sieveArray := sieveArray[u / 10 := sieveArray[u / 10][v / 10 := word]];
    }

    /**
     * crossOffMultiples (src/OctantDonutSieve.cpp:94-158): nothing for N(g) <= 5;
     * otherwise g (c + di) for every cofactor coprime to 10 with c from 0 to
     * isqrt(x / N(g)) and d up to dBound, folded into the octant and cleared; then g's
     * own cell is set again.
     */
    method CrossOffMultiples(g: Gint)
      requires DShaped(maxNorm, sieveArray) && DonutSweepable(maxNorm, g)
      modifies this`sieveArray
      ensures Norm(g) <= 5 ==> sieveArray == old(sieveArray)
      ensures Norm(g) > 5 ==> DonutSwept(old(sieveArray), sieveArray, maxNorm, g)
      ensures DShaped(maxNorm, sieveArray)
    {
      if Norm(g) <= 5 {
        return;
      }
      ghost var g0 := sieveArray;
      SweepMultiples(g);
      HomeStored(maxNorm, g0, g);
      SweptAfterRemark(g0, sieveArray, maxNorm, g);
      if g.a > g.b {
        SetTrue(g.a, g.b);
      } else {
        SetTrue(g.b, g.a);
      }
    }

    /** The c loop of crossOffMultiples (src/OctantDonutSieve.cpp:106-149). */
    method SweepMultiples(g: Gint)
      requires DShaped(maxNorm, sieveArray) && Sweepable(maxNorm, g) && Coprime10(g.a, g.b)
      modifies this`sieveArray
      ensures Struck(old(sieveArray), sieveArray, maxNorm, g, CUpper(maxNorm, Norm(g)) + 1, 0)
    {
      ghost var g0 := sieveArray;
      var n := Norm(g);
      var cMax, inter := SweepBounds(maxNorm, n);
      StruckStart(g0, maxNorm, g);
      var c := 0;
      while c <= cMax
        invariant 0 <= c <= cMax + 1
        invariant Struck(g0, sieveArray, maxNorm, g, c, 0)
      {
        var dBound := ColumnTop(maxNorm, n, c, inter, cMax);
        SweepColumn(g, c, dBound, g0);
        c := c + 1;
      }
    }

    /** The body of the d loop (src/OctantDonutSieve.cpp:119-141): u + vi folded into the octant and cleared. */
    method StrikeProduct(g: Gint, c: nat, d: nat, u: int, v: int, ghost g0: seq<seq<bv32>>)
      requires DShaped(maxNorm, g0) && Sweepable(maxNorm, g) && Coprime10(g.a, g.b)
      requires c <= CUpper(maxNorm, Norm(g)) && d <= Oct.DUpper(maxNorm, Norm(g), c) && Coprime10(c, d)
      requires Gint(u, v) == Mul(g, Gint(c, d))
      requires Struck(g0, sieveArray, maxNorm, g, c, d)
      modifies this`sieveArray
      ensures Struck(g0, sieveArray, maxNorm, g, c, d + 1)
    {
      assert c >= 1 by {
        if c == 0 {
          WheelStart(0, d);
        }
      }
      ghost var w1 := sieveArray;
      ghost var p := Oct.ProductCellOf(g, Gint(c, d));
      StruckClear(g0, w1, maxNorm, g, c, d);
      ProductUpper(g, Gint(c, d));
      // Apply units and conjugation until u + vi is in the octant.
      var s, t;
      if u > 0 {
        if u >= v {
          s, t := u, v;
        } else {
          s, t := v, u;
        }
      } else {
        if v >= -u {
          s, t := v, -u;
        } else {
          s, t := -u, v;
        }
      }
      assert Gint(s, t) == p;
      SetFalse(s, t);
      assert sieveArray == ClearCell(w1, p.a, p.b);
    }

    /**
     * The d loop of crossOffMultiples (src/OctantDonutSieve.cpp:108-148): d starts at
     * dStart[c % 10] and jumps by gapDonut[c % 10][d % 10], while u + vi = g (c + di)
     * follows it.
     */
    method SweepColumn(g: Gint, c: nat, dBound: nat, ghost g0: seq<seq<bv32>>)
      requires DShaped(maxNorm, g0) && Sweepable(maxNorm, g) && Coprime10(g.a, g.b)
      requires c <= CUpper(maxNorm, Norm(g)) && dBound == Oct.DUpper(maxNorm, Norm(g), c)
      requires Struck(g0, sieveArray, maxNorm, g, c, 0)
      modifies this`sieveArray
      ensures Struck(g0, sieveArray, maxNorm, g, c + 1, 0)
    {
      var d: nat := DStart[c % 10];
      ColumnStart(g0, sieveArray, maxNorm, g, c);
      var u := c * g.a - d * g.b;
      var v := c * g.b + d * g.a;
      while d <= dBound
        invariant Coprime10(c, d)
        invariant Gint(u, v) == Mul(g, Gint(c, d))
        invariant Struck(g0, sieveArray, maxNorm, g, c, d)
        decreases dBound + 1 - d
      {
        d, u, v := StrikeAndJump(g, c, d, u, v, g0);
      }
      StruckNextColumn(g0, sieveArray, maxNorm, g, c, d);
    }

    /** One pass of the d loop: the product is cleared and d jumps to the next cofactor coprime to 10. */
    method StrikeAndJump(g: Gint, c: nat, d: nat, u: int, v: int, ghost g0: seq<seq<bv32>>) returns (d1: nat, u1: int, v1: int)
      requires DShaped(maxNorm, g0) && Sweepable(maxNorm, g) && Coprime10(g.a, g.b)
      requires c <= CUpper(maxNorm, Norm(g)) && d <= Oct.DUpper(maxNorm, Norm(g), c) && Coprime10(c, d)
      requires Gint(u, v) == Mul(g, Gint(c, d))
      requires Struck(g0, sieveArray, maxNorm, g, c, d)
      modifies this`sieveArray
      ensures d < d1 && Coprime10(c, d1) && Gint(u1, v1) == Mul(g, Gint(c, d1))
      ensures Struck(g0, sieveArray, maxNorm, g, c, d1)
    {
      StrikeProduct(g, c, d, u, v, g0);
      var jump := GapDonut[c % 10][d % 10];
      JumpOn(g0, sieveArray, maxNorm, g, c, d, u, v);
      d1 := d + jump;
      u1 := u - jump * g.b;
      v1 := v + jump * g.a;
    }

    /** setSmallPrimes (src/OctantDonutSieve.cpp:52-63): the sorted output of an octant sieve of radius isqrt(maxNorm). */
    method SetSmallPrimes()
      requires maxNorm >= 4
      modifies this`smallPrimes
      ensures Sorted(smallPrimes)
      ensures multiset(smallPrimes) == multiset(Oct.Harvest(IntSqrt(maxNorm), Oct.Sieved(IntSqrt(maxNorm))))
    {
      var rt := Isqrt(maxNorm);
      IntSqrtGreatest(maxNorm, 2);
      var s := new Oct.OctantSieve(rt);
      s.Run();
      smallPrimes := s.GetBigPrimes();
    }

    /** sieve (src/BaseSieve.cpp:19-33): crossOffMultiples for each small prime, in list order. */
    method Sieve()
      requires DShaped(maxNorm, sieveArray)
      requires forall k :: 0 <= k < |smallPrimes| ==> DonutSweepable(maxNorm, smallPrimes[k])
      modifies this`sieveArray
      ensures DShaped(maxNorm, sieveArray) && SievedWith(old(sieveArray), sieveArray, maxNorm, smallPrimes)
    {
      ghost var trace := [sieveArray];
      var i := 0;
      while i < |smallPrimes|
        invariant 0 <= i <= |smallPrimes| && DShaped(maxNorm, sieveArray)
        invariant SieveTrace(trace, maxNorm, smallPrimes[..i])
        invariant trace[0] == old(sieveArray) && trace[i] == sieveArray
      {
        CrossOffMultiples(smallPrimes[i]);
        trace := trace + [sieveArray];
        i := i + 1;
      }
      assert smallPrimes[..i] == smallPrimes;
    }

    /**
     * run (src/BaseSieve.cpp:46-50): small primes, then the array, then the sieve. Every
     * small prime is a valid sweep, and no Gaussian prime is turned off.
     */
    method Run()
      requires smallPrimes == [] && sieveArray == [] && maxNorm >= 4
      modifies this`smallPrimes, this`sieveArray
      ensures Sorted(smallPrimes)
      ensures multiset(smallPrimes) == multiset(Oct.Harvest(IntSqrt(maxNorm), Oct.Sieved(IntSqrt(maxNorm))))
      ensures DShaped(maxNorm, sieveArray) && SievedWith(InitialWords(maxNorm), sieveArray, maxNorm, smallPrimes)
      ensures PrimesOn(sieveArray)
      ensures forall r :: InOctant(r) && 2 <= Norm(r) <= maxNorm && Coprime10(r.a, r.b) ==>
        (IsOn(sieveArray, r) <==> !Composite(r))
    {
      SetSmallPrimes();
      SetSieveArray();
      ghost var rt := IntSqrt(maxNorm);
      IntSqrtGreatest(maxNorm, 2);
      IntSqrtBelow(maxNorm);
      forall k | 0 <= k < |smallPrimes|
        ensures DonutSweepable(maxNorm, smallPrimes[k])
      {
        assert smallPrimes[k] in multiset(Oct.Harvest(rt, Oct.Sieved(rt)));
        DonutSmallPrimes.HarvestCoprime(rt, maxNorm, smallPrimes[k]);
      }
      Sieve();
      InitialPrimesOn(maxNorm);
      SievedWithKeepsPrimes(InitialWords(maxNorm), sieveArray, maxNorm, smallPrimes);
      Oct.HarvestListsAllPrimes(rt, smallPrimes);
      SievedWithExact(maxNorm, sieveArray, smallPrimes);
    }

    /**
     * setBigPrimes (src/OctantDonutSieve.cpp:174-212): 1 + i, 2 + i, 1 + 2i, then every
     * set bit whose point has norm at most x, a != 0 and a > b, followed by its flip
     * when b != 0. Each column is read up to the height setSieveArray gave it.
     */
    method SetBigPrimes()
      requires DShaped(maxNorm, sieveArray)
      modifies this`bigPrimes
      ensures bigPrimes == old(bigPrimes) + DHarvest(maxNorm, sieveArray)
    {
      var found := HarvestAll(maxNorm, sieveArray);
      bigPrimes := bigPrimes + found;
    }

    /** getCountBigPrimes (src/OctantDonutSieve.cpp:214-254): four times the length of the harvest, without building it. */
    method GetCountBigPrimes() returns (count: nat)
      requires DShaped(maxNorm, sieveArray)
      ensures count == 4 * |DHarvest(maxNorm, sieveArray)|
    {
      count := 3;
      var more := CountScan(maxNorm, sieveArray);
      count := count + more;
      count := count * 4;
    }

    /** getBigPrimes (src/BaseSieve.cpp:52-62): harvest, then sort by the gint order. */
    method GetBigPrimes() returns (primes: seq<Gint>)
      requires DShaped(maxNorm, sieveArray)
      modifies this`bigPrimes
      ensures Sorted(primes) && primes == bigPrimes
      ensures multiset(bigPrimes) == multiset(old(bigPrimes) + DHarvest(maxNorm, sieveArray))
    {
      SetBigPrimes();
      bigPrimes := SortGints(bigPrimes);
      primes := bigPrimes;
    }
  }

  /**
   * The first comparison of src/test.cpp:17-44: an octant sieve and an octant donut sieve
   * of the same norm bound x, each run and harvested, give the same sorted list, namely the
   * Gaussian primes a + bi with a > 0, b >= 0 and norm 2 to x.
   */
  method CompareOctantSieves(x: nat) returns (oP: seq<Gint>, dP: seq<Gint>)
    requires x >= 5
    ensures oP == dP
    ensures forall g :: g in oP <==> g.a > 0 && g.b >= 0 && 2 <= Norm(g) <= x && !Composite(g)
  {
    ghost var ps, grid;
    oP := OctantPrimes(x);
    dP, ps, grid := DonutOctantPrimes(x);
    SortedHarvestsAgree(x, grid, ps, oP, dP);
    OctantPrimesExact(x, oP);
  }

  /** The octant sieve half of CompareOctantSieves: construct, run, getBigPrimes. */
  method OctantPrimes(x: nat) returns (oP: seq<Gint>)
    requires x >= 2
    ensures Sorted(oP) && multiset(oP) == multiset(Oct.Harvest(x, Oct.Sieved(x)))
  {
    var o := new Oct.OctantSieve(x);
    o.Run();
    oP := o.GetBigPrimes();
    assert [] + Oct.Harvest(x, o.sieveArray) == Oct.Harvest(x, o.sieveArray);
  }

  /** The octant donut sieve half of CompareOctantSieves: construct, run, getBigPrimes. */
  method DonutOctantPrimes(x: nat) returns (dP: seq<Gint>, ghost ps: seq<Gint>, ghost grid: seq<seq<bv32>>)
    requires x >= 4
    ensures DShaped(x, grid) && SievedWith(InitialWords(x), grid, x, ps) && Oct.AllPrimesTo(ps, IntSqrt(x))
    ensures Sorted(dP) && multiset(dP) == multiset(DHarvest(x, grid))
  {
    var d := new OctantDonutSieve(x);
    d.Run();
    dP := d.GetBigPrimes();
    ps, grid := d.smallPrimes, d.sieveArray;
    assert [] + DHarvest(x, grid) == DHarvest(x, grid);
    IntSqrtGreatest(x, 2);
    Oct.HarvestListsAllPrimes(IntSqrt(x), ps);
  }

  /** Any ordering of the octant sieve's output holds exactly the Gaussian primes a + bi with a > 0, b >= 0 and norm 2 to x. */
  lemma OctantPrimesExact(x: nat, oP: seq<Gint>)
    requires x >= 2 && multiset(oP) == multiset(Oct.Harvest(x, Oct.Sieved(x)))
    ensures forall g :: g in oP <==> g.a > 0 && g.b >= 0 && 2 <= Norm(g) <= x && !Composite(g)
  {
    forall g
      ensures g in oP <==> g.a > 0 && g.b >= 0 && 2 <= Norm(g) <= x && !Composite(g)
    {
      assert g in oP <==> g in multiset(oP);
      Oct.HarvestIsPrimes(x, g);
    }
  }

  /** d += gapDonut[c % 10][d % 10] lands on the next cofactor coprime to 10 and strikes nothing on the way. */
  lemma {:induction false} Jump(g0: seq<seq<bv32>>, grid: seq<seq<bv32>>, m: nat, g: Gint, c: nat, d: nat)
    requires g.a >= 0 && g.b >= 0 && Norm(g) > 0 && Coprime10(c, d)
    requires Struck(g0, grid, m, g, c, d + 1)
    ensures GapDonut[c % 10][d % 10] > 0 && Coprime10(c, d + GapDonut[c % 10][d % 10])
    ensures Struck(g0, grid, m, g, c, d + GapDonut[c % 10][d % 10])
  {
    var jump := GapDonut[c % 10][d % 10];
    forall e | d + 1 <= e < d + jump
      ensures !Coprime10(c, e)
    {
      WheelStep(c, d, e);
    }
    WheelStep(c, d, d);
    StruckSkip(g0, grid, m, g, c, d + 1, d + jump);
  }

  lemma TopColumn(m: nat, a: nat)
    requires a <= IntSqrt(m) / 10
    ensures a * a <= Quot(m, 100)
  {
    SquareLe(10 * a, IntSqrt(m));
    IntSqrtGreatest(m, IntSqrt(m));
    assert (a * a) * 100 <= m;
    DivMulLe(a * a, 100, m);
  }

  // ---------------------------------------------------------------------------
  // What one sweep does

  /** A point crossOffMultiples(g) turns off is, up to units and conjugation, g h for a non-unit h. */
  lemma {:induction false} SweepClearsOnlyMultiples(g0: seq<seq<bv32>>, g1: seq<seq<bv32>>, m: nat, g: Gint, r: Gint)
    returns (h: Gint)
    requires Sweepable(m, g) && DonutSwept(g0, g1, m, g) && IsOn(g0, r) && !IsOn(g1, r)
    ensures Norm(h) >= 2 && SameClass(r, Mul(g, h))
  {
    h := Oct.StruckFactor(m, g, r.a, r.b, CUpper(m, Norm(g)) + 1);
    Oct.FoldHome(g);
    assert Mul(g, Gint(1, 0)) == g;
    NonUnitCofactor(h);
  }

  /**
   * crossOffMultiples(g) turns off the cell of every multiple g h, for h a non-unit of
   * the octant coprime to 10 with N(g) N(h) <= maxNorm.
   */
  lemma {:induction false} SweepClearsMultiples(g0: seq<seq<bv32>>, g1: seq<seq<bv32>>, m: nat, g: Gint, h: Gint)
    requires DShaped(m, g0) && Sweepable(m, g) && Coprime10(g.a, g.b) && DonutSwept(g0, g1, m, g)
    requires 1 <= h.a && 0 <= h.b <= h.a && h != Gint(1, 0) && Coprime10(h.a, h.b) && Norm(g) * Norm(h) <= m
    ensures Stored(g0, Oct.ProductCellOf(g, h)) && !IsOn(g1, Oct.ProductCellOf(g, h))
  {
    var p := Oct.ProductCellOf(g, h);
    Oct.StruckProduct(m, Oct.InitialGrid(m), g, h);
    Oct.ProductAwayFromHome(g, h);
    ProductCellCoprime(g, h);
    MulNorm(g, h);
    OctFoldKeepsClass(Mul(g, h));
    StoredInGrid(m, g0, p);
  }

  /** The first-quadrant points of norm 2 to 5 (1 + i, 2, 2 + i, ...) all share a factor with 10. */
  lemma SmallNormShared(g: Gint)
    requires g.a >= 0 && g.b >= 0 && 2 <= Norm(g) <= 5
    ensures !Coprime10(g.a, g.b)
  {
    if g.a >= 3 {
      SquareLe(3, g.a);
      SquareNonneg(g.b);
    } else if g.b >= 3 {
      SquareLe(3, g.b);
      SquareNonneg(g.a);
    }
  }

  /** The octant array and the donut array hold the same value for every octant point of norm at most m coprime to 10. */
  ghost predicate Agree(m: nat, grid: seq<seq<bool>>, words: seq<seq<bv32>>)
  {
    forall r :: InOctant(r) && Norm(r) <= m && Coprime10(r.a, r.b) ==> (IsSet(grid, r) <==> IsOn(words, r))
  }

  /**
   * One sweep of the octant sieve and the same sweep of the donut sieve keep the two
   * arrays in agreement on the points coprime to 10. For N(g) <= 5 the donut skips the
   * sweep, and the octant sweep only touches cells that share a factor with 10.
   */
  lemma {:induction false} SweepAgrees(m: nat, grid: seq<seq<bool>>, w0: seq<seq<bv32>>, w1: seq<seq<bv32>>, g: Gint)
    requires Oct.Shaped(m, grid) && DShaped(m, w0) && DonutSweepable(m, g) && Norm(g) >= 2
    requires Norm(g) <= 5 ==> w1 == w0
    requires Norm(g) > 5 ==> DonutSwept(w0, w1, m, g) && IsSet(grid, Oct.Home(g))
    requires Agree(m, grid, w0)
    ensures Agree(m, Oct.CrossOff(grid, m, g), w1)
  {
    var g2 := Oct.CrossOff(grid, m, g);
    forall r | InOctant(r) && Norm(r) <= m && Coprime10(r.a, r.b)
      ensures IsSet(g2, r) <==> IsOn(w1, r)
    {
      Oct.CellInGrid(m, grid, r);
      Oct.CrossOffAt(grid, m, g, r);
      StoredInGrid(m, w0, r);
      if Norm(g) <= 5 {
        SmallNormShared(g);
        ClassCoprime10(Oct.Home(g), g);
        if Oct.StruckBy(m, g, r.a, r.b, CUpper(m, Norm(g)) + 1, 0) {
          var h := Oct.StruckFactor(m, g, r.a, r.b, CUpper(m, Norm(g)) + 1);
          ProductCellCoprime(g, h);
        }
      }
    }
  }

  // ---------------------------------------------------------------------------
  // sieve() and run()

  /** Every stored Gaussian prime is on, apart from the units 1 and i that setSieveArray clears. */
  ghost predicate PrimesOn(grid: seq<seq<bv32>>)
  {
    forall r {:trigger IsOn(grid, r)} {:trigger Stored(grid, r)} ::
      Stored(grid, r) && r != Gint(1, 0) && r != Gint(0, 1) && !Composite(r) ==> IsOn(grid, r)
  }

  lemma InitialPrimesOn(m: nat)
    ensures PrimesOn(InitialWords(m))
  {
    forall r | Stored(InitialWords(m), r) && r != Gint(1, 0) && r != Gint(0, 1)
      ensures IsOn(InitialWords(m), r)
    {
      InitialWordsBits(m, r);
    }
  }

  /** The effect of crossOffMultiples(g): nothing for N(g) <= 5, else the sweep. */
  ghost predicate DonutStep(g0: seq<seq<bv32>>, g1: seq<seq<bv32>>, m: nat, g: Gint)
  {
    DonutSweepable(m, g) && (if Norm(g) <= 5 then g1 == g0 else DonutSwept(g0, g1, m, g))
  }

  /** trace lists the array before and after crossOffMultiples with each point of ps in turn. */
  ghost predicate SieveTrace(trace: seq<seq<seq<bv32>>>, m: nat, ps: seq<Gint>)
  {
    |trace| == |ps| + 1 && forall k :: 0 <= k < |ps| ==> DonutStep(trace[k], trace[k + 1], m, ps[k])
  }

  /** g1 is g0 after crossOffMultiples with each point of ps in turn. */
  ghost predicate SievedWith(g0: seq<seq<bv32>>, g1: seq<seq<bv32>>, m: nat, ps: seq<Gint>)
  {
    exists trace :: SieveTrace(trace, m, ps) && trace[0] == g0 && trace[|ps|] == g1
  }

  lemma {:induction false} TraceKeepsPrimes(trace: seq<seq<seq<bv32>>>, m: nat, ps: seq<Gint>, k: nat)
    requires SieveTrace(trace, m, ps) && PrimesOn(trace[0]) && k <= |ps|
    ensures SameShape(trace[0], trace[k]) && PrimesOn(trace[k])
  {
    if k > 0 {
      TraceKeepsPrimes(trace, m, ps, k - 1);
      TraceStepAt(trace, m, ps, k - 1);
      StepKeepsPrimes(trace[0], trace[k - 1], trace[k], m, ps[k - 1]);
    }
  }

  /** One crossOffMultiples keeps the shape and keeps every stored Gaussian prime on. */
  lemma StepKeepsPrimes(first: seq<seq<bv32>>, mid: seq<seq<bv32>>, next: seq<seq<bv32>>, m: nat, g: Gint)
    requires DonutStep(mid, next, m, g) && PrimesOn(mid) && SameShape(first, mid)
    ensures SameShape(first, next) && PrimesOn(next)
  {
    if Norm(g) > 5 {
      forall r | Stored(next, r) && r != Gint(1, 0) && r != Gint(0, 1) && !Composite(r)
        ensures IsOn(next, r)
      {
        SameShapeStored(mid, next, r);
        if !IsOn(next, r) {
          var h := SweepClearsOnlyMultiples(mid, next, m, g, r);
        }
      }
    }
  }

  lemma TraceStepAt(trace: seq<seq<seq<bv32>>>, m: nat, ps: seq<Gint>, k: nat)
    requires SieveTrace(trace, m, ps) && k < |ps|
    ensures DonutStep(trace[k], trace[k + 1], m, ps[k])
  {
  }

  /** Sieving keeps the shape and never turns off a Gaussian prime. */
  lemma SievedWithKeepsPrimes(g0: seq<seq<bv32>>, g1: seq<seq<bv32>>, m: nat, ps: seq<Gint>)
    requires SievedWith(g0, g1, m, ps) && PrimesOn(g0)
    ensures SameShape(g0, g1) && PrimesOn(g1)
  {
    var trace :| SieveTrace(trace, m, ps) && trace[0] == g0 && trace[|ps|] == g1;
    TraceKeepsPrimes(trace, m, ps, |ps|);
  }

  /** 1 stays off through the octant donut sieve: its sweeps only set cells of norm above 5. */
  lemma {:induction false} TraceKeepsOneOff(trace: seq<seq<seq<bv32>>>, m: nat, ps: seq<Gint>, k: nat)
    requires SieveTrace(trace, m, ps) && k <= |ps|
    requires Stored(trace[0], Gint(1, 0)) && !IsOn(trace[0], Gint(1, 0))
    ensures Stored(trace[k], Gint(1, 0)) && !IsOn(trace[k], Gint(1, 0))
  {
    if k > 0 {
      TraceKeepsOneOff(trace, m, ps, k - 1);
      var g, mid, next := ps[k - 1], trace[k - 1], trace[k];
      assert DonutStep(mid, next, m, g);
      if Norm(g) > 5 {
        SameShapeStored(mid, next, Gint(1, 0));
        assert Oct.Home(g) != Gint(1, 0);
      }
    }
  }

  /** 1 is off in every array the octant donut sieve reaches. */
  lemma SievedOneOff(m: nat, grid: seq<seq<bv32>>, ps0: seq<Gint>)
    requires SievedWith(InitialWords(m), grid, m, ps0)
    ensures Stored(grid, Gint(1, 0)) && !IsOn(grid, Gint(1, 0))
  {
    var trace :| SieveTrace(trace, m, ps0) && trace[0] == InitialWords(m) && trace[|ps0|] == grid;
    FirstWord(m, FullWords(m));
    InitialWordsBits(m, Gint(1, 0));
    TraceKeepsOneOff(trace, m, ps0, |ps0|);
  }

  /** Once a composite is off, the later sweeps leave it off: each re-marks only its own prime's cell. */
  lemma {:induction false} TraceKeepsOff(trace: seq<seq<seq<bv32>>>, m: nat, ps: seq<Gint>, i: nat, r: Gint)
    requires SieveTrace(trace, m, ps) && i <= |ps|
    requires forall k :: 0 <= k < |ps| ==> !Composite(ps[k])
    requires Stored(trace[i], r) && !IsOn(trace[i], r) && Composite(r)
    ensures !IsOn(trace[|ps|], r)
    decreases |ps| - i
  {
    if i < |ps| {
      var g, mid, next := ps[i], trace[i], trace[i + 1];
      assert DonutStep(mid, next, m, g);
      if Norm(g) > 5 {
        SameShapeStored(mid, next, r);
        if Oct.Home(g) == r && r != g {
          FlipComposite(g);
        }
      }
      TraceKeepsOff(trace, m, ps, i + 1, r);
    }
  }

  /**
   * Completeness of the donut sieve: when ps holds Gaussian primes only and every Gaussian
   * prime of the first quadrant of norm up to isqrt(m), every composite of the octant of
   * norm at most m that is coprime to 10 ends off. Its prime factor g (or the flip) is
   * coprime to 10, so N(g) > 5 and g's sweep runs and clears it; no later sweep re-marks it.
   */
  lemma {:induction false} TraceClearsComposites(trace: seq<seq<seq<bv32>>>, m: nat, ps: seq<Gint>, r: Gint)
    requires SieveTrace(trace, m, ps) && DShaped(m, trace[0]) && PrimesOn(trace[0])
    requires Oct.AllPrimesTo(ps, IntSqrt(m))
    requires InOctant(r) && Norm(r) <= m && Coprime10(r.a, r.b) && Composite(r)
    ensures !IsOn(trace[|ps|], r)
  {
    var k, h := CompositeSweeper(m, ps, r);
    var g := ps[k];
    assert DonutStep(trace[k], trace[k + 1], m, g);
    TraceKeepsPrimes(trace, m, ps, k);
    SweepClearsMultiples(trace[k], trace[k + 1], m, g, h);
    TraceKeepsOff(trace, m, ps, k + 1, r);
  }

  /**
   * A composite octant point r coprime to 10 of norm at most m is the cell of g h for a
   * small prime g = ps[k] of norm above 5 (so g really sweeps) and an octant cofactor h
   * coprime to 10 other than 1.
   */
  lemma CompositeSweeper(m: nat, ps: seq<Gint>, r: Gint) returns (k: nat, h: Gint)
    requires Oct.AllPrimesTo(ps, IntSqrt(m))
    requires InOctant(r) && Norm(r) <= m && Coprime10(r.a, r.b) && Composite(r)
    ensures k < |ps| && ps[k].a >= 0 && ps[k].b >= 0 && Norm(ps[k]) > 5 && Coprime10(ps[k].a, ps[k].b)
    ensures 1 <= h.a && 0 <= h.b <= h.a && h != Gint(1, 0) && Coprime10(h.a, h.b)
    ensures Norm(ps[k]) * Norm(h) <= m && Oct.ProductCellOf(ps[k], h) == r
  {
    var p, q := FirstQuadrantPrimeFactor(r);
    IntSqrtGreatest(m, Norm(p));
    var g: Gint;
    g, h := OctantCofactor(p, q, r);
    FlipInvolution(p);
    if g != p && Composite(g) {
      FlipComposite(p);
    }
    assert g in ps;
    k :| 0 <= k < |ps| && ps[k] == g;
    ProductCellCoprime(g, h);
    if Norm(g) <= 5 {
      SmallNormShared(g);
    }
    MulNorm(g, h);
  }

  /**
   * After sieving the fresh array with such a list, a stored octant point of norm 2 to m
   * is on exactly when it is a Gaussian prime.
   */
  lemma SievedWithExact(m: nat, g1: seq<seq<bv32>>, ps: seq<Gint>)
    requires SievedWith(InitialWords(m), g1, m, ps) && Oct.AllPrimesTo(ps, IntSqrt(m))
    ensures forall r :: InOctant(r) && 2 <= Norm(r) <= m && Coprime10(r.a, r.b) ==> (IsOn(g1, r) <==> !Composite(r))
  {
    var trace :| SieveTrace(trace, m, ps) && trace[0] == InitialWords(m) && trace[|ps|] == g1;
    InitialPrimesOn(m);
    TraceKeepsPrimes(trace, m, ps, |ps|);
    forall r | InOctant(r) && 2 <= Norm(r) <= m && Coprime10(r.a, r.b)
      ensures IsOn(g1, r) <==> !Composite(r)
    {
      StoredInGrid(m, InitialWords(m), r);
      SameShapeStored(InitialWords(m), g1, r);
      if Composite(r) {
        TraceClearsComposites(trace, m, ps, r);
      }
    }
  }

  // ---------------------------------------------------------------------------
  // setBigPrimes and getCountBigPrimes

  /** The 32 points of word (A, B), in bit order. */
  function WordPoints(A: nat, B: nat): (r: seq<Gint>)
    ensures |r| == 32
  {
    seq(32, k requires 0 <= k < 32 => Pt(A, B, k as bv5))
  }

  /** The points of words 0 .. top - 1 of column A, word by word. */
  function ColumnPoints(A: nat, top: nat): seq<Gint>
  {
    if top == 0 then [] else ColumnPoints(A, top - 1) + WordPoints(A, top - 1)
  }

  /** The points of every word of columns A .. isqrt(m) / 10, each column as tall as allocated. */
  ghost function DScan(m: nat, A: nat): seq<Gint>
    decreases IntSqrt(m) / 10 + 1 - A
  {
    if A > IntSqrt(m) / 10 then [] else ColumnPoints(A, DHeight(m, A)) + DScan(m, A + 1)
  }

  /** The test of setBigPrimes: the bit is set, the norm is at most x, a != 0 and a > b. */
  ghost predicate DKept(m: nat, grid: seq<seq<bv32>>, p: Gint)
  {
    IsOn(grid, p) && Norm(p) <= m && p.a != 0 && p.a > p.b
  }

  /** The scanned points that pass the test, in scan order. */
  ghost function DSurvivors(m: nat, grid: seq<seq<bv32>>, s: seq<Gint>): seq<Gint>
  {
    if s == [] then []
    else (if DKept(m, grid, s[0]) then [s[0]] else []) + DSurvivors(m, grid, s[1..])
  }

  /** What setBigPrimes collects: 1 + i, 2 + i and 1 + 2i, then each surviving point and, off the real axis, its flip. */
  ghost function DHarvest(m: nat, grid: seq<seq<bv32>>): seq<Gint>
  {
    [Gint(1, 1), Gint(2, 1), Gint(1, 2)] + Oct.WithFlips(DSurvivors(m, grid, DScan(m, 0)))
  }

  lemma {:induction false} WordPointsMembers(A: nat, B: nat, p: Gint)
    ensures p in WordPoints(A, B) <==>
      p.a >= 0 && p.b >= 0 && Coprime10(p.a, p.b) && p.a / 10 == A && p.b / 10 == B
  {
    if p in WordPoints(A, B) {
      WordPointsSound(A, B, p);
    }
    if p.a >= 0 && p.b >= 0 && Coprime10(p.a, p.b) && p.a / 10 == A && p.b / 10 == B {
      WordPointsComplete(A, B, p);
    }
  }

  lemma WordPointsSound(A: nat, B: nat, p: Gint)
    requires p in WordPoints(A, B)
    ensures p.a >= 0 && p.b >= 0 && Coprime10(p.a, p.b) && p.a / 10 == A && p.b / 10 == B
  {
    var w := WordPoints(A, B);
    var k :| 0 <= k < 32 && w[k] == p;
    PtHome(A, B, k as bv5);
  }

  lemma WordPointsComplete(A: nat, B: nat, p: Gint)
    requires p.a >= 0 && p.b >= 0 && Coprime10(p.a, p.b) && p.a / 10 == A && p.b / 10 == B
    ensures p in WordPoints(A, B)
  {
    var k := BitOf(p.a, p.b);
    PtOf(p.a, p.b);
    assert WordPoints(A, B)[k as int] == Pt(A, B, k);
  }

  lemma {:induction false} ColumnPointsMembers(A: nat, top: nat, p: Gint)
    ensures p in ColumnPoints(A, top) <==> 0 <= p.b / 10 < top && p in WordPoints(A, p.b / 10)
  {
    if top > 0 {
      ColumnPointsMembers(A, top - 1, p);
      WordPointsMembers(A, top - 1, p);
    }
  }

  lemma {:induction false} DScanMembers(m: nat, A0: nat, p: Gint)
    ensures p in DScan(m, A0) <==>
      p.a >= 0 && p.b >= 0 && Coprime10(p.a, p.b) && A0 <= p.a / 10 <= IntSqrt(m) / 10 &&
      p.b / 10 < DHeight(m, p.a / 10)
    decreases IntSqrt(m) / 10 + 1 - A0
  {
    if A0 <= IntSqrt(m) / 10 {
      DScanMembers(m, A0 + 1, p);
      ColumnPointsMembers(A0, DHeight(m, A0), p);
      if p.b >= 0 {
        WordPointsMembers(A0, p.b / 10, p);
      }
    }
  }

  lemma {:induction false} DSurvivorsMembers(m: nat, grid: seq<seq<bv32>>, s: seq<Gint>, p: Gint)
    ensures p in DSurvivors(m, grid, s) <==> p in s && DKept(m, grid, p)
  {
    if s != [] {
      DSurvivorsMembers(m, grid, s[1..], p);
      assert s == [s[0]] + s[1..];
    }
  }

  lemma {:induction false} DSurvivorsConcat(m: nat, grid: seq<seq<bv32>>, s: seq<Gint>, t: seq<Gint>)
    ensures DSurvivors(m, grid, s + t) == DSurvivors(m, grid, s) + DSurvivors(m, grid, t)
  {
    if s != [] {
      assert (s + t)[1..] == s[1..] + t;
      DSurvivorsConcat(m, grid, s[1..], t);
    } else {
      assert s + t == t;
    }
  }

  /**
   * The harvest of a shaped array holds 1 + i, 2 + i and 1 + 2i, and otherwise exactly
   * the first-quadrant points with a > 0 and a != b, of norm at most m, whose
   * octant cell is on.
   */
  lemma {:induction false} DHarvestMembers(m: nat, grid: seq<seq<bv32>>, g: Gint)
    requires DShaped(m, grid)
    ensures g in DHarvest(m, grid) <==>
      g in [Gint(1, 1), Gint(2, 1), Gint(1, 2)] ||
      (g.a > 0 && g.b >= 0 && g.a != g.b && Norm(g) <= m && IsOn(grid, Oct.Home(g)))
  {
    var sv := DSurvivors(m, grid, DScan(m, 0));
    Oct.WithFlipsMembers(sv, g);
    DSurvivorsMembers(m, grid, DScan(m, 0), g);
    DSurvivorsMembers(m, grid, DScan(m, 0), Flip(g));
    FlipInvolution(g);
    if g.a >= 0 && g.b >= 0 {
      var home := Oct.Home(g);
      if Stored(grid, home) {
        DScanMembers(m, 0, home);
      }
    }
    if Flip(g) in DScan(m, 0) {
      DScanMembers(m, 0, Flip(g));
    }
    if g in DScan(m, 0) {
      DScanMembers(m, 0, g);
    }
  }

  /** (1 + i) h = h.a - h.b + (h.a + h.b) i: a witness that a point is composite. */
  lemma CompositeBy(r: Gint, h: Gint)
    requires Norm(h) >= 2 && r == Mul(Gint(1, 1), h)
    ensures Composite(r)
  {
    assert SameClass(r, Mul(Gint(1, 1), h));
  }

  /** The octant points of norm 2 to 5 are 1 + i, 2 and 2 + i. */
  lemma SmallOctant(r: Gint)
    requires InOctant(r) && 2 <= Norm(r) <= 5
    ensures r == Gint(1, 1) || r == Gint(2, 0) || r == Gint(2, 1)
  {
    assert r.a <= 2 by {
      if r.a >= 3 {
        SquareLe(3, r.a);
        SquareNonneg(r.b);
      }
    }
  }

  /** 2 = (1 + i)(1 - i) and a + ai = (1 + i) a for a >= 2 are composite. */
  lemma EvenComposite(r: Gint)
    requires r == Gint(2, 0) || (r.a == r.b && r.a >= 2)
    ensures Composite(r)
  {
    if r == Gint(2, 0) {
      var h := Gint(1, -1);
      CompositeBy(r, h);
    } else {
      SquareLe(2, r.a);
      CompositeBy(r, Gint(r.a, 0));
    }
  }

  /** An octant point of norm above 5 sharing a factor with 10 is composite. */
  lemma NotCoprimeComposite(r: Gint)
    requires InOctant(r) && Norm(r) > 5 && !Coprime10(r.a, r.b)
    ensures Composite(r)
  {
    var p, h := DonutSmallPrimes.SmallFactor(r);
    NonUnitCofactor(h);
    OctFoldKeepsClass(Mul(p, h));
  }

  /** 1 + i, 2 + i and its flip 1 + 2i are always listed. */
  lemma SmallHarvested(m: nat, grid: seq<seq<bv32>>)
    requires DShaped(m, grid)
    ensures Gint(1, 1) in DHarvest(m, grid) && Gint(2, 1) in DHarvest(m, grid) && Gint(1, 2) in DHarvest(m, grid)
  {
    DHarvestMembers(m, grid, Gint(1, 1));
    DHarvestMembers(m, grid, Gint(2, 1));
    DHarvestMembers(m, grid, Gint(1, 2));
  }

  /** An off-diagonal octant point whose cell is on is listed together with its flip. */
  lemma OnHarvested(m: nat, grid: seq<seq<bv32>>, r: Gint)
    requires DShaped(m, grid) && InOctant(r) && r.a != r.b && 2 <= Norm(r) <= m && IsOn(grid, r)
    ensures r in DHarvest(m, grid) && (r.b > 0 ==> Flip(r) in DHarvest(m, grid))
  {
    DHarvestMembers(m, grid, r);
    assert Oct.Home(r) == r;
    if r.b > 0 {
      DHarvestMembers(m, grid, Flip(r));
      assert Oct.Home(Flip(r)) == r && Norm(Flip(r)) == Norm(r);
    }
  }

  /** The instance of PrimesOn at r. */
  lemma PrimeOn(grid: seq<seq<bv32>>, r: Gint)
    requires PrimesOn(grid) && Stored(grid, r) && r.a >= 2 && !Composite(r)
    ensures IsOn(grid, r)
  {
  }

  /** An octant point of norm above 2 has real part at least 2. */
  lemma OctantReal(r: Gint)
    requires InOctant(r) && Norm(r) > 2
    ensures r.a >= 2
  {
  }

  /**
   * Once run() has kept every stored prime on, setBigPrimes finds every Gaussian prime
   * of the octant of norm at most maxNorm, and its flip when it is off the real axis.
   */
  lemma {:induction false} PrimesHarvested(m: nat, grid: seq<seq<bv32>>, r: Gint)
    requires DShaped(m, grid) && PrimesOn(grid)
    requires InOctant(r) && 2 <= Norm(r) <= m && !Composite(r)
    ensures r in DHarvest(m, grid)
    ensures r.b > 0 ==> Flip(r) in DHarvest(m, grid)
  {
    if r.a == r.b && r != Gint(1, 1) {
      EvenComposite(r);
      assert false;
    } else if Norm(r) <= 5 {
      SmallPrimeHarvested(m, grid, r);
    } else if !Coprime10(r.a, r.b) {
      NotCoprimeComposite(r);
      assert false;
    } else {
      BigHarvested(m, grid, r);
    }
  }

  /** The octant primes of norm at most 5, 1 + i and 2 + i, are listed with their flips. */
  lemma SmallPrimeHarvested(m: nat, grid: seq<seq<bv32>>, r: Gint)
    requires DShaped(m, grid) && InOctant(r) && 2 <= Norm(r) <= 5 && !Composite(r)
    ensures r in DHarvest(m, grid) && (r.b > 0 ==> Flip(r) in DHarvest(m, grid))
  {
    SmallOctant(r);
    if r == Gint(2, 0) {
      EvenComposite(r);
      assert false;
    }
    SmallHarvested(m, grid);
  }

  /** An off-diagonal octant prime of norm above 5, coprime to 10, is listed with its flip. */
  lemma BigHarvested(m: nat, grid: seq<seq<bv32>>, r: Gint)
    requires DShaped(m, grid) && PrimesOn(grid)
    requires InOctant(r) && r.a != r.b && 5 < Norm(r) <= m && Coprime10(r.a, r.b) && !Composite(r)
    ensures r in DHarvest(m, grid) && (r.b > 0 ==> Flip(r) in DHarvest(m, grid))
  {
    StoredInGrid(m, grid, r);
    OctantReal(r);
    PrimeOn(grid, r);
    OnHarvested(m, grid, r);
  }

  /** One bit of the scan adds its point and, off the real axis, its flip when the point passes the test. */
  // ---------------------------------------------------------------------------
  // The harvest after a run, and the octant sieve's harvest

  /** The 32 bits of a word hold 32 different points. */
  lemma WordPointsDistinct(A: nat, B: nat)
    ensures Distinct(WordPoints(A, B))
  {
    var s := WordPoints(A, B);
    forall i, j | 0 <= i < j < 32
      ensures s[i] != s[j]
    {
      BitsDiffer(A, B, i, j);
    }
  }

  lemma BitsDiffer(A: nat, B: nat, i: nat, j: nat)
    requires i < j < 32
    ensures Pt(A, B, i as bv5) != Pt(A, B, j as bv5)
  {
    var ki, kj := i as bv5, j as bv5;
    assert ki != kj by {
      assert ki as int == i && kj as int == j;
    }
    PtInjective(A, B, ki, kj);
  }

  /** Different bits of one word store different points. */
  lemma PtInjective(A: nat, B: nat, k1: bv5, k2: bv5)
    requires k1 != k2
    ensures Pt(A, B, k1) != Pt(A, B, k2)
  {
    PtHome(A, B, k1);
    PtHome(A, B, k2);
  }

  /** Different words of a column hold different points: their imaginary parts differ in the tens. */
  lemma {:induction false} ColumnPointsDistinct(A: nat, top: nat)
    ensures Distinct(ColumnPoints(A, top))
  {
    if top > 0 {
      var B := top - 1;
      ColumnPointsDistinct(A, B);
      WordPointsDistinct(A, B);
      forall x | x in ColumnPoints(A, B)
        ensures x !in WordPoints(A, B)
      {
        ColumnPointsMembers(A, B, x);
        WordPointsMembers(A, B, x);
      }
      DistinctConcat(ColumnPoints(A, B), WordPoints(A, B));
    }
  }

  /** The scan visits no point twice: different columns differ in the tens of the real part. */
  lemma {:induction false} DScanDistinct(m: nat, A0: nat)
    ensures Distinct(DScan(m, A0))
    decreases IntSqrt(m) / 10 + 1 - A0
  {
    if A0 <= IntSqrt(m) / 10 {
      var col := ColumnPoints(A0, DHeight(m, A0));
      ColumnPointsDistinct(A0, DHeight(m, A0));
      DScanDistinct(m, A0 + 1);
      forall x | x in col
        ensures x !in DScan(m, A0 + 1)
      {
        ColumnPointsMembers(A0, DHeight(m, A0), x);
        WordPointsMembers(A0, x.b / 10, x);
        DScanMembers(m, A0 + 1, x);
      }
      DistinctConcat(col, DScan(m, A0 + 1));
    }
  }

  lemma {:induction false} DSurvivorsDistinct(m: nat, grid: seq<seq<bv32>>, s: seq<Gint>)
    requires Distinct(s)
    ensures Distinct(DSurvivors(m, grid, s))
  {
    if s != [] {
      DistinctTail(s);
      DSurvivorsDistinct(m, grid, s[1..]);
      DSurvivorsMembers(m, grid, s[1..], s[0]);
      DistinctConcat(if DKept(m, grid, s[0]) then [s[0]] else [], DSurvivors(m, grid, s[1..]));
    }
  }

  /** setBigPrimes lists no point twice: 1 + i, 2 + i and 1 + 2i share a factor with 10 and are never stored. */
  lemma DHarvestDistinct(m: nat, grid: seq<seq<bv32>>)
    ensures Distinct(DHarvest(m, grid))
  {
    var sv := DSurvivors(m, grid, DScan(m, 0));
    DScanDistinct(m, 0);
    DSurvivorsDistinct(m, grid, DScan(m, 0));
    forall k | 0 <= k < |sv|
      ensures 0 <= sv[k].b < sv[k].a
    {
      DSurvivorsMembers(m, grid, DScan(m, 0), sv[k]);
    }
    Oct.WithFlipsDistinct(sv);
    var tiny := [Gint(1, 1), Gint(2, 1), Gint(1, 2)];
    forall t | t in tiny
      ensures t !in Oct.WithFlips(sv)
    {
      TinyUnstored(m, grid, sv, t);
    }
    DistinctConcat(tiny, Oct.WithFlips(sv));
  }

  /** 1 + i, 2 + i and 1 + 2i, sharing a factor with 10, are neither survivors nor flips of survivors. */
  lemma TinyUnstored(m: nat, grid: seq<seq<bv32>>, sv: seq<Gint>, t: Gint)
    requires sv == DSurvivors(m, grid, DScan(m, 0)) && t in [Gint(1, 1), Gint(2, 1), Gint(1, 2)]
    ensures t !in Oct.WithFlips(sv)
  {
    TinyNotCoprime(t);
    Oct.WithFlipsMembers(sv, t);
    DSurvivorsMembers(m, grid, DScan(m, 0), t);
    DSurvivorsMembers(m, grid, DScan(m, 0), Flip(t));
  }

  /** 1 + i, 2 + i and 1 + 2i and their flips share a factor with 10. */
  lemma TinyNotCoprime(t: Gint)
    requires t in [Gint(1, 1), Gint(2, 1), Gint(1, 2)]
    ensures !Coprime10(t.a, t.b) && !Coprime10(Flip(t).a, Flip(t).b)
  {
  }

  /**
   * After a run with the Gaussian primes up to isqrt(m) as small primes, setBigPrimes
   * lists Gaussian primes a + bi with a > 0 and b >= 0 only, of norm at most m apart from
   * 2 + i and 1 + 2i; once m >= 5 it lists exactly those of norm 2 to m.
   */
  lemma DHarvestIsPrimes(m: nat, grid: seq<seq<bv32>>, ps: seq<Gint>, g: Gint)
    requires DShaped(m, grid) && SievedWith(InitialWords(m), grid, m, ps)
    requires Oct.AllPrimesTo(ps, IntSqrt(m))
    ensures g in DHarvest(m, grid) ==>
      g.a > 0 && g.b >= 0 && Norm(g) >= 2 && !Composite(g) && (Norm(g) <= m || Norm(g) <= 5)
    ensures m >= 5 ==> (g in DHarvest(m, grid) <==> g.a > 0 && g.b >= 0 && 2 <= Norm(g) <= m && !Composite(g))
  {
    if g in DHarvest(m, grid) {
      DHarvestSound(m, grid, ps, g);
    }
    if g.a > 0 && g.b >= 0 && 2 <= Norm(g) <= m && !Composite(g) {
      DHarvestComplete(m, grid, ps, g);
    }
  }

  /** What setBigPrimes lists after a run is a Gaussian prime: a tiny prime, or the point of a cell left on. */
  lemma {:induction false} DHarvestSound(m: nat, grid: seq<seq<bv32>>, ps: seq<Gint>, g: Gint)
    requires DShaped(m, grid) && SievedWith(InitialWords(m), grid, m, ps)
    requires Oct.AllPrimesTo(ps, IntSqrt(m)) && g in DHarvest(m, grid)
    ensures g.a > 0 && g.b >= 0 && Norm(g) >= 2 && !Composite(g) && (Norm(g) <= m || Norm(g) <= 5)
  {
    DHarvestMembers(m, grid, g);
    if g in [Gint(1, 1), Gint(2, 1), Gint(1, 2)] {
      TinyPrimes(g);
    } else {
      HomeOnSound(m, grid, ps, g);
    }
  }

  /** The three primes 1 + i, 2 + i and 1 + 2i that setBigPrimes lists up front. */
  lemma TinyPrimes(g: Gint)
    requires g in [Gint(1, 1), Gint(2, 1), Gint(1, 2)]
    ensures g.a > 0 && g.b >= 0 && (Norm(g) == 2 || Norm(g) == 5) && !Composite(g)
  {
    assert g == Gint(1, 1) || g == Gint(2, 1) || g == Gint(1, 2);
    NormTwoFivePrime(g);
  }

  /** A point a + bi whose octant cell is on after a run has norm at least 2 and is prime. */
  lemma HomeOnSound(m: nat, grid: seq<seq<bv32>>, ps: seq<Gint>, g: Gint)
    requires SievedWith(InitialWords(m), grid, m, ps) && Oct.AllPrimesTo(ps, IntSqrt(m))
    requires g.a > 0 && g.b >= 0 && Norm(g) <= m && IsOn(grid, Oct.Home(g))
    ensures Norm(g) >= 2 && !Composite(g)
  {
    var home := Oct.Home(g);
    assert home == g || home == Flip(g);
    if Norm(g) < 2 {
      UnitOfQuadrant(g);
      SievedOneOff(m, grid, ps);
      assert false;
    }
    SievedWithExact(m, grid, ps);
    assert !Composite(home);
    FlipCompositeIff(g);
  }

  /** Every Gaussian prime a + bi with a > 0, b >= 0 and norm 2 to m is listed after a run. */
  lemma {:induction false} DHarvestComplete(m: nat, grid: seq<seq<bv32>>, ps: seq<Gint>, g: Gint)
    requires DShaped(m, grid) && SievedWith(InitialWords(m), grid, m, ps)
    requires g.a > 0 && g.b >= 0 && 2 <= Norm(g) <= m && !Composite(g)
    ensures g in DHarvest(m, grid)
  {
    InitialPrimesOn(m);
    SievedWithKeepsPrimes(InitialWords(m), grid, m, ps);
    var home := Oct.Home(g);
    FlipInvolution(g);
    FlipCompositeIff(g);
    PrimesHarvested(m, grid, home);
  }

  /** The only point a + bi with a > 0, b >= 0 and norm below 2 is 1. */
  lemma UnitOfQuadrant(g: Gint)
    requires g.a > 0 && g.b >= 0 && Norm(g) < 2
    ensures g == Gint(1, 0)
  {
    if g.a >= 2 {
      SquareLe(2, g.a);
      SquareNonneg(g.b);
    }
    if g.b >= 1 {
      SquareLe(1, g.b);
      SquareLe(1, g.a);
    }
  }

  /**
   * The octant sieve and the octant donut sieve of the same norm bound m >= 5 give the
   * same sorted list of primes: both harvests hold exactly the Gaussian primes a + bi with
   * a > 0, b >= 0 and norm 2 to m, each once.
   */
  lemma SortedHarvestsAgree(m: nat, grid: seq<seq<bv32>>, ps: seq<Gint>, s1: seq<Gint>, s2: seq<Gint>)
    requires m >= 5 && DShaped(m, grid) && SievedWith(InitialWords(m), grid, m, ps)
    requires Oct.AllPrimesTo(ps, IntSqrt(m))
    requires Sorted(s1) && multiset(s1) == multiset(Oct.Harvest(m, Oct.Sieved(m)))
    requires Sorted(s2) && multiset(s2) == multiset(DHarvest(m, grid))
    ensures s1 == s2
  {
    var h1, h2 := Oct.Harvest(m, Oct.Sieved(m)), DHarvest(m, grid);
    Oct.HarvestDistinct(m, Oct.Sieved(m));
    DHarvestDistinct(m, grid);
    forall x
      ensures x in h1 <==> x in h2
    {
      Oct.HarvestIsPrimes(m, x);
      DHarvestIsPrimes(m, grid, ps, x);
    }
    DistinctSameMembers(h1, h2);
    forall k | 0 <= k < |s1|
      ensures s1[k].b >= 0
    {
      assert s1[k] in multiset(h1);
      Oct.HarvestIsPrimes(m, s1[k]);
    }
    SortedUnique(s1, s2);
  }

  lemma HarvestBitStep(m: nat, grid: seq<seq<bv32>>, A: nat, B: nat, k: nat)
    requires A < |grid| && B < |grid[A]| && k < 32
    ensures Oct.WithFlips(DSurvivors(m, grid, WordPoints(A, B)[..k + 1])) ==
      Oct.WithFlips(DSurvivors(m, grid, WordPoints(A, B)[..k])) +
      Oct.PrimeAndFlip(DKept(m, grid, Pt(A, B, k as bv5)), Pt(A, B, k as bv5))
  {
    var w := WordPoints(A, B);
    var p := Pt(A, B, k as bv5);
    assert w[..k + 1] == w[..k] + [p];
    DSurvivorsConcat(m, grid, w[..k], [p]);
    var sv := DSurvivors(m, grid, w[..k]);
    assert DSurvivors(m, grid, [p]) == if DKept(m, grid, p) then [p] else [];
    Oct.WithFlipsAppend(sv, p);
    if !DKept(m, grid, p) {
      assert sv + [] == sv;
    }
  }

  /** The test of setBigPrimes on bit k of word (A, B), read off the word. */
  lemma KeptBit(m: nat, grid: seq<seq<bv32>>, A: nat, B: nat, k: bv5)
    requires A < |grid| && B < |grid[A]|
    ensures DKept(m, grid, Pt(A, B, k)) <==>
      Bit(grid[A][B], k) && Norm(Pt(A, B, k)) <= m && Pt(A, B, k).a != 0 && Pt(A, B, k).a > Pt(A, B, k).b
  {
    BitIsPoint(grid, A, B, k);
  }

  /**
   * One bit of setBigPrimes (src/OctantDonutSieve.cpp:192-203): the point
   * (10a + realPartDecompress[bit], 10b + imagPartDecompress[bit]) and its flip, when
   * the bit is set and the point passes the test.
   */
  method HarvestBit(m: nat, grid: seq<seq<bv32>>, A: nat, B: nat, k: bv5) returns (more: seq<Gint>)
    requires A < |grid| && B < |grid[A]|
    ensures more == Oct.PrimeAndFlip(DKept(m, grid, Pt(A, B, k)), Pt(A, B, k))
  {
    KeptBit(m, grid, A, B, k);
    more := [];
    if Bit(grid[A][B], k) {
      var g := Pt(A, B, k);
      if Norm(g) <= m && g.a != 0 && g.a > g.b {
        more := [g];
        if g.b != 0 {
          more := more + [Flip(g)];
        }
      }
    }
  }

  /** One bit of getCountBigPrimes (src/OctantDonutSieve.cpp:229-242): 1, or 2 off the real axis, when its point passes the test. */
  method CountBit(m: nat, grid: seq<seq<bv32>>, A: nat, B: nat, k: bv5) returns (more: nat)
    requires A < |grid| && B < |grid[A]|
    ensures more == |Oct.PrimeAndFlip(DKept(m, grid, Pt(A, B, k)), Pt(A, B, k))|
  {
    KeptBit(m, grid, A, B, k);
    more := 0;
    if Bit(grid[A][B], k) {
      var g := Pt(A, B, k);
      var aa, bb := g.a, g.b;
      if aa * aa + bb * bb <= m && aa != 0 && aa > bb {
        more := 1;
        if bb != 0 {
          more := 2;
        }
      }
    }
  }

  /** The innermost loop of setBigPrimes (src/OctantDonutSieve.cpp:190-204): the 32 bits of word (A, B). */
  method HarvestWord(m: nat, grid: seq<seq<bv32>>, A: nat, B: nat) returns (found: seq<Gint>)
    requires A < |grid| && B < |grid[A]|
    ensures found == Oct.WithFlips(DSurvivors(m, grid, WordPoints(A, B)))
  {
    found := [];
    var k := 0;
    while k < 32
      invariant 0 <= k <= 32
      invariant found == Oct.WithFlips(DSurvivors(m, grid, WordPoints(A, B)[..k]))
    {
      HarvestBitStep(m, grid, A, B, k);
      var more := HarvestBit(m, grid, A, B, k as bv5);
      found := found + more;
      k := k + 1;
    }
    assert WordPoints(A, B)[..32] == WordPoints(A, B);
  }

  /** The loop over the words of column A (src/OctantDonutSieve.cpp:188-205), words 0 .. bBound. */
  method HarvestColumn(m: nat, grid: seq<seq<bv32>>, A: nat, bBound: nat) returns (found: seq<Gint>)
    requires A < |grid| && bBound < |grid[A]|
    ensures found == Oct.WithFlips(DSurvivors(m, grid, ColumnPoints(A, bBound + 1)))
  {
    found := [];
    var B := 0;
    while B <= bBound
      invariant 0 <= B <= bBound + 1
      invariant found == Oct.WithFlips(DSurvivors(m, grid, ColumnPoints(A, B)))
    {
      var more := HarvestWord(m, grid, A, B);
      DSurvivorsConcat(m, grid, ColumnPoints(A, B), WordPoints(A, B));
      Oct.WithFlipsConcat(DSurvivors(m, grid, ColumnPoints(A, B)), DSurvivors(m, grid, WordPoints(A, B)));
      found := found + more;
      B := B + 1;
    }
  }

  /** The bounds of the scan: the diagonal crossing isqrt(x / 200), x / 100 and the last column isqrt(x) / 10. */
  method ScanBounds(m: nat) returns (inter: nat, q: nat, aMax: nat)
    ensures inter == IntSqrt(Quot(m, 200)) && q == Quot(m, 100) && aMax == IntSqrt(m) / 10
  {
    inter := Isqrt(Quot(m, 200));
    q := Quot(m, 100);
    var top := Isqrt(m);
    aMax := top / 10;
  }

  /** The columns setSieveArray allocates, all bits set: column A holds DHeight(m, A) words. */
  method FullColumns(m: nat) returns (grid: seq<seq<bv32>>)
    ensures grid == FullWords(m)
  {
    var inter, q, aMax := ScanBounds(m);
    grid := [];
    var a := 0;
    while a <= aMax
      invariant 0 <= a <= aMax + 1 && |grid| == a
      invariant forall k :: 0 <= k < a ==> grid[k] == seq(DHeight(m, k), _ => AllOnes)
    {
      var top := WordTop(m, a, inter, q);
      grid := grid + [seq(top + 1, _ => AllOnes)];
      a := a + 1;
    }
  }

  /** The last word of column A that the scan reads: one less than the height setSieveArray allocates. */
  method WordTop(m: nat, A: nat, inter: nat, q: nat) returns (bBound: nat)
    requires inter == IntSqrt(Quot(m, 200)) && q == Quot(m, 100) && A <= IntSqrt(m) / 10
    ensures bBound + 1 == DHeight(m, A)
  {
    if A <= inter {
      bBound := A;
    } else {
      TopColumn(m, A);
      bBound := Isqrt(q - A * A);
    }
  }

  lemma DScanStep(m: nat, A: nat)
    requires A <= IntSqrt(m) / 10
    ensures DScan(m, A) == ColumnPoints(A, DHeight(m, A)) + DScan(m, A + 1)
  {
  }

  lemma HarvestAccumulate(m: nat, grid: seq<seq<bv32>>, seen: seq<Gint>, column: seq<Gint>)
    ensures Oct.WithFlips(DSurvivors(m, grid, seen + column)) ==
      Oct.WithFlips(DSurvivors(m, grid, seen)) + Oct.WithFlips(DSurvivors(m, grid, column))
  {
    DSurvivorsConcat(m, grid, seen, column);
    Oct.WithFlipsConcat(DSurvivors(m, grid, seen), DSurvivors(m, grid, column));
  }

  /**
   * The two outer loops of setBigPrimes (src/OctantDonutSieve.cpp:184-207), with the
   * column heights of setSieveArray: every word of the array, column by column.
   */
  /** setBigPrimes on a value: 1 + i, 2 + i and 1 + 2i, then the harvest of the words. */
  method HarvestAll(m: nat, grid: seq<seq<bv32>>) returns (found: seq<Gint>)
    requires DShaped(m, grid)
    ensures found == DHarvest(m, grid)
  {
    var scanned := HarvestScan(m, grid);
    found := [Gint(1, 1), Gint(2, 1), Gint(1, 2)] + scanned;
  }

  method HarvestScan(m: nat, grid: seq<seq<bv32>>) returns (found: seq<Gint>)
    requires DShaped(m, grid)
    ensures found == Oct.WithFlips(DSurvivors(m, grid, DScan(m, 0)))
  {
    var inter, q, aMax := ScanBounds(m);
    ghost var seen: seq<Gint> := [];
    found := [];
    var A := 0;
    while A <= aMax
      invariant A <= aMax + 1
      invariant seen + DScan(m, A) == DScan(m, 0)
      invariant found == Oct.WithFlips(DSurvivors(m, grid, seen))
    {
      var bBound := WordTop(m, A, inter, q);
      var more := HarvestColumn(m, grid, A, bBound);
      ghost var column := ColumnPoints(A, DHeight(m, A));
      HarvestAccumulate(m, grid, seen, column);
      DScanStep(m, A);
      ScanAccumulate(seen, column, DScan(m, A + 1));
      found := found + more;
      seen := seen + column;
      A := A + 1;
    }
    assert seen + [] == seen;
  }

  /** The innermost loop of getCountBigPrimes (src/OctantDonutSieve.cpp:227-243): what the 32 bits of word (A, B) add. */
  method CountWord(m: nat, grid: seq<seq<bv32>>, A: nat, B: nat) returns (count: nat)
    requires A < |grid| && B < |grid[A]|
    ensures count == |Oct.WithFlips(DSurvivors(m, grid, WordPoints(A, B)))|
  {
    count := 0;
    var k := 0;
    while k < 32
      invariant 0 <= k <= 32
      invariant count == |Oct.WithFlips(DSurvivors(m, grid, WordPoints(A, B)[..k]))|
    {
      HarvestBitStep(m, grid, A, B, k);
      var more := CountBit(m, grid, A, B, k as bv5);
      count := count + more;
      k := k + 1;
    }
    assert WordPoints(A, B)[..32] == WordPoints(A, B);
  }

  /** The loop over the words of column A in getCountBigPrimes (src/OctantDonutSieve.cpp:225-244). */
  method CountColumn(m: nat, grid: seq<seq<bv32>>, A: nat, bBound: nat) returns (count: nat)
    requires A < |grid| && bBound < |grid[A]|
    ensures count == |Oct.WithFlips(DSurvivors(m, grid, ColumnPoints(A, bBound + 1)))|
  {
    count := 0;
    var B := 0;
    while B <= bBound
      invariant 0 <= B <= bBound + 1
      invariant count == |Oct.WithFlips(DSurvivors(m, grid, ColumnPoints(A, B)))|
    {
      var more := CountWord(m, grid, A, B);
      DSurvivorsConcat(m, grid, ColumnPoints(A, B), WordPoints(A, B));
      Oct.WithFlipsConcat(DSurvivors(m, grid, ColumnPoints(A, B)), DSurvivors(m, grid, WordPoints(A, B)));
      count := count + more;
      B := B + 1;
    }
  }

  /** The points scanned before column A, and the number of primes they contribute. */
  ghost predicate CountedTo(m: nat, grid: seq<seq<bv32>>, A: nat, seen: seq<Gint>, count: nat)
  {
    seen + DScan(m, A) == DScan(m, 0) && count == |Oct.WithFlips(DSurvivors(m, grid, seen))|
  }

  /** One pass of the outer loop of getCountBigPrimes: column A is counted. */
  method CountNext(m: nat, grid: seq<seq<bv32>>, A: nat, inter: nat, q: nat, count: nat, ghost seen: seq<Gint>)
    returns (next: nat, ghost seen1: seq<Gint>)
    requires DShaped(m, grid) && inter == IntSqrt(Quot(m, 200)) && q == Quot(m, 100) && A <= IntSqrt(m) / 10
    requires CountedTo(m, grid, A, seen, count)
    ensures CountedTo(m, grid, A + 1, seen1, next)
  {
    var bBound := WordTop(m, A, inter, q);
    var more := CountColumn(m, grid, A, bBound);
    ghost var column := ColumnPoints(A, DHeight(m, A));
    HarvestAccumulate(m, grid, seen, column);
    DScanStep(m, A);
    ScanAccumulate(seen, column, DScan(m, A + 1));
    next := count + more;
    seen1 := seen + column;
  }

  /** The two outer loops of getCountBigPrimes (src/OctantDonutSieve.cpp:221-246), with the heights of setSieveArray. */
  method CountScan(m: nat, grid: seq<seq<bv32>>) returns (count: nat)
    requires DShaped(m, grid)
    ensures count == |Oct.WithFlips(DSurvivors(m, grid, DScan(m, 0)))|
  {
    var inter, q, aMax := ScanBounds(m);
    ghost var seen: seq<Gint> := [];
    count := 0;
    var A := 0;
    while A <= aMax
      invariant A <= aMax + 1
      invariant CountedTo(m, grid, A, seen, count)
    {
      count, seen := CountNext(m, grid, A, inter, q, count, seen);
      A := A + 1;
    }
    assert seen + [] == seen;
  }

  // ---------------------------------------------------------------------------
  // The column bound of setBigPrimes and getCountBigPrimes as written

  /**
   * bBound as src/OctantDonutSieve.cpp:186-187 and 223-224 compute it: the diagonal
   * crossing is taken at isqrt(x / 20), where setSieveArray uses isqrt(x / 200).
   */
  ghost function WrittenTop(m: nat, A: nat): nat
  {
    if A <= IntSqrt(Quot(m, 20)) then A
    else if A * A <= Quot(m, 100) then IntSqrt(Quot(m, 100) - A * A)
    else 0
  }

  /**
   * For x = 10000 the written loops visit column 8 up to word 8, while setSieveArray
   * gives that column 7 words: words 7 and 8 are read out of bounds.
   */
  lemma WrittenTopOverruns()
    ensures 8 <= IntSqrt(10000) / 10
    ensures DHeight(10000, 8) == 7 && WrittenTop(10000, 8) == 8
  {
    IntSqrtUnique(10000, 100);
    IntSqrtUnique(500, 22);
    IntSqrtUnique(50, 7);
    IntSqrtUnique(36, 6);
  }

  /** With the heights of setSieveArray, the scan visits exactly the stored points. */
  lemma ScanIsStored(m: nat, grid: seq<seq<bv32>>, p: Gint)
    requires DShaped(m, grid)
    ensures p in DScan(m, 0) <==> Stored(grid, p)
  {
    DScanMembers(m, 0, p);
  }
}
