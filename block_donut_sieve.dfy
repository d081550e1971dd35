/**
 * The block donut sieve (src/BlockDonutSieve.cpp): the block sieve of a window whose
 * corner and sides are multiples of 10, storing only the points coprime to 10. Word
 * (A, B) of a dx / 10 by dy / 10 array packs the 32 points of the 10 x 10 square
 * [x + 10A, x + 10A + 9] x [y + 10B, y + 10B + 9] that are coprime to 10, with the wheel
 * tables of the octant donut sieve. A point r of the array is relative to the corner:
 * it stands for PointAt(w, r.a, r.b) = (x + r.a) + (y + r.b)i. Since x and y are
 * multiples of 10, r is coprime to 10 exactly when its point is.
 */
module BlockDonutSieve {
  import opened GaussianInt
  import opened BaseSieve
  import opened SieveGrid
  import opened DonutTables
  import opened BlockWindow
  import opened Factorization
  import Blk = BlockSieve
  import Donut = OctantDonutSieve
  import Oct = OctantSieve

  /** The constructor's test (src/BlockDonutSieve.cpp:55-59): x, y, dx and dy are multiples of 10. */
  predicate Tens(w: Window)
  {
    w.x % 10 == 0 && w.y % 10 == 0 && w.dx % 10 == 0 && w.dy % 10 == 0
  }

  /** dx / 10 columns of dy / 10 words each. */
  ghost predicate WordsShaped(w: Window, words: seq<seq<bv32>>)
  {
    |words| == w.dx / 10 && forall A :: 0 <= A < |words| ==> |words[A]| == w.dy / 10
  }

  lemma SameShapeShaped(w: Window, w0: seq<seq<bv32>>, w1: seq<seq<bv32>>)
    requires WordsShaped(w, w0) && SameShape(w0, w1)
    ensures WordsShaped(w, w1)
  {
  }

  lemma DivBelow(u: nat, n: nat)
    requires n % 10 == 0
    ensures u / 10 < n / 10 <==> u < n
  {
  }

  /** A point r of a shaped array is stored exactly when its point lies in the window and is coprime to 10. */
  lemma StoredMeans(w: Window, words: seq<seq<bv32>>, r: Gint)
    requires Tens(w) && WordsShaped(w, words)
    ensures Stored(words, r) <==>
      r.a >= 0 && r.b >= 0 && InWindow(w, PointAt(w, r.a, r.b)) &&
      Coprime10(PointAt(w, r.a, r.b).a, PointAt(w, r.a, r.b).b)
  {
    var X, Y := w.x / 10, w.y / 10;
    assert PointAt(w, r.a, r.b) == Gint(r.a + 10 * X, r.b + 10 * Y);
    Coprime10Shift(r.a, r.b, X, Y);
    if r.a >= 0 && r.b >= 0 {
      DivBelow(r.a, w.dx);
      DivBelow(r.b, w.dy);
      assert r.a / 10 < |words| ==> |words[r.a / 10]| == w.dy / 10;
    }
  }

  /** The point of the window whose cell is r. */
  function Rel(w: Window, p: Gint): Gint
  {
    Gint(p.a - w.x, p.b - w.y)
  }

  /** A point of the window coprime to 10 has a stored cell. */
  lemma StoredPoint(w: Window, words: seq<seq<bv32>>, p: Gint)
    requires Tens(w) && WordsShaped(w, words) && InWindow(w, p) && Coprime10(p.a, p.b)
    ensures Stored(words, Rel(w, p)) && PointAt(w, Rel(w, p).a, Rel(w, p).b) == p
  {
    StoredMeans(w, words, Rel(w, p));
  }

  // ---------------------------------------------------------------------------
  // setSieveArray

  /** dx / 10 columns of dy / 10 words of all ones. */
  ghost function FullBlock(w: Window): (words: seq<seq<bv32>>)
    ensures WordsShaped(w, words)
  {
    seq(w.dx / 10, _ => seq(w.dy / 10, _ => AllOnes))
  }

  /** The words of 1 and i exist when the window starts at the origin: its sides are then at least 10. */
  predicate OriginFits(w: Window)
  {
    w.x == 0 && w.y == 0 ==> w.dx >= 10 && w.dy >= 10
  }

  lemma OriginWord(w: Window, words: seq<seq<bv32>>)
    requires WordsShaped(w, words) && OriginFits(w) && w.x == 0 && w.y == 0
    ensures Stored(words, Gint(1, 0)) && Stored(words, Gint(0, 1))
  {
  }

  /** The array as setSieveArray leaves it: all ones, then 1 and i cleared when the window starts at the origin. */
  ghost function InitialWords(w: Window): (words: seq<seq<bv32>>)
    requires OriginFits(w)
    ensures WordsShaped(w, words)
  {
    var full := FullBlock(w);
    if w.x == 0 && w.y == 0 then
      OriginWord(w, full);
      var once := ClearCell(full, 1, 0);
      OriginWord(w, once);
      ClearCell(once, 0, 1)
    else full
  }

  /** After setSieveArray every stored point is on except 1 and i. */
  lemma {:induction false} InitialBits(w: Window, r: Gint)
    requires Tens(w) && OriginFits(w)
    ensures Stored(InitialWords(w), r) == Stored(FullBlock(w), r)
    ensures IsOn(InitialWords(w), r) <==>
      Stored(FullBlock(w), r) && PointAt(w, r.a, r.b) != Gint(1, 0) && PointAt(w, r.a, r.b) != Gint(0, 1)
  {
    var full := FullBlock(w);
    if Stored(full, r) {
      AllOnesBits(BitOf(r.a, r.b));
    }
    if w.x == 0 && w.y == 0 {
      OriginWord(w, full);
      var once := ClearCell(full, 1, 0);
      ClearCellAt(full, 1, 0, r);
      OriginWord(w, once);
      ClearCellAt(once, 0, 1, r);
    }
  }

  // ---------------------------------------------------------------------------
  // The block sieve as the reference

  /** The words and the block sieve's boolean array hold the same value for every point of the window coprime to 10. */
  ghost predicate Agree(w: Window, grid: seq<seq<bool>>, words: seq<seq<bv32>>)
  {
    forall r :: Stored(words, r) ==> (IsOn(words, r) <==> Blk.On(w, grid, PointAt(w, r.a, r.b)))
  }

  /** The two sieves start in agreement. */
  lemma InitialAgree(w: Window)
    requires Tens(w) && OriginFits(w)
    ensures Agree(w, Blk.InitialBlock(w), InitialWords(w))
  {
    var words := InitialWords(w);
    forall r | Stored(words, r)
      ensures IsOn(words, r) <==> Blk.On(w, Blk.InitialBlock(w), PointAt(w, r.a, r.b))
    {
      InitialBits(w, r);
      StoredMeans(w, words, r);
    }
  }

  /** g can be swept: a block sweep that is coprime to 10 when its norm exceeds 5. */
  ghost predicate DonutSweeps(g: Gint)
  {
    Sweeps(g) && (Norm(g) <= 5 || Coprime10(g.a, g.b))
  }

  /**
   * The effect of crossOffMultiples(g) for N(g) > 5: the point of a stored bit is on
   * afterwards exactly when it is g or the flip of g, or it was on and g does not divide it.
   */
  ghost predicate Swept(w: Window, w0: seq<seq<bv32>>, w1: seq<seq<bv32>>, g: Gint)
  {
    SameShape(w0, w1) &&
    forall r :: Stored(w0, r) ==>
      (IsOn(w1, r) <==>
        PointAt(w, r.a, r.b) == g || PointAt(w, r.a, r.b) == Flip(g) ||
        (IsOn(w0, r) && !Divides(g, PointAt(w, r.a, r.b))))
  }

  /** crossOffMultiples(g): nothing for N(g) <= 5, else the sweep. */
  ghost predicate DonutStep(w: Window, w0: seq<seq<bv32>>, w1: seq<seq<bv32>>, g: Gint)
  {
    if Norm(g) <= 5 then w1 == w0 else Swept(w, w0, w1, g)
  }

  /** A point coprime to 10 has only divisors, and cofactors, coprime to 10. */
  lemma CoprimeDivisor(g: Gint, p: Gint)
    requires Divides(g, p) && Coprime10(p.a, p.b)
    ensures Coprime10(g.a, g.b) && Coprime10(Cofactor(g, p).a, Cofactor(g, p).b)
  {
    CofactorGivesMul(g, p);
    MulCoprime10(g, Cofactor(g, p));
  }

  /**
   * One sweep of the block sieve and the same sweep of the donut sieve keep the two
   * arrays in agreement. For N(g) <= 5 the donut skips the sweep: g then shares a factor
   * with 10, so the block sweep only touches cells that are not coprime to 10.
   */
  lemma {:induction false} SweepAgrees(w: Window, grid: seq<seq<bool>>, w0: seq<seq<bv32>>, w1: seq<seq<bv32>>, g: Gint)
    requires Tens(w) && Blk.BlockShaped(w, grid) && WordsShaped(w, w0) && DonutSweeps(g) && Norm(g) >= 2
    requires Agree(w, grid, w0) && DonutStep(w, w0, w1, g)
    ensures WordsShaped(w, w1) && Agree(w, Blk.CrossOff(w, grid, g), w1)
  {
    SameShapeShaped(w, w0, w1);
    forall r | Stored(w1, r)
      ensures IsOn(w1, r) <==> Blk.On(w, Blk.CrossOff(w, grid, g), PointAt(w, r.a, r.b))
    {
      SameShapeStored(w0, w1, r);
      SweepAgreesAt(w, grid, w0, w1, g, r);
    }
  }

  lemma {:induction false} SweepAgreesAt(w: Window, grid: seq<seq<bool>>, w0: seq<seq<bv32>>, w1: seq<seq<bv32>>, g: Gint, r: Gint)
    requires Tens(w) && Blk.BlockShaped(w, grid) && WordsShaped(w, w0) && DonutSweeps(g) && Norm(g) >= 2
    requires Agree(w, grid, w0) && DonutStep(w, w0, w1, g) && Stored(w0, r)
    ensures IsOn(w1, r) <==> Blk.On(w, Blk.CrossOff(w, grid, g), PointAt(w, r.a, r.b))
  {
    StoredMeans(w, w0, r);
    var p := PointAt(w, r.a, r.b);
    CrossOffCell(w, grid, g, p);
    if Norm(g) <= 5 {
      Donut.SmallNormShared(g);
      assert !Coprime10(g.b, g.a);
      if Divides(g, p) {
        CoprimeDivisor(g, p);
      }
    }
  }

  /** The cell of p after the block sieve's crossOffMultiples(g). */
  lemma CrossOffCell(w: Window, grid: seq<seq<bool>>, g: Gint, p: Gint)
    requires Blk.BlockShaped(w, grid)
    ensures Blk.On(w, Blk.CrossOff(w, grid, g), p) <==>
      InWindow(w, p) && (p == g || p == Flip(g) || (Blk.On(w, grid, p) && !Divides(g, p)))
  {
    if InWindow(w, p) {
      assert PointAt(w, p.a - w.x, p.b - w.y) == p;
    }
  }

  // ---------------------------------------------------------------------------
  // The sweep of crossOffMultiples, cofactor by cofactor

  /** The array once the columns of cofactors before c are swept. */
  ghost predicate ColsStruck(w: Window, w0: seq<seq<bv32>>, w1: seq<seq<bv32>>, g: Gint, c: int)
  {
    SameShape(w0, w1) &&
    forall r :: Stored(w0, r) ==>
      (IsOn(w1, r) <==> IsOn(w0, r) && !Blk.SweptCols(g, PointAt(w, r.a, r.b), c))
  }

  /** The array once the cofactors before c + di are swept. */
  ghost predicate Struck(w: Window, w0: seq<seq<bv32>>, w1: seq<seq<bv32>>, g: Gint, c: int, d: int)
  {
    SameShape(w0, w1) &&
    forall r :: Stored(w0, r) ==>
      (IsOn(w1, r) <==> IsOn(w0, r) && !Blk.SweptTo(g, PointAt(w, r.a, r.b), c, d))
  }

  /** The array once every multiple of g in the window is cleared. */
  ghost predicate Cleared(w: Window, w0: seq<seq<bv32>>, w1: seq<seq<bv32>>, g: Gint)
  {
    SameShape(w0, w1) &&
    forall r :: Stored(w0, r) ==>
      (IsOn(w1, r) <==> IsOn(w0, r) && !Divides(g, PointAt(w, r.a, r.b)))
  }

  /** No multiple in the window has its cofactor in a column before CLow. */
  lemma StruckStart(w: Window, w0: seq<seq<bv32>>, g: Gint)
    requires Tens(w) && WordsShaped(w, w0) && Sweeps(g)
    ensures ColsStruck(w, w0, w0, g, CLow(w, g))
  {
    forall r | Stored(w0, r)
      ensures !Blk.SweptCols(g, PointAt(w, r.a, r.b), CLow(w, g))
    {
      StoredMeans(w, w0, r);
      Blk.CofactorInRange(w, g, r.a, r.b);
    }
  }

  /** Column c starts at DLow: no multiple in the window has a cofactor (c, e) with e below it. */
  lemma ColumnStart(w: Window, w0: seq<seq<bv32>>, w1: seq<seq<bv32>>, g: Gint, c: int)
    requires Tens(w) && WordsShaped(w, w0) && Sweeps(g) && ColsStruck(w, w0, w1, g, c)
    ensures Struck(w, w0, w1, g, c, DLow(w, g, c))
  {
    forall r | Stored(w0, r)
      ensures Blk.SweptTo(g, PointAt(w, r.a, r.b), c, DLow(w, g, c)) == Blk.SweptCols(g, PointAt(w, r.a, r.b), c)
    {
      StoredMeans(w, w0, r);
      Blk.CofactorInRange(w, g, r.a, r.b);
    }
  }

  /** A cofactor that is not coprime to 10 has no multiple coprime to 10, so skipping it strikes nothing. */
  lemma {:induction false} StruckSkip(w: Window, w0: seq<seq<bv32>>, w1: seq<seq<bv32>>, g: Gint, c: int, d1: int, d2: int)
    requires Tens(w) && WordsShaped(w, w0) && Sweeps(g) && d1 <= d2
    requires forall e :: d1 <= e < d2 ==> !Coprime10(c, e)
    requires Struck(w, w0, w1, g, c, d1)
    ensures Struck(w, w0, w1, g, c, d2)
  {
    forall r | Stored(w0, r)
      ensures Blk.SweptTo(g, PointAt(w, r.a, r.b), c, d2) == Blk.SweptTo(g, PointAt(w, r.a, r.b), c, d1)
    {
      StoredMeans(w, w0, r);
      var p := PointAt(w, r.a, r.b);
      if Divides(g, p) {
        CoprimeDivisor(g, p);
      }
    }
  }

  /**
   * Sweeping the cofactor c + di, coprime to 10 and in range, clears exactly the bit of
   * g (c + di), which lies in the window and is stored.
   */
  lemma {:induction false} StruckClear(w: Window, w0: seq<seq<bv32>>, w1: seq<seq<bv32>>, g: Gint, c: int, d: int)
    requires Tens(w) && WordsShaped(w, w0) && Sweeps(g) && Coprime10(g.a, g.b)
    requires CLow(w, g) <= c <= CHigh(w, g) && DLow(w, g, c) <= d <= DHigh(w, g, c) && Coprime10(c, d)
    requires Struck(w, w0, w1, g, c, d)
    ensures InWindow(w, Mul(g, Gint(c, d))) && Stored(w1, Rel(w, Mul(g, Gint(c, d))))
    ensures Struck(w, w0, ClearCell(w1, Rel(w, Mul(g, Gint(c, d))).a, Rel(w, Mul(g, Gint(c, d))).b), g, c, d + 1)
  {
    NormPositive(g);
    ColumnExact(w, g, c, d);
    var q := Mul(g, Gint(c, d));
    MulCoprime10(g, Gint(c, d));
    SameShapeShaped(w, w0, w1);
    StoredPoint(w, w1, q);
    var t := Rel(w, q);
    var next := ClearCell(w1, t.a, t.b);
    forall r | Stored(w0, r)
      ensures IsOn(next, r) <==> IsOn(w0, r) && !Blk.SweptTo(g, PointAt(w, r.a, r.b), c, d + 1)
    {
      SameShapeStored(w0, w1, r);
      ClearCellAt(w1, t.a, t.b, r);
      MulIffCofactor(g, Gint(c, d), PointAt(w, r.a, r.b));
    }
  }

  /** d += gapDonut[c % 10][d % 10] lands on the next cofactor coprime to 10 and strikes nothing on the way. */
  lemma {:induction false} Jump(w: Window, w0: seq<seq<bv32>>, w1: seq<seq<bv32>>, g: Gint, c: int, d: int)
    requires Tens(w) && WordsShaped(w, w0) && Sweeps(g) && Coprime10(c, d)
    requires Struck(w, w0, w1, g, c, d + 1)
    ensures GapDonut[c % 10][d % 10] > 0 && Coprime10(c, d + GapDonut[c % 10][d % 10])
    ensures Struck(w, w0, w1, g, c, d + GapDonut[c % 10][d % 10])
  {
    var jump := GapDonut[c % 10][d % 10];
    forall e | d + 1 <= e < d + jump
      ensures !Coprime10(c, e)
    {
      WheelStep(c, d, e);
    }
    WheelStep(c, d, d);
    StruckSkip(w, w0, w1, g, c, d + 1, d + jump);
  }

  /** Column c ends past DHigh: every multiple in the window with cofactor in column c has been reached. */
  lemma ColumnEnd(w: Window, w0: seq<seq<bv32>>, w1: seq<seq<bv32>>, g: Gint, c: int, d: int)
    requires Tens(w) && WordsShaped(w, w0) && Sweeps(g) && d > DHigh(w, g, c)
    requires Struck(w, w0, w1, g, c, d)
    ensures ColsStruck(w, w0, w1, g, c + 1)
  {
    forall r | Stored(w0, r)
      ensures Blk.SweptTo(g, PointAt(w, r.a, r.b), c, d) == Blk.SweptCols(g, PointAt(w, r.a, r.b), c + 1)
    {
      StoredMeans(w, w0, r);
      Blk.CofactorInRange(w, g, r.a, r.b);
    }
  }

  /** After the last column every multiple of g in the window is cleared. */
  lemma SweepEnd(w: Window, w0: seq<seq<bv32>>, w1: seq<seq<bv32>>, g: Gint, c: int)
    requires Tens(w) && WordsShaped(w, w0) && Sweeps(g) && c > CHigh(w, g)
    requires ColsStruck(w, w0, w1, g, c)
    ensures Cleared(w, w0, w1, g)
  {
    forall r | Stored(w0, r)
      ensures Blk.SweptCols(g, PointAt(w, r.a, r.b), c) == Divides(g, PointAt(w, r.a, r.b))
    {
      StoredMeans(w, w0, r);
      Blk.CofactorInRange(w, g, r.a, r.b);
    }
  }

  /** There is a d' in [d, d + 10) with c + d'i coprime to 10: the start loop of a column ends. */
  lemma CoprimeAhead(c: int, d: int) returns (e: int)
    ensures d <= e < d + 10 && Coprime10(c, e)
  {
    var c0 := c % 10;
    DStartFirst(c0);
    var d0 := DStart[c0];
    e := d + (d0 - d) % 10;
    var t := (e - d0) / 10;
    assert e == d0 + 10 * t;
    Coprime10Shift(c0, d0, c / 10, t);
  }

  /**
   * The start loop of a column (src/BlockDonutSieve.cpp:152-158): d is advanced while
   * gapDonut[c % 10][d mod 10] is zero, that is to the first d' >= d with c + d'i coprime
   * to 10.
   */
  method FirstCoprime(c: int, d0: int) returns (d: int)
    ensures d0 <= d && Coprime10(c, d)
    ensures forall e :: d0 <= e < d ==> !Coprime10(c, e)
  {
    ghost var e := CoprimeAhead(c, d0);
    d := d0;
    var jump := GapDonut[c % 10][d % 10];
    while jump == 0
      invariant d0 <= d <= e && jump == GapDonut[c % 10][d % 10]
      invariant forall e' :: d0 <= e' < d ==> !Coprime10(c, e')
      decreases e - d
    {
      GapZero(c, d);
      d := d + 1;
      jump := GapDonut[c % 10][d % 10];
    }
    GapZero(c, d);
  }

  /** gapDonut[c % 10][d % 10] is zero exactly when c + di shares a factor with 10. */
  lemma GapZero(c: int, d: int)
    ensures GapDonut[c % 10][d % 10] == 0 <==> !Coprime10(c, d)
  {
    Coprime10Shift(c % 10, d % 10, c / 10, d / 10);
    GapTable(c % 10, d % 10);
  }

  /** setTrue on p when p is in the window. */
  ghost function Remark(w: Window, words: seq<seq<bv32>>, p: Gint): (r: seq<seq<bv32>>)
    requires Tens(w) && WordsShaped(w, words) && Coprime10(p.a, p.b)
    ensures WordsShaped(w, r)
  {
    if InWindow(w, p) then
      StoredPoint(w, words, p);
      SetCell(words, p.a - w.x, p.b - w.y)
    else words
  }

  /** Remark sets p's bit when p lies in the window and changes nothing otherwise. */
  lemma RemarkCases(w: Window, words: seq<seq<bv32>>, p: Gint)
    requires Tens(w) && WordsShaped(w, words) && Coprime10(p.a, p.b)
    ensures InWindow(w, p) ==>
      Stored(words, Rel(w, p)) && Remark(w, words, p) == SetCell(words, Rel(w, p).a, Rel(w, p).b)
    ensures !InWindow(w, p) ==> Remark(w, words, p) == words
  {
    if InWindow(w, p) {
      StoredPoint(w, words, p);
    }
  }

  lemma RemarkAt(w: Window, words: seq<seq<bv32>>, p: Gint, r: Gint)
    requires Tens(w) && WordsShaped(w, words) && Coprime10(p.a, p.b)
    ensures Stored(Remark(w, words, p), r) == Stored(words, r)
    ensures IsOn(Remark(w, words, p), r) == (IsOn(words, r) || (Stored(words, r) && PointAt(w, r.a, r.b) == p))
  {
    StoredMeans(w, words, r);
    if InWindow(w, p) {
      StoredPoint(w, words, p);
      SetCellAt(words, p.a - w.x, p.b - w.y, r);
    }
  }

  /** The sweep followed by the re-marking of g and of its flip is the effect of crossOffMultiples. */
  lemma {:induction false} RemarkSwept(w: Window, w0: seq<seq<bv32>>, w1: seq<seq<bv32>>, g: Gint)
    requires Tens(w) && WordsShaped(w, w0) && Coprime10(g.a, g.b) && Cleared(w, w0, w1, g)
    ensures Coprime10(Flip(g).a, Flip(g).b)
    ensures Swept(w, w0, Remark(w, Remark(w, w1, g), Flip(g)), g)
  {
    SameShapeShaped(w, w0, w1);
    var w2 := Remark(w, w1, g);
    var w3 := Remark(w, w2, Flip(g));
    forall r | Stored(w0, r)
      ensures Stored(w3, r)
      ensures IsOn(w3, r) <==>
        PointAt(w, r.a, r.b) == g || PointAt(w, r.a, r.b) == Flip(g) ||
        (IsOn(w0, r) && !Divides(g, PointAt(w, r.a, r.b)))
    {
      SameShapeStored(w0, w1, r);
      RemarkAt(w, w1, g, r);
      RemarkAt(w, w2, Flip(g), r);
    }
  }

  // ---------------------------------------------------------------------------
  // setBigPrimes and getCountBigPrimes

  /** The point of bit k of word (A, B): (x + 10A + realPartDecompress[k]) + (y + 10B + imagPartDecompress[k])i. */
  function BitPoint(w: Window, A: nat, B: nat, k: bv5): Gint
  {
    PointAt(w, Pt(A, B, k).a, Pt(A, B, k).b)
  }

  /** The points of the set bits among bits 0 .. n - 1 of word (A, B), in bit order. */
  function WordHarvest(w: Window, word: bv32, A: nat, B: nat, n: nat): seq<Gint>
    requires n <= 32
  {
    if n == 0 then []
    else WordHarvest(w, word, A, B, n - 1) + (if Bit(word, (n - 1) as bv5) then [BitPoint(w, A, B, (n - 1) as bv5)] else [])
  }

  lemma WordHarvestStep(w: Window, word: bv32, A: nat, B: nat, n: nat)
    requires n < 32
    ensures WordHarvest(w, word, A, B, n + 1) ==
      WordHarvest(w, word, A, B, n) + (if Bit(word, n as bv5) then [BitPoint(w, A, B, n as bv5)] else [])
  {
  }

  lemma BitPointAt(w: Window, A: nat, B: nat, n: nat)
    requires n < 32
    ensures BitPoint(w, A, B, n as bv5) == Gint(w.x + 10 * A + RealDecompress[n], w.y + 10 * B + ImagDecompress[n])
  {
    ToBits(n);
  }

  /** The points of the set bits of words 0 .. n - 1 of column A. */
  function ColumnHarvest(w: Window, column: seq<bv32>, A: nat, n: nat): seq<Gint>
    requires n <= |column|
  {
    if n == 0 then [] else ColumnHarvest(w, column, A, n - 1) + WordHarvest(w, column[n - 1], A, n - 1, 32)
  }

  /** The points of the set bits of columns 0 .. n - 1, column by column. */
  function Scan(w: Window, words: seq<seq<bv32>>, n: nat): seq<Gint>
    requires n <= |words|
  {
    if n == 0 then [] else Scan(w, words, n - 1) + ColumnHarvest(w, words[n - 1], n - 1, |words[n - 1]|)
  }

  /** The primes 1 + i, 2 + i and 1 + 2i above 2 and 5, which have no bit. */
  const Tiny: seq<Gint> := [Gint(1, 1), Gint(2, 1), Gint(1, 2)]

  /** What setBigPrimes collects: 1 + i, 2 + i and 1 + 2i when x < 10 and y < 10, then the point of every set bit. */
  function Harvest(w: Window, words: seq<seq<bv32>>): seq<Gint>
  {
    (if w.x < 10 && w.y < 10 then Tiny else []) + Scan(w, words, |words|)
  }

  /** Bit k of word (A, B) holds p exactly when p's relative position lies in that word at bit k. */
  lemma BitPointIdent(w: Window, A: nat, B: nat, k: bv5, p: Gint)
    ensures var r := Rel(w, p);
      p == BitPoint(w, A, B, k) <==>
        r.a >= 0 && r.b >= 0 && Coprime10(r.a, r.b) && r.a / 10 == A && r.b / 10 == B && BitOf(r.a, r.b) == k
  {
    PtCoprime(A, B, k);
    var r := Rel(w, p);
    if r.a >= 0 && r.b >= 0 {
      PtIdent(A, B, k, r.a, r.b);
    }
  }

  lemma BelowStep(k: bv5, n: nat)
    requires 1 <= n <= 32
    ensures (k as nat) < n <==> (k as nat) < n - 1 || k == (n - 1) as bv5
  {
    ToBits(n - 1);
  }

  /** Bits 0 .. n - 1 of word (A, B) yield p exactly when p's bit is among them and set. */
  lemma {:induction false} WordHarvestMembers(w: Window, word: bv32, A: nat, B: nat, n: nat, p: Gint)
    requires n <= 32
    ensures var r := Rel(w, p);
      p in WordHarvest(w, word, A, B, n) <==>
        r.a >= 0 && r.b >= 0 && Coprime10(r.a, r.b) && r.a / 10 == A && r.b / 10 == B &&
        (BitOf(r.a, r.b) as nat) < n && Bit(word, BitOf(r.a, r.b))
  {
    if n > 0 {
      WordHarvestMembers(w, word, A, B, n - 1, p);
      var k := (n - 1) as bv5;
      BitPointIdent(w, A, B, k, p);
      var r := Rel(w, p);
      if r.a >= 0 && r.b >= 0 && Coprime10(r.a, r.b) {
        BelowStep(BitOf(r.a, r.b), n);
      }
    }
  }

  lemma Below32(k: bv5)
    ensures (k as nat) < 32
  {
  }

  lemma {:induction false} ColumnHarvestMembers(w: Window, column: seq<bv32>, A: nat, n: nat, p: Gint)
    requires n <= |column|
    ensures var r := Rel(w, p);
      p in ColumnHarvest(w, column, A, n) <==>
        r.a >= 0 && r.b >= 0 && Coprime10(r.a, r.b) && r.a / 10 == A && r.b / 10 < n &&
        Bit(column[r.b / 10], BitOf(r.a, r.b))
  {
    if n > 0 {
      var s, t := ColumnHarvest(w, column, A, n - 1), WordHarvest(w, column[n - 1], A, n - 1, 32);
      ColumnHarvestMembers(w, column, A, n - 1, p);
      WholeWordMembers(w, column[n - 1], A, n - 1, p);
      ColumnCellStep(w, column, A, n, p);
      var r := Rel(w, p);
      var inS := r.a >= 0 && r.b >= 0 && Coprime10(r.a, r.b) && r.a / 10 == A && r.b / 10 < n - 1 &&
        Bit(column[r.b / 10], BitOf(r.a, r.b));
      var inT := r.a >= 0 && r.b >= 0 && Coprime10(r.a, r.b) && r.a / 10 == A && r.b / 10 == n - 1 &&
        Bit(column[n - 1], BitOf(r.a, r.b));
      ConcatMembers(p, s, t, ColumnHarvest(w, column, A, n), inS, inT);
    }
  }

  /** Membership in a concatenation, stated through the conditions for membership in each part. */
  lemma ConcatMembers(p: Gint, s: seq<Gint>, t: seq<Gint>, u: seq<Gint>, inS: bool, inT: bool)
    requires u == s + t && (p in s <==> inS) && (p in t <==> inT)
    ensures p in u <==> inS || inT
  {
  }

  /** p's bit is set in one of the first n words exactly when it is in the first n - 1 or in word n - 1. */
  lemma ColumnCellStep(w: Window, column: seq<bv32>, A: nat, n: nat, p: Gint)
    requires 0 < n <= |column|
    ensures var r := Rel(w, p);
      (r.a >= 0 && r.b >= 0 && Coprime10(r.a, r.b) && r.a / 10 == A && r.b / 10 < n &&
        Bit(column[r.b / 10], BitOf(r.a, r.b))) <==>
      (r.a >= 0 && r.b >= 0 && Coprime10(r.a, r.b) && r.a / 10 == A && r.b / 10 < n - 1 &&
        Bit(column[r.b / 10], BitOf(r.a, r.b))) ||
      (r.a >= 0 && r.b >= 0 && Coprime10(r.a, r.b) && r.a / 10 == A && r.b / 10 == n - 1 &&
        Bit(column[n - 1], BitOf(r.a, r.b)))
  {
    var r := Rel(w, p);
    if r.a >= 0 && r.b >= 0 && r.b / 10 == n - 1 {
      assert column[r.b / 10] == column[n - 1];
    }
  }

  /** All 32 bits of word (A, B) yield p exactly when p's cell is in that word and set. */
  lemma WholeWordMembers(w: Window, word: bv32, A: nat, B: nat, p: Gint)
    ensures var r := Rel(w, p);
      p in WordHarvest(w, word, A, B, 32) <==>
        r.a >= 0 && r.b >= 0 && Coprime10(r.a, r.b) && r.a / 10 == A && r.b / 10 == B &&
        Bit(word, BitOf(r.a, r.b))
  {
    WordHarvestMembers(w, word, A, B, 32, p);
    var r := Rel(w, p);
    if r.a >= 0 && r.b >= 0 && Coprime10(r.a, r.b) {
      Below32(BitOf(r.a, r.b));
    }
  }

  lemma {:induction false} ScanMembers(w: Window, words: seq<seq<bv32>>, n: nat, p: Gint)
    requires n <= |words|
    ensures p in Scan(w, words, n) <==> IsOn(words, Rel(w, p)) && Rel(w, p).a / 10 < n
  {
    if n > 0 {
      ScanMembers(w, words, n - 1, p);
      ColumnHarvestMembers(w, words[n - 1], n - 1, |words[n - 1]|, p);
      var r := Rel(w, p);
      assert p in Scan(w, words, n) <==>
        p in Scan(w, words, n - 1) || p in ColumnHarvest(w, words[n - 1], n - 1, |words[n - 1]|);
      if r.a >= 0 && r.a / 10 == n - 1 {
        assert words[r.a / 10] == words[n - 1];
      }
    }
  }

  /**
   * setBigPrimes returns 1 + i, 2 + i and 1 + 2i when the window starts at the origin,
   * and otherwise exactly the points of the window coprime to 10 whose bit is set.
   */
  lemma HarvestMembers(w: Window, words: seq<seq<bv32>>, p: Gint)
    requires Tens(w) && WordsShaped(w, words)
    ensures p in Harvest(w, words) <==>
      (w.x == 0 && w.y == 0 && p in Tiny) ||
      (InWindow(w, p) && Coprime10(p.a, p.b) && IsOn(words, Rel(w, p)))
  {
    ScanMembers(w, words, |words|, p);
    StoredMeans(w, words, Rel(w, p));
    assert PointAt(w, Rel(w, p).a, Rel(w, p).b) == p;
  }

  // ---------------------------------------------------------------------------
  // The small primes from the octant donut sieve

  /** The only point of the octant of norm 1 is 1. */
  lemma OctantUnit(r: Gint)
    requires InOctant(r) && Norm(r) == 1
    ensures r == Gint(1, 0)
  {
    Blk.SmallNorm(r);
  }

  /** Every point of the octant donut sieve's output can be swept and has norm at least 2. */
  lemma {:induction false} DonutPrimeSweeps(m: nat, grid: seq<seq<bv32>>, ps0: seq<Gint>, g: Gint)
    requires Donut.DShaped(m, grid) && Donut.SievedWith(Donut.InitialWords(m), grid, m, ps0)
    requires g in Donut.DHarvest(m, grid)
    ensures DonutSweeps(g) && Norm(g) >= 2 && (Norm(g) <= m || Norm(g) <= 5)
  {
    Donut.SievedOneOff(m, grid, ps0);
    Donut.DHarvestMembers(m, grid, g);
    var t0, t1, t2 := Gint(1, 1), Gint(2, 1), Gint(1, 2);
    if g != t0 && g != t1 && g != t2 {
      var home := Oct.Home(g);
      ClassCoprime10(home, g);
      NormPositive(g);
      if Norm(g) == 1 {
        OctantUnit(home);
      }
    }
  }

  /**
   * What the block donut sieve gets from the octant donut sieve of radius m: points it can
   * sweep, 1 + i, 2 + i and 1 + 2i, and every Gaussian prime of the octant of norm 2 to m
   * together with its flip.
   */
  lemma {:induction false} DonutSmallPrimes(m: nat, grid: seq<seq<bv32>>, ps0: seq<Gint>, ps: seq<Gint>)
    requires Donut.DShaped(m, grid) && Donut.SievedWith(Donut.InitialWords(m), grid, m, ps0) && Donut.PrimesOn(grid)
    requires multiset(ps) == multiset(Donut.DHarvest(m, grid))
    ensures forall k :: 0 <= k < |ps| ==> DonutSweeps(ps[k]) && Norm(ps[k]) >= 2 && (Norm(ps[k]) <= m || Norm(ps[k]) <= 5)
    ensures Gint(1, 1) in ps && Gint(2, 1) in ps && Gint(1, 2) in ps
    ensures forall r :: InOctant(r) && 2 <= Norm(r) <= m && !Composite(r) ==>
      r in ps && (r.b > 0 ==> Flip(r) in ps)
  {
    forall k | 0 <= k < |ps|
      ensures DonutSweeps(ps[k]) && Norm(ps[k]) >= 2 && (Norm(ps[k]) <= m || Norm(ps[k]) <= 5)
    {
      assert ps[k] in multiset(Donut.DHarvest(m, grid));
      DonutPrimeSweeps(m, grid, ps0, ps[k]);
    }
    Donut.DHarvestMembers(m, grid, Gint(1, 1));
    Donut.DHarvestMembers(m, grid, Gint(2, 1));
    Donut.DHarvestMembers(m, grid, Gint(1, 2));
    assert Gint(1, 1) in multiset(ps) && Gint(2, 1) in multiset(ps) && Gint(1, 2) in multiset(ps);
    forall r | InOctant(r) && 2 <= Norm(r) <= m && !Composite(r)
      ensures r in ps && (r.b > 0 ==> Flip(r) in ps)
    {
      Donut.PrimesHarvested(m, grid, r);
      assert r in multiset(ps);
      if r.b > 0 {
        assert Flip(r) in multiset(ps);
      }
    }
  }

  // ---------------------------------------------------------------------------
  // The block donut sieve and the block sieve report the same primes

  /** 1 + i, 2 + i and 1 + 2i are Gaussian primes: their norms are 2, 5 and 5. */
  lemma TinyPrime(p: Gint)
    requires p in Tiny
    ensures Norm(p) >= 2 && !Composite(p)
  {
    NormTwoFivePrime(p);
  }

  lemma UnitProducts(q: Gint)
    ensures Mul(q, Gint(1, 0)) == q && Mul(q, Gint(-1, 0)) == Gint(-q.a, -q.b)
    ensures Mul(q, Gint(0, 1)) == Gint(-q.b, q.a) && Mul(q, Gint(0, -1)) == Gint(q.b, -q.a)
  {
  }

  /** A multiple of a small prime by a non-unit is off after the block sieve: it is composite, so no sweep sets it again. */
  lemma {:induction false} MultipleOff(w: Window, ps: seq<Gint>, k: nat, h: Gint)
    requires Blk.PrimesSweep(ps) && (forall j :: 0 <= j < |ps| ==> !Composite(ps[j]))
    requires k < |ps| && Norm(h) >= 2 && InWindow(w, Mul(ps[k], h))
    ensures !Blk.On(w, Blk.SieveWith(w, Blk.InitialBlock(w), ps), Mul(ps[k], h))
  {
    var p := Mul(ps[k], h);
    Blk.ProductComposite(ps[k], h, p);
    forall j | 0 <= j < |ps|
      ensures p != ps[j] && p != Flip(ps[j])
    {
      if p == Flip(ps[j]) {
        FlipComposite(ps[j]);
      }
    }
    Blk.SieveWithClearsMultiples(w, Blk.InitialBlock(w), ps, k, h);
  }

  /** A point that shares a factor with 10 is divisible by one of 1 + i, 2 + i and 1 + 2i. */
  lemma TinyDivisor(p: Gint) returns (q: Gint)
    requires !Coprime10(p.a, p.b)
    ensures q in Tiny && Divides(q, p)
  {
    Coprime10Meaning(p);
    if Divides(Gint(1, 1), p) {
      q := Gint(1, 1);
    } else if Divides(Gint(2, 1), p) {
      q := Gint(2, 1);
    } else {
      q := Gint(1, 2);
    }
  }

  /**
   * A point of the window that shares a factor with 10 is off after the block sieve,
   * unless it is 1 + i, 2 + i or 1 + 2i in a window at the origin: it is 0, or a multiple
   * of one of those three primes by a non-unit.
   */
  lemma {:induction false} SharedOff(w: Window, ps: seq<Gint>, p: Gint)
    requires Tens(w) && Blk.PrimesSweep(ps) && (forall k :: 0 <= k < |ps| ==> !Composite(ps[k]))
    requires Gint(1, 1) in ps && Gint(2, 1) in ps && Gint(1, 2) in ps
    requires InWindow(w, p) && !Coprime10(p.a, p.b) && !(w.x == 0 && w.y == 0 && p in Tiny)
    ensures !Blk.On(w, Blk.SieveWith(w, Blk.InitialBlock(w), ps), p)
  {
    var q := TinyDivisor(p);
    var k := TinyIndex(ps, q);
    var h := Cofactor(q, p);
    CofactorGivesMul(q, p);
    if Norm(h) >= 2 {
      MultipleOff(w, ps, k, h);
    } else {
      SmallShared(w, ps, q, h, p);
    }
  }

  /** Where 1 + i, 2 + i or 1 + 2i sits in a list holding all three. */
  lemma TinyIndex(ps: seq<Gint>, q: Gint) returns (k: nat)
    requires Gint(1, 1) in ps && Gint(2, 1) in ps && Gint(1, 2) in ps && q in Tiny
    ensures k < |ps| && ps[k] == q
  {
    assert q in ps;
    k :| 0 <= k < |ps| && ps[k] == q;
  }

  /** The case of SharedOff where the cofactor is 0 or a unit: the point is 0, which is off. */
  lemma SmallShared(w: Window, ps: seq<Gint>, q: Gint, h: Gint, p: Gint)
    requires Tens(w) && Blk.PrimesSweep(ps) && ps != []
    requires q in Tiny && InWindow(w, p) && p == Mul(q, h) && Norm(h) < 2
    requires !(w.x == 0 && w.y == 0 && p in Tiny)
    ensures !Blk.On(w, Blk.SieveWith(w, Blk.InitialBlock(w), ps), p)
  {
    Blk.SmallNorm(h);
    SmallCofactor(w, q, h, p);
    Blk.ZeroOff(w, Blk.InitialBlock(w), ps);
  }

  /** A point of the window that is 1 + i, 2 + i or 1 + 2i times a unit is that prime, in a window at the origin. */
  lemma UnitCofactor(w: Window, q: Gint, h: Gint, p: Gint)
    requires 0 < q.a <= 2 && 0 < q.b <= 2
    requires Tens(w) && InWindow(w, p) && p == Mul(q, h)
    requires h == Gint(1, 0) || h == Gint(-1, 0) || h == Gint(0, 1) || h == Gint(0, -1)
    ensures p == q && w.x == 0 && w.y == 0
  {
    UnitProducts(q);
    if h == Gint(1, 0) {
      TenthZero(w.x);
      TenthZero(w.y);
    }
  }

  /** 1 + i, 2 + i or 1 + 2i times 0 or a unit, in the window, is 0 or the prime itself at the origin. */
  lemma SmallCofactor(w: Window, q: Gint, h: Gint, p: Gint)
    requires q in Tiny && Tens(w) && InWindow(w, p) && p == Mul(q, h)
    requires h == Gint(0, 0) || h == Gint(1, 0) || h == Gint(-1, 0) || h == Gint(0, 1) || h == Gint(0, -1)
    ensures p == Gint(0, 0) || (p == q && w.x == 0 && w.y == 0)
  {
    TinyCases(q);
    if h == Gint(0, 0) {
      MulZero(q);
    } else {
      UnitCofactor(w, q, h, p);
    }
  }

  lemma TinyCases(q: Gint)
    requires q in Tiny
    ensures 0 < q.a <= 2 && 0 < q.b <= 2
  {
  }

  lemma MulZero(q: Gint)
    ensures Mul(q, Gint(0, 0)) == Gint(0, 0)
  {
  }


  lemma TenthZero(n: nat)
    requires n % 10 == 0 && n < 10
    ensures n == 0
  {
  }

  /** 1 + i, 2 + i and 1 + 2i stay on in a block at the origin. */
  lemma TinyOn(w: Window, ps: seq<Gint>, p: Gint)
    requires w.x == 0 && w.y == 0 && w.dx >= 10 && w.dy >= 10 && p in Tiny && Blk.PrimesSweep(ps)
    ensures Blk.On(w, Blk.SieveWith(w, Blk.InitialBlock(w), ps), p)
  {
    TinyPrime(p);
    Blk.InitialOn(w, p);
    Blk.SieveWithKeepsPrimes(w, Blk.InitialBlock(w), ps, p);
  }

  /**
   * Given the same small primes (primes of norm at least 2, including 1 + i, 2 + i and
   * 1 + 2i), setBigPrimes of the block donut sieve and of the block sieve hold the same
   * points, once the donut's words agree with the block sieve's array.
   */
  lemma {:induction false} HarvestsAgree(w: Window, ps: seq<Gint>, words: seq<seq<bv32>>, p: Gint)
    requires Tens(w) && w.dx > 0 && w.dy > 0
    requires Blk.PrimesSweep(ps) && (forall k :: 0 <= k < |ps| ==> !Composite(ps[k]))
    requires Gint(1, 1) in ps && Gint(2, 1) in ps && Gint(1, 2) in ps
    requires WordsShaped(w, words) && Agree(w, Blk.SieveWith(w, Blk.InitialBlock(w), ps), words)
    ensures p in Blk.Harvest(w, Blk.SieveWith(w, Blk.InitialBlock(w), ps), w.dx) <==> p in Harvest(w, words)
  {
    var grid := Blk.SieveWith(w, Blk.InitialBlock(w), ps);
    Blk.HarvestMembers(w, grid, p);
    HarvestMembers(w, words, p);
    if w.x == 0 && w.y == 0 && p in Tiny {
      TinyOn(w, ps, p);
    } else if InWindow(w, p) {
      if Coprime10(p.a, p.b) {
        StoredPoint(w, words, p);
      } else {
        SharedOff(w, ps, p);
      }
    }
  }

  /** After a run every Gaussian prime of the window coprime to 10 has its bit set. */
  lemma RunKeepsPrimes(w: Window, ps: seq<Gint>, words: seq<seq<bv32>>)
    requires Tens(w) && Blk.PrimesSweep(ps)
    requires WordsShaped(w, words) && Agree(w, Blk.SieveWith(w, Blk.InitialBlock(w), ps), words)
    ensures forall p :: InWindow(w, p) && Coprime10(p.a, p.b) && Norm(p) >= 2 && !Composite(p) ==>
      IsOn(words, Rel(w, p))
  {
    Blk.RunKeepsPrimes(w, ps);
    forall p | InWindow(w, p) && Coprime10(p.a, p.b) && Norm(p) >= 2 && !Composite(p)
      ensures IsOn(words, Rel(w, p))
    {
      StoredPoint(w, words, p);
    }
  }

  /**
   * The octant donut sieve's output lists exactly the Gaussian primes a + bi with a > 0,
   * b >= 0 and norm 2 to m (and 2 + i, 1 + 2i when m < 5): none of its points is composite.
   */
  /** The facts DonutPrimes states, from the octant donut sieve's run and harvest. */
  lemma DonutOutput(m: nat, grid: seq<seq<bv32>>, ps0: seq<Gint>, ps: seq<Gint>)
    requires Donut.DShaped(m, grid) && Donut.SievedWith(Donut.InitialWords(m), grid, m, ps0) && Donut.PrimesOn(grid)
    requires Oct.AllPrimesTo(ps0, IntSqrt(m))
    requires multiset(ps) == multiset(Donut.DHarvest(m, grid))
    ensures forall k :: 0 <= k < |ps| ==> DonutSweeps(ps[k]) && Norm(ps[k]) >= 2 && (Norm(ps[k]) <= m || Norm(ps[k]) <= 5)
    ensures Gint(1, 1) in ps && Gint(2, 1) in ps && Gint(1, 2) in ps
    ensures forall r :: InOctant(r) && 2 <= Norm(r) <= m && !Composite(r) ==> r in ps && (r.b > 0 ==> Flip(r) in ps)
    ensures Oct.AllPrimesTo(ps, m)
  {
    DonutSmallPrimes(m, grid, ps0, ps);
    DonutSmallPrimesAll(m, grid, ps0, ps);
  }

  lemma DonutSmallPrimesAll(m: nat, grid: seq<seq<bv32>>, ps0: seq<Gint>, ps: seq<Gint>)
    requires Donut.DShaped(m, grid) && Donut.SievedWith(Donut.InitialWords(m), grid, m, ps0)
    requires Oct.AllPrimesTo(ps0, IntSqrt(m))
    requires multiset(ps) == multiset(Donut.DHarvest(m, grid))
    ensures Oct.AllPrimesTo(ps, m)
  {
    forall k | 0 <= k < |ps|
      ensures !Composite(ps[k])
    {
      assert ps[k] in multiset(Donut.DHarvest(m, grid));
      Donut.DHarvestSound(m, grid, ps0, ps[k]);
    }
    forall p: Gint | p.a > 0 && p.b >= 0 && 2 <= Norm(p) <= m && !Composite(p)
      ensures p in ps
    {
      Donut.DHarvestComplete(m, grid, ps0, p);
      assert p in multiset(ps);
    }
  }

  /**
   * With every Gaussian prime a + bi (a > 0, b >= 0) of norm up to M >= isqrt(MaxNorm)
   * among the small primes, a point of the window coprime to 10 and of norm at least 2
   * has its bit set after a run exactly when it is a Gaussian prime.
   */
  lemma RunExact(w: Window, ps: seq<Gint>, M: nat, words: seq<seq<bv32>>)
    requires Tens(w) && Blk.PrimesSweep(ps) && Oct.AllPrimesTo(ps, M) && IntSqrt(MaxNorm(w)) <= M
    requires WordsShaped(w, words) && Agree(w, Blk.SieveWith(w, Blk.InitialBlock(w), ps), words)
    ensures forall p :: InWindow(w, p) && Coprime10(p.a, p.b) && Norm(p) >= 2 ==>
      (IsOn(words, Rel(w, p)) <==> !Composite(p))
  {
    Blk.RunExact(w, ps, M);
    forall p | InWindow(w, p) && Coprime10(p.a, p.b) && Norm(p) >= 2
      ensures IsOn(words, Rel(w, p)) <==> !Composite(p)
    {
      StoredPoint(w, words, p);
    }
  }

  /** One word yields each of its points at most once. */
  lemma {:induction false} WordHarvestDistinct(w: Window, word: bv32, A: nat, B: nat, n: nat)
    requires n <= 32
    ensures Distinct(WordHarvest(w, word, A, B, n))
  {
    if n > 0 {
      WordHarvestDistinct(w, word, A, B, n - 1);
      var k := (n - 1) as bv5;
      var s := WordHarvest(w, word, A, B, n - 1);
      if Bit(word, k) {
        var p := BitPoint(w, A, B, k);
        BitPointIdent(w, A, B, k, p);
        WordHarvestMembers(w, word, A, B, n - 1, p);
        ToBits(n - 1);
        DistinctConcat(s, [p]);
      } else {
        assert WordHarvest(w, word, A, B, n) == s + [];
      }
    }
  }

  /** The words of a column hold different points. */
  lemma {:induction false} ColumnHarvestDistinct(w: Window, column: seq<bv32>, A: nat, n: nat)
    requires n <= |column|
    ensures Distinct(ColumnHarvest(w, column, A, n))
  {
    if n > 0 {
      ColumnHarvestDistinct(w, column, A, n - 1);
      WordHarvestDistinct(w, column[n - 1], A, n - 1, 32);
      var s, t := ColumnHarvest(w, column, A, n - 1), WordHarvest(w, column[n - 1], A, n - 1, 32);
      forall x | x in s
        ensures x !in t
      {
        ColumnWordDisjoint(w, column, A, n, x);
      }
      DistinctConcat(s, t);
    }
  }

  /** A point of the first n - 1 words of a column is not in word n - 1. */
  lemma ColumnWordDisjoint(w: Window, column: seq<bv32>, A: nat, n: nat, x: Gint)
    requires 0 < n <= |column| && x in ColumnHarvest(w, column, A, n - 1)
    ensures x !in WordHarvest(w, column[n - 1], A, n - 1, 32)
  {
    ColumnHarvestRow(w, column, A, n - 1, x);
    WordHarvestRow(w, column[n - 1], A, n - 1, x);
  }

  /** The points of the first n words of a column lie below row 10 n of the window. */
  lemma ColumnHarvestRow(w: Window, column: seq<bv32>, A: nat, n: nat, x: Gint)
    requires n <= |column|
    ensures x in ColumnHarvest(w, column, A, n) ==> Rel(w, x).b >= 0 && Rel(w, x).b / 10 < n
  {
    ColumnHarvestMembers(w, column, A, n, x);
  }

  /** The points of word B lie in rows 10 B to 10 B + 9 of the window. */
  lemma WordHarvestRow(w: Window, word: bv32, A: nat, B: nat, x: Gint)
    ensures x in WordHarvest(w, word, A, B, 32) ==> Rel(w, x).b >= 0 && Rel(w, x).b / 10 == B
  {
    WordHarvestMembers(w, word, A, B, 32, x);
  }

  /** The columns hold different points. */
  lemma {:induction false} ScanDistinct(w: Window, words: seq<seq<bv32>>, n: nat)
    requires n <= |words|
    ensures Distinct(Scan(w, words, n))
  {
    if n > 0 {
      ScanDistinct(w, words, n - 1);
      ColumnHarvestDistinct(w, words[n - 1], n - 1, |words[n - 1]|);
      var s, t := Scan(w, words, n - 1), ColumnHarvest(w, words[n - 1], n - 1, |words[n - 1]|);
      forall x | x in s
        ensures x !in t
      {
        ScanColumnDisjoint(w, words, n, x);
      }
      DistinctConcat(s, t);
    }
  }

  /** A point of the first n - 1 columns is not in column n - 1: the tens of its real part differ. */
  lemma ScanColumnDisjoint(w: Window, words: seq<seq<bv32>>, n: nat, x: Gint)
    requires 0 < n <= |words| && x in Scan(w, words, n - 1)
    ensures x !in ColumnHarvest(w, words[n - 1], n - 1, |words[n - 1]|)
  {
    ScanMembers(w, words, n - 1, x);
    assert Rel(w, x).a / 10 < n - 1;
    ColumnHarvestMembers(w, words[n - 1], n - 1, |words[n - 1]|, x);
  }

  /** setBigPrimes lists no point twice: 1 + i, 2 + i and 1 + 2i have no bit. */
  lemma HarvestDistinct(w: Window, words: seq<seq<bv32>>)
    requires Tens(w)
    ensures Distinct(Harvest(w, words))
  {
    var sc := Scan(w, words, |words|);
    ScanDistinct(w, words, |words|);
    if w.x < 10 && w.y < 10 {
      TenthZero(w.x);
      TenthZero(w.y);
      forall x | x in Tiny
        ensures x !in sc
      {
        ScanMembers(w, words, |words|, x);
        assert Rel(w, x) == x && !Coprime10(x.a, x.b);
      }
      DistinctConcat(Tiny, sc);
    } else {
      assert Harvest(w, words) == [] + sc;
    }
  }

  /** A point is in both harvests or in neither, and it is there exactly when it is a Gaussian prime of the window. */
  lemma HarvestPointAgrees(w: Window, ps1: seq<Gint>, M1: nat, ps2: seq<Gint>, M2: nat, words: seq<seq<bv32>>, p: Gint)
    requires Tens(w) && w.dx > 0 && w.dy > 0
    requires M1 >= 2 && Blk.PrimesSweep(ps1) && Oct.AllPrimesTo(ps1, M1) && IntSqrt(MaxNorm(w)) <= M1
    requires M2 >= 2 && Blk.PrimesSweep(ps2) && Oct.AllPrimesTo(ps2, M2) && IntSqrt(MaxNorm(w)) <= M2
    requires Gint(1, 1) in ps2 && Gint(2, 1) in ps2 && Gint(1, 2) in ps2
    requires WordsShaped(w, words) && Agree(w, Blk.SieveWith(w, Blk.InitialBlock(w), ps2), words)
    ensures p in Blk.Harvest(w, Blk.SieveWith(w, Blk.InitialBlock(w), ps1), w.dx) <==>
      InWindow(w, p) && Norm(p) >= 2 && !Composite(p)
    ensures p in Harvest(w, words) <==> InWindow(w, p) && Norm(p) >= 2 && !Composite(p)
  {
    Blk.HarvestIsPrimes(w, ps1, M1, p);
    Blk.HarvestIsPrimes(w, ps2, M2, p);
    HarvestsAgree(w, ps2, words, p);
  }

  /**
   * Sorted, the harvest of a block sieve and that of a block donut sieve of the same window
   * are one list, the Gaussian primes of the window, once each ran with every Gaussian
   * prime a + bi (a > 0, b >= 0) of norm up to isqrt of the far corner's norm or beyond.
   */
  lemma SortedHarvestsAgree(w: Window, ps1: seq<Gint>, M1: nat, ps2: seq<Gint>, M2: nat, words: seq<seq<bv32>>, s1: seq<Gint>, s2: seq<Gint>)
    requires Tens(w) && w.dx > 0 && w.dy > 0
    requires M1 >= 2 && Blk.PrimesSweep(ps1) && Oct.AllPrimesTo(ps1, M1) && IntSqrt(MaxNorm(w)) <= M1
    requires M2 >= 2 && Blk.PrimesSweep(ps2) && Oct.AllPrimesTo(ps2, M2) && IntSqrt(MaxNorm(w)) <= M2
    requires Gint(1, 1) in ps2 && Gint(2, 1) in ps2 && Gint(1, 2) in ps2
    requires WordsShaped(w, words) && Agree(w, Blk.SieveWith(w, Blk.InitialBlock(w), ps2), words)
    requires Sorted(s1) && multiset(s1) == multiset(Blk.Harvest(w, Blk.SieveWith(w, Blk.InitialBlock(w), ps1), w.dx))
    requires Sorted(s2) && multiset(s2) == multiset(Harvest(w, words))
    ensures s1 == s2
    ensures forall p :: p in s1 <==> InWindow(w, p) && Norm(p) >= 2 && !Composite(p)
  {
    var h1 := Blk.Harvest(w, Blk.SieveWith(w, Blk.InitialBlock(w), ps1), w.dx);
    var h2 := Harvest(w, words);
    HarvestDistinct(w, words);
    Blk.HarvestIsPrimes(w, ps1, M1, Gint(0, 0));
    forall p
      ensures p in h1 <==> InWindow(w, p) && Norm(p) >= 2 && !Composite(p)
      ensures p in h1 <==> p in h2
    {
      HarvestPointAgrees(w, ps1, M1, ps2, M2, words, p);
    }
    DistinctSameMembers(h1, h2);
    forall p
      ensures p in s1 <==> p in h1
    {
      assert p in s1 <==> p in multiset(h1);
    }
    forall k | 0 <= k < |s1|
      ensures s1[k].b >= 0
    {
      assert s1[k] in h1;
    }
    SortedUnique(s1, s2);
  }

  // ---------------------------------------------------------------------------
  // The class

  class BlockDonutSieve {
    const x: nat
    const y: nat
    const dx: nat
    const dy: nat
    const maxNorm: nat
    var smallPrimes: seq<Gint>
    var bigPrimes: seq<Gint>
    var sieveArray: seq<seq<bv32>>

    function Win(): Window
    {
      Window(x, y, dx, dy)
    }

    /**
     * The constructor (src/BlockDonutSieve.cpp:13-61) once its test has passed: maxNorm is
     * the norm (x + dx - 1)^2 + (y + dy - 1)^2 of the far corner.
     */
    constructor (x: nat, y: nat, dx: nat, dy: nat)
      requires Tens(Window(x, y, dx, dy))
      ensures this.x == x && this.y == y && this.dx == dx && this.dy == dy
      ensures maxNorm == MaxNorm(Window(x, y, dx, dy))
      ensures smallPrimes == [] && bigPrimes == [] && sieveArray == []
    {
      this.x := x;
      this.y := y;
      this.dx := dx;
      this.dy := dy;
      maxNorm := MaxNorm(Window(x, y, dx, dy));
      smallPrimes := [];
      bigPrimes := [];
      sieveArray := [];
    }

    /**
     * The constructor with its test (src/BlockDonutSieve.cpp:55-59): a window whose corner
     * or sides are not all multiples of 10 is refused and no sieve is built.
     */
    static method Create(x: nat, y: nat, dx: nat, dy: nat) returns (s: Option<BlockDonutSieve>)
      ensures s.None? <==> !Tens(Window(x, y, dx, dy))
      ensures s.Some? ==> fresh(s.value) && s.value.Win() == Window(x, y, dx, dy)
      ensures s.Some? ==> s.value.maxNorm == MaxNorm(Window(x, y, dx, dy))
      ensures s.Some? ==> s.value.smallPrimes == [] && s.value.bigPrimes == [] && s.value.sieveArray == []
    {
      if x % 10 != 0 || y % 10 != 0 || dx % 10 != 0 || dy % 10 != 0 {
        return None;
      }
      var sieve := new BlockDonutSieve(x, y, dx, dy);
      return Some(sieve);
    }

    /** setSieveArray (src/BlockDonutSieve.cpp:77-99): dx / 10 columns of dy / 10 words of all ones, then 1 and i cleared at the origin. */
    method SetSieveArray()
      requires sieveArray == [] && OriginFits(Win())
      modifies this`sieveArray
      ensures sieveArray == InitialWords(Win())
    {
      var i := 0;
      while i < dx / 10
        invariant 0 <= i <= dx / 10 && |sieveArray| == i
        invariant forall k :: 0 <= k < i ==> sieveArray[k] == seq(dy / 10, _ => AllOnes)
      {
        sieveArray := sieveArray + [seq(dy / 10, _ => AllOnes)];
        i := i + 1;
      }
      assert sieveArray == FullBlock(Win());
      if x == 0 && y == 0 {
        OriginWord(Win(), sieveArray);
        SetFalse(1, 0);
        OriginWord(Win(), sieveArray);
        SetFalse(0, 1);
      }
    }

    /** setFalse (src/BlockDonutSieve.cpp:182-188): clears the bit of the point r of the array. */
    method SetFalse(u: nat, v: nat)
      requires Stored(sieveArray, Gint(u, v))
      modifies this`sieveArray
      ensures sieveArray == ClearCell(old(sieveArray), u, v)
    {
      var bit := BitOf(u, v);
      var word := sieveArray[u / 10][v / 10] & !(1 << bit);
      sieveArray := sieveArray[u / 10 := sieveArray[u / 10][v / 10 := word]];
    }

    /** setTrue (src/BlockDonutSieve.cpp:190-196): sets the bit of the point r of the array. */
    method SetTrue(u: nat, v: nat)
      requires Stored(sieveArray, Gint(u, v))
      modifies this`sieveArray
      ensures sieveArray == SetCell(old(sieveArray), u, v)
    {
      var bit := BitOf(u, v);
      var word := sieveArray[u / 10][v / 10] | (1 << bit);
      sieveArray := sieveArray[u / 10 := sieveArray[u / 10][v / 10 := word]];
    }

    /**
     * crossOffMultiples (src/BlockDonutSieve.cpp:108-180): nothing for N(g) <= 5;
     * otherwise the bit of g (c + di) is cleared for every cofactor coprime to 10 whose
     * product lies in the window, then g and its flip are set again when in the window.
     */
    method CrossOffMultiples(g: Gint)
      requires Tens(Win()) && WordsShaped(Win(), sieveArray) && DonutSweeps(g)
      modifies this`sieveArray
      ensures WordsShaped(Win(), sieveArray)
      ensures Norm(g) <= 5 ==> sieveArray == old(sieveArray)
      ensures Norm(g) > 5 ==> Swept(Win(), old(sieveArray), sieveArray, g)
    {
      if Norm(g) <= 5 {
        return;
      }
      ghost var g0 := sieveArray;
      var w := Win();
      SweepMultiples(g);
      ghost var mid := sieveArray;
      SameShapeShaped(w, g0, mid);
      RemarkPoint(g);
      assert Coprime10(g.b, g.a);
      RemarkPoint(Flip(g));
      RemarkSwept(w, g0, mid, g);
    }

    /** setTrue on p when p lies in the window (src/BlockDonutSieve.cpp:172-179). */
    method RemarkPoint(p: Gint)
      requires Tens(Win()) && WordsShaped(Win(), sieveArray) && Coprime10(p.a, p.b)
      modifies this`sieveArray
      ensures sieveArray == Remark(Win(), old(sieveArray), p)
    {
      ghost var g0 := sieveArray;
      var w := Win();
      RemarkCases(w, g0, p);
      if InWindow(w, p) {
        var r := Rel(w, p);
        SetTrue(r.a, r.b);
      }
    }

    /** The c loop of crossOffMultiples (src/BlockDonutSieve.cpp:126-171): every multiple of g in the window is cleared. */
    method SweepMultiples(g: Gint)
      requires Tens(Win()) && WordsShaped(Win(), sieveArray) && Sweeps(g) && Coprime10(g.a, g.b)
      modifies this`sieveArray
      ensures Cleared(Win(), old(sieveArray), sieveArray, g)
    {
      ghost var g0 := sieveArray;
      var w := Win();
      var c := CLow(w, g);
      var cUpper := CHigh(w, g);
      StruckStart(w, g0, g);
      while c <= cUpper
        invariant CLow(w, g) <= c && (c <= cUpper + 1 || c == CLow(w, g))
        invariant ColsStruck(w, g0, sieveArray, g, c)
        decreases cUpper - c
      {
        SweepColumn(g, c, g0);
        c := c + 1;
      }
      SweepEnd(w, g0, sieveArray, g, c);
    }

    /** One pass of the d loop (src/BlockDonutSieve.cpp:164): setFalse(u, v) on the bit of g (c + di). */
    method StrikeProduct(g: Gint, c: int, d: int, u: int, v: int, ghost g0: seq<seq<bv32>>)
      requires Tens(Win()) && WordsShaped(Win(), g0) && Sweeps(g) && Coprime10(g.a, g.b)
      requires CLow(Win(), g) <= c <= CHigh(Win(), g) && DLow(Win(), g, c) <= d <= DHigh(Win(), g, c) && Coprime10(c, d)
      requires Gint(u + x, v + y) == Mul(g, Gint(c, d))
      requires Struck(Win(), g0, sieveArray, g, c, d)
      modifies this`sieveArray
      ensures Struck(Win(), g0, sieveArray, g, c, d + 1)
    {
      var w := Win();
      ghost var w1 := sieveArray;
      ghost var q := Mul(g, Gint(c, d));
      StruckClear(w, g0, w1, g, c, d);
      assert Rel(w, q) == Gint(u, v);
      SetFalse(u, v);
      assert sieveArray == ClearCell(w1, u, v);
    }

    /**
     * The d loops of crossOffMultiples for column c (src/BlockDonutSieve.cpp:150-170):
     * d is first advanced to a cofactor coprime to 10, then jumps by
     * gapDonut[c % 10][d mod 10] while u + vi = g (c + di) - (x + yi) follows it.
     */
    method SweepColumn(g: Gint, c: int, ghost g0: seq<seq<bv32>>)
      requires Tens(Win()) && WordsShaped(Win(), g0) && Sweeps(g) && Coprime10(g.a, g.b)
      requires CLow(Win(), g) <= c <= CHigh(Win(), g)
      requires ColsStruck(Win(), g0, sieveArray, g, c)
      modifies this`sieveArray
      ensures ColsStruck(Win(), g0, sieveArray, g, c + 1)
    {
      var w := Win();
      var a, b := g.a, g.b;
      var d := DLow(w, g, c);
      var dUpper := DHigh(w, g, c);
      ColumnStart(w, g0, sieveArray, g, c);
      var d0 := d;
      d := FirstCoprime(c, d0);
      StruckSkip(w, g0, sieveArray, g, c, d0, d);
      var u := a * c - b * d - x;
      var v := b * c + a * d - y;
      while d <= dUpper
        invariant DLow(w, g, c) <= d && Coprime10(c, d)
        invariant Gint(u + x, v + y) == Mul(g, Gint(c, d))
        invariant Struck(w, g0, sieveArray, g, c, d)
        decreases dUpper - d
      {
        StrikeProduct(g, c, d, u, v, g0);
        var jump := GapDonut[c % 10][d % 10];
        Jump(w, g0, sieveArray, g, c, d);
        Donut.MulJump(g, c, d, jump);
        d := d + jump;
        u := u - jump * b;
        v := v + jump * a;
      }
      ColumnEnd(w, g0, sieveArray, g, c, d);
    }

    /** setSmallPrimes (src/BlockDonutSieve.cpp:63-72): the sorted output of an octant donut sieve of radius isqrt(maxNorm). */
    method SetSmallPrimes()
      requires maxNorm >= 16
      modifies this`smallPrimes
      ensures Sorted(smallPrimes)
      ensures forall k :: 0 <= k < |smallPrimes| ==> DonutSweeps(smallPrimes[k]) && Norm(smallPrimes[k]) >= 2
      ensures Gint(1, 1) in smallPrimes && Gint(2, 1) in smallPrimes && Gint(1, 2) in smallPrimes
      ensures forall r :: InOctant(r) && 2 <= Norm(r) <= IntSqrt(maxNorm) && !Composite(r) ==>
        r in smallPrimes && (r.b > 0 ==> Flip(r) in smallPrimes)
      ensures Oct.AllPrimesTo(smallPrimes, IntSqrt(maxNorm))
    {
      var rt := Isqrt(maxNorm);
      IntSqrtGreatest(maxNorm, 4);
      smallPrimes := DonutPrimes(rt);
    }

    /** The sorted output of an octant donut sieve of radius m (src/BlockDonutSieve.cpp:67-68). */
    static method DonutPrimes(m: nat) returns (ps: seq<Gint>)
      requires m >= 4
      ensures Sorted(ps)
      ensures forall k :: 0 <= k < |ps| ==> DonutSweeps(ps[k]) && Norm(ps[k]) >= 2 && (Norm(ps[k]) <= m || Norm(ps[k]) <= 5)
      ensures Gint(1, 1) in ps && Gint(2, 1) in ps && Gint(1, 2) in ps
      ensures forall r :: InOctant(r) && 2 <= Norm(r) <= m && !Composite(r) ==> r in ps && (r.b > 0 ==> Flip(r) in ps)
      ensures Oct.AllPrimesTo(ps, m)
    {
      var s := new Donut.OctantDonutSieve(m);
      s.Run();
      ghost var grid, ps0 := s.sieveArray, s.smallPrimes;
      ps := s.GetBigPrimes();
      assert [] + Donut.DHarvest(m, grid) == Donut.DHarvest(m, grid);
      IntSqrtGreatest(m, 2);
      Oct.HarvestListsAllPrimes(IntSqrt(m), ps0);
      DonutOutput(m, grid, ps0, ps);
    }

    /**
     * sieve (src/BaseSieve.cpp:19-33): crossOffMultiples for each small prime, in list
     * order. The words keep agreeing with a block sieve run on the same primes.
     */
    method Sieve(ghost grid: seq<seq<bool>>)
      requires Tens(Win()) && WordsShaped(Win(), sieveArray)
      requires Blk.BlockShaped(Win(), grid) && Agree(Win(), grid, sieveArray)
      requires forall k :: 0 <= k < |smallPrimes| ==> DonutSweeps(smallPrimes[k]) && Norm(smallPrimes[k]) >= 2
      modifies this`sieveArray
      ensures WordsShaped(Win(), sieveArray) && Agree(Win(), Blk.SieveWith(Win(), grid, smallPrimes), sieveArray)
    {
      ghost var cur := grid;
      var i := 0;
      while i < |smallPrimes|
        invariant 0 <= i <= |smallPrimes| && WordsShaped(Win(), sieveArray)
        invariant Blk.BlockShaped(Win(), cur) && Agree(Win(), cur, sieveArray)
        invariant Blk.SieveWith(Win(), cur, smallPrimes[i..]) == Blk.SieveWith(Win(), grid, smallPrimes)
      {
        assert smallPrimes[i..][0] == smallPrimes[i];
        assert smallPrimes[i..][1..] == smallPrimes[i + 1..];
        ghost var before := sieveArray;
        CrossOffMultiples(smallPrimes[i]);
        SweepAgrees(Win(), cur, before, sieveArray, smallPrimes[i]);
        cur := Blk.CrossOff(Win(), cur, smallPrimes[i]);
        i := i + 1;
      }
    }

    /**
     * run (src/BaseSieve.cpp:46-50): small primes, then the array, then the sieve. The
     * words end in agreement with the block sieve run on the same small primes, and every
     * Gaussian prime of the window coprime to 10 is on.
     */
    method Run()
      requires smallPrimes == [] && sieveArray == [] && maxNorm >= 16 && Tens(Win()) && OriginFits(Win())
      modifies this`smallPrimes, this`sieveArray
      ensures Sorted(smallPrimes)
      ensures forall k :: 0 <= k < |smallPrimes| ==> DonutSweeps(smallPrimes[k]) && Norm(smallPrimes[k]) >= 2
      ensures Gint(1, 1) in smallPrimes && Gint(2, 1) in smallPrimes && Gint(1, 2) in smallPrimes
      ensures forall r :: InOctant(r) && 2 <= Norm(r) <= IntSqrt(maxNorm) && !Composite(r) ==>
        r in smallPrimes && (r.b > 0 ==> Flip(r) in smallPrimes)
      ensures WordsShaped(Win(), sieveArray)
      ensures Agree(Win(), Blk.SieveWith(Win(), Blk.InitialBlock(Win()), smallPrimes), sieveArray)
      ensures forall p :: InWindow(Win(), p) && Coprime10(p.a, p.b) && Norm(p) >= 2 && !Composite(p) ==>
        IsOn(sieveArray, Rel(Win(), p))
      ensures Oct.AllPrimesTo(smallPrimes, IntSqrt(maxNorm))
      ensures maxNorm >= MaxNorm(Win()) ==>
        forall p :: InWindow(Win(), p) && Coprime10(p.a, p.b) && Norm(p) >= 2 ==>
          (IsOn(sieveArray, Rel(Win(), p)) <==> !Composite(p))
    {
      SetSmallPrimes();
      SetSieveArray();
      InitialAgree(Win());
      Sieve(Blk.InitialBlock(Win()));
      RunKeepsPrimes(Win(), smallPrimes, sieveArray);
      if maxNorm >= MaxNorm(Win()) {
        IntSqrtMonotone(MaxNorm(Win()), maxNorm);
        RunExact(Win(), smallPrimes, IntSqrt(maxNorm), sieveArray);
      }
    }

    /** One word of setBigPrimes (src/BlockDonutSieve.cpp:217-227): the point of each set bit, in bit order. */
    method WordPrimes(word: bv32, A: nat, B: nat) returns (found: seq<Gint>)
      ensures found == WordHarvest(Win(), word, A, B, 32)
    {
      found := [];
      var bit := 0;
      while bit < 32
        invariant 0 <= bit <= 32 && found == WordHarvest(Win(), word, A, B, bit)
      {
        WordHarvestStep(Win(), word, A, B, bit);
        BitPointAt(Win(), A, B, bit);
        if Bit(word, bit as bv5) {
          found := found + [Gint(x + 10 * A + RealDecompress[bit], y + 10 * B + ImagDecompress[bit])];
        }
        bit := bit + 1;
      }
    }

    /**
     * setBigPrimes (src/BlockDonutSieve.cpp:199-232): 1 + i, 2 + i and 1 + 2i when x < 10
     * and y < 10, then the point of every set bit, word by word.
     */
    method SetBigPrimes()
      requires WordsShaped(Win(), sieveArray)
      modifies this`bigPrimes
      ensures bigPrimes == old(bigPrimes) + Harvest(Win(), sieveArray)
    {
      if x < 10 && y < 10 {
        bigPrimes := bigPrimes + [Gint(1, 1), Gint(2, 1), Gint(1, 2)];
      }
      ghost var start := bigPrimes;
      var a := 0;
      while a < dx / 10
        invariant 0 <= a <= dx / 10
        invariant bigPrimes == start + Scan(Win(), sieveArray, a)
      {
        var column := ColumnPrimes(a);
        bigPrimes := bigPrimes + column;
        a := a + 1;
      }
    }

    /** One column of setBigPrimes (src/BlockDonutSieve.cpp:215-229): the words of column a from the bottom up. */
    method ColumnPrimes(a: nat) returns (found: seq<Gint>)
      requires WordsShaped(Win(), sieveArray) && a < |sieveArray|
      ensures found == ColumnHarvest(Win(), sieveArray[a], a, |sieveArray[a]|)
    {
      found := [];
      var b := 0;
      while b < dy / 10
        invariant 0 <= b <= dy / 10 == |sieveArray[a]|
        invariant found == ColumnHarvest(Win(), sieveArray[a], a, b)
      {
        var more := WordPrimes(sieveArray[a][b], a, b);
        found := found + more;
        b := b + 1;
      }
    }

    /** One word of getCountBigPrimes (src/BlockDonutSieve.cpp:249-259): the number of set bits. */
    method WordCount(word: bv32, ghost A: nat, ghost B: nat) returns (n: nat)
      ensures n == |WordHarvest(Win(), word, A, B, 32)|
    {
      n := 0;
      var bit := 0;
      while bit < 32
        invariant 0 <= bit <= 32 && n == |WordHarvest(Win(), word, A, B, bit)|
      {
        WordHarvestStep(Win(), word, A, B, bit);
        if Bit(word, bit as bv5) {
          n := n + 1;
        }
        bit := bit + 1;
      }
    }

    /** One column of getCountBigPrimes (src/BlockDonutSieve.cpp:247-261). */
    method ColumnCount(a: nat) returns (n: nat)
      requires WordsShaped(Win(), sieveArray) && a < |sieveArray|
      ensures n == |ColumnHarvest(Win(), sieveArray[a], a, |sieveArray[a]|)|
    {
      n := 0;
      var b := 0;
      while b < dy / 10
        invariant 0 <= b <= dy / 10 == |sieveArray[a]|
        invariant n == |ColumnHarvest(Win(), sieveArray[a], a, b)|
      {
        var more := WordCount(sieveArray[a][b], a, b);
        n := n + more;
        b := b + 1;
      }
    }

    /** getCountBigPrimes (src/BlockDonutSieve.cpp:234-265): 3 at the origin, plus the number of set bits. */
    method GetCountBigPrimes() returns (count: nat)
      requires Tens(Win()) && WordsShaped(Win(), sieveArray)
      ensures count == |Harvest(Win(), sieveArray)|
    {
      count := 0;
      if x == 0 && y == 0 {
        count := 3;
      }
      ghost var start := count;
      var a := 0;
      while a < dx / 10
        invariant 0 <= a <= dx / 10
        invariant count == start + |Scan(Win(), sieveArray, a)|
      {
        var more := ColumnCount(a);
        count := count + more;
        a := a + 1;
      }
    }

    /** getBigPrimes (src/BaseSieve.cpp:52-62): harvest, then sort by the gint order. */
    method GetBigPrimes() returns (primes: seq<Gint>)
      requires WordsShaped(Win(), sieveArray)
      modifies this`bigPrimes
      ensures Sorted(primes) && primes == bigPrimes
      ensures multiset(bigPrimes) == multiset(old(bigPrimes) + Harvest(Win(), sieveArray))
    {
      SetBigPrimes();
      bigPrimes := SortGints(bigPrimes);
      primes := bigPrimes;
    }
  }

  /**
   * The second comparison of src/test.cpp:46-86: a block sieve and a block donut sieve of
   * the same window, each run and harvested, give the same sorted list, namely the
   * Gaussian primes of the window.
   */
  method CompareBlockSieves(x: nat, y: nat, dx: nat, dy: nat) returns (bP: seq<Gint>, dP: seq<Gint>)
    requires Tens(Window(x, y, dx, dy)) && dx > 0 && dy > 0 && MaxNorm(Window(x, y, dx, dy)) >= 16
    requires OriginFits(Window(x, y, dx, dy)) && Blk.UnitsFit(Window(x, y, dx, dy))
    ensures bP == dP
    ensures forall p :: p in bP <==> InWindow(Window(x, y, dx, dy), p) && Norm(p) >= 2 && !Composite(p)
  {
    ghost var ps1, grid, ps2, words;
    bP, ps1, grid := PlainBlockPrimes(x, y, dx, dy);
    dP, ps2, words := DonutBlockPrimes(x, y, dx, dy);
    SortedListsAgree(Window(x, y, dx, dy), ps1, grid, ps2, words, bP, dP);
  }

  /** The block sieve half of CompareBlockSieves: construct, run, getBigPrimes. */
  method PlainBlockPrimes(x: nat, y: nat, dx: nat, dy: nat) returns (bP: seq<Gint>, ghost ps: seq<Gint>, ghost grid: seq<seq<bool>>)
    requires MaxNorm(Window(x, y, dx, dy)) >= 4 && Blk.UnitsFit(Window(x, y, dx, dy))
    ensures Blk.PrimesSweep(ps) && Oct.AllPrimesTo(ps, IntSqrt(MaxNorm(Window(x, y, dx, dy))))
    ensures grid == Blk.SieveWith(Window(x, y, dx, dy), Blk.InitialBlock(Window(x, y, dx, dy)), ps)
    ensures Sorted(bP) && multiset(bP) == multiset(Blk.Harvest(Window(x, y, dx, dy), grid, dx))
  {
    var b := new Blk.BlockSieve(x, y, dx, dy);
    b.Run();
    bP := b.GetBigPrimes();
    ps, grid := b.smallPrimes, b.sieveArray;
    assert [] + Blk.Harvest(b.Win(), grid, dx) == Blk.Harvest(b.Win(), grid, dx);
    IntSqrtGreatest(MaxNorm(b.Win()), 2);
    Oct.HarvestListsAllPrimes(IntSqrt(MaxNorm(b.Win())), ps);
  }

  /** The block donut sieve half of CompareBlockSieves: construct, run, getBigPrimes. */
  method DonutBlockPrimes(x: nat, y: nat, dx: nat, dy: nat) returns (dP: seq<Gint>, ghost ps: seq<Gint>, ghost words: seq<seq<bv32>>)
    requires Tens(Window(x, y, dx, dy)) && MaxNorm(Window(x, y, dx, dy)) >= 16 && OriginFits(Window(x, y, dx, dy))
    ensures Blk.PrimesSweep(ps) && Oct.AllPrimesTo(ps, IntSqrt(MaxNorm(Window(x, y, dx, dy))))
    ensures Gint(1, 1) in ps && Gint(2, 1) in ps && Gint(1, 2) in ps
    ensures WordsShaped(Window(x, y, dx, dy), words)
    ensures Agree(Window(x, y, dx, dy), Blk.SieveWith(Window(x, y, dx, dy), Blk.InitialBlock(Window(x, y, dx, dy)), ps), words)
    ensures Sorted(dP) && multiset(dP) == multiset(Harvest(Window(x, y, dx, dy), words))
  {
    var d := new BlockDonutSieve(x, y, dx, dy);
    d.Run();
    dP := d.GetBigPrimes();
    ps, words := d.smallPrimes, d.sieveArray;
    assert [] + Harvest(d.Win(), words) == Harvest(d.Win(), words);
  }

  /** What CompareBlockSieves needs of the two runs, on values: the two sorted harvests are equal. */
  lemma SortedListsAgree(w: Window, ps1: seq<Gint>, grid: seq<seq<bool>>, ps2: seq<Gint>, words: seq<seq<bv32>>, bP: seq<Gint>, dP: seq<Gint>)
    requires Tens(w) && w.dx > 0 && w.dy > 0 && MaxNorm(w) >= 16
    requires Blk.PrimesSweep(ps1) && Oct.AllPrimesTo(ps1, IntSqrt(MaxNorm(w)))
    requires grid == Blk.SieveWith(w, Blk.InitialBlock(w), ps1)
    requires Blk.PrimesSweep(ps2) && Oct.AllPrimesTo(ps2, IntSqrt(MaxNorm(w)))
    requires Gint(1, 1) in ps2 && Gint(2, 1) in ps2 && Gint(1, 2) in ps2
    requires WordsShaped(w, words) && Agree(w, Blk.SieveWith(w, Blk.InitialBlock(w), ps2), words)
    requires Sorted(bP) && multiset(bP) == multiset(Blk.Harvest(w, grid, w.dx))
    requires Sorted(dP) && multiset(dP) == multiset(Harvest(w, words))
    ensures bP == dP
    ensures forall p :: p in bP <==> InWindow(w, p) && Norm(p) >= 2 && !Composite(p)
  {
    var M := IntSqrt(MaxNorm(w));
    IntSqrtGreatest(MaxNorm(w), 4);
    SortedHarvestsAgree(w, ps1, M, ps2, M, words, bP, dP);
  }
}
