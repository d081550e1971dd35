/**
 * The static members of the segmented moat (include/Moat.hpp:65-103,
 * src/SegmentedMoat.cpp:48-130) and the geometry every block shares: the two strips
 * of a block, the jump size and its steps, the sieving primes, the initial left
 * boundary, the block size, and the lookup of the left strip.
 */
module SegmentedStatics {
  import opened GaussianInt
  import opened BaseSieve
  import opened SieveGrid
  import BW = BlockWindow
  import Blk = BlockSieve
  import BD = BlockDonutSieve
  import OM = OctantMoat
  import opened SegmentedExplore

  // ---------------------------------------------------------------------------
  // The two strips of a block

  /** The strip width: the number of columns a >= 0 with a < jumpSize - 1. */
  function Strip(jumpSize: real): int
  {
    OM.End(jumpSize - 1.0)
  }

  /** The first right-boundary column, floor(dx - jumpSize + 1). */
  function Cut(dx: int, jumpSize: real): int
  {
    ((dx as real) - jumpSize + 1.0).Floor
  }

  lemma StripMeans(jumpSize: real, a: int)
    ensures a < Strip(jumpSize) <==> (a as real) < jumpSize - 1.0
  {
    OM.EndMeans(jumpSize - 1.0, a);
  }

  /** Column a is in the right strip exactly when a + jumpSize exceeds dx. */
  lemma CutMeans(dx: int, jumpSize: real, a: int)
    ensures a >= Cut(dx, jumpSize) <==> (a as real) + jumpSize > dx as real
  {
    var f := Cut(dx, jumpSize);
    assert (f as real) <= (dx as real) - jumpSize + 1.0 < (f as real) + 1.0;
    if a >= f {
      assert (a as real) >= f as real;
    } else {
      assert (a as real) + 1.0 <= f as real;
    }
  }

  /**
   * The right strip is exactly as wide as the left one: dx - floor(dx - jumpSize + 1)
   * columns. Shifted left by the cut, the right boundary lands on the next block's strip.
   */
  lemma CutStrip(dx: int, jumpSize: real)
    ensures Cut(dx, jumpSize) + Strip(jumpSize) == dx
  {
    var y := jumpSize - 1.0;
    var e := OM.End(y);
    assert (y <= e as real) && (e as real) < y + 1.0;
    var n := dx - e;
    assert (n as real) <= (dx as real) - y < (n as real) + 1.0;
  }

  /** For an admitted jump size the strip has 3 to 5 columns, no more than floor(jumpSize). */
  lemma StripBounds(jumpSize: real)
    requires 3.0 < jumpSize < 6.0
    ensures 3 <= Strip(jumpSize) <= 5 && Strip(jumpSize) <= jumpSize.Floor <= Strip(jumpSize) + 1
  {
    StripMeans(jumpSize, 2);
    StripMeans(jumpSize, 5);
    StripMeans(jumpSize, jumpSize.Floor);
    StripMeans(jumpSize, jumpSize.Floor - 2);
  }

  /** Two jump sizes fit in the block: the strips do not overlap. */
  lemma StripsApart(dx: int, jumpSize: real)
    requires 3.0 < jumpSize && 2.0 * jumpSize <= dx as real
    ensures 0 <= Strip(jumpSize) <= Cut(dx, jumpSize) <= dx && Strip(jumpSize) + 1 < dx
  {
    CutStrip(dx, jumpSize);
    StripMeans(jumpSize, Strip(jumpSize) - 1);
    StripMeans(jumpSize, 0);
  }

  // ---------------------------------------------------------------------------
  // setStatics (src/SegmentedMoat.cpp:48-120)

  /** The jump size the source tests, given js + Tolerance. */
  function Tolerant(js: real): real
  {
    js + OM.Tolerance
  }

  /** The exit tests as written: too small below 3, too large from 6 on. */
  predicate AdmittedAsWritten(jumpSize: real)
  {
    !(jumpSize < 3.0) && !(jumpSize >= 6.0)
  }

  /** The jump sizes the segmented moat can handle: strictly between 3 and 6. */
  predicate Accepted(jumpSize: real)
  {
    3.0 < jumpSize < 6.0
  }

  /**
   * The initial left boundary: 2 + i, and more strip primes for larger jump sizes. 1 + i
   * is counted but not seeded, since the parity of the steps cannot reach it.
   */
  function Seeds(jumpSize: real): seq<Gint>
  {
    [Gint(2, 1)] +
    (if jumpSize - 1.0 > 3.0 then [Gint(3, 0), Gint(3, 2)] else []) +
    (if jumpSize - 1.0 > 4.0 then [Gint(4, 1)] else []) +
    (if jumpSize - 1.0 > 5.0 then [Gint(5, 2), Gint(5, 4)] else [])
  }

  /** Every seed lies in the first block's strip and below its lookup height floor(jumpSize). */
  lemma SeedsFit(jumpSize: real)
    requires Accepted(jumpSize)
    ensures forall k :: 0 <= k < |Seeds(jumpSize)| ==>
      0 <= Seeds(jumpSize)[k].a < Strip(jumpSize) && 0 <= Seeds(jumpSize)[k].b < jumpSize.Floor
  {
    StripBounds(jumpSize);
    StripMeans(jumpSize, 2);
    StripMeans(jumpSize, 3);
    StripMeans(jumpSize, 4);
    assert jumpSize - 1.0 > 3.0 ==> Strip(jumpSize) >= 4 && jumpSize.Floor >= 4;
    assert jumpSize - 1.0 > 4.0 ==> Strip(jumpSize) >= 5;
  }

  /**
   * The exit test as written lets the jump size 3 through (the input 2.999 plus the
   * tolerance): its strip has 2 columns, and the seed 2 + i falls outside the lookup the
   * constructor writes it to.
   */
  lemma ThreeAdmitted()
    ensures Tolerant(2.999) == 3.0 && AdmittedAsWritten(Tolerant(2.999)) && !Accepted(Tolerant(2.999))
    ensures Strip(Tolerant(2.999)) == 2 && Seeds(Tolerant(2.999))[0].a >= Strip(Tolerant(2.999))
  {
    StripMeans(3.0, 1);
    StripMeans(3.0, 2);
  }

  /** The two tests differ at 3 alone. */
  lemma AcceptedAlmostAsWritten(jumpSize: real)
    ensures Accepted(jumpSize) <==> AdmittedAsWritten(jumpSize) && jumpSize != 3.0
  {
  }

  /** The block area for a jump size (src/SegmentedMoat.cpp:69-77). */
  function BlockSizeFor(jumpSize: real): (size: nat)
    ensures size >= 1_000_000
  {
    if jumpSize < 4.0 then 1_000_000
    else if jumpSize < 4.1 then 10_000_000
    else if jumpSize < 4.45 then 100_000_000
    else 1_000_000_000
  }

  /** Larger jump sizes get blocks at least as large. */
  lemma BlockSizeMonotone(j1: real, j2: real)
    requires j1 <= j2
    ensures BlockSizeFor(j1) <= BlockSizeFor(j2)
  {
  }

  // ---------------------------------------------------------------------------
  // The block width of getCountMainComponent (src/SegmentedMoat.cpp:333-334)

  /**
   * dx = floor(sqrt(blockSize + x^2 / 4) - x / 2) with exact arithmetic: the positive
   * root of dx (x + dx) = blockSize, rounded down.
   */
  ghost function DxFor(size: nat, x: nat): nat
  {
    SquareNonneg(x);
    IntSqrtGreatest(4 * size + x * x, x);
    (IntSqrt(4 * size + x * x) - x) / 2
  }

  /** dx is the largest width whose block dx (x + dx) has area at most blockSize. */
  lemma {:induction false} DxMeans(size: nat, x: nat)
    ensures var d := DxFor(size, x); d * (x + d) <= size < (d + 1) * (x + d + 1)
  {
    var n := 4 * size + x * x;
    SquareNonneg(x);
    var r := IntSqrt(n);
    IntSqrtGreatest(n, x);
    var d := DxFor(size, x);
    assert 2 * d + x <= r < 2 * d + x + 2;
    SquareLe(2 * d + x, r);
    SquareLe(r + 1, 2 * d + x + 2);
    Expand(d, x);
    Expand(d + 1, x);
  }

  lemma Expand(d: int, x: int)
    ensures (2 * d + x) * (2 * d + x) == 4 * (d * (x + d)) + x * x
  {
    assert (2 * d + x) * (2 * d + x) == 2 * d * (2 * d + x) + x * (2 * d + x);
  }

  lemma SquareLe(s: int, t: int)
    requires 0 <= s <= t
    ensures s * s <= t * t
  {
    MulLe(s, s, t);
    MulLe(t, s, t);
  }

  /** Past x = blockSize no block of width 1 fits. */
  lemma DxVanishes(size: nat, x: nat)
    requires x > size
    ensures DxFor(size, x) == 0
  {
    DxMeans(size, x);
    var d := DxFor(size, x);
    if d > 0 {
      MulLe(d, 1, x + d);
      assert false;
    }
  }

  /** The width dx of getCountMainComponent (src/SegmentedMoat.cpp:333) from an integer square root. */
  method BlockWidth(size: nat, x: nat) returns (dx: nat)
    ensures dx == DxFor(size, x)
    ensures dx * (x + dx) <= size < (dx + 1) * (x + dx + 1)
  {
    SquareNonneg(x);
    IntSqrtGreatest(4 * size + x * x, x);
    var root := Isqrt(4 * size + x * x);
    dx := (root - x) / 2;
    DxMeans(size, x);
  }

  // ---------------------------------------------------------------------------
  // The shift of runSegment (src/SegmentedMoat.cpp:306-311)

  /** A component moved left by the cut. */
  function Shift(component: seq<Gint>, cut: int): (r: seq<Gint>)
    ensures |r| == |component|
  {
    if component == [] then [] else Shift(component[..|component| - 1], cut) + [Add(component[|component| - 1], Gint(-cut, 0))]
  }

  lemma {:induction false} ShiftMeans(component: seq<Gint>, cut: int)
    ensures forall k :: 0 <= k < |component| ==>
      Shift(component, cut)[k] == Gint(component[k].a - cut, component[k].b)
    decreases |component|
  {
    if component != [] {
      ShiftMeans(component[..|component| - 1], cut);
    }
  }

  /** Every component of a boundary moved left by the cut. */
  function Shifted(boundary: seq<seq<Gint>>, cut: int): (r: seq<seq<Gint>>)
    ensures |r| == |boundary|
  {
    if boundary == [] then [] else Shifted(boundary[..|boundary| - 1], cut) + [Shift(boundary[|boundary| - 1], cut)]
  }

  lemma {:induction false} ShiftedMeans(boundary: seq<seq<Gint>>, cut: int)
    ensures forall i :: 0 <= i < |boundary| ==> Shifted(boundary, cut)[i] == Shift(boundary[i], cut)
    decreases |boundary|
  {
    if boundary != [] {
      ShiftedMeans(boundary[..|boundary| - 1], cut);
    }
  }

  /**
   * The right boundary of a block, moved left by the cut, lies in the next block's strip:
   * the points a >= floor(dx - jumpSize + 1) of columns below dx land on 0 <= a <
   * jumpSize - 1.
   */
  lemma ShiftedFits(boundary: seq<seq<Gint>>, dx: nat, dy: nat, jumpSize: real)
    requires forall i, k :: 0 <= i < |boundary| && 0 <= k < |boundary[i]| ==>
      Cut(dx, jumpSize) <= boundary[i][k].a < dx && 0 <= boundary[i][k].b < dy
    ensures forall i, k :: 0 <= i < |boundary| && 0 <= k < |Shifted(boundary, Cut(dx, jumpSize))[i]| ==>
      0 <= Shifted(boundary, Cut(dx, jumpSize))[i][k].a < Strip(jumpSize) &&
      0 <= Shifted(boundary, Cut(dx, jumpSize))[i][k].b < dy
  {
    var cut := Cut(dx, jumpSize);
    CutStrip(dx, jumpSize);
    ShiftedMeans(boundary, cut);
    forall i | 0 <= i < |boundary|
      ensures forall k :: 0 <= k < |Shifted(boundary, cut)[i]| ==>
        0 <= Shifted(boundary, cut)[i][k].a < Strip(jumpSize) && 0 <= Shifted(boundary, cut)[i][k].b < dy
    {
      ShiftMeans(boundary[i], cut);
    }
  }
  /**
   * The shift of runSegment (src/SegmentedMoat.cpp:306-311): every point of every
   * component moved left by the cut, component by component and point by point.
   */
  method ShiftBoundary(boundary: seq<seq<Gint>>, cut: int) returns (r: seq<seq<Gint>>)
    ensures r == Shifted(boundary, cut)
  {
    r := [];
    var i := 0;
    while i < |boundary|
      invariant i <= |boundary| && r == Shifted(boundary[..i], cut)
    {
      var component: seq<Gint> := [];
      var k := 0;
      while k < |boundary[i]|
        invariant k <= |boundary[i]| && component == Shift(boundary[i][..k], cut)
      {
        assert boundary[i][..k + 1][..k] == boundary[i][..k];
        component := component + [Add(boundary[i][k], Gint(-cut, 0))];
        k := k + 1;
      }
      assert boundary[i][..k] == boundary[i];
      assert boundary[..i + 1][..i] == boundary[..i];
      r := r + [component];
      i := i + 1;
    }
    assert boundary[..i] == boundary;
  }


  // ---------------------------------------------------------------------------
  // Helpers of the block methods

  /**
   * The id the constructor leaves in the lookup for g: the last component of the left
   * boundary holding g, and 0 when none does.
   */
  function Owner(left: seq<seq<Gint>>, g: Gint): nat
  {
    if left == [] then 0
    else if g in left[|left| - 1] then |left| - 1
    else Owner(left[..|left| - 1], g)
  }

  lemma {:induction false} OwnerMeans(left: seq<seq<Gint>>, g: Gint)
    requires left != []
    ensures Owner(left, g) < |left|
    ensures (exists i :: 0 <= i < |left| && g in left[i]) ==> g in left[Owner(left, g)]
    ensures forall i :: Owner(left, g) < i < |left| ==> g !in left[i]
    ensures (forall i :: 0 <= i < |left| ==> g !in left[i]) ==> Owner(left, g) == 0
    decreases |left|
  {
    var n := |left| - 1;
    if g !in left[n] && n > 0 {
      OwnerMeans(left[..n], g);
      if exists i :: 0 <= i < |left| && g in left[i] {
        var i :| 0 <= i < |left| && g in left[i];
        assert left[..n][i] == left[i];
      }
    }
  }

  /** The primes of ps of norm at most m, in order. */
  function NormsUpTo(ps: seq<Gint>, m: nat): seq<Gint>
  {
    if ps == [] then []
    else NormsUpTo(ps[..|ps| - 1], m) + (if Norm(ps[|ps| - 1]) <= m then [ps[|ps| - 1]] else [])
  }

  /** The filter keeps exactly the primes of norm at most m, and keeps their order. */
  lemma {:induction false} NormsUpToMeans(ps: seq<Gint>, m: nat)
    ensures forall g :: g in NormsUpTo(ps, m) <==> g in ps && Norm(g) <= m
    ensures Sorted(ps) ==> Sorted(NormsUpTo(ps, m))
    ensures forall k :: 0 <= k < |NormsUpTo(ps, m)| ==> NormsUpTo(ps, m)[k] in ps
    decreases |ps|
  {
    if ps != [] {
      var n := |ps| - 1;
      NormsUpToMeans(ps[..n], m);
      assert ps == ps[..n] + [ps[n]];
      if Sorted(ps) {
        var f := NormsUpTo(ps[..n], m);
        assert Sorted(ps[..n]);
        forall i, j | 0 <= i < j < |NormsUpTo(ps, m)|
          ensures LessEq(NormsUpTo(ps, m)[i], NormsUpTo(ps, m)[j])
        {
          if j >= |f| {
            var a :| 0 <= a < n && ps[a] == f[i];
            assert NormsUpTo(ps, m)[j] == ps[n];
          }
        }
      }
    }
  }

  // ---------------------------------------------------------------------------
  // The static members (src/SegmentedMoat.cpp:36-44)

  /**
   * The precomputed sieving primes: sorted, each swept by the block sieve and of norm 2
   * to the bound, and holding every first-octant Gaussian prime up to the norm bound
   * together with its flip.
   */
  ghost predicate SievingOk(ps: seq<Gint>, bound: nat)
  {
    bound >= 5 && ps != [] && Sorted(ps) &&
    (forall k :: 0 <= k < |ps| ==> BD.DonutSweeps(ps[k]) && 2 <= Norm(ps[k]) <= bound) &&
    (forall r {:trigger Composite(r)} :: InOctant(r) && 2 <= Norm(r) <= bound && !Composite(r) ==> r in ps && (r.b > 0 ==> Flip(r) in ps))
  }

  /**
   * A left boundary between two blocks: one size per component, every point inside the
   * strip and below the previous block's height, and no empty component with a nonzero
   * size.
   */
  ghost predicate BoundaryReady(jumpSize: real, previousdy: nat, left: seq<seq<Gint>>, sizes: seq<nat>)
  {
    1 <= |left| == |sizes| &&
    (forall i, k :: 0 <= i < |left| && 0 <= k < |left[i]| ==>
      0 <= left[i][k].a < Strip(jumpSize) && 0 <= left[i][k].b < previousdy) &&
    (forall i :: 0 <= i < |sizes| && sizes[i] != 0 ==> left[i] != [])
  }

  /** The starting left boundary is ready for the first block. */
  lemma SeedsReady(jumpSize: real)
    requires Accepted(jumpSize)
    ensures BoundaryReady(jumpSize, jumpSize.Floor, [Seeds(jumpSize)], [|Seeds(jumpSize)| + 1])
  {
    SeedsFit(jumpSize);
  }

  class Statics {
    var jumpSize: real
    var previousdy: nat
    var blockSize: nat
    var sievingPrimesNormBound: nat
    var sievingPrimes: seq<Gint>
    var nearestNeighbors: seq<Gint>
    var leftBoundary: seq<seq<Gint>>
    var componentSizes: seq<nat>

    /** The statics before setStatics: zero and empty. */
    ghost predicate Unset()
      reads this
    {
      jumpSize == 0.0 && previousdy == 0 && blockSize == 0 && sievingPrimesNormBound == 0 &&
      sievingPrimes == [] && nearestNeighbors == [] && leftBoundary == [] && componentSizes == []
    }

    /**
     * The statics between two blocks: an accepted jump size and its steps, the sieving
     * primes, and a left boundary with one size per component, inside the strip and
     * below the previous block's height, whose components with a nonzero size are not
     * empty.
     */
    ghost predicate Ready()
      reads this
    {
      Accepted(jumpSize) && nearestNeighbors == OM.Neighbors(jumpSize) &&
      SievingOk(sievingPrimes, sievingPrimesNormBound) &&
      BoundaryReady(jumpSize, previousdy, leftBoundary, componentSizes)
    }

    constructor ()
      ensures Unset()
    {
      jumpSize := 0.0;
      previousdy := 0;
      blockSize := 0;
      sievingPrimesNormBound := 0;
      sievingPrimes := [];
      nearestNeighbors := [];
      leftBoundary := [];
      componentSizes := [];
    }

    /** setSievingPrimes (src/SegmentedMoat.cpp:123-130): the octant donut sieve's primes up to the bound. */
    method SetSievingPrimes()
      requires sievingPrimesNormBound >= 5
      modifies this`sievingPrimes
      ensures SievingOk(sievingPrimes, sievingPrimesNormBound)
    {
      var ps := BD.BlockDonutSieve.DonutPrimes(sievingPrimesNormBound);
      sievingPrimes := ps;
    }

    /**
     * setStatics (src/SegmentedMoat.cpp:48-120): the tolerant jump size, refused unless it
     * lies strictly between 3 and 6 (the source refuses below 3 only); the block size of
     * its range; the sieving primes up to norm 10^4; the jump steps; the height
     * floor(jumpSize); and the one starting component, the seeds, whose size counts 1 + i
     * as well.
     */
    method SetStatics(js: real) returns (ok: bool)
      requires Unset()
      modifies this
      ensures jumpSize == Tolerant(js) && (ok <==> Accepted(jumpSize))
      ensures ok ==> Ready() && blockSize == BlockSizeFor(jumpSize) && sievingPrimesNormBound == 10_000
      ensures ok ==> previousdy == jumpSize.Floor && Strip(jumpSize) <= previousdy
      ensures ok ==> leftBoundary == [Seeds(jumpSize)] && componentSizes == [|leftBoundary[0]| + 1]
    {
      var j := js + OM.Tolerance;
      jumpSize := j;
      if j <= 3.0 || j >= 6.0 {
        return false;
      }
      ok := true;
      blockSize := ChooseBlockSize(j);
      sievingPrimesNormBound := 10_000;
      SetSievingPrimes();
      SetNearestNeighbors();
      StripBounds(j);
      previousdy := j.Floor;
      var component, size := InitialComponent(j);
      SeedsReady(j);
      leftBoundary := leftBoundary + [component];
      componentSizes := componentSizes + [size];
    }

    /**
     * The doubling loop of callSieve (src/SegmentedMoat.cpp:171-178): while the last
     * sieving prime has norm below root, double the norm bound and recompute. The loop
     * ends because there are Gaussian primes of every size; the model bounds it by fuel
     * and reports false when the fuel runs out.
     */
    method GrowSievingPrimes(root: nat, fuel: nat) returns (ok: bool)
      requires SievingOk(sievingPrimes, sievingPrimesNormBound)
      modifies this`sievingPrimesNormBound, this`sievingPrimes
      ensures SievingOk(sievingPrimes, sievingPrimesNormBound) && sievingPrimesNormBound >= old(sievingPrimesNormBound)
      ensures ok <==> Norm(sievingPrimes[|sievingPrimes| - 1]) >= root
    {
      var last := sievingPrimes[|sievingPrimes| - 1];
      var f := fuel;
      while Norm(last) < root
        invariant SievingOk(sievingPrimes, sievingPrimesNormBound) && sievingPrimesNormBound >= old(sievingPrimesNormBound)
        invariant last == sievingPrimes[|sievingPrimes| - 1]
        decreases f
      {
        if f == 0 {
          return false;
        }
        f := f - 1;
        sievingPrimesNormBound := 2 * sievingPrimesNormBound;
        SetSievingPrimes();
        last := sievingPrimes[|sievingPrimes| - 1];
      }
      ok := true;
    }

    /** The jump steps of setStatics (src/SegmentedMoat.cpp:84-93), the same loop as the octant moat's. */
    method SetNearestNeighbors()
      requires nearestNeighbors == []
      modifies this`nearestNeighbors
      ensures nearestNeighbors == OM.Neighbors(jumpSize)
    {
      var steps := OM.AdmittedSteps(jumpSize);
      nearestNeighbors := nearestNeighbors + steps;
    }

    /** The block size of the jump size's range (src/SegmentedMoat.cpp:69-77). */
    static method ChooseBlockSize(jumpSize: real) returns (size: nat)
      ensures size == BlockSizeFor(jumpSize)
    {
      if jumpSize < 4.0 {
        size := 1_000_000;
      } else if jumpSize < 4.1 {
        size := 10_000_000;
      } else if jumpSize < 4.45 {
        size := 100_000_000;
      } else {
        size := 1_000_000_000;
      }
    }

    /**
     * The starting component (src/SegmentedMoat.cpp:100-119): 2 + i and the strip primes
     * the jump size adds, with a size one larger for 1 + i, which is counted but not
     * seeded.
     */
    static method InitialComponent(jumpSize: real) returns (component: seq<Gint>, size: nat)
      ensures component == Seeds(jumpSize) && size == |component| + 1
    {
      component := [Gint(2, 1)];
      size := 2;
      if jumpSize - 1.0 > 3.0 {
        component := component + [Gint(3, 0), Gint(3, 2)];
        size := size + 2;
      }
      if jumpSize - 1.0 > 4.0 {
        component := component + [Gint(4, 1)];
        size := size + 1;
      }
      if jumpSize - 1.0 > 5.0 {
        component := component + [Gint(5, 2), Gint(5, 4)];
        size := size + 2;
      }
    }
  }

  /** The filter of callSieve (src/SegmentedMoat.cpp:180-185): the sieving primes of norm at most m. */
  method FilterByNorm(ps: seq<Gint>, m: nat) returns (small: seq<Gint>)
    ensures small == NormsUpTo(ps, m)
  {
    small := [];
    var k := 0;
    while k < |ps|
      invariant 0 <= k <= |ps| && small == NormsUpTo(ps[..k], m)
    {
      assert ps[..k + 1][..k] == ps[..k];
      if Norm(ps[k]) <= m {
        small := small + [ps[k]];
      }
      k := k + 1;
    }
    assert ps[..|ps|] == ps;
  }

  /**
   * Once the last sieving prime has norm at least isqrt(m), the sieving primes of norm at
   * most m hold every first-octant Gaussian prime of norm up to isqrt(m), and its flip:
   * the primes a block sieve with largest norm m needs.
   */
  lemma EnoughPrimes(ps: seq<Gint>, bound: nat, m: nat)
    requires SievingOk(ps, bound) && Norm(ps[|ps| - 1]) >= IntSqrt(m)
    ensures forall r :: InOctant(r) && 2 <= Norm(r) <= IntSqrt(m) && !Composite(r) ==>
      r in NormsUpTo(ps, m) && (r.b > 0 ==> Flip(r) in NormsUpTo(ps, m))
  {
    NormsUpToMeans(ps, m);
    var root := IntSqrt(m);
    if root >= 1 {
      MulLe(root, 1, root);
    }
    assert Norm(ps[|ps| - 1]) <= bound;
    forall r | InOctant(r) && 2 <= Norm(r) <= root && !Composite(r)
      ensures r in NormsUpTo(ps, m) && (r.b > 0 ==> Flip(r) in NormsUpTo(ps, m))
    {
      assert r in ps && (r.b > 0 ==> Flip(r) in ps);
      assert Norm(Flip(r)) == Norm(r);
    }
  }

  /** The id of the last component holding g, one component more. */
  lemma OwnerSnoc(left: seq<seq<Gint>>, comp: seq<Gint>, g: Gint)
    ensures Owner(left + [comp], g) == if g in comp then |left| else Owner(left, g)
  {
    assert (left + [comp])[..|left|] == left;
  }

  /** The inner lookup loop of the constructor (src/SegmentedMoat.cpp:158-160): each point of comp gets the id |prefix|. */
  method LabelComponent(lookup: seq<seq<nat>>, prefix: seq<seq<Gint>>, comp: seq<Gint>, width: nat, height: nat)
    returns (r: seq<seq<nat>>)
    requires |lookup| == width && forall a :: 0 <= a < width ==> |lookup[a]| == height
    requires forall k :: 0 <= k < |comp| ==> 0 <= comp[k].a < width && 0 <= comp[k].b < height
    requires forall a, b :: 0 <= a < width && 0 <= b < height ==> lookup[a][b] == Owner(prefix, Gint(a, b))
    ensures |r| == width && forall a :: 0 <= a < width ==> |r[a]| == height
    ensures forall a, b :: 0 <= a < width && 0 <= b < height ==> r[a][b] == Owner(prefix + [comp], Gint(a, b))
  {
    r := lookup;
    var k := 0;
    forall a, b | 0 <= a < width && 0 <= b < height
      ensures r[a][b] == Owner(prefix + [comp[..0]], Gint(a, b))
    {
      OwnerSnoc(prefix, comp[..0], Gint(a, b));
    }
    while k < |comp|
      invariant 0 <= k <= |comp|
      invariant |r| == width && forall a :: 0 <= a < width ==> |r[a]| == height
      invariant forall a, b :: 0 <= a < width && 0 <= b < height ==> r[a][b] == Owner(prefix + [comp[..k]], Gint(a, b))
    {
      var g := comp[k];
      var column: seq<nat> := r[g.a][g.b := |prefix|];
      r := r[g.a := column];
      forall a, b | 0 <= a < width && 0 <= b < height
        ensures r[a][b] == Owner(prefix + [comp[..k + 1]], Gint(a, b))
      {
        OwnerSnoc(prefix, comp[..k + 1], Gint(a, b));
        OwnerSnoc(prefix, comp[..k], Gint(a, b));
        assert comp[..k + 1] == comp[..k] + [g];
      }
      k := k + 1;
    }
    assert comp[..k] == comp;
  }

  /**
   * The lookup loops of the constructor (src/SegmentedMoat.cpp:153-161): width columns of
   * height zeros, then each point of component index labelled index.
   */
  method BuildLookUp(left: seq<seq<Gint>>, width: nat, height: nat) returns (lookup: seq<seq<nat>>)
    requires forall i, k :: 0 <= i < |left| && 0 <= k < |left[i]| ==> 0 <= left[i][k].a < width && 0 <= left[i][k].b < height
    ensures |lookup| == width && forall a :: 0 <= a < width ==> |lookup[a]| == height
    ensures forall a, b :: 0 <= a < width && 0 <= b < height ==> lookup[a][b] == Owner(left, Gint(a, b))
    ensures left != [] ==> forall a, b :: 0 <= a < width && 0 <= b < height ==> lookup[a][b] < |left|
  {
    lookup := [];
    while |lookup| < width
      invariant |lookup| <= width && forall a :: 0 <= a < |lookup| ==> lookup[a] == seq(height, _ => 0)
    {
      lookup := lookup + [seq(height, _ => 0)];
    }
    var index: nat := 0;
    while index < |left|
      invariant 0 <= index <= |left|
      invariant |lookup| == width && forall a :: 0 <= a < width ==> |lookup[a]| == height
      invariant forall a, b :: 0 <= a < width && 0 <= b < height ==> lookup[a][b] == Owner(left[..index], Gint(a, b))
    {
      lookup := LabelComponent(lookup, left[..index], left[index], width, height);
      assert left[..index] + [left[index]] == left[..index + 1];
      index := index + 1;
    }
    assert left[..|left|] == left;
    if left != [] {
      forall a, b | 0 <= a < width && 0 <= b < height
        ensures lookup[a][b] < |left|
      {
        OwnerMeans(left, Gint(a, b));
      }
    }
  }

  // ---------------------------------------------------------------------------
  // What a block keeps true

  /**
   * The statics fit a block of width dx: an accepted jump size whose two strips fit side
   * by side in dx, with strip width L and right boundary column R, its steps and the
   * sieving primes.
   */
  ghost predicate GeometryOk(jumpSize: real, nn: seq<Gint>, primes: seq<Gint>, bound: nat, L: nat, R: nat, dx: nat)
  {
    Accepted(jumpSize) && 2.0 * jumpSize <= dx as real &&
    L == Strip(jumpSize) && R == Cut(dx, jumpSize) &&
    nn == OM.Neighbors(jumpSize) && SievingOk(primes, bound)
  }
}
