/**
 * The segmented moat (include/Moat.hpp:65-103, src/SegmentedMoat.cpp): the size of
 * the component of the origin in the graph of first-octant Gaussian primes joined by
 * steps of length at most the jump size, found block by block. The static members of
 * the source class (the jump size, the jump steps, the sieving primes, the left
 * boundary and the component sizes) are the fields of a Statics object shared by the
 * blocks; each block is a SegmentedMoat object holding its block sieve, its right
 * boundary, its propagation flags and the id lookup of its left strip.
 */
module SegmentedMoat {
  import opened GaussianInt
  import opened BaseSieve
  import opened SieveGrid
  import BW = BlockWindow
  import Blk = BlockSieve
  import BD = BlockDonutSieve
  import OM = OctantMoat
  import opened SegmentedExplore
  import opened SegmentedStatics
  import opened SegmentedPhases

  // ---------------------------------------------------------------------------
  // One block (include/Moat.hpp:65-103, src/SegmentedMoat.cpp:133-320)

  /**
   * A block [x, x + dx) x [0, dy). The source's SegmentedMoat is a BlockSieve; here it
   * holds its block sieve blk, whose array it explores, and the statics st it shares
   * with the blocks before and after it.
   */
  class SegmentedMoat {
    const st: Statics
    const blk: Blk.BlockSieve
    const x: nat
    const dx: nat
    const dy: nat
    /** The strip width Strip(jumpSize) and the first right-boundary column Cut(dx, jumpSize), fixed with the block. */
    const strip: nat
    const cut: nat
    var rightBoundary: seq<seq<Gint>>
    var hasComponentPropagated: seq<bool>
    var leftComponentLookUp: seq<seq<nat>>

    /** What an exploration from id start reads and does not change. */
    function Context(start: nat): Ctx
      reads st`leftBoundary, st`nearestNeighbors
    {
      Ctx(st.leftBoundary, st.nearestNeighbors, x, dx, dy, strip, cut, start)
    }

    /** The block's state as a snapshot. */
    ghost function Snap(): Snapshot
      reads blk`sieveArray, this`leftComponentLookUp, st`componentSizes, this`rightBoundary, this`hasComponentPropagated
    {
      Snapshot(blk.sieveArray, leftComponentLookUp, st.componentSizes, rightBoundary, hasComponentPropagated)
    }

    /**
     * What no exploration changes: the statics fit the block (GeometryOk, Frame) and the
     * block sieve is the sieve of this block.
     */
    ghost predicate Geometry()
      reads st`jumpSize, st`nearestNeighbors, st`sievingPrimes, st`sievingPrimesNormBound, st`previousdy, st`leftBoundary
    {
      GeometryOk(st.jumpSize, st.nearestNeighbors, st.sievingPrimes, st.sievingPrimesNormBound, strip, cut, dx) &&
      Frame(Context(0), st.previousdy) &&
      blk.x == x && blk.y == 0 && blk.dx == dx && blk.dy == dy && blk.maxNorm == BW.MaxNorm(blk.Win())
    }

    /** The per-id tables and the lookup agree with each other (TablesOk). */
    ghost predicate Tables()
      reads this`rightBoundary, this`hasComponentPropagated, this`leftComponentLookUp
      reads st`componentSizes, st`leftBoundary, st`nearestNeighbors, st`previousdy
    {
      TablesOk(Context(0), st.previousdy, leftComponentLookUp, st.componentSizes, rightBoundary, hasComponentPropagated)
    }

    ghost predicate Valid()
      reads this`rightBoundary, this`hasComponentPropagated, this`leftComponentLookUp
      reads st`jumpSize, st`nearestNeighbors, st`sievingPrimes, st`sievingPrimesNormBound, st`previousdy, st`leftBoundary
      reads st`componentSizes
    {
      Geometry() && Tables()
    }

    /** A valid block whose array is sieved, at rest between explorations (AtRest). */
    ghost predicate Sieved()
      reads this`rightBoundary, this`hasComponentPropagated, this`leftComponentLookUp
      reads st`jumpSize, st`nearestNeighbors, st`sievingPrimes, st`sievingPrimesNormBound, st`previousdy, st`leftBoundary
      reads st`componentSizes, blk`sieveArray
    {
      Geometry() && AtRest(Context(0), st.previousdy, Snap())
    }

    /** Every lookup cell names a left component (so far only left ids have been explored from). */
    ghost predicate LeftLabels()
      reads this`leftComponentLookUp, st`leftBoundary
    {
      LeftOnly(st.leftBoundary, leftComponentLookUp)
    }

    /** Every left component with a nonzero size has points. */
    ghost predicate LeftNonEmpty()
      reads st`leftBoundary, st`componentSizes
    {
      Backed(st.leftBoundary, st.componentSizes)
    }

    /**
     * The state the constructor leaves: each lookup cell holds the id of the last left
     * component holding it, 0 for none; no right boundary and no propagation yet.
     */
    ghost predicate Fresh()
      reads this`leftComponentLookUp, this`rightBoundary, this`hasComponentPropagated, st`leftBoundary
    {
      (forall a, b :: 0 <= a < |leftComponentLookUp| && 0 <= b < |leftComponentLookUp[a]| ==>
        leftComponentLookUp[a][b] == Owner(st.leftBoundary, Gint(a, b))) &&
      (forall i :: 0 <= i < |rightBoundary| ==> rightBoundary[i] == []) &&
      (forall i :: 0 <= i < |hasComponentPropagated| ==> !hasComponentPropagated[i])
    }

    /**
     * The constructor (src/SegmentedMoat.cpp:133-165) past its size check: a block sieve
     * of the block, the lookup of the left strip, one empty right boundary per left
     * component and no id propagated.
     */
    constructor (st: Statics, x: nat, dx: nat, dy: nat)
      requires st.Ready() && 2.0 * st.jumpSize <= dx as real && x + Strip(st.jumpSize) <= st.previousdy <= dy
      ensures this.st == st && this.x == x && this.dx == dx && this.dy == dy
      ensures fresh(blk) && blk.sieveArray == [] && blk.smallPrimes == []
      ensures Valid() && Fresh() && LeftLabels()
    {
      this.st := st;
      this.x := x;
      this.dx := dx;
      this.dy := dy;
      blk := new Blk.BlockSieve(x, 0, dx, dy);
      StripBounds(st.jumpSize);
      StripsApart(dx, st.jumpSize);
      var w := Strip(st.jumpSize) as nat;
      strip := w;
      cut := Cut(dx, st.jumpSize) as nat;
      var lookup := BuildLookUp(st.leftBoundary, w, st.previousdy);
      leftComponentLookUp := lookup;
      rightBoundary := seq(|st.leftBoundary|, _ => []);
      hasComponentPropagated := seq(|st.componentSizes|, _ => false);
    }

    /**
     * The constructor with its size check: no block when the two strips do not fit in dx
     * (the source exits), and otherwise a fresh block.
     */
    static method Create(st: Statics, x: nat, dx: nat, dy: nat) returns (r: Option<SegmentedMoat>)
      requires st.Ready() && x + Strip(st.jumpSize) <= st.previousdy
      requires 2.0 * st.jumpSize <= dx as real ==> st.previousdy <= dy
      ensures r.None? <==> 2.0 * st.jumpSize > dx as real
      ensures r.Some? ==> fresh(r.value) && fresh(r.value.blk) && r.value.st == st
      ensures r.Some? ==> r.value.x == x && r.value.dx == dx && r.value.dy == dy
      ensures r.Some? ==> r.value.Valid() && r.value.Fresh() && r.value.LeftLabels()
      ensures r.Some? ==> r.value.blk.sieveArray == [] && r.value.blk.smallPrimes == []
    {
      if 2.0 * st.jumpSize > dx as real {
        return None;
      }
      var m := new SegmentedMoat(st, x, dx, dy);
      return Some(m);
    }

    /**
     * callSieve (src/SegmentedMoat.cpp:169-189): grow the sieving primes until the last
     * has norm at least isqrt(maxNorm) (false when the fuel runs out), then give the block
     * sieve the sieving primes of norm at most maxNorm and sieve.
     */
    method CallSieve(fuel: nat) returns (ok: bool)
      requires Valid() && LeftLabels() && blk.sieveArray == []
      modifies st`sievingPrimesNormBound, st`sievingPrimes, blk`smallPrimes, blk`sieveArray
      ensures Valid()
      ensures !ok ==> blk.sieveArray == []
      ensures ok ==> Sieved() && blk.smallPrimes == NormsUpTo(st.sievingPrimes, blk.maxNorm)
      ensures ok ==> forall r :: InOctant(r) && 2 <= Norm(r) <= IntSqrt(blk.maxNorm) && !Composite(r) ==>
        r in blk.smallPrimes && (r.b > 0 ==> Flip(r) in blk.smallPrimes)
      ensures ok ==> blk.sieveArray == Blk.SieveWith(blk.Win(), Blk.InitialBlock(blk.Win()), blk.smallPrimes)
      ensures ok ==> forall p :: BW.InWindow(blk.Win(), p) && Norm(p) >= 2 && !Composite(p) ==>
        Blk.On(blk.Win(), blk.sieveArray, p)
    {
      var root := Isqrt(blk.maxNorm);
      ok := st.GrowSievingPrimes(root, fuel);
      if ok {
        SieveBlock();
      }
    }

    /** The rest of callSieve (src/SegmentedMoat.cpp:180-188): filter the sieving primes by maxNorm and sieve the block. */
    method SieveBlock()
      requires Valid() && LeftLabels() && blk.sieveArray == []
      requires Norm(st.sievingPrimes[|st.sievingPrimes| - 1]) >= IntSqrt(blk.maxNorm)
      modifies blk`smallPrimes, blk`sieveArray
      ensures Sieved() && blk.smallPrimes == NormsUpTo(st.sievingPrimes, blk.maxNorm)
      ensures forall r :: InOctant(r) && 2 <= Norm(r) <= IntSqrt(blk.maxNorm) && !Composite(r) ==>
        r in blk.smallPrimes && (r.b > 0 ==> Flip(r) in blk.smallPrimes)
      ensures blk.sieveArray == Blk.SieveWith(blk.Win(), Blk.InitialBlock(blk.Win()), blk.smallPrimes)
      ensures forall p :: BW.InWindow(blk.Win(), p) && Norm(p) >= 2 && !Composite(p) ==>
        Blk.On(blk.Win(), blk.sieveArray, p)
    {
      var small := FilterByNorm(st.sievingPrimes, blk.maxNorm);
      blk.smallPrimes := small;
      NormsUpToMeans(st.sievingPrimes, blk.maxNorm);
      EnoughPrimes(st.sievingPrimes, st.sievingPrimesNormBound, blk.maxNorm);
      StripBounds(st.jumpSize);
      blk.SetSieveArray();
      blk.Sieve();
      Blk.RunKeepsPrimes(blk.Win(), blk.smallPrimes);
      LeftLabelsLabel();
    }

    /** With only left ids in the lookup, no cell is labelled by an id without a left component. */
    lemma LeftLabelsLabel()
      requires Valid() && LeftLabels()
      ensures Labels(Context(0), Idle(Snap()))
    {
    }
  
    /** The items exploreComponent starts from (src/SegmentedMoat.cpp:196-202): the left or the right component of start. */
    ghost function Items(start: nat, fromLeft: bool): seq<Gint>
      reads st`leftBoundary, this`rightBoundary
    {
      if fromLeft then (if start < |st.leftBoundary| then st.leftBoundary[start] else [])
      else (if start < |rightBoundary| then rightBoundary[start] else [])
    }

    /**
     * exploreComponent (src/SegmentedMoat.cpp:194-251) on the block's state: Step on its
     * snapshot, stored back into the fields.
     */
    method ExploreComponent(start: nat, fromLeft: bool) returns (ghost visited: seq<Gint>)
      requires Sieved() && start < |st.componentSizes| && Items(start, fromLeft) != []
      requires fromLeft ==> start < |st.leftBoundary| && LeftLabels()
      modifies this`rightBoundary, this`hasComponentPropagated, this`leftComponentLookUp, st`componentSizes, blk`sieveArray
      ensures Sieved() && (fromLeft ==> LeftLabels())
      ensures Explored(Context(start), old(Snap()), Snap(), fromLeft, visited)
    {
      var c0 := Context(0);
      var c := c0.(start := start);
      var m := Snapshot(blk.sieveArray, leftComponentLookUp, st.componentSizes, rightBoundary, hasComponentPropagated);
      assert m == Snap() && c == Context(start) && StartItems(c, m, fromLeft) == Items(start, fromLeft);
      assert AtRest(c0, st.previousdy, m);
      RestReady(c0, start, st.previousdy, m, fromLeft);
      assert CanStep(c, m, fromLeft);
      var r;
      r, visited := Step(c, m, fromLeft);
      StepRests(c0, start, st.previousdy, m, r, fromLeft, visited);
      assert AtRest(c0, st.previousdy, r);
      Store(r);
      assert Context(start) == c && Snap() == r;
    }

    /**
     * exploreLeftBoundary (src/SegmentedMoat.cpp:254-268): explore from every left id with a
     * nonzero size, in increasing order, then zero the size of every id other than 0 that
     * did not propagate. The state after the first loop is mid.
     */
    method ExploreLeftBoundary() returns (ghost mid: Snapshot, ghost order: seq<nat>, ghost visited: seq<Gint>)
      requires Sieved() && LeftLabels() && LeftNonEmpty()
      modifies this`rightBoundary, this`hasComponentPropagated, this`leftComponentLookUp, st`componentSizes, blk`sieveArray
      ensures Sieved() && LeftLabels() && LeftNonEmpty()
      ensures LeftLoop(Context(0), st.previousdy, old(Snap()), mid, |st.leftBoundary|, order, visited)
      ensures |mid.props| == |mid.sizes| && Snap() == mid.(sizes := Dropped(mid.sizes, mid.props, |mid.sizes|))
    {
      var m := Snapshot(blk.sieveArray, leftComponentLookUp, st.componentSizes, rightBoundary, hasComponentPropagated);
      assert m == Snap();
      var r;
      r, mid, order, visited := LeftPhase(Context(0), st.previousdy, m);
      Store(r);
    }

    /**
     * exploreRightBoundary (src/SegmentedMoat.cpp:271-298): RightPhase on the block's
     * snapshot, stored back into the fields.
     */
    method ExploreRightBoundary()
      requires Sieved() && RightBacked(st.componentSizes, rightBoundary)
      modifies this`rightBoundary, this`hasComponentPropagated, this`leftComponentLookUp, st`componentSizes, blk`sieveArray
      ensures Sieved() && RightLoop(Context(0), st.previousdy, old(Snap()), Snap(), dx, 0)
    {
      var m := Snapshot(blk.sieveArray, leftComponentLookUp, st.componentSizes, rightBoundary, hasComponentPropagated);
      assert m == Snap();
      var r := RightPhase(Context(0), st.previousdy, m);
      Store(r);
    }

    /**
     * runSegment (src/SegmentedMoat.cpp:300-315): the left phase; then, only if id 0 has
     * propagated, the right phase, and the right boundary shifted left by the cut becomes
     * the left boundary of the next block, whose height previousdy is this block's dy. The
     * statics are then ready for the next block. If id 0 has not propagated, the left
     * boundary and previousdy stay as they were.
     */
    method RunSegment() returns (ghost mid: Snapshot, ghost order: seq<nat>, ghost visited: seq<Gint>)
      requires Sieved() && LeftLabels() && LeftNonEmpty()
      modifies this`rightBoundary, this`hasComponentPropagated, this`leftComponentLookUp, st`componentSizes, blk`sieveArray
      modifies st`leftBoundary, st`previousdy
      ensures 1 <= |hasComponentPropagated| && 1 <= |st.componentSizes|
      ensures LeftLoop(old(Context(0)), old(st.previousdy), old(Snap()), mid, old(|st.leftBoundary|), order, visited)
      ensures hasComponentPropagated[0] == mid.props[0]
      ensures !hasComponentPropagated[0] ==>
        st.leftBoundary == old(st.leftBoundary) && st.previousdy == old(st.previousdy) &&
        |mid.props| == |mid.sizes| && Snap() == mid.(sizes := Dropped(mid.sizes, mid.props, |mid.sizes|))
      ensures hasComponentPropagated[0] ==>
        st.leftBoundary == Shifted(rightBoundary, cut) && st.previousdy == dy && st.Ready() &&
        RightSoFar(old(Context(0)), mid.(sizes := Dropped(mid.sizes, mid.props, |mid.sizes|)), Snap(), dx, 0)
    {
      mid, order, visited := ExploreLeftBoundary();
      if hasComponentPropagated[0] {
        DroppedBacked(Context(0), st.previousdy, mid);
        RightAndNext();
      }
    }

    /** The branch of runSegment taken when id 0 has propagated: the right phase, then the shift. */
    method RightAndNext()
      requires Sieved() && RightBacked(st.componentSizes, rightBoundary)
      modifies this`rightBoundary, this`hasComponentPropagated, this`leftComponentLookUp, st`componentSizes, blk`sieveArray
      modifies st`leftBoundary, st`previousdy
      ensures 1 <= |hasComponentPropagated| && 1 <= |st.componentSizes| && hasComponentPropagated[0] == old(hasComponentPropagated[0])
      ensures st.leftBoundary == Shifted(rightBoundary, cut) && st.previousdy == dy && st.Ready()
      ensures RightSoFar(old(Context(0)), old(Snap()), Snap(), dx, 0)
    {
      ExploreRightBoundary();
      NextBlock();
    }

    /**
     * The end of runSegment (src/SegmentedMoat.cpp:305-313): the right boundary shifted
     * left by the cut becomes the left boundary, and dy becomes previousdy, which leaves
     * the statics ready for the next block.
     */
    method NextBlock()
      requires Sieved() && RightBacked(st.componentSizes, rightBoundary)
      modifies st`leftBoundary, st`previousdy
      ensures st.leftBoundary == Shifted(rightBoundary, cut) && st.previousdy == dy && st.Ready()
    {
      NextBoundary(Context(0), st.previousdy, Snap(), st.jumpSize);
      var shifted := ShiftBoundary(rightBoundary, cut);
      st.leftBoundary := shifted;
      st.previousdy := dy;
    }

    /**
     * What getCountMainComponent does with a fresh block (src/SegmentedMoat.cpp:339-341):
     * callSieve, then runSegment; false when the fuel of callSieve runs out.
     */
    method Process(fuel: nat) returns (ok: bool)
      requires Valid() && LeftLabels() && LeftNonEmpty() && blk.sieveArray == []
      modifies st`sievingPrimesNormBound, st`sievingPrimes, blk`smallPrimes, blk`sieveArray
      modifies this`rightBoundary, this`hasComponentPropagated, this`leftComponentLookUp, st`componentSizes
      modifies st`leftBoundary, st`previousdy
      ensures ok ==> 1 <= |hasComponentPropagated| && 1 <= |st.componentSizes|
      ensures ok && hasComponentPropagated[0] ==> st.Ready() && st.previousdy == dy
    {
      ok := CallSieve(fuel);
      if ok {
        ghost var mid, order, visited := RunSegment();
      }
    }

    /** Store a snapshot at rest back into the fields. */
    method Store(r: Snapshot)
      requires Geometry() && AtRest(Context(0), st.previousdy, r)
      modifies this`rightBoundary, this`hasComponentPropagated, this`leftComponentLookUp, st`componentSizes, blk`sieveArray
      ensures Snap() == r && Sieved()
    {
      blk.sieveArray := r.grid;
      leftComponentLookUp := r.lookup;
      st.componentSizes := r.sizes;
      rightBoundary := r.rights;
      hasComponentPropagated := r.props;
    }
}

  /**
   * The right boundary of a block at rest, shifted left by the cut, is a left boundary the
   * next block can start from: one component per id, inside the strip and below dy, and
   * not empty where the size is not 0.
   */
  lemma NextBoundary(c: Ctx, previousdy: nat, m: Snapshot, jumpSize: real)
    requires AtRest(c, previousdy, m) && RightBacked(m.sizes, m.rights) && 1 <= |m.sizes| && c.R == Cut(c.dx, jumpSize)
    ensures BoundaryReady(jumpSize, c.dy, Shifted(m.rights, c.R), m.sizes)
  {
    forall i, k | 0 <= i < |m.rights| && 0 <= k < |m.rights[i]|
      ensures Cut(c.dx, jumpSize) <= m.rights[i][k].a < c.dx && 0 <= m.rights[i][k].b < c.dy
    {
      assert RightOk(c, m.rights[i]);
    }
    ShiftedFits(m.rights, c.dx, c.dy, jumpSize);
    ShiftedMeans(m.rights, c.R);
  }

  /**
   * A block at corner x of width DxFor(size, x) wide enough for its two strips fits above
   * the previous height, and the next corner lies right of x, at most size, with the new
   * height x + dx within the jump size of it.
   */
  lemma NextCorner(size: nat, x: nat, previousdy: nat, jumpSize: real)
    ensures var dx := DxFor(size, x);
      (Accepted(jumpSize) && previousdy as real <= x as real + jumpSize && 2.0 * jumpSize <= dx as real) ==>
        previousdy <= x + dx && x < x + Cut(dx, jumpSize) <= size && x + Cut(dx, jumpSize) + Strip(jumpSize) == x + dx &&
        (x + dx) as real <= (x + Cut(dx, jumpSize)) as real + jumpSize
  {
    var dx := DxFor(size, x);
    if Accepted(jumpSize) && previousdy as real <= x as real + jumpSize && 2.0 * jumpSize <= dx as real {
      StripsApart(dx, jumpSize);
      CutStrip(dx, jumpSize);
      StripBounds(jumpSize);
      DxMeans(size, x);
      WidthFits(size, x, dx);
    }
  }

  /** A block of positive width dx and area dx (x + dx) at most size ends at or before size. */
  lemma WidthFits(size: nat, x: nat, dx: nat)
    requires 1 <= dx && dx * (x + dx) <= size
    ensures x + dx <= size
  {
    MulLe(x + dx, 1, dx);
    assert (x + dx) * dx == dx * (x + dx);
  }

  /** How a block of getCountMainComponent ends. */
  datatype Outcome = Failed | Stopped(block: SegmentedMoat) | Propagated(next: nat)

  /** Where a block at corner x can start: the statics ready, the previous height within the jump size of x. */
  ghost predicate Start(st: Statics, x: nat)
    reads st
  {
    st.Ready() && x + Strip(st.jumpSize) <= st.previousdy && st.previousdy as real <= x as real + st.jumpSize
  }

  /**
   * One pass of the loop of getCountMainComponent (src/SegmentedMoat.cpp:329-344): the
   * block at corner x, of width DxFor(blockSize, x) and height x + dx, made, sieved and
   * run. Failed when the block is too narrow or the fuel runs out; Stopped when id 0 did
   * not propagate; otherwise Propagated with the next corner, x moved right by the cut,
   * from which a block can start.
   */
  method RunBlock(st: Statics, x: nat, fuel: nat) returns (r: Outcome)
    requires Start(st, x)
    modifies st
    ensures st.blockSize == old(st.blockSize) && st.jumpSize == old(st.jumpSize)
    ensures r.Stopped? ==>
      r.block.st == st && r.block.x == x && r.block.dx == DxFor(st.blockSize, x) && r.block.dy == x + r.block.dx &&
      1 <= |r.block.hasComponentPropagated| && !r.block.hasComponentPropagated[0] && 1 <= |st.componentSizes|
    ensures r.Propagated? ==>
      r.next == x + Cut(DxFor(st.blockSize, x), st.jumpSize) && x < r.next <= st.blockSize && Start(st, r.next)
  {
    var dx := BlockWidth(st.blockSize, x);
    var dy := x + dx;
    NextCorner(st.blockSize, x, st.previousdy, st.jumpSize);
    var made := SegmentedMoat.Create(st, x, dx, dy);
    if made.None? {
      return Failed;
    }
    var s := made.value;
    assert s.cut == Cut(dx, st.jumpSize);
    var ok := s.Process(fuel);
    if !ok {
      return Failed;
    }
    if !s.hasComponentPropagated[0] {
      return Stopped(s);
    }
    r := Propagated(x + s.cut);
  }

  /** Each block corner is the previous one moved right by the cut of the previous block's width. */
  ghost predicate Corners(xs: seq<nat>, size: nat, jumpSize: real)
  {
    |xs| >= 1 && xs[0] == 0 &&
    forall k :: 0 <= k < |xs| - 1 ==> xs[k + 1] == xs[k] + Cut(DxFor(size, xs[k]), jumpSize)
  }

  /**
   * getCountMainComponent (src/SegmentedMoat.cpp:324-346): blocks from x = 0, each of
   * width dx = DxFor(blockSize, x) and height dy = x + dx, each sieved and run, the next
   * starting at x + Cut(dx, jumpSize), until a block in which id 0 does not propagate;
   * the count is then the size of id 0. None when a block is too narrow for its two
   * strips (the source exits) or the fuel of the sieving primes runs out. The corners of
   * the blocks are xs, the last block last.
   */
  method CountMainComponent(st: Statics, fuel: nat) returns (count: Option<nat>, ghost xs: seq<nat>, ghost last: Option<SegmentedMoat>)
    requires Start(st, 0)
    modifies st
    ensures st.blockSize == old(st.blockSize) && st.jumpSize == old(st.jumpSize)
    ensures count.Some? ==>
      Corners(xs, st.blockSize, st.jumpSize) && last.Some? && last.value.st == st &&
      last.value.x == xs[|xs| - 1] && last.value.dx == DxFor(st.blockSize, last.value.x) &&
      last.value.dy == last.value.x + last.value.dx &&
      1 <= |last.value.hasComponentPropagated| && !last.value.hasComponentPropagated[0] &&
      1 <= |st.componentSizes| && count.value == st.componentSizes[0]
  {
    ghost var size, js := st.blockSize, st.jumpSize;
    var x := 0;
    xs, last := [0], None;
    while true
      invariant st.blockSize == size && st.jumpSize == js && x <= size
      invariant Start(st, x) && Corners(xs, size, js) && xs[|xs| - 1] == x
      decreases size - x
    {
      var r := RunBlock(st, x, fuel);
      match r {
        case Failed =>
          return None, xs, last;
        case Stopped(s) =>
          last := Some(s);
          count := Some(st.componentSizes[0]);
          return;
        case Propagated(next) =>
          x := next;
          xs := xs + [x];
      }
    }
  }
}
