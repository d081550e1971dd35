/**
 * The two phases of a block (src/SegmentedMoat.cpp:254-298) on snapshots: what the loop
 * over the left boundary and the loop over the right strip keep true from one exploration
 * to the next, the clean-up of the ids that did not propagate, and the lowest free id.
 */
module SegmentedPhases {
  import opened GaussianInt
  import opened SieveGrid
  import OM = OctantMoat
  import opened SegmentedExplore

  // ---------------------------------------------------------------------------
  // exploreLeftBoundary: one exploration per nonempty left component, in increasing order

  predicate Increasing(s: seq<nat>)
  {
    forall i, j :: 0 <= i < j < |s| ==> s[i] < s[j]
  }

  /** Every left component with a nonzero size has points. */
  ghost predicate Backed(left: seq<seq<Gint>>, sizes: seq<nat>)
  {
    forall i :: 0 <= i < |left| && i < |sizes| && sizes[i] != 0 ==> left[i] != []
  }

  /**
   * The loop over the left boundary after the ids below index, from m0 to m: the sizes
   * plus the true cells right of the strip are conserved; order lists the ids explored
   * from, increasing; every id below index that was not explored from has size 0; the
   * points of the explored components are visited, and no jump step from a visited point
   * leads to a cell an exploration could still enter.
   */
  ghost predicate LeftSoFar(c: Ctx, m0: Snapshot, m: Snapshot, index: nat, order: seq<nat>, visited: seq<Gint>)
  {
    Sum(m.sizes) + |Out(c.L, m.grid)| == Sum(m0.sizes) + |Out(c.L, m0.grid)| &&
    |m.sizes| == |m0.sizes| && index <= |c.left| &&
    Increasing(order) && (forall k :: 0 <= k < |order| ==> order[k] < index) &&
    (forall i :: 0 <= i < index && i < |m.sizes| && i !in order ==> m.sizes[i] == 0) &&
    (forall k, j :: 0 <= k < |order| && 0 <= j < |c.left[order[k]]| ==> c.left[order[k]][j] in visited) &&
    Closed(c, m.grid, visited)
  }

  /** Closure does not depend on the starting id, and survives marking more cells visited. */
  lemma ClosedJoin(c: Ctx, start: nat, g0: seq<seq<bool>>, g1: seq<seq<bool>>, visited: seq<Gint>, v: seq<Gint>)
    ensures (Closed(c, g0, visited) && Closed(c.(start := start), g1, v) && OM.SetCells(g1) <= OM.SetCells(g0)) ==>
      Closed(c, g1, visited + v)
  {
    if Closed(c, g0, visited) && Closed(c.(start := start), g1, v) && OM.SetCells(g1) <= OM.SetCells(g0) {
      ClosedShrinks(c, g0, g1, visited);
      var w := visited + v;
      forall i | 0 <= i < |w|
        ensures !IsSet(g1, w[i])
      {
        if i >= |visited| {
          assert w[i] == v[i - |visited|];
        }
      }
      forall i, k | 0 <= i < |w| && 0 <= k < |c.nn|
        ensures !Open(c, g1, Add(w[i], c.nn[k]))
      {
        if i >= |visited| {
          assert w[i] == v[i - |visited|];
          assert !Open(c.(start := start), g1, Add(v[i - |visited|], c.nn[k]));
        }
      }
    }
  }

  /**
   * An exploration from the nonempty left component index conserves the sizes plus the
   * true cells right of the strip, since the items lie in the strip and were counted
   * before; it leaves the ids it did not start from at their sizes or zero.
   */
  lemma LeftAdvance(c: Ctx, previousdy: nat, m0: Snapshot, m: Snapshot, r: Snapshot, index: nat,
                    order: seq<nat>, visited: seq<Gint>, v: seq<Gint>)
    ensures (Frame(c, previousdy) && LeftSoFar(c, m0, m, index, order, visited) && index < |c.left| &&
             Explored(c.(start := index), m, r, true, v)) ==>
      LeftSoFar(c, m0, r, index + 1, order + [index], visited + v)
  {
    var cs := c.(start := index);
    if Frame(c, previousdy) && LeftSoFar(c, m0, m, index, order, visited) && index < |c.left| &&
       Explored(cs, m, r, true, v) {
      var items := c.left[index];
      assert StartItems(cs, m, true) == items;
      StripItems(c.L, m.grid, items);
      ClosedJoin(c, index, m.grid, r.grid, visited, v);
      var o := order + [index];
      forall k, j | 0 <= k < |o| && 0 <= j < |c.left[o[k]]|
        ensures c.left[o[k]][j] in visited + v
      {
        if k == |order| {
          assert items[j] in v;
        } else {
          assert o[k] == order[k];
        }
      }
      forall i | 0 <= i < index + 1 && i < |r.sizes| && i !in o
        ensures r.sizes[i] == 0
      {
        assert i !in order && i != index;
      }
    }
  }

  /** Exploring from a nonempty left component keeps every nonzero left size backed by points. */
  lemma LeftBacked(c: Ctx, index: nat, m: Snapshot, r: Snapshot, v: seq<Gint>)
    ensures (Backed(c.left, m.sizes) && index < |c.left| && c.left[index] != [] &&
             Explored(c.(start := index), m, r, true, v)) ==> Backed(c.left, r.sizes)
  {
  }

  /** What the loop over the left boundary keeps true. */
  ghost predicate LeftLoop(c: Ctx, previousdy: nat, m0: Snapshot, m: Snapshot, index: nat, order: seq<nat>, visited: seq<Gint>)
  {
    AtRest(c, previousdy, m) && LeftOnly(c.left, m.lookup) && Backed(c.left, m.sizes) &&
    LeftSoFar(c, m0, m, index, order, visited)
  }

  /** Mid-loop, the next left id with a nonzero size can start an exploration. */
  lemma LeftReady(c: Ctx, previousdy: nat, m0: Snapshot, m: Snapshot, index: nat, order: seq<nat>, visited: seq<Gint>)
    ensures (Frame(c, previousdy) && LeftLoop(c, previousdy, m0, m, index, order, visited) && index < |c.left|) ==>
      index < |m.sizes| && (m.sizes[index] != 0 ==> CanStep(c.(start := index), m, true))
  {
    if Frame(c, previousdy) && LeftLoop(c, previousdy, m0, m, index, order, visited) && index < |c.left| {
      RestReady(c, index, previousdy, m, true);
    }
  }

  /** An exploration from the next left id keeps the loop's invariant. */
  lemma LeftExplored(c: Ctx, previousdy: nat, m0: Snapshot, m: Snapshot, r: Snapshot, index: nat,
                     order: seq<nat>, visited: seq<Gint>, v: seq<Gint>)
    ensures (Frame(c, previousdy) && LeftLoop(c, previousdy, m0, m, index, order, visited) && index < |c.left| &&
             index < |m.sizes| && m.sizes[index] != 0 && Explored(c.(start := index), m, r, true, v)) ==>
      LeftLoop(c, previousdy, m0, r, index + 1, order + [index], visited + v)
  {
    if Frame(c, previousdy) && LeftLoop(c, previousdy, m0, m, index, order, visited) && index < |c.left| &&
       index < |m.sizes| && m.sizes[index] != 0 && Explored(c.(start := index), m, r, true, v) {
      StepRests(c, index, previousdy, m, r, true, v);
      LeftAdvance(c, previousdy, m0, m, r, index, order, visited, v);
      LeftBacked(c, index, m, r, v);
    }
  }

  /** Skipping a left id whose size is 0 keeps the loop's invariant. */
  lemma LeftSkipped(c: Ctx, previousdy: nat, m0: Snapshot, m: Snapshot, index: nat, order: seq<nat>, visited: seq<Gint>)
    ensures (LeftLoop(c, previousdy, m0, m, index, order, visited) && index < |c.left| &&
             index < |m.sizes| && m.sizes[index] == 0) ==>
      LeftLoop(c, previousdy, m0, m, index + 1, order, visited)
  {
  }

  /**
   * One turn of the loop over the left boundary (src/SegmentedMoat.cpp:256-260): explore
   * from the left id index if its size is nonzero, else skip it.
   */
  method LeftTurn(c: Ctx, previousdy: nat, ghost m0: Snapshot, m: Snapshot, index: nat, ghost order: seq<nat>, ghost visited: seq<Gint>)
    returns (r: Snapshot, ghost order1: seq<nat>, ghost visited1: seq<Gint>)
    requires Frame(c, previousdy) && LeftLoop(c, previousdy, m0, m, index, order, visited) && index < |c.left|
    ensures LeftLoop(c, previousdy, m0, r, index + 1, order1, visited1)
  {
    LeftReady(c, previousdy, m0, m, index, order, visited);
    if m.sizes[index] != 0 {
      ghost var v;
      r, v := Step(c.(start := index), m, true);
      LeftExplored(c, previousdy, m0, m, r, index, order, visited, v);
      order1, visited1 := order + [index], visited + v;
    } else {
      LeftSkipped(c, previousdy, m0, m, index, order, visited);
      r, order1, visited1 := m, order, visited;
    }
  }

  /**
   * The first loop of exploreLeftBoundary on a snapshot: explore from every left id whose
   * size is nonzero when its turn comes, in increasing order. The block stays at rest, the
   * lookup keeps naming left components, and the loop ends in LeftSoFar over all left ids.
   */
  method ExploreLeftComponents(c: Ctx, previousdy: nat, m0: Snapshot) returns (m: Snapshot, ghost order: seq<nat>, ghost visited: seq<Gint>)
    requires Frame(c, previousdy) && AtRest(c, previousdy, m0) && LeftOnly(c.left, m0.lookup) && Backed(c.left, m0.sizes)
    ensures LeftLoop(c, previousdy, m0, m, |c.left|, order, visited)
  {
    m, order, visited := m0, [], [];
    var index := 0;
    while index < |c.left|
      invariant index <= |c.left| && LeftLoop(c, previousdy, m0, m, index, order, visited)
    {
      m, order, visited := LeftTurn(c, previousdy, m0, m, index, order, visited);
      index := index + 1;
    }
  }

  // ---------------------------------------------------------------------------
  // The clean-up of exploreLeftBoundary

  /** The sizes with the ids 1 <= i < upto that did not propagate zeroed. */
  function Dropped(sizes: seq<nat>, props: seq<bool>, upto: nat): (r: seq<nat>)
    requires |props| == |sizes|
    ensures |r| == |sizes|
  {
    seq(|sizes|, i requires 0 <= i < |sizes| => if 1 <= i < upto && !props[i] then 0 else sizes[i])
  }

  /** A sum is no larger than another taken term by term over larger terms. */
  lemma {:induction false} SumLe(s: seq<nat>, t: seq<nat>)
    requires |s| == |t| && forall i :: 0 <= i < |s| ==> s[i] <= t[i]
    ensures Sum(s) <= Sum(t)
    decreases |s|
  {
    if s != [] {
      var n := |s| - 1;
      SumLe(s[..n], t[..n]);
    }
  }

  /**
   * After the clean-up, id 0 and every propagated id keep their size, every other id has
   * size 0, and the sizes add up to no more than before.
   */
  lemma DroppedMeans(sizes: seq<nat>, props: seq<bool>)
    requires |props| == |sizes|
    ensures var r := Dropped(sizes, props, |sizes|);
      (|sizes| > 0 ==> r[0] == sizes[0]) &&
      (forall i :: 0 <= i < |r| && props[i] ==> r[i] == sizes[i]) &&
      (forall i :: 1 <= i < |r| && !props[i] ==> r[i] == 0) &&
      Sum(r) <= Sum(sizes)
  {
    SumLe(Dropped(sizes, props, |sizes|), sizes);
  }

  /**
   * The clean-up loop of exploreLeftBoundary (src/SegmentedMoat.cpp:263-267) over the
   * sizes: every id from 1 on that did not propagate gets size 0.
   */
  method DropUnpropagated(sizes: seq<nat>, props: seq<bool>) returns (r: seq<nat>)
    requires |props| == |sizes|
    ensures r == Dropped(sizes, props, |sizes|)
  {
    r := sizes;
    var index := 1;
    while index < |r|
      invariant |r| == |sizes| && 1 <= index
      invariant r == Dropped(sizes, props, index)
    {
      if !props[index] {
        r := r[index := 0];
      }
      index := index + 1;
    }
  }

  /** The clean-up keeps a block at rest, and every nonzero left size backed by points. */
  lemma DroppedRests(c: Ctx, previousdy: nat, m: Snapshot)
    ensures (AtRest(c, previousdy, m) && Backed(c.left, m.sizes)) ==>
      |m.props| == |m.sizes| &&
      AtRest(c, previousdy, m.(sizes := Dropped(m.sizes, m.props, |m.sizes|))) &&
      Backed(c.left, Dropped(m.sizes, m.props, |m.sizes|))
  {
  }

  /**
   * When id 0 has propagated, every size left after the clean-up belongs to a propagated
   * id, whose right boundary is not empty.
   */
  lemma DroppedBacked(c: Ctx, previousdy: nat, m: Snapshot)
    ensures (AtRest(c, previousdy, m) && 1 <= |m.props| && m.props[0]) ==>
      RightBacked(Dropped(m.sizes, m.props, |m.sizes|), m.rights)
  {
    if AtRest(c, previousdy, m) && 1 <= |m.props| && m.props[0] {
      var r := Dropped(m.sizes, m.props, |m.sizes|);
      forall i | 0 <= i < |r| && i < |m.rights| && r[i] != 0
        ensures m.rights[i] != []
      {
        assert m.props[i];
      }
    }
  }

  /**
   * exploreLeftBoundary (src/SegmentedMoat.cpp:254-268) on a snapshot: the explorations
   * from the left ids leave mid, and the clean-up of mid's sizes leaves r, still at rest.
   */
  method LeftPhase(c: Ctx, previousdy: nat, m0: Snapshot) returns (r: Snapshot, ghost mid: Snapshot, ghost order: seq<nat>, ghost visited: seq<Gint>)
    requires Frame(c, previousdy) && AtRest(c, previousdy, m0) && LeftOnly(c.left, m0.lookup) && Backed(c.left, m0.sizes)
    ensures LeftLoop(c, previousdy, m0, mid, |c.left|, order, visited)
    ensures |mid.props| == |mid.sizes| && r == mid.(sizes := Dropped(mid.sizes, mid.props, |mid.sizes|))
    ensures AtRest(c, previousdy, r) && LeftOnly(c.left, r.lookup) && Backed(c.left, r.sizes)
  {
    var m;
    m, order, visited := ExploreLeftComponents(c, previousdy, m0);
    mid := m;
    DroppedRests(c, previousdy, m);
    var sizes := DropUnpropagated(m.sizes, m.props);
    r := m.(sizes := sizes);
  }

  // ---------------------------------------------------------------------------
  // exploreRightBoundary: one exploration per unvisited octant prime of the right strip

  /**
   * The id exploreRightBoundary gives a new component (src/SegmentedMoat.cpp:277-292):
   * the lowest id i >= 1 with size 0, or the next id |sizes| when none is free.
   */
  method FreeSlot(sizes: seq<nat>) returns (index: nat)
    requires |sizes| >= 1
    ensures 1 <= index <= |sizes|
    ensures index < |sizes| ==> sizes[index] == 0
    ensures forall i :: 1 <= i < index ==> sizes[i] != 0
  {
    index := 1;
    while index < |sizes|
      invariant 1 <= index <= |sizes|
      invariant forall i :: 1 <= i < index ==> sizes[i] != 0
    {
      if sizes[index] == 0 {
        return;
      }
      index := index + 1;
    }
  }

  /** Every id with a nonzero size has a nonempty right boundary. */
  ghost predicate RightBacked(sizes: seq<nat>, rights: seq<seq<Gint>>)
  {
    forall i :: 0 <= i < |sizes| && i < |rights| && sizes[i] != 0 ==> rights[i] != []
  }

  /**
   * The tables once p is given the id index: a new id (size 0, propagated, empty right
   * boundary) is appended when index is the next id, and p is pushed on the right
   * boundary of index.
   */
  function Claim(m: Snapshot, index: nat, p: Gint): (r: Snapshot)
    requires index <= |m.sizes| == |m.rights| == |m.props|
    ensures |r.sizes| == |r.rights| == |r.props| && index < |r.rights|
  {
    if index == |m.sizes| then Snapshot(m.grid, m.lookup, m.sizes + [0], m.rights + [[p]], m.props + [true])
    else m.(rights := m.rights[index := m.rights[index] + [p]])
  }

  /**
   * Claiming a cell of the right strip keeps the block at rest, every size backed by a
   * right boundary, and the right boundary and flag of id 0 (claims use ids from 1).
   */
  lemma ClaimRests(c: Ctx, previousdy: nat, m: Snapshot, index: nat, p: Gint)
    ensures (AtRest(c, previousdy, m) && 1 <= index <= |m.sizes| && InBlock(c, p) && c.R <= p.a &&
             RightBacked(m.sizes, m.rights)) ==>
      AtRest(c, previousdy, Claim(m, index, p)) && RightBacked(Claim(m, index, p).sizes, Claim(m, index, p).rights) &&
      Claim(m, index, p).rights[0] == m.rights[0] && Claim(m, index, p).props[0] == m.props[0] &&
      Claim(m, index, p).grid == m.grid && p in Claim(m, index, p).rights[index] &&
      |Claim(m, index, p).sizes| >= |m.sizes|
  {
    if AtRest(c, previousdy, m) && 1 <= index <= |m.sizes| && InBlock(c, p) && c.R <= p.a && RightBacked(m.sizes, m.rights) {
      var r := Claim(m, index, p);
      assert RightOk(c, [p]);
      forall i | 0 <= i < |r.rights|
        ensures RightOk(c, r.rights[i])
      {
        if i < |m.rights| {
          assert RightOk(c, m.rights[i]);
        }
      }
      assert Labels(c, Idle(r)) by { assert Labels(c, Idle(m)); }
    }
  }

  /** Cell (a', b') comes before (a, b) in the order the right strip is scanned. */
  predicate Before(a': int, b': int, a: int, b: int)
  {
    a' < a || (a' == a && b' < b)
  }

  /** Every octant cell b < a + x of the right strip before (a, b) is visited. */
  ghost predicate Scanned(c: Ctx, grid: seq<seq<bool>>, a: int, b: int)
  {
    forall a', b' :: c.R <= a' < c.dx && 0 <= b' < c.dy && b' < a' + c.x && Before(a', b', a, b) ==>
      !IsSet(grid, Gint(a', b'))
  }

  /** Scanned cells stay visited, and visiting (a, b) extends the scan by one cell. */
  lemma ScannedStep(c: Ctx, g0: seq<seq<bool>>, g1: seq<seq<bool>>, a: int, b: int, v: seq<Gint>)
    requires Scanned(c, g0, a, b) && OM.SetCells(g1) <= OM.SetCells(g0)
    requires (forall i :: 0 <= i < |v| ==> !IsSet(g1, v[i])) && Gint(a, b) in v
    ensures Scanned(c, g1, a, b + 1)
  {
    forall a', b' | c.R <= a' < c.dx && 0 <= b' < c.dy && b' < a' + c.x && Before(a', b', a, b + 1)
      ensures !IsSet(g1, Gint(a', b'))
    {
      if Before(a', b', a, b) {
        OM.SetCellsMeans(g0, Gint(a', b'));
        OM.SetCellsMeans(g1, Gint(a', b'));
      }
    }
  }

  /**
   * The loop over the right strip before cell (a, b), from m0 to m: every octant cell
   * b < a + x scanned so far is visited, the right boundary and flag of id 0 are as they
   * were, no id is dropped, and every size is backed by a right boundary.
   */
  ghost predicate RightSoFar(c: Ctx, m0: Snapshot, m: Snapshot, a: int, b: int)
  {
    Scanned(c, m.grid, a, b) &&
    |m.sizes| >= |m0.sizes| && 1 <= |m0.rights| <= |m.rights| && 1 <= |m0.props| <= |m.props| &&
    m.rights[0] == m0.rights[0] && m.props[0] == m0.props[0] &&
    RightBacked(m.sizes, m.rights)
  }

  /** A scanned cell that is not an unvisited octant cell needs no exploration. */
  lemma RightSkip(c: Ctx, m0: Snapshot, m: Snapshot, a: int, b: int)
    ensures (RightSoFar(c, m0, m, a, b) && !(IsSet(m.grid, Gint(a, b)) && b < a + c.x)) ==> RightSoFar(c, m0, m, a, b + 1)
  {
  }

  /** The scan moves on to the next column. */
  lemma RightNext(c: Ctx, m0: Snapshot, m: Snapshot, a: int)
    ensures RightSoFar(c, m0, m, a, c.dy) ==> RightSoFar(c, m0, m, a + 1, 0)
  {
  }

  /** Claiming cell (a, b) keeps what the scan has established. */
  lemma RightClaimed(c: Ctx, previousdy: nat, m0: Snapshot, m: Snapshot, index: nat, a: nat, b: nat)
    ensures (RightSoFar(c, m0, m, a, b) && AtRest(c, previousdy, m) && 1 <= index <= |m.sizes| &&
             c.R <= a < c.dx && b < c.dy && RightBacked(m.sizes, m.rights)) ==>
      RightSoFar(c, m0, Claim(m, index, Gint(a, b)), a, b)
  {
    if RightSoFar(c, m0, m, a, b) && AtRest(c, previousdy, m) && 1 <= index <= |m.sizes| &&
       c.R <= a < c.dx && b < c.dy && RightBacked(m.sizes, m.rights) {
      ClaimRests(c, previousdy, m, index, Gint(a, b));
    }
  }

  /**
   * An exploration from the id claimed for cell (a, b) visits the cell, keeps the right
   * boundary and flag of id 0, and backs the size of its id with a right boundary.
   */
  lemma RightAdvance(c: Ctx, m0: Snapshot, m: Snapshot, r: Snapshot, index: nat, a: nat, b: nat, v: seq<Gint>)
    ensures (RightSoFar(c, m0, m, a, b) && 1 <= index < |m.rights| && Gint(a, b) in m.rights[index] &&
             RightOk(c, m.rights[index]) && Explored(c.(start := index), m, r, false, v)) ==>
      RightSoFar(c, m0, r, a, b + 1)
  {
    var cs := c.(start := index);
    var p := Gint(a, b);
    if RightSoFar(c, m0, m, a, b) && 1 <= index < |m.rights| && p in m.rights[index] &&
       RightOk(c, m.rights[index]) && Explored(cs, m, r, false, v) {
      var items := m.rights[index];
      assert StartItems(cs, m, false) == items;
      var k :| 0 <= k < |items| && items[k] == p;
      assert items[k] in v;
      ScannedStep(c, m.grid, r.grid, a, b, v);
      assert RightOk(cs, items);
      assert items[k] in r.rights[index];
    }
  }

  /** What the loop over the right strip keeps true before cell (a, b). */
  ghost predicate RightLoop(c: Ctx, previousdy: nat, m0: Snapshot, m: Snapshot, a: int, b: int)
  {
    AtRest(c, previousdy, m) && RightSoFar(c, m0, m, a, b)
  }

  /** Once the cell (a, b) is claimed with a free id, an exploration can start from that id. */
  lemma RightReady(c: Ctx, previousdy: nat, m0: Snapshot, m: Snapshot, index: nat, a: nat, b: nat)
    ensures (Frame(c, previousdy) && RightLoop(c, previousdy, m0, m, a, b) && 1 <= index <= |m.sizes| &&
             c.R <= a < c.dx && b < c.dy) ==>
      RightLoop(c, previousdy, m0, Claim(m, index, Gint(a, b)), a, b) &&
      Gint(a, b) in Claim(m, index, Gint(a, b)).rights[index] &&
      RightOk(c, Claim(m, index, Gint(a, b)).rights[index]) &&
      CanStep(c.(start := index), Claim(m, index, Gint(a, b)), false)
  {
    var p := Gint(a, b);
    if Frame(c, previousdy) && RightLoop(c, previousdy, m0, m, a, b) && 1 <= index <= |m.sizes| &&
       c.R <= a < c.dx && b < c.dy {
      ClaimRests(c, previousdy, m, index, p);
      RightClaimed(c, previousdy, m0, m, index, a, b);
      var r := Claim(m, index, p);
      RestReady(c, index, previousdy, r, false);
    }
  }

  /** The exploration from the claimed id keeps the loop's invariant, one cell further on. */
  lemma RightExplored(c: Ctx, previousdy: nat, m0: Snapshot, m: Snapshot, r: Snapshot, index: nat, a: nat, b: nat, v: seq<Gint>)
    ensures (RightLoop(c, previousdy, m0, m, a, b) && 1 <= index < |m.rights| && Gint(a, b) in m.rights[index] &&
             RightOk(c, m.rights[index]) && Explored(c.(start := index), m, r, false, v)) ==>
      RightLoop(c, previousdy, m0, r, a, b + 1)
  {
    if RightLoop(c, previousdy, m0, m, a, b) && 1 <= index < |m.rights| && Gint(a, b) in m.rights[index] &&
       RightOk(c, m.rights[index]) && Explored(c.(start := index), m, r, false, v) {
      StepRests(c, index, previousdy, m, r, false, v);
      RightAdvance(c, m0, m, r, index, a, b, v);
    }
  }

  /**
   * One cell of exploreRightBoundary (src/SegmentedMoat.cpp:274-295): an unvisited octant
   * prime is given the lowest free id from 1 on (or a new one), pushed on that id's right
   * boundary, and explored from.
   */
  method RightCell(c: Ctx, previousdy: nat, ghost m0: Snapshot, m: Snapshot, a: nat, b: nat) returns (r: Snapshot)
    requires Frame(c, previousdy) && RightLoop(c, previousdy, m0, m, a, b) && c.R <= a < c.dx && b < c.dy
    ensures RightLoop(c, previousdy, m0, r, a, b + 1)
  {
    if m.grid[a][b] && b < a + c.x {
      var index := FreeSlot(m.sizes);
      var claimed := Claim(m, index, Gint(a, b));
      RightReady(c, previousdy, m0, m, index, a, b);
      ghost var v;
      r, v := Step(c.(start := index), claimed, false);
      RightExplored(c, previousdy, m0, claimed, r, index, a, b, v);
    } else {
      RightSkip(c, m0, m, a, b);
      r := m;
    }
  }

  /**
   * exploreRightBoundary (src/SegmentedMoat.cpp:271-298) on a snapshot: scan the columns
   * R <= a < dx of the block bottom to top. The block stays at rest, every octant cell
   * b < a + x of the right strip ends visited, no id is dropped, the right boundary and
   * flag of id 0 are kept, and every nonzero size is backed by a right boundary.
   */
  method RightPhase(c: Ctx, previousdy: nat, m0: Snapshot) returns (m: Snapshot)
    requires Frame(c, previousdy) && AtRest(c, previousdy, m0) && RightBacked(m0.sizes, m0.rights)
    ensures RightLoop(c, previousdy, m0, m, c.dx, 0)
  {
    m := m0;
    var a := c.R;
    while a < c.dx
      invariant c.R <= a <= c.dx && RightLoop(c, previousdy, m0, m, a, 0)
    {
      var b := 0;
      while b < c.dy
        invariant b <= c.dy && RightLoop(c, previousdy, m0, m, a, b)
      {
        m := RightCell(c, previousdy, m0, m, a, b);
        b := b + 1;
      }
      RightNext(c, m0, m, a);
      a := a + 1;
    }
  }
}
