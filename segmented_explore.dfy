/**
 * The exploration of one component by the segmented moat (exploreComponent,
 * src/SegmentedMoat.cpp:194-251), on values. The first octant is cut into
 * vertical blocks [x, x + dx) x [0, dy) with dy = x + dx. Each block is sieved by a
 * block sieve, and then its components are explored. The explorer counts the primes in
 * the component of the origin that can be reached by steps of length at most the jump
 * size.
 *
 * Two boundaries connect consecutive blocks:
 * - The left boundary is the strip of columns a < jumpSize - 1. Its components were
 *   found in the block before, each under an id, and their sizes are in componentSizes.
 * - The right boundary is the strip of columns a >= floor(dx - jumpSize + 1). It becomes
 *   the next block's left boundary.
 *
 * Id 0 is the component of the origin. When an exploration runs into a point of another
 * left component, it merges that component into its own: it adds that component's size
 * to its count and relabels that component's points.
 */
module SegmentedExplore {
  import opened GaussianInt
  import opened BaseSieve
  import opened SieveGrid
  import OM = OctantMoat

  // ---------------------------------------------------------------------------
  // Counting

  /** The sum of the component sizes. */
  function Sum(s: seq<nat>): nat
  {
    if s == [] then 0 else Sum(s[..|s| - 1]) + s[|s| - 1]
  }

  /** Writing v over s[i] changes the sum by v - s[i]. */
  lemma {:induction false} SumUpdate(s: seq<nat>, i: nat, v: nat)
    requires i < |s|
    ensures Sum(s[i := v]) + s[i] == Sum(s) + v
    decreases |s|
  {
    var n := |s| - 1;
    if i < n {
      assert s[i := v][..n] == s[..n][i := v];
      SumUpdate(s[..n], i, v);
    } else {
      assert s[i := v][..n] == s[..n];
    }
  }

  lemma SumAppend(s: seq<nat>, v: nat)
    ensures Sum(s + [v]) == Sum(s) + v
  {
    assert (s + [v])[..|s|] == s;
  }

  /** The items of s right of the strip, a >= L: the points an exploration counts when it pops them. */
  function Beyond(L: int, s: seq<Gint>): nat
  {
    if s == [] then 0 else Beyond(L, s[..|s| - 1]) + (if s[|s| - 1].a >= L then 1 else 0)
  }

  lemma {:induction false} BeyondAppend(L: int, s: seq<Gint>, t: seq<Gint>)
    ensures Beyond(L, s + t) == Beyond(L, s) + Beyond(L, t)
    decreases |t|
  {
    if t == [] {
      assert s + t == s;
    } else {
      assert (s + t)[..|s + t| - 1] == s + t[..|t| - 1];
      BeyondAppend(L, s, t[..|t| - 1]);
    }
  }

  /** The true cells right of the strip. */
  ghost function Out(L: int, grid: seq<seq<bool>>): set<Gint>
  {
    set a, b | 0 <= a < |grid| && L <= a && 0 <= b < |grid[a]| && grid[a][b] :: Gint(a, b)
  }

  lemma OutMeans(L: int, grid: seq<seq<bool>>, r: Gint)
    ensures r in Out(L, grid) <==> r.a >= L && IsSet(grid, r)
  {
    if r.a >= L && IsSet(grid, r) {
      assert Gint(r.a, r.b) == r;
    }
  }

  /** Clearing a cell removes its point from the true cells right of the strip, if it was one. */
  lemma OutClear(L: int, grid: seq<seq<bool>>, g: Gint)
    requires Cell(grid, g)
    ensures Out(L, OM.Clear(grid, g)) == if g.a >= L then Out(L, grid) - {g} else Out(L, grid)
    ensures |Out(L, OM.Clear(grid, g))| + (if g.a >= L && grid[g.a][g.b] then 1 else 0) == |Out(L, grid)|
  {
    var g1 := OM.Clear(grid, g);
    forall r
      ensures r in Out(L, g1) <==> r in (if g.a >= L then Out(L, grid) - {g} else Out(L, grid))
    {
      OutMeans(L, g1, r);
      OutMeans(L, grid, r);
      OM.ClearCells(grid, g, r);
    }
    if g.a >= L && grid[g.a][g.b] {
      OutMeans(L, grid, g);
    } else if g.a >= L {
      OutMeans(L, grid, g);
    }
  }

  /** Clearing a cell never adds a true cell; it removes one exactly when the cell was true. */
  lemma ClearSubset(grid: seq<seq<bool>>, g: Gint)
    requires Cell(grid, g)
    ensures OM.SetCells(OM.Clear(grid, g)) <= OM.SetCells(grid)
    ensures grid[g.a][g.b] ==> |OM.SetCells(OM.Clear(grid, g))| + 1 == |OM.SetCells(grid)|
    ensures !grid[g.a][g.b] ==> OM.Clear(grid, g) == grid
  {
    forall r | r in OM.SetCells(OM.Clear(grid, g))
      ensures r in OM.SetCells(grid)
    {
      OM.SetCellsMeans(OM.Clear(grid, g), r);
      OM.SetCellsMeans(grid, r);
      OM.ClearCells(grid, g, r);
    }
    if grid[g.a][g.b] {
      OM.ClearShrinks(grid, g);
    } else {
      assert grid[g.a][g.b := false] == grid[g.a];
    }
  }

  // ---------------------------------------------------------------------------
  // The state of one exploration

  /**
   * What an exploration reads and does not change: the left boundary, the jump steps,
   * the block's corner x and sides dx and dy, the strip width L (the columns a with
   * a < jumpSize - 1), the first right-boundary column R = floor(dx - jumpSize + 1), and
   * the id the exploration started from.
   */
  datatype Ctx = Ctx(left: seq<seq<Gint>>, nn: seq<Gint>, x: nat, dx: nat, dy: nat, L: nat, R: nat, start: nat)

  /**
   * What an exploration changes: the block's array, the id lookup of the strip, the
   * component sizes, the starting id's right boundary and propagation flag, the count
   * of new points and the stack toExplore.
   */
  datatype Scan = Scan(grid: seq<seq<bool>>, lookup: seq<seq<nat>>, sizes: seq<nat>, right: seq<Gint>,
                       propagated: bool, count: nat, stack: seq<Gint>)

  predicate InBlock(c: Ctx, p: Gint)
  {
    0 <= p.a < c.dx && 0 <= p.b < c.dy
  }

  predicate InLookup(lookup: seq<seq<nat>>, p: Gint)
  {
    0 <= p.a < |lookup| && 0 <= p.b < |lookup[p.a]|
  }

  /** p has the starting id in the lookup. */
  predicate LabeledStart(c: Ctx, lookup: seq<seq<nat>>, p: Gint)
  {
    InLookup(lookup, p) && lookup[p.a][p.b] == c.start
  }

  /**
   * The sizes of the array and the lookup. The lookup has a column for each strip column,
   * each tall enough for the octant points x + a >= b of the strip and no taller than the
   * block. Every left boundary point has a lookup cell.
   */
  ghost predicate Shape(c: Ctx, s: Scan)
  {
    |s.grid| == c.dx && (forall a :: 0 <= a < c.dx ==> |s.grid[a]| == c.dy) &&
    |s.lookup| == c.L && c.L <= c.R <= c.dx &&
    (forall a :: 0 <= a < c.L ==> c.x + c.L <= |s.lookup[a]| <= c.dy) &&
    |c.left| <= |s.sizes| && c.start < |s.sizes| &&
    (forall i, k :: 0 <= i < |c.left| && 0 <= k < |c.left[i]| ==> InLookup(s.lookup, c.left[i][k]))
  }

  /**
   * Every id in the lookup names a size slot, and an id without a left component (one
   * handed out on the right boundary) only labels cells that are already visited.
   */
  ghost predicate Labels(c: Ctx, s: Scan)
    requires |s.lookup| == c.L
  {
    forall a, b :: 0 <= a < c.L && 0 <= b < |s.lookup[a]| ==>
      s.lookup[a][b] < |s.sizes| && (s.lookup[a][b] >= |c.left| ==> a < |s.grid| && b < |s.grid[a]| && !s.grid[a][b])
  }

  /**
   * The stack holds block points. A strip point on it has a lookup cell whose id has a
   * left component or is the starting id.
   */
  ghost predicate StackOk(c: Ctx, lookup: seq<seq<nat>>, stack: seq<Gint>)
  {
    forall k :: 0 <= k < |stack| ==> (
      InBlock(c, stack[k]) &&
      (stack[k].a < c.L ==> (
        InLookup(lookup, stack[k]) &&
        (lookup[stack[k].a][stack[k].b] < |c.left| || lookup[stack[k].a][stack[k].b] == c.start))))
  }

  /** The right boundary holds block points of the columns a >= R. */
  ghost predicate RightOk(c: Ctx, right: seq<Gint>)
  {
    forall k :: 0 <= k < |right| ==> InBlock(c, right[k]) && right[k].a >= c.R
  }

  ghost predicate Layout(c: Ctx, s: Scan)
  {
    Shape(c, s) && Labels(c, s) && StackOk(c, s.lookup, s.stack) && RightOk(c, s.right)
  }

  /** l1 agrees with l0 except for cells relabelled with the starting id. */
  ghost predicate Relabeled(c: Ctx, l0: seq<seq<nat>>, l1: seq<seq<nat>>)
  {
    |l1| == |l0| && (forall a :: 0 <= a < |l0| ==> |l1[a]| == |l0[a]|) &&
    forall a, b :: 0 <= a < |l0| && 0 <= b < |l0[a]| ==> l1[a][b] == l0[a][b] || l1[a][b] == c.start
  }

  /** A strip point on the stack whose popping will merge another component. */
  ghost predicate Waiting(c: Ctx, lookup: seq<seq<nat>>, p: Gint)
  {
    0 <= p.a < c.L && InLookup(lookup, p) && lookup[p.a][p.b] != c.start
  }

  ghost function Pending(c: Ctx, lookup: seq<seq<nat>>, s: seq<Gint>): nat
  {
    if s == [] then 0 else Pending(c, lookup, s[..|s| - 1]) + (if Waiting(c, lookup, s[|s| - 1]) then 1 else 0)
  }

  lemma {:induction false} PendingAppend(c: Ctx, lookup: seq<seq<nat>>, s: seq<Gint>, t: seq<Gint>)
    ensures Pending(c, lookup, s + t) == Pending(c, lookup, s) + Pending(c, lookup, t)
    decreases |t|
  {
    if t == [] {
      assert s + t == s;
    } else {
      assert (s + t)[..|s + t| - 1] == s + t[..|t| - 1];
      PendingAppend(c, lookup, s, t[..|t| - 1]);
    }
  }

  /** Relabelling with the starting id only removes merges still to come. */
  lemma {:induction false} PendingRelabel(c: Ctx, l0: seq<seq<nat>>, l1: seq<seq<nat>>, s: seq<Gint>)
    requires Relabeled(c, l0, l1)
    ensures Pending(c, l1, s) <= Pending(c, l0, s)
    decreases |s|
  {
    if s != [] {
      PendingRelabel(c, l0, l1, s[..|s| - 1]);
      var p := s[|s| - 1];
      if Waiting(c, l1, p) {
        assert l1[p.a][p.b] == l0[p.a][p.b];
      }
    }
  }

  /** The quantity an exploration conserves. */
  ghost function Tally(c: Ctx, s: Scan): nat
  {
    s.count + Sum(s.sizes) + Beyond(c.L, s.stack) + |Out(c.L, s.grid)|
  }

  // ---------------------------------------------------------------------------
  // A merge: the loop over leftBoundary[index] (src/SegmentedMoat.cpp:225-229)

  /** leftComponentLookUp[g.a][g.b] = startingIndex. */
  function Relabel(c: Ctx, lookup: seq<seq<nat>>, g: Gint): seq<seq<nat>>
    requires InLookup(lookup, g)
  {
    var column: seq<nat> := lookup[g.a][g.b := c.start];
    lookup[g.a := column]
  }

  /** One point g of the absorbed component: relabelled, pushed and marked visited. */
  function Take(c: Ctx, t: Scan, g: Gint): Scan
    requires InLookup(t.lookup, g) && Cell(t.grid, g)
  {
    t.(lookup := Relabel(c, t.lookup, g), stack := t.stack + [g], grid := OM.Clear(t.grid, g))
  }

  lemma RelabelKeeps(c: Ctx, lookup: seq<seq<nat>>, g: Gint)
    requires InLookup(lookup, g)
    ensures Relabeled(c, lookup, Relabel(c, lookup, g)) && LabeledStart(c, Relabel(c, lookup, g), g)
  {
  }

  /** The point taken has a lookup cell and an array cell. */
  lemma LeftPointCells(c: Ctx, t: Scan, index: nat, j: nat)
    requires Shape(c, t) && index < |c.left| && j < |c.left[index]|
    ensures InLookup(t.lookup, c.left[index][j]) && Cell(t.grid, c.left[index][j]) && InBlock(c, c.left[index][j])
    ensures c.left[index][j].a < c.L
  {
    assert InLookup(t.lookup, c.left[index][j]);
  }

  lemma TakeShape(c: Ctx, t: Scan, g: Gint)
    requires Shape(c, t) && InLookup(t.lookup, g) && Cell(t.grid, g)
    ensures Shape(c, Take(c, t, g))
  {
    var t1 := Take(c, t, g);
    forall i, k | 0 <= i < |c.left| && 0 <= k < |c.left[i]|
      ensures InLookup(t1.lookup, c.left[i][k])
    {
      assert InLookup(t.lookup, c.left[i][k]);
    }
  }

  lemma TakeLabels(c: Ctx, t: Scan, g: Gint)
    requires Shape(c, t) && Labels(c, t) && InLookup(t.lookup, g) && Cell(t.grid, g)
    ensures Shape(c, Take(c, t, g)) && Labels(c, Take(c, t, g))
  {
    var t1 := Take(c, t, g);
    TakeShape(c, t, g);
    forall a, b | 0 <= a < c.L && 0 <= b < |t1.lookup[a]|
      ensures t1.lookup[a][b] < |t1.sizes| && (t1.lookup[a][b] >= |c.left| ==> a < |t1.grid| && b < |t1.grid[a]| && !t1.grid[a][b])
    {
      OM.ClearCells(t.grid, g, Gint(a, b));
      if a != g.a || b != g.b {
        assert t1.lookup[a][b] == t.lookup[a][b];
      }
    }
  }

  lemma TakeStack(c: Ctx, t: Scan, g: Gint)
    requires StackOk(c, t.lookup, t.stack) && InLookup(t.lookup, g) && Cell(t.grid, g) && InBlock(c, g)
    ensures StackOk(c, Take(c, t, g).lookup, Take(c, t, g).stack)
  {
    var t1 := Take(c, t, g);
    RelabelKeeps(c, t.lookup, g);
    forall k | 0 <= k < |t1.stack|
      ensures InBlock(c, t1.stack[k]) && (t1.stack[k].a < c.L ==> (
        InLookup(t1.lookup, t1.stack[k]) &&
        (t1.lookup[t1.stack[k].a][t1.stack[k].b] < |c.left| || t1.lookup[t1.stack[k].a][t1.stack[k].b] == c.start)))
    {
      if k < |t.stack| {
        assert t1.stack[k] == t.stack[k];
      }
    }
  }

  lemma TakeCounts(c: Ctx, t: Scan, g: Gint)
    requires InLookup(t.lookup, g) && Cell(t.grid, g) && g.a < c.L
    ensures var t1 := Take(c, t, g);
      Relabeled(c, t.lookup, t1.lookup) && LabeledStart(c, t1.lookup, g) &&
      OM.SetCells(t1.grid) <= OM.SetCells(t.grid) && Out(c.L, t1.grid) == Out(c.L, t.grid) &&
      Pending(c, t1.lookup, t1.stack) <= Pending(c, t.lookup, t.stack) &&
      Beyond(c.L, t1.stack) == Beyond(c.L, t.stack)
  {
    var t1 := Take(c, t, g);
    RelabelKeeps(c, t.lookup, g);
    ClearSubset(t.grid, g);
    OutClear(c.L, t.grid, g);
    PendingRelabel(c, t.lookup, t1.lookup, t.stack);
    PendingAppend(c, t1.lookup, t.stack, [g]);
    assert [g][..0] == [];
    BeyondAppend(c.L, t.stack, [g]);
  }

  lemma TakeMarked(c: Ctx, t: Scan, g: Gint)
    requires Marked(t.grid, t.stack) && InLookup(t.lookup, g) && Cell(t.grid, g)
    ensures Marked(Take(c, t, g).grid, Take(c, t, g).stack)
    ensures forall r :: !IsSet(t.grid, r) ==> !IsSet(Take(c, t, g).grid, r)
  {
    var t1 := Take(c, t, g);
    forall r
      ensures IsSet(t1.grid, r) <==> IsSet(t.grid, r) && r != g
    {
      OM.ClearCells(t.grid, g, r);
    }
    forall i | 0 <= i < |t1.stack|
      ensures !IsSet(t1.grid, t1.stack[i])
    {
      if i < |t.stack| {
        assert t1.stack[i] == t.stack[i];
      }
    }
  }

  lemma TakeLayout(c: Ctx, t: Scan, index: nat, j: nat)
    requires Layout(c, t) && Marked(t.grid, t.stack) && index < |c.left| && j < |c.left[index]|
    ensures InLookup(t.lookup, c.left[index][j]) && Cell(t.grid, c.left[index][j]) && c.left[index][j].a < c.L
    ensures Layout(c, Take(c, t, c.left[index][j])) && Marked(Take(c, t, c.left[index][j]).grid, Take(c, t, c.left[index][j]).stack)
  {
    var g := c.left[index][j];
    LeftPointCells(c, t, index, j);
    TakeLabels(c, t, g);
    TakeStack(c, t, g);
    TakeMarked(c, t, g);
  }

  /** The merge loop after its first j points. */
  ghost predicate Absorbed(c: Ctx, s: Scan, t: Scan, index: nat, j: nat)
    requires index < |c.left|
  {
    j <= |c.left[index]| && Layout(c, t) && Marked(t.grid, t.stack) &&
    t.sizes == s.sizes && t.count == s.count && t.right == s.right && t.propagated == s.propagated &&
    t.stack == s.stack + c.left[index][..j] &&
    Relabeled(c, s.lookup, t.lookup) &&
    (forall k :: 0 <= k < j ==> LabeledStart(c, t.lookup, c.left[index][k])) &&
    OM.SetCells(t.grid) <= OM.SetCells(s.grid) && Out(c.L, t.grid) == Out(c.L, s.grid) &&
    Pending(c, t.lookup, t.stack) <= Pending(c, s.lookup, s.stack) &&
    Beyond(c.L, t.stack) == Beyond(c.L, s.stack)
  }

  lemma AbsorbStep(c: Ctx, s: Scan, t: Scan, index: nat, j: nat)
    requires index < |c.left| && j < |c.left[index]| && Absorbed(c, s, t, index, j)
    ensures InLookup(t.lookup, c.left[index][j]) && Cell(t.grid, c.left[index][j])
    ensures Absorbed(c, s, Take(c, t, c.left[index][j]), index, j + 1)
  {
    var comp, g := c.left[index], c.left[index][j];
    TakeLayout(c, t, index, j);
    TakeCounts(c, t, g);
    var t1 := Take(c, t, g);
    assert comp[..j + 1] == comp[..j] + [g];
    RelabeledTrans(c, s.lookup, t.lookup, t1.lookup);
  }

  /**
   * The merge loop: every point of leftBoundary[index] is relabelled with the starting
   * id, pushed and marked visited. Only strip cells change.
   */
  method Absorb(c: Ctx, s: Scan, index: nat) returns (t: Scan)
    requires Layout(c, s) && Marked(s.grid, s.stack) && index < |c.left|
    ensures Absorbed(c, s, t, index, |c.left[index]|)
    ensures Pushed(s, t)
  {
    var comp := c.left[index];
    t := s;
    var j := 0;
    assert comp[..0] == [];
    while j < |comp|
      invariant 0 <= j <= |comp| && Absorbed(c, s, t, index, j) && Pushed(s, t)
    {
      AbsorbStep(c, s, t, index, j);
      PushOne(s, t, comp[j], Take(c, t, comp[j]));
      t := Take(c, t, comp[j]);
      j := j + 1;
    }
  }

  lemma RelabeledTrans(c: Ctx, l0: seq<seq<nat>>, l1: seq<seq<nat>>, l2: seq<seq<nat>>)
    requires Relabeled(c, l0, l1) && Relabeled(c, l1, l2)
    ensures Relabeled(c, l0, l2)
    ensures forall p :: LabeledStart(c, l1, p) ==> LabeledStart(c, l2, p)
  {
  }

  // ---------------------------------------------------------------------------
  // The jump steps from a popped point (src/SegmentedMoat.cpp:240-246)

  /** h is a point the exploration may still enter: in the block, in the octant b <= x + a, and unvisited. */
  ghost predicate Open(c: Ctx, grid: seq<seq<bool>>, h: Gint)
  {
    InBlock(c, h) && h.b <= c.x + h.a && IsSet(grid, h)
  }

  /** Every item of the stack is marked visited. */
  ghost predicate Marked(grid: seq<seq<bool>>, stack: seq<Gint>)
  {
    forall k :: 0 <= k < |stack| ==> !IsSet(grid, stack[k])
  }

  /** Push h and mark it visited. */
  function Visit(t: Scan, h: Gint): Scan
    requires Cell(t.grid, h)
  {
    t.(stack := t.stack + [h], grid := OM.Clear(t.grid, h))
  }

  /** Every cell true in s and visited in t is on the stack of t: a cell is only marked when pushed. */
  ghost predicate Pushed(s: Scan, t: Scan)
  {
    forall r :: IsSet(s.grid, r) && !IsSet(t.grid, r) ==> r in t.stack
  }

  /** Marking a cell while pushing it keeps every marked cell on the stack. */
  lemma PushOne(s: Scan, t: Scan, g: Gint, t1: Scan)
    requires Pushed(s, t) && Cell(t.grid, g)
    requires t1.stack == t.stack + [g] && t1.grid == OM.Clear(t.grid, g)
    ensures Pushed(s, t1)
  {
    forall r | IsSet(s.grid, r) && !IsSet(t1.grid, r)
      ensures r in t1.stack
    {
      OM.ClearCells(t.grid, g, r);
      if r != g {
        assert r in t.stack;
      }
    }
  }

  /** Pushed composes along steps that keep the stack of the middle state as a prefix. */
  lemma PushedTrans(s: Scan, u: Scan, t: Scan)
    requires Pushed(s, u) && Pushed(u, t) && |u.stack| <= |t.stack| && t.stack[..|u.stack|] == u.stack
    ensures Pushed(s, t)
  {
    PrefixKept(u.stack, t.stack);
  }

  /** Every cell true in g0 and visited in t is on the stack of t or among the popped points. */
  ghost predicate Accounted(g0: seq<seq<bool>>, t: Scan, done: seq<Gint>)
  {
    forall r :: IsSet(g0, r) && !IsSet(t.grid, r) ==> r in t.stack || r in done
  }

  /** A pass pops p and pushes what it marks: the marked cells stay accounted for. */
  lemma AccountedPop(g0: seq<seq<bool>>, s: Scan, t: Scan, done: seq<Gint>, p: Gint)
    requires Accounted(g0, s, done) && Pushed(s, t)
    requires forall x :: x in s.stack ==> x in t.stack || x == p
    ensures Accounted(g0, t, done + [p])
  {
    forall r | IsSet(g0, r) && !IsSet(t.grid, r)
      ensures r in t.stack || r in done + [p]
    {
      if !IsSet(s.grid, r) {
        assert r in s.stack || r in done;
      }
    }
  }

  /** One jump step leads from p to h. */
  ghost predicate JumpStep(c: Ctx, p: Gint, h: Gint)
  {
    exists k :: 0 <= k < |c.nn| && h == Add(p, c.nn[k])
  }

  /** path goes by jump steps, and every point after the first is open in grid. */
  ghost predicate Reaches(c: Ctx, grid: seq<seq<bool>>, path: seq<Gint>)
    decreases |path|
  {
    |path| >= 2 ==>
      JumpStep(c, path[|path| - 2], path[|path| - 1]) && Open(c, grid, path[|path| - 1]) &&
      Reaches(c, grid, path[..|path| - 1])
  }

  /**
   * If no jump step from a visited point leads to a cell still open in g1, and every cell
   * open in g0 but visited in g1 is among the visited points, then a path from a visited
   * point through cells open in g0 ends at a visited point.
   */
  lemma {:induction false} ReachedVisited(c: Ctx, g0: seq<seq<bool>>, g1: seq<seq<bool>>, visited: seq<Gint>, path: seq<Gint>)
    requires Closed(c, g1, visited)
    requires forall h :: IsSet(g0, h) && !IsSet(g1, h) ==> h in visited
    requires path != [] && path[0] in visited && Reaches(c, g0, path)
    ensures path[|path| - 1] in visited
    decreases |path|
  {
    if |path| >= 2 {
      var n := |path| - 1;
      var init := path[..n];
      assert init[0] == path[0];
      ReachedVisited(c, g0, g1, visited, init);
      assert init[|init| - 1] == path[n - 1];
      var k :| 0 <= k < |c.nn| && path[n] == Add(path[n - 1], c.nn[k]);
      var i :| 0 <= i < |visited| && visited[i] == path[n - 1];
      assert !Open(c, g1, Add(visited[i], c.nn[k]));
    }
  }

  /** The neighbour loop after its first k steps from p. */
  ghost predicate Spreading(c: Ctx, s: Scan, t: Scan, p: Gint, k: nat)
  {
    k <= |c.nn| && Layout(c, t) && Marked(t.grid, t.stack) &&
    t.lookup == s.lookup && t.sizes == s.sizes && t.count == s.count && t.right == s.right &&
    t.propagated == s.propagated &&
    |s.stack| <= |t.stack| && t.stack[..|s.stack|] == s.stack &&
    |OM.SetCells(t.grid)| + |t.stack| == |OM.SetCells(s.grid)| + |s.stack| &&
    OM.SetCells(t.grid) <= OM.SetCells(s.grid) &&
    (|t.stack| == |s.stack| ==> t.grid == s.grid) &&
    Beyond(c.L, t.stack) + |Out(c.L, t.grid)| == Beyond(c.L, s.stack) + |Out(c.L, s.grid)| &&
    forall i :: 0 <= i < k ==> !Open(c, t.grid, Add(p, c.nn[i]))
  }

  lemma VisitLayout(c: Ctx, t: Scan, h: Gint)
    requires Layout(c, t) && Marked(t.grid, t.stack) && Open(c, t.grid, h)
    ensures Layout(c, Visit(t, h)) && Marked(Visit(t, h).grid, Visit(t, h).stack)
  {
    var t1 := Visit(t, h);
    forall a, b | 0 <= a < c.L && 0 <= b < |t1.lookup[a]|
      ensures t1.lookup[a][b] < |t1.sizes| && (t1.lookup[a][b] >= |c.left| ==> a < |t1.grid| && b < |t1.grid[a]| && !t1.grid[a][b])
    {
      OM.ClearCells(t.grid, h, Gint(a, b));
    }
    if h.a < c.L {
      assert h.b < |t.lookup[h.a]|;
      assert t.lookup[h.a][h.b] < |c.left|;
    }
    forall i | 0 <= i < |t1.stack|
      ensures InBlock(c, t1.stack[i]) && (t1.stack[i].a < c.L ==> (
        InLookup(t1.lookup, t1.stack[i]) &&
        (t1.lookup[t1.stack[i].a][t1.stack[i].b] < |c.left| || t1.lookup[t1.stack[i].a][t1.stack[i].b] == c.start)))
      ensures !IsSet(t1.grid, t1.stack[i])
    {
      OM.ClearCells(t.grid, h, t1.stack[i]);
      if i < |t.stack| {
        assert t1.stack[i] == t.stack[i];
      }
    }
  }

  lemma VisitCounts(c: Ctx, t: Scan, h: Gint)
    requires Open(c, t.grid, h) && Cell(t.grid, h)
    ensures var t1 := Visit(t, h);
      |OM.SetCells(t1.grid)| + 1 == |OM.SetCells(t.grid)| && OM.SetCells(t1.grid) <= OM.SetCells(t.grid) &&
      Beyond(c.L, t1.stack) + |Out(c.L, t1.grid)| == Beyond(c.L, t.stack) + |Out(c.L, t.grid)|
    ensures forall r :: !IsSet(t.grid, r) ==> !IsSet(Visit(t, h).grid, r)
  {
    var t1 := Visit(t, h);
    ClearSubset(t.grid, h);
    OutClear(c.L, t.grid, h);
    BeyondAppend(c.L, t.stack, [h]);
    assert [h][..0] == [];
    forall r | !IsSet(t.grid, r)
      ensures !IsSet(t1.grid, r)
    {
      OM.ClearCells(t.grid, h, r);
    }
  }

  lemma VisitStep(c: Ctx, s: Scan, t: Scan, p: Gint, k: nat)
    requires Spreading(c, s, t, p, k) && k < |c.nn| && Open(c, t.grid, Add(p, c.nn[k]))
    ensures Cell(t.grid, Add(p, c.nn[k]))
    ensures Spreading(c, s, Visit(t, Add(p, c.nn[k])), p, k + 1)
  {
    var h := Add(p, c.nn[k]);
    VisitLayout(c, t, h);
    VisitCounts(c, t, h);
    var t1 := Visit(t, h);
    assert t1.stack[..|s.stack|] == t.stack[..|s.stack|];
    VisitCloses(c, t, p, k);
  }

  /** After visiting p + nn[k], none of the first k + 1 steps from p is open. */
  lemma VisitCloses(c: Ctx, t: Scan, p: Gint, k: nat)
    requires k < |c.nn| && Cell(t.grid, Add(p, c.nn[k]))
    requires forall i :: 0 <= i < k ==> !Open(c, t.grid, Add(p, c.nn[i]))
    ensures forall i :: 0 <= i < k + 1 ==> !Open(c, Visit(t, Add(p, c.nn[k])).grid, Add(p, c.nn[i]))
  {
    var h := Add(p, c.nn[k]);
    forall i | 0 <= i < k + 1
      ensures !Open(c, Visit(t, h).grid, Add(p, c.nn[i]))
    {
      OM.ClearCells(t.grid, h, Add(p, c.nn[i]));
    }
  }

  lemma SkipStep(c: Ctx, s: Scan, t: Scan, p: Gint, k: nat)
    requires Spreading(c, s, t, p, k) && k < |c.nn| && !Open(c, t.grid, Add(p, c.nn[k]))
    ensures Spreading(c, s, t, p, k + 1)
  {
  }

  /**
   * The neighbour loop: each step h = p + q into the block's octant part whose cell is
   * still true is pushed and marked visited. Afterwards no step from p leads to an
   * unvisited cell, and every push used up one true cell.
   */
  method Spread(c: Ctx, s: Scan, p: Gint) returns (t: Scan)
    requires Layout(c, s) && Marked(s.grid, s.stack)
    ensures Spreading(c, s, t, p, |c.nn|) && Pushed(s, t)
  {
    t := s;
    var k := 0;
    while k < |c.nn|
      invariant Spreading(c, s, t, p, k) && Pushed(s, t)
    {
      var h := Add(p, c.nn[k]);
      if 0 <= h.a < c.dx && 0 <= h.b < c.dy && h.b <= c.x + h.a && t.grid[h.a][h.b] {
        VisitStep(c, s, t, p, k);
        PushOne(s, t, h, Visit(t, h));
        t := Visit(t, h);
      } else {
        SkipStep(c, s, t, p, k);
      }
      k := k + 1;
    }
  }

  // ---------------------------------------------------------------------------
  // One pass of the do-while loop of exploreComponent (src/SegmentedMoat.cpp:207-247)

  /** Every point of comp carries the starting id. */
  ghost predicate AllStart(c: Ctx, lookup: seq<seq<nat>>, comp: seq<Gint>)
  {
    forall k :: 0 <= k < |comp| ==> LabeledStart(c, lookup, comp[k])
  }

  /**
   * What the loop keeps track of, for the items it started with and the points it
   * has popped (done): an item of the right-boundary columns is on the stack or in the
   * right boundary; every item is on the stack or popped; a popped point is visited and
   * no step from it reaches an unvisited cell.
   */
  ghost predicate Track(c: Ctx, s: Scan, items: seq<Gint>, done: seq<Gint>)
  {
    (forall i :: 0 <= i < |items| && items[i].a >= c.R ==> items[i] in s.stack || items[i] in s.right) &&
    (forall i :: 0 <= i < |items| ==> items[i] in s.stack || items[i] in done) &&
    (forall i :: 0 <= i < |done| ==> !IsSet(s.grid, done[i])) &&
    (forall i, k :: 0 <= i < |done| && 0 <= k < |c.nn| ==> !Open(c, s.grid, Add(done[i], c.nn[k])))
  }

  /**
   * How t follows s: lookup cells are only relabelled with the starting id; a size other
   * than the starting id's is kept or zeroed in a merge, after which its left component
   * carries the starting id; cells are only marked visited; the right boundary only
   * grows, and the flag records whether it did.
   */
  ghost predicate Follows(c: Ctx, s: Scan, t: Scan)
  {
    Relabeled(c, s.lookup, t.lookup) &&
    |t.sizes| == |s.sizes| && c.start < |s.sizes| && t.sizes[c.start] == s.sizes[c.start] &&
    (forall i :: 0 <= i < |s.sizes| && i != c.start ==>
      t.sizes[i] == s.sizes[i] || (t.sizes[i] == 0 && i < |c.left| && AllStart(c, t.lookup, c.left[i]))) &&
    OM.SetCells(t.grid) <= OM.SetCells(s.grid) &&
    |s.right| <= |t.right| && t.right[..|s.right|] == s.right &&
    t.propagated == (s.propagated || |t.right| > |s.right|)
  }

  /** The measure (true cells, merges pending, stack height) went down. */
  ghost predicate Smaller(c: Ctx, s: Scan, t: Scan)
  {
    var st, tt := |OM.SetCells(s.grid)|, |OM.SetCells(t.grid)|;
    var sp, tp := Pending(c, s.lookup, s.stack), Pending(c, t.lookup, t.stack);
    tt < st || (tt == st && (tp < sp || (tp == sp && |t.stack| < |s.stack|)))
  }

  /** Removing the top of the stack. */
  lemma PopTop(c: Ctx, s: Scan)
    requires Layout(c, s) && Marked(s.grid, s.stack) && s.stack != []
    ensures var u := s.(stack := s.stack[..|s.stack| - 1]);
      Layout(c, u) && Marked(u.grid, u.stack) &&
      Beyond(c.L, s.stack) == Beyond(c.L, u.stack) + (if s.stack[|s.stack| - 1].a >= c.L then 1 else 0) &&
      Pending(c, s.lookup, s.stack) == Pending(c, u.lookup, u.stack) +
        (if Waiting(c, s.lookup, s.stack[|s.stack| - 1]) then 1 else 0)
    ensures InBlock(c, s.stack[|s.stack| - 1]) && !IsSet(s.grid, s.stack[|s.stack| - 1])
    ensures s.stack[|s.stack| - 1].a < c.L ==>
      InLookup(s.lookup, s.stack[|s.stack| - 1]) &&
      (s.lookup[s.stack[|s.stack| - 1].a][s.stack[|s.stack| - 1].b] < |c.left| ||
       s.lookup[s.stack[|s.stack| - 1].a][s.stack[|s.stack| - 1].b] == c.start)
  {
    var n := |s.stack| - 1;
    var u := s.(stack := s.stack[..n]);
    assert forall i :: 0 <= i < n ==> u.stack[i] == s.stack[i];
  }

  /** A merge moves the absorbed size into the count. */
  lemma MergeCounts(s: Scan, index: nat)
    requires index < |s.sizes|
    ensures s.count + Sum(s.sizes) == s.count + s.sizes[index] + Sum(s.sizes[index := 0])
  {
    SumUpdate(s.sizes, index, 0);
  }

  /**
   * The first half of a pass: pop p. A strip point (a < jumpSize - 1) whose id is another
   * component's merges that component; a point right of the strip is counted, and
   * recorded in the right boundary when it lies in the columns a >= R.
   */
  method Settle(c: Ctx, s: Scan) returns (u: Scan)
    requires Layout(c, s) && Marked(s.grid, s.stack) && s.stack != []
    ensures Mid(c, s, u) && Pushed(s, u)
  {
    var p := s.stack[|s.stack| - 1];
    PopTop(c, s);
    u := s.(stack := s.stack[..|s.stack| - 1]);
    if p.a < c.L {
      var index := u.lookup[p.a][p.b];
      if index != c.start {
        u := SettleMerge(c, s, index);
      } else {
        NoMergeMid(c, s, u);
      }
    } else {
      u := u.(count := u.count + 1);
      if p.a >= c.R {
        u := u.(propagated := true, right := u.right + [p]);
      }
      CountMid(c, s, u);
    }
  }

  /** Settle for a strip point whose id names another component: that component is merged. */
  method SettleMerge(c: Ctx, s: Scan, index: nat) returns (u: Scan)
    requires Layout(c, s) && Marked(s.grid, s.stack) && s.stack != []
    requires s.stack[|s.stack| - 1].a < c.L && InLookup(s.lookup, s.stack[|s.stack| - 1])
    requires index == s.lookup[s.stack[|s.stack| - 1].a][s.stack[|s.stack| - 1].b] && index != c.start
    ensures Mid(c, s, u) && Pushed(s, u)
  {
    PopTop(c, s);
    var u1 := s.(stack := s.stack[..|s.stack| - 1]);
    u := u1.(count := u1.count + u1.sizes[index], sizes := u1.sizes[index := 0]);
    LayoutResized(c, u1, u);
    ghost var u0 := u;
    u := Absorb(c, u, index);
    MergeMid(c, s, u0, u, index);
  }

  /** One pass of the loop: settle the top p of the stack, then push the steps from p. */
  method Pop(c: Ctx, s: Scan, ghost items: seq<Gint>, ghost done: seq<Gint>) returns (t: Scan, ghost done1: seq<Gint>)
    requires Layout(c, s) && Marked(s.grid, s.stack) && s.stack != [] && Track(c, s, items, done)
    ensures Layout(c, t) && Marked(t.grid, t.stack) && Track(c, t, items, done1)
    ensures Tally(c, t) == Tally(c, s) && Follows(c, s, t) && Smaller(c, s, t)
    ensures Pushed(s, t) && done1 == done + [s.stack[|s.stack| - 1]]
    ensures forall x :: x in s.stack ==> x in t.stack || x == s.stack[|s.stack| - 1]
  {
    var p := s.stack[|s.stack| - 1];
    var u := Settle(c, s);
    t := Spread(c, u, p);
    done1 := done + [p];
    SpreadFollows(c, s, u, t);
    PopTracks(c, s, u, t, items, done);
    PushedTrans(s, u, t);
    PrefixChain(s.stack, u.stack, t.stack);
    PopKept(s.stack, t.stack);
  }

  /**
   * The state u after the pop of p = the top of s and its merge or count, before the
   * steps from p: it conserves the tally and follows s, and either a merge still to come
   * was used up or nothing but the stack changed.
   */
  ghost predicate Mid(c: Ctx, s: Scan, u: Scan)
  {
    s.stack != [] && Layout(c, u) && Marked(u.grid, u.stack) && MidStack(s, u) && MidTally(c, s, u) &&
    Follows(c, s, u) && MidProgress(c, s, u) && MidTop(c, s, u)
  }

  ghost predicate MidStack(s: Scan, u: Scan)
    requires s.stack != []
  {
    |u.stack| >= |s.stack| - 1 && u.stack[..|s.stack| - 1] == s.stack[..|s.stack| - 1]
  }

  ghost predicate MidTally(c: Ctx, s: Scan, u: Scan)
  {
    u.count + Sum(u.sizes) + Beyond(c.L, u.stack) + |Out(c.L, u.grid)| == Tally(c, s)
  }

  ghost predicate MidProgress(c: Ctx, s: Scan, u: Scan)
    requires s.stack != []
  {
    (Pending(c, u.lookup, u.stack) < Pending(c, s.lookup, s.stack) && |OM.SetCells(u.grid)| <= |OM.SetCells(s.grid)|) ||
    (u.grid == s.grid && u.lookup == s.lookup && u.stack == s.stack[..|s.stack| - 1])
  }

  ghost predicate MidTop(c: Ctx, s: Scan, u: Scan)
    requires s.stack != []
  {
    (s.stack[|s.stack| - 1].a >= c.R ==> s.stack[|s.stack| - 1] in u.right) && !IsSet(u.grid, s.stack[|s.stack| - 1])
  }

  lemma SetCellsSub(g0: seq<seq<bool>>, g1: seq<seq<bool>>, r: Gint)
    requires OM.SetCells(g1) <= OM.SetCells(g0)
    ensures IsSet(g1, r) ==> IsSet(g0, r)
  {
    OM.SetCellsMeans(g0, r);
    OM.SetCellsMeans(g1, r);
  }

  lemma LayoutResized(c: Ctx, s: Scan, u: Scan)
    requires Layout(c, s) && u == s.(count := u.count, sizes := u.sizes) && |u.sizes| == |s.sizes|
    ensures Layout(c, u)
  {
  }

  lemma {:induction false} MergeMid(c: Ctx, s: Scan, u0: Scan, u: Scan, index: nat)
    requires Layout(c, s) && Marked(s.grid, s.stack) && s.stack != []
    requires var p := s.stack[|s.stack| - 1];
      p.a < c.L && InLookup(s.lookup, p) && index == s.lookup[p.a][p.b] && index != c.start && index < |c.left|
    requires u0 == s.(stack := s.stack[..|s.stack| - 1], count := s.count + s.sizes[index], sizes := s.sizes[index := 0])
    requires Absorbed(c, u0, u, index, |c.left[index]|)
    ensures Mid(c, s, u)
  {
    var n := |s.stack| - 1;
    var p := s.stack[n];
    PopTop(c, s);
    MergeTally(c, s, u0, u, index);
    MergeFollowsS(c, s, u0, u, index);
    assert u.stack[..n] == s.stack[..n];
    SetCellsSub(s.grid, u.grid, p);
    assert MidTop(c, s, u);
  }

  lemma SubsetCard(A: set<Gint>, B: set<Gint>)
    requires A <= B
    ensures |A| <= |B|
  {
    assert B == A + (B - A);
  }

  lemma MergeTally(c: Ctx, s: Scan, u0: Scan, u: Scan, index: nat)
    requires s.stack != [] && index < |c.left| && index < |s.sizes|
    requires u0 == s.(stack := s.stack[..|s.stack| - 1], count := s.count + s.sizes[index], sizes := s.sizes[index := 0])
    requires Beyond(c.L, s.stack) == Beyond(c.L, u0.stack)
    requires Pending(c, s.lookup, s.stack) == Pending(c, u0.lookup, u0.stack) + 1
    requires Absorbed(c, u0, u, index, |c.left[index]|)
    ensures MidTally(c, s, u) && MidProgress(c, s, u)
  {
    MergeCounts(s, index);
    SubsetCard(OM.SetCells(u.grid), OM.SetCells(s.grid));
  }

  lemma MergeFollowsS(c: Ctx, s: Scan, u0: Scan, u: Scan, index: nat)
    requires index < |c.left| && index < |s.sizes| && index != c.start && c.start < |s.sizes|
    requires u0 == s.(stack := u0.stack, count := u0.count, sizes := s.sizes[index := 0])
    requires Absorbed(c, u0, u, index, |c.left[index]|)
    ensures Follows(c, s, u)
  {
    assert c.left[index][..|c.left[index]|] == c.left[index];
    assert AllStart(c, u.lookup, c.left[index]);
  }

  lemma NoMergeMid(c: Ctx, s: Scan, u: Scan)
    requires Layout(c, s) && Marked(s.grid, s.stack) && s.stack != []
    requires var p := s.stack[|s.stack| - 1];
      p.a < c.L && InLookup(s.lookup, p) && s.lookup[p.a][p.b] == c.start
    requires u == s.(stack := s.stack[..|s.stack| - 1])
    ensures Mid(c, s, u)
  {
    PopTop(c, s);
    assert u.stack[..|s.stack| - 1] == u.stack;
  }

  lemma CountMid(c: Ctx, s: Scan, u: Scan)
    requires Layout(c, s) && Marked(s.grid, s.stack) && s.stack != [] && s.stack[|s.stack| - 1].a >= c.L
    requires var p, u0 := s.stack[|s.stack| - 1], s.(stack := s.stack[..|s.stack| - 1], count := s.count + 1);
      if p.a >= c.R then u == u0.(propagated := true, right := u0.right + [p]) else u == u0
    ensures Mid(c, s, u)
  {
    PopTop(c, s);
    var n := |s.stack| - 1;
    var p := s.stack[n];
    assert u.stack[..n] == u.stack;
    CountLayout(c, s, u);
    CountFollows(c, s, u);
  }

  lemma CountLayout(c: Ctx, s: Scan, u: Scan)
    requires s.stack != [] && InBlock(c, s.stack[|s.stack| - 1])
    requires var n := |s.stack| - 1; var u0 := s.(stack := s.stack[..n]);
      Layout(c, u0) && Marked(u0.grid, u0.stack)
    requires var p, u0 := s.stack[|s.stack| - 1], s.(stack := s.stack[..|s.stack| - 1], count := s.count + 1);
      if p.a >= c.R then u == u0.(propagated := true, right := u0.right + [p]) else u == u0
    ensures Layout(c, u) && Marked(u.grid, u.stack)
  {
  }

  lemma CountFollows(c: Ctx, s: Scan, u: Scan)
    requires Shape(c, s) && s.stack != [] && s.stack[|s.stack| - 1].a >= c.L && !IsSet(s.grid, s.stack[|s.stack| - 1])
    requires Beyond(c.L, s.stack) == Beyond(c.L, s.stack[..|s.stack| - 1]) + 1
    requires var p, u0 := s.stack[|s.stack| - 1], s.(stack := s.stack[..|s.stack| - 1], count := s.count + 1);
      if p.a >= c.R then u == u0.(propagated := true, right := u0.right + [p]) else u == u0
    ensures Follows(c, s, u) && MidTally(c, s, u) && MidProgress(c, s, u) && MidTop(c, s, u)
  {
    assert (s.right + [s.stack[|s.stack| - 1]])[..|s.right|] == s.right;
  }

  lemma {:induction false} SpreadFollows(c: Ctx, s: Scan, u: Scan, t: Scan)
    requires Mid(c, s, u) && Spreading(c, u, t, s.stack[|s.stack| - 1], |c.nn|)
    ensures Layout(c, t) && Marked(t.grid, t.stack)
    ensures Tally(c, t) == Tally(c, s) && Follows(c, s, t) && Smaller(c, s, t)
  {
    var n := |s.stack| - 1;
    if |t.stack| == |u.stack| {
      assert t.stack == t.stack[..|u.stack|] == u.stack;
    }
    if u.stack == s.stack[..n] && |t.stack| == |u.stack| {
      assert |s.stack| > |t.stack|;
    }
  }

  /** Every item of s other than its last is kept in t, which starts with s without its last. */
  lemma PopKept(s: seq<Gint>, t: seq<Gint>)
    requires s != [] && |s| - 1 <= |t| && t[..|s| - 1] == s[..|s| - 1]
    ensures forall x :: x in s ==> x in t || x == s[|s| - 1]
  {
    var n := |s| - 1;
    forall x | x in s
      ensures x in t || x == s[n]
    {
      var k :| 0 <= k < |s| && s[k] == x;
      if k < n {
        assert s[..n][k] == x && t[..n][k] == t[k];
      }
    }
  }

  lemma PrefixChain(s: seq<Gint>, u: seq<Gint>, t: seq<Gint>)
    requires s != [] && |s| - 1 <= |u| <= |t| && u[..|s| - 1] == s[..|s| - 1] && t[..|u|] == u
    ensures t[..|s| - 1] == s[..|s| - 1]
  {
    assert t[..|s| - 1] == t[..|u|][..|s| - 1];
  }

  /** Every item of s is kept in t, which starts with s. */
  lemma PrefixKept(s: seq<Gint>, t: seq<Gint>)
    requires |s| <= |t| && t[..|s|] == s
    ensures forall x :: x in s ==> x in t
  {
    forall x | x in s
      ensures x in t
    {
      var k :| 0 <= k < |s| && s[k] == x;
      assert t[..|s|][k] == t[k];
    }
  }

  /** The item conjuncts of Track carry over a pass, with p = the popped point. */
  lemma TrackItems(c: Ctx, s: Scan, t: Scan, items: seq<Gint>, done: seq<Gint>, p: Gint)
    requires forall x :: x in s.stack ==> x in t.stack || x == p
    requires forall x :: x in s.right ==> x in t.right
    requires p.a >= c.R ==> p in t.right
    requires forall i :: 0 <= i < |items| && items[i].a >= c.R ==> items[i] in s.stack || items[i] in s.right
    requires forall i :: 0 <= i < |items| ==> items[i] in s.stack || items[i] in done
    ensures forall i :: 0 <= i < |items| && items[i].a >= c.R ==> items[i] in t.stack || items[i] in t.right
    ensures forall i :: 0 <= i < |items| ==> items[i] in t.stack || items[i] in done + [p]
  {
  }

  lemma {:induction false} PopTracks(c: Ctx, s: Scan, u: Scan, t: Scan, items: seq<Gint>, done: seq<Gint>)
    requires Mid(c, s, u) && Spreading(c, u, t, s.stack[|s.stack| - 1], |c.nn|) && Track(c, s, items, done)
    ensures Track(c, t, items, done + [s.stack[|s.stack| - 1]])
  {
    var p := s.stack[|s.stack| - 1];
    PrefixChain(s.stack, u.stack, t.stack);
    PopKept(s.stack, t.stack);
    PrefixKept(s.right, t.right);
    TrackItems(c, s, t, items, done, p);
    TrackGrid(c, s, u, t, done);
  }

  lemma TrackGrid(c: Ctx, s: Scan, u: Scan, t: Scan, done: seq<Gint>)
    requires s.stack != [] && OM.SetCells(t.grid) <= OM.SetCells(u.grid) <= OM.SetCells(s.grid)
    requires !IsSet(u.grid, s.stack[|s.stack| - 1])
    requires forall k :: 0 <= k < |c.nn| ==> !Open(c, t.grid, Add(s.stack[|s.stack| - 1], c.nn[k]))
    requires forall i :: 0 <= i < |done| ==> !IsSet(s.grid, done[i])
    requires forall i, k :: 0 <= i < |done| && 0 <= k < |c.nn| ==> !Open(c, s.grid, Add(done[i], c.nn[k]))
    ensures var done1 := done + [s.stack[|s.stack| - 1]];
      (forall i :: 0 <= i < |done1| ==> !IsSet(t.grid, done1[i])) &&
      (forall i, k :: 0 <= i < |done1| && 0 <= k < |c.nn| ==> !Open(c, t.grid, Add(done1[i], c.nn[k])))
  {
    forall r
      ensures IsSet(t.grid, r) ==> IsSet(s.grid, r)
    {
      SetCellsSub(s.grid, t.grid, r);
    }
    SetCellsSub(u.grid, t.grid, s.stack[|s.stack| - 1]);
  }

  lemma FollowsRefl(c: Ctx, s: Scan)
    requires c.start < |s.sizes|
    ensures Follows(c, s, s)
  {
    assert s.right[..|s.right|] == s.right;
  }

  lemma FollowsTrans(c: Ctx, s: Scan, u: Scan, t: Scan)
    requires Follows(c, s, u) && Follows(c, u, t)
    ensures Follows(c, s, t)
  {
    RelabeledTrans(c, s.lookup, u.lookup, t.lookup);
    forall i | 0 <= i < |s.sizes| && i != c.start
      ensures t.sizes[i] == s.sizes[i] || (t.sizes[i] == 0 && i < |c.left| && AllStart(c, t.lookup, c.left[i]))
    {
      if u.sizes[i] != s.sizes[i] {
        assert AllStart(c, u.lookup, c.left[i]);
      }
    }
    assert t.right[..|s.right|] == t.right[..|u.right|][..|s.right|];
  }

  /**
   * The do-while loop (src/SegmentedMoat.cpp:207-247), run until the stack is empty.
   * The tally is conserved; every item ends up popped; no popped point has an
   * unvisited cell one step away.
   */
  method Drain(c: Ctx, s: Scan, ghost items: seq<Gint>) returns (t: Scan, ghost done: seq<Gint>)
    requires Layout(c, s) && Marked(s.grid, s.stack) && items == s.stack
    ensures Layout(c, t) && t.stack == [] && Tally(c, t) == Tally(c, s)
    ensures Follows(c, s, t) && Track(c, t, items, done)
    ensures forall r :: IsSet(s.grid, r) && !IsSet(t.grid, r) ==> r in done
  {
    t := s;
    done := [];
    FollowsRefl(c, s);
    while t.stack != []
      invariant Layout(c, t) && Marked(t.grid, t.stack) && Track(c, t, items, done)
      invariant Tally(c, t) == Tally(c, s) && Follows(c, s, t)
      invariant Accounted(s.grid, t, done)
      decreases |OM.SetCells(t.grid)|, Pending(c, t.lookup, t.stack), |t.stack|
    {
      ghost var t0, done0 := t, done;
      t, done := Pop(c, t, items, done);
      FollowsTrans(c, s, t0, t);
      AccountedPop(s.grid, t0, t, done0, t0.stack[|t0.stack| - 1]);
    }
  }

  // ---------------------------------------------------------------------------
  // Marking items visited

  /** The grid with the cells of items cleared, one after the other (items outside it are skipped). */
  ghost function ClearAll(grid: seq<seq<bool>>, items: seq<Gint>): (r: seq<seq<bool>>)
    ensures |r| == |grid| && forall a :: 0 <= a < |r| ==> |r[a]| == |grid[a]|
    decreases |items|
  {
    if items == [] then grid
    else
      var g := ClearAll(grid, items[..|items| - 1]);
      var last := items[|items| - 1];
      if Cell(g, last) then OM.Clear(g, last) else g
  }

  /** A cell stays true exactly when it was true and is not one of the items. */
  lemma {:induction false} ClearAllMeans(grid: seq<seq<bool>>, items: seq<Gint>, r: Gint)
    ensures IsSet(ClearAll(grid, items), r) <==> IsSet(grid, r) && r !in items
    decreases |items|
  {
    if items != [] {
      var n := |items| - 1;
      var g := ClearAll(grid, items[..n]);
      ClearAllMeans(grid, items[..n], r);
      if Cell(g, items[n]) {
        OM.ClearCells(g, items[n], r);
      }
      assert items == items[..n] + [items[n]];
    }
  }

  /** Clearing cells never adds a true cell. */
  lemma ClearAllSubset(grid: seq<seq<bool>>, items: seq<Gint>)
    ensures OM.SetCells(ClearAll(grid, items)) <= OM.SetCells(grid)
  {
    forall r | r in OM.SetCells(ClearAll(grid, items))
      ensures r in OM.SetCells(grid)
    {
      OM.SetCellsMeans(ClearAll(grid, items), r);
      OM.SetCellsMeans(grid, r);
      ClearAllMeans(grid, items, r);
    }
  }

  // ---------------------------------------------------------------------------
  // One exploration, from its items to the stored tables

  /** No jump step from a visited point leads to a cell an exploration could still enter. */
  ghost predicate Closed(c: Ctx, grid: seq<seq<bool>>, visited: seq<Gint>)
  {
    (forall i :: 0 <= i < |visited| ==> !IsSet(grid, visited[i])) &&
    forall i, k :: 0 <= i < |visited| && 0 <= k < |c.nn| ==> !Open(c, grid, Add(visited[i], c.nn[k]))
  }

  /** Closure survives marking more cells visited. */
  lemma ClosedShrinks(c: Ctx, g0: seq<seq<bool>>, g1: seq<seq<bool>>, visited: seq<Gint>)
    requires Closed(c, g0, visited) && OM.SetCells(g1) <= OM.SetCells(g0)
    ensures Closed(c, g1, visited)
  {
    forall r | IsSet(g1, r)
      ensures IsSet(g0, r)
    {
      OM.SetCellsMeans(g1, r);
      OM.SetCellsMeans(g0, r);
    }
  }

  /** The starting scan of exploreComponent is laid out once its items are marked visited. */
  lemma StartScan(c: Ctx, s: Scan, grid0: seq<seq<bool>>)
    requires Shape(c, s.(grid := grid0)) && Labels(c, s.(grid := grid0))
    requires s.grid == ClearAll(grid0, s.stack)
    requires StackOk(c, s.lookup, s.stack) && RightOk(c, s.right)
    ensures Layout(c, s) && Marked(s.grid, s.stack)
  {
    forall a, b | 0 <= a < c.L && 0 <= b < |s.lookup[a]| && s.lookup[a][b] >= |c.left|
      ensures a < |s.grid| && b < |s.grid[a]| && !s.grid[a][b]
    {
      ClearAllMeans(grid0, s.stack, Gint(a, b));
    }
    forall k | 0 <= k < |s.stack|
      ensures !IsSet(s.grid, s.stack[k])
    {
      ClearAllMeans(grid0, s.stack, s.stack[k]);
    }
  }

  /**
   * exploreComponent on values (src/SegmentedMoat.cpp:205-247): mark the items visited,
   * push them, and drain the stack. The count plus the sizes plus the true cells right of
   * the strip equal the sizes plus the items right of the strip plus the true cells right
   * of the strip once the items are marked.
   */
  method Explore(c: Ctx, grid: seq<seq<bool>>, lookup: seq<seq<nat>>, sizes: seq<nat>, base: seq<Gint>,
                 propagated: bool, items: seq<Gint>) returns (t: Scan, ghost done: seq<Gint>)
    requires Shape(c, Scan(grid, lookup, sizes, base, propagated, 0, items))
    requires Labels(c, Scan(grid, lookup, sizes, base, propagated, 0, items))
    requires StackOk(c, lookup, items) && RightOk(c, base)
    ensures Layout(c, t) && t.stack == []
    ensures Sum(Settled(t, c.start)) + |Out(c.L, t.grid)| == Sum(sizes) + Beyond(c.L, items) + |Out(c.L, ClearAll(grid, items))|
    ensures Follows(c, Scan(grid, lookup, sizes, base, propagated, 0, items), t) && Track(c, t, items, done)
    ensures forall r :: IsSet(ClearAll(grid, items), r) && !IsSet(t.grid, r) ==> r in done
  {
    var marked := grid;
    var k := 0;
    while k < |items|
      invariant 0 <= k <= |items| && marked == ClearAll(grid, items[..k])
    {
      assert items[..k + 1][..k] == items[..k];
      assert Cell(marked, items[k]);
      marked := OM.Clear(marked, items[k]);
      k := k + 1;
    }
    assert items[..|items|] == items;
    var s := Scan(marked, lookup, sizes, base, propagated, 0, items);
    StartScan(c, s, grid);
    t, done := Drain(c, s, items);
    ClearAllSubset(grid, items);
    SettledSum(t, c.start);
  }

  lemma SettledSum(t: Scan, start: nat)
    requires start < |t.sizes|
    ensures Sum(Settled(t, start)) == Sum(t.sizes) + t.count
  {
    SumUpdate(t.sizes, start, t.sizes[start] + t.count);
  }

  /** The sizes after an exploration, with the count of new points added to the size of its start. */
  function Settled(t: Scan, start: nat): (sizes: seq<nat>)
    requires start < |t.sizes|
    ensures |sizes| == |t.sizes| && sizes[start] == t.sizes[start] + t.count
    ensures forall i :: 0 <= i < |sizes| && i != start ==> sizes[i] == t.sizes[i]
  {
    t.sizes[start := t.sizes[start] + t.count]
  }

  /** What the block keeps per cell and per id: the array, the lookup, the sizes, the right boundaries and the flags. */
  datatype Snapshot = Snapshot(grid: seq<seq<bool>>, lookup: seq<seq<nat>>, sizes: seq<nat>, rights: seq<seq<Gint>>, props: seq<bool>)

  /** The snapshot as the starting scan of an exploration, with nothing on the stack. */
  function Idle(m: Snapshot): Scan
  {
    Scan(m.grid, m.lookup, m.sizes, [], false, 0, [])
  }

  /**
   * The tables agree with each other: the array and lookup are laid out, the lookup names
   * size slots, one right boundary and flag per id, right boundaries hold points of the
   * right strip, and a propagated id has a right boundary.
   */
  ghost predicate Consistent(c: Ctx, m: Snapshot)
  {
    Shape(c, Idle(m)) && Labels(c, Idle(m)) &&
    |m.rights| == |m.sizes| && |m.props| == |m.sizes| &&
    (forall i :: 0 <= i < |m.rights| ==> RightOk(c, m.rights[i])) &&
    (forall i :: 0 <= i < |m.props| && m.props[i] ==> m.rights[i] != [])
  }

  /** The items exploreComponent pushes first (src/SegmentedMoat.cpp:196-202): the left component of start, or its right boundary. */
  function StartItems(c: Ctx, m: Snapshot, fromLeft: bool): seq<Gint>
  {
    if fromLeft then (if c.start < |c.left| then c.left[c.start] else [])
    else (if c.start < |m.rights| then m.rights[c.start] else [])
  }

  /** The right boundary the exploration extends: kept from a left start, cleared for a right start. */
  function StartBase(c: Ctx, m: Snapshot, fromLeft: bool): seq<Gint>
  {
    if fromLeft && c.start < |m.rights| then m.rights[c.start] else []
  }

  /** An exploration from c.start can begin on m: consistent tables and items that fit. */
  ghost predicate CanStep(c: Ctx, m: Snapshot, fromLeft: bool)
  {
    Consistent(c, m) && c.start < |m.sizes| && StartItems(c, m, fromLeft) != [] &&
    StackOk(c, m.lookup, StartItems(c, m, fromLeft))
  }

  /**
   * What an exploration from c.start does to the snapshot m, leaving r. The tables stay
   * consistent. The sizes plus the true cells right of the strip equal what they were plus
   * the items right of the strip (counted when popped), less the items' cells: nothing is
   * lost or counted twice. The size of start does not shrink; other ids keep their size or
   * are merged: zeroed, with their left points relabelled with start. Lookup cells are only
   * relabelled with start, cells only marked visited. Other ids keep their right boundary and
   * flag; the right boundary of start extends its base, and its flag records whether it
   * grew. Each item is visited, those of the right strip are in the right boundary of start,
   * and no jump step from a visited point leads to an unvisited cell of the octant part.
   */
  ghost predicate Explored(c: Ctx, m: Snapshot, r: Snapshot, fromLeft: bool, visited: seq<Gint>)
  {
    var items, base := StartItems(c, m, fromLeft), StartBase(c, m, fromLeft);
    Consistent(c, r) &&
    Sum(r.sizes) + |Out(c.L, r.grid)| == Sum(m.sizes) + Beyond(c.L, items) + |Out(c.L, ClearAll(m.grid, items))| &&
    |r.sizes| == |m.sizes| && c.start < |m.sizes| && r.sizes[c.start] >= m.sizes[c.start] &&
    (forall i :: 0 <= i < |m.sizes| && i != c.start ==>
      r.sizes[i] == m.sizes[i] || (r.sizes[i] == 0 && i < |c.left| && AllStart(c, r.lookup, c.left[i]))) &&
    Relabeled(c, m.lookup, r.lookup) && OM.SetCells(r.grid) <= OM.SetCells(m.grid) &&
    |r.rights| == |m.rights| && |r.props| == |m.props| &&
    (forall i :: 0 <= i < |m.rights| && i != c.start ==> r.rights[i] == m.rights[i]) &&
    (forall i :: 0 <= i < |m.props| && i != c.start ==> r.props[i] == m.props[i]) &&
    c.start < |r.rights| && |base| <= |r.rights[c.start]| && r.rights[c.start][..|base|] == base &&
    r.props[c.start] == (m.props[c.start] || |r.rights[c.start]| > |base|) &&
    (forall k :: 0 <= k < |items| ==> items[k] in visited) &&
    (forall k :: 0 <= k < |items| && items[k].a >= c.R ==> items[k] in r.rights[c.start]) &&
    Closed(c, r.grid, visited)
  }

  /** The snapshot an exploration stores: the count added to the size of start, and the right boundary and flag of start. */
  function Store(c: Ctx, m: Snapshot, t: Scan): Snapshot
    requires c.start < |t.sizes| && c.start < |m.rights| && c.start < |m.props|
  {
    Snapshot(t.grid, t.lookup, Settled(t, c.start), m.rights[c.start := t.right], m.props[c.start := t.propagated])
  }

  /**
   * exploreComponent (src/SegmentedMoat.cpp:194-251) on a snapshot: the items are marked
   * visited and drained by Explore, then the count of new points is added to the size of
   * start and the right boundary and flag of start are stored.
   */
  method Step(c: Ctx, m: Snapshot, fromLeft: bool) returns (r: Snapshot, ghost visited: seq<Gint>)
    requires CanStep(c, m, fromLeft)
    ensures Explored(c, m, r, fromLeft, visited)
    ensures forall path ::
      (|path| >= 1 && path[0] in StartItems(c, m, fromLeft) && Reaches(c, ClearAll(m.grid, StartItems(c, m, fromLeft)), path)) ==>
        path[|path| - 1] in visited
  {
    var items, base := StartItems(c, m, fromLeft), StartBase(c, m, fromLeft);
    var t;
    t, visited := Explore(c, m.grid, m.lookup, m.sizes, base, m.props[c.start], items);
    r := Store(c, m, t);
    StepExplored(c, m, fromLeft, t, visited);
    StepReaches(c, ClearAll(m.grid, items), r.grid, items, visited);
  }

  /** Everything reachable from the items through open cells is visited, once the visited points are closed and hold every marked cell. */
  lemma StepReaches(c: Ctx, g0: seq<seq<bool>>, g1: seq<seq<bool>>, items: seq<Gint>, visited: seq<Gint>)
    requires Closed(c, g1, visited) && (forall k :: 0 <= k < |items| ==> items[k] in visited)
    requires forall h :: IsSet(g0, h) && !IsSet(g1, h) ==> h in visited
    ensures forall path :: |path| >= 1 && path[0] in items && Reaches(c, g0, path) ==> path[|path| - 1] in visited
  {
    forall path | |path| >= 1 && path[0] in items && Reaches(c, g0, path)
      ensures path[|path| - 1] in visited
    {
      ReachedVisited(c, g0, g1, visited, path);
    }
  }

  /** What Explore ensures makes the stored snapshot an exploration's result. */
  lemma StepExplored(c: Ctx, m: Snapshot, fromLeft: bool, t: Scan, done: seq<Gint>)
    ensures
      (CanStep(c, m, fromLeft) && Layout(c, t) && t.stack == [] &&
       Follows(c, Scan(m.grid, m.lookup, m.sizes, StartBase(c, m, fromLeft), m.props[c.start], 0, StartItems(c, m, fromLeft)), t) &&
       Track(c, t, StartItems(c, m, fromLeft), done) &&
       Sum(Settled(t, c.start)) + |Out(c.L, t.grid)| ==
         Sum(m.sizes) + Beyond(c.L, StartItems(c, m, fromLeft)) + |Out(c.L, ClearAll(m.grid, StartItems(c, m, fromLeft)))|) ==>
      Explored(c, m, Store(c, m, t), fromLeft, done)
  {
    if CanStep(c, m, fromLeft) && Layout(c, t) && t.stack == [] &&
       Follows(c, Scan(m.grid, m.lookup, m.sizes, StartBase(c, m, fromLeft), m.props[c.start], 0, StartItems(c, m, fromLeft)), t) &&
       Track(c, t, StartItems(c, m, fromLeft), done) &&
       Sum(Settled(t, c.start)) + |Out(c.L, t.grid)| ==
         Sum(m.sizes) + Beyond(c.L, StartItems(c, m, fromLeft)) + |Out(c.L, ClearAll(m.grid, StartItems(c, m, fromLeft)))| {
      StepConsistent(c, m, fromLeft, t, Store(c, m, t));
    }
  }

  /** The snapshot stored after an exploration is consistent. */
  lemma StepConsistent(c: Ctx, m: Snapshot, fromLeft: bool, t: Scan, r: Snapshot)
    requires Consistent(c, m) && c.start < |m.sizes| && StartItems(c, m, fromLeft) != []
    requires Layout(c, t) && t.stack == []
    requires Follows(c, Scan(m.grid, m.lookup, m.sizes, StartBase(c, m, fromLeft), m.props[c.start], 0, StartItems(c, m, fromLeft)), t)
    requires forall k :: 0 <= k < |StartItems(c, m, fromLeft)| && StartItems(c, m, fromLeft)[k].a >= c.R ==> StartItems(c, m, fromLeft)[k] in t.right
    requires r == Snapshot(t.grid, t.lookup, Settled(t, c.start), m.rights[c.start := t.right], m.props[c.start := t.propagated])
    ensures Consistent(c, r)
  {
    if !fromLeft {
      var items := StartItems(c, m, fromLeft);
      assert RightOk(c, m.rights[c.start]);
      assert items[0].a >= c.R;
    }
  }

  /** Items inside the strip are not counted again, and marking them leaves the cells right of the strip alone. */
  lemma {:induction false} StripItems(L: int, grid: seq<seq<bool>>, items: seq<Gint>)
    requires forall k :: 0 <= k < |items| ==> items[k].a < L
    ensures Beyond(L, items) == 0 && Out(L, ClearAll(grid, items)) == Out(L, grid)
    decreases |items|
  {
    if items != [] {
      var n := |items| - 1;
      StripItems(L, grid, items[..n]);
      var g := ClearAll(grid, items[..n]);
      if Cell(g, items[n]) {
        OutClear(L, g, items[n]);
      }
    }
  }

  // ---------------------------------------------------------------------------
  // A block between explorations

  /**
   * The frame of a block: the left strip [0, L) and the right strip [R, dx) side by side,
   * a previous height previousdy that reaches the octant part x + a >= b of the left strip
   * and stays within the block, and a nonempty left boundary inside the left strip and
   * below previousdy.
   */
  ghost predicate Frame(c: Ctx, previousdy: nat)
  {
    c.L <= c.R <= c.dx && c.x + c.L <= previousdy <= c.dy && 1 <= |c.left| &&
    (forall i, k :: 0 <= i < |c.left| && 0 <= k < |c.left[i]| ==>
      0 <= c.left[i][k].a < c.L && 0 <= c.left[i][k].b < previousdy)
  }

  /**
   * The per-id tables: one size, right boundary and flag per id, at least one per left
   * component; a lookup with a column of height previousdy per strip column, naming ids;
   * right boundaries holding points of the right strip; and a right boundary for every
   * propagated id.
   */
  ghost predicate TablesOk(c: Ctx, previousdy: nat, lookup: seq<seq<nat>>, sizes: seq<nat>, rights: seq<seq<Gint>>, props: seq<bool>)
  {
    |c.left| <= |sizes| && |rights| == |sizes| && |props| == |sizes| &&
    |lookup| == c.L && (forall a :: 0 <= a < |lookup| ==> |lookup[a]| == previousdy) &&
    (forall a, b :: 0 <= a < |lookup| && 0 <= b < |lookup[a]| ==> lookup[a][b] < |sizes|) &&
    (forall i :: 0 <= i < |rights| ==> RightOk(c, rights[i])) &&
    (forall i :: 0 <= i < |props| && props[i] ==> rights[i] != [])
  }

  /**
   * A block at rest: its tables agree, its array has the block's shape, and an id without a
   * left component labels visited cells only.
   */
  ghost predicate AtRest(c: Ctx, previousdy: nat, m: Snapshot)
  {
    TablesOk(c, previousdy, m.lookup, m.sizes, m.rights, m.props) &&
    |m.grid| == c.dx && (forall a :: 0 <= a < |m.grid| ==> |m.grid[a]| == c.dy) &&
    Labels(c, Idle(m))
  }

  /** Every lookup cell names a left component. */
  ghost predicate LeftOnly(left: seq<seq<Gint>>, lookup: seq<seq<nat>>)
  {
    forall a, b :: 0 <= a < |lookup| && 0 <= b < |lookup[a]| ==> lookup[a][b] < |left|
  }

  /**
   * A block at rest can start an exploration from any id with items, provided a left
   * start comes from a lookup naming left components only.
   */
  lemma RestReady(c: Ctx, start: nat, previousdy: nat, m: Snapshot, fromLeft: bool)
    ensures (Frame(c, previousdy) && AtRest(c, previousdy, m) && start < |m.sizes| &&
             StartItems(c.(start := start), m, fromLeft) != [] && (fromLeft ==> start < |c.left| && LeftOnly(c.left, m.lookup))) ==>
      CanStep(c.(start := start), m, fromLeft)
  {
    var cs := c.(start := start);
    if Frame(c, previousdy) && AtRest(c, previousdy, m) && start < |m.sizes| &&
       StartItems(cs, m, fromLeft) != [] && (fromLeft ==> start < |c.left| && LeftOnly(c.left, m.lookup)) {
      forall i | 0 <= i < |m.rights|
        ensures RightOk(cs, m.rights[i])
      {
        assert RightOk(c, m.rights[i]);
      }
      assert Labels(cs, Idle(m)) by { assert Labels(c, Idle(m)); }
      if !fromLeft {
        assert RightOk(cs, m.rights[start]);
      }
    }
  }

  /**
   * An exploration leaves a block at rest, and keeps a lookup naming left components only
   * when it starts from a left component.
   */
  lemma StepRests(c: Ctx, start: nat, previousdy: nat, m: Snapshot, r: Snapshot, fromLeft: bool, visited: seq<Gint>)
    ensures (AtRest(c, previousdy, m) && Explored(c.(start := start), m, r, fromLeft, visited)) ==>
      AtRest(c, previousdy, r) &&
      (start < |c.left| && LeftOnly(c.left, m.lookup) ==> LeftOnly(c.left, r.lookup))
  {
    if AtRest(c, previousdy, m) && Explored(c.(start := start), m, r, fromLeft, visited) {
      RestAfter(c, start, previousdy, m, r);
    }
  }

  /** The part of StepRests that needs only the tables Explored promises for r. */
  lemma RestAfter(c: Ctx, start: nat, previousdy: nat, m: Snapshot, r: Snapshot)
    requires AtRest(c, previousdy, m) && Consistent(c.(start := start), r)
    requires |r.sizes| == |m.sizes| && Relabeled(c.(start := start), m.lookup, r.lookup)
    ensures AtRest(c, previousdy, r)
    ensures start < |c.left| && LeftOnly(c.left, m.lookup) ==> LeftOnly(c.left, r.lookup)
  {
    var cs := c.(start := start);
    forall i | 0 <= i < |r.rights|
      ensures RightOk(c, r.rights[i])
    {
      assert RightOk(cs, r.rights[i]);
    }
    assert Labels(c, Idle(r)) by { assert Labels(cs, Idle(r)); }
  }
}
