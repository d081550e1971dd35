/**
 * The octant moat explorer (src/OctantMoat.cpp). An octant sieve marks the Gaussian
 * primes of the first octant up to a norm bound; a depth-first search with an explicit
 * stack then walks from prime to prime by steps of length at most the jump size,
 * clearing each visited cell so that it is entered once. The component of the origin
 * either stays inside the norm bound (a moat was found) or punches through it.
 *
 * The jump neighbours are defined here once and shared with the segmented moat.
 */
module OctantMoat {
  import opened GaussianInt
  import opened BaseSieve
  import opened SieveGrid
  import Oct = OctantSieve

  // ---------------------------------------------------------------------------
  // Jump neighbours (setNearestNeighbors)

  /** int32_t(x): the conversion truncates toward zero. */
  function Trunc(x: real): int
  {
    if x >= 0.0 then x.Floor else -((-x).Floor)
  }

  /** The first integer not below x, where a loop `u < x` over integers stops. */
  function End(x: real): int
  {
    if (x.Floor as real) == x then x.Floor else x.Floor + 1
  }

  lemma EndMeans(x: real, u: int)
    ensures (u as real) < x <==> u < End(x)
  {
  }

  function Abs(n: int): nat
  {
    if n < 0 then -n else n
  }

  /**
   * The test of setNearestNeighbors (src/OctantMoat.cpp:50): u^2 + v^2 at most js^2,
   * not both zero, and |u| and |v| of the same parity.
   */
  predicate Admits(js: real, u: int, v: int)
  {
    ((u * u + v * v) as real) <= js * js && (u != 0 || v != 0) && Abs(u) % 2 == Abs(v) % 2
  }

  /** The admitted steps (u, w) for -int(js) <= w < v, in loop order. */
  function RowTo(js: real, u: int, v: int): seq<Gint>
    decreases v + Trunc(js)
  {
    if v <= -Trunc(js) then []
    else RowTo(js, u, v - 1) + (if Admits(js, u, v - 1) then [Gint(u, v - 1)] else [])
  }

  /** The admitted steps of the rows -int(js) <= w < u, row by row. */
  function RowsTo(js: real, u: int): seq<Gint>
    decreases u + Trunc(js)
  {
    if u <= -Trunc(js) then []
    else RowsTo(js, u - 1) + RowTo(js, u - 1, End(js))
  }

  /** The list setNearestNeighbors builds: u, then v, from -int(js) while below js. */
  function Neighbors(js: real): seq<Gint>
  {
    RowsTo(js, End(js))
  }

  lemma {:induction false} RowToMembers(js: real, u: int, v: int, q: Gint)
    ensures q in RowTo(js, u, v) <==> q.a == u && -Trunc(js) <= q.b < v && Admits(js, q.a, q.b)
    decreases v + Trunc(js)
  {
    if v > -Trunc(js) {
      RowToMembers(js, u, v - 1, q);
    }
  }

  lemma {:induction false} RowsToMembers(js: real, u: int, q: Gint)
    ensures q in RowsTo(js, u) <==>
      -Trunc(js) <= q.a < u && -Trunc(js) <= q.b < End(js) && Admits(js, q.a, q.b)
    decreases u + Trunc(js)
  {
    if u > -Trunc(js) {
      RowsToMembers(js, u - 1, q);
      RowToMembers(js, u - 1, End(js), q);
    }
  }

  /** The steps are exactly the admitted (u, v) with -int(js) <= u, v < js. */
  lemma NeighborsMembers(js: real, q: Gint)
    ensures q in Neighbors(js) <==>
      -Trunc(js) <= q.a && (q.a as real) < js && -Trunc(js) <= q.b && (q.b as real) < js &&
      Admits(js, q.a, q.b)
  {
    RowsToMembers(js, End(js), q);
    EndMeans(js, q.a);
    EndMeans(js, q.b);
  }

  lemma SquareBound(n: int, js: real)
    requires js >= 0.0 && ((n * n) as real) <= js * js
    ensures (Abs(n) as real) <= js
  {
    var k := Abs(n);
    assert k * k == n * n;
    SquaresOrdered(k as real, js);
  }

  lemma SquaresOrdered(x: real, y: real)
    requires x >= 0.0 && y >= 0.0
    ensures x * x <= y * y ==> x <= y
  {
    if x > y {
      PositiveProduct(x - y, x + y);
      assert (x - y) * (x + y) == x * x - y * y;
    }
  }

  lemma PositiveProduct(s: real, t: real)
    requires s > 0.0 && t > 0.0
    ensures s * t > 0.0
  {
  }

  lemma FloorBound(n: nat, js: real)
    requires (n as real) <= js
    ensures n <= js.Floor
  {
  }

  /**
   * When the tolerant jump size js is not a whole number, the loop bounds cut nothing
   * off: the steps are exactly the non-zero (u, v) of one parity with u^2 + v^2 <= js^2.
   */
  lemma NeighborsExact(js: real, q: Gint)
    requires js >= 0.0 && (js.Floor as real) != js
    ensures q in Neighbors(js) <==> Admits(js, q.a, q.b)
  {
    NeighborsMembers(js, q);
    if Admits(js, q.a, q.b) {
      assert (q.a * q.a) as real <= js * js && (q.b * q.b) as real <= js * js by {
        assert q.a * q.a >= 0 && q.b * q.b >= 0;
      }
      SquareBound(q.a, js);
      SquareBound(q.b, js);
      FloorBound(Abs(q.a), js);
      FloorBound(Abs(q.b), js);
    }
  }

  /** For such js the step set is symmetric: -q is a step whenever q is. */
  lemma NeighborsSymmetric(js: real, q: Gint)
    requires js >= 0.0 && (js.Floor as real) != js && q in Neighbors(js)
    ensures Gint(-q.a, -q.b) in Neighbors(js)
  {
    var r := Gint(-q.a, -q.b);
    NeighborsExact(js, q);
    NeighborsExact(js, r);
    assert r.a * r.a + r.b * r.b == q.a * q.a + q.b * q.b;
    assert Abs(r.a) == Abs(q.a) && Abs(r.b) == Abs(q.b);
    assert Admits(js, r.a, r.b);
  }

  /**
   * When js is a whole number the loops `u < js` drop the positive extreme but keep the
   * negative one: at js = 2, -2 is a step and 2 is not.
   */
  lemma NeighborsLopsided()
    ensures Gint(-2, 0) in Neighbors(2.0) && Gint(2, 0) !in Neighbors(2.0)
  {
    NeighborsMembers(2.0, Gint(-2, 0));
    NeighborsMembers(2.0, Gint(2, 0));
  }

  /**
   * A step keeps the parity of a + b: from an odd prime (a + b odd) the search never
   * reaches 1 + i, which is why 1 + i is seeded by hand from the origin.
   */
  lemma StepKeepsParity(js: real, p: Gint, q: Gint)
    requires q in Neighbors(js)
    ensures (Add(p, q).a + Add(p, q).b) % 2 == (p.a + p.b) % 2
  {
    NeighborParity(js, q);
    SameParitySum(q.a, q.b);
    EvenShift(p.a + p.b, q.a + q.b);
  }

  /** Both coordinates of a step have the same parity. */
  lemma NeighborParity(js: real, q: Gint)
    requires q in Neighbors(js)
    ensures Abs(q.a) % 2 == Abs(q.b) % 2
  {
    NeighborsMembers(js, q);
  }

  lemma SameParitySum(u: int, v: int)
    requires Abs(u) % 2 == Abs(v) % 2
    ensures (u + v) % 2 == 0
  {
    AbsParity(u);
    AbsParity(v);
    var k, l := u / 2, v / 2;
    assert u + v == 2 * (k + l) + u % 2 + v % 2;
  }

  lemma AbsParity(n: int)
    ensures Abs(n) % 2 == n % 2
  {
    var k := n / 2;
    assert n == 2 * k + n % 2;
    if n < 0 {
      assert -n == 2 * (-k - n % 2) + n % 2;
    }
  }

  lemma EvenShift(s: int, t: int)
    requires t % 2 == 0
    ensures (s + t) % 2 == s % 2
  {
    var k := t / 2;
    assert t == 2 * k;
    assert s + t == 2 * (s / 2 + k) + s % 2;
  }

  // ---------------------------------------------------------------------------
  // The array as the search sees it

  /** sieveArray[g.a][g.b] = false. */
  function Clear(grid: seq<seq<bool>>, g: Gint): (r: seq<seq<bool>>)
    requires Cell(grid, g)
    ensures |r| == |grid| && forall a :: 0 <= a < |r| ==> |r[a]| == |grid[a]|
  {
    grid[g.a := grid[g.a][g.b := false]]
  }

  lemma ClearCells(grid: seq<seq<bool>>, g: Gint, r: Gint)
    requires Cell(grid, g)
    ensures Cell(Clear(grid, g), r) == Cell(grid, r)
    ensures IsSet(Clear(grid, g), r) <==> IsSet(grid, r) && r != g
  {
  }

  /** The true cells. */
  ghost function SetCells(grid: seq<seq<bool>>): set<Gint>
  {
    set a, b | 0 <= a < |grid| && 0 <= b < |grid[a]| && grid[a][b] :: Gint(a, b)
  }

  lemma SetCellsMeans(grid: seq<seq<bool>>, r: Gint)
    ensures r in SetCells(grid) <==> IsSet(grid, r)
  {
    if IsSet(grid, r) {
      assert Gint(r.a, r.b) == r;
    }
  }

  /** Clearing a true cell removes exactly that point from the true cells. */
  lemma ClearShrinks(grid: seq<seq<bool>>, g: Gint)
    requires IsSet(grid, g)
    ensures |SetCells(Clear(grid, g))| == |SetCells(grid)| - 1
  {
    forall r
      ensures r in SetCells(Clear(grid, g)) <==> r in SetCells(grid) - {g}
    {
      SetCellsMeans(Clear(grid, g), r);
      SetCellsMeans(grid, r);
      ClearCells(grid, g, r);
    }
    assert SetCells(Clear(grid, g)) == SetCells(grid) - {g};
    SetCellsMeans(grid, g);
  }

  // ---------------------------------------------------------------------------
  // What exploreComponent promises

  function Sub(g: Gint, h: Gint): Gint
  {
    Gint(g.a - h.a, g.b - h.b)
  }

  /** The component starts with these points (src/OctantMoat.cpp:65-80). */
  function Seeds(start: Gint, js: real): seq<Gint>
  {
    if start != Gint(0, 0) then [start]
    else if js > 0.0 && js * js > 2.0 then [Gint(1, 1), Gint(2, 1)]
    else []
  }

  /** 1 + i, seeded from the origin: its neighbours are never explored. */
  predicate Exempt(start: Gint, p: Gint)
  {
    start == Gint(0, 0) && p == Gint(1, 1)
  }

  /** Exactly the component's cells changed, each to false. */
  ghost predicate Cleared(g0: seq<seq<bool>>, g1: seq<seq<bool>>, comp: seq<Gint>)
  {
    forall r :: IsSet(g1, r) <==> IsSet(g0, r) && r !in comp
  }

  /** Every member is an octant point within the norm bound. */
  ghost predicate InBound(m: nat, comp: seq<Gint>)
  {
    forall k :: 0 <= k < |comp| ==> InOctant(comp[k]) && Norm(comp[k]) <= m
  }

  /** Member k is one step away from an earlier member. */
  ghost predicate Linked(nn: seq<Gint>, comp: seq<Gint>, k: int)
    requires 0 <= k < |comp|
  {
    exists j :: 0 <= j < k && Sub(comp[k], comp[j]) in nn
  }

  /** The component is the seeds, then points that were true, each a step from an earlier member. */
  ghost predicate Grown(g0: seq<seq<bool>>, nn: seq<Gint>, seeds: seq<Gint>, comp: seq<Gint>)
  {
    |seeds| <= |comp| && comp[..|seeds|] == seeds &&
    forall k :: |seeds| <= k < |comp| ==> IsSet(g0, comp[k]) && Linked(nn, comp, k)
  }

  /** g has been dealt with: its cell, if it has one, is false; from the origin g is also within the bound. */
  ghost predicate Settled(start: Gint, m: nat, grid: seq<seq<bool>>, g: Gint)
  {
    (InOctant(g) && Norm(g) <= m ==> !IsSet(grid, g)) && (start == Gint(0, 0) ==> Norm(g) <= m)
  }

  /** Every neighbour of p has been dealt with. */
  ghost predicate Closed(start: Gint, m: nat, grid: seq<seq<bool>>, nn: seq<Gint>, p: Gint)
  {
    forall q :: q in nn ==> Settled(start, m, grid, Add(p, q))
  }

  /** The state of the search: the array, the component and the stack agree. */
  ghost predicate Core(m: nat, g0: seq<seq<bool>>, g1: seq<seq<bool>>, nn: seq<Gint>, seeds: seq<Gint>,
                       comp: seq<Gint>, stack: seq<Gint>)
  {
    Oct.Shaped(m, g1) && Cleared(g0, g1, comp) && InBound(m, comp) && Distinct(comp) &&
    Grown(g0, nn, seeds, comp) && Distinct(stack) && (forall s :: s in stack ==> s in comp)
  }

  /** Members off the stack, other than 1 + i from the origin and than skip, are closed. */
  ghost predicate ClosedOff(start: Gint, m: nat, g1: seq<seq<bool>>, nn: seq<Gint>, comp: seq<Gint>,
                            stack: seq<Gint>, skip: Option<Gint>)
  {
    forall p :: p in comp && p !in stack && skip != Some(p) && !Exempt(start, p) ==> Closed(start, m, g1, nn, p)
  }

  /**
   * A finished search from start: the component of start in the graph of true cells
   * joined by steps in nn, cleared from the array.
   */
  ghost predicate Explored(m: nat, g0: seq<seq<bool>>, g1: seq<seq<bool>>, nn: seq<Gint>, start: Gint,
                           js: real, comp: seq<Gint>)
  {
    Core(m, g0, g1, nn, Seeds(start, js), comp, []) && ClosedOff(start, m, g1, nn, comp, [], None)
  }

  // ---------------------------------------------------------------------------
  // The search, on values

  /** Pushing a true neighbour g = p + q keeps the search state. */
  lemma {:induction false} PushKeeps(m: nat, g0: seq<seq<bool>>, g1: seq<seq<bool>>, nn: seq<Gint>, seeds: seq<Gint>,
                                     comp: seq<Gint>, stack: seq<Gint>, start: Gint, p: Gint, q: Gint)
    requires Core(m, g0, g1, nn, seeds, comp, stack) && ClosedOff(start, m, g1, nn, comp, stack, Some(p))
    requires p in comp && q in nn && InOctant(Add(p, q)) && Norm(Add(p, q)) <= m && IsSet(g1, Add(p, q))
    ensures Core(m, g0, Clear(g1, Add(p, q)), nn, seeds, comp + [Add(p, q)], stack + [Add(p, q)])
    ensures ClosedOff(start, m, Clear(g1, Add(p, q)), nn, comp + [Add(p, q)], stack + [Add(p, q)], Some(p))
    ensures forall x :: Settled(start, m, g1, x) ==> Settled(start, m, Clear(g1, Add(p, q)), x)
    ensures !IsSet(Clear(g1, Add(p, q)), Add(p, q))
  {
    var g := Add(p, q);
    var g2, comp2, stack2 := Clear(g1, g), comp + [g], stack + [g];
    forall r
      ensures IsSet(g2, r) <==> IsSet(g1, r) && r != g
    {
      ClearCells(g1, g, r);
    }
    assert g !in comp;
    var j :| 0 <= j < |comp| && comp[j] == p;
    assert Sub(comp2[|comp|], comp2[j]) == q;
    forall k | |seeds| <= k < |comp2|
      ensures IsSet(g0, comp2[k]) && Linked(nn, comp2, k)
    {
      if k < |comp| {
        var i :| 0 <= i < k && Sub(comp[k], comp[i]) in nn;
        assert comp2[k] == comp[k] && comp2[i] == comp[i];
      }
    }
    assert comp2[..|seeds|] == comp[..|seeds|];
    forall x | x in comp2 && x !in stack2 && Some(p) != Some(x) && !Exempt(start, x)
      ensures Closed(start, m, g2, nn, x)
    {
      assert x in comp && x !in stack;
      forall q' | q' in nn
        ensures Settled(start, m, g2, Add(x, q'))
      {
        assert Settled(start, m, g1, Add(x, q'));
      }
    }
  }

  lemma PopKeeps(m: nat, g0: seq<seq<bool>>, g1: seq<seq<bool>>, nn: seq<Gint>, seeds: seq<Gint>,
                 comp: seq<Gint>, stack: seq<Gint>, start: Gint)
    requires Core(m, g0, g1, nn, seeds, comp, stack) && ClosedOff(start, m, g1, nn, comp, stack, None) && stack != []
    ensures Core(m, g0, g1, nn, seeds, comp, stack[..|stack| - 1])
    ensures ClosedOff(start, m, g1, nn, comp, stack[..|stack| - 1], Some(stack[|stack| - 1]))
    ensures stack[|stack| - 1] in comp && stack[|stack| - 1] !in stack[..|stack| - 1]
  {
    var rest, p := stack[..|stack| - 1], stack[|stack| - 1];
    assert forall s :: s in rest ==> s in stack;
    forall x | x in comp && x !in rest && Some(p) != Some(x) && !Exempt(start, x)
      ensures Closed(start, m, g1, nn, x)
    {
      assert x !in stack;
    }
  }

  lemma CloseP(m: nat, g1: seq<seq<bool>>, nn: seq<Gint>, comp: seq<Gint>, stack: seq<Gint>, start: Gint, p: Gint)
    requires ClosedOff(start, m, g1, nn, comp, stack, Some(p))
    requires forall k :: 0 <= k < |nn| ==> Settled(start, m, g1, Add(p, nn[k]))
    ensures ClosedOff(start, m, g1, nn, comp, stack, None)
  {
    forall x | x in comp && x !in stack && !Exempt(start, x)
      ensures Closed(start, m, g1, nn, x)
    {
      if x == p {
        forall q | q in nn
          ensures Settled(start, m, g1, Add(p, q))
        {
          var k :| 0 <= k < |nn| && nn[k] == q;
        }
      }
    }
  }

  /**
   * The neighbour loop of exploreComponent (src/OctantMoat.cpp:86-103) for the popped
   * point p: each true octant neighbour within the bound is appended to the component,
   * cleared, then pushed. From the origin, a neighbour beyond the bound ends the search.
   */
  method Visit(m: nat, ghost g0: seq<seq<bool>>, grid: seq<seq<bool>>, nn: seq<Gint>, ghost seeds: seq<Gint>,
               comp: seq<Gint>, stack: seq<Gint>, start: Gint, p: Gint)
    returns (g1: seq<seq<bool>>, comp1: seq<Gint>, stack1: seq<Gint>, escaped: bool)
    requires Core(m, g0, grid, nn, seeds, comp, stack) && ClosedOff(start, m, grid, nn, comp, stack, Some(p))
    requires p in comp && p !in stack
    ensures Core(m, g0, g1, nn, seeds, comp1, stack1) && p in comp1
    ensures |stack1| + |SetCells(g1)| == |stack| + |SetCells(grid)|
    ensures !escaped ==> ClosedOff(start, m, g1, nn, comp1, stack1, None)
    ensures escaped ==> start == Gint(0, 0) && exists q :: q in nn && Norm(Add(p, q)) > m
  {
    g1, comp1, stack1, escaped := grid, comp, stack, false;
    var i := 0;
    while i < |nn|
      invariant 0 <= i <= |nn|
      invariant Core(m, g0, g1, nn, seeds, comp1, stack1) && ClosedOff(start, m, g1, nn, comp1, stack1, Some(p))
      invariant p in comp1 && p !in stack1
      invariant |stack1| + |SetCells(g1)| == |stack| + |SetCells(grid)|
      invariant forall k :: 0 <= k < i ==> Settled(start, m, g1, Add(p, nn[k]))
    {
      var g := Add(p, nn[i]);
      if Norm(g) <= m {
        if g.a >= 0 && g.b >= 0 && g.b <= g.a {
          Oct.CellInGrid(m, g1, g);
          if g1[g.a][g.b] {
            PushKeeps(m, g0, g1, nn, seeds, comp1, stack1, start, p, nn[i]);
            ClearShrinks(g1, g);
            comp1 := comp1 + [g];
            g1 := Clear(g1, g);
            stack1 := stack1 + [g];
          }
        }
      } else if start == Gint(0, 0) {
        escaped := true;
        return;
      }
      i := i + 1;
    }
    CloseP(m, g1, nn, comp1, stack1, start, p);
  }

  /**
   * The loop of exploreComponent (src/OctantMoat.cpp:83-113): pop the last point and
   * visit its neighbours, until the stack is empty or the origin's search escapes.
   */
  method Search(m: nat, ghost g0: seq<seq<bool>>, grid: seq<seq<bool>>, nn: seq<Gint>, ghost seeds: seq<Gint>,
                comp: seq<Gint>, stack: seq<Gint>, start: Gint)
    returns (g1: seq<seq<bool>>, comp1: seq<Gint>, escaped: bool)
    requires Core(m, g0, grid, nn, seeds, comp, stack) && ClosedOff(start, m, grid, nn, comp, stack, None)
    ensures Core(m, g0, g1, nn, seeds, comp1, [])
    ensures !escaped ==> ClosedOff(start, m, g1, nn, comp1, [], None)
    ensures escaped ==> start == Gint(0, 0) && exists p, q :: p in comp1 && q in nn && Norm(Add(p, q)) > m
  {
    g1, comp1, escaped := grid, comp, false;
    var toExplore := stack;
    while toExplore != []
      invariant Core(m, g0, g1, nn, seeds, comp1, toExplore) && ClosedOff(start, m, g1, nn, comp1, toExplore, None)
      decreases |toExplore| + |SetCells(g1)|
    {
      var p := toExplore[|toExplore| - 1];
      PopKeeps(m, g0, g1, nn, seeds, comp1, toExplore, start);
      toExplore := toExplore[..|toExplore| - 1];
      var e;
      g1, comp1, toExplore, e := Visit(m, g0, g1, nn, seeds, comp1, toExplore, start, p);
      if e {
        escaped := true;
        return;
      }
    }
  }

  /** Seeding exploreComponent (src/OctantMoat.cpp:59-80): a prime start, or 1 + i and 2 + i from the origin. */
  method Seed(m: nat, grid: seq<seq<bool>>, nn: seq<Gint>, start: Gint, js: real)
    returns (g1: seq<seq<bool>>, comp: seq<Gint>, stack: seq<Gint>)
    requires Oct.Shaped(m, grid) && m >= 5
    requires start == Gint(0, 0) || (InOctant(start) && Norm(start) <= m)
    ensures comp == Seeds(start, js)
    ensures Core(m, grid, g1, nn, comp, comp, stack) && ClosedOff(start, m, g1, nn, comp, stack, None)
  {
    g1, comp, stack := grid, [], [];
    if start.a != 0 || start.b != 0 {
      Oct.CellInGrid(m, grid, start);
      stack := [start];
      comp := [start];
      g1 := Clear(grid, start);
      forall r
        ensures IsSet(g1, r) <==> IsSet(grid, r) && r !in comp
      {
        ClearCells(grid, start, r);
      }
    } else if js > 0.0 && js * js > 2.0 {
      var one, two := Gint(1, 1), Gint(2, 1);
      Oct.CellInGrid(m, grid, one);
      Oct.CellInGrid(m, grid, two);
      comp := [one, two];
      var mid := Clear(grid, one);
      g1 := Clear(mid, two);
      stack := [two];
      forall r
        ensures IsSet(g1, r) <==> IsSet(grid, r) && r !in comp
      {
        ClearCells(grid, one, r);
        ClearCells(mid, two, r);
      }
    }
    assert comp[..|comp|] == comp;
  }

  // ---------------------------------------------------------------------------
  // The component as a graph

  /** Consecutive points of the path differ by a step. */
  ghost predicate Walk(nn: seq<Gint>, path: seq<Gint>)
  {
    path != [] && forall k :: 1 <= k < |path| ==> Sub(path[k], path[k - 1]) in nn
  }

  /** Every point of the path after the first is a true octant cell within the bound. */
  ghost predicate Open(m: nat, grid: seq<seq<bool>>, path: seq<Gint>)
  {
    forall k :: 1 <= k < |path| ==> IsSet(grid, path[k]) && InOctant(path[k]) && Norm(path[k]) <= m
  }

  /** Every member is reached from a seed by a walk over true cells through members. */
  lemma {:induction false} MemberPath(m: nat, g0: seq<seq<bool>>, nn: seq<Gint>, seeds: seq<Gint>,
                                      comp: seq<Gint>, k: int) returns (path: seq<Gint>)
    requires InBound(m, comp) && Grown(g0, nn, seeds, comp) && 0 <= k < |comp|
    ensures Walk(nn, path) && Open(m, g0, path) && path[0] in seeds && path[|path| - 1] == comp[k]
    ensures forall x :: x in path ==> x in comp
    decreases k
  {
    if k < |seeds| {
      assert comp[..|seeds|][k] == comp[k];
      path := [comp[k]];
    } else {
      var j :| 0 <= j < k && Sub(comp[k], comp[j]) in nn;
      var pre := MemberPath(m, g0, nn, seeds, comp, j);
      path := pre + [comp[k]];
      forall i | 1 <= i < |path|
        ensures Sub(path[i], path[i - 1]) in nn
      {
        if i < |pre| {
          assert path[i] == pre[i] && path[i - 1] == pre[i - 1];
        }
      }
      forall x | x in path
        ensures x in comp
      {
        if x != comp[k] {
          assert x in pre;
        }
      }
    }
  }

  /** One step from a member other than 1 + i onto a true octant cell within the bound lands in the component. */
  lemma StepInComponent(m: nat, g0: seq<seq<bool>>, g1: seq<seq<bool>>, nn: seq<Gint>, start: Gint, js: real,
                        comp: seq<Gint>, p: Gint, g: Gint)
    requires Explored(m, g0, g1, nn, start, js, comp)
    requires p in comp && !Exempt(start, p) && Sub(g, p) in nn
    requires IsSet(g0, g) && InOctant(g) && Norm(g) <= m
    ensures g in comp
  {
    assert Add(p, Sub(g, p)) == g;
    assert Closed(start, m, g1, nn, p);
    assert Settled(start, m, g1, g);
  }

  lemma {:induction false} PathPrefixIn(m: nat, g0: seq<seq<bool>>, g1: seq<seq<bool>>, nn: seq<Gint>,
                                        start: Gint, js: real, comp: seq<Gint>, path: seq<Gint>, n: nat)
    requires Explored(m, g0, g1, nn, start, js, comp)
    requires Walk(nn, path) && Open(m, g0, path) && path[0] in comp
    requires forall k :: 0 <= k < |path| - 1 ==> !Exempt(start, path[k])
    requires 1 <= n <= |path|
    ensures path[n - 1] in comp
    decreases n
  {
    if n > 1 {
      PathPrefixIn(m, g0, g1, nn, start, js, comp, path, n - 1);
      StepInComponent(m, g0, g1, nn, start, js, comp, path[n - 2], path[n - 1]);
    }
  }

  /**
   * Conversely, a finished search leaves nothing reachable outside the component: a walk
   * over true cells of the octant within the bound, starting at a member and not passing
   * through 1 + i from the origin, stays in the component.
   */
  lemma PathInComponent(m: nat, g0: seq<seq<bool>>, g1: seq<seq<bool>>, nn: seq<Gint>,
                        start: Gint, js: real, comp: seq<Gint>, path: seq<Gint>)
    requires Explored(m, g0, g1, nn, start, js, comp)
    requires Walk(nn, path) && Open(m, g0, path) && path[0] in comp
    requires forall k :: 0 <= k < |path| - 1 ==> !Exempt(start, path[k])
    ensures forall x :: x in path ==> x in comp
  {
    forall x | x in path
      ensures x in comp
    {
      var k :| 0 <= k < |path| && path[k] == x;
      PathPrefixIn(m, g0, g1, nn, start, js, comp, path, k + 1);
    }
  }

  // ---------------------------------------------------------------------------
  // Components of the whole array (exploreAllComponents)

  /** The components laid end to end. */
  function Flatten(comps: seq<seq<Gint>>): seq<Gint>
  {
    if comps == [] then [] else Flatten(comps[..|comps| - 1]) + comps[|comps| - 1]
  }

  lemma FlattenAppend(comps: seq<seq<Gint>>, c: seq<Gint>)
    ensures Flatten(comps + [c]) == Flatten(comps) + c
  {
    assert (comps + [c])[..|comps|] == comps;
  }

  /**
   * The components found so far are disjoint, their points are no longer true, and
   * together with the true cells they are exactly the cells that were true in g0.
   */
  ghost predicate Partitioned(g0: seq<seq<bool>>, g1: seq<seq<bool>>, comps: seq<seq<Gint>>)
  {
    Distinct(Flatten(comps)) &&
    (forall r :: r in Flatten(comps) ==> !IsSet(g1, r)) &&
    (forall r :: IsSet(g0, r) <==> IsSet(g1, r) || r in Flatten(comps))
  }

  /** Clearing one more component, all of whose points were true, extends the partition. */
  lemma PartitionStep(g0: seq<seq<bool>>, gb: seq<seq<bool>>, ga: seq<seq<bool>>, comps: seq<seq<Gint>>, comp: seq<Gint>)
    requires Partitioned(g0, gb, comps) && Cleared(gb, ga, comp) && Distinct(comp)
    requires forall x :: x in comp ==> IsSet(gb, x)
    ensures Partitioned(g0, ga, comps + [comp])
  {
    FlattenAppend(comps, comp);
    DistinctConcat(Flatten(comps), comp);
  }

  /** A search from a true cell only collects cells that were true. */
  lemma MembersWereSet(m: nat, g0: seq<seq<bool>>, g1: seq<seq<bool>>, nn: seq<Gint>, start: Gint, comp: seq<Gint>)
    requires Core(m, g0, g1, nn, [start], comp, []) && IsSet(g0, start)
    ensures comp != [] && comp[0] == start
    ensures forall x :: x in comp ==> IsSet(g0, x)
  {
    assert comp[..1] == [start];
    forall x | x in comp
      ensures IsSet(g0, x)
    {
      var k :| 0 <= k < |comp| && comp[k] == x;
      if k == 0 {
        assert x == start;
      } else {
        assert Grown(g0, nn, [start], comp) && 1 <= k;
      }
    }
  }

  lemma DistinctCard(s: seq<Gint>)
    requires Distinct(s)
    ensures |set x | x in s| == |s|
    decreases |s|
  {
    if s != [] {
      var t := s[..|s| - 1];
      DistinctCard(t);
      assert (set x | x in s) == (set x | x in t) + {s[|s| - 1]};
    }
  }

  /** Each cell of a shaped array is an octant point within the bound. */
  lemma CellMeans(m: nat, grid: seq<seq<bool>>, r: Gint)
    requires Oct.Shaped(m, grid) && Cell(grid, r)
    ensures InOctant(r) && Norm(r) <= m
  {
    Oct.ShapeExact(m, r.a, r.b);
  }

  /** The true cells of a sieved array are octant points of norm between 2 and m. */
  lemma SievedCells(m: nat, r: Gint)
    requires m >= 2
    ensures IsSet(Oct.Sieved(m), r) ==> InOctant(r) && 2 <= Norm(r) <= m
  {
    Oct.SmallPrimeListValid(m);
    Oct.SieveWithMonotone(Oct.InitialGrid(m), m, Oct.SmallPrimeList(m), r);
    Oct.InitialGridCells(m, r);
  }

  /** max_element's test: mixed transitivity of the gint order. */
  lemma LessAfterLessEq(x: Gint, y: Gint, z: Gint)
    requires LessEq(x, y) && Less(y, z)
    ensures Less(x, z)
  {
  }

  // ---------------------------------------------------------------------------
  // The class

  /** pow(10, -3), added to the jump size to absorb rounding in the distance test. */
  const Tolerance: real := 0.001

  /**
   * The norm bound for a jump size, from the tables of Tsuchimura (src/OctantMoat.cpp:18-34);
   * None for jump sizes of 5 or more, where the constructor exits.
   */
  function NormBoundFor(j: real): (r: Option<nat>)
    ensures r.None? <==> j >= 5.0
    ensures r.Some? ==> r.value >= 3000
  {
    if j < 2.1 then Some(3000)
    else if j < 3.0 then Some(10000)
    else if j < 4.0 then Some(1100000)
    else if j < 4.2 then Some(20000000)
    else if j < 4.4 then Some(116000000)
    else if j < 5.0 then Some(17900000000)
    else None
  }

  /** A larger jump never gets a smaller norm bound. */
  lemma NormBoundMonotone(j1: real, j2: real)
    requires j1 <= j2 < 5.0
    ensures NormBoundFor(j1).value <= NormBoundFor(j2).value
  {
  }

  /** The inner loop of setNearestNeighbors (src/OctantMoat.cpp:46-53): the admitted steps of row u. */
  method AdmittedRow(js: real, u: int) returns (row: seq<Gint>)
    ensures row == RowTo(js, u, End(js))
  {
    var lo := -Trunc(js);
    row := [];
    var v := lo;
    while (v as real) < js
      invariant lo <= v && (v <= End(js) || v == lo)
      invariant row == RowTo(js, u, v)
      decreases End(js) - v
    {
      EndMeans(js, v);
      if Admits(js, u, v) {
        row := row + [Gint(u, v)];
      }
      v := v + 1;
    }
    EndMeans(js, v);
    assert RowTo(js, u, v) == RowTo(js, u, End(js));
  }

  /**
   * The outer loop of setNearestNeighbors (src/OctantMoat.cpp:44-55), which
   * SegmentedMoat::setStatics repeats: the admitted steps of the rows -int(js) <= u < js.
   */
  method AdmittedSteps(js: real) returns (steps: seq<Gint>)
    ensures steps == Neighbors(js)
  {
    var lo := -Trunc(js);
    var u := lo;
    steps := [];
    while (u as real) < js
      invariant lo <= u && (u <= End(js) || u == lo)
      invariant steps == RowsTo(js, u)
      decreases End(js) - u
    {
      EndMeans(js, u);
      var row := AdmittedRow(js, u);
      steps := steps + row;
      u := u + 1;
    }
    EndMeans(js, u);
    assert RowsTo(js, u) == RowsTo(js, End(js));
  }

  /**
   * all keeps the components listed before, prefix, and its later components are
   * non-empty and partition the cells that went from true in g0 to false in g1.
   */
  ghost predicate Extends(all: seq<seq<Gint>>, prefix: seq<seq<Gint>>, g0: seq<seq<bool>>, g1: seq<seq<bool>>)
  {
    |all| >= |prefix| && all[..|prefix|] == prefix && Partitioned(g0, g1, all[|prefix|..]) &&
    forall i :: |prefix| <= i < |all| ==> all[i] != []
  }

  /** What exploring one more true cell start does to the list of components and the partition. */
  lemma ComponentStep(m: nat, nn: seq<Gint>, all: seq<seq<Gint>>, prefix: seq<seq<Gint>>, g0: seq<seq<bool>>,
                      gb: seq<seq<bool>>, ga: seq<seq<bool>>, start: Gint, comp: seq<Gint>)
    requires Extends(all, prefix, g0, gb) && IsSet(gb, start) && Core(m, gb, ga, nn, [start], comp, [])
    ensures Extends(all + [comp], prefix, g0, ga)
    ensures forall r :: IsSet(ga, r) ==> IsSet(gb, r) && r != start
  {
    MembersWereSet(m, gb, ga, nn, start, comp);
    PartitionStep(g0, gb, ga, all[|prefix|..], comp);
    assert (all + [comp])[|prefix|..] == all[|prefix|..] + [comp];
    assert (all + [comp])[..|prefix|] == all[..|prefix|];
  }

  class OctantMoat {
    const jumpSize: real
    const normBound: nat
    var sieveArray: seq<seq<bool>>
    var nearestNeighbors: seq<Gint>
    var currentComponent: seq<Gint>
    var allComponents: seq<seq<Gint>>

    /** The array has its shape, its true cells are non-units, and the current component has no repeats. */
    ghost predicate Valid()
      reads this
    {
      normBound >= 5 && Oct.Shaped(normBound, sieveArray) &&
      (forall r :: IsSet(sieveArray, r) ==> Norm(r) >= 2) && Distinct(currentComponent)
    }

    /**
     * The constructor (src/OctantMoat.cpp:9-41) for a jump size below 5: the tolerant jump
     * size, the norm bound of the table, the octant sieve run to that bound, and the steps.
     */
    constructor (js: real)
      requires js < 5.0
      ensures jumpSize == js + Tolerance && normBound == NormBoundFor(js).value
      ensures sieveArray == Oct.Sieved(normBound) && nearestNeighbors == Neighbors(jumpSize)
      ensures currentComponent == [] && allComponents == []
      ensures Valid()
    {
      jumpSize := js + Tolerance;
      normBound := NormBoundFor(js).value;
      sieveArray := [];
      nearestNeighbors := [];
      currentComponent := [];
      allComponents := [];
      new;
      sieveArray := SieveOctant(normBound);
      SetNearestNeighbors();
    }

    /** The octant sieve of the constructor: run to the norm bound, its array taken. */
    static method SieveOctant(m: nat) returns (grid: seq<seq<bool>>)
      requires m >= 2
      ensures grid == Oct.Sieved(m) && Oct.Shaped(m, grid)
      ensures forall r :: IsSet(grid, r) ==> InOctant(r) && 2 <= Norm(r) <= m
    {
      var o := new Oct.OctantSieve(m);
      o.Run();
      grid := o.sieveArray;
      forall r | IsSet(grid, r)
        ensures InOctant(r) && 2 <= Norm(r) <= m
      {
        SievedCells(m, r);
      }
    }

    /** The constructor with its exit: None exactly for jump sizes of 5 or more. */
    static method Create(js: real) returns (r: Option<OctantMoat>)
      ensures r.None? <==> js >= 5.0
      ensures r.Some? ==> fresh(r.value) && r.value.Valid() && r.value.jumpSize == js + Tolerance
      ensures r.Some? ==> r.value.nearestNeighbors == Neighbors(js + Tolerance)
      ensures r.Some? ==> r.value.sieveArray == Oct.Sieved(r.value.normBound)
    {
      if js >= 5.0 {
        return None;
      }
      var moat := new OctantMoat(js);
      r := Some(moat);
    }

    /**
     * setNearestNeighbors (src/OctantMoat.cpp:44-55): u, then v, from -int(jumpSize) while
     * below jumpSize, keeping the admitted steps.
     */
    method SetNearestNeighbors()
      modifies this`nearestNeighbors
      ensures nearestNeighbors == old(nearestNeighbors) + Neighbors(jumpSize)
    {
      var steps := AdmittedSteps(jumpSize);
      nearestNeighbors := nearestNeighbors + steps;
    }

    /**
     * exploreComponent (src/OctantMoat.cpp:58-115) from a + bi, zero or an octant point
     * within the bound. The component found is the seeds followed by every true cell
     * reachable from them, each cleared; from the origin, escaped reports the exit taken
     * when a step leaves the norm bound, and its absence means a moat was found.
     */
    method ExploreComponent(a: int, b: int) returns (escaped: bool)
      requires Valid()
      requires Gint(a, b) == Gint(0, 0) || (InOctant(Gint(a, b)) && Norm(Gint(a, b)) <= normBound)
      modifies this`sieveArray, this`currentComponent
      ensures Valid()
      ensures Core(normBound, old(sieveArray), sieveArray, nearestNeighbors, Seeds(Gint(a, b), jumpSize), currentComponent, [])
      ensures !escaped ==> Explored(normBound, old(sieveArray), sieveArray, nearestNeighbors, Gint(a, b), jumpSize, currentComponent)
      ensures !escaped && a == 0 && b == 0 ==> (forall p, q ::
        p in currentComponent && p != Gint(1, 1) && q in nearestNeighbors ==> Norm(Add(p, q)) <= normBound)
      ensures escaped ==> a == 0 && b == 0 && (exists p, q ::
        p in currentComponent && q in nearestNeighbors && Norm(Add(p, q)) > normBound)
    {
      var start := Gint(a, b);
      ghost var g0 := sieveArray;
      var grid, comp, stack := Seed(normBound, sieveArray, nearestNeighbors, start, jumpSize);
      grid, comp, escaped := Search(normBound, g0, grid, nearestNeighbors, comp, comp, stack, start);
      sieveArray := grid;
      currentComponent := comp;
      if !escaped && a == 0 && b == 0 {
        forall p, q | p in currentComponent && p != Gint(1, 1) && q in nearestNeighbors
          ensures Norm(Add(p, q)) <= normBound
        {
          assert Closed(start, normBound, sieveArray, nearestNeighbors, p);
        }
      }
    }

    /** getComponentSize (src/OctantMoat.cpp:117-119): the number of distinct points of the component. */
    method GetComponentSize() returns (size: nat)
      requires Valid()
      ensures size == |currentComponent| && size == |set x | x in currentComponent|
    {
      DistinctCard(currentComponent);
      size := |currentComponent|;
    }

    /**
     * getComponentMaxElement (src/OctantMoat.cpp:121-123): max_element under operator <,
     * which is a largest point and, among equals, the first.
     */
    method GetComponentMaxElement() returns (r: Gint)
      requires currentComponent != []
      ensures r in currentComponent
      ensures forall x :: x in currentComponent ==> LessEq(x, r)
      ensures exists i :: 0 <= i < |currentComponent| && currentComponent[i] == r &&
               (forall k :: 0 <= k < i ==> Less(currentComponent[k], r))
    {
      var best := 0;
      var k := 1;
      while k < |currentComponent|
        invariant 0 <= best < k <= |currentComponent|
        invariant forall j :: 0 <= j < k ==> LessEq(currentComponent[j], currentComponent[best])
        invariant forall j :: 0 <= j < best ==> Less(currentComponent[j], currentComponent[best])
      {
        if Less(currentComponent[best], currentComponent[k]) {
          forall j | 0 <= j < k
            ensures Less(currentComponent[j], currentComponent[k])
          {
            LessAfterLessEq(currentComponent[j], currentComponent[best], currentComponent[k]);
          }
          best := k;
        }
        k := k + 1;
      }
      r := currentComponent[best];
    }

    /**
     * exploreAllComponents (src/OctantMoat.cpp:148-157): every true cell, column by column,
     * starts a component, which is appended to allComponents. Afterwards no cell is true
     * and the new components partition the cells that were.
     */
    method ExploreAllComponents()
      requires Valid()
      modifies this`sieveArray, this`currentComponent, this`allComponents
      ensures Valid()
      ensures forall r :: !IsSet(sieveArray, r)
      ensures Extends(allComponents, old(allComponents), old(sieveArray), sieveArray)
    {
      ghost var g0 := sieveArray;
      ghost var prefix := allComponents;
      assert allComponents[|prefix|..] == [];
      var u := 0;
      while u < |sieveArray|
        invariant Valid() && 0 <= u <= |sieveArray| == |g0|
        invariant Extends(allComponents, prefix, g0, sieveArray)
        invariant forall r :: IsSet(sieveArray, r) ==> r.a >= u
      {
        ExploreColumn(u, g0, prefix);
        u := u + 1;
      }
    }

    /** The inner loop of exploreAllComponents (src/OctantMoat.cpp:150-155) over column u. */
    method ExploreColumn(u: nat, ghost g0: seq<seq<bool>>, ghost prefix: seq<seq<Gint>>)
      requires Valid() && u < |sieveArray| == |g0|
      requires Extends(allComponents, prefix, g0, sieveArray)
      requires forall r :: IsSet(sieveArray, r) ==> r.a >= u
      modifies this`sieveArray, this`currentComponent, this`allComponents
      ensures Valid() && |sieveArray| == |g0|
      ensures Extends(allComponents, prefix, g0, sieveArray)
      ensures forall r :: IsSet(sieveArray, r) ==> r.a > u
    {
      var v := 0;
      while v < |sieveArray[u]|
        invariant Valid() && |sieveArray| == |g0|
        invariant Extends(allComponents, prefix, g0, sieveArray)
        invariant forall r :: IsSet(sieveArray, r) ==> r.a > u || (r.a == u && r.b >= v)
      {
        if sieveArray[u][v] {
          var start := Gint(u, v);
          assert IsSet(sieveArray, start);
          CellMeans(normBound, sieveArray, start);
          ghost var gb := sieveArray;
          assert Seeds(start, jumpSize) == [start];
          var e := ExploreComponent(u, v);
          ComponentStep(normBound, nearestNeighbors, allComponents, prefix, g0, gb, sieveArray, start, currentComponent);
          allComponents := allComponents + [currentComponent];
        }
        v := v + 1;
      }
    }
  }
}
