/**
 * The window [x, x + dx) x [y, y + dy) of the block sieves (src/BlockSieve.cpp and
 * src/BlockDonutSieve.cpp) and the cofactors c + di whose products with a small prime
 * g = a + bi land in it. Both crossOffMultiples compute the same bounds: c from
 * ceil((ax + by) / N(g)) to floor((a(x + dx - 1) + b(y + dy - 1)) / N(g)), and for each
 * c a range of d cut out by the four window inequalities. The bounds are exact: a
 * cofactor lies in them exactly when its product lies in the window.
 */
module BlockWindow {
  import opened GaussianInt
  import opened BaseSieve

  /** The corner x + yi and the side lengths dx and dy of a block. */
  datatype Window = Window(x: nat, y: nat, dx: nat, dy: nat)

  predicate InWindow(w: Window, r: Gint)
  {
    w.x <= r.a < w.x + w.dx && w.y <= r.b < w.y + w.dy
  }

  /** The point of cell (i, j) of a block's array: (x + i) + (y + j)i. */
  function PointAt(w: Window, i: int, j: int): Gint
  {
    Gint(w.x + i, w.y + j)
  }

  /**
   * The norm of the far corner (x + dx - 1) + (y + dy - 1)i: the largest norm in the
   * window (src/BlockDonutSieve.cpp:14).
   */
  function MaxNorm(w: Window): nat
  {
    Norm(Gint(w.x + w.dx - 1, w.y + w.dy - 1))
  }

  lemma SquareLeNat(s: int, t: int)
    requires 0 <= s <= t
    ensures s * s <= t * t
  {
    MulLe(s, s, t);
    MulLe(t, s, t);
  }

  /** Every point of the window has norm at most MaxNorm. */
  lemma WindowNorm(w: Window, r: Gint)
    requires InWindow(w, r)
    ensures Norm(r) <= MaxNorm(w)
  {
    SquareLeNat(r.a, w.x + w.dx - 1);
    SquareLeNat(r.b, w.y + w.dy - 1);
  }

  /**
   * Why the small primes only need norms up to isqrt(MaxNorm): a composite point of the
   * window is, up to units and conjugation, g h with both non-units and N(g) at most
   * isqrt(MaxNorm).
   */
  lemma {:induction false} WindowFactorBound(w: Window, r: Gint)
    requires InWindow(w, r)
    requires exists g, h :: Norm(g) >= 2 && Norm(h) >= 2 && SameClass(r, Mul(g, h))
    ensures exists g, h :: 2 <= Norm(g) <= IntSqrt(MaxNorm(w)) && Norm(h) >= 2 && SameClass(r, Mul(g, h))
  {
    var g, h :| Norm(g) >= 2 && Norm(h) >= 2 && SameClass(r, Mul(g, h));
    if Norm(g) > Norm(h) {
      MulCommutes(g, h);
      g, h := h, g;
    }
    SameClassNorm(r, Mul(g, h));
    MulNorm(g, h);
    WindowNorm(w, r);
    SmallerFactor(Norm(g), Norm(h), MaxNorm(w));
  }

  lemma MulCommutes(g: Gint, h: Gint)
    ensures Mul(g, h) == Mul(h, g)
  {
  }

  /** The smaller of two factors of a product at most M is at most isqrt(M). */
  lemma SmallerFactor(s: nat, t: nat, M: nat)
    requires s <= t && s * t <= M
    ensures s <= IntSqrt(M)
  {
    MulLe(s, s, t);
    IntSqrtGreatest(M, s);
  }

  // ---------------------------------------------------------------------------
  // Exact integer bounds

  /**
   * The ceiling of n / m for m > 0. crossOffMultiples writes it (n + m - 1) / m for
   * n >= 0 and ceil of a double quotient otherwise; under floor division the first
   * form is the exact ceiling for every sign of n.
   */
  function Ceil(n: int, m: int): int
    requires m > 0
  {
    (n + m - 1) / m
  }

  /** The floor of n / m for m > 0. */
  function Floor(n: int, m: int): int
    requires m > 0
  {
    n / m
  }

  lemma {:induction false} CeilLe(n: int, m: int, d: int)
    requires m > 0
    ensures Ceil(n, m) <= d <==> n <= m * d
  {
    var q, r := (n + m - 1) / m, (n + m - 1) % m;
    assert n + m - 1 == m * q + r && 0 <= r < m;
    if q <= d {
      MulLe(m, q, d);
    } else {
      MulLe(m, d + 1, q);
    }
  }

  lemma {:induction false} FloorGe(n: int, m: int, d: int)
    requires m > 0
    ensures d <= Floor(n, m) <==> m * d <= n
  {
    var q, r := n / m, n % m;
    assert n == m * q + r && 0 <= r < m;
    if d <= q {
      MulLe(m, d, q);
    } else {
      MulLe(m, q + 1, d);
    }
  }

  function Max(s: int, t: int): int
  {
    if s >= t then s else t
  }

  function Min(s: int, t: int): int
  {
    if s <= t then s else t
  }

  // ---------------------------------------------------------------------------
  // The cofactor ranges of crossOffMultiples

  /** g can be swept by a block sieve: a > 0 and b >= 0, as every small prime is. */
  predicate Sweeps(g: Gint)
  {
    g.a > 0 && g.b >= 0
  }

  lemma NormPositive(g: Gint)
    requires Sweeps(g)
    ensures Norm(g) > 0
  {
    MulLe(g.a, 1, g.a);
    SquareNonneg(g.b);
  }

  /** The first c (src/BlockSieve.cpp:64-70): ceil((ax + by) / N(g)), or ceil(x / a) when b = 0. */
  function CLow(w: Window, g: Gint): int
    requires Sweeps(g)
  {
    NormPositive(g);
    if g.b != 0 then Ceil(g.a * w.x + g.b * w.y, Norm(g)) else Ceil(w.x, g.a)
  }

  /** The last c: floor((a(x + dx - 1) + b(y + dy - 1)) / N(g)), or floor((x + dx - 1) / a) when b = 0. */
  function CHigh(w: Window, g: Gint): int
    requires Sweeps(g)
  {
    NormPositive(g);
    if g.b != 0 then Floor(g.a * (w.x + w.dx - 1) + g.b * (w.y + w.dy - 1), Norm(g))
    else Floor(w.x + w.dx - 1, g.a)
  }

  /**
   * The first d of column c (src/BlockSieve.cpp:73-84): the ceiling of the larger of
   * (ac - x - dx + 1) / b and (y - bc) / a, or ceil(y / a) when b = 0.
   */
  function DLow(w: Window, g: Gint, c: int): int
    requires Sweeps(g)
  {
    if g.b != 0 then Max(Ceil(g.a * c - w.x - w.dx + 1, g.b), Ceil(w.y - g.b * c, g.a))
    else Ceil(w.y, g.a)
  }

  /** The last d of column c: the floor of the smaller of (ac - x) / b and (y + dy - 1 - bc) / a, or floor((y + dy - 1) / a) when b = 0. */
  function DHigh(w: Window, g: Gint, c: int): int
    requires Sweeps(g)
  {
    if g.b != 0 then Min(Floor(g.a * c - w.x, g.b), Floor(w.y + w.dy - 1 - g.b * c, g.a))
    else Floor(w.y + w.dy - 1, g.a)
  }

  /** a u + b v = N(g) c for u + vi = g (c + di). */
  lemma ProjectProduct(g: Gint, h: Gint)
    ensures g.a * Mul(g, h).a + g.b * Mul(g, h).b == Norm(g) * h.a
  {
    var a, b, c, d := g.a, g.b, h.a, h.b;
    assert a * (a * c - b * d) + b * (b * c + a * d) == (a * a + b * b) * c;
  }

  /** Every product in the window has its c between CLow and CHigh. */
  lemma {:induction false} CRange(w: Window, g: Gint, h: Gint)
    requires Sweeps(g) && InWindow(w, Mul(g, h))
    ensures CLow(w, g) <= h.a <= CHigh(w, g)
  {
    NormPositive(g);
    var a, b, p := g.a, g.b, Mul(g, h);
    if b != 0 {
      ProjectProduct(g, h);
      MulLe(a, w.x, p.a);
      MulLe(a, p.a, w.x + w.dx - 1);
      MulLe(b, w.y, p.b);
      MulLe(b, p.b, w.y + w.dy - 1);
      CeilLe(a * w.x + b * w.y, Norm(g), h.a);
      FloorGe(a * (w.x + w.dx - 1) + b * (w.y + w.dy - 1), Norm(g), h.a);
    } else {
      assert p.a == a * h.a;
      CeilLe(w.x, a, h.a);
      FloorGe(w.x + w.dx - 1, a, h.a);
    }
  }

  /**
   * Within the c range, the d range of column c is exactly the set of d whose product
   * g (c + di) lies in the window.
   */
  lemma {:induction false} ColumnExact(w: Window, g: Gint, c: int, d: int)
    requires Sweeps(g) && CLow(w, g) <= c <= CHigh(w, g)
    ensures InWindow(w, Mul(g, Gint(c, d))) <==> DLow(w, g, c) <= d <= DHigh(w, g, c)
  {
    NormPositive(g);
    var a, b := g.a, g.b;
    var p := Mul(g, Gint(c, d));
    assert p.a == a * c - b * d && p.b == b * c + a * d;
    if b != 0 {
      CeilLe(a * c - w.x - w.dx + 1, b, d);
      FloorGe(a * c - w.x, b, d);
      CeilLe(w.y - b * c, a, d);
      FloorGe(w.y + w.dy - 1 - b * c, a, d);
    } else {
      CeilLe(w.x, a, c);
      FloorGe(w.x + w.dx - 1, a, c);
      CeilLe(w.y, a, d);
      FloorGe(w.y + w.dy - 1, a, d);
    }
  }
}
