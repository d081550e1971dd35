/**
 * Gaussian integers a + bi (include/BaseSieve.hpp, struct gint): the norm, the
 * diagonal flip, addition, multiplication, the ordering used to sort sieve output,
 * and the folds that move a point into the first quadrant or the first octant
 * using units and conjugation.
 */
module GaussianInt {

  datatype Gint = Gint(a: int, b: int)

  const TWO_31: int := 0x8000_0000
  const TWO_32: int := 0x1_0000_0000
  const TWO_64: int := 0x1_0000_0000_0000_0000

  /** Both coordinates fit in an int32_t. */
  predicate IsInt32(g: Gint) {
    -TWO_31 <= g.a < TWO_31 && -TWO_31 <= g.b < TWO_31
  }

  lemma SquareNonneg(x: int)
    ensures x * x >= 0
  {
    if x < 0 {
      assert x * x == (-x) * (-x);
    }
  }

  /** The norm a^2 + b^2. */
  function Norm(g: Gint): nat
  {
    SquareNonneg(g.a);
    SquareNonneg(g.b);
    g.a * g.a + g.b * g.b
  }

  /** uint64_t(x) for an int32_t x: two's complement reinterpretation. */
  function U64(x: int): nat
    requires -TWO_31 <= x < TWO_31
  {
    if x < 0 then x + TWO_64 else x
  }

  /** norm() as the source computes it: every product and the sum are taken modulo 2^64. */
  function Norm64(g: Gint): nat
    requires IsInt32(g)
  {
    ((U64(g.a) * U64(g.a)) % TWO_64 + (U64(g.b) * U64(g.b)) % TWO_64) % TWO_64
  }

  lemma SquareBelow62(x: int)
    requires -TWO_31 <= x < TWO_31
    ensures 0 <= x * x <= 0x4000_0000_0000_0000
  {
    var y := if x < 0 then -x else x;
    assert x * x == y * y;
    MulLe(y, y, TWO_31);
    MulLe(TWO_31, y, TWO_31);
  }

  lemma MulLe(x: int, y: int, z: int)
    requires 0 <= x && y <= z
    ensures x * y <= x * z
  {
    assert x * z - x * y == x * (z - y);
  }

  lemma WrappedSquare(x: int)
    requires -TWO_31 <= x < TWO_31
    ensures (U64(x) * U64(x)) % TWO_64 == x * x
  {
    SquareBelow62(x);
    if x < 0 {
      var k := 2 * x + TWO_64;
      assert U64(x) * U64(x) == x * x + k * TWO_64;
      assert (x * x + k * TWO_64) % TWO_64 == x * x;
    }
  }

  /** The 64-bit norm of an int32 Gaussian integer never wraps: it is exactly a^2 + b^2. */
  lemma {:induction false} Norm64Exact(g: Gint)
    requires IsInt32(g)
    ensures Norm64(g) == Norm(g) && Norm(g) < TWO_64
  {
    WrappedSquare(g.a);
    WrappedSquare(g.b);
    SquareBelow62(g.a);
    SquareBelow62(g.b);
  }

  /** flip(): swap the real and imaginary parts (reflection in the line a = b). */
  function Flip(g: Gint): Gint
  {
    Gint(g.b, g.a)
  }

  /** A point of norm at least 2 is neither 1 nor i. */
  lemma NotUnit(p: Gint)
    requires Norm(p) >= 2
    ensures p != Gint(1, 0) && p != Gint(0, 1)
  {
  }

  /** Flipping twice gives back g, and flipping keeps the norm. */
  lemma FlipInvolution(g: Gint)
    ensures Flip(Flip(g)) == g && Norm(Flip(g)) == Norm(g)
  {
  }

  /** operator +: componentwise addition (the int32 overflow of the source is not modelled). */
  function Add(g: Gint, h: Gint): Gint
  {
    Gint(g.a + h.a, g.b + h.b)
  }

  /** Gaussian multiplication (a + bi)(c + di) = (ac - bd) + (bc + ad)i. */
  function Mul(g: Gint, h: Gint): Gint
  {
    Gint(g.a * h.a - g.b * h.b, g.b * h.a + g.a * h.b)
  }

  function Conj(g: Gint): Gint
  {
    Gint(g.a, -g.b)
  }

  /** operator <: by norm, and among equal norms the larger real part comes first. */
  predicate Less(g1: Gint, g2: Gint)
  {
    if Norm(g1) == Norm(g2) then g1.a > g2.a else Norm(g1) < Norm(g2)
  }

  /** The non-strict companion of Less used for sortedness: g1 is not after g2. */
  predicate LessEq(g1: Gint, g2: Gint)
  {
    !Less(g2, g1)
  }

  lemma SquareMonotone(x: int, y: int)
    requires 0 <= x < y
    ensures x * x < y * y
  {
    assert x * x <= x * y < y * y;
  }

  /**
   * On Gaussian integers with b >= 0 (the upper half plane, where every sieve
   * and moat keeps its points) Less is a strict total order: irreflexive,
   * transitive, and any two distinct values are related one way or the other.
   */
  lemma {:induction false} LessIsStrictTotalOrder(g1: Gint, g2: Gint, g3: Gint)
    requires g1.b >= 0 && g2.b >= 0
    ensures !Less(g1, g1)
    ensures Less(g1, g2) && Less(g2, g3) ==> Less(g1, g3)
    ensures Less(g1, g2) ==> !Less(g2, g1)
    ensures g1 != g2 ==> Less(g1, g2) || Less(g2, g1)
  {
    if g1 != g2 && Norm(g1) == Norm(g2) && g1.a == g2.a {
      assert g1.b * g1.b == g2.b * g2.b;
      if g1.b < g2.b {
        SquareMonotone(g1.b, g2.b);
      } else if g2.b < g1.b {
        SquareMonotone(g2.b, g1.b);
      }
    }
  }

  /** LessEq is a total preorder on all Gaussian integers, which is what sorting needs. */
  lemma LessEqTotalPreorder(g1: Gint, g2: Gint, g3: Gint)
    ensures LessEq(g1, g2) || LessEq(g2, g1)
    ensures LessEq(g1, g2) && LessEq(g2, g3) ==> LessEq(g1, g3)
  {
  }

  /** The multiplicativity of the norm, N(gh) = N(g) N(h). */
  lemma {:induction false} MulNorm(g: Gint, h: Gint)
    ensures Norm(Mul(g, h)) == Norm(g) * Norm(h)
  {
    var a, b, c, d := g.a, g.b, h.a, h.b;
    calc {
      Norm(Mul(g, h));
      (a * c - b * d) * (a * c - b * d) + (b * c + a * d) * (b * c + a * d);
      { assert (a * c - b * d) * (a * c - b * d) == a * c * (a * c) - 2 * (a * c) * (b * d) + b * d * (b * d);
        assert (b * c + a * d) * (b * c + a * d) == b * c * (b * c) + 2 * (b * c) * (a * d) + a * d * (a * d);
        assert (a * c) * (b * d) == (b * c) * (a * d); }
      a * c * (a * c) + b * d * (b * d) + b * c * (b * c) + a * d * (a * d);
      { assert a * c * (a * c) + b * c * (b * c) == (a * a + b * b) * (c * c);
        assert b * d * (b * d) + a * d * (a * d) == (a * a + b * b) * (d * d); }
      (a * a + b * b) * (c * c) + (a * a + b * b) * (d * d);
      (a * a + b * b) * (c * c + d * d);
    }
  }

  /** p times the conjugate of g: the numerator of the quotient p / g. */
  function TimesConj(p: Gint, g: Gint): Gint
  {
    Mul(p, Conj(g))
  }

  /** g divides p in Z[i]: p * conj(g) is a multiple of N(g) in both coordinates. */
  predicate Divides(g: Gint, p: Gint)
  {
    Norm(g) > 0 && TimesConj(p, g).a % Norm(g) == 0 && TimesConj(p, g).b % Norm(g) == 0
  }

  /** The quotient p / g when g divides p. */
  function Cofactor(g: Gint, p: Gint): Gint
    requires Norm(g) > 0
  {
    Gint(TimesConj(p, g).a / Norm(g), TimesConj(p, g).b / Norm(g))
  }

  lemma MulConj(g: Gint, h: Gint)
    ensures TimesConj(Mul(g, h), g) == Gint(Norm(g) * h.a, Norm(g) * h.b)
  {
    var a, b, c, d := g.a, g.b, h.a, h.b;
    assert (a * c - b * d) * a + (b * c + a * d) * b == (a * a + b * b) * c;
    assert (b * c + a * d) * a - (a * c - b * d) * b == (a * a + b * b) * d;
  }

  lemma MulGivesCofactor(g: Gint, h: Gint)
    requires Norm(g) > 0
    ensures Divides(g, Mul(g, h)) && Cofactor(g, Mul(g, h)) == h
  {
    var n := Norm(g);
    MulConj(g, h);
    DivExact(n, h.a);
    DivExact(n, h.b);
  }

  /** Exact division: n k leaves no remainder and has quotient k. */
  lemma DivExact(n: int, k: int)
    requires n > 0
    ensures (n * k) % n == 0 && (n * k) / n == k
  {
    var q, r := (n * k) / n, (n * k) % n;
    assert n * (k - q) == r;
    if k - q >= 1 {
      MulLe(n, 1, k - q);
    } else if k - q <= -1 {
      MulLe(n, k - q, -1);
    }
  }

  /** Cancellation of a positive factor. */
  lemma Cancel(n: int, x: int, y: int)
    requires n > 0 && n * x == n * y
    ensures x == y
  {
    assert n * (x - y) == 0;
    if x - y >= 1 {
      MulLe(n, 1, x - y);
    } else if x - y <= -1 {
      MulLe(n, x - y, -1);
    }
  }

  lemma GTimesConj(g: Gint, p: Gint)
    ensures Mul(g, TimesConj(p, g)) == Gint(Norm(g) * p.a, Norm(g) * p.b)
  {
    var a, b, c, d := g.a, g.b, p.a, p.b;
    var t := TimesConj(p, g);
    assert t.a == c * a + d * b && t.b == d * a - c * b;
    assert a * (c * a + d * b) - b * (d * a - c * b) == (a * a + b * b) * c;
    assert b * (c * a + d * b) + a * (d * a - c * b) == (a * a + b * b) * d;
  }

  lemma ScaledMul(g: Gint, h: Gint, n: int)
    ensures Mul(g, Gint(n * h.a, n * h.b)) == Gint(n * Mul(g, h).a, n * Mul(g, h).b)
  {
    var a, b, c, d := g.a, g.b, h.a, h.b;
    assert a * (n * c) - b * (n * d) == n * (a * c - b * d);
    assert b * (n * c) + a * (n * d) == n * (b * c + a * d);
  }

  lemma CofactorGivesMul(g: Gint, p: Gint)
    requires Divides(g, p)
    ensures Mul(g, Cofactor(g, p)) == p
  {
    var n := Norm(g);
    var h := Cofactor(g, p);
    var t := TimesConj(p, g);
    assert t == Gint(n * h.a, n * h.b);
    GTimesConj(g, p);
    ScaledMul(g, h, n);
    var m := Mul(g, h);
    Cancel(n, m.a, p.a);
    Cancel(n, m.b, p.b);
  }

  /**
   * p = g h exactly when g divides p with quotient h: the sieves' "is a multiple of g"
   * and the cofactor loops describe the same points.
   */
  lemma {:induction false} MulIffCofactor(g: Gint, h: Gint, p: Gint)
    requires Norm(g) > 0
    ensures Mul(g, h) == p <==> Divides(g, p) && Cofactor(g, p) == h
  {
    if Mul(g, h) == p {
      MulGivesCofactor(g, h);
    }
    if Divides(g, p) && Cofactor(g, p) == h {
      CofactorGivesMul(g, p);
    }
  }

  /** The associates of p (u p for the four units u) and those of its conjugate. */
  predicate IsAssociate(r: Gint, p: Gint)
  {
    r == p || r == Gint(-p.b, p.a) || r == Gint(-p.a, -p.b) || r == Gint(p.b, -p.a)
  }

  predicate SameClass(r: Gint, p: Gint)
  {
    IsAssociate(r, p) || IsAssociate(r, Conj(p))
  }

  /** Points of one class have the same norm. */
  lemma SameClassNorm(r: Gint, p: Gint)
    requires SameClass(r, p)
    ensures Norm(r) == Norm(p)
  {
    assert (-p.a) * (-p.a) == p.a * p.a && (-p.b) * (-p.b) == p.b * p.b;
  }

  predicate InOctant(g: Gint)
  {
    0 <= g.b <= g.a
  }

  /**
   * The fold of the octant sieves (src/OctantSieve.cpp:86-98): a point of the upper
   * half plane is moved into the first octant by a unit and possibly conjugation.
   */
  function OctFold(p: Gint): (r: Gint)
    requires p.b >= 0
    ensures InOctant(r)
  {
    if p.a > 0 then
      if p.a >= p.b then p else Gint(p.b, p.a)
    else
      if p.b >= -p.a then Gint(p.b, -p.a) else Gint(-p.a, p.b)
  }

  /** The fold only applies a unit and possibly conjugation, so it keeps the norm and the class. */
  lemma OctFoldKeepsClass(p: Gint)
    requires p.b >= 0
    ensures Norm(OctFold(p)) == Norm(p) && SameClass(OctFold(p), p)
  {
  }

  /** The octant cell of a first-quadrant point: g itself or its flip. */
  function OctIndex(g: Gint): (r: Gint)
    requires g.a >= 0 && g.b >= 0
    ensures InOctant(r) && Norm(r) == Norm(g) && (r == g || r == Flip(g))
  {
    if g.a >= g.b then g else Flip(g)
  }

  /**
   * The fold of the quadrant sieve (src/QuadrantSieve.cpp:49-53): a point with u <= 0
   * is multiplied by -i, which keeps it in the first quadrant.
   */
  function QuadFold(p: Gint): (r: Gint)
    requires p.b >= 0
    ensures r.a >= 0 && r.b >= 0 && Norm(r) == Norm(p)
    ensures r == p || r == Mul(p, Gint(0, -1))
  {
    if p.a > 0 then p else Gint(p.b, -p.a)
  }
}
