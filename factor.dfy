/**
 * Factoring a composite Gaussian integer: a composite is exactly a product of two
 * non-units, it has a Gaussian prime factor of norm at most the square root of its
 * norm, and that factor can be turned into the first quadrant and, together with its
 * cofactor, folded into the octant the way the sieves fold their multiples. These are
 * the facts behind "every composite cell is cleared" for each sieve.
 */
module Factorization {
  import opened GaussianInt
  import opened BaseSieve
  import opened SieveGrid

  /** The units 1, i, -1 and -i. */
  predicate IsUnit(u: Gint)
  {
    u == Gint(1, 0) || u == Gint(0, 1) || u == Gint(-1, 0) || u == Gint(0, -1)
  }

  lemma MulComm(x: Gint, y: Gint)
    ensures Mul(x, y) == Mul(y, x)
  {
  }

  lemma {:induction false} MulAssoc(x: Gint, y: Gint, z: Gint)
    ensures Mul(Mul(x, y), z) == Mul(x, Mul(y, z))
  {
    var a, b, c, d, e, f := x.a, x.b, y.a, y.b, z.a, z.b;
    assert (a * c - b * d) * e - (b * c + a * d) * f == a * (c * e - d * f) - b * (d * e + c * f);
    assert (b * c + a * d) * e + (a * c - b * d) * f == b * (c * e - d * f) + a * (d * e + c * f);
  }

  lemma ConjMul(x: Gint, y: Gint)
    ensures Conj(Mul(x, y)) == Mul(Conj(x), Conj(y))
  {
  }

  lemma UnitNorm(u: Gint)
    requires IsUnit(u)
    ensures Norm(u) == 1
  {
  }

  /** An associate of a product g h is g' h for an associate g' of g. */
  lemma AssociateFactor(r: Gint, g: Gint, h: Gint) returns (g1: Gint)
    requires IsAssociate(r, Mul(g, h))
    ensures Mul(g1, h) == r && Norm(g1) == Norm(g)
  {
    var u: Gint;
    var x := Mul(g, h);
    if r == x {
      u := Gint(1, 0);
    } else if r == Gint(-x.b, x.a) {
      u := Gint(0, 1);
    } else if r == Gint(-x.a, -x.b) {
      u := Gint(-1, 0);
    } else {
      u := Gint(0, -1);
    }
    assert Mul(u, x) == r;
    MulAssoc(u, g, h);
    g1 := Mul(u, g);
    MulNorm(u, g);
  }

  /** A composite is exactly, not only up to units and conjugation, a product of two non-units. */
  lemma ExactFactors(r: Gint) returns (g: Gint, h: Gint)
    requires Composite(r)
    ensures Norm(g) >= 2 && Norm(h) >= 2 && Mul(g, h) == r
  {
    var g0, h0 :| Norm(g0) >= 2 && Norm(h0) >= 2 && SameClass(r, Mul(g0, h0));
    var c0, c1 := g0, h0;
    if !IsAssociate(r, Mul(g0, h0)) {
      ConjFactors(r, g0, h0);
      c0, c1 := Conj(g0), Conj(h0);
    }
    g := AssociateFactor(r, c0, c1);
    h := c1;
  }

  /** A point of the class of g h that is no associate of g h is an associate of conj(g) conj(h). */
  lemma ConjFactors(r: Gint, g: Gint, h: Gint)
    requires SameClass(r, Mul(g, h)) && !IsAssociate(r, Mul(g, h))
    ensures IsAssociate(r, Mul(Conj(g), Conj(h)))
    ensures Norm(Conj(g)) == Norm(g) && Norm(Conj(h)) == Norm(h)
  {
    ConjMul(g, h);
  }

  /** A unit times a composite is composite. */
  lemma UnitTimesComposite(u: Gint, x: Gint)
    requires IsUnit(u) && Composite(x)
    ensures Composite(Mul(u, x))
  {
    var g, h := ExactFactors(x);
    MulAssoc(u, g, h);
    UnitNorm(u);
    MulNorm(u, g);
    assert SameClass(Mul(u, x), Mul(Mul(u, g), h));
  }

  lemma FlipClass(r: Gint, p: Gint)
    requires SameClass(Flip(r), p)
    ensures SameClass(r, p)
  {
  }

  /** The flip of a composite is composite. */
  lemma FlipComposite(r: Gint)
    requires Composite(Flip(r))
    ensures Composite(r)
  {
    var g, h :| Norm(g) >= 2 && Norm(h) >= 2 && SameClass(Flip(r), Mul(g, h));
    FlipClass(r, Mul(g, h));
    assert SameClass(r, Mul(g, h));
  }

  /** A point and its flip are composite together. */
  lemma FlipCompositeIff(r: Gint)
    ensures Composite(r) <==> Composite(Flip(r))
  {
    FlipInvolution(r);
    if Composite(Flip(r)) {
      FlipComposite(r);
    }
    if Composite(r) {
      FlipComposite(Flip(r));
    }
  }

  /** A point a + ai of the diagonal with a >= 2 is (1 + i) a: composite. */
  lemma DiagonalComposite(p: Gint)
    requires p.a == p.b >= 2
    ensures Composite(p)
  {
    var g, h := Gint(1, 1), Gint(p.a, 0);
    assert Mul(g, h) == p;
    assert Norm(h) >= 2 by {
      MulLe(p.a, 2, p.a);
    }
    assert SameClass(p, Mul(g, h));
  }

  /**
   * A product r = g h with 2 <= N(g) <= N(h) is also p q with p a Gaussian prime and
   * 2 <= N(p) <= N(q): factor g again until its first factor is prime.
   */
  lemma {:induction false} PrimeFactorOf(r: Gint, g: Gint, h: Gint) returns (p: Gint, q: Gint)
    requires Mul(g, h) == r && 2 <= Norm(g) <= Norm(h)
    ensures Mul(p, q) == r && 2 <= Norm(p) <= Norm(q) && !Composite(p)
    decreases Norm(g)
  {
    if !Composite(g) {
      return g, h;
    }
    var g1, g2 := ExactFactors(g);
    if Norm(g1) > Norm(g2) {
      MulComm(g1, g2);
      g1, g2 := g2, g1;
    }
    RegroupFactor(g1, g2, h);
    p, q := PrimeFactorOf(r, g1, Mul(g2, h));
  }

  /** (g1 g2) h = g1 (g2 h), and g1 is a smaller first factor than g1 g2 and no larger than g2 h. */
  lemma RegroupFactor(g1: Gint, g2: Gint, h: Gint)
    requires 2 <= Norm(g1) <= Norm(g2) && Norm(Mul(g1, g2)) <= Norm(h)
    ensures Mul(Mul(g1, g2), h) == Mul(g1, Mul(g2, h))
    ensures Norm(g1) < Norm(Mul(g1, g2)) && Norm(g1) <= Norm(Mul(g2, h))
  {
    MulAssoc(g1, g2, h);
    MulNorm(g1, g2);
    MulNorm(g2, h);
    MulLe(Norm(g1), 2, Norm(g2));
    MulLe(1, 2, Norm(g2));
    MulLe(Norm(h), 1, Norm(g2));
  }

  /** Every composite r is p q for a Gaussian prime p with N(p)^2 <= N(r) and N(q) >= N(p). */
  lemma SmallPrimeFactor(r: Gint) returns (p: Gint, q: Gint)
    requires Composite(r)
    ensures Mul(p, q) == r && 2 <= Norm(p) <= Norm(q) && !Composite(p)
    ensures Norm(p) * Norm(p) <= Norm(p) * Norm(q) == Norm(r)
  {
    var g, h := ExactFactors(r);
    if Norm(g) > Norm(h) {
      MulComm(g, h);
      g, h := h, g;
    }
    p, q := PrimeFactorOf(r, g, h);
    MulNorm(p, q);
    MulLe(Norm(p), Norm(p), Norm(q));
  }

  /**
   * Turning a factorisation r = p q by a unit so that p lies in the first quadrant off
   * the imaginary axis: p = u p' and q' = u q.
   */
  lemma TurnFactor(p: Gint, q: Gint) returns (u: Gint, p1: Gint, q1: Gint)
    requires Norm(p) >= 1
    ensures IsUnit(u) && p == Mul(u, p1) && Mul(p1, q1) == Mul(p, q)
    ensures p1.a > 0 && p1.b >= 0 && Norm(p1) == Norm(p) && Norm(q1) == Norm(q)
  {
    var a, b, c, d := p.a, p.b, q.a, q.b;
    assert (-a) * (-a) == a * a && (-b) * (-b) == b * b;
    assert (-c) * (-c) == c * c && (-d) * (-d) == d * d;
    assert Mul(p, q) == Gint(a * c - b * d, b * c + a * d);
    if a > 0 && b >= 0 {
      u, p1, q1 := Gint(1, 0), p, q;
    } else if a <= 0 && b > 0 {
      u, p1, q1 := Gint(0, 1), Gint(b, -a), Gint(-d, c);
      assert b * (-d) - (-a) * c == a * c - b * d && (-a) * (-d) + b * c == b * c + a * d;
    } else if a < 0 && b <= 0 {
      u, p1, q1 := Gint(-1, 0), Gint(-a, -b), Gint(-c, -d);
      assert (-a) * (-c) - (-b) * (-d) == a * c - b * d && (-b) * (-c) + (-a) * (-d) == b * c + a * d;
    } else {
      u, p1, q1 := Gint(0, -1), Gint(-b, a), Gint(d, -c);
      assert (-b) * d - a * (-c) == a * c - b * d && a * d + (-b) * (-c) == b * c + a * d;
    }
  }

  /** Every composite r has a Gaussian prime factor p of the first quadrant, off the imaginary axis, with N(p)^2 <= N(r). */
  lemma FirstQuadrantPrimeFactor(r: Gint) returns (p: Gint, q: Gint)
    requires Composite(r)
    ensures Mul(p, q) == r && p.a > 0 && p.b >= 0 && !Composite(p)
    ensures 2 <= Norm(p) <= Norm(q) && Norm(p) * Norm(p) <= Norm(p) * Norm(q) == Norm(r)
  {
    var p0, q0 := SmallPrimeFactor(r);
    var u;
    u, p, q := TurnFactor(p0, q0);
    if Composite(p) {
      UnitTimesComposite(u, p);
    }
  }

  /** The fold sends every member of the class of an octant point r, in the upper half plane, to r. */
  lemma OctFoldClass(x: Gint, r: Gint)
    requires InOctant(r) && x.b >= 0 && SameClass(x, r)
    ensures OctFold(x) == r
  {
  }

  /** A product of two first-quadrant points lies in the upper half plane. */
  lemma UpperProduct(g: Gint, h: Gint)
    requires g.a >= 0 && g.b >= 0 && h.a >= 0 && h.b >= 0
    ensures Mul(g, h).b >= 0
  {
    assert g.b * h.a >= 0 && g.a * h.b >= 0;
  }

  /** A unit multiple of x is one of the four associates of x. */
  lemma UnitMultiple(v: Gint, x: Gint)
    requires IsUnit(v)
    ensures IsAssociate(Mul(v, x), x)
  {
  }

  /** Moving the unit of q = v q1 past p: p q = v (p q1). */
  lemma RegroupUnit(p: Gint, v: Gint, q1: Gint)
    ensures Mul(p, Mul(v, q1)) == Mul(v, Mul(p, q1))
  {
    MulComm(p, Mul(v, q1));
    MulAssoc(v, q1, p);
    MulComm(q1, p);
  }

  lemma RealTimesFlip(p: Gint, q: Gint)
    requires p.b == 0
    ensures Mul(p, Flip(q)) == Flip(Mul(p, q))
  {
  }

  /** flip(p) flip(q) = -conj(p q). */
  lemma FlipTimesFlip(p: Gint, q: Gint)
    ensures Mul(Flip(p), Flip(q)) == Gint(-Mul(p, q).a, Mul(p, q).b)
  {
  }

  /**
   * An octant point r = p q with p in the first quadrant is, after the fold, p h or
   * flip(p) h for h in the octant (1 <= h.a, 0 <= h.b <= h.a) with the norm of q: one
   * of the products the octant sieves' sweep of p or of its flip visits.
   */
  lemma OctantCofactor(p: Gint, q: Gint, r: Gint) returns (g: Gint, h: Gint)
    requires InOctant(r) && Mul(p, q) == r && p.a > 0 && p.b >= 0 && Norm(q) >= 1
    ensures g == p || (g == Flip(p) && p.b != 0)
    ensures 1 <= h.a && 0 <= h.b <= h.a && Norm(h) == Norm(q)
    ensures Mul(g, h).b >= 0 && OctFold(Mul(g, h)) == r
  {
    var v, q1, w := TurnFactor(q, p);
    RegroupUnit(p, v, q1);
    var x := Mul(p, q1);
    UnitMultiple(v, x);
    assert IsAssociate(r, x);
    var y: Gint;
    if q1.a >= q1.b {
      g, h, y := p, q1, x;
    } else if p.b == 0 {
      g, h, y := p, Flip(q1), Flip(x);
      RealTimesFlip(p, q1);
    } else {
      g, h, y := Flip(p), Flip(q1), Gint(-x.a, x.b);
      FlipTimesFlip(p, q1);
    }
    assert y == Mul(g, h);
    FoldImagesClass(x);
    AssociateClass(y, x, r);
    FlipInvolution(q1);
    UpperProduct(g, h);
    OctFoldClass(y, r);
  }

  /** x, its flip and -conj(x) are of one class. */
  lemma FoldImagesClass(x: Gint)
    ensures SameClass(x, x) && SameClass(Flip(x), x) && SameClass(Gint(-x.a, x.b), x)
  {
  }

  /** A member of the class of x is in the class of every associate of x. */
  lemma AssociateClass(y: Gint, x: Gint, r: Gint)
    requires SameClass(y, x) && IsAssociate(r, x)
    ensures SameClass(y, r)
  {
  }

  /**
   * A point r = p q of the first quadrant off the imaginary axis, with p in the first
   * quadrant, is p h turned back by the quadrant fold, for h in the first quadrant off the
   * imaginary axis with the norm of q: one of the products the quadrant sieve's sweep of
   * p visits.
   */
  lemma QuadrantCofactor(p: Gint, q: Gint, r: Gint) returns (h: Gint)
    requires r.a >= 1 && r.b >= 0 && Mul(p, q) == r && p.a > 0 && p.b >= 0 && Norm(q) >= 1
    ensures 1 <= h.a && 0 <= h.b && Norm(h) == Norm(q)
    ensures Mul(p, h).b >= 0 && QuadFold(Mul(p, h)) == r
  {
    var v, w;
    v, h, w := TurnFactor(q, p);
    RegroupUnit(p, v, h);
    var x := Mul(p, h);
    UnitMultiple(v, x);
    UpperProduct(p, h);
    RealAxisProduct(p, h);
  }

  /** A product of two first-quadrant points off the imaginary axis that lies on the real axis is positive. */
  lemma RealAxisProduct(p: Gint, h: Gint)
    requires p.a > 0 && p.b >= 0 && h.a >= 1 && h.b >= 0
    ensures Mul(p, h).b == 0 ==> Mul(p, h).a > 0
  {
    var x := Mul(p, h);
    assert x == Gint(p.a * h.a - p.b * h.b, p.b * h.a + p.a * h.b);
    assert p.b * h.a >= 0 && p.a * h.b >= 0;
    if x.b == 0 {
      assert p.b * h.a == 0 && p.a * h.b == 0;
      assert p.b == 0 && h.b == 0;
      assert p.a * h.a > 0;
    }
  }
}
