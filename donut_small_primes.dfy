/**
 * The small primes the octant donut sieve sweeps with come from an octant sieve of
 * radius isqrt(maxNorm) (src/OctantDonutSieve.cpp:52-63). Its crossOffMultiples skips
 * every g of norm at most 5 and reads g's own bit, which exists only when g is
 * coprime to 10. This module shows that the octant sieve's survivors of norm above 5
 * are coprime to 10: the sweeps of 1 + i, 2 + i and 1 + 2i have removed the rest.
 */
module DonutSmallPrimes {
  import opened GaussianInt
  import opened BaseSieve
  import opened SieveGrid
  import opened DonutTables
  import Oct = OctantSieve

  /** p h = q, where q is r, its flip or i times r, folds onto r with the norm of r. */
  lemma FactorFolds(r: Gint, p: Gint, h: Gint, q: Gint)
    requires InOctant(r) && p.a >= 0 && p.b >= 0 && h.a >= 0 && h.b >= 0 && Mul(p, h) == q
    requires q == r || q == Gint(r.b, r.a) || q == Gint(-r.b, r.a)
    ensures Oct.ProductCellOf(p, h) == r && Norm(p) * Norm(h) == Norm(r)
  {
    FoldBack(r, q);
    MulNorm(p, h);
    assert Oct.ProductCellOf(p, h) == OctFold(q);
  }

  /** r, its flip and i times r fold back onto r, with the norm of r. */
  lemma FoldBack(r: Gint, q: Gint)
    requires InOctant(r) && (q == r || q == Gint(r.b, r.a) || q == Gint(-r.b, r.a))
    ensures q.b >= 0 && OctFold(q) == r && Norm(q) == Norm(r)
  {
    assert (-r.b) * (-r.b) == r.b * r.b;
  }

  lemma NormAtLeastFive(h: Gint)
    requires h.a >= 2 && h.b >= 0 && (h.b >= 1 || h.a >= 3)
    ensures Norm(h) >= 5
  {
    if h.b >= 1 {
      SquareLe(2, h.a);
      SquareLe(1, h.b);
    } else {
      SquareLe(3, h.a);
    }
  }

  /** The cofactor of 1 + i: (1 + i) h = b + ai. */
  lemma HalfCofactor(a: int, b: int) returns (h: Gint)
    requires 0 <= b <= a && (a + b) % 2 == 0 && Gint(a, b) != Gint(1, 1) && a > 0
    ensures 1 <= h.a && 0 <= h.b <= h.a && h != Gint(1, 0) && Mul(Gint(1, 1), h) == Gint(b, a)
  {
    var s := (a + b) / 2;
    assert 2 * s == a + b;
    h := Gint(s, s - b);
  }

  /** The cofactor when 2 + i divides a + bi: a + bi or b + ai is p h with h in the octant. */
  lemma FifthCofactor(a: int, b: int) returns (p: Gint, h: Gint, q: Gint)
    requires 0 <= b <= a && (a + b) % 2 == 1 && (2 * a + b) % 5 == 0 && Gint(a, b) != Gint(2, 1)
    ensures p == Gint(2, 1) || p == Gint(1, 2)
    ensures 2 <= h.a && 0 <= h.b <= h.a && (h.b >= 1 || h.a >= 3)
    ensures Mul(p, h) == q && (q == Gint(a, b) || q == Gint(b, a))
  {
    var s := (2 * a + b) / 5;
    assert 5 * s == 2 * a + b;
    if a >= 2 * b {
      p, h, q := Gint(1, 2), Gint(s, a - 2 * s), Gint(b, a);
    } else {
      var t := (2 * b - a) / 5;
      assert 5 * t == 2 * b - a;
      p, h, q := Gint(2, 1), Gint(s, t), Gint(a, b);
    }
  }

  /** The cofactor when 1 + 2i divides a + bi: b + ai or -b + ai is p h with h in the octant. */
  lemma ConjFifthCofactor(a: int, b: int) returns (p: Gint, h: Gint, q: Gint)
    requires 0 <= b <= a && (a + b) % 2 == 1 && (a + 2 * b) % 5 == 0
    ensures p == Gint(2, 1) || p == Gint(1, 2)
    ensures 2 <= h.a && 0 <= h.b <= h.a && (h.b >= 1 || h.a >= 3)
    ensures Mul(p, h) == q && (q == Gint(b, a) || q == Gint(-b, a))
  {
    var s := (a + 2 * b) / 5;
    assert 5 * s == a + 2 * b;
    if a <= 3 * b {
      var t := (2 * a - b) / 5;
      assert 5 * t == 2 * a - b;
      p, h, q := Gint(2, 1), Gint(s, t), Gint(b, a);
    } else {
      var t := (2 * a - b) / 5;
      assert 5 * t == 2 * a - b;
      p, h, q := Gint(1, 2), Gint(t, s), Gint(-b, a);
    }
  }

  /**
   * A point of the octant of norm above 5 that is not coprime to 10 is p h folded into
   * the octant, for p one of 1 + i, 2 + i, 1 + 2i and h a non-unit of the octant. When
   * 1 + i does not divide it, h has norm at least 5.
   */
  lemma {:induction false} SmallFactor(r: Gint) returns (p: Gint, h: Gint)
    requires InOctant(r) && Norm(r) > 5 && !Coprime10(r.a, r.b)
    ensures p == Gint(1, 1) || ((p == Gint(2, 1) || p == Gint(1, 2)) && Norm(r) >= 25)
    ensures 1 <= h.a && 0 <= h.b <= h.a && h != Gint(1, 0)
    ensures Oct.ProductCellOf(p, h) == r && Norm(p) * Norm(h) == Norm(r)
  {
    NotSmall(r);
    var q: Gint;
    if (r.a + r.b) % 2 == 0 {
      p := Gint(1, 1);
      h := HalfCofactor(r.a, r.b);
      q := Gint(r.b, r.a);
    } else if (2 * r.a + r.b) % 5 == 0 {
      p, h, q := FifthCofactor(r.a, r.b);
    } else {
      p, h, q := ConjFifthCofactor(r.a, r.b);
    }
    FactorFolds(r, p, h, q);
    if p != Gint(1, 1) {
      FifthBound(p, h, r);
    }
  }

  /** A point that is 2 + i or 1 + 2i times a non-unit of norm at least 5 has norm at least 25. */
  lemma FifthBound(p: Gint, h: Gint, r: Gint)
    requires (p == Gint(2, 1) || p == Gint(1, 2)) && 2 <= h.a && 0 <= h.b && (h.b >= 1 || h.a >= 3)
    requires Norm(p) * Norm(h) == Norm(r)
    ensures Norm(r) >= 25
  {
    NormAtLeastFive(h);
    var n := Norm(h);
    assert Norm(p) == 5;
    MulLe(5, 5, n);
  }

  lemma NotSmall(r: Gint)
    requires InOctant(r) && Norm(r) > 5
    ensures r != Gint(1, 1) && r != Gint(2, 1) && r.a > 0
  {
  }

  /** 1 + i heads the small-prime list; 2 + i and 1 + 2i are in it once isqrt(M) >= 5. */
  lemma ListedPrime(M: nat, p: Gint) returns (k: nat)
    requires p == Gint(1, 1) || (M >= 25 && (p == Gint(2, 1) || p == Gint(1, 2)))
    ensures k < |Oct.SmallPrimeList(M)| && Oct.SmallPrimeList(M)[k] == p
  {
    var ps := Oct.SmallPrimeList(M);
    if p == Gint(1, 1) {
      return 0;
    }
    var rt := IntSqrt(M);
    IntSqrtGreatest(M, 5);
    Oct.ScanMembers(rt, 2, Gint(2, 1));
    var sorted := SortedOf(Oct.Scan(rt, 2));
    assert Gint(2, 1) in multiset(sorted);
    Oct.WithFlipsMembers(sorted, p);
    assert p in ps;
    k :| 0 <= k < |ps| && ps[k] == p;
  }

  /**
   * 1 + i, 2 + i and 1 + 2i keep their cells until their own turn: their homes 1 + i
   * and 2 + i are Gaussian primes, and the sweeps before only clear composites.
   */
  lemma {:induction false} SetAtTurn(M: nat, k: nat)
    requires M >= 2 && k < |Oct.SmallPrimeList(M)|
    requires var p := Oct.SmallPrimeList(M)[k]; p == Gint(1, 1) || p == Gint(2, 1) || p == Gint(1, 2)
    ensures Oct.SmallPrimesValid(M, Oct.SmallPrimeList(M)) &&
      IsSet(Oct.SievedBefore(Oct.InitialGrid(M), M, Oct.SmallPrimeList(M), k), Oct.Home(Oct.SmallPrimeList(M)[k]))
  {
    NormTwoFivePrime(Oct.SmallPrimeList(M)[k]);
    Oct.PrimeSetAtTurn(M, k);
  }

  /** An octant cell of norm above 5 that survives the octant sieve is coprime to 10. */
  lemma {:induction false} SurvivorCoprime(M: nat, r: Gint)
    requires M >= 2 && InOctant(r) && 5 < Norm(r) <= M && IsSet(Oct.Sieved(M), r)
    ensures Coprime10(r.a, r.b)
  {
    if !Coprime10(r.a, r.b) {
      var p, h := SmallFactor(r);
      var k := ListedPrime(M, p);
      SetAtTurn(M, k);
      Oct.SieveWithClearsMultiples(Oct.InitialGrid(M), M, Oct.SmallPrimeList(M), k, h);
    }
  }

  /**
   * Every point the octant sieve of radius M returns is a valid sweep for the donut
   * sieve of maxNorm m >= M: in the first quadrant, of norm at most M, and coprime to
   * 10 once its norm is above 5.
   */
  lemma {:induction false} HarvestCoprime(M: nat, m: nat, g: Gint)
    requires 2 <= M <= m && g in Oct.Harvest(M, Oct.Sieved(M))
    ensures Sweepable(m, g) && Norm(g) >= 2
    ensures Norm(g) > 5 ==> Coprime10(g.a, g.b)
  {
    Oct.HarvestMembers(M, Oct.Sieved(M), g);
    if g != Gint(1, 1) {
      var home := Oct.Home(g);
      SquareLe(2, home.a);
      SquareNonneg(home.b);
      if Norm(g) > 5 {
        SurvivorCoprime(M, home);
        ClassCoprime10(home, g);
      }
    }
  }
}
