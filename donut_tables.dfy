/**
 * The wheel tables shared by the donut sieves (src/OctantDonutSieve.cpp:8-49 and
 * src/BlockDonutSieve.cpp). A donut sieve only stores the Gaussian integers that are
 * coprime to 10 = -i (1 + i)^2 (2 + i) (2 - i): of the 100 residues c + di modulo 10
 * exactly 32 qualify, so a 10 x 10 block fits one 32-bit word. bitDonut numbers these
 * residues, the decompress arrays invert that numbering, dStart gives the first
 * qualifying d in a row and gapDonut the distance to the next one.
 */
module DonutTables {
  import opened GaussianInt

  /** The marker of bitDonut for a residue that has no bit. */
  const NoBit: nat := 99

  const DStart: seq<nat> := [1, 0, 3, 0, 1, 2, 1, 0, 3, 0]

  const GapDonut: seq<seq<nat>> :=
    [[0, 2, 0, 4, 0, 0, 0, 2, 0, 2],
     [4, 0, 0, 0, 2, 0, 4, 0, 0, 0],
     [0, 0, 0, 2, 0, 2, 0, 6, 0, 0],
     [2, 0, 6, 0, 0, 0, 0, 0, 2, 0],
     [0, 4, 0, 0, 0, 4, 0, 0, 0, 2],
     [0, 0, 2, 0, 2, 0, 2, 0, 4, 0],
     [0, 4, 0, 0, 0, 4, 0, 0, 0, 2],
     [2, 0, 6, 0, 0, 0, 0, 0, 2, 0],
     [0, 0, 0, 2, 0, 2, 0, 6, 0, 0],
     [4, 0, 0, 0, 2, 0, 4, 0, 0, 0]]

  const BitDonut: seq<seq<nat>> :=
    [[99, 0, 99, 1, 99, 99, 99, 2, 99, 3],
     [4, 99, 99, 99, 5, 99, 6, 99, 99, 99],
     [99, 99, 99, 7, 99, 8, 99, 9, 99, 99],
     [10, 99, 11, 99, 99, 99, 99, 99, 12, 99],
     [99, 13, 99, 99, 99, 14, 99, 99, 99, 15],
     [99, 99, 16, 99, 17, 99, 18, 99, 19, 99],
     [99, 20, 99, 99, 99, 21, 99, 99, 99, 22],
     [23, 99, 24, 99, 99, 99, 99, 99, 25, 99],
     [99, 99, 99, 26, 99, 27, 99, 28, 99, 99],
     [29, 99, 99, 99, 30, 99, 31, 99, 99, 99]]

  const RealDecompress: seq<nat> :=
    [0, 0, 0, 0, 1, 1, 1, 2, 2, 2, 3, 3, 3, 4, 4, 4, 5, 5, 5, 5, 6, 6, 6, 7, 7, 7, 8, 8, 8, 9, 9, 9]

  const ImagDecompress: seq<nat> :=
    [1, 3, 7, 9, 0, 4, 6, 3, 5, 7, 0, 2, 8, 1, 5, 9, 2, 4, 6, 8, 1, 5, 9, 0, 2, 8, 3, 5, 7, 0, 4, 6]

  // ---------------------------------------------------------------------------
  // Coprimality to 10

  /**
   * c + di is divisible by none of 1 + i, 2 + i and 1 + 2i, the primes above 2 and 5:
   * c + d is odd, and neither 2c + d nor c + 2d is a multiple of 5.
   */
  predicate Coprime10(c: int, d: int)
  {
    (c + d) % 2 == 1 && (2 * c + d) % 5 != 0 && (c + 2 * d) % 5 != 0
  }

  /** The three tests are the divisibility tests for the primes 1 + i, 2 + i and 1 + 2i. */
  lemma Coprime10Meaning(p: Gint)
    ensures Coprime10(p.a, p.b) <==>
      !Divides(Gint(1, 1), p) && !Divides(Gint(2, 1), p) && !Divides(Gint(1, 2), p)
  {
    DividesOnePlusI(p);
    DividesTwoPlusI(p);
    DividesOnePlusTwoI(p);
  }

  lemma DividesOnePlusI(p: Gint)
    ensures Divides(Gint(1, 1), p) <==> (p.a + p.b) % 2 == 0
  {
    var x, y := p.a, p.b;
    assert TimesConj(p, Gint(1, 1)) == Gint(x + y, y - x);
    Shift(y - x, x + y, -x);
  }

  lemma DividesTwoPlusI(p: Gint)
    ensures Divides(Gint(2, 1), p) <==> (2 * p.a + p.b) % 5 == 0
  {
    var x, y := p.a, p.b;
    assert TimesConj(p, Gint(2, 1)) == Gint(2 * x + y, 2 * y - x);
    Shift5(2 * y - x, 2 * (2 * x + y), -x);
    Times5(2, 2 * x + y);
  }

  lemma DividesOnePlusTwoI(p: Gint)
    ensures Divides(Gint(1, 2), p) <==> (p.a + 2 * p.b) % 5 == 0
  {
    var x, y := p.a, p.b;
    assert TimesConj(p, Gint(1, 2)) == Gint(x + 2 * y, y - 2 * x);
    Shift5(y - 2 * x, -2 * (x + 2 * y), y);
    Times5(-2, x + 2 * y);
  }

  lemma Shift(z: int, w: int, t: int)
    requires z == w + 2 * t
    ensures z % 2 == w % 2
  {
  }

  lemma Shift5(z: int, w: int, t: int)
    requires z == w + 5 * t
    ensures z % 5 == w % 5
  {
  }

  /** Multiplying by a unit modulo 5 keeps divisibility by 5. */
  lemma Times5(k: int, z: int)
    requires k == 2 || k == -2 || k == 3
    ensures (k * z) % 5 == 0 <==> z % 5 == 0
  {
    Prime5(k, z);
  }

  /** 5 is prime in the integers. */
  lemma Prime5(x: int, y: int)
    ensures (x * y) % 5 == 0 <==> x % 5 == 0 || y % 5 == 0
  {
    var qx, rx := x / 5, x % 5;
    assert x * y == rx * y + 5 * (qx * y);
    Shift5(x * y, rx * y, qx * y);
    assert rx == 0 || rx == 1 || rx == 2 || rx == 3 || rx == 4;
  }

  lemma Prime2(x: int, y: int)
    ensures (x * y) % 2 == 1 <==> x % 2 == 1 && y % 2 == 1
  {
    var qx, rx := x / 2, x % 2;
    assert x * y == rx * y + 2 * (qx * y);
    Shift(x * y, rx * y, qx * y);
    assert rx == 0 || rx == 1;
  }

  /**
   * A product is coprime to 10 exactly when both factors are. This is why a donut sieve
   * may skip every cofactor that is not coprime to 10: such a cofactor only produces
   * multiples that have no cell.
   */
  lemma {:induction false} MulCoprime10(g: Gint, h: Gint)
    ensures Coprime10(Mul(g, h).a, Mul(g, h).b) <==> Coprime10(g.a, g.b) && Coprime10(h.a, h.b)
  {
    var p := Mul(g, h);
    MulOdd(g.a, g.b, h.a, h.b, p.a, p.b);
    MulTwoPlusI(g.a, g.b, h.a, h.b, p.a, p.b);
    MulOnePlusTwoI(g.a, g.b, h.a, h.b, p.a, p.b);
  }

  /** The test for 1 + i: a product has odd coordinate sum exactly when both factors have. */
  lemma MulOdd(a: int, b: int, c: int, d: int, pa: int, pb: int)
    requires pa == a * c - b * d && pb == b * c + a * d
    ensures (pa + pb) % 2 == 1 <==> (a + b) % 2 == 1 && (c + d) % 2 == 1
  {
    assert pa + pb == (a + b) * (c + d) + 2 * (-b * d);
    Shift(pa + pb, (a + b) * (c + d), -b * d);
    Prime2(a + b, c + d);
  }

  /** The test for 2 + i on a product. */
  lemma MulTwoPlusI(a: int, b: int, c: int, d: int, pa: int, pb: int)
    requires pa == a * c - b * d && pb == b * c + a * d
    ensures (2 * pa + pb) % 5 != 0 <==> (2 * a + b) % 5 != 0 && (2 * c + d) % 5 != 0
  {
    var u, v := 2 * a + b, 2 * c + d;
    var t := 2 * a * c + a * d + b * c + b * d;
    assert 3 * (u * v) == 2 * pa + pb + 5 * t;
    Shift5(3 * (u * v), 2 * pa + pb, t);
    Times5(3, u * v);
    Prime5(u, v);
  }

  /** The test for 1 + 2i on a product. */
  lemma MulOnePlusTwoI(a: int, b: int, c: int, d: int, pa: int, pb: int)
    requires pa == a * c - b * d && pb == b * c + a * d
    ensures (pa + 2 * pb) % 5 != 0 <==> (a + 2 * b) % 5 != 0 && (c + 2 * d) % 5 != 0
  {
    var u, v := a + 2 * b, c + 2 * d;
    assert u * v == pa + 2 * pb + 5 * (b * d);
    Shift5(u * v, pa + 2 * pb, b * d);
    Prime5(u, v);
  }

  /** The units are coprime to 10, so associates agree on coprimality. */
  lemma AssociateCoprime10(r: Gint, p: Gint)
    requires IsAssociate(r, p)
    ensures Coprime10(r.a, r.b) <==> Coprime10(p.a, p.b)
  {
    assert Mul(p, Gint(0, 1)) == Gint(-p.b, p.a);
    assert Mul(p, Gint(-1, 0)) == Gint(-p.a, -p.b);
    assert Mul(p, Gint(0, -1)) == Gint(p.b, -p.a);
    MulCoprime10(p, Gint(0, 1));
    MulCoprime10(p, Gint(-1, 0));
    MulCoprime10(p, Gint(0, -1));
  }

  /** Points of one class (associates and their conjugates) agree on coprimality to 10. */
  lemma ClassCoprime10(r: Gint, p: Gint)
    requires SameClass(r, p)
    ensures Coprime10(r.a, r.b) <==> Coprime10(p.a, p.b)
  {
    ConjCoprime10(p);
    if IsAssociate(r, p) {
      AssociateCoprime10(r, p);
    } else {
      AssociateCoprime10(r, Conj(p));
    }
  }

  lemma ConjCoprime10(p: Gint)
    ensures Coprime10(Conj(p).a, Conj(p).b) <==> Coprime10(p.a, p.b)
  {
    var x, y := p.a, p.b;
    Shift(x - y, x + y, -y);
    Shift5(2 * x - y, 2 * (x + 2 * y), -y);
    Shift5(x - 2 * y, 3 * (2 * x + y), -x - y);
    Times5(2, x + 2 * y);
    Times5(3, 2 * x + y);
  }

  /** Coprimality only depends on the residues modulo 10. */
  lemma Coprime10Shift(c: int, d: int, s: int, t: int)
    ensures Coprime10(c + 10 * s, d + 10 * t) == Coprime10(c, d)
  {
    Shift(c + 10 * s + d + 10 * t, c + d, 5 * s + 5 * t);
    Shift5(2 * (c + 10 * s) + d + 10 * t, 2 * c + d, 4 * s + 2 * t);
    Shift5(c + 10 * s + 2 * (d + 10 * t), c + 2 * d, 2 * s + 4 * t);
  }

  lemma Coprime10Residue(c: nat, d: nat)
    ensures Coprime10(c, d) == Coprime10(c % 10, d % 10)
  {
    Coprime10Shift(c % 10, d % 10, c / 10, d / 10);
  }

  // ---------------------------------------------------------------------------
  // The tables, row by row

  /** bitDonut numbers the 32 residues coprime to 10 and marks the others with 99. */
  lemma BitTable(c: nat, d: nat)
    requires c < 10 && d < 10
    ensures BitDonut[c][d] != NoBit <==> Coprime10(c, d)
    ensures Coprime10(c, d) ==>
      BitDonut[c][d] < 32 && RealDecompress[BitDonut[c][d]] == c && ImagDecompress[BitDonut[c][d]] == d
  {
    assert c == 0 || c == 1 || c == 2 || c == 3 || c == 4 || c == 5 || c == 6 || c == 7 || c == 8 || c == 9;
    assert d == 0 || d == 1 || d == 2 || d == 3 || d == 4 || d == 5 || d == 6 || d == 7 || d == 8 || d == 9;
  }

  /** The decompress arrays invert bitDonut. */
  lemma DecompressTable(k: nat)
    requires k < 32
    ensures RealDecompress[k] < 10 && ImagDecompress[k] < 10
    ensures Coprime10(RealDecompress[k], ImagDecompress[k])
    ensures BitDonut[RealDecompress[k]][ImagDecompress[k]] == k
  {
    assert k < 8 || 8 <= k < 16 || 16 <= k < 24 || 24 <= k < 32;
    assert k == 0 || k == 1 || k == 2 || k == 3 || k == 4 || k == 5 || k == 6 || k == 7 ||
      k == 8 || k == 9 || k == 10 || k == 11 || k == 12 || k == 13 || k == 14 || k == 15 ||
      k == 16 || k == 17 || k == 18 || k == 19 || k == 20 || k == 21 || k == 22 || k == 23 ||
      k == 24 || k == 25 || k == 26 || k == 27 || k == 28 || k == 29 || k == 30 || k == 31;
  }

  /** gapDonut is non-zero exactly on the residues coprime to 10. */
  lemma GapTable(c: nat, d: nat)
    requires c < 10 && d < 10
    ensures GapDonut[c][d] != 0 <==> Coprime10(c, d)
  {
    assert c == 0 || c == 1 || c == 2 || c == 3 || c == 4 || c == 5 || c == 6 || c == 7 || c == 8 || c == 9;
    assert d == 0 || d == 1 || d == 2 || d == 3 || d == 4 || d == 5 || d == 6 || d == 7 || d == 8 || d == 9;
  }

  /** On a residue coprime to 10, d + gapDonut[c][d] is again coprime to 10. */
  lemma GapNext(c: nat, d: nat)
    requires c < 10 && d < 10 && Coprime10(c, d)
    ensures Coprime10(c, d + GapDonut[c][d])
  {
    assert c == 0 || c == 1 || c == 2 || c == 3 || c == 4 || c == 5 || c == 6 || c == 7 || c == 8 || c == 9;
    assert d == 0 || d == 1 || d == 2 || d == 3 || d == 4 || d == 5 || d == 6 || d == 7 || d == 8 || d == 9;
  }

  /** No residue strictly between d and d + gapDonut[c][d] is coprime to 10. */
  lemma GapSkip(c: nat, d: nat, e: int)
    requires c < 10 && d < 10 && d < e < d + GapDonut[c][d]
    ensures !Coprime10(c, e)
  {
    assert c == 0 || c == 1 || c == 2 || c == 3 || c == 4 || c == 5 || c == 6 || c == 7 || c == 8 || c == 9;
    assert d == 0 || d == 1 || d == 2 || d == 3 || d == 4 || d == 5 || d == 6 || d == 7 || d == 8 || d == 9;
  }

  /** dStart[c] is coprime to 10 in row c. */
  lemma DStartFirst(c: nat)
    requires c < 10
    ensures DStart[c] < 10 && Coprime10(c, DStart[c])
  {
    assert c == 0 || c == 1 || c == 2 || c == 3 || c == 4 || c == 5 || c == 6 || c == 7 || c == 8 || c == 9;
  }

  /** No d below dStart[c] is coprime to 10 in row c. */
  lemma DStartLeast(c: nat, e: int)
    requires c < 10 && 0 <= e < DStart[c]
    ensures !Coprime10(c, e)
  {
    assert c == 0 || c == 1 || c == 2 || c == 3 || c == 4 || c == 5 || c == 6 || c == 7 || c == 8 || c == 9;
  }

  /**
   * The wheel step of crossOffMultiples for any c + di coprime to 10: the gap
   * gapDonut[c % 10][d % 10] is positive, d + gap is the next d with c + di coprime
   * to 10, and none lies in between.
   */
  lemma {:induction false} WheelStep(c: int, d: int, e: int)
    requires Coprime10(c, d)
    ensures GapDonut[c % 10][d % 10] > 0
    ensures Coprime10(c, d + GapDonut[c % 10][d % 10])
    ensures d < e < d + GapDonut[c % 10][d % 10] ==> !Coprime10(c, e)
  {
    var c0, d0 := c % 10, d % 10;
    var s, t := c / 10, d / 10;
    assert c == c0 + 10 * s && d == d0 + 10 * t;
    WheelShifted(c0, d0, s, t, e - 10 * t);
  }

  /** WheelStep on c + di written as (c0 + 10s) + (d0 + 10t)i with c0, d0 the residues. */
  lemma {:induction false} WheelShifted(c0: nat, d0: nat, s: int, t: int, e0: int)
    requires c0 < 10 && d0 < 10 && Coprime10(c0 + 10 * s, d0 + 10 * t)
    ensures GapDonut[c0][d0] > 0
    ensures Coprime10(c0 + 10 * s, d0 + GapDonut[c0][d0] + 10 * t)
    ensures d0 < e0 < d0 + GapDonut[c0][d0] ==> !Coprime10(c0 + 10 * s, e0 + 10 * t)
  {
    Coprime10Shift(c0, d0, s, t);
    GapTable(c0, d0);
    GapNext(c0, d0);
    Coprime10Shift(c0, d0 + GapDonut[c0][d0], s, t);
    if d0 < e0 < d0 + GapDonut[c0][d0] {
      GapSkip(c0, d0, e0);
      Coprime10Shift(c0, e0, s, t);
    }
  }

  /** dStart[c % 10] is the least d >= 0 with c + di coprime to 10. */
  lemma {:induction false} WheelStart(c: nat, e: int)
    ensures Coprime10(c, DStart[c % 10])
    ensures 0 <= e < DStart[c % 10] ==> !Coprime10(c, e)
  {
    var c0, s := c % 10, c / 10;
    DStartFirst(c0);
    Coprime10Shift(c0, DStart[c0], s, 0);
    if 0 <= e < DStart[c0] {
      DStartLeast(c0, e);
      Coprime10Shift(c0, e, s, 0);
    }
  }

  // ---------------------------------------------------------------------------
  // Words of 32 bits

  /** Bit k of w is set: (w >> k) & 1. */
  predicate Bit(w: bv32, k: bv5)
  {
    (w >> k) & 1 == 1
  }

  /** w &= ~(1u << k) of setFalse. */
  function ClearBit(w: bv32, k: bv5): bv32
  {
    w & !(1 << k)
  }

  /** w |= 1u << k of setTrue. */
  function SetBit(w: bv32, k: bv5): bv32
  {
    w | (1 << k)
  }

  /** Clearing bit k changes bit k and no other. */
  lemma ClearBitEffect(w: bv32, k: bv5, j: bv5)
    ensures Bit(ClearBit(w, k), j) == (Bit(w, j) && j != k)
  {
  }

  /** Setting bit k changes bit k and no other. */
  lemma SetBitEffect(w: bv32, k: bv5, j: bv5)
    ensures Bit(SetBit(w, k), j) == (Bit(w, j) || j == k)
  {
  }

  /** The word of all ones that setSieveArray stores. */
  const AllOnes: bv32 := 0xFFFF_FFFF

  lemma AllOnesBits(k: bv5)
    ensures Bit(AllOnes, k)
  {
  }

  // ---------------------------------------------------------------------------
  // Points and bits

  /** The bit of the non-negative point u + vi in its word: bitDonut[u % 10][v % 10]. */
  function BitOf(u: nat, v: nat): (k: bv5)
    requires Coprime10(u, v)
  {
    Coprime10Residue(u, v);
    BitTable(u % 10, v % 10);
    BitDonut[u % 10][v % 10] as bv5
  }

  /** The point stored in bit k of word (A, B), relative to the corner of the array. */
  function Pt(A: nat, B: nat, k: bv5): Gint
  {
    DecompressTable(k as nat);
    Gint(10 * A + RealDecompress[k as nat], 10 * B + ImagDecompress[k as nat])
  }

  /** Every bit of every word stores a point coprime to 10. */
  lemma PtCoprime(A: nat, B: nat, k: bv5)
    ensures Pt(A, B, k).a >= 0 && Pt(A, B, k).b >= 0 && Coprime10(Pt(A, B, k).a, Pt(A, B, k).b)
  {
    DecompressTable(k as nat);
    Coprime10Shift(RealDecompress[k as nat], ImagDecompress[k as nat], A, B);
  }

  lemma DivTen(A: nat, r: nat)
    requires r < 10
    ensures (10 * A + r) / 10 == A && (10 * A + r) % 10 == r
  {
  }

  /** The point of bit k of word (A, B) is stored in word (A, B) at bit k. */
  lemma PtHome(A: nat, B: nat, k: bv5)
    ensures Coprime10(Pt(A, B, k).a, Pt(A, B, k).b)
    ensures Pt(A, B, k).a / 10 == A && Pt(A, B, k).b / 10 == B
    ensures BitOf(Pt(A, B, k).a, Pt(A, B, k).b) == k
  {
    var r, i := RealDecompress[k as nat], ImagDecompress[k as nat];
    DecompressTable(k as nat);
    PtCoprime(A, B, k);
    var p := Pt(A, B, k);
    DivTen(A, r);
    DivTen(B, i);
    BitOfIs(p.a, p.b, k);
  }

  /** The bit of a point coprime to 10 is the table entry of its residues. */
  lemma BitOfIs(u: nat, v: nat, k: bv5)
    requires Coprime10(u, v) && BitDonut[u % 10][v % 10] == k as nat
    ensures BitOf(u, v) == k
  {
  }

  lemma ToBits(n: nat)
    requires n < 32
    ensures (n as bv5) as nat == n
  {
  }

  /** A point coprime to 10 is stored in word (u / 10, v / 10) at bit BitOf(u, v). */
  lemma PtOf(u: nat, v: nat)
    requires Coprime10(u, v)
    ensures Pt(u / 10, v / 10, BitOf(u, v)) == Gint(u, v)
  {
    var r, i := u % 10, v % 10;
    Coprime10Residue(u, v);
    BitTable(r, i);
    ToBits(BitDonut[r][i]);
    var k := BitOf(u, v);
    assert k as nat == BitDonut[r][i];
    assert RealDecompress[k as nat] == r && ImagDecompress[k as nat] == i;
  }

  /** A point coprime to 10 is stored in exactly one place. */
  lemma PtIdent(A: nat, B: nat, k: bv5, u: nat, v: nat)
    ensures Pt(A, B, k) == Gint(u, v) <==>
      Coprime10(u, v) && A == u / 10 && B == v / 10 && k == BitOf(u, v)
  {
    PtHome(A, B, k);
    if Coprime10(u, v) {
      PtOf(u, v);
    }
  }

  // ---------------------------------------------------------------------------
  // Arrays of words

  /** r is stored in the array: coprime to 10, with a word at (r.a / 10, r.b / 10). */
  ghost predicate Stored(grid: seq<seq<bv32>>, r: Gint)
  {
    r.a >= 0 && r.b >= 0 && Coprime10(r.a, r.b) && r.a / 10 < |grid| && r.b / 10 < |grid[r.a / 10]|
  }

  /** r is stored and its bit is set. */
  ghost predicate IsOn(grid: seq<seq<bv32>>, r: Gint)
  {
    Stored(grid, r) && Bit(grid[r.a / 10][r.b / 10], BitOf(r.a, r.b))
  }

  /** Two arrays with the same columns of the same lengths. */
  ghost predicate SameShape(g0: seq<seq<bv32>>, g1: seq<seq<bv32>>)
  {
    |g0| == |g1| && forall A :: 0 <= A < |g0| ==> |g0[A]| == |g1[A]|
  }

  /** The array after setFalse(u, v). */
  ghost function ClearCell(grid: seq<seq<bv32>>, u: nat, v: nat): (r: seq<seq<bv32>>)
    requires Stored(grid, Gint(u, v))
    ensures SameShape(grid, r)
  {
    grid[u / 10 := grid[u / 10][v / 10 := ClearBit(grid[u / 10][v / 10], BitOf(u, v))]]
  }

  /** The array after setTrue(u, v). */
  ghost function SetCell(grid: seq<seq<bv32>>, u: nat, v: nat): (r: seq<seq<bv32>>)
    requires Stored(grid, Gint(u, v))
    ensures SameShape(grid, r)
  {
    grid[u / 10 := grid[u / 10][v / 10 := SetBit(grid[u / 10][v / 10], BitOf(u, v))]]
  }

  lemma SameShapeStored(g0: seq<seq<bv32>>, g1: seq<seq<bv32>>, r: Gint)
    requires SameShape(g0, g1)
    ensures Stored(g0, r) == Stored(g1, r)
  {
  }

  /** Two stored points that share a word and a bit are the same point. */
  lemma {:induction false} SameBitSamePoint(r: Gint, u: nat, v: nat)
    requires r.a >= 0 && r.b >= 0 && Coprime10(r.a, r.b) && Coprime10(u, v)
    requires r.a / 10 == u / 10 && r.b / 10 == v / 10 && BitOf(r.a, r.b) == BitOf(u, v)
    ensures r == Gint(u, v)
  {
    PtOf(r.a, r.b);
    PtOf(u, v);
  }

  /** setFalse(u, v) clears the bit of u + vi and no other. */
  lemma {:induction false} ClearCellAt(grid: seq<seq<bv32>>, u: nat, v: nat, r: Gint)
    requires Stored(grid, Gint(u, v))
    ensures Stored(ClearCell(grid, u, v), r) == Stored(grid, r)
    ensures IsOn(ClearCell(grid, u, v), r) == (IsOn(grid, r) && r != Gint(u, v))
  {
    if Stored(grid, r) && r.a / 10 == u / 10 && r.b / 10 == v / 10 {
      ClearBitEffect(grid[u / 10][v / 10], BitOf(u, v), BitOf(r.a, r.b));
      if BitOf(r.a, r.b) == BitOf(u, v) {
        SameBitSamePoint(r, u, v);
      }
    }
  }

  /** setTrue(u, v) sets the bit of u + vi and no other. */
  lemma {:induction false} SetCellAt(grid: seq<seq<bv32>>, u: nat, v: nat, r: Gint)
    requires Stored(grid, Gint(u, v))
    ensures Stored(SetCell(grid, u, v), r) == Stored(grid, r)
    ensures IsOn(SetCell(grid, u, v), r) == (IsOn(grid, r) || (Stored(grid, r) && r == Gint(u, v)))
  {
    if Stored(grid, r) && r.a / 10 == u / 10 && r.b / 10 == v / 10 {
      SetBitEffect(grid[u / 10][v / 10], BitOf(u, v), BitOf(r.a, r.b));
      if BitOf(r.a, r.b) == BitOf(u, v) {
        SameBitSamePoint(r, u, v);
      }
    }
  }

  /** The bit k of word (A, B) is the value of the point stored there. */
  lemma BitIsPoint(grid: seq<seq<bv32>>, A: nat, B: nat, k: bv5)
    requires A < |grid| && B < |grid[A]|
    ensures Stored(grid, Pt(A, B, k))
    ensures IsOn(grid, Pt(A, B, k)) == Bit(grid[A][B], k)
  {
    PtHome(A, B, k);
  }
}
