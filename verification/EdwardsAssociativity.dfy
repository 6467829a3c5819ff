/** Associativity of the curve addition, on numerators and denominators.

    With S, A1, A3 the three trilinear forms below, the cross difference of the two
    x-coordinates of a triple sum is d*t2 times a form that vanishes once each d*t^2 is
    replaced by y^2 - x^2 - 1. */
module EdwardsAssociativity {
  import opened Numbers
  import opened EdwardsLaw

  // The products of SumE and SumH for (x1, y1) or its negative with (x2, y2).

  lemma PairIdentities(x1: int, y1: int, x2: int, y2: int)
    ensures SumE(x1, y1, x2, y2) * SumH(-x1, y1, x2, y2)
         == (x1 * y1) * (y2 * y2 - x2 * x2) + (x2 * y2) * (y1 * y1 - x1 * x1)
    ensures SumE(-x1, y1, x2, y2) * SumH(x1, y1, x2, y2)
         == (x2 * y2) * (y1 * y1 - x1 * x1) - (x1 * y1) * (y2 * y2 - x2 * x2)
    ensures SumE(-x1, y1, x2, y2) * SumH(-x1, y1, x2, y2)
         == (x2 * y2) * (y1 * y1 + x1 * x1) - (x1 * y1) * (y2 * y2 + x2 * x2)
  {
    PairEH(x1, y1, x2, y2);
    PairHE(x1, y1, x2, y2);
    SumProduct(-x1, y1, x2, y2);
    assert -x1 * -x1 == x1 * x1 && -x1 * y1 == -(x1 * y1);
  }

  lemma PairEH(x1: int, y1: int, x2: int, y2: int)
    ensures SumE(x1, y1, x2, y2) * SumH(-x1, y1, x2, y2)
         == (x1 * y1) * (y2 * y2 - x2 * x2) + (x2 * y2) * (y1 * y1 - x1 * x1)
  {
  }

  lemma PairHE(x1: int, y1: int, x2: int, y2: int)
    ensures SumE(-x1, y1, x2, y2) * SumH(x1, y1, x2, y2)
         == (x2 * y2) * (y1 * y1 - x1 * x1) - (x1 * y1) * (y2 * y2 - x2 * x2)
  {
  }

  // ---------------------------------------------------------------- the trilinear forms

  /** x3*h + y3*e and its relatives are the same whichever pair is added first. */
  lemma FormsRotate(x1: int, y1: int, x2: int, y2: int, x3: int, y3: int)
    ensures x3 * SumH(x1, y1, x2, y2) + y3 * SumE(x1, y1, x2, y2)
         == x1 * SumH(x2, y2, x3, y3) + y1 * SumE(x2, y2, x3, y3)
    ensures y3 * SumH(x1, y1, x2, y2) + x3 * SumE(x1, y1, x2, y2)
         == y1 * SumH(x2, y2, x3, y3) + x1 * SumE(x2, y2, x3, y3)
    ensures x3 * SumH(x1, y1, x2, y2) + y3 * SumE(x1, y1, x2, y2)
         == y2 * SumE(x1, y1, x3, y3) + x2 * SumH(x1, y1, x3, y3)
  {
  }

  lemma FormA1(x1: int, y1: int, x2: int, y2: int, x3: int, y3: int)
    ensures var a1 := x1 * SumH(x2, y2, x3, y3) - y1 * SumE(x2, y2, x3, y3);
            && a1 == -(y3 * SumE(-x1, y1, x2, y2) + x3 * SumH(-x1, y1, x2, y2))
            && a1 == -(y2 * SumE(-x1, y1, x3, y3)) - x2 * SumH(-x1, y1, x3, y3)
  {
  }

  lemma FormA3(x1: int, y1: int, x2: int, y2: int, x3: int, y3: int)
    ensures var a3 := x3 * SumH(x1, y1, x2, y2) - y3 * SumE(x1, y1, x2, y2);
            && a3 == -(y1 * SumE(-x3, y3, x2, y2) + x1 * SumH(-x3, y3, x2, y2))
            && a3 == y2 * SumE(-x1, y1, x3, y3) - x2 * SumH(-x1, y1, x3, y3)
  {
  }

  // ---------------------------------------------------------------- four vanishing combinations

  /** With (e, h) the pair sum of two points and (x, y) the third:
      (y^2-x^2)*e*h - (h^2-e^2)*x*y factors through the forms V and A. */
  lemma Quartic(x: int, y: int, e: int, h: int)
    ensures (y * y - x * x) * (e * h) - (h * h - e * e) * (x * y) == -((y * h + x * e) * (x * h - y * e))
  {
  }

  lemma VanishNinth(a1: int, a3: int, v: int, q1: int, q3: int)
    requires q1 == -(v * a1) && q3 == -(v * a3)
    ensures a3 * q1 - a1 * q3 == 0
  {
    assert a3 * (v * a1) == a1 * (v * a3);
  }

  /** A1*K + delta1*S*t2 + delta2*t1*A3 = 0 for the pair (1, 2) and third point (x, y). */
  lemma VanishSeventh(x: int, y: int, e: int, h: int, e': int, h': int, t1: int, t2: int, d1: int, d2: int)
    requires e * h' == t1 * d2 + t2 * d1 && e' * h == t2 * d1 - t1 * d2
    ensures -(y * e' + x * h') * (e * h) + d1 * ((x * h + y * e) * t2) + d2 * (t1 * (x * h - y * e)) == 0
  {
    SplitSeventh(x, y, e, h, e', h', t1, t2, d1, d2);
    assert (x * h) * (e * h') == (x * h) * (t1 * d2 + t2 * d1);
    assert (y * e) * (e' * h) == (y * e) * (t2 * d1 - t1 * d2);
  }

  lemma SplitSeventh(x: int, y: int, e: int, h: int, e': int, h': int, t1: int, t2: int, d1: int, d2: int)
    ensures -(y * e' + x * h') * (e * h) + d1 * ((x * h + y * e) * t2) + d2 * (t1 * (x * h - y * e))
         == -(x * h) * (e * h') - (y * e) * (e' * h) + (x * h) * (t1 * d2 + t2 * d1) + (y * e) * (t2 * d1 - t1 * d2)
  {
  }

  /** The outer pair: S*J - delta1*t3*A1 + delta3*t1*A3 = 0, with (e, h), (e', h') of the pair (1, 3). */
  lemma VanishOuter(x: int, y: int, e: int, h: int, e': int, h': int, t1: int, t3: int, d1: int, d3: int)
    requires e * h' == t1 * d3 + t3 * d1 && e' * h == t3 * d1 - t1 * d3
    ensures (y * e + x * h) * -(e' * h') - d1 * (t3 * (-(y * e') - x * h')) + d3 * (t1 * (y * e' - x * h')) == 0
  {
    SplitOuter(x, y, e, h, e', h', t1, t3, d1, d3);
    assert (y * e') * (e * h') == (y * e') * (t1 * d3 + t3 * d1);
    assert (x * h') * (e' * h) == (x * h') * (t3 * d1 - t1 * d3);
  }

  lemma SplitOuter(x: int, y: int, e: int, h: int, e': int, h': int, t1: int, t3: int, d1: int, d3: int)
    ensures (y * e + x * h) * -(e' * h') - d1 * (t3 * (-(y * e') - x * h')) + d3 * (t1 * (y * e' - x * h'))
         == -(y * e') * (e * h') - (x * h') * (e' * h) + (y * e') * (t1 * d3 + t3 * d1) + (x * h') * (t3 * d1 - t1 * d3)
  {
  }

  // ---------------------------------------------------------------- assembling the difference

  /** The form E, in the products p = A*K, st = S*t2, r = t3*A1, w = t1*A3, sj = S*J. */
  function FormE(m1: int, m2: int, m3: int, p1: int, p3: int, st: int, r: int, w: int, sj: int): int {
    w - r + sj + m1 * (p3 + st) - m3 * (p1 + st) + m2 * (m1 * r - m3 * w)
  }

  lemma FormEVanishes(d1: int, d2: int, d3: int, p1: int, p3: int, st: int, r: int, w: int, sj: int)
    requires d1 * p3 - d2 * d3 * w - d3 * p1 + d1 * d2 * r == 0
    requires sj - d1 * r + d3 * w == 0
    requires p3 + d3 * st + d2 * r == 0
    requires p1 + d1 * st + d2 * w == 0
    ensures FormE(d1 - 1, d2 - 1, d3 - 1, p1, p3, st, r, w, sj) == 0
  {
    FormEExpands(d1, d2, d3, p1, p3, st, r, w, sj);
  }

  lemma FormEExpands(d1: int, d2: int, d3: int, p1: int, p3: int, st: int, r: int, w: int, sj: int)
    ensures FormE(d1 - 1, d2 - 1, d3 - 1, p1, p3, st, r, w, sj)
         == (d1 * p3 - d2 * d3 * w - d3 * p1 + d1 * d2 * r) + (sj - d1 * r + d3 * w)
          - (p3 + d3 * st + d2 * r) + (p1 + d1 * st + d2 * w)
  {
    OneLess(d1, p3, st);
    OneLess(d3, p1, st);
    TwoLess(d2, d1, r);
    TwoLess(d2, d3, w);
    assert (d2 - 1) * ((d1 - 1) * r - (d3 - 1) * w) == (d2 - 1) * ((d1 - 1) * r) - (d2 - 1) * ((d3 - 1) * w);
  }

  lemma OneLess(d: int, x: int, y: int)
    ensures (d - 1) * (x + y) == d * x + d * y - x - y
  {
  }

  lemma TwoLess(d: int, e: int, x: int)
    ensures (d - 1) * ((e - 1) * x) == d * e * x - d * x - e * x + x
  {
  }

  /** Replacing each y^2-x^2-1 by d*t^2 changes E by a multiple of the curve equations. */
  lemma FormEModP(p: int, m1: int, m2: int, m3: int, d1: int, d2: int, d3: int,
                  p1: int, p3: int, st: int, r: int, w: int, sj: int)
    requires Eq(p, d1, 1 + m1) && Eq(p, d2, 1 + m2) && Eq(p, d3, 1 + m3)
    requires FormE(d1 - 1, d2 - 1, d3 - 1, p1, p3, st, r, w, sj) == 0
    ensures Divides(p, FormE(m1, m2, m3, p1, p3, st, r, w, sj))
  {
    hide Divides, FormE;
    var h1, h2, h3 := d1 - (1 + m1), d2 - (1 + m2), d3 - (1 + m3);
    FormEShift(m1, m2, m3, h1, h2, h3, p1, p3, st, r, w, sj);
    assert m1 + h1 == d1 - 1 && m2 + h2 == d2 - 1 && m3 + h3 == d3 - 1;
    Combine3(p, FormE(m1, m2, m3, p1, p3, st, r, w, sj),
             -(p3 + st + m2 * r), h1, -((m1 + h1) * r - (m3 + h3) * w), h2, p1 + st + m2 * w, h3);
  }

  lemma FormEShift(m1: int, m2: int, m3: int, h1: int, h2: int, h3: int, p1: int, p3: int, st: int, r: int, w: int,
                   sj: int)
    ensures FormE(m1 + h1, m2 + h2, m3 + h3, p1, p3, st, r, w, sj) - FormE(m1, m2, m3, p1, p3, st, r, w, sj)
         == (p3 + st + m2 * r) * h1 + ((m1 + h1) * r - (m3 + h3) * w) * h2 - (p1 + st + m2 * w) * h3
  {
  }

  /** The cross difference of the two triple sums is d*t2 times E. */
  lemma CrossDifference(d: int, t1: int, t2: int, t3: int, s: int, a1: int, a3: int, k1: int, k3: int, j: int, n1: int,
                        d1: int, n2: int, d2: int)
    requires t1 * k3 - t3 * k1 == t2 * j
    requires n1 == s + (d * t1 * t2) * a3 && d2 == 1 - (d * t2 * t3) * (d * t2 * t3) + d * t1 * k3
    requires n2 == s + (d * t2 * t3) * a1 && d1 == 1 - (d * t1 * t2) * (d * t1 * t2) + d * t3 * k1
    ensures n1 * d2 - n2 * d1
         == (d * t2) * FormE(d * t1 * t1, d * t2 * t2, d * t3 * t3, a1 * k1, a3 * k3, s * t2, t3 * a1, t1 * a3, s * j)
  {
    hide FormE;
    CrossLeft(d, t1, t2, t3, s, a3, k3, n1, d2);
    CrossLeft(d, t3, t2, t1, s, a1, k1, n2, d1);
    ScaleFormE(d * t2, d * t1 * t1, d * t2 * t2, d * t3 * t3, a1 * k1, a3 * k3, s * t2, t3 * a1, t1 * a3, s * j);
    MiddleTerm(d, s, t2, j, t1 * k3, t3 * k1);
  }

  lemma MiddleTerm(d: int, s: int, t2: int, j: int, x: int, y: int)
    requires x - y == t2 * j
    ensures d * (s * x) - d * (s * y) == (d * t2) * (s * j)
  {
    assert d * (s * x) - d * (s * y) == (d * s) * (x - y);
  }

  lemma CrossLeft(d: int, t1: int, t2: int, t3: int, s: int, a3: int, k3: int, n: int, e: int)
    requires n == s + (d * t1 * t2) * a3 && e == 1 - (d * t2 * t3) * (d * t2 * t3) + d * t1 * k3
    ensures n * e == s - (d * t2) * ((d * t3 * t3) * (s * t2)) + d * (s * (t1 * k3))
          + (d * t2) * (t1 * a3) - (d * t2) * ((d * t2 * t2) * ((d * t3 * t3) * (t1 * a3)))
          + (d * t2) * ((d * t1 * t1) * (a3 * k3))
  {
    TwoByThree(s, (d * t1 * t2) * a3, (d * t2 * t3) * (d * t2 * t3), d * t1 * k3);
    CrossTerms(d, t2, t3);
    Regroup1(d, t1, t2, s, a3, k3);
    Regroup2(s, d * t2, t2, d * t3 * t3);
    Regroup3(d * t2, t1 * a3, d * t2 * t2, d * t3 * t3);
    Regroup4(d * t2, t1, a3, d, k3);
  }

  lemma Regroup1(d: int, t1: int, t2: int, s: int, a: int, k: int)
    ensures (d * t1 * t2) * a == (d * t2) * (t1 * a)
    ensures s * (d * t1 * k) == d * (s * (t1 * k))
    ensures d * t2 * t2 == (d * t2) * t2
  {
  }

  lemma Regroup2(s: int, c: int, t: int, m: int)
    ensures s * ((c * t) * m) == c * (m * (s * t))
  {
  }

  lemma Regroup3(c: int, w: int, m: int, m': int)
    ensures (c * w) * (m * m') == c * (m * (m' * w))
  {
  }

  lemma Regroup4(c: int, t: int, a: int, d: int, k: int)
    ensures (c * (t * a)) * (d * t * k) == c * ((d * t * t) * (a * k))
  {
  }

  lemma TwoByThree(s: int, x: int, q: int, g: int)
    ensures (s + x) * (1 - q + g) == s - s * q + s * g + x - x * q + x * g
  {
  }

  lemma ScaleFormE(c: int, m1: int, m2: int, m3: int, p1: int, p3: int, st: int, r: int, w: int, sj: int)
    ensures c * FormE(m1, m2, m3, p1, p3, st, r, w, sj)
         == c * w - c * r + c * sj + c * (m1 * p3) + c * (m1 * st) - c * (m3 * p1) - c * (m3 * st)
          + c * (m2 * (m1 * r)) - c * (m2 * (m3 * w))
  {
  }

  // ---------------------------------------------------------------- the theorem

  lemma NinthForm(a1: int, a3: int, k1: int, k3: int, t1: int, t3: int, d1: int, d2: int, d3: int, v: int)
    requires d1 * k3 - (d2 * d3) * t1 == -(v * a1) && d3 * k1 - (d1 * d2) * t3 == -(v * a3)
    ensures d1 * (a3 * k3) - d2 * d3 * (t1 * a3) - d3 * (a1 * k1) + d1 * d2 * (t3 * a1) == 0
  {
    VanishNinth(a1, a3, v, d1 * k3 - (d2 * d3) * t1, d3 * k1 - (d1 * d2) * t3);
    NinthSplit(a1, a3, k1, k3, t1, t3, d1, d2, d3);
  }

  lemma NinthSplit(a1: int, a3: int, k1: int, k3: int, t1: int, t3: int, d1: int, d2: int, d3: int)
    ensures a3 * (d1 * k3 - (d2 * d3) * t1) - a1 * (d3 * k1 - (d1 * d2) * t3)
         == d1 * (a3 * k3) - d2 * d3 * (t1 * a3) - d3 * (a1 * k1) + d1 * d2 * (t3 * a1)
  {
  }

  /** E vanishes for the forms of any three points. */
  lemma FormEOfThree(x1: int, y1: int, x2: int, y2: int, x3: int, y3: int)
    ensures var e12, h12, e23, h23 := SumE(x1, y1, x2, y2), SumH(x1, y1, x2, y2), SumE(x2, y2, x3, y3),
            SumH(x2, y2, x3, y3);
            var s, a1, a3 := x3 * h12 + y3 * e12, x1 * h23 - y1 * e23, x3 * h12 - y3 * e12;
            var j := (x1 * y1) * (y3 * y3 + x3 * x3) - (x3 * y3) * (y1 * y1 + x1 * x1);
            && (x1 * y1) * (e23 * h23) - (x3 * y3) * (e12 * h12) == (x2 * y2) * j
            && FormE(y1 * y1 - x1 * x1 - 1, y2 * y2 - x2 * x2 - 1, y3 * y3 - x3 * x3 - 1,
                     a1 * (e12 * h12), a3 * (e23 * h23), s * (x2 * y2), (x3 * y3) * a1, (x1 * y1) * a3, s * j) == 0
  {
    hide SumE, SumH, FormE;
    var e12, h12, e23, h23 := SumE(x1, y1, x2, y2), SumH(x1, y1, x2, y2), SumE(x2, y2, x3, y3), SumH(x2, y2, x3, y3);
    var e13, h13, e13', h13' := SumE(x1, y1, x3, y3), SumH(x1, y1, x3, y3), SumE(-x1, y1, x3, y3),
                                SumH(-x1, y1, x3, y3);
    var t1, t2, t3 := x1 * y1, x2 * y2, x3 * y3;
    var d1, d2, d3 := y1 * y1 - x1 * x1, y2 * y2 - x2 * x2, y3 * y3 - x3 * x3;
    var s, a1, a3, v := x3 * h12 + y3 * e12, x1 * h23 - y1 * e23, x3 * h12 - y3 * e12, y3 * h12 + x3 * e12;
    var j := t1 * (y3 * y3 + x3 * x3) - t3 * (y1 * y1 + x1 * x1);
    FormsRotate(x1, y1, x2, y2, x3, y3);
    FormA1(x1, y1, x2, y2, x3, y3);
    FormA3(x1, y1, x2, y2, x3, y3);
    // the pair products
    SumProduct(x1, y1, x2, y2);
    SumProduct(x2, y2, x3, y3);
    JIdentity(t1, t2, t3, y1 * y1 + x1 * x1, y2 * y2 + x2 * x2, y3 * y3 + x3 * x3);
    PairIdentities(x1, y1, x3, y3);
    // ninth degree
    SumDifference(x1, y1, x2, y2);
    SumDifference(x2, y2, x3, y3);
    Quartic(x1, y1, e23, h23);
    Quartic(x3, y3, e12, h12);
    NinthForm(a1, a3, e12 * h12, e23 * h23, t1, t3, d1, d2, d3, v);
    // seventh degree
    VanishOuter(x2, y2, e13, h13, e13', h13', t1, t3, d1, d3);
    SeventhForward(x1, y1, x2, y2, x3, y3, a1);
    SeventhBackward(x1, y1, x2, y2, x3, y3, s, a1, a3);
    FormEVanishes(d1, d2, d3, a1 * (e12 * h12), a3 * (e23 * h23), s * t2, t3 * a1, t1 * a3, s * j);
  }

  lemma JIdentity(t1: int, t2: int, t3: int, s1: int, s2: int, s3: int)
    ensures t1 * (t2 * s3 + t3 * s2) - t3 * (t1 * s2 + t2 * s1) == t2 * (t1 * s3 - t3 * s1)
  {
  }

  lemma SeventhForward(x1: int, y1: int, x2: int, y2: int, x3: int, y3: int, a1: int)
    requires a1 == -(y3 * SumE(-x1, y1, x2, y2) + x3 * SumH(-x1, y1, x2, y2))
    ensures var e, h := SumE(x1, y1, x2, y2), SumH(x1, y1, x2, y2);
            (a1 * (e * h) + (y1 * y1 - x1 * x1) * ((x3 * h + y3 * e) * (x2 * y2))
            + (y2 * y2 - x2 * x2) * ((x1 * y1) * (x3 * h - y3 * e))) == 0
  {
    hide SumE, SumH;
    PairIdentities(x1, y1, x2, y2);
    VanishSeventh(x3, y3, SumE(x1, y1, x2, y2), SumH(x1, y1, x2, y2), SumE(-x1, y1, x2, y2), SumH(-x1, y1, x2, y2),
                  x1 * y1, x2 * y2, y1 * y1 - x1 * x1, y2 * y2 - x2 * x2);
  }

  lemma SeventhBackward(x1: int, y1: int, x2: int, y2: int, x3: int, y3: int, s: int, a1: int, a3: int)
    requires var e, h := SumE(x2, y2, x3, y3), SumH(x2, y2, x3, y3); s == x1 * h + y1 * e && a1 == x1 * h - y1 * e
    requires a3 == -(y1 * SumE(-x3, y3, x2, y2) + x1 * SumH(-x3, y3, x2, y2))
    ensures var e, h := SumE(x2, y2, x3, y3), SumH(x2, y2, x3, y3);
            a3 * (e * h) + (y3 * y3 - x3 * x3) * (s * (x2 * y2)) + (y2 * y2 - x2 * x2) * ((x3 * y3) * a1) == 0
  {
    SumSymmetric(x2, y2, x3, y3);
    hide SumE, SumH;
    SeventhForward(x3, y3, x2, y2, x1, y1, a3);
  }

  lemma SumSymmetric(x1: int, y1: int, x2: int, y2: int)
    ensures SumE(x1, y1, x2, y2) == SumE(x2, y2, x1, y1) && SumH(x1, y1, x2, y2) == SumH(x2, y2, x1, y1)
  {
  }

  /** The x-coordinates of (P1 + P2) + P3 and P1 + (P2 + P3), as fractions over f*g + d*e*h*t, agree modulo p. */
  lemma TripleSum(p: int, d: int, x1: int, y1: int, x2: int, y2: int, x3: int, y3: int)
    requires OnCurve(p, d, x1, y1) && OnCurve(p, d, x2, y2) && OnCurve(p, d, x3, y3)
    ensures var e12, h12, m12 := SumE(x1, y1, x2, y2), SumH(x1, y1, x2, y2), d * (x1 * y1) * (x2 * y2);
            var e23, h23, m23 := SumE(x2, y2, x3, y3), SumH(x2, y2, x3, y3), d * (x2 * y2) * (x3 * y3);
            var n1, d1 := x3 * (h12 * (1 + m12)) + y3 * (e12 * (1 - m12)),
                          (1 - m12) * (1 + m12) + d * (e12 * h12) * (x3 * y3);
            var n2, d2 := x1 * (h23 * (1 + m23)) + y1 * (e23 * (1 - m23)),
                          (1 - m23) * (1 + m23) + d * (e23 * h23) * (x1 * y1);
            Eq(p, n1 * d2, n2 * d1)
  {
    hide SumE, SumH, FormE, Divides;
    var e12, h12, m12 := SumE(x1, y1, x2, y2), SumH(x1, y1, x2, y2), d * (x1 * y1) * (x2 * y2);
    var e23, h23, m23 := SumE(x2, y2, x3, y3), SumH(x2, y2, x3, y3), d * (x2 * y2) * (x3 * y3);
    var n1, d1 := x3 * (h12 * (1 + m12)) + y3 * (e12 * (1 - m12)), (1 - m12) * (1 + m12) + d * (e12 * h12) * (x3 * y3);
    var n2, d2 := x1 * (h23 * (1 + m23)) + y1 * (e23 * (1 - m23)), (1 - m23) * (1 + m23) + d * (e23 * h23) * (x1 * y1);
    var t1, t2, t3 := x1 * y1, x2 * y2, x3 * y3;
    var s, a1, a3 := x3 * h12 + y3 * e12, x1 * h23 - y1 * e23, x3 * h12 - y3 * e12;
    var j := t1 * (y3 * y3 + x3 * x3) - t3 * (y1 * y1 + x1 * x1);
    FormEOfThree(x1, y1, x2, y2, x3, y3);
    FormsRotate(x1, y1, x2, y2, x3, y3);
    Numerator(x3, y3, e12, h12, m12);
    Numerator(x1, y1, e23, h23, m23);
    Denominator(d, m12, e12 * h12, t3);
    Denominator(d, m23, e23 * h23, t1);
    CrossDifference(d, t1, t2, t3, s, a1, a3, e12 * h12, e23 * h23, j, n1, d1, n2, d2);
    FormEModP(p, d * t1 * t1, d * t2 * t2, d * t3 * t3, y1 * y1 - x1 * x1, y2 * y2 - x2 * x2, y3 * y3 - x3 * x3,
              a1 * (e12 * h12), a3 * (e23 * h23), s * t2, t3 * a1, t1 * a3, s * j);
    DividesMul(p,
               FormE(d * t1 * t1, d * t2 * t2, d * t3 * t3, a1 * (e12 * h12), a3 * (e23 * h23), s * t2, t3 * a1,
                     t1 * a3, s * j), d * t2);
  }

  lemma Numerator(x: int, y: int, e: int, h: int, m: int)
    ensures x * (h * (1 + m)) + y * (e * (1 - m)) == (x * h + y * e) + m * (x * h - y * e)
  {
  }

  lemma Denominator(d: int, m: int, k: int, t: int)
    ensures (1 - m) * (1 + m) + d * k * t == 1 - m * m + d * t * k
  {
  }
}
