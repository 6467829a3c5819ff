/** The addition law of the curve -x^2 + y^2 = 1 + d*x^2*y^2 on affine coordinates,
    modulo p: completeness, closure and associativity of the rational formulas

      x3 = (x1*y2 + x2*y1) / (1 + d*x1*x2*y1*y2)
      y3 = (y1*y2 + x1*x2) / (1 - d*x1*x2*y1*y2)

    stated on numerators and denominators, without division. */
module EdwardsLaw {
  import opened Numbers
  import opened Fermat
  import opened Field25519

  /** (x, y) is on the curve modulo p. */
  ghost predicate OnCurve(p: int, d: int, x: int, y: int) {
    Eq(p, y * y - x * x, 1 + d * (x * y) * (x * y))
  }

  // ---------------------------------------------------------------- completeness

  /** d*q^2 is a square only when q is zero. */
  lemma NonSquareMultiple(p: int, d: int, n: int, q: int)
    requires IsPrime(p) && NonSquare(p, d) && Eq(p, n * n, d * q * q)
    ensures Divides(p, q)
  {
    hide Divides;
    if !Divides(p, q) {
      var z := Pow(q, p - 2);
      FermatInverse(p, q);
      // (n*z)^2 - d = z^2*(n^2 - d*q^2) + d*(q*z + 1)*(q*z - 1)
      RootCertificate(n, z, d, q);
      Combine2(p, (n * z) * (n * z) - d, z * z, n * n - d * q * q, d * (q * z + 1), q * z - 1);
      NotASquare(p, d, n * z);
    }
  }

  lemma NotASquare(p: int, d: int, w: int)
    ensures NonSquare(p, d) ==> !Eq(p, w * w, d)
  {
  }

  lemma RootCertificate(n: int, z: int, d: int, q: int)
    ensures (n * z) * (n * z) - d == z * z * (n * n - d * q * q) + d * (q * z + 1) * (q * z - 1)
  {
    assert z * z * (n * n - d * q * q) == z * z * (n * n) - d * (q * z) * (q * z);
    assert d * (q * z + 1) * (q * z - 1) == d * (q * z) * (q * z) - d;
  }

  /** If d*t1*t2 = +-1 then (y1 + eps*i*x1)^2 = d*(t1*(y2 + i*x2))^2. */
  lemma ExceptionalPair(p: int, d: int, i: int, x1: int, y1: int, x2: int, y2: int, eps: int)
    requires OnCurve(p, d, x1, y1) && OnCurve(p, d, x2, y2)
    requires Eq(p, i * i, -1) && Eq(p, d * (x1 * y1) * (x2 * y2), eps) && (eps == 1 || eps == -1)
    ensures var n, q := y1 + eps * i * x1, (x1 * y1) * (y2 + i * x2);
            Eq(p, n * n, d * q * q)
  {
    hide Divides;
    var t1, t2 := x1 * y1, x2 * y2;
    var n, q := y1 + eps * i * x1, t1 * (y2 + i * x2);
    var h1 := y1 * y1 - x1 * x1 - (1 + d * t1 * t1);
    var h2 := y2 * y2 - x2 * x2 - (1 + d * t2 * t2);
    var hi := i * i - -1;
    var m := d * t1 * t2;
    var a := d * t1 * t1;
    assert eps * eps == 1 && 1 * 1 == 1;
    SquareOfTwist(x1, y1, i, eps);
    SquareOfTwist(x2, y2, i, 1);
    ScaledSquare(d, t1, y2 + i * x2);
    ExceptionalCertificate(d, t1, t2, i, eps, x1 * x1, x2 * x2, h1, h2, hi, a, m);
    Combine4(p, n * n - d * q * q, 1, h1, -a, h2, x1 * x1 - a * (x2 * x2), hi, -(m + eps) - 2 * i * t1, m - eps);
  }

  lemma SquareOfTwist(x: int, y: int, i: int, e: int)
    requires e * e == 1
    ensures (y + e * i * x) * (y + e * i * x) == y * y - x * x + 2 * e * i * (x * y) + (i * i - -1) * (x * x)
  {
    var j := e * i;
    assert j * j == (e * e) * (i * i);
    assert (y + j * x) * (y + j * x) == y * y + 2 * j * (x * y) + (j * j) * (x * x);
  }

  lemma ScaledSquare(d: int, t: int, w: int)
    ensures d * (t * w) * (t * w) == (d * t * t) * (w * w)
  {
  }

  lemma ExceptionalCertificate(d: int, t1: int, t2: int, i: int, e: int, a1: int, a2: int, h1: int, h2: int, hi: int,
                               a: int, m: int)
    requires e * e == 1 && a == d * t1 * t1 && m == d * t1 * t2
    ensures (h1 + 1 + a + 2 * e * i * t1 + hi * a1) - a * (h2 + 1 + d * t2 * t2 + 2 * 1 * i * t2 + hi * a2)
         == 1 * h1 + -a * h2 + (a1 - a * a2) * hi + (-(m + e) - 2 * i * t1) * (m - e)
  {
    assert a * (d * t2 * t2) == m * m;
    assert a * (2 * 1 * i * t2) == 2 * i * t1 * m;
    assert (m + e) * (m - e) == m * m - 1;
  }

  /** Completeness: the denominators 1 + d*t1*t2 and 1 - d*t1*t2 never vanish on the curve. */
  lemma Complete(p: int, d: int, i: int, x1: int, y1: int, x2: int, y2: int, eps: int)
    requires IsPrime(p) && p > 2 && NonSquare(p, d) && Eq(p, i * i, -1)
    requires OnCurve(p, d, x1, y1) && OnCurve(p, d, x2, y2) && (eps == 1 || eps == -1)
    ensures !Eq(p, d * (x1 * y1) * (x2 * y2), eps)
  {
    hide Divides, NonSquare;
    var m := d * (x1 * y1) * (x2 * y2);
    if Eq(p, m, eps) {
      // both y2 + i*x2 and y2 - i*x2 are zero
      ExceptionalPair(p, d, i, x1, y1, x2, y2, eps);
      assert -i * -i == i * i;
      ExceptionalPair(p, d, -i, x1, y1, x2, y2, eps);
      NonSquareMultiple(p, d, y1 + eps * i * x1, (x1 * y1) * (y2 + i * x2));
      NonSquareMultiple(p, d, y1 + eps * -i * x1, (x1 * y1) * (y2 + -i * x2));
      UnitProduct(p, d, x1 * y1, x2, y2, eps);
      PrimeDividesProduct(p, x1 * y1, y2 + i * x2);
      PrimeDividesProduct(p, x1 * y1, y2 + -i * x2);
      DividesAdd(p, y2 + i * x2, y2 + -i * x2);
      assert (y2 + i * x2) + (y2 + -i * x2) == 2 * y2;
      SmallNotDivisible(p, 2);
      PrimeDividesProduct(p, 2, y2);
    }
  }

  /** When d*t*(x*y) is a unit, so are t and y. */
  lemma UnitProduct(p: int, d: int, t: int, x: int, y: int, eps: int)
    requires IsPrime(p) && p > 2 && Eq(p, d * t * (x * y), eps) && (eps == 1 || eps == -1)
    ensures !Divides(p, t) && !Divides(p, y)
  {
    hide Divides;
    SmallNotDivisible(p, 1);
    EqDivides(p, d * t * (x * y), eps);
    assert (d * (x * y)) * t == d * t * (x * y) && (d * t * x) * y == d * t * (x * y);
    if Divides(p, eps) {
      DividesMul(p, eps, eps);
    }
    if Divides(p, t) {
      DividesMul(p, t, d * (x * y));
    }
    if Divides(p, y) {
      DividesMul(p, y, d * t * x);
    }
  }

  // ---------------------------------------------------------------- closure

  function SumE(x1: int, y1: int, x2: int, y2: int): int {
    x1 * y2 + x2 * y1
  }

  function SumH(x1: int, y1: int, x2: int, y2: int): int {
    y1 * y2 + x1 * x2
  }

  lemma SumIdentities(x1: int, y1: int, x2: int, y2: int)
    ensures var e, h := SumE(x1, y1, x2, y2), SumH(x1, y1, x2, y2);
            && h * h - e * e == (y1 * y1 - x1 * x1) * (y2 * y2 - x2 * x2)
            && h * h + e * e == (y1 * y1 + x1 * x1) * (y2 * y2 + x2 * x2) + 4 * (x1 * y1) * (x2 * y2)
            && e * h == (x1 * y1) * (y2 * y2 + x2 * x2) + (x2 * y2) * (y1 * y1 + x1 * x1)
  {
    SumProduct(x1, y1, x2, y2);
    SumDifference(x1, y1, x2, y2);
    SumTotal(x1, y1, x2, y2);
  }

  lemma SumProduct(x1: int, y1: int, x2: int, y2: int)
    ensures SumE(x1, y1, x2, y2) * SumH(x1, y1, x2, y2)
         == (x1 * y1) * (y2 * y2 + x2 * x2) + (x2 * y2) * (y1 * y1 + x1 * x1)
  {
  }

  lemma SumDifference(x1: int, y1: int, x2: int, y2: int)
    ensures SumH(x1, y1, x2, y2) * SumH(x1, y1, x2, y2) - SumE(x1, y1, x2, y2) * SumE(x1, y1, x2, y2)
         == (y1 * y1 - x1 * x1) * (y2 * y2 - x2 * x2)
  {
  }

  lemma SumTotal(x1: int, y1: int, x2: int, y2: int)
    ensures SumH(x1, y1, x2, y2) * SumH(x1, y1, x2, y2) + SumE(x1, y1, x2, y2) * SumE(x1, y1, x2, y2)
         == (y1 * y1 + x1 * x1) * (y2 * y2 + x2 * x2) + 4 * (x1 * y1) * (x2 * y2)
  {
  }

  lemma SquareSum(x: int, y: int)
    ensures (y * y + x * x) * (y * y + x * x) == (y * y - x * x) * (y * y - x * x) + 4 * (x * y) * (x * y)
  {
  }

  /** Closure on numerators: (e/g, h/f) satisfies the curve equation multiplied by f^2*g^2. */
  lemma Closed(p: int, d: int, x1: int, y1: int, x2: int, y2: int)
    requires OnCurve(p, d, x1, y1) && OnCurve(p, d, x2, y2)
    ensures var e, h := SumE(x1, y1, x2, y2), SumH(x1, y1, x2, y2);
            var m := d * (x1 * y1) * (x2 * y2);
            Eq(p, (h * (1 + m)) * (h * (1 + m)) - (e * (1 - m)) * (e * (1 - m)),
                  ((1 - m) * (1 + m)) * ((1 - m) * (1 + m)) + d * (e * h) * (e * h))
  {
    hide Divides, SumE, SumH;
    var e, h := SumE(x1, y1, x2, y2), SumH(x1, y1, x2, y2);
    var t1, t2 := x1 * y1, x2 * y2;
    var m := d * t1 * t2;
    var d1, d2 := y1 * y1 - x1 * x1, y2 * y2 - x2 * x2;
    var s1, s2 := y1 * y1 + x1 * x1, y2 * y2 + x2 * x2;
    var m1, m2 := d * t1 * t1, d * t2 * t2;
    SumIdentities(x1, y1, x2, y2);
    SquareSum(x1, y1);
    SquareSum(x2, y2);
    var z := (h * (1 + m)) * (h * (1 + m)) - (e * (1 - m)) * (e * (1 - m))
           - (((1 - m) * (1 + m)) * ((1 - m) * (1 + m)) + d * (e * h) * (e * h));
    ClosedExpansion(e, h, m, d, e * h);
    ClosedCross(d, t1, t2, s1, s2, d1, d2, m, m1, m2);
    ClosedRest(d1, d2, m1, m2);
    Combine2(p, z, d2 * (1 + m * m) - m2 * (d1 + 1 + m1), d1 - (1 + m1),
                   (1 + m1) * (1 + m * m) - m1 * (d2 + 1 + m2), d2 - (1 + m2));
  }

  lemma ClosedExpansion(e: int, h: int, m: int, d: int, k: int)
    ensures (h * (1 + m)) * (h * (1 + m)) - (e * (1 - m)) * (e * (1 - m))
         == (h * h - e * e) * (1 + m * m) + 2 * m * (h * h + e * e)
    ensures ((1 - m) * (1 + m)) * ((1 - m) * (1 + m)) == (1 - m * m) * (1 - m * m)
  {
    assert (h * (1 + m)) * (h * (1 + m)) == h * h * (1 + 2 * m + m * m);
    assert (e * (1 - m)) * (e * (1 - m)) == e * e * (1 - 2 * m + m * m);
    assert (1 - m) * (1 + m) == 1 - m * m;
  }

  lemma ClosedCross(d: int, t1: int, t2: int, s1: int, s2: int, d1: int, d2: int, m: int, m1: int, m2: int)
    requires m == d * t1 * t2 && m1 == d * t1 * t1 && m2 == d * t2 * t2
    requires s1 * s1 == d1 * d1 + 4 * t1 * t1 && s2 * s2 == d2 * d2 + 4 * t2 * t2
    ensures var k := t1 * s2 + t2 * s1;
            2 * m * (s1 * s2 + 4 * t1 * t2) - d * k * k == -m1 * (d2 * d2) - m2 * (d1 * d1)
    ensures m * m == m1 * m2
  {
    CrossSquare(d, t1, t2, s1, s2);
    CrossTerms(d, t1, t2);
    assert m1 * (s2 * s2) == m1 * (d2 * d2) + m1 * (4 * t2 * t2);
    assert m2 * (s1 * s1) == m2 * (d1 * d1) + m2 * (4 * t1 * t1);
    assert 2 * m * (s1 * s2 + 4 * t1 * t2) == 2 * m * (s1 * s2) + 2 * (4 * m * t1 * t2);
  }

  lemma CrossSquare(d: int, t1: int, t2: int, s1: int, s2: int)
    ensures d * (t1 * s2 + t2 * s1) * (t1 * s2 + t2 * s1)
         == (d * t1 * t1) * (s2 * s2) + (d * t2 * t2) * (s1 * s1) + 2 * (d * t1 * t2) * (s1 * s2)
  {
  }

  lemma CrossTerms(d: int, t1: int, t2: int)
    ensures (d * t1 * t1) * (4 * t2 * t2) == 4 * (d * t1 * t2) * t1 * t2
    ensures (d * t2 * t2) * (4 * t1 * t1) == 4 * (d * t1 * t2) * t1 * t2
    ensures (d * t1 * t2) * (d * t1 * t2) == (d * t1 * t1) * (d * t2 * t2)
  {
  }

  lemma ClosedRest(d1: int, d2: int, m1: int, m2: int)
    ensures (d1 * d2) * (1 + m1 * m2) - (1 - m1 * m2) * (1 - m1 * m2) - m1 * (d2 * d2) - m2 * (d1 * d1)
         == (d2 * (1 + m1 * m2) - m2 * (d1 + 1 + m1)) * (d1 - (1 + m1))
          + ((1 + m1) * (1 + m1 * m2) - m1 * (d2 + 1 + m2)) * (d2 - (1 + m2))
  {
  }
}
