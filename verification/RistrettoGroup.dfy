/** The quotient by the four-torsion: equality of group elements is equality of encodings,
    and the operations of the curve respect it. */
module RistrettoGroup {
  import opened Numbers
  import opened Fermat
  import opened Field25519
  import opened EdwardsLaw
  import opened EdwardsGroup
  import opened EdwardsPoint
  import opened Ristretto
  import opened RistrettoEncode

  /** b is a translate of a by a point of order dividing four. */
  ghost predicate SameCoset(f: Params, a: Affine, b: Affine)
    requires f.p > 0
  {
    var a1 := Rotate(f, a);
    var a2 := Rotate(f, a1);
    b == a || b == a1 || b == a2 || b == Rotate(f, a2)
  }

  lemma RotateFour(f: Params, a: Affine)
    requires f.Valid() && On(f, a)
    ensures Rotate(f, Rotate(f, Rotate(f, Rotate(f, a)))) == a
  {
    hide Divides, NonSquare, IsPrime, OnCurve, Rotate, Eq;
    var b := Rotate(f, Rotate(f, a));
    RotateProducts(f, a);
    RotateProducts(f, b);
    var c := Rotate(f, Rotate(f, b));
    DoubleNegation(f.p, a.x, b.x, c.x);
    DoubleNegation(f.p, a.y, b.y, c.y);
  }

  lemma DoubleNegation(p: int, x: int, y: int, z: int)
    requires Eq(p, y, -x) && Eq(p, z, -y) && 0 <= x < p && 0 <= z < p
    ensures z == x
  {
    hide Divides;
    EqNeg(p, y, -x);
    EqTrans(p, z, -y, x);
    EqSmall(p, z, x);
  }

  lemma CosetOn(f: Params, a: Affine, b: Affine)
    requires f.Valid() && On(f, a) && SameCoset(f, a, b)
    ensures On(f, b)
  {
    hide Divides, NonSquare, IsPrime, OnCurve, Rotate, Eq;
    RotateProducts(f, a);
    RotateProducts(f, Rotate(f, Rotate(f, a)));
  }

  lemma CosetSymmetric(f: Params, a: Affine, b: Affine)
    requires f.Valid() && On(f, a) && SameCoset(f, a, b)
    ensures SameCoset(f, b, a)
  {
    hide Divides, NonSquare, IsPrime, OnCurve, Rotate, Eq;
    RotateFour(f, a);
  }

  lemma CosetTransitive(f: Params, a: Affine, b: Affine, c: Affine)
    requires f.Valid() && On(f, a) && SameCoset(f, a, b) && SameCoset(f, b, c)
    ensures SameCoset(f, a, c)
  {
    hide Divides, NonSquare, IsPrime, OnCurve, Rotate, Eq;
    RotateFour(f, a);
  }

  // ---------------------------------------------------------------- canonical members

  lemma CanonicalRotate(f: Params, a: Affine)
    requires f.Valid() && On(f, a)
    ensures Canonical(f, Rotate(f, a)) == Canonical(f, a)
  {
    hide Divides, NonSquare, IsPrime, OnCurve, Rotate, Eq;
    var b := Rotate(f, a);
    var c := Rotate(f, b);
    RotateProducts(f, a);
    RotateFour(f, a);
    DividesMod(f.p, a.x * a.y);
    DividesMod(f.p, b.x * b.y);
    if Divides(f.p, a.x * a.y) {
      NegDivides(f.p, b.x * b.y, a.x * a.y);
    } else {
      OppositeSigns(f.p, b.x * b.y, a.x * a.y);
      FactorDivides(f.p, a.x, a.y);
      OppositeSigns(f.p, c.x, a.x);
      ModSmall(f.p, a.x);
      ModSmall(f.p, c.x);
    }
  }

  lemma NegDivides(p: int, a: int, b: int)
    requires Eq(p, a, -b) && Divides(p, b)
    ensures Divides(p, a)
  {
    DividesMul(p, b, -1);
    EqDivides(p, a, -b);
  }

  lemma CanonicalOfCoset(f: Params, a: Affine, b: Affine)
    requires f.Valid() && On(f, a) && SameCoset(f, a, b)
    ensures Canonical(f, a) == Canonical(f, b)
  {
    hide Divides, NonSquare, IsPrime, OnCurve, Rotate, Eq, Canonical;
    RotateProducts(f, a);
    CanonicalRotate(f, a);
    CanonicalRotate(f, Rotate(f, a));
    CanonicalRotate(f, Rotate(f, Rotate(f, a)));
  }

  /** The points with a zero coordinate are the translates of the neutral element. */
  lemma FourTorsion(f: Params, a: Affine)
    requires f.Valid() && On(f, a) && (a.x == 0 || a.y == 0)
    ensures SameCoset(f, Zero, a)
  {
    hide Divides, NonSquare, IsPrime, OnCurve, Eq, Rotate;
    ZeroOn(f);
    RotateProducts(f, Zero);
    var r1 := Rotate(f, Zero);
    var r2 := Rotate(f, r1);
    var r3 := Rotate(f, r2);
    RotateOn(f, Zero);
    RotateOn(f, r1);
    RotateOn(f, r2);
    AxisPoint(f, a);
    assert f.i * 0 == 0 && f.i * 1 == f.i;
    EqRefl(f.p, 0);
    if a.x == 0 {
      EqSmall(f.p, r2.x, 0);
      if Eq(f.p, a.y, 1) {
        EqSmall(f.p, a.y, 1);
      } else {
        EqSym(f.p, r2.y, -1);
        EqTrans(f.p, a.y, -1, r2.y);
        EqSmall(f.p, a.y, r2.y);
      }
    } else {
      EqSmall(f.p, r1.y, 0);
      if Eq(f.p, a.x, f.i) {
        EqSym(f.p, r1.x, f.i);
        EqTrans(f.p, a.x, f.i, r1.x);
        EqSmall(f.p, a.x, r1.x);
      } else {
        ThirdRotation(f, a.x, r2.y, r3.x);
        assert f.i * r2.x == 0 by { EqSmall(f.p, r2.x, 0); }
        EqSmall(f.p, r3.y, 0);
      }
    }
  }

  lemma ThirdRotation(f: Params, x: int, y2: int, x3: int)
    requires Eq(f.p, x, -f.i) && Eq(f.p, y2, -1) && Eq(f.p, x3, f.i * y2) && 0 <= x < f.p && 0 <= x3 < f.p
    ensures x == x3
  {
    hide Divides;
    EqScale(f.p, f.i, y2, -1);
    assert f.i * -1 == -f.i;
    EqTrans(f.p, x3, f.i * y2, -f.i);
    EqSym(f.p, x3, -f.i);
    EqTrans(f.p, x, -f.i, x3);
    EqSmall(f.p, x, x3);
  }

  /** x = 0 forces y = +-1, and y = 0 forces x = +-i. */
  lemma AxisPoint(f: Params, a: Affine)
    requires f.Valid() && On(f, a)
    ensures a.x == 0 ==> Eq(f.p, a.y, 1) || Eq(f.p, a.y, -1)
    ensures a.y == 0 ==> Eq(f.p, a.x, f.i) || Eq(f.p, a.x, -f.i)
  {
    hide Divides, NonSquare;
    var p, x, y := f.p, a.x, a.y;
    if x == 0 {
      assert y * y - x * x == y * y && f.d * (x * y) * (x * y) == 0 && 1 * 1 == 1;
      EqualSquares(p, y, 1);
    }
    if y == 0 {
      assert y * y - x * x == -(x * x) && f.d * (x * y) * (x * y) == 0;
      EqNeg(p, -(x * x), 1);
      EqSym(p, f.i * f.i, -1);
      EqTrans(p, x * x, -1, f.i * f.i);
      EqualSquares(p, x, f.i);
    }
  }

  lemma CanonicalInCoset(f: Params, a: Affine)
    requires f.Valid() && On(f, a)
    ensures SameCoset(f, a, Canonical(f, a))
  {
    hide Divides, NonSquare, IsPrime, OnCurve, Rotate, Eq;
    DividesMod(f.p, a.x * a.y);
    if Divides(f.p, a.x * a.y) {
      PrimeDividesProduct(f.p, a.x, a.y);
      if Divides(f.p, a.x) {
        DividesSmall(f.p, a.x);
      } else {
        DividesSmall(f.p, a.y);
      }
      FourTorsion(f, a);
      ZeroOn(f);
      CosetSymmetric(f, Zero, a);
    }
  }

  // ---------------------------------------------------------------- the equality test

  lemma CrossProducts(f: Params, p: Point, q: Point, a: Affine, b: Affine)
    requires f.Valid() && Represents(f, p, a) && Represents(f, q, b)
    ensures RistrettoEqual(f, p, q) <==> Eq(f.p, a.x * b.y, a.y * b.x) || Eq(f.p, a.y * b.y, a.x * b.x)
  {
    hide Divides, NonSquare, IsPrime;
    CrossTest(f.p, p.X, q.Y, p.Y, q.X, a.x, b.y, a.y, b.x, p.Z, q.Z);
    CrossTest(f.p, p.Y, q.Y, p.X, q.X, a.y, b.y, a.x, b.x, p.Z, q.Z);
  }

  lemma CrossTest(n: int, X1: int, Y2: int, Y1: int, X2: int, x1: int, y2: int, y1: int, x2: int, z1: int, z2: int)
    requires IsPrime(n) && !Divides(n, z1) && !Divides(n, z2)
    requires Eq(n, X1, x1 * z1) && Eq(n, Y2, y2 * z2) && Eq(n, Y1, y1 * z1) && Eq(n, X2, x2 * z2)
    ensures (X1 * Y2) % n == (Y1 * X2) % n <==> Eq(n, x1 * y2, y1 * x2)
  {
    hide Divides;
    var z := z1 * z2;
    ProductNonzero(n, z1, z2);
    EqMul(n, X1, x1 * z1, Y2, y2 * z2);
    EqMul(n, Y1, y1 * z1, X2, x2 * z2);
    FactorZ(x1, y2, z1, z2);
    FactorZ(y1, x2, z1, z2);
    assert (x1 * y2) * z == z * (x1 * y2) && (y1 * x2) * z == z * (y1 * x2);
    EqIffMod(n, X1 * Y2, Y1 * X2);
    EqSym(n, X1 * Y2, z * (x1 * y2));
    EqSym(n, Y1 * X2, z * (y1 * x2));
    if Eq(n, X1 * Y2, Y1 * X2) {
      EqTrans(n, z * (x1 * y2), X1 * Y2, Y1 * X2);
      EqTrans(n, z * (x1 * y2), Y1 * X2, z * (y1 * x2));
      EqCancel(n, z, x1 * y2, y1 * x2);
    } else if Eq(n, x1 * y2, y1 * x2) {
      EqScale(n, z, x1 * y2, y1 * x2);
      EqTrans(n, X1 * Y2, z * (x1 * y2), z * (y1 * x2));
      EqTrans(n, X1 * Y2, z * (y1 * x2), Y1 * X2);
    }
  }

  /** Translating commutes with addition. */
  lemma PlusCoset(f: Params, a: Affine, b: Affine, c: Affine)
    requires f.Valid() && On(f, a) && On(f, b) && SameCoset(f, b, c)
    ensures SameCoset(f, Plus(f, a, b), Plus(f, a, c))
  {
    hide Divides, NonSquare, IsPrime, OnCurve, Rotate, Eq, Plus;
    RotateProducts(f, b);
    PlusRotate(f, a, b);
    PlusRotate(f, a, Rotate(f, b));
    PlusRotate(f, a, Rotate(f, Rotate(f, b)));
  }

  lemma PlusCosets(f: Params, a: Affine, a': Affine, b: Affine, b': Affine)
    requires f.Valid() && On(f, a) && On(f, b) && SameCoset(f, a, a') && SameCoset(f, b, b')
    ensures SameCoset(f, Plus(f, a, b), Plus(f, a', b'))
  {
    hide Divides, NonSquare, IsPrime, OnCurve, Rotate, Eq, Plus, SameCoset;
    CosetOn(f, a, a');
    CosetOn(f, b, b');
    PlusCoset(f, a, b, b');
    PlusCoset(f, b', a, a');
    PlusCommutes(f, a, b');
    PlusCommutes(f, a', b');
    PlusOn(f, a, b);
    CosetTransitive(f, Plus(f, a, b), Plus(f, a, b'), Plus(f, a', b'));
  }

  /** b - a, whose coordinates vanish exactly when the cross products agree. */
  lemma DifferenceOnAxis(f: Params, a: Affine, b: Affine)
    requires f.Valid() && On(f, a) && On(f, b)
    requires Eq(f.p, a.x * b.y, a.y * b.x) || Eq(f.p, a.y * b.y, a.x * b.x)
    ensures var d := Plus(f, b, Neg(f, a)); On(f, d) && (d.x == 0 || d.y == 0)
  {
    hide Divides, NonSquare, IsPrime, OnCurve, Plus;
    var p, n := f.p, Neg(f, a);
    NegOn(f, a);
    PlusOn(f, b, n);
    PlusIsSum(f, b, n);
    Denominators(f, b, n);
    var d, m := Plus(f, b, n), CrossProduct(f, b, n);
    if Eq(p, a.x * b.y, a.y * b.x) {
      DifferenceNumerator(p, b.x, a.y, n.x, b.y, a.x);
      ZeroFraction(p, d.x, 1 + m, SumE(b.x, b.y, n.x, n.y));
    } else {
      EqSym(p, a.y * b.y, a.x * b.x);
      DifferenceNumerator(p, b.y, a.y, n.x, b.x, a.x);
      ZeroFraction(p, d.y, 1 - m, SumH(b.x, b.y, n.x, n.y));
    }
  }

  lemma DifferenceNumerator(p: int, u: int, v: int, nx: int, w: int, x: int)
    requires Eq(p, nx, -x) && (Eq(p, x * w, v * u) || Eq(p, v * u, x * w))
    ensures Divides(p, u * v + nx * w) && Divides(p, u * v + w * nx)
  {
    hide Divides;
    var z := x * w - v * u;
    if Eq(p, v * u, x * w) {
      EqSym(p, v * u, x * w);
    }
    assert u * v + nx * w == w * (nx - -x) + -1 * z;
    Combine2(p, u * v + nx * w, w, nx - -x, -1, z);
    assert u * v + w * nx == u * v + nx * w;
  }

  lemma ZeroFraction(p: int, x: int, g: int, n: int)
    requires IsPrime(p) && !Divides(p, g) && Eq(p, x * g, n) && Divides(p, n) && 0 <= x < p
    ensures x == 0
  {
    hide Divides;
    EqDivides(p, x * g, n);
    PrimeDividesProduct(p, x, g);
    DividesSmall(p, x);
  }

  lemma AddBack(f: Params, a: Affine, b: Affine)
    requires f.Valid() && On(f, a) && On(f, b)
    ensures Plus(f, a, Plus(f, b, Neg(f, a))) == b
  {
    hide Divides, NonSquare, IsPrime, OnCurve, Plus;
    var n := Neg(f, a);
    NegOn(f, a);
    PlusOn(f, b, n);
    PlusCommutes(f, a, Plus(f, b, n));
    PlusAssociates(f, b, n, a);
    PlusCommutes(f, n, a);
    PlusNeg(f, a);
    PlusZero(f, b);
  }

  /** The equality test recognises exactly the four-torsion cosets. */
  lemma RistrettoEqualSpec(f: Params, p: Point, q: Point, a: Affine, b: Affine)
    requires f.Valid() && On(f, a) && On(f, b) && Represents(f, p, a) && Represents(f, q, b)
    ensures RistrettoEqual(f, p, q) <==> SameCoset(f, a, b)
  {
    hide Divides, NonSquare, IsPrime, OnCurve, Plus, Rotate, RistrettoEqual, Represents, SameCoset;
    CrossProducts(f, p, q, a, b);
    if RistrettoEqual(f, p, q) {
      DifferenceOnAxis(f, a, b);
      var d := Plus(f, b, Neg(f, a));
      FourTorsion(f, d);
      ZeroOn(f);
      PlusCoset(f, a, Zero, d);
      PlusZero(f, a);
      AddBack(f, a, b);
    } else if SameCoset(f, a, b) {
      CosetCross(f, a, b);
    }
  }

  lemma CosetCross(f: Params, a: Affine, b: Affine)
    requires f.Valid() && On(f, a) && SameCoset(f, a, b)
    ensures Eq(f.p, a.x * b.y, a.y * b.x) || Eq(f.p, a.y * b.y, a.x * b.x)
  {
    hide Divides, NonSquare, IsPrime, OnCurve, Rotate, Eq;
    RotateCross(f, a);
    RotateProducts(f, a);
    var a2 := Rotate(f, Rotate(f, a));
    if b == a2 {
      TwiceCross(f.p, a.x, a.y, b.x, b.y);
    } else if b == Rotate(f, a2) {
      ThriceCross(f, a, a2);
    } else if b == a {
      assert a.x * a.y == a.y * a.x;
      EqRefl(f.p, a.x * a.y);
    }
  }

  lemma RotateCross(f: Params, a: Affine)
    requires f.Valid() && On(f, a)
    ensures Eq(f.p, a.y * Rotate(f, a).y, a.x * Rotate(f, a).x)
  {
    hide Divides, NonSquare, IsPrime, OnCurve, Rotate, Eq;
    RotateOn(f, a);
    SwapFactors(f.i, a.x, a.y);
    ProportionalPair(f.p, a.x, a.y, f.i * a.y, f.i * a.x, Rotate(f, a).x, Rotate(f, a).y);
  }

  lemma SwapFactors(i: int, x: int, y: int)
    ensures y * (i * x) == x * (i * y) && y * -x == x * -y
    ensures i * -y == -(i * y) && y * (i * -x) == x * (i * -y)
  {
  }

  lemma TwiceCross(p: int, x: int, y: int, x': int, y': int)
    requires Eq(p, x', -x) && Eq(p, y', -y)
    ensures Eq(p, x * y', y * x')
  {
    SwapFactors(1, x, y);
    ProportionalPair(p, y, x, -x, -y, x', y');
  }

  lemma ThriceCross(f: Params, a: Affine, a2: Affine)
    requires f.Valid() && On(f, a2) && Eq(f.p, a2.x, -a.x) && Eq(f.p, a2.y, -a.y)
    ensures Eq(f.p, a.y * Rotate(f, a2).y, a.x * Rotate(f, a2).x)
  {
    hide Divides, NonSquare, IsPrime, OnCurve, Rotate, Eq;
    var a3 := Rotate(f, a2);
    RotateOn(f, a2);
    EqScale(f.p, f.i, a2.x, -a.x);
    EqScale(f.p, f.i, a2.y, -a.y);
    EqTrans(f.p, a3.x, f.i * a2.y, f.i * -a.y);
    EqTrans(f.p, a3.y, f.i * a2.x, f.i * -a.x);
    SwapFactors(f.i, a.x, a.y);
    ProportionalPair(f.p, a.x, a.y, f.i * -a.y, f.i * -a.x, a3.x, a3.y);
  }

  lemma ProportionalPair(p: int, u: int, v: int, x: int, y: int, x': int, y': int)
    requires Eq(p, x', x) && Eq(p, y', y) && v * y == u * x
    ensures Eq(p, v * y', u * x')
  {
    hide Divides;
    EqScale(p, v, y', y);
    EqScale(p, u, x', x);
    EqSym(p, u * x', u * x);
    EqTrans(p, v * y', u * x, u * x');
  }

  // ---------------------------------------------------------------- even points are a subgroup

  lemma EvenZero(f: Params)
    requires f.Valid()
    ensures Even(f, Zero)
  {
    EqRefl(f.p, 0);
    assert IsEvenRoot(f, Zero, 0);
  }

  lemma EvenCongruent(f: Params, a: Affine, b: Affine)
    requires Even(f, a) && (Eq(f.p, b.y, a.y) || Eq(f.p, b.y, -a.y))
    ensures Even(f, b)
  {
    hide Divides;
    var w :| IsEvenRoot(f, a, w);
    if Eq(f.p, b.y, a.y) {
      EqMul(f.p, b.y, a.y, b.y, a.y);
    } else {
      EqMul(f.p, b.y, -a.y, b.y, -a.y);
      assert -a.y * -a.y == a.y * a.y;
    }
    EqRefl(f.p, 1);
    EqSub(f.p, 1, 1, b.y * b.y, a.y * a.y);
    EqSym(f.p, 1 - b.y * b.y, 1 - a.y * a.y);
    EqTrans(f.p, w * w, 1 - a.y * a.y, 1 - b.y * b.y);
    assert IsEvenRoot(f, b, w);
  }

  lemma EvenNeg(f: Params, a: Affine)
    requires f.Valid() && Even(f, a)
    ensures Even(f, Neg(f, a))
  {
    EqRefl(f.p, a.y);
    EvenCongruent(f, a, Neg(f, a));
  }

  /** 1 - y^2 vanishes on the curve only where x does. */
  lemma EvenRootNonzero(f: Params, a: Affine, w: int)
    requires f.Valid() && On(f, a) && IsEvenRoot(f, a, w) && a.x != 0
    ensures !Divides(f.p, w)
  {
    hide Divides, NonSquare, OnCurve;
    SmallNotDivisible(f.p, a.x);
    SmallNotDivisible(f.p, 1);
    EqDivides(f.p, w * w, 1 - a.y * a.y);
    FactorDivides(f.p, w, w);
    if a.y == 0 {
      assert 1 - 0 * 0 == 1;
    } else {
      SmallNotDivisible(f.p, a.y);
      YNotOne(f, a.x, a.y);
    }
  }

  /** k^2 + d*h^2 factors as (1 + d*y1^2*y2^2)(1 + d*x1^2*x2^2). */
  lemma SumFactors(d: int, x1: int, y1: int, x2: int, y2: int)
    ensures var k, h := 1 - d * (x1 * y1) * (x2 * y2), SumH(x1, y1, x2, y2);
            k * k + d * (h * h) == (1 + d * ((y1 * y1) * (y2 * y2))) * (1 + d * ((x1 * x1) * (x2 * x2)))
  {
    FactorsOfSum(d, y1 * y2, x1 * x2);
    RegroupPairs(x1, y1, x2, y2);
    assert (x1 * y1) * (x2 * y2) == (y1 * y2) * (x1 * x2);
    assert d * (x1 * y1) * (x2 * y2) == d * ((x1 * y1) * (x2 * y2));
  }

  lemma RegroupPairs(x1: int, y1: int, x2: int, y2: int)
    ensures (y1 * y2) * (y1 * y2) == (y1 * y1) * (y2 * y2) && (x1 * x2) * (x1 * x2) == (x1 * x1) * (x2 * x2)
  {
  }

  lemma FactorsOfSum(d: int, a: int, b: int)
    ensures (1 - d * (a * b)) * (1 - d * (a * b)) + d * ((a + b) * (a + b)) == (1 + d * (a * a)) * (1 + d * (b * b))
  {
  }

  /** With q_i = 1 + d*y_i^2 and x_i^2*q_i = y_i^2 - 1:
      (1 + d*x1^2*x2^2)*q1*q2 = (1 + d)(1 + d*y1^2*y2^2). */
  lemma FactorTimesQ(p: int, d: int, x1: int, y1: int, x2: int, y2: int)
    requires OnCurve(p, d, x1, y1) && OnCurve(p, d, x2, y2)
    ensures var q1, q2 := 1 + d * y1 * y1, 1 + d * y2 * y2;
            Eq(p, (1 + d * ((x1 * x1) * (x2 * x2))) * (q1 * q2), (1 + d) * (1 + d * ((y1 * y1) * (y2 * y2))))
  {
    var q1, q2 := 1 + d * y1 * y1, 1 + d * y2 * y2;
    CurveForX(p, d, x1, y1);
    CurveForX(p, d, x2, y2);
    hide Divides, OnCurve;
    EqMul(p, (x1 * x1) * q1, y1 * y1 - 1, (x2 * x2) * q2, y2 * y2 - 1);
    EqScale(p, d, ((x1 * x1) * q1) * ((x2 * x2) * q2), (y1 * y1 - 1) * (y2 * y2 - 1));
    EqRefl(p, q1 * q2);
    EqAdd(p, q1 * q2, q1 * q2, d * (((x1 * x1) * q1) * ((x2 * x2) * q2)), d * ((y1 * y1 - 1) * (y2 * y2 - 1)));
    RegroupQ(d, x1 * x1, x2 * x2, q1, q2);
    QProduct(d, y1 * y1, y2 * y2);
    assert d * y1 * y1 == d * (y1 * y1) && d * y2 * y2 == d * (y2 * y2);
  }

  lemma RegroupQ(d: int, a: int, b: int, q1: int, q2: int)
    ensures q1 * q2 + d * ((a * q1) * (b * q2)) == (1 + d * (a * b)) * (q1 * q2)
  {
  }

  lemma QProduct(d: int, a: int, b: int)
    ensures (1 + d * a) * (1 + d * b) + d * ((a - 1) * (b - 1)) == (1 + d) * (1 + d * (a * b))
  {
  }

  /** The ordinate of a sum: (1 - y3^2)*k^2*q1*q2 = -(1 + d)*x3^2*N^2, N = 1 + d*y1^2*y2^2. */
  lemma OrdinateOfSum(p: int, d: int, x1: int, y1: int, x2: int, y2: int, x3: int, y3: int)
    requires OnCurve(p, d, x1, y1) && OnCurve(p, d, x2, y2) && OnCurve(p, d, x3, y3)
    requires Eq(p, y3 * (1 - d * (x1 * y1) * (x2 * y2)), SumH(x1, y1, x2, y2))
    ensures var k, n := 1 - d * (x1 * y1) * (x2 * y2), 1 + d * ((y1 * y1) * (y2 * y2));
            var q1, q2 := 1 + d * y1 * y1, 1 + d * y2 * y2;
            Eq(p, (1 - y3 * y3) * (k * k) * (q1 * q2), (-1 - d) * (x3 * x3) * (n * n))
  {
    var k, n := 1 - d * (x1 * y1) * (x2 * y2), 1 + d * ((y1 * y1) * (y2 * y2));
    var q1, q2, q3 := 1 + d * y1 * y1, 1 + d * y2 * y2, 1 + d * y3 * y3;
    var h, ff := SumH(x1, y1, x2, y2), 1 + d * ((x1 * x1) * (x2 * x2));
    CurveForX(p, d, x3, y3);
    FactorTimesQ(p, d, x1, y1, x2, y2);
    SumFactors(d, x1, y1, x2, y2);
    hide Divides, OnCurve, SumH;
    // q3*k^2 = k^2 + d*h^2 = n*ff
    EqMul(p, y3 * k, h, y3 * k, h);
    EqScale(p, d, (y3 * k) * (y3 * k), h * h);
    EqRefl(p, k * k);
    EqAdd(p, k * k, k * k, d * ((y3 * k) * (y3 * k)), d * (h * h));
    ScaleQ(d, y3, k);
    SumChain(p, 1 - y3 * y3, x3 * x3, q3, k * k, n, ff, q1 * q2, 1 + d);
  }

  lemma ScaleQ(d: int, y: int, k: int)
    ensures k * k + d * ((y * k) * (y * k)) == (1 + d * y * y) * (k * k)
  {
  }

  lemma SumChain(p: int, y: int, xx: int, q3: int, kk: int, n: int, ff: int, q: int, e: int)
    requires Eq(p, xx * q3, -y) && Eq(p, q3 * kk, n * ff) && Eq(p, ff * q, e * n)
    ensures Eq(p, y * kk * q, -e * xx * (n * n))
  {
    hide Divides;
    EqNeg(p, xx * q3, -y);
    EqSym(p, -(xx * q3), y);
    EqScale(p, kk * q, y, -(xx * q3));
    EqScale(p, -(xx * q), q3 * kk, n * ff);
    EqScale(p, -(xx * n), ff * q, e * n);
    SumChainIdentity(y, xx, q3, kk, n, ff, q, e);
    EqTrans(p, y * kk * q, -(xx * q) * (q3 * kk), -(xx * q) * (n * ff));
    EqTrans(p, y * kk * q, -(xx * n) * (ff * q), -(xx * n) * (e * n));
  }

  lemma SumChainIdentity(y: int, xx: int, q3: int, kk: int, n: int, ff: int, q: int, e: int)
    ensures (kk * q) * y == y * kk * q
    ensures (kk * q) * -(xx * q3) == -(xx * q) * (q3 * kk)
    ensures -(xx * q) * (n * ff) == -(xx * n) * (ff * q)
    ensures -(xx * n) * (e * n) == -e * xx * (n * n)
  {
  }

  /** Multiplying by x1^2*x2^2*c^2 turns both sides into squares. */
  lemma SquareRatio(p: int, y: int, kk: int, q1: int, q2: int, e: int, xx3: int, n: int, x1: int, x2: int, w1: int,
                    w2: int, c: int)
    requires Eq(p, y * kk * (q1 * q2), e * xx3 * (n * n)) && Eq(p, c * c * e, 1)
    requires Eq(p, (x1 * x1) * q1, -(w1 * w1)) && Eq(p, (x2 * x2) * q2, -(w2 * w2))
    ensures Eq(p, y * (kk * ((w1 * w1) * (w2 * w2)) * (c * c)), xx3 * ((x1 * x1) * (x2 * x2)) * (n * n))
  {
    hide Divides;
    var a, b := x1 * x1, x2 * x2;
    EqMul(p, a * q1, -(w1 * w1), b * q2, -(w2 * w2));
    EqSym(p, (a * q1) * (b * q2), -(w1 * w1) * -(w2 * w2));
    EqScale(p, y * kk * (c * c), -(w1 * w1) * -(w2 * w2), (a * q1) * (b * q2));
    EqScale(p, (a * b) * (c * c), y * kk * (q1 * q2), e * xx3 * (n * n));
    EqScale(p, xx3 * (a * b) * (n * n), c * c * e, 1);
    RatioIdentity1(y, kk, c * c, w1 * w1, w2 * w2);
    RatioIdentity2(y, kk, c * c, a, b, q1, q2);
    RatioIdentity3(a * b, c * c, e, xx3, n * n);
    EqTrans(p, y * (kk * ((w1 * w1) * (w2 * w2)) * (c * c)), ((a * b) * (c * c)) * (y * kk * (q1 * q2)),
            ((a * b) * (c * c)) * (e * xx3 * (n * n)));
    EqTrans(p, y * (kk * ((w1 * w1) * (w2 * w2)) * (c * c)), (xx3 * (a * b) * (n * n)) * (c * c * e),
            xx3 * (a * b) * (n * n));
  }

  lemma RatioIdentity1(y: int, kk: int, cc: int, u: int, v: int)
    ensures (y * kk * cc) * (-u * -v) == y * (kk * (u * v) * cc)
  {
    assert -u * -v == u * v;
  }

  lemma RatioIdentity2(y: int, kk: int, cc: int, a: int, b: int, q1: int, q2: int)
    ensures (y * kk * cc) * ((a * q1) * (b * q2)) == ((a * b) * cc) * (y * kk * (q1 * q2))
  {
    assert (a * q1) * (b * q2) == (a * b) * (q1 * q2);
  }

  lemma RatioIdentity3(ab: int, cc: int, e: int, xx3: int, nn: int)
    ensures (ab * cc) * (e * xx3 * nn) == (xx3 * ab * nn) * (cc * e)
  {
  }

  lemma QuotientIsSquare(p: int, y: int, a: int, b: int) returns (w: int)
    requires IsPrime(p) && !Divides(p, a) && Eq(p, y * (a * a), b * b)
    ensures Eq(p, w * w, y)
  {
    hide Divides;
    var m := Pow(a, p - 2);
    w := b * m;
    FermatInverse(p, a);
    EqMul(p, a * m, 1, a * m, 1);
    EqScale(p, y, (a * m) * (a * m), 1);
    EqSym(p, y * (a * a), b * b);
    EqScale(p, m * m, b * b, y * (a * a));
    assert (m * m) * (b * b) == w * w && (m * m) * (y * (a * a)) == y * ((a * m) * (a * m)) by {
      QuotientIdentity(y, a, b, m);
    }
    EqTrans(p, w * w, y * ((a * m) * (a * m)), y);
  }

  lemma QuotientIdentity(y: int, a: int, b: int, m: int)
    ensures (m * m) * (b * b) == (b * m) * (b * m) && (m * m) * (y * (a * a)) == y * ((a * m) * (a * m))
  {
    assert (a * m) * (a * m) == (m * m) * (a * a);
  }

  lemma EvenAbscissa(f: Params, a: Affine, w: int)
    requires On(f, a) && IsEvenRoot(f, a, w)
    ensures Eq(f.p, (a.x * a.x) * (1 + f.d * a.y * a.y), -(w * w))
  {
    CurveForX(f.p, f.d, a.x, a.y);
    hide Divides, OnCurve;
    EqNeg(f.p, w * w, 1 - a.y * a.y);
    EqSym(f.p, -(w * w), -(1 - a.y * a.y));
    EqTrans(f.p, (a.x * a.x) * (1 + f.d * a.y * a.y), a.y * a.y - 1, -(w * w));
  }

  /** The sum of two even points is even. */
  lemma EvenPlus(f: Params, a: Affine, b: Affine)
    requires f.Valid() && On(f, a) && On(f, b) && Even(f, a) && Even(f, b)
    ensures Even(f, Plus(f, a, b))
  {
    hide Divides, NonSquare, IsPrime, OnCurve, Plus, Rotate, Eq;
    if a.x == 0 {
      EvenTranslate(f, b, a);
      PlusCommutes(f, a, b);
    } else if b.x == 0 {
      EvenTranslate(f, a, b);
    } else {
      EvenProperSum(f, a, b);
    }
  }

  lemma EvenTranslate(f: Params, a: Affine, b: Affine)
    requires f.Valid() && On(f, a) && On(f, b) && Even(f, a) && b.x == 0
    ensures Even(f, Plus(f, a, b))
  {
    hide Divides, NonSquare, IsPrime, OnCurve, Plus, Even;
    var c := Plus(f, a, b);
    PlusIsSum(f, a, b);
    AxisPoint(f, b);
    assert CrossProduct(f, a, b) == 0 && SumH(a.x, a.y, b.x, b.y) == a.y * b.y;
    if Eq(f.p, b.y, 1) {
      EqScale(f.p, a.y, b.y, 1);
      EqTrans(f.p, c.y, a.y * b.y, a.y);
    } else {
      EqScale(f.p, a.y, b.y, -1);
      EqTrans(f.p, c.y, a.y * b.y, -a.y);
    }
    EvenCongruent(f, a, c);
  }

  lemma EvenProperSum(f: Params, a: Affine, b: Affine)
    requires f.Valid() && On(f, a) && On(f, b) && Even(f, a) && Even(f, b) && a.x != 0 && b.x != 0
    ensures Even(f, Plus(f, a, b))
  {
    hide Divides, NonSquare, IsPrime, OnCurve, Plus, Eq, SumH;
    var w1 :| IsEvenRoot(f, a, w1);
    var w2 :| IsEvenRoot(f, b, w2);
    var c := Plus(f, a, b);
    var k, n := 1 - CrossProduct(f, a, b), 1 + f.d * ((a.y * a.y) * (b.y * b.y));
    PlusOn(f, a, b);
    PlusIsSum(f, a, b);
    Denominators(f, a, b);
    OrdinateOfSum(f.p, f.d, a.x, a.y, b.x, b.y, c.x, c.y);
    EvenAbscissa(f, a, w1);
    EvenAbscissa(f, b, w2);
    EvenRootNonzero(f, a, w1);
    EvenRootNonzero(f, b, w2);
    SquareRatio(f.p, 1 - c.y * c.y, k * k, 1 + f.d * a.y * a.y, 1 + f.d * b.y * b.y, -1 - f.d, c.x * c.x, n, a.x, b.x,
                w1, w2, f.c);
    var w := RatioRoot(f, 1 - c.y * c.y, k, w1, w2, c.x, a.x, b.x, n);
    assert IsEvenRoot(f, c, w);
  }

  lemma RatioRoot(f: Params, y: int, k: int, w1: int, w2: int, x3: int, x1: int, x2: int, n: int) returns (w: int)
    requires f.Valid() && !Divides(f.p, k) && !Divides(f.p, w1) && !Divides(f.p, w2)
    requires Eq(f.p, y * ((k * k) * ((w1 * w1) * (w2 * w2)) * (f.c * f.c)),
                (x3 * x3) * ((x1 * x1) * (x2 * x2)) * (n * n))
    ensures Eq(f.p, w * w, y)
  {
    hide Divides, NonSquare;
    SmallNotDivisible(f.p, 1);
    EqDivides(f.p, f.c * f.c * (-1 - f.d), 1);
    FactorDivides(f.p, f.c, f.c * (-1 - f.d));
    assert f.c * (f.c * (-1 - f.d)) == f.c * f.c * (-1 - f.d);
    ProductNonzero(f.p, w1, w2);
    ProductNonzero(f.p, k, w1 * w2);
    ProductNonzero(f.p, k * (w1 * w2), f.c);
    FourSquares(k, w1, w2, f.c);
    FourSquares(x3, x1, x2, n);
    w := QuotientIsSquare(f.p, y, k * (w1 * w2) * f.c, x3 * (x1 * x2) * n);
  }

  lemma FourSquares(k: int, u: int, v: int, c: int)
    ensures (k * k) * ((u * u) * (v * v)) * (c * c) == (k * (u * v) * c) * (k * (u * v) * c)
  {
    assert (u * v) * (u * v) == (u * u) * (v * v);
    SquareOfThree(k, u * v, c);
  }

  lemma SquareOfThree(k: int, m: int, c: int)
    ensures (k * m * c) * (k * m * c) == (k * k) * (m * m) * (c * c)
  {
  }

  lemma {:induction false} EvenTimes(f: Params, n: nat, a: Affine)
    requires f.Valid() && On(f, a) && Even(f, a)
    ensures Even(f, Times(f, n, a))
  {
    hide Divides, NonSquare, IsPrime, OnCurve, Plus, Even;
    if n == 0 {
      EvenZero(f);
    } else {
      EvenTimes(f, n - 1, a);
      TimesOn(f, n - 1, a);
      EvenPlus(f, Times(f, n - 1, a), a);
    }
  }
}
