/** Encoding and decoding of the CLI's group elements (sections 4.3.1 and 4.3.2 of RFC 9496),
    on field elements: the 32-byte strings are their little-endian form. */
module Ristretto {
  import opened Numbers
  import opened Fermat
  import opened Field25519
  import opened EdwardsLaw
  import opened EdwardsGroup
  import opened EdwardsPoint
  import opened Wrappers

  function Finish(f: Params, X: int, Y: int, Z: int, den: int, zInv: int): int
    requires f.p > 0
  {
    var Y' := if IsNegative((X * zInv) % f.p) then (-Y) % f.p else Y;
    Abs(f, ((Z - Y') * den) % f.p)
  }

  function InvSqrt(f: Params, X: int, Y: int, Z: int): int
    requires f.p >= 5
  {
    var u1 := ((Z + Y) * (Z - Y)) % f.p;
    var u2 := (X * Y) % f.p;
    SqrtRatioM1(f, 1, (u1 * u2 * u2) % f.p).1
  }

  function EncodeReduced(f: Params, X: int, Y: int, Z: int, T: int): int
    requires f.p >= 5
  {
    var u1 := ((Z + Y) * (Z - Y)) % f.p;
    var u2 := (X * Y) % f.p;
    var invsqrt := InvSqrt(f, X, Y, Z);
    var den1 := (invsqrt * u1) % f.p;
    var den2 := (invsqrt * u2) % f.p;
    var zInv := (den1 * den2 * T) % f.p;
    if IsNegative((T * zInv) % f.p)
    then Finish(f, (Y * f.i) % f.p, (X * f.i) % f.p, Z, (den1 * f.c) % f.p, zInv)
    else Finish(f, X, Y, Z, den2, zInv)
  }

  function EncodeField(f: Params, p: Point): int
    requires f.p >= 5
  {
    EncodeReduced(f, p.X % f.p, p.Y % f.p, p.Z % f.p, p.T % f.p)
  }

  function DecodeField(f: Params, s: int): Option<Point>
    requires f.p >= 5
  {
    if s < 0 || s >= f.p || IsNegative(s) then None
    else
      var ss := (s * s) % f.p;
      var u1 := (1 - ss) % f.p;
      var u2 := (1 + ss) % f.p;
      var u2Sqr := (u2 * u2) % f.p;
      var v := (-(f.d * u1 * u1) - u2Sqr) % f.p;
      var (wasSquare, invsqrt) := SqrtRatioM1(f, 1, (v * u2Sqr) % f.p);
      var denX := (invsqrt * u2) % f.p;
      var denY := (invsqrt * denX * v) % f.p;
      var x := Abs(f, (2 * s * denX) % f.p);
      var y := (u1 * denY) % f.p;
      var t := (x * y) % f.p;
      if !wasSquare || IsNegative(t) || y == 0 then None else Some(Point(x, y, 1, t))
  }

  function RistrettoEqual(f: Params, p: Point, q: Point): bool
    requires f.p > 0
  {
    (p.X * q.Y) % f.p == (p.Y * q.X) % f.p || (p.Y * q.Y) % f.p == (p.X * q.X) % f.p
  }

  // ---------------------------------------------------------------- canonical representatives

  /** 1 - y^2 is a square: the points the encoding is meant for. */
  ghost predicate Even(f: Params, a: Affine) {
    exists w: int :: IsEvenRoot(f, a, w)
  }

  ghost predicate IsEvenRoot(f: Params, a: Affine, w: int) {
    Eq(f.p, w * w, 1 - a.y * a.y)
  }

  /** The member of the coset {a, R a, R^2 a, R^3 a} with non-negative x and x*y;
      the neutral element for the four points with x*y = 0. */
  function Canonical(f: Params, a: Affine): Affine
    requires f.p > 0
  {
    var t := (a.x * a.y) % f.p;
    if t == 0 then Zero
    else
      var b := if IsNegative(t) then Rotate(f, a) else a;
      if IsNegative(b.x) then Rotate(f, Rotate(f, b)) else b
  }

  /** s is the parameter of the point with ordinate y. */
  ghost predicate IsParameter(f: Params, s: int, y: int) {
    && 0 <= s < f.p && !IsNegative(s)
    && Eq(f.p, s * s * (1 + y), 1 - y)
  }

  // ---------------------------------------------------------------- the curve, rearranged

  /** x^2 * (1 + d*y^2) = y^2 - 1. */
  lemma CurveForX(p: int, d: int, x: int, y: int)
    requires OnCurve(p, d, x, y)
    ensures Eq(p, (x * x) * (1 + d * y * y), y * y - 1)
  {
    hide Divides;
    CurveForXIdentity(d, x, y);
    Combine1(p, (x * x) * (1 + d * y * y) - (y * y - 1), -1, y * y - x * x - (1 + d * (x * y) * (x * y)));
  }

  lemma CurveForXIdentity(d: int, x: int, y: int)
    ensures (x * x) * (1 + d * y * y) - (y * y - 1) == -1 * (y * y - x * x - (1 + d * (x * y) * (x * y)))
  {
  }

  /** (1 - y^2)(1 + x^2) = -(1 + d)*(x*y)^2. */
  lemma CurveForProduct(p: int, d: int, x: int, y: int)
    requires OnCurve(p, d, x, y)
    ensures Eq(p, (1 - y * y) * (1 + x * x), (-1 - d) * ((x * y) * (x * y)))
  {
    hide Divides;
    CurveForProductIdentity(d, x, y);
    Combine1(p, (1 - y * y) * (1 + x * x) - (-1 - d) * ((x * y) * (x * y)), -1,
             y * y - x * x - (1 + d * (x * y) * (x * y)));
  }

  lemma CurveForProductIdentity(d: int, x: int, y: int)
    ensures (1 - y * y) * (1 + x * x) - (-1 - d) * ((x * y) * (x * y))
         == -1 * (y * y - x * x - (1 + d * (x * y) * (x * y)))
  {
  }

  /** On the curve y = 1 or y = -1 only where x = 0. */
  lemma YNotOne(f: Params, x: int, y: int)
    requires f.Valid() && OnCurve(f.p, f.d, x, y) && !Divides(f.p, x) && !Divides(f.p, y)
    ensures !Divides(f.p, 1 - y * y) && !Divides(f.p, 1 - y) && !Divides(f.p, 1 + y)
  {
    hide Divides, NonSquare, OnCurve;
    CurveForProduct(f.p, f.d, x, y);
    SmallNotDivisible(f.p, 1);
    EqDivides(f.p, f.c * f.c * (-1 - f.d), 1);
    FactorDivides(f.p, -1 - f.d, f.c * f.c);
    ProductNonzero(f.p, x, y);
    ProductNonzero(f.p, x * y, x * y);
    ProductNonzero(f.p, -1 - f.d, (x * y) * (x * y));
    EqDivides(f.p, (1 - y * y) * (1 + x * x), (-1 - f.d) * ((x * y) * (x * y)));
    FactorDivides(f.p, 1 - y * y, 1 + x * x);
    assert (1 + y) * (1 - y) == 1 - y * y && (1 - y) * (1 + y) == 1 - y * y;
    FactorDivides(f.p, 1 - y, 1 + y);
    FactorDivides(f.p, 1 + y, 1 - y);
  }

  /** A residue and its opposite are never both non-negative, unless zero. */
  lemma SignUnique(p: int, a: int, b: int)
    requires p % 2 == 1 && 0 <= a < p && 0 <= b < p && !IsNegative(a) && !IsNegative(b)
    requires Eq(p, a, b) || Eq(p, a, -b)
    ensures a == b
  {
    hide Divides;
    if Eq(p, a, b) {
      EqSmall(p, a, b);
    } else {
      EvenMultiple(p, a + b);
      assert a - -b == a + b;
    }
  }

  /** The only even multiple of an odd p in [0, 2p) is zero. */
  lemma EvenMultiple(p: int, t: int)
    requires p % 2 == 1 && 0 <= t < 2 * p && t % 2 == 0
    ensures Divides(p, t) ==> t == 0
  {
    if Divides(p, t) {
      var k :| t == p * k;
      MultipleIsLarge(p, k - 2);
      MultipleIsLarge(p, k);
      ThreeMultiples(p, k);
    }
  }

  lemma ThreeMultiples(p: int, k: int)
    ensures p * (k - 2) == p * k - 2 * p && (k == 1 ==> p * k == p) && (k == 0 ==> p * k == 0)
  {
  }

  // ---------------------------------------------------------------- decoding

  function U1(s: int): int {
    1 - s * s
  }

  function U2(s: int): int {
    1 + s * s
  }

  function V(d: int, s: int): int {
    -(d * U1(s) * U1(s)) - U2(s) * U2(s)
  }

  /** The reduced intermediate values of DecodeField. */
  lemma DecodeReduced(f: Params, s: int)
    requires f.p >= 5
    ensures var ss := (s * s) % f.p;
            var u1, u2 := (1 - ss) % f.p, (1 + ss) % f.p;
            var u2Sqr := (u2 * u2) % f.p;
            var v := (-(f.d * u1 * u1) - u2Sqr) % f.p;
            && Eq(f.p, u1, U1(s)) && Eq(f.p, u2, U2(s)) && Eq(f.p, u2Sqr, U2(s) * U2(s)) && Eq(f.p, v, V(f.d, s))
            && Eq(f.p, (v * u2Sqr) % f.p, V(f.d, s) * (U2(s) * U2(s)))
  {
    hide Divides;
    var p := f.p;
    var ss := (s * s) % p;
    var u1, u2 := (1 - ss) % p, (1 + ss) % p;
    var u2Sqr := (u2 * u2) % p;
    var v := (-(f.d * u1 * u1) - u2Sqr) % p;
    EqMod(p, s * s);
    EqRefl(p, 1);
    ModSumDiff(p, 1, ss, 1, s * s);
    ModProduct(p, u2, U2(s), u2, U2(s));
    EqMul(p, u1, U1(s), u1, U1(s));
    EqScale(p, -f.d, u1 * u1, U1(s) * U1(s));
    NegScale(f.d, u1);
    NegScale(f.d, U1(s));
    ModSumDiff(p, -(f.d * u1 * u1), u2Sqr, -(f.d * U1(s) * U1(s)), U2(s) * U2(s));
    ModProduct(p, v, V(f.d, s), u2Sqr, U2(s) * U2(s));
  }

  lemma NegScale(d: int, u: int)
    ensures -d * (u * u) == -(d * u * u)
  {
  }

  /** What a successful square root makes of x and y. */
  lemma DecodeValues(f: Params, s: int, v: int, u1: int, u2: int, j: int)
    requires f.p >= 5 && f.p % 2 == 1
    requires Eq(f.p, u1, U1(s)) && Eq(f.p, u2, U2(s)) && Eq(f.p, v, V(f.d, s))
    requires Eq(f.p, V(f.d, s) * (U2(s) * U2(s)) * j * j, 1)
    ensures var denX := (j * u2) % f.p;
            var x := Abs(f, (2 * s * denX) % f.p);
            var y := (u1 * ((j * denX * v) % f.p)) % f.p;
            && 0 <= x < f.p && !IsNegative(x) && Eq(f.p, V(f.d, s) * (x * x), 4 * (s * s))
            && 0 <= y < f.p && Eq(f.p, y * U2(s), U1(s))
  {
    hide Divides, U1, U2, V, Abs;
    var p := f.p;
    var denX := (j * u2) % p;
    var x0 := (2 * s * denX) % p;
    var denY := (j * denX * v) % p;
    AbsSpec(f, x0);
    EqRefl(p, j);
    ModProduct(p, j, j, u2, U2(s));
    DecodedX(p, s, denX, x0, Abs(f, x0), V(f.d, s), U2(s), j);
    EqScale(p, j, denX, j * U2(s));
    ModProduct(p, j * denX, j * (j * U2(s)), v, V(f.d, s));
    ModProduct(p, u1, U1(s), denY, j * (j * U2(s)) * V(f.d, s));
    DecodedY(p, (u1 * denY) % p, U1(s), U2(s), V(f.d, s), j);
  }

  lemma DecodedX(p: int, s: int, denX: int, x0: int, x: int, v: int, u2: int, j: int)
    requires p > 0 && x0 == (2 * s * denX) % p && Eq(p, denX, j * u2) && Eq(p, x * x, x0 * x0)
    requires Eq(p, v * (u2 * u2) * j * j, 1)
    ensures Eq(p, v * (x * x), 4 * (s * s))
  {
    hide Divides;
    EqRefl(p, 2 * s);
    ModProduct(p, 2 * s, 2 * s, denX, j * u2);
    EqMul(p, x0, (2 * s) * (j * u2), x0, (2 * s) * (j * u2));
    EqTrans(p, x * x, x0 * x0, ((2 * s) * (j * u2)) * ((2 * s) * (j * u2)));
    EqScale(p, v, x * x, ((2 * s) * (j * u2)) * ((2 * s) * (j * u2)));
    DecodedXIdentity(v, s, u2, j);
    EqScale(p, 4 * (s * s), v * (u2 * u2) * j * j, 1);
    EqTrans(p, v * (x * x), (4 * (s * s)) * (v * (u2 * u2) * j * j), 4 * (s * s));
  }

  lemma DecodedXIdentity(v: int, s: int, u2: int, j: int)
    ensures v * (((2 * s) * (j * u2)) * ((2 * s) * (j * u2))) == (4 * (s * s)) * (v * (u2 * u2) * j * j)
  {
    var k := j * u2;
    assert ((2 * s) * k) * ((2 * s) * k) == (4 * (s * s)) * (k * k);
    assert k * k == (u2 * u2) * j * j;
  }

  lemma DecodedY(p: int, y: int, u1: int, u2: int, v: int, j: int)
    requires Eq(p, y, u1 * (j * (j * u2) * v)) && Eq(p, v * (u2 * u2) * j * j, 1)
    ensures Eq(p, y * u2, u1)
  {
    hide Divides;
    EqScale(p, u2, y, u1 * (j * (j * u2) * v));
    DecodedYIdentity(u1, u2, v, j);
    EqScale(p, u1, v * (u2 * u2) * j * j, 1);
    assert u2 * y == y * u2;
    EqTrans(p, y * u2, u1 * (v * (u2 * u2) * j * j), u1);
  }

  lemma DecodedYIdentity(u1: int, u2: int, v: int, j: int)
    ensures u2 * (u1 * (j * (j * u2) * v)) == u1 * (v * (u2 * u2) * j * j)
  {
  }

  /** y*U2 = U1 is the same as s^2*(1+y) = 1-y. */
  lemma ParameterEquation(p: int, s: int, y: int)
    ensures Eq(p, y * U2(s), U1(s)) <==> Eq(p, s * s * (1 + y), 1 - y)
  {
    assert y * U2(s) - U1(s) == s * s * (1 + y) - (1 - y);
  }

  /** Given y*U2 = U1, the curve equation is V*x^2 = 4*s^2. */
  lemma DecodeCurve(p: int, d: int, s: int, x: int, y: int)
    requires IsPrime(p) && !Divides(p, U2(s)) && Eq(p, y * U2(s), U1(s))
    ensures OnCurve(p, d, x, y) <==> Eq(p, V(d, s) * (x * x), 4 * (s * s))
  {
    hide Divides, U1, U2;
    var u1, u2 := U1(s), U2(s);
    var w := u2 * u2;
    var lhs, rhs := y * y - x * x, 1 + d * (x * y) * (x * y);
    // w*(lhs - rhs) = (y*u2 + u1)*(y*u2 - u1)*(1 - d*x^2) + (V*x^2 - 4*s^2)
    DecodeCurveIdentity(d, s, x, y, u1, u2);
    SquaresOfU(s);
    var z := y * u2 - u1;
    var q := V(d, s) * (x * x) - 4 * (s * s);
    var k := (y * u2 + u1) * (1 - d * (x * x));
    assert w * (lhs - rhs) == k * z + 1 * q;
    if OnCurve(p, d, x, y) {
      DividesMul(p, lhs - rhs, w);
      Combine2(p, q, 1, w * (lhs - rhs), -k, z);
    } else if Eq(p, V(d, s) * (x * x), 4 * (s * s)) {
      Combine2(p, w * (lhs - rhs), k, z, 1, q);
      PrimeDividesProduct(p, w, lhs - rhs);
      ProductNonzero(p, u2, u2);
    }
  }

  lemma SquaresOfU(s: int)
    ensures U1(s) * U1(s) - U2(s) * U2(s) == -4 * (s * s)
  {
  }

  lemma DecodeCurveIdentity(d: int, s: int, x: int, y: int, u1: int, u2: int)
    ensures (u2 * u2) * ((y * y - x * x) - (1 + d * (x * y) * (x * y)))
         == ((y * u2 + u1) * (1 - d * (x * x))) * (y * u2 - u1)
           + ((-(d * u1 * u1) - u2 * u2) * (x * x) + (u1 * u1 - u2 * u2))
  {
    var xx, yy, a := x * x, y * y, y * u2;
    SquareOfSum(d, x, y);
    ConjugateProduct(a, u1, 1 - d * xx);
    SquareOfScaled(y, u2);
    AssociateLeft(d, u1);
    DecodeAtoms(d, xx, yy, u1 * u1, u2 * u2);
  }

  lemma SquareOfSum(d: int, x: int, y: int)
    ensures d * (x * y) * (x * y) == d * ((x * x) * (y * y))
  {
  }

  lemma ConjugateProduct(a: int, u: int, k: int)
    ensures ((a + u) * k) * (a - u) == (a * a - u * u) * k
  {
  }

  lemma SquareOfScaled(y: int, u: int)
    ensures (y * u) * (y * u) == (u * u) * (y * y)
  {
  }

  lemma AssociateLeft(d: int, u: int)
    ensures d * u * u == d * (u * u)
  {
  }

  lemma DecodeAtoms(d: int, xx: int, yy: int, b: int, c: int)
    ensures c * ((yy - xx) - (1 + d * (xx * yy))) == (c * yy - b) * (1 - d * xx) + ((-(d * b) - c) * xx + (b - c))
  {
  }

  /** The conditions on an affine point that decoding returns it. */
  ghost predicate IsCanonical(f: Params, a: Affine) {
    && On(f, a) && a.y != 0
    && !IsNegative(a.x) && !IsNegative((a.x * a.y) % f.p)
    && (a.x == 0 ==> a == Zero)
  }

  function Extended(f: Params, a: Affine): Point
    requires f.p > 0
  {
    Point(a.x, a.y, 1, (a.x * a.y) % f.p)
  }

  lemma ExtendedRepresents(f: Params, a: Affine)
    requires f.p > 1
    ensures Represents(f, Extended(f, a), a)
  {
    hide Divides;
    SmallNotDivisible(f.p, 1);
    EqMod(f.p, a.x * a.y);
    EqRefl(f.p, a.x);
    EqRefl(f.p, a.y);
  }

  /** The argument of the square root is non-zero when its flag is set. */
  lemma FlaggedRoot(f: Params, z: int, z': int, j: int)
    requires f.Valid() && Eq(f.p, z, z') && SqrtRatioM1(f, 1, z) == (true, j)
    ensures Eq(f.p, z' * j * j, 1) && !Divides(f.p, z')
  {
    hide Divides, NonSquare, SqrtRatioM1;
    SqrtRatioSpec(f, 1, z);
    EqScale(f.p, j * j, z, z');
    assert (j * j) * z == z * j * j && (j * j) * z' == z' * j * j;
    EqSym(f.p, z * j * j, z' * j * j);
    EqTrans(f.p, z' * j * j, z * j * j, 1);
    SmallNotDivisible(f.p, 1);
    EqDivides(f.p, z' * j * j, 1);
    FactorDivides(f.p, z', j * j);
    assert z' * (j * j) == z' * j * j;
  }

  /** Every accepted string decodes to a canonical even point whose parameter it is. */
  lemma DecodeAccepts(f: Params, s: int)
    requires f.Valid() && DecodeField(f, s).Some?
    ensures var p := DecodeField(f, s).value;
            var a := Affine(p.X, p.Y);
            && p == Extended(f, a) && IsCanonical(f, a) && IsParameter(f, s, a.y) && Even(f, a)
            && Represents(f, p, a)
  {
    hide Divides, NonSquare, U1, U2, V, OnCurve, IsPrime, DecodeField;
    var n := f.p;
    var x, y := DecodedCoordinates(f, s);
    DecodeCurve(n, f.d, s, x, y);
    ParameterEquation(n, s, y);
    ParameterEven(f, s, Affine(x, y));
    ExtendedRepresents(f, Affine(x, y));
    if x == 0 {
      ParameterOfZeroX(f, s, V(f.d, s), y);
    }
  }

  lemma DecodedCoordinates(f: Params, s: int) returns (x: int, y: int)
    requires f.Valid() && DecodeField(f, s).Some?
    ensures DecodeField(f, s).value == Point(x, y, 1, (x * y) % f.p)
    ensures 0 <= s < f.p && !IsNegative(s) && 0 <= x < f.p && 0 < y < f.p && !IsNegative(x)
            && !IsNegative((x * y) % f.p)
    ensures Eq(f.p, V(f.d, s) * (x * x), 4 * (s * s)) && Eq(f.p, y * U2(s), U1(s)) && !Divides(f.p, U2(s))
  {
    hide Divides, NonSquare, SqrtRatioM1, U1, U2, V, Abs, IsPrime, Eq, Params.Valid;
    ParamsFacts(f);
    var n := f.p;
    var ss := (s * s) % n;
    var u1, u2 := (1 - ss) % n, (1 + ss) % n;
    var u2Sqr := (u2 * u2) % n;
    var v := (-(f.d * u1 * u1) - u2Sqr) % n;
    var z := (v * u2Sqr) % n;
    var j := SqrtRatioM1(f, 1, z).1;
    DecodeReduced(f, s);
    assert SqrtRatioM1(f, 1, z) == (true, j);
    FlaggedRoot(f, z, V(f.d, s) * (U2(s) * U2(s)), j);
    DecodeValues(f, s, v, u1, u2, j);
    FactorOfSquare(n, V(f.d, s), U2(s));
    var denX := (j * u2) % n;
    x := Abs(f, (2 * s * denX) % n);
    y := (u1 * ((j * denX * v) % n)) % n;
  }

  lemma FactorOfSquare(n: int, v: int, u: int)
    ensures !Divides(n, v * (u * u)) ==> !Divides(n, u)
  {
    hide Divides;
    FactorDivides(n, u, v * u);
    assert (v * u) * u == v * (u * u);
  }

  lemma ParameterEven(f: Params, s: int, a: Affine)
    requires Eq(f.p, s * s * (1 + a.y), 1 - a.y)
    ensures Even(f, a)
  {
    hide Divides;
    var y := a.y;
    var w := s * (1 + y);
    EqScale(f.p, 1 + y, s * s * (1 + y), 1 - y);
    assert (1 + y) * (s * s * (1 + y)) == w * w && (1 + y) * (1 - y) == 1 - y * y;
    assert IsEvenRoot(f, a, w);
  }

  lemma ParameterOfZeroX(f: Params, s: int, v: int, y: int)
    requires f.Valid() && Eq(f.p, v * (0 * 0), 4 * (s * s)) && 0 <= y < f.p && Eq(f.p, s * s * (1 + y), 1 - y)
    ensures y == 1
  {
    hide Divides, NonSquare;
    var p := f.p;
    DividesIntro(p, 0, 0);
    EqDivides(p, v * (0 * 0), 4 * (s * s));
    SmallNotDivisible(p, 4);
    PrimeDividesProduct(p, 4, s * s);
    FactorDivides(p, s * s, 1 + y);
    EqDivides(p, s * s * (1 + y), 1 - y);
    DividesMul(p, 1 - y, -1);
    EqSmall(p, y, 1);
  }

  /** Strings that are parameters of canonical points pass the square-root test. */
  lemma ParameterIsSquare(f: Params, s: int, a: Affine)
    requires f.Valid() && IsCanonical(f, a) && IsParameter(f, s, a.y)
    ensures RatioIsSquare(f.p, 1, V(f.d, s) * (U2(s) * U2(s))) && !Divides(f.p, U2(s))
    ensures Eq(f.p, a.y * U2(s), U1(s)) && Eq(f.p, V(f.d, s) * (a.x * a.x), 4 * (s * s))
  {
    hide Divides, NonSquare, U1, U2, V, OnCurve, IsPrime;
    var p, x, y := f.p, a.x, a.y;
    TwoOverParameter(p, s, y);
    ParameterEquation(p, s, y);
    DecodeCurve(p, f.d, s, x, y);
    if x != 0 {
      SmallNotDivisible(p, x);
      SmallNotDivisible(p, y);
      YNotOne(f, x, y);
      EqDivides(p, s * s * (1 + y), 1 - y);
      ParameterNonzero(p, s, 1 + y);
      ProperWitness(p, V(f.d, s), U2(s), x, s);
    } else {
      ZeroParameter(f, s);
      assert IsRootOfRatio(p, 1, V(f.d, s) * (U2(s) * U2(s)), f.c);
    }
  }

  /** U2 * (1 + y) = 2, so U2 is invertible. */
  lemma TwoOverParameter(p: int, s: int, y: int)
    requires p > 2 && Eq(p, s * s * (1 + y), 1 - y)
    ensures !Divides(p, U2(s))
  {
    hide Divides;
    assert U2(s) * (1 + y) - 2 == s * s * (1 + y) - (1 - y);
    SmallNotDivisible(p, 2);
    EqDivides(p, U2(s) * (1 + y), 2);
    FactorDivides(p, U2(s), 1 + y);
  }

  lemma ParameterNonzero(p: int, s: int, k: int)
    ensures !Divides(p, s * s * k) ==> !Divides(p, s)
  {
    hide Divides;
    FactorDivides(p, s, s * k);
    assert s * (s * k) == s * s * k;
  }

  lemma ProperWitness(p: int, v: int, u2: int, x: int, s: int)
    requires IsPrime(p) && p > 2 && !Divides(p, s) && !Divides(p, u2) && Eq(p, v * (x * x), 4 * (s * s))
    ensures RatioIsSquare(p, 1, v * (u2 * u2))
  {
    hide Divides, IsPrime;
    SmallNotDivisible(p, 2);
    ProductNonzero(p, 2, s);
    ProductNonzero(p, 2 * s, u2);
    FermatInverse(p, (2 * s) * u2);
    SquareWitness(p, v, u2, x, s, Pow((2 * s) * u2, p - 2));
  }

  lemma SquareWitness(p: int, v: int, u2: int, x: int, s: int, m: int)
    requires Eq(p, v * (x * x), 4 * (s * s)) && Eq(p, ((2 * s) * u2) * m, 1)
    ensures RatioIsSquare(p, 1, v * (u2 * u2))
  {
    hide Divides;
    var r := x * m;
    var k := u2 * m;
    EqScale(p, k * k, v * (x * x), 4 * (s * s));
    WitnessIdentity(v, u2, x, m, s);
    EqMul(p, ((2 * s) * u2) * m, 1, ((2 * s) * u2) * m, 1);
    EqTrans(p, v * (u2 * u2) * r * r, (k * k) * (4 * (s * s)), 1);
    assert IsRootOfRatio(p, 1, v * (u2 * u2), r);
  }

  lemma WitnessIdentity(v: int, u2: int, x: int, m: int, s: int)
    ensures ((u2 * m) * (u2 * m)) * (v * (x * x)) == v * (u2 * u2) * (x * m) * (x * m)
    ensures ((u2 * m) * (u2 * m)) * (4 * (s * s)) == (((2 * s) * u2) * m) * (((2 * s) * u2) * m)
  {
    WitnessLeft(v, u2, x, m);
    WitnessRight(u2 * m, s);
    assert ((2 * s) * u2) * m == (2 * s) * (u2 * m);
  }

  lemma WitnessLeft(v: int, u2: int, x: int, m: int)
    ensures ((u2 * m) * (u2 * m)) * (v * (x * x)) == v * (u2 * u2) * (x * m) * (x * m)
  {
    assert (u2 * m) * (u2 * m) == (u2 * u2) * (m * m);
    assert (x * m) * (x * m) == (x * x) * (m * m);
  }

  lemma WitnessRight(k: int, s: int)
    ensures (k * k) * (4 * (s * s)) == ((2 * s) * k) * ((2 * s) * k)
  {
  }

  lemma ZeroParameter(f: Params, s: int)
    requires f.Valid() && IsParameter(f, s, 1)
    ensures Eq(f.p, (V(f.d, s) * (U2(s) * U2(s))) * f.c * f.c, 1)
  {
    assert s == 0 by {
      hide NonSquare, Divides, U1, U2, V;
      assert s * s * (1 + 1) == 2 * (s * s) && 1 - 1 == 0;
      DividesIntro(f.p, 0, 0);
      EqDivides(f.p, s * s * (1 + 1), 0);
      SmallNotDivisible(f.p, 2);
      PrimeDividesProduct(f.p, 2, s * s);
      PrimeDividesProduct(f.p, s, s);
      DividesSmall(f.p, s);
    }
    assert U1(0) == 1 && U2(0) == 1 && V(f.d, 0) == -1 - f.d;
    assert ((-1 - f.d) * (1 * 1)) * f.c * f.c == f.c * f.c * (-1 - f.d);
  }

  /** A canonical point is what its parameter decodes to. */
  lemma DecodeOfParameter(f: Params, s: int, a: Affine)
    requires f.Valid() && IsCanonical(f, a) && IsParameter(f, s, a.y)
    ensures DecodeField(f, s) == Some(Extended(f, a))
  {
    hide Divides, NonSquare, SqrtRatioM1, U1, U2, V, Abs, OnCurve, IsPrime, Eq, Params.Valid;
    ParamsFacts(f);
    var n := f.p;
    var ss := (s * s) % n;
    var u1, u2 := (1 - ss) % n, (1 + ss) % n;
    var u2Sqr := (u2 * u2) % n;
    var v := (-(f.d * u1 * u1) - u2Sqr) % n;
    var z := (v * u2Sqr) % n;
    var j := SqrtRatioM1(f, 1, z).1;
    var z' := V(f.d, s) * (U2(s) * U2(s));
    DecodeReduced(f, s);
    ParameterIsSquare(f, s, a);
    EqRefl(n, 1);
    RatioReduces(n, 1, z', 1, z);
    SqrtRatioSpec(f, 1, z);
    assert SqrtRatioM1(f, 1, z) == (true, j);
    FlaggedRoot(f, z, z', j);
    DecodeValues(f, s, v, u1, u2, j);
    var denX := (j * u2) % n;
    var x := Abs(f, (2 * s * denX) % n);
    var y := (u1 * ((j * denX * v) % n)) % n;
    FactorDivides(n, V(f.d, s), U2(s) * U2(s));
    SameAbscissa(f, V(f.d, s), 4 * (s * s), x, a.x);
    FractionUnique(n, U2(s), y, a.y, U1(s));
  }

  lemma SameAbscissa(f: Params, v: int, q: int, x: int, x': int)
    requires f.Valid() && !Divides(f.p, v) && Eq(f.p, v * (x * x), q) && Eq(f.p, v * (x' * x'), q)
    requires 0 <= x < f.p && 0 <= x' < f.p && !IsNegative(x) && !IsNegative(x')
    ensures x == x'
  {
    hide Divides, NonSquare;
    EqSym(f.p, v * (x' * x'), q);
    EqTrans(f.p, v * (x * x), q, v * (x' * x'));
    EqCancel(f.p, v, x * x, x' * x');
    EqualSquares(f.p, x, x');
    SignUnique(f.p, x, x');
  }
}
