/** Extended coordinates (section 5.1.4 of RFC 8032): the CLI's point class, its unified
    addition and its double-and-add scalar multiplication. */
module EdwardsPoint {
  import opened Numbers
  import opened Fermat
  import opened Field25519
  import opened EdwardsLaw
  import opened EdwardsGroup

  datatype Point = Point(X: int, Y: int, Z: int, T: int)

  const Identity: Point := Point(0, 1, 1, 0)

  function Add(f: Params, p: Point, q: Point): Point
    requires f.p > 0
  {
    var a := ((p.Y - p.X) * (q.Y - q.X)) % f.p;
    var b := ((p.Y + p.X) * (q.Y + q.X)) % f.p;
    var c := (p.T * 2 * f.d * q.T) % f.p;
    var dd := (p.Z * 2 * q.Z) % f.p;
    var e := (b - a) % f.p;
    var ff := (dd - c) % f.p;
    var g := (dd + c) % f.p;
    var h := (b + a) % f.p;
    Point((e * ff) % f.p, (g * h) % f.p, (ff * g) % f.p, (e * h) % f.p)
  }

  function Double(f: Params, p: Point): Point
    requires f.p > 0
  {
    Add(f, p, p)
  }

  function Negate(f: Params, p: Point): Point
    requires f.p > 0
  {
    Point((-p.X) % f.p, p.Y % f.p, p.Z % f.p, (-p.T) % f.p)
  }

  /** Both projective equations of the curve. */
  ghost predicate Valid(f: Params, p: Point) {
    && !Divides(f.p, p.Z)
    && Eq(f.p, p.X * p.Y, p.Z * p.T)
    && Eq(f.p, p.Y * p.Y - p.X * p.X, p.Z * p.Z + f.d * p.T * p.T)
  }

  /** p stands for the affine point a. */
  ghost predicate Represents(f: Params, p: Point, a: Affine) {
    && !Divides(f.p, p.Z)
    && Eq(f.p, p.X, a.x * p.Z)
    && Eq(f.p, p.Y, a.y * p.Z)
    && Eq(f.p, p.T, (a.x * a.y) * p.Z)
  }

  function ToAffine(f: Params, p: Point): Affine
    requires f.p > 2
  {
    Affine((p.X * Inv(f, p.Z)) % f.p, (p.Y * Inv(f, p.Z)) % f.p)
  }

  // ---------------------------------------------------------------- valid points are affine points

  lemma ValidRepresents(f: Params, p: Point)
    requires f.Valid() && Valid(f, p)
    ensures Represents(f, p, ToAffine(f, p)) && On(f, ToAffine(f, p))
  {
    hide Divides, NonSquare, Inv, OnCurve, IsPrime, Eq;
    var a := ToAffine(f, p);
    FractionSpec(f, p.X, p.Z);
    FractionSpec(f, p.Y, p.Z);
    EqSym(f.p, a.x * p.Z, p.X);
    EqSym(f.p, a.y * p.Z, p.Y);
    // Z*T = X*Y = (x*y*Z)*Z
    EqSym(f.p, p.X * p.Y, p.Z * p.T);
    EqMul(f.p, p.X, a.x * p.Z, p.Y, a.y * p.Z);
    EqTrans(f.p, p.Z * p.T, p.X * p.Y, (a.x * p.Z) * (a.y * p.Z));
    CommonFactor(a.x, a.y, p.Z);
    EqCancel(f.p, p.Z, p.T, (a.x * a.y) * p.Z);
    RepresentedOn(f, p, a.x, a.y);
  }

  lemma CommonFactor(x: int, y: int, z: int)
    ensures (x * z) * (y * z) == z * ((x * y) * z)
  {
  }

  lemma ProjectiveCurve(d: int, x: int, y: int, z: int)
    ensures (y * z) * (y * z) - (x * z) * (x * z) == (z * z) * (y * y - x * x)
  {
  }

  lemma ProjectiveSide(d: int, t: int, z: int)
    ensures z * z + d * ((t * z) * (t * z)) == (z * z) * (1 + d * t * t)
  {
  }

  /** Scaling the affine equation by Z^2 gives the projective one, both ways. */
  lemma ScaledCurve(p: int, d: int, x: int, y: int, X: int, Y: int, Z: int, T: int)
    requires Eq(p, X, x * Z) && Eq(p, Y, y * Z) && Eq(p, T, (x * y) * Z)
    ensures Eq(p, Y * Y - X * X, (Z * Z) * (y * y - x * x))
    ensures Eq(p, Z * Z + d * T * T, (Z * Z) * (1 + d * (x * y) * (x * y)))
  {
    hide Divides;
    var t := x * y;
    EqMul(p, X, x * Z, X, x * Z);
    EqMul(p, Y, y * Z, Y, y * Z);
    EqMul(p, T, t * Z, T, t * Z);
    EqSub(p, Y * Y, (y * Z) * (y * Z), X * X, (x * Z) * (x * Z));
    EqScale(p, d, T * T, (t * Z) * (t * Z));
    assert d * (T * T) == d * T * T;
    EqRefl(p, Z * Z);
    EqAdd(p, Z * Z, Z * Z, d * T * T, d * ((t * Z) * (t * Z)));
    ProjectiveCurve(d, x, y, Z);
    ProjectiveSide(d, t, Z);
  }

  lemma RepresentedOn(f: Params, p: Point, x: int, y: int)
    requires IsPrime(f.p) && Valid(f, p)
    requires Eq(f.p, p.X, x * p.Z) && Eq(f.p, p.Y, y * p.Z) && Eq(f.p, p.T, (x * y) * p.Z)
    ensures OnCurve(f.p, f.d, x, y)
  {
    hide Divides;
    var w := p.Z * p.Z;
    ScaledCurve(f.p, f.d, x, y, p.X, p.Y, p.Z, p.T);
    EqSym(f.p, p.Y * p.Y - p.X * p.X, w * (y * y - x * x));
    EqTrans(f.p, w * (y * y - x * x), p.Y * p.Y - p.X * p.X, p.Z * p.Z + f.d * p.T * p.T);
    EqTrans(f.p, w * (y * y - x * x), p.Z * p.Z + f.d * p.T * p.T, w * (1 + f.d * (x * y) * (x * y)));
    ProductNonzero(f.p, p.Z, p.Z);
    EqCancel(f.p, w, y * y - x * x, 1 + f.d * (x * y) * (x * y));
  }

  lemma RepresentsValid(f: Params, p: Point, a: Affine)
    requires Represents(f, p, a) && On(f, a)
    ensures Valid(f, p)
  {
    hide Divides;
    var w := p.Z * p.Z;
    ScaledCurve(f.p, f.d, a.x, a.y, p.X, p.Y, p.Z, p.T);
    EqScale(f.p, w, a.y * a.y - a.x * a.x, 1 + f.d * (a.x * a.y) * (a.x * a.y));
    EqTrans(f.p, p.Y * p.Y - p.X * p.X, w * (a.y * a.y - a.x * a.x), w * (1 + f.d * (a.x * a.y) * (a.x * a.y)));
    EqSym(f.p, p.Z * p.Z + f.d * p.T * p.T, w * (1 + f.d * (a.x * a.y) * (a.x * a.y)));
    EqTrans(f.p, p.Y * p.Y - p.X * p.X, w * (1 + f.d * (a.x * a.y) * (a.x * a.y)), p.Z * p.Z + f.d * p.T * p.T);
    // X*Y = x*y*Z*Z = Z*T
    EqMul(f.p, p.X, a.x * p.Z, p.Y, a.y * p.Z);
    EqScale(f.p, p.Z, p.T, (a.x * a.y) * p.Z);
    assert (a.x * p.Z) * (a.y * p.Z) == p.Z * ((a.x * a.y) * p.Z);
    EqSym(f.p, p.Z * p.T, p.Z * ((a.x * a.y) * p.Z));
    EqTrans(f.p, p.X * p.Y, p.Z * ((a.x * a.y) * p.Z), p.Z * p.T);
  }

  lemma IdentityRepresents(f: Params)
    requires f.Valid()
    ensures Represents(f, Identity, Zero)
  {
    EqRefl(f.p, 0);
    EqRefl(f.p, 1);
    SmallNotDivisible(f.p, 1);
  }

  // ---------------------------------------------------------------- addition

  /** The eight intermediate values, as multiples of w = 2*Z1*Z2. */
  lemma AddIntermediates(f: Params, p: Point, q: Point, a: Affine, b: Affine)
    requires f.p > 0 && Represents(f, p, a) && Represents(f, q, b)
    ensures var w, m := 2 * (p.Z * q.Z), CrossProduct(f, a, b);
            var A, B := ((p.Y - p.X) * (q.Y - q.X)) % f.p, ((p.Y + p.X) * (q.Y + q.X)) % f.p;
            var C, D := (p.T * 2 * f.d * q.T) % f.p, (p.Z * 2 * q.Z) % f.p;
            && Eq(f.p, (B - A) % f.p, SumE(a.x, a.y, b.x, b.y) * w)
            && Eq(f.p, (B + A) % f.p, SumH(a.x, a.y, b.x, b.y) * w)
            && Eq(f.p, (D - C) % f.p, (1 - m) * w)
            && Eq(f.p, (D + C) % f.p, (1 + m) * w)
  {
    hide Divides;
    var n, z1, z2 := f.p, p.Z, q.Z;
    var A, B := ((p.Y - p.X) * (q.Y - q.X)) % n, ((p.Y + p.X) * (q.Y + q.X)) % n;
    var C, D := (p.T * 2 * f.d * q.T) % n, (p.Z * 2 * q.Z) % n;
    EqSub(n, p.Y, a.y * z1, p.X, a.x * z1);
    EqSub(n, q.Y, b.y * z2, q.X, b.x * z2);
    EqAdd(n, p.Y, a.y * z1, p.X, a.x * z1);
    EqAdd(n, q.Y, b.y * z2, q.X, b.x * z2);
    ModProduct(n, p.Y - p.X, a.y * z1 - a.x * z1, q.Y - q.X, b.y * z2 - b.x * z2);
    ModProduct(n, p.Y + p.X, a.y * z1 + a.x * z1, q.Y + q.X, b.y * z2 + b.x * z2);
    EqScale(n, 2 * f.d, p.T, (a.x * a.y) * z1);
    ModProduct(n, (2 * f.d) * p.T, (2 * f.d) * ((a.x * a.y) * z1), q.T, (b.x * b.y) * z2);
    assert (2 * f.d) * p.T * q.T == p.T * 2 * f.d * q.T;
    EqMod(n, p.Z * 2 * q.Z);
    assert p.Z * 2 * q.Z == 2 * (z1 * z2);
    ModSumDiff(n, B, A, (a.y * z1 + a.x * z1) * (b.y * z2 + b.x * z2), (a.y * z1 - a.x * z1) * (b.y * z2 - b.x * z2));
    ModSumDiff(n, D, C, 2 * (z1 * z2), (2 * f.d) * ((a.x * a.y) * z1) * ((b.x * b.y) * z2));
    AddPolynomials(a.x, a.y, b.x, b.y, z1, z2);
    AddCross(f.d, a.x * a.y, b.x * b.y, z1, z2);
  }

  lemma AddPolynomials(x1: int, y1: int, x2: int, y2: int, z1: int, z2: int)
    ensures (y1 * z1 + x1 * z1) * (y2 * z2 + x2 * z2) - (y1 * z1 - x1 * z1) * (y2 * z2 - x2 * z2)
         == SumE(x1, y1, x2, y2) * (2 * (z1 * z2))
    ensures (y1 * z1 + x1 * z1) * (y2 * z2 + x2 * z2) + (y1 * z1 - x1 * z1) * (y2 * z2 - x2 * z2)
         == SumH(x1, y1, x2, y2) * (2 * (z1 * z2))
  {
    FactorZ(y1 + x1, y2 + x2, z1, z2);
    FactorZ(y1 - x1, y2 - x2, z1, z2);
    SumAsProducts(x1, y1, x2, y2);
    Collect(SumE(x1, y1, x2, y2), SumH(x1, y1, x2, y2), (y1 + x1) * (y2 + x2), (y1 - x1) * (y2 - x2), z1 * z2);
  }

  lemma FactorZ(u: int, v: int, z1: int, z2: int)
    ensures (u * z1) * (v * z2) == (u * v) * (z1 * z2)
  {
  }

  lemma SumAsProducts(x1: int, y1: int, x2: int, y2: int)
    ensures (y1 + x1) * (y2 + x2) - (y1 - x1) * (y2 - x2) == 2 * SumE(x1, y1, x2, y2)
    ensures (y1 + x1) * (y2 + x2) + (y1 - x1) * (y2 - x2) == 2 * SumH(x1, y1, x2, y2)
  {
  }

  lemma Collect(e: int, h: int, b: int, a: int, z: int)
    requires b - a == 2 * e && b + a == 2 * h
    ensures b * z - a * z == e * (2 * z) && b * z + a * z == h * (2 * z)
  {
    assert (b - a) * z == (2 * e) * z && (b + a) * z == (2 * h) * z;
  }

  lemma AddCross(d: int, t1: int, t2: int, z1: int, z2: int)
    ensures 2 * (z1 * z2) - (2 * d) * (t1 * z1) * (t2 * z2) == (1 - d * t1 * t2) * (2 * (z1 * z2))
    ensures 2 * (z1 * z2) + (2 * d) * (t1 * z1) * (t2 * z2) == (1 + d * t1 * t2) * (2 * (z1 * z2))
  {
  }

  lemma ModProduct(n: int, a: int, a': int, b: int, b': int)
    requires n > 0 && Eq(n, a, a') && Eq(n, b, b')
    ensures Eq(n, (a * b) % n, a' * b')
  {
    hide Divides;
    EqMul(n, a, a', b, b');
    EqMod(n, a * b);
    EqTrans(n, (a * b) % n, a * b, a' * b');
  }

  lemma ModSumDiff(n: int, b: int, a: int, b': int, a': int)
    requires n > 0 && Eq(n, b, b') && Eq(n, a, a')
    ensures Eq(n, (b - a) % n, b' - a') && Eq(n, (b + a) % n, b' + a')
  {
    hide Divides;
    EqSub(n, b, b', a, a');
    EqAdd(n, b, b', a, a');
    EqMod(n, b - a);
    EqMod(n, b + a);
    EqTrans(n, (b - a) % n, b - a, b' - a');
    EqTrans(n, (b + a) % n, b + a, b' + a');
  }

  /** (E*F, G*H, F*G, E*H) with E = e*w, F = k*w, G = g*w, H = h*w stands for (e/g, h/k). */
  lemma CompletedPoint(p: int, e: int, h: int, g: int, k: int, w: int, E: int, H: int, G: int, F: int, x: int, y: int)
    requires IsPrime(p) && !Divides(p, w) && !Divides(p, g) && !Divides(p, k)
    requires Eq(p, E, e * w) && Eq(p, H, h * w) && Eq(p, G, g * w) && Eq(p, F, k * w)
    requires Eq(p, x * g, e) && Eq(p, y * k, h)
    ensures !Divides(p, (F * G) % p)
    ensures Eq(p, (E * F) % p, x * ((F * G) % p))
    ensures Eq(p, (G * H) % p, y * ((F * G) % p))
    ensures Eq(p, (E * H) % p, (x * y) * ((F * G) % p))
  {
    hide Divides;
    ModProduct(p, E, e * w, F, k * w);
    ModProduct(p, G, g * w, H, h * w);
    ModProduct(p, F, k * w, G, g * w);
    ModProduct(p, E, e * w, H, h * w);
    var z := (F * G) % p;
    ProductNonzero(p, k, w);
    ProductNonzero(p, g, w);
    ProductNonzero(p, k * w, g * w);
    EqDivides(p, z, (k * w) * (g * w));
    EqMul(p, x * g, e, y * k, h);
    CompletedProducts(e, h, g, k, w, x, y);
    CompletedCoordinate(p, x, z, (k * w) * (g * w), (E * F) % p, x * g, e, k * w * w);
    CompletedCoordinate(p, y, z, (k * w) * (g * w), (G * H) % p, y * k, h, g * w * w);
    CompletedCoordinate(p, x * y, z, (k * w) * (g * w), (E * H) % p, (x * g) * (y * k), e * h, w * w);
  }

  lemma CompletedProducts(e: int, h: int, g: int, k: int, w: int, x: int, y: int)
    ensures (e * w) * (k * w) == e * (k * w * w) && (g * w) * (h * w) == h * (g * w * w)
            && (e * w) * (h * w) == (e * h) * (w * w)
    ensures x * ((k * w) * (g * w)) == (x * g) * (k * w * w)
    ensures y * ((k * w) * (g * w)) == (y * k) * (g * w * w)
    ensures (x * y) * ((k * w) * (g * w)) == ((x * g) * (y * k)) * (w * w)
  {
    TwoFactors(e, k, w);
    TwoFactors(h, g, w);
    TwoFactors(e, h, w);
    ThreeFactors(x, g, k, w);
    ThreeFactors(y, k, g, w);
    FourFactors(x, y, g, k, w);
  }

  lemma TwoFactors(e: int, k: int, w: int)
    ensures (e * w) * (k * w) == e * (k * w * w) && (k * w) * (e * w) == e * (k * w * w)
            && (e * w) * (k * w) == (e * k) * (w * w)
  {
  }

  lemma ThreeFactors(x: int, g: int, k: int, w: int)
    ensures x * ((k * w) * (g * w)) == (x * g) * (k * w * w) && x * ((g * w) * (k * w)) == (x * g) * (k * w * w)
  {
  }

  lemma FourFactors(x: int, y: int, g: int, k: int, w: int)
    ensures (x * y) * ((k * w) * (g * w)) == ((x * g) * (y * k)) * (w * w)
  {
    TwoFactors(k, g, w);
    assert (x * y) * ((k * g) * (w * w)) == ((x * y) * (k * g)) * (w * w);
    assert (x * y) * (k * g) == (x * g) * (y * k);
  }

  lemma CompletedCoordinate(p: int, x: int, z: int, z': int, n: int, l: int, r: int, c: int)
    requires Eq(p, n, r * c) && Eq(p, z, z') && x * z' == l * c && Eq(p, l, r)
    ensures Eq(p, n, x * z)
  {
    hide Divides;
    EqScale(p, x, z, z');
    EqScale(p, c, l, r);
    assert c * l == l * c && c * r == r * c;
    EqTrans(p, x * z, l * c, r * c);
    EqSym(p, x * z, r * c);
    EqTrans(p, n, r * c, x * z);
  }

  /** Unified addition computes the affine sum, for all pairs of points. */
  lemma AddRepresents(f: Params, p: Point, q: Point, a: Affine, b: Affine)
    requires f.Valid() && On(f, a) && On(f, b) && Represents(f, p, a) && Represents(f, q, b)
    ensures Represents(f, Add(f, p, q), Plus(f, a, b)) && On(f, Plus(f, a, b))
  {
    hide Divides, NonSquare, Plus, OnCurve, CrossProduct, SumE, SumH, Eq, IsPrime, Params.Valid;
    ParamsFacts(f);
    var r := Add(f, p, q);
    var w, m := 2 * (p.Z * q.Z), CrossProduct(f, a, b);
    var A, B := ((p.Y - p.X) * (q.Y - q.X)) % f.p, ((p.Y + p.X) * (q.Y + q.X)) % f.p;
    var C, D := (p.T * 2 * f.d * q.T) % f.p, (p.Z * 2 * q.Z) % f.p;
    var c := Plus(f, a, b);
    PlusOn(f, a, b);
    PlusIsSum(f, a, b);
    Denominators(f, a, b);
    AddIntermediates(f, p, q, a, b);
    ProductNonzero(f.p, p.Z, q.Z);
    SmallNotDivisible(f.p, 2);
    ProductNonzero(f.p, 2, p.Z * q.Z);
    CompletedPoint(f.p, SumE(a.x, a.y, b.x, b.y), SumH(a.x, a.y, b.x, b.y), 1 + m, 1 - m, w,
                   (B - A) % f.p, (B + A) % f.p, (D + C) % f.p, (D - C) % f.p, c.x, c.y);
  }

  lemma NegateRepresents(f: Params, p: Point, a: Affine)
    requires f.Valid() && On(f, a) && Represents(f, p, a)
    ensures Represents(f, Negate(f, p), Neg(f, a)) && On(f, Neg(f, a))
  {
    hide Divides, NonSquare, OnCurve, IsPrime, Neg, Eq;
    var r := Negate(f, p);
    NegOn(f, a);
    NegOrdinate(f, a);
    var n := Neg(f, a);
    EqMod(f.p, -p.X);
    EqMod(f.p, p.Y);
    EqMod(f.p, p.Z);
    EqMod(f.p, -p.T);
    EqDivides(f.p, r.Z, p.Z);
    EqSym(f.p, r.Z, p.Z);
    EqTrans(f.p, r.Y, p.Y, a.y * p.Z);
    EqScale(f.p, a.y, p.Z, r.Z);
    EqTrans(f.p, r.Y, a.y * p.Z, a.y * r.Z);
    NegatedCoordinate(f.p, r.X, p.X, a.x, n.x, p.Z, r.Z);
    EqScale(f.p, a.y, n.x, -a.x);
    NegatedProduct(a.x, a.y, n.x);
    NegatedCoordinate(f.p, r.T, p.T, a.x * a.y, n.x * n.y, p.Z, r.Z);
  }

  lemma NegOrdinate(f: Params, a: Affine)
    requires f.p > 2
    ensures Neg(f, a).y == a.y
  {
  }

  lemma NegatedProduct(x: int, y: int, n: int)
    ensures y * n == n * y && y * -x == -(x * y)
  {
  }

  lemma NegatedCoordinate(p: int, r: int, v: int, x: int, nx: int, z: int, z': int)
    requires Eq(p, r, -v) && Eq(p, v, x * z) && Eq(p, nx, -x) && Eq(p, z, z')
    ensures Eq(p, r, nx * z')
  {
    hide Divides;
    EqNeg(p, v, x * z);
    EqTrans(p, r, -v, -(x * z));
    EqSym(p, nx, -x);
    EqMul(p, -x, nx, z, z');
    assert -x * z == -(x * z);
    EqTrans(p, r, -x * z, nx * z');
  }

  /** add, double and negate keep both projective equations, for all points (section 5.1.4 of RFC 8032). */
  lemma OperationsKeepCurve(f: Params, p: Point, q: Point)
    requires f.Valid() && Valid(f, p) && Valid(f, q)
    ensures Valid(f, Add(f, p, q)) && Valid(f, Double(f, p)) && Valid(f, Negate(f, p))
  {
    hide Divides, NonSquare, Plus, OnCurve, ToAffine, Add, Negate, Valid, Represents, Neg;
    ValidRepresents(f, p);
    ValidRepresents(f, q);
    var a, b := ToAffine(f, p), ToAffine(f, q);
    AddRepresents(f, p, q, a, b);
    AddRepresents(f, p, p, a, a);
    NegateRepresents(f, p, a);
    RepresentsValid(f, Add(f, p, q), Plus(f, a, b));
    RepresentsValid(f, Add(f, p, p), Plus(f, a, a));
    RepresentsValid(f, Negate(f, p), Neg(f, a));
  }

  // ---------------------------------------------------------------- scalar multiplication

  /** n-fold sum of a. */
  function Times(f: Params, n: nat, a: Affine): Affine
    requires f.p > 2
  {
    if n == 0 then Zero else Plus(f, Times(f, n - 1, a), a)
  }

  lemma {:induction false} TimesOn(f: Params, n: nat, a: Affine)
    requires f.Valid() && On(f, a)
    ensures On(f, Times(f, n, a))
  {
    hide Divides, NonSquare, Plus, On;
    if n == 0 {
      ZeroOn(f);
    } else {
      TimesOn(f, n - 1, a);
      PlusOn(f, Times(f, n - 1, a), a);
    }
  }

  lemma {:induction false} TimesAdd(f: Params, m: nat, n: nat, a: Affine)
    requires f.Valid() && On(f, a)
    ensures Times(f, m + n, a) == Plus(f, Times(f, m, a), Times(f, n, a))
  {
    hide Divides, NonSquare, Plus, On;
    TimesOn(f, m, a);
    if n == 0 {
      PlusZero(f, Times(f, m, a));
    } else {
      TimesOn(f, n - 1, a);
      TimesAdd(f, m, n - 1, a);
      PlusAssociates(f, Times(f, m, a), Times(f, n - 1, a), a);
    }
  }

  lemma {:induction false} TimesMul(f: Params, m: nat, n: nat, a: Affine)
    requires f.Valid() && On(f, a)
    ensures Times(f, m, Times(f, n, a)) == Times(f, m * n, a)
  {
    hide Divides, NonSquare, Plus, On;
    TimesOn(f, n, a);
    if m > 0 {
      TimesMul(f, m - 1, n, a);
      TimesAdd(f, (m - 1) * n, n, a);
      assert (m - 1) * n + n == m * n;
    }
  }

  /** The state of the double-and-add loop after all remaining bits of k. */
  function ScalarLoop(f: Params, k: nat, result: Point, base: Point): Point
    requires f.p > 0
  {
    if k == 0 then result
    else ScalarLoop(f, k / 2, if k % 2 == 1 then Add(f, result, base) else result, Double(f, base))
  }

  function ScalarMul(f: Params, order: int, p: Point, k: int): Point
    requires f.p > 0 && order > 0
  {
    ScalarLoop(f, k % order, Identity, p)
  }

  method ScalarMulLoop(f: Params, order: int, p: Point, n: int) returns (result: Point)
    requires f.p > 0 && order > 0
    ensures result == ScalarMul(f, order, p, n)
  {
    var k := n % order;
    result := Identity;
    var base := p;
    while k > 0
      invariant 0 <= k
      invariant ScalarLoop(f, k, result, base) == ScalarMul(f, order, p, n)
    {
      if k % 2 == 1 {
        result := Add(f, result, base);
      }
      base := Double(f, base);
      k := k / 2;
    }
  }

  lemma {:induction false} ScalarLoopRepresents(f: Params, k: nat, result: Point, base: Point, r: Affine, b: Affine)
    requires f.Valid() && On(f, r) && On(f, b) && Represents(f, result, r) && Represents(f, base, b)
    ensures Represents(f, ScalarLoop(f, k, result, base), Plus(f, r, Times(f, k, b)))
    decreases k
  {
    hide Divides, NonSquare, Plus, Add, On, Represents;
    if k == 0 {
      PlusZero(f, r);
    } else {
      var q := k / 2;
      AddRepresents(f, result, base, r, b);
      AddRepresents(f, base, base, b, b);
      HalvedTimes(f, q, b);
      TimesOn(f, q, Plus(f, b, b));
      if k % 2 == 1 {
        ScalarLoopRepresents(f, q, Add(f, result, base), Double(f, base), Plus(f, r, b), Plus(f, b, b));
        PlusAssociates(f, r, b, Times(f, q, Plus(f, b, b)));
        PlusCommutes(f, b, Times(f, q, Plus(f, b, b)));
      } else {
        ScalarLoopRepresents(f, q, result, Double(f, base), r, Plus(f, b, b));
      }
    }
  }

  lemma HalvedTimes(f: Params, q: nat, b: Affine)
    requires f.Valid() && On(f, b)
    ensures Times(f, q, Plus(f, b, b)) == Times(f, 2 * q, b)
    ensures Times(f, 2 * q + 1, b) == Plus(f, Times(f, 2 * q, b), b)
  {
    hide Divides, NonSquare, Plus, On;
    PlusZero(f, b);
    ZeroOn(f);
    PlusCommutes(f, Zero, b);
    assert Times(f, 1, b) == Plus(f, Times(f, 0, b), b);
    assert Times(f, 2, b) == Plus(f, Times(f, 1, b), b);
    TimesMul(f, q, 2, b);
  }

  /** Double-and-add is (k mod order)-fold addition, for every integer k and every point. */
  lemma ScalarMulSpec(f: Params, order: int, p: Point, a: Affine, k: int)
    requires f.Valid() && order > 0 && On(f, a) && Represents(f, p, a)
    ensures Represents(f, ScalarMul(f, order, p, k), Times(f, k % order, a))
    ensures On(f, Times(f, k % order, a))
  {
    hide Divides, NonSquare, Plus, On, Represents, ScalarLoop;
    var n := k % order;
    ZeroOn(f);
    IdentityRepresents(f);
    ScalarLoopRepresents(f, n, Identity, p, Zero, a);
    TimesOn(f, n, a);
    PlusZero(f, Times(f, n, a));
    PlusCommutes(f, Zero, Times(f, n, a));
  }

  /** On a point whose order divides `order`, the reduction of k changes nothing. */
  lemma ScalarMulUnreduced(f: Params, order: int, p: Point, a: Affine, k: nat)
    requires f.Valid() && order > 0 && On(f, a) && Represents(f, p, a) && Times(f, order, a) == Zero
    ensures Represents(f, ScalarMul(f, order, p, k), Times(f, k, a))
  {
    hide Divides, NonSquare, Plus, On, Represents, ScalarMul;
    ScalarMulSpec(f, order, p, a, k);
    var q, r := k / order, k % order;
    assert k == q * order + r;
    TimesMul(f, q, order, a);
    TimesOfZero(f, q);
    TimesAdd(f, q * order, r, a);
    TimesOn(f, r, a);
    ZeroOn(f);
    PlusZero(f, Times(f, r, a));
    PlusCommutes(f, Zero, Times(f, r, a));
  }

  lemma {:induction false} TimesOfZero(f: Params, n: nat)
    requires f.Valid()
    ensures Times(f, n, Zero) == Zero
  {
    hide Divides, NonSquare, Plus, On;
    if n > 0 {
      TimesOfZero(f, n - 1);
      ZeroOn(f);
      PlusZero(f, Zero);
    }
  }
}
