/** What the encoder computes: the parameter of the canonical member of the point's coset. */
module RistrettoEncode {
  import opened Numbers
  import opened Wrappers
  import opened Fermat
  import opened Field25519
  import opened EdwardsLaw
  import opened EdwardsGroup
  import opened EdwardsPoint
  import opened Ristretto

  /** The two products that enter the encoder's square root. */
  lemma EncodeProducts(f: Params, p: Point, a: Affine)
    requires f.p > 0 && Represents(f, p, a)
    ensures Eq(f.p, ((p.Z + p.Y) * (p.Z - p.Y)) % f.p, (1 - a.y * a.y) * (p.Z * p.Z))
    ensures Eq(f.p, (p.X * p.Y) % f.p, (a.x * a.y) * (p.Z * p.Z))
  {
    hide Divides;
    EqRefl(f.p, p.Z);
    EqAdd(f.p, p.Z, p.Z, p.Y, a.y * p.Z);
    EqSub(f.p, p.Z, p.Z, p.Y, a.y * p.Z);
    ModProduct(f.p, p.Z + p.Y, p.Z + a.y * p.Z, p.Z - p.Y, p.Z - a.y * p.Z);
    ModProduct(f.p, p.X, a.x * p.Z, p.Y, a.y * p.Z);
    ProductsIdentity(a.x, a.y, p.Z);
  }

  lemma ProductsIdentity(x: int, y: int, z: int)
    ensures (z + y * z) * (z - y * z) == (1 - y * y) * (z * z)
    ensures (x * z) * (y * z) == (x * y) * (z * z)
  {
  }

  /** For even points outside the neutral coset the square root exists. */
  lemma EncodeRoot(f: Params, p: Point, a: Affine)
    requires f.Valid() && On(f, a) && Even(f, a) && Represents(f, p, a) && !Divides(f.p, a.x * a.y)
    ensures var u1, u2 := ((p.Z + p.Y) * (p.Z - p.Y)) % f.p, (p.X * p.Y) % f.p;
            var j := InvSqrt(f, p.X, p.Y, p.Z);
            Eq(f.p, (u1 * u2 * u2) * j * j, 1)
  {
    hide Divides, NonSquare, SqrtRatioM1, OnCurve, IsPrime;
    var u1, u2 := ((p.Z + p.Y) * (p.Z - p.Y)) % f.p, (p.X * p.Y) % f.p;
    var w :| IsEvenRoot(f, a, w);
    EncodeProducts(f, p, a);
    FactorDivides(f.p, a.x, a.y);
    FactorDivides(f.p, a.y, a.x);
    YNotOne(f, a.x, a.y);
    var n := EvenWitness(f, u1, u2, a, p.Z, w);
    EqMod(f.p, u1 * u2 * u2);
    EqRefl(f.p, 1);
    RatioReduces(f.p, 1, u1 * u2 * u2, 1, (u1 * u2 * u2) % f.p);
    SqrtRatioSpec(f, 1, (u1 * u2 * u2) % f.p);
    FlaggedRoot(f, (u1 * u2 * u2) % f.p, u1 * u2 * u2, InvSqrt(f, p.X, p.Y, p.Z));
  }

  /** u1*u2^2 = n^2 with n = w*t*Z^3, hence 1/(u1*u2^2) is a square. */
  lemma EvenWitness(f: Params, u1: int, u2: int, a: Affine, z: int, w: int) returns (n: int)
    requires f.Valid() && IsEvenRoot(f, a, w) && !Divides(f.p, a.x * a.y) && !Divides(f.p, 1 - a.y * a.y)
             && !Divides(f.p, z)
    requires Eq(f.p, u1, (1 - a.y * a.y) * (z * z)) && Eq(f.p, u2, (a.x * a.y) * (z * z))
    ensures Eq(f.p, u1 * u2 * u2, n * n) && RatioIsSquare(f.p, 1, u1 * u2 * u2)
  {
    hide Divides, NonSquare, IsPrime;
    var p, t := f.p, a.x * a.y;
    var l, r := w * z, t * (z * z);
    n := l * r;
    EqSym(p, w * w, 1 - a.y * a.y);
    EqScale(p, z * z, 1 - a.y * a.y, w * w);
    assert (z * z) * (w * w) == l * l && (z * z) * (1 - a.y * a.y) == (1 - a.y * a.y) * (z * z);
    EqTrans(p, u1, (1 - a.y * a.y) * (z * z), l * l);
    EqMul(p, u1, l * l, u2, r);
    EqMul(p, u1 * u2, (l * l) * r, u2, r);
    assert ((l * l) * r) * r == n * n;
    FactorDivides(p, w, w);
    EqDivides(p, w * w, 1 - a.y * a.y);
    ProductNonzero(p, w, z);
    ProductNonzero(p, z, z);
    ProductNonzero(p, t, z * z);
    ProductNonzero(p, l, r);
    InverseOfSquare(p, u1 * u2 * u2, n);
  }

  lemma InverseOfSquare(p: int, v: int, n: int)
    requires IsPrime(p) && !Divides(p, n) && Eq(p, v, n * n)
    ensures RatioIsSquare(p, 1, v)
  {
    hide Divides;
    var m := Pow(n, p - 2);
    FermatInverse(p, n);
    EqMul(p, n * m, 1, n * m, 1);
    EqScale(p, m * m, v, n * n);
    assert (m * m) * (n * n) == (n * m) * (n * m) && (m * m) * v == v * m * m;
    EqTrans(p, v * m * m, (n * m) * (n * m), 1);
    assert IsRootOfRatio(p, 1, v, m);
  }

  /** den1*den2*T is 1/Z. */
  lemma EncodeInverse(p: int, j: int, u1: int, u2: int, t: int, z: int, T: int, zInv: int)
    requires p > 0 && Eq(p, (u1 * u2 * u2) * j * j, 1) && Eq(p, T, t * z) && Eq(p, u2, t * (z * z))
    requires zInv == (((j * u1) % p) * ((j * u2) % p) * T) % p
    ensures Eq(p, zInv * z, 1)
  {
    hide Divides;
    EqMod(p, j * u1);
    EqMod(p, j * u2);
    EqMul(p, (j * u1) % p, j * u1, (j * u2) % p, j * u2);
    EqRefl(p, T);
    ModProduct(p, ((j * u1) % p) * ((j * u2) % p), (j * u1) * (j * u2), T, T);
    EqScale(p, z, zInv, (j * u1) * (j * u2) * T);
    // T*z = u2
    EqScale(p, z, T, t * z);
    EqSym(p, u2, t * (z * z));
    assert z * (t * z) == t * (z * z);
    EqTrans(p, z * T, t * (z * z), u2);
    EqScale(p, (j * u1) * (j * u2), z * T, u2);
    InverseIdentity(j, u1, u2, z, T);
    EqTrans(p, zInv * z, ((j * u1) * (j * u2)) * (z * T), (u1 * u2 * u2) * j * j);
    EqTrans(p, zInv * z, (u1 * u2 * u2) * j * j, 1);
  }

  lemma InverseIdentity(j: int, u1: int, u2: int, z: int, T: int)
    ensures z * ((j * u1) * (j * u2) * T) == ((j * u1) * (j * u2)) * (z * T)
    ensures ((j * u1) * (j * u2)) * u2 == (u1 * u2 * u2) * j * j
  {
  }

  /** Dividing by Z recovers an affine coordinate. */
  lemma ByInverse(p: int, v: int, x: int, z: int, zInv: int)
    requires p > 0 && Eq(p, v, x * z) && Eq(p, zInv * z, 1)
    ensures (v * zInv) % p == x % p
  {
    hide Divides;
    EqScale(p, zInv, v, x * z);
    EqScale(p, x, zInv * z, 1);
    assert zInv * v == v * zInv && zInv * (x * z) == x * (zInv * z);
    EqTrans(p, v * zInv, x * (zInv * z), x);
    EqIffMod(p, v * zInv, x);
  }

  /** The last step of the encoder, for either choice of rotation. */
  lemma FinishSpec(f: Params, X: int, Y: int, Z: int, den: int, zInv: int, x: int, y: int)
    requires f.p > 2 && f.p % 2 == 1
    requires Eq(f.p, zInv * Z, 1) && Eq(f.p, X, x * Z) && Eq(f.p, Y, y * Z)
    requires Eq(f.p, (Z * Z) * (den * den) * (1 - y * y), 1)
    ensures var s := Finish(f, X, Y, Z, den, zInv);
            var y' := if IsNegative(x % f.p) then -y else y;
            0 <= s < f.p && !IsNegative(s) && Eq(f.p, (s * s) * (1 - y * y), (1 - y') * (1 - y'))
  {
    hide Divides, Abs;
    var p := f.p;
    ByInverse(p, X, x, Z, zInv);
    var Y' := if IsNegative(x % p) then (-Y) % p else Y;
    var y' := if IsNegative(x % p) then -y else y;
    EqNeg(p, Y, y * Z);
    EqMod(p, -Y);
    assert -y * Z == -(y * Z);
    if IsNegative(x % p) {
      EqTrans(p, Y', -Y, y' * Z);
    }
    EqRefl(p, Z);
    EqSub(p, Z, Z, Y', y' * Z);
    EqRefl(p, den);
    ModProduct(p, Z - Y', Z - y' * Z, den, den);
    var r := ((Z - Y') * den) % p;
    AbsSpec(f, r);
    var s := Abs(f, r);
    FinishSquare(p, s, r, y', Z, den, 1 - y * y);
  }

  lemma FinishSquare(p: int, s: int, r: int, y: int, z: int, den: int, k: int)
    requires Eq(p, s * s, r * r) && Eq(p, r, (z - y * z) * den) && Eq(p, (z * z) * (den * den) * k, 1)
    ensures Eq(p, (s * s) * k, (1 - y) * (1 - y))
  {
    hide Divides;
    var q := (z - y * z) * den;
    EqMul(p, r, q, r, q);
    EqTrans(p, s * s, r * r, q * q);
    EqScale(p, k, s * s, q * q);
    FinishIdentity(y, z, den, k);
    EqScale(p, (1 - y) * (1 - y), (z * z) * (den * den) * k, 1);
    EqTrans(p, (s * s) * k, ((1 - y) * (1 - y)) * ((z * z) * (den * den) * k), (1 - y) * (1 - y));
  }

  lemma FinishIdentity(y: int, z: int, den: int, k: int)
    ensures k * (((z - y * z) * den) * ((z - y * z) * den)) == ((1 - y) * (1 - y)) * ((z * z) * (den * den) * k)
  {
    var a := 1 - y;
    assert z - y * z == a * z;
    FinishMonomial(a, z, den, k);
  }

  lemma FinishMonomial(a: int, z: int, den: int, k: int)
    ensures k * (((a * z) * den) * ((a * z) * den)) == (a * a) * ((z * z) * (den * den) * k)
  {
    assert ((a * z) * den) * ((a * z) * den) == (a * a) * ((z * z) * (den * den));
  }

  /** The denominators of the two branches: Z^2*den^2*(1-y'^2) = 1. */
  lemma PlainDenominator(p: int, u1: int, u2: int, j: int, z: int, y: int, den: int)
    requires Eq(p, (u1 * u2 * u2) * j * j, 1) && Eq(p, u1, (1 - y * y) * (z * z)) && Eq(p, den, j * u2)
    ensures Eq(p, (z * z) * (den * den) * (1 - y * y), 1)
  {
    hide Divides;
    EqMul(p, den, j * u2, den, j * u2);
    EqSym(p, u1, (1 - y * y) * (z * z));
    EqMul(p, den * den, (j * u2) * (j * u2), (1 - y * y) * (z * z), u1);
    PlainIdentity(den * den, z * z, 1 - y * y, j, u1, u2);
    EqTrans(p, (z * z) * (den * den) * (1 - y * y), (u1 * u2 * u2) * j * j, 1);
  }

  lemma PlainIdentity(dd: int, zz: int, k: int, j: int, u1: int, u2: int)
    ensures dd * (k * zz) == zz * dd * k && ((j * u2) * (j * u2)) * u1 == (u1 * u2 * u2) * j * j
  {
  }

  lemma RotatedDenominator(f: Params, u1: int, u2: int, j: int, z: int, a: Affine, y: int, den: int)
    requires f.Valid() && On(f, a) && Eq(f.p, y, f.i * a.x)
    requires Eq(f.p, (u1 * u2 * u2) * j * j, 1) && Eq(f.p, den, j * u1 * f.c)
    requires Eq(f.p, u1, (1 - a.y * a.y) * (z * z)) && Eq(f.p, u2, (a.x * a.y) * (z * z))
    ensures Eq(f.p, (z * z) * (den * den) * (1 - y * y), 1)
  {
    hide Divides, NonSquare, IsPrime, OnCurve;
    var p := f.p;
    CurveForProduct(p, f.d, a.x, a.y);
    RotatedOrdinate(p, f.i, a.x, y);
    RotatedSquare(p, f.c, f.d, (1 - a.y * a.y) * (1 + a.x * a.x), a.x * a.y);
    RotatedProduct(p, u1, u2, j, z, 1 - a.y * a.y, 1 + a.x * a.x, a.x * a.y, f.c, den, 1 - y * y);
  }

  /** 1 - y^2 = 1 + x^2 for y = i*x. */
  lemma RotatedOrdinate(p: int, i: int, x: int, y: int)
    requires Eq(p, y, i * x) && Eq(p, i * i, -1)
    ensures Eq(p, 1 - y * y, 1 + x * x)
  {
    hide Divides;
    EqMul(p, y, i * x, y, i * x);
    SquareOfProduct(i, x);
    EqScale(p, x * x, i * i, -1);
    EqTrans(p, y * y, (x * x) * (i * i), (x * x) * -1);
    EqRefl(p, 1);
    EqSub(p, 1, 1, y * y, (x * x) * -1);
  }

  lemma SquareOfProduct(i: int, x: int)
    ensures (i * x) * (i * x) == (x * x) * (i * i)
  {
  }

  /** Where m = (-1 - d)*t^2, c^2*m = t^2. */
  lemma RotatedSquare(p: int, c: int, d: int, m: int, t: int)
    requires Eq(p, m, (-1 - d) * (t * t)) && Eq(p, c * c * (-1 - d), 1)
    ensures Eq(p, (c * c) * m, t * t)
  {
    hide Divides;
    EqScale(p, c * c, m, (-1 - d) * (t * t));
    EqScale(p, t * t, c * c * (-1 - d), 1);
    RotatedIdentity1(c * c, -1 - d, t * t);
    EqTrans(p, (c * c) * m, (t * t) * (c * c * (-1 - d)), t * t);
  }

  lemma RotatedIdentity1(cc: int, e: int, tt: int)
    ensures cc * (e * tt) == tt * (cc * e)
  {
  }

  lemma RotatedProduct(p: int, u1: int, u2: int, j: int, z: int, q: int, k: int, t: int, c: int, den: int, k': int)
    requires Eq(p, (u1 * u2 * u2) * j * j, 1) && Eq(p, den, j * u1 * c) && Eq(p, u1, q * (z * z))
             && Eq(p, u2, t * (z * z))
    requires Eq(p, (c * c) * (q * k), t * t) && Eq(p, k', k)
    ensures Eq(p, (z * z) * (den * den) * k', 1)
  {
    hide Divides;
    var zz := z * z;
    EqMul(p, den, j * u1 * c, den, j * u1 * c);
    EqMul(p, den * den, (j * u1 * c) * (j * u1 * c), k', k);
    EqScale(p, zz, (den * den) * k', ((j * u1 * c) * (j * u1 * c)) * k);
    // zz*u1*c^2*k = zz*q*zz*c^2*k = (t*zz)^2 = u2^2
    EqScale(p, zz * (c * c) * k, u1, q * zz);
    EqScale(p, zz * zz, (c * c) * (q * k), t * t);
    RotatedIdentity2(zz, c * c, k, q, t);
    EqSym(p, u2, t * zz);
    EqMul(p, t * zz, u2, t * zz, u2);
    EqTrans(p, (zz * (c * c) * k) * u1, (zz * zz) * ((c * c) * (q * k)), (zz * zz) * (t * t));
    EqTrans(p, (zz * (c * c) * k) * u1, (t * zz) * (t * zz), u2 * u2);
    EqScale(p, (j * j) * u1, (zz * (c * c) * k) * u1, u2 * u2);
    RotatedIdentity3(j, u1, c, zz, k, u2);
    EqTrans(p, zz * ((den * den) * k'), ((j * j) * u1) * ((zz * (c * c) * k) * u1), (u1 * u2 * u2) * j * j);
    EqTrans(p, zz * ((den * den) * k'), (u1 * u2 * u2) * j * j, 1);
    assert zz * ((den * den) * k') == zz * (den * den) * k';
  }

  lemma RotatedIdentity2(zz: int, cc: int, k: int, q: int, t: int)
    ensures (zz * cc * k) * (q * zz) == (zz * zz) * (cc * (q * k))
    ensures (zz * zz) * (t * t) == (t * zz) * (t * zz)
  {
  }

  lemma RotatedIdentity3(j: int, u1: int, c: int, zz: int, k: int, u2: int)
    ensures zz * (((j * u1 * c) * (j * u1 * c)) * k) == ((j * j) * u1) * ((zz * (c * c) * k) * u1)
    ensures ((j * j) * u1) * (u2 * u2) == (u1 * u2 * u2) * j * j
  {
    var m := j * u1;
    assert (m * c) * (m * c) == (m * m) * (c * c);
    assert m * m == ((j * j) * u1) * u1;
  }

  // ---------------------------------------------------------------- canonical representatives

  /** Rotating turns x*y into its opposite; rotating twice negates both coordinates. */
  lemma RotateProducts(f: Params, a: Affine)
    requires f.Valid() && On(f, a)
    ensures Eq(f.p, Rotate(f, a).x * Rotate(f, a).y, -(a.x * a.y))
    ensures On(f, Rotate(f, a)) && On(f, Rotate(f, Rotate(f, a)))
    ensures Eq(f.p, Rotate(f, Rotate(f, a)).x, -a.x) && Eq(f.p, Rotate(f, Rotate(f, a)).y, -a.y)
  {
    hide Divides, NonSquare, IsPrime, OnCurve, Rotate, Eq;
    RotateOn(f, a);
    RotateOn(f, Rotate(f, a));
    var b, c := Rotate(f, a), Rotate(f, Rotate(f, a));
    TwiceI(f.p, f.i, a.x, b.y, c.x);
    TwiceI(f.p, f.i, a.y, b.x, c.y);
    OnceI(f.p, f.i, a.x, a.y, b.x, b.y);
  }

  lemma OnceI(p: int, i: int, x: int, y: int, bX: int, bY: int)
    requires Eq(p, i * i, -1) && Eq(p, bX, i * y) && Eq(p, bY, i * x)
    ensures Eq(p, bX * bY, -(x * y))
  {
    hide Divides;
    EqMul(p, bX, i * y, bY, i * x);
    EqScale(p, x * y, i * i, -1);
    assert (i * y) * (i * x) == (x * y) * (i * i);
    EqTrans(p, bX * bY, (x * y) * (i * i), (x * y) * -1);
  }

  lemma TwiceI(p: int, i: int, x: int, b: int, c: int)
    requires Eq(p, i * i, -1) && Eq(p, b, i * x) && Eq(p, c, i * b)
    ensures Eq(p, c, -x)
  {
    hide Divides;
    EqScale(p, i, b, i * x);
    EqScale(p, x, i * i, -1);
    assert i * (i * x) == x * (i * i) && x * -1 == -x;
    EqTrans(p, c, i * b, x * (i * i));
    EqTrans(p, c, x * (i * i), -x);
  }

  /** Of two opposite non-zero residues exactly one is negative. */
  lemma OppositeSigns(p: int, a: int, b: int)
    requires p > 0 && p % 2 == 1 && Eq(p, a, -b) && !Divides(p, b)
    ensures IsNegative(a % p) <==> !IsNegative(b % p)
    ensures a % p != 0 && b % p != 0
  {
    hide Divides;
    EqMod(p, b);
    EqNeg(p, b, b % p);
    EqTrans(p, a, -b, -(b % p));
    DividesMod(p, b);
    DividesIntro(p, -(b % p) - (p - b % p), -1);
    EqTrans(p, a, -(b % p), p - b % p);
    EqIffMod(p, a, p - b % p);
    ModSmall(p, p - b % p);
  }

  lemma ZeroCanonical(f: Params)
    requires f.Valid()
    ensures IsCanonical(f, Zero)
  {
    ZeroOn(f);
    ModSmall(f.p, 0);
  }

  /** The unrotated-or-rotated point b of Canonical, outside the neutral coset. */
  function Upright(f: Params, a: Affine): Affine
    requires f.p > 0
  {
    if IsNegative((a.x * a.y) % f.p) then Rotate(f, a) else a
  }

  lemma UprightSpec(f: Params, a: Affine)
    requires f.Valid() && On(f, a) && !Divides(f.p, a.x * a.y)
    ensures var b := Upright(f, a); On(f, b) && !Divides(f.p, b.x * b.y) && !IsNegative((b.x * b.y) % f.p)
  {
    hide Divides, NonSquare, IsPrime, OnCurve, Rotate;
    var b := Rotate(f, a);
    RotateProducts(f, a);
    OppositeSigns(f.p, b.x * b.y, a.x * a.y);
    DividesMod(f.p, b.x * b.y);
  }

  lemma CanonicalOfUpright(f: Params, a: Affine)
    requires f.Valid() && On(f, a) && !Divides(f.p, a.x * a.y)
    ensures var b, r := Upright(f, a), Canonical(f, a);
            && r == (if IsNegative(b.x) then Rotate(f, Rotate(f, b)) else b)
            && IsCanonical(f, r) && !Divides(f.p, r.x) && !Divides(f.p, r.y)
            && Eq(f.p, r.y, if IsNegative(b.x) then -b.y else b.y)
  {
    hide Divides, NonSquare, IsPrime, OnCurve, Rotate, Eq;
    DividesMod(f.p, a.x * a.y);
    UprightSpec(f, a);
    var b := Upright(f, a);
    EqRefl(f.p, b.y);
    if IsNegative(b.x) {
      RotateProducts(f, b);
      NegatedPair(f, b, Rotate(f, Rotate(f, b)));
    } else {
      ProperCanonical(f, b);
    }
  }

  /** With x*y non-zero and both x and x*y non-negative, a point is canonical. */
  lemma ProperCanonical(f: Params, b: Affine)
    requires f.p > 0 && On(f, b) && !Divides(f.p, b.x * b.y) && !IsNegative((b.x * b.y) % f.p) && !IsNegative(b.x)
    ensures IsCanonical(f, b) && !Divides(f.p, b.x) && !Divides(f.p, b.y)
  {
    hide Divides;
    FactorDivides(f.p, b.x, b.y);
    FactorDivides(f.p, b.y, b.x);
    DividesIntro(f.p, 0, 0);
  }

  lemma NegatedFactors(x: int, y: int)
    ensures -x * -y == x * y
  {
  }

  lemma NegatedPair(f: Params, b: Affine, c: Affine)
    requires f.Valid() && On(f, b) && On(f, c) && Eq(f.p, c.x, -b.x) && Eq(f.p, c.y, -b.y)
    requires !Divides(f.p, b.x * b.y) && !IsNegative((b.x * b.y) % f.p) && IsNegative(b.x)
    ensures IsCanonical(f, c) && !Divides(f.p, c.x) && !Divides(f.p, c.y)
  {
    hide Divides, NonSquare, IsPrime, OnCurve, IsCanonical;
    EqMul(f.p, c.x, -b.x, c.y, -b.y);
    NegatedFactors(b.x, b.y);
    EqIffMod(f.p, c.x * c.y, b.x * b.y);
    EqDivides(f.p, c.x * c.y, b.x * b.y);
    FactorDivides(f.p, b.x, b.y);
    OppositeSigns(f.p, c.x, b.x);
    ModSmall(f.p, b.x);
    ModSmall(f.p, c.x);
    ProperCanonical(f, c);
  }

  lemma CanonicalSpec(f: Params, a: Affine)
    requires f.Valid() && On(f, a)
    ensures IsCanonical(f, Canonical(f, a))
  {
    hide Divides, NonSquare, IsPrime, OnCurve, Rotate;
    DividesMod(f.p, a.x * a.y);
    if Divides(f.p, a.x * a.y) {
      ZeroCanonical(f);
    } else {
      CanonicalOfUpright(f, a);
    }
  }

  // ---------------------------------------------------------------- the encoder

  lemma ReducedRepresents(f: Params, p: Point, a: Affine)
    requires f.p > 0 && Represents(f, p, a)
    ensures Represents(f, Point(p.X % f.p, p.Y % f.p, p.Z % f.p, p.T % f.p), a)
  {
    hide Divides;
    var z := p.Z % f.p;
    EqMod(f.p, p.X);
    EqMod(f.p, p.Y);
    EqMod(f.p, p.Z);
    EqMod(f.p, p.T);
    EqDivides(f.p, z, p.Z);
    ReducedCoordinate(f.p, p.X % f.p, p.X, a.x, p.Z, z);
    ReducedCoordinate(f.p, p.Y % f.p, p.Y, a.y, p.Z, z);
    ReducedCoordinate(f.p, p.T % f.p, p.T, a.x * a.y, p.Z, z);
  }

  lemma ReducedCoordinate(p: int, r: int, v: int, x: int, z: int, z': int)
    requires Eq(p, r, v) && Eq(p, v, x * z) && Eq(p, z, z')
    ensures Eq(p, r, x * z')
  {
    hide Divides;
    EqTrans(p, r, v, x * z);
    EqScale(p, x, z, z');
    EqTrans(p, r, x * z, x * z');
  }

  /** From s^2*(1-y^2) = (1-y)^2 to the parameter equation. */
  lemma ParameterFromSquare(p: int, s: int, y0: int, y': int, y: int)
    requires IsPrime(p) && !Divides(p, 1 - y) && Eq(p, y, y') && (y' == y0 || y' == -y0)
    requires Eq(p, (s * s) * (1 - y0 * y0), (1 - y') * (1 - y'))
    ensures Eq(p, s * s * (1 + y), 1 - y)
  {
    hide Divides, IsPrime;
    assert y0 * y0 == y' * y';
    EqRefl(p, 1);
    EqSub(p, 1, 1, y, y');
    EqMul(p, 1 - y, 1 - y', 1 - y, 1 - y');
    EqMul(p, y, y', y, y');
    EqSub(p, 1, 1, y * y, y' * y');
    EqScale(p, s * s, 1 - y * y, 1 - y' * y');
    EqTrans(p, (s * s) * (1 - y * y), (s * s) * (1 - y' * y'), (1 - y') * (1 - y'));
    EqSym(p, (1 - y) * (1 - y), (1 - y') * (1 - y'));
    EqTrans(p, (s * s) * (1 - y * y), (1 - y') * (1 - y'), (1 - y) * (1 - y));
    assert (s * s) * (1 - y * y) == (1 - y) * (s * s * (1 + y)) by { DifferenceOfSquares(s * s, y); }
    EqCancel(p, 1 - y, s * s * (1 + y), 1 - y);
  }

  lemma DifferenceOfSquares(q: int, y: int)
    ensures q * (1 - y * y) == (1 - y) * (q * (1 + y))
  {
  }

  /** The neutral coset encodes to zero. */
  lemma EncodeNeutral(f: Params, p: Point, a: Affine)
    requires f.Valid() && Represents(f, p, a) && Divides(f.p, a.x * a.y)
    ensures EncodeReduced(f, p.X, p.Y, p.Z, p.T) == 0
  {
    hide Divides, NonSquare, IsPrime, SqrtRatioM1;
    var u1, u2 := ((p.Z + p.Y) * (p.Z - p.Y)) % f.p, (p.X * p.Y) % f.p;
    EncodeProducts(f, p, a);
    FactorDivides(f.p, a.x * a.y, p.Z * p.Z);
    EqDivides(f.p, u2, (a.x * a.y) * (p.Z * p.Z));
    DividesSmall(f.p, u2);
    assert u1 * u2 * u2 == 0;
    ModSmall(f.p, 0);
    DividesIntro(f.p, 0, 0);
    SqrtRatioSpec(f, 1, 0);
    assert InvSqrt(f, p.X, p.Y, p.Z) == 0;
    assert p.X * 0 == 0 && p.T * 0 == 0;
    FinishZero(f, p.X, p.Y, p.Z);
  }

  lemma FinishZero(f: Params, X: int, Y: int, Z: int)
    requires f.p > 0
    ensures Finish(f, X, Y, Z, 0, 0) == 0
  {
    ModSmall(f.p, 0);
    assert X * 0 == 0;
    assert forall k: int :: k * 0 == 0;
  }

  /** Outside the neutral coset the encoder returns the parameter of the canonical member. */
  lemma EncodeProper(f: Params, p: Point, a: Affine)
    requires f.Valid() && On(f, a) && Even(f, a) && Represents(f, p, a) && !Divides(f.p, a.x * a.y)
    ensures IsParameter(f, EncodeReduced(f, p.X, p.Y, p.Z, p.T), Canonical(f, a).y)
  {
    hide Divides, NonSquare, IsPrime, InvSqrt, Finish, Canonical, OnCurve, Rotate, Even, Eq, EncodeReduced;
    var b, r := Upright(f, a), Canonical(f, a);
    CanonicalOfUpright(f, a);
    UprightSpec(f, a);
    YNotOneAt(f, r);
    EncodeUpright(f, p, a);
    ParameterFromSquare(f.p, EncodeReduced(f, p.X, p.Y, p.Z, p.T), b.y, if IsNegative(b.x) then -b.y else b.y, r.y);
  }

  lemma EncodeUpright(f: Params, p: Point, a: Affine)
    requires f.Valid() && On(f, a) && Even(f, a) && Represents(f, p, a) && !Divides(f.p, a.x * a.y)
    ensures var s, b := EncodeReduced(f, p.X, p.Y, p.Z, p.T), Upright(f, a);
            var y' := if IsNegative(b.x) then -b.y else b.y;
            0 <= s < f.p && !IsNegative(s) && Eq(f.p, (s * s) * (1 - b.y * b.y), (1 - y') * (1 - y'))
  {
    hide Divides, NonSquare, IsPrime, InvSqrt, Finish, OnCurve, Rotate, Even, Eq;
    var n := f.p;
    var u1, u2 := ((p.Z + p.Y) * (p.Z - p.Y)) % n, (p.X * p.Y) % n;
    var j := InvSqrt(f, p.X, p.Y, p.Z);
    var den1, den2 := (j * u1) % n, (j * u2) % n;
    var zInv := (den1 * den2 * p.T) % n;
    EncodeProducts(f, p, a);
    EncodeRoot(f, p, a);
    EncodeInverse(n, j, u1, u2, a.x * a.y, p.Z, p.T, zInv);
    ByInverse(n, p.T, a.x * a.y, p.Z, zInv);
    UprightSpec(f, a);
    ModSmall(n, Upright(f, a).x);
    if IsNegative((a.x * a.y) % n) {
      RotatedBranch(f, p, a, u1, u2, j, zInv);
    } else {
      EqMod(n, j * u2);
      PlainDenominator(n, u1, u2, j, p.Z, a.y, den2);
      FinishSpec(f, p.X, p.Y, p.Z, den2, zInv, a.x, a.y);
    }
  }

  lemma RotatedBranch(f: Params, p: Point, a: Affine, u1: int, u2: int, j: int, zInv: int)
    requires f.Valid() && On(f, a) && Represents(f, p, a) && Eq(f.p, zInv * p.Z, 1)
    requires Eq(f.p, (u1 * u2 * u2) * j * j, 1)
    requires Eq(f.p, u1, (1 - a.y * a.y) * (p.Z * p.Z)) && Eq(f.p, u2, (a.x * a.y) * (p.Z * p.Z))
    ensures var s := Finish(f, (p.Y * f.i) % f.p, (p.X * f.i) % f.p, p.Z, (((j * u1) % f.p) * f.c) % f.p, zInv);
            var b := Rotate(f, a);
            var y' := if IsNegative(b.x % f.p) then -b.y else b.y;
            0 <= s < f.p && !IsNegative(s) && Eq(f.p, (s * s) * (1 - b.y * b.y), (1 - y') * (1 - y'))
  {
    hide Divides, NonSquare, IsPrime, Finish, OnCurve, Rotate, Eq;
    var n, b := f.p, Rotate(f, a);
    var den := (((j * u1) % n) * f.c) % n;
    RotateOn(f, a);
    EqMod(n, j * u1);
    EqRefl(n, f.c);
    ModProduct(n, (j * u1) % n, j * u1, f.c, f.c);
    RotatedDenominator(f, u1, u2, j, p.Z, a, b.y, den);
    RotatedCoordinate(n, f.i, (p.Y * f.i) % n, p.Y, a.y, b.x, p.Z);
    RotatedCoordinate(n, f.i, (p.X * f.i) % n, p.X, a.x, b.y, p.Z);
    FinishSpec(f, (p.Y * f.i) % n, (p.X * f.i) % n, p.Z, den, zInv, b.x, b.y);
  }

  lemma YNotOneAt(f: Params, r: Affine)
    requires f.Valid() && On(f, r) && !Divides(f.p, r.x) && !Divides(f.p, r.y)
    ensures !Divides(f.p, 1 - r.y)
  {
    YNotOne(f, r.x, r.y);
  }

  lemma RotatedCoordinate(p: int, i: int, r: int, v: int, x: int, b: int, z: int)
    requires p > 0 && r == (v * i) % p && Eq(p, v, x * z) && Eq(p, b, i * x)
    ensures Eq(p, r, b * z)
  {
    hide Divides;
    EqMod(p, v * i);
    EqScale(p, i, v, x * z);
    assert i * v == v * i && i * (x * z) == z * (i * x) && z * b == b * z;
    EqTrans(p, r, v * i, z * (i * x));
    EqScale(p, z, b, i * x);
    EqSym(p, b * z, z * (i * x));
    EqTrans(p, r, z * (i * x), b * z);
  }

  /** The encoder, on every even point: the parameter of the canonical coset member. */
  lemma EncodeSpec(f: Params, p: Point, a: Affine)
    requires f.Valid() && On(f, a) && Even(f, a) && Represents(f, p, a)
    ensures IsParameter(f, EncodeField(f, p), Canonical(f, a).y)
    ensures IsCanonical(f, Canonical(f, a))
  {
    hide Divides, NonSquare, IsPrime, EncodeReduced, OnCurve, Rotate, Even, Represents;
    CanonicalSpec(f, a);
    ReducedRepresents(f, p, a);
    var q := Point(p.X % f.p, p.Y % f.p, p.Z % f.p, p.T % f.p);
    DividesMod(f.p, a.x * a.y);
    if Divides(f.p, a.x * a.y) {
      EncodeNeutral(f, q, a);
      EqRefl(f.p, 0);
      assert 0 * 0 * (1 + 1) == 0;
    } else {
      EncodeProper(f, q, a);
    }
  }

  // ---------------------------------------------------------------- round trips

  /** 1 + y is invertible: otherwise 1 - y and so 2 would vanish as well. */
  lemma ParameterDenominator(p: int, q: int, y: int)
    requires p > 2 && Eq(p, q * (1 + y), 1 - y)
    ensures !Divides(p, 1 + y)
  {
    hide Divides;
    SmallNotDivisible(p, 2);
    FactorDivides(p, 1 + y, q);
    EqDivides(p, q * (1 + y), 1 - y);
    if Divides(p, 1 + y) {
      DividesAdd(p, 1 + y, 1 - y);
    }
  }

  lemma ParameterSquares(p: int, q: int, q': int, y: int)
    requires IsPrime(p) && p > 2 && Eq(p, q * (1 + y), 1 - y) && Eq(p, q' * (1 + y), 1 - y)
    ensures Eq(p, q, q')
  {
    hide Divides, IsPrime;
    ParameterDenominator(p, q, y);
    EqSym(p, q' * (1 + y), 1 - y);
    EqTrans(p, q * (1 + y), 1 - y, q' * (1 + y));
    assert q * (1 + y) == (1 + y) * q && q' * (1 + y) == (1 + y) * q';
    EqCancel(p, 1 + y, q, q');
  }

  lemma ParameterUnique(f: Params, s: int, s': int, y: int)
    requires f.Valid() && IsParameter(f, s, y) && IsParameter(f, s', y)
    ensures s == s'
  {
    hide Divides, NonSquare, IsPrime;
    ParameterSquares(f.p, s * s, s' * s', y);
    EqualSquares(f.p, s, s');
    SignUnique(f.p, s, s');
  }

  /** Canonical points are their own canonical representative. */
  lemma CanonicalFixed(f: Params, a: Affine)
    requires f.Valid() && IsCanonical(f, a)
    ensures Canonical(f, a) == a
  {
    hide Divides, NonSquare, IsPrime, OnCurve, Rotate;
    var t := (a.x * a.y) % f.p;
    if t == 0 {
      DividesMod(f.p, a.x * a.y);
      PrimeDividesProduct(f.p, a.x, a.y);
      if Divides(f.p, a.x) {
        DividesSmall(f.p, a.x);
      } else {
        SmallNotDivisible(f.p, a.y);
      }
    }
  }

  /** Encoding what was decoded returns exactly the accepted string (sections 4.3.1 and 4.3.2 of RFC 9496). */
  lemma EncodeOfDecode(f: Params, s: int)
    requires f.Valid() && DecodeField(f, s).Some?
    ensures EncodeField(f, DecodeField(f, s).value) == s
  {
    hide Divides, NonSquare, IsPrime, OnCurve, Rotate, DecodeField, EncodeField, Even, IsParameter, Canonical;
    hide Represents;
    DecodeAccepts(f, s);
    var p := DecodeField(f, s).value;
    var a := Affine(p.X, p.Y);
    EncodeSpec(f, p, a);
    CanonicalFixed(f, a);
    ParameterUnique(f, s, EncodeField(f, p), a.y);
  }

  /** Decoding what was encoded returns the canonical member of the coset. */
  lemma DecodeOfEncode(f: Params, p: Point, a: Affine)
    requires f.Valid() && On(f, a) && Even(f, a) && Represents(f, p, a)
    ensures DecodeField(f, EncodeField(f, p)) == Some(Extended(f, Canonical(f, a)))
  {
    hide Divides, NonSquare, IsPrime, OnCurve, Rotate, DecodeField, EncodeField, Even, IsParameter, Canonical;
    hide Represents;
    EncodeSpec(f, p, a);
    DecodeOfParameter(f, EncodeField(f, p), Canonical(f, a));
  }
}
