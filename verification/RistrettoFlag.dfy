/** The flag that the encoder ignores: for which points its square root exists. */
module RistrettoFlag {
  import opened Numbers
  import opened Fermat
  import opened Field25519
  import opened EdwardsLaw
  import opened EdwardsGroup
  import opened EdwardsPoint
  import opened Ristretto
  import opened RistrettoEncode

  /** What the encoder takes the inverse square root of. */
  function RootArgument(p: Point, n: int): int
    requires n > 0
  {
    var u1 := ((p.Z + p.Y) * (p.Z - p.Y)) % n;
    var u2 := (p.X * p.Y) % n;
    (u1 * u2 * u2) % n
  }

  /** From k*m^2 = 1: the inverse of m is a root of k. */
  lemma RootByInverse(p: int, k: int, m: int) returns (w: int)
    requires IsPrime(p) && Eq(p, k * (m * m), 1)
    ensures Eq(p, w * w, k)
  {
    PrimeAtLeastTwo(p);
    hide Divides, IsPrime, Eq;
    NotZeroFactor(p, k, m);
    w := Pow(m, p - 2);
    FermatInverse(p, m);
    EqMul(p, m * w, 1, m * w, 1);
    EqSym(p, k * (m * m), 1);
    EqTrans(p, (m * w) * (m * w), 1, k * (m * m));
    MulSwap(m, w, m, w);
    MulByOne(k, m * m);
    ProductNonzero(p, m, m);
    EqCancel(p, m * m, w * w, k);
  }

  lemma NotZeroFactor(p: int, k: int, m: int)
    requires p >= 2 && Eq(p, k * (m * m), 1)
    ensures !Divides(p, m)
  {
    hide Divides;
    SmallNotDivisible(p, 1);
    EqDivides(p, k * (m * m), 1);
    FactorDivides(p, m, m);
    FactorDivides(p, m * m, k);
  }

  lemma PrimeAtLeastTwo(p: int)
    requires IsPrime(p)
    ensures p >= 2
  {
  }

  /** The flag is set exactly for the points with 1 - y^2 a square and x*y not 0, whatever their representation. */
  lemma IgnoredFlag(f: Params, p: Point, a: Affine)
    requires f.Valid() && On(f, a) && Represents(f, p, a)
    ensures f.p >= 5 && (SqrtRatioM1(f, 1, RootArgument(p, f.p)).0 <==> Even(f, a) && !Divides(f.p, a.x * a.y))
  {
    hide Divides, NonSquare, SqrtRatioM1, OnCurve, IsPrime, Even;
    ParamsFacts(f);
    var n := f.p;
    var u1, u2 := ((p.Z + p.Y) * (p.Z - p.Y)) % n, (p.X * p.Y) % n;
    var v := u1 * u2 * u2;
    SqrtRatioSpec(f, 1, v % n);
    EqMod(n, v);
    EqRefl(n, 1);
    RatioReduces(n, 1, v, 1, v % n);
    if Even(f, a) && !Divides(n, a.x * a.y) {
      EncodeRoot(f, p, a);
      assert IsRootOfRatio(n, 1, v, InvSqrt(f, p.X, p.Y, p.Z));
    }
    if RatioIsSquare(n, 1, v) {
      var r :| IsRootOfRatio(n, 1, v, r);
      FlagNeeds(f, p, a, u1, u2, r);
    }
  }

  lemma FlagNeeds(f: Params, p: Point, a: Affine, u1: int, u2: int, r: int)
    requires f.Valid() && Represents(f, p, a) && Eq(f.p, (u1 * u2 * u2) * r * r, 1)
    requires u1 == ((p.Z + p.Y) * (p.Z - p.Y)) % f.p && u2 == (p.X * p.Y) % f.p
    ensures Even(f, a) && !Divides(f.p, a.x * a.y)
  {
    hide Divides, NonSquare, IsPrime, Even;
    ParamsFacts(f);
    var n, k, z := f.p, 1 - a.y * a.y, p.Z;
    EncodeProducts(f, p, a);
    var m := z * (u2 * r);
    EqScale(n, (u2 * r) * (u2 * r), u1, k * (z * z));
    FlagIdentity(u1, u2, r, k, z);
    EqSym(n, (u1 * u2 * u2) * r * r, k * (m * m));
    EqTrans(n, k * (m * m), (u1 * u2 * u2) * r * r, 1);
    var w := RootByInverse(n, k, m);
    EvenByRoot(f, a, w);
    SmallNotDivisible(n, 1);
    EqDivides(n, (u1 * u2 * u2) * r * r, 1);
    EqDivides(n, u2, (a.x * a.y) * (z * z));
    FactorDivides(n, a.x * a.y, z * z);
    FactorDivides(n, u2, u1 * u2);
    FactorDivides(n, u1 * u2 * u2, r);
    FactorDivides(n, (u1 * u2 * u2) * r, r);
  }

  lemma EvenByRoot(f: Params, a: Affine, w: int)
    requires Eq(f.p, w * w, 1 - a.y * a.y)
    ensures Even(f, a)
  {
    assert IsEvenRoot(f, a, w);
  }

  lemma FlagIdentity(u1: int, u2: int, r: int, k: int, z: int)
    ensures ((u2 * r) * (u2 * r)) * u1 == (u1 * u2 * u2) * r * r
    ensures ((u2 * r) * (u2 * r)) * (k * (z * z)) == k * ((z * (u2 * r)) * (z * (u2 * r)))
  {
  }
}
