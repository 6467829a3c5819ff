/** The base field of the CLI's curve: sign convention, inverse and the
    square-root-of-a-ratio routine (section 4.2 of RFC 9496). */
module Field25519 {
  import opened Numbers
  import opened Fermat

  /** The module-level constants: the prime, the curve parameter d, a square root
      of -1, and 1/sqrt(-1-d). */
  datatype Params = Params(p: int, d: int, i: int, c: int) {
    ghost predicate Valid() {
      && IsPrime(p) && p % 8 == 5
      && 0 <= d < p && 0 <= i < p && 0 <= c < p
      && Eq(p, i * i, -1)
      && Eq(p, c * c * (-1 - d), 1)
      && NonSquare(p, d)
    }
  }

  ghost predicate NonSquare(p: int, d: int) {
    forall w: int :: !Eq(p, w * w, d)
  }

  lemma ParamsFacts(f: Params)
    requires f.Valid()
    ensures IsPrime(f.p) && f.p >= 5 && f.p % 8 == 5 && f.p % 2 == 1
    ensures 0 <= f.d < f.p && 0 <= f.i < f.p && 0 <= f.c < f.p && Eq(f.p, f.i * f.i, -1)
  {
  }

  predicate IsNegative(x: int) {
    x % 2 == 1
  }

  function Abs(f: Params, x: int): int
    requires f.p > 0
  {
    if IsNegative(x) then (f.p - x) % f.p else x % f.p
  }

  function Inv(f: Params, x: int): int
    requires f.p > 2
  {
    Pow(x, f.p - 2) % f.p
  }

  predicate CtEq(f: Params, a: int, b: int)
    requires f.p > 0
  {
    (a - b) % f.p == 0
  }

  /** The candidate u*v^3*(u*v^7)^((p-5)/8). */
  function Candidate(p: int, u: int, v: int): int
    requires p >= 5
  {
    var v3 := (v * v * v) % p;
    var v7 := (v3 * v3 * v) % p;
    (u * v3 * (Pow(u * v7 % p, (p - 5) / 8) % p)) % p
  }

  function SqrtRatioM1(f: Params, u0: int, v0: int): (bool, int)
    requires f.p >= 5
  {
    var u := u0 % f.p;
    var v := v0 % f.p;
    var r := Candidate(f.p, u, v);
    var check := (v * r * r) % f.p;
    var correct := CtEq(f, check, u);
    var flipped := CtEq(f, check, (-u) % f.p);
    var flippedI := CtEq(f, check, (-u * f.i) % f.p);
    var r' := (r * f.i) % f.p;
    (correct || flipped, Abs(f, if flipped || flippedI then r' else r))
  }

  // ---------------------------------------------------------------- facts about the field

  lemma RootOfMinusOneNonzero(p: int, i: int)
    requires p > 1 && Eq(p, i * i, -1)
    ensures !Divides(p, i)
  {
    hide Divides;
    SmallNotDivisible(p, 1);
    EqDivides(p, i * i, -1);
    if Divides(p, i) {
      DividesMul(p, i, i);
      DividesMul(p, -1, -1);
    }
  }

  /** i and -i are different from 1 and -1, which are different from each other. */
  lemma RootsDistinct(p: int, i: int)
    requires p > 2 && Eq(p, i * i, -1)
    ensures !Eq(p, 1, -1) && !Eq(p, i, 1) && !Eq(p, i, -1)
  {
    hide Divides;
    SmallNotDivisible(p, 2);
    if Eq(p, i, 1) {
      EqMul(p, i, 1, i, 1);
      EqSym(p, i * i, 1);
      EqTrans(p, 1, i * i, -1);
    } else if Eq(p, i, -1) {
      EqMul(p, i, -1, i, -1);
      EqSym(p, i * i, 1);
      EqTrans(p, 1, i * i, -1);
    }
  }

  /** Every fourth root of 1 is 1, -1, i or -i. */
  lemma FourthRootsOfUnity(p: int, i: int, w: int)
    requires IsPrime(p) && Eq(p, i * i, -1) && Eq(p, w * w * w * w, 1)
    ensures Eq(p, w, 1) || Eq(p, w, -1) || Eq(p, w, i) || Eq(p, w, -i)
  {
    hide Divides;
    // w^4 - 1 = (w^2 - 1)(w^2 - i^2) + (i^2 + 1)(w^2 - 1)
    var s := w * w;
    assert (s - 1) * (s - i * i) == 1 * (w * w * w * w - 1) + -(s - 1) * (i * i - -1);
    Combine2(p, (s - 1) * (s - i * i), 1, w * w * w * w - 1, -(s - 1), i * i - -1);
    PrimeDividesProduct(p, s - 1, s - i * i);
    if Divides(p, s - 1) {
      assert 1 * 1 == 1;
      EqualSquares(p, w, 1);
    } else {
      EqualSquares(p, w, i);
    }
  }

  /** Euler: a square raised to (p-1)/2 is 1. */
  lemma SquarePower(p: int, a: int, w: int)
    requires IsPrime(p) && p % 2 == 1 && !Divides(p, a) && Eq(p, w * w, a)
    ensures Eq(p, Pow(a, (p - 1) / 2), 1)
  {
    hide Divides;
    var h := (p - 1) / 2;
    EqDivides(p, w * w, a);
    if Divides(p, w) {
      DividesMul(p, w, w);
    }
    LittleTheorem(p, w);
    PowSmall(w);
    PowMul(w, 2, h);
    EqPow(p, w * w, a, h);
    EqSym(p, Pow(w * w, h), Pow(a, h));
    EqTrans(p, Pow(a, h), Pow(w, p - 1), 1);
  }

  /** 2^((p-1)/4) is a square root of -1: since 2i = (1 + i)^2 is a square. */
  lemma PowerOfTwoRoot(p: int, i: int, x: int)
    requires IsPrime(p) && p % 8 == 5 && Eq(p, i * i, -1) && x == Pow(2, (p - 1) / 4)
    ensures Eq(p, x * x, -1)
  {
    assert p > 2;
    hide Divides, IsPrime, Pow, Eq;
    var h, k := (p - 1) / 4, p / 8;
    var e := 2 * h;
    assert e == (p - 1) / 2 && e == 4 * k + 2;
    TwiceRoot(p, i);
    TwiceRootNonzero(p, i);
    SquarePower(p, 2 * i, 1 + i);
    PowBase(2, i, e);
    RootPower(p, i, k);
    PowMul(2, h, 2);
    PowSmall(x);
    assert Pow(2, e) == x * x;
    OppositeOfInverse(p, x * x, Pow(i, e));
  }

  lemma TwiceRoot(p: int, i: int)
    requires Eq(p, i * i, -1)
    ensures Eq(p, (1 + i) * (1 + i), 2 * i)
  {
    hide Divides;
    EqRefl(p, 1 + 2 * i);
    EqAdd(p, 1 + 2 * i, 1 + 2 * i, i * i, -1);
    assert (1 + i) * (1 + i) == 1 + 2 * i + i * i;
  }

  lemma OppositeOfInverse(p: int, a: int, b: int)
    requires Eq(p, a * b, 1) && Eq(p, b, -1)
    ensures Eq(p, a, -1)
  {
    hide Divides;
    EqScale(p, a, b, -1);
    assert a * -1 == -a;
    EqSym(p, a * b, -a);
    EqTrans(p, -a, a * b, 1);
    EqNeg(p, -a, 1);
  }

  /** A certificate that d is not a square: w with w^2 = 2d. For 2 is not a square modulo p = 5 mod 8. */
  lemma HalfOfSquare(p: int, i: int, d: int, w: int)
    requires IsPrime(p) && p % 8 == 5 && Eq(p, i * i, -1) && Eq(p, w * w, 2 * d) && !Divides(p, d)
    ensures NonSquare(p, d)
  {
    assert p > 2;
    hide Divides, IsPrime, Eq;
    forall v: int ensures !Eq(p, v * v, d) {
      if Eq(p, v * v, d) {
        RootOfTwo(p, w, v, d);
        TwoIsNoSquare(p, i, w * Pow(v, p - 2));
      }
    }
  }

  lemma TwoIsNoSquare(p: int, i: int, y: int)
    requires IsPrime(p) && p % 8 == 5 && Eq(p, i * i, -1)
    ensures !Eq(p, y * y, 2)
  {
    assert p > 2;
    hide Divides, IsPrime, Pow, Eq;
    var e := (p - 1) / 4;
    assert 2 * e == (p - 1) / 2;
    SmallNotDivisible(p, 2);
    PowerOfTwoRoot(p, i, Pow(2, e));
    PowMul(2, e, 2);
    PowSmall(Pow(2, e));
    if Eq(p, y * y, 2) {
      SquarePower(p, 2, y);
      MinusOneIsOne(p, Pow(2, 2 * e));
    }
  }

  lemma MinusOneIsOne(p: int, z: int)
    requires Eq(p, z, -1) && Eq(p, z, 1)
    ensures Divides(p, 2)
  {
    hide Divides;
    EqSym(p, z, -1);
    EqTrans(p, -1, z, 1);
    DividesMul(p, -1 - 1, -1);
  }

  lemma RootOfTwo(p: int, w: int, v: int, d: int)
    requires IsPrime(p) && p > 2 && Eq(p, w * w, 2 * d) && Eq(p, v * v, d) && !Divides(p, d)
    ensures var y := w * Pow(v, p - 2); Eq(p, y * y, 2)
  {
    hide Divides, IsPrime, Pow;
    FactorDivides(p, v, v);
    EqDivides(p, v * v, d);
    FermatInverse(p, v);
    RatioOfSquares(p, w, v, d, Pow(v, p - 2));
  }

  /** From w^2 = 2d, v^2 = d and v*m = 1: (w*m)^2 = 2. */
  lemma RatioOfSquares(p: int, w: int, v: int, d: int, m: int)
    requires Eq(p, w * w, 2 * d) && Eq(p, v * v, d) && Eq(p, v * m, 1)
    ensures Eq(p, (w * m) * (w * m), 2)
  {
    hide Divides;
    EqScale(p, 2, v * v, d);
    EqSym(p, 2 * (v * v), 2 * d);
    EqTrans(p, w * w, 2 * d, 2 * (v * v));
    EqScale(p, m * m, w * w, 2 * (v * v));
    EqMul(p, v * m, 1, v * m, 1);
    EqScale(p, 2, (v * m) * (v * m), 1);
    MulSwap(w, m, w, m);
    MulSwap(v, m, v, m);
    MulByOne(w * w, m * m);
    assert (m * m) * (2 * (v * v)) == 2 * ((v * v) * (m * m));
    EqTrans(p, (w * m) * (w * m), 2 * ((v * m) * (v * m)), 2);
  }

  lemma TwiceRootNonzero(p: int, i: int)
    requires IsPrime(p) && p > 2 && Eq(p, i * i, -1)
    ensures !Divides(p, 2 * i)
  {
    hide Divides, IsPrime;
    SmallNotDivisible(p, 1);
    SmallNotDivisible(p, 2);
    EqDivides(p, i * i, -1);
    FactorDivides(p, i, i);
    if Divides(p, -1) {
      DividesMul(p, -1, -1);
    }
    ProductNonzero(p, 2, i);
  }

  /** i^(4k+2) = -1. */
  lemma RootPower(p: int, i: int, k: nat)
    requires Eq(p, i * i, -1)
    ensures Eq(p, Pow(i, 4 * k + 2), -1)
  {
    hide Divides, Pow;
    PowSmall(i);
    PowSmall(-1);
    PowMul(i, 2, 2 * k + 1);
    EqPow(p, i * i, -1, 2 * k + 1);
    PowMul(-1, 2, k);
    PowAdd(-1, 2 * k, 1);
    OnePower(k);
    assert 2 * (2 * k + 1) == 4 * k + 2;
  }

  lemma {:induction false} OnePower(n: nat)
    ensures Pow(1, n) == 1
  {
    if n > 0 {
      OnePower(n - 1);
    }
  }

  /** The root of -1 that the source computes satisfies the same laws as any other. */
  lemma ComputedRoot(f: Params)
    requires f.Valid()
    ensures f.(i := Pow(2, (f.p - 1) / 4) % f.p).Valid()
  {
    hide Divides, IsPrime, NonSquare, Pow;
    var x := Pow(2, (f.p - 1) / 4);
    PowerOfTwoRoot(f.p, f.i, x);
    EqMod(f.p, x);
    EqMul(f.p, x % f.p, x, x % f.p, x);
    EqTrans(f.p, (x % f.p) * (x % f.p), x * x, -1);
  }

  // ---------------------------------------------------------------- the square-root routine

  /** The two facts about Abs used by callers: it is the even one of x and -x. */
  lemma AbsSpec(f: Params, x: int)
    requires f.p > 2 && f.p % 2 == 1 && 0 <= x < f.p
    ensures 0 <= Abs(f, x) < f.p && !IsNegative(Abs(f, x))
    ensures Eq(f.p, Abs(f, x), x) || Eq(f.p, Abs(f, x), -x)
    ensures Eq(f.p, Abs(f, x) * Abs(f, x), x * x)
  {
    hide Divides;
    ModSmall(f.p, x);
    if IsNegative(x) {
      var y := f.p - x;
      ModSmall(f.p, y);
      DividesIntro(f.p, y - -x, 1);
      EqMul(f.p, y, -x, y, -x);
      assert -x * -x == x * x;
    } else {
      EqRefl(f.p, x);
      EqRefl(f.p, x * x);
    }
  }

  lemma CtEqIffEq(f: Params, a: int, b: int)
    requires f.p > 0
    ensures CtEq(f, a, b) <==> Eq(f.p, a, b)
  {
    DividesMod(f.p, a - b);
  }

  /** v*r^2 is u times a power of a = u*v^7, whatever u and v are. */
  lemma CandidateRoot(p: int, u: int, v: int, v3: int, v7: int, a: int, w: int, r: int)
    requires Eq(p, v7, v3 * v3 * v) && Eq(p, a, u * v7) && Eq(p, r, u * v3 * w)
    ensures Eq(p, v * r * r, u * (a * w * w))
  {
    hide Divides;
    var x := u * v3 * w;
    EqMul(p, r, x, r, x);
    EqScale(p, v, r * r, x * x);
    assert v * (r * r) == v * r * r;
    assert v * (x * x) == u * w * w * u * (v3 * v3 * v) by {
      assert x * x == (u * v3 * w) * (u * v3 * w);
    }
    EqSym(p, v7, v3 * v3 * v);
    EqScale(p, u * w * w * u, v3 * v3 * v, v7);
    EqSym(p, a, u * v7);
    EqScale(p, u * w * w, u * v7, a);
    assert (u * w * w) * (u * v7) == u * w * w * u * v7;
    assert (u * w * w) * a == u * (a * w * w);
    EqTrans(p, v * r * r, u * w * w * u * (v3 * v3 * v), u * w * w * u * v7);
    EqTrans(p, v * r * r, u * w * w * u * v7, u * (a * w * w));
  }

  /** w*u matches t*u exactly when w is t. */
  lemma FlagIff(p: int, u: int, w: int, t: int, check: int, target: int)
    requires IsPrime(p) && !Divides(p, u) && Eq(p, check, u * w) && Eq(p, target, u * t)
    ensures Eq(p, check, target) <==> Eq(p, w, t)
  {
    hide Divides;
    EqSym(p, target, u * t);
    EqSym(p, check, u * w);
    if Eq(p, check, target) {
      EqTrans(p, u * w, check, target);
      EqSym(p, u * t, target);
      EqTrans(p, u * w, target, u * t);
      EqCancel(p, u, w, t);
    } else if Eq(p, w, t) {
      EqScale(p, u, w, t);
      EqTrans(p, check, u * w, u * t);
      EqTrans(p, check, u * t, target);
    }
  }

  /** (u*v^7)^((p-1)/4), the correction factor, is a fourth root of unity. */
  lemma CorrectionFactor(p: int, a: int, e: nat)
    requires IsPrime(p) && !Divides(p, a) && p == 8 * e + 5
    ensures var w := a * Pow(a, e) * Pow(a, e);
            && Eq(p, w * w * w * w, 1)
            && w * w == Pow(a, (p - 1) / 2)
  {
    hide Divides, IsPrime, Pow;
    OddPower(a, e);
    var w := Pow(a, 2 * e + 1);
    PowAdd(a, 2 * e + 1, 2 * e + 1);
    PowAdd(a, 4 * e + 2, 4 * e + 2);
    FourFactors(w);
    LittleTheorem(p, a);
  }

  lemma OddPower(a: int, e: nat)
    ensures a * Pow(a, e) * Pow(a, e) == Pow(a, 2 * e + 1)
  {
    PowAdd(a, e, e);
    assert Pow(a, 2 * e + 1) == a * Pow(a, e + e);
    Regroup(a, Pow(a, e));
  }

  lemma Regroup(a: int, x: int)
    ensures a * (x * x) == a * x * x
  {
  }

  lemma FourFactors(w: int)
    ensures (w * w) * (w * w) == w * w * w * w
  {
  }

  ghost predicate IsRootOfRatio(p: int, u: int, v: int, r: int) {
    Eq(p, v * r * r, u)
  }

  /** u/v is a square: there is an r with v*r^2 = u. */
  ghost predicate RatioIsSquare(p: int, u: int, v: int) {
    exists r: int :: IsRootOfRatio(p, u, v, r)
  }

  /** If v*s^2 = u then u*v^7 is a square, so the correction factor squares to 1. */
  lemma NoRootWhenFactorIsI(p: int, u: int, v: int, v3: int, v7: int, a: int, s: int)
    requires IsPrime(p) && p % 2 == 1 && !Divides(p, a)
    requires Eq(p, v3, v * v * v) && Eq(p, v7, v3 * v3 * v) && Eq(p, a, u * v7)
    requires IsRootOfRatio(p, u, v, s)
    ensures Eq(p, Pow(a, (p - 1) / 2), 1)
  {
    hide Divides;
    var q := v3 * v * s;
    // q^2 = (v*s^2) * (v3*v3*v) = u * v7 = a
    assert q * q == (v * s * s) * (v3 * v3 * v) by {
      assert (v3 * v * s) * (v3 * v * s) == (v * s * s) * (v3 * v3 * v);
    }
    EqSym(p, v7, v3 * v3 * v);
    EqMul(p, v * s * s, u, v3 * v3 * v, v7);
    EqSym(p, a, u * v7);
    EqTrans(p, q * q, u * v7, a);
    SquarePower(p, a, q);
  }

  /** Outcome of the sign tests once the correction factor w is known. */
  lemma SelectedRoot(p: int, i: int, u: int, v: int, w: int, r: int, r': int)
    requires Eq(p, i * i, -1) && Eq(p, v * r * r, u * w) && Eq(p, r', r * i)
    ensures Eq(p, w, 1) ==> Eq(p, v * r * r, u)
    ensures Eq(p, w, i) ==> Eq(p, v * r * r, i * u)
    ensures Eq(p, w, -1) ==> Eq(p, v * r' * r', u)
    ensures Eq(p, w, -i) ==> Eq(p, v * r' * r', i * u)
  {
    hide Divides;
    EqMul(p, r', r * i, r', r * i);
    EqScale(p, v, r' * r', (r * i) * (r * i));
    assert v * (r' * r') == v * r' * r';
    assert v * ((r * i) * (r * i)) == v * r * r * (i * i) by {
      assert (r * i) * (r * i) == r * r * (i * i);
    }
    EqScale(p, v * r * r, i * i, -1);
    EqTrans(p, v * r' * r', v * r * r * (i * i), v * r * r * -1);
    EqScale(p, -1, v * r * r, u * w);
    assert -1 * (v * r * r) == v * r * r * -1;
    EqTrans(p, v * r' * r', v * r * r * -1, -1 * (u * w));
    if Eq(p, w, 1) {
      EqScale(p, u, w, 1);
      EqTrans(p, v * r * r, u * w, u);
    }
    if Eq(p, w, i) {
      EqScale(p, u, w, i);
      EqTrans(p, v * r * r, u * w, i * u);
    }
    if Eq(p, w, -1) {
      EqScale(p, -u, w, -1);
      assert -u * w == -1 * (u * w) && -u * -1 == u;
      EqTrans(p, v * r' * r', -1 * (u * w), u);
    }
    if Eq(p, w, -i) {
      EqScale(p, -u, w, -i);
      assert -u * w == -1 * (u * w) && -u * -i == i * u;
      EqTrans(p, v * r' * r', -1 * (u * w), i * u);
    }
  }

  lemma ZeroCandidate(p: int, u: int, v: int)
    requires p >= 5 && (u == 0 || v == 0)
    ensures Candidate(p, u, v) == 0
  {
    hide Pow;
    ModSmall(p, 0);
    assert v == 0 ==> v * v * v == 0;
    var v3 := (v * v * v) % p;
    assert u * v3 == 0;
  }

  /** With u or v zero the routine returns root 0, flagged as a square only for u = 0. */
  lemma SqrtRatioDegenerate(f: Params, u: int, v: int)
    requires f.p >= 5 && 0 <= u < f.p && 0 <= v < f.p && (u == 0 || v == 0)
    ensures SqrtRatioM1(f, u, v) == (u == 0, 0)
  {
    hide Candidate, Divides;
    ZeroCandidate(f.p, u, v);
    ModSmall(f.p, 0);
    ModSmall(f.p, u);
    ModSmall(f.p, v);
    assert v * 0 * 0 == 0 && 0 * f.i == 0;
    if u == 0 {
      CtEqIffEq(f, 0, 0);
      EqRefl(f.p, 0);
    } else {
      CtEqIffEq(f, 0, u);
      EqIffMod(f.p, 0, u);
      NegMod(f.p, u);
      CtEqIffEq(f, 0, f.p - u);
      EqIffMod(f.p, 0, f.p - u);
      ModSmall(f.p, f.p - u);
    }
  }

  lemma NegMod(p: int, u: int)
    requires 0 < u < p
    ensures (-u) % p == p - u
  {
    DividesIntro(p, -u - (p - u), -1);
    EqIffMod(p, -u, p - u);
    ModSmall(p, p - u);
  }

  /** The intermediate values of Candidate, related modulo p. */
  lemma CandidateSpec(p: int, u: int, v: int) returns (v3: int, v7: int, a: int)
    requires p >= 5
    ensures Eq(p, v3, v * v * v) && Eq(p, v7, v3 * v3 * v) && Eq(p, a, u * v7)
    ensures var w := Pow(a, (p - 5) / 8);
            var r := Candidate(p, u, v);
            && 0 <= r < p
            && Eq(p, v * r * r, u * (a * w * w))
  {
    hide Divides, Pow;
    v3 := (v * v * v) % p;
    v7 := (v3 * v3 * v) % p;
    a := u * v7 % p;
    var w := Pow(a, (p - 5) / 8);
    var r := Candidate(p, u, v);
    EqMod(p, v * v * v);
    EqMod(p, v3 * v3 * v);
    EqMod(p, u * v7);
    EqMod(p, w);
    EqMod(p, u * v3 * (w % p));
    EqScale(p, u * v3, w % p, w);
    EqTrans(p, r, u * v3 * (w % p), u * v3 * w);
    CandidateRoot(p, u, v, v3, v7, a, w, r);
  }

  /** The sign tests of the routine, read as conditions on the correction factor w. */
  lemma SignTests(f: Params, u: int, v: int, w: int)
    requires f.Valid() && 0 < u < f.p && 0 <= v < f.p
    requires var r := Candidate(f.p, u, v); Eq(f.p, v * r * r, u * w)
    ensures var r := Candidate(f.p, u, v);
            var r' := (r * f.i) % f.p;
            var first := Eq(f.p, w, -1) || Eq(f.p, w, -f.i);
            SqrtRatioM1(f, u, v) == (Eq(f.p, w, 1) || Eq(f.p, w, -1), Abs(f, if first then r' else r))
  {
    hide Candidate, Divides, IsPrime, Abs, CtEq;
    var p := f.p;
    var r := Candidate(p, u, v);
    var check := (v * r * r) % p;
    ModSmall(p, u);
    ModSmall(p, v);
    SmallNotDivisible(p, u);
    EqMod(p, v * r * r);
    EqTrans(p, check, v * r * r, u * w);
    EqRefl(p, u);
    FlagIff(p, u, w, 1, check, u);
    CtEqIffEq(f, check, u);
    EqMod(p, -u);
    assert u * -1 == -u && u * -f.i == -u * f.i;
    FlagIff(p, u, w, -1, check, (-u) % p);
    CtEqIffEq(f, check, (-u) % p);
    EqMod(p, -u * f.i);
    FlagIff(p, u, w, -f.i, check, (-u * f.i) % p);
    CtEqIffEq(f, check, (-u * f.i) % p);
  }

  lemma ProductOfCorrection(p: int, u: int, v: int, v3: int, v7: int, a: int)
    requires IsPrime(p) && !Divides(p, u) && !Divides(p, v)
    requires Eq(p, v3, v * v * v) && Eq(p, v7, v3 * v3 * v) && Eq(p, a, u * v7)
    ensures !Divides(p, a)
  {
    hide Divides;
    ProductNonzero(p, v, v);
    ProductNonzero(p, v * v, v);
    EqDivides(p, v3, v * v * v);
    ProductNonzero(p, v3, v3);
    ProductNonzero(p, v3 * v3, v);
    EqDivides(p, v7, v3 * v3 * v);
    ProductNonzero(p, u, v7);
    EqDivides(p, a, u * v7);
  }

  /** Both arguments non-zero: the root and its flag. */
  lemma SqrtRatioNonzero(f: Params, u: int, v: int)
    requires f.Valid() && 0 < u < f.p && 0 < v < f.p
    ensures var (square, r) := SqrtRatioM1(f, u, v);
            && 0 <= r < f.p && !IsNegative(r)
            && (square ==> Eq(f.p, v * r * r, u))
            && (!square ==> Eq(f.p, v * r * r, f.i * u))
            && (square <==> RatioIsSquare(f.p, u, v))
  {
    hide Divides, SqrtRatioM1, Candidate, Pow, Abs, NonSquare, Eq, IsPrime, Params.Valid;
    ParamsFacts(f);
    var p := f.p;
    var e := (p - 5) / 8;
    var v3, v7, a := CandidateSpec(p, u, v);
    var w := a * Pow(a, e) * Pow(a, e);
    SmallNotDivisible(p, u);
    SmallNotDivisible(p, v);
    ProductOfCorrection(p, u, v, v3, v7, a);
    assert p == 8 * e + 5;
    CorrectionFactor(p, a, e);
    FourthRootsOfUnity(p, f.i, w);
    var r := Candidate(p, u, v);
    var r' := (r * f.i) % p;
    SignTests(f, u, v, w);
    EqMod(p, r * f.i);
    SelectedRoot(p, f.i, u, v, w, r, r');
    var first := Eq(p, w, -1) || Eq(p, w, -f.i);
    var chosen := if first then r' else r;
    AbsSpec(f, chosen);
    var root := Abs(f, chosen);
    AbsKeepsRatio(p, v, root, chosen);
    WhichRoot(p, f.i, w);
    EqTransAll(p, v * root * root, v * chosen * chosen);
    var square := Eq(p, w, 1) || Eq(p, w, -1);
    if square {
      assert IsRootOfRatio(p, u, v, root);
    } else if RatioIsSquare(p, u, v) {
      var s :| IsRootOfRatio(p, u, v, s);
      NoRootWhenFactorIsI(p, u, v, v3, v7, a, s);
      RootOfOne(p, w);
    }
  }

  lemma RootOfOne(p: int, w: int)
    requires IsPrime(p) && Eq(p, w * w, 1)
    ensures Eq(p, w, 1) || Eq(p, w, -1)
  {
    assert 1 * 1 == 1;
    EqualSquares(p, w, 1);
  }

  /** The four roots of unity are told apart by the tests. */
  lemma WhichRoot(p: int, i: int, w: int)
    requires p > 2 && Eq(p, i * i, -1)
    ensures Eq(p, w, 1) ==> !Eq(p, w, -1) && !Eq(p, w, -i) && !Eq(p, w, i)
    ensures Eq(p, w, i) ==> !Eq(p, w, -1) && !Eq(p, w, -i) && !Eq(p, w, 1)
    ensures Eq(p, w, -1) ==> !Eq(p, w, i) && !Eq(p, w, -i)
  {
    hide Divides;
    RootsDistinct(p, i);
    NegRoots(p, i);
    if Eq(p, w, 1) {
      EqSym(p, w, 1);
      Contrast(p, 1, w, -1);
      Contrast(p, 1, w, -i);
      Contrast(p, 1, w, i);
    } else if Eq(p, w, i) {
      EqSym(p, w, i);
      Contrast(p, i, w, -1);
      Contrast(p, i, w, -i);
    } else if Eq(p, w, -1) {
      EqSym(p, w, -1);
      Contrast(p, -1, w, i);
      Contrast(p, -1, w, -i);
    }
  }

  lemma Contrast(p: int, a: int, w: int, b: int)
    requires Eq(p, a, w) && !Eq(p, a, b)
    ensures !Eq(p, w, b)
  {
    if Eq(p, w, b) {
      EqTrans(p, a, w, b);
    }
  }

  lemma NegRoots(p: int, i: int)
    requires p > 2 && Eq(p, i * i, -1) && !Eq(p, i, 1) && !Eq(p, i, -1)
    ensures !Eq(p, 1, i) && !Eq(p, 1, -i) && !Eq(p, -1, i) && !Eq(p, -1, -i) && !Eq(p, i, -i)
  {
    hide Divides;
    if Eq(p, 1, i) {
      EqSym(p, 1, i);
    } else if Eq(p, 1, -i) {
      EqNeg(p, 1, -i);
      EqSym(p, -1, i);
    } else if Eq(p, -1, i) {
      EqSym(p, -1, i);
    } else if Eq(p, -1, -i) {
      EqNeg(p, -1, -i);
      EqSym(p, 1, i);
    } else if Eq(p, i, -i) {
      // multiply by i: -1 = 1
      EqScale(p, i, i, -i);
      EqSym(p, i * i, -1);
      EqTrans(p, -1, i * i, i * -i);
      EqNeg(p, i * i, -1);
      assert i * -i == -(i * i);
      EqSym(p, i * i, -1);
      EqTrans(p, -1, i * -i, 1);
      SmallNotDivisible(p, 2);
      DividesMul(p, -2, -1);
    }
  }

  lemma AbsKeepsRatio(p: int, v: int, root: int, r: int)
    requires Eq(p, root * root, r * r)
    ensures Eq(p, v * root * root, v * r * r)
  {
    EqScale(p, v, root * root, r * r);
    assert v * (root * root) == v * root * root && v * (r * r) == v * r * r;
  }

  lemma EqTransAll(p: int, a: int, b: int)
    requires Eq(p, a, b)
    ensures forall c {:trigger Eq(p, b, c)} :: Eq(p, b, c) ==> Eq(p, a, c)
  {
    forall c {:trigger Eq(p, b, c)} | Eq(p, b, c) ensures Eq(p, a, c) {
      EqTrans(p, a, b, c);
    }
  }

  /** Section 4.2 of RFC 9496, for all inputs: the root is non-negative and canonical, the
      flag says exactly whether u/v has a square root, and the root is sqrt(u/v) or
      sqrt(i*u/v) accordingly; v = 0 gives root 0. */
  lemma SqrtRatioSpec(f: Params, u: int, v: int)
    requires f.Valid()
    ensures var (square, r) := SqrtRatioM1(f, u, v);
            && 0 <= r < f.p && !IsNegative(r)
            && (square <==> RatioIsSquare(f.p, u, v))
            && (square ==> Eq(f.p, v * r * r, u))
            && (!square && !Divides(f.p, v) ==> Eq(f.p, v * r * r, f.i * u))
            && (Divides(f.p, u) || Divides(f.p, v) ==> r == 0)
  {
    hide Divides, SqrtRatioM1, NonSquare;
    var p := f.p;
    var u', v' := u % p, v % p;
    EqMod(p, u);
    EqMod(p, v);
    EqDivides(p, u', u);
    EqDivides(p, v', v);
    SqrtRatioReduces(f, u, v);
    var (square, r) := SqrtRatioM1(f, u', v');
    EqScale(p, r * r, v', v);
    assert (r * r) * v' == v' * r * r && (r * r) * v == v * r * r;
    EqSym(p, v' * r * r, v * r * r);
    RatioReduces(p, u, v, u', v');
    if u' == 0 || v' == 0 {
      SqrtRatioDegenerate(f, u', v');
      DividesMod(p, u);
      DividesMod(p, v);
      DegenerateSquare(p, u, v);
      assert v * 0 * 0 == 0;
      if square {
        DividesMul(p, u, -1);
        assert 0 - u == -1 * u;
      }
    } else {
      SqrtRatioNonzero(f, u', v');
      SmallNotDivisible(p, u');
      SmallNotDivisible(p, v');
      if square {
        EqTrans(p, v * r * r, v' * r * r, u');
        EqTrans(p, v * r * r, u', u);
      } else {
        EqScale(p, f.i, u', u);
        EqTrans(p, v * r * r, v' * r * r, f.i * u');
        EqTrans(p, v * r * r, f.i * u', f.i * u);
      }
    }
  }

  lemma SqrtRatioReduces(f: Params, u: int, v: int)
    requires f.p >= 5
    ensures SqrtRatioM1(f, u, v) == SqrtRatioM1(f, u % f.p, v % f.p)
  {
    hide Candidate, CtEq, Abs;
    ModSmall(f.p, u % f.p);
    ModSmall(f.p, v % f.p);
  }

  lemma RatioReduces(p: int, u: int, v: int, u': int, v': int)
    requires Eq(p, u', u) && Eq(p, v', v)
    ensures RatioIsSquare(p, u, v) <==> RatioIsSquare(p, u', v')
  {
    hide Divides;
    if RatioIsSquare(p, u, v) {
      var r :| IsRootOfRatio(p, u, v, r);
      EqSym(p, u', u);
      RootReduces(p, u, v, u', v', r);
    }
    if RatioIsSquare(p, u', v') {
      var r :| IsRootOfRatio(p, u', v', r);
      EqSym(p, v', v);
      RootReduces(p, u', v', u, v, r);
    }
  }

  lemma RootReduces(p: int, u: int, v: int, u': int, v': int, r: int)
    requires Eq(p, u, u') && Eq(p, v', v) && IsRootOfRatio(p, u, v, r)
    ensures IsRootOfRatio(p, u', v', r)
  {
    hide Divides;
    EqScale(p, r * r, v', v);
    assert (r * r) * v' == v' * r * r && (r * r) * v == v * r * r;
    EqTrans(p, v' * r * r, v * r * r, u);
    EqTrans(p, v' * r * r, u, u');
  }

  lemma DegenerateSquare(p: int, u: int, v: int)
    requires Divides(p, u) || Divides(p, v)
    ensures RatioIsSquare(p, u, v) <==> Divides(p, u)
  {
    hide Divides;
    if Divides(p, u) {
      DividesMul(p, u, -1);
      assert v * 0 * 0 - u == -1 * u;
      assert IsRootOfRatio(p, u, v, 0);
    } else if RatioIsSquare(p, u, v) {
      var r :| IsRootOfRatio(p, u, v, r);
      DividesMul(p, v, r * r);
      assert (r * r) * v == v * r * r;
      EqDivides(p, v * r * r, u);
    }
  }
}
