/** The concrete constants of the CLI, and a small instance of the same laws. */
module Constants {
  import opened Numbers
  import opened Bytes
  import opened Fermat
  import opened Field25519
  import opened Wrappers
  import opened EdwardsLaw
  import opened EdwardsGroup
  import opened Ristretto
  import opened RistrettoBytes
  import opened RistrettoFlag
  import CliElGamal

  /** 2^255 - 19. */
  const P: int := 57896044618658097711785492504343953926634992332820282019728792003956564819949

  /** 2^252 + 27742317777372353535851937790883648493. */
  const L: int := 7237005577332262213973186563042994240857116359379907606001950938285454250989

  /** -121665/121666, a square root of -1, and 1/sqrt(-1 - d), modulo P. */
  const D: int := 37095705934669439343138083508754565189542113879843219016388785533085940283555
  const SQRT_M1: int := 19681161376707505956807079304988542015446066515923890162744021073123829784752
  const INVSQRT_A_MINUS_D: int := 54469307008909316920995813868745141605393597292927456921205312896311721017578

  /** P = 2^255 - 19 and L = 2^252 + 27742317777372353535851937790883648493; so keys derived from seeds are invertible
      modulo L, if L is prime. */
  lemma WrittenOut()
    ensures 2 * (P + 19) == TWO_256 == Bound(32)
    ensures 16 * (L - 27742317777372353535851937790883648493) == TWO_256 && 16 * L > TWO_256
  {
    BoundOf32();
  }

  const ED25519: Params := Params(P, D, SQRT_M1, INVSQRT_A_MINUS_D)

  /** d is the quotient the source computes for it. */
  lemma CurveParameter()
    requires IsPrime(P)
    ensures D == (-121665 * (Pow(121666, P - 2) % P)) % P
  {
    hide IsPrime, Divides, Pow;
    var x := Pow(121666, P - 2);
    SmallNotDivisible(P, 121666);
    FermatInverse(P, 121666);
    // D = (D*121666)*x = -121665*x
    DividesIntro(P, 121666 * D - -121665, 77955);
    EqScale(P, x, 121666 * D, -121665);
    EqScale(P, D, 121666 * x, 1);
    assert D * (121666 * x) == x * (121666 * D) && D * 1 == D && x * -121665 == -121665 * x;
    EqSym(P, D * (121666 * x), D);
    EqTrans(P, D, x * (121666 * D), -121665 * x);
    EqMod(P, x);
    EqScale(P, -121665, x, x % P);
    EqTrans(P, D, -121665 * x, -121665 * (x % P));
    EqIffMod(P, D, -121665 * (x % P));
    ModSmall(P, D);
  }

  /** A square root of 2d modulo P. */
  const ROOT_OF_TWICE_D: int := 55487632915927625549282413919184614932259505768049324239291840100650878933168

  /** d is not a square, given only that P is prime. */
  lemma CurveParameterNonSquare()
    requires IsPrime(P)
    ensures NonSquare(P, D)
  {
    hide IsPrime, NonSquare, Divides;
    DividesIntro(P, SQRT_M1 * SQRT_M1 - -1, MINUS_ONE_QUOTIENT);
    DividesIntro(P, ROOT_OF_TWICE_D * ROOT_OF_TWICE_D - 2 * D, ROOT_QUOTIENT);
    SmallNotDivisible(P, D);
    HalfOfSquare(P, SQRT_M1, D, ROOT_OF_TWICE_D);
  }

  // Quotients by P that certify congruences modulo P, the long ones in two halves.

  const SHIFT: int := 100000000000000000000000000000000000000000000000000000000000000000000000000000

  const MINUS_ONE_QUOTIENT: int :=
    6690407189080634018507799843845558368979872843924222843531373839242004886245

  const ROOT_QUOTIENT: int :=
    53179408487959267070981863600993299124359631661352230105186135972200424991586

  const INVSQRT_QUOTIENT: int :=
    -19009839308198871410517523641694628270641080120161641634864816732616102924291 * SHIFT
    - 44568610721952778080767494796495772759949454728378428055173847589417992213045

  const CURVE_QUOTIENT: int :=
    -784988566445456212575871064323618766168343510325297720725394348497424671549 * SHIFT
    - 8858035128541644478617496933540999495858455103307520380056814994070400963704

  const PARAMETER_QUOTIENT: int :=
    4822340955934852457723213939461894132368658080412332895349200550648219429605 * SHIFT
    + 75889315667067568858409743643780657578369170498053038992559797651132727036146

  /** The constants of the source satisfy every law of the field parameters, given only that P is prime. */
  lemma ConstantsValid()
    requires IsPrime(P)
    ensures ED25519.Valid() && Fits(ED25519)
  {
    hide IsPrime, NonSquare, Divides, Fits32;
    Fits32Bound(P);
    CurveParameterNonSquare();
    DividesIntro(P, SQRT_M1 * SQRT_M1 - -1, MINUS_ONE_QUOTIENT);
    DividesIntro(P, INVSQRT_A_MINUS_D * INVSQRT_A_MINUS_D * (-1 - D) - 1, INVSQRT_QUOTIENT);
  }

  /** The source computes its square root of -1 as 2^((p-1)/4); with it the constants satisfy the same laws. */
  lemma ComputedConstantsValid()
    requires IsPrime(P)
    ensures var i := Pow(2, (P - 1) / 4) % P;
            && ED25519.(i := i).Valid() && Fits(ED25519.(i := i))
            && (i == SQRT_M1 || i == P - SQRT_M1)
  {
    hide IsPrime, NonSquare, Divides, Fits32, Pow;
    ConstantsValid();
    var i := Pow(2, (P - 1) / 4) % P;
    ComputedRoot(ED25519);
    SameRoot(P, SQRT_M1, i);
  }

  lemma SameRoot(p: int, i: int, j: int)
    requires IsPrime(p) && 0 < i < p && 0 <= j < p && Eq(p, i * i, -1) && Eq(p, j * j, -1)
    ensures j == i || j == p - i
  {
    hide Divides, IsPrime;
    EqSym(p, i * i, -1);
    EqTrans(p, j * j, -1, i * i);
    EqualSquares(p, j, i);
    if Eq(p, j, i) {
      EqSmall(p, j, i);
    } else {
      DividesIntro(p, p, 1);
      DividesAdd(p, j - -i, -p) by {
        DividesIntro(p, -p, -1);
      }
      EqSmall(p, j, p - i);
    }
  }

  // ---------------------------------------------------------------- the base point

  /** The parameter of the base point; its bytes are e2f2ae0a 6abc4e71 .. e08d2d76, the least significant first. */
  const BASE_PARAMETER: int := 0x762d8de0_4559a6b6_8ddd82a5_6a0be358_5f5100c5_61a984a8_714ebc6a_0aaef2e2

  const BASE: seq<Byte> := ToLE(BASE_PARAMETER, 32)

  const BASE_POINT: Affine := Affine(7413488746097234319268533557746747958297143720389000677696299943083562100178,
                                     9771384041963202563870679428059935816164187996444183106833894008023910952347)

  const BASE_PRODUCT: int := 11068640767834918466713275874066756361490786778694627043054626174422747718218

  lemma BaseOnCurve()
    ensures Eq(P, BASE_POINT.x * BASE_POINT.y, BASE_PRODUCT) && On(ED25519, BASE_POINT)
  {
    var x, y, t := BASE_POINT.x, BASE_POINT.y, BASE_PRODUCT;
    DividesIntro(P, x * y - t, 1251208888379623953304813515691591994546473192248805142727144661116178747852);
    DividesIntro(P, y * y - x * x - (1 + D * (t * t)), CURVE_QUOTIENT);
    CurveByProduct(P, D, x, y, t);
  }

  lemma CurveByProduct(p: int, d: int, x: int, y: int, t: int)
    requires Eq(p, x * y, t) && Eq(p, y * y - x * x, 1 + d * (t * t))
    ensures OnCurve(p, d, x, y)
  {
    hide Divides;
    EqSym(p, x * y, t);
    EqMul(p, t, x * y, t, x * y);
    EqScale(p, d, t * t, (x * y) * (x * y));
    EqRefl(p, 1);
    EqAdd(p, 1, 1, d * (t * t), d * ((x * y) * (x * y)));
    assert d * ((x * y) * (x * y)) == d * (x * y) * (x * y);
    EqTrans(p, y * y - x * x, 1 + d * (t * t), 1 + d * (x * y) * (x * y));
  }

  lemma BaseParameter()
    ensures IsParameter(ED25519, BASE_PARAMETER, BASE_POINT.y)
  {
    var s, y := BASE_PARAMETER, BASE_POINT.y;
    DividesIntro(P, s * s * (1 + y) - (1 - y), PARAMETER_QUOTIENT);
  }

  /** The written-out base point decodes, so the CLI's parameters are an instance of the ones that the cipher needs. */
  lemma BaseDecodes()
    requires IsPrime(P)
    ensures Decode(ED25519, BASE) == Ok(Extended(ED25519, BASE_POINT))
    ensures CliElGamal.Curve(ED25519, L, BASE).Valid()
  {
    hide IsPrime, NonSquare, Divides, Fits32, Params.Valid, DecodeField, Decode, OnCurve, ToLE, FromLE;
    ConstantsValid();
    BaseOnCurve();
    BaseParameter();
    EqIffMod(P, BASE_POINT.x * BASE_POINT.y, BASE_PRODUCT);
    ModSmall(P, BASE_PRODUCT);
    DecodeOfParameter(ED25519, BASE_PARAMETER, BASE_POINT);
    ToLE32(P, BASE_PARAMETER);
    DecodeIsField(ED25519, BASE);
  }

  // ---------------------------------------------------------------- a small instance

  lemma ThirteenIsPrime()
    ensures IsPrime(13)
  {
    forall k: int | 1 < k < 13 ensures !Divides(k, 13) {
      DividesMod(k, 13);
    }
  }

  /** The laws hold of the field of thirteen elements with d = 2, i = 5 and c = 2. */
  lemma SmallInstance()
    ensures Params(13, 2, 5, 2).Valid() && Fits(Params(13, 2, 5, 2))
  {
    hide Divides, IsPrime, Fits32;
    Fits32Bound(13);
    ThirteenIsPrime();
    DividesIntro(13, 5 * 5 - -1, 2);
    forall w: int ensures !Eq(13, w * w, 2) {
      TwoIsNoSquare(13, 5, w);
    }
    DividesIntro(13, 2 * 2 * (-1 - 2) - 1, -1);
  }

  /** Not every point of a curve can be encoded: here is one where 1 - y^2 is no square. */
  lemma OddPoint()
    ensures var f, a := Params(13, 2, 5, 2), Affine(2, 4);
            f.Valid() && On(f, a) && !Even(f, a) && !SqrtRatioM1(f, 1, RootArgument(Extended(f, a), f.p)).0
  {
    hide Divides, IsPrime, SqrtRatioM1, Params.Valid, Even;
    var f, a := Params(13, 2, 5, 2), Affine(2, 4);
    SmallInstance();
    DividesIntro(13, (4 * 4 - 2 * 2) - (1 + 2 * (2 * 4) * (2 * 4)), -9);
    OddEleven(f, a);
    ExtendedRepresents(f, a);
    IgnoredFlag(f, Extended(f, a), a);
  }

  lemma OddEleven(f: Params, a: Affine)
    requires f.p == 13 && a.y == 4
    ensures !Even(f, a)
  {
    if Even(f, a) {
      var w :| IsEvenRoot(f, a, w);
      hide Divides;
      var r := w % 13;
      EqMod(13, w);
      EqMul(13, r, w, r, w);
      EqTrans(13, r * r, w * w, 1 - 4 * 4);
      EqIffMod(13, r * r, 1 - 4 * 4);
      SquaresOfThirteen(r);
    }
  }

  lemma SquaresOfThirteen(r: int)
    requires 0 <= r < 13
    ensures (r * r) % 13 != 11
  {
  }
}
