/** The SDK's cipher (C, D) = (m*H + r*G, r*P) and its homomorphic operations, on byte strings. */
module TwistedElGamal {
  import opened Numbers
  import opened Bytes
  import opened Wrappers
  import opened Groups
  import opened Scalars
  import opened DiscreteLog
  import opened SdkGroup
  import opened ScalarCodec
  import opened ModularInverse
  import opened BabyStepGiantStep

  datatype Ciphertext = Ciphertext(c1: seq<Byte>, c2: seq<Byte>)

  function EncryptWithRandomness<T(!new)>(s: Setup<T>, pk: seq<Byte>, m: int, r: int): Result<Ciphertext, SdkError>
    requires s.q > 0
  {
    var pkPoint :- PointFromBytes(s.g, pk);
    var rScalar := r % s.q;
    if rScalar == 0 then Err(InvalidInput)
    else
      var mH :- MultBase(s.g, s.q, s.H, m);
      var rG :- Multiply(s.g, s.q, s.G, rScalar);
      var c2 :- Multiply(s.g, s.q, pkPoint, rScalar);
      Ok(Ciphertext(s.g.enc(s.g.add(mH, rG)), s.g.enc(c2)))
  }

  /** `drawn` is the non-zero scalar from the random source. */
  function Encrypt<T(!new)>(s: Setup<T>, pk: seq<Byte>, m: int, drawn: int): Result<(Ciphertext, int), SdkError>
    requires s.q > 0
  {
    if m < 0 then Err(InvalidAmount)
    else
      var ct :- EncryptWithRandomness(s, pk, m, drawn);
      Ok((ct, drawn))
  }

  function ZeroCiphertext<T(!new)>(s: Setup<T>, pk: seq<Byte>): Result<Ciphertext, SdkError>
    requires s.q > 0
  {
    EncryptWithRandomness(s, pk, 0, 1)
  }

  function AddCiphertexts<T>(g: Group<T>, a: Ciphertext, b: Ciphertext): Result<Ciphertext, SdkError> {
    var a1 :- PointFromBytes(g, a.c1);
    var a2 :- PointFromBytes(g, a.c2);
    var b1 :- PointFromBytes(g, b.c1);
    var b2 :- PointFromBytes(g, b.c2);
    Ok(Ciphertext(g.enc(g.add(a1, b1)), g.enc(g.add(a2, b2))))
  }

  function SubCiphertexts<T>(g: Group<T>, a: Ciphertext, b: Ciphertext): Result<Ciphertext, SdkError> {
    var a1 :- PointFromBytes(g, a.c1);
    var a2 :- PointFromBytes(g, a.c2);
    var b1 :- PointFromBytes(g, b.c1);
    var b2 :- PointFromBytes(g, b.c2);
    Ok(Ciphertext(g.enc(Subtract(g, a1, b1)), g.enc(Subtract(g, a2, b2))))
  }

  function ScaleCiphertext<T>(g: Group<T>, q: int, a: Ciphertext, k: int): Result<Ciphertext, SdkError>
    requires q > 0
  {
    var a1 :- PointFromBytes(g, a.c1);
    var a2 :- PointFromBytes(g, a.c2);
    var kScalar := k % q;
    if kScalar == 0 then Ok(Ciphertext(g.enc(g.zero), g.enc(g.zero)))
    else
      var b1 :- Multiply(g, q, a1, kScalar);
      var b2 :- Multiply(g, q, a2, kScalar);
      Ok(Ciphertext(g.enc(b1), g.enc(b2)))
  }

  /** `drawn` is the non-zero scalar from the random source. */
  function Randomize<T(!new)>(s: Setup<T>, pk: seq<Byte>, ct: Ciphertext, drawn: int): Result<Ciphertext, SdkError> {
    var pkPoint :- PointFromBytes(s.g, pk);
    var c1 :- PointFromBytes(s.g, ct.c1);
    var c2 :- PointFromBytes(s.g, ct.c2);
    var rG :- Multiply(s.g, s.q, s.G, drawn);
    var rP :- Multiply(s.g, s.q, pkPoint, drawn);
    Ok(Ciphertext(s.g.enc(s.g.add(c1, rG)), s.g.enc(s.g.add(c2, rP))))
  }

  /** What the discrete-log search answers. */
  ghost function Search<T(!new)>(s: Setup<T>, target: T, maxBalance: int, step: int): Result<Option<int>, SdkError> {
    if maxBalance < 0 then Ok(None)
    else if step <= 0 then Err(InvalidInput)
    else if step >= s.q then Err(ScalarOutOfRange)
    else Ok(ScanFrom(s.g, s.H, target, 0, maxBalance))
  }

  /** What decryption answers: the search for C - (1/x)*D. */
  ghost function Decrypted<T(!new)>(s: Setup<T>, sk: seq<Byte>, ct: Ciphertext, maxBalance: int,
                                    step: int): Result<Option<int>, SdkError>
    requires s.q >= 2
  {
    var x :- ScalarFromLE32(s.q, sk);
    var c1 :- PointFromBytes(s.g, ct.c1);
    var c2 :- PointFromBytes(s.g, ct.c2);
    if x == 0 then Err(InvalidKeyDerivation)
    else Search(s, Subtract(s.g, c1, Times(s.g, Inverse(s.q, x), c2)), maxBalance, step)
  }

  method Decrypt<T(!new)>(s: Setup<T>, sk: seq<Byte>, ct: Ciphertext, maxBalance: int, step: int)
    returns (r: Result<Option<int>, SdkError>)
    requires s.Valid()
    ensures r == Decrypted(s, sk, ct, maxBalance, step)
  {
    hide PrimeOrder, Laws, Setup<T>.Valid, Inverse, IsPrime, Divides, ScanFrom;
    SetupFacts(s);
    var skScalar :- ReadScalarLE32(s.q, sk);
    var c1 :- PointFromBytes(s.g, ct.c1);
    var c2 :- PointFromBytes(s.g, ct.c2);
    ParsedElement(s.g, ct.c1);
    ParsedElement(s.g, ct.c2);
    ReducedTwice(s.q, sk);
    var skInv :- InvMod(skScalar, s.q);
    NonzeroResidue(s.q, skScalar);
    InverseSpec(s.q, skScalar);
    // the inverse is a scalar in range, so the multiplication does not throw
    var blinding := Multiply(s.g, s.q, c2, skInv).value;
    TimesElem(s.g, skInv, c2);
    AddNeg(s.g, blinding);
    AddElem(s.g, c1, s.g.neg(blinding));
    r := DiscreteLogOnH(s, Subtract(s.g, c1, blinding), maxBalance, step);
  }

  lemma ReducedTwice(q: int, sk: seq<Byte>)
    requires q > 0 && ScalarFromLE32(q, sk).Ok?
    ensures ScalarFromLE32(q, sk).value % q == ScalarFromLE32(q, sk).value
  {
    ModSmall(q, ScalarFromLE32(q, sk).value);
  }

  lemma NonzeroResidue(q: int, n: int)
    requires q > 0 && n % q != 0
    ensures !Divides(q, n)
  {
    DividesMod(q, n);
  }

  // ---------------------------------------------------------------- what a ciphertext encrypts

  ghost predicate EncryptsWith<T(!new)>(s: Setup<T>, x: int, ct: Ciphertext, m: int, mask: T)
    requires s.q > 0
  {
    && s.g.elem(mask)
    && ct.c1 == s.g.enc(s.g.add(Scalar(s.g, s.q, m, s.H), mask))
    && ct.c2 == s.g.enc(Scalar(s.g, s.q, x, mask))
  }

  /** ct is (m*H + R, x*R) for some R. */
  ghost predicate Encrypts<T(!new)>(s: Setup<T>, x: int, ct: Ciphertext, m: int)
    requires s.q > 0
  {
    exists mask: T :: EncryptsWith(s, x, ct, m, mask)
  }

  ghost function PublicKey<T(!new)>(s: Setup<T>, x: int): seq<Byte>
    requires s.q > 0
  {
    s.g.enc(Scalar(s.g, s.q, x, s.G))
  }

  lemma ParsedCipher<T(!new)>(s: Setup<T>, x: int, ct: Ciphertext, m: int, mask: T)
    requires s.Valid() && EncryptsWith(s, x, ct, m, mask)
    ensures var a1, a2 := s.g.add(Scalar(s.g, s.q, m, s.H), mask), Scalar(s.g, s.q, x, mask);
            && PointFromBytes(s.g, ct.c1) == Ok(a1) && PointFromBytes(s.g, ct.c2) == Ok(a2)
            && s.g.elem(a1) && s.g.elem(a2) && s.g.elem(Scalar(s.g, s.q, m, s.H))
  {
    hide PrimeOrder, Laws, Setup<T>.Valid, Scalar, PointFromBytes;
    SetupFacts(s);
    ScalarElem(s.g, s.q, m, s.H);
    ScalarElem(s.g, s.q, x, mask);
    AddElem(s.g, Scalar(s.g, s.q, m, s.H), mask);
    ParseEncoded(s.g, s.g.add(Scalar(s.g, s.q, m, s.H), mask));
    ParseEncoded(s.g, Scalar(s.g, s.q, x, mask));
  }

  /** Encryption under x*G succeeds exactly when the randomness is not zero, and encrypts m. */
  lemma EncryptSpec<T(!new)>(s: Setup<T>, x: int, m: int, r: int)
    requires s.Valid()
    ensures var ct := EncryptWithRandomness(s, PublicKey(s, x), m, r);
            if r % s.q == 0 then ct == Err(InvalidInput) else ct.Ok? && Encrypts(s, x, ct.value, m)
  {
    hide PrimeOrder, Laws, Setup<T>.Valid, Scalar, PointFromBytes, Multiply, MultBase;
    SetupFacts(s);
    var g, q, k := s.g, s.q, r % s.q;
    var P := Scalar(g, q, x, s.G);
    ScalarElem(g, q, x, s.G);
    ParseEncoded(g, P);
    if k != 0 {
      MultBaseIsScalar(g, q, s.H, m);
      MultiplyIsScalar(g, q, s.G, k);
      MultiplyIsScalar(g, q, P, k);
      var mask := Scalar(g, q, k, s.G);
      ScalarScalar(g, q, k, x, s.G);
      ScalarScalar(g, q, x, k, s.G);
      assert k * x == x * k;
      assert EncryptsWith(s, x, EncryptWithRandomness(s, PublicKey(s, x), m, r).value, m, mask);
    }
  }

  lemma SumAlgebra<T(!new)>(s: Setup<T>, x: int, m: int, a: T, n: int, b: T)
    requires s.Valid() && s.g.elem(a) && s.g.elem(b)
    ensures var h, k := Scalar(s.g, s.q, m, s.H), Scalar(s.g, s.q, n, s.H);
            && s.g.add(s.g.add(h, a), s.g.add(k, b)) == s.g.add(Scalar(s.g, s.q, m + n, s.H), s.g.add(a, b))
            && s.g.add(Scalar(s.g, s.q, x, a), Scalar(s.g, s.q, x, b)) == Scalar(s.g, s.q, x, s.g.add(a, b))
            && s.g.elem(s.g.add(a, b))
  {
    hide PrimeOrder, Laws, Setup<T>.Valid, Scalar;
    SetupFacts(s);
    ScalarElem(s.g, s.q, m, s.H);
    ScalarElem(s.g, s.q, n, s.H);
    Interchange(s.g, Scalar(s.g, s.q, m, s.H), a, Scalar(s.g, s.q, n, s.H), b);
    ScalarSum(s.g, s.q, m, n, s.H);
    ScalarOfSum(s.g, s.q, x, a, b);
    AddElem(s.g, a, b);
  }

  lemma AddSpec<T(!new)>(s: Setup<T>, x: int, a: Ciphertext, b: Ciphertext, m: int, n: int)
    requires s.Valid() && Encrypts(s, x, a, m) && Encrypts(s, x, b, n)
    ensures AddCiphertexts(s.g, a, b).Ok? && Encrypts(s, x, AddCiphertexts(s.g, a, b).value, m + n)
  {
    hide PrimeOrder, Laws, Setup<T>.Valid, Scalar, PointFromBytes;
    SetupFacts(s);
    var u: T :| EncryptsWith(s, x, a, m, u);
    var v: T :| EncryptsWith(s, x, b, n, v);
    ParsedCipher(s, x, a, m, u);
    ParsedCipher(s, x, b, n, v);
    SumAlgebra(s, x, m, u, n, v);
    assert EncryptsWith(s, x, AddCiphertexts(s.g, a, b).value, m + n, s.g.add(u, v));
  }

  /** The opposite of a ciphertext's two points. */
  lemma NegAlgebra<T(!new)>(s: Setup<T>, x: int, n: int, b: T)
    requires s.Valid() && s.g.elem(b)
    ensures var k := Scalar(s.g, s.q, n, s.H);
            && s.g.neg(s.g.add(k, b)) == s.g.add(Scalar(s.g, s.q, -n, s.H), s.g.neg(b))
            && s.g.neg(Scalar(s.g, s.q, x, b)) == Scalar(s.g, s.q, x, s.g.neg(b))
            && s.g.elem(s.g.neg(b))
  {
    hide PrimeOrder, Laws, Setup<T>.Valid, Scalar;
    SetupFacts(s);
    ScalarElem(s.g, s.q, n, s.H);
    NegAdd(s.g, Scalar(s.g, s.q, n, s.H), b);
    ScalarNeg(s.g, s.q, n, s.H);
    ScalarOfNeg(s.g, s.q, x, b);
  }

  lemma SubSpec<T(!new)>(s: Setup<T>, x: int, a: Ciphertext, b: Ciphertext, m: int, n: int)
    requires s.Valid() && Encrypts(s, x, a, m) && Encrypts(s, x, b, n)
    ensures SubCiphertexts(s.g, a, b).Ok? && Encrypts(s, x, SubCiphertexts(s.g, a, b).value, m - n)
  {
    hide PrimeOrder, Laws, Setup<T>.Valid, Scalar, PointFromBytes;
    SetupFacts(s);
    var u: T :| EncryptsWith(s, x, a, m, u);
    var v: T :| EncryptsWith(s, x, b, n, v);
    ParsedCipher(s, x, a, m, u);
    ParsedCipher(s, x, b, n, v);
    NegAlgebra(s, x, n, v);
    SumAlgebra(s, x, m, u, -n, s.g.neg(v));
    assert m + -n == m - n;
    assert EncryptsWith(s, x, SubCiphertexts(s.g, a, b).value, m - n, s.g.add(u, s.g.neg(v)));
  }

  lemma ScaleSpec<T(!new)>(s: Setup<T>, x: int, a: Ciphertext, m: int, k: int)
    requires s.Valid() && Encrypts(s, x, a, m)
    ensures ScaleCiphertext(s.g, s.q, a, k).Ok? && Encrypts(s, x, ScaleCiphertext(s.g, s.q, a, k).value, k * m)
  {
    hide PrimeOrder, Laws, Setup<T>.Valid, Scalar, PointFromBytes, Multiply;
    SetupFacts(s);
    var g, q := s.g, s.q;
    var u: T :| EncryptsWith(s, x, a, m, u);
    ParsedCipher(s, x, a, m, u);
    ScaleAlgebra(s, x, m, u, k);
    var a1, a2 := g.add(Scalar(g, q, m, s.H), u), Scalar(g, q, x, u);
    if k % q == 0 {
      ScalarOfMultiple(g, q, k, a1);
      ScalarOfMultiple(g, q, k, a2);
    } else {
      MultiplyIsScalar(g, q, a1, k % q);
      MultiplyIsScalar(g, q, a2, k % q);
      ScalarReduced(g, q, k, a1);
      ScalarReduced(g, q, k, a2);
    }
    assert EncryptsWith(s, x, ScaleCiphertext(g, q, a, k).value, k * m, Scalar(g, q, k, u));
  }

  lemma ScalarReduced<T>(g: Group<T>, q: int, k: int, a: T)
    requires q > 0
    ensures Scalar(g, q, k % q, a) == Scalar(g, q, k, a)
  {
    hide Divides;
    EqMod(q, k);
    ScalarCongruent(g, q, k % q, k, a);
  }

  lemma ScalarOfMultiple<T>(g: Group<T>, q: int, k: int, a: T)
    requires q > 0 && k % q == 0
    ensures Scalar(g, q, k, a) == g.zero
  {
    assert Times(g, 0, a) == g.zero;
  }

  lemma ScaleAlgebra<T(!new)>(s: Setup<T>, x: int, m: int, u: T, k: int)
    requires s.Valid() && s.g.elem(u)
    ensures Scalar(s.g, s.q, k, s.g.add(Scalar(s.g, s.q, m, s.H), u))
         == s.g.add(Scalar(s.g, s.q, k * m, s.H), Scalar(s.g, s.q, k, u))
    ensures Scalar(s.g, s.q, k, Scalar(s.g, s.q, x, u)) == Scalar(s.g, s.q, x, Scalar(s.g, s.q, k, u))
    ensures s.g.elem(Scalar(s.g, s.q, k, u))
  {
    hide PrimeOrder, Laws, Setup<T>.Valid, Scalar;
    SetupFacts(s);
    ScalarElem(s.g, s.q, m, s.H);
    ScalarElem(s.g, s.q, k, u);
    ScalarOfSum(s.g, s.q, k, Scalar(s.g, s.q, m, s.H), u);
    ScalarScalar(s.g, s.q, k, m, s.H);
    ScalarScalar(s.g, s.q, k, x, u);
    ScalarScalar(s.g, s.q, x, k, u);
    assert k * x == x * k;
  }

  lemma RandomizeSpec<T(!new)>(s: Setup<T>, x: int, a: Ciphertext, m: int, drawn: int)
    requires s.Valid() && Encrypts(s, x, a, m)
    ensures var r := Randomize(s, PublicKey(s, x), a, drawn);
            if 1 <= drawn < s.q then r.Ok? && Encrypts(s, x, r.value, m) else r.Err?
  {
    hide PrimeOrder, Laws, Setup<T>.Valid, Scalar, PointFromBytes, Multiply;
    SetupFacts(s);
    var g, q := s.g, s.q;
    var P, rG := Scalar(g, q, x, s.G), Scalar(g, q, drawn, s.G);
    var u: T :| EncryptsWith(s, x, a, m, u);
    ParsedCipher(s, x, a, m, u);
    ScalarElem(g, q, x, s.G);
    ParseEncoded(g, P);
    MultiplyIsScalar(g, q, s.G, drawn);
    MultiplyIsScalar(g, q, P, drawn);
    ScalarScalar(g, q, drawn, x, s.G);
    ScalarScalar(g, q, x, drawn, s.G);
    assert drawn * x == x * drawn;
    ScalarElem(g, q, drawn, s.G);
    ScalarElem(g, q, m, s.H);
    AddAssociates(g, Scalar(g, q, m, s.H), u, rG);
    AddElem(g, u, rG);
    ScalarOfSum(g, q, x, u, rG);
    if 1 <= drawn < q {
      assert EncryptsWith(s, x, Randomize(s, PublicKey(s, x), a, drawn).value, m, g.add(u, rG));
    }
  }

  // ---------------------------------------------------------------- decryption

  /** Removing x^-1 times the second point leaves m*H. */
  lemma Unmasked<T(!new)>(s: Setup<T>, x: int, m: int, u: T)
    requires s.Valid() && s.g.elem(u) && x % s.q != 0
    ensures Subtract(s.g, s.g.add(Scalar(s.g, s.q, m, s.H), u),
                     Scalar(s.g, s.q, Inverse(s.q, x), Scalar(s.g, s.q, x, u)))
         == Scalar(s.g, s.q, m, s.H)
  {
    hide PrimeOrder, Laws, Setup<T>.Valid, Scalar, Inverse, IsPrime, Divides;
    SetupFacts(s);
    var g, q := s.g, s.q;
    NonzeroResidue(q, x);
    InverseSpec(q, x);
    ScalarScalar(g, q, Inverse(q, x), x, u);
    assert Inverse(q, x) * x == x * Inverse(q, x);
    ScalarCongruent(g, q, x * Inverse(q, x), 1, u);
    ScalarZero(g, q, u);
    ScalarElem(g, q, m, s.H);
    AddNeg(g, u);
    AddAssociates(g, Scalar(g, q, m, s.H), u, g.neg(u));
    AddZero(g, Scalar(g, q, m, s.H));
  }

  /** Decryption under an invertible key: the plaintext modulo the order if it is in range, otherwise nothing. */
  lemma DecryptSpec<T(!new)>(s: Setup<T>, x: int, sk: seq<Byte>, ct: Ciphertext, m: int, maxBalance: int, step: int)
    requires s.Valid() && Encrypts(s, x, ct, m) && x % s.q != 0 && ScalarFromLE32(s.q, sk) == Ok(x % s.q)
    ensures Decrypted(s, sk, ct, maxBalance, step) ==
            if maxBalance < 0 then Ok(None)
            else if step <= 0 then Err(InvalidInput)
            else if step >= s.q then Err(ScalarOutOfRange)
            else Ok(if m % s.q <= maxBalance then Some(m % s.q) else None)
  {
    hide PrimeOrder, Laws, Setup<T>.Valid, Scalar, Inverse, IsPrime, Divides, PointFromBytes, Subtract, ScanFrom;
    hide IsLeastLog;
    SetupFacts(s);
    var g, q := s.g, s.q;
    var u: T :| EncryptsWith(s, x, ct, m, u);
    ParsedCipher(s, x, ct, m, u);
    NonzeroResidue(q, x);
    InverseSpec(q, x);
    InverseReduced(q, x);
    TimesIsScalar(g, q, Inverse(q, x), Scalar(g, q, x, u));
    Unmasked(s, x, m, u);
    if maxBalance >= 0 {
      var target := Scalar(g, q, m, s.H);
      var found := ScanFrom(g, s.H, target, 0, maxBalance);
      ScanIsLeastLog(g, s.H, target, maxBalance, found);
      LeastLogOfScalar(g, q, s.H, m, maxBalance, found);
    }
  }

  lemma TimesIsScalar<T>(g: Group<T>, q: int, k: int, a: T)
    requires 0 <= k < q
    ensures Scalar(g, q, k, a) == Times(g, k, a)
  {
    ModSmall(q, k);
  }

  // ---------------------------------------------------------------- the encrypted ledger

  /** What the SDK can do to ciphertexts under one key. */
  datatype History =
    | Encrypted(m: int, r: int)
    | ZeroBalance
    | Added(left: History, right: History)
    | Subtracted(left: History, right: History)
    | Scaled(inner: History, k: int)
    | Randomized(inner: History, drawn: int)

  function Evaluate<T(!new)>(s: Setup<T>, pk: seq<Byte>, h: History): Result<Ciphertext, SdkError>
    requires s.q > 0
  {
    match h
    case Encrypted(m, r) => EncryptWithRandomness(s, pk, m, r)
    case ZeroBalance => ZeroCiphertext(s, pk)
    case Added(l, r) =>
      var a :- Evaluate(s, pk, l);
      var b :- Evaluate(s, pk, r);
      AddCiphertexts(s.g, a, b)
    case Subtracted(l, r) =>
      var a :- Evaluate(s, pk, l);
      var b :- Evaluate(s, pk, r);
      SubCiphertexts(s.g, a, b)
    case Scaled(i, k) =>
      var a :- Evaluate(s, pk, i);
      ScaleCiphertext(s.g, s.q, a, k)
    case Randomized(i, drawn) =>
      var a :- Evaluate(s, pk, i);
      Randomize(s, pk, a, drawn)
  }

  /** The plain ledger. */
  function Balance(h: History): int {
    match h
    case Encrypted(m, _) => m
    case ZeroBalance => 0
    case Added(l, r) => Balance(l) + Balance(r)
    case Subtracted(l, r) => Balance(l) - Balance(r)
    case Scaled(i, k) => k * Balance(i)
    case Randomized(i, _) => Balance(i)
  }

  /** Every random scalar used is not zero. */
  predicate Blinded(q: int, h: History)
    requires q > 0
  {
    match h
    case Encrypted(_, r) => r % q != 0
    case ZeroBalance => true
    case Added(l, r) => Blinded(q, l) && Blinded(q, r)
    case Subtracted(l, r) => Blinded(q, l) && Blinded(q, r)
    case Scaled(i, _) => Blinded(q, i)
    case Randomized(i, drawn) => Blinded(q, i) && 1 <= drawn < q
  }

  /** A history succeeds exactly when no random scalar used is zero, and then encrypts its balance. */
  lemma {:induction false} EvaluateEncrypts<T(!new)>(s: Setup<T>, x: int, h: History)
    requires s.Valid()
    ensures var ct := Evaluate(s, PublicKey(s, x), h);
            if Blinded(s.q, h) then ct.Ok? && Encrypts(s, x, ct.value, Balance(h)) else ct.Err?
  {
    hide PrimeOrder, Laws, Setup<T>.Valid, Encrypts, AddCiphertexts, SubCiphertexts, ScaleCiphertext, Randomize;
    hide EncryptWithRandomness, PublicKey;
    SetupFacts(s);
    var pk := PublicKey(s, x);
    match h
    case Encrypted(m, r) =>
      EncryptSpec(s, x, m, r);
    case ZeroBalance =>
      EncryptSpec(s, x, 0, 1);
    case Added(l, r) =>
      EvaluateEncrypts(s, x, l);
      EvaluateEncrypts(s, x, r);
      if Blinded(s.q, h) {
        AddSpec(s, x, Evaluate(s, pk, l).value, Evaluate(s, pk, r).value, Balance(l), Balance(r));
      }
    case Subtracted(l, r) =>
      EvaluateEncrypts(s, x, l);
      EvaluateEncrypts(s, x, r);
      if Blinded(s.q, h) {
        SubSpec(s, x, Evaluate(s, pk, l).value, Evaluate(s, pk, r).value, Balance(l), Balance(r));
      }
    case Scaled(i, k) =>
      EvaluateEncrypts(s, x, i);
      if Blinded(s.q, h) {
        ScaleSpec(s, x, Evaluate(s, pk, i).value, Balance(i), k);
      }
    case Randomized(i, drawn) =>
      EvaluateEncrypts(s, x, i);
      if Blinded(s.q, i) {
        RandomizeSpec(s, x, Evaluate(s, pk, i).value, Balance(i), drawn);
      }
  }

  /** The encrypted ledger refines the plain one: after any history under one non-zero key, decryption returns the
      balance modulo the order when that is within the bound, and nothing otherwise; so it returns the balance itself
      whenever 0 <= balance <= maxBalance < q. */
  lemma LedgerRefines<T(!new)>(s: Setup<T>, x: int, sk: seq<Byte>, h: History, maxBalance: int, step: int)
    requires s.Valid() && Blinded(s.q, h) && x % s.q != 0 && ScalarFromLE32(s.q, sk) == Ok(x % s.q)
    requires maxBalance >= 0 && 0 < step < s.q
    ensures var ct := Evaluate(s, PublicKey(s, x), h);
            var m := Balance(h);
            && ct.Ok?
            && Decrypted(s, sk, ct.value, maxBalance, step) == Ok(if m % s.q <= maxBalance then Some(m % s.q) else None)
            && (0 <= m <= maxBalance < s.q ==> Decrypted(s, sk, ct.value, maxBalance, step) == Ok(Some(m)))
  {
    hide PrimeOrder, Laws, Setup<T>.Valid, Encrypts, Evaluate, PublicKey, Decrypted, Divides;
    SetupFacts(s);
    EvaluateEncrypts(s, x, h);
    DecryptSpec(s, x, sk, Evaluate(s, PublicKey(s, x), h).value, Balance(h), maxBalance, step);
    if 0 <= Balance(h) < s.q {
      ModSmall(s.q, Balance(h));
    }
  }

  /** The public entry point: it rejects negative amounts, and returns the randomness with the ciphertext. */
  lemma EncryptAmount<T(!new)>(s: Setup<T>, x: int, m: int, drawn: int)
    requires s.Valid() && 1 <= drawn < s.q
    ensures var r := Encrypt(s, PublicKey(s, x), m, drawn);
            && (m < 0 ==> r == Err(InvalidAmount))
            && (m >= 0 ==> r.Ok? && r.value.1 == drawn && Encrypts(s, x, r.value.0, m))
  {
    hide PrimeOrder, Laws, Setup<T>.Valid, EncryptWithRandomness, PublicKey, Encrypts;
    SetupFacts(s);
    ModSmall(s.q, drawn);
    EncryptSpec(s, x, m, drawn);
  }

  /** The ledger under a key derived from a seed: decryption never meets a secret without inverse. */
  lemma SeededLedger<T(!new)>(s: Setup<T>, seed: seq<Byte>, digest: seq<Byte>, h: History, maxBalance: int, step: int)
    requires s.Valid() && 16 * s.q > TWO_256 && |seed| == 32 && |digest| == 64
    requires Blinded(s.q, h) && maxBalance >= 0 && 0 < step < s.q
    ensures KeyPairFromSeed(s, seed, digest).Ok?
    ensures var (public, secret) := KeyPairFromSeed(s, seed, digest).value;
            var ct := Evaluate(s, public, h);
            && ct.Ok?
            && Decrypted(s, secret, ct.value, maxBalance, step)
               == Ok(if Balance(h) % s.q <= maxBalance then Some(Balance(h) % s.q) else None)
  {
    hide PrimeOrder, Laws, Setup<T>.Valid, Evaluate, Decrypted, KeyPairFromSeed, Bound, Blinded, Balance, Scalar;
    hide FromLE, Clamp;
    SetupFacts(s);
    KeyPairInvertible(s, seed, digest);
    var (public, secret) := KeyPairFromSeed(s, seed, digest).value;
    LedgerRefines(s, FromLE(Clamp(digest[..32])), secret, h, maxBalance, step);
  }
}
