/** The SDK's ciphertexts, byte for byte: every operation yields the encryption of a known value with a known
    randomness, and the two determine the ciphertext. */
module ExactCipher {
  import opened Numbers
  import opened Wrappers
  import opened Groups
  import opened Scalars
  import opened SdkGroup
  import opened ScalarCodec
  import opened TE = TwistedElGamal

  /** (m*H + r*G, r*P), as strings. */
  ghost function CipherOf<T(!new)>(s: Setup<T>, P: T, m: int, r: int): Ciphertext
    requires s.q > 0
  {
    Ciphertext(s.g.enc(s.g.add(Scalar(s.g, s.q, m, s.H), Scalar(s.g, s.q, r, s.G))), s.g.enc(Scalar(s.g, s.q, r, P)))
  }

  lemma CipherPoints<T(!new)>(s: Setup<T>, P: T, m: int, r: int)
    requires s.Valid() && s.g.elem(P)
    ensures var mH, rG, rP := Scalar(s.g, s.q, m, s.H), Scalar(s.g, s.q, r, s.G), Scalar(s.g, s.q, r, P);
            && s.g.elem(mH) && s.g.elem(rG) && s.g.elem(rP) && s.g.elem(s.g.add(mH, rG))
            && PointFromBytes(s.g, CipherOf(s, P, m, r).c1) == Ok(s.g.add(mH, rG))
            && PointFromBytes(s.g, CipherOf(s, P, m, r).c2) == Ok(rP)
  {
    hide PrimeOrder, Laws, Setup<T>.Valid, Scalar, PointFromBytes;
    SetupFacts(s);
    ScalarElem(s.g, s.q, m, s.H);
    ScalarElem(s.g, s.q, r, s.G);
    ScalarElem(s.g, s.q, r, P);
    AddElem(s.g, Scalar(s.g, s.q, m, s.H), Scalar(s.g, s.q, r, s.G));
    ParseEncoded(s.g, s.g.add(Scalar(s.g, s.q, m, s.H), Scalar(s.g, s.q, r, s.G)));
    ParseEncoded(s.g, Scalar(s.g, s.q, r, P));
  }

  /** Under a key that is not neutral, a ciphertext determines value and randomness modulo the order. */
  lemma CipherInjective<T(!new)>(s: Setup<T>, P: T, m: int, r: int, m': int, r': int)
    requires s.Valid() && s.g.elem(P) && P != s.g.zero
    ensures CipherOf(s, P, m, r) == CipherOf(s, P, m', r') <==> Eq(s.q, m, m') && Eq(s.q, r, r')
  {
    hide PrimeOrder, Laws, Setup<T>.Valid, Scalar, PointFromBytes, Divides;
    SetupFacts(s);
    var g, q := s.g, s.q;
    CipherPoints(s, P, m, r);
    CipherPoints(s, P, m', r');
    ScalarInjective(g, q, r, r', P);
    ScalarInjective(g, q, m, m', s.H);
    if Eq(q, r, r') {
      ScalarCongruent(g, q, r, r', s.G);
      var rG := Scalar(g, q, r, s.G);
      if g.add(Scalar(g, q, m, s.H), rG) == g.add(Scalar(g, q, m', s.H), rG) {
        Cancel(g, Scalar(g, q, m, s.H), Scalar(g, q, m', s.H), rG);
      }
    }
  }

  // ---------------------------------------------------------------- each operation

  /** Encryption under any key: the error for zero randomness, and otherwise exactly this ciphertext. */
  lemma EncryptExact<T(!new)>(s: Setup<T>, P: T, m: int, r: int)
    requires s.Valid() && s.g.elem(P)
    ensures EncryptWithRandomness(s, s.g.enc(P), m, r) ==
            if r % s.q == 0 then Err(InvalidInput) else Ok(CipherOf(s, P, m, r))
  {
    hide PrimeOrder, Laws, Setup<T>.Valid, Scalar, PointFromBytes, Multiply, MultBase;
    SetupFacts(s);
    ParseEncoded(s.g, P);
    if r % s.q != 0 {
      MultBaseIsScalar(s.g, s.q, s.H, m);
      MultiplyIsScalar(s.g, s.q, s.G, r % s.q);
      MultiplyIsScalar(s.g, s.q, P, r % s.q);
      ScalarReduced(s.g, s.q, r, s.G);
      ScalarReduced(s.g, s.q, r, P);
    }
  }

  /** The public entry: negative amounts are rejected, and the drawn scalar is used and returned. */
  lemma EncryptEntry<T(!new)>(s: Setup<T>, P: T, m: int, drawn: int)
    requires s.Valid() && s.g.elem(P) && 1 <= drawn < s.q
    ensures Encrypt(s, s.g.enc(P), m, drawn) == if m < 0 then Err(InvalidAmount)
            else Ok((CipherOf(s, P, m, drawn), drawn))
  {
    hide PrimeOrder, Laws, Setup<T>.Valid, CipherOf, EncryptWithRandomness;
    SetupFacts(s);
    EncryptExact(s, P, m, drawn);
    ModSmall(s.q, drawn);
  }

  /** Two pairs of points, added. */
  lemma PairSum<T(!new)>(s: Setup<T>, P: T, m: int, r: int, m': int, r': int)
    requires s.Valid() && s.g.elem(P)
    ensures var g, q := s.g, s.q;
            && g.add(g.add(Scalar(g, q, m, s.H), Scalar(g, q, r, s.G)),
                     g.add(Scalar(g, q, m', s.H), Scalar(g, q, r', s.G)))
            == g.add(Scalar(g, q, m + m', s.H), Scalar(g, q, r + r', s.G))
            && g.add(Scalar(g, q, r, P), Scalar(g, q, r', P)) == Scalar(g, q, r + r', P)
  {
    hide PrimeOrder, Laws, Setup<T>.Valid, Scalar;
    SetupFacts(s);
    var g, q := s.g, s.q;
    ScalarElem(g, q, m, s.H);
    ScalarElem(g, q, r, s.G);
    ScalarElem(g, q, m', s.H);
    ScalarElem(g, q, r', s.G);
    Interchange(g, Scalar(g, q, m, s.H), Scalar(g, q, r, s.G), Scalar(g, q, m', s.H), Scalar(g, q, r', s.G));
    ScalarSum(g, q, m, m', s.H);
    ScalarSum(g, q, r, r', s.G);
    ScalarSum(g, q, r, r', P);
  }

  lemma AddExact<T(!new)>(s: Setup<T>, P: T, m: int, r: int, m': int, r': int)
    requires s.Valid() && s.g.elem(P)
    ensures AddCiphertexts(s.g, CipherOf(s, P, m, r), CipherOf(s, P, m', r')) == Ok(CipherOf(s, P, m + m', r + r'))
  {
    hide PrimeOrder, Laws, Setup<T>.Valid, Scalar, PointFromBytes;
    CipherPoints(s, P, m, r);
    CipherPoints(s, P, m', r');
    PairSum(s, P, m, r, m', r');
  }

  lemma SubExact<T(!new)>(s: Setup<T>, P: T, m: int, r: int, m': int, r': int)
    requires s.Valid() && s.g.elem(P)
    ensures SubCiphertexts(s.g, CipherOf(s, P, m, r), CipherOf(s, P, m', r')) == Ok(CipherOf(s, P, m - m', r - r'))
  {
    hide PrimeOrder, Laws, Setup<T>.Valid, Scalar, PointFromBytes;
    SetupFacts(s);
    var g, q := s.g, s.q;
    CipherPoints(s, P, m, r);
    CipherPoints(s, P, m', r');
    PairSum(s, P, m, r, -m', -r');
    NegAdd(g, Scalar(g, q, m', s.H), Scalar(g, q, r', s.G));
    ScalarNeg(g, q, m', s.H);
    ScalarNeg(g, q, r', s.G);
    ScalarNeg(g, q, r', P);
    assert m + -m' == m - m' && r + -r' == r - r';
  }

  lemma ScaleExact<T(!new)>(s: Setup<T>, P: T, m: int, r: int, k: int)
    requires s.Valid() && s.g.elem(P)
    ensures ScaleCiphertext(s.g, s.q, CipherOf(s, P, m, r), k) == Ok(CipherOf(s, P, k * m, k * r))
  {
    hide PrimeOrder, Laws, Setup<T>.Valid, Scalar, PointFromBytes, Multiply;
    SetupFacts(s);
    var g, q := s.g, s.q;
    CipherPoints(s, P, m, r);
    var mH, rG, rP := Scalar(g, q, m, s.H), Scalar(g, q, r, s.G), Scalar(g, q, r, P);
    ScalarOfSum(g, q, k, mH, rG);
    ScalarScalar(g, q, k, m, s.H);
    ScalarScalar(g, q, k, r, s.G);
    ScalarScalar(g, q, k, r, P);
    if k % q == 0 {
      ScalarOfMultiple(g, q, k, g.add(mH, rG));
      ScalarOfMultiple(g, q, k, rP);
    } else {
      MultiplyIsScalar(g, q, g.add(mH, rG), k % q);
      MultiplyIsScalar(g, q, rP, k % q);
      ScalarReduced(g, q, k, g.add(mH, rG));
      ScalarReduced(g, q, k, rP);
    }
  }

  /** Re-randomising any two points under any key is adding an encryption of zero with the drawn scalar. */
  lemma RandomizeAdds<T(!new)>(s: Setup<T>, P: T, C: T, D: T, drawn: int)
    requires s.Valid() && s.g.elem(P) && s.g.elem(C) && s.g.elem(D)
    ensures var g, q, ct := s.g, s.q, Ciphertext(s.g.enc(C), s.g.enc(D));
            var r, zero := Randomize(s, g.enc(P), ct, drawn), EncryptWithRandomness(s, g.enc(P), 0, drawn);
            if 1 <= drawn < q then zero.Ok? && r.Ok? && r == AddCiphertexts(g, ct, zero.value)
                                   && r.value.c1 == g.enc(g.add(C, Scalar(g, q, drawn, s.G)))
                                   && r.value.c2 == g.enc(g.add(D, Scalar(g, q, drawn, P)))
            else r == Err(ScalarOutOfRange)
  {
    hide PrimeOrder, Laws, Setup<T>.Valid, Scalar, PointFromBytes;
    SetupFacts(s);
    var g, q := s.g, s.q;
    ParseEncoded(g, P);
    ParseEncoded(g, C);
    ParseEncoded(g, D);
    MultiplyIsScalar(g, q, s.G, drawn);
    MultiplyIsScalar(g, q, P, drawn);
    hide Multiply;
    if 1 <= drawn < q {
      EncryptExact(s, P, 0, drawn);
      ModSmall(q, drawn);
      CipherPoints(s, P, 0, drawn);
      ScalarZero(g, q, s.H);
      AddZero(g, Scalar(g, q, drawn, s.G));
    }
  }

  /** It always changes the ciphertext, and different scalars change it differently. */
  lemma RandomizeInjective<T(!new)>(s: Setup<T>, P: T, C: T, D: T, drawn: int, drawn': int)
    requires s.Valid() && s.g.elem(P) && s.g.elem(C) && s.g.elem(D) && 1 <= drawn < s.q && 1 <= drawn' < s.q
    ensures var pk, ct := s.g.enc(P), Ciphertext(s.g.enc(C), s.g.enc(D));
            && Randomize(s, pk, ct, drawn) != Ok(ct)
            && (Randomize(s, pk, ct, drawn) == Randomize(s, pk, ct, drawn') <==> drawn == drawn')
  {
    hide PrimeOrder, Laws, Setup<T>.Valid, Scalar, PointFromBytes, Randomize, Divides;
    SetupFacts(s);
    var g, q := s.g, s.q;
    RandomizeAdds(s, P, C, D, drawn);
    RandomizeAdds(s, P, C, D, drawn');
    var rG, rG' := Scalar(g, q, drawn, s.G), Scalar(g, q, drawn', s.G);
    ScalarElem(g, q, drawn, s.G);
    ScalarElem(g, q, drawn', s.G);
    AddElem(g, C, rG);
    AddElem(g, C, rG');
    EncInjective(g, g.add(C, rG), C);
    EncInjective(g, g.add(C, rG), g.add(C, rG'));
    AddZero(g, C);
    DividesMod(q, drawn);
    ModSmall(q, drawn);
    ScalarNonzero(g, q, drawn, s.G);
    if g.add(C, rG) == C {
      Cancel(g, rG, g.zero, C);
    }
    if drawn != drawn' && g.add(C, rG) == g.add(C, rG') {
      Cancel(g, rG, rG', C);
      ScalarInjective(g, q, drawn, drawn', s.G);
      EqSmall(q, drawn, drawn');
    }
  }

  lemma RandomizeExact<T(!new)>(s: Setup<T>, P: T, m: int, r: int, drawn: int)
    requires s.Valid() && s.g.elem(P) && 1 <= drawn < s.q
    ensures Randomize(s, s.g.enc(P), CipherOf(s, P, m, r), drawn) == Ok(CipherOf(s, P, m, r + drawn))
  {
    hide PrimeOrder, Laws, Setup<T>.Valid, Scalar, PointFromBytes, Randomize, EncryptWithRandomness, AddCiphertexts;
    SetupFacts(s);
    CipherPoints(s, P, m, r);
    RandomizeAdds(s, P, s.g.add(Scalar(s.g, s.q, m, s.H), Scalar(s.g, s.q, r, s.G)), Scalar(s.g, s.q, r, P), drawn);
    EncryptExact(s, P, 0, drawn);
    ModSmall(s.q, drawn);
    AddExact(s, P, m, r, 0, drawn);
  }

  // ---------------------------------------------------------------- whole histories

  /** The randomness that a history accumulates. */
  function Blinding(h: History): int {
    match h
    case Encrypted(_, r) => r
    case ZeroBalance => 1
    case Added(l, r) => Blinding(l) + Blinding(r)
    case Subtracted(l, r) => Blinding(l) - Blinding(r)
    case Scaled(i, k) => k * Blinding(i)
    case Randomized(i, drawn) => Blinding(i) + drawn
  }

  /** Every history under any key yields, byte for byte, the encryption of its balance with its accumulated
      randomness. */
  lemma {:induction false} EvaluateExact<T(!new)>(s: Setup<T>, P: T, h: History)
    requires s.Valid() && s.g.elem(P) && Blinded(s.q, h)
    ensures Evaluate(s, s.g.enc(P), h) == Ok(CipherOf(s, P, Balance(h), Blinding(h)))
  {
    hide PrimeOrder, Laws, Setup<T>.Valid, CipherOf, AddCiphertexts, SubCiphertexts, ScaleCiphertext, Randomize;
    hide EncryptWithRandomness;
    SetupFacts(s);
    match h
    case Encrypted(m, r) =>
      EncryptExact(s, P, m, r);
    case ZeroBalance =>
      ModSmall(s.q, 1);
      EncryptExact(s, P, 0, 1);
    case Added(l, r) =>
      EvaluateExact(s, P, l);
      EvaluateExact(s, P, r);
      AddExact(s, P, Balance(l), Blinding(l), Balance(r), Blinding(r));
    case Subtracted(l, r) =>
      EvaluateExact(s, P, l);
      EvaluateExact(s, P, r);
      SubExact(s, P, Balance(l), Blinding(l), Balance(r), Blinding(r));
    case Scaled(i, k) =>
      EvaluateExact(s, P, i);
      ScaleExact(s, P, Balance(i), Blinding(i), k);
    case Randomized(i, drawn) =>
      EvaluateExact(s, P, i);
      RandomizeExact(s, P, Balance(i), Blinding(i), drawn);
  }

  /** So two histories yield the same ciphertext exactly when balance and accumulated randomness agree. */
  lemma HistoriesAgree<T(!new)>(s: Setup<T>, P: T, h: History, h': History)
    requires s.Valid() && s.g.elem(P) && P != s.g.zero && Blinded(s.q, h) && Blinded(s.q, h')
    ensures Evaluate(s, s.g.enc(P), h) == Evaluate(s, s.g.enc(P), h')
       <==> Eq(s.q, Balance(h), Balance(h')) && Eq(s.q, Blinding(h), Blinding(h'))
  {
    hide PrimeOrder, Laws, Setup<T>.Valid, CipherOf, Evaluate, Balance, Blinding, Divides;
    SetupFacts(s);
    EvaluateExact(s, P, h);
    EvaluateExact(s, P, h');
    CipherInjective(s, P, Balance(h), Blinding(h), Balance(h'), Blinding(h'));
  }
}
