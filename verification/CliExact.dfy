/** The CLI's ciphertexts, byte for byte: every operation yields the encryption of a known amount under a known mask,
    for every key that decodes. */
module CliExact {
  import opened Numbers
  import opened Bytes
  import opened Wrappers
  import opened Groups
  import opened Scalars
  import opened Field25519
  import opened EdwardsGroup
  import E = EdwardsPoint
  import opened Ristretto
  import opened RistrettoBytes
  import opened RistrettoElements
  import opened CliElGamal
  import opened CliLedger

  /** (k*G, m*G + k*P), as strings. */
  ghost function CipherOf(c: Curve, P: Affine, m: int, k: int): Ciphertext
    requires c.Valid()
  {
    var g, b := Elements(c.f), Base(c);
    Ciphertext(g.enc(Multiple(g, k, b)), g.enc(g.add(Multiple(g, m, b), Multiple(g, k, P))))
  }

  /** The scalar that masks a ciphertext: the given randomness, unless there is none or it reduces to zero. */
  ghost predicate Masks(c: Curve, randomness: Option<int>, drawn: int, k: int)
    requires c.order > 0
  {
    && (randomness.Some? && !Divides(c.order, randomness.value) ==>
          0 <= k < c.order && Eq(c.order, k, randomness.value))
    && (randomness.None? || Divides(c.order, randomness.value) ==> 0 <= k < c.order && Eq(c.order, k, drawn))
  }

  lemma MaskedBy(c: Curve, randomness: Option<int>, drawn: int, k: int)
    requires c.order > 0 && Masks(c, randomness, drawn, k)
    ensures Nonce(c, randomness, drawn) % c.order == k
  {
    hide Divides;
    ModSmall(c.order, k);
    if randomness.Some? {
      DividesMod(c.order, randomness.value);
      if Divides(c.order, randomness.value) {
        EqIffMod(c.order, k, drawn);
      } else {
        EqIffMod(c.order, k, randomness.value);
        ModSmall(c.order, randomness.value % c.order);
      }
    } else {
      EqIffMod(c.order, k, drawn);
    }
  }

  lemma CipherElement(c: Curve, P: Affine, m: int, k: int)
    requires c.Valid() && Elements(c.f).elem(P)
    ensures var g, b := Elements(c.f), Base(c);
            && g.elem(Multiple(g, k, b)) && g.elem(Multiple(g, m, b)) && g.elem(Multiple(g, k, P))
            && g.elem(g.add(Multiple(g, m, b), Multiple(g, k, P)))
  {
    hide Elements, Laws, Curve.Valid, Base, Decode, Extended, Denotes;
    CurveFacts(c);
    BaseElement(c);
    var g, b := Elements(c.f), Base(c);
    MultipleNeg(g, k, b);
    MultipleNeg(g, m, b);
    MultipleNeg(g, k, P);
    AddElem(g, Multiple(g, m, b), Multiple(g, k, P));
  }

  // ---------------------------------------------------------------- each operation

  /** Encryption under any key that decodes: exactly this ciphertext, for the scalar k that masks it. */
  lemma EncryptExact(c: Curve, P: Affine, amount: int, randomness: Option<int>, drawn: int, k: int)
    requires c.Valid() && Elements(c.f).elem(P) && 0 <= amount < U64 && Masks(c, randomness, drawn, k)
    ensures Encrypt(c, Elements(c.f).enc(P), amount, randomness, drawn) == Ok(CipherOf(c, P, amount, k))
  {
    hide Elements, Decode, Encode, Laws, Member, Fits, Curve.Valid, Denotes, Bound, Params.Valid, Extended;
    hide E.ScalarMul, Base, E.Add, Nonce, Divides, IsPrime, Masks, Multiple;
    CurveFacts(c);
    BaseElement(c);
    MaskedBy(c, randomness, drawn, k);
    MasksInRange(c, randomness, drawn, k);
    var f, g, b, r := c.f, Elements(c.f), Base(c), Nonce(c, randomness, drawn);
    ReadElement(f, P);
    DenotesScalarMul(f, c.order, Extended(f, b), b, r);
    DenotesScalarMul(f, c.order, Extended(f, b), b, amount);
    DenotesScalarMul(f, c.order, Extended(f, P), P, r);
    ModSmall(c.order, amount);
    var p1 := E.ScalarMul(f, c.order, Extended(f, b), r);
    var pm := E.ScalarMul(f, c.order, Extended(f, b), amount);
    var pr := E.ScalarMul(f, c.order, Extended(f, P), r);
    TimesIsMultiple(g, k, b);
    TimesIsMultiple(g, k, P);
    TimesIsMultiple(g, amount, b);
    RepresentativeSum(f, pm, pr, Times(g, amount, b), Times(g, k, P));
    WriteElement(f, p1, Times(g, k, b));
    WriteElement(f, E.Add(f, pm, pr), g.add(Times(g, amount, b), Times(g, k, P)));
  }

  /** Which error an amount outside 64 bits or a key that does not decode meets. */
  lemma EncryptErrors(c: Curve, pk: seq<Byte>, amount: int, randomness: Option<int>, drawn: int)
    requires c.Valid()
    ensures var r := Encrypt(c, pk, amount, randomness, drawn);
            && (amount < 0 ==> r == Err(NegativeAmount)) && (amount >= U64 ==> r == Err(AmountTooLarge))
            && (0 <= amount < U64 && Decode(c.f, pk).Err? ==> r == Err(Decode(c.f, pk).error))
  {
    hide Decode, Encode, Fits, Bound, Params.Valid, E.ScalarMul, E.Add, Nonce;
    CurveFacts(c);
  }

  lemma AddExact(c: Curve, P: Affine, m: int, k: int, m': int, k': int)
    requires c.Valid() && Elements(c.f).elem(P)
    ensures HomomorphicAdd(c.f, CipherOf(c, P, m, k), CipherOf(c, P, m', k')) == Ok(CipherOf(c, P, m + m', k + k'))
  {
    hide Elements, Laws, Curve.Valid, Base, Decode, Encode, Extended, Denotes, E.Add, E.Negate, Multiple, Fits;
    CurveFacts(c);
    BaseElement(c);
    var g, b := Elements(c.f), Base(c);
    CipherElement(c, P, m, k);
    CipherElement(c, P, m', k');
    var x, y := g.add(Multiple(g, m, b), Multiple(g, k, P)), g.add(Multiple(g, m', b), Multiple(g, k', P));
    ComponentSum(c.f, Multiple(g, k, b), Multiple(g, k', b));
    ComponentSum(c.f, x, y);
    Interchange(g, Multiple(g, m, b), Multiple(g, k, P), Multiple(g, m', b), Multiple(g, k', P));
    MultipleSum(g, k, k', b);
    MultipleSum(g, m, m', b);
    MultipleSum(g, k, k', P);
  }

  lemma SubExact(c: Curve, P: Affine, m: int, k: int, m': int, k': int)
    requires c.Valid() && Elements(c.f).elem(P)
    ensures HomomorphicSub(c.f, CipherOf(c, P, m, k), CipherOf(c, P, m', k')) == Ok(CipherOf(c, P, m - m', k - k'))
  {
    hide Elements, Laws, Curve.Valid, Base, Decode, Encode, Extended, Denotes, E.Add, E.Negate, Multiple, Fits;
    CurveFacts(c);
    BaseElement(c);
    var g, b := Elements(c.f), Base(c);
    CipherElement(c, P, m, k);
    CipherElement(c, P, m', k');
    var x, y := g.add(Multiple(g, m, b), Multiple(g, k, P)), g.add(Multiple(g, m', b), Multiple(g, k', P));
    ComponentSum(c.f, Multiple(g, k, b), Multiple(g, k', b));
    ComponentSum(c.f, x, y);
    MultipleNeg(g, k', b);
    MultipleSum(g, k, -k', b);
    MultipleDifference(g, b, P, m, k, m', k');
  }

  /** (m*b + k*P) - (m'*b + k'*P) = (m - m')*b + (k - k')*P. */
  lemma MultipleDifference<T(!new)>(g: Group<T>, b: T, P: T, m: int, k: int, m': int, k': int)
    requires Laws(g) && g.elem(b) && g.elem(P)
    ensures g.add(g.add(Multiple(g, m, b), Multiple(g, k, P)), g.neg(g.add(Multiple(g, m', b), Multiple(g, k', P))))
         == g.add(Multiple(g, m - m', b), Multiple(g, k - k', P))
  {
    hide Laws, Multiple;
    MultipleNeg(g, m, b);
    MultipleNeg(g, k, P);
    MultipleNeg(g, m', b);
    MultipleNeg(g, k', P);
    MultipleNeg(g, -m', b);
    MultipleNeg(g, -k', P);
    NegAdd(g, Multiple(g, m', b), Multiple(g, k', P));
    Interchange(g, Multiple(g, m, b), Multiple(g, k, P), Multiple(g, -m', b), Multiple(g, -k', P));
    MultipleSum(g, m, -m', b);
    MultipleSum(g, k, -k', P);
  }

  /** Re-randomising is adding an encryption of zero under the drawn scalar. */
  lemma RandomizeExact(c: Curve, P: Affine, m: int, k: int, drawn: int)
    requires c.Valid() && Elements(c.f).elem(P) && 1 <= drawn < c.order
    ensures Randomize(c, CipherOf(c, P, m, k), Elements(c.f).enc(P), drawn) == Ok(CipherOf(c, P, m, k + drawn))
  {
    hide Elements, Decode, Encode, Laws, Member, Fits, Curve.Valid, Denotes, Bound, Params.Valid, Extended;
    hide E.ScalarMul, Base, E.Add, Multiple;
    CurveFacts(c);
    BaseElement(c);
    var f, g, b := c.f, Elements(c.f), Base(c);
    CipherElement(c, P, m, k);
    var a1, a2 := Multiple(g, k, b), g.add(Multiple(g, m, b), Multiple(g, k, P));
    ReadElement(f, P);
    ReadElement(f, a1);
    ReadElement(f, a2);
    ModSmall(c.order, drawn);
    DenotesScalarMul(f, c.order, Extended(f, b), b, drawn);
    DenotesScalarMul(f, c.order, Extended(f, P), P, drawn);
    var q1, q2 := E.ScalarMul(f, c.order, Extended(f, b), drawn), E.ScalarMul(f, c.order, Extended(f, P), drawn);
    RepresentativeSum(f, Extended(f, a1), q1, a1, Times(g, drawn, b));
    RepresentativeSum(f, Extended(f, a2), q2, a2, Times(g, drawn, P));
    WriteElement(f, E.Add(f, Extended(f, a1), q1), g.add(a1, Times(g, drawn, b)));
    WriteElement(f, E.Add(f, Extended(f, a2), q2), g.add(a2, Times(g, drawn, P)));
    TimesIsMultiple(g, drawn, b);
    TimesIsMultiple(g, drawn, P);
    MultipleSum(g, k, drawn, b);
    MultipleSum(g, k, drawn, P);
    MultipleNeg(g, drawn, P);
    AddAssociates(g, Multiple(g, m, b), Multiple(g, k, P), Multiple(g, drawn, P));
  }

  // ---------------------------------------------------------------- whole histories

  /** The masks that a history accumulates. */
  ghost predicate Accumulates(c: Curve, h: History, k: int)
    requires c.order > 0
  {
    match h
    case Encrypted(_, randomness, drawn) => Masks(c, randomness, drawn, k)
    case Added(l, r) => exists i: int, j: int :: Accumulates(c, l, i) && Accumulates(c, r, j) && k == i + j
    case Subtracted(l, r) => exists i: int, j: int :: Accumulates(c, l, i) && Accumulates(c, r, j) && k == i - j
    case Randomized(i, drawn) => 1 <= drawn < c.order && Accumulates(c, i, k - drawn)
  }

  /** Every history under any key that decodes yields, byte for byte, the encryption of its balance under the masks it
      accumulates. */
  lemma {:induction false} EvaluateExact(c: Curve, P: Affine, h: History, k: int)
    requires c.Valid() && Elements(c.f).elem(P) && AmountsInRange(h) && c.order > 0 && Accumulates(c, h, k)
    ensures Evaluate(c, Elements(c.f).enc(P), h) == Ok(CipherOf(c, P, Balance(h), k))
  {
    hide Elements, Laws, Curve.Valid, CipherOf, Encrypt, HomomorphicAdd, HomomorphicSub, Randomize, Masks;
    CurveFacts(c);
    match h
    case Encrypted(amount, randomness, drawn) =>
      EncryptExact(c, P, amount, randomness, drawn, k);
    case Added(l, r) =>
      var i: int, j: int :| Accumulates(c, l, i) && Accumulates(c, r, j) && k == i + j;
      EvaluateExact(c, P, l, i);
      EvaluateExact(c, P, r, j);
      AddExact(c, P, Balance(l), i, Balance(r), j);
    case Subtracted(l, r) =>
      var i: int, j: int :| Accumulates(c, l, i) && Accumulates(c, r, j) && k == i - j;
      EvaluateExact(c, P, l, i);
      EvaluateExact(c, P, r, j);
      SubExact(c, P, Balance(l), i, Balance(r), j);
    case Randomized(i, drawn) =>
      EvaluateExact(c, P, i, k - drawn);
      RandomizeExact(c, P, Balance(i), k - drawn, drawn);
  }

  // ---------------------------------------------------------------- what a ciphertext determines

  /** If G has prime order, amount and mask are determined modulo that order. */
  lemma CipherInjective(c: Curve, P: Affine, m: int, k: int, m': int, k': int)
    requires PrimeBase(c) && Elements(c.f).elem(P)
    ensures c.Valid() && (CipherOf(c, P, m, k) == CipherOf(c, P, m', k') <==> Eq(c.order, m, m') && Eq(c.order, k, k'))
  {
    PrimeBaseFacts(c);
    hide PrimeBase, Elements, Laws, PrimeOrder, Curve.Valid, Base, Divides, Multiple, Scalar, Fits;
    var g, q, b := Elements(c.f), c.order, Base(c);
    OrderFacts(g, q);
    CipherElement(c, P, m, k);
    CipherElement(c, P, m', k');
    MultipleIsScalar(g, q, k, b);
    MultipleIsScalar(g, q, k', b);
    MultipleIsScalar(g, q, m, b);
    MultipleIsScalar(g, q, m', b);
    MultipleIsScalar(g, q, k, P);
    MultipleIsScalar(g, q, k', P);
    ScalarInjective(g, q, k, k', b);
    ScalarInjective(g, q, m, m', b);
    EncInjective(g, Multiple(g, k, b), Multiple(g, k', b));
    var x, y := g.add(Multiple(g, m, b), Multiple(g, k, P)), g.add(Multiple(g, m', b), Multiple(g, k', P));
    EncInjective(g, x, y);
    if Eq(q, k, k') {
      ScalarCongruent(g, q, k, k', P);
      if x == y {
        Cancel(g, Multiple(g, m, b), Multiple(g, m', b), Multiple(g, k, P));
      }
    }
  }

  /** Two encryptions of one amount under one key are the same exactly when their masks are. */
  lemma EncryptionsAgree(c: Curve, P: Affine, amount: int, r: Option<int>, drawn: int, k: int, r': Option<int>,
                         drawn': int, k': int)
    requires PrimeBase(c) && Elements(c.f).elem(P) && 0 <= amount < U64
    requires Masks(c, r, drawn, k) && Masks(c, r', drawn', k')
    ensures Encrypt(c, Elements(c.f).enc(P), amount, r, drawn) == Encrypt(c, Elements(c.f).enc(P), amount, r', drawn')
       <==> k == k'
  {
    PrimeBaseFacts(c);
    hide PrimeBase, Elements, Laws, PrimeOrder, Curve.Valid, Base, Divides, Encrypt, CipherOf, Fits;
    EncryptExact(c, P, amount, r, drawn, k);
    EncryptExact(c, P, amount, r', drawn', k');
    CipherInjective(c, P, amount, k, amount, k');
    EqRefl(c.order, amount);
    EqRefl(c.order, k);
    MasksInRange(c, r, drawn, k);
    MasksInRange(c, r', drawn', k');
    if Eq(c.order, k, k') {
      EqSmall(c.order, k, k');
    }
  }

  lemma MasksInRange(c: Curve, r: Option<int>, drawn: int, k: int)
    requires c.order > 0 && Masks(c, r, drawn, k)
    ensures 0 <= k < c.order
  {
    hide Divides;
  }
}
