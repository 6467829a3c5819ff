/** What the CLI's cipher promises: decryption of any history of encryptions, homomorphic
    additions, subtractions and re-randomisations recovers the plain balance. */
module CliLedger {
  import opened Numbers
  import opened Bytes
  import opened Wrappers
  import opened Groups
  import opened Scalars
  import opened DiscreteLog
  import opened Field25519
  import opened EdwardsGroup
  import E = EdwardsPoint
  import opened Ristretto
  import opened RistrettoBytes
  import opened RistrettoElements
  import opened CliElGamal

  ghost function Base(c: Curve): Affine
    requires c.Valid()
  {
    var p := Decode(c.f, c.base).value;
    Affine(p.X, p.Y)
  }

  /** ct is (R, e + secret*R), as strings, for the first component e1 = R. */
  ghost predicate EncryptsWith(c: Curve, secret: int, ct: Ciphertext, e: Affine, e1: Affine)
    requires c.Valid()
  {
    var g := Elements(c.f);
    && g.elem(e) && g.elem(e1)
    && ct.c1 == g.enc(e1) && ct.c2 == g.enc(g.add(e, Times(g, secret % c.order, e1)))
  }

  ghost predicate Encrypts(c: Curve, secret: int, ct: Ciphertext, e: Affine)
    requires c.Valid()
  {
    exists e1: Affine :: EncryptsWith(c, secret, ct, e, e1)
  }

  lemma CurveFacts(c: Curve)
    requires c.Valid()
    ensures Fits(c.f) && c.f.Valid() && c.f.p >= 5 && c.order >= U64 && Decode(c.f, c.base).Ok?
  {
  }

  lemma BaseElement(c: Curve)
    requires c.Valid()
    ensures c.f.p >= 5 && Laws(Elements(c.f)) && Elements(c.f).elem(Base(c))
    ensures Decode(c.f, c.base) == Ok(Extended(c.f, Base(c))) && Denotes(c.f, Extended(c.f, Base(c)), Base(c))
  {
    hide Elements, Decode, Laws, Member, Fits, Curve.Valid, Denotes, Bound, Params.Valid, Extended;
    CurveFacts(c);
    ElementsLaws(c.f);
    var e := AcceptedElement(c.f, c.base);
    ExtendedFields(c.f, e);
    ReadElement(c.f, e);
  }

  lemma ExtendedFields(f: Params, e: Affine)
    requires f.p > 0
    ensures Affine(Extended(f, e).X, Extended(f, e).Y) == e
  {
  }

  lemma MaskSwaps<T(!new)>(g: Group<T>, r: nat, s: nat, a: T)
    requires Laws(g) && g.elem(a)
    ensures Times(g, r, Times(g, s, a)) == Times(g, s, Times(g, r, a))
  {
    hide Laws;
    var n: nat := NatProduct(r, s);
    TimesTimes(g, r, s, n, a);
    TimesTimes(g, s, r, n, a);
  }

  // ---------------------------------------------------------------- keys and encryption

  lemma PublicKeySpec(c: Curve, secret: int)
    requires c.Valid()
    ensures var g := Elements(c.f);
            var e := Times(g, secret % c.order, Base(c));
            && PublicKey(c, secret) == Ok(g.enc(e)) && g.elem(e)
            && Decode(c.f, g.enc(e)) == Ok(Extended(c.f, e)) && Denotes(c.f, Extended(c.f, e), e)
  {
    hide Elements, Decode, Encode, Laws, Member, Fits, Curve.Valid, Denotes, Bound, Params.Valid, Extended;
    hide E.ScalarMul, Base;
    CurveFacts(c);
    BaseElement(c);
    var e := Times(Elements(c.f), secret % c.order, Base(c));
    DenotesScalarMul(c.f, c.order, Extended(c.f, Base(c)), Base(c), secret);
    WriteElement(c.f, E.ScalarMul(c.f, c.order, Extended(c.f, Base(c)), secret), e);
    ReadElement(c.f, e);
  }

  /** Generated keys match; the secret is the seed's digest, or the scalar drawn without a seed, or the second draw
      where the digest reduces to zero; so it is zero only when both draws reduce to zero. */
  lemma KeygenSpec(c: Curve, digest: Option<seq<Byte>>, drawn: int, entropy: seq<Byte>)
    requires c.Valid() && 1 <= drawn < c.order
    ensures Keygen(c, digest, drawn, entropy).Ok?
    ensures var (secret, public) := Keygen(c, digest, drawn, entropy).value;
            && 0 <= secret < c.order && PublicKey(c, secret) == Ok(public)
            && (secret == 0 <==> digest.Some? && FromLE(digest.value) % c.order == 0 && FromLE(entropy) % c.order == 0)
            && (digest.None? ==> secret == drawn)
            && (digest.Some? && FromLE(digest.value) % c.order != 0 ==> secret == FromLE(digest.value) % c.order)
            && (digest.Some? && FromLE(digest.value) % c.order == 0 ==> secret == FromLE(entropy) % c.order)
  {
    hide Elements, Decode, Encode, Laws, Fits, Curve.Valid, Bound, Params.Valid, PublicKey, FromLE, Base, Denotes;
    CurveFacts(c);
    var first := if digest.Some? then FromLE(digest.value) % c.order else drawn;
    PublicKeySpec(c, if first == 0 then FromLE(entropy) % c.order else first);
  }

  /** Encryption succeeds for every 64-bit amount and every randomness, and encrypts amount*G. */
  lemma EncryptSpec(c: Curve, secret: int, pk: seq<Byte>, amount: int, randomness: Option<int>, drawn: int)
    requires c.Valid() && PublicKey(c, secret) == Ok(pk) && 0 <= amount < U64
    ensures Encrypt(c, pk, amount, randomness, drawn).Ok?
    ensures Encrypts(c, secret, Encrypt(c, pk, amount, randomness, drawn).value, Times(Elements(c.f), amount, Base(c)))
  {
    hide Elements, Decode, Encode, Laws, Member, Fits, Curve.Valid, Denotes, Bound, Params.Valid, Extended;
    hide E.ScalarMul, Base, E.Add, Nonce, PublicKey, Divides, IsPrime;
    CurveFacts(c);
    BaseElement(c);
    PublicKeySpec(c, secret);
    var f, g, b := c.f, Elements(c.f), Base(c);
    var r, s := Nonce(c, randomness, drawn), secret % c.order;
    var k := r % c.order;
    var pkElement, mask, m := Times(g, s, b), Times(g, k, b), Times(g, amount, b);
    DenotesScalarMul(f, c.order, Extended(f, b), b, r);
    DenotesScalarMul(f, c.order, Extended(f, b), b, amount);
    DenotesScalarMul(f, c.order, Extended(f, pkElement), pkElement, r);
    ModSmall(c.order, amount);
    var p1 := E.ScalarMul(f, c.order, Extended(f, b), r);
    var pm := E.ScalarMul(f, c.order, Extended(f, b), amount);
    var pr := E.ScalarMul(f, c.order, Extended(f, pkElement), r);
    RepresentativeSum(f, pm, pr, m, Times(g, k, pkElement));
    WriteElement(f, p1, mask);
    WriteElement(f, E.Add(f, pm, pr), g.add(m, Times(g, k, pkElement)));
    MaskSwaps(g, k, s, b);
    TimesElem(g, amount, b);
    assert EncryptsWith(c, secret, Encrypt(c, pk, amount, randomness, drawn).value, m, mask);
  }

  /** The error cases of encryption under a well-formed key. */
  lemma EncryptRejects(c: Curve, pk: seq<Byte>, amount: int, randomness: Option<int>, drawn: int)
    requires c.Valid()
    ensures Encrypt(c, pk, amount, randomness, drawn).Ok? <==> 0 <= amount < U64 && Decode(c.f, pk).Ok?
  {
    hide Elements, Decode, Encode, Laws, Member, Fits, Curve.Valid, Denotes, Bound, Params.Valid, Extended;
    hide E.ScalarMul, Base, E.Add, Nonce;
    CurveFacts(c);
  }

  // ---------------------------------------------------------------- homomorphic operations

  /** Adding or subtracting encodings componentwise. */
  lemma ComponentSum(f: Params, x: Affine, y: Affine)
    requires Fits(f) && Elements(f).elem(x) && Elements(f).elem(y)
    ensures var g := Elements(f);
            && Decode(f, g.enc(x)) == Ok(Extended(f, x)) && Decode(f, g.enc(y)) == Ok(Extended(f, y))
            && Encode(f, E.Add(f, Extended(f, x), Extended(f, y))) == g.enc(g.add(x, y))
            && Encode(f, E.Add(f, Extended(f, x), E.Negate(f, Extended(f, y)))) == g.enc(g.add(x, g.neg(y)))
  {
    hide Elements, Decode, Encode, Laws, Member, Denotes, Extended, E.Add, E.Negate, Fits, Bound, Params.Valid;
    Fitting(f);
    ReadElement(f, x);
    ReadElement(f, y);
    RepresentativeSum(f, Extended(f, x), Extended(f, y), x, y);
    WriteElement(f, E.Add(f, Extended(f, x), Extended(f, y)), Elements(f).add(x, y));
    WriteElement(f, E.Add(f, Extended(f, x), E.Negate(f, Extended(f, y))), Elements(f).add(x, Elements(f).neg(y)));
  }

  lemma CipherElements<T(!new)>(g: Group<T>, s: nat, e: T, e1: T)
    requires Laws(g) && g.elem(e) && g.elem(e1)
    ensures g.elem(Times(g, s, e1)) && g.elem(g.add(e, Times(g, s, e1)))
  {
    hide Laws;
    TimesElem(g, s, e1);
    AddElem(g, e, Times(g, s, e1));
  }

  /** (a + s*a1) + (b + s*b1) = (a + b) + s*(a1 + b1), and the same for differences. */
  lemma CipherAlgebra<T(!new)>(g: Group<T>, s: nat, a: T, a1: T, b: T, b1: T)
    requires Laws(g) && g.elem(a) && g.elem(a1) && g.elem(b) && g.elem(b1)
    ensures g.add(g.add(a, Times(g, s, a1)), g.add(b, Times(g, s, b1)))
         == g.add(g.add(a, b), Times(g, s, g.add(a1, b1)))
    ensures g.elem(g.add(a, b)) && g.elem(g.add(a1, b1))
  {
    hide Laws;
    TimesElem(g, s, a1);
    TimesElem(g, s, b1);
    AddElem(g, a, b);
    AddElem(g, a1, b1);
    TimesOfSum(g, s, a1, b1);
    Interchange(g, a, Times(g, s, a1), b, Times(g, s, b1));
  }

  lemma CipherDifference<T(!new)>(g: Group<T>, s: nat, a: T, a1: T, b: T, b1: T)
    requires Laws(g) && g.elem(a) && g.elem(a1) && g.elem(b) && g.elem(b1)
    ensures g.add(g.add(a, Times(g, s, a1)), g.neg(g.add(b, Times(g, s, b1))))
         == g.add(g.add(a, g.neg(b)), Times(g, s, g.add(a1, g.neg(b1))))
    ensures g.elem(g.add(a, g.neg(b))) && g.elem(g.add(a1, g.neg(b1)))
  {
    hide Laws;
    TimesElem(g, s, b1);
    AddNeg(g, b);
    AddNeg(g, b1);
    NegAdd(g, b, Times(g, s, b1));
    TimesOfNeg(g, s, b1);
    CipherAlgebra(g, s, a, a1, g.neg(b), g.neg(b1));
  }

  lemma TimesOfNeg<T(!new)>(g: Group<T>, s: nat, a: T)
    requires Laws(g) && g.elem(a)
    ensures Times(g, s, g.neg(a)) == g.neg(Times(g, s, a))
  {
    hide Laws;
    AddNeg(g, a);
    TimesElem(g, s, a);
    TimesElem(g, s, g.neg(a));
    TimesOfSum(g, s, a, g.neg(a));
    TimesOfZero(g, s);
    NegUnique(g, Times(g, s, a), Times(g, s, g.neg(a)));
  }

  /** Adding ciphertexts adds plaintexts. */
  lemma HomomorphicAddSpec(c: Curve, secret: int, x: Ciphertext, y: Ciphertext, a: Affine, b: Affine)
    requires c.Valid() && Encrypts(c, secret, x, a) && Encrypts(c, secret, y, b)
    ensures HomomorphicAdd(c.f, x, y).Ok?
    ensures Encrypts(c, secret, HomomorphicAdd(c.f, x, y).value, Elements(c.f).add(a, b))
  {
    hide Elements, Decode, Encode, Laws, Member, Denotes, Extended, E.Add, Fits, Bound, Params.Valid, Curve.Valid, Base;
    CurveFacts(c);
    BaseElement(c);
    var f, g, s := c.f, Elements(c.f), secret % c.order;
    var a1: Affine :| EncryptsWith(c, secret, x, a, a1);
    var b1: Affine :| EncryptsWith(c, secret, y, b, b1);
    CipherElements(g, s, a, a1);
    CipherElements(g, s, b, b1);
    ComponentSum(f, a1, b1);
    ComponentSum(f, g.add(a, Times(g, s, a1)), g.add(b, Times(g, s, b1)));
    CipherAlgebra(g, s, a, a1, b, b1);
    assert EncryptsWith(c, secret, HomomorphicAdd(f, x, y).value, g.add(a, b), g.add(a1, b1));
  }

  /** Subtracting ciphertexts subtracts plaintexts. */
  lemma HomomorphicSubSpec(c: Curve, secret: int, x: Ciphertext, y: Ciphertext, a: Affine, b: Affine)
    requires c.Valid() && Encrypts(c, secret, x, a) && Encrypts(c, secret, y, b)
    ensures HomomorphicSub(c.f, x, y).Ok?
    ensures Encrypts(c, secret, HomomorphicSub(c.f, x, y).value, Elements(c.f).add(a, Elements(c.f).neg(b)))
  {
    hide Elements, Decode, Encode, Laws, Member, Denotes, Extended, E.Add, E.Negate, Fits, Bound, Params.Valid;
    hide Curve.Valid, Base;
    CurveFacts(c);
    BaseElement(c);
    var f, g, s := c.f, Elements(c.f), secret % c.order;
    var a1: Affine :| EncryptsWith(c, secret, x, a, a1);
    var b1: Affine :| EncryptsWith(c, secret, y, b, b1);
    CipherElements(g, s, a, a1);
    CipherElements(g, s, b, b1);
    ComponentSum(f, a1, b1);
    ComponentSum(f, g.add(a, Times(g, s, a1)), g.add(b, Times(g, s, b1)));
    CipherDifference(g, s, a, a1, b, b1);
    assert EncryptsWith(c, secret, HomomorphicSub(f, x, y).value, g.add(a, g.neg(b)), g.add(a1, g.neg(b1)));
  }

  /** Re-randomising under the same key leaves the plaintext. */
  lemma RandomizeSpec(c: Curve, secret: int, pk: seq<Byte>, x: Ciphertext, a: Affine, drawn: int)
    requires c.Valid() && PublicKey(c, secret) == Ok(pk) && Encrypts(c, secret, x, a)
    ensures Randomize(c, x, pk, drawn).Ok?
    ensures Encrypts(c, secret, Randomize(c, x, pk, drawn).value, a)
  {
    hide Elements, Decode, Encode, Laws, Member, Denotes, Extended, E.Add, E.ScalarMul, Fits, Bound, Params.Valid;
    hide Curve.Valid, Base;
    CurveFacts(c);
    BaseElement(c);
    PublicKeySpec(c, secret);
    var f, g, b, s := c.f, Elements(c.f), Base(c), secret % c.order;
    var a1: Affine :| EncryptsWith(c, secret, x, a, a1);
    var k := drawn % c.order;
    var pkElement, c2 := Times(g, s, b), g.add(a, Times(g, s, a1));
    CipherElements(g, s, a, a1);
    ReadElement(f, a1);
    ReadElement(f, c2);
    DenotesScalarMul(f, c.order, Extended(f, b), b, drawn);
    DenotesScalarMul(f, c.order, Extended(f, pkElement), pkElement, drawn);
    var q1 := E.ScalarMul(f, c.order, Extended(f, b), drawn);
    var q2 := E.ScalarMul(f, c.order, Extended(f, pkElement), drawn);
    RepresentativeSum(f, Extended(f, a1), q1, a1, Times(g, k, b));
    RepresentativeSum(f, Extended(f, c2), q2, c2, Times(g, k, pkElement));
    WriteElement(f, E.Add(f, Extended(f, a1), q1), g.add(a1, Times(g, k, b)));
    WriteElement(f, E.Add(f, Extended(f, c2), q2), g.add(c2, Times(g, k, pkElement)));
    MaskSwaps(g, k, s, b);
    Refreshed(g, s, a, a1, Times(g, k, b), Times(g, k, pkElement), b, k);
    assert EncryptsWith(c, secret, Randomize(c, x, pk, drawn).value, a, g.add(a1, Times(g, k, b)));
  }

  lemma Refreshed<T(!new)>(g: Group<T>, s: nat, a: T, a1: T, z1: T, z2: T, b: T, k: nat)
    requires Laws(g) && g.elem(a) && g.elem(a1) && g.elem(b) && z1 == Times(g, k, b) && z2 == Times(g, s, z1)
    ensures g.elem(g.add(a1, z1)) && g.add(g.add(a, Times(g, s, a1)), z2) == g.add(a, Times(g, s, g.add(a1, z1)))
  {
    hide Laws;
    TimesElem(g, k, b);
    TimesElem(g, s, a1);
    TimesElem(g, s, z1);
    AddElem(g, a1, z1);
    TimesOfSum(g, s, a1, z1);
    AddAssociates(g, a, Times(g, s, a1), z2);
  }

  // ---------------------------------------------------------------- decryption

  /** Removing the mask leaves the plaintext element. */
  lemma UnmaskedSpec(c: Curve, secret: int, ct: Ciphertext, e: Affine) returns (c1: E.Point, c2: E.Point)
    requires c.Valid() && Encrypts(c, secret, ct, e)
    ensures c.f.p >= 5 && Decode(c.f, ct.c1) == Ok(c1) && Decode(c.f, ct.c2) == Ok(c2)
    ensures Denotes(c.f, Unmasked(c, secret, c1, c2), e)
  {
    hide Elements, Decode, Encode, Laws, Member, Denotes, Extended, E.Add, E.Negate, E.ScalarMul, Fits, Bound;
    hide Params.Valid, Curve.Valid, Base;
    CurveFacts(c);
    BaseElement(c);
    var f, g, s := c.f, Elements(c.f), secret % c.order;
    var e1: Affine :| EncryptsWith(c, secret, ct, e, e1);
    var mask := Times(g, s, e1);
    CipherElements(g, s, e, e1);
    ReadElement(f, e1);
    ReadElement(f, g.add(e, mask));
    c1, c2 := Extended(f, e1), Extended(f, g.add(e, mask));
    DenotesScalarMul(f, c.order, c1, e1, secret);
    RepresentativeSum(f, c2, E.ScalarMul(f, c.order, c1, secret), g.add(e, mask), mask);
    AddNeg(g, mask);
    AddAssociates(g, e, mask, g.neg(mask));
    AddZero(g, e);
  }

  /** Every ciphertext of two strings that decode encrypts some element, under every secret; so what is said of
      decryption below covers them all. The others meet the error of the first string that does not decode. */
  lemma EveryCiphertext(c: Curve, secret: int, ct: Ciphertext) returns (e: Affine)
    requires c.Valid() && Decode(c.f, ct.c1).Ok? && Decode(c.f, ct.c2).Ok?
    ensures Encrypts(c, secret, ct, e)
  {
    hide Elements, Decode, Laws, Denotes, Extended, Fits, Bound, Params.Valid, Curve.Valid, Base;
    CurveFacts(c);
    BaseElement(c);
    var g := Elements(c.f);
    var e1 := AcceptedElement(c.f, ct.c1);
    var e2 := AcceptedElement(c.f, ct.c2);
    var mask := Times(g, secret % c.order, e1);
    TimesElem(g, secret % c.order, e1);
    AddNeg(g, mask);
    e := g.add(e2, g.neg(mask));
    AddAssociates(g, e2, g.neg(mask), mask);
    AddZero(g, e2);
    assert EncryptsWith(c, secret, ct, e, e1);
  }

  lemma DecryptErrors(c: Curve, secret: int, ct: Ciphertext, bound: int)
    requires c.Valid()
    ensures var r := Decrypt(c, secret, ct, bound);
            && (bound < 0 ==> r == Err(NegativeBound))
            && (bound >= 0 && Decode(c.f, ct.c1).Err? ==> r == Err(Decode(c.f, ct.c1).error))
            && (bound >= 0 && Decode(c.f, ct.c1).Ok? && Decode(c.f, ct.c2).Err? ==> r == Err(Decode(c.f, ct.c2).error))
  {
    hide Decode, Fits, Bound, Params.Valid, Unmasked, Scan;
    CurveFacts(c);
  }

  function AsOption(r: Result<int, CryptoError>): Option<int> {
    match r
    case Ok(k) => Some(k)
    case Err(_) => None
  }

  lemma {:induction false} ScanSpec(f: Params, base: E.Point, cursor: E.Point, target: E.Point, m: nat, bound: int,
                                    b: Affine, e: Affine)
    requires Fits(f) && Denotes(f, base, b) && Denotes(f, target, e) && Denotes(f, cursor, Times(Elements(f), m, b))
    requires m <= bound && forall j: nat :: j < m ==> Times(Elements(f), j, b) != e
    ensures IsLeastLog(Elements(f), b, e, bound, AsOption(Scan(f, base, cursor, target, m, bound)))
    ensures Scan(f, base, cursor, target, m, bound).Err? ==> Scan(f, base, cursor, target, m, bound) == Err(NotFound)
    decreases bound - m
  {
    hide Elements, Denotes, E.Add, RistrettoEqual, Fits, Bound, Params.Valid;
    Fitting(f);
    var g := Elements(f);
    DenotesEqual(f, cursor, target, Times(g, m, b), e);
    if !RistrettoEqual(f, cursor, target) && m < bound {
      RepresentativeSum(f, cursor, base, Times(g, m, b), b);
      assert Times(g, m + 1, b) == g.add(Times(g, m, b), b);
      ScanSpec(f, base, E.Add(f, cursor, base), target, m + 1, bound, b, e);
    }
  }

  /** Decryption returns the least amount in range whose multiple of G is the plaintext, and fails exactly when none
      is. */
  lemma DecryptSpec(c: Curve, secret: int, ct: Ciphertext, e: Affine, bound: int)
    requires c.Valid() && Encrypts(c, secret, ct, e)
    ensures var r := Decrypt(c, secret, ct, bound);
            if bound < 0 then r == Err(NegativeBound)
            else IsLeastLog(Elements(c.f), Base(c), e, bound, AsOption(r)) && (r.Err? ==> r == Err(NotFound))
  {
    hide Elements, Decode, Laws, Denotes, Extended, Unmasked, Scan, Fits, Bound, Params.Valid, Curve.Valid, Base;
    hide IsLeastLog, Encrypts;
    CurveFacts(c);
    BaseElement(c);
    if bound >= 0 {
      var c1, c2 := UnmaskedSpec(c, secret, ct, e);
      DenotesIdentity(c.f);
      ElementsFields(c.f, e, e);
      ScanSpec(c.f, Extended(c.f, Base(c)), E.Identity, Unmasked(c, secret, c1, c2), 0, bound, Base(c), e);
    }
  }

  /** Without any assumption on the order of G: what was encrypted comes back up to the first
      smaller amount with the same multiple of G, for every key, amount and randomness. */
  lemma DecryptOfEncrypt(c: Curve, secret: int, pk: seq<Byte>, amount: int, randomness: Option<int>, drawn: int,
                         bound: int)
    requires c.Valid() && PublicKey(c, secret) == Ok(pk) && 0 <= amount < U64
    ensures Encrypt(c, pk, amount, randomness, drawn).Ok?
    ensures var r := Decrypt(c, secret, Encrypt(c, pk, amount, randomness, drawn).value, bound);
            var target := Times(Elements(c.f), amount, Base(c));
            if bound < 0 then r == Err(NegativeBound)
            else if amount <= bound then
              r.Ok? && 0 <= r.value <= amount && IsLeastLog(Elements(c.f), Base(c), target, bound, Some(r.value))
            else IsLeastLog(Elements(c.f), Base(c), target, bound, AsOption(r)) && (r.Err? ==> r == Err(NotFound))
  {
    hide Elements, Laws, Curve.Valid, Base, Encrypts, Decrypt, Encrypt, PublicKey;
    CurveFacts(c);
    EncryptSpec(c, secret, pk, amount, randomness, drawn);
    DecryptSpec(c, secret, Encrypt(c, pk, amount, randomness, drawn).value, Times(Elements(c.f), amount, Base(c)),
                bound);
  }

  // ---------------------------------------------------------------- the ledger

  /** ct encrypts the integer m. */
  ghost predicate Holds(c: Curve, secret: int, ct: Ciphertext, m: int)
    requires c.Valid()
  {
    Encrypts(c, secret, ct, Multiple(Elements(c.f), m, Base(c)))
  }

  /** What the CLI can do to ciphertexts under one key. */
  datatype History =
    | Encrypted(amount: int, randomness: Option<int>, drawn: int)
    | Added(left: History, right: History)
    | Subtracted(left: History, right: History)
    | Randomized(inner: History, drawn: int)

  function Evaluate(c: Curve, pk: seq<Byte>, h: History): Result<Ciphertext, CryptoError>
    requires c.f.p >= 5 && c.order > 0
  {
    match h
    case Encrypted(amount, randomness, drawn) => Encrypt(c, pk, amount, randomness, drawn)
    case Added(l, r) =>
      var a :- Evaluate(c, pk, l);
      var b :- Evaluate(c, pk, r);
      HomomorphicAdd(c.f, a, b)
    case Subtracted(l, r) =>
      var a :- Evaluate(c, pk, l);
      var b :- Evaluate(c, pk, r);
      HomomorphicSub(c.f, a, b)
    case Randomized(i, drawn) =>
      var a :- Evaluate(c, pk, i);
      Randomize(c, a, pk, drawn)
  }

  function Balance(h: History): int {
    match h
    case Encrypted(amount, _, _) => amount
    case Added(l, r) => Balance(l) + Balance(r)
    case Subtracted(l, r) => Balance(l) - Balance(r)
    case Randomized(i, _) => Balance(i)
  }

  predicate AmountsInRange(h: History) {
    match h
    case Encrypted(amount, _, _) => 0 <= amount < U64
    case Added(l, r) => AmountsInRange(l) && AmountsInRange(r)
    case Subtracted(l, r) => AmountsInRange(l) && AmountsInRange(r)
    case Randomized(i, _) => AmountsInRange(i)
  }

  /** Under a well-formed key a history succeeds exactly when its amounts are in range, and then encrypts its balance.
      Nothing is assumed of the order of G. */
  lemma {:induction false} EvaluateHolds(c: Curve, secret: int, pk: seq<Byte>, h: History)
    requires c.Valid() && PublicKey(c, secret) == Ok(pk)
    ensures Evaluate(c, pk, h).Ok? <==> AmountsInRange(h)
    ensures Evaluate(c, pk, h).Ok? ==> Holds(c, secret, Evaluate(c, pk, h).value, Balance(h))
  {
    hide Elements, Laws, Curve.Valid, Base, Encrypts, Encrypt, HomomorphicAdd, HomomorphicSub, Randomize, PublicKey;
    hide Multiple;
    CurveFacts(c);
    BaseElement(c);
    var g, b := Elements(c.f), Base(c);
    match h
    case Encrypted(amount, randomness, drawn) =>
      if 0 <= amount < U64 {
        EncryptSpec(c, secret, pk, amount, randomness, drawn);
        TimesIsMultiple(g, amount, b);
      }
      EncryptRejects(c, pk, amount, randomness, drawn);
    case Added(l, r) =>
      EvaluateHolds(c, secret, pk, l);
      EvaluateHolds(c, secret, pk, r);
      if AmountsInRange(h) {
        var x, y := Evaluate(c, pk, l).value, Evaluate(c, pk, r).value;
        HomomorphicAddSpec(c, secret, x, y, Multiple(g, Balance(l), b), Multiple(g, Balance(r), b));
        MultipleSum(g, Balance(l), Balance(r), b);
      }
    case Subtracted(l, r) =>
      EvaluateHolds(c, secret, pk, l);
      EvaluateHolds(c, secret, pk, r);
      if AmountsInRange(h) {
        var x, y := Evaluate(c, pk, l).value, Evaluate(c, pk, r).value;
        HomomorphicSubSpec(c, secret, x, y, Multiple(g, Balance(l), b), Multiple(g, Balance(r), b));
        MultipleSum(g, Balance(l), -Balance(r), b);
        MultipleNeg(g, Balance(r), b);
      }
    case Randomized(i, drawn) =>
      EvaluateHolds(c, secret, pk, i);
      if AmountsInRange(h) {
        RandomizeSpec(c, secret, pk, Evaluate(c, pk, i).value, Multiple(g, Balance(i), b), drawn);
      }
  }

  lemma TimesIsMultiple<T>(g: Group<T>, n: nat, a: T)
    ensures Multiple(g, n, a) == Times(g, n, a)
  {
  }

  /** Decryption after any such history returns the least amount in range with the same multiple of G as the balance. */
  lemma LedgerScans(c: Curve, secret: int, pk: seq<Byte>, h: History, bound: int)
    requires c.Valid() && PublicKey(c, secret) == Ok(pk) && AmountsInRange(h)
    ensures Evaluate(c, pk, h).Ok?
    ensures var r := Decrypt(c, secret, Evaluate(c, pk, h).value, bound);
            if bound < 0 then r == Err(NegativeBound)
            else IsLeastLog(Elements(c.f), Base(c), Multiple(Elements(c.f), Balance(h), Base(c)), bound, AsOption(r))
                 && (r.Err? ==> r == Err(NotFound))
  {
    hide Elements, Laws, Curve.Valid, Base, Encrypts, Decrypt, PublicKey, IsLeastLog, Evaluate, Multiple;
    CurveFacts(c);
    EvaluateHolds(c, secret, pk, h);
    DecryptSpec(c, secret, Evaluate(c, pk, h).value, Multiple(Elements(c.f), Balance(h), Base(c)), bound);
  }

  /** The scalar modulus is the order of the group and the base point is not neutral. */
  ghost predicate PrimeBase(c: Curve) {
    && c.Valid()
    && PrimeOrder(Elements(c.f), c.order)
    && Base(c) != Elements(c.f).zero
  }

  lemma PrimeBaseFacts(c: Curve)
    requires PrimeBase(c)
    ensures c.Valid() && Fits(c.f) && c.f.p >= 5 && c.order >= U64 && PrimeOrder(Elements(c.f), c.order)
    ensures Elements(c.f).elem(Base(c)) && Base(c) != Elements(c.f).zero
  {
    hide Elements, Laws, PrimeOrder, Curve.Valid, Base, Decode, Extended, Denotes;
    CurveFacts(c);
    BaseElement(c);
  }

  /** If moreover G has prime order, any history decrypts to its balance modulo that order, if in range. */
  lemma LedgerDecrypts(c: Curve, secret: int, pk: seq<Byte>, h: History, bound: int)
    requires PrimeBase(c) && PublicKey(c, secret) == Ok(pk) && AmountsInRange(h)
    ensures Evaluate(c, pk, h).Ok?
    ensures Decrypt(c, secret, Evaluate(c, pk, h).value, bound) ==
            if bound < 0 then Err(NegativeBound)
            else if Balance(h) % c.order <= bound then Ok(Balance(h) % c.order)
            else Err(NotFound)
  {
    hide PrimeBase, Elements, Laws, PrimeOrder, Curve.Valid, Base, Decrypt, PublicKey, IsLeastLog, Evaluate, Multiple;
    PrimeBaseFacts(c);
    LedgerScans(c, secret, pk, h, bound);
    var g, b, ct := Elements(c.f), Base(c), Evaluate(c, pk, h).value;
    MultipleIsScalar(g, c.order, Balance(h), b);
    if bound >= 0 {
      LeastLogOfScalar(g, c.order, b, Balance(h), bound, AsOption(Decrypt(c, secret, ct, bound)));
    }
  }
}
