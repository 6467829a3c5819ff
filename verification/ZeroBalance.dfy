/** The proof that a ciphertext encrypts zero. */
module ZeroBalance {
  import opened Numbers
  import opened Bytes
  import opened Wrappers
  import opened Groups
  import opened Scalars
  import opened SdkGroup
  import opened ScalarCodec
  import opened ByteTools
  import opened ModularInverse
  import opened Sigma
  import opened TE = TwistedElGamal

  datatype ZeroProof = ZeroProof(proofBytes: seq<Byte>, ciphertext: Ciphertext)

  function ChallengeOf(q: int, hash: Hash, pk: seq<Byte>, ct: Ciphertext, a1: seq<Byte>, a2: seq<Byte>): int
    requires q > 0
  {
    Challenge(q, hash, ZERO_BALANCE_DOMAIN, [pk, ct.c1, ct.c2, a1, a2])
  }

  /** The challenge is the digest of the domain, the key, the ciphertext and the commitments, in this order; and it
      depends on all of them. */
  lemma ChallengeInputs(q: int, pk: seq<Byte>, ct: Ciphertext, a1: seq<Byte>, a2: seq<Byte>,
                        pk': seq<Byte>, ct': Ciphertext, a1': seq<Byte>, a2': seq<Byte>) returns (text: seq<Byte>)
    requires q > 1 && |pk| == |ct.c1| == |ct.c2| == |a1| == |a2| == 32
    requires |pk'| == |ct'.c1| == |ct'.c2| == |a1'| == |a2'| == 32
    ensures Spells(text, ZERO_BALANCE_DOMAIN, [pk, ct.c1, ct.c2, a1, a2])
    ensures forall hash: Hash :: ChallengeOf(q, hash, pk, ct, a1, a2) == FromLE(hash(text)) % q
    ensures (forall hash: Hash :: ChallengeOf(q, hash, pk, ct, a1, a2) == ChallengeOf(q, hash, pk', ct', a1', a2'))
       <==> pk == pk' && ct == ct' && a1 == a1' && a2 == a2'
  {
    hide Challenge, Spells, FromLE;
    var m, m' := [pk, ct.c1, ct.c2, a1, a2], [pk', ct'.c1, ct'.c2, a1', a2'];
    text := ChallengeString(q, ZERO_BALANCE_DOMAIN, m);
    ChallengeBinds(q, ZERO_BALANCE_DOMAIN, m, m');
    assert m == m' ==> m[0] == m'[0] && m[1] == m'[1] && m[2] == m'[2] && m[3] == m'[3] && m[4] == m'[4];
    forall hash: Hash ensures ChallengeOf(q, hash, pk, ct, a1, a2) == Challenge(q, hash, ZERO_BALANCE_DOMAIN, m)
                           && ChallengeOf(q, hash, pk', ct', a1', a2') == Challenge(q, hash, ZERO_BALANCE_DOMAIN, m') {
    }
  }

  /** `t` is the random scalar. */
  function Prove<T(!new)>(s: Setup<T>, hash: Hash, pk: seq<Byte>, ct: Ciphertext, r: int,
                          t: int): Result<ZeroProof, SdkError>
    requires s.q > 0
  {
    var pkPoint :- PointFromBytes(s.g, pk);
    var A1 :- MultBase(s.g, s.q, s.G, t);
    var A2 :- Multiply(s.g, s.q, pkPoint, t);
    var c := ChallengeOf(s.q, hash, pk, ct, s.g.enc(A1), s.g.enc(A2));
    var z := Respond(s.q, t, c, r % s.q);
    Ok(ZeroProof(Concat([s.g.enc(A1), s.g.enc(A2), ScalarToLE32(s.q, z)]), ct))
  }

  function Check<T(!new)>(s: Setup<T>, hash: Hash, pk: seq<Byte>, proof: ZeroProof): Result<bool, SdkError>
    requires s.q > 0 && |proof.proofBytes| == 96
  {
    var pkPoint :- PointFromBytes(s.g, pk);
    var A1 :- PointFromBytes(s.g, Field(proof.proofBytes, 0));
    var A2 :- PointFromBytes(s.g, Field(proof.proofBytes, 1));
    var z :- ScalarFromLE32(s.q, Field(proof.proofBytes, 2));
    var c1 :- PointFromBytes(s.g, proof.ciphertext.c1);
    var c2 :- PointFromBytes(s.g, proof.ciphertext.c2);
    var c := ChallengeOf(s.q, hash, pk, proof.ciphertext, s.g.enc(A1), s.g.enc(A2));
    var lhs1 :- Multiply(s.g, s.q, s.G, z);
    var cC1 :- Multiply(s.g, s.q, c1, c);
    if !PointsEqual(s.g, lhs1, s.g.add(A1, cC1)) then Ok(false)
    else
      var lhs2 :- Multiply(s.g, s.q, pkPoint, z);
      var cC2 :- Multiply(s.g, s.q, c2, c);
      Ok(PointsEqual(s.g, lhs2, s.g.add(A2, cC2)))
  }

  /** Any exception counts as rejection. */
  predicate Verify<T(!new)>(s: Setup<T>, hash: Hash, pk: seq<Byte>, proof: ZeroProof)
    requires s.q > 0
  {
    |proof.proofBytes| == 96 && Check(s, hash, pk, proof) == Ok(true)
  }

  /** The points and numbers a proof of the right length consists of. */
  datatype Parsed<T> = Parsed(P: T, c1: T, c2: T, A1: T, A2: T, c: int, z: int)

  function Parse<T(!new)>(s: Setup<T>, hash: Hash, pk: seq<Byte>, proof: ZeroProof): Result<Parsed<T>, SdkError>
    requires s.q > 0 && |proof.proofBytes| == 96
  {
    var pkPoint :- PointFromBytes(s.g, pk);
    var A1 :- PointFromBytes(s.g, Field(proof.proofBytes, 0));
    var A2 :- PointFromBytes(s.g, Field(proof.proofBytes, 1));
    var c1 :- PointFromBytes(s.g, proof.ciphertext.c1);
    var c2 :- PointFromBytes(s.g, proof.ciphertext.c2);
    Ok(Parsed(pkPoint, c1, c2, A1, A2,
              ChallengeOf(s.q, hash, pk, proof.ciphertext, Field(proof.proofBytes, 0), Field(proof.proofBytes, 1)),
              FromLE(Field(proof.proofBytes, 2)) % s.q))
  }

  /** z*G = A1 + c*C1 and z*P = A2 + c*C2, with non-zero c and z. */
  ghost predicate Equations<T(!new)>(s: Setup<T>, v: Parsed<T>)
    requires s.q > 0
  {
    && v.c != 0 && v.z != 0
    && Accepts(s.g, s.q, Scalar(s.g, s.q, v.z, s.G), v.A1, v.c, v.c1)
    && Accepts(s.g, s.q, Scalar(s.g, s.q, v.z, v.P), v.A2, v.c, v.c2)
  }

  ghost predicate Members<T(!new)>(g: Group<T>, v: Parsed<T>) {
    g.elem(v.P) && g.elem(v.c1) && g.elem(v.c2) && g.elem(v.A1) && g.elem(v.A2)
  }

  lemma ParsedMembers<T(!new)>(s: Setup<T>, hash: Hash, pk: seq<Byte>, proof: ZeroProof)
    requires s.Valid() && |proof.proofBytes| == 96 && Parse(s, hash, pk, proof).Ok?
    ensures var v := Parse(s, hash, pk, proof).value;
            && Members(s.g, v) && 0 <= v.c < s.q && 0 <= v.z < s.q
            && s.g.enc(v.P) == pk && s.g.enc(v.c1) == proof.ciphertext.c1 && s.g.enc(v.c2) == proof.ciphertext.c2
            && s.g.enc(v.A1) == Field(proof.proofBytes, 0) && s.g.enc(v.A2) == Field(proof.proofBytes, 1)
            && v.c == ChallengeOf(s.q, hash, pk, proof.ciphertext, Field(proof.proofBytes, 0),
                                  Field(proof.proofBytes, 1))
  {
    hide PrimeOrder, Laws, Setup<T>.Valid, PointFromBytes, FromLE, Challenge;
    SetupFacts(s);
    ParsedElement(s.g, pk);
    ParsedElement(s.g, proof.ciphertext.c1);
    ParsedElement(s.g, proof.ciphertext.c2);
    ParsedElement(s.g, Field(proof.proofBytes, 0));
    ParsedElement(s.g, Field(proof.proofBytes, 1));
  }

  /** One comparison of the verifier. */
  lemma EquationMeaning<T(!new)>(s: Setup<T>, base: T, z: int, a: T, c: int, w: T)
    requires s.Valid() && s.g.elem(base) && s.g.elem(a) && s.g.elem(w) && 0 <= c < s.q && 0 <= z < s.q
    ensures Multiply(s.g, s.q, base, z).Ok? <==> z != 0
    ensures Multiply(s.g, s.q, w, c).Ok? <==> c != 0
    ensures z != 0 && c != 0 ==>
              (PointsEqual(s.g, Multiply(s.g, s.q, base, z).value, s.g.add(a, Multiply(s.g, s.q, w, c).value))
               <==> Accepts(s.g, s.q, Scalar(s.g, s.q, z, base), a, c, w))
  {
    hide PrimeOrder, Laws, Setup<T>.Valid, Scalar, Multiply;
    SetupFacts(s);
    MultiplyIsScalar(s.g, s.q, base, z);
    MultiplyIsScalar(s.g, s.q, w, c);
    ScalarElem(s.g, s.q, z, base);
    ScalarElem(s.g, s.q, c, w);
    AddElem(s.g, a, Scalar(s.g, s.q, c, w));
    EncInjective(s.g, Scalar(s.g, s.q, z, base), s.g.add(a, Scalar(s.g, s.q, c, w)));
  }

  lemma VerifyMeaning<T(!new)>(s: Setup<T>, hash: Hash, pk: seq<Byte>, proof: ZeroProof)
    requires s.Valid()
    ensures Verify(s, hash, pk, proof) <==>
              |proof.proofBytes| == 96 && Parse(s, hash, pk, proof).Ok? && Equations(s, Parse(s, hash, pk, proof).value)
  {
    hide PrimeOrder, Laws, Setup<T>.Valid, Scalar, PointFromBytes, Multiply, FromLE, Challenge, PointsEqual, Accepts;
    SetupFacts(s);
    if |proof.proofBytes| == 96 && Parse(s, hash, pk, proof).Ok? {
      ParsedMembers(s, hash, pk, proof);
      var v := Parse(s, hash, pk, proof).value;
      EquationMeaning(s, s.G, v.z, v.A1, v.c, v.c1);
      EquationMeaning(s, v.P, v.z, v.A2, v.c, v.c2);
    }
  }

  /** An honest proof about (r*G, r*P) exists exactly when the random scalar is in range, parses back, and is accepted
      unless the challenge or the answer is zero. */
  lemma Completeness<T(!new)>(s: Setup<T>, hash: Hash, P: T, r: int, t: int)
    requires s.Valid() && s.g.elem(P)
    ensures var pk := s.g.enc(P);
            var ct := Ciphertext(s.g.enc(Scalar(s.g, s.q, r, s.G)), s.g.enc(Scalar(s.g, s.q, r, P)));
            var proved := Prove(s, hash, pk, ct, r, t);
            && (proved.Ok? <==> 1 <= t < s.q)
            && (proved.Ok? ==>
                && |proved.value.proofBytes| == 96 && proved.value.ciphertext == ct
                && Field(proved.value.proofBytes, 0) == s.g.enc(Scalar(s.g, s.q, t, s.G))
                && Field(proved.value.proofBytes, 1) == s.g.enc(Scalar(s.g, s.q, t, P))
                && Parse(s, hash, pk, proved.value).Ok?
                && ScalarFromLE32(s.q, Field(proved.value.proofBytes, 2))
                   == Ok(Parse(s, hash, pk, proved.value).value.z)
                && Parse(s, hash, pk, proved.value).value.z
                   == Respond(s.q, t, Parse(s, hash, pk, proved.value).value.c, r % s.q)
                && (Verify(s, hash, pk, proved.value) <==>
                    Parse(s, hash, pk, proved.value).value.c != 0 && Parse(s, hash, pk, proved.value).value.z != 0))
  {
    hide PrimeOrder, Laws, Setup<T>.Valid, Scalar, PointFromBytes, Multiply, MultBase, FromLE, Challenge, Verify;
    hide Concat, Field, Respond, ScalarToLE32, Accepts;
    SetupFacts(s);
    var g, q := s.g, s.q;
    var pk := g.enc(P);
    var ct := Ciphertext(g.enc(Scalar(g, q, r, s.G)), g.enc(Scalar(g, q, r, P)));
    ParseEncoded(g, P);
    MultBaseIsScalar(g, q, s.G, t);
    MultiplyIsScalar(g, q, P, t);
    if 1 <= t < q {
      HonestProof(s, hash, P, r, t);
    }
  }

  lemma HonestProof<T(!new)>(s: Setup<T>, hash: Hash, P: T, r: int, t: int)
    requires s.Valid() && s.g.elem(P) && 1 <= t < s.q
    ensures var pk := s.g.enc(P);
            var ct := Ciphertext(s.g.enc(Scalar(s.g, s.q, r, s.G)), s.g.enc(Scalar(s.g, s.q, r, P)));
            var proved := Prove(s, hash, pk, ct, r, t);
            && proved.Ok? && |proved.value.proofBytes| == 96 && proved.value.ciphertext == ct
            && Field(proved.value.proofBytes, 0) == s.g.enc(Scalar(s.g, s.q, t, s.G))
            && Field(proved.value.proofBytes, 1) == s.g.enc(Scalar(s.g, s.q, t, P))
            && Parse(s, hash, pk, proved.value).Ok?
            && ScalarFromLE32(s.q, Field(proved.value.proofBytes, 2)) == Ok(Parse(s, hash, pk, proved.value).value.z)
            && Parse(s, hash, pk, proved.value).value.z
               == Respond(s.q, t, Parse(s, hash, pk, proved.value).value.c, r % s.q)
            && (Verify(s, hash, pk, proved.value) <==>
                Parse(s, hash, pk, proved.value).value.c != 0 && Parse(s, hash, pk, proved.value).value.z != 0)
  {
    hide PrimeOrder, Laws, Setup<T>.Valid, Scalar, PointFromBytes, Multiply, MultBase, FromLE, Challenge, Verify;
    hide Concat, Field, Respond, ScalarToLE32, Accepts;
    SetupFacts(s);
    var g, q := s.g, s.q;
    var pk := g.enc(P);
    var C1, C2 := Scalar(g, q, r, s.G), Scalar(g, q, r, P);
    var A1, A2 := Scalar(g, q, t, s.G), Scalar(g, q, t, P);
    var ct := Ciphertext(g.enc(C1), g.enc(C2));
    ParseEncoded(g, P);
    MultBaseIsScalar(g, q, s.G, t);
    MultiplyIsScalar(g, q, P, t);
    ScalarElem(g, q, r, s.G);
    ScalarElem(g, q, r, P);
    ParseEncoded(g, C1);
    ParseEncoded(g, C2);
    ParseEncoded(g, A1);
    ParseEncoded(g, A2);
    var c := ChallengeOf(q, hash, pk, ct, g.enc(A1), g.enc(A2));
    var z := Respond(q, t, c, r % q);
    var parts := [g.enc(A1), g.enc(A2), ScalarToLE32(q, z)];
    FieldsOf(parts);
    assert Field(Concat(parts), 0) == parts[0] && Field(Concat(parts), 1) == parts[1]
        && Field(Concat(parts), 2) == parts[2];
    RespondReduced(q, t, c, r % q);
    ScalarRoundTrip(q, z);
    Responds(g, q, s.G, t, c, r % q);
    Responds(g, q, P, t, c, r % q);
    ScalarReduced(g, q, r, s.G);
    ScalarReduced(g, q, r, P);
    VerifyMeaning(s, hash, pk, ZeroProof(Concat(parts), ct));
  }

  /** The exception occurs: for every key and every randomness that is not 0 modulo the order there is a random scalar
      whose honest proof is rejected, when the challenge is 1. */
  lemma HonestRejected<T(!new)>(s: Setup<T>, P: T, r: int) returns (t: int)
    requires s.Valid() && s.g.elem(P) && r % s.q != 0
    ensures 1 <= t < s.q
    ensures var ct := Ciphertext(s.g.enc(Scalar(s.g, s.q, r, s.G)), s.g.enc(Scalar(s.g, s.q, r, P)));
            var proved := Prove(s, ONE_HASH, s.g.enc(P), ct, r, t);
            proved.Ok? && !Verify(s, ONE_HASH, s.g.enc(P), proved.value)
  {
    hide PrimeOrder, Laws, Setup<T>.Valid, Prove, Verify, Parse, Challenge, Respond, Scalar;
    SetupFacts(s);
    t := s.q - r % s.q;
    Completeness(s, ONE_HASH, P, r, t);
    var ct := Ciphertext(s.g.enc(Scalar(s.g, s.q, r, s.G)), s.g.enc(Scalar(s.g, s.q, r, P)));
    var proof := Prove(s, ONE_HASH, s.g.enc(P), ct, r, t).value;
    ParsedMembers(s, ONE_HASH, s.g.enc(P), proof);
    OneChallenge(s.q, ZERO_BALANCE_DOMAIN,
                 [s.g.enc(P), ct.c1, ct.c2, Field(proof.proofBytes, 0), Field(proof.proofBytes, 1)]);
    ZeroAnswer(s.q, t, r % s.q);
  }

  /** Two accepted proofs about one ciphertext with the same commitments, under hashes that give different challenges,
      show that it encrypts zero under the key. */
  lemma SpecialSoundness<T(!new)>(s: Setup<T>, hash: Hash, hash': Hash, x: int, proof: ZeroProof, proof': ZeroProof)
    requires s.Valid() && Verify(s, hash, PublicKey(s, x), proof) && Verify(s, hash', PublicKey(s, x), proof')
    requires proof.ciphertext == proof'.ciphertext && proof.proofBytes[..64] == proof'.proofBytes[..64]
    requires ChallengeOf(s.q, hash, PublicKey(s, x), proof.ciphertext, Field(proof.proofBytes, 0),
                         Field(proof.proofBytes, 1))
          != ChallengeOf(s.q, hash', PublicKey(s, x), proof.ciphertext, Field(proof.proofBytes, 0),
                         Field(proof.proofBytes, 1))
    ensures Encrypts(s, x, proof.ciphertext, 0)
  {
    hide PrimeOrder, Laws, Setup<T>.Valid, Scalar, PointFromBytes, Verify, Equations, Inverse, Divides, FromLE, Parse;
    hide Field, PublicKey, ChallengeOf;
    SetupFacts(s);
    var pk := PublicKey(s, x);
    VerifyMeaning(s, hash, pk, proof);
    VerifyMeaning(s, hash', pk, proof');
    var v, v' := Parse(s, hash, pk, proof).value, Parse(s, hash', pk, proof').value;
    ParsedMembers(s, hash, pk, proof);
    ParsedMembers(s, hash', pk, proof');
    SamePrefix(proof.proofBytes, proof'.proofBytes, 64, 0);
    SamePrefix(proof.proofBytes, proof'.proofBytes, 64, 1);
    EncInjective(s.g, v.P, v'.P);
    EncInjective(s.g, v.A1, v'.A1);
    EncInjective(s.g, v.A2, v'.A2);
    EncInjective(s.g, v.c1, v'.c1);
    EncInjective(s.g, v.c2, v'.c2);
    var w := Extracted(s, v, v');
    PublicKeyIs(s, x);
    ScalarElem(s.g, s.q, x, s.G);
    EncInjective(s.g, v.P, Scalar(s.g, s.q, x, s.G));
    ZeroCipher(s, x, w);
    assert EncryptsWith(s, x, proof.ciphertext, 0, Scalar(s.g, s.q, w, s.G));
  }

  /** Two solutions of the equations with the same commitments reveal the randomness of the ciphertext. */
  lemma Extracted<T(!new)>(s: Setup<T>, v: Parsed<T>, v': Parsed<T>) returns (w: int)
    requires s.Valid() && Members(s.g, v) && Equations(s, v) && Equations(s, v')
    requires 0 <= v.c < s.q && 0 <= v'.c < s.q && v.c != v'.c
    requires v' == v.(c := v'.c, z := v'.z)
    ensures w == Inverse(s.q, v.c - v'.c) * (v.z - v'.z)
    ensures v.c1 == Scalar(s.g, s.q, w, s.G) && v.c2 == Scalar(s.g, s.q, w, v.P)
  {
    hide PrimeOrder, Laws, Setup<T>.Valid, Scalar, Accepts, Inverse, Divides;
    SetupFacts(s);
    DistinctResidues(s.q, v.c, v'.c);
    w := Inverse(s.q, v.c - v'.c) * (v.z - v'.z);
    ExtractOne(s.g, s.q, s.G, v.z, v'.z, v.A1, v.c, v'.c, v.c1);
    ExtractOne(s.g, s.q, v.P, v.z, v'.z, v.A2, v.c, v'.c, v.c2);
  }

  lemma PublicKeyIs<T(!new)>(s: Setup<T>, x: int)
    requires s.q > 0
    ensures PublicKey(s, x) == s.g.enc(Scalar(s.g, s.q, x, s.G))
  {
  }

  /** (w*G, w*(x*G)) is 0*H + R and x*R for R = w*G. */
  lemma ZeroCipher<T(!new)>(s: Setup<T>, x: int, w: int)
    requires s.Valid()
    ensures var mask := Scalar(s.g, s.q, w, s.G);
            && s.g.elem(mask)
            && s.g.add(Scalar(s.g, s.q, 0, s.H), mask) == mask
            && Scalar(s.g, s.q, w, Scalar(s.g, s.q, x, s.G)) == Scalar(s.g, s.q, x, mask)
  {
    hide PrimeOrder, Laws, Setup<T>.Valid, Scalar;
    SetupFacts(s);
    ScalarElem(s.g, s.q, w, s.G);
    ScalarZero(s.g, s.q, s.H);
    AddZero(s.g, Scalar(s.g, s.q, w, s.G));
    ScalarScalar(s.g, s.q, w, x, s.G);
    ScalarScalar(s.g, s.q, x, w, s.G);
    assert w * x == x * w;
  }
}
