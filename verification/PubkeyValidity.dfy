/** The proof that a public key is a multiple of the base point. */
module PubkeyValidity {
  import opened Numbers
  import opened Bytes
  import opened Wrappers
  import opened Groups
  import opened Scalars
  import opened SdkGroup
  import opened ScalarCodec
  import opened ByteTools
  import opened ModularInverse
  import opened Sigma

  datatype PubkeyProof = PubkeyProof(proofBytes: seq<Byte>, pubkey: seq<Byte>)

  /** `r` is the random scalar. */
  function Prove<T(!new)>(s: Setup<T>, hash: Hash, secret: seq<Byte>, r: int): Result<PubkeyProof, SdkError>
    requires s.q > 0
  {
    var sk :- ScalarFromLE32(s.q, secret);
    if sk == 0 then Err(InvalidKeyDerivation)
    else
      var pkPoint :- MultBase(s.g, s.q, s.G, sk);
      var R :- MultBase(s.g, s.q, s.G, r);
      var c := ChallengeOf(s.q, hash, s.g.enc(pkPoint), s.g.enc(R));
      var z := Respond(s.q, r, c, sk);
      Ok(PubkeyProof(Concat([s.g.enc(R), ScalarToLE32(s.q, z)]), s.g.enc(pkPoint)))
  }

  function ChallengeOf(q: int, hash: Hash, pubkey: seq<Byte>, commitment: seq<Byte>): int
    requires q > 0
  {
    Challenge(q, hash, PUBKEY_VALIDITY_DOMAIN, [pubkey, commitment])
  }

  /** The challenge is the digest of the domain, the key and the commitment, in this order; and it depends on both. */
  lemma ChallengeInputs(q: int, pubkey: seq<Byte>, commitment: seq<Byte>, pubkey': seq<Byte>, commitment': seq<Byte>)
    returns (text: seq<Byte>)
    requires q > 1 && |pubkey| == |commitment| == |pubkey'| == |commitment'| == 32
    ensures Spells(text, PUBKEY_VALIDITY_DOMAIN, [pubkey, commitment])
    ensures forall hash: Hash :: ChallengeOf(q, hash, pubkey, commitment) == FromLE(hash(text)) % q
    ensures (forall hash: Hash ::
               ChallengeOf(q, hash, pubkey, commitment) == ChallengeOf(q, hash, pubkey', commitment'))
       <==> pubkey == pubkey' && commitment == commitment'
  {
    hide Challenge, Spells, FromLE;
    var m, m' := [pubkey, commitment], [pubkey', commitment'];
    text := ChallengeString(q, PUBKEY_VALIDITY_DOMAIN, m);
    ChallengeBinds(q, PUBKEY_VALIDITY_DOMAIN, m, m');
    assert m == m' <==> m[0] == m'[0] && m[1] == m'[1];
    forall hash: Hash ensures ChallengeOf(q, hash, pubkey, commitment) == Challenge(q, hash, PUBKEY_VALIDITY_DOMAIN, m)
                           && ChallengeOf(q, hash, pubkey', commitment')
                              == Challenge(q, hash, PUBKEY_VALIDITY_DOMAIN, m') {
    }
  }

  function Check<T(!new)>(s: Setup<T>, hash: Hash, proof: PubkeyProof): Result<bool, SdkError>
    requires s.q > 0 && |proof.proofBytes| == 64
  {
    var pkPoint :- PointFromBytes(s.g, proof.pubkey);
    var R :- PointFromBytes(s.g, Field(proof.proofBytes, 0));
    var z :- ScalarFromLE32(s.q, Field(proof.proofBytes, 1));
    var c := ChallengeOf(s.q, hash, s.g.enc(pkPoint), s.g.enc(R));
    var lhs :- Multiply(s.g, s.q, s.G, z);
    var cP :- Multiply(s.g, s.q, pkPoint, c);
    Ok(PointsEqual(s.g, lhs, s.g.add(R, cP)))
  }

  /** Any exception counts as rejection. */
  predicate Verify<T(!new)>(s: Setup<T>, hash: Hash, proof: PubkeyProof)
    requires s.q > 0
  {
    |proof.proofBytes| == 64 && Check(s, hash, proof) == Ok(true)
  }

  function Answer(q: int, proof: PubkeyProof): int
    requires q > 0 && |proof.proofBytes| == 64
  {
    FromLE(Field(proof.proofBytes, 1)) % q
  }

  /** The proof parses, its challenge and its answer are not zero, and z*G = R + c*P. */
  ghost predicate Accepted<T(!new)>(s: Setup<T>, hash: Hash, proof: PubkeyProof)
    requires s.q > 0
  {
    && |proof.proofBytes| == 64
    && PointFromBytes(s.g, proof.pubkey).Ok? && PointFromBytes(s.g, Field(proof.proofBytes, 0)).Ok?
    && ChallengeOf(s.q, hash, proof.pubkey, Field(proof.proofBytes, 0)) != 0 && Answer(s.q, proof) != 0
    && Accepts(s.g, s.q, Scalar(s.g, s.q, Answer(s.q, proof), s.G),
               PointFromBytes(s.g, Field(proof.proofBytes, 0)).value,
               ChallengeOf(s.q, hash, proof.pubkey, Field(proof.proofBytes, 0)),
               PointFromBytes(s.g, proof.pubkey).value)
  }

  lemma VerifyMeaning<T(!new)>(s: Setup<T>, hash: Hash, proof: PubkeyProof)
    requires s.Valid()
    ensures Verify(s, hash, proof) <==> Accepted(s, hash, proof)
  {
    hide PrimeOrder, Laws, Setup<T>.Valid, Scalar, PointFromBytes, Multiply, FromLE, Challenge;
    SetupFacts(s);
    if |proof.proofBytes| == 64 && PointFromBytes(s.g, proof.pubkey).Ok?
       && PointFromBytes(s.g, Field(proof.proofBytes, 0)).Ok? {
      var P, R := PointFromBytes(s.g, proof.pubkey).value, PointFromBytes(s.g, Field(proof.proofBytes, 0)).value;
      ParsedElement(s.g, proof.pubkey);
      ParsedElement(s.g, Field(proof.proofBytes, 0));
      var c, z := ChallengeOf(s.q, hash, proof.pubkey, Field(proof.proofBytes, 0)), Answer(s.q, proof);
      MultiplyIsScalar(s.g, s.q, s.G, z);
      MultiplyIsScalar(s.g, s.q, P, c);
      ScalarElem(s.g, s.q, z, s.G);
      ScalarElem(s.g, s.q, c, P);
      AddElem(s.g, R, Scalar(s.g, s.q, c, P));
      EncInjective(s.g, Scalar(s.g, s.q, z, s.G), s.g.add(R, Scalar(s.g, s.q, c, P)));
    }
  }

  /** Every honest proof parses back and is accepted, unless the challenge or the answer is zero. */
  lemma Completeness<T(!new)>(s: Setup<T>, hash: Hash, secret: seq<Byte>, r: int)
    requires s.Valid()
    ensures Prove(s, hash, secret, r).Ok? <==> |secret| == 32 && FromLE(secret) % s.q != 0
    ensures Prove(s, hash, secret, r).Ok? ==>
              var proof := Prove(s, hash, secret, r).value;
              var sk := FromLE(secret) % s.q;
              && |proof.proofBytes| == 64
              && proof.pubkey == s.g.enc(Scalar(s.g, s.q, sk, s.G))
              && Field(proof.proofBytes, 0) == s.g.enc(Scalar(s.g, s.q, r, s.G))
              && ScalarFromLE32(s.q, Field(proof.proofBytes, 1))
              == Ok(Respond(s.q, r, ChallengeOf(s.q, hash, proof.pubkey, Field(proof.proofBytes, 0)), sk))
              && (Verify(s, hash, proof) <==>
                  && ChallengeOf(s.q, hash, proof.pubkey, Field(proof.proofBytes, 0)) != 0
                  && Respond(s.q, r, ChallengeOf(s.q, hash, proof.pubkey, Field(proof.proofBytes, 0)), sk) != 0)
  {
    hide PrimeOrder, Laws, Setup<T>.Valid, Scalar, PointFromBytes, MultBase, FromLE, Challenge, Verify, Concat;
    hide Respond, ScalarToLE32, Field;
    SetupFacts(s);
    if |secret| == 32 && FromLE(secret) % s.q != 0 {
      var sk := FromLE(secret) % s.q;
      var P, R := Scalar(s.g, s.q, sk, s.G), Scalar(s.g, s.q, r, s.G);
      MultBaseIsScalar(s.g, s.q, s.G, sk);
      MultBaseIsScalar(s.g, s.q, s.G, r);
      ParseEncoded(s.g, P);
      ParseEncoded(s.g, R);
      var c := ChallengeOf(s.q, hash, s.g.enc(P), s.g.enc(R));
      var z := Respond(s.q, r, c, sk);
      var parts := [s.g.enc(R), ScalarToLE32(s.q, z)];
      FieldsOf(parts);
      RespondReduced(s.q, r, c, sk);
      ScalarRoundTrip(s.q, z);
      Responds(s.g, s.q, s.G, r, c, sk);
      VerifyMeaning(s, hash, PubkeyProof(Concat(parts), s.g.enc(P)));
      assert Field(Concat(parts), 0) == parts[0] && Field(Concat(parts), 1) == parts[1];
    }
  }

  /** The exception occurs: for every secret there is a random scalar whose honest proof is rejected, when the challenge
      is 1. */
  lemma HonestRejected<T(!new)>(s: Setup<T>, secret: seq<Byte>) returns (r: int)
    requires s.Valid() && |secret| == 32 && FromLE(secret) % s.q != 0
    ensures 1 <= r < s.q
    ensures Prove(s, ONE_HASH, secret, r).Ok? && !Verify(s, ONE_HASH, Prove(s, ONE_HASH, secret, r).value)
  {
    hide PrimeOrder, Laws, Setup<T>.Valid, Prove, Verify, FromLE, Challenge, Respond, Scalar;
    SetupFacts(s);
    var sk := FromLE(secret) % s.q;
    r := s.q - sk;
    Completeness(s, ONE_HASH, secret, r);
    var proof := Prove(s, ONE_HASH, secret, r).value;
    OneChallenge(s.q, PUBKEY_VALIDITY_DOMAIN, [proof.pubkey, Field(proof.proofBytes, 0)]);
    ZeroAnswer(s.q, r, sk);
  }

  /** Two accepted proofs for one key and one commitment, under hashes that give different challenges, reveal the
      secret: (z - z')/(c - c'). */
  lemma SpecialSoundness<T(!new)>(s: Setup<T>, hash: Hash, hash': Hash, proof: PubkeyProof, proof': PubkeyProof)
    requires s.Valid() && Verify(s, hash, proof) && Verify(s, hash', proof')
    requires proof.pubkey == proof'.pubkey && Field(proof.proofBytes, 0) == Field(proof'.proofBytes, 0)
    ensures var c := ChallengeOf(s.q, hash, proof.pubkey, Field(proof.proofBytes, 0));
            var c' := ChallengeOf(s.q, hash', proof.pubkey, Field(proof.proofBytes, 0));
            c != c' ==>
              proof.pubkey
              == s.g.enc(Scalar(s.g, s.q, Inverse(s.q, c - c') * (Answer(s.q, proof) - Answer(s.q, proof')), s.G))
  {
    hide PrimeOrder, Laws, Setup<T>.Valid, Scalar, PointFromBytes, Verify, Challenge, Accepts, Inverse, Divides, Answer;
    SetupFacts(s);
    VerifyMeaning(s, hash, proof);
    VerifyMeaning(s, hash', proof');
    var c := ChallengeOf(s.q, hash, proof.pubkey, Field(proof.proofBytes, 0));
    var c' := ChallengeOf(s.q, hash', proof.pubkey, Field(proof.proofBytes, 0));
    if c != c' {
      DistinctResidues(s.q, c, c');
      ParsedElement(s.g, proof.pubkey);
      ParsedElement(s.g, Field(proof.proofBytes, 0));
      ExtractOne(s.g, s.q, s.G, Answer(s.q, proof), Answer(s.q, proof'),
                 PointFromBytes(s.g, Field(proof.proofBytes, 0)).value, c, c',
                 PointFromBytes(s.g, proof.pubkey).value);
    }
  }
}
