/** The proof that two ciphertexts under two keys encrypt one value. */
module EqualityProof {
  import opened Numbers
  import opened Bytes
  import opened Wrappers
  import opened Groups
  import opened Scalars
  import opened SdkGroup
  import opened ScalarCodec
  import opened ByteTools
  import opened ModularInverse
  import opened Sigma
  import opened TE = TwistedElGamal

  datatype Statement = Statement(sourcePk: seq<Byte>, destPk: seq<Byte>, sourceCt: Ciphertext, destCt: Ciphertext)

  datatype Proof = Proof(proofBytes: seq<Byte>, sourceCommitment: seq<Byte>, destCommitment: seq<Byte>)

  function ChallengeOf(q: int, hash: Hash, st: Statement, a: seq<seq<Byte>>): int
    requires q > 0
  {
    Challenge(q, hash, EQUALITY_DOMAIN,
              [st.sourcePk, st.destPk, st.sourceCt.c1, st.sourceCt.c2, st.destCt.c1, st.destCt.c2] + a)
  }

  /** The strings of a statement and its commitments, in the order in which they are hashed. */
  predicate Ordered(st: Statement, a: seq<seq<Byte>>, m: seq<seq<Byte>>) {
    && |a| == 4 && |m| == 10
    && m[0] == st.sourcePk && m[1] == st.destPk && m[2] == st.sourceCt.c1 && m[3] == st.sourceCt.c2
    && m[4] == st.destCt.c1 && m[5] == st.destCt.c2 && m[6] == a[0] && m[7] == a[1] && m[8] == a[2] && m[9] == a[3]
  }

  /** The challenge is the digest of the domain, both keys, both ciphertexts and the four commitments, in this order;
      and it depends on all of them. */
  lemma ChallengeInputs(q: int, st: Statement, a: seq<seq<Byte>>, m: seq<seq<Byte>>,
                        st': Statement, a': seq<seq<Byte>>, m': seq<seq<Byte>>) returns (text: seq<Byte>)
    requires q > 1 && Ordered(st, a, m) && Messages(m) && Ordered(st', a', m') && Messages(m')
    ensures Spells(text, EQUALITY_DOMAIN, m)
    ensures forall hash: Hash :: ChallengeOf(q, hash, st, a) == FromLE(hash(text)) % q
    ensures (forall hash: Hash :: ChallengeOf(q, hash, st, a) == ChallengeOf(q, hash, st', a'))
       <==> st == st' && a == a'
  {
    hide Challenge, Spells, FromLE;
    text := ChallengeString(q, EQUALITY_DOMAIN, m);
    ChallengeBinds(q, EQUALITY_DOMAIN, m, m');
    OrderedIs(st, a, m);
    OrderedIs(st', a', m');
    if m == m' {
      assert a == a' by {
        assert a == m[6..] && a' == m'[6..];
      }
    }
    forall hash: Hash ensures ChallengeOf(q, hash, st, a) == Challenge(q, hash, EQUALITY_DOMAIN, m)
                           && ChallengeOf(q, hash, st', a') == Challenge(q, hash, EQUALITY_DOMAIN, m') {
    }
  }

  lemma OrderedIs(st: Statement, a: seq<seq<Byte>>, m: seq<seq<Byte>>)
    requires Ordered(st, a, m)
    ensures m == [st.sourcePk, st.destPk, st.sourceCt.c1, st.sourceCt.c2, st.destCt.c1, st.destCt.c2] + a
  {
  }

  /** v*H + r*G, with multiplications guarded against zero. */
  function PedersenC1<T(!new)>(s: Setup<T>, v: int, r: int): Result<T, SdkError>
    requires s.q > 0
  {
    var vH :- MultBase(s.g, s.q, s.H, v);
    var rG :- MultBase(s.g, s.q, s.G, r);
    Ok(s.g.add(vH, rG))
  }

  /** t*H + u*G, not guarded. */
  function Commit<T(!new)>(s: Setup<T>, t: int, u: int): Result<T, SdkError> {
    var tH :- Multiply(s.g, s.q, s.H, t);
    var uG :- Multiply(s.g, s.q, s.G, u);
    Ok(s.g.add(tH, uG))
  }

  /** `t1`, `t2`, `t3` are the random scalars. */
  function Prove<T(!new)>(s: Setup<T>, hash: Hash, sourcePk: seq<Byte>, destPk: seq<Byte>, v: int, rS: int, rD: int,
                          t1: int, t2: int, t3: int): Result<Proof, SdkError>
    requires s.q > 0
  {
    var source :- PointFromBytes(s.g, sourcePk);
    var dest :- PointFromBytes(s.g, destPk);
    var A1 :- Commit(s, t1, t2);
    var A2 :- Commit(s, t1, t3);
    var A3 :- Multiply(s.g, s.q, source, t2);
    var A4 :- Multiply(s.g, s.q, dest, t3);
    var c1Source :- PedersenC1(s, v % s.q, rS % s.q);
    var c1Dest :- PedersenC1(s, v % s.q, rD % s.q);
    var c2Source :- Multiply(s.g, s.q, source, rS % s.q);
    var c2Dest :- Multiply(s.g, s.q, dest, rD % s.q);
    var st := Statement(sourcePk, destPk, Ciphertext(s.g.enc(c1Source), s.g.enc(c2Source)),
                        Ciphertext(s.g.enc(c1Dest), s.g.enc(c2Dest)));
    var a := [s.g.enc(A1), s.g.enc(A2), s.g.enc(A3), s.g.enc(A4)];
    var c := ChallengeOf(s.q, hash, st, a);
    var z := [ScalarToLE32(s.q, Respond(s.q, t1, c, v % s.q)),
              ScalarToLE32(s.q, Respond(s.q, t2, c, rS % s.q)),
              ScalarToLE32(s.q, Respond(s.q, t3, c, rD % s.q))];
    Ok(Proof(Concat(a + z), s.g.enc(c1Source), s.g.enc(c1Dest)))
  }

  /** The points and numbers a statement and a proof of the right length consist of. */
  datatype Parsed<T> = Parsed(source: T, dest: T, c1S: T, c2S: T, c1D: T, c2D: T,
                              A1: T, A2: T, A3: T, A4: T, c: int, z1: int, z2: int, z3: int)

  function Parse<T(!new)>(s: Setup<T>, hash: Hash, st: Statement, proof: seq<Byte>): Result<Parsed<T>, SdkError>
    requires s.q > 0 && |proof| == 224
  {
    var source :- PointFromBytes(s.g, st.sourcePk);
    var dest :- PointFromBytes(s.g, st.destPk);
    var A1 :- PointFromBytes(s.g, Field(proof, 0));
    var A2 :- PointFromBytes(s.g, Field(proof, 1));
    var A3 :- PointFromBytes(s.g, Field(proof, 2));
    var A4 :- PointFromBytes(s.g, Field(proof, 3));
    var z1 :- ScalarFromLE32(s.q, Field(proof, 4));
    var z2 :- ScalarFromLE32(s.q, Field(proof, 5));
    var z3 :- ScalarFromLE32(s.q, Field(proof, 6));
    var c1S :- PointFromBytes(s.g, st.sourceCt.c1);
    var c2S :- PointFromBytes(s.g, st.sourceCt.c2);
    var c1D :- PointFromBytes(s.g, st.destCt.c1);
    var c2D :- PointFromBytes(s.g, st.destCt.c2);
    var encoded :=
      Statement(st.sourcePk, st.destPk, Ciphertext(s.g.enc(c1S), s.g.enc(c2S)), Ciphertext(s.g.enc(c1D), s.g.enc(c2D)));
    var c := ChallengeOf(s.q, hash, encoded, [s.g.enc(A1), s.g.enc(A2), s.g.enc(A3), s.g.enc(A4)]);
    Ok(Parsed(source, dest, c1S, c2S, c1D, c2D, A1, A2, A3, A4, c, z1, z2, z3))
  }

  /** Is z*H + u*G = a + c*w? */
  function PairHolds<T(!new)>(s: Setup<T>, z: int, u: int, a: T, c: int, w: T): Result<bool, SdkError> {
    var lhs :- Commit(s, z, u);
    var cw :- Multiply(s.g, s.q, w, c);
    Ok(PointsEqual(s.g, lhs, s.g.add(a, cw)))
  }

  /** Is z*base = a + c*w? */
  function SingleHolds<T(!new)>(s: Setup<T>, base: T, z: int, a: T, c: int, w: T): Result<bool, SdkError> {
    var lhs :- Multiply(s.g, s.q, base, z);
    var cw :- Multiply(s.g, s.q, w, c);
    Ok(PointsEqual(s.g, lhs, s.g.add(a, cw)))
  }

  /** The four comparisons in order, each ending the check when it fails. */
  function Check<T(!new)>(s: Setup<T>, hash: Hash, st: Statement, proof: seq<Byte>): Result<bool, SdkError>
    requires s.q > 0 && |proof| == 224
  {
    var p :- Parse(s, hash, st, proof);
    var b1 :- PairHolds(s, p.z1, p.z2, p.A1, p.c, p.c1S);
    if !b1 then Ok(false)
    else
      var b2 :- PairHolds(s, p.z1, p.z3, p.A2, p.c, p.c1D);
      if !b2 then Ok(false)
      else
        var b3 :- SingleHolds(s, p.source, p.z2, p.A3, p.c, p.c2S);
        if !b3 then Ok(false)
        else SingleHolds(s, p.dest, p.z3, p.A4, p.c, p.c2D)
  }

  /** Any exception counts as rejection. */
  predicate Verify<T(!new)>(s: Setup<T>, hash: Hash, st: Statement, proof: seq<Byte>)
    requires s.q > 0
  {
    |proof| == 224 && Check(s, hash, st, proof) == Ok(true)
  }

  ghost predicate NonZero<T>(p: Parsed<T>) {
    p.c != 0 && p.z1 != 0 && p.z2 != 0 && p.z3 != 0
  }

  ghost predicate InRange<T>(q: int, p: Parsed<T>) {
    0 <= p.c < q && 0 <= p.z1 < q && 0 <= p.z2 < q && 0 <= p.z3 < q
  }

  ghost function Pair<T(!new)>(s: Setup<T>, z: int, u: int): T
    requires s.q > 0
  {
    s.g.add(Scalar(s.g, s.q, z, s.H), Scalar(s.g, s.q, u, s.G))
  }

  ghost predicate Equations<T(!new)>(s: Setup<T>, p: Parsed<T>)
    requires s.q > 0
  {
    && Accepts(s.g, s.q, Pair(s, p.z1, p.z2), p.A1, p.c, p.c1S)
    && Accepts(s.g, s.q, Pair(s, p.z1, p.z3), p.A2, p.c, p.c1D)
    && Accepts(s.g, s.q, Scalar(s.g, s.q, p.z2, p.source), p.A3, p.c, p.c2S)
    && Accepts(s.g, s.q, Scalar(s.g, s.q, p.z3, p.dest), p.A4, p.c, p.c2D)
  }

  ghost predicate Members<T(!new)>(g: Group<T>, p: Parsed<T>) {
    && g.elem(p.source) && g.elem(p.dest) && g.elem(p.c1S) && g.elem(p.c2S) && g.elem(p.c1D) && g.elem(p.c2D)
    && g.elem(p.A1) && g.elem(p.A2) && g.elem(p.A3) && g.elem(p.A4)
  }

  /** The encodings of the parsed points are the fields they were read from. */
  ghost predicate ReadFrom<T(!new)>(g: Group<T>, p: Parsed<T>, st: Statement, proof: seq<Byte>)
    requires |proof| == 224
  {
    && g.enc(p.source) == st.sourcePk && g.enc(p.dest) == st.destPk
    && g.enc(p.c1S) == st.sourceCt.c1 && g.enc(p.c2S) == st.sourceCt.c2
    && g.enc(p.c1D) == st.destCt.c1 && g.enc(p.c2D) == st.destCt.c2
    && g.enc(p.A1) == Field(proof, 0) && g.enc(p.A2) == Field(proof, 1)
    && g.enc(p.A3) == Field(proof, 2) && g.enc(p.A4) == Field(proof, 3)
  }

  lemma ParsedMembers<T(!new)>(s: Setup<T>, hash: Hash, st: Statement, proof: seq<Byte>)
    requires s.Valid() && |proof| == 224 && Parse(s, hash, st, proof).Ok?
    ensures var p := Parse(s, hash, st, proof).value; Members(s.g, p) && InRange(s.q, p) && ReadFrom(s.g, p, st, proof)
  {
    hide PrimeOrder, Laws, Setup<T>.Valid, PointFromBytes, FromLE, Challenge, Field;
    SetupFacts(s);
    ParsedElement(s.g, st.sourcePk);
    ParsedElement(s.g, st.destPk);
    ParsedElement(s.g, st.sourceCt.c1);
    ParsedElement(s.g, st.sourceCt.c2);
    ParsedElement(s.g, st.destCt.c1);
    ParsedElement(s.g, st.destCt.c2);
    ParsedElement(s.g, Field(proof, 0));
    ParsedElement(s.g, Field(proof, 1));
    ParsedElement(s.g, Field(proof, 2));
    ParsedElement(s.g, Field(proof, 3));
  }

  lemma CommitIsPair<T(!new)>(s: Setup<T>, t: int, u: int)
    requires s.Valid()
    ensures Commit(s, t, u).Ok? <==> 1 <= t < s.q && 1 <= u < s.q
    ensures Commit(s, t, u).Ok? ==> Commit(s, t, u) == Ok(Pair(s, t, u))
    ensures s.g.elem(Pair(s, t, u))
  {
    hide PrimeOrder, Laws, Setup<T>.Valid, Scalar, Multiply;
    SetupFacts(s);
    MultiplyIsScalar(s.g, s.q, s.H, t);
    MultiplyIsScalar(s.g, s.q, s.G, u);
    ScalarElem(s.g, s.q, t, s.H);
    ScalarElem(s.g, s.q, u, s.G);
    AddElem(s.g, Scalar(s.g, s.q, t, s.H), Scalar(s.g, s.q, u, s.G));
  }

  lemma PedersenIsPair<T(!new)>(s: Setup<T>, v: int, r: int)
    requires s.Valid()
    ensures PedersenC1(s, v % s.q, r % s.q) == Ok(Pair(s, v, r)) && s.g.elem(Pair(s, v, r))
  {
    hide PrimeOrder, Laws, Setup<T>.Valid, Scalar, MultBase;
    SetupFacts(s);
    MultBaseIsScalar(s.g, s.q, s.H, v % s.q);
    MultBaseIsScalar(s.g, s.q, s.G, r % s.q);
    ScalarReduced(s.g, s.q, v, s.H);
    ScalarReduced(s.g, s.q, r, s.G);
    AddElem(s.g, Scalar(s.g, s.q, v, s.H), Scalar(s.g, s.q, r, s.G));
  }

  lemma PairMeaning<T(!new)>(s: Setup<T>, z: int, u: int, a: T, c: int, w: T)
    requires s.Valid() && s.g.elem(a) && s.g.elem(w) && 0 <= z < s.q && 0 <= u < s.q && 0 <= c < s.q
    ensures PairHolds(s, z, u, a, c, w) == Ok(true)
       <==> z != 0 && u != 0 && c != 0 && Accepts(s.g, s.q, Pair(s, z, u), a, c, w)
  {
    hide PrimeOrder, Laws, Setup<T>.Valid, Scalar, Multiply, Commit, Pair;
    SetupFacts(s);
    CommitIsPair(s, z, u);
    MultiplyIsScalar(s.g, s.q, w, c);
    ScalarElem(s.g, s.q, c, w);
    AddElem(s.g, a, Scalar(s.g, s.q, c, w));
    EncInjective(s.g, Pair(s, z, u), s.g.add(a, Scalar(s.g, s.q, c, w)));
  }

  lemma SingleMeaning<T(!new)>(s: Setup<T>, base: T, z: int, a: T, c: int, w: T)
    requires s.Valid() && s.g.elem(base) && s.g.elem(a) && s.g.elem(w) && 0 <= z < s.q && 0 <= c < s.q
    ensures SingleHolds(s, base, z, a, c, w) == Ok(true)
       <==> z != 0 && c != 0 && Accepts(s.g, s.q, Scalar(s.g, s.q, z, base), a, c, w)
  {
    hide PrimeOrder, Laws, Setup<T>.Valid, Scalar, Multiply;
    SetupFacts(s);
    MultiplyIsScalar(s.g, s.q, base, z);
    MultiplyIsScalar(s.g, s.q, w, c);
    ScalarElem(s.g, s.q, z, base);
    ScalarElem(s.g, s.q, c, w);
    AddElem(s.g, a, Scalar(s.g, s.q, c, w));
    EncInjective(s.g, Scalar(s.g, s.q, z, base), s.g.add(a, Scalar(s.g, s.q, c, w)));
  }

  /** The verifier accepts exactly the proofs that parse, whose challenge and answers are not zero, and that satisfy
      the four equations. */
  lemma VerifyMeaning<T(!new)>(s: Setup<T>, hash: Hash, st: Statement, proof: seq<Byte>)
    requires s.Valid()
    ensures Verify(s, hash, st, proof) <==>
              && |proof| == 224 && Parse(s, hash, st, proof).Ok?
              && NonZero(Parse(s, hash, st, proof).value) && Equations(s, Parse(s, hash, st, proof).value)
  {
    hide PrimeOrder, Laws, Setup<T>.Valid, Scalar, Parse, Accepts, Pair, PairHolds, SingleHolds;
    SetupFacts(s);
    if |proof| == 224 && Parse(s, hash, st, proof).Ok? {
      ParsedMembers(s, hash, st, proof);
      var p := Parse(s, hash, st, proof).value;
      PairMeaning(s, p.z1, p.z2, p.A1, p.c, p.c1S);
      PairMeaning(s, p.z1, p.z3, p.A2, p.c, p.c1D);
      SingleMeaning(s, p.source, p.z2, p.A3, p.c, p.c2S);
      SingleMeaning(s, p.dest, p.z3, p.A4, p.c, p.c2D);
    }
  }

  // ---------------------------------------------------------------- completeness

  ghost function HonestStatement<T(!new)>(s: Setup<T>, S: T, D: T, v: int, rS: int, rD: int): Statement
    requires s.q > 0
  {
    Statement(s.g.enc(S), s.g.enc(D),
              Ciphertext(s.g.enc(Pair(s, v, rS)), s.g.enc(Scalar(s.g, s.q, rS, S))),
              Ciphertext(s.g.enc(Pair(s, v, rD)), s.g.enc(Scalar(s.g, s.q, rD, D))))
  }

  /** What an honest proof consists of. */
  ghost function HonestParsed<T(!new)>(s: Setup<T>, hash: Hash, S: T, D: T, v: int, rS: int, rD: int, t1: int, t2: int,
                                       t3: int): Parsed<T>
    requires s.q > 0
  {
    var A1, A2, A3, A4 := Pair(s, t1, t2), Pair(s, t1, t3), Scalar(s.g, s.q, t2, S), Scalar(s.g, s.q, t3, D);
    var c := ChallengeOf(s.q, hash, HonestStatement(s, S, D, v, rS, rD),
                         [s.g.enc(A1), s.g.enc(A2), s.g.enc(A3), s.g.enc(A4)]);
    Parsed(S, D, Pair(s, v, rS), Scalar(s.g, s.q, rS, S), Pair(s, v, rD), Scalar(s.g, s.q, rD, D), A1, A2, A3, A4, c,
           Respond(s.q, t1, c, v % s.q), Respond(s.q, t2, c, rS % s.q), Respond(s.q, t3, c, rD % s.q))
  }

  ghost function HonestBytes<T(!new)>(s: Setup<T>, p: Parsed<T>): seq<Byte>
    requires s.q > 0
  {
    Concat([s.g.enc(p.A1), s.g.enc(p.A2), s.g.enc(p.A3), s.g.enc(p.A4),
            ScalarToLE32(s.q, p.z1), ScalarToLE32(s.q, p.z2), ScalarToLE32(s.q, p.z3)])
  }

  /** The prover succeeds exactly when the unguarded multipliers are not zero, and returns the honest bytes. */
  lemma ProveResult<T(!new)>(s: Setup<T>, hash: Hash, S: T, D: T, v: int, rS: int, rD: int, t1: int, t2: int, t3: int)
    requires s.Valid() && s.g.elem(S) && s.g.elem(D)
    ensures var r := Prove(s, hash, s.g.enc(S), s.g.enc(D), v, rS, rD, t1, t2, t3);
            && (r.Ok? <==> && 1 <= t1 < s.q && 1 <= t2 < s.q && 1 <= t3 < s.q && rS % s.q != 0 && rD % s.q != 0)
            && (r.Ok? ==> r == Ok(Proof(HonestBytes(s, HonestParsed(s, hash, S, D, v, rS, rD, t1, t2, t3)),
                                        s.g.enc(Pair(s, v, rS)), s.g.enc(Pair(s, v, rD)))))
  {
    hide PrimeOrder, Laws, Setup<T>.Valid, Scalar, Pair, PointFromBytes, Multiply, Commit, PedersenC1, ChallengeOf;
    hide Respond, ScalarToLE32, Concat;
    SetupFacts(s);
    var g, q := s.g, s.q;
    ParseEncoded(g, S);
    ParseEncoded(g, D);
    CommitIsPair(s, t1, t2);
    CommitIsPair(s, t1, t3);
    MultiplyIsScalar(g, q, S, t2);
    MultiplyIsScalar(g, q, D, t3);
    PedersenIsPair(s, v, rS);
    PedersenIsPair(s, v, rD);
    MultiplyIsScalar(g, q, S, rS % q);
    MultiplyIsScalar(g, q, D, rD % q);
    ScalarReduced(g, q, rS, S);
    ScalarReduced(g, q, rD, D);
    FourAndThree(g.enc(Pair(s, t1, t2)), g.enc(Pair(s, t1, t3)), g.enc(Scalar(g, q, t2, S)),
                 g.enc(Scalar(g, q, t3, D)));
  }

  lemma FourAndThree(a: seq<Byte>, b: seq<Byte>, c: seq<Byte>, d: seq<Byte>)
    ensures forall x: seq<Byte>, y: seq<Byte>, z: seq<Byte> {:trigger [x, y, z]} ::
              [a, b, c, d] + [x, y, z] == [a, b, c, d, x, y, z]
  {
  }

  lemma HonestMembers<T(!new)>(s: Setup<T>, hash: Hash, S: T, D: T, v: int, rS: int, rD: int, t1: int, t2: int, t3: int)
    requires s.Valid() && s.g.elem(S) && s.g.elem(D)
    ensures Members(s.g, HonestParsed(s, hash, S, D, v, rS, rD, t1, t2, t3))
    ensures InRange(s.q, HonestParsed(s, hash, S, D, v, rS, rD, t1, t2, t3))
  {
    hide PrimeOrder, Laws, Setup<T>.Valid, Scalar, Pair, Challenge, Respond, HonestStatement;
    SetupFacts(s);
    var p := HonestParsed(s, hash, S, D, v, rS, rD, t1, t2, t3);
    CommitIsPair(s, v, rS);
    CommitIsPair(s, v, rD);
    CommitIsPair(s, t1, t2);
    CommitIsPair(s, t1, t3);
    ScalarElem(s.g, s.q, rS, S);
    ScalarElem(s.g, s.q, rD, D);
    ScalarElem(s.g, s.q, t2, S);
    ScalarElem(s.g, s.q, t3, D);
    RespondReduced(s.q, t1, p.c, v % s.q);
    RespondReduced(s.q, t2, p.c, rS % s.q);
    RespondReduced(s.q, t3, p.c, rD % s.q);
  }

  /** Parsing the honest bytes recovers every point and every scalar. */
  lemma ParseHonest<T(!new)>(s: Setup<T>, hash: Hash, st: Statement, p: Parsed<T>)
    requires s.Valid() && Members(s.g, p) && InRange(s.q, p)
    requires st == Statement(s.g.enc(p.source), s.g.enc(p.dest), Ciphertext(s.g.enc(p.c1S), s.g.enc(p.c2S)),
                             Ciphertext(s.g.enc(p.c1D), s.g.enc(p.c2D)))
    requires p.c == ChallengeOf(s.q, hash, st, [s.g.enc(p.A1), s.g.enc(p.A2), s.g.enc(p.A3), s.g.enc(p.A4)])
    ensures |HonestBytes(s, p)| == 224 && Parse(s, hash, st, HonestBytes(s, p)) == Ok(p)
  {
    hide PrimeOrder, Laws, Setup<T>.Valid, PointFromBytes, ChallengeOf, ScalarFromLE32, HonestBytes, Field, Members;
    SetupFacts(s);
    HonestFields(s, p);
    EncodedPoints(s.g, p);
  }

  lemma EncodedPoints<T(!new)>(g: Group<T>, p: Parsed<T>)
    requires Laws(g) && Members(g, p)
    ensures PointFromBytes(g, g.enc(p.source)) == Ok(p.source) && PointFromBytes(g, g.enc(p.dest)) == Ok(p.dest)
    ensures PointFromBytes(g, g.enc(p.c1S)) == Ok(p.c1S) && PointFromBytes(g, g.enc(p.c2S)) == Ok(p.c2S)
    ensures PointFromBytes(g, g.enc(p.c1D)) == Ok(p.c1D) && PointFromBytes(g, g.enc(p.c2D)) == Ok(p.c2D)
    ensures PointFromBytes(g, g.enc(p.A1)) == Ok(p.A1) && PointFromBytes(g, g.enc(p.A2)) == Ok(p.A2)
    ensures PointFromBytes(g, g.enc(p.A3)) == Ok(p.A3) && PointFromBytes(g, g.enc(p.A4)) == Ok(p.A4)
  {
    hide Laws, PointFromBytes;
    ParseEncoded(g, p.source);
    ParseEncoded(g, p.dest);
    ParseEncoded(g, p.c1S);
    ParseEncoded(g, p.c2S);
    ParseEncoded(g, p.c1D);
    ParseEncoded(g, p.c2D);
    ParseEncoded(g, p.A1);
    ParseEncoded(g, p.A2);
    ParseEncoded(g, p.A3);
    ParseEncoded(g, p.A4);
  }

  lemma HonestFields<T(!new)>(s: Setup<T>, p: Parsed<T>)
    requires s.Valid() && Members(s.g, p) && InRange(s.q, p)
    ensures var b := HonestBytes(s, p);
            && |b| == 224
            && Field(b, 0) == s.g.enc(p.A1) && Field(b, 1) == s.g.enc(p.A2) && Field(b, 2) == s.g.enc(p.A3)
            && Field(b, 3) == s.g.enc(p.A4)
            && ScalarFromLE32(s.q, Field(b, 4)) == Ok(p.z1) && ScalarFromLE32(s.q, Field(b, 5)) == Ok(p.z2)
            && ScalarFromLE32(s.q, Field(b, 6)) == Ok(p.z3)
  {
    hide PrimeOrder, Laws, Setup<T>.Valid, ScalarToLE32, ScalarFromLE32, Concat, Field;
    SetupFacts(s);
    var parts := [s.g.enc(p.A1), s.g.enc(p.A2), s.g.enc(p.A3), s.g.enc(p.A4),
                  ScalarToLE32(s.q, p.z1), ScalarToLE32(s.q, p.z2), ScalarToLE32(s.q, p.z3)];
    EncDec(s.g, p.A1);
    EncDec(s.g, p.A2);
    EncDec(s.g, p.A3);
    EncDec(s.g, p.A4);
    FieldsOf(parts);
    assert Field(Concat(parts), 0) == parts[0] && Field(Concat(parts), 1) == parts[1]
        && Field(Concat(parts), 2) == parts[2]
        && Field(Concat(parts), 3) == parts[3] && Field(Concat(parts), 4) == parts[4]
        && Field(Concat(parts), 5) == parts[5]
        && Field(Concat(parts), 6) == parts[6];
    ReadBack(s.q, p.z1);
    ReadBack(s.q, p.z2);
    ReadBack(s.q, p.z3);
  }

  lemma ReadBack(q: int, z: int)
    requires 0 <= z < q && Fits32(q)
    ensures ScalarFromLE32(q, ScalarToLE32(q, z)) == Ok(z)
  {
    hide Bound, ScalarToLE32, ScalarFromLE32;
    ScalarRoundTrip(q, z);
    ModSmall(q, z);
  }

  /** The honest equation over H and G. */
  lemma PairResponds<T(!new)>(s: Setup<T>, t: int, u: int, c: int, v: int, r: int)
    requires s.Valid()
    ensures Accepts(s.g, s.q, Pair(s, Respond(s.q, t, c, v % s.q), Respond(s.q, u, c, r % s.q)), Pair(s, t, u), c,
                    Pair(s, v, r))
  {
    hide PrimeOrder, Laws, Setup<T>.Valid, Scalar, Respond, Accepts;
    SetupFacts(s);
    var g, q := s.g, s.q;
    Responds(g, q, s.H, t, c, v % q);
    Responds(g, q, s.G, u, c, r % q);
    ScalarReduced(g, q, v, s.H);
    ScalarReduced(g, q, r, s.G);
    ScalarElem(g, q, t, s.H);
    ScalarElem(g, q, u, s.G);
    ScalarElem(g, q, v, s.H);
    ScalarElem(g, q, r, s.G);
    AcceptsSum(g, q, Scalar(g, q, Respond(q, t, c, v % q), s.H), Scalar(g, q, t, s.H), Scalar(g, q, v, s.H),
               Scalar(g, q, Respond(q, u, c, r % q), s.G), Scalar(g, q, u, s.G), Scalar(g, q, r, s.G), c);
  }

  lemma HonestStatementOf<T(!new)>(s: Setup<T>, hash: Hash, S: T, D: T, v: int, rS: int, rD: int, t1: int, t2: int,
                                   t3: int)
    requires s.q > 0
    ensures var p, st := HonestParsed(s, hash, S, D, v, rS, rD, t1, t2, t3), HonestStatement(s, S, D, v, rS, rD);
            && st == Statement(s.g.enc(p.source), s.g.enc(p.dest), Ciphertext(s.g.enc(p.c1S), s.g.enc(p.c2S)),
                               Ciphertext(s.g.enc(p.c1D), s.g.enc(p.c2D)))
            && p.c == ChallengeOf(s.q, hash, st, [s.g.enc(p.A1), s.g.enc(p.A2), s.g.enc(p.A3), s.g.enc(p.A4)])
  {
  }

  lemma HonestEquations<T(!new)>(s: Setup<T>, hash: Hash, S: T, D: T, v: int, rS: int, rD: int, t1: int, t2: int,
                                 t3: int)
    requires s.Valid() && s.g.elem(S) && s.g.elem(D)
    ensures Equations(s, HonestParsed(s, hash, S, D, v, rS, rD, t1, t2, t3))
  {
    hide PrimeOrder, Laws, Setup<T>.Valid, Scalar, Pair, Respond, Accepts, ChallengeOf, HonestStatement;
    SetupFacts(s);
    var g, q := s.g, s.q;
    var p := HonestParsed(s, hash, S, D, v, rS, rD, t1, t2, t3);
    PairResponds(s, t1, t2, p.c, v, rS);
    PairResponds(s, t1, t3, p.c, v, rD);
    Responds(g, q, S, t2, p.c, rS % q);
    Responds(g, q, D, t3, p.c, rD % q);
    ScalarReduced(g, q, rS, S);
    ScalarReduced(g, q, rD, D);
  }

  /** For all witnesses and random scalars the prover succeeds exactly when the multipliers it does not guard are not
      zero; its bytes parse back to the points and scalars they were made of; and the verifier accepts them for the
      two ciphertexts of v exactly when the challenge and the three answers are not zero. */
  lemma Completeness<T(!new)>(s: Setup<T>, hash: Hash, S: T, D: T, v: int, rS: int, rD: int, t1: int, t2: int, t3: int)
    requires s.Valid() && s.g.elem(S) && s.g.elem(D)
    ensures var r := Prove(s, hash, s.g.enc(S), s.g.enc(D), v, rS, rD, t1, t2, t3);
            var st := HonestStatement(s, S, D, v, rS, rD);
            var p := HonestParsed(s, hash, S, D, v, rS, rD, t1, t2, t3);
            && (r.Ok? <==> && 1 <= t1 < s.q && 1 <= t2 < s.q && 1 <= t3 < s.q && rS % s.q != 0 && rD % s.q != 0)
            && (r.Ok? ==>
                && |r.value.proofBytes| == 224 && Parse(s, hash, st, r.value.proofBytes) == Ok(p)
                && r.value.sourceCommitment == st.sourceCt.c1 && r.value.destCommitment == st.destCt.c1
                && (Verify(s, hash, st, r.value.proofBytes) <==> NonZero(p)))
  {
    hide PrimeOrder, Laws, Setup<T>.Valid, HonestParsed, HonestBytes, Prove, Parse, Verify, Equations, Pair, Scalar;
    hide ChallengeOf, Members, InRange;
    SetupFacts(s);
    var p := HonestParsed(s, hash, S, D, v, rS, rD, t1, t2, t3);
    var st := HonestStatement(s, S, D, v, rS, rD);
    ProveResult(s, hash, S, D, v, rS, rD, t1, t2, t3);
    HonestMembers(s, hash, S, D, v, rS, rD, t1, t2, t3);
    HonestStatementOf(s, hash, S, D, v, rS, rD, t1, t2, t3);
    ParseHonest(s, hash, st, p);
    HonestEquations(s, hash, S, D, v, rS, rD, t1, t2, t3);
    VerifyMeaning(s, hash, st, HonestBytes(s, p));
  }

  /** The exception occurs: for every value that is not 0 modulo the order, and all other scalars, there is a random
      scalar t1 with which the honest proof is rejected, when the challenge is 1. */
  lemma HonestRejected<T(!new)>(s: Setup<T>, S: T, D: T, v: int, rS: int, rD: int, t2: int, t3: int) returns (t1: int)
    requires s.Valid() && s.g.elem(S) && s.g.elem(D) && v % s.q != 0
    requires rS % s.q != 0 && rD % s.q != 0 && 1 <= t2 < s.q && 1 <= t3 < s.q
    ensures 1 <= t1 < s.q
    ensures var r := Prove(s, ONE_HASH, s.g.enc(S), s.g.enc(D), v, rS, rD, t1, t2, t3);
            r.Ok? && !Verify(s, ONE_HASH, HonestStatement(s, S, D, v, rS, rD), r.value.proofBytes)
  {
    hide PrimeOrder, Laws, Setup<T>.Valid, Prove, Verify, Parse, Challenge, Respond, Scalar, Pair;
    SetupFacts(s);
    t1 := s.q - v % s.q;
    Completeness(s, ONE_HASH, S, D, v, rS, rD, t1, t2, t3);
    var p, st := HonestParsed(s, ONE_HASH, S, D, v, rS, rD, t1, t2, t3), HonestStatement(s, S, D, v, rS, rD);
    HonestStatementOf(s, ONE_HASH, S, D, v, rS, rD, t1, t2, t3);
    OneChallenge(s.q, EQUALITY_DOMAIN,
                 [st.sourcePk, st.destPk, st.sourceCt.c1, st.sourceCt.c2, st.destCt.c1, st.destCt.c2]
                                       + [s.g.enc(p.A1), s.g.enc(p.A2), s.g.enc(p.A3), s.g.enc(p.A4)]);
    ZeroAnswer(s.q, t1, v % s.q);
  }

  // ---------------------------------------------------------------- special soundness

  ghost predicate SameInputs<T>(p: Parsed<T>, p': Parsed<T>) {
    p' == p.(c := p'.c, z1 := p'.z1, z2 := p'.z2, z3 := p'.z3)
  }

  /** Two solutions of the equations for the same commitments and different challenges reveal one value and two
      randomness scalars. */
  lemma Extracted<T(!new)>(s: Setup<T>, p: Parsed<T>, p': Parsed<T>) returns (v: int, rS: int, rD: int)
    requires s.Valid() && Members(s.g, p) && Equations(s, p) && Equations(s, p') && SameInputs(p, p')
    requires InRange(s.q, p) && InRange(s.q, p') && p.c != p'.c
    ensures var e := Inverse(s.q, p.c - p'.c);
            v == e * (p.z1 - p'.z1) && rS == e * (p.z2 - p'.z2) && rD == e * (p.z3 - p'.z3)
    ensures p.c1S == Pair(s, v, rS) && p.c1D == Pair(s, v, rD)
    ensures p.c2S == Scalar(s.g, s.q, rS, p.source) && p.c2D == Scalar(s.g, s.q, rD, p.dest)
  {
    hide PrimeOrder, Laws, Setup<T>.Valid, Scalar, Accepts, Inverse, Divides;
    SetupFacts(s);
    DistinctResidues(s.q, p.c, p'.c);
    var e := Inverse(s.q, p.c - p'.c);
    v, rS, rD := e * (p.z1 - p'.z1), e * (p.z2 - p'.z2), e * (p.z3 - p'.z3);
    ExtractTwo(s.g, s.q, s.H, s.G, p.z1, p.z2, p'.z1, p'.z2, p.A1, p.c, p'.c, p.c1S);
    ExtractTwo(s.g, s.q, s.H, s.G, p.z1, p.z3, p'.z1, p'.z3, p.A2, p.c, p'.c, p.c1D);
    ExtractOne(s.g, s.q, p.source, p.z2, p'.z2, p.A3, p.c, p'.c, p.c2S);
    ExtractOne(s.g, s.q, p.dest, p.z3, p'.z3, p.A4, p.c, p'.c, p.c2D);
  }

  /** Points read from the same fields are the same. */
  lemma SamePoints<T(!new)>(s: Setup<T>, st: Statement, p: Parsed<T>, p': Parsed<T>, proof: seq<Byte>,
                            proof': seq<Byte>)
    requires s.Valid() && Members(s.g, p) && Members(s.g, p') && |proof| == 224 && |proof'| == 224
    requires ReadFrom(s.g, p, st, proof) && ReadFrom(s.g, p', st, proof') && proof[..128] == proof'[..128]
    ensures SameInputs(p, p')
  {
    hide PrimeOrder, Laws, Setup<T>.Valid, Field;
    SetupFacts(s);
    SamePrefix(proof, proof', 128, 0);
    SamePrefix(proof, proof', 128, 1);
    SamePrefix(proof, proof', 128, 2);
    SamePrefix(proof, proof', 128, 3);
    EncInjective(s.g, p.source, p'.source);
    EncInjective(s.g, p.dest, p'.dest);
    EncInjective(s.g, p.c1S, p'.c1S);
    EncInjective(s.g, p.c2S, p'.c2S);
    EncInjective(s.g, p.c1D, p'.c1D);
    EncInjective(s.g, p.c2D, p'.c2D);
    EncInjective(s.g, p.A1, p'.A1);
    EncInjective(s.g, p.A2, p'.A2);
    EncInjective(s.g, p.A3, p'.A3);
    EncInjective(s.g, p.A4, p'.A4);
  }

  /** Two accepted proofs of one statement with the same four commitments, under hashes that give different challenges:
      the two ciphertexts are encryptions of one value v, each under its own key. */
  lemma SpecialSoundness<T(!new)>(s: Setup<T>, hash: Hash, hash': Hash, xS: int, xD: int, st: Statement,
                                  proof: seq<Byte>, proof': seq<Byte>) returns (v: int)
    requires s.Valid() && Verify(s, hash, st, proof) && Verify(s, hash', st, proof') && proof[..128] == proof'[..128]
    requires Parse(s, hash, st, proof).value.c != Parse(s, hash', st, proof').value.c
    requires st.sourcePk == PublicKey(s, xS) && st.destPk == PublicKey(s, xD)
    ensures Encrypts(s, xS, st.sourceCt, v) && Encrypts(s, xD, st.destCt, v)
  {
    hide PrimeOrder, Laws, Setup<T>.Valid, Scalar, Parse, Verify, Equations, Inverse, Field, Pair;
    SetupFacts(s);
    VerifyMeaning(s, hash, st, proof);
    VerifyMeaning(s, hash', st, proof');
    ParsedMembers(s, hash, st, proof);
    ParsedMembers(s, hash', st, proof');
    var p, p' := Parse(s, hash, st, proof).value, Parse(s, hash', st, proof').value;
    SamePoints(s, st, p, p', proof, proof');
    var v', rS, rD := Extracted(s, p, p');
    v := v';
    KeyedCipher(s, xS, p.source, st.sourcePk, st.sourceCt, v, rS, p.c1S, p.c2S);
    KeyedCipher(s, xD, p.dest, st.destPk, st.destCt, v, rD, p.c1D, p.c2D);
  }

  /** (v*H + r*G, r*P) with P = x*G is an encryption of v under x. */
  lemma KeyedCipher<T(!new)>(s: Setup<T>, x: int, P: T, pk: seq<Byte>, ct: Ciphertext, v: int, r: int, c1: T, c2: T)
    requires s.Valid() && s.g.elem(P) && s.g.enc(P) == pk == PublicKey(s, x)
    requires ct == Ciphertext(s.g.enc(c1), s.g.enc(c2)) && c1 == Pair(s, v, r) && c2 == Scalar(s.g, s.q, r, P)
    ensures Encrypts(s, x, ct, v)
  {
    hide PrimeOrder, Laws, Setup<T>.Valid, Scalar;
    SetupFacts(s);
    var mask := Scalar(s.g, s.q, r, s.G);
    ScalarElem(s.g, s.q, r, s.G);
    ScalarElem(s.g, s.q, x, s.G);
    EncInjective(s.g, P, Scalar(s.g, s.q, x, s.G));
    ScalarScalar(s.g, s.q, r, x, s.G);
    ScalarScalar(s.g, s.q, x, r, s.G);
    assert r * x == x * r;
    assert EncryptsWith(s, x, ct, v, mask);
  }

  /** So the holders of the two keys decrypt the same. */
  lemma SoundnessDecrypts<T(!new)>(s: Setup<T>, xS: int, xD: int, st: Statement, v: int, skS: seq<Byte>, skD: seq<Byte>,
                                   maxBalance: int, step: int)
    requires s.Valid() && Encrypts(s, xS, st.sourceCt, v) && Encrypts(s, xD, st.destCt, v)
    requires xS % s.q != 0 && xD % s.q != 0
    requires ScalarFromLE32(s.q, skS) == Ok(xS % s.q) && ScalarFromLE32(s.q, skD) == Ok(xD % s.q)
    ensures Decrypted(s, skS, st.sourceCt, maxBalance, step) == Decrypted(s, skD, st.destCt, maxBalance, step)
  {
    hide PrimeOrder, Laws, Setup<T>.Valid, Encrypts, Decrypted;
    SetupFacts(s);
    DecryptSpec(s, xS, skS, st.sourceCt, v, maxBalance, step);
    DecryptSpec(s, xD, skD, st.destCt, v, maxBalance, step);
  }
}
