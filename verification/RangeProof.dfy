/** The range proof as bytes: what the prover emits, and what the structural verifier expects. */
module RangeProof {
  import opened Numbers
  import opened Bytes
  import opened Wrappers
  import opened Groups
  import opened Scalars
  import opened SdkGroup
  import opened ScalarCodec
  import opened ByteTools
  import opened Sigma
  import opened Transcript
  import opened InnerProduct
  import opened InnerProductProver
  import opened InnerProductLoop
  import opened RangeWitness
  import ModularInverse
  import TwistedElGamal

  const TRANSCRIPT_DOMAIN: seq<Byte> := Label("ghos.bulletproof.v1")

  datatype RangeProof = RangeProof(proofBytes: seq<Byte>, commitment: seq<Byte>, bitLength: int)

  /** The random scalars, in the order they are drawn. */
  datatype Randomness = Randomness(blinding: int, alpha: int, sL: seq<int>, sR: seq<int>, rho: int,
                                   tau1: int, tau2: int, t1: int, t2: int)

  /** The commitments and scalars in front of the inner-product argument. */
  datatype Header<T> = Header(A: T, S: T, T1: T, T2: T, tauX: int, mu: int, tHat: int)

  function EncodeAll<T>(g: Group<T>, ps: seq<T>): (r: seq<seq<Byte>>)
    ensures |r| == |ps| && forall i :: 0 <= i < |r| ==> r[i] == g.enc(ps[i])
  {
    seq(|ps|, i requires 0 <= i < |ps| => g.enc(ps[i]))
  }

  function Layout<T>(g: Group<T>, q: int, h: Header<T>, ip: Answer<T>): seq<seq<Byte>>
    requires q > 0
  {
    [g.enc(h.A), g.enc(h.S), g.enc(h.T1), g.enc(h.T2), ScalarToLE32(q, h.tauX), ScalarToLE32(q, h.mu),
     ScalarToLE32(q, h.tHat)]
    + EncodeAll(g, ip.l) + EncodeAll(g, ip.r) + [ScalarToLE32(q, ip.a), ScalarToLE32(q, ip.b)]
  }

  predicate IsPowerOfTwo(n: nat) {
    n == Exp2(Log2(n))
  }

  lemma {:induction false} PowersOfTwo(n: nat)
    ensures IsPowerOfTwo(n) <==> exists k: nat :: n == Exp2(k)
  {
    if IsPowerOfTwo(n) {
      assert n == Exp2(Log2(n));
    } else if k: nat :| n == Exp2(k) {
      Log2Exp2(k);
    }
  }

  /** 32 bytes for each of nine fields and two per round. */
  function ExpectedSize(bitLength: nat): nat {
    32 * 4 + 32 * 3 + Log2(bitLength) * 32 * 2 + 32 * 2
  }

  function ProofSize(bitLength: nat): Result<nat, SdkError> {
    if !IsPowerOfTwo(bitLength) then Err(InvalidInput) else Ok(ExpectedSize(bitLength))
  }

  /** The structural check: sizes, and that the commitment and the first four fields are points. */
  predicate Verify<T>(g: Group<T>, proof: RangeProof) {
    && 0 < proof.bitLength <= 128
    && IsPowerOfTwo(proof.bitLength)
    && |proof.proofBytes| == ExpectedSize(proof.bitLength)
    && PointFromBytes(g, proof.commitment).Ok?
    && PointFromBytes(g, Field(proof.proofBytes, 0)).Ok? && PointFromBytes(g, Field(proof.proofBytes, 1)).Ok?
    && PointFromBytes(g, Field(proof.proofBytes, 2)).Ok? && PointFromBytes(g, Field(proof.proofBytes, 3)).Ok?
  }

  ghost predicate HeaderMembers<T(!new)>(g: Group<T>, h: Header<T>) {
    g.elem(h.A) && g.elem(h.S) && g.elem(h.T1) && g.elem(h.T2)
  }

  ghost predicate Wide(parts: seq<seq<Byte>>) {
    forall p :: p in parts ==> |p| == 32
  }

  lemma WideSum(a: seq<seq<Byte>>, b: seq<seq<Byte>>)
    requires Wide(a) && Wide(b)
    ensures Wide(a + b)
  {
  }

  /** The bytes of a proof with n rounds: every field is found again at its offset. */
  lemma LayoutFields<T(!new)>(s: Setup<T>, h: Header<T>, ip: Answer<T>)
    requires s.Valid() && HeaderMembers(s.g, h) && |ip.l| == |ip.r|
    requires forall i :: 0 <= i < |ip.l| ==> s.g.elem(ip.l[i]) && s.g.elem(ip.r[i])
    ensures var parts := Layout(s.g, s.q, h, ip);
            && |parts| == 9 + 2 * |ip.l| && |Concat(parts)| == 32 * |parts|
            && forall k: nat :: k < |parts| ==> Field(Concat(parts), k) == parts[k]
  {
    hide PrimeOrder, Laws, Setup<T>.Valid, Concat, ScalarToLE32, Field;
    SetupFacts(s);
    EncDec(s.g, h.A);
    EncDec(s.g, h.S);
    EncDec(s.g, h.T1);
    EncDec(s.g, h.T2);
    EncodedLengths(s.g, ip.l);
    EncodedLengths(s.g, ip.r);
    var head := [s.g.enc(h.A), s.g.enc(h.S), s.g.enc(h.T1), s.g.enc(h.T2),
                 ScalarToLE32(s.q, h.tauX), ScalarToLE32(s.q, h.mu), ScalarToLE32(s.q, h.tHat)];
    var l, r, tail := EncodeAll(s.g, ip.l), EncodeAll(s.g, ip.r), [ScalarToLE32(s.q, ip.a), ScalarToLE32(s.q, ip.b)];
    assert Wide(head) && Wide(tail);
    hide EncodeAll;
    WideSum(head, l);
    WideSum(head + l, r);
    WideSum(head + l + r, tail);
    FieldsOf(head + l + r + tail);
  }

  /** The size is that of floor(log2 n) rounds, and the structural check accepts exactly when n is a power of two. */
  lemma LayoutSpec<T(!new)>(s: Setup<T>, h: Header<T>, ip: Answer<T>, commitment: T, n: nat)
    requires s.Valid() && HeaderMembers(s.g, h) && s.g.elem(commitment) && 1 <= n <= 128
    requires |ip.l| == Log2(n) && |ip.r| == Log2(n)
    requires forall i :: 0 <= i < |ip.l| ==> s.g.elem(ip.l[i]) && s.g.elem(ip.r[i])
    ensures var proof := RangeProof(Concat(Layout(s.g, s.q, h, ip)), s.g.enc(commitment), n);
            && |proof.proofBytes| == ExpectedSize(n)
            && (Verify(s.g, proof) <==> IsPowerOfTwo(n))
  {
    hide PrimeOrder, Laws, Setup<T>.Valid, Concat, ScalarToLE32, PointFromBytes, Field, Log2, IsPowerOfTwo;
    SetupFacts(s);
    var parts := Layout(s.g, s.q, h, ip);
    LayoutFields(s, h, ip);
    FirstFields(s.g, s.q, h, ip);
    hide Layout;
    ParseEncoded(s.g, h.A);
    ParseEncoded(s.g, h.S);
    ParseEncoded(s.g, h.T1);
    ParseEncoded(s.g, h.T2);
    ParseEncoded(s.g, commitment);
    assert Field(Concat(parts), 0) == parts[0] && Field(Concat(parts), 1) == parts[1]
        && Field(Concat(parts), 2) == parts[2] && Field(Concat(parts), 3) == parts[3];
  }

  lemma FirstFields<T>(g: Group<T>, q: int, h: Header<T>, ip: Answer<T>)
    requires q > 0
    ensures var parts := Layout(g, q, h, ip);
            && |parts| >= 9 && parts[0] == g.enc(h.A) && parts[1] == g.enc(h.S) && parts[2] == g.enc(h.T1)
            && parts[3] == g.enc(h.T2)
  {
    hide ScalarToLE32;
  }

  lemma EncodedLengths<T(!new)>(g: Group<T>, ps: seq<T>)
    requires Laws(g) && forall i :: 0 <= i < |ps| ==> g.elem(ps[i])
    ensures Wide(EncodeAll(g, ps))
  {
    hide Laws;
    forall i | 0 <= i < |ps| ensures |g.enc(ps[i])| == 32 {
      EncDec(g, ps[i]);
    }
  }

  // ---------------------------------------------------------------- the prover

  /** The scalars that the prover multiplies by without a guard. */
  ghost predicate Unguarded(q: int, rnd: Randomness) {
    && 1 <= rnd.alpha < q && 1 <= rnd.rho < q && 1 <= rnd.tau1 < q && 1 <= rnd.tau2 < q
    && AllInRange(q, rnd.sL) && AllInRange(q, rnd.sR)
  }

  /** The witness that the inner-product argument folds. */
  function Witness<T>(q: int, bits: seq<int>, z: int, rnd: Randomness, gVec: seq<T>, hVec: seq<T>): (V: Vectors<T>)
    requires q > 0 && |rnd.sL| == |rnd.sR| == |gVec| == |hVec| == |bits|
    ensures SameLengths(V) && |V.a| == |bits|
  {
    Vectors(Mixed(q, Reduced(q, bits, 0), rnd.sL), Mixed(q, Reduced(q, Complement(bits), z % q), rnd.sR), gVec, hVec)
  }

  /** Every entry plus z, reduced. */
  function Reduced(q: int, a: seq<int>, z: int): (r: seq<int>)
    requires q > 0
    ensures |r| == |a|
  {
    seq(|a|, i requires 0 <= i < |a| => (a[i] + z) % q)
  }

  /** t*G + tau*H, the second multiplication not guarded. */
  method CommitT<T(!new)>(s: Setup<T>, t: int, tau: int) returns (r: Result<T, SdkError>)
    requires s.Valid()
    ensures r == if 1 <= tau < s.q then Ok(BlindedPoint(s, t, tau)) else Err(ScalarOutOfRange)
    ensures r.Ok? ==> s.g.elem(r.value)
  {
    hide PrimeOrder, Laws, Setup<T>.Valid, Scalar, Multiply, MultBase;
    SetupFacts(s);
    MultBaseIsScalar(s.g, s.q, s.G, t);
    MultiplyIsScalar(s.g, s.q, s.H, tau);
    MultiplyError(s.g, s.q, s.H, tau);
    var tG := MultBase(s.g, s.q, s.G, t).value;
    var tauH := Multiply(s.g, s.q, s.H, tau);
    if tauH.Err? {
      return Err(ScalarOutOfRange);
    }
    AddElem(s.g, tG, tauH.value);
    r := Ok(s.g.add(tG, tauH.value));
  }

  /** value*H + r*G, both guarded. */
  function PedersenCommit<T(!new)>(s: Setup<T>, value: int, r: int): T
    requires s.q > 0
  {
    s.g.add(Scalar(s.g, s.q, value, s.H), Scalar(s.g, s.q, r, s.G))
  }

  /** The commitment of the range proof is the first half of a ciphertext of the same value and randomness. */
  lemma CommitmentIsCipherHalf<T(!new)>(s: Setup<T>, x: int, value: int, r: int)
    requires s.Valid() && r % s.q != 0
    ensures var ct := TwistedElGamal.EncryptWithRandomness(s, TwistedElGamal.PublicKey(s, x), value, r);
            ct.Ok? && ct.value.c1 == s.g.enc(PedersenCommit(s, value, r))
  {
    hide PrimeOrder, Laws, Setup<T>.Valid, Scalar, PointFromBytes, Multiply, MultBase;
    SetupFacts(s);
    var P := Scalar(s.g, s.q, x, s.G);
    ScalarElem(s.g, s.q, x, s.G);
    ParseEncoded(s.g, P);
    MultBaseIsScalar(s.g, s.q, s.H, value);
    MultiplyIsScalar(s.g, s.q, s.G, r % s.q);
    MultiplyIsScalar(s.g, s.q, P, r % s.q);
    TwistedElGamal.ScalarReduced(s.g, s.q, r, s.G);
  }

  /** The challenges of the header and the state of the transcript behind them. */
  datatype Challenges = Challenges(y: int, z: int, x: int, acc: seq<Byte>)

  /** The transcript from the domain over commitment, A, S, y, z, T1, T2 and x. */
  function HeaderChallenges<T>(g: Group<T>, q: int, hash: Hash, commitment: seq<Byte>, h: Header<T>): Challenges
    requires q > 0
  {
    ChallengesFrom(g, q, hash, Appended(hash, TRANSCRIPT_DOMAIN, "commitment", commitment), h)
  }

  function ChallengesFrom<T>(g: Group<T>, q: int, hash: Hash, start: seq<Byte>, h: Header<T>): Challenges
    requires q > 0
  {
    var points := Appended(hash, Appended(hash, start, "A", g.enc(h.A)), "S", g.enc(h.S));
    var (y, afterY) := Drawn(q, hash, points, "y");
    var (z, afterZ) := Drawn(q, hash, afterY, "z");
    var polynomials := Appended(hash, Appended(hash, afterZ, "T1", g.enc(h.T1)), "T2", g.enc(h.T2));
    var (x, end) := Drawn(q, hash, polynomials, "x");
    Challenges(y, z, x, end)
  }

  /** What the prover leaves behind for its proof: the header, the challenge z, and the transcript where folding
      starts. */
  datatype Trace<T> = Trace(header: Header<T>, z: int, acc: seq<Byte>)

  /** The trace of the honest prover: its commitments, and the challenges that the transcript gives for them. */
  ghost predicate HonestTrace<T(!new)>(s: Setup<T>, hash: Hash, value: nat, rnd: Randomness, gVec: seq<T>,
                                       hVec: seq<T>, tr: Trace<T>)
    requires s.q > 2 && |rnd.sL| == |rnd.sR| == |gVec| == |hVec|
  {
    var bits := Bits(value, |gVec|);
    var c := HeaderChallenges(s.g, s.q, hash, s.g.enc(PedersenCommit(s, value, rnd.blinding)), tr.header);
    && tr.header.A == VectorCommitment(s, rnd.alpha, bits, Complement(bits), gVec, hVec)
    && tr.header.S == VectorCommitment(s, rnd.rho, rnd.sL, rnd.sR, gVec, hVec)
    && tr.header.T1 == BlindedPoint(s, rnd.t1, rnd.tau1) && tr.header.T2 == BlindedPoint(s, rnd.t2, rnd.tau2)
    && HonestScalars(s.q, value, rnd, c, tr.header)
    && tr.z == c.z && tr.acc == c.acc
  }

  /** tau_x = tau_2*x^2 + tau_1*x + z^2*r, mu = alpha + rho*x and t_hat = t_1*x + t_2*x^2 + z^2*value, modulo q. */
  ghost predicate HonestScalars<T>(q: int, value: int, rnd: Randomness, c: Challenges, h: Header<T>) {
    && 0 <= h.tauX < q && Eq(q, h.tauX, rnd.tau2 * (c.x * c.x) + rnd.tau1 * c.x + (c.z * c.z) * rnd.blinding)
    && 0 <= h.mu < q && Eq(q, h.mu, rnd.alpha + rnd.rho * c.x)
    && 0 <= h.tHat < q && Eq(q, h.tHat, rnd.t1 * c.x + rnd.t2 * (c.x * c.x) + value * (c.z * c.z))
  }

  /** A sum of three reduced products, one factor of which may be reduced before. */
  lemma ThreeReduced(q: int, a: int, b: int, c: int, A: int, B: int, C: int)
    requires q > 0 && Eq(q, a, A) && Eq(q, b, B) && Eq(q, c, C)
    ensures var r := (a % q + b % q + c % q) % q; 0 <= r < q && Eq(q, r, A + B + C)
  {
    hide Divides;
    EqMod(q, a);
    EqMod(q, b);
    EqMod(q, c);
    EqTrans(q, a % q, a, A);
    EqTrans(q, b % q, b, B);
    EqTrans(q, c % q, c, C);
    EqAdd(q, a % q, A, b % q, B);
    EqAdd(q, a % q + b % q, A + B, c % q, C);
    EqMod(q, a % q + b % q + c % q);
    EqTrans(q, (a % q + b % q + c % q) % q, a % q + b % q + c % q, A + B + C);
  }

  /** The header with its scalars, computed with the reductions of the source. */
  function MakeHeader<T>(q: int, value: int, rnd: Randomness, A: T, S: T, T1: T, T2: T, z: int, x: int): Header<T>
    requires q > 0
  {
    var z2, xSq := (z * z) % q, (x * x) % q;
    var tauX := ((rnd.tau2 * xSq) % q + (rnd.tau1 * x) % q + (z2 * rnd.blinding) % q) % q;
    var mu := (rnd.alpha + (rnd.rho * x) % q) % q;
    var tHat := ((rnd.t1 * x) % q + (rnd.t2 * xSq) % q + (value * z2) % q) % q;
    Header(A, S, T1, T2, tauX, mu, tHat)
  }

  lemma HeaderScalars<T>(q: int, value: int, rnd: Randomness, A: T, S: T, T1: T, T2: T, c: Challenges)
    requires q > 0
    ensures var h := MakeHeader(q, value, rnd, A, S, T1, T2, c.z, c.x);
            && h.A == A && h.S == S && h.T1 == T1 && h.T2 == T2 && HonestScalars(q, value, rnd, c, h)
  {
    hide Divides, Eq;
    var x, z := c.x, c.z;
    var z2, xSq := (z * z) % q, (x * x) % q;
    EqMod(q, z * z);
    EqMod(q, x * x);
    EqScale(q, rnd.tau2, xSq, x * x);
    EqRefl(q, rnd.tau1 * x);
    EqRefl(q, rnd.blinding);
    EqMul(q, z2, z * z, rnd.blinding, rnd.blinding);
    ThreeReduced(q, rnd.tau2 * xSq, rnd.tau1 * x, z2 * rnd.blinding, rnd.tau2 * (x * x), rnd.tau1 * x,
                 (z * z) * rnd.blinding);
    EqRefl(q, rnd.t1 * x);
    EqScale(q, rnd.t2, xSq, x * x);
    EqScale(q, value, z2, z * z);
    ThreeReduced(q, rnd.t1 * x, rnd.t2 * xSq, value * z2, rnd.t1 * x, rnd.t2 * (x * x), value * (z * z));
    EqRefl(q, rnd.alpha);
    EqMod(q, rnd.rho * x);
    EqAdd(q, rnd.alpha, rnd.alpha, (rnd.rho * x) % q, rnd.rho * x);
    EqMod(q, rnd.alpha + (rnd.rho * x) % q);
    EqTrans(q, (rnd.alpha + (rnd.rho * x) % q) % q, rnd.alpha + (rnd.rho * x) % q, rnd.alpha + rnd.rho * x);
  }

  /** t*G + tau*H. */
  function BlindedPoint<T(!new)>(s: Setup<T>, t: int, tau: int): T
    requires s.q > 0
  {
    s.g.add(Scalar(s.g, s.q, t, s.G), Scalar(s.g, s.q, tau, s.H))
  }

  /** The proof belongs to the value: A and S commit to its bits and to the blinding vectors, the challenges are
      those of the transcript, and the rest is the run of the inner-product argument on the witness. */
  ghost predicate ProofOf<T(!new)>(s: Setup<T>, hash: Hash, value: nat, rnd: Randomness, gVec: seq<T>, hVec: seq<T>,
                                   proof: RangeProof, tr: Trace<T>)
    requires s.q > 2 && |rnd.sL| == |rnd.sR| == |gVec| == |hVec|
  {
    var n := |gVec|;
    var bits := Bits(value, n);
    var run := Run(s, hash, Witness(s.q, bits, tr.z, rnd, gVec, hVec), tr.acc);
    && run.Ok?
    && proof.bitLength == n && proof.commitment == s.g.enc(PedersenCommit(s, value, rnd.blinding))
    && HonestTrace(s, hash, value, rnd, gVec, hVec, tr) && HeaderMembers(s.g, tr.header)
    && (var o := run.value.0;
        proof.proofBytes == Concat(Layout(s.g, s.q, tr.header, Answer(o.l, o.r, First(o.last.a), First(o.last.b)))))
  }

  /** The header: the four commitments, the challenges between them, and the three scalars. */
  method ProveHeader<T(!new)>(s: Setup<T>, value: nat, bits: seq<int>, rnd: Randomness, gVec: seq<T>, hVec: seq<T>,
                              transcript: Transcript)
    returns (r: Result<(Header<T>, int), SdkError>)
    requires s.Valid() && Generators(s.g, gVec, hVec) && |rnd.sL| == |rnd.sR| == |gVec| == |bits|
    requires forall i :: 0 <= i < |bits| ==> bits[i] == 0 || bits[i] == 1
    modifies transcript
    ensures !Unguarded(s.q, rnd) ==> r == Err(ScalarOutOfRange)
    ensures Unguarded(s.q, rnd) ==>
              && r.Ok? && HeaderMembers(s.g, r.value.0)
              && r.value.0.A == VectorCommitment(s, rnd.alpha, bits, Complement(bits), gVec, hVec)
              && r.value.0.S == VectorCommitment(s, rnd.rho, rnd.sL, rnd.sR, gVec, hVec)
              && r.value.0.T1 == BlindedPoint(s, rnd.t1, rnd.tau1) && r.value.0.T2 == BlindedPoint(s, rnd.t2, rnd.tau2)
              && (var c := ChallengesFrom(s.g, s.q, transcript.hash, old(transcript.acc), r.value.0);
                  r.value.1 == c.z && transcript.acc == c.acc && HonestScalars(s.q, value, rnd, c, r.value.0))
  {
    hide PrimeOrder, Laws, Setup<T>.Valid, Scalar, VectorCommitment, Complement, MakeHeader, HonestScalars;
    hide BlindedPoint, Appended, Drawn;
    SetupFacts(s);
    var q := s.q;
    var A := CommitBits(s, rnd.alpha, bits, gVec, hVec);
    if A.Err? {
      return Err(ScalarOutOfRange);
    }
    var S := CommitBlinding(s, rnd.rho, rnd.sL, rnd.sR, gVec, hVec);
    if S.Err? {
      return Err(ScalarOutOfRange);
    }
    transcript.Append("A", s.g.enc(A.value));
    transcript.Append("S", s.g.enc(S.value));
    var y := transcript.ChallengeScalar(q, "y");
    var z := transcript.ChallengeScalar(q, "z");
    var T1 := CommitT(s, rnd.t1, rnd.tau1);
    if T1.Err? {
      return Err(ScalarOutOfRange);
    }
    var T2 := CommitT(s, rnd.t2, rnd.tau2);
    if T2.Err? {
      return Err(ScalarOutOfRange);
    }
    transcript.Append("T1", s.g.enc(T1.value));
    transcript.Append("T2", s.g.enc(T2.value));
    var x := transcript.ChallengeScalar(q, "x");
    var h := MakeHeader(q, value, rnd, A.value, S.value, T1.value, T2.value, z, x);
    HeaderScalars(q, value, rnd, A.value, S.value, T1.value, T2.value, Challenges(y, z, x, transcript.acc));
    r := Ok((h, z));
  }

  lemma WitnessFits<T(!new)>(s: Setup<T>, bits: seq<int>, z: int, rnd: Randomness, gVec: seq<T>, hVec: seq<T>)
    requires s.Valid() && Generators(s.g, gVec, hVec) && |rnd.sL| == |rnd.sR| == |gVec| == |bits|
    ensures WellFormed(s.g, s.q, Witness(s.q, bits, z, rnd, gVec, hVec))
  {
    hide PrimeOrder, Laws, Setup<T>.Valid;
    SetupFacts(s);
  }

  /** The prover. It rejects values outside [0, 2^n) and lengths outside 1..128; otherwise it throws when one of its
      unguarded scalars is zero, fails when a folding challenge has no inverse, and else returns the proof of the
      value. */
  method Prove<T(!new)>(s: Setup<T>, hash: Hash, value: int, bitLength: int, rnd: Randomness, gVec: seq<T>,
                        hVec: seq<T>)
    returns (r: Result<RangeProof, SdkError>, ghost tr: Trace<T>)
    requires s.Valid() && Generators(s.g, gVec, hVec) && |rnd.sL| == |rnd.sR| == |gVec|
    requires 0 < bitLength <= 128 ==> |gVec| == bitLength
    ensures value < 0 ==> r == Err(InvalidAmount)
    ensures value >= 0 && !(0 < bitLength <= 128) ==> r == Err(InvalidInput)
    ensures 0 < bitLength <= 128 && value >= Exp2(bitLength) ==> r == Err(BalanceOutOfRange)
    ensures 0 < bitLength <= 128 && 0 <= value < Exp2(bitLength) ==>
              && (!Unguarded(s.q, rnd) ==> r == Err(ScalarOutOfRange))
              && (Unguarded(s.q, rnd) ==>
                  && HonestTrace(s, hash, value, rnd, gVec, hVec, tr)
                  && if Run(s, hash, Witness(s.q, Bits(value, bitLength), tr.z, rnd, gVec, hVec), tr.acc).Ok?
                     then r.Ok? && ProofOf(s, hash, value, rnd, gVec, hVec, r.value, tr)
                     else r == Err(ProofGenerationFailed))
  {
    hide PrimeOrder, Laws, Setup<T>.Valid, Scalar, VectorCommitment, Run, Unguarded, Generators, MultBase, Bits, Fits32;
    SetupFacts(s);
    tr := Trace(Header(s.G, s.G, s.G, s.G, 0, 0, 0), 0, []);
    if value < 0 {
      r := Err(InvalidAmount);
      return;
    }
    if bitLength <= 0 || bitLength > 128 {
      r := Err(InvalidInput);
      return;
    }
    if value > Exp2(bitLength) - 1 {
      r := Err(BalanceOutOfRange);
      return;
    }
    MultBaseIsScalar(s.g, s.q, s.H, value);
    MultBaseIsScalar(s.g, s.q, s.G, rnd.blinding);
    var commitment :=
      s.g.enc(s.g.add(MultBase(s.g, s.q, s.H, value).value, MultBase(s.g, s.q, s.G, rnd.blinding).value));
    var aL := BitsLE(value, bitLength);
    var transcript := new Transcript(hash, TRANSCRIPT_DOMAIN);
    transcript.Append("commitment", commitment);
    var header := ProveHeader(s, value, aL, rnd, gVec, hVec, transcript);
    if header.Err? {
      r := Err(header.error);
      return;
    }
    var h, z := header.value.0, header.value.1;
    tr := Trace(h, z, transcript.acc);
    GeneratorsAt(s.g, gVec, hVec);
    var ip := InnerProductProve(s, Reduced(s.q, aL, 0), Reduced(s.q, Complement(aL), z % s.q), rnd.sL, rnd.sR, gVec,
                                hVec, transcript);
    RunError(s, hash, Witness(s.q, aL, z, rnd, gVec, hVec), tr.acc);
    if ip.Err? {
      r := Err(ip.error);
      return;
    }
    r := Ok(RangeProof(Concat(Layout(s.g, s.q, h, ip.value)), commitment, bitLength));
  }

  lemma {:induction false} RunError<T(!new)>(s: Setup<T>, hash: Hash, V: Vectors<T>, acc: seq<Byte>)
    requires s.q > 2 && SameLengths(V)
    ensures Run(s, hash, V, acc).Err? ==> Run(s, hash, V, acc) == Err(ProofGenerationFailed)
    decreases |V.a|
  {
    hide CrossL, CrossR, RoundChallenge;
    if |V.a| > 1 {
      var (u, acc') := RoundChallenge(s, hash, V, acc);
      FoldLengths(s.g, s.q, V, u, ModularInverse.Inverse(s.q, u));
      RunError(s, hash, Fold(s.g, s.q, V, u, ModularInverse.Inverse(s.q, u)), acc');
    }
  }

  /** Every proof about n bits has the size of floor(log2 n) rounds, and the structural check accepts it exactly when
      n is a power of two; its size is then the one the SDK announces. */
  lemma ProofSizes<T(!new)>(s: Setup<T>, hash: Hash, value: nat, rnd: Randomness, gVec: seq<T>, hVec: seq<T>,
                            proof: RangeProof, tr: Trace<T>)
    requires s.Valid() && Generators(s.g, gVec, hVec) && |rnd.sL| == |rnd.sR| == |gVec| && 1 <= |gVec| <= 128
    requires ProofOf(s, hash, value, rnd, gVec, hVec, proof, tr)
    ensures |proof.proofBytes| == ExpectedSize(proof.bitLength)
    ensures Verify(s.g, proof) <==> IsPowerOfTwo(proof.bitLength)
    ensures IsPowerOfTwo(proof.bitLength) ==> ProofSize(proof.bitLength) == Ok(|proof.proofBytes|)
  {
    hide PrimeOrder, Laws, Setup<T>.Valid, Scalar, VectorCommitment, Run, Bits, Layout, Verify, Log2, IsPowerOfTwo;
    hide Generators, Divides;
    SetupFacts(s);
    var bits := Bits(value, |gVec|);
    var V := Witness(s.q, bits, tr.z, rnd, gVec, hVec);
    GeneratorsAt(s.g, gVec, hVec);
    WitnessFits(s, bits, tr.z, rnd, gVec, hVec);
    RunShape(s, hash, V, tr.acc);
    var o := Run(s, hash, V, tr.acc).value.0;
    ScalarElem(s.g, s.q, value, s.H);
    ScalarElem(s.g, s.q, rnd.blinding, s.G);
    AddElem(s.g, Scalar(s.g, s.q, value, s.H), Scalar(s.g, s.q, rnd.blinding, s.G));
    LayoutSpec(s, tr.header, Answer(o.l, o.r, First(o.last.a), First(o.last.b)), PedersenCommit(s, value, rnd.blinding),
               |gVec|);
  }
}
