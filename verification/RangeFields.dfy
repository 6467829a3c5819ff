/** The range proof as it is read back from its bytes, and the equation that the parts read satisfy. */
module RangeFields {
  import opened Numbers
  import opened Bytes
  import opened Wrappers
  import opened Groups
  import opened Scalars
  import opened Sums
  import opened SdkGroup
  import opened ScalarCodec
  import opened ByteTools
  import opened Sigma
  import opened Transcript
  import ModularInverse
  import opened InnerProduct
  import opened InnerProductProver
  import opened InnerProductLoop
  import opened RangeWitness
  import opened RangeProof

  // ---------------------------------------------------------------- the fields

  /** The bytes hold, field by field: A, S, T1, T2, tau_x, mu, t_hat, the k points L, the k points R, a and b. */
  ghost predicate Reads<T(!new)>(g: Group<T>, q: int, b: seq<Byte>, k: nat, h: Header<T>, ip: Answer<T>)
    requires q > 0
  {
    && |b| == 32 * (9 + 2 * k) && |ip.l| == k && |ip.r| == k
    && PointFromBytes(g, Field(b, 0)) == Ok(h.A) && PointFromBytes(g, Field(b, 1)) == Ok(h.S)
    && PointFromBytes(g, Field(b, 2)) == Ok(h.T1) && PointFromBytes(g, Field(b, 3)) == Ok(h.T2)
    && ScalarFromLE32(q, Field(b, 4)) == Ok(h.tauX) && ScalarFromLE32(q, Field(b, 5)) == Ok(h.mu)
    && ScalarFromLE32(q, Field(b, 6)) == Ok(h.tHat)
    && (forall j: nat :: j < k ==> PointFromBytes(g, Field(b, 7 + j)) == Ok(ip.l[j]))
    && (forall j: nat :: j < k ==> PointFromBytes(g, Field(b, 7 + k + j)) == Ok(ip.r[j]))
    && ScalarFromLE32(q, Field(b, 7 + 2 * k)) == Ok(ip.a) && ScalarFromLE32(q, Field(b, 8 + 2 * k)) == Ok(ip.b)
  }

  /** What is read is determined by the bytes. */
  lemma ReadsUnique<T(!new)>(g: Group<T>, q: int, b: seq<Byte>, k: nat, h: Header<T>, ip: Answer<T>, h': Header<T>,
                             ip': Answer<T>)
    requires q > 0 && Reads(g, q, b, k, h, ip) && Reads(g, q, b, k, h', ip')
    ensures h == h' && ip == ip'
  {
    hide PointFromBytes, ScalarFromLE32, Field;
    forall j: nat | j < k ensures ip.l[j] == ip'.l[j] && ip.r[j] == ip'.r[j] {
      assert PointFromBytes(g, Field(b, 7 + j)) == Ok(ip.l[j]) && PointFromBytes(g, Field(b, 7 + k + j)) == Ok(ip.r[j]);
    }
    assert ip.l == ip'.l && ip.r == ip'.r;
  }

  lemma ReducedScalar(q: int, n: int)
    requires 0 <= n < q && Fits32(q)
    ensures ScalarFromLE32(q, ScalarToLE32(q, n)) == Ok(n)
  {
    hide ScalarFromLE32, ScalarToLE32;
    ScalarRoundTrip(q, n);
    ModSmall(q, n);
  }

  /** The parts of the layout, by index. */
  lemma LayoutAt<T>(g: Group<T>, q: int, h: Header<T>, ip: Answer<T>)
    requires q > 0 && |ip.l| == |ip.r|
    ensures var parts, k := Layout(g, q, h, ip), |ip.l|;
            && |parts| == 9 + 2 * k
            && parts[0] == g.enc(h.A) && parts[1] == g.enc(h.S) && parts[2] == g.enc(h.T1) && parts[3] == g.enc(h.T2)
            && parts[4] == ScalarToLE32(q, h.tauX) && parts[5] == ScalarToLE32(q, h.mu)
            && parts[6] == ScalarToLE32(q, h.tHat)
            && (forall j: nat :: j < k ==> parts[7 + j] == g.enc(ip.l[j]) && parts[7 + k + j] == g.enc(ip.r[j]))
            && parts[7 + 2 * k] == ScalarToLE32(q, ip.a) && parts[8 + 2 * k] == ScalarToLE32(q, ip.b)
  {
    hide ScalarToLE32;
  }

  ghost predicate ReducedHeader<T>(q: int, h: Header<T>) {
    0 <= h.tauX < q && 0 <= h.mu < q && 0 <= h.tHat < q
  }

  lemma LayoutReads<T(!new)>(s: Setup<T>, h: Header<T>, ip: Answer<T>)
    requires s.Valid() && HeaderMembers(s.g, h) && ReducedHeader(s.q, h)
    requires |ip.l| == |ip.r| && 0 <= ip.a < s.q && 0 <= ip.b < s.q
    requires forall i :: 0 <= i < |ip.l| ==> s.g.elem(ip.l[i]) && s.g.elem(ip.r[i])
    ensures Reads(s.g, s.q, Concat(Layout(s.g, s.q, h, ip)), |ip.l|, h, ip)
  {
    hide PrimeOrder, Laws, Setup<T>.Valid, PointFromBytes, ScalarFromLE32, ScalarToLE32, Field, Concat, Layout, Fits32;
    SetupFacts(s);
    var parts, k := Layout(s.g, s.q, h, ip), |ip.l|;
    LayoutFields(s, h, ip);
    LayoutAt(s.g, s.q, h, ip);
    ParseEncoded(s.g, h.A);
    ParseEncoded(s.g, h.S);
    ParseEncoded(s.g, h.T1);
    ParseEncoded(s.g, h.T2);
    ReducedScalar(s.q, h.tauX);
    ReducedScalar(s.q, h.mu);
    ReducedScalar(s.q, h.tHat);
    ReducedScalar(s.q, ip.a);
    ReducedScalar(s.q, ip.b);
    var b := Concat(parts);
    forall j: nat | j < k
      ensures PointFromBytes(s.g, Field(b, 7 + j)) == Ok(ip.l[j])
              && PointFromBytes(s.g, Field(b, 7 + k + j)) == Ok(ip.r[j])
    {
      assert Field(b, 7 + j) == parts[7 + j] && Field(b, 7 + k + j) == parts[7 + k + j];
      ParseEncoded(s.g, ip.l[j]);
      ParseEncoded(s.g, ip.r[j]);
    }
    FieldsAreParts(b, parts, k);
  }

  lemma FieldsAreParts(b: seq<Byte>, parts: seq<seq<Byte>>, k: nat)
    requires |parts| == 9 + 2 * k && |b| == 32 * |parts|
    requires forall j: nat :: j < |parts| ==> Field(b, j) == parts[j]
    ensures Field(b, 0) == parts[0] && Field(b, 1) == parts[1] && Field(b, 2) == parts[2] && Field(b, 3) == parts[3]
    ensures Field(b, 4) == parts[4] && Field(b, 5) == parts[5] && Field(b, 6) == parts[6]
    ensures Field(b, 7 + 2 * k) == parts[7 + 2 * k] && Field(b, 8 + 2 * k) == parts[8 + 2 * k]
  {
    hide Field;
  }

  /** Every emitted proof reads back, with floor(log2 n) rounds, as its header and the run of the inner-product
      argument; and its commitment as value*H + r*G. */
  lemma ProofReads<T(!new)>(s: Setup<T>, hash: Hash, value: nat, rnd: Randomness, gVec: seq<T>, hVec: seq<T>,
                            proof: RangeProof, tr: Trace<T>) returns (ip: Answer<T>)
    requires s.Valid() && Generators(s.g, gVec, hVec) && |rnd.sL| == |rnd.sR| == |gVec| && |gVec| >= 1
    requires ProofOf(s, hash, value, rnd, gVec, hVec, proof, tr)
    ensures Reads(s.g, s.q, proof.proofBytes, Log2(|gVec|), tr.header, ip)
    ensures PointFromBytes(s.g, proof.commitment) == Ok(PedersenCommit(s, value, rnd.blinding))
    ensures var run := Run(s, hash, Witness(s.q, Bits(value, |gVec|), tr.z, rnd, gVec, hVec), tr.acc);
            && run.Ok? && |run.value.0.last.a| == |run.value.0.last.b| == 1
            && ip == Answer(run.value.0.l, run.value.0.r, run.value.0.last.a[0], run.value.0.last.b[0])
  {
    hide PrimeOrder, Laws, Setup<T>.Valid, Scalar, VectorCommitment, Run, Bits, Layout, Log2, Generators, Divides;
    hide Concat, PointFromBytes, Fits32;
    SetupFacts(s);
    var bits := Bits(value, |gVec|);
    var V := Witness(s.q, bits, tr.z, rnd, gVec, hVec);
    GeneratorsAt(s.g, gVec, hVec);
    WitnessFits(s, bits, tr.z, rnd, gVec, hVec);
    RunShape(s, hash, V, tr.acc);
    var o := Run(s, hash, V, tr.acc).value.0;
    ip := Answer(o.l, o.r, First(o.last.a), First(o.last.b));
    LayoutReads(s, tr.header, ip);
    ScalarElem(s.g, s.q, value, s.H);
    ScalarElem(s.g, s.q, rnd.blinding, s.G);
    AddElem(s.g, Scalar(s.g, s.q, value, s.H), Scalar(s.g, s.q, rnd.blinding, s.G));
    ParseEncoded(s.g, PedersenCommit(s, value, rnd.blinding));
  }

  /** The bytes are four encodings of points and as many more bytes as three scalars, the rounds and two scalars
      take. */
  ghost predicate FourPoints<T(!new)>(g: Group<T>, b: seq<Byte>, A: T, S: T, T1: T, T2: T, rest: seq<Byte>) {
    && g.elem(A) && g.elem(S) && g.elem(T1) && g.elem(T2)
    && b == g.enc(A) + g.enc(S) + g.enc(T1) + g.enc(T2) + rest
  }

  /** The structural check accepts exactly the strings that begin with the encodings of four points, have the length of
      log2 n rounds, and come with the encoding of a point, for bit lengths that are powers of two up to 128. */
  lemma VerifyAccepts<T(!new)>(s: Setup<T>, proof: RangeProof)
    requires s.Valid()
    ensures Verify(s.g, proof) <==>
              && (exists k: nat :: k <= 7 && proof.bitLength == Exp2(k) && |proof.proofBytes| == 288 + 64 * k)
              && (exists C: T :: s.g.elem(C) && proof.commitment == s.g.enc(C))
              && (exists A: T, S: T, T1: T, T2: T, rest: seq<Byte> ::
                    FourPoints(s.g, proof.proofBytes, A, S, T1, T2, rest))
  {
    hide PrimeOrder, Laws, Setup<T>.Valid, PointFromBytes, Fits32, IsPrime, Field, Log2, Exp2;
    SetupFacts(s);
    var g, b := s.g, proof.proofBytes;
    SizeOfRounds(proof);
    ParsesExactly(g, proof.commitment);
    if |b| >= 128 {
      FrontPoints(g, b);
    }
    forall A: T, S: T, T1: T, T2: T, rest: seq<Byte> | FourPoints(g, b, A, S, T1, T2, rest) ensures |b| >= 128 {
      EncDec(g, A);
      EncDec(g, S);
      EncDec(g, T1);
      EncDec(g, T2);
    }
  }

  lemma SizeOfRounds(proof: RangeProof)
    ensures (exists k: nat :: k <= 7 && proof.bitLength == Exp2(k) && |proof.proofBytes| == 288 + 64 * k)
       <==> 0 < proof.bitLength <= 128 && IsPowerOfTwo(proof.bitLength)
            && |proof.proofBytes| == ExpectedSize(proof.bitLength)
  {
    assert Exp2(7) == 128;
    hide Exp2, Log2;
    forall k: nat | k <= 7 && proof.bitLength == Exp2(k)
      ensures Log2(proof.bitLength) == k && 0 < proof.bitLength <= 128
    {
      Log2Exp2(k);
      SmallPowers(k);
    }
    if 0 < proof.bitLength <= 128 && IsPowerOfTwo(proof.bitLength) {
      var k := Log2(proof.bitLength);
      if k > 7 {
        LargePowers(k);
      }
      assert proof.bitLength == Exp2(k);
    }
  }

  lemma SmallPowers(k: nat)
    requires k <= 7
    ensures Exp2(k) <= 128
  {
    assert Exp2(7) == 128 && Exp2(6) == 64 && Exp2(5) == 32 && Exp2(4) == 16;
    assert Exp2(3) == 8 && Exp2(2) == 4 && Exp2(1) == 2 && Exp2(0) == 1;
  }

  lemma {:induction false} LargePowers(k: nat)
    requires k > 7
    ensures Exp2(k) > 128
  {
    if k == 8 {
      assert Exp2(7) == 128;
    } else {
      LargePowers(k - 1);
    }
  }

  /** A string parses exactly when it is the encoding of an element. */
  lemma ParsesExactly<T(!new)>(g: Group<T>, bytes: seq<Byte>)
    requires Laws(g)
    ensures PointFromBytes(g, bytes).Ok? <==> exists a: T :: g.elem(a) && bytes == g.enc(a)
  {
    if PointFromBytes(g, bytes).Ok? {
      hide Laws, PointFromBytes;
      ParsedElement(g, bytes);
      var a := PointFromBytes(g, bytes).value;
      assert g.elem(a) && bytes == g.enc(a);
    } else {
      forall a: T | g.elem(a) ensures bytes != g.enc(a) {
        EncDec(g, a);
      }
    }
  }

  lemma FourFields(a: seq<Byte>, b: seq<Byte>, c: seq<Byte>, d: seq<Byte>, rest: seq<Byte>)
    requires |a| == |b| == |c| == |d| == 32
    ensures var all := a + b + c + d + rest;
            Field(all, 0) == a && Field(all, 1) == b && Field(all, 2) == c && Field(all, 3) == d
  {
  }

  lemma FieldsOfFront(b: seq<Byte>)
    requires |b| >= 128
    ensures b == Field(b, 0) + Field(b, 1) + Field(b, 2) + Field(b, 3) + b[128..]
  {
  }

  ghost predicate ParsesFour<T(!new)>(g: Group<T>, b: seq<Byte>)
    requires |b| >= 128
  {
    && PointFromBytes(g, Field(b, 0)).Ok? && PointFromBytes(g, Field(b, 1)).Ok?
    && PointFromBytes(g, Field(b, 2)).Ok? && PointFromBytes(g, Field(b, 3)).Ok?
  }

  lemma FrontPoints<T(!new)>(g: Group<T>, b: seq<Byte>)
    requires Laws(g) && |b| >= 128
    ensures (exists A: T, S: T, T1: T, T2: T, rest: seq<Byte> :: FourPoints(g, b, A, S, T1, T2, rest))
       <==> ParsesFour(g, b)
  {
    hide Laws, PointFromBytes, Field;
    if ParsesFour(g, b) {
      ParsedElement(g, Field(b, 0));
      ParsedElement(g, Field(b, 1));
      ParsedElement(g, Field(b, 2));
      ParsedElement(g, Field(b, 3));
      FieldsOfFront(b);
      assert FourPoints(g, b, PointFromBytes(g, Field(b, 0)).value, PointFromBytes(g, Field(b, 1)).value,
                        PointFromBytes(g, Field(b, 2)).value, PointFromBytes(g, Field(b, 3)).value, b[128..]);
    }
    forall A: T, S: T, T1: T, T2: T, rest: seq<Byte> | FourPoints(g, b, A, S, T1, T2, rest) ensures ParsesFour(g, b) {
      ParseEncoded(g, A);
      ParseEncoded(g, S);
      ParseEncoded(g, T1);
      ParseEncoded(g, T2);
      FourFields(g.enc(A), g.enc(S), g.enc(T1), g.enc(T2), rest);
    }
  }

  // ---------------------------------------------------------------- the challenges again, from the points read

  /** The challenges of the rounds, recomputed from the transcript and the pairs of points. */
  function Replayed<T>(g: Group<T>, q: int, hash: Hash, acc: seq<Byte>, l: seq<T>, r: seq<T>): (us: seq<int>)
    requires q > 0 && |l| == |r|
    ensures |us| == |l|
    decreases |l|
  {
    if l == [] then []
    else
      var (u, acc') := Drawn(q, hash, Appended(hash, Appended(hash, acc, "L", g.enc(l[0])), "R", g.enc(r[0])), "u");
      [u] + Replayed(g, q, hash, acc', l[1..], r[1..])
  }

  lemma {:induction false} RunReplays<T(!new)>(s: Setup<T>, hash: Hash, V: Vectors<T>, acc: seq<Byte>)
    requires s.q > 2 && SameLengths(V) && Run(s, hash, V, acc).Ok?
    ensures var o := Run(s, hash, V, acc).value.0;
            |o.l| == |o.r| && o.us == Replayed(s.g, s.q, hash, acc, o.l, o.r)
    decreases |V.a|
  {
    hide CrossL, CrossR, ModularInverse.Inverse, Fold, Appended, Drawn;
    if |V.a| > 1 {
      var (u, acc') := RoundChallenge(s, hash, V, acc);
      FoldLengths(s.g, s.q, V, u, ModularInverse.Inverse(s.q, u));
      var W := Fold(s.g, s.q, V, u, ModularInverse.Inverse(s.q, u));
      RunReplays(s, hash, W, acc');
      var o, o' := Run(s, hash, V, acc).value.0, Run(s, hash, W, acc').value.0;
      assert o.l[1..] == o'.l && o.r[1..] == o'.r;
    }
  }

  // ---------------------------------------------------------------- what the witness commits to

  /** Componentwise sums over the same generators. */
  ghost predicate SumsTo<T>(q: int, V: Vectors<T>, X: Vectors<T>, Y: Vectors<T>) {
    && SameLengths(V) && SameLengths(X) && SameLengths(Y) && |X.a| == |V.a| && |Y.a| == |V.a|
    && X.g == V.g && Y.g == V.g && X.h == V.h && Y.h == V.h
    && forall i :: 0 <= i < |V.a| ==> Eq(q, V.a[i], X.a[i] + Y.a[i]) && Eq(q, V.b[i], X.b[i] + Y.b[i])
  }

  ghost predicate OverElements<T(!new)>(g: Group<T>, V: Vectors<T>) {
    SameLengths(V) && forall i :: 0 <= i < |V.a| ==> g.elem(V.g[i]) && g.elem(V.h[i])
  }

  lemma TermSum<T(!new)>(g: Group<T>, q: int, V: Vectors<T>, X: Vectors<T>, Y: Vectors<T>, i: nat)
    requires PrimeOrder(g, q) && OverElements(g, V) && SumsTo(q, V, X, Y) && i < |V.a|
    ensures Term(g, q, V, i) == g.add(Term(g, q, X, i), Term(g, q, Y, i))
    ensures g.elem(Term(g, q, X, i)) && g.elem(Term(g, q, Y, i))
  {
    hide PrimeOrder, Laws, Scalar, Divides;
    OrderFacts(g, q);
    var P, Q := V.g[i], V.h[i];
    ScalarCongruent(g, q, V.a[i], X.a[i] + Y.a[i], P);
    ScalarCongruent(g, q, V.b[i], X.b[i] + Y.b[i], Q);
    ScalarSum(g, q, X.a[i], Y.a[i], P);
    ScalarSum(g, q, X.b[i], Y.b[i], Q);
    ScalarElem(g, q, X.a[i], P);
    ScalarElem(g, q, Y.a[i], P);
    ScalarElem(g, q, X.b[i], Q);
    ScalarElem(g, q, Y.b[i], Q);
    AddElem(g, Scalar(g, q, X.a[i], P), Scalar(g, q, X.b[i], Q));
    AddElem(g, Scalar(g, q, Y.a[i], P), Scalar(g, q, Y.b[i], Q));
    Interchange(g, Scalar(g, q, X.a[i], P), Scalar(g, q, Y.a[i], P), Scalar(g, q, X.b[i], Q), Scalar(g, q, Y.b[i], Q));
  }

  lemma {:induction false} PartialSum<T(!new)>(g: Group<T>, q: int, V: Vectors<T>, X: Vectors<T>, Y: Vectors<T>, n: nat)
    requires PrimeOrder(g, q) && OverElements(g, V) && SumsTo(q, V, X, Y) && n <= |V.a|
    ensures Sum(g, TermOf(g, q, V), n) == g.add(Sum(g, TermOf(g, q, X), n), Sum(g, TermOf(g, q, Y), n))
    ensures g.elem(Sum(g, TermOf(g, q, X), n)) && g.elem(Sum(g, TermOf(g, q, Y), n))
    decreases n
  {
    hide PrimeOrder, Laws, Scalar, Divides, Term;
    OrderFacts(g, q);
    ZeroElem(g);
    if n == 0 {
      AddZero(g, g.zero);
    } else {
      PartialSum(g, q, V, X, Y, n - 1);
      TermSum(g, q, V, X, Y, n - 1);
      var x, y := Sum(g, TermOf(g, q, X), n - 1), Sum(g, TermOf(g, q, Y), n - 1);
      AddElem(g, x, Term(g, q, X, n - 1));
      AddElem(g, y, Term(g, q, Y, n - 1));
      Interchange(g, x, y, Term(g, q, X, n - 1), Term(g, q, Y, n - 1));
    }
  }

  lemma CommitmentSum<T(!new)>(g: Group<T>, q: int, V: Vectors<T>, X: Vectors<T>, Y: Vectors<T>)
    requires PrimeOrder(g, q) && q > 0 && OverElements(g, V) && SumsTo(q, V, X, Y)
    ensures Commitment(g, q, V) == g.add(Commitment(g, q, X), Commitment(g, q, Y))
    ensures g.elem(Commitment(g, q, X)) && g.elem(Commitment(g, q, Y))
  {
    hide PrimeOrder, Laws, Term;
    PartialSum(g, q, V, X, Y, |V.a|);
  }

  /** The sum of all points of a list. */
  function Total<T>(g: Group<T>, points: seq<T>): T {
    if points == [] then g.zero else g.add(Total(g, points[..|points| - 1]), points[|points| - 1])
  }

  function Constant(n: nat, c: int): (cs: seq<int>)
    ensures |cs| == n && forall i :: 0 <= i < n ==> cs[i] == c
  {
    seq(n, _ => c)
  }

  /** <0, g> + <(z, .., z), h> is z times the sum of h. */
  lemma {:induction false} ShiftTotal<T(!new)>(g: Group<T>, q: int, V: Vectors<T>, z: int, n: nat)
    requires PrimeOrder(g, q) && OverElements(g, V) && V.a == Constant(|V.a|, 0) && V.b == Constant(|V.a|, z)
             && n <= |V.a|
    ensures q > 0 && Sum(g, TermOf(g, q, V), n) == Scalar(g, q, z, Total(g, V.h[..n])) && g.elem(Total(g, V.h[..n]))
    decreases n
  {
    hide PrimeOrder, Laws, Scalar;
    OrderFacts(g, q);
    ZeroElem(g);
    if n == 0 {
      ScalarOfZero(g, q, z);
    } else {
      ShiftTotal(g, q, V, z, n - 1);
      var P, Q, t := V.g[n - 1], V.h[n - 1], Total(g, V.h[..n - 1]);
      assert V.h[..n][..n - 1] == V.h[..n - 1] && V.h[..n][n - 1] == Q;
      ScalarZero(g, q, P);
      ScalarElem(g, q, z, Q);
      AddZero(g, Scalar(g, q, z, Q));
      AddElem(g, t, Q);
      ScalarOfSum(g, q, z, t, Q);
    }
  }

  /** The witness commits to A and S without their blinding, and z times the sum of h:
      <a, g> + <b, h> + (alpha + rho)*G = A + S + z*(h_1 + .. + h_n). */
  lemma WitnessOpens<T(!new)>(s: Setup<T>, bits: seq<int>, z: int, rnd: Randomness, gVec: seq<T>, hVec: seq<T>)
    requires s.Valid() && Generators(s.g, gVec, hVec) && |rnd.sL| == |rnd.sR| == |gVec| == |bits|
    ensures s.g.add(Commitment(s.g, s.q, Witness(s.q, bits, z, rnd, gVec, hVec)),
                    Scalar(s.g, s.q, rnd.alpha + rnd.rho, s.G))
         == s.g.add(s.g.add(VectorCommitment(s, rnd.alpha, bits, Complement(bits), gVec, hVec),
                            VectorCommitment(s, rnd.rho, rnd.sL, rnd.sR, gVec, hVec)),
                    Scalar(s.g, s.q, z, Total(s.g, hVec)))
  {
    hide PrimeOrder, Laws, Setup<T>.Valid, Scalar, Generators, Term, Divides, Complement, Commitment, Fits32, IsPrime;
    SetupFacts(s);
    GeneratorsAt(s.g, gVec, hVec);
    var g, q, n := s.g, s.q, |bits|;
    var V := Witness(q, bits, z, rnd, gVec, hVec);
    var X := Vectors(bits, Complement(bits), gVec, hVec);
    var Y := Vectors(rnd.sL, rnd.sR, gVec, hVec);
    var Z := Vectors(Constant(n, 0), Constant(n, z), gVec, hVec);
    var XZ := Vectors(bits, seq(n, i requires 0 <= i < n => Complement(bits)[i] + z), gVec, hVec);
    WitnessMix(q, bits, z, rnd, gVec, hVec, XZ);
    ShiftSums(q, bits, z, gVec, hVec, XZ);
    CommitmentSum(g, q, V, XZ, Y);
    CommitmentSum(g, q, XZ, X, Z);
    ShiftCommitment(g, q, Z, z);
    var cX, cY, cZ := Commitment(g, q, X), Commitment(g, q, Y), Scalar(g, q, z, Total(g, hVec));
    ScalarSum(g, q, rnd.alpha, rnd.rho, s.G);
    ScalarElem(g, q, rnd.alpha, s.G);
    ScalarElem(g, q, rnd.rho, s.G);
    Rearrange(g, cX, cZ, cY, Scalar(g, q, rnd.alpha, s.G), Scalar(g, q, rnd.rho, s.G));
  }

  lemma ShiftCommitment<T(!new)>(g: Group<T>, q: int, Z: Vectors<T>, z: int)
    requires PrimeOrder(g, q) && OverElements(g, Z) && Z.a == Constant(|Z.a|, 0) && Z.b == Constant(|Z.a|, z)
    ensures q > 0 && Commitment(g, q, Z) == Scalar(g, q, z, Total(g, Z.h)) && g.elem(Scalar(g, q, z, Total(g, Z.h)))
  {
    hide PrimeOrder, Laws, Scalar, Term;
    ShiftTotal(g, q, Z, z, |Z.a|);
    assert Z.h[..|Z.a|] == Z.h;
    ScalarElem(g, q, z, Total(g, Z.h));
  }

  /** ((x + z) + y) + (a + r) = ((a + x) + (r + y)) + z. */
  lemma Rearrange<T(!new)>(g: Group<T>, x: T, z: T, y: T, a: T, r: T)
    requires Laws(g) && g.elem(x) && g.elem(z) && g.elem(y) && g.elem(a) && g.elem(r)
    ensures g.add(g.add(g.add(x, z), y), g.add(a, r)) == g.add(g.add(g.add(a, x), g.add(r, y)), z)
  {
    hide Laws;
    AddElem(g, x, z);
    AddElem(g, x, y);
    AddElem(g, a, r);
    AddElem(g, a, x);
    AddElem(g, r, y);
    AddElem(g, z, y);
    AddAssociates(g, x, z, y);
    AddAssociates(g, x, y, z);
    Interchange(g, a, x, r, y);
    AddElem(g, g.add(x, y), z);
    AddElem(g, g.add(a, r), g.add(g.add(x, y), z));
    AddAssociates(g, g.add(a, r), g.add(x, y), z);
  }

  lemma ReducedSum(q: int, x: int, z: int, y: int)
    requires q > 0
    ensures Eq(q, ((x + z) % q + y) % q, (x + z) + y)
  {
    hide Divides;
    EqMod(q, x + z);
    EqRefl(q, y);
    EqAdd(q, (x + z) % q, x + z, y, y);
    EqMod(q, (x + z) % q + y);
    EqTrans(q, ((x + z) % q + y) % q, (x + z) % q + y, (x + z) + y);
  }

  lemma ReducedShift(q: int, x: int, z: int, y: int)
    requires q > 0
    ensures Eq(q, ((x + z % q) % q + y) % q, (x + z) + y)
  {
    hide Divides;
    ReducedSum(q, x, z % q, y);
    EqMod(q, z);
    EqRefl(q, x + y);
    EqAdd(q, x + y, x + y, z % q, z);
    assert (x + y) + z % q == (x + z % q) + y && (x + y) + z == (x + z) + y;
    EqTrans(q, ((x + z % q) % q + y) % q, (x + z % q) + y, (x + z) + y);
  }

  lemma WitnessAt<T>(q: int, bits: seq<int>, z: int, rnd: Randomness, gVec: seq<T>, hVec: seq<T>, i: nat)
    requires q > 0 && |rnd.sL| == |rnd.sR| == |gVec| == |hVec| == |bits| && i < |bits|
    ensures var V := Witness(q, bits, z, rnd, gVec, hVec);
            && |V.a| == |V.b| == |bits| && V.g == gVec && V.h == hVec
            && V.a[i] == ((bits[i] + 0) % q + rnd.sL[i]) % q
            && V.b[i] == ((Complement(bits)[i] + z % q) % q + rnd.sR[i]) % q
  {
    hide Complement;
  }

  lemma WitnessMix<T>(q: int, bits: seq<int>, z: int, rnd: Randomness, gVec: seq<T>, hVec: seq<T>, XZ: Vectors<T>)
    requires q > 0 && |rnd.sL| == |rnd.sR| == |gVec| == |hVec| == |bits| && |XZ.b| == |bits|
    requires XZ.a == bits && XZ.g == gVec && XZ.h == hVec
    requires forall i :: 0 <= i < |bits| ==> XZ.b[i] == Complement(bits)[i] + z
    ensures SumsTo(q, Witness(q, bits, z, rnd, gVec, hVec), XZ, Vectors(rnd.sL, rnd.sR, gVec, hVec))
  {
    hide Eq, Complement, Witness;
    var V, Y := Witness(q, bits, z, rnd, gVec, hVec), Vectors(rnd.sL, rnd.sR, gVec, hVec);
    WitnessVectors(q, bits, z, rnd, gVec, hVec);
    forall i | 0 <= i < |bits| ensures Eq(q, V.a[i], XZ.a[i] + Y.a[i]) && Eq(q, V.b[i], XZ.b[i] + Y.b[i]) {
      WitnessAt(q, bits, z, rnd, gVec, hVec, i);
      ReducedSum(q, bits[i], 0, rnd.sL[i]);
      ReducedShift(q, Complement(bits)[i], z, rnd.sR[i]);
    }
  }

  lemma ShiftSums<T>(q: int, bits: seq<int>, z: int, gVec: seq<T>, hVec: seq<T>, XZ: Vectors<T>)
    requires q > 0 && |gVec| == |hVec| == |bits| && |XZ.b| == |bits|
    requires XZ.a == bits && XZ.g == gVec && XZ.h == hVec
    requires forall i :: 0 <= i < |bits| ==> XZ.b[i] == Complement(bits)[i] + z
    ensures SumsTo(q, XZ, Vectors(bits, Complement(bits), gVec, hVec),
                   Vectors(Constant(|bits|, 0), Constant(|bits|, z), gVec, hVec))
  {
    hide Eq, Complement;
    forall i | 0 <= i < |bits| ensures Eq(q, bits[i], bits[i] + 0) && Eq(q, XZ.b[i], Complement(bits)[i] + z) {
      EqRefl(q, bits[i]);
      EqRefl(q, XZ.b[i]);
    }
  }

  // ---------------------------------------------------------------- the equation of a proof

  /** The equation that the parts read from any proof about 2^k bits satisfy: with the challenges recomputed from the
      points, and gs, hs the generators folded by them,
      a*gs + b*hs + (alpha + rho)*G = A + S + z*(h_1 + .. + h_n) + sum of u_j^2*L_j + u_j^-2*R_j. */
  lemma VerifierEquation<T(!new)>(s: Setup<T>, hash: Hash, value: nat, rnd: Randomness, gVec: seq<T>, hVec: seq<T>,
                                  proof: RangeProof, tr: Trace<T>, k: nat, h: Header<T>, ip: Answer<T>)
    requires s.Valid() && Generators(s.g, gVec, hVec) && |rnd.sL| == |rnd.sR| == |gVec| && |gVec| == Exp2(k)
    requires ProofOf(s, hash, value, rnd, gVec, hVec, proof, tr)
    requires s.q > 2 && Reads(s.g, s.q, proof.proofBytes, k, h, ip)
    ensures var c := HeaderChallenges(s.g, s.q, hash, proof.commitment, h);
            var us := Replayed(s.g, s.q, hash, c.acc, ip.l, ip.r);
            var (gs, hs) := FoldedGenerators(s.g, s.q, gVec, hVec, us);
            && |gs| == |hs| == 1
            && s.g.add(s.g.add(Scalar(s.g, s.q, ip.a, gs[0]), Scalar(s.g, s.q, ip.b, hs[0])),
                       Scalar(s.g, s.q, rnd.alpha + rnd.rho, s.G))
            == s.g.add(s.g.add(s.g.add(h.A, h.S), Scalar(s.g, s.q, c.z, Total(s.g, hVec))),
                       CrossSum(s.g, s.q, us, ip.l, ip.r))
  {
    hide PrimeOrder, Laws, Setup<T>.Valid, Scalar, VectorCommitment, Run, Bits, Generators, Divides, PointFromBytes;
    hide Fits32;
    hide Reads, HeaderChallenges, Replayed, FoldedGenerators, CrossSum, Commitment, Witness, Total, HonestScalars;
    hide Layout;
    SetupFacts(s);
    GeneratorsAt(s.g, gVec, hVec);
    var g, q, bits := s.g, s.q, Bits(value, |gVec|);
    var V := Witness(q, bits, tr.z, rnd, gVec, hVec);
    var ip' := ProofReads(s, hash, value, rnd, gVec, hVec, proof, tr);
    Log2Exp2(k);
    ReadsUnique(g, q, proof.proofBytes, k, h, ip, tr.header, ip');
    WitnessVectors(q, bits, tr.z, rnd, gVec, hVec);
    WitnessFits(s, bits, tr.z, rnd, gVec, hVec);
    OpeningEquation(s, hash, V, tr.acc, k);
    RunReplays(s, hash, V, tr.acc);
    WitnessOpens(s, bits, tr.z, rnd, gVec, hVec);
    FoldingIdentity(s, hash, V, tr.acc);
    CommitmentElems(g, q, V);
    ScalarElem(g, q, rnd.alpha + rnd.rho, s.G);
    var o := Run(s, hash, V, tr.acc).value.0;
    SwapLast(g, Commitment(g, q, V), CrossSum(g, q, o.us, o.l, o.r), Scalar(g, q, rnd.alpha + rnd.rho, s.G));
  }

  lemma WitnessVectors<T>(q: int, bits: seq<int>, z: int, rnd: Randomness, gVec: seq<T>, hVec: seq<T>)
    requires q > 0 && |rnd.sL| == |rnd.sR| == |gVec| == |hVec| == |bits|
    ensures var V := Witness(q, bits, z, rnd, gVec, hVec); V.g == gVec && V.h == hVec && |V.a| == |bits|
  {
  }

  /** (p + x) + m = (p + m) + x. */
  lemma SwapLast<T(!new)>(g: Group<T>, p: T, x: T, m: T)
    requires Laws(g) && g.elem(p) && g.elem(x) && g.elem(m)
    ensures g.add(g.add(p, x), m) == g.add(g.add(p, m), x)
  {
    hide Laws;
    AddAssociates(g, p, x, m);
    AddAssociates(g, p, m, x);
    AddElem(g, x, m);
  }
}
