/** Several range proofs behind one linking scalar, and when the structural check accepts the result. */
module Aggregation {
  import opened Numbers
  import opened Bytes
  import opened Wrappers
  import opened Groups
  import opened Scalars
  import opened SdkGroup
  import opened ScalarCodec
  import opened ByteTools
  import opened Sigma
  import opened Transcript
  import opened TranscriptBinding
  import opened RangeBinding
  import opened InnerProductProver
  import opened RangeProof

  function AppendAll(hash: Hash, acc: seq<Byte>, tag: string, parts: seq<seq<Byte>>): seq<Byte> {
    if parts == [] then acc
    else Appended(hash, AppendAll(hash, acc, tag, parts[..|parts| - 1]), tag, parts[|parts| - 1])
  }

  function Commitments(proofs: seq<RangeProof>): (r: seq<seq<Byte>>)
    ensures |r| == |proofs| && forall i :: 0 <= i < |r| ==> r[i] == proofs[i].commitment
  {
    seq(|proofs|, i requires 0 <= i < |proofs| => proofs[i].commitment)
  }

  function ProofBytes(proofs: seq<RangeProof>): (r: seq<seq<Byte>>)
    ensures |r| == |proofs| && forall i :: 0 <= i < |r| ==> r[i] == proofs[i].proofBytes
  {
    seq(|proofs|, i requires 0 <= i < |proofs| => proofs[i].proofBytes)
  }

  /** The sum of the parsed points, from the neutral element. */
  function SumOfPoints<T>(g: Group<T>, encodings: seq<seq<Byte>>): Result<T, SdkError> {
    if encodings == [] then Ok(g.zero)
    else
      var rest :- SumOfPoints(g, encodings[..|encodings| - 1]);
      var p :- PointFromBytes(g, encodings[|encodings| - 1]);
      Ok(g.add(rest, p))
  }

  /** The linking scalar that the transcript gives for the commitments and the proofs. */
  function Link(q: int, hash: Hash, proofs: seq<RangeProof>): (link: seq<Byte>)
    requires q > 0
    ensures |link| == 32
  {
    var acc := AppendAll(hash, AppendAll(hash, TRANSCRIPT_DOMAIN, "aggC", Commitments(proofs)), "aggP",
                         ProofBytes(proofs));
    ScalarToLE32(q, Drawn(q, hash, acc, "link").0)
  }

  predicate SameBitLength(proofs: seq<RangeProof>) {
    forall i :: 0 <= i < |proofs| ==> proofs[i].bitLength == proofs[0].bitLength
  }

  function Aggregated<T(!new)>(s: Setup<T>, hash: Hash, proofs: seq<RangeProof>): Result<RangeProof, SdkError>
    requires s.q > 0
  {
    if proofs == [] || !SameBitLength(proofs) then Err(InvalidInput)
    else
      var total :- SumOfPoints(s.g, Commitments(proofs));
      Ok(RangeProof(Concat([Link(s.q, hash, proofs)] + Commitments(proofs) + ProofBytes(proofs)), s.g.enc(total),
                    proofs[0].bitLength))
  }

  method AppendParts(transcript: Transcript, tag: string, parts: seq<seq<Byte>>)
    modifies transcript
    ensures transcript.acc == AppendAll(transcript.hash, old(transcript.acc), tag, parts)
  {
    for k := 0 to |parts|
      invariant transcript.acc == AppendAll(transcript.hash, old(transcript.acc), tag, parts[..k])
    {
      assert parts[..k + 1][..k] == parts[..k];
      transcript.Append(tag, parts[k]);
    }
    assert parts[..|parts|] == parts;
  }

  /** The sum of the commitments, parsed from the first to the last. */
  method AddPoints<T>(g: Group<T>, encodings: seq<seq<Byte>>) returns (r: Result<T, SdkError>)
    ensures r == SumOfPoints(g, encodings)
  {
    var total := g.zero;
    for k := 0 to |encodings|
      invariant SumOfPoints(g, encodings[..k]) == Ok(total)
    {
      assert encodings[..k + 1][..k] == encodings[..k];
      var p := PointFromBytes(g, encodings[k]);
      if p.Err? {
        SumFails(g, encodings, k);
        return Err(p.error);
      }
      total := g.add(total, p.value);
    }
    assert encodings[..|encodings|] == encodings;
    r := Ok(total);
  }

  /** The first encoding that does not parse decides the error. */
  lemma {:induction false} SumFails<T>(g: Group<T>, encodings: seq<seq<Byte>>, k: nat)
    requires k < |encodings| && SumOfPoints(g, encodings[..k]).Ok? && PointFromBytes(g, encodings[k]).Err?
    ensures SumOfPoints(g, encodings) == Err(PointFromBytes(g, encodings[k]).error)
    decreases |encodings|
  {
    hide PointFromBytes;
    var front := encodings[..|encodings| - 1];
    if k < |front| {
      assert front[..k] == encodings[..k];
      SumFails(g, front, k);
    } else {
      assert front == encodings[..k];
    }
  }

  /** The linking scalar, all commitments and all proofs, one behind the other, under the sum of the commitments. */
  method Aggregate<T(!new)>(s: Setup<T>, hash: Hash, proofs: seq<RangeProof>) returns (r: Result<RangeProof, SdkError>)
    requires s.Valid()
    ensures r == Aggregated(s, hash, proofs)
  {
    hide PrimeOrder, Laws, Fits32;
    if proofs == [] {
      return Err(InvalidInput);
    }
    if exists i :: 0 <= i < |proofs| && proofs[i].bitLength != proofs[0].bitLength {
      return Err(InvalidInput);
    }
    var transcript := new Transcript(hash, TRANSCRIPT_DOMAIN);
    AppendParts(transcript, "aggC", Commitments(proofs));
    AppendParts(transcript, "aggP", ProofBytes(proofs));
    var link := transcript.ChallengeScalar(s.q, "link");
    var total :- AddPoints(s.g, Commitments(proofs));
    r := Ok(RangeProof(Concat([ScalarToLE32(s.q, link)] + Commitments(proofs) + ProofBytes(proofs)), s.g.enc(total),
                       proofs[0].bitLength));
  }

  // ---------------------------------------------------------------- what the link depends on

  function Absorbs(tag: string, parts: seq<seq<Byte>>): (ops: seq<Op>)
    ensures |ops| == |parts| && forall i :: 0 <= i < |parts| ==> ops[i] == Absorb(tag, parts[i])
  {
    seq(|parts|, i requires 0 <= i < |parts| => Absorb(tag, parts[i]))
  }

  lemma {:induction false} AppendAllPlays(hash: Hash, acc: seq<Byte>, ops: seq<Op>, tag: string, parts: seq<seq<Byte>>)
    ensures AppendAll(hash, Play(hash, acc, ops), tag, parts) == Play(hash, acc, ops + Absorbs(tag, parts))
  {
    hide Appended, Play;
    if parts == [] {
      assert ops + Absorbs(tag, parts) == ops;
    } else {
      var front, last := parts[..|parts| - 1], parts[|parts| - 1];
      AppendAllPlays(hash, acc, ops, tag, front);
      PlayAbsorb(hash, acc, ops + Absorbs(tag, front), tag, last);
      assert ops + Absorbs(tag, parts) == ops + Absorbs(tag, front) + [Absorb(tag, last)];
    }
  }

  ghost predicate SizesFit(parts: seq<seq<Byte>>) {
    forall p :: p in parts ==> |p| < 0x1_0000_0000
  }

  /** Two lists of as many proofs get the same link under every hash exactly when they have the same commitments and the
      same bytes, in the same order. */
  lemma LinkBinds(q: int, proofs: seq<RangeProof>, proofs': seq<RangeProof>)
    requires q > 1 && Fits32(q) && |proofs| == |proofs'|
    requires SizesFit(Commitments(proofs)) && SizesFit(ProofBytes(proofs))
    requires SizesFit(Commitments(proofs')) && SizesFit(ProofBytes(proofs'))
    ensures (forall hash: Hash :: Link(q, hash, proofs) == Link(q, hash, proofs'))
       <==> Commitments(proofs) == Commitments(proofs') && ProofBytes(proofs) == ProofBytes(proofs')
  {
    hide Drawn, Play, Link, Commitments, ProofBytes, Fits32;
    var n, d := |proofs|, TRANSCRIPT_DOMAIN;
    var c, b, c', b' := Commitments(proofs), ProofBytes(proofs), Commitments(proofs'), ProofBytes(proofs');
    var ops, ops' := Absorbs("aggC", c) + Absorbs("aggP", b), Absorbs("aggC", c') + Absorbs("aggP", b');
    AbsorbsEqual(c, b, c', b');
    AbsorbsShapes(c, b, c', b');
    PlayBinds(q, d, ops, ops', "link");
    forall hash: Hash
      ensures Link(q, hash, proofs) == Link(q, hash, proofs')
         <==> Drawn(q, hash, Play(hash, d, ops), "link").0 == Drawn(q, hash, Play(hash, d, ops'), "link").0
    {
      LinkDrawn(q, hash, proofs);
      LinkDrawn(q, hash, proofs');
    }
  }

  lemma AbsorbsEqual(c: seq<seq<Byte>>, b: seq<seq<Byte>>, c': seq<seq<Byte>>, b': seq<seq<Byte>>)
    requires |c| == |b| == |c'| == |b'|
    ensures Absorbs("aggC", c) + Absorbs("aggP", b) == Absorbs("aggC", c') + Absorbs("aggP", b') <==> c == c' && b == b'
  {
    var n, ops, ops' := |c|, Absorbs("aggC", c) + Absorbs("aggP", b), Absorbs("aggC", c') + Absorbs("aggP", b');
    if ops == ops' {
      forall i | 0 <= i < n ensures c[i] == c'[i] && b[i] == b'[i] {
        assert ops[i] == Absorb("aggC", c[i]) && ops'[i] == Absorb("aggC", c'[i]);
        assert ops[n + i] == Absorb("aggP", b[i]) && ops'[n + i] == Absorb("aggP", b'[i]);
      }
    }
  }

  lemma AbsorbsShapes(c: seq<seq<Byte>>, b: seq<seq<Byte>>, c': seq<seq<Byte>>, b': seq<seq<Byte>>)
    requires |c| == |b| == |c'| == |b'| && SizesFit(c) && SizesFit(b) && SizesFit(c') && SizesFit(b')
    ensures SameShapes(Absorbs("aggC", c) + Absorbs("aggP", b), Absorbs("aggC", c') + Absorbs("aggP", b'))
  {
  }

  /** The link is the challenge drawn after everything is absorbed. */
  lemma LinkDrawn(q: int, hash: Hash, proofs: seq<RangeProof>)
    requires q > 0 && Fits32(q)
    ensures var ops := Absorbs("aggC", Commitments(proofs)) + Absorbs("aggP", ProofBytes(proofs));
            var c := Drawn(q, hash, Play(hash, TRANSCRIPT_DOMAIN, ops), "link").0;
            0 <= c < q && Link(q, hash, proofs) == ScalarToLE32(q, c)
              && ScalarFromLE32(q, Link(q, hash, proofs)) == Ok(c)
  {
    hide Appended, Play, Absorbs, Commitments, ProofBytes, ScalarToLE32, ScalarFromLE32, Fits32;
    var c, b, d := Commitments(proofs), ProofBytes(proofs), TRANSCRIPT_DOMAIN;
    PlayNothing(hash, d);
    AppendAllPlays(hash, d, [], "aggC", c);
    assert [] + Absorbs("aggC", c) == Absorbs("aggC", c);
    AppendAllPlays(hash, d, Absorbs("aggC", c), "aggP", b);
    var n := Drawn(q, hash, Play(hash, d, Absorbs("aggC", c) + Absorbs("aggP", b)), "link").0;
    ScalarRoundTrip(q, n);
    ModSmall(q, n);
  }

  // ---------------------------------------------------------------- when aggregation succeeds

  predicate AllParse<T>(g: Group<T>, encodings: seq<seq<Byte>>) {
    forall i :: 0 <= i < |encodings| ==> PointFromBytes(g, encodings[i]).Ok?
  }

  lemma {:induction false} SumParses<T(!new)>(g: Group<T>, encodings: seq<seq<Byte>>)
    requires Laws(g)
    ensures SumOfPoints(g, encodings).Ok? <==> AllParse(g, encodings)
    ensures SumOfPoints(g, encodings).Ok? ==> g.elem(SumOfPoints(g, encodings).value)
  {
    hide Laws, PointFromBytes;
    ZeroElem(g);
    if encodings != [] {
      var last := |encodings| - 1;
      var front := encodings[..last];
      SumParses(g, front);
      assert AllParse(g, encodings) <==> AllParse(g, front) && PointFromBytes(g, encodings[last]).Ok?;
      if AllParse(g, encodings) {
        ParsedElement(g, encodings[last]);
        AddElem(g, SumOfPoints(g, front).value, PointFromBytes(g, encodings[last]).value);
      }
    }
  }

  /** Aggregation checks that there is a proof, that the bit lengths agree, and that the commitments are points; it
      looks at nothing else. The first commitment that is no point decides the error. */
  lemma AggregateSucceeds<T(!new)>(s: Setup<T>, hash: Hash, proofs: seq<RangeProof>)
    requires s.Valid()
    ensures var r := Aggregated(s, hash, proofs);
            && (r.Ok? <==> proofs != [] && SameBitLength(proofs) && AllParse(s.g, Commitments(proofs)))
            && (proofs == [] || !SameBitLength(proofs) ==> r == Err(InvalidInput))
            && (forall k :: 0 <= k < |proofs| && SameBitLength(proofs) && AllParse(s.g, Commitments(proofs)[..k])
                            && PointFromBytes(s.g, proofs[k].commitment).Err?
                            ==> r == Err(PointFromBytes(s.g, proofs[k].commitment).error))
  {
    hide PrimeOrder, Laws, Setup<T>.Valid, PointFromBytes, Link, Concat;
    SetupFacts(s);
    var cs := Commitments(proofs);
    SumParses(s.g, cs);
    forall k | 0 <= k < |proofs| && AllParse(s.g, cs[..k]) && PointFromBytes(s.g, cs[k]).Err?
      ensures SumOfPoints(s.g, cs) == Err(PointFromBytes(s.g, cs[k]).error)
    {
      SumParses(s.g, cs[..k]);
      SumFails(s.g, cs, k);
    }
  }

  // ---------------------------------------------------------------- what an aggregate commits to

  function SumOf(values: seq<int>): int {
    if values == [] then 0 else SumOf(values[..|values| - 1]) + values[|values| - 1]
  }

  /** The i-th string is the commitment to the i-th value with the i-th blinding factor. */
  ghost predicate CommitTo<T(!new)>(s: Setup<T>, encodings: seq<seq<Byte>>, values: seq<int>, blindings: seq<int>)
    requires s.q > 0
  {
    && |values| == |blindings| == |encodings|
    && forall i :: 0 <= i < |encodings| ==> encodings[i] == s.g.enc(PedersenCommit(s, values[i], blindings[i]))
  }

  lemma {:induction false} SumCommits<T(!new)>(s: Setup<T>, encodings: seq<seq<Byte>>, values: seq<int>,
                                               blindings: seq<int>)
    requires s.Valid() && CommitTo(s, encodings, values, blindings)
    ensures SumOfPoints(s.g, encodings) == Ok(PedersenCommit(s, SumOf(values), SumOf(blindings)))
    decreases |encodings|
  {
    hide PrimeOrder, Laws, Setup<T>.Valid, Scalar, PointFromBytes, Fits32, IsPrime;
    SetupFacts(s);
    var g, q := s.g, s.q;
    if encodings == [] {
      ScalarZero(g, q, s.G);
      ScalarZero(g, q, s.H);
      AddZero(g, g.zero);
    } else {
      var n := |encodings| - 1;
      SumCommits(s, encodings[..n], values[..n], blindings[..n]);
      var v, r, v', r' := SumOf(values[..n]), SumOf(blindings[..n]), values[n], blindings[n];
      ScalarElem(g, q, v, s.H);
      ScalarElem(g, q, v', s.H);
      ScalarElem(g, q, r, s.G);
      ScalarElem(g, q, r', s.G);
      AddElem(g, Scalar(g, q, v', s.H), Scalar(g, q, r', s.G));
      ParseEncoded(g, PedersenCommit(s, v', r'));
      Interchange(g, Scalar(g, q, v, s.H), Scalar(g, q, r, s.G), Scalar(g, q, v', s.H), Scalar(g, q, r', s.G));
      ScalarSum(g, q, v, v', s.H);
      ScalarSum(g, q, r, r', s.G);
    }
  }

  /** The commitment of an aggregate is the commitment to the sum of the values with the sum of the blinding factors. */
  lemma AggregateCommits<T(!new)>(s: Setup<T>, hash: Hash, proofs: seq<RangeProof>, values: seq<int>,
                                  blindings: seq<int>)
    requires s.Valid() && proofs != [] && SameBitLength(proofs) && CommitTo(s, Commitments(proofs), values, blindings)
    ensures var r := Aggregated(s, hash, proofs);
            && r.Ok? && r.value.commitment == s.g.enc(PedersenCommit(s, SumOf(values), SumOf(blindings)))
            && r.value.bitLength == proofs[0].bitLength
  {
    hide PrimeOrder, Laws, Setup<T>.Valid, SumOfPoints, PedersenCommit, Link, Concat, Fits32;
    SetupFacts(s);
    SumCommits(s, Commitments(proofs), values, blindings);
  }

  // ---------------------------------------------------------------- when the structural check accepts

  lemma {:induction false} ConcatSum(a: seq<seq<Byte>>, b: seq<seq<Byte>>)
    ensures Concat(a + b) == Concat(a) + Concat(b)
  {
    if a == [] {
      assert a + b == b;
    } else {
      assert (a + b)[1..] == a[1..] + b;
      ConcatSum(a[1..], b);
    }
  }

  /** The fields of an aggregate: the link, the commitments, and then the bytes of the proofs. */
  lemma AggregateFields(link: seq<Byte>, commitments: seq<seq<Byte>>, body: seq<Byte>)
    requires |link| == 32 && forall p :: p in commitments ==> |p| == 32
    ensures var b := Concat([link] + commitments) + body;
            && |b| == 32 + 32 * |commitments| + |body|
            && Field(b, 0) == link
            && (forall j: nat :: j < |commitments| ==> Field(b, 1 + j) == commitments[j])
            && (forall j: nat :: 32 * j + 32 <= |body| ==> Field(b, 1 + |commitments| + j) == Field(body, j))
  {
    hide Concat, Field;
    var parts := [link] + commitments;
    var front := Concat(parts);
    var b := front + body;
    FieldsOf(parts);
    assert |parts| == 1 + |commitments|;
    forall j: nat | j < |parts| ensures Field(b, j) == parts[j] {
      FieldInFront(front, body, j);
    }
    assert parts[0] == link;
    forall j: nat | j < |commitments| ensures Field(b, 1 + j) == commitments[j] {
      assert parts[1 + j] == commitments[j];
    }
    forall j: nat | 32 * j + 32 <= |body| ensures Field(b, |parts| + j) == Field(body, j) {
      FieldBehind(front, body, |parts|, j);
    }
  }

  lemma FieldInFront(front: seq<Byte>, body: seq<Byte>, j: nat)
    requires 32 * j + 32 <= |front|
    ensures Field(front + body, j) == Field(front, j)
  {
  }

  lemma FieldBehind(front: seq<Byte>, body: seq<Byte>, n: nat, j: nat)
    requires |front| == 32 * n && 32 * j + 32 <= |body|
    ensures 32 * (n + j) + 32 <= |front + body| && Field(front + body, n + j) == Field(body, j)
  {
  }

  /** What of the inputs the check looks at: the bit length, the sizes, the link, and, for one or two proofs, the first
      fields of their bytes. */
  predicate AcceptableParts<T>(g: Group<T>, bitLength: int, count: nat, link: seq<Byte>, body: seq<Byte>) {
    && 0 < bitLength <= 128 && IsPowerOfTwo(bitLength)
    && 32 + 32 * count + |body| == ExpectedSize(bitLength)
    && PointFromBytes(g, link).Ok?
    && (forall j: nat :: j < 3 - count && 32 * j + 32 <= |body| ==> PointFromBytes(g, Field(body, j)).Ok?)
  }

  lemma ThreeFields(bitLength: nat, count: nat, size: nat)
    requires count >= 1 && 32 + 32 * count + size == ExpectedSize(bitLength)
    ensures size + 32 * count >= 256 && forall j: nat :: j < 3 - count ==> 32 * j + 32 <= size
  {
    hide Log2;
  }

  /** Every part is found again in the aggregate: the link, the commitments, and the bytes of the proofs behind them;
      the commitment is a point. */
  lemma AggregateLayout<T(!new)>(s: Setup<T>, hash: Hash, proofs: seq<RangeProof>)
    requires s.Valid() && Aggregated(s, hash, proofs).Ok?
    ensures var agg, cs, body := Aggregated(s, hash, proofs).value, Commitments(proofs), Concat(ProofBytes(proofs));
            && AllParse(s.g, cs) && PointFromBytes(s.g, agg.commitment) == SumOfPoints(s.g, cs)
            && |agg.proofBytes| == 32 + 32 * |cs| + |body|
            && Field(agg.proofBytes, 0) == Link(s.q, hash, proofs)
            && (forall j: nat :: j < |cs| ==> Field(agg.proofBytes, 1 + j) == cs[j])
            && (forall j: nat :: 32 * j + 32 <= |body| ==> Field(agg.proofBytes, 1 + |cs| + j) == Field(body, j))
  {
    hide PrimeOrder, Laws, Setup<T>.Valid, PointFromBytes, Link, Concat, Field;
    SetupFacts(s);
    var cs, link := Commitments(proofs), Link(s.q, hash, proofs);
    SumParses(s.g, cs);
    AllWide(s.g, cs);
    ConcatSum([link] + cs, ProofBytes(proofs));
    AggregateFields(link, cs, Concat(ProofBytes(proofs)));
    ParseEncoded(s.g, SumOfPoints(s.g, cs).value);
  }

  /** The exact condition under which the structural check accepts an aggregate. */
  lemma AggregateVerifies<T(!new)>(s: Setup<T>, hash: Hash, proofs: seq<RangeProof>)
    requires s.Valid() && Aggregated(s, hash, proofs).Ok?
    ensures Verify(s.g, Aggregated(s, hash, proofs).value)
       <==> AcceptableParts(s.g, proofs[0].bitLength, |proofs|, Link(s.q, hash, proofs), Concat(ProofBytes(proofs)))
  {
    hide PrimeOrder, Laws, Setup<T>.Valid, PointFromBytes, Link, Concat, Log2, IsPowerOfTwo, Field, ExpectedSize;
    SetupFacts(s);
    AggregateLayout(s, hash, proofs);
    var cs, body, link := Commitments(proofs), Concat(ProofBytes(proofs)), Link(s.q, hash, proofs);
    var agg := Aggregated(s, hash, proofs).value;
    if 0 < agg.bitLength <= 128 && |agg.proofBytes| == ExpectedSize(agg.bitLength) {
      ThreeFields(agg.bitLength, |proofs|, |body|);
      FrontFields(s.g, link, cs, body, agg.proofBytes);
    }
  }

  lemma AllWide<T(!new)>(g: Group<T>, encodings: seq<seq<Byte>>)
    requires AllParse(g, encodings)
    ensures forall p :: p in encodings ==> |p| == 32
  {
  }

  /** The four points that the check reads. */
  lemma FrontFields<T>(g: Group<T>, link: seq<Byte>, cs: seq<seq<Byte>>, body: seq<Byte>, b: seq<Byte>)
    requires |cs| >= 1 && AllParse(g, cs) && |b| == 32 + 32 * |cs| + |body| && |b| >= 128
    requires Field(b, 0) == link && (forall j: nat :: j < |cs| ==> Field(b, 1 + j) == cs[j])
    requires forall j: nat :: 32 * j + 32 <= |body| ==> Field(b, 1 + |cs| + j) == Field(body, j)
    requires forall j: nat :: j < 3 - |cs| ==> 32 * j + 32 <= |body|
    ensures (forall j: nat :: j < 4 ==> PointFromBytes(g, Field(b, j)).Ok?)
       <==> PointFromBytes(g, link).Ok?
            && (forall j: nat :: j < 3 - |cs| && 32 * j + 32 <= |body| ==> PointFromBytes(g, Field(body, j)).Ok?)
  {
    hide Field, PointFromBytes;
    assert Field(b, 1) == cs[0];
    if |cs| == 1 {
      assert Field(b, 2) == Field(body, 0) && Field(b, 3) == Field(body, 1);
    } else if |cs| == 2 {
      assert Field(b, 2) == cs[1] && Field(b, 3) == Field(body, 0);
    } else {
      assert Field(b, 2) == cs[1] && Field(b, 3) == cs[2];
    }
  }

  // ---------------------------------------------------------------- proofs that are accepted one by one

  lemma {:induction false} ConcatSizes(parts: seq<seq<Byte>>, size: nat)
    requires forall p :: p in parts ==> |p| == size
    ensures |Concat(parts)| == size * |parts|
  {
    if parts != [] {
      ConcatSizes(parts[1..], size);
      OneMore(size, |parts|);
    }
  }

  lemma OneMore(size: nat, k: nat)
    ensures size * k == size + size * (k - 1)
  {
  }

  /** Proofs that the check accepts can be aggregated, and the check never accepts the aggregate: it is too long. */
  lemma AggregateRejected<T(!new)>(s: Setup<T>, hash: Hash, proofs: seq<RangeProof>)
    requires s.Valid() && proofs != [] && SameBitLength(proofs)
    requires forall i :: 0 <= i < |proofs| ==> Verify(s.g, proofs[i])
    ensures Aggregated(s, hash, proofs).Ok? && !Verify(s.g, Aggregated(s, hash, proofs).value)
  {
    hide PrimeOrder, Laws, Setup<T>.Valid, PointFromBytes, Link, Concat, Field, ExpectedSize, AcceptableParts;
    hide Aggregated, Fits32, IsPrime;
    SetupFacts(s);
    assert Verify(s.g, proofs[0]);
    var size := ExpectedSize(proofs[0].bitLength);
    forall i | 0 <= i < |proofs|
      ensures PointFromBytes(s.g, proofs[i].commitment).Ok? && |proofs[i].proofBytes| == size {
      assert Verify(s.g, proofs[i]);
    }
    AggregateSucceeds(s, hash, proofs);
    AggregateVerifies(s, hash, proofs);
    ConcatSizes(ProofBytes(proofs), size);
    TooLong(s.g, proofs[0].bitLength, |proofs|, Link(s.q, hash, proofs), Concat(ProofBytes(proofs)));
  }

  lemma TooLong<T>(g: Group<T>, bitLength: nat, count: nat, link: seq<Byte>, body: seq<Byte>)
    requires count >= 1 && |body| == ExpectedSize(bitLength) * count
    ensures !AcceptableParts(g, bitLength, count, link, body)
  {
    hide PointFromBytes, Field, Log2, IsPowerOfTwo, ExpectedSize;
    OneMore(ExpectedSize(bitLength), count);
    assert ExpectedSize(bitLength) * (count - 1) >= 0;
  }

  // ---------------------------------------------------------------- an aggregate that is accepted

  /** One proof about one bit that is nothing but seven base points, with the base point as its commitment. */
  function SevenPoints<T(!new)>(s: Setup<T>): RangeProof {
    var e := s.g.enc(s.G);
    RangeProof(Concat([e, e, e, e, e, e, e]), e, 1)
  }

  /** It is aggregated, and the check accepts the aggregate, whenever the linking scalar happens to be the encoding of
      a point; alone it is rejected. */
  lemma SevenPointsAccepted<T(!new)>(s: Setup<T>, hash: Hash)
    requires s.Valid()
    ensures var r := Aggregated(s, hash, [SevenPoints(s)]);
            && r.Ok? && (Verify(s.g, r.value) <==> PointFromBytes(s.g, Link(s.q, hash, [SevenPoints(s)])).Ok?)
            && !Verify(s.g, SevenPoints(s))
  {
    hide PrimeOrder, Laws, Setup<T>.Valid, PointFromBytes, Link, Concat, Field;
    SetupFacts(s);
    var e, proofs := s.g.enc(s.G), [SevenPoints(s)];
    ParseEncoded(s.g, s.G);
    FieldsOf([e, e, e, e, e, e, e]);
    assert Commitments(proofs) == [e];
    AggregateSucceeds(s, hash, proofs);
    AggregateVerifies(s, hash, proofs);
    ConcatOne(proofs[0].proofBytes);
    assert ProofBytes(proofs) == [proofs[0].proofBytes];
    assert Log2(1) == 0 && Exp2(0) == 1;
    assert ExpectedSize(1) == 288;
  }

  lemma ConcatOne(part: seq<Byte>)
    ensures Concat([part]) == part
  {
    assert Concat([]) == [];
  }

  /** Over the integers modulo any odd prime every linking scalar is such an encoding: for every hash, the check
      accepts. */
  lemma AggregateAccepted(q: int, hash: Hash)
    requires IsPrime(q) && q > 2 && Fits32(q)
    ensures var s := Setup(Residues(q), q, 1, 1);
            && s.Valid() && Aggregated(s, hash, [SevenPoints(s)]).Ok?
            && Verify(s.g, Aggregated(s, hash, [SevenPoints(s)]).value)
  {
    hide PrimeOrder, IsPrime, AddMod, NegMod, ResidueBytes, Fits32, Aggregated, Verify, SevenPoints, Link, ToLE, FromLE;
    ResiduesPrimeOrder(q);
    var s := Setup(Residues(q), q, 1, 1);
    SevenPointsAccepted(s, hash);
    LinkParses(q, hash, [SevenPoints(s)]);
  }

  lemma LinkParses(q: int, hash: Hash, proofs: seq<RangeProof>)
    requires q > 0 && Fits32(q)
    ensures PointFromBytes(Residues(q), Link(q, hash, proofs)).Ok?
  {
    hide AddMod, NegMod, Fits32, ToLE, FromLE, Drawn, AppendAll, Commitments, ProofBytes;
    var acc := AppendAll(hash, AppendAll(hash, TRANSCRIPT_DOMAIN, "aggC", Commitments(proofs)), "aggP",
                         ProofBytes(proofs));
    var n := Drawn(q, hash, acc, "link").0 % q;
    ResidueCode(q, n, []);
    assert Link(q, hash, proofs) == ResidueBytes(n);
  }
}
