/** What the three sigma protocols share: challenges, answers, proof fields, and the algebra of one equation.
    The hash is a parameter: a function on byte strings. */
module Sigma {
  import opened Numbers
  import opened Bytes
  import opened Wrappers
  import opened Groups
  import opened Scalars
  import opened SdkGroup
  import opened ScalarCodec
  import opened ByteTools
  import opened ModularInverse

  type Hash = seq<Byte> -> seq<Byte>

  function Label(text: string): seq<Byte> {
    seq(|text|, i requires 0 <= i < |text| => text[i] as int % 256)
  }

  const EQUALITY_DOMAIN: seq<Byte> := Label("ghos.sigma.equality.v1")
  const PUBKEY_VALIDITY_DOMAIN: seq<Byte> := Label("ghos.sigma.pkvalid.v1")
  const ZERO_BALANCE_DOMAIN: seq<Byte> := Label("ghos.sigma.zero.v1")

  /** A hash for examples, with digests of 64 bytes: every challenge drawn from it is 1. */
  const ONE_HASH: Hash := _ => [1] + seq(63, _ => 0 as Byte)

  lemma OneDigest(q: int)
    requires q > 1
    ensures forall data: seq<Byte> :: ScalarFromUniform64(q, ONE_HASH(data)) == 1
  {
    FromLEZeros([1], 63);
    assert FromLE([1]) == 1 + 256 * FromLE([]);
  }

  function Challenge(q: int, hash: Hash, domain: seq<Byte>, messages: seq<seq<Byte>>): (c: int)
    requires q > 0
    ensures 0 <= c < q
  {
    ScalarFromUniform64(q, hash(Concat([domain] + messages)))
  }

  /** t + c*w, with the reductions of the source. */
  function Respond(q: int, t: int, c: int, w: int): int
    requires q > 0
  {
    (t + (c * w) % q) % q
  }

  lemma OneChallenge(q: int, domain: seq<Byte>, messages: seq<seq<Byte>>)
    requires q > 1
    ensures Challenge(q, ONE_HASH, domain, messages) == 1
  {
    OneDigest(q);
  }

  // ---------------------------------------------------------------- what a challenge depends on

  /** A hash for examples: the challenge drawn from it is 1 for one string and 0 for all others. */
  function Marking(target: seq<Byte>): Hash {
    data => if data == target then [1] + seq(63, _ => 0 as Byte) else seq(64, _ => 0 as Byte)
  }

  lemma MarkingDigest(q: int, target: seq<Byte>, data: seq<Byte>)
    requires q > 1
    ensures ScalarFromUniform64(q, Marking(target)(data)) == if data == target then 1 else 0
  {
    FromLEZeros([1], 63);
    FromLEZeros([], 64);
    assert FromLE([1]) == 1 + 256 * FromLE([]);
    assert [] + seq(64, _ => 0 as Byte) == seq(64, _ => 0 as Byte);
  }

  /** The string is the domain with the messages behind it, one after the other. */
  ghost predicate Spells(text: seq<Byte>, domain: seq<Byte>, messages: seq<seq<Byte>>) {
    && |text| == |domain| + 32 * |messages| && text[..|domain|] == domain
    && forall k: nat :: k < |messages| ==> Field(text[|domain|..], k) == messages[k]
  }

  ghost predicate Messages(messages: seq<seq<Byte>>) {
    forall m :: m in messages ==> |m| == 32
  }

  /** Only one string spells them, and it determines them. */
  lemma SpellsUnique(text: seq<Byte>, text': seq<Byte>, domain: seq<Byte>, messages: seq<seq<Byte>>,
                     messages': seq<seq<Byte>>)
    requires Spells(text, domain, messages) && Spells(text', domain, messages')
    ensures text == text' <==> messages == messages'
  {
    var rest, rest' := text[|domain|..], text'[|domain|..];
    assert text == domain + rest && text' == domain + rest';
    if messages == messages' {
      forall i | 0 <= i < |rest| ensures rest[i] == rest'[i] {
        assert Field(rest, i / 32)[i % 32] == rest[i] && Field(rest', i / 32)[i % 32] == rest'[i];
      }
      assert rest == rest';
    }
  }

  /** A challenge is the digest, modulo the order, of the string that spells domain and messages. */
  lemma ChallengeString(q: int, domain: seq<Byte>, messages: seq<seq<Byte>>) returns (text: seq<Byte>)
    requires q > 0 && Messages(messages)
    ensures Spells(text, domain, messages)
    ensures forall hash: Hash :: Challenge(q, hash, domain, messages) == FromLE(hash(text)) % q
  {
    text := Concat([domain] + messages);
    assert ([domain] + messages)[1..] == messages;
    assert text[|domain|..] == Concat(messages);
    FieldsOf(messages);
  }

  /** Two lists of messages draw the same challenge under every hash exactly when they are equal. */
  lemma ChallengeBinds(q: int, domain: seq<Byte>, messages: seq<seq<Byte>>, messages': seq<seq<Byte>>)
    requires q > 1 && Messages(messages) && Messages(messages')
    ensures (forall hash: Hash :: Challenge(q, hash, domain, messages) == Challenge(q, hash, domain, messages'))
       <==> messages == messages'
  {
    hide Challenge, Spells, FromLE;
    var text := ChallengeString(q, domain, messages);
    var text' := ChallengeString(q, domain, messages');
    SpellsUnique(text, text', domain, messages, messages');
    if text != text' {
      MarkingDigest(q, text, text);
      MarkingDigest(q, text, text');
      assert Challenge(q, Marking(text), domain, messages) != Challenge(q, Marking(text), domain, messages');
    }
  }

  /** No string spelt for one protocol is spelt for another, whatever the messages. */
  lemma DomainsSeparate(text: seq<Byte>, m: seq<seq<Byte>>, m': seq<seq<Byte>>, m'': seq<seq<Byte>>)
    ensures !(Spells(text, EQUALITY_DOMAIN, m) && Spells(text, PUBKEY_VALIDITY_DOMAIN, m'))
    ensures !(Spells(text, EQUALITY_DOMAIN, m) && Spells(text, ZERO_BALANCE_DOMAIN, m''))
    ensures !(Spells(text, PUBKEY_VALIDITY_DOMAIN, m') && Spells(text, ZERO_BALANCE_DOMAIN, m''))
  {
    // the twelfth letter decides: e, p or z
    assert EQUALITY_DOMAIN[11] == 101 && PUBKEY_VALIDITY_DOMAIN[11] == 112 && ZERO_BALANCE_DOMAIN[11] == 122;
    assert Spells(text, EQUALITY_DOMAIN, m) ==> text[..|EQUALITY_DOMAIN|][11] == text[11];
    assert Spells(text, PUBKEY_VALIDITY_DOMAIN, m') ==> text[..|PUBKEY_VALIDITY_DOMAIN|][11] == text[11];
    assert Spells(text, ZERO_BALANCE_DOMAIN, m'') ==> text[..|ZERO_BALANCE_DOMAIN|][11] == text[11];
  }

  /** With challenge 1 the answer is zero for exactly one random scalar. */
  lemma ZeroAnswer(q: int, t: int, w: int)
    requires 1 <= t < q && 0 <= w < q
    ensures Respond(q, t, 1, w) == 0 <==> t == q - w
  {
    hide Eq;
    assert 1 * w == w;
    ModSmall(q, w);
    if t + w < q {
      ModSmall(q, t + w);
    } else {
      OneTurn(q, t + w);
      EqIffMod(q, t + w, t + w - q);
      ModSmall(q, t + w - q);
    }
  }

  lemma OneTurn(q: int, n: int)
    ensures Eq(q, n, n - q)
  {
    DividesIntro(q, q, 1);
  }

  /** The k-th 32-byte field of a proof. */
  function Field(proof: seq<Byte>, k: nat): (field: seq<Byte>)
    requires 32 * k + 32 <= |proof|
    ensures |field| == 32
  {
    proof[32 * k..32 * k + 32]
  }

  /** Two points are compared by their encodings. */
  predicate PointsEqual<T>(g: Group<T>, a: T, b: T) {
    g.enc(a) == g.enc(b)
  }

  // ---------------------------------------------------------------- one verification equation

  /** z*base = a + c*w. */
  ghost predicate Accepts<T>(g: Group<T>, q: int, lhs: T, a: T, c: int, w: T)
    requires q > 0
  {
    lhs == g.add(a, Scalar(g, q, c, w))
  }

  /** The honest response satisfies its equation. */
  lemma Responds<T(!new)>(g: Group<T>, q: int, base: T, t: int, c: int, w: int)
    requires PrimeOrder(g, q) && g.elem(base)
    ensures Accepts(g, q, Scalar(g, q, Respond(q, t, c, w), base), Scalar(g, q, t, base), c, Scalar(g, q, w, base))
  {
    hide PrimeOrder, Laws, Divides, Scalar;
    OrderFacts(g, q);
    EqMod(q, c * w);
    EqRefl(q, t);
    EqAdd(q, t, t, (c * w) % q, c * w);
    EqMod(q, t + (c * w) % q);
    EqTrans(q, Respond(q, t, c, w), t + (c * w) % q, t + c * w);
    ScalarCongruent(g, q, Respond(q, t, c, w), t + c * w, base);
    ScalarSum(g, q, t, c * w, base);
    ScalarScalar(g, q, c, w, base);
  }

  /** Equations add up. */
  lemma AcceptsSum<T(!new)>(g: Group<T>, q: int, l: T, a: T, w: T, l': T, a': T, w': T, c: int)
    requires PrimeOrder(g, q) && g.elem(a) && g.elem(w) && g.elem(a') && g.elem(w')
    requires Accepts(g, q, l, a, c, w) && Accepts(g, q, l', a', c, w')
    ensures Accepts(g, q, g.add(l, l'), g.add(a, a'), c, g.add(w, w'))
  {
    hide PrimeOrder, Laws, Scalar;
    OrderFacts(g, q);
    ScalarElem(g, q, c, w);
    ScalarElem(g, q, c, w');
    Interchange(g, a, Scalar(g, q, c, w), a', Scalar(g, q, c, w'));
    ScalarOfSum(g, q, c, w, w');
  }

  /** What two accepting answers to different challenges reveal: w = (l - l')/(c - c'). */
  lemma Extract<T(!new)>(g: Group<T>, q: int, l: T, l': T, a: T, c: int, c': int, w: T)
    requires PrimeOrder(g, q) && g.elem(a) && g.elem(w) && !Eq(q, c, c')
    requires Accepts(g, q, l, a, c, w) && Accepts(g, q, l', a, c', w)
    ensures w == Scalar(g, q, Inverse(q, c - c'), Subtract(g, l, l')) && g.elem(l) && g.elem(l')
  {
    hide PrimeOrder, Laws, Divides, Scalar, Inverse, IsPrime;
    OrderFacts(g, q);
    var d, e := c - c', Inverse(q, c - c');
    var u, u' := Scalar(g, q, c, w), Scalar(g, q, c', w);
    ScalarElem(g, q, c, w);
    ScalarElem(g, q, c', w);
    AddElem(g, a, u);
    AddElem(g, a, u');
    Difference(g, a, u, u');
    ScalarSum(g, q, c, -c', w);
    ScalarNeg(g, q, c', w);
    InverseSpec(q, d);
    ScalarScalar(g, q, e, d, w);
    assert e * d == d * e && c + -c' == d;
    ScalarCongruent(g, q, d * e, 1, w);
    ScalarZero(g, q, w);
  }

  lemma Difference<T(!new)>(g: Group<T>, a: T, u: T, v: T)
    requires Laws(g) && g.elem(a) && g.elem(u) && g.elem(v)
    ensures Subtract(g, g.add(a, u), g.add(a, v)) == g.add(u, g.neg(v))
  {
    hide Laws;
    AddNeg(g, a);
    AddNeg(g, v);
    NegAdd(g, a, v);
    Interchange(g, a, u, g.neg(a), g.neg(v));
    AddElem(g, u, g.neg(v));
    AddZero(g, g.add(u, g.neg(v)));
  }

  /** The extracted witness of an equation over one generator. */
  lemma ExtractOne<T(!new)>(g: Group<T>, q: int, base: T, z: int, z': int, a: T, c: int, c': int, w: T)
    requires PrimeOrder(g, q) && g.elem(base) && g.elem(a) && g.elem(w) && !Eq(q, c, c')
    requires Accepts(g, q, Scalar(g, q, z, base), a, c, w) && Accepts(g, q, Scalar(g, q, z', base), a, c', w)
    ensures w == Scalar(g, q, Inverse(q, c - c') * (z - z'), base)
  {
    hide PrimeOrder, Laws, Divides, Scalar, Inverse, Accepts;
    OrderFacts(g, q);
    Extract(g, q, Scalar(g, q, z, base), Scalar(g, q, z', base), a, c, c', w);
    ScalarSum(g, q, z, -z', base);
    ScalarNeg(g, q, z', base);
    assert z + -z' == z - z';
    ScalarScalar(g, q, Inverse(q, c - c'), z - z', base);
  }

  /** The extracted witnesses of an equation over two generators. */
  lemma ExtractTwo<T(!new)>(g: Group<T>, q: int, b1: T, b2: T, y: int, z: int, y': int, z': int, a: T, c: int, c': int,
                            w: T)
    requires PrimeOrder(g, q) && g.elem(b1) && g.elem(b2) && g.elem(a) && g.elem(w) && !Eq(q, c, c')
    requires Accepts(g, q, g.add(Scalar(g, q, y, b1), Scalar(g, q, z, b2)), a, c, w)
    requires Accepts(g, q, g.add(Scalar(g, q, y', b1), Scalar(g, q, z', b2)), a, c', w)
    ensures var e := Inverse(q, c - c');
            w == g.add(Scalar(g, q, e * (y - y'), b1), Scalar(g, q, e * (z - z'), b2))
  {
    hide PrimeOrder, Laws, Divides, Scalar, Inverse, Accepts;
    OrderFacts(g, q);
    var e := Inverse(q, c - c');
    var u, v, u', v' := Scalar(g, q, y, b1), Scalar(g, q, z, b2), Scalar(g, q, y', b1), Scalar(g, q, z', b2);
    Extract(g, q, g.add(u, v), g.add(u', v'), a, c, c', w);
    ScalarElem(g, q, y, b1);
    ScalarElem(g, q, z, b2);
    ScalarElem(g, q, y', b1);
    ScalarElem(g, q, z', b2);
    AddNeg(g, u');
    AddNeg(g, v');
    NegAdd(g, u', v');
    Interchange(g, u, v, g.neg(u'), g.neg(v'));
    ScalarSum(g, q, y, -y', b1);
    ScalarNeg(g, q, y', b1);
    ScalarSum(g, q, z, -z', b2);
    ScalarNeg(g, q, z', b2);
    assert y + -y' == y - y' && z + -z' == z - z';
    ScalarElem(g, q, y - y', b1);
    ScalarElem(g, q, z - z', b2);
    ScalarOfSum(g, q, e, Scalar(g, q, y - y', b1), Scalar(g, q, z - z', b2));
    ScalarScalar(g, q, e, y - y', b1);
    ScalarScalar(g, q, e, z - z', b2);
  }

  // ---------------------------------------------------------------- reading a proof

  /** Fields of 32 bytes, one behind the other, are found again. */
  lemma FieldsOf(parts: seq<seq<Byte>>)
    requires forall p :: p in parts ==> |p| == 32
    ensures |Concat(parts)| == 32 * |parts|
    ensures forall k: nat :: k < |parts| ==> Field(Concat(parts), k) == parts[k]
  {
    FieldsLength(parts);
    forall k: nat | k < |parts| ensures Field(Concat(parts), k) == parts[k] {
      FieldAt(parts, k);
    }
  }

  lemma RespondReduced(q: int, t: int, c: int, w: int)
    requires q > 0
    ensures Respond(q, t, c, w) % q == Respond(q, t, c, w) && 0 <= Respond(q, t, c, w) < q
  {
    ModSmall(q, Respond(q, t, c, w));
  }

  lemma DistinctResidues(q: int, c: int, c': int)
    requires 0 <= c < q && 0 <= c' < q && c != c'
    ensures !Eq(q, c, c')
  {
    if Eq(q, c, c') {
      EqSmall(q, c, c');
    }
  }

  lemma SamePrefix(b: seq<Byte>, b': seq<Byte>, n: nat, k: nat)
    requires n <= |b| && n <= |b'| && b[..n] == b'[..n] && 32 * k + 32 <= n
    ensures Field(b, k) == Field(b', k)
  {
    assert Field(b, k) == b[..n][32 * k..32 * k + 32];
    assert Field(b', k) == b'[..n][32 * k..32 * k + 32];
  }
}
