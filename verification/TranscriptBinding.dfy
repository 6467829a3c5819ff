/** What the challenges of a running transcript depend on: everything absorbed before them. */
module TranscriptBinding {
  import opened Bytes
  import opened ByteTools
  import opened ScalarCodec
  import opened Sigma
  import opened Transcript

  datatype Op = Absorb(tag: string, bytes: seq<Byte>) | Draw(tag: string)

  /** The state after a list of operations. */
  function Play(hash: Hash, acc: seq<Byte>, ops: seq<Op>): seq<Byte>
    decreases |ops|
  {
    if ops == [] then acc
    else
      var last := ops[|ops| - 1];
      var before := Play(hash, acc, ops[..|ops| - 1]);
      if last.Absorb? then Appended(hash, before, last.tag, last.bytes) else Drawn(1, hash, before, last.tag).1
  }

  /** What an operation puts behind the state: its label, and for bytes their length in four bytes and themselves. */
  function Spelt(op: Op): seq<Byte> {
    match op
    case Absorb(tag, bytes) => Label(tag) + ToLE(|bytes|, 4) + bytes
    case Draw(tag) => Label(tag)
  }

  lemma PlayOne(hash: Hash, acc: seq<Byte>, ops: seq<Op>, op: Op)
    ensures Play(hash, acc, ops + [op]) == hash(Play(hash, acc, ops) + Spelt(op))
  {
    var before := Play(hash, acc, ops);
    assert (ops + [op])[..|ops|] == ops;
    hide Concat, Label, ToLE;
    if op.Absorb? {
      ConcatFour(before, Label(op.tag), ToLE(|op.bytes|, 4), op.bytes);
      FourParts(before, Label(op.tag), ToLE(|op.bytes|, 4), op.bytes);
    } else {
      ConcatTwo(before, Label(op.tag));
    }
  }

  lemma FourParts(a: seq<Byte>, b: seq<Byte>, c: seq<Byte>, d: seq<Byte>)
    ensures a + b + c + d == a + (b + c + d)
  {
  }

  /** The string that absorbing bytes hashes: the state, the letters of the label, the length and the bytes. */
  lemma AbsorbedString(acc: seq<Byte>, tag: string, bytes: seq<Byte>) returns (text: seq<Byte>)
    requires |bytes| < 0x1_0000_0000
    ensures var n := |acc| + |tag|;
            && |text| == n + 4 + |bytes| && text[..|acc|] == acc && text[n + 4..] == bytes
            && (forall i :: 0 <= i < |tag| && tag[i] < 128 as char ==> text[|acc| + i] == tag[i] as int)
            && FromLE(text[n..n + 4]) == |bytes|
    ensures forall hash: Hash :: Appended(hash, acc, tag, bytes) == hash(text)
  {
    text := acc + Label(tag) + ToLE(|bytes|, 4) + bytes;
    ConcatFour(acc, Label(tag), ToLE(|bytes|, 4), bytes);
    FourBytes(0);
    FromToLE(|bytes|, 4);
    assert text[|acc| + |tag|..|acc| + |tag| + 4] == ToLE(|bytes|, 4);
  }

  /** The string that a challenge hashes: the state and the letters of the label. The digest is the next state and,
      modulo the order, the challenge. */
  lemma DrawnString(q: int, acc: seq<Byte>, tag: string) returns (text: seq<Byte>)
    requires q > 0
    ensures |text| == |acc| + |tag| && text[..|acc|] == acc
    ensures forall i :: 0 <= i < |tag| && tag[i] < 128 as char ==> text[|acc| + i] == tag[i] as int
    ensures forall hash: Hash :: Drawn(q, hash, acc, tag) == (FromLE(hash(text)) % q, hash(text))
  {
    text := acc + Label(tag);
    ConcatTwo(acc, Label(tag));
  }

  lemma ConcatTwo(a: seq<Byte>, b: seq<Byte>)
    ensures Concat([a, b]) == a + b
  {
    assert Concat([]) == [] && Concat([b]) == b + Concat([]);
    assert [a, b][1..] == [b] && [b][1..] == [];
  }

  lemma ConcatFour(a: seq<Byte>, b: seq<Byte>, c: seq<Byte>, d: seq<Byte>)
    ensures Concat([a, b, c, d]) == a + b + c + d
  {
    assert [a, b, c, d][1..] == [b, c, d] && [b, c, d][1..] == [c, d];
    ConcatTwo(c, d);
    assert a + (b + (c + d)) == a + b + c + d;
  }

  // ---------------------------------------------------------------- the string of all operations

  function Text(ops: seq<Op>): seq<Byte>
    decreases |ops|
  {
    if ops == [] then [] else Spelt(ops[0]) + Text(ops[1..])
  }

  lemma {:induction false} TextOne(ops: seq<Op>, op: Op)
    ensures Text(ops + [op]) == Text(ops) + Spelt(op)
    decreases |ops|
  {
    if ops == [] {
      assert (ops + [op])[1..] == [];
    } else {
      assert (ops + [op])[1..] == ops[1..] + [op];
      TextOne(ops[1..], op);
    }
  }

  /** The same operations with the same labels, up to the bytes absorbed; and no more than four bytes of length. */
  ghost predicate SameShape(op: Op, op': Op) {
    && op.tag == op'.tag && op.Absorb? == op'.Absorb?
    && (op.Absorb? ==> |op.bytes| < 0x1_0000_0000 && |op'.bytes| < 0x1_0000_0000)
  }

  ghost predicate SameShapes(ops: seq<Op>, ops': seq<Op>) {
    |ops| <= |ops'| && forall i :: 0 <= i < |ops| ==> SameShape(ops[i], ops'[i])
  }

  /** Strings whose length stands before them in four bytes are found again. */
  lemma LengthPrefix(x: seq<Byte>, y: seq<Byte>, rest: seq<Byte>, rest': seq<Byte>)
    requires |x| < 0x1_0000_0000 && |y| < 0x1_0000_0000
    requires ToLE(|x|, 4) + (x + rest) == ToLE(|y|, 4) + (y + rest')
    ensures x == y && rest == rest'
  {
    var all := ToLE(|x|, 4) + (x + rest);
    assert all[..4] == ToLE(|x|, 4) && all[4..] == x + rest;
    assert all == ToLE(|y|, 4) + (y + rest');
    assert all[..4] == ToLE(|y|, 4) && all[4..] == y + rest';
    FourBytes(0);
    FromToLE(|x|, 4);
    FromToLE(|y|, 4);
    assert x == (x + rest)[..|x|] && y == (y + rest')[..|y|];
    assert rest == (x + rest)[|x|..] && rest' == (y + rest')[|y|..];
  }

  /** Behind any strings: equal texts begin with equal operations. */
  lemma SpeltPrefix(op: Op, op': Op, rest: seq<Byte>, rest': seq<Byte>)
    requires SameShape(op, op') && Spelt(op) + rest == Spelt(op') + rest'
    ensures op == op' && rest == rest'
  {
    hide ToLE, Label;
    var t := Label(op.tag);
    if op.Absorb? {
      var n, n' := ToLE(|op.bytes|, 4), ToLE(|op'.bytes|, 4);
      assert Spelt(op) + rest == t + (n + (op.bytes + rest));
      assert Spelt(op') + rest' == t + (n' + (op'.bytes + rest'));
      SameTail(t, n + (op.bytes + rest), n' + (op'.bytes + rest'));
      LengthPrefix(op.bytes, op'.bytes, rest, rest');
    } else {
      SameTail(t, rest, rest');
    }
  }

  lemma TextHead(ops: seq<Op>)
    ensures if ops == [] then Text(ops) == [] else Text(ops) == Spelt(ops[0]) + Text(ops[1..])
  {
  }

  lemma ShapesTail(ops: seq<Op>, ops': seq<Op>)
    requires SameShapes(ops, ops') && ops != []
    ensures |ops| <= |ops'| && SameShape(ops[0], ops'[0]) && SameShapes(ops[1..], ops'[1..])
  {
    hide SameShape;
  }

  lemma {:induction false} TextPrefix(ops: seq<Op>, ops': seq<Op>)
    requires SameShapes(ops, ops') && Text(ops) == Text(ops')
    ensures ops == ops'[..|ops|] && Text(ops'[|ops|..]) == []
    decreases |ops|
  {
    hide Text, Spelt, SameShape, SameShapes;
    TextHead(ops);
    if ops == [] {
      assert |ops'| >= 0 && ops'[0..] == ops';
    } else {
      ShapesTail(ops, ops');
      TextHead(ops');
      SpeltPrefix(ops[0], ops'[0], Text(ops[1..]), Text(ops'[1..]));
      TextPrefix(ops[1..], ops'[1..]);
      assert ops'[1..][|ops| - 1..] == ops'[|ops|..];
      assert ops == [ops[0]] + ops[1..] && ops'[..|ops|] == [ops'[0]] + ops'[1..][..|ops| - 1];
    }
  }

  // ---------------------------------------------------------------- a hash that tells two texts apart

  /** A hash for examples: it marks two strings and leaves all others as they are. */
  function Telling(a: seq<Byte>, b: seq<Byte>): Hash {
    data => if data == a then [1] + seq(63, _ => 0 as Byte) else if data == b then seq(64, _ => 0 as Byte) else data
  }

  lemma TellingDigests(q: int, a: seq<Byte>, b: seq<Byte>)
    requires q > 1 && a != b
    ensures ScalarFromUniform64(q, Telling(a, b)(a)) == 1 && ScalarFromUniform64(q, Telling(a, b)(b)) == 0
  {
    MarkingDigest(q, a, a);
    MarkingDigest(q, a, b);
    assert Telling(a, b)(a) == Marking(a)(a) && Telling(a, b)(b) == Marking(a)(b);
  }

  lemma TellingOthers(a: seq<Byte>, b: seq<Byte>, data: seq<Byte>)
    requires data != a && data != b
    ensures Telling(a, b)(data) == data
  {
  }

  lemma PlayNothing(hash: Hash, acc: seq<Byte>)
    ensures Play(hash, acc, []) == acc && Text([]) == []
  {
  }

  /** As long as it meets neither of the two, the state is the text so far. */
  lemma {:induction false} PlayTelling(a: seq<Byte>, b: seq<Byte>, acc: seq<Byte>, ops: seq<Op>)
    requires forall k: nat :: 0 < k <= |ops| ==> acc + Text(ops[..k]) != a && acc + Text(ops[..k]) != b
    ensures Play(Telling(a, b), acc, ops) == acc + Text(ops)
    decreases |ops|
  {
    hide Play, Text, Spelt, Telling;
    PlayNothing(Telling(a, b), acc);
    if ops == [] {
      assert acc + [] == acc;
    } else {
      var n := |ops| - 1;
      var front, last := ops[..n], ops[n];
      assert ops == front + [last] && ops[..|ops|] == ops;
      forall k: nat | 0 < k <= n ensures acc + Text(front[..k]) != a && acc + Text(front[..k]) != b {
        assert front[..k] == ops[..k];
      }
      PlayTelling(a, b, acc, front);
      PlayOne(Telling(a, b), acc, front, last);
      TextOne(front, last);
      assert acc + Text(front) + Spelt(last) == acc + (Text(front) + Spelt(last));
      TellingOthers(a, b, acc + Text(ops));
    }
  }

  lemma {:induction false} TextAppend(a: seq<Op>, b: seq<Op>)
    ensures Text(a + b) == Text(a) + Text(b)
    decreases |a|
  {
    if a == [] {
      assert a + b == b;
    } else {
      assert (a + b)[1..] == a[1..] + b;
      TextAppend(a[1..], b);
    }
  }

  lemma {:induction false} TextLength(ops: seq<Op>, k: nat)
    requires k <= |ops|
    ensures |Text(ops[..k])| <= |Text(ops)|
  {
    TextAppend(ops[..k], ops[k..]);
    assert ops[..k] + ops[k..] == ops;
  }

  /** No earlier state is one of the two final texts. */
  lemma EarlierDiffers(acc: seq<Byte>, ops: seq<Op>, ops': seq<Op>, tag: string, k: nat)
    requires |ops| == |ops'| && SameShapes(ops, ops') && SameShapes(ops', ops) && tag != [] && k <= |ops|
    ensures acc + Text(ops[..k]) != acc + Text(ops + [Draw(tag)])
            && acc + Text(ops[..k]) != acc + Text(ops' + [Draw(tag)])
  {
    TextOne(ops, Draw(tag));
    TextOne(ops', Draw(tag));
    TextLength(ops, k);
    var full := ops' + [Draw(tag)];
    TextOne(ops'[k..], Draw(tag));
    assert full[k..] == ops'[k..] + [Draw(tag)];
    if acc + Text(ops[..k]) == acc + Text(full) {
      SameTail(acc, Text(ops[..k]), Text(full));
      TextPrefix(ops[..k], full);
    }
  }

  lemma SameTail(acc: seq<Byte>, x: seq<Byte>, y: seq<Byte>)
    requires acc + x == acc + y
    ensures x == y
  {
    assert x == (acc + x)[|acc|..] && y == (acc + y)[|acc|..];
  }

  /** The challenge drawn after two lists of operations of the same shape is the same under every hash exactly when the
      lists are equal: it depends on every byte absorbed. */
  lemma PlayBinds(q: int, acc: seq<Byte>, ops: seq<Op>, ops': seq<Op>, tag: string)
    requires q > 1 && tag != [] && |ops| == |ops'| && SameShapes(ops, ops')
    ensures (forall hash: Hash ::
               Drawn(q, hash, Play(hash, acc, ops), tag).0 == Drawn(q, hash, Play(hash, acc, ops'), tag).0)
       <==> ops == ops'
  {
    if ops != ops' {
      hide Play, Text, Drawn, Telling;
      var x, x' := acc + Text(ops + [Draw(tag)]), acc + Text(ops' + [Draw(tag)]);
      assert (ops + [Draw(tag)])[..|ops|] == ops && (ops' + [Draw(tag)])[..|ops|] == ops';
      assert (ops + [Draw(tag)])[..|ops| + 1] == ops + [Draw(tag)];
      if x == x' {
        SameTail(acc, Text(ops + [Draw(tag)]), Text(ops' + [Draw(tag)]));
        TextPrefix(ops + [Draw(tag)], ops' + [Draw(tag)]);
      }
      var hash := Telling(x, x');
      DrawTelling(q, acc, ops, ops', tag, x, x');
      DrawTelling(q, acc, ops', ops, tag, x, x');
      TellingDigests(q, x, x');
      assert Drawn(q, hash, Play(hash, acc, ops), tag).0 != Drawn(q, hash, Play(hash, acc, ops'), tag).0;
    }
  }

  lemma DrawTelling(q: int, acc: seq<Byte>, ops: seq<Op>, ops': seq<Op>, tag: string, x: seq<Byte>, x': seq<Byte>)
    requires q > 1 && tag != [] && |ops| == |ops'| && SameShapes(ops, ops') && SameShapes(ops', ops)
    requires {x, x'} == {acc + Text(ops + [Draw(tag)]), acc + Text(ops' + [Draw(tag)])}
    ensures var hash, text := Telling(x, x'), acc + Text(ops + [Draw(tag)]);
            Drawn(q, hash, Play(hash, acc, ops), tag).0 == ScalarFromUniform64(q, hash(text))
  {
    hide Play, Text, Telling;
    var hash, text := Telling(x, x'), acc + Text(ops + [Draw(tag)]);
    assert x in {x, x'} && x' in {x, x'};
    forall k: nat | 0 < k <= |ops| ensures acc + Text(ops[..k]) != x && acc + Text(ops[..k]) != x' {
      EarlierDiffers(acc, ops, ops', tag, k);
    }
    PlayTelling(x, x', acc, ops);
    ConcatTwo(acc + Text(ops), Label(tag));
    TextOne(ops, Draw(tag));
    assert acc + Text(ops) + Label(tag) == text;
  }
}
