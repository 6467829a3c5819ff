/** The running Fiat-Shamir transcript of the range proof. */
module Transcript {
  import opened Bytes
  import opened ByteTools
  import opened ScalarCodec
  import opened Sigma

  function Appended(hash: Hash, acc: seq<Byte>, tag: string, bytes: seq<Byte>): seq<Byte> {
    hash(Concat([acc, Label(tag), ToLE(|bytes|, 4), bytes]))
  }

  /** The challenge drawn and the state left behind. */
  function Drawn(q: int, hash: Hash, acc: seq<Byte>, tag: string): (int, seq<Byte>)
    requires q > 0
  {
    var out := hash(Concat([acc, Label(tag)]));
    (ScalarFromUniform64(q, out), out)
  }

  class Transcript {
    const hash: Hash
    var acc: seq<Byte>

    constructor (hash: Hash, initial: seq<Byte>)
      ensures this.hash == hash && acc == initial
    {
      this.hash := hash;
      acc := initial;
    }

    method Append(tag: string, bytes: seq<Byte>)
      modifies this
      ensures acc == Appended(hash, old(acc), tag, bytes)
    {
      acc := hash(Concat([acc, Label(tag), ToLE(|bytes|, 4), bytes]));
    }

    method ChallengeScalar(q: int, tag: string) returns (c: int)
      requires q > 0
      modifies this
      ensures (c, acc) == Drawn(q, hash, old(acc), tag)
    {
      var out := hash(Concat([acc, Label(tag)]));
      acc := out;
      c := ReadScalarUniform64(q, out);
    }
  }
}
