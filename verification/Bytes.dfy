/** Little-endian byte strings of fixed length. */
module Bytes {

  type Byte = b: int | 0 <= b < 256

  function FromLE(bytes: seq<Byte>): nat {
    if bytes == [] then 0 else bytes[0] + 256 * FromLE(bytes[1..])
  }

  function ToLE(n: nat, len: nat): (bytes: seq<Byte>)
    ensures |bytes| == len
  {
    if len == 0 then [] else [n % 256] + ToLE(n / 256, len - 1)
  }

  function Bound(len: nat): (b: nat)
    ensures b > 0
  {
    if len == 0 then 1 else 256 * Bound(len - 1)
  }

  /** The number of 32-byte strings. */
  const TWO_256: int := 0x1_0000_0000_0000_0000_0000_0000_0000_0000_0000_0000_0000_0000_0000_0000_0000_0000

  lemma FourBytes(n: nat)
    ensures Bound(n + 4) == 0x1_0000_0000 * Bound(n)
  {
    assert Bound(n + 4) == 256 * Bound(n + 3) && Bound(n + 3) == 256 * Bound(n + 2)
        && Bound(n + 2) == 256 * Bound(n + 1);
  }

  lemma BoundOf32()
    ensures Bound(32) == TWO_256
  {
    FourBytes(0);
    FourBytes(4);
    FourBytes(8);
    FourBytes(12);
    FourBytes(16);
    FourBytes(20);
    FourBytes(24);
    FourBytes(28);
    assert Bound(0) == 1;
  }

  /** Every number below q can be written in 32 bytes. */
  ghost predicate Fits32(q: int) {
    exists last: seq<Byte> :: |last| == 32 && q <= FromLE(last) + 1
  }

  lemma Fits32Bound(q: int)
    ensures Fits32(q) <==> q <= TWO_256
  {
    hide ToLE, FromLE, Bound;
    BoundOf32();
    forall last: seq<Byte> | |last| == 32 && q <= FromLE(last) + 1 ensures q <= TWO_256 {
      ToFromLE(last);
    }
    FromToLE(TWO_256 - 1, 32);
    assert |ToLE(TWO_256 - 1, 32)| == 32;
  }

  lemma ToLE32(q: int, n: nat)
    requires n < q && Fits32(q)
    ensures FromLE(ToLE(n, 32)) == n
  {
    hide ToLE, FromLE, Bound;
    var last :| |last| == 32 && q <= FromLE(last) + 1;
    ToFromLE(last);
    FromToLE(n, 32);
  }

  lemma FromLE32(bytes: seq<Byte>)
    requires |bytes| == 32
    ensures ToLE(FromLE(bytes), 32) == bytes && Fits32(FromLE(bytes) + 1)
  {
    hide ToLE, FromLE, Bound;
    ToFromLE(bytes);
  }

  lemma {:induction false} FromToLE(n: nat, len: nat)
    requires n < Bound(len)
    ensures FromLE(ToLE(n, len)) == n
  {
    if len > 0 {
      FromToLE(n / 256, len - 1);
      assert ToLE(n, len)[1..] == ToLE(n / 256, len - 1);
    }
  }

  lemma LowByteSplits(low: Byte, high: nat)
    ensures (low + 256 * high) % 256 == low && (low + 256 * high) / 256 == high
  {
  }

  lemma {:induction false} ToFromLE(bytes: seq<Byte>)
    ensures ToLE(FromLE(bytes), |bytes|) == bytes
    ensures FromLE(bytes) < Bound(|bytes|)
  {
    if bytes != [] {
      ToFromLE(bytes[1..]);
      var m := FromLE(bytes[1..]);
      LowByteSplits(bytes[0], m);
      assert m + 1 <= Bound(|bytes| - 1);
      assert ToLE(FromLE(bytes), |bytes|) == [bytes[0]] + bytes[1..];
    }
  }
}
