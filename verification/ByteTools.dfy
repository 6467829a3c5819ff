/** The SDK's helpers on byte strings. */
module ByteTools {
  import opened Bytes

  function Concat(parts: seq<seq<Byte>>): seq<Byte> {
    if parts == [] then [] else parts[0] + Concat(parts[1..])
  }

  lemma {:induction false} ConcatLast(parts: seq<seq<Byte>>, last: seq<Byte>)
    ensures Concat(parts + [last]) == Concat(parts) + last
  {
    if parts == [] {
      assert ([] + [last])[1..] == [];
      assert Concat([last]) == last + Concat([]);
    } else {
      assert (parts + [last])[1..] == parts[1..] + [last];
      ConcatLast(parts[1..], last);
    }
  }

  /** One pass sums the lengths, a second copies every part behind the previous one. */
  method ConcatBytes(parts: seq<seq<Byte>>) returns (out: array<Byte>)
    ensures fresh(out) && out[..] == Concat(parts)
  {
    var total := 0;
    for k := 0 to |parts|
      invariant total == |Concat(parts[..k])|
    {
      assert parts[..k + 1] == parts[..k] + [parts[k]];
      ConcatLast(parts[..k], parts[k]);
      total := total + |parts[k]|;
    }
    assert parts[..|parts|] == parts;
    out := new Byte[total];
    var offset := 0;
    for k := 0 to |parts|
      invariant offset == |Concat(parts[..k])| <= total
      invariant out[..offset] == Concat(parts[..k])
    {
      var p := parts[k];
      assert parts[..k + 1] == parts[..k] + [p];
      ConcatLast(parts[..k], p);
      PrefixFits(parts, k + 1);
      ghost var before := out[..offset];
      for i := 0 to |p|
        invariant out[..offset] == before
        invariant out[offset..offset + i] == p[..i]
      {
        out[offset + i] := p[i];
        assert out[offset..offset + i + 1] == out[offset..offset + i] + [p[i]];
      }
      assert out[..offset + |p|] == out[..offset] + out[offset..offset + |p|];
      offset := offset + |p|;
    }
    assert out[..total] == out[..];
  }

  lemma {:induction false} PrefixFits(parts: seq<seq<Byte>>, k: nat)
    requires k <= |parts|
    ensures |Concat(parts[..k])| <= |Concat(parts)|
    decreases |parts| - k
  {
    if k < |parts| {
      assert parts[..k + 1] == parts[..k] + [parts[k]];
      ConcatLast(parts[..k], parts[k]);
      PrefixFits(parts, k + 1);
    } else {
      assert parts[..k] == parts;
    }
  }

  lemma OrZero(x: bv8, a: bv8, b: bv8)
    ensures x | (a ^ b) == 0 <==> x == 0 && a == b
  {
  }

  /** The comparison that looks at every byte decides equality. */
  method ConstantTimeEqual(a: seq<bv8>, b: seq<bv8>) returns (r: bool)
    ensures r <==> a == b
  {
    if |a| != |b| {
      return false;
    }
    var result: bv8 := 0;
    for i := 0 to |a|
      invariant result == 0 <==> a[..i] == b[..i]
    {
      assert a[..i + 1] == a[..i] + [a[i]] && b[..i + 1] == b[..i] + [b[i]];
      OrZero(result, a[i], b[i]);
      result := result | (a[i] ^ b[i]);
    }
    assert a[..|a|] == a && b[..|b|] == b;
    return result == 0;
  }

  // ---------------------------------------------------------------- cutting what was concatenated

  /** Concatenated 32-byte fields are found again at their offsets. */
  lemma {:induction false} FieldAt(parts: seq<seq<Byte>>, k: nat)
    requires k < |parts| && forall p :: p in parts ==> |p| == 32
    ensures |Concat(parts)| == 32 * |parts| && Concat(parts)[32 * k..32 * k + 32] == parts[k]
  {
    var rest := parts[1..];
    FieldsLength(rest);
    if k > 0 {
      FieldAt(rest, k - 1);
      assert Concat(parts)[32 * k..32 * k + 32] == Concat(rest)[32 * (k - 1)..32 * (k - 1) + 32];
    }
  }

  lemma {:induction false} FieldsLength(parts: seq<seq<Byte>>)
    requires forall p :: p in parts ==> |p| == 32
    ensures |Concat(parts)| == 32 * |parts|
  {
    if parts != [] {
      FieldsLength(parts[1..]);
    }
  }
}
