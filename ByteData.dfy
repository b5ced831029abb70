/**
 * Byte buffers as the driver reads them from a `Uint8Array`, and its
 * little-endian 16-bit field decoders (`decodeUint16`, `decodeInt16`).
 */
module ByteData {
  import opened JsBits

  type byte = b: int | 0 <= b < 0x100
  type uint16 = w: int | 0 <= w < 0x1_0000

  /**
   * The byte at index i.  A `Uint8Array` read outside the buffer gives
   * `undefined`, which every bitwise operator treats as 0.
   */
  function ByteAt(data: seq<byte>, i: int): byte {
    if 0 <= i < |data| then data[i] else 0
  }

  /** The little-endian 16-bit value at o. */
  function DecodeUint16(data: seq<byte>, o: int): uint16 {
    ByteAt(data, o) + 0x100 * ByteAt(data, o + 1)
  }

  /**
   * `decodeUint16`, and the descriptors' inline `data[o] | (data[o + 1] << 8)`,
   * compute the little-endian value: the two bytes' bits do not overlap.
   */
  lemma DecodeUint16AsWritten(data: seq<byte>, o: int)
    ensures BitOr(ByteAt(data, o), Shl(ByteAt(data, o + 1), 8)) == DecodeUint16(data, o)
  {
    var lo, hi := ByteAt(data, o), ByteAt(data, o + 1);
    Pow2Values();
    ShlSmall(hi, 8);
    OrOfDisjoint(hi, lo, 8);
  }

  /** `decodeInt16`: the little-endian pair read as a two's-complement number. */
  function DecodeInt16(data: seq<byte>, o: int): (v: int)
    ensures -0x8000 <= v < 0x8000
    ensures v == if ByteAt(data, o + 1) >= 0x80 then DecodeUint16(data, o) - 0x1_0000
                 else DecodeUint16(data, o)
  {
    var u := DecodeUint16(data, o);
    if u > 0x8000 - 1 then u - 0x1_0000 else u
  }

  /** The driver assembles the pair as `(data[o + 1] << 8) | data[o]` before the sign adjustment. */
  lemma DecodeInt16AsWritten(data: seq<byte>, o: int)
    ensures (var u := BitOr(Shl(ByteAt(data, o + 1), 8), ByteAt(data, o));
             if u > 0x8000 - 1 then u - 0x1_0000 else u) == DecodeInt16(data, o)
  {
    var lo, hi := ByteAt(data, o), ByteAt(data, o + 1);
    Pow2Values();
    ShlSmall(hi, 8);
    OrOfDisjoint(hi, lo, 8);
  }

  /** The two little-endian bytes of a 16-bit value. */
  function Uint16Bytes(w: uint16): (s: seq<byte>)
    ensures |s| == 2
  {
    [w % 0x100, w / 0x100]
  }

  /** The two little-endian bytes of a 16-bit two's-complement value. */
  function Int16Bytes(v: int): (s: seq<byte>)
    requires -0x8000 <= v < 0x8000
    ensures |s| == 2
  {
    Uint16Bytes(v % 0x1_0000)
  }

  /** `bytes` sits in `data` starting at index o. */
  predicate HoldsAt(data: seq<byte>, o: int, bytes: seq<byte>) {
    forall j :: 0 <= j < |bytes| ==> ByteAt(data, o + j) == bytes[j]
  }

  lemma {:induction false} HoldsAtConcat(data: seq<byte>, o: int, a: seq<byte>, b: seq<byte>)
    requires HoldsAt(data, o, a + b)
    ensures HoldsAt(data, o, a) && HoldsAt(data, o + |a|, b)
  {
    forall j | 0 <= j < |a| ensures ByteAt(data, o + j) == a[j] {
      assert (a + b)[j] == a[j];
    }
    forall j | 0 <= j < |b| ensures ByteAt(data, o + |a| + j) == b[j] {
      assert (a + b)[|a| + j] == b[j];
    }
  }

  lemma {:induction false} HoldsAtWhole(a: seq<byte>, b: seq<byte>, c: seq<byte>)
    ensures HoldsAt(a + b + c, |a|, b)
  {
    forall j | 0 <= j < |b| ensures ByteAt(a + b + c, |a| + j) == b[j] {
      assert (a + b + c)[|a| + j] == b[j];
    }
  }

  lemma {:induction false} Uint16RoundTrip(data: seq<byte>, o: int, w: uint16)
    requires HoldsAt(data, o, Uint16Bytes(w))
    ensures DecodeUint16(data, o) == w
  {
    assert ByteAt(data, o) == Uint16Bytes(w)[0];
    assert ByteAt(data, o + 1) == Uint16Bytes(w)[1];
  }

  lemma {:induction false} Int16RoundTrip(data: seq<byte>, o: int, v: int)
    requires -0x8000 <= v < 0x8000
    requires HoldsAt(data, o, Int16Bytes(v))
    ensures DecodeInt16(data, o) == v
  {
    var w := v % 0x1_0000;
    Uint16RoundTrip(data, o, w);
    assert ByteAt(data, o + 1) == w / 0x100 by {
      assert Int16Bytes(v)[1] == w / 0x100;
    }
    if v < 0 {
      assert w == v + 0x1_0000;
    } else {
      assert w == v;
    }
  }

}
