/** Fixed-width integers and their representation as bytes in a chosen byte order.
    The reader decodes every multi-byte field in the native order of the machine it
    runs on, so that order is a parameter wherever such a field is decoded. */
module Bytes {

  newtype byte = x: int | 0 <= x < 0x100
  newtype uint32 = x: int | 0 <= x < 0x1_0000_0000
  newtype int32 = x: int | -0x8000_0000 <= x < 0x8000_0000
  newtype uint64 = x: int | 0 <= x < 0x1_0000_0000_0000_0000

  datatype ByteOrder = LittleEndian | BigEndian

  /** 256 to the power n: one more than the largest value n bytes can hold. */
  function Power256(n: nat): (p: nat)
    ensures p >= 1
  {
    if n == 0 then 1 else 256 * Power256(n - 1)
  }

  lemma Power256Widths()
    ensures Power256(4) == 0x1_0000_0000
    ensures Power256(8) == 0x1_0000_0000_0000_0000
  {
    assert Power256(2) == 0x1_0000;
    assert Power256(4) == 0x1_0000_0000 by {
      assert Power256(3) == 0x100_0000;
    }
    assert Power256(6) == 0x1_0000_0000_0000 by {
      assert Power256(5) == 0x100_0000_0000;
    }
    assert Power256(7) == 0x100_0000_0000_0000;
  }

  /** The value of a byte and a smaller value shifted up by one byte. */
  lemma ByteShiftBound(low: nat, high: nat, n: nat)
    requires low < 256 && high < Power256(n)
    ensures low + 256 * high < Power256(n + 1)
  {
  }

  lemma ByteSplit(low: nat, high: nat)
    requires low < 256
    ensures (low + 256 * high) % 256 == low
    ensures (low + 256 * high) / 256 == high
  {
  }

  /** The value of bytes stored least significant first. */
  function LittleEndianValue(b: seq<byte>): (v: nat)
    ensures v < Power256(|b|)
  {
    if b == [] then 0
    else
      var high := LittleEndianValue(b[1..]);
      ByteShiftBound(b[0] as nat, high, |b| - 1);
      b[0] as nat + 256 * high
  }

  /** The value of bytes stored most significant first. */
  function BigEndianValue(b: seq<byte>): (v: nat)
    ensures v < Power256(|b|)
  {
    if b == [] then 0
    else
      var high := BigEndianValue(b[..|b| - 1]);
      ByteShiftBound(b[|b| - 1] as nat, high, |b| - 1);
      b[|b| - 1] as nat + 256 * high
  }

  function UnsignedValue(b: seq<byte>, order: ByteOrder): (v: nat)
    ensures v < Power256(|b|)
  {
    match order
    case LittleEndian => LittleEndianValue(b)
    case BigEndian => BigEndianValue(b)
  }

  /** The width bytes that store x least significant first. */
  function LittleEndianBytes(x: nat, width: nat): (b: seq<byte>)
    requires x < Power256(width)
    ensures |b| == width
  {
    if width == 0 then []
    else [(x % 256) as byte] + LittleEndianBytes(x / 256, width - 1)
  }

  /** The width bytes that store x most significant first. */
  function BigEndianBytes(x: nat, width: nat): (b: seq<byte>)
    requires x < Power256(width)
    ensures |b| == width
  {
    if width == 0 then []
    else BigEndianBytes(x / 256, width - 1) + [(x % 256) as byte]
  }

  function UnsignedBytes(x: nat, width: nat, order: ByteOrder): (b: seq<byte>)
    requires x < Power256(width)
    ensures |b| == width
  {
    match order
    case LittleEndian => LittleEndianBytes(x, width)
    case BigEndian => BigEndianBytes(x, width)
  }

  lemma {:induction false} LittleEndianRoundTrip(x: nat, width: nat)
    requires x < Power256(width)
    ensures LittleEndianValue(LittleEndianBytes(x, width)) == x
  {
    if width > 0 {
      var b := LittleEndianBytes(x, width);
      assert b[1..] == LittleEndianBytes(x / 256, width - 1);
      LittleEndianRoundTrip(x / 256, width - 1);
    }
  }

  lemma {:induction false} BigEndianRoundTrip(x: nat, width: nat)
    requires x < Power256(width)
    ensures BigEndianValue(BigEndianBytes(x, width)) == x
  {
    if width > 0 {
      var b := BigEndianBytes(x, width);
      assert b[..|b| - 1] == BigEndianBytes(x / 256, width - 1);
      BigEndianRoundTrip(x / 256, width - 1);
    }
  }

  /** Decoding the encoding of a value gives the value back. */
  lemma DecodeEncode(x: nat, width: nat, order: ByteOrder)
    requires x < Power256(width)
    ensures UnsignedValue(UnsignedBytes(x, width, order), order) == x
  {
    match order
    case LittleEndian => LittleEndianRoundTrip(x, width);
    case BigEndian => BigEndianRoundTrip(x, width);
  }

  lemma {:induction false} LittleEndianBytesOfValue(b: seq<byte>)
    ensures LittleEndianBytes(LittleEndianValue(b), |b|) == b
  {
    if b != [] {
      ByteSplit(b[0] as nat, LittleEndianValue(b[1..]));
      LittleEndianBytesOfValue(b[1..]);
    }
  }

  lemma {:induction false} BigEndianBytesOfValue(b: seq<byte>)
    ensures BigEndianBytes(BigEndianValue(b), |b|) == b
  {
    if b != [] {
      var init := b[..|b| - 1];
      ByteSplit(b[|b| - 1] as nat, BigEndianValue(init));
      BigEndianBytesOfValue(init);
      assert b == init + [b[|b| - 1]];
    }
  }

  /** Encoding the value of some bytes gives those bytes back: no two byte strings of
      one width decode to the same value. */
  lemma EncodeDecode(b: seq<byte>, order: ByteOrder)
    ensures UnsignedBytes(UnsignedValue(b, order), |b|, order) == b
  {
    match order
    case LittleEndian => LittleEndianBytesOfValue(b);
    case BigEndian => BigEndianBytesOfValue(b);
  }

  /** The unsigned 32-bit field that starts at offset: the one value whose four bytes,
      in the machine's order, are the bytes stored there. */
  function ReadUInt32(buffer: seq<byte>, offset: nat, order: ByteOrder): (v: uint32)
    requires offset + 4 <= |buffer|
    ensures UnsignedBytes(v as nat, 4, order) == buffer[offset..offset + 4]
  {
    Power256Widths();
    EncodeDecode(buffer[offset..offset + 4], order);
    UnsignedValue(buffer[offset..offset + 4], order) as uint32
  }

  /** buffer holds value, written in width bytes in the given order, at offset. */
  predicate StoredAt(buffer: seq<byte>, offset: nat, width: nat, value: nat, order: ByteOrder)
    requires offset + width <= |buffer|
  {
    value < Power256(width) && UnsignedBytes(value, width, order) == buffer[offset..offset + width]
  }

  /** The unsigned 64-bit field that starts at offset: the one value whose eight bytes,
      in the machine's order, are the bytes stored there. */
  function ReadUInt64(buffer: seq<byte>, offset: nat, order: ByteOrder): (v: uint64)
    requires offset + 8 <= |buffer|
    ensures UnsignedBytes(v as nat, 8, order) == buffer[offset..offset + 8]
  {
    Power256Widths();
    EncodeDecode(buffer[offset..offset + 8], order);
    UnsignedValue(buffer[offset..offset + 8], order) as uint64
  }

  /** C's conversion of an int to a 32-bit unsigned field (modulo 2^32). */
  function Int32ToUInt32(v: int32): (u: uint32)
    ensures u as int % 0x1_0000_0000 == v as int % 0x1_0000_0000
  {
    if v >= 0 then v as int as uint32 else (v as int + 0x1_0000_0000) as uint32
  }

  /** C's (int) cast of a 32-bit unsigned value: two's-complement reinterpretation. */
  function UInt32ToInt32(u: uint32): (v: int32)
    ensures v as int % 0x1_0000_0000 == u as int % 0x1_0000_0000
  {
    if u < 0x8000_0000 then u as int as int32 else (u as int - 0x1_0000_0000) as int32
  }

  lemma SignedRoundTrip(v: int32, u: uint32)
    ensures UInt32ToInt32(Int32ToUInt32(v)) == v
    ensures Int32ToUInt32(UInt32ToInt32(u)) == u
  {
  }

  /** buffer with the bytes starting at offset replaced by bytes. */
  function Splice(buffer: seq<byte>, offset: nat, bytes: seq<byte>): (r: seq<byte>)
    requires offset + |bytes| <= |buffer|
    ensures |r| == |buffer|
    ensures r[offset..offset + |bytes|] == bytes
  {
    buffer[..offset] + bytes + buffer[offset + |bytes|..]
  }

  /** A splice leaves every slice that lies wholly before or after it as it was. */
  lemma SpliceKeeps(buffer: seq<byte>, offset: nat, bytes: seq<byte>, lo: nat, width: nat)
    requires offset + |bytes| <= |buffer| && lo + width <= |buffer|
    requires lo + width <= offset || offset + |bytes| <= lo
    ensures Splice(buffer, offset, bytes)[lo..lo + width] == buffer[lo..lo + width]
  {
    var r := Splice(buffer, offset, bytes);
    forall i | lo <= i < lo + width
      ensures r[i] == buffer[i]
    {
      if i < offset {
        assert r[i] == buffer[..offset][i];
      } else {
        assert r[i] == buffer[offset + |bytes|..][i - offset - |bytes|];
      }
    }
    assert r[lo..lo + width] == buffer[lo..lo + width];
  }
}
