/** Raw bytes of the recording and the two little-endian integer readings
    the format uses: signed 16-bit samples and unsigned 32-bit sample indices. */
module Bytes {

  /** One unsigned 8-bit unit of the file. */
  type byte = x: int | 0 <= x < 256

  const Int16Min: int := -32768
  const Int16Max: int := 32767
  const U32Bound: int := 0x1_0000_0000

  /** A value that may be absent: a failed read, no qualifying window. */
  datatype Option<T> = None | Some(value: T)

  /** Little-endian two's-complement reading of two bytes (numpy int16 on a
      little-endian host). */
  function Int16LE(lo: byte, hi: byte): (v: int)
    ensures Int16Min <= v <= Int16Max
    ensures v >= 0 <==> hi < 128
    ensures (v + 65536) % 65536 == lo + 256 * hi
  {
    var u := lo + 256 * hi;
    if u >= 32768 then u - 65536 else u
  }

  /** The two bytes that store an int16 value, low byte first. */
  function EncodeInt16LE(v: int): (bs: (byte, byte))
    requires Int16Min <= v <= Int16Max
  {
    var u := if v < 0 then v + 65536 else v;
    (u % 256, u / 256)
  }

  lemma Int16DecodeEncode(v: int)
    requires Int16Min <= v <= Int16Max
    ensures Int16LE(EncodeInt16LE(v).0, EncodeInt16LE(v).1) == v
  {
    var u := if v < 0 then v + 65536 else v;
    assert u % 256 + 256 * (u / 256) == u;
  }

  lemma Int16EncodeDecode(lo: byte, hi: byte)
    ensures EncodeInt16LE(Int16LE(lo, hi)) == (lo, hi)
  {
    var u := lo + 256 * hi;
    assert u % 256 == lo && u / 256 == hi;
  }

  /** Little-endian unsigned 32-bit reading of four bytes (struct format "<I"). */
  function U32LE(b0: byte, b1: byte, b2: byte, b3: byte): (v: nat)
    ensures v < U32Bound
    ensures v % 256 == b0 && v / 16777216 == b3
  {
    b0 + 256 * b1 + 65536 * b2 + 16777216 * b3
  }

  /** The four bytes that store an unsigned 32-bit value, low byte first. */
  function EncodeU32LE(v: nat): (bs: seq<byte>)
    requires v < U32Bound
    ensures |bs| == 4
  {
    [v % 256, (v / 256) % 256, (v / 65536) % 256, v / 16777216]
  }

  lemma U32DecodeEncode(v: nat)
    requires v < U32Bound
    ensures var bs := EncodeU32LE(v); U32LE(bs[0], bs[1], bs[2], bs[3]) == v
  {
    var q1 := v / 256;
    var q2 := q1 / 256;
    var q3 := q2 / 256;
    assert v == v % 256 + 256 * q1;
    assert q1 == q1 % 256 + 256 * q2;
    assert q2 == q2 % 256 + 256 * q3;
    assert q2 == v / 65536;
    assert q3 == v / 16777216;
  }

  lemma U32EncodeDecode(b0: byte, b1: byte, b2: byte, b3: byte)
    ensures EncodeU32LE(U32LE(b0, b1, b2, b3)) == [b0, b1, b2, b3]
  {
    var v := U32LE(b0, b1, b2, b3);
    var w1 := b1 + 256 * b2 + 65536 * b3;
    var w2 := b2 + 256 * b3;
    assert v == b0 + 256 * w1;
    assert w1 == b1 + 256 * w2;
    DivMod256(v, w1, b0);
    DivMod256(w1, w2, b1);
    DivMod256(w2, b3, b2);
    assert v / 65536 == w2;
    assert v / 16777216 == b3;
  }

  lemma DivMod256(x: int, q: int, r: int)
    requires 0 <= r < 256 && x == 256 * q + r
    ensures x / 256 == q && x % 256 == r
  {
  }

  /** Latin-1 decoding of a byte string: one character per byte. */
  function Latin1(bs: seq<byte>): (s: string)
    ensures |s| == |bs|
    ensures forall k :: 0 <= k < |bs| ==> s[k] as int == bs[k]
  {
    if bs == [] then [] else Latin1(bs[..|bs| - 1]) + [bs[|bs| - 1] as char]
  }
}
