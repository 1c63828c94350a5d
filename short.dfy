/** `convertIntegerToShort`: a signed integer as a 16-bit two's-complement
    little-endian pair of bytes, and the decoding the device applies. */
module Short {
  import opened Wrappers
  import opened Bits

  const MinShort := -32768
  const MaxShort := 32767

  predicate InShortRange(v: int)
  {
    MinShort <= v <= MaxShort
  }

  /** `convertIntegerToShort`: `None` outside the 16-bit signed range,
      otherwise the two bytes that `struct.pack("<h", v)` produces: the low
      byte of the two's complement first, then the high byte. */
  function EncodeShort(v: int): (r: Option<seq<Byte>>)
    ensures r.None? <==> (v > MaxShort || v < MinShort)
    ensures r.Some? ==> |r.value| == 2
    ensures r.Some? ==> r.value[0] == v % 256 && r.value[1] == (v / 256) % 256
  {
    if v > MaxShort || v < MinShort then None
    else
      var u := if v < 0 then v + 65536 else v;
      Some([u % 256, u / 256])
  }

  /** Reading two bytes back as a signed little-endian 16-bit integer: the
      low byte plus 256 times the high byte, less 65536 when the high byte
      has its sign bit set. */
  function DecodeShort(b: seq<Byte>): int
    requires |b| == 2
  {
    b[0] as int + 256 * (b[1] as int) - (if b[1] >= 0x80 then 65536 else 0)
  }

  /** Decoding an encoding gives back the integer. */
  lemma DecodeEncode(v: int)
    requires InShortRange(v)
    ensures EncodeShort(v).Some? && DecodeShort(EncodeShort(v).value) == v
  {
  }

  /** Every pair of bytes is the encoding of exactly the integer it decodes
      to, so the encoding is a bijection between the range and byte pairs. */
  lemma EncodeDecode(b: seq<Byte>)
    requires |b| == 2
    ensures InShortRange(DecodeShort(b)) && EncodeShort(DecodeShort(b)) == Some(b)
  {
    var v := DecodeShort(b);
    var u := if v < 0 then v + 65536 else v;
    assert u == b[0] as int + 256 * (b[1] as int);
    DigitsOfPair(b[0], b[1]);
    assert [u % 256, u / 256] == b;
  }

  lemma DigitsOfPair(lo: int, hi: int)
    requires 0 <= lo < 256 && 0 <= hi < 256
    ensures (lo + 256 * hi) % 256 == lo && (lo + 256 * hi) / 256 == hi
  {
  }

  /** The boundary cases and worked values of the encoding: -2 and 32767
      (which the source's own comment wrongly attributes to 32768), the
      out-of-range neighbours 32768 and -32769, and the two coordinates of
      the worked coordinate frame, 900 and 9999. */
  lemma EncodeShortExamples()
    ensures EncodeShort(-2) == Some([0xFE, 0xFF])
    ensures EncodeShort(32767) == Some([0xFF, 0x7F])
    ensures EncodeShort(-32768) == Some([0x00, 0x80])
    ensures EncodeShort(32768) == None && EncodeShort(-32769) == None
    ensures EncodeShort(900) == Some([0x84, 0x03])
    ensures EncodeShort(9999) == Some([0x0F, 0x27])
  {
  }
}
