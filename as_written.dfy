/** `moveToEnteredCoordinate` as its code stands: each encoded coordinate is
    appended to `packetArray` as one element holding two bytes, so
    `calculateLRC` reads those elements as signed 16-bit integers and the
    list is not a list of bytes. */
module AsWritten {
  import opened Wrappers
  import opened Bits
  import opened Short
  import Commands

  /** An element of a list in the source: an integer, a bytes object, or
      the `None` that `convertIntegerToShort` returns out of range. */
  datatype Element = Int(i: int) | Bytes(b: seq<Byte>) | Nothing

  /** Exclusive-or of two arbitrary integers, negative ones written in
      two's complement with unboundedly many leading ones (`~x` is
      `-x - 1`). */
  function IntXor(a: int, b: int): int
  {
    if a >= 0 && b >= 0 then Xor(a, b)
    else if a < 0 && b < 0 then Xor(-a - 1, -b - 1)
    else if a < 0 then -(Xor(-a - 1, b) as int) - 1
    else -(Xor(a, -b - 1) as int) - 1
  }

  /** Little-endian unsigned value of a byte string. */
  function LittleEndian(b: seq<Byte>): nat
  {
    if b == [] then 0 else b[0] + 256 * LittleEndian(b[1..])
  }

  /** `int.from_bytes(b, byteorder='little', signed=True)`. */
  function FromBytesSigned(b: seq<Byte>): int
  {
    if b != [] && b[|b| - 1] >= 0x80 then LittleEndian(b) - Power256(|b|) else LittleEndian(b)
  }

  function Power256(n: nat): nat
  {
    if n == 0 then 1 else 256 * Power256(n - 1)
  }

  /** On two bytes, `from_bytes` is the signed 16-bit decoding. */
  lemma FromBytesSignedShort(b: seq<Byte>)
    requires |b| == 2
    ensures FromBytesSigned(b) == DecodeShort(b)
  {
    assert b[1..][1..] == [];
    assert LittleEndian(b[1..]) == b[1];
    assert Power256(2) == 65536;
  }

  /** `calculateLRC` as written on a list of elements: integers are xor-ed
      in, bytes objects are read as signed little-endian integers and xor-ed
      in, and `None` makes `from_bytes` raise, so there is no checksum. */
  function AsWrittenLRC(items: seq<Element>): Option<int>
  {
    if items == [] then Some(0)
    else
      match (AsWrittenLRC(items[..|items| - 1]), items[|items| - 1])
      case (None, _) => None
      case (_, Nothing) => None
      case (Some(acc), Int(i)) => Some(IntXor(acc, i))
      case (Some(acc), Bytes(b)) => Some(IntXor(acc, FromBytesSigned(b)))
  }

  /** One more element folded into the as-written checksum. */
  lemma AsWrittenLRCSnoc(items: seq<Element>, e: Element)
    ensures AsWrittenLRC(items + [e]) ==
      match (AsWrittenLRC(items), e)
      case (None, _) => None
      case (_, Nothing) => None
      case (Some(acc), Int(i)) => Some(IntXor(acc, i))
      case (Some(acc), Bytes(b)) => Some(IntXor(acc, FromBytesSigned(b)))
  {
  }

  /** The as-written checksum of the coordinate span. */
  lemma AsWrittenCoordinateLRC(x: Element, y: Element)
    ensures AsWrittenLRC([Int(0x33), x, y]).None? <==> x.Nothing? || y.Nothing?
    ensures !x.Nothing? && !y.Nothing? ==>
      AsWrittenLRC([Int(0x33), x, y]) == Some(IntXor(IntXor(IntXor(0, 0x33), Value(x)), Value(y)))
  {
    AsWrittenLRCSnoc([], Int(0x33));
    assert [] + [Int(0x33)] == [Int(0x33)];
    AsWrittenLRCSnoc([Int(0x33)], x);
    assert [Int(0x33)] + [x] == [Int(0x33), x];
    AsWrittenLRCSnoc([Int(0x33), x], y);
    assert [Int(0x33), x] + [y] == [Int(0x33), x, y];
  }

  /** The integer an element contributes to the as-written checksum. */
  function Value(e: Element): int
    requires !e.Nothing?
  {
    match e
    case Int(i) => i
    case Bytes(b) => FromBytesSigned(b)
  }

  /** The encoded coordinate as the source appends it: one element. */
  function ShortElement(v: int): Element
  {
    match EncodeShort(v)
    case Some(b) => Bytes(b)
    case None => Nothing
  }

  /** `packetArray` of `moveToEnteredCoordinate` as written, up to the
      checksum over `packetArray[1:4]`; no list when that checksum raises. */
  function AsWrittenCoordinateList(pan: int, tilt: int): Option<seq<Element>>
  {
    var head := [Int(0x02), Int(0x33), ShortElement(pan), ShortElement(tilt)];
    match AsWrittenLRC(head[1..4])
    case Some(lrc) => Some(head + [Int(lrc), Int(0x03)])
    case None => None
  }

  /** What `bytearray(packetArray)` accepts: every element an integer in
      [0, 255]. */
  predicate ByteArrayAccepts(items: seq<Element>)
  {
    forall k :: 0 <= k < |items| ==> items[k].Int? && 0 <= items[k].i < 256
  }

  /** As written, `moveToEnteredCoordinate` never sends anything: with a
      coordinate out of range the checksum raises, and otherwise the list
      holds bytes objects, which `bytearray` refuses. */
  lemma AsWrittenCoordinateNeverSent(pan: int, tilt: int)
    ensures AsWrittenCoordinateList(pan, tilt).None? <==> !(InShortRange(pan) && InShortRange(tilt))
    ensures AsWrittenCoordinateList(pan, tilt).Some? ==>
      !ByteArrayAccepts(AsWrittenCoordinateList(pan, tilt).value)
  {
    var head := [Int(0x02), Int(0x33), ShortElement(pan), ShortElement(tilt)];
    assert head[1..4] == [Int(0x33), ShortElement(pan), ShortElement(tilt)];
    AsWrittenCoordinateLRC(ShortElement(pan), ShortElement(tilt));
    if AsWrittenCoordinateList(pan, tilt).Some? {
      assert AsWrittenCoordinateList(pan, tilt).value[2] == ShortElement(pan);
    }
  }

  /** For the coordinates (-1, 0) the source's checksum is the integer -52,
      which is not a byte, while the exclusive-or of the frame's bytes,
      which the corrected frame carries, is 0x33. */
  lemma AsWrittenChecksumExample(pan: int, tilt: int)
    requires pan == -1 && tilt == 0
    ensures AsWrittenLRC([Int(0x33), ShortElement(pan), ShortElement(tilt)]) == Some(-52)
    ensures Commands.CoordinateFrame(pan, tilt).Some?
    ensures Commands.CoordinateFrame(pan, tilt).value[6] == 0x33
  {
    AsWrittenCoordinateLRC(ShortElement(pan), ShortElement(tilt));
    var c: nat := 0x33;
    var ff: nat := 0xFF;
    XorZero(c);
    assert FromBytesSigned([0xFF, 0xFF]) == -1;
    assert FromBytesSigned([0x00, 0x00]) == 0;
    XorSelf(ff);
    XorAssociates(c, ff, ff);
  }
}
