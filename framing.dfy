/** The frame every command shares: STX, an optional 0x00 pad, the command
    byte, the payload, the checksum of command byte and payload, ETX. */
module Framing {
  import opened Wrappers
  import opened Bits
  import opened Lrc

  const STX: Byte := 0x02  // start of text, sent by the remote
  const ETX: Byte := 0x03  // end of text, sent by remote and gimbal
  const ACK: Byte := 0x06  // acknowledge, sent by the gimbal
  const NAK: Byte := 0x15  // not acknowledge, sent by the gimbal
  const ESC: Byte := 0x1B  // escape character, unused by every command here

  /** The content of one frame: whether the pad byte follows STX, the
      command byte, and the payload. */
  datatype Packet = Packet(padded: bool, command: Byte, payload: seq<Byte>)

  /** Index of the command byte, where the checksummed span starts. */
  function SpanStart(padded: bool): nat
  {
    if padded then 2 else 1
  }

  /** The span the checksum covers: the command byte and the payload. */
  function Span(p: Packet): seq<Byte>
  {
    [p.command] + p.payload
  }

  /** The bytes put on the wire for a packet. */
  function Assemble(p: Packet): seq<Byte>
  {
    [STX] + (if p.padded then [0x00] else []) + Span(p) + [XorFold(Span(p)), ETX]
  }

  /** A well-formed frame: STX first, the pad where expected, at least a
      command byte, the checksum of the span from the command byte up to it
      just before the final ETX. */
  predicate Framed(f: seq<Byte>, padded: bool)
  {
    var k := SpanStart(padded);
    |f| >= k + 3 &&
    f[0] == STX && (padded ==> f[1] == 0x00) &&
    f[|f| - 1] == ETX &&
    f[|f| - 2] == XorFold(f[k..|f| - 2])
  }

  /** What a receiver recovers from a frame: `None` for anything that is not
      well formed. */
  function Disassemble(f: seq<Byte>, padded: bool): (r: Option<Packet>)
  {
    if Framed(f, padded) then
      var k := SpanStart(padded);
      Some(Packet(padded, f[k], f[k + 1..|f| - 2]))
    else None
  }

  /** Every assembled packet is a well-formed frame whose span is the
      packet's command byte and payload. */
  lemma AssembleIsFramed(p: Packet)
    ensures var f := Assemble(p);
      Framed(f, p.padded) &&
      |f| == SpanStart(p.padded) + |p.payload| + 3 &&
      f[SpanStart(p.padded)..|f| - 2] == Span(p)
  {
  }

  /** A receiver recovers exactly the packet that was assembled. */
  lemma DisassembleAssemble(p: Packet)
    ensures Disassemble(Assemble(p), p.padded) == Some(p)
  {
    AssembleIsFramed(p);
    var f := Assemble(p);
    var k := SpanStart(p.padded);
    assert f[k + 1..|f| - 2] == p.payload;
  }

  /** Whatever a receiver accepts is exactly the assembly of what it
      recovered: no well-formed frame is lost or altered by the round trip. */
  lemma AssembleDisassemble(f: seq<Byte>, padded: bool)
    requires Disassemble(f, padded).Some?
    ensures Assemble(Disassemble(f, padded).value) == f
  {
    var p := Disassemble(f, padded).value;
    var k := SpanStart(padded);
    assert Span(p) == f[k..|f| - 2];
    if padded {
      assert f == [f[0], f[1]] + f[k..|f| - 2] + [f[|f| - 2], f[|f| - 1]];
    } else {
      assert f == [f[0]] + f[k..|f| - 2] + [f[|f| - 2], f[|f| - 1]];
    }
  }

  /** A well-formed frame's span together with its checksum xors to 0, the
      test a receiver applies. */
  lemma FramedChecksumCancels(f: seq<Byte>, padded: bool)
    requires Framed(f, padded)
    ensures XorFold(f[SpanStart(padded)..|f| - 1]) == 0
  {
    var k := SpanStart(padded);
    assert f[k..|f| - 1] == f[k..|f| - 2] + [XorFold(f[k..|f| - 2])];
    ChecksumCancels(f[k..|f| - 2]);
  }
}
