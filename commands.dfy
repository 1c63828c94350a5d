/** The six command frames of the gimbal controller: what each command
    method puts in `packetArray`, first as the frame itself and then as the
    sequence of appends that builds it. */
module Commands {
  import opened Wrappers
  import opened Bits
  import opened Lrc
  import opened Short
  import opened Framing

  const GetStatusJogCommand: Byte := 0x31
  const MoveToCoordinateCommand: Byte := 0x33
  const MoveToAbsoluteZeroCommand: Byte := 0x35
  const MoveToHomeCommand: Byte := 0x36
  const RetrievePresetCommand: Byte := 0x40
  const SavePresetCommand: Byte := 0x42

  /** Presets are numbered 0x00 to 0x1F. */
  predicate IsPreset(p: Byte)
  {
    p <= 0x1F
  }

  /** `packetArray[i:j]` on a list: both bounds are clipped to the length,
      and a start past the end gives the empty list. */
  function PySlice(s: seq<Byte>, i: nat, j: nat): (r: seq<Byte>)
    ensures j <= |s| && i <= j ==> r == s[i..j]
    ensures i <= |s| <= j ==> r == s[i..]
    ensures |s| <= i || j < i ==> r == []
  {
    var hi := if j <= |s| then j else |s|;
    var lo := if i <= hi then i else hi;
    s[lo..hi]
  }

  /** The flags byte of a status/jog command: one-shot lock, stop and reset
      or-ed together. */
  function JogFlags(osl: Byte, stop: Byte, reset: Byte): (f: Byte)
    ensures f == 0 <==> osl == 0 && stop == 0 && reset == 0
  {
    OrZero(osl, stop);
    OrZero(Or(osl, stop), reset);
    OrByte(OrByte(osl, stop), reset)
  }

  // ---------------------------------------------------------------------
  // The frames

  /** `getStatusJog`: two extra zero bytes when the speed is 0, none
      otherwise, then the two auxiliary zero bytes. Only zero bytes follow
      the flags, so the checksum is the command byte xor the flags. */
  function StatusJogFrame(speed: int, osl: Byte, stop: Byte, reset: Byte): seq<Byte>
  {
    var f := JogFlags(osl, stop, reset);
    var c := XorByte(GetStatusJogCommand, f);
    if speed == 0 then [STX, 0x00, GetStatusJogCommand, f, 0x00, 0x00, 0x00, 0x00, c, ETX]
    else [STX, 0x00, GetStatusJogCommand, f, 0x00, 0x00, c, ETX]
  }

  /** `moveToHome`. */
  function HomeFrame(): seq<Byte>
  {
    [STX, 0x00, MoveToHomeCommand, 0x36, ETX]
  }

  /** `moveToEnteredCoordinate`, with each coordinate's two bytes laid out
      in the frame; no frame when a coordinate is outside the 16-bit range.
      The checksum is the exclusive-or of the command byte and the four
      coordinate bytes. */
  function CoordinateFrame(pan: int, tilt: int): Option<seq<Byte>>
  {
    match (EncodeShort(pan), EncodeShort(tilt))
    case (Some(p), Some(t)) =>
      var c := XorByte(XorByte(XorByte(XorByte(MoveToCoordinateCommand, p[0]), p[1]), t[0]), t[1]);
      Some([STX, MoveToCoordinateCommand, p[0], p[1], t[0], t[1], c, ETX])
    case _ => None
  }

  /** `moveToAbsoluteZero`. */
  function AbsoluteZeroFrame(): seq<Byte>
  {
    [STX, MoveToAbsoluteZeroCommand, 0x35, ETX]
  }

  /** `retrievePresetTableEntry`. */
  function RetrievePresetFrame(preset: Byte): seq<Byte>
    requires IsPreset(preset)
  {
    [STX, 0x00, RetrievePresetCommand, preset, XorByte(RetrievePresetCommand, preset), ETX]
  }

  /** `saveCurrentPositionAsPreset`. */
  function SavePresetFrame(preset: Byte): seq<Byte>
    requires IsPreset(preset)
  {
    [STX, SavePresetCommand, preset, XorByte(SavePresetCommand, preset), ETX]
  }

  // ---------------------------------------------------------------------
  // Building the frames by appending, as the command methods do

  /** `getStatusJog`'s construction of `packetArray`. The checksum is taken
      over `packetArray[2:7]` when only seven or eight bytes are present:
      the slice is clipped to six bytes when the speed is not 0 and leaves
      out the second auxiliary byte when it is. */
  method BuildStatusJogFrame(speed: int, osl: Byte, stop: Byte, reset: Byte)
    returns (packet: seq<Byte>)
    ensures packet == StatusJogFrame(speed, osl, stop, reset)
  {
    packet := [];
    var command := GetStatusJogCommand;
    var bitsetCommand := JogFlags(osl, stop, reset);
    packet := packet + [STX];
    packet := packet + [0x00];
    packet := packet + [command];
    packet := packet + [bitsetCommand];
    if speed == 0 {
      packet := packet + [0x00];
      packet := packet + [0x00];
    }
    packet := packet + [0x00];
    packet := packet + [0x00];
    var span := PySlice(packet, 2, 7);
    assert span == [command, bitsetCommand] + Zeros(if speed == 0 then 3 else 2);
    XorFoldZeros([command, bitsetCommand], if speed == 0 then 3 else 2);
    XorFoldPair(command, bitsetCommand);
    var lrc := CalculateLRC(Some(span));
    packet := packet + [lrc.value];
    packet := packet + [ETX];
  }

  /** `moveToHome`'s construction: checksum over `packetArray[2:3]`. */
  method BuildHomeFrame() returns (packet: seq<Byte>)
    ensures packet == HomeFrame()
  {
    packet := [];
    var command := MoveToHomeCommand;
    packet := packet + [STX];
    packet := packet + [0x00];
    packet := packet + [command];
    XorFoldSingle(command);
    var lrc := CalculateLRC(Some(PySlice(packet, 2, 3)));
    packet := packet + [lrc.value];
    packet := packet + [ETX];
  }

  /** `moveToEnteredCoordinate`'s construction, with the encoded bytes of
      each coordinate appended one by one and the checksum taken over the
      command byte and those four bytes (`packetArray[1:6]`). An
      out-of-range coordinate leaves no checksum to compute, and no frame. */
  method BuildCoordinateFrame(panCoord: int, tiltCoord: int) returns (packet: Option<seq<Byte>>)
    ensures packet == CoordinateFrame(panCoord, tiltCoord)
  {
    var command := MoveToCoordinateCommand;
    var pan := EncodeShort(panCoord);
    var tilt := EncodeShort(tiltCoord);
    if pan.None? || tilt.None? {
      return None;
    }
    var p := [STX];
    p := p + [command];
    p := p + pan.value;
    p := p + tilt.value;
    var span := PySlice(p, 1, 6);
    assert span == [command, pan.value[0], pan.value[1], tilt.value[0], tilt.value[1]];
    XorFoldFive(command, pan.value[0], pan.value[1], tilt.value[0], tilt.value[1]);
    var lrc := CalculateLRC(Some(span));
    p := p + [lrc.value];
    p := p + [ETX];
    assert p == [STX, command, pan.value[0], pan.value[1], tilt.value[0], tilt.value[1], lrc.value, ETX];
    packet := Some(p);
  }

  /** `moveToAbsoluteZero`'s construction: checksum over `packetArray[1:2]`. */
  method BuildAbsoluteZeroFrame() returns (packet: seq<Byte>)
    ensures packet == AbsoluteZeroFrame()
  {
    packet := [];
    var command := MoveToAbsoluteZeroCommand;
    packet := packet + [STX];
    packet := packet + [command];
    XorFoldSingle(command);
    var lrc := CalculateLRC(Some(PySlice(packet, 1, 2)));
    packet := packet + [lrc.value];
    packet := packet + [ETX];
  }

  /** `retrievePresetTableEntry`'s construction: checksum over
      `packetArray[2:4]`. */
  method BuildRetrievePresetFrame(preset: Byte) returns (packet: seq<Byte>)
    requires IsPreset(preset)
    ensures packet == RetrievePresetFrame(preset)
  {
    packet := [];
    var command := RetrievePresetCommand;
    packet := packet + [STX];
    packet := packet + [0x00];
    packet := packet + [command];
    packet := packet + [preset];
    assert PySlice(packet, 2, 4) == [command, preset];
    XorFoldPair(command, preset);
    var lrc := CalculateLRC(Some(PySlice(packet, 2, 4)));
    packet := packet + [lrc.value];
    packet := packet + [ETX];
  }

  /** `saveCurrentPositionAsPreset`'s construction: checksum over
      `packetArray[1:3]`. */
  method BuildSavePresetFrame(preset: Byte) returns (packet: seq<Byte>)
    requires IsPreset(preset)
    ensures packet == SavePresetFrame(preset)
  {
    packet := [];
    var command := SavePresetCommand;
    packet := packet + [STX];
    packet := packet + [command];
    packet := packet + [preset];
    XorFoldPair(command, preset);
    var lrc := CalculateLRC(Some(PySlice(packet, 1, 3)));
    packet := packet + [lrc.value];
    packet := packet + [ETX];
  }

  // ---------------------------------------------------------------------
  // Checksums of short spans

  lemma XorFoldPair(a: Byte, b: Byte)
    ensures XorFold([a, b]) == XorByte(a, b)
  {
    assert [a, b][..1] == [a];
    XorFoldSingle(a);
  }

  lemma XorFoldFive(a: Byte, b: Byte, c: Byte, d: Byte, e: Byte)
    ensures XorFold([a, b, c, d, e]) == XorByte(XorByte(XorByte(XorByte(a, b), c), d), e)
  {
    assert [a, b, c][..2] == [a, b];
    XorFoldPair(a, b);
    assert XorFold([a, b, c]) == XorByte(XorByte(a, b), c);
    assert [a, b, c, d][..3] == [a, b, c];
    assert XorFold([a, b, c, d]) == XorByte(XorFold([a, b, c]), d);
    assert [a, b, c, d, e][..4] == [a, b, c, d];
  }

  // ---------------------------------------------------------------------
  // Each frame is the common framing of its command and payload

  /** The status/jog frame is padded, carries the flags and four or two
      zero bytes, and its checksum covers the whole span even though the
      source's slice stops short of it. */
  lemma StatusJogFramePacket(speed: int, osl: Byte, stop: Byte, reset: Byte)
    ensures StatusJogFrame(speed, osl, stop, reset) ==
      Assemble(Packet(true, GetStatusJogCommand,
        [JogFlags(osl, stop, reset)] + Zeros(if speed == 0 then 4 else 2)))
  {
    var f := JogFlags(osl, stop, reset);
    var n := if speed == 0 then 4 else 2;
    var p := Packet(true, GetStatusJogCommand, [f] + Zeros(n));
    assert Span(p) == [GetStatusJogCommand, f] + Zeros(n);
    XorFoldZeros([GetStatusJogCommand, f], n);
    XorFoldPair(GetStatusJogCommand, f);
  }

  lemma HomeFramePacket()
    ensures HomeFrame() == Assemble(Packet(true, MoveToHomeCommand, []))
  {
  }

  /** The coordinate frame exists exactly when both coordinates are in the
      16-bit range, and is then the unpadded framing of the command byte and
      the two encodings, low byte first. */
  lemma CoordinateFramePacket(pan: int, tilt: int)
    ensures CoordinateFrame(pan, tilt).Some? <==> InShortRange(pan) && InShortRange(tilt)
    ensures CoordinateFrame(pan, tilt).Some? ==>
      CoordinateFrame(pan, tilt).value ==
        Assemble(Packet(false, MoveToCoordinateCommand, EncodeShort(pan).value + EncodeShort(tilt).value))
  {
    if InShortRange(pan) && InShortRange(tilt) {
      var p, t := EncodeShort(pan).value, EncodeShort(tilt).value;
      var pk := Packet(false, MoveToCoordinateCommand, p + t);
      assert Span(pk) == [MoveToCoordinateCommand, p[0], p[1], t[0], t[1]];
      XorFoldFive(MoveToCoordinateCommand, p[0], p[1], t[0], t[1]);
    }
  }

  lemma AbsoluteZeroFramePacket()
    ensures AbsoluteZeroFrame() == Assemble(Packet(false, MoveToAbsoluteZeroCommand, []))
  {
  }

  lemma RetrievePresetFramePacket(preset: Byte)
    requires IsPreset(preset)
    ensures RetrievePresetFrame(preset) == Assemble(Packet(true, RetrievePresetCommand, [preset]))
  {
    assert Span(Packet(true, RetrievePresetCommand, [preset])) == [RetrievePresetCommand, preset];
    XorFoldPair(RetrievePresetCommand, preset);
  }

  lemma SavePresetFramePacket(preset: Byte)
    requires IsPreset(preset)
    ensures SavePresetFrame(preset) == Assemble(Packet(false, SavePresetCommand, [preset]))
  {
    assert Span(Packet(false, SavePresetCommand, [preset])) == [SavePresetCommand, preset];
    XorFoldPair(SavePresetCommand, preset);
  }
}

/** The command surface as one tagged value, so that properties shared by
    every frame can be stated once. */
module CommandSet {
  import opened Wrappers
  import opened Bits
  import opened Short
  import opened Framing
  import opened Commands

  /** One value per command method, with that method's arguments. The pan
      and tilt arguments of `getStatusJog` are accepted and never used. */
  datatype Command =
    | GetStatusJog(pan: int, tilt: int, speed: int, osl: Byte, stop: Byte, reset: Byte)
    | MoveToHome
    | MoveToEnteredCoordinate(panCoord: int, tiltCoord: int)
    | MoveToAbsoluteZero
    | RetrievePresetTableEntry(preset: Byte)
    | SaveCurrentPositionAsPreset(preset: Byte)

  /** The arguments the command methods are documented to accept. */
  predicate ValidArguments(c: Command)
  {
    match c
    case RetrievePresetTableEntry(p) => IsPreset(p)
    case SaveCurrentPositionAsPreset(p) => IsPreset(p)
    case _ => true
  }

  /** The command byte of each command. */
  function Opcode(c: Command): Byte
  {
    match c
    case GetStatusJog(_, _, _, _, _, _) => GetStatusJogCommand
    case MoveToHome => MoveToHomeCommand
    case MoveToEnteredCoordinate(_, _) => MoveToCoordinateCommand
    case MoveToAbsoluteZero => MoveToAbsoluteZeroCommand
    case RetrievePresetTableEntry(_) => RetrievePresetCommand
    case SaveCurrentPositionAsPreset(_) => SavePresetCommand
  }

  /** Whether a 0x00 pad byte follows STX in the command's frame. */
  function Padded(c: Command): bool
  {
    c.GetStatusJog? || c.MoveToHome? || c.RetrievePresetTableEntry?
  }

  /** The frame a command method sends, if it gets as far as sending. */
  function FrameOf(c: Command): Option<seq<Byte>>
    requires ValidArguments(c)
  {
    match c
    case GetStatusJog(_, _, speed, osl, stop, reset) => Some(StatusJogFrame(speed, osl, stop, reset))
    case MoveToHome => Some(HomeFrame())
    case MoveToEnteredCoordinate(pan, tilt) => CoordinateFrame(pan, tilt)
    case MoveToAbsoluteZero => Some(AbsoluteZeroFrame())
    case RetrievePresetTableEntry(p) => Some(RetrievePresetFrame(p))
    case SaveCurrentPositionAsPreset(p) => Some(SavePresetFrame(p))
  }

  /** The payload carried between the command byte and the checksum. */
  function Payload(c: Command): seq<Byte>
    requires ValidArguments(c)
    requires c.MoveToEnteredCoordinate? ==> InShortRange(c.panCoord) && InShortRange(c.tiltCoord)
  {
    match c
    case GetStatusJog(_, _, speed, osl, stop, reset) =>
      [JogFlags(osl, stop, reset)] + Lrc.Zeros(if speed == 0 then 4 else 2)
    case MoveToHome => []
    case MoveToEnteredCoordinate(pan, tilt) => EncodeShort(pan).value + EncodeShort(tilt).value
    case MoveToAbsoluteZero => []
    case RetrievePresetTableEntry(p) => [p]
    case SaveCurrentPositionAsPreset(p) => [p]
  }

  /** Every command either has no frame, which happens only for a coordinate
      outside the 16-bit range, or has a well-formed frame: STX first, ETX
      last, the pad where the command has one, its own command byte, and
      just before ETX the checksum of the span from the command byte to the
      end of the payload. A receiver recovers exactly the command byte and
      payload from it. */
  lemma EveryFrameIsFramed(c: Command)
    requires ValidArguments(c)
    ensures FrameOf(c).None? <==>
      c.MoveToEnteredCoordinate? && !(InShortRange(c.panCoord) && InShortRange(c.tiltCoord))
    ensures FrameOf(c).Some? ==>
      var f := FrameOf(c).value;
      Framed(f, Padded(c)) && f[0] == STX && f[|f| - 1] == ETX &&
      f[SpanStart(Padded(c))] == Opcode(c) &&
      Disassemble(f, Padded(c)) == Some(Packet(Padded(c), Opcode(c), Payload(c)))
  {
    match c
    case GetStatusJog(_, _, speed, osl, stop, reset) =>
      StatusJogFramePacket(speed, osl, stop, reset);
      Framing.DisassembleAssemble(Packet(true, Opcode(c), Payload(c)));
    case MoveToHome =>
      HomeFramePacket();
      Framing.DisassembleAssemble(Packet(true, Opcode(c), Payload(c)));
    case MoveToEnteredCoordinate(pan, tilt) =>
      CoordinateFramePacket(pan, tilt);
      if FrameOf(c).Some? {
        Framing.DisassembleAssemble(Packet(false, Opcode(c), Payload(c)));
      }
    case MoveToAbsoluteZero =>
      AbsoluteZeroFramePacket();
      Framing.DisassembleAssemble(Packet(false, Opcode(c), Payload(c)));
    case RetrievePresetTableEntry(p) =>
      RetrievePresetFramePacket(p);
      Framing.DisassembleAssemble(Packet(true, Opcode(c), Payload(c)));
    case SaveCurrentPositionAsPreset(p) =>
      SavePresetFramePacket(p);
      Framing.DisassembleAssemble(Packet(false, Opcode(c), Payload(c)));
  }
}
