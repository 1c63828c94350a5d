# Gimbal controller protocol codec, in Dafny

This project models the command codec of `GimbalController`, a small Python
client for a pan-tilt gimbal (the "PTR") that a remote drives over TCP. Every
command is a frame: STX (0x02), for some commands a 0x00 pad, the command
byte, the payload, a longitudinal redundancy check (LRC, the exclusive-or of
the command byte and payload), and ETX (0x03). Coordinates travel as 16-bit
signed two's-complement little-endian integers.

Modules, leaves first:

- `Bits` (bits.dfy): bytes as integers in [0, 255], with exclusive-or and
  inclusive-or defined digit by digit, and their algebra.
- `Lrc` (lrc.dfy): `calculateLRC` as a loop, proved equal to a left fold
  `XorFold`, plus the facts about checksums the frames rely on.
- `Short` (short.dfy): `convertIntegerToShort` and its inverse.
- `Framing` (framing.dfy): the frame shared by every command (`Packet`,
  `Assemble`, `Disassemble`, `Framed`), with round trips in both directions.
- `Commands` and `CommandSet` (commands.dfy): the six frames; six methods
  that build them by appending, as the command methods do; one lemma per
  frame tying it to the common framing; one lemma over all commands.
- `AsWritten` (as_written.dfy): `moveToEnteredCoordinate` as its code stands
  (see Findings).
- `Controller` (controller.dfy): the `GimbalController` class. The socket is
  replaced by a trace of events (`Connected`, `Sent`, `Received`, `Closed`)
  and a stream of bytes the gimbal has sent.

Four facts about the code shape the model. Preset indices are not checked at
run time; the model states the documented range 0x00–0x1F as a precondition.
The command methods return nothing and do not interpret the reply. Only three
of the six commands connect before sending. There is no receive timeout.

## Model

| member | source | states |
|---|---|---|
| `Bits.XorZero` | gimbalController.py:68-72 | 0 is neutral for `^` on both sides, so the accumulator's initial 0 and zero padding bytes leave a checksum unchanged |
| `Bits.XorCommutes` | gimbalController.py:72 | `^` does not depend on operand order |
| `Bits.XorAssociates` | gimbalController.py:72 | `^` does not depend on grouping, so the fold can be split anywhere |
| `Bits.XorSelf` | gimbalController.py:72 | a value xor-ed with itself is 0 |
| `Bits.OrZero` | gimbalController.py:106 | `a \| b` is 0 exactly when both are 0 |
| `Lrc.CalculateLRC` | gimbalController.py:63-77 | returns `None` exactly when the input is absent; otherwise the xor of all bytes in order (0 for an empty list), proved through loop invariants |
| `Lrc.XorFoldAppend` | gimbalController.py:68-75 | the checksum of a concatenation is the xor of the parts' checksums |
| `Lrc.XorFoldZeros` | gimbalController.py:125-129 | trailing zero bytes (the auxiliary bytes) do not change a checksum; e.g. `[0x31, 0x00]` checks to 0x31 |
| `Lrc.ChecksumCancels` | gimbalController.py:63-77 | a checksum xor-ed with itself is 0, and a span followed by its checksum xors to 0 |
| `Lrc.XorFoldSwap` | gimbalController.py:68-75 | the checksum does not depend on the order of the parts |
| `Short.EncodeShort` | gimbalController.py:97-101 | `None` exactly when v > 32767 or v < -32768; otherwise two bytes, `v mod 256` first, then `(v div 256) mod 256` |
| `Short.DecodeEncode` | gimbalController.py:89-101 | decoding `lo + 256*hi`, minus 65536 when `hi >= 0x80`, gives back every in-range integer |
| `Short.EncodeDecode` | gimbalController.py:89-101 | every byte pair decodes into the range and encodes back to itself, so the encoding is a bijection |
| `Short.EncodeShortExamples` | gimbalController.py:85-101 | -2 gives FE FF, 32767 gives FF 7F, -32768 gives 00 80, 32768 and -32769 give `None`, 900 gives 84 03, 9999 gives 0F 27 |
| `Framing.AssembleIsFramed` | gimbalController.py:107-130 | an assembled packet starts with STX, has the pad when padded, ends with ETX, and has just before ETX the checksum of the command byte and payload |
| `Framing.DisassembleAssemble` | gimbalController.py:107-130 | a receiver recovers exactly the packet that was assembled |
| `Framing.AssembleDisassemble` | gimbalController.py:107-130 | every frame a receiver accepts is exactly the assembly of what it recovers |
| `Framing.FramedChecksumCancels` | gimbalController.py:129-130 | in a well-formed frame, command byte through checksum xor to 0 |
| `Commands.PySlice` | gimbalController.py:129 | a list slice equals the Dafny slice when in bounds, runs to the end when only the upper bound is past the end (the speed != 0 case), and is empty when the start is past the end or after the stop |
| `Commands.JogFlags` | gimbalController.py:106 | the flags byte is 0x00 exactly when none of one-shot lock, stop and reset is set |
| `Commands.BuildStatusJogFrame` | gimbalController.py:103-130 | the appends give `[02,00,31,f,00,00,00,00,c,03]` at speed 0 and `[02,00,31,f,00,00,c,03]` otherwise, `f = osl\|stop\|reset`, `c = 0x31^f`, although `[2:7]` is clipped to six bytes or leaves out the last auxiliary byte |
| `Commands.BuildHomeFrame` | gimbalController.py:142-156 | the appends give exactly `[02,00,36,36,03]` |
| `Commands.BuildCoordinateFrame` | gimbalController.py:169-185 | no frame when a coordinate is out of range; otherwise `[02,33,p0,p1,t0,t1,c,03]` with the encoded bytes laid out and `c` the xor of command and coordinate bytes |
| `Commands.BuildAbsoluteZeroFrame` | gimbalController.py:193-202 | the appends give exactly `[02,35,35,03]` |
| `Commands.BuildRetrievePresetFrame` | gimbalController.py:210-221 | for a preset p in 0x00–0x1F the appends give `[02,00,40,p,40^p,03]` |
| `Commands.BuildSavePresetFrame` | gimbalController.py:234-244 | for a preset p in 0x00–0x1F the appends give `[02,42,p,42^p,03]` |
| `Commands.StatusJogFramePacket` | gimbalController.py:107-130 | the status/jog frame is the padded framing of 0x31 and the flags plus four or two zero bytes: its checksum covers the full span |
| `Commands.HomeFramePacket` | gimbalController.py:146-156 | the home frame is the padded framing of 0x36 with no payload |
| `Commands.CoordinateFramePacket` | gimbalController.py:178-185 | the coordinate frame exists exactly when both coordinates are in range, and is the unpadded framing of 0x33 and both encodings |
| `Commands.AbsoluteZeroFramePacket` | gimbalController.py:197-202 | the absolute-zero frame is the unpadded framing of 0x35 with no payload |
| `Commands.RetrievePresetFramePacket` | gimbalController.py:214-221 | the retrieve frame is the padded framing of 0x40 and the preset |
| `Commands.SavePresetFramePacket` | gimbalController.py:238-244 | the save frame is the unpadded framing of 0x42 and the preset |
| `CommandSet.EveryFrameIsFramed` | gimbalController.py:103-244 | every command has a frame unless a coordinate is out of range; every frame starts with STX, ends with ETX, carries its command byte and, just before ETX, the LRC of command byte through payload; a receiver recovers command and payload |
| `AsWritten.FromBytesSignedShort` | gimbalController.py:74 | `int.from_bytes(b, 'little', signed=True)` on two bytes is the signed 16-bit decoding |
| `AsWritten.AsWrittenCoordinateLRC` | gimbalController.py:63-77 | the as-written checksum of `[0x33, pan, tilt]` fails exactly when a coordinate is `None`, and otherwise xors 0x33 with the two signed integers |
| `AsWritten.AsWrittenCoordinateNeverSent` | gimbalController.py:178-188 | as written, the list exists exactly when both coordinates are in range, and then `bytearray` refuses it, so nothing is ever sent |
| `AsWritten.AsWrittenChecksumExample` | gimbalController.py:182-184 | for (-1, 0) the as-written checksum is -52 while the byte-wise checksum in the corrected frame is 0x33 |
| `Controller.Chunk` | gimbalController.py:47-51 | one read returns at most 1024 bytes, a prefix of what is waiting, and all of it when 1024 or fewer are waiting |
| `Controller.ConnectKeepsOrder` | gimbalController.py:30-35 | a connect leaves every send answered by the read right after it |
| `Controller.ExchangeKeepsOrder` | gimbalController.py:132-138 | appending one send and then one read keeps every send answered by the read right after it |
| `Controller.MoveToHomeOnFreshController` | gimbalController.py:142-167 | on a fresh controller, `moveToHome` connects, sends exactly `[02,00,36,36,03]` in one write and reads back a reply of up to 1024 bytes whole; the trace is one exchange at a time |
| `Controller.GimbalController.constructor` | gimbalController.py:20-28 | a controller starts with an unused channel and the given host, port and waiting bytes |
| `Controller.GimbalController.Connect` | gimbalController.py:30-35 | records one connect to the given host and port and changes nothing else |
| `Controller.GimbalController.Send` | gimbalController.py:38-44 | records the whole frame as one write |
| `Controller.GimbalController.Receive` | gimbalController.py:47-51 | consumes and returns one chunk of at most 1024 waiting bytes and records it |
| `Controller.GimbalController.CloseSocket` | gimbalController.py:53-58 | records the close |
| `Controller.GimbalController.GetStatusJog` | gimbalController.py:103-140 | the frame is built first, then exactly connect, send of the status/jog frame, one read; the exchange order is kept |
| `Controller.GimbalController.MoveToHome` | gimbalController.py:142-167 | exactly connect, send of `[02,00,36,36,03]`, one read |
| `Controller.GimbalController.MoveToEnteredCoordinate` | gimbalController.py:169-191 | an out-of-range coordinate leaves channel and trace untouched; otherwise exactly a send of the coordinate frame and one read, without connecting |
| `Controller.GimbalController.MoveToAbsoluteZero` | gimbalController.py:193-208 | exactly a send of `[02,35,35,03]` and one read, without connecting |
| `Controller.GimbalController.RetrievePresetTableEntry` | gimbalController.py:210-232 | exactly connect, send of the retrieve frame, one read |
| `Controller.GimbalController.SaveCurrentPositionAsPreset` | gimbalController.py:234-250 | exactly a send of the save frame and one read, without connecting |

## Findings

| source | as written | input that shows it | evidently intended | confidence | as-written member | corrected member |
|---|---|---|---|---|---|---|
| gimbalController.py:182-184 | each encoded coordinate is appended as one two-byte element, so `calculateLRC` xors 0x33 with the two coordinates as signed 16-bit integers, and `bytearray` then refuses the list | `moveToEnteredCoordinate(-1, 0)`: the checksum is -52 and the list holds two bytes objects, so nothing is sent | the four coordinate bytes laid out in the frame, with the checksum their xor with 0x33 (0x33 for this input) and the slice widened to `[1:6]` | high; not executed | `AsWritten.AsWrittenChecksumExample` | `Commands.CoordinateFramePacket` |

The rest of the model (`Commands.CoordinateFrame`, `Commands.BuildCoordinateFrame`,
`Controller.GimbalController.MoveToEnteredCoordinate`) uses the corrected
layout. `AsWritten.AsWrittenCoordinateNeverSent` shows that the code as
written refuses every coordinate pair, not only this one.

## Left out

- Socket I/O (gimbalController.py:20-58): TCP connect, send, recv and close become events in a trace and a stream of waiting bytes. Transport failures are not modelled: a refused connection, connecting an already connected socket (which `getStatusJog` followed by `moveToHome` would do), sending on a socket never connected, and partial sends.
- Controller.GimbalController.Receive: a real `recv` may return fewer bytes than are waiting, and blocks when none are; the model always returns `min(1024, waiting)` bytes and returns nothing when the stream is exhausted.
- The host and port hard-coded in three command methods (`'192.168.0.36', 10001`) are constructor parameters.
- `print` calls and `main` (gimbalController.py:252-262) are logging and command-line plumbing.
- The reply is never interpreted in the source (gimbalController.py:138-140), and ACK, NAK and ESC (gimbalController.py:13-15) are declared but unused; the model declares them and does nothing with them either.
- The `from_bytes` branch of `calculateLRC` (gimbalController.py:74) appears only in `AsWritten`. `Lrc.CalculateLRC` takes bytes only.
- Commands.BuildRetrievePresetFrame, Commands.BuildSavePresetFrame: the documented preset range 0x00–0x1F is a precondition. The source checks nothing, and a value outside 0..255 would only fail when `bytearray` is built.
- Commands.JogFlags: one-shot lock, stop and reset are typed as bytes. The source or-s arbitrary integers, and a result above 255 would only fail when `bytearray` is built.
- `speed is 0` (gimbalController.py:111) is an identity test on integers; it is modelled as `speed == 0`.
- The comment claiming that 32768 encodes to `b'\xff\x7f'` (gimbalController.py:87) is wrong: that is 32767, and 32768 gives `None` (`Short.EncodeShortExamples`).
- The `pan` and `tilt` arguments of `getStatusJog` are accepted and unused, as in the source.
