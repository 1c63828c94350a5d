/** The `GimbalController` object: each command method builds its frame,
    then talks to the gimbal through the socket. The socket is replaced by a
    record of what was done with it and the bytes the gimbal has sent. */
module Controller {
  import opened Wrappers
  import opened Bits
  import opened Commands

  /** The size `received` asks `recv` for. */
  const RecvSize := 1024

  /** One use of the socket. */
  datatype Event =
    | Connected(host: string, port: int)
    | Sent(frame: seq<Byte>)
    | Received(reply: seq<Byte>)
    | Closed

  /** What one `recv(1024)` returns of the bytes waiting: at most 1024 of
      them, and nothing once the stream is exhausted. */
  function Chunk(waiting: seq<Byte>): (r: seq<Byte>)
    ensures |r| <= RecvSize && r <= waiting
    ensures |waiting| <= RecvSize ==> r == waiting
  {
    if |waiting| <= RecvSize then waiting else waiting[..RecvSize]
  }

  /** Every send is answered by the read that immediately follows it, and
      every read answers the send just before it: one exchange at a time. */
  ghost predicate OneExchangeAtATime(t: seq<Event>)
  {
    (forall i :: 0 <= i < |t| && t[i].Sent? ==> i + 1 < |t| && t[i + 1].Received?) &&
    (forall i :: 0 <= i < |t| && t[i].Received? ==> 0 < i && t[i - 1].Sent?)
  }

  /** A connect never breaks the order of exchanges. */
  lemma ConnectKeepsOrder(t: seq<Event>, host: string, port: int)
    requires OneExchangeAtATime(t)
    ensures OneExchangeAtATime(t + [Connected(host, port)])
  {
  }

  /** Appending a send and the read that answers it keeps the trace one
      exchange at a time. */
  lemma ExchangeKeepsOrder(t: seq<Event>, frame: seq<Byte>, reply: seq<Byte>)
    requires OneExchangeAtATime(t)
    ensures OneExchangeAtATime(t + [Sent(frame), Received(reply)])
  {
  }

  class GimbalController {
    /** Where the command methods that connect connect to. */
    var host: string
    var port: int
    /** Everything done with the socket, oldest first. */
    var trace: seq<Event>
    /** The bytes the gimbal has sent and that have not been read yet. */
    var inbound: seq<Byte>

    /** A controller over a socket that nothing has been done with yet. */
    constructor (host: string, port: int, inbound: seq<Byte>)
      ensures this.host == host && this.port == port
      ensures trace == [] && this.inbound == inbound
    {
      this.host := host;
      this.port := port;
      this.inbound := inbound;
      trace := [];
    }

    /** `connect(host, port)`. */
    method Connect(host: string, port: int)
      modifies this`trace
      ensures trace == old(trace) + [Connected(host, port)]
    {
      trace := trace + [Connected(host, port)];
    }

    /** `send(packetArray)`: the whole frame in one write. */
    method Send(packet: seq<Byte>)
      modifies this`trace
      ensures trace == old(trace) + [Sent(packet)]
    {
      trace := trace + [Sent(packet)];
    }

    /** `received()`: one `recv(1024)`. */
    method Receive() returns (reply: seq<Byte>)
      modifies this`trace, this`inbound
      ensures reply == Chunk(old(inbound))
      ensures old(inbound) == reply + inbound
      ensures trace == old(trace) + [Received(reply)]
    {
      reply := Chunk(inbound);
      assert inbound == reply + inbound[|reply|..];
      inbound := inbound[|reply|..];
      trace := trace + [Received(reply)];
    }

    /** `closeSocket()`. */
    method CloseSocket()
      modifies this`trace
      ensures trace == old(trace) + [Closed]
    {
      trace := trace + [Closed];
    }

    /** `getStatusJog`: build the frame, connect, send it, read one reply. */
    method GetStatusJog(pan: int, tilt: int, speed: int, osl: Byte, stop: Byte, reset: Byte)
      modifies this`trace, this`inbound
      ensures old(inbound) == Chunk(old(inbound)) + inbound
      ensures trace == old(trace) + [Connected(host, port),
        Sent(StatusJogFrame(speed, osl, stop, reset)), Received(Chunk(old(inbound)))]
      ensures OneExchangeAtATime(old(trace)) ==> OneExchangeAtATime(trace)
    {
      var packet := BuildStatusJogFrame(speed, osl, stop, reset);
      Connect(host, port);
      Send(packet);
      var reply := Receive();
      if OneExchangeAtATime(old(trace)) {
        ConnectKeepsOrder(old(trace), host, port);
        ExchangeKeepsOrder(old(trace) + [Connected(host, port)], packet, reply);
      }
    }

    /** `moveToHome`: build the frame, connect, send it, read one reply. */
    method MoveToHome()
      modifies this`trace, this`inbound
      ensures old(inbound) == Chunk(old(inbound)) + inbound
      ensures trace == old(trace) + [Connected(host, port), Sent(HomeFrame()), Received(Chunk(old(inbound)))]
      ensures OneExchangeAtATime(old(trace)) ==> OneExchangeAtATime(trace)
    {
      var packet := BuildHomeFrame();
      Connect(host, port);
      Send(packet);
      var reply := Receive();
      if OneExchangeAtATime(old(trace)) {
        ConnectKeepsOrder(old(trace), host, port);
        ExchangeKeepsOrder(old(trace) + [Connected(host, port)], packet, reply);
      }
    }

    /** `moveToEnteredCoordinate`: without connecting, send the frame and
      read one reply. An out-of-range coordinate ends the call before
      anything reaches the socket. */
    method MoveToEnteredCoordinate(panCoord: int, tiltCoord: int) returns (sent: bool)
      modifies this`trace, this`inbound
      ensures sent <==> CoordinateFrame(panCoord, tiltCoord).Some?
      ensures !sent ==> trace == old(trace) && inbound == old(inbound)
      ensures sent ==> old(inbound) == Chunk(old(inbound)) + inbound
      ensures sent ==> (trace == old(trace) +
        [Sent(CoordinateFrame(panCoord, tiltCoord).value), Received(Chunk(old(inbound)))])
      ensures OneExchangeAtATime(old(trace)) ==> OneExchangeAtATime(trace)
    {
      var packet := BuildCoordinateFrame(panCoord, tiltCoord);
      if packet.None? {
        return false;
      }
      Send(packet.value);
      var reply := Receive();
      sent := true;
      if OneExchangeAtATime(old(trace)) {
        ExchangeKeepsOrder(old(trace), packet.value, reply);
      }
    }

    /** `moveToAbsoluteZero`: without connecting, send the frame and read
      one reply. */
    method MoveToAbsoluteZero()
      modifies this`trace, this`inbound
      ensures old(inbound) == Chunk(old(inbound)) + inbound
      ensures trace == old(trace) + [Sent(AbsoluteZeroFrame()), Received(Chunk(old(inbound)))]
      ensures OneExchangeAtATime(old(trace)) ==> OneExchangeAtATime(trace)
    {
      var packet := BuildAbsoluteZeroFrame();
      Send(packet);
      var reply := Receive();
      if OneExchangeAtATime(old(trace)) {
        ExchangeKeepsOrder(old(trace), packet, reply);
      }
    }

    /** `retrievePresetTableEntry`: build the frame, connect, send it, read
      one reply. */
    method RetrievePresetTableEntry(preset: Byte)
      requires IsPreset(preset)
      modifies this`trace, this`inbound
      ensures old(inbound) == Chunk(old(inbound)) + inbound
      ensures trace == old(trace) + [Connected(host, port),
        Sent(RetrievePresetFrame(preset)), Received(Chunk(old(inbound)))]
      ensures OneExchangeAtATime(old(trace)) ==> OneExchangeAtATime(trace)
    {
      var packet := BuildRetrievePresetFrame(preset);
      Connect(host, port);
      Send(packet);
      var reply := Receive();
      if OneExchangeAtATime(old(trace)) {
        ConnectKeepsOrder(old(trace), host, port);
        ExchangeKeepsOrder(old(trace) + [Connected(host, port)], packet, reply);
      }
    }

    /** `saveCurrentPositionAsPreset`: without connecting, send the frame
      and read one reply. */
    method SaveCurrentPositionAsPreset(preset: Byte)
      requires IsPreset(preset)
      modifies this`trace, this`inbound
      ensures old(inbound) == Chunk(old(inbound)) + inbound
      ensures trace == old(trace) + [Sent(SavePresetFrame(preset)), Received(Chunk(old(inbound)))]
      ensures OneExchangeAtATime(old(trace)) ==> OneExchangeAtATime(trace)
    {
      var packet := BuildSavePresetFrame(preset);
      Send(packet);
      var reply := Receive();
      if OneExchangeAtATime(old(trace)) {
        ExchangeKeepsOrder(old(trace), packet, reply);
      }
    }
  }

  /** A client of the class: `moveToHome` on a fresh controller whose
      gimbal has sent `reply` connects, sends exactly the five bytes
      02 00 36 36 03 in one write, and reads back the whole reply. */
  method MoveToHomeOnFreshController(host: string, port: int, reply: seq<Byte>)
    returns (trace: seq<Event>)
    requires |reply| <= RecvSize
    ensures trace == [Connected(host, port), Sent([0x02, 0x00, 0x36, 0x36, 0x03]), Received(reply)]
    ensures OneExchangeAtATime(trace)
  {
    var gimbal := new GimbalController(host, port, reply);
    assert OneExchangeAtATime(gimbal.trace);
    gimbal.MoveToHome();
    trace := gimbal.trace;
  }
}
