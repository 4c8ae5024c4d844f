/** The TCP byte stream: partial writes, partial reads, and the frames put together again. */
module TcpTransports {
  import opened Bytes
  import opened PduCodec
  import opened FrameCodec

  /**
   A connected socket. `oracle` decides what the k-th system call does: a value of at most 0
   fails the call, a positive one bounds the number of bytes moved. `inbound` is everything
   the peer will ever send; a read past it finds the end of the stream.
   */
  class Socket {
    const oracle: nat -> int
    var calls: nat
    var sent: seq<Byte>
    var inbound: seq<Byte>

    constructor (oracle: nat -> int, inbound: seq<Byte>)
      ensures this.oracle == oracle && this.inbound == inbound && sent == [] && calls == 0
    {
      this.oracle, this.inbound, sent, calls := oracle, inbound, [], 0;
    }

    ghost predicate Healthy() { forall k: nat :: oracle(k) > 0 }

    method Write(data: seq<Byte>) returns (n: int)
      requires data != []
      modifies this`calls, this`sent
      ensures n <= |data| && (Healthy() ==> n > 0)
      ensures sent == old(sent) + data[..if n > 0 then n else 0]
    {
      n := oracle(calls);
      calls := calls + 1;
      if n <= 0 {
        assert data[..0] == [];
        return;
      }
      n := if n < |data| then n else |data|;
      sent := sent + data[..n];
    }

    method Read(max: nat) returns (n: int, data: seq<Byte>)
      requires max > 0
      modifies this`calls, this`inbound
      ensures n <= max && (n > 0 ==> |data| == n) && (n <= 0 ==> data == [])
      ensures old(inbound) == data + inbound
      ensures Healthy() && n <= 0 ==> old(inbound) == []
    {
      n := oracle(calls);
      calls := calls + 1;
      if n <= 0 || inbound == [] {
        n := if n <= 0 then n else 0;
        data := [];
        return;
      }
      n := if n < max then n else max;
      n := if n < |inbound| then n else |inbound|;
      data := inbound[..n];
      inbound := inbound[n..];
    }
  }

  // ---- specification -----------------------------------------------------------

  /** What one `receive` does to the stream: its result, what is left, and whether the
      connection is still considered up. A length field of 0 costs the seven header bytes. */
  function Received(stream: seq<Byte>): (Result<seq<Byte>>, seq<Byte>, bool)
  {
    if |stream| < 7 then (Err(TRANSPORT_DISCONNECTED), [], false)
    else
      var length: nat := LengthField(stream);
      if length < 1 then (Err(INVALID_FRAME), stream[7..], true)
      else if |stream| < 6 + length then (Err(TRANSPORT_DISCONNECTED), [], false)
      else (Ok(stream[..6 + length]), stream[6 + length..], true)
  }

  class TcpTransport {
    const socket: Socket
    var connected: bool

    constructor (socket: Socket)
      ensures this.socket == socket && connected
    {
      this.socket, connected := socket, true;
    }

    /** The whole frame goes out, however the writes split it; a failing write leaves a proper
        prefix on the wire and takes the connection down. */
    method Send(frame: seq<Byte>) returns (r: Result<()>)
      modifies this, socket`calls, socket`sent
      ensures !old(connected) ==> r == Err(TRANSPORT_DISCONNECTED) && socket.sent == old(socket.sent) && !connected
      ensures old(connected) && r.Ok? ==> socket.sent == old(socket.sent) + frame && connected
      ensures old(connected) && r.Err? ==> r.error == TRANSPORT_DISCONNECTED && !connected
      ensures old(connected) && r.Err? ==>
        exists k :: 0 <= k < |frame| && socket.sent == old(socket.sent) + frame[..k]
      ensures old(connected) && socket.Healthy() ==> r.Ok?
    {
      if !connected {
        return Err(TRANSPORT_DISCONNECTED);
      }
      var totalSent := 0;
      while totalSent < |frame|
        invariant totalSent <= |frame| && connected
        invariant socket.sent == old(socket.sent) + frame[..totalSent]
        decreases |frame| - totalSent
      {
        var n := socket.Write(frame[totalSent..]);
        if n <= 0 {
          connected := false;
          assert socket.sent == old(socket.sent) + frame[..totalSent];
          return Err(TRANSPORT_DISCONNECTED);
        }
        assert frame[..totalSent] + frame[totalSent..][..n] == frame[..totalSent + n];
        totalSent := totalSent + n;
      }
      assert frame[..totalSent] == frame;
      r := Ok(());
    }

    /** `pollResult` is what waiting for input returned. */
    method Receive(pollResult: int) returns (r: Result<seq<Byte>>)
      modifies this, socket`calls, socket`inbound
      ensures !old(connected) ==>
        r == Err(TRANSPORT_DISCONNECTED) && socket.inbound == old(socket.inbound) && !connected
      ensures old(connected) && pollResult < 0 ==>
        r == Err(TRANSPORT_DISCONNECTED) && socket.inbound == old(socket.inbound) && !connected
      ensures old(connected) && pollResult == 0 ==>
        r == Err(TIMEOUT_EXPIRED) && socket.inbound == old(socket.inbound) && connected
      ensures old(connected) && pollResult > 0 && (r.Ok? || socket.Healthy()) ==>
        (r, socket.inbound, connected) == Received(old(socket.inbound))
      ensures connected ==> r.Ok? || r == Err(INVALID_FRAME) || r == Err(TIMEOUT_EXPIRED)
    {
      if !connected {
        return Err(TRANSPORT_DISCONNECTED);
      }
      if pollResult < 0 {
        connected := false;
        return Err(TRANSPORT_DISCONNECTED);
      }
      if pollResult == 0 {
        return Err(TIMEOUT_EXPIRED);
      }
      ghost var stream := socket.inbound;
      var header: seq<Byte> := [];
      while |header| < 7
        invariant |header| <= 7 && connected && stream == header + socket.inbound
        decreases 7 - |header|
      {
        var n, chunk := socket.Read(7 - |header|);
        if n <= 0 {
          connected := false;
          return Err(TRANSPORT_DISCONNECTED);
        }
        Concat(header, chunk, socket.inbound);
        header := header + chunk;
      }
      assert header == stream[..7] && socket.inbound == stream[7..];
      var pduLength: nat := Join(header[4], header[5]);
      if pduLength < 1 {
        return Err(INVALID_FRAME);
      }
      var remaining := pduLength - 1;
      var body: seq<Byte> := [];
      while |body| < remaining
        invariant |body| <= remaining && connected && stream[7..] == body + socket.inbound
        decreases remaining - |body|
      {
        var n, chunk := socket.Read(remaining - |body|);
        if n <= 0 {
          connected := false;
          return Err(TRANSPORT_DISCONNECTED);
        }
        Concat(body, chunk, socket.inbound);
        body := body + chunk;
      }
      assert stream == header + (body + socket.inbound) == (header + body) + socket.inbound;
      r := Ok(header + body);
    }
  }

  // ---- reassembly -------------------------------------------------------------------

  /** The length field is at least 1 and tells the size of the frame. */
  predicate IsFrame(f: seq<Byte>)
  {
    |f| >= 7 && LengthField(f) >= 1 && |f| == 6 + LengthField(f)
  }

  function Flatten(frames: seq<seq<Byte>>): seq<Byte>
  {
    if frames == [] then [] else frames[0] + Flatten(frames[1..])
  }

  /** `n` successful receives in a row, and the stream behind them. */
  function ReceiveAll(n: nat, stream: seq<Byte>): Result<(seq<seq<Byte>>, seq<Byte>)>
    decreases n
  {
    if n == 0 then Ok(([], stream))
    else match Received(stream).0
      case Err(e) => Err(e)
      case Ok(f) =>
        match ReceiveAll(n - 1, Received(stream).1)
        case Err(e) => Err(e)
        case Ok((fs, rest)) => Ok(([f] + fs, rest))
  }

  lemma ReceiveFirst(f: seq<Byte>, rest: seq<Byte>)
    requires IsFrame(f)
    ensures Received(f + rest) == (Ok(f), rest, true)
  {
    assert (f + rest)[4] == f[4] && (f + rest)[5] == f[5];
    assert (f + rest)[..|f|] == f && (f + rest)[|f|..] == rest;
  }

  /** Whatever the chunks, the frames come out as they went in, in order and byte for byte. */
  lemma {:induction false} Reassembly(frames: seq<seq<Byte>>, tail: seq<Byte>)
    requires forall f | f in frames :: IsFrame(f)
    ensures ReceiveAll(|frames|, Flatten(frames) + tail) == Ok((frames, tail))
    decreases frames
  {
    if frames == [] {
      assert Flatten(frames) + tail == tail;
    } else {
      Concat(frames[0], Flatten(frames[1..]), tail);
      ReceiveFirst(frames[0], Flatten(frames[1..]) + tail);
      Reassembly(frames[1..], tail);
      assert [frames[0]] + frames[1..] == frames;
    }
  }

  /** A stream that ends inside a frame is noticed, wherever it is cut. */
  lemma CutStreamNoticed(f: seq<Byte>, k: nat)
    requires IsFrame(f) && k < |f|
    ensures Received(f[..k]) == (Err(TRANSPORT_DISCONNECTED), [], false)
  {
    if k >= 7 {
      assert f[..k][4] == f[4] && f[..k][5] == f[5];
    }
  }

  // ---- end to end --------------------------------------------------------------------

  predicate Sendable(a: Adu) { WellFormed(a.pdu) && |Encode(a.pdu)| < 0xFFFF }

  function FramesOf(adus: seq<Adu>): (frames: seq<seq<Byte>>)
    ensures |frames| == |adus|
  {
    seq(|adus|, i requires 0 <= i < |adus| => TcpFrame(adus[i].unit, adus[i].pdu, adus[i].transactionId))
  }

  /** A sequence of sendable units written to the stream is received frame by frame, and
      every frame unwraps to the unit that was sent. */
  lemma EndToEnd(adus: seq<Adu>, tail: seq<Byte>)
    requires forall a | a in adus :: Sendable(a)
    ensures ReceiveAll(|adus|, Flatten(FramesOf(adus)) + tail) == Ok((FramesOf(adus), tail))
    ensures forall i | 0 <= i < |adus| ::
      HasUnitByte(FramesOf(adus)[i]) && TcpUnwrap(FramesOf(adus)[i]) == Ok(adus[i])
  {
    var frames := FramesOf(adus);
    forall i | 0 <= i < |adus|
      ensures IsFrame(frames[i]) && HasUnitByte(frames[i]) && TcpUnwrap(frames[i]) == Ok(adus[i])
    {
      var a := adus[i];
      assert Sendable(a);
      TcpFrameParts(a.unit, a.pdu, a.transactionId);
      LengthCast(|Encode(a.pdu)|);
      TcpRoundTripIff(a.unit, a.pdu, a.transactionId);
    }
    Reassembly(frames, tail);
  }
}
