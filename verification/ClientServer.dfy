/**
 The synchronous request cycle: a client and a server over the loopback queues, against the
 plain register array behind the server's handlers (sections 6.3, 6.6, 6.12 and 7 of the
 MODBUS Application Protocol Specification V1.1b3).
 */
module ClientServer {
  import opened Bytes
  import opened PduCodec
  import opened FrameCodec
  import opened Loopback

  // ---- the application: a plain register array ------------------------------------

  predicate Holds(store: seq<Word>, addr: nat, count: nat) { addr + count <= |store| }

  function ReadStore(store: seq<Word>, addr: Word, count: Word): Result<seq<Word>>
  {
    if Holds(store, addr, count) then Ok(store[addr..addr + count]) else Err(ILLEGAL_DATA_ADDRESS)
  }

  function WriteStore(store: seq<Word>, addr: Word, values: seq<Word>): (r: seq<Word>)
    ensures |r| == |store|
  {
    if Holds(store, addr, |values|) then store[..addr] + values + store[addr + |values|..] else store
  }

  // ---- the server -------------------------------------------------------------------

  function ReadReply(r: Result<seq<Word>>): Pdu
  {
    match r
    case Ok(regs) => MakeStandard(READ_HOLDING_REGISTERS, [ToByte(2 * |regs|)] + PackWords(regs))
    case Err(e) => MakeStandard(READ_HOLDING_REGISTERS + 0x80, [ToByte(e)])
  }

  /** `handle_request`: the new store and the reply, if one is sent. The outcome of a write
      handler is not looked at. */
  function Handle(store: seq<Word>, reader: bool, writer: bool, request: Pdu): (seq<Word>, Option<Pdu>)
  {
    var fc, data := request.functionCode, request.payload;
    if fc == READ_HOLDING_REGISTERS && reader then
      if |data| < 4 then (store, None)
      else (store, Some(ReadReply(ReadStore(store, Join(data[0], data[1]), Join(data[2], data[3])))))
    else if fc == WRITE_SINGLE_REGISTER && writer then
      if |data| < 4 then (store, None)
      else (WriteStore(store, Join(data[0], data[1]), [Join(data[2], data[3])]), Some(MakeStandard(fc, data[..4])))
    else if fc == WRITE_MULTIPLE_REGISTERS && writer then
      if |data| < 5 then (store, None)
      else (WriteStore(store, Join(data[0], data[1]), UnpackWords(data[5..])), Some(MakeStandard(fc, data[..4])))
    else (store, None)
  }

  /** `process_one` on one received frame: whether it counted, the store, the reply frame. */
  function Serve(store: seq<Word>, reader: bool, writer: bool, unitId: Byte, frame: seq<Byte>)
    : (bool, seq<Word>, Option<seq<Byte>>)
    requires HasUnitByte(frame)
  {
    match TcpUnwrap(frame)
    case Err(_) => (false, store, None)
    case Ok(Adu(unit, p, txn)) =>
      if unit != unitId && unit != 0 then (false, store, None)
      else
        var (store', reply) := Handle(store, reader, writer, p);
        (true, store', if reply.None? then None else Some(TcpFrame(unitId, reply.value, txn)))
  }

  class Server {
    const transport: LoopbackTransport
    const unitId: Byte
    var store: seq<Word>
    var reader: bool
    var writer: bool

    constructor (transport: LoopbackTransport, unitId: Byte, store: seq<Word>)
      ensures this.transport == transport && this.unitId == unitId && this.store == store
      ensures !reader && !writer
    {
      this.transport, this.unitId, this.store := transport, unitId, store;
      reader, writer := false, false;
    }

    method OnReadHoldingRegisters()
      modifies this`reader
      ensures reader
    {
      reader := true;
    }

    method OnWriteMultipleRegisters()
      modifies this`writer
      ensures writer
    {
      writer := true;
    }

    method ProcessOne() returns (handled: bool)
      requires transport.rx != transport.tx
      requires forall m | m in transport.rx.messages :: HasUnitByte(m)
      modifies this`store, transport`nextError, transport.tx, transport.rx
      ensures !transport.connected || old(transport.rx.messages) == [] ==>
        !handled && store == old(store) && transport.tx.messages == old(transport.tx.messages)
        && transport.rx.messages == old(transport.rx.messages)
        && transport.nextError == old(transport.nextError)
      ensures transport.connected && old(transport.rx.messages) != [] ==>
        var (h, s, reply) := Serve(old(store), reader, writer, unitId, old(transport.rx.messages)[0]);
        && handled == h && store == s && transport.rx.messages == old(transport.rx.messages)[1..]
        && transport.tx.messages == old(transport.tx.messages)
             + (if reply.Some? && old(transport.nextError).None? then [reply.value] else [])
        && transport.nextError == if reply.Some? then None else old(transport.nextError)
    {
      var recv := transport.Receive();
      if recv.Err? {
        return false;
      }
      var adu := UnwrapTcp(recv.value);
      if adu.Err? || (adu.value.unit != unitId && adu.value.unit != 0) {
        return false;
      }
      HandleRequest(adu.value.pdu, adu.value.transactionId);
      handled := true;
    }

    method HandleRequest(request: Pdu, txn: Word)
      requires transport.connected
      modifies this`store, transport`nextError, transport.tx
      ensures
        var (s, reply) := Handle(old(store), reader, writer, request);
        && store == s
        && transport.tx.messages == old(transport.tx.messages)
             + (if reply.Some? && old(transport.nextError).None? then [TcpFrame(unitId, reply.value, txn)] else [])
        && transport.nextError == if reply.Some? then None else old(transport.nextError)
    {
      var fc, payload := request.functionCode, request.payload;
      if fc == READ_HOLDING_REGISTERS && reader {
        if |payload| < 4 { return; }
        var addr := Join(payload[0], payload[1]);
        var count := Join(payload[2], payload[3]);
        var result := ReadStore(store, addr, count);
        if result.Ok? {
          var regs := result.value;
          var data := PushWords([ToByte(2 * |regs|)], regs);
          SendReply(MakeStandard(READ_HOLDING_REGISTERS, data), txn);
        } else {
          SendReply(MakeStandard(fc + 0x80, [ToByte(result.error)]), txn);
        }
      } else if fc == WRITE_SINGLE_REGISTER && writer {
        if |payload| < 4 { return; }
        var addr := Join(payload[0], payload[1]);
        var val := Join(payload[2], payload[3]);
        store := WriteStore(store, addr, [val]);
        SendReply(MakeStandard(WRITE_SINGLE_REGISTER, payload[..4]), txn);
      } else if fc == WRITE_MULTIPLE_REGISTERS && writer {
        if |payload| < 5 { return; }
        var addr := Join(payload[0], payload[1]);
        var regs := ReadPairs(payload, 5);
        store := WriteStore(store, addr, regs);
        SendReply(MakeStandard(WRITE_MULTIPLE_REGISTERS, payload[..4]), txn);
      }
    }

    /** Wraps a reply and sends it; what the send reports is ignored. */
    method SendReply(reply: Pdu, txn: Word)
      requires transport.connected
      modifies transport`nextError, transport.tx
      ensures transport.tx.messages == old(transport.tx.messages)
        + (if old(transport.nextError).None? then [TcpFrame(unitId, reply, txn)] else [])
      ensures transport.nextError == None
    {
      var frame := WrapTcp(unitId, reply, txn);
      var ignored := transport.Send(frame);
    }
  }

  /** The loop `for (i = start; i + 1 < size; i += 2)` over the register pairs of a payload. */
  method ReadPairs(payload: seq<Byte>, start: nat) returns (regs: seq<Word>)
    requires start <= |payload|
    ensures regs == UnpackWords(payload[start..])
  {
    regs := [];
    ghost var packed := payload[start..];
    var i := start;
    while i + 1 < |payload|
      invariant start <= i <= |payload| && (i - start) % 2 == 0
      invariant regs == UnpackWords(packed[..i - start])
    {
      UnpackPrefix(packed, i - start);
      regs := regs + [Join(payload[i], payload[i + 1])];
      i := i + 2;
    }
    UnpackOddTail(packed, i - start);
  }

  lemma {:induction false} UnpackOddTail(bs: seq<Byte>, k: nat)
    requires k <= |bs| <= k + 1 && k % 2 == 0
    ensures UnpackWords(bs) == UnpackWords(bs[..k])
  {
    if k >= 2 {
      assert bs[..k][2..] == bs[2..][..k - 2];
      UnpackOddTail(bs[2..], k - 2);
    }
  }

  // ---- the client ---------------------------------------------------------------------

  function ReadRequest(addr: Word, count: Word): Pdu
  {
    MakeStandard(READ_HOLDING_REGISTERS, WordBytes(addr) + WordBytes(count))
  }

  function WriteSingleRequest(addr: Word, value: Word): Pdu
  {
    MakeStandard(WRITE_SINGLE_REGISTER, WordBytes(addr) + WordBytes(value))
  }

  function WriteMultipleRequest(addr: Word, values: seq<Word>): Pdu
  {
    MakeStandard(WRITE_MULTIPLE_REGISTERS,
      WordBytes(addr) + WordBytes(ToWord(|values|)) + [ToByte(ToWord(2 * |values|))] + PackWords(values))
  }

  /** The reply frame as `transact` sees it; the transaction id is not compared. */
  function ClientReply(frame: seq<Byte>): Result<Pdu>
    requires HasUnitByte(frame)
  {
    match TcpUnwrap(frame)
    case Err(e) => Err(e)
    case Ok(Adu(_, p, _)) =>
      if p.functionCode >= 0x80 then
        Err(if |p.payload| >= 1 then p.payload[0] else INVALID_FRAME)
      else Ok(p)
  }

  function ReadResult(r: Result<Pdu>): Result<seq<Word>>
  {
    match r
    case Err(e) => Err(e)
    case Ok(p) =>
      if |p.payload| < 1 || |p.payload| - 1 < p.payload[0] then Err(INVALID_FRAME)
      else Ok(UnpackWords(p.payload[1..]))
  }

  function WriteResult(r: Result<Pdu>): Result<()>
  {
    match r
    case Err(e) => Err(e)
    case Ok(_) => Ok(())
  }

  predicate SafeSize(p: Pdu) { |Encode(p)| % 0x1_0000 != 0xFFFF }

  /** A transaction between idle endpoints whose reply, if there is one, arrives in time. */
  function Transaction(store: seq<Word>, reader: bool, writer: bool, unitId: Byte,
                       unit: Byte, request: Pdu, txn: Word): (seq<Word>, Result<Pdu>)
    requires SafeSize(request)
  {
    UnwrapWrapped(unit, request, txn);
    RepliesAreSafe(store, reader, writer, unitId, TcpFrame(unit, request, txn));
    var (_, store', reply) := Serve(store, reader, writer, unitId, TcpFrame(unit, request, txn));
    (store', if reply.None? then Err(TIMEOUT_EXPIRED) else ClientReply(reply.value))
  }

  lemma RepliesAreSafe(store: seq<Word>, reader: bool, writer: bool, unitId: Byte, frame: seq<Byte>)
    requires HasUnitByte(frame)
    ensures var (_, _, reply) := Serve(store, reader, writer, unitId, frame);
      reply.Some? ==> HasUnitByte(reply.value)
  {
    var r := TcpUnwrap(frame);
    if r.Ok? {
      var (_, reply) := Handle(store, reader, writer, r.value.pdu);
      if reply.Some? {
        ReplySize(store, reader, writer, r.value.pdu);
        UnwrapWrapped(unitId, reply.value, r.value.transactionId);
      }
    }
  }

  /** A reply encodes to an even number of bytes or to five. */
  lemma ReplyLength(store: seq<Word>, reader: bool, writer: bool, request: Pdu, reply: Pdu) returns (half: nat)
    requires Handle(store, reader, writer, request).1 == Some(reply)
    ensures |Encode(reply)| == 5 || |Encode(reply)| == 2 * half
  {
    half := 1;
    if request.functionCode == READ_HOLDING_REGISTERS {
      var data := request.payload;
      var r := ReadStore(store, Join(data[0], data[1]), Join(data[2], data[3]));
      if r.Ok? {
        half := 1 + |r.value|;
      }
    }
  }

  lemma ReplySize(store: seq<Word>, reader: bool, writer: bool, request: Pdu)
    ensures var reply := Handle(store, reader, writer, request).1;
      reply.Some? ==> SafeSize(reply.value)
  {
    var reply := Handle(store, reader, writer, request).1;
    if reply.Some? {
      var half := ReplyLength(store, reader, writer, request, reply.value);
      EvenIsNotFull(half);
    }
  }

  class Client {
    const transport: LoopbackTransport
    var nextTransactionId: Word

    constructor (transport: LoopbackTransport)
      ensures this.transport == transport && nextTransactionId == 1
    {
      this.transport, nextTransactionId := transport, 1;
    }

    /** The endpoints of one pair. */
    ghost predicate Linked(server: Server)
      reads this, server
    {
      && transport != server.transport
      && transport.tx == server.transport.rx && transport.rx == server.transport.tx
      && transport.tx != transport.rx
    }

    ghost predicate Idle(server: Server)
      reads this, server, transport, server.transport, transport.tx, transport.rx
    {
      && transport.connected && server.transport.connected
      && transport.nextError.None? && server.transport.nextError.None?
      && transport.tx.messages == [] && transport.rx.messages == []
    }

    /** The part of `transact` before the receive: every request goes out under its own id. */
    method SendRequest(unit: Byte, request: Pdu) returns (r: Result<()>)
      modifies this`nextTransactionId, transport`nextError, transport.tx
      ensures nextTransactionId == (old(nextTransactionId) + 1 as int) % 0x1_0000
      ensures transport.tx.messages == old(transport.tx.messages)
        + (if r.Ok? then [TcpFrame(unit, request, old(nextTransactionId))] else [])
      ensures r == if !transport.connected then Err(TRANSPORT_DISCONNECTED)
                   else if old(transport.nextError).Some? then Err(old(transport.nextError).value) else Ok(())
      ensures transport.nextError == if transport.connected then None else old(transport.nextError)
    {
      var txn := nextTransactionId;
      nextTransactionId := ToWord(nextTransactionId + 1);
      var frame := WrapTcp(unit, request, txn);
      r := transport.Send(frame);
    }

    /** Sends, lets the server process one request, and receives: the interleaving in which
        the server's thread answers before the client's wait is over. */
    method Transact(unit: Byte, request: Pdu, server: Server) returns (r: Result<Pdu>)
      requires Linked(server) && Idle(server) && SafeSize(request)
      modifies this`nextTransactionId, transport`nextError, transport.tx, transport.rx
      modifies server`store, server.transport`nextError
      ensures Linked(server) && Idle(server)
      ensures nextTransactionId == ToWord(old(nextTransactionId) + 1)
      ensures (server.store, r) == Transaction(old(server.store), server.reader, server.writer,
                                               server.unitId, unit, request, old(nextTransactionId))
    {
      ghost var frame := TcpFrame(unit, request, nextTransactionId);
      UnwrapWrapped(unit, request, nextTransactionId);
      RepliesAreSafe(server.store, server.reader, server.writer, server.unitId, frame);
      var sent := SendRequest(unit, request);
      assert sent.Ok? && transport.tx.messages == [frame];
      var handled := server.ProcessOne();
      var recv := transport.Receive();
      if recv.Err? {
        return Err(recv.error);
      }
      r := Interpret(recv.value);
    }

    /** The part of `transact` behind the receive. */
    static method Interpret(frame: seq<Byte>) returns (r: Result<Pdu>)
      requires HasUnitByte(frame)
      ensures r == ClientReply(frame)
    {
      var adu := UnwrapTcp(frame);
      if adu.Err? {
        return Err(adu.error);
      }
      var fc, payload := adu.value.pdu.functionCode, adu.value.pdu.payload;
      if fc >= 0x80 {
        return Err(if |payload| >= 1 then payload[0] else INVALID_FRAME);
      }
      r := Ok(adu.value.pdu);
    }

    method ReadHoldingRegisters(unit: Byte, addr: Word, count: Word, server: Server)
      returns (r: Result<seq<Word>>)
      requires Linked(server) && Idle(server)
      modifies this`nextTransactionId, transport`nextError, transport.tx, transport.rx
      modifies server`store, server.transport`nextError
      ensures Linked(server) && Idle(server)
      ensures nextTransactionId == ToWord(old(nextTransactionId) + 1)
      ensures SafeSize(ReadRequest(addr, count))
      ensures
        var (s, reply) := Transaction(old(server.store), server.reader, server.writer, server.unitId,
                                      unit, ReadRequest(addr, count), old(nextTransactionId));
        server.store == s && r == ReadResult(reply)
    {
      var data := PushWord([], addr);
      data := PushWord(data, count);
      assert data == WordBytes(addr) + WordBytes(count);
      var result := Transact(unit, MakeStandard(READ_HOLDING_REGISTERS, data), server);
      if result.Err? {
        return Err(result.error);
      }
      var payload := result.value.payload;
      if |payload| < 1 {
        return Err(INVALID_FRAME);
      }
      var byteCount := payload[0];
      if |payload| - 1 < byteCount {
        return Err(INVALID_FRAME);
      }
      var registers := ReadPairs(payload, 1);
      r := Ok(registers);
    }

    method WriteSingleRegister(unit: Byte, addr: Word, value: Word, server: Server) returns (r: Result<()>)
      requires Linked(server) && Idle(server)
      modifies this`nextTransactionId, transport`nextError, transport.tx, transport.rx
      modifies server`store, server.transport`nextError
      ensures Linked(server) && Idle(server)
      ensures nextTransactionId == ToWord(old(nextTransactionId) + 1)
      ensures SafeSize(WriteSingleRequest(addr, value))
      ensures
        var (s, reply) := Transaction(old(server.store), server.reader, server.writer, server.unitId,
                                      unit, WriteSingleRequest(addr, value), old(nextTransactionId));
        server.store == s && r == WriteResult(reply)
    {
      var data := PushWord([], addr);
      data := PushWord(data, value);
      assert data == WordBytes(addr) + WordBytes(value);
      var result := Transact(unit, MakeStandard(WRITE_SINGLE_REGISTER, data), server);
      r := if result.Err? then Err(result.error) else Ok(());
    }

    method WriteMultipleRegisters(unit: Byte, addr: Word, values: seq<Word>, server: Server) returns (r: Result<()>)
      requires Linked(server) && Idle(server)
      modifies this`nextTransactionId, transport`nextError, transport.tx, transport.rx
      modifies server`store, server.transport`nextError
      ensures Linked(server) && Idle(server)
      ensures nextTransactionId == ToWord(old(nextTransactionId) + 1)
      ensures SafeSize(WriteMultipleRequest(addr, values))
      ensures
        var (s, reply) := Transaction(old(server.store), server.reader, server.writer, server.unitId,
                                      unit, WriteMultipleRequest(addr, values), old(nextTransactionId));
        server.store == s && r == WriteResult(reply)
    {
      var data := PushWord([], addr);
      data := PushWord(data, ToWord(|values|));
      data := data + [ToByte(ToWord(2 * |values|))];
      assert data == WordBytes(addr) + WordBytes(ToWord(|values|)) + [ToByte(ToWord(2 * |values|))];
      data := PushWords(data, values);
      WriteRequestSize(addr, values);
      var result := Transact(unit, MakeStandard(WRITE_MULTIPLE_REGISTERS, data), server);
      r := if result.Err? then Err(result.error) else Ok(());
    }
  }

  lemma WriteRequestSize(addr: Word, values: seq<Word>)
    ensures |Encode(WriteMultipleRequest(addr, values))| == 6 + 2 * |values|
    ensures SafeSize(WriteMultipleRequest(addr, values))
  {
    EvenIsNotFull(3 + |values|);
  }
}
