/**
 The bytes of requests and replies, and what a request does to the registers (sections 6.3, 6.6,
 6.12 and 7 of the MODBUS Application Protocol Specification V1.1b3).
 */
module ServerReplies {
  import opened Bytes
  import opened PduCodec
  import opened FrameCodec
  import opened ClientServer
  import opened WireLayout

  // ---- the reply frame -----------------------------------------------------------

  /** A frame counts as handled exactly if it unwraps and names this unit or unit 0; any other
      leaves the registers alone and is not answered. */
  lemma HandledIff(store: seq<Word>, reader: bool, writer: bool, unitId: Byte, frame: seq<Byte>)
    requires HasUnitByte(frame)
    ensures
      var (handled, after, reply) := Serve(store, reader, writer, unitId, frame);
      && (handled <==> TcpUnwrap(frame).Ok? && |frame| >= 8 && (frame[6] == unitId || frame[6] == 0))
      && (!handled ==> after == store && reply == None)
  {
  }

  /** The reply repeats the transaction id of the request, names the server's unit, carries the
      handler's PDU, and its length field counts what follows it. */
  lemma ReplyOnWire(store: seq<Word>, reader: bool, writer: bool, unitId: Byte, frame: seq<Byte>, g: seq<Byte>)
    requires HasUnitByte(frame) && Serve(store, reader, writer, unitId, frame).2 == Some(g)
    ensures |frame| >= 8 && |g| >= 8 && g[0] == frame[0] && g[1] == frame[1]
    ensures g[2] == 0 && g[3] == 0 && g[6] == unitId
    ensures Two(g, 4) == (|g| - 6) % 0x1_0000 && (|g| - 6 < 0x1_0000 ==> Two(g, 4) == |g| - 6)
    ensures
      var reply := Handle(store, reader, writer, TcpUnwrap(frame).value.pdu).1;
      reply.Some? && g[7..] == Encode(reply.value)
  {
    var p := TcpUnwrap(frame).value.pdu;
    var reply := Handle(store, reader, writer, p).1;
    var txn := Join(frame[0], frame[1]);
    TcpOnWire(unitId, reply.value, txn, g);
    SameTwo(g, frame);
  }

  lemma SameTwo(g: seq<Byte>, f: seq<Byte>)
    requires |g| >= 2 && |f| >= 2 && Two(g, 0) == Join(f[0], f[1])
    ensures g[0] == f[0] && g[1] == f[1]
  {
    JoinInjective(g[0], g[1]);
    JoinInjective(f[0], f[1]);
    TwoIsJoin(g, 0);
  }

  /** What a handled frame does is what its PDU does, and it is answered if the PDU is. */
  lemma HandledAs(store: seq<Word>, reader: bool, writer: bool, unitId: Byte, frame: seq<Byte>, p: Pdu)
    requires HasUnitByte(frame) && TcpUnwrap(frame).Ok? && TcpUnwrap(frame).value.pdu == p
    requires Serve(store, reader, writer, unitId, frame).0
    ensures Serve(store, reader, writer, unitId, frame).1 == Handle(store, reader, writer, p).0
    ensures Serve(store, reader, writer, unitId, frame).2.Some? <==> Handle(store, reader, writer, p).1.Some?
  {
  }

  // ---- what a request does -----------------------------------------------------------

  /** A read is answered with the byte count and the registers from the address on, or with
      exception 2 if they are not all there; it changes nothing. */
  lemma ReadAnswered(store: seq<Word>, writer: bool, request: Pdu, addr: nat, count: nat, reply: Pdu)
    requires request.functionCode == 0x03 && |request.payload| >= 4
    requires addr == Two(request.payload, 0) && count == Two(request.payload, 2)
    requires Handle(store, true, writer, request).1 == Some(reply)
    ensures Handle(store, true, writer, request).0 == store && reply.header == None && reply.hmac == None
    ensures addr + count > |store| ==> reply.functionCode == 0x83 && reply.payload == [0x02]
    ensures addr + count <= |store| ==>
      && reply.functionCode == 0x03 && |reply.payload| == 1 + 2 * count && reply.payload[0] == 2 * count % 0x100
      && forall i | 0 <= i < count :: Two(reply.payload, 1 + 2 * i) == store[addr + i]
  {
    TwoIsJoin(request.payload, 0);
    TwoIsJoin(request.payload, 2);
    if addr + count <= |store| {
      RegistersSent(store[addr..addr + count], reply.payload, count);
    }
  }

  lemma RegistersSent(regs: seq<Word>, payload: seq<Byte>, count: nat)
    requires |regs| == count && payload == [ToByte(2 * count)] + PackWords(regs)
    ensures |payload| == 1 + 2 * count && payload[0] == 2 * count % 0x100
    ensures forall i | 0 <= i < count :: Two(payload, 1 + 2 * i) == regs[i]
  {
    forall i | 0 <= i < count
      ensures Two(payload, 1 + 2 * i) == regs[i]
    {
      PackAt(regs, i);
      assert payload[1 + 2 * i] == PackWords(regs)[2 * i] && payload[2 + 2 * i] == PackWords(regs)[2 * i + 1];
    }
  }

  /** The registers that a write request carries. */
  predicate WritesValues(request: Pdu, values: seq<Word>)
  {
    var data := request.payload;
    || (request.functionCode == 0x06 && |data| >= 4 && |values| == 1 && values[0] as nat == Two(data, 2))
    || (request.functionCode == 0x10 && |data| >= 5 && |values| == (|data| - 5) / 2
        && forall i | 0 <= i < |values| :: values[i] as nat == Two(data, 5 + 2 * i))
  }

  /** A write is answered with its first four bytes. Its registers stand at the address
      afterwards if there is room for all of them, and every other register is as before. */
  lemma WriteAnswered(store: seq<Word>, reader: bool, request: Pdu, values: seq<Word>, addr: nat, after: seq<Word>)
    requires WritesValues(request, values) && addr == Two(request.payload, 0)
    requires after == Handle(store, reader, true, request).0
    ensures Handle(store, reader, true, request).1
         == Some(Pdu(request.functionCode, None, request.payload[..4], None))
    ensures |after| == |store|
    ensures forall k | 0 <= k < |store| ::
      after[k] == if addr + |values| <= |store| && addr <= k < addr + |values| then values[k - addr] else store[k]
  {
    var data := request.payload;
    TwoIsJoin(data, 0);
    if request.functionCode == 0x06 {
      TwoIsJoin(data, 2);
      assert values == [Join(data[2], data[3])];
    } else {
      forall i | 0 <= i < |values|
        ensures UnpackWords(data[5..])[i] == values[i]
      {
        UnpackAt(data[5..], i);
      }
      assert UnpackWords(data[5..]) == values;
    }
  }

  /** Requests that are too short, that have no handler or another function code have no effect
      and no answer; all others are answered. */
  lemma AnsweredIff(store: seq<Word>, reader: bool, writer: bool, request: Pdu)
    ensures
      var n := |request.payload|;
      Handle(store, reader, writer, request).1.Some? <==>
        || (request.functionCode == 0x03 && reader && n >= 4)
        || (request.functionCode == 0x06 && writer && n >= 4)
        || (request.functionCode == 0x10 && writer && n >= 5)
    ensures Handle(store, reader, writer, request).1.None? ==> Handle(store, reader, writer, request).0 == store
  {
  }

  // ---- what the client sends -----------------------------------------------------------

  lemma TwoWords(a: Word, b: Word, e: seq<Byte>)
    requires |e| >= 5 && e[1..5] == WordBytes(a) + WordBytes(b)
    ensures Two(e, 1) == a && Two(e, 3) == b
  {
    assert e[1..3] == e[1..5][..2] == WordBytes(a);
    assert e[3..5] == e[1..5][2..] == WordBytes(b);
    TwoOfWord(e, 1, a);
    TwoOfWord(e, 3, b);
  }

  lemma ReadRequestOnWire(addr: Word, count: Word, e: seq<Byte>)
    requires e == Encode(ReadRequest(addr, count))
    ensures |e| == 5 && e[0] == 0x03 && Two(e, 1) == addr && Two(e, 3) == count
  {
    TwoWords(addr, count, e);
  }

  lemma WriteSingleRequestOnWire(addr: Word, value: Word, e: seq<Byte>)
    requires e == Encode(WriteSingleRequest(addr, value))
    ensures |e| == 5 && e[0] == 0x06 && Two(e, 1) == addr && Two(e, 3) == value
  {
    TwoWords(addr, value, e);
  }

  /** The count is cut to 16 bits and the byte count to 8; the registers are all there. */
  lemma WriteMultipleRequestOnWire(addr: Word, values: seq<Word>, e: seq<Byte>, i: nat)
    requires e == Encode(WriteMultipleRequest(addr, values))
    ensures |e| == 6 + 2 * |values| && e[0] == 0x10 && Two(e, 1) == addr
    ensures Two(e, 3) == |values| % 0x1_0000 && e[5] == 2 * |values| % 0x100
    ensures i < |values| ==> Two(e, 6 + 2 * i) == values[i]
  {
    var count, bytes := ToWord(|values|), ToByte(ToWord(2 * |values|));
    assert e == [0x10] + (WordBytes(addr) + WordBytes(count) + [bytes] + PackWords(values));
    assert e[1..5] == WordBytes(addr) + WordBytes(count) && e[5] == bytes && e[6..] == PackWords(values);
    TwoWords(addr, count, e);
    LowByte(2 * |values|);
    if i < |values| {
      PackAt(values, i);
      assert e[6 + 2 * i] == e[6..][2 * i] && e[7 + 2 * i] == e[6..][2 * i + 1];
    }
  }

  lemma LowByte(n: nat)
    ensures ToByte(ToWord(n)) == n % 0x100
  {
    assert n % 0x1_0000 % 0x100 == n % 0x100;
  }

  // ---- what the client makes of a reply --------------------------------------------------

  /** A reply whose function code has the high bit set is the error in its first byte, or
      0x8D if it has none. */
  lemma ExceptionReported(frame: seq<Byte>, p: Pdu)
    requires HasUnitByte(frame) && TcpUnwrap(frame).Ok? && TcpUnwrap(frame).value.pdu == p
    ensures p.functionCode < 0x80 ==> ClientReply(frame) == Ok(p)
    ensures p.functionCode >= 0x80 ==> ClientReply(frame) == Err(if p.payload == [] then 0x8D else p.payload[0])
  {
  }

  /** A read fails if its reply does, or if there are fewer bytes than the reply announces; else
      it returns all the complete registers behind the byte count. */
  lemma RegistersRead(r: Result<Pdu>, out: Result<seq<Word>>)
    requires out == ReadResult(r)
    ensures r.Err? ==> out == Err(r.error)
    ensures r.Ok? && (r.value.payload == [] || |r.value.payload| < 1 + r.value.payload[0] as nat) ==> out == Err(0x8D)
    ensures r.Ok? && r.value.payload != [] && |r.value.payload| >= 1 + r.value.payload[0] as nat ==>
      && out.Ok? && |out.value| == (|r.value.payload| - 1) / 2
      && forall i | 0 <= i < |out.value| :: out.value[i] as nat == Two(r.value.payload, 1 + 2 * i)
  {
    if out.Ok? {
      forall i | 0 <= i < |out.value|
        ensures out.value[i] as nat == Two(r.value.payload, 1 + 2 * i)
      {
        UnpackAt(r.value.payload[1..], i);
      }
    }
  }

  /** A request for another unit times out and changes nothing. */
  lemma OtherUnitTimesOut(store: seq<Word>, reader: bool, writer: bool, unitId: Byte, unit: Byte, p: Pdu, txn: Word)
    requires SafeSize(p) && unit != unitId && unit != 0
    ensures Transaction(store, reader, writer, unitId, unit, p, txn) == (store, Err(0x88))
  {
    UnwrapWrapped(unit, p, txn);
  }
}
