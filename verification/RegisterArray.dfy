/** Whole runs of client calls against a server, seen as operations on a register array. */
module RegisterArray {
  import opened Bytes
  import opened PduCodec
  import opened FrameCodec
  import opened ClientServer

  datatype Op =
    | Read(unit: Byte, addr: Word, count: Word)
    | WriteOne(unit: Byte, addr: Word, value: Word)
    | WriteMany(unit: Byte, addr: Word, values: seq<Word>)

  datatype Outcome = ReadOutcome(regs: Result<seq<Word>>) | WriteOutcome(ack: Result<()>)

  /** The largest reads and writes whose PDU fits the MBAP length field. */
  const MAX_READ := 32766
  const MAX_WRITE := 32764

  // ---- the plain array -----------------------------------------------------------

  /** What an operation on the bare array does. Somebody else's unit does not answer; a write
      that is out of range changes nothing, and is acknowledged all the same. */
  function PlainStep(store: seq<Word>, unitId: Byte, op: Op): (seq<Word>, Outcome)
  {
    if op.unit != unitId && op.unit != 0 then
      (store, if op.Read? then ReadOutcome(Err(TIMEOUT_EXPIRED)) else WriteOutcome(Err(TIMEOUT_EXPIRED)))
    else match op
      case Read(_, addr, count) => (store, ReadOutcome(ReadStore(store, addr, count)))
      case WriteOne(_, addr, value) => (WriteStore(store, addr, [value]), WriteOutcome(Ok(())))
      case WriteMany(_, addr, values) => (WriteStore(store, addr, values), WriteOutcome(Ok(())))
  }

  function PlainRun(store: seq<Word>, unitId: Byte, ops: seq<Op>): (seq<Word>, seq<Outcome>)
    decreases ops
  {
    if ops == [] then (store, [])
    else
      var (s, o) := PlainStep(store, unitId, ops[0]);
      var (s', os) := PlainRun(s, unitId, ops[1..]);
      (s', [o] + os)
  }

  // ---- the calls over the wire ------------------------------------------------------

  /** What the three client methods guarantee for an idle pair with both handlers installed. */
  function WireStep(store: seq<Word>, unitId: Byte, txn: Word, op: Op): (seq<Word>, Outcome)
  {
    match op
    case Read(unit, addr, count) =>
      var (s, r) := Transaction(store, true, true, unitId, unit, ReadRequest(addr, count), txn);
      (s, ReadOutcome(ReadResult(r)))
    case WriteOne(unit, addr, value) =>
      var (s, r) := Transaction(store, true, true, unitId, unit, WriteSingleRequest(addr, value), txn);
      (s, WriteOutcome(WriteResult(r)))
    case WriteMany(unit, addr, values) =>
      WriteRequestSize(addr, values);
      var (s, r) := Transaction(store, true, true, unitId, unit, WriteMultipleRequest(addr, values), txn);
      (s, WriteOutcome(WriteResult(r)))
  }

  function WireRun(store: seq<Word>, unitId: Byte, txn: Word, ops: seq<Op>): (seq<Word>, seq<Outcome>)
    decreases ops
  {
    if ops == [] then (store, [])
    else
      var (s, o) := WireStep(store, unitId, txn, ops[0]);
      var (s', os) := WireRun(s, unitId, ToWord(txn + 1), ops[1..]);
      (s', [o] + os)
  }

  // ---- one transaction ----------------------------------------------------------------

  predicate Small(p: Pdu) { p.header.None? && WellFormed(p) && |Encode(p)| < 0xFFFF }

  lemma SmallTransaction(store: seq<Word>, unitId: Byte, unit: Byte, p: Pdu, txn: Word)
    requires Small(p)
    ensures SafeSize(p)
    ensures
      var t := Transaction(store, true, true, unitId, unit, p, txn);
      if unit != unitId && unit != 0 then t == (store, Err(TIMEOUT_EXPIRED))
      else
        var (s, reply) := Handle(store, true, true, p);
        && t.0 == s
        && (reply.None? ==> t.1 == Err(TIMEOUT_EXPIRED))
        && (reply.Some? ==> SafeSize(reply.value) && HasUnitByte(TcpFrame(unitId, reply.value, txn))
                            && t.1 == ClientReply(TcpFrame(unitId, reply.value, txn)))
  {
    TcpRoundTripIff(unit, p, txn);
    ReplySize(store, true, true, p);
    var reply := Handle(store, true, true, p).1;
    if reply.Some? {
      UnwrapWrapped(unitId, reply.value, txn);
    }
  }

  lemma SmallReply(unitId: Byte, p: Pdu, txn: Word)
    requires Small(p)
    ensures HasUnitByte(TcpFrame(unitId, p, txn))
    ensures ClientReply(TcpFrame(unitId, p, txn)) ==
      if p.functionCode < 0x80 then Ok(p) else Err(if |p.payload| >= 1 then p.payload[0] else INVALID_FRAME)
  {
    TcpRoundTripIff(unitId, p, txn);
  }

  /** The client does not look at the transaction id of a reply. */
  lemma TransactionIdIgnored(frame: seq<Byte>, other: seq<Byte>)
    requires |frame| == |other| >= 2 && frame[2..] == other[2..] && HasUnitByte(frame)
    ensures HasUnitByte(other) && ClientReply(other) == ClientReply(frame)
  {
    assert forall i | 2 <= i < |frame| :: frame[i] == frame[2..][i - 2] && other[i] == other[2..][i - 2];
    if |frame| >= 8 && |frame| >= 6 + LengthField(frame) as nat && LengthField(frame) >= 1 {
      assert frame[7..6 + LengthField(frame)] == other[7..6 + LengthField(frame)];
    }
  }

  /** The fields of a request are read back by the server. */
  lemma RequestFields(addr: Word, w: Word, tail: seq<Byte>)
    ensures
      var data := WordBytes(addr) + WordBytes(w) + tail;
      Join(data[0], data[1]) == addr && Join(data[2], data[3]) == w && data[4..] == tail
      && data[..4] == WordBytes(addr) + WordBytes(w)
  {
    var a, b := WordBytes(addr), WordBytes(w);
    var data := a + b + tail;
    assert data[0] == a[0] && data[1] == a[1] && data[2] == b[0] && data[3] == b[1];
  }

  // ---- reads ---------------------------------------------------------------------------

  lemma ReadHandled(store: seq<Word>, addr: Word, count: Word)
    ensures Handle(store, true, true, ReadRequest(addr, count))
         == (store, Some(ReadReply(ReadStore(store, addr, count))))
  {
    RequestFields(addr, count, []);
    assert ReadRequest(addr, count).payload == WordBytes(addr) + WordBytes(count) + [];
  }

  /** A long reply is cut by its own length field: the client never sees all registers. */
  lemma LongReadFails(unitId: Byte, regs: seq<Word>, txn: Word)
    requires |regs| > MAX_READ
    ensures SafeSize(ReadReply(Ok(regs))) && HasUnitByte(TcpFrame(unitId, ReadReply(Ok(regs)), txn))
    ensures ReadResult(ClientReply(TcpFrame(unitId, ReadReply(Ok(regs)), txn))) != Ok(regs)
  {
    var p := ReadReply(Ok(regs));
    assert |Encode(p)| == 2 + 2 * |regs|;
    EvenIsNotFull(1 + |regs|);
    UnwrapWrapped(unitId, p, txn);
    LengthCast(|Encode(p)|);
    var cut := Encode(p)[..ToWord(1 + |Encode(p)|) - 1];
    assert |cut| < |Encode(p)|;
    if |cut| >= 2 {
      assert Decode(cut) == Ok(MakeStandard(cut[0], cut[1..]));
    }
  }

  lemma ShortRead(unitId: Byte, r: Result<seq<Word>>, txn: Word)
    requires r.Ok? ==> |r.value| <= MAX_READ
    requires r.Err? ==> r == Err(ILLEGAL_DATA_ADDRESS)
    ensures HasUnitByte(TcpFrame(unitId, ReadReply(r), txn))
    ensures ReadResult(ClientReply(TcpFrame(unitId, ReadReply(r), txn))) == r
  {
    SmallReply(unitId, ReadReply(r), txn);
    if r.Ok? {
      var payload := ReadReply(r).payload;
      assert payload[1..] == PackWords(r.value);
      UnpackPack(r.value);
    }
  }

  /** A read over the wire returns what the array holds, or IllegalDataAddress, exactly when
      it is out of range or its reply fits the MBAP length; it never changes the array. */
  lemma ReadExact(store: seq<Word>, unitId: Byte, unit: Byte, txn: Word, addr: Word, count: Word)
    requires unit == unitId || unit == 0
    ensures
      var (s, r) := Transaction(store, true, true, unitId, unit, ReadRequest(addr, count), txn);
      s == store &&
      (ReadResult(r) == ReadStore(store, addr, count) <==> !Holds(store, addr, count) || count <= MAX_READ)
  {
    var p := ReadRequest(addr, count);
    SmallTransaction(store, unitId, unit, p, txn);
    ReadHandled(store, addr, count);
    var result := ReadStore(store, addr, count);
    if result.Ok? && count > MAX_READ {
      LongReadFails(unitId, result.value, txn);
    } else {
      ShortRead(unitId, result, txn);
    }
  }

  // ---- writes ----------------------------------------------------------------------------

  lemma WriteOneOnWire(store: seq<Word>, unitId: Byte, unit: Byte, txn: Word, addr: Word, value: Word)
    ensures WireStep(store, unitId, txn, WriteOne(unit, addr, value))
         == PlainStep(store, unitId, WriteOne(unit, addr, value))
  {
    var p := WriteSingleRequest(addr, value);
    SmallTransaction(store, unitId, unit, p, txn);
    RequestFields(addr, value, []);
    assert p.payload == WordBytes(addr) + WordBytes(value) + [];
    SmallReply(unitId, MakeStandard(WRITE_SINGLE_REGISTER, p.payload[..4]), txn);
  }

  /** How many of the registers of a write arrive: the length field counts the three words of
      the request and the registers modulo 32768. Below zero not even the request does. */
  function Arriving(values: seq<Word>): (n: int)
    ensures n <= |values|
    ensures |values| <= MAX_WRITE <==> n == |values|
  {
    (|values| + 3) % 0x8000 - 3
  }

  lemma EvenLength(c: nat)
    ensures ToWord(1 + (6 + 2 * c)) - 1 == 2 * ((c + 3) % 0x8000)
  {
    var q, r := (c + 3) / 0x8000, (c + 3) % 0x8000;
    assert 7 + 2 * c == 0x1_0000 * q + (2 * r + 1);
    WordUnique(7 + 2 * c, q, 2 * r + 1);
  }

  lemma WordUnique(n: nat, q: nat, r: nat)
    requires n == 0x1_0000 * q + r && r < 0x1_0000
    ensures ToWord(n) == r
  {
  }

  /** A write whose payload is cut off stores the registers that are complete. */
  lemma CutWriteHandled(store: seq<Word>, addr: Word, values: seq<Word>, m: nat, q: Pdu)
    requires 5 <= m <= |WriteMultipleRequest(addr, values).payload|
    requires q == WriteMultipleRequest(addr, values).(payload := WriteMultipleRequest(addr, values).payload[..m])
    ensures (m - 5) / 2 <= |values|
    ensures Handle(store, true, true, q)
         == (WriteStore(store, addr, values[..(m - 5) / 2]), Some(MakeStandard(WRITE_MULTIPLE_REGISTERS, q.payload[..4])))
  {
    var payload := WriteMultipleRequest(addr, values).payload;
    var header := WordBytes(addr) + WordBytes(ToWord(|values|)) + [ToByte(ToWord(2 * |values|))];
    assert payload == header + PackWords(values);
    assert payload[..m][5..] == PackWords(values)[..m - 5];
    UnpackCut(values, m - 5);
    assert payload[..m][0] == WordBytes(addr)[0] && payload[..m][1] == WordBytes(addr)[1];
  }

  /** A transaction in which `q` is what the server makes of the request. */
  lemma TransactionOf(store: seq<Word>, unitId: Byte, unit: Byte, p: Pdu, txn: Word, q: Result<Pdu>)
    requires (unit == unitId || unit == 0) && SafeSize(p)
    requires 0 <= ToWord(1 + |Encode(p)|) - 1 <= |Encode(p)| && q == Decode(Encode(p)[..ToWord(1 + |Encode(p)|) - 1])
    ensures q.Err? ==> Transaction(store, true, true, unitId, unit, p, txn) == (store, Err(TIMEOUT_EXPIRED))
    ensures q.Ok? && Handle(store, true, true, q.value).1.None? ==>
      Transaction(store, true, true, unitId, unit, p, txn)
        == (Handle(store, true, true, q.value).0, Err(TIMEOUT_EXPIRED))
    ensures q.Ok? && Handle(store, true, true, q.value).1.Some? ==>
      && HasUnitByte(TcpFrame(unitId, Handle(store, true, true, q.value).1.value, txn))
      && Transaction(store, true, true, unitId, unit, p, txn)
        == (Handle(store, true, true, q.value).0,
            ClientReply(TcpFrame(unitId, Handle(store, true, true, q.value).1.value, txn)))
  {
    UnwrapWrapped(unit, p, txn);
    RepliesAreSafe(store, true, true, unitId, TcpFrame(unit, p, txn));
  }

  lemma CutPdu(p: Pdu, n: nat)
    requires p.header.None? && p.functionCode == WRITE_MULTIPLE_REGISTERS && p.hmac.None? && n <= |Encode(p)|
    ensures Decode(Encode(p)[..n]) == if n == 0 then Err(INVALID_FRAME) else Ok(p.(payload := p.payload[..n - 1]))
  {
    if n > 0 {
      assert Encode(p)[..n][1..] == p.payload[..n - 1];
    }
  }

  /** The request as far as its length field reaches. */
  lemma CutRequest(addr: Word, values: seq<Word>, p: Pdu, n: int)
    requires p == WriteMultipleRequest(addr, values) && n == 2 * (Arriving(values) + 3)
    ensures SafeSize(p) && |Encode(p)| == |p.payload| + 1
    ensures 0 <= n == ToWord(1 + |Encode(p)|) - 1 <= |Encode(p)|
    ensures Decode(Encode(p)[..n]) == if n == 0 then Err(INVALID_FRAME) else Ok(p.(payload := p.payload[..n - 1]))
  {
    WriteRequestSize(addr, values);
    EvenLength(|values|);
    CutPdu(p, n);
  }

  lemma NothingArrives(store: seq<Word>, unitId: Byte, unit: Byte, txn: Word, addr: Word, values: seq<Word>, p: Pdu)
    requires (unit == unitId || unit == 0) && p == WriteMultipleRequest(addr, values) && Arriving(values) < 0
    ensures SafeSize(p) && Transaction(store, true, true, unitId, unit, p, txn) == (store, Err(TIMEOUT_EXPIRED))
  {
    var n := 2 * (Arriving(values) + 3);
    CutRequest(addr, values, p, n);
    TransactionOf(store, unitId, unit, p, txn, Decode(Encode(p)[..n]));
  }

  lemma TransactionReplies(store: seq<Word>, unitId: Byte, unit: Byte, p: Pdu, txn: Word, n: nat, q: Pdu,
                           after: seq<Word>, reply: Pdu)
    requires (unit == unitId || unit == 0) && SafeSize(p)
    requires n == ToWord(1 + |Encode(p)|) - 1 <= |Encode(p)| && Decode(Encode(p)[..n]) == Ok(q)
    requires Handle(store, true, true, q) == (after, Some(reply)) && Small(reply) && reply.functionCode < 0x80
    ensures Transaction(store, true, true, unitId, unit, p, txn) == (after, Ok(reply))
  {
    TransactionOf(store, unitId, unit, p, txn, Ok(q));
    SmallReply(unitId, reply, txn);
  }

  lemma SomethingArrives(store: seq<Word>, unitId: Byte, unit: Byte, txn: Word, addr: Word, values: seq<Word>,
                         p: Pdu, q: Pdu, reply: Pdu)
    requires (unit == unitId || unit == 0) && p == WriteMultipleRequest(addr, values) && Arriving(values) >= 0
    requires SafeSize(p) && 2 * Arriving(values) + 5 <= |p.payload|
    requires q == p.(payload := p.payload[..2 * Arriving(values) + 5])
    requires reply == MakeStandard(WRITE_MULTIPLE_REGISTERS, q.payload[..4])
    ensures Transaction(store, true, true, unitId, unit, p, txn)
         == (WriteStore(store, addr, values[..Arriving(values)]), Ok(reply))
  {
    var n := 2 * (Arriving(values) + 3);
    CutRequest(addr, values, p, n);
    CutWriteHandled(store, addr, values, n - 1, q);
    TransactionReplies(store, unitId, unit, p, txn, n, q, WriteStore(store, addr, values[..Arriving(values)]), reply);
  }

  /** What a write of any number of registers, in range or not, does over the wire. */
  lemma WriteManyExact(store: seq<Word>, unitId: Byte, unit: Byte, txn: Word, addr: Word, values: seq<Word>)
    requires unit == unitId || unit == 0
    ensures WireStep(store, unitId, txn, WriteMany(unit, addr, values)) ==
      if Arriving(values) < 0 then (store, WriteOutcome(Err(TIMEOUT_EXPIRED)))
      else (WriteStore(store, addr, values[..Arriving(values)]), WriteOutcome(Ok(())))
  {
    var p := WriteMultipleRequest(addr, values);
    if Arriving(values) < 0 {
      NothingArrives(store, unitId, unit, txn, addr, values, p);
    } else {
      CutRequest(addr, values, p, 2 * (Arriving(values) + 3));
      var q := p.(payload := p.payload[..2 * Arriving(values) + 5]);
      SomethingArrives(store, unitId, unit, txn, addr, values, p, q,
                       MakeStandard(WRITE_MULTIPLE_REGISTERS, q.payload[..4]));
    }
  }

  lemma WriteManyOnWire(store: seq<Word>, unitId: Byte, unit: Byte, txn: Word, addr: Word, values: seq<Word>)
    requires |values| <= MAX_WRITE
    ensures WireStep(store, unitId, txn, WriteMany(unit, addr, values))
         == PlainStep(store, unitId, WriteMany(unit, addr, values))
  {
    if unit == unitId || unit == 0 {
      WriteManyExact(store, unitId, unit, txn, addr, values);
      assert values[..|values|] == values;
    } else {
      WriteRequestSize(addr, values);
      SmallTransaction(store, unitId, unit, WriteMultipleRequest(addr, values), txn);
    }
  }

  /** A longer write never reaches its last register. */
  lemma LongWriteLosesLast(store: seq<Word>, unitId: Byte, unit: Byte, txn: Word, addr: Word, values: seq<Word>)
    requires (unit == unitId || unit == 0) && |values| > MAX_WRITE && Holds(store, addr, |values|)
    ensures
      var s := WireStep(store, unitId, txn, WriteMany(unit, addr, values)).0;
      var k := addr as int + |values| - 1;
      |s| == |store| && s[k] == store[k]
  {
    WriteManyExact(store, unitId, unit, txn, addr, values);
  }

  predicate WriteIsPlain(store: seq<Word>, unitId: Byte, txn: Word, op: Op)
  {
    WireStep(store, unitId, txn, op) == PlainStep(store, unitId, op)
  }

  lemma PlainWritesLast(store: seq<Word>, unitId: Byte, unit: Byte, addr: Word, values: seq<Word>, k: nat)
    requires (unit == unitId || unit == 0) && values != [] && k == addr as int + |values| - 1 && |store| == k + 1
    ensures |PlainStep(store, unitId, WriteMany(unit, addr, values)).0| == |store|
    ensures PlainStep(store, unitId, WriteMany(unit, addr, values)).0[k] == values[|values| - 1]
  {
  }

  lemma LongWriteDiffers(store: seq<Word>, unitId: Byte, unit: Byte, txn: Word, addr: Word, values: seq<Word>, k: nat)
    requires (unit == unitId || unit == 0) && |values| > MAX_WRITE
    requires k == addr as int + |values| - 1 && |store| == k + 1 && store[k] != values[|values| - 1]
    ensures !WriteIsPlain(store, unitId, txn, WriteMany(unit, addr, values))
  {
    LongWriteLosesLast(store, unitId, unit, txn, addr, values);
    PlainWritesLast(store, unitId, unit, addr, values, k);
  }

  /** A write is what it is on the plain array, whatever the array holds, if and only if it has
      at most 32764 registers. */
  lemma WriteManyIff(unitId: Byte, unit: Byte, txn: Word, addr: Word, values: seq<Word>)
    requires unit == unitId || unit == 0
    ensures (forall store: seq<Word> :: WriteIsPlain(store, unitId, txn, WriteMany(unit, addr, values)))
       <==> |values| <= MAX_WRITE
  {
    if |values| <= MAX_WRITE {
      forall store: seq<Word>
        ensures WriteIsPlain(store, unitId, txn, WriteMany(unit, addr, values))
      {
        WriteManyOnWire(store, unitId, unit, txn, addr, values);
      }
    } else {
      var k := addr as int + |values| - 1;
      var store: seq<Word> := seq(k + 1, _ => if values[|values| - 1] == 0 then 1 else 0);
      LongWriteDiffers(store, unitId, unit, txn, addr, values, k);
    }
  }

  // ---- refinement ---------------------------------------------------------------------------

  /** The PDU of the operation fits the MBAP length. */
  predicate Fits(size: nat, op: Op)
  {
    match op
    case Read(_, addr, count) => addr + count > size || count <= MAX_READ
    case WriteOne(_, _, _) => true
    case WriteMany(_, _, values) => |values| <= MAX_WRITE
  }

  lemma StepRefines(store: seq<Word>, unitId: Byte, txn: Word, op: Op)
    requires Fits(|store|, op)
    ensures WireStep(store, unitId, txn, op) == PlainStep(store, unitId, op)
    ensures |PlainStep(store, unitId, op).0| == |store|
  {
    match op
    case Read(unit, addr, count) =>
      if unit == unitId || unit == 0 {
        ReadExact(store, unitId, unit, txn, addr, count);
      } else {
        SmallTransaction(store, unitId, unit, ReadRequest(addr, count), txn);
      }
    case WriteOne(unit, addr, value) => WriteOneOnWire(store, unitId, unit, txn, addr, value);
    case WriteMany(unit, addr, values) => WriteManyOnWire(store, unitId, unit, txn, addr, values);
  }

  /** Every run of calls has the outcomes and the final contents of the same run on the bare
      array, whatever transaction ids it passes through. */
  lemma {:induction false} RunRefines(store: seq<Word>, unitId: Byte, txn: Word, ops: seq<Op>)
    requires forall op | op in ops :: Fits(|store|, op)
    ensures WireRun(store, unitId, txn, ops) == PlainRun(store, unitId, ops)
    decreases ops
  {
    if ops != [] {
      StepRefines(store, unitId, txn, ops[0]);
      RunRefines(PlainStep(store, unitId, ops[0]).0, unitId, ToWord(txn + 1), ops[1..]);
    }
  }

  /** A write whose request arrives is acknowledged; the registers that arrived are in the array
      exactly when their range lies inside it, and otherwise nothing has changed. */
  lemma AcknowledgedWrite(store: seq<Word>, unitId: Byte, txn: Word, addr: Word, values: seq<Word>, arrived: seq<Word>)
    requires Arriving(values) >= 0 && arrived == values[..Arriving(values)]
    ensures
      var (s, outcome) := WireStep(store, unitId, txn, WriteMany(unitId, addr, values));
      && outcome == WriteOutcome(Ok(())) && |s| == |store|
      && (Holds(s, addr, |arrived|) && s[addr..addr as int + |arrived|] == arrived <==> Holds(store, addr, |arrived|))
      && (!Holds(store, addr, |arrived|) ==> s == store)
  {
    WriteManyExact(store, unitId, unitId, txn, addr, values);
  }
}
