/** Where every field of a PDU and of a frame stands, byte by byte, and which bytes are refused. */
module WireLayout {
  import opened Bytes
  import opened PduCodec
  import opened FrameCodec
  import opened Crc16
  import opened TcpTransports

  /** The big-endian number in the two bytes at `i`. */
  function Two(bs: seq<Byte>, i: nat): nat
    requires i + 1 < |bs|
  {
    (bs[i] as nat) * 0x100 + bs[i + 1]
  }

  lemma TwoOfWord(bs: seq<Byte>, i: nat, w: Word)
    requires i + 1 < |bs| && bs[i..i + 2] == WordBytes(w)
    ensures Two(bs, i) == w
  {
    assert bs[i] == bs[i..i + 2][0] && bs[i + 1] == bs[i..i + 2][1];
  }

  lemma TwoIsJoin(bs: seq<Byte>, i: nat)
    requires i + 1 < |bs|
    ensures Join(bs[i], bs[i + 1]) == Two(bs, i)
  {
  }

  // ---- PDUs --------------------------------------------------------------------

  lemma StandardOnWire(p: Pdu)
    requires p.header.None?
    ensures |Encode(p)| == 1 + |p.payload| && Encode(p)[0] == p.functionCode && Encode(p)[1..] == p.payload
  {
  }

  /** A time before 1970 stands as its two's complement. */
  lemma TimestampOnWire(t: Timestamp)
    ensures |TimestampBytes(t)| == 8
    ensures FromBigEndian(TimestampBytes(t)) == if t >= 0 then t else 0x1_0000_0000_0000_0000 + t
  {
    BigEndianRoundTrip(8, Unsigned64(t));
  }

  /** The fields in front of the timestamp. */
  lemma HeaderOnWire(p: Pdu, h: FrameHeader, e: seq<Byte>)
    requires p.header == Some(h) && e == Encode(p)
    ensures |e| >= 9 && e[0] == 0x6E && e[1] == h.version && Two(e, 2) == h.flags && Two(e, 4) == h.correlationId
  {
    assert e[..6] == HeaderPrefix(h);
    assert e[2..4] == e[..6][2..4] == WordBytes(h.flags);
    assert e[4..6] == e[..6][4..6] == WordBytes(h.correlationId);
    TwoOfWord(e, 2, h.flags);
    TwoOfWord(e, 4, h.correlationId);
  }

  /** Where the extended function code stands: the timestamp is there if bit 0 says so. */
  function CodeAt(h: FrameHeader): nat { if h.flags % 2 == 1 && h.timestamp.Some? then 14 else 6 }

  /** The digest that is sent: bit 1 says so. */
  function Digested(p: Pdu, h: FrameHeader): seq<Byte>
  {
    if h.flags / 2 % 2 == 1 && p.hmac.Some? then p.hmac.value else []
  }

  lemma FlagBits(flags: Word)
    ensures HasTimestampFlag(flags) <==> flags % 2 == 1
    ensures HasHmacFlag(flags) <==> flags / 2 % 2 == 1
  {
  }

  lemma BodyParts(e: seq<Byte>, k: nat, code: seq<Byte>, payload: seq<Byte>, digest: seq<Byte>)
    requires k <= |e| && e[k..] == code + payload + digest
    ensures e[k..k + |code|] == code && e[k + |code|..k + |code| + |payload|] == payload
    ensures e[k + |code| + |payload|..] == digest
  {
    assert code == e[k..][..|code|] && payload == e[k..][|code|..|code| + |payload|];
    assert digest == e[k..][|code| + |payload|..];
  }

  /** The fields of an extended PDU behind the first six bytes. */
  lemma BodyOnWire(p: Pdu, h: FrameHeader, e: seq<Byte>, k: nat, n: nat)
    requires p.header == Some(h) && e == Encode(p) && k == CodeAt(h) && n == k + 3 + |p.payload|
    ensures |e| >= n && e[k] == h.extFunctionCode && Two(e, k + 1) == h.payloadLength
    ensures e[k + 3..n] == p.payload && e[n..] == Digested(p, h)
    ensures k == 14 && h.timestamp.value >= 0 ==> FromBigEndian(e[6..14]) == h.timestamp.value
    ensures k == 14 && h.timestamp.value < 0 ==> FromBigEndian(e[6..14]) == 0x1_0000_0000_0000_0000 + h.timestamp.value
  {
    FlagBits(h.flags);
    var front := HeaderPrefix(h) + TimestampPart(h);
    var code := [h.extFunctionCode] + WordBytes(h.payloadLength);
    assert e[k..] == Body(p);
    assert Body(p) == code + p.payload + Digested(p, h);
    BodyParts(e, k, code, p.payload, Digested(p, h));
    assert e[k + 1..k + 3] == e[k..k + 3][1..] == code[1..];
    TwoOfWord(e, k + 1, h.payloadLength);
    assert e[k] == code[0];
    if k == 14 {
      assert e[6..14] == TimestampBytes(h.timestamp.value);
      TimestampOnWire(h.timestamp.value);
    }
  }

  /** What `make_extended` fills in: the function code, the length, and the two flags of the parts
      that are present; everything else in the header stays as it is. */
  lemma MadeExtended(hdr: FrameHeader, payload: seq<Byte>, hmac: Option<Digest>, p: Pdu, h: FrameHeader)
    requires p == MakeExtended(hdr, payload, hmac) && p.header == Some(h)
    ensures p.functionCode == 0x6E && p.payload == payload && p.hmac == hmac
    ensures h == hdr.(flags := h.flags, payloadLength := |payload| % 0x1_0000) && h.flags / 4 == hdr.flags / 4
    ensures h.flags % 2 == 1 <==> hdr.timestamp.Some? || hdr.flags % 2 == 1
    ensures h.flags / 2 % 2 == 1 <==> hmac.Some? || hdr.flags / 2 % 2 == 1
  {
    FlagBits(hdr.flags);
    FlagBits(h.flags);
  }

  // ---- parsing -------------------------------------------------------------------

  predicate IsExtended(raw: seq<Byte>) { |raw| >= 1 && (raw[0] == 0x6E || raw[0] == 0x6F) }

  lemma StandardParsed(raw: seq<Byte>)
    requires !IsExtended(raw)
    ensures Decode(raw) == if raw == [] then Err(0x8D) else Ok(Pdu(raw[0], None, raw[1..], None))
  {
  }

  /** Where the extended function code is looked for, */
  function CodeIn(raw: seq<Byte>): nat
    requires |raw| >= 9
  {
    if raw[3] % 2 == 1 then 14 else 6
  }

  /** and how long the frame has to be. */
  predicate Complete(raw: seq<Byte>)
    requires |raw| >= 9
  {
    var k := CodeIn(raw);
    |raw| >= k + 3 && |raw| >= k + 3 + Two(raw, k + 1) + (if raw[3] / 2 % 2 == 1 then 32 else 0)
  }

  lemma FlagByte(hi: Byte, lo: Byte)
    ensures HasTimestampFlag(Join(hi, lo)) <==> lo % 2 == 1
    ensures HasHmacFlag(Join(hi, lo)) <==> lo / 2 % 2 == 1
  {
    var h: nat := hi;
    assert (h * 0x100 + lo) % 4 == lo % 4;
  }

  /** Extended bytes are accepted exactly if the version is 1 and all announced parts are there. */
  lemma ExtendedParsedIff(raw: seq<Byte>)
    requires IsExtended(raw)
    ensures |raw| < 9 ==> Decode(raw) == Err(0x8D)
    ensures |raw| >= 9 && raw[1] != 1 ==> Decode(raw) == Err(0x8A)
    ensures |raw| >= 9 && raw[1] == 1 ==> (Decode(raw).Ok? <==> Complete(raw))
    ensures |raw| >= 9 && raw[1] == 1 && Decode(raw).Err? ==> Decode(raw) == Err(0x8D)
    ensures Decode(raw).Ok? ==> Decode(raw).value.header.Some?
  {
    if |raw| >= 9 && raw[1] == 1 {
      FlagByte(raw[2], raw[3]);
      var k := CodeIn(raw);
      if |raw| >= k + 3 {
        assert raw[k..][1] == raw[k + 1] && raw[k..][2] == raw[k + 2];
      }
    }
  }

  /** Every field is taken from its own place. */
  lemma ExtendedParsed(raw: seq<Byte>, h: FrameHeader, k: nat, n: nat)
    requires IsExtended(raw) && Decode(raw).Ok? && Decode(raw).value.header == Some(h)
    requires |raw| >= 9 && Complete(raw) && k == CodeIn(raw) && n == k + 3 + Two(raw, k + 1)
    ensures h.version == 1 && h.flags == Two(raw, 2) && h.correlationId == Two(raw, 4)
    ensures h.extFunctionCode == raw[k] && h.payloadLength == Two(raw, k + 1)
    ensures h.timestamp.Some? <==> raw[3] % 2 == 1
    ensures h.timestamp.Some? ==> k == 14 && TimestampBytes(h.timestamp.value) == raw[6..14]
    ensures
      var p := Decode(raw).value;
      && p.functionCode == raw[0] && p.payload == raw[k + 3..n]
      && (p.hmac.Some? <==> raw[3] / 2 % 2 == 1)
      && (p.hmac.Some? ==> n + 32 <= |raw| && p.hmac.value == raw[n..n + 32])
  {
    DecodedFields(raw, h);
    FlagByte(raw[2], raw[3]);
    TwoIsJoin(raw, 2);
    TwoIsJoin(raw, 4);
    if h.timestamp.Some? {
      TimestampBytesRoundTrip(raw[6..14]);
    }
    BodyParsed(raw, h, k, n);
  }

  lemma BodyParsed(raw: seq<Byte>, h: FrameHeader, k: nat, n: nat)
    requires k + 2 < |raw| && n == k + 3 + Two(raw, k + 1) <= |raw|
    requires Decode(raw).Ok? && Decode(raw) == DecodeBody(raw[0], h.flags, h.correlationId, h.timestamp, raw[k..])
    ensures
      var p := Decode(raw).value;
      && p.header.Some? && p.header.value.extFunctionCode == raw[k] && p.header.value.payloadLength == Two(raw, k + 1)
      && p.functionCode == raw[0] && p.payload == raw[k + 3..n] && (p.hmac.Some? <==> HasHmacFlag(h.flags))
      && (p.hmac.Some? ==> n + 32 <= |raw| && p.hmac.value == raw[n..n + 32])
  {
    var rest := raw[k..];
    assert rest[0] == raw[k] && rest[1] == raw[k + 1] && rest[2] == raw[k + 2];
    TwoIsJoin(raw, k + 1);
    var len := Two(raw, k + 1);
    SliceOfTail(raw, k, 3, 3 + len);
    if HasHmacFlag(h.flags) {
      SliceOfTail(raw, k, 3 + len, 3 + len + 32);
    }
  }

  // ---- MBAP frames -----------------------------------------------------------------

  lemma TcpOnWire(unit: Byte, p: Pdu, txn: Word, f: seq<Byte>)
    requires f == TcpFrame(unit, p, txn)
    ensures |f| == 7 + |Encode(p)| && f[7..] == Encode(p) && f[6] == unit && f[2] == 0 && f[3] == 0
    ensures Two(f, 0) == txn && Two(f, 4) == (1 + |Encode(p)|) % 0x1_0000
  {
    TcpFrameParts(unit, p, txn);
  }

  /** What is too short for a header and a function code, carries a protocol id other than 0, or
      has fewer bytes than it announces. */
  predicate Malformed(frame: seq<Byte>)
  {
    |frame| < 8 || frame[2] != 0 || frame[3] != 0 || |frame| < 6 + Two(frame, 4)
  }

  /** Every such frame is refused, */
  lemma MalformedRejected(frame: seq<Byte>)
    requires Malformed(frame)
    ensures HasUnitByte(frame) && TcpUnwrap(frame) == Err(0x8D)
  {
  }

  /** and any other is what its announced bytes parse to. */
  lemma WellMadeUnwrapped(frame: seq<Byte>, n: nat)
    requires !Malformed(frame) && n == Two(frame, 4) >= 1
    ensures HasUnitByte(frame)
    ensures Decode(frame[7..6 + n]).Err? ==> TcpUnwrap(frame) == Err(Decode(frame[7..6 + n]).error)
    ensures Decode(frame[7..6 + n]).Ok? ==>
      TcpUnwrap(frame).Ok? && TcpUnwrap(frame).value.pdu == Decode(frame[7..6 + n]).value
      && TcpUnwrap(frame).value.unit == frame[6] && TcpUnwrap(frame).value.transactionId == Two(frame, 0)
  {
    TwoIsJoin(frame, 4);
    TwoIsJoin(frame, 0);
  }

  /** A frame cut anywhere is refused, standard or extended: the header says how long it is. */
  lemma CutFrameRejected(unit: Byte, p: Pdu, txn: Word, f: seq<Byte>, n: nat)
    requires |Encode(p)| < 0xFFFF && f == TcpFrame(unit, p, txn) && n < |f|
    ensures HasUnitByte(f[..n]) && TcpUnwrap(f[..n]) == Err(0x8D)
  {
    TcpOnWire(unit, p, txn, f);
    if n >= 8 {
      assert Two(f[..n], 4) == Two(f, 4);
    }
    MalformedRejected(f[..n]);
  }

  // ---- the stream --------------------------------------------------------------------

  /** A header whose length field is 0 costs its seven bytes and leaves the connection up. */
  lemma EmptyHeaderSkipped(header: seq<Byte>, rest: seq<Byte>)
    requires |header| == 7 && Two(header, 4) == 0
    ensures Received(header + rest) == (Err(0x8D), rest, true)
  {
    var stream := header + rest;
    assert stream[4] == header[4] && stream[5] == header[5];
    assert stream[7..] == rest;
  }

  /** Otherwise a receive takes exactly the announced bytes, or finds the stream ended. */
  lemma ReceivedExactly(stream: seq<Byte>, n: nat)
    requires |stream| >= 7 && n == 6 + Two(stream, 4) >= 7
    ensures |stream| >= n ==> Received(stream) == (Ok(stream[..n]), stream[n..], true)
    ensures |stream| < n ==> Received(stream) == (Err(0x87), [], false)
  {
    TwoIsJoin(stream, 4);
  }

  // ---- RTU frames -----------------------------------------------------------------------

  /** The checksum covers unit and PDU and follows them, low byte first. */
  lemma RtuOnWire(unit: Byte, p: Pdu, f: seq<Byte>, n: nat)
    requires f == RtuFrame(unit, p) && n == 1 + |Encode(p)|
    ensures |f| == n + 2 && f[0] == unit && f[1..n] == Encode(p)
    ensures Crc(f[..n]) == (f[n + 1] as int) * 0x100 + f[n]
  {
    var data := [unit] + Encode(p);
    assert f[..n] == data;
    assert f[n] == Crc(data) % 0x100 && f[n + 1] == Crc(data) / 0x100;
  }

  lemma RtuParsed(frame: seq<Byte>, n: nat)
    requires |frame| == n + 2
    ensures n < 2 ==> RtuUnwrap(frame) == Err(0x8D)
    ensures n >= 2 && Crc(frame[..n]) != (frame[n + 1] as int) * 0x100 + frame[n] ==> RtuUnwrap(frame) == Err(0x8E)
    ensures n >= 2 && Crc(frame[..n]) == (frame[n + 1] as int) * 0x100 + frame[n] ==>
      RtuUnwrap(frame) == match Decode(frame[1..n])
        case Err(e) => Err(e)
        case Ok(p) => Ok((frame[0], p))
  {
  }
}
