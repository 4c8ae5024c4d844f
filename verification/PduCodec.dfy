/**
 The protocol data unit: standard Modbus PDUs `[fc][data]` and the extended frame
 `[0x6E][version][flags:2][correlation:2][timestamp?:8][extFc][length:2][payload][hmac?:32]`.
 */
module PduCodec {
  import opened Bytes

  const EXTENDED: Byte := 0x6E
  const EXTENDED_STREAM: Byte := 0x6F

  const READ_HOLDING_REGISTERS: Byte := 0x03
  const WRITE_SINGLE_REGISTER: Byte := 0x06
  const WRITE_MULTIPLE_REGISTERS: Byte := 0x10

  const EVENT_NOTIFICATION: Byte := 0x05
  const PIPELINE_BEGIN: Byte := 0x0A

  /** Microseconds since the epoch, a signed 64-bit integer. */
  type Timestamp = t: int | -0x8000_0000_0000_0000 <= t < 0x8000_0000_0000_0000
  type Digest = d: seq<Byte> | |d| == 32 witness seq(32, _ => 0)

  datatype FrameHeader = FrameHeader(
    version: Byte,
    flags: Word,
    correlationId: Word,
    timestamp: Option<Timestamp>,
    extFunctionCode: Byte,
    payloadLength: Word)

  datatype Pdu = Pdu(
    functionCode: Byte,
    header: Option<FrameHeader>,
    payload: seq<Byte>,
    hmac: Option<Digest>)

  // ---- flags -------------------------------------------------------------

  // Bit 0 and bit 1.
  predicate HasTimestampFlag(flags: Word) { flags % 4 == 1 || flags % 4 == 3 }
  predicate HasHmacFlag(flags: Word) { flags % 4 >= 2 }

  function SetTimestampFlag(flags: Word): (r: Word)
    ensures HasTimestampFlag(r) && HasHmacFlag(r) == HasHmacFlag(flags) && r / 4 == flags / 4
  {
    if HasTimestampFlag(flags) then flags else flags + 1
  }

  function SetHmacFlag(flags: Word): (r: Word)
    ensures HasHmacFlag(r) && HasTimestampFlag(r) == HasTimestampFlag(flags) && r / 4 == flags / 4
  {
    if HasHmacFlag(flags) then flags else flags + 2
  }

  // ---- timestamps ----------------------------------------------------------

  function Unsigned64(t: Timestamp): (v: nat)
    ensures v < Pow256(8)
  {
    Pow256Values();
    if t < 0 then t + 0x1_0000_0000_0000_0000 else t
  }

  function TimestampBytes(t: Timestamp): (bs: seq<Byte>)
    ensures |bs| == 8
  {
    BigEndian(8, Unsigned64(t))
  }

  function TimestampOf(bs: seq<Byte>): Timestamp
    requires |bs| == 8
  {
    FromBigEndianRoundTrip(bs);
    Pow256Values();
    var v := FromBigEndian(bs);
    if v >= 0x8000_0000_0000_0000 then v - 0x1_0000_0000_0000_0000 else v
  }

  lemma TimestampRoundTrip(t: Timestamp)
    ensures TimestampOf(TimestampBytes(t)) == t
  {
    BigEndianRoundTrip(8, Unsigned64(t));
    Pow256Values();
  }

  lemma TimestampBytesRoundTrip(bs: seq<Byte>)
    requires |bs| == 8
    ensures TimestampBytes(TimestampOf(bs)) == bs
  {
    FromBigEndianRoundTrip(bs);
    Pow256Values();
  }

  /** `Timestamp::serialize`: fills the buffer from its last byte backwards. */
  method SerializeTimestamp(t: Timestamp) returns (buf: seq<Byte>)
    ensures buf == TimestampBytes(t)
  {
    buf := [];
    var val := Unsigned64(t);
    for i := 8 downto 0
      invariant TimestampBytes(t) == BigEndian(i, val) + buf
    {
      assert BigEndian(i + 1, val) + buf == BigEndian(i, val / 0x100) + ([val % 0x100] + buf);
      buf := [val % 0x100] + buf;
      val := val / 0x100;
    }
  }

  /** `Timestamp::deserialize`: shifts the bytes in, first byte first. */
  method DeserializeTimestamp(data: seq<Byte>) returns (t: Timestamp)
    requires |data| == 8
    ensures t == TimestampOf(data)
  {
    var val: nat := 0;
    for i := 0 to 8
      invariant val == FromBigEndian(data[..i])
    {
      assert data[..i + 1][..i] == data[..i];
      val := val * 0x100 + data[i];
    }
    assert data[..8] == data;
    FromBigEndianRoundTrip(data);
    Pow256Values();
    t := if val >= 0x8000_0000_0000_0000 then val - 0x1_0000_0000_0000_0000 else val;
  }

  // ---- construction -----------------------------------------------------------

  function MakeStandard(fc: Byte, data: seq<Byte>): Pdu { Pdu(fc, None, data, None) }

  /** Sets the length and raises the flags of the parts that are present; it never lowers
      a flag, and the length is cast to 16 bits. */
  function MakeExtended(hdr: FrameHeader, payload: seq<Byte>, hmac: Option<Digest>): Pdu
  {
    var f1 := if hdr.timestamp.Some? then SetTimestampFlag(hdr.flags) else hdr.flags;
    var f2 := if hmac.Some? then SetHmacFlag(f1) else f1;
    Pdu(EXTENDED, Some(hdr.(flags := f2, payloadLength := ToWord(|payload|))), payload, hmac)
  }

  // ---- the wire format --------------------------------------------------------

  function TimestampPart(hdr: FrameHeader): seq<Byte>
  {
    if HasTimestampFlag(hdr.flags) && hdr.timestamp.Some?
    then TimestampBytes(hdr.timestamp.value) else []
  }

  function HmacPart(hdr: FrameHeader, hmac: Option<Digest>): seq<Byte>
  {
    if HasHmacFlag(hdr.flags) && hmac.Some? then hmac.value else []
  }

  function HeaderPrefix(hdr: FrameHeader): seq<Byte>
  {
    [EXTENDED, hdr.version] + WordBytes(hdr.flags) + WordBytes(hdr.correlationId)
  }

  function Body(p: Pdu): seq<Byte>
    requires p.header.Some?
  {
    [p.header.value.extFunctionCode] + WordBytes(p.header.value.payloadLength)
    + p.payload + HmacPart(p.header.value, p.hmac)
  }

  function Encode(p: Pdu): (out: seq<Byte>)
    ensures |out| >= 1
  {
    if p.header.None? then [p.functionCode] + p.payload
    else HeaderPrefix(p.header.value) + TimestampPart(p.header.value) + Body(p)
  }

  function Decode(raw: seq<Byte>): Result<Pdu>
  {
    if |raw| < 1 then Err(INVALID_FRAME)
    else if raw[0] != EXTENDED && raw[0] != EXTENDED_STREAM then Ok(MakeStandard(raw[0], raw[1..]))
    else if |raw| < 9 then Err(INVALID_FRAME)
    else if raw[1] != 1 then Err(UNSUPPORTED_VERSION)
    else
      var flags, corr := Join(raw[2], raw[3]), Join(raw[4], raw[5]);
      if HasTimestampFlag(flags) then
        if |raw| < 14 then Err(INVALID_FRAME)
        else DecodeBody(raw[0], flags, corr, Some(TimestampOf(raw[6..14])), raw[14..])
      else DecodeBody(raw[0], flags, corr, None, raw[6..])
  }

  function DecodeBody(fc: Byte, flags: Word, corr: Word, ts: Option<Timestamp>, rest: seq<Byte>)
    : Result<Pdu>
  {
    if |rest| < 3 then Err(INVALID_FRAME)
    else
      var len := Join(rest[1], rest[2]);
      var hdr := FrameHeader(1, flags, corr, ts, rest[0], len);
      if |rest| < 3 + len then Err(INVALID_FRAME)
      else if !HasHmacFlag(flags) then Ok(Pdu(fc, Some(hdr), rest[3..3 + len], None))
      else if |rest| < 3 + len + 32 then Err(INVALID_FRAME)
      else Ok(Pdu(fc, Some(hdr), rest[3..3 + len], Some(rest[3 + len..3 + len + 32])))
  }

  /** `PDU::serialize`: appends the parts one after the other. */
  method Serialize(p: Pdu) returns (out: seq<Byte>)
    ensures out == Encode(p)
  {
    if p.header.None? {
      out := [p.functionCode];
      out := out + p.payload;
      return;
    }
    var hdr := p.header.value;
    out := [EXTENDED];
    out := out + [hdr.version];
    out := out + [hdr.flags / 0x100] + [hdr.flags % 0x100];
    out := out + [hdr.correlationId / 0x100] + [hdr.correlationId % 0x100];
    assert out == HeaderPrefix(hdr);
    if HasTimestampFlag(hdr.flags) && hdr.timestamp.Some? {
      var ts := SerializeTimestamp(hdr.timestamp.value);
      out := out + ts;
    }
    ghost var front := out;
    assert front == HeaderPrefix(hdr) + TimestampPart(hdr);
    out := out + [hdr.extFunctionCode];
    out := out + [hdr.payloadLength / 0x100] + [hdr.payloadLength % 0x100];
    out := out + p.payload;
    assert out == front + ([hdr.extFunctionCode] + WordBytes(hdr.payloadLength) + p.payload);
    if HasHmacFlag(hdr.flags) && p.hmac.Some? {
      out := out + p.hmac.value;
    }
    assert out == (HeaderPrefix(hdr) + TimestampPart(hdr)) + Body(p);
  }

  /** `PDU::deserialize`: advances an offset through the raw bytes. */
  method Deserialize(raw: seq<Byte>) returns (r: Result<Pdu>)
    ensures r == Decode(raw)
  {
    if |raw| < 1 {
      return Err(INVALID_FRAME);
    }
    var fc := raw[0];
    if fc != EXTENDED && fc != EXTENDED_STREAM {
      return Ok(MakeStandard(fc, raw[1..]));
    }
    if |raw| < 9 {
      return Err(INVALID_FRAME);
    }
    var offset: nat := 1;
    var version := raw[offset];
    offset := offset + 1;
    if version != 1 {
      return Err(UNSUPPORTED_VERSION);
    }
    var flags := Join(raw[offset], raw[offset + 1]);
    offset := offset + 2;
    var corr := Join(raw[offset], raw[offset + 1]);
    offset := offset + 2;
    var ts: Option<Timestamp> := None;
    if HasTimestampFlag(flags) {
      if |raw| < offset + 8 {
        return Err(INVALID_FRAME);
      }
      var t := DeserializeTimestamp(raw[offset..offset + 8]);
      ts := Some(t);
      offset := offset + 8;
    }
    ghost var rest, k := raw[offset..], offset;
    assert Decode(raw) == DecodeBody(fc, flags, corr, ts, rest);
    if |raw| < offset + 3 {
      return Err(INVALID_FRAME);
    }
    var ext := raw[offset];
    offset := offset + 1;
    var len: nat := Join(raw[offset], raw[offset + 1]);
    offset := offset + 2;
    if |raw| < offset + len {
      return Err(INVALID_FRAME);
    }
    var payload := raw[offset..offset + len];
    SliceOfTail(raw, k, 3, 3 + len);
    offset := offset + len;
    var hmac: Option<Digest> := None;
    if HasHmacFlag(flags) {
      if |raw| < offset + 32 {
        return Err(INVALID_FRAME);
      }
      hmac := Some(raw[offset..offset + 32]);
      SliceOfTail(raw, k, 3 + len, 3 + len + 32);
    }
    r := Ok(Pdu(fc, Some(FrameHeader(1, flags, corr, ts, ext, len)), payload, hmac));
  }

  // ---- round trips -----------------------------------------------------------------

  /** What a PDU must satisfy to survive the wire. */
  predicate WellFormed(p: Pdu)
  {
    if p.header.None? then
      p.functionCode != EXTENDED && p.functionCode != EXTENDED_STREAM && p.hmac.None?
    else
      var h := p.header.value;
      && p.functionCode == EXTENDED
      && h.version == 1
      && HasTimestampFlag(h.flags) == h.timestamp.Some?
      && HasHmacFlag(h.flags) == p.hmac.Some?
      && h.payloadLength == |p.payload|
  }

  /** The header and the optional timestamp, followed by anything. */
  lemma DecodeHeader(fc: Byte, h: FrameHeader, rest: seq<Byte>)
    requires fc == EXTENDED || fc == EXTENDED_STREAM
    requires h.version == 1 && HasTimestampFlag(h.flags) == h.timestamp.Some? && |rest| >= 3
    ensures Decode([fc] + HeaderPrefix(h)[1..] + TimestampPart(h) + rest)
         == DecodeBody(fc, h.flags, h.correlationId, h.timestamp, rest)
  {
    var raw := [fc] + HeaderPrefix(h)[1..] + TimestampPart(h) + rest;
    assert raw[..6] == [fc] + HeaderPrefix(h)[1..];
    if h.timestamp.Some? {
      assert raw[6..14] == TimestampBytes(h.timestamp.value);
      TimestampRoundTrip(h.timestamp.value);
      assert raw[14..] == rest;
    } else {
      assert raw[6..] == rest;
    }
  }

  lemma DecodeEncodedBody(p: Pdu, tail: seq<Byte>)
    requires WellFormed(p) && p.header.Some?
    ensures var h := p.header.value;
      DecodeBody(EXTENDED, h.flags, h.correlationId, h.timestamp, Body(p) + tail) == Ok(p)
  {
    var rest := Body(p) + tail;
    assert rest[3..3 + |p.payload|] == p.payload;
    if p.hmac.Some? {
      assert rest[3 + |p.payload|..3 + |p.payload| + 32] == p.hmac.value;
    }
  }

  /** The extended format is self-delimiting: whatever follows is left alone. */
  lemma DecodeEncodeExtended(p: Pdu, tail: seq<Byte>)
    requires WellFormed(p) && p.header.Some?
    ensures Decode(Encode(p) + tail) == Ok(p)
  {
    var h := p.header.value;
    DecodeHeader(EXTENDED, h, Body(p) + tail);
    DecodeEncodedBody(p, tail);
    assert [EXTENDED] + HeaderPrefix(h)[1..] == HeaderPrefix(h);
    Concat(HeaderPrefix(h) + TimestampPart(h), Body(p), tail);
  }

  lemma ShortenedBody(p: Pdu, len: nat)
    requires p.header.Some? && p.functionCode == EXTENDED && p.hmac.None? && p.header.value.version == 1
    requires !HasHmacFlag(p.header.value.flags) && len == p.header.value.payloadLength <= |p.payload|
    ensures var h := p.header.value;
      DecodeBody(EXTENDED, h.flags, h.correlationId, h.timestamp, Body(p)) == Ok(p.(payload := p.payload[..len]))
  {
    assert Body(p)[3..3 + len] == p.payload[..len];
  }

  /** A length field below the payload's real size: the receiver takes that many bytes and
      ignores the others. */
  lemma DecodeShortened(p: Pdu)
    requires p.header.Some? && p.functionCode == EXTENDED && p.hmac.None?
    requires p.header.value.version == 1 && !HasHmacFlag(p.header.value.flags)
    requires HasTimestampFlag(p.header.value.flags) == p.header.value.timestamp.Some?
    requires p.header.value.payloadLength <= |p.payload|
    ensures Decode(Encode(p)) == Ok(p.(payload := p.payload[..p.header.value.payloadLength]))
  {
    var h := p.header.value;
    DecodeHeader(EXTENDED, h, Body(p));
    assert [EXTENDED] + HeaderPrefix(h)[1..] == HeaderPrefix(h);
    ShortenedBody(p, h.payloadLength);
  }

  lemma CutBody(p: Pdu, m: nat)
    requires WellFormed(p) && p.header.Some? && m < |Body(p)|
    ensures var h := p.header.value;
      DecodeBody(EXTENDED, h.flags, h.correlationId, h.timestamp, Body(p)[..m]) == Err(INVALID_FRAME)
  {
  }

  lemma CutHeader(h: FrameHeader, tail: seq<Byte>, n: nat)
    requires h.version == 1 && HasTimestampFlag(h.flags) == h.timestamp.Some?
    requires n < 9 + |TimestampPart(h)| && n <= 6 + |TimestampPart(h)| + |tail|
    ensures Decode((HeaderPrefix(h) + TimestampPart(h) + tail)[..n]) == Err(INVALID_FRAME)
  {
    if n >= 9 {
      assert (HeaderPrefix(h) + TimestampPart(h) + tail)[..n][..6] == HeaderPrefix(h);
    }
  }

  /** A cut anywhere inside an extended frame is noticed. */
  lemma ProperPrefixRejected(p: Pdu, n: nat)
    requires WellFormed(p) && p.header.Some? && n < |Encode(p)|
    ensures Decode(Encode(p)[..n]) == Err(INVALID_FRAME)
  {
    var h := p.header.value;
    var front := HeaderPrefix(h) + TimestampPart(h);
    if n < |front| + 3 {
      CutHeader(h, Body(p), n);
    } else {
      var rest := Body(p)[..n - |front|];
      assert Encode(p)[..n] == front + rest;
      assert [EXTENDED] + HeaderPrefix(h)[1..] == HeaderPrefix(h);
      DecodeHeader(EXTENDED, h, rest);
      CutBody(p, n - |front|);
    }
  }

  /** Exactly the well-formed PDUs survive the wire. */
  lemma RoundTripIff(p: Pdu)
    ensures Decode(Encode(p)) == Ok(p) <==> WellFormed(p)
  {
    if WellFormed(p) && p.header.Some? {
      DecodeEncodeExtended(p, []);
      assert Encode(p) + [] == Encode(p);
    } else if p.header.Some? {
      var h := p.header.value;
      assert Encode(p)[..6] == HeaderPrefix(h);
    }
  }

  /** `make_extended` yields a well-formed frame exactly when the version is 1, the payload
      fits 16 bits and no flag was raised beforehand for a part that is missing. */
  lemma MakeExtendedWellFormed(hdr: FrameHeader, payload: seq<Byte>, hmac: Option<Digest>)
    ensures WellFormed(MakeExtended(hdr, payload, hmac)) <==>
      && hdr.version == 1 && |payload| < 0x1_0000
      && (HasTimestampFlag(hdr.flags) ==> hdr.timestamp.Some?)
      && (HasHmacFlag(hdr.flags) ==> hmac.Some?)
  {
    var p := MakeExtended(hdr, payload, hmac);
    assert p.header.value.payloadLength == |payload| <==> |payload| < 0x1_0000;
  }

  lemma BodyOfDecoded(fc: Byte, flags: Word, corr: Word, ts: Option<Timestamp>, rest: seq<Byte>)
    requires DecodeBody(fc, flags, corr, ts, rest).Ok?
    ensures
      var p := DecodeBody(fc, flags, corr, ts, rest).value;
      && p.header.Some? && |Body(p)| <= |rest| && Body(p) == rest[..|Body(p)|]
      && p.header.value.payloadLength == |p.payload|
      && HasHmacFlag(p.header.value.flags) == p.hmac.Some?
  {
    JoinInjective(rest[1], rest[2]);
    var p := DecodeBody(fc, flags, corr, ts, rest).value;
    var len: nat := p.header.value.payloadLength;
    assert [rest[0]] + WordBytes(len) == rest[..3];
    assert rest[..3] + rest[3..3 + len] == rest[..3 + len];
    if p.hmac.Some? {
      assert rest[..3 + len] + rest[3 + len..3 + len + 32] == rest[..3 + len + 32];
    } else {
      assert rest[..3 + len] + [] == rest[..3 + len];
    }
  }

  /** The fields of a parsed header, where they stood. */
  lemma DecodedFields(raw: seq<Byte>, h: FrameHeader)
    requires Decode(raw).Ok? && Decode(raw).value.header == Some(h)
    ensures |raw| >= 9 && h.version == raw[1] == 1
    ensures h.flags == Join(raw[2], raw[3]) && h.correlationId == Join(raw[4], raw[5])
    ensures HasTimestampFlag(h.flags) == h.timestamp.Some?
    ensures h.timestamp.None? ==> Decode(raw) == DecodeBody(raw[0], h.flags, h.correlationId, None, raw[6..])
    ensures h.timestamp.Some? ==> |raw| >= 14 && h.timestamp.value == TimestampOf(raw[6..14])
    ensures h.timestamp.Some? ==> Decode(raw) == DecodeBody(raw[0], h.flags, h.correlationId, h.timestamp, raw[14..])
  {
  }

  lemma HeaderOfDecoded(raw: seq<Byte>, h: FrameHeader, k: nat)
    requires Decode(raw).Ok? && Decode(raw).value.header == Some(h) && k == 6 + |TimestampPart(h)|
    ensures k <= |raw| && HeaderPrefix(h)[1..] + TimestampPart(h) == raw[1..k]
    ensures Decode(raw) == DecodeBody(raw[0], h.flags, h.correlationId, h.timestamp, raw[k..])
  {
    DecodedFields(raw, h);
    JoinInjective(raw[2], raw[3]);
    JoinInjective(raw[4], raw[5]);
    assert HeaderPrefix(h)[1..] == raw[1..6];
    if h.timestamp.Some? {
      TimestampBytesRoundTrip(raw[6..14]);
      assert raw[1..6] + raw[6..14] == raw[1..14];
    }
  }

  lemma EncodeDecodeExtended(raw: seq<Byte>)
    requires Decode(raw).Ok? && Decode(raw).value.header.Some?
    ensures
      var p := Decode(raw).value;
      && |Encode(p)| <= |raw| && Encode(p)[1..] == raw[1..|Encode(p)|]
      && p.functionCode == raw[0] && WellFormed(p.(functionCode := EXTENDED))
  {
    var p := Decode(raw).value;
    var h := p.header.value;
    var front := HeaderPrefix(h) + TimestampPart(h);
    var k := |front|;
    DecodedFields(raw, h);
    HeaderOfDecoded(raw, h, k);
    BodyOfDecoded(raw[0], h.flags, h.correlationId, h.timestamp, raw[k..]);
    DropFirst(HeaderPrefix(h), TimestampPart(h));
    DropFirst(front, Body(p));
    Slices(raw, 1, k, k + |Body(p)|);
  }

  /** Re-encoding a parsed PDU gives the bytes that were read, up to where it ends, except
      that a 0x6F frame is written back as 0x6E. */
  lemma EncodeDecode(raw: seq<Byte>)
    requires Decode(raw).Ok?
    ensures
      var p := Decode(raw).value;
      if p.header.None? then Encode(p) == raw
      else && |Encode(p)| <= |raw| && Encode(p)[1..] == raw[1..|Encode(p)|]
           && p.functionCode == raw[0] && WellFormed(p.(functionCode := EXTENDED))
  {
    if Decode(raw).value.header.Some? {
      EncodeDecodeExtended(raw);
    }
  }

  /** No cut-off standard PDU is noticed: the format carries no length. */
  lemma StandardPrefixAccepted(p: Pdu, n: nat)
    requires WellFormed(p) && p.header.None? && 1 <= n <= |Encode(p)|
    ensures Decode(Encode(p)[..n]) == Ok(MakeStandard(p.functionCode, p.payload[..n - 1]))
  {
    assert Encode(p)[..n][1..] == p.payload[..n - 1];
  }
}
