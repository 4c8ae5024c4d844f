/** Where the items of a batch and the registers of an event stand in their payloads. */
module PayloadLayout {
  import opened Bytes
  import opened PduCodec
  import opened Publishers
  import opened Subscribers
  import opened WireLayout
  import Requests = BatchRequests
  import Responses = BatchResponses

  // ---- batch requests ------------------------------------------------------------

  lemma {:induction false} ItemBytesAt(items: seq<Requests.BatchItem>, i: nat)
    requires i < |items|
    ensures Requests.EncodeItems(items)[6 * i..6 * i + 6] == Requests.EncodeItem(items[i])
  {
    if i > 0 {
      ItemBytesAt(items[1..], i - 1);
      SliceOfTail(Requests.EncodeItems(items), 6, 6 * (i - 1), 6 * (i - 1) + 6);
      assert Requests.EncodeItems(items)[6..] == Requests.EncodeItems(items[1..]);
    }
  }

  /** Two bytes of count, then six bytes an item: start, count, type and byte order. */
  lemma RequestOnWire(items: seq<Requests.BatchItem>, out: seq<Byte>, i: nat)
    requires out == Requests.EncodeRequest(items)
    ensures |out| == 2 + 6 * |items| && Two(out, 0) == |items| % 0x1_0000
    ensures i < |items| ==>
      && Two(out, 2 + 6 * i) == items[i].start && Two(out, 4 + 6 * i) == items[i].count
      && out[6 + 6 * i] == items[i].typeCode && out[7 + 6 * i] == items[i].order
  {
    var body := Requests.EncodeItems(items);
    assert out[0] == WordBytes(ToWord(|items|))[0] && out[1] == WordBytes(ToWord(|items|))[1];
    if i < |items| {
      ItemBytesAt(items, i);
      assert out[2..] == body;
      SliceOfTail(out, 2, 6 * i, 6 * i + 6);
      SixBytes(out, 2 + 6 * i, items[i]);
    }
  }

  lemma SixBytes(out: seq<Byte>, k: nat, x: Requests.BatchItem)
    requires k + 6 <= |out| && out[k..k + 6] == Requests.EncodeItem(x)
    ensures Two(out, k) == x.start && Two(out, k + 2) == x.count && out[k + 4] == x.typeCode && out[k + 5] == x.order
  {
    var bs := out[k..k + 6];
    assert bs[0] == out[k] && bs[1] == out[k + 1] && bs[2] == out[k + 2] && bs[3] == out[k + 3];
    assert bs[4] == out[k + 4] && bs[5] == out[k + 5];
    assert bs[..2] == WordBytes(x.start) && bs[2..4] == WordBytes(x.count);
    assert bs[2] == bs[2..4][0] && bs[3] == bs[2..4][1];
  }

  /** A request is accepted exactly if it is as long as its count says; */
  lemma RequestParsedIff(data: seq<Byte>)
    ensures Requests.DecodeRequest(data).Ok? <==> |data| >= 2 && |data| >= 2 + 6 * Two(data, 0)
    ensures Requests.DecodeRequest(data).Err? ==> Requests.DecodeRequest(data).error == 0x8F
    ensures Requests.DecodeRequest(data).Ok? ==> |Requests.DecodeRequest(data).value| == Two(data, 0)
  {
  }

  /** its items are read from where they stand. */
  lemma RequestParsedAt(data: seq<Byte>, i: nat)
    requires |data| >= 2 && |data| >= 2 + 6 * Two(data, 0) && i < Two(data, 0)
    ensures Requests.DecodeRequest(data).Ok? && |Requests.DecodeRequest(data).value| == Two(data, 0)
    ensures
      var x := Requests.DecodeRequest(data).value[i];
      && x.start == Two(data, 2 + 6 * i) && x.count == Two(data, 4 + 6 * i)
      && x.typeCode == data[6 + 6 * i] && x.order == data[7 + 6 * i]
  {
    ItemParsedAt(Two(data, 0), data[2..], i);
  }

  lemma {:induction false} ItemParsedAt(n: nat, bs: seq<Byte>, i: nat)
    requires i < n && 6 * n <= |bs|
    ensures
      var x := Requests.DecodeItems(n, bs)[i];
      && x.start == Two(bs, 6 * i) && x.count == Two(bs, 6 * i + 2)
      && x.typeCode == bs[6 * i + 4] && x.order == bs[6 * i + 5]
    decreases n
  {
    if i > 0 {
      ItemParsedAt(n - 1, bs[6..], i - 1);
    }
  }

  // ---- batch responses --------------------------------------------------------------

  /** Five bytes and the registers of every item before item `i`. */
  function ItemAt(rs: seq<Responses.ItemResult>, i: nat): nat
    requires i <= |rs|
  {
    if i == 0 then 0 else 5 + 2 * |rs[0].registers| + ItemAt(rs[1..], i - 1)
  }

  lemma {:induction false} ResultBytesAt(rs: seq<Responses.ItemResult>, i: nat)
    requires i < |rs|
    ensures ItemAt(rs, i) + 5 + 2 * |rs[i].registers| <= |Responses.EncodeItems(rs)|
    ensures Responses.EncodeItems(rs)[ItemAt(rs, i)..ItemAt(rs, i) + 5 + 2 * |rs[i].registers|]
         == Responses.EncodeItem(rs[i])
  {
    if i > 0 {
      var all, rest, k := Responses.EncodeItems(rs), Responses.EncodeItems(rs[1..]), 5 + 2 * |rs[0].registers|;
      ResultBytesAt(rs[1..], i - 1);
      assert all[k..] == rest;
      SliceOfTail(all, k, ItemAt(rs[1..], i - 1), ItemAt(rs[1..], i - 1) + 5 + 2 * |rs[i].registers|);
    }
  }

  /** Address, status and count, then the registers. */
  lemma ResultOnWire(r: Responses.ItemResult, bs: seq<Byte>, i: nat)
    requires bs == Responses.EncodeItem(r)
    ensures |bs| == 5 + 2 * |r.registers| && Two(bs, 0) == r.address && bs[2] == r.status % 0x100
    ensures Two(bs, 3) == |r.registers| % 0x1_0000
    ensures i < |r.registers| ==> Two(bs, 5 + 2 * i) == r.registers[i]
  {
    var h := Responses.ItemHeader(r);
    assert bs[..5] == h && bs[5..] == PackWords(r.registers);
    assert forall j | 0 <= j < 5 :: bs[j] == h[j];
    if i < |r.registers| {
      PackAt(r.registers, i);
      assert bs[5 + 2 * i] == bs[5..][2 * i] && bs[6 + 2 * i] == bs[5..][2 * i + 1];
    }
  }

  /** Two bytes of count, then the items one behind the other. */
  lemma ResponseOnWire(rs: seq<Responses.ItemResult>, out: seq<Byte>, i: nat)
    requires out == Responses.EncodeResponse(rs)
    ensures |out| >= 2 && Two(out, 0) == |rs| % 0x1_0000
    ensures i < |rs| ==>
      && 2 + ItemAt(rs, i) + 5 + 2 * |rs[i].registers| <= |out|
      && out[2 + ItemAt(rs, i)..2 + ItemAt(rs, i) + 5 + 2 * |rs[i].registers|] == Responses.EncodeItem(rs[i])
  {
    assert out[0] == WordBytes(ToWord(|rs|))[0] && out[1] == WordBytes(ToWord(|rs|))[1];
    if i < |rs| {
      ResultBytesAt(rs, i);
      assert out[2..] == Responses.EncodeItems(rs);
      SliceOfTail(out, 2, ItemAt(rs, i), ItemAt(rs, i) + 5 + 2 * |rs[i].registers|);
    }
  }

  /** An accepted response begins with the bytes of what was read from it. */
  lemma ResponseReencodes(data: seq<Byte>)
    requires Responses.DecodeResponse(data).Ok?
    ensures
      var out := Responses.EncodeResponse(Responses.DecodeResponse(data).value);
      |out| <= |data| && out == data[..|out|]
  {
    var n := Join(data[0], data[1]);
    var rs := Responses.DecodeResponse(data).value;
    ItemsReencode(n, data[2..]);
    Responses.DecodedItemsFit(n, data[2..]);
    CountReencodes(rs, data, Responses.EncodeItems(rs));
  }

  lemma CountReencodes(rs: seq<Responses.ItemResult>, data: seq<Byte>, body: seq<Byte>)
    requires |data| >= 2 && |rs| == Join(data[0], data[1]) && body == Responses.EncodeItems(rs)
    requires |body| <= |data| - 2 && body == data[2..][..|body|]
    ensures Responses.EncodeResponse(rs) == data[..2 + |body|]
  {
    JoinInjective(data[0], data[1]);
    assert WordBytes(ToWord(|rs|)) == data[..2];
    PrefixJoin(data, 2, |body|);
  }

  lemma {:induction false} ItemsReencode(n: nat, data: seq<Byte>)
    requires Responses.DecodeItems(n, data).Ok?
    ensures
      var out := Responses.EncodeItems(Responses.DecodeItems(n, data).value);
      |out| <= |data| && out == data[..|out|]
    decreases n
  {
    if n > 0 {
      var k := Responses.ItemSize(data);
      var rs := Responses.DecodeItems(n, data).value;
      ItemsReencode(n - 1, data[k..]);
      ItemReencodes(data);
      assert rs[1..] == Responses.DecodeItems(n - 1, data[k..]).value;
      var rest := Responses.EncodeItems(rs[1..]);
      assert Responses.EncodeItems(rs) == Responses.EncodeItem(rs[0]) + rest;
      PrefixJoin(data, k, |rest|);
    }
  }

  lemma PrefixJoin(data: seq<Byte>, k: nat, n: nat)
    requires k + n <= |data|
    ensures data[..k] + data[k..][..n] == data[..k + n]
  {
  }

  lemma ItemReencodes(data: seq<Byte>)
    requires |data| >= 5 && |data| >= Responses.ItemSize(data)
    ensures Responses.EncodeItem(Responses.DecodeItem(data)) == data[..Responses.ItemSize(data)]
  {
    var k := Responses.ItemSize(data);
    JoinInjective(data[0], data[1]);
    JoinInjective(data[3], data[4]);
    PackUnpack(data[5..k]);
    assert Responses.ItemHeader(Responses.DecodeItem(data)) == data[..5];
    assert data[..5] + data[5..k] == data[..k];
  }

  /** A response is accepted exactly if it begins with the bytes of some response that fits the format. */
  lemma ResponseParsedIff(data: seq<Byte>)
    ensures Responses.DecodeResponse(data).Ok? <==>
      exists rs :: Responses.Fits(rs) && Responses.EncodeResponse(rs) <= data
    ensures Responses.DecodeResponse(data).Err? ==> Responses.DecodeResponse(data).error == 0x8F
  {
    if Responses.DecodeResponse(data).Ok? {
      var rs := Responses.DecodeResponse(data).value;
      ResponseReencodes(data);
      Responses.DecodedItemsFit(Join(data[0], data[1]), data[2..]);
      assert Responses.Fits(rs) && Responses.EncodeResponse(rs) <= data;
    } else if |data| >= 2 {
      ItemsError(Join(data[0], data[1]), data[2..]);
    }
    if rs :| Responses.Fits(rs) && Responses.EncodeResponse(rs) <= data {
      var k := |Responses.EncodeResponse(rs)|;
      Responses.ResponseRoundTripIff(rs, data[k..]);
      assert Responses.EncodeResponse(rs) + data[k..] == data;
    }
  }

  lemma {:induction false} ItemsError(n: nat, data: seq<Byte>)
    requires Responses.DecodeItems(n, data).Err?
    ensures Responses.DecodeItems(n, data).error == 0x8F
    decreases n
  {
    if n > 0 && |data| >= 5 && |data| >= Responses.ItemSize(data) {
      ItemsError(n - 1, data[Responses.ItemSize(data)..]);
    }
  }

  // ---- events ----------------------------------------------------------------------------

  /** Id, start and count in eight bytes, then the registers. */
  lemma EventPayloadOnWire(n: Notification, p: seq<Byte>, i: nat)
    requires p == EventPayload(n) && n.id < 0x1_0000_0000
    ensures |p| == 8 + 2 * |n.current|
    ensures FromBigEndian(p[..4]) == n.id && Two(p, 4) == n.start && Two(p, 6) == |n.current| % 0x1_0000
    ensures i < |n.current| ==> Two(p, 8 + 2 * i) == n.current[i]
  {
    assert p[..4] == BigEndian(4, n.id);
    Pow256Values();
    BigEndianRoundTrip(4, n.id);
    assert p[4..6] == WordBytes(n.start) && p[6..8] == WordBytes(ToWord(|n.current|));
    TwoOfWord(p, 4, n.start);
    TwoOfWord(p, 6, ToWord(|n.current|));
    if i < |n.current| {
      PackAt(n.current, i);
      assert p[8..] == PackWords(n.current);
      assert p[8 + 2 * i] == p[8..][2 * i] && p[9 + 2 * i] == p[8..][2 * i + 1];
    }
  }

  lemma StampedHeader(t: Timestamp, code: Byte, payload: seq<Byte>, p: Pdu)
    requires p == MakeExtended(FrameHeader(1, 0, 0, Some(t), code, 0), payload, None)
    ensures p == Pdu(0x6E, Some(FrameHeader(1, 1, 0, Some(t), code, |payload| % 0x1_0000)), payload, None)
  {
  }

  /** The frame around it: version 1, a timestamp, no correlation id, extended function 5. */
  lemma EventOnWire(n: Notification, payload: seq<Byte>, p: Pdu)
    requires payload == EventPayload(n) && p == EventPdu(n)
    ensures EventFrame(n) == Encode(p)
    ensures p == Pdu(0x6E, Some(FrameHeader(1, 1, 0, Some(n.timestamp), 5, |payload| % 0x1_0000)), payload, None)
  {
    StampedHeader(n.timestamp, 5, payload, p);
  }

  /** A frame is an event exactly if it parses, has an extended header with function code 5, and
      carries at least eight bytes. */
  lemma EventParsedIff(frame: seq<Byte>, now: Timestamp)
    ensures DecodeEvent(frame, now).Some? <==>
      && Decode(frame).Ok? && Decode(frame).value.header.Some?
      && Decode(frame).value.header.value.extFunctionCode == 5 && |Decode(frame).value.payload| >= 8
  {
  }

  /** What is handed to the handler; without a timestamp the receiver's clock is read. */
  lemma EventParsed(frame: seq<Byte>, now: Timestamp, p: Pdu, h: FrameHeader, e: Event)
    requires Decode(frame) == Ok(p) && p.header == Some(h) && DecodeEvent(frame, now) == Some(e)
    ensures |p.payload| >= 8 && e.id == FromBigEndian(p.payload[..4]) && e.start == Two(p.payload, 4)
    ensures h.timestamp.Some? ==> e.timestamp == h.timestamp.value
    ensures h.timestamp.None? ==> e.timestamp == now
    ensures |e.values| <= Two(p.payload, 6) && 8 + 2 * |e.values| <= |p.payload|
    ensures |e.values| == Two(p.payload, 6) || 8 + 2 * |e.values| + 1 >= |p.payload|
    ensures forall i | 0 <= i < |e.values| :: e.values[i] == Two(p.payload, 8 + 2 * i)
  {
    TwoIsJoin(p.payload, 4);
    TwoIsJoin(p.payload, 6);
    forall i | 0 <= i < |e.values|
      ensures e.values[i] == Two(p.payload, 8 + 2 * i)
    {
      UnpackAt(p.payload[8..], i);
    }
  }
}
