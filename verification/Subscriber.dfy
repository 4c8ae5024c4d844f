/** Event dispatch on the client. */
module Subscribers {
  import opened Bytes
  import opened PduCodec
  import opened Loopback
  import opened Publishers

  datatype Event = Event(id: nat, start: Word, timestamp: Timestamp, values: seq<Word>)

  /** The registers announced by the count, as far as the payload holds them. */
  function EventValues(payload: seq<Byte>): seq<Word>
    requires |payload| >= 8
  {
    var available := UnpackWords(payload[8..]);
    var announced := Join(payload[6], payload[7]);
    if announced < |available| then available[..announced] else available
  }

  /** What one received frame is taken for; frames of other kinds are skipped. */
  function DecodeEvent(frame: seq<Byte>, now: Timestamp): Option<Event>
  {
    match Decode(frame)
    case Err(_) => None
    case Ok(p) => PduEvent(p, now)
  }

  function PduEvent(p: Pdu, now: Timestamp): Option<Event>
  {
    if p.header.None? || p.header.value.extFunctionCode != EVENT_NOTIFICATION || |p.payload| < 8 then None
    else Some(Event(FromBigEndian(p.payload[..4]), Join(p.payload[4], p.payload[5]),
                    if p.header.value.timestamp.Some? then p.header.value.timestamp.value else now,
                    EventValues(p.payload)))
  }

  /** The handler calls an event causes: handlers are named by numbers. */
  function Dispatch(handlers: map<nat, nat>, e: Event): seq<(nat, Event)>
  {
    if e.id in handlers then [(handlers[e.id], e)] else []
  }

  /** Events processed and handlers called for a queue of frames, in order. */
  function PollAll(frames: seq<seq<Byte>>, handlers: map<nat, nat>, now: Timestamp): (nat, seq<(nat, Event)>)
  {
    if frames == [] then (0, [])
    else
      var n := |frames| - 1;
      var (count, calls) := PollAll(frames[..n], handlers, now);
      match DecodeEvent(frames[n], now)
      case None => (count, calls)
      case Some(e) => (count + 1, calls + Dispatch(handlers, e))
  }

  class Subscriber {
    const transport: LoopbackTransport
    var handlers: map<nat, nat>
    /** The handler calls made so far. */
    var calls: seq<(nat, Event)>

    constructor (transport: LoopbackTransport)
      ensures this.transport == transport && handlers == map[] && calls == []
    {
      this.transport, handlers, calls := transport, map[], [];
    }

    method OnEvent(id: nat, handler: nat)
      modifies this`handlers
      ensures handlers == old(handlers)[id := handler]
    {
      handlers := handlers[id := handler];
    }

    method RemoveHandler(id: nat)
      modifies this`handlers
      ensures handlers == old(handlers) - {id}
    {
      handlers := handlers - {id};
    }

    /** Drains the queue. */
    method Poll(now: Timestamp) returns (processed: nat)
      modifies this`calls, transport.rx
      ensures !transport.connected ==>
        processed == 0 && calls == old(calls) && transport.rx.messages == old(transport.rx.messages)
      ensures transport.connected ==> transport.rx.messages == []
      ensures transport.connected ==> processed == PollAll(old(transport.rx.messages), handlers, now).0
      ensures transport.connected ==> calls == old(calls) + PollAll(old(transport.rx.messages), handlers, now).1
    {
      processed := 0;
      if !transport.connected {
        return;
      }
      ghost var frames, calls0 := transport.rx.messages, calls;
      ghost var k := 0;
      while true
        invariant k <= |frames| && transport.rx.messages == frames[k..]
        invariant processed == PollAll(frames[..k], handlers, now).0
        invariant calls == calls0 + PollAll(frames[..k], handlers, now).1
        decreases |transport.rx.messages|
      {
        var recv := transport.Receive();
        if recv.Err? {
          break;
        }
        assert frames[..k + 1][..k] == frames[..k] && recv.value == frames[k];
        k := k + 1;
        var e := ParseEvent(recv.value, now);
        if e.None? {
          continue;
        }
        if e.value.id in handlers {
          calls := calls + [(handlers[e.value.id], e.value)];
        }
        processed := processed + 1;
      }
      assert frames[..k] == frames;
    }
  }

  /** The parsing half of the poll loop. */
  method ParseEvent(frame: seq<Byte>, now: Timestamp) returns (e: Option<Event>)
    ensures e == DecodeEvent(frame, now)
  {
    var pdu := Deserialize(frame);
    if pdu.Err? || pdu.value.header.None? {
      return None;
    }
    var hdr := pdu.value.header.value;
    if hdr.extFunctionCode != EVENT_NOTIFICATION {
      return None;
    }
    var payload := pdu.value.payload;
    if |payload| < 8 {
      return None;
    }
    var id := ((payload[0] * 0x100 + payload[1] as nat) * 0x100 + payload[2]) * 0x100 + payload[3];
    FourBytesValue(payload);
    var start := Join(payload[4], payload[5]);
    var values := ParseValues(payload);
    var at := if hdr.timestamp.Some? then hdr.timestamp.value else now;
    e := Some(Event(id, start, at, values));
  }

  method ParseValues(payload: seq<Byte>) returns (values: seq<Word>)
    requires |payload| >= 8
    ensures values == EventValues(payload)
  {
    var count: nat := Join(payload[6], payload[7]);
    values := [];
    ghost var packed := payload[8..];
    var offset, i := 8, 0;
    while i < count && offset + 1 < |payload|
      invariant i <= count && offset == 8 + 2 * i && offset <= |payload|
      invariant values == UnpackWords(packed[..2 * i])
    {
      UnpackPrefix(packed, 2 * i);
      values := values + [Join(payload[offset], payload[offset + 1])];
      offset := offset + 2;
      i := i + 1;
    }
    UnpackTake(packed, i);
  }

  /** The first `i` registers of a packing. */
  lemma {:induction false} UnpackTake(bs: seq<Byte>, i: nat)
    requires 2 * i <= |bs|
    ensures UnpackWords(bs[..2 * i]) == UnpackWords(bs)[..i]
  {
    if i > 0 {
      assert bs[..2 * i][2..] == bs[2..][..2 * (i - 1)];
      UnpackTake(bs[2..], i - 1);
    }
  }

  lemma FourBytesValue(bs: seq<Byte>)
    requires |bs| >= 4
    ensures FromBigEndian(bs[..4]) == ((bs[0] * 0x100 + bs[1] as nat) * 0x100 + bs[2]) * 0x100 + bs[3]
  {
    assert bs[..4][..3] == bs[..3] && bs[..3][..2] == bs[..2] && bs[..2][..1] == bs[..1] && bs[..1][..0] == [];
    assert FromBigEndian(bs[..1]) == bs[0];
    assert FromBigEndian(bs[..2]) == bs[0] * 0x100 + bs[1] as nat;
    assert FromBigEndian(bs[..3]) == (bs[0] * 0x100 + bs[1] as nat) * 0x100 + bs[2];
  }
}
