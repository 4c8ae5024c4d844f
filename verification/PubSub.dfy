/** Publisher and subscriber together, and what a subscription sees over whole runs of scans. */
module PubSub {
  import opened Bytes
  import opened PduCodec
  import opened Publishers
  import opened Subscribers

  // ---- delivery --------------------------------------------------------------------

  /** The longest slice whose notification payload has a 16-bit length. */
  const MAX_EVENT := 32763

  function EventOf(n: Notification): Event { Event(n.id, n.start, n.timestamp, n.current) }

  lemma EventPayloadFields(n: Notification)
    requires n.id < 0x1_0000_0000
    ensures
      var p := EventPayload(n);
      && |p| == 8 + 2 * |n.current| && FromBigEndian(p[..4]) == n.id && Join(p[4], p[5]) == n.start
      && Join(p[6], p[7]) == ToWord(|n.current|) && p[8..] == PackWords(n.current)
  {
    var p := EventPayload(n);
    assert p[..4] == BigEndian(4, n.id);
    Pow256Values();
    BigEndianRoundTrip(4, n.id);
    assert p[4] == WordBytes(n.start)[0] && p[5] == WordBytes(n.start)[1];
    assert p[6] == WordBytes(ToWord(|n.current|))[0] && p[7] == WordBytes(ToWord(|n.current|))[1];
  }

  /** The receiver gets the payload up to the 16-bit length that was announced. */
  lemma EventReceived(n: Notification)
    ensures
      var p := EventPdu(n);
      && p.header.Some? && p.header.value.timestamp == Some(n.timestamp)
      && p.header.value.extFunctionCode == EVENT_NOTIFICATION
      && ToWord(|EventPayload(n)|) <= |EventPayload(n)|
      && Decode(EventFrame(n)) == Ok(p.(payload := EventPayload(n)[..ToWord(|EventPayload(n)|)]))
  {
    DecodeShortened(EventPdu(n));
  }

  lemma EventCut(n: Notification, len: nat)
    requires n.id < 0x1_0000_0000 && 8 <= len <= |EventPayload(n)|
    ensures |EventValues(EventPayload(n)[..len])| <= (len - 8) / 2
    ensures len == |EventPayload(n)| && |n.current| < 0x1_0000 ==> EventValues(EventPayload(n)[..len]) == n.current
  {
    EventPayloadFields(n);
    var p := EventPayload(n);
    assert p[..len][8..] == PackWords(n.current)[..len - 8];
    UnpackCut(n.current, len - 8);
  }

  lemma DecodedAs(frame: seq<Byte>, p: Pdu, now: Timestamp)
    requires Decode(frame) == Ok(p)
    ensures DecodeEvent(frame, now) == PduEvent(p, now)
  {
  }

  /** A PDU whose payload is the beginning of an event's. */
  lemma CutEvent(p: Pdu, n: Notification, len: nat, now: Timestamp)
    requires n.id < 0x1_0000_0000 && len <= |EventPayload(n)|
    requires p.header.Some? && p.header.value.timestamp == Some(n.timestamp)
    requires p.header.value.extFunctionCode == EVENT_NOTIFICATION && p.payload == EventPayload(n)[..len]
    ensures PduEvent(p, now) ==
      if len < 8 then None else Some(Event(n.id, n.start, n.timestamp, EventValues(EventPayload(n)[..len])))
  {
    if len >= 8 {
      EventPayloadFields(n);
      assert p.payload[..4] == EventPayload(n)[..4];
    }
  }

  lemma EventDecoded(n: Notification, payload: seq<Byte>, len: nat, now: Timestamp)
    requires n.id < 0x1_0000_0000
    requires payload == EventPayload(n) && len == ToWord(|payload|) && len <= |payload|
    ensures DecodeEvent(EventFrame(n), now) ==
      if len < 8 then None else Some(Event(n.id, n.start, n.timestamp, EventValues(payload[..len])))
  {
    EventReceived(n);
    var q := EventPdu(n).(payload := payload[..len]);
    DecodedAs(EventFrame(n), q, now);
    CutEvent(q, n, len, now);
  }

  lemma EventLength(c: nat)
    ensures ToWord(8 + 2 * c) == 8 + 2 * c <==> c <= MAX_EVENT
    ensures ToWord(8 + 2 * c) <= 8 + 2 * c
  {
  }

  /** A notification arrives as it was sent exactly when it has at most 32763 registers. */
  lemma EventRoundTripIff(n: Notification, now: Timestamp)
    requires n.id < 0x1_0000_0000
    ensures DecodeEvent(EventFrame(n), now) == Some(EventOf(n)) <==> |n.current| <= MAX_EVENT
  {
    EventLength(|n.current|);
    EventPayloadFields(n);
    var len: nat := ToWord(|EventPayload(n)|);
    EventDecoded(n, EventPayload(n), len, now);
    if len >= 8 {
      EventCut(n, len);
    }
  }

  /** The handler calls for a list of notifications, in order. */
  function DispatchAll(handlers: map<nat, nat>, ns: seq<Notification>): seq<(nat, Event)>
  {
    if ns == [] then []
    else DispatchAll(handlers, ns[..|ns| - 1]) + Dispatch(handlers, EventOf(ns[|ns| - 1]))
  }

  /** Every notification sent is processed, and the registered handlers are called in sending
      order with the same id, address, values and time. */
  lemma {:induction false} Delivery(ns: seq<Notification>, handlers: map<nat, nat>, now: Timestamp)
    requires ModestNotes(ns)
    ensures PollAll(EventFrames(ns), handlers, now) == (|ns|, DispatchAll(handlers, ns))
    decreases ns
  {
    if ns != [] {
      var k := |ns| - 1;
      assert ns == ns[..k] + [ns[k]] && ns[k] in ns;
      Delivery(ns[..k], handlers, now);
      EventRoundTripIff(ns[k], now);
      assert EventFrames(ns)[..k] == EventFrames(ns[..k]);
    }
  }

  predicate ModestNotes(ns: seq<Notification>)
  {
    forall n | n in ns :: n.id < 0x1_0000_0000 && |n.current| <= MAX_EVENT
  }

  predicate ModestSubscriptions(subs: seq<Subscription>)
  {
    forall s | s in subs :: s.id < 0x1_0000_0000 && s.request.count <= MAX_EVENT
  }

  lemma ModestSame(p: seq<Subscription>, q: seq<Subscription>)
    requires SameRequests(p, q) && ModestSubscriptions(p)
    ensures ModestSubscriptions(q)
  {
    forall s | s in q
      ensures s.id < 0x1_0000_0000 && s.request.count <= MAX_EVENT
    {
      var i :| 0 <= i < |q| && q[i] == s;
      assert p[i] in p;
    }
  }

  lemma ModestAppend(a: seq<Notification>, b: seq<Notification>)
    requires ModestNotes(a) && ModestNotes(b)
    ensures ModestNotes(a + b)
  {
  }

  lemma {:induction false} ScanSourceModest(subs: seq<Subscription>, source: Source, reading: seq<Word>, now: Timestamp)
    requires ModestSubscriptions(subs)
    ensures ModestNotes(ScanSource(subs, source, reading, now).1)
    decreases |subs|
  {
    if subs != [] {
      var k := |subs| - 1;
      assert subs == subs[..k] + [subs[k]] && subs[k] in subs;
      ScanSourceModest(subs[..k], source, reading, now);
      ModestAppend(ScanSource(subs[..k], source, reading, now).1, Visit(subs[k], source, reading, now).1);
    }
  }

  lemma {:induction false} ScanModest(subs: seq<Subscription>, feeds: seq<Feed>, now: Timestamp)
    requires ModestSubscriptions(subs)
    ensures ModestNotes(Scan(subs, feeds, now).1)
    decreases feeds
  {
    if feeds != [] {
      var n := |feeds| - 1;
      ScanModest(subs, feeds[..n], now);
      var (mid, notes) := Scan(subs, feeds[..n], now);
      ScanRequests(subs, feeds[..n], now);
      ModestSame(subs, mid);
      ScanSourceModest(mid, feeds[n].source, feeds[n].reading, now);
      ModestAppend(notes, ScanSource(mid, feeds[n].source, feeds[n].reading, now).1);
    }
  }

  /** Over a connected, error-free queue the next poll processes exactly as many events as the
      scan counted, and calls the handlers for what the scan reported, in its order. */
  lemma ScanDelivered(subs: seq<Subscription>, feeds: seq<Feed>, now: Timestamp,
                      handlers: map<nat, nat>, later: Timestamp)
    requires ModestSubscriptions(subs)
    ensures
      var notes := Scan(subs, feeds, now).1;
      var box := EmitAll(Outbox([], None), true, notes);
      box.error.None? && PollAll(box.messages, handlers, later) == (|notes|, DispatchAll(handlers, notes))
  {
    var notes := Scan(subs, feeds, now).1;
    EmitsEverything([], notes);
    assert [] + EventFrames(notes) == EventFrames(notes);
    ScanModest(subs, feeds, now);
    Delivery(notes, handlers, later);
  }

  // ---- one subscription among the others ---------------------------------------------

  /** One subscription taken through the sources: its new state, and how often it was
      notified. */
  function Through(sub: Subscription, feeds: seq<Feed>, now: Timestamp): (Subscription, nat)
    decreases feeds
  {
    if feeds == [] then (sub, 0)
    else
      var n := |feeds| - 1;
      var (mid, count) := Through(sub, feeds[..n], now);
      var (after, notes) := Visit(mid, feeds[n].source, feeds[n].reading, now);
      (after, count + |notes|)
  }

  function CountFor(ns: seq<Notification>, id: nat): nat
  {
    if ns == [] then 0
    else CountFor(ns[..|ns| - 1], id) + if ns[|ns| - 1].id == id then 1 else 0
  }

  lemma {:induction false} CountAppend(a: seq<Notification>, b: seq<Notification>, id: nat)
    ensures CountFor(a + b, id) == CountFor(a, id) + CountFor(b, id)
    decreases b
  {
    if b == [] {
      assert a + b == a;
    } else {
      assert (a + b)[..|a + b| - 1] == a + b[..|b| - 1];
      CountAppend(a, b[..|b| - 1], id);
    }
  }

  predicate UniqueIds(subs: seq<Subscription>)
  {
    forall i, j | 0 <= i < j < |subs| :: subs[i].id != subs[j].id
  }

  lemma CountOne(sub: Subscription, source: Source, reading: seq<Word>, now: Timestamp, id: nat)
    ensures CountFor(Visit(sub, source, reading, now).1, id)
         == if sub.id == id then |Visit(sub, source, reading, now).1| else 0
  {
    var more := Visit(sub, source, reading, now).1;
    assert more != [] ==> more[..0] == [];
  }

  lemma {:induction false} NoneFor(subs: seq<Subscription>, source: Source, reading: seq<Word>, now: Timestamp, id: nat)
    requires forall s | s in subs :: s.id != id
    ensures CountFor(ScanSource(subs, source, reading, now).1, id) == 0
    decreases |subs|
  {
    if subs != [] {
      var n := |subs| - 1;
      NoneFor(subs[..n], source, reading, now, id);
      CountOne(subs[n], source, reading, now, id);
      CountAppend(ScanSource(subs[..n], source, reading, now).1, Visit(subs[n], source, reading, now).1, id);
    }
  }

  lemma CountLast(subs: seq<Subscription>, source: Source, reading: seq<Word>, now: Timestamp, n: nat, id: nat)
    requires |subs| == n + 1
    ensures CountFor(ScanSource(subs, source, reading, now).1, id)
         == CountFor(ScanSource(subs[..n], source, reading, now).1, id)
            + if subs[n].id == id then |Visit(subs[n], source, reading, now).1| else 0
  {
    CountOne(subs[n], source, reading, now, id);
    CountAppend(ScanSource(subs[..n], source, reading, now).1, Visit(subs[n], source, reading, now).1, id);
  }

  /** Subscriptions do not influence each other: what happens to one, */
  lemma {:induction false} SourceAt(subs: seq<Subscription>, source: Source, reading: seq<Word>, now: Timestamp, j: nat)
    requires j < |subs|
    ensures |ScanSource(subs, source, reading, now).0| == |subs|
    ensures ScanSource(subs, source, reading, now).0[j] == Visit(subs[j], source, reading, now).0
    decreases |subs|
  {
    var n := |subs| - 1;
    ScanSourceRequests(subs[..n], source, reading, now);
    if j < n {
      assert subs[..n][j] == subs[j];
      SourceAt(subs[..n], source, reading, now, j);
    }
  }

  /** and how often it is told. */
  lemma {:induction false} SourceCount(subs: seq<Subscription>, source: Source, reading: seq<Word>,
                                            now: Timestamp, j: nat)
    requires UniqueIds(subs) && j < |subs|
    ensures CountFor(ScanSource(subs, source, reading, now).1, subs[j].id) == |Visit(subs[j], source, reading, now).1|
    decreases |subs|
  {
    var n := |subs| - 1;
    CountLast(subs, source, reading, now, n, subs[j].id);
    if j < n {
      assert subs[..n][j] == subs[j];
      SourceCount(subs[..n], source, reading, now, j);
    } else {
      NoneFor(subs[..n], source, reading, now, subs[n].id);
    }
  }

  lemma UniqueSame(p: seq<Subscription>, q: seq<Subscription>)
    requires SameRequests(p, q) && UniqueIds(p)
    ensures UniqueIds(q)
  {
  }

  /** What a whole scan does to one subscription, and how many of the notifications are for it,
      can be computed from that subscription alone. */
  lemma {:induction false} ScanView(subs: seq<Subscription>, feeds: seq<Feed>, now: Timestamp, j: nat)
    requires UniqueIds(subs) && j < |subs|
    ensures |Scan(subs, feeds, now).0| == |subs|
    ensures Scan(subs, feeds, now).0[j] == Through(subs[j], feeds, now).0
    ensures CountFor(Scan(subs, feeds, now).1, subs[j].id) == Through(subs[j], feeds, now).1
    decreases feeds
  {
    if feeds != [] {
      var n := |feeds| - 1;
      ScanView(subs, feeds[..n], now, j);
      ScanRequests(subs, feeds[..n], now);
      var (mid, notes) := Scan(subs, feeds[..n], now);
      UniqueSame(subs, mid);
      SourceAt(mid, feeds[n].source, feeds[n].reading, now, j);
      SourceCount(mid, feeds[n].source, feeds[n].reading, now, j);
      CountAppend(notes, ScanSource(mid, feeds[n].source, feeds[n].reading, now).1, subs[j].id);
    }
  }
}
