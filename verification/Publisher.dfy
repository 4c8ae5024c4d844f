/** Change detection on the server: which subscription is told what, scan after scan. */
module Publishers {
  import opened Bytes
  import opened PduCodec
  import opened Loopback

  datatype Trigger = OnChange | OnThreshold | Periodic

  /** The interval is in milliseconds. */
  datatype Request = Request(
    start: Word, count: Word, trigger: Trigger,
    thresholdHigh: Option<real>, thresholdLow: Option<real>,
    interval: Option<int>, deadBand: real)

  datatype Subscription = Subscription(id: nat, client: Byte, request: Request, lastNotified: int)

  datatype Source = Source(start: Word, count: Word, lastValues: seq<Word>, hasBaseline: bool)

  datatype Notification = Notification(
    id: nat, start: Word, timestamp: Timestamp, current: seq<Word>, previous: seq<Word>)

  // ---- the decision -----------------------------------------------------------------

  function Distance(a: Word, b: Word): (d: nat) { if a < b then b - a else a - b }

  /** Some register that both lists have moved by more than `band`. */
  predicate Moved(current: seq<Word>, previous: seq<Word>, band: real)
  {
    exists i :: 0 <= i < |current| && i < |previous| && Distance(current[i], previous[i]) as real > band
  }

  predicate Outside(value: real, req: Request)
  {
    (req.thresholdHigh.Some? && value > req.thresholdHigh.value)
    || (req.thresholdLow.Some? && value < req.thresholdLow.value)
  }

  predicate ShouldNotify(sub: Subscription, current: seq<Word>, previous: seq<Word>, now: int)
  {
    match sub.request.trigger
    case Periodic => sub.request.interval.Some? && now - sub.lastNotified >= sub.request.interval.value * 1000
    case OnChange => previous == [] || Moved(current, previous, sub.request.deadBand)
    case OnThreshold => current != [] && Outside(current[0] as real, sub.request)
  }

  method ShouldNotifyLoop(sub: Subscription, current: seq<Word>, previous: seq<Word>, now: int) returns (r: bool)
    ensures r == ShouldNotify(sub, current, previous, now)
    ensures sub.request.trigger == OnThreshold && current != [] ==>
      (r <==>
        || (sub.request.thresholdHigh.Some? && sub.request.thresholdHigh.value < current[0] as real)
        || (sub.request.thresholdLow.Some? && current[0] as real < sub.request.thresholdLow.value))
    ensures sub.request.trigger == Periodic ==>
      (r <==> sub.request.interval.Some? && now - sub.lastNotified >= sub.request.interval.value * 1000)
  {
    match sub.request.trigger {
      case Periodic =>
        if sub.request.interval.None? {
          return false;
        }
        r := now - sub.lastNotified >= sub.request.interval.value * 1000;
      case OnChange =>
        if previous == [] {
          return true;
        }
        var i := 0;
        while i < |current| && i < |previous|
          invariant 0 <= i <= |current|
          invariant forall k | 0 <= k < i && k < |previous| ::
            Distance(current[k], previous[k]) as real <= sub.request.deadBand
        {
          if Distance(current[i], previous[i]) as real > sub.request.deadBand {
            return true;
          }
          i := i + 1;
        }
        r := false;
      case OnThreshold =>
        if current == [] {
          return false;
        }
        var value := current[0] as real;
        if sub.request.thresholdHigh.Some? && value > sub.request.thresholdHigh.value {
          return true;
        }
        if sub.request.thresholdLow.Some? && value < sub.request.thresholdLow.value {
          return true;
        }
        r := false;
    }
  }

  // ---- one scan ------------------------------------------------------------------------

  predicate Watches(sub: Subscription, source: Source)
  {
    source.start <= sub.request.start && (sub.request.start as int) < source.start + source.count
  }

  /** The registers of a reading that a subscription sees. The source computes the start of
      the slice without looking at the size of the reading; `ReadsFarEnough` says when that is
      defined, and beyond it nothing is claimed. */
  function Slice(values: seq<Word>, sub: Subscription, source: Source): (r: seq<Word>)
    ensures |r| <= sub.request.count
  {
    var offset := sub.request.start as int - source.start;
    var end := if offset + sub.request.count < |values| then offset + sub.request.count else |values|;
    if 0 <= offset <= end then values[offset..end] else []
  }

  predicate ReadsFarEnough(sub: Subscription, source: Source, reading: seq<Word>)
  {
    Watches(sub, source) ==>
      sub.request.start as int - source.start <= |reading|
      && (source.hasBaseline ==> sub.request.start as int - source.start <= |source.lastValues|)
  }

  function PreviousSlice(sub: Subscription, source: Source): seq<Word>
  {
    if source.hasBaseline then Slice(source.lastValues, sub, source) else []
  }

  predicate Fires(sub: Subscription, source: Source, reading: seq<Word>, now: int)
  {
    Watches(sub, source) && ShouldNotify(sub, Slice(reading, sub, source), PreviousSlice(sub, source), now)
  }

  function Report(sub: Subscription, source: Source, reading: seq<Word>, now: Timestamp): Notification
  {
    Notification(sub.id, sub.request.start, now, Slice(reading, sub, source), PreviousSlice(sub, source))
  }

  /** One source against one subscription: its new state and what is reported, if anything. */
  function Visit(sub: Subscription, source: Source, reading: seq<Word>, now: Timestamp)
    : (Subscription, seq<Notification>)
  {
    if Fires(sub, source, reading, now)
    then (sub.(lastNotified := now), [Report(sub, source, reading, now)])
    else (sub, [])
  }

  /** One source against all subscriptions. */
  function ScanSource(subs: seq<Subscription>, source: Source, reading: seq<Word>, now: Timestamp)
    : (seq<Subscription>, seq<Notification>)
    decreases |subs|
  {
    if subs == [] then ([], [])
    else
      var n := |subs| - 1;
      var (front, notes) := ScanSource(subs[..n], source, reading, now);
      var (last, more) := Visit(subs[n], source, reading, now);
      (front + [last], notes + more)
  }

  lemma ScanStep(subs: seq<Subscription>, j: nat, source: Source, reading: seq<Word>, now: Timestamp)
    requires j < |subs|
    ensures ScanSource(subs[..j + 1], source, reading, now).0
         == ScanSource(subs[..j], source, reading, now).0 + [Visit(subs[j], source, reading, now).0]
    ensures ScanSource(subs[..j + 1], source, reading, now).1
         == ScanSource(subs[..j], source, reading, now).1 + Visit(subs[j], source, reading, now).1
  {
    assert subs[..j + 1][..j] == subs[..j];
  }

  lemma InPlace(seen: seq<Subscription>, subs: seq<Subscription>, j: nat, told: Subscription)
    requires j < |subs| && |seen| == j
    ensures (seen + subs[j..])[j] == subs[j]
    ensures (seen + subs[j..])[j := told] == (seen + [told]) + subs[j + 1..]
  {
  }

  predicate SameRequests(p: seq<Subscription>, q: seq<Subscription>)
  {
    |p| == |q| && forall i | 0 <= i < |p| :: p[i].id == q[i].id && p[i].request == q[i].request
  }

  /** A scan touches nothing but the time of the last notification. */
  lemma {:induction false} ScanSourceRequests(subs: seq<Subscription>, source: Source, reading: seq<Word>,
                                                   now: Timestamp)
    ensures SameRequests(subs, ScanSource(subs, source, reading, now).0)
    decreases |subs|
  {
    if subs != [] {
      ScanSourceRequests(subs[..|subs| - 1], source, reading, now);
    }
  }

  /** A source together with what its reader returns in this scan. */
  datatype Feed = Feed(source: Source, reading: seq<Word>)

  function Feeds(sources: seq<Source>, readings: seq<seq<Word>>): (r: seq<Feed>)
    requires |readings| == |sources|
    ensures |r| == |sources| && forall i | 0 <= i < |r| :: r[i] == Feed(sources[i], readings[i])
  {
    seq(|sources|, i requires 0 <= i < |sources| => Feed(sources[i], readings[i]))
  }

  /** The sources in turn; the subscriptions are carried along. */
  function Scan(subs: seq<Subscription>, feeds: seq<Feed>, now: Timestamp): (seq<Subscription>, seq<Notification>)
    decreases feeds
  {
    if feeds == [] then (subs, [])
    else
      var n := |feeds| - 1;
      var (mid, notes) := Scan(subs, feeds[..n], now);
      var (after, more) := ScanSource(mid, feeds[n].source, feeds[n].reading, now);
      (after, notes + more)
  }

  lemma FeedStep(subs: seq<Subscription>, feeds: seq<Feed>, i: nat, now: Timestamp)
    requires i < |feeds|
    ensures
      var (mid, notes) := Scan(subs, feeds[..i], now);
      var (after, more) := ScanSource(mid, feeds[i].source, feeds[i].reading, now);
      Scan(subs, feeds[..i + 1], now) == (after, notes + more)
  {
    assert feeds[..i + 1][..i] == feeds[..i];
  }

  lemma {:induction false} ScanRequests(subs: seq<Subscription>, feeds: seq<Feed>, now: Timestamp)
    ensures SameRequests(subs, Scan(subs, feeds, now).0)
    decreases feeds
  {
    if feeds != [] {
      var n := |feeds| - 1;
      ScanRequests(subs, feeds[..n], now);
      ScanSourceRequests(Scan(subs, feeds[..n], now).0, feeds[n].source, feeds[n].reading, now);
    }
  }

  /** The first `n` sources have taken this scan's readings as their baselines. */
  function Baselines(sources: seq<Source>, readings: seq<seq<Word>>, n: nat): (r: seq<Source>)
    requires |readings| == |sources| && n <= |sources|
    ensures |r| == |sources|
    ensures forall i | 0 <= i < |r| ::
      r[i] == if i < n then sources[i].(lastValues := readings[i], hasBaseline := true) else sources[i]
    decreases n
  {
    if n == 0 then sources
    else
      Baselines(sources, readings, n - 1)[n - 1 := sources[n - 1].(lastValues := readings[n - 1], hasBaseline := true)]
  }

  /** Every reading reaches the first register of every subscription that watches its source. */
  predicate ScanReady(subs: seq<Subscription>, sources: seq<Source>, readings: seq<seq<Word>>)
  {
    |readings| == |sources| &&
    forall i, j | 0 <= i < |sources| && 0 <= j < |subs| :: ReadsFarEnough(subs[j], sources[i], readings[i])
  }

  // ---- the frames -----------------------------------------------------------------------

  function EventPayload(n: Notification): seq<Byte>
  {
    BigEndian(4, n.id) + WordBytes(n.start) + WordBytes(ToWord(|n.current|)) + PackWords(n.current)
  }

  function EventPdu(n: Notification): Pdu
  {
    MakeExtended(FrameHeader(1, 0, 0, Some(n.timestamp), EVENT_NOTIFICATION, 0), EventPayload(n), None)
  }

  function EventFrame(n: Notification): seq<Byte> { Encode(EventPdu(n)) }

  function EventFrames(ns: seq<Notification>): (frames: seq<seq<Byte>>)
    ensures |frames| == |ns|
  {
    if ns == [] then [] else EventFrames(ns[..|ns| - 1]) + [EventFrame(ns[|ns| - 1])]
  }

  /** The sending side of a transport: the queue, and the error the next send will report. */
  datatype Outbox = Outbox(messages: seq<seq<Byte>>, error: Option<int>)

  /** A disconnected transport is not tried; an injected error costs the notification. */
  function Emit(box: Outbox, connected: bool, note: Notification): Outbox
  {
    if !connected then box
    else if box.error.Some? then Outbox(box.messages, None)
    else Outbox(box.messages + [EventFrame(note)], None)
  }

  function EmitAll(box: Outbox, connected: bool, ns: seq<Notification>): Outbox
    decreases ns
  {
    if ns == [] then box else Emit(EmitAll(box, connected, ns[..|ns| - 1]), connected, ns[|ns| - 1])
  }

  lemma {:induction false} EmitAppend(box: Outbox, connected: bool, a: seq<Notification>, b: seq<Notification>)
    ensures EmitAll(box, connected, a + b) == EmitAll(EmitAll(box, connected, a), connected, b)
    decreases b
  {
    if b == [] {
      assert a + b == a;
    } else {
      assert (a + b)[..|a + b| - 1] == a + b[..|b| - 1];
      EmitAppend(box, connected, a, b[..|b| - 1]);
    }
  }

  /** Over a connected, error-free transport everything is sent, in order. */
  lemma {:induction false} EmitsEverything(messages: seq<seq<Byte>>, ns: seq<Notification>)
    ensures EmitAll(Outbox(messages, None), true, ns) == Outbox(messages + EventFrames(ns), None)
    decreases ns
  {
    if ns == [] {
      assert messages + EventFrames(ns) == messages;
    } else {
      EmitsEverything(messages, ns[..|ns| - 1]);
      Concat(messages, EventFrames(ns[..|ns| - 1]), [EventFrame(ns[|ns| - 1])]);
    }
  }

  /** The four `push_back` calls of a 32-bit id. */
  method PushId(out: seq<Byte>, id: nat) returns (r: seq<Byte>)
    ensures r == out + BigEndian(4, id)
  {
    FourBytes(id);
    r := out + [id / 0x100_0000 % 0x100];
    r := r + [id / 0x1_0000 % 0x100];
    r := r + [id / 0x100 % 0x100];
    r := r + [id % 0x100];
  }

  method EncodeEvent(n: Notification) returns (frame: seq<Byte>)
    ensures frame == EventFrame(n)
  {
    var payload := PushId([], n.id);
    payload := PushWord(payload, n.start);
    payload := PushWord(payload, ToWord(|n.current|));
    payload := PushWords(payload, n.current);
    assert payload == EventPayload(n);
    frame := Serialize(MakeExtended(FrameHeader(1, 0, 0, Some(n.timestamp), EVENT_NOTIFICATION, 0), payload, None));
  }

  lemma FourBytes(v: nat)
    ensures BigEndian(4, v) == [v / 0x100_0000 % 0x100, v / 0x1_0000 % 0x100, v / 0x100 % 0x100, v % 0x100]
  {
    assert BigEndian(1, v / 0x100 / 0x100 / 0x100) == [v / 0x100 / 0x100 / 0x100 % 0x100];
    assert BigEndian(2, v / 0x100 / 0x100) == BigEndian(1, v / 0x100 / 0x100 / 0x100) + [v / 0x100 / 0x100 % 0x100];
    assert BigEndian(3, v / 0x100) == BigEndian(2, v / 0x100 / 0x100) + [v / 0x100 % 0x100];
    assert BigEndian(4, v) == BigEndian(3, v / 0x100) + [v % 0x100];
    assert v / 0x100 / 0x100 == v / 0x1_0000 && v / 0x100 / 0x100 / 0x100 == v / 0x100_0000;
  }

  // ---- turns of the outer loop ------------------------------------------------------------

  datatype PublisherState = PublisherState(sources: seq<Source>, subs: seq<Subscription>, box: Outbox)

  /** Source `i` against all subscriptions. */
  function Turn(st: PublisherState, i: nat, reading: seq<Word>, connected: bool, now: Timestamp): (PublisherState, nat)
    requires i < |st.sources|
  {
    var (subs, notes) := ScanSource(st.subs, st.sources[i], reading, now);
    (PublisherState(st.sources[i := st.sources[i].(lastValues := reading, hasBaseline := true)],
                    subs, EmitAll(st.box, connected, notes)),
     |notes|)
  }

  function Turns(st: PublisherState, readings: seq<seq<Word>>, n: nat, connected: bool, now: Timestamp)
    : (r: (PublisherState, nat))
    requires |readings| == |st.sources| && n <= |readings|
    ensures |r.0.sources| == |st.sources|
    decreases n
  {
    if n == 0 then (st, 0)
    else
      var (mid, sent) := Turns(st, readings, n - 1, connected, now);
      var (after, more) := Turn(mid, n - 1, readings[n - 1], connected, now);
      (after, sent + more)
  }

  lemma TurnsStep(st: PublisherState, readings: seq<seq<Word>>, i: nat, connected: bool, now: Timestamp,
                  at: PublisherState, sent: nat, after: PublisherState, more: nat)
    requires |readings| == |st.sources| == |at.sources| && i < |readings|
    requires (at, sent) == Turns(st, readings, i, connected, now)
    requires (after, more) == Turn(at, i, readings[i], connected, now)
    ensures (after, sent + more) == Turns(st, readings, i + 1, connected, now)
  {
  }

  /** The turns together are a scan of the feeds. */
  lemma {:induction false} TurnsAreScan(st: PublisherState, readings: seq<seq<Word>>, n: nat,
                                              connected: bool, now: Timestamp)
    requires |readings| == |st.sources| && n <= |readings|
    ensures
      var (after, sent) := Turns(st, readings, n, connected, now);
      var (subs, notes) := Scan(st.subs, Feeds(st.sources, readings)[..n], now);
      && after.subs == subs && sent == |notes| && after.box == EmitAll(st.box, connected, notes)
      && after.sources == Baselines(st.sources, readings, n)
    decreases n
  {
    if n > 0 {
      var feeds := Feeds(st.sources, readings);
      TurnsAreScan(st, readings, n - 1, connected, now);
      FeedStep(st.subs, feeds, n - 1, now);
      var (mid, notes) := Scan(st.subs, feeds[..n - 1], now);
      EmitAppend(st.box, connected, notes, ScanSource(mid, st.sources[n - 1], readings[n - 1], now).1);
    }
  }

  // ---- the class ---------------------------------------------------------------------------

  class Publisher {
    const transport: LoopbackTransport
    var sources: seq<Source>
    var subscriptions: seq<Subscription>
    var nextSubId: nat

    constructor (transport: LoopbackTransport)
      ensures this.transport == transport && sources == [] && subscriptions == [] && nextSubId == 1
    {
      this.transport, sources, subscriptions, nextSubId := transport, [], [], 1;
    }

    method RegisterDataSource(start: Word, count: Word)
      modifies this`sources
      ensures sources == old(sources) + [Source(start, count, [], false)]
    {
      sources := sources + [Source(start, count, [], false)];
    }

    /** Ids are 32-bit. */
    method AcceptSubscription(client: Byte, request: Request, now: int) returns (id: nat)
      modifies this`subscriptions, this`nextSubId
      ensures id == old(nextSubId) && nextSubId == (old(nextSubId) + 1) % 0x1_0000_0000
      ensures subscriptions == old(subscriptions) + [Subscription(id, client, request, now)]
    {
      id := nextSubId;
      nextSubId := (nextSubId + 1) % 0x1_0000_0000;
      subscriptions := subscriptions + [Subscription(id, client, request, now)];
    }

    method RemoveSubscription(id: nat) returns (r: Result<()>)
      modifies this`subscriptions
      ensures subscriptions == Without(old(subscriptions), id)
      ensures r == if HasId(old(subscriptions), id) then Ok(()) else Err(ILLEGAL_DATA_ADDRESS)
    {
      var kept: seq<Subscription> := [];
      for i := 0 to |subscriptions|
        invariant kept == Without(subscriptions[..i], id)
        invariant |kept| <= i && (|kept| == i <==> !HasId(subscriptions[..i], id))
      {
        assert subscriptions[..i + 1][..i] == subscriptions[..i];
        if subscriptions[i].id != id {
          kept := kept + [subscriptions[i]];
        }
      }
      assert subscriptions[..|subscriptions|] == subscriptions;
      if |kept| == |subscriptions| {
        assert kept == subscriptions by {
          WithoutNothing(subscriptions, id);
        }
        return Err(ILLEGAL_DATA_ADDRESS);
      }
      subscriptions := kept;
      r := Ok(());
    }

    ghost function State(): PublisherState
      reads this, transport, transport.tx
    {
      PublisherState(sources, subscriptions, Box())
    }

    ghost function Box(): Outbox
      reads this, transport, transport.tx
    {
      Outbox(transport.tx.messages, transport.nextError)
    }

    /** `readings[i]` is what the reader of source `i` returns; the clock stands still during
        the scan, which holds the lock. */
    method ScanAndNotify(readings: seq<seq<Word>>, now: Timestamp) returns (sent: nat)
      requires ScanReady(subscriptions, sources, readings)
      modifies this`sources, this`subscriptions, transport`nextError, transport.tx
      ensures subscriptions == Scan(old(subscriptions), Feeds(old(sources), readings), now).0
      ensures sent == |Scan(old(subscriptions), Feeds(old(sources), readings), now).1|
      ensures Box() == EmitAll(old(Box()), transport.connected,
                               Scan(old(subscriptions), Feeds(old(sources), readings), now).1)
      ensures sources == Baselines(old(sources), readings, |readings|)
    {
      sent := ScanAll(readings, now);
      TurnsAreScan(old(State()), readings, |readings|, transport.connected, now);
      assert Feeds(old(sources), readings)[..|readings|] == Feeds(old(sources), readings);
    }

    /** The outer loop. */
    method ScanAll(readings: seq<seq<Word>>, now: Timestamp) returns (sent: nat)
      requires |readings| == |sources|
      modifies this`sources, this`subscriptions, transport`nextError, transport.tx
      ensures (State(), sent) == Turns(old(State()), readings, |readings|, transport.connected, now)
    {
      sent := 0;
      ghost var before := State();
      ghost var at := before;
      for i := 0 to |sources|
        invariant |sources| == |readings| && State() == at
        invariant (at, sent) == Turns(before, readings, i, transport.connected, now)
      {
        var n := ScanOne(i, readings[i], now);
        TurnsStep(before, readings, i, transport.connected, now, at, sent, State(), n);
        at := State();
        sent := sent + n;
      }
    }

    /** The body of the outer loop: one source against all subscriptions, then its baseline. */
    method ScanOne(s: nat, current: seq<Word>, now: Timestamp) returns (sent: nat)
      requires s < |sources|
      modifies this`sources, this`subscriptions, transport`nextError, transport.tx
      ensures (State(), sent) == Turn(old(State()), s, current, transport.connected, now)
    {
      var source := sources[s];
      sent := VisitAll(source, current, now);
      sources := sources[s := source.(lastValues := current, hasBaseline := true)];
    }

    /** The inner loop. */
    method VisitAll(source: Source, current: seq<Word>, now: Timestamp) returns (sent: nat)
      modifies this`subscriptions, transport`nextError, transport.tx
      ensures
        var (subs, notes) := ScanSource(old(subscriptions), source, current, now);
        subscriptions == subs && sent == |notes| && Box() == EmitAll(old(Box()), transport.connected, notes)
    {
      sent := 0;
      ghost var subs0, box0 := subscriptions, Box();
      ghost var seen: seq<Subscription>, notes: seq<Notification> := [], [];
      for j := 0 to |subscriptions|
        invariant |seen| == j && subscriptions == seen + subs0[j..]
        invariant (seen, notes) == ScanSource(subs0[..j], source, current, now)
        invariant sent == |notes| && Box() == EmitAll(box0, transport.connected, notes)
      {
        ScanStep(subs0, j, source, current, now);
        ghost var (told0, more) := Visit(subs0[j], source, current, now);
        EmitAppend(box0, transport.connected, notes, more);
        InPlace(seen, subs0, j, told0);
        var told, n := VisitOne(subscriptions[j], source, current, now);
        notes := notes + more;
        seen := seen + [told];
        sent := sent + n;
        subscriptions := subscriptions[j := told];
      }
      assert subs0[..|subs0|] == subs0 && seen + subs0[|subs0|..] == seen;
    }

    /** The body of the inner loop. */
    method VisitOne(sub: Subscription, source: Source, current: seq<Word>, now: Timestamp)
      returns (told: Subscription, n: nat)
      modifies transport`nextError, transport.tx
      ensures told == Visit(sub, source, current, now).0 && n == |Visit(sub, source, current, now).1|
      ensures Box() == EmitAll(old(Box()), transport.connected, Visit(sub, source, current, now).1)
    {
      if sub.request.start < source.start || (sub.request.start as int) >= source.start + source.count {
        return sub, 0;
      }
      var slice := Slice(current, sub, source);
      var previous := PreviousSlice(sub, source);
      var fire := ShouldNotifyLoop(sub, slice, previous, now);
      if !fire {
        return sub, 0;
      }
      var note := Notification(sub.id, sub.request.start, now, slice, previous);
      assert [note][..0] == [];
      if transport.connected {
        SendEvent(note);
      }
      return sub.(lastNotified := now), 1;
    }

    method SendEvent(note: Notification)
      requires transport.connected
      modifies transport`nextError, transport.tx
      ensures Box() == Emit(old(Box()), true, note)
    {
      var bytes := EncodeEvent(note);
      var ignored := transport.Send(bytes);
    }
  }

  function Without(subs: seq<Subscription>, id: nat): seq<Subscription>
  {
    if subs == [] then []
    else
      var n := |subs| - 1;
      if subs[n].id == id then Without(subs[..n], id) else Without(subs[..n], id) + [subs[n]]
  }

  predicate HasId(subs: seq<Subscription>, id: nat) { exists i :: 0 <= i < |subs| && subs[i].id == id }

  lemma {:induction false} WithoutNothing(subs: seq<Subscription>, id: nat)
    requires !HasId(subs, id)
    ensures Without(subs, id) == subs
    decreases subs
  {
    if subs != [] {
      var n := |subs| - 1;
      assert forall i | 0 <= i < n :: subs[..n][i] == subs[i];
      WithoutNothing(subs[..n], id);
    }
  }
}
