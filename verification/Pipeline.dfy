/** Several requests in flight, told apart by 16-bit correlation ids. */
module Pipelines {
  import opened Bytes
  import opened PduCodec
  import opened Loopback

  /** `callback` names the caller's function object; an empty one is never called. */
  datatype Pending = Pending(id: Word, request: Pdu, sentAt: int, timeout: int, callback: Option<nat>)

  /** A callback invocation. */
  datatype Call = Call(callback: nat, outcome: Result<Pdu>, at: int)

  function U64(n: int): (r: nat)
    ensures r < 0x1_0000_0000_0000_0000
  {
    n % 0x1_0000_0000_0000_0000
  }

  // ---- correlation ids -----------------------------------------------------------

  class CorrelationIdGenerator {
    var counter: Word

    constructor ()
      ensures counter == 1
    {
      counter := 1;
    }

    method Next() returns (id: Word)
      modifies this
      ensures id == old(counter) && counter == ToWord(old(counter) + 1)
    {
      id := counter;
      counter := ToWord(counter + 1);
    }
  }

  // ---- the request queue -------------------------------------------------------------

  /** The clock is in microseconds, the timeout in milliseconds. */
  predicate IsExpired(p: Pending, now: int) { now - p.sentAt > p.timeout * 1000 }

  function Expired(pending: map<Word, Pending>, now: int): map<Word, Pending>
  {
    map id | id in pending && IsExpired(pending[id], now) :: pending[id]
  }

  function Unexpired(pending: map<Word, Pending>, now: int): map<Word, Pending>
  {
    map id | id in pending && !IsExpired(pending[id], now) :: pending[id]
  }

  predicate WellKeyed(pending: map<Word, Pending>) { forall id | id in pending :: pending[id].id == id }

  /** `ps` lists the entries of `m` once each, in some order. */
  predicate IsEnumeration(ps: seq<Pending>, m: map<Word, Pending>)
  {
    && (forall i, j | 0 <= i < j < |ps| :: ps[i].id != ps[j].id)
    && (forall p | p in ps :: p.id in m && m[p.id] == p)
    && (forall id | id in m :: m[id] in ps)
  }

  predicate IsFull(pending: map<Word, Pending>, maxSize: nat) { maxSize > 0 && |pending| >= maxSize }

  /** `emplace` keeps an entry that is already there. */
  function Emplace(pending: map<Word, Pending>, p: Pending): map<Word, Pending>
  {
    if p.id in pending then pending else pending[p.id := p]
  }

  class RequestQueue {
    var pending: map<Word, Pending>
    var maxSize: nat

    constructor ()
      ensures pending == map[] && maxSize == 0
    {
      pending, maxSize := map[], 0;
    }

    method SetMaxSize(max: nat)
      modifies this`maxSize
      ensures maxSize == max
    {
      maxSize := max;
    }

    method Insert(req: Pending) returns (ok: bool)
      modifies this`pending
      ensures ok == !IsFull(old(pending), maxSize)
      ensures pending == if ok then Emplace(old(pending), req) else old(pending)
    {
      if maxSize > 0 && |pending| >= maxSize {
        return false;
      }
      if req.id !in pending {
        pending := pending[req.id := req];
      }
      ok := true;
    }

    method Remove(id: Word) returns (r: Option<Pending>)
      modifies this`pending
      ensures r == if id in old(pending) then Some(old(pending)[id]) else None
      ensures pending == old(pending) - {id}
    {
      if id !in pending {
        assert pending - {id} == pending;
        return None;
      }
      r := Some(pending[id]);
      pending := pending - {id};
    }

    /** The walk over the hash map visits the entries in an unspecified order. */
    method RemoveExpired(now: int) returns (expired: seq<Pending>)
      requires WellKeyed(pending)
      modifies this`pending
      ensures IsEnumeration(expired, Expired(old(pending), now))
      ensures pending == Unexpired(old(pending), now)
    {
      expired := [];
      ghost var before := pending;
      var todo := pending.Keys;
      while todo != {}
        invariant todo <= pending.Keys <= before.Keys
        invariant forall id | id in pending :: pending[id] == before[id]
        invariant forall id | id in before && id in todo :: id in pending
        invariant forall id | id in before && id !in todo :: id in pending <==> !IsExpired(before[id], now)
        invariant forall p | p in expired :: p.id in before && p.id !in todo && before[p.id] == p && IsExpired(p, now)
        invariant forall id | id in before && id !in todo && IsExpired(before[id], now) :: before[id] in expired
        invariant forall i, j | 0 <= i < j < |expired| :: expired[i].id != expired[j].id
        decreases todo
      {
        var id :| id in todo;
        todo := todo - {id};
        var p := pending[id];
        if now - p.sentAt > p.timeout * 1000 {
          expired := expired + [p];
          pending := pending - {id};
        }
      }
    }

    method Cancel(id: Word) returns (erased: bool)
      modifies this`pending
      ensures erased == (id in old(pending))
      ensures pending == old(pending) - {id}
    {
      erased := id in pending;
      pending := pending - {id};
    }
  }

  // ---- specification of the pipeline -----------------------------------------------------

  datatype PipeState = PipeState(
    counter: Word,
    pending: map<Word, Pending>,
    maxSize: nat,
    defaultTimeout: int,
    completed: nat,
    latency: nat,
    calls: seq<Call>)

  /** The frame put on the wire: an extended request gets the id written in, any other is
      carried as the payload of a PipelineBegin frame. */
  function ToSend(request: Pdu, id: Word): Pdu
  {
    if request.header.Some? then
      MakeExtended(request.header.value.(correlationId := id), request.payload, request.hmac)
    else
      MakeExtended(FrameHeader(1, 0, id, None, PIPELINE_BEGIN, 0), Encode(request), None)
  }

  function NewPending(s: PipeState, request: Pdu, callback: Option<nat>, timeout: int, now: int): Pending
  {
    Pending(s.counter, ToSend(request, s.counter), now,
            if timeout == 0 then s.defaultTimeout else timeout, callback)
  }

  /** The id is used up whatever happens; the frame is sent before the capacity is looked at. */
  function AfterSubmit(s: PipeState, request: Pdu, callback: Option<nat>, timeout: int, now: int, sendOk: bool)
    : PipeState
  {
    var p := NewPending(s, request, callback, timeout, now);
    s.(counter := ToWord(s.counter + 1),
       pending := if sendOk && !IsFull(s.pending, s.maxSize) then Emplace(s.pending, p) else s.pending)
  }

  /** A frame without an extended header counts as a reply to id 0. */
  function ReplyId(p: Pdu): Word
  {
    if p.header.Some? then p.header.value.correlationId else 0
  }

  predicate Matches(s: PipeState, frame: seq<Byte>)
  {
    Decode(frame).Ok? && ReplyId(Decode(frame).value) in s.pending
  }

  function CallOf(p: Pending, outcome: Result<Pdu>, now: int): seq<Call>
  {
    if p.callback.Some? then [Call(p.callback.value, outcome, now)] else []
  }

  function ExpiryCalls(ps: seq<Pending>, now: int): seq<Call>
  {
    if ps == [] then [] else ExpiryCalls(ps[..|ps| - 1], now) + CallOf(ps[|ps| - 1], Err(TIMEOUT_EXPIRED), now)
  }

  /** The entries still waiting when the match has been taken out. */
  function Others(s: PipeState, frame: seq<Byte>): map<Word, Pending>
    requires Matches(s, frame)
  {
    s.pending - {ReplyId(Decode(frame).value)}
  }

  /** Processing one received frame; `expired` is the order in which expired entries were met.
      A frame that matches nothing changes nothing, and then nothing expires either. */
  function AfterPoll(s: PipeState, frame: seq<Byte>, now: int, expired: seq<Pending>): PipeState
  {
    if !Matches(s, frame) then s
    else
      var pdu := Decode(frame).value;
      var p := s.pending[ReplyId(pdu)];
      s.(pending := Unexpired(Others(s, frame), now),
         completed := U64(s.completed + 1),
         latency := U64(s.latency + U64(now - p.sentAt)),
         calls := s.calls + CallOf(p, Ok(pdu), now) + ExpiryCalls(expired, now))
  }

  predicate PollOrder(s: PipeState, frame: seq<Byte>, now: int, expired: seq<Pending>)
  {
    Matches(s, frame) ==> IsEnumeration(expired, Expired(Others(s, frame), now))
  }

  class Pipeline {
    const transport: LoopbackTransport
    const queue: RequestQueue
    const idGen: CorrelationIdGenerator
    const defaultTimeout: int
    var totalCompleted: nat
    var totalLatencyUs: nat
    /** The callbacks invoked so far. */
    var calls: seq<Call>

    constructor (transport: LoopbackTransport, maxInFlight: Word, defaultTimeout: int)
      ensures this.transport == transport && fresh(queue) && fresh(idGen)
      ensures State() == PipeState(1, map[], maxInFlight, defaultTimeout, 0, 0, [])
    {
      this.transport := transport;
      this.defaultTimeout := defaultTimeout;
      queue := new RequestQueue();
      idGen := new CorrelationIdGenerator();
      totalCompleted, totalLatencyUs, calls := 0, 0, [];
      new;
      queue.SetMaxSize(maxInFlight);
    }

    ghost function State(): PipeState
      reads this, queue, idGen
    {
      PipeState(idGen.counter, queue.pending, queue.maxSize, defaultTimeout, totalCompleted, totalLatencyUs, calls)
    }

    /** The lambda that tags the request with its id. */
    static method Wrap(request: Pdu, corrId: Word) returns (toSend: Pdu)
      ensures toSend == ToSend(request, corrId)
    {
      if request.header.Some? {
        var newHdr := request.header.value.(correlationId := corrId);
        return MakeExtended(newHdr, request.payload, request.hmac);
      }
      var hdr := FrameHeader(1, 0, corrId, None, PIPELINE_BEGIN, 0);
      var pduBytes := Serialize(request);
      toSend := MakeExtended(hdr, pduBytes, None);
    }

    method Submit(request: Pdu, callback: Option<nat>, timeout: int, now: int) returns (r: Result<Word>)
      modifies queue`pending, idGen, transport`nextError, transport.tx
      ensures
        var sendOk := transport.connected && old(transport.nextError).None?;
        && State() == AfterSubmit(old(State()), request, callback, timeout, now, sendOk)
        && transport.tx.messages == old(transport.tx.messages)
             + (if sendOk then [Encode(ToSend(request, old(idGen.counter)))] else [])
        && r == (if !transport.connected then Err(TRANSPORT_DISCONNECTED)
                 else if old(transport.nextError).Some? then Err(old(transport.nextError).value)
                 else if IsFull(old(queue.pending), queue.maxSize) then Err(0x83)
                 else Ok(old(idGen.counter)))
        && transport.nextError == (if transport.connected then None else old(transport.nextError))
      ensures r.Ok? && r.value !in old(queue.pending) ==>
        && r.value in queue.pending && queue.pending[r.value].sentAt == now
        && queue.pending[r.value].timeout == if timeout == 0 then defaultTimeout else timeout
    {
      var wait := if timeout == 0 then defaultTimeout else timeout;
      var corrId := idGen.Next();
      var toSend := Wrap(request, corrId);
      var pending := Pending(corrId, toSend, now, wait, callback);
      r := Transmit(pending);
    }

    /** The part of `submit` behind the framing: sends first, then tracks. */
    method Transmit(pending: Pending) returns (r: Result<Word>)
      modifies queue`pending, transport`nextError, transport.tx
      ensures
        var sendOk := transport.connected && old(transport.nextError).None?;
        && queue.pending == (if sendOk && !IsFull(old(queue.pending), queue.maxSize)
                             then Emplace(old(queue.pending), pending) else old(queue.pending))
        && transport.tx.messages == old(transport.tx.messages) + (if sendOk then [Encode(pending.request)] else [])
        && r == (if !transport.connected then Err(TRANSPORT_DISCONNECTED)
                 else if old(transport.nextError).Some? then Err(old(transport.nextError).value)
                 else if IsFull(old(queue.pending), queue.maxSize) then Err(PIPELINE_OVERFLOW)
                 else Ok(pending.id))
        && transport.nextError == (if transport.connected then None else old(transport.nextError))
    {
      var sendBytes := Serialize(pending.request);
      var sendResult := transport.Send(sendBytes);
      if sendResult.Err? {
        return Err(sendResult.error);
      }
      var inserted := queue.Insert(pending);
      if !inserted {
        return Err(PIPELINE_OVERFLOW);
      }
      r := Ok(pending.id);
    }

    method Poll(now: int)
      requires WellKeyed(queue.pending)
      modifies this, queue`pending, transport.rx
      ensures !transport.connected || old(transport.rx.messages) == [] ==>
        State() == old(State()) && transport.rx.messages == old(transport.rx.messages)
      ensures transport.connected && old(transport.rx.messages) != [] ==>
        transport.rx.messages == old(transport.rx.messages)[1..] &&
        exists expired :: PollOrder(old(State()), old(transport.rx.messages)[0], now, expired)
          && State() == AfterPoll(old(State()), old(transport.rx.messages)[0], now, expired)
    {
      var recv := transport.Receive();
      if recv.Err? {
        return;
      }
      ghost var expired := Dispatch(recv.value, now);
    }

    /** The part of `poll` behind the receive. */
    method Dispatch(frame: seq<Byte>, now: int) returns (ghost order: seq<Pending>)
      requires WellKeyed(queue.pending)
      modifies this, queue`pending
      ensures PollOrder(old(State()), frame, now, order)
      ensures State() == AfterPoll(old(State()), frame, now, order)
    {
      order := [];
      ghost var s := State();
      var pdu := Deserialize(frame);
      if pdu.Err? {
        return;
      }
      var corrId: Word := 0;
      if pdu.value.header.Some? {
        corrId := pdu.value.header.value.correlationId;
      }
      assert corrId == ReplyId(pdu.value);
      var pending := queue.Remove(corrId);
      if pending.None? {
        assert queue.pending == s.pending;
        return;
      }
      assert Matches(s, frame) && queue.pending == Others(s, frame);
      totalCompleted := U64(totalCompleted + 1);
      totalLatencyUs := U64(totalLatencyUs + U64(now - pending.value.sentAt));
      if pending.value.callback.Some? {
        calls := calls + [Call(pending.value.callback.value, Ok(pdu.value), now)];
      }
      assert calls == s.calls + CallOf(pending.value, Ok(pdu.value), now);
      var expired := queue.RemoveExpired(now);
      NotifyExpired(expired, now);
      order := expired;
    }

    /** The loop over the expired requests. */
    method NotifyExpired(expired: seq<Pending>, now: int)
      modifies this`calls
      ensures calls == old(calls) + ExpiryCalls(expired, now)
    {
      for i := 0 to |expired|
        invariant calls == old(calls) + ExpiryCalls(expired[..i], now)
      {
        assert expired[..i + 1][..i] == expired[..i];
        if expired[i].callback.Some? {
          calls := calls + [Call(expired[i].callback.value, Err(TIMEOUT_EXPIRED), now)];
        }
      }
      assert expired[..|expired|] == expired;
    }

    method Cancel(id: Word) returns (erased: bool)
      modifies queue`pending
      ensures erased == (id in old(queue.pending))
      ensures State() == old(State()).(pending := old(queue.pending) - {id})
    {
      erased := queue.Cancel(id);
    }

    method AverageLatency() returns (us: nat)
      ensures us == if totalCompleted == 0 then 0 else totalLatencyUs / totalCompleted
    {
      if totalCompleted == 0 {
        return 0;
      }
      us := totalLatencyUs / totalCompleted;
    }
  }

  // ---- nested framing -----------------------------------------------------------------

  lemma BeginHeader(id: Word, payload: seq<Byte>, sent: Pdu)
    requires sent == MakeExtended(FrameHeader(1, 0, id, None, PIPELINE_BEGIN, 0), payload, None)
    ensures sent == Pdu(0x6E, Some(FrameHeader(1, 0, id, None, 0x0A, |payload| % 0x1_0000)), payload, None)
  {
  }

  lemma WrappedWellFormed(request: Pdu, id: Word)
    requires request.header.None?
    ensures ToSend(request, id).header.Some? && ReplyId(ToSend(request, id)) == id
    ensures ToSend(request, id).payload == Encode(request)
    ensures WellFormed(ToSend(request, id)) <==> |Encode(request)| < 0x1_0000
  {
    MakeExtendedWellFormed(FrameHeader(1, 0, id, None, PIPELINE_BEGIN, 0), Encode(request), None);
  }

  /** What arrives for a submitted standard request is an extended frame with the drawn id,
      exactly when the request fits the 16-bit payload length; and what it carries is the
      request, exactly when that round-trips by itself. */
  lemma NestedFraming(request: Pdu, id: Word, sent: Pdu)
    requires request.header.None? && sent == ToSend(request, id)
    ensures sent == Pdu(0x6E, sent.header, Encode(request), None)
    ensures sent.header == Some(FrameHeader(1, 0, id, None, 0x0A, |Encode(request)| % 0x1_0000))
    ensures Decode(Encode(sent)) == Ok(sent) <==> |Encode(request)| < 0x1_0000
    ensures Decode(sent.payload) == Ok(request) <==> WellFormed(request)
  {
    BeginHeader(id, Encode(request), sent);
    WrappedWellFormed(request, id);
    RoundTripIff(sent);
    RoundTripIff(request);
  }

  /** An extended request keeps everything but the id. */
  lemma ExtendedKept(request: Pdu, id: Word)
    requires request.header.Some? && WellFormed(request)
    ensures ToSend(request, id) == request.(header := Some(request.header.value.(correlationId := id)))
    ensures WellFormed(ToSend(request, id)) && ReplyId(ToSend(request, id)) == id
  {
  }

  // ---- what the code does with the awkward cases ------------------------------------------

  /** `remove_expired` splits the entries; none is lost, none is kept in both parts. */
  lemma ExpiryPartitions(pending: map<Word, Pending>, now: int)
    ensures Expired(pending, now).Keys !! Unexpired(pending, now).Keys
    ensures Expired(pending, now) + Unexpired(pending, now) == pending
    ensures |Expired(pending, now)| + |Unexpired(pending, now)| == |pending|
  {
    var e, u := Expired(pending, now), Unexpired(pending, now);
    assert e + u == pending;
    assert (e + u).Keys == e.Keys + u.Keys;
    assert |e.Keys + u.Keys| == |e.Keys| + |u.Keys|;
  }

  /** An id that is still pending: `submit` reports success, but the new request is dropped,
      and the next reply with this id, meant for it, goes to the old callback. */
  lemma CollisionMisdelivers(s: PipeState, request: Pdu, callback: Option<nat>, timeout: int, now: int, reply: Pdu)
    requires s.counter in s.pending && !IsFull(s.pending, s.maxSize)
    requires WellFormed(reply) && reply.header.Some? && ReplyId(reply) == s.counter
    requires s.pending[s.counter].callback.Some?
    ensures
      var s' := AfterSubmit(s, request, callback, timeout, now, true);
      && s'.pending == s.pending
      && Matches(s', Encode(reply))
      && forall expired :: AfterPoll(s', Encode(reply), now, expired).calls
           == s.calls + [Call(s.pending[s.counter].callback.value, Ok(reply), now)] + ExpiryCalls(expired, now)
  {
    RoundTripIff(reply);
  }

  /** Polling a frame that parses as an extended one, spelled out. */
  lemma PollOfFrame(s: PipeState, frame: seq<Byte>, pdu: Pdu, now: int, expired: seq<Pending>)
    requires Decode(frame) == Ok(pdu) && pdu.header.Some?
    ensures Matches(s, frame) <==> ReplyId(pdu) in s.pending
    ensures ReplyId(pdu) !in s.pending ==> AfterPoll(s, frame, now, expired) == s
    ensures ReplyId(pdu) in s.pending ==> Others(s, frame) == s.pending - {ReplyId(pdu)}
    ensures ReplyId(pdu) in s.pending ==>
      (AfterPoll(s, frame, now, expired) ==
       s.(pending := Unexpired(s.pending - {ReplyId(pdu)}, now),
          completed := U64(s.completed + 1),
          latency := U64(s.latency + U64(now - s.pending[ReplyId(pdu)].sentAt)),
          calls := s.calls + CallOf(s.pending[ReplyId(pdu)], Ok(pdu), now) + ExpiryCalls(expired, now)))
  {
  }

  /** Any standard frame, whatever it answers, completes a request that is pending under
      id 0. */
  lemma StandardFrameMatchesZero(s: PipeState, frame: seq<Byte>)
    requires frame != [] && frame[0] != EXTENDED && frame[0] != EXTENDED_STREAM
    ensures Matches(s, frame) <==> 0 in s.pending
  {
  }
}
