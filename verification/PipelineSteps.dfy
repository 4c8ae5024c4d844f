/** What one submit and one poll do to the requests in flight, in terms of clock readings and ids. */
module PipelineSteps {
  import opened Bytes
  import opened PduCodec
  import opened Pipelines
  import opened PipelineProtocol

  // ---- submit ------------------------------------------------------------------

  /** What `submit` promises to wait, in milliseconds: 0 asks for the default. */
  predicate Waits(p: Pending, timeout: int, defaultTimeout: int)
  {
    (timeout != 0 ==> p.timeout == timeout) && (timeout == 0 ==> p.timeout == defaultTimeout)
  }

  /** There is room, and nobody waits under the id that comes next. */
  predicate Room(s: PipeState)
  {
    (s.maxSize == 0 || |s.pending| < s.maxSize) && s.counter !in s.pending
  }

  /** A submit whose frame goes out adds one entry under the id drawn, with the caller's timeout,
      the time and the callback, and leaves the other entries as they are. */
  lemma SubmitTracks(s: PipeState, request: Pdu, callback: Option<nat>, timeout: int, now: int, after: PipeState)
    requires Room(s) && after == AfterSubmit(s, request, callback, timeout, now, true)
    ensures after.pending.Keys == s.pending.Keys + {s.counter}
    ensures forall id | id in s.pending :: after.pending[id] == s.pending[id]
    ensures
      var p := after.pending[s.counter];
      && p.id == s.counter && p.sentAt == now && p.callback == callback && Waits(p, timeout, s.defaultTimeout)
      && p.request.header.Some? && p.request.header.value.correlationId == s.counter
  {
  }

  /** A frame that could not be sent, a full queue or an id still waited for: no entry is added. */
  lemma SubmitDrops(s: PipeState, request: Pdu, callback: Option<nat>, timeout: int, now: int, sendOk: bool,
                    after: PipeState)
    requires after == AfterSubmit(s, request, callback, timeout, now, sendOk) && !(sendOk && Room(s))
    ensures after.pending == s.pending
  {
  }

  /** Every submit uses up one id and touches nothing else. */
  lemma SubmitDraws(s: PipeState, request: Pdu, callback: Option<nat>, timeout: int, now: int, sendOk: bool,
                    after: PipeState)
    requires after == AfterSubmit(s, request, callback, timeout, now, sendOk)
    ensures after.counter == (s.counter + 1 as int) % 0x1_0000
    ensures after == s.(counter := after.counter, pending := after.pending)
  {
  }

  // ---- poll ----------------------------------------------------------------------

  /** The request has waited longer than it was to. */
  predicate Overdue(p: Pending, now: int) { now - p.sentAt > p.timeout * 1000 }

  /** The id under which a parsed frame is looked up. */
  predicate Answers(frame: seq<Byte>, pdu: Pdu, id: Word)
  {
    Decode(frame) == Ok(pdu) &&
    ((pdu.header.Some? && pdu.header.value.correlationId == id) || (pdu.header.None? && id == 0))
  }

  /** A poll that answers an entry takes it out together with every overdue one and keeps the
      others as they are. */
  lemma PollTakesOut(s: PipeState, frame: seq<Byte>, pdu: Pdu, id: Word, now: int, expired: seq<Pending>,
                     after: PipeState)
    requires Answers(frame, pdu, id) && id in s.pending && after == AfterPoll(s, frame, now, expired)
    ensures forall x: Word ::
      x in after.pending <==> x in s.pending && x != id && !Overdue(s.pending[x], now)
    ensures forall x | x in after.pending :: after.pending[x] == s.pending[x]
  {
    assert ReplyId(pdu) == id && Matches(s, frame) && Others(s, frame) == s.pending - {id};
  }

  /** It first calls the callback of the entry that is answered; */
  lemma PollCallsBack(s: PipeState, frame: seq<Byte>, pdu: Pdu, id: Word, now: int, expired: seq<Pending>,
                      after: PipeState, c: nat)
    requires Answers(frame, pdu, id) && id in s.pending && s.pending[id].callback == Some(c)
    requires after == AfterPoll(s, frame, now, expired)
    ensures |s.calls| < |after.calls| && after.calls[..|s.calls|] == s.calls
    ensures after.calls[|s.calls|] == Call(c, Ok(pdu), now)
  {
    assert ReplyId(pdu) == id && Matches(s, frame);
    assert after.calls == s.calls + [Call(c, Ok(pdu), now)] + ExpiryCalls(expired, now);
  }

  /** and then the callbacks of all the overdue. */
  lemma PollCallsOverdue(s: PipeState, frame: seq<Byte>, pdu: Pdu, id: Word, now: int, expired: seq<Pending>,
                         after: PipeState, x: Word, c: nat)
    requires Answers(frame, pdu, id) && id in s.pending && x in s.pending && x != id
    requires Overdue(s.pending[x], now) && s.pending[x].callback == Some(c)
    requires PollOrder(s, frame, now, expired) && after == AfterPoll(s, frame, now, expired)
    ensures |s.calls| <= |after.calls| && Call(c, Err(0x88), now) in after.calls[|s.calls|..]
  {
    var others := s.pending - {id};
    assert ReplyId(pdu) == id && Matches(s, frame) && Others(s, frame) == others;
    assert x in Expired(others, now) && s.pending[x] in expired;
    CallMade(expired, s.pending[x], now);
    var reply, es := CallOf(s.pending[id], Ok(pdu), now), ExpiryCalls(expired, now);
    assert after.calls == s.calls + reply + es;
    assert after.calls[|s.calls|..] == reply + es;
  }

  lemma {:induction false} CallMade(ps: seq<Pending>, p: Pending, now: int)
    requires p in ps && p.callback.Some?
    ensures Call(p.callback.value, Err(0x88), now) in ExpiryCalls(ps, now)
    decreases |ps|
  {
    var n := |ps| - 1;
    assert ps == ps[..n] + [ps[n]];
    if p in ps[..n] {
      CallMade(ps[..n], p, now);
    }
  }

  /** The statistics count the answer and add the time since its submit, as 64-bit counters. */
  lemma PollCounts(s: PipeState, frame: seq<Byte>, pdu: Pdu, id: Word, now: int, expired: seq<Pending>,
                   after: PipeState)
    requires Answers(frame, pdu, id) && id in s.pending && after == AfterPoll(s, frame, now, expired)
    ensures after.completed == (s.completed + 1) % 0x1_0000_0000_0000_0000
    ensures after.latency == (s.latency + (now - s.pending[id].sentAt)) % 0x1_0000_0000_0000_0000
    ensures after == s.(pending := after.pending, calls := after.calls,
                        completed := after.completed, latency := after.latency)
  {
    assert ReplyId(pdu) == id && Matches(s, frame);
    U64Adds(now - s.pending[id].sentAt, s.latency);
  }

  /** A frame that does not parse, or answers nothing, changes nothing: then not even what is
      overdue is taken out. */
  lemma PollIgnores(s: PipeState, frame: seq<Byte>, now: int, expired: seq<Pending>)
    requires forall pdu, id :: Answers(frame, pdu, id) ==> id !in s.pending
    ensures AfterPoll(s, frame, now, expired) == s
  {
    if Decode(frame).Ok? {
      assert Answers(frame, Decode(frame).value, ReplyId(Decode(frame).value));
    }
  }

  // ---- in a run ------------------------------------------------------------------------

  /** Serial `k` is in the queue, under the id it drew. */
  ghost predicate InQueue(s: Sys, k: nat)
  {
    k < |s.ids| && s.ids[k] in s.pipe.pending && s.pipe.pending[s.ids[k]].callback == Some(k)
  }

  /** More than the milliseconds that its own submit was given have gone by. */
  ghost predicate TimeIsUp(s: Sys, k: nat)
  {
    k < |s.times| && k < |s.timeouts| && s.now - s.times[k] > s.timeouts[k] * 1000
  }

  /** In every run a poll that answers some request tells everybody else whose time is up, and
      nobody whose time is not; the latter stay in the queue. */
  lemma TimeoutsDelivered(run: seq<Sys>, n: nat, s': Sys, expired: seq<Pending>, k: nat)
    requires IsRun(run) && n < |run| && Poll(run[n], s', expired)
    requires |s'.pipe.calls| > |run[n].pipe.calls|
    requires InQueue(run[n], k) && !(run[n].inbox[0].Reply? && run[n].inbox[0].serial == k)
    ensures TimeIsUp(run[n], k) ==> Call(k, Err(0x88), run[n].now) in s'.pipe.calls && !InQueue(s', k)
    ensures !TimeIsUp(run[n], k) ==> InQueue(s', k) && k !in Called(s'.pipe.calls)
  {
    var s := run[n];
    RunInvariant(run, n);
    PollKeeps(s, s', expired);
    FirstOwned(s);
    var m, id := s.inbox[0], s.ids[k];
    RoundTripIff(m.pdu);
    PollTakesOut(s.pipe, FrameOf(m), m.pdu, ReplyId(m.pdu), s.now, expired, s'.pipe);
    assert id != ReplyId(m.pdu);
    if TimeIsUp(s, k) {
      PollCallsOverdue(s.pipe, FrameOf(m), m.pdu, ReplyId(m.pdu), s.now, expired, s'.pipe, id, k);
    } else {
      assert k in PendingSerials(s'.pipe.pending);
    }
  }
}
