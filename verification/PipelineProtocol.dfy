/**
 The pipeline together with its peer: submits, replies in any order, polls, cancels and the
 passing of time interleave freely. Requests carry serial numbers that exist only in the model
 and serve as their callbacks; on the wire there are only the 16-bit ids, which wrap.
 */
module PipelineProtocol {
  import opened Bytes
  import opened PduCodec
  import opened Pipelines

  /** A message on its way to the client: the reply to a request, or any other bytes. */
  datatype Message = Reply(serial: nat, pdu: Pdu) | Noise(bytes: seq<Byte>)

  datatype Sys = Sys(
    pipe: PipeState,
    now: int,
    wire: set<nat>,            // requests sent and not answered yet
    inbox: seq<Message>,       // the queue to the client
    ids: seq<Word>,            // the id drawn for each serial
    times: seq<int>,           // when each serial was submitted
    timeouts: seq<int>,        // how long it may take, in milliseconds
    answers: map<nat, Pdu>,    // what the peer replied to each serial
    accepted: set<nat>,        // serials whose submit reported success
    cancelled: set<nat>)

  ghost predicate Init(s: Sys)
  {
    && s.pipe.pending == map[] && s.pipe.completed == 0 && s.pipe.latency == 0 && s.pipe.calls == []
    && s.wire == {} && s.inbox == [] && s.ids == [] && s.times == [] && s.timeouts == []
    && s.answers == map[] && s.accepted == {} && s.cancelled == {}
  }

  // ---- steps ----------------------------------------------------------------------

  predicate Carries(bytes: seq<Byte>, id: Word) { Decode(bytes).Ok? && ReplyId(Decode(bytes).value) == id }

  /** No pending entry and no message in transit still carries the id that comes next. */
  ghost predicate Fresh(s: Sys)
  {
    && s.pipe.counter !in s.pipe.pending
    && (forall k | k in s.wire && k < |s.ids| :: s.ids[k] != s.pipe.counter)
    && (forall m | m in s.inbox && m.Reply? && m.serial < |s.ids| :: s.ids[m.serial] != s.pipe.counter)
    && forall m | m in s.inbox && m.Noise? :: !Carries(m.bytes, s.pipe.counter)
  }

  /** `submit`, failing in the transport or not, overflowing or not. */
  ghost predicate AnySubmit(s: Sys, s': Sys, request: Pdu, timeout: int, sendOk: bool)
  {
    var k := |s.ids|;
    s' == s.(pipe := AfterSubmit(s.pipe, request, Some(k), timeout, s.now, sendOk),
             wire := if sendOk then s.wire + {k} else s.wire,
             ids := s.ids + [s.pipe.counter],
             times := s.times + [s.now],
             timeouts := s.timeouts + [if timeout == 0 then s.pipe.defaultTimeout else timeout],
             accepted := if sendOk && !IsFull(s.pipe.pending, s.pipe.maxSize)
                         then s.accepted + {k} else s.accepted)
  }

  ghost predicate Submit(s: Sys, s': Sys, request: Pdu, timeout: int, sendOk: bool)
  {
    Fresh(s) && AnySubmit(s, s', request, timeout, sendOk)
  }

  /** The peer answers some request it has received, overflowed ones included. */
  ghost predicate Answer(s: Sys, s': Sys, k: nat, pdu: Pdu)
  {
    && k in s.wire && k < |s.ids|
    && WellFormed(pdu) && pdu.header.Some? && ReplyId(pdu) == s.ids[k]
    && s' == s.(wire := s.wire - {k}, inbox := s.inbox + [Reply(k, pdu)], answers := s.answers[k := pdu])
  }

  ghost predicate Ignore(s: Sys, s': Sys, k: nat) { s' == s.(wire := s.wire - {k}) }

  /** Anything else arrives: bytes that do not parse, standard frames, duplicates, unless they
      carry an id that is pending. */
  ghost predicate Intrude(s: Sys, s': Sys, bytes: seq<Byte>)
  {
    !Matches(s.pipe, bytes) && s' == s.(inbox := s.inbox + [Noise(bytes)])
  }

  function FrameOf(m: Message): seq<Byte> { if m.Reply? then Encode(m.pdu) else m.bytes }

  ghost predicate Poll(s: Sys, s': Sys, expired: seq<Pending>)
  {
    && s.inbox != []
    && PollOrder(s.pipe, FrameOf(s.inbox[0]), s.now, expired)
    && s' == s.(pipe := AfterPoll(s.pipe, FrameOf(s.inbox[0]), s.now, expired), inbox := s.inbox[1..])
  }

  ghost predicate Cancel(s: Sys, s': Sys, id: Word)
  {
    s' == s.(pipe := s.pipe.(pending := s.pipe.pending - {id}),
             cancelled := if id in s.pipe.pending && s.pipe.pending[id].callback.Some?
                          then s.cancelled + {s.pipe.pending[id].callback.value} else s.cancelled)
  }

  ghost predicate Tick(s: Sys, s': Sys) { s'.now >= s.now && s' == s.(now := s'.now) }

  ghost predicate Next(s: Sys, s': Sys)
  {
    || (exists request, timeout, sendOk :: Submit(s, s', request, timeout, sendOk))
    || (exists k, pdu :: Answer(s, s', k, pdu))
    || (exists k :: Ignore(s, s', k))
    || (exists bytes :: Intrude(s, s', bytes))
    || (exists expired :: Poll(s, s', expired))
    || (exists id :: Cancel(s, s', id))
    || Tick(s, s')
    || s' == s
  }

  // ---- the invariant ------------------------------------------------------------------

  ghost predicate PendingSound(s: Sys)
  {
    forall id | id in s.pipe.pending ::
      var p := s.pipe.pending[id];
      p.id == id && p.callback.Some? && p.callback.value in s.accepted
      && p.callback.value < |s.ids| && p.callback.value < |s.times| && p.callback.value < |s.timeouts|
      && s.ids[p.callback.value] == id && s.times[p.callback.value] == p.sentAt
      && s.timeouts[p.callback.value] == p.timeout
  }

  /** A message in transit that carries a pending id belongs to the pending request. */
  ghost predicate TransitSound(s: Sys)
  {
    && (forall k | k in s.wire :: k < |s.ids| && k !in s.answers)
    && (forall k | k in s.wire && k < |s.ids| && s.ids[k] in s.pipe.pending ::
          s.pipe.pending[s.ids[k]].callback == Some(k))
    && forall m | m in s.inbox ::
         if m.Noise? then !Matches(s.pipe, m.bytes)
         else
           && m.serial < |s.ids| && m.serial in s.answers && s.answers[m.serial] == m.pdu
           && WellFormed(m.pdu) && m.pdu.header.Some? && ReplyId(m.pdu) == s.ids[m.serial]
           && (s.ids[m.serial] in s.pipe.pending ==> s.pipe.pending[s.ids[m.serial]].callback == Some(m.serial))
  }

  /** A callback is told the reply to its own request, or that its time is up, which it is. */
  predicate RightOutcome(s: Sys, c: Call)
  {
    match c.outcome
    case Ok(pdu) => c.callback in s.answers && s.answers[c.callback] == pdu
    case Err(e) =>
      && e == TIMEOUT_EXPIRED && c.callback < |s.times| && c.callback < |s.timeouts|
      && c.at - s.times[c.callback] > s.timeouts[c.callback] * 1000
  }

  predicate AllRight(s: Sys) { forall c | c in s.pipe.calls :: RightOutcome(s, c) }

  predicate AtMostOnce(calls: seq<Call>)
  {
    forall i, j :: 0 <= i < j < |calls| ==> calls[i].callback != calls[j].callback
  }

  function Called(calls: seq<Call>): set<nat> { set c | c in calls :: c.callback }

  function PendingSerials(pending: map<Word, Pending>): set<nat>
  {
    set id | id in pending && pending[id].callback.Some? :: pending[id].callback.value
  }

  /** Every accepted request is pending, cancelled or called back, and only one of these. */
  ghost predicate Partition(s: Sys)
  {
    && s.accepted == Called(s.pipe.calls) + s.cancelled + PendingSerials(s.pipe.pending)
    && Called(s.pipe.calls) !! s.cancelled
    && Called(s.pipe.calls) !! PendingSerials(s.pipe.pending)
    && s.cancelled !! PendingSerials(s.pipe.pending)
  }

  function Replies(calls: seq<Call>): nat
  {
    if calls == [] then 0
    else Replies(calls[..|calls| - 1]) + if calls[|calls| - 1].outcome.Ok? then 1 else 0
  }

  /** The sum over the replies of the time from submit to callback. */
  function TotalLatency(calls: seq<Call>, times: seq<int>): int
  {
    if calls == [] then 0
    else
      var c := calls[|calls| - 1];
      TotalLatency(calls[..|calls| - 1], times)
      + if c.outcome.Ok? && c.callback < |times| then c.at - times[c.callback] else 0
  }

  ghost predicate Statistics(s: Sys)
  {
    s.pipe.completed == U64(Replies(s.pipe.calls))
    && s.pipe.latency == U64(TotalLatency(s.pipe.calls, s.times))
  }

  ghost predicate Bounds(s: Sys)
  {
    && |s.ids| == |s.times| == |s.timeouts|
    && (forall k | k in s.accepted || k in s.answers :: k < |s.ids|)
    && (forall c | c in s.pipe.calls :: c.callback < |s.ids| && c.at <= s.now)
    && (forall k | 0 <= k < |s.times| :: s.times[k] <= s.now)
    && (s.pipe.maxSize > 0 ==> |s.pipe.pending| <= s.pipe.maxSize)
  }

  ghost predicate Inv(s: Sys)
  {
    && Bounds(s) && PendingSound(s) && TransitSound(s) && Partition(s) && Statistics(s)
    && AtMostOnce(s.pipe.calls) && AllRight(s)
  }

  // ---- every step keeps it ----------------------------------------------------------------

  lemma InitInv(s: Sys)
    requires Init(s)
    ensures Inv(s)
  {
  }

  lemma {:induction false} LatencyStable(calls: seq<Call>, times: seq<int>, t: int)
    requires forall c | c in calls :: c.callback < |times|
    ensures TotalLatency(calls, times + [t]) == TotalLatency(calls, times)
    decreases calls
  {
    if calls != [] {
      var front, c := calls[..|calls| - 1], calls[|calls| - 1];
      assert calls == front + [c] && c in calls;
      LatencyStable(front, times, t);
    }
  }

  ghost predicate DistinctCallbacks(pending: map<Word, Pending>)
  {
    && (forall id | id in pending :: pending[id].callback.Some?)
    && forall i, j | i in pending && j in pending && pending[i].callback == pending[j].callback :: i == j
  }

  lemma SerialsAdd(pending: map<Word, Pending>, p: Pending)
    requires p.id !in pending && p.callback.Some?
    ensures PendingSerials(pending[p.id := p]) == PendingSerials(pending) + {p.callback.value}
  {
    var q := pending[p.id := p];
    forall k | k in PendingSerials(pending)
      ensures k in PendingSerials(q)
    {
      var id :| id in pending && pending[id].callback == Some(k);
      assert id in q && q[id] == pending[id];
    }
    assert p.id in q && q[p.id] == p;
  }

  lemma SerialsSplit(pending: map<Word, Pending>, a: map<Word, Pending>, b: map<Word, Pending>)
    requires DistinctCallbacks(pending) && a.Keys !! b.Keys && a + b == pending
    ensures PendingSerials(pending) == PendingSerials(a) + PendingSerials(b)
    ensures PendingSerials(a) !! PendingSerials(b)
  {
    forall id | id in pending
      ensures if id in a then a[id] == pending[id] else id in b && b[id] == pending[id]
    {
      assert id in (a + b).Keys;
    }
    assert forall id | id in a :: id in pending;
    assert forall id | id in b :: id in pending;
    forall k | k in PendingSerials(pending)
      ensures k in PendingSerials(a) || k in PendingSerials(b)
    {
      var id :| id in pending && pending[id].callback == Some(k);
      assert id in a || id in b;
    }
  }

  lemma SerialsRemove(pending: map<Word, Pending>, id: Word)
    requires DistinctCallbacks(pending) && id in pending
    ensures var k := pending[id].callback.value;
      && PendingSerials(pending) == {k} + PendingSerials(pending - {id})
      && k !in PendingSerials(pending - {id}) && DistinctCallbacks(pending - {id})
  {
    var one := map[id := pending[id]];
    assert one + (pending - {id}) == pending;
    SerialsSplit(pending, one, pending - {id});
    assert PendingSerials(one) == {pending[id].callback.value};
  }

  lemma PendingDistinct(s: Sys)
    requires PendingSound(s)
    ensures DistinctCallbacks(s.pipe.pending)
  {
    var p := s.pipe.pending;
    forall i, j | i in p && j in p && p[i].callback == p[j].callback
      ensures i == j
    {
      assert s.ids[p[i].callback.value] == i && s.ids[p[j].callback.value] == j;
    }
  }

  lemma SubmitPartition(s: Sys, s': Sys, request: Pdu, timeout: int, sendOk: bool)
    requires Inv(s) && Submit(s, s', request, timeout, sendOk)
    ensures Partition(s')
  {
    var k := |s.ids|;
    if sendOk && !IsFull(s.pipe.pending, s.pipe.maxSize) {
      SerialsAdd(s.pipe.pending, NewPending(s.pipe, request, Some(k), timeout, s.now));
    }
  }

  lemma SubmitPending(s: Sys, s': Sys, request: Pdu, timeout: int, sendOk: bool)
    requires Inv(s) && Submit(s, s', request, timeout, sendOk)
    ensures PendingSound(s')
  {
    var p := NewPending(s.pipe, request, Some(|s.ids|), timeout, s.now);
    forall id | id in s'.pipe.pending
      ensures s'.pipe.pending[id] == (if id in s.pipe.pending then s.pipe.pending[id] else p)
    {
    }
  }

  lemma AddSize(pending: map<Word, Pending>, p: Pending)
    requires p.id !in pending
    ensures |pending[p.id := p]| == |pending| + 1
  {
    assert pending[p.id := p].Keys == pending.Keys + {p.id};
  }

  lemma SubmitBounds(s: Sys, s': Sys, request: Pdu, timeout: int, sendOk: bool)
    requires Inv(s) && Submit(s, s', request, timeout, sendOk)
    ensures Bounds(s')
  {
    if sendOk && !IsFull(s.pipe.pending, s.pipe.maxSize) {
      AddSize(s.pipe.pending, NewPending(s.pipe, request, Some(|s.ids|), timeout, s.now));
    }
    assert forall k | k in s'.accepted :: k in s.accepted || k == |s.ids|;
  }

  lemma SubmitTransit(s: Sys, s': Sys, request: Pdu, timeout: int, sendOk: bool)
    requires Inv(s) && Submit(s, s', request, timeout, sendOk)
    ensures TransitSound(s')
  {
    var k, id := |s.ids|, s.pipe.counter;
    assert k !in s.answers || k !in s'.wire;
    forall j | j in s'.wire && s'.ids[j] in s'.pipe.pending
      ensures s'.pipe.pending[s'.ids[j]].callback == Some(j)
    {
    }
  }

  lemma SubmitKeeps(s: Sys, s': Sys, request: Pdu, timeout: int, sendOk: bool)
    requires Inv(s) && Submit(s, s', request, timeout, sendOk)
    ensures Inv(s')
  {
    SubmitPartition(s, s', request, timeout, sendOk);
    SubmitPending(s, s', request, timeout, sendOk);
    SubmitBounds(s, s', request, timeout, sendOk);
    SubmitTransit(s, s', request, timeout, sendOk);
    LatencyStable(s.pipe.calls, s.times, s.now);
    forall c | c in s'.pipe.calls
      ensures RightOutcome(s', c)
    {
      assert RightOutcome(s, c);
    }
  }

  lemma AnswerTransit(s: Sys, s': Sys, k: nat, pdu: Pdu)
    requires Inv(s) && Answer(s, s', k, pdu)
    ensures TransitSound(s')
  {
  }

  lemma AnswerKeeps(s: Sys, s': Sys, k: nat, pdu: Pdu)
    requires Inv(s) && Answer(s, s', k, pdu)
    ensures Inv(s')
  {
    AnswerTransit(s, s', k, pdu);
    forall c | c in s'.pipe.calls
      ensures RightOutcome(s', c)
    {
      assert RightOutcome(s, c);
    }
  }

  lemma IntrudeKeeps(s: Sys, s': Sys, bytes: seq<Byte>)
    requires Inv(s) && Intrude(s, s', bytes)
    ensures Inv(s')
  {
  }

  /** Taking entries out keeps what is said about the ones that stay. */
  lemma ShrinkKeeps(s: Sys, s': Sys)
    requires PendingSound(s) && TransitSound(s)
    requires s' == s.(pipe := s'.pipe, inbox := s'.inbox, cancelled := s'.cancelled)
    requires forall id | id in s'.pipe.pending :: id in s.pipe.pending && s'.pipe.pending[id] == s.pipe.pending[id]
    requires forall m | m in s'.inbox :: m in s.inbox
    ensures PendingSound(s') && TransitSound(s')
    ensures |s'.pipe.pending| <= |s.pipe.pending|
  {
    SubsetCardinality(s'.pipe.pending.Keys, s.pipe.pending.Keys);
  }

  lemma CancelPartition(s: Sys, s': Sys, id: Word)
    requires Inv(s) && Cancel(s, s', id) && id in s.pipe.pending
    ensures Partition(s')
  {
    PendingDistinct(s);
    SerialsRemove(s.pipe.pending, id);
  }

  lemma CancelRest(s: Sys, s': Sys, id: Word)
    requires Inv(s) && Cancel(s, s', id) && |s'.pipe.pending| <= |s.pipe.pending|
    ensures Bounds(s') && Statistics(s') && AtMostOnce(s'.pipe.calls) && AllRight(s')
  {
  }

  lemma CancelKeeps(s: Sys, s': Sys, id: Word)
    requires Inv(s) && Cancel(s, s', id)
    ensures Inv(s')
  {
    if id in s.pipe.pending {
      ShrinkKeeps(s, s');
      CancelRest(s, s', id);
      CancelPartition(s, s', id);
    } else {
      assert s.pipe.pending - {id} == s.pipe.pending;
      assert s' == s;
    }
  }

  // ---- a poll -----------------------------------------------------------------------------

  lemma {:induction false} ExpiryCallsAt(ps: seq<Pending>, now: int)
    requires forall p | p in ps :: p.callback.Some?
    ensures |ExpiryCalls(ps, now)| == |ps|
    ensures forall i | 0 <= i < |ps| ::
      ExpiryCalls(ps, now)[i] == Call(ps[i].callback.value, Err(TIMEOUT_EXPIRED), now)
    decreases ps
  {
    if ps != [] {
      var n := |ps| - 1;
      assert ps == ps[..n] + [ps[n]] && ps[n] in ps;
      ExpiryCallsAt(ps[..n], now);
      assert forall i | 0 <= i < n :: ps[..n][i] == ps[i];
    }
  }

  /** The expired entries are called back once each, and nobody else is. */
  lemma ExpiryFacts(ps: seq<Pending>, m: map<Word, Pending>, now: int)
    requires IsEnumeration(ps, m) && DistinctCallbacks(m)
    ensures
      var es := ExpiryCalls(ps, now);
      && AtMostOnce(es) && Called(es) == PendingSerials(m)
      && forall c | c in es :: c.outcome == Err(TIMEOUT_EXPIRED) && c.at == now
  {
    ExpiryCallsAt(ps, now);
    var es := ExpiryCalls(ps, now);
    forall i, j | 0 <= i < j < |es|
      ensures es[i].callback != es[j].callback
    {
      assert ps[i] in ps && ps[j] in ps && ps[i].id != ps[j].id;
      assert m[ps[i].id] == ps[i] && m[ps[j].id] == ps[j];
    }
    forall k | k in PendingSerials(m)
      ensures k in Called(es)
    {
      var id :| id in m && m[id].callback == Some(k);
      assert m[id] in ps;
      var i :| 0 <= i < |ps| && ps[i] == m[id];
      assert es[i] in es;
    }
    forall k | k in Called(es)
      ensures k in PendingSerials(m)
    {
      var i :| 0 <= i < |es| && es[i].callback == k;
      assert ps[i] in ps && m[ps[i].id] == ps[i];
    }
  }

  lemma {:induction false} CountsAppend(a: seq<Call>, b: seq<Call>, times: seq<int>)
    ensures Replies(a + b) == Replies(a) + Replies(b)
    ensures TotalLatency(a + b, times) == TotalLatency(a, times) + TotalLatency(b, times)
    decreases b
  {
    if b == [] {
      assert a + b == a;
    } else {
      var n := |b| - 1;
      assert (a + b)[..|a + b| - 1] == a + b[..n];
      CountsAppend(a, b[..n], times);
    }
  }

  lemma {:induction false} ErrorsCountNothing(es: seq<Call>, times: seq<int>)
    requires forall c | c in es :: c.outcome.Err?
    ensures Replies(es) == 0 && TotalLatency(es, times) == 0
    decreases es
  {
    if es != [] {
      var n := |es| - 1;
      assert es == es[..n] + [es[n]] && es[n] in es;
      ErrorsCountNothing(es[..n], times);
    }
  }

  lemma U64Unique(n: int, q: int, r: int)
    requires n == 0x1_0000_0000_0000_0000 * q + r && 0 <= r < 0x1_0000_0000_0000_0000
    ensures U64(n) == r
  {
  }

  /** Carries out of the top bit are lost, and nothing else. */
  lemma U64Adds(a: int, b: int)
    ensures U64(U64(a) + b) == U64(a + b)
  {
    var q := a / 0x1_0000_0000_0000_0000;
    var n := U64(a) + b;
    U64Unique(a + b, q + n / 0x1_0000_0000_0000_0000, U64(n));
  }

  /** What the first message says about the request that is pending under its id. */
  ghost predicate Owned(s: Sys, k: nat, pdu: Pdu)
  {
    && k < |s.ids| && k < |s.times| && ReplyId(pdu) == s.ids[k] && s.ids[k] in s.pipe.pending
    && s.pipe.pending[s.ids[k]].callback == Some(k) && s.pipe.pending[s.ids[k]].sentAt == s.times[k]
    && k in s.answers && s.answers[k] == pdu && WellFormed(pdu) && pdu.header.Some?
  }

  lemma FirstOwned(s: Sys)
    requires Inv(s) && s.inbox != [] && Matches(s.pipe, FrameOf(s.inbox[0]))
    ensures s.inbox[0].Reply? && Owned(s, s.inbox[0].serial, s.inbox[0].pdu)
  {
    var m := s.inbox[0];
    assert m in s.inbox;
    if m.Reply? {
      RoundTripIff(m.pdu);
      PollOfFrame(s.pipe, FrameOf(m), m.pdu, s.now, []);
    }
  }

  lemma CountsStep(calls: seq<Call>, times: seq<int>, c: Call, es: seq<Call>)
    requires c.outcome.Ok? && c.callback < |times| && forall e | e in es :: e.outcome.Err?
    ensures Replies(calls + [c] + es) == Replies(calls) + 1
    ensures TotalLatency(calls + [c] + es, times) == TotalLatency(calls, times) + c.at - times[c.callback]
  {
    ErrorsCountNothing(es, times);
    CountsAppend(calls, [c], times);
    CountsAppend(calls + [c], es, times);
    assert [c][..0] == [];
  }

  lemma StatisticsStep(calls: seq<Call>, times: seq<int>, c: Call, es: seq<Call>, completed: nat, latency: nat)
    requires completed == U64(Replies(calls)) && latency == U64(TotalLatency(calls, times))
    requires c.outcome.Ok? && c.callback < |times| && forall e | e in es :: e.outcome.Err?
    ensures U64(completed + 1) == U64(Replies(calls + [c] + es))
    ensures U64(latency + U64(c.at - times[c.callback])) == U64(TotalLatency(calls + [c] + es, times))
  {
    CountsStep(calls, times, c, es);
    var span := c.at - times[c.callback];
    U64Adds(Replies(calls), 1);
    U64Adds(span, latency);
    U64Adds(TotalLatency(calls, times), span);
  }

  lemma AtMostOnceAppend(a: seq<Call>, c: Call, es: seq<Call>)
    requires AtMostOnce(a) && AtMostOnce(es)
    requires c.callback !in Called(a) && c.callback !in Called(es) && Called(a) !! Called(es)
    ensures AtMostOnce(a + [c] + es)
    ensures Called(a + [c] + es) == Called(a) + {c.callback} + Called(es)
  {
    var all := a + [c] + es;
    assert forall x :: x in all <==> x in a || x == c || x in es;
    forall i, j | 0 <= i < j < |all|
      ensures all[i].callback != all[j].callback
    {
      assert i < |a| ==> all[i] in a && all[i].callback in Called(a);
      assert j < |a| ==> all[j] in a && all[j].callback in Called(a);
      assert i > |a| ==> all[i] == es[i - |a| - 1] && all[i] in es && all[i].callback in Called(es);
      assert j > |a| ==> all[j] == es[j - |a| - 1] && all[j] in es && all[j].callback in Called(es);
    }
  }

  /** Where the serials go when `id` is answered and the expired among the others time out. */
  lemma SerialsMove(pending: map<Word, Pending>, id: Word, k: nat, expired: seq<Pending>, now: int)
    requires DistinctCallbacks(pending) && id in pending && pending[id].callback == Some(k)
    requires IsEnumeration(expired, Expired(pending - {id}, now))
    ensures PendingSerials(pending)
         == {k} + Called(ExpiryCalls(expired, now)) + PendingSerials(Unexpired(pending - {id}, now))
    ensures k !in Called(ExpiryCalls(expired, now)) && k !in PendingSerials(Unexpired(pending - {id}, now))
    ensures Called(ExpiryCalls(expired, now)) !! PendingSerials(Unexpired(pending - {id}, now))
    ensures AtMostOnce(ExpiryCalls(expired, now))
    ensures forall e | e in ExpiryCalls(expired, now) :: e.outcome == Err(TIMEOUT_EXPIRED) && e.at == now
  {
    var others := pending - {id};
    SerialsRemove(pending, id);
    ExpiryPartitions(others, now);
    SerialsSplit(others, Expired(others, now), Unexpired(others, now));
    ExpiryFacts(expired, Expired(others, now), now);
  }

  /** A poll that matches, with its parts named. */
  ghost predicate Answered(s: Sys, s': Sys, k: nat, pdu: Pdu, es: seq<Call>)
  {
    && s' == s.(pipe := s'.pipe, inbox := s'.inbox) && Owned(s, k, pdu)
    && s'.pipe == s.pipe.(pending := Unexpired(s.pipe.pending - {s.ids[k]}, s.now),
                          completed := U64(s.pipe.completed + 1),
                          latency := U64(s.pipe.latency + U64(s.now - s.times[k])),
                          calls := s.pipe.calls + [Call(k, Ok(pdu), s.now)] + es)
  }

  lemma ReplyAnswers(s: Sys, s': Sys, k: nat, pdu: Pdu, expired: seq<Pending>)
    requires Owned(s, k, pdu) && PollOrder(s.pipe, Encode(pdu), s.now, expired)
    requires s' == s.(pipe := AfterPoll(s.pipe, Encode(pdu), s.now, expired), inbox := s'.inbox)
    ensures Answered(s, s', k, pdu, ExpiryCalls(expired, s.now))
    ensures IsEnumeration(expired, Expired(s.pipe.pending - {s.ids[k]}, s.now))
  {
    RoundTripIff(pdu);
    PollOfFrame(s.pipe, Encode(pdu), pdu, s.now, expired);
  }

  lemma AnsweredPartition(s: Sys, s': Sys, k: nat, pdu: Pdu, expired: seq<Pending>)
    requires Partition(s) && PendingSound(s) && AtMostOnce(s.pipe.calls)
    requires Answered(s, s', k, pdu, ExpiryCalls(expired, s.now))
    requires IsEnumeration(expired, Expired(s.pipe.pending - {s.ids[k]}, s.now))
    ensures Partition(s') && AtMostOnce(s'.pipe.calls)
  {
    PendingDistinct(s);
    SerialsMove(s.pipe.pending, s.ids[k], k, expired, s.now);
    AtMostOnceAppend(s.pipe.calls, Call(k, Ok(pdu), s.now), ExpiryCalls(expired, s.now));
  }

  lemma AnsweredStatistics(s: Sys, s': Sys, k: nat, pdu: Pdu, expired: seq<Pending>)
    requires Statistics(s) && PendingSound(s) && Answered(s, s', k, pdu, ExpiryCalls(expired, s.now))
    requires IsEnumeration(expired, Expired(s.pipe.pending - {s.ids[k]}, s.now))
    ensures Statistics(s')
  {
    PendingDistinct(s);
    SerialsMove(s.pipe.pending, s.ids[k], k, expired, s.now);
    var c, es := Call(k, Ok(pdu), s.now), ExpiryCalls(expired, s.now);
    StatisticsStep(s.pipe.calls, s.times, c, es, s.pipe.completed, s.pipe.latency);
  }

  /** Those who are told that their time is up have waited longer than they had to. */
  lemma ExpiryIsLate(s: Sys, id: Word, expired: seq<Pending>, e: Call)
    requires PendingSound(s) && IsEnumeration(expired, Expired(s.pipe.pending - {id}, s.now))
    requires e in ExpiryCalls(expired, s.now)
    ensures RightOutcome(s, e)
  {
    var m := Expired(s.pipe.pending - {id}, s.now);
    assert forall p | p in expired :: p.id in m && m[p.id] == p;
    assert forall x | x in m :: m[x] == s.pipe.pending[x] && m[x].callback.Some?;
    ExpiryCallsAt(expired, s.now);
    var i :| 0 <= i < |expired| && ExpiryCalls(expired, s.now)[i] == e;
    assert expired[i] in expired;
  }

  lemma AnsweredCalls(s: Sys, s': Sys, k: nat, pdu: Pdu, expired: seq<Pending>)
    requires Inv(s) && Answered(s, s', k, pdu, ExpiryCalls(expired, s.now)) && Partition(s')
    requires IsEnumeration(expired, Expired(s.pipe.pending - {s.ids[k]}, s.now))
    ensures AllRight(s') && forall x | x in s'.pipe.calls :: x.callback < |s.ids| && x.at <= s.now
  {
    PendingDistinct(s);
    SerialsMove(s.pipe.pending, s.ids[k], k, expired, s.now);
    var c, es := Call(k, Ok(pdu), s.now), ExpiryCalls(expired, s.now);
    forall x | x in s'.pipe.calls
      ensures RightOutcome(s', x) && x.callback < |s.ids| && x.at <= s.now
    {
      assert x in s.pipe.calls || x == c || x in es;
      assert x.callback in Called(s'.pipe.calls) && x.callback in s.accepted;
      if x in es {
        ExpiryIsLate(s, s.ids[k], expired, x);
      } else if x in s.pipe.calls {
        assert RightOutcome(s, x);
      }
    }
  }

  lemma PollKeeps(s: Sys, s': Sys, expired: seq<Pending>)
    requires Inv(s) && Poll(s, s', expired)
    ensures Inv(s')
  {
    if Matches(s.pipe, FrameOf(s.inbox[0])) {
      FirstOwned(s);
      var k, pdu := s.inbox[0].serial, s.inbox[0].pdu;
      ReplyAnswers(s, s', k, pdu, expired);
      AnsweredPartition(s, s', k, pdu, expired);
      AnsweredStatistics(s, s', k, pdu, expired);
      AnsweredCalls(s, s', k, pdu, expired);
    }
    ShrinkKeeps(s, s');
  }

  lemma IgnoreKeeps(s: Sys, s': Sys, k: nat)
    requires Inv(s) && Ignore(s, s', k)
    ensures Inv(s')
  {
  }

  lemma TickKeeps(s: Sys, s': Sys)
    requires Inv(s) && Tick(s, s')
    ensures Inv(s')
  {
  }

  lemma StepKeeps(s: Sys, s': Sys)
    requires Inv(s) && Next(s, s')
    ensures Inv(s')
  {
    if request, timeout, sendOk :| Submit(s, s', request, timeout, sendOk) {
      SubmitKeeps(s, s', request, timeout, sendOk);
    } else if k, pdu :| Answer(s, s', k, pdu) {
      AnswerKeeps(s, s', k, pdu);
    } else if k :| Ignore(s, s', k) {
      IgnoreKeeps(s, s', k);
    } else if bytes :| Intrude(s, s', bytes) {
      IntrudeKeeps(s, s', bytes);
    } else if expired :| Poll(s, s', expired) {
      PollKeeps(s, s', expired);
    } else if id :| Cancel(s, s', id) {
      CancelKeeps(s, s', id);
    } else if Tick(s, s') {
      TickKeeps(s, s');
    }
  }

  // ---- whole runs --------------------------------------------------------------------------

  ghost predicate IsRun(run: seq<Sys>)
  {
    run != [] && Init(run[0]) && forall i | 0 <= i < |run| - 1 :: Next(run[i], run[i + 1])
  }

  lemma {:induction false} RunInvariant(run: seq<Sys>, n: nat)
    requires IsRun(run) && n < |run|
    ensures Inv(run[n])
  {
    if n == 0 {
      InitInv(run[0]);
    } else {
      RunInvariant(run, n - 1);
      StepKeeps(run[n - 1], run[n]);
    }
  }

  /** In every run, however often the ids wrap: a callback is invoked at most once, for an
      accepted request that was not cancelled, with the reply to that request, or with a timeout
      after its time was up. */
  lemma ResponsesMatch(run: seq<Sys>, n: nat)
    requires IsRun(run) && n < |run|
    ensures AtMostOnce(run[n].pipe.calls)
    ensures forall c | c in run[n].pipe.calls ::
      && c.callback in run[n].accepted && c.callback !in run[n].cancelled
      && RightOutcome(run[n], c)
  {
    RunInvariant(run, n);
    forall c | c in run[n].pipe.calls
      ensures c.callback in Called(run[n].pipe.calls)
    {
    }
  }

  lemma {:induction false} CalledSize(calls: seq<Call>)
    requires AtMostOnce(calls)
    ensures |Called(calls)| == |calls|
    decreases calls
  {
    if calls != [] {
      var n := |calls| - 1;
      assert calls == calls[..n] + [calls[n]];
      CalledSize(calls[..n]);
      assert Called(calls) == Called(calls[..n]) + {calls[n].callback};
    }
  }

  lemma {:induction false} SerialsSize(pending: map<Word, Pending>)
    requires DistinctCallbacks(pending)
    ensures |PendingSerials(pending)| == |pending|
    decreases |pending|
  {
    if pending.Keys != {} {
      var id :| id in pending;
      var rest := pending - {id};
      assert pending.Keys == rest.Keys + {id};
      SerialsRemove(pending, id);
      SerialsSize(rest);
    } else {
      assert PendingSerials(pending) == {};
    }
  }

  lemma {:induction false} CallsAreRepliesOrTimeouts(calls: seq<Call>)
    ensures Replies(calls) + Timeouts(calls) == |calls|
    decreases calls
  {
    if calls != [] {
      CallsAreRepliesOrTimeouts(calls[..|calls| - 1]);
    }
  }

  function Timeouts(calls: seq<Call>): nat
  {
    if calls == [] then 0
    else Timeouts(calls[..|calls| - 1]) + if calls[|calls| - 1].outcome.Err? then 1 else 0
  }

  /** In every run: accepted = replied + timed out + cancelled + pending, the capacity is
      respected, and the statistics are the number and the total latency of the replies
      delivered, as 64-bit counters. */
  lemma Conservation(run: seq<Sys>, n: nat)
    requires IsRun(run) && n < |run|
    ensures
      var s := run[n];
      && |s.accepted| == Replies(s.pipe.calls) + Timeouts(s.pipe.calls) + |s.cancelled| + |s.pipe.pending|
      && (s.pipe.maxSize > 0 ==> |s.pipe.pending| <= s.pipe.maxSize)
      && s.pipe.completed == Replies(s.pipe.calls) % 0x1_0000_0000_0000_0000
      && s.pipe.latency == TotalLatency(s.pipe.calls, s.times) % 0x1_0000_0000_0000_0000
  {
    RunInvariant(run, n);
    var s := run[n];
    CallsAreRepliesOrTimeouts(s.pipe.calls);
    CalledSize(s.pipe.calls);
    PendingDistinct(s);
    SerialsSize(s.pipe.pending);
    var a, b, c := Called(s.pipe.calls), s.cancelled, PendingSerials(s.pipe.pending);
    assert |a + b| == |a| + |b|;
    assert |(a + b) + c| == |a + b| + |c|;
  }

  // ---- when ids are fresh ------------------------------------------------------------------

  /** Ids are handed out in sequence from 1, modulo 65536. */
  ghost predicate Numbered(s: Sys)
  {
    s.pipe.counter == ToWord(1 + |s.ids|) && forall k | 0 <= k < |s.ids| :: s.ids[k] == ToWord(1 + k)
  }

  lemma WrapStep(n: nat)
    ensures ToWord(ToWord(1 + n) + 1) == ToWord(2 + n)
  {
  }

  lemma SubmitNumbered(s: Sys, s': Sys, request: Pdu, timeout: int, sendOk: bool)
    requires Numbered(s) && Submit(s, s', request, timeout, sendOk)
    ensures Numbered(s')
  {
    WrapStep(|s.ids|);
  }

  lemma StepNumbered(s: Sys, s': Sys)
    requires Numbered(s) && Next(s, s')
    ensures Numbered(s')
  {
    if request, timeout, sendOk :| Submit(s, s', request, timeout, sendOk) {
      SubmitNumbered(s, s', request, timeout, sendOk);
    } else {
      assert s'.ids == s.ids && s'.pipe.counter == s.pipe.counter;
    }
  }

  lemma {:induction false} RunNumbered(run: seq<Sys>, n: nat)
    requires IsRun(run) && n < |run| && run[0].pipe.counter == 1
    ensures Numbered(run[n])
  {
    if n > 0 {
      RunNumbered(run, n - 1);
      StepNumbered(run[n - 1], run[n]);
    }
  }

  /** The requests whose id is still around: pending, on the wire, or answered but unread. */
  ghost predicate Around(s: Sys, k: nat)
  {
    k in PendingSerials(s.pipe.pending) || k in s.wire || exists m :: m in s.inbox && m.Reply? && m.serial == k
  }

  /** Nothing but replies carries the id that comes next. */
  ghost predicate Quiet(s: Sys)
  {
    forall m | m in s.inbox && m.Noise? :: !Carries(m.bytes, s.pipe.counter)
  }

  lemma SameId(a: nat, b: nat)
    ensures ToWord(1 + a) == ToWord(1 + b) <==> (a - b) % 0x1_0000 == 0
  {
    var x, y := ToWord(1 + a), ToWord(1 + b);
    var qa, qb := (1 + a) / 0x1_0000, (1 + b) / 0x1_0000;
    assert 1 + a == qa * 0x1_0000 + x && 1 + b == qb * 0x1_0000 + y;
    assert a - b == (qa - qb) * 0x1_0000 + (x - y);
  }

  /** The next id is fresh exactly when no request is still around whose distance to the next
      one is a multiple of 65536, and no other message carries the next id; so replies cannot be
      confused before the 65536th submit. */
  lemma FreshIff(run: seq<Sys>, n: nat)
    requires IsRun(run) && n < |run| && run[0].pipe.counter == 1
    ensures Fresh(run[n]) <==>
      && Quiet(run[n])
      && forall k: nat | Around(run[n], k) :: (|run[n].ids| - k) % 0x1_0000 != 0
    ensures |run[n].ids| < 0x1_0000 && Quiet(run[n]) ==> Fresh(run[n])
  {
    var s := run[n];
    RunInvariant(run, n);
    RunNumbered(run, n);
    forall k: nat
      ensures k < |s.ids| ==> (s.ids[k] == s.pipe.counter <==> (|s.ids| - k) % 0x1_0000 == 0)
    {
      SameId(|s.ids|, k);
    }
    forall k: nat | Around(s, k)
      ensures k < |s.ids|
    {
      if k in PendingSerials(s.pipe.pending) {
        assert k in s.accepted;
      }
    }
    FreshAround(s);
  }

  lemma FreshAround(s: Sys)
    requires PendingSound(s) && TransitSound(s)
    ensures Fresh(s) <==>
      Quiet(s) && forall k: nat | Around(s, k) && k < |s.ids| :: s.ids[k] != s.pipe.counter
  {
    var p, c := s.pipe.pending, s.pipe.counter;
    if c in p {
      var k := p[c].callback.value;
      assert k in PendingSerials(p) && Around(s, k) && s.ids[k] == c;
    }
    if m :| m in s.inbox && m.Reply? && m.serial < |s.ids| && s.ids[m.serial] == c {
      assert Around(s, m.serial);
    }
    if k :| k in s.wire && k < |s.ids| && s.ids[k] == c {
      assert Around(s, k);
    }
  }
}
