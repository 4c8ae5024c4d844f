/**
 Why an id must be free when it is drawn: from every state in which it is not, a submit that
 succeeds can be continued to a callback that is told somebody else's reply, or to a request
 that is lost.
 */
module PipelineCollisions {
  import opened Bytes
  import opened PduCodec
  import opened Pipelines
  import opened PipelineProtocol

  ghost predicate AnyNext(s: Sys, s': Sys)
  {
    Next(s, s') || exists request, timeout, sendOk :: AnySubmit(s, s', request, timeout, sendOk)
  }

  ghost predicate IsContinuation(s: Sys, run: seq<Sys>)
  {
    run != [] && run[0] == s && forall i | 0 <= i < |run| - 1 :: AnyNext(run[i], run[i + 1])
  }

  /** Every accepted request is accounted for once, and every callback was told the right thing. */
  ghost predicate Sound(s: Sys) { Partition(s) && AllRight(s) }

  // ---- building blocks ------------------------------------------------------------

  lemma {:induction false} EnumerationExists(m: map<Word, Pending>) returns (ps: seq<Pending>)
    requires WellKeyed(m)
    ensures IsEnumeration(ps, m)
    decreases |m|
  {
    ps := [];
    if id :| id in m {
      var rest := m - {id};
      assert m.Keys == rest.Keys + {id};
      var qs := EnumerationExists(rest);
      ps := qs + [m[id]];
    }
  }

  lemma PollExists(s: Sys) returns (s': Sys, expired: seq<Pending>)
    requires WellKeyed(s.pipe.pending) && s.inbox != []
    ensures Poll(s, s', expired)
  {
    expired := [];
    if Matches(s.pipe, FrameOf(s.inbox[0])) {
      expired := EnumerationExists(Expired(Others(s.pipe, FrameOf(s.inbox[0])), s.now));
    }
    s' := s.(pipe := AfterPoll(s.pipe, FrameOf(s.inbox[0]), s.now, expired), inbox := s.inbox[1..]);
  }

  function SubmitOf(s: Sys, request: Pdu): Sys
  {
    var k := |s.ids|;
    s.(pipe := AfterSubmit(s.pipe, request, Some(k), 0, s.now, true),
       wire := s.wire + {k},
       ids := s.ids + [s.pipe.counter],
       times := s.times + [s.now],
       timeouts := s.timeouts + [s.pipe.defaultTimeout],
       accepted := if !IsFull(s.pipe.pending, s.pipe.maxSize) then s.accepted + {k} else s.accepted)
  }

  lemma SubmitOfIsSubmit(s: Sys, request: Pdu)
    ensures AnySubmit(s, SubmitOf(s, request), request, 0, true)
  {
  }

  lemma SomeReply(id: Word) returns (pdu: Pdu)
    ensures WellFormed(pdu) && pdu.header.Some? && ReplyId(pdu) == id
  {
    pdu := Pdu(EXTENDED, Some(FrameHeader(1, 0, id, None, 0, 0)), [], None);
  }

  // ---- what goes wrong --------------------------------------------------------------

  /** The id is pending: the new request is accepted and lost. */
  lemma PendingCollision(s: Sys, s': Sys, request: Pdu, timeout: int)
    requires Inv(s) && s.pipe.counter in s.pipe.pending && !IsFull(s.pipe.pending, s.pipe.maxSize)
    requires AnySubmit(s, s', request, timeout, true)
    ensures !Partition(s')
  {
    var k := |s.ids|;
    assert s'.pipe.pending == s.pipe.pending && k in s'.accepted;
    assert k !in s.accepted;
  }

  /** Whatever carries the id of a request that has not been answered completes it. */
  lemma Misdelivered(s: Sys, s': Sys, k: nat, pdu: Pdu, expired: seq<Pending>)
    requires s.inbox != [] && Decode(FrameOf(s.inbox[0])) == Ok(pdu) && ReplyId(pdu) in s.pipe.pending
    requires s.pipe.pending[ReplyId(pdu)].callback == Some(k) && k !in s.answers
    requires Poll(s, s', expired)
    ensures !AllRight(s')
  {
    var c := Call(k, Ok(pdu), s.now);
    assert s'.pipe.calls == s.pipe.calls + [c] + ExpiryCalls(expired, s.now);
    assert c in s'.pipe.calls && !RightOutcome(s', c);
  }

  lemma SubmitPends(s: Sys, request: Pdu)
    requires Inv(s) && s.pipe.counter !in s.pipe.pending && !IsFull(s.pipe.pending, s.pipe.maxSize)
    ensures
      var s' := SubmitOf(s, request);
      && s.pipe.counter in s'.pipe.pending && s'.pipe.pending[s.pipe.counter].callback == Some(|s.ids|)
      && |s.ids| !in s'.answers && s'.inbox == s.inbox && s'.now == s.now
      && WellKeyed(s'.pipe.pending)
  {
  }

  /** The first message carries the id: the new request is told what it says. */
  lemma UnreadCollision(s: Sys, request: Pdu) returns (run: seq<Sys>)
    requires Inv(s) && s.pipe.counter !in s.pipe.pending && !IsFull(s.pipe.pending, s.pipe.maxSize)
    requires s.inbox != [] && Carries(FrameOf(s.inbox[0]), s.pipe.counter)
    ensures IsContinuation(s, run) && !AllRight(run[|run| - 1])
  {
    var s1 := SubmitOf(s, request);
    SubmitOfIsSubmit(s, request);
    SubmitPends(s, request);
    var s2, expired := PollExists(s1);
    Misdelivered(s1, s2, |s.ids|, Decode(FrameOf(s.inbox[0])).value, expired);
    assert AnyNext(s, s1) && AnyNext(s1, s2);
    run := [s, s1, s2];
  }

  /** A request on the wire has the id: its late reply goes to the new request. */
  lemma WireCollision(s: Sys, request: Pdu, k: nat) returns (run: seq<Sys>)
    requires Inv(s) && s.pipe.counter !in s.pipe.pending && !IsFull(s.pipe.pending, s.pipe.maxSize)
    requires s.inbox == [] && k in s.wire && s.ids[k] == s.pipe.counter
    ensures IsContinuation(s, run) && !AllRight(run[|run| - 1])
  {
    var s1 := SubmitOf(s, request);
    SubmitOfIsSubmit(s, request);
    SubmitPends(s, request);
    var pdu := SomeReply(s.pipe.counter);
    var s2 := s1.(wire := s1.wire - {k}, inbox := s1.inbox + [Reply(k, pdu)], answers := s1.answers[k := pdu]);
    assert Answer(s1, s2, k, pdu);
    var s3, expired := PollExists(s2);
    RoundTripIff(pdu);
    Misdelivered(s2, s3, |s.ids|, pdu, expired);
    assert AnyNext(s, s1) && AnyNext(s1, s2) && AnyNext(s2, s3);
    run := [s, s1, s2, s3];
  }

  // ---- necessary ----------------------------------------------------------------------

  /** Some message in the queue carries the next id. */
  ghost predicate Unread(s: Sys) { exists m :: m in s.inbox && Carries(FrameOf(m), s.pipe.counter) }

  ghost predicate OnWire(s: Sys) { exists k :: k in s.wire && k < |s.ids| && s.ids[k] == s.pipe.counter }

  lemma TakenCases(s: Sys)
    requires Inv(s) && !Fresh(s) && s.pipe.counter !in s.pipe.pending
    ensures Unread(s) || OnWire(s)
  {
    if m :| m in s.inbox && m.Reply? && m.serial < |s.ids| && s.ids[m.serial] == s.pipe.counter {
      RoundTripIff(m.pdu);
      assert Carries(FrameOf(m), s.pipe.counter);
    } else if m :| m in s.inbox && m.Noise? && Carries(m.bytes, s.pipe.counter) {
      assert Carries(FrameOf(m), s.pipe.counter);
    }
  }

  /** A poll that takes another message leaves the collision in place. */
  lemma StillTaken(s: Sys, s': Sys, expired: seq<Pending>)
    requires Inv(s) && s.pipe.counter !in s.pipe.pending && !IsFull(s.pipe.pending, s.pipe.maxSize)
    requires (Unread(s) || OnWire(s)) && s.inbox != [] && !Carries(FrameOf(s.inbox[0]), s.pipe.counter)
    requires Poll(s, s', expired)
    ensures Inv(s') && s'.pipe.counter !in s'.pipe.pending && !IsFull(s'.pipe.pending, s'.pipe.maxSize)
    ensures Unread(s') || OnWire(s')
  {
    PollKeeps(s, s', expired);
    assert forall id | id in s'.pipe.pending :: id in s.pipe.pending;
    SubsetCardinality(s'.pipe.pending.Keys, s.pipe.pending.Keys);
    if Unread(s) {
      var m :| m in s.inbox && Carries(FrameOf(m), s.pipe.counter);
      assert m in s'.inbox;
    } else {
      var k :| k in s.wire && k < |s.ids| && s.ids[k] == s.pipe.counter;
      assert k in s'.wire;
    }
  }

  lemma Prepended(s: Sys, s': Sys, run: seq<Sys>)
    requires AnyNext(s, s') && IsContinuation(s', run)
    ensures IsContinuation(s, [s] + run)
  {
    var all := [s] + run;
    forall i | 0 <= i < |all| - 1
      ensures AnyNext(all[i], all[i + 1])
    {
      if i > 0 {
        assert all[i] == run[i - 1] && all[i + 1] == run[i];
      }
    }
  }

  lemma {:induction false} TakenBreaks(s: Sys, request: Pdu) returns (run: seq<Sys>)
    requires Inv(s) && s.pipe.counter !in s.pipe.pending && !IsFull(s.pipe.pending, s.pipe.maxSize)
    requires Unread(s) || OnWire(s)
    ensures IsContinuation(s, run) && !AllRight(run[|run| - 1])
    decreases |s.inbox|
  {
    if s.inbox == [] {
      var k :| k in s.wire && k < |s.ids| && s.ids[k] == s.pipe.counter;
      run := WireCollision(s, request, k);
    } else if Carries(FrameOf(s.inbox[0]), s.pipe.counter) {
      run := UnreadCollision(s, request);
    } else {
      var s', expired := PollExists(s);
      StillTaken(s, s', expired);
      var rest := TakenBreaks(s', request);
      assert AnyNext(s, s');
      Prepended(s, s', rest);
      run := [s] + rest;
      assert run[|run| - 1] == rest[|rest| - 1];
    }
  }

  /** From every state in which the next id is not free and there is capacity left some
      continuation, with a submit that draws this id, breaks what `ResponsesMatch` promises:
      the proviso is necessary, not only sufficient. */
  lemma FreshNecessary(s: Sys, request: Pdu) returns (run: seq<Sys>)
    requires Inv(s) && !Fresh(s) && !IsFull(s.pipe.pending, s.pipe.maxSize)
    ensures IsContinuation(s, run) && !Sound(run[|run| - 1])
  {
    if s.pipe.counter in s.pipe.pending {
      var s' := SubmitOf(s, request);
      SubmitOfIsSubmit(s, request);
      PendingCollision(s, s', request, 0);
      assert AnyNext(s, s');
      run := [s, s'];
    } else {
      TakenCases(s);
      run := TakenBreaks(s, request);
    }
  }
}
