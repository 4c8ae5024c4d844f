/**
 When a subscription is told and what it is told, in terms of the readings and the clock alone:
 one law for each kind of trigger, for every scan of every run.
 */
module SubscriptionTerms {
  import opened Bytes
  import opened PduCodec
  import opened Publishers
  import opened Subscribers
  import opened PubSub
  import opened SubscriptionRuns

  // ---- who is served -------------------------------------------------------------

  /** Address `a` lies in the range of a source. */
  predicate InSpan(source: Source, a: int) { source.start <= a && a < source.start as int + source.count }

  predicate SomeSource(sources: seq<Source>, a: int)
  {
    exists x :: 0 <= x < |sources| && InSpan(sources[x], a)
  }

  /** Source `i`, and no other, has the first register of the subscription. */
  predicate Serves(sources: seq<Source>, sub: Subscription, i: nat)
  {
    i < |sources| && forall x | 0 <= x < |sources| :: InSpan(sources[x], sub.request.start) <==> x == i
  }

  /** Where the subscription begins in the readings of its source. */
  function Start(sub: Subscription, source: Source): nat
    requires InSpan(source, sub.request.start)
  {
    sub.request.start as int - source.start
  }

  lemma {:induction false} ThroughSole(sub: Subscription, feeds: seq<Feed>, now: Timestamp, i: nat)
    requires forall x | 0 <= x < |feeds| :: Watches(sub, feeds[x].source) ==> x == i
    ensures Through(sub, feeds, now) ==
      if i < |feeds| && Fires(sub, feeds[i].source, feeds[i].reading, now) then (sub.(lastNotified := now), 1)
      else (sub, 0)
    decreases feeds
  {
    if feeds != [] {
      var n := |feeds| - 1;
      ThroughSole(sub, feeds[..n], now, i);
      if i < n {
        assert !Watches(sub, feeds[n].source) && feeds[..n][i] == feeds[i];
      }
    }
  }

  /** The readings that source `i` has as its baseline before scan `k`. */
  function Baseline(sources: seq<Source>, run: seq<Moment>, i: nat, k: nat): seq<Word>
    requires Matching(sources, run) && i < |sources| && k <= |run|
  {
    if k == 0 then sources[i].lastValues else run[k - 1].readings[i]
  }

  /** The parts of the publisher's state before scan `k` on which a scan's outcome depends. */
  ghost predicate Before(sources: seq<Source>, subs: seq<Subscription>, run: seq<Moment>, j: nat, i: nat, k: nat,
                         sub: Subscription, source: Source)
    requires Matching(sources, run) && i < |sources| && k < |run| && j < |subs|
  {
    && |After(sources, subs, run, k).1| == |subs|
    && sub == After(sources, subs, run, k).1[j] && sub.request == subs[j].request && sub.id == subs[j].id
    && source
       == sources[i].(lastValues := Baseline(sources, run, i, k), hasBaseline := k > 0 || sources[i].hasBaseline)
  }

  lemma WatchesInSpan(sub: Subscription, source: Source)
    ensures Watches(sub, source) <==> InSpan(source, sub.request.start)
  {
  }

  /** With one source serving it, a subscription is told at most once a scan: whether, can be
      read off that source and the subscription. */
  lemma ToldBySole(sources: seq<Source>, subs: seq<Subscription>, run: seq<Moment>, j: nat, i: nat, k: nat)
    returns (sub: Subscription, source: Source)
    requires j < |subs| && UniqueIds(subs) && Matching(sources, run) && k < |run| && Serves(sources, subs[j], i)
    ensures Before(sources, subs, run, j, i, k, sub, source)
    ensures Told(sources, subs, run, k, subs[j].id)
         == if Fires(sub, source, run[k].readings[i], run[k].now) then 1 else 0
  {
    var (src, s) := After(sources, subs, run, k);
    AfterScans(sources, subs, run, k);
    sub, source := s[j], src[i];
    var feeds := Feeds(src, run[k].readings);
    ScanView(s, feeds, run[k].now, j);
    forall x | 0 <= x < |feeds|
      ensures Watches(sub, feeds[x].source) ==> x == i
    {
      WatchesInSpan(sub, feeds[x].source);
      assert InSpan(src[x], sub.request.start) <==> InSpan(sources[x], sub.request.start);
    }
    ThroughSole(sub, feeds, run[k].now, i);
  }

  // ---- thresholds ---------------------------------------------------------------------

  /** Above the upper limit or below the lower one; a limit that is not set does not count. */
  predicate BeyondLimits(v: Word, high: Option<real>, low: Option<real>)
  {
    match (high, low)
    case (None, None) => false
    case (Some(h), None) => h < v as real
    case (None, Some(l)) => v as real < l
    case (Some(h), Some(l)) => h < v as real || v as real < l
  }

  /** `out` is what `values` holds of `count` registers from `at` on. */
  predicate Window(values: seq<Word>, at: nat, count: nat, out: seq<Word>)
  {
    && at <= |values| && |out| == (if at + count <= |values| then count else |values| - at)
    && forall x | 0 <= x < |out| :: out[x] == values[at + x]
  }

  lemma SliceIsWindow(values: seq<Word>, sub: Subscription, source: Source)
    requires InSpan(source, sub.request.start) && Start(sub, source) <= |values|
    ensures Window(values, Start(sub, source), sub.request.count, Slice(values, sub, source))
  {
  }

  lemma SliceFirst(values: seq<Word>, sub: Subscription, source: Source)
    requires InSpan(source, sub.request.start) && Start(sub, source) <= |values|
    ensures Slice(values, sub, source) != [] <==> Start(sub, source) < |values| && sub.request.count > 0
    ensures Slice(values, sub, source) != [] ==> Slice(values, sub, source)[0] == values[Start(sub, source)]
  {
  }

  /** A threshold subscription is told in scan `k` exactly if it has a first register in the reading
      of scan `k` and this register is beyond a limit. */
  lemma ToldIffBeyond(sources: seq<Source>, subs: seq<Subscription>, run: seq<Moment>, j: nat, i: nat, k: nat,
                      now: seq<Word>)
    requires j < |subs| && UniqueIds(subs) && Matching(sources, run) && k < |run| && Serves(sources, subs[j], i)
    requires subs[j].request.trigger == OnThreshold
    requires now == run[k].readings[i] && Start(subs[j], sources[i]) <= |now|
    ensures
      var r := subs[j].request;
      Told(sources, subs, run, k, subs[j].id)
      == if r.count > 0 && Start(subs[j], sources[i]) < |now|
            && BeyondLimits(now[Start(subs[j], sources[i])], r.thresholdHigh, r.thresholdLow) then 1 else 0
  {
    var sub, source := ToldBySole(sources, subs, run, j, i, k);
    WatchesInSpan(sub, source);
    SliceFirst(now, sub, source);
  }

  // ---- changes -----------------------------------------------------------------------------

  /** The two differ by more than the band, in either direction. */
  predicate Apart(a: Word, b: Word, band: real) { a as real - b as real > band || b as real - a as real > band }

  /** Register `x` of a range that begins at `at` differs between two readings. */
  predicate ApartAt(p: seq<Word>, q: seq<Word>, at: nat, x: nat, band: real)
  {
    at + x < |p| && at + x < |q| && Apart(p[at + x], q[at + x], band)
  }

  lemma MovedIffApart(p: seq<Word>, q: seq<Word>, sub: Subscription, source: Source)
    requires InSpan(source, sub.request.start)
    requires Start(sub, source) <= |p| && Start(sub, source) <= |q|
    ensures Moved(Slice(p, sub, source), Slice(q, sub, source), sub.request.deadBand) <==>
      exists x :: 0 <= x < sub.request.count && ApartAt(p, q, Start(sub, source), x, sub.request.deadBand)
  {
    var at, band := Start(sub, source), sub.request.deadBand;
    var a, b := Slice(p, sub, source), Slice(q, sub, source);
    SliceIsWindow(p, sub, source);
    SliceIsWindow(q, sub, source);
    if Moved(a, b, band) {
      var x :| 0 <= x < |a| && x < |b| && Distance(a[x], b[x]) as real > band;
      assert a[x] == p[at + x] && b[x] == q[at + x];
      assert ApartAt(p, q, at, x, band);
    }
    if x :| 0 <= x < sub.request.count && ApartAt(p, q, at, x, band) {
      assert a[x] == p[at + x] && b[x] == q[at + x];
      assert Distance(a[x], b[x]) as real > band;
    }
  }

  /** An on-change subscription is told in scan `k` exactly if nothing was read of its range
      before, or some register of it differs by more than the dead band from the reading before. */
  lemma ToldIffApart(sources: seq<Source>, subs: seq<Subscription>, run: seq<Moment>, j: nat, i: nat, k: nat,
                     now: seq<Word>, before: seq<Word>)
    requires j < |subs| && UniqueIds(subs) && Matching(sources, run) && k < |run| && Serves(sources, subs[j], i)
    requires subs[j].request.trigger == OnChange
    requires now == run[k].readings[i] && Start(subs[j], sources[i]) <= |now|
    requires before == Baseline(sources, run, i, k)
    requires k > 0 || sources[i].hasBaseline ==> Start(subs[j], sources[i]) <= |before|
    ensures Told(sources, subs, run, k, subs[j].id) ==
      if (k == 0 && !sources[i].hasBaseline)
        || subs[j].request.count == 0 || Start(subs[j], sources[i]) >= |before|
        || (exists x :: 0 <= x < subs[j].request.count
                        && ApartAt(now, before, Start(subs[j], sources[i]), x, subs[j].request.deadBand))
      then 1 else 0
  {
    var sub, source := ToldBySole(sources, subs, run, j, i, k);
    WatchesInSpan(sub, source);
    if source.hasBaseline {
      SliceFirst(before, sub, source);
      MovedIffApart(now, before, sub, source);
    }
  }

  // ---- periods -------------------------------------------------------------------------------

  /** The time of the last notification before scan `k`, going by the clock alone: a scan at which
      the interval is over notifies. */
  function LastTold(run: seq<Moment>, start: int, us: int, k: nat): int
    requires k <= |run|
  {
    if k == 0 then start
    else
      var last := LastTold(run, start, us, k - 1);
      if run[k - 1].now - last >= us then run[k - 1].now else last
  }

  /** How many sources have address `a`. */
  function Serving(sources: seq<Source>, a: int): nat
  {
    if sources == [] then 0
    else Serving(sources[..|sources| - 1], a) + if InSpan(sources[|sources| - 1], a) then 1 else 0
  }

  function SourcesOf(feeds: seq<Feed>): (r: seq<Source>)
    ensures |r| == |feeds| && forall x | 0 <= x < |r| :: r[x] == feeds[x].source
  {
    seq(|feeds|, x requires 0 <= x < |feeds| => feeds[x].source)
  }

  /** A periodic subscription whose interval is `us` microseconds, not necessarily positive. */
  predicate EveryUs(sub: Subscription, us: int)
  {
    sub.request.trigger == Periodic && sub.request.interval.Some? && sub.request.interval.value * 1000 == us
  }

  /** How often a scan notifies when the interval is over: after the first time none is left,
      unless the interval is not positive; then every source notifies. */
  function TimesTold(serving: nat, us: int): nat { if serving > 0 && us > 0 then 1 else serving }

  lemma {:induction false} ThroughDue(sub: Subscription, feeds: seq<Feed>, now: Timestamp, us: int)
    requires EveryUs(sub, us)
    ensures Through(sub, feeds, now) ==
      if Serving(SourcesOf(feeds), sub.request.start) > 0 && now - sub.lastNotified >= us
      then (sub.(lastNotified := now), TimesTold(Serving(SourcesOf(feeds), sub.request.start), us)) else (sub, 0)
    decreases feeds
  {
    if feeds != [] {
      var n := |feeds| - 1;
      ThroughDue(sub, feeds[..n], now, us);
      assert SourcesOf(feeds)[..n] == SourcesOf(feeds[..n]);
      WatchesInSpan(sub, feeds[n].source);
    }
  }

  lemma {:induction false} SameServing(p: seq<Source>, q: seq<Source>, a: int)
    requires |p| == |q| && forall x | 0 <= x < |p| :: p[x].start == q[x].start && p[x].count == q[x].count
    ensures Serving(p, a) == Serving(q, a)
    decreases |p|
  {
    if p != [] {
      SameServing(p[..|p| - 1], q[..|q| - 1], a);
    }
  }

  lemma {:induction false} ServedBySome(sources: seq<Source>, a: int)
    ensures Serving(sources, a) > 0 <==> SomeSource(sources, a)
    decreases |sources|
  {
    if sources != [] {
      var n := |sources| - 1;
      ServedBySome(sources[..n], a);
      if x :| 0 <= x < |sources| && InSpan(sources[x], a) {
        assert x < n ==> sources[..n][x] == sources[x];
      }
    }
  }

  /** One scan: what it makes of a periodic subscription, and how often it notifies it. */
  lemma StepDue(sources: seq<Source>, subs: seq<Subscription>, run: seq<Moment>, j: nat, us: int, k: nat,
                sub: Subscription)
    requires j < |subs| && UniqueIds(subs) && Matching(sources, run) && k < |run|
    requires |After(sources, subs, run, k).1| == |subs| && sub == After(sources, subs, run, k).1[j]
    requires EveryUs(sub, us) && Serving(sources, sub.request.start) > 0
    ensures |After(sources, subs, run, k + 1).1| == |subs|
    ensures After(sources, subs, run, k + 1).1[j]
         == if run[k].now - sub.lastNotified >= us then sub.(lastNotified := run[k].now) else sub
    ensures Told(sources, subs, run, k, sub.id)
         == if run[k].now - sub.lastNotified >= us then TimesTold(Serving(sources, sub.request.start), us) else 0
  {
    var (src, s) := After(sources, subs, run, k);
    AfterScans(sources, subs, run, k);
    var feeds := Feeds(src, run[k].readings);
    assert SourcesOf(feeds) == src;
    SameServing(src, sources, sub.request.start);
    ScanView(s, feeds, run[k].now, j);
    ThroughDue(sub, feeds, run[k].now, us);
  }

  lemma {:induction false} StateDue(sources: seq<Source>, subs: seq<Subscription>, run: seq<Moment>, j: nat,
                                    us: int, k: nat)
    requires j < |subs| && UniqueIds(subs) && Matching(sources, run) && k <= |run|
    requires EveryUs(subs[j], us) && Serving(sources, subs[j].request.start) > 0
    ensures |After(sources, subs, run, k).1| == |subs|
    ensures After(sources, subs, run, k).1[j]
         == subs[j].(lastNotified := LastTold(run, subs[j].lastNotified, us, k))
    decreases k
  {
    if k > 0 {
      StateDue(sources, subs, run, j, us, k - 1);
      StepDue(sources, subs, run, j, us, k - 1, After(sources, subs, run, k - 1).1[j]);
    }
  }

  /** A periodic subscription that some source serves is told in scan `k` exactly if the interval
      is over since the last scan that told it, or since it was accepted: once, or once by every
      source if the interval is not positive. */
  lemma ToldIffDue(sources: seq<Source>, subs: seq<Subscription>, run: seq<Moment>, j: nat, ms: int, k: nat)
    requires j < |subs| && UniqueIds(subs) && Matching(sources, run) && k < |run|
    requires subs[j].request.trigger == Periodic && subs[j].request.interval == Some(ms)
    requires SomeSource(sources, subs[j].request.start)
    ensures
      var due := run[k].now - LastTold(run, subs[j].lastNotified, ms * 1000, k) >= ms * 1000;
      Told(sources, subs, run, k, subs[j].id)
      == if !due then 0 else if ms > 0 then 1 else Serving(sources, subs[j].request.start)
  {
    ServedBySome(sources, subs[j].request.start);
    StateDue(sources, subs, run, j, ms * 1000, k);
    StepDue(sources, subs, run, j, ms * 1000, k, After(sources, subs, run, k).1[j]);
  }

  // ---- silence -------------------------------------------------------------------------------

  /** Nobody has its first register, or it is periodic without an interval. */
  predicate Unserved(sources: seq<Source>, sub: Subscription)
  {
    !SomeSource(sources, sub.request.start) || (sub.request.trigger == Periodic && sub.request.interval == None)
  }

  lemma {:induction false} ThroughNone(sub: Subscription, feeds: seq<Feed>, now: Timestamp)
    requires Unserved(SourcesOf(feeds), sub)
    ensures Through(sub, feeds, now) == (sub, 0)
    decreases feeds
  {
    if feeds != [] {
      var n := |feeds| - 1;
      assert forall x | 0 <= x < n :: SourcesOf(feeds[..n])[x] == SourcesOf(feeds)[x];
      WatchesInSpan(sub, feeds[n].source);
      assert SourcesOf(feeds)[n] == feeds[n].source;
      ThroughNone(sub, feeds[..n], now);
    }
  }

  /** Such a subscription is never told anything. */
  lemma UnservedNeverTold(sources: seq<Source>, subs: seq<Subscription>, run: seq<Moment>, j: nat, k: nat)
    requires j < |subs| && UniqueIds(subs) && Matching(sources, run) && k < |run| && Unserved(sources, subs[j])
    ensures Told(sources, subs, run, k, subs[j].id) == 0
  {
    var (src, s) := After(sources, subs, run, k);
    AfterScans(sources, subs, run, k);
    var feeds := Feeds(src, run[k].readings);
    forall x | 0 <= x < |src| && InSpan(src[x], s[j].request.start)
      ensures InSpan(sources[x], subs[j].request.start)
    {
    }
    assert SourcesOf(feeds) == src && Unserved(src, s[j]);
    ScanView(s, feeds, run[k].now, j);
    ThroughNone(s[j], feeds, run[k].now);
  }

  // ---- what it is told ----------------------------------------------------------------------

  /** A notification for a subscription out of a source's reading: the id, the address, the time of
      the scan, the registers asked for as just read, and as read before. */
  predicate Describes(note: Notification, sub: Subscription, feed: Feed, now: Timestamp)
  {
    && note.id == sub.id && note.start == sub.request.start && note.timestamp == now
    && InSpan(feed.source, sub.request.start)
    && Window(feed.reading, Start(sub, feed.source), sub.request.count, note.current)
    && if feed.source.hasBaseline
       then Window(feed.source.lastValues, Start(sub, feed.source), sub.request.count, note.previous)
       else note.previous == []
  }

  ghost predicate DescribesSome(note: Notification, subs: seq<Subscription>, feed: Feed, now: Timestamp)
  {
    exists j :: 0 <= j < |subs| && Describes(note, subs[j], feed, now)
  }

  lemma VisitDescribes(sub: Subscription, feed: Feed, now: Timestamp, note: Notification)
    requires ReadsFarEnough(sub, feed.source, feed.reading)
    requires note in Visit(sub, feed.source, feed.reading, now).1
    ensures Describes(note, sub, feed, now)
  {
    WatchesInSpan(sub, feed.source);
    SliceIsWindow(feed.reading, sub, feed.source);
    if feed.source.hasBaseline {
      SliceIsWindow(feed.source.lastValues, sub, feed.source);
    }
  }

  /** Every notification that a source's turn gives rise to describes one of the subscriptions. */
  lemma {:induction false} NotesDescribe(subs: seq<Subscription>, feed: Feed, now: Timestamp, note: Notification)
    requires forall s | s in subs :: ReadsFarEnough(s, feed.source, feed.reading)
    requires note in ScanSource(subs, feed.source, feed.reading, now).1
    ensures DescribesSome(note, subs, feed, now)
    decreases |subs|
  {
    if subs != [] {
      var n := |subs| - 1;
      assert subs == subs[..n] + [subs[n]] && subs[n] in subs;
      if note in ScanSource(subs[..n], feed.source, feed.reading, now).1 {
        NotesDescribe(subs[..n], feed, now, note);
        var j :| 0 <= j < n && Describes(note, subs[..n][j], feed, now);
        assert Describes(note, subs[j], feed, now);
      } else {
        VisitDescribes(subs[n], feed, now, note);
      }
    }
  }

  lemma LastDescribes(subs: seq<Subscription>, mid: seq<Subscription>, feed: Feed, now: Timestamp, note: Notification)
    requires SameRequests(subs, mid) && forall s | s in subs :: ReadsFarEnough(s, feed.source, feed.reading)
    requires note in ScanSource(mid, feed.source, feed.reading, now).1
    ensures DescribesSome(note, subs, feed, now)
  {
    SameReach(subs, mid, feed);
    NotesDescribe(mid, feed, now, note);
    var j :| 0 <= j < |mid| && Describes(note, mid[j], feed, now);
    assert Describes(note, subs[j], feed, now);
  }

  /** The same for a whole scan. */
  lemma {:induction false} ScanDescribes(subs: seq<Subscription>, feeds: seq<Feed>, now: Timestamp, note: Notification)
    returns (i: nat)
    requires forall s, f | s in subs && f in feeds :: ReadsFarEnough(s, f.source, f.reading)
    requires note in Scan(subs, feeds, now).1
    ensures i < |feeds| && DescribesSome(note, subs, feeds[i], now)
    decreases feeds
  {
    i := 0;
    if feeds != [] {
      var n := |feeds| - 1;
      var (mid, notes) := Scan(subs, feeds[..n], now);
      assert feeds == feeds[..n] + [feeds[n]] && feeds[n] in feeds;
      if note in notes {
        i := ScanDescribes(subs, feeds[..n], now, note);
      } else {
        i := n;
        ScanRequests(subs, feeds[..n], now);
        LastDescribes(subs, mid, feeds[n], now, note);
      }
    }
  }

  lemma SameReach(subs: seq<Subscription>, mid: seq<Subscription>, feed: Feed)
    requires SameRequests(subs, mid) && forall s | s in subs :: ReadsFarEnough(s, feed.source, feed.reading)
    ensures forall s | s in mid :: ReadsFarEnough(s, feed.source, feed.reading)
  {
    forall s | s in mid
      ensures ReadsFarEnough(s, feed.source, feed.reading)
    {
      var j :| 0 <= j < |mid| && mid[j] == s;
      assert subs[j] in subs && ReadsFarEnough(subs[j], feed.source, feed.reading);
    }
  }

  // ---- leaving, sending, receiving ----------------------------------------------------------

  /** Removing a subscription takes out that one and leaves the others in order. */
  lemma {:induction false} RemovedOne(subs: seq<Subscription>, k: nat)
    requires UniqueIds(subs) && k < |subs|
    ensures Without(subs, subs[k].id) == subs[..k] + subs[k + 1..]
    decreases |subs|
  {
    var n := |subs| - 1;
    if k == n {
      WithoutNothing(subs[..n], subs[n].id);
    } else {
      assert subs[..n][k] == subs[k];
      RemovedOne(subs[..n], k);
      assert subs[..n][..k] == subs[..k] && subs[..n][k + 1..] + [subs[n]] == subs[k + 1..];
    }
  }

  /** Nothing is sent while disconnected; an injected error costs the first notification only. */
  lemma {:induction false} EmitsTheRest(messages: seq<seq<Byte>>, error: int, ns: seq<Notification>)
    requires ns != []
    ensures EmitAll(Outbox(messages, Some(error)), true, ns) == Outbox(messages + EventFrames(ns[1..]), None)
    ensures EmitAll(Outbox(messages, Some(error)), false, ns) == Outbox(messages, Some(error))
    decreases |ns|
  {
    var n := |ns| - 1;
    if n == 0 {
      assert ns[..0] == [] && ns[1..] == [];
      assert messages + EventFrames(ns[1..]) == messages;
    } else {
      EmitsTheRest(messages, error, ns[..n]);
      assert ns[1..][..n - 1] == ns[..n][1..];
      Concat(messages, EventFrames(ns[..n][1..]), [EventFrame(ns[n])]);
    }
  }

  /** One more frame in the queue: an event counts and calls the handler registered for its id,
      if there is one; anything else is skipped. */
  lemma PollOneMore(frames: seq<seq<Byte>>, frame: seq<Byte>, handlers: map<nat, nat>, now: Timestamp)
    ensures
      var (count, calls) := PollAll(frames, handlers, now);
      PollAll(frames + [frame], handlers, now) ==
        match DecodeEvent(frame, now)
        case None => (count, calls)
        case Some(e) => (count + 1, if e.id in handlers then calls + [(handlers[e.id], e)] else calls)
  {
    var all := frames + [frame];
    var calls := PollAll(frames, handlers, now).1;
    assert all[..|all| - 1] == frames && calls + [] == calls;
  }
}
