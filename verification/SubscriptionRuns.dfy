/** What one subscription is told over a whole run of scans. */
module SubscriptionRuns {
  import opened Bytes
  import opened PduCodec
  import opened Publishers
  import opened PubSub

  // ---- periodic subscriptions: the rate --------------------------------------------

  /** Everything that may happen to a publisher between two notifications. */
  datatype Op =
    | DoScan(readings: seq<seq<Word>>, now: Timestamp)
    | DoRegister(start: Word, count: Word)
    | DoAccept(client: Byte, request: Request, now: Timestamp)
    | DoRemove(id: nat)

  datatype Board = Board(sources: seq<Source>, subs: seq<Subscription>, nextId: nat)

  /** The readings match the sources, and a new id is not still in use. */
  predicate Allowed(b: Board, op: Op)
  {
    match op
    case DoScan(readings, _) => |readings| == |b.sources|
    case DoRegister(_, _) => true
    case DoAccept(_, _, _) => !HasId(b.subs, b.nextId)
    case DoRemove(_) => true
  }

  /** The effect of the publisher's methods, and the notifications of a scan. */
  function Step(b: Board, op: Op): (Board, seq<Notification>)
    requires Allowed(b, op)
  {
    match op
    case DoScan(readings, now) =>
      var (subs, notes) := Scan(b.subs, Feeds(b.sources, readings), now);
      (b.(subs := subs, sources := Baselines(b.sources, readings, |readings|)), notes)
    case DoRegister(start, count) => (b.(sources := b.sources + [Source(start, count, [], false)]), [])
    case DoAccept(client, request, now) =>
      (b.(subs := b.subs + [Subscription(b.nextId, client, request, now)],
          nextId := (b.nextId + 1) % 0x1_0000_0000), [])
    case DoRemove(id) => (b.(subs := Without(b.subs, id)), [])
  }

  /** All operations are allowed where they occur, subscription `id` is not removed, and the
      clock, which stood at `t`, does not go back. */
  predicate Proper(b: Board, ops: seq<Op>, id: nat, t: int)
    decreases ops
  {
    ops == [] ||
    (&& Allowed(b, ops[0]) && ops[0] != DoRemove(id)
     && (ops[0].DoScan? ==> t <= ops[0].now)
     && Proper(Step(b, ops[0]).0, ops[1..], id, if ops[0].DoScan? then ops[0].now else t))
  }

  function Notes(b: Board, ops: seq<Op>, id: nat, t: int): seq<Notification>
    requires Proper(b, ops, id, t)
    decreases ops
  {
    if ops == [] then []
    else Step(b, ops[0]).1 + Notes(Step(b, ops[0]).0, ops[1..], id, if ops[0].DoScan? then ops[0].now else t)
  }

  /** The time of the last scan. */
  function Latest(ops: seq<Op>, t: int): int
    decreases ops
  {
    if ops == [] then t else Latest(ops[1..], if ops[0].DoScan? then ops[0].now else t)
  }

  /** A periodic subscription whose interval is `us` microseconds. */
  predicate IsPeriodic(sub: Subscription, us: int)
  {
    sub.request.trigger == Periodic && sub.request.interval.Some? && sub.request.interval.value * 1000 == us > 0
  }

  /** `n` intervals in a row. */
  function Spans(n: nat, us: int): int
  {
    if n == 0 then 0 else Spans(n - 1, us) + us
  }

  lemma {:induction false} SpansAdd(n: nat, m: nat, us: int)
    ensures Spans(n + m, us) == Spans(n, us) + Spans(m, us)
  {
    if m > 0 {
      SpansAdd(n, m - 1, us);
    }
  }

  lemma {:induction false} SpansIsProduct(n: nat, us: int)
    ensures Spans(n, us) == n * us
  {
    if n > 0 {
      SpansIsProduct(n - 1, us);
      assert n * us == (n - 1) * us + us;
    }
  }

  /** However many sources a subscription overlaps, one scan notifies it at most once, and only
      when a whole interval has gone by since the last time. */
  lemma {:induction false} ThroughPeriodic(sub: Subscription, feeds: seq<Feed>, now: Timestamp, us: int)
    requires IsPeriodic(sub, us) && sub.lastNotified <= now
    ensures
      var (after, count) := Through(sub, feeds, now);
      && after == sub.(lastNotified := after.lastNotified)
      && (count == 0 ==> after.lastNotified == sub.lastNotified)
      && (count > 0 ==> count == 1 && after.lastNotified == now && now - sub.lastNotified >= us)
    decreases feeds
  {
    if feeds != [] {
      ThroughPeriodic(sub, feeds[..|feeds| - 1], now, us);
    }
  }

  lemma {:induction false} WithoutOther(subs: seq<Subscription>, other: nat, sub: Subscription)
    requires UniqueIds(subs) && sub in subs && sub.id != other
    ensures UniqueIds(Without(subs, other)) && sub in Without(subs, other)
    ensures forall s | s in Without(subs, other) :: s in subs
    decreases subs
  {
    var n := |subs| - 1;
    assert subs == subs[..n] + [subs[n]];
    WithoutUnique(subs, other);
    if sub in subs[..n] {
      WithoutOther(subs[..n], other, sub);
    }
  }

  lemma {:induction false} WithoutUnique(subs: seq<Subscription>, other: nat)
    requires UniqueIds(subs)
    ensures UniqueIds(Without(subs, other)) && forall s | s in Without(subs, other) :: s in subs
    decreases subs
  {
    if subs != [] {
      var n := |subs| - 1;
      WithoutUnique(subs[..n], other);
      var kept := Without(subs[..n], other);
      forall i | 0 <= i < |kept|
        ensures kept[i].id != subs[n].id && kept[i] in subs
      {
        assert kept[i] in kept;
        var k :| 0 <= k < n && subs[k] == kept[i];
      }
    }
  }

  /** One scan, seen from a periodic subscription. */
  lemma ScanPeriodic(subs: seq<Subscription>, feeds: seq<Feed>, now: Timestamp, sub: Subscription, us: int)
    returns (after: Subscription)
    requires UniqueIds(subs) && sub in subs && IsPeriodic(sub, us) && sub.lastNotified <= now
    ensures UniqueIds(Scan(subs, feeds, now).0) && after in Scan(subs, feeds, now).0
    ensures after == sub.(lastNotified := after.lastNotified) && after.lastNotified <= now
    ensures Spans(CountFor(Scan(subs, feeds, now).1, sub.id), us) <= after.lastNotified - sub.lastNotified
  {
    var j :| 0 <= j < |subs| && subs[j] == sub;
    ScanView(subs, feeds, now, j);
    ScanRequests(subs, feeds, now);
    UniqueSame(subs, Scan(subs, feeds, now).0);
    ThroughPeriodic(sub, feeds, now, us);
    after := Through(sub, feeds, now).0;
    assert Scan(subs, feeds, now).0[j] == after;
  }

  lemma AcceptUnique(subs: seq<Subscription>, new_: Subscription)
    requires UniqueIds(subs) && !HasId(subs, new_.id)
    ensures UniqueIds(subs + [new_]) && forall s | s in subs :: s in subs + [new_]
  {
  }

  /** One operation, seen from a periodic subscription. */
  lemma StepPeriodic(b: Board, op: Op, sub: Subscription, us: int, t: int) returns (after: Subscription)
    requires UniqueIds(b.subs) && sub in b.subs && IsPeriodic(sub, us) && sub.lastNotified <= t
    requires Allowed(b, op) && op != DoRemove(sub.id) && (op.DoScan? ==> t <= op.now)
    ensures UniqueIds(Step(b, op).0.subs) && after in Step(b, op).0.subs
    ensures after == sub.(lastNotified := after.lastNotified)
    ensures after.lastNotified <= if op.DoScan? then op.now else t
    ensures Spans(CountFor(Step(b, op).1, sub.id), us) <= after.lastNotified - sub.lastNotified
  {
    after := sub;
    match op
    case DoScan(readings, now) =>
      after := ScanPeriodic(b.subs, Feeds(b.sources, readings), now, sub, us);
    case DoRegister(_, _) =>
    case DoAccept(client, request, now) =>
      AcceptUnique(b.subs, Subscription(b.nextId, client, request, now));
    case DoRemove(id) =>
      WithoutOther(b.subs, id, sub);
  }

  /** Two stretches of a run, each within its share of the time, put together. */
  lemma SpansJoin(first: seq<Notification>, rest: seq<Notification>, id: nat, us: int, x: int, y: int, z: int)
    requires Spans(CountFor(first, id), us) <= y - x && Spans(CountFor(rest, id), us) <= z - y
    ensures Spans(CountFor(first + rest, id), us) <= z - x
  {
    CountAppend(first, rest, id);
    SpansAdd(CountFor(first, id), CountFor(rest, id), us);
  }

  lemma {:induction false} RunPeriodic(b: Board, ops: seq<Op>, sub: Subscription, us: int, t: int)
    requires UniqueIds(b.subs) && sub in b.subs && IsPeriodic(sub, us) && sub.lastNotified <= t
    requires Proper(b, ops, sub.id, t)
    ensures Spans(CountFor(Notes(b, ops, sub.id, t), sub.id), us) <= Latest(ops, t) - sub.lastNotified
    decreases ops
  {
    if ops == [] {
      assert Notes(b, ops, sub.id, t) == [];
    } else {
      var op, at := ops[0], if ops[0].DoScan? then ops[0].now else t;
      var after := StepPeriodic(b, op, sub, us, t);
      RunPeriodic(Step(b, op).0, ops[1..], after, us, at);
      SpansJoin(Step(b, op).1, Notes(Step(b, op).0, ops[1..], sub.id, at), sub.id, us,
                sub.lastNotified, after.lastNotified, Latest(ops, t));
    }
  }

  lemma QuotientBound(n: nat, i: int, t: int)
    requires i > 0 && n * i <= t
    ensures n <= t / i
  {
    var k := t / i - n;
    assert i * k == i * (t / i) - i * n;
    MulAtLeast(i, k);
  }

  /** In any run in which the clock does not go back, a periodic subscription is notified at
      most floor(T / I) times in the time T after it was accepted, however often the publisher
      scans, however many sources overlap it and whatever else is registered, accepted or
      removed meanwhile. */
  lemma PeriodicRate(b: Board, ops: seq<Op>, sub: Subscription, us: int, duration: int)
    requires UniqueIds(b.subs) && sub in b.subs && IsPeriodic(sub, us)
    requires Proper(b, ops, sub.id, sub.lastNotified)
    requires Latest(ops, sub.lastNotified) - sub.lastNotified <= duration
    ensures CountFor(Notes(b, ops, sub.id, sub.lastNotified), sub.id) <= duration / us
  {
    var n := CountFor(Notes(b, ops, sub.id, sub.lastNotified), sub.id);
    RunPeriodic(b, ops, sub, us, sub.lastNotified);
    SpansIsProduct(n, us);
    QuotientBound(n, us, duration);
  }

  // ---- change detection: the drift --------------------------------------------------------

  /** One scan of a run: a reading for every source. */
  datatype Moment = Moment(readings: seq<seq<Word>>, now: Timestamp)

  predicate Matching(sources: seq<Source>, run: seq<Moment>)
  {
    forall k | 0 <= k < |run| :: |run[k].readings| == |sources|
  }

  /** Sources and subscriptions after the first `k` scans. */
  function After(sources: seq<Source>, subs: seq<Subscription>, run: seq<Moment>, k: nat)
    : (r: (seq<Source>, seq<Subscription>))
    requires Matching(sources, run) && k <= |run|
    ensures |r.0| == |sources|
    decreases k
  {
    if k == 0 then (sources, subs)
    else
      var (src, s) := After(sources, subs, run, k - 1);
      var m := run[k - 1];
      (Baselines(src, m.readings, |m.readings|), Scan(s, Feeds(src, m.readings), m.now).0)
  }

  /** What scan `k` (counted from 0) tells subscription `id`. */
  function Told(sources: seq<Source>, subs: seq<Subscription>, run: seq<Moment>, k: nat, id: nat): nat
    requires Matching(sources, run) && k < |run|
  {
    var (src, s) := After(sources, subs, run, k);
    CountFor(Scan(s, Feeds(src, run[k].readings), run[k].now).1, id)
  }

  /** The slice a subscription sees in source `i`: the baseline first, then scan after scan. */
  function Seen(sources: seq<Source>, run: seq<Moment>, sub: Subscription, i: nat, k: nat): seq<Word>
    requires Matching(sources, run) && k <= |run| && i < |sources|
  {
    Slice(if k == 0 then sources[i].lastValues else run[k - 1].readings[i], sub, sources[i])
  }

  /** Source `i` alone watches the subscription, has a baseline, and is always read in full. */
  predicate ServedBy(sources: seq<Source>, run: seq<Moment>, sub: Subscription, i: nat)
  {
    && Matching(sources, run) && i < |sources|
    && (forall x | 0 <= x < |sources| :: Watches(sub, sources[x]) <==> x == i)
    && sources[i].hasBaseline && |sources[i].lastValues| == sources[i].count
    && (forall k | 0 <= k < |run| :: |run[k].readings[i]| == sources[i].count)
    && sub.request.trigger == OnChange && sub.request.count > 0
  }

  /** Whether an on-change subscription fires does not depend on when it last did. */
  lemma FiresSame(a: Subscription, b: Subscription, source: Source, reading: seq<Word>, now: int)
    requires a.request == b.request && a.request.trigger == OnChange
    ensures Fires(a, source, reading, now) == Fires(b, source, reading, now)
  {
  }

  lemma {:induction false} ThroughOne(sub: Subscription, feeds: seq<Feed>, now: Timestamp, i: nat)
    requires forall x | 0 <= x < |feeds| :: Watches(sub, feeds[x].source) ==> x == i
    requires sub.request.trigger == OnChange
    ensures Through(sub, feeds, now).0 == sub.(lastNotified := Through(sub, feeds, now).0.lastNotified)
    ensures Through(sub, feeds, now).1
         == if i < |feeds| && Fires(sub, feeds[i].source, feeds[i].reading, now) then 1 else 0
    decreases feeds
  {
    if feeds != [] {
      var n := |feeds| - 1;
      ThroughOne(sub, feeds[..n], now, i);
      var mid := Through(sub, feeds[..n], now).0;
      FiresSame(sub, mid, feeds[n].source, feeds[n].reading, now);
      if i < n {
        assert feeds[..n][i] == feeds[i];
        assert !Watches(sub, feeds[n].source);
      }
    }
  }

  /** The state after `k` scans: who watches is unchanged, and the baseline of source `i` is
      the last reading. */
  lemma {:induction false} AfterScans(sources: seq<Source>, subs: seq<Subscription>, run: seq<Moment>, k: nat)
    requires Matching(sources, run) && k <= |run| && UniqueIds(subs)
    ensures SameRequests(subs, After(sources, subs, run, k).1) && UniqueIds(After(sources, subs, run, k).1)
    ensures forall x | 0 <= x < |sources| ::
      After(sources, subs, run, k).0[x] ==
        if k == 0 then sources[x] else sources[x].(lastValues := run[k - 1].readings[x], hasBaseline := true)
    decreases k
  {
    if k > 0 {
      AfterScans(sources, subs, run, k - 1);
      var (src, s) := After(sources, subs, run, k - 1);
      ScanRequests(s, Feeds(src, run[k - 1].readings), run[k - 1].now);
      UniqueSame(subs, After(sources, subs, run, k).1);
    }
  }

  lemma SliceNotEmpty(sources: seq<Source>, run: seq<Moment>, sub: Subscription, i: nat, k: nat)
    requires ServedBy(sources, run, sub, i) && k <= |run|
    ensures Seen(sources, run, sub, i, k) != [] && |Seen(sources, run, sub, i, k)| == |Seen(sources, run, sub, i, 0)|
  {
  }

  /** In one scan, given that source `i` alone watches. */
  lemma FiresIffMoved(sub: Subscription, feeds: seq<Feed>, now: Timestamp, i: nat,
                      current: seq<Word>, previous: seq<Word>)
    requires forall x | 0 <= x < |feeds| :: Watches(sub, feeds[x].source) <==> x == i
    requires i < |feeds| && sub.request.trigger == OnChange && previous != []
    requires current == Slice(feeds[i].reading, sub, feeds[i].source)
    requires previous == PreviousSlice(sub, feeds[i].source)
    ensures Through(sub, feeds, now).1 == if Moved(current, previous, sub.request.deadBand) then 1 else 0
  {
    ThroughOne(sub, feeds, now, i);
  }

  lemma SameWatch(s: Subscription, sub: Subscription, a: Source, b: Source)
    requires s.request == sub.request && a.start == b.start && a.count == b.count
    ensures Watches(s, a) == Watches(sub, b)
    ensures forall values :: Slice(values, s, a) == Slice(values, sub, b)
  {
  }

  /** The sources as they are seen before scan `k`. */
  lemma FeedsSeen(sources: seq<Source>, subs: seq<Subscription>, run: seq<Moment>,
                  sub: Subscription, s: Subscription, i: nat, k: nat)
    requires UniqueIds(subs) && ServedBy(sources, run, sub, i) && k < |run| && s.request == sub.request
    ensures |run[k].readings| == |After(sources, subs, run, k).0| == |sources|
    ensures
      var src := After(sources, subs, run, k).0;
      && (forall x | 0 <= x < |src| :: Watches(s, src[x]) <==> x == i)
      && Slice(run[k].readings[i], s, src[i]) == Seen(sources, run, sub, i, k + 1)
      && PreviousSlice(s, src[i]) == Seen(sources, run, sub, i, k)
  {
    AfterScans(sources, subs, run, k);
    var src := After(sources, subs, run, k).0;
    forall x | 0 <= x < |src|
      ensures Watches(s, src[x]) <==> x == i
    {
      SameWatch(s, sub, src[x], sources[x]);
    }
    SameWatch(s, sub, src[i], sources[i]);
  }

  /** A scan notifies an on-change subscription exactly when some register of its slice has
      moved by more than the dead band since the previous scan. */
  lemma ToldIffMoved(sources: seq<Source>, subs: seq<Subscription>, run: seq<Moment>, j: nat, i: nat, k: nat)
    requires j < |subs| && UniqueIds(subs) && ServedBy(sources, run, subs[j], i) && k < |run|
    ensures Told(sources, subs, run, k, subs[j].id) ==
      if Moved(Seen(sources, run, subs[j], i, k + 1), Seen(sources, run, subs[j], i, k), subs[j].request.deadBand)
      then 1 else 0
  {
    var (src, s) := After(sources, subs, run, k);
    AfterScans(sources, subs, run, k);
    FeedsSeen(sources, subs, run, subs[j], s[j], i, k);
    SliceNotEmpty(sources, run, subs[j], i, k);
    var feeds := Feeds(src, run[k].readings);
    ScanView(s, feeds, run[k].now, j);
    FiresIffMoved(s[j], feeds, run[k].now, i, Seen(sources, run, subs[j], i, k + 1), Seen(sources, run, subs[j], i, k));
  }

  lemma NotMoved(current: seq<Word>, previous: seq<Word>, band: real, x: nat)
    requires !Moved(current, previous, band) && x < |current| && x < |previous|
    ensures Distance(previous[x], current[x]) as real <= band
  {
    assert Distance(previous[x], current[x]) == Distance(current[x], previous[x]);
  }

  /** `m` times the dead band, as a sum. */
  function Times(m: nat, band: real): real
  {
    if m == 0 then 0.0 else Times(m - 1, band) + band
  }

  lemma {:induction false} TimesIsProduct(m: nat, band: real)
    ensures Times(m, band) == (m as real) * band
  {
    if m > 0 {
      TimesIsProduct(m - 1, band);
      assert (m as real) * band == ((m - 1) as real) * band + band;
    }
  }

  /** A list of slices that did not move between position `a` and position `a + m`. */
  lemma {:induction false} DriftOf(vs: seq<seq<Word>>, band: real, a: nat, m: nat, x: nat)
    requires a + m < |vs| && forall k | 0 <= k < |vs| :: x < |vs[k]|
    requires forall k | a <= k < a + m :: !Moved(vs[k + 1], vs[k], band)
    ensures Distance(vs[a][x], vs[a + m][x]) as real <= Times(m, band)
    decreases m
  {
    if m > 0 {
      DriftOf(vs, band, a, m - 1, x);
      NotMoved(vs[a + m], vs[a + m - 1], band, x);
      var from, mid, to := vs[a][x], vs[a + m - 1][x], vs[a + m][x];
      assert Distance(from, to) <= Distance(from, mid) + Distance(mid, to);
    }
  }

  /** All slices of a run, the baseline first. */
  function View(sources: seq<Source>, run: seq<Moment>, sub: Subscription, i: nat): (vs: seq<seq<Word>>)
    requires Matching(sources, run) && i < |sources|
    ensures |vs| == |run| + 1 && forall k | 0 <= k < |vs| :: vs[k] == Seen(sources, run, sub, i, k)
  {
    seq(|run| + 1, k requires 0 <= k <= |run| => Seen(sources, run, sub, i, k))
  }

  lemma ViewSizes(sources: seq<Source>, run: seq<Moment>, sub: Subscription, i: nat, vs: seq<seq<Word>>)
    requires ServedBy(sources, run, sub, i) && vs == View(sources, run, sub, i)
    ensures forall k | 0 <= k < |vs| :: |vs[k]| == |vs[0]| > 0
  {
    forall k | 0 <= k < |vs|
      ensures |vs[k]| == |vs[0]| > 0
    {
      SliceNotEmpty(sources, run, sub, i, k);
    }
  }

  lemma SilentMeansUnmoved(sources: seq<Source>, subs: seq<Subscription>, run: seq<Moment>, j: nat, i: nat,
                           vs: seq<seq<Word>>, a: nat, m: nat)
    requires j < |subs| && UniqueIds(subs) && ServedBy(sources, run, subs[j], i) && a + m <= |run|
    requires vs == View(sources, run, subs[j], i)
    requires forall k | a <= k < a + m :: Told(sources, subs, run, k, subs[j].id) == 0
    ensures forall k | a <= k < a + m :: !Moved(vs[k + 1], vs[k], subs[j].request.deadBand)
  {
    forall k | a <= k < a + m
      ensures !Moved(vs[k + 1], vs[k], subs[j].request.deadBand)
    {
      ToldIffMoved(sources, subs, run, j, i, k);
    }
  }

  /** While nothing is reported, the registers drift by at most the dead band per scan: after
      `m` silent scans every register is within `m` times the dead band of what it was. */
  lemma DriftBound(sources: seq<Source>, subs: seq<Subscription>, run: seq<Moment>, j: nat, i: nat,
                   vs: seq<seq<Word>>, a: nat, m: nat, x: nat)
    requires j < |subs| && UniqueIds(subs) && ServedBy(sources, run, subs[j], i) && a + m <= |run|
    requires vs == View(sources, run, subs[j], i) && x < |vs[a]|
    requires forall k | a <= k < a + m :: Told(sources, subs, run, k, subs[j].id) == 0
    ensures |vs[a + m]| == |vs[a]|
    ensures Distance(vs[a][x], vs[a + m][x]) as real <= Times(m, subs[j].request.deadBand)
  {
    ViewSizes(sources, run, subs[j], i, vs);
    SilentMeansUnmoved(sources, subs, run, j, i, vs, a, m);
    DriftOf(vs, subs[j].request.deadBand, a, m, x);
  }

  lemma {:induction false} CreepTotal(v: seq<Word>, band: nat, m: nat)
    requires m < |v| && v[0] == 0 && forall k | 0 <= k < m :: v[k + 1] == v[k] + band
    ensures v[m] == m * band
    decreases m
  {
    if m == 0 {
      assert m * band == 0;
    } else {
      CreepTotal(v, band, m - 1);
      assert m * band == (m - 1) * band + band;
    }
  }

  lemma CreepServed(v: seq<Word>, sub: Subscription, source: Source, run: seq<Moment>)
    requires |v| == |run| + 1 && source == Source(0, 1, [v[0]], true)
    requires forall k | 0 <= k < |run| :: run[k].readings == [[v[k + 1]]]
    requires sub.request.trigger == OnChange && sub.request.start == 0 && sub.request.count == 1
    ensures ServedBy([source], run, sub, 0)
    ensures forall k | 0 <= k <= |run| :: Seen([source], run, sub, 0, k) == [v[k]]
  {
  }

  /** The bound is reached: over a run of scans in which a register creeps up by the dead band
      each time its subscription is never told, however far it goes. */
  lemma CreepIsSilent(v: seq<Word>, band: nat, sub: Subscription, source: Source, run: seq<Moment>, m: nat)
    requires |v| == |run| + 1 && m <= |run| && source == Source(0, 1, [v[0]], true)
    requires v[0] == 0 && forall k | 0 <= k < |run| :: v[k + 1] == v[k] + band
    requires forall k | 0 <= k < |run| :: run[k].readings == [[v[k + 1]]]
    requires sub.request.trigger == OnChange && sub.request.start == 0 && sub.request.count == 1
    requires sub.request.deadBand == band as real
    ensures ServedBy([source], run, sub, 0)
    ensures forall k | 0 <= k < |run| :: Told([source], [sub], run, k, sub.id) == 0
    ensures Seen([source], run, sub, 0, 0) == [0] && v[m] == m * band && Seen([source], run, sub, 0, m) == [v[m]]
  {
    CreepServed(v, sub, source, run);
    forall k | 0 <= k < |run|
      ensures Told([source], [sub], run, k, sub.id) == 0
    {
      ToldIffMoved([source], [sub], run, 0, 0, k);
      assert Distance(v[k + 1], v[k]) == band;
    }
    CreepTotal(v, band, m);
  }

  // ---- previous scan against last notification --------------------------------------

  predicate Within(v: Word, p: Word, band: real) { Distance(v, p) as real <= band }

  /** The dead band around `p` takes in every register value. */
  predicate CoversAll(p: Word, band: real) { Within(0, p, band) && Within(0xFFFF, p, band) }

  predicate SameWindows(p: seq<Word>, q: seq<Word>, band: real)
    requires |p| == |q|
  {
    forall i | 0 <= i < |p| :: p[i] == q[i] || (CoversAll(p[i], band) && CoversAll(q[i], band))
  }

  /** A value inside the dead band around one of two register values and outside the other. */
  lemma Separating(p: Word, q: Word, band: real) returns (v: Word)
    requires band >= 0.0 && p < q && !(CoversAll(p, band) && CoversAll(q, band))
    ensures Within(v, p, band) != Within(v, q, band)
  {
    var f := band.Floor;
    if q > f {
      v := if p > f then p - f else 0;
    } else {
      v := if q + f < 0xFFFF then q + f else 0xFFFF;
    }
  }

  lemma SeparatingReading(p: seq<Word>, q: seq<Word>, band: real, i: nat, v: Word)
    requires |p| == |q| && i < |p| && band >= 0.0
    requires Within(v, p[i], band) && !Within(v, q[i], band)
    ensures !Moved(p[i := v], p, band) && Moved(p[i := v], q, band)
  {
    assert Distance(p[i := v][i], q[i]) as real > band;
  }

  lemma WindowsAgree(current: seq<Word>, p: seq<Word>, q: seq<Word>, band: real)
    requires |current| == |p| == |q| && SameWindows(p, q, band) && Moved(current, p, band)
    ensures Moved(current, q, band)
  {
    var i :| 0 <= i < |current| && Distance(current[i], p[i]) as real > band;
    assert p[i] == q[i];
  }

  /** The documentation promises a report when a value has moved by more than the dead band
      since the last notification; the code compares with the previous scan. The two decide
      alike on every possible reading exactly when the registers of the previous scan are those
      last notified, except where the dead band covers the whole range of a register. */
  lemma DocumentedDecisionIff(previous: seq<Word>, notified: seq<Word>, band: real)
    requires |previous| == |notified| && band >= 0.0
    ensures (forall current: seq<Word> | |current| == |previous| ::
               Moved(current, previous, band) <==> Moved(current, notified, band))
       <==> SameWindows(previous, notified, band)
  {
    if SameWindows(previous, notified, band) {
      assert SameWindows(notified, previous, band);
      forall current: seq<Word> | |current| == |previous|
        ensures Moved(current, previous, band) <==> Moved(current, notified, band)
      {
        if Moved(current, previous, band) {
          WindowsAgree(current, previous, notified, band);
        }
        if Moved(current, notified, band) {
          WindowsAgree(current, notified, previous, band);
        }
      }
    } else {
      var i :| 0 <= i < |previous| && previous[i] != notified[i]
        && !(CoversAll(previous[i], band) && CoversAll(notified[i], band));
      var v: Word;
      if previous[i] < notified[i] {
        v := Separating(previous[i], notified[i], band);
      } else {
        v := Separating(notified[i], previous[i], band);
      }
      if Within(v, previous[i], band) {
        SeparatingReading(previous, notified, band, i, v);
        assert |previous[i := v]| == |previous|;
      } else {
        SeparatingReading(notified, previous, band, i, v);
        assert |notified[i := v]| == |previous|;
      }
    }
  }
}
