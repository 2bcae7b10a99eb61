/** Load-test counters: snapshots of cumulative statistics, what happened between two of
    them, and whether that meets the latency and error-rate ceilings. Locust's percentile
    function is a parameter, and its counters are assumed to be cumulative. */
module LoadWindows {

  const AGGREGATED := "Aggregated"

  /** One statistics entry; several entries (one per method) may share a path. `times` is the
      histogram of response times. */
  datatype Entry = Entry(path: string, counts: Counts)
  datatype Counts = Counts(requests: nat, failures: nat, times: multiset<int>)

  const ZERO := Counts(0, 0, multiset{})

  type Snapshot = map<string, Counts>

  function Plus(a: Counts, b: Counts): Counts {
    Counts(a.requests + b.requests, a.failures + b.failures, a.times + b.times)
  }

  function Get(snap: Snapshot, path: string): Counts {
    if path in snap then snap[path] else ZERO
  }

  // ---- Snapshots ----

  /** Everything counted under a path. */
  function Merged(entries: seq<Entry>, path: string): Counts {
    if entries == [] then ZERO
    else
      var n := |entries| - 1;
      if entries[n].path == path then Plus(Merged(entries[..n], path), entries[n].counts)
      else Merged(entries[..n], path)
  }

  function RequestsOf(c: Counts): nat { c.requests }
  function FailuresOf(c: Counts): nat { c.failures }

  /** How often a response time occurred. */
  function Occurring(time: int): Counts -> nat {
    (c: Counts) => c.times[time]
  }

  /** One kind of count, summed over the entries of a path. */
  function CountOf(entries: seq<Entry>, path: string, count: Counts -> nat): nat {
    if entries == [] then 0
    else
      var n := |entries| - 1;
      CountOf(entries[..n], path, count) + (if entries[n].path == path then count(entries[n].counts) else 0)
  }

  /** What a snapshot of some entries and their total is. */
  ghost predicate Taken(snap: Snapshot, entries: seq<Entry>, total: Counts) {
    && snap.Keys == (set e | e in entries :: e.path) + {AGGREGATED}
    && forall p: string :: Get(snap, p) == Merged(entries + [Entry(AGGREGATED, total)], p)
  }

  /** Under every path it has the requests, the failures, and how often each response time
      occurred, of all the path's entries together. */
  ghost predicate CountsAll(snap: Snapshot, entries: seq<Entry>, total: Counts) {
    var all := entries + [Entry(AGGREGATED, total)];
    forall p :: p in snap ==>
      && snap[p].requests == CountOf(all, p, RequestsOf)
      && snap[p].failures == CountOf(all, p, FailuresOf)
      && forall time :: snap[p].times[time] == CountOf(all, p, Occurring(time))
  }

  /** Merging counts all of it. */
  lemma {:induction false} MergedCounts(entries: seq<Entry>, path: string)
    ensures Merged(entries, path).requests == CountOf(entries, path, RequestsOf)
    ensures Merged(entries, path).failures == CountOf(entries, path, FailuresOf)
    ensures forall time :: Merged(entries, path).times[time] == CountOf(entries, path, Occurring(time))
  {
    if entries != [] { MergedCounts(entries[..|entries| - 1], path); }
  }

  lemma TakenCountsAll(snap: Snapshot, entries: seq<Entry>, total: Counts)
    requires Taken(snap, entries, total)
    ensures CountsAll(snap, entries, total)
  {
    var all := entries + [Entry(AGGREGATED, total)];
    forall p | p in snap
      ensures snap[p].requests == CountOf(all, p, RequestsOf) && snap[p].failures == CountOf(all, p, FailuresOf)
      ensures forall time :: snap[p].times[time] == CountOf(all, p, Occurring(time))
    {
      MergedCounts(all, p);
      assert snap[p] == Get(snap, p);
    }
  }

  ghost predicate OneTimePerRequest(c: Counts) {
    |c.times| == c.requests
  }

  lemma {:induction false} MergedIsFull(entries: seq<Entry>, path: string)
    requires forall e :: e in entries ==> OneTimePerRequest(e.counts)
    ensures OneTimePerRequest(Merged(entries, path))
  {
    if entries != [] {
      var n := |entries| - 1;
      MergedIsFull(entries[..n], path);
      assert entries[n] in entries;
    }
  }

  /** If every entry has one response time per request, so has every path of the snapshot. */
  lemma SnapshotIsFull(snap: Snapshot, entries: seq<Entry>, total: Counts, path: string)
    requires Taken(snap, entries, total) && OneTimePerRequest(total)
    requires forall e :: e in entries ==> OneTimePerRequest(e.counts)
    ensures OneTimePerRequest(Get(snap, path))
  {
    MergedIsFull(entries + [Entry(AGGREGATED, total)], path);
  }

  /** And so has every window. */
  lemma WindowIsFull(start: Snapshot, end: Snapshot, path: string)
    requires Grows(start, end) && OneTimePerRequest(Get(start, path)) && OneTimePerRequest(Get(end, path))
    ensures |Times(start, end, path)| == Requests(start, end, path)
  {
    assert Below(Get(start, path), Get(end, path));
    assert Get(end, path).times == Get(start, path).times + Times(start, end, path);
  }

  /** `_snapshot`: merge the entries by path, the overall total last. */
  method TakeSnapshot(entries: seq<Entry>, total: Counts) returns (snap: Snapshot)
    ensures Taken(snap, entries, total) && CountsAll(snap, entries, total)
  {
    var all := entries + [Entry(AGGREGATED, total)];
    snap := map[];
    for i := 0 to |all|
      invariant snap.Keys == set e | e in all[..i] :: e.path
      invariant forall p: string :: Get(snap, p) == Merged(all[..i], p)
    {
      assert all[..i + 1][..i] == all[..i];
      snap := snap[all[i].path := Plus(Get(snap, all[i].path), all[i].counts)];
    }
    assert all[..|all|] == all;
    TakenCountsAll(snap, entries, total);
  }

  lemma PlusCommutes(a: Counts, b: Counts, c: Counts)
    ensures Plus(Plus(a, b), c) == Plus(Plus(a, c), b)
  {
  }

  lemma {:induction false} MergedWithout(entries: seq<Entry>, i: nat, path: string)
    requires i < |entries|
    ensures Merged(entries, path) ==
            var rest := Merged(entries[..i] + entries[i + 1..], path);
            if entries[i].path == path then Plus(rest, entries[i].counts) else rest
  {
    var n := |entries| - 1;
    var rest := entries[..i] + entries[i + 1..];
    if i == n {
      assert rest == entries[..n];
    } else {
      MergedWithout(entries[..n], i, path);
      assert rest[..n - 1] == entries[..n][..i] + entries[..n][i + 1..];
      assert rest[n - 1] == entries[n];
      PlusCommutes(Merged(rest[..n - 1], path), entries[i].counts, entries[n].counts);
    }
  }

  /** A snapshot does not depend on the order in which the entries are listed. */
  lemma SnapshotIgnoresOrder(a: Snapshot, b: Snapshot, es: seq<Entry>, fs: seq<Entry>, total: Counts)
    requires Taken(a, es, total) && Taken(b, fs, total) && multiset(es) == multiset(fs)
    ensures a == b
  {
    assert forall e :: e in es <==> e in multiset(es);
    assert forall e :: e in fs <==> e in multiset(fs);
    forall p | p in a ensures a[p] == b[p] {
      assert Get(a, p) == a[p] && Get(b, p) == b[p];
      MergeIgnoresOrder(es + [Entry(AGGREGATED, total)], fs + [Entry(AGGREGATED, total)], p);
    }
  }

  lemma {:induction false} MergeIgnoresOrder(es: seq<Entry>, fs: seq<Entry>, path: string)
    requires multiset(es) == multiset(fs)
    ensures Merged(es, path) == Merged(fs, path)
    decreases |es|
  {
    if es == [] {
      assert |multiset(fs)| == 0;
    } else {
      var n := |es| - 1;
      assert es[n] in multiset(es);
      var i :| 0 <= i < |fs| && fs[i] == es[n];
      WithoutOne(es, n);
      WithoutOne(fs, i);
      MergeIgnoresOrder(es[..n] + es[n + 1..], fs[..i] + fs[i + 1..], path);
      MergedWithout(es, n, path);
      MergedWithout(fs, i, path);
    }
  }

  lemma WithoutOne(es: seq<Entry>, i: nat)
    requires i < |es|
    ensures multiset(es[..i] + es[i + 1..]) == multiset(es) - multiset{es[i]}
  {
    assert es == es[..i] + [es[i]] + es[i + 1..];
  }

  // ---- Windows ----

  datatype Percentiles = Percentiles(p50: int, p95: int, p99: int)
  type PercentileFunction = (multiset<int>, int) -> Percentiles

  /** A quotient, kept exact. */
  datatype Rate = Rate(num: int, per: real)

  predicate AtMost(r: Rate, m: real) {
    r.num as real <= m * r.per
  }

  predicate AtLeast(r: Rate, m: real) {
    r.num as real >= m * r.per
  }

  datatype Stat = Stat(requests: nat, latency: Percentiles, rps: Rate, errorRate: Rate)

  /** A path's requests, failures and response times between two snapshots. */
  function Requests(start: Snapshot, end: Snapshot, path: string): int {
    Get(end, path).requests - Get(start, path).requests
  }

  function Failures(start: Snapshot, end: Snapshot, path: string): int {
    Get(end, path).failures - Get(start, path).failures
  }

  function Times(start: Snapshot, end: Snapshot, path: string): multiset<int> {
    Get(end, path).times - Get(start, path).times
  }

  function StatOf(start: Snapshot, end: Snapshot, seconds: real, path: string, pct: PercentileFunction): Stat
    requires Requests(start, end, path) > 0
  {
    var n := Requests(start, end, path);
    Stat(n, pct(Times(start, end, path), n), if seconds > 0.0 then Rate(n, seconds) else Rate(0, 1.0),
         Rate(Failures(start, end, path), n as real))
  }

  function WindowOf(start: Snapshot, end: Snapshot, seconds: real, pct: PercentileFunction): map<string, Stat> {
    map p | p in end && Requests(start, end, p) > 0 :: StatOf(start, end, seconds, p, pct)
  }

  /** `order` lists the keys of a dict, in the order in which it is walked. */
  ghost predicate Walks(order: seq<string>, keys: set<string>) {
    forall p :: p in order <==> p in keys
  }

  /** `_window`: paths with no new requests are left out. `walked` is the order in which the
      resulting dict was filled. */
  method Window(start: Snapshot, end: Snapshot, seconds: real, order: seq<string>, pct: PercentileFunction)
    returns (result: map<string, Stat>, walked: seq<string>)
    requires Walks(order, end.Keys)
    ensures result == WindowOf(start, end, seconds, pct)
    ensures forall p :: p in result <==> p in end && end[p].requests > (if p in start then start[p].requests else 0)
    ensures Walks(walked, result.Keys)
  {
    result, walked := map[], [];
    for i := 0 to |order|
      invariant forall p :: p in result <==> p in order[..i] && Requests(start, end, p) > 0
      invariant forall p :: p in result ==> result[p] == StatOf(start, end, seconds, p, pct)
      invariant Walks(walked, result.Keys)
    {
      var path := order[i];
      assert order[..i + 1] == order[..i] + [path];
      if Requests(start, end, path) > 0 {
        result := result[path := StatOf(start, end, seconds, path, pct)];
        walked := walked + [path];
      }
    }
    assert order[..|order|] == order;
  }

  /** What "cumulative" means: no count of a path ever falls, and its failures are among its
      requests. */
  ghost predicate Below(a: Counts, b: Counts) {
    && a.requests <= b.requests && a.failures <= b.failures && a.times <= b.times
    && b.failures - a.failures <= b.requests - a.requests
  }

  ghost predicate Grows(start: Snapshot, end: Snapshot) {
    start.Keys <= end.Keys && forall p: string :: Below(Get(start, p), Get(end, p))
  }

  /** The rate times the seconds is the count; it is 0 if no time has passed. */
  ghost predicate PerSecond(rate: Rate, n: nat, seconds: real) {
    && rate.per > 0.0
    && if seconds > 0.0 then rate.num as real * seconds == n as real * rate.per else rate.num == 0
  }

  /** What happened in a window: added to what was there before, `st` gives what was there after;
      its percentiles are those of the response times that came in, and its rates are per second
      and per request. */
  ghost predicate Happened(before: Counts, after: Counts, seconds: real, st: Stat, pct: PercentileFunction) {
    && before.requests + st.requests == after.requests
    && (exists times :: before.times + times == after.times && st.latency == pct(times, st.requests))
    && PerSecond(st.rps, st.requests, seconds)
    && before.failures + st.errorRate.num == after.failures
    && 0 <= st.errorRate.num <= st.requests && st.errorRate.per == st.requests as real
  }

  /** Between cumulative snapshots the subtraction drops nothing, and every rate is a proportion. */
  lemma WindowIsExact(start: Snapshot, end: Snapshot, seconds: real, path: string, pct: PercentileFunction)
    requires Grows(start, end)
    ensures var before := if path in start then start[path] else Counts(0, 0, multiset{});
            && (path in WindowOf(start, end, seconds, pct) <==> path in end && before.requests < end[path].requests)
            && (path in WindowOf(start, end, seconds, pct) ==>
                  Happened(before, end[path], seconds, WindowOf(start, end, seconds, pct)[path], pct))
  {
    var before := if path in start then start[path] else Counts(0, 0, multiset{});
    assert Below(Get(start, path), Get(end, path));
    if path in WindowOf(start, end, seconds, pct) { StatHappened(start, end, seconds, path, pct); }
  }

  lemma StatHappened(start: Snapshot, end: Snapshot, seconds: real, path: string, pct: PercentileFunction)
    requires Below(Get(start, path), Get(end, path)) && Requests(start, end, path) > 0
    ensures Happened(Get(start, path), Get(end, path), seconds, StatOf(start, end, seconds, path, pct), pct)
  {
    assert Get(start, path).times + Times(start, end, path) == Get(end, path).times;
    RateOfWindow(Requests(start, end, path), seconds);
  }

  lemma RateOfWindow(n: nat, seconds: real)
    ensures PerSecond(if seconds > 0.0 then Rate(n, seconds) else Rate(0, 1.0), n, seconds)
  {
  }

  /** Adjacent windows add up to the window across both. */
  lemma WindowsTelescope(a: Snapshot, b: Snapshot, c: Snapshot, path: string)
    requires Grows(a, b) && Grows(b, c)
    ensures Grows(a, c)
    ensures Requests(a, c, path) == Requests(a, b, path) + Requests(b, c, path)
    ensures Failures(a, c, path) == Failures(a, b, path) + Failures(b, c, path)
    ensures Times(a, c, path) == Times(a, b, path) + Times(b, c, path)
  {
    forall p: string ensures Below(Get(a, p), Get(c, p)) {
      assert Below(Get(a, p), Get(b, p)) && Below(Get(b, p), Get(c, p));
    }
    assert Below(Get(a, path), Get(b, path)) && Below(Get(b, path), Get(c, path));
  }

  // ---- The aggregate and its endpoints ----

  function SumRequests(snap: Snapshot, paths: seq<string>): nat {
    if paths == [] then 0 else Get(snap, paths[0]).requests + SumRequests(snap, paths[1..])
  }

  function SumFailures(snap: Snapshot, paths: seq<string>): nat {
    if paths == [] then 0 else Get(snap, paths[0]).failures + SumFailures(snap, paths[1..])
  }

  /** The aggregate counts what the endpoints count. */
  ghost predicate TotalsAgree(snap: Snapshot, paths: seq<string>) {
    && Get(snap, AGGREGATED).requests == SumRequests(snap, paths)
    && Get(snap, AGGREGATED).failures == SumFailures(snap, paths)
  }

  ghost predicate Distinct(paths: seq<string>) {
    forall i, j :: 0 <= i < j < |paths| ==> paths[i] != paths[j]
  }

  /** One kind of count, summed over all entries. */
  function SumOf(entries: seq<Entry>, count: Counts -> nat): nat {
    if entries == [] then 0 else SumOf(entries[..|entries| - 1], count) + count(entries[|entries| - 1].counts)
  }

  /** `b` counts what `a` counts, and `more` under one path. */
  ghost predicate Adds(a: Snapshot, b: Snapshot, path: string, more: Counts) {
    forall p: string :: Get(b, p) == if p == path then Plus(Get(a, p), more) else Get(a, p)
  }

  lemma {:induction false} OnePathMore(a: Snapshot, b: Snapshot, path: string, more: Counts, paths: seq<string>)
    requires Adds(a, b, path, more) && Distinct(paths)
    ensures SumRequests(b, paths) == SumRequests(a, paths) + (if path in paths then more.requests else 0)
    ensures SumFailures(b, paths) == SumFailures(a, paths) + (if path in paths then more.failures else 0)
  {
    if paths != [] {
      OnePathMore(a, b, path, more, paths[1..]);
      assert path in paths <==> path == paths[0] || path in paths[1..];
    }
  }

  /** The endpoints of merged entries count, together, what the entries count. */
  lemma {:induction false} EndpointsAddUp(snap: Snapshot, entries: seq<Entry>, paths: seq<string>)
    requires Distinct(paths) && forall e :: e in entries ==> e.path in paths
    requires forall p :: p in paths ==> Get(snap, p) == Merged(entries, p)
    ensures SumRequests(snap, paths) == SumOf(entries, RequestsOf)
    ensures SumFailures(snap, paths) == SumOf(entries, FailuresOf)
    decreases entries
  {
    if entries == [] {
      NothingCounted(snap, paths);
    } else {
      var n := |entries| - 1;
      var e := entries[n];
      var whole, before := MergedMap(entries, paths), MergedMap(entries[..n], paths);
      EndpointsAddUp(before, entries[..n], paths);
      OnePathMore(before, whole, e.path, e.counts, paths);
      SameSums(snap, whole, paths);
    }
  }

  function MergedMap(entries: seq<Entry>, paths: seq<string>): Snapshot {
    map p | p in paths :: Merged(entries, p)
  }

  lemma {:induction false} SameSums(a: Snapshot, b: Snapshot, paths: seq<string>)
    requires forall p :: p in paths ==> Get(a, p) == Get(b, p)
    ensures SumRequests(a, paths) == SumRequests(b, paths) && SumFailures(a, paths) == SumFailures(b, paths)
  {
    if paths != [] { SameSums(a, b, paths[1..]); }
  }

  lemma {:induction false} NothingCounted(snap: Snapshot, paths: seq<string>)
    requires forall p :: p in paths ==> Get(snap, p) == ZERO
    ensures SumRequests(snap, paths) == 0 && SumFailures(snap, paths) == 0
  {
    if paths != [] { NothingCounted(snap, paths[1..]); }
  }

  /** If Locust's total counts what its entries count, and no entry has the aggregate's name, then
      in the snapshot the aggregate counts what the endpoints count, however entries share paths. */
  lemma TakenTotalsAgree(snap: Snapshot, entries: seq<Entry>, total: Counts, paths: seq<string>)
    requires Taken(snap, entries, total)
    requires total.requests == SumOf(entries, RequestsOf)
    requires total.failures == SumOf(entries, FailuresOf)
    requires Distinct(paths) && AGGREGATED !in paths && forall e :: e in entries ==> e.path in paths
    ensures TotalsAgree(snap, paths)
  {
    var all := entries + [Entry(AGGREGATED, total)];
    assert all[..|entries|] == entries;
    NoneMerged(entries, AGGREGATED);
    EndpointsAddUp(snap, entries, paths);
  }

  lemma {:induction false} NoneMerged(entries: seq<Entry>, path: string)
    requires forall e :: e in entries ==> e.path != path
    ensures Merged(entries, path) == ZERO
  {
    if entries != [] { NoneMerged(entries[..|entries| - 1], path); }
  }

  function FailureRate(start: Snapshot, end: Snapshot, path: string): Rate {
    Rate(Failures(start, end, path), Requests(start, end, path) as real)
  }

  function SummedRate(start: Snapshot, end: Snapshot, paths: seq<string>): Rate {
    Rate(SumFailures(end, paths) - SumFailures(start, paths),
         (SumRequests(end, paths) - SumRequests(start, paths)) as real)
  }

  lemma RatesAdd(a: Rate, b: Rate, m: real)
    ensures AtMost(a, m) && AtMost(b, m) ==> AtMost(Rate(a.num + b.num, a.per + b.per), m)
    ensures AtLeast(a, m) && AtLeast(b, m) ==> AtLeast(Rate(a.num + b.num, a.per + b.per), m)
  {
    assert m * (a.per + b.per) == m * a.per + m * b.per;
  }

  lemma {:induction false} SummedRates(start: Snapshot, end: Snapshot, paths: seq<string>, m: real)
    requires Grows(start, end)
    ensures (forall p :: p in paths ==> AtMost(FailureRate(start, end, p), m)) ==>
            AtMost(SummedRate(start, end, paths), m)
    ensures (forall p :: p in paths ==> AtLeast(FailureRate(start, end, p), m)) ==>
            AtLeast(SummedRate(start, end, paths), m)
  {
    if paths != [] {
      var first, rest := FailureRate(start, end, paths[0]), SummedRate(start, end, paths[1..]);
      SummedRates(start, end, paths[1..], m);
      RatesAdd(first, rest, m);
      SummedNext(start, end, paths);
      assert paths[0] in paths && forall p :: p in paths[1..] ==> p in paths;
    }
  }

  lemma SummedNext(start: Snapshot, end: Snapshot, paths: seq<string>)
    requires paths != []
    ensures var first, rest := FailureRate(start, end, paths[0]), SummedRate(start, end, paths[1..]);
            SummedRate(start, end, paths) == Rate(first.num + rest.num, first.per + rest.per)
  {
  }

  /** The aggregate error rate lies between the endpoints': any bound they all keep, it keeps. */
  lemma AggregateRateIsBetween(start: Snapshot, end: Snapshot, seconds: real, paths: seq<string>, m: real,
        pct: PercentileFunction)
    requires Grows(start, end) && TotalsAgree(start, paths) && TotalsAgree(end, paths)
    requires AGGREGATED in WindowOf(start, end, seconds, pct)
    ensures var w := WindowOf(start, end, seconds, pct);
            && ((forall p :: p in paths && p in w ==> AtMost(w[p].errorRate, m)) ==> AtMost(w[AGGREGATED].errorRate, m))
            && ((forall p :: p in paths && p in w ==> AtLeast(w[p].errorRate, m)) ==>
                 AtLeast(w[AGGREGATED].errorRate, m))
  {
    var w := WindowOf(start, end, seconds, pct);
    SummedRates(start, end, paths, m);
    forall p | p in paths
      ensures (p in w ==> AtMost(w[p].errorRate, m)) ==> AtMost(FailureRate(start, end, p), m)
      ensures (p in w ==> AtLeast(w[p].errorRate, m)) ==> AtLeast(FailureRate(start, end, p), m)
    {
      PathRate(start, end, seconds, p, m, pct);
    }
    assert w[AGGREGATED].errorRate == SummedRate(start, end, paths);
  }

  /** A path without new requests has no new failures either, so it keeps any bound. */
  lemma PathRate(start: Snapshot, end: Snapshot, seconds: real, path: string, m: real, pct: PercentileFunction)
    requires Grows(start, end)
    ensures var w := WindowOf(start, end, seconds, pct);
            if path in w then w[path].errorRate == FailureRate(start, end, path)
            else AtMost(FailureRate(start, end, path), m) && AtLeast(FailureRate(start, end, path), m)
  {
    assert Below(Get(start, path), Get(end, path));
    if Requests(start, end, path) == 0 { assert FailureRate(start, end, path) == Rate(0, 0.0); }
  }

  // ---- Evaluating a window ----

  datatype Limits = Limits(p99Factor: real, maxErrorRate: real, minSamples: int)

  /** A ceiling that was not met. */
  datatype Breach = NoRequests | P95Over(path: string) | P99Over(path: string) | ErrorRateOver(path: string)

  const DEFAULT_P95_CEILING := 200

  /** `_p95_ceiling` for an endpoint; the aggregate has the default. */
  function P95Ceiling(path: string): int {
    if path == "/health/live" then 50 else DEFAULT_P95_CEILING
  }

  /** Latency ceilings leave out endpoints with too few requests; the aggregate always counts. */
  predicate LatencyApplies(l: Limits, path: string, st: Stat) {
    path == AGGREGATED || st.requests >= l.minSamples
  }

  predicate P99Holds(l: Limits, path: string, st: Stat) {
    st.latency.p99 as real <= P95Ceiling(path) as real * l.p99Factor
  }

  predicate Breached(l: Limits, stats: map<string, Stat>, b: Breach) {
    match b
    case NoRequests => stats == map[]
    case P95Over(p) => p in stats && LatencyApplies(l, p, stats[p]) && stats[p].latency.p95 > P95Ceiling(p)
    case P99Over(p) => p in stats && LatencyApplies(l, p, stats[p]) && !P99Holds(l, p, stats[p])
    case ErrorRateOver(p) => p in stats && !AtMost(stats[p].errorRate, l.maxErrorRate)
  }

  /** What a passing step is: it measured something, and everything it measured is in bounds. */
  ghost predicate Passes(l: Limits, stats: map<string, Stat>) {
    && stats != map[]
    && forall p :: p in stats ==>
         && AtMost(stats[p].errorRate, l.maxErrorRate)
         && (LatencyApplies(l, p, stats[p]) ==> stats[p].latency.p95 <= P95Ceiling(p) && P99Holds(l, p, stats[p]))
  }

  /** The list holds exactly the ceilings that were missed, in figures. */
  ghost predicate BreachesInNumbers(l: Limits, stats: map<string, Stat>, failedOn: seq<Breach>) {
    && (NoRequests in failedOn <==> stats == map[])
    && (forall p :: P95Over(p) in failedOn <==>
          && p in stats && (p == "Aggregated" || stats[p].requests >= l.minSamples)
          && stats[p].latency.p95 > if p == "/health/live" then 50 else 200)
    && (forall p :: P99Over(p) in failedOn <==>
          && p in stats && (p == "Aggregated" || stats[p].requests >= l.minSamples)
          && stats[p].latency.p99 as real > (if p == "/health/live" then 50.0 else 200.0) * l.p99Factor)
    && (forall p :: ErrorRateOver(p) in failedOn <==>
          p in stats && stats[p].errorRate.num as real > l.maxErrorRate * stats[p].errorRate.per)
  }

  lemma BreachesMeanNumbers(l: Limits, stats: map<string, Stat>, failedOn: seq<Breach>)
    requires forall b :: b in failedOn <==> Breached(l, stats, b)
    ensures BreachesInNumbers(l, stats, failedOn)
  {
    forall p
      ensures P95Over(p) in failedOn <==> Breached(l, stats, P95Over(p))
      ensures P99Over(p) in failedOn <==> Breached(l, stats, P99Over(p))
      ensures ErrorRateOver(p) in failedOn <==> Breached(l, stats, ErrorRateOver(p))
    {
    }
    LatencyInNumbers(l, stats);
  }

  lemma LatencyInNumbers(l: Limits, stats: map<string, Stat>)
    ensures forall p :: Breached(l, stats, P95Over(p)) <==>
              && p in stats && (p == "Aggregated" || stats[p].requests >= l.minSamples)
              && stats[p].latency.p95 > if p == "/health/live" then 50 else 200
    ensures forall p :: Breached(l, stats, P99Over(p)) <==>
              && p in stats && (p == "Aggregated" || stats[p].requests >= l.minSamples)
              && stats[p].latency.p99 as real > (if p == "/health/live" then 50.0 else 200.0) * l.p99Factor
  {
  }

  /** `_evaluate_step`: the ceilings breached, and per endpoint whether latency was checked. */
  method EvaluateStep(l: Limits, stats: map<string, Stat>, order: seq<string>)
    returns (failedOn: seq<Breach>, checked: map<string, bool>)
    requires Walks(order, stats.Keys)
    ensures BreachesInNumbers(l, stats, failedOn)
    ensures forall b :: b in failedOn <==> Breached(l, stats, b)
    ensures failedOn == [] <==> Passes(l, stats)
    ensures checked.Keys == stats.Keys - {AGGREGATED}
    ensures forall p :: p in checked ==> (checked[p] <==> stats[p].requests >= l.minSamples)
  {
    if stats == map[] {
      failedOn, checked := [NoRequests], map[];
    } else {
      failedOn, checked := ListBreaches(l, stats, order);
      ListIsExact(l, stats, order);
      CheckedIsExact(l, stats, order);
    }
    BreachesMeanNumbers(l, stats, failedOn);
  }

  lemma CheckedIsExact(l: Limits, stats: map<string, Stat>, order: seq<string>)
    requires Walks(order, stats.Keys)
    ensures var checked := CheckedOf(l, stats, order);
            && checked.Keys == stats.Keys - {AGGREGATED}
            && forall p :: p in checked ==> (checked[p] <==> stats[p].requests >= l.minSamples)
  {
  }

  /** Its loop over the paths. */
  method ListBreaches(l: Limits, stats: map<string, Stat>, order: seq<string>)
    returns (failedOn: seq<Breach>, checked: map<string, bool>)
    requires forall p :: p in order ==> p in stats
    ensures failedOn == BreachList(l, stats, order)
    ensures checked == CheckedOf(l, stats, order)
  {
    failedOn, checked := [], map[];
    for i := 0 to |order|
      invariant failedOn == BreachList(l, stats, order[..i])
      invariant checked == CheckedOf(l, stats, order[..i])
    {
      var path := order[i];
      assert path in order;
      ListGrows(l, stats, order, i);
      if path != AGGREGATED { checked := checked[path := LatencyApplies(l, path, stats[path])]; }
      failedOn := failedOn + PathBreaches(l, path, stats[path]);
    }
    assert order[..|order|] == order;
  }

  /** Whether latency was checked, for every endpoint among the paths. */
  function CheckedOf(l: Limits, stats: map<string, Stat>, order: seq<string>): map<string, bool> {
    map p | p in stats && p in order && p != AGGREGATED :: LatencyApplies(l, p, stats[p])
  }

  lemma ListIsExact(l: Limits, stats: map<string, Stat>, order: seq<string>)
    requires Walks(order, stats.Keys) && stats != map[]
    ensures forall p :: p in order ==> p in stats
    ensures forall b :: b in BreachList(l, stats, order) <==> Breached(l, stats, b)
    ensures BreachList(l, stats, order) == [] <==> Passes(l, stats)
  {
    var list := BreachList(l, stats, order);
    forall b ensures b in list <==> Breached(l, stats, b) {
      ListedIfBreached(l, stats, order, b);
    }
    PassesIsNoBreach(l, stats);
    if list != [] { assert list[0] in list; }
  }

  /** The ceilings one path breaches, in the order they are checked. */
  function PathBreaches(l: Limits, path: string, st: Stat): seq<Breach> {
    var latencyApplies := LatencyApplies(l, path, st);
    (if latencyApplies && st.latency.p95 > P95Ceiling(path) then [P95Over(path)] else [])
    + (if latencyApplies && !P99Holds(l, path, st) then [P99Over(path)] else [])
    + (if !AtMost(st.errorRate, l.maxErrorRate) then [ErrorRateOver(path)] else [])
  }

  function BreachList(l: Limits, stats: map<string, Stat>, order: seq<string>): seq<Breach>
    requires forall p :: p in order ==> p in stats
  {
    if order == [] then []
    else BreachList(l, stats, order[..|order| - 1]) + PathBreaches(l, order[|order| - 1], stats[order[|order| - 1]])
  }

  lemma ListGrows(l: Limits, stats: map<string, Stat>, order: seq<string>, i: nat)
    requires i < |order| && forall p :: p in order ==> p in stats
    ensures BreachList(l, stats, order[..i + 1]) ==
            BreachList(l, stats, order[..i]) + PathBreaches(l, order[i], stats[order[i]])
    ensures var before, path := CheckedOf(l, stats, order[..i]), order[i];
            CheckedOf(l, stats, order[..i + 1]) ==
            if path == AGGREGATED then before else before[path := LatencyApplies(l, path, stats[path])]
  {
    assert order[..i + 1] == order[..i] + [order[i]];
    assert order[..i + 1][..i] == order[..i];
  }

  predicate IsAbout(b: Breach, paths: seq<string>) {
    !b.NoRequests? && b.path in paths
  }

  lemma PathBreachesAreExact(l: Limits, stats: map<string, Stat>, path: string, b: Breach)
    requires path in stats
    ensures b in PathBreaches(l, path, stats[path]) <==> IsAbout(b, [path]) && Breached(l, stats, b)
  {
  }

  lemma AboutOneMore(b: Breach, paths: seq<string>, path: string)
    ensures IsAbout(b, paths + [path]) <==> IsAbout(b, paths) || IsAbout(b, [path])
  {
  }

  lemma {:induction false} ListedIfBreached(l: Limits, stats: map<string, Stat>, order: seq<string>, b: Breach)
    requires forall p :: p in order ==> p in stats
    ensures b in BreachList(l, stats, order) <==> IsAbout(b, order) && Breached(l, stats, b)
  {
    if order != [] {
      var n := |order| - 1;
      assert order == order[..n] + [order[n]];
      ListedIfBreached(l, stats, order[..n], b);
      PathBreachesAreExact(l, stats, order[n], b);
      AboutOneMore(b, order[..n], order[n]);
    }
  }

  lemma PassesIsNoBreach(l: Limits, stats: map<string, Stat>)
    ensures Passes(l, stats) <==> forall b :: !Breached(l, stats, b)
  {
    if forall b :: !Breached(l, stats, b) {
      assert !Breached(l, stats, NoRequests);
      forall p | p in stats
        ensures !Breached(l, stats, P95Over(p)) && !Breached(l, stats, P99Over(p))
                && !Breached(l, stats, ErrorRateOver(p))
      {
      }
    }
  }

  /** An aggregate error rate over its ceiling always comes with an endpoint over it. */
  lemma AggregateBreachHasAnEndpoint(l: Limits, start: Snapshot, end: Snapshot, seconds: real, paths: seq<string>,
        pct: PercentileFunction)
    requires Grows(start, end) && TotalsAgree(start, paths) && TotalsAgree(end, paths)
    requires Breached(l, WindowOf(start, end, seconds, pct), ErrorRateOver(AGGREGATED))
    ensures exists p :: p in paths && Breached(l, WindowOf(start, end, seconds, pct), ErrorRateOver(p))
  {
    var w := WindowOf(start, end, seconds, pct);
    AggregateRateIsBetween(start, end, seconds, paths, l.maxErrorRate, pct);
    var p :| p in paths && p in w && !AtMost(w[p].errorRate, l.maxErrorRate);
    assert Breached(l, w, ErrorRateOver(p));
  }
}
