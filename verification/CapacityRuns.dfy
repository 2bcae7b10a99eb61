/** What holds of every capacity run, however irregular its ticks. */
module CapacityRuns {
  import opened Options
  import opened Arith
  import opened LoadWindows
  import opened CapacityRamp

  // ---- The arithmetic of the ramp ----

  /** The ramp starts with the users of one step, or the maximum if that is fewer, and adds as many
      with every step but the last, which adds what is missing and runs exactly the maximum. */
  lemma RampClimbs(c: Settings, k: nat)
    requires k < Steps(c)
    ensures k == 0 ==> Users(c, k) == if c.stepUsers <= c.maxUsers then c.stepUsers else c.maxUsers
    ensures 0 < k < Steps(c) - 1 ==> Users(c, k) == Users(c, k - 1) + c.stepUsers
    ensures 0 < k == Steps(c) - 1 ==> 1 <= Users(c, k) - Users(c, k - 1) <= c.stepUsers
    ensures Users(c, k) == c.maxUsers <==> k == Steps(c) - 1
    ensures k + 1 < Steps(c) ==> Users(c, k) < Users(c, k + 1)
    ensures 0 < Users(c, k) <= c.maxUsers
  {
    CeilBrackets(c.maxUsers, c.stepUsers);
    var n := Steps(c);
    Scale(k + 1, n, c.stepUsers);
    assert c.stepUsers * (k + 1) == (k + 1) * c.stepUsers;
    if k == n - 1 {
      assert (k + 1) * c.stepUsers >= c.maxUsers;
    } else {
      Scale(k + 1, n - 1, c.stepUsers);
      assert (k + 1) * c.stepUsers < c.maxUsers;
      assert c.stepUsers * (k + 2) == c.stepUsers * (k + 1) + c.stepUsers;
    }
  }

  lemma {:induction false} RampIsIncreasing(c: Settings, i: nat, j: nat)
    requires i < j < Steps(c)
    ensures Users(c, i) < Users(c, j)
  {
    RampClimbs(c, j - 1);
    if i < j - 1 { RampIsIncreasing(c, i, j - 1); }
  }

  /** The whole steps that fit in a run time are those whose end it has reached. */
  lemma WholeStepsReach(c: Settings, elapsed: real, k: nat)
    ensures WholeSteps(c, elapsed) >= k <==> elapsed >= StartOf(c, k)
  {
    var d := c.stepDuration as real;
    var q := elapsed / d;
    assert q * d == elapsed && StartOf(c, k) == k as real * d;
    assert q >= k as real ==> (q - k as real) * d >= 0.0;
    assert q < k as real ==> (k as real - q) * d > 0.0;
  }

  // ---- Runs ----

  function Last(ticks: seq<Tick>): Tick
    requires ticks != []
  {
    ticks[|ticks| - 1]
  }

  function Front(ticks: seq<Tick>): seq<Tick>
    requires ticks != []
  {
    ticks[..|ticks| - 1]
  }

  ghost function After(c: Settings, ticks: seq<Tick>): Ramp {
    if ticks == [] then START else AfterTick(c, After(c, Front(ticks)), Last(ticks))
  }

  /** The runs that can happen: time does not run back, snapshots hold the aggregate and their
      counters only grow, and Locust asks no more once it was told to stop. */
  ghost predicate Legal(c: Settings, ticks: seq<Tick>) {
    ticks != [] ==>
    && Legal(c, Front(ticks))
    && Last(ticks).elapsed >= 0.0
    && AGGREGATED in Last(ticks).closing && Walks(Last(ticks).order, Last(ticks).closing.Keys)
    && Grows(Last(ticks).closing, Last(ticks).opening)
    && (Front(ticks) != [] ==>
          && !Over(c, After(c, Front(ticks)))
          && Last(Front(ticks)).elapsed <= Last(ticks).elapsed
          && Grows(Last(Front(ticks)).opening, Last(ticks).closing))
  }

  ghost predicate AllPassed(rs: seq<Outcome>) {
    forall k :: 0 <= k < |rs| ==> rs[k].passed
  }

  /** What every tick keeps. */
  ghost predicate RampInv(c: Settings, s: Ramp) {
    && |s.results| <= Steps(c)
    && (forall k :: 0 <= k < |s.results| ==> s.results[k].users == Users(c, k))
    && (s.failed <==> !AllPassed(s.results))
    && (!c.runAllSteps && s.results != [] ==> AllPassed(s.results[..|s.results| - 1]))
  }

  lemma TickKeepsRamp(c: Settings, s: Ramp, t: Tick)
    requires RampInv(c, s) && (s.results == [] || !Over(c, s))
    ensures RampInv(c, AfterTick(c, s, t))
    ensures |s.results| <= |AfterTick(c, s, t).results| <= |s.results| + 1
    ensures s.results <= AfterTick(c, s, t).results
  {
    CeilBrackets(c.maxUsers, c.stepUsers);
    if Ends(c, t, s) { FinishKeepsRamp(c, s, OutcomeOf(c, |s.results|, StepStats(c, s.window, t))); }
  }

  lemma FinishKeepsRamp(c: Settings, s: Ramp, o: Outcome)
    requires RampInv(c, s) && |s.results| < Steps(c) && (c.runAllSteps || !s.failed) && o.users == Users(c, |s.results|)
    ensures RampInv(c, Ramp(s.results + [o], None, s.failed || !o.passed))
  {
    var rs := s.results + [o];
    assert rs[..|rs| - 1] == s.results && rs[|s.results|] == o;
    assert forall k :: 0 <= k < |s.results| ==> rs[k] == s.results[k];
  }

  /** The ramp over any run: at most one step is recorded per tick, never more than the steps
      that exist or than the whole step times that have passed, and step k ran k's users. */
  lemma {:induction false} RampIsBounded(c: Settings, ticks: seq<Tick>)
    requires Legal(c, ticks)
    ensures RampInv(c, After(c, ticks))
    ensures |After(c, ticks).results| <= |ticks|
    ensures ticks != [] ==>
              && |After(c, ticks).results| <= WholeSteps(c, Last(ticks).elapsed)
              && (|After(c, ticks).results| * c.stepDuration) as real <= Last(ticks).elapsed
              && After(c, Front(ticks)).results <= After(c, ticks).results
              && |After(c, ticks).results| <= |After(c, Front(ticks)).results| + 1
  {
    if ticks != [] {
      var s, n := After(c, Front(ticks)), |After(c, Front(ticks)).results|;
      RampIsBounded(c, Front(ticks));
      TickKeepsRamp(c, s, Last(ticks));
      WholeStepsReach(c, Last(ticks).elapsed, n);
      if Front(ticks) != [] { WholeStepsReach(c, Last(Front(ticks)).elapsed, n); }
      WholeStepsReach(c, Last(ticks).elapsed, |After(c, ticks).results|);
    }
  }

  /** A tick records a step exactly if the run time has reached the end of the current one. */
  lemma TickRecordsIff(c: Settings, ticks: seq<Tick>)
    requires Legal(c, ticks) && ticks != []
    ensures var n := |After(c, Front(ticks)).results|;
            |After(c, ticks).results| ==
            if Last(ticks).elapsed >= ((n + 1) * c.stepDuration) as real then n + 1 else n
  {
    WholeStepsReach(c, Last(ticks).elapsed, |After(c, Front(ticks)).results| + 1);
  }

  // ---- What Locust is told ----

  ghost function ReplyAt(c: Settings, ticks: seq<Tick>, i: nat): Reply
    requires i < |ticks|
  {
    ReplyTo(c, After(c, ticks[..i]), ticks[i])
  }

  lemma {:induction false} EarlierTicks(c: Settings, ticks: seq<Tick>, n: nat)
    requires Legal(c, ticks) && n <= |ticks|
    ensures Legal(c, ticks[..n])
    ensures 0 < n < |ticks| ==> !Over(c, After(c, ticks[..n]))
  {
    if n == |ticks| {
      assert ticks[..n] == ticks;
    } else {
      assert Front(ticks)[..n] == ticks[..n];
      EarlierTicks(c, Front(ticks), n);
    }
  }

  ghost predicate SomeFailed(c: Settings, ticks: seq<Tick>) {
    exists k :: 0 <= k < |After(c, ticks).results| && !After(c, ticks).results[k].passed
  }

  /** The users a step is recorded with are the users that ran: as long as a step was the current
      one, every tick but a stopping one asked for them. Only the last tick can stop the run, which
      it does when all steps are recorded or, unless all are to be run, one has failed. */
  lemma RecordedUsersWereRun(c: Settings, ticks: seq<Tick>, i: nat)
    requires Legal(c, ticks) && i < |ticks|
    ensures var k := |After(c, ticks[..i + 1]).results|;
            && ReplyAt(c, ticks, i) ==
               (if Over(c, After(c, ticks[..i + 1])) then Stop else Run(Users(c, k), c.spawnRate))
            && (i + 1 < |ticks| ==> ReplyAt(c, ticks, i).Run?)
            && (ReplyAt(c, ticks, i).Stop? <==> k == Steps(c) || (!c.runAllSteps && SomeFailed(c, ticks[..i + 1])))
            && (k < |After(c, ticks).results| ==> After(c, ticks).results[k].users == Users(c, k))
  {
    EarlierTicks(c, ticks, i + 1);
    RampIsBounded(c, ticks);
    RampIsBounded(c, ticks[..i + 1]);
    assert ticks[..i + 1][..i] == ticks[..i];
  }

  // ---- How the run ends ----

  /** How many ticks came after the last step's nominal end. */
  function LateTicks(c: Settings, ticks: seq<Tick>): nat {
    if ticks == [] then 0
    else LateTicks(c, Front(ticks)) + (if Last(ticks).elapsed >= (Steps(c) * c.stepDuration) as real then 1 else 0)
  }

  /** The run ends: every tick past the nominal end of the last step records a step, so there
      are at most as many of those as there are steps. */
  lemma {:induction false} RunEnds(c: Settings, ticks: seq<Tick>)
    requires Legal(c, ticks)
    ensures LateTicks(c, ticks) <= |After(c, ticks).results| <= Steps(c)
  {
    RampIsBounded(c, ticks);
    if ticks != [] {
      var s, t := After(c, Front(ticks)), Last(ticks);
      RunEnds(c, Front(ticks));
      RampIsBounded(c, Front(ticks));
      TickKeepsRamp(c, s, t);
      CeilBrackets(c.maxUsers, c.stepUsers);
      WholeStepsReach(c, t.elapsed, Steps(c));
    }
  }

  // ---- The verdict ----

  /** `max_users_passed`: the most users of a passing step, 0 if there is none. */
  function MaxUsersPassed(rs: seq<Outcome>): int {
    if rs == [] then 0
    else
      var best := MaxUsersPassed(rs[..|rs| - 1]);
      var last := rs[|rs| - 1];
      if last.passed && last.users > best then last.users else best
  }

  lemma {:induction false} BestIsTheLastPassing(c: Settings, rs: seq<Outcome>, k: int)
    requires |rs| <= Steps(c) && forall i :: 0 <= i < |rs| ==> rs[i].users == Users(c, i)
    requires -1 <= k < |rs| && (k >= 0 ==> rs[k].passed) && forall i :: k < i < |rs| ==> !rs[i].passed
    ensures MaxUsersPassed(rs) == if k < 0 then 0 else Users(c, k)
  {
    if rs != [] {
      var n := |rs| - 1;
      if k < n {
        BestIsTheLastPassing(c, rs[..n], k);
      } else {
        RampClimbs(c, n);
        var j := LastPassing(rs[..n]);
        BestIsTheLastPassing(c, rs[..n], j);
        if j >= 0 { RampIsIncreasing(c, j, n); }
      }
    }
  }

  function LastPassing(rs: seq<Outcome>): (k: int)
    ensures -1 <= k < |rs| && (k >= 0 ==> rs[k].passed) && forall i :: k < i < |rs| ==> !rs[i].passed
  {
    if rs == [] then -1
    else if rs[|rs| - 1].passed then |rs| - 1
    else LastPassing(rs[..|rs| - 1])
  }

  /** Early stop: unless all steps are run, only the last recorded step can have failed, and
      the verdict is the user count of the longest passing prefix of the ramp. */
  lemma EarlyStopVerdict(c: Settings, ticks: seq<Tick>)
    requires Legal(c, ticks) && !c.runAllSteps
    ensures var rs := After(c, ticks).results; var prefix := PassingPrefix(rs);
            && prefix >= |rs| - 1
            && MaxUsersPassed(rs) == if prefix == 0 then 0 else Users(c, prefix - 1)
  {
    RampIsBounded(c, ticks);
    var rs := After(c, ticks).results;
    OnlyLastMayFail(rs, PassingPrefix(rs));
    BestIsTheLastPassing(c, rs, PassingPrefix(rs) - 1);
  }

  /** How many steps passed before the first that failed. */
  function PassingPrefix(rs: seq<Outcome>): (n: nat)
    ensures n <= |rs| && AllPassed(rs[..n]) && (n < |rs| ==> !rs[n].passed)
  {
    if rs == [] || !rs[0].passed then 0 else 1 + PassingPrefix(rs[1..])
  }

  lemma OnlyLastMayFail(rs: seq<Outcome>, prefix: nat)
    requires rs != [] ==> AllPassed(rs[..|rs| - 1])
    requires prefix <= |rs| && AllPassed(rs[..prefix]) && (prefix < |rs| ==> !rs[prefix].passed)
    ensures prefix >= |rs| - 1
    ensures prefix > 0 ==> rs[prefix - 1].passed
    ensures forall i :: prefix - 1 < i < |rs| ==> !rs[i].passed
  {
    assert forall k :: 0 <= k < |rs| - 1 ==> rs[..|rs| - 1][k] == rs[k];
    assert forall k :: 0 <= k < prefix ==> rs[..prefix][k] == rs[k];
  }

  /** With all steps run, the verdict is the user count of the last passing step. */
  lemma FullRunVerdict(c: Settings, ticks: seq<Tick>)
    requires Legal(c, ticks)
    ensures var rs := After(c, ticks).results; var k := LastPassing(rs);
            MaxUsersPassed(rs) == if k < 0 then 0 else Users(c, k)
  {
    RampIsBounded(c, ticks);
    var rs := After(c, ticks).results;
    BestIsTheLastPassing(c, rs, LastPassing(rs));
  }

  // ---- The measurement windows ----

  function Total(snap: Snapshot): nat {
    Get(snap, AGGREGATED).requests
  }

  /** The window of a recorded step: the aggregate request count and the run time at which it
      opened and closed, and how long it was open by the perf counter. A step whose window never
      opened has an empty one. */
  datatype Span = Span(measured: bool, from: nat, to: nat, openedAt: real, closedAt: real, seconds: real)

  /** A run together with its windows so far, the run time and the perf counter at which the open
      one opened, and the run time of the tick that began the current step. */
  datatype Log = Log(spans: seq<Span>, openedAt: real, openedClock: real, begun: real)

  ghost function LogOf(c: Settings, ticks: seq<Tick>): Log {
    if ticks == [] then Log([], 0.0, 0.0, 0.0)
    else LogTick(c, After(c, Front(ticks)), LogOf(c, Front(ticks)), Last(ticks), Front(ticks) == [])
  }

  function SpanOf(window: Option<Opened>, l: Log, t: Tick): Span {
    if window.Some? then
      Span(true, Total(window.value.snap), Total(t.closing), l.openedAt, t.elapsed, t.clock - l.openedClock)
    else Span(false, Total(t.closing), Total(t.closing), t.elapsed, t.elapsed, 0.0)
  }

  function LogTick(c: Settings, s: Ramp, l: Log, t: Tick, first: bool): Log {
    var ended := Ends(c, t, s);
    var reopens := ended || s.window.None?;
    Log(if ended then l.spans + [SpanOf(s.window, l, t)] else l.spans,
        if reopens then t.elapsed else l.openedAt, if reopens then t.clock else l.openedClock,
        if ended || first then t.elapsed else l.begun)
  }

  ghost predicate Consecutive(a: Span, b: Span) {
    a.to <= b.from && a.closedAt <= b.openedAt
  }

  /** One recorded step and its window. */
  ghost predicate SpanOk(c: Settings, k: nat, o: Outcome, span: Span) {
    && span.from <= span.to && span.openedAt <= span.closedAt
    && o.requests == span.to - span.from
    && (o.rate.Some? <==> o.requests > 0)
    && (o.rate.Some? && span.seconds <= 0.0 ==> o.rate.value.num == 0)
    && (o.rate.Some? && span.seconds > 0.0 ==> o.rate.value == Rate(o.requests, span.seconds))
    && (span.measured ==> span.openedAt >= (k * c.stepDuration + c.warmup) as real)
  }

  /** The last window closed by the count `total` and the run time `elapsed`. */
  ghost predicate ClosedBy(spans: seq<Span>, total: nat, elapsed: real) {
    spans != [] ==> spans[|spans| - 1].to <= total && spans[|spans| - 1].closedAt <= elapsed
  }

  ghost predicate SpansOk(c: Settings, rs: seq<Outcome>, spans: seq<Span>) {
    && |spans| == |rs|
    && (forall k :: 0 <= k < |spans| ==> SpanOk(c, k, rs[k], spans[k]))
    && (forall k :: 0 <= k < |spans| - 1 ==> Consecutive(spans[k], spans[k + 1]))
  }

  ghost predicate WindowOk(c: Settings, s: Ramp, l: Log, t: Tick) {
    s.window.Some? ==>
      && Grows(s.window.value.snap, t.opening) && s.window.value.at == l.openedClock
      && StartOf(c, |s.results|) + c.warmup as real <= l.openedAt <= t.elapsed
      && ClosedBy(l.spans, Total(s.window.value.snap), l.openedAt)
  }

  ghost predicate SpansInv(c: Settings, s: Ramp, l: Log, t: Tick) {
    SpansOk(c, s.results, l.spans) && ClosedBy(l.spans, Total(t.opening), t.elapsed) && WindowOk(c, s, l, t)
  }

  lemma GrowsOn(a: Snapshot, b: Snapshot, c: Snapshot)
    requires Grows(a, b) && Grows(b, c)
    ensures Grows(a, c) && Total(a) <= Total(b) <= Total(c)
  {
    WindowsTelescope(a, b, c, AGGREGATED);
    assert Below(Get(a, AGGREGATED), Get(b, AGGREGATED)) && Below(Get(b, AGGREGATED), Get(c, AGGREGATED));
  }

  /** Over any run the measurement windows lie one after the other, each opens no earlier than
      its step's nominal start plus the warm-up, and a step counts exactly the requests of its
      window. */
  lemma {:induction false} WindowsAreDisjoint(c: Settings, ticks: seq<Tick>)
    requires Legal(c, ticks) && ticks != []
    ensures SpansInv(c, After(c, ticks), LogOf(c, ticks), Last(ticks))
  {
    var front, t := Front(ticks), Last(ticks);
    var s, l := After(c, front), LogOf(c, front);
    if front == [] {
      OpeningTick(c, s, l, t);
    } else {
      var prev := Last(front);
      WindowsAreDisjoint(c, front);
      if s.window.Some? { GrowsOn(s.window.value.snap, prev.opening, t.closing); }
      GrowsOn(prev.opening, t.closing, t.opening);
      if Ends(c, t, s) {
        ClosingAWindow(c, s, l, prev, t);
      } else {
        if s.window.Some? { GrowsOn(s.window.value.snap, t.closing, t.opening); }
      }
    }
  }

  /** The run's first tick. */
  lemma OpeningTick(c: Settings, s: Ramp, l: Log, t: Tick)
    requires s == START && l == Log([], 0.0, 0.0, 0.0) && Grows(t.closing, t.opening) && t.elapsed >= 0.0
    ensures SpansInv(c, AfterTick(c, s, t), LogTick(c, s, l, t, true), t)
  {
    assert Below(Get(t.closing, AGGREGATED), Get(t.opening, AGGREGATED));
    if Ends(c, t, s) {
      ClosingAWindow(c, s, l, t.(opening := t.closing), t);
    } else {
      SelfGrows(t.opening);
    }
  }

  lemma SelfGrows(a: Snapshot)
    ensures Grows(a, a)
  {
  }

  /** A tick that ends a step closes its window where the next may open. */
  lemma ClosingAWindow(c: Settings, s: Ramp, l: Log, prev: Tick, t: Tick)
    requires SpansInv(c, s, l, prev) && Ends(c, t, s)
    requires prev.elapsed <= t.elapsed && Total(prev.opening) <= Total(t.closing) <= Total(t.opening)
    requires s.window.Some? ==> Grows(s.window.value.snap, t.closing)
    ensures SpansInv(c, AfterTick(c, s, t), LogTick(c, s, l, t, false), t)
  {
    var span := SpanOf(s.window, l, t);
    var f := Finished(c, s, t);
    var n := |l.spans|;
    ClosedSpanIsOk(c, s, l, prev, t);
    assert n > 0 ==> Consecutive(l.spans[n - 1], span);
    assert SpansOk(c, f.results, l.spans + [span]);
    SelfGrows(t.opening);
  }

  lemma ClosedSpanIsOk(c: Settings, s: Ramp, l: Log, prev: Tick, t: Tick)
    requires WindowOk(c, s, l, prev) && prev.elapsed <= t.elapsed
    requires s.window.Some? ==> Grows(s.window.value.snap, t.closing)
    ensures SpanOk(c, |s.results|, OutcomeOf(c, |s.results|, StepStats(c, s.window, t)), SpanOf(s.window, l, t))
  {
    if s.window.Some? {
      assert Below(Get(s.window.value.snap, AGGREGATED), Get(t.closing, AGGREGATED));
      assert AGGREGATED in StepStats(c, s.window, t) <==> Total(s.window.value.snap) < Total(t.closing);
    }
  }

  function Counted(rs: seq<Outcome>): nat {
    if rs == [] then 0 else Counted(rs[..|rs| - 1]) + rs[|rs| - 1].requests
  }

  /** The requests that fall between the windows, up to a total of `end`. */
  function Uncounted(spans: seq<Span>, end: int): int {
    if spans == [] then end
    else
      var n := |spans| - 1;
      Uncounted(spans[..n], spans[n].from) + (end - spans[n].to)
  }

  lemma {:induction false} SpansAddUp(spans: seq<Span>, rs: seq<Outcome>, end: int)
    requires |spans| == |rs|
    requires forall k :: 0 <= k < |spans| ==>
             spans[k].from <= spans[k].to && rs[k].requests == spans[k].to - spans[k].from
    requires forall k :: 0 <= k < |spans| - 1 ==> Consecutive(spans[k], spans[k + 1])
    requires end >= 0 && (spans != [] ==> spans[|spans| - 1].to <= end)
    ensures Counted(rs) + Uncounted(spans, end) == end && Uncounted(spans, end) >= 0
  {
    if spans != [] {
      var n := |spans| - 1;
      assert n > 0 ==> Consecutive(spans[n - 1], spans[n]);
      SpansAddUp(spans[..n], rs[..n], spans[n].from);
    }
  }

  /** Conservation: over a whole run each request counts in at most one step, and the steps'
      requests together with those outside every window are the final total. */
  lemma RequestsAreConserved(c: Settings, ticks: seq<Tick>)
    requires Legal(c, ticks) && ticks != []
    ensures var end := Total(Last(ticks).opening);
            var outside := Uncounted(LogOf(c, ticks).spans, end);
            Counted(After(c, ticks).results) + outside == end && outside >= 0
  {
    WindowsAreDisjoint(c, ticks);
    SpansAddUp(LogOf(c, ticks).spans, After(c, ticks).results, Total(Last(ticks).opening));
  }

  // ---- The warm-up ----

  /** `more` carries the run on until the window of its current step is open. */
  ghost predicate Measures(c: Settings, ticks: seq<Tick>, more: seq<Tick>) {
    && Legal(c, ticks + more)
    && |After(c, ticks + more).results| == |After(c, ticks).results|
    && After(c, ticks + more).window.Some?
  }

  /** However the run goes on, its current step, if it is measured at all, is measured no sooner
      than a whole warm-up after the tick that began it. */
  ghost predicate WarmupIsSure(c: Settings, ticks: seq<Tick>) {
    forall more: seq<Tick> :: Measures(c, ticks, more) ==>
      LogOf(c, ticks + more).openedAt >= LogOf(c, ticks).begun + c.warmup as real
  }

  /** No step begins before its nominal start, so a step is sure of its whole warm-up exactly if
      it began at that very time. This is asked of any run that goes on, before the window of its
      current step is open or in the very tick that began the step. */
  lemma WarmupIsGivenIffOnTime(c: Settings, ticks: seq<Tick>)
    requires Legal(c, ticks) && ticks != [] && !Over(c, After(c, ticks))
    requires After(c, ticks).window.None? || LogOf(c, ticks).openedAt == LogOf(c, ticks).begun
    ensures StartOf(c, |After(c, ticks).results|) <= LogOf(c, ticks).begun
    ensures WarmupIsSure(c, ticks) <==> c.warmup == 0 || LogOf(c, ticks).begun == StartOf(c, |After(c, ticks).results|)
  {
    var more := LeastWarmup(c, ticks);
    OpenedInTime(c, ticks);
    assert Measures(c, ticks, more);
  }

  /** The warm-up a step is left with if it begins late. */
  ghost function WarmupLeft(c: Settings, ticks: seq<Tick>): real
    requires ticks != []
  {
    var late := LogOf(c, ticks).begun - StartOf(c, |After(c, ticks).results|);
    if late < c.warmup as real then c.warmup as real - late else 0.0
  }

  /** A step is sure of its warm-up less the time it began late, and of no more: there is a way to
      go on that gives it just that. */
  lemma LeastWarmup(c: Settings, ticks: seq<Tick>) returns (more: seq<Tick>)
    requires Legal(c, ticks) && ticks != [] && !Over(c, After(c, ticks))
    requires After(c, ticks).window.None? || LogOf(c, ticks).openedAt == LogOf(c, ticks).begun
    ensures forall m :: Measures(c, ticks, m) ==>
              LogOf(c, ticks + m).openedAt - LogOf(c, ticks).begun >= WarmupLeft(c, ticks)
    ensures Measures(c, ticks, more) && LogOf(c, ticks + more).openedAt - LogOf(c, ticks).begun == WarmupLeft(c, ticks)
  {
    forall m | Measures(c, ticks, m)
      ensures LogOf(c, ticks + m).openedAt - LogOf(c, ticks).begun >= WarmupLeft(c, ticks)
    {
      StepGoesOn(c, ticks, m);
      OpenedInTime(c, ticks + m);
    }
    var s, t := After(c, ticks), Last(ticks);
    OpenedInTime(c, ticks);
    if s.window.Some? {
      assert ticks + [] == ticks;
      more := [];
    } else {
      var order := SomeOrder(t.opening.Keys);
      var u := Tick(StartOf(c, |s.results|) + c.warmup as real, t.clock, t.opening, t.opening, order);
      StillWarmingUp(c, ticks);
      SelfGrows(t.opening);
      NotOver(c, u.elapsed, |s.results|);
      NextTickOpens(c, ticks, u);
      more := [u];
    }
  }

  lemma NotOver(c: Settings, elapsed: real, k: nat)
    requires elapsed == StartOf(c, k) + c.warmup as real
    ensures WholeSteps(c, elapsed) <= k
  {
    WholeStepsReach(c, elapsed, k + 1);
    assert (k + 1) * c.stepDuration == k * c.stepDuration + c.stepDuration;
  }

  /** A run that goes on with no window open is before the end of its step's nominal warm-up. */
  lemma StillWarmingUp(c: Settings, ticks: seq<Tick>)
    requires Legal(c, ticks) && ticks != [] && !Over(c, After(c, ticks)) && After(c, ticks).window.None?
    ensures Last(ticks).elapsed < StartOf(c, |After(c, ticks).results|) + c.warmup as real
    ensures AGGREGATED in Last(ticks).opening
  {
  }

  lemma NextTickOpens(c: Settings, ticks: seq<Tick>, u: Tick)
    requires Legal(c, ticks) && ticks != [] && !Over(c, After(c, ticks)) && After(c, ticks).window.None?
    requires !Ends(c, u, After(c, ticks)) && WarmedUp(c, After(c, ticks), u) && Last(ticks).elapsed <= u.elapsed
    requires AGGREGATED in u.closing && Walks(u.order, u.closing.Keys)
    requires Grows(Last(ticks).opening, u.closing) && Grows(u.closing, u.opening)
    ensures Measures(c, ticks, [u]) && LogOf(c, ticks + [u]).openedAt == u.elapsed
  {
    assert Front(ticks + [u]) == ticks && Last(ticks + [u]) == u;
  }

  lemma {:induction false} SomeOrder(keys: set<string>) returns (order: seq<string>)
    ensures Walks(order, keys)
  {
    order := [];
    if k :| k in keys {
      var rest := SomeOrder(keys - {k});
      order := [k] + rest;
      assert forall p :: p in order <==> p == k || p in rest;
    }
  }

  /** As long as no step is recorded, the current one began when it began. */
  lemma {:induction false} StepGoesOn(c: Settings, ticks: seq<Tick>, more: seq<Tick>)
    requires Legal(c, ticks + more) && ticks != []
    ensures |After(c, ticks).results| <= |After(c, ticks + more).results|
    ensures |After(c, ticks).results| == |After(c, ticks + more).results| ==>
              LogOf(c, ticks + more).begun == LogOf(c, ticks).begun
  {
    if more == [] {
      assert ticks + more == ticks;
    } else {
      assert Front(ticks + more) == ticks + Front(more);
      RampIsBounded(c, ticks + more);
      StepGoesOn(c, ticks, Front(more));
    }
  }

  /** A step begins no sooner than its nominal start; an open window opened no sooner than its
      step began, nor than the nominal warm-up ended. */
  ghost predicate InTime(c: Settings, s: Ramp, l: Log, now: real) {
    && StartOf(c, |s.results|) <= l.begun <= now
    && (s.window.Some? ==> l.begun <= l.openedAt <= now && l.openedAt >= StartOf(c, |s.results|) + c.warmup as real)
  }

  lemma TickInTime(c: Settings, s: Ramp, l: Log, before: real, t: Tick, first: bool)
    requires InTime(c, s, l, before) && before <= t.elapsed
    requires first ==> s == START
    ensures InTime(c, AfterTick(c, s, t), LogTick(c, s, l, t, first), t.elapsed)
  {
    WholeStepsReach(c, t.elapsed, |s.results| + 1);
    if Ends(c, t, s) { assert |AfterTick(c, s, t).results| == |s.results| + 1; }
  }

  lemma {:induction false} OpenedInTime(c: Settings, ticks: seq<Tick>)
    requires Legal(c, ticks) && ticks != []
    ensures InTime(c, After(c, ticks), LogOf(c, ticks), Last(ticks).elapsed)
  {
    var front, t := Front(ticks), Last(ticks);
    if front == [] {
      assert StartOf(c, 0) == 0.0;
      TickInTime(c, START, Log([], 0.0, 0.0, 0.0), 0.0, t, true);
    } else {
      OpenedInTime(c, front);
      TickInTime(c, After(c, front), LogOf(c, front), Last(front).elapsed, t, false);
    }
  }

  // ---- Steps that are not measured ----

  /** In a run that goes on the window is open exactly from the first tick after the nominal
      warm-up. */
  lemma OpenIffWarm(c: Settings, ticks: seq<Tick>)
    requires Legal(c, ticks) && ticks != [] && !Over(c, After(c, ticks))
    ensures After(c, ticks).window.Some? <==>
            Last(ticks).elapsed >= (|After(c, ticks).results| * c.stepDuration + c.warmup) as real
  {
    OpenedInTime(c, ticks);
    if After(c, ticks).window.None? { StillWarmingUp(c, ticks); }
  }

  lemma {:induction false} RecordsStay(c: Settings, ticks: seq<Tick>, n: nat)
    requires Legal(c, ticks) && n <= |ticks|
    ensures After(c, ticks[..n]).results <= After(c, ticks).results
    ensures LogOf(c, ticks[..n]).spans <= LogOf(c, ticks).spans
  {
    if n == |ticks| {
      assert ticks[..n] == ticks;
    } else {
      assert Front(ticks)[..n] == ticks[..n];
      RampIsBounded(c, ticks);
      RecordsStay(c, Front(ticks), n);
    }
  }

  /** The step that tick `i` records was measured exactly if a tick fell after the end of its
      nominal warm-up and before tick `i`: the tick before was that late. If none did, the step
      is recorded as failed without having been measured. */
  lemma StepIsMeasuredIff(c: Settings, ticks: seq<Tick>, i: nat)
    requires Legal(c, ticks) && i < |ticks|
    ensures var k := |After(c, ticks[..i]).results|;
            Ends(c, ticks[i], After(c, ticks[..i])) ==>
              && k < |After(c, ticks).results| && k < |LogOf(c, ticks).spans|
              && (LogOf(c, ticks).spans[k].measured <==>
                    i > 0 && ticks[i - 1].elapsed >= (k * c.stepDuration + c.warmup) as real)
              && (!LogOf(c, ticks).spans[k].measured ==> !After(c, ticks).results[k].passed)
  {
    var upTo, before := ticks[..i + 1], ticks[..i];
    assert Front(upTo) == before && Last(upTo) == ticks[i];
    EarlierTicks(c, ticks, i);
    RecordsStay(c, ticks, i + 1);
    if i > 0 {
      assert Last(before) == ticks[i - 1];
      WindowsAreDisjoint(c, before);
      OpenIffWarm(c, before);
    }
    if Ends(c, ticks[i], After(c, before)) {
      RecordOfUnmeasured(c, After(c, before), LogOf(c, before), ticks[i], before == []);
    }
  }

  lemma RecordOfUnmeasured(c: Settings, s: Ramp, l: Log, t: Tick, first: bool)
    requires Ends(c, t, s) && |l.spans| == |s.results|
    ensures var k, s1, l1 := |s.results|, AfterTick(c, s, t), LogTick(c, s, l, t, first);
            && |l1.spans| == |s1.results| == k + 1
            && (l1.spans[k].measured <==> s.window.Some?)
            && (s.window.None? ==> !s1.results[k].passed)
  {
  }

  const TWO_SHORT_STEPS: Settings :=
    Config(1, 2, 1, 2, 1.0, true, Limits(2.0, 0.0, 100), (t, n) => Percentiles(0, 0, 0))

  const NO_TRAFFIC: Snapshot := map[AGGREGATED := ZERO]

  function TickAt(elapsed: real): Tick {
    Tick(elapsed, elapsed, NO_TRAFFIC, NO_TRAFFIC, [AGGREGATED])
  }

  lemma ShortRun()
    ensures After(TWO_SHORT_STEPS, [TickAt(0.0)]) == START
    ensures After(TWO_SHORT_STEPS, [TickAt(0.0), TickAt(1.0)]) == Ramp([], Some(Opened(NO_TRAFFIC, 1.0)), false)
  {
    var c := TWO_SHORT_STEPS;
    assert Steps(c) == 2 && StartOf(c, 1) == 2.0 && StartOf(c, 0) == 0.0;
    WholeStepsReach(c, 0.0, 1);
    WholeStepsReach(c, 1.0, 1);
    assert Front([TickAt(0.0)]) == [] && Front([TickAt(0.0), TickAt(1.0)]) == [TickAt(0.0)];
    assert !Ends(c, TickAt(0.0), START) && !Ends(c, TickAt(1.0), START) && !Over(c, START);
    assert !WarmedUp(c, START, TickAt(0.0)) && WarmedUp(c, START, TickAt(1.0));
  }

  /** A run that records a step as failed without measuring it: ticks at 0 and 2 seconds. */
  lemma StepCanGoUnmeasured() returns (c: Settings, ticks: seq<Tick>)
    ensures Legal(c, ticks) && c.warmup < c.stepDuration
    ensures |After(c, ticks).results| == 1 && !After(c, ticks).results[0].passed
    ensures |LogOf(c, ticks).spans| == 1 && !LogOf(c, ticks).spans[0].measured
  {
    c, ticks := TWO_SHORT_STEPS, [TickAt(0.0), TickAt(2.0)];
    ShortRun();
    assert Front(ticks) == [TickAt(0.0)] && Front([TickAt(0.0)]) == [] && ticks[..1] == [TickAt(0.0)];
    assert StartOf(c, 1) == 2.0 && StartOf(c, 0) == 0.0;
    WholeStepsReach(c, 2.0, 1);
    SelfGrows(NO_TRAFFIC);
    assert Legal(c, [TickAt(0.0)]);
    StepIsMeasuredIff(c, ticks, 1);
    RampIsBounded(c, ticks);
    WindowsAreDisjoint(c, ticks);
  }

  /** A run that measures a step from the moment it began: two-second steps, a one-second
      warm-up, and ticks at 0, 1 and 3 seconds. */
  lemma WarmupCanBeSkipped() returns (c: Settings, ticks: seq<Tick>)
    ensures Legal(c, ticks) && After(c, ticks).window.Some?
    ensures c.warmup > 0 && LogOf(c, ticks).openedAt == LogOf(c, ticks).begun == Last(ticks).elapsed
  {
    c, ticks := TWO_SHORT_STEPS, [TickAt(0.0), TickAt(1.0), TickAt(3.0)];
    ShortRun();
    assert Front(ticks) == [TickAt(0.0), TickAt(1.0)] && Front(Front(ticks)) == [TickAt(0.0)]
        && Front([TickAt(0.0)]) == [];
    assert Steps(c) == 2 && StartOf(c, 1) == 2.0;
    WholeStepsReach(c, 3.0, 1);
    assert Ends(c, TickAt(3.0), After(c, Front(ticks)));
    SelfGrows(NO_TRAFFIC);
    assert Legal(c, [TickAt(0.0)]) && Legal(c, Front(ticks));
  }
}
