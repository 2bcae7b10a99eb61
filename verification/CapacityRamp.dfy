/** The capacity run: users are stepped up while the ticks come in, each step is measured
    after its warm-up, and the run stops at the last step or, unless told otherwise, at the
    first that fails. */
module CapacityRamp {
  import opened Options
  import opened Arith
  import opened LoadWindows

  datatype Config = Config(
    stepUsers: int, stepDuration: int, warmup: int, maxUsers: int, spawnRate: real, runAllSteps: bool,
    limits: Limits, pct: PercentileFunction)

  /** What the constructor accepts; anything else is a ValueError. */
  predicate Accepted(c: Config) {
    c.stepUsers >= 1 && c.stepDuration >= 1 && c.maxUsers >= 1 && 0 <= c.warmup < c.stepDuration
  }

  type Settings = c: Config | Accepted(c)
    witness Config(1, 1, 0, 1, 1.0, false, Limits(2.0, 0.0, 100), (t, n) => Percentiles(0, 0, 0))

  function Steps(c: Settings): nat {
    CeilDiv(c.maxUsers, c.stepUsers)
  }

  /** `_users`. */
  function Users(c: Settings, step: nat): int {
    if c.stepUsers * (step + 1) <= c.maxUsers then c.stepUsers * (step + 1) else c.maxUsers
  }

  /** One tick: the run time, the perf counter, and the counters as a closing window and an
      opening one read them; `order` is the order of the closing snapshot's paths. */
  datatype Tick = Tick(elapsed: real, clock: real, closing: Snapshot, opening: Snapshot, order: seq<string>)

  datatype Opened = Opened(snap: Snapshot, at: real)
  datatype Reply = Stop | Run(users: int, spawnRate: real)

  // ---- The ramp as a value: what the class below is proved against ----

  /** What a step comes to: its users, whether it passed, and the requests of its window and
      their rate. */
  datatype Outcome = Outcome(users: int, passed: bool, requests: nat, rate: Option<Rate>)
  datatype Ramp = Ramp(results: seq<Outcome>, window: Option<Opened>, failed: bool)

  const START := Ramp([], None, false)

  function StepStats(c: Settings, window: Option<Opened>, t: Tick): map<string, Stat> {
    if window.Some? then WindowOf(window.value.snap, t.closing, t.clock - window.value.at, c.pct) else map[]
  }

  ghost function OutcomeOf(c: Settings, step: nat, stats: map<string, Stat>): Outcome {
    if AGGREGATED in stats then
      Outcome(Users(c, step), Passes(c.limits, stats), stats[AGGREGATED].requests, Some(stats[AGGREGATED].rps))
    else Outcome(Users(c, step), Passes(c.limits, stats), 0, None)
  }

  ghost function Finished(c: Settings, s: Ramp, t: Tick): Ramp {
    var o := OutcomeOf(c, |s.results|, StepStats(c, s.window, t));
    Ramp(s.results + [o], None, s.failed || !o.passed)
  }

  /** The run time at which step `k` is due to begin. */
  function StartOf(c: Settings, k: nat): real {
    (k * c.stepDuration) as real
  }

  /** How many whole steps fit in the run time. */
  function WholeSteps(c: Settings, elapsed: real): int {
    (elapsed / c.stepDuration as real).Floor
  }

  predicate Ends(c: Settings, t: Tick, s: Ramp) {
    WholeSteps(c, t.elapsed) > |s.results|
  }

  predicate Over(c: Settings, s: Ramp) {
    |s.results| >= Steps(c) || (s.failed && !c.runAllSteps)
  }

  predicate WarmedUp(c: Settings, s: Ramp, t: Tick) {
    t.elapsed - StartOf(c, |s.results|) >= c.warmup as real
  }

  ghost function AfterTick(c: Settings, s: Ramp, t: Tick): Ramp {
    var s1 := if Ends(c, t, s) then Finished(c, s, t) else s;
    if !Over(c, s1) && s1.window.None? && WarmedUp(c, s1, t) then s1.(window := Some(Opened(t.opening, t.clock)))
    else s1
  }

  ghost function ReplyTo(c: Settings, s: Ramp, t: Tick): Reply {
    var s1 := AfterTick(c, s, t);
    if Over(c, s1) then Stop else Run(Users(c, |s1.results|), c.spawnRate)
  }

  // ---- The class ----

  datatype StepResult = StepResult(
    users: int, aggregate: Option<Stat>, passed: bool, failedOn: seq<Breach>, endpoints: map<string, (Stat, bool)>)

  /** The record names exactly the ceilings that were missed, and says of every endpoint what
      it measured and whether its latency was checked. */
  ghost predicate Describes(c: Settings, stats: map<string, Stat>, r: StepResult) {
    && (forall b :: b in r.failedOn <==> Breached(c.limits, stats, b))
    && r.endpoints.Keys == stats.Keys - {AGGREGATED}
    && (forall p :: p in r.endpoints ==> r.endpoints[p] == (stats[p], stats[p].requests >= c.limits.minSamples))
    && (r.aggregate.Some? <==> AGGREGATED in stats) && (r.aggregate.Some? ==> r.aggregate.value == stats[AGGREGATED])
  }

  class CapacityShape {
    const config: Settings
    const nSteps: nat
    var steps: seq<StepResult>
    var window: Option<Opened>
    var failed: bool

    predicate Valid() {
      nSteps == Steps(config)
    }

    function ResultOf(r: StepResult): Outcome {
      if r.aggregate.Some? then Outcome(r.users, r.passed, r.aggregate.value.requests, Some(r.aggregate.value.rps))
      else Outcome(r.users, r.passed, 0, None)
    }

    ghost function View(): Ramp
      reads this
    {
      Ramp(seq(|steps|, i requires 0 <= i < |steps| reads this => ResultOf(steps[i])), window, failed)
    }

    constructor (config: Settings)
      ensures Valid() && View() == START && this.config == config
    {
      this.config := config;
      nSteps := CeilDiv(config.maxUsers, config.stepUsers);
      steps, window, failed := [], None, false;
    }

    /** The record of a step that measured `stats`: which ceilings it missed, and what each
        endpoint measured. */
    method Record(step: nat, stats: map<string, Stat>, walked: seq<string>) returns (r: StepResult)
      requires Walks(walked, stats.Keys)
      ensures ResultOf(r) == OutcomeOf(config, step, stats)
      ensures Describes(config, stats, r)
    {
      var failedOn, checked := EvaluateStep(config.limits, stats, walked);
      var aggregate := if AGGREGATED in stats then Some(stats[AGGREGATED]) else None;
      var endpoints := map p | p in checked :: (stats[p], checked[p]);
      r := StepResult(Users(config, step), aggregate, failedOn == [], failedOn, endpoints);
    }

    /** Close the step's window and record its result. */
    method FinishStep(step: nat, t: Tick)
      requires Walks(t.order, t.closing.Keys) && step == |steps|
      modifies this
      ensures View() == Finished(config, old(View()), t)
      ensures |steps| == step + 1 && steps[..step] == old(steps)
      ensures Describes(config, StepStats(config, old(window), t), steps[step])
    {
      var stats: map<string, Stat>, walked := map[], [];
      if window.Some? {
        stats, walked := Window(window.value.snap, t.closing, t.clock - window.value.at, t.order, config.pct);
      }
      assert stats == StepStats(config, window, t);
      var r := Record(step, stats, walked);
      steps := steps + [r];
      window := None;
      failed := failed || !r.passed;
      assert View().results == old(View()).results + [ResultOf(r)];
    }

    method OnTick(t: Tick) returns (reply: Reply)
      requires Valid() && Walks(t.order, t.closing.Keys)
      modifies this
      ensures View() == AfterTick(config, old(View()), t)
      ensures reply == ReplyTo(config, old(View()), t)
    {
      var step := (t.elapsed / config.stepDuration as real).Floor;
      var doneSteps := |steps|;
      if step > doneSteps {
        FinishStep(doneSteps, t);
        doneSteps := doneSteps + 1;
      }
      if doneSteps >= nSteps || (failed && !config.runAllSteps) { return Stop; }
      if window.None? && t.elapsed - (doneSteps * config.stepDuration) as real >= config.warmup as real {
        window := Some(Opened(t.opening, t.clock));
      }
      return Run(Users(config, doneSteps), config.spawnRate);
    }
  }

  /** Construction fails on settings that make no ramp. */
  method NewShape(c: Config) returns (shape: CapacityShape?)
    ensures shape == null <==>
            c.stepUsers < 1 || c.stepDuration < 1 || c.maxUsers < 1 || c.warmup < 0 || c.warmup >= c.stepDuration
    ensures shape != null ==> fresh(shape) && shape.Valid() && shape.View() == START
  {
    if c.stepUsers < 1 || c.stepDuration < 1 || c.maxUsers < 1 || !(0 <= c.warmup < c.stepDuration) { return null; }
    shape := new CapacityShape(c);
  }
}
