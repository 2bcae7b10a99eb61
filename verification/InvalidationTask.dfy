/** One replica's `run_invalidation` task, the lifespan that owns it, the broker session it
    reads, and the readers and writers that share the cache, as one transition system.

    A write and the event it publishes are one step. Assumed of the broker: while the session
    is connected every event is queued for it, in order; once disconnected it gets no more,
    and may lose what was queued. Assumed of the libraries: a subscribe that does not return
    opens nothing, and closing an iterator releases it however the close ends. */
module InvalidationTask {
  import opened Options

  datatype Exit = Ended | Failed | Cancelled

  /** Where the task is suspended. `seen` is the number of writes published when the running
      invalidation began, `began` the step at which it did. */
  datatype Pc =
    | NotStarted
    | Subscribing
    | Invalidating(seen: nat, began: nat)
    | Waiting
    | Closing(exit: Exit)
    | Sleeping
    | Done

  datatype Host = Serving | Stopping | ClientClosed

  /** `order` numbers are positions in the run, `at` is wall-clock time. */
  datatype Write = Write(order: nat, at: nat)
  datatype Reading = Reading(version: nat, began: nat, beganAt: nat)
  datatype Entry = Entry(reading: Reading, stored: nat, storedAt: nat)

  /** The broker session: the writes, by number, whose events wait in it. */
  datatype Session = Session(connected: bool, queue: seq<nat>)

  /** Invalidations that returned: how many writes the last one came after and the step at which
      it began; the same of the last one that did not swallow a Redis error; and whether the last
      one did. */
  datatype Past = Past(returned: nat, began: nat, effective: nat, since: nat, swallowed: bool)

  /** What everyone shares. */
  datatype World = World(clock: nat, writes: seq<Write>, readers: map<nat, Reading>, cache: map<string, Entry>)

  /** `lost` holds the writes whose events will never be read: published with no session, or gone
      with one. `cancelLost` records that a close raised while a cancellation was passing through it, or
      that a call consumed the cancellation. */
  datatype State = State(
    pc: Pc, cancelling: bool, host: Host, opens: nat, closes: nat, cancelLost: bool,
    session: Session, lost: set<nat>, past: Past, order: nat, world: World)

  const OFFLINE := Session(false, [])

  const INIT := State(NotStarted, false, Serving, 0, 0, false,
                      OFFLINE, {}, Past(0, 0, 0, 0, false), 0, World(0, [], map[], map[]))

  datatype Label =
    // the task's own resumptions
    | Start | SubscribeReturns | SubscribeRaises
    | InvalidateReturns(swallows: bool) | InvalidateRaises
    | EventArrives | StreamEnds | StreamRaises
    | CloseReturns | CloseRaises | SleepEnds | CancelArrives | CancelConsumed
    // its owner
    | Shutdown | CancelAgain | CloseClient
    // everyone else
    | Publish | Disconnect(left: nat) | Tick(passed: nat)
    | Compute(reader: nat) | Store(reader: nat, key: string) | Lose(keys: set<string>)

  predicate Holding(pc: Pc) {
    pc.Invalidating? || pc.Waiting? || pc.Closing?
  }

  predicate TaskLabel(l: Label) {
    l.Start? || l.SubscribeReturns? || l.SubscribeRaises? || l.InvalidateReturns? || l.InvalidateRaises?
    || l.EventArrives? || l.StreamEnds? || l.StreamRaises? || l.CloseReturns? || l.CloseRaises?
    || l.SleepEnds? || l.CancelArrives? || l.CancelConsumed?
  }

  /** Where the task is inside a library call, which may catch a cancellation itself. */
  predicate Calling(pc: Pc) {
    pc.Subscribing? || Holding(pc)
  }

  /** A pending cancellation is what the task resumes with, wherever it is suspended: either it
      passes through the call under way, or that call consumes it, to go on or to raise
      something else. */
  predicate Enabled(s: State, l: Label) {
    if TaskLabel(l) && !l.CancelArrives? && !l.CancelConsumed? && s.cancelling then false
    else
      match l
      case Start => s.pc.NotStarted?
      case SubscribeReturns => s.pc.Subscribing?
      case SubscribeRaises => s.pc.Subscribing?
      case InvalidateReturns(_) => s.pc.Invalidating?
      case InvalidateRaises => s.pc.Invalidating?
      case EventArrives => s.pc.Waiting? && s.session.queue != []
      case StreamEnds => s.pc.Waiting?
      case StreamRaises => s.pc.Waiting?
      case CloseReturns => s.pc.Closing?
      case CloseRaises => s.pc.Closing?
      case SleepEnds => s.pc.Sleeping?
      case CancelArrives => s.cancelling && !s.pc.Done?
      case CancelConsumed => s.cancelling && Calling(s.pc)
      case Shutdown => s.host.Serving?
      case CancelAgain => s.host.Stopping? && !s.pc.Done?
      case CloseClient => s.host.Stopping? && s.pc.Done?
      case Publish => true
      case Disconnect(left) => s.session.connected && left <= |s.session.queue|
      case Tick(_) => true
      case Compute(_) => true
      case Store(r, _) => r in s.world.readers
      case Lose(_) => true
  }

  function BeginInvalidation(s: State, session: Session): State {
    s.(pc := Invalidating(|s.world.writes|, s.order), session := session)
  }

  function Elements(queue: seq<nat>): set<nat> {
    set w | w in queue
  }

  /** Leaving the `aclosing` block, whichever way, ends the session. */
  function Release(s: State, next: Pc): State {
    s.(pc := next, closes := s.closes + 1, session := OFFLINE, lost := s.lost + Elements(s.session.queue))
  }

  /** An invalidation that kept its promise removed every entry stored before it began. */
  function Purged(cache: map<string, Entry>, began: nat): map<string, Entry> {
    map k | k in cache && cache[k].stored >= began :: cache[k]
  }

  function Effect(s: State, l: Label): State
    requires Enabled(s, l)
  {
    match l
    case Start => s.(pc := Subscribing)
    case SubscribeReturns => BeginInvalidation(s.(opens := s.opens + 1), Session(true, []))
    case SubscribeRaises => s.(pc := Sleeping)
    case InvalidateReturns(swallows) =>
      if swallows then
        s.(pc := Waiting, past := s.past.(returned := s.pc.seen, began := s.pc.began, swallowed := true))
      else
        s.(pc := Waiting, past := Past(s.pc.seen, s.pc.began, s.pc.seen, s.pc.began, false),
           world := s.world.(cache := Purged(s.world.cache, s.pc.began)))
    case InvalidateRaises => s.(pc := Closing(Failed))
    case EventArrives => BeginInvalidation(s, s.session.(queue := s.session.queue[1..]))
    case StreamEnds => s.(pc := Closing(Ended))
    case StreamRaises => s.(pc := Closing(Failed))
    case CloseReturns => Release(s, if s.pc.exit.Cancelled? then Done else Sleeping)
    case CloseRaises => // the new exception replaces the old one, a cancellation included
      Release(s.(cancelLost := s.cancelLost || s.pc.exit.Cancelled?), Sleeping)
    case SleepEnds => s.(pc := Subscribing)
    case CancelArrives =>
      s.(cancelling := false, pc := if Holding(s.pc) then Closing(Cancelled) else Done)
    case CancelConsumed => // a cancellation that is passing through already stays on its way
      s.(cancelling := false, cancelLost := s.pc != Closing(Cancelled))
    case Shutdown => s.(host := Stopping, cancelling := !s.pc.Done?)
    case CancelAgain => // a cancelled lifespan passes its own cancellation on to the task it awaits
      s.(cancelling := true, cancelLost := false)
    case CloseClient => s.(host := ClientClosed)
    case Disconnect(left) =>
      s.(session := Session(false, s.session.queue[..left]), lost := s.lost + Elements(s.session.queue[left..]))
    case Publish =>
      var n := |s.world.writes|;
      s.(session := if s.session.connected then s.session.(queue := s.session.queue + [n]) else s.session,
         lost := if s.session.connected then s.lost else s.lost + {n},
         world := s.world.(writes := s.world.writes + [Write(s.order, s.world.clock)]))
    case Tick(passed) => s.(world := s.world.(clock := s.world.clock + passed))
    case Compute(r) =>
      s.(world := s.world.(readers := s.world.readers[r := Reading(|s.world.writes|, s.order, s.world.clock)]))
    case Store(r, k) =>
      var entry := Entry(s.world.readers[r], s.order, s.world.clock);
      s.(world := s.world.(cache := s.world.cache[k := entry], readers := s.world.readers - {r}))
    case Lose(keys) => s.(world := s.world.(cache := s.world.cache - keys))
  }

  /** How many writes the latest invalidation to begin in this session followed. */
  function LastSeen(s: State): nat {
    if s.pc.Invalidating? then s.pc.seen else s.past.returned
  }

  function Next(s: State, l: Label): State
    requires Enabled(s, l)
  {
    Effect(s, l).(order := s.order + 1)
  }

  /** Where a run of labels leads, if every one of them is enabled in turn. */
  function Run(s: State, ls: seq<Label>): Option<State>
    decreases ls
  {
    if ls == [] then Some(s)
    else if Enabled(s, ls[0]) then Run(Next(s, ls[0]), ls[1..])
    else None
  }

  ghost predicate Reachable(s: State) {
    exists ls :: Run(INIT, ls) == Some(s)
  }

  // ---- What every step keeps ----

  ghost predicate LifetimeInv(s: State) {
    && s.opens == s.closes + (if Holding(s.pc) then 1 else 0)
    && (s.session.connected ==> Holding(s.pc))
    && (s.host.ClientClosed? ==> s.pc.Done?)
    && (s.host.Serving? ==> !s.cancelling && !s.pc.Done? && !s.cancelLost && s.pc != Closing(Cancelled))
    && (s.cancelling ==> !s.pc.Done? && !s.cancelLost)
    && (s.pc == Closing(Cancelled) ==> !s.cancelLost)
    && (s.pc.Done? ==> !s.cancelLost)
    && (s.host.Stopping? && !s.cancelLost ==> s.pc.Done? || s.cancelling || s.pc == Closing(Cancelled))
  }

  /** A write since the latest invalidation began has its event in the queue, or lost; and lost
      it is only if the session is. */
  ghost predicate CoverageInv(s: State) {
    && s.past.returned <= |s.world.writes| && s.past.effective <= |s.world.writes|
    && (!s.past.swallowed ==> s.past.effective == s.past.returned)
    && (s.pc.Invalidating? ==> s.pc.seen <= |s.world.writes| && s.pc.began < s.order)
    && (forall w :: w in s.session.queue || w in s.lost ==> w < |s.world.writes|)
    && (s.pc.Invalidating? || s.pc.Waiting? ==>
          && (forall w :: LastSeen(s) <= w < |s.world.writes| ==> w in s.session.queue || w in s.lost)
          && (s.session.connected ==> forall w :: w in s.lost ==> w < LastSeen(s)))
  }

  ghost predicate ReadingOk(s: State, r: Reading) {
    && r.version <= |s.world.writes| && r.began < s.order && r.beganAt <= s.world.clock
    && forall w :: r.version <= w < |s.world.writes| ==>
       r.began < s.world.writes[w].order && r.beganAt <= s.world.writes[w].at
  }

  ghost predicate EntryOk(s: State, e: Entry) {
    && ReadingOk(s, e.reading) && e.reading.beganAt <= e.storedAt <= s.world.clock
    && s.past.since <= e.stored < s.order
  }

  /** The effective invalidation, and the one under way, began after the writes they count. */
  ghost predicate OrderInv(s: State) {
    && s.past.since <= s.order && s.past.effective <= |s.world.writes|
    && (forall w :: 0 <= w < |s.world.writes| ==>
         s.world.writes[w].order < s.order && s.world.writes[w].at <= s.world.clock)
    && (forall w :: 0 <= w < s.past.effective ==> s.world.writes[w].order < s.past.since)
    && s.past.returned <= |s.world.writes|
    && (forall w :: 0 <= w < s.past.returned ==> s.world.writes[w].order < s.past.began)
    && (s.pc.Invalidating? ==> s.past.since <= s.pc.began < s.order && s.pc.seen <= |s.world.writes|)
    && (s.pc.Invalidating? ==> forall w :: 0 <= w < s.pc.seen ==> s.world.writes[w].order < s.pc.began)
  }

  /** Readings and cached bodies show only what was written when they were computed, and no
      cached body was stored before the last effective invalidation began. */
  ghost predicate CacheInv(s: State) {
    && (forall r :: r in s.world.readers ==> ReadingOk(s, s.world.readers[r]))
    && (forall k :: k in s.world.cache ==> EntryOk(s, s.world.cache[k]))
  }

  ghost predicate Inv(s: State) {
    LifetimeInv(s) && CoverageInv(s) && OrderInv(s) && CacheInv(s)
  }

  lemma LifetimeStep(s: State, l: Label)
    requires LifetimeInv(s) && Enabled(s, l)
    ensures LifetimeInv(Next(s, l))
  {
  }

  lemma CoverageStep(s: State, l: Label)
    requires LifetimeInv(s) && CoverageInv(s) && Enabled(s, l)
    ensures CoverageInv(Next(s, l))
  {
    if l.CloseReturns? || l.CloseRaises? || l.EventArrives? {
      CoverageAtQueue(s, l);
    } else if TaskLabel(l) {
      CoverageTaskStep(s, l);
    } else if l.Disconnect? {
      var queue := s.session.queue;
      assert forall w :: w in queue <==> w in queue[..l.left] || w in Elements(queue[l.left..]) by {
        assert queue == queue[..l.left] + queue[l.left..];
      }
      CoverageKept(s, Next(s, l));
    } else if l.Publish? {
      CoveragePublish(s);
    } else {
      CoverageKept(s, Next(s, l));
    }
  }

  /** Nothing moves but, perhaps, events from the queue to the lost. */
  lemma CoverageKept(s: State, t: State)
    requires CoverageInv(s)
    requires t.past == s.past && t.pc == s.pc && |t.world.writes| == |s.world.writes| && s.order <= t.order
    requires t.session.connected ==> s.session.connected && t.lost == s.lost
    requires forall w :: w in t.session.queue || w in t.lost <==> w in s.session.queue || w in s.lost
    ensures CoverageInv(t)
  {
  }

  lemma CoveragePublish(s: State)
    requires CoverageInv(s)
    ensures CoverageInv(Next(s, Publish))
  {
    var t, n := Next(s, Publish), |s.world.writes|;
    assert forall w :: w in s.session.queue + [n] <==> w in s.session.queue || w == n;
    assert |t.world.writes| == n + 1;
  }

  lemma CoverageAtQueue(s: State, l: Label)
    requires LifetimeInv(s) && CoverageInv(s) && Enabled(s, l) && (l.CloseReturns? || l.CloseRaises? || l.EventArrives?)
    ensures CoverageInv(Next(s, l))
  {
    var t, queue := Next(s, l), s.session.queue;
    if l.EventArrives? {
      assert forall w :: w in queue[1..] ==> w in queue;
      assert t.session.queue == queue[1..] && t.lost == s.lost && LastSeen(t) == |t.world.writes|;
    } else {
      assert forall w :: w in Elements(queue) <==> w in queue;
      assert t.session.queue == [] && t.lost == s.lost + Elements(queue);
    }
  }

  lemma CoverageTaskStep(s: State, l: Label)
    requires LifetimeInv(s) && CoverageInv(s) && Enabled(s, l)
    requires TaskLabel(l) && !l.CloseReturns? && !l.CloseRaises? && !l.EventArrives?
    ensures CoverageInv(Next(s, l))
  {
  }

  /** What one step may do to the shared world. */
  ghost predicate Moves(s: State, t: State) {
    && t.order == s.order + 1 && s.world.clock <= t.world.clock
    && (t.world.writes == s.world.writes || t.world.writes == s.world.writes + [Write(s.order, s.world.clock)])
    && (|| (t.past.effective == s.past.effective && t.past.since == s.past.since)
        || (s.pc.Invalidating? && t.past.effective == s.pc.seen && t.past.since == s.pc.began
             && OnlySince(t.world.cache, t.past.since)))
    && (|| (t.past.returned == s.past.returned && t.past.began == s.past.began)
        || (s.pc.Invalidating? && t.past.returned == s.pc.seen && t.past.began == s.pc.began))
    && (t.pc.Invalidating? ==>
         t.pc == s.pc || (t.pc == Invalidating(|s.world.writes|, s.order) && t.world.writes == s.world.writes))
    && (forall r :: r in t.world.readers ==>
          || (r in s.world.readers && t.world.readers[r] == s.world.readers[r])
          || (t.world.readers[r] == Reading(|s.world.writes|, s.order, s.world.clock)
               && t.world.writes == s.world.writes))
    && (forall k :: k in t.world.cache ==>
         (k in s.world.cache && t.world.cache[k] == s.world.cache[k]) || Stores(s, t.world.cache[k]))
  }

  ghost predicate OnlySince(cache: map<string, Entry>, began: nat) {
    forall k :: k in cache ==> cache[k].stored >= began
  }

  ghost predicate Stores(s: State, e: Entry) {
    exists r :: r in s.world.readers && e == Entry(s.world.readers[r], s.order, s.world.clock)
  }

  lemma StepMoves(s: State, l: Label)
    requires Enabled(s, l)
    ensures Moves(s, Next(s, l))
  {
    if l.InvalidateReturns? {
      InvalidationMoves(s, l.swallows);
    } else if l.Store? {
      assert Stores(s, Entry(s.world.readers[l.reader], s.order, s.world.clock));
    } else if TaskLabel(l) {
      TaskMoves(s, l);
    }
  }

  lemma TaskMoves(s: State, l: Label)
    requires Enabled(s, l) && TaskLabel(l) && !l.InvalidateReturns?
    ensures Moves(s, Next(s, l))
  {
    var t := Next(s, l);
    TaskLeavesTheWorld(s, l);
    assert forall k :: k in t.world.cache ==> k in s.world.cache && t.world.cache[k] == s.world.cache[k];
  }

  lemma TaskLeavesTheWorld(s: State, l: Label)
    requires Enabled(s, l) && TaskLabel(l) && !l.InvalidateReturns?
    ensures var t := Next(s, l);
            && t.world == s.world && t.past == s.past && t.order == s.order + 1
            && (t.pc.Invalidating? ==> t.pc == s.pc || t.pc == Invalidating(|s.world.writes|, s.order))
  {
  }

  lemma InvalidationMoves(s: State, swallows: bool)
    requires Enabled(s, InvalidateReturns(swallows))
    ensures Moves(s, Next(s, InvalidateReturns(swallows)))
  {
  }

  lemma OrderStep(s: State, t: State)
    requires OrderInv(s) && Moves(s, t)
    ensures OrderInv(t)
  {
  }

  /** A reading made before stays a reading made before whatever is written next. */
  lemma ReadingStays(s: State, t: State, r: Reading)
    requires Moves(s, t) && ReadingOk(s, r)
    ensures ReadingOk(t, r)
  {
  }

  lemma CacheStep(s: State, t: State)
    requires OrderInv(s) && CacheInv(s) && Moves(s, t)
    ensures CacheInv(t)
  {
    forall r | r in t.world.readers ensures ReadingOk(t, t.world.readers[r]) {
      if r in s.world.readers && t.world.readers[r] == s.world.readers[r] { ReadingStays(s, t, s.world.readers[r]); }
    }
    forall k | k in t.world.cache ensures EntryOk(t, t.world.cache[k]) {
      if k in s.world.cache && t.world.cache[k] == s.world.cache[k] {
        assert EntryOk(s, s.world.cache[k]);
        ReadingStays(s, t, s.world.cache[k].reading);
      } else {
        var r :| r in s.world.readers && t.world.cache[k] == Entry(s.world.readers[r], s.order, s.world.clock);
        ReadingStays(s, t, s.world.readers[r]);
      }
    }
  }

  lemma StepKeepsInv(s: State, l: Label)
    requires Inv(s) && Enabled(s, l)
    ensures Inv(Next(s, l))
  {
    LifetimeStep(s, l);
    CoverageStep(s, l);
    StepMoves(s, l);
    OrderStep(s, Next(s, l));
    CacheStep(s, Next(s, l));
  }

  lemma {:induction false} RunKeepsInv(s: State, ls: seq<Label>)
    requires Inv(s) && Run(s, ls).Some?
    ensures Inv(Run(s, ls).value)
    decreases ls
  {
    if ls != [] {
      StepKeepsInv(s, ls[0]);
      RunKeepsInv(Next(s, ls[0]), ls[1..]);
    }
  }

  lemma ReachableInv(s: State)
    requires Reachable(s)
    ensures Inv(s)
  {
    var ls :| Run(INIT, ls) == Some(s);
    RunKeepsInv(INIT, ls);
  }

  lemma {:induction false} RunExtends(s: State, ls: seq<Label>, l: Label)
    requires Run(s, ls).Some? && Enabled(Run(s, ls).value, l)
    ensures Run(s, ls + [l]) == Some(Next(Run(s, ls).value, l))
    decreases ls
  {
    if ls == [] {
      assert [l][1..] == [];
    } else {
      assert (ls + [l])[1..] == ls[1..] + [l];
      RunExtends(Next(s, ls[0]), ls[1..], l);
    }
  }

  lemma StepReaches(s: State, l: Label)
    requires Reachable(s) && Enabled(s, l)
    ensures Reachable(Next(s, l))
  {
    var ls :| Run(INIT, ls) == Some(s);
    RunExtends(INIT, ls, l);
  }

  // ---- Main results ----

  /** The task is about to wait for an event, and none is on its way to it. */
  predicate Idle(s: State) {
    s.pc.Waiting? && s.session.queue == []
  }

  /** An invalidation has begun and returned after every write published so far. */
  predicate Covered(s: State) {
    s.past.returned == |s.world.writes|
  }

  /** No lost write: while the session is connected an idle task has covered every write.
      When it is not, the task has done so exactly if no event was lost of a write published
      since its last invalidation began. */
  lemma NoLostWrite(s: State)
    requires Reachable(s) && Idle(s)
    ensures s.session.connected ==> Covered(s)
    ensures Covered(s) <==> forall w :: w in s.lost ==> w < s.past.returned
    ensures Covered(s) && !s.past.swallowed ==> s.past.effective == |s.world.writes|
  {
    ReachableInv(s);
    if !Covered(s) { assert s.past.returned in s.lost; }
  }

  /** The connection matters: a drop the client has not noticed yet leaves the task idle
      with a write nobody invalidated for. */
  lemma UnnoticedDropLosesAWrite() returns (s: State)
    ensures Reachable(s) && Idle(s) && !s.session.connected && !Covered(s)
  {
    s := FirstWait();
    StepReaches(s, Disconnect(0)); s := Next(s, Disconnect(0));
    StepReaches(s, Publish); s := Next(s, Publish);
  }

  // ---- The same in terms of what happened in the run ----

  /** The labels with which an invalidation begins. */
  predicate Begins(l: Label) {
    l.SubscribeReturns? || l.EventArrives?
  }

  /** One invalidation began at step `i` of the run and returned at step `j`. */
  ghost predicate OneInvalidation(ls: seq<Label>, i: int, j: int, swallows: bool) {
    && 0 <= i < j < |ls| && Begins(ls[i]) && ls[j] == InvalidateReturns(swallows)
    && forall k :: i < k < j ==> !Begins(ls[k])
  }

  ghost predicate TraceInv(ls: seq<Label>, s: State) {
    && s.order == |ls|
    && (forall k :: 0 <= k < |ls| && ls[k].Publish? ==> PublishedAt(s, k))
    && (s.pc.Invalidating? ==>
          s.pc.began < |ls| && Begins(ls[s.pc.began]) && forall k :: s.pc.began < k < |ls| ==> !Begins(ls[k]))
    && (s.pc.Waiting? ==> exists j :: OneInvalidation(ls, s.past.began, j, s.past.swallowed))
  }

  ghost predicate PublishedAt(s: State, step: nat) {
    exists w :: 0 <= w < |s.world.writes| && s.world.writes[w].order == step
  }

  lemma {:induction false} RunFront(s: State, ls: seq<Label>)
    requires Run(s, ls).Some? && ls != []
    ensures var front := Run(s, ls[..|ls| - 1]);
            && front.Some? && Enabled(front.value, ls[|ls| - 1])
            && Run(s, ls) == Some(Next(front.value, ls[|ls| - 1]))
    decreases ls
  {
    var n := |ls| - 1;
    if n == 0 {
      assert ls[..0] == [] && ls[1..] == [];
    } else {
      assert ls[1..][..n - 1] == ls[..n][1..];
      RunFront(Next(s, ls[0]), ls[1..]);
    }
  }

  lemma TraceStep(ls: seq<Label>, s: State, l: Label)
    requires TraceInv(ls, s) && Enabled(s, l)
    ensures TraceInv(ls + [l], Next(s, l))
  {
    var more, t := ls + [l], Next(s, l);
    assert forall k :: 0 <= k < |ls| ==> more[k] == ls[k];
    assert more[|ls|] == l;
    PublishedStep(s, l);
    if t.pc.Waiting? {
      if l.InvalidateReturns? {
        assert OneInvalidation(more, s.pc.began, |ls|, l.swallows);
      } else {
        WaitingStays(s, l);
        var j :| OneInvalidation(ls, s.past.began, j, s.past.swallowed);
        assert OneInvalidation(more, t.past.began, j, t.past.swallowed);
      }
    }
  }

  lemma PublishedStep(s: State, l: Label)
    requires Enabled(s, l)
    ensures forall k: nat :: PublishedAt(s, k) ==> PublishedAt(Next(s, l), k)
    ensures l.Publish? ==> PublishedAt(Next(s, l), s.order)
  {
    var t, n := Next(s, l), |s.world.writes|;
    assert forall w :: 0 <= w < n ==> t.world.writes[w] == s.world.writes[w];
    if l.Publish? { assert t.world.writes[n].order == s.order; }
  }

  lemma WaitingStays(s: State, l: Label)
    requires Enabled(s, l) && Next(s, l).pc.Waiting? && !l.InvalidateReturns?
    ensures s.pc.Waiting? && Next(s, l).past == s.past && !Begins(l)
  {
  }

  lemma {:induction false} RunTrace(ls: seq<Label>)
    requires Run(INIT, ls).Some?
    ensures TraceInv(ls, Run(INIT, ls).value)
  {
    if ls != [] {
      var front := ls[..|ls| - 1];
      RunFront(INIT, ls);
      RunTrace(front);
      TraceStep(front, Run(INIT, front).value, ls[|ls| - 1]);
      assert ls == front + [ls[|ls| - 1]];
    }
  }

  /** In any run that ends idle on a live connection there is an invalidation that began after
      every write in the run and returned. */
  lemma NoLostWriteInTheRun(ls: seq<Label>, s: State) returns (i: nat, j: nat)
    requires Run(INIT, ls) == Some(s) && Idle(s) && s.session.connected
    ensures OneInvalidation(ls, i, j, s.past.swallowed)
    ensures forall k :: 0 <= k < |ls| && ls[k].Publish? ==> k < i
  {
    RunTrace(ls);
    NoLostWrite(s);
    ReachableInv(s);
    i := s.past.began;
    j :| OneInvalidation(ls, i, j, s.past.swallowed);
    forall k | 0 <= k < |ls| && ls[k].Publish? ensures k < i {
      assert PublishedAt(s, k);
    }
  }

  // ---- It comes back ----

  /** The steps in which nothing fails. */
  predicate Calm(l: Label) {
    l.Start? || l.SubscribeReturns? || l == InvalidateReturns(false) || l.EventArrives? || l.CloseReturns?
    || l.SleepEnds?
  }

  ghost predicate CalmRun(ls: seq<Label>) {
    forall i :: 0 <= i < |ls| ==> Calm(ls[i]) || ls[i].StreamEnds?
  }

  /** The loop is where it wants to be: waiting on a live connection, everything invalidated. */
  predicate Settled(s: State) {
    s.pc.Waiting? && s.session.connected && s.past.effective == |s.world.writes|
  }

  /** Calm steps left until the loop waits. */
  function StepsToWait(s: State): nat {
    match s.pc
    case Waiting => 0
    case Invalidating(_, _) => 1
    case Subscribing => 2
    case NotStarted => 3
    case Sleeping => 3
    case Closing(_) => 4
    case Done => 0
  }

  /** While serving, a loop that is not waiting can always take a calm step, and every calm step
      brings it nearer to waiting. */
  lemma CalmStepsLeadToWaiting(s: State) returns (l: Label)
    requires Reachable(s) && s.host.Serving? && !s.pc.Waiting?
    ensures Calm(l) && Enabled(s, l)
    ensures forall m :: Calm(m) && Enabled(s, m) ==> StepsToWait(Next(s, m)) < StepsToWait(s)
  {
    ReachableInv(s);
    l := match s.pc
      case NotStarted => Start
      case Subscribing => SubscribeReturns
      case Invalidating(_, _) => InvalidateReturns(false)
      case Closing(_) => CloseReturns
      case _ => SleepEnds;
  }

  lemma {:induction false} RunThen(s: State, first: seq<Label>, second: seq<Label>)
    requires Run(s, first).Some?
    ensures Run(s, first + second) == Run(Run(s, first).value, second)
    decreases first
  {
    if first == [] {
      assert first + second == second;
    } else {
      assert (first + second)[1..] == first[1..] + second;
      RunThen(Next(s, first[0]), first[1..], second);
    }
  }

  /** One step, and then the rest. */
  lemma Before(s: State, l: Label, rest: seq<Label>)
    requires Enabled(s, l) && Run(Next(s, l), rest).Some?
    ensures Run(s, [l] + rest) == Run(Next(s, l), rest)
  {
    assert ([l] + rest)[1..] == rest;
  }

  /** The loop hears of nothing more until its stream ends: its session is gone, or it is idle
      after an invalidation that swallowed its error. */
  predicate Stuck(s: State) {
    if s.pc.Invalidating? then !s.session.connected
    else s.pc.Waiting? && (!s.session.connected || (s.session.queue == [] && s.past.effective < |s.world.writes|))
  }

  function StepsToSettle(s: State): nat {
    if Stuck(s) then (if s.pc.Invalidating? then 6 else 5)
    else if s.pc.Invalidating? then (if s.pc.seen == |s.world.writes| then 1 else 3)
    else if s.pc.Waiting? then (if Settled(s) then 0 else 2)
    else StepsToWait(s)
  }

  /** The next step on the way. */
  lemma NextCalm(s: State) returns (l: Label)
    requires Inv(s) && s.host.Serving? && !Settled(s)
    ensures Enabled(s, l) && (Calm(l) || (l.StreamEnds? && Stuck(s)))
    ensures var t := Next(s, l);
            t.host.Serving? && StepsToSettle(t) < StepsToSettle(s) <= 6 && (Stuck(t) ==> Stuck(s))
  {
    match s.pc
    case NotStarted => l := Start;
    case Subscribing => l := SubscribeReturns;
    case Invalidating(seen, _) =>
      l := InvalidateReturns(false);
      if s.session.connected && seen < |s.world.writes| { assert seen in s.session.queue; }
    case Closing(_) => l := CloseReturns;
    case Sleeping => l := SleepEnds;
    case _ =>
      l := if s.session.connected && s.session.queue != [] then EventArrives else StreamEnds;
  }

  /** Recovery: from wherever a serving loop is, after whatever failures, at most six steps in
      which nothing fails lead to a live connection with everything published invalidated. The
      stream need not end for that, unless the loop is stuck. */
  lemma Recovers(s: State) returns (ls: seq<Label>, t: State)
    requires Reachable(s) && s.host.Serving?
    ensures Run(s, ls) == Some(t) && CalmRun(ls) && |ls| <= StepsToSettle(s) <= 6 && Settled(t)
    ensures StreamEnds in ls ==> Stuck(s)
    decreases StepsToSettle(s)
  {
    ReachableInv(s);
    if Settled(s) {
      ls, t := [], s;
    } else {
      var l := NextCalm(s);
      StepReaches(s, l);
      var rest;
      rest, t := Recovers(Next(s, l));
      Before(s, l, rest);
      ls := [l] + rest;
    }
  }

  function Count(ls: seq<Label>, p: Label -> bool): nat {
    if ls == [] then 0 else Count(ls[..|ls| - 1], p) + (if p(ls[|ls| - 1]) then 1 else 0)
  }

  /** The loop never hammers the broker: in any run, between two attempts to subscribe lies a
      sleep, and as long as it serves every sleep is followed by an attempt. */
  lemma {:induction false} AttemptsAreSpaced(ls: seq<Label>, s: State)
    requires Run(INIT, ls) == Some(s)
    ensures var attempts := Count(ls, (l: Label) => l.SubscribeReturns? || l.SubscribeRaises?);
            var sleeps := Count(ls, (l: Label) => l.SleepEnds?);
            && sleeps <= attempts <= sleeps + 1
            && (s.pc.NotStarted? || s.pc.Subscribing? ==> attempts == sleeps)
            && (Holding(s.pc) || s.pc.Sleeping? ==> attempts == sleeps + 1)
  {
    if ls != [] {
      RunFront(INIT, ls);
      AttemptsAreSpaced(ls[..|ls| - 1], Run(INIT, ls[..|ls| - 1]).value);
    }
  }

  /** A lookup hits while the entry's time to live has not passed since it was stored. */
  predicate Hit(s: State, key: string, ttl: nat) {
    key in s.world.cache && s.world.clock < s.world.cache[key].storedAt + ttl
  }

  /** The cached body does not show write number `w`. */
  predicate Misses(s: State, key: string, w: nat)
    requires key in s.world.cache
  {
    s.world.cache[key].reading.version <= w < |s.world.writes|
  }

  /** Bounded staleness. A hit that misses a write was computed before that write. If an
      effective invalidation followed the write, the body was stored after it began, by a
      reader already under way at the write. And, invalidated or not, the write is younger
      than the TTL plus the time that reader took. */
  lemma BoundedStaleness(s: State, key: string, w: nat, ttl: nat)
    requires Reachable(s) && key in s.world.cache && Misses(s, key, w)
    ensures var e := s.world.cache[key];
            && e.reading.began < s.world.writes[w].order
            && (w < s.past.effective ==> s.world.writes[w].order < s.past.since <= e.stored)
            && (Hit(s, key, ttl) ==> s.world.clock < s.world.writes[w].at + (e.storedAt - e.reading.beganAt) + ttl)
  {
    ReachableInv(s);
    assert EntryOk(s, s.world.cache[key]);
  }

  /** Such hits do happen: a body computed before a write, stored after the effective invalidation
      that followed the write, on a live connection with nothing left to do. */
  lemma StaleHitHappens() returns (s: State)
    ensures Reachable(s) && Settled(s) && s.session.queue == [] && Hit(s, "k", 1) && Misses(s, "k", 0)
  {
    s := FirstWait();
    StepReaches(s, Compute(0)); s := Next(s, Compute(0));
    StepReaches(s, Publish); s := Next(s, Publish);
    StepReaches(s, EventArrives); s := Next(s, EventArrives);
    StepReaches(s, InvalidateReturns(false)); s := Next(s, InvalidateReturns(false));
    StepReaches(s, Store(0, "k")); s := Next(s, Store(0, "k"));
  }

  /** So in an idle, connected state whose last invalidation went through, a stale body can
      only come from a reader that was computing while its write was published. */
  lemma IdleCacheIsFreshButForRaces(s: State, key: string)
    requires Reachable(s) && Idle(s) && s.session.connected && !s.past.swallowed && key in s.world.cache
    ensures var e := s.world.cache[key];
            || e.reading.version == |s.world.writes|
            || (s.world.writes != []
                 && e.reading.began < s.world.writes[|s.world.writes| - 1].order < s.past.since <= e.stored)
  {
    NoLostWrite(s);
    ReachableInv(s);
    assert EntryOk(s, s.world.cache[key]);
    if s.world.cache[key].reading.version < |s.world.writes| {
      BoundedStaleness(s, key, |s.world.writes| - 1, 0);
    }
  }

  /** At most one event iterator is open, each is closed once, none while sleeping, and the
      Redis client closes only after the task has ended. */
  lemma OneIteratorAtATime(s: State)
    requires Reachable(s)
    ensures s.closes <= s.opens <= s.closes + 1
    ensures s.opens == s.closes + 1 <==> Holding(s.pc)
    ensures s.pc.Sleeping? || s.pc.Subscribing? || s.pc.Done? ==> s.opens == s.closes
    ensures s.host.ClientClosed? ==> s.pc.Done?
  {
    ReachableInv(s);
  }

  /** Once the client is closed the task takes no further step, so it touches no cache. */
  lemma {:induction false} NothingAfterClientClose(s: State, ls: seq<Label>)
    requires Inv(s) && s.host.ClientClosed? && Run(s, ls).Some?
    ensures forall i :: 0 <= i < |ls| ==> !TaskLabel(ls[i])
    ensures Run(s, ls).value.pc.Done?
    decreases ls
  {
    if ls != [] {
      StepKeepsInv(s, ls[0]);
      NothingAfterClientClose(Next(s, ls[0]), ls[1..]);
      forall i | 0 <= i < |ls| ensures !TaskLabel(ls[i]) {
        if i > 0 { assert ls[i] == ls[1..][i - 1]; }
      }
    }
  }

  /** Steps left to a task whose cancellation is on its way. */
  function StepsToEnd(s: State): nat {
    if s.pc.Done? then 0
    else if s.pc == Closing(Cancelled) && !s.cancelling then 1
    else if Holding(s.pc) then 2
    else 1
  }

  /** Shutting down, the task is ended or on its way out exactly if, of its latest cancellation,
      no close raised while it passed through and no call consumed it. */
  lemma CancellationIsDelivered(s: State)
    requires Reachable(s) && s.host.Stopping?
    ensures !s.cancelLost <==> s.pc.Done? || s.cancelling || s.pc == Closing(Cancelled)
  {
    ReachableInv(s);
    if s.cancelLost { assert !s.cancelling && !s.pc.Done? && s.pc != Closing(Cancelled); }
  }

  /** Every step of a task on its way out brings the end nearer, unless it is the close that
      raises or the call that consumes the cancellation. */
  lemma CancelledTaskEnds(s: State, l: Label)
    requires Reachable(s) && s.host.Stopping? && !s.cancelLost && TaskLabel(l) && Enabled(s, l)
    ensures var t := Next(s, l);
            if s.pc == Closing(Cancelled) && l.CloseRaises? then t.cancelLost && t.pc.Sleeping?
            else if l.CancelConsumed? && s.pc != Closing(Cancelled) then t.cancelLost && t.pc == s.pc
            else !t.cancelLost && StepsToEnd(t) < StepsToEnd(s)
  {
    ReachableInv(s);
  }

  /** A replica that has subscribed once and is waiting for its first event. */
  lemma FirstWait() returns (s: State)
    ensures Reachable(s) && Idle(s) && s.session.connected && s.host.Serving? && !s.cancelling
            && s.world.writes == [] && s.past.returned == 0
  {
    assert Run(INIT, []) == Some(INIT);
    s := INIT;
    StepReaches(s, Start); s := Next(s, Start);
    StepReaches(s, SubscribeReturns); s := Next(s, SubscribeReturns);
    StepReaches(s, InvalidateReturns(false)); s := Next(s, InvalidateReturns(false));
  }

  /** The close that raises swallows the cancellation: the task goes back to serving events
      while the lifespan waits for it to end. */
  lemma RaisingCloseLosesTheCancellation() returns (s: State)
    ensures Reachable(s) && s.host.Stopping? && s.pc.Waiting? && !s.cancelling
  {
    s := FirstWait();
    StepReaches(s, Shutdown); s := Next(s, Shutdown);
    StepReaches(s, CancelArrives); s := Next(s, CancelArrives);
    StepReaches(s, CloseRaises); s := Next(s, CloseRaises);
    StepReaches(s, SleepEnds); s := Next(s, SleepEnds);
    StepReaches(s, SubscribeReturns); s := Next(s, SubscribeReturns);
    StepReaches(s, InvalidateReturns(false)); s := Next(s, InvalidateReturns(false));
  }

  /** Once its cancellation is lost the task never ends, unless it is cancelled again. */
  lemma {:induction false} LostCancellationNeverEnds(s: State, ls: seq<Label>)
    requires Inv(s) && s.cancelLost && Run(s, ls).Some? && CancelAgain !in ls
    ensures Run(s, ls).value.cancelLost && !Run(s, ls).value.pc.Done? && !Run(s, ls).value.host.ClientClosed?
    decreases ls
  {
    if ls != [] {
      StepKeepsInv(s, ls[0]);
      LostCancellationNeverEnds(Next(s, ls[0]), ls[1..]);
    }
  }

  /** Cancelled again, a task is on its way out again. */
  lemma SecondCancellationIsOnItsWay(s: State)
    requires Reachable(s) && s.host.Stopping? && s.cancelLost
    ensures Enabled(s, CancelAgain)
    ensures var t := Next(s, CancelAgain); Reachable(t) && t.cancelling && !t.cancelLost
  {
    ReachableInv(s);
    StepReaches(s, CancelAgain);
  }

  /** An invalidation loses it too if it swallows the error its own cancellation causes. */
  lemma SwallowingInvalidationLosesTheCancellation() returns (s: State)
    ensures Reachable(s) && s.host.Stopping? && s.pc.Waiting? && s.cancelLost && !s.cancelling
  {
    s := FirstWait();
    StepReaches(s, Publish); s := Next(s, Publish);
    StepReaches(s, EventArrives); s := Next(s, EventArrives);
    StepReaches(s, Shutdown); s := Next(s, Shutdown);
    StepReaches(s, CancelConsumed); s := Next(s, CancelConsumed);
    StepReaches(s, InvalidateReturns(true)); s := Next(s, InvalidateReturns(true));
  }

  // ---- What is stored while something runs ----

  predicate StoresKey(ls: seq<Label>, key: string) {
    exists i :: 0 <= i < |ls| && ls[i].Store? && ls[i].key == key
  }

  lemma {:induction false} StaysNewer(s: State, ls: seq<Label>, key: string, n: nat)
    requires Run(s, ls).Some? && n <= s.order
    requires key in s.world.cache ==> s.world.cache[key].stored >= n
    ensures var t := Run(s, ls).value; key in t.world.cache ==> t.world.cache[key].stored >= n
    decreases ls
  {
    if ls != [] {
      StepMoves(s, ls[0]);
      StaysNewer(Next(s, ls[0]), ls[1..], key, n);
    }
  }

  /** A key stored during a run is, if it is still there, no older than the run. */
  lemma {:induction false} StoredDuring(s: State, ls: seq<Label>, key: string)
    requires Run(s, ls).Some? && StoresKey(ls, key)
    ensures var t := Run(s, ls).value; key in t.world.cache ==> t.world.cache[key].stored >= s.order
    decreases ls
  {
    if ls[0].Store? && ls[0].key == key {
      StaysNewer(Next(s, ls[0]), ls[1..], key, s.order);
    } else {
      var i :| 0 <= i < |ls| && ls[i].Store? && ls[i].key == key;
      assert ls[1..][i - 1] == ls[i];
      StoredDuring(Next(s, ls[0]), ls[1..], key);
    }
  }

  // ---- Why it subscribes first ----

  /** The same loop with the two calls swapped: it invalidates, then subscribes, then waits. */
  function SwappedEffect(s: State, l: Label): State
    requires Enabled(s, l)
  {
    match l
    case Start => BeginInvalidation(s, OFFLINE)
    case SleepEnds => BeginInvalidation(s, OFFLINE)
    case InvalidateReturns(swallows) =>
      var t := Effect(s, l);
      if s.opens == s.closes then t.(pc := Subscribing) else t
    case InvalidateRaises => if s.opens == s.closes then s.(pc := Sleeping) else Effect(s, l)
    case CancelArrives => if s.opens == s.closes then s.(cancelling := false, pc := Done) else Effect(s, l)
    case SubscribeReturns => s.(pc := Waiting, opens := s.opens + 1, session := Session(true, []))
    case _ => Effect(s, l)
  }

  function SwappedRun(s: State, ls: seq<Label>): Option<State>
    decreases ls
  {
    if ls == [] then Some(s)
    else if Enabled(s, ls[0]) then SwappedRun(SwappedEffect(s, ls[0]).(order := s.order + 1), ls[1..])
    else None
  }

  /** It can sit idle on a live connection with a write nobody invalidated for, which
      `NoLostWrite` excludes for the loop as it is. */
  lemma SwappedLoopLosesAWrite() returns (ls: seq<Label>)
    ensures var s := SwappedRun(INIT, ls);
            s.Some? && Idle(s.value) && s.value.session.connected && !s.value.past.swallowed && !Covered(s.value)
  {
    ls := [Start, InvalidateReturns(false), Publish, SubscribeReturns];
    assert ls[1..] == [InvalidateReturns(false), Publish, SubscribeReturns];
    assert ls[1..][1..] == [Publish, SubscribeReturns];
    assert ls[1..][1..][1..] == [SubscribeReturns] && [SubscribeReturns][1..] == [];
  }
}
