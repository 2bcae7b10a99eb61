/** One access token shared by many simulated users: double-checked locking around a login. */
module TokenProtocol {
  import opened Options

  datatype Kind = Login | Refresh | Relogin

  /** The cache's own fields. */
  datatype Cache = Cache(token: string, refreshAt: real, counts: Counts)

  /** The login counter; a kind never counted reads as 0. */
  datatype Counts = Counts(login: nat, refresh: nat, relogin: nat)

  function Bump(c: Counts, kind: Kind): Counts {
    match kind
    case Login => c.(login := c.login + 1)
    case Refresh => c.(refresh := c.refresh + 1)
    case Relogin => c.(relogin := c.relogin + 1)
  }

  const EMPTY := Cache("", 0.0, Counts(0, 0, 0))

  /** `_usable`: the cached token can be handed out as is. */
  predicate Usable(c: Cache, rejected: Option<string>, now: real) {
    c.token != "" && Some(c.token) != rejected && now < c.refreshAt
  }

  function KindOf(c: Cache, rejected: Option<string>): Kind {
    if rejected.Some? then Relogin else if c.token != "" then Refresh else Login
  }

  function RefreshTime(now: real, lifetime: real): real {
    now + lifetime * 0.8
  }

  // ---- All interleavings of any number of users ----

  /** Where a user is inside `get`. */
  datatype Pc =
    | Idle
    | Entering(rejected: Option<string>)
    | Blocked(rejected: Option<string>)
    | Holding(rejected: Option<string>)
    | Fetching(rejected: Option<string>, kind: Kind)
    | Stored(rejected: Option<string>, kind: Kind, lifetime: real)
    | Refreshed(rejected: Option<string>, kind: Kind)
    | Returning(rejected: Option<string>, locked: bool)

  /** A login that succeeded: what it was counted as, which token it replaced, when the user
      decided to log in and when that token was due for renewal, and what was issued. */
  datatype LoginEvent = LoginEvent(
    kind: Kind, rejected: Option<string>, replaced: string, decided: real, dueAt: real, issued: string, lifetime: real)

  predicate Due(e: LoginEvent) {
    e.decided >= e.dueAt
  }

  /** A token with the time from which its lifetime counts: that of the store of its refresh time. */
  datatype Lease = Lease(token: string, from: real, lifetime: real)

  datatype Answer = Answer(rejected: Option<string>, token: string)

  datatype State = State(
    cache: Cache, lock: Option<nat>, users: map<nat, Pc>, clock: real,
    decided: real, issued: set<string>, logins: seq<LoginEvent>, leases: seq<Lease>, answers: seq<Answer>)

  const INIT := State(EMPTY, None, map[], 0.0, 0.0, {}, [], [], [])

  datatype Action =
    | Call(rejected: Option<string>) | CheckUnlocked | Acquire | CheckLocked
    | FetchOk(token: string, lifetime: real) | FetchFails | SetRefresh | Count | Return
  datatype Step = Act(user: nat, action: Action) | Tick(passed: real)

  function PcOf(s: State, u: nat): Pc {
    if u in s.users then s.users[u] else Idle
  }

  predicate Critical(p: Pc) {
    p.Holding? || p.Fetching? || p.Stored? || p.Refreshed? || (p.Returning? && p.locked)
  }

  /** Assumed of the identity provider: a new token is not empty and was never issued before.
      A user only rejects a token it was given. */
  predicate Enabled(s: State, st: Step) {
    match st
    case Tick(passed) => passed >= 0.0
    case Act(u, action) =>
      var p := PcOf(s, u);
      match action
      case Call(rejected) => p.Idle? && (rejected.Some? ==> rejected.value in s.issued)
      case CheckUnlocked => p.Entering?
      case Acquire => p.Blocked? && s.lock.None?
      case CheckLocked => p.Holding?
      case FetchOk(token, lifetime) => p.Fetching? && token != "" && token !in s.issued
      case FetchFails => p.Fetching?
      case SetRefresh => p.Stored?
      case Count => p.Refreshed?
      case Return => p.Returning?
  }

  function Next(s: State, st: Step): State
    requires Enabled(s, st)
  {
    match st
    case Tick(passed) => s.(clock := s.clock + passed)
    case Act(u, action) => var (t, p) := Effect(s, PcOf(s, u), u, action); t.(users := t.users[u := p])
  }

  function LoginOf(s: State, rejected: Option<string>, kind: Kind, token: string, lifetime: real): LoginEvent {
    LoginEvent(kind, rejected, s.cache.token, s.decided, s.cache.refreshAt, token, lifetime)
  }

  /** The state after a user's step, but for that user's own place, which comes second. */
  function Effect(s: State, p: Pc, u: nat, action: Action): (State, Pc)
    requires p == PcOf(s, u) && Enabled(s, Act(u, action))
  {
    match action
    case Call(rejected) => (s, Entering(rejected))
    case CheckUnlocked =>
      (s, if Usable(s.cache, p.rejected, s.clock) then Returning(p.rejected, false) else Blocked(p.rejected))
    case Acquire => (s.(lock := Some(u)), Holding(p.rejected))
    case CheckLocked =>
      if Usable(s.cache, p.rejected, s.clock) then (s, Returning(p.rejected, true))
      else (s.(decided := s.clock), Fetching(p.rejected, KindOf(s.cache, p.rejected)))
    case FetchOk(token, lifetime) =>
      (s.(cache := s.cache.(token := token), issued := s.issued + {token},
          logins := s.logins + [LoginOf(s, p.rejected, p.kind, token, lifetime)]),
       Stored(p.rejected, p.kind, lifetime))
    case FetchFails => (s.(lock := None), Idle)
    case SetRefresh =>
      (s.(cache := s.cache.(refreshAt := RefreshTime(s.clock, p.lifetime)),
          leases := s.leases + [Lease(s.cache.token, s.clock, p.lifetime)]),
       Refreshed(p.rejected, p.kind))
    case Count => (s.(cache := s.cache.(counts := Bump(s.cache.counts, p.kind))), Returning(p.rejected, true))
    case Return =>
      (s.(lock := if p.locked then None else s.lock, answers := s.answers + [Answer(p.rejected, s.cache.token)]), Idle)
  }

  function Run(s: State, steps: seq<Step>): Option<State>
    decreases steps
  {
    if steps == [] then Some(s)
    else if Enabled(s, steps[0]) then Run(Next(s, steps[0]), steps[1..])
    else None
  }

  ghost predicate Reachable(s: State) {
    exists steps :: Run(INIT, steps) == Some(s)
  }

  // ---- What every step keeps ----

  function Tally(logins: seq<LoginEvent>): Counts {
    if logins == [] then Counts(0, 0, 0)
    else Bump(Tally(logins[..|logins| - 1]), logins[|logins| - 1].kind)
  }

  /** The counter as it will read once the lock's holder, in place `p`, has counted its login. */
  function Settled(c: Counts, p: Pc): Counts {
    if p.Stored? || p.Refreshed? then Bump(c, p.kind) else c
  }

  function HolderPc(s: State): Pc {
    if s.lock.Some? then PcOf(s, s.lock.value) else Idle
  }

  ghost predicate CountsInv(s: State) {
    Tally(s.logins) == Settled(s.cache.counts, HolderPc(s))
  }

  ghost predicate LockInv(s: State) {
    forall u: nat :: Critical(PcOf(s, u)) <==> s.lock == Some(u)
  }

  ghost predicate PcOk(s: State, p: Pc) {
    && (!p.Idle? && p.rejected.Some? ==> p.rejected.value in s.issued)
    && (p.Returning? || p.Stored? || p.Refreshed? ==> s.cache.token != "" && Some(s.cache.token) != p.rejected)
    && (p.Fetching? ==>
          && p.kind == KindOf(s.cache, p.rejected)
          && (s.decided < s.cache.refreshAt ==> s.cache.token == "" || Some(s.cache.token) == p.rejected))
  }

  ghost predicate UsersInv(s: State) {
    forall u: nat :: PcOk(s, PcOf(s, u))
  }

  ghost predicate LoginOk(e: LoginEvent) {
    && (e.kind.Login? <==> e.rejected.None? && e.replaced == "")
    && (e.kind.Relogin? <==> e.rejected.Some?)
    && (!Due(e) ==> e.replaced == "" || Some(e.replaced) == e.rejected)
  }

  function IssuedBy(logins: seq<LoginEvent>): set<string> {
    if logins == [] then {} else IssuedBy(logins[..|logins| - 1]) + {logins[|logins| - 1].issued}
  }

  function LastIssued(logins: seq<LoginEvent>): string {
    if logins == [] then "" else logins[|logins| - 1].issued
  }

  /** Logins form a chain: each replaces the token the one before it issued by a new one. */
  ghost predicate Chain(logins: seq<LoginEvent>) {
    logins == [] ||
    var front, last := logins[..|logins| - 1], logins[|logins| - 1];
    Chain(front) && LoginOk(last) && last.replaced == LastIssued(front)
    && last.issued != "" && last.issued !in IssuedBy(front)
    && (last.rejected.Some? ==> last.rejected.value in IssuedBy(front))
  }

  ghost predicate ChainInv(s: State) {
    Chain(s.logins) && s.cache.token == LastIssued(s.logins) && s.issued == IssuedBy(s.logins)
  }

  ghost predicate AnswersInv(s: State) {
    forall i :: 0 <= i < |s.answers| ==>
      && s.answers[i].token in s.issued
      && Some(s.answers[i].token) != s.answers[i].rejected
      && (s.answers[i].rejected.Some? ==>
           s.answers[i].rejected.value in s.issued && s.answers[i].rejected.value != s.cache.token)
  }

  /** Every login but one whose refresh time is still to be stored has its lease, and the cache
      goes by the last lease: a token is due when four fifths of its lifetime have passed. */
  ghost predicate LeasesInv(s: State) {
    && s.clock >= 0.0
    && |s.logins| == |s.leases| + (if HolderPc(s).Stored? then 1 else 0)
    && (HolderPc(s).Stored? ==> HolderPc(s).lifetime == s.logins[|s.leases|].lifetime)
    && Leased(s.logins, s.leases, s.clock) && Dated(s.logins, s.leases)
    && s.cache.refreshAt == DueTime(s.leases, |s.leases|)
  }

  ghost predicate Leased(logins: seq<LoginEvent>, leases: seq<Lease>, clock: real) {
    |leases| <= |logins| && forall i :: 0 <= i < |leases| ==>
      leases[i].token == logins[i].issued && leases[i].lifetime == logins[i].lifetime && leases[i].from <= clock
  }

  ghost predicate Dated(logins: seq<LoginEvent>, leases: seq<Lease>) {
    |logins| <= |leases| + 1 && forall i :: 0 <= i < |logins| ==> logins[i].dueAt == DueTime(leases, i)
  }

  /** When the token issued by the login before login `i` was due; 0 before there was one. */
  function DueTime(leases: seq<Lease>, i: nat): real
    requires i <= |leases|
  {
    if i == 0 then 0.0 else leases[i - 1].from + 4.0 * leases[i - 1].lifetime / 5.0
  }

  ghost predicate Inv(s: State) {
    LockInv(s) && UsersInv(s) && ChainInv(s) && AnswersInv(s) && CountsInv(s) && LeasesInv(s)
  }

  /** What one user's step does to the tokens: nothing, or a login by the lock's holder. */
  ghost predicate SameTokens(s: State, t: State) {
    s.cache.token == t.cache.token && s.issued == t.issued && s.logins == t.logins
  }

  lemma LockStep(s: State, st: Step)
    requires LockInv(s) && Enabled(s, st)
    ensures LockInv(Next(s, st))
  {
    forall u: nat ensures Critical(PcOf(Next(s, st), u)) <==> Next(s, st).lock == Some(u) {
      assert Critical(PcOf(s, u)) <==> s.lock == Some(u);
      if st.Act? { assert Critical(PcOf(s, st.user)) <==> s.lock == Some(st.user); }
    }
  }

  lemma ChainGrows(logins: seq<LoginEvent>, e: LoginEvent)
    requires Chain(logins) && LoginOk(e) && e.replaced == LastIssued(logins)
    requires e.issued != "" && e.issued !in IssuedBy(logins)
    requires e.rejected.Some? ==> e.rejected.value in IssuedBy(logins)
    ensures var more := logins + [e];
            Chain(more) && LastIssued(more) == e.issued && IssuedBy(more) == IssuedBy(logins) + {e.issued}
  {
    assert (logins + [e])[..|logins|] == logins;
  }

  lemma OnlyFetchesLogIn(s: State, st: Step)
    requires Enabled(s, st) && !(st.Act? && st.action.FetchOk?)
    ensures SameTokens(s, Next(s, st))
  {
  }

  lemma ChainStep(s: State, st: Step)
    requires ChainInv(s) && UsersInv(s) && Enabled(s, st)
    ensures ChainInv(Next(s, st))
  {
    if st.Act? && st.action.FetchOk? {
      var p := PcOf(s, st.user);
      assert PcOk(s, p);
      CurrentIsIssued(s);
      ChainGrows(s.logins, LoginOf(s, p.rejected, p.kind, st.action.token, st.action.lifetime));
    } else {
      OnlyFetchesLogIn(s, st);
    }
  }

  lemma UsersStep(s: State, st: Step)
    requires LockInv(s) && UsersInv(s) && Enabled(s, st)
    ensures UsersInv(Next(s, st))
  {
    var t := Next(s, st);
    forall u: nat ensures PcOk(t, PcOf(t, u)) {
      assert PcOk(s, PcOf(s, u));
      assert Critical(PcOf(s, u)) <==> s.lock == Some(u);
      if st.Act? { assert Critical(PcOf(s, st.user)) <==> s.lock == Some(st.user); }
    }
  }

  lemma AnswersStep(s: State, st: Step)
    requires UsersInv(s) && ChainInv(s) && AnswersInv(s) && Enabled(s, st)
    ensures AnswersInv(Next(s, st))
  {
    if st.Act? { assert PcOk(s, PcOf(s, st.user)); }
    CurrentIsIssued(s);
  }

  lemma CurrentIsIssued(s: State)
    requires ChainInv(s)
    ensures s.cache.token != "" ==> s.cache.token in s.issued
    ensures s.cache.token == "" <==> s.issued == {}
  {
  }

  lemma CountsStep(s: State, st: Step)
    requires LockInv(s) && Enabled(s, st) && CountsInv(s)
    ensures CountsInv(Next(s, st))
  {
    if st.Act? {
      var p := PcOf(s, st.user);
      assert Critical(p) <==> s.lock == Some(st.user);
      if st.action.FetchOk? {
        TallyGrows(s.logins, LoginOf(s, p.rejected, p.kind, st.action.token, st.action.lifetime));
      } else {
        OnlyFetchesLogIn(s, st);
        HolderMoves(s, st.user, st.action);
      }
    }
  }

  lemma TallyGrows(logins: seq<LoginEvent>, e: LoginEvent)
    ensures Tally(logins + [e]) == Bump(Tally(logins), e.kind)
  {
    assert (logins + [e])[..|logins|] == logins;
  }

  /** A step that is not a login leaves what the counter will settle to. */
  lemma HolderMoves(s: State, u: nat, action: Action)
    requires LockInv(s) && Enabled(s, Act(u, action)) && !action.FetchOk?
    ensures var t := Next(s, Act(u, action));
            Settled(t.cache.counts, HolderPc(t)) == Settled(s.cache.counts, HolderPc(s))
  {
    assert Critical(PcOf(s, u)) <==> s.lock == Some(u);
  }

  lemma LeasesStep(s: State, st: Step)
    requires LockInv(s) && ChainInv(s) && LeasesInv(s) && Enabled(s, st)
    ensures LeasesInv(Next(s, st))
  {
    if st.Act? {
      var p := PcOf(s, st.user);
      assert Critical(p) <==> s.lock == Some(st.user);
      match st.action {
        case FetchOk(token, lifetime) => LeasesAtFetch(s, st.user, token, lifetime);
        case SetRefresh => LeasesAtRefresh(s, st.user);
        case _ => HolderStays(s, st.user, st.action);
      }
    }
  }

  lemma LeasesAtFetch(s: State, u: nat, token: string, lifetime: real)
    requires LeasesInv(s) && Enabled(s, Act(u, FetchOk(token, lifetime))) && s.lock == Some(u)
    ensures LeasesInv(Next(s, Act(u, FetchOk(token, lifetime))))
  {
    var t, p := Next(s, Act(u, FetchOk(token, lifetime))), PcOf(s, u);
    var e := LoginOf(s, p.rejected, p.kind, token, lifetime);
    assert t.logins == s.logins + [e] && t.leases == s.leases;
    assert HolderPc(t) == Stored(p.rejected, p.kind, lifetime);
  }

  lemma LeasesAtRefresh(s: State, u: nat)
    requires LeasesInv(s) && PcOf(s, u).Stored? && s.lock == Some(u) && s.cache.token == LastIssued(s.logins)
    ensures LeasesInv(Next(s, Act(u, SetRefresh)))
  {
    var t, p := Next(s, Act(u, SetRefresh)), PcOf(s, u);
    var lease := Lease(s.cache.token, s.clock, p.lifetime);
    LeaseAdded(s.logins, s.leases, s.clock, lease);
    assert t.logins == s.logins && t.leases == s.leases + [lease] && t.clock == s.clock;
    assert HolderPc(t) == Refreshed(p.rejected, p.kind);
    assert t.cache.refreshAt == RefreshTime(s.clock, p.lifetime) == s.clock + 4.0 * p.lifetime / 5.0;
  }

  lemma LeaseAdded(logins: seq<LoginEvent>, leases: seq<Lease>, clock: real, lease: Lease)
    requires Leased(logins, leases, clock) && Dated(logins, leases) && |logins| == |leases| + 1
    requires lease.token == logins[|leases|].issued && lease.lifetime == logins[|leases|].lifetime
    requires lease.from <= clock
    ensures Leased(logins, leases + [lease], clock) && Dated(logins, leases + [lease])
    ensures DueTime(leases + [lease], |leases| + 1) == lease.from + 4.0 * lease.lifetime / 5.0
  {
    assert forall i :: 0 <= i <= |leases| ==> DueTime(leases + [lease], i) == DueTime(leases, i);
  }

  /** No other step of a user begins or ends the time between a login and its refresh time. */
  lemma HolderStays(s: State, u: nat, action: Action)
    requires LockInv(s) && Enabled(s, Act(u, action)) && !action.FetchOk? && !action.SetRefresh?
    ensures var t := Next(s, Act(u, action));
            && HolderPc(t).Stored? == HolderPc(s).Stored?
            && (HolderPc(t).Stored? ==> HolderPc(t) == HolderPc(s))
            && t.leases == s.leases && t.logins == s.logins
            && t.cache.refreshAt == s.cache.refreshAt && t.clock == s.clock
  {
    assert Critical(PcOf(s, u)) <==> s.lock == Some(u);
  }

  lemma {:induction false} RunKeepsInv(s: State, steps: seq<Step>)
    requires Inv(s) && Run(s, steps).Some?
    ensures Inv(Run(s, steps).value)
    decreases steps
  {
    if steps != [] {
      LockStep(s, steps[0]);
      UsersStep(s, steps[0]);
      ChainStep(s, steps[0]);
      AnswersStep(s, steps[0]);
      CountsStep(s, steps[0]);
      LeasesStep(s, steps[0]);
      RunKeepsInv(Next(s, steps[0]), steps[1..]);
    }
  }

  lemma ReachableInv(s: State)
    requires Reachable(s)
    ensures Inv(s)
  {
    var steps :| Run(INIT, steps) == Some(s);
    RunKeepsInv(INIT, steps);
  }

  /** The part that is about tokens and their time. */
  lemma ReachableTokens(s: State)
    requires Reachable(s)
    ensures ChainInv(s) && LeasesInv(s)
  {
    ReachableInv(s);
  }

  // ---- Main results ----

  /** Two logins never overlap: everything from the second check on is one user at a time. */
  lemma LoginsNeverOverlap(s: State, u: nat, v: nat)
    requires Reachable(s) && Critical(PcOf(s, u)) && Critical(PcOf(s, v))
    ensures u == v && s.lock == Some(u)
  {
    ReachableInv(s);
  }

  /** Every token handed out was issued, and is not the one its caller rejected. */
  lemma AnswersAreFresh(s: State, i: nat)
    requires Reachable(s) && i < |s.answers|
    ensures s.answers[i].token in s.issued && s.answers[i].token != ""
    ensures Some(s.answers[i].token) != s.answers[i].rejected
  {
    ReachableInv(s);
    NoEmptyToken(s.logins);
  }

  lemma {:induction false} NoEmptyToken(logins: seq<LoginEvent>)
    requires Chain(logins)
    ensures "" !in IssuedBy(logins)
  {
    if logins != [] { NoEmptyToken(logins[..|logins| - 1]); }
  }

  /** A caller at either check is handed the cached token, without a login, exactly if it does not
      reject that token and four fifths of the lifetime of the last lease have not passed. That is
      the token's own lease, unless its refresh time is still to be stored; then it is judged by
      its predecessor's. */
  lemma HandedOutIffFresh(s: State, u: nat)
    requires Reachable(s) && (PcOf(s, u).Entering? || PcOf(s, u).Holding?)
    ensures |s.leases| <= |s.logins|
    ensures var p, n := PcOf(s, u), |s.leases|;
            var q := PcOf(Next(s, Act(u, if p.Entering? then CheckUnlocked else CheckLocked)), u);
            && (q.Returning? <==>
                  n > 0 && p.rejected != Some(s.logins[|s.logins| - 1].issued)
                  && s.clock < s.leases[n - 1].from + 4.0 * s.leases[n - 1].lifetime / 5.0)
            && (!q.Returning? ==> if p.Entering? then q.Blocked? else q.Fetching?)
    ensures s.leases != [] && !HolderPc(s).Stored? ==>
              s.leases[|s.leases| - 1].token == s.logins[|s.logins| - 1].issued
  {
    ReachableTokens(s);
    UsableIsFresh(s, PcOf(s, u).rejected);
  }

  lemma UsableIsFresh(s: State, rejected: Option<string>)
    requires ChainInv(s) && LeasesInv(s)
    ensures var n := |s.leases|;
            Usable(s.cache, rejected, s.clock) <==>
              n > 0 && rejected != Some(s.logins[|s.logins| - 1].issued)
              && s.clock < s.leases[n - 1].from + 4.0 * s.leases[n - 1].lifetime / 5.0
  {
    CurrentToken(s.logins);
  }

  lemma CurrentToken(logins: seq<LoginEvent>)
    requires Chain(logins)
    ensures LastIssued(logins) == (if logins == [] then "" else logins[|logins| - 1].issued)
    ensures logins != [] ==> LastIssued(logins) != ""
  {
  }

  predicate Replaces(logins: seq<LoginEvent>, i: int, token: string) {
    0 <= i < |logins| && logins[i].replaced == token
  }

  /** In a chain every issued token but the last was replaced once, and the last not at all. */
  lemma {:induction false} ReplacedOnce(logins: seq<LoginEvent>, token: string)
    requires Chain(logins) && token in IssuedBy(logins)
    ensures token == LastIssued(logins) ==> forall i :: !Replaces(logins, i, token)
    ensures token != LastIssued(logins) ==> exists i :: Replaces(logins, i, token)
    ensures forall i, j :: Replaces(logins, i, token) && Replaces(logins, j, token) ==> i == j
  {
    var n := |logins| - 1;
    var front := logins[..n];
    assert forall i :: 0 <= i < n ==> (Replaces(logins, i, token) <==> Replaces(front, i, token));
    if token in IssuedBy(front) {
      ReplacedOnce(front, token);
      if token == LastIssued(front) {
        assert Replaces(logins, n, token);
      } else {
        var i :| Replaces(front, i, token);
        assert Replaces(logins, i, token);
      }
    } else {
      NeverSeen(front, token);
      NoEmptyToken(logins);
    }
  }

  lemma {:induction false} NeverSeen(logins: seq<LoginEvent>, token: string)
    requires Chain(logins) && token !in IssuedBy(logins) && token != ""
    ensures forall i :: !Replaces(logins, i, token)
    ensures LastIssued(logins) != token
  {
    if logins != [] {
      var n := |logins| - 1;
      NeverSeen(logins[..n], token);
      assert forall i :: 0 <= i < n ==> (Replaces(logins, i, token) <==> Replaces(logins[..n], i, token));
    }
  }

  /** However many users reject a token, once one of them has its answer exactly one login has
      replaced that token. */
  lemma OneReplacementPerRejectedToken(s: State, i: nat)
    requires Reachable(s) && i < |s.answers| && s.answers[i].rejected.Some?
    ensures var token := s.answers[i].rejected.value;
            && (exists j :: Replaces(s.logins, j, token))
            && (forall j, k :: Replaces(s.logins, j, token) && Replaces(s.logins, k, token) ==> j == k)
  {
    ReachableInv(s);
    ReplacedOnce(s.logins, s.answers[i].rejected.value);
  }

  lemma {:induction false} LoginsAreOk(logins: seq<LoginEvent>, i: nat)
    requires Chain(logins) && i < |logins|
    ensures LoginOk(logins[i]) && Chain(logins[..i]) && logins[i].replaced == LastIssued(logins[..i])
    ensures logins[i].issued in IssuedBy(logins) && IssuedBy(logins[..i]) <= IssuedBy(logins)
    ensures logins[i].rejected.Some? ==> logins[i].rejected.value in IssuedBy(logins[..i])
    ensures logins[|logins| - 1].issued !in IssuedBy(logins[..i])
  {
    var n := |logins| - 1;
    if i < n {
      LoginsAreOk(logins[..n], i);
      assert logins[..n][..i] == logins[..i];
    }
  }

  predicate Relogs(logins: seq<LoginEvent>, i: int, token: string) {
    0 <= i < |logins| && logins[i].kind.Relogin? && logins[i].rejected == Some(token)
  }

  /** However many users reject a token, once one of them has its answer there has been exactly
      one re-login for it, as long as the logins that replaced it or answered for it did not find
      a token that was due anyway. */
  lemma OneReloginPerRejectedToken(s: State, i: nat)
    requires Reachable(s) && i < |s.answers| && s.answers[i].rejected.Some?
    requires var token := s.answers[i].rejected.value;
      forall j :: Replaces(s.logins, j, token) || Relogs(s.logins, j, token) ==> !Due(s.logins[j])
    ensures var token := s.answers[i].rejected.value;
            && (exists j :: Relogs(s.logins, j, token))
            && (forall j, k :: Relogs(s.logins, j, token) && Relogs(s.logins, k, token) ==> j == k)
  {
    var token := s.answers[i].rejected.value;
    ReachableInv(s);
    NoEmptyToken(s.logins);
    OneReplacementPerRejectedToken(s, i);
    var j :| Replaces(s.logins, j, token);
    LoginsAreOk(s.logins, j);
    assert Relogs(s.logins, j, token);
    forall a, b | Relogs(s.logins, a, token) && Relogs(s.logins, b, token) && a < b ensures false {
      SecondReloginOnlyWhenDue(s, a, b);
    }
  }

  /** Two logins on behalf of the same rejected token: at least one of them had to happen
      anyway, because the cached token was due for renewal. */
  lemma SecondReloginOnlyWhenDue(s: State, i: nat, j: nat)
    requires Reachable(s) && i < j < |s.logins|
    requires s.logins[i].rejected.Some? && s.logins[i].rejected == s.logins[j].rejected
    ensures Due(s.logins[i]) || Due(s.logins[j])
  {
    ReachableInv(s);
    LoginsAreOk(s.logins, i);
    LoginsAreOk(s.logins, j);
    ReplacedTokensDiffer(s.logins, i, j);
  }

  /** And exactly then: a user who brings a rejected token that a login has answered for already
      logs in once more if and only if, at the second check, the cached token is due. */
  lemma ReloginAgainIffDue(s: State, u: nat, i: nat)
    requires Reachable(s) && PcOf(s, u).Holding? && PcOf(s, u).rejected.Some?
    requires i < |s.logins| && s.logins[i].rejected == PcOf(s, u).rejected
    ensures var t := Next(s, Act(u, CheckLocked));
            if s.clock >= s.cache.refreshAt then PcOf(t, u) == Fetching(PcOf(s, u).rejected, Relogin)
            else PcOf(t, u) == Returning(PcOf(s, u).rejected, true)
  {
    ReachableTokens(s);
    AnsweredIsGone(s.logins, i);
  }

  /** A token that some login answered for is not the current one. */
  lemma AnsweredIsGone(logins: seq<LoginEvent>, i: nat)
    requires Chain(logins) && i < |logins| && logins[i].rejected.Some?
    ensures LastIssued(logins) != "" && Some(LastIssued(logins)) != logins[i].rejected
  {
    LoginsAreOk(logins, i);
    CurrentToken(logins);
  }

  lemma ReplacedTokensDiffer(logins: seq<LoginEvent>, i: nat, j: nat)
    requires Chain(logins) && i < j < |logins|
    ensures logins[i].replaced != logins[j].replaced
  {
    var token := logins[j].replaced;
    LoginsAreOk(logins, j);
    assert token == LastIssued(logins[..j]) && token in IssuedBy(logins[..j]);
    ReplacedOnce(logins, token);
    assert Replaces(logins, j, token);
    assert Replaces(logins, i, token) ==> i == j;
  }

  /** The counters add up to the logins that succeeded, less one still to be counted, and at
      most one login was the first. */
  lemma CountersAddUp(s: State)
    requires Reachable(s)
    ensures var c := s.cache.counts;
            c.login + c.refresh + c.relogin ==
                |s.logins| - (if HolderPc(s).Stored? || HolderPc(s).Refreshed? then 1 else 0)
    ensures s.cache.counts.login <= 1
    ensures forall i :: 0 <= i < |s.logins| && s.logins[i].kind.Login? ==> i == 0
  {
    ReachableInv(s);
    TallySum(s.logins);
    forall i | 0 <= i < |s.logins| && s.logins[i].kind.Login? ensures i == 0 {
      FirstLoginOnly(s.logins, i);
    }
  }

  lemma LastIsIssued(logins: seq<LoginEvent>)
    ensures logins != [] ==> LastIssued(logins) in IssuedBy(logins)
  {
  }

  lemma FirstLoginOnly(logins: seq<LoginEvent>, i: nat)
    requires Chain(logins) && i < |logins| && logins[i].kind.Login?
    ensures i == 0
  {
    LoginsAreOk(logins, i);
    NoEmptyToken(logins);
    LastIsIssued(logins[..i]);
  }

  lemma {:induction false} TallySum(logins: seq<LoginEvent>)
    requires Chain(logins)
    ensures var c := Tally(logins); c.login + c.refresh + c.relogin == |logins| && c.login <= 1
    ensures |logins| > 0 ==> Tally(logins).login <= 1
  {
    if logins != [] {
      var n := |logins| - 1;
      TallySum(logins[..n]);
      if logins[n].kind.Login? { FirstLoginOnly(logins, n); }
    }
  }

  /** The token changes only in the hands of the lock's holder, by a login that succeeded; a
      login that fails leaves the cache as it was and frees the lock. */
  lemma FailedLoginChangesNothing(s: State, u: nat, action: Action)
    requires Reachable(s) && Enabled(s, Act(u, action))
    ensures var t := Next(s, Act(u, action));
            && (t.cache != s.cache ==> s.lock == Some(u) && (action.FetchOk? || action.SetRefresh? || action.Count?))
            && (t.cache.token != s.cache.token ==> action.FetchOk? && t.logins == s.logins + [t.logins[|t.logins| - 1]])
            && (action.FetchFails? ==> t.cache == s.cache && t.lock.None? && PcOf(t, u).Idle?)
  {
    ReachableInv(s);
    assert Critical(PcOf(s, u)) <==> s.lock == Some(u);
  }

  /** No deadlock: whoever holds the lock can go on, and without a holder every caller can. */
  lemma SomeoneCanStep(s: State, u: nat) returns (v: nat, action: Action)
    requires Reachable(s) && !PcOf(s, u).Idle?
    ensures Enabled(s, Act(v, action)) && !action.Call? && (v == u || s.lock == Some(v))
  {
    ReachableInv(s);
    v := if PcOf(s, u).Blocked? && s.lock.Some? then s.lock.value else u;
    assert Critical(PcOf(s, v)) <==> s.lock == Some(v);
    action := match PcOf(s, v)
      case Entering(_) => CheckUnlocked
      case Blocked(_) => Acquire
      case Holding(_) => CheckLocked
      case Fetching(_, _) => FetchFails
      case Stored(_, _, _) => SetRefresh
      case Refreshed(_, _) => Count
      case _ => Return;
  }

  // ---- One caller alone: the class, and the same steps without interference ----

  datatype Fetch = Fetched(token: string, lifetime: real) | LoginError

  /** What `get` does when nobody else is about: `now` is when it is called, `after` when its
      login, if it needs one, has come back. */
  function GetAlone(c: Cache, rejected: Option<string>, now: real, after: real, fetch: Fetch): (Cache, Option<string>) {
    if Usable(c, rejected, now) then (c, Some(c.token))
    else
      match fetch
      case LoginError => (c, None)
      case Fetched(token, lifetime) =>
        (Cache(token, RefreshTime(after, lifetime), Bump(c.counts, KindOf(c, rejected))), Some(token))
  }

  /** What a token fetched with some lifetime is good for: until four fifths of it have passed, it
      is what every caller who does not reject it gets, and nobody logs in; everyone else does. */
  lemma TokenServesItsLifetime(c: Cache, r: Option<string>, now: real, after: real, token: string, lifetime: real,
                               r2: Option<string>, now2: real, after2: real, fetch2: Fetch)
    requires token != "" && GetAlone(c, r, now, after, Fetched(token, lifetime)).0.counts != c.counts
    ensures var (first, answer) := GetAlone(c, r, now, after, Fetched(token, lifetime));
            var (second, answer2) := GetAlone(first, r2, now2, after2, fetch2);
            && answer == Some(token)
            && if r2 != Some(token) && now2 < after + 4.0 * lifetime / 5.0 then
                 answer2 == Some(token) && second == first
               else if fetch2.LoginError? then answer2.None? && second == first
               else
                 && answer2 == Some(fetch2.token) && second.token == fetch2.token
                 && second.counts == (if r2.Some? then first.counts.(relogin := first.counts.relogin + 1)
                                      else first.counts.(refresh := first.counts.refresh + 1))
  {
  }

  /** With no token there is nothing to hand out: the first caller logs in. */
  lemma FirstGetLogsIn(now: real, after: real, token: string, lifetime: real)
    ensures GetAlone(EMPTY, None, now, after, LoginError) == (EMPTY, None)
    ensures var (first, answer) := GetAlone(EMPTY, None, now, after, Fetched(token, lifetime));
            answer == Some(token) && first.counts == Counts(1, 0, 0)
  {
  }

  class TokenCache {
    var token: string
    var refreshAt: real
    var counts: Counts

    function Fields(): Cache
      reads this
    {
      Cache(token, refreshAt, counts)
    }

    constructor ()
      ensures Fields() == EMPTY
    {
      token, refreshAt, counts := "", 0.0, Counts(0, 0, 0);
    }

    method IsUsable(rejected: Option<string>, now: real) returns (usable: bool)
      ensures usable <==> Usable(Fields(), rejected, now)
    {
      usable := token != "" && Some(token) != rejected && now < refreshAt;
    }

    /** `now`, `locked` and `after` are the clock at the two checks and after the login. */
    method Get(rejected: Option<string>, now: real, locked: real, after: real, fetch: Fetch)
      returns (answer: Option<string>)
      requires now <= locked <= after
      modifies this
      ensures (Fields(), answer) == GetAlone(old(Fields()), rejected, now, after, fetch)
      ensures answer.None? ==> Fields() == old(Fields())
    {
      var usable := IsUsable(rejected, now);
      if usable { return Some(token); }
      usable := IsUsable(rejected, locked);
      if usable { return Some(token); }
      var kind := if rejected.Some? then Relogin else if token != "" then Refresh else Login;
      match fetch {
        case LoginError => return None;
        case Fetched(fetched, lifetime) =>
          token := fetched;
          refreshAt := RefreshTime(after, lifetime);
          counts := Bump(counts, kind);
          return Some(token);
      }
    }
  }

  /** `t` follows from `s` by steps of user `u` and of the clock. */
  ghost predicate LeadsAlone(s: State, t: State, u: nat) {
    && (exists steps :: Run(s, steps) == Some(t) && Alone(steps, u))
    && forall v: nat :: v != u ==> PcOf(t, v) == PcOf(s, v)
  }

  predicate Alone(steps: seq<Step>, u: nat) {
    forall i :: 0 <= i < |steps| ==> steps[i].Tick? || steps[i].user == u
  }

  lemma {:induction false} RunExtends(s: State, steps: seq<Step>, st: Step)
    requires Run(s, steps).Some? && Enabled(Run(s, steps).value, st)
    ensures Run(s, steps + [st]) == Some(Next(Run(s, steps).value, st))
    decreases steps
  {
    if steps == [] {
      assert [st][1..] == [];
    } else {
      assert (steps + [st])[1..] == steps[1..] + [st];
      RunExtends(Next(s, steps[0]), steps[1..], st);
    }
  }

  lemma StepAlone(s: State, t: State, u: nat, st: Step)
    requires LeadsAlone(s, t, u) && Enabled(t, st) && (st.Tick? || st.user == u)
    ensures LeadsAlone(s, Next(t, st), u)
  {
    var steps :| Run(s, steps) == Some(t) && Alone(steps, u);
    RunExtends(s, steps, st);
    assert Alone(steps + [st], u);
  }

  /** The protocol run by one user without interference computes what the class does. */
  lemma SoloGet(s: State, u: nat, rejected: Option<string>, after: real, fetch: Fetch) returns (t: State)
    requires s.lock.None? && PcOf(s, u).Idle? && s.clock <= after
    requires rejected.Some? ==> rejected.value in s.issued
    requires fetch.Fetched? ==> fetch.token != "" && fetch.token !in s.issued
    ensures LeadsAlone(s, t, u) && t.lock.None? && PcOf(t, u).Idle?
    ensures var (cache, answer) := GetAlone(s.cache, rejected, s.clock, after, fetch);
            && t.cache == cache
            && t.answers == (if answer.Some? then s.answers + [Answer(rejected, answer.value)] else s.answers)
    ensures !Usable(s.cache, rejected, s.clock) && fetch.Fetched? ==>
            t.clock == after && t.issued == s.issued + {fetch.token}
  {
    assert Run(s, []) == Some(s) && Alone([], u);
    t := s;
    StepAlone(s, t, u, Act(u, Call(rejected))); t := Next(t, Act(u, Call(rejected)));
    StepAlone(s, t, u, Act(u, CheckUnlocked)); t := Next(t, Act(u, CheckUnlocked));
    if !Usable(s.cache, rejected, s.clock) {
      StepAlone(s, t, u, Act(u, Acquire)); t := Next(t, Act(u, Acquire));
      StepAlone(s, t, u, Act(u, CheckLocked)); t := Next(t, Act(u, CheckLocked));
      assert PcOf(t, u) == Fetching(rejected, KindOf(s.cache, rejected));
      t := SoloLogin(s, t, u, after, fetch);
      if fetch.LoginError? { return; }
    }
    StepAlone(s, t, u, Act(u, Return)); t := Next(t, Act(u, Return));
  }

  lemma SoloLogin(s: State, from: State, u: nat, after: real, fetch: Fetch) returns (t: State)
    requires LeadsAlone(s, from, u) && PcOf(from, u).Fetching? && from.clock <= after
    requires fetch.Fetched? ==> fetch.token != "" && fetch.token !in from.issued
    ensures LeadsAlone(s, t, u) && t.answers == from.answers
    ensures fetch.LoginError? ==> t.cache == from.cache && t.lock.None? && PcOf(t, u).Idle?
    ensures fetch.Fetched? ==>
              && t.cache == Cache(fetch.token, RefreshTime(after, fetch.lifetime),
                   Bump(from.cache.counts, PcOf(from, u).kind))
              && PcOf(t, u) == Returning(PcOf(from, u).rejected, true) && t.lock == from.lock
              && t.clock == after && t.issued == from.issued + {fetch.token}
  {
    t := from;
    if fetch.LoginError? {
      StepAlone(s, t, u, Act(u, FetchFails)); t := Next(t, Act(u, FetchFails));
    } else {
      var login := Act(u, FetchOk(fetch.token, fetch.lifetime));
      StepAlone(s, t, u, login); t := Next(t, login);
      StepAlone(s, t, u, Tick(after - from.clock)); t := Next(t, Tick(after - from.clock));
      StepAlone(s, t, u, Act(u, SetRefresh)); t := Next(t, Act(u, SetRefresh));
      StepAlone(s, t, u, Act(u, Count)); t := Next(t, Act(u, Count));
    }
  }

  lemma {:induction false} RunThen(s: State, first: seq<Step>, second: seq<Step>)
    requires Run(s, first).Some?
    ensures Run(s, first + second) == Run(Run(s, first).value, second)
    decreases first
  {
    if first == [] {
      assert first + second == second;
    } else {
      assert (first + second)[1..] == first[1..] + second;
      RunThen(Next(s, first[0]), first[1..], second);
    }
  }

  lemma ReachesAlone(s: State, t: State, u: nat)
    requires Reachable(s) && LeadsAlone(s, t, u)
    ensures Reachable(t)
  {
    var first :| Run(INIT, first) == Some(s);
    var second :| Run(s, second) == Some(t) && Alone(second, u);
    RunThen(INIT, first, second);
  }

  /** The same token is rejected twice and a login follows each time: the token that replaced it was due for
      renewal at once. */
  lemma DueTokenIsReplacedTwice() returns (s: State)
    ensures Reachable(s) && s.cache.counts == Counts(1, 0, 2)
    ensures s.answers == [Answer(None, "a"), Answer(Some("a"), "b"), Answer(Some("a"), "c")]
  {
    assert Run(INIT, []) == Some(INIT);
    var first := SoloGet(INIT, 0, None, 0.0, Fetched("a", 0.0));
    ReachesAlone(INIT, first, 0);
    var second := SoloGet(first, 0, Some("a"), 0.0, Fetched("b", 0.0));
    s := SoloGet(second, 0, Some("a"), 0.0, Fetched("c", 0.0));
    ReachesAlone(first, second, 0);
    ReachesAlone(second, s, 0);
  }

  /** Between the store of a token and that of its refresh time another caller can be handed it on
      its predecessor's time, though it has no lifetime left of its own. */
  lemma FreshTokenOnOldTime() returns (s: State)
    ensures Reachable(s) && PcOf(s, 1).Returning? && HolderPc(s).Stored?
    ensures s.cache.token == "b" && HolderPc(s).lifetime == 0.0
  {
    s := TokenWithoutTime();
    OneStep(s, Act(1, Call(None))); s := Next(s, Act(1, Call(None)));
    OneStep(s, Act(1, CheckUnlocked)); s := Next(s, Act(1, CheckUnlocked));
  }

  lemma TokenWithoutTime() returns (s: State)
    ensures Reachable(s) && PcOf(s, 1).Idle? && HolderPc(s).Stored? && HolderPc(s).lifetime == 0.0
    ensures s.cache.token == "b" && s.clock < s.cache.refreshAt
  {
    assert Run(INIT, []) == Some(INIT);
    s := SoloGet(INIT, 0, None, 0.0, Fetched("a", 100.0));
    ReachesAlone(INIT, s, 0);
    assert PcOf(s, 1) == PcOf(INIT, 1);
    OneStep(s, Act(0, Call(Some("a")))); s := Next(s, Act(0, Call(Some("a"))));
    OneStep(s, Act(0, CheckUnlocked)); s := Next(s, Act(0, CheckUnlocked));
    OneStep(s, Act(0, Acquire)); s := Next(s, Act(0, Acquire));
    OneStep(s, Act(0, CheckLocked)); s := Next(s, Act(0, CheckLocked));
    OneStep(s, Act(0, FetchOk("b", 0.0))); s := Next(s, Act(0, FetchOk("b", 0.0)));
  }

  lemma OneStep(s: State, st: Step)
    requires Reachable(s) && Enabled(s, st)
    ensures Reachable(Next(s, st))
  {
    var steps :| Run(INIT, steps) == Some(s);
    RunExtends(INIT, steps, st);
  }
}
