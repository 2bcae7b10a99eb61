/** The two stats caches: a dict of expiring entries, and a Redis key space that replicas of any
    version share, whose invalidation scans for keys and unlinks them in batches. */
module StatsCaches {
  import opened Options
  import opened CacheHistory
  import opened Batches
  import opened Glob

  function At<K, V>(m: map<K, V>, k: K): Option<V> {
    if k in m then Some(m[k]) else None
  }

  // ---- The in-process cache ----

  class InMemoryStatsCache {
    const ttl: Ttl
    const version: string
    var entries: map<string, map<string, Cell>>
    ghost var history: seq<Op>

    ghost predicate Valid()
      reads this
    {
      forall r: string, k: string :: CellOf(r, k) == Latest(history, version, r, k)
    }

    function CellOf(resource: string, key: string): Option<Cell>
      reads this
    {
      if resource in entries then At(entries[resource], version + ":" + key) else None
    }

    constructor (ttl: Ttl, version: string)
      ensures Valid() && history == [] && this.ttl == ttl && this.version == version
    {
      this.ttl, this.version := ttl, version;
      entries, history := map[], [];
    }

    method Get(resource: string, key: string, now: int) returns (answer: Option<Bytes>)
      requires Valid()
      ensures answer == Answer(history, version, resource, key, now)
    {
      var entry := if resource in entries then At(entries[resource], version + ":" + key) else None;
      assert entry == CellOf(resource, key);
      if entry.None? || entry.value.expires <= now { return None; }
      return Some(entry.value.body);
    }

    method Set(resource: string, key: string, body: Bytes, now: int)
      requires Valid()
      modifies this
      ensures Valid() && history == old(history) + [Put(version, resource, key, body, now, ttl)]
    {
      var inner := if resource in entries then entries[resource] else map[];
      entries := entries[resource := inner[version + ":" + key := Cell(now + ttl, body)]];
      history := history + [Put(version, resource, key, body, now, ttl)];
      forall r: string, k: string
        ensures CellOf(r, k) == Latest(history, version, r, k)
      {
        assert old(CellOf(r, k)) == Latest(old(history), version, r, k);
        assert (version + ":" + k)[|version| + 1..] == k;
        assert (version + ":" + key)[|version| + 1..] == key;
        assert history[..|history| - 1] == old(history);
      }
    }

    method Invalidate(resource: string)
      requires Valid()
      modifies this
      ensures Valid() && history == old(history) + [Drop(resource)]
    {
      entries := entries - {resource};
      history := history + [Drop(resource)];
      forall r: string, k: string
        ensures CellOf(r, k) == Latest(history, version, r, k)
      {
        assert old(CellOf(r, k)) == Latest(old(history), version, r, k);
        assert history[..|history| - 1] == old(history);
      }
    }
  }

  // ---- Redis ----

  /** The part of the server that caches share: its keys, its clock, and what all of them have
      stored and invalidated so far. */
  datatype Space = Space(data: map<string, Cell>, clock: int, history: seq<Op>) {
    function Held(version: string, resource: string, key: string): Option<Cell> {
      At(data, RedisKey(version, resource, key))
    }

    function Due(version: string, resource: string, key: string): Option<Cell> {
      Live(Latest(history, version, resource, key), clock)
    }

    /** Every colon-free lookup, of any version, finds exactly what the history says. */
    ghost predicate Exact() {
      forall v, r, k | Plain(v, r, k) :: Held(v, r, k) == Due(v, r, k)
    }

    /** The weaker bond that survives Redis outages: entries may be missing, never wrong. */
    ghost predicate Faithful() {
      forall v, r, k | Plain(v, r, k) && Held(v, r, k).Some? :: Held(v, r, k) == Due(v, r, k)
    }

    ghost predicate ExactAt(version: string, resource: string, key: string) {
      Held(version, resource, key) == Due(version, resource, key)
    }

    /** Every colon-free lookup of any other resource finds exactly what the history says. */
    ghost predicate ExactOutside(resource: string) {
      forall v, r, k | Plain(v, r, k) && r != resource :: ExactAt(v, r, k)
    }

    function Passed(now: int): Space {
      this.(data := map k | k in data && now < data[k].expires :: data[k], clock := now)
    }

    function Stored(version: string, resource: string, key: string, body: Bytes, ttl: Ttl): Space {
      this.(data := data[RedisKey(version, resource, key) := Cell(clock + ttl, body)],
            history := history + [Put(version, resource, key, body, clock, ttl)])
    }

    function Cleared(resource: string): Space {
      this.(data := map k | k in data && !Matches(Pattern(resource), k) :: data[k],
            history := history + [Drop(resource)])
    }
  }

  predicate Plain(version: string, resource: string, key: string) {
    ColonFree(version) && ColonFree(resource) && ColonFree(key)
  }

  /** Time passing keeps both bonds: an expired entry is one the history no longer answers with. */
  lemma PassingKeepsBonds(s: Space, now: int)
    requires s.clock <= now
    ensures s.Faithful() ==> s.Passed(now).Faithful()
    ensures s.Exact() ==> s.Passed(now).Exact()
  {
    forall v, r, k | Plain(v, r, k)
      ensures s.Passed(now).Held(v, r, k) == Live(s.Held(v, r, k), now)
      ensures s.Passed(now).Due(v, r, k) == Live(s.Due(v, r, k), now)
    {
    }
  }

  /** So does a store, of any version and whatever characters its key holds. */
  lemma StoringKeepsBonds(s: Space, version: string, resource: string, key: string, body: Bytes, ttl: Ttl)
    ensures var t := s.Stored(version, resource, key, body, ttl);
            (s.Faithful() ==> t.Faithful()) && (s.Exact() ==> t.Exact())
  {
    var t := s.Stored(version, resource, key, body, ttl);
    assert t.history[..|t.history| - 1] == s.history;
    forall v, r, k | Plain(v, r, k)
      ensures (v, r, k) == (version, resource, key) ==> t.Held(v, r, k) == t.Due(v, r, k)
      ensures (v, r, k) != (version, resource, key) ==>
              t.Held(v, r, k) == s.Held(v, r, k) && t.Due(v, r, k) == s.Due(v, r, k)
    {
      KeyIsInjective(v, r, k, version, resource, key);
    }
  }

  /** And so does an invalidation that nothing else comes between. */
  lemma ClearingKeepsBonds(s: Space, resource: string)
    ensures (s.Faithful() ==> s.Cleared(resource).Faithful()) && (s.Exact() ==> s.Cleared(resource).Exact())
  {
    var t := s.Cleared(resource);
    forall v, r, k | Plain(v, r, k)
      ensures r == resource ==> t.Held(v, r, k).None? && t.Due(v, r, k).None?
      ensures r != resource ==> t.Held(v, r, k) == s.Held(v, r, k) && t.Due(v, r, k) == s.Due(v, r, k)
    {
      PatternHitsOwnKeysOnly(resource, v, r, k);
      LatestNext(s.history, Drop(resource), v, r, k);
    }
  }

  /** The slice of Redis the caches use. Assumed of the real server: a key set with `ex` is
      readable until its expiry and gone from then on, and the server's clock never runs back. */
  class Redis {
    var data: map<string, Cell>
    var clock: int
    ghost var history: seq<Op>

    ghost function View(): Space
      reads this
    {
      Space(data, clock, history)
    }

    constructor (now: int)
      ensures View() == Space(map[], now, []) && View().Exact()
    {
      data, clock, history := map[], now, [];
    }

    method Advance(now: int)
      requires clock <= now
      modifies this
      ensures View() == old(View()).Passed(now)
      ensures (old(View()).Faithful() ==> View().Faithful()) && (old(View()).Exact() ==> View().Exact())
    {
      PassingKeepsBonds(View(), now);
      data := map k | k in data && now < data[k].expires :: data[k];
      clock := now;
    }

    method SetEx(version: string, resource: string, key: string, body: Bytes, ttl: Ttl)
      modifies this
      ensures View() == old(View()).Stored(version, resource, key, body, ttl)
    {
      data := data[RedisKey(version, resource, key) := Cell(clock + ttl, body)];
      history := history + [Put(version, resource, key, body, clock, ttl)];
    }

    method Unlink(keys: seq<string>)
      modifies this`data
      ensures data == old(data) - (set k | k in keys)
    {
      data := data - (set k | k in keys);
    }

    /** Something that is not this cache's doing. */
    method Happens(e: ScanEvent)
      modifies this
      ensures View() == AfterEvent(old(View()), e)
    {
      match e {
        case Yield(_) =>
        case RemoteSet(v, r, k, body, ttl) => SetEx(v, r, k, body, ttl);
        case RemoteLoss(k) => data := data - {k};
        case RemoteDrop(r) =>
          data := map k | k in data && !Matches(Pattern(r), k) :: data[k];
          history := history + [Drop(r)];
        case Pass(time) => Advance(clock + time);
      }
    }
  }

  /** What happens while `scan_iter` runs: it yields keys, and between its pages other replicas
      store entries or invalidate, keys go (evicted, or unlinked by an invalidation that is not
      through yet), and time passes. */
  datatype ScanEvent =
    | Yield(key: string)
    | RemoteSet(version: string, resource: string, name: string, body: Bytes, ttl: Ttl)
    | RemoteLoss(key: string)
    | RemoteDrop(resource: string)
    | Pass(time: nat)

  function AfterEvent(s: Space, e: ScanEvent): Space {
    match e
    case Yield(_) => s
    case RemoteSet(v, r, k, body, ttl) => s.Stored(v, r, k, body, ttl)
    case RemoteLoss(k) => s.(data := s.data - {k})
    case RemoteDrop(r) => s.Cleared(r)
    case Pass(time) => s.Passed(s.clock + time)
  }

  function Yields(scan: seq<ScanEvent>): seq<string> {
    if scan == [] then []
    else Yields(scan[..|scan| - 1]) + (if scan[|scan| - 1].Yield? then [scan[|scan| - 1].key] else [])
  }

  /** The key space as everyone else alone would have left it. */
  function OthersOnly(s: Space, scan: seq<ScanEvent>): Space {
    if scan == [] then s else AfterEvent(OthersOnly(s, scan[..|scan| - 1]), scan[|scan| - 1])
  }

  predicate Sets(e: ScanEvent, key: string) {
    e.RemoteSet? && RedisKey(e.version, e.resource, e.name) == key
  }

  ghost predicate SetMeanwhile(scan: seq<ScanEvent>, key: string) {
    exists i :: 0 <= i < |scan| && Sets(scan[i], key)
  }

  /** Nobody else removed the key while the scan ran. */
  ghost predicate Throughout(s: Space, scan: seq<ScanEvent>, key: string) {
    key in OthersOnly(s, scan).data && (scan != [] ==> Throughout(s, scan[..|scan| - 1], key))
  }

  /** Assumed of SCAN: it yields only keys that match, possibly more than once. */
  ghost predicate YieldsMatch(scan: seq<ScanEvent>, pattern: string) {
    forall i :: 0 <= i < |scan| && scan[i].Yield? ==> Matches(pattern, scan[i].key)
  }

  /** Assumed of a SCAN that ran to its end: it yielded every matching key that was there from
      beginning to end. */
  ghost predicate ScanComplete(s: Space, scan: seq<ScanEvent>, pattern: string) {
    forall k :: Matches(pattern, k) && Throughout(s, scan, k) ==> k in Yields(scan)
  }

  ghost predicate Quiet(scan: seq<ScanEvent>) {
    forall i :: 0 <= i < |scan| ==> scan[i].Yield?
  }

  ghost predicate LostMeanwhile(scan: seq<ScanEvent>, key: string) {
    exists i :: 0 <= i < |scan| && scan[i] == RemoteLoss(key)
  }

  ghost predicate NothingLost(scan: seq<ScanEvent>) {
    forall i :: 0 <= i < |scan| ==> !scan[i].RemoteLoss?
  }

  class RedisStatsCache {
    const client: Redis
    const ttl: Ttl
    const version: string
    const scanCount: nat // 500 in the running system

    constructor (client: Redis, ttl: Ttl, version: string, scanCount: nat)
      requires scanCount > 0
      ensures this.client == client && this.ttl == ttl && this.version == version && this.scanCount == scanCount
    {
      this.client, this.ttl, this.version, this.scanCount := client, ttl, version, scanCount;
    }

    /** `up` is whether Redis answered; an outage is a miss. */
    method Get(resource: string, key: string, up: bool) returns (answer: Option<Bytes>)
      ensures !up ==> answer.None?
      ensures Plain(version, resource, key) && client.View().Faithful() && answer.Some? ==>
                answer == Answer(client.history, version, resource, key, client.clock)
      ensures Plain(version, resource, key) && client.View().Exact() && up ==>
                answer == Answer(client.history, version, resource, key, client.clock)
    {
      if !up { return None; }
      var cell := At(client.data, RedisKey(version, resource, key));
      assert cell == client.View().Held(version, resource, key);
      return if cell.Some? then Some(cell.value.body) else None;
    }

    /** Any resource and key may be stored, colons included; only colon-free ones are tracked. */
    method Set(resource: string, key: string, body: Bytes, up: bool)
      modifies client
      ensures client.View() ==
              if up then old(client.View()).Stored(version, resource, key, body, ttl) else old(client.View())
      ensures up ==> client.history == old(client.history) + [Put(version, resource, key, body, old(client.clock), ttl)]
      ensures old(client.View()).Faithful() ==> client.View().Faithful()
      ensures old(client.View()).Exact() ==> client.View().Exact()
    {
      if !up { return; }
      StoringKeepsBonds(client.View(), version, resource, key, body, ttl);
      client.SetEx(version, resource, key, body, ttl);
    }

    /** The `try` body of `invalidate`: scan and unlink in batches. Redis raises when asked for
        scan event number `scanFault`, or at unlink number `unlinkFault`; `applied` says whether
        the failing unlink took effect before its error came back. `seen` counts the events
        that passed before the end. */
    method ScanAndUnlink(pattern: string, scan: seq<ScanEvent>, scanFault: nat, unlinkFault: nat, applied: bool)
      returns (ok: bool, batches: seq<seq<string>>, seen: nat)
      requires scanCount > 0 && YieldsMatch(scan, pattern)
      modifies client
      ensures ok <==> |scan| < scanFault && |Chunks(Yields(scan), scanCount)| <= unlinkFault
      ensures batches <= Chunks(Yields(scan), scanCount)
      ensures ok ==> batches == Chunks(Yields(scan), scanCount) && seen == |scan|
      ensures Quiet(scan) ==> client.data == old(client.data) - KeysOf(batches)
      // what is gone was unlinked in one of these batches, and is back only if it was set meanwhile
      ensures seen <= |scan|
              && Accounted(OthersOnly(old(client.View()), scan[..seen]), scan[..seen], client.data, batches)
      ensures seen <= |scan| && Pruned(OthersOnly(old(client.View()), scan[..seen]), client.View(), pattern)
      ensures ok && ScanComplete(old(client.View()), scan, pattern) ==>
                forall k :: k in client.data && Matches(pattern, k) ==> SetMeanwhile(scan, k)
    {
      ghost var start := client.View();
      var batch: seq<string> := [];
      batches, seen := [], 0;
      while seen < |scan|
        invariant seen <= scanFault && |batches| <= unlinkFault && |batch| < scanCount && AllFull(batches, scanCount)
        invariant Midway(start, scan, seen, pattern, client.View(), batches, batch)
      {
        if seen == scanFault {
          FullBatchesOfScan(scan, seen, batches, batch, scanCount);
          return false, batches, seen;
        }
        var event := scan[seen];
        EventKeepsMidway(start, scan, seen, pattern, client.View(), batches, batch);
        client.Happens(event);
        seen := seen + 1;
        if event.Yield? {
          batch := batch + [event.key];
          if |batch| >= scanCount {
            FullBatchesOfScan(scan, seen, batches, batch, scanCount);
            ok, batches := Flush(batch, batches, unlinkFault, applied, start, scan, seen, pattern);
            if !ok { return; }
            batch := [];
          }
        }
      }
      assert scan[..seen] == scan;
      FullBatchesLead(batches, batch, scanCount);
      ok := seen != scanFault;
      if ok && batch != [] {
        ok, batches := Flush(batch, batches, unlinkFault, applied, start, scan, seen, pattern);
      }
      if ok { NothingIsLeft(start, scan, pattern, client.data); }
    }

    /** One unlink call, the `|before|`-th. It leaves the scan where it was, with nothing open
        if the unlink took effect. */
    method Flush(batch: seq<string>, before: seq<seq<string>>, unlinkFault: nat, applied: bool,
                 ghost start: Space, ghost scan: seq<ScanEvent>, ghost seen: nat, ghost pattern: string)
      returns (ok: bool, batches: seq<seq<string>>)
      requires Midway(start, scan, seen, pattern, client.View(), before, batch) && YieldsMatch(scan, pattern)
      modifies client`data
      ensures ok <==> |before| != unlinkFault
      ensures batches == if ok || applied then before + [batch] else before
      ensures Midway(start, scan, seen, pattern, client.View(), batches, if ok || applied then [] else batch)
    {
      ok, batches := |before| != unlinkFault, before;
      if ok || applied {
        FlushKeepsMidway(start, scan, seen, pattern, client.View(), batches, batch);
        client.Unlink(batch);
        batches := before + [batch];
      }
    }

    /** Delete every entry of the resource, whatever its version. In the history an invalidation
        that went through stands where it began: before all that others did while it ran. */
    method Invalidate(resource: string, scan: seq<ScanEvent>, scanFault: nat, unlinkFault: nat, applied: bool)
      returns (ok: bool, ghost seen: nat)
      requires scanCount > 0 && YieldsMatch(scan, Pattern(resource))
      modifies client
      ensures ok <==> |scan| < scanFault && |Chunks(Yields(scan), scanCount)| <= unlinkFault
      // nothing else is touched, and whatever is left of the resource was stored meanwhile
      ensures seen <= |scan| && (ok ==> seen == |scan|)
      ensures var others := OthersOnly(old(client.View()), scan[..seen]);
              && old(client.history) <= others.history
              && Pruned(others, client.View().(history := others.history), Pattern(resource))
              && client.history ==
                 if ok then Slipped(old(client.history), Drop(resource), others.history) else others.history
      ensures ok && ScanComplete(old(client.View()), scan, Pattern(resource)) ==>
                forall k :: k in client.data && Matches(Pattern(resource), k) ==> SetMeanwhile(scan, k)
      // with a scan that kept its word nothing wrong is ever left, whoever else is writing
      ensures old(client.View()).Faithful() && (ok ==> ScanComplete(old(client.View()), scan, Pattern(resource))) ==>
                client.View().Faithful()
      // and nothing is missing but, perhaps, what was stored for the resource meanwhile, and what
      // was lost meanwhile of other resources; what had been lost of this one no longer matters
      ensures ok && old(client.View()).ExactOutside(resource)
              && ScanComplete(old(client.View()), scan, Pattern(resource)) ==>
                ExactBut(client.View(), resource, scan) && (Undisturbed(scan, resource) ==> client.View().Exact())
    {
      ghost var start := client.View();
      var batches, upTo;
      ok, batches, upTo := ScanAndUnlink(Pattern(resource), scan, scanFault, unlinkFault, applied);
      seen := upTo;
      OthersKeepBonds(start, scan[..seen]);
      OthersOnlyAdd(start, scan[..seen]);
      assert scan[..|scan|] == scan;
      ghost var before := client.View();
      if ok {
        if ScanComplete(start, scan, Pattern(resource)) { InvalidationKeepsBonds(start, scan, resource, before); }
        client.history := Slipped(start.history, Drop(resource), client.history);
        if ExactBut(client.View(), resource, scan) && Undisturbed(scan, resource) {
          UndisturbedLeavesNoGap(client.View(), scan, resource);
        }
      } else if start.Faithful() {
        PruningKeepsFaith(OthersOnly(start, scan[..seen]), before, Pattern(resource));
      }
    }
  }

  /** `op` put in where `h` ends and the rest of `more` begins. */
  function Slipped(h: seq<Op>, op: Op, more: seq<Op>): seq<Op>
    requires h <= more
  {
    h + [op] + more[|h|..]
  }

  /** What the history says is there, but for stores of the resource made during the scan, which
      the scan may have come upon, and for keys of other resources that were lost during it. */
  ghost predicate ExactBut(s: Space, resource: string, scan: seq<ScanEvent>) {
    forall v, r, k | Plain(v, r, k) && !s.ExactAt(v, r, k) ::
      if r == resource then SetMeanwhile(scan, RedisKey(v, r, k)) else LostMeanwhile(scan, RedisKey(v, r, k))
  }

  /** Nothing happened that could leave a gap: no store of the resource, and no loss but of keys
      of the resource, as other replicas' invalidations of it cause. */
  ghost predicate Undisturbed(scan: seq<ScanEvent>, resource: string) {
    forall i :: 0 <= i < |scan| ==>
      && (scan[i].RemoteSet? ==> scan[i].resource != resource)
      && (scan[i].RemoteLoss? ==> Matches(Pattern(resource), scan[i].key))
  }

  lemma UndisturbedLeavesNoGap(s: Space, scan: seq<ScanEvent>, resource: string)
    requires ExactBut(s, resource, scan) && Undisturbed(scan, resource)
    ensures s.Exact()
  {
    forall v, r, k | Plain(v, r, k) ensures s.ExactAt(v, r, k) {
      if !s.ExactAt(v, r, k) {
        PatternHitsOwnKeysOnly(resource, v, r, k);
        if r == resource {
          var i :| 0 <= i < |scan| && Sets(scan[i], RedisKey(v, r, k));
          KeyIsInjective(v, r, k, scan[i].version, scan[i].resource, scan[i].name);
        }
      }
    }
  }

  /** After the same operations the two caches give the same answers to colon-free lookups,
      whatever other versions have done to the shared server. */
  lemma CachesAgree(mem: InMemoryStatsCache, red: RedisStatsCache, r: string, k: string)
    requires mem.Valid() && red.client.View().Exact() && mem.version == red.version
    requires mem.history == SeenBy(red.client.history, red.version)
    requires Plain(red.version, r, k)
    ensures red.client.View().Held(red.version, r, k) == Live(mem.CellOf(r, k), red.client.clock)
  {
    assert mem.CellOf(r, k) == Latest(mem.history, mem.version, r, k);
    OtherVersionsDoNotShow(red.client.history, red.version, r, k);
  }

  // ---- Everyone else ----

  lemma {:induction false} OthersKeepBonds(s: Space, scan: seq<ScanEvent>)
    ensures s.Faithful() ==> OthersOnly(s, scan).Faithful()
    ensures s.Exact() && NothingLost(scan) ==> OthersOnly(s, scan).Exact()
  {
    if scan != [] {
      var n := |scan| - 1;
      OthersKeepBonds(s, scan[..n]);
      EventKeepsBonds(OthersOnly(s, scan[..n]), scan[n]);
      assert NothingLost(scan) ==> NothingLost(scan[..n]) && !scan[n].RemoteLoss?;
    }
  }

  /** An entry that is as the history says stays so, unless it is lost. */
  lemma {:induction false} OthersKeepEntry(s: Space, scan: seq<ScanEvent>, v: string, r: string, k: string)
    requires Plain(v, r, k) && s.ExactAt(v, r, k) && !LostMeanwhile(scan, RedisKey(v, r, k))
    ensures OthersOnly(s, scan).ExactAt(v, r, k)
  {
    if scan != [] {
      var n := |scan| - 1;
      assert forall i :: 0 <= i < n ==> scan[..n][i] == scan[i];
      OthersKeepEntry(s, scan[..n], v, r, k);
      EventKeepsEntry(OthersOnly(s, scan[..n]), scan[n], v, r, k);
    }
  }

  lemma EventKeepsEntry(s: Space, e: ScanEvent, v: string, r: string, k: string)
    requires Plain(v, r, k) && s.ExactAt(v, r, k) && e != RemoteLoss(RedisKey(v, r, k))
    ensures AfterEvent(s, e).ExactAt(v, r, k)
  {
    match e
    case RemoteSet(v2, r2, k2, body, ttl) =>
      KeyIsInjective(v, r, k, v2, r2, k2);
      LatestNext(s.history, Put(v2, r2, k2, body, s.clock, ttl), v, r, k);
    case RemoteDrop(resource) =>
      PatternHitsOwnKeysOnly(resource, v, r, k);
      LatestNext(s.history, Drop(resource), v, r, k);
    case _ =>
  }

  lemma EventKeepsBonds(s: Space, e: ScanEvent)
    ensures s.Faithful() ==> AfterEvent(s, e).Faithful()
    ensures s.Exact() && !e.RemoteLoss? ==> AfterEvent(s, e).Exact()
  {
    match e
    case Yield(_) =>
    case RemoteSet(v, r, k, body, ttl) => StoringKeepsBonds(s, v, r, k, body, ttl);
    case RemoteLoss(key) =>
      if s.Faithful() {
        var t := AfterEvent(s, e);
        forall v, r, k | Plain(v, r, k) && t.Held(v, r, k).Some? ensures t.Held(v, r, k) == t.Due(v, r, k) {
          assert t.Held(v, r, k) == s.Held(v, r, k) && t.Due(v, r, k) == s.Due(v, r, k);
        }
      }
    case RemoteDrop(resource) => ClearingKeepsBonds(s, resource);
    case Pass(time) => PassingKeepsBonds(s, s.clock + time);
  }

  /** What others add to the history touches every entry stored during the scan, and leaves no
      other standing. */
  lemma {:induction false} OthersOnlyAdd(s: Space, scan: seq<ScanEvent>)
    ensures var h := OthersOnly(s, scan).history;
            && s.history <= h
            && forall v, r, k | Plain(v, r, k) :: Shows(h[|s.history|..], scan, v, r, k)
  {
    if scan != [] {
      var n := |scan| - 1;
      var front, e := OthersOnly(s, scan[..n]), scan[n];
      OthersOnlyAdd(s, scan[..n]);
      var p, q := front.history[|s.history|..], OthersOnly(s, scan).history[|s.history|..];
      assert q == p + Added(e, front.clock);
      forall v, r, k | Plain(v, r, k) ensures Shows(q, scan, v, r, k) {
        ShowsNext(p, scan, front.clock, v, r, k);
      }
    }
  }

  /** What an event adds to the history. */
  function Added(e: ScanEvent, clock: int): seq<Op> {
    match e
    case RemoteSet(v, r, k, body, ttl) => [Put(v, r, k, body, clock, ttl)]
    case RemoteDrop(r) => [Drop(r)]
    case _ => []
  }

  ghost predicate Shows(p: seq<Op>, scan: seq<ScanEvent>, v: string, r: string, k: string) {
    if SetMeanwhile(scan, RedisKey(v, r, k)) then Touched(p, v, r, k) else Latest(p, v, r, k).None?
  }

  lemma ShowsNext(p: seq<Op>, scan: seq<ScanEvent>, clock: int, v: string, r: string, k: string)
    requires scan != [] && Plain(v, r, k) && Shows(p, scan[..|scan| - 1], v, r, k)
    ensures Shows(p + Added(scan[|scan| - 1], clock), scan, v, r, k)
  {
    var e := scan[|scan| - 1];
    SetMeanwhileNext(scan, RedisKey(v, r, k));
    if e.RemoteSet? { KeyIsInjective(v, r, k, e.version, e.resource, e.name); }
    if e.RemoteSet? || e.RemoteDrop? {
      TouchedNext(p, Added(e, clock)[0], v, r, k);
      LatestNext(p, Added(e, clock)[0], v, r, k);
    } else {
      assert p + Added(e, clock) == p;
    }
  }

  lemma SetMeanwhileNext(scan: seq<ScanEvent>, key: string)
    requires scan != []
    ensures SetMeanwhile(scan, key) <==> SetMeanwhile(scan[..|scan| - 1], key) || Sets(scan[|scan| - 1], key)
  {
    var front := scan[..|scan| - 1];
    assert forall i :: 0 <= i < |front| ==> front[i] == scan[i];
  }

  // ---- Pruning ----

  /** `now` is `before` without some keys, all of which match the pattern. */
  ghost predicate Pruned(before: Space, now: Space, pattern: string) {
    && now.clock == before.clock && now.history == before.history
    && (forall k :: k in now.data ==> k in before.data && now.data[k] == before.data[k])
    && (forall k :: k in before.data && k !in now.data ==> Matches(pattern, k))
  }

  lemma PruningKeepsFaith(before: Space, now: Space, pattern: string)
    requires Pruned(before, now, pattern) && before.Faithful()
    ensures now.Faithful()
  {
    forall v, r, k | Plain(v, r, k) && now.Held(v, r, k).Some? ensures now.Held(v, r, k) == now.Due(v, r, k) {
      assert now.Held(v, r, k) == before.Held(v, r, k) && now.Due(v, r, k) == before.Due(v, r, k);
    }
  }

  /** What an invalidation that went through leaves of the bonds, its own entry in the history
      slipped in where it began. */
  lemma InvalidationKeepsBonds(start: Space, scan: seq<ScanEvent>, resource: string, now: Space)
    requires Pruned(OthersOnly(start, scan), now, Pattern(resource)) && start.history <= now.history
    requires forall k :: k in now.data && Matches(Pattern(resource), k) ==> SetMeanwhile(scan, k)
    ensures var t := now.(history := Slipped(start.history, Drop(resource), now.history));
            && (start.Faithful() ==> t.Faithful())
            && (start.ExactOutside(resource) ==> ExactBut(t, resource, scan))
  {
    var t := now.(history := Slipped(start.history, Drop(resource), now.history));
    var others := OthersOnly(start, scan);
    OthersKeepBonds(start, scan);
    OthersOnlyAdd(start, scan);
    forall v, r, k | Plain(v, r, k)
      ensures r != resource ==> t.Held(v, r, k) == others.Held(v, r, k) && t.Due(v, r, k) == others.Due(v, r, k)
      ensures r == resource && SetMeanwhile(scan, RedisKey(v, r, k)) ==> t.Due(v, r, k) == others.Due(v, r, k)
      ensures r == resource && !SetMeanwhile(scan, RedisKey(v, r, k)) ==> t.Held(v, r, k).None? && t.Due(v, r, k).None?
      ensures t.Held(v, r, k).Some? ==> t.Held(v, r, k) == others.Held(v, r, k)
    {
      var p := now.history[|start.history|..];
      assert now.history == start.history + p;
      DropBelow(start.history, resource, p, v, r, k);
      PatternHitsOwnKeysOnly(resource, v, r, k);
    }
    if start.ExactOutside(resource) {
      forall v, r, k | Plain(v, r, k) && r != resource && !LostMeanwhile(scan, RedisKey(v, r, k))
        ensures t.ExactAt(v, r, k)
      {
        OthersKeepEntry(start, scan, v, r, k);
      }
    }
  }

  // ---- The scan under way ----

  /** A key nobody stored meanwhile was there from the start and, unless it waits in the open
      batch, not yielded. */
  ghost predicate Survivors(start: Space, scan: seq<ScanEvent>, now: map<string, Cell>, batch: seq<string>) {
    forall k :: k in now && !SetMeanwhile(scan, k) ==> Throughout(start, scan, k) && (k in Yields(scan) ==> k in batch)
  }

  lemma SurvivorStep(start: Space, scan: seq<ScanEvent>, i: nat, now: Space, pattern: string, batch: seq<string>)
    requires i < |scan| && Survivors(start, scan[..i], now.data, batch)
             && Pruned(OthersOnly(start, scan[..i]), now, pattern)
    ensures var after := if scan[i].Yield? then batch + [scan[i].key] else batch;
            Survivors(start, scan[..i + 1], AfterEvent(now, scan[i]).data, after)
    ensures Pruned(OthersOnly(start, scan[..i + 1]), AfterEvent(now, scan[i]), pattern)
    ensures Yields(scan[..i + 1]) == Yields(scan[..i]) + (if scan[i].Yield? then [scan[i].key] else [])
  {
    var done, more := scan[..i], scan[..i + 1];
    assert more[..i] == done && more[i] == scan[i];
    EventKeepsPruned(OthersOnly(start, done), now, pattern, scan[i]);
    forall k ensures SetMeanwhile(more, k) <==> SetMeanwhile(done, k) || Sets(scan[i], k) {
      SetMeanwhileNext(more, k);
    }
  }

  lemma EventKeepsPruned(before: Space, now: Space, pattern: string, e: ScanEvent)
    requires Pruned(before, now, pattern)
    ensures Pruned(AfterEvent(before, e), AfterEvent(now, e), pattern)
  {
  }

  /** The keys of some batches. */
  function KeysOf(batches: seq<seq<string>>): set<string> {
    set k | k in Flatten(batches)
  }

  /** The keys that others would have left and that are gone are those of the batches, except that
      a key may have been set again. */
  ghost predicate Accounted(others: Space, scan: seq<ScanEvent>, now: map<string, Cell>, batches: seq<seq<string>>) {
    && (forall k :: k in others.data && k !in now ==> k in KeysOf(batches))
    && (forall k :: k in KeysOf(batches) && k in now ==> SetMeanwhile(scan, k))
  }

  lemma AccountedStep(start: Space, scan: seq<ScanEvent>, i: nat, now: Space, pattern: string,
                      batches: seq<seq<string>>)
    requires i < |scan| && Pruned(OthersOnly(start, scan[..i]), now, pattern)
    requires Accounted(OthersOnly(start, scan[..i]), scan[..i], now.data, batches)
    ensures Accounted(OthersOnly(start, scan[..i + 1]), scan[..i + 1], AfterEvent(now, scan[i]).data, batches)
  {
    var done, more := scan[..i], scan[..i + 1];
    assert more[..i] == done && more[i] == scan[i];
    forall k ensures SetMeanwhile(more, k) <==> SetMeanwhile(done, k) || Sets(scan[i], k) {
      SetMeanwhileNext(more, k);
    }
  }

  /** What holds after `seen` scan events, with `batches` unlinked and `batch` still open. */
  ghost predicate Midway(start: Space, scan: seq<ScanEvent>, seen: nat, pattern: string,
                         now: Space, batches: seq<seq<string>>, batch: seq<string>)
  {
    && seen <= |scan| && Flatten(batches) + batch == Yields(scan[..seen])
    && Pruned(OthersOnly(start, scan[..seen]), now, pattern)
    && Survivors(start, scan[..seen], now.data, batch)
    && Accounted(OthersOnly(start, scan[..seen]), scan[..seen], now.data, batches)
    && (Quiet(scan) ==> now.data == start.data - KeysOf(batches))
  }

  lemma EventKeepsMidway(start: Space, scan: seq<ScanEvent>, seen: nat, pattern: string,
                         now: Space, batches: seq<seq<string>>, batch: seq<string>)
    requires Midway(start, scan, seen, pattern, now, batches, batch) && seen < |scan|
    ensures var after := if scan[seen].Yield? then batch + [scan[seen].key] else batch;
            Midway(start, scan, seen + 1, pattern, AfterEvent(now, scan[seen]), batches, after)
  {
    SurvivorStep(start, scan, seen, now, pattern, batch);
    AccountedStep(start, scan, seen, now, pattern, batches);
    var e := scan[seen];
    if e.Yield? { Associate(Flatten(batches), batch, [e.key]); }
  }

  lemma FlushKeepsMidway(start: Space, scan: seq<ScanEvent>, seen: nat, pattern: string,
                         now: Space, batches: seq<seq<string>>, batch: seq<string>)
    requires Midway(start, scan, seen, pattern, now, batches, batch) && YieldsMatch(scan, pattern)
    ensures Midway(start, scan, seen, pattern, now.(data := now.data - (set k | k in batch)), batches + [batch], [])
  {
    BatchMatches(scan, seen, pattern, batches, batch);
    FlattenAppend(batches, batch);
  }

  /** A complete scan with no batch open leaves only what was stored while it ran. */
  lemma NothingIsLeft(start: Space, scan: seq<ScanEvent>, pattern: string, now: map<string, Cell>)
    requires Survivors(start, scan, now, [])
    ensures ScanComplete(start, scan, pattern) ==>
              forall k :: k in now && Matches(pattern, k) ==> SetMeanwhile(scan, k)
  {
  }

  lemma {:induction false} YieldsGrow(scan: seq<ScanEvent>, i: nat)
    requires i <= |scan|
    ensures Yields(scan[..i]) <= Yields(scan)
  {
    if i < |scan| {
      YieldsGrow(scan[..|scan| - 1], i);
      assert scan[..|scan| - 1][..i] == scan[..i];
    } else {
      assert scan[..i] == scan;
    }
  }

  /** Full batches cut from the yields so far lead the batches of the whole scan. */
  lemma FullBatchesOfScan(scan: seq<ScanEvent>, i: nat, batches: seq<seq<string>>, batch: seq<string>, n: nat)
    requires i <= |scan| && n > 0 && AllFull(batches, n)
    requires Flatten(batches) + batch == Yields(scan[..i])
    ensures batches <= Chunks(Yields(scan), n)
    ensures |batch| == n ==> batches + [batch] <= Chunks(Yields(scan), n)
  {
    YieldsGrow(scan, i);
    var all, done := Yields(scan), Yields(scan[..i]);
    var rest := all[|done|..];
    assert all == done + rest;
    Associate(Flatten(batches), batch, rest);
    FullBatchesLead(batches, batch + rest, n);
    if |batch| == n { ChunkOff(batch, rest, n); }
  }

  lemma {:induction false} YieldedKeysMatch(scan: seq<ScanEvent>, pattern: string)
    requires YieldsMatch(scan, pattern)
    ensures forall k :: k in Yields(scan) ==> Matches(pattern, k)
  {
    if scan != [] { YieldedKeysMatch(scan[..|scan| - 1], pattern); }
  }

  lemma BatchMatches(scan: seq<ScanEvent>, i: nat, pattern: string, batches: seq<seq<string>>, batch: seq<string>)
    requires i <= |scan| && YieldsMatch(scan, pattern)
    requires Flatten(batches) + batch == Yields(scan[..i])
    ensures forall k :: k in batch ==> Matches(pattern, k)
  {
    YieldedKeysMatch(scan[..i], pattern);
    assert forall k :: k in batch ==> k in Flatten(batches) + batch;
  }
}
