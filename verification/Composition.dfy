/** What the invalidation loop counts on is what the Redis cache does. */
module Composition {
  import opened StatsCaches
  import opened Glob
  import InvalidationTask

  /** While an invalidation runs, from state `s` to `t`, the loop's shared cache sees the stores
      that the scan meets. Then all that the invalidation leaves of the resource in Redis, the
      loop's model leaves as well: every entry it takes out, as one stored before the invalidation
      began, is gone from Redis. */
  lemma RedisLeavesNoMore(s: InvalidationTask.State, ls: seq<InvalidationTask.Label>, t: InvalidationTask.State,
                          resource: string, scan: seq<ScanEvent>, after: Space)
    requires s.pc.Invalidating? && s.pc.began <= s.order
    requires InvalidationTask.Run(s, ls).Some? && InvalidationTask.Run(s, ls).value == t && t.pc == s.pc
             && !t.cancelling
    requires forall k :: SetMeanwhile(scan, k) ==> InvalidationTask.StoresKey(ls, k)
    requires forall k :: k in after.data && Matches(Pattern(resource), k) ==> SetMeanwhile(scan, k)
    ensures var u := InvalidationTask.Next(t, InvalidationTask.InvalidateReturns(false));
            forall k :: k in after.data && Matches(Pattern(resource), k) && k in t.world.cache ==>
              k in u.world.cache && u.world.cache[k] == t.world.cache[k]
  {
    forall k | k in after.data && Matches(Pattern(resource), k) && k in t.world.cache
      ensures t.world.cache[k].stored >= s.pc.began
    {
      InvalidationTask.StoredDuring(s, ls, k);
    }
  }
}
