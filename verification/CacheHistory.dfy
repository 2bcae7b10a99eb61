/** What a stats cache is supposed to remember: the history of stores and invalidations,
    and the one answer each lookup may give. Both caches are proved against it. A history may
    be shared by many replicas, of several versions. */
module CacheHistory {
  import opened Options

  type Bytes = seq<bv8>

  /** A time to live: the settings refuse any that is not positive. */
  type Ttl = t: int | t > 0 witness 1

  datatype Op =
    | Put(version: string, resource: string, key: string, body: Bytes, at: int, ttl: Ttl)
    | Drop(resource: string)

  datatype Cell = Cell(expires: int, body: Bytes)

  /** The cell while it lives, and nothing from its expiry on. */
  function Live(c: Option<Cell>, now: int): Option<Cell> {
    if c.Some? && now < c.value.expires then c else None
  }

  predicate Touches(op: Op, version: string, resource: string, key: string) {
    op.resource == resource && (op.Drop? || (op.version == version && op.key == key))
  }

  /** The standing store of a (version, resource, key), if no invalidation undid it. */
  function Latest(h: seq<Op>, version: string, resource: string, key: string): Option<Cell> {
    if h == [] then None
    else
      var op := h[|h| - 1];
      if !Touches(op, version, resource, key) then Latest(h[..|h| - 1], version, resource, key)
      else if op.Put? then Some(Cell(op.at + op.ttl, op.body))
      else None
  }

  /** What a lookup at time `now` returns. */
  function Answer(h: seq<Op>, version: string, resource: string, key: string, now: int): Option<Bytes> {
    match Live(Latest(h, version, resource, key), now)
    case Some(cell) => Some(cell.body)
    case None => None
  }

  /** Operation `i` stored the (version, resource, key), and nothing since replaced or dropped it. */
  predicate Stands(h: seq<Op>, version: string, resource: string, key: string, i: int) {
    && 0 <= i < |h|
    && h[i].Put? && Touches(h[i], version, resource, key)
    && forall j :: i < j < |h| ==> !Touches(h[j], version, resource, key)
  }

  lemma {:induction false} LatestStands(h: seq<Op>, version: string, resource: string, key: string, c: Cell)
    ensures Latest(h, version, resource, key) == Some(c) <==>
            exists i :: Stands(h, version, resource, key, i) && h[i].body == c.body && h[i].at + h[i].ttl == c.expires
  {
    if h != [] {
      var n := |h| - 1;
      var front := h[..n];
      LatestStands(front, version, resource, key, c);
      if Touches(h[n], version, resource, key) {
        assert forall i :: Stands(h, version, resource, key, i) ==> i == n;
        if h[n].Put? { assert Stands(h, version, resource, key, n); }
      } else {
        assert forall i :: Stands(h, version, resource, key, i) ==> Stands(front, version, resource, key, i);
        assert forall i :: Stands(front, version, resource, key, i) ==> Stands(h, version, resource, key, i);
      }
    }
  }

  /** A lookup hits exactly when the body comes from the standing store of that version, resource
      and key, made strictly less than its TTL ago. */
  lemma AnswerIsTheStandingStore(h: seq<Op>, version: string, resource: string, key: string, now: int, b: Bytes)
    ensures Answer(h, version, resource, key, now) == Some(b) <==>
            exists i :: Stands(h, version, resource, key, i) && h[i].body == b && now < h[i].at + h[i].ttl
  {
    if Answer(h, version, resource, key, now) == Some(b) {
      LatestStands(h, version, resource, key, Latest(h, version, resource, key).value);
    }
    if i :| Stands(h, version, resource, key, i) && h[i].body == b && now < h[i].at + h[i].ttl {
      LatestStands(h, version, resource, key, Cell(h[i].at + h[i].ttl, b));
    }
  }

  // ---- Histories put together ----

  ghost predicate Touched(p: seq<Op>, version: string, resource: string, key: string) {
    exists i :: 0 <= i < |p| && Touches(p[i], version, resource, key)
  }

  lemma LatestNext(p: seq<Op>, op: Op, version: string, resource: string, key: string)
    ensures Latest(p + [op], version, resource, key) ==
            if !Touches(op, version, resource, key) then Latest(p, version, resource, key)
            else if op.Put? then Some(Cell(op.at + op.ttl, op.body))
            else None
  {
    assert (p + [op])[..|p|] == p;
  }

  lemma TouchedNext(p: seq<Op>, op: Op, version: string, resource: string, key: string)
    ensures Touched(p + [op], version, resource, key) <==>
            Touched(p, version, resource, key) || Touches(op, version, resource, key)
  {
    var q := p + [op];
    assert q[|p|] == op;
    assert forall i :: 0 <= i < |p| ==> q[i] == p[i];
  }

  /** What comes after a history decides every lookup it touches, and no other. */
  lemma {:induction false} LaterDecides(h: seq<Op>, p: seq<Op>, version: string, resource: string, key: string)
    ensures Latest(h + p, version, resource, key) ==
            if Touched(p, version, resource, key) then Latest(p, version, resource, key)
            else Latest(h, version, resource, key)
  {
    if p == [] {
      assert h + p == h;
    } else {
      var front, op := p[..|p| - 1], p[|p| - 1];
      assert p == front + [op] && h + p == (h + front) + [op];
      LaterDecides(h, front, version, resource, key);
      TouchedNext(front, op, version, resource, key);
      LatestNext(front, op, version, resource, key);
      LatestNext(h + front, op, version, resource, key);
    }
  }

  /** An invalidation slipped under later operations undoes what stood before, for its resource
      only. */
  lemma DropBelow(h: seq<Op>, dropped: string, p: seq<Op>, version: string, resource: string, key: string)
    ensures Latest(h + [Drop(dropped)] + p, version, resource, key) ==
            if resource == dropped && !Touched(p, version, resource, key) then None
            else Latest(h + p, version, resource, key)
    ensures resource == dropped && Latest(p, version, resource, key).None? ==>
              Latest(h + [Drop(dropped)] + p, version, resource, key).None?
  {
    LaterDecides(h, p, version, resource, key);
    LaterDecides(h + [Drop(dropped)], p, version, resource, key);
    LatestNext(h, Drop(dropped), version, resource, key);
  }

  /** What a cache of one version has of a shared history. */
  function SeenBy(h: seq<Op>, version: string): seq<Op> {
    if h == [] then []
    else
      var op := h[|h| - 1];
      SeenBy(h[..|h| - 1], version) + (if op.Drop? || op.version == version then [op] else [])
  }

  /** The stores of other versions are never seen. */
  lemma {:induction false} OtherVersionsDoNotShow(h: seq<Op>, version: string, resource: string, key: string)
    ensures Latest(SeenBy(h, version), version, resource, key) == Latest(h, version, resource, key)
  {
    if h != [] {
      var front, op := h[..|h| - 1], h[|h| - 1];
      OtherVersionsDoNotShow(front, version, resource, key);
      if op.Drop? || op.version == version {
        var seen := SeenBy(h, version);
        assert seen == SeenBy(front, version) + [op] && seen[..|seen| - 1] == SeenBy(front, version);
      } else {
        assert SeenBy(h, version) == SeenBy(front, version);
      }
    }
  }
}
