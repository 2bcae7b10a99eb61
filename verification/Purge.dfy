/** Hard-deleting the archived rows of every model that can be archived. */
module Purge {
  import opened Options

  datatype Row = Row(id: int, archivedAt: Option<int>)

  /** A mapped class: its table, and whether it has an `archived_at`. */
  datatype Mapper = Mapper(table: string, archivable: bool)

  type Tables = map<string, seq<Row>>

  /** SQL's `archived_at IS NOT NULL AND archived_at <= older_than`. */
  predicate Expired(r: Row, olderThan: int) {
    r.archivedAt.Some? && r.archivedAt.value <= olderThan
  }

  function Kept(rows: seq<Row>, olderThan: int): (k: seq<Row>)
    ensures |k| <= |rows|
  {
    if rows == [] then []
    else (if Expired(rows[0], olderThan) then [] else [rows[0]]) + Kept(rows[1..], olderThan)
  }

  /** One class per table. */
  predicate Mapped(mappers: seq<Mapper>, tables: Tables) {
    && (forall i :: 0 <= i < |mappers| ==> mappers[i].table in tables)
    && forall i, j :: 0 <= i < j < |mappers| ==> mappers[i].table != mappers[j].table
  }

  predicate Purges(mappers: seq<Mapper>, table: string) {
    Mapper(table, true) in mappers
  }

  /** The tables after a purge: it does not depend on the order of the mappers. */
  function Purged(tables: Tables, mappers: seq<Mapper>, olderThan: int): Tables {
    map n | n in tables :: if Purges(mappers, n) then Kept(tables[n], olderThan) else tables[n]
  }

  function RowCount(tables: Tables, mappers: seq<Mapper>): nat
    requires forall i :: 0 <= i < |mappers| ==> mappers[i].table in tables
  {
    if mappers == [] then 0
    else RowCount(tables, mappers[..|mappers| - 1]) + |tables[mappers[|mappers| - 1].table]|
  }

  /** The rows a purge removes. */
  function Removed(tables: Tables, mappers: seq<Mapper>, olderThan: int): int
    requires forall i :: 0 <= i < |mappers| ==> mappers[i].table in tables
  {
    RowCount(tables, mappers) - RowCount(Purged(tables, mappers, olderThan), mappers)
  }

  class Database {
    var tables: Tables

    method PurgeArchived(mappers: seq<Mapper>, olderThan: int) returns (total: nat)
      requires Mapped(mappers, tables)
      modifies this
      ensures tables == Purged(old(tables), mappers, olderThan)
      ensures total == Removed(old(tables), mappers, olderThan)
    {
      ghost var data0 := tables;
      total := 0;
      for i := 0 to |mappers|
        invariant tables == Purged(data0, mappers[..i], olderThan)
        invariant total == Removed(data0, mappers[..i], olderThan)
      {
        var m := mappers[i];
        PurgeStep(data0, mappers, i, olderThan);
        if m.archivable {
          var rows := tables[m.table];
          tables := tables[m.table := Kept(rows, olderThan)];
          total := total + (|rows| - |Kept(rows, olderThan)|);
        }
      }
      assert mappers[..|mappers|] == mappers;
    }
  }

  lemma {:induction false} SameCount(a: Tables, b: Tables, mappers: seq<Mapper>, changed: string)
    requires a.Keys == b.Keys && forall i :: 0 <= i < |mappers| ==> mappers[i].table in a
    requires forall n :: n in a && n != changed ==> a[n] == b[n]
    requires forall i :: 0 <= i < |mappers| ==> mappers[i].table != changed
    ensures RowCount(a, mappers) == RowCount(b, mappers)
  {
    if mappers != [] { SameCount(a, b, mappers[..|mappers| - 1], changed); }
  }

  /** What one more mapper adds to a purge. */
  lemma PurgeNext(tables: Tables, mappers: seq<Mapper>, i: nat, olderThan: int)
    requires Mapped(mappers, tables) && i < |mappers|
    ensures var m, before, after :=
            mappers[i], Purged(tables, mappers[..i], olderThan), Purged(tables, mappers[..i + 1], olderThan);
            && before[m.table] == tables[m.table]
            && after == (if m.archivable then before[m.table := Kept(tables[m.table], olderThan)] else before)
  {
    var m, before, after :=
        mappers[i], Purged(tables, mappers[..i], olderThan), Purged(tables, mappers[..i + 1], olderThan);
    assert mappers[..i + 1] == mappers[..i] + [m];
    assert forall j :: 0 <= j < i ==> mappers[..i][j] == mappers[j];
    forall n | n in tables
      ensures Purges(mappers[..i + 1], n) <==> Purges(mappers[..i], n) || (m.archivable && n == m.table)
      ensures n == m.table ==> !Purges(mappers[..i], n)
    {
      NextPurges(mappers[..i], m, n);
    }
    assert after.Keys == before.Keys == tables.Keys;
  }

  lemma CountNext(tables: Tables, mappers: seq<Mapper>, i: nat, changed: Tables)
    requires Mapped(mappers, tables) && i < |mappers| && changed.Keys == tables.Keys
    requires forall n :: n in tables && n != mappers[i].table ==> changed[n] == tables[n]
    ensures RowCount(changed, mappers[..i + 1]) == RowCount(tables, mappers[..i]) + |changed[mappers[i].table]|
  {
    assert mappers[..i + 1][..i] == mappers[..i];
    SameCount(tables, changed, mappers[..i], mappers[i].table);
  }

  lemma PurgeStep(tables: Tables, mappers: seq<Mapper>, i: nat, olderThan: int)
    requires Mapped(mappers, tables) && i < |mappers|
    ensures var m, before, after :=
            mappers[i], Purged(tables, mappers[..i], olderThan), Purged(tables, mappers[..i + 1], olderThan);
            && before[m.table] == tables[m.table]
            && after == (if m.archivable then before[m.table := Kept(tables[m.table], olderThan)] else before)
            && Removed(tables, mappers[..i + 1], olderThan) ==
               Removed(tables, mappers[..i], olderThan) + |before[m.table]| - |after[m.table]|
  {
    var before := Purged(tables, mappers[..i], olderThan);
    PurgeNext(tables, mappers, i, olderThan);
    CountNext(tables, mappers, i, tables);
    CountNext(before, mappers, i, Purged(tables, mappers[..i + 1], olderThan));
  }

  lemma NextPurges(mappers: seq<Mapper>, m: Mapper, table: string)
    requires forall j :: 0 <= j < |mappers| ==> mappers[j].table != m.table
    ensures Purges(mappers + [m], table) <==> Purges(mappers, table) || (m.archivable && table == m.table)
    ensures table == m.table ==> !Purges(mappers, table)
  {
    if m.archivable && table == m.table { assert m == Mapper(table, true); }
  }

  lemma {:induction false} KeptTwice(rows: seq<Row>, t1: int, t2: int)
    requires t1 <= t2
    ensures Kept(Kept(rows, t1), t2) == Kept(rows, t2)
  {
    if rows != [] {
      var rest := Kept(rows[1..], t1);
      KeptTwice(rows[1..], t1, t2);
      assert [] + rest == rest && [] + Kept(rest, t2) == Kept(rest, t2);
      assert ([rows[0]] + rest)[1..] == rest;
    }
  }

  /** Exactly the rows go that were archived at the cutoff or before, wherever they are. */
  lemma {:induction false} KeptExactly(rows: seq<Row>, olderThan: int, r: Row)
    ensures multiset(Kept(rows, olderThan))[r] ==
            if r.archivedAt.Some? && r.archivedAt.value <= olderThan then 0 else multiset(rows)[r]
  {
    if rows != [] {
      KeptExactly(rows[1..], olderThan, r);
      CountsSplit(rows, r);
      var kept := Kept(rows[1..], olderThan);
      if !Expired(rows[0], olderThan) { CountsSplit([rows[0]] + kept, r); }
      assert ([rows[0]] + kept)[1..] == kept && [] + kept == kept;
    }
  }

  lemma CountsSplit(rows: seq<Row>, r: Row)
    requires rows != []
    ensures multiset(rows)[r] == (if rows[0] == r then 1 else 0) + multiset(rows[1..])[r]
  {
    assert rows == [rows[0]] + rows[1..];
  }

  /** And they go from exactly the tables of the archivable models. */
  lemma PurgedExactly(tables: Tables, mappers: seq<Mapper>, olderThan: int, table: string, r: Row)
    requires table in tables
    ensures var purged := Purged(tables, mappers, olderThan);
            && purged.Keys == tables.Keys
            && multiset(purged[table])[r] ==
               if (exists i :: 0 <= i < |mappers| && mappers[i].table == table && mappers[i].archivable)
                  && r.archivedAt.Some? && r.archivedAt.value <= olderThan then 0
               else multiset(tables[table])[r]
  {
    KeptExactly(tables[table], olderThan, r);
    if i :| 0 <= i < |mappers| && mappers[i].table == table && mappers[i].archivable {
      assert mappers[i] == Mapper(table, true);
    }
  }

  /** Purging at t1 and again at a later t2 is purging once at t2, and what the two purges return
      adds up to what the one would. */
  lemma PurgeTwice(tables: Tables, mappers: seq<Mapper>, t1: int, t2: int)
    requires Mapped(mappers, tables) && t1 <= t2
    ensures var once := Purged(tables, mappers, t1);
            && Purged(once, mappers, t2) == Purged(tables, mappers, t2)
            && Removed(tables, mappers, t1) + Removed(once, mappers, t2) == Removed(tables, mappers, t2)
  {
    forall n | n in tables { KeptTwice(tables[n], t1, t2); }
    assert Purged(Purged(tables, mappers, t1), mappers, t2) == Purged(tables, mappers, t2);
  }
}
