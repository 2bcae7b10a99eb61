/** The migration between one `superpower` and a list of `powers`, statement by statement over
    the table's rows, and what the v1 view shows of its result. */
module HeroMigration {
  import opened Options
  import HeroViews

  /** A column of a row: not in the schema, NULL, or a value. */
  datatype Column<T> = Absent | Null | Val(value: T)
  datatype Row = Row(id: nat, superpower: Column<string>, powers: Column<seq<Column<string>>>)

  /** The schema before: a `superpower`, never NULL. */
  predicate OldRow(r: Row) {
    r.superpower.Val? && r.powers.Absent?
  }

  /** The schema after: `powers`, never NULL. Its elements may be NULL as far as the database
      is concerned, and it may be empty. */
  predicate NewRow(r: Row) {
    r.superpower.Absent? && r.powers.Val? && forall p :: p in r.powers.value ==> !p.Absent?
  }

  ghost predicate OldTable(rows: seq<Row>) {
    forall i :: 0 <= i < |rows| ==> OldRow(rows[i])
  }

  ghost predicate NewTable(rows: seq<Row>) {
    forall i :: 0 <= i < |rows| ==> NewRow(rows[i])
  }

  /** `powers[1]` of SQL: the first element, NULL of an empty list. */
  function FirstPower(powers: Column<seq<Column<string>>>): Column<string> {
    if powers.Val? && powers.value != [] then powers.value[0] else Null
  }

  function Each(rows: seq<Row>, f: Row -> Row): (r: seq<Row>)
    ensures |r| == |rows| && forall i :: 0 <= i < |rows| ==> r[i] == f(rows[i])
  {
    seq(|rows|, i requires 0 <= i < |rows| => f(rows[i]))
  }

  class HeroesTable {
    var rows: seq<Row>

    constructor (rows: seq<Row>)
      ensures this.rows == rows
    {
      this.rows := rows;
    }

    /** Making a column NOT NULL fails, and undoes the migration so far, if some row breaks it.
        An upgrade never fails, a downgrade may. */
    method Upgrade() returns (ok: bool)
      requires OldTable(rows)
      modifies this
      ensures ok && rows == Upgraded(old(rows))
    {
      var before := rows;
      rows := Each(rows, (r: Row) => r.(powers := Null));
      rows := Each(rows, (r: Row) => r.(powers := Val([r.superpower])));
      ok := forall i :: 0 <= i < |rows| ==> rows[i].powers.Val?;
      rows := if ok then Each(rows, (r: Row) => r.(superpower := Absent)) else before;
    }

    method Downgrade() returns (ok: bool)
      requires NewTable(rows)
      modifies this
      ensures ok <==> Downgradable(old(rows))
      ensures rows == if ok then Downgraded(old(rows)) else old(rows)
    {
      var before := rows;
      rows := Each(rows, (r: Row) => r.(superpower := Null));
      rows := Each(rows, (r: Row) => r.(superpower := FirstPower(r.powers)));
      ok := forall i :: 0 <= i < |rows| ==> rows[i].superpower.Val?;
      rows := if ok then Each(rows, (r: Row) => r.(powers := Absent)) else before;
    }
  }

  function Upgraded(rows: seq<Row>): seq<Row> {
    Each(rows, (r: Row) => Row(r.id, Absent, Val([r.superpower])))
  }

  function Downgraded(rows: seq<Row>): seq<Row> {
    Each(rows, (r: Row) => Row(r.id, FirstPower(r.powers), Absent))
  }

  /** The tables that can go back: every hero has a first power. */
  ghost predicate Downgradable(rows: seq<Row>) {
    forall i :: 0 <= i < |rows| ==> FirstPower(rows[i].powers).Val?
  }

  /** Going up and back down restores every table. */
  lemma DowngradeUndoesUpgrade(rows: seq<Row>)
    requires OldTable(rows)
    ensures NewTable(Upgraded(rows)) && Downgradable(Upgraded(rows))
    ensures Downgraded(Upgraded(rows)) == rows
  {
    forall i | 0 <= i < |rows| ensures Downgraded(Upgraded(rows))[i] == rows[i] {
      assert OldRow(rows[i]);
    }
  }

  /** Going down and back up restores exactly the tables in which every hero has one power;
      any further power is lost. */
  lemma UpgradeUndoesDowngradeIffSingle(rows: seq<Row>)
    requires NewTable(rows) && Downgradable(rows)
    ensures OldTable(Downgraded(rows))
    ensures Upgraded(Downgraded(rows)) == rows <==>
            forall i :: 0 <= i < |rows| ==> |rows[i].powers.value| == 1
  {
    var back := Upgraded(Downgraded(rows));
    forall i | 0 <= i < |rows|
      ensures OldRow(Downgraded(rows)[i])
      ensures back[i] == rows[i] <==> |rows[i].powers.value| == 1
    {
      assert NewRow(rows[i]) && FirstPower(rows[i].powers).Val?;
      if |rows[i].powers.value| == 1 {
        assert rows[i].powers.value == [rows[i].powers.value[0]];
      }
    }
  }

  /** A row as the v2 view reads it; None where its list holds a NULL. */
  function ReadPowers(r: Row): Option<seq<string>>
    requires r.powers.Val?
  {
    if forall p :: p in r.powers.value ==> p.Val? then
      Some(seq(|r.powers.value|, i requires 0 <= i < |r.powers.value| => Text(r.powers.value[i])))
    else None
  }

  function Text(c: Column<string>): string {
    if c.Val? then c.value else ""
  }

  /** A row that was migrated back holds what the v1 view showed of it: the first of its powers. */
  lemma DowngradeKeepsTheV1View(rows: seq<Row>, i: nat, hero: HeroViews.HeroV2)
    requires NewTable(rows) && Downgradable(rows) && i < |rows|
    requires hero.powers.Some? && hero.powers == ReadPowers(rows[i])
    ensures rows[i].powers.value != [] && Downgraded(rows)[i] == Row(rows[i].id, rows[i].powers.value[0], Absent)
    ensures Downgraded(rows)[i].superpower == Val(hero.powers.value[0])
    ensures HeroViews.ToV1(hero).Some? ==> Downgraded(rows)[i].superpower == Val(HeroViews.ToV1(hero).value.superpower)
  {
    assert NewRow(rows[i]) && FirstPower(rows[i].powers).Val?;
  }

  /** An upgraded row reads through the v1 view with the superpower it had before, exactly if
      v1 accepts that superpower. */
  lemma UpgradeKeepsTheV1View(rows: seq<Row>, i: nat, hero: HeroViews.HeroV2)
    requires OldTable(rows) && i < |rows|
    requires hero.powers == ReadPowers(Upgraded(rows)[i])
    requires hero.name.Some? ==> HeroViews.ValidText(hero.name.value)
    ensures ReadPowers(Upgraded(rows)[i]).Some?
    ensures HeroViews.ToV1(hero).Some? <==> 1 <= |rows[i].superpower.value| <= 200
    ensures HeroViews.ToV1(hero).Some? ==> HeroViews.ToV1(hero).value.superpower == rows[i].superpower.value
  {
    assert OldRow(rows[i]);
  }
}
