/** The deprecated v1 Hero API, run through its converters over the v2 store, against a store
    of v1 records. Assumed of the CRUD library: a create stores the given fields under a fresh
    id, an update stores the fields that were set, a delete archives the record and a restore
    undoes that; only its owner changes a record, and while it is locked or archived nobody
    does. Payloads have passed their own view's validation. */
module HeroViews {
  import opened Options

  const DRAFT := "(draft)"

  /** What v2 knows of a hero and v1 does not. */
  datatype Hidden = Hidden(powerLevel: Option<int>, isDraft: bool, publishAt: Option<int>, unpublishAt: Option<int>)

  /** What the library goes by in deciding who may change a record, whatever its shape. */
  datatype Upkeep = Upkeep(ownerId: string, isLocked: bool, archivedAt: Option<int>)

  datatype HeroV2 = HeroV2(
    name: Option<string>, powers: Option<seq<string>>, hidden: Hidden, upkeep: Upkeep, createdAt: int, updatedAt: int)
  datatype HeroV1 = HeroV1(name: string, superpower: string, createdAt: int, updatedAt: int)

  /** A field of a partial update: left out, explicitly null, or given. */
  datatype Field<T> = Unset | Null | Given(value: T)

  datatype V1Create = V1Create(name: string, superpower: string)
  datatype V1Update = V1Update(name: Field<string>, superpower: Field<string>)
  datatype V2Create = V2Create(name: string, powers: seq<string>, powerLevel: Option<int>)
  datatype V2Update = V2Update(
    name: Field<string>, powers: Field<seq<string>>, powerLevel: Field<int>, isLocked: Field<bool>,
    publishAt: Field<int>, unpublishAt: Field<int>)

  predicate ValidText(s: string) { 1 <= |s| <= 200 }
  predicate ValidField(f: Field<string>) { f.Given? ==> ValidText(f.value) }
  predicate ValidPowers(ps: seq<string>) { |ps| >= 1 && forall p :: p in ps ==> ValidText(p) }

  // ---- The converters ----

  /** `hero_v2_to_v1`: None where the v1 shape refuses what it would have to show. */
  function ToV1(h: HeroV2): Option<HeroV1> {
    if ValidText(Face(h).name) && ValidText(Face(h).superpower) then Some(Face(h)) else None
  }

  /** What a v1 client is to see: the first power stands for all; what is unset shows as a
      placeholder. */
  function Face(h: HeroV2): HeroV1 {
    HeroV1(if h.name.Some? && h.name.value != "" then h.name.value else DRAFT,
           if h.powers.Some? && h.powers.value != [] then h.powers.value[0] else DRAFT,
           h.createdAt, h.updatedAt)
  }

  /** `hero_v1_create_to_v2`. */
  function CreateToV2(p: V1Create): V2Create {
    V2Create(p.name, [p.superpower], None)
  }

  /** A value in the dict that `hero_v1_update_to_v2` edits. */
  datatype Json = JNull | JText(text: string) | JList(items: seq<Json>)

  function FieldJson(f: Field<string>): Json
    requires !f.Unset?
  {
    if f.Null? then JNull else JText(f.value)
  }

  /** `model_dump(exclude_unset=True)`. */
  function Dump(p: V1Update): map<string, Json> {
    (if p.name.Unset? then map[] else map["name" := FieldJson(p.name)])
    + (if p.superpower.Unset? then map[] else map["superpower" := FieldJson(p.superpower)])
  }

  /** `HeroV2Update.model_validate`, for the two keys such a dict can hold: None where pydantic
      rejects it. */
  function Validate(data: map<string, Json>): Option<V2Update> {
    if "superpower" in data then None
    else if "name" in data && data["name"].JList? then None
    else if "name" in data && data["name"].JText? && !ValidText(data["name"].text) then None
    else if "powers" in data && !TextList(data["powers"]) then None
    else
      var name := if "name" !in data then Unset else if data["name"].JNull? then Null else Given(data["name"].text);
      var powers :=
        if "powers" !in data then Unset
        else if data["powers"].JNull? then Null
        else Given(Texts(data["powers"].items));
      Some(V2Update(name, powers, Unset, Unset, Unset, Unset))
  }

  predicate TextList(j: Json) {
    match j
    case JNull => true
    case JText(_) => false
    case JList(items) => |items| >= 1 && forall i :: 0 <= i < |items| ==> items[i].JText? && ValidText(items[i].text)
  }

  function Texts(items: seq<Json>): seq<string>
    requires forall i :: 0 <= i < |items| ==> items[i].JText?
  {
    seq(|items|, i requires 0 <= i < |items| => items[i].text)
  }

  /** `hero_v1_update_to_v2`: None where validating the v2 shape raises, which is for an
      explicitly null superpower and for nothing else. */
  method UpdateToV2(p: V1Update) returns (r: Option<V2Update>)
    requires ValidField(p.name) && ValidField(p.superpower)
    ensures r.None? <==> p.superpower.Null?
    ensures r.Some? ==> r.value == Converted(p)
  {
    var data := Dump(p);
    if "superpower" in data {
      var superpower := data["superpower"];
      data := data - {"superpower"};
      data := data["powers" := JList([superpower])];
    }
    r := Validate(data);
    if p.superpower.Given? {
      assert Texts([JText(p.superpower.value)]) == [p.superpower.value];
      assert TextList(JList([JText(p.superpower.value)]));
    }
    if p.superpower.Null? {
      assert data["powers"].items[0] == JNull;
      assert !TextList(data["powers"]);
    }
  }

  function Converted(p: V1Update): V2Update {
    V2Update(p.name, if p.superpower.Given? then Given([p.superpower.value]) else Unset, Unset, Unset, Unset, Unset)
  }

  // ---- The v2 store, and the v1 store it stands in for ----

  type StoreV2 = map<nat, HeroV2>
  datatype RecordV1 = RecordV1(hero: HeroV1, upkeep: Upkeep)
  type StoreV1 = map<nat, RecordV1>

  function Write<T>(f: Field<T>, old': Option<T>): Option<T> {
    match f
    case Unset => old'
    case Null => None
    case Given(v) => Some(v)
  }

  function Keep<T>(f: Field<T>, old': T): T {
    if f.Given? then f.value else old'
  }

  /** An update as the library applies it. */
  function Patch(h: HeroV2, u: V2Update, now: int): HeroV2 {
    h.(name := Write(u.name, h.name), powers := Write(u.powers, h.powers),
       hidden := h.hidden.(powerLevel := Write(u.powerLevel, h.hidden.powerLevel),
                           publishAt := Write(u.publishAt, h.hidden.publishAt),
                           unpublishAt := Write(u.unpublishAt, h.hidden.unpublishAt)),
       upkeep := h.upkeep.(isLocked := Keep(u.isLocked, h.upkeep.isLocked)), updatedAt := now)
  }

  /** Whether a caller's update or delete reaches a record; one that unlocks it does even while
      it is locked. */
  predicate Reaches(caller: string, k: Upkeep, unlocks: bool) {
    caller == k.ownerId && k.archivedAt.None? && (k.isLocked ==> unlocks)
  }

  predicate Unlocks(u: V2Update) {
    u.isLocked == Given(false)
  }

  function NewUpkeep(owner: string): Upkeep {
    Upkeep(owner, false, None)
  }

  /** What callers of either version do to the records. */
  datatype Op =
    | CreateV1(id: nat, create: V1Create, caller: string, now: int)
    | UpdateV1(id: nat, update: V1Update, caller: string, now: int)
    | CreateV2(id: nat, createV2: V2Create, caller: string, now: int)
    | DraftV2(id: nat, draft: V2Update, caller: string, now: int)
    | UpdateV2(id: nat, updateV2: V2Update, caller: string, now: int)
    | Delete(id: nat, caller: string, now: int)
    | Restore(id: nat, caller: string)

  predicate ValidV2(u: V2Update) {
    ValidField(u.name) && (u.powers.Given? ==> ValidPowers(u.powers.value))
  }

  predicate ValidOp(op: Op) {
    match op
    case CreateV1(_, c, _, _) => ValidText(c.name) && ValidText(c.superpower)
    case UpdateV1(_, u, _, _) => ValidField(u.name) && ValidField(u.superpower)
    case CreateV2(_, c, _, _) => ValidText(c.name) && ValidPowers(c.powers)
    case DraftV2(_, u, _, _) => ValidV2(u)
    case UpdateV2(_, u, _, _) => ValidV2(u)
    case Delete(_, _, _) => true
    case Restore(_, _) => true
  }

  function Fresh(c: V2Create, owner: string, now: int): HeroV2 {
    HeroV2(Some(c.name), Some(c.powers), Hidden(c.powerLevel, false, None, None), NewUpkeep(owner), now, now)
  }

  function Draft(u: V2Update, owner: string, now: int): HeroV2 {
    Patch(HeroV2(None, None, Hidden(None, true, None, None), NewUpkeep(owner), now, now), u, now)
  }

  /** Through the converters. An id that is taken, not there or out of reach, and a payload that
      does not convert, leave the store as it is. */
  function StepV2(s: StoreV2, op: Op): StoreV2 {
    match op
    case CreateV1(id, c, caller, now) => if id in s then s else s[id := Fresh(CreateToV2(c), caller, now)]
    case UpdateV1(id, u, caller, now) =>
      if id in s && Reaches(caller, s[id].upkeep, false) && !u.superpower.Null? then
        s[id := Patch(s[id], Converted(u), now)]
      else s
    case CreateV2(id, c, caller, now) => if id in s then s else s[id := Fresh(c, caller, now)]
    case DraftV2(id, u, caller, now) => if id in s then s else s[id := Draft(u, caller, now)]
    case UpdateV2(id, u, caller, now) =>
      if id in s && Reaches(caller, s[id].upkeep, Unlocks(u)) then s[id := Patch(s[id], u, now)] else s
    case Delete(id, caller, now) =>
      if id in s && Reaches(caller, s[id].upkeep, false) then
        s[id := s[id].(upkeep := s[id].upkeep.(archivedAt := Some(now)))]
      else s
    case Restore(id, caller) =>
      if id in s && caller == s[id].upkeep.ownerId then
        s[id := s[id].(upkeep := s[id].upkeep.(archivedAt := None))]
      else s
  }

  /** What v1 itself would do with a field: a null reads back as the placeholder. */
  function Overwrite(f: Field<string>, old': string): string {
    match f
    case Unset => old'
    case Null => DRAFT
    case Given(v) => v
  }

  function FirstOf(f: Field<seq<string>>): Field<string> {
    match f
    case Unset => Unset
    case Null => Null
    case Given(ps) => if ps == [] then Null else Given(ps[0])
  }

  /** A native v1 update. */
  function Overwritten(r: RecordV1, name: Field<string>, superpower: Field<string>, isLocked: Field<bool>,
                       now: int): RecordV1
  {
    RecordV1(HeroV1(Overwrite(name, r.hero.name), Overwrite(superpower, r.hero.superpower), r.hero.createdAt, now),
             r.upkeep.(isLocked := Keep(isLocked, r.upkeep.isLocked)))
  }

  /** A native v1 store on the same library, with no v2 behind it. */
  function StepV1(s: StoreV1, op: Op): StoreV1 {
    match op
    case CreateV1(id, c, caller, now) =>
      if id in s then s else s[id := RecordV1(HeroV1(c.name, c.superpower, now, now), NewUpkeep(caller))]
    case UpdateV1(id, u, caller, now) =>
      if id in s && Reaches(caller, s[id].upkeep, false) && !u.superpower.Null? then
        s[id := Overwritten(s[id], u.name, u.superpower, Unset, now)]
      else s
    case CreateV2(id, c, caller, now) =>
      if id in s || c.powers == [] then s
      else s[id := RecordV1(HeroV1(c.name, c.powers[0], now, now), NewUpkeep(caller))]
    case DraftV2(id, u, caller, now) =>
      if id in s then s
      else
        var blank := RecordV1(HeroV1(DRAFT, DRAFT, now, now), NewUpkeep(caller));
        s[id := Overwritten(blank, u.name, FirstOf(u.powers), u.isLocked, now)]
    case UpdateV2(id, u, caller, now) =>
      if id in s && Reaches(caller, s[id].upkeep, Unlocks(u)) then
        s[id := Overwritten(s[id], u.name, FirstOf(u.powers), u.isLocked, now)]
      else s
    case Delete(id, caller, now) =>
      if id in s && Reaches(caller, s[id].upkeep, false) then
        s[id := s[id].(upkeep := s[id].upkeep.(archivedAt := Some(now)))]
      else s
    case Restore(id, caller) =>
      if id in s && caller == s[id].upkeep.ownerId then
        s[id := s[id].(upkeep := s[id].upkeep.(archivedAt := None))]
      else s
  }

  function RunV2(s: StoreV2, ops: seq<Op>): StoreV2
    decreases ops
  {
    if ops == [] then s else RunV2(StepV2(s, ops[0]), ops[1..])
  }

  function RunV1(s: StoreV1, ops: seq<Op>): StoreV1
    decreases ops
  {
    if ops == [] then s else RunV1(StepV1(s, ops[0]), ops[1..])
  }

  function RecordOf(h: HeroV2): RecordV1 {
    RecordV1(Face(h), h.upkeep)
  }

  /** The v2 store as v1 sees it. */
  function Shown(s: StoreV2): StoreV1 {
    map id | id in s :: RecordOf(s[id])
  }

  /** Reading any hero through v1 succeeds. */
  ghost predicate Readable(s: StoreV2) {
    forall id :: id in s ==> ToV1(s[id]).Some?
  }

  lemma StepRefines(s: StoreV2, op: Op)
    requires ValidOp(op)
    ensures Shown(StepV2(s, op)) == StepV1(Shown(s), op)
  {
    match op
    case CreateV1(id, c, caller, now) => ShownAt(s, id, Fresh(CreateToV2(c), caller, now));
    case UpdateV1(id, u, _, now) =>
      if id in s {
        ShownAt(s, id, Patch(s[id], Converted(u), now));
        PatchRefines(s[id], Converted(u), now);
      }
    case CreateV2(id, c, caller, now) => ShownAt(s, id, Fresh(c, caller, now));
    case DraftV2(id, u, caller, now) =>
      ShownAt(s, id, Draft(u, caller, now));
      PatchRefines(HeroV2(None, None, Hidden(None, true, None, None), NewUpkeep(caller), now, now), u, now);
    case UpdateV2(id, u, _, now) =>
      if id in s {
        ShownAt(s, id, Patch(s[id], u, now));
        PatchRefines(s[id], u, now);
      }
    case Delete(id, _, now) =>
      if id in s { ShownAt(s, id, s[id].(upkeep := s[id].upkeep.(archivedAt := Some(now)))); }
    case Restore(id, _) =>
      if id in s { ShownAt(s, id, s[id].(upkeep := s[id].upkeep.(archivedAt := None))); }
  }

  lemma ShownAt(s: StoreV2, id: nat, h: HeroV2)
    ensures Shown(s[id := h]) == Shown(s)[id := RecordOf(h)]
  {
  }

  /** A patch of the v2 record shows as the overwriting of the v1 record. */
  lemma PatchRefines(h: HeroV2, u: V2Update, now: int)
    requires ValidField(u.name)
    ensures RecordOf(Patch(h, u, now)) == Overwritten(RecordOf(h), u.name, FirstOf(u.powers), u.isLocked, now)
  {
  }

  lemma StepKeepsReadable(s: StoreV2, op: Op)
    requires ValidOp(op) && Readable(s)
    ensures Readable(StepV2(s, op))
  {
  }

  /** Refinement: whatever v1 and v2 callers do, what v1 shows of the v2 store is what a store
      of v1 records would hold, and no read through v1 ever fails. */
  lemma {:induction false} V1ApiRefinesNativeStore(s: StoreV2, ops: seq<Op>)
    requires forall i :: 0 <= i < |ops| ==> ValidOp(ops[i])
    ensures Shown(RunV2(s, ops)) == RunV1(Shown(s), ops)
    ensures Readable(s) ==> Readable(RunV2(s, ops))
    decreases ops
  {
    if ops != [] {
      StepRefines(s, ops[0]);
      if Readable(s) { StepKeepsReadable(s, ops[0]); }
      V1ApiRefinesNativeStore(StepV2(s, ops[0]), ops[1..]);
    }
  }

  /** No v1 update touches what v1 cannot see, and one that does not name `superpower` keeps
      every power, the ones v1 never shows included. One out of reach changes nothing. */
  lemma V1UpdateKeepsTheRest(s: StoreV2, id: nat, u: V1Update, caller: string, now: int)
    requires id in s
    ensures var t := StepV2(s, UpdateV1(id, u, caller, now));
            && t.Keys == s.Keys && t - {id} == s - {id}
            && t[id].hidden == s[id].hidden && t[id].upkeep == s[id].upkeep && t[id].createdAt == s[id].createdAt
            && (!u.superpower.Given? ==> t[id].powers == s[id].powers)
            && (caller != s[id].upkeep.ownerId || s[id].upkeep.isLocked || s[id].upkeep.archivedAt.Some? ==> t == s)
  {
  }

  /** One within reach stores exactly what it names. */
  lemma V1UpdateStoresWhatItNames(s: StoreV2, id: nat, u: V1Update, caller: string, now: int)
    requires id in s && caller == s[id].upkeep.ownerId && !s[id].upkeep.isLocked && s[id].upkeep.archivedAt.None?
    ensures var t := StepV2(s, UpdateV1(id, u, caller, now));
            if u.superpower.Null? then t == s
            else
              && t[id].updatedAt == now
              && t[id].name == (match u.name case Unset => s[id].name case Null => None case Given(n) => Some(n))
              && t[id].powers == if u.superpower.Given? then Some([u.superpower.value]) else s[id].powers
  {
  }

  /** A locked hero is changed by no delete and no v1 update, and by a v2 update of its owner exactly
      if that sets `is_locked` to false. */
  lemma OnlyUnlockingChangesLocked(s: StoreV2, id: nat, u: V2Update, v: V1Update, caller: string, now: int)
    requires id in s && s[id].upkeep == Upkeep(caller, true, None)
    ensures StepV2(s, Delete(id, caller, now)) == s == StepV2(s, UpdateV1(id, v, caller, now))
    ensures var t := StepV2(s, UpdateV2(id, u, caller, now));
            if u.isLocked == Given(false) then t[id].updatedAt == now && !t[id].upkeep.isLocked else t == s
  {
  }

  /** A hero created through v1 is to v2 one with that name and that single power; a hero without a
      name or powers is to v1 one called "(draft)". */
  lemma VersionsMeet(s: StoreV2, id: nat, p: V1Create, caller: string, now: int, h: HeroV2)
    requires id !in s
    ensures var t := StepV2(s, CreateV1(id, p, caller, now));
            && t - {id} == s - {id} && id in t
            && t[id].name == Some(p.name) && t[id].powers == Some([p.superpower]) && t[id].hidden.powerLevel.None?
            && t[id].upkeep == Upkeep(caller, false, None) && t[id].createdAt == t[id].updatedAt == now
            && !t[id].hidden.isDraft && t[id].hidden.publishAt.None? && t[id].hidden.unpublishAt.None?
    ensures h.name.None? && h.powers.None? ==>
              ToV1(h) == Some(HeroV1("(draft)", "(draft)", h.createdAt, h.updatedAt))
  {
  }

  /** A caller who may change the hero and sends back the superpower it was shown leaves the
      powers alone exactly when there is one: otherwise the powers v1 does not show are lost. */
  lemma EchoKeepsPowersIffSingle(s: StoreV2, id: nat, caller: string, now: int)
    requires id in s && ToV1(s[id]).Some? && Reaches(caller, s[id].upkeep, false)
    ensures var echo := V1Update(Unset, Given(ToV1(s[id]).value.superpower));
            StepV2(s, UpdateV1(id, echo, caller, now))[id].powers == s[id].powers
            <==> s[id].powers.Some? && |s[id].powers.value| == 1
  {
    if s[id].powers.Some? && |s[id].powers.value| == 1 {
      assert s[id].powers.value == [s[id].powers.value[0]];
    }
  }
}
