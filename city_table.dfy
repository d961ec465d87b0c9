/** The city table as a value, and what each service operation does to it.
    The class methods of the repository, the service and the controller are
    proved against the functions here; the lemmas state what the operations
    promise across calls. */
module CityTable {
  import opened CityTypes

  /** Stored rows by primary key. */
  type Table = map<int, City>

  /** The persisted state: the rows and the next identifier the database hands out. */
  datatype Store = Store(table: Table, nextId: int)

  /** Every row sits under its own id, and every id is below the next one handed out. */
  ghost predicate Wellformed(s: Store) {
    forall k :: k in s.table ==> s.table[k].id == k && k < s.nextId
  }

  /** Some stored row carries this name (what `findOne({ where: { name } })` finds). */
  predicate NameTaken(t: Table, name: string) {
    exists k :: k in t && t[k].name == name
  }

  /** No two stored rows share a name. */
  ghost predicate NamesDistinct(t: Table) {
    forall a, b :: a in t && b in t && a != b ==> t[a].name != t[b].name
  }

  /** `new CityEntity()`: an entity with no column set. */
  const BLANK: Columns := Columns(None, None)

  /** Every column is present. */
  predicate Complete(f: Columns) {
    f.name.Some? && f.stateId.Some?
  }

  /** `{ ...base, ...over }`: a key present in `over` takes its value from
      `over`, every other key keeps the value it has in `base`. */
  function Spread(base: Columns, over: Columns): Columns {
    Columns(if over.name.Some? then over.name else base.name,
            if over.stateId.Some? then over.stateId else base.stateId)
  }

  /** The columns of a stored row, all present. */
  function ColumnsOf(c: City): (f: Columns)
    ensures Complete(f)
  {
    Columns(Some(c.name), Some(c.stateId))
  }

  /** The columns a CreateCityDto carries, all present. */
  function DtoColumns(dto: CreateCityDto): (f: Columns)
    ensures Complete(f)
  {
    Columns(Some(dto.name), Some(dto.stateId))
  }

  /** The row saved under `id` from a complete set of columns. */
  function Entity(id: int, f: Columns): City
    requires Complete(f)
  {
    City(id, f.name.value, f.stateId.value)
  }

  /** Each key the spread-over object carries overrides the base; each key it
      leaves out keeps the base's value. */
  lemma SpreadOverrides(base: Columns, over: Columns)
    ensures over.name.Some? ==> Spread(base, over).name == over.name
    ensures over.name.None? ==> Spread(base, over).name == base.name
    ensures over.stateId.Some? ==> Spread(base, over).stateId == over.stateId
    ensures over.stateId.None? ==> Spread(base, over).stateId == base.stateId
  {
  }

  /** An object carrying every column wins outright, whatever the base holds. */
  lemma SpreadCompleteWins(base: Columns, over: Columns)
    requires Complete(over)
    ensures Spread(base, over) == over
  {
  }

  /** Spreading over a base keeps it complete; the blank entity is neutral on both sides. */
  lemma SpreadUnits(base: Columns, over: Columns)
    ensures Complete(base) ==> Complete(Spread(base, over))
    ensures Spread(BLANK, over) == over && Spread(base, BLANK) == base
  {
  }

  /** Spreading the same object twice is spreading it once, and spreads compose. */
  lemma SpreadComposes(a: Columns, b: Columns, c: Columns)
    ensures Spread(Spread(a, b), b) == Spread(a, b)
    ensures Spread(Spread(a, b), c) == Spread(a, Spread(b, c))
  {
  }

  /** The row the repository saves for a create: the DTO spread over a blank
      entity, under the id the database assigns. */
  function Stored(id: int, dto: CreateCityDto): (c: City)
    ensures c.id == id && c.name == dto.name && c.stateId == dto.stateId
  {
    SpreadCompleteWins(BLANK, DtoColumns(dto));
    Entity(id, Spread(BLANK, DtoColumns(dto)))
  }

  /** `{ ...foundCity, ...fields }`: the fields the update supplies win, the
      id and the rest of the record are kept. */
  function Overlay(c: City, u: UpdateCityDto): (r: City)
    ensures r.id == c.id
    ensures r.name == (if u.name.Some? then u.name.value else c.name)
    ensures r.stateId == (if u.stateId.Some? then u.stateId.value else c.stateId)
  {
    SpreadUnits(ColumnsOf(c), u);
    Entity(c.id, Spread(ColumnsOf(c), u))
  }

  /** CityService.findById over the table. */
  function Find(t: Table, id: int): (r: Outcome<City>)
    ensures r.Ok? <==> id in t
    ensures r.Ok? ==> r.value == t[id]
    ensures !r.Ok? ==> r == NotFound(CITY_NOT_FOUND)
  {
    if id in t then Ok(t[id]) else NotFound(CITY_NOT_FOUND)
  }

  /** CityService.createCity: reject a taken name, otherwise have the
      repository save the DTO and report a save that returned nothing. */
  function CreateSpec(s: Store, dto: CreateCityDto, backend: Backend): (r: (Outcome<City>, Store))
    ensures r.0 == BadRequest(ENTITY_EXISTS) <==> NameTaken(s.table, dto.name)
    ensures r.0 == BadRequest(CITY_NOT_SAVE) <==> !NameTaken(s.table, dto.name) && backend == ReturnsNothing
    ensures r.0 == Unhandled <==> !NameTaken(s.table, dto.name) && backend == Throws
    ensures r.0.Ok? <==> !NameTaken(s.table, dto.name) && backend == Commits
    ensures r.0.Ok? ==> r.0.value.name == dto.name && r.0.value.stateId == dto.stateId
    ensures r.0.Ok? ==> r.1.table == s.table[r.0.value.id := r.0.value]
    ensures r.0.Ok? && Wellformed(s) ==> r.0.value.id !in s.table
    ensures !r.0.Ok? ==> r.1 == s
    ensures Wellformed(s) ==> Wellformed(r.1)
    ensures NamesDistinct(s.table) ==> NamesDistinct(r.1.table)
  {
    if NameTaken(s.table, dto.name) then (BadRequest(ENTITY_EXISTS), s)
    else match backend
      case Commits =>
        var c := Stored(s.nextId, dto);
        (Ok(c), Store(s.table[c.id := c], s.nextId + 1))
      case ReturnsNothing => (BadRequest(CITY_NOT_SAVE), s)
      case Throws => (Unhandled, s)
  }

  /** CityService.updateCity: a missing id is NotFound; otherwise the found row
      with the supplied fields overlaid is saved. A save that returns nothing is
      passed on as a null value; only a raised error becomes cityNotUpdate. */
  function UpdateSpec(s: Store, id: int, u: UpdateCityDto, backend: Backend): (r: (Outcome<Option<City>>, Store))
    requires Wellformed(s)
    ensures id !in s.table ==> r == (NotFound(CITY_NOT_FOUND), s)
    ensures id in s.table && backend == Commits ==>
              r.0 == Ok(Some(Overlay(s.table[id], u))) && r.1.table == s.table[id := Overlay(s.table[id], u)]
    ensures id in s.table && backend == ReturnsNothing ==> r == (Ok(None), s)
    ensures id in s.table && backend == Throws ==> r == (BadRequest(CITY_NOT_UPDATE), s)
    ensures r.1.table.Keys == s.table.Keys
    ensures forall k :: k in s.table && k != id ==> r.1.table[k] == s.table[k]
    ensures r.1.nextId == s.nextId && Wellformed(r.1)
  {
    if id !in s.table then (NotFound(CITY_NOT_FOUND), s)
    else
      var merged := Overlay(s.table[id], u);
      match backend
      case Commits => (Ok(Some(merged)), Store(s.table[merged.id := merged], s.nextId))
      case ReturnsNothing => (Ok(None), s)
      case Throws => (BadRequest(CITY_NOT_UPDATE), s)
  }

  /** CityService.deleteCity: a missing id is NotFound cityNotFound, a delete
      that reports nothing is NotFound CityNotDelete, otherwise the row is gone
      and the fixed success text is returned. */
  function DeleteSpec(s: Store, id: int, backend: Backend): (r: (Outcome<string>, Store))
    requires Wellformed(s)
    ensures r.0 == NotFound(CITY_NOT_FOUND) <==> id !in s.table
    ensures r.0 == NotFound(CITY_NOT_DELETE) <==> id in s.table && backend == ReturnsNothing
    ensures r.0 == Unhandled <==> id in s.table && backend == Throws
    ensures r.0.Ok? <==> id in s.table && backend == Commits
    ensures r.0.Ok? ==> r.0.value == CITY_DELETED && r.1.table.Keys == s.table.Keys - {id}
    ensures forall k :: k in r.1.table ==> k in s.table && r.1.table[k] == s.table[k]
    ensures !r.0.Ok? ==> r.1 == s
    ensures Wellformed(r.1)
    ensures NamesDistinct(s.table) ==> NamesDistinct(r.1.table)
  {
    if id !in s.table then (NotFound(CITY_NOT_FOUND), s)
    else match backend
      case Commits => (Ok(CITY_DELETED), Store(s.table - {s.table[id].id}, s.nextId))
      case ReturnsNothing => (NotFound(CITY_NOT_DELETE), s)
      case Throws => (Unhandled, s)
  }

  /** The store after a series of createCity calls, each awaited before the next. */
  function RunCreates(s: Store, calls: seq<(CreateCityDto, Backend)>): Store
    decreases |calls|
  {
    if calls == [] then s
    else RunCreates(CreateSpec(s, calls[0].0, calls[0].1).1, calls[1..])
  }

  /** Names stay pairwise distinct, and the store well formed, across any
      series of createCity calls. */
  lemma {:induction false} CreatesKeepNamesDistinct(s: Store, calls: seq<(CreateCityDto, Backend)>)
    requires Wellformed(s) && NamesDistinct(s.table)
    ensures Wellformed(RunCreates(s, calls)) && NamesDistinct(RunCreates(s, calls).table)
    decreases |calls|
  {
    if calls != [] {
      CreatesKeepNamesDistinct(CreateSpec(s, calls[0].0, calls[0].1).1, calls[1..]);
    }
  }

  /** A series of createCity calls never removes or alters a row it found. */
  lemma {:induction false} CreatesOnlyAdd(s: Store, calls: seq<(CreateCityDto, Backend)>)
    requires Wellformed(s)
    ensures forall k :: k in s.table ==> k in RunCreates(s, calls).table && RunCreates(s, calls).table[k] == s.table[k]
    decreases |calls|
  {
    if calls != [] {
      var next := CreateSpec(s, calls[0].0, calls[0].1).1;
      CreatesOnlyAdd(next, calls[1..]);
    }
  }

  /** A created row is then found under its id, unchanged. */
  lemma CreateThenFind(s: Store, dto: CreateCityDto, backend: Backend)
    requires Wellformed(s)
    ensures var r := CreateSpec(s, dto, backend);
            r.0.Ok? ==> Find(r.1.table, r.0.value.id) == Ok(r.0.value)
  {
  }

  /** After an update that committed, the row is found with the fields overlaid. */
  lemma UpdateThenFind(s: Store, id: int, u: UpdateCityDto, backend: Backend)
    requires Wellformed(s)
    ensures var r := UpdateSpec(s, id, u, backend);
            r.0.Ok? && r.0.value.Some? ==> Find(r.1.table, id) == Ok(Overlay(s.table[id], u))
  {
  }

  /** After a delete that succeeded, looking the id up is NotFound, and a
      second delete of it is NotFound cityNotFound. */
  lemma DeleteThenFind(s: Store, id: int, backend: Backend, again: Backend)
    requires Wellformed(s)
    ensures var r := DeleteSpec(s, id, backend);
            r.0.Ok? ==> Find(r.1.table, id) == NotFound(CITY_NOT_FOUND)
                        && DeleteSpec(r.1, id, again).0 == NotFound(CITY_NOT_FOUND)
  {
  }

  /** Asking twice for a name that the first call stored is refused the second time. */
  lemma CreateTwiceRefused(s: Store, dto: CreateCityDto, b1: Backend, b2: Backend)
    requires b1 == Commits
    ensures CreateSpec(CreateSpec(s, dto, b1).1, dto, b2).0 == BadRequest(ENTITY_EXISTS)
  {
    var c := CreateSpec(s, dto, b1);
    if NameTaken(s.table, dto.name) {
      assert c.1 == s;
    } else {
      assert c.1.table[c.0.value.id].name == dto.name;
    }
  }

  /** The update path does no name check: it can give two rows the same name. */
  lemma UpdateCanDuplicateName()
    ensures var s := Store(map[1 := City(1, "Cidade 1", 1), 2 := City(2, "Cidade 2", 1)], 3);
            Wellformed(s) && NamesDistinct(s.table) &&
            !NamesDistinct(UpdateSpec(s, 2, Columns(Some("Cidade 1"), None), Commits).1.table)
  {
    var s := Store(map[1 := City(1, "Cidade 1", 1), 2 := City(2, "Cidade 2", 1)], 3);
    var t := UpdateSpec(s, 2, Columns(Some("Cidade 1"), None), Commits).1.table;
    assert t[1].name == t[2].name;
  }

  /** Overlaying the same fields twice is the same as overlaying them once. */
  lemma OverlayIdempotent(c: City, u: UpdateCityDto)
    ensures Overlay(Overlay(c, u), u) == Overlay(c, u)
  {
  }

  /** An update that supplies no field leaves the record as it was. */
  lemma OverlayEmpty(c: City)
    ensures Overlay(c, BLANK) == c
  {
  }

  /** Updating {id 1, "Cidade 1", state 1} with {"Cidade 2", state 2} stores {id 1, "Cidade 2", state 2}. */
  lemma UpdateExample()
    ensures var s := Store(map[1 := City(1, "Cidade 1", 1)], 2);
            UpdateSpec(s, 1, Columns(Some("Cidade 2"), Some(2)), Commits)
              == (Ok(Some(City(1, "Cidade 2", 2))), Store(map[1 := City(1, "Cidade 2", 2)], 2))
  {
    var t := map[1 := City(1, "Cidade 1", 1)];
    assert t[1 := City(1, "Cidade 2", 2)] == map[1 := City(1, "Cidade 2", 2)];
  }
}
