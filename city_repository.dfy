/** CityRepository: the data-access layer, over an in-memory table that
    stands for the ORM's city table. Lookups read the table; the three writes
    change it as the database's response to the write (`Backend`) says. */
module Repository {
  import opened CityTypes
  import opened CityTable

  class CityRepository {
    var table: Table
    var nextId: int

    /** The persisted state as a value. */
    function Contents(): Store
      reads this
    {
      Store(table, nextId)
    }

    ghost predicate Valid()
      reads this
    {
      Wellformed(Contents())
    }

    /** Wraps the rows the database already holds. */
    constructor (initial: Store)
      requires Wellformed(initial)
      ensures Valid() && Contents() == initial
    {
      table := initial.table;
      nextId := initial.nextId;
    }

    /** `findOne({ where: { id } })`. */
    method GetById(id: int) returns (r: Option<City>)
      requires Valid()
      ensures r.Some? <==> id in table
      ensures r.Some? ==> r.value == table[id] && r.value.id == id
    {
      if id in table {
        r := Some(table[id]);
      } else {
        r := None;
      }
    }

    /** `findOne({ where: { name } })`: some row with that name, if there is one. */
    method GetByName(name: string) returns (r: Option<City>)
      requires Valid()
      ensures r.Some? <==> NameTaken(table, name)
      ensures r.Some? ==> r.value.name == name && r.value.id in table && table[r.value.id] == r.value
    {
      if k :| k in table && table[k].name == name {
        r := Some(table[k]);
      } else {
        r := None;
      }
    }

    /** `find()`: every stored row, each once, in no promised order. */
    method GetByAll() returns (rows: seq<City>)
      requires Valid()
      ensures |rows| == |table|
      ensures forall i :: 0 <= i < |rows| ==> rows[i].id in table && table[rows[i].id] == rows[i]
      ensures forall k :: k in table ==> table[k] in rows
      ensures forall i, j :: 0 <= i < j < |rows| ==> rows[i].id != rows[j].id
    {
      rows := [];
      var rest := table.Keys;
      while rest != {}
        invariant rest <= table.Keys
        invariant |rows| + |rest| == |table.Keys|
        invariant forall i :: 0 <= i < |rows| ==> rows[i].id in table && rows[i].id !in rest && table[rows[i].id] == rows[i]
        invariant forall k :: k in table && k !in rest ==> table[k] in rows
        invariant forall i, j :: 0 <= i < j < |rows| ==> rows[i].id != rows[j].id
        decreases |rest|
      {
        if forall key :: key !in rest {
          assert false;  // rest is not empty
        }
        var k :| k in rest;
        rows := rows + [table[k]];
        rest := rest - {k};
      }
    }

    /** `save({ ...new CityEntity(), ...dto })`: the database assigns the next id. */
    method CreateCity(dto: CreateCityDto, backend: Backend) returns (r: Reply<Option<City>>)
      requires Valid()
      modifies this
      ensures Valid()
      ensures backend == Commits ==>
                && r == Returned(Some(Stored(old(nextId), dto)))
                && table == old(table)[old(nextId) := Stored(old(nextId), dto)]
                && nextId == old(nextId) + 1
      ensures backend == ReturnsNothing ==> r == Returned(None) && Contents() == old(Contents())
      ensures backend == Throws ==> r == Threw && Contents() == old(Contents())
    {
      match backend
      case Commits =>
        var c := Stored(nextId, dto);
        table := table[c.id := c];
        nextId := nextId + 1;
        r := Returned(Some(c));
      case ReturnsNothing =>
        r := Returned(None);
      case Throws =>
        r := Threw;
    }

    /** `delete(city)`: true when the delete reported a result, false when it
        reported nothing; an error from the database passes through. */
    method DeleteCity(city: City, backend: Backend) returns (r: Reply<bool>)
      requires Valid()
      modifies this
      ensures Valid()
      ensures backend == Commits ==> r == Returned(true) && table == old(table) - {city.id} && nextId == old(nextId)
      ensures backend == ReturnsNothing ==> r == Returned(false) && Contents() == old(Contents())
      ensures backend == Throws ==> r == Threw && Contents() == old(Contents())
    {
      match backend
      case Commits =>
        table := table - {city.id};
        r := Returned(true);
      case ReturnsNothing =>
        r := Returned(false);
      case Throws =>
        r := Threw;
    }

    /** `save(city)`: the whole record is stored under its id and returned. */
    method UpdateCity(city: City, backend: Backend) returns (r: Reply<Option<City>>)
      requires Valid()
      modifies this
      ensures Valid()
      ensures backend == Commits ==>
                && r == Returned(Some(city))
                && table == old(table)[city.id := city]
                && nextId == (if city.id < old(nextId) then old(nextId) else city.id + 1)
      ensures backend == ReturnsNothing ==> r == Returned(None) && Contents() == old(Contents())
      ensures backend == Throws ==> r == Threw && Contents() == old(Contents())
    {
      match backend
      case Commits =>
        table := table[city.id := city];
        if nextId <= city.id {
          nextId := city.id + 1;
        }
        r := Returned(Some(city));
      case ReturnsNothing =>
        r := Returned(None);
      case Throws =>
        r := Threw;
    }
  }
}
