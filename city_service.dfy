/** CityService: the business rules between the controller and the
    repository. Each method reads and writes the shared table only through
    the repository, and turns missing rows and failed writes into the
    framework's typed exceptions with a fixed message token. */
module Service {
  import opened CityTypes
  import opened CityTable
  import opened Repository

  class CityService {
    const repository: CityRepository

    constructor (repository: CityRepository)
      ensures this.repository == repository
    {
      this.repository := repository;
    }

    /** The stored row with this id, unchanged; NotFound cityNotFound when there is none. */
    method FindById(id: int) returns (r: Outcome<City>)
      requires repository.Valid()
      ensures r == Find(repository.table, id)
    {
      var found := repository.GetById(id);
      if found.None? {
        return NotFound(CITY_NOT_FOUND);
      }
      r := Ok(found.value);
    }

    /** Removes the row with this id. A missing row is NotFound cityNotFound,
        a delete that reports nothing is NotFound CityNotDelete. */
    method DeleteCity(id: int, backend: Backend) returns (r: Outcome<string>)
      requires repository.Valid()
      modifies repository
      ensures repository.Valid()
      ensures (r, repository.Contents()) == DeleteSpec(old(repository.Contents()), id, backend)
    {
      var found := repository.GetById(id);
      if found.None? {
        return NotFound(CITY_NOT_FOUND);
      }
      var deleted := repository.DeleteCity(found.value, backend);
      match deleted
      case Threw =>
        r := Unhandled;
      case Returned(ok) =>
        if !ok {
          return NotFound(CITY_NOT_DELETE);
        }
        r := Ok(CITY_DELETED);
    }

    /** Stores a new city unless its name is already taken; a taken name never
        reaches the repository's create. */
    method CreateCity(dto: CreateCityDto, backend: Backend) returns (r: Outcome<City>)
      requires repository.Valid()
      modifies repository
      ensures repository.Valid()
      ensures (r, repository.Contents()) == CreateSpec(old(repository.Contents()), dto, backend)
      ensures old(NamesDistinct(repository.table)) ==> NamesDistinct(repository.table)
    {
      var existing := repository.GetByName(dto.name);
      if existing.Some? {
        return BadRequest(ENTITY_EXISTS);
      }
      var saved := repository.CreateCity(dto, backend);
      match saved
      case Threw =>
        r := Unhandled;
      case Returned(city) =>
        if city.None? {
          return BadRequest(CITY_NOT_SAVE);
        }
        r := Ok(city.value);
    }

    /** Saves the found row with the supplied fields overlaid. No name check
        is made; a save that returns nothing is passed on as a null value, and
        only a raised error becomes cityNotUpdate. */
    method UpdateCity(id: int, fields: UpdateCityDto, backend: Backend) returns (r: Outcome<Option<City>>)
      requires repository.Valid()
      modifies repository
      ensures repository.Valid()
      ensures (r, repository.Contents()) == UpdateSpec(old(repository.Contents()), id, fields, backend)
    {
      var found := repository.GetById(id);
      if found.None? {
        return NotFound(CITY_NOT_FOUND);
      }
      var saved := repository.UpdateCity(Overlay(found.value, fields), backend);
      match saved
      case Threw =>
        r := BadRequest(CITY_NOT_UPDATE);
      case Returned(city) =>
        r := Ok(city);
    }
  }
}
