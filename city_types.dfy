/** Value types of the cities module: the stored City record, the request
    bodies, the State and municipality records the bulk import reads, and the
    outcome and reply types that stand for the framework's exceptions. */
module CityTypes {

  datatype Option<+T> = None | Some(value: T)

  /** A stored city row (CityEntity without its timestamps and its state relation). */
  datatype City = City(id: int, name: string, stateId: int)

  /** Body of `POST /city/create` (CreateCityDto). */
  datatype CreateCityDto = CreateCityDto(name: string, stateId: int)

  /** The non-key columns of a city as a JavaScript object holds them: each
      key present or left out. A fresh `new CityEntity()` sets none of them. */
  datatype Columns = Columns(name: Option<string>, stateId: Option<int>)

  /** Body of `PATCH /city/update/:id`: any column may be left out. */
  type UpdateCityDto = Columns

  /** A local state row, as the state service lists it. */
  datatype State = State(id: int, name: string, initials: string)

  /** The part of a municipality of the IBGE listing that the bulk import reads:
      its name (`nome`) and `microrregiao.mesorregiao.UF.sigla`. */
  datatype Uf = Uf(sigla: string)
  datatype Mesoregion = Mesoregion(uf: Uf)
  datatype Microregion = Microregion(mesorregiao: Mesoregion)
  datatype Municipality = Municipality(nome: string, microrregiao: Microregion)

  function Sigla(m: Municipality): string {
    m.microrregiao.mesorregiao.uf.sigla
  }

  /** A route parameter that is a number or is not one (class-validator's isNumber). */
  datatype IdParam = Num(n: int) | NotNum

  /** What the database does with one write: it stores the change and returns
      it, returns nothing and stores nothing, or raises an error. */
  datatype Backend = Commits | ReturnsNothing | Throws

  /** What a repository call gives its caller: a value, or an exception. */
  datatype Reply<+T> = Returned(value: T) | Threw

  /** What a service or controller call gives the HTTP layer: a value, a
      NotFoundException or BadRequestException with its message token, or an
      exception that no layer translated. */
  datatype Outcome<+T> =
    | Ok(value: T)
    | NotFound(message: string)
    | BadRequest(message: string)
    | Unhandled

  const CITY_NOT_FOUND := "cityNotFound"
  const CITY_NOT_DELETE := "CityNotDelete"
  const CITY_DELETED := "Cidade deletada com sucesso"
  const ENTITY_EXISTS := "entityWithArgumentsExists"
  const CITY_NOT_SAVE := "cityNotSave"
  const CITY_NOT_UPDATE := "cityNotUpdate"
  const FIELD_MUST_BE_NUMBER := "FieldMustBeNumber"
  const CITIES_SAVED := "Cidades salvas com sucesso"
}
