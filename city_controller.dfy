/** CityController: the HTTP endpoints of the cities module. `getById`
    guards its parameter, the other single-row endpoints hand their
    arguments to the service unchanged, and `createAllCities` pairs each
    municipality of the IBGE listing with a local state by its UF code. */
module Controller {
  import opened CityTypes
  import opened CityTable
  import opened Repository
  import opened Service

  /** `states[k]` is the first state whose initials are `sigla`. */
  ghost predicate FirstMatchAt(states: seq<State>, sigla: string, k: int) {
    && 0 <= k < |states|
    && states[k].initials == sigla
    && forall j :: 0 <= j < k ==> states[j].initials != sigla
  }

  /** `states.find(({ initials }) => sigla === initials)`. */
  function FindState(states: seq<State>, sigla: string): (r: Option<State>)
    ensures r.None? <==> forall j :: 0 <= j < |states| ==> states[j].initials != sigla
    ensures r.Some? ==> exists k :: FirstMatchAt(states, sigla, k) && r.value == states[k]
  {
    if |states| == 0 then None
    else if states[0].initials == sigla then
      assert FirstMatchAt(states, sigla, 0);
      Some(states[0])
    else
      var r := FindState(states[1..], sigla);
      assert r.Some? ==> exists k :: FirstMatchAt(states, sigla, k) && r.value == states[k] by {
        if r.Some? {
          var k :| FirstMatchAt(states[1..], sigla, k) && r.value == states[1..][k];
          assert FirstMatchAt(states, sigla, k + 1);
        }
      }
      r
  }

  class CityController {
    const service: CityService

    constructor (service: CityService)
      ensures this.service == service
    {
      this.service := service;
    }

    /** `GET /city/:id`: a parameter that is not a number is refused before
        the service is asked; a number gets exactly the service's answer. */
    method GetById(id: IdParam) returns (r: Outcome<City>)
      requires service.repository.Valid()
      ensures id.NotNum? ==> r == BadRequest(FIELD_MUST_BE_NUMBER)
      ensures id.Num? ==> r == Find(service.repository.table, id.n)
    {
      if id.NotNum? {
        return BadRequest(FIELD_MUST_BE_NUMBER);
      }
      r := service.FindById(id.n);
    }

    /** `DELETE /city/:id`: the service's deleteCity, unchanged. */
    method DeleteById(id: int, backend: Backend) returns (r: Outcome<string>)
      requires service.repository.Valid()
      modifies service.repository
      ensures service.repository.Valid()
      ensures (r, service.repository.Contents()) == DeleteSpec(old(service.repository.Contents()), id, backend)
    {
      r := service.DeleteCity(id, backend);
    }

    /** `POST /city/create`: the service's createCity, unchanged. */
    method CreateCity(newCity: CreateCityDto, backend: Backend) returns (r: Outcome<City>)
      requires service.repository.Valid()
      modifies service.repository
      ensures service.repository.Valid()
      ensures (r, service.repository.Contents()) == CreateSpec(old(service.repository.Contents()), newCity, backend)
    {
      r := service.CreateCity(newCity, backend);
    }

    /** `PATCH /city/update/:id`: the service's updateCity, unchanged. */
    method UpdateCity(id: int, fields: UpdateCityDto, backend: Backend) returns (r: Outcome<Option<City>>)
      requires service.repository.Valid()
      modifies service.repository
      ensures service.repository.Valid()
      ensures (r, service.repository.Contents()) == UpdateSpec(old(service.repository.Contents()), id, fields, backend)
    {
      r := service.UpdateCity(id, fields, backend);
    }

    /** `POST /city/createAllCities` over the fetched listing and the local
        states. Municipalities are handled in order; each matched one
        dispatches one create. The first one without a state stops the loop
        (reading the id of a missing state throws), the error is caught and
        nothing is returned; otherwise the fixed success text is. */
    method CreateAllCities(remote: seq<Municipality>, states: seq<State>)
      returns (dispatched: seq<CreateCityDto>, reply: Option<string>)
      ensures |dispatched| <= |remote|
      ensures forall i :: 0 <= i < |dispatched| ==>
                && FindState(states, Sigla(remote[i])).Some?
                && dispatched[i].name == remote[i].nome
                && dispatched[i].stateId == FindState(states, Sigla(remote[i])).value.id
      ensures reply.Some? <==> forall i :: 0 <= i < |remote| ==> FindState(states, Sigla(remote[i])).Some?
      ensures reply.Some? ==> reply.value == CITIES_SAVED && |dispatched| == |remote|
      ensures reply.None? ==> |dispatched| < |remote| && FindState(states, Sigla(remote[|dispatched|])).None?
    {
      dispatched := [];
      var i := 0;
      while i < |remote|
        invariant 0 <= i <= |remote| && |dispatched| == i
        invariant forall j :: 0 <= j < i ==>
                    && FindState(states, Sigla(remote[j])).Some?
                    && dispatched[j].name == remote[j].nome
                    && dispatched[j].stateId == FindState(states, Sigla(remote[j])).value.id
      {
        var state := FindState(states, Sigla(remote[i]));
        if state.None? {
          return dispatched, None;
        }
        dispatched := dispatched + [CreateCityDto(remote[i].nome, state.value.id)];
        i := i + 1;
      }
      reply := Some(CITIES_SAVED);
    }
  }
}
