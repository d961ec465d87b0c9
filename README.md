# Cities module: a Dafny model

This project models the cities module of a REST service that keeps City
records (id, name, state reference) tied to State records. The module has
three layers:

- `CityRepository` is the data-access layer over the city table. Here the
  table is an in-memory `map<int, City>` inside a class, together with the
  next id the database hands out.
- `CityService` checks that a row exists or that a name is free. It turns
  missing rows and failed writes into NotFound or BadRequest errors, each
  with a fixed message token.
- `CityController` holds the HTTP endpoints. `getById` guards its
  parameter, and the other single-row endpoints delegate to the service.
  `createAllCities` pairs each municipality of the IBGE listing with the
  first local state whose initials equal the municipality's UF code. It
  then dispatches one create per municipality.

Files:

- `city_types.dfy` (module `CityTypes`): records, request bodies, message
  tokens, and the outcome and reply types.
- `city_table.dfy` (module `CityTable`): the table as a value, and one
  specification function per service operation (`Find`, `CreateSpec`,
  `UpdateSpec`, `DeleteSpec`), with the lemmas about them.
- `city_repository.dfy`, `city_service.dfy`, `city_controller.dfy`: the
  three classes. Their state-changing methods are proved against the
  specification functions:
  `ensures (r, Contents()) == Spec(old(Contents()), …)`.
  The controller's delegating endpoints carry the same postcondition as the
  service method they call. That is how "passes its arguments unchanged and
  returns the service's result" is stated.

Every database write takes an input (`Backend`) saying what the database does
with it. It can store the change, return nothing, or raise an error. This
over-approximates the ORM. There, `save` resolves to the saved entity and
`delete` resolves to a DeleteResult object, which is always truthy. So the
service's `cityNotSave` and `CityNotDelete` branches are defensive code. They
cannot occur against the real ORM, but the model can still state them. The
null pass-through of an update is stated the same way. An error the service
does not translate is the outcome `Unhandled`.

What the code does and does not check:

- The entity has a `deletedAt` timestamp (the test fixture sets it at
  src/utils/tests-city.ts:15), but the repository calls
  `delete`, not `softDelete`. The model therefore removes the row.
- No layer checks that `state_id` names an existing state, so the model does
  not either.
- Only `createCity` checks that a name is free. `updateCity` can rename a row
  to a name already in use (`CityTable.UpdateCanDuplicateName`). This assumes
  the table has no unique index on `name`; see "## Left out".

The service's unit tests expect `cityNotUpdate` when the update's save
returns null. The code returns the null value, and the model follows the
code.

## Model

| member | source | states |
|---|---|---|
| `CityTable.Stored` | src/modules/cities/city.repository.ts:24-29 | the row saved for a create, built as the DTO spread over a blank entity, carries the DTO's name and state_id under the id the database assigns |
| `CityTable.SpreadOverrides` | src/modules/cities/city.repository.ts:26-29 | in `{ ...base, ...over }`, every key that `over` carries overrides the base, and every key it leaves out keeps the base's value |
| `CityTable.SpreadCompleteWins` | src/modules/cities/city.repository.ts:26-29 | an object carrying every column wins outright over any base, so the blank entity contributes nothing to a created row |
| `CityTable.SpreadUnits` | src/modules/cities/services/city.service.ts:70-73 | spreading over a complete record leaves it complete; the blank entity is neutral on either side |
| `CityTable.SpreadComposes` | src/modules/cities/services/city.service.ts:70-73 | spreading the same object twice equals spreading it once, and two spreads compose into one |
| `CityTable.Overlay` | src/modules/cities/services/city.service.ts:70-73 | the merged record, built with the same spread as the create path, keeps the found id; each supplied field replaces the stored one, each unsupplied field is kept |
| `CityTable.Find` | src/modules/cities/services/city.service.ts:15-22 | Ok exactly when the id is stored, with the stored record unchanged; otherwise NotFound `cityNotFound` |
| `CityTable.CreateSpec` | src/modules/cities/services/city.service.ts:44-57 | a taken name gives BadRequest `entityWithArgumentsExists` and writes nothing; a free name with a save that returns nothing gives BadRequest `cityNotSave`; Ok exactly when the name is free and the save commits, and then the record has the DTO's name and state_id under a fresh id and is the only change; no failure changes the store; it keeps the store well formed and the names pairwise distinct |
| `CityTable.UpdateSpec` | src/modules/cities/services/city.service.ts:59-79 | a missing id gives NotFound `cityNotFound` and writes nothing; a committed save stores and returns the found row with the fields overlaid; a null save result is passed on as a null value; only a raised error becomes BadRequest `cityNotUpdate`; the set of ids, every other row and the next id are kept |
| `CityTable.DeleteSpec` | src/modules/cities/services/city.service.ts:28-42 | NotFound `cityNotFound` exactly when the id is missing; NotFound `CityNotDelete` exactly when the delete reports nothing; Ok `Cidade deletada com sucesso` exactly when it commits, and then only that id is gone; no row is altered; a failure changes nothing; well-formedness and distinct names are kept |
| `CityTable.CreatesKeepNamesDistinct` | src/modules/cities/services/city.service.ts:44-57 | across any series of createCity calls, whatever the database does with each save, names stay pairwise distinct and the store stays well formed |
| `CityTable.CreatesOnlyAdd` | src/modules/cities/services/city.service.ts:44-57 | a series of createCity calls never removes or alters a row that was already stored |
| `CityTable.CreateThenFind` | src/modules/cities/services/city.service.ts:15-57 | a row that createCity stored is then found by its id, unchanged |
| `CityTable.UpdateThenFind` | src/modules/cities/services/city.service.ts:15-79 | after a committed update, findById returns the found row with the fields overlaid |
| `CityTable.DeleteThenFind` | src/modules/cities/services/city.service.ts:15-42 | after a successful delete, findById and a second delete of the same id both give NotFound `cityNotFound` |
| `CityTable.CreateTwiceRefused` | src/modules/cities/services/city.service.ts:45-49 | creating the same name again after a committed create is refused with `entityWithArgumentsExists` |
| `CityTable.UpdateCanDuplicateName` | src/modules/cities/services/city.service.ts:59-73 | updateCity makes no name check, so on a table without a unique index on name, a store with distinct names can end up with two rows of one name |
| `CityTable.OverlayIdempotent` | src/modules/cities/services/city.service.ts:70-73 | overlaying the same fields twice equals overlaying them once |
| `CityTable.OverlayEmpty` | src/modules/cities/services/city.service.ts:70-73 | an update that supplies no field leaves the record as it was |
| `CityTable.UpdateExample` | src/modules/cities/services/city.service.ts:59-79 | updating {1, "Cidade 1", 1} with {"Cidade 2", 2} stores and returns {1, "Cidade 2", 2} |
| `Repository.CityRepository.constructor` | src/modules/cities/city.repository.ts:9-11 | the repository wraps whatever well-formed rows the database already holds |
| `Repository.CityRepository.GetById` | src/modules/cities/city.repository.ts:12-14 | returns a row exactly when the id is stored: the stored row, whose id is the argument |
| `Repository.CityRepository.GetByName` | src/modules/cities/city.repository.ts:16-18 | returns a row exactly when some stored row has the name, and the row returned is a stored row with that name |
| `Repository.CityRepository.GetByAll` | src/modules/cities/city.repository.ts:20-22 | returns every stored row exactly once: as many rows as the table holds, each a stored row, every stored row present, no id twice |
| `Repository.CityRepository.CreateCity` | src/modules/cities/city.repository.ts:24-33 | a committed save stores the DTO's fields under the next id, advances the id and returns the stored row; a save that returns nothing or raises changes nothing |
| `Repository.CityRepository.DeleteCity` | src/modules/cities/city.repository.ts:35-40 | true when the delete committed, and then that row is removed; false when the delete reported nothing, and nothing changes; the repository raises nothing of its own |
| `Repository.CityRepository.UpdateCity` | src/modules/cities/city.repository.ts:42-45 | a committed save stores the whole record under its id and returns it; otherwise nothing changes |
| `Service.CityService.constructor` | src/modules/cities/services/city.service.ts:13 | the service works on the repository it is given |
| `Service.CityService.FindById` | src/modules/cities/services/city.service.ts:15-22 | the answer is `Find` of the table: the stored record, or NotFound `cityNotFound` |
| `Service.CityService.DeleteCity` | src/modules/cities/services/city.service.ts:28-42 | answer and new store are those of `DeleteSpec` |
| `Service.CityService.CreateCity` | src/modules/cities/services/city.service.ts:44-57 | answer and new store are those of `CreateSpec`; distinct names stay distinct |
| `Service.CityService.UpdateCity` | src/modules/cities/services/city.service.ts:59-79 | answer and new store are those of `UpdateSpec` |
| `Controller.FindState` | src/modules/cities/controllers/city.controller.ts:50-52 | nothing exactly when no state has the initials; otherwise the state at the first index whose initials match |
| `Controller.CityController.constructor` | src/modules/cities/controllers/city.controller.ts:27-30 | the controller works on the service it is given |
| `Controller.CityController.GetById` | src/modules/cities/controllers/city.controller.ts:32-39 | a parameter that is not a number gives BadRequest `FieldMustBeNumber` without consulting the service; a number gets exactly the service's findById answer |
| `Controller.CityController.CreateAllCities` | src/modules/cities/controllers/city.controller.ts:41-65 | dispatches, in input order, one create per municipality, whose name is the municipality's `nome` and whose state_id is the id of its first matching state; stops at the first municipality with no matching state and then returns nothing; returns `Cidades salvas com sucesso` exactly when every municipality matched, and then all were dispatched |
| `Controller.CityController.DeleteById` | src/modules/cities/controllers/city.controller.ts:71-74 | answer and new store are those of the service's deleteCity (`DeleteSpec`) on the same arguments |
| `Controller.CityController.CreateCity` | src/modules/cities/controllers/city.controller.ts:81-86 | answer and new store are those of the service's createCity (`CreateSpec`) on the same arguments |
| `Controller.CityController.UpdateCity` | src/modules/cities/controllers/city.controller.ts:93-100 | answer and new store are those of the service's updateCity (`UpdateSpec`) on the same arguments |

## Left out

- The HTTP fetch of the IBGE municipality listing and `stateService.getByAll()` are I/O. The listing and the state list are parameters of `CreateAllCities`. A failed fetch is caught like any other error, and the endpoint then returns nothing without dispatching anything. The model does not represent that failure.
- `CreateAllCities`: the creates it dispatches are not awaited, so they run concurrently and their duplicate-name checks race. The model returns the sequence of dispatched creates and does not apply them to the table. Their interleaving and their unhandled rejections are not modelled.
- `console.log` in the import's catch branch is not modelled.
- Every lookup (`getById`, `getByName`, `find`) succeeds in the model. A database error on a read is not modelled.
- Id generation is an auto-increment counter. The ORM's own id generation and the createdAt/updatedAt/deletedAt timestamps are not modelled. A `save` of a record whose id is at or above the counter moves the counter past it. Only the repository's `updateCity` can do that, and the service never calls it that way.
- What `delete(entity)` matches when given an entity as criteria: the model deletes by the entity's id.
- Which row `findOne({ where: { name } })` returns when several rows share a name: the model may return any of them.
- The declaration of `UpdateCityDto` (src/modules/cities/dto/update-city.dto.ts) is not among the files this model was built from. The model treats it as two optional fields, name and state_id. Other body keys are not modelled: an explicit `null`, or an `id`, would also be spread over the found record.
- Route parameters arrive as text, and whether they are numbers depends on framework pipes that are not modelled. `getById` takes a number or a non-number (`IdParam`). Floating-point ids and NaN are not modelled. The other endpoints take an integer.
- The class-validator decorators on `CreateCityDto`, the `ValidationPipe`, Swagger metadata and dependency injection are not modelled. The DTO is only a record of name and state_id. Other keys of a create body are not modelled either. An `id`, for one, would also be spread into the save and turn the create into an overwrite of that row. `CityTable.CreatesOnlyAdd` does not cover that case.
- A municipality whose `microrregiao` chain is missing would also throw inside the import loop. The model's municipality record always has the chain.
- `CityTable.NameTaken`, `Repository.CityRepository.GetByName`, `CityTable.CreateSpec` and `CityTable.UpdateCanDuplicateName`: names compare by exact equality. A case- or accent-insensitive collation on the `name` column would make createCity refuse more names than the model does. The schema is assumed to have no unique index on `name`. With one, an update to a name in use would raise in the save and end in BadRequest `cityNotUpdate` instead of duplicating the name. The city entity's schema is not part of this model.
