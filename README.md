# Hotel back office: the room write path, in Dafny

This project models the core of a small hotel back-office service. That core
has two parts. The first is the generic CRUD layer `GenericService<T>`, which
lists, gets, saves, deletes and updates any `IEntity` (an id plus a creation
timestamp) over a repository keyed by id. The second is the room service
`RoomService`, which builds on that layer. Every room it reads comes back
with its room type and room status attached. Every room it writes first
passes these checks, in order:

1. the room number must be unique;
2. the daily rate must be at least 60.00;
3. the referenced type and status must both exist.

The room is written only after all three.

The model has three layers:

- **Tables** (`Tables.dfy`) stand for the repositories: a map from id to
  entity, plus the next id the store will assign.
  - `Put`, `Remove` and `Get` give the store's own `save`, `deleteById` and
    `findById`.
  - The class `Repository<D>` holds a table and changes it in place.
  - The store keeps only the columns it maps. For rooms it drops the two
    transient references.
- **Outcome functions** (`Generic.dfy`, `RoomOutcomes.dfy`) say what each
  operation returns, and the table after it, as a function of the tables
  before.
  - A room write also returns the stages it went through, in order: load
    the existing room, check uniqueness, check the rate, resolve the
    dependencies, persist.
  - The stages let the model state what a write did *not* do. For example,
    a duplicate room number stops the write before any type or status
    lookup and before any store write.
- **Service classes** (`GenericService<D>` in `Generic.dfy`, `RoomService`
  in `RoomService.dfy`) perform each operation step by step on the
  repositories.
  - Every write method, and each `findById`, is proved to end in exactly
    the result and state of its outcome function.
  - The room service's `findAll`, `findByRoomNumber` and
    `checkRoomNumberUniqueness` state their results directly in their own
    contracts.
  - `RoomService` keeps a ghost `trace` of the stages it has run, and each
    write is proved to extend it by exactly the stages its outcome function
    lists.
  - Lemmas about the outcome functions prove the rest:
    - room numbers stay unique, rates stay at or above 60 and no stored row
      keeps a transient reference;
    - a saved or updated room is found again exactly as the write returned
      it;
    - `update` keeps the stored `createdAt`;
    - `update` never reports the "Quarto não encontrado para atualização!"
      message.

Some behaviours of the code are easy to misread; the model follows the
code:

- A duplicate room number and a rate below the floor fail with
  `IllegalArgumentException`, not with an invalid-data error.
- The generic `update` passes a failing store write through unwrapped. The
  room service then reports any failure after the rate check as the single
  "Tipo ou Status do quarto não encontrado para os IDs fornecidos"
  not-found error. This covers a failing save or update too, not only a
  missing type or status.
- `findAll` of the room service promises no order. It calls
  `findAllByOrderByRoomIdAsc`, which `IRoomRepository` does not declare, and
  composes each room through `flatMap`, which does not keep order.
- When the room to update is missing, the error is the generic
  "Object not found with id: {id}". The `switchIfEmpty` fallback in
  `findExistingRoom` is never reached, because the room service's own
  `findById` already fails.

Messages are kept verbatim, in Portuguese where the source has them. An id
inside a message is rendered the way Java's string concatenation renders a
`Long`.

## Model

| member | source | states |
|---|---|---|
| Domain.Persisted | src/main/java/br/com/pedroramon/backend/model/Room.java:20-38 | what the store keeps of a room: every column unchanged, both transient references dropped |
| Decimal.IdString | src/main/java/br/com/pedroramon/backend/service/GenericService.java:72 | the decimal text of an id is non-empty and starts with a minus sign exactly when the id is negative |
| Decimal.IdStringInjective | src/main/java/br/com/pedroramon/backend/service/GenericService.java:72 | two different ids never render to the same text |
| Domain.ObjectNotFoundNamesId | src/main/java/br/com/pedroramon/backend/service/GenericService.java:72 | the not-found message identifies its id: equal messages imply equal ids |
| Tables.Get | src/main/java/br/com/pedroramon/backend/service/GenericService.java:71 | the store's `findById`: a row exactly when the id is stored, and then the stored row, carrying that id |
| Tables.Remove | src/main/java/br/com/pedroramon/backend/service/GenericService.java:106 | the store's `deleteById`: the id's row is gone, every other row is kept unchanged |
| Tables.Put | src/main/java/br/com/pedroramon/backend/service/GenericService.java:92 | the store's `save`. An entity without an id is inserted under a fresh id and comes back with that id. One with a stored id overwrites that row only. One whose id is not stored fails. A failure changes nothing. Only the mapped columns are kept. Ids stay consistent with their keys. |
| Tables.Repository.FindAll | src/main/java/br/com/pedroramon/backend/service/GenericService.java:55 | the repository scan yields every stored row exactly once, each under its own id, in no promised order |
| Tables.Repository.Save | src/main/java/br/com/pedroramon/backend/service/GenericService.java:92 | the in-place write leaves the result and repository state that `Put` gives for the old state, and keeps the repository well formed |
| Tables.Repository.DeleteById | src/main/java/br/com/pedroramon/backend/service/GenericService.java:106 | the in-place delete leaves the repository with the row for that id removed and nothing else changed |
| Tables.FindByRoomNumber | src/main/java/br/com/pedroramon/backend/repository/IRoomRepository.java:24 | nothing exactly when no stored room has that number; otherwise a stored row, under its own id, with that number |
| Generic.FindOutcome | src/main/java/br/com/pedroramon/backend/service/GenericService.java:70-73 | succeeds exactly when the id is stored, with the stored entity; otherwise NotFound("Object not found with id: " + id) |
| Generic.SaveOutcome | src/main/java/br/com/pedroramon/backend/service/GenericService.java:91-94 | the store's result on success. Any store failure becomes InvalidData("Error saving object: " + cause) and leaves the table unchanged. Succeeds exactly when the store accepts the write. |
| Generic.DeleteOutcome | src/main/java/br/com/pedroramon/backend/service/GenericService.java:105-107 | the id is no longer stored, every other row is kept unchanged, and it completes whether or not the id was stored |
| Generic.UpdateOutcome | src/main/java/br/com/pedroramon/backend/service/GenericService.java:122-129 | never creates (the key set is unchanged). An entity without an id is refused by the store's lookup, and that failure passes through unwrapped. A missing id fails with NotFound naming it and writes nothing. Otherwise the caller's entity is saved with the stored `createdAt` and returned. Only that row changes. A store failure passes through unwrapped. |
| Generic.GenericService.constructor | src/main/java/br/com/pedroramon/backend/service/GenericService.java:43-46 | the service works over the repository it is given |
| Generic.GenericService.FindAll | src/main/java/br/com/pedroramon/backend/service/GenericService.java:54-56 | exactly the stored entities: same count, each is a stored row, and every stored row is present |
| Generic.GenericService.FindById | src/main/java/br/com/pedroramon/backend/service/GenericService.java:70-73 | on the live repository: the stored entity exactly when the id is present, else NotFound naming the id |
| Generic.GenericService.Save | src/main/java/br/com/pedroramon/backend/service/GenericService.java:91-94 | result and new repository state are those of `SaveOutcome` on the old state |
| Generic.GenericService.Delete | src/main/java/br/com/pedroramon/backend/service/GenericService.java:105-107 | new repository state is `DeleteOutcome` of the old one |
| Generic.GenericService.Update | src/main/java/br/com/pedroramon/backend/service/GenericService.java:122-129 | the method, which refuses an entity without an id, then reads, copies `createdAt` and writes, ends in the result and state of `UpdateOutcome` on the old state |
| RoomOutcomes.Attach | src/main/java/br/com/pedroramon/backend/service/RoomService.java:197-199 | the room carries exactly the given type and status; its id, `createdAt` and columns are unchanged |
| RoomOutcomes.Compose | src/main/java/br/com/pedroramon/backend/service/RoomService.java:89-96 | attaching type and status succeeds exactly when both ids are stored. The room then carries exactly those stored entities, and its columns are unchanged. Otherwise the error is the type lookup's NotFound when the type is missing, else the status lookup's. |
| RoomOutcomes.ComposedRows | src/main/java/br/com/pedroramon/backend/service/RoomService.java:68-77 | once every stored row is composed, each composed room is a stored row with its references resolved, and every stored row's composition is among them |
| RoomOutcomes.FindRoomOutcome | src/main/java/br/com/pedroramon/backend/service/RoomService.java:86-97 | NotFound naming the id when it is not stored. Otherwise succeeds exactly when the stored room's type and status resolve, returning that room with both attached, or else the lookup's failure. |
| RoomOutcomes.ValidateDailyRate | src/main/java/br/com/pedroramon/backend/service/RoomService.java:159-163 | passes exactly when the rate is at least 60.00 (60.00 itself passes); otherwise IllegalArgument("O valor mínimo da diária deve ser 60 reais") |
| RoomOutcomes.DependenciesOutcome | src/main/java/br/com/pedroramon/backend/service/RoomService.java:195-204 | every failure is NotFound("Tipo ou Status do quarto não encontrado para os IDs fornecidos") and writes nothing. It persists only after both lookups succeed. Success carries the looked-up type and status and the caller's columns. The stored row is the room without references. `save` keeps the caller's `createdAt`; `update` keeps the stored one. |
| RoomOutcomes.SaveRoomOutcome | src/main/java/br/com/pedroramon/backend/service/RoomService.java:126-130 | stages run in the order uniqueness, rate, dependencies, persist. A duplicate number fails with the duplicate error after the uniqueness stage alone: no lookup, no write, whatever the rate. A low rate fails next. Any later failure is the dependencies error. States exactly when it succeeds, and what is stored and returned on success. |
| RoomOutcomes.UpdateChecks | src/main/java/br/com/pedroramon/backend/service/RoomService.java:141-148 | loads the existing room first. A missing id fails with NotFound naming it. A stored room that cannot be composed fails with its lookup error. Uniqueness is checked only when the number changes, so keeping the number never gives the duplicate error. A loaded room whose new number is taken fails with the duplicate error after exactly the load and uniqueness stages. Otherwise a rate below 60.00 fails with the rate error. States exactly when all checks pass. |
| RoomOutcomes.UpdateRoomOutcome | src/main/java/br/com/pedroramon/backend/service/RoomService.java:140-150 | never creates a row. A missing id fails at the load stage with nothing written. A kept number never runs the uniqueness stage. A loaded room whose new number is taken fails with the duplicate error after the load and uniqueness stages, with nothing written. Next a rate below 60.00 fails with the rate error. Any later failure is the dependencies error. States exactly when it succeeds. On success the stored `createdAt` is kept and only that row changes. |
| RoomOutcomes.SaveRoomKeepsInvariant | src/main/java/br/com/pedroramon/backend/service/RoomService.java:126-130 | a room save keeps room numbers unique, every rate at or above 60.00, and no transient reference in any stored row |
| RoomOutcomes.UpdateRoomKeepsInvariant | src/main/java/br/com/pedroramon/backend/service/RoomService.java:140-150 | a room update keeps the same invariant, including when it keeps or changes the room number |
| RoomOutcomes.DeleteKeepsInvariant | src/main/java/br/com/pedroramon/backend/service/GenericService.java:105-107 | deleting a room keeps the same invariant |
| RoomOutcomes.SaveThenFind | src/main/java/br/com/pedroramon/backend/service/RoomService.java:126-130 | a room that was saved is found again by its new id exactly as the save returned it |
| RoomOutcomes.UpdateThenFind | src/main/java/br/com/pedroramon/backend/service/GenericService.java:124-126 | after a room update the room is found as the update returned it, with its original `createdAt` and the caller's columns |
| RoomOutcomes.UpdateNeverReportsRoomNotFoundForUpdate | src/main/java/br/com/pedroramon/backend/service/RoomService.java:183-186 | no room update ever fails with "Quarto não encontrado para atualização!" |
| RoomService.RoomService.constructor | src/main/java/br/com/pedroramon/backend/service/RoomService.java:53-59 | wires the generic layer over the same room repository, with an empty trace |
| RoomService.RoomService.FindAll | src/main/java/br/com/pedroramon/backend/service/RoomService.java:68-78 | succeeds exactly when every stored room's references resolve. It then holds one composed room per stored room: each is Resolved, and each equals its stored row once references are stripped. Otherwise it returns some stored room's lookup failure. |
| RoomService.RoomService.FindById | src/main/java/br/com/pedroramon/backend/service/RoomService.java:86-97 | on the live repositories, the generic lookup then composition gives exactly `FindRoomOutcome` |
| RoomService.RoomService.FindByRoomNumber | src/main/java/br/com/pedroramon/backend/service/RoomService.java:105-116 | nothing when no stored room has the number. Otherwise the room with that number and both references attached, or that room's lookup failure. |
| RoomService.RoomService.CheckRoomNumberUniqueness | src/main/java/br/com/pedroramon/backend/service/RoomService.java:171-175 | fails exactly when a stored room already has the number, with IllegalArgument("Já existe um quarto com o número informado!") |
| RoomService.RoomService.FindExistingRoom | src/main/java/br/com/pedroramon/backend/service/RoomService.java:183-186 | a missing id gives NotFound naming it. A stored room whose references do not resolve gives that composition's lookup failure. It succeeds exactly when the stored room composes, and then returns that row with both references resolved and its columns unchanged. |
| RoomService.RoomService.RetrieveDependenciesAndSave | src/main/java/br/com/pedroramon/backend/service/RoomService.java:195-204 | the step-by-step lookups, attach and write end in the result, room table and added stages of `DependenciesOutcome` |
| RoomService.RoomService.Save | src/main/java/br/com/pedroramon/backend/service/RoomService.java:126-130 | result, room table and added stages are those of `SaveRoomOutcome`; the room invariant is kept |
| RoomService.RoomService.CheckUpdate | src/main/java/br/com/pedroramon/backend/service/RoomService.java:141-148 | the load, the conditional uniqueness check and the rate check give the error and stages of `UpdateChecks` |
| RoomService.RoomService.Update | src/main/java/br/com/pedroramon/backend/service/RoomService.java:140-150 | result, room table and added stages are those of `UpdateRoomOutcome`; the room invariant is kept |
| RoomService.RoomService.Delete | src/main/java/br/com/pedroramon/backend/service/GenericService.java:105-107 | the inherited delete leaves `DeleteOutcome` of the old room table, and the room invariant is kept |

## Left out

- Reactive scheduling and concurrency.
  - Each `Mono`/`Flux` chain is read as a sequence in which the first
    error wins.
  - `Mono.zip` runs the type and status lookups in parallel. When both
    fail, the model reports the type lookup's error.
  - The uniqueness check is advisory under concurrent requests. A
    sequential model cannot show that.
- RoomService.RoomService.FindAll: it is all-or-error. A `Flux` may emit
  some composed rooms before it meets a failing one; the model does not
  capture those partial emissions. It claims no order, for the reason given
  above.
- Failures of the store are an explicit `fault` parameter of each save and
  update. Read failures of the store are not modelled: lookups and scans always
  answer.
- Generic.DeleteOutcome, Generic.GenericService.Delete and
  Tables.Repository.DeleteById always complete. A failing `deleteById`,
  which the generic `delete` would pass through unchanged, is not modelled.
- A write that names an id the store does not hold fails with a fixed
  cause. Spring Data's exact exception text is not reproduced.
- Auditing timestamps: the creation and last-modified dates are set by
  the framework's auditing annotations. `createdAt` is an opaque value that the store keeps as
  given, and `updatedAt` is not modelled.
- In-place mutation of the caller's objects (`setTypeRoom`,
  `setStatusRoom`, `setCreatedAt`) is modelled by returning the updated
  value. Aliasing between the caller's object and the returned one is not
  captured.
- RoomService.RoomService.Update / RoomOutcomes.UpdateRoomOutcome require
  the room to carry an id. The room update request validates its id as
  non-null (`RoomDTO` with the `OnUpdate` group, applied by
  `RoomController`), so a room update never reaches `findById(null)`. The
  generic update does model that path. There the store's `findById(null)`
  throws an `IllegalArgumentException`, which the global exception handler
  answers with status 400. The model shows it as a store failure passed
  through with a fixed cause, and does not reproduce Spring Data's exact
  exception text.
- Java's boxed `Integer` and `Long` are modelled as unbounded integers, so
  32-bit and 64-bit overflow is not modelled. A null room number or rate is
  not modelled either. `BigDecimal` rates are exact reals.
- The HTTP controllers, DTOs, mappers, service configuration and the global
  exception handler are not part of this model. Neither is the
  malformed-id exception, which no core operation raises.
