/** The room service (`RoomService extends GenericService<Room>`): holds
    the room repository, the generic layer over it, and the type and
    status services; performs each operation step by step and is proved to
    do what the outcome functions of `RoomOutcomes` say. */
module RoomService {
  import opened Domain
  import opened Tables
  import opened Generic
  import opened RoomOutcomes

  class RoomService {
    /** The inherited generic layer (`super`), over the same repository. */
    const base: GenericService<RoomFields>
    const repository: Repository<RoomFields>
    const typeRoomService: GenericService<TypeFields>
    const statusRoomService: GenericService<StatusFields>
    /** The write-pipeline stages run so far, oldest first. */
    ghost var trace: seq<Stage>

    /** The collaborators are wired as the constructor leaves them. */
    ghost predicate Wired()
      reads repository, typeRoomService.repository, statusRoomService.repository
    {
      && base.repository == repository
      && repository.persist == Persisted
      && repository.Valid()
      && typeRoomService.repository.Valid()
      && statusRoomService.repository.Valid()
    }

    ghost predicate Valid()
      reads repository, typeRoomService.repository, statusRoomService.repository
    {
      Wired() && RoomsInvariant(repository.rows)
    }

    function Rooms(): Table<RoomFields>
      reads repository
    {
      repository.Snapshot()
    }

    function Types(): Table<TypeFields>
      reads typeRoomService.repository
    {
      typeRoomService.repository.Snapshot()
    }

    function Statuses(): Table<StatusFields>
      reads statusRoomService.repository
    {
      statusRoomService.repository.Snapshot()
    }

    constructor (repository: Repository<RoomFields>, typeRoomService: GenericService<TypeFields>,
                 statusRoomService: GenericService<StatusFields>)
      requires repository.Valid() && repository.persist == Persisted && RoomsInvariant(repository.rows)
      requires typeRoomService.repository.Valid() && statusRoomService.repository.Valid()
      ensures Valid() && trace == []
      ensures this.repository == repository
      ensures this.typeRoomService == typeRoomService && this.statusRoomService == statusRoomService
    {
      base := new GenericService(repository);
      this.repository := repository;
      this.typeRoomService := typeRoomService;
      this.statusRoomService := statusRoomService;
      trace := [];
    }

    /** `findAll`: every stored room with its type and status attached, or
        the lookup failure of a room whose references do not resolve. */
    method FindAll() returns (r: Result<seq<Room>>)
      requires Valid()
      ensures r.Success? <==> forall k :: k in Rooms().rows ==> Composable(Rooms().rows[k], Types(), Statuses())
      ensures r.Success? ==> |r.value| == |Rooms().rows|
      ensures r.Success? ==> forall room :: room in r.value ==>
        && Resolved(room, Types(), Statuses())
        && room.id.Some? && room.id.value in Rooms().rows
        && Bare(room) == Rooms().rows[room.id.value]
      ensures r.Success? ==> forall k :: k in Rooms().rows ==>
        Compose(Types(), Statuses(), Rooms().rows[k]).Success?
        && Compose(Types(), Statuses(), Rooms().rows[k]).value in r.value
      ensures r.Failure? ==> exists k :: k in Rooms().rows && Compose(Types(), Statuses(), Rooms().rows[k]) == Failure(r.error)
    {
      var stored := base.FindAll();
      var types, statuses := Types(), Statuses();
      var composed: seq<Room> := [];
      for i := 0 to |stored|
        invariant |composed| == i && ComposedFrom(types, statuses, stored, composed)
      {
        var c := Compose(types, statuses, stored[i]);
        if c.Failure? {
          assert stored[i] in stored;
          var k := stored[i].id.value;
          assert k in Rooms().rows && !Composable(Rooms().rows[k], types, statuses);
          return Failure(c.error);
        }
        ComposedFromExtend(types, statuses, stored, composed, c.value);
        composed := composed + [c.value];
      }
      ComposedRows(Rooms().rows, types, statuses, stored, composed);
      r := Success(composed);
    }

    /** `findById`: the room with its type and status attached. */
    function FindById(id: int): (r: Result<Room>)
      reads repository, base.repository, typeRoomService.repository, statusRoomService.repository
      requires Wired()
      ensures r == FindRoomOutcome(Rooms(), Types(), Statuses(), id)
    {
      match base.FindById(id)
      case Failure(e) => Failure(e)
      case Success(room) => Compose(Types(), Statuses(), room)
    }

    /** `findByRoomNumber`: nothing when no room has that number, otherwise
        that room with its references attached, or its lookup failure. */
    method FindByRoomNumber(n: int) returns (r: Result<Option<Room>>)
      requires Valid()
      ensures !RoomNumberTaken(Rooms().rows, n) ==> r == Success(None)
      ensures forall k :: k in Rooms().rows && Rooms().rows[k].fields.roomNumber == n ==>
        && (r.Success? <==> Composable(Rooms().rows[k], Types(), Statuses()))
        && (r.Success? ==> r.value == Some(Compose(Types(), Statuses(), Rooms().rows[k]).value))
        && (r.Failure? ==> Compose(Types(), Statuses(), Rooms().rows[k]) == Failure(r.error))
    {
      var found := Tables.FindByRoomNumber(repository, n);
      if found.None? {
        return Success(None);
      }
      var c := Compose(Types(), Statuses(), found.value);
      forall k | k in Rooms().rows && Rooms().rows[k].fields.roomNumber == n
        ensures Rooms().rows[k] == found.value
      {
        assert k == found.value.id.value;
      }
      r := if c.Success? then Success(Some(c.value)) else Failure(c.error);
    }

    /** `checkRoomNumberUniqueness`: fails exactly when a stored room
        already has the number. */
    method CheckRoomNumberUniqueness(n: int) returns (e: Option<Error>)
      requires Wired()
      ensures e.Some? <==> RoomNumberTaken(Rooms().rows, n)
      ensures e.Some? ==> e.value == IllegalArgument(DUPLICATE_ROOM_NUMBER)
    {
      var existing := Tables.FindByRoomNumber(repository, n);
      e := if existing.Some? then Some(IllegalArgument(DUPLICATE_ROOM_NUMBER)) else None;
    }

    /** `findExistingRoom`: the room service's own `findById`. Its
        `switchIfEmpty` fallback never applies, because that lookup fails
        rather than completing empty. */
    function FindExistingRoom(id: int): (r: Result<Room>)
      reads repository, base.repository, typeRoomService.repository, statusRoomService.repository
      requires Wired()
      ensures id !in Rooms().rows ==> r == Failure(NotFound(ObjectNotFound(id)))
      ensures id in Rooms().rows && !Composable(Rooms().rows[id], Types(), Statuses()) ==>
        r == Compose(Types(), Statuses(), Rooms().rows[id])
      ensures r.Success? <==> id in Rooms().rows && Composable(Rooms().rows[id], Types(), Statuses())
      ensures r.Success? ==> Resolved(r.value, Types(), Statuses()) && Bare(r.value) == Bare(Rooms().rows[id])
    {
      FindById(id)
    }

    method RetrieveDependenciesAndSave(room: Room, via: Persistence, fault: Option<string>) returns (r: Result<Room>)
      requires Wired() && (via == ViaUpdate ==> room.id.Some?)
      modifies this, repository
      ensures Wired()
      ensures
        var run := DependenciesOutcome(old(Rooms()), Types(), Statuses(), room, via, fault);
        r == run.result && Rooms() == run.table && trace == old(trace) + run.stages
    {
      ghost var before := Rooms();
      ghost var run := DependenciesOutcome(before, Types(), Statuses(), room, via, fault);
      trace := trace + [ResolveDependencies];
      var typeRoom := typeRoomService.FindById(room.fields.typeRoomId);
      var statusRoom := statusRoomService.FindById(room.fields.statusRoomId);
      if typeRoom.Failure? || statusRoom.Failure? {
        assert run == RoomRun(Failure(NotFound(DEPENDENCIES_NOT_FOUND)), before, [ResolveDependencies]);
        return Failure(NotFound(DEPENDENCIES_NOT_FOUND));
      }
      var attached := Attach(room, typeRoom.value, statusRoom.value);
      ghost var w := if via == ViaSave then SaveOutcome(before, attached, Persisted, fault)
                     else UpdateOutcome(before, attached, Persisted, fault);
      trace := trace + [Persist];
      assert trace == old(trace) + [ResolveDependencies, Persist];
      var saved;
      if via == ViaSave {
        saved := base.Save(attached, fault);
      } else {
        saved := base.Update(attached, fault);
      }
      assert Written(saved, Rooms()) == w;
      r := if saved.Failure? then Failure(NotFound(DEPENDENCIES_NOT_FOUND)) else saved;
      assert run == RoomRun(r, w.table, [ResolveDependencies, Persist]);
    }

    /** `save`: uniqueness, then the rate floor, then dependencies and the
        generic save. */
    method Save(room: Room, fault: Option<string>) returns (r: Result<Room>)
      requires Valid()
      modifies this, repository
      ensures Valid()
      ensures
        var run := SaveRoomOutcome(old(Rooms()), Types(), Statuses(), room, fault);
        r == run.result && Rooms() == run.table && trace == old(trace) + run.stages
    {
      SaveRoomKeepsInvariant(Rooms(), Types(), Statuses(), room, fault);
      ghost var start := trace;
      ghost var dependencies := DependenciesOutcome(Rooms(), Types(), Statuses(), room, ViaSave, fault);
      trace := trace + [CheckUniqueness];
      var duplicate := CheckRoomNumberUniqueness(room.fields.roomNumber);
      if duplicate.Some? {
        return Failure(duplicate.value);
      }
      trace := trace + [CheckRate];
      var rate := ValidateDailyRate(room.fields.dailyRate);
      if rate.Some? {
        return Failure(rate.value);
      }
      assert trace == start + [CheckUniqueness, CheckRate];
      r := RetrieveDependenciesAndSave(room, ViaSave, fault);
      AppendStages(start, [CheckUniqueness, CheckRate], dependencies.stages);
    }

    /** The checks of `update` before the write: load the existing room,
        check uniqueness only when the number changes, check the rate. */
    method CheckUpdate(room: Room) returns (e: Option<Error>)
      requires Wired() && room.id.Some?
      modifies this
      ensures
        var checks := UpdateChecks(Rooms(), Types(), Statuses(), room);
        e == checks.error && trace == old(trace) + checks.stages
    {
      trace := trace + [LoadExisting];
      var existing := FindExistingRoom(room.id.value);
      if existing.Failure? {
        return Some(existing.error);
      }
      if existing.value.fields.roomNumber != room.fields.roomNumber {
        trace := trace + [CheckUniqueness];
        e := CheckRoomNumberUniqueness(room.fields.roomNumber);
        if e.Some? {
          return;
        }
      }
      trace := trace + [CheckRate];
      e := ValidateDailyRate(room.fields.dailyRate);
    }

    /** `update`: its checks, then dependencies and the generic update. */
    method Update(room: Room, fault: Option<string>) returns (r: Result<Room>)
      requires Valid() && room.id.Some?
      modifies this, repository
      ensures Valid()
      ensures
        var run := UpdateRoomOutcome(old(Rooms()), Types(), Statuses(), room, fault);
        r == run.result && Rooms() == run.table && trace == old(trace) + run.stages
    {
      UpdateRoomKeepsInvariant(Rooms(), Types(), Statuses(), room, fault);
      ghost var start := trace;
      ghost var checks := UpdateChecks(Rooms(), Types(), Statuses(), room);
      ghost var dependencies := DependenciesOutcome(Rooms(), Types(), Statuses(), room, ViaUpdate, fault);
      var e := CheckUpdate(room);
      if e.Some? {
        return Failure(e.value);
      }
      r := RetrieveDependenciesAndSave(room, ViaUpdate, fault);
      AppendStages(start, checks.stages, dependencies.stages);
    }

    /** `delete`, inherited from the generic layer. */
    method Delete(id: int)
      requires Valid()
      modifies repository
      ensures Valid()
      ensures Rooms() == DeleteOutcome(old(Rooms()), id)
    {
      DeleteKeepsInvariant(Rooms(), id);
      base.Delete(id);
    }
  }
}
