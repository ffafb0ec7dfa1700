/** What each operation of the room service does, as functions of the
    three tables (rooms, types, statuses): reads attach the resolved type
    and status to every room, and writes run the ordered checks
    (uniqueness, daily-rate floor, dependency lookup) before persisting
    through the generic layer. Each write also reports the stages it went
    through, in order, so that what it did NOT do can be stated. */
module RoomOutcomes {
  import opened Domain
  import opened Tables
  import opened Generic

  /** The stages of the write pipeline. */
  datatype Stage = LoadExisting | CheckUniqueness | CheckRate | ResolveDependencies | Persist

  /** The generic write a pipeline ends with: `super::save` or `super::update`. */
  datatype Persistence = ViaSave | ViaUpdate

  /** The result of a room write, the room table after it, and the stages it ran. */
  datatype RoomRun = RoomRun(result: Result<Room>, table: Table<RoomFields>, stages: seq<Stage>)

  const SAVE_STAGES: seq<Stage> := [CheckUniqueness, CheckRate, ResolveDependencies, Persist]
  const UPDATE_STAGES: seq<Stage> := [LoadExisting, CheckUniqueness, CheckRate, ResolveDependencies, Persist]
  const UPDATE_STAGES_SAME_NUMBER: seq<Stage> := [LoadExisting, CheckRate, ResolveDependencies, Persist]

  /** Both of a room's references name stored entities. */
  predicate Composable(room: Room, types: Table<TypeFields>, statuses: Table<StatusFields>) {
    room.fields.typeRoomId in types.rows && room.fields.statusRoomId in statuses.rows
  }

  /** The room carries the type and status its own ids name. */
  predicate Resolved(room: Room, types: Table<TypeFields>, statuses: Table<StatusFields>) {
    && Composable(room, types, statuses)
    && room.fields.typeRoom == Some(types.rows[room.fields.typeRoomId])
    && room.fields.statusRoom == Some(statuses.rows[room.fields.statusRoomId])
  }

  /** `setTypeRoom` and `setStatusRoom`. */
  function Attach(room: Room, t: TypeRoom, s: StatusRoom): (r: Room)
    ensures r.fields.typeRoom == Some(t) && r.fields.statusRoom == Some(s)
    ensures r.id == room.id && r.createdAt == room.createdAt
    ensures Bare(r) == Bare(room)
  {
    room.(fields := room.fields.(typeRoom := Some(t), statusRoom := Some(s)))
  }

  /** The two lookups zipped, then both references attached. Either lookup's
      NotFound ends it (the type's is reported when both fail). */
  function Compose(types: Table<TypeFields>, statuses: Table<StatusFields>, room: Room): (r: Result<Room>)
    ensures r.Success? <==> Composable(room, types, statuses)
    ensures r.Success? ==> Resolved(r.value, types, statuses) && Bare(r.value) == Bare(room)
    ensures r.Failure? ==> r.error == NotFound(ObjectNotFound(
      if room.fields.typeRoomId in types.rows then room.fields.statusRoomId else room.fields.typeRoomId))
  {
    match FindOutcome(types, room.fields.typeRoomId)
    case Failure(e) => Failure(e)
    case Success(t) =>
      match FindOutcome(statuses, room.fields.statusRoomId)
      case Failure(e) => Failure(e)
      case Success(s) => Success(Attach(room, t, s))
  }

  /** Each room of `composed` is what composition made of the room of
      `stored` at the same position (`stored` may run further). */
  predicate ComposedFrom(types: Table<TypeFields>, statuses: Table<StatusFields>, stored: seq<Room>, composed: seq<Room>) {
    && |composed| <= |stored|
    && forall j :: 0 <= j < |composed| ==> Compose(types, statuses, stored[j]) == Success(composed[j])
  }

  lemma ComposedFromExtend(
    types: Table<TypeFields>, statuses: Table<StatusFields>, stored: seq<Room>, composed: seq<Room>, c: Room)
    requires ComposedFrom(types, statuses, stored, composed) && |composed| < |stored|
    requires Compose(types, statuses, stored[|composed|]) == Success(c)
    ensures ComposedFrom(types, statuses, stored, composed + [c])
  {
  }

  /** When every stored row has been composed, the composed rooms are
      exactly the stored rows with their references attached. */
  lemma ComposedRows(
    rows: map<int, Room>, types: Table<TypeFields>, statuses: Table<StatusFields>,
    stored: seq<Room>, composed: seq<Room>)
    requires RoomsInvariant(rows)
    requires forall e :: e in stored ==> e.id.Some? && e.id.value in rows && rows[e.id.value] == e
    requires forall k :: k in rows ==> rows[k] in stored
    requires ComposedFrom(types, statuses, stored, composed) && |composed| == |stored|
    ensures forall room :: room in composed ==>
      && Resolved(room, types, statuses)
      && room.id.Some? && room.id.value in rows
      && Bare(room) == rows[room.id.value]
    ensures forall k :: k in rows ==>
      Compose(types, statuses, rows[k]).Success? && Compose(types, statuses, rows[k]).value in composed
  {
    forall room | room in composed
      ensures Resolved(room, types, statuses) && room.id.Some? && room.id.value in rows
      ensures Bare(room) == rows[room.id.value]
    {
      var j :| 0 <= j < |composed| && composed[j] == room;
      assert stored[j] in stored;
      var k := stored[j].id.value;
      assert k in rows && rows[k] == stored[j];
      var row := rows[k];
      assert row.fields.dailyRate >= MIN_DAILY_RATE && row == Bare(row);
      assert Bare(room) == Bare(row);
    }
    forall k | k in rows
      ensures Compose(types, statuses, rows[k]).Success? && Compose(types, statuses, rows[k]).value in composed
    {
      var j :| 0 <= j < |stored| && stored[j] == rows[k];
      assert composed[j] in composed;
    }
  }

  /** `findById` of the room service: the generic lookup, then composition. */
  function FindRoomOutcome(rooms: Table<RoomFields>, types: Table<TypeFields>, statuses: Table<StatusFields>, id: int): (r: Result<Room>)
    ensures id !in rooms.rows ==> r == Failure(NotFound(ObjectNotFound(id)))
    ensures r.Success? <==> id in rooms.rows && Composable(rooms.rows[id], types, statuses)
    ensures r.Success? ==> Resolved(r.value, types, statuses) && Bare(r.value) == Bare(rooms.rows[id])
    ensures id in rooms.rows && r.Failure? ==> r == Compose(types, statuses, rooms.rows[id])
  {
    match FindOutcome(rooms, id)
    case Failure(e) => Failure(e)
    case Success(room) => Compose(types, statuses, room)
  }

  /** `validateDailyRate`: fails exactly when the rate is below 60.00. */
  function ValidateDailyRate(rate: real): (r: Option<Error>)
    ensures r.None? <==> rate >= MIN_DAILY_RATE
    ensures r.Some? ==> r.value == IllegalArgument(DAILY_RATE_TOO_LOW)
  {
    if rate < MIN_DAILY_RATE then Some(IllegalArgument(DAILY_RATE_TOO_LOW)) else None
  }

  /** `retrieveDependenciesAndSave`: look up type and status, attach them,
      write through the generic save or update; any failure from the
      lookup on is reported as the one dependency NotFound. */
  function DependenciesOutcome(
    rooms: Table<RoomFields>, types: Table<TypeFields>, statuses: Table<StatusFields>,
    room: Room, via: Persistence, fault: Option<string>): (run: RoomRun)
    requires WellFormed(rooms) && (via == ViaUpdate ==> room.id.Some?)
    ensures WellFormed(run.table)
    ensures run.result.Failure? ==> run.result.error == NotFound(DEPENDENCIES_NOT_FOUND) && run.table == rooms
    ensures run.stages == if Composable(room, types, statuses) then [ResolveDependencies, Persist] else [ResolveDependencies]
    ensures run.result.Success? <==>
      Composable(room, types, statuses) && fault.None? && (room.id.None? || room.id.value in rooms.rows)
    ensures run.result.Success? ==>
      && var saved := run.result.value;
      && Resolved(saved, types, statuses)
      && Persisted(saved.fields) == Persisted(room.fields)
      && saved.id.Some?
      && run.table.rows == rooms.rows[saved.id.value := Bare(saved)]
      && (room.id.Some? ==> saved.id == room.id)
      && (via == ViaSave ==> saved.createdAt == room.createdAt && (room.id.None? ==> saved.id.value !in rooms.rows))
      && (via == ViaUpdate ==> saved.createdAt == rooms.rows[saved.id.value].createdAt)
  {
    match (FindOutcome(types, room.fields.typeRoomId), FindOutcome(statuses, room.fields.statusRoomId))
    case (Success(t), Success(s)) =>
      var attached := Attach(room, t, s);
      var w := if via == ViaSave then SaveOutcome(rooms, attached, Persisted, fault)
               else UpdateOutcome(rooms, attached, Persisted, fault);
      if w.result.Failure? then RoomRun(Failure(NotFound(DEPENDENCIES_NOT_FOUND)), w.table, [ResolveDependencies, Persist])
      else RoomRun(w.result, w.table, [ResolveDependencies, Persist])
    case _ => RoomRun(Failure(NotFound(DEPENDENCIES_NOT_FOUND)), rooms, [ResolveDependencies])
  }

  /** `save` of the room service: uniqueness, then the rate floor, then
      the dependencies and the write. */
  function SaveRoomOutcome(
    rooms: Table<RoomFields>, types: Table<TypeFields>, statuses: Table<StatusFields>,
    room: Room, fault: Option<string>): (run: RoomRun)
    requires WellFormed(rooms)
    ensures WellFormed(run.table)
    ensures run.stages <= SAVE_STAGES
    ensures run.table != rooms ==> Persist in run.stages
    ensures run.result.Failure? ==> run.table == rooms
    ensures RoomNumberTaken(rooms.rows, room.fields.roomNumber) ==>
      run == RoomRun(Failure(IllegalArgument(DUPLICATE_ROOM_NUMBER)), rooms, [CheckUniqueness])
    ensures !RoomNumberTaken(rooms.rows, room.fields.roomNumber) && room.fields.dailyRate < MIN_DAILY_RATE ==>
      run == RoomRun(Failure(IllegalArgument(DAILY_RATE_TOO_LOW)), rooms, [CheckUniqueness, CheckRate])
    ensures (!RoomNumberTaken(rooms.rows, room.fields.roomNumber) && room.fields.dailyRate >= MIN_DAILY_RATE
             && run.result.Failure?) ==> run.result.error == NotFound(DEPENDENCIES_NOT_FOUND)
    ensures run.result.Success? <==>
      && !RoomNumberTaken(rooms.rows, room.fields.roomNumber)
      && room.fields.dailyRate >= MIN_DAILY_RATE
      && Composable(room, types, statuses)
      && fault.None?
      && (room.id.None? || room.id.value in rooms.rows)
    ensures run.result.Success? ==>
      && var saved := run.result.value;
      && Resolved(saved, types, statuses)
      && Persisted(saved.fields) == Persisted(room.fields)
      && saved.createdAt == room.createdAt
      && saved.id.Some?
      && (room.id.None? ==> saved.id.value !in rooms.rows)
      && (room.id.Some? ==> saved.id == room.id)
      && run.table.rows == rooms.rows[saved.id.value := Bare(saved)]
  {
    if RoomNumberTaken(rooms.rows, room.fields.roomNumber) then
      RoomRun(Failure(IllegalArgument(DUPLICATE_ROOM_NUMBER)), rooms, [CheckUniqueness])
    else match ValidateDailyRate(room.fields.dailyRate)
      case Some(e) => RoomRun(Failure(e), rooms, [CheckUniqueness, CheckRate])
      case None =>
        var run := DependenciesOutcome(rooms, types, statuses, room, ViaSave, fault);
        RoomRun(run.result, run.table, [CheckUniqueness, CheckRate] + run.stages)
  }

  /** The room to update is stored and its own type and status resolve,
      so loading it succeeds. */
  predicate Loaded(rooms: Table<RoomFields>, types: Table<TypeFields>, statuses: Table<StatusFields>, room: Room)
    requires room.id.Some?
  {
    room.id.value in rooms.rows && Composable(rooms.rows[room.id.value], types, statuses)
  }

  /** The update keeps the stored room's number, or moves it to a number no
      stored room has. */
  predicate NumberFree(rooms: Table<RoomFields>, room: Room)
    requires room.id.Some? && room.id.value in rooms.rows
  {
    || rooms.rows[room.id.value].fields.roomNumber == room.fields.roomNumber
    || !RoomNumberTaken(rooms.rows, room.fields.roomNumber)
  }

  /** What `update` runs before the write: the outcome of its checks and
      the stages they went through. */
  datatype Checks = Checks(error: Option<Error>, stages: seq<Stage>)

  /** The checks of `update`, in order: load the existing room (through
      the room service's own `findById`), check uniqueness only when the
      number changes, then the rate floor. */
  function UpdateChecks(rooms: Table<RoomFields>, types: Table<TypeFields>, statuses: Table<StatusFields>, room: Room): (c: Checks)
    requires room.id.Some?
    ensures c.stages <= UPDATE_STAGES || c.stages <= UPDATE_STAGES_SAME_NUMBER
    ensures c.stages != [] && c.stages[0] == LoadExisting
    ensures room.id.value !in rooms.rows ==> c == Checks(Some(NotFound(ObjectNotFound(room.id.value))), [LoadExisting])
    ensures room.id.value in rooms.rows && !Composable(rooms.rows[room.id.value], types, statuses) ==>
      c == Checks(Some(Compose(types, statuses, rooms.rows[room.id.value]).error), [LoadExisting])
    ensures c.error.None? <==>
      && room.id.value in rooms.rows
      && Composable(rooms.rows[room.id.value], types, statuses)
      && (rooms.rows[room.id.value].fields.roomNumber == room.fields.roomNumber
          || !RoomNumberTaken(rooms.rows, room.fields.roomNumber))
      && room.fields.dailyRate >= MIN_DAILY_RATE
    ensures room.id.value in rooms.rows && rooms.rows[room.id.value].fields.roomNumber == room.fields.roomNumber ==>
      CheckUniqueness !in c.stages && c.error != Some(IllegalArgument(DUPLICATE_ROOM_NUMBER))
    ensures Loaded(rooms, types, statuses, room) && !NumberFree(rooms, room) ==>
      c == Checks(Some(IllegalArgument(DUPLICATE_ROOM_NUMBER)), [LoadExisting, CheckUniqueness])
    ensures Loaded(rooms, types, statuses, room) && NumberFree(rooms, room) && room.fields.dailyRate < MIN_DAILY_RATE ==>
      c.error == Some(IllegalArgument(DAILY_RATE_TOO_LOW))
  {
    match FindRoomOutcome(rooms, types, statuses, room.id.value)
    case Failure(e) => Checks(Some(e), [LoadExisting])
    case Success(existing) =>
      var renumbered := existing.fields.roomNumber != room.fields.roomNumber;
      if renumbered && RoomNumberTaken(rooms.rows, room.fields.roomNumber) then
        Checks(Some(IllegalArgument(DUPLICATE_ROOM_NUMBER)), [LoadExisting, CheckUniqueness])
      else
        Checks(ValidateDailyRate(room.fields.dailyRate),
               if renumbered then [LoadExisting, CheckUniqueness, CheckRate] else [LoadExisting, CheckRate])
  }

  /** `update` of the room service: its checks, then the dependencies and
      the generic update. */
  function UpdateRoomOutcome(
    rooms: Table<RoomFields>, types: Table<TypeFields>, statuses: Table<StatusFields>,
    room: Room, fault: Option<string>): (run: RoomRun)
    requires WellFormed(rooms) && room.id.Some?
    ensures WellFormed(run.table)
    ensures run.table.rows.Keys == rooms.rows.Keys
    ensures run.stages <= UPDATE_STAGES || run.stages <= UPDATE_STAGES_SAME_NUMBER
    ensures run.table != rooms ==> Persist in run.stages
    ensures run.result.Failure? ==> run.table == rooms
    ensures room.id.value !in rooms.rows ==>
      run == RoomRun(Failure(NotFound(ObjectNotFound(room.id.value))), rooms, [LoadExisting])
    ensures room.id.value in rooms.rows && !Composable(rooms.rows[room.id.value], types, statuses) ==>
      run == RoomRun(Compose(types, statuses, rooms.rows[room.id.value]), rooms, [LoadExisting])
    ensures room.id.value in rooms.rows && rooms.rows[room.id.value].fields.roomNumber == room.fields.roomNumber ==>
      CheckUniqueness !in run.stages && run.result != Failure(IllegalArgument(DUPLICATE_ROOM_NUMBER))
    ensures Loaded(rooms, types, statuses, room) && !NumberFree(rooms, room) ==>
      run == RoomRun(Failure(IllegalArgument(DUPLICATE_ROOM_NUMBER)), rooms, [LoadExisting, CheckUniqueness])
    ensures Loaded(rooms, types, statuses, room) && NumberFree(rooms, room) && room.fields.dailyRate < MIN_DAILY_RATE ==>
      run.result == Failure(IllegalArgument(DAILY_RATE_TOO_LOW))
    ensures (Loaded(rooms, types, statuses, room) && NumberFree(rooms, room) && room.fields.dailyRate >= MIN_DAILY_RATE
             && run.result.Failure?) ==> run.result.error == NotFound(DEPENDENCIES_NOT_FOUND)
    ensures run.result.Success? <==>
      && room.id.value in rooms.rows
      && Composable(rooms.rows[room.id.value], types, statuses)
      && (rooms.rows[room.id.value].fields.roomNumber == room.fields.roomNumber
          || !RoomNumberTaken(rooms.rows, room.fields.roomNumber))
      && room.fields.dailyRate >= MIN_DAILY_RATE
      && Composable(room, types, statuses)
      && fault.None?
    ensures run.result.Success? ==>
      && var saved := run.result.value;
      && var id := room.id.value;
      && Resolved(saved, types, statuses)
      && Persisted(saved.fields) == Persisted(room.fields)
      && saved.id == room.id
      && saved.createdAt == rooms.rows[id].createdAt
      && run.table.rows == rooms.rows[id := Bare(saved)]
  {
    var c := UpdateChecks(rooms, types, statuses, room);
    if c.error.Some? then RoomRun(Failure(c.error.value), rooms, c.stages)
    else
      var run := DependenciesOutcome(rooms, types, statuses, room, ViaUpdate, fault);
      RoomRun(run.result, run.table, c.stages + run.stages)
  }

  /** Appending stages one run after another groups either way. */
  lemma AppendStages(a: seq<Stage>, b: seq<Stage>, c: seq<Stage>)
    ensures (a + b) + c == a + (b + c)
  {
  }

  /** What the write path keeps true of the stored rooms: no two rooms
      share a number, every daily rate is at least 60.00, and no row keeps
      a transient reference. */
  predicate RoomsInvariant(rows: map<int, Room>) {
    && (forall j, k :: j in rows && k in rows && rows[j].fields.roomNumber == rows[k].fields.roomNumber ==> j == k)
    && (forall k :: k in rows ==> rows[k].fields.dailyRate >= MIN_DAILY_RATE && rows[k] == Bare(rows[k]))
  }

  lemma SaveRoomKeepsInvariant(
    rooms: Table<RoomFields>, types: Table<TypeFields>, statuses: Table<StatusFields>,
    room: Room, fault: Option<string>)
    requires WellFormed(rooms) && RoomsInvariant(rooms.rows)
    ensures RoomsInvariant(SaveRoomOutcome(rooms, types, statuses, room, fault).table.rows)
  {
  }

  lemma UpdateRoomKeepsInvariant(
    rooms: Table<RoomFields>, types: Table<TypeFields>, statuses: Table<StatusFields>,
    room: Room, fault: Option<string>)
    requires WellFormed(rooms) && room.id.Some? && RoomsInvariant(rooms.rows)
    ensures RoomsInvariant(UpdateRoomOutcome(rooms, types, statuses, room, fault).table.rows)
  {
    // UpdateRoomOutcome succeeds only when the kept or new number is free and the rate is at
    // least MIN_DAILY_RATE, and its success case overwrites one row with a bare room.
  }

  lemma DeleteKeepsInvariant(rooms: Table<RoomFields>, id: int)
    requires WellFormed(rooms) && RoomsInvariant(rooms.rows)
    ensures RoomsInvariant(DeleteOutcome(rooms, id).rows)
  {
  }

  /** Round trip: a room the service saved is found again by its new id,
      exactly as the save returned it (same fields, same references). */
  lemma SaveThenFind(
    rooms: Table<RoomFields>, types: Table<TypeFields>, statuses: Table<StatusFields>,
    room: Room, fault: Option<string>)
    requires WellFormed(rooms)
    requires SaveRoomOutcome(rooms, types, statuses, room, fault).result.Success?
    ensures
      var run := SaveRoomOutcome(rooms, types, statuses, room, fault);
      FindRoomOutcome(run.table, types, statuses, run.result.value.id.value) == run.result
  {
  }

  /** Round trip: after an update, the room is found with the new fields
      and the creation timestamp it had before. */
  lemma UpdateThenFind(
    rooms: Table<RoomFields>, types: Table<TypeFields>, statuses: Table<StatusFields>,
    room: Room, fault: Option<string>)
    requires WellFormed(rooms) && room.id.Some?
    requires UpdateRoomOutcome(rooms, types, statuses, room, fault).result.Success?
    ensures
      var run := UpdateRoomOutcome(rooms, types, statuses, room, fault);
      var found := FindRoomOutcome(run.table, types, statuses, room.id.value);
      && found == run.result
      && found.value.createdAt == rooms.rows[room.id.value].createdAt
      && Persisted(found.value.fields) == Persisted(room.fields)
  {
  }

  /** The "room not found for update" message is never reported: a
      missing room already fails inside the room service's own `findById`
      with the generic not-found message. */
  lemma UpdateNeverReportsRoomNotFoundForUpdate(
    rooms: Table<RoomFields>, types: Table<TypeFields>, statuses: Table<StatusFields>,
    room: Room, fault: Option<string>)
    requires WellFormed(rooms) && room.id.Some?
    ensures UpdateRoomOutcome(rooms, types, statuses, room, fault).result != Failure(NotFound(ROOM_NOT_FOUND_FOR_UPDATE))
  {
    var run := UpdateRoomOutcome(rooms, types, statuses, room, fault);
    var id := room.id.value;
    assert ROOM_NOT_FOUND_FOR_UPDATE[0] == 'Q';
    if id !in rooms.rows {
      assert ObjectNotFound(id)[0] == 'O';
    } else if !Composable(rooms.rows[id], types, statuses) {
      var existing := rooms.rows[id];
      var missing := if existing.fields.typeRoomId in types.rows then existing.fields.statusRoomId else existing.fields.typeRoomId;
      assert run.result == Failure(NotFound(ObjectNotFound(missing)));
      assert ObjectNotFound(missing)[0] == 'O';
    } else if run.result.Failure? && run.result.error.NotFound? {
      assert run.result.error.message == DEPENDENCIES_NOT_FOUND;
      assert |DEPENDENCIES_NOT_FOUND| != |ROOM_NOT_FOUND_FOR_UPDATE|;
    }
  }
}
