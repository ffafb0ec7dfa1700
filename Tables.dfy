/** The repositories (`ReactiveCrudRepository<T, Long>`) as in-memory
    tables keyed by id. The store assigns ids on insert and keeps only the
    columns it maps; whether a write fails, and with what cause, is decided
    by the environment and passed in as `fault`. */
module Tables {
  import opened Domain

  datatype Table<D> = Table(rows: map<int, Entity<D>>, nextId: int)

  /** The result of a write and the table after it. */
  datatype Written<D> = Written(result: Result<Entity<D>>, table: Table<D>)

  /** Cause reported when an entity that carries an id names no stored row. */
  const ROW_DOES_NOT_EXIST: string := "Row with the given id does not exist"

  /** Cause reported when the store is asked to look up a missing (null) id. */
  const ID_MUST_NOT_BE_NULL: string := "Id must not be null"

  /** Every row is stored under its own id, and ids still to be assigned
      lie above every stored one. */
  predicate WellFormed<D>(t: Table<D>) {
    forall k :: k in t.rows ==> t.rows[k].id == Some(k) && k < t.nextId
  }

  /** `findById` of the store: the row under that id, or nothing. */
  function Get<D>(t: Table<D>, id: int): (r: Option<Entity<D>>)
    ensures r.Some? <==> id in t.rows
    ensures r.Some? ==> r.value == t.rows[id]
    ensures WellFormed(t) && r.Some? ==> r.value.id == Some(id)
  {
    if id in t.rows then Some(t.rows[id]) else None
  }

  /** `save`: an entity without an id is inserted under a fresh id; one
      with an id overwrites the row with that id, and fails when there is
      none. The store keeps `persist(fields)`; the caller gets the entity
      back with its id set. */
  function Put<D>(t: Table<D>, e: Entity<D>, persist: D -> D, fault: Option<string>): (w: Written<D>)
    requires WellFormed(t)
    ensures WellFormed(w.table)
    ensures w.result.Failure? ==> w.table == t && w.result.error.StorageFailure?
    ensures fault.Some? ==> w.result == Failure(StorageFailure(fault.value))
    ensures w.result.Success? <==> fault.None? && (e.id.None? || e.id.value in t.rows)
    ensures w.result.Success? ==>
      && w.result.value.id.Some?
      && var k := w.result.value.id.value;
      && w.result.value == e.(id := Some(k))
      && w.table.rows == t.rows[k := e.(id := Some(k), fields := persist(e.fields))]
      && (e.id.None? ==> k !in t.rows)
  {
    if fault.Some? then Written(Failure(StorageFailure(fault.value)), t)
    else match e.id
      case None =>
        var k := t.nextId;
        Written(Success(e.(id := Some(k))),
                Table(t.rows[k := e.(id := Some(k), fields := persist(e.fields))], k + 1))
      case Some(k) =>
        if k in t.rows then
          Written(Success(e), Table(t.rows[k := e.(fields := persist(e.fields))], t.nextId))
        else
          Written(Failure(StorageFailure(ROW_DOES_NOT_EXIST)), t)
  }

  /** `deleteById`: removes the row if there is one. */
  function Remove<D>(t: Table<D>, id: int): (t': Table<D>)
    requires WellFormed(t)
    ensures WellFormed(t')
    ensures t'.rows.Keys == t.rows.Keys - {id}
    ensures forall k :: k in t'.rows ==> t'.rows[k] == t.rows[k]
  {
    Table(t.rows - {id}, t.nextId)
  }

  /** A non-empty set has a member (what lets the store's scans pick the next row). */
  lemma HasMember(s: set<int>)
    requires s != {}
    ensures exists x :: x in s
  {
    if forall x :: x !in s {
      assert false;
    }
  }

  class Repository<D> {
    var rows: map<int, Entity<D>>
    var nextId: int
    /** The columns the store maps: for rooms, everything but the transient references. */
    const persist: D -> D

    ghost predicate Valid()
      reads this
    {
      WellFormed(Snapshot())
    }

    function Snapshot(): Table<D>
      reads this
    {
      Table(rows, nextId)
    }

    constructor (persist: D -> D)
      ensures Valid() && rows == map[] && this.persist == persist
    {
      rows := map[];
      nextId := 0;
      this.persist := persist;
    }

    /** `findAll`: every stored row once, in no particular order. */
    method FindAll() returns (all: seq<Entity<D>>)
      requires Valid()
      ensures |all| == |rows|
      ensures forall e :: e in all ==> e.id.Some? && e.id.value in rows && rows[e.id.value] == e
      ensures forall k :: k in rows ==> rows[k] in all
      ensures forall i, j :: 0 <= i < j < |all| ==> all[i].id != all[j].id
    {
      all := [];
      var pending := rows.Keys;
      while pending != {}
        invariant pending <= rows.Keys
        invariant |all| + |pending| == |rows|
        invariant forall i :: 0 <= i < |all| ==>
          all[i].id.Some? && all[i].id.value in rows && all[i].id.value !in pending
          && rows[all[i].id.value] == all[i]
        invariant forall k :: k in rows && k !in pending ==> rows[k] in all
        invariant forall i, j :: 0 <= i < j < |all| ==> all[i].id != all[j].id
        decreases |pending|
      {
        HasMember(pending);
        var k :| k in pending;
        all := all + [rows[k]];
        pending := pending - {k};
      }
    }

    method Save(e: Entity<D>, fault: Option<string>) returns (r: Result<Entity<D>>)
      requires Valid()
      modifies this
      ensures Valid()
      ensures Written(r, Snapshot()) == Put(old(Snapshot()), e, persist, fault)
    {
      var w := Put(Snapshot(), e, persist, fault);
      r := w.result;
      rows, nextId := w.table.rows, w.table.nextId;
    }

    method DeleteById(id: int)
      requires Valid()
      modifies this
      ensures Valid()
      ensures Snapshot() == Remove(old(Snapshot()), id)
    {
      rows := rows - {id};
    }
  }

  /** True when some stored room has number `n`. */
  predicate RoomNumberTaken(rows: map<int, Room>, n: int) {
    exists k :: k in rows && rows[k].fields.roomNumber == n
  }

  /** `IRoomRepository.findByRoomNumber`: a stored room with that number,
      or nothing when no room has it. */
  method FindByRoomNumber(repository: Repository<RoomFields>, n: int) returns (found: Option<Room>)
    requires repository.Valid()
    ensures found.None? <==> !RoomNumberTaken(repository.rows, n)
    ensures found.Some? ==>
      && found.value.id.Some?
      && found.value.id.value in repository.rows
      && repository.rows[found.value.id.value] == found.value
      && found.value.fields.roomNumber == n
  {
    var rows := repository.rows;
    var pending := rows.Keys;
    while pending != {}
      invariant pending <= rows.Keys
      invariant forall k :: k in rows && k !in pending ==> rows[k].fields.roomNumber != n
      decreases |pending|
    {
      HasMember(pending);
      var k :| k in pending;
      if rows[k].fields.roomNumber == n {
        return Some(rows[k]);
      }
      pending := pending - {k};
    }
    return None;
  }
}
