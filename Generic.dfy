/** The generic CRUD layer (`GenericService<T extends IEntity>`): list,
    get, save, delete and update over one repository, with the not-found
    and invalid-data failure mapping and the preservation of `createdAt`
    on update. The functions give each operation's outcome on a table; the
    class performs it step by step on a repository. */
module Generic {
  import opened Domain
  import opened Tables

  /** `findById`: the stored entity, or NotFound naming the id. */
  function FindOutcome<D>(t: Table<D>, id: int): (r: Result<Entity<D>>)
    ensures r.Success? <==> id in t.rows
    ensures r.Success? ==> r.value == t.rows[id]
    ensures r.Failure? ==> r.error == NotFound(ObjectNotFound(id))
  {
    match Get(t, id)
    case Some(e) => Success(e)
    case None => Failure(NotFound(ObjectNotFound(id)))
  }

  /** `save`: the store's result; any store failure becomes InvalidData
      carrying its cause, and leaves the table as it was. */
  function SaveOutcome<D>(t: Table<D>, entity: Entity<D>, persist: D -> D, fault: Option<string>): (w: Written<D>)
    requires WellFormed(t)
    ensures WellFormed(w.table)
    ensures fault.Some? ==> w == Written(Failure(InvalidData(ErrorSaving(fault.value))), t)
    ensures w.result.Failure? ==> w.table == t && w.result.error.InvalidData?
    ensures w.result.Success? <==> fault.None? && (entity.id.None? || entity.id.value in t.rows)
    ensures w.result.Success? ==>
      && w.result.value.id.Some?
      && var k := w.result.value.id.value;
      && w.result.value == entity.(id := Some(k))
      && w.table.rows == t.rows[k := entity.(id := Some(k), fields := persist(entity.fields))]
      && (entity.id.None? ==> k !in t.rows)
  {
    var p := Put(t, entity, persist, fault);
    if p.result.Failure? then Written(Failure(InvalidData(ErrorSaving(p.result.error.cause))), t)
    else p
  }

  /** `delete`: the row with that id is gone and every other row is kept;
      it completes whether or not the row existed. */
  function DeleteOutcome<D>(t: Table<D>, id: int): (t': Table<D>)
    requires WellFormed(t)
    ensures WellFormed(t')
    ensures id !in t'.rows
    ensures forall k :: k in t'.rows <==> k in t.rows && k != id
    ensures forall k :: k in t'.rows ==> t'.rows[k] == t.rows[k]
  {
    Remove(t, id)
  }

  /** `update`: read, then write. It never creates a row; the stored
      `createdAt` replaces the caller's before the write; the caller's
      entity is otherwise saved as given, and only its row changes. A
      failing store write is passed through unwrapped, and so is the
      store's refusal to look up an entity that has no id. */
  function UpdateOutcome<D>(t: Table<D>, entity: Entity<D>, persist: D -> D, fault: Option<string>): (w: Written<D>)
    requires WellFormed(t)
    ensures WellFormed(w.table)
    ensures w.table.rows.Keys == t.rows.Keys
    ensures entity.id.None? ==> w == Written(Failure(StorageFailure(ID_MUST_NOT_BE_NULL)), t)
    ensures entity.id.Some? && entity.id.value !in t.rows ==>
      w == Written(Failure(NotFound(ObjectNotFound(entity.id.value))), t)
    ensures w.result.Failure? ==> w.table == t
    ensures w.result.Success? <==> entity.id.Some? && entity.id.value in t.rows && fault.None?
    ensures fault.Some? && entity.id.Some? && entity.id.value in t.rows ==> w.result == Failure(StorageFailure(fault.value))
    ensures w.result.Success? ==>
      && var id := entity.id.value;
      && var kept := entity.(createdAt := t.rows[id].createdAt);
      && w.result.value == kept
      && w.table.rows == t.rows[id := kept.(fields := persist(entity.fields))]
  {
    if entity.id.None? then Written(Failure(StorageFailure(ID_MUST_NOT_BE_NULL)), t)
    else match Get(t, entity.id.value)
    case None => Written(Failure(NotFound(ObjectNotFound(entity.id.value))), t)
    case Some(existing) => Put(t, entity.(createdAt := existing.createdAt), persist, fault)
  }

  class GenericService<D> {
    const repository: Repository<D>

    constructor (repository: Repository<D>)
      ensures this.repository == repository
    {
      this.repository := repository;
    }

    /** `findAll`: exactly the stored entities, each once. */
    method FindAll() returns (all: seq<Entity<D>>)
      requires repository.Valid()
      ensures |all| == |repository.rows|
      ensures forall e :: e in all ==> e.id.Some? && e.id.value in repository.rows && repository.rows[e.id.value] == e
      ensures forall k :: k in repository.rows ==> repository.rows[k] in all
    {
      all := repository.FindAll();
    }

    /** `findById`: the stored entity, or NotFound naming the id. */
    function FindById(id: int): (r: Result<Entity<D>>)
      reads repository
      ensures r.Success? <==> id in repository.rows
      ensures r.Success? ==> r.value == repository.rows[id]
      ensures r.Failure? ==> r.error == NotFound(ObjectNotFound(id))
    {
      FindOutcome(repository.Snapshot(), id)
    }

    /** `save`: the store's write, its failures mapped to InvalidData. */
    method Save(entity: Entity<D>, fault: Option<string>) returns (r: Result<Entity<D>>)
      requires repository.Valid()
      modifies repository
      ensures repository.Valid()
      ensures Written(r, repository.Snapshot()) == SaveOutcome(old(repository.Snapshot()), entity, repository.persist, fault)
    {
      r := repository.Save(entity, fault);
      if r.Failure? {
        r := Failure(InvalidData(ErrorSaving(r.error.cause)));
      }
    }

    /** `delete`: the store's `deleteById`. */
    method Delete(id: int)
      requires repository.Valid()
      modifies repository
      ensures repository.Valid()
      ensures repository.Snapshot() == DeleteOutcome(old(repository.Snapshot()), id)
    {
      repository.DeleteById(id);
    }

    /** `update`: look the entity up, carry the stored `createdAt` over,
        and write. */
    method Update(entity: Entity<D>, fault: Option<string>) returns (r: Result<Entity<D>>)
      requires repository.Valid()
      modifies repository
      ensures repository.Valid()
      ensures Written(r, repository.Snapshot()) == UpdateOutcome(old(repository.Snapshot()), entity, repository.persist, fault)
    {
      if entity.id.None? {
        return Failure(StorageFailure(ID_MUST_NOT_BE_NULL));
      }
      var existing := FindById(entity.id.value);
      if existing.Failure? {
        return existing;
      }
      var toSave := entity.(createdAt := existing.value.createdAt);
      r := repository.Save(toSave, fault);
    }
  }
}
