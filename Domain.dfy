/** The values the hotel back office works with: the three entities (room
    types, room statuses and rooms), the failures its services raise, and
    the user-visible messages those failures carry. */
module Domain {
  import Decimal

  datatype Option<T> = None | Some(value: T)

  /** The exceptions the services raise, as values. */
  datatype Error =
    | NotFound(message: string)          // ResourceNotFoundException
    | IllegalArgument(message: string)   // IllegalArgumentException
    | InvalidData(message: string)       // InvalidDataException
    | StorageFailure(cause: string)      // any exception the store itself raises

  datatype Result<T> = Success(value: T) | Failure(error: Error)

  /** An entity as the generic layer sees it (`IEntity`): an id that is
      absent until the store assigns one, a creation timestamp kept as an
      opaque value, and the entity's own fields. */
  datatype Entity<D> = Entity(id: Option<int>, createdAt: int, fields: D)

  datatype TypeFields = TypeFields(name: string)
  datatype StatusFields = StatusFields(description: string)

  type TypeRoom = Entity<TypeFields>
  type StatusRoom = Entity<StatusFields>

  /** The columns of a room, plus the two transient references that reads
      and writes attach and the store never keeps. */
  datatype RoomFields = RoomFields(
    roomNumber: int,
    dailyRate: real,
    typeRoomId: int,
    statusRoomId: int,
    typeRoom: Option<TypeRoom>,
    statusRoom: Option<StatusRoom>)

  type Room = Entity<RoomFields>

  /** What the store keeps of a room: its columns, without the transient
      references. */
  function Persisted(f: RoomFields): (p: RoomFields)
    ensures p.typeRoom.None? && p.statusRoom.None?
    ensures p.roomNumber == f.roomNumber && p.dailyRate == f.dailyRate
    ensures p.typeRoomId == f.typeRoomId && p.statusRoomId == f.statusRoomId
  {
    f.(typeRoom := None, statusRoom := None)
  }

  /** A room stripped of its transient references. */
  function Bare(room: Room): Room {
    room.(fields := Persisted(room.fields))
  }

  /** The daily-rate floor, `new BigDecimal("60.00")`; BigDecimal's
      `compareTo` ignores scale, so it is the exact value 60. */
  const MIN_DAILY_RATE: real := 60.0

  const DUPLICATE_ROOM_NUMBER: string := "Já existe um quarto com o número informado!"
  const DAILY_RATE_TOO_LOW: string := "O valor mínimo da diária deve ser 60 reais"
  const DEPENDENCIES_NOT_FOUND: string := "Tipo ou Status do quarto não encontrado para os IDs fornecidos"
  const ROOM_NOT_FOUND_FOR_UPDATE: string := "Quarto não encontrado para atualização!"

  function ObjectNotFound(id: int): string {
    "Object not found with id: " + Decimal.IdString(id)
  }

  function ErrorSaving(cause: string): string {
    "Error saving object: " + cause
  }

  /** The not-found message names its id: two ids give the same message
      only if they are the same id. */
  lemma ObjectNotFoundNamesId(a: int, b: int)
    requires ObjectNotFound(a) == ObjectNotFound(b)
    ensures a == b
  {
    var prefix := "Object not found with id: ";
    assert Decimal.IdString(a) == ObjectNotFound(a)[|prefix|..];
    assert Decimal.IdString(b) == ObjectNotFound(b)[|prefix|..];
    Decimal.IdStringInjective(a, b);
  }
}
