/** The table of player records behind every route (the `user` model of the
    database), held in memory. Rows are kept in creation order, which is the
    order in which `findMany` is taken to return them. */
module UserStore {
  import opened Wrappers
  import opened Digits

  datatype Status = InProgress | Completed

  /** One player record. Times are milliseconds since the epoch. */
  datatype Player = Player(
    id: string,
    name: string,
    roll: string,
    points: int,
    status: Status,
    startTime: int,
    finishTime: Option<int>)

  /** What the routes keep true of every record: points come in steps of 10
      from 0, and a finish time is stamped exactly when the player completed. */
  predicate WellFormed(p: Player) {
    p.points >= 0 && p.points % 10 == 0 && (p.status == Completed <==> p.finishTime.Some?)
  }

  predicate AllWellFormed(rows: seq<Player>) {
    forall i :: 0 <= i < |rows| ==> WellFormed(rows[i])
  }

  predicate UniqueIds(rows: seq<Player>) {
    forall i, j :: 0 <= i < j < |rows| ==> rows[i].id != rows[j].id
  }

  /** `findUnique({ where: { id } })`: the position of the record with this id. */
  function IndexOf(rows: seq<Player>, id: string): (r: Option<nat>)
    ensures r.Some? ==> r.value < |rows| && rows[r.value].id == id
    ensures r.None? ==> forall i :: 0 <= i < |rows| ==> rows[i].id != id
  {
    if rows == [] then None
    else if rows[0].id == id then Some(0)
    else match IndexOf(rows[1..], id)
      case None => None
      case Some(k) => Some(k + 1)
  }

  /** The record `create` stores for a new player: the column defaults are
      0 points, status InProgress, start time now and no finish time. */
  function NewPlayer(id: string, name: string, roll: string, now: int): Player {
    Player(id, name, roll, 0, InProgress, now, None)
  }

  class UserTable {
    var rows: seq<Player>
    /** Ids are handed out from a counter, rendered in decimal. */
    var nextId: nat

    ghost predicate Valid()
      reads this
    {
      UniqueIds(rows) &&
      forall i :: 0 <= i < |rows| ==> DigitsValue(rows[i].id) < nextId
    }

    constructor ()
      ensures Valid() && rows == []
    {
      rows := [];
      nextId := 0;
    }

    /** `prisma.user.create`: appends one record under an id no record has. */
    method Create(name: string, roll: string, now: int) returns (u: Player)
      requires Valid()
      modifies this
      ensures Valid()
      ensures u == NewPlayer(NatToString(old(nextId)), name, roll, now)
      ensures rows == old(rows) + [u] && nextId == old(nextId) + 1
      ensures forall i :: 0 <= i < |old(rows)| ==> old(rows)[i].id != u.id
    {
      u := NewPlayer(NatToString(nextId), name, roll, now);
      NatToStringRoundTrip(nextId);
      rows := rows + [u];
      nextId := nextId + 1;
    }

    /** `prisma.user.update({ where: { id } })`: replaces the record at `i`. */
    method Update(i: nat, u: Player)
      requires Valid() && i < |rows| && u.id == rows[i].id
      modifies this
      ensures Valid()
      ensures rows == old(rows)[i := u] && nextId == old(nextId)
    {
      rows := rows[i := u];
    }

    /** `prisma.user.deleteMany({})`: removes every record. */
    method DeleteAll()
      requires Valid()
      modifies this
      ensures Valid()
      ensures rows == [] && nextId == old(nextId)
    {
      rows := [];
    }
  }
}
