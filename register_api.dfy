/** `POST /api/register`: creates a player record from a name and a roll number. */
module RegisterApi {
  import opened Wrappers
  import opened UserStore

  datatype RegisterResponse = Registered(user: Player) | MissingNameOrRoll

  function HttpStatus(r: RegisterResponse): int {
    if r.Registered? then 200 else 400
  }

  /** The handler. It does not consult the game phase, so it behaves the same
      whether the game is waiting, active or stopped. */
  method Post(users: UserTable, name: Option<string>, roll: Option<string>, now: int)
      returns (r: RegisterResponse)
    requires users.Valid()
    modifies users
    ensures users.Valid()
    ensures FalsyText(name) || FalsyText(roll) ==>
      r == MissingNameOrRoll && users.rows == old(users.rows) && users.nextId == old(users.nextId)
    ensures !FalsyText(name) && !FalsyText(roll) ==>
      && r.Registered?
      && users.rows == old(users.rows) + [r.user]
      && r.user == NewPlayer(r.user.id, name.value, roll.value, now)
      && (forall i :: 0 <= i < |old(users.rows)| ==> old(users.rows)[i].id != r.user.id)
    ensures AllWellFormed(old(users.rows)) ==> AllWellFormed(users.rows)
    ensures HttpStatus(r) == 400 <==> FalsyText(name) || FalsyText(roll)
  {
    if FalsyText(name) || FalsyText(roll) {
      return MissingNameOrRoll;
    }
    var u := users.Create(name.value, roll.value, now);
    r := Registered(u);
  }

  /** Nothing checks for duplicates: the same name and roll registered twice
      give two records with different ids. */
  method RegisterTwice(users: UserTable, name: string, roll: string, now: int)
      returns (first: Player, second: Player)
    requires users.Valid() && name != "" && roll != ""
    modifies users
    ensures users.Valid()
    ensures users.rows == old(users.rows) + [first, second]
    ensures first.id != second.id
    ensures first.name == second.name == name && first.roll == second.roll == roll
  {
    var r1 := Post(users, Some(name), Some(roll), now);
    var r2 := Post(users, Some(name), Some(roll), now);
    first, second := r1.user, r2.user;
    assert users.rows[|users.rows| - 2] == first;
  }
}
