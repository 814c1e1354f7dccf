/** `POST /api/game-control`: the administrator's start, stop and reset actions. */
module GameControlApi {
  import opened GamePhase
  import opened UserStore

  datatype ControlResponse = Done(message: string, status: Phase) | InvalidAction

  function HttpStatus(r: ControlResponse): int {
    if r.Done? then 200 else 400
  }

  /** Any action is accepted from any phase: stop does not require an active
      game and start does not require a waiting one. */
  method Post(action: string, game: GameState, users: UserTable) returns (r: ControlResponse)
    requires users.Valid()
    modifies game, users
    ensures users.Valid()
    ensures action == "start" ==>
      game.phase == Active && r == Done("Game started successfully", Active)
      && users.rows == old(users.rows) && users.nextId == old(users.nextId)
    ensures action == "stop" ==>
      game.phase == Stopped && r == Done("Game stopped successfully", Stopped)
      && users.rows == old(users.rows) && users.nextId == old(users.nextId)
    ensures action == "reset" ==>
      game.phase == Waiting && r == Done("Game reset successfully", Waiting) && users.rows == []
    ensures action != "start" && action != "stop" && action != "reset" ==>
      r == InvalidAction && game.phase == old(game.phase)
      && users.rows == old(users.rows) && users.nextId == old(users.nextId)
    ensures r.Done? ==> r.status == game.phase
    ensures HttpStatus(r) == 400 <==> action != "start" && action != "stop" && action != "reset"
  {
    if action == "start" {
      game.Set(Active);
      r := Done("Game started successfully", game.Get());
    } else if action == "stop" {
      game.Set(Stopped);
      r := Done("Game stopped successfully", game.Get());
    } else if action == "reset" {
      game.Set(Waiting);
      users.DeleteAll();
      r := Done("Game reset successfully", game.Get());
    } else {
      r := InvalidAction;
    }
  }
}
