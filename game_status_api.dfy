/** `GET` and `POST /api/game-status`: read the phase, or set it to any named phase. */
module GameStatusApi {
  import opened GamePhase

  datatype StatusResponse = StatusBody(status: Phase) | InvalidStatus

  function HttpStatus(r: StatusResponse): int {
    if r.StatusBody? then 200 else 400
  }

  method Get(game: GameState) returns (r: StatusResponse)
    ensures r == StatusBody(game.phase) && HttpStatus(r) == 200
  {
    r := StatusBody(game.Get());
  }

  /** Every transition is allowed, including stopped to waiting; unlike a game
      reset this never touches the player records (it has no access to them). */
  method Post(game: GameState, status: string) returns (r: StatusResponse)
    modifies game
    ensures ParsePhase(status).Some? ==>
      game.phase == ParsePhase(status).value && r == StatusBody(game.phase)
    ensures ParsePhase(status).None? ==> r == InvalidStatus && game.phase == old(game.phase)
    ensures HttpStatus(r) == 400 <==> ParsePhase(status).None?
  {
    var p := ParsePhase(status);
    if p.Some? {
      game.Set(p.value);
      r := StatusBody(game.Get());
    } else {
      r := InvalidStatus;
    }
  }
}
