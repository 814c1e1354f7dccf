/** The process-wide game phase flag shared by all routes (`app/lib/gameStatus.ts`). */
module GamePhase {
  import opened Wrappers

  datatype Phase = Waiting | Active | Stopped

  /** The phase as it travels in JSON. */
  function PhaseName(p: Phase): string {
    match p
    case Waiting => "waiting"
    case Active => "active"
    case Stopped => "stopped"
  }

  /** `['waiting', 'active', 'stopped'].includes(s)`, giving the phase named. */
  function ParsePhase(s: string): (p: Option<Phase>)
    ensures p.Some? <==> s == "waiting" || s == "active" || s == "stopped"
    ensures p.Some? ==> PhaseName(p.value) == s
  {
    if s == "waiting" then Some(Waiting)
    else if s == "active" then Some(Active)
    else if s == "stopped" then Some(Stopped)
    else None
  }

  lemma PhaseNameRoundTrip(p: Phase)
    ensures ParsePhase(PhaseName(p)) == Some(p)
  {
  }

  /** The single mutable flag; readers and writers share one object. */
  class GameState {
    var phase: Phase

    /** A fresh process starts in the waiting phase. */
    constructor ()
      ensures phase == Waiting
    {
      phase := Waiting;
    }

    function Get(): Phase
      reads this
    {
      phase
    }

    /** `setGameStatus`: overwrites the flag with no check of the prior phase,
        so setting the same phase twice leaves the same state as setting it once. */
    method Set(p: Phase)
      modifies this
      ensures phase == p
    {
      phase := p;
    }

    predicate IsActive()
      reads this
    {
      phase == Active
    }

    predicate IsWaiting()
      reads this
    {
      phase == Waiting
    }

    predicate IsStopped()
      reads this
    {
      phase == Stopped
    }
  }

  /** Exactly one of the three phase tests holds at any time. */
  lemma ExactlyOnePhase(g: GameState)
    ensures g.IsActive() <==> !g.IsWaiting() && !g.IsStopped()
    ensures g.IsWaiting() <==> !g.IsActive() && !g.IsStopped()
    ensures g.IsStopped() <==> !g.IsActive() && !g.IsWaiting()
  {
  }
}
