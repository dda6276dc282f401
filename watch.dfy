/**
 * The respawn watch as a state machine. The source runs it as a coroutine
 * whose handle is kept in `respawnRoutine`; the engine resumes it once per
 * frame, and StartCoroutine runs its first pass synchronously, before the
 * handle is returned to the caller.
 */
module Watch {

  /**
   * The `respawnRoutine` field: null, the handle of a coroutine that is still
   * polling, or a handle whose coroutine is no longer running.
   */
  datatype Routine = NoRoutine | Live | Stale

  /**
   * How one pass of the coroutine ends: suspended until the next frame, run to
   * completion (auto spawn handed over), or aborted by an exception thrown from
   * the auto spawn.
   */
  datatype Step = Waiting | Finished | Faulted

  /** The loop's exit test: every live unit is in the hole, or the cooldown is over and the zone is free. */
  predicate Exits(allInHole: bool, timeReady: bool, unitInSpawn: bool)
  {
    allInHole || (timeReady && !unitInSpawn)
  }

  /**
   * The field after the engine resumes a live coroutine: a pass that runs to
   * completion clears it; an exception ends the coroutine with the field still set.
   */
  function AfterResume(s: Step): Routine
  {
    match s
    case Waiting => Live
    case Finished => NoRoutine
    case Faulted => Stale
  }

  /**
   * The field after Respawn starts the coroutine, as written: the handle
   * StartCoroutine returns is stored after the first pass, so it is stored
   * even when that pass already ran to completion and cleared the field.
   */
  function AfterStartAsWritten(s: Step): Routine
  {
    match s
    case Waiting => Live
    case Finished => Stale
    case Faulted => Stale
  }
}
