/**
 * The game manager: the total score, its change notifications, and the
 * pause flag with its guarded transitions.
 */
module Game {

  /** A C# `int`. */
  newtype int32 = x: int | -0x8000_0000 <= x < 0x8000_0000

  /** The C# `int` that an unchecked addition with mathematical result `x` produces (two's complement wrap-around). */
  function Wrap32(x: int): (r: int32)
    ensures -0x8000_0000 <= x < 0x8000_0000 ==> r as int == x
    ensures (r as int - x) % 0x1_0000_0000 == 0
  {
    ((x + 0x8000_0000) % 0x1_0000_0000 - 0x8000_0000) as int32
  }

  class GameManager {
    var totalScore: int32
    var isPaused: bool
    /** The values passed to OnScoreChanged, oldest first. */
    var scoreChanges: seq<int32>
    /** The values passed to OnPauseChanged, oldest first. */
    var pauseChanges: seq<bool>

    constructor ()
      ensures totalScore == 0 && !isPaused && scoreChanges == [] && pauseChanges == []
    {
      totalScore := 0;
      isPaused := false;
      scoreChanges := [];
      pauseChanges := [];
    }

    method ResetScore()
      modifies this`totalScore, this`scoreChanges
      ensures totalScore == 0
      ensures scoreChanges == old(scoreChanges) + [0]
    {
      totalScore := 0;
      scoreChanges := scoreChanges + [totalScore];
    }

    method AddScore(score: int32)
      modifies this`totalScore, this`scoreChanges
      ensures totalScore == Wrap32(old(totalScore) as int + score as int)
      ensures scoreChanges == old(scoreChanges) + [totalScore]
    {
      totalScore := Wrap32(totalScore as int + score as int);
      scoreChanges := scoreChanges + [totalScore];
    }

    method Pause()
      modifies this`isPaused, this`pauseChanges
      ensures isPaused
      ensures pauseChanges == if old(isPaused) then old(pauseChanges) else old(pauseChanges) + [true]
    {
      if isPaused { return; }
      isPaused := true;
      pauseChanges := pauseChanges + [true];
    }

    method Resume()
      modifies this`isPaused, this`pauseChanges
      ensures !isPaused
      ensures pauseChanges == if old(isPaused) then old(pauseChanges) + [false] else old(pauseChanges)
    {
      if !isPaused { return; }
      isPaused := false;
      pauseChanges := pauseChanges + [false];
    }

    /** The Resume step of Replay; the scene reload that follows it is not modelled. */
    method Replay()
      modifies this`isPaused, this`pauseChanges
      ensures !isPaused
      ensures pauseChanges == if old(isPaused) then old(pauseChanges) + [false] else old(pauseChanges)
    {
      Resume();
    }

    /** GetTotalScore: the score as it stands, with no side effect. */
    function GetTotalScore(): (score: int32)
      reads this
      ensures score == totalScore
    {
      totalScore
    }
  }

  /** Pausing and then resuming leaves the game unpaused with the score untouched, and raises at most one event each. */
  method PauseThenResume(g: GameManager)
    modifies g
    ensures !g.isPaused && g.totalScore == old(g.totalScore) && g.scoreChanges == old(g.scoreChanges)
    ensures g.pauseChanges == if old(g.isPaused) then old(g.pauseChanges) + [false] else old(g.pauseChanges) + [true, false]
  {
    g.Pause();
    g.Resume();
  }
}
