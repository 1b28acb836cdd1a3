/** The clock screen's mutable cells as an object, with one method per
    handler. Each method updates the fields in place and is proved to
    take the object from State() to the state the matching function of
    ClockSpec gives. */
module ClockEngine {
  import opened ClockSpec

  class ChessClock {
    var leftTime: int
    var rightTime: int
    var leftRunning: bool
    var rightRunning: bool
    var isPaused: bool
    var lastTimestamp: int

    /** The fields, read together as one value. */
    function State(): ClockState
      reads this
    {
      ClockState(leftTime, rightTime, leftRunning, rightRunning, isPaused, lastTimestamp)
    }

    ghost predicate Valid()
      reads this
    {
      ClockSpec.Valid(State())
    }

    /** Mounting the screen at time `now`. */
    constructor (now: int)
      ensures State() == Init(now)
      ensures Valid()
    {
      leftTime := INITIAL_TIME;
      rightTime := INITIAL_TIME;
      leftRunning := false;
      rightRunning := false;
      isPaused := false;
      lastTimestamp := now;
    }

    method HandleLeftPress(now: int)
      modifies this
      ensures State() == LeftPress(old(State()), now)
      ensures old(Valid()) ==> Valid()
    {
      if isPaused {
        isPaused := false;
      }
      if leftRunning {
        leftRunning := false;
        rightRunning := true;
      } else {
        leftRunning := true;
        rightRunning := false;
      }
      lastTimestamp := now;
    }

    method HandleRightPress(now: int)
      modifies this
      ensures State() == RightPress(old(State()), now)
      ensures old(Valid()) ==> Valid()
    {
      if isPaused {
        isPaused := false;
      }
      if rightRunning {
        rightRunning := false;
        leftRunning := true;
      } else {
        rightRunning := true;
        leftRunning := false;
      }
      lastTimestamp := now;
    }

    method HandlePause()
      modifies this
      ensures State() == Pause(old(State()))
      ensures old(Valid()) ==> Valid()
    {
      isPaused := true;
      leftRunning := false;
      rightRunning := false;
    }

    method HandleReset()
      modifies this
      ensures State() == Reset(old(State()))
      ensures Valid()
    {
      leftTime := INITIAL_TIME;
      rightTime := INITIAL_TIME;
      leftRunning := false;
      rightRunning := false;
      isPaused := false;
    }

    /** One firing of the interval at time `now`, which the host's clock
        guarantees is not earlier than the last tick or tap. */
    method Tick(now: int)
      requires now >= lastTimestamp
      modifies this
      ensures State() == ClockSpec.Tick(old(State()), now)
      ensures old(Valid()) ==> Valid()
    {
      if (leftRunning || rightRunning) && !isPaused {
        var elapsed := now - lastTimestamp;
        if leftRunning && leftTime > 0 {
          leftTime := Max(leftTime - elapsed, 0);
        }
        if rightRunning && rightTime > 0 {
          rightTime := Max(rightTime - elapsed, 0);
        }
        lastTimestamp := now;
      }
    }

    method EndGame()
      modifies this
      ensures State() == ClockSpec.EndGame(old(State()))
      ensures old(Valid()) ==> Valid()
    {
      leftRunning := false;
      rightRunning := false;
      isPaused := true;
    }

    /** The winner check of the effect body: it only runs while the clock
        is counting, and reports the side that won when it ends the game. */
    method CheckWinner() returns (winner: Option<Side>)
      modifies this
      ensures Checked(State(), winner) == ClockSpec.CheckWinner(old(State()))
      ensures old(Valid()) ==> Valid()
    {
      winner := None;
      if (leftRunning || rightRunning) && !isPaused {
        if leftTime == 0 {
          EndGame();
          winner := Some(Right);
        } else if rightTime == 0 {
          EndGame();
          winner := Some(Left);
        }
      }
    }
  }
}
