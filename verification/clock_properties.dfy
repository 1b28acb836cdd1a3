/** Properties of the clock over single handlers and over whole sequences
    of events, as the host's event loop delivers them one at a time. */
module ClockProperties {
  import opened ClockSpec

  /** What the event loop can deliver: a tap on either half or on a
      button at some instant, a firing of the interval, or the winner
      check that follows a change of state. */
  datatype Event =
    | LeftPressed(at: int)
    | RightPressed(at: int)
    | PausePressed
    | ResetPressed
    | Ticked(at: int)
    | WinnerChecked

  /** The final state of a run and the winners it announced, in order. */
  datatype Outcome = Outcome(state: ClockState, winners: seq<Side>)

  predicate IsTap(e: Event) {
    e.LeftPressed? || e.RightPressed?
  }

  /** The clock reading carried by an event, or `t` when it carries none. */
  function Stamp(e: Event, t: int): int {
    if e.LeftPressed? || e.RightPressed? || e.Ticked? then e.at else t
  }

  /** The events are read from a clock that never runs backwards and
      that stood at `t` before the first of them. */
  predicate Chronological(t: int, evs: seq<Event>)
    decreases |evs|
  {
    evs == [] || (t <= Stamp(evs[0], t) && Chronological(Stamp(evs[0], t), evs[1..]))
  }

  /** The handler an event runs. */
  function Step(s: ClockState, e: Event): (r: Checked)
    requires e.Ticked? ==> e.at >= s.lastTimestamp
    ensures r.state.lastTimestamp == s.lastTimestamp || r.state.lastTimestamp == Stamp(e, s.lastTimestamp)
    ensures !e.WinnerChecked? ==> r.winner == None
    ensures Valid(s) ==> Valid(r.state)
  {
    match e
    case LeftPressed(at) => Checked(LeftPress(s, at), None)
    case RightPressed(at) => Checked(RightPress(s, at), None)
    case PausePressed => Checked(Pause(s), None)
    case ResetPressed => Checked(Reset(s), None)
    case Ticked(at) => Checked(Tick(s, at), None)
    case WinnerChecked => CheckWinner(s)
  }

  /** The handlers of `evs` run one after another from `s`, with the
      clock standing at `t` before the first of them. */
  function Run(s: ClockState, t: int, evs: seq<Event>): (r: Outcome)
    requires s.lastTimestamp <= t && Chronological(t, evs)
    decreases |evs|
  {
    if evs == [] then Outcome(s, [])
    else
      var c := Step(s, evs[0]);
      var rest := Run(c.state, Stamp(evs[0], t), evs[1..]);
      Outcome(rest.state, (if c.winner.Some? then [c.winner.value] else []) + rest.winners)
  }

  /** Every run from a valid state ends in a valid state: both times stay
      in [0, INITIAL_TIME], the two sides never run together and a paused
      clock runs neither side. */
  lemma {:induction false} RunKeepsValid(s: ClockState, t: int, evs: seq<Event>)
    requires Valid(s)
    requires s.lastTimestamp <= t && Chronological(t, evs)
    ensures Valid(Run(s, t, evs).state)
    decreases |evs|
  {
    if evs != [] {
      RunKeepsValid(Step(s, evs[0]).state, Stamp(evs[0], t), evs[1..]);
    }
  }

  /** Between two resets a side's time never grows and never drops below
      zero, whatever taps, pauses, ticks and checks happen. */
  lemma {:induction false} RunWithoutResetNeverGains(s: ClockState, t: int, evs: seq<Event>, side: Side)
    requires s.lastTimestamp <= t && Chronological(t, evs)
    requires forall i :: 0 <= i < |evs| ==> evs[i] != ResetPressed
    requires TimeOf(s, side) >= 0
    ensures 0 <= TimeOf(Run(s, t, evs).state, side) <= TimeOf(s, side)
    decreases |evs|
  {
    if evs != [] {
      var c := Step(s, evs[0]);
      assert 0 <= TimeOf(c.state, side) <= TimeOf(s, side);
      RunWithoutResetNeverGains(c.state, Stamp(evs[0], t), evs[1..], side);
    }
  }

  /** A stretch of ticks while one side counts drains that side by the
      real time elapsed between the first and the last timestamp, floored
      at zero, however many ticks it took; the other side keeps its time. */
  lemma {:induction false} TicksDrainElapsedTime(s: ClockState, t: int, evs: seq<Event>, side: Side)
    requires Valid(s) && Counting(s) && RunningOf(s, side)
    requires s.lastTimestamp <= t && Chronological(t, evs)
    requires forall i :: 0 <= i < |evs| ==> evs[i].Ticked?
    ensures var r := Run(s, t, evs);
      && r.winners == []
      && s.lastTimestamp <= r.state.lastTimestamp
      && (evs != [] ==> r.state.lastTimestamp == evs[|evs| - 1].at)
      && TimeOf(r.state, side) == Max(TimeOf(s, side) - (r.state.lastTimestamp - s.lastTimestamp), 0)
      && TimeOf(r.state, Other(side)) == TimeOf(s, Other(side))
    decreases |evs|
  {
    if evs != [] {
      var s1 := Tick(s, evs[0].at);
      assert Step(s, evs[0]) == Checked(s1, None);
      TicksDrainElapsedTime(s1, evs[0].at, evs[1..], side);
      var r := Run(s1, evs[0].at, evs[1..]);
      assert Run(s, t, evs) == r;
      assert evs[1..] != [] ==> evs[1..][|evs[1..]| - 1] == evs[|evs| - 1];
    }
  }

  /** A clock that is not counting stays so until the next tap, and
      announces no winner meanwhile. */
  lemma {:induction false} IdleIsSilent(s: ClockState, t: int, evs: seq<Event>)
    requires !Counting(s)
    requires s.lastTimestamp <= t && Chronological(t, evs)
    requires forall i :: 0 <= i < |evs| ==> !IsTap(evs[i])
    ensures Run(s, t, evs).winners == []
    ensures !Counting(Run(s, t, evs).state)
    decreases |evs|
  {
    if evs != [] {
      assert !IsTap(evs[0]);
      IdleIsSilent(Step(s, evs[0]).state, Stamp(evs[0], t), evs[1..]);
    }
  }

  /** Once the game is over, ticks, pauses and winner checks change
      nothing at all, the timestamp included. */
  lemma {:induction false} GameOverIsStable(s: ClockState, t: int, evs: seq<Event>)
    requires GameOver(s)
    requires s.lastTimestamp <= t && Chronological(t, evs)
    requires forall i :: 0 <= i < |evs| ==> !IsTap(evs[i]) && evs[i] != ResetPressed
    ensures Run(s, t, evs) == Outcome(s, [])
    decreases |evs|
  {
    if evs != [] {
      assert !IsTap(evs[0]) && evs[0] != ResetPressed;
      assert Step(s, evs[0]) == Checked(s, None);
      GameOverIsStable(s, Stamp(evs[0], t), evs[1..]);
    }
  }

  /** Between two taps the game is won at most once. */
  lemma {:induction false} AtMostOneWinner(s: ClockState, t: int, evs: seq<Event>)
    requires s.lastTimestamp <= t && Chronological(t, evs)
    requires forall i :: 0 <= i < |evs| ==> !IsTap(evs[i])
    ensures |Run(s, t, evs).winners| <= 1
    decreases |evs|
  {
    if evs != [] {
      assert !IsTap(evs[0]);
      var c := Step(s, evs[0]);
      if c.winner.Some? {
        IdleIsSilent(c.state, Stamp(evs[0], t), evs[1..]);
      } else {
        AtMostOneWinner(c.state, Stamp(evs[0], t), evs[1..]);
      }
    }
  }

  /** The state with the two halves of the screen exchanged. */
  function Mirror(s: ClockState): (r: ClockState)
    ensures forall side :: TimeOf(r, side) == TimeOf(s, Other(side))
    ensures forall side :: RunningOf(r, side) == RunningOf(s, Other(side))
    ensures r.isPaused == s.isPaused && r.lastTimestamp == s.lastTimestamp
    ensures Valid(r) <==> Valid(s)
  {
    s.(leftTime := s.rightTime, rightTime := s.leftTime,
       leftRunning := s.rightRunning, rightRunning := s.leftRunning)
  }

  /** The right tap is the left tap seen in a mirror, and a tick treats
      both halves alike. */
  lemma HalvesAreSymmetric(s: ClockState, now: int)
    ensures Mirror(Mirror(s)) == s
    ensures RightPress(s, now) == Mirror(LeftPress(Mirror(s), now))
    ensures now >= s.lastTimestamp ==> Tick(Mirror(s), now) == Mirror(Tick(s, now))
  {
  }

  /** Pausing twice is pausing once; a paused clock does not tick. */
  lemma PauseIsIdempotent(s: ClockState, now: int)
    ensures Pause(Pause(s)) == Pause(s)
    ensures now >= s.lastTimestamp ==> Tick(Pause(s), now) == Pause(s)
  {
  }

  /** Reset forgets everything about the game before it. */
  lemma ResetForgetsHistory(s1: ClockState, s2: ClockState)
    requires s1.lastTimestamp == s2.lastTimestamp
    ensures Reset(s1) == Reset(s2)
    ensures Reset(s1) == Init(s1.lastTimestamp)
  {
  }

  /** A tap after the game is over starts a side again, but only until
      the next winner check: one of the times is still zero, so the check
      ends the game again with the same winner as before, whichever half
      was tapped. */
  lemma TapAfterGameOverEndsAgain(s: ClockState, side: Side, now: int)
    requires GameOver(s)
    ensures var tapped := if side == Left then LeftPress(s, now) else RightPress(s, now);
      var c := CheckWinner(tapped);
      && Counting(tapped)
      && c.winner == Some(if s.leftTime == 0 then Right else Left)
      && GameOver(c.state)
      && c.state.leftTime == s.leftTime && c.state.rightTime == s.rightTime
  {
  }

  /** Left taps, and after a whole clock's worth of time the left side
      is out: the check ends the game with Right, the blue half, as the
      winner. A further tap of the right half before a reset starts the
      right clock again, and the next check ends the game once more with
      Right as the winner. */
  lemma LeftRunsOut(t0: int)
    ensures var s := Tick(LeftPress(Init(t0), t0), t0 + INITIAL_TIME);
      && s.leftTime == 0 && s.rightTime == INITIAL_TIME
      && CheckWinner(s) == Checked(EndGame(s), Some(Right))
      && GameOver(CheckWinner(s).state)
      && var again := RightPress(CheckWinner(s).state, t0 + INITIAL_TIME);
         && Counting(again) && again.rightRunning
         && CheckWinner(again) == Checked(EndGame(again), Some(Right))
  {
  }

  /** A tap, a tick a tenth of a second later, then the other side's tap:
      only the left clock has moved, and the right side now runs. */
  lemma TapTickTap(t0: int)
    ensures var s := Tick(LeftPress(Init(t0), t0), t0 + 100);
      && s.leftTime == INITIAL_TIME - 100 && s.rightTime == INITIAL_TIME
      && s.leftRunning && !s.rightRunning
      && var s2 := RightPress(s, t0 + 100);
         s2.rightRunning && !s2.leftRunning && s2.leftTime == s.leftTime && s2.rightTime == s.rightTime
  {
  }
}
