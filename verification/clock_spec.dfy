/** The two-sided chess clock as a state machine over values.

    Each handler of the clock screen (left tap, right tap, pause, reset,
    the periodic tick and the winner check) is a function from the old
    state to the new one. The class in module ClockEngine updates its
    fields in place and is proved to follow these functions. */
module ClockSpec {

  /** Both clocks start at eight minutes, in milliseconds. */
  const INITIAL_TIME: int := 8 * 60 * 1000

  /** Left is the orange half of the screen, Right the blue half. */
  datatype Side = Left | Right

  datatype Option<T> = None | Some(value: T)

  /** The mutable cells of the screen: the two remaining times, the two
      running flags, the paused flag and the timestamp of the last tick
      or tap. */
  datatype ClockState = ClockState(
    leftTime: int,
    rightTime: int,
    leftRunning: bool,
    rightRunning: bool,
    isPaused: bool,
    lastTimestamp: int)

  /** What the winner check yields: the new state and the side that won,
      if the check ended the game. */
  datatype Checked = Checked(state: ClockState, winner: Option<Side>)

  function Max(a: int, b: int): int {
    if a < b then b else a
  }

  function Other(side: Side): Side {
    if side == Left then Right else Left
  }

  function TimeOf(s: ClockState, side: Side): int {
    if side == Left then s.leftTime else s.rightTime
  }

  function RunningOf(s: ClockState, side: Side): bool {
    if side == Left then s.leftRunning else s.rightRunning
  }

  /** The invariant of every reachable state: both times lie in
      [0, INITIAL_TIME], at most one side runs, and a paused clock has
      neither side running. */
  predicate Valid(s: ClockState) {
    && 0 <= s.leftTime <= INITIAL_TIME
    && 0 <= s.rightTime <= INITIAL_TIME
    && !(s.leftRunning && s.rightRunning)
    && (s.isPaused ==> !s.leftRunning && !s.rightRunning)
  }

  /** The guard under which the interval is installed and the winner is
      checked: some side runs and the clock is not paused. */
  predicate Counting(s: ClockState) {
    (s.leftRunning || s.rightRunning) && !s.isPaused
  }

  /** The state after a game has been ended by the winner check: both
      sides stopped, the clock paused, and one of the times exhausted. */
  predicate GameOver(s: ClockState) {
    && !s.leftRunning && !s.rightRunning && s.isPaused
    && (s.leftTime == 0 || s.rightTime == 0)
  }

  /** The state when the screen is mounted at time `now`. */
  function Init(now: int): (r: ClockState)
    ensures Valid(r) && !Counting(r) && !r.isPaused
    ensures TimeOf(r, Left) == TimeOf(r, Right) == INITIAL_TIME
    ensures r.lastTimestamp == now
  {
    ClockState(INITIAL_TIME, INITIAL_TIME, false, false, false, now)
  }

  /** A tap on the left half: the clock is unpaused; if the left side was
      running it hands over to the right, otherwise the left side starts
      and the right side stops; the tick timestamp restarts at `now`. */
  function LeftPress(s: ClockState, now: int): (r: ClockState)
    ensures !r.isPaused && r.lastTimestamp == now
    ensures r.leftRunning != r.rightRunning
    ensures r.rightRunning <==> s.leftRunning
    ensures r.leftTime == s.leftTime && r.rightTime == s.rightTime
    ensures Counting(r)
    ensures Valid(s) ==> Valid(r)
  {
    // The source clears the flag only when it is set; clearing it
    // unconditionally has the same effect.
    var unpaused := s.(isPaused := false);
    var toggled :=
      if s.leftRunning then unpaused.(leftRunning := false, rightRunning := true)
      else unpaused.(leftRunning := true, rightRunning := false);
    toggled.(lastTimestamp := now)
  }

  /** A tap on the right half, the mirror image of LeftPress. */
  function RightPress(s: ClockState, now: int): (r: ClockState)
    ensures !r.isPaused && r.lastTimestamp == now
    ensures r.leftRunning != r.rightRunning
    ensures r.leftRunning <==> s.rightRunning
    ensures r.leftTime == s.leftTime && r.rightTime == s.rightTime
    ensures Counting(r)
    ensures Valid(s) ==> Valid(r)
  {
    var unpaused := s.(isPaused := false);
    var toggled :=
      if s.rightRunning then unpaused.(rightRunning := false, leftRunning := true)
      else unpaused.(rightRunning := true, leftRunning := false);
    toggled.(lastTimestamp := now)
  }

  /** The pause button: both sides stop and the clock is paused; the
      times and the timestamp are kept. */
  function Pause(s: ClockState): (r: ClockState)
    ensures r.isPaused && !r.leftRunning && !r.rightRunning
    ensures r.leftTime == s.leftTime && r.rightTime == s.rightTime
    ensures r.lastTimestamp == s.lastTimestamp
    ensures Valid(s) ==> Valid(r)
  {
    s.(isPaused := true, leftRunning := false, rightRunning := false)
  }

  /** The reset button: both times back to INITIAL_TIME, both sides
      stopped and the clock unpaused, whatever the state was before. The
      timestamp is left as it was. */
  function Reset(s: ClockState): (r: ClockState)
    ensures Valid(r) && !Counting(r) && !r.isPaused
    ensures TimeOf(r, Left) == TimeOf(r, Right) == INITIAL_TIME
    ensures r.lastTimestamp == s.lastTimestamp
  {
    s.(leftTime := INITIAL_TIME, rightTime := INITIAL_TIME,
       leftRunning := false, rightRunning := false, isPaused := false)
  }

  /** The time of one side after a tick that saw `elapsed` milliseconds:
      a running side with time left loses the elapsed time, floored at
      zero; otherwise the time is kept. */
  function Drain(time: int, running: bool, elapsed: int): int {
    if running && time > 0 then Max(time - elapsed, 0) else time
  }

  /** One run of the interval body at time `now`. Nothing happens unless
      the clock is counting (the interval is only installed then);
      otherwise the running side is drained by the time elapsed since
      the last tick or tap and the timestamp moves to `now`. */
  function Tick(s: ClockState, now: int): (r: ClockState)
    requires now >= s.lastTimestamp
    ensures !Counting(s) ==> r == s
    ensures Counting(s) ==> r.lastTimestamp == now
    ensures r.leftRunning == s.leftRunning && r.rightRunning == s.rightRunning
    ensures r.isPaused == s.isPaused
    ensures forall side :: !RunningOf(s, side) ==> TimeOf(r, side) == TimeOf(s, side)
    ensures forall side :: TimeOf(s, side) >= 0 ==> 0 <= TimeOf(r, side) <= TimeOf(s, side)
    ensures forall side :: TimeOf(s, side) == 0 ==> TimeOf(r, side) == 0
    ensures forall side :: Counting(s) && RunningOf(s, side) && TimeOf(s, side) > 0 ==>
      TimeOf(r, side) == Max(TimeOf(s, side) - (now - s.lastTimestamp), 0)
    ensures Valid(s) ==> Valid(r)
  {
    if !Counting(s) then s
    else
      var elapsed := now - s.lastTimestamp;
      s.(leftTime := Drain(s.leftTime, s.leftRunning, elapsed),
         rightTime := Drain(s.rightTime, s.rightRunning, elapsed),
         lastTimestamp := now)
  }

  /** The state effects of ending the game: both sides stop and the
      clock is paused. */
  function EndGame(s: ClockState): (r: ClockState)
    ensures r.isPaused && !r.leftRunning && !r.rightRunning
    ensures GameOver(r) <==> s.leftTime == 0 || s.rightTime == 0
    ensures !Counting(r)
    ensures r.leftTime == s.leftTime && r.rightTime == s.rightTime
    ensures r.lastTimestamp == s.lastTimestamp
    ensures Valid(s) ==> Valid(r)
  {
    s.(leftRunning := false, rightRunning := false, isPaused := true)
  }

  /** The winner check, run while the clock is counting: a left time of
      zero ends the game with Right as winner, otherwise a right time of
      zero ends it with Left as winner; the left side is looked at
      first. */
  function CheckWinner(s: ClockState): (r: Checked)
    ensures r.winner == Some(Right) <==> Counting(s) && s.leftTime == 0
    ensures r.winner == Some(Left) <==> Counting(s) && s.leftTime != 0 && s.rightTime == 0
    ensures r.winner.Some? ==> GameOver(r.state) && r.state == EndGame(s)
    ensures r.winner.None? ==> r.state == s
    ensures Counting(r.state) ==> r.state.leftTime != 0 && r.state.rightTime != 0
    ensures Valid(s) ==> Valid(r.state)
  {
    if Counting(s) && s.leftTime == 0 then Checked(EndGame(s), Some(Right))
    else if Counting(s) && s.rightTime == 0 then Checked(EndGame(s), Some(Left))
    else Checked(s, None)
  }
}
