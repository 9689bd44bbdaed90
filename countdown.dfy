/** The one-second countdown of script.js: updateTimer together with the interval
    callback that startGame installs and that cancels itself. */
module Countdown {

  const GameDuration: int := 30   // seconds

  /** timeLeft, and whether the interval is still installed. */
  datatype Clock = Clock(timeLeft: int, running: bool)

  const StartClock: Clock := Clock(GameDuration, true)

  /** One firing of the interval, as far as the clock is concerned: a cancelled interval
      never fires; otherwise updateTimer decrements a positive timeLeft, and the interval
      cancels itself as soon as timeLeft is not positive. (When timeLeft is already 0,
      updateTimer ends the game instead; that effect belongs to the game, not the clock.) */
  function ClockTick(c: Clock): (d: Clock)
    ensures !c.running ==> d == c
    ensures d.timeLeft <= c.timeLeft
    ensures d.running <==> c.running && 0 < d.timeLeft
    ensures c.running && 0 < c.timeLeft ==> d.timeLeft == c.timeLeft - 1
    ensures c.running && c.timeLeft <= 0 ==> d == Clock(c.timeLeft, false)
  {
    if !c.running then c
    else if 0 < c.timeLeft then Clock(c.timeLeft - 1, !(c.timeLeft - 1 <= 0))
    else Clock(c.timeLeft, false)
  }

  /** The clock after n firings. */
  function ClockAfter(c: Clock, n: nat): Clock
  {
    if n == 0 then c else ClockTick(ClockAfter(c, n - 1))
  }

  /** Started at 30 seconds, the clock counts down one second per firing, reaches 0 on
      the 30th firing and is cancelled by that same firing; it never fires with timeLeft
      already 0, which is the only case in which updateTimer calls endGame(true). */
  lemma {:induction false} ClockRunsOut(n: nat)
    ensures ClockAfter(StartClock, n) == if n < GameDuration then Clock(GameDuration - n, true) else Clock(0, false)
    ensures ClockAfter(StartClock, n).running ==> 0 < ClockAfter(StartClock, n).timeLeft
  {
    if 0 < n {
      ClockRunsOut(n - 1);
    }
  }
}
