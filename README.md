# Fallen Hearts — a Dafny model of the game state machine

Fallen Hearts is a browser game.
A pulsing heart sits in the middle of a canvas, and small hearts fall from the top.
A click on a falling heart collects it and scores a point.
A heart that falls out of the bottom of the canvas costs 10 health.
At 0 health the game ends with "Game over! Try again!".
A 30-second countdown runs beside the animation.

This project models the game logic in `script.js`:
- the globals (score, health, gameOver, timeLeft, the main heart's pulse and the falling hearts);
- the animation frame (`animate`, with `animateMainHeart`, `createFallingHearts` and `animateFallingHearts`);
- the click handler;
- the timer callback (`updateTimer` and its interval);
- `endGame` and `startGame`.

Modules:
- `Hearts` (`hearts.dfy`): a falling heart as a value, the hit test, the click scan, spawning, and the fall step. The fall step has two specifications. One is a general recursive one (`Survivors`/`Misses`). The other holds under the ordering invariant (`FallOrdered`).
- `MainHeart` (`main_heart.dfy`): the pulse of the centre heart. The scale is counted in hundredths, so the source's 1.0 ± 0.01 steps become the integers 100 ± 1.
- `Countdown` (`countdown.dfy`): the timer as a value (seconds left, whether the interval is still installed) and one firing of the interval.
- `FallenHearts` (`game.dfy`): class `Game`, whose fields are the globals. Each handler is a method on it, proved to keep `Valid()` and to match the pure functions above.

The main invariant is about order. The hearts array only grows at the end (`push`), and every heart falls by the same 2 pixels per frame. So a heart's index is its age, and each heart is at least 2 pixels below the next one. Two things follow:
- At most one heart, the oldest (index 0), can cross the exit line in one frame. So a frame costs at most 10 health.
- When that miss ends the game, `endGame` empties the array at index 0. The reverse loop then stops without reading past the end.

Behaviour of the code that a reader might not expect (the model follows the code):
- The win branch is never reached. `updateTimer` calls `endGame(true)` only when it finds `timeLeft` at 0. The comment at script.js:180 and the "Time's up!" dialogue at script.js:163 show that this was meant to happen when the timer runs out. But the interval callback at script.js:213-215 cancels the interval on the same firing that takes `timeLeft` to 0, so `updateTimer` never sees 0. The game keeps running after the clock stops (`ClockAloneNeverEndsGame`).
- `endGame` has no guard. A second call overwrites the dialogue and clears the hearts again. `Game.EndGame` has no precondition on `gameOver`.
- The only thing that cancels the interval is `timeLeft <= 0` (script.js:213). A loss does not cancel it, so the countdown goes on after "Game over!". `Game.TimerTick` does not look at `gameOver`.
- `(Math.random() - 0.5) * 0.05` lies in the half-open interval [-0.025, 0.025), and can be exactly -0.025.

## Model

| member | source | states |
|---|---|---|
| Hearts.IsPointInHeart | script.js:67-75 | the hit test; a heart whose size is not positive is never hit, because a distance is never negative |
| Hearts.HitIffCloserThanRadius | script.js:67-75 | the squared-distance test used by the model holds exactly when the Euclidean distance from the click to the heart's centre is below 50 × size |
| Hearts.CentreHits | script.js:67-75 | a click on the centre of a heart of positive size hits it |
| Hearts.HitIndex | script.js:138-146 | the index where the reverse click scan stops: -1 when no heart is hit, otherwise a hit heart with no hit heart at any higher index |
| Hearts.RemoveAt | script.js:141 | splicing out index k leaves one element fewer, keeps the hearts before k and shifts the ones after it down by one |
| Hearts.NewHeart | script.js:97-103 | a spawned heart starts at y = -50 with rotation 0, x in [0, width), size in [0.2, 0.7), a colour index in 0..3 and a rotation speed in [-0.025, 0.025) |
| Hearts.Spawn | script.js:96-104 | the old hearts are kept as a prefix; exactly one heart is appended when the first draw is below 0.03, else none; the new heart starts at y = -50 with rotation 0 and its attributes in the spawn ranges |
| Hearts.Survivors | script.js:109-127 | the general fall step: at most as many hearts as before, and none of the kept (advanced) hearts is past the exit line |
| Hearts.Misses | script.js:109-127 | the number of hearts a fall step drops: at most the number of hearts, and 0 exactly when no advanced heart is past the exit line |
| Hearts.FallOrdered | script.js:109-127 | the fall step when only the oldest heart can exit: one heart fewer exactly when the oldest exits |
| Hearts.FallOrderedKeepsNewest | script.js:109-127 | the hearts FallOrdered keeps are the newest ones, in order, each advanced by one step |
| Hearts.SurvivorsAndMissesPartition | script.js:109-127 | in one fall step every heart is either kept or missed: kept + missed = count before |
| Hearts.NoExitKeepsAll | script.js:109-127 | if no heart crosses the exit line, nothing is missed and every heart is kept, moved by one step, in the same order |
| Hearts.SpawnKeepsOrder | script.js:97-104 | pushing a new heart at y = -50 keeps the hearts ordered by age with 2-pixel spacing, and keeps every heart's spawn attributes in range |
| Hearts.RemoveKeepsOrder | script.js:138-141 | removing any one heart keeps the ordering and the spawn attributes in range |
| Hearts.SurvivorsOrdered | script.js:109-127 | the hearts kept by a fall step stay ordered, shifted down by 2, and are all at or above the exit line |
| Hearts.OnlyOldestCanExit | script.js:109-124 | under the ordering, no heart other than the oldest can cross the exit line in one frame |
| Hearts.OrderedFallStep | script.js:108-128 | under the ordering, a frame misses exactly 1 heart when the oldest crosses the exit line and 0 otherwise, and the kept hearts are all hearts moved by one step, minus the oldest if it was missed |
| Hearts.FallKeepsOrder | script.js:108-128 | a fall step turns the ordering after a spawn back into the ordering the next frame starts from, and keeps the spawn attributes |
| MainHeart.PulseStep | script.js:78-88 | from a steady pulse the scale moves by exactly one step, up when the direction is 1 and down when it is -1, stays within one step of [0.8, 1.2], and the direction flips exactly when the new scale is outside [0.8, 1.2]; the hue advances by one mod 360 |
| MainHeart.PulseAfterStaysBounded | script.js:78-88 | after any number of frames from the start the pulse is steady, the scale lies in [0.79, 1.21], and the hue is the frame count mod 360 |
| MainHeart.NextHue | script.js:88 | taking the hue mod 360 each frame gives the same value as counting frames and taking the count mod 360 |
| Countdown.ClockTick | script.js:211-216 | a cancelled interval changes nothing; time never goes up; a running clock with time left loses exactly one second; a running clock with none left keeps its time and is cancelled; the interval stays installed exactly when it was running and time is left |
| Countdown.ClockRunsOut | script.js:206-216 | n firings after startGame leave 30 - n seconds with the interval installed while n < 30, and 0 seconds with it cancelled from then on |
| FallenHearts.Game.constructor | script.js:8-25 | the load-time state: score 0, health 100, not over, 30 seconds, no hearts, scale 1, growing, hue 0 |
| FallenHearts.Game.Start | script.js:202-216 | startGame resets score, health, the time and the hearts, clears gameOver and installs the interval, keeping the invariant |
| FallenHearts.Game.EndGame | script.js:160-172 | endGame, from any state, marks the game over, empties the hearts and shows the win or loss dialogue |
| FallenHearts.Game.UpdateTimer | script.js:175-182 | with time left, one second is taken off; with none, endGame(true) runs |
| FallenHearts.Game.TimerTick | script.js:211-216 | one firing of the interval follows ClockTick and touches nothing else, even after a loss, keeping the invariant |
| FallenHearts.Game.Click | script.js:131-147 | an ended game ignores clicks; otherwise the heart at HitIndex is removed and the score and "collected" dialogue go up by one, and a miss changes nothing |
| FallenHearts.Game.Frame | script.js:185-199 | an ended game ignores frames; otherwise the pulse steps, at most one heart spawns, every heart falls, health drops by 10 exactly when the oldest heart exits, and the game ends with health 0 and no hearts exactly when that takes health to 0; the invariant is kept |
| FallenHearts.Game.AnimateMainHeart | script.js:78-88 | the pulse fields become PulseStep of their old values |
| FallenHearts.Game.CreateFallingHearts | script.js:96-105 | the hearts become Spawn of the old hearts, and the age ordering and spawn ranges still hold |
| FallenHearts.Game.AnimateFallingHearts | script.js:108-128 | the reverse loop moves every heart, charges 10 health for the one heart that can exit, and ends the game at 0 health; the result is FallOrdered, or empty after a loss |
| FallenHearts.ClockAloneNeverEndsGame | script.js:202-216 | after startGame and 30 firings with no clicks or frames, the clock shows 0 and the interval is cancelled; a 31st firing leaves the clock as it is; the game is not over and score and health are untouched |

## Left out

- Drawing: `drawHeart`, `clearRect` and the `hsl(...)` colour string. Only the state they read is modelled.
- The DOM: the health-bar width, the "Time left" message and the dialogue element. The dialogue's text is kept as the ghost field `dialogue` so that the handlers' effect on it can be stated.
- The quote shown 2 seconds after a win (`setTimeout` and the list of quotes). It is not reachable from the timer (see above), and it is a random pick of display text.
- Scheduling: `requestAnimationFrame` and `setInterval`. They are replaced by explicit calls to `Game.Frame` and `Game.TimerTick`, plus the flag `timerRunning` for "the interval is still installed". Interleaving is whatever order the caller chooses.
- Game.Start: requires that no interval is installed. A second `startGame` while one runs would stack two intervals, and the model keeps only one. The first `animate()` call inside `startGame` is the caller's first `Game.Frame`.
- `Math.random()`: each draw is a parameter in [0, 1).
- Floating point: positions, sizes and rotations are exact reals, with no IEEE rounding. The pulse scale is integer hundredths, so the rounding of `scale += 0.01 * scaleDirection` in IEEE doubles is not modelled. That rounding matters. The 20th step gives 1.2000000000000002, which is already above 1.2, and on the way down the value reaches 0.7999999999999998 < 0.8. So in the browser the pulse turns at 1.20 and 0.80, every 40 frames, with a period of 80 frames. `MainHeart.PulseAfter` turns at 1.21 and 0.79, every 42 frames, with a period of 84. The two drift out of phase after a few cycles. The bounds proved, [0.79, 1.21], contain both. `Math.sqrt` is replaced by a comparison of squares (justified by `Hearts.HitIffCloserThanRadius`).
- MainHeart.PulseStep: uses Dafny's `%`, which differs from JavaScript's `%` only for a negative hue. The hue is never negative (`Steady`).
- Falling hearts are values in a sequence. The in-place update of each heart object is modelled as replacing the element. No other code holds references to those objects, so nothing observable is lost.
- The colour of a heart is its index into the four-colour palette, not the colour string.
