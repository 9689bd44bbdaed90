/** The game-state machine of script.js: the module globals as the fields of one object,
    with the animation frame, the click handler, the timer callback, endGame and
    startGame as its methods. Math.random() values are parameters; drawing and the DOM
    are left out, except that the dialogue text is remembered as a ghost field. */
module FallenHearts {
  import opened Hearts
  import opened MainHeart
  import opened Countdown

  const MaxHealth: int := 100
  const MissPenalty: int := 10

  /** What the dialogue box shows last. */
  datatype Dialogue =
    | Initial                 // whatever the page shows before any update
    | Collected(count: int)   // "Hearts collected: <count>"
    | TimesUp                 // "Time's up! Here's a sweet quote for you:"
    | TryAgain                // "Game over! Try again!"

  class Game {
    const width: real    // canvas.width
    const height: real   // canvas.height

    var score: int
    var health: int
    var gameOver: bool
    var timeLeft: int
    var timerRunning: bool   // the interval installed by startGame has not cancelled itself

    var scale: int           // hundredths
    var scaleDirection: int
    var hue: int

    var fallingHearts: seq<Heart>

    ghost var dialogue: Dialogue

    function MainPulse(): Pulse
      reads this
    {
      Pulse(scale, scaleDirection, hue)
    }

    function Timer(): Clock
      reads this
    {
      Clock(timeLeft, timerRunning)
    }

    /** The invariant every handler keeps. Health is a multiple of 10 in [0, 100] and is
        0 only once the game is over; a running timer has time left; an ended game has
        no hearts; the hearts are ordered by age, each at least 2 below the next one
        spawned, between the height they have after their first frame and the exit
        line, with the attributes they were spawned with. */
    ghost predicate Valid()
      reads this
    {
      0.0 <= width && 0.0 <= height &&
      0 <= score &&
      0 <= health <= MaxHealth && health % MissPenalty == 0 && (health == 0 ==> gameOver) &&
      0 <= timeLeft <= GameDuration && (timerRunning ==> 0 < timeLeft) &&
      Steady(MainPulse()) &&
      (gameOver ==> fallingHearts == []) &&
      Ordered(fallingHearts, SpawnY + FallSpeed, height + ExitMargin) &&
      AllWellSpawned(fallingHearts, width)
    }

    /** The state at load time, before startGame runs. */
    constructor (width: real, height: real)
      requires 0.0 <= width && 0.0 <= height
      ensures Valid()
      ensures this.width == width && this.height == height
      ensures score == 0 && health == MaxHealth && !gameOver
      ensures timeLeft == GameDuration && !timerRunning
      ensures MainPulse() == InitialPulse
      ensures fallingHearts == [] && dialogue == Initial
    {
      this.width, this.height := width, height;
      score, health, gameOver := 0, MaxHealth, false;
      timeLeft, timerRunning := GameDuration, false;
      scale, scaleDirection, hue := 100, 1, 0;
      fallingHearts := [];
      dialogue := Initial;
    }

    /** startGame: resets the session and installs the one-second interval. The first
        call of animate that follows is the host's first Frame. */
    method Start()
      requires Valid()
      requires !timerRunning
      modifies this
      ensures Valid()
      ensures score == 0 && health == MaxHealth && !gameOver && fallingHearts == []
      ensures Timer() == StartClock
      ensures MainPulse() == old(MainPulse()) && dialogue == old(dialogue)
    {
      score := 0;
      health := MaxHealth;
      timeLeft := GameDuration;
      gameOver := false;
      fallingHearts := [];
      timerRunning := true;
    }

    /** endGame: no guard against a second call. It always marks the game over, sets the
        dialogue for the outcome and empties the hearts; nothing else changes. */
    method EndGame(isWin: bool)
      modifies this`gameOver, this`dialogue, this`fallingHearts
      ensures gameOver && fallingHearts == []
      ensures dialogue == if isWin then TimesUp else TryAgain
    {
      gameOver := true;
      if isWin {
        dialogue := TimesUp;
      } else {
        dialogue := TryAgain;
      }
      fallingHearts := [];
    }

    /** updateTimer: one second off a positive timeLeft, otherwise endGame(true). */
    method UpdateTimer()
      modifies this
      ensures 0 < old(timeLeft) ==> timeLeft == old(timeLeft) - 1 && gameOver == old(gameOver) &&
                                    fallingHearts == old(fallingHearts) && dialogue == old(dialogue)
      ensures old(timeLeft) <= 0 ==> timeLeft == old(timeLeft) && gameOver && fallingHearts == [] &&
                                     dialogue == TimesUp
      ensures score == old(score) && health == old(health) && timerRunning == old(timerRunning)
      ensures MainPulse() == old(MainPulse())
    {
      if timeLeft > 0 {
        timeLeft := timeLeft - 1;
      } else {
        EndGame(true);
      }
    }

    /** One firing of the interval: updateTimer, then the interval cancels itself once
        timeLeft is not positive. A cancelled interval does nothing. Since a running
        timer always has time left, the endGame(true) branch of updateTimer is never
        taken: the timer never ends the game, and it keeps running after a loss. */
    method TimerTick()
      requires Valid()
      modifies this
      ensures Valid()
      ensures Timer() == ClockTick(old(Timer()))
      ensures gameOver == old(gameOver) && fallingHearts == old(fallingHearts) && dialogue == old(dialogue)
      ensures score == old(score) && health == old(health) && MainPulse() == old(MainPulse())
    {
      if timerRunning {
        UpdateTimer();
        if timeLeft <= 0 {
          timerRunning := false;
        }
      }
    }

    /** The click handler: unless the game is over, the highest-index heart that contains
        (x, y) is removed and the score goes up by one; without a hit nothing changes. */
    method Click(x: real, y: real)
      requires Valid()
      modifies this
      ensures Valid()
      ensures old(gameOver) ==> unchanged(this)
      ensures !old(gameOver) ==>
        var k := HitIndex(old(fallingHearts), x, y);
        if k < 0 then
          fallingHearts == old(fallingHearts) && score == old(score) && dialogue == old(dialogue)
        else
          fallingHearts == RemoveAt(old(fallingHearts), k) && score == old(score) + 1 &&
          dialogue == Collected(score)
      ensures health == old(health) && gameOver == old(gameOver) && Timer() == old(Timer())
      ensures MainPulse() == old(MainPulse())
    {
      if gameOver {
        return;
      }
      var i := |fallingHearts| - 1;
      while i >= 0
        invariant -1 <= i < |fallingHearts|
        invariant fallingHearts == old(fallingHearts) && score == old(score) && dialogue == old(dialogue)
        invariant forall j :: i < j < |fallingHearts| ==> !IsPointInHeart(x, y, fallingHearts[j])
      {
        var heart := fallingHearts[i];
        if IsPointInHeart(x, y, heart) {
          assert i == HitIndex(old(fallingHearts), x, y);
          RemoveKeepsOrder(fallingHearts, i, SpawnY + FallSpeed, height + ExitMargin, width);
          fallingHearts := RemoveAt(fallingHearts, i);
          score := score + 1;
          dialogue := Collected(score);
          return;
        }
        i := i - 1;
      }
    }

    /** One call of animate. An ended game does nothing; otherwise the main heart pulses,
        at most one heart spawns and every heart falls. At most one heart is missed per
        frame; a miss costs 10 health, and the miss that takes health to 0 ends the game. */
    method Frame(chance: real, xDraw: real, sizeDraw: real, colorDraw: real, spinDraw: real)
      requires Valid()
      requires IsDraw(chance) && IsDraw(xDraw) && IsDraw(sizeDraw) && IsDraw(colorDraw) && IsDraw(spinDraw)
      modifies this
      ensures Valid()
      ensures old(gameOver) ==> unchanged(this)
      ensures !old(gameOver) ==>
        var spawned := Spawn(old(fallingHearts), chance, xDraw, sizeDraw, colorDraw, spinDraw, width);
        var missed := OldestExits(spawned, height);
        var left := old(health) - (if missed then MissPenalty else 0);
        && MainPulse() == PulseStep(old(MainPulse()))
        && gameOver == (left <= 0)
        && health == (if left <= 0 then 0 else left)
        && fallingHearts == (if left <= 0 then [] else FallOrdered(spawned, height))
        && dialogue == (if left <= 0 then TryAgain else old(dialogue))
      ensures score == old(score) && Timer() == old(Timer())
    {
      if gameOver {
        return;
      }
      ghost var before := health;
      AnimateMainHeart();
      CreateFallingHearts(chance, xDraw, sizeDraw, colorDraw, spinDraw);
      ghost var spawned := fallingHearts;
      ghost var missed := OldestExits(spawned, height);
      AnimateFallingHearts();
      PenaltyKeepsHealth(before, if missed then 1 else 0);
      assert Steady(MainPulse());
      if gameOver {
        assert fallingHearts == [];
      } else {
        assert fallingHearts == FallOrdered(spawned, height);
      }
    }

    /** The state part of animateMainHeart. */
    method AnimateMainHeart()
      modifies this`scale, this`scaleDirection, this`hue
      ensures MainPulse() == PulseStep(old(MainPulse()))
    {
      scale := scale + ScaleSpeed * scaleDirection;
      if scale > MaxScale || scale < MinScale {
        scaleDirection := scaleDirection * -1;
      }
      hue := (hue + 1) % HueCycle;
    }

    /** createFallingHearts. */
    method CreateFallingHearts(chance: real, xDraw: real, sizeDraw: real, colorDraw: real, spinDraw: real)
      requires IsDraw(chance) && IsDraw(xDraw) && IsDraw(sizeDraw) && IsDraw(colorDraw) && IsDraw(spinDraw)
      requires 0.0 <= width && 0.0 <= height
      requires Ordered(fallingHearts, SpawnY + FallSpeed, height + ExitMargin) && AllWellSpawned(fallingHearts, width)
      modifies this`fallingHearts
      ensures fallingHearts == Spawn(old(fallingHearts), chance, xDraw, sizeDraw, colorDraw, spinDraw, width)
      ensures Ordered(fallingHearts, SpawnY, height + ExitMargin) && AllWellSpawned(fallingHearts, width)
    {
      if chance < SpawnChance {
        var heart := NewHeart(xDraw, sizeDraw, colorDraw, spinDraw, width);
        SpawnKeepsOrder(fallingHearts, heart, height + ExitMargin, width);
        fallingHearts := fallingHearts + [heart];
      }
    }

    /** animateFallingHearts: the reverse scan moves every heart and splices out each one
        past the exit line, charging 10 health for it and ending the game when health
        reaches 0. Because the hearts are ordered, only index 0 can leave, so the scan has
        finished by the time endGame empties the array and never reads a missing heart. */
    method AnimateFallingHearts()
      requires !gameOver && 0 < health <= MaxHealth && health % MissPenalty == 0
      requires Ordered(fallingHearts, SpawnY, height + ExitMargin) && AllWellSpawned(fallingHearts, width)
      modifies this`fallingHearts, this`health, this`gameOver, this`dialogue
      ensures Ordered(fallingHearts, SpawnY + FallSpeed, height + ExitMargin) && AllWellSpawned(fallingHearts, width)
      ensures
        var missed := OldestExits(old(fallingHearts), height);
        var left := old(health) - (if missed then MissPenalty else 0);
        && gameOver == (left <= 0)
        && health == (if left <= 0 then 0 else left)
        && fallingHearts == (if left <= 0 then [] else FallOrdered(old(fallingHearts), height))
        && dialogue == (if left <= 0 then TryAgain else old(dialogue))
    {
      ghost var hs := fallingHearts;
      ghost var missed := false;
      OnlyOldestCanExit(hs, height, SpawnY);
      var i := |fallingHearts| - 1;
      while i >= 0
        invariant -1 <= i < |hs|
        invariant !missed ==> !gameOver && |fallingHearts| == |hs| &&
                              (forall k :: 0 <= k <= i ==> fallingHearts[k] == hs[k]) &&
                              (forall k :: i < k < |hs| ==> fallingHearts[k] == Advance(hs[k])) &&
                              health == old(health) && dialogue == old(dialogue)
        invariant !missed && i == -1 ==> !OldestExits(hs, height)
        invariant missed ==> i == -1 && OldestExits(hs, height)
        invariant missed && !gameOver ==> |fallingHearts| == |hs| - 1 &&
                                          (forall k :: 0 <= k < |hs| - 1 ==> fallingHearts[k] == Advance(hs[k + 1])) &&
                                          health == old(health) - MissPenalty && 0 < health &&
                                          dialogue == old(dialogue)
        invariant missed && gameOver ==> fallingHearts == [] && health == 0 &&
                                         old(health) - MissPenalty <= 0 && dialogue == TryAgain
      {
        var heart := fallingHearts[i];
        heart := heart.(y := heart.y + FallSpeed);
        heart := heart.(rotation := heart.rotation + heart.rotationSpeed);
        fallingHearts := fallingHearts[i := heart];
        if heart.y > height + ExitMargin {
          assert i == 0;
          fallingHearts := fallingHearts[..i] + fallingHearts[i + 1..];
          missed := true;
          health := health - MissPenalty;
          if health <= 0 {
            health := 0;
            EndGame(false);
          }
        }
        i := i - 1;
      }
      ghost var fallen := AdvanceAll(hs);
      FallKeepsOrder(hs, height, width);
      if !missed {
        assert fallingHearts == fallen == FallOrdered(hs, height);
      } else if !gameOver {
        assert fallingHearts == fallen[1..] == FallOrdered(hs, height);
      }
    }
  }

  /** Charging at most one miss to a positive multiple of 10 leaves a multiple of 10 in
      [0, 100]. */
  lemma PenaltyKeepsHealth(health: int, misses: int)
    requires 0 < health <= MaxHealth && health % MissPenalty == 0 && 0 <= misses <= 1
    ensures var left := health - MissPenalty * misses;
      0 <= left <= MaxHealth && left % MissPenalty == 0
  {
  }

  /** Started and left alone for 30 firings of the interval, the game has 0 seconds left
      and a cancelled timer (`after30`), yet is not over; a 31st tick changes nothing. The
      timer never reaches endGame(true). */
  method ClockAloneNeverEndsGame(width: real, height: real) returns (g: Game, after30: Clock)
    requires 0.0 <= width && 0.0 <= height
    ensures after30 == Clock(0, false) && g.Timer() == after30
    ensures g.Valid()
    ensures g.timeLeft == 0 && !g.timerRunning && !g.gameOver
    ensures g.score == 0 && g.health == MaxHealth
  {
    g := new Game(width, height);
    g.Start();
    var n := 0;
    while n < GameDuration
      invariant 0 <= n <= GameDuration
      invariant g.Valid()
      invariant g.Timer() == ClockAfter(StartClock, n)
      invariant !g.gameOver && g.score == 0 && g.health == MaxHealth
    {
      ClockRunsOut(n);
      g.TimerTick();
      n := n + 1;
    }
    ClockRunsOut(n);
    after30 := g.Timer();
    g.TimerTick();
  }
}
