/** The pulsing heart in the middle of the canvas (animateMainHeart in script.js).
    Its scale is kept in integer hundredths, so 1 is 100 and the step of 0.01 is 1. */
module MainHeart {

  /** scale, scaleDirection and hue. */
  datatype Pulse = Pulse(scale: int, direction: int, hue: int)

  const ScaleSpeed: int := 1   // scaleSpeed = 0.01
  const MinScale: int := 80    // the direction turns once scale < 0.8
  const MaxScale: int := 120   // ... or scale > 1.2
  const HueCycle: int := 360
  const InitialPulse: Pulse := Pulse(100, 1, 0)

  /** The state the pulse stays in: the direction is a unit, the scale is at most one
      step outside [MinScale, MaxScale] and is then already heading back, and the hue is
      an angle in [0, 360). */
  ghost predicate Steady(p: Pulse)
  {
    (p.direction == 1 || p.direction == -1) &&
    MinScale - ScaleSpeed <= p.scale <= MaxScale + ScaleSpeed &&
    (MaxScale < p.scale ==> p.direction == -1) &&
    (p.scale < MinScale ==> p.direction == 1) &&
    0 <= p.hue < HueCycle
  }

  /** One frame of animateMainHeart: scale moves one step in its direction, the
      direction turns when the new scale is outside [0.8, 1.2], the hue advances by one
      degree modulo 360. */
  function PulseStep(p: Pulse): (q: Pulse)
    ensures Steady(p) ==> Steady(q)
    ensures Steady(p) ==> (q.scale == p.scale + 1 || q.scale == p.scale - 1)
    ensures Steady(p) ==> (q.direction == -p.direction <==> q.scale < MinScale || MaxScale < q.scale)
    ensures Steady(p) ==> (p.direction == 1 <==> q.scale > p.scale)
    ensures q.hue == (p.hue + 1) % HueCycle
  {
    var scale := p.scale + ScaleSpeed * p.direction;
    var direction := if MaxScale < scale || scale < MinScale then -p.direction else p.direction;
    Pulse(scale, direction, (p.hue + 1) % HueCycle)
  }

  /** The pulse after n frames of play from the state it has at load time. */
  function PulseAfter(n: nat): Pulse
  {
    if n == 0 then InitialPulse else PulseStep(PulseAfter(n - 1))
  }

  /** However many frames run, the scale stays within [0.79, 1.21] and the hue is the
      frame count modulo 360. */
  lemma {:induction false} PulseAfterStaysBounded(n: nat)
    ensures Steady(PulseAfter(n))
    ensures MinScale - ScaleSpeed <= PulseAfter(n).scale <= MaxScale + ScaleSpeed
    ensures PulseAfter(n).hue == n % HueCycle
  {
    if 0 < n {
      PulseAfterStaysBounded(n - 1);
      NextHue(n - 1);
    }
  }

  /** Advancing the hue of frame m gives the hue of frame m + 1. */
  lemma NextHue(m: nat)
    ensures (m % HueCycle + 1) % HueCycle == (m + 1) % HueCycle
  {
    var q, h := m / HueCycle, m % HueCycle;
    assert m == HueCycle * q + h;
    if h + 1 < HueCycle {
      assert m + 1 == HueCycle * q + (h + 1);
    } else {
      assert m + 1 == HueCycle * (q + 1) + 0;
    }
  }
}
