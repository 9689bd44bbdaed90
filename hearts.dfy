/** The falling hearts of script.js: the record pushed by createFallingHearts, the
    hit test of the click handler, and the spawn and fall rules applied once per frame.
    Positions and sizes are exact reals; Math.sqrt is replaced by a comparison of squares. */
module Hearts {

  /** One falling heart, `{x, y, size, color, rotation, rotationSpeed}`; the colour is
      kept as its index into the four-entry palette `heartColors`. */
  datatype Heart = Heart(x: real, y: real, size: real, colorIndex: int, rotation: real, rotationSpeed: real)

  const PaletteSize: int := 4     // heartColors.length
  const HitRadius: real := 50.0   // a heart of size s is hit within 50 * s of its centre
  const SpawnChance: real := 0.03 // a frame spawns a heart when its first draw is below this
  const SpawnY: real := -50.0     // new hearts start above the canvas
  const FallSpeed: real := 2.0    // y grows by this much every frame
  const ExitMargin: real := 100.0 // a heart is missed once y > height + ExitMargin

  /** A value of Math.random(). */
  predicate IsDraw(r: real)
  {
    0.0 <= r < 1.0
  }

  // ---------------------------------------------------------------- hit test

  /** isPointInHeart: the Euclidean distance from (x, y) to the centre is below
      HitRadius * size. A distance is never negative, so a heart whose radius is not
      positive is never hit; otherwise the comparison is made on squares. */
  predicate IsPointInHeart(x: real, y: real, h: Heart)
    ensures IsPointInHeart(x, y, h) ==> 0.0 < h.size
  {
    var dx := x - h.x;
    var dy := y - h.y;
    var radius := HitRadius * h.size;
    0.0 < radius && dx * dx + dy * dy < radius * radius
  }

  /** The hit test agrees with `Math.sqrt(dx*dx + dy*dy) < 50 * size` for the one
      non-negative d whose square is dx*dx + dy*dy. */
  lemma HitIffCloserThanRadius(x: real, y: real, h: Heart, d: real)
    requires 0.0 <= d
    requires d * d == (x - h.x) * (x - h.x) + (y - h.y) * (y - h.y)
    ensures IsPointInHeart(x, y, h) <==> d < HitRadius * h.size
  {
    var radius := HitRadius * h.size;
    if 0.0 < radius {
      if d < radius {
        SquareMonotonic(d, radius);
      } else {
        SquareMonotonic(radius, d);
      }
    }
  }

  /** Squaring is monotonic on the non-negative reals. */
  lemma SquareMonotonic(a: real, b: real)
    requires 0.0 <= a <= b
    ensures a * a <= b * b
    ensures a < b ==> a * a < b * b
  {
    var aa, ab, bb := a * a, a * b, b * b;
    assert aa <= ab <= bb;
    if a < b {
      assert ab < bb;
    }
  }

  /** A click at the exact centre of a heart of positive size always hits it. */
  lemma CentreHits(h: Heart)
    requires 0.0 < h.size
    ensures IsPointInHeart(h.x, h.y, h)
  {
    var radius := HitRadius * h.size;
    assert 0.0 < radius * radius by {
      assert 0.0 < radius;
    }
  }

  /** The index the click handler's reverse scan stops at: the highest index whose heart
      is hit, or -1 when no heart is hit. */
  function HitIndex(hs: seq<Heart>, x: real, y: real): (k: int)
    ensures -1 <= k < |hs|
    ensures 0 <= k ==> IsPointInHeart(x, y, hs[k])
    ensures forall j :: k < j < |hs| ==> !IsPointInHeart(x, y, hs[j])
    decreases |hs|
  {
    if hs == [] then -1
    else if IsPointInHeart(x, y, hs[|hs| - 1]) then |hs| - 1
    else HitIndex(hs[..|hs| - 1], x, y)
  }

  /** `splice(k, 1)`: the heart at k is gone and the others keep their relative order. */
  function RemoveAt(hs: seq<Heart>, k: int): (r: seq<Heart>)
    requires 0 <= k < |hs|
    ensures |r| == |hs| - 1
    ensures forall j :: 0 <= j < k ==> r[j] == hs[j]
    ensures forall j :: k <= j < |r| ==> r[j] == hs[j + 1]
  {
    hs[..k] + hs[k + 1..]
  }

  // ---------------------------------------------------------------- spawning

  /** The ranges createFallingHearts draws a heart's attributes from. */
  ghost predicate WellSpawned(h: Heart, width: real)
  {
    0.0 <= h.x && (h.x < width || h.x == 0.0) &&
    0.2 <= h.size < 0.7 &&
    0 <= h.colorIndex < PaletteSize &&
    -0.025 <= h.rotationSpeed < 0.025
  }

  /** Every heart of hs is WellSpawned. */
  ghost predicate AllWellSpawned(hs: seq<Heart>, width: real)
  {
    forall k :: 0 <= k < |hs| ==> WellSpawned(hs[k], width)
  }

  /** The heart createFallingHearts pushes, built from its four further draws. */
  function NewHeart(xDraw: real, sizeDraw: real, colorDraw: real, spinDraw: real, width: real): (h: Heart)
    requires IsDraw(xDraw) && IsDraw(sizeDraw) && IsDraw(colorDraw) && IsDraw(spinDraw)
    requires 0.0 <= width
    ensures h.y == SpawnY && h.rotation == 0.0
    ensures WellSpawned(h, width)
  {
    var x := xDraw * width;
    assert x < width || x == 0.0 by {
      if 0.0 < width {
        assert xDraw * width < 1.0 * width;
      }
    }
    Heart(x, SpawnY, sizeDraw * 0.5 + 0.2, (colorDraw * PaletteSize as real).Floor, 0.0, (spinDraw - 0.5) * 0.05)
  }

  /** createFallingHearts: one heart is appended when the first draw is below
      SpawnChance, and nothing happens otherwise. */
  function Spawn(hs: seq<Heart>, chance: real, xDraw: real, sizeDraw: real, colorDraw: real, spinDraw: real,
                 width: real): (r: seq<Heart>)
    requires IsDraw(chance) && IsDraw(xDraw) && IsDraw(sizeDraw) && IsDraw(colorDraw) && IsDraw(spinDraw)
    requires 0.0 <= width
    ensures |r| == |hs| || |r| == |hs| + 1
    ensures |r| == |hs| + 1 <==> chance < SpawnChance
    ensures r[..|hs|] == hs
    ensures |r| == |hs| + 1 ==> r[|hs|].y == SpawnY && r[|hs|].rotation == 0.0 && WellSpawned(r[|hs|], width)
  {
    if chance < SpawnChance then hs + [NewHeart(xDraw, sizeDraw, colorDraw, spinDraw, width)] else hs
  }

  // ---------------------------------------------------------------- falling

  /** One frame of motion for one heart: `y += 2; rotation += rotationSpeed`. */
  function Advance(h: Heart): Heart
  {
    h.(y := h.y + FallSpeed, rotation := h.rotation + h.rotationSpeed)
  }

  /** Whether an advanced heart is past the bottom edge plus the margin. */
  predicate Exits(h: Heart, height: real)
  {
    h.y > height + ExitMargin
  }

  /** What animateFallingHearts leaves of hs, in order: every heart advanced once, the
      ones that exit dropped. */
  ghost function Survivors(hs: seq<Heart>, height: real): (r: seq<Heart>)
    ensures |r| <= |hs|
    ensures forall k :: 0 <= k < |r| ==> !Exits(r[k], height)
    decreases |hs|
  {
    if hs == [] then []
    else (if Exits(Advance(hs[0]), height) then [] else [Advance(hs[0])]) + Survivors(hs[1..], height)
  }

  /** How many hearts animateFallingHearts drops, each of which costs health. */
  ghost function Misses(hs: seq<Heart>, height: real): (m: nat)
    ensures m <= |hs|
    ensures m == 0 <==> forall k :: 0 <= k < |hs| ==> !Exits(Advance(hs[k]), height)
    decreases |hs|
  {
    if hs == [] then 0
    else (if Exits(Advance(hs[0]), height) then 1 else 0) + Misses(hs[1..], height)
  }

  /** Every heart either survives the frame or is counted as a miss. */
  lemma {:induction false} SurvivorsAndMissesPartition(hs: seq<Heart>, height: real)
    ensures |Survivors(hs, height)| + Misses(hs, height) == |hs|
    decreases |hs|
  {
    if hs != [] {
      SurvivorsAndMissesPartition(hs[1..], height);
    }
  }

  /** When no heart exits, the frame moves each heart by exactly FallSpeed and rotates it
      by its own speed, in place, and nothing is removed. */
  lemma {:induction false} NoExitKeepsAll(hs: seq<Heart>, height: real)
    requires forall k :: 0 <= k < |hs| ==> !Exits(Advance(hs[k]), height)
    ensures Misses(hs, height) == 0
    ensures |Survivors(hs, height)| == |hs|
    ensures forall k :: 0 <= k < |hs| ==> Survivors(hs, height)[k] == Advance(hs[k])
    decreases |hs|
  {
    if hs != [] {
      NoExitKeepsAll(hs[1..], height);
    }
  }

  /** The frame ordering: y lies in [top, bottom] and every heart is at least FallSpeed
      above every heart at a lower index (older hearts are further down). */
  ghost predicate Ordered(hs: seq<Heart>, top: real, bottom: real)
  {
    (forall k :: 0 <= k < |hs| ==> top <= hs[k].y <= bottom) &&
    (forall j, k :: 0 <= j < k < |hs| ==> hs[k].y + FallSpeed <= hs[j].y)
  }

  /** A heart spawned at SpawnY after hearts that have all fallen at least once keeps
      the ordering. */
  lemma SpawnKeepsOrder(hs: seq<Heart>, h: Heart, bottom: real, width: real)
    requires Ordered(hs, SpawnY + FallSpeed, bottom)
    requires h.y == SpawnY && SpawnY <= bottom
    ensures Ordered(hs + [h], SpawnY, bottom)
    ensures AllWellSpawned(hs, width) && WellSpawned(h, width) ==> AllWellSpawned(hs + [h], width)
  {
    var r := hs + [h];
    forall j, k | 0 <= j < k < |r|
      ensures r[k].y + FallSpeed <= r[j].y
    {
      if k == |hs| {
        assert r[j] == hs[j];
      } else {
        assert r[j] == hs[j] && r[k] == hs[k];
      }
    }
  }

  /** Removing any one heart keeps the ordering and the spawn ranges of the others. */
  lemma RemoveKeepsOrder(hs: seq<Heart>, i: int, top: real, bottom: real, width: real)
    requires Ordered(hs, top, bottom) && 0 <= i < |hs|
    ensures Ordered(RemoveAt(hs, i), top, bottom)
    ensures AllWellSpawned(hs, width) ==> AllWellSpawned(RemoveAt(hs, i), width)
  {
    var r := RemoveAt(hs, i);
    forall j, k | 0 <= j < k < |r|
      ensures r[k].y + FallSpeed <= r[j].y
    {
      var j' := if j < i then j else j + 1;
      var k' := if k < i then k else k + 1;
      assert r[j] == hs[j'] && r[k] == hs[k'];
    }
  }

  /** After a frame the survivors are still ordered, every one of them has moved down by
      FallSpeed, and none is past the exit line. */
  lemma {:induction false} SurvivorsOrdered(hs: seq<Heart>, height: real, top: real, bottom: real)
    requires Ordered(hs, top, bottom)
    ensures Ordered(Survivors(hs, height), top + FallSpeed, bottom + FallSpeed)
    ensures forall k :: 0 <= k < |Survivors(hs, height)| ==> Survivors(hs, height)[k].y <= height + ExitMargin
    decreases |hs|
  {
    if hs != [] {
      var h, t := hs[0], hs[1..];
      assert Ordered(t, top, h.y - FallSpeed) by {
        forall k | 0 <= k < |t| ensures t[k].y <= h.y - FallSpeed {
          assert t[k] == hs[k + 1];
        }
      }
      SurvivorsOrdered(t, height, top, h.y - FallSpeed);
      var st := Survivors(t, height);
      if !Exits(Advance(h), height) {
        var a := Advance(h);
        assert a.y == h.y + FallSpeed;
        var r := [a] + st;
        assert Survivors(hs, height) == r;
        forall j, k | 0 <= j < k < |r|
          ensures r[k].y + FallSpeed <= r[j].y
        {
          assert r[k] == st[k - 1];
          if 0 < j {
            assert r[j] == st[j - 1];
          }
        }
      }
    }
  }

  /** Every heart advanced by one frame, none removed. */
  ghost function AdvanceAll(hs: seq<Heart>): seq<Heart>
  {
    seq(|hs|, k requires 0 <= k < |hs| => Advance(hs[k]))
  }

  /** Whether the oldest heart (index 0) passes the exit line in this frame. */
  predicate OldestExits(hs: seq<Heart>, height: real)
  {
    0 < |hs| && Exits(Advance(hs[0]), height)
  }

  /** Under the ordering, only the oldest heart (index 0) can exit in a frame: every other
      heart is at least FallSpeed above it before the move. */
  lemma OnlyOldestCanExit(hs: seq<Heart>, height: real, top: real)
    requires Ordered(hs, top, height + ExitMargin)
    ensures forall k :: 0 < k < |hs| ==> !Exits(Advance(hs[k]), height)
  {
    forall k | 0 < k < |hs| ensures !Exits(Advance(hs[k]), height) {
      assert hs[k].y + FallSpeed <= hs[0].y;
    }
  }

  /** Hence, under the ordering, the reverse scan advances every heart and removes at
      most one, the oldest. */
  lemma OrderedFallStep(hs: seq<Heart>, height: real, top: real)
    requires Ordered(hs, top, height + ExitMargin)
    ensures Misses(hs, height) == if OldestExits(hs, height) then 1 else 0
    ensures Survivors(hs, height) == FallOrdered(hs, height)
  {
    if hs != [] {
      var t := hs[1..];
      OnlyOldestCanExit(hs, height, top);
      forall k | 0 <= k < |t| ensures !Exits(Advance(t[k]), height) {
        assert t[k] == hs[k + 1];
      }
      NoExitKeepsAll(t, height);
      assert Survivors(t, height) == AdvanceAll(hs)[1..];
      if !OldestExits(hs, height) {
        assert AdvanceAll(hs) == [Advance(hs[0])] + AdvanceAll(hs)[1..];
      }
    }
  }

  /** The hearts a frame leaves when the oldest heart is the only one that can exit. */
  ghost function FallOrdered(hs: seq<Heart>, height: real): (r: seq<Heart>)
    ensures |r| + (if OldestExits(hs, height) then 1 else 0) == |hs|
  {
    if OldestExits(hs, height) then AdvanceAll(hs)[1..] else AdvanceAll(hs)
  }

  /** The hearts FallOrdered keeps are the newest ones, each advanced by one step. */
  lemma FallOrderedKeepsNewest(hs: seq<Heart>, height: real)
    ensures forall k :: 0 <= k < |FallOrdered(hs, height)| ==>
      FallOrdered(hs, height)[k] == Advance(hs[|hs| - |FallOrdered(hs, height)| + k])
  {
  }

  /** A frame keeps the ordering of a collection whose newest heart may just have spawned:
      afterwards every heart has fallen at least once and none is past the exit line; and
      every heart that is left keeps the attributes it was spawned with. */
  lemma FallKeepsOrder(hs: seq<Heart>, height: real, width: real)
    requires Ordered(hs, SpawnY, height + ExitMargin)
    ensures Ordered(FallOrdered(hs, height), SpawnY + FallSpeed, height + ExitMargin)
    ensures AllWellSpawned(hs, width) ==> AllWellSpawned(FallOrdered(hs, height), width)
  {
    SurvivorsOrdered(hs, height, SpawnY, height + ExitMargin);
    OrderedFallStep(hs, height, SpawnY);
  }
}
