/** The scale-change controller: potions a character drinks queue up as
    pending `PotionType`s behind a countdown; when it runs out they are folded
    left to right into a target scale, and the scales move there, clamped. */
module Potions {
  import opened Wrappers
  import opened RustInt
  import opened Sprites

  /** `SCALE_CHANGE_TIMEOUT`, in seconds. */
  const SCALE_CHANGE_TIMEOUT: real := 1.0
  /** The per-axis step of every tick once the final potion has triggered. */
  const FINAL_STEP: int := 20

  // ---------------------------------------------------------------- the fold

  /** One potion applied to the running `(x_scale, y_scale)`: a relative
      potion adds per axis, an absolute one overwrites the axes it names. */
  function Apply(acc: (int, int), p: PotionType): (int, int)
  {
    match p
    case Relative(dx, dy) => (acc.0 + dx, acc.1 + dy)
    case Absolute(x, y) =>
      (if x.Some? then x.value else acc.0, if y.Some? then y.value else acc.1)
  }

  /** The pending potions applied in order, first to last. */
  function Fold(acc: (int, int), ps: seq<PotionType>): (int, int)
    decreases |ps|
  {
    if |ps| == 0 then acc else Apply(Fold(acc, ps[..|ps| - 1]), ps[|ps| - 1])
  }

  /** The sum of the relative steps on each axis; absolute potions add nothing. */
  function SumDx(ps: seq<PotionType>): int
    decreases |ps|
  {
    if |ps| == 0 then 0
    else SumDx(ps[..|ps| - 1]) + (if ps[|ps| - 1].Relative? then ps[|ps| - 1].dx else 0)
  }

  function SumDy(ps: seq<PotionType>): int
    decreases |ps|
  {
    if |ps| == 0 then 0
    else SumDy(ps[..|ps| - 1]) + (if ps[|ps| - 1].Relative? then ps[|ps| - 1].dy else 0)
  }

  predicate SetsX(p: PotionType)
  {
    p.Absolute? && p.x.Some?
  }

  predicate SetsY(p: PotionType)
  {
    p.Absolute? && p.y.Some?
  }

  /** Folding a concatenation folds the second part over the first's result. */
  lemma {:induction false} FoldAppend(acc: (int, int), ps: seq<PotionType>, qs: seq<PotionType>)
    ensures Fold(acc, ps + qs) == Fold(Fold(acc, ps), qs)
    decreases |qs|
  {
    if |qs| == 0 {
      assert ps + qs == ps;
    } else {
      var qs' := qs[..|qs| - 1];
      assert (ps + qs)[..|ps + qs| - 1] == ps + qs';
      FoldAppend(acc, ps, qs');
    }
  }

  /** Without a potion that sets the x scale, the x result is the start plus
      the relative steps. */
  lemma {:induction false} NoSetX(acc: (int, int), ps: seq<PotionType>)
    requires forall j :: 0 <= j < |ps| ==> !SetsX(ps[j])
    ensures Fold(acc, ps).0 == acc.0 + SumDx(ps)
    decreases |ps|
  {
    if |ps| > 0 {
      NoSetX(acc, ps[..|ps| - 1]);
    }
  }

  lemma {:induction false} NoSetY(acc: (int, int), ps: seq<PotionType>)
    requires forall j :: 0 <= j < |ps| ==> !SetsY(ps[j])
    ensures Fold(acc, ps).1 == acc.1 + SumDy(ps)
    decreases |ps|
  {
    if |ps| > 0 {
      NoSetY(acc, ps[..|ps| - 1]);
    }
  }

  /** Only relative potions: each axis moves by the sum of its steps. */
  lemma AllRelative(acc: (int, int), ps: seq<PotionType>)
    requires forall j :: 0 <= j < |ps| ==> ps[j].Relative?
    ensures Fold(acc, ps) == (acc.0 + SumDx(ps), acc.1 + SumDy(ps))
  {
    NoSetX(acc, ps);
    NoSetY(acc, ps);
  }

  /** The last potion that sets the x scale wins: the x result is its value
      plus the relative steps after it, whatever came before. */
  lemma LastSetXWins(acc: (int, int), ps: seq<PotionType>, i: int)
    requires 0 <= i < |ps| && SetsX(ps[i])
    requires forall j :: i < j < |ps| ==> !SetsX(ps[j])
    ensures Fold(acc, ps).0 == ps[i].x.value + SumDx(ps[i + 1..])
  {
    assert ps == ps[..i + 1] + ps[i + 1..];
    FoldAppend(acc, ps[..i + 1], ps[i + 1..]);
    assert ps[..i + 1][..i] == ps[..i];
    NoSetX(Fold(acc, ps[..i + 1]), ps[i + 1..]);
  }

  lemma LastSetYWins(acc: (int, int), ps: seq<PotionType>, i: int)
    requires 0 <= i < |ps| && SetsY(ps[i])
    requires forall j :: i < j < |ps| ==> !SetsY(ps[j])
    ensures Fold(acc, ps).1 == ps[i].y.value + SumDy(ps[i + 1..])
  {
    assert ps == ps[..i + 1] + ps[i + 1..];
    FoldAppend(acc, ps[..i + 1], ps[i + 1..]);
    assert ps[..i + 1][..i] == ps[..i];
    NoSetY(Fold(acc, ps[..i + 1]), ps[i + 1..]);
  }

  /** The two axes do not interact: the x result does not depend on the
      starting y scale, nor the y result on the starting x scale. */
  lemma {:induction false} AxesIndependent(acc: (int, int), ps: seq<PotionType>, z: int)
    ensures Fold(acc, ps).0 == Fold((acc.0, z), ps).0
    ensures Fold(acc, ps).1 == Fold((z, acc.1), ps).1
    decreases |ps|
  {
    if |ps| > 0 {
      AxesIndependent(acc, ps[..|ps| - 1], z);
    }
  }

  /** The drain loop of the countdown: the pending potions folded into the
      accumulators `x_scale`, `y_scale`, starting from the current scales. */
  method DrainPending(xScale: int, yScale: int, pending: seq<PotionType>) returns (x: int, y: int)
    ensures (x, y) == Fold((xScale, yScale), pending)
  {
    x, y := xScale, yScale;
    var i := 0;
    while i < |pending|
      invariant 0 <= i <= |pending|
      invariant (x, y) == Fold((xScale, yScale), pending[..i])
    {
      assert pending[..i + 1][..i] == pending[..i];
      match pending[i] {
        case Relative(dx, dy) =>
          x := x + dx;
          y := y + dy;
        case Absolute(ax, ay) =>
          if ax.Some? {
            x := ax.value;
          }
          if ay.Some? {
            y := ay.value;
          }
      }
      i := i + 1;
    }
    assert pending[..i] == pending;
  }

  // ---------------------------------------------------------------- delta and rescale

  /** The change per axis: `(20, 20)` once the final potion has triggered,
      otherwise the fold's target clamped to `[0, MAX_SCALE]` minus the
      current scale. */
  function Delta(final: bool, target: (int, int), xScale: nat, yScale: nat): (int, int)
  {
    if final then (FINAL_STEP, FINAL_STEP)
    else (Clamp(target.0, 0, MAX_SCALE) - xScale, Clamp(target.1, 0, MAX_SCALE) - yScale)
  }

  /** A scale moved by a delta, clamped to `[1, MAX_SCALE]`. */
  function Rescale(scale: nat, d: int): (r: nat)
    ensures 1 <= r <= MAX_SCALE
  {
    Clamp(scale + d, 1, MAX_SCALE)
  }

  /** Before the final potion, the delta moves each scale onto the fold's
      target clamped to `[1, MAX_SCALE]`, whatever the current scale. */
  lemma LandsOnTarget(target: (int, int), xScale: nat, yScale: nat)
    ensures var d := Delta(false, target, xScale, yScale);
            Rescale(xScale, d.0) == Clamp(target.0, 1, MAX_SCALE) &&
            Rescale(yScale, d.1) == Clamp(target.1, 1, MAX_SCALE)
  {
  }

  /** After it, the delta ignores the target and grows each scale by 20 up
      to `MAX_SCALE`. */
  lemma FinalGrows(target: (int, int), xScale: nat, yScale: nat)
    ensures var d := Delta(true, target, xScale, yScale);
            d != (0, 0) &&
            Rescale(xScale, d.0) == (if xScale + FINAL_STEP <= MAX_SCALE then xScale + FINAL_STEP else MAX_SCALE) &&
            Rescale(yScale, d.1) == (if yScale + FINAL_STEP <= MAX_SCALE then yScale + FINAL_STEP else MAX_SCALE)
  {
  }

  /** The re-anchoring after a rescale: `loc.x` moves left by half the width
      gained, so the horizontal centre stays, and `loc.y` moves up by the
      height gained plus `ANCHOR_LIFT`, so the bottom edge rises by that lift. */
  const ANCHOR_LIFT: int := 8

  function AnchorX(locX: int, xScale: nat, xScale': nat): (x: int)
    ensures x + SPRITE_WIDTH / 2 * xScale' == locX + SPRITE_WIDTH / 2 * xScale
  {
    locX - (SPRITE_WIDTH * xScale' - SPRITE_WIDTH * xScale) / 2
  }

  function AnchorY(locY: int, yScale: nat, yScale': nat): (y: int)
    ensures y + SPRITE_WIDTH * yScale' == locY + SPRITE_WIDTH * yScale - ANCHOR_LIFT
  {
    locY - (SPRITE_WIDTH * yScale' - SPRITE_WIDTH * yScale) - ANCHOR_LIFT
  }

  // ---------------------------------------------------------------- pickup and countdown

  /** A pickup: the potion is queued, and the countdown is armed at
      `SCALE_CHANGE_TIMEOUT` when absent, re-armed when it has run out, and
      left alone while it is still running. */
  function Drink(s: Sprite, p: PotionType): (t: Sprite)
    ensures t == s.(potionTimer := t.potionTimer, pendingPotions := s.pendingPotions + [p])
    ensures t.potionTimer.Some? && t.potionTimer.value > 0.0
    ensures s.potionTimer.Some? && s.potionTimer.value > 0.0 ==> t.potionTimer == s.potionTimer
    ensures !(s.potionTimer.Some? && s.potionTimer.value > 0.0) ==> t.potionTimer == Some(SCALE_CHANGE_TIMEOUT)
  {
    var timer := if s.potionTimer.Some? then s.potionTimer.value else SCALE_CHANGE_TIMEOUT;
    var timer' := if timer <= 0.0 then SCALE_CHANGE_TIMEOUT else timer;
    s.(potionTimer := Some(timer'), pendingPotions := s.pendingPotions + [p])
  }

  /** Whether this tick applies the queue: the countdown is armed and, once
      decremented, has run out or the final potion has triggered. */
  predicate Fires(s: Sprite, dt: real, final: bool)
  {
    s.potionTimer.Some? && !(s.potionTimer.value - dt > 0.0 && !final)
  }

  /** One character's share of a tick, and the new `final_potion_triggered`:
      nothing without a countdown; only the countdown moves while it runs;
      otherwise it is dropped below -1, the queue is drained into the target,
      the end sequence latches the final flag, and the scales move by the
      delta unless it is `(0, 0)`. */
  function TickSpec(s: Sprite, dt: real, endSequence: bool, final: bool): (Sprite, bool)
  {
    if s.potionTimer.None? then (s, final)
    else
      var time := s.potionTimer.value - dt;
      if time > 0.0 && !final then (s.(potionTimer := Some(time)), final)
      else
        var timer := if time < -1.0 then None else Some(time);
        var target := Fold((s.xScale, s.yScale), s.pendingPotions);
        var final' := final || endSequence;
        var d := Delta(final', target, s.xScale, s.yScale);
        var drained := s.(potionTimer := timer, pendingPotions := []);
        if d == (0, 0) then (drained, final')
        else
          var x' := Rescale(s.xScale, d.0);
          var y' := Rescale(s.yScale, d.1);
          (drained.(xScale := x', yScale := y',
                    locX := AnchorX(s.locX, s.xScale, x'), locY := AnchorY(s.locY, s.yScale, y')), final')
  }

  /** The countdown and potion part of `step_physics` for one character. */
  method Tick(s: Sprite, dt: real, endSequence: bool, final: bool) returns (t: Sprite, final': bool)
    ensures (t, final') == TickSpec(s, dt, endSequence, final)
  {
    t, final' := s, final;
    if s.potionTimer.None? {
      return;
    }
    var time := s.potionTimer.value - dt;
    t := t.(potionTimer := Some(time));
    if time > 0.0 && !final {
      return;
    }
    if time < -1.0 {
      t := t.(potionTimer := None);
    }
    var x, y := DrainPending(s.xScale, s.yScale, s.pendingPotions);
    t := t.(pendingPotions := []);
    if endSequence {
      final' := true;
    }
    var d := Delta(final', (x, y), s.xScale, s.yScale);
    if d.0 == 0 && d.1 == 0 {
      return;
    }
    var x', y' := Rescale(s.xScale, d.0), Rescale(s.yScale, d.1);
    t := t.(xScale := x', yScale := y');
    t := t.(locX := AnchorX(s.locX, s.xScale, x'), locY := AnchorY(s.locY, s.yScale, y'));
  }

  /** The final flag is a latch, and the end sequence sets it on any firing tick. */
  lemma TickLatch(s: Sprite, dt: real, endSequence: bool, final: bool)
    ensures final ==> TickSpec(s, dt, endSequence, final).1
    ensures Fires(s, dt, final) && endSequence ==> TickSpec(s, dt, endSequence, final).1
    ensures !Fires(s, dt, final) ==> TickSpec(s, dt, endSequence, final).1 == final
  {
  }

  /** While the countdown runs, only it changes; without one, nothing does. */
  lemma TickWaits(s: Sprite, dt: real, endSequence: bool, final: bool)
    requires !Fires(s, dt, final)
    ensures var t := TickSpec(s, dt, endSequence, final).0;
            t == s.(potionTimer := t.potionTimer) && t.pendingPotions == s.pendingPotions
    ensures s.potionTimer.Some? ==> TickSpec(s, dt, endSequence, final).0.potionTimer == Some(s.potionTimer.value - dt)
  {
  }

  /** A firing tick empties the queue, even when the scales stay, and drops
      the countdown once it is below -1. Before the final potion each scale
      of at least 1 moves to the fold's target clamped to `[1, MAX_SCALE]`;
      after it each grows by 20 up to `MAX_SCALE`. A tick whose delta is
      `(0, 0)` leaves scales and location alone; any other keeps the
      horizontal centre and raises the bottom edge by `ANCHOR_LIFT`. */
  lemma TickApplies(s: Sprite, dt: real, endSequence: bool, final: bool)
    requires Fires(s, dt, final)
    ensures var (t, final') := TickSpec(s, dt, endSequence, final);
            t.pendingPotions == [] &&
            (t.potionTimer.None? <==> s.potionTimer.value - dt < -1.0) &&
            t.isPlayer == s.isPlayer && t.collider == s.collider
    ensures var (t, final') := TickSpec(s, dt, endSequence, final);
            var target := Fold((s.xScale, s.yScale), s.pendingPotions);
            !final' && s.xScale >= 1 && s.yScale >= 1 ==>
              t.xScale == Clamp(target.0, 1, MAX_SCALE) && t.yScale == Clamp(target.1, 1, MAX_SCALE)
    ensures var (t, final') := TickSpec(s, dt, endSequence, final);
            final' ==> t.xScale == Rescale(s.xScale, FINAL_STEP) && t.yScale == Rescale(s.yScale, FINAL_STEP)
    ensures var (t, final') := TickSpec(s, dt, endSequence, final);
            var d := Delta(final', Fold((s.xScale, s.yScale), s.pendingPotions), s.xScale, s.yScale);
            (d == (0, 0) ==> t.xScale == s.xScale && t.yScale == s.yScale && t.locX == s.locX && t.locY == s.locY) &&
            (d != (0, 0) ==> t.locX + SPRITE_WIDTH / 2 * t.xScale == s.locX + SPRITE_WIDTH / 2 * s.xScale &&
                             t.locY + SPRITE_WIDTH * t.yScale == s.locY + SPRITE_WIDTH * s.yScale - ANCHOR_LIFT)
  {
    var target := Fold((s.xScale, s.yScale), s.pendingPotions);
    LandsOnTarget(target, s.xScale, s.yScale);
    FinalGrows(target, s.xScale, s.yScale);
  }
}
