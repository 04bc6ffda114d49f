/** The state machine of one gradual changer (GradualChanger<T>::tick) on
    values: the counters a changer keeps, what one tick decides from them and
    the clock, and what that decision does to the bound variable. */
module Tween {
  import opened GradualTraits

  /** The mutable part of a changer: `left_`, `prevClk_`, the fixed
      `startClk_`, and the `dead` flag it inherits from the list node. */
  datatype TweenState = TweenState(left: int, prevClk: int, startClk: int, dead: bool)

  /** What one tick does: nothing, mark the changer dead, or move the
      variable by `delta` clock units' worth of steps. */
  datatype Outcome = Idle | Expire | Advance(delta: int)

  /** The state a changer is constructed in: `left_ = duration` and both
      clock fields set to the clock's value at that moment. */
  function Fresh(duration: int, clk: int): TweenState
  {
    TweenState(duration, clk, clk, false)
  }

  /** The branch `tick` takes when the clock reads `clk`. */
  function Decide(s: TweenState, clk: int): Outcome
  {
    if s.dead || clk == s.prevClk then Idle
    else if clk - s.startClk <= 0 || s.left <= 0 then Expire
    else Advance(clk - s.prevClk)
  }

  /** The changer's counters after one tick at clock `clk`. */
  function After(s: TweenState, clk: int): TweenState
  {
    match Decide(s, clk)
    case Idle => s
    case Expire => s.(dead := true)
    case Advance(_) => s.(left := s.left - 1, prevClk := clk)
  }

  /** `ref_ += step_ * (clock_ - prevClk_)` for an `int` variable; untouched
      on any other outcome (the variable is never snapped to the target). */
  function ApplyInt(v: int, step: int, o: Outcome): int
  {
    if o.Advance? then v + step * o.delta else v
  }

  function BoolToInt(b: bool): int
  {
    if b then 1 else 0
  }

  /** The same statement for a `bool` variable: the operands are promoted to
      `int`, and the sum is converted back to `bool` (non-zero is true). */
  function ApplyBool(v: bool, step: bool, o: Outcome): bool
  {
    if o.Advance? then BoolToInt(v) + BoolToInt(step) * o.delta != 0 else v
  }

  /** A fresh changer is idle at its creation clock; at any later clock it
      advances by the units elapsed, unless its duration was not positive,
      and at any earlier clock it expires. */
  lemma FreshTicks(duration: int, clk: int)
    ensures Decide(Fresh(duration, clk), clk) == Idle
    ensures forall later :: later > clk ==>
      Decide(Fresh(duration, clk), later) == if duration <= 0 then Expire else Advance(later - clk)
    ensures forall earlier :: earlier < clk ==> Decide(Fresh(duration, clk), earlier) == Expire
  {
  }

  /** The three branches of `tick`, each characterised both ways; an
      advance is by a non-zero number of units and needs a step left. */
  lemma DecideCases(s: TweenState, clk: int)
    ensures Decide(s, clk) == Idle <==> s.dead || clk == s.prevClk
    ensures Decide(s, clk) == Expire <==> !s.dead && clk != s.prevClk && (clk - s.startClk <= 0 || s.left <= 0)
    ensures Decide(s, clk).Advance? ==>
      Decide(s, clk).delta == clk - s.prevClk && Decide(s, clk).delta != 0 && s.left >= 1 && clk > s.startClk
  {
  }

  /** A tick never changes `startClk`, never revives a changer, lowers
      `left` by one exactly when it advances, and moves `prevClk` only then. */
  lemma AfterCounters(s: TweenState, clk: int)
    ensures After(s, clk).startClk == s.startClk
    ensures s.dead ==> After(s, clk) == s
    ensures After(s, clk).dead <==> s.dead || Decide(s, clk) == Expire
    ensures s.left - 1 <= After(s, clk).left <= s.left
    ensures After(s, clk).left < s.left <==> Decide(s, clk).Advance?
    ensures After(s, clk).prevClk == if Decide(s, clk).Advance? then clk else s.prevClk
  {
  }

  /** Only an advance writes an `int` variable; a forward advance moves it
      in the direction of the step, and any advance with a non-zero step
      changes it. */
  lemma ApplyIntDirection(v: int, step: int, o: Outcome)
    ensures !o.Advance? ==> ApplyInt(v, step, o) == v
    ensures o.Advance? && o.delta > 0 ==>
      (step >= 0 ==> v <= ApplyInt(v, step, o)) && (step <= 0 ==> ApplyInt(v, step, o) <= v)
    ensures o.Advance? && o.delta != 0 && step != 0 ==> ApplyInt(v, step, o) != v
  {
    if o.Advance? && o.delta > 0 {
      if step >= 0 {
        assert step * o.delta >= 0;
      } else {
        assert step * o.delta <= 0;
      }
    }
  }

  /** A `bool` variable changes only on an advance with a `true` step, and
      a forward advance with a `true` step makes it `true`. */
  lemma ApplyBoolCases(v: bool, step: bool, o: Outcome)
    ensures !o.Advance? || !step ==> ApplyBool(v, step, o) == v
    ensures o.Advance? && step && o.delta > 0 ==> ApplyBool(v, step, o)
  {
  }

  /** A dead changer, or a clock that has not moved since the last effective
      tick, makes the tick a no-op. */
  lemma NoOpWhenDeadOrSameClock(s: TweenState, clk: int, v: int, step: int, b: bool, bstep: bool)
    requires s.dead || clk == s.prevClk
    ensures Decide(s, clk) == Idle && After(s, clk) == s
    ensures ApplyInt(v, step, Decide(s, clk)) == v
    ensures ApplyBool(b, bstep, Decide(s, clk)) == b
  {
  }

  /** Ticking twice at the same clock is ticking once: the second tick is
      always idle. */
  lemma TickIdempotent(s: TweenState, clk: int)
    ensures Decide(After(s, clk), clk) == Idle
    ensures After(After(s, clk), clk) == After(s, clk)
  {
  }

  /** When no time has passed since construction, or no steps are left, a
      live changer whose clock moved only sets `dead`; the variable keeps its
      value. */
  lemma ExpireLeavesVariable(s: TweenState, clk: int, v: int, step: int, b: bool, bstep: bool)
    requires !s.dead && clk != s.prevClk
    requires clk - s.startClk <= 0 || s.left <= 0
    ensures After(s, clk) == s.(dead := true)
    ensures ApplyInt(v, step, Decide(s, clk)) == v
    ensures ApplyBool(b, bstep, Decide(s, clk)) == b
  {
  }

  /** Otherwise the variable moves by one step per clock unit elapsed since
      the last effective tick, while `left` drops by exactly one whatever
      that number of units. */
  lemma AdvanceMovesByElapsedUnits(s: TweenState, clk: int, v: int, step: int)
    requires !s.dead && clk != s.prevClk
    requires clk - s.startClk > 0 && s.left > 0
    ensures ApplyInt(v, step, Decide(s, clk)) == v + step * (clk - s.prevClk)
    ensures After(s, clk) == TweenState(s.left - 1, clk, s.startClk, false)
  {
  }

  /** `dead` is never cleared, and every other counter of a dead changer is
      frozen, whatever sequence of clock values it is ticked at. */
  lemma {:induction false} DeadIsFinal(s: TweenState, clks: seq<int>)
    requires s.dead
    ensures AfterAll(s, clks) == s
    decreases |clks|
  {
    if clks != [] {
      DeadIsFinal(s, clks[..|clks| - 1]);
    }
  }

  /** The counters after ticking at each clock value of `clks` in turn. */
  function AfterAll(s: TweenState, clks: seq<int>): TweenState
    decreases |clks|
  {
    if clks == [] then s else After(AfterAll(s, clks[..|clks| - 1]), clks[|clks| - 1])
  }

  /** Once set, `dead` stays set across any number of ticks. */
  lemma {:induction false} DeadIsMonotone(s: TweenState, clks: seq<int>, k: nat)
    requires k <= |clks|
    requires AfterAll(s, clks[..k]).dead
    ensures AfterAll(s, clks).dead
    decreases |clks| - k
  {
    if k < |clks| {
      assert clks[..k + 1][..k] == clks[..k];
      DeadIsMonotone(s, clks, k + 1);
    } else {
      assert clks[..k] == clks;
    }
  }

  /** The `bool` specialisation read literally: a `false` target never
      changes the variable; a `true` target makes it true on any effective
      tick, except when the clock stepped back by exactly one unit from a
      `true` value (1 + 1 * -1 == 0). */
  lemma BoolStepIsLiteral(v: bool, start: bool, target: bool, steps: int, delta: int)
    requires delta != 0
    ensures !target ==> ApplyBool(v, StepBool(start, target, steps), Advance(delta)) == v
    ensures target ==> (ApplyBool(v, StepBool(start, target, steps), Advance(delta)) <==> !(v && delta == -1))
  {
  }
}
