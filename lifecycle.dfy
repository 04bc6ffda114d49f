/** The life of one changer in the list when the host advances the clock by
    one unit and then calls `GradualChangerBase::update` once, frame after
    frame: `duration` effective ticks, one tick that marks it dead, and
    removal on the pass after that. */
module Lifecycle {
  import opened GradualTraits
  import opened Tween

  /** One changer as the list sees it: linked with its counters, or gone. */
  datatype Entry = Linked(s: TweenState) | Unlinked

  /** What one `update` pass does to one entry: a dead entry is unlinked
      without being ticked, a live one is ticked once. */
  function Visit(e: Entry, clk: int): Entry
  {
    match e
    case Unlinked => Unlinked
    case Linked(s) => if s.dead then Unlinked else Linked(After(s, clk))
  }

  /** The tick outcome the bound variable sees during that pass. */
  function Seen(e: Entry, clk: int): Outcome
  {
    if e.Linked? && !e.s.dead then Decide(e.s, clk) else Idle
  }

  /** The entry after `k` passes, the clock reading `c + 1`, ..., `c + k`. */
  function Drive(e: Entry, c: int, k: nat): Entry
    decreases k
  {
    if k == 0 then e else Visit(Drive(e, c, k - 1), c + k)
  }

  /** The `int` variable after those `k` passes, starting from `v`. */
  function DriveInt(e: Entry, v: int, step: int, c: int, k: nat): int
    decreases k
  {
    if k == 0 then v
    else ApplyInt(DriveInt(e, v, step, c, k - 1), step, Seen(Drive(e, c, k - 1), c + k))
  }

  /** The `bool` variable after those `k` passes, starting from `v`. */
  function DriveBool(e: Entry, v: bool, step: bool, c: int, k: nat): bool
    decreases k
  {
    if k == 0 then v
    else ApplyBool(DriveBool(e, v, step, c, k - 1), step, Seen(Drive(e, c, k - 1), c + k))
  }

  /** How many of those `k` passes wrote to the variable. */
  function Writes(e: Entry, c: int, k: nat): nat
    decreases k
  {
    if k == 0 then 0
    else Writes(e, c, k - 1) + (if Seen(Drive(e, c, k - 1), c + k).Advance? then 1 else 0)
  }

  function Min(a: int, b: int): int
  {
    if a <= b then a else b
  }

  /** A changer created with `duration` at clock `c`: live with `duration - k`
      steps left after `k <= duration` passes, dead but still linked after
      `duration + 1`, unlinked from `duration + 2` on. */
  lemma {:induction false} DriveAt(duration: nat, c: int, k: nat)
    ensures Drive(Linked(Fresh(duration, c)), c, k) ==
      if k <= duration then Linked(TweenState(duration - k, c + k, c, false))
      else if k == duration + 1 then Linked(TweenState(0, c + duration, c, true))
      else Unlinked
    decreases k
  {
    if k > 0 {
      DriveAt(duration, c, k - 1);
    }
  }

  /** Pass `k` (from 1) writes one clock unit's worth of step while steps
      remain, marks the changer dead on the pass after, and is idle from
      then on. */
  lemma SeenAt(duration: nat, c: int, k: nat)
    requires k >= 1
    ensures Seen(Drive(Linked(Fresh(duration, c)), c, k - 1), c + k) ==
      if k <= duration then Advance(1) else if k == duration + 1 then Expire else Idle
  {
    DriveAt(duration, c, k - 1);
  }

  /** The variable moves on exactly the first `duration` passes, each time by
      one step, and never again. */
  lemma {:induction false} DriveIntAt(duration: nat, c: int, v: int, step: int, k: nat)
    ensures DriveInt(Linked(Fresh(duration, c)), v, step, c, k) == v + Min(k, duration) * step
    ensures Writes(Linked(Fresh(duration, c)), c, k) == Min(k, duration)
    decreases k
  {
    if k > 0 {
      DriveIntAt(duration, c, v, step, k - 1);
      SeenAt(duration, c, k);
      if k <= duration {
        assert Min(k, duration) * step == Min(k - 1, duration) * step + step;
      }
    }
  }

  /** The whole life of an `int` changer from `start` toward `target` over
      `duration >= 1` frames: it writes exactly `duration` times, marks itself
      dead on frame `duration + 1` without touching the variable, is unlinked
      on frame `duration + 2`, and leaves the variable at
      `start + duration * step`: between `start` and `target`, less than
      `duration` away from `target`, and not snapped onto it. */
  lemma IntLifecycle(start: int, target: int, duration: int, c: int)
    requires duration >= 1
    ensures var e, step := Linked(Fresh(duration, c)), StepInt(start, target, duration);
      var final := start + duration * step;
      Drive(e, c, duration + 1) == Linked(TweenState(0, c + duration, c, true)) &&
      Drive(e, c, duration + 2) == Unlinked &&
      Writes(e, c, duration + 2) == duration &&
      DriveInt(e, start, step, c, duration) == final &&
      DriveInt(e, start, step, c, duration + 2) == final &&
      (start <= target ==> start <= final <= target) &&
      (target <= start ==> target <= final <= start) &&
      Abs(target - final) < duration
  {
    var step := StepInt(start, target, duration);
    DriveAt(duration, c, duration + 1);
    DriveAt(duration, c, duration + 2);
    DriveIntAt(duration, c, start, step, duration);
    DriveIntAt(duration, c, start, step, duration + 2);
    IntStepConverges(start, target, duration);
  }

  /** Once unlinked, a changer stays unlinked and its variable keeps the value
      it had, however many more frames pass. */
  lemma StaysRemoved(duration: nat, c: int, v: int, step: int, k: nat)
    requires k >= duration + 2
    ensures Drive(Linked(Fresh(duration, c)), c, k) == Unlinked
    ensures DriveInt(Linked(Fresh(duration, c)), v, step, c, k) == v + duration * step
  {
    DriveAt(duration, c, k);
    DriveIntAt(duration, c, v, step, k);
  }

  /** A `bool` changer with a positive duration makes its variable true on
      the first frame when the target is true and never changes it when the
      target is false: after any number of frames the variable is
      `target || v`. */
  lemma {:induction false} BoolLifecycle(duration: nat, c: int, v: bool, target: bool, k: nat)
    requires duration >= 1 && k >= 1
    ensures DriveBool(Linked(Fresh(duration, c)), v, StepBool(v, target, duration), c, k) == (target || v)
    decreases k
  {
    SeenAt(duration, c, k);
    if k > 1 {
      BoolLifecycle(duration, c, v, target, k - 1);
    }
  }
}
