# Gradual changer — a verified model

The repository is a frame-driven tweening engine for C++. A *gradual
changer* binds a caller-owned variable, a target value, a caller-owned
integer clock and a duration. At construction it computes a constant step
with `GradualTraits<T>::step` and pushes itself onto a process-wide
intrusive list. Once per frame the host calls `GradualChangerBase::update`.
That pass unlinks every changer already marked dead and ticks every other
one once. A tick does one of three things:

- nothing, when the changer is dead or the clock has not moved since the
  last effective tick;
- sets `dead`, without touching the variable, when no time has passed since
  construction or no steps are left;
- adds `step * (clock - prevClk)` to the variable, lowers `left` by exactly
  one and records the clock.

The model covers the `int` and `bool` instantiations. It is split by the
structure of `GradualChanger.h`:

- `traits.dfy` (module `GradualTraits`): the step strategy. The `int` step
  divides in `double` and converts back, which rounds toward zero, so it is
  modelled by `TruncDiv` and not by Dafny's Euclidean `/`. The `bool` step
  returns the target.
- `tween.dfy` (module `Tween`): the decision `tick` makes, as pure
  functions on the changer's counters (`Decide`, `After`, `ApplyInt`,
  `ApplyBool`), with its laws.
- `changer.dfy` (module `Changer`): the heap model. `IntCell`, `BoolCell`
  and `Clock` are the caller-owned variable and clock. `Changer` holds the
  node's `dead` flag and the fields of `GradualChanger<T>`; its constructors,
  `Link` and `Tick` are methods proved against the functions of `Tween`.
  `Registry` holds the list and its `Update` pass, proved against a
  specification of the pass on a snapshot of the list (`Survivors`,
  `Live`, `Visited`, `IntPass`, `BoolPass`).
- `pass.dfy` (module `Pass`): what one pass, and two passes in a row,
  do to the list and to the variables.
- `lifecycle.dfy` (module `Lifecycle`): the whole life of one changer when
  the host advances the clock by one unit before each `update`.
- `bridge.dfy` (module `Bridge`): ties the one-changer view of `Lifecycle`
  and the second-pass snapshot of `Pass` to the functions `Update` is
  proved against, so what is proved there holds of `update` itself.

The code does two things a reader may not expect; the model follows the
code:

- The comment on the `bool` specialisation (GradualChanger.h:32) promises a
  direct jump to the target. The code keeps that promise only for a `true`
  target. A `bool` changer whose target is `false` never changes its
  variable: the update `ref_ += step_ * delta` promotes to `int` and adds
  `0`, so a `true` variable stays `true`. A `true` target makes the
  variable `true` on any effective tick, except when the clock stepped back
  by exactly one unit from a `true` value.
- A changer that expires during a pass is still in the list after that
  pass. It is removed by the following pass (lazy deletion). So with
  duration `N` it is marked dead on clock increment `N + 1` and unlinked on
  increment `N + 2`.

## Model

| member | source | states |
|---|---|---|
| GradualTraits.TruncDivRounding | GradualChanger.h:26-28 | The narrowed quotient rounds toward zero: `q * b` has the sign of `a`, is no larger than `a` in magnitude and falls short of it by less than `|b|`. |
| GradualTraits.TruncDivReference | GradualChanger.h:26-28 | Rounding toward zero agrees with Euclidean division on non-negative operands and is odd in the dividend and in the divisor. |
| GradualTraits.IntStepConverges | GradualChanger.h:26-28 | `steps` increments of the `int` step never pass the target and end less than `steps` units from it. |
| GradualTraits.StepInt | GradualChanger.h:26-28 | The `int` step times `steps` has the sign of `target - start`, is no larger than it in magnitude and falls short of it by less than `|steps|`. |
| GradualTraits.BoolStepIgnoresStartAndSteps | GradualChanger.h:35 | The `bool` step is the target, whatever the start and the number of steps. |
| Tween.FreshTicks | GradualChanger.h:88-89 | A changer as constructed is idle at its creation clock, advances by the elapsed units at any later clock when its duration is positive, and expires otherwise. |
| Tween.DecideCases | GradualChanger.h:96-105 | `tick` is idle exactly when dead or the clock equals `prevClk`, expires exactly when live, moved, and with no time elapsed since construction or no steps left, and otherwise advances by the non-zero elapsed units. |
| Tween.AfterCounters | GradualChanger.h:96-105 | A tick keeps `startClk`, never clears `dead`, sets it exactly on expiry, lowers `left` by one exactly on an advance, and moves `prevClk` only then. |
| Tween.ApplyIntDirection | GradualChanger.h:103 | Only an advance writes an `int` variable; a forward advance moves it in the direction of the step, and a non-zero step always changes it. |
| Tween.ApplyBoolCases | GradualChanger.h:103 | A `bool` variable changes only on an advance with a `true` step, and a forward advance with a `true` step makes it `true`. |
| Tween.NoOpWhenDeadOrSameClock | GradualChanger.h:96 | A dead changer, or a clock equal to `prevClk`, makes the tick idle and leaves the counters and both an `int` and a `bool` variable unchanged. |
| Tween.TickIdempotent | GradualChanger.h:96-105 | A second tick at the same clock is idle and changes nothing. |
| Tween.ExpireLeavesVariable | GradualChanger.h:97-101 | With no time elapsed since construction or no steps left, a tick only sets `dead`; neither an `int` nor a `bool` variable changes (no snap to the target). |
| Tween.AdvanceMovesByElapsedUnits | GradualChanger.h:103-105 | Otherwise the variable moves by `step * (clock - prevClk)`, `left` drops by exactly one whatever the elapsed units, and `prevClk` becomes the clock. |
| Tween.DeadIsFinal | GradualChanger.h:43 | A dead changer's counters, `dead` included, stay as they are over any sequence of ticks. |
| Tween.DeadIsMonotone | GradualChanger.h:96-101 | Once `dead` is set after some prefix of ticks it is still set after all of them. |
| Tween.BoolStepIsLiteral | GradualChanger.h:35 | With the `bool` step, a `false` target never changes the variable; a `true` target makes it true unless it was true and the clock stepped back by one. |
| Changer.Changer.OfInt | GradualChanger.h:85-92 | The `int` changer stores the step computed from the variable's value at construction, `left = duration`, both clock fields at the clock's value, not dead, and is pushed at the head of the list with nothing else in the list changed. |
| Changer.Changer.OfBool | GradualChanger.h:85-92 | The same for the `bool` changer, whose step is the target. |
| Changer.Changer.Link | GradualChanger.h:79-82 | The changer becomes the new head, followed by the old list. |
| Changer.Changer.Tick | GradualChanger.h:95-106 | The counters move as `After` says and the bound variable as `ApplyInt`/`ApplyBool` say for the branch `Decide` picks; nothing else is modified. |
| Changer.Registry.constructor | GradualChanger.h:47 | The list starts empty (`head_ = nullptr`) and satisfies the registry invariant. |
| Changer.Registry.Visit | GradualChanger.h:53-61 | One loop step: a changer already dead is dropped untouched, any other is ticked once and kept; every variable moves by that changer's effect alone. |
| Changer.Registry.Walk | GradualChanger.h:51-63 | The loop returns exactly the changers not dead when reached, in list order; each changer's counters are those of one visit, clocks are not moved, and every variable has moved by the visits of the changers bound to it, in list order. |
| Changer.Registry.Update | GradualChanger.h:50-64 | After the pass the list is exactly the changers not dead when reached, in their old order, and still has no repeats; each changer's counters are those of one visit; no clock moved; each variable has moved by the visits of the changers bound to it, in list order. |
| Changer.SurvivorsDistinct | GradualChanger.h:50-64 | The list a pass builds from a list without repeats has no repeats. |
| Changer.LiveDistinct | GradualChanger.h:50-64 | The list after a pass still satisfies the registry invariant. |
| Pass.SurvivorsPrefix | GradualChanger.h:50-64 | The survivors of the first `n` visits are a prefix of those of the first `m >= n`: the walk only appends. |
| Pass.SurvivorPosition | GradualChanger.h:54-61 | A changer not dead when reached is in the new list, right after the survivors before it. |
| Pass.SurvivorOrder | GradualChanger.h:54-61 | Survivors keep their relative order. |
| Pass.SurvivorsWereLive | GradualChanger.h:54-57 | Every changer in the new list was in the old one and not dead when reached. |
| Pass.LiveIffNotDead | GradualChanger.h:54-61 | A changer is in the new list if and only if it was not dead when the walk reached it. |
| Pass.LazyDeletion | GradualChanger.h:54-59 | A changer that expires during its own tick stays in the list after the pass, marked dead. |
| Pass.IntPassIsSum | GradualChanger.h:59 | An `int` variable ends a pass moved by the sum of the gains of the changers bound to it. |
| Pass.UnboundIntUnchanged | GradualChanger.h:50-64 | An `int` variable no changer is bound to keeps its value. |
| Pass.UnboundBoolUnchanged | GradualChanger.h:50-64 | A `bool` variable no changer is bound to keeps its value. |
| Pass.RestIsSurvivors | GradualChanger.h:50-64 | The list a second pass walks is the survivors of the first, with the counters the first pass left. |
| Pass.RestAt | GradualChanger.h:50-64 | A survivor meets the second pass with the counters the first pass left in it. |
| Pass.SecondPassIdleInt | GradualChanger.h:96 | A second pass with no clock moved changes no `int` variable. |
| Pass.SecondPassIdleBool | GradualChanger.h:96 | A second pass with no clock moved changes no `bool` variable. |
| Pass.SecondPassKeeps | GradualChanger.h:54-59 | After two passes with no clock moved, a changer is listed if and only if it was not dead at the first and did not expire during it. |
| Bridge.PassIsLifecycleVisit | GradualChanger.h:54-61 | For the changer at any position of a list without repeats, one pass keeps it with the counters `Visited` gives exactly when the one-changer step of `Lifecycle` keeps it, and drops it otherwise. |
| Bridge.IntEffectIsSeen | GradualChanger.h:59 | A visit's effect on the `int` variable its changer is bound to is the step applied for the outcome the one-changer view sees. |
| Bridge.BoolEffectIsSeen | GradualChanger.h:59 | The same for a `bool` variable. |
| Bridge.SoleBinderInt | GradualChanger.h:50-64 | An `int` variable only one changer is bound to ends the pass as that changer's own tick leaves it, whatever the other changers do. |
| Bridge.SoleBinderBool | GradualChanger.h:50-64 | The same for a `bool` variable. |
| Bridge.SnapshotAfterPass | GradualChanger.h:50-64 | The list `Update` leaves, read in the state it leaves, is exactly the snapshot the second-pass lemmas are about. |
| Bridge.SurvivorAfterPass | GradualChanger.h:54-61 | Each survivor, read after the pass, is the matching entry of that snapshot. |
| Lifecycle.DriveAt | GradualChanger.h:85-106 | Driven one clock unit per pass, a changer of duration `N` is live with `N - k` steps left after `k <= N` passes, dead and still linked after `N + 1`, unlinked after that. |
| Lifecycle.SeenAt | GradualChanger.h:96-105 | Pass `k` advances by one unit while `k <= N`, expires the changer at `N + 1`, and is idle afterwards. |
| Lifecycle.DriveIntAt | GradualChanger.h:103-105 | After `k` passes the `int` variable is `start + min(k, N) * step` and has been written `min(k, N)` times. |
| Lifecycle.IntLifecycle | GradualChanger.h:50-106 | An `int` changer with `N >= 1` writes exactly `N` times, dies on pass `N + 1`, is unlinked on pass `N + 2`, and leaves the variable at `start + N * step`, between start and target and less than `N` from the target. |
| Lifecycle.StaysRemoved | GradualChanger.h:50-64 | From pass `N + 2` on the changer stays unlinked and the variable keeps `start + N * step`. |
| Lifecycle.BoolLifecycle | GradualChanger.h:35 | A `bool` changer with `N >= 1` leaves its variable at `target || v` after any number of passes from the first. |

## Left out

- The `unsigned`, `long long`, `float` and `double` instantiations are not modelled: the last two are floating point, and the model covers `int` and `bool` only.
- `makeGradualChanger` and `detail::index_of` (GradualChanger.h:11-20, 110-122) are template dispatch over `std::variant`; `index_of` is never used, and `std::get<T>(target)` throws when the target holds another alternative.
- GradualChanger.cpp is a console demonstration program; it is not part of this model.
- `delete`, the virtual destructor and virtual dispatch of `tick`: removal is modelled as dropping the changer from the list, not as reclaiming its memory; the two instantiations are a tagged union `Binding`.
- Changer.Registry.Update: the intrusive `next` pointers and the relinking of `prev->next` or `head_` are not modelled; the list is a sequence that the pass rebuilds from the survivors, so pointer surgery itself (skipping or double-visiting through `next`) is not captured, only its result.
- Changer.Changer.Link: pushes onto the sequence rather than writing `next` and `head_`.
- The global `head_` is a `Registry` object passed to the constructors; thread safety of it is out of scope, as the source assumes one thread.
- Changer.Changer.OfInt: requires `duration != 0`, because the `double` quotient is then infinite or NaN and its conversion to `int` is undefined; a negative duration is allowed and makes the first effective tick expire the changer.
- Changer.Changer.Tick: integers are unbounded, so overflow of `ref_ += ...`, of `step_ * (clock_ - prevClk_)` and of the clock subtractions is not modelled.
- GradualTraits.StepInt: overflow of `target - start` in the `int` step (GradualChanger.h:27) is not modelled; the difference is computed exactly.
- The variable and the clock are separate classes, so aliasing between them is not modelled: neither a changer whose clock is its own animated variable, nor one changer animating the clock another changer reads (in the source the outcome of that case depends on list order, since the later tick reads the clock the earlier tick moved). A dangling reference to either is not modelled either.
- `target_` is stored in `Binding` but, as in the source (line 99 is commented out), never read after construction.
