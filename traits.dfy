/** The per-type step strategy of the gradual changer (GradualTraits<T>::step).
    Only the `int` and `bool` instantiations are modelled. */
module GradualTraits {

  function Abs(x: int): (r: nat)
  {
    if x < 0 then -x else x
  }

  /** Division of `a` by `b` rounded toward zero: what C++ yields when it
      divides in `double` and converts the quotient back to `int`. Dafny's own
      `/` is Euclidean, so the magnitude is divided and the sign restored. */
  function TruncDiv(a: int, b: int): int
    requires b != 0
  {
    if (a < 0) == (b < 0) then Abs(a) / Abs(b) else -(Abs(a) / Abs(b))
  }

  /** The quotient rounded toward zero: `q * b` lies between zero and `a`
      and falls short of `a` by less than `|b|`. */
  lemma TruncDivRounding(a: int, b: int)
    requires b != 0
    ensures Abs(TruncDiv(a, b) * b) <= Abs(a)
    ensures Abs(a - TruncDiv(a, b) * b) < Abs(b)
    ensures TruncDiv(a, b) * b == 0 || (TruncDiv(a, b) * b < 0 <==> a < 0)
  {
    var m := Abs(a) / Abs(b);
    DivBounds(Abs(a), Abs(b));
    Scale(a, b, m);
    QuotientBounds(a, b, TruncDiv(a, b) * b, m * Abs(b));
  }

  /** The truncated quotient times the divisor is the magnitude's multiple
      `m * |b|` with the sign of the dividend. */
  lemma Scale(a: int, b: int, m: int)
    requires b != 0 && m == Abs(a) / Abs(b)
    ensures TruncDiv(a, b) * b == if a < 0 then -(m * Abs(b)) else m * Abs(b)
  {
    SignedQuotient(a, b, m);
  }

  lemma DivBounds(x: nat, y: int)
    requires y > 0
    ensures 0 <= (x / y) * y <= x < (x / y) * y + y
  {
  }

  lemma SignedQuotient(a: int, b: int, m: int)
    ensures (if (a < 0) == (b < 0) then m else -m) * b == (if a < 0 then -(m * Abs(b)) else m * Abs(b))
  {
    if b < 0 {
      Negate(m, b);
    } else {
      Negate(m, -b);
    }
  }

  lemma Negate(m: int, x: int)
    ensures (-m) * x == -(m * x) && m * (-x) == -(m * x)
  {
  }

  lemma QuotientBounds(a: int, b: int, r: int, p: int)
    requires b != 0 && 0 <= p <= Abs(a) < p + Abs(b)
    requires r == if a < 0 then -p else p
    ensures Abs(r) <= Abs(a)
    ensures Abs(a - r) < Abs(b)
    ensures r == 0 || (r < 0 <==> a < 0)
  {
  }

  /** On operands of the same sign truncation and Dafny's Euclidean division
      agree; changing the sign of the dividend changes the sign of the quotient. */
  lemma TruncDivReference(a: int, b: int)
    requires b != 0
    ensures a >= 0 && b > 0 ==> TruncDiv(a, b) == a / b
    ensures TruncDiv(-a, b) == -TruncDiv(a, b)
    ensures TruncDiv(a, -b) == -TruncDiv(a, b)
  {
    var m := Abs(a) / Abs(b);
    assert Abs(-a) == Abs(a) && Abs(-b) == Abs(b);
    if a == 0 {
      assert m == 0;
    }
  }

  /** The default strategy for `int`: `(target - start) / double(steps)`
      narrowed back to `int`. The caller must not pass `steps == 0`: the
      quotient would be infinite or NaN, and its conversion is undefined. */
  function StepInt(start: int, target: int, steps: int): (r: int)
    requires steps != 0
    ensures Abs(r * steps) <= Abs(target - start)
    ensures Abs(target - start - r * steps) < Abs(steps)
    ensures r * steps == 0 || (r * steps < 0 <==> target < start)
  {
    TruncDivRounding(target - start, steps);
    TruncDiv(target - start, steps)
  }

  /** The `bool` specialisation: the target itself, whatever the start and
      the number of steps. */
  function StepBool(start: bool, target: bool, steps: int): (r: bool)
  {
    target
  }

  /** The `bool` step depends on the target alone: any start and any
      number of steps, zero and negative included, give the target. */
  lemma BoolStepIgnoresStartAndSteps(start: bool, other: bool, target: bool, steps: int, n: int)
    ensures StepBool(start, target, steps) == StepBool(other, target, n) == target
  {
  }

  /** `steps` increments of the `int` step never pass the target and leave
      less than `steps` units to go. */
  lemma IntStepConverges(start: int, target: int, steps: int)
    requires steps >= 1
    ensures var v := start + steps * StepInt(start, target, steps);
      (start <= target ==> start <= v <= target) &&
      (target <= start ==> target <= v <= start) &&
      Abs(target - v) < steps
  {
    var q := StepInt(start, target, steps);
    TruncDivRounding(target - start, steps);
    assert steps * q == q * steps;
  }
}
