/** The gradual changer on the heap: caller-owned variables and clocks, the
    changers themselves (GradualChanger<T> over GradualChangerBase::Node)
    and the process-wide list with its per-frame `update` pass. */
module Changer {
  import opened GradualTraits
  import opened Tween

  /** A caller-owned `int` variable that a changer animates (`T& ref_`). */
  class IntCell {
    var v: int

    constructor (v: int)
      ensures this.v == v
    {
      this.v := v;
    }
  }

  /** A caller-owned `bool` variable that a changer animates. */
  class BoolCell {
    var v: bool

    constructor (v: bool)
      ensures this.v == v
    {
      this.v := v;
    }
  }

  /** The caller-owned frame counter a changer reads (`const int& clock_`). */
  class Clock {
    var now: int

    constructor (now: int)
      ensures this.now == now
    {
      this.now := now;
    }
  }

  /** The instantiation-specific part of a changer: the bound variable,
      `target_`, and `step_` as computed once at construction. */
  datatype Binding =
    | IntBinding(icell: IntCell, itarget: int, istep: int)
    | BoolBinding(bcell: BoolCell, btarget: bool, bstep: bool)
  {
    function Var(): (r: object)
      ensures r is IntCell || r is BoolCell
    {
      match this
      case IntBinding(c, _, _) => c
      case BoolBinding(c, _, _) => c
    }
  }

  /** One changer: the `dead` flag of GradualChangerBase::Node and the
      fields of GradualChanger<T>. Its place in the list is kept by the
      registry. */
  class Changer {
    var dead: bool
    const binding: Binding
    var left: int
    const clock: Clock
    const startClk: int
    var prevClk: int

    /** The counters `tick` reads and writes. */
    function State(): TweenState
      reads this`left, this`prevClk, this`dead
    {
      TweenState(left, prevClk, startClk, dead)
    }

    /** `new GradualChanger<int>(ref, target, clock, duration)`: computes the
        step from the variable's current value, starts counting at the
        clock's current value and puts itself at the head of the list. */
    constructor OfInt(reg: Registry, ref: IntCell, target: int, clock: Clock, duration: int)
      requires reg.Valid()
      requires duration != 0
      modifies reg
      ensures binding == IntBinding(ref, target, StepInt(ref.v, target, duration))
      ensures this.clock == clock && State() == Fresh(duration, clock.now)
      ensures reg.Valid() && reg.nodes == [this] + old(reg.nodes)
    {
      binding := IntBinding(ref, target, StepInt(ref.v, target, duration));
      left := duration;
      this.clock := clock;
      startClk := clock.now;
      prevClk := clock.now;
      dead := false;
      new;
      Link(reg);
    }

    /** `new GradualChanger<bool>(ref, target, clock, duration)`; the `bool`
        step needs no non-zero duration. */
    constructor OfBool(reg: Registry, ref: BoolCell, target: bool, clock: Clock, duration: int)
      requires reg.Valid()
      modifies reg
      ensures binding == BoolBinding(ref, target, StepBool(ref.v, target, duration))
      ensures this.clock == clock && State() == Fresh(duration, clock.now)
      ensures reg.Valid() && reg.nodes == [this] + old(reg.nodes)
    {
      binding := BoolBinding(ref, target, StepBool(ref.v, target, duration));
      left := duration;
      this.clock := clock;
      startClk := clock.now;
      prevClk := clock.now;
      dead := false;
      new;
      Link(reg);
    }

    /** `link()`: push this changer onto the front of the list. */
    method Link(reg: Registry)
      requires reg.Valid() && this !in reg.nodes
      modifies reg
      ensures reg.Valid() && reg.nodes == [this] + old(reg.nodes)
    {
      reg.nodes := [this] + reg.nodes;
    }

    /** `tick()`: the counters move as `After` says and the bound variable as
        `ApplyInt`/`ApplyBool` say for the outcome `Decide` picks. */
    method Tick()
      modifies this`left, this`prevClk, this`dead, binding.Var()
      ensures State() == After(old(State()), clock.now)
      ensures binding.IntBinding? ==>
        binding.icell.v == ApplyInt(old(binding.icell.v), binding.istep, Decide(old(State()), clock.now))
      ensures binding.BoolBinding? ==>
        binding.bcell.v == ApplyBool(old(binding.bcell.v), binding.bstep, Decide(old(State()), clock.now))
    {
      if dead || clock.now == prevClk {
        return;
      }
      var elapsed := clock.now - startClk;
      if elapsed <= 0 || left <= 0 {
        dead := true;
        return;
      }
      var now := clock.now;
      match binding {
        case IntBinding(ref, _, step) =>
          ref.v := ref.v + step * (now - prevClk);
        case BoolBinding(ref, _, step) =>
          ref.v := BoolToInt(ref.v) + BoolToInt(step) * (now - prevClk) != 0;
      }
      left := left - 1;
      prevClk := now;
    }
  }

  /** One changer as an `update` pass finds it: its counters and the value
      of its clock at that moment. */
  datatype Snap = Snap(node: Changer, s: TweenState, clk: int)

  ghost function Clocks(ns: seq<Changer>): set<Clock>
  {
    set n | n in ns :: n.clock
  }

  /** The snapshot of every changer of `ns`, in list order. */
  ghost function Snapshot(ns: seq<Changer>): (ps: seq<Snap>)
    reads ns, Clocks(ns)
    ensures |ps| == |ns|
    ensures forall j :: 0 <= j < |ns| ==> ps[j] == Snap(ns[j], ns[j].State(), ns[j].clock.now)
  {
    seq(|ns|, j requires 0 <= j < |ns| reads ns, Clocks(ns) => Snap(ns[j], ns[j].State(), ns[j].clock.now))
  }

  ghost predicate Distinct(ns: seq<Changer>)
  {
    forall a, b :: 0 <= a < b < |ns| ==> ns[a] != ns[b]
  }

  /** The changers a pass keeps among the first `n` it visits: those not
      yet dead when reached, in list order. */
  function Survivors(ps: seq<Snap>, n: nat): seq<Changer>
    requires n <= |ps|
  {
    if n == 0 then []
    else Survivors(ps, n - 1) + (if ps[n - 1].s.dead then [] else [ps[n - 1].node])
  }

  /** The list a whole pass leaves behind. */
  function Live(ps: seq<Snap>): seq<Changer>
  {
    Survivors(ps, |ps|)
  }

  /** The counters a pass leaves in a changer: untouched when it was
      already dead (it is unlinked, not ticked), ticked once otherwise. */
  function Visited(p: Snap): TweenState
  {
    if p.s.dead then p.s else After(p.s, p.clk)
  }

  /** What the pass's visit of `p` does to the `int` variable `c` holding `v`. */
  function IntEffect(p: Snap, c: IntCell, v: int): int
  {
    if !p.s.dead && p.node.binding.IntBinding? && p.node.binding.icell == c then
      ApplyInt(v, p.node.binding.istep, Decide(p.s, p.clk))
    else v
  }

  /** What the pass's visit of `p` does to the `bool` variable `c` holding `v`. */
  function BoolEffect(p: Snap, c: BoolCell, v: bool): bool
  {
    if !p.s.dead && p.node.binding.BoolBinding? && p.node.binding.bcell == c then
      ApplyBool(v, p.node.binding.bstep, Decide(p.s, p.clk))
    else v
  }

  /** The value of `c` once a pass has visited the first `n` changers,
      starting from `v`. */
  function IntPass(ps: seq<Snap>, n: nat, c: IntCell, v: int): int
    requires n <= |ps|
  {
    if n == 0 then v else IntEffect(ps[n - 1], c, IntPass(ps, n - 1, c, v))
  }

  /** The value of `c` once a pass has visited the first `n` changers,
      starting from `v`. */
  function BoolPass(ps: seq<Snap>, n: nat, c: BoolCell, v: bool): bool
    requires n <= |ps|
  {
    if n == 0 then v else BoolEffect(ps[n - 1], c, BoolPass(ps, n - 1, c, v))
  }

  /** The survivors of distinct changers are distinct. */
  lemma {:induction false} SurvivorsDistinct(ps: seq<Snap>, n: nat)
    requires n <= |ps|
    requires forall a, b :: 0 <= a < b < |ps| ==> ps[a].node != ps[b].node
    ensures Distinct(Survivors(ps, n))
  {
    if n > 0 {
      var prefix := Survivors(ps, n - 1);
      SurvivorsDistinct(ps, n - 1);
      SurvivorsFrom(ps, n - 1);
      if !ps[n - 1].s.dead {
        var all := prefix + [ps[n - 1].node];
        forall a, b | 0 <= a < b < |all|
          ensures all[a] != all[b]
        {
          if b == |prefix| {
            assert all[a] == prefix[a] && prefix[a] in prefix;
          }
        }
      }
    }
  }

  /** Every survivor among the first `n` is one of the first `n` changers. */
  lemma {:induction false} SurvivorsFrom(ps: seq<Snap>, n: nat)
    requires n <= |ps|
    ensures forall x :: x in Survivors(ps, n) ==> exists j :: 0 <= j < n && ps[j].node == x
  {
    if n > 0 {
      SurvivorsFrom(ps, n - 1);
    }
  }

  lemma LiveDistinct(ps: seq<Snap>, ns: seq<Changer>)
    requires |ps| == |ns| && Distinct(ns)
    requires forall j :: 0 <= j < |ns| ==> ps[j].node == ns[j]
    ensures Distinct(Live(ps))
  {
    SurvivorsDistinct(ps, |ps|);
  }

  /** The variables the changers of `ns` are bound to. */
  ghost function VarsOf(ns: seq<Changer>): set<object>
  {
    set n | n in ns :: n.binding.Var()
  }

  /** GradualChangerBase::head_ and the list it heads, as an object the host
      owns; `nodes` is the list from the head on. */
  class Registry {
    var nodes: seq<Changer>

    ghost predicate Valid()
      reads this
    {
      Distinct(nodes)
    }

    constructor ()
      ensures Valid() && nodes == []
    {
      nodes := [];
    }

    ghost function Vars(): set<object>
      reads this
    {
      VarsOf(nodes)
    }

    ghost function IntVars(): set<IntCell>
      reads this
    {
      set n | n in nodes && n.binding.IntBinding? :: n.binding.icell
    }

    ghost function BoolVars(): set<BoolCell>
      reads this
    {
      set n | n in nodes && n.binding.BoolBinding? :: n.binding.bcell
    }

    /** The body of `update`'s loop for changer `i` of `ns`, a pass that
        started in the states `ps`: a changer already dead is dropped without
        a tick; any other is ticked once and kept. */
    static method Visit(ghost ns: seq<Changer>, ghost ps: seq<Snap>, cur: Changer, ghost i: nat,
                        ghost iv: set<IntCell>, ghost bv: set<BoolCell>, kept: seq<Changer>)
      returns (kept': seq<Changer>)
      requires |ps| == |ns| && i < |ns| && cur == ns[i]
      requires Distinct(ns)
      requires forall j :: 0 <= j < |ns| ==> ps[j].node == ns[j]
      requires forall j :: i <= j < |ns| ==> ns[j].clock.now == ps[j].clk
      requires forall j :: 0 <= j < |ns| ==> ns[j].State() == if j < i then Visited(ps[j]) else ps[j].s
      requires kept == Survivors(ps, i)
      modifies cur`left, cur`prevClk, cur`dead, cur.binding.Var()
      ensures forall j :: i < j < |ns| ==> ns[j].clock.now == ps[j].clk
      ensures forall j :: 0 <= j < |ns| ==> ns[j].State() == if j <= i then Visited(ps[j]) else ps[j].s
      ensures kept' == Survivors(ps, i + 1)
      ensures forall c :: c in iv ==> c.v == IntEffect(ps[i], c, old(c.v))
      ensures forall c :: c in bv ==> c.v == BoolEffect(ps[i], c, old(c.v))
    {
      if cur.dead {
        kept' := kept;
      } else {
        cur.Tick();
        kept' := kept + [cur];
      }
    }

    /** The loop of `update()` over the list `all`, which started in the
        states `ps`: it returns the changers not dead when reached, in list
        order, ticking each of them once. */
    static method Walk(all: seq<Changer>, ghost ps: seq<Snap>, ghost iv: set<IntCell>, ghost bv: set<BoolCell>)
      returns (kept: seq<Changer>)
      requires Distinct(all) && |ps| == |all|
      requires forall j :: 0 <= j < |all| ==> ps[j] == Snap(all[j], all[j].State(), all[j].clock.now)
      modifies all, VarsOf(all)
      ensures kept == Live(ps)
      ensures forall j :: 0 <= j < |all| ==> all[j].State() == Visited(ps[j]) && all[j].clock.now == ps[j].clk
      ensures forall c :: c in iv ==> c.v == IntPass(ps, |all|, c, old(c.v))
      ensures forall c :: c in bv ==> c.v == BoolPass(ps, |all|, c, old(c.v))
    {
      var i := 0;
      kept := [];
      while i < |all|
        invariant forall j :: i <= j < |all| ==> all[j].clock.now == ps[j].clk
        invariant 0 <= i <= |all|
        invariant kept == Survivors(ps, i)
        invariant forall j :: 0 <= j < |all| ==> all[j].State() == if j < i then Visited(ps[j]) else ps[j].s
        invariant forall c :: c in iv ==> c.v == IntPass(ps, i, c, old(c.v))
        invariant forall c :: c in bv ==> c.v == BoolPass(ps, i, c, old(c.v))
      {
        kept := Visit(all, ps, all[i], i, iv, bv, kept);
        i := i + 1;
      }
    }

    /** `update()`: one walk of the list that drops every changer already
        dead when reached and ticks every other one once, in list order. */
    method Update()
      requires Valid()
      modifies this, nodes, Vars()
      ensures Valid()
      ensures nodes == Live(old(Snapshot(nodes)))
      ensures forall j :: 0 <= j < |old(nodes)| ==> old(nodes)[j].State() == Visited(old(Snapshot(nodes))[j])
      ensures forall j :: 0 <= j < |old(nodes)| ==> old(nodes)[j].clock.now == old(Snapshot(nodes))[j].clk
      ensures forall c :: c in old(IntVars()) ==> c.v == IntPass(old(Snapshot(nodes)), |old(nodes)|, c, old(c.v))
      ensures forall c :: c in old(BoolVars()) ==> c.v == BoolPass(old(Snapshot(nodes)), |old(nodes)|, c, old(c.v))
    {
      var all := nodes;
      ghost var ps := Snapshot(all);
      var kept := Walk(all, ps, IntVars(), BoolVars());
      LiveDistinct(ps, all);
      nodes := kept;
    }
  }
}
