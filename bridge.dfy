/** Ties the one-changer view of `Lifecycle` and the second-pass snapshot
    `Rest` of `Pass` to the functions `Registry.Update` is proved against
    (`Live`, `Visited`, `IntPass`, `BoolPass`), so that what is proved
    about them holds of `GradualChangerBase::update` itself. */
module Bridge {
  import opened Tween
  import opened Changer
  import opened Pass
  import Lifecycle

  /** The changer at position `j` of a list without repeats: a pass leaves
      it linked with the counters `Visited` gives exactly when
      `Lifecycle.Visit` keeps it, and unlinked otherwise. */
  lemma PassIsLifecycleVisit(ps: seq<Snap>, j: nat)
    requires j < |ps|
    requires forall a, b :: 0 <= a < b < |ps| ==> ps[a].node != ps[b].node
    ensures Lifecycle.Visit(Lifecycle.Linked(ps[j].s), ps[j].clk) ==
      if ps[j].node in Live(ps) then Lifecycle.Linked(Visited(ps[j])) else Lifecycle.Unlinked
  {
    LiveIffNotDead(ps, j);
  }

  /** The effect of a visit on the `int` variable its changer is bound to is
      the step applied for the outcome `Lifecycle.Seen` gives. */
  lemma IntEffectIsSeen(p: Snap, v: int)
    requires p.node.binding.IntBinding?
    ensures IntEffect(p, p.node.binding.icell, v) ==
      ApplyInt(v, p.node.binding.istep, Lifecycle.Seen(Lifecycle.Linked(p.s), p.clk))
  {
  }

  /** The same for a `bool` variable. */
  lemma BoolEffectIsSeen(p: Snap, v: bool)
    requires p.node.binding.BoolBinding?
    ensures BoolEffect(p, p.node.binding.bcell, v) ==
      ApplyBool(v, p.node.binding.bstep, Lifecycle.Seen(Lifecycle.Linked(p.s), p.clk))
  {
  }

  /** An `int` variable that only the changer at position `j` is bound to
      ends the pass as that changer's own tick leaves it, whatever the other
      changers of the list do. */
  lemma {:induction false} SoleBinderInt(ps: seq<Snap>, j: nat, n: nat, v: int)
    requires j < n <= |ps| && ps[j].node.binding.IntBinding?
    requires forall k :: 0 <= k < n && k != j ==>
      !(ps[k].node.binding.IntBinding? && ps[k].node.binding.icell == ps[j].node.binding.icell)
    ensures IntPass(ps, n, ps[j].node.binding.icell, v) ==
      ApplyInt(v, ps[j].node.binding.istep, Lifecycle.Seen(Lifecycle.Linked(ps[j].s), ps[j].clk))
    decreases n
  {
    var c := ps[j].node.binding.icell;
    if n == j + 1 {
      UnboundIntUnchanged(ps, j, c, v);
    } else {
      SoleBinderInt(ps, j, n - 1, v);
    }
  }

  /** The same for a `bool` variable. */
  lemma {:induction false} SoleBinderBool(ps: seq<Snap>, j: nat, n: nat, v: bool)
    requires j < n <= |ps| && ps[j].node.binding.BoolBinding?
    requires forall k :: 0 <= k < n && k != j ==>
      !(ps[k].node.binding.BoolBinding? && ps[k].node.binding.bcell == ps[j].node.binding.bcell)
    ensures BoolPass(ps, n, ps[j].node.binding.bcell, v) ==
      ApplyBool(v, ps[j].node.binding.bstep, Lifecycle.Seen(Lifecycle.Linked(ps[j].s), ps[j].clk))
    decreases n
  {
    var c := ps[j].node.binding.bcell;
    if n == j + 1 {
      UnboundBoolUnchanged(ps, j, c, v);
    } else {
      SoleBinderBool(ps, j, n - 1, v);
    }
  }

  /** The list a pass leaves, read in the state the pass leaves (counters
      as `Visited` gives, clocks unmoved), is what the next pass walks:
      the snapshot `Rest` of `Pass`. */
  lemma SnapshotAfterPass(ps: seq<Snap>, ns: seq<Changer>)
    requires |ps| == |ns|
    requires forall a, b :: 0 <= a < b < |ps| ==> ps[a].node != ps[b].node
    requires forall j :: 0 <= j < |ns| ==> ps[j].node == ns[j]
    requires forall j :: 0 <= j < |ns| ==> ns[j].State() == Visited(ps[j]) && ns[j].clock.now == ps[j].clk
    ensures Snapshot(Live(ps)) == Rest(ps, |ps|)
  {
    RestIsSurvivors(ps, |ps|);
    forall k | 0 <= k < |Live(ps)|
      ensures Snapshot(Live(ps))[k] == Rest(ps, |ps|)[k]
    {
      SurvivorAfterPass(ps, ns, k);
    }
  }

  /** The survivor at position `k` of the new list, read after the pass,
      is entry `k` of `Rest`. */
  lemma SurvivorAfterPass(ps: seq<Snap>, ns: seq<Changer>, k: nat)
    requires |ps| == |ns| && k < |Live(ps)|
    requires forall a, b :: 0 <= a < b < |ps| ==> ps[a].node != ps[b].node
    requires forall j :: 0 <= j < |ns| ==> ps[j].node == ns[j]
    requires forall j :: 0 <= j < |ns| ==> ns[j].State() == Visited(ps[j]) && ns[j].clock.now == ps[j].clk
    ensures k < |Rest(ps, |ps|)|
    ensures Rest(ps, |ps|)[k] == Snap(Live(ps)[k], Live(ps)[k].State(), Live(ps)[k].clock.now)
  {
    var live := Live(ps);
    SurvivorsWereLive(ps, |ps|, k);
    var j :| 0 <= j < |ps| && !ps[j].s.dead && ps[j].node == live[k];
    SurvivorsDistinct(ps, |ps|);
    SurvivorPosition(ps, j);
    assert live[|Survivors(ps, j)|] == live[k];
    RestIsSurvivors(ps, j);
    RestAt(ps, j);
    assert ns[j] == live[k];
  }
}
