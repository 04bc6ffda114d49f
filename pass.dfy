/** What one `GradualChangerBase::update` pass does, stated on the snapshot
    it starts from: which changers stay in the list and in what order, how
    each bound variable moves, and what a second pass at unchanged clocks
    does. */
module Pass {
  import opened Tween
  import opened Changer

  /** The survivors among the first `n` changers are a prefix of those
      among the first `m >= n`. */
  lemma {:induction false} SurvivorsPrefix(ps: seq<Snap>, n: nat, m: nat)
    requires n <= m <= |ps|
    ensures |Survivors(ps, n)| <= |Survivors(ps, m)|
    ensures Survivors(ps, m)[..|Survivors(ps, n)|] == Survivors(ps, n)
    decreases m - n
  {
    if n < m {
      SurvivorsPrefix(ps, n, m - 1);
      var short, mid := Survivors(ps, n), Survivors(ps, m - 1);
      assert Survivors(ps, m)[..|mid|] == mid;
      assert Survivors(ps, m)[..|short|] == mid[..|short|];
    }
  }

  /** A changer not yet dead when the walk reaches it stays in the list,
      right after the survivors that came before it. */
  lemma SurvivorPosition(ps: seq<Snap>, j: nat)
    requires j < |ps| && !ps[j].s.dead
    ensures |Survivors(ps, j)| < |Live(ps)|
    ensures Live(ps)[|Survivors(ps, j)|] == ps[j].node
  {
    var before, upto := Survivors(ps, j), Survivors(ps, j + 1);
    SurvivorsPrefix(ps, j + 1, |ps|);
    assert upto == before + [ps[j].node];
    assert Live(ps)[|before|] == Live(ps)[..|upto|][|before|] == upto[|before|];
  }

  /** Survivors keep their relative order: of two changers kept by the
      pass, the one nearer the head stays nearer the head. */
  lemma SurvivorOrder(ps: seq<Snap>, a: nat, b: nat)
    requires a < b < |ps| && !ps[a].s.dead && !ps[b].s.dead
    ensures |Survivors(ps, a)| < |Survivors(ps, b)|
  {
    SurvivorsPrefix(ps, a + 1, b);
  }

  /** Every changer the pass keeps was in the list and not dead when the
      walk reached it. */
  lemma {:induction false} SurvivorsWereLive(ps: seq<Snap>, n: nat, k: nat)
    requires n <= |ps| && k < |Survivors(ps, n)|
    ensures exists j :: 0 <= j < n && !ps[j].s.dead && ps[j].node == Survivors(ps, n)[k]
  {
    if k < |Survivors(ps, n - 1)| {
      SurvivorsWereLive(ps, n - 1, k);
      assert Survivors(ps, n)[k] == Survivors(ps, n - 1)[k];
    } else {
      assert !ps[n - 1].s.dead && Survivors(ps, n)[k] == ps[n - 1].node;
    }
  }

  /** The pass removes exactly the changers whose `dead` flag was set when
      the walk reached them: in a list without repeats, a changer is in the
      new list if and only if it was not dead then. */
  lemma LiveIffNotDead(ps: seq<Snap>, j: nat)
    requires j < |ps|
    requires forall a, b :: 0 <= a < b < |ps| ==> ps[a].node != ps[b].node
    ensures ps[j].node in Live(ps) <==> !ps[j].s.dead
  {
    if !ps[j].s.dead {
      SurvivorPosition(ps, j);
    } else if ps[j].node in Live(ps) {
      var k :| 0 <= k < |Live(ps)| && Live(ps)[k] == ps[j].node;
      SurvivorsWereLive(ps, |ps|, k);
      var i :| 0 <= i < |ps| && !ps[i].s.dead && ps[i].node == Live(ps)[k];
    }
  }

  /** Lazy deletion: a changer that dies during its own tick in this pass is
      still in the list afterwards, now dead, and is dropped by the next
      pass. */
  lemma LazyDeletion(ps: seq<Snap>, j: nat)
    requires j < |ps| && !ps[j].s.dead
    requires Decide(ps[j].s, ps[j].clk) == Expire
    ensures ps[j].node in Live(ps)
    ensures Visited(ps[j]).dead
  {
    SurvivorPosition(ps, j);
  }

  /** How much the visit of `p` adds to the `int` variable `c`. */
  function Gain(p: Snap, c: IntCell): int
  {
    if !p.s.dead && p.node.binding.IntBinding? && p.node.binding.icell == c then
      match Decide(p.s, p.clk)
      case Advance(delta) => p.node.binding.istep * delta
      case _ => 0
    else 0
  }

  /** The sum of the gains of the first `n` visits. */
  function TotalGain(ps: seq<Snap>, n: nat, c: IntCell): int
    requires n <= |ps|
  {
    if n == 0 then 0 else TotalGain(ps, n - 1, c) + Gain(ps[n - 1], c)
  }

  /** An `int` variable ends a pass moved by the sum of what each changer
      bound to it adds, whatever value it started from and however many
      changers share it. */
  lemma {:induction false} IntPassIsSum(ps: seq<Snap>, n: nat, c: IntCell, v: int)
    requires n <= |ps|
    ensures IntPass(ps, n, c, v) == v + TotalGain(ps, n, c)
  {
    if n > 0 {
      IntPassIsSum(ps, n - 1, c, v);
    }
  }

  /** A variable that no changer of the list is bound to keeps its value. */
  lemma {:induction false} UnboundIntUnchanged(ps: seq<Snap>, n: nat, c: IntCell, v: int)
    requires n <= |ps|
    requires forall j :: 0 <= j < n ==> !(ps[j].node.binding.IntBinding? && ps[j].node.binding.icell == c)
    ensures IntPass(ps, n, c, v) == v
  {
    if n > 0 {
      UnboundIntUnchanged(ps, n - 1, c, v);
    }
  }

  /** A `bool` variable that no changer of the list is bound to keeps its value. */
  lemma {:induction false} UnboundBoolUnchanged(ps: seq<Snap>, n: nat, c: BoolCell, v: bool)
    requires n <= |ps|
    requires forall j :: 0 <= j < n ==> !(ps[j].node.binding.BoolBinding? && ps[j].node.binding.bcell == c)
    ensures BoolPass(ps, n, c, v) == v
  {
    if n > 0 {
      UnboundBoolUnchanged(ps, n - 1, c, v);
    }
  }

  /** The snapshot a second pass takes of the list a first pass over the
      first `n` changers leaves, when no clock has moved in between. */
  function Rest(ps: seq<Snap>, n: nat): seq<Snap>
    requires n <= |ps|
  {
    if n == 0 then []
    else Rest(ps, n - 1) + (if ps[n - 1].s.dead then [] else [Snap(ps[n - 1].node, Visited(ps[n - 1]), ps[n - 1].clk)])
  }

  /** That snapshot lists exactly the survivors of the first pass, each with
      the counters the first pass left in it. */
  lemma {:induction false} RestIsSurvivors(ps: seq<Snap>, n: nat)
    requires n <= |ps|
    ensures |Rest(ps, n)| == |Survivors(ps, n)|
    ensures forall k :: 0 <= k < |Rest(ps, n)| ==> Rest(ps, n)[k].node == Survivors(ps, n)[k]
  {
    if n > 0 {
      RestIsSurvivors(ps, n - 1);
    }
  }

  /** A second pass at unchanged clocks moves no `int` variable: every
      changer it ticks was ticked at that clock by the first pass. */
  lemma {:induction false} SecondPassIdleInt(ps: seq<Snap>, n: nat, c: IntCell, v: int)
    requires n <= |ps|
    ensures IntPass(Rest(ps, n), |Rest(ps, n)|, c, v) == v
  {
    if n > 0 {
      var r := Rest(ps, n - 1);
      SecondPassIdleInt(ps, n - 1, c, v);
      PassPrefixInt(r, Rest(ps, n), c, v);
      if !ps[n - 1].s.dead {
        TickIdempotent(ps[n - 1].s, ps[n - 1].clk);
      }
    }
  }

  /** A second pass at unchanged clocks moves no `bool` variable. */
  lemma {:induction false} SecondPassIdleBool(ps: seq<Snap>, n: nat, c: BoolCell, v: bool)
    requires n <= |ps|
    ensures BoolPass(Rest(ps, n), |Rest(ps, n)|, c, v) == v
  {
    if n > 0 {
      var r := Rest(ps, n - 1);
      SecondPassIdleBool(ps, n - 1, c, v);
      PassPrefixBool(r, Rest(ps, n), c, v);
      if !ps[n - 1].s.dead {
        TickIdempotent(ps[n - 1].s, ps[n - 1].clk);
      }
    }
  }

  /** The second-pass snapshot of the first `n` changers is a prefix of
      that of the first `m >= n`. */
  lemma {:induction false} RestPrefix(ps: seq<Snap>, n: nat, m: nat)
    requires n <= m <= |ps|
    ensures |Rest(ps, n)| <= |Rest(ps, m)|
    ensures Rest(ps, m)[..|Rest(ps, n)|] == Rest(ps, n)
    decreases m - n
  {
    if n < m {
      RestPrefix(ps, n, m - 1);
      var short, mid := Rest(ps, n), Rest(ps, m - 1);
      assert Rest(ps, m)[..|mid|] == mid;
      assert Rest(ps, m)[..|short|] == mid[..|short|];
    }
  }

  /** A survivor of the first pass meets the second one with the counters
      the first pass left in it and the clock value it read then. */
  lemma RestAt(ps: seq<Snap>, j: nat)
    requires j < |ps| && !ps[j].s.dead
    ensures |Rest(ps, j)| < |Rest(ps, |ps|)|
    ensures Rest(ps, |ps|)[|Rest(ps, j)|] == Snap(ps[j].node, Visited(ps[j]), ps[j].clk)
  {
    var before, upto := Rest(ps, j), Rest(ps, j + 1);
    RestPrefix(ps, j + 1, |ps|);
    assert upto == before + [Snap(ps[j].node, Visited(ps[j]), ps[j].clk)];
    assert Rest(ps, |ps|)[|before|] == Rest(ps, |ps|)[..|upto|][|before|] == upto[|before|];
  }

  /** Two passes at unchanged clocks: a changer is still listed after the
      second one if and only if it was not dead when the first reached it
      and its tick in the first did not expire it. Those that expired stay
      in the list one pass longer (lazy deletion) and are dropped by the
      second. */
  lemma SecondPassKeeps(ps: seq<Snap>, j: nat)
    requires j < |ps|
    requires forall a, b :: 0 <= a < b < |ps| ==> ps[a].node != ps[b].node
    ensures ps[j].node in Live(Rest(ps, |ps|)) <==> !ps[j].s.dead && Decide(ps[j].s, ps[j].clk) != Expire
  {
    var r := Rest(ps, |ps|);
    RestIsSurvivors(ps, |ps|);
    SurvivorsDistinct(ps, |ps|);
    assert forall a, b :: 0 <= a < b < |r| ==> r[a].node != r[b].node by {
      forall a, b | 0 <= a < b < |r|
        ensures r[a].node != r[b].node
      {
        assert r[a].node == Live(ps)[a] && r[b].node == Live(ps)[b];
      }
    }
    if !ps[j].s.dead {
      RestAt(ps, j);
      LiveIffNotDead(r, |Rest(ps, j)|);
    } else {
      LiveIffNotDead(ps, j);
      if ps[j].node in Live(r) {
        var k :| 0 <= k < |Live(r)| && Live(r)[k] == ps[j].node;
        SurvivorsWereLive(r, |r|, k);
      }
    }
  }

  /** A pass over a longer snapshot agrees with the pass over its prefix on
      the visits they share. */
  lemma {:induction false} PassPrefixInt(r: seq<Snap>, t: seq<Snap>, c: IntCell, v: int)
    requires |r| <= |t| && t[..|r|] == r
    ensures IntPass(t, |r|, c, v) == IntPass(r, |r|, c, v)
  {
    PassPrefixIntAt(r, t, |r|, c, v);
  }

  lemma {:induction false} PassPrefixIntAt(r: seq<Snap>, t: seq<Snap>, n: nat, c: IntCell, v: int)
    requires n <= |r| <= |t| && t[..|r|] == r
    ensures IntPass(t, n, c, v) == IntPass(r, n, c, v)
  {
    if n > 0 {
      PassPrefixIntAt(r, t, n - 1, c, v);
      assert t[n - 1] == t[..|r|][n - 1];
    }
  }

  lemma {:induction false} PassPrefixBool(r: seq<Snap>, t: seq<Snap>, c: BoolCell, v: bool)
    requires |r| <= |t| && t[..|r|] == r
    ensures BoolPass(t, |r|, c, v) == BoolPass(r, |r|, c, v)
  {
    PassPrefixBoolAt(r, t, |r|, c, v);
  }

  lemma {:induction false} PassPrefixBoolAt(r: seq<Snap>, t: seq<Snap>, n: nat, c: BoolCell, v: bool)
    requires n <= |r| <= |t| && t[..|r|] == r
    ensures BoolPass(t, n, c, v) == BoolPass(r, n, c, v)
  {
    if n > 0 {
      PassPrefixBoolAt(r, t, n - 1, c, v);
      assert t[n - 1] == t[..|r|][n - 1];
    }
  }
}
