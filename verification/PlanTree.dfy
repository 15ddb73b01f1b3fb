/** A plan tree flattened into steps, with what each step costs alone and the slowest of them. */
module PlanTree {
  import opened ByteText

  /** A plan node: its cost and (analyzed) time with everything below it, and whether it is an InitPlan of
      its parent. `time` is -1 for a node that was not timed. */
  datatype Node = Node(name: string, cost: real, analyzed: bool, time: real, initPlan: bool, plans: seq<Node>)

  datatype Step = Step(name: string, depth: nat, cost: real, selfCost: real, selfTime: Option<real>)

  function NotNegative(x: real): real { if x < 0.0 then 0.0 else x }

  /** The children's costs that are part of their parent's. */
  function ChildCost(ns: seq<Node>): real {
    if ns == [] then 0.0 else ChildCost(ns[..|ns| - 1]) + (if ns[|ns| - 1].initPlan then 0.0 else ns[|ns| - 1].cost)
  }

  function ChildTime(ns: seq<Node>): real {
    if ns == [] then 0.0
    else ChildTime(ns[..|ns| - 1]) + (if ns[|ns| - 1].time > 0.0 && !ns[|ns| - 1].initPlan then ns[|ns| - 1].time else 0.0)
  }

  function StepOf(n: Node, depth: nat): Step {
    Step(n.name, depth, n.cost, NotNegative(n.cost - ChildCost(n.plans)),
         if n.analyzed then Some(NotNegative(n.time - ChildTime(n.plans))) else None)
  }

  /** The steps of a tree: the node, then its children's trees in order. */
  function Preorder(n: Node, depth: nat): (ss: seq<Step>)
    ensures |ss| == Size(n)
    decreases n, 1
  {
    [StepOf(n, depth)] + PreorderAll(n.plans, depth + 1)
  }

  function PreorderAll(ns: seq<Node>, depth: nat): (ss: seq<Step>)
    ensures |ss| == SizeAll(ns)
    decreases ns, 0
  {
    if ns == [] then [] else Preorder(ns[0], depth) + PreorderAll(ns[1..], depth)
  }

  function Size(n: Node): nat
    decreases n, 1
  {
    1 + SizeAll(n.plans)
  }

  function SizeAll(ns: seq<Node>): nat
    decreases ns, 0
  {
    if ns == [] then 0 else Size(ns[0]) + SizeAll(ns[1..])
  }

  lemma {:induction false} PreorderAllConcat(a: seq<Node>, b: seq<Node>, depth: nat)
    ensures PreorderAll(a + b, depth) == PreorderAll(a, depth) + PreorderAll(b, depth)
    decreases |a|
  {
    hide Preorder, Size, SizeAll;
    if a == [] {
      assert a + b == b;
    } else {
      assert (a + b)[0] == a[0] && (a + b)[1..] == a[1..] + b;
      PreorderAllConcat(a[1..], b, depth);
      ConcatAssociates(Preorder(a[0], depth), PreorderAll(a[1..], depth), PreorderAll(b, depth));
    }
  }

  lemma PreorderOne(n: Node, depth: nat)
    ensures PreorderAll([n], depth) == Preorder(n, depth)
  {
    hide Preorder;
    assert [n][1..] == [];
  }

  /** Where the k-th child stands: its whole tree follows the trees of the children before it. */
  lemma ChildBlock(ns: seq<Node>, depth: nat, k: nat)
    requires k < |ns|
    ensures
      var start := SizeAll(ns[..k]);
      start + Size(ns[k]) <= SizeAll(ns) && PreorderAll(ns, depth)[start..start + Size(ns[k])] == Preorder(ns[k], depth)
  {
    hide Preorder, PreorderAll, Size, SizeAll;
    assert ns == ns[..k] + ([ns[k]] + ns[k + 1..]);
    PreorderAllConcat(ns[..k], [ns[k]] + ns[k + 1..], depth);
    PreorderAllConcat([ns[k]], ns[k + 1..], depth);
    PreorderOne(ns[k], depth);
  }

  /** A step says where its node stands: a tree begins with its root, and the k-th child's step is one deeper. */
  lemma ChildStep(n: Node, depth: nat, k: nat)
    requires k < |n.plans|
    ensures
      var ss, at := Preorder(n, depth), 1 + SizeAll(n.plans[..k]);
      && at < |ss| && ss[0].name == n.name && ss[0].depth == depth && ss[0].cost == n.cost
      && ss[at].name == n.plans[k].name && ss[at].depth == depth + 1 && ss[at].cost == n.plans[k].cost
  {
    var ss, start := PreorderAll(n.plans, depth + 1), SizeAll(n.plans[..k]);
    ChildBlock(n.plans, depth + 1, k);
    assert ss[start..start + Size(n.plans[k])][0] == Preorder(n.plans[k], depth + 1)[0];
    assert Preorder(n, depth)[1 + start] == ss[start];
  }

  // ---- Self costs and self times ----

  /** A node's cost with everything below it. */
  function CostOf(n: Node): real { n.cost }

  /** Its time; a node that was not timed takes none. */
  function TimeOf(n: Node): real { NotNegative(n.time) }

  /** What the children that are no InitPlans take together. */
  function Below(ns: seq<Node>, f: Node -> real): real {
    if ns == [] then 0.0 else (if ns[0].initPlan then 0.0 else f(ns[0])) + Below(ns[1..], f)
  }

  /** What the InitPlans of a tree take, which their parents do not count. */
  function InitSum(n: Node, f: Node -> real): real
    decreases n, 1
  {
    InitSumAll(n.plans, f)
  }

  function InitSumAll(ns: seq<Node>, f: Node -> real): real
    decreases ns, 0
  {
    if ns == [] then 0.0
    else (if ns[0].initPlan then f(ns[0]) else 0.0) + InitSum(ns[0], f) + InitSumAll(ns[1..], f)
  }

  /** By how much children take more than their parents, over the whole tree. */
  function Excess(n: Node, f: Node -> real): real
    decreases n, 1
  {
    NotNegative(Below(n.plans, f) - f(n)) + ExcessAll(n.plans, f)
  }

  function ExcessAll(ns: seq<Node>, f: Node -> real): real
    decreases ns, 0
  {
    if ns == [] then 0.0 else Excess(ns[0], f) + ExcessAll(ns[1..], f)
  }

  /** What the nodes of a tree take without their children. */
  function SelfSum(n: Node, f: Node -> real): real
    decreases n, 1
  {
    NotNegative(f(n) - Below(n.plans, f)) + SelfSumAll(n.plans, f)
  }

  function SelfSumAll(ns: seq<Node>, f: Node -> real): real
    decreases ns, 0
  {
    if ns == [] then 0.0 else SelfSum(ns[0], f) + SelfSumAll(ns[1..], f)
  }

  lemma {:induction false} SelfIdentity(n: Node, f: Node -> real)
    ensures SelfSum(n, f) == f(n) + InitSum(n, f) + Excess(n, f)
    decreases n, 1
  {
    SelfIdentityAll(n.plans, f);
  }

  lemma {:induction false} SelfIdentityAll(ns: seq<Node>, f: Node -> real)
    ensures SelfSumAll(ns, f) == Below(ns, f) + InitSumAll(ns, f) + ExcessAll(ns, f)
    decreases ns, 0
  {
    if ns != [] {
      hide SelfSum, InitSum, Excess;
      SelfIdentity(ns[0], f);
      SelfIdentityAll(ns[1..], f);
    }
  }

  /** Nothing below zero. */
  predicate MeasureValid(n: Node, f: Node -> real)
    decreases n
  {
    f(n) >= 0.0 && forall c :: c in n.plans ==> MeasureValid(c, f)
  }

  /** InitPlans take nothing, and no node's other children together take more than it. */
  predicate Nested(n: Node, f: Node -> real)
    decreases n
  {
    Below(n.plans, f) <= f(n) && forall c :: c in n.plans ==> (c.initPlan ==> f(c) == 0.0) && Nested(c, f)
  }

  lemma {:induction false} Surplus(n: Node, f: Node -> real)
    requires MeasureValid(n, f)
    ensures InitSum(n, f) >= 0.0 && Excess(n, f) >= 0.0
    ensures InitSum(n, f) == 0.0 && Excess(n, f) == 0.0 <==> Nested(n, f)
    decreases n, 1
  {
    SurplusAll(n.plans, f);
  }

  lemma {:induction false} SurplusAll(ns: seq<Node>, f: Node -> real)
    requires forall c :: c in ns ==> MeasureValid(c, f)
    ensures InitSumAll(ns, f) >= 0.0 && ExcessAll(ns, f) >= 0.0
    ensures InitSumAll(ns, f) == 0.0 && ExcessAll(ns, f) == 0.0
      <==> forall c :: c in ns ==> (c.initPlan ==> f(c) == 0.0) && Nested(c, f)
    decreases ns, 0
  {
    if ns != [] {
      assert MeasureValid(ns[0], f) && f(ns[0]) >= 0.0;
      hide InitSum, Excess, Nested, MeasureValid;
      Surplus(ns[0], f);
      SurplusAll(ns[1..], f);
      assert forall c :: c in ns <==> c == ns[0] || c in ns[1..];
    }
  }

  // ---- The steps' own costs and times ----

  function SelfCosts(ss: seq<Step>): real {
    if ss == [] then 0.0 else ss[0].selfCost + SelfCosts(ss[1..])
  }

  function SelfTimes(ss: seq<Step>): real {
    if ss == [] then 0.0 else (if ss[0].selfTime.Some? then ss[0].selfTime.value else 0.0) + SelfTimes(ss[1..])
  }

  lemma {:induction false} SelfConcat(a: seq<Step>, b: seq<Step>)
    ensures SelfCosts(a + b) == SelfCosts(a) + SelfCosts(b) && SelfTimes(a + b) == SelfTimes(a) + SelfTimes(b)
    decreases |a|
  {
    if a == [] {
      assert a + b == b;
    } else {
      assert (a + b)[1..] == a[1..] + b;
      SelfConcat(a[1..], b);
    }
  }

  predicate AllAnalyzed(n: Node)
    decreases n
  {
    n.analyzed && forall c :: c in n.plans ==> AllAnalyzed(c)
  }

  lemma {:induction false} BelowBack(ns: seq<Node>, f: Node -> real)
    requires ns != []
    ensures Below(ns, f) == Below(ns[..|ns| - 1], f) + (if ns[|ns| - 1].initPlan then 0.0 else f(ns[|ns| - 1]))
    decreases |ns|
  {
    var n := |ns| - 1;
    if n > 0 {
      BelowBack(ns[1..], f);
      assert ns[..n][1..] == ns[1..][..n - 1] && ns[1..][n - 1] == ns[n];
    } else {
      assert ns[1..] == [] && ns[..0] == [];
    }
  }

  lemma {:induction false} ChildSums(ns: seq<Node>)
    ensures ChildCost(ns) == Below(ns, CostOf) && ChildTime(ns) == Below(ns, TimeOf) >= 0.0
  {
    if ns != [] {
      ChildSums(ns[..|ns| - 1]);
      BelowBack(ns, CostOf);
      BelowBack(ns, TimeOf);
    }
  }

  /** What one step says: the node's cost and time less those of its children that are no InitPlans, not below
      zero; a node that was not timed takes nothing, and one that was not analyzed has no time. */
  lemma StepMeans(n: Node, depth: nat)
    ensures StepOf(n, depth).selfCost == NotNegative(n.cost - Below(n.plans, CostOf))
    ensures StepOf(n, depth).selfTime.Some? <==> n.analyzed
    ensures n.analyzed ==> StepOf(n, depth).selfTime.value == NotNegative(TimeOf(n) - Below(n.plans, TimeOf))
  {
    ChildSums(n.plans);
  }

  lemma {:induction false} SelfSums(n: Node, depth: nat)
    ensures SelfCosts(Preorder(n, depth)) == SelfSum(n, CostOf)
    ensures AllAnalyzed(n) ==> SelfTimes(Preorder(n, depth)) == SelfSum(n, TimeOf)
    decreases n, 1
  {
    var first, rest := [StepOf(n, depth)], PreorderAll(n.plans, depth + 1);
    assert SelfCosts(first) == first[0].selfCost && (n.analyzed ==> SelfTimes(first) == first[0].selfTime.value) by {
      assert first[1..] == [];
    }
    SelfSumsAll(n.plans, depth + 1);
    StepMeans(n, depth);
    hide StepOf, SelfCosts, SelfTimes;
    SelfConcat(first, rest);
  }

  lemma {:induction false} SelfSumsAll(ns: seq<Node>, depth: nat)
    ensures SelfCosts(PreorderAll(ns, depth)) == SelfSumAll(ns, CostOf)
    ensures (forall c :: c in ns ==> AllAnalyzed(c)) ==> SelfTimes(PreorderAll(ns, depth)) == SelfSumAll(ns, TimeOf)
    decreases ns, 0
  {
    if ns != [] {
      SelfSums(ns[0], depth);
      SelfSumsAll(ns[1..], depth);
      assert ns[0] in ns && forall c :: c in ns[1..] ==> c in ns;
      hide Preorder, SelfSum, AllAnalyzed;
      SelfConcat(Preorder(ns[0], depth), PreorderAll(ns[1..], depth));
    }
  }

  /** The self costs of a tree add up to its cost, plus what its InitPlans cost, plus what children cost
      beyond their parents: exactly. */
  lemma SelfCostIdentity(n: Node, depth: nat)
    ensures SelfCosts(Preorder(n, depth)) == n.cost + InitSum(n, CostOf) + Excess(n, CostOf)
  {
    SelfSums(n, depth);
    SelfIdentity(n, CostOf);
  }

  /** So do the self times of an analyzed tree, nodes that were not timed taking none. */
  lemma SelfTimeIdentity(n: Node, depth: nat)
    requires AllAnalyzed(n)
    ensures SelfTimes(Preorder(n, depth)) == TimeOf(n) + InitSum(n, TimeOf) + Excess(n, TimeOf)
  {
    SelfSums(n, depth);
    SelfIdentity(n, TimeOf);
  }

  /** The self costs sum to at least the root's cost, and to exactly that when and only when the costs are
      nested. */
  lemma SelfCostsExactIff(n: Node, depth: nat)
    requires MeasureValid(n, CostOf)
    ensures SelfCosts(Preorder(n, depth)) >= n.cost
    ensures SelfCosts(Preorder(n, depth)) == n.cost <==> Nested(n, CostOf)
  {
    SelfCostIdentity(n, depth);
    Surplus(n, CostOf);
  }

  lemma {:induction false} TimesValid(n: Node)
    ensures MeasureValid(n, TimeOf)
    decreases n
  {
    forall c | c in n.plans ensures MeasureValid(c, TimeOf) { TimesValid(c); }
  }

  /** The self times of an analyzed tree sum to at least the root's time, and to exactly that when and only when
      the times are nested. */
  lemma SelfTimesExactIff(n: Node, depth: nat)
    requires AllAnalyzed(n)
    ensures SelfTimes(Preorder(n, depth)) >= TimeOf(n)
    ensures SelfTimes(Preorder(n, depth)) == TimeOf(n) <==> Nested(n, TimeOf)
  {
    SelfTimeIdentity(n, depth);
    TimesValid(n);
    Surplus(n, TimeOf);
  }

  // ---- The slowest step ----

  /** What a step is measured by: its time alone when analyzed, else its cost alone. */
  function Weight(s: Step): real {
    if s.selfTime.Some? then s.selfTime.value else s.selfCost
  }

  function Weights(ss: seq<Step>): real {
    if ss == [] then 0.0 else Weights(ss[..|ss| - 1]) + Weight(ss[|ss| - 1])
  }

  predicate WeightsValid(ss: seq<Step>) {
    forall i :: 0 <= i < |ss| ==> Weight(ss[i]) >= 0.0
  }

  lemma {:induction false} PreorderWeights(n: Node, depth: nat)
    ensures WeightsValid(Preorder(n, depth))
    decreases n, 1
  {
    PreorderAllWeights(n.plans, depth + 1);
  }

  lemma {:induction false} PreorderAllWeights(ns: seq<Node>, depth: nat)
    ensures WeightsValid(PreorderAll(ns, depth))
    decreases ns, 0
  {
    if ns != [] {
      PreorderWeights(ns[0], depth);
      PreorderAllWeights(ns[1..], depth);
    }
  }

  lemma {:induction false} WeightsOfTimes(ss: seq<Step>)
    ensures (forall i :: 0 <= i < |ss| ==> ss[i].selfTime.Some?) ==> Weights(ss) == SelfTimes(ss)
    ensures (forall i :: 0 <= i < |ss| ==> ss[i].selfTime.None?) ==> Weights(ss) == SelfCosts(ss)
  {
    if ss != [] {
      var n := |ss| - 1;
      WeightsOfTimes(ss[..n]);
      assert ss == ss[..n] + [ss[n]] && [ss[n]][1..] == [];
      SelfConcat(ss[..n], [ss[n]]);
    }
  }

  predicate NoneAnalyzed(n: Node)
    decreases n
  {
    !n.analyzed && forall c :: c in n.plans ==> NoneAnalyzed(c)
  }

  lemma {:induction false} StepsTimed(n: Node, depth: nat)
    ensures AllAnalyzed(n) ==> forall i :: 0 <= i < |Preorder(n, depth)| ==> Preorder(n, depth)[i].selfTime.Some?
    ensures NoneAnalyzed(n) ==> forall i :: 0 <= i < |Preorder(n, depth)| ==> Preorder(n, depth)[i].selfTime.None?
    decreases n, 1
  {
    StepsTimedAll(n.plans, depth + 1);
  }

  lemma {:induction false} StepsTimedAll(ns: seq<Node>, depth: nat)
    ensures (forall c :: c in ns ==> AllAnalyzed(c)) ==>
              forall i :: 0 <= i < |PreorderAll(ns, depth)| ==> PreorderAll(ns, depth)[i].selfTime.Some?
    ensures (forall c :: c in ns ==> NoneAnalyzed(c)) ==>
              forall i :: 0 <= i < |PreorderAll(ns, depth)| ==> PreorderAll(ns, depth)[i].selfTime.None?
    decreases ns, 0
  {
    if ns != [] {
      StepsTimed(ns[0], depth);
      StepsTimedAll(ns[1..], depth);
      assert ns[0] in ns && forall c :: c in ns[1..] ==> c in ns;
      hide Preorder, AllAnalyzed, NoneAnalyzed;
    }
  }

  /** The whole that shares are taken of: the root's time and what its tree takes beside it, for an analyzed
      plan, else the same of costs. */
  lemma TotalIs(n: Node, depth: nat)
    ensures AllAnalyzed(n) ==> Weights(Preorder(n, depth)) == TimeOf(n) + InitSum(n, TimeOf) + Excess(n, TimeOf)
    ensures NoneAnalyzed(n) ==> Weights(Preorder(n, depth)) == n.cost + InitSum(n, CostOf) + Excess(n, CostOf)
  {
    hide Preorder, Weights, SelfTimes, SelfCosts;
    StepsTimed(n, depth);
    WeightsOfTimes(Preorder(n, depth));
    SelfCostIdentity(n, depth);
    if AllAnalyzed(n) { SelfTimeIdentity(n, depth); }
  }

  /** The first step of the greatest positive weight; the first step of all when none is positive. */
  predicate IsSlowest(ss: seq<Step>, k: nat) {
    if exists i :: 0 <= i < |ss| && Weight(ss[i]) > 0.0 then
      && k < |ss| && Weight(ss[k]) > 0.0
      && (forall i :: 0 <= i < |ss| ==> Weight(ss[i]) <= Weight(ss[k]))
      && (forall i :: 0 <= i < k ==> Weight(ss[i]) < Weight(ss[k]))
    else k == 0
  }

  /** The share of the slowest step in the whole; 0 when nothing takes anything. */
  predicate IsShare(ss: seq<Step>, k: nat, share: real) {
    if Weights(ss) > 0.0 then k < |ss| && 0.0 < share <= 1.0 && share * Weights(ss) == Weight(ss[k]) else share == 0.0
  }

  /** What a node takes without its children. */
  method SelfOf(n: Node) returns (selfTime: Option<real>, selfCost: real)
    ensures selfTime == StepOf(n, 0).selfTime && selfCost == StepOf(n, 0).selfCost
  {
    selfTime := None;
    if n.analyzed {
      var t, i := n.time, 0;
      while i < |n.plans|
        invariant 0 <= i <= |n.plans| && t == n.time - ChildTime(n.plans[..i])
      {
        assert n.plans[..i + 1][..i] == n.plans[..i];
        if n.plans[i].time > 0.0 && !n.plans[i].initPlan {
          t := t - n.plans[i].time;
        }
        i := i + 1;
      }
      assert n.plans[..i] == n.plans;
      selfTime := Some(NotNegative(t));
    }
    selfCost := n.cost;
    var i := 0;
    while i < |n.plans|
      invariant 0 <= i <= |n.plans| && selfCost == n.cost - ChildCost(n.plans[..i])
    {
      assert n.plans[..i + 1][..i] == n.plans[..i];
      if !n.plans[i].initPlan {
        selfCost := selfCost - n.plans[i].cost;
      }
      i := i + 1;
    }
    assert n.plans[..i] == n.plans;
    selfCost := NotNegative(selfCost);
  }

  /** The slowest step and its share of the total. */
  method SlowestOf(steps: seq<Step>) returns (slowest: nat, share: real)
    requires WeightsValid(steps)
    ensures IsSlowest(steps, slowest)
    ensures IsShare(steps, slowest, share)
  {
    hide Weight;
    var total, best, i := 0.0, 0.0, 0;
    slowest, share := 0, 0.0;
    while i < |steps|
      invariant 0 <= i <= |steps| && total == Weights(steps[..i]) && 0.0 <= best <= total
      invariant best == 0.0 ==> slowest == 0 && total == 0.0
      invariant best > 0.0 ==> slowest < i && best == Weight(steps[slowest])
      invariant forall j :: 0 <= j < i ==> Weight(steps[j]) <= best
      invariant forall j :: 0 <= j < slowest ==> Weight(steps[j]) < best
    {
      assert steps[..i + 1][..i] == steps[..i];
      var v := Weight(steps[i]);
      total := total + v;
      if v > best {
        best, slowest := v, i;
      }
      i := i + 1;
    }
    assert steps[..i] == steps;
    if total > 0.0 {
      ShareInRange(best, total);
      share := best / total;
    }
  }

  lemma ConcatAssociates(a: seq<Step>, b: seq<Step>, c: seq<Step>)
    ensures a + (b + c) == a + b + c
  {
  }

  class Explain {
    var steps: seq<Step>
    var slowest: nat
    var share: real

    constructor ()
      ensures steps == [] && slowest == 0 && share == 0.0
    {
      steps, slowest, share := [], 0, 0.0;
    }

    /** Appends a tree's steps; the node's step number is the length before. */
    method Walk(n: Node, depth: nat) returns (step: nat)
      modifies this`steps
      ensures steps == old(steps) + Preorder(n, depth) && step == |old(steps)|
      decreases n
    {
      step := |steps|;
      var selfTime, selfCost := SelfOf(n);
      hide NotNegative, ChildCost, ChildTime;
      steps := steps + [Step(n.name, depth, n.cost, selfCost, selfTime)];
      assert steps == old(steps) + [StepOf(n, depth)];
      hide StepOf;
      ghost var head, tail := steps, PreorderAll(n.plans, depth + 1);
      var i := 0;
      assert n.plans[0..] == n.plans;
      while i < |n.plans|
        invariant 0 <= i <= |n.plans|
        invariant steps + PreorderAll(n.plans[i..], depth + 1) == head + tail
      {
        hide Preorder;
        ghost var rest, was := n.plans[i..], steps;
        assert rest[0] == n.plans[i] && rest[1..] == n.plans[i + 1..];
        var _ := Walk(n.plans[i], depth + 1);
        ConcatAssociates(was, Preorder(n.plans[i], depth + 1), PreorderAll(rest[1..], depth + 1));
        i := i + 1;
      }
      assert n.plans[i..] == [] && steps == head + tail;
      ConcatAssociates(old(steps), [StepOf(n, depth)], tail);
    }

    /** read: the plan in preorder, its slowest step and that step's share of the whole. */
    method Read(plan: Node)
      requires steps == [] && slowest == 0 && share == 0.0
      modifies this
      ensures steps == Preorder(plan, 0)
      ensures IsSlowest(steps, slowest)
      ensures IsShare(steps, slowest, share)
    {
      hide Preorder, Weight, Weights, IsSlowest, IsShare, WeightsValid;
      var _ := Walk(plan, 0);
      assert steps == Preorder(plan, 0);
      PreorderWeights(plan, 0);
      slowest, share := SlowestOf(steps);
    }
  }

  lemma ShareInRange(best: real, total: real)
    requires 0.0 < best <= total
    ensures 0.0 < best / total <= 1.0 && best / total * total == best
  {
  }
}
