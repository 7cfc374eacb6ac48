/** Propagating times through the forest, and what the times say about the netlist (src/clocks/Timings.cpp). */
module TimingPropagation {
  import opened Common
  import opened EdgeSeparation
  import opened TimingTree
  import opened TimingForest

  /** The times of the path are those of the tree that it stands for, and its sub-paths have their own delays. */
  ghost predicate Done(forest: set<TimingPath>, p: TimingPath)
    requires p in forest
    reads forest`maxSetup, forest`minSetup, forest`tree, forest`subPaths, forest`ownSetup
  {
    p.maxSetup == Worst(p.tree, Time) && p.minSetup == Least(p.tree, Time) &&
    forall i :: 0 <= i < |p.subPaths| && p.subPaths[i] in forest ==> OwnDone(p.subPaths[i])
  }

  ghost predicate OwnDone(p: TimingPath)
    reads p`ownSetup
  {
    p.ownSetup == p.arc
  }

  ghost predicate AllDone(forest: set<TimingPath>, log: seq<TimingPath>, n: nat)
    reads forest`maxSetup, forest`minSetup, forest`tree, forest`subPaths, forest`ownSetup
  {
    forall k :: 0 <= k < n && k < |log| && log[k] in forest ==> Done(forest, log[k])
  }

  /** How many outputs are known before the i-th sub-path of an output is built. */
  ghost function KnownBefore(p: TimingPath, i: nat): nat
    requires i <= |p.subPaths|
    reads p`begin, p`subPaths, p.subPaths`end
  {
    if i == 0 then p.begin else p.subPaths[i - 1].end
  }

  lemma SubOfGate(net: Netlist, capture: nat, rank: nat -> nat, forest: set<TimingPath>, log: seq<TimingPath>,
                  p: TimingPath, i: nat)
    requires net.Valid() && capture < |net.periods| && Forest(net, capture, rank, forest, log)
    requires p in forest && p.precalculated == null && i < |p.subPaths|
    ensures p.dataOutput.Some? && p.dataOutput.value.inst < |net.insts| && p.tree.Gate?
    ensures |p.tree.branches| == |p.subPaths|
    ensures var sub := p.subPaths[i];
            sub in forest && p.tree.branches[i] ==
              Branch(sub.dataIn, net.Arc(sub.dataIn, p.dataOutput.value), sub.tree) &&
            sub.tree < p.tree && sub.arc == net.Arc(sub.dataIn, p.dataOutput.value) &&
            sub.begin == KnownBefore(p, i) && sub.begin <= sub.end == KnownBefore(p, i + 1) <= |log|
  {
    assert Shaped(net, capture, rank, forest, log, p);
    var b := p.tree.branches[i];
    assert Shaped(net, capture, rank, forest, log, p.subPaths[i]);
    assert b.tree < b;
  }

  /** A shared output was known, and so done, before the path that refers to it. */
  lemma SharedIsDone(net: Netlist, capture: nat, rank: nat -> nat, forest: set<TimingPath>, log: seq<TimingPath>,
                     p: TimingPath)
    requires net.Valid() && capture < |net.periods| && Forest(net, capture, rank, forest, log)
    requires p in forest && p.precalculated != null && AllDone(forest, log, p.begin)
    ensures p.precalculated in forest && Done(forest, p.precalculated) && p.tree == p.precalculated.tree
    ensures p.begin == p.end
    ensures p != p.precalculated && p.subPaths == []
  {
    assert Shaped(net, capture, rank, forest, log, p);
    var k :| 0 <= k < p.begin && log[..p.begin][k] == p.precalculated;
    assert log[k] in log && Done(forest, log[k]);
  }

  /** The path of a leaf or of a gate in the terms that propagation needs. */
  lemma OwnPath(net: Netlist, capture: nat, rank: nat -> nat, forest: set<TimingPath>, log: seq<TimingPath>,
                p: TimingPath)
    requires net.Valid() && capture < |net.periods| && Forest(net, capture, rank, forest, log)
    requires p in forest && p.precalculated == null
    ensures p.subPaths == [] ==> p.tree == Leaf(p.launchOffset) && p.begin == p.end
    ensures p.subPaths != [] ==>
              p.tree.Gate? && |p.tree.branches| == |p.subPaths| && 0 < p.end <= |log| && log[p.end - 1] == p &&
                                 KnownBefore(p, |p.subPaths|) == p.end - 1
  {
    assert Shaped(net, capture, rank, forest, log, p);
  }

  lemma OneMoreTerm(branches: seq<Branch>, i: nat)
    requires i < |branches|
    ensures WorstOf(branches[..i + 1], Time) ==
              Max(WorstOf(branches[..i], Time), Worst(branches[i].tree, Time) + branches[i].delay)
    ensures LeastOf(branches[..i + 1], Time) ==
              Min(LeastOf(branches[..i], Time), Least(branches[i].tree, Time) + branches[i].delay)
  {
    assert branches[..i + 1][..i] == branches[..i];
  }

  /**
   Computes the times of a path and of everything below it. A shared output is read, not
   computed again; in build order it is always there already.
   */
  method RecurseTimings(net: Netlist, ghost capture: nat, ghost rank: nat -> nat, p: TimingPath,
                        ghost forest: set<TimingPath>, ghost log: seq<TimingPath>)
    requires net.Valid() && capture < |net.periods| && Forest(net, capture, rank, forest, log)
    requires p in forest && AllDone(forest, log, p.begin)
    modifies forest`maxSetup, forest`minSetup, forest`ownSetup
    ensures Done(forest, p) && AllDone(forest, log, p.end)
    ensures forall q :: q in forest && old(Done(forest, q)) ==> Done(forest, q)
    ensures forall q :: q in forest && old(OwnDone(q)) ==> OwnDone(q)
    decreases p.tree, 2
  {
    if p.precalculated != null {
      SharedIsDone(net, capture, rank, forest, log, p);
      p.maxSetup := p.precalculated.maxSetup;
      p.minSetup := p.precalculated.minSetup;
      return;
    }
    OwnPath(net, capture, rank, forest, log, p);
    if p.subPaths == [] {
      p.maxSetup := p.launchOffset;
      p.minSetup := p.launchOffset;
      return;
    }
    var maxSetup, minSetup := RecurseSubPaths(net, capture, rank, p, forest, log);
    p.maxSetup := maxSetup;
    p.minSetup := minSetup;
  }

  method RecurseSubPaths(net: Netlist, ghost capture: nat, ghost rank: nat -> nat, p: TimingPath,
                         ghost forest: set<TimingPath>, ghost log: seq<TimingPath>)
    returns (maxSetup: int, minSetup: int)
    requires net.Valid() && capture < |net.periods| && Forest(net, capture, rank, forest, log)
    requires p in forest && p.precalculated == null && p.subPaths != [] && AllDone(forest, log, p.begin)
    modifies forest`maxSetup, forest`minSetup, forest`ownSetup
    ensures p.tree.Gate? && maxSetup == WorstOf(p.tree.branches, Time) && minSetup == LeastOf(p.tree.branches, Time)
    ensures AllDone(forest, log, KnownBefore(p, |p.subPaths|)) && forall k :: 0 <= k < |p.subPaths| ==>
              OwnDone(p.subPaths[k])
    ensures forall q :: q in forest && old(Done(forest, q)) ==> Done(forest, q)
    ensures forall q :: q in forest && old(OwnDone(q)) ==> OwnDone(q)
    decreases p.tree, 1
  {
    OwnPath(net, capture, rank, forest, log, p);
    ghost var branches := p.tree.branches;
    maxSetup, minSetup := 0, MAX_MIN_TIME;
    for i := 0 to |p.subPaths|
      invariant maxSetup == WorstOf(branches[..i], Time) && minSetup == LeastOf(branches[..i], Time)
      invariant AllDone(forest, log, KnownBefore(p, i))
      invariant forall q :: q in forest && old(Done(forest, q)) ==> Done(forest, q)
      invariant forall q :: q in forest && old(OwnDone(q)) ==> OwnDone(q)
      invariant forall k :: 0 <= k < i ==> OwnDone(p.subPaths[k])
    {
      var sub := p.subPaths[i];
      SubOfGate(net, capture, rank, forest, log, p, i);
      OneMoreTerm(branches, i);
      VisitSubPath(net, capture, rank, p, i, forest, log);
      if sub.maxSetup + sub.ownSetup > maxSetup {
        maxSetup := sub.maxSetup + sub.ownSetup;
      }
      if sub.minSetup + sub.ownSetup < minSetup {
        minSetup := sub.minSetup + sub.ownSetup;
      }
    }
    assert branches[..|branches|] == branches;
  }

  /** One sub-path gets its own delay, and then its times. */
  method VisitSubPath(net: Netlist, ghost capture: nat, ghost rank: nat -> nat, p: TimingPath, i: nat,
                      ghost forest: set<TimingPath>, ghost log: seq<TimingPath>)
    requires net.Valid() && capture < |net.periods| && Forest(net, capture, rank, forest, log)
    requires p in forest && p.precalculated == null && i < |p.subPaths| && AllDone(forest, log, KnownBefore(p, i))
    modifies forest`maxSetup, forest`minSetup, forest`ownSetup
    ensures p.subPaths[i] in forest && Done(forest, p.subPaths[i]) && OwnDone(p.subPaths[i])
    ensures AllDone(forest, log, KnownBefore(p, i + 1))
    ensures forall q :: q in forest && old(Done(forest, q)) ==> Done(forest, q)
    ensures forall q :: q in forest && old(OwnDone(q)) ==> OwnDone(q)
    decreases p.tree, 0
  {
    var sub := p.subPaths[i];
    SubOfGate(net, capture, rank, forest, log, p, i);
    sub.ownSetup := net.Arc(sub.dataIn, p.dataOutput.value);
    RecurseTimings(net, capture, rank, sub, forest, log);
  }

  // ---------------------------------------------------------------------------
  // All endpoints of all clocks.
  // ---------------------------------------------------------------------------

  ghost predicate EndpointsDone(d: CaptureDomain, n: nat)
    reads d.forest`maxSetup, d.forest`minSetup, d.forest`tree, d.forest`subPaths, d.forest`ownSetup
  {
    forall i :: 0 <= i < n && i < |d.paths| && i < |d.constrained| && d.constrained[i] ==>
      d.paths[i] in d.forest && Done(d.forest, d.paths[i])
  }

  method CalculateDomain(net: Netlist, ghost rank: nat -> nat, d: CaptureDomain)
    requires net.Valid() && d.Valid(net, rank)
    modifies d.forest`maxSetup, d.forest`minSetup, d.forest`ownSetup
    ensures EndpointsDone(d, |d.paths|) && AllDone(d.forest, d.log, |d.log|)
  {
    for i := 0 to |d.paths|
      invariant EndpointsDone(d, i) && AllDone(d.forest, d.log, d.marks[i])
    {
      assert IsEndpoint(net, d.capture, rank, d.forest, d.endpoints[i], d.paths[i], d.constrained[i], d.marks[i],
        d.marks[i + 1]);
      if d.constrained[i] {
        RecurseTimings(net, d.capture, rank, d.paths[i], d.forest, d.log);
      }
    }
  }

  ghost function AllPaths(domains: seq<CaptureDomain>): set<TimingPath> {
    set d, p | d in domains && p in d.forest :: p
  }

  /** The clocks are visited in an order that the source leaves open. */
  method CalculateTimings(net: Netlist, ghost rank: nat -> nat, domains: seq<CaptureDomain>)
    requires net.Valid() && Separate(domains) && forall d :: d in domains ==> d.Valid(net, rank)
    modifies AllPaths(domains)`maxSetup, AllPaths(domains)`minSetup, AllPaths(domains)`ownSetup
    ensures forall d :: d in domains ==> EndpointsDone(d, |d.paths|) && AllDone(d.forest, d.log, |d.log|)
  {
    var todo := set d | d in domains;
    while todo != {}
      invariant forall d :: d in todo ==> d in domains
      invariant forall d :: d in domains && d !in todo ==>
                  EndpointsDone(d, |d.paths|) && AllDone(d.forest, d.log, |d.log|)
    {
      var d :| d in todo;
      forall other | other in domains && other != d
        ensures other.forest !! d.forest
      {
        var a, b :| 0 <= a < |domains| && 0 <= b < |domains| && domains[a] == other && domains[b] == d;
      }
      CalculateDomain(net, rank, d);
      todo := todo - {d};
    }
  }

  /**
   Every output that was ever shared is held, through sub-paths, by the path under whose construction it
   became known.
   */
  ghost predicate HeldAt(forest: set<TimingPath>, p: TimingPath, route: seq<nat>, q: TimingPath)
    requires p in forest
    reads forest`subPaths
    decreases |route|
  {
    if route == [] then p == q
    else
      route[0] < |p.subPaths| && p.subPaths[route[0]] in forest &&
      HeldAt(forest, p.subPaths[route[0]], route[1..], q)
  }

  lemma {:induction false} LogIsHeld(net: Netlist, capture: nat, rank: nat -> nat, forest: set<TimingPath>,
                                     log: seq<TimingPath>, p: TimingPath, k: nat)
    returns (route: seq<nat>)
    requires net.Valid() && capture < |net.periods| && Forest(net, capture, rank, forest, log)
    requires p in forest && p.begin <= k < p.end <= |log|
    ensures HeldAt(forest, p, route, log[k])
    decreases p.tree
  {
    assert Shaped(net, capture, rank, forest, log, p);
    if k == p.end - 1 {
      route := [];
    } else {
      OwnPath(net, capture, rank, forest, log, p);
      var i := SubHolding(net, capture, rank, forest, log, p, k, |p.subPaths|);
      SubOfGate(net, capture, rank, forest, log, p, i);
      var rest := LogIsHeld(net, capture, rank, forest, log, p.subPaths[i], k);
      route := [i] + rest;
      assert route[1..] == rest;
    }
  }

  lemma {:induction false} SubHolding(net: Netlist, capture: nat, rank: nat -> nat, forest: set<TimingPath>,
                                      log: seq<TimingPath>, p: TimingPath, k: nat, n: nat)
    returns (i: nat)
    requires net.Valid() && capture < |net.periods| && Forest(net, capture, rank, forest, log)
    requires p in forest && p.precalculated == null && n <= |p.subPaths| && p.begin <= k < KnownBefore(p, n)
    ensures i < n && KnownBefore(p, i) <= k < KnownBefore(p, i + 1)
  {
    if n > 0 {
      if KnownBefore(p, n - 1) <= k {
        i := n - 1;
      } else {
        i := SubHolding(net, capture, rank, forest, log, p, k, n - 1);
      }
    }
  }

  // ---------------------------------------------------------------------------
  // What the computed values say about the netlist.
  // ---------------------------------------------------------------------------

  /**
   On a netlist without combinational cycles, an endpoint is constrained exactly when some
   accepted chain ends in it; its times and lengths are then those of its extreme chains,
   although cones are shared and failed branches dropped.
   */
  lemma EndpointIsExact(net: Netlist, rank: nat -> nat, d: CaptureDomain, i: nat)
    requires net.Valid() && net.NonNegative() && net.RanksGates(rank) && d.Valid(net, rank)
    requires i < |d.paths| && EndpointsDone(d, |d.paths|)
    ensures d.constrained[i] <==> exists chain :: ChainFrom(net, d.capture, d.endpoints[i], chain)
    ensures d.constrained[i] ==> IsWorst(net, d.capture, d.endpoints[i], Time, d.paths[i].maxSetup)
    ensures d.constrained[i] ==> IsCappedLeast(net, d.capture, d.endpoints[i], Time, d.paths[i].minSetup)
    ensures d.constrained[i] ==> IsCappedLeast(net, d.capture, d.endpoints[i], Length, d.paths[i].minLength)
    ensures d.constrained[i] ==> IsLongest(net, d.capture, d.endpoints[i], d.paths[i].maxLength)
    ensures d.constrained[i] ==>
              (IsShortest(net, d.capture, d.endpoints[i], d.paths[i].minLength) <==>
                WithinCap(net, d.capture, d.endpoints[i], Length))
    ensures d.constrained[i] && |net.insts| <= MAX_MIN_LENGTH + 1 ==>
              IsShortest(net, d.capture, d.endpoints[i], d.paths[i].minLength)
  {
    assert IsEndpoint(net, d.capture, rank, d.forest, d.endpoints[i], d.paths[i], d.constrained[i], d.marks[i],
      d.marks[i + 1]);
    TreeMeasuresChains(net, rank, d.capture, d.endpoints[i], Time);
    TreeMeasuresChains(net, rank, d.capture, d.endpoints[i], Length);
    if d.constrained[i] {
      assert Shaped(net, d.capture, rank, d.forest, d.log, d.paths[i]);
      LengthsCountGates(net, d.capture, d.endpoints[i], d.paths[i].maxLength);
      LengthsCountGates(net, d.capture, d.endpoints[i], d.paths[i].minLength);
      if |net.insts| <= MAX_MIN_LENGTH + 1 {
        LengthsWithinCap(net, rank, d.capture, d.endpoints[i]);
      }
    }
  }

  /** On any netlist, cyclic or not, the time of a constrained endpoint is that of one of its chains. */
  lemma EndpointIsRealised(net: Netlist, rank: nat -> nat, d: CaptureDomain, i: nat) returns (chain: seq<InputPin>)
    requires net.Valid() && net.NonNegative() && d.Valid(net, rank)
    requires i < |d.paths| && EndpointsDone(d, |d.paths|) && i < |d.constrained| && d.constrained[i]
    ensures ChainFrom(net, d.capture, d.endpoints[i], chain)
    ensures Cost(net, d.capture, chain, Time) == d.paths[i].maxSetup
  {
    assert IsEndpoint(net, d.capture, rank, d.forest, d.endpoints[i], d.paths[i], d.constrained[i], d.marks[i],
      d.marks[i + 1]);
    assert Shaped(net, d.capture, rank, d.forest, d.log, d.paths[i]);
    chain := WorstChain(net, d.capture, d.endpoints[i], d.paths[i].tree, Time);
  }

  // ---------------------------------------------------------------------------
  // Slack: the distance between edges minus the delay between them.
  // ---------------------------------------------------------------------------

  ghost function ChainDelay(net: Netlist, capture: nat, chain: seq<InputPin>): int
    requires net.Valid() && capture < |net.periods| && IsChain(net, capture, chain)
  {
    if |chain| == 1 then 0
    else ChainDelay(net, capture, chain[1..]) + net.Arc(chain[1], net.DriverOf(chain[0]).value)
  }

  ghost function LaunchInst(net: Netlist, capture: nat, chain: seq<InputPin>): nat
    requires net.Valid() && capture < |net.periods| && IsChain(net, capture, chain)
  {
    if |chain| == 1 then net.DriverOf(chain[0]).value.inst else LaunchInst(net, capture, chain[1..])
  }

  lemma {:induction false} CostSplits(net: Netlist, capture: nat, chain: seq<InputPin>)
    requires net.Valid() && capture < |net.periods| && IsChain(net, capture, chain)
    ensures LaunchInst(net, capture, chain) < |net.insts|
    ensures net.LaunchOf(LaunchInst(net, capture, chain), capture).Some?
    ensures Cost(net, capture, chain, Time) ==
              net.LaunchOf(LaunchInst(net, capture, chain), capture).value + ChainDelay(net, capture, chain)
  {
    if |chain| > 1 {
      CostSplits(net, capture, chain[1..]);
    }
  }

  /**
   A slack of a chain. From a register it is the distance from any of its launch edges to any
   later capture edge, minus the delay; from a buffer, one capture period minus the delay.
   */
  ghost predicate IsSlack(net: Netlist, capture: nat, chain: seq<InputPin>, slack: int)
    requires net.Valid() && capture < |net.periods| && IsChain(net, capture, chain)
  {
    var i := LaunchInst(net, capture, chain);
    i < |net.insts| &&
    if net.insts[i].clocked then
      exists clock: nat, n: nat, m: nat ::
        EdgesLeave(net, i, clock, capture, n, m, slack, ChainDelay(net, capture, chain))
    else slack == net.periods[capture] - ChainDelay(net, capture, chain)
  }

  /** The n-th edge of the register's clock is before the m-th capture edge, by the delay and this slack. */
  ghost predicate EdgesLeave(net: Netlist, i: nat, clock: nat, capture: nat, n: nat, m: nat, slack: int, delay: int)
    requires net.Valid() && i < |net.insts| && capture < |net.periods|
  {
    net.IsLaunchClock(i, clock) && clock < |net.periods| &&
    0 < Distance(net.periods[clock], net.periods[capture], n, m) == slack + delay
  }

  lemma SlackOfChain(net: Netlist, capture: nat, chain: seq<InputPin>)
    requires net.Valid() && capture < |net.periods| && IsChain(net, capture, chain)
    ensures forall slack :: IsSlack(net, capture, chain, slack) ==>
              net.periods[capture] - Cost(net, capture, chain, Time) <= slack
    ensures IsSlack(net, capture, chain, net.periods[capture] - Cost(net, capture, chain, Time))
  {
    CostSplits(net, capture, chain);
    var i := LaunchInst(net, capture, chain);
    if net.insts[i].clocked {
      var period := net.periods[capture];
      var offset := net.LaunchOf(i, capture).value;
      var clock: nat :| net.IsLaunchClock(i, clock) && offset == period - Gcd(net.periods[clock], period);
      assert Some(clock) in net.insts[i].clockPins;
      forall slack | IsSlack(net, capture, chain, slack)
        ensures period - Cost(net, capture, chain, Time) <= slack
      {
        var other: nat, n: nat, m: nat :| EdgesLeave(net, i, other, capture, n, m, slack,
          ChainDelay(net, capture, chain));
        SeparationIsLeast(net.periods[other], period, n, m);
      }
      var n, m := SeparationIsReached(net.periods[clock], period);
      SeparationWithinPeriod(net.periods[clock], period);
      assert EdgesLeave(net, i, clock, capture, n, m, period - Cost(net, capture, chain, Time),
        ChainDelay(net, capture, chain));
    }
  }

  /** One capture period minus the propagated time is the least slack over all chains and all pairs of edges. */
  lemma WorstSlack(net: Netlist, capture: nat, pin: InputPin, maxSetup: int)
    requires net.Valid() && capture < |net.periods| && IsWorst(net, capture, pin, Time, maxSetup)
    ensures forall chain, slack :: ChainFrom(net, capture, pin, chain) && IsSlack(net, capture, chain, slack) ==>
              net.periods[capture] - maxSetup <= slack
    ensures exists chain :: ChainFrom(net, capture, pin, chain) &&
              IsSlack(net, capture, chain, net.periods[capture] - maxSetup)
  {
    forall chain, slack | ChainFrom(net, capture, pin, chain) && IsSlack(net, capture, chain, slack)
      ensures net.periods[capture] - maxSetup <= slack
    {
      SlackOfChain(net, capture, chain);
    }
    var chain :| ChainFrom(net, capture, pin, chain) && Cost(net, capture, chain, Time) == maxSetup;
    SlackOfChain(net, capture, chain);
  }
}
