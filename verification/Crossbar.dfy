/** The derived indexes of a crossbar type and the lookups that read them (src/fpga/Crossbar.cpp). */
module Crossbar {
  import opened AngleOrder
  import opened JumpBuckets
  import opened SourceOrder
  import opened Common
  import opened RouteGraph

  datatype Role = LocalRole | JointRole | JumpRole | SrcRole | DstRole

  datatype RoleKey = RoleKey(role: Role, node: nat)

  /** A way from a destination node to a local: directly, through `joint`, or through `joint2` and then `joint`. */
  datatype TerminalEntry = TerminalEntry(dst: nat, joint: int, joint2: int)

  ghost predicate IsEntry(g: Graph, local: nat, e: TerminalEntry) {
    -1 <= e.joint && -1 <= e.joint2 && (e.joint == -1 ==> e.joint2 == -1) &&
    g.Route(Dst(e.dst), Via(e.joint2, e.joint), Local(local))
  }

  /** Each legal entry once. */
  ghost predicate IsEntryList(g: Graph, local: nat, entries: seq<TerminalEntry>) {
    NoDup(entries) && forall e :: e in entries <==> IsEntry(g, local, e)
  }

  function Listed(lists: map<RoleKey, seq<nat>>, key: RoleKey): seq<nat> {
    if key in lists then lists[key] else []
  }

  predicate Lists(lists: map<RoleKey, seq<nat>>, key: RoleKey, src: nat) {
    src in Listed(lists, key)
  }

  function RoleNumber(role: Role): nat {
    match role
    case LocalRole => 0
    case JointRole => 1
    case JumpRole => 2
    case SrcRole => 3
    case DstRole => 4
  }

  /** Direction, role and node packed into one number: three bits of role above twelve bits of node. */
  function NodeKey(direction: int, role: Role, value: nat): int {
    direction * 32768 + RoleNumber(role) * 4096 + value
  }

  lemma NodeKeyInjective(d: int, role: Role, v: nat, d': int, role': Role, v': nat)
    requires v < 4096 && v' < 4096 && NodeKey(d, role, v) == NodeKey(d', role', v')
    ensures d == d' && role == role' && v == v'
  {
    var low, low' := RoleNumber(role) * 4096 + v, RoleNumber(role') * 4096 + v';
    assert low < 32768 && low' < 32768;
    assert (d - d') * 32768 == low' - low;
  }

  // ---------------------------------------------------------------------------
  // Table updates. The masks are walked in ascending order.
  // ---------------------------------------------------------------------------

  method Mark(t: Table, keys: set<nat>, bit: nat, bound: nat) returns (marked: Table)
    requires forall k :: k in keys ==> k < bound
    ensures forall k: nat, b: nat :: Has(marked, k, b) <==> Has(t, k, b) || (k in keys && b == bit)
  {
    marked := t;
    for key := 0 to bound
      invariant forall k: nat, b: nat :: Has(marked, k, b) <==> Has(t, k, b) || (k in keys && k < key && b == bit)
    {
      if key in keys {
        marked := WithBit(marked, key, bit);
      }
    }
  }

  method Spread(t: Table, row: nat, bits: set<nat>, bound: nat) returns (spread: Table)
    requires forall b :: b in bits ==> b < bound
    ensures forall k: nat, b: nat :: Has(spread, k, b) <==> Has(t, k, b) || (k == row && b in bits)
  {
    spread := t;
    for bit := 0 to bound
      invariant forall k: nat, b: nat :: Has(spread, k, b) <==> Has(t, k, b) || (k == row && b in bits && b < bit)
    {
      if bit in bits {
        spread := WithBit(spread, row, bit);
      }
    }
  }

  method Append(list: seq<nat>, srcs: set<nat>, bound: nat) returns (longer: seq<nat>)
    requires NoDup(list) && forall s :: s in srcs ==> s < bound
    ensures NoDup(longer) && forall s: nat :: s in longer <==> s in list || s in srcs
  {
    longer := list;
    for src := 0 to bound
      invariant NoDup(longer) && forall s: nat :: s in longer <==> s in list || (s in srcs && s < src)
    {
      if src in srcs {
        if src !in longer {
          longer := longer + [src];
        }
      }
    }
  }

  method FirstCommonJoint(left: set<nat>, right: set<nat>, bound: nat) returns (joint: int)
    ensures -1 <= joint < bound
    ensures joint >= 0 ==> joint in left && joint in right
    ensures forall j: nat :: j < bound && j in left && j in right ==> 0 <= joint <= j
  {
    for j := 0 to bound
      invariant forall k: nat :: k < j ==> k !in left || k !in right
    {
      if j in left && j in right {
        return j;
      }
    }
    return -1;
  }

  class CBType {
    const bound: nat                              // CB_MAX_NODES
    var graph: Graph
    var jointReachableSrcs: Table
    var srcReachableJoints: Table
    var localReachableJoints: Table
    var dstsReachingSrc: Table
    var dstsReachingLocal: Table
    var validDstNodes: set<nat>
    var outgoingSrcs: map<RoleKey, seq<nat>>
    var terminalEntriesByLocal: map<nat, seq<TerminalEntry>>
    var srcPriorityDeltas: map<nat, seq<Bucket>>
    var prioritySrcsByDelta: Table
    var orderedSrcsByTarget: map<nat, seq<nat>>
    var orderedNodeSrcsByTarget: map<int, seq<nat>>
    var derivedMasksValid: bool

    ghost predicate JointIndexes()
      reads this`graph, this`jointReachableSrcs, this`srcReachableJoints, this`localReachableJoints
    {
      (forall j: nat, s: nat :: Has(jointReachableSrcs, j, s) <==> graph.Edge(Joint(j), Src(s))) &&
      (forall j: nat, s: nat :: Has(srcReachableJoints, s, j) <==> graph.Edge(Joint(j), Src(s))) &&
      (forall j: nat, l: nat :: Has(localReachableJoints, l, j) <==> graph.Edge(Joint(j), Local(l)))
    }

    ghost predicate DstIndexes()
      reads this`graph, this`dstsReachingSrc, this`dstsReachingLocal, this`validDstNodes
    {
      (forall d: nat, s: nat :: Has(dstsReachingSrc, s, d) <==> graph.Reachable(Dst(d), Src(s))) &&
      (forall d: nat, l: nat :: Has(dstsReachingLocal, l, d) <==> graph.Reachable(Dst(d), Local(l))) &&
      (forall d: nat :: d in validDstNodes <==>
        Get(graph.dstSrc, d) != {} || Get(graph.dstLocal, d) != {} || Get(graph.dstJoint, d) != {})
    }

    ghost predicate OutgoingLists()
      reads this`graph, this`outgoingSrcs
    {
      (forall key :: NoDup(Listed(outgoingSrcs, key))) &&
      (forall l: nat, s: nat :: Lists(outgoingSrcs, RoleKey(LocalRole, l), s) <==> graph.Reachable(Local(l), Src(s))) &&
      (forall d: nat, s: nat :: Lists(outgoingSrcs, RoleKey(DstRole, d), s) <==> graph.Reachable(Dst(d), Src(s))) &&
      (forall j: nat, s: nat :: Lists(outgoingSrcs, RoleKey(JointRole, j), s) <==> ListedForJoint(graph, j, s)) &&
      (forall n: nat :: Listed(outgoingSrcs, RoleKey(JumpRole, n)) == [] &&
        Listed(outgoingSrcs, RoleKey(SrcRole, n)) == [])
    }

    /** A source that lands somewhere or that some node leads to. */
    ghost predicate IsValidSrc(s: nat)
      reads this`graph, this`outgoingSrcs
    {
      graph.LandingsOf(s) != [] || exists key :: Lists(outgoingSrcs, key, s)
    }

    ghost predicate IsValidSet(valid: set<nat>)
      reads this`graph, this`outgoingSrcs
    {
      forall s: nat :: s in valid <==> IsValidSrc(s)
    }

    /** All valid sources in the order around a direction. */
    ghost predicate IsTargetList(t: Bucket, list: seq<nat>)
      reads this`graph, this`outgoingSrcs
    {
      exists valid :: IsValidSet(valid) && IsDirectionOrder(graph, t, valid, list)
    }

    /** The sources that one node leads to in that order. */
    ghost predicate IsNodeList(t: Bucket, role: Role, value: nat, list: seq<nat>)
      reads this`graph, this`outgoingSrcs
    {
      IsDirectionOrder(graph, t, (set s | s in Listed(outgoingSrcs, RoleKey(role, value))), list)
    }

    ghost predicate Priorities()
      reads this`graph, this`srcPriorityDeltas, this`prioritySrcsByDelta
    {
      IsPriorityTable(graph, prioritySrcsByDelta) && ArePriorityDeltas(graph, srcPriorityDeltas)
    }

    ghost predicate TargetCache()
      reads this`graph, this`outgoingSrcs, this`orderedSrcsByTarget
    {
      forall t :: IsDirection(t) && DirectionIndex(t) in orderedSrcsByTarget ==>
        IsTargetList(t, orderedSrcsByTarget[DirectionIndex(t)])
    }

    ghost predicate NodeCache()
      reads this`graph, this`outgoingSrcs, this`orderedNodeSrcsByTarget
    {
      forall t, role, value: nat ::
        IsDirection(t) && value < bound && NodeKey(DirectionIndex(t), role, value) in orderedNodeSrcsByTarget ==>
        IsNodeList(t, role, value, orderedNodeSrcsByTarget[NodeKey(DirectionIndex(t), role, value)])
    }

    ghost predicate CachesNoDup()
      reads this`orderedSrcsByTarget
    {
      forall key :: key in orderedSrcsByTarget ==> NoDup(orderedSrcsByTarget[key])
    }

    ghost predicate EntryCache()
      reads this`graph, this`terminalEntriesByLocal
    {
      forall l :: l in terminalEntriesByLocal ==> IsEntryList(graph, l, terminalEntriesByLocal[l])
    }

    /**
     The indexes, when they are marked valid, agree with the routes of the graph, and all that is
     cached is right. While they are stale nothing is known of the caches but that they repeat no source.
     */
    ghost predicate Valid()
      reads this
    {
      graph.Valid(bound) && bound <= 4096 && CachesNoDup() &&
      (derivedMasksValid ==> JointIndexes() && DstIndexes() && OutgoingLists()) &&
      (derivedMasksValid ==> Priorities() && TargetCache() && NodeCache() && EntryCache())
    }

    constructor (bound: nat, graph: Graph)
      requires graph.Valid(bound) && bound <= 4096
      ensures Valid() && !derivedMasksValid && this.bound == bound && this.graph == graph
      ensures orderedSrcsByTarget == map[] && orderedNodeSrcsByTarget == map[] && terminalEntriesByLocal == map[]
      ensures outgoingSrcs == map[]
    {
      this.bound, this.graph := bound, graph;
      jointReachableSrcs, srcReachableJoints, localReachableJoints := map[], map[], map[];
      dstsReachingSrc, dstsReachingLocal, validDstNodes := map[], map[], {};
      outgoingSrcs, terminalEntriesByLocal := map[], map[];
      srcPriorityDeltas, prioritySrcsByDelta := map[], map[];
      orderedSrcsByTarget, orderedNodeSrcsByTarget := map[], map[];
      derivedMasksValid := false;
    }

    /** An edit of the connections makes the derived masks stale; it does not touch what is cached. */
    method Edit(g: Graph)
      requires Valid() && g.Valid(bound)
      modifies this`graph, this`derivedMasksValid
      ensures Valid() && graph == g && !derivedMasksValid
    {
      graph, derivedMasksValid := g, false;
    }

    method RebuildJointIndexes()
      requires graph.Valid(bound)
      modifies this`jointReachableSrcs, this`srcReachableJoints, this`localReachableJoints
      ensures JointIndexes()
    {
      jointReachableSrcs, srcReachableJoints, localReachableJoints := map[], map[], map[];
      for joint := 0 to bound
        invariant forall j: nat, s: nat :: Has(jointReachableSrcs, j, s) <==> j < joint && Has(graph.jointSrc, j, s)
        invariant forall j: nat, s: nat :: Has(srcReachableJoints, s, j) <==> j < joint && Has(graph.jointSrc, j, s)
        invariant forall j: nat, l: nat :: Has(localReachableJoints, l, j) <==> j < joint && Has(graph.jointLocal, j, l)
      {
        jointReachableSrcs := Spread(jointReachableSrcs, joint, Get(graph.jointSrc, joint), bound);
        srcReachableJoints := Mark(srcReachableJoints, Get(graph.jointSrc, joint), joint, bound);
        localReachableJoints := Mark(localReachableJoints, Get(graph.jointLocal, joint), joint, bound);
      }
      for src := 0 to bound
        invariant forall j: nat, l: nat :: Has(localReachableJoints, l, j) <==> Has(graph.jointLocal, j, l)
        invariant forall j: nat, s: nat :: Has(jointReachableSrcs, j, s) <==>
                    Has(graph.jointSrc, j, s) || (s < src && Has(graph.srcJoint, s, j))
        invariant forall j: nat, s: nat :: Has(srcReachableJoints, s, j) <==>
                    Has(graph.jointSrc, j, s) || (s < src && Has(graph.srcJoint, s, j))
      {
        jointReachableSrcs := Mark(jointReachableSrcs, Get(graph.srcJoint, src), src, bound);
        srcReachableJoints := Spread(srcReachableJoints, src, Get(graph.srcJoint, src), bound);
      }
    }
  
    /** One destination through one joint and the joints behind it. */
    method AddDstThroughJoint(dst: nat, joint: nat)
      requires graph.Valid(bound) && JointIndexes() && joint < bound
      modifies this`dstsReachingSrc, this`dstsReachingLocal
      ensures forall d: nat, s: nat :: Has(dstsReachingSrc, s, d) <==>
                Has(old(dstsReachingSrc), s, d) || (d == dst && FromJoint(graph, joint, Src(s)))
      ensures forall d: nat, l: nat :: Has(dstsReachingLocal, l, d) <==>
                Has(old(dstsReachingLocal), l, d) || (d == dst && FromJoint(graph, joint, Local(l)))
    {
      MarkJoint(dst, joint);
      for next := 0 to bound
        invariant forall d: nat, s: nat :: Has(dstsReachingSrc, s, d) <==>
                    Has(old(dstsReachingSrc), s, d) || (d == dst && FromJointBefore(graph, joint, Src(s), next))
        invariant forall d: nat, l: nat :: Has(dstsReachingLocal, l, d) <==>
                    Has(old(dstsReachingLocal), l, d) || (d == dst && FromJointBefore(graph, joint, Local(l), next))
      {
        if Has(graph.jointJoint, joint, next) {
          MarkJoint(dst, next);
        }
        FromJointStep(graph, joint, next);
      }
      AllJointsBefore(graph, bound, joint);
    }

    /** What a joint is connected to is reached by the destination. */
    method MarkJoint(dst: nat, joint: nat)
      requires graph.Valid(bound) && JointIndexes() && joint < bound
      modifies this`dstsReachingSrc, this`dstsReachingLocal
      ensures forall d: nat, s: nat :: Has(dstsReachingSrc, s, d) <==>
                Has(old(dstsReachingSrc), s, d) || (d == dst && graph.Edge(Joint(joint), Src(s)))
      ensures forall d: nat, l: nat :: Has(dstsReachingLocal, l, d) <==>
                Has(old(dstsReachingLocal), l, d) || (d == dst && graph.Edge(Joint(joint), Local(l)))
    {
      dstsReachingSrc := Mark(dstsReachingSrc, JointSrcs(joint), dst, bound);
      dstsReachingLocal := Mark(dstsReachingLocal, Get(graph.jointLocal, joint), dst, bound);
    }

    /** The sources of a joint, read from the index. */
    function JointSrcs(joint: nat): (srcs: set<nat>)
      requires graph.Valid(bound) && JointIndexes()
      reads this
      ensures forall s: nat :: s in srcs <==> graph.Edge(Joint(joint), Src(s))
      ensures forall s: nat :: s in srcs ==> s < bound
    {
      Get(jointReachableSrcs, joint)
    }

    method AddDst(dst: nat)
      requires graph.Valid(bound) && JointIndexes() && dst < bound
      modifies this`dstsReachingSrc, this`dstsReachingLocal
      ensures forall d: nat, s: nat :: Has(dstsReachingSrc, s, d) <==>
                Has(old(dstsReachingSrc), s, d) || (d == dst && graph.Reachable(Dst(dst), Src(s)))
      ensures forall d: nat, l: nat :: Has(dstsReachingLocal, l, d) <==>
                Has(old(dstsReachingLocal), l, d) || (d == dst && graph.Reachable(Dst(dst), Local(l)))
    {
      dstsReachingSrc := Mark(dstsReachingSrc, Get(graph.dstSrc, dst), dst, bound);
      dstsReachingLocal := Mark(dstsReachingLocal, Get(graph.dstLocal, dst), dst, bound);
      for joint := 0 to bound
        invariant JointIndexes()
        invariant forall d: nat, s: nat :: Has(dstsReachingSrc, s, d) <==>
                    Has(old(dstsReachingSrc), s, d) || (d == dst && ReachedBefore(graph, Dst(dst), Src(s), joint))
        invariant forall d: nat, l: nat :: Has(dstsReachingLocal, l, d) <==>
                    Has(old(dstsReachingLocal), l, d) || (d == dst && ReachedBefore(graph, Dst(dst), Local(l), joint))
      {
        AddDstIfLinked(dst, joint);
        ReachedStep(graph, Dst(dst), joint);
      }
      AllReachedBefore(graph, bound, Dst(dst));
    }

    method AddDstIfLinked(dst: nat, joint: nat)
      requires graph.Valid(bound) && JointIndexes() && joint < bound
      modifies this`dstsReachingSrc, this`dstsReachingLocal
      ensures JointIndexes()
      ensures forall d: nat, s: nat :: Has(dstsReachingSrc, s, d) <==>
                Has(old(dstsReachingSrc), s, d) ||
                  (d == dst && graph.Edge(Dst(dst), Joint(joint)) && FromJoint(graph, joint, Src(s)))
      ensures forall d: nat, l: nat :: Has(dstsReachingLocal, l, d) <==>
                Has(old(dstsReachingLocal), l, d) ||
                  (d == dst && graph.Edge(Dst(dst), Joint(joint)) && FromJoint(graph, joint, Local(l)))
    {
      if Has(graph.dstJoint, dst, joint) {
        AddDstThroughJoint(dst, joint);
      }
    }

    method RebuildDstIndexes()
      requires graph.Valid(bound) && JointIndexes()
      modifies this`dstsReachingSrc, this`dstsReachingLocal, this`validDstNodes
      ensures JointIndexes() && DstIndexes()
    {
      dstsReachingSrc, dstsReachingLocal, validDstNodes := map[], map[], {};
      for dst := 0 to bound
        invariant JointIndexes()
        invariant forall d: nat, s: nat :: Has(dstsReachingSrc, s, d) <==> d < dst && graph.Reachable(Dst(d), Src(s))
        invariant forall d: nat, l: nat :: Has(dstsReachingLocal, l, d) <==>
                    d < dst && graph.Reachable(Dst(d), Local(l))
        invariant forall d: nat :: d in validDstNodes <==>
                    d < dst && (Get(graph.dstSrc, d) != {} || Get(graph.dstLocal, d) != {} ||
                      Get(graph.dstJoint, d) != {})
      {
        if Get(graph.dstSrc, dst) != {} || Get(graph.dstLocal, dst) != {} || Get(graph.dstJoint, dst) != {} {
          validDstNodes := validDstNodes + {dst};
        }
        AddDst(dst);
      }
      forall d: nat, to: Node | graph.Reachable(Dst(d), to)
        ensures d < bound
      {
        ReachableWithin(graph, bound, Dst(d), to);
      }
    }

    /** Append the sources reached from a joint and from the joints behind it. */
    method AppendJointSrcs(list: seq<nat>, joint: nat) returns (longer: seq<nat>)
      requires graph.Valid(bound) && JointIndexes() && NoDup(list)
      ensures NoDup(longer) && forall s: nat :: s in longer <==> s in list || FromJoint(graph, joint, Src(s))
    {
      longer := Append(list, JointSrcs(joint), bound);
      for next := 0 to bound
        invariant NoDup(longer)
        invariant forall s: nat :: s in longer <==> s in list || FromJointBefore(graph, joint, Src(s), next)
      {
        if Has(graph.jointJoint, joint, next) {
          longer := Append(longer, JointSrcs(next), bound);
        }
        FromJointStep(graph, joint, next);
      }
      AllJointsBefore(graph, bound, joint);
    }

    /** The sources of one node: its own first, then those of its joints. */
    method OutgoingOf(from: Node, direct: set<nat>, joints: set<nat>) returns (list: seq<nat>)
      requires graph.Valid(bound) && JointIndexes()
      requires forall s: nat :: s in direct ==> s < bound
      requires forall j: nat :: j in joints <==> graph.Edge(from, Joint(j))
      ensures NoDup(list) && forall s: nat :: s in list <==> s in direct || ThroughJoints(graph, from, Src(s))
    {
      list := Append([], direct, bound);
      for joint := 0 to bound
        invariant NoDup(list)
        invariant forall s: nat :: s in list <==> s in direct || ThroughJointsBefore(graph, from, Src(s), joint)
      {
        if joint in joints {
          list := AppendJointSrcs(list, joint);
        }
        forall to: Node
          ensures ThroughJointsBefore(graph, from, to, joint + 1) <==>
                  ThroughJointsBefore(graph, from, to, joint) ||
                    (graph.Edge(from, Joint(joint)) && FromJoint(graph, joint, to))
        {
        }
      }
      forall s: nat
        ensures ThroughJointsBefore(graph, from, Src(s), bound) <==> ThroughJoints(graph, from, Src(s))
      {
        AllThroughBefore(graph, bound, from, Src(s));
      }
    }

    ghost predicate ListsBefore(locals: nat, dsts: nat, joints: nat)
      reads this
    {
      (forall key :: NoDup(Listed(outgoingSrcs, key))) &&
      (forall l: nat, s: nat :: Lists(outgoingSrcs, RoleKey(LocalRole, l), s) <==>
        l < locals && graph.Reachable(Local(l), Src(s))) &&
      (forall d: nat, s: nat :: Lists(outgoingSrcs, RoleKey(DstRole, d), s) <==>
        d < dsts && graph.Reachable(Dst(d), Src(s))) &&
      (forall j: nat, s: nat :: Lists(outgoingSrcs, RoleKey(JointRole, j), s) <==>
        j < joints && ListedForJoint(graph, j, s)) &&
      (forall n: nat :: Listed(outgoingSrcs, RoleKey(JumpRole, n)) == [] &&
        Listed(outgoingSrcs, RoleKey(SrcRole, n)) == []) &&
      (forall n: nat :: locals <= n ==> Listed(outgoingSrcs, RoleKey(LocalRole, n)) == []) &&
      (forall n: nat :: dsts <= n ==> Listed(outgoingSrcs, RoleKey(DstRole, n)) == []) &&
      (forall n: nat :: joints <= n ==> Listed(outgoingSrcs, RoleKey(JointRole, n)) == [])
    }

    method SetList(key: RoleKey, list: seq<nat>)
      requires Listed(outgoingSrcs, key) == []
      modifies this`outgoingSrcs
      ensures Listed(outgoingSrcs, key) == list
      ensures forall k :: k != key ==> Listed(outgoingSrcs, k) == Listed(old(outgoingSrcs), k)
      ensures forall k, s: nat :: Lists(outgoingSrcs, k, s) <==>
                if k == key then s in list else Lists(old(outgoingSrcs), k, s)
    {
      if list != [] {
        outgoingSrcs := outgoingSrcs[key := list];
      }
    }

    method ListLocal(local: nat)
      requires graph.Valid(bound) && JointIndexes() && local < bound && ListsBefore(local, 0, 0)
      modifies this`outgoingSrcs
      ensures JointIndexes() && ListsBefore(local + 1, 0, 0)
    {
      var list := OutgoingOf(Local(local), Get(graph.localSrc, local), Get(graph.localJoint, local));
      ReachableFromParts(graph, Local(local));
      SetList(RoleKey(LocalRole, local), list);
    }

    method ListDst(dst: nat)
      requires graph.Valid(bound) && JointIndexes() && dst < bound && ListsBefore(bound, dst, 0)
      modifies this`outgoingSrcs
      ensures JointIndexes() && ListsBefore(bound, dst + 1, 0)
    {
      var list := OutgoingOf(Dst(dst), Get(graph.dstSrc, dst), Get(graph.dstJoint, dst));
      ReachableFromParts(graph, Dst(dst));
      SetList(RoleKey(DstRole, dst), list);
    }

    method ListJoint(joint: nat)
      requires graph.Valid(bound) && JointIndexes() && joint < bound && ListsBefore(bound, bound, joint)
      modifies this`outgoingSrcs
      ensures JointIndexes() && ListsBefore(bound, bound, joint + 1)
    {
      var list := OutgoingOf(Joint(joint), Get(graph.jointSrc, joint), Get(graph.jointJoint, joint));
      ReachableFromParts(graph, Joint(joint));
      SetList(RoleKey(JointRole, joint), list);
    }

    method RebuildOutgoingLists()
      requires graph.Valid(bound) && JointIndexes()
      modifies this`outgoingSrcs
      ensures JointIndexes() && OutgoingLists()
    {
      outgoingSrcs := map[];
      assert forall key, s: nat :: !Lists(outgoingSrcs, key, s) by {
        assert forall key :: Listed(outgoingSrcs, key) == [];
      }
      for local := 0 to bound
        invariant JointIndexes() && ListsBefore(local, 0, 0)
      {
        ListLocal(local);
      }
      for dst := 0 to bound
        invariant JointIndexes() && ListsBefore(bound, dst, 0)
      {
        ListDst(dst);
      }
      for joint := 0 to bound
        invariant JointIndexes() && ListsBefore(bound, bound, joint)
      {
        ListJoint(joint);
      }
      NothingBeyondBound(graph, bound);
    }

    method RebuildPrioritySrcsByDelta()
      requires graph.Valid(bound) && bound <= 4096
      modifies this`srcPriorityDeltas, this`prioritySrcsByDelta
      ensures Priorities()
    {
      prioritySrcsByDelta, srcPriorityDeltas := PrioritySrcs(graph, bound);
    }

    /** Everything derived is computed again, and everything cached is dropped. */
    method RebuildOutgoingSrcs()
      requires graph.Valid(bound) && bound <= 4096
      modifies this
      ensures Valid() && derivedMasksValid && graph == old(graph)
      ensures orderedSrcsByTarget == map[] && orderedNodeSrcsByTarget == map[] && terminalEntriesByLocal == map[]
    {
      DropCaches();
      RebuildPrioritySrcsByDelta();
      RebuildIndexes();
      MarkValid();
    }

    method DropCaches()
      modifies this`orderedSrcsByTarget, this`orderedNodeSrcsByTarget, this`terminalEntriesByLocal
      modifies this`derivedMasksValid
      ensures orderedSrcsByTarget == map[] && orderedNodeSrcsByTarget == map[] && terminalEntriesByLocal == map[]
    {
      orderedSrcsByTarget, orderedNodeSrcsByTarget := map[], map[];
      terminalEntriesByLocal := map[];
      derivedMasksValid := false;
    }

    method MarkValid()
      requires graph.Valid(bound) && bound <= 4096 && JointIndexes() && DstIndexes() && OutgoingLists() && Priorities()
      requires orderedSrcsByTarget == map[] && orderedNodeSrcsByTarget == map[] && terminalEntriesByLocal == map[]
      modifies this`derivedMasksValid
      ensures Valid() && derivedMasksValid
    {
      EmptyCachesAreRight();
      derivedMasksValid := true;
    }

    lemma EmptyCachesAreRight()
      requires orderedSrcsByTarget == map[] && orderedNodeSrcsByTarget == map[] && terminalEntriesByLocal == map[]
      ensures CachesNoDup() && TargetCache() && NodeCache() && EntryCache()
    {
    }

    method RebuildIndexes()
      requires graph.Valid(bound)
      modifies this`jointReachableSrcs, this`srcReachableJoints, this`localReachableJoints
      modifies this`dstsReachingSrc, this`dstsReachingLocal, this`validDstNodes, this`outgoingSrcs
      ensures JointIndexes() && DstIndexes() && OutgoingLists()
    {
      RebuildJointIndexes();
      RebuildDstIndexes();
      RebuildOutgoingLists();
    }

    method EnsureDerivedMasks()
      requires Valid()
      modifies this
      ensures Valid() && derivedMasksValid && graph == old(graph)
      ensures old(derivedMasksValid) ==> unchanged(this)
      ensures !old(derivedMasksValid) ==> orderedSrcsByTarget == map[]
    {
      if !derivedMasksValid {
        RebuildOutgoingSrcs();
      }
    }

    // -------------------------------------------------------------------------
    // Lookups.
    // -------------------------------------------------------------------------

    /** The joint pairs in the order of the first joint: the first pair that connects, if any does. */
    method FindTwoJoints(ghost from: Node, ghost to: Node, firstJoints: set<nat>, endJoints: set<nat>)
      returns (joint: int, firstJoint: int)
      requires graph.Valid(bound)
      requires forall j: nat :: j in firstJoints <==> graph.Edge(from, Joint(j))
      requires forall j: nat :: j in endJoints <==> graph.Edge(Joint(j), to)
      ensures joint == -1 ==> firstJoint == -1 && !TwoJoints(graph, from, to)
      ensures joint != -1 ==> joint >= 0 && firstJoint >= 0 && graph.Edge(from, Joint(firstJoint)) &&
                              graph.Edge(Joint(firstJoint), Joint(joint)) && graph.Edge(Joint(joint), to)
    {
      joint, firstJoint := -1, -1;
      for index := 0 to bound
        invariant joint == -1 && firstJoint == -1 && NoPairBefore(graph, from, to, index)
      {
        if index in firstJoints {
          joint := FirstCommonJoint(endJoints, Get(graph.jointJoint, index), bound);
          if joint != -1 {
            return joint, index;
          }
          NoPairAt(graph, bound, index, to, endJoints);
        }
      }
      NoPairAtAll(graph, bound, from, to);
    }

    /** The search shared by the three path questions: directly, through one joint, through two. */
    method FindVia(ghost from: Node, ghost to: Node, direct: bool, firstJoints: set<nat>, endJoints: set<nat>)
      returns (ok: bool, joint: int, firstJoint: int)
      requires graph.Valid(bound) && (direct <==> graph.Edge(from, to))
      requires forall j: nat :: j in firstJoints <==> graph.Edge(from, Joint(j))
      requires forall j: nat :: j in endJoints <==> graph.Edge(Joint(j), to)
      ensures IsAnswer(graph, from, to, ok, joint, firstJoint)
    {
      ReachableShapes(graph, from, to);
      RouteShapes(graph, from, to);
      joint, firstJoint := -1, -1;
      if direct {
        return true, joint, firstJoint;
      }
      joint := FirstCommonJoint(firstJoints, endJoints, bound);
      if joint != -1 {
        return true, joint, firstJoint;
      }
      NoOneJoint(graph, bound, from, to, firstJoints, endJoints);
      joint, firstJoint := FindTwoJoints(from, to, firstJoints, endJoints);
      ok := joint != -1;
    }

    method CanOut(local: nat, src: nat) returns (ok: bool, joint: int, firstJoint: int)
      requires Valid()
      modifies this
      ensures Valid() && derivedMasksValid && graph == old(graph) && (old(derivedMasksValid) ==> unchanged(this))
      ensures IsAnswer(graph, Local(local), Src(src), ok, joint, firstJoint)
    {
      EnsureDerivedMasks();
      IndexRow(srcReachableJoints, src);
      ok, joint, firstJoint := FindVia(Local(local), Src(src), src in Get(graph.localSrc, local),
                                       Get(graph.localJoint, local), Get(srcReachableJoints, src));
    }

    method CanJump(dst: nat, src: nat) returns (ok: bool, joint: int, firstJoint: int)
      requires Valid()
      modifies this
      ensures Valid() && derivedMasksValid && graph == old(graph) && (old(derivedMasksValid) ==> unchanged(this))
      ensures IsAnswer(graph, Dst(dst), Src(src), ok, joint, firstJoint)
    {
      EnsureDerivedMasks();
      IndexRow(srcReachableJoints, src);
      ok, joint, firstJoint := FindVia(Dst(dst), Src(src), src in Get(graph.dstSrc, dst),
                                       Get(graph.dstJoint, dst), Get(srcReachableJoints, src));
    }

    method CanIn(dst: nat, local: nat) returns (ok: bool, joint: int, firstJoint: int)
      requires Valid()
      modifies this
      ensures Valid() && derivedMasksValid && graph == old(graph) && (old(derivedMasksValid) ==> unchanged(this))
      ensures IsAnswer(graph, Dst(dst), Local(local), ok, joint, firstJoint)
    {
      EnsureDerivedMasks();
      IndexRow(localReachableJoints, local);
      ok, joint, firstJoint := FindVia(Dst(dst), Local(local), local in Get(graph.dstLocal, dst),
                                       Get(graph.dstJoint, dst), Get(localReachableJoints, local));
    }
  
    method AddEntry(paths: seq<TerminalEntry>, e: TerminalEntry) returns (longer: seq<TerminalEntry>)
      requires NoDup(paths)
      ensures NoDup(longer) && forall p :: p in longer <==> p in paths || p == e
    {
      longer := if e in paths then paths else paths + [e];
    }

    /** The entries of one destination that pass a given first joint. */
    method AddPairs(paths: seq<TerminalEntry>, local: nat, dst: nat, first: nat) returns (longer: seq<TerminalEntry>)
      requires graph.Valid(bound) && JointIndexes() && NoDup(paths) && graph.Edge(Dst(dst), Joint(first))
      ensures NoDup(longer)
      ensures forall p :: p in longer <==>
                p in paths || (p.dst == dst && p.joint >= 0 && p.joint2 == first && IsEntry(graph, local, p))
    {
      longer := paths;
      var ends := Get(localReachableJoints, local);
      IndexRow(localReachableJoints, local);
      for second := 0 to bound
        invariant NoDup(longer)
        invariant forall p :: p in longer <==>
                    p in paths || (p.dst == dst && 0 <= p.joint < second && p.joint2 == first &&
                      IsEntry(graph, local, p))
      {
        var e := TerminalEntry(dst, second, first);
        EntryShape(graph, local, e);
        if second in Get(graph.jointJoint, first) && second in ends {
          longer := AddEntry(longer, e);
        }
      }
      EntriesWithin(graph, bound, local);
    }

    /** All the entries of one destination: direct, through one joint, through two. */
    method AddEntriesOfDst(paths: seq<TerminalEntry>, local: nat, dst: nat) returns (longer: seq<TerminalEntry>)
      requires graph.Valid(bound) && JointIndexes() && NoDup(paths)
      ensures NoDup(longer)
      ensures forall p :: p in longer <==> p in paths || (p.dst == dst && IsEntry(graph, local, p))
    {
      longer := paths;
      EntryShape(graph, local, TerminalEntry(dst, -1, -1));
      if local in Get(graph.dstLocal, dst) {
        longer := AddEntry(longer, TerminalEntry(dst, -1, -1));
      }
      var ends := Get(localReachableJoints, local);
      IndexRow(localReachableJoints, local);
      for joint := 0 to bound
        invariant NoDup(longer)
        invariant forall p :: p in longer <==>
                    p in paths || (p.dst == dst && p.joint2 == -1 && p.joint < joint && IsEntry(graph, local, p))
      {
        var e := TerminalEntry(dst, joint, -1);
        EntryShape(graph, local, e);
        if joint in Get(graph.dstJoint, dst) && joint in ends {
          longer := AddEntry(longer, e);
        }
      }
      EntriesWithin(graph, bound, local);
      for first := 0 to bound
        invariant NoDup(longer)
        invariant forall p :: p in longer <==>
                    p in paths || (p.dst == dst && p.joint2 < first && IsEntry(graph, local, p))
      {
        if first in Get(graph.dstJoint, dst) {
          longer := AddPairs(longer, local, dst, first);
        }
        forall p | IsEntry(graph, local, p) && p.dst == dst && p.joint2 == first
          ensures graph.Edge(Dst(dst), Joint(first)) && p.joint >= 0
        {
          EntryShape(graph, local, p);
        }
      }
    }

    /** Each legal way into a local once; none for a number that is no node. */
    method TerminalEntries(local: int) returns (entries: seq<TerminalEntry>)
      requires Valid()
      modifies this
      ensures Valid() && graph == old(graph) && (0 <= local < bound ==> derivedMasksValid)
      ensures old(derivedMasksValid) || local < 0 || local >= bound ==>
                derivedMasksValid == old(derivedMasksValid) && unchanged(this`outgoingSrcs) &&
                unchanged(this`orderedSrcsByTarget) && unchanged(this`orderedNodeSrcsByTarget)
      ensures if 0 <= local < bound then IsEntryList(graph, local, entries) else entries == []
    {
      if local < 0 || local >= bound {
        return [];
      }
      EnsureDerivedMasks();
      if local in terminalEntriesByLocal &&
         (terminalEntriesByLocal[local] != [] || Get(dstsReachingLocal, local) == {}) {
        return terminalEntriesByLocal[local];
      }
      entries := CollectEntries(local);
      RememberEntries(local, entries);
    }

    method RememberEntries(local: nat, entries: seq<TerminalEntry>)
      requires Valid() && IsEntryList(graph, local, entries)
      modifies this`terminalEntriesByLocal
      ensures Valid()
    {
      terminalEntriesByLocal := terminalEntriesByLocal[local := entries];
    }

    method CollectEntries(local: nat) returns (entries: seq<TerminalEntry>)
      requires Valid() && derivedMasksValid
      ensures IsEntryList(graph, local, entries)
    {
      entries := [];
      for dst := 0 to bound
        invariant NoDup(entries)
        invariant forall p :: p in entries <==> p.dst < dst && IsEntry(graph, local, p)
      {
        EntriesAreIndexed(local, dst);
        if dst in Get(dstsReachingLocal, local) {
          entries := AddEntriesOfDst(entries, local, dst);
        }
      }
      EntriesWithin(graph, bound, local);
    }

    /** A destination with an entry is in the index. */
    lemma EntriesAreIndexed(local: nat, dst: nat)
      requires Valid() && derivedMasksValid
      ensures forall p :: IsEntry(graph, local, p) && p.dst == dst ==> dst in Get(dstsReachingLocal, local)
    {
      forall p | IsEntry(graph, local, p) && p.dst == dst
        ensures dst in Get(dstsReachingLocal, local)
      {
        assert |Via(p.joint2, p.joint)| <= 2;
        assert graph.Reachable(Dst(dst), Local(local));
        assert Has(dstsReachingLocal, local, dst);
      }
    }

    /** Whether one destination enters without the blocked joint. */
    method DstAvoids(local: nat, dst: nat, blocked: nat) returns (avoids: bool)
      requires graph.Valid(bound) && JointIndexes()
      ensures avoids <==> exists e: TerminalEntry :: e.dst == dst && EntryAvoids(graph, local, e, blocked)
    {
      var ends := Get(localReachableJoints, local);
      IndexRow(localReachableJoints, local);
      EntryShape(graph, local, TerminalEntry(dst, -1, -1));
      if local in Get(graph.dstLocal, dst) {
        assert EntryAvoids(graph, local, TerminalEntry(dst, -1, -1), blocked);
        return true;
      }
      var firstJoints := Get(graph.dstJoint, dst);
      if firstJoints * ends - {blocked} != {} {
        ghost var joint :| joint in firstJoints * ends - {blocked};
        EntryShape(graph, local, TerminalEntry(dst, joint, -1));
        assert EntryAvoids(graph, local, TerminalEntry(dst, joint, -1), blocked);
        return true;
      }
      forall e: TerminalEntry | e.dst == dst && EntryAvoids(graph, local, e, blocked)
        ensures e.joint2 >= 0
      {
        EntryShape(graph, local, e);
        assert e.joint >= 0 && e.joint2 == -1 ==> e.joint in firstJoints * ends - {blocked};
      }
      for first := 0 to bound
        invariant forall e: TerminalEntry :: e.dst == dst && EntryAvoids(graph, local, e, blocked) ==> e.joint2 >= first
      {
        if first in firstJoints && first != blocked {
          var seconds := Get(graph.jointJoint, first) * ends - {blocked};
          if seconds != {} {
            ghost var second :| second in seconds;
            EntryShape(graph, local, TerminalEntry(dst, second, first));
            assert EntryAvoids(graph, local, TerminalEntry(dst, second, first), blocked);
            return true;
          }
        }
        forall e: TerminalEntry | e.dst == dst && EntryAvoids(graph, local, e, blocked)
          ensures e.joint2 != first
        {
          EntryShape(graph, local, e);
          assert e.joint2 >= 0 ==> e.joint2 in firstJoints && e.joint2 != blocked &&
                                   e.joint in Get(graph.jointJoint, e.joint2) * ends - {blocked};
        }
      }
      EntriesWithin(graph, bound, local);
      return false;
    }

    method CanInAvoidingJoint(local: int, blocked: int) returns (ok: bool)
      requires Valid()
      modifies this
      ensures Valid() && derivedMasksValid && graph == old(graph) && (old(derivedMasksValid) ==> unchanged(this))
      ensures ok <==> local >= 0 && blocked >= 0 && exists e :: EntryAvoids(graph, local, e, blocked)
    {
      EnsureDerivedMasks();
      if local < 0 || blocked < 0 {
        return false;
      }
      ok := SomeDstAvoids(local, blocked);
    }

    method SomeDstAvoids(local: nat, blocked: nat) returns (ok: bool)
      requires Valid() && derivedMasksValid
      ensures ok <==> exists e :: EntryAvoids(graph, local, e, blocked)
    {
      for dst := 0 to bound
        invariant forall e :: EntryAvoids(graph, local, e, blocked) ==> e.dst >= dst
      {
        EntriesAreIndexed(local, dst);
        if dst in Get(dstsReachingLocal, local) {
          var avoids := DstAvoids(local, dst, blocked);
          if avoids {
            return true;
          }
        }
      }
      EntriesWithin(graph, bound, local);
      return false;
    }
  }

  ghost predicate EntryAvoids(g: Graph, local: nat, e: TerminalEntry, blocked: nat) {
    IsEntry(g, local, e) && blocked !in Via(e.joint2, e.joint)
  }

  lemma EntryShape(g: Graph, local: nat, e: TerminalEntry)
    ensures IsEntry(g, local, e) <==>
            (e.joint == -1 && e.joint2 == -1 && g.Edge(Dst(e.dst), Local(local))) ||
            (e.joint >= 0 && e.joint2 == -1 && g.Edge(Dst(e.dst), Joint(e.joint)) &&
              g.Edge(Joint(e.joint), Local(local))) ||
            (e.joint >= 0 && e.joint2 >= 0 && g.Edge(Dst(e.dst), Joint(e.joint2)) &&
             g.Edge(Joint(e.joint2), Joint(e.joint)) && g.Edge(Joint(e.joint), Local(local)))
  {
    RouteShapes(g, Dst(e.dst), Local(local));
  }

  lemma EntriesWithin(g: Graph, bound: nat, local: nat)
    requires g.Valid(bound)
    ensures forall e :: IsEntry(g, local, e) ==> local < bound && e.dst < bound && e.joint < bound && e.joint2 < bound
  {
    forall e | IsEntry(g, local, e)
      ensures local < bound && e.dst < bound && e.joint < bound && e.joint2 < bound
    {
      EntryShape(g, local, e);
    }
  }

  lemma IndexRow(t: Table, row: nat)
    ensures forall b: nat :: b in Get(t, row) <==> Has(t, row, b)
  {
  }

  lemma NoOneJoint(g: Graph, bound: nat, from: Node, to: Node, firstJoints: set<nat>, endJoints: set<nat>)
    requires g.Valid(bound)
    requires forall j: nat :: j in firstJoints <==> g.Edge(from, Joint(j))
    requires forall j: nat :: j in endJoints <==> g.Edge(Joint(j), to)
    requires forall j: nat :: j < bound && j in firstJoints ==> j !in endJoints
    ensures !OneJoint(g, from, to)
  {
    forall j: nat | g.Edge(from, Joint(j))
      ensures !g.Edge(Joint(j), to)
    {
      EdgeWithin(g, bound, from, Joint(j));
      assert j in firstJoints;
    }
  }

  ghost predicate NoPairBefore(g: Graph, from: Node, to: Node, index: nat) {
    forall i: nat, j: nat :: i < index && g.Edge(from, Joint(i)) && g.Edge(Joint(i), Joint(j)) ==> !g.Edge(Joint(j), to)
  }

  lemma NoPairAt(g: Graph, bound: nat, index: nat, to: Node, endJoints: set<nat>)
    requires g.Valid(bound) && forall j: nat :: j in endJoints <==> g.Edge(Joint(j), to)
    requires forall j: nat :: j < bound && j in endJoints ==> j !in Get(g.jointJoint, index)
    ensures forall j: nat :: g.Edge(Joint(index), Joint(j)) ==> !g.Edge(Joint(j), to)
  {
    forall j: nat | g.Edge(Joint(index), Joint(j))
      ensures !g.Edge(Joint(j), to)
    {
      EdgeWithin(g, bound, Joint(index), Joint(j));
      assert j in Get(g.jointJoint, index);
    }
  }

  lemma NoPairAtAll(g: Graph, bound: nat, from: Node, to: Node)
    requires g.Valid(bound) && NoPairBefore(g, from, to, bound)
    ensures !TwoJoints(g, from, to)
  {
    forall i: nat | g.Edge(from, Joint(i))
      ensures i < bound
    {
      EdgeWithin(g, bound, from, Joint(i));
    }
  }

  /** Yes exactly if there is a route, and then with the joints of a shortest one. */
  ghost predicate IsAnswer(g: Graph, from: Node, to: Node, ok: bool, joint: int, firstJoint: int) {
    (ok <==> g.Reachable(from, to)) &&
    (ok ==> g.Route(from, Via(firstJoint, joint), to) &&
            (Via(firstJoint, joint) != [] ==> !g.Edge(from, to)) &&
              (|Via(firstJoint, joint)| == 2 ==> !OneJoint(g, from, to))) &&
    (!ok ==> joint == -1 && firstJoint == -1)
  }

  ghost predicate FromJointBefore(g: Graph, joint: nat, to: Node, next: nat) {
    g.Edge(Joint(joint), to) || exists k: nat :: k < next && g.Edge(Joint(joint), Joint(k)) && g.Edge(Joint(k), to)
  }

  ghost predicate ThroughJointsBefore(g: Graph, from: Node, to: Node, joint: nat) {
    exists j: nat :: j < joint && g.Edge(from, Joint(j)) && FromJoint(g, j, to)
  }

  ghost predicate ReachedBefore(g: Graph, from: Node, to: Node, joint: nat) {
    g.Edge(from, to) || ThroughJointsBefore(g, from, to, joint)
  }

  lemma FromJointStep(g: Graph, joint: nat, next: nat)
    ensures forall to: Node :: FromJointBefore(g, joint, to, next + 1) <==>
              FromJointBefore(g, joint, to, next) || (g.Edge(Joint(joint), Joint(next)) && g.Edge(Joint(next), to))
  {
  }

  lemma AllJointsBefore(g: Graph, bound: nat, joint: nat)
    requires g.Valid(bound)
    ensures forall to: Node :: FromJointBefore(g, joint, to, bound) <==> FromJoint(g, joint, to)
  {
    forall k: nat | g.Edge(Joint(joint), Joint(k))
      ensures k < bound
    {
      EdgeWithin(g, bound, Joint(joint), Joint(k));
    }
  }

  lemma AllThroughBefore(g: Graph, bound: nat, from: Node, to: Node)
    requires g.Valid(bound)
    ensures ThroughJointsBefore(g, from, to, bound) <==> ThroughJoints(g, from, to)
  {
    forall j: nat | g.Edge(from, Joint(j))
      ensures j < bound
    {
      EdgeWithin(g, bound, from, Joint(j));
    }
  }

  lemma ReachedStep(g: Graph, from: Node, joint: nat)
    ensures forall to: Node :: ReachedBefore(g, from, to, joint + 1) <==>
              ReachedBefore(g, from, to, joint) || (g.Edge(from, Joint(joint)) && FromJoint(g, joint, to))
  {
  }

  lemma AllReachedBefore(g: Graph, bound: nat, from: Node)
    requires g.Valid(bound)
    ensures forall to: Node :: ReachedBefore(g, from, to, bound) <==> g.Reachable(from, to)
  {
    forall to: Node
      ensures ReachedBefore(g, from, to, bound) <==> g.Reachable(from, to)
    {
      AllThroughBefore(g, bound, from, to);
      ThroughJointShapes(g, from, to);
      ReachableShapes(g, from, to);
    }
  }

  lemma ReachableFromParts(g: Graph, from: Node)
    ensures forall s: nat :: g.Reachable(from, Src(s)) <==> g.Edge(from, Src(s)) || ThroughJoints(g, from, Src(s))
    ensures forall s: nat :: ThroughJoints(g, from, Src(s)) <==> OneJoint(g, from, Src(s)) || TwoJoints(g, from, Src(s))
  {
    forall s: nat
      ensures g.Reachable(from, Src(s)) <==> g.Edge(from, Src(s)) || ThroughJoints(g, from, Src(s))
      ensures ThroughJoints(g, from, Src(s)) <==> OneJoint(g, from, Src(s)) || TwoJoints(g, from, Src(s))
    {
      ThroughJointShapes(g, from, Src(s));
      ReachableShapes(g, from, Src(s));
    }
  }

  lemma NothingBeyondBound(g: Graph, bound: nat)
    requires g.Valid(bound)
    ensures forall from: Node, s: nat :: g.Reachable(from, Src(s)) ==> from.n < bound
    ensures forall j: nat, s: nat :: ListedForJoint(g, j, s) ==> j < bound
  {
    forall from: Node, s: nat | g.Reachable(from, Src(s))
      ensures from.n < bound
    {
      ReachableWithin(g, bound, from, Src(s));
    }
    forall j: nat, s: nat | ListedForJoint(g, j, s)
      ensures j < bound
    {
      ReachableShapes(g, Joint(j), Src(s));
      assert g.Reachable(Joint(j), Src(s));
    }
  }

  /**
   What the list of a joint holds. Unlike the lists of locals and destinations it looks for
   the direct connection in one of the two tables only, and it goes through two more joints.
   */
  ghost predicate ListedForJoint(g: Graph, joint: nat, src: nat) {
    Has(g.jointSrc, joint, src) || OneJoint(g, Joint(joint), Src(src)) || TwoJoints(g, Joint(joint), Src(src))
  }

  /** What the list of a node stands for: reachability, except for joints; the other roles have no list. */
  ghost predicate LeadsTo(g: Graph, role: Role, value: nat, src: nat) {
    match role
    case LocalRole => g.Reachable(Local(value), Src(src))
    case DstRole => g.Reachable(Dst(value), Src(src))
    case JointRole => ListedForJoint(g, value, src)
    case _ => false
  }

  /** A source that lands somewhere or that some node leads to. */
  ghost predicate IsUsable(g: Graph, src: nat) {
    g.LandingsOf(src) != [] || exists role, value: nat :: LeadsTo(g, role, value, src)
  }
}
