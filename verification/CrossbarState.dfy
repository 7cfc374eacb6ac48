/** The live state of one crossbar: the walk over free candidates, and ways out of a local (src/fpga/Crossbar.cpp). */
module CrossbarState {
  import opened Common
  import opened Crossbar
  import opened JumpBuckets
  import opened RouteGraph
  import opened SourceTable

  /** A way out of a local over joints and a source that nobody holds, to a source that lands somewhere. */
  ghost predicate FreeWayOut(g: Graph, heldSrcs: set<nat>, heldJoints: set<nat>, local: nat, joints: seq<nat>,
                             src: nat)
  {
    |joints| <= 2 && g.Route(Local(local), joints, Src(src)) && src !in heldSrcs && g.LandingsOf(src) != [] &&
    forall k :: 0 <= k < |joints| ==> joints[k] !in heldJoints
  }

  class CBState {
    const cbType: CBType
    var src: set<nat>                           // sources that are taken
    var joint: set<nat>                         // joints that are taken
    var srcDeadend: set<nat>                    // sources that led nowhere

    constructor (cbType: CBType)
      ensures this.cbType == cbType && src == {} && joint == {} && srcDeadend == {}
    {
      this.cbType := cbType;
      src, joint, srcDeadend := {}, {}, {};
    }

    // -------------------------------------------------------------------------
    // Walking the candidates.
    // -------------------------------------------------------------------------

    function FreeCandidates(candidates: set<nat>, ignoreDeadend: bool): set<nat>
      reads this
    {
      if ignoreDeadend then candidates - src else candidates - src - srcDeadend
    }

    /** The walk goes along the list of the present graph, unless that direction was cached before an edit. */
    ghost predicate IsFresh(dx: int, dy: int)
      reads cbType
    {
      cbType.derivedMasksValid || !IsCached(cbType, dx, dy)
    }

    /** The next candidate that is neither taken nor, unless asked for, a dead end. */
    method IterateSrcMask(candidates: set<nat>, dx: int, dy: int, curr: int, ignoreDeadend: bool)
      returns (next: int, ghost list: seq<nat>)
      requires cbType.Valid()
      modifies cbType
      ensures cbType.Valid() && cbType.graph == old(cbType.graph) && NoDup(list) && Caches(cbType, dx, dy, list)
      ensures next == NextFree(list, FreeCandidates(candidates, ignoreDeadend), curr)
      ensures old(IsCached(cbType, dx, dy)) ==> old(Caches(cbType, dx, dy, list)) && unchanged(cbType)
      ensures old(IsFresh(dx, dy)) ==>
                cbType.derivedMasksValid && cbType.IsTargetList(TargetBucket(dx, dy), list) &&
                forall s: nat :: s in list <==> IsUsable(cbType.graph, s)
      ensures old(cbType.derivedMasksValid) ==>
                unchanged(cbType`outgoingSrcs) && unchanged(cbType`orderedNodeSrcsByTarget)
    {
      var free := candidates - src;
      if !ignoreDeadend {
        free := free - srcDeadend;
      }
      var ordered := OrderedSrcNodes(cbType, dx, dy);
      next := WalkToNext(ordered, free, curr);
      list := ordered;
    }

    function DirectSrcs(jump: bool, pos: int): set<nat>
      reads cbType
    {
      if pos < 0 || pos >= cbType.bound then {}
      else if jump then Get(cbType.graph.dstSrc, pos) else Get(cbType.graph.localSrc, pos)
    }

    /** The next direct source of a node; none for a number that is no node. */
    method Iterate(jump: bool, pos: int, dx: int, dy: int, curr: int, ignoreDeadend: bool) returns (next: int)
      requires cbType.Valid()
      modifies cbType
      ensures cbType.Valid() && cbType.graph == old(cbType.graph)
      ensures pos < 0 || pos >= cbType.bound ==> next == -1 && unchanged(cbType)
      ensures 0 <= pos < cbType.bound ==>
                exists list :: Caches(cbType, dx, dy, list) &&
                  next == NextFree(list, FreeCandidates(DirectSrcs(jump, pos), ignoreDeadend), curr)
      ensures 0 <= pos < cbType.bound && old(IsCached(cbType, dx, dy)) ==> unchanged(cbType)
      ensures 0 <= pos < cbType.bound && old(IsFresh(dx, dy)) ==> cbType.derivedMasksValid
    {
      if pos < 0 || pos >= cbType.bound {
        return -1;
      }
      ghost var list;
      next, list := IterateSrcMask(if jump then Get(cbType.graph.dstSrc, pos) else Get(cbType.graph.localSrc, pos),
                                   dx, dy, curr, ignoreDeadend);
    }

    /** Asking again from -1 until -1 comes back lists every free candidate once, in order. */
    method AllCandidates(candidates: set<nat>, dx: int, dy: int, ignoreDeadend: bool)
      returns (tried: seq<nat>, ghost list: seq<nat>)
      requires cbType.Valid()
      modifies cbType
      ensures cbType.Valid() && cbType.graph == old(cbType.graph) && NoDup(list) && Caches(cbType, dx, dy, list)
      ensures tried == FreeOf(list, FreeCandidates(candidates, ignoreDeadend))
      ensures old(IsCached(cbType, dx, dy)) ==> old(Caches(cbType, dx, dy, list)) && unchanged(cbType)
      ensures old(IsFresh(dx, dy)) ==>
                cbType.derivedMasksValid && cbType.IsTargetList(TargetBucket(dx, dy), list) &&
                forall s: nat :: s in list <==> IsUsable(cbType.graph, s)
      ensures old(cbType.derivedMasksValid) ==>
                unchanged(cbType`outgoingSrcs) && unchanged(cbType`orderedNodeSrcsByTarget)
    {
      var next;
      next, list := IterateSrcMask(candidates, dx, dy, -1, ignoreDeadend);
      tried := AllFrom(candidates, dx, dy, ignoreDeadend, next, list);
    }

    method AllFrom(candidates: set<nat>, dx: int, dy: int, ignoreDeadend: bool, first: int, ghost list: seq<nat>)
      returns (tried: seq<nat>)
      requires cbType.Valid() && Caches(cbType, dx, dy, list) && NoDup(list)
      requires first == NextFree(list, FreeCandidates(candidates, ignoreDeadend), -1)
      modifies cbType
      ensures unchanged(cbType)
      ensures tried == FreeOf(list, FreeCandidates(candidates, ignoreDeadend))
    {
      ghost var free := FreeCandidates(candidates, ignoreDeadend);
      tried := [];
      var next := first;
      ghost var at: nat := 0;
      while next >= 0
        invariant unchanged(cbType) && at <= |list|
        invariant next == NextFree(list[at..], free, -1)
        invariant tried + FreeOf(list[at..], free) == FreeOf(list, free)
        decreases |list| - at
      {
        at := NextFreeStep(list, free, tried, at, next);
        tried := tried + [next];
        ghost var again;
        next, again := IterateSrcMask(candidates, dx, dy, next, ignoreDeadend);
      }
      assert FreeOf(list[at..], free) == [];
    }

    /**
     The walk of a node tries none but its free direct sources, each at most once; and it misses none,
     unless the direction was cached before an edit.
     */
    method AllDirect(jump: bool, pos: int, dx: int, dy: int, ignoreDeadend: bool) returns (tried: seq<nat>)
      requires cbType.Valid()
      modifies cbType
      ensures cbType.Valid() && cbType.graph == old(cbType.graph)
      ensures NoDup(tried) && forall s :: s in tried ==> s in FreeCandidates(DirectSrcs(jump, pos), ignoreDeadend)
      ensures old(IsFresh(dx, dy)) ==>
                forall s: nat :: s in tried <==> s in FreeCandidates(DirectSrcs(jump, pos), ignoreDeadend)
    {
      if pos < 0 || pos >= cbType.bound {
        return [];
      }
      var candidates := DirectSrcs(jump, pos);
      ghost var list;
      tried, list := AllCandidates(candidates, dx, dy, ignoreDeadend);
      FreeOfMembers(list, FreeCandidates(candidates, ignoreDeadend));
      DirectIsUsable(jump, pos);
    }

    lemma DirectIsUsable(jump: bool, pos: nat)
      ensures forall s :: s in DirectSrcs(jump, pos) ==> IsUsable(cbType.graph, s)
    {
      forall s | s in DirectSrcs(jump, pos)
        ensures IsUsable(cbType.graph, s)
      {
        var g := cbType.graph;
        ReachableShapes(g, if jump then Dst(pos) else Local(pos), Src(s));
        assert LeadsTo(g, if jump then DstRole else LocalRole, pos, s);
      }
    }

    // -------------------------------------------------------------------------
    // Ways out of a local.
    // -------------------------------------------------------------------------

    ghost predicate IsFreeSrc(s: nat)
      reads this, cbType
    {
      s !in src && cbType.graph.LandingsOf(s) != []
    }

    ghost predicate AnyFree(candidates: set<nat>)
      reads this, cbType
    {
      exists s :: s in candidates && IsFreeSrc(s)
    }

    /** A free source behind one joint, or behind a free joint after it. */
    ghost predicate FreeBehind(j: nat)
      requires cbType.graph.Valid(cbType.bound) && cbType.JointIndexes()
      reads this, cbType
    {
      AnyFree(cbType.JointSrcs(j))
    }

    ghost predicate FreeBeyond(j: nat)
      requires cbType.graph.Valid(cbType.bound) && cbType.JointIndexes()
      reads this, cbType
    {
      FreeBehind(j) || exists k :: k in Get(cbType.graph.jointJoint, j) - joint && FreeBehind(k)
    }

    ghost predicate HasWayOut(pos: nat)
      reads this, cbType
    {
      exists joints, s: nat :: FreeWayOut(cbType.graph, src, joint, pos, joints, s)
    }

    method HasFreeResolvedSrc(candidates: set<nat>) returns (found: bool)
      requires forall s :: s in candidates ==> s < cbType.bound
      ensures found <==> AnyFree(candidates)
    {
      var free := candidates - src;
      for s := 0 to cbType.bound
        invariant forall c :: c in candidates && c < s ==> !IsFreeSrc(c)
      {
        if s in free && cbType.graph.LandingsOf(s) != [] {
          return true;
        }
      }
      return false;
    }

    /** One of the joints has a free source behind it. */
    method AnyFreeBehind(joints: set<nat>) returns (found: bool)
      requires cbType.graph.Valid(cbType.bound) && cbType.JointIndexes() && forall j :: j in joints ==> j < cbType.bound
      ensures found <==> exists j :: j in joints && FreeBehind(j)
    {
      for j := 0 to cbType.bound
        invariant forall k :: k < j && k in joints ==> !FreeBehind(k)
      {
        if j in joints {
          found := HasFreeResolvedSrc(cbType.JointSrcs(j));
          if found {
            return true;
          }
        }
      }
      return false;
    }

    method AnyFreeBeyond(firsts: set<nat>) returns (found: bool)
      requires cbType.graph.Valid(cbType.bound) && cbType.JointIndexes() && forall j :: j in firsts ==> j < cbType.bound
      ensures found <==> exists j :: j in firsts && FreeBeyond(j)
    {
      for first := 0 to cbType.bound
        invariant forall k :: k < first && k in firsts ==> !FreeBeyond(k)
      {
        if first in firsts {
          found := HasFreeResolvedSrc(cbType.JointSrcs(first));
          if !found {
            found := AnyFreeBehind(Get(cbType.graph.jointJoint, first) - joint);
          }
          if found {
            return true;
          }
        }
      }
      return false;
    }

    /** Some free way out exists, for a node number in range. */
    method HasFreeOut(pos: int) returns (found: bool)
      requires cbType.Valid()
      modifies cbType
      ensures cbType.Valid() && cbType.graph == old(cbType.graph)
      ensures old(cbType.derivedMasksValid) ==> unchanged(cbType)
      ensures 0 <= pos < cbType.bound ==> cbType.derivedMasksValid
      ensures found <==> (0 <= pos < cbType.bound && HasWayOut(pos))
    {
      if pos < 0 || pos >= cbType.bound {
        return false;
      }
      cbType.EnsureDerivedMasks();
      found := FreeOut(pos);
    }

    method FreeOut(pos: nat) returns (found: bool)
      requires cbType.graph.Valid(cbType.bound) && cbType.JointIndexes()
      ensures found <==> HasWayOut(pos)
    {
      FreeWayOutShapes(pos);
      found := HasFreeResolvedSrc(Get(cbType.graph.localSrc, pos));
      if !found {
        found := AnyFreeBeyond(Get(cbType.graph.localJoint, pos) - joint);
      }
    }

    /** A source is free behind a joint exactly if a connection leads from the joint to it. */
    lemma FreeBehindByEdge(j: nat)
      requires cbType.graph.Valid(cbType.bound) && cbType.JointIndexes()
      ensures FreeBehind(j) <==> exists s: nat :: cbType.graph.Edge(Joint(j), Src(s)) && IsFreeSrc(s)
    {
      if FreeBehind(j) {
        var s: nat :| s in cbType.JointSrcs(j) && IsFreeSrc(s);
        assert cbType.graph.Edge(Joint(j), Src(s));
      }
      if s: nat :| cbType.graph.Edge(Joint(j), Src(s)) && IsFreeSrc(s) {
        assert s in cbType.JointSrcs(j);
      }
    }

    lemma WayOutIsFree(pos: nat, joints: seq<nat>, s: nat)
      requires cbType.graph.Valid(cbType.bound) && cbType.JointIndexes()
      requires FreeWayOut(cbType.graph, src, joint, pos, joints, s)
      ensures AnyFree(Get(cbType.graph.localSrc, pos)) ||
              exists j :: j in Get(cbType.graph.localJoint, pos) - joint && FreeBeyond(j)
    {
      RouteShapes(cbType.graph, Local(pos), Src(s));
      if |joints| == 0 {
        assert joints == [];
      } else {
        var j := joints[0];
        assert joints == if |joints| == 1 then [j] else [j, joints[1]];
        FreeBehindByEdge(joints[|joints| - 1]);
        assert FreeBeyond(j);
      }
    }

    lemma FreeIsWayOut(pos: nat, j: nat)
      requires cbType.graph.Valid(cbType.bound) && cbType.JointIndexes()
      requires j in Get(cbType.graph.localJoint, pos) - joint && FreeBeyond(j)
      ensures HasWayOut(pos)
    {
      var g := cbType.graph;
      FreeBehindByEdge(j);
      if FreeBehind(j) {
        var s: nat :| g.Edge(Joint(j), Src(s)) && IsFreeSrc(s);
        RouteShapes(g, Local(pos), Src(s));
        assert FreeWayOut(g, src, joint, pos, [j], s);
      } else {
        var k :| k in Get(g.jointJoint, j) - joint && FreeBehind(k);
        FreeBehindByEdge(k);
        var s: nat :| g.Edge(Joint(k), Src(s)) && IsFreeSrc(s);
        RouteShapes(g, Local(pos), Src(s));
        assert FreeWayOut(g, src, joint, pos, [j, k], s);
      }
    }

    lemma FreeWayOutShapes(pos: nat)
      requires cbType.graph.Valid(cbType.bound) && cbType.JointIndexes()
      ensures HasWayOut(pos) <==>
              AnyFree(Get(cbType.graph.localSrc, pos)) || exists j ::
                j in Get(cbType.graph.localJoint, pos) - joint && FreeBeyond(j)
    {
      if joints, s: nat :| FreeWayOut(cbType.graph, src, joint, pos, joints, s) {
        WayOutIsFree(pos, joints, s);
      }
      if s :| s in Get(cbType.graph.localSrc, pos) && IsFreeSrc(s) {
        assert FreeWayOut(cbType.graph, src, joint, pos, [], s);
      }
      if j :| j in Get(cbType.graph.localJoint, pos) - joint && FreeBeyond(j) {
        FreeIsWayOut(pos, j);
      }
    }
  }
}
