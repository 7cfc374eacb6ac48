/** Users of the crossbar indexes in the packer, the loader and the router. */
module CrossbarUses {
  import opened RouteGraph
  import opened Crossbar

  // ---------------------------------------------------------------------------
  // Joints that every way into a local needs (src/fpga/Tile.cpp).
  // ---------------------------------------------------------------------------

  function JointsOf(e: TerminalEntry): (joints: set<nat>)
    ensures forall j: nat :: j in joints <==> j in Via(e.joint2, e.joint)
  {
    if e.joint < 0 then {} else if e.joint2 < 0 then {e.joint} else {e.joint2, e.joint}
  }

  /** An entry whose destination has an incoming wire; an empty filter lets all of them in. */
  ghost predicate IsIncomingEntry(g: Graph, local: nat, incoming: set<nat>, e: TerminalEntry) {
    IsEntry(g, local, e) && (incoming == {} || e.dst in incoming)
  }

  ghost predicate IsMandatory(g: Graph, local: nat, incoming: set<nat>, joint: nat) {
    (exists e :: IsIncomingEntry(g, local, incoming, e)) &&
    forall e :: IsIncomingEntry(g, local, incoming, e) ==> joint in JointsOf(e)
  }

  ghost predicate Common(seen: set<TerminalEntry>, joint: nat) {
    forall e :: e in seen ==> joint in JointsOf(e)
  }

  /** The running intersection over the entries seen so far. */
  ghost predicate IsIntersection(seen: set<TerminalEntry>, mandatory: set<nat>, firstPath: bool) {
    (firstPath <==> seen == {}) && (!firstPath ==> forall j: nat :: Common(seen, j) <==> j in mandatory)
  }

  method IncludePaths(paths: seq<TerminalEntry>, before: set<nat>, first: bool, ghost seen: set<TerminalEntry>)
    returns (mandatory: set<nat>, firstPath: bool, ghost more: set<TerminalEntry>)
    requires IsIntersection(seen, before, first)
    ensures IsIntersection(more, mandatory, firstPath) && forall e :: e in more <==> e in seen || e in paths
  {
    mandatory, firstPath, more := before, first, seen;
    for i := 0 to |paths|
      invariant IsIntersection(more, mandatory, firstPath) && forall e :: e in more <==> e in seen || e in paths[..i]
    {
      IntersectionGrows(more, mandatory, firstPath, paths[i]);
      mandatory := if firstPath then JointsOf(paths[i]) else mandatory * JointsOf(paths[i]);
      firstPath := false;
      more := more + {paths[i]};
      assert paths[..i + 1] == paths[..i] + [paths[i]];
    }
    assert paths[..|paths|] == paths;
  }

  lemma IntersectionGrows(seen: set<TerminalEntry>, mandatory: set<nat>, firstPath: bool, e: TerminalEntry)
    requires IsIntersection(seen, mandatory, firstPath)
    ensures IsIntersection(seen + {e}, if firstPath then JointsOf(e) else mandatory * JointsOf(e), false)
  {
    var more := seen + {e};
    assert e in more;
    forall j: nat
      ensures Common(more, j) <==> Common(seen, j) && j in JointsOf(e)
    {
    }
  }

  /** Stops early once no joint can be mandatory any more; the answer is that of all entries all the same. */
  method MandatoryInputJoints(t: CBType, local: nat, incoming: set<nat>) returns (joints: set<nat>)
    requires t.Valid()
    modifies t
    ensures t.Valid() && t.derivedMasksValid && t.graph == old(t.graph) && (old(t.derivedMasksValid) ==> unchanged(t))
    ensures forall j: nat :: j in joints <==> IsMandatory(t.graph, local, incoming, j)
  {
    t.EnsureDerivedMasks();
    joints := CommonJoints(t, local, incoming);
  }

  method CommonJoints(t: CBType, local: nat, incoming: set<nat>) returns (joints: set<nat>)
    requires t.Valid() && t.derivedMasksValid
    ensures forall j: nat :: j in joints <==> IsMandatory(t.graph, local, incoming, j)
  {
    var mandatory, firstPath := {}, true;
    ghost var seen: set<TerminalEntry> := {};
    for dst := 0 to t.bound
      invariant IsIntersection(seen, mandatory, firstPath)
      invariant forall e :: e in seen <==> e.dst < dst && IsIncomingEntry(t.graph, local, incoming, e)
    {
      t.EntriesAreIndexed(local, dst);
      if dst in Get(t.dstsReachingLocal, local) && (incoming == {} || dst in incoming) {
        var paths := t.AddEntriesOfDst([], local, dst);
        mandatory, firstPath, seen := IncludePaths(paths, mandatory, firstPath, seen);
        if mandatory == {} && !firstPath {
          NoneCommon(t.graph, local, incoming, seen, mandatory);
          return {};
        }
      }
    }
    EntriesWithin(t.graph, t.bound, local);
    AllSeen(t.graph, local, incoming, seen, mandatory, firstPath);
    return if firstPath then {} else mandatory;
  }

  lemma NoneCommon(g: Graph, local: nat, incoming: set<nat>, seen: set<TerminalEntry>, mandatory: set<nat>)
    requires IsIntersection(seen, mandatory, false) && mandatory == {}
    requires forall e :: e in seen ==> IsIncomingEntry(g, local, incoming, e)
    ensures forall j: nat :: !IsMandatory(g, local, incoming, j)
  {
    forall j: nat
      ensures !IsMandatory(g, local, incoming, j)
    {
      assert !Common(seen, j);
      var e :| e in seen && j !in JointsOf(e);
    }
  }

  lemma AllSeen(g: Graph, local: nat, incoming: set<nat>, seen: set<TerminalEntry>, mandatory: set<nat>,
                firstPath: bool)
    requires IsIntersection(seen, mandatory, firstPath)
    requires forall e :: e in seen <==> IsIncomingEntry(g, local, incoming, e)
    ensures forall j: nat :: IsMandatory(g, local, incoming, j) <==> !firstPath && j in mandatory
  {
    assert forall e :: IsIncomingEntry(g, local, incoming, e) ==> e in seen;
    if seen != {} {
      var some :| some in seen;
      assert IsIncomingEntry(g, local, incoming, some);
    }
    forall j: nat
      ensures IsMandatory(g, local, incoming, j) <==> !firstPath && j in mandatory
    {
      assert seen != {} ==> (Common(seen, j) <==> j in mandatory);
    }
  }

  /** Without a filter, a joint is mandatory exactly if there are entries and none avoids it. */
  lemma MandatoryIsUnavoidable(g: Graph, local: nat, joint: nat)
    ensures IsMandatory(g, local, {}, joint) <==>
            (exists e :: IsEntry(g, local, e)) && !exists e :: EntryAvoids(g, local, e, joint)
  {
    if IsMandatory(g, local, {}, joint) {
      var some :| IsIncomingEntry(g, local, {}, some);
      assert IsEntry(g, local, some);
      forall e | IsEntry(g, local, e)
        ensures !EntryAvoids(g, local, e, joint)
      {
        assert IsIncomingEntry(g, local, {}, e);
      }
    } else if exists e :: IsEntry(g, local, e) {
      var some :| IsEntry(g, local, some);
      assert IsIncomingEntry(g, local, {}, some);
      var e :| IsIncomingEntry(g, local, {}, e) && joint !in JointsOf(e);
      assert EntryAvoids(g, local, e, joint);
    }
  }

  // ---------------------------------------------------------------------------
  // Sources that land nowhere (src/fpga/Device.cpp).
  // ---------------------------------------------------------------------------

  ghost predicate Mentioned(g: Graph, src: nat) {
    Get(g.srcJoint, src) != {} || g.LandingsOf(src) != [] ||
    exists n: nat :: NamedAt(g, n, src)
  }

  predicate NamedAt(g: Graph, n: nat, src: nat) {
    Has(g.localSrc, n, src) || Has(g.jointSrc, n, src) || Has(g.dstSrc, n, src)
  }

  function NamedIn(g: Graph, n: nat): (srcs: set<nat>)
    ensures forall s: nat :: s in srcs <==> NamedAt(g, n, s)
  {
    Get(g.localSrc, n) + Get(g.jointSrc, n) + Get(g.dstSrc, n)
  }

  method JumpSourcesUsed(t: CBType) returns (used: set<nat>)
    requires t.graph.Valid(t.bound)
    ensures forall s: nat :: s in used <==> Mentioned(t.graph, s)
  {
    used := {};
    for pos := 0 to t.bound
      invariant forall s: nat :: s in used <==> MentionedBefore(t.graph, s, pos)
    {
      if Get(t.graph.srcJoint, pos) != {} || t.graph.LandingsOf(pos) != [] {
        used := used + {pos};
      }
      MentionedStep(t.graph, pos);
      used := used + NamedIn(t.graph, pos);
    }
    AllMentionedBefore(t.graph, t.bound);
  }

  ghost predicate MentionedBefore(g: Graph, src: nat, pos: nat) {
    (src < pos && (Get(g.srcJoint, src) != {} || g.LandingsOf(src) != [])) ||
    exists n: nat :: n < pos && NamedAt(g, n, src)
  }

  lemma MentionedStep(g: Graph, pos: nat)
    ensures forall s: nat :: MentionedBefore(g, s, pos + 1) <==>
              MentionedBefore(g, s, pos) || (s == pos && (Get(g.srcJoint, pos) != {} || g.LandingsOf(pos) != [])) ||
                NamedAt(g, pos, s)
  {
    forall s: nat
      ensures MentionedBefore(g, s, pos + 1) <==>
              MentionedBefore(g, s, pos) || (s == pos && (Get(g.srcJoint, pos) != {} || g.LandingsOf(pos) != [])) ||
                NamedAt(g, pos, s)
    {
      if n: nat :| n < pos + 1 && NamedAt(g, n, s) {
        assert n < pos || n == pos;
      }
    }
  }

  lemma AllMentionedBefore(g: Graph, bound: nat)
    requires g.Valid(bound)
    ensures forall s: nat :: MentionedBefore(g, s, bound) <==> Mentioned(g, s)
  {
    forall s: nat, n: nat | NamedAt(g, n, s)
      ensures n < bound
    {
    }
  }

  function Without(t: Table, bits: set<nat>): Table {
    map n | n in t :: t[n] - bits
  }

  /** The graph after the sources `gone` are struck from every table that names them. */
  function Pruned(g: Graph, gone: set<nat>): Graph {
    g.(srcJoint := g.srcJoint - gone, localSrc := Without(g.localSrc, gone),
       dstSrc := Without(g.dstSrc, gone), jointSrc := Without(g.jointSrc, gone))
  }

  ghost predicate Unresolved(g: Graph, src: nat) {
    Mentioned(g, src) && g.LandingsOf(src) == []
  }

  /** `after` is `g` without exactly the sources that are named but land nowhere. */
  ghost predicate PrunedBy(g: Graph, gone: set<nat>, after: Graph) {
    (forall s: nat :: s in gone <==> Unresolved(g, s)) && after == Pruned(g, gone)
  }

  method StrikeBits(t: Table, bits: set<nat>) returns (struck: Table)
    ensures struck == Without(t, bits)
  {
    struck := t;
    var rest := t.Keys;
    while rest != {}
      invariant rest <= t.Keys && struck.Keys == t.Keys
      invariant forall n :: n in t ==> struck[n] == if n in rest then t[n] else t[n] - bits
    {
      var node :| node in rest;
      struck := struck[node := struck[node] - bits];
      rest := rest - {node};
    }
  }

  method PruneUnresolvedRouteSources(t: CBType)
    requires t.Valid()
    modifies t
    ensures t.Valid()
    ensures t.graph != old(t.graph) ==>
              t.derivedMasksValid && t.orderedSrcsByTarget == map[] && t.orderedNodeSrcsByTarget == map[]
    ensures unchanged(t) || (t.derivedMasksValid && t.orderedSrcsByTarget == map[])
    ensures exists gone :: PrunedBy(old(t.graph), gone, t.graph)
  {
    ghost var g := t.graph;
    var used := JumpSourcesUsed(t);
    var unresolved: set<nat> := {};
    var srcJoint := t.graph.srcJoint;
    for src := 0 to t.bound
      invariant t.Valid() && t.graph == g
      invariant forall s: nat :: s in unresolved <==> s < src && s in used && g.LandingsOf(s) == []
      invariant srcJoint == g.srcJoint - unresolved
    {
      if src in used && t.graph.LandingsOf(src) == [] {
        unresolved := unresolved + {src};
        srcJoint := srcJoint - {src};
      }
    }
    MentionedWithin(g, t.bound);
    assert forall s: nat :: s in unresolved <==> Unresolved(g, s);
    if unresolved == {} {
      NothingToPrune(g);
      assert PrunedBy(g, unresolved, t.graph);
      return;
    }
    var localSrc := StrikeBits(t.graph.localSrc, unresolved);
    var dstSrc := StrikeBits(t.graph.dstSrc, unresolved);
    var jointSrc := StrikeBits(t.graph.jointSrc, unresolved);
    PrunedIsValid(g, t.bound, unresolved);
    t.Edit(t.graph.(srcJoint := srcJoint, localSrc := localSrc, dstSrc := dstSrc, jointSrc := jointSrc));
    assert PrunedBy(g, unresolved, t.graph);
    t.RebuildOutgoingSrcs();
  }

  lemma PrunedIsValid(g: Graph, bound: nat, gone: set<nat>)
    requires g.Valid(bound)
    ensures Pruned(g, gone).Valid(bound)
  {
  }

  lemma MentionedWithin(g: Graph, bound: nat)
    requires g.Valid(bound)
    ensures forall s: nat :: Mentioned(g, s) ==> s < bound
  {
  }

  lemma NothingToPrune(g: Graph)
    ensures Pruned(g, {}) == g
  {
    WithoutNone(g.localSrc);
    WithoutNone(g.dstSrc);
    WithoutNone(g.jointSrc);
    assert g.srcJoint - {} == g.srcJoint;
  }

  lemma WithoutNone(t: Table)
    ensures Without(t, {}) == t
  {
    forall n | n in t
      ensures t[n] - {} == t[n]
    {
    }
  }

  lemma PrunedEdge(g: Graph, gone: set<nat>, from: Node, to: Node)
    ensures Pruned(g, gone).Edge(from, to) <==> g.Edge(from, to) && !(to.Src? && to.n in gone)
  {
  }

  /** Pruning takes away the routes that end in a struck source and no others. */
  lemma {:induction false} PrunedRoute(g: Graph, gone: set<nat>, from: Node, joints: seq<nat>, to: Node)
    ensures Pruned(g, gone).Route(from, joints, to) <==> g.Route(from, joints, to) && !(to.Src? && to.n in gone)
    decreases |joints|
  {
    if joints == [] {
      PrunedEdge(g, gone, from, to);
    } else {
      PrunedEdge(g, gone, from, Joint(joints[0]));
      PrunedRoute(g, gone, Joint(joints[0]), joints[1..], to);
    }
  }

  /**
   After pruning every source a route can name has a landing, the routes to sources with a
   landing and into locals are exactly those of before, and there is none to the others.
   */
  lemma PruningKeepsMeaning(g: Graph, gone: set<nat>)
    requires forall s: nat :: s in gone <==> Unresolved(g, s)
    ensures forall s: nat :: Mentioned(Pruned(g, gone), s) ==> g.LandingsOf(s) != []
    ensures forall from: Node, s: nat :: Pruned(g, gone).Reachable(from, Src(s)) <==>
              g.Reachable(from, Src(s)) && g.LandingsOf(s) != []
    ensures forall from: Node, l: nat :: Pruned(g, gone).Reachable(from, Local(l)) <==> g.Reachable(from, Local(l))
  {
    var p := Pruned(g, gone);
    forall s: nat | Mentioned(p, s)
      ensures g.LandingsOf(s) != []
    {
      MentionedAfterPruning(g, gone, s);
    }
    forall from: Node, to: Node
      ensures p.Reachable(from, to) <==> g.Reachable(from, to) && !(to.Src? && to.n in gone)
    {
      PrunedReachable(g, gone, from, to);
    }
    forall from: Node, s: nat | g.Reachable(from, Src(s))
      ensures Mentioned(g, s)
    {
      ReachedIsMentioned(g, from, s);
    }
  }

  lemma StruckBits(t: Table, gone: set<nat>)
    ensures forall n: nat, s: nat :: Has(Without(t, gone), n, s) <==> Has(t, n, s) && s !in gone
  {
  }

  lemma MentionedAfterPruning(g: Graph, gone: set<nat>, s: nat)
    ensures Mentioned(Pruned(g, gone), s) ==> Mentioned(g, s) && (s in gone ==> g.LandingsOf(s) != [])
  {
    StruckBits(g.localSrc, gone);
    StruckBits(g.jointSrc, gone);
    StruckBits(g.dstSrc, gone);
    if n: nat :| NamedAt(Pruned(g, gone), n, s) {
      assert NamedAt(g, n, s) && s !in gone;
    }
  }

  lemma PrunedReachable(g: Graph, gone: set<nat>, from: Node, to: Node)
    ensures Pruned(g, gone).Reachable(from, to) <==> g.Reachable(from, to) && !(to.Src? && to.n in gone)
  {
    var p := Pruned(g, gone);
    if p.Reachable(from, to) {
      var joints :| |joints| <= 2 && p.Route(from, joints, to);
      PrunedRoute(g, gone, from, joints, to);
    }
    if g.Reachable(from, to) && !(to.Src? && to.n in gone) {
      var joints :| |joints| <= 2 && g.Route(from, joints, to);
      PrunedRoute(g, gone, from, joints, to);
    }
  }

  lemma ReachedIsMentioned(g: Graph, from: Node, s: nat)
    requires g.Reachable(from, Src(s))
    ensures Mentioned(g, s)
  {
    ReachableShapes(g, from, Src(s));
    var last: Node :| g.Edge(last, Src(s));
    LastEdgeMentions(g, last, s);
  }

  lemma LastEdgeMentions(g: Graph, last: Node, s: nat)
    requires g.Edge(last, Src(s))
    ensures Mentioned(g, s)
  {
    if last.Joint? && Has(g.srcJoint, s, last.n) {
      assert last.n in Get(g.srcJoint, s);
    } else {
      assert NamedAt(g, last.n, s);
    }
  }

  // ---------------------------------------------------------------------------
  // The list of a joint, and what it misses.
  // ---------------------------------------------------------------------------

  /** The list of a joint misses a reachable source exactly when only the reverse table links the two. */
  lemma JointListMisses(g: Graph, joint: nat, src: nat)
    ensures g.Reachable(Joint(joint), Src(src)) && !ListedForJoint(g, joint, src) <==>
            Has(g.srcJoint, src, joint) && !Has(g.jointSrc, joint, src) &&
            !OneJoint(g, Joint(joint), Src(src)) && !TwoJoints(g, Joint(joint), Src(src))
    ensures ListedForJoint(g, joint, src) ==> g.Reachable(Joint(joint), Src(src))
  {
    ReachableShapes(g, Joint(joint), Src(src));
  }

  lemma JointListMissesReverseLink()
    ensures var g := Graph(map[], map[], map[5 := {3}], map[], map[], map[], map[], map[], map[], map[]);
            g.Reachable(Joint(3), Src(5)) && !ListedForJoint(g, 3, 5)
  {
    var g := Graph(map[], map[], map[5 := {3}], map[], map[], map[], map[], map[], map[], map[]);
    assert g.Edge(Joint(3), Src(5));
    JointListMisses(g, 3, 5);
  }
}
