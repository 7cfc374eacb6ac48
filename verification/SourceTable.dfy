/** The cached source orders of a crossbar and the walk over the free candidates (src/fpga/Crossbar.cpp). */
module SourceTable {
  import opened AngleOrder
  import opened Common
  import opened Crossbar
  import opened JumpBuckets
  import opened RouteGraph
  import opened SourceOrder

  // ---------------------------------------------------------------------------
  // Walking the candidates.
  // ---------------------------------------------------------------------------

  function FreeOf(list: seq<nat>, free: set<nat>): seq<nat> {
    if list == [] then []
    else if list[0] in free then [list[0]] + FreeOf(list[1..], free)
    else FreeOf(list[1..], free)
  }

  /** The first free candidate after `curr`; after nothing at all when `curr` is negative. */
  function NextFree(list: seq<nat>, free: set<nat>, curr: int): int {
    if curr >= 0 then
      if list == [] then -1
      else if list[0] == curr then NextFree(list[1..], free, -1)
      else NextFree(list[1..], free, curr)
    else if FreeOf(list, free) == [] then -1
    else FreeOf(list, free)[0]
  }

  lemma {:induction false} NextFreeAfter(list: seq<nat>, free: set<nat>, at: nat)
    requires at < |list| && forall i :: 0 <= i < at ==> list[i] != list[at]
    ensures NextFree(list, free, list[at]) == NextFree(list[at + 1..], free, -1)
  {
    if at > 0 {
      assert list[1..][at - 1] == list[at] && list[1..][at..] == list[at + 1..];
      NextFreeAfter(list[1..], free, at - 1);
    }
  }

  /** A number that is not a candidate ends the walk, even if there are free candidates. */
  lemma {:induction false} NextFreeOfStranger(list: seq<nat>, free: set<nat>, curr: nat)
    requires curr !in list
    ensures NextFree(list, free, curr) == -1
  {
    if list != [] {
      NextFreeOfStranger(list[1..], free, curr);
    }
  }

  lemma {:induction false} FreeAt(list: seq<nat>, free: set<nat>) returns (at: nat)
    requires FreeOf(list, free) != []
    ensures at < |list| && list[at] in free && FreeOf(list, free) == [list[at]] + FreeOf(list[at + 1..], free)
  {
    if list[0] in free {
      at := 0;
    } else {
      var before := FreeAt(list[1..], free);
      at := before + 1;
      assert list[1..][before + 1..] == list[at + 1..];
    }
  }

  /** One turn of the walk: `next` is the first free candidate from position `at` on. */
  lemma NextFreeStep(list: seq<nat>, free: set<nat>, tried: seq<nat>, at: nat, next: int) returns (after: nat)
    requires at <= |list| && next >= 0 && next == NextFree(list[at..], free, -1)
    requires forall i, j :: 0 <= i < j < |list| ==> list[i] != list[j]
    requires tried + FreeOf(list[at..], free) == FreeOf(list, free)
    ensures at < after <= |list| && NextFree(list, free, next) == NextFree(list[after..], free, -1)
    ensures tried + [next] + FreeOf(list[after..], free) == FreeOf(list, free)
  {
    var step := FreeAt(list[at..], free);
    after := at + step + 1;
    assert list[at..][step] == list[at + step] && list[at..][step + 1..] == list[after..];
    NextFreeAfter(list, free, at + step);
    assert tried + [next] + FreeOf(list[after..], free) == tried + ([next] + FreeOf(list[after..], free));
  }

  lemma {:induction false} FreeOfMembers(list: seq<nat>, free: set<nat>)
    requires NoDup(list)
    ensures NoDup(FreeOf(list, free)) && forall s: nat :: s in FreeOf(list, free) <==> s in list && s in free
  {
    if list != [] {
      FreeOfMembers(list[1..], free);
      assert list == [list[0]] + list[1..];
      assert list[0] !in list[1..];
    }
  }

  method WalkToNext(list: seq<nat>, free: set<nat>, curr: int) returns (next: int)
    ensures next == NextFree(list, free, curr)
  {
    var pastCurr := curr < 0;
    for i := 0 to |list|
      invariant NextFree(list, free, curr) == NextFree(list[i..], free, if pastCurr then -1 else curr)
      invariant !pastCurr ==> curr >= 0
    {
      assert list[i..][0] == list[i] && list[i..][1..] == list[i + 1..];
      if !pastCurr {
        if list[i] == curr {
          pastCurr := true;
        }
      } else if list[i] in free {
        return list[i];
      }
    }
    assert list[|list|..] == [];
    return -1;
  }

  // ---------------------------------------------------------------------------
  // The cached lists.
  // ---------------------------------------------------------------------------

  method ValidSrcs(cb: CBType) returns (valid: set<nat>)
    requires cb.Valid() && cb.derivedMasksValid
    ensures cb.IsValidSet(valid)
    ensures forall s :: s in valid ==> s < cb.bound
  {
    valid := {};
    for s := 0 to cb.bound
      invariant forall n: nat :: n in valid <==> n < s && cb.graph.LandingsOf(n) != []
    {
      if cb.graph.LandingsOf(s) != [] {
        valid := valid + {s};
      }
    }
    ghost var landing := valid;
    var rest := cb.outgoingSrcs.Keys;
    while rest != {}
      invariant rest <= cb.outgoingSrcs.Keys
      invariant forall n: nat :: n in valid <==>
                  n in landing || exists key :: key in cb.outgoingSrcs && key !in rest && Lists(cb.outgoingSrcs, key, n)
    {
      var key :| key in rest;
      valid := valid + set s | s in cb.outgoingSrcs[key];
      forall n: nat
        ensures Lists(cb.outgoingSrcs, key, n) <==> n in cb.outgoingSrcs[key]
      {
      }
      rest := rest - {key};
    }
    ListedWithinBound(cb);
  }

  lemma ListedWithinBound(cb: CBType)
    requires cb.Valid() && cb.derivedMasksValid
    ensures forall key, s: nat :: Lists(cb.outgoingSrcs, key, s) ==> s < cb.bound && key in cb.outgoingSrcs
  {
    forall key, s: nat | Lists(cb.outgoingSrcs, key, s)
      ensures s < cb.bound && key in cb.outgoingSrcs
    {
      var from := match key.role
        case LocalRole => Local(key.node)
        case DstRole => Dst(key.node)
        case _ => Joint(key.node);
      assert key == RoleKey(key.role, key.node);
      ReachableShapes(cb.graph, from, Src(s));
      assert cb.graph.Reachable(from, Src(s));
      ReachableWithin(cb.graph, cb.bound, from, Src(s));
    }
  }

  lemma ListedMeaning(cb: CBType, role: Role, value: nat)
    requires cb.Valid() && cb.derivedMasksValid
    ensures forall s: nat :: Lists(cb.outgoingSrcs, RoleKey(role, value), s) <==> LeadsTo(cb.graph, role, value, s)
  {
    match role
    case LocalRole =>
    case DstRole =>
    case JointRole =>
    case JumpRole => assert Listed(cb.outgoingSrcs, RoleKey(JumpRole, value)) == [];
    case SrcRole => assert Listed(cb.outgoingSrcs, RoleKey(SrcRole, value)) == [];
  }

  /** With valid indexes the full list holds the usable sources of the graph and no others. */
  lemma TargetListMembers(cb: CBType, t: Bucket, list: seq<nat>)
    requires cb.Valid() && cb.derivedMasksValid && cb.IsTargetList(t, list)
    ensures NoDup(list) && forall s: nat :: s in list <==> IsUsable(cb.graph, s)
  {
    TargetListIsUnique(cb, t, list, list);
    var valid :| cb.IsValidSet(valid) && IsDirectionOrder(cb.graph, t, valid, list);
    forall s: nat
      ensures s in list <==> IsUsable(cb.graph, s)
    {
      assert s in list <==> cb.IsValidSrc(s);
      if key :| Lists(cb.outgoingSrcs, key, s) {
        ListedMeaning(cb, key.role, key.node);
        assert key == RoleKey(key.role, key.node);
      }
      if role, value: nat :| LeadsTo(cb.graph, role, value, s) {
        ListedMeaning(cb, role, value);
      }
    }
  }

  /** Exactly the sources that a node leads to, each once. */
  ghost predicate IsListOf(g: Graph, role: Role, value: nat, list: seq<nat>) {
    NoDup(list) && forall s: nat :: s in list <==> LeadsTo(g, role, value, s)
  }

  /** With valid indexes the list of a node holds the sources that the node leads to and no others. */
  lemma NodeListMembers(cb: CBType, t: Bucket, role: Role, value: nat, list: seq<nat>)
    requires cb.Valid() && cb.derivedMasksValid && cb.IsNodeList(t, role, value, list)
    ensures IsListOf(cb.graph, role, value, list)
  {
    ListedMeaning(cb, role, value);
    DirectionOrderNoDup(cb.graph, t, (set s | s in Listed(cb.outgoingSrcs, RoleKey(role, value))), list);
    forall s: nat
      ensures s in list <==> LeadsTo(cb.graph, role, value, s)
    {
      assert s in list <==> Lists(cb.outgoingSrcs, RoleKey(role, value), s);
    }
  }

  /** The list of a node is what remains of the full list when all that the node does not lead to is left out. */
  lemma NodeListIsSubsequence(cb: CBType, t: Bucket, role: Role, value: nat, all: seq<nat>, list: seq<nat>)
    requires cb.IsTargetList(t, all) && cb.IsNodeList(t, role, value, list)
    ensures list == Kept(all, set s | s in Listed(cb.outgoingSrcs, RoleKey(role, value)))
  {
    var mask := set s | s in Listed(cb.outgoingSrcs, RoleKey(role, value));
    KeptIsNodeList(cb, t, role, value, all);
    DirectionOrderIsUnique(cb.graph, t, mask, list, Kept(all, mask));
  }

  /** A direction and a crossbar leave only one list. */
  lemma TargetListIsUnique(cb: CBType, t: Bucket, a: seq<nat>, b: seq<nat>)
    requires cb.IsTargetList(t, a) && cb.IsTargetList(t, b)
    ensures a == b && NoDup(a)
  {
    var valid :| cb.IsValidSet(valid) && IsDirectionOrder(cb.graph, t, valid, a);
    var valid' :| cb.IsValidSet(valid') && IsDirectionOrder(cb.graph, t, valid', b);
    assert valid == valid';
    DirectionOrderIsUnique(cb.graph, t, valid, a, b);
    DirectionOrderNoDup(cb.graph, t, valid, a);
  }

  /** Keeping a list for a direction touches no other direction. */
  lemma DirectionIsOwn(t: Bucket)
    requires IsDirection(t)
    ensures forall t' :: IsDirection(t') && DirectionIndex(t') == DirectionIndex(t) ==> t' == t
  {
    forall t' | IsDirection(t') && DirectionIndex(t') == DirectionIndex(t)
      ensures t' == t
    {
      DirectionIndexInjective(t', t);
    }
  }

  method Remember(cb: CBType, t: Bucket, list: seq<nat>)
    requires cb.Valid() && cb.derivedMasksValid && IsDirection(t) && cb.IsTargetList(t, list)
    modifies cb`orderedSrcsByTarget
    ensures cb.Valid() && cb.orderedSrcsByTarget == old(cb.orderedSrcsByTarget)[DirectionIndex(t) := list]
  {
    DirectionIsOwn(t);
    TargetListIsUnique(cb, t, list, list);
    cb.orderedSrcsByTarget := cb.orderedSrcsByTarget[DirectionIndex(t) := list];
  }

  ghost predicate IsCached(cb: CBType, dx: int, dy: int)
    reads cb`orderedSrcsByTarget
  {
    DirectionIndex(TargetBucket(dx, dy)) in cb.orderedSrcsByTarget
  }

  ghost predicate Caches(cb: CBType, dx: int, dy: int, list: seq<nat>)
    reads cb`orderedSrcsByTarget
  {
    IsCached(cb, dx, dy) && cb.orderedSrcsByTarget[DirectionIndex(TargetBucket(dx, dy))] == list
  }

  /**
   All valid sources, each once, in the angular order around the quantised direction. What is
   cached is returned as it is, even if the connections were edited since.
   */
  method OrderedSrcNodes(cb: CBType, dx: int, dy: int) returns (list: seq<nat>)
    requires cb.Valid()
    modifies cb
    ensures cb.Valid() && cb.graph == old(cb.graph) && NoDup(list) && Caches(cb, dx, dy, list)
    ensures old(IsCached(cb, dx, dy)) ==> old(Caches(cb, dx, dy, list)) && unchanged(cb)
    ensures old(cb.derivedMasksValid) || !old(IsCached(cb, dx, dy)) ==>
              cb.derivedMasksValid && cb.IsTargetList(TargetBucket(dx, dy), list) &&
              forall s: nat :: s in list <==> IsUsable(cb.graph, s)
    ensures old(cb.derivedMasksValid) ==>
              unchanged(cb`outgoingSrcs) && unchanged(cb`orderedNodeSrcsByTarget)
  {
    if DirectionIndex(TargetBucket(dx, dy)) !in cb.orderedSrcsByTarget {
      cb.EnsureDerivedMasks();
    }
    list := CachedOrBuilt(cb, dx, dy);
    if cb.derivedMasksValid {
      TargetListMembers(cb, TargetBucket(dx, dy), list);
    }
  }

  /** The list for a direction, from the cache or from valid indexes. */
  method CachedOrBuilt(cb: CBType, dx: int, dy: int) returns (list: seq<nat>)
    requires cb.Valid() && (cb.derivedMasksValid || IsCached(cb, dx, dy))
    modifies cb`orderedSrcsByTarget
    ensures cb.Valid() && NoDup(list) && Caches(cb, dx, dy, list)
    ensures old(IsCached(cb, dx, dy)) ==> unchanged(cb)
    ensures cb.derivedMasksValid ==> cb.IsTargetList(TargetBucket(dx, dy), list)
  {
    var t := TargetBucket(dx, dy);
    TargetWithinTable(dx, dy);
    var key := DirectionIndex(t);
    if key in cb.orderedSrcsByTarget {
      return cb.orderedSrcsByTarget[key];
    }
    list := ListForTarget(cb, t);
    TargetListIsUnique(cb, t, list, list);
    Remember(cb, t, list);
  }

  method ListForTarget(cb: CBType, t: Bucket) returns (list: seq<nat>)
    requires cb.Valid() && cb.derivedMasksValid
    ensures cb.IsTargetList(t, list)
  {
    var valid := ValidSrcs(cb);
    var order := PriorityBucketOrder(t);
    list := OrderSources(cb.graph, order, cb.prioritySrcsByDelta, valid, cb.bound);
    assert IsDirectionOrder(cb.graph, t, valid, list);
  }

  /**
   A lookup by node that the source defines: while the masks are stale it must not come to a
   rebuild, which would drop the entry that the lookup is filling.
   */
  ghost predicate IsDefined(cb: CBType, role: Role, value: int, dx: int, dy: int)
    reads cb
  {
    cb.derivedMasksValid || value < 0 || value >= cb.bound ||
    NodeKey(DirectionIndex(TargetBucket(dx, dy)), role, value) in cb.orderedNodeSrcsByTarget ||
    IsCached(cb, dx, dy) || Listed(cb.outgoingSrcs, RoleKey(role, value)) == []
  }

  ghost predicate IsCachedForNode(cb: CBType, role: Role, value: nat, dx: int, dy: int)
    reads cb`orderedNodeSrcsByTarget
  {
    NodeKey(DirectionIndex(TargetBucket(dx, dy)), role, value) in cb.orderedNodeSrcsByTarget
  }

  ghost predicate CachesForNode(cb: CBType, role: Role, value: nat, dx: int, dy: int, list: seq<nat>)
    reads cb`orderedNodeSrcsByTarget
  {
    IsCachedForNode(cb, role, value, dx, dy) &&
    cb.orderedNodeSrcsByTarget[NodeKey(DirectionIndex(TargetBucket(dx, dy)), role, value)] == list
  }

  /** What the list for the direction, as it is cached, keeps of the sources listed for the node. */
  ghost predicate IsFiltered(cb: CBType, role: Role, value: nat, dx: int, dy: int, list: seq<nat>)
    reads cb`orderedSrcsByTarget, cb`outgoingSrcs
  {
    var reachable := Listed(cb.outgoingSrcs, RoleKey(role, value));
    if reachable == [] then list == []
    else exists all :: Caches(cb, dx, dy, all) && list == Kept(all, set s | s in reachable)
  }

  /**
   The sources one node leads to, in that same order. What is cached for the node is returned as it
   is, otherwise the list for the direction is filtered; the indexes stay as valid, or stale, as they are.
   */
  method OrderedNodeSrcNodes(cb: CBType, role: Role, value: int, dx: int, dy: int) returns (list: seq<nat>)
    requires cb.Valid() && IsDefined(cb, role, value, dx, dy)
    modifies cb`orderedSrcsByTarget, cb`orderedNodeSrcsByTarget
    ensures cb.Valid()
    ensures value < 0 || value >= cb.bound ==> list == [] && unchanged(cb)
    ensures 0 <= value < cb.bound ==> CachesForNode(cb, role, value, dx, dy, list)
    ensures 0 <= value < cb.bound && old(IsCachedForNode(cb, role, value, dx, dy)) ==>
              old(CachesForNode(cb, role, value, dx, dy, list))
    ensures 0 <= value < cb.bound && !old(IsCachedForNode(cb, role, value, dx, dy)) ==>
              IsFiltered(cb, role, value, dx, dy, list)
    ensures 0 <= value < cb.bound && cb.derivedMasksValid ==>
              cb.IsNodeList(TargetBucket(dx, dy), role, value, list) && IsListOf(cb.graph, role, value, list)
  {
    if value < 0 || value >= cb.bound {
      return [];
    }
    list := NodeList(cb, role, value, dx, dy);
    if cb.derivedMasksValid {
      NodeListMembers(cb, TargetBucket(dx, dy), role, value, list);
    }
  }

  method NodeList(cb: CBType, role: Role, value: nat, dx: int, dy: int) returns (list: seq<nat>)
    requires cb.Valid() && value < cb.bound && IsDefined(cb, role, value, dx, dy)
    modifies cb`orderedSrcsByTarget, cb`orderedNodeSrcsByTarget
    ensures cb.Valid() && CachesForNode(cb, role, value, dx, dy, list)
    ensures old(IsCachedForNode(cb, role, value, dx, dy)) ==> old(CachesForNode(cb, role, value, dx, dy, list))
    ensures !old(IsCachedForNode(cb, role, value, dx, dy)) ==> IsFiltered(cb, role, value, dx, dy, list)
    ensures cb.derivedMasksValid ==> cb.IsNodeList(TargetBucket(dx, dy), role, value, list)
  {
    TargetWithinTable(dx, dy);
    var key := NodeKey(DirectionIndex(TargetBucket(dx, dy)), role, value);
    if key in cb.orderedNodeSrcsByTarget {
      return cb.orderedNodeSrcsByTarget[key];
    }
    list := FilterForNode(cb, role, value, dx, dy);
    RememberForNode(cb, TargetBucket(dx, dy), role, value, list);
  }

  method FilterForNode(cb: CBType, role: Role, value: nat, dx: int, dy: int) returns (list: seq<nat>)
    requires cb.Valid() && value < cb.bound && IsDirection(TargetBucket(dx, dy))
    requires cb.derivedMasksValid || IsCached(cb, dx, dy) || Listed(cb.outgoingSrcs, RoleKey(role, value)) == []
    modifies cb`orderedSrcsByTarget
    ensures cb.Valid() && IsFiltered(cb, role, value, dx, dy, list)
    ensures cb.derivedMasksValid ==> cb.IsNodeList(TargetBucket(dx, dy), role, value, list)
  {
    var t := TargetBucket(dx, dy);
    var reachable := Listed(cb.outgoingSrcs, RoleKey(role, value));
    if reachable == [] {
      var order := PriorityBucketOrder(t);
      EmptyNodeList(cb, t, role, value, order);
      return [];
    }
    var all := CachedOrBuilt(cb, dx, dy);
    list := Filtered(cb, t, role, value, reachable, all);
  }

  method RememberForNode(cb: CBType, t: Bucket, role: Role, value: nat, list: seq<nat>)
    requires cb.Valid() && IsDirection(t) && value < cb.bound
    requires cb.derivedMasksValid ==> cb.IsNodeList(t, role, value, list)
    modifies cb`orderedNodeSrcsByTarget
    ensures cb.Valid()
    ensures cb.orderedNodeSrcsByTarget ==
              old(cb.orderedNodeSrcsByTarget)[NodeKey(DirectionIndex(t), role, value) := list]
  {
    KeyIsOwn(cb, t, role, value);
    cb.orderedNodeSrcsByTarget := cb.orderedNodeSrcsByTarget[NodeKey(DirectionIndex(t), role, value) := list];
  }

  lemma EmptyNodeList(cb: CBType, t: Bucket, role: Role, value: nat, order: seq<Bucket>)
    requires IsPriorityOrder(order, t) && Listed(cb.outgoingSrcs, RoleKey(role, value)) == []
    ensures cb.IsNodeList(t, role, value, [])
  {
    assert IsSourceOrder(cb.graph, order, {}, []);
    assert (set s | s in Listed(cb.outgoingSrcs, RoleKey(role, value))) == {};
  }

  lemma KeyIsOwn(cb: CBType, t: Bucket, role: Role, value: nat)
    requires IsDirection(t) && value < cb.bound <= 4096
    ensures forall t', role', value': nat ::
              (IsDirection(t') && value' < cb.bound &&
                NodeKey(DirectionIndex(t'), role', value') == NodeKey(DirectionIndex(t), role, value)) ==>
              t' == t && role' == role && value' == value
  {
    forall t', role', value': nat | IsDirection(t') && value' < cb.bound &&
      NodeKey(DirectionIndex(t'), role', value') == NodeKey(DirectionIndex(t), role, value)
      ensures t' == t && role' == role && value' == value
    {
      NodeKeyInjective(DirectionIndex(t'), role', value', DirectionIndex(t), role, value);
      DirectionIndexInjective(t', t);
    }
  }

  /** The reachable sources of the full list; none is missing from it, and their order stays. */
  method Filtered(cb: CBType, t: Bucket, role: Role, value: nat, reachable: seq<nat>, all: seq<nat>)
    returns (list: seq<nat>)
    requires cb.Valid()
    ensures list == Kept(all, set s | s in reachable)
    ensures cb.IsTargetList(t, all) && reachable == Listed(cb.outgoingSrcs, RoleKey(role, value)) ==>
              cb.IsNodeList(t, role, value, list)
  {
    var mask := set s | s in reachable;
    list := [];
    for i := 0 to |all|
      invariant list == Kept(all[..i], mask)
    {
      assert all[..i + 1][..i] == all[..i];
      if all[i] in mask {
        list := list + [all[i]];
      }
    }
    assert all[..|all|] == all;
    if cb.IsTargetList(t, all) && reachable == Listed(cb.outgoingSrcs, RoleKey(role, value)) {
      KeptIsNodeList(cb, t, role, value, all);
    }
  }

  function Kept(all: seq<nat>, mask: set<nat>): seq<nat> {
    if all == [] then []
    else Kept(all[..|all| - 1], mask) + if all[|all| - 1] in mask then [all[|all| - 1]] else []
  }

  lemma {:induction false} KeptIsRanked(g: Graph, order: seq<Bucket>, all: seq<nat>, mask: set<nat>)
    requires Ranked(g, order, all)
    ensures Ranked(g, order, Kept(all, mask)) && forall s: nat :: s in Kept(all, mask) <==> s in all && s in mask
  {
    if all != [] {
      var front, last := all[..|all| - 1], all[|all| - 1];
      KeptIsRanked(g, order, front, mask);
      assert all == front + [last];
      forall x | x in Kept(front, mask)
        ensures SourceRankOf(g, x, order).Before(SourceRankOf(g, last, order))
      {
        var k :| 0 <= k < |front| && front[k] == x;
        assert all[k] == x && all[|all| - 1] == last;
      }
      if last in mask {
        RankedPush(g, order, Kept(front, mask), last);
      }
    }
  }

  lemma KeptIsNodeList(cb: CBType, t: Bucket, role: Role, value: nat, all: seq<nat>)
    requires cb.IsTargetList(t, all)
    ensures cb.IsNodeList(t, role, value, Kept(all, set s | s in Listed(cb.outgoingSrcs, RoleKey(role, value))))
  {
    var mask := set s | s in Listed(cb.outgoingSrcs, RoleKey(role, value));
    var valid :| cb.IsValidSet(valid) && IsDirectionOrder(cb.graph, t, valid, all);
    var order :| IsPriorityOrder(order, t) && IsSourceOrder(cb.graph, order, valid, all);
    KeptIsRanked(cb.graph, order, all, mask);
    forall s: nat | s in mask
      ensures s in all
    {
      assert Lists(cb.outgoingSrcs, RoleKey(role, value), s);
    }
    assert IsSourceOrder(cb.graph, order, mask, Kept(all, mask));
  }
}
