/** The route bindings of a net and their two lazily rebuilt hash indexes (src/rtl/Net.h). */
module RouteBindings {

  /** What a lookup compares: both instances, both ports and the route name. */
  datatype Key = Key(from: nat, to: nat, fromPort: string, toPort: string, routeName: string)

  datatype Binding = Binding(key: Key, owner: nat, routeIndex: nat, routeId: nat)

  datatype Lookup = Lookup(index: nat, count: nat)

  /** The largest size_t, which stands for "no index" and for "no size". */
  const NPOS: nat := 0xffff_ffff_ffff_ffff

  // ---------------------------------------------------------------------------
  // Linear scans: the reference definitions.
  // ---------------------------------------------------------------------------

  function Count(routes: seq<Binding>, p: Binding -> bool): nat {
    if routes == [] then 0
    else Count(routes[..|routes| - 1], p) + if p(routes[|routes| - 1]) then 1 else 0
  }

  function First(routes: seq<Binding>, p: Binding -> bool): nat {
    if routes == [] then NPOS
    else
      var before := First(routes[..|routes| - 1], p);
      if before != NPOS then before else if p(routes[|routes| - 1]) then |routes| - 1 else NPOS
  }

  function Last(routes: seq<Binding>, p: Binding -> bool): nat {
    if routes == [] then NPOS
    else if p(routes[|routes| - 1]) then |routes| - 1
    else Last(routes[..|routes| - 1], p)
  }

  function ByKey(key: Key): Binding -> bool {
    (b: Binding) => b.key == key
  }

  function ByHash(hash: Key -> nat, h: nat): Binding -> bool {
    (b: Binding) => hash(b.key) == h
  }

  function ById(id: nat): Binding -> bool {
    (b: Binding) => b.routeId == id
  }

  function Scan(routes: seq<Binding>, key: Key): Lookup {
    Lookup(First(routes, ByKey(key)), Count(routes, ByKey(key)))
  }

  function IndexOfId(routes: seq<Binding>, id: nat): nat {
    if id == 0 then NPOS else Last(routes, ById(id))
  }

  lemma {:induction false} ScanMeaning(routes: seq<Binding>, p: Binding -> bool)
    requires |routes| < NPOS
    ensures First(routes, p) == NPOS <==> forall i :: 0 <= i < |routes| ==> !p(routes[i])
    ensures First(routes, p) != NPOS ==> First(routes, p) < |routes| && p(routes[First(routes, p)])
    ensures forall i :: 0 <= i < |routes| && i < First(routes, p) ==> !p(routes[i])
    ensures Count(routes, p) == 0 <==> First(routes, p) == NPOS
  {
    if routes != [] {
      ScanMeaning(routes[..|routes| - 1], p);
    }
  }

  lemma {:induction false} LastMeaning(routes: seq<Binding>, p: Binding -> bool)
    requires |routes| < NPOS
    ensures Last(routes, p) == NPOS <==> forall i :: 0 <= i < |routes| ==> !p(routes[i])
    ensures Last(routes, p) != NPOS ==> Last(routes, p) < |routes| && p(routes[Last(routes, p)])
    ensures forall i :: 0 <= i < |routes| && Last(routes, p) != NPOS && Last(routes, p) < i ==> !p(routes[i])
  {
    if routes != [] {
      LastMeaning(routes[..|routes| - 1], p);
    }
  }

  /** Of two nested conditions, the wider met exactly once: the narrower then has the same first and count. */
  lemma {:induction false} OnlyCandidate(routes: seq<Binding>, narrow: Binding -> bool, wide: Binding -> bool)
    requires |routes| < NPOS
    requires forall b :: narrow(b) ==> wide(b)
    requires Count(routes, wide) == 1
    requires First(routes, wide) < |routes| && narrow(routes[First(routes, wide)])
    ensures First(routes, narrow) == First(routes, wide) && Count(routes, narrow) == 1
  {
    var front := routes[..|routes| - 1];
    ScanMeaning(front, wide);
    ScanMeaning(front, narrow);
    if wide(routes[|routes| - 1]) {
      assert Count(front, wide) == 0;
    } else {
      OnlyCandidate(front, narrow, wide);
    }
  }

  // ---------------------------------------------------------------------------
  // The bindings as a value: the meaning of the operations that change them.
  // ---------------------------------------------------------------------------

  datatype Bindings = Bindings(routes: seq<Binding>, nextId: nat)

  function Appended(s: Bindings, b: Binding): Bindings {
    if b.routeId == 0
    then Bindings(s.routes + [b.(routeId := s.nextId)], s.nextId + 1)
    else Bindings(s.routes + [b], if s.nextId < b.routeId + 1 then b.routeId + 1 else s.nextId)
  }

  function Erased(s: Bindings, index: nat): Bindings {
    if index >= |s.routes| then s else s.(routes := s.routes[..index] + s.routes[index + 1..])
  }

  function Named(s: Bindings, index: nat): Bindings {
    if index >= |s.routes| || s.routes[index].routeId != 0 then s
    else Bindings(s.routes[index := s.routes[index].(routeId := s.nextId)], s.nextId + 1)
  }

  ghost predicate IsHashEntry(lookup: map<nat, Lookup>, routes: seq<Binding>, hash: Key -> nat, h: nat) {
    if h in lookup
    then Count(routes, ByHash(hash, h)) > 0 &&
         lookup[h] == Lookup(First(routes, ByHash(hash, h)), Count(routes, ByHash(hash, h)))
    else Count(routes, ByHash(hash, h)) == 0
  }

  ghost predicate IsHashIndex(lookup: map<nat, Lookup>, routes: seq<Binding>, hash: Key -> nat) {
    forall h :: IsHashEntry(lookup, routes, hash, h)
  }

  ghost predicate IsIdEntry(lookup: map<nat, nat>, routes: seq<Binding>, id: nat) {
    (if id in lookup then lookup[id] else NPOS) == IndexOfId(routes, id) && (id in lookup ==> lookup[id] != NPOS)
  }

  ghost predicate IsIdIndex(lookup: map<nat, nat>, routes: seq<Binding>) {
    forall id :: id != 0 ==> IsIdEntry(lookup, routes, id)
  }

  /** `emplace` of a hash, or one more on its count: what both rebuilding and appending do. */
  function WithHash(lookup: map<nat, Lookup>, h: nat, index: nat): map<nat, Lookup> {
    if h in lookup then lookup[h := Lookup(lookup[h].index, lookup[h].count + 1)]
    else lookup[h := Lookup(index, 1)]
  }

  lemma HashIndexGrows(lookup: map<nat, Lookup>, routes: seq<Binding>, b: Binding, hash: Key -> nat)
    requires |routes| < NPOS && IsHashIndex(lookup, routes, hash)
    ensures IsHashIndex(WithHash(lookup, hash(b.key), |routes|), routes + [b], hash)
  {
    var more := WithHash(lookup, hash(b.key), |routes|);
    forall h
      ensures IsHashEntry(more, routes + [b], hash, h)
    {
      assert IsHashEntry(lookup, routes, hash, h);
      assert (routes + [b])[..|routes + [b]| - 1] == routes;
      ScanMeaning(routes, ByHash(hash, h));
    }
  }

  lemma IdIndexGrows(lookup: map<nat, nat>, routes: seq<Binding>, b: Binding)
    requires |routes| < NPOS && IsIdIndex(lookup, routes)
    ensures IsIdIndex(if b.routeId == 0 then lookup else lookup[b.routeId := |routes|], routes + [b])
    ensures IsIdIndex(lookup[b.routeId := |routes|], routes + [b])
  {
    var longer, more := routes + [b], lookup[b.routeId := |routes|];
    assert longer[..|longer| - 1] == routes;
    forall id | id != 0
      ensures IsIdEntry(more, longer, id)
      ensures b.routeId == 0 ==> IsIdEntry(lookup, longer, id)
    {
      assert IsIdEntry(lookup, routes, id);
    }
  }

  /** Giving an unnamed binding an id that no binding has adds exactly one entry to the id index. */
  lemma IdIndexNames(lookup: map<nat, nat>, routes: seq<Binding>, index: nat, id: nat)
    requires |routes| < NPOS && IsIdIndex(lookup, routes)
    requires index < |routes| && routes[index].routeId == 0 && id != 0
    requires forall i :: 0 <= i < |routes| ==> routes[i].routeId != id
    ensures IsIdIndex(lookup[id := index], routes[index := routes[index].(routeId := id)])
  {
    var named, more := routes[index := routes[index].(routeId := id)], lookup[id := index];
    forall other | other != 0
      ensures IsIdEntry(more, named, other)
    {
      assert IsIdEntry(lookup, routes, other);
      var p := ById(other);
      LastMeaning(routes, p);
      LastMeaning(named, p);
      forall i | 0 <= i < |routes| && i != index
        ensures p(named[i]) <==> p(routes[i])
      {
      }
      assert p(named[index]) <==> other == id;
      assert !p(routes[index]);
    }
  }

  // ---------------------------------------------------------------------------
  // The net.
  // ---------------------------------------------------------------------------

  class Net {
    const hash: Key -> nat
    var routes: seq<Binding>
    var data: nat               // the address of the vector's elements
    var nextRouteId: nat
    var routeLookup: map<nat, Lookup>
    var routeLookupSize: nat
    var routeLookupData: nat
    var routeIdLookup: map<nat, nat>
    var routeIdLookupSize: nat
    var routeIdLookupData: nat

    ghost function State(): Bindings
      reads this
    {
      Bindings(routes, nextRouteId)
    }

    predicate RouteLookupCurrent()
      reads this
    {
      routeLookupSize == |routes| && routeLookupData == data
    }

    predicate RouteIdLookupCurrent()
      reads this
    {
      routeIdLookupSize == |routes| && routeIdLookupData == data
    }

    /** An index whose stamps look current is current, and no binding has an id still to be given out. */
    ghost predicate Valid()
      reads this
    {
      |routes| < NPOS && nextRouteId > 0 &&
      (forall i :: 0 <= i < |routes| ==> routes[i].routeId < nextRouteId) &&
      (RouteLookupCurrent() ==> IsHashIndex(routeLookup, routes, hash)) &&
      (RouteIdLookupCurrent() ==> IsIdIndex(routeIdLookup, routes))
    }

    constructor (hash: Key -> nat)
      ensures Valid() && State() == Bindings([], 1) && this.hash == hash
    {
      this.hash := hash;
      routes, data, nextRouteId := [], 0, 1;
      routeLookup, routeLookupSize, routeLookupData := map[], NPOS, 0;
      routeIdLookup, routeIdLookupSize, routeIdLookupData := map[], NPOS, 0;
    }

    method InvalidateRouteLookup()
      modifies this`routeLookupSize, this`routeLookupData
      ensures routeLookupSize == NPOS
    {
      routeLookupSize, routeLookupData := NPOS, 0;
    }

    method InvalidateRouteIdLookup()
      modifies this`routeIdLookupSize, this`routeIdLookupData
      ensures routeIdLookupSize == NPOS
    {
      routeIdLookupSize, routeIdLookupData := NPOS, 0;
    }

    method RebuildRouteLookup()
      requires |routes| < NPOS
      modifies this`routeLookup, this`routeLookupSize, this`routeLookupData
      ensures RouteLookupCurrent() && IsHashIndex(routeLookup, routes, hash)
    {
      routeLookup := map[];
      for index := 0 to |routes|
        invariant IsHashIndex(routeLookup, routes[..index], hash)
      {
        var h := hash(routes[index].key);
        HashIndexGrows(routeLookup, routes[..index], routes[index], hash);
        assert routes[..index + 1] == routes[..index] + [routes[index]];
        if h in routeLookup {
          routeLookup := routeLookup[h := Lookup(routeLookup[h].index, routeLookup[h].count + 1)];
        } else {
          routeLookup := routeLookup[h := Lookup(index, 1)];
        }
      }
      assert routes[..|routes|] == routes;
      routeLookupSize, routeLookupData := |routes|, data;
    }

    method FindRouteBinding(key: Key) returns (found: Lookup)
      requires Valid()
      modifies this`routeLookup, this`routeLookupSize, this`routeLookupData
      ensures Valid() && found == Scan(routes, key)
    {
      if !RouteLookupCurrent() {
        RebuildRouteLookup();
      }
      var h := hash(key);
      ghost var sameKey, sameHash := ByKey(key), ByHash(hash, h);
      ScanMeaning(routes, sameKey);
      ScanMeaning(routes, sameHash);
      assert IsHashEntry(routeLookup, routes, hash, h);
      if h !in routeLookup {
        assert forall i :: 0 <= i < |routes| ==> !sameHash(routes[i]);
        assert forall i :: 0 <= i < |routes| ==> !sameKey(routes[i]);
        return Lookup(NPOS, 0);
      }
      var entry := routeLookup[h];
      if entry.count == 1 && entry.index < |routes| && routes[entry.index].key == key {
        OnlyCandidate(routes, sameKey, sameHash);
        return Lookup(entry.index, 1);
      }
      found := LinearScan(key);
    }

    /** The loop that `FindRouteBinding` falls back to on a hash collision or a duplicate binding. */
    method LinearScan(key: Key) returns (found: Lookup)
      requires |routes| < NPOS
      ensures found == Scan(routes, key)
    {
      var first, count := NPOS, 0;
      for index := 0 to |routes|
        invariant first == First(routes[..index], ByKey(key)) && count == Count(routes[..index], ByKey(key))
      {
        assert routes[..index + 1][..index] == routes[..index];
        if routes[index].key == key {
          if first == NPOS {
            first := index;
          }
          count := count + 1;
        }
      }
      assert routes[..|routes|] == routes;
      return Lookup(first, count);
    }

    /** `relocated` is the address of the elements once the vector has grown: any address at all. */
    method AppendRouteBinding(b: Binding, relocated: nat)
      requires Valid() && |routes| + 1 < NPOS
      modifies this
      ensures Valid() && State() == Appended(old(State()), b)
    {
      var binding := b;
      if binding.routeId == 0 {
        binding := binding.(routeId := nextRouteId);
        nextRouteId := nextRouteId + 1;
      } else {
        nextRouteId := if nextRouteId < binding.routeId + 1 then binding.routeId + 1 else nextRouteId;
      }
      var lookupCurrent := RouteLookupCurrent();
      var idLookupCurrent := RouteIdLookupCurrent();
      var h := hash(binding.key);
      var index := |routes|;
      routes := routes + [binding];
      data := relocated;
      assert routes[..index] == old(routes);
      AppendToIdLookup(idLookupCurrent, binding, index);
      AppendToLookup(lookupCurrent, binding, h, index);
    }

    /** The id index after the vector has grown by `binding`. */
    method AppendToIdLookup(current: bool, binding: Binding, index: nat)
      requires index < NPOS && |routes| == index + 1 && routes[index] == binding
      requires current ==> IsIdIndex(routeIdLookup, routes[..index])
      modifies this`routeIdLookup, this`routeIdLookupSize, this`routeIdLookupData
      ensures current ==> IsIdIndex(routeIdLookup, routes)
      ensures !current ==> routeIdLookupSize == NPOS
    {
      if current {
        IdIndexGrows(routeIdLookup, routes[..index], binding);
        assert routes == routes[..index] + [binding];
        routeIdLookup := routeIdLookup[binding.routeId := index];
        routeIdLookupSize, routeIdLookupData := |routes|, data;
      } else {
        InvalidateRouteIdLookup();
      }
    }

    /** The binding index after the vector has grown by `binding`. */
    method AppendToLookup(current: bool, binding: Binding, h: nat, index: nat)
      requires index < NPOS && |routes| == index + 1 && routes[index] == binding && h == hash(binding.key)
      requires current ==> IsHashIndex(routeLookup, routes[..index], hash)
      modifies this`routeLookup, this`routeLookupSize, this`routeLookupData
      ensures current ==> IsHashIndex(routeLookup, routes, hash)
      ensures !current ==> routeLookupSize == NPOS
    {
      if !current {
        InvalidateRouteLookup();
        return;
      }
      HashIndexGrows(routeLookup, routes[..index], binding, hash);
      assert routes == routes[..index] + [binding];
      if h in routeLookup {
        routeLookup := routeLookup[h := Lookup(routeLookup[h].index, routeLookup[h].count + 1)];
      } else {
        routeLookup := routeLookup[h := Lookup(index, 1)];
      }
      routeLookupSize, routeLookupData := |routes|, data;
    }

    method EraseRouteBinding(index: nat)
      requires Valid()
      modifies this
      ensures Valid() && State() == Erased(old(State()), index)
    {
      if index >= |routes| {
        return;
      }
      routes := routes[..index] + routes[index + 1..];
      InvalidateRouteLookup();
      InvalidateRouteIdLookup();
    }

    method ClearRouteBindings()
      requires Valid()
      modifies this
      ensures Valid() && State() == old(State()).(routes := [])
    {
      routes := [];
      InvalidateRouteLookup();
      InvalidateRouteIdLookup();
    }

    method RouteId(index: nat) returns (id: nat)
      requires Valid()
      modifies this
      ensures Valid() && State() == Named(old(State()), index)
      ensures id == if index < |routes| then routes[index].routeId else 0
    {
      if index >= |routes| {
        return 0;
      }
      if routes[index].routeId == 0 {
        if RouteIdLookupCurrent() {
          IdIndexNames(routeIdLookup, routes, index, nextRouteId);
        }
        if RouteLookupCurrent() {
          KeysUnchanged(routeLookup, routes, index, nextRouteId, hash);
        }
        routes := routes[index := routes[index].(routeId := nextRouteId)];
        nextRouteId := nextRouteId + 1;
        if RouteIdLookupCurrent() {
          routeIdLookup := routeIdLookup[routes[index].routeId := index];
        } else {
          InvalidateRouteIdLookup();
        }
      }
      return routes[index].routeId;
    }

    method FindRouteBindingById(id: nat) returns (index: nat)
      requires Valid()
      modifies this`routeIdLookup, this`routeIdLookupSize, this`routeIdLookupData
      ensures Valid() && index == IndexOfId(routes, id)
    {
      if id == 0 {
        return NPOS;
      }
      if !RouteIdLookupCurrent() {
        routeIdLookup := map[];
        for i := 0 to |routes|
          invariant IsIdIndex(routeIdLookup, routes[..i])
        {
          IdIndexGrows(routeIdLookup, routes[..i], routes[i]);
          assert routes[..i + 1] == routes[..i] + [routes[i]];
          if routes[i].routeId != 0 {
            routeIdLookup := routeIdLookup[routes[i].routeId := i];
          }
        }
        assert routes[..|routes|] == routes;
        routeIdLookupSize, routeIdLookupData := |routes|, data;
      }
      assert IsIdEntry(routeIdLookup, routes, id);
      return if id in routeIdLookup then routeIdLookup[id] else NPOS;
    }
  }

  lemma {:induction false} SameKeysSameScan(routes: seq<Binding>, other: seq<Binding>, hash: Key -> nat, h: nat)
    requires |routes| == |other| && forall i :: 0 <= i < |routes| ==> routes[i].key == other[i].key
    ensures First(routes, ByHash(hash, h)) == First(other, ByHash(hash, h))
    ensures Count(routes, ByHash(hash, h)) == Count(other, ByHash(hash, h))
  {
    if routes != [] {
      SameKeysSameScan(routes[..|routes| - 1], other[..|other| - 1], hash, h);
    }
  }

  lemma KeysUnchanged(lookup: map<nat, Lookup>, routes: seq<Binding>, index: nat, id: nat, hash: Key -> nat)
    requires index < |routes| && IsHashIndex(lookup, routes, hash)
    ensures IsHashIndex(lookup, routes[index := routes[index].(routeId := id)], hash)
  {
    var named := routes[index := routes[index].(routeId := id)];
    forall h
      ensures IsHashEntry(lookup, named, hash, h)
    {
      assert IsHashEntry(lookup, routes, hash, h);
      SameKeysSameScan(named, routes, hash, h);
    }
  }

  // ---------------------------------------------------------------------------
  // Identities over whole runs.
  // ---------------------------------------------------------------------------

  datatype Op = Append(binding: Binding) | Erase(index: nat) | Clear | AssignId(at: nat)

  function Apply(s: Bindings, op: Op): Bindings {
    match op
    case Append(b) => Appended(s, b)
    case Erase(i) => Erased(s, i)
    case Clear => s.(routes := [])
    case AssignId(i) => Named(s, i)
  }

  function Replay(s: Bindings, ops: seq<Op>): Bindings {
    if ops == [] then s else Apply(Replay(s, ops[..|ops| - 1]), ops[|ops| - 1])
  }

  ghost predicate HasId(s: Bindings, id: nat) {
    exists i :: 0 <= i < |s.routes| && s.routes[i].routeId == id
  }

  /** A caller that presets an id must not preset one that a current binding has. */
  ghost predicate FreshPreset(s: Bindings, op: Op) {
    op.Append? && op.binding.routeId != 0 ==> !HasId(s, op.binding.routeId)
  }

  ghost predicate FreshPresets(s: Bindings, ops: seq<Op>) {
    forall n :: 0 <= n < |ops| ==> FreshPreset(Replay(s, ops[..n]), ops[n])
  }

  ghost predicate DistinctIds(s: Bindings) {
    s.nextId > 0 &&
    (forall i :: 0 <= i < |s.routes| ==> s.routes[i].routeId < s.nextId) &&
    forall i, j :: 0 <= i < j < |s.routes| && s.routes[i].routeId != 0 ==> s.routes[i].routeId != s.routes[j].routeId
  }

  lemma StepKeepsIdsDistinct(s: Bindings, op: Op)
    requires DistinctIds(s) && FreshPreset(s, op)
    ensures DistinctIds(Apply(s, op)) && s.nextId <= Apply(s, op).nextId
  {
    if op.Append? && op.binding.routeId != 0 {
      forall i | 0 <= i < |s.routes|
        ensures s.routes[i].routeId != op.binding.routeId
      {
      }
    }
  }

  lemma FreshFront(s: Bindings, ops: seq<Op>)
    requires ops != [] && FreshPresets(s, ops)
    ensures FreshPresets(s, ops[..|ops| - 1]) && FreshPreset(Replay(s, ops[..|ops| - 1]), ops[|ops| - 1])
  {
    var front := ops[..|ops| - 1];
    forall n | 0 <= n < |front|
      ensures FreshPreset(Replay(s, front[..n]), front[n])
    {
      assert front[..n] == ops[..n];
    }
  }

  lemma {:induction false} RunKeepsIdsDistinct(s: Bindings, ops: seq<Op>)
    requires DistinctIds(s) && FreshPresets(s, ops)
    ensures DistinctIds(Replay(s, ops))
  {
    if ops != [] {
      FreshFront(s, ops);
      RunKeepsIdsDistinct(s, ops[..|ops| - 1]);
      StepKeepsIdsDistinct(Replay(s, ops[..|ops| - 1]), ops[|ops| - 1]);
    }
  }

  /** Over every run with fresh presets, no two bindings ever share an id. */
  lemma IdsStayDistinct(ops: seq<Op>)
    requires FreshPresets(Bindings([], 1), ops)
    ensures DistinctIds(Replay(Bindings([], 1), ops))
  {
    RunKeepsIdsDistinct(Bindings([], 1), ops);
  }

  lemma {:induction false} IdsBelow(s: Bindings, ops: seq<Op>)
    requires s.nextId > 0 && forall i :: 0 <= i < |s.routes| ==> s.routes[i].routeId < s.nextId
    ensures forall i :: 0 <= i < |Replay(s, ops).routes| ==> Replay(s, ops).routes[i].routeId < Replay(s, ops).nextId
  {
    if ops != [] {
      IdsBelow(s, ops[..|ops| - 1]);
    }
  }

  lemma {:induction false} NextIdGrows(s: Bindings, ops: seq<Op>, n: nat)
    requires n <= |ops|
    ensures Replay(s, ops[..n]).nextId <= Replay(s, ops).nextId
    decreases |ops|
  {
    if n == |ops| {
      assert ops[..n] == ops;
    } else {
      assert ops[..|ops| - 1][..n] == ops[..n];
      NextIdGrows(s, ops[..|ops| - 1], n);
    }
  }

  /** The id that a run gives out was never carried by any binding before, erased ones included. */
  lemma AssignedIdIsNew(s: Bindings, ops: seq<Op>, n: nat)
    requires s.nextId > 0 && forall i :: 0 <= i < |s.routes| ==> s.routes[i].routeId < s.nextId
    requires n <= |ops|
    ensures !HasId(Replay(s, ops[..n]), Replay(s, ops).nextId)
  {
    IdsBelow(s, ops[..n]);
    NextIdGrows(s, ops, n);
  }

  /** Resolving the id of binding `i` gives `i` back exactly when no later binding has the same id. */
  lemma RouteIdRoundTrip(s: Bindings, i: nat)
    requires |s.routes| < NPOS && i < |s.routes| && s.nextId > 0
    requires forall j :: 0 <= j < |s.routes| ==> s.routes[j].routeId < s.nextId
    ensures var t := Named(s, i);
            IndexOfId(t.routes, t.routes[i].routeId) == i <==>
            forall j :: i < j < |s.routes| ==> s.routes[i].routeId == 0 || s.routes[j].routeId != s.routes[i].routeId
  {
    var t := Named(s, i);
    var id := t.routes[i].routeId;
    LastMeaning(t.routes, ById(id));
    assert forall j :: i < j < |s.routes| ==> t.routes[j] == s.routes[j];
  }

  /** Two bindings preset to one id: the id then resolves to the later one, not to the one that was asked. */
  lemma PresetCollision(key: Key)
    ensures var b := Binding(key, 0, 0, 7);
            var s := Replay(Bindings([], 1), [Append(b), Append(b)]);
            s.routes[0].routeId == 7 && IndexOfId(s.routes, 7) == 1
  {
    var b := Binding(key, 0, 0, 7);
    var ops := [Append(b), Append(b)];
    assert ops[..1] == [Append(b)] && ops[..1][..0] == [];
    assert Replay(Bindings([], 1), ops[..1]) == Bindings([b], 8);
    assert Replay(Bindings([], 1), ops).routes == [b, b];
  }

  /** Where a binding is after an operation that does not remove it. */
  function IndexAfter(op: Op, i: nat): int {
    if op.Erase? && op.index < i then i - 1 else i
  }

  /** An id keeps resolving to its binding through every operation that does not remove the binding. */
  lemma IdentitySurvives(s: Bindings, op: Op, i: nat)
    requires DistinctIds(s) && FreshPreset(s, op) && |s.routes| + 1 < NPOS
    requires i < |s.routes| && s.routes[i].routeId != 0
    requires op != Clear && op != Erase(i)
    ensures IndexOfId(Apply(s, op).routes, s.routes[i].routeId) == IndexAfter(op, i)
    ensures Apply(s, op).routes[IndexAfter(op, i)] == s.routes[i]
  {
    StepKeepsIdsDistinct(s, op);
    var t, at, id := Apply(s, op), IndexAfter(op, i), s.routes[i].routeId;
    assert t.routes[at] == s.routes[i];
    LastMeaning(t.routes, ById(id));
  }

  /** Where a binding is after a run that does not remove it. */
  function IndexAfterRun(ops: seq<Op>, i: nat): int {
    if ops == [] then i
    else
      var before := IndexAfterRun(ops[..|ops| - 1], i);
      if before < 0 then before else IndexAfter(ops[|ops| - 1], before)
  }

  /** No operation of the run clears the list, or erases the binding from where it is at that time. */
  predicate Survives(ops: seq<Op>, i: nat) {
    forall n :: 0 <= n < |ops| ==> ops[n] != Clear && KeepsAt(ops[n], IndexAfterRun(ops[..n], i))
  }

  predicate KeepsAt(op: Op, at: int) {
    op.Erase? ==> op.index != at
  }

  lemma {:induction false} RunAddsAtMost(s: Bindings, ops: seq<Op>)
    ensures |Replay(s, ops).routes| <= |s.routes| + |ops|
  {
    if ops != [] {
      RunAddsAtMost(s, ops[..|ops| - 1]);
    }
  }

  /** Through every run with fresh presets an id keeps resolving to its binding, until the binding is removed. */
  lemma {:induction false} IdentitySurvivesRun(s: Bindings, ops: seq<Op>, i: nat)
    requires DistinctIds(s) && FreshPresets(s, ops) && |s.routes| + |ops| < NPOS
    requires i < |s.routes| && s.routes[i].routeId != 0 && Survives(ops, i)
    ensures var t, at := Replay(s, ops), IndexAfterRun(ops, i);
            0 <= at < |t.routes| && t.routes[at] == s.routes[i] && IndexOfId(t.routes, s.routes[i].routeId) == at
  {
    if ops == [] {
      LastMeaning(s.routes, ById(s.routes[i].routeId));
    } else {
      var front, op := ops[..|ops| - 1], ops[|ops| - 1];
      FreshFront(s, ops);
      forall n | 0 <= n < |front|
        ensures front[n] != Clear && KeepsAt(front[n], IndexAfterRun(front[..n], i))
      {
        assert front[..n] == ops[..n];
      }
      IdentitySurvivesRun(s, front, i);
      RunKeepsIdsDistinct(s, front);
      RunAddsAtMost(s, front);
      assert KeepsAt(ops[|ops| - 1], IndexAfterRun(ops[..|ops| - 1], i));
      IdentitySurvives(Replay(s, front), op, IndexAfterRun(front, i));
    }
  }

  /** After any run with fresh presets, resolving the id that is given out for a binding finds that binding. */
  lemma IdentityRoundTrip(ops: seq<Op>, i: nat)
    requires FreshPresets(Bindings([], 1), ops) && |ops| < NPOS
    requires i < |Replay(Bindings([], 1), ops).routes|
    ensures var t := Named(Replay(Bindings([], 1), ops), i); IndexOfId(t.routes, t.routes[i].routeId) == i
  {
    IdsStayDistinct(ops);
    RunAddsAtMost(Bindings([], 1), ops);
    RouteIdRoundTrip(Replay(Bindings([], 1), ops), i);
  }
}
