/** Ordering a pack so that dedicated local predecessors come first (src/fpga/Tile.cpp). */
module PackOrder {
  import opened Common
  import opened ElementBits

  datatype Port = I0 | I1 | OtherPort

  /** An input pin and the instance that drives it, if there is one. */
  datatype Input = Input(port: Port, driver: Option<nat>)

  /** A cell; an exempt one takes its inputs from the fabric. */
  datatype PackCell = PackCell(element: ElementType, exempt: bool, inputs: seq<Input>)

  /** The cells of the design, by instance. */
  type PackDesign = map<nat, PackCell>

  /** The dedicated arcs inside a tile: table to narrow mux, narrow mux to wide mux, on the data inputs only. */
  predicate StrictChainInput(left: ElementType, right: ElementType, port: Port) {
    (((left == Lut5 || left == Lut1) && right == Muxf7) || (left == Muxf7 && right == Muxf8)) &&
      (port == I0 || port == I1)
  }

  predicate DrivesStrictly(d: PackDesign, source: nat, sink: nat, k: nat) {
    source in d && sink in d && !d[sink].exempt && k < |d[sink].inputs| && d[sink].inputs[k].driver == Some(source) &&
    StrictChainInput(d[source].element, d[sink].element, d[sink].inputs[k].port)
  }

  ghost predicate DependsOn(d: PackDesign, sink: nat, source: nat) {
    exists k: nat :: DrivesStrictly(d, source, sink, k)
  }

  /** All members are there, have a cell, and are different. */
  ghost predicate Packable(d: PackDesign, insts: seq<Option<nat>>) {
    NoDup(insts) && forall i :: 0 <= i < |insts| ==> insts[i].Some? && insts[i].value in d
  }

  function Ids(insts: seq<Option<nat>>): (ids: seq<nat>)
    ensures |ids| == |insts| && forall i :: 0 <= i < |insts| && insts[i].Some? ==> ids[i] == insts[i].value
  {
    seq(|insts|, i requires 0 <= i < |insts| => if insts[i].Some? then insts[i].value else 0)
  }

  /** No member comes before one that it depends on. */
  ghost predicate DependenciesFirst(d: PackDesign, ids: seq<nat>) {
    forall i, j :: 0 <= i < |ids| && 0 <= j < |ids| && DependsOn(d, ids[i], ids[j]) ==> j < i
  }

  /** The indices selected so far: different, and each after the members that it depends on. */
  ghost predicate IsSelectedPrefix(d: PackDesign, ids: seq<nat>, order: seq<nat>) {
    NoDup(order) && (forall k :: 0 <= k < |order| ==> order[k] < |ids|) &&
    forall k, j: nat :: 0 <= k < |order| && j < |ids| && DependsOn(d, ids[order[k]], ids[j]) ==> j in order[..k]
  }

  /** Each selected index is the least that could be selected at its turn. */
  ghost predicate IsLeastFirst(d: PackDesign, ids: seq<nat>, order: seq<nat>) {
    forall k, i: nat :: 0 <= k < |order| && order[k] < |ids| && i < order[k] && IsReady(d, ids, order[..k], i) ==>
      i in order[..k]
  }

  /** All that the index depends on has been selected. */
  ghost predicate IsReady(d: PackDesign, ids: seq<nat>, order: seq<nat>, i: nat)
    requires i < |ids|
  {
    forall j: nat :: j < |ids| && DependsOn(d, ids[i], ids[j]) ==> j in order
  }

  ghost predicate IsPackOrder(d: PackDesign, ids: seq<nat>, order: seq<nat>) {
    |order| == |ids| && IsSelectedPrefix(d, ids, order) && IsLeastFirst(d, ids, order)
  }

  /** The members in the order of the indices. */
  function Permuted<T>(s: seq<T>, order: seq<nat>): (t: seq<T>)
    requires forall k :: 0 <= k < |order| ==> order[k] < |s|
    ensures |t| == |order| && forall k :: 0 <= k < |order| ==> t[k] == s[order[k]]
  {
    seq(|order|, k requires 0 <= k < |order| => s[order[k]])
  }

  // ---------------------------------------------------------------------------
  // There is always a ready member.
  // ---------------------------------------------------------------------------

  function Level(t: ElementType): nat {
    if t == Lut5 || t == Lut1 then 0 else if t == Muxf7 then 1 else 2
  }

  /** The dedicated arcs cannot form a cycle, so the search for a ready member cannot fail. */
  lemma {:induction false} SomeReady(d: PackDesign, ids: seq<nat>, order: seq<nat>, start: nat) returns (i: nat)
    requires start < |ids| && start !in order && forall k :: 0 <= k < |ids| ==> ids[k] in d
    ensures i < |ids| && i !in order && IsReady(d, ids, order, i)
    decreases Level(d[ids[start]].element)
  {
    if IsReady(d, ids, order, start) {
      i := start;
    } else {
      var j: nat :| j < |ids| && DependsOn(d, ids[start], ids[j]) && j !in order;
      var k: nat :| DrivesStrictly(d, ids[j], ids[start], k);
      i := SomeReady(d, ids, order, j);
    }
  }

  // ---------------------------------------------------------------------------
  // The order is the least of all orders.
  // ---------------------------------------------------------------------------

  /** Of two orders of the same members the greedy one is the same or smaller at the first difference. */
  lemma {:induction false} LeastOfAll(d: PackDesign, ids: seq<nat>, order: seq<nat>, other: seq<nat>)
    requires IsPackOrder(d, ids, order) && |other| == |ids| && IsSelectedPrefix(d, ids, other)
    ensures order == other || exists k :: 0 <= k < |ids| && order[..k] == other[..k] && order[k] < other[k]
  {
    if order != other {
      var k := FirstDifference(order, other);
      var i := other[k];
      assert IsReady(d, ids, order[..k], i) by {
        forall j: nat | j < |ids| && DependsOn(d, ids[i], ids[j])
          ensures j in order[..k]
        {
          assert j in other[..k];
        }
      }
      NotBefore(other, k);
    }
  }

  lemma {:induction false} FirstDifference(a: seq<nat>, b: seq<nat>) returns (k: nat)
    requires |a| == |b| && a != b
    ensures k < |a| && a[..k] == b[..k] && a[k] != b[k]
  {
    var n := |a| - 1;
    if a[..n] == b[..n] {
      assert a == a[..n] + [a[n]] && b == b[..n] + [b[n]];
      k := n;
    } else {
      k := FirstDifference(a[..n], b[..n]);
      assert a[..n][..k] == a[..k] && b[..n][..k] == b[..k];
    }
  }

  /** What is in order already stays as it is. */
  lemma {:induction false} OrderedStays(d: PackDesign, ids: seq<nat>, order: seq<nat>, n: nat)
    requires DependenciesFirst(d, ids) && IsPackOrder(d, ids, order) && n <= |ids|
    ensures forall k :: 0 <= k < n ==> order[k] == k
  {
    if n > 0 {
      OrderedStays(d, ids, order, n - 1);
      var k := n - 1;
      assert forall j: nat :: j < k ==> order[..k][j] == j;
      assert IsReady(d, ids, order[..k], k) by {
        forall j: nat | j < |ids| && DependsOn(d, ids[k], ids[j])
          ensures j in order[..k]
        {
          assert order[..k][j] == j;
        }
      }
      NotBefore(order, k);
      IdentityHolds(order[..k]);
    }
  }

  lemma IdentityHolds(s: seq<nat>)
    requires forall m: nat :: m < |s| ==> s[m] == m
    ensures forall x: nat :: x in s <==> x < |s|
  {
    forall x: nat | x < |s|
      ensures x in s
    {
      assert s[x] == x;
    }
  }

  lemma NotBefore(order: seq<nat>, k: nat)
    requires NoDup(order) && k < |order|
    ensures order[k] !in order[..k]
  {
  }

  /** The members in the selected order are in dependency order. */
  lemma PermutedIsInOrder(d: PackDesign, ids: seq<nat>, order: seq<nat>)
    requires NoDup(ids) && |order| == |ids| && IsSelectedPrefix(d, ids, order)
    ensures DependenciesFirst(d, Permuted(ids, order))
  {
    var t := Permuted(ids, order);
    forall a, b | 0 <= a < |t| && 0 <= b < |t| && DependsOn(d, t[a], t[b])
      ensures b < a
    {
      assert order[b] in order[..a];
      var m :| 0 <= m < a && order[..a][m] == order[b];
    }
  }

  // ---------------------------------------------------------------------------
  // The ordering itself.
  // ---------------------------------------------------------------------------

  /** The index of each member; fails on a missing member, one without a cell, and one listed twice. */
  method IndexMembers(d: PackDesign, insts: seq<Option<nat>>) returns (ok: bool, indices: map<nat, nat>)
    ensures ok <==> Packable(d, insts)
    ensures ok ==> forall j: nat :: j < |insts| ==> insts[j].value in indices && indices[insts[j].value] == j
    ensures ok ==> forall id :: id in indices ==> indices[id] < |insts| && insts[indices[id]] == Some(id)
  {
    indices := map[];
    for i := 0 to |insts|
      invariant Packable(d, insts[..i])
      invariant forall j: nat :: j < i ==> insts[j].Some? && insts[j].value in indices && indices[insts[j].value] == j
      invariant forall id :: id in indices ==> indices[id] < i && insts[indices[id]] == Some(id)
    {
      assert insts[..i + 1] == insts[..i] + [insts[i]];
      if insts[i] == None || insts[i].value !in d {
        return false, map[];
      }
      if insts[i].value in indices {
        assert insts[indices[insts[i].value]] == insts[i];
        return false, map[];
      }
      assert forall j :: 0 <= j < i ==> insts[..i][j] == insts[j] && insts[j] != insts[i];
      indices := indices[insts[i].value := i];
    }
    assert insts[..|insts|] == insts;
    return true, indices;
  }

  ghost predicate ArePredecessors(d: PackDesign, ids: seq<nat>, i: nat, before: seq<nat>)
    requires i < |ids|
  {
    forall j: nat :: j in before <==> j < |ids| && DependsOn(d, ids[i], ids[j])
  }

  method Predecessors(d: PackDesign, ids: seq<nat>, indices: map<nat, nat>, i: nat) returns (before: seq<nat>)
    requires i < |ids| && forall j: nat :: j < |ids| ==> ids[j] in d && ids[j] in indices && indices[ids[j]] == j
    requires forall id :: id in indices ==> indices[id] < |ids| && ids[indices[id]] == id
    ensures ArePredecessors(d, ids, i, before)
  {
    before := [];
    var cell := d[ids[i]];
    if cell.exempt {
      return;
    }
    for k := 0 to |cell.inputs|
      invariant forall j: nat :: j in before <==>
                  j < |ids| && exists m: nat :: m < k && DrivesStrictly(d, ids[j], ids[i], m)
    {
      var input := cell.inputs[k];
      if input.driver.Some? && input.driver.value in indices &&
         StrictChainInput(d[input.driver.value].element, cell.element, input.port) {
        assert DrivesStrictly(d, ids[indices[input.driver.value]], ids[i], k);
        before := before + [indices[input.driver.value]];
      }
    }
  }

  /** The least index that is not selected and whose predecessors all are. */
  method FirstReady(d: PackDesign, ids: seq<nat>, predecessors: seq<seq<nat>>, order: seq<nat>) returns (i: nat)
    requires |predecessors| == |ids| && forall k :: 0 <= k < |ids| ==> ArePredecessors(d, ids, k, predecessors[k])
    ensures i <= |ids| && (i < |ids| ==> i !in order && IsReady(d, ids, order, i))
    ensures forall k: nat :: k < i && k !in order ==> !IsReady(d, ids, order, k)
  {
    i := 0;
    while i < |ids|
      invariant i <= |ids| && forall k: nat :: k < i && k !in order ==> !IsReady(d, ids, order, k)
    {
      if i !in order {
        var ready := true;
        for b := 0 to |predecessors[i]|
          invariant ready <==> forall c :: 0 <= c < b ==> predecessors[i][c] in order
        {
          ready := ready && predecessors[i][b] in order;
        }
        ReadyMeaning(d, ids, order, i, predecessors[i]);
        if ready {
          return;
        }
      }
      i := i + 1;
    }
  }

  lemma ReadyMeaning(d: PackDesign, ids: seq<nat>, order: seq<nat>, i: nat, before: seq<nat>)
    requires i < |ids| && ArePredecessors(d, ids, i, before)
    ensures IsReady(d, ids, order, i) <==> forall c :: 0 <= c < |before| ==> before[c] in order
  {
    forall c | 0 <= c < |before|
      ensures before[c] in before
    {
    }
  }

  lemma OneMoreSelected(d: PackDesign, ids: seq<nat>, order: seq<nat>, i: nat)
    requires IsSelectedPrefix(d, ids, order) && IsLeastFirst(d, ids, order)
    requires i < |ids| && i !in order && IsReady(d, ids, order, i)
    requires forall k: nat :: k < i && k !in order ==> !IsReady(d, ids, order, k)
    ensures IsSelectedPrefix(d, ids, order + [i]) && IsLeastFirst(d, ids, order + [i])
  {
    var more := order + [i];
    assert more[..|order|] == order;
    assert forall k :: 0 <= k < |order| ==> more[..k] == order[..k];
  }

  /**
   Orders the members; it fails, and leaves the list alone, exactly when a member is missing,
   has no cell, or is listed twice.
   */
  method OrderPack(d: PackDesign, insts: seq<Option<nat>>)
    returns (ok: bool, ordered: seq<Option<nat>>, ghost order: seq<nat>)
    ensures ok <==> Packable(d, insts)
    ensures !ok ==> ordered == insts
    ensures ok ==> IsPackOrder(d, Ids(insts), order) && ordered == Permuted(insts, order)
  {
    order := [];
    var indices;
    ok, indices := IndexMembers(d, insts);
    if !ok {
      return false, insts, [];
    }
    var ids := Ids(insts);
    var predecessors := [];
    for i := 0 to |ids|
      invariant |predecessors| == i && forall k :: 0 <= k < i ==> ArePredecessors(d, ids, k, predecessors[k])
    {
      var before := Predecessors(d, ids, indices, i);
      predecessors := predecessors + [before];
    }
    var selected: seq<nat> := [];
    ordered := [];
    while |selected| < |ids|
      invariant |selected| <= |ids| && IsSelectedPrefix(d, ids, selected) && IsLeastFirst(d, ids, selected)
      invariant ordered == Permuted(insts, selected)
    {
      ghost var some := SomeUnselected(selected, |ids|);
      some := SomeReady(d, ids, selected, some);
      var i := FirstReady(d, ids, predecessors, selected);
      OneMoreSelected(d, ids, selected, i);
      selected := selected + [i];
      ordered := ordered + [insts[i]];
    }
    order := selected;
  }

  lemma {:induction false} SomeUnselected(order: seq<nat>, n: nat) returns (i: nat)
    requires |order| < n
    ensures i < n && i !in order
    decreases n
  {
    if n - 1 in order {
      var at :| 0 <= at < |order| && order[at] == n - 1;
      var rest := order[..at] + order[at + 1..];
      i := SomeUnselected(rest, n - 1);
      assert order == order[..at] + [n - 1] + order[at + 1..];
    } else {
      i := n - 1;
    }
  }

  /** Ordering a pack a second time changes nothing. */
  lemma OrderingIsIdempotent(d: PackDesign, ids: seq<nat>, order: seq<nat>, again: seq<nat>)
    requires NoDup(ids) && IsPackOrder(d, ids, order) && IsPackOrder(d, Permuted(ids, order), again)
    ensures Permuted(Permuted(ids, order), again) == Permuted(ids, order)
  {
    PermutedIsInOrder(d, ids, order);
    OrderedStays(d, Permuted(ids, order), again, |ids|);
  }
}
