/** Candidate sources in the order in which routing tries them (src/fpga/Crossbar.cpp). */
module SourceOrder {
  import opened Common
  import opened AngleOrder
  import opened JumpBuckets
  import opened RouteGraph

  // ---------------------------------------------------------------------------
  // What the order is.
  // ---------------------------------------------------------------------------

  /** The priority of a landing is its offset; one that does not fit is replaced by the source's own delta. */
  function PriorityDelta(src: nat, landing: Landing): Bucket {
    if Encodable(Bucket(landing.dx, landing.dy)) then Bucket(landing.dx, landing.dy) else JumpDelta(src)
  }

  ghost predicate HasPriority(g: Graph, src: nat, b: Bucket) {
    b != Bucket(0, 0) && exists k :: 0 <= k < |g.LandingsOf(src)| && PriorityDelta(src, g.LandingsOf(src)[k]) == b
  }

  /** The first bucket of the order among the source's priorities, or the length of the order. */
  ghost function BestBucket(g: Graph, src: nat, order: seq<Bucket>): nat {
    if order == [] || HasPriority(g, src, order[0]) then 0 else 1 + BestBucket(g, src, order[1..])
  }

  /** The bucket of the delta in the source's own number, or the length of the order. */
  ghost function OwnBucket(src: nat, order: seq<Bucket>): nat {
    if order == [] || JumpDelta(src) == order[0] then 0 else 1 + OwnBucket(src, order[1..])
  }

  datatype SourceRank = SourceRank(tier: nat, bucket: nat, lane: nat, src: nat) {
    predicate Before(other: SourceRank) {
      tier < other.tier ||
      (tier == other.tier && (bucket < other.bucket ||
        (bucket == other.bucket && (lane < other.lane || (lane == other.lane && src < other.src)))))
    }
  }

  /** Sources with a priority first, by their best bucket; then by their own delta; then the rest. */
  ghost function SourceRankOf(g: Graph, src: nat, order: seq<Bucket>): SourceRank {
    if BestBucket(g, src, order) < |order| then SourceRank(0, BestBucket(g, src, order), src % 16, src)
    else if OwnBucket(src, order) < |order| then SourceRank(1, OwnBucket(src, order), src % 16, src)
    else SourceRank(2, 0, 0, src)
  }

  ghost predicate Ranked(g: Graph, order: seq<Bucket>, list: seq<nat>) {
    forall i, j :: 0 <= i < j < |list| ==> SourceRankOf(g, list[i], order).Before(SourceRankOf(g, list[j], order))
  }

  /** Each wanted source once, in strictly ascending rank; this leaves no choice about the list. */
  ghost predicate IsSourceOrder(g: Graph, order: seq<Bucket>, wanted: set<nat>, list: seq<nat>) {
    Ranked(g, order, list) && forall s: nat :: s in list <==> s in wanted
  }

  lemma {:induction false} BestBucketMeaning(g: Graph, src: nat, order: seq<Bucket>)
    ensures BestBucket(g, src, order) <= |order|
    ensures BestBucket(g, src, order) < |order| ==> HasPriority(g, src, order[BestBucket(g, src, order)])
    ensures forall k :: 0 <= k < BestBucket(g, src, order) ==> !HasPriority(g, src, order[k])
  {
    if order != [] && !HasPriority(g, src, order[0]) {
      BestBucketMeaning(g, src, order[1..]);
      forall k | 0 <= k < BestBucket(g, src, order)
        ensures !HasPriority(g, src, order[k])
      {
        assert k > 0 ==> order[k] == order[1..][k - 1];
      }
    }
  }

  lemma {:induction false} OwnBucketMeaning(src: nat, order: seq<Bucket>)
    ensures OwnBucket(src, order) <= |order|
    ensures OwnBucket(src, order) < |order| ==> JumpDelta(src) == order[OwnBucket(src, order)]
    ensures forall k :: 0 <= k < OwnBucket(src, order) ==> JumpDelta(src) != order[k]
  {
    if order != [] && JumpDelta(src) != order[0] {
      OwnBucketMeaning(src, order[1..]);
      forall k | 0 <= k < OwnBucket(src, order)
        ensures JumpDelta(src) != order[k]
      {
        assert k > 0 ==> order[k] == order[1..][k - 1];
      }
    }
  }

  /** Two orders of the same sources are the same list. */
  lemma {:induction false} SourceOrderIsUnique(g: Graph, order: seq<Bucket>, wanted: set<nat>, a: seq<nat>, b: seq<nat>)
    requires IsSourceOrder(g, order, wanted, a) && IsSourceOrder(g, order, wanted, b)
    ensures a == b
    decreases |a|
  {
    if a == [] || b == [] {
      EmptyTogether(a, b);
    } else {
      assert a[0] in a && a[0] in b && b[0] in b && b[0] in a;
      var i :| 0 <= i < |b| && b[i] == a[0];
      var j :| 0 <= j < |a| && a[j] == b[0];
      assert a[0] == b[0];
      OrderOfRest(g, order, wanted, a);
      OrderOfRest(g, order, wanted, b);
      SourceOrderIsUnique(g, order, wanted - {a[0]}, a[1..], b[1..]);
      assert a == [a[0]] + a[1..] && b == [b[0]] + b[1..];
    }
  }

  lemma EmptyTogether(a: seq<nat>, b: seq<nat>)
    requires forall s: nat :: s in a <==> s in b
    ensures a == [] <==> b == []
  {
    if a != [] {
      assert a[0] in a;
    }
    if b != [] {
      assert b[0] in b;
    }
  }

  lemma OrderOfRest(g: Graph, order: seq<Bucket>, wanted: set<nat>, a: seq<nat>)
    requires IsSourceOrder(g, order, wanted, a) && a != []
    ensures IsSourceOrder(g, order, wanted - {a[0]}, a[1..])
  {
    assert a == [a[0]] + a[1..];
    forall s: nat | s in a[1..]
      ensures s != a[0]
    {
      var i :| 0 <= i < |a[1..]| && a[1..][i] == s;
      assert SourceRankOf(g, a[0], order).Before(SourceRankOf(g, a[i + 1], order));
    }
  }

  /** Appending sources whose ranks are above all of the list and ascending among themselves. */
  lemma RankedAppend(g: Graph, order: seq<Bucket>, list: seq<nat>, more: seq<nat>)
    requires Ranked(g, order, list) && Ranked(g, order, more)
    requires forall x, y :: x in list && y in more ==> SourceRankOf(g, x, order).Before(SourceRankOf(g, y, order))
    ensures Ranked(g, order, list + more)
  {
    var both := list + more;
    forall i, j | 0 <= i < j < |both|
      ensures SourceRankOf(g, both[i], order).Before(SourceRankOf(g, both[j], order))
    {
      if i < |list| <= j {
        assert both[i] in list && both[j] in more;
      }
    }
  }

  // ---------------------------------------------------------------------------
  // The three passes.
  // ---------------------------------------------------------------------------

  ghost predicate ByLane(list: seq<nat>) {
    forall i, j :: 0 <= i < j < |list| ==>
      list[i] % 16 < list[j] % 16 || (list[i] % 16 == list[j] % 16 && list[i] < list[j])
  }

  /** The sources of one lane, ascending. */
  method LaneSrcs(srcs: set<nat>, lane: nat, bound: nat) returns (list: seq<nat>)
    requires forall s :: s in srcs ==> s < bound
    ensures forall s: nat :: s in list <==> s in srcs && s % 16 == lane
    ensures forall i, j :: 0 <= i < j < |list| ==> list[i] < list[j]
  {
    list := [];
    for src := 0 to bound
      invariant forall s: nat :: s in list <==> s in srcs && s % 16 == lane && s < src
      invariant forall i, j :: 0 <= i < j < |list| ==> list[i] < list[j]
    {
      if src in srcs && src % 16 == lane {
        assert forall i :: 0 <= i < |list| ==> list[i] in list;
        list := list + [src];
      }
    }
  }

  method LaneOrder(srcs: set<nat>, bound: nat) returns (list: seq<nat>)
    requires forall s :: s in srcs ==> s < bound
    ensures ByLane(list) && forall s: nat :: s in list <==> s in srcs
  {
    list := [];
    for lane := 0 to 16
      invariant ByLane(list) && forall s: nat :: s in list <==> s in srcs && s % 16 < lane
    {
      var laneSrcs := LaneSrcs(srcs, lane, bound);
      LaneAppends(list, laneSrcs, lane);
      list := list + laneSrcs;
    }
  }

  lemma LaneAppends(list: seq<nat>, laneSrcs: seq<nat>, lane: nat)
    requires ByLane(list) && forall s: nat :: s in list ==> s % 16 < lane
    requires forall s: nat :: s in laneSrcs ==> s % 16 == lane
    requires forall i, j :: 0 <= i < j < |laneSrcs| ==> laneSrcs[i] < laneSrcs[j]
    ensures ByLane(list + laneSrcs)
  {
    var both := list + laneSrcs;
    forall i, j | 0 <= i < j < |both|
      ensures both[i] % 16 < both[j] % 16 || (both[i] % 16 == both[j] % 16 && both[i] < both[j])
    {
      if j >= |list| {
        assert both[j] in laneSrcs;
        assert i < |list| ==> both[i] in list;
        assert i >= |list| ==> both[i] in laneSrcs;
      }
    }
  }

  /** The table of priorities: under each encodable offset the sources that have it. */
  ghost predicate IsPriorityTable(g: Graph, table: Table) {
    forall b: Bucket, s: nat :: Encodable(b) && b != Bucket(0, 0) ==>
      (Has(table, JumpIndexForDelta(b.dx, b.dy, 0), s) <==> HasPriority(g, s, b))
  }

  /** First pass: bucket by bucket, the sources whose best priority the bucket is. */
  method ByPriority(g: Graph, order: seq<Bucket>, table: Table, valid: set<nat>, bound: nat)
    returns (list: seq<nat>, seen: set<nat>)
    requires IsPriorityTable(g, table) && (forall s :: s in valid ==> s < bound)
    requires forall b :: b in order ==> IsJump(b)
    ensures Ranked(g, order, list) && forall s: nat :: s in list <==> s in seen
    ensures forall s: nat :: s in seen <==> s in valid && BestBucket(g, s, order) < |order|
  {
    list, seen := [], {};
    for k := 0 to |order|
      invariant Ranked(g, order, list) && forall s: nat :: s in list <==> s in seen
      invariant forall s: nat :: s in seen <==> s in valid && BestBucket(g, s, order) < k
    {
      assert order[k] in order;
      var index := JumpIndexForDelta(order[k].dx, order[k].dy, 0);
      var bucketSrcs := (valid - seen) * Get(table, index);
      forall s: nat
        ensures s in bucketSrcs <==> s in valid && BestBucket(g, s, order) == k
      {
        BestBucketMeaning(g, s, order);
        assert s in Get(table, index) <==> Has(table, index, s);
      }
      var more := LaneOrder(bucketSrcs, bound);
      BucketIsRanked(g, order, more, k);
      BucketFollows(g, order, list, more, k);
      list := list + more;
      seen := seen + bucketSrcs;
    }
  }

  lemma BucketIsRanked(g: Graph, order: seq<Bucket>, more: seq<nat>, k: nat)
    requires ByLane(more) && k < |order| && forall s: nat :: s in more ==> BestBucket(g, s, order) == k
    ensures Ranked(g, order, more)
  {
    forall i, j | 0 <= i < j < |more|
      ensures SourceRankOf(g, more[i], order).Before(SourceRankOf(g, more[j], order))
    {
      assert more[i] in more && more[j] in more;
    }
  }

  lemma BucketFollows(g: Graph, order: seq<Bucket>, list: seq<nat>, more: seq<nat>, k: nat)
    requires Ranked(g, order, list) && Ranked(g, order, more) && k < |order|
    requires forall s: nat :: s in list ==> BestBucket(g, s, order) < k
    requires forall s: nat :: s in more ==> BestBucket(g, s, order) == k
    ensures Ranked(g, order, list + more)
  {
    RankedAppend(g, order, list, more);
  }

  lemma RankedPush(g: Graph, order: seq<Bucket>, list: seq<nat>, src: nat)
    requires Ranked(g, order, list)
    requires forall x :: x in list ==> SourceRankOf(g, x, order).Before(SourceRankOf(g, src, order))
    ensures Ranked(g, order, list + [src])
  {
    RankedAppend(g, order, list, [src]);
  }

  /** Second pass: of the sources without a priority, those whose own number names the bucket, lane by lane. */
  method ByOwnDelta(g: Graph, order: seq<Bucket>, before: seq<nat>, rest: set<nat>, bound: nat)
    returns (list: seq<nat>, left: set<nat>)
    requires bound <= 4096 && (forall b :: b in order ==> IsJump(b)) && Ranked(g, order, before)
    requires forall s: nat :: s in before ==> BestBucket(g, s, order) < |order|
    requires forall s: nat :: s in rest ==> s < bound && BestBucket(g, s, order) >= |order|
    ensures Ranked(g, order, list)
    ensures forall s: nat :: s in left <==> s in rest && OwnBucket(s, order) >= |order|
    ensures forall s: nat :: s in list <==> s in before || (s in rest && OwnBucket(s, order) < |order|)
  {
    list, left := before, rest;
    for k := 0 to |order|
      invariant Ranked(g, order, list)
      invariant forall s: nat :: s in left <==> s in rest && OwnBucket(s, order) >= k
      invariant forall s: nat :: s in list <==> s in before || (s in rest && OwnBucket(s, order) < k)
    {
      if left == {} {
        NoneLeft(order, rest, left, k);
        break;
      }
      list, left := OwnDeltaBucket(g, order, list, left, before, rest, bound, k);
    }
  }

  lemma NoneLeft(order: seq<Bucket>, rest: set<nat>, left: set<nat>, k: nat)
    requires k <= |order| && left == {} && forall s: nat :: s in left <==> s in rest && OwnBucket(s, order) >= k
    ensures forall s: nat :: s in rest ==> OwnBucket(s, order) < k
  {
  }

  ghost predicate LeftAtLane(left: set<nat>, rest: set<nat>, order: seq<Bucket>, k: nat, lane: nat) {
    forall s: nat :: s in left <==>
      s in rest && (OwnBucket(s, order) > k || (OwnBucket(s, order) == k && s % 16 >= lane))
  }

  ghost predicate ListedAtLane(list: seq<nat>, before: seq<nat>, rest: set<nat>, order: seq<Bucket>, k: nat,
                               lane: nat)
  {
    forall s: nat :: s in list <==>
      s in before || (s in rest && (OwnBucket(s, order) < k || (OwnBucket(s, order) == k && s % 16 < lane)))
  }

  /** Of these sources, only `src` has its own delta in the bucket and the lane. */
  ghost predicate NamesLane(src: nat, rest: set<nat>, order: seq<Bucket>, k: nat, lane: nat) {
    src % 16 == lane && (src in rest && OwnBucket(src, order) >= k ==> OwnBucket(src, order) == k) &&
    forall s: nat :: s in rest && OwnBucket(s, order) == k && s % 16 == lane ==> s == src
  }

  /** One lane of a bucket: the number it names is listed if it is left, and nothing else of the lane is. */
  lemma LaneStep(order: seq<Bucket>, list: seq<nat>, left: set<nat>, before: seq<nat>, rest: set<nat>, k: nat,
                 lane: nat, src: nat)
    requires lane < 16 && NamesLane(src, rest, order, k, lane)
    requires LeftAtLane(left, rest, order, k, lane) && ListedAtLane(list, before, rest, order, k, lane)
    ensures src in left ==>
              LeftAtLane(left - {src}, rest, order, k, lane + 1) &&
                ListedAtLane(list + [src], before, rest, order, k, lane + 1)
    ensures src !in left ==>
              LeftAtLane(left, rest, order, k, lane + 1) && ListedAtLane(list, before, rest, order, k, lane + 1)
  {
  }

  lemma LanePush(g: Graph, order: seq<Bucket>, list: seq<nat>, before: seq<nat>, rest: set<nat>, k: nat, lane: nat,
                 src: nat)
    requires k < |order| && Ranked(g, order, list) && ListedAtLane(list, before, rest, order, k, lane)
    requires forall s: nat :: s in before ==> BestBucket(g, s, order) < |order|
    requires forall s: nat :: s in rest ==> BestBucket(g, s, order) >= |order|
    requires src in rest && OwnBucket(src, order) == k && src % 16 == lane
    ensures Ranked(g, order, list + [src])
  {
    forall x | x in list
      ensures SourceRankOf(g, x, order).Before(SourceRankOf(g, src, order))
    {
    }
    RankedPush(g, order, list, src);
  }

  method OwnDeltaBucket(g: Graph, order: seq<Bucket>, list: seq<nat>, left: set<nat>,
                        ghost before: seq<nat>, ghost rest: set<nat>, bound: nat, k: nat)
    returns (longer: seq<nat>, remaining: set<nat>)
    requires bound <= 4096 && (forall b :: b in order ==> IsJump(b)) && k < |order|
    requires forall s: nat :: s in before ==> BestBucket(g, s, order) < |order|
    requires forall s: nat :: s in rest ==> s < bound && BestBucket(g, s, order) >= |order|
    requires Ranked(g, order, list) && LeftAtLane(left, rest, order, k, 0)
    requires ListedAtLane(list, before, rest, order, k, 0)
    ensures Ranked(g, order, longer)
    ensures LeftAtLane(remaining, rest, order, k, 16) && ListedAtLane(longer, before, rest, order, k, 16)
  {
    longer, remaining := list, left;
    assert order[k] in order;
    for lane := 0 to 16
      invariant Ranked(g, order, longer)
      invariant LeftAtLane(remaining, rest, order, k, lane) && ListedAtLane(longer, before, rest, order, k, lane)
    {
      var src := JumpIndexForDelta(order[k].dx, order[k].dy, lane);
      OwnDeltaIsUnique(order, rest, k, lane, bound);
      LaneStep(order, longer, remaining, before, rest, k, lane, src);
      if src in remaining {
        LanePush(g, order, longer, before, rest, k, lane, src);
        longer := longer + [src];
        remaining := remaining - {src};
      }
    }
  }

  /** In a bucket and a lane there is one number. */
  lemma OwnDeltaIsUnique(order: seq<Bucket>, srcs: set<nat>, k: nat, lane: nat, bound: nat)
    requires bound <= 4096 && k < |order| && lane < 16 && IsJump(order[k])
    requires forall s: nat :: s in srcs ==> s < bound
    ensures NamesLane(JumpIndexForDelta(order[k].dx, order[k].dy, lane), srcs, order, k, lane)
  {
    JumpIndexRoundTrip(order[k].dx, order[k].dy, lane);
    forall s: nat | s in srcs
      ensures OwnBucket(s, order) == k && s % 16 == lane ==> s == JumpIndexForDelta(order[k].dx, order[k].dy, lane)
      ensures OwnBucket(s, order) >= k && s == JumpIndexForDelta(order[k].dx, order[k].dy, lane) ==>
                OwnBucket(s, order) == k
    {
      OwnBucketMeaning(s, order);
      JumpDeltaRoundTrip(s);
    }
  }

  /** Third pass: what is left, ascending. */
  method Leftovers(g: Graph, order: seq<Bucket>, before: seq<nat>, left: set<nat>, bound: nat) returns (list: seq<nat>)
    requires Ranked(g, order, before)
    requires forall s: nat :: s in before ==> BestBucket(g, s, order) < |order| || OwnBucket(s, order) < |order|
    requires forall s: nat :: s in left ==>
               s < bound && BestBucket(g, s, order) >= |order| && OwnBucket(s, order) >= |order|
    ensures Ranked(g, order, list) && forall s: nat :: s in list <==> s in before || s in left
  {
    list := before;
    for src := 0 to bound
      invariant Ranked(g, order, list) && forall s: nat :: s in list <==> s in before || (s in left && s < src)
    {
      if src in left {
        RankedPush(g, order, list, src);
        list := list + [src];
      }
    }
  }

  method OrderSources(g: Graph, order: seq<Bucket>, table: Table, valid: set<nat>, bound: nat) returns (list: seq<nat>)
    requires IsPriorityTable(g, table) && bound <= 4096 && (forall s: nat :: s in valid ==> s < bound)
    requires forall b :: b in order ==> IsJump(b)
    ensures IsSourceOrder(g, order, valid, list)
  {
    var prioritised, seen := ByPriority(g, order, table, valid, bound);
    var rest := valid - seen;
    var all, left := ByOwnDelta(g, order, prioritised, rest, bound);
    list := Leftovers(g, order, all, left, bound);
  }

  ghost predicate IsDirection(t: Bucket) {
    -7 <= t.dx <= 7 && -7 <= t.dy <= 7
  }

  /** The wanted sources in the angular order around a direction. */
  ghost predicate IsDirectionOrder(g: Graph, t: Bucket, wanted: set<nat>, list: seq<nat>) {
    exists order :: IsPriorityOrder(order, t) && IsSourceOrder(g, order, wanted, list)
  }

  lemma DirectionOrderNoDup(g: Graph, t: Bucket, wanted: set<nat>, list: seq<nat>)
    requires IsDirectionOrder(g, t, wanted, list)
    ensures NoDup(list)
  {
    var order :| IsPriorityOrder(order, t) && IsSourceOrder(g, order, wanted, list);
    forall i, j | 0 <= i < j < |list|
      ensures SourceRankOf(g, list[i], order).Before(SourceRankOf(g, list[j], order))
    {
    }
  }

  /** A direction and the wanted sources leave only one list. */
  lemma DirectionOrderIsUnique(g: Graph, t: Bucket, wanted: set<nat>, a: seq<nat>, b: seq<nat>)
    requires IsDirectionOrder(g, t, wanted, a) && IsDirectionOrder(g, t, wanted, b)
    ensures a == b
  {
    var order :| IsPriorityOrder(order, t) && IsSourceOrder(g, order, wanted, a);
    var order' :| IsPriorityOrder(order', t) && IsSourceOrder(g, order', wanted, b);
    PriorityOrderIsUnique(order, order', t, BUCKETS);
    assert order == order[..BUCKETS] && order' == order'[..BUCKETS];
    SourceOrderIsUnique(g, order, wanted, a, b);
  }

  // ---------------------------------------------------------------------------
  // The priorities of all sources.
  // ---------------------------------------------------------------------------

  /** For each source that lands somewhere, its priorities, each once. */
  ghost predicate ArePriorityDeltas(g: Graph, deltas: map<nat, seq<Bucket>>) {
    forall s: nat :: (s in deltas <==> g.LandingsOf(s) != []) && (s in deltas ==> IsDeltaList(g, s, deltas[s]))
  }

  ghost predicate IsDeltaList(g: Graph, s: nat, list: seq<Bucket>) {
    NoDup(list) && forall b :: b in list <==> HasPriority(g, s, b)
  }

  /** The table entries that come from sources before `src` and the first `k` landings of `src`. */
  ghost predicate IsPriorityTableOf(g: Graph, table: Table, src: nat, k: nat) {
    forall b: Bucket, s: nat :: Encodable(b) && b != Bucket(0, 0) ==>
      (Has(table, JumpIndexForDelta(b.dx, b.dy, 0), s) <==> HasPriorityBefore(g, s, b, src, k))
  }

  ghost predicate HasPriorityBefore(g: Graph, s: nat, b: Bucket, src: nat, k: nat) {
    (s < src && HasPriority(g, s, b)) ||
    (s == src && b != Bucket(0, 0) && exists m ::
      0 <= m < k && m < |g.LandingsOf(s)| && PriorityDelta(s, g.LandingsOf(s)[m]) == b)
  }

  lemma PriorityTableGrows(g: Graph, table: Table, src: nat, k: nat)
    requires IsPriorityTableOf(g, table, src, k) && k < |g.LandingsOf(src)| && src < 4096
    requires Encodable(PriorityDelta(src, g.LandingsOf(src)[k]))
    ensures var delta := PriorityDelta(src, g.LandingsOf(src)[k]);
            var jump := JumpIndexForDelta(delta.dx, delta.dy, 0);
            IsPriorityTableOf(g, if delta != Bucket(0, 0) then WithBit(table, jump, src) else table, src, k + 1)
  {
    var delta := PriorityDelta(src, g.LandingsOf(src)[k]);
    forall b: Bucket, s: nat | Encodable(b) && b != Bucket(0, 0)
      ensures HasPriorityBefore(g, s, b, src, k + 1) <==> HasPriorityBefore(g, s, b, src, k) || (s == src && b == delta)
      ensures JumpIndexForDelta(b.dx, b.dy, 0) == JumpIndexForDelta(delta.dx, delta.dy, 0) ==> b == delta
    {
      SameIndexSameBucket(b, delta);
    }
  }

  lemma SameIndexSameBucket(a: Bucket, b: Bucket)
    requires Encodable(a) && Encodable(b)
    ensures JumpIndexForDelta(a.dx, a.dy, 0) == JumpIndexForDelta(b.dx, b.dy, 0) ==> a == b
  {
    JumpIndexRoundTrip(a.dx, a.dy, 0);
    JumpIndexRoundTrip(b.dx, b.dy, 0);
  }

  lemma NextSourceStarts(g: Graph, table: Table, src: nat)
    requires IsPriorityTableOf(g, table, src, |g.LandingsOf(src)|)
    ensures IsPriorityTableOf(g, table, src + 1, 0)
  {
    forall b: Bucket, s: nat | Encodable(b) && b != Bucket(0, 0)
      ensures HasPriorityBefore(g, s, b, src + 1, 0) <==> HasPriorityBefore(g, s, b, src, |g.LandingsOf(src)|)
    {
    }
  }

  lemma AllSourcesDone(g: Graph, table: Table, bound: nat)
    requires g.Valid(bound) && IsPriorityTableOf(g, table, bound, 0)
    ensures IsPriorityTable(g, table)
  {
    forall b: Bucket, s: nat | Encodable(b) && b != Bucket(0, 0)
      ensures HasPriorityBefore(g, s, b, bound, 0) <==> HasPriority(g, s, b)
    {
    }
  }

  /** The table of priorities and the list of each source, source by source and landing by landing. */
  method PrioritySrcs(g: Graph, bound: nat) returns (table: Table, deltas: map<nat, seq<Bucket>>)
    requires g.Valid(bound) && bound <= 4096
    ensures IsPriorityTable(g, table) && ArePriorityDeltas(g, deltas)
  {
    table, deltas := map[], map[];
    for src := 0 to bound
      invariant IsPriorityTableOf(g, table, src, 0)
      invariant forall s: nat :: (s in deltas <==> s < src && g.LandingsOf(s) != []) &&
                  (s in deltas ==> IsDeltaList(g, s, deltas[s]))
    {
      var list;
      table, list := PrioritiesOf(g, table, src);
      if g.LandingsOf(src) != [] {
        deltas := deltas[src := list];
      }
    }
    AllSourcesDone(g, table, bound);
  }

  method PrioritiesOf(g: Graph, before: Table, src: nat) returns (table: Table, list: seq<Bucket>)
    requires src < 4096 && IsPriorityTableOf(g, before, src, 0)
    ensures IsPriorityTableOf(g, table, src + 1, 0) && IsDeltaList(g, src, list)
  {
    table, list := before, [];
    var entries := g.LandingsOf(src);
    for k := 0 to |entries|
      invariant IsPriorityTableOf(g, table, src, k) && AreDeltasOf(g, src, list, k)
    {
      var delta := PriorityDelta(src, entries[k]);
      JumpDeltaRoundTrip(src);
      PriorityTableGrows(g, table, src, k);
      DeltasGrow(g, src, list, k);
      if delta != Bucket(0, 0) {
        table := WithBit(table, JumpIndexForDelta(delta.dx, delta.dy, 0), src);
        if delta !in list {
          list := list + [delta];
        }
      }
    }
    NextSourceStarts(g, table, src);
  }

  /** The priorities among the first `k` landings, each once. */
  ghost predicate AreDeltasOf(g: Graph, src: nat, list: seq<Bucket>, k: nat) {
    NoDup(list) && forall b :: b in list <==>
      b != Bucket(0, 0) && exists m ::
        0 <= m < k && m < |g.LandingsOf(src)| && PriorityDelta(src, g.LandingsOf(src)[m]) == b
  }

  lemma DeltasGrow(g: Graph, src: nat, list: seq<Bucket>, k: nat)
    requires AreDeltasOf(g, src, list, k) && k < |g.LandingsOf(src)|
    ensures var delta := PriorityDelta(src, g.LandingsOf(src)[k]);
            AreDeltasOf(g, src, if delta != Bucket(0, 0) && delta !in list then list + [delta] else list, k + 1)
  {
  }
}
