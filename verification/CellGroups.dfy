/** Which cells the run planner must keep together, and the joins that find out (src/pnr/pnr.cpp). */
module CellGroups {
  import opened Common
  import opened ElementBits
  import opened PairClosure
  import opened DisjointSets

  /** Timing criticality: the larger deficit first, then the larger delay. */
  datatype Rank = Rank(deficit: real, delay: real) {
    predicate Above(other: Rank) {
      deficit > other.deficit || (deficit == other.deficit && delay > other.delay)
    }
  }

  /** One connection of a cell; `driver` is the planned cell that drives it, if one does. */
  datatype Pin = Pin(isInput: bool, driver: Option<nat>, clock: bool)

  /** A planned cell; `name` is the place of its full name among all names. */
  datatype Cell = Cell(bunch: Option<nat>, stats: Rank, name: int, element: Option<ElementType>, pins: seq<Pin>)

  /** A register bunch; its register may lie outside the plan, and then only its rank is known. */
  datatype Bunch = Bunch(reg: Option<nat>, outsideStats: Rank)

  datatype Design = Design(cells: seq<Cell>, bunches: map<nat, Bunch>) {
    ghost predicate Valid() {
      (forall i :: 0 <= i < |cells| && cells[i].bunch.Some? ==> cells[i].bunch.value in bunches) &&
      (forall b :: b in bunches && bunches[b].reg.Some? ==> bunches[b].reg.value < |cells|) &&
      (forall i, k :: 0 <= i < |cells| && 0 <= k < |cells[i].pins| && cells[i].pins[k].driver.Some?
        ==> cells[i].pins[k].driver.value < |cells|)
    }

    /** A cell of a bunch ranks as the bunch's register does. */
    function RankOf(i: nat): Rank
      requires Valid() && i < |cells|
    {
      match cells[i].bunch
      case None => cells[i].stats
      case Some(b) =>
        match bunches[b].reg
        case None => bunches[b].outsideStats
        case Some(r) => cells[r].stats
    }

    predicate Drives(from: nat, i: nat, k: nat)
      requires i < |cells| && k < |cells[i].pins|
    {
      cells[i].pins[k].isInput && cells[i].pins[k].driver == Some(from)
    }

    /** Dedicated mux and carry chains must stay in one tile neighbourhood. */
    predicate ChainElements(from: nat, i: nat)
      requires from < |cells| && i < |cells|
    {
      (cells[i].element == Some(Muxf7) && cells[from].element == Some(Lut5)) ||
      (cells[i].element == Some(Muxf8) && cells[from].element == Some(Muxf7)) ||
      (cells[i].element == Some(Carry) && cells[from].element == Some(Carry))
    }

    ghost predicate Feeds(from: nat, i: nat)
      requires i < |cells|
    {
      exists k :: 0 <= k < |cells[i].pins| && Drives(from, i, k)
    }

    ghost predicate ClocksWithin(source: nat, i: nat, k: nat)
      requires i < |cells| && k <= |cells[i].pins|
    {
      exists m :: 0 <= m < k && Drives(source, i, m) && cells[i].pins[m].clock
    }

    ghost predicate Clocks(source: nat, i: nat)
      requires i < |cells|
    {
      ClocksWithin(source, i, |cells[i].pins|)
    }

    /** The consumer a clock source is admitted with: the highest rank, and of equals the earliest. */
    ghost predicate IsAnchor(source: nat, c: nat)
      requires Valid()
    {
      c < |cells| && Clocks(source, c) &&
      forall j: nat :: j < |cells| && Clocks(source, j) ==>
        !RankOf(j).Above(RankOf(c)) && (RankOf(j) == RankOf(c) ==> c <= j)
    }

    ghost predicate IsUpstreamPath(path: seq<nat>) {
      |path| > 0 && (forall p :: 0 <= p < |path| ==> path[p] < |cells|) &&
      forall p :: 0 <= p < |path| - 1 ==> Feeds(path[p + 1], path[p])
    }

    /** `c` is the clock source itself or drives it through other cells. */
    ghost predicate InCone(source: nat, c: nat) {
      exists path :: IsUpstreamPath(path) && path[0] == source && path[|path| - 1] == c
    }

    /** The reasons for which two cells must share a run. */
    ghost predicate MustShare(a: nat, b: nat)
      requires Valid()
    {
      a < |cells| && b < |cells| &&
      (SameBunch(a, b) || LedBy(a, b) || (Feeds(b, a) && ChainElements(b, a)) || AnchorsCone(a, b))
    }

    ghost predicate SameBunch(a: nat, b: nat)
      requires a < |cells| && b < |cells|
    {
      cells[a].bunch.Some? && cells[a].bunch == cells[b].bunch
    }

    ghost predicate LedBy(a: nat, r: nat)
      requires Valid() && a < |cells|
    {
      cells[a].bunch.Some? && bunches[cells[a].bunch.value].reg == Some(r)
    }

    ghost predicate AnchorsCone(a: nat, b: nat)
      requires Valid()
    {
      exists source: nat :: source < |cells| && IsAnchor(source, a) && InCone(source, b)
    }

    ghost function SharePairs(): set<(nat, nat)>
      requires Valid()
    {
      set a: nat, b: nat | a < |cells| && b < |cells| && MustShare(a, b) :: (a, b)
    }
  }

  ghost function Cells(d: Design): (all: set<nat>)
    ensures forall c: nat :: c in all <==> c < |d.cells|
  {
    set c {:trigger d.cells[c]} | 0 <= c < |d.cells|
  }

  lemma ConeExtends(d: Design, source: nat, c: nat, up: nat)
    requires d.InCone(source, c) && c < |d.cells| && up < |d.cells| && d.Feeds(up, c)
    ensures d.InCone(source, up)
  {
    var path :| d.IsUpstreamPath(path) && path[0] == source && path[|path| - 1] == c;
    var longer := path + [up];
    assert d.IsUpstreamPath(longer) && longer[0] == source && longer[|longer| - 1] == up;
  }

  /** A set with the source and the drivers of all its members holds the whole cone. */
  lemma ClosedHoldsCone(d: Design, source: nat, seen: set<nat>, c: nat)
    requires source in seen
    requires forall x: nat, up: nat :: x in seen && x < |d.cells| && up < |d.cells| && d.Feeds(up, x) ==> up in seen
    requires d.InCone(source, c)
    ensures c in seen
  {
    var path :| d.IsUpstreamPath(path) && path[0] == source && path[|path| - 1] == c;
    PathStaysInside(d, seen, path, |path| - 1);
  }

  lemma {:induction false} PathStaysInside(d: Design, seen: set<nat>, path: seq<nat>, p: nat)
    requires d.IsUpstreamPath(path) && p < |path| && path[0] in seen
    requires forall x: nat, up: nat :: x in seen && x < |d.cells| && up < |d.cells| && d.Feeds(up, x) ==> up in seen
    ensures path[p] in seen
  {
    if p > 0 {
      PathStaysInside(d, seen, path, p - 1);
      assert d.Feeds(path[p - 1 + 1], path[p - 1]);
    }
  }

  ghost predicate OnlyShared(d: Design, joined: set<(nat, nat)>)
    requires d.Valid()
  {
    forall a: nat, b: nat :: (a, b) in joined ==> d.MustShare(a, b)
  }

  /** Cells of one bunch are joined with the first cell of the bunch. */
  method JoinBunches(d: Design, part: Partition)
    requires d.Valid() && part.Valid() && part.parent.Length == |d.cells| && part.joined == {}
    modifies part, part.parent
    ensures part.Valid() && OnlyShared(d, part.joined)
    ensures forall a: nat, b: nat :: a < |d.cells| && b < |d.cells| && d.SameBunch(a, b) ==>
              Linked<nat>(part.joined, a, b)
  {
    var firsts: map<nat, nat> := map[];
    for i := 0 to |d.cells|
      invariant part.Valid() && OnlyShared(d, part.joined)
      invariant forall b :: b in firsts ==> firsts[b] < i && d.cells[firsts[b]].bunch == Some(b)
      invariant forall j: nat :: j < i && d.cells[j].bunch.Some? ==>
                  d.cells[j].bunch.value in firsts &&
                  (j == firsts[d.cells[j].bunch.value] || (j, firsts[d.cells[j].bunch.value]) in part.joined)
    {
      if d.cells[i].bunch.Some? {
        var b := d.cells[i].bunch.value;
        if b in firsts {
          assert d.SameBunch(i, firsts[b]);
          part.Join(i, firsts[b]);
        } else {
          firsts := firsts[b := i];
        }
      }
    }
    forall a: nat, b: nat | a < |d.cells| && b < |d.cells| && d.SameBunch(a, b)
      ensures Linked<nat>(part.joined, a, b)
    {
      var first := firsts[d.cells[a].bunch.value];
      LinkedToFirst(part.joined, a, first);
      LinkedToFirst(part.joined, b, first);
      LinkedSym(part.joined, b, first);
      LinkedTrans(part.joined, a, first, b);
    }
  }

  lemma LinkedToFirst(joined: set<(nat, nat)>, a: nat, first: nat)
    requires a == first || (a, first) in joined
    ensures Linked<nat>(joined, a, first)
  {
    if a == first {
      LinkedRefl(joined, a);
    } else {
      LinkedPair(joined, a, first);
    }
  }

  method JoinFds(d: Design, part: Partition)
    requires d.Valid() && part.Valid() && part.parent.Length == |d.cells| && OnlyShared(d, part.joined)
    modifies part, part.parent
    ensures part.Valid() && OnlyShared(d, part.joined) && old(part.joined) <= part.joined
    ensures forall a: nat, r: nat :: a < |d.cells| && d.LedBy(a, r) ==> (a, r) in part.joined
  {
    for i := 0 to |d.cells|
      invariant part.Valid() && OnlyShared(d, part.joined) && old(part.joined) <= part.joined
      invariant forall a: nat, r: nat :: a < i && d.LedBy(a, r) ==> (a, r) in part.joined
    {
      if d.cells[i].bunch.Some? && d.bunches[d.cells[i].bunch.value].reg.Some? {
        var r := d.bunches[d.cells[i].bunch.value].reg.value;
        assert d.LedBy(i, r);
        part.Join(i, r);
      }
    }
  }

  /** The anchors found among cells before `i` and the first `k` pins of `i`. */
  ghost predicate AnchorsSoFar(d: Design, anchors: map<nat, nat>, i: nat, k: nat)
    requires d.Valid() && i <= |d.cells| && (if i < |d.cells| then k <= |d.cells[i].pins| else k == 0)
  {
    (forall s: nat :: s in anchors ==> s < |d.cells| && ConsumesSoFar(d, s, anchors[s], i, k)) &&
    (forall s: nat, j: nat :: ConsumesSoFar(d, s, j, i, k) ==> Outranked(d, anchors, s, j))
  }

  /** The anchor kept for source `s` ranks at least as high as consumer `j`, and is not later among equals. */
  ghost predicate Outranked(d: Design, anchors: map<nat, nat>, s: nat, j: nat)
    requires d.Valid()
  {
    s in anchors && anchors[s] < |d.cells| && j < |d.cells| &&
    !d.RankOf(j).Above(d.RankOf(anchors[s])) && (d.RankOf(j) == d.RankOf(anchors[s]) ==> anchors[s] <= j)
  }

  ghost predicate ConsumesSoFar(d: Design, source: nat, j: nat, i: nat, k: nat)
    requires i <= |d.cells| && (if i < |d.cells| then k <= |d.cells[i].pins| else k == 0)
  {
    (j < i && d.Clocks(source, j)) || (j == i && i < |d.cells| && d.ClocksWithin(source, i, k))
  }

  /** One cell's pins: join it with its chain drivers and offer it as a clock consumer. */
  method VisitPins(d: Design, part: Partition, i: nat, anchors: map<nat, nat>) returns (next: map<nat, nat>)
    requires d.Valid() && part.Valid() && part.parent.Length == |d.cells| && OnlyShared(d, part.joined)
    requires i < |d.cells| && AnchorsSoFar(d, anchors, i, 0)
    modifies part, part.parent
    ensures part.Valid() && OnlyShared(d, part.joined) && old(part.joined) <= part.joined
    ensures forall from: nat :: from < |d.cells| && d.Feeds(from, i) && d.ChainElements(from, i) ==>
              (i, from) in part.joined
    ensures AnchorsSoFar(d, next, i, |d.cells[i].pins|)
  {
    next := anchors;
    for k := 0 to |d.cells[i].pins|
      invariant part.Valid() && OnlyShared(d, part.joined) && old(part.joined) <= part.joined
      invariant forall m: nat, from: nat ::
                  m < k && from < |d.cells| && d.Drives(from, i, m) && d.ChainElements(from, i)
                  ==> (i, from) in part.joined
      invariant AnchorsSoFar(d, next, i, k)
    {
      var pin := d.cells[i].pins[k];
      ghost var before := next;
      if pin.isInput && pin.driver.Some? {
        var from := pin.driver.value;
        assert d.Drives(from, i, k);
        if d.ChainElements(from, i) {
          assert d.Feeds(from, i);
          part.Join(i, from);
        }
        if pin.clock {
          if from !in next || d.RankOf(i).Above(d.RankOf(next[from])) {
            next := next[from := i];
          }
        }
      }
      AnchorsAfterPin(d, i, k, before, next);
    }
  }

  lemma AnchorsAfterPin(d: Design, i: nat, k: nat, before: map<nat, nat>, next: map<nat, nat>)
    requires d.Valid() && i < |d.cells| && k < |d.cells[i].pins| && AnchorsSoFar(d, before, i, k)
    requires var pin := d.cells[i].pins[k];
             next == if pin.isInput && pin.driver.Some? && pin.clock &&
                        (pin.driver.value !in before || d.RankOf(i).Above(d.RankOf(before[pin.driver.value])))
                     then before[pin.driver.value := i] else before
    ensures AnchorsSoFar(d, next, i, k + 1)
  {
    var pin := d.cells[i].pins[k];
    forall s: nat, j: nat
      ensures ConsumesSoFar(d, s, j, i, k + 1) <==>
              ConsumesSoFar(d, s, j, i, k) || (j == i && d.Drives(s, i, k) && pin.clock)
    {
    }
    forall s: nat, j: nat | ConsumesSoFar(d, s, j, i, k + 1)
      ensures Outranked(d, next, s, j)
    {
      if ConsumesSoFar(d, s, j, i, k) {
        assert Outranked(d, before, s, j);
      } else {
        assert j == i && pin.isInput && pin.driver == Some(s) && pin.clock;
        if s in before {
          assert ConsumesSoFar(d, s, before[s], i, k);
          assert before[s] <= i;
        }
      }
    }
    forall s: nat | s in next
      ensures s < |d.cells| && ConsumesSoFar(d, s, next[s], i, k + 1)
    {
      assert s in before && next[s] == before[s] ==> ConsumesSoFar(d, s, before[s], i, k);
    }
  }

  lemma AnchorsAfterCell(d: Design, i: nat, anchors: map<nat, nat>)
    requires d.Valid() && i < |d.cells| && AnchorsSoFar(d, anchors, i, |d.cells[i].pins|)
    ensures AnchorsSoFar(d, anchors, i + 1, 0)
  {
    forall s: nat, j: nat
      ensures ConsumesSoFar(d, s, j, i + 1, 0) <==> ConsumesSoFar(d, s, j, i, |d.cells[i].pins|)
    {
      assert i + 1 < |d.cells| ==> !d.ClocksWithin(s, i + 1, 0);
    }
    forall s: nat | s in anchors
      ensures s < |d.cells| && ConsumesSoFar(d, s, anchors[s], i + 1, 0)
    {
      assert ConsumesSoFar(d, s, anchors[s], i, |d.cells[i].pins|);
    }
  }

  /** At the end of the netlist the anchors kept are the ones the specification names. */
  lemma AnchorsAtEnd(d: Design, anchors: map<nat, nat>)
    requires d.Valid() && AnchorsSoFar(d, anchors, |d.cells|, 0)
    ensures forall s: nat :: s in anchors ==> s < |d.cells| && d.IsAnchor(s, anchors[s])
    ensures forall s: nat, c: nat :: s < |d.cells| && d.IsAnchor(s, c) ==> s in anchors && anchors[s] == c
  {
    forall s: nat, j: nat
      ensures ConsumesSoFar(d, s, j, |d.cells|, 0) <==> j < |d.cells| && d.Clocks(s, j)
    {
    }
    forall s: nat, c: nat | s < |d.cells| && d.IsAnchor(s, c)
      ensures s in anchors && anchors[s] == c
    {
      assert ConsumesSoFar(d, s, c, |d.cells|, 0);
      assert ConsumesSoFar(d, s, anchors[s], |d.cells|, 0);
      assert Outranked(d, anchors, s, c) && Outranked(d, anchors, s, anchors[s]);
    }
  }

  method JoinChains(d: Design, part: Partition) returns (anchors: map<nat, nat>)
    requires d.Valid() && part.Valid() && part.parent.Length == |d.cells| && OnlyShared(d, part.joined)
    modifies part, part.parent
    ensures part.Valid() && OnlyShared(d, part.joined) && old(part.joined) <= part.joined
    ensures forall a: nat, b: nat :: a < |d.cells| && b < |d.cells| && d.Feeds(b, a) && d.ChainElements(b, a)
              ==> (a, b) in part.joined
    ensures forall s: nat :: s in anchors ==> s < |d.cells| && d.IsAnchor(s, anchors[s])
    ensures forall s: nat, c: nat :: s < |d.cells| && d.IsAnchor(s, c) ==> s in anchors && anchors[s] == c
  {
    anchors := map[];
    for i := 0 to |d.cells|
      invariant part.Valid() && OnlyShared(d, part.joined) && old(part.joined) <= part.joined
      invariant forall a: nat, b: nat :: a < i && b < |d.cells| && d.Feeds(b, a) && d.ChainElements(b, a)
                  ==> (a, b) in part.joined
      invariant AnchorsSoFar(d, anchors, i, 0)
    {
      anchors := VisitPins(d, part, i, anchors);
      AnchorsAfterCell(d, i, anchors);
    }
    AnchorsAtEnd(d, anchors);
  }

  /** Admit the cone of a clock source with its anchor: depth first over the drivers, each cell once. */
  method JoinCone(d: Design, part: Partition, source: nat, anchor: nat)
    requires d.Valid() && part.Valid() && part.parent.Length == |d.cells| && OnlyShared(d, part.joined)
    requires source < |d.cells| && d.IsAnchor(source, anchor)
    modifies part, part.parent
    ensures part.Valid() && OnlyShared(d, part.joined) && old(part.joined) <= part.joined
    ensures forall c: nat :: d.InCone(source, c) ==> (anchor, c) in part.joined
  {
    var pending, seen: set<nat> := [source], {};
    assert d.IsUpstreamPath([source]);
    assert d.InCone(source, source);
    while pending != []
      invariant part.Valid() && OnlyShared(d, part.joined) && old(part.joined) <= part.joined
      invariant IsVisit(d, source, seen, pending)
      invariant forall c: nat :: c in seen ==> (anchor, c) in part.joined
      decreases |Cells(d) - seen|, |pending|
    {
      var cell := pending[|pending| - 1];
      assert cell in pending;
      if cell in seen {
        VisitSkips(d, source, seen, pending);
        pending := pending[..|pending| - 1];
      } else {
        var ups := Drivers(d, cell);
        VisitAdds(d, source, seen, pending, ups);
        assert d.AnchorsCone(anchor, cell);
        part.Join(anchor, cell);
        pending := pending[..|pending| - 1] + ups;
        seen := seen + {cell};
      }
    }
    forall c: nat | d.InCone(source, c)
      ensures (anchor, c) in part.joined
    {
      ClosedHoldsCone(d, source, seen, c);
    }
  }

  /** What the traversal keeps: only cone cells are met, and the drivers of seen cells are seen or pending. */
  ghost predicate IsVisit(d: Design, source: nat, seen: set<nat>, pending: seq<nat>) {
    seen <= Cells(d) && (source in seen || source in pending) &&
    (forall c: nat :: c in pending ==> c < |d.cells| && d.InCone(source, c)) &&
    (forall x: nat, up: nat :: x in seen && x < |d.cells| && up < |d.cells| && d.Feeds(up, x) ==>
      up in seen || up in pending)
  }

  lemma VisitSkips(d: Design, source: nat, seen: set<nat>, pending: seq<nat>)
    requires IsVisit(d, source, seen, pending) && pending != [] && pending[|pending| - 1] in seen
    ensures IsVisit(d, source, seen, pending[..|pending| - 1])
  {
    PopLast(pending);
    var rest := pending[..|pending| - 1];
    forall c: nat | c in rest
      ensures c < |d.cells| && d.InCone(source, c)
    {
      assert c in pending;
    }
  }

  lemma PopLast(pending: seq<nat>)
    requires pending != []
    ensures forall c: nat :: c in pending ==> c in pending[..|pending| - 1] || c == pending[|pending| - 1]
    ensures forall c: nat :: c in pending[..|pending| - 1] ==> c in pending
  {
    assert pending == pending[..|pending| - 1] + [pending[|pending| - 1]];
  }

  lemma VisitAdds(d: Design, source: nat, seen: set<nat>, pending: seq<nat>, ups: seq<nat>)
    requires IsVisit(d, source, seen, pending) && pending != [] && pending[|pending| - 1] !in seen
    requires pending[|pending| - 1] < |d.cells|
    requires forall up: nat :: up in ups <==> up < |d.cells| && d.Feeds(up, pending[|pending| - 1])
    ensures IsVisit(d, source, seen + {pending[|pending| - 1]}, pending[..|pending| - 1] + ups)
    ensures |Cells(d) - (seen + {pending[|pending| - 1]})| < |Cells(d) - seen|
  {
    var cell, rest := pending[|pending| - 1], pending[..|pending| - 1];
    PopLast(pending);
    assert cell in pending;
    assert Cells(d) - (seen + {cell}) == Cells(d) - seen - {cell};
    forall c: nat | c in rest + ups
      ensures c < |d.cells| && d.InCone(source, c)
    {
      if c in rest {
        assert c in pending;
      } else {
        ConeExtends(d, source, cell, c);
      }
    }
  }

  /** The planned cells that drive inputs of `cell`. */
  method Drivers(d: Design, cell: nat) returns (ups: seq<nat>)
    requires d.Valid() && cell < |d.cells|
    ensures forall up: nat :: up in ups <==> up < |d.cells| && d.Feeds(up, cell)
  {
    ups := [];
    for k := 0 to |d.cells[cell].pins|
      invariant forall up: nat :: up in ups <==>
                  up < |d.cells| && exists m :: 0 <= m < k && d.Drives(up, cell, m)
    {
      var pin := d.cells[cell].pins[k];
      if pin.isInput && pin.driver.Some? {
        assert d.Drives(pin.driver.value, cell, k);
        ups := ups + [pin.driver.value];
      }
    }
  }

  method JoinCones(d: Design, part: Partition, anchors: map<nat, nat>)
    requires d.Valid() && part.Valid() && part.parent.Length == |d.cells| && OnlyShared(d, part.joined)
    requires forall s: nat :: s in anchors ==> s < |d.cells| && d.IsAnchor(s, anchors[s])
    modifies part, part.parent
    ensures part.Valid() && OnlyShared(d, part.joined) && old(part.joined) <= part.joined
    ensures forall s: nat, c: nat :: s in anchors && d.InCone(s, c) ==> (anchors[s], c) in part.joined
  {
    var rest := anchors.Keys;
    while rest != {}
      invariant part.Valid() && OnlyShared(d, part.joined) && old(part.joined) <= part.joined
      invariant rest <= anchors.Keys
      invariant forall s: nat, c: nat :: s in anchors && s !in rest && d.InCone(s, c) ==> (anchors[s], c) in part.joined
    {
      var source :| source in rest;   // the hash map is walked in no particular order
      JoinCone(d, part, source, anchors[source]);
      rest := rest - {source};
    }
  }

  /**
   The joins of the planner: afterwards two cells have the same root exactly when the
   equivalence closure of the reasons to share a run relates them.
   */
  method JoinCells(d: Design) returns (part: Partition)
    requires d.Valid()
    ensures part.Valid() && fresh(part) && fresh(part.parent) && part.parent.Length == |d.cells|
    ensures forall a: nat, b: nat :: a < |d.cells| && b < |d.cells| ==>
              (part.Representatives()[a] == part.Representatives()[b] <==> Linked(d.SharePairs(), a, b))
  {
    part := new Partition(|d.cells|);
    JoinBunches(d, part);
    ghost var afterBunches := part.joined;
    JoinFds(d, part);
    var anchors := JoinChains(d, part);
    JoinCones(d, part, anchors);
    JoinedIsShared(d, part.joined, afterBunches, anchors);
  }

  lemma JoinedIsShared(d: Design, joined: set<(nat, nat)>, afterBunches: set<(nat, nat)>, anchors: map<nat, nat>)
    requires d.Valid() && OnlyShared(d, joined) && afterBunches <= joined
    requires forall a: nat, b: nat :: a < |d.cells| && b < |d.cells| && d.SameBunch(a, b) ==>
               Linked<nat>(afterBunches, a, b)
    requires forall a: nat, r: nat :: a < |d.cells| && d.LedBy(a, r) ==> (a, r) in joined
    requires forall a: nat, b: nat :: a < |d.cells| && b < |d.cells| && d.Feeds(b, a) && d.ChainElements(b, a)
               ==> (a, b) in joined
    requires forall s: nat, c: nat :: s < |d.cells| && d.IsAnchor(s, c) ==> s in anchors && anchors[s] == c
    requires forall s: nat, c: nat :: s in anchors && d.InCone(s, c) ==> (anchors[s], c) in joined
    ensures forall a: nat, b: nat :: Linked<nat>(joined, a, b) <==> Linked<nat>(d.SharePairs(), a, b)
  {
    var shared := d.SharePairs();
    forall a: nat, b: nat | (a, b) in joined
      ensures Linked<nat>(shared, a, b)
    {
      assert (a, b) in shared;
      LinkedPair(shared, a, b);
    }
    forall a: nat, b: nat | (a, b) in shared
      ensures Linked<nat>(joined, a, b)
    {
      if d.SameBunch(a, b) {
        LinkedMono(afterBunches, joined, a, b);
      } else {
        assert (a, b) in joined;
        LinkedPair(joined, a, b);
      }
    }
    forall a: nat, b: nat
      ensures Linked<nat>(joined, a, b) <==> Linked<nat>(shared, a, b)
    {
      if Linked<nat>(joined, a, b) {
        LinkedWithin(joined, shared, a, b);
      }
      if Linked<nat>(shared, a, b) {
        LinkedWithin(shared, joined, a, b);
      }
    }
  }
}
