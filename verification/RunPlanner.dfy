/** The plan of place-and-route runs (src/pnr/pnr.cpp, Pnr::plan). */
module RunPlanner {
  import opened Common
  import opened PairClosure
  import opened DisjointSets
  import opened CellGroups
  import opened Ordering

  /** An indivisible group of cells with what it is ordered by. */
  datatype Group = Group(cells: seq<nat>, deficit: real, delay: real, name: int)

  datatype Run = Run(cells: seq<nat>, deficit: real)

  function MaxReal(a: real, b: real): real {
    if a >= b then a else b
  }

  // ---------------------------------------------------------------------------
  // Groups: the classes of the union-find.
  // ---------------------------------------------------------------------------

  /** The deficit is the worst of the members, the delay the worst but at least zero, the name the first. */
  ghost predicate Describes(d: Design, g: Group)
    requires d.Valid()
  {
    (forall c :: c in g.cells ==> c < |d.cells| && d.RankOf(c).deficit <= g.deficit && d.RankOf(c).delay <= g.delay &&
                                  g.name <= d.cells[c].name) &&
    0.0 <= g.delay &&
    (exists c :: c in g.cells && d.RankOf(c).deficit == g.deficit) &&
    (g.delay == 0.0 || exists c :: c in g.cells && d.RankOf(c).delay == g.delay) &&
    (exists c :: c in g.cells && d.cells[c].name == g.name)
  }

  /** `g` holds the cells before `i` whose root is `root`. */
  ghost predicate HoldsClass(d: Design, roots: seq<nat>, i: nat, root: nat, g: Group)
    requires d.Valid() && |roots| == |d.cells|
  {
    NoDup(g.cells) && (forall c: nat :: c in g.cells <==> c < i && c < |roots| && roots[c] == root) && Describes(d, g)
  }

  function WithCell(d: Design, grouped: map<nat, Group>, root: nat, i: nat): Group
    requires d.Valid() && i < |d.cells|
  {
    var rank, name := d.RankOf(i), d.cells[i].name;
    if root in grouped then
      var g := grouped[root];
      Group(g.cells + [i], MaxReal(g.deficit, rank.deficit), MaxReal(g.delay, rank.delay),
            if name < g.name then name else g.name)
    else
      Group([i], rank.deficit, MaxReal(0.0, rank.delay), name)
  }

  lemma ClassGrows(d: Design, roots: seq<nat>, grouped: map<nat, Group>, i: nat)
    requires d.Valid() && |roots| == |d.cells| && i < |roots|
    requires roots[i] in grouped ==> HoldsClass(d, roots, i, roots[i], grouped[roots[i]])
    requires roots[i] !in grouped ==> forall j :: 0 <= j < i ==> roots[j] != roots[i]
    ensures HoldsClass(d, roots, i + 1, roots[i], WithCell(d, grouped, roots[i], i))
  {
    var now := WithCell(d, grouped, roots[i], i);
    assert i in now.cells;
    if roots[i] in grouped {
      var g := grouped[roots[i]];
      assert forall c :: c in g.cells ==> c in now.cells;
    }
  }

  ghost predicate InSomeGroup(groups: seq<Group>, c: nat) {
    exists g :: g in groups && c in g.cells
  }

  ghost predicate IsClass(d: Design, roots: seq<nat>, g: Group)
    requires d.Valid() && |roots| == |d.cells|
  {
    exists root: nat :: HoldsClass(d, roots, |roots|, root, g)
  }

  ghost predicate NoSharedCell(g: Group, h: Group) {
    forall c :: c in g.cells ==> c !in h.cells
  }

  ghost predicate AreClasses(d: Design, roots: seq<nat>, groups: seq<Group>)
    requires d.Valid() && |roots| == |d.cells|
  {
    NoDup(groups) && (forall g :: g in groups ==> IsClass(d, roots, g)) &&
    (forall g, h :: g in groups && h in groups && g != h ==> NoSharedCell(g, h)) &&
    forall c: nat :: c < |roots| ==> InSomeGroup(groups, c)
  }

  method BuildGroups(d: Design, part: Partition) returns (groups: seq<Group>)
    requires d.Valid() && part.Valid() && part.parent.Length == |d.cells|
    modifies part.parent
    ensures AreClasses(d, old(part.Representatives()), groups)
  {
    ghost var roots := part.Representatives();
    var grouped: map<nat, Group> := map[];
    for i := 0 to |d.cells|
      invariant part.Valid() && part.Representatives() == roots
      invariant GroupsSoFar(d, roots, grouped, i)
    {
      var root := part.Root(i);
      GroupsGrow(d, roots, grouped, i);
      grouped := grouped[root := WithCell(d, grouped, root, i)];
    }
    groups := ListGroups(d, roots, grouped);
  }

  ghost predicate GroupsSoFar(d: Design, roots: seq<nat>, grouped: map<nat, Group>, i: nat)
    requires d.Valid() && |roots| == |d.cells| && i <= |roots|
  {
    (forall r: nat :: r in grouped ==> HoldsClass(d, roots, i, r, grouped[r])) &&
    (forall j: nat :: j < i ==> roots[j] in grouped)
  }

  lemma GroupsGrow(d: Design, roots: seq<nat>, grouped: map<nat, Group>, i: nat)
    requires d.Valid() && |roots| == |d.cells| && i < |roots| && GroupsSoFar(d, roots, grouped, i)
    ensures GroupsSoFar(d, roots, grouped[roots[i] := WithCell(d, grouped, roots[i], i)], i + 1)
  {
    ClassGrows(d, roots, grouped, i);
    forall r: nat | r in grouped && r != roots[i]
      ensures HoldsClass(d, roots, i + 1, r, grouped[r])
    {
      OtherClassStays(d, roots, i, r, grouped[r]);
    }
  }

  lemma OtherClassStays(d: Design, roots: seq<nat>, i: nat, r: nat, g: Group)
    requires d.Valid() && |roots| == |d.cells| && i < |roots| && roots[i] != r
    requires HoldsClass(d, roots, i, r, g)
    ensures HoldsClass(d, roots, i + 1, r, g)
  {
  }

  /** The groups of the hash map, in whatever order it is walked. */
  method ListGroups(d: Design, ghost roots: seq<nat>, grouped: map<nat, Group>) returns (groups: seq<Group>)
    requires d.Valid() && |roots| == |d.cells| && GroupsSoFar(d, roots, grouped, |roots|)
    ensures AreClasses(d, roots, groups)
  {
    groups := [];
    var rest := grouped.Keys;
    while rest != {}
      invariant rest <= grouped.Keys && GroupsListed(grouped, rest, groups)
    {
      var r: nat :| r in rest;
      ListedNext(d, roots, grouped, rest, groups, r);
      groups := groups + [grouped[r]];
      rest := rest - {r};
    }
    AllListed(d, roots, grouped, groups);
  }

  ghost predicate GroupsListed(grouped: map<nat, Group>, rest: set<nat>, groups: seq<Group>) {
    NoDup(groups) &&
    (forall g :: g in groups ==> exists r: nat :: r in grouped && r !in rest && grouped[r] == g) &&
    (forall r: nat :: r in grouped && r !in rest ==> grouped[r] in groups)
  }

  lemma ListedNext(d: Design, roots: seq<nat>, grouped: map<nat, Group>, rest: set<nat>, groups: seq<Group>, r: nat)
    requires d.Valid() && |roots| == |d.cells| && GroupsSoFar(d, roots, grouped, |roots|)
    requires rest <= grouped.Keys && GroupsListed(grouped, rest, groups) && r in rest
    ensures GroupsListed(grouped, rest - {r}, groups + [grouped[r]])
  {
    forall other: nat | other in grouped && other != r
      ensures grouped[other] != grouped[r]
    {
      ClassesDiffer(d, roots, grouped[other], other, grouped[r], r);
    }
    assert grouped[r] !in groups;
    NoDupConcat(groups, [grouped[r]]);
  }

  lemma AllListed(d: Design, roots: seq<nat>, grouped: map<nat, Group>, groups: seq<Group>)
    requires d.Valid() && |roots| == |d.cells| && GroupsSoFar(d, roots, grouped, |roots|)
    requires GroupsListed(grouped, {}, groups)
    ensures AreClasses(d, roots, groups)
  {
    forall c: nat | c < |roots|
      ensures InSomeGroup(groups, c)
    {
      var g := grouped[roots[c]];
      assert HoldsClass(d, roots, |roots|, roots[c], g);
      assert g in groups && c in g.cells;
    }
    forall g, h | g in groups && h in groups && g != h
      ensures NoSharedCell(g, h)
    {
      var r: nat :| r in grouped && grouped[r] == g;
      var q: nat :| q in grouped && grouped[q] == h;
      ClassesDiffer(d, roots, g, r, h, q);
    }
    forall g | g in groups
      ensures IsClass(d, roots, g)
    {
      var r: nat :| r in grouped && grouped[r] == g;
      assert HoldsClass(d, roots, |roots|, r, g);
    }
  }

  lemma ClassesDiffer(d: Design, roots: seq<nat>, g: Group, r: nat, h: Group, s: nat)
    requires d.Valid() && |roots| == |d.cells| && r != s
    requires HoldsClass(d, roots, |roots|, r, g) && HoldsClass(d, roots, |roots|, s, h)
    ensures g != h && NoSharedCell(g, h)
  {
    var c :| c in g.cells && d.RankOf(c).deficit == g.deficit;
  }

  // ---------------------------------------------------------------------------
  // Packing groups into runs.
  // ---------------------------------------------------------------------------

  function Flat(groups: seq<Group>): seq<nat> {
    if groups == [] then [] else Flat(groups[..|groups| - 1]) + groups[|groups| - 1].cells
  }

  /** Add each group to the last run if it fits there, else open a new run. */
  function NextFit(groups: seq<Group>, target: nat): seq<seq<Group>> {
    if groups == [] then []
    else
      var packs, g := NextFit(groups[..|groups| - 1], target), groups[|groups| - 1];
      if packs == [] || |Flat(packs[|packs| - 1])| + |g.cells| > target
      then packs + [[g]]
      else packs[|packs| - 1 := packs[|packs| - 1] + [g]]
  }

  function WorstDeficit(pack: seq<Group>): real
    requires pack != []
  {
    if |pack| == 1 then pack[0].deficit
    else MaxReal(WorstDeficit(pack[..|pack| - 1]), pack[|pack| - 1].deficit)
  }

  function RunOf(pack: seq<Group>): Run
    requires pack != []
  {
    Run(Flat(pack), WorstDeficit(pack))
  }

  ghost predicate AreRuns(runs: seq<Run>, packs: seq<seq<Group>>) {
    |runs| == |packs| && forall i :: 0 <= i < |runs| ==> packs[i] != [] && runs[i] == RunOf(packs[i])
  }

  function Concat(packs: seq<seq<Group>>): seq<Group> {
    if packs == [] then [] else Concat(packs[..|packs| - 1]) + packs[|packs| - 1]
  }

  lemma {:induction false} PacksAreNonempty(groups: seq<Group>, target: nat)
    ensures forall i :: 0 <= i < |NextFit(groups, target)| ==> NextFit(groups, target)[i] != []
  {
    if groups != [] {
      PacksAreNonempty(groups[..|groups| - 1], target);
    }
  }

  /** Next-fit keeps every group, whole and in order. */
  lemma {:induction false} NextFitKeepsGroups(groups: seq<Group>, target: nat)
    ensures Concat(NextFit(groups, target)) == groups
  {
    if groups != [] {
      var front, g := groups[..|groups| - 1], groups[|groups| - 1];
      NextFitKeepsGroups(front, target);
      var before, after := NextFit(front, target), NextFit(groups, target);
      assert groups == front + [g];
      if |after| > |before| {
        assert after[..|after| - 1] == before;
      } else {
        var rest, last := before[..|before| - 1], before[|before| - 1];
        assert after[..|after| - 1] == rest && after[|after| - 1] == last + [g];
        assert Concat(rest) + (last + [g]) == (Concat(rest) + last) + [g];
      }
    }
  }

  /** Two packs in a row exceed the target together. */
  ghost predicate Exceeds(packs: seq<seq<Group>>, i: nat, target: nat)
    requires 0 < i < |packs|
  {
    |Flat(packs[i - 1])| + |Flat(packs[i])| > target
  }

  ghost predicate IsTight(packs: seq<seq<Group>>, target: nat) {
    (forall pack :: pack in packs && |Flat(pack)| > target ==> |pack| == 1) &&
    (forall i :: 0 < i < |packs| ==> Exceeds(packs, i, target))
  }

  lemma FlatOfOne(g: Group)
    ensures Flat([g]) == g.cells
  {
    assert [g][..0] == [];
  }

  lemma TightWithNewPack(packs: seq<seq<Group>>, g: Group, target: nat)
    requires IsTight(packs, target) && (packs != [] ==> |Flat(packs[|packs| - 1])| + |g.cells| > target)
    ensures IsTight(packs + [[g]], target)
  {
    var more := packs + [[g]];
    FlatOfOne(g);
    forall i | 0 < i < |more|
      ensures Exceeds(more, i, target)
    {
      assert i < |packs| ==> Exceeds(packs, i, target);
    }
  }

  lemma TightWithLargerPack(packs: seq<seq<Group>>, g: Group, target: nat)
    requires IsTight(packs, target) && packs != [] && |Flat(packs[|packs| - 1])| + |g.cells| <= target
    ensures IsTight(packs[|packs| - 1 := packs[|packs| - 1] + [g]], target)
  {
    var last := |packs| - 1;
    var more := packs[last := packs[last] + [g]];
    FlatAppend(packs[last], g);
    forall i | 0 < i < |more|
      ensures Exceeds(more, i, target)
    {
      assert Exceeds(packs, i, target);
    }
  }

  /** A run over the target is a single group, and two runs in a row exceed the target together. */
  lemma {:induction false} NextFitIsTight(groups: seq<Group>, target: nat)
    ensures IsTight(NextFit(groups, target), target)
  {
    if groups != [] {
      var front, g := groups[..|groups| - 1], groups[|groups| - 1];
      NextFitIsTight(front, target);
      var packs := NextFit(front, target);
      if packs == [] || |Flat(packs[|packs| - 1])| + |g.cells| > target {
        TightWithNewPack(packs, g, target);
      } else {
        TightWithLargerPack(packs, g, target);
      }
    }
  }

  lemma FlatAppend(pack: seq<Group>, g: Group)
    ensures Flat(pack + [g]) == Flat(pack) + g.cells
  {
    assert (pack + [g])[..|pack|] == pack;
  }

  lemma {:induction false} FlatConcat(a: seq<Group>, b: seq<Group>)
    ensures Flat(a + b) == Flat(a) + Flat(b)
  {
    if b == [] {
      assert a + b == a;
    } else {
      var front, g := b[..|b| - 1], b[|b| - 1];
      FlatConcat(a, front);
      FlatAppend(a + front, g);
      FlatAppend(front, g);
      Regroup(a, front, [g]);
      assert b == front + [g];
      Regroup(Flat(a), Flat(front), g.cells);
    }
  }

  lemma Regroup<T>(x: seq<T>, y: seq<T>, z: seq<T>)
    ensures x + (y + z) == (x + y) + z
  {
  }

  lemma {:induction false} FlatMembers(groups: seq<Group>)
    ensures forall c :: c in Flat(groups) <==> exists g :: g in groups && c in g.cells
  {
    if groups != [] {
      var front := groups[..|groups| - 1];
      FlatMembers(front);
      assert groups == front + [groups[|groups| - 1]];
    }
  }

  lemma {:induction false} FlatNoDup(groups: seq<Group>)
    requires forall g :: g in groups ==> NoDup(g.cells)
    requires forall i, j, c :: 0 <= i < j < |groups| && c in groups[i].cells ==> c !in groups[j].cells
    ensures NoDup(Flat(groups))
  {
    if groups != [] {
      var front, last := groups[..|groups| - 1], groups[|groups| - 1];
      FlatNoDup(front);
      FlatMembers(front);
      assert last in groups;
      forall c | c in Flat(front)
        ensures c !in last.cells
      {
        var g :| g in front && c in g.cells;
      }
      NoDupConcat(Flat(front), last.cells);
    }
  }

  function AllCells(runs: seq<Run>): seq<nat> {
    if runs == [] then [] else AllCells(runs[..|runs| - 1]) + runs[|runs| - 1].cells
  }

  lemma {:induction false} RunsHoldFlat(runs: seq<Run>, packs: seq<seq<Group>>)
    requires AreRuns(runs, packs)
    ensures AllCells(runs) == Flat(Concat(packs))
  {
    if runs != [] {
      RunsHoldFlat(runs[..|runs| - 1], packs[..|packs| - 1]);
      FlatConcat(Concat(packs[..|packs| - 1]), packs[|packs| - 1]);
    }
  }

  /** Two runs in a row could not have been one. */
  ghost predicate RunsExceed(runs: seq<Run>, i: nat, target: nat)
    requires 0 < i < |runs|
  {
    |runs[i - 1].cells| + |runs[i].cells| > target
  }

  lemma TwoRuns(runs: seq<Run>)
    requires |runs| >= 2
    ensures |AllCells(runs)| ==
              |AllCells(runs[..|runs| - 2])| + |runs[|runs| - 2].cells| + |runs[|runs| - 1].cells|
  {
    assert runs[..|runs| - 1][..|runs| - 2] == runs[..|runs| - 2];
  }

  /** Sizes that exceed the target two by two bound their number. */
  lemma {:induction false} RunCount(runs: seq<Run>, target: nat)
    requires forall i :: 0 < i < |runs| ==> RunsExceed(runs, i, target)
    ensures |AllCells(runs)| >= (|runs| / 2) * (target + 1)
  {
    if |runs| >= 2 {
      var front := runs[..|runs| - 2];
      forall i | 0 < i < |front|
        ensures RunsExceed(front, i, target)
      {
        assert RunsExceed(runs, i, target);
      }
      RunCount(front, target);
      TwoRuns(runs);
      assert RunsExceed(runs, |runs| - 1, target);
      NextMultiple(|front| / 2, target + 1);
    }
  }

  lemma NextMultiple(n: nat, size: nat)
    ensures (n + 1) * size == n * size + size
  {
  }

  lemma {:induction false} CellCount(s: seq<nat>, n: nat)
    requires NoDup(s) && forall c: nat :: c in s <==> c < n
    ensures |s| == n
  {
    if n == 0 {
      assert forall k :: 0 <= k < |s| ==> s[k] in s;
    } else {
      assert n - 1 in s;
      var at :| 0 <= at < |s| && s[at] == n - 1;
      var rest := s[..at] + s[at + 1..];
      forall c: nat
        ensures c in rest <==> c < n - 1
      {
        if c in rest {
          assert c in s;
        }
        if c < n - 1 {
          assert c in s;
          var k :| 0 <= k < |s| && s[k] == c;
          assert k < at ==> rest[k] == c;
          assert k > at ==> rest[k - 1] == c;
        }
      }
      CellCount(rest, n - 1);
    }
  }

  // ---------------------------------------------------------------------------
  // The plan.
  // ---------------------------------------------------------------------------

  /** Whatever must share a run with a member is a member. */
  ghost predicate KeepsTogether(d: Design, cells: seq<nat>)
    requires d.Valid()
  {
    forall a: nat, b: nat :: a in cells && b < |d.cells| && Linked<nat>(d.SharePairs(), a, b) ==> b in cells
  }

  ghost predicate Indivisible(d: Design, cells: seq<nat>)
    requires d.Valid()
  {
    forall a: nat, b: nat :: a in cells && b in cells ==> Linked<nat>(d.SharePairs(), a, b)
  }

  ghost predicate IsWorstDeficit(d: Design, cells: seq<nat>, deficit: real)
    requires d.Valid()
  {
    (forall c: nat :: c in cells ==> c < |d.cells| && d.RankOf(c).deficit <= deficit) &&
    exists c: nat :: c in cells && c < |d.cells| && d.RankOf(c).deficit == deficit
  }

  ghost predicate IsRun(d: Design, target: nat, run: Run)
    requires d.Valid()
  {
    KeepsTogether(d, run.cells) && IsWorstDeficit(d, run.cells, run.deficit) &&
    (|run.cells| > target ==> Indivisible(d, run.cells))
  }

  ghost predicate IsPlan(d: Design, target: nat, runs: seq<Run>)
    requires d.Valid()
  {
    // every cell is in exactly one run
    NoDup(AllCells(runs)) && (forall c: nat :: c in AllCells(runs) <==> c < |d.cells|) &&
    // no group is split, and only a single group can exceed the target
    (forall r :: 0 <= r < |runs| ==> IsRun(d, target, runs[r])) &&
    // the most critical work comes first
    (forall q, r :: 0 <= q < r < |runs| ==> runs[q].deficit >= runs[r].deficit) &&
    // no two runs in a row could have been one
    (forall r :: 0 < r < |runs| ==> RunsExceed(runs, r, target)) &&
    |runs| <= 2 * (|d.cells| / (target + 1)) + 1 &&
    // and all of it in the order of the source
    IsPacking(d, target, runs)
  }

  /** All the cells that must share a run with each other, and what their group is ordered by. */
  ghost predicate IsSharingClass(d: Design, g: Group)
    requires d.Valid()
  {
    NoDup(g.cells) && Describes(d, g) &&
    forall a: nat, b: nat :: a in g.cells && b < |d.cells| ==> (b in g.cells <==> Linked<nat>(d.SharePairs(), a, b))
  }

  ghost predicate ByName(d: Design, groups: seq<Group>) {
    forall g :: g in groups ==> Sorted(g.cells, NameOrder(d))
  }

  /** Every group once, by deficit, delay and name; the cells of a group by name. */
  ghost predicate IsGroupList(d: Design, placed: seq<Group>)
    requires d.Valid()
  {
    (forall g :: g in placed ==> IsSharingClass(d, g)) && NoDup(placed) && ByName(d, placed) &&
    (forall c: nat :: c < |d.cells| ==> InSomeGroup(placed, c)) && Sorted(placed, GroupOrder())
  }

  ghost predicate IsPacking(d: Design, target: nat, runs: seq<Run>)
    requires d.Valid()
  {
    exists placed :: IsGroupList(d, placed) && AreRuns(runs, NextFit(placed, target))
  }

  function NameOrder(d: Design): (nat, nat) -> bool {
    (a: nat, b: nat) => NameBefore(d, a, b)
  }

  function GroupOrder(): (Group, Group) -> bool {
    (a: Group, b: Group) =>
      if a.deficit != b.deficit then a.deficit > b.deficit
      else if a.delay != b.delay then a.delay > b.delay
      else a.name < b.name
  }

  predicate NameBefore(d: Design, a: nat, b: nat) {
    if a < |d.cells| && b < |d.cells| then d.cells[a].name < d.cells[b].name else a < |d.cells| && b >= |d.cells|
  }

  /** The groups in the order in which they are placed into runs. */
  ghost predicate GroupsInOrder(d: Design, roots: seq<nat>, placed: seq<Group>)
    requires d.Valid() && |roots| == |d.cells|
  {
    (forall g :: g in placed ==> IsClass(d, roots, g)) &&
    (forall i, j :: 0 <= i < j < |placed| ==> NoSharedCell(placed[i], placed[j])) &&
    (forall c: nat :: c < |roots| ==> InSomeGroup(placed, c)) &&
    Descending(placed)
  }

  ghost predicate Descending(groups: seq<Group>) {
    forall i, j :: 0 <= i < j < |groups| ==> groups[i].deficit >= groups[j].deficit
  }

  ghost predicate SameButCellOrder(placed: seq<Group>, ordered: seq<Group>) {
    |placed| == |ordered| && forall k :: 0 <= k < |placed| ==>
      multiset(placed[k].cells) == multiset(ordered[k].cells) && placed[k] == ordered[k].(cells := placed[k].cells)
  }

  lemma ReorderedClass(d: Design, roots: seq<nat>, g: Group, h: Group)
    requires d.Valid() && |roots| == |d.cells| && IsClass(d, roots, g)
    requires multiset(g.cells) == multiset(h.cells) && h == g.(cells := h.cells)
    ensures IsClass(d, roots, h)
  {
    var root: nat :| HoldsClass(d, roots, |roots|, root, g);
    SameMembers(g.cells, h.cells);
    NoDupPermuted(g.cells, h.cells);
    assert HoldsClass(d, roots, |roots|, root, h);
  }

  lemma OrderedGroups(d: Design, roots: seq<nat>, groups: seq<Group>, ordered: seq<Group>, placed: seq<Group>)
    requires d.Valid() && |roots| == |d.cells| && AreClasses(d, roots, groups)
    requires multiset(ordered) == multiset(groups) && Sorted(ordered, GroupOrder()) && SameButCellOrder(placed, ordered)
    ensures GroupsInOrder(d, roots, placed)
  {
    SameMembers(ordered, groups);
    NoDupPermuted(groups, ordered);
    forall k | 0 <= k < |placed|
      ensures IsClass(d, roots, placed[k])
    {
      assert ordered[k] in groups;
      ReorderedClass(d, roots, ordered[k], placed[k]);
    }
    forall i, j | 0 <= i < j < |placed|
      ensures NoSharedCell(placed[i], placed[j])
    {
      assert ordered[i] in groups && ordered[j] in groups;
      StillApart(ordered[i], ordered[j], placed[i], placed[j]);
    }
    assert Descending(ordered);
    forall c: nat | c < |roots|
      ensures InSomeGroup(placed, c)
    {
      assert InSomeGroup(groups, c);
      assert InSomeGroup(ordered, c);
      StillInSomeGroup(ordered, placed, c);
    }
  }

  lemma StillApart(a: Group, b: Group, c: Group, d: Group)
    requires NoSharedCell(a, b) && multiset(a.cells) == multiset(c.cells) && multiset(b.cells) == multiset(d.cells)
    ensures NoSharedCell(c, d)
  {
    SameMembers(c.cells, a.cells);
    SameMembers(d.cells, b.cells);
  }

  lemma StillInSomeGroup(ordered: seq<Group>, placed: seq<Group>, c: nat)
    requires SameButCellOrder(placed, ordered) && InSomeGroup(ordered, c)
    ensures InSomeGroup(placed, c)
  {
    var k :| 0 <= k < |ordered| && c in ordered[k].cells;
    SameMembers(placed[k].cells, ordered[k].cells);
    assert placed[k] in placed;
  }

  lemma {:induction false} ConcatMembers(packs: seq<seq<Group>>, q: nat)
    requires q < |packs|
    ensures forall g :: g in packs[q] ==> g in Concat(packs)
  {
    if q < |packs| - 1 {
      ConcatMembers(packs[..|packs| - 1], q);
    }
  }

  lemma DescendingParts(a: seq<Group>, b: seq<Group>)
    requires Descending(a + b)
    ensures Descending(a) && forall g, h :: g in a && h in b ==> g.deficit >= h.deficit
  {
    forall i, j | 0 <= i < j < |a|
      ensures a[i].deficit >= a[j].deficit
    {
      assert (a + b)[i] == a[i] && (a + b)[j] == a[j];
    }
    forall g, h | g in a && h in b
      ensures g.deficit >= h.deficit
    {
      var i :| 0 <= i < |a| && a[i] == g;
      var j :| 0 <= j < |b| && b[j] == h;
      assert (a + b)[i] == g && (a + b)[|a| + j] == h;
    }
  }

  lemma {:induction false} PacksDescend(packs: seq<seq<Group>>, q: nat, r: nat, g: Group, h: Group)
    requires Descending(Concat(packs)) && q < r < |packs| && g in packs[q] && h in packs[r]
    ensures g.deficit >= h.deficit
  {
    var front, last := packs[..|packs| - 1], packs[|packs| - 1];
    DescendingParts(Concat(front), last);
    if r < |packs| - 1 {
      PacksDescend(front, q, r, g, h);
    } else {
      ConcatMembers(front, q);
    }
  }

  lemma {:induction false} WorstIsMax(pack: seq<Group>)
    requires pack != []
    ensures forall g :: g in pack ==> g.deficit <= WorstDeficit(pack)
    ensures exists g :: g in pack && g.deficit == WorstDeficit(pack)
  {
    var front, last := pack[..|pack| - 1], pack[|pack| - 1];
    assert pack == front + [last];
    if |pack| > 1 {
      WorstIsMax(front);
      var g :| g in front && g.deficit == WorstDeficit(front);
      assert g in pack && last in pack;
    } else {
      assert pack[0] in pack;
    }
  }

  lemma ClassIsLinked(d: Design, roots: seq<nat>, g: Group, a: nat, b: nat)
    requires d.Valid() && |roots| == |d.cells| && Partitions(d.SharePairs(), roots) && IsClass(d, roots, g)
    requires a in g.cells && b < |d.cells|
    ensures b in g.cells <==> Linked<nat>(d.SharePairs(), a, b)
  {
    var root: nat :| HoldsClass(d, roots, |roots|, root, g);
  }

  lemma RunKeepsTogether(d: Design, roots: seq<nat>, pack: seq<Group>)
    requires d.Valid() && |roots| == |d.cells| && Partitions(d.SharePairs(), roots)
    requires forall g :: g in pack ==> IsClass(d, roots, g)
    ensures KeepsTogether(d, Flat(pack))
  {
    FlatMembers(pack);
    forall a: nat, b: nat | a in Flat(pack) && b < |d.cells| && Linked<nat>(d.SharePairs(), a, b)
      ensures b in Flat(pack)
    {
      var g :| g in pack && a in g.cells;
      ClassIsLinked(d, roots, g, a, b);
    }
  }

  lemma RunOfOneGroup(d: Design, roots: seq<nat>, g: Group)
    requires d.Valid() && |roots| == |d.cells| && Partitions(d.SharePairs(), roots) && IsClass(d, roots, g)
    ensures Flat([g]) == g.cells && Indivisible(d, g.cells)
  {
    assert [g][..0] == [];
    forall a: nat, b: nat | a in g.cells && b in g.cells
      ensures Linked<nat>(d.SharePairs(), a, b)
    {
      var root: nat :| HoldsClass(d, roots, |roots|, root, g);
      ClassIsLinked(d, roots, g, a, b);
    }
  }

  lemma ClassWorst(d: Design, roots: seq<nat>, g: Group)
    requires d.Valid() && |roots| == |d.cells| && IsClass(d, roots, g)
    ensures IsWorstDeficit(d, g.cells, g.deficit)
  {
    var root: nat :| HoldsClass(d, roots, |roots|, root, g);
    var c: nat :| c in g.cells && d.RankOf(c).deficit == g.deficit;
  }

  lemma RunDeficit(d: Design, roots: seq<nat>, pack: seq<Group>)
    requires d.Valid() && |roots| == |d.cells| && pack != []
    requires forall g :: g in pack ==> IsClass(d, roots, g)
    ensures IsWorstDeficit(d, Flat(pack), WorstDeficit(pack))
  {
    FlatMembers(pack);
    WorstIsMax(pack);
    forall c: nat | c in Flat(pack)
      ensures c < |d.cells| && d.RankOf(c).deficit <= WorstDeficit(pack)
    {
      var g :| g in pack && c in g.cells;
      ClassWorst(d, roots, g);
    }
    var worst :| worst in pack && worst.deficit == WorstDeficit(pack);
    ClassWorst(d, roots, worst);
    var c: nat :| c in worst.cells && c < |d.cells| && d.RankOf(c).deficit == worst.deficit;
    assert c in Flat(pack);
  }

  lemma RunDeficitsDescend(packs: seq<seq<Group>>, q: nat, r: nat)
    requires Descending(Concat(packs)) && q < r < |packs| && packs[q] != [] && packs[r] != []
    ensures WorstDeficit(packs[q]) >= WorstDeficit(packs[r])
  {
    WorstIsMax(packs[q]);
    WorstIsMax(packs[r]);
    var g: Group :| g in packs[q] && g.deficit == WorstDeficit(packs[q]);
    var h: Group :| h in packs[r] && h.deficit == WorstDeficit(packs[r]);
    PacksDescend(packs, q, r, g, h);
  }

  lemma PackIsRun(d: Design, roots: seq<nat>, packs: seq<seq<Group>>, r: nat, target: nat)
    requires d.Valid() && |roots| == |d.cells| && Partitions(d.SharePairs(), roots)
    requires r < |packs| && packs[r] != [] && IsTight(packs, target)
    requires forall g :: g in Concat(packs) ==> IsClass(d, roots, g)
    ensures IsRun(d, target, RunOf(packs[r]))
  {
    assert forall g :: g in packs[r] ==> IsClass(d, roots, g) by {
      ConcatMembers(packs, r);
    }
    RunKeepsTogether(d, roots, packs[r]);
    RunDeficit(d, roots, packs[r]);
    if |Flat(packs[r])| > target {
      OversizedPack(d, roots, packs[r]);
    }
  }

  lemma OversizedPack(d: Design, roots: seq<nat>, pack: seq<Group>)
    requires d.Valid() && |roots| == |d.cells| && Partitions(d.SharePairs(), roots)
    requires |pack| == 1 && forall g :: g in pack ==> IsClass(d, roots, g)
    ensures Indivisible(d, Flat(pack))
  {
    assert pack == [pack[0]] && pack[0] in pack;
    RunOfOneGroup(d, roots, pack[0]);
  }

  lemma ClassesAreGroupList(d: Design, roots: seq<nat>, placed: seq<Group>)
    requires d.Valid() && |roots| == |d.cells| && Partitions(d.SharePairs(), roots)
    requires GroupsInOrder(d, roots, placed) && ByName(d, placed) && Sorted(placed, GroupOrder())
    ensures IsGroupList(d, placed)
  {
    forall g | g in placed
      ensures IsSharingClass(d, g)
    {
      var root: nat :| HoldsClass(d, roots, |roots|, root, g);
      forall a: nat, b: nat | a in g.cells && b < |d.cells|
        ensures b in g.cells <==> Linked<nat>(d.SharePairs(), a, b)
      {
        ClassIsLinked(d, roots, g, a, b);
      }
    }
    forall i, j | 0 <= i < j < |placed|
      ensures placed[i] != placed[j]
    {
      assert placed[i] in placed && NoSharedCell(placed[i], placed[j]);
      var c :| c in placed[i].cells;
    }
  }

  /** Sorting the cells inside the groups leaves the groups sorted. */
  lemma CellOrderIsNoKey(placed: seq<Group>, ordered: seq<Group>)
    requires SameButCellOrder(placed, ordered) && Sorted(ordered, GroupOrder())
    ensures Sorted(placed, GroupOrder())
  {
    forall i, j | 0 <= i < j < |placed|
      ensures !GroupOrder()(placed[j], placed[i])
    {
      assert !GroupOrder()(ordered[j], ordered[i]);
    }
  }

  lemma PlanIsRight(d: Design, roots: seq<nat>, placed: seq<Group>, target: nat, runs: seq<Run>)
    requires d.Valid() && |roots| == |d.cells| && Partitions(d.SharePairs(), roots)
    requires GroupsInOrder(d, roots, placed) && AreRuns(runs, NextFit(placed, target))
    requires ByName(d, placed) && Sorted(placed, GroupOrder())
    ensures IsPlan(d, target, runs)
  {
    ClassesAreGroupList(d, roots, placed);
    var packs := NextFit(placed, target);
    NextFitKeepsGroups(placed, target);
    NextFitIsTight(placed, target);
    forall r: nat | r < |runs|
      ensures IsRun(d, target, runs[r])
    {
      PackIsRun(d, roots, packs, r, target);
    }
    forall q: nat, r: nat | q < r < |runs|
      ensures runs[q].deficit >= runs[r].deficit
    {
      RunDeficitsDescend(packs, q, r);
    }
    RunsHoldFlat(runs, packs);
    forall r | 0 < r < |runs|
      ensures RunsExceed(runs, r, target)
    {
      assert Exceeds(packs, r, target);
    }
    EveryCellOnce(d, roots, placed);
    RunsAreFew(|d.cells|, runs, target);
  }

  lemma RunsAreFew(n: nat, runs: seq<Run>, target: nat)
    requires NoDup(AllCells(runs)) && forall c: nat :: c in AllCells(runs) <==> c < n
    requires forall i :: 0 < i < |runs| ==> RunsExceed(runs, i, target)
    ensures |runs| <= 2 * (n / (target + 1)) + 1
  {
    RunCount(runs, target);
    CellCount(AllCells(runs), n);
    CountFromProduct(n, |runs| / 2, target + 1);
  }

  lemma CountFromProduct(n: nat, half: nat, size: nat)
    requires size > 0 && n >= half * size
    ensures half <= n / size
  {
    var q := n / size;
    assert n < (q + 1) * size;
    assert half >= q + 1 ==> half * size >= (q + 1) * size;
  }

  lemma EveryCellOnce(d: Design, roots: seq<nat>, placed: seq<Group>)
    requires d.Valid() && |roots| == |d.cells| && GroupsInOrder(d, roots, placed)
    ensures NoDup(Flat(placed)) && forall c: nat :: c in Flat(placed) <==> c < |d.cells|
  {
    FlatMembers(placed);
    forall g | g in placed
      ensures NoDup(g.cells) && forall c: nat :: c in g.cells ==> c < |d.cells|
    {
      var root: nat :| HoldsClass(d, roots, |roots|, root, g);
    }
    forall i, j, c | 0 <= i < j < |placed| && c in placed[i].cells
      ensures c !in placed[j].cells
    {
      assert NoSharedCell(placed[i], placed[j]);
    }
    FlatNoDup(placed);
    forall c: nat | c < |d.cells|
      ensures c in Flat(placed)
    {
      assert InSomeGroup(placed, c);
    }
  }

  lemma GroupsHaveCells(d: Design, roots: seq<nat>, groups: seq<Group>, ordered: seq<Group>)
    requires d.Valid() && |roots| == |d.cells| && AreClasses(d, roots, groups) && multiset(ordered) == multiset(groups)
    ensures forall g :: g in ordered ==> g.cells != []
  {
    SameMembers(ordered, groups);
    forall g | g in ordered
      ensures g.cells != []
    {
      assert g in groups;
      var root: nat :| HoldsClass(d, roots, |roots|, root, g);
    }
  }

  lemma GroupOrderIsWeak()
    ensures StrictWeak(GroupOrder())
  {
  }

  lemma NameOrderIsWeak(d: Design)
    ensures StrictWeak(NameOrder(d))
  {
  }

  class Pnr {
    var runCells: nat
    var runs: seq<Run>

    constructor (runCells: nat)
      ensures this.runCells == runCells && runs == []
    {
      this.runCells := runCells;
      runs := [];
    }

    /** Fails, without touching the earlier plan, only on a zero target. */
    method Plan(d: Design) returns (ok: bool)
      requires d.Valid()
      modifies this`runs
      ensures ok <==> runCells > 0
      ensures if ok then IsPlan(d, runCells, runs) else runs == old(runs)
    {
      if runCells == 0 {
        return false;
      }
      var part := JoinCells(d);
      ghost var roots := part.Representatives();
      var groups := BuildGroups(d, part);
      GroupOrderIsWeak();
      var ordered := Sort(groups, GroupOrder());
      GroupsHaveCells(d, roots, groups, ordered);
      ghost var placed := PackRuns(d, ordered);
      OrderedGroups(d, roots, groups, ordered, placed);
      CellOrderIsNoKey(placed, ordered);
      SharePairsWithinDesign(d);
      PlanIsRight(d, roots, placed, runCells, runs);
      return true;
    }

    method PackRuns(d: Design, ordered: seq<Group>) returns (ghost placed: seq<Group>)
      requires forall g :: g in ordered ==> g.cells != []
      modifies this`runs
      ensures SameButCellOrder(placed, ordered) && ByName(d, placed) && AreRuns(runs, NextFit(placed, runCells))
    {
      runs := [];
      placed := [];
      for k := 0 to |ordered|
        invariant SameButCellOrder(placed, ordered[..k]) && AreRuns(runs, NextFit(placed, runCells)) && NoEmptyRun(runs)
        invariant ByName(d, placed)
      {
        var group := SortCells(d, ordered[k]);
        RunsAfterGroup(runs, placed, group, runCells);
        AddToRuns(group);
        OneMorePlaced(placed, ordered, k, group);
        placed := placed + [group];
      }
      assert ordered[..|ordered|] == ordered;
    }

    method SortCells(d: Design, g: Group) returns (h: Group)
      ensures multiset(h.cells) == multiset(g.cells) && |h.cells| == |g.cells| && h == g.(cells := h.cells)
      ensures Sorted(h.cells, NameOrder(d))
    {
      NameOrderIsWeak(d);
      var cells := Sort(g.cells, NameOrder(d));
      assert |multiset(cells)| == |cells| && |multiset(g.cells)| == |g.cells|;
      h := g.(cells := cells);
    }

    method AddToRuns(group: Group)
      requires group.cells != [] && NoEmptyRun(runs)
      modifies this`runs
      ensures runs == RunsWith(old(runs), group, runCells) && NoEmptyRun(runs)
    {
      assert runs != [] ==> runs[|runs| - 1] in runs;
      if runs == [] || (runs[|runs| - 1].cells != [] && |runs[|runs| - 1].cells| + |group.cells| > runCells) {
        runs := runs + [Run([], 0.0)];
      }
      var last := runs[|runs| - 1];
      var deficit := if last.cells == [] then group.deficit else MaxReal(last.deficit, group.deficit);
      runs := runs[|runs| - 1 := Run(last.cells + group.cells, deficit)];
      assert [] + group.cells == group.cells;
    }
  }

  lemma SharePairsWithinDesign(d: Design)
    requires d.Valid()
    ensures forall a: nat, b: nat :: (a, b) in d.SharePairs() ==> a < |d.cells| && b < |d.cells|
  {
  }

  ghost predicate NoEmptyRun(runs: seq<Run>) {
    forall r :: r in runs ==> r.cells != []
  }

  lemma OneMorePlaced(placed: seq<Group>, ordered: seq<Group>, k: nat, group: Group)
    requires k < |ordered| && SameButCellOrder(placed, ordered[..k])
    requires multiset(group.cells) == multiset(ordered[k].cells) && group == ordered[k].(cells := group.cells)
    ensures SameButCellOrder(placed + [group], ordered[..k + 1])
  {
  }

  /** One group more: either a new run for it alone, or the last run with it at the end. */
  function RunsWith(runs: seq<Run>, g: Group, target: nat): seq<Run> {
    if runs == [] || |runs[|runs| - 1].cells| + |g.cells| > target
    then runs + [Run(g.cells, g.deficit)]
    else runs[|runs| - 1 := Run(runs[|runs| - 1].cells + g.cells, MaxReal(runs[|runs| - 1].deficit, g.deficit))]
  }

  lemma RunsAfterGroup(runs: seq<Run>, placed: seq<Group>, g: Group, target: nat)
    requires AreRuns(runs, NextFit(placed, target))
    ensures AreRuns(RunsWith(runs, g, target), NextFit(placed + [g], target))
  {
    var packs := NextFit(placed, target);
    assert (placed + [g])[..|placed|] == placed;
    if runs == [] || |runs[|runs| - 1].cells| + |g.cells| > target {
      assert Flat([g]) == g.cells by { assert [g][..0] == []; }
    } else {
      var last := packs[|packs| - 1];
      FlatAppend(last, g);
      assert (last + [g])[..|last|] == last;
    }
  }
}
