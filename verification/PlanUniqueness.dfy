/** With distinct cell names there is only one plan (src/pnr/pnr.cpp, Pnr::plan). */
module PlanUniqueness {
  import opened Common
  import opened PairClosure
  import opened CellGroups
  import opened Ordering
  import opened RunPlanner

  ghost predicate DistinctNames(d: Design) {
    forall a, b :: 0 <= a < b < |d.cells| ==> d.cells[a].name != d.cells[b].name
  }

  lemma SameMultiset<T>(s: seq<T>, t: seq<T>)
    requires NoDup(s) && NoDup(t) && forall x :: x in s <==> x in t
    ensures multiset(s) == multiset(t)
  {
    NoDupMultiset(s);
    NoDupMultiset(t);
    forall x
      ensures multiset(s)[x] == multiset(t)[x]
    {
      if x in s {
        assert multiset(s)[x] == 1 && multiset(t)[x] == 1;
      } else {
        assert x !in multiset(s) && x !in multiset(t);
      }
    }
  }

  /** Two groups with a common cell hold the same cells. */
  lemma SameClassCells(d: Design, g: Group, h: Group, c: nat)
    requires d.Valid() && IsSharingClass(d, g) && IsSharingClass(d, h) && c in g.cells && c in h.cells
    ensures forall x: nat :: x in g.cells <==> x in h.cells
  {
    forall x: nat
      ensures x in g.cells <==> x in h.cells
    {
      assert c < |d.cells|;
    }
  }

  lemma KeysWithin(d: Design, g: Group, h: Group)
    requires d.Valid() && Describes(d, g) && Describes(d, h) && forall x: nat :: x in g.cells ==> x in h.cells
    ensures g.deficit <= h.deficit && g.delay <= h.delay && h.name <= g.name
  {
    var a :| a in g.cells && d.RankOf(a).deficit == g.deficit;
    var m :| m in g.cells && d.cells[m].name == g.name;
    if g.delay != 0.0 {
      var x :| x in g.cells && d.RankOf(x).delay == g.delay;
      assert x in h.cells;
    }
  }

  lemma SameClassKeys(d: Design, g: Group, h: Group)
    requires d.Valid() && Describes(d, g) && Describes(d, h) && forall x: nat :: x in g.cells <==> x in h.cells
    ensures g.deficit == h.deficit && g.delay == h.delay && g.name == h.name
  {
    KeysWithin(d, g, h);
    KeysWithin(d, h, g);
  }

  /** A group with its cells by name is determined by any one of its cells. */
  lemma SameClass(d: Design, g: Group, h: Group, c: nat)
    requires d.Valid() && DistinctNames(d) && IsSharingClass(d, g) && IsSharingClass(d, h)
    requires Sorted(g.cells, NameOrder(d)) && Sorted(h.cells, NameOrder(d)) && c in g.cells && c in h.cells
    ensures g == h
  {
    SameClassCells(d, g, h, c);
    SameClassKeys(d, g, h);
    SameMultiset(g.cells, h.cells);
    forall a, b | a in g.cells && b in g.cells && a != b
      ensures NameOrder(d)(a, b) || NameOrder(d)(b, a)
    {
      assert a < |d.cells| && b < |d.cells|;
    }
    SortedIsUnique(g.cells, h.cells, NameOrder(d));
  }

  lemma GroupsWithin(d: Design, a: seq<Group>, b: seq<Group>)
    requires d.Valid() && DistinctNames(d) && IsGroupList(d, a) && IsGroupList(d, b)
    ensures forall g :: g in a ==> g in b
  {
    forall g | g in a
      ensures g in b
    {
      var c: nat :| c in g.cells && d.RankOf(c).deficit == g.deficit;
      assert InSomeGroup(b, c);
      var h :| h in b && c in h.cells;
      SameClass(d, g, h, c);
    }
  }

  lemma GroupsDiffer(d: Design, a: seq<Group>, g: Group, h: Group)
    requires d.Valid() && DistinctNames(d) && IsGroupList(d, a) && g in a && h in a && g != h
    ensures GroupOrder()(g, h) || GroupOrder()(h, g)
  {
    var m: nat :| m in g.cells && d.cells[m].name == g.name;
    var n: nat :| n in h.cells && d.cells[n].name == h.name;
    if m == n {
      SameClass(d, g, h, m);
      assert false;
    }
  }

  lemma GroupListIsUnique(d: Design, a: seq<Group>, b: seq<Group>)
    requires d.Valid() && DistinctNames(d) && IsGroupList(d, a) && IsGroupList(d, b)
    ensures a == b
  {
    GroupsWithin(d, a, b);
    GroupsWithin(d, b, a);
    SameMultiset(a, b);
    forall g, h | g in a && h in a && g != h
      ensures GroupOrder()(g, h) || GroupOrder()(h, g)
    {
      GroupsDiffer(d, a, g, h);
    }
    SortedIsUnique(a, b, GroupOrder());
  }

  /**
   Whatever sort is used, and in whatever order the hash maps are walked and the joins made,
   the runs are the same.
   */
  lemma PlanIsUnique(d: Design, target: nat, runs: seq<Run>, other: seq<Run>)
    requires d.Valid() && DistinctNames(d) && IsPlan(d, target, runs) && IsPlan(d, target, other)
    ensures runs == other
  {
    var a :| IsGroupList(d, a) && AreRuns(runs, NextFit(a, target));
    var b :| IsGroupList(d, b) && AreRuns(other, NextFit(b, target));
    GroupListIsUnique(d, a, b);
  }
}
