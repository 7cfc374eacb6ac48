/** Union-find with path halving, as the run planner uses it (src/pnr/pnr.cpp). */
module DisjointSets {
  import opened PairClosure

  /** Every node points at itself or at a node of a higher level. */
  ghost predicate IsForest(parent: seq<nat>, level: seq<nat>, height: nat) {
    |parent| == |level| &&
    forall i :: 0 <= i < |parent| ==>
      parent[i] < |parent| && level[i] < height && (parent[i] != i ==> level[i] < level[parent[i]])
  }

  ghost function RootOf(parent: seq<nat>, level: seq<nat>, height: nat, i: nat): (r: nat)
    requires IsForest(parent, level, height) && i < |parent|
    ensures r < |parent| && parent[r] == r
    decreases height - level[i]
  {
    if parent[i] == i then i else RootOf(parent, level, height, parent[i])
  }

  ghost function Roots(parent: seq<nat>, level: seq<nat>, height: nat): (roots: seq<nat>)
    requires IsForest(parent, level, height)
    ensures |roots| == |parent|
    ensures forall i :: 0 <= i < |parent| ==> roots[i] == RootOf(parent, level, height, i)
  {
    seq(|parent|, i requires 0 <= i < |parent| => RootOf(parent, level, height, i))
  }

  /** Nodes have the same root exactly when the pairs link them. */
  ghost predicate Partitions(pairs: set<(nat, nat)>, roots: seq<nat>) {
    (forall c: nat, d: nat :: (c, d) in pairs ==> c < |roots| && d < |roots|) &&
    forall c: nat, d: nat :: c < |roots| && d < |roots| ==> (roots[c] == roots[d] <==> Linked<nat>(pairs, c, d))
  }

  /** Halving a path moves one node up to its grandparent and no node to another root. */
  lemma {:induction false} HalvingKeepsRoots(parent: seq<nat>, level: seq<nat>, height: nat, i: nat, j: nat)
    requires IsForest(parent, level, height) && i < |parent| && j < |parent|
    ensures IsForest(parent[i := parent[parent[i]]], level, height)
    ensures RootOf(parent[i := parent[parent[i]]], level, height, j) == RootOf(parent, level, height, j)
    decreases height - level[j]
  {
    var halved := parent[i := parent[parent[i]]];
    assert IsForest(halved, level, height);
    if parent[j] != j {
      HalvingKeepsRoots(parent, level, height, i, parent[j]);
      if i == j && parent[parent[j]] != parent[j] {
        HalvingKeepsRoots(parent, level, height, i, parent[parent[j]]);
      }
    }
  }

  lemma HalvingKeepsAllRoots(parent: seq<nat>, level: seq<nat>, height: nat, i: nat)
    requires IsForest(parent, level, height) && i < |parent|
    ensures IsForest(parent[i := parent[parent[i]]], level, height)
    ensures Roots(parent[i := parent[parent[i]]], level, height) == Roots(parent, level, height)
  {
    HalvingKeepsRoots(parent, level, height, i, i);
    forall j: nat | j < |parent|
      ensures RootOf(parent[i := parent[parent[i]]], level, height, j) == RootOf(parent, level, height, j)
    {
      HalvingKeepsRoots(parent, level, height, i, j);
    }
  }

  function LevelsAfterJoin(level: seq<nat>, above: nat, below: nat): seq<nat>
    requires above < |level| && below < |level|
  {
    if level[above] <= level[below] then level[above := level[below] + 1] else level
  }

  /** Hanging one root below another moves exactly the nodes of its tree. */
  lemma {:induction false} JoiningMovesOneTree(parent: seq<nat>, level: seq<nat>, height: nat,
                                               above: nat, below: nat, j: nat)
    requires IsForest(parent, level, height) && j < |parent| && above < |parent| && below < |parent|
    requires parent[above] == above && parent[below] == below && above != below
    ensures IsForest(parent[below := above], LevelsAfterJoin(level, above, below), height + 1)
    ensures RootOf(parent[below := above], LevelsAfterJoin(level, above, below), height + 1, j)
         == if RootOf(parent, level, height, j) == below then above else RootOf(parent, level, height, j)
    decreases height - level[j]
  {
    var hung, levels := parent[below := above], LevelsAfterJoin(level, above, below);
    assert IsForest(hung, levels, height + 1);
    if parent[j] != j {
      JoiningMovesOneTree(parent, level, height, above, below, parent[j]);
    } else if j == below {
      assert RootOf(hung, levels, height + 1, above) == above;
    }
  }

  /** Joining two roots merges their two classes and no others. */
  lemma JoiningMergesRoots(parent: seq<nat>, level: seq<nat>, height: nat, a: nat, b: nat)
    requires IsForest(parent, level, height) && a < |parent| && b < |parent|
    requires RootOf(parent, level, height, a) != RootOf(parent, level, height, b)
    ensures var above, below := RootOf(parent, level, height, a), RootOf(parent, level, height, b);
            var levels := LevelsAfterJoin(level, above, below);
            var roots := Roots(parent, level, height);
            IsForest(parent[below := above], levels, height + 1) &&
            Roots(parent[below := above], levels, height + 1) == MergedRoots(roots, a, b)
  {
    var above, below := RootOf(parent, level, height, a), RootOf(parent, level, height, b);
    JoiningMovesOneTree(parent, level, height, above, below, a);
    var levels := LevelsAfterJoin(level, above, below);
    forall j: nat | j < |parent|
      ensures RootOf(parent[below := above], levels, height + 1, j) == Merged(Roots(parent, level, height), a, b, j)
    {
      JoiningMovesOneTree(parent, level, height, above, below, j);
    }
  }

  class Partition {
    const parent: array<nat>
    ghost var level: seq<nat>
    ghost var height: nat
    ghost var joined: set<(nat, nat)>   // the pairs that have been joined

    ghost predicate Valid()
      reads this, parent
    {
      IsForest(parent[..], level, height) && Partitions(joined, Representatives())
    }

    ghost function Representatives(): (r: seq<nat>)
      requires IsForest(parent[..], level, height)
      reads this, parent
      ensures |r| == parent.Length
    {
      Roots(parent[..], level, height)
    }

    constructor (n: nat)
      ensures Valid() && fresh(parent) && parent.Length == n && joined == {}
    {
      parent := new nat[n](i => i);
      level := seq(n, i => 0);
      height := 1;
      joined := {};
      new;
      forall a: nat, b: nat | a < n && b < n
        ensures a == b <==> Linked<nat>({}, a, b)
      {
        if a == b {
          LinkedRefl({}, a);
        } else if Linked<nat>({}, a, b) {
          LinkedIsLeast({}, (x: nat) => x as int, a, b);
        }
      }
      assert forall i: nat :: i < n ==> RootOf(parent[..], level, height, i) == i;
    }

    /** Follow the parents to the root, halving the path on the way; no node changes its representative. */
    method Root(i: nat) returns (r: nat)
      requires Valid() && i < parent.Length
      modifies parent
      ensures Valid() && Representatives() == old(Representatives())
      ensures r == Representatives()[i] && parent[r] == r
    {
      r := i;
      while parent[r] != r
        invariant r < parent.Length && IsForest(parent[..], level, height)
        invariant Representatives() == old(Representatives())
        invariant Representatives()[r] == Representatives()[i]
        decreases height - level[r]
      {
        ghost var before := parent[..];
        HalvingKeepsAllRoots(before, level, height, r);
        parent[r] := parent[parent[r]];
        assert parent[..] == before[r := before[before[r]]];
        assert RootOf(parent[..], level, height, r) == RootOf(parent[..], level, height, parent[r]);
        r := parent[r];
      }
    }

    /** Make the root of `a` the parent of the root of `b`. */
    method Hang(ghost a: nat, ghost b: nat, above: nat, below: nat)
      requires IsForest(parent[..], level, height) && a < parent.Length && b < parent.Length
      requires above == Representatives()[a] && below == Representatives()[b]
      modifies parent, this`level, this`height
      ensures IsForest(parent[..], level, height)
      ensures Representatives() == MergedRoots(old(Representatives()), a, b)
    {
      ghost var before := parent[..];
      parent[below] := above;
      if above != below {
        JoiningMergesRoots(before, level, height, a, b);
        level := LevelsAfterJoin(level, above, below);
        height := height + 1;
        assert parent[..] == before[below := above];
      } else {
        assert parent[..] == before;
      }
    }

    /** After any sequence of joins, two nodes share a root exactly when the joined pairs link them. */
    method Join(a: nat, b: nat)
      requires Valid() && a < parent.Length && b < parent.Length
      modifies this, parent
      ensures Valid() && joined == old(joined) + {(a, b)}
    {
      var above := Root(a);
      var below := Root(b);
      JoinedPartition(joined, Representatives(), a, b);
      Hang(a, b, above, below);
      joined := joined + {(a, b)};
    }
  }

  function MergedRoots(roots: seq<nat>, a: nat, b: nat): seq<nat>
    requires a < |roots| && b < |roots|
  {
    seq(|roots|, j requires 0 <= j < |roots| => Merged(roots, a, b, j))
  }

  function Merged(roots: seq<nat>, a: nat, b: nat, x: nat): nat
    requires a < |roots| && b < |roots| && x < |roots|
  {
    if roots[x] == roots[b] then roots[a] else roots[x]
  }

  /** What merging two classes does to the classes of the pairs joined so far. */
  lemma JoinedRoots(pairs: set<(nat, nat)>, roots: seq<nat>, a: nat, b: nat, x: nat, y: nat)
    requires a < |roots| && b < |roots| && x < |roots| && y < |roots|
    requires forall c: nat, d: nat :: (c, d) in pairs ==> c < |roots| && d < |roots|
    requires forall c: nat, d: nat :: c < |roots| && d < |roots| ==>
               (roots[c] == roots[d] <==> Linked<nat>(pairs, c, d))
    ensures Merged(roots, a, b, x) == Merged(roots, a, b, y) <==> Linked<nat>(pairs + {(a, b)}, x, y)
  {
    var more := pairs + {(a, b)};
    if Linked(more, x, y) {
      var tag := (c: nat) => if c < |roots| then Merged(roots, a, b, c) else 0;
      forall c: nat, d: nat | (c, d) in more
        ensures tag(c) == tag(d)
      {
        if (c, d) in pairs {
          LinkedPair(pairs, c, d);
        }
      }
      LinkedIsLeast(more, tag, x, y);
    }
    if Merged(roots, a, b, x) == Merged(roots, a, b, y) {
      LinkedPair(more, a, b);
      LinkedSym(more, a, b);
      if roots[x] == roots[y] {
        LinkedMono(pairs, more, x, y);
      } else if roots[x] == roots[b] {
        LinkedMono(pairs, more, x, b);
        LinkedMono(pairs, more, a, y);
        LinkedTrans(more, x, b, a);
        LinkedTrans(more, x, a, y);
      } else {
        LinkedMono(pairs, more, x, a);
        LinkedMono(pairs, more, b, y);
        LinkedTrans(more, x, a, b);
        LinkedTrans(more, x, b, y);
      }
    }
  }

  lemma JoinedPartition(pairs: set<(nat, nat)>, roots: seq<nat>, a: nat, b: nat)
    requires Partitions(pairs, roots) && a < |roots| && b < |roots|
    ensures Partitions(pairs + {(a, b)}, MergedRoots(roots, a, b))
  {
    forall x: nat, y: nat | x < |roots| && y < |roots|
      ensures Merged(roots, a, b, x) == Merged(roots, a, b, y) <==> Linked<nat>(pairs + {(a, b)}, x, y)
    {
      JoinedRoots(pairs, roots, a, b, x, y);
    }
  }
}
