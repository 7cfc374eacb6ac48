/**
 The equivalence closure of a set of pairs, defined by paths. It is the meaning of the
 union-find in the run planner and of the active-wire loop of the device loader.
 */
module PairClosure {

  predicate Adjacent<T(==)>(pairs: set<(T, T)>, a: T, b: T) {
    (a, b) in pairs || (b, a) in pairs
  }

  ghost predicate IsPath<T>(pairs: set<(T, T)>, path: seq<T>) {
    |path| > 0 && forall i :: 0 <= i < |path| - 1 ==> Adjacent(pairs, path[i], path[i + 1])
  }

  /** `a` and `b` are joined by a path of pairs, each used in either direction. */
  ghost predicate Linked<T(!new)>(pairs: set<(T, T)>, a: T, b: T) {
    exists path :: IsPath(pairs, path) && path[0] == a && path[|path| - 1] == b
  }

  lemma LinkedRefl<T(!new)>(pairs: set<(T, T)>, a: T)
    ensures Linked(pairs, a, a)
  {
    assert IsPath(pairs, [a]);
  }

  lemma LinkedPair<T(!new)>(pairs: set<(T, T)>, a: T, b: T)
    requires Adjacent(pairs, a, b)
    ensures Linked(pairs, a, b)
  {
    var path := [a, b];
    assert IsPath(pairs, path) && path[0] == a && path[|path| - 1] == b;
  }

  lemma LinkedTrans<T(!new)>(pairs: set<(T, T)>, a: T, b: T, c: T)
    requires Linked(pairs, a, b) && Linked(pairs, b, c)
    ensures Linked(pairs, a, c)
  {
    var p :| IsPath(pairs, p) && p[0] == a && p[|p| - 1] == b;
    var q :| IsPath(pairs, q) && q[0] == b && q[|q| - 1] == c;
    var path := p + q[1..];
    assert IsPath(pairs, path) && path[0] == a && path[|path| - 1] == c;
  }

  lemma LinkedSym<T(!new)>(pairs: set<(T, T)>, a: T, b: T)
    requires Linked(pairs, a, b)
    ensures Linked(pairs, b, a)
  {
    var p :| IsPath(pairs, p) && p[0] == a && p[|p| - 1] == b;
    var q := seq(|p|, i requires 0 <= i < |p| => p[|p| - 1 - i]);
    forall i | 0 <= i < |q| - 1
      ensures Adjacent(pairs, q[i], q[i + 1])
    {
      assert Adjacent(pairs, p[|p| - 2 - i], p[|p| - 2 - i + 1]);
    }
    assert IsPath(pairs, q) && q[0] == b && q[|q| - 1] == a;
  }

  lemma LinkedMono<T(!new)>(pairs: set<(T, T)>, more: set<(T, T)>, a: T, b: T)
    requires pairs <= more && Linked(pairs, a, b)
    ensures Linked(more, a, b)
  {
    var p :| IsPath(pairs, p) && p[0] == a && p[|p| - 1] == b;
    assert IsPath(more, p);
  }

  /** A labelling that agrees on the two ends of every pair. */
  ghost predicate Respects<T(!new), L>(pairs: set<(T, T)>, tag: T -> L) {
    forall a, b :: (a, b) in pairs ==> tag(a) == tag(b)
  }

  /** `Linked` is the least equivalence that holds the pairs: whatever respects them, respects it. */
  lemma LinkedIsLeast<T(!new), L>(pairs: set<(T, T)>, tag: T -> L, a: T, b: T)
    requires Respects(pairs, tag) && Linked(pairs, a, b)
    ensures tag(a) == tag(b)
  {
    var p :| IsPath(pairs, p) && p[0] == a && p[|p| - 1] == b;
    LabelConstantOnPath(pairs, tag, p, |p| - 1);
  }

  lemma {:induction false} LabelConstantOnPath<T(!new), L>(pairs: set<(T, T)>, tag: T -> L, path: seq<T>, i: nat)
    requires Respects(pairs, tag) && IsPath(pairs, path) && i < |path|
    ensures tag(path[i]) == tag(path[0])
  {
    if i > 0 {
      LabelConstantOnPath(pairs, tag, path, i - 1);
      assert Adjacent(pairs, path[i - 1], path[i - 1 + 1]);
    }
  }

  /** Pairs that are linked by other pairs add nothing to them. */
  lemma LinkedWithin<T(!new)>(pairs: set<(T, T)>, other: set<(T, T)>, a: T, b: T)
    requires forall c, d :: (c, d) in pairs ==> Linked(other, c, d)
    requires Linked(pairs, a, b)
    ensures Linked(other, a, b)
  {
    var p :| IsPath(pairs, p) && p[0] == a && p[|p| - 1] == b;
    PathWithin(pairs, other, p, |p| - 1);
  }

  lemma {:induction false} PathWithin<T(!new)>(pairs: set<(T, T)>, other: set<(T, T)>, path: seq<T>, i: nat)
    requires forall c, d :: (c, d) in pairs ==> Linked(other, c, d)
    requires IsPath(pairs, path) && i < |path|
    ensures Linked(other, path[0], path[i])
  {
    if i == 0 {
      LinkedRefl(other, path[0]);
    } else {
      PathWithin(pairs, other, path, i - 1);
      assert Adjacent(pairs, path[i - 1], path[i - 1 + 1]);
      if (path[i], path[i - 1]) in pairs {
        LinkedSym(other, path[i], path[i - 1]);
      }
      LinkedTrans(other, path[0], path[i - 1], path[i]);
    }
  }
}
