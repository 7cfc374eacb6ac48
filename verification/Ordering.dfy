/** Sorting by a comparator, as std::sort is used in the source. */
module Ordering {
  import opened Common

  ghost predicate StrictWeak<T(!new)>(before: (T, T) -> bool) {
    (forall a :: !before(a, a)) &&
    (forall a, b, c :: before(a, b) && before(b, c) ==> before(a, c)) &&
    (forall a, b, c :: before(a, c) ==> before(a, b) || before(b, c))
  }

  ghost predicate Sorted<T>(s: seq<T>, before: (T, T) -> bool) {
    forall i, j :: 0 <= i < j < |s| ==> !before(s[j], s[i])
  }

  /** Any sort by a strict weak order; this one inserts. */
  method Sort<T(!new)>(s: seq<T>, before: (T, T) -> bool) returns (sorted: seq<T>)
    requires StrictWeak(before)
    ensures Sorted(sorted, before) && multiset(sorted) == multiset(s)
  {
    sorted := [];
    for i := 0 to |s|
      invariant Sorted(sorted, before) && multiset(sorted) == multiset(s[..i])
    {
      sorted := Insert(sorted, s[i], before);
      assert s[..i + 1] == s[..i] + [s[i]];
    }
    assert s[..|s|] == s;
  }

  method Insert<T(!new)>(s: seq<T>, x: T, before: (T, T) -> bool) returns (longer: seq<T>)
    requires StrictWeak(before) && Sorted(s, before)
    ensures Sorted(longer, before) && multiset(longer) == multiset(s) + multiset{x}
  {
    var at := |s|;
    while at > 0 && before(x, s[at - 1])
      invariant 0 <= at <= |s|
      invariant forall k :: at <= k < |s| ==> before(x, s[k])
    {
      at := at - 1;
    }
    InsertedIsSorted(s, x, at, before);
    assert s == s[..at] + s[at..];
    longer := s[..at] + [x] + s[at..];
  }

  lemma InsertedIsSorted<T(!new)>(s: seq<T>, x: T, at: nat, before: (T, T) -> bool)
    requires StrictWeak(before) && Sorted(s, before) && at <= |s|
    requires at > 0 ==> !before(x, s[at - 1])
    requires forall k :: at <= k < |s| ==> before(x, s[k])
    ensures Sorted(s[..at] + [x] + s[at..], before)
  {
    forall k | 0 <= k < at
      ensures !before(x, s[k])
    {
      assert k < at - 1 ==> !before(s[at - 1], s[k]);
    }
    forall k | at <= k < |s|
      ensures !before(s[k], x)
    {
      assert before(x, s[k]) && !before(x, x);
    }
    SplitStaysSorted(s, x, at, before);
  }

  lemma SplitStaysSorted<T>(s: seq<T>, x: T, at: nat, before: (T, T) -> bool)
    requires Sorted(s, before) && at <= |s|
    requires (forall k :: 0 <= k < at ==> !before(x, s[k])) && forall k :: at <= k < |s| ==> !before(s[k], x)
    ensures Sorted(s[..at] + [x] + s[at..], before)
  {
    var longer := s[..at] + [x] + s[at..];
    forall i, j | 0 <= i < j < |longer|
      ensures !before(longer[j], longer[i])
    {
      assert longer[i] == if i < at then s[i] else if i == at then x else s[i - 1];
      assert longer[j] == if j < at then s[j] else if j == at then x else s[j - 1];
    }
  }

  /** A comparator that tells all elements apart leaves only one sorted order. */
  lemma {:induction false} SortedIsUnique<T(!new)>(s: seq<T>, t: seq<T>, before: (T, T) -> bool)
    requires multiset(s) == multiset(t) && Sorted(s, before) && Sorted(t, before)
    requires forall a, b :: a in s && b in s && a != b ==> before(a, b) || before(b, a)
    ensures s == t
    decreases |s|
  {
    SameLength(s, t);
    if s != [] {
      SameHead(s, t, before);
      SameTails(s, t);
      TailSorted(s, before);
      TailSorted(t, before);
      SortedIsUnique(s[1..], t[1..], before);
      assert s == [s[0]] + s[1..] && t == [t[0]] + t[1..];
    }
  }

  lemma SameLength<T>(s: seq<T>, t: seq<T>)
    requires multiset(s) == multiset(t)
    ensures |s| == |t|
  {
    assert |multiset(s)| == |s| && |multiset(t)| == |t|;
  }

  lemma SameTails<T>(s: seq<T>, t: seq<T>)
    requires multiset(s) == multiset(t) && s != [] && t != [] && s[0] == t[0]
    ensures multiset(s[1..]) == multiset(t[1..])
  {
    TailMultiset(s);
    TailMultiset(t);
  }

  lemma TailMultiset<T>(s: seq<T>)
    requires s != []
    ensures multiset(s[1..]) == multiset(s) - multiset{s[0]}
  {
    assert s == [s[0]] + s[1..];
  }

  lemma TailSorted<T>(s: seq<T>, before: (T, T) -> bool)
    requires s != [] && Sorted(s, before)
    ensures Sorted(s[1..], before) && forall a :: a in s[1..] ==> a in s
  {
    var rest := s[1..];
    forall i, j | 0 <= i < j < |rest|
      ensures !before(rest[j], rest[i])
    {
      assert rest[i] == s[i + 1] && rest[j] == s[j + 1];
    }
  }

  lemma SameHead<T(!new)>(s: seq<T>, t: seq<T>, before: (T, T) -> bool)
    requires multiset(s) == multiset(t) && Sorted(s, before) && Sorted(t, before) && s != [] && t != []
    requires forall a, b :: a in s && b in s && a != b ==> before(a, b) || before(b, a)
    ensures s[0] == t[0]
  {
    SameMembers(s, t);
    assert s[0] in s && s[0] in t && t[0] in t && t[0] in s;
    var i :| 0 <= i < |t| && t[i] == s[0];
    var j :| 0 <= j < |s| && s[j] == t[0];
    assert i > 0 ==> !before(t[i], t[0]);
    assert j > 0 ==> !before(s[j], s[0]);
  }

  lemma SameMembers<T>(s: seq<T>, t: seq<T>)
    requires multiset(s) == multiset(t)
    ensures forall x :: x in s <==> x in t
  {
    forall x
      ensures x in s <==> x in t
    {
      assert x in multiset(s) <==> x in multiset(t);
    }
  }

  lemma {:induction false} NoDupMultiset<T>(s: seq<T>)
    ensures NoDup(s) <==> forall x :: x in s ==> multiset(s)[x] == 1
  {
    if s != [] {
      var front, x := s[..|s| - 1], s[|s| - 1];
      assert s == front + [x];
      NoDupMultiset(front);
      if x in front {
        assert multiset(s)[x] == multiset(front)[x] + 1 >= 2;
        var i :| 0 <= i < |front| && front[i] == x;
        assert s[i] == s[|s| - 1];
      } else {
        assert multiset(front)[x] == 0;
        assert NoDup(s) <==> NoDup(front);
        forall y | y in front
          ensures multiset(s)[y] == multiset(front)[y]
        {
        }
      }
    }
  }

  lemma NoDupPermuted<T>(s: seq<T>, t: seq<T>)
    requires multiset(s) == multiset(t) && NoDup(s)
    ensures NoDup(t)
  {
    NoDupMultiset(s);
    NoDupMultiset(t);
    SameMembers(s, t);
  }

  lemma NoDupConcat<T>(s: seq<T>, t: seq<T>)
    requires NoDup(s) && NoDup(t) && forall x :: x in s ==> x !in t
    ensures NoDup(s + t)
  {
    forall i, j | 0 <= i < j < |s + t|
      ensures (s + t)[i] != (s + t)[j]
    {
      if i < |s| <= j {
        assert (s + t)[i] in s && (s + t)[j] in t;
      }
    }
  }
}
