/** The table of jump buckets in priority order for every quantised direction (src/fpga/Crossbar.cpp). */
module JumpBuckets {
  import opened Common
  import opened AngleOrder

  const REACH: int := 7          // the longest jump along an axis
  const BUCKETS: nat := 224      // 15 * 15 - 1
  const DIRECTIONS: nat := 225   // 15 * 15

  predicate IsJump(b: Bucket) {
    -REACH <= b.dx <= REACH && -REACH <= b.dy <= REACH && b != Bucket(0, 0)
  }

  function Ring(b: Bucket): nat {
    if Abs(b.dx) > Abs(b.dy) then Abs(b.dx) else Abs(b.dy)
  }

  /** All jumps up to the loops' position (length, dx, dy), ring by ring. */
  ghost predicate ListedBefore(b: Bucket, length: int, dx: int, dy: int) {
    b != Bucket(0, 0) && 1 <= Ring(b) <= length &&
    (Ring(b) < length || b.dx < dx || (b.dx == dx && b.dy < dy))
  }

  /** How many jumps the loops have listed when they reach column `dx` of ring `length`. */
  function ListedCount(length: int, dx: int): int {
    4 * length * (length - 1) +
    (if dx <= -length then 0 else if dx <= length then 2 * length + 1 + 2 * (dx + length - 1) else 8 * length)
  }

  /** The fixed list of all 224 jumps. */
  method MakeJumpBucketOrder() returns (order: seq<Bucket>)
    ensures |order| == BUCKETS && NoDup(order)
    ensures forall b :: b in order <==> IsJump(b)
  {
    order := [];
    for length := 1 to REACH + 1
      invariant NoDup(order) && |order| == ListedCount(length, -length)
      invariant forall b :: b in order <==> ListedBefore(b, length, -length, -length)
    {
      order := ListRing(order, length);
    }
  }

  method ListRing(before: seq<Bucket>, length: int) returns (order: seq<Bucket>)
    requires 1 <= length <= REACH
    requires NoDup(before) && |before| == ListedCount(length, -length)
    requires forall b :: b in before <==> ListedBefore(b, length, -length, -length)
    ensures NoDup(order) && |order| == ListedCount(length + 1, -length - 1)
    ensures forall b :: b in order <==> ListedBefore(b, length + 1, -length - 1, -length - 1)
  {
    order := before;
    for dx := -length to length + 1
      invariant NoDup(order) && |order| == ListedCount(length, dx)
      invariant forall b :: b in order <==> ListedBefore(b, length, dx, -length)
    {
      ghost var edge := dx == -length || dx == length;
      for dy := -length to length + 1
        invariant NoDup(order)
        invariant |order| == ListedCount(length, dx) + if edge then dy + length
                    else if dy > -length then 1 + (if dy > length then 1 else 0) else 0
        invariant forall b :: b in order <==> ListedBefore(b, length, dx, dy)
      {
        if dx == 0 && dy == 0 {
          continue;
        }
        if (if Abs(dx) > Abs(dy) then Abs(dx) else Abs(dy)) != length {
          continue;
        }
        assert !ListedBefore(Bucket(dx, dy), length, dx, dy);
        order := order + [Bucket(dx, dy)];
      }
    }
  }

  /** Sorted for a target, and all the jumps there are. */
  ghost predicate IsPriorityOrder(order: seq<Bucket>, t: Bucket) {
    |order| == BUCKETS && (forall b :: b in order <==> IsJump(b)) && Ascending(order, t)
  }

  ghost predicate Ascending(order: seq<Bucket>, t: Bucket) {
    forall i, j :: 0 <= i < j < |order| ==> JumpBucketBefore(order[i], order[j], t)
  }

  function Unused(used: seq<bool>): nat {
    if used == [] then 0 else Unused(used[..|used| - 1]) + if used[|used| - 1] then 0 else 1
  }

  lemma {:induction false} SomeUnused(used: seq<bool>) returns (i: nat)
    requires Unused(used) > 0
    ensures i < |used| && !used[i]
  {
    i := |used| - 1;
    if used[i] {
      i := SomeUnused(used[..i]);
    }
  }

  lemma {:induction false} NoneUnused(used: seq<bool>, i: nat)
    requires Unused(used) == 0 && i < |used|
    ensures used[i]
  {
    if i < |used| - 1 {
      NoneUnused(used[..|used| - 1], i);
    }
  }

  lemma {:induction false} OneMoreUsed(used: seq<bool>, best: nat)
    requires best < |used| && !used[best]
    ensures Unused(used[best := true]) == Unused(used) - 1
  {
    if best < |used| - 1 {
      assert used[best := true][..|used| - 1] == used[..|used| - 1][best := true];
      OneMoreUsed(used[..|used| - 1], best);
    } else {
      assert used[best := true][..|used| - 1] == used[..|used| - 1];
    }
  }

  lemma {:induction false} AllUnused(used: seq<bool>)
    requires forall i :: 0 <= i < |used| ==> !used[i]
    ensures Unused(used) == |used|
  {
    if used != [] {
      AllUnused(used[..|used| - 1]);
    }
  }

  /** The state of the selection: what is used is listed, in order, before everything that is not. */
  ghost predicate IsSelection(base: seq<Bucket>, used: seq<bool>, order: seq<Bucket>, t: Bucket) {
    |used| == |base| && |order| + Unused(used) == |base| &&
    (forall i :: 0 <= i < |base| ==> (used[i] <==> base[i] in order)) &&
    (forall b :: b in order ==> b in base) && Ascending(order, t) &&
    (forall b, k :: b in order && 0 <= k < |base| && !used[k] ==> JumpBucketBefore(b, base[k], t))
  }

  lemma SelectionGrows(base: seq<Bucket>, used: seq<bool>, order: seq<Bucket>, t: Bucket, best: nat)
    requires NoDup(base) && IsSelection(base, used, order, t) && best < |base| && !used[best]
    requires forall i :: 0 <= i < |base| && !used[i] && i != best ==> JumpBucketBefore(base[best], base[i], t)
    ensures IsSelection(base, used[best := true], order + [base[best]], t)
  {
    var longer := order + [base[best]];
    OneMoreUsed(used, best);
    forall i, j | 0 <= i < j < |longer|
      ensures JumpBucketBefore(longer[i], longer[j], t)
    {
      assert i < |order| ==> longer[i] in order;
    }
  }

  /** Selection by the comparison of the source; since that is a total order, the result is the only sorted list. */
  method MakePriorityBucketOrder(base: seq<Bucket>, t: Bucket) returns (order: seq<Bucket>)
    requires NoDup(base)
    ensures |order| == |base| && Ascending(order, t) && forall b :: b in order <==> b in base
  {
    order := [];
    var used := new bool[|base|](i => false);
    AllUnused(used[..]);
    for out := 0 to |base|
      invariant |order| == out && IsSelection(base, used[..], order, t)
    {
      ghost var some := SomeUnused(used[..]);
      var best := SelectBest(base, used, t);
      SelectionGrows(base, used[..], order, t, best);
      used[best] := true;
      order := order + [base[best]];
    }
    SelectionComplete(base, used[..], order, t);
  }

  lemma SelectionComplete(base: seq<Bucket>, used: seq<bool>, order: seq<Bucket>, t: Bucket)
    requires IsSelection(base, used, order, t) && |order| == |base|
    ensures forall b :: b in order <==> b in base
  {
    forall b | b in base
      ensures b in order
    {
      var i :| 0 <= i < |base| && base[i] == b;
      NoneUnused(used, i);
    }
  }

  method SelectBest(base: seq<Bucket>, used: array<bool>, t: Bucket) returns (best: nat)
    requires |base| == used.Length && NoDup(base) && exists i :: 0 <= i < |base| && !used[i]
    ensures best < |base| && !used[best]
    ensures forall i :: 0 <= i < |base| && !used[i] && i != best ==> JumpBucketBefore(base[best], base[i], t)
  {
    best := |base|;
    for index := 0 to |base|
      invariant best <= |base| && (best < |base| ==> best < index && !used[best])
      invariant forall i :: 0 <= i < index && !used[i] ==>
                  best < |base| && (i == best || JumpBucketBefore(base[best], base[i], t))
    {
      if !used[index] && (best == |base| || JumpBucketBefore(base[index], base[best], t)) {
        forall i | 0 <= i < index && !used[i]
          ensures JumpBucketBefore(base[index], base[i], t)
        {
          StrictTotalOrder(base[index], base[best], base[i], t);
        }
        best := index;
      } else if !used[index] {
        StrictTotalOrder(base[best], base[index], base[index], t);
      }
    }
  }

  /** Two sorted lists of all the jumps are the same list. */
  lemma {:induction false} PriorityOrderIsUnique(a: seq<Bucket>, b: seq<Bucket>, t: Bucket, n: nat)
    requires IsPriorityOrder(a, t) && IsPriorityOrder(b, t) && n <= BUCKETS
    ensures a[..n] == b[..n]
  {
    if n > 0 {
      PriorityOrderIsUnique(a, b, t, n - 1);
      var x, y := a[n - 1], b[n - 1];
      NotEarlier(a, b, t, n - 1);
      NotEarlier(b, a, t, n - 1);
      StrictTotalOrder(x, y, x, t);
    }
  }

  lemma NotEarlier(a: seq<Bucket>, b: seq<Bucket>, t: Bucket, i: nat)
    requires IsPriorityOrder(a, t) && IsPriorityOrder(b, t) && i < BUCKETS && a[..i] == b[..i]
    ensures a[i] == b[i] || JumpBucketBefore(b[i], a[i], t)
  {
    assert a[i] in a && a[i] in b;
    var j :| 0 <= j < |b| && b[j] == a[i];
    StrictTotalOrder(a[i], a[i], a[i], t);
    assert forall k :: 0 <= k < i ==> b[k] == a[k] && b[k] != a[i] by {
      assert forall k :: 0 <= k < i ==> a[..i][k] == a[k] && b[..i][k] == b[k] && JumpBucketBefore(a[k], a[i], t);
    }
  }

  /** The table entry of a direction, computed from the fixed list of jumps. */
  method PriorityBucketOrder(t: Bucket) returns (order: seq<Bucket>)
    ensures IsPriorityOrder(order, t)
  {
    var base := MakeJumpBucketOrder();
    order := MakePriorityBucketOrder(base, t);
  }

  // ---------------------------------------------------------------------------
  // Quantising a difference of coordinates to a direction.
  // ---------------------------------------------------------------------------

  function ScaledDirectionAxis(value: int, maxAbs: int): int
    requires 0 <= maxAbs
  {
    if value == 0 || maxAbs == 0 then 0
    else
      var rounded := (Abs(value) * 7 + maxAbs / 2) / maxAbs;
      var scaled := if rounded == 0 then 1 else rounded;
      if value < 0 then -scaled else scaled
  }

  function TargetBucket(dx: int, dy: int): Bucket {
    var maxAbs := if Abs(dx) > Abs(dy) then Abs(dx) else Abs(dy);
    Bucket(ScaledDirectionAxis(dx, maxAbs), ScaledDirectionAxis(dy, maxAbs))
  }

  function DirectionIndex(t: Bucket): int {
    (t.dx + 7) * 15 + (t.dy + 7)
  }

  lemma AxisWithinReach(value: int, maxAbs: int)
    requires Abs(value) <= maxAbs
    ensures var s := ScaledDirectionAxis(value, maxAbs);
            -7 <= s <= 7 && (s > 0 <==> value > 0) && (s < 0 <==> value < 0) &&
            (value != 0 && Abs(value) == maxAbs ==> Abs(s) == 7) &&
            (Abs(s) == 1 || -maxAbs <= 2 * (Abs(s) * maxAbs - 7 * Abs(value)) <= maxAbs)
  {
    if value != 0 {
      RoundedQuotient(Abs(value), maxAbs);
    }
  }

  /** The quotient of the source rounds to nearest, and cannot leave the range. */
  lemma RoundedQuotient(a: int, m: int)
    requires 0 < a <= m
    ensures var q := (a * 7 + m / 2) / m;
            -m <= 2 * (q * m - 7 * a) <= m && 0 <= q <= 7 && (a == m ==> q == 7)
  {
    var q := (a * 7 + m / 2) / m;
    var p := q * m;
    assert p <= a * 7 + m / 2 < p + m;
    Multiples(q, 8, m);
    Multiples(q, 0, m);
    Multiples(q, 7, m);
  }

  lemma Multiples(q: int, k: int, m: int)
    requires m > 0
    ensures q >= k ==> q * m >= k * m
    ensures q < k ==> q * m <= k * m - m
  {
    Distribute(q, k, m);
    if q > k {
      AtLeastOnce(q - k, m);
    } else if q < k {
      AtLeastOnce(k - q, m);
      Distribute(k, q, m);
    }
  }

  lemma Distribute(q: int, k: int, m: int)
    ensures (q - k) * m == q * m - k * m
  {
  }

  lemma AtLeastOnce(n: int, m: int)
    requires n >= 1 && m > 0
    ensures n * m >= m
  {
    assert n * m == (n - 1) * m + m;
    assert (n - 1) * m >= 0;
  }

  /** Every difference, however far, quantises to one of 225 directions; only the zero difference to the centre. */
  lemma TargetWithinTable(dx: int, dy: int)
    ensures var t := TargetBucket(dx, dy);
            -7 <= t.dx <= 7 && -7 <= t.dy <= 7 && 0 <= DirectionIndex(t) < DIRECTIONS &&
            (t == Bucket(0, 0) <==> dx == 0 && dy == 0) &&
            (dx != 0 || dy != 0 ==> Ring(t) == 7)
  {
    var maxAbs := if Abs(dx) > Abs(dy) then Abs(dx) else Abs(dy);
    AxisWithinReach(dx, maxAbs);
    AxisWithinReach(dy, maxAbs);
  }

  lemma DirectionIndexInjective(a: Bucket, b: Bucket)
    requires -7 <= a.dx <= 7 && -7 <= a.dy <= 7 && -7 <= b.dx <= 7 && -7 <= b.dy <= 7
    requires DirectionIndex(a) == DirectionIndex(b)
    ensures a == b
  {
    assert (a.dx - b.dx) * 15 == b.dy - a.dy;
  }

  // ---------------------------------------------------------------------------
  // Deltas packed into node numbers.
  // ---------------------------------------------------------------------------

  function EncodeSigned4(value: int): nat {
    value % 16
  }

  function DecodeSigned4(value: nat): int {
    var low := value % 16;
    if low >= 8 then low - 16 else low
  }

  function JumpIndexForDelta(dx: int, dy: int, num: nat): nat {
    EncodeSigned4(dx) * 256 + EncodeSigned4(dy) * 16 + num % 16
  }

  function JumpDelta(jump: nat): Bucket {
    Bucket(DecodeSigned4(jump / 256 % 16), DecodeSigned4(jump / 16 % 16))
  }

  predicate Encodable(b: Bucket) {
    -8 <= b.dx <= 7 && -8 <= b.dy <= 7
  }

  /** A node number is its delta and its lane, and nothing else. */
  lemma JumpIndexRoundTrip(dx: int, dy: int, num: nat)
    requires Encodable(Bucket(dx, dy))
    ensures JumpDelta(JumpIndexForDelta(dx, dy, num)) == Bucket(dx, dy)
    ensures JumpIndexForDelta(dx, dy, num) % 16 == num % 16 && JumpIndexForDelta(dx, dy, num) < 4096
  {
    var hi, mid, low := EncodeSigned4(dx), EncodeSigned4(dy), num % 16;
    var index := JumpIndexForDelta(dx, dy, num);
    assert index / 256 == hi && index / 16 == hi * 16 + mid;
  }

  lemma JumpDeltaRoundTrip(jump: nat)
    requires jump < 4096
    ensures Encodable(JumpDelta(jump)) && JumpIndexForDelta(JumpDelta(jump).dx, JumpDelta(jump).dy, jump % 16) == jump
  {
    var hi, mid, low := jump / 256, jump / 16 % 16, jump % 16;
    assert jump / 16 == hi * 16 + mid;
    assert jump == hi * 256 + mid * 16 + low;
    Signed4RoundTrip(hi);
    Signed4RoundTrip(mid);
  }

  lemma Signed4RoundTrip(low: nat)
    requires low < 16
    ensures EncodeSigned4(DecodeSigned4(low)) == low && -8 <= DecodeSigned4(low) <= 7
  {
  }
}
