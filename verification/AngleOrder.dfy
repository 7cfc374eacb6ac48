/** The exact angular order of jump buckets around a target direction (src/fpga/Crossbar.cpp). */
module AngleOrder {

  datatype Bucket = Bucket(dx: int, dy: int)

  function Abs(n: int): nat {
    if n < 0 then -n else n
  }

  function Dot(b: Bucket, t: Bucket): int {
    b.dx * t.dx + b.dy * t.dy
  }

  function Cross(b: Bucket, t: Bucket): nat {
    Abs(b.dx * t.dy - b.dy * t.dx)
  }

  /** 0: less than a right angle from the target, 1: a right angle, 2: more. */
  function AngleHalf(dot: int): nat {
    if dot > 0 then 0 else if dot == 0 then 1 else 2
  }

  /** The comparison of the source: integer cross-multiplication only. */
  predicate JumpBucketBefore(l: Bucket, r: Bucket, t: Bucket) {
    var lDot, rDot := Dot(l, t), Dot(r, t);
    var lCross, rCross := Cross(l, t), Cross(r, t);
    var lHalf, rHalf := AngleHalf(lDot), AngleHalf(rDot);
    if lHalf != rHalf then lHalf < rHalf
    else if lHalf == 0 && lCross * rDot != rCross * lDot then lCross * rDot < rCross * lDot
    else if lHalf == 2 && lCross * -rDot != rCross * -lDot then lCross * -rDot > rCross * -lDot
    else TieBefore(l, r)
  }

  /** Of equal angles, the shorter jump first, then the smaller x, then the smaller y. */
  predicate TieBefore(l: Bucket, r: Bucket) {
    var lLength, rLength := Abs(l.dx) + Abs(l.dy), Abs(r.dx) + Abs(r.dy);
    if lLength != rLength then lLength < rLength
    else if l.dx != r.dx then l.dx < r.dx
    else l.dy < r.dy
  }

  // ---------------------------------------------------------------------------
  // A strict total order: the comparison is lexicographic in one key per bucket.
  // ---------------------------------------------------------------------------

  /** The half and, away from a right angle, the tangent of the angle to the target. */
  ghost function Slope(b: Bucket, t: Bucket): (nat, real) {
    var dot := Dot(b, t);
    (AngleHalf(dot), if dot == 0 then 0.0 else Cross(b, t) as real / dot as real)
  }

  ghost predicate SlopeBefore(a: (nat, real), b: (nat, real)) {
    a.0 < b.0 || (a.0 == b.0 && a.1 < b.1)
  }

  lemma FractionOrder(a: int, b: int, c: int, d: int)
    requires b > 0 && d > 0
    ensures a * d < c * b <==> a as real / b as real < c as real / d as real
    ensures a * d == c * b <==> a as real / b as real == c as real / d as real
  {
    var x, y := a as real / b as real, c as real / d as real;
    var scale := b as real * d as real;
    assert x * scale == (a * d) as real by {
      assert x * b as real == a as real;
      assert x * scale == (x * b as real) * d as real;
    }
    assert y * scale == (c * b) as real by {
      assert y * d as real == c as real;
      assert y * scale == (y * d as real) * b as real;
    }
    assert x < y <==> x * scale < y * scale;
    assert x == y <==> x * scale == y * scale;
  }

  lemma NegatedFraction(a: int, b: int)
    requires b < 0
    ensures a as real / b as real == -(a as real / (-b) as real)
  {
    var x := a as real / b as real;
    assert x * b as real == a as real;
    assert (-x) * (-b) as real == a as real;
  }

  lemma BeforeIsLexicographic(l: Bucket, r: Bucket, t: Bucket)
    ensures JumpBucketBefore(l, r, t) <==>
            SlopeBefore(Slope(l, t), Slope(r, t)) || (Slope(l, t) == Slope(r, t) && TieBefore(l, r))
  {
    var lDot, rDot := Dot(l, t), Dot(r, t);
    var lCross, rCross := Cross(l, t), Cross(r, t);
    if lDot > 0 && rDot > 0 {
      FractionOrder(lCross, lDot, rCross, rDot);
    } else if lDot < 0 && rDot < 0 {
      FractionOrder(rCross, -rDot, lCross, -lDot);
      NegatedFraction(lCross, lDot);
      NegatedFraction(rCross, rDot);
    }
  }

  /** For every target, zero included, the comparison is a strict total order on all integer vectors. */
  lemma StrictTotalOrder(a: Bucket, b: Bucket, c: Bucket, t: Bucket)
    ensures !JumpBucketBefore(a, a, t)
    ensures a != b ==> (JumpBucketBefore(a, b, t) <==> !JumpBucketBefore(b, a, t))
    ensures JumpBucketBefore(a, b, t) && JumpBucketBefore(b, c, t) ==> JumpBucketBefore(a, c, t)
  {
    BeforeIsLexicographic(a, a, t);
    BeforeIsLexicographic(a, b, t);
    BeforeIsLexicographic(b, a, t);
    BeforeIsLexicographic(b, c, t);
    BeforeIsLexicographic(a, c, t);
  }

  // ---------------------------------------------------------------------------
  // Agreement with the angle. The cosine of the angle between b and t is
  // Dot(b, t) / (|b| |t|); comparing two of them needs only signed squares.
  // ---------------------------------------------------------------------------

  function Square(b: Bucket): nat {
    Abs(b.dx) * Abs(b.dx) + Abs(b.dy) * Abs(b.dy)
  }

  function SignedSquare(n: int): int {
    if n < 0 then -(n * n) else n * n
  }

  /** `l` makes the smaller angle with `t`: its cosine is the larger. */
  predicate CloserInAngle(l: Bucket, r: Bucket, t: Bucket) {
    SignedSquare(Dot(l, t)) * Square(r) > SignedSquare(Dot(r, t)) * Square(l)
  }

  lemma Lagrange(b: Bucket, t: Bucket)
    ensures Dot(b, t) * Dot(b, t) + Cross(b, t) * Cross(b, t) == Square(b) * Square(t)
  {
    var p, q, r, s := b.dx, b.dy, t.dx, t.dy;
    assert Square(b) == p * p + q * q && Square(t) == r * r + s * s;
    assert Cross(b, t) * Cross(b, t) == (p * s - q * r) * (p * s - q * r);
    ProductOfSums(p, q, r, s);
  }

  lemma SquareOfSum(a: int, b: int)
    ensures (a + b) * (a + b) == a * a + 2 * (a * b) + b * b
  {
  }

  lemma ProductOfProducts(a: int, b: int, c: int, d: int)
    ensures (a * b) * (c * d) == (a * c) * (b * d)
  {
    assert (a * b) * (c * d) == a * (b * (c * d));
    assert b * (c * d) == c * (b * d);
    assert a * (c * (b * d)) == (a * c) * (b * d);
  }

  lemma ProductOfTwoSums(a: int, b: int, c: int, d: int)
    ensures (a + b) * (c + d) == a * c + a * d + b * c + b * d
  {
  }

  lemma ProductOfSums(p: int, q: int, r: int, s: int)
    ensures (p * r + q * s) * (p * r + q * s) + (p * s - q * r) * (p * s - q * r) == (p * p + q * q) * (r * r + s * s)
  {
    SquareOfSum(p * r, q * s);
    SquareOfSum(p * s, -(q * r));
    ProductOfTwoSums(p * p, q * q, r * r, s * s);
    ProductOfProducts(p, r, p, r);
    ProductOfProducts(q, s, q, s);
    ProductOfProducts(p, s, p, s);
    ProductOfProducts(q, r, q, r);
    ProductOfProducts(p, r, q, s);
    ProductOfProducts(p, s, q, r);
    SameProduct(r * s, s * r, p * q);
    NegatedProduct(p * s, q * r);
    NegatedProduct(q * r, q * r);
  }

  lemma SameProduct(a: int, b: int, c: int)
    requires a == b
    ensures c * a == c * b
  {
  }

  lemma NegatedProduct(a: int, b: int)
    ensures a * -b == -(a * b) && (-b) * (-b) == b * b
  {
  }

  lemma SquaresKeepOrder(a: nat, b: nat)
    ensures a < b <==> a * a < b * b
    ensures a == b <==> a * a == b * b
  {
    if a < b {
      assert a * a <= a * b < b * b by {
        assert a * b - a * a == a * (b - a);
        assert b * b - a * b == b * (b - a);
      }
    } else if b < a {
      assert b * b <= a * b < a * a by {
        assert a * b - b * b == b * (a - b);
        assert a * a - a * b == a * (a - b);
      }
    }
  }

  /** Within one half, comparing c/d with c'/d' is comparing the squared cosines the other way round. */
  lemma TangentAgainstCosine(c: nat, d: nat, n: nat, c': nat, d': nat, n': nat, size: nat)
    requires d > 0 && d' > 0 && size > 0
    requires d * d + c * c == n * size && d' * d' + c' * c' == n' * size
    ensures c * d' < c' * d <==> d * d * n' > d' * d' * n
    ensures c * d' == c' * d <==> d * d * n' == d' * d' * n
  {
    SquaresKeepOrder(c * d', c' * d);
    ProductOfProducts(c, d', c, d');
    ProductOfProducts(c', d, c', d);
    ReplaceSquare(c * c, d * d, n, size, d' * d');
    ReplaceSquare(c' * c', d' * d', n', size, d * d);
    ScaledOrder(d' * d' * n, d * d * n', size);
    Commute(d * d, d' * d');
  }

  lemma ReplaceSquare(cc: int, dd: int, n: int, size: int, e: int)
    requires dd + cc == n * size
    ensures cc * e == e * n * size - dd * e
  {
    assert cc == n * size - dd;
    assert (n * size - dd) * e == n * size * e - dd * e;
    assert n * size * e == e * n * size;
  }

  lemma Commute(a: int, b: int)
    ensures a * b == b * a
  {
  }

  lemma ScaledOrder(a: int, b: int, scale: int)
    requires scale > 0
    ensures a * scale < b * scale <==> a < b
    ensures a * scale == b * scale <==> a == b
  {
    if a < b {
      assert (b - a) * scale > 0;
    } else if b < a {
      assert (a - b) * scale > 0;
    }
  }

  lemma SquarePositive(b: Bucket)
    requires b != Bucket(0, 0)
    ensures Square(b) > 0
  {
    if b.dx != 0 {
      assert Abs(b.dx) * Abs(b.dx) > 0;
    } else {
      assert Abs(b.dy) * Abs(b.dy) > 0;
    }
  }

  lemma SignOfSignedSquare(n: int)
    ensures n > 0 <==> SignedSquare(n) > 0
    ensures n < 0 <==> SignedSquare(n) < 0
  {
    if n != 0 {
      assert n * n > 0;
    }
  }

  /**
   The integer comparison orders buckets by their angle to the target, nearest first, and
   breaks ties only between buckets of exactly the same angle.
   */
  lemma BeforeIsByAngle(l: Bucket, r: Bucket, t: Bucket)
    requires l != Bucket(0, 0) && r != Bucket(0, 0) && t != Bucket(0, 0)
    ensures JumpBucketBefore(l, r, t) <==>
            CloserInAngle(l, r, t) || (!CloserInAngle(r, l, t) && TieBefore(l, r))
  {
    var lDot, rDot := Dot(l, t), Dot(r, t);
    SquarePositive(l);
    SquarePositive(r);
    SquarePositive(t);
    if lDot > 0 && rDot > 0 {
      Lagrange(l, t);
      Lagrange(r, t);
      TangentAgainstCosine(Cross(l, t), lDot, Square(l), Cross(r, t), rDot, Square(r), Square(t));
    } else if lDot < 0 && rDot < 0 {
      BothBehind(l, r, t);
    } else {
      SignsDecide(lDot, Square(l), rDot, Square(r));
      SignsDecide(rDot, Square(r), lDot, Square(l));
    }
  }

  lemma BothBehind(l: Bucket, r: Bucket, t: Bucket)
    requires Dot(l, t) < 0 && Dot(r, t) < 0 && Square(t) > 0
    ensures var lRatio, rRatio := Cross(l, t) * -Dot(r, t), Cross(r, t) * -Dot(l, t);
            (lRatio > rRatio <==> CloserInAngle(l, r, t)) && (lRatio < rRatio <==> CloserInAngle(r, l, t))
  {
    var lDot, rDot := Dot(l, t), Dot(r, t);
    Lagrange(l, t);
    Lagrange(r, t);
    assert (-lDot) * (-lDot) == lDot * lDot && (-rDot) * (-rDot) == rDot * rDot;
    TangentAgainstCosine(Cross(r, t), -rDot, Square(r), Cross(l, t), -lDot, Square(l), Square(t));
    assert -(lDot * lDot) * Square(r) == -(lDot * lDot * Square(r));
    assert -(rDot * rDot) * Square(l) == -(rDot * rDot * Square(l));
  }

  /** Across a right angle the signs of the dot products decide. */
  lemma SignsDecide(lDot: int, lSquare: nat, rDot: int, rSquare: nat)
    requires lSquare > 0 && rSquare > 0 && !(lDot > 0 && rDot > 0) && !(lDot < 0 && rDot < 0)
    ensures SignedSquare(lDot) * rSquare > SignedSquare(rDot) * lSquare <==> AngleHalf(lDot) < AngleHalf(rDot)
  {
    SignOfSignedSquare(lDot);
    SignOfSignedSquare(rDot);
    SignOfProduct(SignedSquare(lDot), rSquare);
    SignOfProduct(SignedSquare(rDot), lSquare);
  }

  lemma SignOfProduct(a: int, b: int)
    requires b > 0
    ensures a > 0 <==> a * b > 0
    ensures a < 0 <==> a * b < 0
  {
    ScaledOrder(a, 0, b);
    ScaledOrder(0, a, b);
  }

  /** Only the direction of the target matters, not its length. */
  lemma ScalingTheTarget(l: Bucket, r: Bucket, t: Bucket, k: int)
    requires k > 0
    ensures JumpBucketBefore(l, r, Bucket(k * t.dx, k * t.dy)) <==> JumpBucketBefore(l, r, t)
  {
    var far := Bucket(k * t.dx, k * t.dy);
    ScaledVectors(l, t, k);
    ScaledVectors(r, t, k);
    ScaledProducts(Cross(l, t), Dot(r, t), Cross(r, t), Dot(l, t), k);
  }

  lemma ScaledVectors(b: Bucket, t: Bucket, k: int)
    requires k > 0
    ensures Dot(b, Bucket(k * t.dx, k * t.dy)) == k * Dot(b, t)
    ensures Cross(b, Bucket(k * t.dx, k * t.dy)) == k * Cross(b, t)
    ensures AngleHalf(k * Dot(b, t)) == AngleHalf(Dot(b, t))
  {
    var x := b.dx * t.dy - b.dy * t.dx;
    assert b.dx * (k * t.dx) + b.dy * (k * t.dy) == k * Dot(b, t);
    assert b.dx * (k * t.dy) - b.dy * (k * t.dx) == k * x;
    SignOfProduct(x, k);
    assert Abs(k * x) == k * Abs(x);
    SignOfProduct(Dot(b, t), k);
    assert Dot(b, t) == 0 ==> k * Dot(b, t) == 0;
  }

  lemma ScaledProducts(a: int, b: int, c: int, d: int, k: int)
    requires k > 0
    ensures (k * a) * (k * b) < (k * c) * (k * d) <==> a * b < c * d
    ensures (k * a) * (k * b) == (k * c) * (k * d) <==> a * b == c * d
    ensures (k * a) * -(k * b) == -((k * a) * (k * b)) && (k * c) * -(k * d) == -((k * c) * (k * d))
    ensures a * -b == -(a * b) && c * -d == -(c * d)
  {
    assert (k * a) * (k * b) == (a * b) * (k * k);
    assert (k * c) * (k * d) == (c * d) * (k * k);
    ScaledOrder(a * b, c * d, k * k);
  }
}
