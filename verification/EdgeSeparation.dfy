/** How close a launch edge can come before a capture edge (src/clocks/Timings.cpp, doc/clocks.md). */
module EdgeSeparation {

  /** The greatest common divisor, by Euclid's rule. */
  function Gcd(a: nat, b: nat): nat
    decreases b
  {
    if b == 0 then a else Gcd(b, a % b)
  }

  ghost predicate Divides(g: nat, n: nat) {
    exists k: nat :: n == k * g
  }

  lemma {:induction false} GcdDivides(a: nat, b: nat)
    requires a + b > 0
    ensures Gcd(a, b) > 0 && Divides(Gcd(a, b), a) && Divides(Gcd(a, b), b)
    decreases b
  {
    var g := Gcd(a, b);
    if b == 0 {
      DividesSelfAndZero(g);
    } else {
      GcdDivides(b, a % b);
      var k := Quotient(a, b);
      DividesSum(g, k, b, a % b, a);
    }
  }

  lemma Quotient(a: nat, b: nat) returns (k: nat)
    requires b > 0
    ensures a == k * b + a % b
  {
    k := a / b;
  }

  lemma DividesSelfAndZero(g: nat)
    ensures Divides(g, g) && Divides(g, 0)
  {
    assert g == 1 * g;
    assert 0 == 0 * g;
  }

  lemma DividesSum(g: nat, k: nat, b: nat, r: nat, sum: nat)
    requires Divides(g, b) && Divides(g, r) && sum == k * b + r
    ensures Divides(g, sum)
  {
    var p: nat :| b == p * g;
    var q: nat :| r == q * g;
    var n: nat := k * p + q;
    assert n * g == k * (p * g) + q * g by { Combined(k, p, q, g); }
  }

  lemma Combined(k: int, p: int, q: int, g: int)
    ensures (k * p + q) * g == k * (p * g) + q * g
  {
  }

  /** The gcd is an integer combination of its arguments. */
  lemma {:induction false} GcdCombines(a: nat, b: nat) returns (x: int, y: int)
    requires a + b > 0
    ensures x * a + y * b == Gcd(a, b)
    decreases b
  {
    if b == 0 {
      x, y := 1, 0;
    } else {
      var u, v := GcdCombines(b, a % b);
      x, y := v, u - v * (a / b);
      Rearranged(u, v, a, b, a / b, a % b);
    }
  }

  lemma Rearranged(u: int, v: int, a: int, b: int, k: int, r: int)
    requires a == b * k + r
    ensures v * a + (u - v * k) * b == u * b + v * r
  {
    assert v * (b * k + r) == v * (b * k) + v * r;
    assert (u - v * k) * b == u * b - (v * k) * b;
    assert v * (b * k) == (v * k) * b;
  }

  /** The time from the n-th launch edge to the m-th capture edge. */
  function Distance(launch: nat, capture: nat, n: nat, m: nat): int {
    m * capture - n * launch
  }

  /** Some launch edge and some later capture edge are exactly the gcd apart. */
  lemma SeparationIsReached(launch: nat, capture: nat) returns (n: nat, m: nat)
    requires launch > 0 && capture > 0
    ensures Distance(launch, capture, n, m) == Gcd(launch, capture)
  {
    var x, y := GcdCombines(launch, capture);
    var k: nat := (if x < 0 then -x else x) + (if y < 0 then -y else y);
    AtLeast(k, capture);
    AtLeast(k, launch);
    n, m := k * capture - x, y + k * launch;
    Shifted(x, y, k, launch, capture);
  }

  lemma AtLeast(k: nat, period: nat)
    requires period > 0
    ensures k * period >= k
  {
  }

  lemma Shifted(x: int, y: int, k: int, launch: int, capture: int)
    ensures (y + k * launch) * capture - (k * capture - x) * launch == x * launch + y * capture
  {
    assert (y + k * launch) * capture == y * capture + (k * launch) * capture;
    assert (k * capture - x) * launch == (k * capture) * launch - x * launch;
    assert (k * launch) * capture == (k * capture) * launch;
  }

  /** No launch edge comes closer before a capture edge than the gcd. */
  lemma SeparationIsLeast(launch: nat, capture: nat, n: nat, m: nat)
    requires launch > 0 && capture > 0 && Distance(launch, capture, n, m) > 0
    ensures Distance(launch, capture, n, m) >= Gcd(launch, capture)
  {
    var g := Gcd(launch, capture);
    GcdDivides(launch, capture);
    var p: nat :| launch == p * g;
    var q: nat :| capture == q * g;
    Factored(m, q, n, p, g);
    PositiveMultiple(m * q - n * p, g);
  }

  lemma Factored(m: int, q: int, n: int, p: int, g: int)
    ensures m * (q * g) - n * (p * g) == (m * q - n * p) * g
  {
    assert m * (q * g) == (m * q) * g;
    assert n * (p * g) == (n * p) * g;
  }

  lemma PositiveMultiple(k: int, g: int)
    requires g > 0 && k * g > 0
    ensures k * g >= g
  {
    assert k >= 1;
    assert k * g == (k - 1) * g + g;
    assert (k - 1) * g >= 0;
  }

  /** The separation is positive and never more than one capture period. */
  lemma SeparationWithinPeriod(launch: nat, capture: nat)
    requires launch > 0 && capture > 0
    ensures 0 < Gcd(launch, capture) <= capture
  {
    GcdDivides(launch, capture);
    SeparationIsLeast(launch, capture, 0, 1);
  }
}
