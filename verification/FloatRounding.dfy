/** Every quotient the ceilings are taken of has a nearest double, ties to even included. */
module FloatRounding {
  import opened FloatCeiling

  /** `2^j` as the number of grid lines between two integers. */
  function Lines(j: nat): real { Pow2(j) as real }

  predicate IsOutside(e: real, p: real, m: int) { e * p <= m as real || e * p >= (m + 1) as real }

  /** No double lies strictly between the grid lines `m` and `m + 1`. */
  ghost predicate Gap(p: real, m: int) { forall e: real | IsDouble(e) :: IsOutside(e, p, m) }

  /** The finest grid on which the value still needs no more than 53 bits. */
  lemma {:induction false} FinestGrid(q: real, j: nat) returns (k: nat)
    requires j <= -MIN_EXPONENT && q * Lines(j) <= MAX_MANTISSA as real
    ensures k <= -MIN_EXPONENT && q * Lines(k) <= MAX_MANTISSA as real
    ensures k == -MIN_EXPONENT || q * Lines(k + 1) > MAX_MANTISSA as real
    decreases -MIN_EXPONENT - j
  {
    if j < -MIN_EXPONENT && q * Lines(j + 1) <= MAX_MANTISSA as real {
      k := FinestGrid(q, j + 1);
    } else {
      k := j;
    }
  }

  lemma DoubleLines(j: nat)
    ensures Lines(j + 1) == 2.0 * Lines(j)
  {
  }

  lemma LinesSplit(i: nat, j: nat)
    requires i <= j
    ensures Lines(j) == Lines(i) * Lines(j - i)
  {
    Pow2Adds(i, j - i);
  }

  lemma Regroup(e: real, a: real, b: real)
    ensures e * (a * b) == (e * a) * b
  {
  }

  lemma MulIsReal(a: int, b: int)
    ensures (a * b) as real == a as real * (b as real)
  {
  }

  /** A double with a coarse enough exponent is on the grid. */
  lemma OnTheGrid(e: real, m: int, k: int, j: nat) returns (n: int)
    requires Represents(m, k, e) && -k <= j
    ensures e * Lines(j) == n as real
  {
    if k >= 0 {
      n := m * Pow2(k) * Pow2(j);
      MulIsReal(m * Pow2(k), Pow2(j));
    } else {
      var i: nat := -k;
      LinesSplit(i, j);
      Regroup(e, Lines(i), Lines(j - i));
      n := m * Pow2(j - i);
      MulIsReal(m, Pow2(j - i));
    }
  }

  lemma {:induction false} FinerIsMore(i: nat, j: nat)
    requires i < j
    ensures Lines(j) >= 2.0 * Lines(i)
  {
    if i + 1 < j {
      FinerIsMore(i, j - 1);
    }
    DoubleLines(j - 1);
    assert Lines(j - 1) >= 1.0;
  }

  lemma ScalesMonotone(e: real, a: real, b: real)
    requires e >= 0.0 && a <= b
    ensures e * a <= e * b
  {
  }

  /** A double with a finer exponent is no larger than half the largest mantissa. */
  lemma BelowTheGrid(e: real, m: int, k: int, j: nat)
    requires Represents(m, k, e) && -k > j
    ensures e * Lines(j) <= (MAX_MANTISSA / 2) as real
  {
    var i: nat := -k;
    FinerIsMore(j, i);
    if e > 0.0 {
      ScalesMonotone(e, 2.0 * Lines(j), Lines(i));
      assert e * Lines(i) == m as real;
      assert e * (2.0 * Lines(j)) == 2.0 * (e * Lines(j));
    } else {
      ScalesMonotone(-e, 0.0, Lines(j));
    }
  }

  lemma OffTheGap(e: real, j: nat, m: int)
    requires IsDouble(e) && m >= 0 && j <= -MIN_EXPONENT && (j == -MIN_EXPONENT || m >= MAX_MANTISSA / 2)
    ensures IsOutside(e, Lines(j), m)
  {
    var c: int, k: int :| Represents(c, k, e);
    if -k <= j {
      var n := OnTheGrid(e, c, k, j);
      assert n <= m || n >= m + 1;
    } else {
      assert j < -MIN_EXPONENT;
      BelowTheGrid(e, c, k, j);
    }
  }

  lemma GapOnGrid(j: nat, m: int)
    requires m >= 0 && j <= -MIN_EXPONENT && (j == -MIN_EXPONENT || m >= MAX_MANTISSA / 2)
    ensures Gap(Lines(j), m)
  {
    forall e: real | IsDouble(e) ensures IsOutside(e, Lines(j), m) {
      OffTheGap(e, j, m);
    }
  }

  lemma GridLineIsDouble(c: nat, j: nat) returns (d: real)
    requires c <= MAX_MANTISSA && j <= -MIN_EXPONENT
    ensures IsDouble(d) && d * Lines(j) == c as real
  {
    d := c as real / Lines(j);
    FractionIsDouble(c, j, d);
  }

  lemma ProductSign(x: real, p: real)
    requires p > 0.0
    ensures x > 0.0 <==> x * p > 0.0
    ensures x < 0.0 <==> x * p < 0.0
  {
  }

  lemma Distribute(x: real, y: real, p: real)
    ensures (x - y) * p == x * p - y * p
  {
  }

  lemma SameOrder(x: real, y: real, p: real)
    requires p > 0.0
    ensures x <= y <==> x * p <= y * p
  {
    Distribute(x, y, p);
    ProductSign(x - y, p);
  }

  /** Distances on the grid are distances times the number of lines. */
  lemma Distance(x: real, q: real, p: real, xp: real, qp: real)
    requires p > 0.0 && xp == x * p && qp == q * p
    ensures Abs(xp - qp) == Abs(x - q) * p
  {
    Distribute(x, q, p);
    Distribute(q, x, p);
    ProductSign(x - q, p);
  }

  lemma AtLeastAsFar(q: real, d: real, e: real, p: real, qp: real, dp: real, ep: real)
    requires p > 0.0 && qp == q * p && dp == d * p && ep == e * p
    ensures Abs(dp - qp) <= Abs(ep - qp) <==> Abs(d - q) <= Abs(e - q)
  {
    Distance(d, q, p, dp, qp);
    Distance(e, q, p, ep, qp);
    SameOrder(Abs(d - q), Abs(e - q), p);
  }

  /** `c` is the nearer of the two grid lines around the value, either of them in a tie. */
  predicate Nearer(x: real, m: int, c: int) {
    m as real <= x < (m + 1) as real && (c == m || c == m + 1) && Abs(c as real - x) <= 0.5
  }

  lemma NearestOnGrid(q: real, p: real, m: int, c: int, d: real)
    requires p > 0.0 && Gap(p, m) && Nearer(q * p, m, c) && IsDouble(d) && d * p == c as real
    ensures IsNearest(q, d)
  {
    forall e: real | IsDouble(e) ensures Abs(d - q) <= Abs(e - q) {
      assert IsOutside(e, p, m);
      OtherIsNoNearer(p, q, m, c, d, e);
    }
  }

  lemma OtherIsNoNearer(p: real, q: real, m: int, c: int, d: real, e: real)
    requires p > 0.0 && Nearer(q * p, m, c) && d * p == c as real && IsOutside(e, p, m)
    ensures Abs(d - q) <= Abs(e - q)
  {
    NoNearer(q * p, m, c, e * p);
    AtLeastAsFar(q, d, e, p, q * p, d * p, e * p);
  }

  lemma NoNearer(x: real, m: int, c: int, y: real)
    requires Nearer(x, m, c) && (y <= m as real || y >= (m + 1) as real)
    ensures Abs(c as real - x) <= Abs(y - x)
    ensures x - m as real != 0.5 && Abs(y - x) <= Abs(c as real - x) ==> y == c as real
  {
  }

  /** Away from the middle the nearest double is the only one. */
  lemma OnlyOneNearest(q: real, p: real, m: int, c: int, d: real, e: real)
    requires p > 0.0 && Nearer(q * p, m, c) && d * p == c as real && q * p - m as real != 0.5
    requires IsOutside(e, p, m) && Abs(e - q) <= Abs(d - q)
    ensures e == d
  {
    AtLeastAsFar(q, e, d, p, q * p, e * p, d * p);
    NoNearer(q * p, m, c, e * p);
    assert e * p == d * p;
    SameOrder(e, d, p);
    SameOrder(d, e, p);
  }

  lemma EvenGridLine(c: nat, j: nat, d: real)
    requires c <= MAX_MANTISSA && c % 2 == 0 && j <= -MIN_EXPONENT && d * Lines(j) == c as real
    requires j == -MIN_EXPONENT || c >= MAX_MANTISSA / 2
    ensures HasEvenMantissa(d)
  {
    if c < MAX_MANTISSA || j == -MIN_EXPONENT {
      var k: int := -(j as int);
      assert Represents(c, k, d);
    } else if j > 0 {
      DoubleLines(j - 1);
      assert d * (2.0 * Lines(j - 1)) == 2.0 * (d * Lines(j - 1));
      var k: int := -(j as int) + 1;
      assert Represents(MAX_MANTISSA / 2, k, d);
    } else {
      assert Lines(0) == 1.0 && Pow2(1) == 2;
      assert Represents(MAX_MANTISSA / 2, 1, d);
    }
  }

  /** The grid line to round to: the nearer one, and the even one of two that are as near. */
  lemma RoundedLine(x: real) returns (m: nat, c: nat)
    requires 0.0 <= x <= MAX_MANTISSA as real
    ensures Nearer(x, m, c) && c <= MAX_MANTISSA && (x - m as real == 0.5 ==> c % 2 == 0)
    ensures x >= (MAX_MANTISSA / 2) as real ==> m >= MAX_MANTISSA / 2 && c >= MAX_MANTISSA / 2
  {
    m := x.Floor;
    var f := x - m as real;
    c := if f < 0.5 || (f == 0.5 && m % 2 == 0) then m else m + 1;
  }

  lemma NoOtherNearest(q: real, p: real, m: int, c: int, d: real)
    requires p > 0.0 && Gap(p, m) && Nearer(q * p, m, c) && q * p - m as real != 0.5
    requires IsDouble(d) && d * p == c as real
    ensures forall e: real | IsNearest(q, e) :: e == d
  {
    forall e: real | IsNearest(q, e) ensures e == d {
      assert Abs(e - q) <= Abs(d - q);
      assert IsOutside(e, p, m);
      OnlyOneNearest(q, p, m, c, d, e);
    }
  }

  lemma RoundsOnGrid(q: real, p: real, m: int, c: int, d: real)
    requires p > 0.0 && Gap(p, m) && Nearer(q * p, m, c) && IsDouble(d) && d * p == c as real
    requires q * p - m as real == 0.5 ==> HasEvenMantissa(d)
    ensures RoundsTo(q, d)
  {
    assert IsNearest(q, d) by { NearestOnGrid(q, p, m, c, d); }
    if !HasEvenMantissa(d) {
      NoOtherNearest(q, p, m, c, d);
    }
  }

  lemma FinestGridIsFull(q: real, j: nat)
    requires q * Lines(j + 1) > MAX_MANTISSA as real
    ensures q * Lines(j) >= (MAX_MANTISSA / 2) as real
  {
    DoubleLines(j);
    Regroup(q, 2.0, Lines(j));
    assert (q * 2.0) * Lines(j) == 2.0 * (q * Lines(j));
  }

  /** The line chosen on the finest grid, as a double. */
  lemma RoundedOn(j: nat, x: real) returns (m: nat, c: nat, d: real)
    requires j <= -MIN_EXPONENT && 0.0 <= x <= MAX_MANTISSA as real
    requires j == -MIN_EXPONENT || x >= (MAX_MANTISSA / 2) as real
    ensures Nearer(x, m, c) && Gap(Lines(j), m) && IsDouble(d) && d * Lines(j) == c as real
    ensures x - m as real == 0.5 ==> HasEvenMantissa(d)
  {
    m, c := RoundedLine(x);
    GapOnGrid(j, m);
    d := GridLineIsDouble(c, j);
    if c % 2 == 0 {
      EvenGridLine(c, j, d);
    }
  }

  lemma GridFor(q: real) returns (j: nat, x: real)
    requires 0.0 <= q <= MAX_MANTISSA as real
    ensures j <= -MIN_EXPONENT && x == q * Lines(j) && 0.0 <= x <= MAX_MANTISSA as real
    ensures j == -MIN_EXPONENT || x >= (MAX_MANTISSA / 2) as real
  {
    assert q * Lines(0) == q by { assert Lines(0) == 1.0; }
    j := FinestGrid(q, 0);
    ScalesMonotone(q, 0.0, Lines(j));
    if j < -MIN_EXPONENT {
      FinestGridIsFull(q, j);
    }
    x := q * Lines(j);
  }

  /** Every value from 0 to `2^53` has a double it rounds to. */
  lemma RoundedExists(q: real) returns (d: real)
    requires 0.0 <= q <= MAX_MANTISSA as real
    ensures RoundsTo(q, d)
  {
    var j, x := GridFor(q);
    var m: nat, c: nat;
    m, c, d := RoundedOn(j, x);
    RoundsOnGrid(q, Lines(j), m, c, d);
  }

  /** So the ceiling of a rounded quotient speaks of something for every size up to `2^53`. */
  lemma QuotientRounds(a: nat, b: nat) returns (d: real)
    requires a <= MAX_MANTISSA && PartSizeInRange(b)
    ensures RoundsTo(Quotient(a, b), d) && Ceil(d) == CeilDiv(a, b)
  {
    DivideBoth(a as real, 0.0, b as real);
    QuotientAtMost(a, b);
    d := RoundedExists(Quotient(a, b));
    FloatCeilIsCeilDiv(a, b, d);
  }

  lemma QuotientAtMost(a: nat, b: nat)
    requires b > 0
    ensures 0.0 <= Quotient(a, b) <= a as real
  {
    assert Quotient(a, b) * (b as real) == a as real;
  }
}
