/** `ceil(a / b)` on two integers as Python computes it: the quotient is rounded to the nearest
    double (ties to even), then rounded up. */
module FloatCeiling {

  function Pow2(n: nat): (r: int)
    ensures r >= 1
  {
    if n == 0 then 1 else 2 * Pow2(n - 1)
  }

  const MAX_MANTISSA: int := 0x20_0000_0000_0000

  const MIN_EXPONENT: int := -1074

  /** `d == m * 2^k`. (`2^53` is a double too, so the mantissa bound may be inclusive.) */
  ghost predicate Represents(m: int, k: int, d: real) {
    && MIN_EXPONENT <= k && -MAX_MANTISSA <= m <= MAX_MANTISSA
    && if k >= 0 then d == (m * Pow2(k)) as real else d * (Pow2(-k) as real) == m as real
  }

  /** A finite double (no upper exponent bound is needed for quotients of this size). */
  ghost predicate IsDouble(d: real) { exists m: int, k: int :: Represents(m, k, d) }

  /** The mantissa of the normal form (or of the subnormal form) is even. */
  ghost predicate HasEvenMantissa(d: real) {
    exists m: int, k: int ::
      Represents(m, k, d) && m % 2 == 0
      && ((MAX_MANTISSA / 2 <= m < MAX_MANTISSA || -MAX_MANTISSA < m <= -MAX_MANTISSA / 2) || k == MIN_EXPONENT)
  }

  function Abs(x: real): real { if x < 0.0 then -x else x }

  ghost predicate IsNearest(q: real, d: real) {
    IsDouble(d) && forall e: real | IsDouble(e) :: Abs(d - q) <= Abs(e - q)
  }

  ghost predicate RoundsTo(q: real, d: real) {
    && IsNearest(q, d)
    && ((exists e: real :: e != d && IsNearest(q, e)) ==> HasEvenMantissa(d))
  }

  function Ceil(x: real): int { -((-x).Floor) }

  function CeilDiv(a: nat, b: nat): nat
    requires b > 0
  {
    (a + b - 1) / b
  }

  function Quotient(a: nat, b: nat): real
    requires b > 0
  {
    a as real / b as real
  }

  // ---------------------------------------------------------------- exactness

  lemma {:induction false} Pow2Adds(a: nat, b: nat)
    ensures Pow2(a + b) == Pow2(a) * Pow2(b)
  {
    if a > 0 {
      Pow2Adds(a - 1, b);
    }
  }

  lemma Pow53()
    ensures Pow2(53) == MAX_MANTISSA && Pow2(52) * 2 == MAX_MANTISSA
  {
    assert Pow2(10) == 1024;
    Pow2Adds(10, 10);
    Pow2Adds(20, 20);
    Pow2Adds(40, 10);
    assert Pow2(52) == 4 * Pow2(50);
  }

  lemma IntegersAreDoubles(n: nat)
    requires n <= MAX_MANTISSA
    ensures IsDouble(n as real)
  {
    assert n * Pow2(0) == n;
    assert Represents(n, 0, n as real);
  }

  /** The binary exponent of a positive integer below `2^53`. */
  lemma {:induction false} Exponent(n: nat, top: nat) returns (e: nat)
    requires 1 <= n < Pow2(top)
    ensures e < top && Pow2(e) <= n < 2 * Pow2(e)
    decreases top
  {
    if n < Pow2(top - 1) {
      e := Exponent(n, top - 1);
    } else {
      e := top - 1;
    }
  }

  function Inverse(p: int): real
    requires p > 0
  {
    1.0 / (p as real)
  }

  lemma PowersSplit(e: nat)
    requires e <= 52
    ensures Pow2(e) * Pow2(52 - e) * 2 == MAX_MANTISSA
  {
    Pow2Adds(e, 52 - e);
    Pow53();
  }

  lemma ScaledMantissa(n: nat, b: int, p: int)
    requires b <= n < 2 * b && p >= 1 && b * p * 2 == MAX_MANTISSA
    ensures 0 <= n * p + 1 <= MAX_MANTISSA
  {
    assert n * p <= (2 * b - 1) * p == 2 * b * p - p;
  }

  lemma ProductOf(n: real, u: real, x: real)
    requires u * x == 1.0
    ensures (n + u) * x == n * x + 1.0
  {
  }

  lemma InverseTimes(p: int)
    requires p > 0
    ensures Inverse(p) * (p as real) == 1.0
  {
  }

  lemma MulAsReal(n: int, p: int)
    ensures (n * p + 1) as real == n as real * (p as real) + 1.0
  {
  }

  lemma FractionIsDouble(m: nat, j: nat, d: real)
    requires m <= MAX_MANTISSA && j <= -MIN_EXPONENT && d * (Pow2(j) as real) == m as real
    ensures IsDouble(d)
  {
    var k: int := -(j as int);
    assert Represents(m, k, d);
  }

  lemma StepIsFraction(n: nat, p: int, u: real) returns (m: nat)
    requires p > 0 && u == Inverse(p)
    ensures m == n * p + 1 && (n as real + u) * (p as real) == m as real
  {
    InverseTimes(p);
    ProductOf(n as real, u, p as real);
    MulAsReal(n, p);
    m := n * p + 1;
  }

  /** The double just above an integer `n` is one spacing away. */
  lemma NextDouble(n: nat, j: nat) returns (next: real)
    requires n * Pow2(j) + 1 <= MAX_MANTISSA && j <= -MIN_EXPONENT
    ensures IsDouble(next) && next == n as real + Inverse(Pow2(j))
  {
    next := n as real + Inverse(Pow2(j));
    var m := StepIsFraction(n, Pow2(j), Inverse(Pow2(j)));
    FractionIsDouble(m, j, next);
  }

  lemma MantissaFits(n: nat, e: nat)
    requires e <= 52 && Pow2(e) <= n < 2 * Pow2(e)
    ensures n * Pow2(52 - e) + 1 <= MAX_MANTISSA
  {
    PowersSplit(e);
    ScaledMantissa(n, Pow2(e), Pow2(52 - e));
  }

  /** A quotient strictly above the integer `n` is more than half a spacing above it. */
  lemma QuotientClearsHalfSpacing(a: nat, b: nat, n: nat, e: nat)
    requires 0 < b && a <= MAX_MANTISSA && e <= 52 && Pow2(e) <= n && n * b < a
    ensures Quotient(a, b) - n as real > Inverse(Pow2(52 - e)) / 2.0
  {
    var p := Pow2(52 - e);
    assert b < 2 * p by {
      PowersSplit(e);
      MulMonotone(Pow2(e), n, b);
      BelowTwice(b, Pow2(e), p);
    }
    ReciprocalOrder(b, 2 * p);
    HalfReciprocal(p);
    QuotientAtLeast(a, b, n);
  }

  lemma MulMonotone(x: int, y: int, b: int)
    requires x <= y && b >= 0
    ensures x * b <= y * b
  {
  }

  lemma BelowTwice(b: int, x: int, p: int)
    requires x * b < MAX_MANTISSA && x * p * 2 == MAX_MANTISSA && x >= 1
    ensures b < 2 * p
  {
    if b >= 2 * p {
      MulMonotone(2 * p, b, x);
      assert false;
    }
  }

  lemma ReciprocalOrder(x: int, y: int)
    requires 0 < x < y
    ensures Inverse(x) > Inverse(y)
  {
    var gap := (y - x) as real;
    assert Inverse(x) - Inverse(y) == gap / (x as real * y as real);
    assert x as real * y as real > 0.0;
  }

  lemma HalfReciprocal(p: int)
    requires p >= 1
    ensures Inverse(2 * p) == Inverse(p) / 2.0
  {
  }

  lemma QuotientAtLeast(a: nat, b: nat, n: nat)
    requires 0 < b && n * b < a
    ensures Quotient(a, b) >= n as real + Inverse(b)
  {
    assert a as real >= ((n * b) as real) + 1.0;
    assert (n * b) as real == (n as real) * (b as real);
    DivideBoth(a as real, (n as real) * (b as real) + 1.0, b as real);
  }

  lemma DivideBoth(x: real, y: real, b: real)
    requires b > 0.0 && x >= y
    ensures x / b >= y / b
  {
  }

  /** Rounding to nearest cannot cross a double. */
  lemma NearestStaysBelow(q: real, d: real, bound: real)
    requires IsNearest(q, d) && IsDouble(bound) && q <= bound
    ensures d <= bound
  {
  }

  /** Rounding to nearest leaves `n` when the next double is closer. */
  lemma NearestLeaves(q: real, d: real, n: real, next: real)
    requires IsNearest(q, d) && IsDouble(next) && n < next && q - n > (next - n) / 2.0
    ensures d > n
  {
  }

  lemma CeilBetween(d: real, n: int)
    requires n as real < d <= (n + 1) as real
    ensures Ceil(d) == n + 1
  {
  }

  /** At most `2^1074`, the reciprocal of the smallest positive double. */
  ghost predicate PartSizeInRange(b: nat) { b > 0 && exists k: nat :: k <= -MIN_EXPONENT && b <= Pow2(k) }

  lemma SmallDouble(b: nat) returns (tiny: real)
    requires PartSizeInRange(b)
    ensures IsDouble(tiny) && 0.0 < tiny <= Inverse(b)
  {
    var k: nat :| k <= -MIN_EXPONENT && b <= Pow2(k);
    tiny := Inverse(Pow2(k));
    assert tiny * (Pow2(k) as real) == 1.0;
    FractionIsDouble(1, k, tiny);
    if b < Pow2(k) {
      ReciprocalOrder(b, Pow2(k));
    }
  }

  lemma DoubleAbove(n: nat, e: nat) returns (next: real)
    requires e <= 52 && Pow2(e) <= n < 2 * Pow2(e)
    ensures IsDouble(next) && next == n as real + Inverse(Pow2(52 - e))
  {
    MantissaFits(n, e);
    next := NextDouble(n, 52 - e);
  }

  /** A double above the integer `n` that is closer to the quotient than `n` is. */
  lemma CloserDouble(a: nat, b: nat, n: nat) returns (next: real)
    requires a <= MAX_MANTISSA && PartSizeInRange(b) && n * b < a && n < MAX_MANTISSA
    ensures IsDouble(next) && next > n as real && Quotient(a, b) - n as real > (next - n as real) / 2.0
  {
    if n == 0 {
      next := SmallDouble(b);
      QuotientAtLeast(a, b, 0);
    } else {
      Pow53();
      var e := Exponent(n, 53);
      next := DoubleAbove(n, e);
      QuotientClearsHalfSpacing(a, b, n, e);
    }
  }

  /** A quotient above the integer `n` does not round down to `n`. */
  lemma RoundsAbove(a: nat, b: nat, n: nat, d: real)
    requires a <= MAX_MANTISSA && PartSizeInRange(b) && n * b < a && n < MAX_MANTISSA
    requires IsNearest(Quotient(a, b), d)
    ensures d > n as real
  {
    var next := CloserDouble(a, b, n);
    NearestLeaves(Quotient(a, b), d, n as real, next);
  }

  /** For every size up to `2^53` and every part size, the double-precision ceiling is the integer
      ceiling. (Only a part size beyond `2^1074` could make the quotient underflow to zero.) */
  lemma FloatCeilIsCeilDiv(a: nat, b: nat, d: real)
    requires a <= MAX_MANTISSA && PartSizeInRange(b) && RoundsTo(Quotient(a, b), d)
    ensures Ceil(d) == CeilDiv(a, b)
  {
    var n := a / b;
    DivisionFacts(a, b);
    if a % b == 0 {
      ExactQuotient(a, b, n);
      IntegersAreDoubles(n);
    } else {
      assert n * b < a < (n + 1) * b;
      InexactCeil(a, b, n, d);
    }
  }

  lemma DivisionFacts(a: nat, b: nat)
    requires b > 0
    ensures a == a / b * b + a % b < (a / b + 1) * b
  {
  }

  lemma InexactCeil(a: nat, b: nat, n: nat, d: real)
    requires a <= MAX_MANTISSA && PartSizeInRange(b) && RoundsTo(Quotient(a, b), d)
    requires n * b < a < (n + 1) * b
    ensures Ceil(d) == CeilDiv(a, b)
  {
    QuotientBounds(a, b, n);
    IntegersAreDoubles(n + 1);
    NearestStaysBelow(Quotient(a, b), d, (n + 1) as real);
    RoundsAbove(a, b, n, d);
    CeilBetween(d, n);
    CeilDivIs(a, b, n);
  }

  lemma ExactQuotient(a: nat, b: nat, n: nat)
    requires b > 0 && a == n * b
    ensures Quotient(a, b) == n as real && CeilDiv(a, b) == n && n <= a
  {
    assert (n * b) as real == (n as real) * (b as real);
    CeilDivIs(a, b, n - 1);
  }

  lemma QuotientBounds(a: nat, b: nat, n: nat)
    requires b > 0 && n * b < a < (n + 1) * b
    ensures Quotient(a, b) <= (n + 1) as real && n + 1 <= a
  {
    assert ((n + 1) * b) as real == ((n + 1) as real) * (b as real);
    DivideBoth(((n + 1) as real) * (b as real), a as real, b as real);
  }

  lemma CeilDivIs(a: nat, b: nat, n: int)
    requires b > 0 && n * b < a <= (n + 1) * b
    ensures CeilDiv(a, b) == n + 1
  {
    DivisionIsUnique(a + b - 1, b, n + 1);
  }

  lemma DivisionIsUnique(x: int, b: int, k: int)
    requires b > 0 && k * b <= x < (k + 1) * b
    ensures x / b == k
  {
    var d := x / b;
    if d < k {
      MulMonotone(d + 1, k, b);
    } else if d > k {
      MulMonotone(k + 1, d, b);
    }
  }

  // ---------------------------------------------------------------- the bound is sharp

  lemma EvenMultiple(m: int, k: int)
    requires k >= 1
    ensures (m * Pow2(k)) % 2 == 0
  {
    assert m * Pow2(k) == 2 * (m * Pow2(k - 1));
  }

  /** No double lies strictly between `2^53` and `2^53 + 2`. */
  lemma GapAfterMaxMantissa(e: real)
    requires IsDouble(e)
    ensures e <= MAX_MANTISSA as real || e >= (MAX_MANTISSA + 2) as real
  {
    var m: int, k: int :| Represents(m, k, e);
    if k >= 1 {
      EvenMultiple(m, k);
    } else if k < 0 {
      ScaleDown(m, e, Pow2(-k));
    }
  }

  lemma ScaleDown(m: int, e: real, p: int)
    requires p >= 1 && e * (p as real) == m as real && m <= MAX_MANTISSA
    ensures e <= MAX_MANTISSA as real
  {
    if e > 0.0 {
      assert e * (p as real) >= e;
    }
  }

  /** At `2^53 + 1` bytes in one-byte parts the tie goes to the even neighbour below, and the
      last part is missing. */
  lemma OneByteBeyondIsShort()
    ensures RoundsTo(Quotient(MAX_MANTISSA + 1, 1), MAX_MANTISSA as real)
    ensures Ceil(MAX_MANTISSA as real) == MAX_MANTISSA && CeilDiv(MAX_MANTISSA + 1, 1) == MAX_MANTISSA + 1
  {
    var q, d := Quotient(MAX_MANTISSA + 1, 1), MAX_MANTISSA as real;
    assert q == d + 1.0;
    IntegersAreDoubles(MAX_MANTISSA);
    forall e: real | IsDouble(e) ensures Abs(d - q) <= Abs(e - q) {
      GapAfterMaxMantissa(e);
    }
    assert Pow2(1) == 2;
    assert Represents(MAX_MANTISSA / 2, 1, d);
    assert HasEvenMantissa(d);
  }

  ghost predicate CeilingsExactUpTo(top: nat) {
    forall a: nat, b: nat, d: real | a <= top && PartSizeInRange(b) && RoundsTo(Quotient(a, b), d) ::
      Ceil(d) == CeilDiv(a, b)
  }

  /** `2^53` is the largest size below which the float ceiling can be trusted for all part sizes. */
  lemma CeilingsExactIff(top: nat)
    ensures CeilingsExactUpTo(top) <==> top <= MAX_MANTISSA
  {
    if top <= MAX_MANTISSA {
      forall a: nat, b: nat, d: real | a <= top && PartSizeInRange(b) && RoundsTo(Quotient(a, b), d)
        ensures Ceil(d) == CeilDiv(a, b)
      {
        FloatCeilIsCeilDiv(a, b, d);
      }
    } else {
      OneByteBeyondIsShort();
      assert 1 <= Pow2(0) && PartSizeInRange(1);
    }
  }
}
