/**
 * Rounding to the 53 significant bits of binary64, ties to even (section 4.3.1 of IEEE 754), for the
 * integers the overage test meets. A quarter of such an integer rounds alike, so scaling by four loses nothing.
 */
module Binary64 {
  import opened Division

  const P52: int := 0x10_0000_0000_0000
  const P53: int := 0x20_0000_0000_0000

  /** The spacing of the representable numbers around `n`. */
  function Ulp(n: nat): (u: nat)
    ensures u >= 1
  {
    if n < P53 then 1 else 2 * Ulp(n / 2)
  }

  function RoundNat(n: nat): nat {
    var u := Ulp(n);
    var (k, r) := (n / u, n % u);
    if 2 * r < u || (2 * r == u && k % 2 == 0) then k * u else (k + 1) * u
  }

  function Round(n: int): int {
    if n >= 0 then RoundNat(n) else 0 - RoundNat(-n)
  }

  lemma {:induction false} UlpBounds(n: nat)
    ensures n < P53 * Ulp(n)
    ensures Ulp(n) > 1 ==> P52 * Ulp(n) <= n
  {
    if n >= P53 {
      UlpBounds(n / 2);
      if Ulp(n / 2) == 1 {
        assert n / 2 >= P52;
      }
    }
  }

  /** Spacings are powers of two: a larger one is at least double. */
  lemma {:induction false} UlpGrowsByDoubling(m: nat, n: nat)
    requires m <= n
    ensures Ulp(m) == Ulp(n) || 2 * Ulp(m) <= Ulp(n)
  {
    if m >= P53 {
      UlpGrowsByDoubling(m / 2, n / 2);
    }
  }

  /** A rounded number stands between its neighbouring multiples of the spacing. */
  lemma Between(n: nat)
    ensures n / Ulp(n) * Ulp(n) <= n < (n / Ulp(n) + 1) * Ulp(n)
    ensures n / Ulp(n) * Ulp(n) <= RoundNat(n) <= (n / Ulp(n) + 1) * Ulp(n)
  {
    hide Ulp;
    var u := Ulp(n);
    DivMod(n, u);
    assert (n / u + 1) * u == n / u * u + u;
  }

  lemma QuotientMonotone(m: nat, n: nat, u: nat)
    requires m <= n && u >= 1
    ensures m / u <= n / u
  {
    DivMod(m, u);
    DivMod(n, u);
    assert (n / u + 1) * u == n / u * u + u;
    if m / u > n / u {
      Product(n / u + 1, m / u, u);
    }
  }

  lemma RoundMonotoneNat(m: nat, n: nat)
    requires m <= n
    ensures RoundNat(m) <= RoundNat(n)
  {
    hide Ulp;
    UlpGrowsByDoubling(m, n);
    Between(m);
    Between(n);
    var u, w := Ulp(m), Ulp(n);
    if u == w {
      QuotientMonotone(m, n, u);
      DivMod(m, u);
      DivMod(n, u);
      if m / u < n / u {
        Product(m / u + 1, n / u, u);
      }
    } else {
      UlpBounds(m);
      UlpBounds(n);
      TopOf(m);
      BottomOf(n);
    }
  }

  lemma TopOf(n: nat)
    ensures RoundNat(n) <= P53 * Ulp(n)
  {
    hide Ulp, RoundNat;
    Between(n);
    UlpBounds(n);
    var u := Ulp(n);
    if n / u >= P53 {
      Product(P53, n / u, u);
    }
    Product(n / u + 1, P53, u);
  }

  lemma BottomOf(n: nat)
    ensures Ulp(n) > 1 ==> P52 * Ulp(n) <= RoundNat(n)
  {
    hide Ulp, RoundNat;
    Between(n);
    UlpBounds(n);
    var u := Ulp(n);
    if u > 1 {
      if n / u < P52 {
        Product(n / u + 1, P52, u);
      }
      Product(P52, n / u, u);
    }
  }

  /** Rounding keeps order. */
  lemma RoundMonotone(m: int, n: int)
    requires m <= n
    ensures Round(m) <= Round(n)
  {
    if m >= 0 {
      RoundMonotoneNat(m, n);
    } else if n < 0 {
      RoundMonotoneNat(-n, -m);
    }
  }

  lemma RoundExact(n: int)
    requires -P53 <= n <= P53
    ensures Round(n) == n
  {
    assert Ulp(P53) == 2 * Ulp(P52);
  }

  /** Rounding commutes with doubling. */
  lemma RoundDoubles(n: int)
    ensures Round(2 * n) == 2 * Round(n)
  {
    var m: nat := if n >= 0 then n else -n;
    assert RoundNat(2 * m) == 2 * RoundNat(m) by { RoundNatDoubles(m); }
  }

  lemma RoundNatDoubles(n: nat)
    ensures RoundNat(2 * n) == 2 * RoundNat(n)
  {
    hide RoundNat, Ulp;
    if n >= P53 {
      var u := Ulp(n);
      DivMod(n, u);
      var k, r := n / u, n % u;
      UlpDoubles(n);
      RoundFrom(n, k, r);
      assert 2 * n == k * (2 * u) + 2 * r;
      RoundFrom(2 * n, k, 2 * r);
      assert k * (2 * u) == 2 * (k * u) && (k + 1) * (2 * u) == 2 * ((k + 1) * u);
    } else {
      SmallDoubles(n);
    }
  }

  lemma UlpDoubles(n: nat)
    requires n >= P53
    ensures Ulp(2 * n) == 2 * Ulp(n)
  {
  }

  lemma SmallDoubles(n: nat)
    requires n < P53
    ensures RoundNat(2 * n) == 2 * RoundNat(n)
  {
    if n >= P52 {
      assert Ulp(2 * n) == 2 * Ulp(n) == 2;
    }
  }

  /** Rounding, given the quotient and remainder by the spacing. */
  lemma RoundFrom(n: nat, k: nat, r: nat)
    requires n == k * Ulp(n) + r && r < Ulp(n)
    ensures RoundNat(n) == if 2 * r < Ulp(n) || (2 * r == Ulp(n) && k % 2 == 0) then k * Ulp(n) else (k + 1) * Ulp(n)
  {
    hide Ulp;
    QuotientUnique(n, Ulp(n), k, r);
  }

  lemma RoundNatNear(n: nat)
    ensures (n - RoundNat(n)) * P52 <= n && (RoundNat(n) - n) * P52 <= n
  {
    hide Ulp;
    Between(n);
    UlpBounds(n);
    var u := Ulp(n);
    assert (n / u + 1) * u == n / u * u + u;
    if u == 1 {
      DivMod(n, 1);
    }
  }

  function Abs(n: int): nat {
    if n >= 0 then n else -n
  }

  /** Rounding moves a number by at most one part in 2^52. */
  lemma RoundNear(n: int)
    ensures Abs(n - Round(n)) * P52 <= Abs(n)
  {
    hide RoundNat;
    RoundNatNear(Abs(n));
  }

  /** The multiples of a spacing that fit 53 bits are representable. */
  lemma {:induction false} MultipleIsExact(n: nat, k: nat)
    requires k <= P53
    ensures RoundNat(k * Ulp(n)) == k * Ulp(n)
  {
    if n < P53 {
      assert RoundNat(k) == k by { RoundExact(k); }
    } else {
      hide RoundNat;
      MultipleIsExact(n / 2, k);
      assert k * Ulp(n) == 2 * (k * Ulp(n / 2));
      RoundNatDoubles(k * Ulp(n / 2));
    }
  }

  /** What has been rounded is representable. */
  lemma RoundIdempotent(n: int)
    ensures Round(Round(n)) == Round(n)
  {
    RoundNatIdempotent(Abs(n));
  }

  lemma RoundNatIdempotent(n: nat)
    ensures RoundNat(RoundNat(n)) == RoundNat(n)
  {
    hide RoundNat, Ulp;
    var k := RoundsToMultiple(n);
    MultipleIsExact(n, k);
  }

  /** How many spacings a number rounds to. */
  lemma RoundsToMultiple(n: nat) returns (k: nat)
    ensures k <= P53 && RoundNat(n) == k * Ulp(n)
  {
    hide Ulp;
    QuotientFits(n);
    k := n / Ulp(n);
    if RoundNat(n) != k * Ulp(n) {
      k := k + 1;
    }
  }

  lemma QuotientFits(n: nat)
    ensures n / Ulp(n) < P53
  {
    hide Ulp;
    UlpBounds(n);
    DivMod(n, Ulp(n));
    if n / Ulp(n) >= P53 {
      Product(P53, n / Ulp(n), Ulp(n));
    }
  }

  // --- Nearest, and even in a tie ---------------------------------------------------

  function Scaled(k: int, j: nat): int {
    k * PowerOfTwo(j)
  }

  /** At most 53 significant bits. */
  ghost predicate Representable(n: int) {
    exists k: int, j: nat :: -P53 <= k <= P53 && n == Scaled(k, j)
  }

  lemma {:induction false} UlpIsPower(n: nat) returns (e: nat)
    ensures Ulp(n) == PowerOfTwo(e)
  {
    if n < P53 {
      e := 0;
    } else {
      e := UlpIsPower(n / 2);
      e := e + 1;
    }
  }

  /** A number with coarser bits than the spacing is a multiple of it. */
  lemma CoarserApart(k: nat, a: nat, q: nat, u: nat)
    ensures k * (a * u) <= q * u || k * (a * u) >= (q + 1) * u
  {
    assert k * (a * u) == (k * a) * u;
    if k * a <= q {
      Product(k * a, q, u);
    } else {
      Product(q + 1, k * a, u);
    }
  }

  /** One with finer bits is too small to lie above any multiple of the spacing that has 53 bits. */
  lemma FinerBelow(k: nat, p: nat, q: nat, u: nat)
    requires k <= P53 && 2 * p <= u && P52 <= q
    ensures k * p <= q * u
  {
    Product(k, P53, p);
    Product(2 * p, u, P52);
    Product(P52, q, u);
  }

  lemma QuotientHas53Bits(n: nat)
    requires Ulp(n) > 1
    ensures n / Ulp(n) >= P52
  {
    hide Ulp;
    UlpBounds(n);
    DivMod(n, Ulp(n));
    assert (n / Ulp(n) + 1) * Ulp(n) == n / Ulp(n) * Ulp(n) + Ulp(n);
    if n / Ulp(n) < P52 {
      Product(n / Ulp(n) + 1, P52, Ulp(n));
    }
  }

  lemma AtLeastTwo(n: nat)
    requires n > 0
    ensures PowerOfTwo(n) >= 2
  {
  }

  /** The spacing is some number of times a finer power of two, at least twice, or a coarser power some number of times the spacing. */
  lemma PowersCompare(n: nat, j: nat) returns (finer: bool, a: nat)
    ensures finer ==> Ulp(n) > 1 && 2 * PowerOfTwo(j) <= Ulp(n)
    ensures !finer ==> PowerOfTwo(j) == a * Ulp(n)
  {
    var e := UlpIsPower(n);
    finer := j < e;
    if finer {
      AtLeastTwo(e);
      AtLeastTwo(e - j);
      PowersMultiply(e - j, j);
      a := PowerOfTwo(e - j);
      hide Ulp, PowerOfTwo;
      Product(2, a, PowerOfTwo(j));
    } else {
      a := PowerOfTwo(j - e);
      PowersMultiply(j - e, e);
    }
  }

  /** No representable number lies strictly between two neighbouring multiples of the spacing. */
  lemma NothingBetween(n: nat, k: nat, j: nat)
    requires k <= P53
    ensures Scaled(k, j) <= n / Ulp(n) * Ulp(n) || Scaled(k, j) >= (n / Ulp(n) + 1) * Ulp(n)
  {
    hide Ulp, PowerOfTwo;
    var finer, a := PowersCompare(n, j);
    if finer {
      QuotientHas53Bits(n);
      FinerBelow(k, PowerOfTwo(j), n / Ulp(n), Ulp(n));
    } else {
      CoarserApart(k, a, n / Ulp(n), Ulp(n));
    }
  }

  lemma RoundNatIsNearest(n: nat, k: nat, j: nat)
    requires k <= P53
    ensures Abs(n - RoundNat(n)) <= Abs(n - Scaled(k, j))
  {
    NothingBetween(n, k, j);
    RoundsToNearer(n);
    hide Ulp, RoundNat, Scaled;
  }

  /** A number rounds to one of the two multiples of the spacing around it, and not to the farther one. */
  lemma RoundsToNearer(n: nat)
    ensures var (low, high) := (n / Ulp(n) * Ulp(n), (n / Ulp(n) + 1) * Ulp(n));
            && low <= n < high
            && (RoundNat(n) == low || RoundNat(n) == high)
            && Abs(n - RoundNat(n)) <= n - low && Abs(n - RoundNat(n)) <= high - n
  {
    hide Ulp;
    DivMod(n, Ulp(n));
    assert (n / Ulp(n) + 1) * Ulp(n) == n / Ulp(n) * Ulp(n) + Ulp(n);
  }

  lemma ScaledNegates(k: int, j: nat)
    ensures Scaled(-k, j) == -Scaled(k, j)
    ensures k <= 0 ==> Scaled(k, j) <= 0
    ensures Scaled(0, j) == 0
  {
    if k <= 0 {
      Product(k, 0, PowerOfTwo(j));
    }
  }

  /** Rounding gives a representable number, and none is nearer. */
  lemma RoundIsNearest(n: int, m: int)
    requires Representable(m)
    ensures Representable(Round(n)) && Abs(n - Round(n)) <= Abs(n - m)
  {
    RoundIsRepresentable(n);
    var k, j :| -P53 <= k <= P53 && m == Scaled(k, j);
    ScaledNegates(k, j);
    var sign := if n >= 0 then k else -k;
    ScaledNegates(sign, j);
    RoundNatIsNearest(Abs(n), if sign >= 0 then sign else 0, j);
    hide RoundNat, Scaled;
  }

  lemma RoundIsRepresentable(n: int)
    ensures Representable(Round(n))
  {
    var k := RoundsToMultiple(Abs(n));
    var e := UlpIsPower(Abs(n));
    ScaledNegates(k, e);
    assert RoundNat(Abs(n)) == Scaled(k, e);
    hide RoundNat, Ulp, Scaled;
    var exact: int := k;
    var signed: int := if n >= 0 then exact else -exact;
    assert Round(n) == Scaled(signed, e);
  }

  /** Midway between two neighbours, the one whose multiple is even is taken. */
  lemma TiesToEven(n: nat)
    requires 2 * (n % Ulp(n)) == Ulp(n)
    ensures exists k: nat :: k % 2 == 0 && RoundNat(n) == k * Ulp(n)
  {
    hide Ulp;
    var k := n / Ulp(n);
    assert k % 2 == 0 || (k + 1) % 2 == 0;
    assert RoundNat(n) == (if k % 2 == 0 then k else k + 1) * Ulp(n);
  }
}

/** The overage test of a policy (`src/models/policy.rs`). */
module Overage {
  import opened Words
  import opened Binary64

  datatype OverageStrategy = NoOverage | Allow1_25x | Allow1_5x | Allow2x | AlwaysAllow

  /** `allows`: integers are rounded to binary64, multiplied by the factor, rounded again, and compared exactly. */
  predicate Allows(strategy: OverageStrategy, count: I64, max: I64) {
    match strategy
    case NoOverage => count <= max
    case Allow1_25x => 4 * Round(count) <= Round(5 * Round(max))
    case Allow1_5x => 2 * Round(count) <= Round(3 * Round(max))
    case Allow2x => Round(count) <= Round(2 * Round(max))
    case AlwaysAllow => true
  }

  /** The test the strategy's name promises, in exact integers. */
  predicate Exactly(strategy: OverageStrategy, count: I64, max: I64) {
    match strategy
    case NoOverage => count <= max
    case Allow1_25x => 4 * count <= 5 * max
    case Allow1_5x => 2 * count <= 3 * max
    case Allow2x => count <= 2 * max
    case AlwaysAllow => true
  }

  /** The limits whose product with the numerator of the factor (5/4, 3/2, 2/1) is within 2^53, the double of 2^52 excepted. */
  predicate LimitIsExact(strategy: OverageStrategy, max: I64) {
    match strategy
    case NoOverage | AlwaysAllow => true
    case Allow1_25x => -P53 <= 5 * max <= P53
    case Allow1_5x => -P53 <= 3 * max <= P53
    case Allow2x => -P52 <= max < P52
  }

  /** Under those limits, which include every one up to 2^50, the floating-point test is the exact one for every count. */
  lemma AllowsIsExact(strategy: OverageStrategy, count: I64, max: I64)
    requires LimitIsExact(strategy, max)
    ensures Allows(strategy, count, max) <==> Exactly(strategy, count, max)
  {
    hide Round;
    LargeStaysLarge(count);
    match strategy
    case Allow1_25x => RoundExact(max); RoundExact(5 * max);
    case Allow1_5x => RoundExact(max); RoundExact(3 * max);
    case Allow2x => RoundExact(max); RoundExact(2 * max);
    case _ =>
  }

  lemma LargeStaysLarge(n: int)
    ensures -P53 <= n <= P53 ==> Round(n) == n
    ensures n > P53 ==> Round(n) >= P53
    ensures n < -P53 ==> Round(n) <= -P53
  {
    hide Round;
    RoundExact(P53);
    RoundExact(-P53);
    if n > P53 {
      RoundMonotone(P53, n);
    } else if n < -P53 {
      RoundMonotone(n, -P53);
    } else {
      RoundExact(n);
    }
  }

  lemma UpTo2To50(strategy: OverageStrategy, max: I64)
    requires -0x4_0000_0000_0000 <= max <= 0x4_0000_0000_0000
    ensures LimitIsExact(strategy, max)
  {
  }

  /** The last count the strategy's name promises to allow. */
  function LastDue(strategy: OverageStrategy, max: I64): int {
    match strategy
    case NoOverage => max
    case Allow1_25x => 5 * max / 4
    case Allow1_5x => 3 * max / 2
    case Allow2x => 2 * max
    case AlwaysAllow => I64_MAX
  }

  lemma LastDueIsLast(strategy: OverageStrategy, count: I64, max: I64)
    ensures Exactly(strategy, count, max) <==> count <= LastDue(strategy, max)
  {
  }

  /** The last due count, when there is one, is allowed, and the one after it, when there is one, is not. */
  predicate EdgesAreRight(strategy: OverageStrategy, max: I64) {
    var last := LastDue(strategy, max);
    && (I64_MIN <= last ==> Allows(strategy, if last < I64_MAX then last else I64_MAX, max))
    && (last < I64_MAX ==> !Allows(strategy, if I64_MIN <= last then last + 1 else I64_MIN, max))
  }

  /** For every limit at all: the test is the exact one for every count iff it is right at the two counts on either side of the limit. */
  lemma ExactUnderLimitExactly(strategy: OverageStrategy, max: I64)
    ensures (forall count: I64 :: Allows(strategy, count, max) <==> Exactly(strategy, count, max)) <==> EdgesAreRight(strategy, max)
  {
    hide Allows, Exactly, LastDue;
    var last := LastDue(strategy, max);
    var below: I64 := if last >= I64_MAX then I64_MAX else if I64_MIN <= last then last else I64_MIN;
    var above: I64 := if last < I64_MIN then I64_MIN else if last < I64_MAX then last + 1 else I64_MAX;
    LastDueIsLast(strategy, below, max);
    LastDueIsLast(strategy, above, max);
    if EdgesAreRight(strategy, max) {
      forall count: I64
        ensures Allows(strategy, count, max) <==> Exactly(strategy, count, max)
      {
        LastDueIsLast(strategy, count, max);
        if count <= last && Allows(strategy, below, max) {
          AllowsIsMonotone(strategy, below, count, max, max);
        }
        if count > last && Allows(strategy, count, max) {
          AllowsIsMonotone(strategy, count, above, max, max);
        }
      }
    }
  }

  /** The doubled limit errs on one side only, and exactly on the counts above it that round onto it. */
  lemma DoubleErrsExactly(count: I64, max: I64)
    ensures Exactly(Allow2x, count, max) ==> Allows(Allow2x, count, max)
    ensures (Allows(Allow2x, count, max) <==> Exactly(Allow2x, count, max)) <==> !(2 * max < count && Round(count) == Round(2 * max))
  {
    hide Round;
    RoundIdempotent(max);
    RoundDoubles(max);
    RoundDoubles(Round(max));
    if count <= 2 * max {
      RoundMonotone(count, 2 * max);
    } else {
      RoundMonotone(2 * max, count);
    }
  }

  /** Just outside those limits - the next one for 1.25x and 2x, the third for 1.5x - one count too many is allowed. */
  lemma LimitsAreSharp()
    ensures LimitIsExact(Allow1_25x, 1_801_439_850_948_198)
    ensures Allows(Allow1_25x, 2_251_799_813_685_249, 1_801_439_850_948_199)
            && !Exactly(Allow1_25x, 2_251_799_813_685_249, 1_801_439_850_948_199)
    ensures LimitIsExact(Allow1_5x, 3_002_399_751_580_330)
    ensures Allows(Allow1_5x, 4_503_599_627_370_500, 3_002_399_751_580_333)
            && !Exactly(Allow1_5x, 4_503_599_627_370_500, 3_002_399_751_580_333)
    ensures LimitIsExact(Allow2x, P52 - 1)
    ensures Allows(Allow2x, P53 + 1, P52) && !Exactly(Allow2x, P53 + 1, P52)
  {
    hide Round;
    RoundExact(1_801_439_850_948_199);
    RoundExact(2_251_799_813_685_249);
    RoundExact(3_002_399_751_580_333);
    RoundExact(4_503_599_627_370_500);
    RoundExact(P52);
    RoundExact(P53);
    RoundWithSpacingTwo(5 * 1_801_439_850_948_199);
    RoundWithSpacingTwo(3 * 3_002_399_751_580_333);
    RoundWithSpacingTwo(P53 + 1);
  }

  /** And further out one count too few may be allowed. */
  lemma DueCountRefused()
    ensures Exactly(Allow1_5x, 3 * P53 + 3, 2 * P53 + 2) && !Allows(Allow1_5x, 3 * P53 + 3, 2 * P53 + 2)
  {
    hide Round;
    RoundDoubles(P53 + 1);
    RoundWithSpacingTwo(P53 + 1);
    RoundExact(P53 - P52 / 2);
    RoundDoubles(P53 - P52 / 2);
    RoundDoubles(3 * P52);
    RoundDoubles(3 * P53);
    RoundWithSpacingFour(3 * P53 + 3);
  }

  lemma RoundWithSpacingFour(n: nat)
    requires 2 * P53 <= n < 4 * P53 && n % 4 == 3
    ensures Round(n) == n + 1
  {
    assert Ulp(n) == 2 * Ulp(n / 2) == 4 * Ulp(n / 2 / 2) == 4;
  }

  /** From 2^53 to 2^54 odd numbers round to the multiple of four beside them. */
  lemma RoundWithSpacingTwo(n: nat)
    requires P53 <= n < 2 * P53
    ensures Round(n) == if n % 4 == 1 then n - 1 else if n % 4 == 3 then n + 1 else n
  {
    assert Ulp(n) == 2 * Ulp(n / 2) == 2;
  }

  /** Over all `i64`s, allowed counts are downward closed and limits upward. */
  lemma AllowsIsMonotone(strategy: OverageStrategy, count: I64, less: I64, max: I64, more: I64)
    requires less <= count && max <= more && Allows(strategy, count, max)
    ensures Allows(strategy, less, more)
  {
    hide Round;
    RoundMonotone(less, count);
    RoundMonotone(max, more);
    RoundMonotone(5 * Round(max), 5 * Round(more));
    RoundMonotone(3 * Round(max), 3 * Round(more));
    RoundMonotone(2 * Round(max), 2 * Round(more));
  }

  function Rank(strategy: OverageStrategy): nat {
    match strategy
    case NoOverage => 0
    case Allow1_25x => 1
    case Allow1_5x => 2
    case Allow2x => 3
    case AlwaysAllow => 4
  }

  lemma QuarterMoreIsMore(f: nat)
    ensures 4 * f <= Round(5 * f) && (f > 0 ==> 4 * f < Round(5 * f))
  {
    hide RoundNat;
    RoundNear(5 * f);
  }

  lemma RoundKeepsSign(n: int)
    ensures n >= 0 ==> Round(n) >= 0
    ensures n > 0 ==> Round(n) > 0
    ensures Round(-n) == -Round(n)
  {
    hide RoundNat;
    if n > 0 {
      RoundMonotone(1, n);
      RoundExact(1);
    }
    RoundExact(0);
  }

  lemma StrictIsAllowedAQuarterMore(count: I64, max: I64)
    requires max >= 0 && Allows(NoOverage, count, max)
    ensures Allows(Allow1_25x, count, max)
  {
    hide Round;
    RoundMonotone(count, max);
    RoundKeepsSign(max);
    QuarterMoreIsMore(Round(max));
  }

  lemma QuarterIsWithinHalf(count: I64, max: I64)
    requires max >= 0 && Allows(Allow1_25x, count, max)
    ensures Allows(Allow1_5x, count, max)
  {
    hide Round;
    RoundKeepsSign(max);
    RoundMonotone(5 * Round(max), 6 * Round(max));
    RoundDoubles(3 * Round(max));
  }

  lemma HalfIsWithinDouble(count: I64, max: I64)
    requires max >= 0 && Allows(Allow1_5x, count, max)
    ensures Allows(Allow2x, count, max)
  {
    hide Round;
    RoundKeepsSign(max);
    RoundMonotone(3 * Round(max), 4 * Round(max));
    RoundDoubles(2 * Round(max));
  }

  /** For every limit that is not negative, a laxer strategy allows whatever a stricter one does. */
  lemma StrategiesFormAChain(strict: OverageStrategy, lax: OverageStrategy, count: I64, max: I64)
    requires max >= 0 && Rank(strict) <= Rank(lax) && Allows(strict, count, max)
    ensures Allows(lax, count, max)
    decreases Rank(lax) - Rank(strict)
  {
    hide Round;
    if Rank(strict) < Rank(lax) {
      match strict
      case NoOverage =>
        StrictIsAllowedAQuarterMore(count, max);
        StrategiesFormAChain(Allow1_25x, lax, count, max);
      case Allow1_25x =>
        QuarterIsWithinHalf(count, max);
        StrategiesFormAChain(Allow1_5x, lax, count, max);
      case Allow1_5x =>
        HalfIsWithinDouble(count, max);
        StrategiesFormAChain(Allow2x, lax, count, max);
      case Allow2x =>
    }
  }

  /** And only for those: under a negative limit the overage strategies are stricter than none. */
  lemma ChainNeedsNonNegativeLimit(max: I64)
    ensures (forall count: I64 :: Allows(NoOverage, count, max) ==> Allows(Allow1_25x, count, max)) <==> max >= 0
  {
    hide Round;
    if max >= 0 {
      forall count: I64 | Allows(NoOverage, count, max)
        ensures Allows(Allow1_25x, count, max)
      {
        StrictIsAllowedAQuarterMore(count, max);
      }
    } else {
      RoundKeepsSign(0 - max);
      RoundKeepsSign(5 * Round(0 - max));
      QuarterMoreIsMore(Round(0 - max));
      assert Allows(NoOverage, max, max) && !Allows(Allow1_25x, max, max);
    }
  }
}
