/**
 * Durations and duration units of std::chrono as the metrics header uses them:
 * every measurement is a count of nanoseconds, and a unit is described by the
 * number of nanoseconds one of its ticks lasts.
 */
module Units {

  /** The range of std::chrono::nanoseconds, whose count is a signed 64-bit integer. */
  const MaxNanos: int := 0x7fff_ffff_ffff_ffff
  const MinNanos: int := -0x8000_0000_0000_0000

  /** An elapsed time as a monotonic timer reports it: a non-negative nanosecond count. */
  type Elapsed = ns: int | 0 <= ns <= MaxNanos

  /** A duration unit, as the number of nanoseconds in one tick of it. */
  type Unit = period: int | 1 <= period witness 1

  const Nanoseconds: Unit := 1
  const Microseconds: Unit := 1_000
  const Milliseconds: Unit := 1_000_000
  const Seconds: Unit := 1_000_000_000
  const Minutes: Unit := 60_000_000_000
  /** std::chrono::duration<std::int64_t, std::centi>: a unit with no suffix of its own. */
  const Centiseconds: Unit := 10_000_000

  /**
   * std::chrono::duration_cast from nanoseconds to the unit u: the count is
   * divided by the period and the quotient is truncated toward zero.
   */
  function DurationCast(ns: int, u: Unit): (r: int)
    ensures 0 <= ns ==> 0 <= r && r * u <= ns < r * u + u
    ensures ns < 0 ==> r <= 0 && r * u - u < ns <= r * u
  {
    if ns >= 0 then ns / u else -((-ns) / u)
  }

  /** Casting to a coarser unit never reorders two durations. */
  lemma {:induction false} DurationCastMonotonic(a: int, b: int, u: Unit)
    requires 0 <= a <= b
    ensures DurationCast(a, u) <= DurationCast(b, u)
  {
    FloorLower(DurationCast(a, u), b, u);
  }

  /** Any k with k * d <= x is at most the floor of x / d. */
  lemma FloorLower(k: int, x: int, d: int)
    requires 0 < d && 0 <= x && k * d <= x
    ensures k <= x / d
  {
    var q := x / d;
    assert x < q * d + d;
    assert k * d < (q + 1) * d;
    MulStrictCancel(k, q + 1, d);
  }

  lemma MulStrictCancel(a: int, b: int, d: int)
    requires 0 < d && a * d < b * d
    ensures a < b
  {
    assert (b - a) * d > 0;
  }

  /** Greatest common divisor, by Euclid's algorithm. */
  function Gcd(a: nat, b: nat): (g: nat)
    decreases b
  {
    if b == 0 then a else Gcd(b, a % b)
  }

  lemma {:induction false} GcdPositiveBounded(a: nat, b: nat)
    requires 0 < b
    ensures 1 <= Gcd(a, b) <= b
    decreases b
  {
    if a % b != 0 {
      GcdPositiveBounded(b, a % b);
    }
  }

  /**
   * The period of std::common_type_t<T, std::chrono::seconds>: the greatest
   * common divisor of the two periods. It is at most one second, and it equals
   * u itself when u's period divides a second.
   */
  function CommonPeriodWithSeconds(u: Unit): (r: Unit)
    ensures r <= Seconds && r <= u
    ensures Seconds % u == 0 ==> r == u
  {
    GcdPositiveBounded(u, Seconds);
    GcdAtMostFirst(u, Seconds);
    GcdOfDivisor(u, Seconds);
    Gcd(u, Seconds)
  }

  /** When a divides b, their greatest common divisor is a itself. */
  lemma {:induction false} GcdOfDivisor(a: nat, b: nat)
    requires 0 < a && 0 < b
    ensures b % a == 0 ==> Gcd(a, b) == a
  {
    if b % a == 0 {
      DivisorAtMost(a, b);
      if a < b {
        SmallerMod(a, b);
        assert Gcd(a, b) == Gcd(b, a);
        assert Gcd(b, a) == Gcd(a, 0);
      } else {
        MultipleMod(b, 1);
        assert Gcd(a, b) == Gcd(b, 0);
      }
    }
  }

  lemma SmallerMod(a: nat, b: nat)
    requires a < b
    ensures a % b == a
  {
  }

  /** A positive multiple of a is at least a. */
  lemma DivisorAtMost(a: nat, b: nat)
    requires 0 < a && 0 < b && b % a == 0
    ensures a <= b
  {
  }

  lemma {:induction false} GcdAtMostFirst(a: nat, b: nat)
    requires 0 < a && 0 < b
    ensures Gcd(a, b) <= a
  {
    if a < b {
      assert a % b == a;
      GcdPositiveBounded(b, a);
    } else {
      GcdPositiveBounded(a, b);
    }
  }

  /** Euclid's algorithm yields a positive common divisor of its arguments. */
  lemma {:induction false} GcdDivides(a: nat, b: nat)
    requires 0 < b
    ensures 0 < Gcd(a, b) && a % Gcd(a, b) == 0 && b % Gcd(a, b) == 0
    decreases b
  {
    GcdPositiveBounded(a, b);
    var g, q, r := Gcd(a, b), a / b, a % b;
    assert g == Gcd(b, r);
    if r == 0 {
      assert g == b;
      MultipleMod(b, 1);
    } else {
      GcdDivides(b, r);
      assert a == q * b + r;
      CombinationDivisible(g, q, b, r);
    }
  }

  /** A combination of two multiples of g is a multiple of g. */
  lemma CombinationDivisible(g: int, q: int, x: int, y: int)
    requires 0 < g && x % g == 0 && y % g == 0
    ensures (q * x + y) % g == 0
  {
    var m, n := x / g, y / g;
    assert q * x + y == g * (q * m + n);
    MultipleMod(g, q * m + n);
  }

  lemma MultipleMod(g: int, k: int)
    requires 0 < g
    ensures (g * k) % g == 0
  {
    var q, r := (g * k) / g, (g * k) % g;
    assert r == (k - q) * g;
    MulStrictCancel(k - q, 1, g);
    MulStrictCancel(-1, k - q, g);
  }

  /**
   * The header's choice of the unit a report asked for in u is written in:
   * u itself when it equals its common type with seconds, and seconds otherwise.
   */
  function ReportUnit(u: Unit): (r: Unit)
    ensures Seconds < u ==> r == Seconds
    ensures Seconds % u == 0 ==> r == u
    ensures r <= Seconds
  {
    if CommonPeriodWithSeconds(u) == u then u else Seconds
  }

  /**
   * A report in u is written in u exactly when a whole number of u's ticks
   * make up one second, and in seconds otherwise.
   */
  lemma ReportUnitIsUnitIffDividesSecond(u: Unit)
    ensures ReportUnit(u) == (if Seconds % u == 0 then u else Seconds)
  {
    GcdDivides(u, Seconds);
  }

  /**
   * stringify_unit<T>::value: the suffix printed after a count in unit u.
   * Only the three named sub-second units get their own suffix; seconds and
   * every other unit, coarser or not, print "s".
   */
  function Suffix(u: Unit): (s: string)
    ensures (s == "ns") == (u == Nanoseconds)
    ensures (s == "us") == (u == Microseconds)
    ensures (s == "ms") == (u == Milliseconds)
    ensures (s == "s") == (u != Nanoseconds && u != Microseconds && u != Milliseconds)
  {
    if u == Nanoseconds then "ns"
    else if u == Microseconds then "us"
    else if u == Milliseconds then "ms"
    else "s"
  }

  /** The unit a suffix names. */
  function TickOfSuffix(suffix: string): (u: Unit)
    ensures suffix == "s" ==> u == Seconds
  {
    if suffix == "ns" then Nanoseconds
    else if suffix == "us" then Microseconds
    else if suffix == "ms" then Milliseconds
    else Seconds
  }

  /**
   * As written, a unit that divides a second but is none of the four named
   * ones keeps its own ticks while its suffix says seconds: a report in
   * centiseconds writes 150 for one and a half seconds and labels it "s".
   */
  lemma CentisecondsReportMislabelled()
    ensures ReportUnit(Centiseconds) == Centiseconds
    ensures Suffix(ReportUnit(Centiseconds)) == "s"
    ensures TickOfSuffix(Suffix(ReportUnit(Centiseconds))) != ReportUnit(Centiseconds)
  {
    ReportUnitIsUnitIffDividesSecond(Centiseconds);
  }

  /**
   * The unit a report is written in, corrected so that its suffix always names
   * it: one of the four named units stays, every other unit is reported in
   * seconds.
   */
  function LabelledReportUnit(u: Unit): (r: Unit)
    ensures TickOfSuffix(Suffix(r)) == r
    ensures r == u || r == Seconds
    ensures r <= Seconds
  {
    if u == Nanoseconds || u == Microseconds || u == Milliseconds then u else Seconds
  }

  /**
   * The corrected report unit differs from the one written in the header
   * exactly for the units that divide a second but whose suffix names another
   * unit.
   */
  lemma LabelledReportUnitDiffersOnlyWhenMislabelled(u: Unit)
    ensures LabelledReportUnit(u) != ReportUnit(u)
      <==> Seconds % u == 0 && TickOfSuffix(Suffix(u)) != u
  {
    ReportUnitIsUnitIffDividesSecond(u);
  }

  /**
   * The header's choice is labelled correctly for the four units with a
   * suffix and for every unit coarser than a second.
   */
  lemma HeaderLabelsNamedAndCoarseUnits(u: Unit)
    requires u == Nanoseconds || u == Microseconds || u == Milliseconds || Seconds <= u
    ensures TickOfSuffix(Suffix(ReportUnit(u))) == ReportUnit(u)
  {
  }

  /** At least one centisecond makes more centiseconds than seconds. */
  lemma CentisecondsExceedSeconds(ns: int)
    requires Centiseconds <= ns
    ensures DurationCast(ns, Seconds) < DurationCast(ns, Centiseconds)
  {
    var s := ns / Seconds;
    if s == 0 {
      FloorLower(1, ns, Centiseconds);
    } else {
      assert (100 * s) * Centiseconds == s * Seconds;
      FloorLower(100 * s, ns, Centiseconds);
    }
  }
}
