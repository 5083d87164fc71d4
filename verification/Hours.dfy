/**
 * Durations as hours and days in double precision: what the report pages show for
 * `int(d.Hours() / 24)`, with all three roundings.
 */
module Hours {
  import opened GoTime
  import opened Float64

  /** Powers of two the proofs name. */
  lemma Powers()
    ensures Pow2(4) == 16 && Pow2(10) == 1024 && Pow2(31) == 0x8000_0000 && Pow2(35) == 0x8_0000_0000
    ensures Pow2(40) == 0x100_0000_0000 && Pow2(41) == 0x200_0000_0000
    ensures Pow2(44) == 0x1000_0000_0000 && Pow2(45) == 0x2000_0000_0000
  {
    assert Pow2(10) == 1024;
    Pow2Sum(10, 10);
    Pow2Sum(20, 20);
    Pow2Sum(20, 10);
    Pow2Sum(1, 30);
    Pow2Sum(4, 31);
    Pow2Sum(1, 40);
    Pow2Sum(4, 40);
    Pow2Sum(1, 44);
  }

  /** The part of an hour, as a double. */
  function Fraction(d: int): (f: real)
    requires 0 <= d
    ensures 0.0 <= f <= 1.0
  {
    var x := (d % HOUR) as real / HOUR as real;
    RoundBetween(x, 0, 1);
    Round(x)
  }

  /** `d.Hours()` of a duration that is not negative. */
  function Hours(d: int): (r: real)
    requires 0 <= d <= -MIN64
    ensures IsFloat(r) && (d / HOUR) as real <= r <= (d / HOUR + 1) as real
  {
    var x := (d / HOUR) as real + Fraction(d);
    RoundBetween(x, d / HOUR, d / HOUR + 1);
    Round(x)
  }

  /** More hours than a duration of 64 bits has. */
  const MAX_HOURS := 2562048

  lemma HoursFit(d: int)
    requires 0 <= d <= -MIN64
    ensures Hours(d) <= MAX_HOURS as real
  {
    assert d / HOUR + 1 <= MAX_HOURS;
  }

  /** Hours to whole days. */
  function WholeDays(y: real): int
    requires 0.0 <= y <= MAX_HOURS as real
  {
    Round(y / 24.0).Floor
  }

  /** `int(d.Hours() / 24)`; rounding is symmetric about zero. */
  function Days(d: int): int
    requires MIN64 <= d <= MAX64
  {
    HoursFit(if 0 <= d then d else -d);
    if 0 <= d then WholeDays(Hours(d)) else -WholeDays(Hours(-d))
  }

  /** Division by 24 crosses no whole day, however it rounds. */
  lemma DivisionKeepsDays(y: real, n: int)
    requires IsFloat(y) && 0.0 <= y <= MAX_HOURS as real && 1 <= n <= 174762
    ensures n <= WholeDays(y) <==> (24 * n) as real <= y
  {
    IntegerIsFloat(n);
    RoundMonotone(y / 24.0, n as real);
    if y < (24 * n) as real {
      var z := Between(y, n);
      RoundNearest(y / 24.0, z);
    }
  }

  /** A double nearer to `y / 24` than `n` is, when `y` falls short of `24 * n`. */
  lemma Between(y: real, n: int) returns (z: real)
    requires IsFloat(y) && 0.0 <= y < (24 * n) as real && 1 <= n <= 174762
    ensures IsFloat(z) && z < n as real && Abs(y / 24.0 - z) < Abs(y / 24.0 - n as real)
  {
    var m: int, k: nat :| Is(y, m, k);
    if y < (8 * n) as real {
      z := 0.0;
      IntegerIsFloat(0);
      assert Abs(y / 24.0 - 0.0) < Abs(y / 24.0 - n as real);
    } else {
      z := (y - (8 * n) as real) / 16.0;
      FineScale(y, m, k);
      SixteenthIsFloat(y, m, k, 8 * n);
    }
  }

  lemma FineScale(y: real, m: int, k: nat)
    requires Is(y, m, k) && 1.0 <= y
    ensures k < 100
  {
    GridOf(y, m, k, 0);
    if 100 <= k {
      Powers();
      Pow2Sum(45, 45);
      Pow2Ordered(90, k);
      assert false;
    }
  }

  lemma SixteenthIsFloat(y: real, m: int, k: nat, a: int)
    requires Is(y, m, k) && 0 <= a && a as real <= y && k + 4 <= MAX_SCALE
    ensures IsFloat((y - a as real) / 16.0)
  {
    Powers();
    Pow2Sum(4, k);
    SixteenthIs(y, m, k, a, Pow2(k));
  }

  lemma SixteenthIs(y: real, m: int, k: nat, a: int, p: int)
    requires Is(y, m, k) && 0 <= a && a as real <= y && k + 4 <= MAX_SCALE
    requires p == Pow2(k) && Pow2(4 + k) == 16 * p
    ensures Is((y - a as real) / 16.0, m - a * p, k + 4)
  {
    hide Pow2;
    SixteenthScaled(y, a, p);
    assert 0 <= a * p;
    assert 0.0 <= (y - a as real) * p as real;
  }

  lemma SixteenthScaled(y: real, a: int, p: int)
    ensures (y - a as real) / 16.0 * (16 * p) as real == y * p as real - (a * p) as real
    ensures (y - a as real) * p as real == y * p as real - (a * p) as real
  {
    assert (y - a as real) * p as real == y * p as real - a as real * p as real;
  }

  /** A duration of so many days has so many hours. */
  lemma HoursReach(d: int, n: int)
    requires 0 <= d <= -MIN64 && n * DAY <= d
    ensures (24 * n) as real <= Hours(d)
  {
    assert 24 * n <= d / HOUR;
  }

  /**
   * Hours do not round up to `n` days when `d` falls `t` nanoseconds short of them
   * and doubles below `24 * n` lie on a grid of `1 / 2^k`, `t` being over half of it.
   */
  lemma {:induction false} HoursShort(d: int, n: int, t: int, k: nat)
    requires 0 <= d <= -MIN64 && d <= n * DAY - t && 1 <= t && 1 <= n
    requires k <= 45 && 24 * n * Pow2(k) <= P53 && 9 * HOUR <= t * (16 * Pow2(k))
    ensures Hours(d) < (24 * n) as real
  {
    hide Hours;
    hide Fraction;
    hide IsFloat;
    LastHour(d, n, t);
    if d / HOUR == 24 * n - 1 {
      var q := 16 * Pow2(k);
      BelowOneIsFloat(k);
      FractionBelow(d, t, q);
      GridBelow(n, k, q);
      LastHourShort(d, n, 1.0 / q as real);
    }
  }

  lemma LastHour(d: int, n: int, t: int)
    requires 0 <= d <= n * DAY - t && 1 <= t
    ensures d / HOUR <= 24 * n - 1
    ensures d / HOUR == 24 * n - 1 ==> d % HOUR <= HOUR - t
  {
  }

  lemma LastHourShort(d: int, n: int, p: real)
    requires 0 <= d <= -MIN64 && d / HOUR == 24 * n - 1 && 0.0 < p
    requires Fraction(d) <= 1.0 - 9.0 * p && IsFloat((24 * n) as real - 16.0 * p)
    ensures Hours(d) < (24 * n) as real
  {
    hide Fraction;
    hide Round;
    hide Abs;
    hide IsFloat;
    var limit := (24 * n) as real;
    var x := (d / HOUR) as real + Fraction(d);
    RoundNearest(x, limit - 16.0 * p);
    StaysBelow(x, Hours(d), limit, p);
  }

  lemma StaysBelow(x: real, y: real, limit: real, p: real)
    requires 0.0 < p && x <= limit - 9.0 * p && Abs(x - y) <= Abs(x - (limit - 16.0 * p))
    ensures y < limit
  {
  }

  /** The part of an hour stays below one. */
  lemma FractionBelow(d: int, t: int, q: int)
    requires 0 <= d && d % HOUR <= HOUR - t && 1 <= q && 9 * HOUR <= t * q
    requires IsFloat(1.0 - 9.0 * (1.0 / q as real))
    ensures Fraction(d) <= 1.0 - 9.0 * (1.0 / q as real)
  {
    Ratio(d % HOUR, t, q);
    RoundMonotone((d % HOUR) as real / HOUR as real, 1.0 - 9.0 * (1.0 / q as real));
  }

  lemma Ratio(r: int, t: int, q: int)
    requires 1 <= q && r <= HOUR - t && 9 * HOUR <= t * q
    ensures r as real / HOUR as real <= 1.0 - 9.0 * (1.0 / q as real)
  {
    assert r * q <= (HOUR - t) * q;
    assert (r * q) as real <= (HOUR * (q - 9)) as real;
    var u := r as real / HOUR as real;
    assert u * HOUR as real == r as real;
    assert u * q as real <= (q - 9) as real;
    assert u <= (q - 9) as real / q as real;
  }

  lemma {:induction false} BelowOneIsFloat(k: nat)
    requires k <= 45
    ensures IsFloat(1.0 - 9.0 * (1.0 / (16 * Pow2(k)) as real))
  {
    FourFiner(k);
    UnitGrid(16 * Pow2(k), k + 4);
  }

  lemma FourFiner(k: nat)
    requires k <= 45
    ensures 16 * Pow2(k) == Pow2(4 + k) <= P53
  {
    Pow2Sum(4, k);
    Powers();
    if k < 45 {
      Pow2Ordered(k, 45);
    }
  }

  lemma {:induction false} UnitGrid(q: int, e: nat)
    requires q == Pow2(e) && 9 <= q <= P53 && e <= MAX_SCALE
    ensures IsFloat(1.0 - 9.0 * (1.0 / q as real))
  {
    var u := 1.0 / q as real;
    assert u * q as real == 1.0;
    assert Is(1.0 - 9.0 * u, q - 9, e);
  }

  /** The double next below `24 * n`, or one above it. */
  lemma {:induction false} GridBelow(n: int, k: nat, q: int)
    requires 1 <= n && k <= 45 && 24 * n * Pow2(k) <= P53 && q == 16 * Pow2(k)
    ensures IsFloat((24 * n) as real - 16.0 * (1.0 / q as real))
  {
    hide Pow2;
    hide IsFloat;
    SixteenParts(Pow2(k));
    GridStep(24 * n, k, 16.0 * (1.0 / q as real));
  }

  lemma SixteenParts(u: int)
    requires 1 <= u
    ensures 16.0 * (1.0 / (16 * u) as real) * u as real == 1.0
  {
    var v := 1.0 / (16 * u) as real;
    assert v * (16 * u) as real == 1.0;
  }

  lemma {:induction false} GridStep(n: int, k: nat, step: real)
    requires 1 <= n && k <= 45 && n * Pow2(k) <= P53 && step * Pow2(k) as real == 1.0
    ensures IsFloat(n as real - step)
  {
    hide Pow2;
    StepBelow(n, Pow2(k), step);
    assert Is(n as real - step, n * Pow2(k) - 1, k);
  }

  lemma StepBelow(n: int, u: int, step: real)
    requires 1 <= n && 1 <= u && step * u as real == 1.0
    ensures 1 <= n * u && (n as real - step) * u as real == (n * u - 1) as real
  {
    assert n as real * u as real == (n * u) as real;
  }

  /** One nanosecond short of `n` days shows as `n` days of hours, from 171 days on. */
  lemma HoursRoundUp(n: int)
    requires 171 <= n <= MAX_LEAD_DAYS
    ensures (24 * n) as real <= Hours(n * DAY - 1)
  {
    var d := n * DAY - 1;
    LastNanosecond(n);
    FractionLong(d);
    RoundsUp((24 * n - 1) as real + Fraction(d), 24 * n);
  }

  lemma LastNanosecond(n: int)
    ensures (n * DAY - 1) / HOUR == 24 * n - 1 && (n * DAY - 1) % HOUR == HOUR - 1
  {
  }

  /** Half a step of the grid short of an integer, rounding reaches it. */
  lemma RoundsUp(x: real, n: int)
    requires 4098 <= n <= P53 && n as real - 5.0 / 17592186044416.0 <= x <= n as real
    ensures n as real <= Round(x)
  {
    hide Round;
    IntegerIsFloat(n);
    RoundNearest(x, n as real);
    var y := Round(x);
    if y < n as real {
      var m: int, k: nat :| Is(y, m, k);
      assert n as real - 10.0 / 17592186044416.0 <= y;
      CoarseGrid(y, m, k, n);
      assert false;
    }
  }

  /** The part of an hour is almost one. */
  lemma FractionLong(d: int)
    requires 0 <= d && d % HOUR == HOUR - 1
    ensures 1.0 - 5.0 / 17592186044416.0 <= Fraction(d)
  {
    Powers();
    var z := 1.0 - 5.0 / 17592186044416.0;
    assert Is(z, 17592186044416 - 5, 44);
    RoundMonotone((d % HOUR) as real / HOUR as real, z);
  }

  /** From 4096 on doubles below an integer keep a distance of `1 / 2^40`. */
  lemma CoarseGrid(y: real, m: int, k: nat, n: int)
    requires Is(y, m, k) && 4096.0 <= y < n as real && 4097 <= n
    ensures y <= n as real - 1.0 / 1099511627776.0
  {
    hide Pow2;
    CoarseScale(y, m, k);
    if k <= 40 {
      OnCoarseGrid(y, m, k);
      IntegerGrid(y, m * Pow2(40 - k), n);
    } else {
      assert Scaled(y, 41) <= P53 as real;
    }
  }

  lemma {:induction false} OnCoarseGrid(y: real, m: int, k: nat)
    requires Scaled(y, k) == m as real && k <= 40 && Pow2(40) == 1099511627776
    ensures y * 1099511627776.0 == (m * Pow2(40 - k)) as real
  {
    hide Pow2;
    ScaledUp(y, k, 40);
    assert m as real * Pow2(40 - k) as real == (m * Pow2(40 - k)) as real;
  }

  lemma CoarseScale(y: real, m: int, k: nat)
    requires Is(y, m, k) && 4096.0 <= y
    ensures k <= 41 && Pow2(40) == 1099511627776 && Pow2(41) == 2199023255552
  {
    Powers();
    Pow2Sum(2, 10);
    GridOf(y, m, k, 12);
    Pow2Sum(13, 40);
    Pow2Sum(3, 10);
    if 41 < k {
      Pow2Ordered(53, k + 12);
    }
  }

  lemma IntegerGrid(y: real, m: int, n: int)
    requires y * 1099511627776.0 == m as real && y < n as real
    ensures y <= n as real - 1.0 / 1099511627776.0
  {
    assert m < n * 1099511627776;
  }

  /** `n` days are shown exactly when the hours reach them. */
  lemma DaysAtLeast(d: int, n: int)
    requires MIN64 <= d <= MAX64 && 1 <= n <= 174762
    ensures n <= Days(d) <==> 0 <= d && (24 * n) as real <= Hours(d)
  {
    hide Hours;
    hide WholeDays;
    if 0 <= d {
      HoursFit(d);
      DivisionKeepsDays(Hours(d), n);
    } else {
      HoursFit(-d);
      WholeDaysNotNegative(Hours(-d));
    }
  }

  lemma WholeDaysNotNegative(y: real)
    requires 0.0 <= y <= MAX_HOURS as real
    ensures 0 <= WholeDays(y)
  {
    IntegerIsFloat(0);
    RoundMonotone(y / 24.0, 0.0);
  }

  /** As many days as a duration has are shown. */
  lemma DaysReach(d: int, n: int)
    requires MIN64 <= d <= MAX64 && 1 <= n <= 174762 && n * DAY <= d
    ensures n <= Days(d)
  {
    HoursReach(d, n);
    DaysAtLeast(d, n);
  }

  /** Up to 170 days, no more than that. */
  lemma DaysShort(d: int, n: int)
    requires MIN64 <= d <= MAX64 && 1 <= n <= 170 && d < n * DAY
    ensures Days(d) < n
  {
    DaysAtLeast(d, n);
    if 0 <= d {
      Powers();
      HoursShort(d, n, 1, 41);
    }
  }

  /** For any number of days, no more if a microsecond is missing. */
  lemma DaysShortByMicrosecond(d: int, n: int)
    requires MIN64 <= d <= MAX64 && 1 <= n <= MAX_LEAD_DAYS + 1 && d <= n * DAY - 1000
    ensures Days(d) < n
  {
    DaysAtLeast(d, n);
    if 0 <= d {
      Powers();
      HoursShort(d, n, 1000, 31);
    }
  }

  /** From 171 days on, one more than that when a nanosecond is missing. */
  lemma DaysRoundUp(n: int)
    requires 171 <= n <= MAX_LEAD_DAYS
    ensures n <= Days(n * DAY - 1)
  {
    HoursRoundUp(n);
    DaysAtLeast(n * DAY - 1, n);
  }

  /** Before and after an instant the days are the same but for the sign. */
  lemma DaysSymmetric(d: int)
    requires 0 < d <= MAX64
    ensures Days(-d) == -Days(d)
  {
  }

  /** Less than a day shows as none. */
  lemma NoDays(d: int)
    requires 0 <= d < DAY
    ensures Days(d) == 0
  {
    hide Hours;
    hide WholeDays;
    DaysShort(d, 1);
    HoursFit(d);
    WholeDaysNotNegative(Hours(d));
  }
}
