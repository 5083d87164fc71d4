/**
 * Instants and durations as the server computes with them.  An instant is the
 * number of nanoseconds since the Unix epoch, unbounded; a duration is a signed
 * 64-bit count of nanoseconds, so products wrap and differences saturate.
 */
module GoTime {

  const SECOND: int := 1_000_000_000
  const HOUR: int := 3600 * SECOND
  const DAY: int := 24 * HOUR
  const MIN64: int := -0x8000_0000_0000_0000
  const MAX64: int := 0x7FFF_FFFF_FFFF_FFFF

  /** The largest lead, in days, whose duration still fits 64 bits. */
  const MAX_LEAD_DAYS: int := 106751

  /** The first whole second that is further from the epoch than 64 bits reach. */
  const BEYOND_64_BITS: int := 9_223_372_037 * SECOND

  /** The zero time: January 1 of year 1, 00:00:00 UTC. */
  const ZERO_TIME: int := -62_135_596_800 * SECOND

  /** Two's-complement wrap-around of a 64-bit result. */
  function Wrap64(x: int): (r: int)
    ensures MIN64 <= r <= MAX64
    ensures MIN64 <= x <= MAX64 ==> r == x
  {
    (x - MIN64) % 0x1_0000_0000_0000_0000 + MIN64
  }

  /** Wrapping changes a number by whole multiples of 2^64 only. */
  lemma Wrap64Congruent(x: int)
    ensures (x - Wrap64(x)) % 0x1_0000_0000_0000_0000 == 0
  {
    var m := 0x1_0000_0000_0000_0000;
    assert x - Wrap64(x) == (x - MIN64) / m * m;
  }

  /** Difference of two instants; a difference that does not fit saturates. */
  function Sub(t: int, u: int): (d: int)
    ensures MIN64 <= d <= MAX64
    ensures MIN64 <= t - u <= MAX64 ==> d == t - u
  {
    if t - u < MIN64 then MIN64 else if MAX64 < t - u then MAX64 else t - u
  }

  /** No duration is nearer to the true difference. */
  lemma SubNearest(t: int, u: int, x: int)
    requires MIN64 <= x <= MAX64
    ensures t - u < Sub(t, u) ==> Sub(t, u) <= x
    ensures Sub(t, u) < t - u ==> x <= Sub(t, u)
  {
  }

  /** `time.Duration(days) * 24 * time.Hour`, wrapping after each product. */
  function DaysDuration(days: int): int
  {
    Wrap64(Wrap64(days * 24) * HOUR)
  }

  /** The renewal test, evaluated at the instant `now`. */
  predicate NeedsRenewal(expiry: int, now: int, days: int)
  {
    Sub(expiry, now) < DaysDuration(days)
  }

  /** The test the configuration asks for, in unbounded arithmetic. */
  predicate Due(expiry: int, now: int, days: int)
  {
    expiry - now < days * DAY
  }

  lemma DaysDurationExact(days: int)
    requires -MAX_LEAD_DAYS <= days <= MAX_LEAD_DAYS
    ensures DaysDuration(days) == days * DAY
  {
  }

  /** The product of any number of days wraps around as a whole. */
  lemma DaysDurationCongruent(days: int)
    ensures (days * 24 * HOUR - DaysDuration(days)) % 0x1_0000_0000_0000_0000 == 0
    ensures MIN64 <= DaysDuration(days) <= MAX64
  {
    hide Wrap64;
    Wrap64Congruent(days * 24);
    Wrap64Congruent(Wrap64(days * 24) * HOUR);
    WholeMultiple(days * 24, Wrap64(days * 24), DaysDuration(days));
  }

  lemma WholeMultiple(x: int, y: int, z: int)
    requires (x - y) % 0x1_0000_0000_0000_0000 == 0 && (y * HOUR - z) % 0x1_0000_0000_0000_0000 == 0
    ensures (x * HOUR - z) % 0x1_0000_0000_0000_0000 == 0
  {
    var m := 0x1_0000_0000_0000_0000;
    var a, b := (x - y) / m, (y * HOUR - z) / m;
    assert x - y == a * m && y * HOUR - z == b * m;
    assert x * HOUR - z == (a * HOUR + b) * m;
  }

  /** With a lead of at most 106751 days, saturation and wrap-around never change the answer. */
  lemma NeedsRenewalExact(expiry: int, now: int, days: int)
    requires 1 <= days <= MAX_LEAD_DAYS
    ensures NeedsRenewal(expiry, now, days) <==> Due(expiry, now, days)
  {
    DaysDurationExact(days);
  }

  /** 106751 is exactly the bound: any larger lead misjudges some expiry, even among those of whole seconds. */
  lemma NeedsRenewalExactIff(days: int)
    requires 1 <= days
    ensures (forall expiry, now :: expiry % SECOND == 0 ==>
                                     (NeedsRenewal(expiry, now, days) <==> Due(expiry, now, days)))
            <==> days <= MAX_LEAD_DAYS
  {
    if days <= MAX_LEAD_DAYS {
      forall expiry, now | expiry % SECOND == 0
        ensures NeedsRenewal(expiry, now, days) <==> Due(expiry, now, days)
      {
        NeedsRenewalExact(expiry, now, days);
      }
    } else {
      assert BEYOND_64_BITS % SECOND == 0 && !NeedsRenewal(BEYOND_64_BITS, 0, days) && Due(BEYOND_64_BITS, 0, days);
    }
  }

  /** Quotient and remainder by a day are determined by their defining equation. */
  lemma DayParts(a: int, q: int, r: int)
    requires a == q * DAY + r && 0 <= r < DAY
    ensures a / DAY == q && a % DAY == r
  {
  }

  /** The second of the day of a whole second. */
  lemma SecondParts(t: int, q: int, k: int)
    requires t == q * DAY + k * SECOND && 0 <= k < 86400
    ensures t / DAY == q && t % DAY == k * SECOND && t % DAY / SECOND == k && t % SECOND == 0
  {
    DayParts(t, q, k * SECOND);
    assert t == (q * 86400 + k) * SECOND;
  }

  lemma WholeSecond(t: int)
    requires t % SECOND == 0
    ensures var k := t % DAY / SECOND; 0 <= k < 86400 && t == t / DAY * DAY + k * SECOND
  {
    var s := t / SECOND;
    SecondParts(t, s / 86400, s % 86400);
  }

  lemma DayQuotient(x: int)
    ensures x / DAY * DAY <= x < (x / DAY + 1) * DAY
    ensures 0 <= x ==> 0 <= x / DAY
  {
  }

  lemma DaysOrdered(a: int, b: int)
    requires a <= b
    ensures a * DAY <= b * DAY
  {
  }

  /** Day `n` and a second of it, read off the wall clock of a zone and put back on it. */
  lemma WallClock(n: int, second: int, offset: int)
    ensures (n * 86400 + second - offset) * SECOND + offset * SECOND == n * DAY + second * SECOND
  {
  }
}
