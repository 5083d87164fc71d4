/**
 * The daily check time: parsing `cert_check_time`, the first check of a
 * scheduler and the predicted renewal time.  A zone is a fixed offset from UTC
 * in seconds.
 */
module CheckTime {
  import opened Wrappers
  import opened GoTime
  import opened Text
  import Calendar

  function Value(s: string): (n: int)
    requires AllDigits(s) && 1 <= |s| <= 2
    ensures 0 <= n < 100
  {
    var n := DigitValue(s[|s| - 1]);
    if |s| == 1 then n else 10 * DigitValue(s[0]) + n
  }

  /** Accepted and dropped after the seconds: a point or comma followed by digits. */
  predicate Fraction(s: string)
  {
    s == "" || (|s| >= 2 && (s[0] == '.' || s[0] == ',') && AllDigits(s[1..]))
  }

  /**
   * Parsing with the layout "15:04:05": one or two digits of hour, exactly two of
   * minute and second.  The result is the second of the day.
   */
  function Parse(s: string): (r: Option<int>)
    ensures r.Some? ==> 0 <= r.value < 86400
  {
    var h := if |s| >= 2 && IsDigit(s[1]) then 2 else 1;
    if |s| < h + 6 || !AllDigits(s[..h]) || s[h] != ':' || !AllDigits(s[h + 1..h + 3])
       || s[h + 3] != ':' || !AllDigits(s[h + 4..h + 6]) || !Fraction(s[h + 6..]) then None
    else
      var hour, minute, second := Value(s[..h]), Value(s[h + 1..h + 3]), Value(s[h + 4..h + 6]);
      if hour < 24 && minute < 60 && second < 60 then Some(hour * 3600 + minute * 60 + second) else None
  }

  /** Hour digits before the first colon: one or two. */
  function HourDigits(s: string): int
  {
    if |s| >= 2 && '0' <= s[1] <= '9' then 2 else 1
  }

  /**
   * The accepted texts are one or two digits of hour, a colon, two of minute, a colon,
   * two of second, each in its range, and perhaps a point or comma with more digits;
   * they mean that second of the day.
   */
  lemma ParseIff(s: string)
    ensures var h := HourDigits(s);
            && (Parse(s).Some? <==>
                  && h + 6 <= |s| && s[h] == ':' && s[h + 3] == ':'
                  && AllDigits(s[..h]) && AllDigits(s[h + 1..h + 3]) && AllDigits(s[h + 4..h + 6])
                  && Number(s[..h]) < 24 && Number(s[h + 1..h + 3]) < 60 && Number(s[h + 4..h + 6]) < 60
                  && (|s| == h + 6 || (|s| >= h + 8 && s[h + 6] in ".," && AllDigits(s[h + 7..]))))
            && (Parse(s).Some? ==>
                  Parse(s).value
                  == Number(s[..h]) * 3600 + Number(s[h + 1..h + 3]) * 60 + Number(s[h + 4..h + 6]))
  {
    var h := HourDigits(s);
    if h + 6 <= |s| {
      ValueIsNumber(s[..h]);
      ValueIsNumber(s[h + 1..h + 3]);
      ValueIsNumber(s[h + 4..h + 6]);
      assert s[h + 6..] == "" <==> |s| == h + 6;
      assert |s| >= h + 8 ==> s[h + 6..][1..] == s[h + 7..];
    }
  }

  lemma {:induction false} ValueIsNumber(s: string)
    requires 1 <= |s| <= 2
    ensures AllDigits(s) ==> Value(s) == Number(s)
  {
    if AllDigits(s) {
      if |s| == 1 {
        NumberOfOne(s);
      } else {
        NumberOfTwo(s);
      }
    }
  }

  const DEFAULT_CHECK_TIME := "03:00:00"

  /** `parseCheckTime`: the configured text, or the default when it is empty. */
  function Configured(s: string): string
  {
    if s == "" then DEFAULT_CHECK_TIME else s
  }

  /** Second of the day a configured text stands for; what does not parse means 03:00:00. */
  function SecondOfDay(s: string): (k: int)
    ensures 0 <= k < 86400
  {
    match Parse(Configured(s))
    case Some(k) => k
    case None => 3 * 3600
  }

  lemma DefaultParses()
    ensures Parse(DEFAULT_CHECK_TIME) == Some(3 * 3600)
  {
    ParseClock(0, 3, 0, 0, 0, 0);
  }

  /** Every clock time, written with its six digits, is accepted and means its second of the day. */
  lemma ParseClock(h1: int, h0: int, m1: int, m0: int, s1: int, s0: int)
    requires 0 <= h1 < 10 && 0 <= h0 < 10 && 0 <= m1 < 10 && 0 <= m0 < 10 && 0 <= s1 < 10 && 0 <= s0 < 10
    ensures var hour, minute, second := 10 * h1 + h0, 10 * m1 + m0, 10 * s1 + s0;
            Parse([Digit(h1), Digit(h0), ':', Digit(m1), Digit(m0), ':', Digit(s1), Digit(s0)])
            == if hour < 24 && minute < 60 && second < 60 then Some(hour * 3600 + minute * 60 + second) else None
  {
    var s := [Digit(h1), Digit(h0), ':', Digit(m1), Digit(m0), ':', Digit(s1), Digit(s0)];
    assert s[..2] == [Digit(h1), Digit(h0)] && s[3..5] == [Digit(m1), Digit(m0)] && s[6..8] == [Digit(s1), Digit(s0)];
    assert s[8..] == "";
  }

  /** A configured text means what it parses to, and three o'clock where it does not parse. */
  lemma ScheduleMeans(s: string)
    ensures SecondOfDay(s) == if Parse(s).Some? then Parse(s).value else 3 * 3600
  {
    DefaultParses();
  }

  /** The civil date at an instant in a zone. */
  function DateAt(t: int, offset: int): Calendar.Date
  {
    Calendar.DateOf((t + offset * SECOND) / DAY)
  }

  /** `time.Date` on a valid date with a whole second of the day. */
  function Instant(d: Calendar.Date, second: int, offset: int): int
    requires Calendar.Valid(d)
  {
    (Calendar.DayNumber(d) * 86400 + second - offset) * SECOND
  }

  /** Wall-clock time of the day, in nanoseconds. */
  function TimeOfDay(t: int, offset: int): int
  {
    (t + offset * SECOND) % DAY
  }

  /** Date and time of day on the wall clock of a zone `offset` seconds east of UTC. */
  lemma OnTheWall(t: int, offset: int)
    ensures t == Calendar.DayNumber(DateAt(t, offset)) * DAY + TimeOfDay(t, offset) - offset * SECOND
    ensures 0 <= TimeOfDay(t, offset) < DAY
  {
    hide Calendar.DateOf;
    var x := t + offset * SECOND;
    DayQuotient(x);
    DayRemainder(x);
  }

  lemma DayRemainder(x: int)
    ensures x == x / DAY * DAY + x % DAY && 0 <= x % DAY < DAY
  {
  }

  /** The wall clock shows exactly the configured time. */
  predicate IsCheckInstant(t: int, offset: int, schedule: string)
  {
    TimeOfDay(t, offset) == SecondOfDay(schedule) * SECOND
  }

  function NextRunAt(from: int, offset: int, schedule: string): int
  {
    var next := Instant(DateAt(from, offset), SecondOfDay(schedule), offset);
    if next < from then next + DAY else next
  }

  /** `calculateInitialDelay`, whose two clock readings are `now` and `later`. */
  function InitialDelay(now: int, later: int, offset: int, schedule: string): int
  {
    var text := Configured(schedule);
    var parsed := if Parse(text).Some? then Parse(text) else Parse(DEFAULT_CHECK_TIME);
    DefaultParses();
    var next := Instant(DateAt(now, offset), parsed.value, offset);
    var next' := if next < now then next + DAY else next;
    Sub(next', later)
  }

  /** On the wall clock, `time.Date` stays on the date it is given. */
  lemma OnDate(from: int, offset: int, second: int)
    ensures Instant(DateAt(from, offset), second, offset) + offset * SECOND
         == (from + offset * SECOND) / DAY * DAY + second * SECOND
  {
    WallClock((from + offset * SECOND) / DAY, second, offset);
  }

  /** `nextRunAt` is the least check instant that is not before its argument, and less than a day away. */
  lemma NextRunAtLeast(from: int, offset: int, schedule: string)
    ensures var r := NextRunAt(from, offset, schedule);
            && from <= r < from + DAY
            && TimeOfDay(r, offset) == SecondOfDay(schedule) * SECOND
            && forall t :: from <= t < r ==> TimeOfDay(t, offset) != SecondOfDay(schedule) * SECOND
  {
    hide NextRunAt;
    hide SecondOfDay;
    NextRunAtInDay(from, offset, schedule);
    var r := NextRunAt(from, offset, schedule);
    forall t | from <= t < r
      ensures !IsCheckInstant(t, offset, schedule)
    {
      if IsCheckInstant(t, offset, schedule) {
        SameTimeOfDay(t, r, offset);
      }
    }
  }

  lemma NextRunAtInDay(from: int, offset: int, schedule: string)
    ensures var r := NextRunAt(from, offset, schedule);
            from <= r < from + DAY && IsCheckInstant(r, offset, schedule)
  {
    var second := SecondOfDay(schedule);
    OnDate(from, offset, second);
    var today := Instant(DateAt(from, offset), second, offset);
    NextInDay(from, offset, (from + offset * SECOND) / DAY, second, today);
  }

  lemma NextInDay(from: int, offset: int, q: int, second: int, today: int)
    requires q == (from + offset * SECOND) / DAY && 0 <= second < 86400
    requires today + offset * SECOND == q * DAY + second * SECOND
    ensures var r := if today < from then today + DAY else today;
            from <= r < from + DAY && TimeOfDay(r, offset) == second * SECOND
  {
    DayQuotient(from + offset * SECOND);
    DayParts(today + offset * SECOND, q, second * SECOND);
    DayParts(today + DAY + offset * SECOND, q + 1, second * SECOND);
  }

  /** Two instants with one time of day are whole days apart. */
  lemma SameTimeOfDay(t: int, u: int, offset: int)
    requires TimeOfDay(t, offset) == TimeOfDay(u, offset)
    ensures t == u || t <= u - DAY || u + DAY <= t
    ensures (u - t) % DAY == 0
  {
    var a, b := t + offset * SECOND, u + offset * SECOND;
    assert a == a / DAY * DAY + a % DAY && b == b / DAY * DAY + b % DAY;
    assert b - a == (b / DAY - a / DAY) * DAY;
  }

  /** Days later, the same time of day. */
  lemma DaysLater(t: int, k: int, offset: int)
    ensures TimeOfDay(t + k * DAY, offset) == TimeOfDay(t, offset)
  {
    var a := t + offset * SECOND;
    assert t + k * DAY + offset * SECOND == a + k * DAY;
    assert (a + k * DAY) / DAY == a / DAY + k;
  }

  /** The one check instant of a half-open day. */
  lemma NextRunAtUnique(from: int, t: int, offset: int, schedule: string)
    requires from <= t < from + DAY && IsCheckInstant(t, offset, schedule)
    ensures NextRunAt(from, offset, schedule) == t
  {
    NextRunAtLeast(from, offset, schedule);
    SameTimeOfDay(t, NextRunAt(from, offset, schedule), offset);
  }

  /**
   * A timer started with `InitialDelay` fires at the first check instant, or at
   * once when the clock has already passed it; under a frozen clock the delay is
   * exactly the distance to it.
   */
  lemma FirstCheckFires(now: int, later: int, offset: int, schedule: string)
    requires now <= later <= now + MAX64 - DAY
    ensures var first := NextRunAt(now, offset, schedule);
            var delay := InitialDelay(now, later, offset, schedule);
            && later + (if delay < 0 then 0 else delay) == (if first < later then later else first)
            && (later == now ==> 0 <= delay < DAY && now + delay == first)
  {
    DefaultParses();
    NextRunAtLeast(now, offset, schedule);
  }

  /** `notAfter.Add(-time.Duration(lead) * 24 * time.Hour)` */
  function Threshold(notAfter: int, lead: int): int
  {
    notAfter + Wrap64(Wrap64(-lead * 24) * HOUR)
  }

  lemma ThresholdExact(notAfter: int, lead: int)
    requires 1 <= lead <= MAX_LEAD_DAYS
    ensures Threshold(notAfter, lead) == notAfter - lead * DAY
  {
  }

  /**
   * `ExpectedRenewAt`.  `offset` is the zone of the clock and `expiryOffset` the
   * zone of the expiry: the check time is read in the zone of whichever instant
   * the search starts from.
   */
  function ExpectedRenewAt(notAfter: int, expiryOffset: int, now: int, offset: int,
                           lead: int, schedule: string, autoRenew: bool): (r: Option<int>)
    ensures r.Some? <==> autoRenew
  {
    if !autoRenew then None
    else
      var threshold := Threshold(notAfter, lead);
      Some(if threshold < now then NextRunAt(now, offset, schedule)
           else NextRunAt(threshold, expiryOffset, schedule))
  }

  lemma ExpectedIs(notAfter: int, expiryOffset: int, now: int, offset: int, lead: int, schedule: string)
    requires 1 <= lead <= MAX_LEAD_DAYS
    ensures var threshold := notAfter - lead * DAY;
            ExpectedRenewAt(notAfter, expiryOffset, now, offset, lead, schedule, true)
            == Some(if threshold < now then NextRunAt(now, offset, schedule)
                    else NextRunAt(threshold, expiryOffset, schedule))
  {
    hide NextRunAt;
    ThresholdExact(notAfter, lead);
  }

  /** The prediction is the check instant of the day from the later of the clock and the threshold on. */
  lemma ExpectedInDay(notAfter: int, now: int, offset: int, lead: int, schedule: string)
    requires 1 <= lead <= MAX_LEAD_DAYS
    ensures var p := ExpectedRenewAt(notAfter, offset, now, offset, lead, schedule, true).value;
            var from := if notAfter - lead * DAY < now then now else notAfter - lead * DAY;
            from <= p < from + DAY && IsCheckInstant(p, offset, schedule)
  {
    ExpectedIs(notAfter, offset, now, offset, lead, schedule);
    NextRunAtInDay(if notAfter - lead * DAY < now then now else notAfter - lead * DAY, offset, schedule);
  }

  /** In any zone the prediction is less than a day after the later of the clock and the threshold. */
  lemma ExpectedInItsDay(notAfter: int, expiryOffset: int, now: int, offset: int, lead: int, schedule: string)
    requires 1 <= lead <= MAX_LEAD_DAYS
    ensures var p := ExpectedRenewAt(notAfter, expiryOffset, now, offset, lead, schedule, true).value;
            var from := if notAfter - lead * DAY < now then now else notAfter - lead * DAY;
            from <= p < from + DAY
  {
    ExpectedIs(notAfter, expiryOffset, now, offset, lead, schedule);
    var from := if notAfter - lead * DAY < now then now else notAfter - lead * DAY;
    NextRunAtInDay(from, offset, schedule);
    NextRunAtInDay(from, expiryOffset, schedule);
  }

  /**
   * In one zone the prediction is right: every earlier check instant from now on
   * finds the certificate not due, and the predicted one finds it due unless it
   * falls exactly on the threshold.
   */
  lemma ExpectedRenewAtPredicts(notAfter: int, now: int, offset: int, lead: int, schedule: string)
    requires 1 <= lead <= MAX_LEAD_DAYS
    ensures var p := ExpectedRenewAt(notAfter, offset, now, offset, lead, schedule, true).value;
            && now <= p && IsCheckInstant(p, offset, schedule)
            && (forall t :: now <= t < p && IsCheckInstant(t, offset, schedule) ==> !NeedsRenewal(notAfter, t, lead))
            && (NeedsRenewal(notAfter, p, lead) <==> p != notAfter - lead * DAY)
  {
    var p := ExpectedRenewAt(notAfter, offset, now, offset, lead, schedule, true).value;
    var threshold := notAfter - lead * DAY;
    ThresholdExact(notAfter, lead);
    NextRunAtLeast(if threshold < now then now else threshold, offset, schedule);
    NeedsRenewalExact(notAfter, p, lead);
    forall t | now <= t < p && IsCheckInstant(t, offset, schedule)
      ensures !NeedsRenewal(notAfter, t, lead)
    {
      NeedsRenewalExact(notAfter, t, lead);
    }
  }

  /** The first check instant from the clock or the threshold on, whichever is later. */
  function FirstDue(notAfter: int, now: int, offset: int, lead: int, schedule: string): int
  {
    NextRunAt(if notAfter - lead * DAY < now then now else notAfter - lead * DAY, offset, schedule)
  }

  /**
   * It is the first to find the certificate due: none before it does, and it does
   * itself unless it is exactly the threshold.
   */
  lemma FirstDueDecides(notAfter: int, now: int, offset: int, lead: int, schedule: string)
    requires 1 <= lead <= MAX_LEAD_DAYS
    ensures var first := FirstDue(notAfter, now, offset, lead, schedule);
            && now <= first && IsCheckInstant(first, offset, schedule)
            && (forall t :: now <= t < first && IsCheckInstant(t, offset, schedule) ==>
                              !NeedsRenewal(notAfter, t, lead))
            && (NeedsRenewal(notAfter, first, lead) <==> first != notAfter - lead * DAY)
  {
    ExpectedIs(notAfter, offset, now, offset, lead, schedule);
    ExpectedRenewAtPredicts(notAfter, now, offset, lead, schedule);
  }

  /**
   * A parsed expiry is in UTC while the scheduler checks in local time.  The
   * prediction is then less than a day off, and exact if and only if the search
   * starts at the clock or the two zones agree modulo whole days.
   */
  lemma ExpectedRenewAtAcrossZones(notAfter: int, expiryOffset: int, now: int, offset: int, lead: int, schedule: string)
    requires 1 <= lead <= MAX_LEAD_DAYS
    ensures var p := ExpectedRenewAt(notAfter, expiryOffset, now, offset, lead, schedule, true).value;
            var first := FirstDue(notAfter, now, offset, lead, schedule);
            && -DAY < p - first < DAY
            && (p == first <==> Due(notAfter, now, lead) || (expiryOffset - offset) % 86400 == 0)
  {
    hide NextRunAt;
    hide ExpectedRenewAt;
    ExpectedIs(notAfter, expiryOffset, now, offset, lead, schedule);
    FirstRunsInZones(if notAfter - lead * DAY < now then now else notAfter - lead * DAY,
                     expiryOffset, offset, schedule);
  }

  /** First runs in two zones are less than a day apart, and equal exactly when the zones agree. */
  lemma FirstRunsInZones(from: int, o1: int, o2: int, schedule: string)
    ensures -DAY < NextRunAt(from, o1, schedule) - NextRunAt(from, o2, schedule) < DAY
    ensures NextRunAt(from, o1, schedule) == NextRunAt(from, o2, schedule) <==> (o1 - o2) % 86400 == 0
  {
    NextRunAtInDay(from, o1, schedule);
    NextRunAtInDay(from, o2, schedule);
    ZonesAgree(from, o1, o2, schedule);
  }

  /** Then it is the prediction of an expiry given in the zone of the clock. */
  lemma ExpectedInOneZone(notAfter: int, expiryOffset: int, now: int, offset: int, lead: int, schedule: string)
    requires 1 <= lead <= MAX_LEAD_DAYS
    requires Due(notAfter, now, lead) || (expiryOffset - offset) % 86400 == 0
    ensures ExpectedRenewAt(notAfter, expiryOffset, now, offset, lead, schedule, true)
         == ExpectedRenewAt(notAfter, offset, now, offset, lead, schedule, true)
  {
    hide ExpectedRenewAt;
    hide FirstDue;
    ExpectedRenewAtAcrossZones(notAfter, expiryOffset, now, offset, lead, schedule);
    ExpectedRenewAtAcrossZones(notAfter, offset, now, offset, lead, schedule);
  }

  /** It then falls whole days from every other check instant of the scheduler. */
  lemma ExpectedAtTimeOfDay(notAfter: int, expiryOffset: int, now: int, offset: int, lead: int, schedule: string,
                            first: int)
    requires 1 <= lead <= MAX_LEAD_DAYS && IsCheckInstant(first, offset, schedule)
    requires Due(notAfter, now, lead) || (expiryOffset - offset) % 86400 == 0
    ensures var p := ExpectedRenewAt(notAfter, expiryOffset, now, offset, lead, schedule, true).value;
            var from := if notAfter - lead * DAY < now then now else notAfter - lead * DAY;
            from <= p < from + DAY && (p - first) % DAY == 0
  {
    ExpectedInOneZone(notAfter, expiryOffset, now, offset, lead, schedule);
    ExpectedInDay(notAfter, now, offset, lead, schedule);
    SameTimeOfDay(first, ExpectedRenewAt(notAfter, offset, now, offset, lead, schedule, true).value, offset);
  }

  lemma ZonesAgree(from: int, o1: int, o2: int, schedule: string)
    ensures NextRunAt(from, o1, schedule) == NextRunAt(from, o2, schedule) <==> (o1 - o2) % 86400 == 0
  {
    NextRunAtLeast(from, o1, schedule);
    NextRunAtLeast(from, o2, schedule);
    var r1, r2 := NextRunAt(from, o1, schedule), NextRunAt(from, o2, schedule);
    OffsetsModuloDay(r1, o1, o2);
    if (o1 - o2) % 86400 == 0 {
      NextRunAtUnique(from, r1, o2, schedule);
    }
  }

  /** Two zones show the same time of day exactly when they differ by whole days. */
  lemma OffsetsModuloDay(t: int, o1: int, o2: int)
    ensures TimeOfDay(t, o1) == TimeOfDay(t, o2) <==> (o1 - o2) % 86400 == 0
  {
    var a, b := t + o1 * SECOND, t + o2 * SECOND;
    assert a - b == (o1 - o2) * SECOND;
    if (o1 - o2) % 86400 == 0 {
      var k := (o1 - o2) / 86400;
      assert (o1 - o2) * SECOND == k * DAY;
      assert a == (b / DAY + k) * DAY + b % DAY;
      DayParts(a, b / DAY + k, b % DAY);
    }
    if a % DAY == b % DAY {
      var j := a / DAY - b / DAY;
      assert a - b == j * DAY;
      assert o1 - o2 == j * 86400;
    }
  }
}
