/**
 * Timestamps of section 5.6 of RFC 3339 in UTC, whole seconds, four-digit year:
 * the only form the check flows exchange, since the expiry of a certificate is
 * a whole UTC second of a four-digit year (section 4.1.2.5 of RFC 5280).
 */
module Rfc3339 {
  import opened Wrappers
  import opened GoTime
  import opened Text
  import Calendar

  function Two(n: int): string
    requires 0 <= n < 100
  {
    [Digit(n / 10), Digit(n % 10)]
  }

  /** The number two characters write, if both are digits. */
  function TwoValue(s: string): (r: Option<int>)
    requires |s| == 2
    ensures r.Some? ==> 0 <= r.value < 100 && Two(r.value) == s
  {
    if IsDigit(s[0]) && IsDigit(s[1]) then Some(10 * DigitValue(s[0]) + DigitValue(s[1])) else None
  }

  lemma TwoRoundTrip(n: int)
    requires 0 <= n < 100
    ensures TwoValue(Two(n)) == Some(n)
  {
  }

  /** Day numbers of January 1 of year 0 and of year 10000. */
  const FIRST_DAY := -719528
  const LAST_DAY := 2932897

  /** What a certificate can carry: a whole second of a year from 0 to 9999. */
  predicate Expressible(t: int)
  {
    t % SECOND == 0 && FIRST_DAY <= t / DAY < LAST_DAY
  }

  /** The day bounds are those of the four-digit years. */
  lemma FourDigitYear(n: int)
    ensures FIRST_DAY <= n < LAST_DAY <==> 0 <= Calendar.DateOf(n).year <= 9999
  {
    var d := Calendar.DateOf(n);
    Calendar.MonthStartMonotone(d.year, d.month, 13);
    Calendar.YearLength(d.year);
    if d.year < 0 {
      Calendar.YearOrder(d.year + 1, 0);
    } else if d.year <= 9999 {
      Calendar.YearOrder(0, d.year);
      Calendar.YearOrder(d.year + 1, 10000);
    } else {
      Calendar.YearOrder(10000, d.year);
    }
  }

  /** `Format(time.RFC3339)` of a UTC instant. */
  function Format(t: int): (s: string)
    requires FIRST_DAY <= t / DAY < LAST_DAY
    ensures |s| == 20
  {
    FourDigitYear(t / DAY);
    var d := Calendar.DateOf(t / DAY);
    var k := t % DAY / SECOND;
    Two(d.year / 100) + Two(d.year % 100) + "-" + Two(d.month) + "-" + Two(d.day)
    + "T" + Two(k / 3600) + ":" + Two(k / 60 % 60) + ":" + Two(k % 60) + "Z"
  }

  /** The six numbers of a timestamp. */
  datatype Fields = Fields(date: Calendar.Date, hour: int, minute: int, second: int)

  function Scan(s: string): (r: Option<Fields>)
    ensures r.Some? ==>
              && 0 <= r.value.date.year <= 9999 && 0 <= r.value.date.month < 100 && 0 <= r.value.date.day < 100
              && 0 <= r.value.hour < 100 && 0 <= r.value.minute < 100 && 0 <= r.value.second < 100
  {
    if |s| == 20 && s[4] == '-' && s[7] == '-' && s[10] == 'T' && s[13] == ':' && s[16] == ':' && s[19] == 'Z' then
      match (TwoValue(s[0..2]), TwoValue(s[2..4]), TwoValue(s[5..7]), TwoValue(s[8..10]),
             TwoValue(s[11..13]), TwoValue(s[14..16]), TwoValue(s[17..19]))
      case (Some(c), Some(y), Some(mo), Some(d), Some(h), Some(mi), Some(sec)) =>
        Some(Fields(Calendar.Date(100 * c + y, mo, d), h, mi, sec))
      case _ => None
    else None
  }

  predicate InRange(f: Fields)
  {
    Calendar.Valid(f.date) && 0 <= f.hour < 24 && 0 <= f.minute < 60 && 0 <= f.second < 60
  }

  function InstantOf(f: Fields): int
    requires InRange(f)
  {
    Calendar.DayNumber(f.date) * DAY + (f.hour * 3600 + f.minute * 60 + f.second) * SECOND
  }

  /** `time.Parse(time.RFC3339, s)`; a number out of its range is an error. */
  function Parse(s: string): Option<int>
  {
    match Scan(s)
    case Some(f) => if InRange(f) then Some(InstantOf(f)) else None
    case None => None
  }

  function Spelled(f: Fields): string
    requires 0 <= f.date.year <= 9999 && 0 <= f.date.month < 100 && 0 <= f.date.day < 100
    requires 0 <= f.hour < 100 && 0 <= f.minute < 100 && 0 <= f.second < 100
  {
    Two(f.date.year / 100) + Two(f.date.year % 100) + "-" + Two(f.date.month) + "-" + Two(f.date.day)
    + "T" + Two(f.hour) + ":" + Two(f.minute) + ":" + Two(f.second) + "Z"
  }

  /** Where the numbers of a timestamp stand. */
  lemma Slices(c: string, y: string, mo: string, d: string, h: string, mi: string, sec: string)
    requires |c| == 2 && |y| == 2 && |mo| == 2 && |d| == 2 && |h| == 2 && |mi| == 2 && |sec| == 2
    ensures var s := c + y + "-" + mo + "-" + d + "T" + h + ":" + mi + ":" + sec + "Z";
            && |s| == 20 && s[4] == '-' && s[7] == '-' && s[10] == 'T' && s[13] == ':' && s[16] == ':' && s[19] == 'Z'
            && s[0..2] == c && s[2..4] == y && s[5..7] == mo && s[8..10] == d
            && s[11..13] == h && s[14..16] == mi && s[17..19] == sec
  {
    var s := c + y + "-" + mo + "-" + d + "T" + h + ":" + mi + ":" + sec + "Z";
    assert s[0..2] == c && s[2..4] == y;
    assert s[5..7] == mo && s[8..10] == d;
    assert s[11..13] == h && s[14..16] == mi && s[17..19] == sec;
  }

  /** The numbers of a timestamp are read back from their places. */
  lemma ScanSpelled(f: Fields)
    requires 0 <= f.date.year <= 9999 && 0 <= f.date.month < 100 && 0 <= f.date.day < 100
    requires 0 <= f.hour < 100 && 0 <= f.minute < 100 && 0 <= f.second < 100
    ensures Scan(Spelled(f)) == Some(f)
  {
    Slices(Two(f.date.year / 100), Two(f.date.year % 100), Two(f.date.month), Two(f.date.day),
           Two(f.hour), Two(f.minute), Two(f.second));
    TwoRoundTrip(f.date.year / 100);
    TwoRoundTrip(f.date.year % 100);
    TwoRoundTrip(f.date.month);
    TwoRoundTrip(f.date.day);
    TwoRoundTrip(f.hour);
    TwoRoundTrip(f.minute);
    TwoRoundTrip(f.second);
  }

  lemma SpelledScan(s: string)
    requires Scan(s).Some?
    ensures Spelled(Scan(s).value) == s
  {
    var f := Scan(s).value;
    assert f.date.year / 100 == TwoValue(s[0..2]).value;
    assert f.date.year % 100 == TwoValue(s[2..4]).value;
    assert s == s[0..2] + s[2..4] + [s[4]] + s[5..7] + [s[7]] + s[8..10] + [s[10]]
                + s[11..13] + [s[13]] + s[14..16] + [s[16]] + s[17..19] + [s[19]];
  }

  function FieldsOf(t: int): Fields
  {
    var k := t % DAY / SECOND;
    Fields(Calendar.DateOf(t / DAY), k / 3600, k / 60 % 60, k % 60)
  }

  lemma InstantOfFieldsOf(t: int)
    requires t % SECOND == 0
    ensures InRange(FieldsOf(t)) && InstantOf(FieldsOf(t)) == t
  {
    WholeSecond(t);
    ClockParts(t % DAY / SECOND);
  }

  lemma ClockParts(k: int)
    requires 0 <= k < 86400
    ensures 0 <= k / 3600 < 24 && k == k / 3600 * 3600 + k / 60 % 60 * 60 + k % 60
  {
    assert k / 60 / 60 == k / 3600;
  }

  lemma ClockOf(h: int, m: int, s: int)
    requires 0 <= h < 24 && 0 <= m < 60 && 0 <= s < 60
    ensures var k := h * 3600 + m * 60 + s; k / 3600 == h && k / 60 % 60 == m && k % 60 == s
  {
    var k := h * 3600 + m * 60 + s;
    assert k / 60 == h * 60 + m;
  }

  lemma FieldsOfInstantOf(f: Fields)
    requires InRange(f)
    ensures FieldsOf(InstantOf(f)) == f
  {
    Calendar.DateOfDayNumber(f.date);
    SecondParts(InstantOf(f), Calendar.DayNumber(f.date), f.hour * 3600 + f.minute * 60 + f.second);
    ClockOf(f.hour, f.minute, f.second);
  }

  /**
   * The fields of a formatted timestamp stand at the places of section 5.6 of RFC 3339
   * and are the civil date and clock time of the instant.
   */
  lemma FormatFields(t: int)
    requires Expressible(t)
    ensures var f := FieldsOf(t);
            && InRange(f) && 0 <= f.date.year <= 9999 && InstantOf(f) == t
            && Format(t) == Spelled(f)
  {
    InstantOfFieldsOf(t);
    FormatSpelled(t);
  }

  /** Formatting loses nothing of an expiry, over every civil date of the range. */
  lemma ParseFormat(t: int)
    requires Expressible(t)
    ensures Parse(Format(t)) == Some(t)
  {
    InstantOfFieldsOf(t);
    FormatSpelled(t);
    ScanSpelled(FieldsOf(t));
  }

  /** Only the formatted text of an instant parses to it. */
  lemma FormatParse(s: string)
    requires Parse(s).Some?
    ensures Expressible(Parse(s).value) && Format(Parse(s).value) == s
  {
    var f := Scan(s).value;
    SpelledScan(s);
    FieldsOfInstantOf(f);
    SecondParts(InstantOf(f), Calendar.DayNumber(f.date), f.hour * 3600 + f.minute * 60 + f.second);
    Calendar.DateOfDayNumber(f.date);
    FourDigitYear(InstantOf(f) / DAY);
    FormatSpelled(InstantOf(f));
  }

  lemma FormatSpelled(t: int)
    requires FIRST_DAY <= t / DAY < LAST_DAY
    ensures var f := FieldsOf(t); 0 <= f.hour < 24 && 0 <= f.date.year <= 9999 && Format(t) == Spelled(f)
  {
    FourDigitYear(t / DAY);
  }

  /** The shape of section 5.6 of RFC 3339: four digits of year, two of everything else, and the separators. */
  predicate Shaped(s: string)
  {
    && |s| == 20 && s[4] == '-' && s[7] == '-' && s[10] == 'T' && s[13] == ':' && s[16] == ':' && s[19] == 'Z'
    && AllDigits(s[0..4]) && AllDigits(s[5..7]) && AllDigits(s[8..10])
    && AllDigits(s[11..13]) && AllDigits(s[14..16]) && AllDigits(s[17..19])
  }

  lemma {:induction false} TwoValueIs(s: string)
    requires |s| == 2
    ensures TwoValue(s).Some? <==> AllDigits(s)
    ensures AllDigits(s) ==> TwoValue(s) == Some(Number(s))
  {
    if AllDigits(s) {
      NumberOfTwo(s);
    }
  }

  lemma YearDigits(s: string)
    requires |s| == 20
    ensures AllDigits(s[0..4]) <==> AllDigits(s[0..2]) && AllDigits(s[2..4])
    ensures AllDigits(s[0..4]) ==> Number(s[0..4]) == 100 * Number(s[0..2]) + Number(s[2..4])
  {
    assert s[0..4] == s[0..2] + s[2..4];
    if AllDigits(s[0..4]) {
      NumberOfFour(s[0..4]);
      assert s[0..4][0..2] == s[0..2] && s[0..4][2..4] == s[2..4];
    }
  }

  lemma ScanIs(s: string)
    ensures Scan(s).Some? <==> Shaped(s)
    ensures Shaped(s) ==>
              Scan(s).value == Fields(Calendar.Date(Number(s[0..4]), Number(s[5..7]), Number(s[8..10])),
                                      Number(s[11..13]), Number(s[14..16]), Number(s[17..19]))
  {
    if |s| == 20 {
      YearDigits(s);
      TwoValueIs(s[0..2]);
      TwoValueIs(s[2..4]);
      TwoValueIs(s[5..7]);
      TwoValueIs(s[8..10]);
      TwoValueIs(s[11..13]);
      TwoValueIs(s[14..16]);
      TwoValueIs(s[17..19]);
    }
  }

  /**
   * What is accepted and what it means, read off the characters: a shaped text whose
   * day is at most the last of its month and whose clock time is in range stands for
   * that second of that civil date.
   */
  lemma ParseIff(s: string)
    ensures Parse(s).Some? <==>
              && Shaped(s) && 1 <= Number(s[5..7]) <= 12
              && 1 <= Number(s[8..10]) <= Calendar.LastDay(Number(s[0..4]), Number(s[5..7]))
              && Number(s[11..13]) < 24 && Number(s[14..16]) < 60 && Number(s[17..19]) < 60
    ensures Parse(s).Some? ==>
              var date := Calendar.Date(Number(s[0..4]), Number(s[5..7]), Number(s[8..10]));
              && Calendar.Valid(date)
              && Parse(s).value == Calendar.DayNumber(date) * DAY
                                   + (Number(s[11..13]) * 3600 + Number(s[14..16]) * 60 + Number(s[17..19])) * SECOND
  {
    ScanIs(s);
    if Shaped(s) {
      Calendar.ValidIff(Scan(s).value.date);
    }
  }

  /** What is formatted reads as the civil date and clock time of the instant, character by character. */
  lemma FormatMeans(t: int)
    requires Expressible(t)
    ensures var s := Format(t);
            && Shaped(s)
            && var date := Calendar.Date(Number(s[0..4]), Number(s[5..7]), Number(s[8..10]));
               && Calendar.Valid(date)
               && Number(s[11..13]) < 24 && Number(s[14..16]) < 60 && Number(s[17..19]) < 60
               && t == Calendar.DayNumber(date) * DAY
                       + (Number(s[11..13]) * 3600 + Number(s[14..16]) * 60 + Number(s[17..19])) * SECOND
  {
    hide Format;
    hide Parse;
    ParseFormat(t);
    ParseIff(Format(t));
  }

  /** The zero time is the first instant of year 1. */
  lemma ZeroTimeDate()
    ensures ZERO_TIME == Calendar.DayNumber(Calendar.Date(1, 1, 1)) * DAY
  {
    assert Calendar.MonthStart(1, 1) == 0;
  }
}
