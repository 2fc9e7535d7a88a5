/** The two time.Parse layouts main.go uses: "2006-01-02" for the purchase
    date and "15:04" for the purchase time. */
module Calendar {
  import opened Options
  import opened Digits

  datatype Date = Date(year: nat, month: nat, day: nat)

  /** Gregorian leap years, as the time package counts them. */
  predicate IsLeapYear(year: int)
    ensures IsLeapYear(year) ==> year % 4 == 0
    ensures year % 400 == 0 ==> IsLeapYear(year)
  {
    year % 4 == 0 && (year % 100 != 0 || year % 400 == 0)
  }

  function DaysIn(month: nat, year: nat): (n: nat)
    requires 1 <= month <= 12
    ensures 28 <= n <= 31
    ensures n == 29 <==> month == 2 && IsLeapYear(year)
  {
    if month == 2 then (if IsLeapYear(year) then 29 else 28)
    else if month == 4 || month == 6 || month == 9 || month == 11 then 30
    else 31
  }

  predicate ValidDate(d: Date)
    ensures ValidDate(d) ==> 1 <= d.day <= 31 && (d.month == 2 ==> d.day <= 29)
  {
    1 <= d.month <= 12 && 1 <= d.day <= DaysIn(d.month, d.year)
  }

  /** time.Parse("2006-01-02", s): exactly four year digits, '-', two month
      digits, '-', two day digits and nothing after; the month must lie in
      1..12 and the day within that month of that year. */
  function ParseDate(s: string): (r: Option<Date>)
    ensures r.Some? ==> ValidDate(r.value) && r.value.year <= 9999
  {
    if |s| == 10 && AllDigits(s[..4]) && s[4] == '-' && AllDigits(s[5..7]) && s[7] == '-' && AllDigits(s[8..]) then
      var d := Date(DigitsValue(s[..4]), DigitsValue(s[5..7]), DigitsValue(s[8..]));
      if ValidDate(d) then Some(d) else None
    else
      None
  }

  /** The text the layout "2006-01-02" gives a date. */
  function FormatDate(d: Date): string {
    PaddedDigits(d.year, 4) + "-" + PaddedDigits(d.month, 2) + "-" + PaddedDigits(d.day, 2)
  }

  /** ParseDate accepts exactly the valid dates of years 0..9999, each
      written in exactly one way. */
  lemma ParseDateIff(s: string, d: Date)
    ensures ParseDate(s) == Some(d) <==> ValidDate(d) && d.year <= 9999 && s == FormatDate(d)
  {
    if ParseDate(s) == Some(d) {
      ParseDateCanonical(s);
    }
    if ValidDate(d) && d.year <= 9999 && s == FormatDate(d) {
      ParseFormatDate(d);
    }
  }

  /** Whatever ParseDate accepts is the canonical text of its result. */
  lemma ParseDateCanonical(s: string)
    requires ParseDate(s).Some?
    ensures s == FormatDate(ParseDate(s).value)
  {
    PaddedDigitsOfDigits(s[..4]);
    PaddedDigitsOfDigits(s[5..7]);
    PaddedDigitsOfDigits(s[8..]);
    assert s == s[..4] + "-" + s[5..7] + "-" + s[8..];
  }

  /** FormatDate is a right inverse of ParseDate on valid dates. */
  lemma ParseFormatDate(d: Date)
    requires ValidDate(d) && d.year <= 9999
    ensures ParseDate(FormatDate(d)) == Some(d)
  {
    var s := FormatDate(d);
    var y, m, dd := PaddedDigits(d.year, 4), PaddedDigits(d.month, 2), PaddedDigits(d.day, 2);
    assert Pow10(2) == 100 && Pow10(4) == 10000;
    assert |y| == 4 && |m| == 2 && |dd| == 2;
    assert s[..4] == y && s[5..7] == m && s[8..] == dd;
  }

  datatype Clock = Clock(hour: nat, minute: nat)

  predicate ValidClock(c: Clock) { c.hour < 24 && c.minute < 60 }

  /** time.Parse("15:04", s): the hour as one or two digits ("15" reads as
      many digits as there are, up to two), below 24; ':'; the minute as
      exactly two digits, below 60; nothing after. */
  function ParseClock(s: string): (r: Option<Clock>)
    ensures r.Some? ==> ValidClock(r.value)
  {
    if |s| >= 1 && IsDigit(s[0]) then
      var width := if |s| >= 2 && IsDigit(s[1]) then 2 else 1;
      var hour := DigitsValue(s[..width]);
      var rest := s[width..];
      if hour < 24 && |rest| == 3 && rest[0] == ':' && AllDigits(rest[1..]) then
        var minute := DigitsValue(rest[1..]);
        if minute < 60 then Some(Clock(hour, minute)) else None
      else
        None
    else
      None
  }

  /** The text the layout "15:04" gives a clock time. */
  function FormatClock(c: Clock): string {
    PaddedDigits(c.hour, 2) + ":" + PaddedDigits(c.minute, 2)
  }

  /** The short form "H:MM" the layout also accepts for hours below 10. */
  function FormatClockShort(c: Clock): string {
    PaddedDigits(c.hour, 1) + ":" + PaddedDigits(c.minute, 2)
  }

  /** ParseClock accepts exactly the valid clock times, written "HH:MM",
      or "H:MM" for an hour below 10. */
  lemma ParseClockIff(s: string, c: Clock)
    ensures ParseClock(s) == Some(c) <==>
            ValidClock(c) && (s == FormatClock(c) || (c.hour < 10 && s == FormatClockShort(c)))
  {
    if ParseClock(s) == Some(c) {
      ParseClockCanonical(s);
    }
    if ValidClock(c) && s == FormatClock(c) {
      ParseFormatClock(c);
    }
    if ValidClock(c) && c.hour < 10 && s == FormatClockShort(c) {
      ParseFormatClockShort(c);
    }
  }

  lemma ParseClockCanonical(s: string)
    requires ParseClock(s).Some?
    ensures var c := ParseClock(s).value;
            s == FormatClock(c) || (c.hour < 10 && s == FormatClockShort(c))
  {
    var width := if |s| >= 2 && IsDigit(s[1]) then 2 else 1;
    var h, m := s[..width], s[width + 1..];
    assert s[width..][1..] == m;
    assert ParseClock(s).value == Clock(DigitsValue(h), DigitsValue(m));
    SplitAt(s, width);
    ClockOfText(h, m, ParseClock(s).value);
  }

  /** A text with ':' at position k is its two sides joined by ':'. */
  lemma SplitAt(s: string, k: nat)
    requires k < |s| && s[k] == ':'
    ensures s == s[..k] + ":" + s[k + 1..]
  {
  }

  /** Digit fields read back to c are the fields FormatClock (or, for one
      hour digit, FormatClockShort) writes for c. */
  lemma ClockOfText(h: string, m: string, c: Clock)
    requires AllDigits(h) && AllDigits(m) && |m| == 2 && 1 <= |h| <= 2
    requires c == Clock(DigitsValue(h), DigitsValue(m))
    ensures |h| == 2 ==> h + ":" + m == FormatClock(c)
    ensures |h| == 1 ==> c.hour < 10 && h + ":" + m == FormatClockShort(c)
  {
    PaddedDigitsOfDigits(h);
    PaddedDigitsOfDigits(m);
    assert Pow10(1) == 10;
  }

  lemma ParseFormatClock(c: Clock)
    requires ValidClock(c)
    ensures ParseClock(FormatClock(c)) == Some(c)
  {
    var s := FormatClock(c);
    var h, m := PaddedDigits(c.hour, 2), PaddedDigits(c.minute, 2);
    assert Pow10(2) == 100;
    assert |h| == 2 && |m| == 2;
    assert s[..2] == h && s[2..][1..] == m;
  }

  lemma ParseFormatClockShort(c: Clock)
    requires ValidClock(c) && c.hour < 10
    ensures ParseClock(FormatClockShort(c)) == Some(c)
  {
    var s := FormatClockShort(c);
    var h, m := PaddedDigits(c.hour, 1), PaddedDigits(c.minute, 2);
    assert Pow10(1) == 10 && Pow10(2) == 100;
    assert |h| == 1 && |m| == 2;
    assert s[..1] == h && s[1..][1..] == m;
  }

  /** Minutes since midnight; every parsed time lies on the same day
      (January 1 of year 0), so Time.After/Before compare these. */
  function MinuteOfDay(c: Clock): nat { c.hour * 60 + c.minute }

  /** Time.After on two valid times of the same day: a later hour, or the
      same hour and a later minute. */
  function IsAfter(a: Clock, b: Clock): (r: bool)
    ensures ValidClock(a) && ValidClock(b) ==>
            (r <==> a.hour > b.hour || (a.hour == b.hour && a.minute > b.minute))
  {
    MinuteOfDay(a) > MinuteOfDay(b)
  }

  /** Time.Before: the converse of IsAfter. */
  function IsBefore(a: Clock, b: Clock): (r: bool)
    ensures r == IsAfter(b, a)
    ensures ValidClock(a) && ValidClock(b) ==>
            (r <==> a.hour < b.hour || (a.hour == b.hour && a.minute < b.minute))
  {
    MinuteOfDay(a) < MinuteOfDay(b)
  }
}
