/** Calendar dates and timestamps in the two text formats the system stores
    and parses: "%Y-%m-%d" (10 characters) and "%Y-%m-%d %H:%M:%S"
    (19 characters), the proleptic Gregorian day ordinal that Python's
    datetime counts with (0001-01-01 is day 1), and whole-second instants. */
module Timestamps {
  import opened Common

  datatype Date = Date(year: int, month: int, day: int)

  datatype DateTime = DateTime(date: Date, hour: int, minute: int, second: int)

  predicate IsLeap(y: int)
  {
    y % 4 == 0 && (y % 100 != 0 || y % 400 == 0)
  }

  function DaysInMonth(y: int, m: int): (n: int)
    requires 1 <= m <= 12
    ensures 28 <= n <= 31
  {
    if m == 2 then (if IsLeap(y) then 29 else 28)
    else if m == 4 || m == 6 || m == 9 || m == 11 then 30
    else 31
  }

  /** The dates datetime.date can represent (years 1 through 9999). */
  predicate ValidDate(d: Date)
  {
    1 <= d.year <= 9999 && 1 <= d.month <= 12 && 1 <= d.day <= DaysInMonth(d.year, d.month)
  }

  predicate ValidDateTime(t: DateTime)
  {
    ValidDate(t.date) && 0 <= t.hour < 24 && 0 <= t.minute < 60 && 0 <= t.second < 60
  }

  /** Days in the years before year y (datetime's _days_before_year). */
  function DaysBeforeYear(y: int): int
    requires y >= 1
  {
    var p := y - 1;
    p * 365 + p / 4 - p / 100 + p / 400
  }

  /** Days in the months of year y before month m (datetime's _days_before_month). */
  function DaysBeforeMonth(y: int, m: int): int
    requires 1 <= m <= 12
  {
    [0, 31, 59, 90, 120, 151, 181, 212, 243, 273, 304, 334][m - 1]
    + (if m > 2 && IsLeap(y) then 1 else 0)
  }

  /** date.toordinal(). */
  function Ordinal(d: Date): int
    requires ValidDate(d)
  {
    DaysBeforeYear(d.year) + DaysBeforeMonth(d.year, d.month) + d.day
  }

  /** Whole seconds since 0001-01-01 00:00:00 minus one day; only
      differences are ever used, as timedelta.total_seconds(). */
  function Seconds(t: DateTime): int
    requires ValidDateTime(t)
  {
    Ordinal(t.date) * 86400 + t.hour * 3600 + t.minute * 60 + t.second
  }

  const MaxDate := Date(9999, 12, 31)

  /** The calendar day after d; undefined past 9999-12-31. */
  function NextDay(d: Date): (e: Date)
    requires ValidDate(d) && d != MaxDate
    ensures ValidDate(e)
  {
    if d.day < DaysInMonth(d.year, d.month) then Date(d.year, d.month, d.day + 1)
    else if d.month < 12 then Date(d.year, d.month + 1, 1)
    else Date(d.year + 1, 1, 1)
  }

  lemma DaysBeforeNextYear(y: int)
    requires y >= 1
    ensures DaysBeforeYear(y + 1) == DaysBeforeYear(y) + (if IsLeap(y) then 366 else 365)
  {
    var p := y - 1;
    assert y / 4 == p / 4 + (if y % 4 == 0 then 1 else 0) by { }
    assert y / 100 == p / 100 + (if y % 100 == 0 then 1 else 0) by { }
    assert y / 400 == p / 400 + (if y % 400 == 0 then 1 else 0) by { }
    LeapDivisors(y);
  }

  lemma LeapDivisors(y: int)
    ensures y % 400 == 0 ==> y % 100 == 0
    ensures y % 100 == 0 ==> y % 4 == 0
  {
  }

  /** NextDay is exactly one day later on the ordinal scale. */
  lemma NextDayOrdinal(d: Date)
    requires ValidDate(d) && d != MaxDate
    ensures Ordinal(NextDay(d)) == Ordinal(d) + 1
  {
    if d.day == DaysInMonth(d.year, d.month) && d.month == 12 {
      DaysBeforeNextYear(d.year);
    }
  }

  /** date + timedelta(days=n): None when the result would pass
      9999-12-31 (Python raises OverflowError). */
  function AddDays(d: Date, n: nat): (r: Option<Date>)
    requires ValidDate(d)
    ensures r.Some? ==> ValidDate(r.value)
    decreases n
  {
    if n == 0 then Some(d)
    else if d == MaxDate then None
    else AddDays(NextDay(d), n - 1)
  }

  lemma {:induction false} AddDaysOrdinal(d: Date, n: nat)
    requires ValidDate(d)
    ensures AddDays(d, n).Some? ==>
      ValidDate(AddDays(d, n).value) && Ordinal(AddDays(d, n).value) == Ordinal(d) + n
    decreases n
  {
    if n > 0 && d != MaxDate {
      NextDayOrdinal(d);
      AddDaysOrdinal(NextDay(d), n - 1);
    }
  }

  // ---------------------------------------------------------------------
  // Fixed-width decimal fields

  function Pow10(w: nat): (p: nat)
    ensures p >= 1
  {
    if w == 0 then 1 else 10 * Pow10(w - 1)
  }

  /** The last w decimal digits of n, zero-padded ("%04d", "%02d"). */
  function Digits(n: nat, w: nat): (s: string)
    ensures |s| == w && AllDigits(s)
  {
    if w == 0 then [] else Digits(n / 10, w - 1) + [DigitChar(n % 10)]
  }

  lemma {:induction false} DigitsValue(n: nat, w: nat)
    requires n < Pow10(w)
    ensures DecimalValue(Digits(n, w)) == n
  {
    if w > 0 {
      DigitsValue(n / 10, w - 1);
      var s := Digits(n, w);
      assert s[..|s| - 1] == Digits(n / 10, w - 1);
    }
  }

  lemma {:induction false} ValueDigits(s: string)
    requires AllDigits(s)
    ensures DecimalValue(s) < Pow10(|s|)
    ensures Digits(DecimalValue(s), |s|) == s
  {
    if s != [] {
      var init := s[..|s| - 1];
      ValueDigits(init);
      var n := DecimalValue(s);
      assert n / 10 == DecimalValue(init);
      assert n % 10 == DigitValue(s[|s| - 1]);
      assert DigitChar(DigitValue(s[|s| - 1])) == s[|s| - 1];
      assert s == init + [s[|s| - 1]];
    }
  }

  /** Value of the digit field s[i..j], if it is all digits. */
  function Field(s: string, i: nat, j: nat): Option<nat>
    requires i <= j <= |s|
  {
    if AllDigits(s[i..j]) then Some(DecimalValue(s[i..j])) else None
  }

  // ---------------------------------------------------------------------
  // "%Y-%m-%d"

  function FormatDate(d: Date): (s: string)
    requires ValidDate(d)
    ensures |s| == 10
  {
    Digits(d.year, 4) + "-" + Digits(d.month, 2) + "-" + Digits(d.day, 2)
  }

  /** datetime.strptime(s, "%Y-%m-%d").date(), restricted to the
      zero-padded form of ASCII digits: None on every other text, which
      includes every text where Python raises ValueError. */
  function ParseDate(s: string): (r: Option<Date>)
    ensures r.Some? ==> ValidDate(r.value) && FormatDate(r.value) == s
  {
    if |s| != 10 || s[4] != '-' || s[7] != '-' then None
    else
      match (Field(s, 0, 4), Field(s, 5, 7), Field(s, 8, 10))
      case (Some(y), Some(m), Some(d)) =>
        if ValidDate(Date(y, m, d)) then
          DateFormatInverse(s, y, m, d);
          Some(Date(y, m, d))
        else None
      case _ => None
  }

  lemma DateFormatInverse(s: string, y: nat, m: nat, d: nat)
    requires |s| == 10 && s[4] == '-' && s[7] == '-'
    requires Field(s, 0, 4) == Some(y) && Field(s, 5, 7) == Some(m) && Field(s, 8, 10) == Some(d)
    requires ValidDate(Date(y, m, d))
    ensures FormatDate(Date(y, m, d)) == s
  {
    ValueDigits(s[0..4]);
    ValueDigits(s[5..7]);
    ValueDigits(s[8..10]);
    assert Digits(y, 4) == s[0..4];
    assert Digits(m, 2) == s[5..7];
    assert Digits(d, 2) == s[8..10];
    assert s == s[0..4] + "-" + s[5..7] + "-" + s[8..10];
  }

  /** Formatting a valid date and parsing it back gives the date. */
  lemma ParseFormatDate(d: Date)
    requires ValidDate(d)
    ensures ParseDate(FormatDate(d)) == Some(d)
  {
    var s := FormatDate(d);
    assert s[0..4] == Digits(d.year, 4);
    assert s[5..7] == Digits(d.month, 2);
    assert s[8..10] == Digits(d.day, 2);
    DigitsValue(d.year, 4);
    DigitsValue(d.month, 2);
    DigitsValue(d.day, 2);
  }

  // ---------------------------------------------------------------------
  // Text order of the fixed-width forms follows the calendar

  function YearLength(y: int): int
  {
    if IsLeap(y) then 366 else 365
  }

  lemma DaysBeforeNextMonth(y: int, m: int)
    requires 1 <= m < 12
    ensures DaysBeforeMonth(y, m + 1) == DaysBeforeMonth(y, m) + DaysInMonth(y, m)
  {
  }

  lemma {:induction false} DaysBeforeLaterMonth(y: int, m1: int, m2: int)
    requires 1 <= m1 < m2 <= 12
    ensures DaysBeforeMonth(y, m1) + DaysInMonth(y, m1) <= DaysBeforeMonth(y, m2)
    decreases m2 - m1
  {
    DaysBeforeNextMonth(y, m1);
    if m1 + 1 < m2 {
      DaysBeforeLaterMonth(y, m1 + 1, m2);
    }
  }

  lemma {:induction false} DaysBeforeLaterYear(y1: int, y2: int)
    requires 1 <= y1 < y2
    ensures DaysBeforeYear(y1) + YearLength(y1) <= DaysBeforeYear(y2)
    decreases y2 - y1
  {
    DaysBeforeNextYear(y1);
    if y1 + 1 < y2 {
      DaysBeforeLaterYear(y1 + 1, y2);
    }
  }

  /** A day of the year falls within the year's length. */
  lemma DayOfYearBounded(d: Date)
    requires ValidDate(d)
    ensures 1 <= DaysBeforeMonth(d.year, d.month) + d.day <= YearLength(d.year)
  {
    if d.month < 12 {
      DaysBeforeLaterMonth(d.year, d.month, 12);
    }
  }

  /** Calendar order: by year, then month, then day. */
  predicate DateLe(a: Date, b: Date)
  {
    a.year < b.year || (a.year == b.year && (a.month < b.month || (a.month == b.month && a.day <= b.day)))
  }

  lemma DateLtOrdinal(a: Date, b: Date)
    requires ValidDate(a) && ValidDate(b) && DateLe(a, b) && a != b
    ensures Ordinal(a) < Ordinal(b)
  {
    DayOfYearBounded(a);
    DayOfYearBounded(b);
    if a.year < b.year {
      DaysBeforeLaterYear(a.year, b.year);
    } else if a.month < b.month {
      DaysBeforeLaterMonth(a.year, a.month, b.month);
    }
  }

  /** The day ordinal orders dates as the calendar does. */
  lemma OrdinalOrder(a: Date, b: Date)
    requires ValidDate(a) && ValidDate(b)
    ensures DateLe(a, b) <==> Ordinal(a) <= Ordinal(b)
  {
    if DateLe(a, b) && a != b {
      DateLtOrdinal(a, b);
    } else if !DateLe(a, b) {
      DateLtOrdinal(b, a);
    }
  }

  /** Zero-padded fields of one width sort as their values do. */
  lemma {:induction false} DigitsOrder(n1: nat, n2: nat, w: nat)
    requires n1 < Pow10(w) && n2 < Pow10(w)
    ensures TextLe(Digits(n1, w), Digits(n2, w)) <==> n1 <= n2
  {
    if w > 0 {
      var p1, p2 := Digits(n1 / 10, w - 1), Digits(n2 / 10, w - 1);
      var c1, c2 := DigitChar(n1 % 10), DigitChar(n2 % 10);
      DropLastDigit(n1, w);
      DropLastDigit(n2, w);
      LastDigitOrder(n1, n2);
      TextLeConcat(p1, [c1], p2, [c2]);
      DigitsOrder(n1 / 10, n2 / 10, w - 1);
      if p1 == p2 {
        DigitsValue(n1 / 10, w - 1);
        DigitsValue(n2 / 10, w - 1);
        assert n1 / 10 == n2 / 10;
        assert TextLe([c1], [c2]) <==> c1 <= c2;
      }
    }
  }

  lemma DropLastDigit(n: nat, w: nat)
    requires w > 0 && n < Pow10(w)
    ensures n / 10 < Pow10(w - 1)
  {
  }

  /** Numbers compare by all but their last decimal digit, then by it. */
  lemma LastDigitOrder(n1: nat, n2: nat)
    ensures n1 <= n2 <==> n1 / 10 < n2 / 10 || (n1 / 10 == n2 / 10 && n1 % 10 <= n2 % 10)
  {
  }

  /** Equal zero-padded fields hold equal values. */
  lemma DigitsInjective(n1: nat, n2: nat, w: nat)
    requires n1 < Pow10(w) && n2 < Pow10(w) && Digits(n1, w) == Digits(n2, w)
    ensures n1 == n2
  {
    DigitsValue(n1, w);
    DigitsValue(n2, w);
  }

  /** "%Y-%m-%d" texts sort as the dates they print. */
  lemma FormatDateOrder(a: Date, b: Date)
    requires ValidDate(a) && ValidDate(b)
    ensures TextLe(FormatDate(a), FormatDate(b)) <==> Ordinal(a) <= Ordinal(b)
  {
    var y1, y2 := Digits(a.year, 4), Digits(b.year, 4);
    var m1, m2 := Digits(a.month, 2), Digits(b.month, 2);
    var d1, d2 := Digits(a.day, 2), Digits(b.day, 2);
    assert FormatDate(a) == y1 + ("-" + (m1 + ("-" + d1)));
    assert FormatDate(b) == y2 + ("-" + (m2 + ("-" + d2)));
    TextLeConcat(y1, "-" + (m1 + ("-" + d1)), y2, "-" + (m2 + ("-" + d2)));
    TextLeConcat("-", m1 + ("-" + d1), "-", m2 + ("-" + d2));
    TextLeConcat(m1, "-" + d1, m2, "-" + d2);
    TextLeConcat("-", d1, "-", d2);
    DigitsOrder(a.year, b.year, 4);
    DigitsOrder(a.month, b.month, 2);
    DigitsOrder(a.day, b.day, 2);
    if y1 == y2 { DigitsInjective(a.year, b.year, 4); }
    if m1 == m2 { DigitsInjective(a.month, b.month, 2); }
    OrdinalOrder(a, b);
  }

  // ---------------------------------------------------------------------
  // "%Y-%m-%d %H:%M:%S"

  function FormatDateTime(t: DateTime): (s: string)
    requires ValidDateTime(t)
    ensures |s| == 19 && s[..10] == FormatDate(t.date)
  {
    FormatDate(t.date) + " " + Digits(t.hour, 2) + ":" + Digits(t.minute, 2) + ":" + Digits(t.second, 2)
  }

  /** datetime.strptime(s, "%Y-%m-%d %H:%M:%S"), restricted to the
      zero-padded form of ASCII digits with one ' ' between date and time:
      None on every other text, which includes every text where Python
      raises ValueError. A parsed timestamp prints back to exactly the
      text it came from. */
  function ParseDateTime(s: string): (r: Option<DateTime>)
    ensures r.Some? ==> ValidDateTime(r.value) && FormatDateTime(r.value) == s
  {
    if |s| != 19 || s[10] != ' ' || s[13] != ':' || s[16] != ':' then None
    else
      match (ParseDate(s[..10]), Field(s, 11, 13), Field(s, 14, 16), Field(s, 17, 19))
      case (Some(d), Some(h), Some(mi), Some(se)) =>
        if h < 24 && mi < 60 && se < 60 then
          FieldDigits(s, 11, 13, h);
          FieldDigits(s, 14, 16, mi);
          FieldDigits(s, 17, 19, se);
          DateTimeFormatInverse(s, DateTime(d, h, mi, se));
          Some(DateTime(d, h, mi, se))
        else None
      case _ => None
  }

  lemma DateTimeFormatInverse(s: string, t: DateTime)
    requires ValidDateTime(t)
    requires |s| == 19 && s[10] == ' ' && s[13] == ':' && s[16] == ':'
    requires FormatDate(t.date) == s[..10]
    requires Digits(t.hour, 2) == s[11..13] && Digits(t.minute, 2) == s[14..16] && Digits(t.second, 2) == s[17..19]
    ensures FormatDateTime(t) == s
  {
    var hh, mm, ss := Digits(t.hour, 2), Digits(t.minute, 2), Digits(t.second, 2);
    assert FormatDateTime(t) == s[..10] + (" " + (hh + (":" + (mm + (":" + ss))))) by { }
    TimeOfDayText(s, hh, mm, ss);
    assert s == s[..10] + s[10..] by { }
  }

  /** The text after the date: a space and three ':'-separated fields. */
  lemma TimeOfDayText(s: string, hh: string, mm: string, ss: string)
    requires |s| == 19 && s[10] == ' ' && s[13] == ':' && s[16] == ':'
    requires s[11..13] == hh && s[14..16] == mm && s[17..19] == ss
    ensures s[10..] == " " + (hh + (":" + (mm + (":" + ss))))
  {
    assert s[16..] == ":" + ss;
    assert s[14..] == mm + s[16..];
    assert s[13..] == ":" + s[14..];
    assert s[11..] == hh + s[13..];
    assert s[10..] == " " + s[11..];
  }

  /** A field that parses prints back, zero-padded, to its own text. */
  lemma FieldDigits(s: string, i: nat, j: nat, n: nat)
    requires i <= j <= |s| && Field(s, i, j) == Some(n)
    ensures Digits(n, j - i) == s[i..j]
  {
    ValueDigits(s[i..j]);
  }

  /** Formatting a valid timestamp and parsing it back gives the timestamp
      (strftime and strptime with the same format are inverse). */
  lemma ParseFormatDateTime(t: DateTime)
    requires ValidDateTime(t)
    ensures ParseDateTime(FormatDateTime(t)) == Some(t)
  {
    var s := FormatDateTime(t);
    ParseFormatDate(t.date);
    assert s[11..13] == Digits(t.hour, 2);
    assert s[14..16] == Digits(t.minute, 2);
    assert s[17..19] == Digits(t.second, 2);
    DigitsValue(t.hour, 2);
    DigitsValue(t.minute, 2);
    DigitsValue(t.second, 2);
  }

  /** A timestamp text has exactly one parse: the text is the format of
      what it parses to, and parses to any valid timestamp that formats to it. */
  lemma ParseDateTimeIff(s: string, t: DateTime)
    requires ValidDateTime(t)
    ensures ParseDateTime(s) == Some(t) <==> FormatDateTime(t) == s
  {
    if FormatDateTime(t) == s { ParseFormatDateTime(t); }
  }

  /** (completed - created).total_seconds() for two parsed timestamps. */
  function ElapsedSeconds(from: DateTime, to: DateTime): int
    requires ValidDateTime(from) && ValidDateTime(to)
  {
    Seconds(to) - Seconds(from)
  }
}
