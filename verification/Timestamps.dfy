/** ISO 8601 timestamps: printing Unix seconds, parsing them back, and their order as text. */
module Timestamps {
  import opened Basics
  import opened Digits
  import opened Calendar

  /** 9999-12-31T23:59:59Z. */
  const MAX_SECS: U64 := 253_402_300_799
  const MAX_DAYS: nat := 2_932_896
  const MAX_TEXT := "9999-12-31T23:59:59Z"

  lemma LastDay(days: nat)
    requires days == MAX_DAYS
    ensures DateAfter(days) == Date(9999, 12, 31)
  {
    assert DayNumber(24, 399, 9, 31) == days;
    CivilOfDayNumber(24, 399, 9, 31);
    CivilIsCalendar(days);
  }

  lemma CalendarYearHasFourDigits(days: nat)
    requires days <= MAX_DAYS
    ensures 1970 <= DateAfter(days).year <= 9999
  {
    var last: nat := MAX_DAYS;
    LastDay(last);
    if days < last {
      CalendarMovesForward(days, last);
    }
  }

  /** Every day that can be printed falls in a four-digit year. */
  lemma YearHasFourDigits(days: nat)
    requires days <= MAX_DAYS
    ensures CivilFromDays(days) == DateAfter(days)
    ensures 1970 <= CivilFromDays(days).year <= 9999
  {
    CivilIsCalendar(days);
    CalendarYearHasFourDigits(days);
  }

  function FormatUnixTimestamp(secs: U64): string {
    if secs > MAX_SECS then MAX_TEXT
    else
      var days := secs / 86_400;
      var daySecs := secs % 86_400;
      var hours := daySecs / 3_600;
      var minutes := daySecs % 3_600 / 60;
      var seconds := daySecs % 60;
      YearHasFourDigits(days);
      var date := CivilFromDays(days);
      Padded(date.year, 4, 10, false) + "-" + Padded(date.month, 2, 10, false) + "-"
      + Padded(date.day, 2, 10, false) + "T" + Padded(hours, 2, 10, false) + ":"
      + Padded(minutes, 2, 10, false) + ":" + Padded(seconds, 2, 10, false) + "Z"
  }

  /** What `ParseU64` returns: the number if every byte is a digit, else 0. */
  function DecimalOrZero(bytes: string): nat {
    Value(bytes, 10).GetOr(0)
  }

  /** No leading digits exceed the 64-bit range, so the accumulation cannot overflow. */
  ghost predicate FitsU64(bytes: string) {
    forall i :: 0 <= i <= |bytes| && Value(bytes[..i], 10).Some? ==> Value(bytes[..i], 10).value <= U64_MAX
  }

  lemma NineteenDigitsFit(bytes: string)
    requires |bytes| <= 19
    ensures FitsU64(bytes)
  {
    forall i | 0 <= i <= |bytes| && Value(bytes[..i], 10).Some?
      ensures Value(bytes[..i], 10).value <= U64_MAX
    {
      ValueBelowPow(bytes[..i]);
      PowGrows(i, 19);
    }
  }

  /** The accumulating loop of `parse_u64`. */
  method ParseU64(bytes: string) returns (result: U64)
    requires FitsU64(bytes)
    ensures result == DecimalOrZero(bytes)
  {
    result := 0;
    for i := 0 to |bytes|
      invariant Value(bytes[..i], 10) == Some(result)
    {
      assert bytes[..i + 1] == bytes[..i] + [bytes[i]];
      ValueSnoc(bytes[..i], bytes[i], 10);
      if !('0' <= bytes[i] <= '9') {
        ValueNeedsDigits(bytes, i);
        return 0;
      }
      assert Value(bytes[..i + 1], 10).value <= U64_MAX;
      result := result * 10 + (bytes[i] - '0') as nat;
    }
    assert bytes[..|bytes|] == bytes;
  }

  lemma {:induction false} ValueNeedsDigits(s: string, i: nat)
    requires i < |s| && DigitValue(s[i], 10).None?
    ensures Value(s, 10) == None
  {
    if i < |s| - 1 {
      ValueNeedsDigits(s[..|s| - 1], i);
    }
  }

  lemma {:induction false} ValueBelowPow(s: string)
    ensures Value(s, 10).Some? ==> Value(s, 10).value < Pow(10, |s|)
  {
    if s != "" {
      ValueBelowPow(s[..|s| - 1]);
    }
  }

  lemma {:induction false} PowGrows(i: nat, j: nat)
    requires i <= j <= 19
    ensures Pow(10, i) <= Pow(10, j) <= 10_000_000_000_000_000_000
  {
    if i < j {
      PowGrows(i, j - 1);
    }
    assert Pow(10, 4) == 10_000;
    assert Pow(10, 8) == 100_000_000;
    assert Pow(10, 12) == 1_000_000_000_000;
    assert Pow(10, 16) == 10_000_000_000_000_000;
    assert Pow(10, 19) == 10_000_000_000_000_000_000;
  }

  /** Parses "YYYY-MM-DDThh:mm:ssZ"; 0 when absent, malformed or before 1970. */
  function ParseIsoTimestamp(s: Option<string>): U64 {
    if s.None? || |s.value| != 20 || s.value[19] != 'Z' then 0
    else
      var b := s.value;
      var year := DecimalOrZero(b[0..4]);
      var month := DecimalOrZero(b[5..7]);
      var day := DecimalOrZero(b[8..10]);
      var hour := DecimalOrZero(b[11..13]);
      var min := DecimalOrZero(b[14..16]);
      var sec := DecimalOrZero(b[17..19]);
      if year < 1970 || month == 0 || day == 0 then 0
      else if month > 12 || day > 31 then 0
      else if hour >= 24 || min >= 60 || sec >= 60 then 0
      else (
        ValueBelowPow(b[0..4]);
        assert Pow(10, 4) == 10_000;
        DaysAreSmall(year, month, day);
        DaysFromCivil(year, month, day) * 86_400 + hour * 3_600 + min * 60 + sec)
  }

  /** The parser as it runs, column by column. */
  method ParseTimestamp(s: Option<string>) returns (secs: U64)
    ensures secs == ParseIsoTimestamp(s)
  {
    if s.None? || |s.value| != 20 || s.value[19] != 'Z' {
      return 0;
    }
    var b := s.value;
    NineteenDigitsFit(b[0..4]);
    var year := ParseU64(b[0..4]);
    NineteenDigitsFit(b[5..7]);
    var month := ParseU64(b[5..7]);
    NineteenDigitsFit(b[8..10]);
    var day := ParseU64(b[8..10]);
    NineteenDigitsFit(b[11..13]);
    var hour := ParseU64(b[11..13]);
    NineteenDigitsFit(b[14..16]);
    var min := ParseU64(b[14..16]);
    NineteenDigitsFit(b[17..19]);
    var sec := ParseU64(b[17..19]);
    if year < 1970 || month == 0 || day == 0 {
      return 0;
    }
    if month > 12 || day > 31 {
      return 0;
    }
    if hour >= 24 || min >= 60 || sec >= 60 {
      return 0;
    }
    ValueBelowPow(b[0..4]);
    assert Pow(10, 4) == 10_000;
    DaysAreSmall(year, month, day);
    secs := DaysFromCivil(year, month, day) * 86_400 + hour * 3_600 + min * 60 + sec;
  }

  lemma DaysAreSmall(y: nat, m: U32, d: U32)
    requires 1970 <= y <= 9999 && 1 <= m <= 12 && 1 <= d <= 31
    ensures DaysFromCivil(y, m, d) <= 4_000_000
  {
  }

  // ---------------------------------------------------------------- the printed text

  /** The calendar fields of a timestamp. */
  datatype Fields = Fields(date: Date, hour: nat, minute: nat, second: nat)

  predicate ValidFields(f: Fields) {
    ValidDate(f.date) && 0 <= f.date.year <= 9999 && f.hour < 24 && f.minute < 60 && f.second < 60
  }

  function FieldsOf(secs: nat): Fields {
    Fields(DateAfter(secs / 86_400), secs % 86_400 / 3_600, secs % 86_400 % 3_600 / 60, secs % 86_400 % 60)
  }

  function TwoDigits(n: nat): string {
    Fixed(n, 2, 10, false)
  }

  function Layout(f: Fields): string
    requires f.date.year >= 0
  {
    Fixed(f.date.year, 4, 10, false) + ("-" + (TwoDigits(f.date.month) + ("-" + (TwoDigits(f.date.day)
    + ("T" + (TwoDigits(f.hour) + (":" + (TwoDigits(f.minute) + (":" + (TwoDigits(f.second) + "Z"))))))))))
  }

  lemma FieldsAreValid(secs: nat)
    requires secs <= MAX_SECS
    ensures ValidFields(FieldsOf(secs)) && secs / 86_400 <= MAX_DAYS
    ensures FieldsOf(secs).date.year >= 1970
  {
    CalendarYearHasFourDigits(secs / 86_400);
  }

  lemma TwoDigitsFit(n: nat)
    requires n < 100
    ensures Padded(n, 2, 10, false) == TwoDigits(n)
    ensures DecimalOrZero(TwoDigits(n)) == n && |TwoDigits(n)| == 2
  {
    assert Pow(10, 2) == 100;
    PaddedIsFixed(n, 2, 10, false);
    ValueOfFixed(n, 2, 10, false);
  }

  lemma FourDigitsFit(n: nat)
    requires n < 10_000
    ensures Padded(n, 4, 10, false) == Fixed(n, 4, 10, false)
    ensures DecimalOrZero(Fixed(n, 4, 10, false)) == n && |Fixed(n, 4, 10, false)| == 4
  {
    assert Pow(10, 4) == 10_000;
    PaddedIsFixed(n, 4, 10, false);
    ValueOfFixed(n, 4, 10, false);
  }

  lemma ConcatLayout(y: string, mo: string, d: string, h: string, mi: string, se: string)
    ensures y + "-" + mo + "-" + d + "T" + h + ":" + mi + ":" + se + "Z"
            == y + ("-" + (mo + ("-" + (d + ("T" + (h + (":" + (mi + (":" + (se + "Z"))))))))))
  {
  }

  lemma PaddedLayout(f: Fields)
    requires ValidFields(f)
    ensures Padded(f.date.year, 4, 10, false) + "-" + Padded(f.date.month, 2, 10, false) + "-"
            + Padded(f.date.day, 2, 10, false) + "T" + Padded(f.hour, 2, 10, false) + ":"
            + Padded(f.minute, 2, 10, false) + ":" + Padded(f.second, 2, 10, false) + "Z" == Layout(f)
  {
    FourDigitsFit(f.date.year);
    TwoDigitsFit(f.date.month);
    TwoDigitsFit(f.date.day);
    TwoDigitsFit(f.hour);
    TwoDigitsFit(f.minute);
    TwoDigitsFit(f.second);
    ConcatLayout(Fixed(f.date.year, 4, 10, false), TwoDigits(f.date.month), TwoDigits(f.date.day),
                 TwoDigits(f.hour), TwoDigits(f.minute), TwoDigits(f.second));
  }

  lemma LayoutOfLastSecond(f: Fields)
    requires f == Fields(Date(9999, 12, 31), 23, 59, 59)
    ensures Layout(f) == MAX_TEXT
  {
    LastSecondDigits();
    MaxTextColumns();
  }

  lemma MaxTextColumns()
    ensures "9999" + ("-" + ("12" + ("-" + ("31" + ("T" + ("23" + (":" + ("59" + (":" + ("59" + "Z")))))))))) == MAX_TEXT
  {
    assert "31" + ("T" + ("23" + (":" + ("59" + (":" + ("59" + "Z")))))) == "31T23:59:59Z";
  }

  lemma LastSecondDigits()
    ensures Fixed(9999, 4, 10, false) == "9999"
    ensures TwoDigits(12) == "12" && TwoDigits(31) == "31" && TwoDigits(23) == "23" && TwoDigits(59) == "59"
  {
    assert Fixed(99, 2, 10, false) == "99";
    assert Fixed(999, 3, 10, false) == "999";
  }

  lemma FormatOfFields(secs: U64, f: Fields)
    requires secs <= MAX_SECS && ValidFields(f) && secs / 86_400 <= MAX_DAYS
    requires f.date == CivilFromDays(secs / 86_400)
    requires f.hour == secs % 86_400 / 3_600 && f.minute == secs % 86_400 % 3_600 / 60
    requires f.second == secs % 86_400 % 60
    ensures FormatUnixTimestamp(secs) == Layout(f)
  {
    PaddedLayout(f);
  }

  lemma LastSecondParts(secs: nat)
    requires secs == MAX_SECS
    ensures secs / 86_400 == MAX_DAYS
    ensures secs % 86_400 / 3_600 == 23 && secs % 86_400 % 3_600 / 60 == 59 && secs % 86_400 % 60 == 59
  {
  }

  lemma FieldsOfLastSecond(secs: nat)
    requires secs == MAX_SECS
    ensures FieldsOf(secs) == Fields(Date(9999, 12, 31), 23, 59, 59)
  {
    LastSecondParts(secs);
    var days := secs / 86_400;
    LastDay(days);
  }

  /** What is printed is the reference calendar's date and the time of day, in fixed columns. */
  lemma FormatIsLayout(secs: U64)
    ensures FormatUnixTimestamp(secs) == Layout(FieldsOf(Min(secs, MAX_SECS)))
  {
    if secs <= MAX_SECS {
      FieldsAreValid(secs);
      YearHasFourDigits(secs / 86_400);
      FormatOfFields(secs, FieldsOf(secs));
    } else {
      FieldsOfLastSecond(Min(secs, MAX_SECS));
      LayoutOfLastSecond(FieldsOf(Min(secs, MAX_SECS)));
    }
  }

  /** The columns `ParseIsoTimestamp` reads hold the fields `Layout` wrote. */
  lemma LayoutColumns(f: Fields)
    requires ValidFields(f)
    ensures var b := Layout(f);
            |b| == 20 && b[19] == 'Z'
            && DecimalOrZero(b[0..4]) == f.date.year && DecimalOrZero(b[5..7]) == f.date.month
            && DecimalOrZero(b[8..10]) == f.date.day && DecimalOrZero(b[11..13]) == f.hour
            && DecimalOrZero(b[14..16]) == f.minute && DecimalOrZero(b[17..19]) == f.second
  {
    FourDigitsFit(f.date.year);
    TwoDigitsFit(f.date.month);
    TwoDigitsFit(f.date.day);
    TwoDigitsFit(f.hour);
    TwoDigitsFit(f.minute);
    TwoDigitsFit(f.second);
    Columns(Fixed(f.date.year, 4, 10, false), TwoDigits(f.date.month), TwoDigits(f.date.day),
            TwoDigits(f.hour), TwoDigits(f.minute), TwoDigits(f.second));
  }

  /** A column of `b`, and what follows its separator. */
  lemma NextColumn(b: string, i: nat, column: string, separator: char, rest: string)
    requires i <= |b| && b[i..] == column + ([separator] + rest)
    ensures |b| == i + |column| + 1 + |rest|
    ensures b[i..i + |column|] == column && b[i + |column| + 1..] == rest
  {
    assert b[i..][..|column|] == column;
    assert b[i..][|column| + 1..] == rest;
  }

  lemma Columns(y: string, mo: string, d: string, h: string, mi: string, se: string)
    requires |y| == 4 && |mo| == |d| == |h| == |mi| == |se| == 2
    ensures var b := y + ("-" + (mo + ("-" + (d + ("T" + (h + (":" + (mi + (":" + (se + "Z"))))))))));
            |b| == 20 && b[19] == 'Z' && b[0..4] == y && b[5..7] == mo && b[8..10] == d
            && b[11..13] == h && b[14..16] == mi && b[17..19] == se
  {
    var fromSecond := se + "Z";
    var fromMinute := mi + (":" + fromSecond);
    var fromHour := h + (":" + fromMinute);
    var fromDay := d + ("T" + fromHour);
    var fromMonth := mo + ("-" + fromDay);
    var b := y + ("-" + fromMonth);
    assert b[0..] == b;
    NextColumn(b, 0, y, '-', fromMonth);
    NextColumn(b, 5, mo, '-', fromDay);
    NextColumn(b, 8, d, 'T', fromHour);
    NextColumn(b, 11, h, ':', fromMinute);
    NextColumn(b, 14, mi, ':', fromSecond);
    assert fromSecond == se + (['Z'] + "");
    NextColumn(b, 17, se, 'Z', "");
    assert b[19] == b[17..][2];
  }

  // ---------------------------------------------------------------- round trip and order

  lemma ParseOfLayout(f: Fields)
    requires ValidFields(f) && f.date.year >= 1970
    ensures f.date.day <= 31
    ensures |Layout(f)| == 20
    ensures ParseIsoTimestamp(Some(Layout(f)))
            == DaysFromCivil(f.date.year, f.date.month, f.date.day) * 86_400
               + f.hour * 3_600 + f.minute * 60 + f.second
  {
    LayoutColumns(f);
  }

  lemma SecondsOfFields(s: nat)
    requires s <= MAX_SECS
    ensures var f := FieldsOf(s);
            f.date.day <= 31 && f.date.year <= 9999
            && DaysFromCivil(f.date.year, f.date.month, f.date.day) * 86_400
               + f.hour * 3_600 + f.minute * 60 + f.second == s
  {
    FieldsAreValid(s);
    DaysOfCalendarDate(s / 86_400);
    TimeOfDay(s % 86_400);
  }

  lemma TimeOfDay(t: nat)
    requires t < 86_400
    ensures t / 3_600 * 3_600 + t % 3_600 / 60 * 60 + t % 60 == t
  {
  }

  /** Printing then parsing gives the time back, clamped to the last second of year 9999. */
  lemma ParseOfFormat(secs: U64)
    ensures |FormatUnixTimestamp(secs)| == 20
    ensures ParseIsoTimestamp(Some(FormatUnixTimestamp(secs))) == Min(secs, MAX_SECS)
  {
    var s := Min(secs, MAX_SECS);
    var f := FieldsOf(s);
    FormatIsLayout(secs);
    FieldsAreValid(s);
    ParseOfLayout(f);
    SecondsOfFields(s);
  }

  /** The fields of the second that valid fields denote are those fields. */
  lemma FieldsOfSeconds(f: Fields)
    requires ValidFields(f) && f.date.year >= 1970 && f.date.day <= 31
    ensures var days := DaysFromCivil(f.date.year, f.date.month, f.date.day);
            var secs := days * 86_400 + f.hour * 3_600 + f.minute * 60 + f.second;
            secs <= MAX_SECS && FieldsOf(secs) == f
  {
    var days := DaysFromCivil(f.date.year, f.date.month, f.date.day);
    CalendarOfDays(f.date);
    LastDateIsMaxDay(f.date, days);
    TimeParts(days, f.hour, f.minute, f.second);
  }

  lemma LastDateIsMaxDay(date: Date, days: nat)
    requires DateAfter(days) == date && date.year <= 9999
    ensures days <= MAX_DAYS
  {
    var last: nat := MAX_DAYS;
    LastDay(last);
    assert date.month <= 12 && date.day <= 31;
    if last < days {
      CalendarMovesForward(last, days);
    }
  }

  lemma TimeParts(days: nat, hour: nat, minute: nat, second: nat)
    requires days <= MAX_DAYS && hour < 24 && minute < 60 && second < 60
    ensures var secs := days * 86_400 + hour * 3_600 + minute * 60 + second;
            && secs <= MAX_SECS && secs / 86_400 == days
            && secs % 86_400 / 3_600 == hour && secs % 86_400 % 3_600 / 60 == minute
            && secs % 86_400 % 60 == second
  {
    var time := hour * 3_600 + minute * 60 + second;
    assert (days * 86_400 + time) / 86_400 == days && (days * 86_400 + time) % 86_400 == time;
    assert time / 3_600 == hour && time % 3_600 == minute * 60 + second;
    assert time % 60 == second;
  }

  /** A text in the fixed layout, of a date that exists, from 1970 on. */
  ghost predicate IsTimestamp(t: string) {
    exists f :: ValidFields(f) && f.date.year >= 1970 && t == Layout(f)
  }

  /**
   Parsing then printing gives the text back exactly for texts in the layout. The parser itself
   lets more through: it reads no separator but the last, and any day up to 31 in any month.
   */
  lemma FormatOfParse(t: string)
    ensures FormatUnixTimestamp(ParseIsoTimestamp(Some(t))) == t <==> IsTimestamp(t)
  {
    var secs := ParseIsoTimestamp(Some(t));
    FormatIsLayout(secs);
    FieldsAreValid(Min(secs, MAX_SECS));
    if IsTimestamp(t) {
      var f :| ValidFields(f) && f.date.year >= 1970 && t == Layout(f);
      ParseOfLayout(f);
      FieldsOfSeconds(f);
    }
  }

  predicate FieldsBefore(a: Fields, b: Fields) {
    Before(a.date, b.date) || (a.date == b.date && (a.hour < b.hour
    || (a.hour == b.hour && (a.minute < b.minute || (a.minute == b.minute && a.second < b.second)))))
  }

  lemma TimeOfDayMovesForward(s: nat, t: nat)
    requires s < t < 86_400
    ensures s / 3_600 < t / 3_600 || (s / 3_600 == t / 3_600
            && (s % 3_600 / 60 < t % 3_600 / 60 || (s % 3_600 / 60 == t % 3_600 / 60 && s % 60 < t % 60)))
  {
    TimeOfDay(s);
    TimeOfDay(t);
  }

  lemma FieldsMoveForward(s: nat, t: nat)
    requires s < t
    ensures FieldsBefore(FieldsOf(s), FieldsOf(t))
  {
    if s / 86_400 < t / 86_400 {
      CalendarMovesForward(s / 86_400, t / 86_400);
    } else {
      assert s / 86_400 == t / 86_400 && s % 86_400 < t % 86_400;
      TimeOfDayMovesForward(s % 86_400, t % 86_400);
    }
  }

  lemma ColumnOrder(m: nat, n: nat, a: string, b: string)
    requires m < 100 && n < 100
    ensures LexLess(TwoDigits(m) + a, TwoDigits(n) + b) <==> m < n || (m == n && LexLess(a, b))
  {
    assert Pow(10, 2) == 100;
    FixedOrder(m, n, 2, 10, false);
    LexLessOfConcat(TwoDigits(m), a, TwoDigits(n), b);
  }

  lemma SeparatorOrder(c: string, a: string, b: string)
    requires |c| == 1
    ensures LexLess(c + a, c + b) <==> LexLess(a, b)
  {
    LexLessOfConcat(c, a, c, b);
    assert !LexLess(c, c);
  }

  lemma TimeOrder(a: Fields, b: Fields)
    requires ValidFields(a) && ValidFields(b)
    ensures var ta := TwoDigits(a.hour) + (":" + (TwoDigits(a.minute) + (":" + (TwoDigits(a.second) + "Z"))));
            var tb := TwoDigits(b.hour) + (":" + (TwoDigits(b.minute) + (":" + (TwoDigits(b.second) + "Z"))));
            LexLess(ta, tb) <==> (a.hour < b.hour
            || (a.hour == b.hour && (a.minute < b.minute || (a.minute == b.minute && a.second < b.second))))
  {
    var a1, b1 := TwoDigits(a.second) + "Z", TwoDigits(b.second) + "Z";
    ColumnOrder(a.second, b.second, "Z", "Z");
    assert !LexLess("Z", "Z");
    SeparatorOrder(":", a1, b1);
    var a2, b2 := TwoDigits(a.minute) + (":" + a1), TwoDigits(b.minute) + (":" + b1);
    ColumnOrder(a.minute, b.minute, ":" + a1, ":" + b1);
    SeparatorOrder(":", a2, b2);
    ColumnOrder(a.hour, b.hour, ":" + a2, ":" + b2);
  }

  lemma LayoutOrder(a: Fields, b: Fields)
    requires ValidFields(a) && ValidFields(b)
    ensures LexLess(Layout(a), Layout(b)) <==> FieldsBefore(a, b)
  {
    var a3 := TwoDigits(a.hour) + (":" + (TwoDigits(a.minute) + (":" + (TwoDigits(a.second) + "Z"))));
    var b3 := TwoDigits(b.hour) + (":" + (TwoDigits(b.minute) + (":" + (TwoDigits(b.second) + "Z"))));
    TimeOrder(a, b);
    SeparatorOrder("T", a3, b3);
    var a4, b4 := TwoDigits(a.date.day) + ("T" + a3), TwoDigits(b.date.day) + ("T" + b3);
    ColumnOrder(a.date.day, b.date.day, "T" + a3, "T" + b3);
    SeparatorOrder("-", a4, b4);
    var a5, b5 := TwoDigits(a.date.month) + ("-" + a4), TwoDigits(b.date.month) + ("-" + b4);
    ColumnOrder(a.date.month, b.date.month, "-" + a4, "-" + b4);
    SeparatorOrder("-", a5, b5);
    assert Pow(10, 4) == 10_000;
    FixedOrder(a.date.year, b.date.year, 4, 10, false);
    LexLessOfConcat(Fixed(a.date.year, 4, 10, false), "-" + a5, Fixed(b.date.year, 4, 10, false), "-" + b5);
  }

  lemma FieldsOrder(s: nat, t: nat)
    requires s <= MAX_SECS && t <= MAX_SECS
    ensures LexLess(Layout(FieldsOf(s)), Layout(FieldsOf(t))) <==> s < t
  {
    FieldsAreValid(s);
    FieldsAreValid(t);
    LayoutOrder(FieldsOf(s), FieldsOf(t));
    if s < t {
      FieldsMoveForward(s, t);
    } else if t < s {
      FieldsMoveForward(t, s);
    }
  }

  /** Timestamps sort as text exactly as they do in time. */
  lemma FormatOrder(s: U64, t: U64)
    requires s <= MAX_SECS && t <= MAX_SECS
    ensures LexLess(FormatUnixTimestamp(s), FormatUnixTimestamp(t)) <==> s < t
  {
    FormatIsLayout(s);
    FormatIsLayout(t);
    FieldsOrder(s, t);
  }
}
