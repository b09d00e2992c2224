/**
 Day counts and civil dates.

 The manager prints timestamps with constant-time div/mod formulas and parses them back with
 their inverse. Both are compared here with a calendar that steps one day at a time.
 */
module Calendar {
  import opened Basics

  datatype Date = Date(year: int, month: U32, day: U32)

  const EPOCH := Date(1970, 1, 1)

  // ---------------------------------------------------------------- reference calendar

  /** The leap rule of RFC 3339, appendix C. */
  predicate IsLeap(year: int) {
    year % 4 == 0 && (year % 100 != 0 || year % 400 == 0)
  }

  function DaysInMonth(year: int, month: U32): nat
    requires 1 <= month <= 12
  {
    if month == 2 then (if IsLeap(year) then 29 else 28)
    else if month in {4, 6, 9, 11} then 30
    else 31
  }

  predicate ValidDate(d: Date) {
    1 <= d.month <= 12 && 1 <= d.day <= DaysInMonth(d.year, d.month)
  }

  function NextDay(d: Date): (r: Date)
    requires ValidDate(d)
    ensures ValidDate(r)
  {
    if d.day < DaysInMonth(d.year, d.month) then d.(day := d.day + 1)
    else if d.month < 12 then Date(d.year, d.month + 1, 1)
    else Date(d.year + 1, 1, 1)
  }

  /** The date `n` days after 1970-01-01, by stepping the calendar `n` times. */
  function DateAfter(n: nat): (r: Date)
    ensures ValidDate(r) && r.year >= 1970
  {
    if n == 0 then EPOCH else NextDay(DateAfter(n - 1))
  }

  predicate Before(a: Date, b: Date) {
    a.year < b.year
    || (a.year == b.year && (a.month < b.month || (a.month == b.month && a.day < b.day)))
  }

  // ---------------------------------------------------------------- years that start in March

  /** Days of a 400-year era that precede its year `yoe`, years starting on 1 March. */
  function YearStart(yoe: int): int {
    365 * yoe + yoe / 4 - yoe / 100
  }

  function YearLength(yoe: int): int {
    if yoe == 399 || ((yoe + 1) % 4 == 0 && (yoe + 1) % 100 != 0) then 366 else 365
  }

  /** Days of a March-based year that precede its month `mp` (March is 0). */
  function MonthStart(mp: int): int {
    (153 * mp + 2) / 5
  }

  function YearOfEra(doe: int): int {
    (doe - doe / 1460 + doe / 36524 - doe / 146_096) / 365
  }

  lemma YearStartOnBlocks(c: int, q: int, r: int)
    requires 0 <= c <= 3 && 0 <= q <= 24 && 0 <= r <= 3
    ensures YearStart(100 * c + 4 * q + r) == 36524 * c + 1461 * q + 365 * r
  {
    assert (100 * c + 4 * q + r) / 4 == 25 * c + q;
    assert (100 * c + 4 * q + r) / 100 == c;
  }

  lemma FourYearBlocks(blocks: int, rest: int)
    requires 0 <= rest < 2920
    ensures (1460 * blocks + rest) / 1460 == blocks + if rest < 1460 then 0 else 1
  {
  }

  lemma Centuries(c: int, rest: int)
    requires 0 <= c <= 3 && 0 <= rest <= 36524 && (rest < 36524 || c == 3)
    ensures (36524 * c + rest) / 36524 - (36524 * c + rest) / 146_096 == c
  {
  }

  lemma YearsInDays(doe: int, y: int, blocks: int, centuries: int, rest: int)
    requires 0 <= rest <= 364 && doe - blocks + centuries == 365 * y + rest
    ensures (doe - blocks + centuries) / 365 == y
  {
  }

  /** Counting 4-year and 100-year blocks, the year formula undoes `YearStart`. */
  lemma YearFormulaOnBlocks(c: int, q: int, r: int, doy: int)
    requires 0 <= c <= 3 && 0 <= q <= 24 && 0 <= r <= 3
    requires 0 <= doy <= 364 || (doy == 365 && r == 3 && (q < 24 || c == 3))
    ensures YearOfEra(36524 * c + 1461 * q + 365 * r + doy) == 100 * c + 4 * q + r
  {
    var doe, extra := 36524 * c + 1461 * q + 365 * r + doy, 24 * c + q + 365 * r + doy;
    var t := if extra < 1460 then 0 else 1;
    Centuries(c, 1461 * q + 365 * r + doy);
    assert doe == 36524 * c + (1461 * q + 365 * r + doy) == 1460 * (25 * c + q) + extra;
    FourYearBlocks(25 * c + q, extra);
    YearsInDays(doe, 100 * c + 4 * q + r, doe / 1460, c, doy - t);
  }

  /** A day of an era, as centuries, 4-year blocks, years and days. */
  lemma EraBlocks(doe: int) returns (c: int, q: int, r: int, doy: int)
    requires 0 <= doe < 146_097
    ensures 0 <= c <= 3 && 0 <= q <= 24 && 0 <= r <= 3
    ensures 0 <= doy <= 364 || (doy == 365 && r == 3 && (q < 24 || c == 3))
    ensures doe == 36524 * c + 1461 * q + 365 * r + doy
  {
    c := if doe < 36524 then 0 else if doe < 73048 then 1 else if doe < 109_572 then 2 else 3;
    var inCentury := doe - 36524 * c;
    q := inCentury / 1461;
    var inBlock := inCentury - 1461 * q;
    r := if inBlock < 365 then 0 else if inBlock < 730 then 1 else if inBlock < 1095 then 2 else 3;
    doy := inBlock - 365 * r;
  }

  lemma YearLengthOnBlocks(c: int, q: int, r: int)
    requires 0 <= c <= 3 && 0 <= q <= 24 && 0 <= r <= 3
    ensures YearLength(100 * c + 4 * q + r) == if r == 3 && (q < 24 || c == 3) then 366 else 365
  {
    var next := 100 * c + 4 * q + r + 1;
    assert next % 4 == (r + 1) % 4;
    assert next % 100 == (4 * q + r + 1) % 100;
  }

  /** Every day of an era lies in the year the formula names. */
  lemma YearOfEraIsRight(doe: int)
    requires 0 <= doe < 146_097
    ensures 0 <= YearOfEra(doe) <= 399
    ensures 0 <= doe - YearStart(YearOfEra(doe)) < YearLength(YearOfEra(doe))
  {
    var c, q, r, doy := EraBlocks(doe);
    YearFormulaOnBlocks(c, q, r, doy);
    assert YearOfEra(doe) == 100 * c + 4 * q + r;
    YearStartOnBlocks(c, q, r);
    YearLengthOnBlocks(c, q, r);
  }

  /** The year is the only one whose span holds the day. */
  lemma YearOfEraUnique(doe: int, yoe: int)
    requires 0 <= doe < 146_097 && 0 <= yoe <= 399
    requires 0 <= doe - YearStart(yoe) < YearLength(yoe)
    ensures YearOfEra(doe) == yoe
  {
    var c, q, r := yoe / 100, yoe % 100 / 4, yoe % 4;
    assert yoe == 100 * c + 4 * q + r;
    YearStartOnBlocks(c, q, r);
    YearLengthOnBlocks(c, q, r);
    YearFormulaOnBlocks(c, q, r, doe - YearStart(yoe));
  }

  lemma MonthOfYearIsRight(doy: int)
    requires 0 <= doy <= 365
    ensures var mp := (5 * doy + 2) / 153;
            0 <= mp <= 11 && MonthStart(mp) <= doy < MonthStart(mp + 1)
  {
  }

  lemma MonthOfYearUnique(doy: int, mp: int)
    requires 0 <= mp <= 11 && MonthStart(mp) <= doy < MonthStart(mp + 1)
    requires 0 <= doy <= 365
    ensures (5 * doy + 2) / 153 == mp
  {
  }

  // ---------------------------------------------------------------- the formulas

  /**
   Days since 1970-01-01 to a civil date. Every intermediate that `civil_from_days` keeps in a `u32` is
   given the type `U32` here, so that an underflow or a lossy cast would be an error.
   */
  function CivilFromDays(days: I64): (r: Date)
    requires days <= I64_MAX - 719_468
  {
    var z: I64 := days + 719_468;
    var era := TruncDiv(if z >= 0 then z else z - 146_096, 146_097);
    EraHoldsDay(z);
    assert -100_000_000_000_000 <= era <= 100_000_000_000_000;
    DateInEra(era, z - era * 146_097)
  }

  /** The rest of `CivilFromDays`, for day `doe` of a 400-year era. */
  function DateInEra(era: int, doe: U32): (r: Date)
    requires -100_000_000_000_000 <= era <= 100_000_000_000_000 && doe < 146_097
  {
    YearOfEraIsRight(doe);
    var partial: U32 := doe - doe / 1460;
    var yoe: U32 := (partial + doe / 36524 - doe / 146_096) / 365;
    var y: I64 := yoe + era * 400;
    var doy: U32 := doe - (365 * yoe + yoe / 4 - yoe / 100);
    MonthOfYearIsRight(doy);
    var mp: U32 := (5 * doy + 2) / 153;
    var d: U32 := doy - (153 * mp + 2) / 5 + 1;
    var m: U32 := if mp < 10 then mp + 3 else mp - 9;
    Date(if m <= 2 then y + 1 else y, m, d)
  }

  /** Civil date to days since 1970-01-01; dates before the epoch give 0. */
  function DaysFromCivil(y: int, m: U32, d: U32): (r: nat)
    requires -0x1_0000_0000_0000 <= y <= 0x1_0000_0000_0000
    requires 1 <= m <= 12 && 1 <= d <= 31
  {
    var y' := if m <= 2 then y - 1 else y;
    var era := TruncDiv(if y' >= 0 then y' else y' - 399, 400);
    var yoe: U32 := y' - era * 400;
    var doy: U32 := (153 * (if m > 2 then m - 3 else m + 9) + 2) / 5 + d - 1;
    var doe: U32 := yoe * 365 + yoe / 4 - yoe / 100 + doy;
    var days: I64 := era * 146_097 + doe - 719_468;
    if days < 0 then 0 else days
  }

  lemma EraHoldsDay(z: int)
    ensures var era := TruncDiv(if z >= 0 then z else z - 146_096, 146_097);
            era == z / 146_097 && z - era * 146_097 == z % 146_097
  {
  }

  /** The day number of a date, years counted from March: what both formulas amount to. */
  function DayNumber(era: int, yoe: int, mp: int, d: int): int {
    era * 146_097 + YearStart(yoe) + MonthStart(mp) + d - 1 - 719_468
  }

  /** The civil date of the `d`-th day of month `mp` of year `yoe` of an era. */
  function MarchDate(era: int, yoe: nat, mp: nat, d: U32): Date
    requires mp <= 11
  {
    var m: U32 := if mp < 10 then mp + 3 else mp - 9;
    Date(if m <= 2 then yoe + era * 400 + 1 else yoe + era * 400, m, d)
  }

  function MarchMonthLength(yoe: nat, mp: nat): int
    requires mp <= 11
  {
    (if mp == 11 then YearLength(yoe) else MonthStart(mp + 1)) - MonthStart(mp)
  }

  predicate ValidMarch(yoe: nat, mp: nat, d: U32) {
    yoe <= 399 && mp <= 11 && 1 <= d <= MarchMonthLength(yoe, mp)
  }

  lemma RemaindersOverEras(y: nat, era: int)
    ensures (y + era * 400) % 4 == y % 4
    ensures (y + era * 400) % 100 == y % 100
    ensures (y + era * 400) % 400 == y % 400
  {
    assert (y + era * 400) / 4 == y / 4 + era * 100;
    assert (y + era * 400) / 100 == y / 100 + era * 4;
    assert (y + era * 400) / 400 == y / 400 + era;
  }

  /** The leap rule on March-based years: the civil year that holds February decides. */
  lemma LeapOfMarchYear(era: int, yoe: nat)
    requires yoe <= 399
    ensures IsLeap(yoe + era * 400 + 1) <==> YearLength(yoe) == 366
  {
    RemaindersOverEras(yoe + 1, era);
    assert yoe + era * 400 + 1 == yoe + 1 + era * 400;
  }

  /** Month lengths of March-based years agree with the reference calendar. */
  lemma MarchMonthIsCivilMonth(era: int, yoe: nat, mp: nat, d: U32)
    requires yoe <= 399 && mp <= 11
    ensures var date := MarchDate(era, yoe, mp, d);
            1 <= date.month <= 12 && DaysInMonth(date.year, date.month) == MarchMonthLength(yoe, mp)
  {
    if mp == 11 {
      LeapOfMarchYear(era, yoe);
    } else {
      assert MonthStart(0) == 0 && MonthStart(1) == 31 && MonthStart(2) == 61 && MonthStart(3) == 92;
      assert MonthStart(4) == 122 && MonthStart(5) == 153 && MonthStart(6) == 184 && MonthStart(7) == 214;
      assert MonthStart(8) == 245 && MonthStart(9) == 275 && MonthStart(10) == 306 && MonthStart(11) == 337;
      var m := if mp < 10 then mp + 3 else mp - 9;
      assert m != 2;
    }
  }

  lemma DayOfYearInBounds(yoe: nat, mp: nat, d: U32)
    requires ValidMarch(yoe, mp, d)
    ensures MonthStart(mp) <= MonthStart(mp) + d - 1 < MonthStart(mp + 1)
    ensures 0 <= MonthStart(mp) + d - 1 < YearLength(yoe)
  {
  }

  /** The formula, given the parts it computes on the way. */
  lemma DateOfParts(era: int, doe: U32, yoe: U32, mp: U32)
    requires -100_000_000_000_000 <= era <= 100_000_000_000_000 && doe < 146_097
    requires yoe == YearOfEra(doe)
    requires mp == (5 * (doe - YearStart(yoe)) + 2) / 153 && mp <= 11
    requires 1 <= doe - YearStart(yoe) - MonthStart(mp) + 1 <= 31
    ensures DateInEra(era, doe) == MarchDate(era, yoe, mp, doe - YearStart(yoe) - MonthStart(mp) + 1)
  {
  }

  lemma CivilOfEra(days: I64, era: int, doe: U32)
    requires days <= I64_MAX - 719_468
    requires era == (days + 719_468) / 146_097 && doe == (days + 719_468) % 146_097
    ensures -100_000_000_000_000 <= era <= 100_000_000_000_000 && doe < 146_097
    ensures CivilFromDays(days) == DateInEra(era, doe)
  {
    EraHoldsDay(days + 719_468);
  }

  /** The formula recovers the March-based date from its day number. */
  lemma CivilOfDayNumber(era: int, yoe: nat, mp: nat, d: U32)
    requires ValidMarch(yoe, mp, d)
    requires I64_MIN <= DayNumber(era, yoe, mp, d) <= I64_MAX - 719_468
    ensures CivilFromDays(DayNumber(era, yoe, mp, d)) == MarchDate(era, yoe, mp, d)
  {
    var doy := MonthStart(mp) + d - 1;
    DayOfYearInBounds(yoe, mp, d);
    YearEndsInEra(yoe);
    var doe := YearStart(yoe) + doy;
    EndsBeforeEra(yoe, doy);
    YearOfEraUnique(doe, yoe);
    MonthOfYearUnique(doy, mp);
    EraOfDay(era, doe);
    CivilOfEra(DayNumber(era, yoe, mp, d), era, doe);
    DateOfParts(era, doe, yoe, mp);
  }

  lemma EraOfDay(era: int, doe: int)
    requires 0 <= doe < 146_097
    ensures (era * 146_097 + doe) / 146_097 == era && (era * 146_097 + doe) % 146_097 == doe
  {
  }

  lemma EndsBeforeEra(yoe: nat, doy: nat)
    requires yoe <= 399 && doy < YearLength(yoe)
    ensures 0 <= YearStart(yoe) + doy < 146_097
  {
    YearEndsInEra(yoe);
  }

  lemma YearEndsInEra(yoe: nat)
    requires yoe <= 399
    ensures 0 <= YearStart(yoe)
    ensures YearStart(yoe) + YearLength(yoe) == if yoe == 399 then 146_097 else YearStart(yoe + 1)
  {
    assert (yoe + 1) / 4 == yoe / 4 + if (yoe + 1) % 4 == 0 then 1 else 0;
    assert (yoe + 1) / 100 == yoe / 100 + if (yoe + 1) % 100 == 0 then 1 else 0;
    assert (yoe + 1) % 100 == 0 ==> (yoe + 1) % 4 == 0;
  }

  /** Every day number is the day number of a March-based date. */
  lemma MarchDateOf(days: I64) returns (era: int, yoe: nat, mp: nat, d: U32)
    requires days <= I64_MAX - 719_468
    ensures ValidMarch(yoe, mp, d) && DayNumber(era, yoe, mp, d) == days
    ensures CivilFromDays(days) == MarchDate(era, yoe, mp, d)
  {
    var z := days + 719_468;
    era := z / 146_097;
    var doe := z % 146_097;
    YearOfEraIsRight(doe);
    yoe := YearOfEra(doe);
    var doy := doe - YearStart(yoe);
    MonthOfYearIsRight(doy);
    mp := (5 * doy + 2) / 153;
    d := doy - MonthStart(mp) + 1;
    CivilOfDayNumber(era, yoe, mp, d);
  }

  // ---------------------------------------------------------------- refinement of the calendar

  lemma StepInMonth(era: int, yoe: nat, mp: nat, d: U32)
    requires ValidMarch(yoe, mp, d) && d < MarchMonthLength(yoe, mp)
    ensures ValidMarch(yoe, mp, d + 1) && ValidDate(MarchDate(era, yoe, mp, d))
    ensures MarchDate(era, yoe, mp, d + 1) == NextDay(MarchDate(era, yoe, mp, d))
  {
    MarchMonthIsCivilMonth(era, yoe, mp, d);
  }

  lemma StepToNextMonth(era: int, yoe: nat, mp: nat, d: U32)
    requires ValidMarch(yoe, mp, d) && d == MarchMonthLength(yoe, mp) && mp < 11
    ensures ValidMarch(yoe, mp + 1, 1) && ValidDate(MarchDate(era, yoe, mp, d))
    ensures DayNumber(era, yoe, mp + 1, 1) == DayNumber(era, yoe, mp, d) + 1
    ensures MarchDate(era, yoe, mp + 1, 1) == NextDay(MarchDate(era, yoe, mp, d))
  {
    MarchMonthIsCivilMonth(era, yoe, mp, d);
  }

  lemma StepToNextYear(era: int, yoe: nat, d: U32) returns (era': int, yoe': nat)
    requires ValidMarch(yoe, 11, d) && d == MarchMonthLength(yoe, 11)
    ensures yoe' <= 399 && era' * 400 + yoe' == era * 400 + yoe + 1
    ensures DayNumber(era', yoe', 0, 1) == DayNumber(era, yoe, 11, d) + 1
  {
    YearEndsInEra(yoe);
    if yoe < 399 {
      return era, yoe + 1;
    } else {
      return era + 1, 0;
    }
  }

  lemma FirstOfMarch(era: int, yoe: nat, era': int, yoe': nat, d: U32)
    requires ValidMarch(yoe, 11, d) && d == MarchMonthLength(yoe, 11)
    requires yoe' <= 399 && era' * 400 + yoe' == era * 400 + yoe + 1
    ensures ValidMarch(yoe', 0, 1) && ValidDate(MarchDate(era, yoe, 11, d))
    ensures MarchDate(era', yoe', 0, 1) == NextDay(MarchDate(era, yoe, 11, d))
  {
    MarchMonthIsCivilMonth(era, yoe, 11, d);
    MarchMonthIsCivilMonth(era', yoe', 0, 1);
  }

  /** The day after a March-based date, and its day number. */
  lemma MarchSteps(era: int, yoe: nat, mp: nat, d: U32) returns (era': int, yoe': nat, mp': nat, d': U32)
    requires ValidMarch(yoe, mp, d)
    ensures ValidMarch(yoe', mp', d')
    ensures DayNumber(era', yoe', mp', d') == DayNumber(era, yoe, mp, d) + 1
    ensures ValidDate(MarchDate(era, yoe, mp, d))
    ensures MarchDate(era', yoe', mp', d') == NextDay(MarchDate(era, yoe, mp, d))
  {
    if d < MarchMonthLength(yoe, mp) {
      StepInMonth(era, yoe, mp, d);
      return era, yoe, mp, d + 1;
    } else if mp < 11 {
      StepToNextMonth(era, yoe, mp, d);
      return era, yoe, mp + 1, 1;
    } else {
      era', yoe' := StepToNextYear(era, yoe, d);
      FirstOfMarch(era, yoe, era', yoe', d);
      return era', yoe', 0, 1;
    }
  }

  /** One more day is the next date, across month ends, leap days, centuries and eras. */
  lemma CivilSteps(days: I64)
    requires days < I64_MAX - 719_468
    ensures ValidDate(CivilFromDays(days))
    ensures CivilFromDays(days + 1) == NextDay(CivilFromDays(days))
  {
    var era, yoe, mp, d := MarchDateOf(days);
    var era', yoe', mp', d' := MarchSteps(era, yoe, mp, d);
    CivilOfDayNumber(era', yoe', mp', d');
  }

  /** Stepping the calendar from the epoch reaches the March-based date with that day number. */
  lemma {:induction false} CalendarReaches(n: nat) returns (era: int, yoe: nat, mp: nat, d: U32)
    ensures ValidMarch(yoe, mp, d) && DayNumber(era, yoe, mp, d) == n
    ensures DateAfter(n) == MarchDate(era, yoe, mp, d)
  {
    if n == 0 {
      return 4, 369, 10, 1;
    }
    era, yoe, mp, d := CalendarReaches(n - 1);
    era, yoe, mp, d := MarchSteps(era, yoe, mp, d);
  }

  /** The formula is the calendar: it names the date reached by stepping `n` days from the epoch. */
  lemma CivilIsCalendar(n: nat)
    requires n <= I64_MAX - 719_468
    ensures CivilFromDays(n) == DateAfter(n)
  {
    var era, yoe, mp, d := CalendarReaches(n);
    CivilOfDayNumber(era, yoe, mp, d);
  }

  // ---------------------------------------------------------------- the inverse formula

  /** Written in March years, `DaysFromCivil` is the day number. */
  lemma DaysOfMarchDate(era: int, yoe: nat, mp: nat, d: U32)
    requires ValidMarch(yoe, mp, d)
    requires -1_000_000_000 <= era <= 1_000_000_000
    ensures var date := MarchDate(era, yoe, mp, d);
            DaysFromCivil(date.year, date.month, date.day) == Max(DayNumber(era, yoe, mp, d), 0)
  {
    TruncatedEra(era, yoe);
  }

  lemma TruncatedEra(era: int, yoe: nat)
    requires yoe <= 399
    ensures var y := yoe + era * 400;
            TruncDiv(if y >= 0 then y else y - 399, 400) == era
  {
  }

  /** `DaysFromCivil` undoes the calendar on every day from the epoch on. */
  lemma DaysOfCalendarDate(n: nat)
    requires n <= 100_000_000_000_000
    ensures var date := DateAfter(n);
            0 <= date.year <= 400_000_000_000 && date.day <= 31
            && DaysFromCivil(date.year, date.month, date.day) == n
  {
    var era, yoe, mp, d := CalendarReaches(n);
    MarchMonthIsCivilMonth(era, yoe, mp, d);
    DaysOfMarchDate(era, yoe, mp, d);
  }

  lemma MarchOfCivil(date: Date) returns (era: int, yoe: nat, mp: nat)
    requires ValidDate(date) && date.year >= 1970
    ensures ValidMarch(yoe, mp, date.day) && MarchDate(era, yoe, mp, date.day) == date
    ensures DayNumber(era, yoe, mp, date.day) >= 0 && 4 <= era <= date.year / 400
  {
    var y := if date.month <= 2 then date.year - 1 else date.year;
    era, yoe := y / 400, y % 400;
    mp := if date.month > 2 then date.month - 3 else date.month + 9;
    MarchMonthIsCivilMonth(era, yoe, mp, date.day);
    EndsBeforeEra(yoe, 0);
    assert era == 4 ==> yoe > 369 || (yoe == 369 && mp >= 10);
  }

  /** The other direction: a valid date from 1970 on is the date its day count names. */
  lemma CalendarOfDays(date: Date)
    requires ValidDate(date) && 1970 <= date.year <= 100_000_000_000
    ensures date.day <= 31
    ensures DateAfter(DaysFromCivil(date.year, date.month, date.day)) == date
  {
    var era, yoe, mp := MarchOfCivil(date);
    DaysOfMarchDate(era, yoe, mp, date.day);
    assert era <= 250_000_000;
    EndsBeforeEra(yoe, 0);
    CivilOfDayNumber(era, yoe, mp, date.day);
    CivilIsCalendar(DayNumber(era, yoe, mp, date.day));
  }

  /**
   The parser lets any day up to 31 through, whatever the month: a day past the month's end
   counts on into the next month.
   */
  lemma DaysRollOver(y: int, m: U32, d: U32)
    requires 1970 <= y <= 100_000_000_000 && 1 <= m <= 12 && 1 <= d <= 31
    ensures DaysFromCivil(y, m, d) == DaysFromCivil(y, m, 1) + d - 1
  {
    var era, yoe, mp := MarchOfCivil(Date(y, m, 1));
    DaysOfMarchDate(era, yoe, mp, 1);
  }

  // ---------------------------------------------------------------- order

  lemma {:induction false} CalendarMovesForward(n: nat, m: nat)
    requires n < m
    ensures Before(DateAfter(n), DateAfter(m))
    decreases m
  {
    assert Before(DateAfter(m - 1), NextDay(DateAfter(m - 1)));
    if n < m - 1 {
      CalendarMovesForward(n, m - 1);
    }
  }
}
