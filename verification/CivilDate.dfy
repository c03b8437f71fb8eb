/** The certificate-validity date function is the Gregorian calendar (the calendar of the
    UTCTime and GeneralizedTime values in section 4.1.2.5 of RFC 5280). */
module CivilDate {
  datatype Date = Date(year: int, month: int, day: int)

  // ----- the calendar, independently of the algorithm -----

  predicate IsLeap(year: int) {
    year % 4 == 0 && (year % 100 != 0 || year % 400 == 0)
  }

  function DaysInMonth(year: int, month: int): int {
    if month == 2 then (if IsLeap(year) then 29 else 28)
    else if month == 4 || month == 6 || month == 9 || month == 11 then 30
    else 31
  }

  predicate ValidDate(d: Date) {
    1 <= d.month <= 12 && 1 <= d.day <= DaysInMonth(d.year, d.month)
  }

  function NextDay(d: Date): Date {
    if d.day < DaysInMonth(d.year, d.month) then Date(d.year, d.month, d.day + 1)
    else if d.month < 12 then Date(d.year, d.month + 1, 1)
    else Date(d.year + 1, 1, 1)
  }

  const EPOCH := Date(1970, 1, 1)

  /** The date `n` days after the epoch, by counting days. */
  function DaysLater(n: nat): Date {
    if n == 0 then EPOCH else NextDay(DaysLater(n - 1))
  }

  // ----- the source's arithmetic -----

  /** Division truncating toward zero, by a positive divisor. */
  function TruncDiv(a: int, b: int): int
    requires b > 0
  {
    if a >= 0 then a / b else -((-a) / b)
  }

  function YearOfEra(doe: int): int {
    (doe - doe / 1_460 + doe / 36_524 - doe / 146_096) / 365
  }

  function MonthStart(mp: int): int {
    (153 * mp + 2) / 5
  }

  function MonthOf(dayOfYear: int): int {
    (5 * dayOfYear + 2) / 153
  }

  /** Day `dayOfYear` of the year that begins on 1 March of `year`. */
  function FromMarch(year: int, dayOfYear: int): Date {
    var mp := MonthOf(dayOfYear);
    var day := dayOfYear - MonthStart(mp) + 1;
    var month := mp + if mp < 10 then 3 else -9;
    Date(year + (if month <= 2 then 1 else 0), month, day)
  }

  /** Day `doe` of era `era`. */
  function FromEraDay(era: int, doe: int): Date {
    var yoe := YearOfEra(doe);
    var dayOfYear := doe - (365 * yoe + yoe / 4 - yoe / 100);
    FromMarch(yoe + era * 400, dayOfYear)
  }

  function CivilFromDays(unixDays: int): Date {
    var z := unixDays + 719_468;
    var era := TruncDiv(if z >= 0 then z else z - 146_096, 146_097);
    FromEraDay(era, z - era * 146_097)
  }

  // ----- years of an era, which begin on 1 March -----

  /** Days of the era before its year `y`, by adding up year lengths. */
  function YearStart(y: nat): nat {
    if y == 0 then 0 else YearStart(y - 1) + YearLength(y - 1)
  }

  function YearLength(y: int): nat {
    if IsLeap(y + 1) then 366 else 365
  }

  /** The year of the era a day falls in, by walking through the years. */
  function YearAt(doe: nat, y: nat): nat
    requires YearStart(y) <= doe
    decreases doe - YearStart(y)
  {
    if doe < YearStart(y + 1) then y else YearAt(doe, y + 1)
  }

  lemma {:induction false} YearStartClosedForm(y: nat)
    ensures YearStart(y) == 365 * y + y / 4 - y / 100 + y / 400
  {
    if y > 0 {
      YearStartClosedForm(y - 1);
      LeapCount(y);
    }
  }

  /** The three quotients count the leap years one at a time. */
  lemma LeapCount(y: nat)
    requires y > 0
    ensures y / 4 - y / 100 + y / 400 ==
      (y - 1) / 4 - (y - 1) / 100 + (y - 1) / 400 + (if IsLeap(y) then 1 else 0)
  {
    var x := y - 1;
    assert y / 4 == x / 4 + (if y % 4 == 0 then 1 else 0);
    assert y / 100 == x / 100 + (if y % 100 == 0 then 1 else 0);
    assert y / 400 == x / 400 + (if y % 400 == 0 then 1 else 0);
    MultipleOf(y);
  }

  lemma MultipleOf(y: int)
    ensures y % 400 == 0 ==> y % 100 == 0
    ensures y % 100 == 0 ==> y % 4 == 0
  {
    if y % 400 == 0 { TimesHundred(4 * (y / 400)); }
    if y % 100 == 0 { TimesFour(25 * (y / 100)); }
  }

  lemma TimesHundred(q: int)
    ensures (100 * q) % 100 == 0
  {
  }

  lemma TimesFour(q: int)
    ensures (4 * q) % 4 == 0
  {
  }

  lemma {:induction false} YearAtUnique(doe: nat, start: nat, y: nat)
    requires start <= y && YearStart(start) <= doe && YearStart(y) <= doe < YearStart(y + 1)
    ensures YearAt(doe, start) == y
    decreases y - start
  {
    if start < y {
      YearStartGrows(start + 1, y);
      YearAtUnique(doe, start + 1, y);
    }
  }

  lemma {:induction false} YearStartGrows(a: nat, b: nat)
    requires a <= b
    ensures YearStart(a) + 365 * (b - a) <= YearStart(b)
    decreases b - a
  {
    if a < b { YearStartGrows(a + 1, b); }
  }

  lemma {:induction false} YearAtBounds(doe: nat, y: nat)
    requires YearStart(y) <= doe
    ensures YearStart(YearAt(doe, y)) <= doe < YearStart(YearAt(doe, y) + 1)
    decreases doe - YearStart(y)
  {
    if doe >= YearStart(y + 1) { YearAtBounds(doe, y + 1); }
  }

  function YearOn(doe: nat): (y: nat)
    ensures YearStart(y) <= doe < YearStart(y + 1)
  {
    YearAtBounds(doe, 0);
    YearAt(doe, 0)
  }

  lemma YearOnUnique(doe: nat, y: nat)
    requires YearStart(y) <= doe < YearStart(y + 1)
    ensures YearOn(doe) == y
  {
    YearAtUnique(doe, 0, y);
  }

  /** A day of an era in mixed radix: centuries, four-year cycles, years, days. */
  lemma YearOfEraDigits(doe: int, c: int, q: int, r: int, d: int)
    requires 0 <= c <= 3 && 0 <= q <= 24 && 0 <= r <= 3 && 0 <= d <= 365
    requires doe == 36_524 * c + 1_461 * q + 365 * r + d
    requires d == 365 ==> r == 3 && (q < 24 || c == 3)
    ensures YearOfEra(doe) == 100 * c + 4 * q + r
  {
    var e := if 24 * c + q + 365 * r + d >= 1_460 then 1 else 0;
    assert doe / 1_460 == 25 * c + q + e;
    assert doe / 36_524 - doe / 146_096 == c;
    assert 0 <= d - e < 365;
  }

  lemma YearStartDigits(doe: int, c: int, q: int, r: int, d: int)
    requires 0 <= c <= 3 && 0 <= q <= 24 && 0 <= r <= 3 && 0 <= d <= 365
    requires doe == 36_524 * c + 1_461 * q + 365 * r + d
    requires d == 365 ==> r == 3 && (q < 24 || c == 3)
    ensures YearStart(100 * c + 4 * q + r) <= doe < YearStart(100 * c + 4 * q + r + 1)
  {
    hide YearStart;
    var y := 100 * c + 4 * q + r;
    YearStartClosedForm(y);
    YearStartClosedForm(y + 1);
    assert y / 100 == c && y / 4 == 25 * c + q && y / 400 == 0;
    assert (y + 1) / 4 == 25 * c + q + (if r == 3 then 1 else 0);
    assert (y + 1) / 100 == c + (if r == 3 && q == 24 then 1 else 0);
    assert (y + 1) / 400 == (if r == 3 && q == 24 && c == 3 then 1 else 0);
  }

  /** The closed formula finds the year that walking finds. */
  lemma YearOfEraIsYearOn(doe: nat)
    requires doe < 146_097
    ensures YearOfEra(doe) == YearOn(doe) < 400
  {
    var c := if doe / 36_524 <= 3 then doe / 36_524 else 3;
    var r1 := doe - 36_524 * c;
    var q := r1 / 1_461;
    var r2 := r1 - 1_461 * q;
    var r := if r2 / 365 <= 3 then r2 / 365 else 3;
    YearOfEraDigits(doe, c, q, r, r2 - 365 * r);
    YearStartDigits(doe, c, q, r, r2 - 365 * r);
    YearOnUnique(doe, 100 * c + 4 * q + r);
  }

  lemma EraDays()
    ensures YearStart(400) == 146_097
  {
    YearStartClosedForm(400);
  }

  // ----- months of a year that begins on 1 March -----

  lemma MonthBounds(dayOfYear: int)
    requires 0 <= dayOfYear < 366
    ensures 0 <= MonthOf(dayOfYear) <= 11
    ensures MonthStart(MonthOf(dayOfYear)) <= dayOfYear < MonthStart(MonthOf(dayOfYear) + 1)
  {
  }

  lemma MonthUnique(dayOfYear: int, mp: int)
    requires 0 <= dayOfYear < 366 && 0 <= mp <= 11 && MonthStart(mp) <= dayOfYear < MonthStart(mp + 1)
    ensures MonthOf(dayOfYear) == mp
  {
    MonthBounds(dayOfYear);
  }

  function MonthNumber(mp: int): int {
    mp + if mp < 10 then 3 else -9
  }

  lemma MonthLengths(year: int, mp: int)
    requires 0 <= mp <= 10
    ensures MonthStart(mp + 1) - MonthStart(mp) == DaysInMonth(year, MonthNumber(mp))
  {
  }

  /** The day after, inside a year beginning on 1 March. */
  lemma FromMarchStep(year: int, dayOfYear: nat)
    requires dayOfYear + 1 < YearLength(year)
    ensures ValidDate(FromMarch(year, dayOfYear))
    ensures FromMarch(year, dayOfYear + 1) == NextDay(FromMarch(year, dayOfYear))
  {
    MonthBounds(dayOfYear);
    var mp := MonthOf(dayOfYear);
    var d := FromMarch(year, dayOfYear);
    if mp <= 10 { MonthLengths(d.year, mp); }
    if dayOfYear + 1 < MonthStart(mp + 1) {
      MonthUnique(dayOfYear + 1, mp);
    } else {
      MonthUnique(dayOfYear + 1, mp + 1);
    }
  }

  lemma FromMarchEnd(year: int)
    ensures ValidDate(FromMarch(year, YearLength(year) - 1))
    ensures FromMarch(year + 1, 0) == NextDay(FromMarch(year, YearLength(year) - 1))
  {
  }

  // ----- the whole function -----

  datatype Position = Position(era: int, year: nat, day: nat)

  /** Era, year of the era and day of that year of a day count, by the calendar. */
  function Locate(unixDays: int): Position {
    var z := unixDays + 719_468;
    var doe := z % 146_097;
    var year := YearOn(doe);
    Position(z / 146_097, year, doe - YearStart(year))
  }

  lemma EraBounds(z: int)
    ensures var era := TruncDiv(if z >= 0 then z else z - 146_096, 146_097);
      era == z / 146_097 && z - era * 146_097 == z % 146_097
  {
    if z < 0 {
      var a := 146_096 - z;
      assert a == (a / 146_097) * 146_097 + a % 146_097;
    }
  }

  function Dated(at: Position): Date {
    FromMarch(at.year + at.era * 400, at.day)
  }

  lemma EraDayIsDated(era: int, doe: nat)
    requires doe < 146_097
    ensures YearOn(doe) < 400
    ensures FromEraDay(era, doe) == FromMarch(YearOn(doe) + era * 400, doe - YearStart(YearOn(doe)))
  {
    hide YearOfEra, YearStart, YearOn, FromMarch;
    YearOfEraIsYearOn(doe);
    YearStartClosedForm(YearOn(doe));
  }

  lemma CivilIsLocated(unixDays: int)
    ensures var at := Locate(unixDays);
      at.year < 400 && at.day < YearLength(at.year) && CivilFromDays(unixDays) == Dated(at)
  {
    var z := unixDays + 719_468;
    EraBounds(z);
    hide FromEraDay, FromMarch, YearOn, IsLeap, TruncDiv;
    EraDayIsDated(z / 146_097, z % 146_097);
  }

  lemma NextEraDay(z: int)
    ensures if z % 146_097 == 146_096
            then (z + 1) / 146_097 == z / 146_097 + 1 && (z + 1) % 146_097 == 0
            else (z + 1) / 146_097 == z / 146_097 && (z + 1) % 146_097 == z % 146_097 + 1
  {
  }

  function NextPosition(at: Position): Position {
    if at.day + 1 < YearLength(at.year) then at.(day := at.day + 1)
    else if at.year < 399 then Position(at.era, at.year + 1, 0)
    else Position(at.era + 1, 0, 0)
  }

  lemma YearOnStep(doe: nat)
    requires doe < 146_096
    ensures var y := YearOn(doe);
      if doe - YearStart(y) + 1 < YearLength(y) then YearOn(doe + 1) == y
      else y < 399 && YearOn(doe + 1) == y + 1 && YearStart(y + 1) == doe + 1
  {
    var y := YearOn(doe);
    if doe + 1 < YearStart(y + 1) {
      YearOnUnique(doe + 1, y);
    } else {
      YearOnUnique(doe + 1, y + 1);
      EraDays();
      if y >= 399 { YearStartGrows(400, y + 1); }
    }
  }

  /** The last day of an era is the last day of its year 399, and the next one the first day of a year 0. */
  lemma EraEnd()
    ensures YearOn(146_096) == 399 && 146_096 - YearStart(399) + 1 >= YearLength(399)
    ensures YearOn(0) == 0 && YearStart(0) == 0
  {
    hide YearOn;
    EraDays();
    YearStartGrows(399, 400);
    YearOnUnique(146_096, 399);
    YearOnUnique(0, 0);
  }

  lemma LocateStep(unixDays: int)
    ensures Locate(unixDays + 1) == NextPosition(Locate(unixDays))
  {
    hide YearOn, YearStart, YearLength;
    var z := unixDays + 719_468;
    NextEraDay(z);
    if z % 146_097 == 146_096 { EraEnd(); } else { YearOnStep(z % 146_097); }
  }

  lemma LeapPeriod(year: int, era: int)
    ensures IsLeap(year + era * 400) <==> IsLeap(year)
  {
    hide IsLeap;
    LeapByRemainder(year);
    LeapByRemainder(year + era * 400);
    Remainder400(year + era * 400, year / 400 + era, year % 400);
  }

  lemma Remainder400(x: int, k: int, t: int)
    requires x == 400 * k + t && 0 <= t < 400
    ensures x % 400 == t
  {
  }

  lemma Remainder4(x: int, k: int, t: int)
    requires x == 4 * k + t && 0 <= t < 4
    ensures x % 4 == t
  {
  }

  lemma Remainder100(x: int, k: int, t: int)
    requires x == 100 * k + t && 0 <= t < 100
    ensures x % 100 == t
  {
  }

  lemma LeapByRemainder(year: int)
    ensures IsLeap(year) <==> IsLeap(year % 400)
  {
    var q, r := year / 400, year % 400;
    Remainder4(year, 100 * q + r / 4, r % 4);
    Remainder100(year, 4 * q + r / 100, r % 100);
  }

  lemma YearLengthPeriod(y: int, era: int)
    ensures YearLength(y + era * 400) == YearLength(y)
  {
    LeapPeriod(y + 1, era);
    assert y + 1 + era * 400 == y + era * 400 + 1;
  }

  lemma DatedStep(at: Position)
    requires at.year < 400 && at.day < YearLength(at.year)
    ensures ValidDate(Dated(at)) && Dated(NextPosition(at)) == NextDay(Dated(at))
  {
    hide IsLeap, YearLength, FromMarch, NextDay, ValidDate;
    var year := at.year + at.era * 400;
    YearLengthPeriod(at.year, at.era);
    if at.day + 1 < YearLength(at.year) {
      FromMarchStep(year, at.day);
    } else {
      FromMarchEnd(year);
    }
  }

  /** Consecutive day counts give consecutive calendar dates, across every leap rule, for all counts. */
  lemma ConsecutiveDays(unixDays: int)
    ensures ValidDate(CivilFromDays(unixDays))
    ensures CivilFromDays(unixDays + 1) == NextDay(CivilFromDays(unixDays))
  {
    CivilIsLocated(unixDays);
    CivilIsLocated(unixDays + 1);
    LocateStep(unixDays);
    DatedStep(Locate(unixDays));
  }

  lemma EpochIsDayZero()
    ensures CivilFromDays(0) == EPOCH
  {
    hide FromEraDay;
    assert 719_468 / 146_097 == 4 && 719_468 - 4 * 146_097 == 135_080;
    EpochInEra();
  }

  lemma EpochInEra()
    ensures FromEraDay(4, 135_080) == EPOCH
  {
  }

  /** The function is the calendar: day `n` is the date reached by counting `n` days from 1970-01-01. */
  lemma {:induction false} CivilIsCalendar(n: nat)
    ensures CivilFromDays(n) == DaysLater(n) && ValidDate(DaysLater(n))
  {
    hide CivilFromDays, NextDay, ValidDate;
    ConsecutiveDays(n);
    if n == 0 {
      EpochIsDayZero();
    } else {
      ConsecutiveDays(n - 1);
      CivilIsCalendar(n - 1);
    }
  }

  // ----- the inverse: how many days a date lies after the epoch -----

  function DaysBeforeYear(year: nat): nat
    requires year >= 1970
  {
    if year == 1970 then 0 else DaysBeforeYear(year - 1) + (if IsLeap(year - 1) then 366 else 365)
  }

  function DaysBeforeMonth(year: int, month: nat): nat {
    if month <= 1 then 0 else DaysBeforeMonth(year, month - 1) + DaysInMonth(year, month - 1)
  }

  /** Days from 1970-01-01 to `d`, adding up whole years, whole months and days. */
  function DayCount(d: Date): int
    requires d.year >= 1970 && d.month >= 1
  {
    DaysBeforeYear(d.year) + DaysBeforeMonth(d.year, d.month) + d.day - 1
  }

  lemma WholeYear(year: int)
    ensures DaysBeforeMonth(year, 12) + 31 == if IsLeap(year) then 366 else 365
  {
    assert DaysBeforeMonth(year, 2) == 31;
    assert DaysBeforeMonth(year, 3) == 31 + DaysInMonth(year, 2);
    assert DaysBeforeMonth(year, 6) == DaysBeforeMonth(year, 5) + 31 == DaysBeforeMonth(year, 4) + 30 + 31
        == DaysBeforeMonth(year, 3) + 31 + 30 + 31;
    assert DaysBeforeMonth(year, 9) == DaysBeforeMonth(year, 8) + 31 == DaysBeforeMonth(year, 7) + 31 + 31
        == DaysBeforeMonth(year, 6) + 30 + 31 + 31;
    assert DaysBeforeMonth(year, 12) == DaysBeforeMonth(year, 11) + 30 == DaysBeforeMonth(year, 10) + 31 + 30
        == DaysBeforeMonth(year, 9) + 30 + 31 + 30;
  }

  lemma DayCountStep(d: Date)
    requires ValidDate(d) && d.year >= 1970
    ensures DayCount(NextDay(d)) == DayCount(d) + 1
  {
    if d.month == 12 { WholeYear(d.year); }
  }

  /** Counting days inverts the date function, so the date lies exactly `n` days after the epoch. */
  lemma {:induction false} DayCountInverts(n: nat)
    ensures CivilFromDays(n).year >= 1970 && CivilFromDays(n).month >= 1
    ensures DayCount(CivilFromDays(n)) == n
  {
    hide CivilFromDays, NextDay, DayCount;
    if n == 0 {
      EpochIsDayZero();
      EpochCount();
    } else {
      DayCountInverts(n - 1);
      ConsecutiveDays(n - 1);
      DayCountStep(CivilFromDays(n - 1));
      NextDayKeepsYear(CivilFromDays(n - 1));
    }
  }

  lemma EpochCount()
    ensures DayCount(EPOCH) == 0
  {
  }

  lemma NextDayKeepsYear(d: Date)
    ensures NextDay(d).year >= d.year
    ensures ValidDate(d) ==> NextDay(d).month >= 1
  {
  }

  // ----- certificate validity -----

  const SECONDS_PER_DAY: nat := 86_400
  const EXPECTED_SECONDS: nat := 30 * 24 * 60 * 60
  const I32_MAX: int := 0x7fff_ffff

  /** Midnight UTC of a date, in seconds since the epoch. */
  function EpochSeconds(d: Date): int
    requires d.year >= 1970 && d.month >= 1
  {
    SECONDS_PER_DAY * DayCount(d)
  }

  function AsI32(x: int): int {
    var low := x % 0x1_0000_0000;
    if low <= I32_MAX then low else low - 0x1_0000_0000
  }

  lemma AsI32Exact(x: nat)
    ensures AsI32(x) == x <==> x <= I32_MAX
  {
  }

  /** `utc_date_after_days` with the clock as an argument and its narrowing cast of the year. */
  function UtcDateAfterDays(clockSeconds: nat, additionalDays: nat): Date {
    var d := CivilFromDays(clockSeconds / SECONDS_PER_DAY + additionalDays);
    d.(year := AsI32(d.year))
  }

  lemma CastIsExact(d: Date)
    requires d.year >= 0
    ensures d.(year := AsI32(d.year)) == d <==> d.year <= I32_MAX
  {
    hide AsI32;
    AsI32Exact(d.year);
  }

  lemma CastDateIsCalendar(n: nat)
    ensures var d := CivilFromDays(n); d.(year := AsI32(d.year)) == DaysLater(n) <==> DaysLater(n).year <= I32_MAX
  {
    hide CivilFromDays, DaysLater, DayCount, AsI32, NextDay, ValidDate, IsLeap;
    CivilIsCalendar(n);
    DayCountInverts(n);
    CastIsExact(DaysLater(n));
  }

  /** The cast is exact precisely until the year outgrows an i32. */
  lemma UtcDateIsCalendar(clockSeconds: nat, additionalDays: nat)
    ensures var exact := DaysLater(clockSeconds / SECONDS_PER_DAY + additionalDays);
      UtcDateAfterDays(clockSeconds, additionalDays) == exact <==> exact.year <= I32_MAX
  {
    hide CivilFromDays, DaysLater, AsI32;
    CastDateIsCalendar(clockSeconds / SECONDS_PER_DAY + additionalDays);
  }

  /** A certificate whose two clock reads are `first` and `second`, in whichever order the clock gave them, is
      valid for 30 days plus the days between the reads; it passes the agent's length check exactly when the
      second read falls on no later day than the first. */
  lemma ValidityPassesExactly(first: nat, second: nat)
    ensures var notBefore := CivilFromDays(first / SECONDS_PER_DAY);
      var notAfter := CivilFromDays(second / SECONDS_PER_DAY + 30);
      && notBefore.year >= 1970 && notBefore.month >= 1 && notAfter.year >= 1970 && notAfter.month >= 1
      && EpochSeconds(notAfter) - EpochSeconds(notBefore)
         == EXPECTED_SECONDS + SECONDS_PER_DAY * (second / SECONDS_PER_DAY - first / SECONDS_PER_DAY)
      && (SaturatingSub(EpochSeconds(notAfter), EpochSeconds(notBefore)) <= EXPECTED_SECONDS
          <==> second / SECONDS_PER_DAY <= first / SECONDS_PER_DAY)
  {
    hide CivilFromDays, DayCount;
    DayCountInverts(first / SECONDS_PER_DAY);
    DayCountInverts(second / SECONDS_PER_DAY + 30);
  }

  function SaturatingSub(a: int, b: int): int {
    if a >= b then a - b else 0
  }
}
