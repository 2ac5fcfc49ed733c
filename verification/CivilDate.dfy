/**
 The timestamp of the health report: calendar fields computed from a count of seconds by divisions
 alone, against the calendar as it is defined (leap years and month lengths, counted one by one).
 */
module CivilDate {
  datatype Fields = Fields(year: int, month: int, day: int, hour: int, minute: int, second: int)

  /** The date of a day counted from 1970-01-01, as the source computes it: `z` counts from 0000-03-01,
      an era is 400 years, and years start in March. */
  function FromDays(days: nat): (r: (int, int, int)) {
    var z := days + 719_468;
    var era := z / 146_097;
    var doe := z - era * 146_097;
    InYear(era, doe, YearOfEra(doe))
  }

  function InYear(era: int, doe: int, yoe: int): (r: (int, int, int)) {
    MarchDate(yoe + era * 400, doe - (365 * yoe + yoe / 4 - yoe / 100))
  }

  function YearOfEra(doe: int): (r: int) {
    (doe - doe / 1460 + doe / 36_524 - doe / 146_096) / 365
  }

  /** Day `doy` of the year that starts in March of `y`. */
  function MarchDate(y: int, doy: int): (r: (int, int, int)) {
    var mp := (5 * doy + 2) / 153;
    var d := doy - (153 * mp + 2) / 5 + 1;
    var m := if mp < 10 then mp + 3 else mp - 9;
    (if m <= 2 then y + 1 else y, m, d)
  }

  function AtTime(date: (int, int, int), sod: nat): (r: Fields) {
    Fields(date.0, date.1, date.2, sod / 3600, sod % 3600 / 60, sod % 60)
  }

  function Iso8601(secs: nat): (r: Fields) {
    AtTime(FromDays(secs / 86_400), secs % 86_400)
  }

  // ----- The calendar -----

  predicate Leap(y: int) {
    y % 4 == 0 && (y % 100 != 0 || y % 400 == 0)
  }

  function DaysInMonth(y: int, m: int): (r: int) {
    if m == 2 then (if Leap(y) then 29 else 28)
    else if m == 4 || m == 6 || m == 9 || m == 11 then 30 else 31
  }

  predicate ValidDate(y: int, m: int, d: int) {
    1970 <= y && 1 <= m <= 12 && 1 <= d <= DaysInMonth(y, m)
  }

  function DaysBeforeYear(y: int): (r: int)
    requires 1970 <= y
    decreases y
  {
    if y == 1970 then 0 else DaysBeforeYear(y - 1) + (if Leap(y - 1) then 366 else 365)
  }

  function DaysBeforeMonth(y: int, m: int): (r: int)
    requires 1 <= m
    decreases m
  {
    if m == 1 then 0 else DaysBeforeMonth(y, m - 1) + DaysInMonth(y, m - 1)
  }

  /** Days from 1970-01-01 to the date. */
  function DayNumber(y: int, m: int, d: int): (r: int)
    requires 1970 <= y && 1 <= m
  {
    DaysBeforeYear(y) + DaysBeforeMonth(y, m) + d - 1
  }

  predicate Counts(date: (int, int, int), days: int) {
    ValidDate(date.0, date.1, date.2) && DayNumber(date.0, date.1, date.2) == days
  }

  // ----- Years and months, counted and in closed form -----

  /** Leap years up to and including `y`. */
  function Leaps(y: int): (r: int) {
    y / 4 - y / 100 + y / 400
  }

  lemma LeapsStep(y: int)
    ensures Leaps(y) == Leaps(y - 1) + (if Leap(y) then 1 else 0)
  {
    DivStep(y, 4);
    DivStep(y, 100);
    DivStep(y, 400);
  }

  lemma DivStep(y: int, k: int)
    requires k == 4 || k == 100 || k == 400
    ensures y / k == (y - 1) / k + (if y % k == 0 then 1 else 0)
  {
  }

  lemma {:induction false} YearsCounted(y: int)
    requires 1970 <= y
    ensures DaysBeforeYear(y) == 365 * y + Leaps(y - 1) - 719_527
    decreases y
  {
    if y > 1970 {
      YearsCounted(y - 1);
      LeapsStep(y - 1);
    }
  }

  lemma MonthsCounted(y: int)
    ensures DaysBeforeMonth(y, 1) == 0 && DaysBeforeMonth(y, 2) == 31
    ensures var l := if Leap(y) then 60 else 59;
            && DaysBeforeMonth(y, 3) == l && DaysBeforeMonth(y, 4) == l + 31 && DaysBeforeMonth(y, 5) == l + 61
            && DaysBeforeMonth(y, 6) == l + 92 && DaysBeforeMonth(y, 7) == l + 122 && DaysBeforeMonth(y, 8) == l + 153
            && DaysBeforeMonth(y, 9) == l + 184 && DaysBeforeMonth(y, 10) == l + 214
               && DaysBeforeMonth(y, 11) == l + 245
            && DaysBeforeMonth(y, 12) == l + 275 && DaysBeforeMonth(y, 13) == l + 306
  {
    assert DaysBeforeMonth(y, 3) == DaysBeforeMonth(y, 2) + DaysInMonth(y, 2);
    assert DaysBeforeMonth(y, 5) == DaysBeforeMonth(y, 4) + 30 == DaysBeforeMonth(y, 3) + 61;
    assert DaysBeforeMonth(y, 7) == DaysBeforeMonth(y, 6) + 30 == DaysBeforeMonth(y, 5) + 61;
    assert DaysBeforeMonth(y, 9) == DaysBeforeMonth(y, 8) + 31 == DaysBeforeMonth(y, 7) + 62;
    assert DaysBeforeMonth(y, 11) == DaysBeforeMonth(y, 10) + 31 == DaysBeforeMonth(y, 9) + 61;
    assert DaysBeforeMonth(y, 13) == DaysBeforeMonth(y, 12) + 31 == DaysBeforeMonth(y, 11) + 61;
  }

  // ----- The division formulas -----

  /** A day of the era in centuries, groups of four years, and days of the group; the last century and
      the last year of a group have one day more. */
  predicate Splits(doe: int, c: int, q: int, s: int) {
    && 0 <= c <= 3 && 0 <= q <= 24 && 0 <= s <= 1460 && doe == 36_524 * c + 1461 * q + s
    && (q == 24 && c != 3 ==> s < 1460)
  }

  lemma SplitDay(doe: int) returns (c: int, q: int, s: int)
    requires 0 <= doe < 146_097
    ensures Splits(doe, c, q, s)
    ensures c == doe / 36_524 - doe / 146_096
  {
    c := if doe >= 109_572 then 3 else doe / 36_524;
    var r := doe - 36_524 * c;
    q := r / 1461;
    s := r - 1461 * q;
  }

  /** Which of the four years of its group a day is in. */
  function YearOfGroup(s: int): (t: int) {
    if s >= 1095 then 3 else s / 365
  }

  lemma YearOfEraSplits(doe: int, c: int, q: int, s: int)
    requires Splits(doe, c, q, s) && c == doe / 36_524 - doe / 146_096
    ensures YearOfEra(doe) == 100 * c + 4 * q + YearOfGroup(s)
  {
    var k := if 24 * c + q + s >= 1460 then 1 else 0;
    assert doe == 1460 * (25 * c + q + k) + (24 * c + q + s - 1460 * k);
    assert doe / 1460 == 25 * c + q + k;
    assert doe - doe / 1460 + c == 365 * (100 * c + 4 * q) + (s - k);
    assert (s - k) / 365 == YearOfGroup(s);
  }

  /** The division formula finds the year of the era: `doe` is inside year `yoe`, counted from March,
      which has its 366th day exactly when the February it ends in is a leap year's. */
  lemma YearOfEraFits(doe: int)
    requires 0 <= doe < 146_097
    ensures var y := YearOfEra(doe);
            && 0 <= y < 400
            && 365 * y + Leaps(y) <= doe < 365 * y + Leaps(y) + (if Leap(y + 1) then 366 else 365)
  {
    var c, q, s := SplitDay(doe);
    YearOfEraSplits(doe, c, q, s);
    var t := YearOfGroup(s);
    var y := 100 * c + 4 * q + t;
    assert y / 4 == 25 * c + q && y / 100 == c && y / 400 == 0;
    LeapOfSplit(c, q, t);
  }

  lemma LeapOfSplit(c: int, q: int, t: int)
    requires 0 <= c <= 3 && 0 <= q <= 24 && 0 <= t <= 3
    ensures Leap(100 * c + 4 * q + t + 1) <==> t == 3 && (q == 24 ==> c == 3)
  {
    var y := 100 * c + 4 * q + t + 1;
    assert y % 4 == (t + 1) % 4;
    if t == 3 {
      if q == 24 {
        assert y == 100 * (c + 1);
      } else {
        assert y % 100 == 4 * q + 4;
      }
    }
  }

  /** Month and day of a day of a year that starts in March. */
  lemma MonthFits(doy: int, next: int)
    requires 0 <= doy < (if Leap(next) then 366 else 365)
    ensures var mp := (5 * doy + 2) / 153;
            var d := doy - (153 * mp + 2) / 5 + 1;
            && 0 <= mp <= 11
            && (mp < 10 ==> 1 <= d <= DaysInMonth(next - 1, mp + 3)
                            && DaysBeforeMonth(next - 1, mp + 3) + d - 1 == (if Leap(next - 1) then 60 else 59) + doy)
            && (mp >= 10 ==> 1 <= d <= DaysInMonth(next, mp - 9) && DaysBeforeMonth(next, mp - 9) + d - 1 == doy - 306)
  {
    var mp := (5 * doy + 2) / 153;
    assert 0 <= mp <= 11;
    MonthsCounted(next - 1);
    MonthsCounted(next);
  }

  lemma DivShift(x: int, era: int)
    ensures (x + 400 * era) / 4 == x / 4 + 100 * era && (x + 400 * era) % 4 == x % 4
    ensures (x + 400 * era) / 100 == x / 100 + 4 * era && (x + 400 * era) % 100 == x % 100
    ensures (x + 400 * era) / 400 == x / 400 + era && (x + 400 * era) % 400 == x % 400
  {
    assert x + 400 * era == 4 * (x / 4 + 100 * era) + x % 4;
    assert x + 400 * era == 100 * (x / 100 + 4 * era) + x % 100;
    assert x + 400 * era == 400 * (x / 400 + era) + x % 400;
  }

  lemma EraShift(yoe: int, era: int)
    ensures Leaps(yoe + 400 * era) == Leaps(yoe) + 97 * era
    ensures Leap(yoe + 400 * era + 1) <==> Leap(yoe + 1)
  {
    DivShift(yoe, era);
    DivShift(yoe + 1, era);
  }

  lemma {:induction false} LeapsGrow(y: int, z: int)
    requires y <= z
    ensures Leaps(y) <= Leaps(z)
    decreases z - y
  {
    if y < z {
      LeapsGrow(y, z - 1);
      LeapsStep(z);
    }
  }

  lemma NotBeforeEpoch(days: nat, year: int, doy: int)
    requires days == 365 * year + Leaps(year) + doy - 719_468 && 0 <= doy < 366
    ensures year >= 1969 && (year == 1969 ==> doy >= 306)
  {
    if year < 1969 {
      LeapsGrow(year, 1968);
    }
  }

  /** A day of a year that starts in March, as a date. */
  lemma MarchYear(days: nat, year: int, doy: int)
    requires days == 365 * year + Leaps(year) + doy - 719_468
    requires 0 <= doy < (if Leap(year + 1) then 366 else 365)
    ensures Counts(MarchDate(year, doy), days)
  {
    MonthFits(doy, year + 1);
    NotBeforeEpoch(days, year, doy);
    YearsCounted(year + 1);
    if (5 * doy + 2) / 153 < 10 {
      YearsCounted(year);
      LeapsStep(year);
    }
  }

  lemma EraYear(days: nat, era: int, doe: int, yoe: int)
    requires days + 719_468 == era * 146_097 + doe && 0 <= yoe < 400
    requires 365 * yoe + Leaps(yoe) <= doe < 365 * yoe + Leaps(yoe) + (if Leap(yoe + 1) then 366 else 365)
    ensures Counts(InYear(era, doe, yoe), days)
  {
    EraShift(yoe, era);
    assert Leaps(yoe) == yoe / 4 - yoe / 100;
    MarchYear(days, yoe + 400 * era, doe - (365 * yoe + yoe / 4 - yoe / 100));
  }

  lemma EraDay(days: nat, era: int, doe: int)
    requires days + 719_468 == era * 146_097 + doe && 0 <= doe < 146_097
    ensures Counts(InYear(era, doe, YearOfEra(doe)), days)
  {
    YearOfEraFits(doe);
    EraYear(days, era, doe, YearOfEra(doe));
  }

  /** The fields are a date of the calendar, and it is the right one: the simple count gives back the
      number of days. */
  lemma FromDaysCounts(days: nat)
    ensures Counts(FromDays(days), days)
  {
    var z := days + 719_468;
    EraDay(days, z / 146_097, z - z / 146_097 * 146_097);
  }

  // ----- Order -----

  lemma {:induction false} MonthsGrow(y: int, m: int, n: int)
    requires 1 <= m <= n
    ensures DaysBeforeMonth(y, m) <= DaysBeforeMonth(y, n)
    decreases n
  {
    if m < n {
      MonthsGrow(y, m, n - 1);
    }
  }

  lemma {:induction false} YearsGrow(y: int, z: int)
    requires 1970 <= y <= z
    ensures DaysBeforeYear(y) <= DaysBeforeYear(z)
    decreases z
  {
    if y < z {
      YearsGrow(y, z - 1);
    }
  }

  predicate EarlierDate(a: (int, int, int), b: (int, int, int)) {
    a.0 < b.0 || (a.0 == b.0 && (a.1 < b.1 || (a.1 == b.1 && a.2 < b.2)))
  }

  lemma DaysGrow(a: (int, int, int), b: (int, int, int))
    requires ValidDate(a.0, a.1, a.2) && ValidDate(b.0, b.1, b.2) && EarlierDate(a, b)
    ensures DayNumber(a.0, a.1, a.2) < DayNumber(b.0, b.1, b.2)
  {
    if a.0 < b.0 {
      YearsGrow(a.0 + 1, b.0);
      MonthsGrow(a.0, a.1 + 1, 13);
      MonthsGrow(b.0, 1, b.1);
      MonthsCounted(a.0);
    } else if a.1 < b.1 {
      MonthsGrow(a.0, a.1 + 1, b.1);
    }
  }

  /** Lexicographic comparison of the fields. */
  predicate Earlier(a: Fields, b: Fields) {
    var da, db := (a.year, a.month, a.day), (b.year, b.month, b.day);
    || EarlierDate(da, db)
    || (da == db && (|| a.hour < b.hour
                     || (a.hour == b.hour && (a.minute < b.minute || (a.minute == b.minute && a.second < b.second)))))
  }

  /** The fields are a date and a time of day, `secs` seconds after 1970-01-01T00:00:00. */
  predicate Denotes(f: Fields, secs: int) {
    && ValidDate(f.year, f.month, f.day) && 0 <= f.hour < 24 && 0 <= f.minute < 60 && 0 <= f.second < 60
    && secs == 86_400 * DayNumber(f.year, f.month, f.day) + 3600 * f.hour + 60 * f.minute + f.second
  }

  lemma AtTimeDenotes(date: (int, int, int), days: int, sod: nat)
    requires Counts(date, days) && sod < 86_400
    ensures Denotes(AtTime(date, sod), 86_400 * days + sod)
  {
  }

  /** For every count of seconds: a valid date and time, and the seconds can be recomputed from it. */
  lemma Iso8601Denotes(secs: nat)
    ensures Denotes(Iso8601(secs), secs)
  {
    FromDaysCounts(secs / 86_400);
    AtTimeDenotes(FromDays(secs / 86_400), secs / 86_400, secs % 86_400);
  }

  lemma DenotedOrder(a: Fields, s: int, b: Fields, t: int)
    requires Denotes(a, s) && Denotes(b, t)
    ensures s < t <==> Earlier(a, b)
    ensures s == t <==> a == b
  {
    var da, db := (a.year, a.month, a.day), (b.year, b.month, b.day);
    if EarlierDate(da, db) {
      DaysGrow(da, db);
    } else if EarlierDate(db, da) {
      DaysGrow(db, da);
    } else {
      assert da == db;
    }
  }

  /** Later seconds give later fields and the other way round; in particular different seconds give
      different fields. */
  lemma Iso8601Ordered(s: nat, t: nat)
    ensures s < t <==> Earlier(Iso8601(s), Iso8601(t))
    ensures s == t <==> Iso8601(s) == Iso8601(t)
  {
    Iso8601Denotes(s);
    Iso8601Denotes(t);
    DenotedOrder(Iso8601(s), s, Iso8601(t), t);
  }

  /** The year fits the four digits of RFC 3339 exactly up to the end of the year 9999. */
  lemma FourDigitYear(secs: nat)
    ensures Iso8601(secs).year <= 9999 <==> secs < 253_402_300_800
  {
    Iso8601Denotes(secs);
    var limit := Fields(10_000, 1, 1, 0, 0, 0);
    YearsCounted(10_000);
    MonthsCounted(10_000);
    DenotedOrder(Iso8601(secs), secs, limit, 253_402_300_800);
  }
}
