/** `Date` as section 21.4.1 of ECMA-262 defines it (day numbers, UTC fields, MakeDay, TimeClip,
  * `Date.UTC` with its remapping of the years 0 to 99), and the `LocalDate` arithmetic of
  * time-primitives.ts on top of it. Dafny's `/` and `%` by a positive number are ECMA-262's floor
  * and modulo. NaN is `None`.
  */
module Calendar {
  import opened Wrappers

  // ---------- time values ----------

  /** MakeDate */
  function MakeDate(day: int, msInDay: int): int {
    day * 86_400_000 + msInDay
  }

  function Day(t: int): int {
    t / 86_400_000
  }

  function TimeWithinDay(t: int): int {
    t % 86_400_000
  }

  lemma DayOfMakeDate(day: int, msInDay: int)
    requires 0 <= msInDay < 86_400_000
    ensures Day(MakeDate(day, msInDay)) == day && TimeWithinDay(MakeDate(day, msInDay)) == msInDay
  {}

  lemma MakeDateOfDay(t: int)
    ensures MakeDate(Day(t), TimeWithinDay(t)) == t && 0 <= TimeWithinDay(t) < 86_400_000
    ensures t % 1000 == 0 ==> TimeWithinDay(t) % 1000 == 0
  {
    assert t == 86_400_000 * Day(t) + TimeWithinDay(t);
    if t % 1000 == 0 {
      assert TimeWithinDay(t) == 1000 * (t / 1000 - 86_400 * Day(t));
    }
  }

  function TimeClip(t: int): Option<int> {
    if -8_640_000_000_000_000 <= t <= 8_640_000_000_000_000 then Some(t) else None
  }

  // ---------- day numbers ----------

  /** The day number of 1 January of year y (1970-01-01 is day 0). */
  function DayFromYear(y: int): int {
    365 * (y - 1970) + (y - 1969) / 4 - (y - 1901) / 100 + (y - 1601) / 400
  }

  predicate LeapYear(y: int) {
    y % 4 == 0 && (y % 100 != 0 || y % 400 == 0)
  }

  function DaysInYear(y: int): int {
    if LeapYear(y) then 366 else 365
  }

  /** Days before month m (0 to 12) of a year. */
  function DaysBeforeMonth(m: int, leap: bool): int
    requires 0 <= m <= 12
  {
    if m < 2 then 31 * m else
    (if leap then 1 else 0) +
    match m
    case 2 => 59 case 3 => 90 case 4 => 120 case 5 => 151 case 6 => 181 case 7 => 212
    case 8 => 243 case 9 => 273 case 10 => 304 case 11 => 334 case _ => 365
  }

  lemma LeapStep4(y: int)
    ensures (y - 1968) / 4 - (y - 1969) / 4 == if y % 4 == 0 then 1 else 0
  {}

  lemma LeapStep100(y: int)
    ensures (y - 1900) / 100 - (y - 1901) / 100 == if y % 100 == 0 then 1 else 0
  {}

  lemma LeapStep400(y: int)
    ensures (y - 1600) / 400 - (y - 1601) / 400 == if y % 400 == 0 then 1 else 0
  {}

  lemma By400By100(y: int)
    requires y % 400 == 0
    ensures y % 100 == 0
  {
    var q := y / 400;
    assert y == 100 * (4 * q);
  }

  lemma By100By4(y: int)
    requires y % 100 == 0
    ensures y % 4 == 0
  {
    var q := y / 100;
    assert y == 4 * (25 * q);
  }

  lemma YearLength(y: int)
    ensures DayFromYear(y + 1) == DayFromYear(y) + DaysInYear(y)
  {
    LeapStep4(y);
    LeapStep100(y);
    LeapStep400(y);
    if y % 400 == 0 { By400By100(y); }
    if y % 100 == 0 { By100By4(y); }
  }

  lemma {:induction false} YearsAscend(y: int, z: int)
    requires y < z
    ensures DayFromYear(y) + 365 * (z - y) <= DayFromYear(z)
    decreases z - y
  {
    YearLength(y);
    if y + 1 < z { YearsAscend(y + 1, z); }
  }

  /** YearFromTime: the year whose days include day d. */
  function YearFromDay(d: int): (y: int)
    ensures DayFromYear(y) <= d < DayFromYear(y + 1)
  {
    YearSearch(d, 1970 + if d < 0 then d / 365 else 0)
  }

  function YearSearch(d: int, y: int): (r: int)
    requires DayFromYear(y) <= d
    ensures DayFromYear(r) <= d < DayFromYear(r + 1)
    decreases d - DayFromYear(y)
  {
    YearLength(y);
    if d < DayFromYear(y + 1) then y else YearSearch(d, y + 1)
  }

  lemma YearIsUnique(d: int, y: int)
    requires DayFromYear(y) <= d < DayFromYear(y + 1)
    ensures YearFromDay(d) == y
  {
    var r := YearFromDay(d);
    if r < y {
      if r + 1 < y { YearsAscend(r + 1, y); }
    } else if y < r {
      if y + 1 < r { YearsAscend(y + 1, r); }
    }
  }

  /** MonthFromTime (0 to 11), from the day within the year. */
  function MonthFromDayInYear(n: int, leap: bool): (m: int)
    requires 0 <= n < (if leap then 366 else 365)
    ensures 0 <= m < 12
    ensures DaysBeforeMonth(m, leap) <= n < DaysBeforeMonth(m + 1, leap)
  {
    MonthSearch(n, leap, 0)
  }

  function MonthSearch(n: int, leap: bool, m: int): (r: int)
    requires 0 <= m < 12
    requires DaysBeforeMonth(m, leap) <= n < (if leap then 366 else 365)
    ensures 0 <= r < 12
    ensures DaysBeforeMonth(r, leap) <= n < DaysBeforeMonth(r + 1, leap)
    decreases 12 - m
  {
    if m == 11 || n < DaysBeforeMonth(m + 1, leap) then m else MonthSearch(n, leap, m + 1)
  }

  // ---------- LocalDate ----------

  datatype RawDate = LocalDate(year: int, month: int, day: int)

  /** What the constructor accepts: day 31 is allowed in any month. */
  predicate Accepted(d: RawDate) {
    1 <= d.month <= 12 && 1 <= d.day <= 31
  }

  type Date = d: RawDate | Accepted(d) witness LocalDate(1970, 1, 1)

  /** Thirty days hath September. */
  function DaysInMonth(year: int, month: int): int {
    if month == 2 then (if LeapYear(year) then 29 else 28)
    else if month in {4, 6, 9, 11} then 30
    else 31
  }

  predicate RealDate(d: Date) {
    d.day <= DaysInMonth(d.year, d.month)
  }

  /** The day number of a date, with no remapping; an overlong day runs into the next month. */
  function EpochDay(d: Date): int {
    DayFromYear(d.year) + DaysBeforeMonth(d.month - 1, LeapYear(d.year)) + d.day - 1
  }

  /** getUTCFullYear, getUTCMonth and getUTCDate of a day number. */
  function DateOfDay(n: int): Date {
    var y := YearFromDay(n);
    YearLength(y);
    DateInYear(y, n - DayFromYear(y))
  }

  function DateInYear(y: int, inYear: int): Date
    requires 0 <= inYear < DaysInYear(y)
  {
    var m := MonthFromDayInYear(inYear, LeapYear(y));
    MonthLength(y, m);
    var r: RawDate := LocalDate(y, m + 1, inYear - DaysBeforeMonth(m, LeapYear(y)) + 1);
    r
  }

  lemma MonthLength(y: int, m: int)
    requires 0 <= m < 12
    ensures DaysBeforeMonth(m + 1, LeapYear(y)) - DaysBeforeMonth(m, LeapYear(y)) == DaysInMonth(y, m + 1)
  {}

  /** Every day number is one real date ... */
  lemma DateOfDayIsReal(n: int)
    ensures RealDate(DateOfDay(n)) && EpochDay(DateOfDay(n)) == n
  {
    MonthLength(DateOfDay(n).year, DateOfDay(n).month - 1);
  }

  lemma DayBounds(d: Date)
    requires RealDate(d)
    ensures DayFromYear(d.year) <= EpochDay(d) < DayFromYear(d.year + 1)
    ensures DayFromYear(d.year + 1) == DayFromYear(d.year) + DaysInYear(d.year)
  {
    hide DayFromYear;
    YearLength(d.year);
    MonthLength(d.year, d.month - 1);
    MonthsAreInYear(d.month, LeapYear(d.year));
  }

  /** ... and every real date has its own day number. */
  lemma RealDateRoundTrip(d: Date)
    requires RealDate(d)
    ensures DateOfDay(EpochDay(d)) == d
  {
    hide DayFromYear;
    DayBounds(d);
    MonthLength(d.year, d.month - 1);
    YearIsUnique(EpochDay(d), d.year);
    MonthIsUnique(EpochDay(d) - DayFromYear(d.year), LeapYear(d.year), d.month - 1);
  }

  lemma MonthsAreInYear(month: int, leap: bool)
    requires 1 <= month <= 12
    ensures 0 <= DaysBeforeMonth(month - 1, leap) && DaysBeforeMonth(month, leap) <= (if leap then 366 else 365)
  {}

  /** The constructor accepts a date exactly when some real date has its month and some real date its day, so
    * 30 February is accepted.
    */
  lemma ConstructorAccepts(r: RawDate)
    ensures Accepted(r) <==>
            (exists d: Date :: RealDate(d) && d.month == r.month) && (exists e: Date :: RealDate(e) && e.day == r.day)
  {
    if Accepted(r) {
      var d: Date := LocalDate(2000, r.month, 1);
      var e: Date := LocalDate(2000, 1, r.day);
      assert RealDate(d) && RealDate(e);
    }
  }

  /** The calendar day after d, without day numbers. */
  function NextDate(d: Date): Date
    requires RealDate(d)
  {
    var r: RawDate :=
      if d.day < DaysInMonth(d.year, d.month) then d.(day := d.day + 1)
      else if d.month < 12 then LocalDate(d.year, d.month + 1, 1)
      else LocalDate(d.year + 1, 1, 1);
    r
  }

  /** Day numbers count calendar days from 1970-01-01, in both directions. */
  lemma DayNumbersFollowTheCalendar(n: int)
    ensures DateOfDay(0) == LocalDate(1970, 1, 1)
    ensures RealDate(DateOfDay(n)) && DateOfDay(n + 1) == NextDate(DateOfDay(n))
  {
    hide DateOfDay;
    var d := DateOfDay(n);
    DateOfDayIsReal(n);
    YearLength(d.year);
    MonthLength(d.year, d.month - 1);
    RealDateRoundTrip(NextDate(d));
    var epoch: Date := LocalDate(1970, 1, 1);
    RealDateRoundTrip(epoch);
  }

  lemma MonthIsUnique(n: int, leap: bool, m: int)
    requires 0 <= m < 12 && DaysBeforeMonth(m, leap) <= n < DaysBeforeMonth(m + 1, leap)
    ensures 0 <= n < (if leap then 366 else 365) && MonthFromDayInYear(n, leap) == m
  {}

  // ---------- Date.UTC and setUTCDate ----------

  /** The years 0 to 99 mean 1900 to 1999. */
  function FullYear(y: int): int {
    if 0 <= y <= 99 then 1900 + y else y
  }

  predicate Remapped(y: int) {
    0 <= y <= 99
  }

  /** MakeDay: months outside 0 to 11 carry into the year. */
  function MakeDay(year: int, month: int, date: int): int {
    var ym, mn := year + month / 12, month % 12;
    DayFromYear(ym) + DaysBeforeMonth(mn, LeapYear(ym)) + date - 1
  }

  function DateUTC(year: int, month: int, date: int, msInDay: int): Option<int> {
    TimeClip(MakeDate(MakeDay(FullYear(year), month, date), msInDay))
  }

  /** The day number `Date.UTC` gives a date. */
  function UTCDay(d: Date): int {
    EpochDay(d.(year := FullYear(d.year)))
  }

  lemma MakeDayOfDate(d: Date, days: int)
    ensures MakeDay(d.year, d.month - 1, d.day + days) == EpochDay(d) + days
  {
    assert (d.month - 1) / 12 == 0 && (d.month - 1) % 12 == d.month - 1;
  }

  lemma DateUTCOfDate(d: Date, msInDay: int)
    ensures DateUTC(d.year, d.month - 1, d.day, msInDay) == TimeClip(MakeDate(UTCDay(d), msInDay))
  {
    MakeDayOfDate(d.(year := FullYear(d.year)), 0);
  }

  /** `new Date(Date.UTC(y, m - 1, d)).getUTCDay()`, 0 for Sunday. */
  function GetDayOfWeek(d: Date): Option<int> {
    var t := DateUTC(d.year, d.month - 1, d.day, 0);
    if t.None? then None else Some((Day(t.value) + 4) % 7)
  }

  /** setUTCDate(getUTCDate() + days) on the time value t. */
  function ShiftUTCDate(t: int, days: int): Option<int> {
    var f := DateOfDay(Day(t));
    TimeClip(MakeDate(MakeDay(f.year, f.month - 1, f.day + days), TimeWithinDay(t)))
  }

  /** plusDays: `Date.UTC`, then setUTCDate, then the UTC fields. `None` is the LocalDate whose three
    * fields are NaN, which the constructor lets through.
    */
  function PlusDays(d: Date, days: int): Option<Date> {
    ShiftedDate(DateUTC(d.year, d.month - 1, d.day, 0), days)
  }

  function ShiftedDate(t: Option<int>, days: int): Option<Date> {
    if t.None? then None
    else
      var u := ShiftUTCDate(t.value, days);
      if u.None? then None else Some(DateOfDay(Day(u.value)))
  }

  function MinusDays(d: Date, days: int): Option<Date> {
    PlusDays(d, -days)
  }

  predicate ValidDay(n: int) {
    -100_000_000 <= n <= 100_000_000
  }

  lemma ShiftUTCDateMeaning(n: int, days: int)
    ensures ShiftUTCDate(MakeDate(n, 0), days) == TimeClip(MakeDate(n + days, 0))
  {
    hide DateOfDay, EpochDay, MakeDay;
    DayOfMakeDate(n, 0);
    DateOfDayIsReal(n);
    MakeDayOfDate(DateOfDay(n), days);
  }

  lemma ShiftedDateMeaning(n: int, days: int)
    ensures ShiftedDate(TimeClip(MakeDate(n, 0)), days) ==
            if ValidDay(n) && ValidDay(n + days) then Some(DateOfDay(n + days)) else None
  {
    hide DateOfDay, ShiftUTCDate;
    ShiftUTCDateMeaning(n, days);
    DayOfMakeDate(n + days, 0);
  }

  /** What plusDays computes, for every date the constructor accepts. */
  lemma PlusDaysMeaning(d: Date, days: int)
    ensures PlusDays(d, days) ==
            if ValidDay(UTCDay(d)) && ValidDay(UTCDay(d) + days) then Some(DateOfDay(UTCDay(d) + days)) else None
  {
    hide UTCDay, DateOfDay, DateUTC, ShiftedDate;
    DateUTCOfDate(d, 0);
    ShiftedDateMeaning(UTCDay(d), days);
  }

  lemma DayOfWeekMeaning(d: Date)
    ensures GetDayOfWeek(d) == if ValidDay(UTCDay(d)) then Some((UTCDay(d) + 4) % 7) else None
  {
    hide UTCDay, DateUTC;
    DateUTCOfDate(d, 0);
    DayOfMakeDate(UTCDay(d), 0);
  }

  /** 1970-01-01 was a Thursday; `DayOfWeekAdvances` gives every other day. */
  lemma EpochIsThursday()
    ensures GetDayOfWeek(LocalDate(1970, 1, 1)) == Some(4)
  {
    hide GetDayOfWeek, DateUTC, DateOfDay;
    var epoch: Date := LocalDate(1970, 1, 1);
    DayOfWeekMeaning(epoch);
    assert UTCDay(epoch) == 0;
  }

  lemma RemapShift(y: int)
    requires Remapped(y)
    ensures DayFromYear(1900 + y) - DayFromYear(y) == if y == 0 then 693961 else 693960
    ensures LeapYear(1900 + y) <==> LeapYear(y) && y != 0
  {
    assert (y - 69) / 4 == (y - 1969) / 4 + 475;
    assert (y - 1) / 100 == (y - 1901) / 100 + 19;
    assert (y - 1601) / 400 == if y == 0 then -5 else -4;
    assert (y + 299) / 400 == 0;
    assert (1900 + y) % 4 == y % 4;
  }

  /** Remapping moves a date by 693960 or 693961 days: forward, and never by whole weeks. */
  lemma RemapMoves(d: Date)
    ensures Remapped(d.year) <==> 0 <= d.year <= 99
    ensures !Remapped(d.year) ==> UTCDay(d) == EpochDay(d)
    ensures Remapped(d.year) ==> UTCDay(d) - EpochDay(d) == 693960 || UTCDay(d) - EpochDay(d) == 693961
  {
    if Remapped(d.year) {
      RemapShift(d.year);
    }
  }

  // ---------- laws ----------

  lemma SameDateSameDay(n: int, m: int)
    ensures DateOfDay(n) == DateOfDay(m) <==> n == m
  {
    DateOfDayIsReal(n);
    DateOfDayIsReal(m);
  }

  /** Days add up: exactly when the intermediate date is not in the years 0 to 99. */
  lemma PlusDaysIsAdditive(d: Date, a: int, b: int)
    requires PlusDays(d, a).Some? && PlusDays(d, a + b).Some?
    ensures PlusDays(PlusDays(d, a).value, b) == PlusDays(d, a + b) <==>
            !Remapped(PlusDays(d, a).value.year)
  {
    hide *;
    PlusDaysMeaning(d, a);
    PlusDaysMeaning(d, a + b);
    var mid := PlusDays(d, a).value;
    PlusDaysMeaning(mid, b);
    DateOfDayIsReal(UTCDay(d) + a);
    RemapMoves(mid);
    SameDateSameDay(UTCDay(mid) + b, UTCDay(d) + a + b);
  }

  lemma PlusDaysTo(d: Date, days: int, e: Date)
    requires RealDate(e) && UTCDay(d) + days == EpochDay(e) && ValidDay(UTCDay(d)) && ValidDay(EpochDay(e))
    ensures PlusDays(d, days) == Some(e)
  {
    hide *;
    PlusDaysMeaning(d, days);
    RealDateRoundTrip(e);
  }

  /** A day back from 1 January of the year 100, and forward again, ends in the year 2000. */
  lemma DayIntoTheRemappedYears()
    ensures PlusDays(LocalDate(100, 1, 1), -1) == Some(LocalDate(99, 12, 31))
    ensures PlusDays(LocalDate(99, 12, 31), 1) == Some(LocalDate(2000, 1, 1))
  {
    hide PlusDays;
    var d: Date := LocalDate(100, 1, 1);
    var e: Date := LocalDate(99, 12, 31);
    var f: Date := LocalDate(2000, 1, 1);
    DaysOfTheExample(d, e, f);
    PlusDaysTo(d, -1, e);
    PlusDaysTo(e, 1, f);
  }

  lemma DaysOfTheExample(d: Date, e: Date, f: Date)
    requires d == LocalDate(100, 1, 1) && e == LocalDate(99, 12, 31) && f == LocalDate(2000, 1, 1)
    ensures UTCDay(d) == -683_003 && EpochDay(e) == -683_004 && UTCDay(e) == 10_956 && EpochDay(f) == 10_957
  {}

  /** minusDays undoes plusDays: exactly for real dates when neither date is in the years 0 to 99. */
  lemma MinusDaysUndoes(d: Date, n: int)
    requires PlusDays(d, n).Some?
    ensures MinusDays(PlusDays(d, n).value, n) == Some(d) <==>
            RealDate(d) && !Remapped(d.year) && !Remapped(PlusDays(d, n).value.year)
  {
    hide PlusDays, UTCDay, EpochDay, DateOfDay, RealDate, ValidDay;
    PlusDaysMeaning(d, n);
    var e := PlusDays(d, n).value;
    PlusDaysMeaning(e, -n);
    DateOfDayIsReal(UTCDay(d) + n);
    RemapMoves(d);
    RemapMoves(e);
    DateOfDayIsReal(UTCDay(e) - n);
    if RealDate(d) {
      RealDateRoundTrip(d);
      SameDateSameDay(UTCDay(e) - n, EpochDay(d));
    }
  }

  /** n days later is n weekdays later: exactly when the later date is not in the years 0 to 99. */
  lemma DayOfWeekAdvances(d: Date, n: int)
    requires PlusDays(d, n).Some?
    ensures GetDayOfWeek(d).Some?
    ensures GetDayOfWeek(PlusDays(d, n).value) == Some((GetDayOfWeek(d).value + n) % 7) <==>
            !Remapped(PlusDays(d, n).value.year)
  {
    hide *;
    PlusDaysMeaning(d, n);
    var e := PlusDays(d, n).value;
    DayOfWeekMeaning(d);
    DayOfWeekMeaning(e);
    DateOfDayIsReal(UTCDay(d) + n);
    RemapMoves(e);
    Mod7(UTCDay(d) + 4, n);
  }

  lemma Mod7(a: int, n: int)
    ensures (a % 7 + n) % 7 == (a + n) % 7
    ensures (a + n + 693960) % 7 != (a + n) % 7 && (a + n + 693961) % 7 != (a + n) % 7
  {
    assert (a % 7 + n) % 7 == (a + n) % 7 by {
      assert a == 7 * (a / 7) + a % 7;
      assert a + n == 7 * (a / 7) + (a % 7 + n);
    }
  }
}
