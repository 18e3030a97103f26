/** The wall-clock resolver of time-primitives.ts. A time zone is an arbitrary function from instants
  * to offsets in milliseconds; the formatter prints the wall clock of an instant in whole seconds.
  */
module Resolver {
  import opened Wrappers
  import opened Calendar

  // ---------- wall-clock values ----------

  datatype RawTime = LocalTime(hour: int, minute: int, second: int)

  /** What the LocalTime constructor accepts. */
  type Time = t: RawTime | 0 <= t.hour <= 23 && 0 <= t.minute <= 59 && 0 <= t.second <= 59
    witness LocalTime(0, 0, 0)

  datatype LocalDateTime = LocalDateTime(date: Date, time: Time)

  datatype TimeZone = Unknown | Zone(offset: int -> int)

  datatype Disambiguation = Earlier | Later

  datatype Failure = InvalidTimeZone | InvalidDate

  function MsOfTime(t: Time): int {
    t.hour * 3_600_000 + t.minute * 60_000 + t.second * 1000
  }

  function TimeOfMs(ms: int): Time
    requires 0 <= ms < 86_400_000
  {
    var r: RawTime := LocalTime(ms / 3_600_000, ms / 60_000 % 60, ms / 1000 % 60);
    r
  }

  lemma TimeRoundTrip(t: Time)
    ensures 0 <= MsOfTime(t) < 86_400_000 && MsOfTime(t) % 1000 == 0
    ensures TimeOfMs(MsOfTime(t)) == t
  {
    var ms := MsOfTime(t);
    assert ms / 60_000 == t.hour * 60 + t.minute;
    assert ms / 1000 == (t.hour * 60 + t.minute) * 60 + t.second;
  }

  lemma MsRoundTrip(ms: int)
    requires 0 <= ms < 86_400_000 && ms % 1000 == 0
    ensures MsOfTime(TimeOfMs(ms)) == ms
  {
    var s := ms / 1000;
    assert ms / 60_000 == s / 60;
    assert ms / 3_600_000 == s / 3600;
    assert s / 60 / 60 == s / 3600;
  }

  /** The wall clock that shows w, as if w were UTC milliseconds. */
  function Wall(w: int): LocalDateTime {
    LocalDateTime(DateOfDay(Day(w)), TimeOfMs(TimeWithinDay(w)))
  }

  /** `Date.UTC` of the six fields. */
  function UTCOfWall(l: LocalDateTime): Option<int> {
    DateUTC(l.date.year, l.date.month - 1, l.date.day, MsOfTime(l.time))
  }

  /** Times the clock arithmetic handles: in the range of `Date`, and from the year 100 on, because `Date.UTC`
    * remaps the years 0 to 99 and the formatter prints the years before 1 without their sign.
    */
  predicate Plain(w: int) {
    TimeClip(w).Some? && DateOfDay(Day(w)).year >= 100
  }

  lemma WallRoundTrip(w: int)
    requires Plain(w) && w % 1000 == 0
    ensures UTCOfWall(Wall(w)) == Some(w)
  {
    hide DateOfDay, UTCDay, EpochDay, DateUTC, MsOfTime, TimeOfMs, Day, TimeWithinDay, MakeDate;
    var d, ms := DateOfDay(Day(w)), TimeWithinDay(w);
    DateOfDayIsReal(Day(w));
    RemapMoves(d);
    MakeDateOfDay(w);
    MsRoundTrip(ms);
    DateUTCOfDate(d, ms);
  }

  lemma WallIsInjective(w: int, v: int)
    requires Plain(w) && w % 1000 == 0 && Plain(v) && v % 1000 == 0
    ensures Wall(w) == Wall(v) <==> w == v
  {
    hide Plain, Wall, UTCOfWall;
    WallRoundTrip(w);
    WallRoundTrip(v);
  }

  /** A wall clock whose date exists and is not remapped. */
  predicate RealWall(l: LocalDateTime) {
    RealDate(l.date) && !Remapped(l.date.year)
  }

  lemma WholeSeconds(day: int, msInDay: int)
    requires msInDay % 1000 == 0
    ensures MakeDate(day, msInDay) % 1000 == 0
  {
    assert MakeDate(day, msInDay) == 1000 * (86_400 * day + msInDay / 1000);
  }

  lemma RealWallRoundTrip(l: LocalDateTime)
    requires RealWall(l) && UTCOfWall(l).Some?
    ensures Wall(UTCOfWall(l).value) == l && UTCOfWall(l).value % 1000 == 0
  {
    hide DateOfDay, UTCDay, EpochDay, DateUTC, MsOfTime, TimeOfMs, RealDate, MakeDate;
    TimeRoundTrip(l.time);
    WholeSeconds(EpochDay(l.date), MsOfTime(l.time));
    DateUTCOfDate(l.date, MsOfTime(l.time));
    RemapMoves(l.date);
    RealDateRoundTrip(l.date);
    DayOfMakeDate(EpochDay(l.date), MsOfTime(l.time));
  }

  // ---------- the resolver ----------

  /** resolveInstantToLocal */
  function ResolveInstantToLocal(t: int, zone: TimeZone): Result<LocalDateTime, Failure> {
    if zone.Unknown? then Err(InvalidTimeZone) else Ok(Wall(t + zone.offset(t)))
  }

  /** getOffsetMs: format, reparse as UTC, subtract. */
  function GetOffsetMs(t: int, zone: TimeZone): Option<int>
    requires zone.Zone?
  {
    var wallInUtc := UTCOfWall(Wall(t + zone.offset(t)));
    if wallInUtc.None? then None else Some(wallInUtc.value - t)
  }

  /** resolveLocalToInstant. An invalid `Date` makes the formatter or the Instant constructor throw. */
  function ResolveLocalToInstant(local: LocalDateTime, zone: TimeZone, mode: Disambiguation): Result<int, Failure> {
    if zone.Unknown? then Err(InvalidTimeZone)
    else
      var utcGuess := UTCOfWall(local);
      if utcGuess.None? then Err(InvalidDate)
      else ResolveGuess(utcGuess.value, zone, mode)
  }

  function ResolveGuess(utcGuess: int, zone: TimeZone, mode: Disambiguation): Result<int, Failure>
    requires zone.Zone?
  {
    var offsetMs := GetOffsetMs(utcGuess, zone);
    if offsetMs.None? || TimeClip(utcGuess - offsetMs.value).None? then Err(InvalidDate)
    else
      var recheckOffsetMs := GetOffsetMs(utcGuess - offsetMs.value, zone);
      if recheckOffsetMs.None? then Err(InvalidDate)
      else
        var resolvedMs :=
          if offsetMs != recheckOffsetMs && mode == Later then utcGuess - recheckOffsetMs.value
          else utcGuess - offsetMs.value;
        if TimeClip(resolvedMs).None? then Err(InvalidDate) else Ok(resolvedMs)
  }

  // ---------- what is assumed of the zone ----------

  /** Offsets are whole seconds and at most m in size, and every time within 2m of the guess is plain. */
  ghost predicate Tame(zone: TimeZone, utcGuess: int, m: int) {
    && zone.Zone?
    && utcGuess % 1000 == 0
    && (forall t :: -m <= zone.offset(t) <= m && zone.offset(t) % 1000 == 0)
    && (forall w | utcGuess - 2 * m <= w <= utcGuess + 2 * m :: Plain(w))
  }

  /** Within m of the guess the offset is a before the instant `change` and b from it on. */
  ghost predicate OneChange(zone: TimeZone, utcGuess: int, m: int, change: int, a: int, b: int)
    requires zone.Zone?
  {
    && -m <= a <= m && -m <= b <= m
    && forall t | utcGuess - m <= t <= utcGuess + m :: zone.offset(t) == if t < change then a else b
  }

  /** t is an instant at which the wall clock shows the wanted time. */
  ghost predicate Reading(zone: TimeZone, utcGuess: int, t: int)
    requires zone.Zone?
  {
    t + zone.offset(t) == utcGuess
  }

  /** Ordinary years and offsets of at most a day satisfy the assumptions of `Tame`. */
  lemma OrdinaryTimesArePlain(l: LocalDateTime, w: int)
    requires RealDate(l.date) && 101 <= l.date.year <= 275_000
    ensures UTCOfWall(l).Some?
    ensures UTCOfWall(l).value - 2 * 86_400_000 <= w <= UTCOfWall(l).value + 2 * 86_400_000 ==> Plain(w)
  {
    hide DateOfDay, UTCDay, EpochDay, DateUTC, MsOfTime;
    TimeRoundTrip(l.time);
    DateUTCOfDate(l.date, MsOfTime(l.time));
    RemapMoves(l.date);
    RealDateRoundTrip(l.date);
    DayBounds(l.date);
    var y := DateOfDay(Day(w)).year;
    DateOfDayIsReal(Day(w));
    DayBounds(DateOfDay(Day(w)));
    if UTCOfWall(l).value - 2 * 86_400_000 <= w <= UTCOfWall(l).value + 2 * 86_400_000 {
      if y < 100 { YearsAscend(y, 100); }
      YearsAscend(100, l.date.year);
      YearsAscend(l.date.year, 275_001);
    }
    if l.date.year < 275_000 { YearsAscend(l.date.year, 275_000); }
    YearsAscend(101 - 1, l.date.year);
  }

  lemma PlainInRange(w: int)
    requires Plain(w)
    ensures TimeClip(w) == Some(w)
  {}

  lemma OffsetProbe(t: int, zone: TimeZone)
    requires zone.Zone? && t % 1000 == 0 && zone.offset(t) % 1000 == 0 && Plain(t + zone.offset(t))
    ensures GetOffsetMs(t, zone) == Some(zone.offset(t))
  {
    hide Plain, UTCOfWall, Wall;
    WallRoundTrip(t + zone.offset(t));
  }

  /** The resolver in terms of the offset function alone. */
  function Resolved(offset: int -> int, utcGuess: int, mode: Disambiguation): int {
    var first := offset(utcGuess);
    var second := offset(utcGuess - first);
    if first != second && mode == Later then utcGuess - second else utcGuess - first
  }

  lemma ResolvesTo(local: LocalDateTime, zone: TimeZone, mode: Disambiguation, m: int)
    requires UTCOfWall(local).Some? && Tame(zone, UTCOfWall(local).value, m)
    ensures ResolveLocalToInstant(local, zone, mode) == Ok(Resolved(zone.offset, UTCOfWall(local).value, mode))
  {
    hide UTCOfWall, Wall, Plain, GetOffsetMs, TimeClip;
    var g := UTCOfWall(local).value;
    var first := zone.offset(g);
    var second := zone.offset(g - first);
    SecondsAdd(g, first);
    PlainInRange(g - first);
    PlainInRange(g - second);
    OffsetProbe(g, zone);
    OffsetProbe(g - first, zone);
  }

  /** What the result of the resolver reads back as. */
  function ReadBack(local: LocalDateTime, zone: TimeZone, mode: Disambiguation): Result<LocalDateTime, Failure> {
    var r := ResolveLocalToInstant(local, zone, mode);
    if r.Err? then Err(r.error) else ResolveInstantToLocal(r.value, zone)
  }

  lemma SecondsAdd(a: int, b: int)
    requires a % 1000 == 0 && b % 1000 == 0
    ensures (a + b) % 1000 == 0 && (a - b) % 1000 == 0
  {}

  lemma ResultIsPlain(zone: TimeZone, utcGuess: int, mode: Disambiguation, m: int)
    requires Tame(zone, utcGuess, m)
    ensures var w := Resolved(zone.offset, utcGuess, mode) + zone.offset(Resolved(zone.offset, utcGuess, mode));
            Plain(w) && w % 1000 == 0 && Plain(utcGuess) && utcGuess % 1000 == 0
  {
    hide Plain;
    var r := Resolved(zone.offset, utcGuess, mode);
    var first := zone.offset(utcGuess);
    var second := zone.offset(utcGuess - first);
    SecondsAdd(utcGuess, if r == utcGuess - first then first else second);
    SecondsAdd(r, zone.offset(r));
  }

  lemma ReadBackOf(local: LocalDateTime, zone: TimeZone, mode: Disambiguation, g: int, r: int)
    requires zone.Zone? && ResolveLocalToInstant(local, zone, mode) == Ok(r)
    requires RealWall(local) && UTCOfWall(local) == Some(g) && Plain(g)
    requires Plain(r + zone.offset(r)) && (r + zone.offset(r)) % 1000 == 0
    ensures ReadBack(local, zone, mode) == Ok(Wall(r + zone.offset(r)))
    ensures ReadBack(local, zone, mode) == Ok(local) <==> Reading(zone, g, r)
  {
    hide UTCOfWall, Wall, Plain, ResolveLocalToInstant, RealWall;
    RealWallRoundTrip(local);
    WallIsInjective(r + zone.offset(r), g);
  }

  /** A real wall time reads back unchanged exactly when the instant is one of its readings. */
  lemma ReadsBackIffReading(local: LocalDateTime, zone: TimeZone, mode: Disambiguation, m: int)
    requires RealWall(local) && UTCOfWall(local).Some? && Tame(zone, UTCOfWall(local).value, m)
    ensures var g := UTCOfWall(local).value;
            var r := Resolved(zone.offset, g, mode);
            && ReadBack(local, zone, mode) == Ok(Wall(r + zone.offset(r)))
            && (ReadBack(local, zone, mode) == Ok(local) <==> Reading(zone, g, r))
  {
    hide UTCOfWall, Wall, Plain, Resolved, ResolveLocalToInstant, ReadBack, RealWall;
    var g := UTCOfWall(local).value;
    ResolvesTo(local, zone, mode, m);
    ResultIsPlain(zone, g, mode, m);
    ReadBackOf(local, zone, mode, g, Resolved(zone.offset, g, mode));
  }

  // ---------- theorems ----------

  /** Which error the two conversions end with: an unknown zone is reported before anything else, and a wall
    * time that `Date.UTC` cannot represent before the zone is asked.
    */
  lemma ErrorsOfTheResolver(local: LocalDateTime, t: int, zone: TimeZone, mode: Disambiguation)
    ensures ResolveInstantToLocal(t, zone) == Err(InvalidTimeZone) <==> zone == Unknown
    ensures ResolveInstantToLocal(t, zone).Err? <==> zone == Unknown
    ensures ResolveLocalToInstant(local, zone, mode) == Err(InvalidTimeZone) <==> zone == Unknown
    ensures zone != Unknown && UTCOfWall(local).None? ==>
              ResolveLocalToInstant(local, zone, mode) == Err(InvalidDate)
  {
    hide UTCOfWall, Wall, GetOffsetMs, TimeClip;
  }

  /** In "earlier" mode, for any zone: the result reads back off by exactly the difference of the two
    * probes, so the requested time comes back exactly when the probes agree.
    */
  lemma EarlierReadsBack(local: LocalDateTime, zone: TimeZone, m: int)
    requires RealWall(local) && UTCOfWall(local).Some? && Tame(zone, UTCOfWall(local).value, m)
    ensures var g := UTCOfWall(local).value;
            var first := zone.offset(g);
            var second := zone.offset(g - first);
            && ReadBack(local, zone, Earlier) == Ok(Wall(g + (second - first)))
            && (ReadBack(local, zone, Earlier) == Ok(local) <==> first == second)
  {
    hide UTCOfWall, Wall, ReadBack, RealWall;
    ReadsBackIffReading(local, zone, Earlier, m);
  }

  /** In "later" mode, for any zone: off by the difference of the offset at the result and the second
    * probe.
    */
  lemma LaterReadsBackInAnyZone(local: LocalDateTime, zone: TimeZone, m: int)
    requires RealWall(local) && UTCOfWall(local).Some? && Tame(zone, UTCOfWall(local).value, m)
    ensures var g := UTCOfWall(local).value;
            var second := zone.offset(g - zone.offset(g));
            var third := zone.offset(g - second);
            && ReadBack(local, zone, Later) == Ok(Wall(g + (third - second)))
            && (ReadBack(local, zone, Later) == Ok(local) <==> second == third)
  {
    hide UTCOfWall, Wall, ReadBack, RealWall;
    ReadsBackIffReading(local, zone, Later, m);
  }

  /** With at most one offset change nearby, the wall times that exist are those outside the gap. */
  lemma ReadingsOfOneChange(zone: TimeZone, utcGuess: int, m: int, change: int, a: int, b: int)
    requires Tame(zone, utcGuess, m) && OneChange(zone, utcGuess, m, change, a, b)
    ensures forall t :: Reading(zone, utcGuess, t) <==>
                        (t == utcGuess - a && t < change) || (t == utcGuess - b && change <= t)
  {
    hide Plain;
  }

  ghost predicate Exists(zone: TimeZone, utcGuess: int)
    requires zone.Zone?
  {
    exists t :: Reading(zone, utcGuess, t)
  }

  /** In "later" mode, with at most one change nearby, exactly the wall times that exist read back: all
    * but those from change + a up to change + b, which the clock skips.
    */
  lemma LaterReadsBack(local: LocalDateTime, zone: TimeZone, m: int, change: int, a: int, b: int)
    requires RealWall(local) && UTCOfWall(local).Some? && Tame(zone, UTCOfWall(local).value, m)
    requires OneChange(zone, UTCOfWall(local).value, m, change, a, b)
    ensures ReadBack(local, zone, Later) == Ok(local) <==> Exists(zone, UTCOfWall(local).value)
    ensures Exists(zone, UTCOfWall(local).value) <==> !(change + a <= UTCOfWall(local).value < change + b)
  {
    hide UTCOfWall, Wall, Plain, ReadBack, RealWall;
    ReadsBackIffReading(local, zone, Later, m);
    ExistsOutsideTheGap(zone, UTCOfWall(local).value, m, change, a, b);
  }

  lemma ExistsOutsideTheGap(zone: TimeZone, utcGuess: int, m: int, change: int, a: int, b: int)
    requires Tame(zone, utcGuess, m) && OneChange(zone, utcGuess, m, change, a, b)
    ensures Exists(zone, utcGuess) <==> Reading(zone, utcGuess, utcGuess - a) || Reading(zone, utcGuess, utcGuess - b)
    ensures Exists(zone, utcGuess) <==> !(change + a <= utcGuess < change + b)
  {
    hide Plain;
    ReadingsOfOneChange(zone, utcGuess, m, change, a, b);
    assert utcGuess < change + a ==> Reading(zone, utcGuess, utcGuess - a);
    assert change + b <= utcGuess ==> Reading(zone, utcGuess, utcGuess - b);
  }

  /** "Earlier" mode, with at most one change nearby, misses exactly the wall times for which the
    * change falls between the guess and its first correction; not only those in the gap.
    */
  lemma EarlierMisses(local: LocalDateTime, zone: TimeZone, m: int, change: int, a: int, b: int)
    requires RealWall(local) && UTCOfWall(local).Some? && Tame(zone, UTCOfWall(local).value, m)
    requires OneChange(zone, UTCOfWall(local).value, m, change, a, b)
    ensures var g := UTCOfWall(local).value;
            ReadBack(local, zone, Earlier) != Ok(local) <==>
            a != b && (g < change <= g - a || g - b < change <= g)
  {
    hide UTCOfWall, Wall, Plain, ReadBack, RealWall;
    EarlierReadsBack(local, zone, m);
  }

  /** A repeated wall time resolves to one of its two readings, and the flag does not choose between
    * them: both modes give the one with the offset in force at the guess.
    */
  lemma RepeatedTimeIgnoresTheFlag(local: LocalDateTime, zone: TimeZone, mode: Disambiguation,
                                   m: int, change: int, a: int, b: int, t: int, u: int)
    requires UTCOfWall(local).Some? && Tame(zone, UTCOfWall(local).value, m)
    requires OneChange(zone, UTCOfWall(local).value, m, change, a, b)
    requires t < u && Reading(zone, UTCOfWall(local).value, t) && Reading(zone, UTCOfWall(local).value, u)
    ensures ResolveLocalToInstant(local, zone, mode) == Ok(if UTCOfWall(local).value < change then t else u)
  {
    hide UTCOfWall, Plain, ResolveLocalToInstant;
    ResolvesTo(local, zone, mode, m);
    ReadingsOfOneChange(zone, UTCOfWall(local).value, m, change, a, b);
  }

  /** A wall time inside the skipped gap lands exactly one offset change away, in either mode. */
  lemma SkippedTimeLandsOneChangeAway(local: LocalDateTime, zone: TimeZone, mode: Disambiguation,
                                      m: int, change: int, a: int, b: int)
    requires RealWall(local) && UTCOfWall(local).Some? && Tame(zone, UTCOfWall(local).value, m)
    requires OneChange(zone, UTCOfWall(local).value, m, change, a, b)
    requires !Exists(zone, UTCOfWall(local).value)
    ensures a < b
    ensures var g := UTCOfWall(local).value;
            var early := if mode == Earlier then g < change else g >= change;
            ReadBack(local, zone, mode) == Ok(Wall(if early then g + (b - a) else g - (b - a)))
  {
    hide UTCOfWall, Wall, Plain, ReadBack, RealWall;
    ReadsBackIffReading(local, zone, mode, m);
    var g := UTCOfWall(local).value;
    assert zone.offset(g - a) == if g - a < change then a else b;
    assert zone.offset(g - b) == if g - b < change then a else b;
    assert !Reading(zone, g, g - a) && !Reading(zone, g, g - b);
  }

  // ---------- from an instant to the wall clock and back ----------

  /** Resolving the wall clock of an instant, in terms of the offsets: for any zone, "earlier" mode gives
    * the instant back exactly when the first probe finds its offset, "later" mode exactly when the second
    * does.
    */
  lemma InstantReturns(t: int, zone: TimeZone, m: int)
    requires zone.Zone? && Tame(zone, t + zone.offset(t), m)
    ensures ResolveInstantToLocal(t, zone).Ok?
    ensures var local := ResolveInstantToLocal(t, zone).value;
            var g := t + zone.offset(t);
            && (ResolveLocalToInstant(local, zone, Earlier) == Ok(t) <==> zone.offset(g) == zone.offset(t))
            && (ResolveLocalToInstant(local, zone, Later) == Ok(t) <==>
                  zone.offset(g - zone.offset(g)) == zone.offset(t))
  {
    hide UTCOfWall, Wall, Plain, ResolveLocalToInstant;
    var g := t + zone.offset(t);
    WallRoundTrip(g);
    ResolvesTo(Wall(g), zone, Earlier, m);
    ResolvesTo(Wall(g), zone, Later, m);
  }

  /** With at most one change nearby, "earlier" mode gives an instant back exactly when its wall clock,
    * read as UTC, is on the same side of the change; "later" mode also whenever that wall clock is shown
    * only once.
    */
  lemma InstantReturnsAcrossOneChange(t: int, zone: TimeZone, m: int, change: int, a: int, b: int)
    requires zone.Zone? && Tame(zone, t + zone.offset(t), m)
    requires OneChange(zone, t + zone.offset(t), m, change, a, b)
    ensures ResolveInstantToLocal(t, zone).Ok?
    ensures var local := ResolveInstantToLocal(t, zone).value;
            var g := t + zone.offset(t);
            var sameSide := t < change <==> g < change;
            var once := !(change + b <= g < change + a);
            && (once <==> forall u :: Reading(zone, g, u) ==> u == t)
            && (ResolveLocalToInstant(local, zone, Earlier) == Ok(t) <==> a == b || sameSide)
            && (ResolveLocalToInstant(local, zone, Later) == Ok(t) <==> once || sameSide)
  {
    hide UTCOfWall, Wall, Plain, ResolveLocalToInstant, Tame;
    InstantReturns(t, zone, m);
    ShownOnce(t, zone, m, change, a, b);
    ProbesOfOneChange(t, zone, m, change, a, b);
  }

  lemma ShownOnce(t: int, zone: TimeZone, m: int, change: int, a: int, b: int)
    requires zone.Zone? && Tame(zone, t + zone.offset(t), m)
    requires OneChange(zone, t + zone.offset(t), m, change, a, b)
    ensures var g := t + zone.offset(t);
            !(change + b <= g < change + a) <==> forall u :: Reading(zone, g, u) ==> u == t
  {
    hide Plain;
    var g := t + zone.offset(t);
    ReadingsOfOneChange(zone, g, m, change, a, b);
    assert Reading(zone, g, t);
    if change + b <= g < change + a {
      assert Reading(zone, g, g - a) && Reading(zone, g, g - b);
    }
  }

  lemma ProbesOfOneChange(t: int, zone: TimeZone, m: int, change: int, a: int, b: int)
    requires zone.Zone? && Tame(zone, t + zone.offset(t), m)
    requires OneChange(zone, t + zone.offset(t), m, change, a, b)
    ensures var g := t + zone.offset(t);
            var sameSide := t < change <==> g < change;
            && (zone.offset(g) == zone.offset(t) <==> a == b || sameSide)
            && (zone.offset(g - zone.offset(g)) == zone.offset(t) <==>
                  !(change + b <= g < change + a) || sameSide)
  {
    hide Plain;
    var g := t + zone.offset(t);
    assert zone.offset(t) == if t < change then a else b;
    assert zone.offset(g) == if g < change then a else b;
    assert zone.offset(g - a) == if g - a < change then a else b;
    assert zone.offset(g - b) == if g - b < change then a else b;
  }

  // ---------- an ordinary time the default mode misses ----------

  const HOUR := 3_600_000

  /** New York around 2026-03-08 07:00 UTC. */
  const NEW_YORK := Zone((t: int) => if t < 1_772_953_200_000 then -5 * HOUR else -4 * HOUR)

  function March8(hour: int): LocalDateTime
    requires 0 <= hour <= 23
  {
    var d: RawDate := LocalDate(2026, 3, 8);
    var t: RawTime := LocalTime(hour, 0, 0);
    LocalDateTime(d, t)
  }

  lemma March8IsPlain(hour: int)
    requires 0 <= hour <= 23
    ensures RealWall(March8(hour))
    ensures UTCOfWall(March8(hour)) == Some(1_772_928_000_000 + hour * 3_600_000)
    ensures Tame(NEW_YORK, 1_772_928_000_000 + hour * 3_600_000, 5 * HOUR)
  {
    hide UTCOfWall, RealWall, Tame;
    March8AsUTC(hour);
    March8IsTame(March8(hour), 1_772_928_000_000 + hour * 3_600_000);
  }

  lemma March8AsUTC(hour: int)
    requires 0 <= hour <= 23
    ensures RealWall(March8(hour))
    ensures UTCOfWall(March8(hour)) == Some(1_772_928_000_000 + hour * 3_600_000)
  {
    hide UTCDay, DateUTC, EpochDay, MsOfTime, LeapYear;
    var l := March8(hour);
    DayOfMarch8(l.date);
    assert MsOfTime(l.time) == hour * 3_600_000 by { WholeHours(l.time); }
    DateUTCOfDate(l.date, MsOfTime(l.time));
  }

  lemma WholeHours(t: Time)
    requires t.minute == 0 && t.second == 0
    ensures MsOfTime(t) == t.hour * 3_600_000
  {}

  lemma DayOfMarch8(d: Date)
    requires d == LocalDate(2026, 3, 8)
    ensures UTCDay(d) == 20_520
  {}

  lemma March8IsTame(l: LocalDateTime, g: int)
    requires RealDate(l.date) && l.date.year == 2026 && UTCOfWall(l) == Some(g) && g % 1000 == 0
    ensures Tame(NEW_YORK, g, 5 * HOUR)
  {
    hide UTCOfWall, Plain;
    forall w | g - 10 * HOUR <= w <= g + 10 * HOUR ensures Plain(w) {
      OrdinaryTimesArePlain(l, w);
    }
  }

  /** 04:00 exists on that day, an hour after the gap, but the default mode resolves it to 05:00;
    * "later" mode resolves it correctly.
    */
  lemma DefaultModeMissesFourOClock()
    ensures ReadBack(March8(4), NEW_YORK, Earlier) == Ok(March8(5))
    ensures ReadBack(March8(4), NEW_YORK, Later) == Ok(March8(4))
  {
    hide UTCOfWall, Wall, ReadBack, RealWall, March8, Plain, Tame;
    March8IsPlain(4);
    March8IsPlain(5);
    EarlierReadsBack(March8(4), NEW_YORK, 5 * HOUR);
    RealWallRoundTrip(March8(5));
    ReadsBackIffReading(March8(4), NEW_YORK, Later, 5 * HOUR);
  }
}
