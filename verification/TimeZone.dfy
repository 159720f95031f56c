/** UTC and local time conversion of muduo/base/TimeZone.cc. */
module TimeZone {
  import opened CArith
  import opened Dates

  const SECONDS_PER_DAY: int := 24 * 60 * 60

  /** `Date::kJulianDayOf1970_01_01`. */
  const JULIAN_DAY_OF_1970: int := GetJulianDayNumber(1970, 1, 1)

  /** The fields of `struct tm` that the conversions set, without the zone name. */
  datatype Tm = Tm(sec: int, min: int, hour: int, mday: int, mon: int, year: int,
                   wday: int, yday: int, isdst: bool, gmtoff: int)

  // ----- UTC

  function ToUtcTime(secondsSinceEpoch: int, yday: bool): Tm {
    var rem := CastInt(Rem(secondsSinceEpoch, SECONDS_PER_DAY));
    var quot := CastInt(Quot(secondsSinceEpoch, SECONDS_PER_DAY));
    var seconds := if rem < 0 then rem + SECONDS_PER_DAY else rem;
    var days := if rem < 0 then quot - 1 else quot;
    var date := days + JULIAN_DAY_OF_1970;
    var ymd := GetYearMonthDay(date);
    Tm(seconds % 60, seconds / 60 % 60, seconds / 60 / 60,
       ymd.day, ymd.month - 1, ymd.year - 1900, WeekDay(date),
       if yday then date - GetJulianDayNumber(ymd.year, 1, 1) else 0,
       false, 0)
  }

  function FromUtcFields(year: int, month: int, day: int, hour: int, minute: int, seconds: int): int {
    var secondsInDay := hour * 3600 + minute * 60 + seconds;
    var days := GetJulianDayNumber(year, month, day) - JULIAN_DAY_OF_1970;
    days * SECONDS_PER_DAY + secondsInDay
  }

  function FromUtcTime(utc: Tm): int {
    FromUtcFields(utc.year + 1900, utc.mon + 1, utc.mday, utc.hour, utc.min, utc.sec)
  }

  /** The calendar date a broken-down time names. */
  function DateOf(t: Tm): YearMonthDay {
    YearMonthDay(t.year + 1900, t.mon + 1, t.mday)
  }

  /** The instants whose day number the calendar covers without overflow. */
  predicate InDateRange(s: int) {
    FIRST_DAY <= s / SECONDS_PER_DAY + JULIAN_DAY_OF_1970 <= LAST_DAY
  }

  predicate ValidClock(t: Tm) {
    0 <= t.sec < 60 && 0 <= t.min < 60 && 0 <= t.hour < 24
  }

  /** Broken-down times in range, for the opposite round trip. */
  predicate ValidTm(t: Tm) {
    ValidClock(t) && ValidDate(DateOf(t)) && Covered(DateOf(t)) && DayNumber(DateOf(t)) <= LAST_DAY
  }

  lemma EpochDay()
    ensures JULIAN_DAY_OF_1970 == 2440588
  {
  }

  /** Truncation and the correction of negative seconds amount to rounding down. */
  lemma ToUtcParts(s: int, yday: bool)
    requires InDateRange(s)
    ensures var date := s / SECONDS_PER_DAY + JULIAN_DAY_OF_1970;
            var clock := s % SECONDS_PER_DAY;
            var t := ToUtcTime(s, yday);
            && t.hour == clock / 60 / 60 && t.min == clock / 60 % 60 && t.sec == clock % 60
            && DateOf(t) == GetYearMonthDay(date) && t.wday == WeekDay(date)
            && t.yday == (if yday then date - GetJulianDayNumber(DateOf(t).year, 1, 1) else 0)
            && !t.isdst && t.gmtoff == 0
  {
    EpochDay();
    RoundDown(s);
  }

  lemma RoundDown(s: int)
    requires InDateRange(s)
    ensures var rem := CastInt(Rem(s, SECONDS_PER_DAY));
            var quot := CastInt(Quot(s, SECONDS_PER_DAY));
            if rem < 0 then rem + SECONDS_PER_DAY == s % SECONDS_PER_DAY && quot - 1 == s / SECONDS_PER_DAY
            else rem == s % SECONDS_PER_DAY && quot == s / SECONDS_PER_DAY
  {
    EpochDay();
    if s < 0 {
      var q, r := (-s) / SECONDS_PER_DAY, (-s) % SECONDS_PER_DAY;
      if r == 0 {
        QuotientIs(s, SECONDS_PER_DAY, -q, 0);
      } else {
        QuotientIs(s, SECONDS_PER_DAY, -q - 1, SECONDS_PER_DAY - r);
      }
    }
  }

  /** Breaking an instant down and reassembling it gives it back. */
  lemma UtcRoundTrip(s: int, yday: bool)
    requires InDateRange(s)
    ensures FromUtcTime(ToUtcTime(s, yday)) == s
    ensures ValidTm(ToUtcTime(s, yday))
  {
    hide ToUtcTime, ValidDate, Covered, DayNumber, ShowsClock, FromUtcTime, ValidTm;
    ToUtcDate(s, yday);
    ToUtcClock(s, yday);
    Reassembled(s, ToUtcTime(s, yday), s / SECONDS_PER_DAY, s % SECONDS_PER_DAY);
  }

  /** `t` shows the given second of the day. */
  predicate ShowsClock(t: Tm, clock: int) {
    t.hour * 3600 + t.min * 60 + t.sec == clock && ValidClock(t)
  }

  lemma ToUtcClock(s: int, yday: bool)
    requires InDateRange(s)
    ensures ShowsClock(ToUtcTime(s, yday), s % SECONDS_PER_DAY)
  {
    ToUtcParts(s, yday);
    ClockParts(s % SECONDS_PER_DAY);
  }

  lemma ToUtcDate(s: int, yday: bool)
    requires InDateRange(s)
    ensures var d := DateOf(ToUtcTime(s, yday));
            ValidDate(d) && Covered(d) && DayNumber(d) == s / SECONDS_PER_DAY + JULIAN_DAY_OF_1970
  {
    hide ToUtcTime, ValidDate, Covered, GetYearMonthDay, DayNumber;
    var date := s / SECONDS_PER_DAY + JULIAN_DAY_OF_1970;
    var d := DateOf(ToUtcTime(s, yday));
    assert d == GetYearMonthDay(date) by {
      ToUtcParts(s, yday);
    }
    DayNumberOfDate(date);
  }

  lemma Reassembled(s: int, t: Tm, days: int, clock: int)
    requires s == days * SECONDS_PER_DAY + clock && days + JULIAN_DAY_OF_1970 <= LAST_DAY
    requires ShowsClock(t, clock)
    requires ValidDate(DateOf(t)) && Covered(DateOf(t)) && DayNumber(DateOf(t)) == days + JULIAN_DAY_OF_1970
    ensures FromUtcTime(t) == s && ValidTm(t)
  {
  }

  lemma ClockParts(clock: int)
    requires 0 <= clock < SECONDS_PER_DAY
    ensures 0 <= clock / 60 / 60 < 24
    ensures clock / 60 / 60 * 3600 + clock / 60 % 60 * 60 + clock % 60 == clock
  {
  }

  /** Assembling valid fields and breaking the result down gives the fields back. */
  lemma UtcFieldsRoundTrip(t: Tm, yday: bool)
    requires ValidTm(t)
    ensures InDateRange(FromUtcTime(t))
    ensures var u := ToUtcTime(FromUtcTime(t), yday);
            u.sec == t.sec && u.min == t.min && u.hour == t.hour && DateOf(u) == DateOf(t)
  {
    hide ToUtcTime, ValidDate, Covered, GetYearMonthDay, GetJulianDayNumber;
    var s := FromUtcTime(t);
    var clock := t.hour * 3600 + t.min * 60 + t.sec;
    QuotientIs(s, SECONDS_PER_DAY, DayNumber(DateOf(t)) - JULIAN_DAY_OF_1970, clock);
    DateOfDayNumber(DateOf(t));
    ToUtcParts(s, yday);
    QuotientIs(clock, 60, t.hour * 60 + t.min, t.sec);
    QuotientIs(t.hour * 60 + t.min, 60, t.hour, t.min);
  }

  // ----- Day of the year

  function DaysBeforeMonthInYear(year: int, month: int): int
    requires 1 <= month <= 12
  {
    if month == 1 then 0 else DaysBeforeMonthInYear(year, month - 1) + DaysInMonth(year, month - 1)
  }

  /** Days since 1 January, by the calendar alone. */
  function DayOfYear(d: YearMonthDay): int
    requires ValidDate(d)
  {
    DaysBeforeMonthInYear(d.year, d.month) + d.day - 1
  }

  lemma {:induction false} DayNumberInYear(d: YearMonthDay)
    requires ValidDate(d) && d.year > -4800
    ensures DayNumber(d) - GetJulianDayNumber(d.year, 1, 1) == DayOfYear(d)
    decreases d.month, d.day
  {
    if d.month > 1 || d.day > 1 {
      hide GetJulianDayNumber, ValidDate, DayOfYear, Successor;
      DayBeforeIs(d);
      DayNumberInYear(DayBefore(d));
      SuccessorIsNextDay(DayBefore(d));
    }
  }

  lemma DayOfYearBounds(d: YearMonthDay)
    requires ValidDate(d)
    ensures 0 <= DayOfYear(d) < (if Leap(d.year) then 366 else 365)
  {
    var n := if Leap(d.year) then 1 else 0;
    assert DaysBeforeMonthInYear(d.year, 2) == 31;
    assert DaysBeforeMonthInYear(d.year, 3) == 59 + n;
    assert DaysBeforeMonthInYear(d.year, 4) == 90 + n;
    assert DaysBeforeMonthInYear(d.year, 5) == 120 + n;
    assert DaysBeforeMonthInYear(d.year, 6) == 151 + n;
    assert DaysBeforeMonthInYear(d.year, 7) == 181 + n;
    assert DaysBeforeMonthInYear(d.year, 8) == 212 + n;
    assert DaysBeforeMonthInYear(d.year, 9) == 243 + n;
    assert DaysBeforeMonthInYear(d.year, 10) == 273 + n;
    assert DaysBeforeMonthInYear(d.year, 11) == 304 + n;
    assert DaysBeforeMonthInYear(d.year, 12) == 334 + n;
  }

  /**
   * A requested `tm_yday` lies in 0..365. It is the calendar's day of the year except in
   * the first covered year, whose 1 January the formulas misplace by a day.
   */
  lemma YearDay(s: int)
    requires InDateRange(s)
    ensures 0 <= ToUtcTime(s, true).yday <= 365
    ensures ValidDate(DateOf(ToUtcTime(s, true)))
    ensures ToUtcTime(s, true).yday == DayOfYear(DateOf(ToUtcTime(s, true)))
            <==> DateOf(ToUtcTime(s, true)).year > -4800
  {
    hide ToUtcTime, Covered, GetYearMonthDay, GetJulianDayNumber, DayOfYear;
    var date := s / SECONDS_PER_DAY + JULIAN_DAY_OF_1970;
    var d := GetYearMonthDay(date);
    ToUtcParts(s, true);
    DayNumberOfDate(date);
    DayOfYearBounds(d);
    if d.year > -4800 {
      DayNumberInYear(d);
    } else {
      FirstYear(d);
    }
  }

  lemma {:induction false} FirstYear(d: YearMonthDay)
    requires ValidDate(d) && d.year == -4800 && d.month >= 3
    ensures DayNumber(d) - GetJulianDayNumber(-4800, 1, 1) == DayOfYear(d) - 1
    ensures DayOfYear(d) >= 60
    decreases d.month, d.day
  {
    hide GetJulianDayNumber, ValidDate, DayOfYear, Successor;
    FirstMarch();
    if d != YearMonthDay(-4800, 3, 1) {
      DayBeforeIs(d);
      FirstYear(DayBefore(d));
      SuccessorIsNextDay(DayBefore(d));
    }
  }

  /** The day before, within a year. */
  function DayBefore(d: YearMonthDay): YearMonthDay
    requires ValidDate(d) && (d.month > 1 || d.day > 1)
  {
    if d.day > 1 then d.(day := d.day - 1)
    else YearMonthDay(d.year, d.month - 1, DaysInMonth(d.year, d.month - 1))
  }

  lemma DayBeforeIs(d: YearMonthDay)
    requires ValidDate(d) && (d.month > 1 || d.day > 1)
    ensures var p := DayBefore(d);
            ValidDate(p) && Successor(p) == d && DayOfYear(p) + 1 == DayOfYear(d)
    ensures DayBefore(d).year == d.year && d.day >= 1
  {
  }

  /** The first covered day, 1 March -4800, gets day 59 of the year instead of 60. */
  lemma YearDayOff()
    ensures var s := (FIRST_DAY - JULIAN_DAY_OF_1970) * SECONDS_PER_DAY;
            && InDateRange(s) && DateOf(ToUtcTime(s, true)) == YearMonthDay(-4800, 3, 1)
            && ToUtcTime(s, true).yday == 59 && DayOfYear(YearMonthDay(-4800, 3, 1)) == 60
  {
    hide ToUtcTime, GetYearMonthDay, GetJulianDayNumber;
    EpochDay();
    var s := (FIRST_DAY - JULIAN_DAY_OF_1970) * SECONDS_PER_DAY;
    ToUtcParts(s, true);
    DateOfDayNumber(YearMonthDay(-4800, 3, 1));
    FirstMarch();
  }

  lemma FirstMarch()
    ensures GetJulianDayNumber(-4800, 3, 1) == -32044 && GetJulianDayNumber(-4800, 1, 1) == -32103
    ensures ValidDate(YearMonthDay(-4800, 3, 1)) && DayOfYear(YearMonthDay(-4800, 3, 1)) == 60
  {
    assert DaysBeforeMonthInYear(-4800, 2) == 31;
  }

  // ----- Zones

  datatype Transition = Transition(gmttime: int, localtime: int, localtimeIdx: nat)

  datatype Localtime = Localtime(gmtOffset: int, isDst: bool)

  datatype Zone = Zone(transitions: seq<Transition>, localtimes: seq<Localtime>)

  /** What `Comp` compares. */
  function Key(t: Transition, gmt: bool): int {
    if gmt then t.gmttime else t.localtime
  }

  /** Zone data as the file reader builds it: 32-bit times, indices in range. */
  predicate WellFormed(z: Zone) {
    && |z.localtimes| > 0
    && (forall l | l in z.localtimes :: FitsInt(l.gmtOffset))
    && forall t | t in z.transitions ::
         && FitsInt(t.gmttime) && t.localtimeIdx < |z.localtimes|
         && t.localtime == t.gmttime + z.localtimes[t.localtimeIdx].gmtOffset
  }

  predicate StrictlySorted(ts: seq<Transition>, gmt: bool) {
    forall i, j | 0 <= i < j < |ts| :: Key(ts[i], gmt) < Key(ts[j], gmt)
  }

  /** Linear scan from the back for the last transition not after the key. */
  function LastNotAfter(ts: seq<Transition>, gmt: bool, key: int): (k: int)
    ensures -1 <= k < |ts|
    ensures k >= 0 ==> Key(ts[k], gmt) <= key
    ensures forall i | k < i < |ts| :: key < Key(ts[i], gmt)
  {
    if |ts| == 0 then -1
    else if Key(ts[|ts| - 1], gmt) <= key then |ts| - 1
    else
      var k := LastNotAfter(ts[..|ts| - 1], gmt, key);
      assert forall i | k < i < |ts| - 1 :: ts[i] == ts[..|ts| - 1][i];
      k
  }

  /** The local time rules in force after transition k, or before all of them. */
  function InForce(z: Zone, k: int): Localtime
    requires WellFormed(z) && -1 <= k < |z.transitions|
  {
    if k < 0 then z.localtimes[0] else z.localtimes[z.transitions[k].localtimeIdx]
  }

  function Off(z: Zone, k: int): int
    requires WellFormed(z) && -1 <= k < |z.transitions|
  {
    InForce(z, k).gmtOffset
  }

  function LocaltimeAt(z: Zone, gmt: bool, key: int): Localtime
    requires WellFormed(z)
  {
    InForce(z, LastNotAfter(z.transitions, gmt, key))
  }

  /** `std::lower_bound`: first position whose key is not below the given one. */
  method LowerBound(ts: seq<Transition>, key: int, gmt: bool) returns (first: nat)
    requires StrictlySorted(ts, gmt)
    ensures first <= |ts|
    ensures forall i | 0 <= i < first :: Key(ts[i], gmt) < key
    ensures forall i | first <= i < |ts| :: key <= Key(ts[i], gmt)
  {
    first := 0;
    var count := |ts|;
    while count > 0
      invariant 0 <= count && first + count <= |ts|
      invariant forall i | 0 <= i < first :: Key(ts[i], gmt) < key
      invariant forall i | first + count <= i < |ts| :: key <= Key(ts[i], gmt)
    {
      var step := count / 2;
      if Key(ts[first + step], gmt) < key {
        first := first + step + 1;
        count := count - step - 1;
      } else {
        count := step;
      }
    }
  }

  /** The binary search agrees with the linear scan. */
  method FindLocaltime(z: Zone, key: int, gmt: bool) returns (local: Localtime)
    requires WellFormed(z) && StrictlySorted(z.transitions, gmt)
    ensures local == LocaltimeAt(z, gmt, key)
  {
    var ts := z.transitions;
    if |ts| == 0 || key < Key(ts[0], gmt) {
      local := z.localtimes[0];
    } else {
      var i := LowerBound(ts, key, gmt);
      if i < |ts| {
        if key != Key(ts[i], gmt) {
          assert i > 0;
          i := i - 1;
        }
        local := z.localtimes[ts[i].localtimeIdx];
      } else {
        local := z.localtimes[ts[|ts| - 1].localtimeIdx];
      }
    }
  }

  // ----- Local time

  function ToLocalTime(z: Zone, seconds: int): Tm
    requires WellFormed(z)
  {
    var local := LocaltimeAt(z, true, seconds);
    ToUtcTime(seconds + local.gmtOffset, true).(isdst := local.isDst, gmtoff := local.gmtOffset)
  }

  function FromLocalTime(z: Zone, t: Tm): int
    requires WellFormed(z)
  {
    var seconds := FromUtcTime(t);
    var offset := LocaltimeAt(z, false, seconds).gmtOffset;
    if t.isdst && SameClockInStandardTime(ToLocalTime(z, seconds - offset), t)
    then seconds - 3600 - offset else seconds - offset
  }

  /** The test that recognises the repeated hour. */
  predicate SameClockInStandardTime(tried: Tm, t: Tm) {
    !tried.isdst && tried.hour == t.hour && tried.min == t.min
  }

  method ComputeToLocalTime(z: Zone, seconds: int) returns (t: Tm)
    requires WellFormed(z) && StrictlySorted(z.transitions, true)
    ensures t == ToLocalTime(z, seconds)
  {
    hide ToUtcTime;
    var local := FindLocaltime(z, seconds, true);
    t := ToUtcTime(seconds + local.gmtOffset, true);
    t := t.(isdst := local.isDst);
    t := t.(gmtoff := local.gmtOffset);
  }

  method ComputeFromLocalTime(z: Zone, localTm: Tm) returns (r: int)
    requires WellFormed(z) && StrictlySorted(z.transitions, true) && StrictlySorted(z.transitions, false)
    ensures r == FromLocalTime(z, localTm)
  {
    hide ToUtcTime, FromUtcTime;
    var seconds := FromUtcTime(localTm);
    var local := FindLocaltime(z, seconds, false);
    if localTm.isdst {
      var tried := ComputeToLocalTime(z, seconds - local.gmtOffset);
      if !tried.isdst && tried.hour == localTm.hour && tried.min == localTm.min {
        seconds := seconds - 3600;
      }
    }
    return seconds - local.gmtOffset;
  }

  // ----- The local round trip

  /** Offsets change by at most `step`, and transitions are more than twice that apart. */
  predicate WellSpaced(z: Zone, step: nat)
    requires WellFormed(z)
  {
    && (forall k | 0 <= k < |z.transitions|  ::
           Off(z, k) - Off(z, k - 1) <= step && Off(z, k - 1) - Off(z, k) <= step)
    && forall k | 1 <= k < |z.transitions| ::
         z.transitions[k].gmttime - z.transitions[k - 1].gmttime > 2 * step
  }

  /** The change at transition k turns the clock back one hour from DST to standard time. */
  predicate EndsDst(z: Zone, k: int)
    requires WellFormed(z) && 0 <= k < |z.transitions|
  {
    Off(z, k - 1) - Off(z, k) == 3600 && InForce(z, k - 1).isDst && !InForce(z, k).isDst
  }

  /** The instant's local clock reading will be shown again after transition k. */
  predicate ShownAgain(z: Zone, k: int, s: int)
    requires WellFormed(z) && 0 <= k < |z.transitions|
  {
    z.transitions[k].gmttime - (Off(z, k - 1) - Off(z, k)) <= s < z.transitions[k].gmttime
  }

  lemma {:induction false} SpacedIsSorted(z: Zone, step: nat, i: int, j: int)
    requires WellFormed(z) && WellSpaced(z, step) && 0 <= i < j < |z.transitions|
    ensures z.transitions[i].gmttime < z.transitions[j].gmttime
    ensures z.transitions[i].localtime < z.transitions[j].localtime
    decreases j
  {
    var u, t := z.transitions[j - 1], z.transitions[j];
    assert u in z.transitions && t in z.transitions;
    assert Off(z, j - 1) - Off(z, j) <= step;
    if i < j - 1 {
      SpacedIsSorted(z, step, i, j - 1);
    }
  }

  /** Well-spaced transitions are sorted by either key, as the searches require. */
  lemma SortedByBothKeys(z: Zone, step: nat)
    requires WellFormed(z) && WellSpaced(z, step)
    ensures StrictlySorted(z.transitions, true) && StrictlySorted(z.transitions, false)
  {
    forall i, j | 0 <= i < j < |z.transitions|
      ensures forall gmt :: Key(z.transitions[i], gmt) < Key(z.transitions[j], gmt)
    {
      SpacedIsSorted(z, step, i, j);
    }
  }

  lemma LastNotAfterIs(ts: seq<Transition>, gmt: bool, key: int, k: int)
    requires StrictlySorted(ts, gmt) && -1 <= k < |ts|
    requires k >= 0 ==> Key(ts[k], gmt) <= key
    requires k + 1 < |ts| ==> key < Key(ts[k + 1], gmt)
    ensures LastNotAfter(ts, gmt, key) == k
  {
  }

  /** Searching by local time finds the right rules, or the next ones in a repeated stretch. */
  lemma SearchByLocalTime(z: Zone, step: nat, s: int)
    requires WellFormed(z) && WellSpaced(z, step)
    ensures var k := LastNotAfter(z.transitions, true, s);
            LastNotAfter(z.transitions, false, s + Off(z, k)) ==
            if k + 1 < |z.transitions| && ShownAgain(z, k + 1, s) then k + 1 else k
  {
    hide StrictlySorted, WellSpaced, WellFormed, LastNotAfter, Off;
    var ts := z.transitions;
    var k := LastNotAfter(ts, true, s);
    SortedByBothKeys(z, step);
    if k >= 0 {
      LocalOfTransition(z, k);
    }
    if k + 1 == |ts| {
      LastNotAfterIs(ts, false, s + Off(z, k), k);
    } else {
      LocalOfTransition(z, k + 1);
      if ShownAgain(z, k + 1, s) {
        if k + 2 < |ts| {
          LocalOfTransition(z, k + 2);
          StepBackIsShort(z, step, k + 1);
        }
        LastNotAfterIs(ts, false, s + Off(z, k), k + 1);
      } else {
        LastNotAfterIs(ts, false, s + Off(z, k), k);
      }
    }
  }

  lemma LocalOfTransition(z: Zone, k: int)
    requires WellFormed(z) && 0 <= k < |z.transitions|
    ensures z.transitions[k].localtime == z.transitions[k].gmttime + Off(z, k)
  {
    assert z.transitions[k] in z.transitions;
  }

  /** A repeated stretch is over before the next transition, on either clock. */
  lemma StepBackIsShort(z: Zone, step: nat, k: int)
    requires WellFormed(z) && WellSpaced(z, step) && 0 <= k < |z.transitions| - 1
    ensures z.transitions[k].gmttime + Off(z, k - 1) - Off(z, k) < z.transitions[k + 1].gmttime
    ensures z.transitions[k].gmttime + Off(z, k - 1) < z.transitions[k + 1].gmttime + Off(z, k + 1)
  {
    assert Off(z, k - 1) - Off(z, k) <= step;
    assert Off(z, (k + 1) - 1) - Off(z, k + 1) <= step;
    assert z.transitions[k + 1].gmttime - z.transitions[(k + 1) - 1].gmttime > 2 * step;
  }

  /** In a repeated stretch, the same clock reading belongs to the next rules. */
  lemma SecondShowing(z: Zone, step: nat, s: int)
    requires WellFormed(z) && WellSpaced(z, step)
    requires var k := LastNotAfter(z.transitions, true, s);
             k + 1 < |z.transitions| && ShownAgain(z, k + 1, s)
    ensures var k := LastNotAfter(z.transitions, true, s);
            LastNotAfter(z.transitions, true, s + Off(z, k) - Off(z, k + 1)) == k + 1
  {
    hide StrictlySorted, WellSpaced, WellFormed, LastNotAfter;
    var ts := z.transitions;
    var k := LastNotAfter(ts, true, s);
    SortedByBothKeys(z, step);
    if k + 2 < |ts| {
      StepBackIsShort(z, step, k + 1);
    }
    LastNotAfterIs(ts, true, s + Off(z, k) - Off(z, k + 1), k + 1);
  }

  /** What the clock shows at an instant, counted in seconds. */
  function Reading(z: Zone, s: int): int
    requires WellFormed(z)
  {
    s + LocaltimeAt(z, true, s).gmtOffset
  }

  /** Local time shows the instant moved by the offset in force, with that offset and its flag. */
  lemma LocalClock(z: Zone, s: int)
    requires WellFormed(z) && StrictlySorted(z.transitions, true) && InDateRange(Reading(z, s))
    ensures FromUtcTime(ToLocalTime(z, s)) == Reading(z, s)
    ensures FromUtcTime(ToLocalTime(z, s)) - ToLocalTime(z, s).gmtoff == s
    ensures ToLocalTime(z, s).isdst == LocaltimeAt(z, true, s).isDst && ValidClock(ToLocalTime(z, s))
  {
    hide GetYearMonthDay, GetJulianDayNumber, LocaltimeAt, CastInt, Rem, Quot;
    UtcRoundTrip(s + LocaltimeAt(z, true, s).gmtOffset, true);
  }

  /** The same hour and minute of the day. */
  predicate SameMinute(a: int, b: int) {
    a % SECONDS_PER_DAY / 60 == b % SECONDS_PER_DAY / 60
  }

  /** Hour and minute are those of a reading. */
  predicate ClockOf(t: Tm, reading: int) {
    t.hour == reading % SECONDS_PER_DAY / 60 / 60 && t.min == reading % SECONDS_PER_DAY / 60 % 60
  }

  /** The test for the repeated hour, in terms of readings. */
  lemma SameClockIff(z: Zone, tried: int, t: Tm)
    requires WellFormed(z) && InDateRange(Reading(z, tried)) && InDateRange(FromUtcTime(t))
    requires ClockOf(t, FromUtcTime(t))
    ensures SameClockInStandardTime(ToLocalTime(z, tried), t) <==>
            !LocaltimeAt(z, true, tried).isDst && SameMinute(Reading(z, tried), FromUtcTime(t))
  {
    hide ToUtcTime, FromUtcTime, LocaltimeAt, GetYearMonthDay, GetJulianDayNumber, InDateRange, WellFormed;
    ToUtcParts(Reading(z, tried), true);
    MinuteIs(Reading(z, tried), FromUtcTime(t));
  }

  lemma MinuteIs(a: int, b: int)
    ensures var x, y := a % SECONDS_PER_DAY / 60, b % SECONDS_PER_DAY / 60;
            SameMinute(a, b) <==> x / 60 == y / 60 && x % 60 == y % 60
  {
  }

  /** The index found by local time is the one in force, or a later one with a smaller offset. */
  lemma LaterRules(z: Zone, s: int, k: int, j: int)
    requires WellFormed(z) && k == LastNotAfter(z.transitions, true, s)
    requires j == LastNotAfter(z.transitions, false, s + Off(z, k))
    ensures k <= j && (k < j ==> Off(z, j) < Off(z, k) && InDateRange(Reading(z, s + Off(z, k) - Off(z, j))))
  {
    hide LastNotAfter, WellFormed;
    if k >= 0 {
      LocalOfTransition(z, k);
    }
    if k < j {
      LocalOfTransition(z, j);
      var u := s + Off(z, k) - Off(z, j);
      var m := LastNotAfter(z.transitions, true, u);
      OffsetsFit(z, k);
      OffsetsFit(z, j);
      OffsetsFit(z, m);
      EpochDay();
    }
  }

  lemma OffsetsFit(z: Zone, k: int)
    requires WellFormed(z) && -1 <= k < |z.transitions|
    ensures FitsInt(Off(z, k)) && (k >= 0 ==> FitsInt(z.transitions[k].gmttime))
  {
    assert k >= 0 ==> z.transitions[k] in z.transitions;
    assert InForce(z, k) in z.localtimes;
  }

  /** Date, day of the week and day of the year of local time are those of the reading. */
  lemma LocalDay(z: Zone, s: int)
    requires WellFormed(z) && StrictlySorted(z.transitions, true) && InDateRange(Reading(z, s))
    ensures var t, date := ToLocalTime(z, s), Reading(z, s) / SECONDS_PER_DAY + JULIAN_DAY_OF_1970;
            && DateOf(t) == GetYearMonthDay(date) && t.wday == WeekDay(date) && ValidDate(DateOf(t))
            && (DateOf(t).year > -4800 ==> t.yday == DayOfYear(DateOf(t)))
  {
    hide ToUtcTime, LocaltimeAt, GetYearMonthDay, GetJulianDayNumber, DayOfYear, InDateRange, WellFormed, WeekDay;
    ToUtcParts(Reading(z, s), true);
    YearDay(Reading(z, s));
  }

  /**
   * Converting to local time and back, in any zone whose transitions are in order by both keys. Let k be the
   * rules in force, j those found by the clock reading, and m those in force at the instant tried with them.
   * The same instant comes back exactly if j is k, or if j is an hour behind k and the test for the repeated
   * hour succeeds.
   */
  lemma LocalRoundTrip(z: Zone, s: int)
    requires WellFormed(z) && StrictlySorted(z.transitions, true) && StrictlySorted(z.transitions, false)
    requires InDateRange(Reading(z, s))
    ensures var k := LastNotAfter(z.transitions, true, s);
            var j := LastNotAfter(z.transitions, false, Reading(z, s));
            var m := LastNotAfter(z.transitions, true, Reading(z, s) - Off(z, j));
            FromLocalTime(z, ToLocalTime(z, s)) == s <==>
            j == k ||
            (Off(z, k) - Off(z, j) == 3600 && InForce(z, k).isDst && !InForce(z, m).isDst &&
             SameMinute(Reading(z, s), Reading(z, s) - Off(z, j) + Off(z, m)))
  {
    hide ToUtcTime, FromUtcTime, LastNotAfter, WellFormed, InDateRange, SameClockInStandardTime;
    var k := LastNotAfter(z.transitions, true, s);
    var j := LastNotAfter(z.transitions, false, Reading(z, s));
    LocalClock(z, s);
    LaterRules(z, s, k, j);
    if k < j {
      LocalHourAndMinute(z, s);
      SameClockIff(z, Reading(z, s) - Off(z, j), ToLocalTime(z, s));
    } else {
      PlainReading(z, ToLocalTime(z, s), s, k);
    }
  }

  lemma LocalHourAndMinute(z: Zone, s: int)
    requires WellFormed(z) && StrictlySorted(z.transitions, true) && InDateRange(Reading(z, s))
    ensures var t := ToLocalTime(z, s);
            FromUtcTime(t) == Reading(z, s) && ClockOf(t, FromUtcTime(t))
  {
    hide ToUtcTime, FromUtcTime, LocaltimeAt, GetYearMonthDay, GetJulianDayNumber, InDateRange, WellFormed;
    LocalClock(z, s);
    ToUtcParts(Reading(z, s), true);
  }

  lemma PlainReading(z: Zone, t: Tm, s: int, k: int)
    requires WellFormed(z) && LastNotAfter(z.transitions, true, s) == k
    requires FromUtcTime(t) == s + Off(z, k) && t.isdst == InForce(z, k).isDst
    requires LastNotAfter(z.transitions, false, s + Off(z, k)) == k
    ensures FromLocalTime(z, t) == s
  {
    hide ToUtcTime, FromUtcTime;
  }

  /**
   * With well-spaced transitions, the instants lost are exactly those whose clock reading is shown again
   * after a step back other than one hour out of DST.
   */
  lemma SpacedRoundTrip(z: Zone, step: nat, s: int)
    requires WellFormed(z) && WellSpaced(z, step) && InDateRange(Reading(z, s))
    ensures FromLocalTime(z, ToLocalTime(z, s)) == s <==>
            var k := LastNotAfter(z.transitions, true, s) + 1;
            k < |z.transitions| && ShownAgain(z, k, s) ==> EndsDst(z, k)
  {
    hide ToLocalTime, FromLocalTime, WellFormed, WellSpaced, StrictlySorted, LastNotAfter, InDateRange;
    var k := LastNotAfter(z.transitions, true, s);
    SortedByBothKeys(z, step);
    LocalRoundTrip(z, s);
    SearchByLocalTime(z, step, s);
    if k + 1 < |z.transitions| && ShownAgain(z, k + 1, s) {
      SecondShowing(z, step, s);
    }
  }

  const HALF_HOUR_ZONE: Zone :=
    Zone([Transition(1000000, 1036000, 1)], [Localtime(37800, true), Localtime(36000, false)])

  lemma HalfHourZone()
    ensures WellFormed(HALF_HOUR_ZONE) && WellSpaced(HALF_HOUR_ZONE, 1800)
    ensures LastNotAfter(HALF_HOUR_ZONE.transitions, true, 999999) == -1 && |HALF_HOUR_ZONE.transitions| == 1
    ensures Off(HALF_HOUR_ZONE, -1) == 37800 && ShownAgain(HALF_HOUR_ZONE, 0, 999999) && !EndsDst(HALF_HOUR_ZONE, 0)
  {
    hide LastNotAfter;
    LastNotAfterIs(HALF_HOUR_ZONE.transitions, true, 999999, -1);
  }

  /** A zone that loses an instant: its clock goes back half an hour out of DST. */
  lemma HalfHourLost()
    ensures var z := HALF_HOUR_ZONE;
            && WellFormed(z) && WellSpaced(z, 1800) && InDateRange(Reading(z, 999999))
            && FromLocalTime(z, ToLocalTime(z, 999999)) != 999999
  {
    hide ToLocalTime, FromLocalTime, HALF_HOUR_ZONE, LastNotAfter, ShownAgain, EndsDst, WellSpaced, WellFormed;
    HalfHourZone();
    EpochDay();
    SpacedRoundTrip(HALF_HOUR_ZONE, 1800, 999999);
  }

  /** Where every step back is one hour out of DST, every instant comes back. */
  lemma InstantSurvives(z: Zone, step: nat, s: int)
    requires WellFormed(z) && WellSpaced(z, step) && InDateRange(Reading(z, s))
    requires forall k | 0 <= k < |z.transitions| :: Off(z, k) < Off(z, k - 1) ==> EndsDst(z, k)
    ensures FromLocalTime(z, ToLocalTime(z, s)) == s
  {
    hide ToLocalTime, FromLocalTime, WellFormed, WellSpaced, LastNotAfter, InDateRange, EndsDst, Off;
    SpacedRoundTrip(z, step, s);
  }

  /** Any other step back loses the instant before it. */
  lemma InstantLost(z: Zone, step: nat, k: int)
    requires WellFormed(z) && WellSpaced(z, step) && 0 <= k < |z.transitions|
    requires Off(z, k) < Off(z, k - 1) && !EndsDst(z, k)
    ensures var s := z.transitions[k].gmttime - 1;
            InDateRange(Reading(z, s)) && FromLocalTime(z, ToLocalTime(z, s)) != s
  {
    hide ToLocalTime, FromLocalTime, WellFormed, WellSpaced, LastNotAfter, InDateRange, EndsDst, Off;
    LastInstantBefore(z, step, k);
    SpacedRoundTrip(z, step, z.transitions[k].gmttime - 1);
  }

  /** All instants survive exactly when every step back is one hour out of DST. */
  lemma ZoneRoundTrip(z: Zone, step: nat)
    requires WellFormed(z) && WellSpaced(z, step)
    ensures (forall s | InDateRange(Reading(z, s)) :: FromLocalTime(z, ToLocalTime(z, s)) == s) <==>
            (forall k | 0 <= k < |z.transitions| :: Off(z, k) < Off(z, k - 1) ==> EndsDst(z, k))
  {
    hide ToLocalTime, FromLocalTime, WellFormed, WellSpaced, InDateRange, EndsDst, Off, Reading;
    if k :| 0 <= k < |z.transitions| && Off(z, k) < Off(z, k - 1) && !EndsDst(z, k) {
      InstantLost(z, step, k);
    } else {
      forall s | InDateRange(Reading(z, s)) ensures FromLocalTime(z, ToLocalTime(z, s)) == s {
        InstantSurvives(z, step, s);
      }
    }
  }

  lemma LastInstantBefore(z: Zone, step: nat, k: int)
    requires WellFormed(z) && WellSpaced(z, step) && 0 <= k < |z.transitions|
    ensures var s := z.transitions[k].gmttime - 1;
            && InDateRange(Reading(z, s))
            && LastNotAfter(z.transitions, true, s) == k - 1
  {
    hide LastNotAfter, WellSpaced;
    var s := z.transitions[k].gmttime - 1;
    assert z.transitions[k] in z.transitions;
    SortedByBothKeys(z, step);
    LastNotAfterIs(z.transitions, true, s, k - 1);
    EpochDay();
    assert FitsInt(s + 1) && FitsInt(InForce(z, k - 1).gmtOffset);
  }

  // ----- From a clock reading and back

  /** The clock jumps over the reading at transition k. */
  predicate Skipped(z: Zone, k: int, reading: int)
    requires WellFormed(z) && 0 <= k < |z.transitions|
  {
    z.transitions[k].gmttime + Off(z, k - 1) <= reading < z.transitions[k].gmttime + Off(z, k)
  }

  /** Transition k turns the clock back one hour, and shows the reading for the second time. */
  predicate SecondHour(z: Zone, k: int, reading: int)
    requires WellFormed(z) && 0 <= k < |z.transitions|
  {
    Off(z, k - 1) - Off(z, k) == 3600 && reading < z.transitions[k].gmttime + Off(z, k - 1)
  }

  predicate SameFields(u: Tm, t: Tm) {
    u.sec == t.sec && u.min == t.min && u.hour == t.hour && DateOf(u) == DateOf(t)
  }

  lemma TriedWhenSkipped(z: Zone, step: nat, reading: int, k: int)
    requires WellFormed(z) && WellSpaced(z, step) && 0 <= k < |z.transitions| && Skipped(z, k, reading)
    ensures LastNotAfter(z.transitions, true, reading - Off(z, k - 1)) == k
  {
    hide StrictlySorted, WellSpaced, WellFormed, LastNotAfter, Off;
    SortedByBothKeys(z, step);
    StepIsShort(z, step, k);
    LastNotAfterIs(z.transitions, true, reading - Off(z, k - 1), k);
  }

  /** The rules in force at the instant tried are those found by the reading, unless it is skipped. */
  lemma TriedRules(z: Zone, step: nat, reading: int)
    requires WellFormed(z) && WellSpaced(z, step)
    ensures var j := LastNotAfter(z.transitions, false, reading);
            LastNotAfter(z.transitions, true, reading - Off(z, j)) ==
            if j + 1 < |z.transitions| && Skipped(z, j + 1, reading) then j + 1 else j
  {
    hide StrictlySorted, WellSpaced, WellFormed, LastNotAfter, Off;
    var ts := z.transitions;
    var j := LastNotAfter(ts, false, reading);
    if j + 1 < |ts| && Skipped(z, j + 1, reading) {
      TriedWhenSkipped(z, step, reading, j + 1);
    } else {
      if j >= 0 {
        LocalOfTransition(z, j);
      }
      if j + 1 < |ts| {
        LocalOfTransition(z, j + 1);
      }
      SortedByBothKeys(z, step);
      LastNotAfterIs(ts, true, reading - Off(z, j), j);
    }
  }

  /** A step of the clock is shorter than half the time to the next one. */
  lemma StepIsShort(z: Zone, step: nat, k: int)
    requires WellFormed(z) && WellSpaced(z, step) && 0 <= k < |z.transitions|
    ensures Off(z, k) - Off(z, k - 1) <= step && Off(z, k - 1) - Off(z, k) <= step
    ensures k + 1 < |z.transitions| ==> z.transitions[k + 1].gmttime - z.transitions[k].gmttime > 2 * step
  {
    assert k + 1 < |z.transitions| ==> z.transitions[k + 1].gmttime - z.transitions[(k + 1) - 1].gmttime > 2 * step;
  }

  /** Offsets drift by at most half the time that passes, and one step more. */
  lemma {:induction false} OffsetsDrift(z: Zone, step: nat, i: int, j: int)
    requires WellFormed(z) && WellSpaced(z, step) && -1 <= i < j < |z.transitions|
    ensures 2 * (Off(z, i) - Off(z, j)) <= 2 * step + z.transitions[j].gmttime - z.transitions[i + 1].gmttime
    ensures i + 1 < j ==> z.transitions[j].gmttime - z.transitions[i + 1].gmttime > 2 * step
    decreases j
  {
    hide WellFormed, WellSpaced, Off;
    StepIsShort(z, step, j);
    if i + 1 < j {
      StepIsShort(z, step, j - 1);
      OffsetsDrift(z, step, i, j - 1);
    }
  }

  /** An hour before the instant tried, the clock is an hour ahead exactly in the second showing of an hour. */
  lemma HourBefore(z: Zone, step: nat, reading: int, j: int, m: int)
    requires WellFormed(z) && WellSpaced(z, step) && j == LastNotAfter(z.transitions, false, reading)
    requires j + 1 < |z.transitions| ==> !Skipped(z, j + 1, reading)
    requires m == LastNotAfter(z.transitions, true, reading - Off(z, j) - 3600)
    ensures Off(z, m) - Off(z, j) == 3600 <==> j >= 0 && SecondHour(z, j, reading)
  {
    hide WellFormed, WellSpaced, LastNotAfter, Off;
    if j >= 0 {
      LocalOfTransition(z, j);
    }
    TriedRules(z, step, reading);
    if m < j {
      OffsetsDrift(z, step, m, j);
      if j >= 1 {
        StepIsShort(z, step, j - 1);
      }
      StepIsShort(z, step, j);
    }
  }

  /** In the skipped case the reading is not shown an hour earlier either. */
  lemma SkippedForGood(z: Zone, step: nat, reading: int, j: int, m: int)
    requires WellFormed(z) && WellSpaced(z, step) && j == LastNotAfter(z.transitions, false, reading)
    requires j + 1 < |z.transitions| && Skipped(z, j + 1, reading)
    requires m == LastNotAfter(z.transitions, true, reading - Off(z, j) - 3600)
    ensures Off(z, m) - Off(z, j) != 3600
  {
    hide WellFormed, WellSpaced, LastNotAfter, Off;
    TriedRules(z, step, reading);
    if m < j {
      OffsetsDrift(z, step, m, j);
      StepIsShort(z, step, j);
    }
  }

  /** A clock reading and its instant's local time name the same date and time exactly if they are the same reading. */
  lemma ShownIff(z: Zone, s: int, t: Tm)
    requires WellFormed(z) && StrictlySorted(z.transitions, true) && ValidTm(t) && InDateRange(Reading(z, s))
    ensures SameFields(ToLocalTime(z, s), t) <==> Reading(z, s) == FromUtcTime(t)
  {
    hide ToUtcTime, WellFormed, InDateRange, ValidTm, LocaltimeAt, GetJulianDayNumber;
    LocalClock(z, s);
    UtcFieldsRoundTrip(t, true);
  }

  /** The instant found for a reading, and the reading its clock shows. */
  lemma FoundInstant(z: Zone, step: nat, t: Tm)
    requires WellFormed(z) && WellSpaced(z, step) && ValidTm(t)
    ensures var reading := FromUtcTime(t);
            var j := LastNotAfter(z.transitions, false, reading);
            var first := reading - Off(z, j);
            && (FromLocalTime(z, t) == first || FromLocalTime(z, t) == first - 3600)
            && (!(j + 1 < |z.transitions| && Skipped(z, j + 1, reading)) ==>
                  Reading(z, first) == reading &&
                  FromLocalTime(z, t) == if t.isdst && !InForce(z, j).isDst then first - 3600 else first)
  {
    hide ToUtcTime, FromUtcTime, LastNotAfter, WellFormed, WellSpaced, InDateRange, ValidTm, SameClockInStandardTime;
    var reading := FromUtcTime(t);
    var j := LastNotAfter(z.transitions, false, reading);
    TriedRules(z, step, reading);
    if !(j + 1 < |z.transitions| && Skipped(z, j + 1, reading)) {
      FieldsOfReading(t);
      SameClockIff(z, reading - Off(z, j), t);
    }
  }

  lemma FieldsOfReading(t: Tm)
    requires ValidTm(t)
    ensures InDateRange(FromUtcTime(t))
    ensures ClockOf(t, FromUtcTime(t))
  {
    hide ToUtcTime, FromUtcTime, ValidTm, InDateRange, GetYearMonthDay, GetJulianDayNumber;
    UtcFieldsRoundTrip(t, true);
    ToUtcParts(FromUtcTime(t), true);
  }

  /**
   * Converting a clock reading to an instant and back shows the same date and time exactly if the clock does
   * not skip the reading, and the reading is not called DST where standard time is in force, unless it is
   * the second showing of a repeated hour.
   */
  lemma ReadingRoundTrip(z: Zone, step: nat, t: Tm)
    requires WellFormed(z) && WellSpaced(z, step) && ValidTm(t) && InDateRange(Reading(z, FromLocalTime(z, t)))
    ensures var reading := FromUtcTime(t);
            var j := LastNotAfter(z.transitions, false, reading);
            SameFields(ToLocalTime(z, FromLocalTime(z, t)), t) <==>
            && !(j + 1 < |z.transitions| && Skipped(z, j + 1, reading))
            && (t.isdst && !InForce(z, j).isDst ==> j >= 0 && SecondHour(z, j, reading))
  {
    hide ToLocalTime, FromLocalTime, FromUtcTime, WellFormed, WellSpaced, LastNotAfter, InDateRange, ValidTm,
      Skipped, SecondHour, SameFields;
    var reading := FromUtcTime(t);
    var j := LastNotAfter(z.transitions, false, reading);
    var first := reading - Off(z, j);
    var m := LastNotAfter(z.transitions, true, first - 3600);
    SortedByBothKeys(z, step);
    ShownIff(z, FromLocalTime(z, t), t);
    FoundInstant(z, step, t);
    if j + 1 < |z.transitions| && Skipped(z, j + 1, reading) {
      SkippedForGood(z, step, reading, j, m);
      SkippedMovesOn(z, step, reading, j);
    } else {
      HourBefore(z, step, reading, j, m);
    }
  }

  const SUMMER_ZONE: Zone :=
    Zone([Transition(1000000, 1003600, 1)], [Localtime(0, false), Localtime(3600, true)])

  /** 13:46:40 on 12 January 1970. */
  const SKIPPED_TIME: Tm := Tm(40, 46, 13, 12, 0, 70, 0, 0, false, 0)

  lemma SummerZone()
    ensures WellFormed(SUMMER_ZONE) && WellSpaced(SUMMER_ZONE, 3600) && |SUMMER_ZONE.transitions| == 1
    ensures LastNotAfter(SUMMER_ZONE.transitions, false, 1000000) == -1
    ensures LastNotAfter(SUMMER_ZONE.transitions, true, 1000000) == 0
    ensures Off(SUMMER_ZONE, -1) == 0 && Off(SUMMER_ZONE, 0) == 3600 && Skipped(SUMMER_ZONE, 0, 1000000)
  {
    hide LastNotAfter;
    LastNotAfterIs(SUMMER_ZONE.transitions, false, 1000000, -1);
    LastNotAfterIs(SUMMER_ZONE.transitions, true, 1000000, 0);
  }

  lemma SkippedTime()
    ensures ValidTm(SKIPPED_TIME) && FromUtcTime(SKIPPED_TIME) == 1000000 && !SKIPPED_TIME.isdst
  {
    EpochDay();
    assert GetJulianDayNumber(1970, 1, 12) == 2440599;
  }

  /** A reading that is not shown again: the clock goes from 13:46:40 to 14:46:40. */
  lemma HourSkipped()
    ensures var z, t := SUMMER_ZONE, SKIPPED_TIME;
            && WellFormed(z) && WellSpaced(z, 3600) && ValidTm(t) && InDateRange(Reading(z, FromLocalTime(z, t)))
            && !SameFields(ToLocalTime(z, FromLocalTime(z, t)), t)
  {
    hide ToLocalTime, FromUtcTime, SUMMER_ZONE, SKIPPED_TIME, LastNotAfter, Skipped, WellSpaced, WellFormed, ValidTm;
    SummerZone();
    SkippedTime();
    EpochDay();
    assert FromLocalTime(SUMMER_ZONE, SKIPPED_TIME) == 1000000;
    ReadingRoundTrip(SUMMER_ZONE, 3600, SKIPPED_TIME);
  }

  lemma SkippedMovesOn(z: Zone, step: nat, reading: int, j: int)
    requires WellFormed(z) && WellSpaced(z, step) && j == LastNotAfter(z.transitions, false, reading)
    requires j + 1 < |z.transitions| && Skipped(z, j + 1, reading)
    ensures Reading(z, reading - Off(z, j)) > reading
  {
    hide WellFormed, WellSpaced, LastNotAfter;
    TriedRules(z, step, reading);
  }
}
