/** The Julian-day arithmetic of muduo/base/Date.cc. */
module Dates {
  import opened CArith

  datatype YearMonthDay = YearMonthDay(year: int, month: int, day: int)

  /** Day number of 1 March -4800, the first date the formulas are meant for. */
  const FIRST_DAY: int := -32044

  /** Largest day number for which no 32-bit intermediate overflows. */
  const LAST_DAY: int := 0x1FFF_FFFF - 32044

  function GetJulianDayNumber(year: int, month: int, day: int): int {
    var a := Quot(14 - month, 12);
    var y := year + 4800 - a;
    var m := month + 12 * a - 3;
    day + Quot(153 * m + 2, 5) + y * 365 + Quot(y, 4) - Quot(y, 100) + Quot(y, 400) - 32045
  }

  function DayNumber(d: YearMonthDay): int {
    GetJulianDayNumber(d.year, d.month, d.day)
  }

  function GetYearMonthDay(julianDayNumber: int): YearMonthDay {
    var a := julianDayNumber + 32044;
    var b := Quot(4 * a + 3, 146097);
    var c := a - Quot(b * 146097, 4);
    var d := Quot(4 * c + 3, 1461);
    var e := c - Quot(1461 * d, 4);
    var m := Quot(5 * e + 2, 153);
    YearMonthDay(
      b * 100 + d - 4800 + Quot(m, 10),
      m + 3 - 12 * Quot(m, 10),
      e - Quot(153 * m + 2, 5) + 1)
  }

  /** `Date::weekDay`: Sunday is 0. */
  function WeekDay(julianDayNumber: int): int {
    Rem(julianDayNumber + 1, 7)
  }

  // ----- The Gregorian calendar, defined without day numbers

  predicate Leap(year: int) {
    year % 4 == 0 && (year % 100 != 0 || year % 400 == 0)
  }

  function DaysInMonth(year: int, month: int): int {
    if month == 2 then (if Leap(year) then 29 else 28)
    else if month in {4, 6, 9, 11} then 30
    else 31
  }

  predicate ValidDate(d: YearMonthDay) {
    1 <= d.month <= 12 && 1 <= d.day <= DaysInMonth(d.year, d.month)
  }

  /** Not before 1 March -4800. */
  predicate Covered(d: YearMonthDay) {
    d.year > -4800 || (d.year == -4800 && d.month >= 3)
  }

  /** The day after `d` on the calendar. */
  function Successor(d: YearMonthDay): YearMonthDay {
    if d.day < DaysInMonth(d.year, d.month) then d.(day := d.day + 1)
    else if d.month < 12 then YearMonthDay(d.year, d.month + 1, 1)
    else YearMonthDay(d.year + 1, 1, 1)
  }

  // ----- Years that start in March

  /** Days from 1 March -4800 to 1 March of the y-th year after it. */
  function DaysBeforeYear(y: nat): nat {
    365 * y + y / 4 - y / 100 + y / 400
  }

  /** Days from 1 March to the first of the m-th month after March. */
  function DaysBeforeMonth(m: nat): nat {
    (153 * m + 2) / 5
  }

  function MarchYearLength(y: nat): nat {
    if Leap(y - 4799) then 366 else 365
  }

  lemma YearLengths(y: nat)
    ensures DaysBeforeYear(y + 1) == DaysBeforeYear(y) + MarchYearLength(y)
  {
    hide Leap;
    NextQuotient(y, 4);
    NextQuotient(y, 100);
    NextQuotient(y, 400);
    LeapShift(y + 1);
    assert Leap(y + 1) <==> (y + 1) % 4 == 0 && ((y + 1) % 100 != 0 || (y + 1) % 400 == 0) by {
      LeapMeans(y + 1);
    }
    assert y - 4799 == y + 1 - 4800;
  }

  lemma LeapMeans(y: int)
    ensures Leap(y) <==> y % 4 == 0 && (y % 100 != 0 || y % 400 == 0)
  {
  }

  lemma NextQuotient(y: nat, k: nat)
    requires k > 1
    ensures (y + 1) / k == y / k + (if (y + 1) % k == 0 then 1 else 0)
  {
    var q, r := y / k, y % k;
    if r + 1 < k {
      QuotientIs(y + 1, k, q, r + 1);
    } else {
      assert y + 1 == k * (q + 1);
      QuotientIs(y + 1, k, q + 1, 0);
    }
  }

  /** 4800 is a whole number of Gregorian cycles. */
  lemma LeapShift(y: int)
    ensures Leap(y - 4800) <==> Leap(y)
  {
    assert y % 4 == (y - 4800) % 4;
    QuotientIs(y - 4800, 100, y / 100 - 48, y % 100);
    QuotientIs(y - 4800, 400, y / 400 - 12, y % 400);
  }

  // ----- Splitting a day count into March-based year, month and day

  /** Days before the b-th century. */
  function Centuries(b: nat): nat { 146097 * b / 4 }

  /** Days before the d-th year of a century. */
  function Years(d: nat): nat { 1461 * d / 4 }

  function MonthOf(m: int): int { if m < 10 then m + 3 else m - 9 }

  /** Length of the m-th month after March in the y-th March-based year. */
  function MarchMonthLength(y: nat, m: nat): int {
    DaysInMonth(y - 4800 + (if m < 10 then 0 else 1), MonthOf(m))
  }

  lemma YearSplit(b: nat, d: nat)
    requires d < 100
    ensures DaysBeforeYear(100 * b + d) == Centuries(b) + Years(d)
  {
    var y := 100 * b + d;
    QuotientIs(y, 4, 25 * b + d / 4, d % 4);
    QuotientIs(y, 100, b, d);
    QuotientIs(y, 400, b / 4, b % 4 * 100 + d);
    QuotientIs(146097 * b, 4, 36524 * b + b / 4, b % 4);
    QuotientIs(1461 * d, 4, 365 * d + d / 4, d % 4);
  }

  lemma LeapInCentury(b: nat, d: nat)
    requires d < 100
    ensures Leap(100 * b + d + 1) <==> if d == 99 then b % 4 == 3 else d % 4 == 3
  {
    var y := 100 * b + d + 1;
    QuotientIs(y, 4, 25 * b + (d + 1) / 4, (d + 1) % 4);
    if d < 99 {
      QuotientIs(y, 100, b, d + 1);
    } else {
      LastYearOfCentury(b);
    }
  }

  lemma LastYearOfCentury(b: nat)
    ensures Leap(100 * b + 100) <==> b % 4 == 3
  {
    var y := 100 * b + 100;
    QuotientIs(y, 4, 25 * b + 25, 0);
    QuotientIs(y, 100, b + 1, 0);
    QuotientIs(y, 400, (b + 1) / 4, (b + 1) % 4 * 100);
  }

  lemma CenturyLength(b: nat)
    ensures Centuries(b + 1) == Centuries(b) + (if b % 4 == 3 then 36525 else 36524)
  {
  }

  lemma YearLength(d: nat)
    ensures Years(d + 1) == Years(d) + (if d % 4 == 3 then 366 else 365)
  {
  }

  lemma MonthLengths(y: nat, m: nat)
    requires m < 12
    ensures DaysBeforeMonth(m) + MarchMonthLength(y, m) ==
            if m < 11 then DaysBeforeMonth(m + 1) else MarchYearLength(y)
  {
    assert DaysBeforeMonth(11) == 337;
  }

  /** The century of a day count. */
  lemma CenturyOf(a: nat, b: nat)
    ensures (4 * a + 3) / 146097 == b <==> Centuries(b) <= a < Centuries(b + 1)
  {
    var k := (4 * a + 3) / 146097;
    assert Centuries(k) <= a < Centuries(k + 1);
    assert Centuries(b) == 36524 * b + b / 4;
    assert Centuries(b + 1) == 36524 * (b + 1) + (b + 1) / 4;
  }

  lemma YearOf(c: nat, d: nat)
    ensures (4 * c + 3) / 1461 == d <==> Years(d) <= c < Years(d + 1)
  {
  }

  lemma MonthOfDay(e: nat, m: nat)
    ensures (5 * e + 2) / 153 == m <==> DaysBeforeMonth(m) <= e < DaysBeforeMonth(m + 1)
  {
  }

  /** A date by March-based year, month and day, all counted from zero. */
  predicate InMarchYear(y: int, m: int, k: int) {
    y >= 0 && 0 <= m < 12 && 0 <= k < MarchMonthLength(y, m)
  }

  function Position(y: nat, m: nat, k: nat): nat {
    DaysBeforeYear(y) + DaysBeforeMonth(m) + k
  }

  function FromMarch(y: int, m: int, k: int): YearMonthDay {
    YearMonthDay(y - 4800 + (if m < 10 then 0 else 1), MonthOf(m), k + 1)
  }

  /** Every covered date is a March-based one. */
  lemma ToMarch(d: YearMonthDay) returns (y: int, m: int, k: int)
    requires ValidDate(d) && Covered(d)
    ensures InMarchYear(y, m, k) && d == FromMarch(y, m, k)
  {
    m := if d.month >= 3 then d.month - 3 else d.month + 9;
    y := d.year + 4800 - (if d.month >= 3 then 0 else 1);
    k := d.day - 1;
  }

  lemma DayNumberFromMarch(y: nat, m: nat, k: nat)
    requires InMarchYear(y, m, k)
    ensures ValidDate(FromMarch(y, m, k)) && Covered(FromMarch(y, m, k))
    ensures DayNumber(FromMarch(y, m, k)) == Position(y, m, k) + FIRST_DAY
  {
    var d := FromMarch(y, m, k);
    assert Quot(14 - d.month, 12) == if m < 10 then 0 else 1;
  }

  /** Within its year, a date's day of the year stays below the year's length. */
  lemma DayOfYearBound(y: nat, m: nat, k: nat)
    requires InMarchYear(y, m, k)
    ensures DaysBeforeMonth(m) + k < MarchYearLength(y)
    ensures DaysBeforeMonth(m) + k < DaysBeforeMonth(m + 1)
  {
    MonthLengths(y, m);
  }

  lemma DayOfCenturyBound(b: nat, d: nat, e: nat)
    requires d < 100 && e < MarchYearLength(100 * b + d)
    ensures e < Years(d + 1) - Years(d)
    ensures Years(d) + e < Centuries(b + 1) - Centuries(b)
  {
    LeapInCentury(b, d);
    LeapShift(100 * b + d + 1);
    assert 100 * b + d - 4799 == 100 * b + d + 1 - 4800;
    CenturyLength(b);
    YearLength(d);
    assert d < 99 ==> Years(d + 1) <= 36159;
    hide Centuries, Years, Leap;
  }

  lemma Assemble(j: int, a: nat, b: nat, c: nat, d: nat, e: nat, m: nat, k: nat)
    requires (4 * a + 3) / 146097 == b && a == Centuries(b) + c && j == a + FIRST_DAY
    requires (4 * c + 3) / 1461 == d && c == Years(d) + e
    requires (5 * e + 2) / 153 == m < 12 && e == DaysBeforeMonth(m) + k
    ensures GetYearMonthDay(j) == FromMarch(100 * b + d, m, k)
  {
    hide Quot;
    QuotNat(4 * a + 3, 146097);
    QuotNat(b * 146097, 4);
    QuotNat(4 * c + 3, 1461);
    QuotNat(1461 * d, 4);
    QuotNat(5 * e + 2, 153);
    QuotNat(153 * m + 2, 5);
    QuotNat(m, 10);
    assert m / 10 == if m < 10 then 0 else 1;
  }

  lemma SplitDays(b: nat, d: nat, m: nat, k: nat)
    requires d < 100 && DaysBeforeMonth(m) + k < MarchYearLength(100 * b + d)
    requires m < 12 && DaysBeforeMonth(m) + k < DaysBeforeMonth(m + 1)
    ensures var e := DaysBeforeMonth(m) + k;
            var c := Years(d) + e;
            (4 * (Centuries(b) + c) + 3) / 146097 == b && (4 * c + 3) / 1461 == d && (5 * e + 2) / 153 == m
  {
    var e := DaysBeforeMonth(m) + k;
    DayOfCenturyBound(b, d, e);
    CenturyOf(Centuries(b) + Years(d) + e, b);
    YearOf(Years(d) + e, d);
    MonthOfDay(e, m);
  }

  lemma Located(j: int, y: nat, m: nat, k: nat)
    requires InMarchYear(y, m, k) && j == Position(y, m, k) + FIRST_DAY
    ensures GetYearMonthDay(j) == FromMarch(y, m, k)
  {
    var b, d := y / 100, y % 100;
    YearSplit(b, d);
    DayOfYearBound(y, m, k);
    SplitDays(b, d, m, k);
    hide DaysBeforeYear, DaysBeforeMonth, Years, Centuries, FromMarch, GetYearMonthDay, MarchMonthLength;
    var e := DaysBeforeMonth(m) + k;
    Assemble(j, Position(y, m, k), b, Years(d) + e, d, e, m, k);
  }

  lemma Locate(a: nat) returns (y: nat, m: nat, k: nat)
    ensures InMarchYear(y, m, k) && Position(y, m, k) == a
  {
    var b := (4 * a + 3) / 146097;
    CenturyOf(a, b);
    var c := a - Centuries(b);
    var d := (4 * c + 3) / 1461;
    YearOf(c, d);
    YearWithinCentury(b, c, d);
    var e := c - Years(d);
    m := (5 * e + 2) / 153;
    MonthOfDay(e, m);
    y, k := 100 * b + d, e - DaysBeforeMonth(m);
    YearSplit(b, d);
    MonthLengths(y, m);
  }

  lemma YearWithinCentury(b: nat, c: nat, d: nat)
    requires c < Centuries(b + 1) - Centuries(b) && Years(d) <= c < Years(d + 1)
    ensures d < 100 && c - Years(d) < MarchYearLength(100 * b + d)
  {
    CenturyLength(b);
    YearLength(d);
    assert d < 100;
    LeapInCentury(b, d);
    LeapShift(100 * b + d + 1);
    assert 100 * b + d - 4799 == 100 * b + d + 1 - 4800;
  }

  // ----- Main results

  /** From day number to date and back. */
  lemma DayNumberOfDate(j: int)
    requires j >= FIRST_DAY
    ensures ValidDate(GetYearMonthDay(j)) && Covered(GetYearMonthDay(j))
    ensures DayNumber(GetYearMonthDay(j)) == j
  {
    var y, m, k := Locate(j - FIRST_DAY);
    Located(j, y, m, k);
    DayNumberFromMarch(y, m, k);
  }

  /** From date to day number and back. */
  lemma DateOfDayNumber(d: YearMonthDay)
    requires ValidDate(d) && Covered(d)
    ensures DayNumber(d) >= FIRST_DAY
    ensures GetYearMonthDay(DayNumber(d)) == d
  {
    var y, m, k := ToMarch(d);
    DayNumberFromMarch(y, m, k);
    Located(DayNumber(d), y, m, k);
  }

  lemma SuccessorFromMarch(y: nat, m: nat, k: nat)
    requires InMarchYear(y, m, k)
    ensures Successor(FromMarch(y, m, k)) ==
            if k + 1 < MarchMonthLength(y, m) then FromMarch(y, m, k + 1)
            else if m < 11 then FromMarch(y, m + 1, 0)
            else FromMarch(y + 1, 0, 0)
    ensures m < 11 ==> InMarchYear(y, m + 1, 0)
    ensures InMarchYear(y + 1, 0, 0)
  {
    hide Leap;
  }

  /** Consecutive dates have consecutive numbers. */
  lemma SuccessorIsNextDay(d: YearMonthDay)
    requires ValidDate(d) && Covered(d)
    ensures ValidDate(Successor(d)) && Covered(Successor(d))
    ensures DayNumber(Successor(d)) == DayNumber(d) + 1
  {
    var y, m, k := ToMarch(d);
    DayNumberFromMarch(y, m, k);
    MonthLengths(y, m);
    SuccessorFromMarch(y, m, k);
    hide DayNumber, Successor, MarchMonthLength, DaysBeforeYear, MarchYearLength, DaysBeforeMonth, FromMarch;
    if k + 1 < MarchMonthLength(y, m) {
      DayNumberFromMarch(y, m, k + 1);
    } else if m < 11 {
      DayNumberFromMarch(y, m + 1, 0);
    } else {
      YearLengths(y);
      DayNumberFromMarch(y + 1, 0, 0);
    }
  }

  /** Hence the dates of consecutive numbers are consecutive. */
  lemma NextDayIsSuccessor(j: int)
    requires j >= FIRST_DAY
    ensures GetYearMonthDay(j + 1) == Successor(GetYearMonthDay(j))
  {
    hide GetYearMonthDay, DayNumber, Successor, ValidDate;
    DayNumberOfDate(j);
    SuccessorIsNextDay(GetYearMonthDay(j));
    DateOfDayNumber(Successor(GetYearMonthDay(j)));
  }

  // ----- 32-bit range of every intermediate value

  predicate JulianDayNumberFits(year: int, month: int, day: int) {
    var a := Quot(14 - month, 12);
    var y := year + 4800 - a;
    var m := month + 12 * a - 3;
    var s1 := day + Quot(153 * m + 2, 5);
    var s2 := s1 + y * 365;
    var s3 := s2 + Quot(y, 4);
    var s4 := s3 - Quot(y, 100);
    var s5 := s4 + Quot(y, 400);
    && FitsInt(14 - month) && FitsInt(year + 4800) && FitsInt(y)
    && FitsInt(12 * a) && FitsInt(month + 12 * a) && FitsInt(m) && FitsInt(153 * m) && FitsInt(153 * m + 2)
    && FitsInt(s1) && FitsInt(y * 365) && FitsInt(s2) && FitsInt(s3) && FitsInt(s4) && FitsInt(s5)
    && FitsInt(s5 - 32045)
  }

  predicate YearMonthDayFits(julianDayNumber: int) {
    var a := julianDayNumber + 32044;
    var b := Quot(4 * a + 3, 146097);
    var c := a - Quot(b * 146097, 4);
    var d := Quot(4 * c + 3, 1461);
    var e := c - Quot(1461 * d, 4);
    var m := Quot(5 * e + 2, 153);
    && FitsInt(a) && FitsInt(4 * a) && FitsInt(4 * a + 3) && FitsInt(b * 146097) && FitsInt(c)
    && FitsInt(4 * c) && FitsInt(4 * c + 3) && FitsInt(1461 * d) && FitsInt(e)
    && FitsInt(5 * e) && FitsInt(5 * e + 2) && FitsInt(153 * m) && FitsInt(153 * m + 2)
    && FitsInt(e - Quot(153 * m + 2, 5)) && FitsInt(e - Quot(153 * m + 2, 5) + 1)
    && FitsInt(m + 3) && FitsInt(12 * Quot(m, 10)) && FitsInt(m + 3 - 12 * Quot(m, 10))
    && FitsInt(b * 100) && FitsInt(b * 100 + d) && FitsInt(b * 100 + d - 4800)
    && FitsInt(b * 100 + d - 4800 + Quot(m, 10))
  }

  /** `LAST_DAY` is the exact limit of the conversion to a date. */
  lemma YearMonthDayFitsExactly(j: int)
    requires j >= FIRST_DAY
    ensures YearMonthDayFits(j) <==> j <= LAST_DAY
  {
    hide Quot, Centuries;
    var a := j + 32044;
    var b := (4 * a + 3) / 146097;
    QuotNat(4 * a + 3, 146097);
    assert Quot(b * 146097, 4) == Centuries(b) by {
      QuotCenturies(b);
    }
    CenturyOf(a, b);
    CenturyLength(b);
    SmallPartsFit(a - Centuries(b));
  }

  lemma QuotCenturies(b: nat)
    ensures Quot(b * 146097, 4) == Centuries(b)
  {
  }

  lemma SmallPartsFit(c: nat)
    requires c <= 36524
    ensures var d := Quot(4 * c + 3, 1461);
            var e := c - Quot(1461 * d, 4);
            var m := Quot(5 * e + 2, 153);
            0 <= d < 100 && 0 <= e <= 366 && 0 <= m <= 12 && 0 <= Quot(153 * m + 2, 5) <= 400 && 0 <= Quot(m, 10) <= 1
  {
    var d := (4 * c + 3) / 1461;
    YearOf(c, d);
    YearLength(d);
  }

  lemma JulianDayNumberFitsInRange(d: YearMonthDay)
    requires ValidDate(d) && Covered(d) && DayNumber(d) <= LAST_DAY
    ensures JulianDayNumberFits(d.year, d.month, d.day)
  {
    var y, m, k := ToMarch(d);
    assert 365 * y <= LAST_DAY - FIRST_DAY by {
      DayNumberFromMarch(y, m, k);
    }
    MarchFieldsFit(d, y, m);
  }

  lemma MarchFieldsFit(d: YearMonthDay, y: nat, m: nat)
    requires ValidDate(d) && 365 * y <= LAST_DAY - FIRST_DAY && m < 12
    requires d.month == MonthOf(m) && d.year == y - 4800 + (if m < 10 then 0 else 1)
    ensures JulianDayNumberFits(d.year, d.month, d.day)
  {
    hide Quot, Leap;
    QuotNat(14 - d.month, 12);
    QuotNat(y, 4);
    QuotNat(y, 100);
    QuotNat(y, 400);
    QuotNat(153 * m + 2, 5);
    assert (14 - d.month) / 12 == if m < 10 then 0 else 1;
  }

  // ----- Day of the week

  /** `weekDay` is a day of the week from day -1 on; before that only on Sundays. */
  lemma WeekDayRange(j: int)
    ensures 0 <= WeekDay(j) <= 6 <==> j >= -1 || (j + 1) % 7 == 0
  {
    if j < -1 {
      assert WeekDay(j) == -((-(j + 1)) % 7);
    }
  }

  /** The day before day number -1, a Saturday, gets -1. */
  lemma WeekDayNegative()
    ensures WeekDay(-2) == -1
  {
  }

  /** The week turns with the calendar, counted from Thursday 1 January 1970. */
  lemma WeekDayTurns(j: int)
    requires j >= -1
    ensures WeekDay(j + 1) == (WeekDay(j) + 1) % 7
    ensures WeekDay(DayNumber(YearMonthDay(1970, 1, 1))) == 4
  {
    assert DayNumber(YearMonthDay(1970, 1, 1)) == 2440588;
  }
}
