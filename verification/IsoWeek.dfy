/**
 * ISO 8601 weeks as the time formatter computes them from the year, the day of the year and the day
 * of the week, against their definition: a week belongs to the year that holds its Thursday.
 */
module IsoWeek {

  // ----- the Gregorian calendar -----

  predicate Leap(year: int) { year % 4 == 0 && (year % 100 != 0 || year % 400 == 0) }

  function DaysIn(year: int): int { if Leap(year) then 366 else 365 }

  /** The days before the first of January of a year, day zero being a Monday, the first of the year one. */
  function DaysBefore(year: int): int {
    365 * (year - 1) + (year - 1) / 4 - (year - 1) / 100 + (year - 1) / 400
  }

  function One(b: bool): int { if b then 1 else 0 }

  lemma YearFollows(year: int)
    ensures DaysBefore(year + 1) == DaysBefore(year) + DaysIn(year)
  {
    DivStep(year, 4);
    DivStep(year, 100);
    DivStep(year, 400);
    LeapRule(year);
    hide Leap;
  }

  /** The rule as a sum: every fourth year, less every hundredth, and again every four hundredth. */
  lemma LeapRule(year: int)
    ensures One(Leap(year)) == One(year % 4 == 0) - One(year % 100 == 0) + One(year % 400 == 0)
  {
    if year % 100 == 0 { MultipleOf4(year, year / 100); }
    if year % 400 == 0 { MultipleOf100(year, year / 400); }
  }

  lemma MultipleOf4(y: int, k: int)
    requires y == 100 * k
    ensures y % 4 == 0
  {
    assert y == 4 * (25 * k);
  }

  lemma MultipleOf100(y: int, k: int)
    requires y == 400 * k
    ensures y % 100 == 0
  {
    assert y == 100 * (4 * k);
  }

  lemma DivStep(y: int, d: int)
    requires d == 4 || d == 100 || d == 400
    ensures y / d == (y - 1) / d + One(y % d == 0)
  {
  }

  /** The fields of a broken-down time; the weekday counts from Sunday. */
  datatype Date = Date(year: int, yday: int, wday: int) {
    function DayNumber(): int { DaysBefore(year) + yday }

    predicate Valid() {
      0 <= yday < DaysIn(year) && wday == (DayNumber() + 1) % 7
    }
  }

  function NextDay(d: Date): Date {
    var wday := (d.wday + 1) % 7;
    if d.yday + 1 == DaysIn(d.year) then Date(d.year + 1, 0, wday) else Date(d.year, d.yday + 1, wday)
  }

  lemma NextDayFollows(d: Date)
    requires d.Valid()
    ensures NextDay(d).Valid() && NextDay(d).DayNumber() == d.DayNumber() + 1
  {
    hide DaysBefore;
    YearFollows(d.year);
    Weekdays(d.DayNumber() + 1);
  }

  lemma Weekdays(n: int)
    ensures (n % 7 + 1) % 7 == (n + 1) % 7
    ensures (n - 1) % 7 == 3 <==> n % 7 == 4
  {
  }

  // ----- the formatter's arithmetic -----

  /** Division and remainder that round toward zero. */
  function Quotient(a: int, b: int): int
    requires b > 0
  {
    if a >= 0 then a / b else -((-a) / b)
  }

  function Remainder(a: int, b: int): int
    requires b > 0
  {
    a - Quotient(a, b) * b
  }

  function YearPhase(year: int): int {
    Remainder(year + Quotient(year, 4) - Quotient(year, 100) + Quotient(year, 400), 7)
  }

  function IsoYearWeeks(year: int): int {
    52 + if YearPhase(year) == 4 || YearPhase(year - 1) == 3 then 1 else 0
  }

  function IsoWeekNum(yday: int, wday: int): int {
    Quotient(yday + 11 - (if wday == 0 then 7 else wday), 7)
  }

  function IsoWeekYear(d: Date): int {
    var w := IsoWeekNum(d.yday, d.wday);
    if w < 1 then d.year - 1 else if w > IsoYearWeeks(d.year) then d.year + 1 else d.year
  }

  function IsoWeekOfYear(d: Date): int {
    var w := IsoWeekNum(d.yday, d.wday);
    if w < 1 then IsoYearWeeks(d.year - 1) else if w > IsoYearWeeks(d.year) then 1 else w
  }

  // ----- long years -----

  /** A year that starts or ends on a Thursday. */
  predicate LongYear(year: int) {
    DaysBefore(year) % 7 == 3 || (DaysBefore(year + 1) - 1) % 7 == 3
  }

  /** The leap days up to and including a year, with the years they are taken from. */
  function Leaps(year: int): int { year / 4 - year / 100 + year / 400 }

  lemma PhaseOfSum(year: int)
    requires year >= 0
    ensures year + Leaps(year) >= 0
    ensures YearPhase(year) == (year + Leaps(year)) % 7
  {
    assert year / 4 >= year / 100;
    hide Quotient;
    Nonnegative(year, 4);
    Nonnegative(year, 100);
    Nonnegative(year, 400);
    Nonnegative(year + Leaps(year), 7);
  }

  lemma Nonnegative(a: int, b: int)
    requires a >= 0 && b > 0
    ensures Quotient(a, b) == a / b
    ensures Remainder(a, b) == a % b
  {
    assert a == a / b * b + a % b;
  }

  lemma WholeWeeks(k: int, a: int)
    ensures (7 * k + a) % 7 == a % 7
  {
  }

  /** The phase of a year is the weekday of its last day, counted from Sunday. */
  lemma PhaseIsLastDay(year: int)
    requires year >= 0
    ensures YearPhase(year) == DaysBefore(year + 1) % 7
  {
    PhaseOfSum(year);
    WholeWeeks(52 * year, year + Leaps(year));
    assert DaysBefore(year + 1) == 7 * (52 * year) + (year + Leaps(year));
  }

  /** From the year one on a year has 53 weeks exactly if it starts or ends on a Thursday. */
  lemma LongYearHas53Weeks(year: int)
    requires year >= 1
    ensures IsoYearWeeks(year) == if LongYear(year) then 53 else 52
  {
    hide DaysBefore, YearPhase;
    PhaseIsLastDay(year);
    PhaseIsLastDay(year - 1);
    Weekdays(DaysBefore(year + 1));
  }

  /** Below zero the phase is a remainder that is not positive. */
  lemma PhaseBelowZero(year: int)
    requires year <= 0
    ensures YearPhase(year) <= 0
  {
    var n := -year;
    hide Remainder;
    assert Quotient(year, 4) == -(n / 4) && Quotient(year, 100) == -(n / 100) && Quotient(year, 400) == -(n / 400);
    NotPositive(year + Quotient(year, 4) - Quotient(year, 100) + Quotient(year, 400));
  }

  lemma NotPositive(a: int)
    requires a <= 0
    ensures Remainder(a, 7) <= 0
  {
    var n := -a;
    assert n == n / 7 * 7 + n % 7;
    assert a == 0 ==> Quotient(a, 7) == 0;
  }

  /** Before it the remainders are never positive: every year is given 52 weeks. */
  lemma NoLongYearsBefore(year: int)
    requires year < 1
    ensures IsoYearWeeks(year) == 52
  {
    hide YearPhase;
    PhaseBelowZero(year);
    PhaseBelowZero(year - 1);
  }

  /** The weeks of a year are right exactly from the year zero on and in years that are not long. */
  lemma YearWeeksExact(year: int)
    ensures (IsoYearWeeks(year) == if LongYear(year) then 53 else 52) <==> year >= 0 || !LongYear(year)
  {
    if year >= 1 {
      LongYearHas53Weeks(year);
    } else {
      NoLongYearsBefore(year);
      YearZero();
    }
  }

  lemma YearZero()
    ensures !LongYear(0)
  {
    assert DaysBefore(0) == -366 == -53 * 7 + 5;
    assert DaysBefore(1) == 0;
    Reduced(-366, -53, 5);
    Reduced(-1, -1, 6);
  }

  lemma Reduced(n: int, q: int, r: int)
    requires n == 7 * q + r && 0 <= r < 7
    ensures n % 7 == r
  {
  }

  /** A year that is wrong. */
  lemma YearMinusTwo()
    ensures IsoYearWeeks(-2) == 52 && LongYear(-2)
  {
    hide IsoYearWeeks;
    NoLongYearsBefore(-2);
    assert DaysBefore(-2) == -1096 == -157 * 7 + 3;
    Reduced(-1096, -157, 3);
  }

  // ----- the definition by the Thursday -----

  /** The day number of the Thursday of the week, weeks beginning on Monday. */
  function Thursday(n: int): int { n - n % 7 + 3 }

  /** The year that holds this day, and its week counted by Thursdays. */
  ghost predicate IsIsoWeek(n: int, year: int, week: int) {
    && DaysBefore(year) <= Thursday(n) < DaysBefore(year + 1)
    && week == (Thursday(n) - DaysBefore(year)) / 7 + 1
  }

  lemma YearHasOneIsoYear(n: int, y: int, z: int, v: int, w: int)
    requires IsIsoWeek(n, y, v) && IsIsoWeek(n, z, w)
    ensures y == z && v == w
  {
    if y < z { DaysGrow(y + 1, z); } else if z < y { DaysGrow(z + 1, y); }
  }

  lemma {:induction false} DaysGrow(y: int, z: int)
    requires y <= z
    ensures DaysBefore(y) <= DaysBefore(z)
    decreases z - y
  {
    hide DaysBefore;
    if y < z {
      DaysGrow(y, z - 1);
      YearFollows(z - 1);
    }
  }

  /** The number of the week within its year, as an offset of its Thursday. */
  lemma WeekNumIsThursdays(d: Date)
    requires d.Valid()
    ensures IsoWeekNum(d.yday, d.wday) == (Thursday(d.DayNumber()) - DaysBefore(d.year) + 7) / 7
    ensures d.yday - 3 <= Thursday(d.DayNumber()) - DaysBefore(d.year) <= d.yday + 3
  {
    hide DaysBefore;
    var n := d.DayNumber();
    var k := n % 7;
    assert d.wday == if k == 6 then 0 else k + 1;
    assert d.yday + 11 - (if d.wday == 0 then 7 else d.wday) == Thursday(n) - DaysBefore(d.year) + 7;
  }

  /** The Thursdays of a year: those of its weeks one to the last, and no more. */
  lemma ThursdaysOfYear(year: int, t: int)
    requires year >= 1 && t % 7 == 3 && DaysBefore(year) <= t < DaysBefore(year + 1) + 7
    ensures t < DaysBefore(year + 1) <==> (t - DaysBefore(year)) / 7 + 1 <= IsoYearWeeks(year)
  {
    LongYearHas53Weeks(year);
    YearFollows(year);
    hide DaysBefore, IsoYearWeeks;
    LastThursday(DaysBefore(year), DaysIn(year), t);
  }

  lemma LastThursday(first: int, length: int, t: int)
    requires t % 7 == 3 && (length == 365 || length == 366) && first <= t < first + length + 7
    ensures t < first + length <==>
              (t - first) / 7 + 1 <= if first % 7 == 3 || (first + length - 1) % 7 == 3 then 53 else 52
  {
    var a, q := (t - first) % 7, (t - first) / 7;
    FirstThursday(first, t, a, q);
    if length == 366 { NextDayOfYear(first); }
    if length == 365 { WholeWeeks(52, first); }
    assert t - first == 7 * q + a;
  }

  /** How far into the year its first Thursday is. */
  lemma FirstThursday(first: int, t: int, a: int, q: int)
    requires t % 7 == 3 && t - first == 7 * q + a && 0 <= a < 7
    ensures a == 0 <==> first % 7 == 3
    ensures a == 1 <==> first % 7 == 2
  {
    WholeWeeks(q, first + a);
    assert (first + a) % 7 == 3;
  }

  /** A leap year ends one weekday later than it starts. */
  lemma NextDayOfYear(first: int)
    ensures (first + 365) % 7 == 3 <==> first % 7 == 2
  {
    WholeWeeks(52, first + 1);
  }

  lemma ThursdayIsThursday(n: int)
    ensures Thursday(n) % 7 == 3
    ensures n >= 0 ==> Thursday(n) >= 3
    ensures Thursday(n + 1) == if (n + 1) % 7 == 0 then Thursday(n) + 7 else Thursday(n)
  {
  }

  /** From the year one on, the computed year and week are those of the Thursday. */
  lemma WeekOfThursday(d: Date)
    requires d.Valid() && d.year >= 1
    ensures IsIsoWeek(d.DayNumber(), IsoWeekYear(d), IsoWeekOfYear(d)) && IsoWeekYear(d) >= 1
  {
    FirstDay(d.year);
    WeekNumIsThursdays(d);
    YearFollows(d.year);
    hide DaysBefore, IsoYearWeeks, IsoWeekNum, Thursday, IsIsoWeek;
    WeekByOffset(d.DayNumber(), d.year, IsoWeekNum(d.yday, d.wday));
  }

  lemma WeekByOffset(n: int, y: int, w: int)
    requires y >= 1 && n >= 0 && DaysBefore(1) == 0
    requires w == (Thursday(n) - DaysBefore(y) + 7) / 7
    requires DaysBefore(y) - 3 <= Thursday(n) < DaysBefore(y + 1) + 3
    ensures w < 1 ==> IsIsoWeek(n, y - 1, IsoYearWeeks(y - 1)) && y > 1
    ensures w > IsoYearWeeks(y) ==> w >= 1 && IsIsoWeek(n, y + 1, 1)
    ensures 1 <= w <= IsoYearWeeks(y) ==> IsIsoWeek(n, y, w)
  {
    var t := Thursday(n);
    hide DaysBefore, Thursday, IsoYearWeeks;
    ThursdayIsThursday(n);
    Offsets(t - DaysBefore(y), w);
    if t < DaysBefore(y) {
      YearFollows(y - 1);
      LastWeek(y - 1, t);
    } else {
      YearFollows(y + 1);
      ThursdaysOfYear(y, t);
      Offsets(t - DaysBefore(y + 1), (t - DaysBefore(y + 1) + 7) / 7);
    }
    SomeWeeks(y);
  }

  lemma SomeWeeks(year: int)
    ensures IsoYearWeeks(year) >= 52
  {
    hide YearPhase;
  }

  lemma FirstDay(year: int)
    requires year >= 1
    ensures DaysBefore(1) == 0 <= DaysBefore(year)
  {
    DaysGrow(1, year);
  }

  lemma Offsets(o: int, w: int)
    requires w == (o + 7) / 7
    ensures -7 <= o < 0 ==> w == 0
    ensures 0 <= o ==> w == o / 7 + 1 >= 1
    ensures 0 <= o < 7 ==> w == 1
  {
  }

  /** The last Thursday of a year is in its last week. */
  lemma LastWeek(year: int, t: int)
    requires year >= 1 && t % 7 == 3 && DaysBefore(year) <= t < DaysBefore(year + 1) <= t + 7
    ensures IsoYearWeeks(year) == (t - DaysBefore(year)) / 7 + 1
  {
    hide DaysBefore, IsoYearWeeks;
    ThursdaysOfYear(year, t);
    ThursdaysOfYear(year, t + 7);
    assert (t + 7 - DaysBefore(year)) / 7 == (t - DaysBefore(year)) / 7 + 1;
  }

  /** The successor of a week. */
  function NextWeek(year: int, week: int): (int, int) {
    if week < IsoYearWeeks(year) then (year, week + 1) else (year + 1, 1)
  }

  lemma WeekAfter(n: int, year: int, week: int)
    requires IsIsoWeek(n, year, week) && year >= 1 && (n + 1) % 7 == 0
    ensures var (y, w) := NextWeek(year, week); IsIsoWeek(n + 1, y, w)
    ensures 1 <= week <= IsoYearWeeks(year)
  {
    var t := Thursday(n);
    hide DaysBefore, IsoYearWeeks, Thursday;
    ThursdayIsThursday(n);
    YearFollows(year);
    YearFollows(year + 1);
    ThursdaysOfYear(year, t);
    ThursdaysOfYear(year, t + 7);
  }

  /** One day on, the week stays the same, except that on a Monday it is the next one. */
  lemma WeekSteps(d: Date)
    requires d.Valid() && d.year >= 1
    ensures var d' := NextDay(d);
            (IsoWeekYear(d'), IsoWeekOfYear(d')) ==
              if d'.wday == 1 then NextWeek(IsoWeekYear(d), IsoWeekOfYear(d)) else (IsoWeekYear(d), IsoWeekOfYear(d))
  {
    ValidYears(d);
    NextDayFollows(d);
    Monday(NextDay(d));
    hide *;
    WeekOfThursday(d);
    WeekOfThursday(NextDay(d));
    Steps(d.DayNumber(), IsoWeekYear(d), IsoWeekOfYear(d), IsoWeekYear(NextDay(d)), IsoWeekOfYear(NextDay(d)));
  }

  lemma Steps(n: int, y: int, w: int, y': int, w': int)
    requires IsIsoWeek(n, y, w) && y >= 1 && IsIsoWeek(n + 1, y', w')
    ensures (y', w') == if (n + 1) % 7 == 0 then NextWeek(y, w) else (y, w)
  {
    hide *;
    if (n + 1) % 7 == 0 {
      WeekAfter(n, y, w);
      YearHasOneIsoYear(n + 1, y', NextWeek(y, w).0, w', NextWeek(y, w).1);
    } else {
      SameWeek(n, y, w);
      YearHasOneIsoYear(n + 1, y', y, w', w);
    }
  }

  lemma SameWeek(n: int, year: int, week: int)
    requires IsIsoWeek(n, year, week) && (n + 1) % 7 != 0
    ensures IsIsoWeek(n + 1, year, week)
  {
    hide DaysBefore, Thursday;
    ThursdayIsThursday(n);
  }

  lemma ValidYears(d: Date)
    requires d.Valid() && d.year >= 1
    ensures NextDay(d).year >= 1
  {
  }

  lemma Monday(d: Date)
    requires d.Valid()
    ensures d.wday == 1 <==> d.DayNumber() % 7 == 0
  {
    hide DaysBefore;
  }
}
