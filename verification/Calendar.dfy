/** The civil calendar the two timestamp formatters must agree with. */
module Calendar {

  datatype Date = Date(year: int, month: int, day: int)

  predicate IsLeap(year: int) {
    (year % 4 == 0 && year % 100 != 0) || year % 400 == 0
  }

  function YearLen(year: int): nat { if IsLeap(year) then 366 else 365 }

  function MonthLen(year: int, month: int): nat {
    if month == 2 then if IsLeap(year) then 29 else 28
    else if month == 4 || month == 6 || month == 9 || month == 11 then 30
    else 31
  }

  /** Days from 1970-01-01 to the first of January of `year`. */
  ghost function DaysBeforeYear(year: int): nat
    requires year >= 1970
  {
    if year == 1970 then 0 else DaysBeforeYear(year - 1) + YearLen(year - 1)
  }

  ghost function DaysBeforeMonth(year: int, month: int): nat
    requires 1 <= month <= 13
  {
    if month == 1 then 0 else DaysBeforeMonth(year, month - 1) + MonthLen(year, month - 1)
  }

  /** Section 5.7 of RFC 3339: month and day in range. */
  predicate ValidDate(d: Date) {
    d.year >= 1970 && 1 <= d.month <= 12 && 1 <= d.day <= MonthLen(d.year, d.month)
  }

  /** Days from 1970-01-01 to `d`, counted year by year and month by month. */
  ghost function DayNumber(d: Date): nat
    requires ValidDate(d)
  {
    DaysBeforeYear(d.year) + DaysBeforeMonth(d.year, d.month) + (d.day - 1)
  }

  predicate Earlier(a: Date, b: Date) {
    || a.year < b.year
    || (a.year == b.year && a.month < b.month)
    || (a.year == b.year && a.month == b.month && a.day < b.day)
  }

  lemma MonthTable(year: int)
    ensures DaysBeforeMonth(year, 1) == 0 && DaysBeforeMonth(year, 2) == 31
    ensures forall m :: 3 <= m <= 13 ==>
      DaysBeforeMonth(year, m) == YearLen(year) - 306 + (153 * (m - 3) + 2) / 5
    ensures DaysBeforeMonth(year, 13) == YearLen(year)
  {
    assert DaysBeforeMonth(year, 1) == 0;
    assert DaysBeforeMonth(year, 2) == 31;
    assert DaysBeforeMonth(year, 3) == YearLen(year) - 306;
    assert DaysBeforeMonth(year, 4) == YearLen(year) - 306 + 31;
    assert DaysBeforeMonth(year, 5) == YearLen(year) - 306 + 61;
    assert DaysBeforeMonth(year, 6) == YearLen(year) - 306 + 92;
    assert DaysBeforeMonth(year, 7) == YearLen(year) - 306 + 122;
    assert DaysBeforeMonth(year, 8) == YearLen(year) - 306 + 153;
    assert DaysBeforeMonth(year, 9) == YearLen(year) - 306 + 184;
    assert DaysBeforeMonth(year, 10) == YearLen(year) - 306 + 214;
    assert DaysBeforeMonth(year, 11) == YearLen(year) - 306 + 245;
    assert DaysBeforeMonth(year, 12) == YearLen(year) - 306 + 275;
    assert DaysBeforeMonth(year, 13) == YearLen(year) - 306 + 306;
  }

  lemma {:induction false} MonthsAdd(year: int, a: int, b: int)
    requires 1 <= a < b <= 13
    ensures DaysBeforeMonth(year, a) + MonthLen(year, a) <= DaysBeforeMonth(year, b)
    decreases b
  {
    if a < b - 1 { MonthsAdd(year, a, b - 1); }
  }

  lemma {:induction false} YearsAdd(a: int, b: int)
    requires 1970 <= a < b
    ensures DaysBeforeYear(a) + YearLen(a) <= DaysBeforeYear(b)
    decreases b
  {
    if a < b - 1 { YearsAdd(a, b - 1); }
  }

  lemma EarlierIsSmaller(a: Date, b: Date)
    requires ValidDate(a) && ValidDate(b) && Earlier(a, b)
    ensures DayNumber(a) < DayNumber(b)
  {
    if a.year < b.year {
      YearsAdd(a.year, b.year);
      MonthsAdd(a.year, a.month, 13);
      MonthTable(a.year);
    } else if a.month < b.month {
      MonthsAdd(a.year, a.month, b.month);
    }
  }

  /** Later dates have larger day numbers, so a day number names one date. */
  lemma DayNumberOrder(a: Date, b: Date)
    requires ValidDate(a) && ValidDate(b)
    ensures Earlier(a, b) <==> DayNumber(a) < DayNumber(b)
    ensures DayNumber(a) == DayNumber(b) <==> a == b
  {
    if Earlier(a, b) { EarlierIsSmaller(a, b); }
    if Earlier(b, a) { EarlierIsSmaller(b, a); }
  }

  lemma StepOf4(k: nat, r: nat)
    requires 4 * k + r >= 1
    ensures (4 * k + r) / 4 - (4 * k + r - 1) / 4 == if r % 4 == 0 then 1 else 0
    ensures (4 * k + r) % 4 == r % 4
  {
    var a, b := r / 4, r % 4;
    assert 4 * k + r == 4 * (k + a) + b;
  }

  lemma StepOf100(k: nat, r: nat)
    requires 100 * k + r >= 1
    ensures (100 * k + r) / 100 - (100 * k + r - 1) / 100 == if r % 100 == 0 then 1 else 0
    ensures (100 * k + r) % 100 == r % 100
  {
    var a, b := r / 100, r % 100;
    assert 100 * k + r == 100 * (k + a) + b;
  }

  lemma StepOf400(k: nat, r: nat)
    requires 400 * k + r >= 1 && r < 400
    ensures (400 * k + r) / 400 - (400 * k + r - 1) / 400 == if r == 0 then 1 else 0
  {
  }

  lemma LeapSteps(y: int)
    requires y >= 1
    ensures YearLen(y) == 365 + (y / 4 - (y - 1) / 4) - (y / 100 - (y - 1) / 100) + (y / 400 - (y - 1) / 400)
  {
    var q, r := y / 400, y % 400;
    assert y == 400 * q + r;
    StepOf4(100 * q, r);
    StepOf100(4 * q, r);
    StepOf400(q, r);
  }

  /** The leap-year rule in closed form. */
  lemma {:induction false} YearFormula(year: int)
    requires year >= 1970
    ensures DaysBeforeYear(year) ==
      365 * (year - 1970) + (year - 1) / 4 - (year - 1) / 100 + (year - 1) / 400 - 477
    decreases year
  {
    if year > 1970 {
      YearFormula(year - 1);
      LeapSteps(year - 1);
    }
  }

  // -------------------------------------------------- the closed form, piece by piece

  /** Centuries, four-year groups and days of a 400-year era, its last day apart. */
  lemma SplitEra(doe: nat) returns (b: nat, q: nat, s: nat)
    requires doe < 146096
    ensures doe == 36524 * b + 1461 * q + s && b <= 3 && q <= 24 && s <= 1460 && (q == 24 ==> s < 1460)
  {
    b := doe / 36524;
    var r := doe % 36524;
    q, s := r / 1461, r % 1461;
  }

  lemma YearInEra(doe: nat, b: nat, q: nat, s: nat) returns (j: nat)
    requires doe == 36524 * b + 1461 * q + s && b <= 3 && q <= 24 && s <= 1460 && (q == 24 ==> s < 1460)
    ensures j <= 3 && (doe - doe / 1460 + doe / 36524 - doe / 146096) / 365 == 100 * b + 4 * q + j
    ensures 0 <= s - 365 * j <= 365 && (s - 365 * j == 365 ==> j == 3 && q != 24)
  {
    var t := if 24 * b + q + s >= 1460 then 1 else 0;
    assert doe / 1460 == 25 * b + q + t by { assert 0 <= doe - 1460 * (25 * b + q + t) < 1460; }
    assert doe / 36524 == b by { assert 0 <= doe - 36524 * b < 36524; }
    assert doe / 146096 == 0;
    j := if s - t < 365 then 0 else if s - t < 730 then 1 else if s - t < 1095 then 2 else 3;
  }

  /** The year of the era brackets its day; only a leap year has a 366th day. */
  lemma YearOfEra(doe: nat, yoe: int)
    requires doe < 146097
    requires yoe == (doe - doe / 1460 + doe / 36524 - doe / 146096) / 365
    ensures 0 <= yoe < 400
    ensures 0 <= doe - (365 * yoe + yoe / 4 - yoe / 100) <= 365
    ensures doe - (365 * yoe + yoe / 4 - yoe / 100) == 365 ==>
      (yoe + 1) % 4 == 0 && ((yoe + 1) % 100 != 0 || yoe == 399)
  {
    if doe < 146096 {
      var b, q, s := SplitEra(doe);
      var j := YearInEra(doe, b, q, s);
      assert yoe / 4 == 25 * b + q;
      assert yoe / 100 == b;
    }
  }

  /** Months counted from March start on day (153 * mp + 2) / 5. */
  lemma MarchMonth(doy: int, mp: int)
    requires 0 <= doy <= 365 && mp == (5 * doy + 2) / 153
    ensures 0 <= mp <= 11
    ensures (153 * mp + 2) / 5 <= doy < (153 * (mp + 1) + 2) / 5
    ensures mp >= 10 <==> doy >= 306
  {
  }

  lemma EraIsPeriodic(era: nat, yoe: nat)
    requires yoe < 400
    ensures var y := yoe + 400 * era;
      y / 4 == 100 * era + yoe / 4 && y / 100 == 4 * era + yoe / 100 && y / 400 == era
  {
  }
}
