/**
 * The two UTC timestamp formatters: src/envelope/task_envelope.rs computes the date in closed
 * form, src/hardware/snapshot.rs walks years and months. Both write section 5.6 of RFC 3339.
 */
module Timestamps {
  import opened Calendar

  const SECS_PER_DAY := 86400

  /** Day of the year, counted from March of year `y`, to a civil date. */
  function MarchToCivil(y: int, doy: int): Date {
    var mp := (5 * doy + 2) / 153;
    var d := doy - (153 * mp + 2) / 5 + 1;
    var m := if mp < 10 then mp + 3 else mp - 9;
    Date(if m <= 2 then y + 1 else y, m, d)
  }

  /** Howard Hinnant's days-to-civil algorithm, as the envelope writes it. */
  function CivilFromDays(days: nat): Date {
    var z := days + 719468;
    var era := (if z >= 0 then z else z - 146096) / 146097;
    var doe := z - era * 146097;
    var yoe := (doe - doe / 1460 + doe / 36524 - doe / 146096) / 365;
    var y := yoe + era * 400;
    var doy := doe - (365 * yoe + yoe / 4 - yoe / 100);
    MarchToCivil(y, doy)
  }

  /** The intermediate values of the closed form. */
  lemma Intermediate(days: nat) returns (era: nat, doe: nat, yoe: nat, doy: int)
    ensures days + 719468 == era * 146097 + doe && doe < 146097
    ensures yoe == (doe - doe / 1460 + doe / 36524 - doe / 146096) / 365
    ensures doy == doe - (365 * yoe + yoe / 4 - yoe / 100)
    ensures CivilFromDays(days) == MarchToCivil(yoe + era * 400, doy)
  {
    hide MarchToCivil;
    era := (days + 719468) / 146097;
    doe := days + 719468 - era * 146097;
    yoe := (doe - doe / 1460 + doe / 36524 - doe / 146096) / 365;
    doy := doe - (365 * yoe + yoe / 4 - yoe / 100);
  }

  /** Day `doy` of the year that starts in March of year `yoe` of the era, as a day number. */
  lemma MarchYear(days: nat, era: nat, doe: nat, yoe: nat, doy: int)
    requires days + 719468 == era * 146097 + doe && doe < 146097 && yoe < 400
    requires doy == doe - (365 * yoe + yoe / 4 - yoe / 100) && 0 <= doy <= 365
    ensures var y := yoe + era * 400;
      (y > 1969 || (y == 1969 && doy >= 306)) && DaysBeforeYear(y + 1) - 306 + doy == days
  {
    var y := yoe + 400 * era;
    EraIsPeriodic(era, yoe);
    assert era >= 4;
    assert era == 4 ==> doe >= 135080 && yoe >= 369;
    YearFormula(y + 1);
  }

  lemma LeapAfter(era: nat, yoe: nat)
    requires yoe < 400 && (yoe + 1) % 4 == 0 && ((yoe + 1) % 100 != 0 || yoe == 399)
    ensures IsLeap(yoe + 400 * era + 1)
  {
    var y := yoe + 1 + 400 * era;
    if yoe == 399 {
      assert y == 400 * (era + 1);
      assert y % 400 == 0;
    } else {
      EraIsPeriodic(era, yoe + 1);
      assert y % 4 == y - 4 * (y / 4) && y % 100 == y - 100 * (y / 100);
    }
  }

  /** A day of the year that starts in March, as a date. */
  lemma MarchDate(y: int, doy: int)
    requires y > 1969 || (y == 1969 && doy >= 306)
    requires 0 <= doy <= 365 && (doy == 365 ==> IsLeap(y + 1))
    ensures ValidDate(MarchToCivil(y, doy))
    ensures DayNumber(MarchToCivil(y, doy)) == DaysBeforeYear(y + 1) - 306 + doy
  {
    var mp := (5 * doy + 2) / 153;
    MarchMonth(doy, mp);
    if mp < 10 {
      MonthTable(y);
    } else {
      MonthTable(y + 1);
    }
  }

  /** The closed form inverts the calendar: the date is valid and counts back to the given day. */
  lemma CivilInvertsCalendar(days: nat)
    ensures ValidDate(CivilFromDays(days))
    ensures DayNumber(CivilFromDays(days)) == days
  {
    hide CivilFromDays, MarchToCivil, ValidDate, DayNumber, IsLeap;
    var era, doe, yoe, doy := Intermediate(days);
    YearOfEra(doe, yoe);
    MarchYear(days, era, doe, yoe, doy);
    if doy == 365 { LeapAfter(era, yoe); }
    MarchDate(yoe + era * 400, doy);
  }

  // ------------------------------------------------------------------------ text

  function Digit(n: nat): char
    requires n < 10
  {
    '0' + n as char
  }

  /** Decimal digits, padded on the left with zeros to at least `width`. */
  function Pad(n: nat, width: nat): string
    decreases n + width
  {
    if width == 0 then if n == 0 then "" else Pad(n / 10, 0) + [Digit(n % 10)]
    else Pad(n / 10, width - 1) + [Digit(n % 10)]
  }

  /** Zero-padded fields, each followed by its separator. */
  function Fields(vals: seq<nat>, widths: seq<nat>, seps: string): string
    requires |vals| == |widths| == |seps|
  {
    if vals == [] then "" else Pad(vals[0], widths[0]) + [seps[0]] + Fields(vals[1..], widths[1..], seps[1..])
  }

  const WIDTHS: seq<nat> := [4, 2, 2, 2, 2, 2]

  /** The layout both formatters use: YYYY-MM-DDThh:mm:ssZ. */
  function Stamp(date: Date, hours: nat, minutes: nat, seconds: nat): string
    requires date.year >= 0 && date.month >= 0 && date.day >= 0
  {
    Fields([date.year, date.month, date.day, hours, minutes, seconds], WIDTHS, "--T::Z")
  }

  /** The fields of an epoch second, most significant first. */
  function Civil(secs: nat): (f: seq<nat>)
    ensures |f| == 6
  {
    var days := secs / SECS_PER_DAY;
    var timeOfDay := secs % SECS_PER_DAY;
    var date := CivilFromDays(days);
    CivilInvertsCalendar(days);
    [date.year, date.month, date.day, timeOfDay / 3600, (timeOfDay % 3600) / 60, timeOfDay % 60]
  }

  /** The envelope's timestamp of a given epoch second. */
  function EnvelopeTimestamp(secs: nat): string {
    Fields(Civil(secs), WIDTHS, "--T::Z")
  }

  /** The first day whose year no longer fits i32. */
  const FIRST_DAY_PAST_I32 := 784351576777

  lemma YearsThatFit(year: int)
    requires year >= 1970
    ensures year >= 0x8000_0000 <==> DaysBeforeYear(year) >= FIRST_DAY_PAST_I32
  {
    YearFormula(year);
  }

  /** A valid date with the right day number is the closed form's date. */
  lemma StampOfDay(date: Date, secs: nat)
    requires ValidDate(date) && DayNumber(date) == secs / SECS_PER_DAY
    ensures var t := secs % SECS_PER_DAY;
      Stamp(date, t / 3600, (t % 3600) / 60, t % 60) == EnvelopeTimestamp(secs)
  {
    hide CivilFromDays, Fields;
    CivilInvertsCalendar(secs / SECS_PER_DAY);
    DayNumberOrder(date, CivilFromDays(secs / SECS_PER_DAY));
  }

  function MonthDays(year: int): (days: seq<nat>)
    ensures |days| == 12 && forall i :: 0 <= i < 12 ==> days[i] == MonthLen(year, i + 1)
  {
    if IsLeap(year) then [31, 29, 31, 30, 31, 30, 31, 31, 30, 31, 30, 31]
    else [31, 28, 31, 30, 31, 30, 31, 31, 30, 31, 30, 31]
  }

  /** Walking the calendar gives the same text as the closed form. */
  method FormatIso8601(epochSecs: nat) returns (s: string)
    requires epochSecs / SECS_PER_DAY < FIRST_DAY_PAST_I32
    ensures s == EnvelopeTimestamp(epochSecs)
  {
    hide Stamp, EnvelopeTimestamp, MonthDays;
    ghost var day := epochSecs / SECS_PER_DAY;
    var days := epochSecs / SECS_PER_DAY;
    var daySecs := epochSecs % SECS_PER_DAY;
    var hours := daySecs / 3600;
    var minutes := (daySecs % 3600) / 60;
    var seconds := daySecs % 60;

    var year := 1970;
    while true
      invariant 1970 <= year < 0x8000_0000 && 0 <= days
      invariant DaysBeforeYear(year) + days == day
      decreases days
    {
      var daysInYear := if IsLeap(year) then 366 else 365;
      if days < daysInYear {
        break;
      }
      days := days - daysInYear;
      year := year + 1;
      YearsThatFit(year);
    }

    var monthDays := MonthDays(year);
    MonthTable(year);
    ghost var inYear := days;
    var month := 0;
    for i := 0 to |monthDays|
      invariant month == 0 && 0 <= days
      invariant DaysBeforeMonth(year, i + 1) + days == inYear
    {
      if days < monthDays[i] {
        month := i;
        break;
      }
      days := days - monthDays[i];
    }

    var date := Date(year, month + 1, days + 1);
    assert ValidDate(date) && DayNumber(date) == day;
    StampOfDay(date, epochSecs);
    s := Stamp(date, hours, minutes, seconds);
  }

  // -------------------------------------------------------------------- text order

  ghost predicate DiffersAt(a: string, b: string, k: int) {
    0 <= k < |a| && k < |b| && a[..k] == b[..k] && a[k] < b[k]
  }

  /** Lexicographic order, as string comparison has it. */
  ghost predicate LexLess(a: string, b: string) {
    a < b || exists k :: DiffersAt(a, b, k)
  }

  lemma DiffersAppend(a: string, b: string, x: string, y: string, k: int)
    requires DiffersAt(a, b, k)
    ensures DiffersAt(a + x, b + y, k)
  {
  }

  lemma DiffersPrepend(p: string, a: string, b: string, k: int)
    requires DiffersAt(a, b, k)
    ensures DiffersAt(p + a, p + b, |p| + k)
  {
  }

  function Pow10(w: nat): nat { if w == 0 then 1 else 10 * Pow10(w - 1) }

  lemma {:induction false} PadLength(n: nat, w: nat)
    requires n < Pow10(w)
    ensures |Pad(n, w)| == w
    decreases w
  {
    if w > 0 { PadLength(n / 10, w - 1); }
  }

  lemma {:induction false} PadOrder(m: nat, n: nat, w: nat) returns (k: int)
    requires m < n < Pow10(w)
    ensures DiffersAt(Pad(m, w), Pad(n, w), k)
    decreases w
  {
    var p, q := Pad(m / 10, w - 1), Pad(n / 10, w - 1);
    PadLength(m / 10, w - 1);
    PadLength(n / 10, w - 1);
    if m / 10 < n / 10 {
      k := PadOrder(m / 10, n / 10, w - 1);
      DiffersAppend(p, q, [Digit(m % 10)], [Digit(n % 10)], k);
    } else {
      k := w - 1;
      assert p == q && m % 10 < n % 10;
      assert Pad(m, w)[..k] == p && Pad(n, w)[..k] == q;
    }
  }

  /** Fixed-width fields compare like their first difference. */
  lemma {:induction false} FieldsOrder(u: seq<nat>, v: seq<nat>, widths: seq<nat>, seps: string, i: nat)
    returns (k: int)
    requires |u| == |v| == |widths| == |seps| && i < |u|
    requires u[..i] == v[..i] && u[i] < v[i] < Pow10(widths[i])
    ensures DiffersAt(Fields(u, widths, seps), Fields(v, widths, seps), k)
    decreases i
  {
    var restU, restV := Fields(u[1..], widths[1..], seps[1..]), Fields(v[1..], widths[1..], seps[1..]);
    var p, q := Pad(u[0], widths[0]), Pad(v[0], widths[0]);
    if i == 0 {
      k := PadOrder(u[0], v[0], widths[0]);
      DiffersAppend(p, q, [seps[0]], [seps[0]], k);
      DiffersAppend(p + [seps[0]], q + [seps[0]], restU, restV, k);
    } else {
      assert u[0] == u[..i][0] && v[0] == v[..i][0];
      assert u[1..][..i - 1] == u[..i][1..] && v[1..][..i - 1] == v[..i][1..];
      k := FieldsOrder(u[1..], v[1..], widths[1..], seps[1..], i - 1);
      DiffersPrepend(p + [seps[0]], restU, restV, k);
      k := |p + [seps[0]]| + k;
    }
  }

  lemma LaterDate(a: Date, b: Date) returns (i: nat)
    requires ValidDate(a) && ValidDate(b) && DayNumber(a) < DayNumber(b)
    ensures i < 3 && [a.year, a.month, a.day][i] < [b.year, b.month, b.day][i]
    ensures i > 0 ==> a.year == b.year
    ensures i > 1 ==> a.month == b.month
  {
    DayNumberOrder(a, b);
    i := if a.year < b.year then 0 else if a.month < b.month then 1 else 2;
  }

  /** Hours, minutes and seconds rebuild the second of the day. */
  lemma TimeParts(p: nat)
    ensures p == p / 3600 * 3600 + (p % 3600) / 60 * 60 + p % 60
  {
  }

  lemma LaterTime(p: nat, q: nat) returns (i: nat)
    requires p < q < SECS_PER_DAY
    ensures i < 3 && [p / 3600, (p % 3600) / 60, p % 60][i] < [q / 3600, (q % 3600) / 60, q % 60][i]
    ensures i > 0 ==> p / 3600 == q / 3600
    ensures i > 1 ==> (p % 3600) / 60 == (q % 3600) / 60
  {
    TimeParts(p);
    TimeParts(q);
    i := if p / 3600 < q / 3600 then 0 else if (p % 3600) / 60 < (q % 3600) / 60 then 1 else 2;
  }

  /** The first field in which a later second is larger; all fields before it agree. */
  lemma LaterInSomeField(s: nat, t: nat) returns (i: nat)
    requires s < t
    ensures i < 6 && Civil(s)[..i] == Civil(t)[..i] && Civil(s)[i] < Civil(t)[i]
  {
    hide CivilFromDays, DayNumber, ValidDate;
    CivilInvertsCalendar(s / SECS_PER_DAY);
    CivilInvertsCalendar(t / SECS_PER_DAY);
    if s / SECS_PER_DAY < t / SECS_PER_DAY {
      i := LaterDate(CivilFromDays(s / SECS_PER_DAY), CivilFromDays(t / SECS_PER_DAY));
    } else {
      var k := LaterTime(s % SECS_PER_DAY, t % SECS_PER_DAY);
      i := 3 + k;
    }
  }

  /** The six fields are in range (section 5.7 of RFC 3339) and count back to the epoch second. */
  lemma FieldsInvert(secs: nat)
    ensures var f := Civil(secs);
      && ValidDate(Date(f[0], f[1], f[2])) && f[3] < 24 && f[4] < 60 && f[5] < 60
      && DayNumber(Date(f[0], f[1], f[2])) * SECS_PER_DAY + f[3] * 3600 + f[4] * 60 + f[5] == secs
  {
    hide CivilFromDays, DayNumber, ValidDate;
    CivilInvertsCalendar(secs / SECS_PER_DAY);
    var date := CivilFromDays(secs / SECS_PER_DAY);
    assert Date(date.year, date.month, date.day) == date;
  }

  lemma FieldsInRange(t: nat)
    requires Civil(t)[0] <= 9999
    ensures forall i :: 0 <= i < 6 ==> Civil(t)[i] < Pow10(WIDTHS[i])
  {
  }

  ghost function Total(widths: seq<nat>): nat {
    if widths == [] then 0 else widths[0] + 1 + Total(widths[1..])
  }

  lemma {:induction false} FieldsLength(vals: seq<nat>, widths: seq<nat>, seps: string)
    requires |vals| == |widths| == |seps|
    requires forall i :: 0 <= i < |vals| ==> vals[i] < Pow10(widths[i])
    ensures |Fields(vals, widths, seps)| == Total(widths)
  {
    if vals != [] {
      PadLength(vals[0], widths[0]);
      FieldsLength(vals[1..], widths[1..], seps[1..]);
    }
  }

  lemma WidthTotals(i: nat)
    requires i <= 5
    ensures Total([2, 2, 2, 2, 2][..i]) == 3 * i
  {
    var w := [2, 2, 2, 2, 2];
    assert w[..0] == [] && w[..1] == [2] && w[..2] == [2, 2] && w[..3] == [2, 2, 2];
    assert w[..4] == [2, 2, 2, 2] && w[..5] == w;
    assert Total([2]) == 3 && Total([2, 2]) == 6 && Total([2, 2, 2]) == 9 && Total([2, 2, 2, 2]) == 12;
    assert Total([2, 2, 2, 2, 2]) == 15;
  }

  lemma FourDigits(year: nat)
    requires year <= 9999
    ensures |Pad(year, 4)| == 4
  {
    PadLength(year, 4);
  }

  lemma TimestampLength(t: nat)
    requires Civil(t)[0] <= 9999
    ensures |EnvelopeTimestamp(t)| == 20
  {
    hide Civil, Fields;
    FieldsInRange(t);
    FieldsLength(Civil(t), WIDTHS, "--T::Z");
    assert Total(WIDTHS) == 20 by { assert WIDTHS[1..] == [2, 2, 2, 2, 2][..5]; WidthTotals(5); }
  }

  /** Up to year 9999 the text is 20 characters and sorts as time does. */
  lemma TimestampsSortByTime(s: nat, t: nat)
    requires s < t && Civil(t)[0] <= 9999
    ensures |EnvelopeTimestamp(t)| == 20
    ensures LexLess(EnvelopeTimestamp(s), EnvelopeTimestamp(t))
  {
    hide Civil, Fields, DiffersAt;
    var i := LaterInSomeField(s, t);
    FieldsInRange(t);
    var k := FieldsOrder(Civil(s), Civil(t), WIDTHS, "--T::Z", i);
    TimestampLength(t);
  }

  // ---------------------------------------------------------------- reading it back

  /** The number a string of decimal digits denotes. */
  ghost function Number(digits: string): int {
    if digits == [] then 0
    else 10 * Number(digits[..|digits| - 1]) + (digits[|digits| - 1] as int - '0' as int)
  }

  lemma {:induction false} PadReadsBack(n: nat, w: nat)
    ensures Number(Pad(n, w)) == n
    decreases n + w
  {
    if n > 0 || w > 0 {
      var rest := Pad(n / 10, if w == 0 then 0 else w - 1);
      PadReadsBack(n / 10, if w == 0 then 0 else w - 1);
      assert Pad(n, w)[..|rest|] == rest;
    }
  }

  ghost predicate IsDigit(c: char) { '0' <= c <= '9' }

  /** Decimal digits, and nothing else, that denote `value`. */
  ghost predicate Denotes(digits: string, value: nat) {
    Number(digits) == value && forall i :: 0 <= i < |digits| ==> IsDigit(digits[i])
  }

  /** At least `w` decimal digits denoting `n`, and no leading zero if there are more. */
  lemma {:induction false} PadIsNumeral(n: nat, w: nat)
    ensures Denotes(Pad(n, w), n)
    ensures |Pad(n, w)| >= w && (|Pad(n, w)| > w ==> Pad(n, w)[0] != '0')
    decreases n + w
  {
    PadReadsBack(n, w);
    hide Number;
    if n > 0 || w > 0 {
      var rest := Pad(n / 10, if w == 0 then 0 else w - 1);
      PadIsNumeral(n / 10, if w == 0 then 0 else w - 1);
      assert Pad(n, w) == rest + [Digit(n % 10)];
      assert forall i :: 0 <= i < |rest| ==> IsDigit(rest[i]);
    }
  }

  lemma SliceOfTail(a: string, b: string, lo: nat, hi: nat)
    requires lo <= hi < |b|
    ensures (a + b)[|a| + lo..|a| + hi] == b[lo..hi] && (a + b)[|a| + hi] == b[hi]
  {
  }

  /** `text` has `field` at position `at`, followed by `sep`. */
  ghost predicate HasField(text: string, at: nat, field: string, sep: char) {
    at + |field| < |text| && text[at..at + |field|] == field && text[at + |field|] == sep
  }

  lemma FirstField(vals: seq<nat>, widths: seq<nat>, seps: string)
    requires |vals| == |widths| == |seps| && vals != [] && vals[0] < Pow10(widths[0])
    ensures var p := Pad(vals[0], widths[0]);
      && |p| == widths[0]
      && Fields(vals, widths, seps) == (p + [seps[0]]) + Fields(vals[1..], widths[1..], seps[1..])
      && HasField(Fields(vals, widths, seps), 0, p, seps[0])
  {
    PadLength(vals[0], widths[0]);
  }

  lemma LaterField(head: string, rest: string, at: nat, field: string, sep: char)
    requires HasField(rest, at, field, sep)
    ensures HasField(head + rest, |head| + at, field, sep)
  {
    SliceOfTail(head, rest, at, at + |field|);
  }

  /** Field `i` and its separator stand where the widths put them. */
  lemma {:induction false} FieldAt(vals: seq<nat>, widths: seq<nat>, seps: string, i: nat)
    requires |vals| == |widths| == |seps| && i < |vals|
    requires forall j :: 0 <= j < |vals| ==> vals[j] < Pow10(widths[j])
    ensures |Pad(vals[i], widths[i])| == widths[i]
    ensures HasField(Fields(vals, widths, seps), Total(widths[..i]), Pad(vals[i], widths[i]), seps[i])
    decreases i
  {
    hide Fields, Pad, Pow10, HasField;
    FirstField(vals, widths, seps);
    if i > 0 {
      var head := Pad(vals[0], widths[0]) + [seps[0]];
      FieldAt(vals[1..], widths[1..], seps[1..], i - 1);
      assert widths[..i][1..] == widths[1..][..i - 1];
      LaterField(head, Fields(vals[1..], widths[1..], seps[1..]), Total(widths[1..][..i - 1]),
                 Pad(vals[i], widths[i]), seps[i]);
    }
  }

  /** The fields after the year. */
  ghost function AfterYear(t: nat): (f: seq<nat>)
    ensures |f| == 5
  {
    Civil(t)[1..]
  }

  lemma TextSplits(t: nat)
    ensures EnvelopeTimestamp(t) == Pad(Civil(t)[0], 4) + ['-'] + Fields(AfterYear(t), [2, 2, 2, 2, 2], "-T::Z")
  {
    hide Civil;
    assert WIDTHS[1..] == [2, 2, 2, 2, 2] && "--T::Z"[1..] == "-T::Z";
  }

  lemma AfterYearInRange(t: nat)
    ensures forall i :: 0 <= i < 5 ==> AfterYear(t)[i] < Pow10(2)
  {
    FieldsInvert(t);
    hide Civil;
    assert Pow10(2) == 100 by { assert Pow10(1) == 10 && Pow10(0) == 1; }
    assert AfterYear(t) == [Civil(t)[1], Civil(t)[2], Civil(t)[3], Civil(t)[4], Civil(t)[5]];
  }

  /** The fields after the year have two digits each and stand every three characters. */
  lemma FieldOfText(t: nat, i: nat)
    requires i < 5
    ensures var rest := Fields(AfterYear(t), [2, 2, 2, 2, 2], "-T::Z");
      && |rest| == 15
      && rest[3 * i + 2] == "-T::Z"[i]
      && Denotes(rest[3 * i..3 * i + 2], AfterYear(t)[i])
  {
    hide Civil, AfterYear, Fields, Denotes, Pow10;
    var widths := [2, 2, 2, 2, 2];
    var rest := Fields(AfterYear(t), widths, "-T::Z");
    AfterYearInRange(t);
    FieldsLength(AfterYear(t), widths, "-T::Z");
    FieldAt(AfterYear(t), widths, "-T::Z", i);
    WidthTotals(i);
    PadIsNumeral(AfterYear(t)[i], 2);
    assert HasField(rest, 3 * i, Pad(AfterYear(t)[i], 2), "-T::Z"[i]);
  }

  /**
   * The text has the separators of section 5.6 of RFC 3339, with nothing but decimal digits between
   * them that read back as the six fields; the year has four digits, or more without a leading zero.
   */
  lemma TextReadsBack(t: nat)
    ensures var s, f := EnvelopeTimestamp(t), Civil(t);
      var n := |s| - 16;
      && n >= 4 && (n > 4 ==> s[0] != '0') && (f[0] <= 9999 ==> n == 4)
      && s[n] == '-' && s[n + 3] == '-' && s[n + 6] == 'T' && s[n + 9] == ':' && s[n + 12] == ':' && s[n + 15] == 'Z'
      && Denotes(s[..n], f[0]) && Denotes(s[n + 1..n + 3], f[1]) && Denotes(s[n + 4..n + 6], f[2])
      && Denotes(s[n + 7..n + 9], f[3]) && Denotes(s[n + 10..n + 12], f[4]) && Denotes(s[n + 13..n + 15], f[5])
  {
    hide EnvelopeTimestamp, Civil, Denotes, Fields, Pad;
    var year := Pad(Civil(t)[0], 4);
    var rest := Fields(AfterYear(t), [2, 2, 2, 2, 2], "-T::Z");
    var s, n := EnvelopeTimestamp(t), |year|;
    TextSplits(t);
    PadIsNumeral(Civil(t)[0], 4);
    if Civil(t)[0] <= 9999 { FourDigits(Civil(t)[0]); }
    assert s[..n] == year;
    forall i | 0 <= i < 5
      ensures |rest| == 15 && s[n + 3 * i + 3] == "-T::Z"[i]
      ensures Denotes(s[n + 3 * i + 1..n + 3 * i + 3], Civil(t)[i + 1])
    {
      FieldOfText(t, i);
      assert s[n + 3 * i + 1..n + 3 * i + 3] == rest[3 * i..3 * i + 2];
    }
    assert Denotes(s[n + 3 * 0 + 1..n + 3 * 0 + 3], Civil(t)[0 + 1]) && s[n + 3 * 0 + 3] == "-T::Z"[0];
    assert Denotes(s[n + 3 * 1 + 1..n + 3 * 1 + 3], Civil(t)[1 + 1]) && s[n + 3 * 1 + 3] == "-T::Z"[1];
    assert Denotes(s[n + 3 * 2 + 1..n + 3 * 2 + 3], Civil(t)[2 + 1]) && s[n + 3 * 2 + 3] == "-T::Z"[2];
    assert Denotes(s[n + 3 * 3 + 1..n + 3 * 3 + 3], Civil(t)[3 + 1]) && s[n + 3 * 3 + 3] == "-T::Z"[3];
    assert Denotes(s[n + 3 * 4 + 1..n + 3 * 4 + 3], Civil(t)[4 + 1]) && s[n + 3 * 4 + 3] == "-T::Z"[4];
  }
}
