/** Day numbers and civil dates: the closed form against a calendar that counts day by day. */
module Calendar {
  import opened Division

  datatype Date = Date(year: int, month: nat, day: nat)

  // ---- the naive proleptic Gregorian calendar ----

  /** Appendix C of RFC 3339. */
  predicate IsLeap(y: int) {
    y % 4 == 0 && (y % 100 != 0 || y % 400 == 0)
  }

  /** Section 5.7 of RFC 3339. */
  function DaysInMonth(y: int, m: nat): nat {
    if m == 2 then (if IsLeap(y) then 29 else 28)
    else if m == 4 || m == 6 || m == 9 || m == 11 then 30
    else 31
  }

  predicate Valid(d: Date) {
    1 <= d.month <= 12 && 1 <= d.day <= DaysInMonth(d.year, d.month)
  }

  /** The day after. */
  function Next(d: Date): Date {
    if d.day < DaysInMonth(d.year, d.month) then d.(day := d.day + 1)
    else if d.month < 12 then Date(d.year, d.month + 1, 1)
    else Date(d.year + 1, 1, 1)
  }

  const EPOCH := Date(1970, 1, 1)

  function YearLength(y: int): nat {
    if IsLeap(y) then 366 else 365
  }

  /** Days from the epoch to the first of January, counted year by year. */
  function DaysBeforeYear(y: int): int
    decreases if y >= 1970 then y - 1970 else 1970 - y
  {
    if y == 1970 then 0
    else if y > 1970 then DaysBeforeYear(y - 1) + YearLength(y - 1)
    else DaysBeforeYear(y + 1) - YearLength(y)
  }

  /** Days of the year before a month, counted month by month. */
  function DaysBeforeMonth(y: int, m: nat): nat {
    if m <= 1 then 0 else DaysBeforeMonth(y, m - 1) + DaysInMonth(y, m - 1)
  }

  /** Days from the epoch, counted. */
  function DayNumber(d: Date): int {
    DaysBeforeYear(d.year) + DaysBeforeMonth(d.year, d.month) + d.day - 1
  }

  lemma DaysBeforeMonthTable(y: int, m: nat)
    requires 1 <= m <= 13
    ensures
      DaysBeforeMonth(y, m) ==
        [0, 0, 31, 59, 90, 120, 151, 181, 212, 243, 273, 304, 334, 365][m] + if m > 2 && IsLeap(y) then 1 else 0
  {
    if m > 1 {
      DaysBeforeMonthTable(y, m - 1);
    }
  }

  /** The day after has the next number. */
  lemma NextCounts(d: Date)
    requires Valid(d)
    ensures Valid(Next(d)) && DayNumber(Next(d)) == DayNumber(d) + 1
  {
    if d.day == DaysInMonth(d.year, d.month) && d.month == 12 {
      YearCounts(d.year);
    }
  }

  lemma YearCounts(y: int)
    ensures DaysBeforeMonth(y, 12) + 31 == YearLength(y)
    ensures DaysBeforeYear(y + 1) == DaysBeforeYear(y) + YearLength(y)
    ensures DaysBeforeMonth(y + 1, 1) == 0
  {
    DaysBeforeMonthTable(y, 12);
  }

  // ---- the closed form ----

  /** Signed division that truncates toward zero. */
  function TruncDiv(a: int, b: int): int
    requires b > 0
  {
    if a >= 0 then a / b else -(-a / b)
  }

  /** The era adjustment turns truncation into rounding down. */
  lemma EraIsFloor(z: int)
    ensures TruncDiv(if z >= 0 then z else z - 146096, 146097) == z / 146097
  {
  }

  /** Year within a 400-year era of a day within it; every unsigned subtraction is checked. */
  function YearOfEra(doe: nat): nat
    requires doe < 146097
  {
    var a: nat := doe - doe / 1460;
    var b: nat := a + doe / 36524 - doe / 146096;
    b / 365
  }

  /** Days of the era before a year that starts in March. */
  function YearStart(yoe: nat): nat {
    365 * yoe + yoe / 4 - yoe / 100
  }

  /** Length of the March-based year that ends in February of the following year. */
  function MarchYearLength(yoe: nat): nat {
    YearLength(yoe + 1)
  }

  /** A quotient grows exactly when the dividend reaches a multiple. */
  lemma QuotientSteps(y: int)
    ensures y / 4 == (y - 1) / 4 + if y % 4 == 0 then 1 else 0
    ensures y / 100 == (y - 1) / 100 + if y % 100 == 0 then 1 else 0
    ensures y / 400 == (y - 1) / 400 + if y % 400 == 0 then 1 else 0
  {
    QuarterStep(y);
    CenturyStep(y);
    EraStep(y);
  }

  lemma QuarterStep(y: int)
    ensures y / 4 == (y - 1) / 4 + if y % 4 == 0 then 1 else 0
  {
  }

  lemma CenturyStep(y: int)
    ensures y / 100 == (y - 1) / 100 + if y % 100 == 0 then 1 else 0
  {
  }

  lemma EraStep(y: int)
    ensures y / 400 == (y - 1) / 400 + if y % 400 == 0 then 1 else 0
  {
  }

  lemma MultiplesNest(y: int)
    ensures y % 400 == 0 ==> y % 100 == 0
    ensures y % 100 == 0 ==> y % 4 == 0
  {
    if y % 400 == 0 { Remainder(y, 100, 4 * (y / 400), 0); }
    if y % 100 == 0 { Remainder(y, 4, 25 * (y / 100), 0); }
  }

  lemma YearStartStep(yoe: nat)
    requires yoe < 400
    ensures YearStart(yoe + 1) == YearStart(yoe) + MarchYearLength(yoe) - if yoe == 399 then 1 else 0
  {
    QuotientSteps(yoe + 1);
    MultiplesNest(yoe + 1);
  }

  /** The century, the four-year cycle within it, and the year within that. */
  lemma YearByCycles(doe: nat, c: nat, q: nat, s: nat)
    requires doe < 146096 && c < 4 && q <= 24 && s < 1461
    requires doe == 36524 * c + 1461 * q + s && 1461 * q + s < 36524
    ensures YearOfEra(doe) == 100 * c + 4 * q + if s < 1460 then s / 365 else 3
  {
    var e := if 24 * c + q + s >= 1460 then 1 else 0;
    assert doe / 36524 == c;
    assert doe / 1460 == 25 * c + q + e;
    assert doe / 146096 == 0;
  }

  lemma LeapByCycles(c: nat, q: nat, t: nat)
    requires c < 4 && q <= 24 && t <= 3
    ensures MarchYearLength(100 * c + 4 * q + t) == if t == 3 && (q < 24 || c == 3) then 366 else 365
    ensures YearStart(100 * c + 4 * q + t) == 36524 * c + 1461 * q + 365 * t
  {
    var y := 100 * c + 4 * q + t;
    assert y / 4 == 25 * c + q && y / 100 == c;
    assert (y + 1) % 4 == 0 <==> t == 3;
    if t == 3 {
      assert (y + 1) % 100 == 0 <==> q == 24;
      assert q == 24 ==> ((y + 1) % 400 == 0 <==> c == 3);
    }
  }

  /** The closed form finds the year that contains the day. */
  lemma YearContainsDay(doe: nat)
    requires doe < 146097
    ensures
      var y := YearOfEra(doe);
      y < 400 && YearStart(y) <= doe < YearStart(y) + MarchYearLength(y)
  {
    if doe < 146096 {
      var c := doe / 36524;
      var r := doe - 36524 * c;
      CycleContainsDay(doe, c, r / 1461, r % 1461);
    } else {
      LastDayOfEra(doe);
    }
  }

  lemma CycleContainsDay(doe: nat, c: nat, q: nat, s: nat)
    requires doe < 146096 && c < 4 && q <= 24 && s < 1461
    requires doe == 36524 * c + 1461 * q + s && 1461 * q + s < 36524
    ensures
      var y := YearOfEra(doe);
      y < 400 && YearStart(y) <= doe < YearStart(y) + MarchYearLength(y)
  {
    YearByCycles(doe, c, q, s);
    LeapByCycles(c, q, if s < 1460 then s / 365 else 3);
  }

  lemma LastDayOfEra(doe: nat)
    requires doe == 146096
    ensures YearOfEra(doe) == 399 && YearStart(399) <= doe < YearStart(399) + MarchYearLength(399)
  {
  }

  /** Only one year contains a day. */
  lemma YearUnique(doe: nat, y: nat)
    requires doe < 146097 && y < 400 && YearStart(y) <= doe < YearStart(y) + MarchYearLength(y)
    ensures YearOfEra(doe) == y
  {
    YearContainsDay(doe);
    var x := YearOfEra(doe);
    YearStartStep(x);
    YearStartStep(y);
  }

  /** Month and day of a day of a March-based year. */
  function MonthDay(doy: nat): (nat, nat)
    requires doy < 366
  {
    var mp := (5 * doy + 2) / 153;
    var d: nat := doy - (153 * mp + 2) / 5 + 1;
    var m: nat := if mp < 10 then mp + 3 else mp - 9;
    (m, d)
  }

  /** The date of a day within an era; the year advances in January. */
  function InEra(era: int, doe: nat): Date
    requires doe < 146097
  {
    var yoe := YearOfEra(doe);
    YearContainsDay(doe);
    var doy: nat := doe - (365 * yoe + yoe / 4 - yoe / 100);
    var (m, d) := MonthDay(doy);
    var y := yoe + era * 400;
    Date(if m <= 2 then y + 1 else y, m, d)
  }

  /** The date of a day number, with an unbounded year. */
  function Civil(z: int): Date {
    var z := z + 719468;
    var era := TruncDiv(if z >= 0 then z else z - 146096, 146097);
    EraIsFloor(z);
    var doe: nat := z - era * 146097;
    InEra(era, doe)
  }

  /** The same date assembled from its era, March-based year and day of that year. */
  function Assemble(era: int, yoe: nat, doy: nat): Date
    requires doy < 366
  {
    var (m, d) := MonthDay(doy);
    Date(yoe + era * 400 + if m <= 2 then 1 else 0, m, d)
  }

  lemma InEraIsAssembled(era: int, yoe: nat, doy: nat)
    requires yoe < 400 && doy < MarchYearLength(yoe)
    ensures YearStart(yoe) + doy < 146097
    ensures InEra(era, YearStart(yoe) + doy) == Assemble(era, yoe, doy)
  {
    assert YearStart(yoe) + doy < 146097 by {
      YearStartsWithin(yoe);
    }
    YearUnique(YearStart(yoe) + doy, yoe);
  }

  lemma YearStartsWithin(yoe: nat)
    requires yoe < 400
    ensures YearStart(yoe) + MarchYearLength(yoe) <= 146097
  {
    YearStartStep(yoe);
  }

  lemma CivilByEra(z: int)
    ensures Civil(z) == InEra((z + 719468) / 146097, (z + 719468) % 146097)
  {
    EraIsFloor(z + 719468);
  }

  // ---- the closed form refines the calendar ----

  /** First day of a month in a year that starts in March. */
  function MonthStart(mp: nat): nat {
    (153 * mp + 2) / 5
  }

  lemma MonthContainsDay(doy: nat)
    requires doy < 366
    ensures
      var mp := (5 * doy + 2) / 153;
      mp <= 11 && MonthStart(mp) <= doy && (doy < MonthStart(mp + 1))
  {
  }

  /** Month lengths are the gaps between month starts, February aside. */
  lemma MonthLengths(y: int, mp: nat)
    requires mp < 11
    ensures DaysInMonth(y, if mp < 10 then mp + 3 else mp - 9) == MonthStart(mp + 1) - MonthStart(mp)
  {
  }

  lemma {:induction false} AssembledValid(era: int, yoe: nat, doy: nat)
    requires yoe < 400 && doy < MarchYearLength(yoe)
    ensures Valid(Assemble(era, yoe, doy))
  {
    MonthContainsDay(doy);
    var mp := (5 * doy + 2) / 153;
    if mp < 11 {
      MonthLengths(Assemble(era, yoe, doy).year, mp);
    } else {
      FebruaryLength(era, yoe);
    }
  }

  /** The leap rule repeats every 400 years. */
  lemma LeapRepeats(y: int, era: int)
    ensures IsLeap(y + era * 400) == IsLeap(y)
  {
    var shifted := y + era * 400;
    assert shifted == 4 * (y / 4 + era * 100) + y % 4;
    assert shifted == 100 * (y / 100 + era * 4) + y % 100;
    assert shifted == 400 * (y / 400 + era) + y % 400;
    Remainder(shifted, 4, y / 4 + era * 100, y % 4);
    Remainder(shifted, 100, y / 100 + era * 4, y % 100);
    Remainder(shifted, 400, y / 400 + era, y % 400);
  }

  lemma FebruaryLength(era: int, yoe: nat)
    ensures DaysInMonth(yoe + era * 400 + 1, 2) == MarchYearLength(yoe) - 337
  {
    LeapRepeats(yoe + 1, era);
    assert yoe + era * 400 + 1 == yoe + 1 + era * 400;
  }

  /** Within a March-based year the next day is the calendar's day after. */
  lemma NextWithinYear(era: int, yoe: nat, doy: nat)
    requires yoe < 400 && doy + 1 < MarchYearLength(yoe)
    ensures Assemble(era, yoe, doy + 1) == Next(Assemble(era, yoe, doy))
  {
    var mp, mp' := (5 * doy + 2) / 153, (5 * (doy + 1) + 2) / 153;
    MonthContainsDay(doy);
    MonthContainsDay(doy + 1);
    if mp < 11 {
      MonthLengths(Assemble(era, yoe, doy).year, mp);
      assert mp' == if doy + 1 < MonthStart(mp + 1) then mp else mp + 1;
    } else {
      FebruaryLength(era, yoe);
    }
  }

  /** The day after the last of February is the first of March. */
  lemma NextYear(era: int, yoe: nat)
    requires yoe < 400
    ensures Next(Assemble(era, yoe, MarchYearLength(yoe) - 1)) == Date(yoe + era * 400 + 1, 3, 1)
    ensures Assemble(era, yoe + 1, 0) == Date(yoe + era * 400 + 1, 3, 1)
  {
    FebruaryLength(era, yoe);
  }

  lemma NextAssembled(era: int, yoe: nat, doy: nat)
    requires yoe < 400 && doy < MarchYearLength(yoe)
    ensures Valid(Assemble(era, yoe, doy))
    ensures Next(Assemble(era, yoe, doy)) ==
      if doy + 1 < MarchYearLength(yoe) then Assemble(era, yoe, doy + 1)
      else if yoe < 399 then Assemble(era, yoe + 1, 0)
      else Assemble(era + 1, 0, 0)
  {
    AssembledValid(era, yoe, doy);
    if doy + 1 < MarchYearLength(yoe) {
      NextWithinYear(era, yoe, doy);
    } else {
      NextYear(era, yoe);
    }
  }

  /** The day after, within an era and across its end. */
  lemma NextInEra(era: int, doe: nat, yoe: nat, doy: nat)
    requires doe < 146097 && yoe < 400 && doy < MarchYearLength(yoe) && doe == YearStart(yoe) + doy
    ensures Valid(InEra(era, doe))
    ensures Next(InEra(era, doe)) == if doe < 146096 then InEra(era, doe + 1) else InEra(era + 1, 0)
  {
    InEraIsAssembled(era, yoe, doy);
    NextAssembled(era, yoe, doy);
    PlaceAfter(era, doe, yoe, doy);
  }

  /** Where the next number within the era, or the start of the next era, is. */
  lemma PlaceAfter(era: int, doe: nat, yoe: nat, doy: nat)
    requires doe < 146097 && yoe < 400 && doy < MarchYearLength(yoe) && doe == YearStart(yoe) + doy
    ensures (if doe < 146096 then InEra(era, doe + 1) else InEra(era + 1, 0)) ==
      if doy + 1 < MarchYearLength(yoe) then Assemble(era, yoe, doy + 1)
      else if yoe < 399 then Assemble(era, yoe + 1, 0)
      else Assemble(era + 1, 0, 0)
  {
    DayAfterDay(doe, yoe, doy);
    if doy + 1 < MarchYearLength(yoe) {
      InEraIsAssembled(era, yoe, doy + 1);
    } else if yoe < 399 {
      InEraIsAssembled(era, yoe + 1, 0);
    } else {
      InEraIsAssembled(era + 1, 0, 0);
    }
  }

  /** The number of the next day within the era, or the end of the era. */
  lemma DayAfterDay(doe: nat, yoe: nat, doy: nat)
    requires doe < 146097 && yoe < 400 && doy < MarchYearLength(yoe) && doe == YearStart(yoe) + doy
    ensures doe == 146096 <==> doy + 1 == MarchYearLength(yoe) && yoe == 399
    ensures doe < 146096 ==>
      doe + 1 == if doy + 1 < MarchYearLength(yoe) then YearStart(yoe) + (doy + 1) else YearStart(yoe + 1)
  {
    YearStartStep(yoe);
    YearStartsWithin(yoe);
    if yoe < 399 { YearStartsWithin(yoe + 1); }
  }

  /** A numbering of days by dates: it starts at the epoch and each day is followed by the
      calendar's day after. */
  ghost predicate CountsDays(f: int -> Date) {
    f(0) == EPOCH && forall z :: StepAt(f, z)
  }

  predicate StepAt(f: int -> Date, z: int) {
    Valid(f(z)) && f(z + 1) == Next(f(z))
  }

  lemma CivilStep(z: int)
    ensures StepAt(Civil, z)
  {
    CivilByEra(z);
    CivilByEra(z + 1);
    NextDayInEra(z, (z + 719468) / 146097, (z + 719468) % 146097);
    var doe := (z + 719468) % 146097;
    YearContainsDay(doe);
    NextInEra((z + 719468) / 146097, doe, YearOfEra(doe), doe - YearStart(YearOfEra(doe)));
  }

  /** The closed form yields valid dates from the epoch on and backward, each followed by the day after. */
  lemma CivilCountsDays()
    ensures CountsDays(Civil)
  {
    forall z ensures StepAt(Civil, z) {
      CivilStep(z);
    }
    CivilOfZero();
  }

  lemma CivilOfZero()
    ensures Civil(0) == EPOCH
  {
    var z, yoe, doy :| z == 0 && yoe == 369 && doy == 306;
    CivilByEra(z);
    assert (z + 719468) / 146097 == 4 && (z + 719468) % 146097 == 135080;
    DayOfEpoch(yoe, doy);
    InEraIsAssembled(4, yoe, doy);
  }

  /** The epoch's place in its March-based year. */
  lemma DayOfEpoch(yoe: nat, doy: nat)
    requires yoe == 369 && doy == 306
    ensures doy < MarchYearLength(yoe) && YearStart(yoe) + doy == 135080 && Assemble(4, yoe, doy) == EPOCH
  {
    assert MonthDay(doy) == (1, 1);
  }

  lemma NextDayInEra(z: int, era: int, doe: nat)
    requires era == (z + 719468) / 146097 && doe == (z + 719468) % 146097
    ensures doe < 146096 ==> (z + 1 + 719468) / 146097 == era && (z + 1 + 719468) % 146097 == doe + 1
    ensures doe == 146096 ==> (z + 1 + 719468) / 146097 == era + 1 && (z + 1 + 719468) % 146097 == 0
  {
  }

  /** Counting days inverts any such numbering. */
  lemma {:induction false} CountInverts(f: int -> Date, z: int)
    requires CountsDays(f)
    ensures DayNumber(f(z)) == z
    decreases if z >= 0 then z else -z
  {
    if z == 0 {
      assert DaysBeforeMonth(1970, 1) == 0;
    } else if z > 0 {
      CountInverts(f, z - 1);
      assert StepAt(f, z - 1);
      NextCounts(f(z - 1));
    } else {
      CountInverts(f, z + 1);
      assert StepAt(f, z);
      NextCounts(f(z));
    }
  }

  predicate Earlier(a: Date, b: Date) {
    a.year < b.year || (a.year == b.year && (a.month < b.month || (a.month == b.month && a.day < b.day)))
  }

  lemma {:induction false} YearsAreOrdered(y1: int, y2: int)
    requires y1 <= y2
    ensures DaysBeforeYear(y1) <= DaysBeforeYear(y2)
    ensures y1 < y2 ==> DaysBeforeYear(y1) + YearLength(y1) <= DaysBeforeYear(y2)
    decreases y2 - y1
  {
    if y1 < y2 {
      assert DaysBeforeYear(y1 + 1) == DaysBeforeYear(y1) + YearLength(y1);
      YearsAreOrdered(y1 + 1, y2);
    }
  }

  /** Earlier dates have smaller numbers. */
  lemma CountIsMonotone(a: Date, b: Date)
    requires Valid(a) && Valid(b) && Earlier(a, b)
    ensures DayNumber(a) < DayNumber(b)
  {
    DaysBeforeMonthTable(a.year, a.month);
    DaysBeforeMonthTable(b.year, b.month);
    YearsAreOrdered(a.year, b.year);
  }

  /** Such a numbering gives back every valid date from its count. */
  lemma InvertsCount(f: int -> Date, d: Date)
    requires CountsDays(f) && Valid(d)
    ensures f(DayNumber(d)) == d
  {
    var e := f(DayNumber(d));
    assert StepAt(f, DayNumber(d));
    CountInverts(f, DayNumber(d));
    if Earlier(d, e) { CountIsMonotone(d, e); }
    if Earlier(e, d) { CountIsMonotone(e, d); }
  }

  /** Later days have later dates, and only they. */
  lemma CountsInOrder(f: int -> Date, a: int, b: int)
    requires CountsDays(f)
    ensures a < b <==> Earlier(f(a), f(b))
  {
    assert StepAt(f, a) && StepAt(f, b);
    CountInverts(f, a);
    CountInverts(f, b);
    if Earlier(f(a), f(b)) {
      CountIsMonotone(f(a), f(b));
    } else if Earlier(f(b), f(a)) {
      CountIsMonotone(f(b), f(a));
    }
  }

  // ---- the function as written, with its 32-bit year ----

  /** Conversion to a signed 32-bit integer, which wraps. */
  function ToI32(y: int): int {
    (y + 0x8000_0000) % 0x1_0000_0000 - 0x8000_0000
  }

  /** Day numbers for which the 64-bit addition of the era offset does not overflow. */
  predicate InRange(z: int) {
    -0x8000_0000_0000_0000 <= z && z + 719468 < 0x8000_0000_0000_0000
  }

  function Narrow(d: Date): Date {
    d.(year := ToI32(d.year))
  }

  function DaysToCivil(z: int): Date
    requires InRange(z)
  {
    Narrow(Civil(z))
  }

  /** The day numbers whose year fits a signed 32-bit integer. */
  const FIRST_DAY := -784353015833
  const LAST_DAY := 784351576776

  /** The count of days before a year, in closed form. */
  lemma {:induction false} DaysBeforeYearClosed(y: int)
    ensures DaysBeforeYear(y) == 365 * (y - 1970) + (y - 1) / 4 - (y - 1) / 100 + (y - 1) / 400 - 477
    decreases if y >= 1970 then y - 1970 else 1970 - y
  {
    if y > 1970 {
      DaysBeforeYearClosed(y - 1);
      LeapDays(y - 1);
    } else if y < 1970 {
      DaysBeforeYearClosed(y + 1);
      LeapDays(y);
    }
  }

  lemma LeapDays(y: int)
    ensures YearLength(y) == 365 + (y / 4 - (y - 1) / 4) - (y / 100 - (y - 1) / 100) + (y / 400 - (y - 1) / 400)
  {
    QuotientSteps(y);
    MultiplesNest(y);
  }

  lemma FitsBetween(f: int -> Date, z: int, first: Date, beyond: Date)
    requires CountsDays(f) && first.month == beyond.month == 1 && first.day == beyond.day == 1
    ensures first.year <= f(z).year < beyond.year <==> DayNumber(first) <= z < DayNumber(beyond)
  {
    InvertsCount(f, first);
    InvertsCount(f, beyond);
    CountsInOrder(f, z, DayNumber(first));
    CountsInOrder(f, z, DayNumber(beyond));
    assert StepAt(f, z);
  }

  predicate FitsI32(y: int) {
    -0x8000_0000 <= y < 0x8000_0000
  }

  lemma NewYearsDay(y: int)
    ensures DayNumber(Date(y, 1, 1)) == 365 * (y - 1970) + (y - 1) / 4 - (y - 1) / 100 + (y - 1) / 400 - 477
  {
    DaysBeforeYearClosed(y);
  }

  lemma FirstDayCount(y: int)
    requires y == -0x8000_0000
    ensures DayNumber(Date(y, 1, 1)) == FIRST_DAY
  {
    NewYearsDay(y);
  }

  lemma LastDayCount(y: int)
    requires y == 0x8000_0000
    ensures DayNumber(Date(y, 1, 1)) == LAST_DAY + 1
  {
    NewYearsDay(y);
  }

  lemma YearFitsIff(f: int -> Date, z: int)
    requires CountsDays(f)
    ensures FitsI32(f(z).year) <==> FIRST_DAY <= z <= LAST_DAY
  {
    var first, beyond :| first == -0x8000_0000 && beyond == 0x8000_0000;
    FirstDayCount(first);
    LastDayCount(beyond);
    FitsBetween(f, z, Date(first, 1, 1), Date(beyond, 1, 1));
  }

  lemma NarrowedCount(f: int -> Date, z: int)
    requires CountsDays(f)
    ensures FIRST_DAY <= z <= LAST_DAY ==> Narrow(f(z)) == f(z) && Valid(f(z))
    ensures DayNumber(Narrow(f(z))) == z <==> FIRST_DAY <= z <= LAST_DAY
  {
    YearFitsIff(f, z);
    CountInverts(f, z);
    assert StepAt(f, z);
    if !FitsI32(f(z).year) {
      OtherYearCountsOther(f(z), ToI32(f(z).year));
    }
  }

  /** The function as written is the calendar for exactly the days whose year fits 32 bits:
      there its dates are valid and count back to the day; elsewhere the year wraps. */
  lemma DaysToCivilExact(z: int)
    requires InRange(z)
    ensures FIRST_DAY <= z <= LAST_DAY ==> DaysToCivil(z) == Civil(z) && Valid(DaysToCivil(z))
    ensures DayNumber(DaysToCivil(z)) == z <==> FIRST_DAY <= z <= LAST_DAY
  {
    CivilCountsDays();
    NarrowedCount(Civil, z);
  }

  lemma OtherYearCountsOther(d: Date, y: int)
    requires Valid(d) && (y <= d.year - 2 || y >= d.year + 2)
    ensures DayNumber(d.(year := y)) != DayNumber(d)
  {
    DaysBeforeMonthTable(d.year, d.month);
    DaysBeforeMonthTable(y, d.month);
    if y < d.year {
      YearsAreOrdered(y, d.year - 1);
      YearsAreOrdered(d.year - 1, d.year);
    } else {
      YearsAreOrdered(d.year, y - 1);
      YearsAreOrdered(y - 1, y);
    }
  }
}