/**
 * The monthly period generator of the ERA-Interim wind download script:
 * for every (year, month) of an inclusive year range, year-major, it formats
 * the first and last day of the month, the `start/TO/last` range and the
 * output file name, and issues one retrieval request. The request client is
 * replaced by a log of the (dates, target) pairs handed to it.
 */
module EraInterim {
  import opened Wrappers
  import opened Format
  import opened StringOrder

  type Month = m: int | 1 <= m <= 12 witness 1

  const YearStart: nat := 1993
  const YearEnd: nat := 2018
  const MonthStart: Month := 1
  const MonthEnd: Month := 12

  /** Gregorian leap year, as `calendar.isleap`. */
  predicate IsLeap(year: int)
  {
    year % 4 == 0 && (year % 100 != 0 || year % 400 == 0)
  }

  /** Days per month of a common year, indexed by month (index 0 unused). */
  const CommonMonthDays: seq<nat> := [0, 31, 28, 31, 30, 31, 30, 31, 31, 30, 31, 30, 31]

  /** The day count `calendar.monthrange(year, month)[1]`. */
  function DaysInMonth(year: nat, month: Month): (days: nat)
    ensures month in {1, 3, 5, 7, 8, 10, 12} ==> days == 31
    ensures month in {4, 6, 9, 11} ==> days == 30
    ensures month == 2 ==> (days == 29 <==> IsLeap(year)) && (days == 28 <==> !IsLeap(year))
  {
    CommonMonthDays[month] + if month == 2 && IsLeap(year) then 1 else 0
  }

  function DaysInYear(year: nat, months: nat): nat
    requires months <= 12
  {
    if months == 0 then 0 else DaysInYear(year, months - 1) + DaysInMonth(year, months)
  }

  /** The twelve month lengths add up to the length of the Gregorian year. */
  lemma YearLength(year: nat)
    ensures DaysInYear(year, 12) == if IsLeap(year) then 366 else 365
  {
    var feb := DaysInMonth(year, 2);
    assert DaysInYear(year, 1) == 31 by {
      assert DaysInMonth(year, 1) == 31;
    }
    assert DaysInYear(year, 2) == 31 + feb;
    assert DaysInYear(year, 4) == 31 + feb + 31 + 30;
    assert DaysInYear(year, 6) == 31 + feb + 31 + 30 + 31 + 30;
    assert DaysInYear(year, 8) == 31 + feb + 31 + 30 + 31 + 30 + 31 + 31;
    assert DaysInYear(year, 10) == 31 + feb + 31 + 30 + 31 + 30 + 31 + 31 + 30 + 31;
  }

  /** `'%04d%02d%02d' % (year, month, day)`. */
  function FormatDate(year: nat, month: nat, day: nat): string
  {
    ZeroPad(year, 4) + ZeroPad(month, 2) + ZeroPad(day, 2)
  }

  function StartDate(year: nat, month: Month): string
  {
    FormatDate(year, month, 1)
  }

  function LastDate(year: nat, month: Month): string
  {
    FormatDate(year, month, DaysInMonth(year, month))
  }

  function RequestDates(year: nat, month: Month): string
  {
    StartDate(year, month) + "/TO/" + LastDate(year, month)
  }

  /** The six digits `YYYYMM` of a period. */
  function PeriodDigits(year: nat, month: Month): string
  {
    ZeroPad(year, 4) + ZeroPad(month, 2)
  }

  function Target(year: nat, month: Month): string
  {
    "interim_daily_" + PeriodDigits(year, month) + ".grb"
  }

  // Parsers for the formats above; the round-trip lemmas read the formatted strings back through them.

  datatype Date = Date(year: nat, month: nat, day: nat)

  function ParseDate(s: string): Option<Date>
  {
    if |s| == 8 && IsDigits(s) then Some(Date(ValueOf(s[..4]), ValueOf(s[4..6]), ValueOf(s[6..])))
    else None
  }

  function ParseRange(s: string): Option<(Date, Date)>
  {
    if |s| == 20 && s[8..12] == "/TO/" && ParseDate(s[..8]).Some? && ParseDate(s[12..]).Some?
    then Some((ParseDate(s[..8]).value, ParseDate(s[12..]).value))
    else None
  }

  function ParseTarget(s: string): Option<(nat, nat)>
  {
    if |s| == 24 && s[..14] == "interim_daily_" && s[20..] == ".grb" && IsDigits(s[14..20])
    then var digits := s[14..20]; Some((ValueOf(digits[..4]), ValueOf(digits[4..])))
    else None
  }

  lemma DigitsConcat(a: string, b: string)
    requires IsDigits(a) && IsDigits(b)
    ensures IsDigits(a + b)
  {
  }

  /** A date with a year of at most four digits is written in eight digits and read back unchanged. */
  lemma FormatDateRoundTrip(year: nat, month: nat, day: nat)
    requires year <= 9999 && month <= 99 && day <= 99
    ensures |FormatDate(year, month, day)| == 8
    ensures ParseDate(FormatDate(year, month, day)) == Some(Date(year, month, day))
  {
    var y, m, d := ZeroPad(year, 4), ZeroPad(month, 2), ZeroPad(day, 2);
    ZeroPadLength(year, 4);
    ZeroPadLength(month, 2);
    ZeroPadLength(day, 2);
    ZeroPadValue(year, 4);
    ZeroPadValue(month, 2);
    ZeroPadValue(day, 2);
    var s := y + m + d;
    DigitsConcat(y, m);
    DigitsConcat(y + m, d);
    assert s[..4] == y && s[4..6] == m && s[6..] == d;
  }

  /** `startDate` is the year, the month and day 01, in eight digits. */
  lemma StartDateFormat(year: nat, month: Month)
    requires year <= 9999
    ensures |StartDate(year, month)| == 8 && IsDigits(StartDate(year, month))
    ensures ParseDate(StartDate(year, month)) == Some(Date(year, month, 1))
  {
    FormatDateRoundTrip(year, month, 1);
  }

  /**
   * `lastDate` is `startDate` with the day replaced by the month length:
   * both share their first six characters and `lastDate` comes later, both
   * as a string and as a date.
   */
  lemma LastDateFormat(year: nat, month: Month)
    requires year <= 9999
    ensures |LastDate(year, month)| == 8
    ensures ParseDate(LastDate(year, month)) == Some(Date(year, month, DaysInMonth(year, month)))
    ensures LastDate(year, month)[..6] == StartDate(year, month)[..6]
    ensures LexLess(StartDate(year, month), LastDate(year, month))
    ensures 1 < DaysInMonth(year, month)
  {
    var days := DaysInMonth(year, month);
    FormatDateRoundTrip(year, month, 1);
    FormatDateRoundTrip(year, month, days);
    var ym := ZeroPad(year, 4) + ZeroPad(month, 2);
    ZeroPadLength(year, 4);
    ZeroPadLength(month, 2);
    assert StartDate(year, month) == ym + ZeroPad(1, 2);
    assert LastDate(year, month) == ym + ZeroPad(days, 2);
    ZeroPadOrder(1, days, 2);
    LexLessCommonPrefix(ym, ZeroPad(1, 2), ZeroPad(days, 2));
  }

  /** `requestDates` is 20 characters: the two dates around a literal `/TO/`. */
  lemma RequestDatesFormat(year: nat, month: Month)
    requires year <= 9999
    ensures |RequestDates(year, month)| == 20
    ensures ParseRange(RequestDates(year, month))
            == Some((Date(year, month, 1), Date(year, month, DaysInMonth(year, month))))
  {
    StartDateFormat(year, month);
    LastDateFormat(year, month);
    var s := RequestDates(year, month);
    assert s[..8] == StartDate(year, month);
    assert s[8..12] == "/TO/";
    assert s[12..] == LastDate(year, month);
  }

  /** The output name spells out the year in four digits and the month in two. */
  lemma TargetFormat(year: nat, month: Month)
    requires year <= 9999
    ensures |Target(year, month)| == 24
    ensures ParseTarget(Target(year, month)) == Some((year, month as nat))
  {
    var y, m := ZeroPad(year, 4), ZeroPad(month, 2);
    ZeroPadLength(year, 4);
    ZeroPadLength(month, 2);
    ZeroPadValue(year, 4);
    ZeroPadValue(month, 2);
    DigitsConcat(y, m);
    var s := Target(year, month);
    assert s[..14] == "interim_daily_";
    assert s[14..20] == y + m;
    assert s[14..20][..4] == y && s[14..20][4..] == m;
    assert s[20..] == ".grb";
  }

  /** Different periods never share an output file. */
  lemma TargetInjective(y1: nat, m1: Month, y2: nat, m2: Month)
    requires y1 <= 9999 && y2 <= 9999
    ensures Target(y1, m1) == Target(y2, m2) <==> y1 == y2 && m1 == m2
  {
    TargetFormat(y1, m1);
    TargetFormat(y2, m2);
  }

  lemma PeriodDigitsOrder(y1: nat, m1: Month, y2: nat, m2: Month)
    requires y1 <= 9999 && y2 <= 9999
    ensures |PeriodDigits(y1, m1)| == 6 && |PeriodDigits(y2, m2)| == 6
    ensures LexLess(PeriodDigits(y1, m1), PeriodDigits(y2, m2)) <==> y1 < y2 || (y1 == y2 && m1 < m2)
  {
    ZeroPadLength(y1, 4);
    ZeroPadLength(y2, 4);
    ZeroPadLength(m1, 2);
    ZeroPadLength(m2, 2);
    ZeroPadOrder(y1, y2, 4);
    ZeroPadOrder(m1, m2, 2);
    ZeroPadInjective(y1, y2, 4);
    LexLessConcat(ZeroPad(y1, 4), ZeroPad(y2, 4), ZeroPad(m1, 2), ZeroPad(m2, 2));
  }

  /** Output names sort as their periods do, year first and month second. */
  lemma TargetOrder(y1: nat, m1: Month, y2: nat, m2: Month)
    requires y1 <= 9999 && y2 <= 9999
    ensures LexLess(Target(y1, m1), Target(y2, m2)) <==> y1 < y2 || (y1 == y2 && m1 < m2)
  {
    var d1, d2 := PeriodDigits(y1, m1), PeriodDigits(y2, m2);
    PeriodDigitsOrder(y1, m1, y2, m2);
    var p := "interim_daily_";
    LexLessCommonPrefix(p, d1, d2);
    LexLessConcat(p + d1, p + d2, ".grb", ".grb");
    LexLessIrreflexive(".grb");
  }

  // The year numerals the examples below need, one per lemma to keep each proof small.

  lemma Numeral1979() ensures ZeroPad(1979, 4) == "1979" { ZeroPadFourDigits(1979); }

  lemma Numeral1993() ensures ZeroPad(1993, 4) == "1993" { ZeroPadFourDigits(1993); }

  lemma Numeral2000() ensures ZeroPad(2000, 4) == "2000" { ZeroPadFourDigits(2000); }

  lemma Numeral2018() ensures ZeroPad(2018, 4) == "2018" { ZeroPadFourDigits(2018); }

  lemma Numeral01() ensures ZeroPad(1, 2) == "01" { ZeroPadTwoDigits(1); }

  lemma Numeral02() ensures ZeroPad(2, 2) == "02" { ZeroPadTwoDigits(2); }

  lemma Numeral12() ensures ZeroPad(12, 2) == "12" { ZeroPadTwoDigits(12); }

  lemma Numeral28() ensures ZeroPad(28, 2) == "28" { ZeroPadTwoDigits(28); }

  lemma Numeral29() ensures ZeroPad(29, 2) == "29" { ZeroPadTwoDigits(29); }

  lemma Numeral31() ensures ZeroPad(31, 2) == "31" { ZeroPadTwoDigits(31); }

  /** The output name given as an example in the docstring of `retrieve_interim`. */
  lemma DocstringTarget()
    ensures Target(1979, 1) == "interim_daily_197901.grb"
  {
    Numeral1979();
    Numeral01();
  }

  lemma February2018Dates()
    ensures StartDate(2018, 2) == "20180201" && LastDate(2018, 2) == "20180228"
  {
    Numeral2018();
    assert DaysInMonth(2018, 2) == 28;
    Numeral01();
    Numeral02();
    Numeral28();
  }

  /** February of a common year: 28 days. */
  lemma CommonFebruaryRange()
    ensures RequestDates(2018, 2) == "20180201/TO/20180228"
  {
    February2018Dates();
  }

  lemma February2000Dates()
    ensures StartDate(2000, 2) == "20000201" && LastDate(2000, 2) == "20000229"
  {
    Numeral2000();
    assert DaysInMonth(2000, 2) == 29;
    Numeral01();
    Numeral02();
    Numeral29();
  }

  /** February of 2000, a century year divisible by 400: 29 days. */
  lemma LeapFebruaryRange()
    ensures RequestDates(2000, 2) == "20000201/TO/20000229"
  {
    February2000Dates();
  }

  /** The first period of the run. */
  lemma January1993Dates()
    ensures StartDate(1993, 1) == "19930101" && LastDate(1993, 1) == "19930131"
  {
    Numeral1993();
    assert DaysInMonth(1993, 1) == 31;
    Numeral01();
    Numeral31();
  }

  lemma January1993Target()
    ensures Target(1993, 1) == "interim_daily_199301.grb"
  {
    Numeral1993();
    Numeral01();
  }

  /** The last period of the run. */
  lemma December2018Dates()
    ensures StartDate(2018, 12) == "20181201" && LastDate(2018, 12) == "20181231"
  {
    Numeral2018();
    assert DaysInMonth(2018, 12) == 31;
    Numeral01();
    Numeral12();
    Numeral31();
  }

  lemma December2018Target()
    ensures Target(2018, 12) == "interim_daily_201812.grb"
  {
    Numeral2018();
    Numeral12();
  }

  /** One call of the request boundary: the date range and the output name. */
  datatype Request = Request(dates: string, target: string)

  /** The year and month of the k-th iteration of the nested loop. */
  function PeriodYear(yearStart: nat, k: nat): nat
  {
    yearStart + k / 12
  }

  function PeriodMonth(k: nat): Month
  {
    k % 12 + 1
  }

  /** The request for one period. */
  function RequestFor(year: nat, month: Month): Request
  {
    Request(RequestDates(year, month), Target(year, month))
  }

  /** The request of the k-th iteration of the nested loop. */
  function RequestAt(yearStart: nat, k: nat): Request
  {
    RequestFor(PeriodYear(yearStart, k), PeriodMonth(k))
  }

  /** Iteration (year, month) of the nested loop is iteration (year - yearStart) * 12 + month - 1. */
  lemma PeriodOfIndex(yearStart: nat, year: nat, month: Month)
    requires yearStart <= year
    ensures PeriodYear(yearStart, (year - yearStart) * 12 + month - 1) == year
    ensures PeriodMonth((year - yearStart) * 12 + month - 1) == month
  {
    var k := (year - yearStart) * 12 + month - 1;
    assert k / 12 == year - yearStart && k % 12 == month - 1;
  }

  /** Appending the request of the next (year, month) extends a log of the nested loop by one iteration. */
  lemma LogExtend(yearStart: nat, year: nat, month: Month, log: seq<Request>)
    requires yearStart <= year
    requires |log| == (year - yearStart) * 12 + month - 1
    requires forall k :: 0 <= k < |log| ==> log[k] == RequestAt(yearStart, k)
    ensures forall k :: 0 <= k < |log| + 1 ==>
              (log + [RequestFor(year, month)])[k] == RequestAt(yearStart, k)
  {
    PeriodOfIndex(yearStart, year, month);
  }

  /** Later iterations of the nested loop visit later periods. */
  lemma PeriodAtIncreasing(yearStart: nat, i: nat, j: nat)
    requires i < j
    ensures PeriodYear(yearStart, i) < PeriodYear(yearStart, j)
            || (PeriodYear(yearStart, i) == PeriodYear(yearStart, j) && PeriodMonth(i) < PeriodMonth(j))
  {
  }

  /** The names of a year-major log over years up to 9999 strictly increase. */
  lemma LogTargetsIncreasing(yearStart: nat, yearEnd: nat, log: seq<Request>)
    requires yearEnd <= 9999
    requires |log| == if yearStart <= yearEnd then (yearEnd - yearStart + 1) * 12 else 0
    requires forall k :: 0 <= k < |log| ==> log[k] == RequestAt(yearStart, k)
    ensures forall i, j :: 0 <= i < j < |log| ==> LexLess(log[i].target, log[j].target)
  {
    forall i, j | 0 <= i < j < |log|
      ensures LexLess(log[i].target, log[j].target)
    {
      assert j / 12 <= yearEnd - yearStart;
      PeriodAtIncreasing(yearStart, i, j);
      TargetOrder(PeriodYear(yearStart, i), PeriodMonth(i), PeriodYear(yearStart, j), PeriodMonth(j));
    }
  }

  /**
   * The loop of `retrieve_interim` over an inclusive year range: one request
   * per (year, month), year-major, so exactly twelve per year, and the
   * output names strictly increase.
   */
  method RetrieveYears(yearStart: nat, yearEnd: nat) returns (log: seq<Request>)
    ensures |log| == if yearStart <= yearEnd then (yearEnd - yearStart + 1) * 12 else 0
    ensures forall k :: 0 <= k < |log| ==> log[k] == RequestAt(yearStart, k)
    ensures yearEnd <= 9999 ==>
              forall i, j :: 0 <= i < j < |log| ==> LexLess(log[i].target, log[j].target)
  {
    log := [];
    var year := yearStart;
    while year <= yearEnd
      invariant yearStart <= year && (year <= yearEnd + 1 || year == yearStart)
      invariant |log| == (year - yearStart) * 12
      invariant forall k :: 0 <= k < |log| ==> log[k] == RequestAt(yearStart, k)
    {
      var month := MonthStart;
      while month <= MonthEnd
        invariant 1 <= month <= 13
        invariant |log| == (year - yearStart) * 12 + month - 1
        invariant forall k :: 0 <= k < |log| ==> log[k] == RequestAt(yearStart, k)
      {
        var startDate := FormatDate(year, month, 1);
        var numberOfDays := DaysInMonth(year, month);
        var lastDate := FormatDate(year, month, numberOfDays);
        var target := Target(year, month);
        var requestDates := startDate + "/TO/" + lastDate;
        assert Request(requestDates, target) == RequestFor(year, month);
        LogExtend(yearStart, year, month, log);
        log := log + [Request(requestDates, target)];
        month := month + 1;
      }
      year := year + 1;
    }
    assert yearStart <= yearEnd ==> year == yearEnd + 1;
    if yearEnd <= 9999 {
      LogTargetsIncreasing(yearStart, yearEnd, log);
    }
  }

  /** `retrieve_interim` itself: the years 1993 to 2018, every month. */
  method RetrieveInterim() returns (log: seq<Request>)
    ensures |log| == 312
    ensures forall k :: 0 <= k < |log| ==> log[k] == RequestAt(YearStart, k)
    ensures forall i, j :: 0 <= i < j < |log| ==> LexLess(log[i].target, log[j].target)
    ensures forall i, j :: 0 <= i < j < |log| ==> log[i].target != log[j].target
    ensures log[0] == Request(RequestDates(1993, 1), Target(1993, 1))
    ensures log[311] == Request(RequestDates(2018, 12), Target(2018, 12))
  {
    log := RetrieveYears(YearStart, YearEnd);
    assert PeriodYear(YearStart, 311) == 2018 && PeriodMonth(311) == 12;
    forall i, j | 0 <= i < j < |log|
      ensures log[i].target != log[j].target
    {
      LexLessIrreflexive(log[i].target);
    }
  }
}
