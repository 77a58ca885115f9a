/** Calendar dates as the forms handle them: the `YYYY-MM-DD` text that
    `toIsoDate` writes into a record, and the default due date two weeks
    after today. Dates follow the proleptic Gregorian calendar of the
    JavaScript `Date` object, read in local time. */
module Dates {
  import opened Wrappers

  /** What `getFullYear`, `getMonth` (0-based) and `getDate` report. */
  datatype Date = Date(year: nat, month: nat, day: nat)

  predicate IsLeapYear(y: nat)
  {
    (y % 4 == 0 && y % 100 != 0) || y % 400 == 0
  }

  function DaysInMonth(y: nat, m: nat): nat
    requires m < 12
  {
    if m == 1 then (if IsLeapYear(y) then 29 else 28)
    else if m == 3 || m == 5 || m == 8 || m == 10 then 30
    else 31
  }

  /** A date a `Date` object can report. */
  predicate ValidDate(d: Date)
  {
    d.month < 12 && 1 <= d.day <= DaysInMonth(d.year, d.month)
  }

  // ---------------------------------------------------------------------
  // Decimal text

  predicate IsDigit(c: char)
  {
    '0' <= c <= '9'
  }

  predicate AllDigits(s: string)
  {
    forall c <- s :: IsDigit(c)
  }

  function DigitChar(n: nat): (c: char)
    requires n < 10
    ensures IsDigit(c)
  {
    ('0' as int + n) as char
  }

  function DigitValue(c: char): nat
    requires IsDigit(c)
  {
    c as int - '0' as int
  }

  /** `String(n)` for a non-negative integer: its decimal digits, no
      leading zero. */
  function NatToString(n: nat): (s: string)
    ensures |s| >= 1 && AllDigits(s)
    ensures n >= 10 ==> |s| >= 2
    ensures n == 0 ==> s == "0"
    ensures n > 0 ==> s[0] != '0'
  {
    if n < 10 then [DigitChar(n)] else NatToString(n / 10) + [DigitChar(n % 10)]
  }

  /** The number a string of decimal digits denotes. */
  function DigitsValue(s: string): nat
    requires AllDigits(s)
  {
    if s == [] then 0 else DigitsValue(s[..|s| - 1]) * 10 + DigitValue(s[|s| - 1])
  }

  /** Reading back the digits `String(n)` wrote gives `n`. */
  lemma {:induction false} NatToStringRoundTrip(n: nat)
    ensures DigitsValue(NatToString(n)) == n
  {
    if n >= 10 {
      NatToStringRoundTrip(n / 10);
      var s := NatToString(n);
      assert s[..|s| - 1] == NatToString(n / 10);
    }
  }

  /** `s.padStart(2, '0')`. */
  function PadStart2(s: string): (r: string)
    ensures |r| == if |s| >= 2 then |s| else 2
    ensures |s| < 2 ==> r[2 - |s|..] == s && forall k :: 0 <= k < 2 - |s| ==> r[k] == '0'
    ensures |s| >= 2 ==> r == s
  {
    if |s| >= 2 then s else if |s| == 1 then "0" + s else "00"
  }

  /** Two digits read as tens and units. */
  lemma TwoDigitsValue(a: char, b: char)
    requires IsDigit(a) && IsDigit(b)
    ensures DigitsValue([a, b]) == DigitValue(a) * 10 + DigitValue(b)
  {
    assert DigitsValue([a]) == DigitValue(a) by {
      assert [a][..0] == [];
    }
    assert DigitsValue([a, b]) == DigitsValue([a]) * 10 + DigitValue(b) by {
      assert [a, b][..1] == [a];
    }
  }

  /** A month or day number from 1 to 99 pads to two digits that read back
      as the same number. */
  lemma TwoDigitsRoundTrip(n: nat)
    requires 1 <= n <= 99
    ensures |PadStart2(NatToString(n))| == 2
    ensures AllDigits(PadStart2(NatToString(n)))
    ensures DigitsValue(PadStart2(NatToString(n))) == n
  {
    var p := PadStart2(NatToString(n));
    if n < 10 {
      assert p == ['0', DigitChar(n)];
      TwoDigitsValue('0', DigitChar(n));
    } else {
      assert NatToString(n / 10) == [DigitChar(n / 10)];
      assert p == [DigitChar(n / 10), DigitChar(n % 10)];
      TwoDigitsValue(DigitChar(n / 10), DigitChar(n % 10));
    }
  }

  /** `toIsoDate`: the year as `String` writes it, then the 1-based month and
      the day, each padded to two digits, joined by dashes. */
  function ToIsoDate(d: Date): (s: string)
    ensures ValidDate(d) ==>
              var k := |s| - 6;
              && k >= 1 && s[..k] == NatToString(d.year)
              && s[k] == '-' && s[k + 3] == '-'
              && AllDigits(s[k + 1..k + 3]) && AllDigits(s[k + 4..])
  {
    var yyyy := NatToString(d.year);
    var mm := PadStart2(NatToString(d.month + 1));
    var dd := PadStart2(NatToString(d.day));
    var s := yyyy + "-" + mm + "-" + dd;
    if ValidDate(d) then
      TwoDigitsRoundTrip(d.month + 1);
      TwoDigitsRoundTrip(d.day);
      IsoParts(yyyy, mm, dd);
      s
    else
      s
  }

  /** Reads `YYYY-MM-DD` text back into a date: any number of year digits,
      then two month digits and two day digits that make a valid date. */
  function ParseIsoDate(s: string): (r: Option<Date>)
    ensures r.Some? ==> ValidDate(r.value)
  {
    if |s| < 7 then None
    else
      var k := |s| - 6;
      if s[k] != '-' || s[k + 3] != '-' then None
      else DateFromParts(s[..k], s[k + 1..k + 3], s[k + 4..])
  }

  /** The date named by year, 1-based month and day digits, if it is one. */
  function DateFromParts(yyyy: string, mm: string, dd: string): (r: Option<Date>)
    ensures r.Some? ==> ValidDate(r.value)
  {
    if !AllDigits(yyyy) || !AllDigits(mm) || !AllDigits(dd) then None
    else
      var month := DigitsValue(mm);
      var d := Date(DigitsValue(yyyy), if month == 0 then 0 else month - 1, DigitsValue(dd));
      if month != 0 && ValidDate(d) then Some(d) else None
  }

  /** Where the parts of `yyyy-mm-dd` sit in the joined text. */
  lemma IsoParts(yyyy: string, mm: string, dd: string)
    requires |mm| == 2 && |dd| == 2
    ensures var s := yyyy + "-" + mm + "-" + dd;
            var k := |s| - 6;
            && k == |yyyy| && s[..k] == yyyy && s[k] == '-' && s[k + 1..k + 3] == mm
            && s[k + 3] == '-' && s[k + 4..] == dd
  {
  }

  /** The parts `toIsoDate` writes name the date they were written from. */
  lemma PartsRoundTrip(d: Date)
    requires ValidDate(d)
    ensures DateFromParts(NatToString(d.year), PadStart2(NatToString(d.month + 1)), PadStart2(NatToString(d.day))) == Some(d)
  {
    TwoDigitsRoundTrip(d.month + 1);
    TwoDigitsRoundTrip(d.day);
    NatToStringRoundTrip(d.year);
  }

  /** `toIsoDate` loses nothing: its text reads back as the same date. */
  lemma IsoDateRoundTrip(d: Date)
    requires ValidDate(d)
    ensures ParseIsoDate(ToIsoDate(d)) == Some(d)
  {
    var yyyy := NatToString(d.year);
    var mm := PadStart2(NatToString(d.month + 1));
    var dd := PadStart2(NatToString(d.day));
    TwoDigitsRoundTrip(d.month + 1);
    TwoDigitsRoundTrip(d.day);
    ParseJoined(yyyy, mm, dd);
    PartsRoundTrip(d);
  }

  /** Text joined as `toIsoDate` joins it parses as its parts. */
  lemma ParseJoined(yyyy: string, mm: string, dd: string)
    requires |yyyy| >= 1 && |mm| == 2 && |dd| == 2
    ensures ParseIsoDate(yyyy + "-" + mm + "-" + dd) == DateFromParts(yyyy, mm, dd)
  {
    IsoParts(yyyy, mm, dd);
  }

  // ---------------------------------------------------------------------
  // Day arithmetic

  function YearLength(y: nat): nat
  {
    if IsLeapYear(y) then 366 else 365
  }

  /** Days of year `y` before the first of month `m`. */
  function DaysBeforeMonth(y: nat, m: nat): nat
    requires m < 12
  {
    [0, 31, 59, 90, 120, 151, 181, 212, 243, 273, 304, 334][m] + (if m >= 2 && IsLeapYear(y) then 1 else 0)
  }

  /** Days from 1 January of year 0 to 1 January of year `y`. */
  function DaysBeforeYear(y: nat): nat
  {
    if y == 0 then 0 else DaysBeforeYear(y - 1) + YearLength(y - 1)
  }

  /** A count of days that runs on by one from each date to the next. */
  function DayNumber(d: Date): int
    requires ValidDate(d)
  {
    DaysBeforeYear(d.year) + DaysBeforeMonth(d.year, d.month) + d.day - 1
  }

  /** The day after `d`, rolling over month and year ends. */
  function NextDay(d: Date): (r: Date)
    requires ValidDate(d)
    ensures ValidDate(r)
    ensures DayNumber(r) == DayNumber(d) + 1
  {
    if d.day < DaysInMonth(d.year, d.month) then d.(day := d.day + 1)
    else if d.month < 11 then
      MonthFollows(d.year, d.month);
      Date(d.year, d.month + 1, 1)
    else
      YearFollows(d.year);
      Date(d.year + 1, 0, 1)
  }

  /** Each month starts where the one before it ends. */
  lemma MonthFollows(y: nat, m: nat)
    requires m < 11
    ensures DaysBeforeMonth(y, m + 1) == DaysBeforeMonth(y, m) + DaysInMonth(y, m)
  {
    if m == 1 {
      assert DaysBeforeMonth(y, 2) == 59 + (if IsLeapYear(y) then 1 else 0);
    }
  }

  /** A year starts where December of the year before ends. */
  lemma YearFollows(y: nat)
    ensures DaysBeforeYear(y + 1) == DaysBeforeYear(y) + DaysBeforeMonth(y, 11) + DaysInMonth(y, 11)
  {
  }

  /** `setDate(getDate() + n)`: the date `n` days after `d`. */
  function AddDays(d: Date, n: nat): (r: Date)
    requires ValidDate(d)
    ensures ValidDate(r)
    ensures DayNumber(r) == DayNumber(d) + n
    decreases n
  {
    if n == 0 then d else AddDays(NextDay(d), n - 1)
  }

  /** `defaultDueDate`: two weeks after today. */
  function DefaultDueDate(today: Date): (r: Date)
    requires ValidDate(today)
    ensures ValidDate(r)
    ensures DayNumber(r) == DayNumber(today) + 14
  {
    AddDays(today, 14)
  }
}
