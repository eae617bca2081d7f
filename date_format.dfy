/** The program's one date pattern, "yyyy-MM-dd HH.mm.ss", as a renderer
    from local time to text and a parser back.

    A moment is a count of milliseconds of local wall-clock time since
    1970-01-01 00:00:00 (java.util.Date.getTime() shifted by the zone's
    fixed offset); negative counts are moments before 1970.  The calendar
    is the proleptic Gregorian one. */
module DateFormat {
  import opened Options

  const MillisPerSecond := 1000
  const SecondsPerDay := 86400

  // ---------------------------------------------------------------------
  // Calendar arithmetic

  predicate IsLeapYear(y: int) {
    y % 4 == 0 && (y % 100 != 0 || y % 400 == 0)
  }

  function DaysInYear(y: int): int {
    if IsLeapYear(y) then 366 else 365
  }

  /** Days from 1970-01-01 to January 1st of year y. */
  function YearStart(y: int): int
    decreases if y < 1970 then 1970 - y else y - 1970
  {
    if y == 1970 then 0
    else if y > 1970 then YearStart(y - 1) + DaysInYear(y - 1)
    else YearStart(y + 1) - DaysInYear(y)
  }

  lemma YearStartStep(y: int)
    ensures YearStart(y + 1) == YearStart(y) + DaysInYear(y)
  {
  }

  /** The year holding day `days`, searching upward from year y. */
  function YearFrom(days: int, y: int): (r: int)
    requires YearStart(y) <= days
    ensures y <= r && YearStart(r) <= days < YearStart(r + 1)
    decreases days - YearStart(y)
  {
    YearStartStep(y);
    if days < YearStart(y + 1) then y else YearFrom(days, y + 1)
  }

  /** The year holding day `days`, searching downward from year y. */
  function YearBefore(days: int, y: int): (r: int)
    requires days < YearStart(y + 1)
    ensures r <= y && YearStart(r) <= days < YearStart(r + 1)
    decreases YearStart(y + 1) - days
  {
    YearStartStep(y);
    if YearStart(y) <= days then y else YearBefore(days, y - 1)
  }

  function YearOf(days: int): (y: int)
    ensures YearStart(y) <= days < YearStart(y + 1)
  {
    YearStartStep(1969);
    if days >= 0 then YearFrom(days, 1970) else YearBefore(days, 1969)
  }

  /** Days of year y before the first of month m; m == 13 gives the whole year. */
  function DaysBeforeMonth(y: int, m: int): int
    requires 1 <= m <= 13
  {
    [0, 31, 59, 90, 120, 151, 181, 212, 243, 273, 304, 334, 365][m - 1]
      + (if m > 2 && IsLeapYear(y) then 1 else 0)
  }

  lemma MonthLength(y: int, m: int)
    requires 1 <= m <= 12
    ensures 28 <= DaysBeforeMonth(y, m + 1) - DaysBeforeMonth(y, m) <= 31
  {
  }

  /** The month holding day-of-year `doy`, searching from month m. */
  function MonthFrom(y: int, doy: int, m: int): (r: int)
    requires 1 <= m <= 12 && DaysBeforeMonth(y, m) <= doy < DaysInYear(y)
    ensures m <= r <= 12 && DaysBeforeMonth(y, r) <= doy < DaysBeforeMonth(y, r + 1)
    decreases 12 - m
  {
    if doy < DaysBeforeMonth(y, m + 1) then m else MonthFrom(y, doy, m + 1)
  }

  // ---------------------------------------------------------------------
  // Broken-down local time

  datatype DateTime = DateTime(year: int, month: int, day: int, hour: int, minute: int, second: int)

  predicate ValidDateTime(t: DateTime) {
    && 1 <= t.month <= 12
    && 1 <= t.day <= DaysBeforeMonth(t.year, t.month + 1) - DaysBeforeMonth(t.year, t.month)
    && 0 <= t.hour < 24 && 0 <= t.minute < 60 && 0 <= t.second < 60
  }

  /** Local seconds since the epoch denoted by the fields. */
  function Seconds(t: DateTime): int
    requires 1 <= t.month <= 12
  {
    (YearStart(t.year) + DaysBeforeMonth(t.year, t.month) + t.day - 1) * SecondsPerDay
      + t.hour * 3600 + t.minute * 60 + t.second
  }

  /** The calendar fields of local second s: valid, and denoting s again. */
  function Fields(s: int): (t: DateTime)
    ensures ValidDateTime(t)
    ensures Seconds(t) == s
  {
    var days := s / SecondsPerDay;
    var secondOfDay := s % SecondsPerDay;
    var y := YearOf(days);
    var doy := days - YearStart(y);
    YearStartStep(y);
    var m := MonthFrom(y, doy, 1);
    var minutes := secondOfDay / 60;
    DateTime(y, m, doy - DaysBeforeMonth(y, m) + 1, minutes / 60, minutes % 60, secondOfDay % 60)
  }

  // ---------------------------------------------------------------------
  // Decimal text

  predicate IsDigit(c: char) {
    '0' <= c <= '9'
  }

  predicate AllDigits(s: string) {
    forall i :: 0 <= i < |s| ==> IsDigit(s[i])
  }

  function DigitChar(d: int): (c: char)
    requires 0 <= d < 10
    ensures IsDigit(c) && DigitValue(c) == d
  {
    ('0' as int + d) as char
  }

  function DigitValue(c: char): int {
    c as int - '0' as int
  }

  /** n in decimal, zero-padded to at least `width` digits. */
  function Digits(n: nat, width: nat): (s: string)
    ensures |s| >= 1 && |s| >= width && AllDigits(s)
    decreases n + width
  {
    if n < 10 && width <= 1 then [DigitChar(n)]
    else Digits(n / 10, if width == 0 then 0 else width - 1) + [DigitChar(n % 10)]
  }

  /** The value of a string of decimal digits. */
  function Decode(s: string): int {
    if |s| == 0 then 0 else Decode(s[..|s| - 1]) * 10 + DigitValue(s[|s| - 1])
  }

  lemma {:induction false} DecodeDigits(n: nat, width: nat)
    ensures Decode(Digits(n, width)) == n
    decreases n + width
  {
    var s := Digits(n, width);
    if n < 10 && width <= 1 {
    } else {
      var rest := if width == 0 then 0 else width - 1;
      DecodeDigits(n / 10, rest);
      assert s[..|s| - 1] == Digits(n / 10, rest);
    }
  }

  /** A two-digit field ("MM", "dd", "HH", "mm", "ss"). */
  function Pad2(n: int): (s: string)
    requires 0 <= n < 100
    ensures |s| == 2
  {
    [DigitChar(n / 10), DigitChar(n % 10)]
  }

  /** The "yyyy" field: at least four digits, with a minus sign before year 0. */
  function YearText(y: int): string {
    if y < 0 then "-" + Digits(-y, 4) else Digits(y, 4)
  }

  // ---------------------------------------------------------------------
  // Rendering and parsing "yyyy-MM-dd HH.mm.ss"

  /** The fifteen characters after the year: "-MM-dd HH.mm.ss". */
  function TimeTail(t: DateTime): (s: string)
    requires ValidDateTime(t)
    ensures |s| == 15
  {
    MonthLength(t.year, t.month);
    "-" + Pad2(t.month) + "-" + Pad2(t.day) + " " + Pad2(t.hour) + "." + Pad2(t.minute) + "." + Pad2(t.second)
  }

  function FormatFields(t: DateTime): string
    requires ValidDateTime(t)
  {
    YearText(t.year) + TimeTail(t)
  }

  /** The canonical name of local second s: longer than the fifteen-character
      tail, and starting with a digit or a minus sign, never a letter. */
  function FormatSeconds(s: int): (r: string)
    ensures |r| > 15
    ensures IsDigit(r[0]) || r[0] == '-'
  {
    FormatFields(Fields(s))
  }

  /** SimpleDateFormat.format: the moment's whole second, rendered.  Parsing
      the text back gives the moment truncated to its whole second. */
  function Format(millis: int): (r: string)
    ensures Parse(r) == Some(millis / MillisPerSecond * MillisPerSecond)
  {
    ParseFormatSeconds(millis / MillisPerSecond);
    FormatSeconds(millis / MillisPerSecond)
  }

  function ParseNat(s: string): Option<int> {
    if |s| > 0 && AllDigits(s) then Some(Decode(s)) else None
  }

  function ParseYear(s: string): Option<int> {
    if |s| > 0 && s[0] == '-' then
      var n :- ParseNat(s[1..]);
      Some(-n)
    else
      ParseNat(s)
  }

  function ParseTwo(s: string, i: int): Option<int>
    requires 0 <= i && i + 2 <= |s|
  {
    if IsDigit(s[i]) && IsDigit(s[i + 1]) then Some(DigitValue(s[i]) * 10 + DigitValue(s[i + 1]))
    else None
  }

  /** The fields of a text in the pattern; None when the text is not in it. */
  function ParseFields(text: string): Option<DateTime> {
    if |text| < 16 then None
    else
      var n := |text| - 15;
      var tail := text[n..];
      if tail[0] != '-' || tail[3] != '-' || tail[6] != ' ' || tail[9] != '.' || tail[12] != '.' then None
      else
        var year :- ParseYear(text[..n]);
        var month :- ParseTwo(tail, 1);
        var day :- ParseTwo(tail, 4);
        var hour :- ParseTwo(tail, 7);
        var minute :- ParseTwo(tail, 10);
        var second :- ParseTwo(tail, 13);
        if 1 <= month <= 12 then Some(DateTime(year, month, day, hour, minute, second)) else None
  }

  /** SimpleDateFormat.parse on a text in the pattern: the moment it denotes,
      always a whole second since the pattern has no milliseconds. */
  function Parse(text: string): (r: Option<int>)
    ensures r.Some? ==> r.value % MillisPerSecond == 0
  {
    var t :- ParseFields(text);
    Some(Seconds(t) * MillisPerSecond)
  }

  lemma ParseYearText(y: int)
    ensures ParseYear(YearText(y)) == Some(y)
  {
    if y < 0 {
      var d := Digits(-y, 4);
      DecodeDigits(-y, 4);
      assert ParseNat(d) == Some(-y);
      assert YearText(y) == "-" + d;
      assert YearText(y)[1..] == d;
    } else {
      var d := Digits(y, 4);
      DecodeDigits(y, 4);
      assert ParseNat(d) == Some(y);
      assert YearText(y) == d;
      assert IsDigit(d[0]);
    }
  }

  lemma ParseFormatFields(t: DateTime)
    requires ValidDateTime(t)
    ensures ParseFields(FormatFields(t)) == Some(t)
  {
    var text := FormatFields(t);
    var n := |text| - 15;
    assert text[..n] == YearText(t.year);
    assert text[n..] == TimeTail(t);
    ParseYearText(t.year);
    MonthLength(t.year, t.month);
  }

  lemma FormatWholeSecond(s: int)
    ensures Format(s * MillisPerSecond) == FormatSeconds(s)
  {
    assert s * MillisPerSecond / MillisPerSecond == s;
  }

  lemma ParseFormatSeconds(s: int)
    ensures Parse(FormatSeconds(s)) == Some(s * MillisPerSecond)
  {
    ParseFormatFields(Fields(s));
  }

  /** Distinct seconds render to distinct names. */
  lemma FormatSecondsInjective()
    ensures forall a, b :: FormatSeconds(a) == FormatSeconds(b) ==> a == b
  {
    forall a, b | FormatSeconds(a) == FormatSeconds(b)
      ensures a == b
    {
      ParseFormatSeconds(a);
      ParseFormatSeconds(b);
    }
  }
}
