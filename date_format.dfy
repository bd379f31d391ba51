/**
 * The two `strftime` patterns the normaliser uses, `"%d %B %Y"` and
 * `"%B %Y"`, in the C locale (English month names), together with parsers
 * that read the text back: the rendered text determines the date.
 */
module DateFormat {
  import opened Wrappers
  import opened Calendar

  const MonthNames: seq<string> := [
    "January", "February", "March", "April", "May", "June",
    "July", "August", "September", "October", "November", "December"
  ]

  /** `%B` in the C locale. */
  function MonthName(m: int): string
    requires 1 <= m <= 12
  {
    MonthNames[m - 1]
  }

  function Digit(k: int): char
    requires 0 <= k <= 9
  {
    ('0' as int + k) as char
  }

  /** `%d`: the day as two decimal digits, zero-padded. */
  function TwoDigits(n: int): string
    requires 0 <= n <= 99
  {
    [Digit(n / 10), Digit(n % 10)]
  }

  /** `%Y`: the year as four decimal digits, zero-padded. */
  function FourDigits(n: int): string
    requires 0 <= n <= 9999
  {
    [Digit(n / 1000), Digit(n / 100 % 10), Digit(n / 10 % 10), Digit(n % 10)]
  }

  /** `d.strftime("%d %B %Y")`, e.g. "15 March 2024". */
  function FormatDate(d: Date): string
    requires Valid(d)
  {
    TwoDigits(d.day) + " " + MonthName(d.month) + " " + FourDigits(d.year)
  }

  /** `d.strftime("%B %Y")`, e.g. "March 2024". */
  function FormatMonthYear(d: Date): string
    requires Valid(d)
  {
    MonthName(d.month) + " " + FourDigits(d.year)
  }

  // ---------------------------------------------------------------------
  // Reading the text back

  function DigitValue(c: char): Option<int>
  {
    if '0' <= c <= '9' then Some(c as int - '0' as int) else None
  }

  /** The value of a string of decimal digits, `None` if any character is not one. */
  function ParseDigits(s: string): Option<int>
    decreases |s|
  {
    if s == [] then Some(0)
    else
      match (ParseDigits(s[..|s| - 1]), DigitValue(s[|s| - 1]))
      case (Some(high), Some(low)) => Some(high * 10 + low)
      case _ => None
  }

  /** The month whose `%B` name is `name`. */
  function MonthNumber(name: string): Option<int>
  {
    if name in MonthNames then
      Some(IndexOfName(name, 0) + 1)
    else None
  }

  function IndexOfName(name: string, from: nat): (i: int)
    requires from <= |MonthNames| && name in MonthNames[from..]
    ensures from <= i < |MonthNames| && MonthNames[i] == name
    decreases |MonthNames| - from
  {
    if MonthNames[from] == name then from else IndexOfName(name, from + 1)
  }

  /** Reads "DD Month YYYY" back into a date. */
  function ParseDate(s: string): (r: Option<Date>)
    ensures r.Some? ==> Valid(r.value)
  {
    if |s| < 9 || s[2] != ' ' || s[|s| - 5] != ' ' then None
    else
      match (ParseDigits(s[..2]), MonthNumber(s[3..|s| - 5]), ParseDigits(s[|s| - 4..]))
      case (Some(day), Some(month), Some(year)) =>
        if Valid(Date(year, month, day)) then Some(Date(year, month, day)) else None
      case _ => None
  }

  /** Reads "Month YYYY" back into a (year, month) pair. */
  function ParseMonthYear(s: string): Option<(int, int)>
  {
    if |s| < 6 || s[|s| - 5] != ' ' then None
    else
      match (MonthNumber(s[..|s| - 5]), ParseDigits(s[|s| - 4..]))
      case (Some(month), Some(year)) => Some((year, month))
      case _ => None
  }

  // ---------------------------------------------------------------------
  // Lemmas

  lemma MonthNamesDistinct(i: int, j: int)
    requires 0 <= i < |MonthNames| && 0 <= j < |MonthNames| && MonthNames[i] == MonthNames[j]
    ensures i == j
  {
    assert MonthNames[i][..3] == MonthNames[j][..3];
  }

  /** Every month name is read back as its month. */
  lemma MonthNameRoundTrip(m: int)
    requires 1 <= m <= 12
    ensures MonthNumber(MonthName(m)) == Some(m)
  {
    var i := IndexOfName(MonthName(m), 0);
    MonthNamesDistinct(i, m - 1);
  }

  lemma DigitRoundTrip(k: int)
    requires 0 <= k <= 9
    ensures DigitValue(Digit(k)) == Some(k)
  {
  }

  /** Appending a digit shifts the parsed value one decimal place. */
  lemma ParseDigitsAppend(s: string, k: int)
    requires 0 <= k <= 9 && ParseDigits(s).Some?
    ensures ParseDigits(s + [Digit(k)]) == Some(ParseDigits(s).value * 10 + k)
  {
    var t := s + [Digit(k)];
    assert t[..|t| - 1] == s;
    DigitRoundTrip(k);
  }

  lemma TwoDigitsRoundTrip(n: int)
    requires 0 <= n <= 99
    ensures ParseDigits(TwoDigits(n)) == Some(n)
  {
    ParseDigitsAppend([], n / 10);
    assert [] + [Digit(n / 10)] == [Digit(n / 10)];
    ParseDigitsAppend([Digit(n / 10)], n % 10);
    assert [Digit(n / 10)] + [Digit(n % 10)] == TwoDigits(n);
  }

  lemma FourDigitsArithmetic(n: int)
    requires 0 <= n <= 9999
    ensures n / 1000 * 10 + n / 100 % 10 == n / 100
    ensures n / 100 * 10 + n / 10 % 10 == n / 10
    ensures n / 10 * 10 + n % 10 == n
  {
  }

  lemma FourDigitsRoundTrip(n: int)
    requires 0 <= n <= 9999
    ensures ParseDigits(FourDigits(n)) == Some(n)
  {
    var d0, d1, d2, d3 := Digit(n / 1000), Digit(n / 100 % 10), Digit(n / 10 % 10), Digit(n % 10);
    FourDigitsArithmetic(n);
    ParseDigitsAppend([], n / 1000);
    assert [] + [d0] == [d0];
    ParseDigitsAppend([d0], n / 100 % 10);
    assert [d0] + [d1] == [d0, d1];
    ParseDigitsAppend([d0, d1], n / 10 % 10);
    assert [d0, d1] + [d2] == [d0, d1, d2];
    ParseDigitsAppend([d0, d1, d2], n % 10);
    assert [d0, d1, d2] + [d3] == FourDigits(n);
  }

  /** The text of `%d %B %Y` determines the date it was rendered from. */
  lemma FormatDateRoundTrip(d: Date)
    requires Valid(d)
    ensures ParseDate(FormatDate(d)) == Some(d)
  {
    var s := FormatDate(d);
    var name := MonthName(d.month);
    assert s[..2] == TwoDigits(d.day);
    assert s[3..|s| - 5] == name;
    assert s[|s| - 4..] == FourDigits(d.year);
    TwoDigitsRoundTrip(d.day);
    FourDigitsRoundTrip(d.year);
    MonthNameRoundTrip(d.month);
  }

  /** The text of `%B %Y` determines the month and the year, and nothing finer. */
  lemma FormatMonthYearRoundTrip(d: Date)
    requires Valid(d)
    ensures ParseMonthYear(FormatMonthYear(d)) == Some((d.year, d.month))
  {
    var s := FormatMonthYear(d);
    assert s[..|s| - 5] == MonthName(d.month);
    assert s[|s| - 4..] == FourDigits(d.year);
    FourDigitsRoundTrip(d.year);
    MonthNameRoundTrip(d.month);
  }

  lemma {:induction false} ParseDigitsNonNegative(t: string)
    requires ParseDigits(t).Some?
    ensures ParseDigits(t).value >= 0
    decreases |t|
  {
    if t != [] {
      ParseDigitsNonNegative(t[..|t| - 1]);
    }
  }

  /** A parsed digit string ends in the digit of the value's last place, and
      the rest of it parses to the value with that place removed. */
  lemma ParseDigitsLast(t: string)
    requires |t| > 0 && ParseDigits(t).Some?
    ensures ParseDigits(t[..|t| - 1]) == Some(ParseDigits(t).value / 10)
    ensures t[|t| - 1] == Digit(ParseDigits(t).value % 10)
  {
    ParseDigitsNonNegative(t[..|t| - 1]);
  }

  /** Only `TwoDigits(n)` reads back as `n` among two-character texts. */
  lemma TwoDigitsExact(t: string)
    requires |t| == 2 && ParseDigits(t).Some?
    ensures 0 <= ParseDigits(t).value <= 99 && t == TwoDigits(ParseDigits(t).value)
  {
    ParseDigitsLast(t);
    assert t[..1][..0] == [];
    ParseDigitsLast(t[..1]);
  }

  /** Only `FourDigits(n)` reads back as `n` among four-character texts. */
  lemma FourDigitsExact(t: string)
    requires |t| == 4 && ParseDigits(t).Some?
    ensures 0 <= ParseDigits(t).value <= 9999 && t == FourDigits(ParseDigits(t).value)
  {
    var v := ParseDigits(t).value;
    ParseDigitsLast(t);
    assert t[..3][..2] == t[..2];
    ParseDigitsLast(t[..3]);
    assert t[..2][..1] == t[..1];
    ParseDigitsLast(t[..2]);
    assert t[..1][..0] == [];
    ParseDigitsLast(t[..1]);
    assert v / 10 / 10 == v / 100 && v / 100 / 10 == v / 1000;
  }

  /** `ParseDate` accepts exactly one text per date, the one `%d %B %Y` renders. */
  lemma ParseDateExact(s: string, d: Date)
    requires ParseDate(s) == Some(d)
    ensures s == FormatDate(d)
  {
    var day, name, year := s[..2], s[3..|s| - 5], s[|s| - 4..];
    TwoDigitsExact(day);
    FourDigitsExact(year);
    assert s == day + " " + name + " " + year;
  }

  /** `ParseMonthYear` accepts exactly one text per month, the one `%B %Y` renders. */
  lemma ParseMonthYearExact(s: string, year: int, month: int)
    requires ParseMonthYear(s) == Some((year, month))
    ensures 1 <= month <= 12 && 0 <= year <= 9999
    ensures s == MonthName(month) + " " + FourDigits(year)
  {
    var name, digits := s[..|s| - 5], s[|s| - 4..];
    FourDigitsExact(digits);
    ParseDigitsNonNegative(digits);
    assert s == name + " " + digits;
  }

  /** Two dates of the same month and year render the same `%B %Y` text. */
  lemma FormatMonthYearIgnoresDay(a: Date, b: Date)
    requires Valid(a) && Valid(b) && a.year == b.year && a.month == b.month
    ensures FormatMonthYear(a) == FormatMonthYear(b)
  {
  }
}
