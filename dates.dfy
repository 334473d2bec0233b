/**
 * Filing dates: the `datetime.strptime(s, '%Y-%m-%d')` parse of the ISO
 * date in a filing history and the `strftime('%B %d, %Y')` long form the
 * scraper stores.
 */
module Dates {
  import opened Wrappers
  import Text

  datatype Date = Date(year: int, month: int, day: int)

  predicate IsLeapYear(y: int)
  {
    y % 4 == 0 && (y % 100 != 0 || y % 400 == 0)
  }

  function DaysInMonth(y: int, m: int): int
    requires 1 <= m <= 12
  {
    if m == 2 then (if IsLeapYear(y) then 29 else 28)
    else if m == 4 || m == 6 || m == 9 || m == 11 then 30
    else 31
  }

  /** A date `datetime` accepts: years 1 to 9999 and a day that exists in its month. */
  predicate IsValid(d: Date)
  {
    1 <= d.year <= 9999 && 1 <= d.month <= 12 && 1 <= d.day <= DaysInMonth(d.year, d.month)
  }

  predicate IsDigit(c: char)
  {
    '0' <= c <= '9'
  }

  function DigitValue(c: char): int
    requires IsDigit(c)
  {
    c as int - '0' as int
  }

  function DigitChar(n: int): char
    requires 0 <= n < 10
  {
    ('0' as int + n) as char
  }

  /** The `%Y` field: exactly four digits. */
  function YearField(s: string): Option<int>
  {
    if |s| == 4 && IsDigit(s[0]) && IsDigit(s[1]) && IsDigit(s[2]) && IsDigit(s[3]) then
      Some(1000 * DigitValue(s[0]) + 100 * DigitValue(s[1]) + 10 * DigitValue(s[2]) + DigitValue(s[3]))
    else None
  }

  /** The `%m` field, `1[0-2]|0[1-9]|[1-9]`. */
  function MonthField(s: string): Option<int>
  {
    if |s| == 1 && '1' <= s[0] <= '9' then Some(DigitValue(s[0]))
    else if |s| == 2 && ((s[0] == '0' && '1' <= s[1] <= '9') || (s[0] == '1' && '0' <= s[1] <= '2')) then
      Some(10 * DigitValue(s[0]) + DigitValue(s[1]))
    else None
  }

  /** The `%d` field, `3[01]|[12]\d|0[1-9]|[1-9]| [1-9]`. */
  function DayField(s: string): Option<int>
  {
    if |s| == 1 && '1' <= s[0] <= '9' then Some(DigitValue(s[0]))
    else if |s| == 2 && s[0] == ' ' && '1' <= s[1] <= '9' then Some(DigitValue(s[1]))
    else if |s| == 2 && ((s[0] == '0' && '1' <= s[1] <= '9') || ('1' <= s[0] <= '2' && IsDigit(s[1])) ||
                         (s[0] == '3' && '0' <= s[1] <= '1')) then
      Some(10 * DigitValue(s[0]) + DigitValue(s[1]))
    else None
  }

  /**
   * `datetime.strptime(s, '%Y-%m-%d')`: the three fields must make up the
   * whole string and name a real date; `None` where Python raises
   * `ValueError`.
   */
  function ParseIso(s: string): (r: Option<Date>)
    ensures r.Some? ==> IsValid(r.value)
  {
    var parts := Text.Split(s, '-');
    if |parts| != 3 then None
    else
      match (YearField(parts[0]), MonthField(parts[1]), DayField(parts[2]))
      case (Some(y), Some(m), Some(d)) => if IsValid(Date(y, m, d)) then Some(Date(y, m, d)) else None
      case _ => None
  }

  const MonthNames: seq<string> :=
    ["January", "February", "March", "April", "May", "June",
     "July", "August", "September", "October", "November", "December"]

  function Pad2(n: int): string
    requires 0 <= n < 100
  {
    [DigitChar(n / 10), DigitChar(n % 10)]
  }

  function Pad4(n: int): string
    requires 0 <= n < 10000
  {
    [DigitChar(n / 1000), DigitChar(n / 100 % 10), DigitChar(n / 10 % 10), DigitChar(n % 10)]
  }

  /** `strftime('%B %d, %Y')`: full month name, two-digit day, four-digit year. */
  function LongForm(d: Date): (r: string)
    requires IsValid(d)
    ensures |r| == |MonthNames[d.month - 1]| + 9
    ensures r[..|r| - 9] == MonthNames[d.month - 1]
    ensures r[|r| - 8..|r| - 6] == Pad2(d.day) && r[|r| - 4..] == Pad4(d.year)
  {
    MonthNames[d.month - 1] + " " + Pad2(d.day) + ", " + Pad4(d.year)
  }

  /** The `YYYY-MM-DD` form a filing history carries. */
  function IsoForm(d: Date): string
    requires IsValid(d)
  {
    Pad4(d.year) + "-" + Pad2(d.month) + "-" + Pad2(d.day)
  }

  /**
   * `datetime.strptime(s, '%Y-%m-%d').strftime('%B %d, %Y')`, `None` where
   * the parse raises.
   */
  function Reformat(s: string): (r: Option<string>)
    ensures r.Some? <==> ParseIso(s).Some?
    ensures r.Some? ==> r.value == LongForm(ParseIso(s).value)
  {
    match ParseIso(s)
    case Some(d) => Some(LongForm(d))
    case None => None
  }

  lemma Pad2Fields(n: int)
    requires 1 <= n <= 31
    ensures MonthField(Pad2(n)) == (if n <= 12 then Some(n) else None)
    ensures DayField(Pad2(n)) == Some(n)
  {
  }

  lemma Pad4Field(n: int)
    requires 0 <= n < 10000
    ensures YearField(Pad4(n)) == Some(n)
  {
    var a, b, c, e := n / 1000, n / 100 % 10, n / 10 % 10, n % 10;
    assert n / 10 == 10 * (n / 100) + c;
    assert n / 100 == 10 * a + b;
    assert n == 10 * (n / 10) + e;
  }

  /** Parsing the `YYYY-MM-DD` form of a valid date gives the date back. */
  lemma {:induction false} ParseIsoForm(d: Date)
    requires IsValid(d)
    ensures ParseIso(IsoForm(d)) == Some(d)
  {
    var y, m, dd := Pad4(d.year), Pad2(d.month), Pad2(d.day);
    assert [y, m, dd][1..] == [m, dd] && [m, dd][1..] == [dd];
    assert Text.Join([m, dd], '-') == m + "-" + dd;
    assert Text.Join([y, m, dd], '-') == IsoForm(d);
    Text.SplitJoin([y, m, dd], '-');
    Pad4Field(d.year);
    Pad2Fields(d.month);
    Pad2Fields(d.day);
  }

  /** Reformatting the `YYYY-MM-DD` form of a valid date gives its long form. */
  lemma ReformatIsoForm(d: Date)
    requires IsValid(d)
    ensures Reformat(IsoForm(d)) == Some(LongForm(d))
  {
    ParseIsoForm(d);
  }

  /** No two months share a name. */
  lemma MonthNamesDistinct(i: int, j: int)
    requires 0 <= i < 12 && 0 <= j < 12 && MonthNames[i] == MonthNames[j]
    ensures i == j
  {
    var a, b := MonthNames[i], MonthNames[j];
    assert a[..3] == b[..3];
  }

  /** Distinct dates have distinct long forms: the stored date loses nothing. */
  lemma LongFormInjective(d1: Date, d2: Date)
    requires IsValid(d1) && IsValid(d2) && LongForm(d1) == LongForm(d2)
    ensures d1 == d2
  {
    MonthNamesDistinct(d1.month - 1, d2.month - 1);
    Pad2Fields(d1.day);
    Pad2Fields(d2.day);
    Pad4Field(d1.year);
    Pad4Field(d2.year);
  }

  /** The filing date `2024-03-04` is stored as `March 04, 2024`. */
  lemma ReformatExample()
    ensures Reformat("2024-03-04") == Some("March 04, 2024")
  {
    var d := Date(2024, 3, 4);
    assert IsoForm(d) == "2024-03-04";
    ReformatIsoForm(d);
    assert LongForm(d) == "March 04, 2024";
  }
}
