/** The date parsing the salary queries rely on: the text
    "<day> <Month> <Year>" read with the format '%d %B %Y'. Only the
    month-name table, the four-digit year and the day-of-month check are
    modelled; the formatted output is not. */
module Dates {
  import opened Seqs

  datatype Date = Date(day: int, month: int, year: int)

  /** Why a date text does not parse: it does not match the format (an
      unknown month name or a year that is not four digits), or the day
      does not exist in that month. */
  datatype DateError = NoMatch(monthName: string, year: int) | DayOutOfRange(day: int, month: int, year: int)

  /** The full month names, lower-case; `MonthName(m)` is month `m`. */
  function MonthName(m: int): (name: string)
    requires 1 <= m <= 12
  {
    ["january", "february", "march", "april", "may", "june", "july",
     "august", "september", "october", "november", "december"][m - 1]
  }

  /** No two months share a name. */
  lemma MonthNamesDistinct(m: int, n: int)
    requires 1 <= m <= 12 && 1 <= n <= 12 && m != n
    ensures MonthName(m) != MonthName(n)
  {
    var names := ["january", "february", "march", "april", "may", "june", "july",
                  "august", "september", "october", "november", "december"];
    assert MonthName(m) == names[m - 1] && MonthName(n) == names[n - 1];
    assert |names[m - 1]| != |names[n - 1]| || names[m - 1][0] != names[n - 1][0]
        || names[m - 1][2] != names[n - 1][2];
  }

  /** The first month from `m` on whose name is `key`. */
  function MonthFrom(key: string, m: int): (r: Option<int>)
    requires 1 <= m <= 13
    ensures r.Some? ==> m <= r.value <= 12 && key == MonthName(r.value)
    ensures r.None? ==> forall n :: m <= n <= 12 ==> key != MonthName(n)
    decreases 13 - m
  {
    if m == 13 then None
    else if key == MonthName(m) then Some(m)
    else MonthFrom(key, m + 1)
  }

  /** The month field of '%d %B %Y': a full month name, matched without
      regard to case. Each space of the format matches any run of whitespace,
      so whitespace around the name is absorbed by the separators. */
  function MonthNumber(name: string): (m: Option<int>)
    ensures m.Some? ==> 1 <= m.value <= 12
  {
    MonthFrom(Lower(Trim(name)), 1)
  }

  /** The month table and the month names are inverse: a text names month
      `m` exactly when, stripped of surrounding whitespace, it lower-cases to
      that month's name. */
  lemma MonthNumberNames(name: string, m: int)
    requires 1 <= m <= 12
    ensures MonthNumber(name) == Some(m) <==> Lower(Trim(name)) == MonthName(m)
  {
    var r := MonthNumber(name);
    if r.Some? && r.value != m {
      MonthNamesDistinct(r.value, m);
    }
  }

  /** A month name with whitespace around it names month `m` exactly when
      the bare name lower-cases to that month's name. */
  lemma MonthNumberPadded(p: string, name: string, q: string, m: int)
    requires AllSpace(p) && AllSpace(q) && Trimmed(name) && 1 <= m <= 12
    ensures MonthNumber(p + name + q) == Some(m) <==> Lower(name) == MonthName(m)
  {
    TrimPadded(p, name, q);
    MonthNumberNames(p + name + q, m);
  }

  /** A leading space does not hide the month. */
  lemma LeadingSpaceMonth()
    ensures MonthNumber(" January") == Some(1)
  {
    assert Lower("January") == MonthName(1);
    assert " January" == " " + "January" + "";
    MonthNumberPadded(" ", "January", "", 1);
  }

  /** Upper case does not hide the month. */
  lemma UpperCaseMonth()
    ensures MonthNumber("JANUARY") == Some(1)
  {
    assert Lower("JANUARY") == MonthName(1);
    assert "JANUARY" == "" + "JANUARY" + "";
    MonthNumberPadded("", "JANUARY", "", 1);
  }

  /** A trailing space does not hide the month. */
  lemma TrailingSpaceMonth()
    ensures MonthNumber("january ") == Some(1)
  {
    assert Lower("january") == MonthName(1);
    assert "january " == "" + "january" + " ";
    MonthNumberPadded("", "january", " ", 1);
  }

  predicate IsLeapYear(y: int) {
    y % 4 == 0 && (y % 100 != 0 || y % 400 == 0)
  }

  function DaysInMonth(m: int, y: int): (n: int)
    requires 1 <= m <= 12
    ensures 28 <= n <= 31
    ensures n >= 30 <==> m != 2
  {
    if m == 2 then (if IsLeapYear(y) then 29 else 28)
    else if m == 4 || m == 6 || m == 9 || m == 11 then 30
    else 31
  }

  /** `%Y` reads exactly four digits. */
  predicate FourDigitYear(y: int) {
    1000 <= y <= 9999
  }

  /** `pd.to_datetime(f"{day} {monthName} {year}", format='%d %B %Y')`. */
  function ParseDate(day: int, monthName: string, year: int): (r: Result<Date, DateError>)
    requires 1 <= day <= 31
    ensures r.Ok? <==>
      MonthNumber(monthName).Some? && FourDigitYear(year) && day <= DaysInMonth(MonthNumber(monthName).value, year)
    ensures r.Ok? ==> r.value == Date(day, MonthNumber(monthName).value, year)
    ensures r.Err? && r.error.DayOutOfRange? ==> MonthNumber(monthName).Some? && FourDigitYear(year)
  {
    match MonthNumber(monthName)
    case None => Err(NoMatch(monthName, year))
    case Some(m) =>
      if !FourDigitYear(year) then Err(NoMatch(monthName, year))
      else if day > DaysInMonth(m, year) then Err(DayOutOfRange(day, m, year))
      else Ok(Date(day, m, year))
  }

  /** Day 1 parses exactly when the month name and the year do. */
  lemma FirstOfMonthParses(monthName: string, year: int)
    ensures ParseDate(1, monthName, year).Ok? <==> MonthNumber(monthName).Some? && FourDigitYear(year)
  {
    if MonthNumber(monthName).Some? {
      assert DaysInMonth(MonthNumber(monthName).value, year) >= 28;
    }
  }

  /** The first of a month always exists; the thirtieth exists in every
      month except February. */
  lemma FirstAndThirtiethParse(monthName: string, year: int)
    requires MonthNumber(monthName).Some? && FourDigitYear(year)
    ensures ParseDate(1, monthName, year).Ok?
    ensures ParseDate(30, monthName, year).Ok? <==> MonthNumber(monthName) != Some(2)
  {
  }

  /** Months counted from year 0, so that consecutive calendar months have
      consecutive indices. */
  function MonthIndex(year: int, month: int): int {
    year * 12 + (month - 1)
  }

  /** The inclusive month count between two dates is the distance between
      their month indices, plus one. */
  lemma MonthSpan(start: Date, end: Date)
    ensures (end.year - start.year) * 12 + (end.month - start.month + 1)
      == MonthIndex(end.year, end.month) - MonthIndex(start.year, start.month) + 1
  {
    calc {
      (end.year - start.year) * 12;
      end.year * 12 - start.year * 12;
    }
  }
}
