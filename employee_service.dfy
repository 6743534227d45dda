/** The employee store and the salary-ledger queries
    (src/services/employee_service.py). The employee file is a `Table`; the
    salary file is a sequence of typed ledger rows. Every operation reads the
    file afresh and sees it without its Start_Date and End_Date columns. */
module EmployeeService {
  import opened Seqs
  import opened Tables
  import opened Dates
  import opened ServiceText
  import DepartmentService

  /** The fields of a creation request, in declaration order. */
  const CreateFields: seq<string> :=
    ["EmployeeID", "FirstName", "Surname", "Email", "DateOfBirth", "Department", "Position"]

  /** A creation request (the EmployeeCreate schema). */
  datatype NewEmployee = NewEmployee(
    employeeId: int, firstName: string, surname: string, email: string,
    dateOfBirth: string, department: string, position: string)

  /** The one-row frame built from a creation request. */
  function CreateRow(e: NewEmployee): (r: Row)
    ensures r.Keys == ColumnSet(CreateFields)
    ensures r[IdColumn] == Int(e.employeeId)
  {
    map["EmployeeID" := Int(e.employeeId), "FirstName" := Text(e.firstName),
        "Surname" := Text(e.surname), "Email" := Text(e.email),
        "DateOfBirth" := Text(e.dateOfBirth), "Department" := Text(e.department),
        "Position" := Text(e.position)]
  }

  /** What the store needs of the employee file: a well-formed table with an
      EmployeeID column. */
  predicate EmployeeTable(t: Table) {
    WellFormed(t) && IdColumn in t.columns
  }

  /** `df['EmployeeID'] == id` for one row. */
  predicate HasId(row: Row, id: int) {
    IdColumn in row && row[IdColumn] == Int(id)
  }

  function IdIs(id: int): Row -> bool {
    row => HasId(row, id)
  }

  function IdIsNot(id: int): Row -> bool {
    row => !HasId(row, id)
  }

  lemma LoadedEmployeeTable(file: Table)
    requires EmployeeTable(file)
    ensures EmployeeTable(WithoutDateColumns(file))
  {
    WithoutDateColumnsWellFormed(file);
    assert IdColumn in ColumnSet(file.columns);
    assert IdColumn in ColumnSet(WithoutDateColumns(file).columns);
  }

  /** A table without date columns reads back unchanged. */
  lemma LoadWithoutDateColumns(t: Table)
    requires WellFormed(t) && ColumnSet(t.columns) !! DateColumns
    ensures WithoutDateColumns(t) == t
  {
    var r := WithoutDateColumns(t);
    forall c | c in t.columns ensures NotDateColumn()(c) {
      assert c in ColumnSet(t.columns);
    }
    FilterKeepsAll(t.columns, NotDateColumn());
    forall i | 0 <= i < |t.rows| ensures r.rows[i] == t.rows[i] {
      assert t.rows[i].Keys !! DateColumns;
      assert r.rows[i].Keys == t.rows[i].Keys;
    }
  }

  /** get_all_employees: every row of the file, without the date columns. */
  function AllEmployees(file: Table): (r: seq<Row>)
    requires WellFormed(file)
    ensures |r| == |file.rows|
    ensures forall i :: 0 <= i < |r| ==>
      r[i].Keys == file.rows[i].Keys - DateColumns &&
      forall c :: c in r[i] ==> r[i][c] == file.rows[i][c]
  {
    WithoutDateColumns(file).rows
  }

  /** The first row with the given EmployeeID (`df[df['EmployeeID'] == id].iloc[0]`). */
  function FindEmployee(t: Table, id: int): (r: Option<Row>)
    ensures r.None? <==> forall i :: 0 <= i < |t.rows| ==> !HasId(t.rows[i], id)
    ensures r.Some? ==> exists i :: 0 <= i < |t.rows| && r.value == t.rows[i] && HasId(t.rows[i], id) &&
                                    (forall j :: 0 <= j < i ==> !HasId(t.rows[j], id))
  {
    match FirstIndex(t.rows, IdIs(id))
    case None => None
    case Some(i) => Some(t.rows[i])
  }

  // ---------------------------------------------------------------- ledger

  /** One month of pay for one employee (a row of the salary file). */
  datatype SalaryRow = SalaryRow(employeeId: int, month: string, year: int, salary: int)

  function SalaryOf(id: int): SalaryRow -> bool {
    (row: SalaryRow) => row.employeeId == id
  }

  /** `salaries[salaries['EmployeeID'] == id]`, in file order. */
  function SalaryRowsOf(ledger: seq<SalaryRow>, id: int): (rows: seq<SalaryRow>)
    ensures forall k :: 0 <= k < |rows| ==> rows[k].employeeId == id
    ensures rows == [] <==> forall i :: 0 <= i < |ledger| ==> ledger[i].employeeId != id
  {
    var rows := Filter(ledger, SalaryOf(id));
    FilterEmptyIff(ledger, SalaryOf(id));
    assert forall k :: 0 <= k < |rows| ==> rows[k] in rows;
    rows
  }

  /** A ledger row's month counted from year 0. */
  function LedgerMonth(row: SalaryRow): int
    requires MonthNumber(row.month).Some?
  {
    MonthIndex(row.year, MonthNumber(row.month).value)
  }

  /** A record with derived start and end dates (the dictionary
      get_employee_by_id returns). */
  datatype EmployeeView = EmployeeView(fields: Row, startDate: Option<Date>, endDate: Option<Date>)

  /** get_employee_by_id: the first row with the id, and dates taken from
      the first and last of the employee's ledger rows (day 1 and day 30).
      A date that does not parse is an error. */
  function GetEmployeeById(file: Table, ledger: seq<SalaryRow>, id: int): (r: Result<Option<EmployeeView>, DateError>)
    requires EmployeeTable(file)
    ensures r == Ok(None) <==> FindEmployee(WithoutDateColumns(file), id).None?
    ensures r.Ok? && r.value.Some? ==>
      && FindEmployee(WithoutDateColumns(file), id) == Some(r.value.value.fields)
      && (r.value.value.startDate.Some? <==> SalaryRowsOf(ledger, id) != [])
      && (r.value.value.endDate.Some? <==> SalaryRowsOf(ledger, id) != [])
    ensures r.Ok? && r.value.Some? && SalaryRowsOf(ledger, id) != [] ==>
      var first := SalaryRowsOf(ledger, id)[0];
      var last := SalaryRowsOf(ledger, id)[|SalaryRowsOf(ledger, id)| - 1];
      var start := r.value.value.startDate.value;
      var end := r.value.value.endDate.value;
      && start.day == 1 && MonthNumber(first.month) == Some(start.month) && start.year == first.year
      && end.day == 30 && MonthNumber(last.month) == Some(end.month) && end.year == last.year
    ensures r.Err? ==>
      FindEmployee(WithoutDateColumns(file), id).Some? && SalaryRowsOf(ledger, id) != []
  {
    match FindEmployee(WithoutDateColumns(file), id)
    case None => Ok(None)
    case Some(row) =>
      var mine := SalaryRowsOf(ledger, id);
      if mine == [] then Ok(Some(EmployeeView(row, None, None)))
      else
        var first := mine[0];
        var last := mine[|mine| - 1];
        match ParseDate(1, first.month, first.year)
        case Err(e) => Err(e)
        case Ok(start) =>
          match ParseDate(30, last.month, last.year)
          case Err(e) => Err(e)
          case Ok(end) => Ok(Some(EmployeeView(row, Some(start), Some(end))))
  }

  /** The month name and year of a ledger row parse (`%B %Y`). */
  predicate MonthAndYearParse(row: SalaryRow) {
    MonthNumber(row.month).Some? && FourDigitYear(row.year)
  }

  /** get_employee_by_id fails exactly when the employee exists, has ledger
      rows, and the first or last of them has an unknown month or year, or the
      last is a February (day 30 does not exist). */
  lemma GetEmployeeByIdFails(file: Table, ledger: seq<SalaryRow>, id: int)
    requires EmployeeTable(file)
    ensures var rows := SalaryRowsOf(ledger, id);
      GetEmployeeById(file, ledger, id).Err? <==>
        && FindEmployee(WithoutDateColumns(file), id).Some?
        && rows != []
        && (|| !MonthAndYearParse(rows[0])
            || !MonthAndYearParse(rows[|rows| - 1])
            || MonthNumber(rows[|rows| - 1].month) == Some(2))
  {
    var rows := SalaryRowsOf(ledger, id);
    if rows != [] {
      var first, last := rows[0], rows[|rows| - 1];
      if MonthAndYearParse(first) { FirstAndThirtiethParse(first.month, first.year); }
      if MonthAndYearParse(last) { FirstAndThirtiethParse(last.month, last.year); }
    }
  }

  /** get_avg_salary, up to the division: the sum and number of the
      employee's salaries, or None when there are none. */
  datatype SalaryTotals = SalaryTotals(sum: int, count: nat)

  /** `salaries['Salary'].sum()` over some ledger rows. */
  function SumSalaries(rows: seq<SalaryRow>): int {
    if rows == [] then 0 else SumSalaries(rows[..|rows| - 1]) + rows[|rows| - 1].salary
  }

  /** The sum over two stretches of ledger is the sum of their sums. */
  lemma {:induction false} SumSalariesAppend(a: seq<SalaryRow>, b: seq<SalaryRow>)
    ensures SumSalaries(a + b) == SumSalaries(a) + SumSalaries(b)
    decreases |b|
  {
    if b == [] {
      assert a + b == a;
    } else {
      var init := b[..|b| - 1];
      assert (a + b)[..|a + b| - 1] == a + init;
      SumSalariesAppend(a, init);
    }
  }

  /** Salaries within [lo, hi] sum to between |rows|·lo and |rows|·hi. */
  lemma {:induction false} SumSalariesBounds(rows: seq<SalaryRow>, lo: int, hi: int)
    requires forall k :: 0 <= k < |rows| ==> lo <= rows[k].salary <= hi
    ensures |rows| * lo <= SumSalaries(rows) <= |rows| * hi
    decreases |rows|
  {
    if rows != [] {
      var init := rows[..|rows| - 1];
      SumSalariesBounds(init, lo, hi);
      assert |rows| * lo == |init| * lo + lo && |rows| * hi == |init| * hi + hi;
    }
  }

  function AvgSalaryTotals(ledger: seq<SalaryRow>, id: int): (r: Option<SalaryTotals>)
    ensures r.None? <==> forall i :: 0 <= i < |ledger| ==> ledger[i].employeeId != id
    ensures r.Some? ==> r.value.count > 0 && r.value.count == MonthsOfService(ledger, id)
  {
    var mine := SalaryRowsOf(ledger, id);
    if mine == [] then None else Some(SalaryTotals(SumSalaries(mine), |mine|))
  }

  /** The mean salary lies between the employee's lowest and highest
      salary: count·lo <= sum <= count·hi. */
  lemma AvgSalaryBounds(ledger: seq<SalaryRow>, id: int, lo: int, hi: int)
    requires forall i :: 0 <= i < |ledger| && ledger[i].employeeId == id ==> lo <= ledger[i].salary <= hi
    ensures AvgSalaryTotals(ledger, id).Some? ==>
      var t := AvgSalaryTotals(ledger, id).value;
      t.count * lo <= t.sum <= t.count * hi
  {
    var mine := SalaryRowsOf(ledger, id);
    forall k | 0 <= k < |mine| ensures lo <= mine[k].salary <= hi {
      FilterMembers(ledger, SalaryOf(id), mine[k]);
    }
    SumSalariesBounds(mine, lo, hi);
  }

  /** Salaries 1000, 2000 and 3000 for one employee total 6000 over three
      months, a mean of 2000. */
  lemma AvgSalaryExample()
    ensures AvgSalaryTotals([SalaryRow(1, "January", 2020, 1000), SalaryRow(1, "February", 2020, 2000),
                             SalaryRow(1, "March", 2020, 3000)], 1) == Some(SalaryTotals(6000, 3))
  {
    var ledger := [SalaryRow(1, "January", 2020, 1000), SalaryRow(1, "February", 2020, 2000),
                   SalaryRow(1, "March", 2020, 3000)];
    assert SalaryRowsOf(ledger, 1) == ledger by {
      FilterKeepsAll(ledger, SalaryOf(1));
    }
    SumOfThree(ledger);
  }

  lemma SumOfThree(rows: seq<SalaryRow>)
    requires |rows| == 3
    ensures SumSalaries(rows) == rows[0].salary + rows[1].salary + rows[2].salary
  {
    var a, b := rows[..1], rows[..2];
    assert a[..0] == [] && SumSalaries(a) == rows[0].salary;
    assert b[..1] == a && SumSalaries(b) == rows[0].salary + rows[1].salary;
    assert rows[..2] == b;
  }

  /** get_months_of_service: the number of the employee's ledger rows. */
  function MonthsOfService(ledger: seq<SalaryRow>, id: int): (n: nat)
    ensures n == 0 <==> forall i :: 0 <= i < |ledger| ==> ledger[i].employeeId != id
  {
    var mine := SalaryRowsOf(ledger, id);
    if mine == [] then 0 else |mine|
  }

  /** The EmployeeID column of the ledger. */
  function LedgerIds(ledger: seq<SalaryRow>): (ids: seq<int>)
    ensures |ids| == |ledger| && forall i :: 0 <= i < |ledger| ==> ids[i] == ledger[i].employeeId
  {
    seq(|ledger|, i requires 0 <= i < |ledger| => ledger[i].employeeId)
  }

  /** Months of service is the number of times the id occurs in the ledger. */
  lemma {:induction false} MonthsOfServiceCountsId(ledger: seq<SalaryRow>, id: int)
    ensures MonthsOfService(ledger, id) == multiset(LedgerIds(ledger))[id]
    decreases |ledger|
  {
    if ledger != [] {
      var init := ledger[..|ledger| - 1];
      MonthsOfServiceCountsId(init, id);
      assert LedgerIds(ledger) == LedgerIds(init) + [ledger[|ledger| - 1].employeeId];
      assert |Filter(ledger, SalaryOf(id))| == |Filter(init, SalaryOf(id))| +
        (if ledger[|ledger| - 1].employeeId == id then 1 else 0);
    }
  }

  /** The notice for an employee with no ledger rows. It is written as two
      literals so that the verifier can see its characters. */
  const NoSalaryData := "Employee not found" + " or no salary data available."

  /** The inclusive number of months from the first ledger row's month
      (parsed on day 1) to the last one's (parsed on day 30). */
  function ServiceSpan(first: SalaryRow, last: SalaryRow): (r: Result<int, DateError>)
    ensures r.Ok? <==> ParseDate(1, first.month, first.year).Ok? && ParseDate(30, last.month, last.year).Ok?
    ensures r.Ok? ==>
      && MonthNumber(first.month).Some? && MonthNumber(last.month).Some?
      && r.value == LedgerMonth(last) - LedgerMonth(first) + 1
  {
    match ParseDate(1, first.month, first.year)
    case Err(e) => Err(e)
    case Ok(start) =>
      match ParseDate(30, last.month, last.year)
      case Err(e) => Err(e)
      case Ok(end) =>
        MonthSpan(start, end);
        Ok((end.year - start.year) * 12 + (end.month - start.month + 1))
  }

  /** get_years_of_service: the inclusive number of months from the first to
      the last ledger row, as text; the fixed notice when there are none. */
  function YearsOfService(ledger: seq<SalaryRow>, id: int): (r: Result<string, DateError>)
    ensures SalaryRowsOf(ledger, id) == [] ==> r == Ok(NoSalaryData)
    ensures SalaryRowsOf(ledger, id) != [] ==>
      var rows := SalaryRowsOf(ledger, id);
      && (r.Ok? <==> ParseDate(1, rows[0].month, rows[0].year).Ok? &&
                     ParseDate(30, rows[|rows| - 1].month, rows[|rows| - 1].year).Ok?)
      && (r.Ok? ==>
            && MonthNumber(rows[0].month).Some? && MonthNumber(rows[|rows| - 1].month).Some?
            && r.value == Format(LedgerMonth(rows[|rows| - 1]) - LedgerMonth(rows[0]) + 1))
    ensures SalaryRowsOf(ledger, id) != [] && r.Ok? ==> |r.value| > 0 && IsDigit(r.value[0])
  {
    var mine := SalaryRowsOf(ledger, id);
    if mine == [] then Ok(NoSalaryData)
    else
      match ServiceSpan(mine[0], mine[|mine| - 1])
      case Err(e) => Err(e)
      case Ok(total) => Ok(Format(total))
  }

  /** Consecutive calendar months, one row per month. */
  predicate Consecutive(rows: seq<SalaryRow>) {
    && (forall i :: 0 <= i < |rows| ==> MonthNumber(rows[i].month).Some?)
    && (forall i :: 0 < i < |rows| ==> LedgerMonth(rows[i]) == LedgerMonth(rows[i - 1]) + 1)
  }

  /** On a gap-free chronological ledger the span from first to last month
      is the number of rows. */
  lemma {:induction false} ConsecutiveSpan(rows: seq<SalaryRow>)
    requires rows != [] && Consecutive(rows)
    ensures LedgerMonth(rows[|rows| - 1]) - LedgerMonth(rows[0]) + 1 == |rows|
    decreases |rows|
  {
    if |rows| > 1 {
      var init := rows[..|rows| - 1];
      assert Consecutive(init);
      ConsecutiveSpan(init);
    }
  }

  /** When an employee's ledger rows are consecutive months and the dates
      parse, years of service spells out exactly the months of service. */
  lemma YearsOfServiceSpellsMonths(ledger: seq<SalaryRow>, id: int)
    requires SalaryRowsOf(ledger, id) != []
    requires Consecutive(SalaryRowsOf(ledger, id))
    requires FourDigitYear(SalaryRowsOf(ledger, id)[0].year)
    requires var rows := SalaryRowsOf(ledger, id);
      FourDigitYear(rows[|rows| - 1].year) && MonthNumber(rows[|rows| - 1].month) != Some(2)
    ensures YearsOfService(ledger, id) == Ok(Format(MonthsOfService(ledger, id)))
    ensures ReadServiceText(YearsOfService(ledger, id).value) == Some(MonthsOfService(ledger, id))
  {
    var rows := SalaryRowsOf(ledger, id);
    var first, last := rows[0], rows[|rows| - 1];
    assert ServiceSpan(first, last) == Ok(|rows|) by {
      assert MonthNumber(first.month).Some? && MonthNumber(last.month).Some?;
      FirstAndThirtiethParse(first.month, first.year);
      FirstAndThirtiethParse(last.month, last.year);
      ConsecutiveSpan(rows);
    }
    assert MonthsOfService(ledger, id) == |rows|;
    assert YearsOfService(ledger, id) == Ok(Format(|rows|));
    FormatRoundTrip(|rows|);
  }

  /** A computed duration is never the notice: it starts with a digit. */
  lemma DurationIsNotNotice(ledger: seq<SalaryRow>, id: int)
    ensures SalaryRowsOf(ledger, id) != [] && YearsOfService(ledger, id).Ok? ==>
      YearsOfService(ledger, id).value != NoSalaryData
  {
    if SalaryRowsOf(ledger, id) != [] && YearsOfService(ledger, id).Ok? {
      NoticeStartsWithLetter();
    }
  }

  lemma NoticeStartsWithLetter()
    ensures |NoSalaryData| > 0 && !IsDigit(NoSalaryData[0])
  {
  }

  /** The three salary queries agree on absence: no ledger rows means no
      average, zero months, and the fixed notice instead of a duration. */
  lemma SalaryQueriesAgreeOnAbsence(ledger: seq<SalaryRow>, id: int)
    ensures AvgSalaryTotals(ledger, id).None? <==> MonthsOfService(ledger, id) == 0
    ensures MonthsOfService(ledger, id) == 0 <==> YearsOfService(ledger, id) == Ok(NoSalaryData)
  {
    DurationIsNotNotice(ledger, id);
  }

  // --------------------------------------------- February end-date finding

  /** Two months of pay ending in February. */
  const FebruaryLedger: seq<SalaryRow> :=
    [SalaryRow(7, "January", 2023, 3000), SalaryRow(7, "February", 2023, 3000)]

  lemma JanuaryIsMonthOne()
    ensures MonthNumber("January") == Some(1)
  {
    assert Trim("January") == "January" by {
      assert Trimmed("January");
      TrimOfTrimmed("January");
    }
    assert Lower("January") == MonthName(1);
    MonthNumberNames("January", 1);
  }

  lemma FebruaryIsMonthTwo()
    ensures MonthNumber("February") == Some(2)
  {
    assert Trim("February") == "February" by {
      assert Trimmed("February");
      TrimOfTrimmed("February");
    }
    assert Lower("February") == MonthName(2);
    MonthNumberNames("February", 2);
  }

  /** The example ledger is all employee 7's, and its month names parse. */
  lemma FebruaryLedgerRows()
    ensures SalaryRowsOf(FebruaryLedger, 7) == FebruaryLedger
    ensures MonthNumber("January") == Some(1) && MonthNumber("February") == Some(2)
  {
    FilterKeepsAll(FebruaryLedger, SalaryOf(7));
    JanuaryIsMonthOne();
    FebruaryIsMonthTwo();
  }

  /** A file holding one employee row with the given id. */
  const OneEmployeeFile: Table := Table([IdColumn], [map[IdColumn := Int(7)]])

  lemma OneEmployeeFound()
    ensures FindEmployee(WithoutDateColumns(OneEmployeeFile), 7).Some?
  {
    var t := WithoutDateColumns(OneEmployeeFile);
    assert t.rows[0] == OneEmployeeFile.rows[0] - DateColumns;
    assert HasId(t.rows[0], 7);
  }

  /** As written, a ledger whose last month is February has no day 30 to
      end on, so get_years_of_service raises instead of answering. */
  lemma FebruaryLedgerFails()
    ensures YearsOfService(FebruaryLedger, 7) == Err(DayOutOfRange(30, 2, 2023))
  {
    assert SalaryRowsOf(FebruaryLedger, 7) == FebruaryLedger by {
      FebruaryLedgerRows();
    }
    FebruarySpanFails();
  }

  /** As written, the February ledger's span stops at the missing day 30. */
  lemma FebruarySpanFails()
    ensures ServiceSpan(FebruaryLedger[0], FebruaryLedger[1]) == Err(DayOutOfRange(30, 2, 2023))
  {
    assert MonthNumber("January") == Some(1) && MonthNumber("February") == Some(2) by {
      FebruaryLedgerRows();
    }
    assert ParseDate(1, "January", 2023).Ok?;
    assert ParseDate(30, "February", 2023) == Err(DayOutOfRange(30, 2, 2023));
  }

  /** As written, get_employee_by_id raises for the same ledger. */
  lemma FebruaryEmployeeFails()
    ensures EmployeeTable(OneEmployeeFile)
    ensures GetEmployeeById(OneEmployeeFile, FebruaryLedger, 7).Err?
  {
    assert EmployeeTable(OneEmployeeFile) by {
      assert OneEmployeeFile.rows[0].Keys == ColumnSet(OneEmployeeFile.columns);
    }
    assert FindEmployee(WithoutDateColumns(OneEmployeeFile), 7).Some? by {
      OneEmployeeFound();
    }
    var rows := SalaryRowsOf(FebruaryLedger, 7);
    assert rows != [] && MonthNumber(rows[|rows| - 1].month) == Some(2) by {
      FebruaryLedgerRows();
    }
    GetEmployeeByIdFails(OneEmployeeFile, FebruaryLedger, 7);
  }

  /** The end date of a ledger row's month: day 30, or the month's last
      day when the month is shorter (February). */
  function EndDate(row: SalaryRow): (r: Result<Date, DateError>)
    ensures r.Ok? <==> MonthAndYearParse(row)
    ensures r.Ok? ==>
      && 1 <= r.value.month <= 12
      && r.value.day == (if DaysInMonth(r.value.month, r.value.year) < 30 then DaysInMonth(r.value.month, r.value.year) else 30)
      && ParseDate(r.value.day, row.month, row.year) == Ok(r.value)
    ensures MonthNumber(row.month) != Some(2) ==> r == ParseDate(30, row.month, row.year)
  {
    match ParseDate(1, row.month, row.year)
    case Err(e) => Err(e)
    case Ok(d) =>
      var last := DaysInMonth(d.month, d.year);
      Ok(Date(if last < 30 then last else 30, d.month, d.year))
  }

  /** get_employee_by_id with the end date on day 30, or on the last day of
      a shorter month. */
  function GetEmployeeByIdCorrected(file: Table, ledger: seq<SalaryRow>, id: int): (r: Result<Option<EmployeeView>, DateError>)
    requires EmployeeTable(file)
    ensures r == Ok(None) <==> FindEmployee(WithoutDateColumns(file), id).None?
    ensures r.Err? <==>
      var rows := SalaryRowsOf(ledger, id);
      && FindEmployee(WithoutDateColumns(file), id).Some? && rows != []
      && (!MonthAndYearParse(rows[0]) || !MonthAndYearParse(rows[|rows| - 1]))
    ensures r.Ok? && r.value.Some? ==>
      && FindEmployee(WithoutDateColumns(file), id) == Some(r.value.value.fields)
      && (r.value.value.startDate.Some? <==> SalaryRowsOf(ledger, id) != [])
      && (r.value.value.endDate.Some? <==> SalaryRowsOf(ledger, id) != [])
    ensures r.Ok? && r.value.Some? && SalaryRowsOf(ledger, id) != [] ==>
      var last := SalaryRowsOf(ledger, id)[|SalaryRowsOf(ledger, id)| - 1];
      EndDate(last) == Ok(r.value.value.endDate.value)
  {
    match FindEmployee(WithoutDateColumns(file), id)
    case None => Ok(None)
    case Some(row) =>
      var mine := SalaryRowsOf(ledger, id);
      if mine == [] then Ok(Some(EmployeeView(row, None, None)))
      else
        var first := mine[0];
        var last := mine[|mine| - 1];
        match ParseDate(1, first.month, first.year)
        case Err(e) => Err(e)
        case Ok(start) =>
          match EndDate(last)
          case Err(e) => Err(e)
          case Ok(end) => Ok(Some(EmployeeView(row, Some(start), Some(end))))
  }

  /** The correction changes nothing where the original answers: it only
      answers, in addition, for a ledger that ends in February. */
  lemma GetEmployeeByIdCorrectedAgrees(file: Table, ledger: seq<SalaryRow>, id: int)
    requires EmployeeTable(file)
    ensures GetEmployeeById(file, ledger, id).Ok? ==>
      GetEmployeeByIdCorrected(file, ledger, id) == GetEmployeeById(file, ledger, id)
  {
    var rows := SalaryRowsOf(ledger, id);
    GetEmployeeByIdFails(file, ledger, id);
    if rows != [] {
      if MonthAndYearParse(rows[0]) {
        FirstAndThirtiethParse(rows[0].month, rows[0].year);
      }
      if MonthAndYearParse(rows[|rows| - 1]) {
        FirstAndThirtiethParse(rows[|rows| - 1].month, rows[|rows| - 1].year);
      }
    }
  }

  /** ServiceSpan with the end date on day 30, or on the last day of a
      shorter month. */
  function ServiceSpanCorrected(first: SalaryRow, last: SalaryRow): (r: Result<int, DateError>)
    ensures r.Ok? <==> MonthAndYearParse(first) && MonthAndYearParse(last)
    ensures r.Ok? ==> r.value == LedgerMonth(last) - LedgerMonth(first) + 1
  {
    FirstOfMonthParses(first.month, first.year);
    match ParseDate(1, first.month, first.year)
    case Err(e) => Err(e)
    case Ok(start) =>
      match EndDate(last)
      case Err(e) => Err(e)
      case Ok(end) =>
        MonthSpan(start, end);
        Ok((end.year - start.year) * 12 + (end.month - start.month + 1))
  }

  /** get_years_of_service with the end date on day 30, or on the last day
      of a shorter month. */
  function YearsOfServiceCorrected(ledger: seq<SalaryRow>, id: int): (r: Result<string, DateError>)
    ensures SalaryRowsOf(ledger, id) == [] ==> r == Ok(NoSalaryData)
    ensures SalaryRowsOf(ledger, id) != [] ==>
      var rows := SalaryRowsOf(ledger, id);
      && (r.Ok? <==> MonthAndYearParse(rows[0]) && MonthAndYearParse(rows[|rows| - 1]))
      && (r.Ok? ==> r.value == Format(LedgerMonth(rows[|rows| - 1]) - LedgerMonth(rows[0]) + 1))
  {
    var mine := SalaryRowsOf(ledger, id);
    if mine == [] then Ok(NoSalaryData)
    else
      match ServiceSpanCorrected(mine[0], mine[|mine| - 1])
      case Err(e) => Err(e)
      case Ok(total) => Ok(Format(total))
  }

  /** Corrected, years of service spells out the months of service of any
      gap-free ledger whose years are four digits, February or not. */
  lemma YearsOfServiceCorrectedSpellsMonths(ledger: seq<SalaryRow>, id: int)
    requires SalaryRowsOf(ledger, id) != []
    requires Consecutive(SalaryRowsOf(ledger, id))
    requires FourDigitYear(SalaryRowsOf(ledger, id)[0].year)
    requires var rows := SalaryRowsOf(ledger, id); FourDigitYear(rows[|rows| - 1].year)
    ensures YearsOfServiceCorrected(ledger, id) == Ok(Format(MonthsOfService(ledger, id)))
    ensures ReadServiceText(YearsOfServiceCorrected(ledger, id).value) == Some(MonthsOfService(ledger, id))
  {
    var rows := SalaryRowsOf(ledger, id);
    var first, last := rows[0], rows[|rows| - 1];
    assert ServiceSpanCorrected(first, last) == Ok(|rows|) by {
      assert MonthNumber(first.month).Some? && MonthNumber(last.month).Some?;
      ConsecutiveSpan(rows);
    }
    assert MonthsOfService(ledger, id) == |rows|;
    assert YearsOfServiceCorrected(ledger, id) == Ok(Format(|rows|));
    FormatRoundTrip(|rows|);
  }

  /** The correction agrees with the original wherever the original
      answers. */
  lemma YearsOfServiceCorrectedAgrees(ledger: seq<SalaryRow>, id: int)
    ensures YearsOfService(ledger, id).Ok? ==> YearsOfServiceCorrected(ledger, id) == YearsOfService(ledger, id)
  {
    var rows := SalaryRowsOf(ledger, id);
    if rows != [] && YearsOfService(ledger, id).Ok? {
      FirstAndThirtiethParse(rows[0].month, rows[0].year);
      FirstAndThirtiethParse(rows[|rows| - 1].month, rows[|rows| - 1].year);
    }
  }

  /** Corrected, the February ledger spans two months. */
  lemma FebruaryLedgerSpan()
    ensures ServiceSpanCorrected(FebruaryLedger[0], FebruaryLedger[1]) == Ok(2)
  {
    var first, last := FebruaryLedger[0], FebruaryLedger[1];
    assert MonthNumber(first.month) == Some(1) && MonthNumber(last.month) == Some(2) by {
      FebruaryLedgerRows();
    }
    assert LedgerMonth(first) == MonthIndex(2023, 1) && LedgerMonth(last) == MonthIndex(2023, 2);
  }

  /** The corrected query answers the February ledger: two months. */
  lemma FebruaryLedgerCorrected()
    ensures YearsOfServiceCorrected(FebruaryLedger, 7) == Ok("2 months")
  {
    assert SalaryRowsOf(FebruaryLedger, 7) == FebruaryLedger by {
      FebruaryLedgerRows();
    }
    FebruaryLedgerSpan();
    assert Format(2) == "2 months" by {
      FormatExamples();
    }
  }


  // ------------------------------------------------------ department filter

  /** `df['Department'].str.lower() == name.lower()` for one row. */
  predicate DepartmentMatches(row: Row, name: string)
    ensures DepartmentMatches(row, name) <==>
      DepartmentColumn in row && row[DepartmentColumn].Text? && EqualIgnoringCase(row[DepartmentColumn].s, name)
  {
    && DepartmentColumn in row && row[DepartmentColumn].Text?
    && (LowerIgnoresCase(row[DepartmentColumn].s, name);
        Lower(row[DepartmentColumn].s) == Lower(name))
  }

  /** Every exact department match is a match ignoring case, but not the
      other way round: "Sales" is listed for "SALES" here and not by the
      department service. */
  lemma DepartmentFiltersCompared(row: Row, name: string)
    ensures DepartmentService.InDepartment(row, name) ==> DepartmentMatches(row, name)
    ensures DepartmentMatches(map[DepartmentColumn := Text("Sales")], "SALES")
    ensures !DepartmentService.InDepartment(map[DepartmentColumn := Text("Sales")], "SALES")
    ensures !DepartmentMatches(map[DepartmentColumn := Text("Sales")], "Sale")
  {
    var sales := map[DepartmentColumn := Text("Sales")];
    assert EqualIgnoringCase("Sales", "SALES") by {
      assert forall i :: 0 <= i < 5 ==> SameLetterIgnoringCase("Sales"[i], "SALES"[i]);
    }
    assert Text("Sales") != Text("SALES") by {
      assert "Sales"[1] != "SALES"[1];
    }
  }

  function DepartmentLike(name: string): Row -> bool {
    row => DepartmentMatches(row, name)
  }

  lemma SummaryColumnsSurviveLoad(file: Table)
    requires WellFormed(file) && HasColumns(file, SummaryFields)
    ensures WellFormed(WithoutDateColumns(file)) && HasColumns(WithoutDateColumns(file), SummaryFields)
  {
    var t := WithoutDateColumns(file);
    WithoutDateColumnsWellFormed(file);
    forall k | 0 <= k < |SummaryFields| ensures SummaryFields[k] in t.columns {
      assert SummaryFields[k] in ColumnSet(file.columns);
      assert SummaryFields[k] in ColumnSet(t.columns);
    }
  }

  /** get_department_employees: the employees whose department equals `name`
      ignoring case, with the five summary fields. */
  function DepartmentEmployees(file: Table, name: string): (r: seq<Row>)
    requires WellFormed(file) && HasColumns(file, SummaryFields)
    ensures forall k :: 0 <= k < |r| ==> r[k].Keys == ColumnSet(SummaryFields)
    ensures r == [] <==> forall i :: 0 <= i < |file.rows| ==> !DepartmentMatches(file.rows[i], name)
  {
    var t := WithoutDateColumns(file);
    SummaryColumnsSurviveLoad(file);
    SelectWhere(t, DepartmentLike(name), SummaryFields)
  }

  /** Dropping the date columns changes neither a row's department match
      nor its summary fields. */
  lemma LoadKeepsSummary(row: Row, name: string)
    requires forall k :: 0 <= k < |SummaryFields| ==> SummaryFields[k] in row
    ensures DepartmentMatches(row - DateColumns, name) == DepartmentMatches(row, name)
    ensures Project(row - DateColumns, SummaryFields) == Project(row, SummaryFields)
  {
    assert DepartmentColumn !in DateColumns;
    assert forall k :: 0 <= k < |SummaryFields| ==> SummaryFields[k] !in DateColumns;
  }

  /** The case-insensitive listing holds exactly the matching rows of the
      file, in file order, each cut down to the summary fields. */
  lemma DepartmentEmployeesAreMatchingRows(file: Table, name: string)
    requires WellFormed(file) && HasColumns(file, SummaryFields)
    ensures var r := DepartmentEmployees(file, name);
      var idx := MatchingIndices(file.rows, DepartmentLike(name));
      && |r| == |idx|
      && forall k :: 0 <= k < |r| ==>
           DepartmentMatches(file.rows[idx[k]], name) && r[k] == Project(file.rows[idx[k]], SummaryFields)
  {
    var t := WithoutDateColumns(file);
    var p := DepartmentLike(name);
    SummaryColumnsSurviveLoad(file);
    SelectWhereIsMatchingRows(t, p, SummaryFields);
    forall i | 0 <= i < |file.rows|
      ensures p(t.rows[i]) == p(file.rows[i])
      ensures Project(t.rows[i], SummaryFields) == Project(file.rows[i], SummaryFields)
    {
      RowHasColumns(file, i, SummaryFields);
      LoadKeepsSummary(file.rows[i], name);
    }
    SameMaskSameIndices(t.rows, file.rows, p);
  }

  // ---------------------------------------------------------------- store

  const AddedMessage := "Employee added successfully"

  /** The file add_employee writes: the loaded table with the request
      appended as one row (`pd.concat`). */
  function AddedFile(file: Table, e: NewEmployee): (r: Table)
    ensures |r.rows| == |file.rows| + 1
    ensures forall k :: 0 <= k < |CreateFields| ==>
      CreateFields[k] in r.rows[|file.rows|] && r.rows[|file.rows|][CreateFields[k]] == CreateRow(e)[CreateFields[k]]
    ensures HasId(r.rows[|file.rows|], e.employeeId)
  {
    var r := Concat(WithoutDateColumns(file), CreateFields, CreateRow(e));
    assert forall k :: 0 <= k < |CreateFields| ==> CreateFields[k] in ColumnSet(r.columns);
    assert CreateFields[0] == IdColumn;
    r
  }

  /** The file delete_employee writes when the id is present: the loaded
      table without any row that carries the id. */
  function DeletedFile(file: Table, id: int): (r: Table)
    ensures r.columns == WithoutDateColumns(file).columns
    ensures forall k :: 0 <= k < |r.rows| ==> !HasId(r.rows[k], id)
    ensures forall row :: row in r.rows <==> row in WithoutDateColumns(file).rows && !HasId(row, id)
  {
    var t := WithoutDateColumns(file);
    var kept := Filter(t.rows, IdIsNot(id));
    forall row ensures row in kept <==> row in t.rows && !HasId(row, id) {
      FilterMembers(t.rows, IdIsNot(id), row);
    }
    assert forall k :: 0 <= k < |kept| ==> kept[k] in kept;
    Table(t.columns, kept)
  }

  /** A row after update_employee's loop: each payload key that names a
      column takes the payload value; keys that name no column are ignored. */
  function Patched(row: Row, columns: seq<string>, changes: map<string, Value>): (r: Row)
    ensures r.Keys == row.Keys + (changes.Keys * ColumnSet(columns))
  {
    row + map k | k in changes.Keys * ColumnSet(columns) :: changes[k]
  }

  /** The row update_employee returns: the first row with the id, patched. */
  function UpdatedRow(file: Table, id: int, payload: map<string, Value>): (r: Option<Row>)
    ensures r.None? <==> FindEmployee(WithoutDateColumns(file), id).None?
    ensures r.Some? ==> var found := FindEmployee(WithoutDateColumns(file), id).value;
      forall c :: c in found ==> (c in r.value &&
        r.value[c] == if c in payload && c in WithoutDateColumns(file).columns then payload[c] else found[c])
  {
    var t := WithoutDateColumns(file);
    match FindEmployee(t, id)
    case None => None
    case Some(row) => Some(Patched(row, t.columns, payload))
  }

  /** The file update_employee writes, or None when no row has the id and
      nothing is written. */
  function UpdatedFile(file: Table, id: int, payload: map<string, Value>): (r: Option<Table>)
    ensures r.None? <==> FindEmployee(WithoutDateColumns(file), id).None?
    ensures r.Some? ==>
      && r.value.columns == WithoutDateColumns(file).columns
      && |r.value.rows| == |file.rows|
      && forall j :: 0 <= j < |file.rows| && j != FirstIndex(WithoutDateColumns(file).rows, IdIs(id)).value ==>
           r.value.rows[j] == WithoutDateColumns(file).rows[j]
  {
    var t := WithoutDateColumns(file);
    match FirstIndex(t.rows, IdIs(id))
    case None => None
    case Some(i) => Some(Table(t.columns, t.rows[i := Patched(t.rows[i], t.columns, payload)]))
  }

  /** The employee CSV file, which add, update and delete rewrite. */
  class EmployeeFile {
    var columns: seq<string>
    var rows: seq<Row>

    function Contents(): Table
      reads this
    {
      Table(columns, rows)
    }

    ghost predicate Valid()
      reads this
    {
      EmployeeTable(Contents())
    }

    constructor (file: Table)
      requires EmployeeTable(file)
      ensures Contents() == file && Valid()
    {
      columns := file.columns;
      rows := file.rows;
    }

    /** add_employee: append the request as one row, whatever its id, and
        write the file back. */
    method AddEmployee(e: NewEmployee) returns (id: int, message: string)
      requires Valid()
      modifies this
      ensures Contents() == AddedFile(old(Contents()), e)
      ensures Valid()
      ensures id == e.employeeId && message == AddedMessage
    {
      var added := AddedFile(Contents(), e);
      assert EmployeeTable(added) by {
        AddedFileShape(Contents(), e);
      }
      columns, rows := added.columns, added.rows;
      id, message := e.employeeId, AddedMessage;
    }

    /** update_employee: patch the first row with the id and write the file
        back; nothing is written when the id is absent. */
    method UpdateEmployee(id: int, payload: map<string, Value>) returns (updated: Option<Row>)
      requires Valid()
      modifies this
      ensures updated == UpdatedRow(old(Contents()), id, payload)
      ensures UpdatedFile(old(Contents()), id, payload).None? ==> Contents() == old(Contents())
      ensures UpdatedFile(old(Contents()), id, payload).Some? ==>
        Contents() == UpdatedFile(old(Contents()), id, payload).value
      ensures Valid()
    {
      var t := WithoutDateColumns(Contents());
      UpdateOutcome(Contents(), id, payload);
      var found := FirstIndex(t.rows, IdIs(id));
      if found.None? {
        return None;
      }
      var i := found.value;
      var frame := PatchFrame(t.rows, i, t.columns, payload);
      columns, rows := t.columns, frame;
      updated := Some(frame[i]);
    }

    /** delete_employee: remove every row with the id and write the file
        back, returning the first removed row; nothing is written when the
        id is absent. */
    method DeleteEmployee(id: int) returns (deleted: Option<Row>)
      requires Valid()
      modifies this
      ensures deleted == FindEmployee(WithoutDateColumns(old(Contents())), id)
      ensures deleted.None? ==> Contents() == old(Contents())
      ensures deleted.Some? ==> Contents() == DeletedFile(old(Contents()), id)
      ensures Valid()
    {
      var t := WithoutDateColumns(Contents());
      DeleteOutcome(Contents(), id);
      var toDelete := Filter(t.rows, IdIs(id));
      if toDelete == [] {
        return None;
      }
      var kept := Filter(t.rows, IdIsNot(id));
      columns, rows := t.columns, kept;
      deleted := Some(toDelete[0]);
    }
  }

  /** update_employee's loop: `employee_data.at[index, key] = value` for
      each payload key that names a column, in any order. */
  method PatchFrame(frame: seq<Row>, i: nat, columns: seq<string>, payload: map<string, Value>)
    returns (result: seq<Row>)
    requires i < |frame|
    ensures result == frame[i := Patched(frame[i], columns, payload)]
  {
    result := frame;
    var pending := payload.Keys;
    assert Patched(frame[i], columns, payload - pending) == frame[i] by {
      assert payload - pending == map[];
    }
    while pending != {}
      invariant pending <= payload.Keys
      invariant |result| == |frame|
      invariant forall j :: 0 <= j < |result| && j != i ==> result[j] == frame[j]
      invariant result[i] == Patched(frame[i], columns, payload - pending)
      decreases pending
    {
      var key :| key in pending;
      PatchedStep(frame[i], columns, payload, pending, key);
      if key in columns {
        result := result[i := result[i][key := payload[key]]];
      }
      pending := pending - {key};
    }
    assert payload - pending == payload;
  }

  /** One pass of update_employee's loop: writing `key` extends the patch by
      that key. */
  lemma PatchedStep(row: Row, columns: seq<string>, payload: map<string, Value>, pending: set<string>, key: string)
    requires key in pending && pending <= payload.Keys
    ensures var before := Patched(row, columns, payload - pending);
      var after := Patched(row, columns, payload - (pending - {key}));
      after == if key in columns then before[key := payload[key]] else before
  {
    var before := Patched(row, columns, payload - pending);
    var after := Patched(row, columns, payload - (pending - {key}));
    var done := payload - pending;
    assert payload - (pending - {key}) == done[key := payload[key]];
    if key in columns {
      assert key in ColumnSet(columns);
      assert after == before[key := payload[key]];
    } else {
      assert key !in ColumnSet(columns);
      assert after == before;
    }
  }

  /** The create fields are distinct and none is a date column. */
  lemma CreateFieldsFit()
    ensures NoDup(CreateFields) && ColumnSet(CreateFields) !! DateColumns && IdColumn in CreateFields
  {
  }

  /** add_employee writes a well-formed table that reads back as written,
      with one row more than it read. */
  lemma AddedFileShape(file: Table, e: NewEmployee)
    requires EmployeeTable(file)
    ensures EmployeeTable(AddedFile(file, e))
    ensures WithoutDateColumns(AddedFile(file, e)) == AddedFile(file, e)
    ensures |AddedFile(file, e).rows| == |file.rows| + 1
  {
    var t := WithoutDateColumns(file);
    var a := AddedFile(file, e);
    assert EmployeeTable(t) by { LoadedEmployeeTable(file); }
    assert NoDup(CreateFields) && ColumnSet(CreateFields) !! DateColumns && IdColumn in CreateFields by {
      CreateFieldsFit();
    }
    assert EmployeeTable(a) by {
      ConcatWellFormed(t, CreateFields, CreateRow(e));
      assert IdColumn in ColumnSet(a.columns);
    }
    LoadWithoutDateColumns(a);
  }

  /** Appending keeps every loaded row's cells and header position, and the
      new last row carries the request's fields. */
  lemma AddedFileRows(file: Table, e: NewEmployee)
    requires EmployeeTable(file)
    ensures var t := WithoutDateColumns(file);
      var a := AddedFile(file, e);
      && a.columns[..|t.columns|] == t.columns
      && (forall i, c :: 0 <= i < |t.rows| && c in t.rows[i] ==> c in a.rows[i] && a.rows[i][c] == t.rows[i][c])
      && (forall k :: 0 <= k < |CreateFields| ==>
            CreateFields[k] in a.rows[|t.rows|] && a.rows[|t.rows|][CreateFields[k]] == CreateRow(e)[CreateFields[k]])
  {
    var t := WithoutDateColumns(file);
    var a := AddedFile(file, e);
    assert WellFormed(t) by { LoadedEmployeeTable(file); }
    assert a == Concat(t, CreateFields, CreateRow(e));
    forall i, c | 0 <= i < |t.rows| && c in t.rows[i]
      ensures c in a.rows[i] && a.rows[i][c] == t.rows[i][c]
    {
      assert c in ColumnSet(t.columns);
    }
  }

  /** Appending never shadows an existing employee: lookup finds the same
      row position as before, and a new id is found at the end. */
  lemma AddThenFind(file: Table, e: NewEmployee, id: int)
    requires EmployeeTable(file)
    ensures var t := WithoutDateColumns(file);
      var a := AddedFile(file, e);
      FirstIndex(a.rows, IdIs(id)) ==
        if FirstIndex(t.rows, IdIs(id)).Some? then FirstIndex(t.rows, IdIs(id))
        else if id == e.employeeId then Some(|t.rows|)
        else None
  {
    var t := WithoutDateColumns(file);
    var a := AddedFile(file, e);
    AddedIds(file, e, id);
    assert forall i :: 0 <= i < |t.rows| ==> IdIs(id)(a.rows[i]) == IdIs(id)(t.rows[i]);
    FirstIndexExtended(t.rows, a.rows, IdIs(id));
  }

  /** Appending keeps every loaded row's id, and the appended row has the
      request's id. */
  lemma AddedIds(file: Table, e: NewEmployee, id: int)
    requires EmployeeTable(file)
    ensures var t := WithoutDateColumns(file);
      var a := AddedFile(file, e);
      && |a.rows| == |t.rows| + 1
      && (forall i :: 0 <= i < |t.rows| ==> HasId(a.rows[i], id) == HasId(t.rows[i], id))
      && (HasId(a.rows[|t.rows|], id) <==> id == e.employeeId)
  {
    var t := WithoutDateColumns(file);
    var a := AddedFile(file, e);
    AddedFileRows(file, e);
    assert IdColumn in ColumnSet(t.columns) by {
      LoadedEmployeeTable(file);
    }
  }

  /** After an append, lookup finds an employee exactly when it was there
      before or has the appended id. */
  lemma AddThenFindSome(file: Table, e: NewEmployee, id: int)
    requires EmployeeTable(file)
    ensures FindEmployee(WithoutDateColumns(AddedFile(file, e)), id).Some? <==>
      FindEmployee(WithoutDateColumns(file), id).Some? || id == e.employeeId
  {
    AddedFileShape(file, e);
    AddThenFind(file, e, id);
  }

  /** An employee added under a fresh id is found again with the submitted
      field values. */
  lemma AddThenGet(file: Table, e: NewEmployee)
    requires EmployeeTable(file)
    requires FindEmployee(WithoutDateColumns(file), e.employeeId).None?
    ensures var found := FindEmployee(WithoutDateColumns(AddedFile(file, e)), e.employeeId);
      && found.Some?
      && forall k :: 0 <= k < |CreateFields| ==>
           CreateFields[k] in found.value && found.value[CreateFields[k]] == CreateRow(e)[CreateFields[k]]
  {
    var t := WithoutDateColumns(file);
    var a := AddedFile(file, e);
    assert EmployeeTable(a) && WithoutDateColumns(a) == a by { AddedFileShape(file, e); }
    assert FirstIndex(a.rows, IdIs(e.employeeId)) == Some(|t.rows|) by { AddThenFind(file, e, e.employeeId); }
    var last := a.rows[|t.rows|];
    assert forall k :: 0 <= k < |CreateFields| ==>
      CreateFields[k] in last && last[CreateFields[k]] == CreateRow(e)[CreateFields[k]] by {
      AddedFileRows(file, e);
    }
    assert FindEmployee(a, e.employeeId) == Some(last);
  }

  /** The outcome of delete_employee in closed form: the rows with the id
      are found first; when there are any, the file written is the loaded
      table keeping the other rows, and it is again an employee table. */
  lemma DeleteOutcome(file: Table, id: int)
    requires EmployeeTable(file)
    ensures var t := WithoutDateColumns(file);
      var toDelete := Filter(t.rows, IdIs(id));
      && (toDelete == [] <==> FindEmployee(t, id).None?)
      && (toDelete != [] ==>
            && FindEmployee(t, id) == Some(toDelete[0])
            && DeletedFile(file, id) == Table(t.columns, Filter(t.rows, IdIsNot(id)))
            && EmployeeTable(DeletedFile(file, id)))
  {
    var t := WithoutDateColumns(file);
    FilterHeadIsFirstMatch(t.rows, IdIs(id));
    DeletedFileShape(file, id);
  }

  /** delete_employee writes a well-formed table that reads back as written:
      the loaded rows without the id, in their original order. */
  lemma DeletedFileShape(file: Table, id: int)
    requires EmployeeTable(file)
    ensures var t := WithoutDateColumns(file);
      var d := DeletedFile(file, id);
      var kept := MatchingIndices(t.rows, IdIsNot(id));
      && EmployeeTable(d)
      && WithoutDateColumns(d) == d
      && d.columns == t.columns
      && |d.rows| == |kept|
      && (forall k :: 0 <= k < |d.rows| ==> d.rows[k] == t.rows[kept[k]])
      && (forall row :: row in d.rows <==> row in t.rows && !HasId(row, id))
  {
    var t := WithoutDateColumns(file);
    var d := DeletedFile(file, id);
    LoadedEmployeeTable(file);
    FilterIsMatchingPositions(t.rows, IdIsNot(id));
    forall row ensures row in d.rows <==> row in t.rows && !HasId(row, id) {
      FilterMembers(t.rows, IdIsNot(id), row);
    }
    forall i | 0 <= i < |d.rows| ensures d.rows[i].Keys == ColumnSet(d.columns) {
      assert d.rows[i] in t.rows;
    }
    assert ColumnSet(d.columns) !! DateColumns;
    LoadWithoutDateColumns(d);
  }

  /** After a delete the id is gone, and every other id is found as before. */
  lemma DeleteThenFind(file: Table, id: int, other: int)
    requires EmployeeTable(file)
    ensures FindEmployee(WithoutDateColumns(DeletedFile(file, id)), id).None?
    ensures other != id ==>
      FindEmployee(WithoutDateColumns(DeletedFile(file, id)), other) == FindEmployee(WithoutDateColumns(file), other)
  {
    var t := WithoutDateColumns(file);
    var d := DeletedFile(file, id);
    assert WithoutDateColumns(d) == d by {
      DeletedFileShape(file, id);
    }
    forall k | 0 <= k < |d.rows| ensures !HasId(d.rows[k], id) {
      assert d.rows[k] in d.rows;
    }
    if other != id {
      FirstIndexOfFilter(t.rows, IdIsNot(id), IdIs(other));
    }
  }

  /** On a row that has exactly the header's columns, patching keeps the
      columns and changes just the cells the payload names. */
  lemma PatchedCells(row: Row, columns: seq<string>, payload: map<string, Value>)
    requires row.Keys == ColumnSet(columns)
    ensures Patched(row, columns, payload).Keys == row.Keys
    ensures forall c :: c in row ==>
      Patched(row, columns, payload)[c] == if c in payload then payload[c] else row[c]
  {
  }

  /** update_employee writes a well-formed table that reads back as
      written, and writes nothing exactly when no row has the id. */
  lemma UpdatedFileShape(file: Table, id: int, payload: map<string, Value>)
    requires EmployeeTable(file)
    ensures UpdatedFile(file, id, payload).None? <==> FindEmployee(WithoutDateColumns(file), id).None?
    ensures UpdatedFile(file, id, payload).None? <==> UpdatedRow(file, id, payload).None?
    ensures UpdatedFile(file, id, payload).Some? ==>
      && EmployeeTable(UpdatedFile(file, id, payload).value)
      && WithoutDateColumns(UpdatedFile(file, id, payload).value) == UpdatedFile(file, id, payload).value
  {
    var t := WithoutDateColumns(file);
    match FirstIndex(t.rows, IdIs(id))
    case None =>
    case Some(i) =>
      assert UpdatedFile(file, id, payload) == Some(Table(t.columns, t.rows[i := Patched(t.rows[i], t.columns, payload)]));
      assert EmployeeTable(t) by { LoadedEmployeeTable(file); }
      PatchedTable(t, i, payload);
  }

  /** Patching one row of an employee table without date columns keeps it
      one, and it reads back unchanged. */
  lemma PatchedTable(t: Table, i: nat, payload: map<string, Value>)
    requires EmployeeTable(t) && ColumnSet(t.columns) !! DateColumns && i < |t.rows|
    ensures var u := Table(t.columns, t.rows[i := Patched(t.rows[i], t.columns, payload)]);
      EmployeeTable(u) && WithoutDateColumns(u) == u
  {
    var u := Table(t.columns, t.rows[i := Patched(t.rows[i], t.columns, payload)]);
    assert WellFormed(u) by {
      PatchedCells(t.rows[i], t.columns, payload);
    }
    LoadWithoutDateColumns(u);
  }

  /** The outcome of update_employee in closed form: nothing when no row
      has the id, otherwise the loaded table with its first such row
      patched, which is again an employee table. */
  lemma UpdateOutcome(file: Table, id: int, payload: map<string, Value>)
    requires EmployeeTable(file)
    ensures var t := WithoutDateColumns(file);
      match FirstIndex(t.rows, IdIs(id))
      case None => UpdatedFile(file, id, payload).None? && UpdatedRow(file, id, payload).None?
      case Some(i) =>
        var patched := Patched(t.rows[i], t.columns, payload);
        && UpdatedFile(file, id, payload) == Some(Table(t.columns, t.rows[i := patched]))
        && UpdatedRow(file, id, payload) == Some(patched)
        && EmployeeTable(Table(t.columns, t.rows[i := patched]))
  {
    var t := WithoutDateColumns(file);
    match FirstIndex(t.rows, IdIs(id))
    case None =>
      assert FindEmployee(t, id).None?;
    case Some(i) =>
      assert FindEmployee(t, id) == Some(t.rows[i]);
      UpdatedFileShape(file, id, payload);
  }

  /** update_employee changes only the first row with the id, and in it only
      the cells the payload names; the returned row is the row written. */
  lemma UpdatedFileRows(file: Table, id: int, payload: map<string, Value>)
    requires EmployeeTable(file)
    ensures var t := WithoutDateColumns(file);
      var u := UpdatedFile(file, id, payload);
      u.Some? ==>
        var i := FirstIndex(t.rows, IdIs(id)).value;
        && u.value.columns == t.columns
        && |u.value.rows| == |t.rows|
        && (forall j :: 0 <= j < |t.rows| && j != i ==> u.value.rows[j] == t.rows[j])
        && u.value.rows[i].Keys == t.rows[i].Keys
        && (forall c :: c in t.rows[i] ==>
              u.value.rows[i][c] == if c in payload then payload[c] else t.rows[i][c])
        && UpdatedRow(file, id, payload) == Some(u.value.rows[i])
  {
    var t := WithoutDateColumns(file);
    match FirstIndex(t.rows, IdIs(id))
    case None =>
    case Some(i) =>
      assert EmployeeTable(t) by { LoadedEmployeeTable(file); }
      PatchedCells(t.rows[i], t.columns, payload);
  }

  /** When the payload keeps the id, lookup after the update finds the
      returned row. */
  lemma UpdateThenFind(file: Table, id: int, payload: map<string, Value>)
    requires EmployeeTable(file)
    requires IdColumn in payload ==> payload[IdColumn] == Int(id)
    ensures UpdatedFile(file, id, payload).Some? ==>
      FindEmployee(WithoutDateColumns(UpdatedFile(file, id, payload).value), id) == UpdatedRow(file, id, payload)
  {
    var t := WithoutDateColumns(file);
    if UpdatedFile(file, id, payload).Some? {
      var u := UpdatedFile(file, id, payload).value;
      var i := FirstIndex(t.rows, IdIs(id)).value;
      assert WithoutDateColumns(u) == u by { UpdatedFileShape(file, id, payload); }
      assert UpdatedRow(file, id, payload) == Some(u.rows[i]) by { UpdatedFileRows(file, id, payload); }
      UpdateKeepsFirstIndex(file, id, payload);
    }
  }

  /** An update whose patch leaves the first row with the id as it is
      writes back the file it read. */
  lemma UpdatedFileUnchanged(u: Table, id: int, payload: map<string, Value>, i: nat)
    requires WithoutDateColumns(u) == u
    requires FirstIndex(u.rows, IdIs(id)) == Some(i)
    requires Patched(u.rows[i], u.columns, payload) == u.rows[i]
    ensures UpdatedFile(u, id, payload) == Some(u)
  {
    assert u.rows[i := u.rows[i]] == u.rows;
  }

  /** Patching twice with one payload is patching once. */
  lemma PatchedTwice(row: Row, columns: seq<string>, payload: map<string, Value>)
    ensures Patched(Patched(row, columns, payload), columns, payload) == Patched(row, columns, payload)
  {
    var once := Patched(row, columns, payload);
    assert Patched(once, columns, payload).Keys == once.Keys;
  }

  /** When the payload keeps the id, the updated row stays the first row
      with that id. */
  lemma UpdateKeepsFirstIndex(file: Table, id: int, payload: map<string, Value>)
    requires EmployeeTable(file)
    requires IdColumn in payload ==> payload[IdColumn] == Int(id)
    requires UpdatedFile(file, id, payload).Some?
    ensures var t := WithoutDateColumns(file);
      FirstIndex(UpdatedFile(file, id, payload).value.rows, IdIs(id)) == FirstIndex(t.rows, IdIs(id))
  {
    var t := WithoutDateColumns(file);
    var u := UpdatedFile(file, id, payload).value;
    var i := FirstIndex(t.rows, IdIs(id)).value;
    assert IdColumn in t.rows[i];
    assert u.rows == t.rows[i := u.rows[i]] by {
      UpdatedFileRows(file, id, payload);
    }
    FirstIndexReplaced(t.rows, i, u.rows[i], IdIs(id));
  }

  /** Repeating an update that keeps the id changes nothing more. */
  lemma UpdateIdempotent(file: Table, id: int, payload: map<string, Value>)
    requires EmployeeTable(file)
    requires IdColumn in payload ==> payload[IdColumn] == Int(id)
    ensures UpdatedFile(file, id, payload).Some? ==>
      var u := UpdatedFile(file, id, payload).value;
      UpdatedFile(u, id, payload) == Some(u)
  {
    var t := WithoutDateColumns(file);
    if UpdatedFile(file, id, payload).Some? {
      var u := UpdatedFile(file, id, payload).value;
      var i := FirstIndex(t.rows, IdIs(id)).value;
      assert WithoutDateColumns(u) == u by { UpdatedFileShape(file, id, payload); }
      assert FirstIndex(u.rows, IdIs(id)) == Some(i) by { UpdateKeepsFirstIndex(file, id, payload); }
      assert Patched(u.rows[i], u.columns, payload) == u.rows[i] by {
        assert u.rows[i] == Patched(t.rows[i], t.columns, payload) && u.columns == t.columns;
        PatchedTwice(t.rows[i], t.columns, payload);
      }
      UpdatedFileUnchanged(u, id, payload, i);
    }
  }
}
