# Employee and department services, modelled in Dafny

This project models the two service modules of a small employee-records
web service. Both work on a CSV file of employees and a CSV file of monthly
salary records.

- **Employee store** (`src/services/employee_service.py`):
  - lookup by EmployeeID, with start and end dates taken from the salary ledger;
  - append, partial update and delete, each of which reads the employee file
    and writes it back;
  - the case-insensitive department listing;
  - the three salary-ledger queries: average salary (the sum and count of the salaries, or none),
    months of service and years of service.
- **Department queries** (`src/services/department_service.py`): the
  distinct departments, and the employees of one department by exact name.

The model is split into these files:

- `seqs.dfy` (`Seqs`): the boolean-mask filter, the first match, pandas
  `unique`, ASCII lower-casing, and stripping whitespace from both ends of
  a text.
- `tables.dfy` (`Tables`): the file contents as a `Table`. A table is a
  header plus rows, and each row maps column names to cells. The module
  also models the pandas operations the services use: dropping the date
  columns on read, `concat`, column selection and projection.
- `dates.dfy` (`Dates`): parsing `"<day> <Month> <Year>"` with `%d %B %Y`.
- `service_text.dfy` (`ServiceText`): the years-of-service text, and a
  reader that inverts it.
- `employee_service.dfy` (`EmployeeService`): the employee store.
  - The class `EmployeeFile` holds the file's header and rows.
  - Its methods `AddEmployee`, `UpdateEmployee` and `DeleteEmployee`
    rewrite the file.
  - Each method is specified by a function of the file it read:
    `AddedFile`, `UpdatedFile`/`UpdatedRow` and `DeletedFile`. The lemmas
    are stated about those functions.
  - `PatchFrame` is the update loop. It writes each payload key that names
    a column, in any key order.
- `department_service.dfy` (`DepartmentService`): the department queries.

Every employee-store operation reads the file without its `Start_Date` and
`End_Date` columns (`WithoutDateColumns`). So every file it writes back
lacks them. The department service reads every column.

The file contents, the salary ledger and the payloads are parameters.

## Model

| member | source | states |
|---|---|---|
| Tables.WithoutDateColumns | src/services/employee_service.py:13-15 | the loaded table has the file's columns minus Start_Date/End_Date, the same number of rows, and each row without those two cells |
| Tables.WithoutDateColumnsOrder | src/services/employee_service.py:14 | the loaded header keeps the file's column order: its k-th column is the file's k-th column that is not a date column |
| Tables.WithoutDateColumnsWellFormed | src/services/employee_service.py:14 | dropping the date columns keeps a table well formed |
| Tables.WithoutDateColumnsIdempotent | src/services/employee_service.py:14 | reading a file the store wrote back drops nothing more |
| EmployeeService.LoadedEmployeeTable | src/services/employee_service.py:14 | the loaded table still has an EmployeeID column and is well formed |
| EmployeeService.LoadWithoutDateColumns | src/services/employee_service.py:14 | a table without date columns loads unchanged |
| EmployeeService.AllEmployees | src/services/employee_service.py:29-33 | one record per file row, in order, holding every cell except the two dates |
| Seqs.Filter | src/services/employee_service.py:42 | a boolean mask keeps only matching elements, each taken from the input |
| Seqs.MatchingIndices | src/services/employee_service.py:42 | the matching positions are ascending, each one matches, and no matching position is missing |
| Seqs.FilterIsMatchingPositions | src/services/employee_service.py:42 | the k-th element of the mask result is the element at the k-th matching position |
| Seqs.SameMaskSameIndices | src/services/employee_service.py:42 | two sequences with the same mask have the same matching positions |
| Seqs.FilterEmptyIff | src/services/employee_service.py:43 | the selection is empty exactly when no element matches |
| Seqs.FilterMembers | src/services/employee_service.py:106 | an element survives the mask exactly when it is in the input and matches |
| Seqs.FilterKeepsAll | src/services/employee_service.py:106 | a mask every element passes keeps the whole sequence |
| Seqs.FilterNoDup | src/services/employee_service.py:14 | masking a duplicate-free header gives a duplicate-free header |
| Seqs.FirstIndex | src/services/employee_service.py:46 | None exactly when nothing matches; otherwise a matching index with no match before it |
| Seqs.FirstIndexAt | src/services/employee_service.py:46 | a matching position with no earlier match is the first index |
| Seqs.FirstIndexExtended | src/services/employee_service.py:73 | appending one element keeps an existing first match, and otherwise the new element is the first match if it matches |
| Seqs.FirstIndexReplaced | src/services/employee_service.py:92 | replacing the first match by another match keeps the first index |
| Seqs.FilterHeadIsFirstMatch | src/services/employee_service.py:110 | `iloc[0]` of the selection is the element at the first matching index, and the selection is empty exactly when there is none |
| EmployeeService.FindEmployee | src/services/employee_service.py:42-46 | None exactly when no row has the id; otherwise a row that has the id and no earlier row does |
| EmployeeService.HasId | src/services/employee_service.py:42 | a row passes `df['EmployeeID'] == id` exactly when its EmployeeID cell is the integer id; a row without that cell passes for no id |
| EmployeeService.CreateRow | src/services/employee_service.py:72 | the one-row frame has exactly the seven request fields, and its EmployeeID is the request's |
| EmployeeService.SalaryRowsOf | src/services/employee_service.py:48 | only the id's salary rows, and none exactly when the ledger lacks the id |
| Dates.MonthFrom | src/services/employee_service.py:53 | the first month from m on whose name is the key, or None exactly when no month from m on has that name |
| Dates.MonthNumber | src/services/employee_service.py:53 | a recognised month name gives a number from 1 to 12 |
| Seqs.Trim | src/services/employee_service.py:53 | the result has no whitespace at either end |
| Seqs.TrimSlice | src/services/employee_service.py:53 | the result is a slice of the text with only whitespace cut off before and after it |
| Seqs.TrimPadded | src/services/employee_service.py:53 | whitespace around a text without surrounding whitespace is removed, and nothing else |
| Seqs.TrimOfTrimmed | src/services/employee_service.py:53 | a text without surrounding whitespace is unchanged |
| Dates.MonthNumberNames | src/services/employee_service.py:53 | a text gives month m exactly when, stripped of surrounding whitespace, it lower-cases to that month's name |
| Dates.MonthNumberPadded | src/services/employee_service.py:53 | whitespace before or after the month name does not change which month it names, since each space of `'%d %B %Y'` matches a run of whitespace |
| Dates.LeadingSpaceMonth | src/services/employee_service.py:53 | " January" names month 1 |
| Dates.UpperCaseMonth | src/services/employee_service.py:53 | "JANUARY" names month 1 |
| Dates.TrailingSpaceMonth | src/services/employee_service.py:53 | "january " names month 1 |
| Seqs.LowerIgnoresCase | src/services/employee_service.py:116 | two texts lower-case to the same text exactly when they have the same length and differ at most in the case of ASCII letters |
| Seqs.LowerCharIgnoresCase | src/services/employee_service.py:116 | two characters lower-case alike exactly when they are equal or the same ASCII letter in the other case |
| Seqs.LowerTwice | src/services/employee_service.py:116 | lower-casing an already lower-cased text changes nothing |
| Dates.DaysInMonth | src/services/employee_service.py:54 | 28 to 31 days, and at least 30 exactly when the month is not February |
| Dates.ParseDate | src/services/employee_service.py:53-54 | the date parses exactly when the month name is known (ignoring case and surrounding whitespace), the year has four digits and the day exists in that month; a day error only arises after month and year matched |
| Dates.FirstAndThirtiethParse | src/services/employee_service.py:53-54 | day 1 always exists; day 30 exists exactly when the month is not February |
| EmployeeService.GetEmployeeById | src/services/employee_service.py:37-62 | Ok(None) exactly when no row has the id; otherwise the first row's fields, with no dates when the id has no salary rows, and otherwise day 1 of the first and day 30 of the last salary row's month |
| EmployeeService.GetEmployeeByIdFails | src/services/employee_service.py:48-54 | the lookup raises exactly when the employee exists and has salary rows, and the first or last row has an unknown month or year, or the last is a February |
| EmployeeService.SumSalaries | src/services/employee_service.py:131 | the total of the salaries of the given rows |
| EmployeeService.SumSalariesAppend | src/services/employee_service.py:131 | the total over two stretches of rows is the sum of their totals |
| EmployeeService.SumSalariesBounds | src/services/employee_service.py:131 | salaries within [lo, hi] total between n·lo and n·hi for n rows |
| EmployeeService.AvgSalaryTotals | src/services/employee_service.py:122-133 | no average exactly when the ledger lacks the id; otherwise a positive count equal to the months of service |
| EmployeeService.AvgSalaryBounds | src/services/employee_service.py:126-131 | the mean lies between any lower and upper bound of the employee's salaries: count·lo <= sum <= count·hi |
| EmployeeService.AvgSalaryExample | src/services/employee_service.py:126-131 | salaries 1000, 2000 and 3000 give sum 6000 over 3 rows |
| EmployeeService.MonthsOfService | src/services/employee_service.py:137-146 | zero exactly when the ledger lacks the id |
| EmployeeService.MonthsOfServiceCountsId | src/services/employee_service.py:140-146 | months of service is the number of times the id occurs in the ledger |
| EmployeeService.ServiceSpan | src/services/employee_service.py:157-163 | the span fails exactly when day 1 of the first row or day 30 of the last row does not parse; otherwise it is the inclusive number of months from the first row's month to the last row's |
| Dates.MonthSpan | src/services/employee_service.py:163 | (end year − start year)·12 + (end month − start month + 1) is the distance between the two month indices plus one |
| EmployeeService.YearsOfService | src/services/employee_service.py:149-173 | the fixed notice when there are no salary rows; an error exactly when a date fails to parse; otherwise the text for the inclusive month span from the first to the last row |
| EmployeeService.ConsecutiveSpan | src/services/employee_service.py:163 | on gap-free consecutive months the inclusive span equals the number of rows |
| EmployeeService.YearsOfServiceSpellsMonths | src/services/employee_service.py:157-173 | on a gap-free ledger not ending in February, years of service is the text of months of service and reads back as it |
| EmployeeService.SalaryQueriesAgreeOnAbsence | src/services/employee_service.py:126-155 | no average exactly when months of service is zero, and exactly then the years text is the notice |
| ServiceText.Decimal | src/services/employee_service.py:169-173 | the rendering of a natural number is a non-empty digit string that starts with 0 only for zero |
| ServiceText.DecimalValue | src/services/employee_service.py:169-173 | the digits of `str(n)` denote n |
| ServiceText.LeadingDigits | src/services/employee_service.py:169-173 | the longest all-digit prefix, followed by a non-digit or the end |
| ServiceText.ReadDecimal | src/services/employee_service.py:169-173 | a number followed by a non-digit reads back as that number |
| ServiceText.Spell | src/services/employee_service.py:168-173 | the text for years and months is never empty and starts with a digit |
| ServiceText.ReadSpell | src/services/employee_service.py:168-173 | each of the three text shapes reads back as 12·years + months |
| ServiceText.Format | src/services/employee_service.py:165-173 | the text for a month total, split by floor division and remainder by 12, starts with a digit |
| EmployeeService.NoticeStartsWithLetter | src/services/employee_service.py:155 | the notice text starts with a letter |
| EmployeeService.DurationIsNotNotice | src/services/employee_service.py:155-173 | a computed duration is never the notice |
| ServiceText.ReadMonthsOnly | src/services/employee_service.py:173 | "M months" reads back as M |
| ServiceText.ReadYearsOnly | src/services/employee_service.py:171 | "Y years" reads back as 12·Y |
| ServiceText.ReadUnitsYearsAnd | src/services/employee_service.py:169 | after " years and ", the reader reads the months part |
| ServiceText.ReadMonthsTail | src/services/employee_service.py:169 | the months part of "Y years and M months" reads back as 12·Y + M |
| ServiceText.ReadYearsAndMonths | src/services/employee_service.py:169 | "Y years and M months" reads back as 12·Y + M |
| ServiceText.FormatRoundTrip | src/services/employee_service.py:163-173 | the text reads back as the total (years·12 + months) for a non-negative total, and as total mod 12 otherwise |
| ServiceText.FormatExamples | src/services/employee_service.py:168-173 | 14, 12 and 2 months give "1 years and 2 months", "1 years" and "2 months" |
| Tables.WidenOwnHeader | src/services/employee_service.py:73 | a row that already has exactly the header's columns is laid out on it unchanged |
| Tables.WidenTwice | src/services/employee_service.py:73 | laying a row out on a header twice is laying it out once |
| Tables.Concat | src/services/employee_service.py:72-73 | the old header comes first, the columns are the union, and there is one row more; old cells are kept, new columns are Missing, and the last row carries the request |
| Tables.ConcatOrder | src/services/employee_service.py:72-73 | the columns added after the old header come in the order of the request's fields: the k-th added column is the k-th field the old header lacks |
| Tables.ConcatWellFormed | src/services/employee_service.py:73 | appending keeps the table well formed |
| Tables.ConcatKnownFields | src/services/employee_service.py:73 | when the header has every field, the append only adds a row at the end |
| Seqs.NoDupAppend | src/services/employee_service.py:73 | joining two disjoint duplicate-free headers gives a duplicate-free header |
| EmployeeService.CreateFieldsFit | src/services/employee_service.py:72 | the request fields are distinct, are not date columns, and include EmployeeID |
| EmployeeService.AddedFile | src/services/employee_service.py:72-75 | the written file has one row more than the file read, and its last row holds every request field with the submitted value, the request's EmployeeID included |
| EmployeeService.EmployeeFile.AddEmployee | src/services/employee_service.py:68-77 | the file becomes the loaded table with the request appended, even if the id already exists; it returns the request's id and the success message |
| EmployeeService.AddedFileShape | src/services/employee_service.py:70-75 | the written file is a valid employee table, reads back as written, and has one row more |
| EmployeeService.AddedFileRows | src/services/employee_service.py:72-73 | earlier rows keep their cells and the new last row holds the submitted fields |
| EmployeeService.AddThenFind | src/services/employee_service.py:70-75 | lookup finds the same position as before the append; a new id is found at the end |
| EmployeeService.AddedIds | src/services/employee_service.py:72-73 | every loaded row keeps its EmployeeID, and the appended row has the request's |
| EmployeeService.AddThenFindSome | src/services/employee_service.py:70-75 | after an append an id is found exactly when it was there before or is the appended id |
| EmployeeService.AddThenGet | src/services/employee_service.py:70-75 | an employee added under a fresh id is found with the submitted field values |
| EmployeeService.Patched | src/services/employee_service.py:90-92 | the patched row's columns are the row's plus the payload keys that name columns |
| EmployeeService.PatchedStep | src/services/employee_service.py:90-92 | writing one more key that names a column sets that cell; a key that names no column changes nothing |
| EmployeeService.PatchedCells | src/services/employee_service.py:90-92 | on a full row, patching keeps the columns and changes just the cells the payload names |
| EmployeeService.PatchedTwice | src/services/employee_service.py:90-92 | patching twice with one payload is patching once |
| EmployeeService.PatchFrame | src/services/employee_service.py:90-92 | after the loop, only the chosen row has changed, and it is patched by the whole payload, whatever the key order |
| EmployeeService.UpdatedRow | src/services/employee_service.py:89-96 | None exactly when no row has the id; otherwise every cell of the first row with the id is kept, and takes the payload's value when the payload names it and it is a column |
| EmployeeService.UpdatedFile | src/services/employee_service.py:85-94 | None exactly when no row has the id; otherwise the loaded columns and the same number of rows, with every row except the first one with the id unchanged |
| EmployeeService.UpdateOutcome | src/services/employee_service.py:85-96 | nothing when no row has the id; otherwise the loaded table with its first such row patched, again a valid employee table, and that patched row returned |
| EmployeeService.PatchedTable | src/services/employee_service.py:89-94 | patching one row of a valid employee table without date columns keeps it valid, and it reads back unchanged |
| EmployeeService.EmployeeFile.UpdateEmployee | src/services/employee_service.py:81-96 | with no row for the id, it returns None and the file is unchanged; otherwise the file becomes the updated table and the returned row is the patched first row for the id |
| EmployeeService.UpdatedFileShape | src/services/employee_service.py:85-94 | nothing is written exactly when no row has the id; otherwise the written file is a valid employee table that reads back as written |
| EmployeeService.UpdatedFileRows | src/services/employee_service.py:89-96 | only the first row with the id changes, and in it only the cells the payload names; the returned row is the row written |
| EmployeeService.UpdateKeepsFirstIndex | src/services/employee_service.py:89-92 | when the payload keeps the id, the updated row stays the first row with that id |
| EmployeeService.UpdateThenFind | src/services/employee_service.py:89-96 | when the payload keeps the id, a later lookup returns the returned row |
| EmployeeService.UpdatedFileUnchanged | src/services/employee_service.py:89-94 | an update whose patch changes nothing writes back the file it read |
| EmployeeService.UpdateIdempotent | src/services/employee_service.py:89-94 | repeating an update that keeps the id changes nothing more |
| EmployeeService.EmployeeFile.DeleteEmployee | src/services/employee_service.py:100-110 | it returns the first row with the id; when there is none the file is unchanged, and otherwise the file becomes the loaded table without that id |
| EmployeeService.DeletedFile | src/services/employee_service.py:106-108 | the loaded columns; no kept row has the id, and a row is kept exactly when it was loaded and lacks the id |
| EmployeeService.DeleteOutcome | src/services/employee_service.py:102-110 | the rows with the id are empty exactly when lookup finds nothing; otherwise the first of them is the returned row, and the written file is the loaded table without the id, again a valid employee table |
| EmployeeService.DeletedFileShape | src/services/employee_service.py:102-108 | the written file is a valid employee table that reads back as written; its rows are the loaded rows without the id, in their original order |
| EmployeeService.DeleteThenFind | src/services/employee_service.py:102-108 | after a delete the id is not found, and every other id is found as before |
| EmployeeService.SummaryColumnsSurviveLoad | src/services/employee_service.py:115-118 | the five summary columns survive dropping the date columns |
| EmployeeService.LoadKeepsSummary | src/services/employee_service.py:115-118 | dropping the date columns changes neither a row's department match nor its summary cells |
| EmployeeService.DepartmentMatches | src/services/employee_service.py:116 | a row matches exactly when its Department cell is text equal to the name up to the case of ASCII letters |
| DepartmentService.InDepartment | src/services/department_service.py:25 | a row matches exactly when its Department cell is the text of the name, case included; a missing cell matches nothing |
| EmployeeService.DepartmentFiltersCompared | src/services/employee_service.py:116 | every exact department match is a match ignoring case; "Sales" matches "SALES" ignoring case but not exactly, and never matches "Sale" |
| Tables.ProjectAll | src/services/employee_service.py:118 | selecting every column of a row gives the row back |
| Tables.ProjectTwice | src/services/employee_service.py:118 | selecting the same columns twice is selecting them once |
| Tables.SelectWhere | src/services/employee_service.py:116-118 | every record has exactly the requested fields, and the result is empty exactly when no row matches |
| Tables.SelectWhereIsMatchingRows | src/services/employee_service.py:116-118 | the k-th record is the projection of the row at the k-th matching position |
| EmployeeService.DepartmentEmployees | src/services/employee_service.py:113-119 | records with exactly the five summary fields, empty exactly when no department matches ignoring case |
| EmployeeService.DepartmentEmployeesAreMatchingRows | src/services/employee_service.py:116-118 | exactly the rows matching ignoring case, in file order, each cut down to the summary fields |
| Seqs.Distinct | src/services/department_service.py:18 | every value of the input appears, only input values appear, and none twice |
| Seqs.IndexOf | src/services/department_service.py:18 | the position of the first occurrence |
| Seqs.DistinctNoLonger | src/services/department_service.py:18 | there are no more distinct values than values |
| Seqs.DistinctFirstAppearanceOrder | src/services/department_service.py:18 | distinct values are listed in the order of their first occurrence |
| DepartmentService.AllDepartments | src/services/department_service.py:15-19 | each department occurring in the file is listed exactly once, nothing else is listed, and there are no more entries than rows |
| DepartmentService.FirstRowOf | src/services/department_service.py:18 | the first row that has the department |
| DepartmentService.AllDepartmentsInFirstAppearanceOrder | src/services/department_service.py:18 | departments are listed in the order of the rows where each first occurs |
| DepartmentService.EmployeesByDepartment | src/services/department_service.py:22-29 | records with exactly the five summary fields, empty exactly when no row's department equals the name exactly |
| DepartmentService.EmployeesByDepartmentAreMatchingRows | src/services/department_service.py:24-28 | exactly the rows whose department equals the name, in file order, with their cells copied |
| DepartmentService.EmployeesByDepartmentAllInDepartment | src/services/department_service.py:25-28 | every listed record carries the department asked for |
| EmployeeService.FebruaryLedgerFails | src/services/employee_service.py:161 | as written, a ledger that ends in February 2023 makes years of service fail on 30 February |
| EmployeeService.FebruarySpanFails | src/services/employee_service.py:161 | as written, the month span of that ledger stops at the missing 30 February |
| EmployeeService.FebruaryEmployeeFails | src/services/employee_service.py:54 | as written, looking up an employee with that ledger fails |
| EmployeeService.EndDate | src/services/employee_service.py:54 | the corrected end date parses exactly when the month and year parse; its day is 30, or the month's last day when the month is shorter; outside February it is the as-written day-30 date |
| EmployeeService.GetEmployeeByIdCorrected | src/services/employee_service.py:37-62 | the lookup with the corrected end date fails only for an unknown month or year |
| EmployeeService.GetEmployeeByIdCorrectedAgrees | src/services/employee_service.py:53-60 | wherever the original answers, the correction gives the identical result |
| EmployeeService.ServiceSpanCorrected | src/services/employee_service.py:157-163 | with the corrected end date, the span succeeds exactly when both month names and years parse, and is the inclusive number of months |
| EmployeeService.YearsOfServiceCorrected | src/services/employee_service.py:149-173 | years of service with the corrected end date fails only for an unknown month or year, and otherwise is the text of the inclusive month span |
| EmployeeService.YearsOfServiceCorrectedAgrees | src/services/employee_service.py:160-163 | wherever the original answers, the correction gives the same text |
| EmployeeService.YearsOfServiceCorrectedSpellsMonths | src/services/employee_service.py:157-173 | corrected, the text is months of service for any gap-free ledger, February or not |
| EmployeeService.FebruaryLedgerCorrected | src/services/employee_service.py:161 | corrected, the February ledger gives "2 months" |
| EmployeeService.FebruaryLedgerSpan | src/services/employee_service.py:161-163 | corrected, the February ledger spans two months |

## Left out

- Reading and writing the CSV files is not modelled (`read_csv`, `on_bad_lines='skip'`, `to_csv`). The file contents are a `Table` value, and the salary file is a sequence of typed rows.
- Cell types are not re-inferred when a file is written and read back. For example, an integer column with a missing cell turns into floats.
- EmployeeService.AvgSalaryTotals: returns the sum and count of the salaries, not the float mean rounded to two places. Floating point is outside the model.
- Dates.ParseDate: does not model pandas' Timestamp range (years 1677 to 2262). It accepts every four-digit year.
- Seqs.Lower: lower-cases ASCII letters only. Python's Unicode case mapping is not modelled, so department names with non-ASCII letters are compared as given. The same holds for month names, which Dates.MonthNumber lower-cases with Lower: the source's case-insensitive `%B` match also accepts a few non-ASCII letters (for example U+017F, long s, for `s`), and the model rejects those names.
- The `strftime('%d/%m/%Y')` text of the start and end dates is not modelled. The dates are kept as `Date` values.
- EmployeeService.DepartmentEmployees: a department cell that is not text never matches. pandas' `.str` accessor on a column with no text values raises instead, and that error is not modelled.
- A missing EmployeeID column (a pandas `KeyError`) is not modelled as an error. GetEmployeeById, GetEmployeeByIdCorrected and the update and delete methods of `EmployeeFile` require the column, where the source raises. FindEmployee is stated for any table, and matches no id in a row without the cell.
- EmployeeService.EmployeeFile.AddEmployee: requires the EmployeeID column as part of the class invariant, although add_employee accepts a file without it (`concat` adds the column). AddedFile itself has no precondition.
- A missing Department or summary column is not modelled as an error either. The department queries require those columns.
- Seqs.Trim: strips ASCII whitespace only (space, tab, line feed, vertical tab, form feed, carriage return). Other characters that Python's `\s` matches (U+001C to U+001F and Unicode spaces) are kept, so a month name padded with it does not parse in the model.
- update_employee uses the row label as a position. The model treats them as one, which holds for the default index `read_csv` produces.
- get_all_employees converts cells to JSON-compatible values. That conversion is not modelled.
- The HTTP layer is not part of this model: routing, 404/500 mapping and request validation. Neither are the schema classes beyond the shape of a creation request, or server startup.
- Concurrent requests are not modelled, including lost updates between read-modify-write sequences.

## Findings

| source | as written | input that shows it | evidently intended | confidence | as-written member | corrected member |
|---|---|---|---|---|---|---|
| src/services/employee_service.py:161 | the end date is parsed as day 30 of the last salary month, and "30 February" raises | salary rows for one employee in January and February 2023 | an end date on day 30, or on the month's last day when the month is shorter; only month and year enter the total | high, not executed | EmployeeService.FebruaryLedgerFails | EmployeeService.YearsOfServiceCorrected |
| src/services/employee_service.py:54 | the End_Date of an employee lookup is day 30 of the last salary month, and "30 February" raises | an employee 7 with the same two salary rows | End_Date on day 30, or on the month's last day when the month is shorter (February) | high, not executed | EmployeeService.FebruaryEmployeeFails | EmployeeService.GetEmployeeByIdCorrected |
