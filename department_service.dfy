/** The department queries (src/services/department_service.py). They read
    the employee file with every column, Start_Date and End_Date included,
    and match department names exactly. */
module DepartmentService {
  import opened Seqs
  import opened Tables

  /** get_all_departments: the values of the Department column, each once,
      in order of first appearance (`df['Department'].unique()`). A missing
      department counts as one value of its own. */
  function AllDepartments(file: Table): (r: seq<Value>)
    requires WellFormed(file) && DepartmentColumn in file.columns
    ensures NoDup(r)
    ensures |r| <= |file.rows|
    ensures forall i :: 0 <= i < |file.rows| ==> file.rows[i][DepartmentColumn] in r
    ensures forall d :: d in r ==> exists i :: 0 <= i < |file.rows| && file.rows[i][DepartmentColumn] == d
  {
    var column := Column(file, DepartmentColumn);
    var r := Distinct(column);
    forall d | d in r ensures exists i :: 0 <= i < |file.rows| && file.rows[i][DepartmentColumn] == d {
      var i := IndexOf(column, d);
    }
    DistinctNoLonger(column);
    r
  }

  /** The first row that has department `d`. */
  function FirstRowOf(file: Table, d: Value): (i: nat)
    requires WellFormed(file) && DepartmentColumn in file.columns
    requires d in Column(file, DepartmentColumn)
    ensures i < |file.rows| && file.rows[i][DepartmentColumn] == d
    ensures forall j :: 0 <= j < i ==> file.rows[j][DepartmentColumn] != d
  {
    var column := Column(file, DepartmentColumn);
    var i := IndexOf(column, d);
    assert forall j :: 0 <= j < i ==> column[j] in column[..i];
    i
  }

  /** The departments are listed in the order in which they first occur in
      the file. */
  lemma AllDepartmentsInFirstAppearanceOrder(file: Table)
    requires WellFormed(file) && DepartmentColumn in file.columns
    ensures var r := AllDepartments(file);
      forall i, j :: 0 <= i < j < |r| ==> FirstRowOf(file, r[i]) < FirstRowOf(file, r[j])
  {
    DistinctFirstAppearanceOrder(Column(file, DepartmentColumn));
  }

  /** `df['Department'] == name` for one row: an exact, case-sensitive
      match; a missing department matches no name. */
  predicate InDepartment(row: Row, name: string) {
    DepartmentColumn in row && row[DepartmentColumn] == Text(name)
  }

  function DepartmentIs(name: string): Row -> bool {
    row => InDepartment(row, name)
  }

  /** get_employees_by_department: the rows whose department is exactly
      `name`, cut down to the five summary fields. */
  function EmployeesByDepartment(file: Table, name: string): (r: seq<Row>)
    requires WellFormed(file) && HasColumns(file, SummaryFields)
    ensures forall k :: 0 <= k < |r| ==> r[k].Keys == ColumnSet(SummaryFields)
    ensures r == [] <==> forall i :: 0 <= i < |file.rows| ==> !InDepartment(file.rows[i], name)
  {
    SelectWhere(file, DepartmentIs(name), SummaryFields)
  }

  /** The listing holds exactly the rows of the department, in file order,
      with their summary cells copied. */
  lemma EmployeesByDepartmentAreMatchingRows(file: Table, name: string)
    requires WellFormed(file) && HasColumns(file, SummaryFields)
    ensures var r := EmployeesByDepartment(file, name);
      var idx := MatchingIndices(file.rows, DepartmentIs(name));
      && |r| == |idx|
      && (forall k :: 0 <= k < |r| ==>
            && InDepartment(file.rows[idx[k]], name)
            && (forall c :: c in r[k] ==> r[k][c] == file.rows[idx[k]][c]))
      && (forall i :: 0 <= i < |file.rows| && InDepartment(file.rows[i], name) ==> i in idx)
  {
    SelectWhereIsMatchingRows(file, DepartmentIs(name), SummaryFields);
  }

  /** Every listed record carries the department asked for. */
  lemma EmployeesByDepartmentAllInDepartment(file: Table, name: string)
    requires WellFormed(file) && HasColumns(file, SummaryFields)
    ensures forall k :: 0 <= k < |EmployeesByDepartment(file, name)| ==>
      EmployeesByDepartment(file, name)[k][DepartmentColumn] == Text(name)
  {
    EmployeesByDepartmentAreMatchingRows(file, name);
    assert DepartmentColumn in ColumnSet(SummaryFields);
  }
}
