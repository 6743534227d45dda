/** The in-memory form of a CSV file: a header (ordered column names) and
    rows that map every column name to a cell value. Only the pandas
    DataFrame operations the services use are modelled. */
module Tables {
  import opened Seqs

  /** A cell: an integer, a text, or pandas' missing value (NaN / None). */
  datatype Value = Int(n: int) | Text(s: string) | Missing

  type Row = map<string, Value>

  datatype Table = Table(columns: seq<string>, rows: seq<Row>)

  function ColumnSet(columns: seq<string>): set<string> {
    set c | c in columns
  }

  /** Column names are distinct and every row has exactly the columns. */
  predicate WellFormed(t: Table) {
    && NoDup(t.columns)
    && forall i :: 0 <= i < |t.rows| ==> t.rows[i].Keys == ColumnSet(t.columns)
  }

  predicate HasColumns(t: Table, names: seq<string>) {
    forall k :: 0 <= k < |names| ==> names[k] in t.columns
  }

  /** Column names of the employee file. */
  const IdColumn := "EmployeeID"
  const DepartmentColumn := "Department"

  /** The fields a department listing returns. */
  const SummaryFields: seq<string> := ["EmployeeID", "FirstName", "Surname", "Department", "Position"]

  /** The columns the employee-store read leaves out (`usecols` at
      src/services/employee_service.py:14). */
  const DateColumns: set<string> := {"Start_Date", "End_Date"}

  function NotDateColumn(): string -> bool {
    c => c !in DateColumns
  }

  /** The employee store's view of the file: the file without its
      Start_Date and End_Date columns. */
  function WithoutDateColumns(t: Table): (r: Table)
    ensures ColumnSet(r.columns) == ColumnSet(t.columns) - DateColumns
    ensures NoDup(t.columns) ==> NoDup(r.columns)
    ensures |r.rows| == |t.rows|
    ensures forall i :: 0 <= i < |t.rows| ==> r.rows[i] == t.rows[i] - DateColumns
  {
    var cols := Filter(t.columns, NotDateColumn());
    FilterNoDup(t.columns, NotDateColumn());
    forall c ensures c in cols <==> c in t.columns && c !in DateColumns {
      FilterMembers(t.columns, NotDateColumn(), c);
    }
    Table(cols, seq(|t.rows|, i requires 0 <= i < |t.rows| => t.rows[i] - DateColumns))
  }

  /** The load keeps the file's column order: the k-th loaded column is
      the k-th column of the file that is not a date column. */
  lemma WithoutDateColumnsOrder(t: Table)
    ensures var kept := MatchingIndices(t.columns, NotDateColumn());
      var r := WithoutDateColumns(t);
      |r.columns| == |kept| && forall k :: 0 <= k < |kept| ==> r.columns[k] == t.columns[kept[k]]
  {
    FilterIsMatchingPositions(t.columns, NotDateColumn());
  }

  lemma WithoutDateColumnsWellFormed(t: Table)
    requires WellFormed(t)
    ensures WellFormed(WithoutDateColumns(t))
  {
  }

  /** Dropping the date columns twice is dropping them once: a file the
      employee store wrote back reads back as written. */
  lemma WithoutDateColumnsIdempotent(t: Table)
    ensures WithoutDateColumns(WithoutDateColumns(t)) == WithoutDateColumns(t)
  {
    var r := WithoutDateColumns(t);
    var rr := WithoutDateColumns(r);
    FilterKeepsAll(r.columns, NotDateColumn());
    forall i | 0 <= i < |r.rows| ensures rr.rows[i] == r.rows[i] {
      assert rr.rows[i].Keys == r.rows[i].Keys;
    }
  }

  /** `row` laid out on the header `columns`: cells it lacks become Missing
      and cells outside the header are dropped. */
  function Widen(row: Row, columns: seq<string>): (r: Row)
    ensures r.Keys == ColumnSet(columns)
    ensures forall c :: c in r ==> r[c] == if c in row then row[c] else Missing
  {
    map c | c in ColumnSet(columns) :: if c in row then row[c] else Missing
  }

  function NotIn(columns: seq<string>): string -> bool {
    c => c !in columns
  }

  /** `pd.concat([df, pd.DataFrame([row])], ignore_index=True)`, where the
      one-row frame has the header `fields`: the old header followed by the
      fields it lacks, and every row laid out on that header. */
  function Concat(t: Table, fields: seq<string>, row: Row): (r: Table)
    ensures |r.columns| >= |t.columns| && r.columns[..|t.columns|] == t.columns
    ensures ColumnSet(r.columns) == ColumnSet(t.columns) + ColumnSet(fields)
    ensures NoDup(t.columns) && NoDup(fields) ==> NoDup(r.columns)
    ensures |r.rows| == |t.rows| + 1
    ensures forall i :: 0 <= i < |t.rows| ==> r.rows[i].Keys == ColumnSet(r.columns)
    ensures forall i, c :: 0 <= i < |t.rows| && c in r.rows[i] ==>
      r.rows[i][c] == if c in t.rows[i] then t.rows[i][c] else Missing
    ensures r.rows[|t.rows|].Keys == ColumnSet(r.columns)
    ensures forall c :: c in r.rows[|t.rows|] ==>
      r.rows[|t.rows|][c] == if c in row then row[c] else Missing
  {
    var added := Filter(fields, NotIn(t.columns));
    var cols := t.columns + added;
    forall c ensures c in added <==> c in fields && c !in t.columns {
      FilterMembers(fields, NotIn(t.columns), c);
    }
    FilterNoDup(fields, NotIn(t.columns));
    NoDupAppend(t.columns, added);
    assert cols[..|t.columns|] == t.columns;
    Table(cols, seq(|t.rows|, i requires 0 <= i < |t.rows| => Widen(t.rows[i], cols)) + [Widen(row, cols)])
  }

  /** The appended columns follow the old header in the order of `fields`:
      the k-th new column is the k-th field the old header lacks. */
  lemma ConcatOrder(t: Table, fields: seq<string>, row: Row)
    ensures var added := MatchingIndices(fields, NotIn(t.columns));
      var r := Concat(t, fields, row);
      && |r.columns| == |t.columns| + |added|
      && forall k :: 0 <= k < |added| ==> r.columns[|t.columns| + k] == fields[added[k]]
  {
    FilterIsMatchingPositions(fields, NotIn(t.columns));
  }

  /** Appending keeps the table well formed. */
  lemma ConcatWellFormed(t: Table, fields: seq<string>, row: Row)
    requires WellFormed(t) && NoDup(fields)
    ensures WellFormed(Concat(t, fields, row))
  {
  }

  /** When the header already has every field, appending changes neither the
      header nor any earlier row: it only adds the new row at the end. */
  lemma ConcatKnownFields(t: Table, fields: seq<string>, row: Row)
    requires WellFormed(t)
    requires ColumnSet(fields) <= ColumnSet(t.columns)
    ensures Concat(t, fields, row) == Table(t.columns, t.rows + [Widen(row, t.columns)])
  {
    var r := Concat(t, fields, row);
    FilterEmptyIff(fields, NotIn(t.columns));
    assert forall k :: 0 <= k < |fields| ==> fields[k] in ColumnSet(fields);
    assert r.columns == t.columns;
    forall i | 0 <= i < |t.rows| ensures r.rows[i] == t.rows[i] {
      assert r.rows[i].Keys == t.rows[i].Keys;
    }
  }

  /** `df[fields]` for one row: the cells of the named columns and no other. */
  function Project(row: Row, fields: seq<string>): (r: Row)
    requires forall k :: 0 <= k < |fields| ==> fields[k] in row
    ensures r.Keys == ColumnSet(fields)
    ensures forall c :: c in r ==> r[c] == row[c]
  {
    map c | c in ColumnSet(fields) :: row[c]
  }

  /** A row already on the header `columns` is laid out on it unchanged. */
  lemma WidenOwnHeader(row: Row, columns: seq<string>)
    requires row.Keys == ColumnSet(columns)
    ensures Widen(row, columns) == row
  {
    var r := Widen(row, columns);
    assert r.Keys == row.Keys;
    forall c | c in r ensures r[c] == row[c] {
    }
  }

  /** Laying a row out on a header twice is laying it out once. */
  lemma WidenTwice(row: Row, columns: seq<string>)
    ensures Widen(Widen(row, columns), columns) == Widen(row, columns)
  {
    WidenOwnHeader(Widen(row, columns), columns);
  }

  /** Selecting every column of a row gives the row back. */
  lemma ProjectAll(row: Row, fields: seq<string>)
    requires row.Keys == ColumnSet(fields)
    ensures Project(row, fields) == row
  {
    var r := Project(row, fields);
    assert r.Keys == row.Keys;
    forall c | c in r ensures r[c] == row[c] {
    }
  }

  /** Selecting the same columns twice is selecting them once. */
  lemma ProjectTwice(row: Row, fields: seq<string>)
    requires forall k :: 0 <= k < |fields| ==> fields[k] in row
    ensures Project(Project(row, fields), fields) == Project(row, fields)
  {
    ProjectAll(Project(row, fields), fields);
  }

  /** The cells of column `c`, top to bottom (`df[c]`). */
  function Column(t: Table, c: string): (r: seq<Value>)
    requires WellFormed(t) && c in t.columns
    ensures |r| == |t.rows|
    ensures forall i :: 0 <= i < |t.rows| ==> r[i] == t.rows[i][c]
  {
    seq(|t.rows|, i requires 0 <= i < |t.rows| => t.rows[i][c])
  }

  /** Every row of `rows` cut down to `fields`. */
  function ProjectRows(rows: seq<Row>, fields: seq<string>): (r: seq<Row>)
    requires forall i, j :: 0 <= i < |rows| && 0 <= j < |fields| ==> fields[j] in rows[i]
    ensures |r| == |rows|
    ensures forall k :: 0 <= k < |r| ==> r[k] == Project(rows[k], fields)
  {
    seq(|rows|, k requires 0 <= k < |rows| => Project(rows[k], fields))
  }

  /** `df[mask][fields].to_dict(orient="records")`: the rows that pass `p`,
      in table order, each cut down to `fields`. */
  function SelectWhere(t: Table, p: Row -> bool, fields: seq<string>): (r: seq<Row>)
    requires WellFormed(t) && HasColumns(t, fields)
    ensures forall k :: 0 <= k < |r| ==> r[k].Keys == ColumnSet(fields)
    ensures r == [] <==> forall i :: 0 <= i < |t.rows| ==> !p(t.rows[i])
  {
    var kept := Filter(t.rows, p);
    FilterEmptyIff(t.rows, p);
    forall k, j | 0 <= k < |kept| && 0 <= j < |fields| ensures fields[j] in kept[k] {
      assert kept[k] in kept;
      var i :| 0 <= i < |t.rows| && t.rows[i] == kept[k];
      RowHasColumns(t, i, fields);
    }
    ProjectRows(kept, fields)
  }

  /** The selection holds exactly the rows at the matching positions, in
      ascending order, each cut down to `fields`. */
  lemma SelectWhereIsMatchingRows(t: Table, p: Row -> bool, fields: seq<string>)
    requires WellFormed(t) && HasColumns(t, fields)
    ensures |SelectWhere(t, p, fields)| == |MatchingIndices(t.rows, p)|
    ensures forall k :: 0 <= k < |SelectWhere(t, p, fields)| ==>
      SelectWhere(t, p, fields)[k] == Project(t.rows[MatchingIndices(t.rows, p)[k]], fields)
  {
    FilterIsMatchingPositions(t.rows, p);
  }

  lemma RowHasColumns(t: Table, i: nat, fields: seq<string>)
    requires WellFormed(t) && HasColumns(t, fields) && i < |t.rows|
    ensures forall j :: 0 <= j < |fields| ==> fields[j] in t.rows[i]
  {
    assert t.rows[i].Keys == ColumnSet(t.columns);
  }
}
