/**
 Table storage: the `DataFrame` of dataframes.c, a list of column headers and
 a list of rows, each row a list of text cells. The empty string marks a
 missing cell. Memory ownership (the `malloc`ed cell buffers, `freeDataFrame`)
 is not modelled: a table is an immutable value and every operation returns
 a new one.
 */
module Frames {

  /** The failures the table's operations can report. */
  datatype Error =
    | IoError              // the CSV input has no header line
    | ShapeMismatch(line: nat)  // a CSV data line whose token count differs from the header's
    | EmptyTable           // a row was requested from a table without rows
    | NegativeCount        // a result list of negative length was requested

  datatype Result<T> = Ok(value: T) | Err(error: Error)

  datatype DataFrame = DataFrame(headers: seq<string>, rows: seq<seq<string>>) {

    function NumRows(): nat {
      |rows|
    }

    /** The column count is the number of headers. */
    function NumCols(): nat {
      |headers|
    }

    /** Every row holds exactly one cell per column. */
    predicate Valid() {
      forall i :: 0 <= i < |rows| ==> |rows[i]| == |headers|
    }
  }

  /** The marker for a missing cell. */
  const Missing: string := ""

  /** `createDataFrame(num_rows, num_cols)`: a table of the given shape whose
      cells are all missing. The source leaves the header buffers
      uninitialised; here they are empty. */
  function Create(numRows: nat, numCols: nat): (t: DataFrame)
    ensures t.Valid()
    ensures t.NumRows() == numRows && t.NumCols() == numCols
    ensures Shape(t) == (numRows, numCols) && Size(t) == numRows * numCols
    ensures forall i, j :: 0 <= i < numRows && 0 <= j < numCols ==> t.rows[i][j] == Missing
  {
    DataFrame(seq(numCols, _ => Missing), seq(numRows, _ => seq(numCols, _ => Missing)))
  }

  /** `addRow(df, values)`: appends a copy of `values` as the new last row.
      The source reads exactly `num_cols` values without checking how many
      were supplied, so the count is a precondition here. */
  function AddRow(t: DataFrame, values: seq<string>): (r: DataFrame)
    requires t.Valid() && |values| == t.NumCols()
    ensures r.Valid()
    ensures r.NumRows() == t.NumRows() + 1 && r.NumCols() == t.NumCols()
    ensures r.headers == t.headers
    ensures r.rows[t.NumRows()] == values
    ensures forall i :: 0 <= i < t.NumRows() ==> r.rows[i] == t.rows[i]
  {
    DataFrame(t.headers, t.rows + [values])
  }

  /** `shape`: the pair (number of rows, number of columns); their product is
      `size`. */
  function Shape(t: DataFrame): (s: (nat, nat))
    ensures s.0 == |t.rows| && s.1 == |t.headers|
    ensures s.0 * s.1 == Size(t)
  {
    (t.NumRows(), t.NumCols())
  }

  /** `size`: rows times columns, which on a valid table is the number of
      cells actually stored. */
  function Size(t: DataFrame): (n: nat)
    ensures n == t.NumRows() * t.NumCols()
    ensures t.Valid() ==> n == CellCount(t.rows)
  {
    assert t.Valid() ==> CellCount(t.rows) == t.NumRows() * t.NumCols() by {
      if t.Valid() {
        CellCountOfRectangle(t.rows, t.NumCols());
      }
    }
    t.NumRows() * t.NumCols()
  }

  /** The number of cells actually stored, row by row. */
  function CellCount(rows: seq<seq<string>>): nat {
    if |rows| == 0 then 0 else CellCount(rows[..|rows| - 1]) + |rows[|rows| - 1]|
  }

  /** Rows all of width `w` store `w` cells each. */
  lemma {:induction false} CellCountOfRectangle(rows: seq<seq<string>>, w: nat)
    requires forall i :: 0 <= i < |rows| ==> |rows[i]| == w
    ensures CellCount(rows) == |rows| * w
    decreases |rows|
  {
    if |rows| > 0 {
      CellCountOfRectangle(rows[..|rows| - 1], w);
    }
  }

  /** `addRow` grows the shape by exactly one row and the size by one row's cells. */
  lemma AddRowShape(t: DataFrame, values: seq<string>)
    requires t.Valid() && |values| == t.NumCols()
    ensures Shape(AddRow(t, values)) == (Shape(t).0 + 1, Shape(t).1)
    ensures Size(AddRow(t, values)) == Size(t) + |values|
  {
  }

  /** The cell in column `col` of `row`; the empty string when the row is too short. */
  function Cell(row: seq<string>, col: nat): string {
    if col < |row| then row[col] else Missing
  }

  /** Column `col`, top to bottom. */
  function Column(t: DataFrame, col: nat): (c: seq<string>)
    requires t.Valid() && col < t.NumCols()
    ensures |c| == t.NumRows()
    ensures forall i :: 0 <= i < |c| ==> c[i] == t.rows[i][col]
  {
    seq(|t.rows|, i requires 0 <= i < |t.rows| => t.rows[i][col])
  }

  /** `sample`: the row at `rand() % num_rows`, where `rand` stands for the C
      library's random number. The source divides by zero on a table without
      rows; here that is an error. */
  function Sample(t: DataFrame, rand: nat): (r: Result<seq<string>>)
    ensures r.Err? <==> t.NumRows() == 0
    ensures r.Err? ==> r.error == EmptyTable
    ensures r.Ok? ==> r.value in t.rows
  {
    if |t.rows| == 0 then Err(EmptyTable) else Ok(t.rows[rand % |t.rows|])
  }

  /** Every row of a non-empty table is the sample for some random number. */
  lemma SampleReachesEveryRow(t: DataFrame, i: nat)
    requires i < t.NumRows()
    ensures exists rand: nat :: Sample(t, rand) == Ok(t.rows[i])
  {
    assert i % |t.rows| == i;
    assert Sample(t, i) == Ok(t.rows[i]);
  }
}
