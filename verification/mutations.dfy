/**
 The operations of dataframes.c that rewrite a table in place: `fillna`,
 `clip` and `sort_values`. Here each returns the rewritten table. Memory
 handling of the cells (the reallocation in `clip`, the unchecked `strcpy`
 in `fillna`) is not modelled: cells are unbounded strings.
 */
module Mutations {
  import opened Lex
  import opened Frames
  import opened Queries

  /** Applies `f` to every cell, keeping headers and shape. */
  function MapCells(t: DataFrame, f: string -> string): (r: DataFrame)
    ensures r.headers == t.headers && r.NumRows() == t.NumRows()
    ensures forall i :: 0 <= i < r.NumRows() ==> |r.rows[i]| == |t.rows[i]|
    ensures forall i, j :: 0 <= i < r.NumRows() && 0 <= j < |r.rows[i]| ==> r.rows[i][j] == f(t.rows[i][j])
    ensures t.Valid() ==> r.Valid()
  {
    DataFrame(t.headers, seq(|t.rows|, i requires 0 <= i < |t.rows| =>
      seq(|t.rows[i]|, j requires 0 <= j < |t.rows[i]| => f(t.rows[i][j]))))
  }

  // ---------------------------------------------------------------- fillna

  function FillCell(v: string): string -> string {
    c => if c == Missing then v else c
  }

  /** `fillna(v)`: every missing cell becomes `v`; every other cell is kept. */
  function FillNa(t: DataFrame, v: string): (r: DataFrame)
    ensures r.headers == t.headers && r.NumRows() == t.NumRows()
    ensures forall i :: 0 <= i < r.NumRows() ==> |r.rows[i]| == |t.rows[i]|
    ensures forall i, j :: 0 <= i < r.NumRows() && 0 <= j < |r.rows[i]| ==>
              r.rows[i][j] == (if t.rows[i][j] == Missing then v else t.rows[i][j])
    ensures t.Valid() ==> r.Valid()
  {
    MapCells(t, FillCell(v))
  }

  /** Filling twice with the same value is filling once. */
  lemma FillNaIdempotent(t: DataFrame, v: string)
    ensures FillNa(FillNa(t, v), v) == FillNa(t, v)
  {
    var once := FillNa(t, v);
    var twice := FillNa(once, v);
    forall i | 0 <= i < |once.rows|
      ensures twice.rows[i] == once.rows[i]
    {
    }
  }

  /** After filling with a non-empty value, `isnull` reports no missing cell;
      filling with the empty string changes nothing. */
  lemma FillNaClearsNulls(t: DataFrame, v: string)
    ensures v != Missing ==> NoneMissing(IsNull(FillNa(t, v)))
    ensures v == Missing ==> FillNa(t, v) == t
  {
    if v == Missing {
      var r := FillNa(t, v);
      forall i | 0 <= i < |t.rows|
        ensures r.rows[i] == t.rows[i]
      {
      }
    }
  }

  // ------------------------------------------------------------------ clip

  /** One cell clamped: below `lower` it becomes `lower`, otherwise above
      `upper` it becomes `upper`, otherwise it is kept. */
  function ClipCell(lower: string, upper: string): string -> string {
    c => if Less(c, lower) then lower else if Less(upper, c) then upper else c
  }

  /** `clip(lower, upper)`: every cell clamped, comparing as `strcmp` does. */
  function Clip(t: DataFrame, lower: string, upper: string): (r: DataFrame)
    ensures r.headers == t.headers && r.NumRows() == t.NumRows()
    ensures forall i :: 0 <= i < r.NumRows() ==> |r.rows[i]| == |t.rows[i]|
    ensures forall i, j :: 0 <= i < r.NumRows() && 0 <= j < |r.rows[i]| ==>
              r.rows[i][j] == ClipCell(lower, upper)(t.rows[i][j])
    ensures t.Valid() ==> r.Valid()
  {
    MapCells(t, ClipCell(lower, upper))
  }

  /** With `lower <= upper`, every clipped cell lies between the bounds, and
      a cell already between them is unchanged. */
  lemma ClipBounds(t: DataFrame, lower: string, upper: string)
    requires LessEq(lower, upper)
    ensures var r := Clip(t, lower, upper);
      forall i, j :: 0 <= i < r.NumRows() && 0 <= j < |r.rows[i]| ==>
        LessEq(lower, r.rows[i][j]) && LessEq(r.rows[i][j], upper)
    ensures var r := Clip(t, lower, upper);
      forall i, j :: (0 <= i < r.NumRows() && 0 <= j < |r.rows[i]| &&
        LessEq(lower, t.rows[i][j]) && LessEq(t.rows[i][j], upper)) ==> r.rows[i][j] == t.rows[i][j]
  {
    var r := Clip(t, lower, upper);
    forall i, j | 0 <= i < r.NumRows() && 0 <= j < |r.rows[i]|
      ensures LessEq(lower, r.rows[i][j]) && LessEq(r.rows[i][j], upper)
      ensures LessEq(lower, t.rows[i][j]) && LessEq(t.rows[i][j], upper) ==> r.rows[i][j] == t.rows[i][j]
    {
      ClipCellBounds(lower, upper, t.rows[i][j]);
    }
  }

  lemma ClipCellBounds(lower: string, upper: string, c: string)
    requires LessEq(lower, upper)
    ensures LessEq(lower, ClipCell(lower, upper)(c)) && LessEq(ClipCell(lower, upper)(c), upper)
    ensures LessEq(lower, c) && LessEq(c, upper) ==> ClipCell(lower, upper)(c) == c
  {
    Total(c, lower);
    Total(upper, c);
    if !Less(c, lower) && Less(upper, c) {
      CompareTransitive(lower, upper, c);
      CompareAntisymmetric(c, upper);
    }
    if LessEq(lower, c) && LessEq(c, upper) {
      CompareAntisymmetric(c, lower);
      CompareAntisymmetric(upper, c);
    }
  }

  /** Clipping twice to the same ordered bounds is clipping once. */
  lemma ClipIdempotent(t: DataFrame, lower: string, upper: string)
    requires LessEq(lower, upper)
    ensures Clip(Clip(t, lower, upper), lower, upper) == Clip(t, lower, upper)
  {
    var once := Clip(t, lower, upper);
    var twice := Clip(once, lower, upper);
    ClipBounds(t, lower, upper);
    forall i | 0 <= i < |once.rows|
      ensures twice.rows[i] == once.rows[i]
    {
      forall j | 0 <= j < |once.rows[i]|
        ensures twice.rows[i][j] == once.rows[i][j]
      {
        ClipCellBounds(lower, upper, once.rows[i][j]);
      }
    }
  }

  /** A non-empty lower bound at most the upper one leaves no missing cell,
      since the empty string sorts below every other. */
  lemma ClipFillsMissing(t: DataFrame, lower: string, upper: string)
    requires lower != Missing && LessEq(lower, upper)
    ensures NoneMissing(IsNull(Clip(t, lower, upper)))
  {
    var r := Clip(t, lower, upper);
    forall i, j | 0 <= i < |r.rows| && 0 <= j < |r.rows[i]|
      ensures r.rows[i][j] != Missing
    {
      ClipCellBounds(lower, upper, t.rows[i][j]);
      EmptyIsLeast(lower);
      LessLessEqTransitive(Missing, lower, r.rows[i][j]);
    }
  }

  /** Clipping the column a, m, z to [b, y] gives b, m, y. */
  lemma ClipExample(t: DataFrame)
    requires t == DataFrame(["x"], [["a"], ["m"], ["z"]])
    ensures Clip(t, "b", "y").rows == [["b"], ["m"], ["y"]]
  {
    var r := Clip(t, "b", "y");
    assert Less("a", "b");
    assert !Less("m", "b") && !Less("y", "m");
    assert !Less("z", "b") && Less("y", "z");
    assert r.rows[0] == ["b"] && r.rows[1] == ["m"] && r.rows[2] == ["y"];
  }

  // ----------------------------------------------------------- sort_values

  /** The rows ascend in column `col`. */
  predicate SortedOn(rows: seq<seq<string>>, col: nat) {
    SortedFrom(rows, 0, col)
  }

  /** The rows whose cell in column `col` is `k`, in their order. A sort is
      stable exactly when it keeps every one of these subsequences. */
  function WithKey(rows: seq<seq<string>>, col: nat, k: string): seq<seq<string>> {
    if |rows| == 0 then []
    else (if Cell(rows[0], col) == k then [rows[0]] else []) + WithKey(rows[1..], col, k)
  }

  lemma {:induction false} WithKeyAppend(a: seq<seq<string>>, b: seq<seq<string>>, col: nat, k: string)
    ensures WithKey(a + b, col, k) == WithKey(a, col, k) + WithKey(b, col, k)
  {
    if |a| > 0 {
      assert (a + b)[1..] == a[1..] + b;
      WithKeyAppend(a[1..], b, col, k);
    } else {
      assert a + b == b;
    }
  }

  /** `a` with rows `j` and `j + 1` exchanged. */
  function Swap(a: seq<seq<string>>, j: nat): (b: seq<seq<string>>)
    requires j + 1 < |a|
    ensures |b| == |a| && multiset(b) == multiset(a)
    ensures b[j] == a[j + 1] && b[j + 1] == a[j]
    ensures forall p :: 0 <= p < |a| && p != j && p != j + 1 ==> b[p] == a[p]
  {
    a[j := a[j + 1]][j + 1 := a[j]]
  }

  /** Exchanging neighbours with different keys keeps every key's subsequence. */
  lemma {:induction false} SwapKeepsWithKey(a: seq<seq<string>>, j: nat, col: nat, k: string)
    requires j + 1 < |a| && Cell(a[j], col) != Cell(a[j + 1], col)
    ensures WithKey(Swap(a, j), col, k) == WithKey(a, col, k)
    decreases j
  {
    var b := Swap(a, j);
    if j == 0 {
      assert b[1..][1..] == a[1..][1..];
    } else {
      assert b[1..] == Swap(a[1..], j - 1);
      SwapKeepsWithKey(a[1..], j - 1, col, k);
    }
  }

  /** The rows from position `m` on ascend in column `col`. */
  predicate SortedFrom(a: seq<seq<string>>, m: nat, col: nat) {
    forall p, q :: m <= p < q < |a| ==> LessEq(Cell(a[p], col), Cell(a[q], col))
  }

  /** No row before position `m` is above a row from `m` on. */
  predicate Partitioned(a: seq<seq<string>>, m: nat, col: nat) {
    forall p, q :: 0 <= p < m <= q < |a| ==> LessEq(Cell(a[p], col), Cell(a[q], col))
  }

  /** Row `j` is a largest of rows `0..j`. */
  predicate MaxAt(a: seq<seq<string>>, j: nat, col: nat) {
    forall p :: 0 <= p <= j < |a| ==> LessEq(Cell(a[p], col), Cell(a[j], col))
  }

  /** An exchange within the unsorted front carries the largest row one step
      further and keeps the sorted back and the partition. */
  lemma SwapStep(a: seq<seq<string>>, j: nat, m: nat, col: nat)
    requires j + 1 < m <= |a|
    requires SortedFrom(a, m, col) && Partitioned(a, m, col) && MaxAt(a, j, col)
    requires Compare(Cell(a[j], col), Cell(a[j + 1], col)) > 0
    ensures var b := Swap(a, j);
      SortedFrom(b, m, col) && Partitioned(b, m, col) && MaxAt(b, j + 1, col)
    ensures forall k :: WithKey(Swap(a, j), col, k) == WithKey(a, col, k)
  {
    var b := Swap(a, j);
    CompareAntisymmetric(Cell(a[j], col), Cell(a[j + 1], col));
    forall k
      ensures WithKey(b, col, k) == WithKey(a, col, k)
    {
      SwapKeepsWithKey(a, j, col, k);
    }
    forall p, q | 0 <= p < m <= q < |b|
      ensures LessEq(Cell(b[p], col), Cell(b[q], col))
    {
      if p == j {
        assert b[p] == a[j + 1];
      } else if p == j + 1 {
        assert b[p] == a[j];
      }
    }
  }

  /** Without an exchange the next row is a largest of the front so far. */
  lemma KeepStep(a: seq<seq<string>>, j: nat, col: nat)
    requires j + 1 < |a| && MaxAt(a, j, col)
    requires Compare(Cell(a[j], col), Cell(a[j + 1], col)) <= 0
    ensures MaxAt(a, j + 1, col)
  {
    forall p | 0 <= p <= j
      ensures LessEq(Cell(a[p], col), Cell(a[j + 1], col))
    {
      CompareTransitive(Cell(a[p], col), Cell(a[j], col), Cell(a[j + 1], col));
    }
  }

  /** A pass that ends with a largest row at `m - 1` grows the sorted back by one. */
  lemma PassStep(a: seq<seq<string>>, m: nat, col: nat)
    requires 0 < m <= |a|
    requires SortedFrom(a, m, col) && Partitioned(a, m, col) && MaxAt(a, m - 1, col)
    ensures SortedFrom(a, m - 1, col) && Partitioned(a, m - 1, col)
  {
  }

  /** When at most one row remains in front, the whole sequence ascends. */
  lemma SortDone(a: seq<seq<string>>, m: nat, col: nat)
    requires m <= 1 && SortedFrom(a, m, col) && Partitioned(a, m, col)
    ensures SortedOn(a, col)
  {
  }

  /** `sort_values(col)`: the adjacent-exchange sort of the source. Pass `i`
      walks `j` over the first `num_rows - i - 1` positions and exchanges
      rows `j` and `j + 1` when `strcmp` of their cells is positive. The
      result is a permutation of the rows, ascending in column `col`, and
      stable: rows with equal cells keep their relative order. */
  method SortValues(t: DataFrame, col: nat) returns (r: DataFrame)
    requires t.Valid() && col < t.NumCols()
    ensures r.Valid() && r.headers == t.headers
    ensures multiset(r.rows) == multiset(t.rows)
    ensures SortedOn(r.rows, col)
    ensures forall k :: WithKey(r.rows, col, k) == WithKey(t.rows, col, k)
  {
    var a := t.rows;
    var n := |a|;
    var i := 0;
    while i < n - 1
      invariant 0 <= i <= n && |a| == n
      invariant DataFrame(t.headers, a).Valid()
      invariant multiset(a) == multiset(t.rows)
      invariant forall k :: WithKey(a, col, k) == WithKey(t.rows, col, k)
      invariant SortedFrom(a, n - i, col) && Partitioned(a, n - i, col)
    {
      var j := 0;
      while j < n - i - 1
        invariant 0 <= j < n - i && |a| == n
        invariant DataFrame(t.headers, a).Valid()
        invariant multiset(a) == multiset(t.rows)
        invariant forall k :: WithKey(a, col, k) == WithKey(t.rows, col, k)
        invariant SortedFrom(a, n - i, col) && Partitioned(a, n - i, col)
        invariant MaxAt(a, j, col)
      {
        if Compare(a[j][col], a[j + 1][col]) > 0 {
          SwapStep(a, j, n - i, col);
          a := Swap(a, j);
        } else {
          KeepStep(a, j, col);
        }
        j := j + 1;
      }
      PassStep(a, n - i, col);
      i := i + 1;
    }
    SortDone(a, n - i, col);
    r := DataFrame(t.headers, a);
  }

  lemma WithKeyMembers(s: seq<seq<string>>, col: nat, k: string)
    ensures forall x :: x in WithKey(s, col, k) ==> x in s && Cell(x, col) == k
  {
  }

  /** Sorted and stable pin the outcome down: two orderings that both ascend
      in column `col` and keep every key's subsequence are the same. So
      `SortValues` returns the one stable sort of the rows. */
  lemma {:induction false} StableSortUnique(a: seq<seq<string>>, b: seq<seq<string>>, col: nat)
    requires SortedOn(a, col) && SortedOn(b, col)
    requires forall k :: WithKey(a, col, k) == WithKey(b, col, k)
    ensures a == b
    decreases |a|
  {
    if |a| == 0 || |b| == 0 {
      if |b| > 0 {
        assert WithKey(b, col, Cell(b[0], col)) != [];
      } else if |a| > 0 {
        assert WithKey(a, col, Cell(a[0], col)) != [];
      }
    } else {
      var ka, kb := Cell(a[0], col), Cell(b[0], col);
      WithKeyMembers(a, col, kb);
      WithKeyMembers(b, col, ka);
      assert b[0] in WithKey(b, col, kb);
      assert a[0] in WithKey(a, col, ka);
      var x :| x in a && Cell(x, col) == kb && x == b[0];
      var y :| y in b && Cell(y, col) == ka && y == a[0];
      FirstAtMost(a, col, x);
      FirstAtMost(b, col, y);
      Antisymmetric(ka, kb);
      assert WithKey(a, col, ka) == [a[0]] + WithKey(a[1..], col, ka);
      assert WithKey(b, col, ka) == [b[0]] + WithKey(b[1..], col, ka);
      assert a[0] == WithKey(a, col, ka)[0] == WithKey(b, col, ka)[0] == b[0];
      forall k
        ensures WithKey(a[1..], col, k) == WithKey(b[1..], col, k)
      {
        if k == ka {
          assert WithKey(a[1..], col, k) == WithKey(a, col, k)[1..];
          assert WithKey(b[1..], col, k) == WithKey(b, col, k)[1..];
        } else {
          assert WithKey(a[1..], col, k) == WithKey(a, col, k);
          assert WithKey(b[1..], col, k) == WithKey(b, col, k);
        }
      }
      SortedTail(a, col);
      SortedTail(b, col);
      StableSortUnique(a[1..], b[1..], col);
      assert a == [a[0]] + a[1..] && b == [b[0]] + b[1..];
    }
  }

  lemma FirstAtMost(a: seq<seq<string>>, col: nat, x: seq<string>)
    requires SortedOn(a, col) && x in a
    ensures LessEq(Cell(a[0], col), Cell(x, col))
  {
    var p :| 0 <= p < |a| && a[p] == x;
    if p > 0 {
      assert LessEq(Cell(a[0], col), Cell(a[p], col));
    }
  }

  lemma SortedTail(a: seq<seq<string>>, col: nat)
    requires |a| > 0 && SortedOn(a, col)
    ensures SortedOn(a[1..], col)
  {
    forall p, q | 0 <= p < q < |a| - 1
      ensures LessEq(Cell(a[1..][p], col), Cell(a[1..][q], col))
    {
      assert a[1..][p] == a[p + 1] && a[1..][q] == a[q + 1];
    }
  }
}
