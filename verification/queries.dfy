/**
 The read-only operations of dataframes.c: slicing (`head`, `tail`), the
 missing-cell mask (`isnull`), per-column counting (`value_counts`) and
 ranking (`nsmallest`, `nlargest`). The source prints the selected rows of
 `head` and `tail`; here they are returned as a table.
 */
module Queries {
  import opened Lex
  import opened Sorting
  import opened Frames

  /** How many rows a request for `n` of `count` rows yields: `n` clamped to
      `[0, count]`. A negative `n` asks for nothing. */
  function Clamp(n: int, count: nat): (k: nat)
    ensures k <= count
    ensures n <= 0 ==> k == 0
    ensures 0 <= n <= count ==> k == n
    ensures n >= count ==> k == count
  {
    if n <= 0 then 0 else if n < count then n else count
  }

  /** `head(n)`: the row loop stops at whichever comes first, the end of the
      table or `n` rows, so it selects the first `min(n, num_rows)` rows, in
      order. */
  function Head(t: DataFrame, n: int): (r: DataFrame)
    ensures r.headers == t.headers
    ensures r.NumRows() == Clamp(n, t.NumRows())
    ensures forall i :: 0 <= i < r.NumRows() ==> r.rows[i] == t.rows[i]
    ensures t.Valid() ==> r.Valid()
  {
    var rows := t.rows[..Clamp(n, |t.rows|)];
    assert forall i :: 0 <= i < |rows| ==> rows[i] == t.rows[i];
    assert t.Valid() ==> forall i :: 0 <= i < |rows| ==> |rows[i]| == |t.headers|;
    DataFrame(t.headers, rows)
  }

  /** `tail(n)`: the rows from `start_row = max(0, num_rows - n)` to the end,
      in order. For a negative `n` the start lies past the last row and
      nothing is selected. */
  function Tail(t: DataFrame, n: int): (r: DataFrame)
    ensures r.headers == t.headers
    ensures r.NumRows() == Clamp(n, t.NumRows())
    ensures forall i :: 0 <= i < r.NumRows() ==> r.rows[i] == t.rows[t.NumRows() - r.NumRows() + i]
    ensures t.Valid() ==> r.Valid()
  {
    var startRow := if |t.rows| - n < 0 then 0 else |t.rows| - n;
    if startRow > |t.rows| then
      DataFrame(t.headers, [])
    else
      var rows := t.rows[startRow..];
      assert |rows| == Clamp(n, |t.rows|);
      assert forall i :: 0 <= i < |rows| ==> rows[i] == t.rows[startRow + i];
      assert t.Valid() ==> forall i :: 0 <= i < |rows| ==> |rows[i]| == |t.headers|;
      DataFrame(t.headers, rows)
  }

  /** The first `k` rows and the last `num_rows - k` rows make up the whole
      table, in order. */
  lemma {:induction false} HeadTailSplit(t: DataFrame, k: nat)
    requires k <= t.NumRows()
    ensures Head(t, k).rows + Tail(t, t.NumRows() - k).rows == t.rows
  {
    var h := Head(t, k).rows;
    var tl := Tail(t, t.NumRows() - k).rows;
    assert |h| == k && |tl| == t.NumRows() - k;
    assert forall i :: 0 <= i < |tl| ==> tl[i] == t.rows[k + i];
    assert h + tl == t.rows;
  }

  /** Asking for more rows than there are yields every row; asking for none,
      or for a negative number, yields none. */
  lemma HeadTailBounds(t: DataFrame, n: int)
    ensures n >= t.NumRows() ==> Head(t, n) == t && Tail(t, n) == t
    ensures n <= 0 ==> Head(t, n).rows == [] && Tail(t, n).rows == []
  {
    if n >= t.NumRows() {
      assert Head(t, n).rows == t.rows;
      assert Tail(t, n).rows == t.rows;
    }
  }

  /** `isnull` (and its alias `isna`): a table of flags, true exactly where
      the cell is the empty string. */
  function IsNull(t: DataFrame): (m: seq<seq<bool>>)
    ensures |m| == t.NumRows()
    ensures forall i :: 0 <= i < |m| ==> |m[i]| == |t.rows[i]|
    ensures forall i, j :: 0 <= i < |m| && 0 <= j < |m[i]| ==> (m[i][j] <==> t.rows[i][j] == Missing)
  {
    seq(|t.rows|, i requires 0 <= i < |t.rows| =>
      seq(|t.rows[i]|, j requires 0 <= j < |t.rows[i]| => t.rows[i][j] == Missing))
  }

  /** No flag of the mask is set. */
  predicate NoneMissing(m: seq<seq<bool>>) {
    forall i, j :: 0 <= i < |m| && 0 <= j < |m[i]| ==> !m[i][j]
  }

  /** A freshly created table is missing every cell. */
  lemma CreateIsAllNull(numRows: nat, numCols: nat)
    ensures var m := IsNull(Create(numRows, numCols));
      |m| == numRows && forall i, j :: 0 <= i < numRows && 0 <= j < numCols ==> m[i][j]
  {
  }

  /** The sum of the counts of a map. */
  ghost function SumCounts(m: map<string, nat>): nat
    decreases |m.Keys|
  {
    if m.Keys == {} then 0
    else
      var k :| k in m.Keys;
      m[k] + SumCounts(m - {k})
  }

  /** `SumCounts` may start from any key. */
  lemma {:induction false} SumCountsRemove(m: map<string, nat>, k: string)
    requires k in m
    ensures SumCounts(m) == m[k] + SumCounts(m - {k})
    decreases |m.Keys|, 1
  {
    var k' :| k' in m.Keys && SumCounts(m) == m[k'] + SumCounts(m - {k'});
    if k' != k {
      SumCountsExchange(m, k', k);
    }
  }

  /** The total taken from key `j` equals the total taken from key `k`. */
  lemma {:induction false} SumCountsExchange(m: map<string, nat>, j: string, k: string)
    requires j in m && k in m && j != k
    ensures m[j] + SumCounts(m - {j}) == m[k] + SumCounts(m - {k})
    decreases |m.Keys|, 0
  {
    var mj := m - {j};
    var mk := m - {k};
    assert k in mj && |mj.Keys| < |m.Keys| by {
      assert mj.Keys == m.Keys - {j};
    }
    assert j in mk && |mk.Keys| < |m.Keys| by {
      assert mk.Keys == m.Keys - {k};
    }
    SumCountsRemove(mj, k);
    SumCountsRemove(mk, j);
    assert mj[k] == m[k] && mk[j] == m[j];
    assert mj - {k} == mk - {j};
  }

  /** One more occurrence of `v`: its count goes up by one, or it enters
      with count one. */
  function Bump(m: map<string, nat>, v: string): map<string, nat> {
    if v in m then m[v := m[v] + 1] else m[v := 1]
  }

  /** Counting one more occurrence of `v` raises the total by one. */
  lemma SumCountsIncrement(m: map<string, nat>, v: string)
    ensures SumCounts(Bump(m, v)) == SumCounts(m) + 1
  {
    var m' := Bump(m, v);
    SumCountsRemove(m', v);
    if v in m {
      SumCountsRemove(m, v);
      assert m' - {v} == m - {v};
    } else {
      assert m' - {v} == m;
    }
  }

  /** `counts` holds exactly the texts of `seen`, each with its number of
      occurrences there. */
  ghost predicate Counts(counts: map<string, nat>, seen: seq<string>) {
    (forall v :: v in counts <==> v in seen)
    && (forall v :: v in counts ==> counts[v] == multiset(seen)[v])
  }

  /** Counting one more text keeps the counts equal to the occurrences seen. */
  lemma CountStep(counts: map<string, nat>, seen: seq<string>, value: string)
    requires Counts(counts, seen)
    ensures Counts(Bump(counts, value), seen + [value])
  {
    assert multiset(seen + [value]) == multiset(seen) + multiset{value};
    forall v ensures v in Bump(counts, value) <==> v in seen + [value] {
      assert v in seen + [value] <==> v in seen || v == value;
    }
  }

  /** The prefix one longer is the prefix and the next entry. */
  lemma PrefixGrows<T>(s: seq<T>, i: nat)
    requires i < |s|
    ensures s[..i + 1] == s[..i] + [s[i]]
  {
  }

  /** `value_counts(col)`: one pass over the column, adding one to the count
      of each cell's text, or entering it with count one. The result maps
      exactly the texts of the column to their numbers of occurrences, and
      the counts add up to the number of rows. */
  method ValueCounts(t: DataFrame, col: nat) returns (counts: map<string, nat>)
    requires t.Valid() && col < t.NumCols()
    ensures forall v :: v in counts <==> v in Column(t, col)
    ensures forall v :: v in counts ==> counts[v] == multiset(Column(t, col))[v]
    ensures SumCounts(counts) == t.NumRows()
  {
    var column := Column(t, col);
    counts := map[];
    var i := 0;
    while i < |column|
      invariant i <= |column|
      invariant Counts(counts, column[..i])
      invariant SumCounts(counts) == i
    {
      var value := column[i];
      PrefixGrows(column, i);
      CountStep(counts, column[..i], value);
      SumCountsIncrement(counts, value);
      counts := Bump(counts, value);
      i := i + 1;
    }
    assert column[..i] == column;
  }

  /** `nsmallest` with its comparator fixed to compare texts: the `n`
      smallest texts of a column, ascending. The column is sorted and its
      first `min(n, num_rows)` entries are kept. A negative `n` makes the
      source's result list impossible to allocate. */
  function NSmallest(t: DataFrame, col: nat, n: int): (r: Result<seq<string>>)
    requires t.Valid() && col < t.NumCols()
    ensures r.Err? <==> n < 0
    ensures r.Err? ==> r.error == NegativeCount
    ensures r.Ok? ==> |r.value| == Clamp(n, t.NumRows())
    ensures r.Ok? ==> Ascending(r.value)
    ensures r.Ok? ==> multiset(r.value) <= multiset(Column(t, col))
    ensures r.Ok? ==> forall x, y :: x in r.value && y in multiset(Column(t, col)) - multiset(r.value)
                        ==> LessEq(x, y)
  {
    if n < 0 then
      Err(NegativeCount)
    else
      var sorted := SortBy(Column(t, col), Identity);
      var k := Clamp(n, |sorted|);
      Smallest(sorted, k);
      Ok(sorted[..k])
  }

  /** The facts about a prefix of a sorted sequence that make it the smallest entries. */
  lemma Smallest(s: seq<string>, k: nat)
    requires k <= |s| && Ascending(s)
    ensures Ascending(s[..k])
    ensures multiset(s[..k]) <= multiset(s)
    ensures forall x, y :: x in s[..k] && y in multiset(s) - multiset(s[..k]) ==> LessEq(x, y)
  {
    assert s == s[..k] + s[k..];
    assert multiset(s) == multiset(s[..k]) + multiset(s[k..]);
    PrefixBelowRest(s, k, Identity);
    forall x, y | x in s[..k] && y in multiset(s) - multiset(s[..k])
      ensures LessEq(x, y)
    {
      assert y in multiset(s[k..]);
      assert LessEq(Identity(x), Identity(y));
    }
    forall i, j | 0 <= i < j < k
      ensures LessEq(Identity(s[..k][i]), Identity(s[..k][j]))
    {
      assert s[..k][i] == s[i] && s[..k][j] == s[j];
    }
  }

  /** Any ascending arrangement of the column gives the same answer as the
      reference sort, so the model does not depend on how `qsort` sorts. */
  lemma NSmallestAnySort(t: DataFrame, col: nat, n: nat, sorted: seq<string>)
    requires t.Valid() && col < t.NumCols()
    requires Ascending(sorted) && multiset(sorted) == multiset(Column(t, col))
    ensures NSmallest(t, col, n) == Ok(sorted[..Clamp(n, |sorted|)])
  {
    assert |sorted| == |multiset(sorted)| == |Column(t, col)|;
    SortedPermutationUnique(sorted, SortBy(Column(t, col), Identity));
  }

  /** `nlargest` with its comparator fixed to compare texts but its direction
      as written: it sorts the column ascending, like `nsmallest`, and keeps
      the front, so it returns the `n` smallest texts. This isolates the
      direction defect from the comparator defect of `NLargestAsWritten`. */
  function NLargestAscending(t: DataFrame, col: nat, n: int): (r: Result<seq<string>>)
    requires t.Valid() && col < t.NumCols()
    ensures r == NSmallest(t, col, n)
  {
    if n < 0 then
      Err(NegativeCount)
    else
      var sorted := SortBy(Column(t, col), Identity);
      Ok(sorted[..Clamp(n, |sorted|)])
  }

  /** `nlargest` as its documentation describes it: the `n` largest texts of
      the column, in descending order. */
  function NLargestDescending(t: DataFrame, col: nat, n: int): (r: Result<seq<string>>)
    requires t.Valid() && col < t.NumCols()
    ensures r.Err? <==> n < 0
    ensures r.Ok? ==> |r.value| == Clamp(n, t.NumRows())
    ensures r.Ok? ==> forall i, j :: 0 <= i < j < |r.value| ==> LessEq(r.value[j], r.value[i])
    ensures r.Ok? ==> multiset(r.value) <= multiset(Column(t, col))
    ensures r.Ok? ==> forall x, y :: x in r.value && y in multiset(Column(t, col)) - multiset(r.value)
                        ==> LessEq(y, x)
  {
    if n < 0 then
      Err(NegativeCount)
    else
      var sorted := SortBy(Column(t, col), Identity);
      var k := Clamp(n, |sorted|);
      Largest(sorted, k);
      Ok(Reverse(sorted[|sorted| - k..]))
  }

  function Reverse(s: seq<string>): (r: seq<string>)
    ensures |r| == |s|
    ensures forall i :: 0 <= i < |s| ==> r[i] == s[|s| - 1 - i]
    ensures multiset(r) == multiset(s)
  {
    if |s| == 0 then []
    else
      assert s == s[..|s| - 1] + [s[|s| - 1]];
      [s[|s| - 1]] + Reverse(s[..|s| - 1])
  }

  /** The facts about a reversed suffix of a sorted sequence that make it the largest entries. */
  lemma Largest(s: seq<string>, k: nat)
    requires k <= |s| && Ascending(s)
    ensures var r := Reverse(s[|s| - k..]);
      && (forall i, j :: 0 <= i < j < |r| ==> LessEq(r[j], r[i]))
      && multiset(r) <= multiset(s)
      && forall x, y :: x in r && y in multiset(s) - multiset(r) ==> LessEq(y, x)
  {
    LargestDescending(s, k);
    LargestAboveRest(s, k);
  }

  lemma LargestDescending(s: seq<string>, k: nat)
    requires k <= |s| && Ascending(s)
    ensures var r := Reverse(s[|s| - k..]);
      forall i, j :: 0 <= i < j < |r| ==> LessEq(r[j], r[i])
  {
    var r := Reverse(s[|s| - k..]);
    forall i, j | 0 <= i < j < |r|
      ensures LessEq(r[j], r[i])
    {
      assert r[j] == s[|s| - 1 - j] && r[i] == s[|s| - 1 - i];
      assert LessEq(Identity(s[|s| - 1 - j]), Identity(s[|s| - 1 - i]));
    }
  }

  lemma LargestAboveRest(s: seq<string>, k: nat)
    requires k <= |s| && Ascending(s)
    ensures var r := Reverse(s[|s| - k..]);
      && multiset(r) <= multiset(s)
      && forall x, y :: x in r && y in multiset(s) - multiset(r) ==> LessEq(y, x)
  {
    var m := |s| - k;
    var r := Reverse(s[m..]);
    assert s == s[..m] + s[m..];
    assert multiset(s) == multiset(s[..m]) + multiset(s[m..]);
    assert multiset(s) - multiset(r) == multiset(s[..m]);
    PrefixBelowRest(s, m, Identity);
    forall x, y | x in r && y in multiset(s[..m])
      ensures LessEq(y, x)
    {
      assert x in multiset(r);
      assert x in s[m..];
      assert y in s[..m];
      assert LessEq(Identity(y), Identity(x));
    }
  }

  /** On a column holding a and b, `nlargest(1)` with the comparator fixed
      but the direction as written answers a, where the largest text is b. */
  lemma NLargestCounterexample(t: DataFrame)
    requires t == DataFrame(["x"], [["a"], ["b"]])
    ensures NLargestAscending(t, 0, 1) == Ok(["a"])
    ensures NLargestDescending(t, 0, 1) == Ok(["b"])
  {
    var column := Column(t, 0);
    assert column == ["a", "b"];
    assert Less("a", "b");
    assert Ascending(["a", "b"]);
    NSmallestAnySort(t, 0, 1, ["a", "b"]);
    SortedPermutationUnique(SortBy(column, Identity), ["a", "b"]);
    assert ["a", "b"][1..] == ["b"];
    assert Reverse(["b"]) == ["b"];
  }

  /** One entry of the pointer array that `nsmallest` and `nlargest` hand to
      `qsort`: the cell it points to, and the bytes `strcmp` reads when it is
      given the address of the entry itself, which are those of the stored
      pointer up to its first zero byte. */
  datatype Slot = Slot(cell: string, bytes: string)

  function SlotBytes(s: Slot): string {
    s.bytes
  }

  /** `nsmallest` as written. Its comparator is `strcmp` cast to the `qsort`
      comparator type, so it receives the addresses of two array entries and
      compares the bytes of the pointers stored there, not the texts they
      point to. The pointer bytes depend on where the allocator placed the
      cells; they are the parameter `slotBytes`, one per row. */
  function NSmallestAsWritten(t: DataFrame, col: nat, n: int, slotBytes: seq<string>): (r: Result<seq<string>>)
    requires t.Valid() && col < t.NumCols() && |slotBytes| == t.NumRows()
    ensures r.Err? <==> n < 0
    ensures r.Ok? ==> |r.value| == Clamp(n, t.NumRows())
    ensures r.Ok? ==> forall x :: x in r.value ==> x in Column(t, col)
    ensures r.Ok? ==> multiset(r.value) <= multiset(Column(t, col))
  {
    if n < 0 then
      Err(NegativeCount)
    else
      var slots := Slots(Column(t, col), slotBytes);
      var sorted := SortBy(slots, SlotBytes);
      var k := Clamp(n, |sorted|);
      PrefixOfRearranged(sorted, slots, k);
      Ok(Cells(sorted)[..k])
  }

  /** The pointer array: entry i holds row i's cell, at bytes `bytes[i]`. */
  function Slots(column: seq<string>, bytes: seq<string>): (r: seq<Slot>)
    requires |bytes| == |column|
    ensures |r| == |column| && forall i :: 0 <= i < |r| ==> r[i] == Slot(column[i], bytes[i])
    ensures Cells(r) == column
  {
    var r := seq(|column|, i requires 0 <= i < |column| => Slot(column[i], bytes[i]));
    assert Cells(r) == column;
    r
  }

  /** The texts held by a sequence of slots, in order. */
  function Cells(ss: seq<Slot>): (r: seq<string>)
    ensures |r| == |ss| && forall i :: 0 <= i < |ss| ==> r[i] == ss[i].cell
  {
    seq(|ss|, i requires 0 <= i < |ss| => ss[i].cell)
  }

  /** The first `k` texts of rearranged slots are among the original texts. */
  lemma PrefixOfRearranged(sorted: seq<Slot>, slots: seq<Slot>, k: nat)
    requires multiset(sorted) == multiset(slots) && k <= |sorted|
    ensures multiset(Cells(sorted)[..k]) <= multiset(Cells(slots))
    ensures forall x :: x in Cells(sorted)[..k] ==> x in Cells(slots)
  {
    var cells := Cells(sorted);
    CellsOfPermutation(sorted, slots);
    assert cells == cells[..k] + cells[k..];
    forall x | x in cells[..k] ensures x in Cells(slots) {
      assert x in multiset(cells[..k]);
      assert x in multiset(Cells(slots));
    }
  }

  /** Rearranging the slots rearranges their texts: the same slots in any
      order hold the same texts. */
  lemma {:induction false} CellsOfPermutation(a: seq<Slot>, b: seq<Slot>)
    requires multiset(a) == multiset(b)
    ensures multiset(Cells(a)) == multiset(Cells(b))
    decreases |a|
  {
    if |a| == 0 {
      assert |multiset(b)| == 0;
      assert b == [];
    } else {
      var j := IndexOf(b, a[0]);
      var rest := b[..j] + b[j + 1..];
      assert multiset(a[1..]) == multiset(rest) by {
        DropFirst(a);
        RemoveAt(b, j);
      }
      CellsOfPermutation(a[1..], rest);
      CellsRemoveFirst(a);
      assert multiset(Cells(b)) == multiset(Cells(rest)) + multiset{a[0].cell} by {
        CellsRemoveAt(b, j);
      }
    }
  }

  /** The texts of slots are the first slot's text and those of the rest. */
  lemma CellsRemoveFirst(a: seq<Slot>)
    requires |a| > 0
    ensures multiset(Cells(a)) == multiset(Cells(a[1..])) + multiset{a[0].cell}
  {
    var c := Cells(a);
    assert c == [c[0]] + c[1..];
    assert Cells(a[1..]) == c[1..];
  }

  /** A position where `x` occurs in `s`. */
  lemma IndexOf<T>(s: seq<T>, x: T) returns (j: nat)
    requires x in multiset(s)
    ensures j < |s| && s[j] == x
  {
    j :| 0 <= j < |s| && s[j] == x;
  }

  /** Dropping the entry at `j` removes one occurrence of it. */
  lemma RemoveAt<T>(s: seq<T>, j: nat)
    requires j < |s|
    ensures multiset(s[..j] + s[j + 1..]) == multiset(s) - multiset{s[j]}
  {
    assert s == s[..j] + [s[j]] + s[j + 1..];
  }

  /** The texts of slots with the one at `j` dropped are the texts with that
      slot's text dropped. */
  lemma CellsRemoveAt(b: seq<Slot>, j: nat)
    requires j < |b|
    ensures multiset(Cells(b)) == multiset(Cells(b[..j] + b[j + 1..])) + multiset{b[j].cell}
  {
    var c := Cells(b);
    assert c == c[..j] + [c[j]] + c[j + 1..];
    assert Cells(b[..j] + b[j + 1..]) == c[..j] + c[j + 1..];
  }

  /** With the cells b, a stored at addresses whose bytes order b's entry
      first, `nsmallest(1)` as written answers b, where the smallest text is a. */
  lemma NSmallestAsWrittenCounterexample(t: DataFrame, low: string, high: string)
    requires t == DataFrame(["x"], [["b"], ["a"]]) && Less(low, high)
    ensures NSmallestAsWritten(t, 0, 1, [low, high]) == Ok(["b"])
    ensures NSmallest(t, 0, 1) == Ok(["a"])
  {
    var column := Column(t, 0);
    assert column == ["b", "a"];
    var slots := Slots(column, [low, high]);
    assert slots == [Slot("b", low), Slot("a", high)];
    SortTwoSlots(Slot("b", low), Slot("a", high));
    assert Clamp(1, 2) == 1;
    assert Cells(SortBy(slots, SlotBytes))[..1] == ["b"];
    SmallestOfBA(t);
  }

  lemma SortTwoSlots(s0: Slot, s1: Slot)
    requires LessEq(s0.bytes, s1.bytes)
    ensures SortBy([s0, s1], SlotBytes) == [s0, s1]
  {
    assert [s0, s1][1..] == [s1];
    assert SortBy([s1], SlotBytes) == [s1];
  }

  lemma SmallestOfBA(t: DataFrame)
    requires t == DataFrame(["x"], [["b"], ["a"]])
    ensures NSmallest(t, 0, 1) == Ok(["a"])
  {
    assert Less("a", "b");
    SmallestOfTwo(t, "a", "b");
  }

  /** On a column holding `hi` then `lo`, with `lo` the smaller text,
      `nsmallest(1)` is `lo`. */
  lemma SmallestOfTwo(t: DataFrame, lo: string, hi: string)
    requires t == DataFrame(["x"], [[hi], [lo]]) && Less(lo, hi)
    ensures NSmallest(t, 0, 1) == Ok([lo])
  {
    var sorted := [lo, hi];
    assert t.Valid() && 0 < t.NumCols();
    assert Ascending(sorted) by {
      assert LessEq(sorted[0], sorted[1]);
    }
    assert multiset(sorted) == multiset(Column(t, 0)) by {
      assert Column(t, 0) == [hi, lo];
    }
    NSmallestAnySort(t, 0, 1, sorted);
    assert sorted[..Clamp(1, |sorted|)] == [lo];
  }

  /** `nlargest` exactly as written: the same column extraction, the same
      `qsort` call with `strcmp` as comparator, and the same front of the
      result as `nsmallest`, so both answer alike for every placement of the
      cells in memory. */
  function NLargestAsWritten(t: DataFrame, col: nat, n: int, slotBytes: seq<string>): (r: Result<seq<string>>)
    requires t.Valid() && col < t.NumCols() && |slotBytes| == t.NumRows()
    ensures r == NSmallestAsWritten(t, col, n, slotBytes)
  {
    if n < 0 then
      Err(NegativeCount)
    else
      var sorted := SortBy(Slots(Column(t, col), slotBytes), SlotBytes);
      var k := Clamp(n, |sorted|);
      Ok(Cells(sorted)[..k])
  }

  /** With the cells a, b stored at addresses whose bytes order a's entry
      first, `nlargest(1)` as written answers a, where the largest text is b. */
  lemma NLargestAsWrittenCounterexample(t: DataFrame, low: string, high: string)
    requires t == DataFrame(["x"], [["a"], ["b"]]) && Less(low, high)
    ensures NLargestAsWritten(t, 0, 1, [low, high]) == Ok(["a"])
    ensures NLargestDescending(t, 0, 1) == Ok(["b"])
  {
    var column := Column(t, 0);
    assert column == ["a", "b"];
    var slots := Slots(column, [low, high]);
    assert slots == [Slot("a", low), Slot("b", high)];
    SortTwoSlots(Slot("a", low), Slot("b", high));
    assert Clamp(1, 2) == 1;
    assert Cells(SortBy(slots, SlotBytes))[..1] == ["a"];
    NLargestCounterexample(t);
  }
}
