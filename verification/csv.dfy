/**
 Ingestion (`loadCSV` in dataframes.c): the comma tokenizer and the
 construction of a table from the lines of a CSV file. Opening and reading
 the file is not modelled; the input is the sequence of lines as `fgets`
 returns them, each still carrying its newline.
 */
module Csv {
  import opened Frames

  const Comma: char := ','
  const Newline: char := '\n'

  /** The number of commas at the front of `s`. */
  function LeadingCommas(s: string): (k: nat)
    ensures k <= |s|
    ensures forall i :: 0 <= i < k ==> s[i] == Comma
    ensures k == |s| || s[k] != Comma
  {
    if |s| > 0 && s[0] == Comma then 1 + LeadingCommas(s[1..]) else 0
  }

  /** The length of the field at the front of `s`: up to the first comma. */
  function FieldLength(s: string): (k: nat)
    ensures k <= |s|
    ensures Comma !in s[..k]
    ensures k == |s| || s[k] == Comma
  {
    if |s| > 0 && s[0] != Comma then
      var k := FieldLength(s[1..]);
      assert s[..k + 1] == [s[0]] + s[1..][..k];
      1 + k
    else 0
  }

  /** The tokens `strtok(line, ",")` returns one after another: it skips any
      run of commas, then takes everything up to the next comma. Tokens are
      therefore never empty and consecutive commas collapse. */
  function Tokens(s: string): (r: seq<string>)
    ensures WellFormedFields(r)
    decreases |s|
  {
    var t := s[LeadingCommas(s)..];
    if |t| == 0 then []
    else
      var k := FieldLength(t);
      [t[..k]] + Tokens(t[k..])
  }

  /** The tokens written back out with a comma between neighbours. */
  function Join(ts: seq<string>): string {
    if |ts| == 0 then []
    else if |ts| == 1 then ts[0]
    else ts[0] + ([Comma] + Join(ts[1..]))
  }

  /** A list of tokens `strtok` could have produced: non-empty, comma-free. */
  predicate WellFormedFields(ts: seq<string>) {
    forall i :: 0 <= i < |ts| ==> ts[i] != [] && Comma !in ts[i]
  }

  /** Tokenizing undoes joining: the tokenizer recovers every well-formed field list. */
  lemma {:induction false} TokensOfJoin(ts: seq<string>)
    requires WellFormedFields(ts)
    ensures Tokens(Join(ts)) == ts
  {
    if |ts| == 1 {
      TokensOfField(ts[0], []);
      assert ts[0] + [] == ts[0];
    } else if |ts| > 1 {
      assert WellFormedFields(ts[1..]) by {
        forall i | 0 <= i < |ts| - 1 ensures ts[1..][i] != [] && Comma !in ts[1..][i] {
          assert ts[1..][i] == ts[i + 1];
        }
      }
      TokensOfJoin(ts[1..]);
      TokensOfJoinStep(ts);
    }
  }

  /** The inductive step: the first field, then the tokens of the rest. */
  lemma TokensOfJoinStep(ts: seq<string>)
    requires WellFormedFields(ts) && |ts| > 1
    requires Tokens(Join(ts[1..])) == ts[1..]
    ensures Tokens(Join(ts)) == ts
  {
    assert WellFormedFields(ts[1..]) by {
      forall i | 0 <= i < |ts| - 1 ensures ts[1..][i] != [] && Comma !in ts[1..][i] {
        assert ts[1..][i] == ts[i + 1];
      }
    }
    var rest := Join(ts[1..]);
    JoinStart(ts[1..]);
    assert Join(ts) == ts[0] + ([Comma] + rest);
    TokensOfFieldThenRest(ts[0], rest, ts[1..]);
    assert ts == [ts[0]] + ts[1..];
  }

  /** A field, a comma, then text whose tokens are known. */
  lemma TokensOfFieldThenRest(f: string, rest: string, tail: seq<string>)
    requires f != [] && Comma !in f
    requires rest != [] && rest[0] != Comma && Tokens(rest) == tail
    ensures Tokens(f + ([Comma] + rest)) == [f] + tail
  {
    TokensOfField(f, [Comma] + rest);
    TokensSkipComma(rest);
  }

  /** A non-empty join starts with the first field's first character. */
  lemma JoinStart(ts: seq<string>)
    requires WellFormedFields(ts) && |ts| > 0
    ensures Join(ts) != [] && Join(ts)[0] == ts[0][0] && Join(ts)[0] != Comma
  {
    assert ts[0][0] in ts[0];
  }

  /** A field followed by nothing or by a comma is the first token. */
  lemma TokensOfField(f: string, rest: string)
    requires f != [] && Comma !in f
    requires rest == [] || rest[0] == Comma
    ensures Tokens(f + rest) == [f] + Tokens(rest)
  {
    var s := f + rest;
    assert s[0] == f[0];
    assert LeadingCommas(s) == 0;
    FieldOfPrefix(f, rest);
    assert s[..|f|] == f && s[|f|..] == rest;
  }

  lemma {:induction false} FieldOfPrefix(f: string, rest: string)
    requires Comma !in f
    requires rest == [] || rest[0] == Comma
    ensures FieldLength(f + rest) == |f|
    decreases |f|
  {
    if |f| > 0 {
      assert (f + rest)[0] == f[0];
      assert (f + rest)[1..] == f[1..] + rest;
      FieldOfPrefix(f[1..], rest);
    } else {
      assert f + rest == rest;
    }
  }

  /** A comma in front changes nothing: `strtok` skips leading commas. */
  lemma TokensSkipComma(s: string)
    ensures Tokens([Comma] + s) == Tokens(s)
  {
    var c := [Comma] + s;
    assert c[1..] == s;
    assert LeadingCommas(c) == 1 + LeadingCommas(s);
    assert c[LeadingCommas(c)..] == s[LeadingCommas(s)..];
  }

  /** A field that ends before the end of `a` ends there whatever follows. */
  lemma {:induction false} FieldLengthExtend(a: string, rest: string)
    requires FieldLength(a) < |a|
    ensures FieldLength(a + rest) == FieldLength(a)
    decreases |a|
  {
    assert (a + rest)[0] == a[0];
    if a[0] != Comma {
      assert (a + rest)[1..] == a[1..] + rest;
      FieldLengthExtend(a[1..], rest);
    }
  }

  /** A comma splits the text: the tokens of `a , b` are those of `a`
      followed by those of `b`. With the single-field case (`TokensOfField`)
      and the empty text this determines the tokenizer on every input. */
  lemma {:induction false} TokensSplit(a: string, b: string)
    ensures Tokens(a + [Comma] + b) == Tokens(a) + Tokens(b)
    decreases |a|
  {
    var s := a + [Comma] + b;
    if |a| == 0 {
      assert s == [Comma] + b;
      TokensSkipComma(b);
    } else if a[0] == Comma {
      var rest := a[1..];
      assert s == [Comma] + (rest + [Comma] + b);
      assert a == [Comma] + rest;
      TokensSkipComma(rest + [Comma] + b);
      TokensSkipComma(rest);
      TokensSplit(rest, b);
    } else {
      assert s[0] == a[0];
      assert LeadingCommas(s) == 0 && LeadingCommas(a) == 0;
      var k := FieldLength(a);
      assert s == a + ([Comma] + b);
      if k < |a| {
        FieldLengthExtend(a, [Comma] + b);
        assert s[..k] == a[..k];
        assert s[k..] == a[k..] + [Comma] + b;
        TokensSplit(a[k..], b);
      } else {
        assert a[..|a|] == a;
        FieldOfPrefix(a, [Comma] + b);
        assert s[..|a|] == a && s[|a|..] == [Comma] + b;
        TokensSkipComma(b);
        assert a[|a|..] == [];
      }
    }
  }

  /** A trailing comma yields no token. */
  lemma TokensTrailingComma(s: string)
    ensures Tokens(s + [Comma]) == Tokens(s)
  {
    TokensSplit(s, []);
    assert s + [Comma] + [] == s + [Comma];
  }

  /** Two adjacent commas act as one: `strtok` never yields an empty token. */
  lemma TokensCommaRun(a: string, b: string)
    ensures Tokens(a + [Comma, Comma] + b) == Tokens(a + [Comma] + b)
  {
    assert a + [Comma, Comma] + b == a + [Comma] + ([Comma] + b);
    TokensSplit(a, [Comma] + b);
    TokensSkipComma(b);
    TokensSplit(a, b);
  }

  /** The line ended at its first newline, which is how the source drops the
      newline `fgets` leaves on each data line. */
  function StripNewline(line: string): (r: string)
    ensures |r| <= |line| && r == line[..|r|]
    ensures Newline !in r
    ensures |r| == |line| || line[|r|] == Newline
  {
    if |line| == 0 then []
    else if line[0] == Newline then []
    else
      var rest := StripNewline(line[1..]);
      assert line[..1 + |rest|] == [line[0]] + line[1..][..|rest|];
      [line[0]] + rest
  }

  /** A line of text followed by its newline is cut back to the text. */
  lemma {:induction false} StripTerminatedLine(s: string)
    requires Newline !in s
    ensures StripNewline(s + [Newline]) == s
  {
    if |s| > 0 {
      assert (s + [Newline])[1..] == s[1..] + [Newline];
      StripTerminatedLine(s[1..]);
      assert s == [s[0]] + s[1..];
    }
  }

  /** The cells of one data line. */
  function DataFields(line: string): seq<string> {
    Tokens(StripNewline(line))
  }

  /** The fields of every line, in file order. */
  function LinesFields(lines: seq<string>): (fs: seq<seq<string>>)
    ensures |fs| == |lines|
    ensures forall i :: 0 <= i < |lines| ==> fs[i] == DataFields(lines[i])
  {
    seq(|lines|, i requires 0 <= i < |lines| => DataFields(lines[i]))
  }

  /** `addRow` applied to each field list in turn, failing at the first one
      whose length differs from the column count. `first` is the line number
      of `rows[0]` in the file. */
  function AppendRows(t: DataFrame, rows: seq<seq<string>>, first: nat): (r: Result<DataFrame>)
    requires t.Valid()
    ensures r.Ok? <==> forall i :: 0 <= i < |rows| ==> |rows[i]| == t.NumCols()
    ensures r.Ok? ==> r.value.Valid() && r.value.headers == t.headers
    ensures r.Ok? ==> r.value.rows == t.rows + rows
    ensures r.Err? ==> r.error.ShapeMismatch? && first <= r.error.line < first + |rows|
    ensures r.Err? ==> |rows[r.error.line - first]| != t.NumCols()
    decreases |rows|
  {
    if |rows| == 0 then
      Ok(t)
    else if |rows[0]| != t.NumCols() then
      Err(ShapeMismatch(first))
    else
      var r := AppendRows(AddRow(t, rows[0]), rows[1..], first + 1);
      assert t.rows + rows == t.rows + [rows[0]] + rows[1..];
      r
  }

  /** The column names a header line gives. The source counts the tokens of
      the header line with its newline still attached, so that count is the
      column count; the newline, which can only sit at the end of the last
      token, is then dropped from it. */
  function HeaderFields(line: string): (hs: seq<string>)
    ensures |hs| == |Tokens(line)|
  {
    var ts := Tokens(line);
    if |ts| == 0 then [] else ts[..|ts| - 1] + [StripNewline(ts[|ts| - 1])]
  }

  /** `loadCSV` as it should behave: the column count is the number of tokens
      of the header line, as in the source, and the column names are those
      tokens; every later line becomes one row. A file without a header line
      is an `IoError`; a data line with the wrong number of fields is a
      `ShapeMismatch`. */
  function LoadCsv(lines: seq<string>): (r: Result<DataFrame>)
    ensures r.Err? && r.error == IoError <==> |lines| == 0
    ensures |lines| > 0 && r.Err? ==> r.error.ShapeMismatch?
    ensures r.Ok? ==> r.value.Valid()
    ensures r.Ok? ==> r.value.headers == HeaderFields(lines[0]) && r.value.NumCols() == |Tokens(lines[0])|
    ensures r.Ok? ==> r.value.NumRows() == |lines| - 1
    ensures r.Ok? ==> forall i :: 0 < i < |lines| ==> r.value.rows[i - 1] == DataFields(lines[i])
    ensures |lines| > 0 ==>
      (r.Ok? <==> forall i :: 0 < i < |lines| ==> |DataFields(lines[i])| == |Tokens(lines[0])|)
    ensures r.Err? && r.error.ShapeMismatch? ==>
      0 < r.error.line < |lines| && |DataFields(lines[r.error.line])| != |Tokens(lines[0])|
  {
    if |lines| == 0 then Err(IoError)
    else LoadRows(DataFrame(HeaderFields(lines[0]), []), lines)
  }

  /** `loadCSV` as written: the column count comes from tokenizing the header
      line with its newline still attached, and the header tokens are counted
      but never stored, so every column name stays empty. The rows are read
      as in the corrected load. */
  function LoadCsvAsWritten(lines: seq<string>): (r: Result<DataFrame>)
    ensures r.Err? && r.error == IoError <==> |lines| == 0
    ensures |lines| > 0 && r.Err? ==> r.error.ShapeMismatch?
    ensures r.Ok? ==> r.value.Valid()
    ensures r.Ok? ==> r.value.NumCols() == |Tokens(lines[0])|
    ensures r.Ok? ==> forall j :: 0 <= j < r.value.NumCols() ==> r.value.headers[j] == Missing
    ensures r.Ok? ==> r.value.NumRows() == |lines| - 1
    ensures r.Ok? ==> forall i :: 0 < i < |lines| ==> r.value.rows[i - 1] == DataFields(lines[i])
    ensures |lines| > 0 ==>
      (r.Ok? <==> forall i :: 0 < i < |lines| ==> |DataFields(lines[i])| == |Tokens(lines[0])|)
    ensures r.Err? && r.error.ShapeMismatch? ==>
      0 < r.error.line < |lines| && |DataFields(lines[r.error.line])| != |Tokens(lines[0])|
  {
    if |lines| == 0 then Err(IoError)
    else LoadRows(Create(0, |Tokens(lines[0])|), lines)
  }

  /** The data lines of a file, appended to the empty table built from its header. */
  function LoadRows(t: DataFrame, lines: seq<string>): (r: Result<DataFrame>)
    requires |lines| > 0 && t.Valid() && t.rows == []
    ensures r.Ok? ==> r.value.Valid() && r.value.headers == t.headers
    ensures r.Ok? ==> r.value.NumRows() == |lines| - 1
    ensures r.Ok? ==> forall i :: 0 < i < |lines| ==> r.value.rows[i - 1] == DataFields(lines[i])
    ensures r.Ok? <==> forall i :: 0 < i < |lines| ==> |DataFields(lines[i])| == t.NumCols()
    ensures r.Err? ==> r.error.ShapeMismatch?
    ensures r.Err? ==> 0 < r.error.line < |lines| && |DataFields(lines[r.error.line])| != t.NumCols()
  {
    var fs := LinesFields(lines[1..]);
    assert forall i :: 0 < i < |lines| ==> fs[i - 1] == DataFields(lines[i]);
    AppendRows(t, fs, 1)
  }

  /** Fields that survive a write and a read: well-formed and newline-free. */
  predicate PlainFields(fs: seq<string>) {
    WellFormedFields(fs) && forall i :: 0 <= i < |fs| ==> Newline !in fs[i]
  }

  /** A table every one of whose header and cell texts is plain. */
  predicate Plain(t: DataFrame) {
    PlainFields(t.headers) && forall i :: 0 <= i < |t.rows| ==> PlainFields(t.rows[i])
  }

  /** One line of a CSV file: the fields joined by commas, then a newline. */
  function Line(fs: seq<string>): string {
    Join(fs) + [Newline]
  }

  /** A table written out as CSV lines: the header line, then one line per row. */
  function Render(t: DataFrame): (lines: seq<string>)
    ensures |lines| == t.NumRows() + 1
    ensures lines[0] == Line(t.headers)
    ensures forall i :: 0 < i < |lines| ==> lines[i] == Line(t.rows[i - 1])
  {
    [Line(t.headers)] + seq(|t.rows|, i requires 0 <= i < |t.rows| => Line(t.rows[i]))
  }

  /** Every character of a join comes from a field or is a separating comma. */
  lemma {:induction false} JoinChars(fs: seq<string>, c: char)
    requires c in Join(fs)
    ensures c == Comma || exists i :: 0 <= i < |fs| && c in fs[i]
  {
    if |fs| > 1 {
      var rest := Join(fs[1..]);
      assert Join(fs) == fs[0] + ([Comma] + rest);
      if c !in fs[0] && c != Comma {
        assert c in rest;
        JoinChars(fs[1..], c);
        var i :| 0 <= i < |fs[1..]| && c in fs[1..][i];
        assert c in fs[i + 1];
      }
    } else if |fs| == 1 {
      assert c in fs[0];
    }
  }

  /** Reading back a written line yields its fields. */
  lemma DataFieldsOfLine(fs: seq<string>)
    requires PlainFields(fs)
    ensures DataFields(Line(fs)) == fs
  {
    if Newline in Join(fs) {
      JoinChars(fs, Newline);
      assert false;
    }
    StripTerminatedLine(Join(fs));
    TokensOfJoin(fs);
  }

  /** Reading a written table back gives the same table: every plain, valid
      table with at least one column round-trips through its CSV text. */
  lemma LoadCsvRoundTrip(t: DataFrame)
    requires t.Valid() && Plain(t) && t.NumCols() > 0
    ensures LoadCsv(Render(t)) == Ok(t)
  {
    var lines := Render(t);
    HeaderFieldsOfLine(t.headers);
    forall i | 0 < i < |lines|
      ensures DataFields(lines[i]) == t.rows[i - 1]
    {
      DataFieldsOfLine(t.rows[i - 1]);
    }
    var r := LoadCsv(lines);
    assert r.Ok?;
    assert r.value.rows == t.rows;
  }

  /** Extending the last field extends the joined text by the same suffix. */
  lemma {:induction false} JoinExtendLast(fs: seq<string>, s: string)
    requires |fs| > 0
    ensures Join(fs[..|fs| - 1] + [fs[|fs| - 1] + s]) == Join(fs) + s
  {
    var ext := fs[..|fs| - 1] + [fs[|fs| - 1] + s];
    if |fs| > 1 {
      var tail := fs[1..];
      JoinExtendLast(tail, s);
      assert ext[1..] == tail[..|tail| - 1] + [tail[|tail| - 1] + s];
      assert Join(ext) == ext[0] + ([Comma] + Join(ext[1..]));
      assert Join(fs) == fs[0] + ([Comma] + Join(tail));
    }
  }

  /** Tokenized with its newline, a written line gives its fields, the
      newline riding on the last one. */
  lemma TokensOfLine(fs: seq<string>)
    requires PlainFields(fs) && |fs| > 0
    ensures Tokens(Line(fs)) == fs[..|fs| - 1] + [fs[|fs| - 1] + [Newline]]
  {
    var ext := fs[..|fs| - 1] + [fs[|fs| - 1] + [Newline]];
    JoinExtendLast(fs, [Newline]);
    assert WellFormedFields(ext) by {
      forall i | 0 <= i < |ext| ensures ext[i] != [] && Comma !in ext[i] {
        if i < |fs| - 1 {
          assert ext[i] == fs[i];
        } else {
          assert ext[i] == fs[i] + [Newline];
          assert Comma !in fs[i];
        }
      }
    }
    TokensOfJoin(ext);
  }

  /** The header line keeps its newline when the source counts its tokens:
      the newline lands in the last token and the count is unchanged. */
  lemma HeaderCountWithNewline(fs: seq<string>)
    requires PlainFields(fs) && |fs| > 0
    ensures |Tokens(Line(fs))| == |fs|
  {
    TokensOfLine(fs);
  }

  /** A written header line gives back its column names. */
  lemma HeaderFieldsOfLine(fs: seq<string>)
    requires PlainFields(fs) && |fs| > 0
    ensures HeaderFields(Line(fs)) == fs
  {
    TokensOfLine(fs);
    assert Newline !in fs[|fs| - 1];
    HeaderFieldsOfTerminated(Line(fs), fs);
  }

  /** A line whose tokens are `fs` with a newline on the last one names the
      columns `fs`. */
  lemma HeaderFieldsOfTerminated(line: string, fs: seq<string>)
    requires |fs| > 0 && Newline !in fs[|fs| - 1]
    requires Tokens(line) == fs[..|fs| - 1] + [fs[|fs| - 1] + [Newline]]
    ensures HeaderFields(line) == fs
  {
    var ts := fs[..|fs| - 1] + [fs[|fs| - 1] + [Newline]];
    HeaderFieldsUnfold(line, ts);
    StripLastToken(fs, ts);
  }

  /** Stripping the newline off the last token undoes adding it. */
  lemma StripLastToken(fs: seq<string>, ts: seq<string>)
    requires |fs| > 0 && Newline !in fs[|fs| - 1]
    requires ts == fs[..|fs| - 1] + [fs[|fs| - 1] + [Newline]]
    ensures ts[..|ts| - 1] + [StripNewline(ts[|ts| - 1])] == fs
  {
    var n := |fs|;
    assert ts[..n - 1] == fs[..n - 1] && ts[n - 1] == fs[n - 1] + [Newline];
    StripTerminatedLine(fs[n - 1]);
    assert fs == fs[..n - 1] + [fs[n - 1]];
  }

  lemma HeaderFieldsUnfold(line: string, ts: seq<string>)
    requires Tokens(line) == ts && |ts| > 0
    ensures HeaderFields(line) == ts[..|ts| - 1] + [StripNewline(ts[|ts| - 1])]
  {
  }

  /** A header line holding only its newline is one column, not none: the
      newline is a token of its own. So a table without columns does not
      survive a write and a read. */
  lemma BlankHeaderIsOneColumn(lines: seq<string>)
    requires lines == [[Newline]]
    ensures LoadCsv(lines) == Ok(DataFrame([Missing], []))
  {
    var line := lines[0];
    assert LeadingCommas(line) == 0;
    assert line[1..] == [];
    assert FieldLength(line) == 1;
    assert line[..1] == line && line[1..] == [];
    assert Tokens(line) == [line];
    assert StripNewline(line) == Missing;
    HeaderFieldsUnfold(line, [line]);
    assert HeaderFields(line) == [Missing];
    assert lines[1..] == [];
    assert LinesFields(lines[1..]) == [];
  }

  /** Read as the source does, a written table comes back with the right
      shape and rows but with every column name lost. */
  lemma LoadCsvAsWrittenLosesHeaders(t: DataFrame)
    requires t.Valid() && Plain(t) && t.NumCols() > 0
    ensures LoadCsvAsWritten(Render(t)) == Ok(DataFrame(seq(t.NumCols(), _ => Missing), t.rows))
    ensures LoadCsvAsWritten(Render(t)) != LoadCsv(Render(t))
  {
    var lines := Render(t);
    HeaderCountWithNewline(t.headers);
    forall i | 0 < i < |lines|
      ensures DataFields(lines[i]) == t.rows[i - 1]
    {
      DataFieldsOfLine(t.rows[i - 1]);
    }
    var r := LoadCsvAsWritten(lines);
    assert r.Ok?;
    assert r.value.rows == t.rows;
    LoadCsvRoundTrip(t);
    assert t.headers[0] != Missing;
  }

  /** The file with header `a,b,c` and rows `1,2,3` and `4,5,6`. */
  function ExampleTable(): DataFrame {
    DataFrame(["a", "b", "c"], [["1", "2", "3"], ["4", "5", "6"]])
  }

  /** Loading that file gives columns a, b, c, shape (2, 3) and first row 1, 2, 3. */
  lemma LoadCsvExample(t: DataFrame)
    requires t == ExampleTable()
    ensures LoadCsv(Render(t)) == Ok(t)
    ensures t.headers == ["a", "b", "c"] && Shape(t) == (2, 3) && t.rows[0] == ["1", "2", "3"]
  {
    assert PlainFields(t.headers) && PlainFields(t.rows[0]) && PlainFields(t.rows[1]);
    LoadCsvRoundTrip(t);
  }
}
