/**
 * The table the cleaning script works on, and each of its transformations
 * as a function from rows to rows. A row is positional: cell `c` of a row
 * belongs to column `c` of the frame's column list, so renaming the columns
 * leaves the rows alone and two columns may end up with the same name.
 */
module Table {
  import opened Wrappers
  import opened Text
  import opened Selection

  /** A cell: text as read from the file, a number produced by
      `pd.to_numeric`, or pandas' missing marker (NaN). */
  datatype Cell = Str(text: string) | Num(value: real) | NaN

  type Row = seq<Cell>

  /** The lenient number parser behind `pd.to_numeric(errors='coerce')`:
      `None` for text that is not a number or that reads as NaN. */
  type Parser = string -> Option<real>

  /** `df[name]` fails when no column has that name (a KeyError), and when
      several do (pandas then returns a frame, which `to_numeric` and the
      `.str` accessor reject). */
  datatype Error = MissingColumn(name: string) | AmbiguousColumn(name: string)

  /** The categorical columns marine.py line 24 normalises, in loop order. */
  const TextColumns: seq<string> := ["category", "variable", "units", "magnitude", "source", "flag"]

  predicate Rectangular(rows: seq<Row>, width: nat) {
    forall k :: 0 <= k < |rows| ==> |rows[k]| == width
  }

  /** `df[name]`: the one column called `name`. */
  function Locate(columns: seq<string>, name: string): (r: Result<nat, Error>)
    ensures r.Success? ==> r.value < |columns| && columns[r.value] == name
  {
    if name !in columns then Failure(MissingColumn(name))
    else
      var j := FirstIndex(columns, name);
      if name in columns[j + 1..] then
        Failure(AmbiguousColumn(name))
      else
        assert forall k :: j < k < |columns| ==> columns[k] == columns[j + 1..][k - j - 1];
        assert forall k :: 0 <= k < j ==> columns[k] == columns[..j][k];
        Success(j)
  }

  /** `df[name]` finds the only header that is `name`; it fails with a
      missing column exactly when no header is `name`, with an ambiguous
      column exactly when two are, and the error names the column looked up. */
  lemma LocateExactly(columns: seq<string>, name: string)
    ensures Locate(columns, name).Success? ==>
              forall k :: 0 <= k < |columns| && k != Locate(columns, name).value ==> columns[k] != name
    ensures Locate(columns, name) == Failure(MissingColumn(name)) <==> name !in columns
    ensures Locate(columns, name) == Failure(AmbiguousColumn(name)) <==>
              exists a, b :: 0 <= a < b < |columns| && columns[a] == name && columns[b] == name
    ensures Locate(columns, name).Failure? ==> Locate(columns, name).error.name == name
  {
    if name in columns {
      var j := FirstIndex(columns, name);
      if name in columns[j + 1..] {
        var b :| j < b < |columns| && columns[b] == name;
        assert columns[b] in columns[j + 1..];
      }
    }
  }

  /** In a header list without repeated names, every name is found at its own position. */
  lemma LocateDistinct(columns: seq<string>, i: nat)
    requires NoDuplicates(columns) && i < |columns|
    ensures Locate(columns, columns[i]) == Success(i)
  {
    assert columns[i] in columns;
  }

  /** `df[col] = f(df[col])`: column `j` of every row is rewritten by `f`;
      the number of rows, their order and every other cell are unchanged. */
  function SetColumn(rows: seq<Row>, j: nat, f: Cell -> Cell): (r: seq<Row>)
    requires forall k :: 0 <= k < |rows| ==> j < |rows[k]|
    ensures |r| == |rows|
    ensures forall k :: 0 <= k < |rows| ==> |r[k]| == |rows[k]| && r[k][j] == f(rows[k][j])
    ensures forall k, c :: 0 <= k < |rows| && 0 <= c < |rows[k]| && c != j ==> r[k][c] == rows[k][c]
  {
    seq(|rows|, k requires 0 <= k < |rows| => rows[k][j := f(rows[k][j])])
  }

  /** `pd.to_numeric(errors='coerce')` on one cell: text becomes the number it
      parses to, or NaN when it does not parse; numbers and NaN stay. */
  function ToNumeric(c: Cell, parse: Parser): (r: Cell)
    ensures !r.Str?
    ensures c.Str? ==> (r.NaN? <==> parse(c.text).None?)
    ensures c.Str? && r.Num? ==> parse(c.text) == Some(r.value)
    ensures !c.Str? ==> r == c
  {
    match c
    case Str(s) => (match parse(s) case Some(v) => Num(v) case None => NaN)
    case _ => c
  }

  /** marine.py lines 14-15: one column replaced by its numeric coercion. */
  function CoerceColumn(rows: seq<Row>, j: nat, parse: Parser): (r: seq<Row>)
    requires forall k :: 0 <= k < |rows| ==> j < |rows[k]|
    ensures |r| == |rows|
    ensures forall k :: 0 <= k < |rows| ==> |r[k]| == |rows[k]| && !r[k][j].Str?
    ensures forall k, c :: 0 <= k < |rows| && 0 <= c < |rows[k]| && c != j ==> r[k][c] == rows[k][c]
  {
    SetColumn(rows, j, c => ToNumeric(c, parse))
  }

  /** A loaded cell that `to_numeric(errors='coerce')` turns into a number:
      a number already, or text that parses. */
  predicate Present(c: Cell, parse: Parser) {
    c.Num? || (c.Str? && parse(c.text).Some?)
  }

  /** The mask of `dropna(subset=[year, data_value])`: neither cell is NaN. */
  function BothPresent(y: nat, d: nat): Row -> bool {
    (r: Row) => y < |r| && d < |r| && !r[y].NaN? && !r[d].NaN?
  }

  /** marine.py line 18. */
  function DropIncomplete(rows: seq<Row>, y: nat, d: nat): seq<Row> {
    Select(rows, Where(BothPresent(y, d)))
  }

  /** marine.py line 21: `drop_duplicates()` over all columns, first occurrence kept. */
  function DropDuplicates(rows: seq<Row>): seq<Row> {
    Select(rows, FirstOccurrence())
  }

  /** `astype(str).str.strip().str.lower()` on one cell. */
  function NormalizeCell(c: Cell): (r: Cell)
    ensures c.Str? <==> r.Str?
    ensures r.Str? ==> IsStripped(r.text) && IsLowerCase(r.text)
    ensures !c.Str? ==> r == c
  {
    match c
    case Str(s) => Str(NormalizeText(s))
    case _ => c
  }

  /** Normalising a cell twice is normalising it once. */
  lemma NormalizeCellIdempotent(c: Cell)
    ensures NormalizeCell(NormalizeCell(c)) == NormalizeCell(c)
  {
    if c.Str? {
      NormalizeTextIdempotent(c.text);
    }
  }

  /** marine.py lines 24-25: the named columns, one after another, each
      located and rewritten by `NormalizeCell`. Fails at the first name that
      does not locate exactly one column. */
  function NormalizeTextColumns(columns: seq<string>, rows: seq<Row>, names: seq<string>): Result<seq<Row>, Error>
    requires Rectangular(rows, |columns|)
    decreases |names|
  {
    if names == [] then Success(rows)
    else
      var j :- Locate(columns, names[0]);
      NormalizeTextColumns(columns, SetColumn(rows, j, NormalizeCell), names[1..])
  }

  /** The mask `df[col] == value`. */
  function CellIs(j: nat, value: Cell): Row -> bool {
    (r: Row) => j < |r| && r[j] == value
  }

  /** marine.py line 28: rows whose magnitude cell is the text "actual",
      renumbered from zero by `reset_index(drop=True)`. */
  function KeepActual(rows: seq<Row>, m: nat): seq<Row> {
    Select(rows, Where(CellIs(m, Str("actual"))))
  }

  // ------------------------------------------------------------------
  // Properties of each stage
  // ------------------------------------------------------------------

  /** Every stage that only drops rows keeps the table rectangular. */
  lemma SelectRectangular(rows: seq<Row>, keep: Test<Row>, width: nat)
    requires Rectangular(rows, width)
    ensures Rectangular(Select(rows, keep), width)
  {
    forall k | 0 <= k < |Select(rows, keep)|
      ensures |Select(rows, keep)[k]| == width
    {
      SelectSubset(rows, keep, Select(rows, keep)[k]);
    }
  }

  /** Lines 14-18: whatever the loaded cells hold, a row survives numeric
      coercion of `year` and `data_value` and the `dropna` exactly when both
      cells are `Present` (a number, or text that parses), and the survivors are the coerced rows at the kept, increasing
      positions, so they keep their relative order. */
  lemma {:induction false} DropIncompleteExactly(rows: seq<Row>, y: nat, d: nat, parse: Parser)
    requires forall k :: 0 <= k < |rows| ==> y < |rows[k]| && d < |rows[k]|
    ensures var coerced: seq<Row> := CoerceColumn(CoerceColumn(rows, y, parse), d, parse);
            && (forall i :: 0 <= i < |rows| ==>
                  (i in Kept(coerced, Where(BothPresent(y, d))) <==>
                   Present(rows[i][y], parse) && Present(rows[i][d], parse)))
            && (forall r: Row :: r in DropIncomplete(coerced, y, d) ==> y < |r| && d < |r| && r[y].Num? && r[d].Num?)
            && |DropIncomplete(coerced, y, d)| <= |rows|
    ensures var coerced: seq<Row> := CoerceColumn(CoerceColumn(rows, y, parse), d, parse);
            var idx := Kept(coerced, Where(BothPresent(y, d)));
            |DropIncomplete(coerced, y, d)| == |idx| && Increasing(idx) &&
            forall k :: 0 <= k < |idx| ==> DropIncomplete(coerced, y, d)[k] == coerced[idx[k]]
  {
    var once: seq<Row> := CoerceColumn(rows, y, parse);
    var coerced: seq<Row> := CoerceColumn(once, d, parse);
    FilterExactly(coerced, BothPresent(y, d));
    SelectAt(coerced, Where(BothPresent(y, d)));
    forall i | 0 <= i < |rows|
      ensures !coerced[i][y].NaN? <==> Present(rows[i][y], parse)
      ensures !coerced[i][d].NaN? <==> Present(rows[i][d], parse)
    {
      if y == d {
        assert coerced[i][d] == once[i][y];
      }
    }
  }
  /** A year that `read_csv` already loaded as a number survives lines 14-18
      beside a value text that parses. */
  lemma LoadedNumberSurvives(year: real, value: string, parse: Parser)
    requires parse(value).Some?
    ensures DropIncomplete(CoerceColumn(CoerceColumn([[Num(year), Str(value)]], 0, parse), 1, parse), 0, 1)
              == [[Num(year), Num(parse(value).value)]]
  {
    var rows: seq<Row> := [[Num(year), Str(value)]];
    DropIncompleteExactly(rows, 0, 1, parse);
    var once := CoerceColumn(rows, 0, parse);
    assert once[0][0] == ToNumeric(Num(year), parse);
    var coerced := CoerceColumn(once, 1, parse);
    assert coerced[0][1] == ToNumeric(Str(value), parse);
    assert coerced[0] == [Num(year), Num(parse(value).value)];
  }


  /** Line 21: the result has no two equal rows; a row value is in the result
      exactly when it is in the input; the row at position `i` is kept exactly
      when it is the first occurrence of its value; and the kept rows are the
      input's rows at increasing positions, so their order is preserved. */
  lemma DropDuplicatesExactly(rows: seq<Row>)
    ensures NoDuplicates(DropDuplicates(rows))
    ensures forall r :: r in DropDuplicates(rows) <==> r in rows
    ensures forall i :: 0 <= i < |rows| ==> (i in Kept(rows, FirstOccurrence()) <==> rows[i] !in rows[..i])
    ensures var idx := Kept(rows, FirstOccurrence());
            |DropDuplicates(rows)| == |idx| && Increasing(idx) &&
            forall k :: 0 <= k < |idx| ==> DropDuplicates(rows)[k] == rows[idx[k]]
  {
    DedupHasNoDuplicates(rows);
    DedupKeepsFirstOccurrences(rows);
    SelectAt(rows, FirstOccurrence());
  }

  /** Lines 24-25: the loop succeeds exactly when every name locates one
      column, and then changes only the cells of the named columns, each to
      its normalised form; no row is added, removed or reordered. */
  lemma {:induction false} NormalizeTextColumnsEffect(columns: seq<string>, rows: seq<Row>, names: seq<string>)
    requires Rectangular(rows, |columns|)
    ensures NormalizeTextColumns(columns, rows, names).Success? <==>
            forall n :: n in names ==> Locate(columns, n).Success?
    ensures NormalizeTextColumns(columns, rows, names).Success? ==>
            var r := NormalizeTextColumns(columns, rows, names).value;
            && |r| == |rows| && Rectangular(r, |columns|)
            && (forall k, c :: 0 <= k < |rows| && 0 <= c < |columns| && columns[c] in names ==>
                  r[k][c] == NormalizeCell(rows[k][c]))
            && (forall k, c :: 0 <= k < |rows| && 0 <= c < |columns| && columns[c] !in names ==>
                  r[k][c] == rows[k][c])
    decreases |names|
  {
    if names != [] {
      var located := Locate(columns, names[0]);
      if located.Success? {
        var j := located.value;
        var next := SetColumn(rows, j, NormalizeCell);
        NormalizeTextColumnsEffect(columns, next, names[1..]);
        assert forall n :: n in names <==> n == names[0] || n in names[1..];
      }
    }
  }

  /** Lines 24-25 on failure: the error is the lookup of the first name that
      does not locate one column; every name before it located one. */
  lemma {:induction false} NormalizeTextColumnsFailure(columns: seq<string>, rows: seq<Row>, names: seq<string>)
    requires Rectangular(rows, |columns|)
    requires NormalizeTextColumns(columns, rows, names).Failure?
    ensures exists i :: 0 <= i < |names| &&
              Locate(columns, names[i]) == Failure(NormalizeTextColumns(columns, rows, names).error) &&
              forall p :: 0 <= p < i ==> Locate(columns, names[p]).Success?
    decreases |names|
  {
    var located := Locate(columns, names[0]);
    if located.Success? {
      var next := SetColumn(rows, located.value, NormalizeCell);
      NormalizeTextColumnsFailure(columns, next, names[1..]);
      var i :| 0 <= i < |names[1..]| &&
               Locate(columns, names[1..][i]) == Failure(NormalizeTextColumns(columns, next, names[1..]).error) &&
               forall p :: 0 <= p < i ==> Locate(columns, names[1..][p]).Success?;
      assert forall p :: 1 <= p < i + 1 ==> names[p] == names[1..][p - 1];
    } else {
      assert Locate(columns, names[0]) == Failure(NormalizeTextColumns(columns, rows, names).error);
    }
  }

  /** Line 28: a row is kept exactly when its magnitude cell is "actual";
      every row of the result has that magnitude; the result is no longer
      than the input, and its rows are the input's rows at the kept,
      increasing positions, so their order is preserved. */
  lemma KeepActualExactly(rows: seq<Row>, m: nat)
    requires forall k :: 0 <= k < |rows| ==> m < |rows[k]|
    ensures forall i :: 0 <= i < |rows| ==> (i in Kept(rows, Where(CellIs(m, Str("actual")))) <==> rows[i][m] == Str("actual"))
    ensures forall r :: r in KeepActual(rows, m) ==> r in rows && r[m] == Str("actual")
    ensures |KeepActual(rows, m)| <= |rows|
    ensures var idx := Kept(rows, Where(CellIs(m, Str("actual"))));
            |KeepActual(rows, m)| == |idx| && Increasing(idx) &&
            forall k :: 0 <= k < |idx| ==> KeepActual(rows, m)[k] == rows[idx[k]]
  {
    FilterExactly(rows, CellIs(m, Str("actual")));
    SelectAt(rows, Where(CellIs(m, Str("actual"))));
  }

  // ------------------------------------------------------------------
  // The key set of the category-by-year pivot (marine.py line 67)
  // ------------------------------------------------------------------

  /** The `data_value` cells grouped by (category, year) pair, in row order:
      the groups `pivot_table(aggfunc='mean')` averages. */
  function Groups(rows: seq<Row>, c: nat, y: nat, v: nat): (g: map<(Cell, Cell), seq<Cell>>)
    requires forall k :: 0 <= k < |rows| ==> c < |rows[k]| && y < |rows[k]| && v < |rows[k]|
    ensures forall key :: key in g ==> |g[key]| > 0
  {
    if rows == [] then map[]
    else
      var n := |rows| - 1;
      var g := Groups(rows[..n], c, y, v);
      var key := (rows[n][c], rows[n][y]);
      g[key := (if key in g then g[key] else []) + [rows[n][v]]]
  }

  /** The pivot has a cell for a (category, year) pair exactly when some row
      has that category and year; absent pairs get no cell at all. */
  lemma {:induction false} GroupsKeys(rows: seq<Row>, c: nat, y: nat, v: nat)
    requires forall k :: 0 <= k < |rows| ==> c < |rows[k]| && y < |rows[k]| && v < |rows[k]|
    ensures forall cat, year :: (cat, year) in Groups(rows, c, y, v) <==>
              exists k :: 0 <= k < |rows| && rows[k][c] == cat && rows[k][y] == year
  {
    if rows != [] {
      var n := |rows| - 1;
      GroupsKeys(rows[..n], c, y, v);
      forall cat, year
        ensures (cat, year) in Groups(rows, c, y, v) <==>
                exists k :: 0 <= k < |rows| && rows[k][c] == cat && rows[k][y] == year
      {
        if exists k :: 0 <= k < |rows| && rows[k][c] == cat && rows[k][y] == year {
          var k :| 0 <= k < |rows| && rows[k][c] == cat && rows[k][y] == year;
          if k < n { assert rows[..n][k] == rows[k]; }
        }
        if exists k :: 0 <= k < n && rows[..n][k][c] == cat && rows[..n][k][y] == year {
          var k :| 0 <= k < n && rows[..n][k][c] == cat && rows[..n][k][y] == year;
          assert rows[k] == rows[..n][k];
        }
      }
    }
  }
}
