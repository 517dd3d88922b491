/**
 * The preprocessing section of marine.py (lines 11-28): the loaded frame's
 * headers are normalised, `year` and `data_value` are coerced to numbers,
 * incomplete and duplicate rows are dropped, six categorical columns are
 * stripped and lower-cased, and only rows of magnitude "actual" are kept.
 *
 * The steps the script performs by assigning into the frame (lines 11,
 * 14-15 and 24-25) are methods of `DataFrame`; the steps that build a new
 * frame and rebind `df` to it (lines 18, 21 and 28) are the functions of
 * module Table, assigned to the frame's rows by `Clean`. `Cleaned` is the
 * whole section as one function of the loaded frame.
 *
 * `CleanedDedupLast` and `DataFrame.CleanDedupLast` are the section with
 * line 21 moved after lines 24-25, so that rows which become equal once
 * their categorical cells are normalised are dropped too (module DedupOrder
 * shows why the order matters).
 */
module Marine {
  import opened Wrappers
  import opened Text
  import opened Selection
  import opened Table

  datatype Frame = Frame(columns: seq<string>, rows: seq<Row>)

  predicate WellFormed(f: Frame) {
    Rectangular(f.rows, |f.columns|)
  }

  /** Every column the section looks up, in the order it looks them up. */
  const RequiredColumns: seq<string> := ["year", "data_value"] + TextColumns

  /** The loop of line 24 does not touch the two numeric columns. */
  lemma NumericColumnsAreNotText()
    ensures "year" !in TextColumns && "data_value" !in TextColumns
  {
  }

  /** Lines 14-18: coercion of `year` (column `y`) and `data_value`
      (column `d`) and the `dropna`. */
  function NumericComplete(rows: seq<Row>, y: nat, d: nat, parse: Parser, width: nat): (r: seq<Row>)
    requires Rectangular(rows, width) && y < width && d < width
    ensures Rectangular(r, width)
  {
    var coerced := CoerceColumn(CoerceColumn(rows, y, parse), d, parse);
    SelectRectangular(coerced, Where(BothPresent(y, d)), width);
    DropIncomplete(coerced, y, d)
  }

  /** Lines 14-21: the above, then `drop_duplicates`. */
  function NumericUnique(rows: seq<Row>, y: nat, d: nat, parse: Parser, width: nat): (r: seq<Row>)
    requires Rectangular(rows, width) && y < width && d < width
    ensures Rectangular(r, width)
  {
    var complete := NumericComplete(rows, y, d, parse, width);
    SelectRectangular(complete, FirstOccurrence(), width);
    DropDuplicates(complete)
  }

  /** Lines 14-28, on the rows of a frame whose headers line 11 has
      already renamed to `columns`. */
  function CleanedRenamed(columns: seq<string>, rows: seq<Row>, parse: Parser): Result<Frame, Error>
    requires Rectangular(rows, |columns|)
  {
    var y :- Locate(columns, "year");
    var d :- Locate(columns, "data_value");
    var unique := NumericUnique(rows, y, d, parse, |columns|);
    var normalized :- NormalizeTextColumns(columns, unique, TextColumns);
    var m :- Locate(columns, "magnitude");
    Success(Frame(columns, KeepActual(normalized, m)))
  }

  /** Lines 11-28 as one function of the loaded frame: the cleaned frame, or
      the lookup that failed first. */
  function Cleaned(raw: Frame, parse: Parser): Result<Frame, Error>
    requires WellFormed(raw)
  {
    CleanedRenamed(NormalizeNames(raw.columns), raw.rows, parse)
  }

  /** Lines 14-28 with `drop_duplicates` applied after the text
      normalisation of lines 24-25 instead of before it, on the rows of a
      frame whose headers line 11 has already renamed to `columns`. */
  function CleanedDedupLastRenamed(columns: seq<string>, rows: seq<Row>, parse: Parser): Result<Frame, Error>
    requires Rectangular(rows, |columns|)
  {
    var y :- Locate(columns, "year");
    var d :- Locate(columns, "data_value");
    var complete := NumericComplete(rows, y, d, parse, |columns|);
    var normalized :- NormalizeTextColumns(columns, complete, TextColumns);
    var m :- Locate(columns, "magnitude");
    Success(Frame(columns, KeepActual(DropDuplicates(normalized), m)))
  }

  /** Lines 11-28 with the duplicate removal moved last. */
  function CleanedDedupLast(raw: Frame, parse: Parser): Result<Frame, Error>
    requires WellFormed(raw)
  {
    CleanedDedupLastRenamed(NormalizeNames(raw.columns), raw.rows, parse)
  }

  /** The lookups of lines 14, 15 and 24-25, and the `magnitude` lookup of
      line 28 among them. */
  lemma RequiredColumnsShape()
    ensures |RequiredColumns| == 8 && RequiredColumns[0] == "year" && RequiredColumns[1] == "data_value"
    ensures RequiredColumns[2..] == TextColumns && TextColumns[3] == "magnitude"
  {
  }

  /** How lines 14-28 end, told by the lookups they make: the first that
      fails decides the error; when none fails the section succeeds. */
  lemma CleanedByLookups(columns: seq<string>, rows: seq<Row>, parse: Parser)
    requires Rectangular(rows, |columns|)
    ensures var year, dataValue := Locate(columns, "year"), Locate(columns, "data_value");
            && (year.Failure? ==> CleanedRenamed(columns, rows, parse) == Failure(year.error))
            && (year.Success? && dataValue.Failure? ==> CleanedRenamed(columns, rows, parse) == Failure(dataValue.error))
            && (year.Success? && dataValue.Success? ==>
                  var unique := NumericUnique(rows, year.value, dataValue.value, parse, |columns|);
                  match NormalizeTextColumns(columns, unique, TextColumns)
                  case Failure(e) => CleanedRenamed(columns, rows, parse) == Failure(e)
                  case Success(_) => CleanedRenamed(columns, rows, parse).Success?)
  {
    var year, dataValue := Locate(columns, "year"), Locate(columns, "data_value");
    if year.Success? && dataValue.Success? {
      var unique := NumericUnique(rows, year.value, dataValue.value, parse, |columns|);
      var normalized := NormalizeTextColumns(columns, unique, TextColumns);
      if normalized.Success? {
        RequiredColumnsShape();
        NormalizeTextColumnsEffect(columns, unique, TextColumns);
        assert TextColumns[3] in TextColumns;
      }
    }
  }

  /** The first failing lookup in a list of names: failing first among
      the rest, after two lookups that succeed, is failing first overall. */
  lemma FirstFailingLookup(look: string -> Result<nat, Error>, a: string, b: string, rest: seq<string>, e: Error)
    requires look(a).Success? && look(b).Success?
    requires exists i :: 0 <= i < |rest| && look(rest[i]) == Failure(e) &&
               forall p :: 0 <= p < i ==> look(rest[p]).Success?
    ensures var names := [a, b] + rest;
            exists i :: 0 <= i < |names| && look(names[i]) == Failure(e) &&
              forall p :: 0 <= p < i ==> look(names[p]).Success?
  {
    var names := [a, b] + rest;
    var i :| 0 <= i < |rest| && look(rest[i]) == Failure(e) &&
             forall p :: 0 <= p < i ==> look(rest[p]).Success?;
    forall p | 0 <= p < i + 2
      ensures look(names[p]).Success?
    {
      if p >= 2 {
        assert names[p] == rest[p - 2];
      }
    }
    assert names[i + 2] == rest[i];
  }

  /** Every lookup of a list of names succeeds exactly when the first two do
      and so does every one of the rest. */
  lemma AllLookups(look: string -> Result<nat, Error>, a: string, b: string, rest: seq<string>)
    ensures var names := [a, b] + rest;
            (forall i :: 0 <= i < |names| ==> look(names[i]).Success?) <==>
            look(a).Success? && look(b).Success? && forall n :: n in rest ==> look(n).Success?
  {
    var names := [a, b] + rest;
    assert names[0] == a && names[1] == b;
    if look(a).Success? && look(b).Success? && forall n :: n in rest ==> look(n).Success? {
      forall i | 0 <= i < |names|
        ensures look(names[i]).Success?
      {
        if i >= 2 {
          assert names[i] == rest[i - 2];
        }
      }
    }
    if forall i :: 0 <= i < |names| ==> look(names[i]).Success? {
      forall n | n in rest
        ensures look(n).Success?
      {
        var i :| 0 <= i < |rest| && rest[i] == n;
        assert names[i + 2] == n;
      }
    }
  }

  /** Lines 14-28 succeed exactly when every column they look up is found
      once among the renamed headers. */
  lemma CleanedSucceedsExactly(columns: seq<string>, rows: seq<Row>, parse: Parser)
    requires Rectangular(rows, |columns|)
    ensures CleanedRenamed(columns, rows, parse).Success? <==>
              forall i :: 0 <= i < |RequiredColumns| ==> Locate(columns, RequiredColumns[i]).Success?
  {
    var required, text := RequiredColumns, TextColumns;
    RequiredColumnsShape();
    CleanedSucceedsByLookups(columns, rows, parse);
    assert required == [required[0], required[1]] + text;
    AllLookups(n => Locate(columns, n), required[0], required[1], text);
  }

  /** Lines 14-28 succeed exactly when the two numeric lookups and the
      lookup of every text column succeed. */
  lemma CleanedSucceedsByLookups(columns: seq<string>, rows: seq<Row>, parse: Parser)
    requires Rectangular(rows, |columns|)
    ensures CleanedRenamed(columns, rows, parse).Success? <==>
              && Locate(columns, "year").Success? && Locate(columns, "data_value").Success?
              && forall n :: n in TextColumns ==> Locate(columns, n).Success?
  {
    CleanedByLookups(columns, rows, parse);
    var year, dataValue := Locate(columns, "year"), Locate(columns, "data_value");
    if year.Success? && dataValue.Success? {
      var unique := NumericUnique(rows, year.value, dataValue.value, parse, |columns|);
      NormalizeTextColumnsEffect(columns, unique, TextColumns);
    }
  }


  /** When lines 14-28 fail, they report the first column in lookup order
      that is absent or ambiguous among the renamed headers. */
  lemma CleanedFailsFirst(columns: seq<string>, rows: seq<Row>, parse: Parser)
    requires Rectangular(rows, |columns|) && CleanedRenamed(columns, rows, parse).Failure?
    ensures exists i :: 0 <= i < |RequiredColumns| &&
              Locate(columns, RequiredColumns[i]) == Failure(CleanedRenamed(columns, rows, parse).error) &&
              forall p :: 0 <= p < i ==> Locate(columns, RequiredColumns[p]).Success?
  {
    var required, text := RequiredColumns, TextColumns;
    RequiredColumnsShape();
    CleanedByLookups(columns, rows, parse);
    var error := CleanedRenamed(columns, rows, parse).error;
    var year, dataValue := Locate(columns, required[0]), Locate(columns, required[1]);
    if year.Success? && dataValue.Success? {
      var unique := NumericUnique(rows, year.value, dataValue.value, parse, |columns|);
      NormalizeTextColumnsFailure(columns, unique, text);
      assert required == [required[0], required[1]] + text;
      FirstFailingLookup(n => Locate(columns, n), required[0], required[1], text, error);
    } else if year.Success? {
      assert Locate(columns, required[1]) == Failure(error);
    } else {
      assert Locate(columns, required[0]) == Failure(error);
    }
  }

  /** The section fails exactly when one of the columns it looks up is
      absent or ambiguous after renaming, and it then reports the first such
      column in lookup order. */
  lemma CleanedFailsExactly(raw: Frame, parse: Parser)
    requires WellFormed(raw)
    ensures Cleaned(raw, parse).Success? <==>
              forall i :: 0 <= i < |RequiredColumns| ==> Locate(NormalizeNames(raw.columns), RequiredColumns[i]).Success?
    ensures Cleaned(raw, parse).Failure? ==>
              exists i :: 0 <= i < |RequiredColumns| &&
                Locate(NormalizeNames(raw.columns), RequiredColumns[i]) == Failure(Cleaned(raw, parse).error) &&
                forall p :: 0 <= p < i ==> Locate(NormalizeNames(raw.columns), RequiredColumns[p]).Success?
  {
    var columns := NormalizeNames(raw.columns);
    CleanedSucceedsExactly(columns, raw.rows, parse);
    if Cleaned(raw, parse).Failure? {
      CleanedFailsFirst(columns, raw.rows, parse);
    }
  }

  /** After lines 14-18 every row holds numbers in both numeric columns, and
      no row has been added. */
  lemma NumericCompleteRows(rows: seq<Row>, y: nat, d: nat, parse: Parser, width: nat)
    requires Rectangular(rows, width) && y < width && d < width
    ensures var r := NumericComplete(rows, y, d, parse, width);
            |r| <= |rows| && forall k :: 0 <= k < |r| ==> r[k][y].Num? && r[k][d].Num?
  {
    var coerced: seq<Row> := CoerceColumn(CoerceColumn(rows, y, parse), d, parse);
    var r: seq<Row> := NumericComplete(rows, y, d, parse, width);
    FilterExactly(coerced, BothPresent(y, d));
    assert forall k :: 0 <= k < |coerced| ==> !coerced[k][y].Str? && !coerced[k][d].Str?;
    forall k | 0 <= k < |r|
      ensures r[k][y].Num? && r[k][d].Num?
    {
      assert r[k] in r;
      assert r[k] in coerced && BothPresent(y, d)(r[k]);
    }
  }

  /** The same after line 21. */
  lemma NumericUniqueRows(rows: seq<Row>, y: nat, d: nat, parse: Parser, width: nat)
    requires Rectangular(rows, width) && y < width && d < width
    ensures var r := NumericUnique(rows, y, d, parse, width);
            |r| <= |rows| && forall k :: 0 <= k < |r| ==> r[k][y].Num? && r[k][d].Num?
  {
    var complete := NumericComplete(rows, y, d, parse, width);
    var r: seq<Row> := NumericUnique(rows, y, d, parse, width);
    NumericCompleteRows(rows, y, d, parse, width);
    DropDuplicatesExactly(complete);
    forall k | 0 <= k < |r|
      ensures r[k][y].Num? && r[k][d].Num?
    {
      assert r[k] in complete;
    }
  }

  /** After lines 24-25 the numeric cells are still numbers and every cell
      of a categorical column is in normal form. */
  lemma NormalizedRows(columns: seq<string>, rows: seq<Row>, y: nat, d: nat, names: seq<string>)
    requires Rectangular(rows, |columns|) && y < |columns| && d < |columns|
    requires columns[y] !in names && columns[d] !in names
    requires forall k :: 0 <= k < |rows| ==> rows[k][y].Num? && rows[k][d].Num?
    requires NormalizeTextColumns(columns, rows, names).Success?
    ensures var r := NormalizeTextColumns(columns, rows, names).value;
            && |r| == |rows| && Rectangular(r, |columns|)
            && forall k :: 0 <= k < |r| ==>
                 && r[k][y].Num? && r[k][d].Num?
                 && forall c :: 0 <= c < |columns| && columns[c] in names ==> NormalizeCell(r[k][c]) == r[k][c]
  {
    NormalizeTextColumnsEffect(columns, rows, names);
    var r := NormalizeTextColumns(columns, rows, names).value;
    forall k, c | 0 <= k < |r| && 0 <= c < |columns| && columns[c] in names
      ensures NormalizeCell(r[k][c]) == r[k][c]
    {
      NormalizeCellIdempotent(rows[k][c]);
    }
  }

  /** A row as the cleaned frame promises it: numbers under `year` and
      `data_value`, the text "actual" under `magnitude`, and each of the six
      categorical cells in normal form (stripped lower-case text, or a
      non-text value left alone). */
  predicate IsCleanRow(columns: seq<string>, row: Row) {
    && |row| == |columns|
    && (forall c :: 0 <= c < |columns| && (columns[c] == "year" || columns[c] == "data_value") ==> row[c].Num?)
    && (forall c :: 0 <= c < |columns| && columns[c] == "magnitude" ==> row[c] == Str("actual"))
    && (forall c :: 0 <= c < |columns| && columns[c] in TextColumns ==> NormalizeCell(row[c]) == row[c])
  }

  /** Line 28 applied to rows that are clean but for the magnitude leaves
      only clean rows. */
  lemma KeepActualClean(columns: seq<string>, rows: seq<Row>, y: nat, d: nat, m: nat)
    requires Rectangular(rows, |columns|)
    requires Locate(columns, "year") == Success(y) && Locate(columns, "data_value") == Success(d)
    requires Locate(columns, "magnitude") == Success(m)
    requires forall k :: 0 <= k < |rows| ==>
               && rows[k][y].Num? && rows[k][d].Num?
               && forall c :: 0 <= c < |columns| && columns[c] in TextColumns ==> NormalizeCell(rows[k][c]) == rows[k][c]
    ensures forall k :: 0 <= k < |KeepActual(rows, m)| ==> IsCleanRow(columns, KeepActual(rows, m)[k])
  {
    LocateExactly(columns, "year");
    LocateExactly(columns, "data_value");
    LocateExactly(columns, "magnitude");
    KeepActualExactly(rows, m);
    var r := KeepActual(rows, m);
    forall k | 0 <= k < |r|
      ensures IsCleanRow(columns, r[k])
    {
      assert r[k] in r;
      var j :| 0 <= j < |rows| && rows[j] == r[k];
    }
  }

  /** Every row that lines 14-28 leave is clean; no row is added. */
  lemma CleanedRenamedRows(columns: seq<string>, rows: seq<Row>, parse: Parser, f: Frame)
    requires Rectangular(rows, |columns|) && CleanedRenamed(columns, rows, parse) == Success(f)
    ensures f.columns == columns && |f.rows| <= |rows|
    ensures forall k :: 0 <= k < |f.rows| ==> IsCleanRow(f.columns, f.rows[k])
  {
    var w := |columns|;
    var y, d := Locate(columns, "year").value, Locate(columns, "data_value").value;
    var unique := NumericUnique(rows, y, d, parse, w);
    var normalized := NormalizeTextColumns(columns, unique, TextColumns).value;
    var m := Locate(columns, "magnitude").value;
    assert f == Frame(columns, KeepActual(normalized, m));
    assert columns[y] == "year" && columns[d] == "data_value";

    NumericUniqueRows(rows, y, d, parse, w);
    NumericColumnsAreNotText();
    NormalizedRows(columns, unique, y, d, TextColumns);
    KeepActualExactly(normalized, m);
    KeepActualClean(columns, normalized, y, d, m);
  }

  /** Every row of the cleaned frame is clean; its headers are the renamed
      ones; and no row was added. */
  lemma CleanedRows(raw: Frame, parse: Parser, f: Frame)
    requires WellFormed(raw) && Cleaned(raw, parse) == Success(f)
    ensures f.columns == NormalizeNames(raw.columns) && |f.rows| <= |raw.rows|
    ensures forall k :: 0 <= k < |f.rows| ==> IsCleanRow(f.columns, f.rows[k])
  {
    CleanedRenamedRows(NormalizeNames(raw.columns), raw.rows, parse, f);
  }

  /** The frame `df` as the script mutates it. */
  class DataFrame {
    var columns: seq<string>
    var rows: seq<Row>

    ghost predicate Valid()
      reads this
    {
      Rectangular(rows, |columns|)
    }

    function Snapshot(): Frame
      reads this
    {
      Frame(columns, rows)
    }

    /** The frame as `pd.read_csv` returned it (line 6). */
    constructor (columns: seq<string>, rows: seq<Row>)
      requires Rectangular(rows, |columns|)
      ensures Valid() && this.columns == columns && this.rows == rows
    {
      this.columns := columns;
      this.rows := rows;
    }

    /** Line 11: `df.columns = ...` renames every column in place; the rows,
        being positional, are untouched. */
    method RenameColumns()
      requires Valid()
      modifies this
      ensures Valid()
      ensures columns == NormalizeNames(old(columns)) && rows == old(rows)
    {
      columns := NormalizeNames(columns);
    }

    /** Lines 14-15: `df[name] = pd.to_numeric(df[name], errors='coerce')`.
        Fails, changing nothing, when `name` does not locate one column. */
    method ToNumericColumn(name: string, parse: Parser) returns (located: Result<nat, Error>)
      requires Valid()
      modifies this
      ensures Valid() && columns == old(columns)
      ensures located == Locate(columns, name)
      ensures located.Success? ==> rows == CoerceColumn(old(rows), located.value, parse)
      ensures located.Failure? ==> rows == old(rows)
    {
      located := Locate(columns, name);
      if located.Success? {
        rows := CoerceColumn(rows, located.value, parse);
      }
    }

    /** Lines 24-25: `for col in names: df[col] = df[col].astype(str).str.strip().str.lower()`.
        Each pass overwrites one column; a name that does not locate one
        column stops the loop and decides the error. */
    method NormalizeCategories(names: seq<string>) returns (outcome: Outcome<Error>)
      requires Valid()
      modifies this
      ensures Valid() && columns == old(columns)
      ensures NormalizeTextColumns(columns, old(rows), names).Success? ==>
                outcome == Pass && rows == NormalizeTextColumns(columns, old(rows), names).value
      ensures NormalizeTextColumns(columns, old(rows), names).Failure? ==>
                outcome == Fail(NormalizeTextColumns(columns, old(rows), names).error)
    {
      var i := 0;
      while i < |names|
        invariant 0 <= i <= |names|
        invariant Valid() && columns == old(columns)
        invariant NormalizeTextColumns(columns, rows, names[i..]) == NormalizeTextColumns(columns, old(rows), names)
      {
        var located := Locate(columns, names[i]);
        if located.Failure? {
          return Fail(located.error);
        }
        assert names[i..][1..] == names[i + 1..];
        rows := SetColumn(rows, located.value, NormalizeCell);
        i := i + 1;
      }
      outcome := Pass;
    }

    /** Lines 14-18: both numeric columns coerced, then the rows missing
        either number dropped. Fails at the first of `year` and
        `data_value` that does not locate one column. */
    method DropIncompleteRows(parse: Parser) returns (located: Result<(nat, nat), Error>)
      requires Valid()
      modifies this
      ensures Valid() && columns == old(columns)
      ensures Locate(columns, "year").Failure? ==> located == Failure(Locate(columns, "year").error)
      ensures Locate(columns, "year").Success? && Locate(columns, "data_value").Failure? ==>
                located == Failure(Locate(columns, "data_value").error)
      ensures Locate(columns, "year").Success? && Locate(columns, "data_value").Success? ==>
                var y, d := Locate(columns, "year").value, Locate(columns, "data_value").value;
                located == Success((y, d)) && rows == NumericComplete(old(rows), y, d, parse, |columns|)
    {
      var year := ToNumericColumn("year", parse);
      if year.Failure? {
        return Failure(year.error);
      }
      var dataValue := ToNumericColumn("data_value", parse);
      if dataValue.Failure? {
        return Failure(dataValue.error);
      }
      var y, d := year.value, dataValue.value;
      SelectRectangular(rows, Where(BothPresent(y, d)), |columns|);
      rows := DropIncomplete(rows, y, d);
      located := Success((y, d));
    }

    /** Line 21: `df = df.drop_duplicates()`. */
    method DropRepeatedRows()
      requires Valid()
      modifies this
      ensures Valid() && columns == old(columns) && rows == DropDuplicates(old(rows))
    {
      SelectRectangular(rows, FirstOccurrence(), |columns|);
      rows := DropDuplicates(rows);
    }

    /** Lines 14-21: both numeric columns coerced, then the rows missing
        either number and the repeated rows dropped. Fails at the first of
        `year` and `data_value` that does not locate one column. */
    method DropUnusableRows(parse: Parser) returns (located: Result<(nat, nat), Error>)
      requires Valid()
      modifies this
      ensures Valid() && columns == old(columns)
      ensures Locate(columns, "year").Failure? ==> located == Failure(Locate(columns, "year").error)
      ensures Locate(columns, "year").Success? && Locate(columns, "data_value").Failure? ==>
                located == Failure(Locate(columns, "data_value").error)
      ensures Locate(columns, "year").Success? && Locate(columns, "data_value").Success? ==>
                var y, d := Locate(columns, "year").value, Locate(columns, "data_value").value;
                located == Success((y, d)) && rows == NumericUnique(old(rows), y, d, parse, |columns|)
    {
      located := DropIncompleteRows(parse);
      if located.Success? {
        DropRepeatedRows();
      }
    }

    /** Lines 24-28: the categorical columns normalised, then the rows of
        magnitude "actual" kept. Fails at the first of those columns, or at
        `magnitude`, that does not locate one column. */
    method KeepActualRows() returns (outcome: Outcome<Error>)
      requires Valid()
      modifies this
      ensures Valid() && columns == old(columns)
      ensures NormalizeTextColumns(columns, old(rows), TextColumns).Failure? ==>
                outcome == Fail(NormalizeTextColumns(columns, old(rows), TextColumns).error)
      ensures NormalizeTextColumns(columns, old(rows), TextColumns).Success? && Locate(columns, "magnitude").Failure? ==>
                outcome == Fail(Locate(columns, "magnitude").error)
      ensures NormalizeTextColumns(columns, old(rows), TextColumns).Success? && Locate(columns, "magnitude").Success? ==>
                outcome == Pass && rows == KeepActual(NormalizeTextColumns(columns, old(rows), TextColumns).value, Locate(columns, "magnitude").value)
    {
      outcome := NormalizeCategories(TextColumns);
      if outcome.Fail? {
        return;
      }
      var magnitude := Locate(columns, "magnitude");
      if magnitude.Failure? {
        return Fail(magnitude.error);
      }
      SelectRectangular(rows, Where(CellIs(magnitude.value, Str("actual"))), |columns|);
      rows := KeepActual(rows, magnitude.value);
    }

    /** Lines 11-28 in order, on this frame. */
    method Clean(parse: Parser) returns (outcome: Outcome<Error>)
      requires Valid()
      modifies this
      ensures Valid()
      ensures Cleaned(old(Snapshot()), parse).Success? ==>
                outcome == Pass && Snapshot() == Cleaned(old(Snapshot()), parse).value
      ensures Cleaned(old(Snapshot()), parse).Failure? ==>
                outcome == Fail(Cleaned(old(Snapshot()), parse).error)
    {
      RenameColumns();
      var located := DropUnusableRows(parse);
      if located.Failure? {
        return Fail(located.error);
      }
      outcome := KeepActualRows();
    }

    /** Lines 24-28 with `drop_duplicates` between the text normalisation
        and the magnitude filter. */
    method DedupActualRows() returns (outcome: Outcome<Error>)
      requires Valid()
      modifies this
      ensures Valid() && columns == old(columns)
      ensures NormalizeTextColumns(columns, old(rows), TextColumns).Failure? ==>
                outcome == Fail(NormalizeTextColumns(columns, old(rows), TextColumns).error)
      ensures NormalizeTextColumns(columns, old(rows), TextColumns).Success? && Locate(columns, "magnitude").Failure? ==>
                outcome == Fail(Locate(columns, "magnitude").error)
      ensures NormalizeTextColumns(columns, old(rows), TextColumns).Success? && Locate(columns, "magnitude").Success? ==>
                outcome == Pass &&
                rows == KeepActual(DropDuplicates(NormalizeTextColumns(columns, old(rows), TextColumns).value), Locate(columns, "magnitude").value)
    {
      outcome := NormalizeCategories(TextColumns);
      if outcome.Fail? {
        return;
      }
      DropRepeatedRows();
      var magnitude := Locate(columns, "magnitude");
      if magnitude.Failure? {
        return Fail(magnitude.error);
      }
      SelectRectangular(rows, Where(CellIs(magnitude.value, Str("actual"))), |columns|);
      rows := KeepActual(rows, magnitude.value);
    }

    /** Lines 11-28 with the duplicate removal moved after the text
        normalisation, on this frame. */
    method CleanDedupLast(parse: Parser) returns (outcome: Outcome<Error>)
      requires Valid()
      modifies this
      ensures Valid()
      ensures CleanedDedupLast(old(Snapshot()), parse).Success? ==>
                outcome == Pass && Snapshot() == CleanedDedupLast(old(Snapshot()), parse).value
      ensures CleanedDedupLast(old(Snapshot()), parse).Failure? ==>
                outcome == Fail(CleanedDedupLast(old(Snapshot()), parse).error)
    {
      RenameColumns();
      var located := DropIncompleteRows(parse);
      if located.Failure? {
        return Fail(located.error);
      }
      outcome := DedupActualRows();
    }
  }
}
