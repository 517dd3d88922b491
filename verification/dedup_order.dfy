/**
 * The order of lines 21 and 24-25 of marine.py. Duplicate rows are dropped
 * while the categorical columns still hold the text as read, and only then
 * are those columns stripped and lower-cased; two rows that differ only in
 * the case or surrounding whitespace of a categorical cell are therefore
 * both kept and become equal afterwards, so the cleaned frame can hold
 * duplicate rows. `CleanedKeepsCaseVariants` shows such an input for the
 * section as written (`Marine.Cleaned`); `Marine.CleanedDedupLast` is the
 * section with the duplicate removal moved after the normalisation, and
 * `CleanedDedupLastIsClean` proves its result free of duplicates.
 */
module DedupOrder {
  import opened Wrappers
  import opened Text
  import opened Selection
  import opened Table
  import opened Marine

  /** With the duplicate removal last, the frame left has no two equal rows,
      and every row is still clean. */
  lemma CleanedDedupLastRenamedIsClean(columns: seq<string>, rows: seq<Row>, parse: Parser, f: Frame)
    requires Rectangular(rows, |columns|) && CleanedDedupLastRenamed(columns, rows, parse) == Success(f)
    ensures NoDuplicates(f.rows)
    ensures forall k :: 0 <= k < |f.rows| ==> IsCleanRow(f.columns, f.rows[k])
  {
    var w := |columns|;
    var y, d := Locate(columns, "year").value, Locate(columns, "data_value").value;
    var complete := NumericComplete(rows, y, d, parse, w);
    var normalized := NormalizeTextColumns(columns, complete, TextColumns).value;
    var m := Locate(columns, "magnitude").value;
    var unique := DropDuplicates(normalized);
    assert f == Frame(columns, KeepActual(unique, m));
    assert columns[y] == "year" && columns[d] == "data_value";

    NumericCompleteRows(rows, y, d, parse, w);
    NumericColumnsAreNotText();
    NormalizedRows(columns, complete, y, d, TextColumns);
    DropDuplicatesExactly(normalized);
    SelectRectangular(normalized, FirstOccurrence(), w);
    forall k | 0 <= k < |unique|
      ensures unique[k][y].Num? && unique[k][d].Num?
      ensures forall c :: 0 <= c < w && columns[c] in TextColumns ==> NormalizeCell(unique[k][c]) == unique[k][c]
    {
      assert unique[k] in normalized;
    }
    KeepActualClean(columns, unique, y, d, m);
    SelectKeepsNoDuplicates(unique, Where(CellIs(m, Str("actual"))));
  }

  /** With the duplicate removal last, the cleaned frame has no two equal
      rows, and every row is still clean. */
  lemma CleanedDedupLastIsClean(raw: Frame, parse: Parser, f: Frame)
    requires WellFormed(raw) && CleanedDedupLast(raw, parse) == Success(f)
    ensures NoDuplicates(f.rows)
    ensures forall k :: 0 <= k < |f.rows| ==> IsCleanRow(f.columns, f.rows[k])
  {
    CleanedDedupLastRenamedIsClean(NormalizeNames(raw.columns), raw.rows, parse, f);
  }

  // ------------------------------------------------------------------
  // Two rows whose categories differ only in case or surrounding
  // whitespace. The proofs are kept generic in the header list and the
  // texts, and instantiated with literals only at the end.
  // ------------------------------------------------------------------

  /** Headers naming `year`, `data_value` and the six categorical columns
      in that order, each once (`RequiredColumns` is one). */
  predicate InRequiredOrder(columns: seq<string>) {
    && |columns| == 8
    && Locate(columns, "year") == Success(0)
    && Locate(columns, "data_value") == Success(1)
    && Locate(columns, "magnitude") == Success(5)
    && (forall i :: 0 <= i < |TextColumns| ==> Locate(columns, TextColumns[i]) == Success(i + 2))
    && (forall c :: 0 <= c < |columns| ==> (columns[c] in TextColumns <==> c >= 2))
  }

  /** Two raw rows under headers in the required order that agree in every
      cell but the category: their year and value cells are text that
      parses, their category cells are text that differs only in letter
      case once stripped, and their magnitude normalises to "actual". */
  predicate CaseVariants(r0: Row, r1: Row, parse: Parser) {
    && |r0| == 8 && |r1| == 8
    && Parses(r0, parse)
    && (forall c :: 0 <= c < 8 && c != 2 ==> r1[c] == r0[c])
    && r0[2].Str? && r1[2].Str? && SameUpToCase(Strip(r0[2].text), Strip(r1[2].text))
    && NormalizeCell(r0[5]) == Str("actual")
  }

  /** A row of eight cells whose year and value cells are text that parses. */
  predicate Parses(r: Row, parse: Parser) {
    |r| == 8 && r[0].Str? && parse(r[0].text).Some? && r[1].Str? && parse(r[1].text).Some?
  }

  /** Such a row after lines 14-15: year and value parsed. */
  function Coerced(r: Row, parse: Parser): Row
    requires Parses(r, parse)
  {
    r[0 := Num(parse(r[0].text).value)][1 := Num(parse(r[1].text).value)]
  }

  /** A row under headers in the required order after lines 24-25: every
      categorical cell normalised. */
  function NormalRow(r: Row): Row
    requires |r| == 8
  {
    seq(8, c requires 0 <= c < 8 => if c < 2 then r[c] else NormalizeCell(r[c]))
  }

  /** Lower-case letters and underscores only. */
  predicate IsSnakeCase(h: string) {
    forall i :: 0 <= i < |h| ==> 'a' <= h[i] <= 'z' || h[i] == '_'
  }

  /** A snake-case header is left alone by line 11. */
  lemma SnakeCaseIsNormal(h: string)
    requires IsSnakeCase(h)
    ensures NormalizeName(h) == h
  {
    NormalizeNameFixes(h);
  }

  /** Snake-case text is left alone by line 25. */
  lemma SnakeCaseTextIsNormal(s: string)
    requires IsSnakeCase(s)
    ensures NormalizeText(s) == s
  {
    assert s != [] ==> !IsWhitespace(s[0]) && !IsWhitespace(s[|s| - 1]);
    assert Strip(s) == s;
    assert Lower(s) == s;
  }

  /** Headers that are all snake case are left alone by line 11. */
  lemma SnakeCaseNamesAreNormal(hs: seq<string>)
    requires forall k :: 0 <= k < |hs| ==> IsSnakeCase(hs[k])
    ensures NormalizeNames(hs) == hs
  {
    forall k | 0 <= k < |hs|
      ensures NormalizeName(hs[k]) == hs[k]
    {
      SnakeCaseIsNormal(hs[k]);
    }
  }

  lemma RequiredColumnsSnakeCase()
    ensures forall k :: 0 <= k < |RequiredColumns| ==> IsSnakeCase(RequiredColumns[k])
  {
    RequiredColumnsShape();
  }

  /** The headers `RequiredColumns` are already normal. */
  lemma RequiredColumnsNormal()
    ensures NormalizeNames(RequiredColumns) == RequiredColumns
  {
    RequiredColumnsSnakeCase();
    SnakeCaseNamesAreNormal(RequiredColumns);
  }

  /** The headers `RequiredColumns` are pairwise distinct. */
  lemma RequiredColumnsDistinct()
    ensures NoDuplicates(RequiredColumns)
  {
  }

  /** The lookups the section makes in the headers `RequiredColumns`. */
  lemma RequiredLookups()
    ensures Locate(RequiredColumns, "year") == Success(0)
    ensures Locate(RequiredColumns, "data_value") == Success(1)
    ensures Locate(RequiredColumns, "magnitude") == Success(5)
    ensures forall i :: 0 <= i < |TextColumns| ==> Locate(RequiredColumns, TextColumns[i]) == Success(i + 2)
  {
    RequiredColumnsDistinct();
    RequiredColumnsShape();
    LocateDistinct(RequiredColumns, 0);
    LocateDistinct(RequiredColumns, 1);
    LocateDistinct(RequiredColumns, 5);
    forall i | 0 <= i < |TextColumns|
      ensures Locate(RequiredColumns, TextColumns[i]) == Success(i + 2)
    {
      LocateDistinct(RequiredColumns, i + 2);
    }
  }

  /** Under `RequiredColumns` the categorical columns are the last six. */
  lemma RequiredTextPositions()
    ensures forall c :: 0 <= c < |RequiredColumns| ==> (RequiredColumns[c] in TextColumns <==> c >= 2)
  {
    RequiredColumnsShape();
    NumericColumnsAreNotText();
    forall c | 0 <= c < |RequiredColumns|
      ensures RequiredColumns[c] in TextColumns <==> c >= 2
    {
      if c >= 2 {
        assert RequiredColumns[c] == TextColumns[c - 2];
      }
    }
  }

  lemma RequiredColumnsInOrder()
    ensures InRequiredOrder(RequiredColumns)
  {
    RequiredColumnsShape();
    RequiredLookups();
    RequiredTextPositions();
  }

  lemma ActualIsNormal()
    ensures NormalizeText("actual") == "actual"
  {
    assert TrimStart("actual") == "actual";
    assert TrimEnd("actual") == "actual";
    assert Lower("actual") == "actual";
  }

  /** Lines 24-25 turn two rows into the same row `n` when every name
      locates and, column by column, both rows normalise (named columns) or
      already are (other columns) the cell of `n`. */
  lemma NormalizedPair(columns: seq<string>, rows: seq<Row>, names: seq<string>, n: Row)
    requires Rectangular(rows, |columns|) && |rows| == 2 && |n| == |columns|
    requires forall x :: x in names ==> Locate(columns, x).Success?
    requires forall k, c :: 0 <= k < 2 && 0 <= c < |columns| && columns[c] in names ==> NormalizeCell(rows[k][c]) == n[c]
    requires forall k, c :: 0 <= k < 2 && 0 <= c < |columns| && columns[c] !in names ==> rows[k][c] == n[c]
    ensures NormalizeTextColumns(columns, rows, names) == Success([n, n])
  {
    NormalizeTextColumnsEffect(columns, rows, names);
    SameRowTwice(columns, rows, names, NormalizeTextColumns(columns, rows, names).value, n);
  }

  /** Two rows whose named cells were normalised to those of `n`, and whose
      other cells were kept equal to those of `n`, are both `n`. */
  lemma SameRowTwice(columns: seq<string>, rows: seq<Row>, names: seq<string>, r: seq<Row>, n: Row)
    requires |rows| == 2 && Rectangular(rows, |columns|)
    requires |r| == 2 && Rectangular(r, |columns|) && |n| == |columns|
    requires forall k, c :: 0 <= k < 2 && 0 <= c < |columns| && columns[c] in names ==>
               r[k][c] == NormalizeCell(rows[k][c]) == n[c]
    requires forall k, c :: 0 <= k < 2 && 0 <= c < |columns| && columns[c] !in names ==>
               r[k][c] == rows[k][c] == n[c]
    ensures r == [n, n]
  {
    forall k | 0 <= k < 2
      ensures r[k] == n
    {
      forall c | 0 <= c < |columns|
        ensures r[k][c] == n[c]
      {
        if columns[c] in names {
          assert r[k][c] == NormalizeCell(rows[k][c]) == n[c];
        }
      }
    }
  }

  /** `NormalizedPair` under headers in the required order, where the
      categorical columns are the last six. */
  lemma OrderedNormalizedPair(columns: seq<string>, r0: Row, r1: Row, n: Row)
    requires InRequiredOrder(columns)
    requires |r0| == 8 && |r1| == 8 && |n| == 8
    requires forall c :: 2 <= c < 8 ==> NormalizeCell(r0[c]) == n[c]
    requires forall c :: 2 <= c < 8 ==> NormalizeCell(r1[c]) == n[c]
    requires r0[0] == r1[0] == n[0] && r0[1] == r1[1] == n[1]
    ensures NormalizeTextColumns(columns, [r0, r1], TextColumns) == Success([n, n])
  {
    forall x | x in TextColumns
      ensures Locate(columns, x).Success?
    {
      var i :| 0 <= i < |TextColumns| && TextColumns[i] == x;
    }
    NormalizedPair(columns, [r0, r1], TextColumns, n);
  }

  /** Lines 14-15 on one row whose year and value cells parse. */
  lemma CoercedAt(rows: seq<Row>, parse: Parser, k: nat)
    requires Rectangular(rows, 8) && k < |rows| && Parses(rows[k], parse)
    ensures CoerceColumn(CoerceColumn(rows, 0, parse), 1, parse)[k] == Coerced(rows[k], parse)
  {
    var coerced := CoerceColumn(CoerceColumn(rows, 0, parse), 1, parse)[k];
    assert |coerced| == 8;
    forall c | 0 <= c < 8
      ensures coerced[c] == Coerced(rows[k], parse)[c]
    {
    }
  }

  /** Lines 14-18 on two rows that both parse: both stay. */
  lemma PairComplete(rows: seq<Row>, parse: Parser)
    requires |rows| == 2 && Parses(rows[0], parse) && Parses(rows[1], parse)
    ensures Rectangular(rows, 8)
    ensures NumericComplete(rows, 0, 1, parse, 8) == [Coerced(rows[0], parse), Coerced(rows[1], parse)]
  {
    var coerced := CoerceColumn(CoerceColumn(rows, 0, parse), 1, parse);
    CoercedAt(rows, parse, 0);
    CoercedAt(rows, parse, 1);
    assert coerced == [Coerced(rows[0], parse), Coerced(rows[1], parse)];
    SelectAll(coerced, Where(BothPresent(0, 1)));
  }

  /** Line 21 on two different rows: both stay. */
  lemma DistinctPairUnique(s0: Row, s1: Row)
    requires s0 != s1
    ensures DropDuplicates([s0, s1]) == [s0, s1]
  {
    assert [s0, s1][..1] == [s0];
    SelectAll([s0, s1], FirstOccurrence());
  }

  /** Lines 24-25 on two rows that agree in year and value and whose
      categorical cells normalise alike: both become the normal form of
      the first. */
  lemma VariantsNormalize(columns: seq<string>, s0: Row, s1: Row)
    requires InRequiredOrder(columns) && |s0| == 8 && |s1| == 8
    requires s1[0] == s0[0] && s1[1] == s0[1]
    requires forall c :: 2 <= c < 8 ==> NormalizeCell(s1[c]) == NormalizeCell(s0[c])
    ensures NormalizeTextColumns(columns, [s0, s1], TextColumns) == Success([NormalRow(s0), NormalRow(s0)])
  {
    OrderedNormalizedPair(columns, s0, s1, NormalRow(s0));
  }

  /** Lines 14-25 on case variants, their outcomes named: both rows parse
      and, when their categories differ, both survive line 21; lines 24-25
      then turn them into two copies of one row `n` of magnitude "actual". */
  lemma VariantStages(rows: seq<Row>, parse: Parser, columns: seq<string>) returns (complete: seq<Row>, n: Row)
    requires |rows| == 2 && CaseVariants(rows[0], rows[1], parse) && InRequiredOrder(columns)
    ensures Rectangular(rows, 8) && NumericComplete(rows, 0, 1, parse, 8) == complete
    ensures rows[0][2] != rows[1][2] ==> DropDuplicates(complete) == complete
    ensures NormalizeTextColumns(columns, complete, TextColumns) == Success([n, n])
    ensures |n| == 8 && n[5] == Str("actual")
  {
    assert rows[1][0] == rows[0][0] && rows[1][1] == rows[0][1];
    NormalizeTextSameUpToCase(rows[0][2].text, rows[1][2].text);
    PairComplete(rows, parse);
    var s0, s1 := Coerced(rows[0], parse), Coerced(rows[1], parse);
    complete := [s0, s1];
    n := NormalRow(s0);
    VariantsNormalize(columns, s0, s1);
    if rows[0][2] != rows[1][2] {
      assert s0[2] != s1[2];
      DistinctPairUnique(s0, s1);
    }
  }

  /** Line 28 keeps every row whose magnitude cell is "actual". */
  lemma AllActual(rows: seq<Row>)
    requires forall k :: 0 <= k < |rows| ==> |rows[k]| > 5 && rows[k][5] == Str("actual")
    ensures KeepActual(rows, 5) == rows
  {
    SelectAll(rows, Where(CellIs(5, Str("actual"))));
  }

  /** Line 28 keeps both copies of a row whose magnitude cell is "actual". */
  lemma BothActual(n: Row)
    requires |n| > 5 && n[5] == Str("actual")
    ensures KeepActual([n, n], 5) == [n, n]
  {
    AllActual([n, n]);
  }

  /** Lines 21 and 28 leave one copy of a row twice present whose
      magnitude cell is "actual". */
  lemma OneActual(n: Row)
    requires |n| > 5 && n[5] == Str("actual")
    ensures KeepActual(DropDuplicates([n, n]), 5) == [n]
  {
    assert [n, n][..1] == [n] && [n][..0] == [];
    assert Select([n], FirstOccurrence()) == [n];
    assert DropDuplicates([n, n]) == [n];
    AllActual([n]);
  }

  /** `Cleaned` from the outcome of each of its stages. */
  lemma CleanedFromStages(raw: Frame, parse: Parser, y: nat, d: nat, normalized: seq<Row>, m: nat)
    requires WellFormed(raw)
    requires var columns := NormalizeNames(raw.columns);
             && Locate(columns, "year") == Success(y) && Locate(columns, "data_value") == Success(d)
             && NormalizeTextColumns(columns, NumericUnique(raw.rows, y, d, parse, |columns|), TextColumns) == Success(normalized)
             && Locate(columns, "magnitude") == Success(m)
    ensures Cleaned(raw, parse) == Success(Frame(NormalizeNames(raw.columns), KeepActual(normalized, m)))
  {
  }

  /** `CleanedDedupLast` from the outcome of each of its stages. */
  lemma CleanedDedupLastFromStages(raw: Frame, parse: Parser, y: nat, d: nat, normalized: seq<Row>, m: nat)
    requires WellFormed(raw)
    requires var columns := NormalizeNames(raw.columns);
             && Locate(columns, "year") == Success(y) && Locate(columns, "data_value") == Success(d)
             && NormalizeTextColumns(columns, NumericComplete(raw.rows, y, d, parse, |columns|), TextColumns) == Success(normalized)
             && Locate(columns, "magnitude") == Success(m)
    ensures CleanedDedupLast(raw, parse) == Success(Frame(NormalizeNames(raw.columns), KeepActual(DropDuplicates(normalized), m)))
  {
  }

  /** Lines 11-28 on a frame whose headers place `year`, `data_value` and
      `magnitude` as `InRequiredOrder` does, whose two rows both survive
      lines 14-21, and which lines 24-25 turn into two copies of a row of
      magnitude "actual". */
  lemma CleanedTwoCopies(parse: Parser, raw: Frame, columns: seq<string>, complete: seq<Row>, n: Row)
    requires WellFormed(raw) && NormalizeNames(raw.columns) == columns && |columns| == 8
    requires Locate(columns, "year") == Success(0) && Locate(columns, "data_value") == Success(1)
    requires Locate(columns, "magnitude") == Success(5)
    requires NumericComplete(raw.rows, 0, 1, parse, 8) == complete && DropDuplicates(complete) == complete
    requires NormalizeTextColumns(columns, complete, TextColumns) == Success([n, n])
    requires |n| == 8 && n[5] == Str("actual")
    ensures Cleaned(raw, parse) == Success(Frame(columns, [n, n]))
  {
    BothActual(n);
    CleanedFromStages(raw, parse, 0, 1, [n, n], 5);
  }

  /** `CleanedDedupLast` on the same frame, whatever its duplicates. */
  lemma CleanedDedupLastOneCopy(parse: Parser, raw: Frame, columns: seq<string>, complete: seq<Row>, n: Row)
    requires WellFormed(raw) && NormalizeNames(raw.columns) == columns && |columns| == 8
    requires Locate(columns, "year") == Success(0) && Locate(columns, "data_value") == Success(1)
    requires Locate(columns, "magnitude") == Success(5)
    requires NumericComplete(raw.rows, 0, 1, parse, 8) == complete
    requires NormalizeTextColumns(columns, complete, TextColumns) == Success([n, n])
    requires |n| == 8 && n[5] == Str("actual")
    ensures CleanedDedupLast(raw, parse) == Success(Frame(columns, [n]))
  {
    OneActual(n);
    CleanedDedupLastFromStages(raw, parse, 0, 1, [n, n], 5);
  }

  /** As written: two rows that differ only in what line 25 normalises away
      both reach the cleaned frame, as two copies of one row. */
  lemma CleanedKeepsCaseVariants(raw: Frame, parse: Parser, columns: seq<string>) returns (n: Row)
    requires WellFormed(raw) && NormalizeNames(raw.columns) == columns && InRequiredOrder(columns)
    requires |raw.rows| == 2 && CaseVariants(raw.rows[0], raw.rows[1], parse)
    requires raw.rows[0] != raw.rows[1]
    ensures Cleaned(raw, parse) == Success(Frame(columns, [n, n]))
    ensures !NoDuplicates(Cleaned(raw, parse).value.rows)
  {
    assert raw.rows[0][2] != raw.rows[1][2];
    var complete;
    complete, n := VariantStages(raw.rows, parse, columns);
    CleanedTwoCopies(parse, raw, columns, complete, n);
    assert [n, n][0] == [n, n][1];
  }

  /** With the duplicate removal last, the same rows leave a single row. */
  lemma CleanedDedupLastCollapsesCaseVariants(raw: Frame, parse: Parser, columns: seq<string>) returns (n: Row)
    requires WellFormed(raw) && NormalizeNames(raw.columns) == columns && InRequiredOrder(columns)
    requires |raw.rows| == 2 && CaseVariants(raw.rows[0], raw.rows[1], parse)
    ensures CleanedDedupLast(raw, parse) == Success(Frame(columns, [n]))
  {
    var complete;
    complete, n := VariantStages(raw.rows, parse, columns);
    CleanedDedupLastOneCopy(parse, raw, columns, complete, n);
  }

  /** A raw survey row as read, its category cell left empty. */
  const SurveyTemplate: Row := [Str("2010"), Str("5"), Str(""), Str("fish"), Str("tonnes"), Str("actual"), Str("survey"), Str("")]

  /** The survey row with the given category text. */
  function SurveyRow(category: string): Row {
    SurveyTemplate[2 := Str(category)]
  }

  /** The survey frame with categories "Fishing " and "fishing" under the
      headers `RequiredColumns`. */
  function FishingFrame(): Frame {
    Frame(RequiredColumns, [SurveyRow("Fishing "), SurveyRow("fishing")])
  }

  lemma SurveyRowParses(parse: Parser, category: string)
    requires parse("2010").Some? && parse("5").Some?
    ensures Parses(SurveyRow(category), parse)
  {
  }

  lemma SurveyRowIsActual(category: string)
    ensures NormalizeCell(SurveyRow(category)[5]) == Str("actual")
  {
    var c := SurveyRow(category)[5];
    assert c == Str("actual");
    ActualCellIsNormal(c);
  }

  lemma ActualCellIsNormal(c: Cell)
    requires c == Str("actual")
    ensures NormalizeCell(c) == c
  {
    ActualIsNormal();
  }

  lemma SurveyRowsAgree(a: string, b: string)
    ensures |SurveyRow(a)| == 8 && |SurveyRow(b)| == 8
    ensures forall c :: 0 <= c < 8 && c != 2 ==> SurveyRow(b)[c] == SurveyRow(a)[c]
    ensures SurveyRow(a)[2] == Str(a) && SurveyRow(b)[2] == Str(b)
  {
  }

  /** Survey rows whose categories agree up to case once stripped are case
      variants. */
  lemma SurveyRowsAreVariants(parse: Parser, a: string, b: string)
    requires parse("2010").Some? && parse("5").Some?
    requires SameUpToCase(Strip(a), Strip(b))
    ensures CaseVariants(SurveyRow(a), SurveyRow(b), parse)
  {
    SurveyRowParses(parse, a);
    SurveyRowIsActual(a);
    SurveyRowsAgree(a, b);
  }

  /** The two survey rows of categories "Fishing " and "fishing" are
      different case variants. */
  lemma FishingRowsAreVariants(parse: Parser)
    requires parse("2010").Some? && parse("5").Some?
    ensures CaseVariants(SurveyRow("Fishing "), SurveyRow("fishing"), parse)
    ensures SurveyRow("Fishing ") != SurveyRow("fishing")
  {
    NormalizeTextCollapsesVariants();
    SurveyRowsAreVariants(parse, "Fishing ", "fishing");
    SurveyRowsAgree("Fishing ", "fishing");
    assert SurveyRow("Fishing ")[2] != SurveyRow("fishing")[2];
  }

  lemma FishingFrameShape()
    ensures WellFormed(FishingFrame()) && |FishingFrame().rows| == 2
    ensures FishingFrame().rows[0] == SurveyRow("Fishing ") && FishingFrame().rows[1] == SurveyRow("fishing")
  {
    RequiredColumnsShape();
    SurveyRowsAgree("Fishing ", "fishing");
  }

  /** As written, the cleaned `FishingFrame` holds one row twice; with the
      duplicate removal last, once. */
  lemma FishingExample(parse: Parser)
    requires parse("2010").Some? && parse("5").Some?
    ensures WellFormed(FishingFrame())
    ensures Cleaned(FishingFrame(), parse).Success? && !NoDuplicates(Cleaned(FishingFrame(), parse).value.rows)
    ensures CleanedDedupLast(FishingFrame(), parse).Success? && |CleanedDedupLast(FishingFrame(), parse).value.rows| == 1
  {
    FishingRowsAreVariants(parse);
    FishingFrameShape();
    RequiredColumnsInOrder();
    RequiredColumnsNormal();
    var n := CleanedKeepsCaseVariants(FishingFrame(), parse, RequiredColumns);
    var m := CleanedDedupLastCollapsesCaseVariants(FishingFrame(), parse, RequiredColumns);
  }
}
