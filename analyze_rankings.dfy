/**
 * The transformation inside main() of the rankings script: course display
 * names from the label row, numeric coercion of the ranking cells, per-course
 * mean rank, and the results table sorted by mean rank.
 */
module AnalyzeRankings {
  import opened Options
  import opened CourseNames
  import opened MeanRank
  import opened MeanOrder

  /** The identifiers of the eight core-course ranking questions, in the script's order. */
  const CORE_COLS: seq<string> := ["Q35_1", "Q35_5", "Q35_2", "Q35_4", "Q35_3", "Q35_8", "Q35_9", "Q35_10"]

  /** A spreadsheet cell as loaded: text, a number, or empty (NaN). */
  datatype Cell = Text(text: string) | Num(x: real) | Blank

  /**
   * The loaded sheet below its identifier row: `height` rows, each column the
   * sequence of its cells, keyed by the column identifier. Row 0 is the label
   * row holding the question text; rows 1 onward are the responses.
   */
  datatype Frame = Frame(height: nat, columns: map<string, seq<Cell>>)

  /** Every column has one cell per row. */
  predicate Valid(f: Frame) {
    forall c :: c in f.columns ==> |f.columns[c]| == f.height
  }

  /** The fatal errors of the transformation, raised by pandas or Python. */
  datatype Error =
    | EmptyFrame            // df.iloc[0] on a sheet without rows: IndexError
    | MissingColumn(col: string)  // course_names_row[col] for an absent column: KeyError
    | LabelNotText(col: string)   // `" - " in full_text` on a number or NaN: TypeError

  /** One row of the results table. */
  datatype ResultRow = ResultRow(courseId: string, courseName: string, meanRank: Option<real>)

  /** Column `col` exists and its label cell is text. */
  predicate LabelOk(f: Frame, col: string) {
    col in f.columns && |f.columns[col]| > 0 && f.columns[col][0].Text?
  }

  /** The text of column `col` in the label row. */
  function Label(f: Frame, col: string): string
    requires LabelOk(f, col)
  {
    f.columns[col][0].text
  }

  /** The error the name loop raises at a column whose label it cannot read. */
  function LabelError(f: Frame, col: string): Error {
    if col !in f.columns then MissingColumn(col) else LabelNotText(col)
  }

  /** `cols[k]` is the first column whose label cannot be read. */
  predicate FailsFirstAt(f: Frame, cols: seq<string>, k: int) {
    0 <= k < |cols| && (forall j :: 0 <= j < k ==> LabelOk(f, cols[j])) && !LabelOk(f, cols[k])
  }

  /**
   * One step of the col_to_name loop: look the column up in the label row and
   * take the display name of its text, failing when the column is absent or
   * its label is not text.
   */
  function ColumnName(f: Frame, col: string): (r: Result<string, Error>)
    requires Valid(f) && f.height > 0
    ensures r.Success? <==> LabelOk(f, col)
    ensures r.Success? ==> r.value == DisplayName(Label(f, col))
    ensures r.Failure? ==> r.error == LabelError(f, col)
  {
    if col !in f.columns then Failure(MissingColumn(col))
    else match f.columns[col][0]
      case Text(fullText) => Success(DisplayName(fullText))
      case _ => Failure(LabelNotText(col))
  }

  /** Each of the first `n` of `cols` exists and has a text label. */
  predicate LabelsOk(f: Frame, cols: seq<string>, n: nat)
    requires n <= |cols|
  {
    forall k :: 0 <= k < n ==> LabelOk(f, cols[k])
  }

  /** The col_to_name dictionary once the loop has stored the first `n` of `cols`, in order. */
  function NameMap(f: Frame, cols: seq<string>, n: nat): map<string, string>
    requires n <= |cols| && LabelsOk(f, cols, n)
  {
    if n == 0 then map[]
    else NameMap(f, cols, n - 1)[cols[n - 1] := DisplayName(Label(f, cols[n - 1]))]
  }

  /** The dictionary is keyed by exactly the first `n` of `cols`. */
  lemma {:induction false} NameMapKeys(f: Frame, cols: seq<string>, n: nat)
    requires n <= |cols| && LabelsOk(f, cols, n)
    ensures forall k :: 0 <= k < n ==> cols[k] in NameMap(f, cols, n)
    ensures forall c :: c in NameMap(f, cols, n) ==> c in cols[..n]
  {
    if n > 0 {
      NameMapKeys(f, cols, n - 1);
      assert cols[..n] == cols[..n - 1] + [cols[n - 1]];
    }
  }

  /** Each column of the dictionary maps to the display name of its label. */
  lemma {:induction false} NameMapValues(f: Frame, cols: seq<string>, n: nat)
    requires n <= |cols| && LabelsOk(f, cols, n)
    ensures forall c :: c in NameMap(f, cols, n) ==> LabelOk(f, c) && NameMap(f, cols, n)[c] == DisplayName(Label(f, c))
  {
    if n > 0 {
      NameMapValues(f, cols, n - 1);
    }
  }

  /**
   * The col_to_name loop: for each column in order, read its label text and
   * store its display name; stop at the first column that is absent or whose
   * label is not text.
   */
  method BuildNameMap(f: Frame, cols: seq<string>) returns (r: Result<map<string, string>, Error>)
    requires Valid(f)
    ensures f.height == 0 ==> r == Failure(EmptyFrame)
    ensures f.height > 0 ==> (r.Success? <==> LabelsOk(f, cols, |cols|))
    ensures f.height > 0 && r.Failure? ==> exists k :: FailsFirstAt(f, cols, k) && r.error == LabelError(f, cols[k])
    ensures r.Success? ==> f.height > 0 && LabelsOk(f, cols, |cols|) && r.value == NameMap(f, cols, |cols|)
  {
    if f.height == 0 {
      return Failure(EmptyFrame);
    }
    var colToName: map<string, string> := map[];
    for i := 0 to |cols|
      invariant LabelsOk(f, cols, i)
      invariant colToName == NameMap(f, cols, i)
    {
      var name := ColumnName(f, cols[i]);
      if name.Failure? {
        assert FailsFirstAt(f, cols, i);
        return Failure(name.error);
      }
      colToName := colToName[cols[i] := name.value];
    }
    return Success(colToName);
  }

  /** pd.to_numeric(..., errors='coerce') on one cell: `parse` stands for the library's reading of text. */
  function Coerce(c: Cell, parse: string -> Option<real>): Option<real> {
    match c
    case Num(x) => Some(x)
    case Blank => None
    case Text(s) => parse(s)
  }

  /** pd.to_numeric(..., errors='coerce') on a whole column. */
  function ToNumeric(column: seq<Cell>, parse: string -> Option<real>): seq<Option<real>> {
    seq(|column|, i requires 0 <= i < |column| => Coerce(column[i], parse))
  }

  /** The mean rank of a column: the mean of its coerced cells below the label row. */
  function ColumnMean(f: Frame, col: string, parse: string -> Option<real>): Option<real>
    requires Valid(f) && f.height > 0 && col in f.columns
  {
    Mean(ToNumeric(f.columns[col][1..], parse))
  }

  /**
   * `rankData` holds, for each column of `cols`, the coerced cells below the
   * label row, and nothing else.
   */
  predicate IsRankData(f: Frame, cols: seq<string>, parse: string -> Option<real>, rankData: map<string, seq<Option<real>>>)
    requires Valid(f) && f.height > 0
  {
    && (forall k :: 0 <= k < |cols| ==> cols[k] in rankData)
    && (forall c :: c in rankData ==> c in cols && c in f.columns && |rankData[c]| == f.height - 1)
    && (forall c, i :: c in rankData && c in f.columns && 0 <= i < |rankData[c]| && i + 1 < |f.columns[c]| ==>
          rankData[c][i] == Coerce(f.columns[c][i + 1], parse))
  }

  /**
   * rank_data: the rows after the label row, restricted to `cols`, each
   * column then replaced by its numeric coercion.
   */
  method CoerceRankData(f: Frame, cols: seq<string>, parse: string -> Option<real>)
    returns (rankData: map<string, seq<Option<real>>>)
    requires Valid(f) && f.height > 0
    requires forall k :: 0 <= k < |cols| ==> cols[k] in f.columns
    ensures IsRankData(f, cols, parse, rankData)
  {
    var raw: map<string, seq<Cell>> := map c | c in cols :: f.columns[c][1..];
    rankData := map[];
    for k := 0 to |cols|
      invariant forall j :: 0 <= j < k ==> cols[j] in rankData
      invariant forall c :: c in rankData ==> c in raw && rankData[c] == ToNumeric(raw[c], parse)
    {
      rankData := rankData[cols[k] := ToNumeric(raw[cols[k]], parse)];
    }
  }

  /** The mean of a column's coerced cells below the label row is its ColumnMean. */
  lemma CoercedMean(f: Frame, col: string, parse: string -> Option<real>, data: seq<Option<real>>)
    requires Valid(f) && f.height > 0 && col in f.columns
    requires |data| == f.height - 1
    requires forall i :: 0 <= i < |data| ==> data[i] == Coerce(f.columns[col][i + 1], parse)
    ensures Mean(data) == ColumnMean(f, col, parse)
  {
    assert data == ToNumeric(f.columns[col][1..], parse);
  }

  /** The Course ID column of the results table. */
  function CourseIds(rows: seq<ResultRow>): (ids: seq<string>)
    ensures |ids| == |rows| && forall i :: 0 <= i < |rows| ==> ids[i] == rows[i].courseId
  {
    seq(|rows|, i requires 0 <= i < |rows| => rows[i].courseId)
  }

  /**
   * What the results table promises for a sheet whose labels in `cols` are
   * readable: every column of `cols` exactly as often as in `cols`, each with its
   * display name and the mean of its coerced ranking cells, in non-decreasing
   * order of mean with missing means last.
   */
  predicate IsResultsTable(f: Frame, cols: seq<string>, parse: string -> Option<real>, rows: seq<ResultRow>)
    requires Valid(f) && f.height > 0
  {
    && multiset(CourseIds(rows)) == multiset(cols)
    && (forall i :: 0 <= i < |rows| ==>
          LabelOk(f, rows[i].courseId)
          && rows[i].courseName == DisplayName(Label(f, rows[i].courseId))
          && rows[i].meanRank == ColumnMean(f, rows[i].courseId, parse))
    && (forall i, j :: 0 <= i < j < |rows| ==> MeanLe(rows[i].meanRank, rows[j].meanRank))
  }

  /** rank_data.mean(): the mean of every column, skipping missing cells. */
  function MeanRanks(rankData: map<string, seq<Option<real>>>): map<string, Option<real>> {
    map c | c in rankData :: Mean(rankData[c])
  }

  /** The results table: one row per course of `order`, with its name and mean rank. */
  function Rows(order: seq<string>, names: map<string, string>, means: map<string, Option<real>>): (rows: seq<ResultRow>)
    requires forall i :: 0 <= i < |order| ==> order[i] in names && order[i] in means
    ensures |rows| == |order|
    ensures forall i :: 0 <= i < |rows| ==> rows[i] == ResultRow(order[i], names[order[i]], means[order[i]])
  {
    seq(|order|, i requires 0 <= i < |order| => ResultRow(order[i], names[order[i]], means[order[i]]))
  }

  /** Every course of a permutation of `cols` has a name and a mean. */
  lemma OrderKeyed(f: Frame, cols: seq<string>, parse: string -> Option<real>, rankData: map<string, seq<Option<real>>>, order: seq<string>)
    requires Valid(f) && f.height > 0 && LabelsOk(f, cols, |cols|)
    requires IsRankData(f, cols, parse, rankData)
    requires multiset(order) == multiset(cols)
    ensures forall i :: 0 <= i < |order| ==> order[i] in NameMap(f, cols, |cols|) && order[i] in MeanRanks(rankData)
  {
    NameMapKeys(f, cols, |cols|);
    forall i | 0 <= i < |order| ensures order[i] in NameMap(f, cols, |cols|) && order[i] in MeanRanks(rankData) {
      assert order[i] in multiset(cols);
      var k :| 0 <= k < |cols| && cols[k] == order[i];
    }
  }

  /** Rows built from the names, the means and the sorted order form the results table. */
  lemma RowsFormResultsTable(f: Frame, cols: seq<string>, parse: string -> Option<real>, rankData: map<string, seq<Option<real>>>, order: seq<string>)
    requires Valid(f) && f.height > 0 && LabelsOk(f, cols, |cols|)
    requires IsRankData(f, cols, parse, rankData)
    requires multiset(order) == multiset(cols)
    requires Keyed(order, MeanRanks(rankData)) && SortedByMean(order, MeanRanks(rankData))
    ensures forall i :: 0 <= i < |order| ==> order[i] in NameMap(f, cols, |cols|) && order[i] in MeanRanks(rankData)
    ensures IsResultsTable(f, cols, parse, Rows(order, NameMap(f, cols, |cols|), MeanRanks(rankData)))
  {
    OrderKeyed(f, cols, parse, rankData, order);
    var names := NameMap(f, cols, |cols|);
    var means := MeanRanks(rankData);
    var rows := Rows(order, names, means);
    assert CourseIds(rows) == order;
    NameMapKeys(f, cols, |cols|);
    NameMapValues(f, cols, |cols|);
    forall i | 0 <= i < |rows|
      ensures LabelOk(f, rows[i].courseId) && rows[i].courseName == DisplayName(Label(f, rows[i].courseId))
      ensures rows[i].meanRank == ColumnMean(f, rows[i].courseId, parse)
    {
      var c := order[i];
      CoercedMean(f, c, parse, rankData[c]);
    }
    forall i, j | 0 <= i < j < |rows| ensures MeanLe(rows[i].meanRank, rows[j].meanRank) {
      assert rows[i].meanRank == means[order[i]] && rows[j].meanRank == means[order[j]];
    }
  }

  /**
   * The transformation of main() for the ranking columns `cols`: names,
   * coercion, means, sort and the results table; a sheet without rows or with
   * an unreadable label stops with the error the script raises first. The
   * columns are distinct, as the script's core columns are: with a column
   * listed twice, `rank_data[col]` would be a frame rather than a column.
   */
  method RankCourses(f: Frame, cols: seq<string>, parse: string -> Option<real>) returns (r: Result<seq<ResultRow>, Error>)
    requires Valid(f) && Distinct(cols)
    ensures r.Success? <==> f.height > 0 && LabelsOk(f, cols, |cols|)
    ensures f.height == 0 ==> r == Failure(EmptyFrame)
    ensures f.height > 0 && r.Failure? ==> exists k :: FailsFirstAt(f, cols, k) && r.error == LabelError(f, cols[k])
    ensures r.Success? ==> f.height > 0 && IsResultsTable(f, cols, parse, r.value)
  {
    var names := BuildNameMap(f, cols);
    if names.Failure? {
      return Failure(names.error);
    }
    var rankData := CoerceRankData(f, cols, parse);
    var meanRanks := MeanRanks(rankData);
    var order := SortByMean(cols, meanRanks);
    RowsFormResultsTable(f, cols, parse, rankData, order);
    return Success(Rows(order, names.value, meanRanks));
  }

  /** main() on the loaded sheet: the results table over the eight core ranking columns. */
  method Analyze(f: Frame, parse: string -> Option<real>) returns (r: Result<seq<ResultRow>, Error>)
    requires Valid(f)
    ensures r.Success? <==> f.height > 0 && LabelsOk(f, CORE_COLS, |CORE_COLS|)
    ensures f.height == 0 ==> r == Failure(EmptyFrame)
    ensures f.height > 0 && r.Failure? ==> exists k :: FailsFirstAt(f, CORE_COLS, k) && r.error == LabelError(f, CORE_COLS[k])
    ensures r.Success? ==> f.height > 0 && IsResultsTable(f, CORE_COLS, parse, r.value)
    ensures r.Success? ==> |r.value| == |CORE_COLS| && Distinct(CourseIds(r.value))
  {
    CoreColumnsDistinct();
    r := RankCourses(f, CORE_COLS, parse);
    if r.Success? {
      ResultsListEachColumnOnce(f, CORE_COLS, parse, r.value);
    }
  }

  /** The mean rank of every readable column of the sheet. */
  function SheetMeans(f: Frame, parse: string -> Option<real>): map<string, Option<real>>
    requires Valid(f) && f.height > 0
  {
    map c | c in f.columns :: ColumnMean(f, c, parse)
  }

  /**
   * sort_values() leaves the order of tied courses open, but the Mean Rank
   * column does not depend on it: any two results tables for the same sheet
   * and columns list the same means, row by row.
   */
  lemma ResultsAgreeUpToTies(f: Frame, cols: seq<string>, parse: string -> Option<real>, rows1: seq<ResultRow>, rows2: seq<ResultRow>)
    requires Valid(f) && f.height > 0
    requires IsResultsTable(f, cols, parse, rows1) && IsResultsTable(f, cols, parse, rows2)
    ensures |rows1| == |rows2|
    ensures forall i :: 0 <= i < |rows1| ==> rows1[i].meanRank == rows2[i].meanRank
  {
    var means := SheetMeans(f, parse);
    var ids1 := CourseIds(rows1);
    var ids2 := CourseIds(rows2);
    assert Keyed(ids1, means) && SortedByMean(ids1, means) by {
      forall i | 0 <= i < |ids1| ensures ids1[i] in means && means[ids1[i]] == rows1[i].meanRank {
        assert LabelOk(f, rows1[i].courseId);
      }
    }
    assert Keyed(ids2, means) && SortedByMean(ids2, means) by {
      forall i | 0 <= i < |ids2| ensures ids2[i] in means && means[ids2[i]] == rows2[i].meanRank {
        assert LabelOk(f, rows2[i].courseId);
      }
    }
    SortedMeansUnique(ids1, ids2, means);
  }

  /** No element occurs twice in `s`. */
  predicate Distinct<K(==)>(s: seq<K>) {
    forall i, j :: 0 <= i < j < |s| ==> s[i] != s[j]
  }

  /** An element of a sequence without repeats occurs in it at most once. */
  lemma {:induction false} DistinctCount<K>(s: seq<K>, x: K)
    requires Distinct(s)
    ensures multiset(s)[x] <= 1
  {
    if s != [] {
      assert s == [s[0]] + s[1..];
      assert Distinct(s[1..]) by {
        forall i, j | 0 <= i < j < |s[1..]| ensures s[1..][i] != s[1..][j] {
          assert s[1..][i] == s[i + 1] && s[1..][j] == s[j + 1];
        }
      }
      DistinctCount(s[1..], x);
      if s[0] == x {
        assert x !in s[1..] by {
          forall k | 0 <= k < |s[1..]| ensures s[1..][k] != x {
            assert s[1..][k] == s[k + 1];
          }
        }
      }
    }
  }

  /** An element at two indices of a sequence occurs in it at least twice. */
  lemma RepeatCount<K>(s: seq<K>, i: nat, j: nat)
    requires i < j < |s| && s[i] == s[j]
    ensures multiset(s)[s[i]] >= 2
  {
    assert s == s[..j] + [s[j]] + s[j + 1..];
    assert s[..j][i] == s[i];
  }

  /** The eight core columns are different questions. */
  lemma CoreColumnsDistinct()
    ensures Distinct(CORE_COLS)
  {
  }

  /** A results table over columns without repeats lists each of them exactly once. */
  lemma ResultsListEachColumnOnce(f: Frame, cols: seq<string>, parse: string -> Option<real>, rows: seq<ResultRow>)
    requires Valid(f) && f.height > 0 && Distinct(cols)
    requires IsResultsTable(f, cols, parse, rows)
    ensures |rows| == |cols|
    ensures Distinct(CourseIds(rows))
    ensures forall c :: c in cols <==> c in CourseIds(rows)
  {
    var ids := CourseIds(rows);
    assert |ids| == |multiset(ids)| == |multiset(cols)| == |cols|;
    forall i, j | 0 <= i < j < |ids| ensures ids[i] != ids[j] {
      if ids[i] == ids[j] {
        RepeatCount(ids, i, j);
        DistinctCount(cols, ids[i]);
      }
    }
    forall c ensures c in cols <==> c in ids {
      assert c in cols <==> c in multiset(cols);
      assert c in ids <==> c in multiset(ids);
    }
  }
}
