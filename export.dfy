// The export projection (`downloadMergedFile`, src/App.tsx): which column pairs
// are repeated at the end of the sheet, the header row, and the widened rows.

module Export {
  import opened Text
  import opened Cells
  import opened Merge

  /** Why nothing is exported: the alert for an empty preview, and the `TypeError` from
      reading the first file's name when no file is loaded but a key field is recorded. */
  datatype ExportError = NoData | NoFiles

  /** A `Left.`/`Right.` column pair repeated at the end of the sheet. */
  datatype Pair = Pair(left: string, right: string)

  /** The sheet: its column keys, in order, and one record per preview row. */
  datatype Sheet = Sheet(headers: seq<string>, rows: seq<Row>)

  /** `keyFieldPairs`: every recorded key field, prefixed `Left.` for the first file and
      `Right.` for any other (hierarchy fields included); only membership is used. */
  function KeyFieldPairs(files: seq<string>, keyFields: map<string, string>): set<string> {
    set name | name in keyFields :: (if |files| > 0 && name == files[0] then "Left." else "Right.") + keyFields[name]
  }

  /** What one entry of the selection order contributes: a `Left.` column that is not a
      key column and whose `Right.` twin is in the selection order, paired with that twin. */
  function PairAt(field: string, order: seq<string>, keys: set<string>): seq<Pair> {
    if StartsWith(field, "Left.") && field !in keys && RightCounterpart(field) in order
    then [Pair(field, RightCounterpart(field))]
    else []
  }

  /** The pairs found scanning `scan`, in scan order. */
  function PairsOf(scan: seq<string>, order: seq<string>, keys: set<string>): seq<Pair> {
    if |scan| == 0 then []
    else PairsOf(scan[..|scan| - 1], order, keys) + PairAt(scan[|scan| - 1], order, keys)
  }

  /** `comparePairs`, built by one pass over the selection order. */
  method ComparePairs(order: seq<string>, keys: set<string>) returns (pairs: seq<Pair>)
    ensures pairs == PairsOf(order, order, keys)
  {
    pairs := [];
    var i := 0;
    while i < |order|
      invariant 0 <= i <= |order|
      invariant pairs == PairsOf(order[..i], order, keys)
    {
      var field := order[i];
      if StartsWith(field, "Left.") && field !in keys {
        var rightField := RightCounterpart(field);
        if rightField in order {
          pairs := pairs + [Pair(field, rightField)];
        }
      }
      assert order[..i + 1][..i] == order[..i];
      i := i + 1;
    }
    assert order[..i] == order;
  }

  /** A pair is found exactly for a non-key `Left.` column of the selection order whose
      `Right.` twin is also there. */
  lemma {:induction false} PairsMembers(scan: seq<string>, order: seq<string>, keys: set<string>, p: Pair)
    ensures p in PairsOf(scan, order, keys) <==>
      p.left in scan && StartsWith(p.left, "Left.") && p.left !in keys
      && p.right == RightCounterpart(p.left) && p.right in order
  {
    if |scan| > 0 {
      var n := |scan| - 1;
      PairsMembers(scan[..n], order, keys, p);
      assert scan == scan[..n] + [scan[n]];
    }
  }

  /** Pairs come in column order: scanning two stretches finds the pairs of each in turn. */
  lemma {:induction false} PairsConcat(a: seq<string>, b: seq<string>, order: seq<string>, keys: set<string>)
    ensures PairsOf(a + b, order, keys) == PairsOf(a, order, keys) + PairsOf(b, order, keys)
    decreases |b|
  {
    if |b| == 0 {
      assert a + b == a;
    } else {
      var n := |b| - 1;
      PairsConcat(a, b[..n], order, keys);
      PairsConcatStep(a, b[..n], b[n], order, keys);
      LastSplit(b);
    }
  }

  lemma PairsConcatStep(a: seq<string>, init: seq<string>, last: string, order: seq<string>, keys: set<string>)
    requires PairsOf(a + init, order, keys) == PairsOf(a, order, keys) + PairsOf(init, order, keys)
    ensures PairsOf(a + (init + [last]), order, keys) == PairsOf(a, order, keys) + PairsOf(init + [last], order, keys)
  {
    PairsSnoc(a + init, last, order, keys);
    PairsSnoc(init, last, order, keys);
    ColumnsAssociative(a, init, [last]);
    PairsAssociative(PairsOf(a, order, keys), PairsOf(init, order, keys), PairAt(last, order, keys));
  }

  lemma ColumnsAssociative(x: seq<string>, y: seq<string>, z: seq<string>)
    ensures x + (y + z) == (x + y) + z
  {
  }

  lemma PairsAssociative(x: seq<Pair>, y: seq<Pair>, z: seq<Pair>)
    ensures x + (y + z) == (x + y) + z
  {
  }

  lemma PairsSnoc(scan: seq<string>, last: string, order: seq<string>, keys: set<string>)
    ensures PairsOf(scan + [last], order, keys) == PairsOf(scan, order, keys) + PairAt(last, order, keys)
  {
    var whole := scan + [last];
    assert whole[..|scan|] == scan;
    assert whole[|scan|] == last;
  }

  /** `comparePairs.flatMap(...)`: `Compare_<left>`, `Compare_<right>` for each pair. */
  function CompareHeaders(pairs: seq<Pair>): seq<string> {
    if |pairs| == 0 then []
    else ["Compare_" + pairs[0].left, "Compare_" + pairs[0].right] + CompareHeaders(pairs[1..])
  }

  /** Two header columns per pair, in pair order. */
  lemma {:induction false} CompareHeadersAt(pairs: seq<Pair>, k: nat)
    requires k < |pairs|
    ensures |CompareHeaders(pairs)| == 2 * |pairs|
    ensures CompareHeaders(pairs)[2 * k] == "Compare_" + pairs[k].left
    ensures CompareHeaders(pairs)[2 * k + 1] == "Compare_" + pairs[k].right
  {
    CompareHeadersLength(pairs);
    if k > 0 {
      CompareHeadersAt(pairs[1..], k - 1);
    }
  }

  lemma {:induction false} CompareHeadersLength(pairs: seq<Pair>)
    ensures |CompareHeaders(pairs)| == 2 * |pairs|
  {
    if |pairs| > 0 {
      CompareHeadersLength(pairs[1..]);
    }
  }

  /** Every compare header is `Compare_` followed by a column of some pair. */
  lemma {:induction false} CompareHeadersFrom(pairs: seq<Pair>, c: string)
    requires c in CompareHeaders(pairs)
    ensures StartsWith(c, "Compare_")
    ensures exists p :: p in pairs && (c == "Compare_" + p.left || c == "Compare_" + p.right)
  {
    if c != "Compare_" + pairs[0].left && c != "Compare_" + pairs[0].right {
      CompareHeadersFrom(pairs[1..], c);
      var p :| p in pairs[1..] && (c == "Compare_" + p.left || c == "Compare_" + p.right);
      assert p in pairs;
    } else {
      assert c[..8] == "Compare_";
    }
  }

  /** The export record of one preview row: the row, plus a copy of each pair's two
      cells (read from the row itself) under the `Compare_` columns. */
  function Widened(row: Row, pairs: seq<Pair>): Row {
    if |pairs| == 0 then row
    else
      var p := pairs[|pairs| - 1];
      Widened(row, pairs[..|pairs| - 1])["Compare_" + p.left := Get(row, p.left)]["Compare_" + p.right := Get(row, p.right)]
  }

  /** `{ ...row }` and the `forEach` over the pairs. */
  method WidenRow(row: Row, pairs: seq<Pair>) returns (newRow: Row)
    ensures newRow == Widened(row, pairs)
  {
    newRow := row;
    var i := 0;
    while i < |pairs|
      invariant 0 <= i <= |pairs|
      invariant newRow == Widened(row, pairs[..i])
    {
      var p := pairs[i];
      newRow := newRow["Compare_" + p.left := Get(row, p.left)];
      newRow := newRow["Compare_" + p.right := Get(row, p.right)];
      assert pairs[..i + 1][..i] == pairs[..i];
      i := i + 1;
    }
    assert pairs[..i] == pairs;
  }

  /** A `Compare_X` column holds the row's `X` cell; every other column is the row's own,
      unchanged. */
  lemma {:induction false} WidenedAt(row: Row, pairs: seq<Pair>, c: string)
    ensures c in CompareHeaders(pairs) ==>
      |c| >= 8 && c in Widened(row, pairs) && Widened(row, pairs)[c] == Get(row, c[8..])
    ensures c !in CompareHeaders(pairs) ==>
      (c in Widened(row, pairs) <==> c in row) && (c in row ==> Widened(row, pairs)[c] == row[c])
  {
    if |pairs| > 0 {
      var n := |pairs| - 1;
      var p := pairs[n];
      WidenedAt(row, pairs[..n], c);
      CompareHeadersSnoc(pairs[..n], p);
      if c in CompareHeaders(pairs) {
        CompareHeadersFrom(pairs, c);
      }
      assert pairs[..n] + [p] == pairs;
      assert ("Compare_" + p.left)[8..] == p.left;
      assert ("Compare_" + p.right)[8..] == p.right;
    }
  }

  lemma {:induction false} CompareHeadersSnoc(pairs: seq<Pair>, p: Pair)
    ensures CompareHeaders(pairs + [p]) == CompareHeaders(pairs) + ["Compare_" + p.left, "Compare_" + p.right]
  {
    if |pairs| > 0 {
      CompareHeadersSnoc(pairs[1..], p);
      assert (pairs + [p])[1..] == pairs[1..] + [p];
    } else {
      assert pairs + [p] == [p];
    }
  }

  /** `exportData`: every preview row widened, in order. */
  method WidenRows(preview: seq<Row>, pairs: seq<Pair>) returns (exportData: seq<Row>)
    ensures |exportData| == |preview|
    ensures forall i :: 0 <= i < |preview| ==> exportData[i] == Widened(preview[i], pairs)
  {
    exportData := [];
    var i := 0;
    while i < |preview|
      invariant 0 <= i <= |preview| && |exportData| == i
      invariant forall j :: 0 <= j < i ==> exportData[j] == Widened(preview[j], pairs)
    {
      var newRow := WidenRow(preview[i], pairs);
      exportData := exportData + [newRow];
      i := i + 1;
    }
  }

  /** What the download writes, or why it writes nothing. */
  function ExportOutcome(preview: seq<Row>, files: seq<string>, keyFields: map<string, string>, order: seq<string>)
    : Result<Sheet, ExportError>
  {
    if |preview| == 0 then Err(NoData)
    else if |files| == 0 && |keyFields| > 0 then Err(NoFiles)
    else
      var pairs := PairsOf(order, order, KeyFieldPairs(files, keyFields));
      Ok(Sheet(order + CompareHeaders(pairs), seq(|preview|, i requires 0 <= i < |preview| => Widened(preview[i], pairs))))
  }

  /** `downloadMergedFile` up to the workbook: the pairs, the widened rows and the columns. */
  method DownloadMergedFile(preview: seq<Row>, files: seq<string>, keyFields: map<string, string>, order: seq<string>)
    returns (result: Result<Sheet, ExportError>)
    ensures result == ExportOutcome(preview, files, keyFields, order)
  {
    if |preview| == 0 {
      return Err(NoData);
    }
    if |files| == 0 && |keyFields| > 0 {
      return Err(NoFiles);
    }
    var keyFieldPairs := KeyFieldPairs(files, keyFields);
    var comparePairs := ComparePairs(order, keyFieldPairs);
    var exportData := WidenRows(preview, comparePairs);
    var allHeaders := order + CompareHeaders(comparePairs);
    assert exportData == seq(|preview|, i requires 0 <= i < |preview| => Widened(preview[i], comparePairs));
    return Ok(Sheet(allHeaders, exportData));
  }

  /** The cells of one sheet row. The writer keys every column by its header, a later
      column taking over the key of an earlier one with the same header, and writes each
      field of the record into the column that holds its key: column `j` shows the
      record's value for its header (`Empty` when the record has none) unless a later
      column carries the same header, in which case it stays blank. */
  function SheetRow(record: Row, headers: seq<string>): seq<Cell> {
    seq(|headers|, j requires 0 <= j < |headers| => if headers[j] in headers[j + 1..] then Empty else Get(record, headers[j]))
  }

  /** What the sheet shows: every column whose header recurs further right is blank
      (so is any selected column named like a compare column); every other selected
      column shows the preview's own cell, and the two columns of pair `k` repeat that
      pair's `Left.` and `Right.` cells. */
  lemma ExportCells(preview: seq<Row>, files: seq<string>, keyFields: map<string, string>, order: seq<string>, i: nat)
    requires ExportOutcome(preview, files, keyFields, order).Ok? && i < |preview|
    ensures var sheet := ExportOutcome(preview, files, keyFields, order).value;
      var pairs := PairsOf(order, order, KeyFieldPairs(files, keyFields));
      SheetCellsFor(preview[i], order, pairs, SheetRow(sheet.rows[i], sheet.headers))
  {
    var sheet := ExportOutcome(preview, files, keyFields, order).value;
    var pairs := PairsOf(order, order, KeyFieldPairs(files, keyFields));
    assert sheet.rows[i] == Widened(preview[i], pairs);
    assert sheet.headers == order + CompareHeaders(pairs);
    WidenedSheetRow(preview[i], order, pairs);
  }

  /** `cells` shows `row` under the columns `order` followed by the compare columns of
      `pairs`, a header that recurs further right leaving its column blank. */
  ghost predicate SheetCellsFor(row: Row, order: seq<string>, pairs: seq<Pair>, cells: seq<Cell>) {
    var headers := order + CompareHeaders(pairs);
    |cells| == |headers| == |order| + 2 * |pairs|
    && (forall j :: 0 <= j < |headers| && headers[j] in headers[j + 1..] ==> cells[j] == Empty)
    && (forall j :: 0 <= j < |order| && order[j] in CompareHeaders(pairs) ==> cells[j] == Empty)
    && (forall j :: 0 <= j < |order| && order[j] !in headers[j + 1..] ==> cells[j] == Get(row, order[j]))
    && (forall k :: 0 <= k < |pairs| ==>
      (headers[|order| + 2 * k] !in headers[|order| + 2 * k + 1..] ==> cells[|order| + 2 * k] == Get(row, pairs[k].left))
      && (headers[|order| + 2 * k + 1] !in headers[|order| + 2 * k + 2..] ==> cells[|order| + 2 * k + 1] == Get(row, pairs[k].right)))
  }

  lemma WidenedSheetRow(row: Row, order: seq<string>, pairs: seq<Pair>)
    ensures SheetCellsFor(row, order, pairs, SheetRow(Widened(row, pairs), order + CompareHeaders(pairs)))
  {
    var headers := order + CompareHeaders(pairs);
    var widened := Widened(row, pairs);
    var cells := SheetRow(widened, headers);
    CompareHeadersLength(pairs);
    forall j | 0 <= j < |order|
      ensures order[j] in CompareHeaders(pairs) ==> cells[j] == Empty
      ensures order[j] !in headers[j + 1..] ==> cells[j] == Get(row, order[j])
    {
      OrderCell(row, order, pairs, j);
    }
    forall k | 0 <= k < |pairs|
      ensures headers[|order| + 2 * k] !in headers[|order| + 2 * k + 1..] ==> cells[|order| + 2 * k] == Get(row, pairs[k].left)
      ensures headers[|order| + 2 * k + 1] !in headers[|order| + 2 * k + 2..] ==> cells[|order| + 2 * k + 1] == Get(row, pairs[k].right)
    {
      CompareHeaderCells(row, order, pairs, k);
    }
  }

  /** Selected column `j`: blank when a compare column takes over its header, otherwise
      the preview's own cell unless the header recurs further right. */
  lemma OrderCell(row: Row, order: seq<string>, pairs: seq<Pair>, j: nat)
    requires j < |order|
    ensures var cells := SheetRow(Widened(row, pairs), order + CompareHeaders(pairs));
      |cells| == |order| + |CompareHeaders(pairs)|
      && (order[j] in CompareHeaders(pairs) ==> cells[j] == Empty)
      && (order[j] !in (order + CompareHeaders(pairs))[j + 1..] ==> cells[j] == Get(row, order[j]))
  {
    var headers := order + CompareHeaders(pairs);
    assert headers[j] == order[j];
    assert headers[j + 1..] == order[j + 1..] + CompareHeaders(pairs);
    WidenedAt(row, pairs, order[j]);
  }

  lemma CompareHeaderCells(row: Row, order: seq<string>, pairs: seq<Pair>, k: nat)
    requires k < |pairs|
    ensures |CompareHeaders(pairs)| == 2 * |pairs|
    ensures var headers := order + CompareHeaders(pairs);
      var cells := SheetRow(Widened(row, pairs), headers);
      (headers[|order| + 2 * k] !in headers[|order| + 2 * k + 1..] ==> cells[|order| + 2 * k] == Get(row, pairs[k].left))
      && (headers[|order| + 2 * k + 1] !in headers[|order| + 2 * k + 2..] ==> cells[|order| + 2 * k + 1] == Get(row, pairs[k].right))
  {
    var headers := order + CompareHeaders(pairs);
    CompareHeadersAt(pairs, k);
    var leftColumn := "Compare_" + pairs[k].left;
    var rightColumn := "Compare_" + pairs[k].right;
    assert headers[|order| + 2 * k] == leftColumn;
    assert headers[|order| + 2 * k + 1] == rightColumn;
    WidenedAt(row, pairs, leftColumn);
    WidenedAt(row, pairs, rightColumn);
    assert leftColumn[8..] == pairs[k].left;
    assert rightColumn[8..] == pairs[k].right;
  }

  /** Key columns are never repeated, and a download succeeds exactly when the preview
      has rows and the first file's name can be read. */
  lemma ExportOutcomeProperties(preview: seq<Row>, files: seq<string>, keyFields: map<string, string>, order: seq<string>)
    ensures ExportOutcome(preview, files, keyFields, order).Ok? <==> |preview| > 0 && (|files| > 0 || |keyFields| == 0)
    ensures ExportOutcome(preview, files, keyFields, order).Ok? ==>
      forall name, p :: name in keyFields && p in PairsOf(order, order, KeyFieldPairs(files, keyFields))
        ==> p.left != (if |files| > 0 && name == files[0] then "Left." else "Right.") + keyFields[name]
  {
    var keys := KeyFieldPairs(files, keyFields);
    forall name, p | name in keyFields && p in PairsOf(order, order, keys)
      ensures p.left != (if |files| > 0 && name == files[0] then "Left." else "Right.") + keyFields[name]
    {
      PairsMembers(order, order, keys, p);
    }
  }
}
