// The merge action (`mergeTables`, src/App.tsx): its guards, the header row it
// leaves as the new selection order, the in-place range post-process and the
// filter that drops rows whose two sides agree.

module Merge {
  import opened Text
  import opened Cells
  import opened Outline
  import opened Hierarchy
  import opened Alignment
  import opened RangeExpansion

  /** What the app holds when a merge starts. Files are known by name, in upload
      order. `tables` lists the typed row lists in the order their sheets finished
      processing (re-selecting a sheet appends another), so `tables[i]` need not
      belong to `files[i]`; the merge reads `tables[0]` and `tables[1]` and the key
      fields of `files[0]` and `files[1]` all the same. `fields[name]` lists the
      present column names: every loop over it skips the holes a missing header
      cell leaves. An empty column name stands for "no column chosen". */
  datatype Session = Session(
    files: seq<string>,
    tables: seq<seq<Row>>,
    fields: map<string, seq<string>>,
    selectedFields: map<string, seq<string>>,
    keyFields: map<string, string>,
    groupingStructure: map<string, map<int, GroupInfo>>,
    columnToProcess: string,
    secondColumnToProcess: string,
    selectedFieldsOrder: seq<string>)

  /** Why a merge leaves the state untouched: the two alerts, and the `TypeError` the
      code throws when a file has no field list (or fields but no selection). */
  datatype MergeError = TooFewTables | NoKeyField | StateMissing

  /** What a successful merge stores: the preview rows and the new selection order. */
  datatype Merged = Merged(preview: seq<Row>, headers: seq<string>)

  /** The first file is the Left side, every later one the Right side. */
  function SideOf(index: nat): Side {
    if index == 0 then Left else Right
  }

  /** `selectedFields[name] || []`. */
  function SelectedOf(selectedFields: map<string, seq<string>>, name: string): seq<string> {
    if name in selectedFields then selectedFields[name] else []
  }

  /** `row[keyFields[name]]` reads the property `"undefined"` when no key is recorded. */
  function KeyColumn(keyFields: map<string, string>, name: string): string {
    if name in keyFields then keyFields[name] else "undefined"
  }

  /** The columns of `fs` on one side, in order. */
  function Prefixed(side: Side, fs: seq<string>): seq<string> {
    seq(|fs|, i requires 0 <= i < |fs| => ColumnFor(side, fs[i]))
  }

  // ------------------------------------------------ the selection order

  /** The selection order the app derives whenever the selection or the files change:
      each file's selected fields in selection order, prefixed by its side. */
  function SelectedOrder(files: seq<string>, selectedFields: map<string, seq<string>>): seq<string> {
    if |files| == 0 then []
    else
      var n := |files| - 1;
      SelectedOrder(files[..n], selectedFields) + Prefixed(SideOf(n), SelectedOf(selectedFields, files[n]))
  }

  /** An entry of the selection order is a column of some file's selected fields. */
  lemma {:induction false} SelectedOrderMembers(files: seq<string>, selectedFields: map<string, seq<string>>, c: string)
    ensures c in SelectedOrder(files, selectedFields) <==>
      exists k :: 0 <= k < |files| && c in Prefixed(SideOf(k), SelectedOf(selectedFields, files[k]))
  {
    if |files| > 0 {
      var n := |files| - 1;
      var init := files[..n];
      SelectedOrderMembers(init, selectedFields, c);
      if exists k :: 0 <= k < |files| && c in Prefixed(SideOf(k), SelectedOf(selectedFields, files[k])) {
        var k :| 0 <= k < |files| && c in Prefixed(SideOf(k), SelectedOf(selectedFields, files[k]));
        if k < n {
          assert files[k] == init[k];
        }
      }
      if exists k :: 0 <= k < |init| && c in Prefixed(SideOf(k), SelectedOf(selectedFields, init[k])) {
        var k :| 0 <= k < |init| && c in Prefixed(SideOf(k), SelectedOf(selectedFields, init[k]));
        assert files[k] == init[k];
      }
    }
  }

  /** A column of `Prefixed(side, fs)` is the column of one of the fields. */
  lemma PrefixedMembers(side: Side, fs: seq<string>, c: string)
    ensures c in Prefixed(side, fs) <==> exists f :: f in fs && c == ColumnFor(side, f)
  {
    if exists f :: f in fs && c == ColumnFor(side, f) {
      var f :| f in fs && c == ColumnFor(side, f);
      var i :| 0 <= i < |fs| && fs[i] == f;
      assert Prefixed(side, fs)[i] == c;
    }
  }

  /** The filter pairs `Left.` entries with `Right.` ones: a `Left.` entry of the selection
      order is always a field the first file selected. */
  lemma LeftEntriesFromFirstFile(files: seq<string>, selectedFields: map<string, seq<string>>, c: string)
    requires c in SelectedOrder(files, selectedFields) && StartsWith(c, "Left.")
    ensures |files| > 0 && exists f :: f in SelectedOf(selectedFields, files[0]) && c == "Left." + f
  {
    SelectedOrderMembers(files, selectedFields, c);
    var k :| 0 <= k < |files| && c in Prefixed(SideOf(k), SelectedOf(selectedFields, files[k]));
    PrefixedMembers(SideOf(k), SelectedOf(selectedFields, files[k]), c);
    var f :| f in SelectedOf(selectedFields, files[k]) && c == ColumnFor(SideOf(k), f);
    ColumnStartsLeft(SideOf(k), f);
  }

  /** Only the column of a non-hierarchy Left field starts with `Left.`. */
  lemma ColumnStartsLeft(side: Side, f: string)
    ensures StartsWith(ColumnFor(side, f), "Left.") <==> side == Left && !IsLevelField(f)
  {
    var c := ColumnFor(side, f);
    if IsLevelField(f) {
      LevelFieldPrefix(f);
      assert f[..5][2] == f[2];
      assert c[2] == 'v';
    } else if side == Right {
      assert c[2] == 'g';
    } else {
      assert c[..5] == "Left.";
    }
    if |c| >= 5 {
      assert c[..5][2] == c[2];
    }
  }

  // ------------------------------------------------------------ headers

  /** A merge can proceed past the field lookups: two files at least, each with a field
      list, and a selection for each that has fields. */
  predicate StateComplete(s: Session) {
    |s.files| >= 2
    && forall name :: name in s.files ==> name in s.fields && (|s.fields[name]| > 0 ==> name in s.selectedFields)
  }

  /** `fields.filter(field => selected.includes(field))`. */
  function Chosen(fs: seq<string>, selected: seq<string>): seq<string> {
    if |fs| == 0 then []
    else Chosen(fs[..|fs| - 1], selected) + (if fs[|fs| - 1] in selected then [fs[|fs| - 1]] else [])
  }

  lemma {:induction false} ChosenMembers(fs: seq<string>, selected: seq<string>, f: string)
    ensures f in Chosen(fs, selected) <==> f in fs && f in selected
  {
    if |fs| > 0 {
      var n := |fs| - 1;
      ChosenMembers(fs[..n], selected, f);
      assert fs == fs[..n] + [fs[n]];
    }
  }

  /** The data columns of the first `n` files. */
  function DataHeaders(s: Session, n: nat): seq<string>
    requires StateComplete(s) && n <= |s.files|
  {
    if n == 0 then []
    else
      var name := s.files[n - 1];
      DataHeaders(s, n - 1) + Prefixed(SideOf(n - 1), Chosen(s.fields[name], SelectedOf(s.selectedFields, name)))
  }

  /** `Level_1..Level_count`. */
  function GroupHeaders(count: nat): seq<string> {
    seq(count, i requires 0 <= i < count => LevelHeader(i + 1))
  }

  /** The Left file's outline, if it has one. */
  function OutlineOf(s: Session): Option<map<int, GroupInfo>>
    requires |s.files| > 0
  {
    if s.files[0] in s.groupingStructure then Some(s.groupingStructure[s.files[0]]) else None
  }

  /** How many `Level_` columns the header row has: the outline's (none for an empty or
      all-negative outline), and one when the Left file has no outline. */
  ghost function GroupColumnCount(s: Session): nat
    requires |s.files| > 0
  {
    match OutlineOf(s)
    case None => 1
    case Some(g) => LevelCount(g)
  }

  /** The header row a merge leaves as the selection order. */
  ghost function MergedHeaders(s: Session): seq<string>
    requires StateComplete(s)
  {
    GroupHeaders(GroupColumnCount(s)) + ["LevelValue"] + DataHeaders(s, |s.files|)
  }

  /** Header assembly: the level columns, `LevelValue`, then each file's chosen fields. */
  method AssembleHeaders(s: Session) returns (allHeaders: seq<string>)
    requires StateComplete(s)
    ensures allHeaders == MergedHeaders(s)
  {
    var count := 1;
    if s.files[0] in s.groupingStructure {
      count := ComputeLevelCount(s.groupingStructure[s.files[0]]);
    }
    var dataHeaders: seq<string> := [];
    var i := 0;
    while i < |s.files|
      invariant 0 <= i <= |s.files|
      invariant dataHeaders == DataHeaders(s, i)
    {
      var name := s.files[i];
      var fileFields := Chosen(s.fields[name], SelectedOf(s.selectedFields, name));
      dataHeaders := dataHeaders + Prefixed(SideOf(i), fileFields);
      i := i + 1;
    }
    allHeaders := GroupHeaders(count) + ["LevelValue"] + dataHeaders;
  }

  /** The column of every chosen field of file `k` is among the data columns. */
  lemma {:induction false} DataHeadersHas(s: Session, n: nat, k: nat, f: string)
    requires StateComplete(s) && k < n <= |s.files|
    requires f in s.fields[s.files[k]] && f in SelectedOf(s.selectedFields, s.files[k])
    ensures ColumnFor(SideOf(k), f) in DataHeaders(s, n)
  {
    if k < n - 1 {
      DataHeadersHas(s, n - 1, k, f);
    } else {
      var chosen := Chosen(s.fields[s.files[k]], SelectedOf(s.selectedFields, s.files[k]));
      ChosenMembers(s.fields[s.files[k]], SelectedOf(s.selectedFields, s.files[k]), f);
      var i :| 0 <= i < |chosen| && chosen[i] == f;
      assert Prefixed(SideOf(k), chosen)[i] == ColumnFor(SideOf(k), f);
    }
  }

  // ---------------------------------------------------------- the merge

  /** What the alignment reads from the session: the first two files' tables, key
      columns, fields and selections, and the Left file's outline and recorded key. */
  function InputsOf(s: Session): MergeInputs
    requires StateComplete(s) && |s.tables| >= 2
  {
    var first := s.files[0];
    var second := s.files[1];
    MergeInputs(
      s.tables[0], s.tables[1],
      KeyColumn(s.keyFields, first), KeyColumn(s.keyFields, second),
      s.fields[first], SelectedOf(s.selectedFields, first),
      s.fields[second], SelectedOf(s.selectedFields, second),
      OutlineOf(s),
      if first in s.keyFields then Some(s.keyFields[first]) else None)
  }

  /** The aligned rows, one per origin of the plan. */
  ghost function MergedRows(m: MergeInputs): seq<Row> {
    var plan := Plan(m);
    seq(|plan|, p requires 0 <= p < |plan| => RowFor(m, plan[p], p))
  }

  lemma RowsFollowPlan(m: MergeInputs, rows: seq<Row>)
    requires RowsFollow(m, Plan(m), rows)
    ensures rows == MergedRows(m)
  {
  }

  /** Every column of an aligned row is a column of the header row. */
  lemma RowKeysInHeaders(s: Session, p: nat, k: string)
    requires StateComplete(s) && |s.tables| >= 2
    requires p < |MergedRows(InputsOf(s))| && k in MergedRows(InputsOf(s))[p]
    ensures k in MergedHeaders(s)
  {
    var m := InputsOf(s);
    var o := Plan(m)[p];
    var base := BaseRow(p, m.outline, m.left, m.baseKey);
    var leftSource := if o.FromLeft? then Some(m.left[o.i]) else None;
    var rightSource := match o
      case FromLeft(i) =>
        var key := Get(m.left[i], m.leftKey);
        if key in KeyIndex(m.right, m.rightKey) then Some(KeyIndex(m.right, m.rightKey)[key]) else None
      case RightOnly(j) => Some(m.right[j]);
    var leftDone := Overlay(base, Left, m.leftFields, m.leftSelected, leftSource);
    assert MergedRows(m)[p] == Overlay(leftDone, Right, m.rightFields, m.rightSelected, rightSource);
    var headers := MergedHeaders(s);
    var data := DataHeaders(s, |s.files|);
    assert headers == GroupHeaders(GroupColumnCount(s)) + ["LevelValue"] + data;
    OverlayColumns(leftDone, Right, m.rightFields, m.rightSelected, rightSource, k);
    if k in leftDone {
      OverlayColumns(base, Left, m.leftFields, m.leftSelected, leftSource, k);
      if k in base {
        BaseRowColumns(p, m.outline, m.left, m.baseKey, k);
        var count := GroupColumnCount(s);
        if k == "LevelValue" {
          assert headers[count] == k;
        } else {
          var j :| 1 <= j <= count && k == LevelHeader(j);
          assert headers[j - 1] == k;
        }
      } else {
        var f :| f in m.leftFields && f in m.leftSelected && k == ColumnFor(Left, f);
        DataHeadersHas(s, |s.files|, 0, f);
        assert k in data;
      }
    } else {
      var f :| f in m.rightFields && f in m.rightSelected && k == ColumnFor(Right, f);
      DataHeadersHas(s, |s.files|, 1, f);
      assert k in data;
    }
  }

  // --------------------------------------------- the range post-process

  /** A cell the post-process rewrites: the column is chosen and holds text with `-`. */
  predicate ShouldExpand(row: Row, column: string) {
    column != "" && column in row && row[column].Str? && '-' in row[column].s
  }

  /** The row after the post-process for one column. */
  function ExpandColumn(row: Row, column: string): Row {
    if ShouldExpand(row, column) then row[column := Str(Expanded(row[column].s))] else row
  }

  /** The row after the post-process for both chosen columns, first then second. */
  function ProcessedRow(row: Row, column: string, secondColumn: string): Row {
    ExpandColumn(ExpandColumn(row, column), secondColumn)
  }

  ghost function ProcessedRows(rows: seq<Row>, column: string, secondColumn: string): seq<Row> {
    seq(|rows|, i requires 0 <= i < |rows| => ProcessedRow(rows[i], column, secondColumn))
  }

  /** One column of one row, rewritten in place. */
  method ExpandCell(row: Row, column: string) returns (result: Row)
    ensures result == ExpandColumn(row, column)
  {
    result := row;
    if column != "" && column in row {
      var cellValue := row[column];
      if cellValue.Str? && '-' in cellValue.s {
        var expanded := ExpandRanges(cellValue.s);
        result := result[column := Str(expanded)];
      }
    }
  }

  /** The post-process over all merged rows, skipped when no column is chosen. */
  method ProcessRanges(rows: seq<Row>, column: string, secondColumn: string) returns (result: seq<Row>)
    ensures result == ProcessedRows(rows, column, secondColumn)
  {
    result := rows;
    if column != "" || secondColumn != "" {
      var i := 0;
      while i < |result|
        invariant 0 <= i <= |result| == |rows|
        invariant forall j :: 0 <= j < i ==> result[j] == ProcessedRow(rows[j], column, secondColumn)
        invariant forall j :: i <= j < |rows| ==> result[j] == rows[j]
      {
        var row := ExpandCell(result[i], column);
        row := ExpandCell(row, secondColumn);
        result := result[i := row];
        i := i + 1;
      }
    } else {
      forall j | 0 <= j < |rows|
        ensures ProcessedRow(rows[j], column, secondColumn) == rows[j]
      {
      }
    }
  }

  /** The post-process rewrites a cell only when it is a chosen column holding text with
      `-`, and then to the expanded text; no column is added or removed. */
  lemma ExpandColumnEffect(row: Row, column: string, k: string)
    ensures k in ExpandColumn(row, column) <==> k in row
    ensures Get(ExpandColumn(row, column), k)
      == if k == column && ShouldExpand(row, column) then Str(Expanded(row[column].s)) else Get(row, k)
  {
  }

  /** Processing a column twice is processing it once: an expanded value expands to itself. */
  lemma ExpandColumnIdempotent(row: Row, column: string)
    ensures ExpandColumn(ExpandColumn(row, column), column) == ExpandColumn(row, column)
  {
    if ShouldExpand(row, column) {
      var value := row[column].s;
      var expanded := Expanded(value);
      ExpandedIdempotent(value);
      ExpandStable(row[column := Str(expanded)], column, expanded);
    }
  }

  lemma ExpandStable(row: Row, column: string, value: string)
    requires column in row && row[column] == Str(value) && Expanded(value) == value
    ensures ExpandColumn(row, column) == row
  {
  }

  // ---------------------------------------------------- the difference filter

  /** `leftField.replace('Left.', 'Right.')` for a field that starts with `Left.`. */
  function RightCounterpart(leftField: string): string
    requires StartsWith(leftField, "Left.")
  {
    "Right." + leftField[5..]
  }

  /** `leftField` is a `Left.` column whose trimmed text differs from its `Right.` twin
      (a missing cell reads as `''`). */
  predicate Differs(row: Row, leftField: string) {
    StartsWith(leftField, "Left.")
    && TrimmedText(Get(row, leftField)) != TrimmedText(Get(row, RightCounterpart(leftField)))
  }

  /** The filter's test, `leftFields.some(...)`: scanning the selection order, some
      `Left.` column differs. */
  predicate Changed(row: Row, order: seq<string>) {
    |order| > 0 && (Differs(row, order[0]) || Changed(row, order[1..]))
  }

  /** The scan finds a differing column exactly when the selection order has one. */
  lemma {:induction false} ChangedMeans(row: Row, order: seq<string>)
    ensures Changed(row, order) <==> exists leftField :: leftField in order && Differs(row, leftField)
  {
    if |order| > 0 {
      ChangedMeans(row, order[1..]);
      assert order == [order[0]] + order[1..];
    }
  }

  /** `rows.filter(row => Changed(row, order))`. */
  function FilterChanged(rows: seq<Row>, order: seq<string>): seq<Row> {
    if |rows| == 0 then [] else Kept(rows[0], order) + FilterChanged(rows[1..], order)
  }

  /** What the filter keeps of one row. */
  function Kept(row: Row, order: seq<string>): seq<Row> {
    if Changed(row, order) then [row] else []
  }

  /** A row survives the filter exactly when it is one of the rows and differs. */
  lemma {:induction false} FilterMembers(rows: seq<Row>, order: seq<string>, row: Row)
    ensures row in FilterChanged(rows, order) <==> row in rows && Changed(row, order)
  {
    if |rows| > 0 {
      FilterMembers(rows[1..], order, row);
      assert rows == [rows[0]] + rows[1..];
    }
  }

  /** The filter keeps order: filtering a concatenation filters each part. */
  lemma {:induction false} FilterConcat(a: seq<Row>, b: seq<Row>, order: seq<string>)
    ensures FilterChanged(a + b, order) == FilterChanged(a, order) + FilterChanged(b, order)
  {
    if |a| == 0 {
      assert a + b == b;
    } else {
      FilterConcat(a[1..], b, order);
      FilterConcatStep(a[0], a[1..], b, order);
      assert a == [a[0]] + a[1..];
    }
  }

  lemma FilterConcatStep(x: Row, rest: seq<Row>, b: seq<Row>, order: seq<string>)
    requires FilterChanged(rest + b, order) == FilterChanged(rest, order) + FilterChanged(b, order)
    ensures FilterChanged([x] + rest + b, order) == FilterChanged([x] + rest, order) + FilterChanged(b, order)
  {
    FilterCons(x, rest + b, order);
    FilterCons(x, rest, order);
    Associative([x], rest, b);
    Associative(Kept(x, order), FilterChanged(rest, order), FilterChanged(b, order));
  }

  lemma FilterCons(x: Row, rest: seq<Row>, order: seq<string>)
    ensures FilterChanged([x] + rest, order) == Kept(x, order) + FilterChanged(rest, order)
  {
    var whole := [x] + rest;
    assert whole[0] == x;
    assert whole[1..] == rest;
  }

  lemma Associative(x: seq<Row>, y: seq<Row>, z: seq<Row>)
    ensures x + (y + z) == (x + y) + z
  {
  }

  lemma {:induction false} FilterShorter(rows: seq<Row>, order: seq<string>)
    ensures |FilterChanged(rows, order)| <= |rows|
  {
    if |rows| > 0 {
      FilterShorter(rows[1..], order);
    }
  }

  /** Filtering twice is filtering once. */
  lemma {:induction false} FilterIdempotent(rows: seq<Row>, order: seq<string>)
    ensures FilterChanged(FilterChanged(rows, order), order) == FilterChanged(rows, order)
  {
    if |rows| > 0 {
      var head := Kept(rows[0], order);
      FilterIdempotent(rows[1..], order);
      FilterConcat(head, FilterChanged(rows[1..], order), order);
      if head != [] {
        assert FilterChanged(head, order) == [rows[0]] + FilterChanged([], order);
      }
    }
  }

  /** Without a `Left.` column in the selection order nothing differs and every row goes. */
  lemma {:induction false} NoLeftColumnsNoRows(rows: seq<Row>, order: seq<string>)
    requires forall c :: c in order ==> !StartsWith(c, "Left.")
    ensures FilterChanged(rows, order) == []
  {
    if |rows| > 0 {
      NoLeftColumnsNoRows(rows[1..], order);
      ChangedMeans(rows[0], order);
    }
  }

  // ------------------------------------------------------------ the action

  /** What a merge stores, or why it stores nothing. */
  ghost function MergeOutcome(s: Session): Result<Merged, MergeError> {
    if |s.tables| < 2 then Err(TooFewTables)
    else if |s.keyFields| == 0 then Err(NoKeyField)
    else if !StateComplete(s) then Err(StateMissing)
    else
      var rows := ProcessedRows(MergedRows(InputsOf(s)), s.columnToProcess, s.secondColumnToProcess);
      Ok(Merged(FilterChanged(rows, s.selectedFieldsOrder), MergedHeaders(s)))
  }

  /** `mergeTables`: check the state, align the rows, expand ranges in the chosen
      columns, drop the rows whose sides agree, and build the new header row. */
  method MergeTables(s: Session) returns (result: Result<Merged, MergeError>)
    ensures result == MergeOutcome(s)
  {
    if |s.tables| < 2 {
      return Err(TooFewTables);
    }
    if |s.keyFields| == 0 {
      return Err(NoKeyField);
    }
    if !StateComplete(s) {
      return Err(StateMissing);
    }
    var resultRows := MergeRows(InputsOf(s));
    RowsFollowPlan(InputsOf(s), resultRows);
    var allHeaders := AssembleHeaders(s);
    var resultData := ProcessRanges(resultRows, s.columnToProcess, s.secondColumnToProcess);
    var filteredData := FilterChanged(resultData, s.selectedFieldsOrder);
    return Ok(Merged(filteredData, allHeaders));
  }

  /** A merge succeeds exactly when there are two tables, a key field is recorded, and
      every file has its field lists; what it keeps are merged rows that differ, at most
      one per Left row and Right-only row, and none has a column the header row lacks. */
  lemma MergeOutcomeProperties(s: Session)
    ensures MergeOutcome(s).Ok? <==> |s.tables| >= 2 && |s.keyFields| > 0 && StateComplete(s)
    ensures MergeOutcome(s).Ok? ==>
      var m := InputsOf(s);
      var preview := MergeOutcome(s).value.preview;
      |preview| <= |m.left| + |RightOnlyBelow(m, |m.right|)|
      && (forall row :: row in preview ==> Changed(row, s.selectedFieldsOrder))
      && (forall row, k :: row in preview && k in row ==> k in MergeOutcome(s).value.headers)
  {
    if MergeOutcome(s).Ok? {
      var m := InputsOf(s);
      var rows := MergedRows(m);
      var processed := ProcessedRows(rows, s.columnToProcess, s.secondColumnToProcess);
      var preview := MergeOutcome(s).value.preview;
      FilterShorter(processed, s.selectedFieldsOrder);
      PlanLength(m);
      forall row | row in preview
        ensures Changed(row, s.selectedFieldsOrder)
        ensures forall k :: k in row ==> k in MergedHeaders(s)
      {
        FilterMembers(processed, s.selectedFieldsOrder, row);
        var p :| 0 <= p < |processed| && processed[p] == row;
        forall k | k in row
          ensures k in MergedHeaders(s)
        {
          ExpandColumnEffect(ExpandColumn(rows[p], s.columnToProcess), s.secondColumnToProcess, k);
          ExpandColumnEffect(rows[p], s.columnToProcess, k);
          RowKeysInHeaders(s, p, k);
        }
      }
    }
  }
}
