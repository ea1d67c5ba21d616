// The row alignment at the heart of `mergeTables` (src/App.tsx): every
// Left row in order, each carrying the fields of the last Right row with
// the same key, and after Left row i the Right row i when its key occurs
// nowhere in the Left table.

module Alignment {
  import opened Text
  import opened Cells
  import opened Outline
  import opened Hierarchy

  datatype Side = Left | Right

  /** The column a field of one side is copied to: hierarchy fields as they are, every
      other field prefixed with `Left.` or `Right.`. */
  function ColumnFor(side: Side, f: string): string {
    if IsLevelField(f) then f
    else (if side == Left then "Left." else "Right.") + f
  }

  /** The `side.` prefix of a column, as `replace('Left.', 'Right.')` sees it. */
  function SidePrefix(side: Side): string {
    if side == Left then "Left." else "Right."
  }

  lemma PrefixedNotLevel(side: Side, f: string)
    ensures !IsLevelField(SidePrefix(side) + f)
  {
    var c := SidePrefix(side) + f;
    assert c[2] == SidePrefix(side)[2];
    if |c| >= 6 {
      assert c[..6][2] == c[2];
    }
  }

  /** Different fields of one side land in different columns. */
  lemma ColumnForInjective(side: Side, f: string, g: string)
    ensures ColumnFor(side, f) == ColumnFor(side, g) <==> f == g
  {
    PrefixedNotLevel(side, f);
    PrefixedNotLevel(side, g);
    if !IsLevelField(f) && !IsLevelField(g) {
      var p := SidePrefix(side);
      assert f == (p + f)[|p|..];
      assert g == (p + g)[|p|..];
    }
  }

  /** A Left column and a Right column coincide only for the same hierarchy field. */
  lemma SidesShareOnlyLevelFields(f: string, g: string)
    ensures ColumnFor(Left, f) == ColumnFor(Right, g) <==> IsLevelField(f) && f == g
  {
    PrefixedNotLevel(Left, f);
    PrefixedNotLevel(Right, g);
    if IsLevelField(f) {
      LevelFieldPrefix(f);
    }
    if IsLevelField(g) {
      LevelFieldPrefix(g);
    }
    assert ColumnFor(Left, f)[1] == 'e';
    assert ColumnFor(Right, g)[1] == if IsLevelField(g) then 'e' else 'i';
  }

  // ------------------------------------------------------------ key maps

  /** `new Map(table.map(row => [row[keyField], row]))`: a later row with the same key
      replaces an earlier one. */
  function KeyIndex(table: seq<Row>, keyField: string): map<Cell, Row> {
    if |table| == 0 then map[]
    else KeyIndex(table[..|table| - 1], keyField)[Get(table[|table| - 1], keyField) := table[|table| - 1]]
  }

  /** A key is in the map exactly when some row carries it. */
  lemma {:induction false} KeyIndexKeys(table: seq<Row>, keyField: string, k: Cell)
    ensures k in KeyIndex(table, keyField) <==> exists i :: 0 <= i < |table| && Get(table[i], keyField) == k
  {
    if |table| > 0 {
      var n := |table| - 1;
      KeyIndexKeys(table[..n], keyField, k);
      if exists i :: 0 <= i < |table[..n]| && Get(table[..n][i], keyField) == k {
        var i :| 0 <= i < |table[..n]| && Get(table[..n][i], keyField) == k;
        assert table[i] == table[..n][i];
      }
      if exists i :: 0 <= i < |table| && Get(table[i], keyField) == k {
        var i :| 0 <= i < |table| && Get(table[i], keyField) == k;
        if i < n {
          assert table[..n][i] == table[i];
        }
      }
    }
  }

  /** The row a key maps to is the last row carrying that key. */
  lemma {:induction false} KeyIndexLast(table: seq<Row>, keyField: string, k: Cell)
    requires k in KeyIndex(table, keyField)
    ensures exists i :: (0 <= i < |table| && KeyIndex(table, keyField)[k] == table[i]
      && Get(table[i], keyField) == k
      && forall j :: i < j < |table| ==> Get(table[j], keyField) != k)
  {
    var n := |table| - 1;
    if Get(table[n], keyField) != k {
      KeyIndexLast(table[..n], keyField, k);
      var i :| 0 <= i < |table[..n]| && KeyIndex(table[..n], keyField)[k] == table[..n][i]
        && Get(table[..n][i], keyField) == k
        && (forall j :: i < j < |table[..n]| ==> Get(table[..n][j], keyField) != k);
      assert table[..n][i] == table[i];
      forall j | i < j < |table| ensures Get(table[j], keyField) != k {
        if j < n {
          assert table[..n][j] == table[j];
        }
      }
    }
  }

  // -------------------------------------------------------- field copies

  /** The value copied for `field`: from the source row, or `''` when there is none. */
  function Fill(source: Option<Row>, field: string): Cell {
    match source
    case Some(r) => Get(r, field)
    case None => Str("")
  }

  /** `fields.forEach(field => { if (selected.includes(field)) row[column] = value })`. */
  function Overlay(row: Row, side: Side, fields: seq<string>, selected: seq<string>, source: Option<Row>): Row {
    if |fields| == 0 then row
    else
      var before := Overlay(row, side, fields[..|fields| - 1], selected, source);
      var f := fields[|fields| - 1];
      if f in selected then before[ColumnFor(side, f) := Fill(source, f)] else before
  }

  /** The copy loop over one file's fields. */
  method CopyFields(row: Row, side: Side, fields: seq<string>, selected: seq<string>, source: Option<Row>)
    returns (result: Row)
    ensures result == Overlay(row, side, fields, selected, source)
  {
    result := row;
    var i := 0;
    while i < |fields|
      invariant 0 <= i <= |fields|
      invariant result == Overlay(row, side, fields[..i], selected, source)
    {
      var field := fields[i];
      if field in selected {
        result := result[ColumnFor(side, field) := Fill(source, field)];
      }
      assert fields[..i + 1][..i] == fields[..i];
      i := i + 1;
    }
    assert fields[..i] == fields;
  }

  /** Every selected field lands in its column with its value. */
  lemma {:induction false} OverlaySets(row: Row, side: Side, fields: seq<string>, selected: seq<string>, source: Option<Row>, f: string)
    requires f in fields && f in selected
    ensures ColumnFor(side, f) in Overlay(row, side, fields, selected, source)
    ensures Overlay(row, side, fields, selected, source)[ColumnFor(side, f)] == Fill(source, f)
  {
    var n := |fields| - 1;
    var g := fields[n];
    if g != f {
      assert f in fields[..n] by {
        var i :| 0 <= i < |fields| && fields[i] == f;
        assert fields[..n][i] == f;
      }
      OverlaySets(row, side, fields[..n], selected, source, f);
      ColumnForInjective(side, g, f);
    }
  }

  /** Columns no selected field maps to are left as they were. */
  lemma {:induction false} OverlayKeepsOthers(row: Row, side: Side, fields: seq<string>, selected: seq<string>, source: Option<Row>, k: string)
    requires forall f :: f in fields && f in selected ==> ColumnFor(side, f) != k
    ensures k in Overlay(row, side, fields, selected, source) <==> k in row
    ensures k in row ==> Overlay(row, side, fields, selected, source)[k] == row[k]
  {
    if |fields| > 0 {
      var n := |fields| - 1;
      assert forall f :: f in fields[..n] ==> f in fields;
      OverlayKeepsOthers(row, side, fields[..n], selected, source, k);
    }
  }

  /** Every column of the result was already there or is the column of a selected field. */
  lemma {:induction false} OverlayColumns(row: Row, side: Side, fields: seq<string>, selected: seq<string>, source: Option<Row>, k: string)
    requires k in Overlay(row, side, fields, selected, source)
    ensures k in row || exists f :: f in fields && f in selected && k == ColumnFor(side, f)
  {
    if |fields| > 0 {
      var n := |fields| - 1;
      var g := fields[n];
      if !(g in selected && k == ColumnFor(side, g)) {
        OverlayColumns(row, side, fields[..n], selected, source, k);
        if !(k in row) {
          var f :| f in fields[..n] && f in selected && k == ColumnFor(side, f);
          assert f in fields;
        }
      }
    }
  }

  // ---------------------------------------------------------- the merge

  /** What the alignment reads: both tables, their key fields, each side's fields and
      selection, and what `createBaseRow` reads (the Left file's outline, if any, and its
      recorded key field, if any). */
  datatype MergeInputs = MergeInputs(
    left: seq<Row>, right: seq<Row>,
    leftKey: string, rightKey: string,
    leftFields: seq<string>, leftSelected: seq<string>,
    rightFields: seq<string>, rightSelected: seq<string>,
    outline: Option<map<int, GroupInfo>>, baseKey: Option<string>)

  /** Right row `j`'s key is the key of no Left row. */
  predicate IsRightOnly(m: MergeInputs, j: nat)
    requires j < |m.right|
  {
    Get(m.right[j], m.rightKey) !in KeyIndex(m.left, m.leftKey)
  }

  /** Where an output row comes from. */
  datatype Origin = FromLeft(i: nat) | RightOnly(j: nat)

  predicate ValidOrigin(m: MergeInputs, o: Origin) {
    match o
    case FromLeft(i) => i < |m.left|
    case RightOnly(j) => j < |m.right| && IsRightOnly(m, j)
  }

  /** What iteration `i` of the loop emits. */
  function Step(m: MergeInputs, i: nat): seq<Origin> {
    (if i < |m.left| then [FromLeft(i)] else [])
    + (if i < |m.right| && IsRightOnly(m, i) then [RightOnly(i)] else [])
  }

  function PlanUpTo(m: MergeInputs, n: nat): (plan: seq<Origin>)
    ensures forall p :: 0 <= p < |plan| ==> ValidOrigin(m, plan[p])
  {
    if n == 0 then [] else PlanUpTo(m, n - 1) + Step(m, n - 1)
  }

  function MaxLength(m: MergeInputs): nat {
    if |m.left| >= |m.right| then |m.left| else |m.right|
  }

  /** The origins of the merged rows, in output order. */
  function Plan(m: MergeInputs): seq<Origin> {
    PlanUpTo(m, MaxLength(m))
  }

  /** The row emitted at output position `p` for origin `o`. */
  ghost function RowFor(m: MergeInputs, o: Origin, p: nat): Row
    requires ValidOrigin(m, o)
  {
    var base := BaseRow(p, m.outline, m.left, m.baseKey);
    match o
    case FromLeft(i) =>
      var firstKey := Get(m.left[i], m.leftKey);
      var rightIndex := KeyIndex(m.right, m.rightKey);
      var matching := if firstKey in rightIndex then Some(rightIndex[firstKey]) else None;
      Overlay(Overlay(base, Left, m.leftFields, m.leftSelected, Some(m.left[i])),
        Right, m.rightFields, m.rightSelected, matching)
    case RightOnly(j) =>
      Overlay(Overlay(base, Left, m.leftFields, m.leftSelected, None),
        Right, m.rightFields, m.rightSelected, Some(m.right[j]))
  }

  /** `rows` are the merged rows of plan `plan`. */
  ghost predicate RowsFollow(m: MergeInputs, plan: seq<Origin>, rows: seq<Row>)
    requires forall p :: 0 <= p < |plan| ==> ValidOrigin(m, plan[p])
  {
    |rows| == |plan| && forall p :: 0 <= p < |rows| ==> rows[p] == RowFor(m, plan[p], p)
  }

  /** The positional pass of `mergeTables`. */
  method MergeRows(m: MergeInputs) returns (rows: seq<Row>)
    ensures RowsFollow(m, Plan(m), rows)
  {
    var firstTableMap := KeyIndex(m.left, m.leftKey);
    var secondTableMap := KeyIndex(m.right, m.rightKey);
    var maxLength := if |m.left| >= |m.right| then |m.left| else |m.right|;
    rows := [];
    ghost var plan: seq<Origin> := [];
    var i := 0;
    while i < maxLength
      invariant 0 <= i <= maxLength
      invariant plan == PlanUpTo(m, i)
      invariant RowsFollow(m, plan, rows)
    {
      if i < |m.left| {
        var firstRow := m.left[i];
        var baseRow := CreateBaseRow(|rows|, m.outline, m.left, m.baseKey);
        var firstKey := Get(firstRow, m.leftKey);
        var matchingSecondRow := if firstKey in secondTableMap then Some(secondTableMap[firstKey]) else None;
        baseRow := CopyFields(baseRow, Left, m.leftFields, m.leftSelected, Some(firstRow));
        baseRow := CopyFields(baseRow, Right, m.rightFields, m.rightSelected, matchingSecondRow);
        assert baseRow == RowFor(m, FromLeft(i), |rows|);
        AppendFollows(m, plan, rows, FromLeft(i), baseRow);
        plan := plan + [FromLeft(i)];
        rows := rows + [baseRow];
      }
      if i < |m.right| && Get(m.right[i], m.rightKey) !in firstTableMap {
        var baseRow := CreateBaseRow(|rows|, m.outline, m.left, m.baseKey);
        baseRow := CopyFields(baseRow, Left, m.leftFields, m.leftSelected, None);
        baseRow := CopyFields(baseRow, Right, m.rightFields, m.rightSelected, Some(m.right[i]));
        assert baseRow == RowFor(m, RightOnly(i), |rows|);
        AppendFollows(m, plan, rows, RightOnly(i), baseRow);
        plan := plan + [RightOnly(i)];
        rows := rows + [baseRow];
      }
      assert plan == PlanUpTo(m, i) + Step(m, i);
      i := i + 1;
    }
  }

  lemma AppendFollows(m: MergeInputs, plan: seq<Origin>, rows: seq<Row>, o: Origin, row: Row)
    requires forall p :: 0 <= p < |plan| ==> ValidOrigin(m, plan[p])
    requires RowsFollow(m, plan, rows)
    requires ValidOrigin(m, o) && row == RowFor(m, o, |rows|)
    ensures forall p :: 0 <= p < |plan + [o]| ==> ValidOrigin(m, (plan + [o])[p])
    ensures RowsFollow(m, plan + [o], rows + [row])
  {
    assert forall p :: 0 <= p < |plan| ==> (plan + [o])[p] == plan[p] && (rows + [row])[p] == rows[p];
  }

  // ------------------------------------------------------ the plan's shape

  /** The loop iteration that emits an origin. */
  function IndexOf(o: Origin): nat {
    match o
    case FromLeft(i) => i
    case RightOnly(j) => j
  }

  /** The position of an origin in the interleaving: Left row `i`, then Right row `i`. */
  function Stamp(o: Origin): nat {
    match o
    case FromLeft(i) => 2 * i
    case RightOnly(j) => 2 * j + 1
  }

  lemma {:induction false} PlanUpToMembers(m: MergeInputs, n: nat, o: Origin)
    ensures o in PlanUpTo(m, n) <==> ValidOrigin(m, o) && IndexOf(o) < n
  {
    if n > 0 {
      PlanUpToMembers(m, n - 1, o);
    }
  }

  /** The merged rows come from every Left row and from exactly the Right rows whose key
      is no Left row's key. */
  lemma PlanMembers(m: MergeInputs, o: Origin)
    ensures o in Plan(m) <==> ValidOrigin(m, o)
  {
    PlanUpToMembers(m, MaxLength(m), o);
  }

  lemma {:induction false} PlanUpToSorted(m: MergeInputs, n: nat)
    ensures forall p :: 0 <= p < |PlanUpTo(m, n)| ==> Stamp(PlanUpTo(m, n)[p]) < 2 * n
    ensures forall p, q :: 0 <= p < q < |PlanUpTo(m, n)| ==> Stamp(PlanUpTo(m, n)[p]) < Stamp(PlanUpTo(m, n)[q])
  {
    if n > 0 {
      PlanUpToSorted(m, n - 1);
      var before := PlanUpTo(m, n - 1);
      var plan := PlanUpTo(m, n);
      assert plan == before + Step(m, n - 1);
      assert forall p :: 0 <= p < |before| ==> plan[p] == before[p];
    }
  }

  /** The merged rows are ordered by source position, a Left row before the Right row at
      the same position. */
  lemma PlanSorted(m: MergeInputs)
    ensures forall p, q :: 0 <= p < q < |Plan(m)| ==> Stamp(Plan(m)[p]) < Stamp(Plan(m)[q])
  {
    PlanUpToSorted(m, MaxLength(m));
  }

  /** A Right row with an unknown key comes right after the Left row at its position. */
  lemma RightOnlyFollowsLeft(m: MergeInputs, p: nat, i: nat)
    requires p < |Plan(m)| && Plan(m)[p] == FromLeft(i)
    requires i < |m.right| && IsRightOnly(m, i)
    ensures p + 1 < |Plan(m)| && Plan(m)[p + 1] == RightOnly(i)
  {
    var plan := Plan(m);
    PlanMembers(m, RightOnly(i));
    PlanSorted(m);
    var q :| 0 <= q < |plan| && plan[q] == RightOnly(i);
    assert p < q;
    assert Stamp(plan[p + 1]) <= Stamp(plan[q]);
  }

  /** The Right rows below `n` whose key is not a Left key. */
  function RightOnlyBelow(m: MergeInputs, n: nat): set<nat> {
    set j | 0 <= j < n && j < |m.right| && IsRightOnly(m, j)
  }

  lemma {:induction false} PlanUpToLength(m: MergeInputs, n: nat)
    ensures |PlanUpTo(m, n)| == (if n <= |m.left| then n else |m.left|) + |RightOnlyBelow(m, n)|
  {
    if n > 0 {
      PlanUpToLength(m, n - 1);
      if n - 1 < |m.right| && IsRightOnly(m, n - 1) {
        assert RightOnlyBelow(m, n) == RightOnlyBelow(m, n - 1) + {n - 1};
      } else {
        assert RightOnlyBelow(m, n) == RightOnlyBelow(m, n - 1);
      }
    }
  }

  /** Output length: every Left row, plus the Right rows whose key is not a Left key. */
  lemma PlanLength(m: MergeInputs)
    ensures |Plan(m)| == |m.left| + |RightOnlyBelow(m, |m.right|)|
  {
    PlanUpToLength(m, MaxLength(m));
    assert RightOnlyBelow(m, MaxLength(m)) == RightOnlyBelow(m, |m.right|);
  }

  /** When every Right key is also a Left key, only the Left rows come out, however many
      Right rows there are. */
  lemma KnownRightKeysAddNothing(m: MergeInputs)
    requires forall j :: 0 <= j < |m.right| ==> Get(m.right[j], m.rightKey) in KeyIndex(m.left, m.leftKey)
    ensures |Plan(m)| == |m.left|
  {
    PlanLength(m);
    assert RightOnlyBelow(m, |m.right|) == {};
  }

  // ---------------------------------------------------- the rows' content

  lemma LeftNotRight(f: string, g: string)
    requires !IsLevelField(f)
    ensures ColumnFor(Left, f) != ColumnFor(Right, g)
  {
    SidesShareOnlyLevelFields(f, g);
  }

  /** A selected non-hierarchy Left field of a Left row holds the row's own value. */
  lemma LeftRowOwnFields(m: MergeInputs, i: nat, p: nat, f: string)
    requires i < |m.left|
    requires f in m.leftFields && f in m.leftSelected && !IsLevelField(f)
    ensures ColumnFor(Left, f) in RowFor(m, FromLeft(i), p)
    ensures RowFor(m, FromLeft(i), p)[ColumnFor(Left, f)] == Get(m.left[i], f)
  {
    var base := BaseRow(p, m.outline, m.left, m.baseKey);
    var k := ColumnFor(Left, f);
    OverlaySets(base, Left, m.leftFields, m.leftSelected, Some(m.left[i]), f);
    forall g | g in m.rightFields && g in m.rightSelected ensures ColumnFor(Right, g) != k {
      LeftNotRight(f, g);
    }
    var firstKey := Get(m.left[i], m.leftKey);
    var rightIndex := KeyIndex(m.right, m.rightKey);
    var matching := if firstKey in rightIndex then Some(rightIndex[firstKey]) else None;
    OverlayKeepsOthers(Overlay(base, Left, m.leftFields, m.leftSelected, Some(m.left[i])),
      Right, m.rightFields, m.rightSelected, matching, k);
  }

  /** A selected Right field of a Left row holds the value of the last Right row with the
      same key, or `''` when no Right row has that key. */
  lemma LeftRowMatchedFields(m: MergeInputs, i: nat, p: nat, f: string)
    requires i < |m.left|
    requires f in m.rightFields && f in m.rightSelected
    ensures var row := RowFor(m, FromLeft(i), p);
      var key := Get(m.left[i], m.leftKey);
      ColumnFor(Right, f) in row
      && ((forall j :: 0 <= j < |m.right| ==> Get(m.right[j], m.rightKey) != key) ==> row[ColumnFor(Right, f)] == Str(""))
      && ((exists j :: 0 <= j < |m.right| && Get(m.right[j], m.rightKey) == key) ==>
        exists j :: 0 <= j < |m.right| && Get(m.right[j], m.rightKey) == key
          && (forall j' :: j < j' < |m.right| ==> Get(m.right[j'], m.rightKey) != key)
          && row[ColumnFor(Right, f)] == Get(m.right[j], f))
  {
    var base := BaseRow(p, m.outline, m.left, m.baseKey);
    var key := Get(m.left[i], m.leftKey);
    var rightIndex := KeyIndex(m.right, m.rightKey);
    var matching := if key in rightIndex then Some(rightIndex[key]) else None;
    OverlaySets(Overlay(base, Left, m.leftFields, m.leftSelected, Some(m.left[i])),
      Right, m.rightFields, m.rightSelected, matching, f);
    KeyIndexKeys(m.right, m.rightKey, key);
    if key in rightIndex {
      KeyIndexLast(m.right, m.rightKey, key);
    }
  }

  /** A Right row emitted on its own has `''` in every selected Left column (a hierarchy
      field only when the Right side does not select it too) and its own values in the
      selected Right columns. */
  lemma RightOnlyRowFields(m: MergeInputs, j: nat, p: nat)
    requires j < |m.right| && IsRightOnly(m, j)
    ensures forall f :: f in m.leftFields && f in m.leftSelected && !IsLevelField(f) ==>
      ColumnFor(Left, f) in RowFor(m, RightOnly(j), p) && RowFor(m, RightOnly(j), p)[ColumnFor(Left, f)] == Str("")
    ensures forall f :: (f in m.leftFields && f in m.leftSelected && IsLevelField(f)
                          && !(f in m.rightFields && f in m.rightSelected)) ==>
      f in RowFor(m, RightOnly(j), p) && RowFor(m, RightOnly(j), p)[f] == Str("")
    ensures forall f :: f in m.rightFields && f in m.rightSelected ==>
      ColumnFor(Right, f) in RowFor(m, RightOnly(j), p) && RowFor(m, RightOnly(j), p)[ColumnFor(Right, f)] == Get(m.right[j], f)
  {
    var base := BaseRow(p, m.outline, m.left, m.baseKey);
    var leftDone := Overlay(base, Left, m.leftFields, m.leftSelected, None);
    forall f | f in m.leftFields && f in m.leftSelected && !IsLevelField(f)
      ensures ColumnFor(Left, f) in RowFor(m, RightOnly(j), p) && RowFor(m, RightOnly(j), p)[ColumnFor(Left, f)] == Str("")
    {
      OverlaySets(base, Left, m.leftFields, m.leftSelected, None, f);
      forall g | g in m.rightFields && g in m.rightSelected ensures ColumnFor(Right, g) != ColumnFor(Left, f) {
        LeftNotRight(f, g);
      }
      OverlayKeepsOthers(leftDone, Right, m.rightFields, m.rightSelected, Some(m.right[j]), ColumnFor(Left, f));
    }
    forall f | f in m.leftFields && f in m.leftSelected && IsLevelField(f) && !(f in m.rightFields && f in m.rightSelected)
      ensures f in RowFor(m, RightOnly(j), p) && RowFor(m, RightOnly(j), p)[f] == Str("")
    {
      assert ColumnFor(Left, f) == f;
      OverlaySets(base, Left, m.leftFields, m.leftSelected, None, f);
      forall g | g in m.rightFields && g in m.rightSelected ensures ColumnFor(Right, g) != ColumnFor(Left, f) {
        SidesShareOnlyLevelFields(f, g);
      }
      OverlayKeepsOthers(leftDone, Right, m.rightFields, m.rightSelected, Some(m.right[j]), ColumnFor(Left, f));
    }
    forall f | f in m.rightFields && f in m.rightSelected
      ensures ColumnFor(Right, f) in RowFor(m, RightOnly(j), p) && RowFor(m, RightOnly(j), p)[ColumnFor(Right, f)] == Get(m.right[j], f)
    {
      OverlaySets(leftDone, Right, m.rightFields, m.rightSelected, Some(m.right[j]), f);
    }
  }

  /** The columns of a merged row: hierarchy columns and the columns of selected fields. */
  lemma RowColumns(m: MergeInputs, o: Origin, p: nat, k: string)
    requires ValidOrigin(m, o) && k in RowFor(m, o, p)
    ensures IsLevelField(k)
      || (exists f :: f in m.leftFields && f in m.leftSelected && k == ColumnFor(Left, f))
      || (exists f :: f in m.rightFields && f in m.rightSelected && k == ColumnFor(Right, f))
  {
    var base := BaseRow(p, m.outline, m.left, m.baseKey);
    var leftSource := if o.FromLeft? then Some(m.left[o.i]) else None;
    var rightSource := match o
      case FromLeft(i) =>
        var key := Get(m.left[i], m.leftKey);
        if key in KeyIndex(m.right, m.rightKey) then Some(KeyIndex(m.right, m.rightKey)[key]) else None
      case RightOnly(j) => Some(m.right[j]);
    var leftDone := Overlay(base, Left, m.leftFields, m.leftSelected, leftSource);
    assert RowFor(m, o, p) == Overlay(leftDone, Right, m.rightFields, m.rightSelected, rightSource);
    OverlayColumns(leftDone, Right, m.rightFields, m.rightSelected, rightSource, k);
    if k in leftDone {
      OverlayColumns(base, Left, m.leftFields, m.leftSelected, leftSource, k);
      if k in base {
        BaseRowColumns(p, m.outline, m.left, m.baseKey, k);
      }
    }
  }

  /** A column no selected field maps to keeps what `createBaseRow` put there. */
  lemma HierarchyKept(m: MergeInputs, o: Origin, p: nat, k: string)
    requires ValidOrigin(m, o)
    requires forall f :: f in m.leftFields && f in m.leftSelected ==> ColumnFor(Left, f) != k
    requires forall f :: f in m.rightFields && f in m.rightSelected ==> ColumnFor(Right, f) != k
    ensures var base := BaseRow(p, m.outline, m.left, m.baseKey);
      (k in RowFor(m, o, p) <==> k in base) && (k in base ==> RowFor(m, o, p)[k] == base[k])
  {
    var base := BaseRow(p, m.outline, m.left, m.baseKey);
    var leftSource := if o.FromLeft? then Some(m.left[o.i]) else None;
    var rightSource := match o
      case FromLeft(i) =>
        var key := Get(m.left[i], m.leftKey);
        if key in KeyIndex(m.right, m.rightKey) then Some(KeyIndex(m.right, m.rightKey)[key]) else None
      case RightOnly(j) => Some(m.right[j]);
    var leftDone := Overlay(base, Left, m.leftFields, m.leftSelected, leftSource);
    assert RowFor(m, o, p) == Overlay(leftDone, Right, m.rightFields, m.rightSelected, rightSource);
    OverlayKeepsOthers(base, Left, m.leftFields, m.leftSelected, leftSource, k);
    OverlayKeepsOthers(leftDone, Right, m.rightFields, m.rightSelected, rightSource, k);
  }
}
