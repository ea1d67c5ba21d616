// The hierarchy prefix of a merged row (`createBaseRow`, src/App.tsx):
// blank `Level_1..Level_K` columns, the row's own level marked with its
// number, and a dotted `LevelValue`, read from the Left file's outline at
// key `p + 2` for output position `p`.

module Hierarchy {
  import opened Text
  import opened Cells
  import opened Outline

  /** The name of the `j`-th hierarchy column, `Level_${j}`. */
  function LevelHeader(j: nat): string {
    "Level_" + NatToString(j)
  }

  lemma LevelHeaderInjective(a: nat, b: nat)
    requires LevelHeader(a) == LevelHeader(b)
    ensures a == b
  {
    assert NatToString(a) == LevelHeader(a)[6..];
    assert NatToString(b) == LevelHeader(b)[6..];
    NatToStringInjective(a, b);
  }

  lemma LevelHeaderIsLevelField(j: nat)
    ensures IsLevelField(LevelHeader(j)) && LevelHeader(j) != "LevelValue"
  {
    assert LevelHeader(j)[..6] == "Level_";
    assert LevelHeader(j)[5] != "LevelValue"[5];
  }

  /** `'.'.repeat(n)`. */
  function Dots(n: nat): (s: string)
    ensures |s| == n && forall i :: 0 <= i < n ==> s[i] == '.'
  {
    seq(n, _ => '.')
  }

  /** `Level_1..Level_count`, all set to `''`. */
  function LevelBlanks(count: nat): Row {
    if count == 0 then map[] else LevelBlanks(count - 1)[LevelHeader(count) := Str("")]
  }

  lemma {:induction false} LevelBlanksHas(count: nat, j: nat)
    requires 1 <= j <= count
    ensures LevelHeader(j) in LevelBlanks(count) && LevelBlanks(count)[LevelHeader(j)] == Str("")
  {
    if j < count {
      LevelBlanksHas(count - 1, j);
    }
  }

  lemma {:induction false} LevelBlanksOnly(count: nat, k: string)
    requires k in LevelBlanks(count)
    ensures exists j :: 1 <= j <= count && k == LevelHeader(j)
  {
    if k != LevelHeader(count) {
      LevelBlanksOnly(count - 1, k);
    }
  }

  /** The fallback test: the Left table has a row at `p` whose key cell is truthy and
      not blank once trimmed. A missing or empty key field never passes. */
  predicate HasKeyValue(firstTable: seq<Row>, keyField: Option<string>, p: nat) {
    keyField.Some? && keyField.value != "" && p < |firstTable|
    && var keyValue := Get(firstTable[p], keyField.value);
       Truthy(keyValue) && TrimmedText(keyValue) != ""
  }

  /** The row `createBaseRow(p)` builds, given the Left file's outline (if it has one),
      the Left table, and the Left file's key field (if one is recorded). */
  ghost function BaseRow(p: nat, outline: Option<map<int, GroupInfo>>, firstTable: seq<Row>, keyField: Option<string>): Row {
    match outline
    case None => map[]
    case Some(g) =>
      var count := LevelCount(g);
      var blanks := LevelBlanks(count);
      if p + 2 in g then
        var level := g[p + 2].level;
        if 0 <= level < count then
          blanks[LevelHeader(level + 1) := Num(level + 1)]["LevelValue" := Str(Dots(level + 2) + NatToString(level + 1))]
        else blanks
      else if HasKeyValue(firstTable, keyField, p) then blanks["LevelValue" := Str("..1")]
      else blanks
  }

  /** `groupHeaders.forEach(header => row[header] = '')` on an empty row. */
  method BlankLevels(count: nat) returns (row: Row)
    ensures row == LevelBlanks(count)
  {
    row := map[];
    var i := 0;
    while i < count
      invariant 0 <= i <= count
      invariant row == LevelBlanks(i)
    {
      row := row[LevelHeader(i + 1) := Str("")];
      i := i + 1;
    }
  }

  /** `createBaseRow`: fill the blank level columns, then mark the level. */
  method CreateBaseRow(p: nat, outline: Option<map<int, GroupInfo>>, firstTable: seq<Row>, keyField: Option<string>)
    returns (row: Row)
    ensures row == BaseRow(p, outline, firstTable, keyField)
  {
    row := map[];
    match outline {
      case None =>
      case Some(g) =>
        var count := ComputeLevelCount(g);
        row := BlankLevels(count);
        if p + 2 in g {
          var level := g[p + 2].level;
          if level >= 0 && level < count {
            var levelValue := level + 1;
            row := row[LevelHeader(levelValue) := Num(levelValue)];
            row := row["LevelValue" := Str(Dots(levelValue + 1) + NatToString(levelValue))];
          }
        } else if HasKeyValue(firstTable, keyField, p) {
          row := row["LevelValue" := Str("..1")];
        }
    }
  }

  /** Every column of a base row is a hierarchy column: `Level_j` for `1 <= j <= K`,
      or `LevelValue`. */
  lemma BaseRowColumns(p: nat, outline: Option<map<int, GroupInfo>>, firstTable: seq<Row>, keyField: Option<string>, k: string)
    requires k in BaseRow(p, outline, firstTable, keyField)
    ensures outline.Some?
    ensures k == "LevelValue" || exists j :: 1 <= j <= LevelCount(outline.value) && k == LevelHeader(j)
    ensures IsLevelField(k)
  {
    var g := outline.value;
    var count := LevelCount(g);
    if k != "LevelValue" && k in LevelBlanks(count) {
      LevelBlanksOnly(count, k);
    }
    if k != "LevelValue" {
      var j :| 1 <= j <= count && k == LevelHeader(j);
      LevelHeaderIsLevelField(j);
    }
  }

  /** With an outline, `Level_1..Level_K` (K = deepest level + 1) are all present; the
      one for the row's own level `d` (outline key `p + 2`) holds `d + 1`, the others `''`. */
  lemma BaseRowLevels(p: nat, g: map<int, GroupInfo>, firstTable: seq<Row>, keyField: Option<string>, j: nat)
    requires 1 <= j <= LevelCount(g)
    ensures LevelHeader(j) in BaseRow(p, Some(g), firstTable, keyField)
    ensures BaseRow(p, Some(g), firstTable, keyField)[LevelHeader(j)]
      == if p + 2 in g && g[p + 2].level + 1 == j then Num(j) else Str("")
  {
    var count := LevelCount(g);
    LevelBlanksHas(count, j);
    LevelHeaderIsLevelField(j);
    if p + 2 in g && 0 <= g[p + 2].level < count && LevelHeader(g[p + 2].level + 1) == LevelHeader(j) {
      LevelHeaderInjective(g[p + 2].level + 1, j);
    }
  }

  /** `LevelValue` of a row found in the outline at level `d >= 0` is `d + 2` dots and
      the number `d + 1`; of a row missing from the outline it is `..1` exactly when the
      Left table's row at the same position has a non-blank key; otherwise absent. */
  lemma BaseRowLevelValue(p: nat, g: map<int, GroupInfo>, firstTable: seq<Row>, keyField: Option<string>)
    ensures var row := BaseRow(p, Some(g), firstTable, keyField);
      if p + 2 in g then
        ("LevelValue" in row <==> g[p + 2].level >= 0)
        && (g[p + 2].level >= 0 ==>
          row["LevelValue"] == Str(Dots(g[p + 2].level + 2) + NatToString(g[p + 2].level + 1)))
      else
        ("LevelValue" in row <==> HasKeyValue(firstTable, keyField, p))
        && (HasKeyValue(firstTable, keyField, p) ==> row["LevelValue"] == Str("..1"))
  {
    var count := LevelCount(g);
    if "LevelValue" in LevelBlanks(count) {
      LevelBlanksOnly(count, "LevelValue");
      var j :| 1 <= j <= count && "LevelValue" == LevelHeader(j);
      LevelHeaderIsLevelField(j);
    }
    if p + 2 in g && g[p + 2].level >= 0 {
      assert g[p + 2].level <= MaxLevel(g);
      LevelHeaderIsLevelField(g[p + 2].level + 1);
    }
  }
}
