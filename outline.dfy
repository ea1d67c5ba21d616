// Outline extraction (`extractGroupingInfo`, src/App.tsx) and the number of
// hierarchy columns an outline calls for (`Math.max(...levels) + 1`).

module Outline {
  import opened Cells

  /** One `<row>` element of the worksheet XML: its 1-based row number `r`, its
      `outlineLevel` attribute parsed as an integer, and its raw `hidden` attribute. */
  datatype RowMeta = RowMeta(r: int, outlineLevel: Option<int>, hidden: Option<string>)

  /** `GroupInfo`: the outline depth of a row, the one-element group holding its key,
      and whether the row is hidden. */
  datatype GroupInfo = GroupInfo(level: int, group: seq<int>, hidden: bool)

  /** `parseInt(row['@_outlineLevel'] || '0')`. */
  function LevelOf(m: RowMeta): int {
    match m.outlineLevel
    case Some(n) => n
    case None => 0
  }

  /** What a kept row is stored as: key `r - headerOffset`, hidden exactly when the
      attribute is `"1"`. */
  function EntryFor(m: RowMeta, headerOffset: int): GroupInfo {
    GroupInfo(LevelOf(m), [m.r - headerOffset], m.hidden == Some("1"))
  }

  /** No element after `j` and before `n` names the same row as element `j`. */
  ghost predicate IsLastBefore(rows: seq<RowMeta>, j: nat, n: nat)
    requires j < n <= |rows|
  {
    forall j' :: j < j' < n ==> rows[j'].r != rows[j].r
  }

  /** Some element before `n` lies below the header and has header-relative number `k`. */
  ghost predicate KeptBefore(rows: seq<RowMeta>, n: nat, headerOffset: int, k: int)
    requires n <= |rows|
  {
    exists j :: 0 <= j < n && rows[j].r > headerOffset && rows[j].r - headerOffset == k
  }

  /** `info`'s keys are those of the rows among the first `n` elements below the header. */
  ghost predicate KeysBefore(rows: seq<RowMeta>, n: nat, headerOffset: int, info: map<int, GroupInfo>)
    requires n <= |rows|
  {
    forall k :: k in info <==> KeptBefore(rows, n, headerOffset, k)
  }

  /** `info` holds, for each row below the header, the entry of the last of the first `n`
      elements naming it. */
  ghost predicate LastEntriesBefore(rows: seq<RowMeta>, n: nat, headerOffset: int, info: map<int, GroupInfo>)
    requires n <= |rows|
  {
    forall j :: 0 <= j < n && rows[j].r > headerOffset && IsLastBefore(rows, j, n) ==>
      rows[j].r - headerOffset in info && info[rows[j].r - headerOffset] == EntryFor(rows[j], headerOffset)
  }

  /** `info` holds what the first `n` elements of `rows` leave behind. */
  ghost predicate GroupingOfPrefix(rows: seq<RowMeta>, n: nat, headerOffset: int, info: map<int, GroupInfo>)
    requires n <= |rows|
  {
    KeysBefore(rows, n, headerOffset, info) && LastEntriesBefore(rows, n, headerOffset, info)
  }

  /** `info` is the grouping extracted from `rows` below the header row `headerOffset`:
      its keys are the header-relative numbers of the rows below the header, and each
      holds the entry of the last element naming that row. */
  ghost predicate GroupingOf(rows: seq<RowMeta>, headerOffset: int, info: map<int, GroupInfo>) {
    GroupingOfPrefix(rows, |rows|, headerOffset, info)
  }

  /** What the first `n` elements leave behind, one element at a time. */
  function GroupingUpTo(rows: seq<RowMeta>, n: nat, headerOffset: int): map<int, GroupInfo>
    requires n <= |rows|
  {
    if n == 0 then map[]
    else
      var info := GroupingUpTo(rows, n - 1, headerOffset);
      var row := rows[n - 1];
      if row.r > headerOffset then info[row.r - headerOffset := EntryFor(row, headerOffset)] else info
  }

  /** `extractGroupingInfo`: rows at or above the header are dropped, every other row is
      stored under its header-relative number, and a later element for the same row
      replaces an earlier one. */
  method ExtractGroupingInfo(rows: seq<RowMeta>, headerOffset: int) returns (info: map<int, GroupInfo>)
    ensures info == GroupingUpTo(rows, |rows|, headerOffset)
  {
    info := map[];
    var i := 0;
    while i < |rows|
      invariant 0 <= i <= |rows|
      invariant info == GroupingUpTo(rows, i, headerOffset)
    {
      var row := rows[i];
      if row.r > headerOffset {
        var adjustedIndex := row.r - headerOffset;
        info := info[adjustedIndex := GroupInfo(LevelOf(row), [adjustedIndex], row.hidden == Some("1"))];
      }
      i := i + 1;
    }
  }

  /** The map built element by element is the grouping the rows describe. */
  lemma {:induction false} GroupingUpToMeans(rows: seq<RowMeta>, n: nat, headerOffset: int)
    requires n <= |rows|
    ensures GroupingOfPrefix(rows, n, headerOffset, GroupingUpTo(rows, n, headerOffset))
  {
    if n == 0 {
      GroupingEmpty(rows, headerOffset);
    } else {
      var before := GroupingUpTo(rows, n - 1, headerOffset);
      var after := GroupingUpTo(rows, n, headerOffset);
      GroupingUpToLast(rows, n, headerOffset);
      GroupingUpToMeans(rows, n - 1, headerOffset);
      GroupingStep(rows, n, headerOffset, before, after);
    }
  }

  lemma GroupingUpToLast(rows: seq<RowMeta>, n: nat, headerOffset: int)
    requires 0 < n <= |rows|
    ensures var before := GroupingUpTo(rows, n - 1, headerOffset);
      GroupingUpTo(rows, n, headerOffset)
        == if rows[n - 1].r > headerOffset then before[rows[n - 1].r - headerOffset := EntryFor(rows[n - 1], headerOffset)] else before
  {
  }

  lemma GroupingEmpty(rows: seq<RowMeta>, headerOffset: int)
    ensures GroupingOfPrefix(rows, 0, headerOffset, map[])
  {
    forall k
      ensures !KeptBefore(rows, 0, headerOffset, k)
    {
    }
  }

  /** What `extractGroupingInfo` returns is the grouping of its rows. */
  lemma ExtractedGrouping(rows: seq<RowMeta>, headerOffset: int)
    ensures GroupingOf(rows, headerOffset, GroupingUpTo(rows, |rows|, headerOffset))
  {
    GroupingUpToMeans(rows, |rows|, headerOffset);
  }

  /** Only data rows and the header row itself (key 1) are kept: every key is positive. */
  lemma GroupingKeysPositive(rows: seq<RowMeta>, headerOffset: int, info: map<int, GroupInfo>)
    requires GroupingOf(rows, headerOffset, info)
    ensures forall k :: k in info ==> k >= 1
  {
    forall k | k in info
      ensures k >= 1
    {
      assert KeptBefore(rows, |rows|, headerOffset, k);
    }
  }

  lemma GroupingStep(rows: seq<RowMeta>, n: nat, headerOffset: int, info: map<int, GroupInfo>, next: map<int, GroupInfo>)
    requires 0 < n <= |rows| && GroupingOfPrefix(rows, n - 1, headerOffset, info)
    requires next == if rows[n - 1].r > headerOffset then info[rows[n - 1].r - headerOffset := EntryFor(rows[n - 1], headerOffset)] else info
    ensures GroupingOfPrefix(rows, n, headerOffset, next)
  {
    var i := n - 1;
    GroupingStepKeys(rows, i, headerOffset, info, next);
    GroupingStepValues(rows, i, headerOffset, info, next);
    assert i + 1 == n;
  }

  lemma GroupingStepKeys(rows: seq<RowMeta>, i: nat, headerOffset: int, info: map<int, GroupInfo>, next: map<int, GroupInfo>)
    requires i < |rows| && KeysBefore(rows, i, headerOffset, info)
    requires next == if rows[i].r > headerOffset then info[rows[i].r - headerOffset := EntryFor(rows[i], headerOffset)] else info
    ensures KeysBefore(rows, i + 1, headerOffset, next)
  {
    forall k
      ensures k in next <==> KeptBefore(rows, i + 1, headerOffset, k)
    {
      if KeptBefore(rows, i + 1, headerOffset, k) {
        var j :| 0 <= j < i + 1 && rows[j].r > headerOffset && rows[j].r - headerOffset == k;
        if j < i {
          assert KeptBefore(rows, i, headerOffset, k);
        }
      }
      if k in next && !(rows[i].r > headerOffset && k == rows[i].r - headerOffset) {
        assert KeptBefore(rows, i, headerOffset, k);
        var j :| 0 <= j < i && rows[j].r > headerOffset && rows[j].r - headerOffset == k;
        assert 0 <= j < i + 1;
      }
    }
  }

  lemma GroupingStepValues(rows: seq<RowMeta>, i: nat, headerOffset: int, info: map<int, GroupInfo>, next: map<int, GroupInfo>)
    requires i < |rows| && LastEntriesBefore(rows, i, headerOffset, info)
    requires next == if rows[i].r > headerOffset then info[rows[i].r - headerOffset := EntryFor(rows[i], headerOffset)] else info
    ensures LastEntriesBefore(rows, i + 1, headerOffset, next)
  {
    forall j | 0 <= j < i + 1 && rows[j].r > headerOffset && IsLastBefore(rows, j, i + 1)
      ensures rows[j].r - headerOffset in next && next[rows[j].r - headerOffset] == EntryFor(rows[j], headerOffset)
    {
      if j < i {
        assert IsLastBefore(rows, j, i);
        assert rows[i].r != rows[j].r;
      }
    }
  }

  lemma HasKey(s: set<int>)
    requires |s| > 0
    ensures exists x :: x in s
  {
    assert (forall x :: x !in s) ==> s == {};
  }

  /** The deepest level among the entries under `keys`. */
  ghost function MaxLevelOver(g: map<int, GroupInfo>, keys: set<int>): (m: int)
    requires |keys| > 0 && keys <= g.Keys
    ensures forall k :: k in keys ==> g[k].level <= m
    ensures exists k :: k in keys && g[k].level == m
    decreases |keys|
  {
    HasKey(keys);
    var k :| k in keys;
    var rest := keys - {k};
    if |rest| == 0 then
      assert forall k' :: k' in keys ==> k' == k || k' in rest;
      g[k].level
    else
      var m := MaxLevelOver(g, rest);
      if g[k].level > m then g[k].level else m
  }

  /** The deepest outline level of a non-empty grouping, `Math.max(...levels)`. */
  ghost function MaxLevel(g: map<int, GroupInfo>): (m: int)
    requires |g| > 0
  {
    MaxLevelOver(g, g.Keys)
  }

  /** Number of `Level_` columns: `Array.from({ length: max + 1 })` has no element
      when the maximum is negative and none for an empty grouping (`Math.max()` is
      `-Infinity`). */
  ghost function LevelCount(g: map<int, GroupInfo>): nat {
    if |g| == 0 then 0
    else if MaxLevel(g) + 1 > 0 then MaxLevel(g) + 1 else 0
  }

  /** A value that bounds every level and is attained is the maximum. */
  lemma MaxLevelIs(g: map<int, GroupInfo>, m: int)
    requires |g| > 0
    requires forall k :: k in g ==> g[k].level <= m
    requires exists k :: k in g && g[k].level == m
    ensures MaxLevel(g) == m
  {
  }

  /** The level scan, one key at a time. */
  method ComputeLevelCount(g: map<int, GroupInfo>) returns (count: nat)
    ensures count == LevelCount(g)
    ensures forall k :: k in g && g[k].level >= 0 ==> g[k].level < count
  {
    if |g| == 0 {
      return 0;
    }
    var rest := g.Keys;
    HasKey(rest);
    var first :| first in rest;
    var m := g[first].level;
    rest := rest - {first};
    while |rest| > 0
      invariant rest <= g.Keys
      invariant forall k :: k in g && k !in rest ==> g[k].level <= m
      invariant exists k :: k in g && g[k].level == m
      decreases rest
    {
      HasKey(rest);
      var k :| k in rest;
      if g[k].level > m {
        m := g[k].level;
      }
      rest := rest - {k};
    }
    MaxLevelIs(g, m);
    count := if m + 1 > 0 then m + 1 else 0;
  }
}
