// Header row detection (src/App.tsx, inside `processSheet`): among the
// first rows of a sheet, the header is the earliest row holding the
// strictly largest number of text cells that contain a letter.

module HeaderDetection {
  import opened Text
  import opened Cells

  // The grid is the sparse array of rows the reader returns; here a missing cell is
  // written `Empty`, since `row.filter` skips a hole and `cell && ...` rejects
  // `undefined` alike, so the two score the same. Column naming, where a hole and a
  // present cell differ, reads the header row as `seq<Option<Cell>>` instead.

  /** Only this many rows from the top of a sheet are looked at. */
  const HeaderWindow: nat := 50

  /** A cell that counts towards a row's score: a non-empty string with a letter. */
  predicate IsSignificant(c: Cell) {
    c.Str? && c.s != "" && HasLetter(c.s)
  }

  /** `countSignificantCells`: the number of significant cells in a row. */
  function Score(row: seq<Cell>): (n: nat)
    ensures n <= |row|
    ensures n == 0 <==> forall i :: 0 <= i < |row| ==> !IsSignificant(row[i])
  {
    if |row| == 0 then 0
    else Score(row[..|row| - 1]) + (if IsSignificant(row[|row| - 1]) then 1 else 0)
  }

  function WindowSize(grid: seq<seq<Cell>>): (w: nat)
    ensures w <= HeaderWindow && w <= |grid|
    ensures w == HeaderWindow || w == |grid|
  {
    if |grid| < HeaderWindow then |grid| else HeaderWindow
  }

  /** `h` is the first row of the window whose score no other row of the window beats;
      0 when the window is empty. */
  ghost predicate IsHeaderIndex(grid: seq<seq<Cell>>, h: nat) {
    var w := WindowSize(grid);
    if w == 0 then h == 0
    else
      h < w
      && (forall j :: 0 <= j < h ==> Score(grid[j]) < Score(grid[h]))
      && (forall j :: h < j < w ==> Score(grid[j]) <= Score(grid[h]))
  }

  /** The scan over the window keeping the best score seen so far. */
  method DetectHeader(grid: seq<seq<Cell>>) returns (h: nat)
    ensures IsHeaderIndex(grid, h)
    ensures h < HeaderWindow
  {
    var w := WindowSize(grid);
    h := 0;
    var best := 0;
    var index := 0;
    while index < w
      invariant 0 <= index <= w
      invariant index == 0 ==> h == 0 && best == 0
      invariant index > 0 ==> h < index && best == Score(grid[h])
      invariant forall j :: 0 <= j < h ==> Score(grid[j]) < best
      invariant forall j :: h < j < index ==> Score(grid[j]) <= best
      invariant h == 0 || best > 0
    {
      var significant := Score(grid[index]);
      if significant > best {
        best := significant;
        h := index;
      }
      index := index + 1;
    }
    if w > 0 && h == 0 {
      assert best == Score(grid[0]);
    }
  }

  /** At most one row of a grid is its header. */
  lemma HeaderIndexUnique(grid: seq<seq<Cell>>, h1: nat, h2: nat)
    requires IsHeaderIndex(grid, h1) && IsHeaderIndex(grid, h2)
    ensures h1 == h2
  {
    if WindowSize(grid) > 0 {
      assert Score(grid[h1]) == Score(grid[h2]);
    }
  }

  /** When no row of the window has a lettered cell, the first row is taken. */
  lemma NoTextMeansRowZero(grid: seq<seq<Cell>>, h: nat)
    requires IsHeaderIndex(grid, h)
    requires forall j :: 0 <= j < WindowSize(grid) ==> Score(grid[j]) == 0
    ensures h == 0
  {
    if WindowSize(grid) > 0 {
      assert Score(grid[0]) == 0;
    }
  }

  /** Rows below the window never influence the choice. */
  lemma RowsBelowWindowIgnored(grid: seq<seq<Cell>>, more: seq<seq<Cell>>, h: nat)
    requires |grid| >= HeaderWindow
    ensures IsHeaderIndex(grid, h) <==> IsHeaderIndex(grid + more, h)
  {
    assert WindowSize(grid + more) == WindowSize(grid);
    assert forall j :: 0 <= j < HeaderWindow ==> (grid + more)[j] == grid[j];
  }
}
