// Cell values and rows as the comparison engine sees them once the
// spreadsheet reader has done its work.

module Cells {
  import opened Text

  datatype Option<T> = None | Some(value: T)

  datatype Result<T, E> = Ok(value: T) | Err(error: E)

  /** A spreadsheet cell: text, an integer, a boolean, or nothing (`undefined`). */
  datatype Cell = Str(s: string) | Num(n: int) | Bool(b: bool) | Empty

  /** A typed record, field name to cell; a missing field reads as `Empty`. */
  type Row = map<string, Cell>

  /** `row[k]`. */
  function Get(row: Row, k: string): (c: Cell)
    ensures k !in row ==> c == Empty
  {
    if k in row then row[k] else Empty
  }

  /** JavaScript truthiness of a cell value: `''`, `0` and `false` are false. */
  predicate Truthy(c: Cell) {
    match c
    case Str(s) => s != ""
    case Num(n) => n != 0
    case Bool(b) => b
    case Empty => false
  }

  /** `c?.toString().trim() || ''`: the text a cell is compared by (a printed
      integer has no white space to trim). */
  function TrimmedText(c: Cell): string
  {
    match c
    case Str(s) => Trim(s)
    case Num(n) => IntToString(n)
    case Bool(b) => if b then "true" else "false"
    case Empty => ""
  }

  /** Hierarchy columns, which the engine copies without a side prefix. */
  predicate IsLevelField(f: string) {
    StartsWith(f, "Level_") || f == "LevelValue"
  }

  /** Every hierarchy field starts with `Level`. */
  lemma LevelFieldPrefix(f: string)
    requires IsLevelField(f)
    ensures |f| >= 6 && f[..5] == "Level"
  {
  }
}
