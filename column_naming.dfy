// Column naming (src/App.tsx, inside `processSheet`): every header cell
// becomes a trimmed string, and the k-th repeat of a name gets the suffix
// `-k`, counted separately for every name, left to right.

module ColumnNaming {
  import opened Text
  import opened Cells

  /** `String(cell || '').trim()` for a cell that is present: `''`, `0`, `false` and
      `undefined` all give `''`. */
  function HeaderText(c: Cell): string {
    match c
    case Str(s) => Trim(s)
    case Num(n) => if n == 0 then "" else IntToString(n)
    case Bool(b) => if b then "true" else ""
    case Empty => ""
  }

  /** `headerRow.map(...)`: the header row is a sparse array in which a missing cell
      is a hole (`None`); `map` skips holes, so a missing cell stays missing. */
  function HeaderTexts(row: seq<Option<Cell>>): (texts: seq<Option<string>>)
    ensures |texts| == |row|
    ensures forall i :: 0 <= i < |row| ==> (texts[i].None? <==> row[i].None?)
    ensures forall i :: 0 <= i < |row| && row[i].Some? ==> texts[i] == Some(HeaderText(row[i].value))
  {
    seq(|row|, i requires 0 <= i < |row| => if row[i].Some? then Some(HeaderText(row[i].value)) else None)
  }

  /** The name given to the `k`-th occurrence (counting from 1) of `text`. */
  function Disambiguated(text: string, k: nat): string {
    if k <= 1 then text else text + "-" + NatToString(k)
  }

  /** The name of column `j`: none for a hole, otherwise its text suffixed with the
      number of times that text occurs in the first `j + 1` columns (holes are not
      counted). */
  ghost function NameAt(texts: seq<Option<string>>, j: nat): Option<string>
    requires j < |texts|
  {
    match texts[j]
    case None => None
    case Some(t) => Some(Disambiguated(t, multiset(texts[..j + 1])[texts[j]]))
  }

  /** `names` is the naming of the header texts `texts`. */
  ghost predicate NamesFor(texts: seq<Option<string>>, names: seq<Option<string>>) {
    |names| == |texts| && forall i :: 0 <= i < |texts| ==> names[i] == NameAt(texts, i)
  }

  /** `processSheet`'s naming of the header row: map every present cell to its text,
      then run the `headerCount` pass. */
  method NameColumns(row: seq<Option<Cell>>) returns (names: seq<Option<string>>)
    ensures NamesFor(HeaderTexts(row), names)
  {
    names := NameTexts(HeaderTexts(row));
  }

  /** The `headerCount` pass: a dictionary counts every name seen so far; the `map`
      that runs it skips holes, which get no name and no count. */
  method NameTexts(texts: seq<Option<string>>) returns (names: seq<Option<string>>)
    ensures NamesFor(texts, names)
  {
    var headerCount: map<string, nat> := map[];
    names := [];
    var i := 0;
    while i < |texts|
      invariant 0 <= i <= |texts|
      invariant |names| == i
      invariant forall x :: x in headerCount ==> 0 < headerCount[x] == Occurrences(texts, i, x)
      invariant forall x :: x !in headerCount ==> Occurrences(texts, i, x) == 0
      invariant forall j :: 0 <= j < i ==> names[j] == NameAt(texts, j)
    {
      forall x
        ensures Occurrences(texts, i + 1, x) == Occurrences(texts, i, x) + (if texts[i] == Some(x) then 1 else 0)
      {
        OccurrencesStep(texts, i, x);
      }
      match texts[i] {
        case None =>
          names := names + [None];
        case Some(header) =>
          if header in headerCount && headerCount[header] > 0 {
            headerCount := headerCount[header := headerCount[header] + 1];
            names := names + [Some(header + "-" + NatToString(headerCount[header]))];
          } else {
            headerCount := headerCount[header := 1];
            names := names + [Some(header)];
          }
      }
      assert names[i] == NameAt(texts, i);
      i := i + 1;
    }
  }

  /** How often `x` is the text of one of the first `n` columns. */
  ghost function Occurrences(texts: seq<Option<string>>, n: nat, x: string): nat
    requires n <= |texts|
  {
    multiset(texts[..n])[Some(x)]
  }

  lemma OccurrencesStep(texts: seq<Option<string>>, n: nat, x: string)
    requires n < |texts|
    ensures Occurrences(texts, n + 1, x) == Occurrences(texts, n, x) + (if texts[n] == Some(x) then 1 else 0)
  {
    assert texts[..n + 1] == texts[..n] + [texts[n]];
  }

  /** A text seen for the first time keeps its name unchanged. */
  lemma FirstOccurrenceUnchanged(texts: seq<Option<string>>, names: seq<Option<string>>, i: nat)
    requires NamesFor(texts, names) && i < |texts|
    requires texts[i].Some? && texts[i] !in texts[..i]
    ensures names[i] == texts[i]
  {
    assert texts[..i + 1] == texts[..i] + [texts[i]];
  }

  lemma {:induction false} OccurrencesGrow(texts: seq<Option<string>>, i: nat, j: nat)
    requires i < j < |texts| && texts[i] == texts[j]
    ensures multiset(texts[..i + 1])[texts[i]] < multiset(texts[..j + 1])[texts[j]]
  {
    assert texts[..j + 1] == texts[..i + 1] + texts[i + 1..j] + [texts[j]];
  }

  lemma DisambiguatedInjective(text: string, k1: nat, k2: nat)
    requires 1 <= k1 && 1 <= k2
    requires Disambiguated(text, k1) == Disambiguated(text, k2)
    ensures k1 == k2
  {
    var p := text + "-";
    if k1 > 1 && k2 > 1 {
      assert NatToString(k1) == Disambiguated(text, k1)[|p|..];
      assert NatToString(k2) == Disambiguated(text, k2)[|p|..];
      NatToStringInjective(k1, k2);
    }
  }

  /** A column gets a name exactly when its header cell is present. */
  lemma HolesUnnamed(texts: seq<Option<string>>, names: seq<Option<string>>, i: nat)
    requires NamesFor(texts, names) && i < |texts|
    ensures names[i].None? <==> texts[i].None?
  {
  }

  /** Two present columns with the same text always get different names (uniqueness
      across different texts is not guaranteed: see `SuffixMayCollide`). */
  lemma RepeatsGetDistinctNames(texts: seq<Option<string>>, names: seq<Option<string>>, i: nat, j: nat)
    requires NamesFor(texts, names)
    requires i < j < |texts| && texts[i].Some? && texts[i] == texts[j]
    ensures names[i] != names[j]
  {
    OccurrencesGrow(texts, i, j);
    assert texts[i] in multiset(texts[..i + 1]) by {
      assert texts[..i + 1][i] == texts[i];
    }
    if names[i] == names[j] {
      DisambiguatedInjective(texts[i].value, multiset(texts[..i + 1])[texts[i]], multiset(texts[..j + 1])[texts[j]]);
    }
  }

  /** A header without repeated texts is named by its texts alone, holes included. */
  lemma DistinctTextsUnchanged(texts: seq<Option<string>>, names: seq<Option<string>>)
    requires NamesFor(texts, names)
    requires forall i, j :: 0 <= i < j < |texts| && texts[i].Some? ==> texts[i] != texts[j]
    ensures names == texts
  {
    forall i | 0 <= i < |texts|
      ensures names[i] == texts[i]
    {
      if texts[i].Some? {
        assert forall j :: 0 <= j < i ==> texts[..i][j] == texts[j] != texts[i];
        FirstOccurrenceUnchanged(texts, names, i);
      }
    }
  }

  /** A hole gets no name and leaves the names of all other columns as they would be
      without it: holes are not counted. */
  lemma HoleNotCounted(a: seq<Option<string>>, b: seq<Option<string>>, names: seq<Option<string>>, withHole: seq<Option<string>>)
    requires NamesFor(a + b, names) && NamesFor(a + [None] + b, withHole)
    ensures withHole == names[..|a|] + [None] + names[|a|..]
  {
    var u := a + [None] + b;
    forall j | 0 <= j < |u|
      ensures withHole[j] == (names[..|a|] + [None] + names[|a|..])[j]
    {
      if j < |a| {
        HoleAfter(a, b, j);
      } else if j > |a| {
        HoleBefore(a, b, j - |a| - 1);
      }
    }
  }

  /** Columns left of a hole are named as without it. */
  lemma HoleAfter(a: seq<Option<string>>, b: seq<Option<string>>, j: nat)
    requires j < |a|
    ensures NameAt(a + [None] + b, j) == NameAt(a + b, j)
  {
    assert (a + [None] + b)[..j + 1] == a[..j + 1] == (a + b)[..j + 1];
  }

  /** Column `k` of `b` is named the same with or without a hole in front of `b`. */
  lemma HoleBefore(a: seq<Option<string>>, b: seq<Option<string>>, k: nat)
    requires k < |b|
    ensures NameAt(a + [None] + b, |a| + 1 + k) == NameAt(a + b, |a| + k)
  {
    var c := b[..k + 1];
    assert (a + [None] + b)[|a| + 1 + k] == b[k] == (a + b)[|a| + k];
    assert (a + [None] + b)[..|a| + 1 + k + 1] == a + [None] + c;
    assert (a + b)[..|a| + k + 1] == a + c;
    if b[k].Some? {
      HoleCountsNothing(a, c, b[k]);
    }
  }

  lemma HoleCountsNothing(a: seq<Option<string>>, c: seq<Option<string>>, x: Option<string>)
    requires x.Some?
    ensures multiset(a + [None] + c)[x] == multiset(a + c)[x]
  {
  }

  /** The suffix of a repeat can coincide with a name written in the header:
      `X, X, X-2` is named `X, X-2, X-2`. */
  lemma SuffixMayCollide(x: string)
    ensures NamesFor([Some(x), Some(x), Some(x + "-2")], [Some(x), Some(x + "-2"), Some(x + "-2")])
  {
    var texts := [Some(x), Some(x), Some(x + "-2")];
    assert NameAt(texts, 0) == Some(x) by { assert texts[..1] == [Some(x)]; }
    assert NameAt(texts, 1) == Some(x + "-2") by {
      assert texts[..2] == [Some(x)] + [Some(x)];
      assert multiset(texts[..2])[Some(x)] == 2;
      assert NatToString(2) == "2";
      assert Disambiguated(x, 2) == x + "-2";
    }
    assert NameAt(texts, 2) == Some(x + "-2") by {
      assert texts[..3] == [Some(x), Some(x)] + [Some(x + "-2")];
      assert |x + "-2"| != |x|;
    }
  }
}
