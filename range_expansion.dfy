// Reference-designator range expansion (`expandRanges`, src/App.tsx):
// in a comma-separated list, a part `R1-R5` becomes `R1,R2,R3,R4,R5`
// (counting down for `R5-R1`); every other part is kept, trimmed.

module RangeExpansion {
  import opened Text
  import opened Cells

  predicate AllLetters(s: string) {
    forall i :: 0 <= i < |s| ==> IsAsciiLetter(s[i])
  }

  predicate AllDigits(s: string) {
    forall i :: 0 <= i < |s| ==> IsAsciiDigit(s[i])
  }

  /** The number of ASCII letters `s` starts with. */
  function LetterRun(s: string): (k: nat)
    ensures k <= |s|
    ensures AllLetters(s[..k])
    ensures k < |s| ==> !IsAsciiLetter(s[k])
  {
    if |s| > 0 && IsAsciiLetter(s[0]) then
      assert s[..1 + LetterRun(s[1..])] == [s[0]] + s[1..][..LetterRun(s[1..])];
      1 + LetterRun(s[1..])
    else 0
  }

  /** A designator: a letter prefix and a number. */
  datatype Ref = Ref(prefix: string, number: nat)

  /** `s.match(/^([A-Za-z]*)(\d+)$/)`, the number read with `parseInt(_, 10)`: letters,
      then at least one decimal digit, then the end of the string. The number is exact;
      the source's double is exact only below 2^53. */
  function ParseRef(s: string): (r: Option<Ref>)
    ensures r.Some? ==> AllLetters(r.value.prefix)
  {
    var k := LetterRun(s);
    if k < |s| && AllDigits(s[k..]) then Some(Ref(s[..k], DigitsValue(s[k..]))) else None
  }

  lemma {:induction false} LetterRunOfPrefix(p: string, d: string)
    requires AllLetters(p)
    requires |d| > 0 && IsAsciiDigit(d[0])
    ensures LetterRun(p + d) == |p|
    decreases |p|
  {
    if |p| > 0 {
      assert (p + d)[1..] == p[1..] + d;
      LetterRunOfPrefix(p[1..], d);
    } else {
      assert p + d == d;
    }
  }

  /** A designator printed as `${prefix}${n}` parses back to itself. */
  lemma ParseRefPrinted(prefix: string, n: nat)
    requires AllLetters(prefix)
    ensures ParseRef(Printed(prefix, n)) == Some(Ref(prefix, n))
  {
    var s := Printed(prefix, n);
    LetterRunOfPrefix(prefix, NatToString(n));
    assert s[..|prefix|] == prefix;
    assert s[|prefix|..] == NatToString(n);
    DigitsRoundTrip(n);
  }

  /** `${prefix}${n}`. */
  function Printed(prefix: string, n: nat): string {
    prefix + NatToString(n)
  }

  /** `count` designators counting up from `from`. */
  function Ascending(prefix: string, from: nat, count: nat): seq<string> {
    seq(count, k requires 0 <= k < count => Printed(prefix, from + k))
  }

  /** `count` designators counting down from `from`. */
  function Descending(prefix: string, from: nat, count: nat): seq<string>
    requires count <= from + 1
  {
    seq(count, k requires 0 <= k < count => Printed(prefix, from - k))
  }

  /** `${prefix}${i}` for every `i` from `a` to `b` inclusive, in the direction from `a`
      to `b`. */
  function Enumerate(prefix: string, a: nat, b: nat): seq<string> {
    if a <= b then Ascending(prefix, a, b - a + 1) else Descending(prefix, a, a - b + 1)
  }

  /** The part of a value `part.split('-')` yields, trimmed. */
  function Piece(t: string, i: nat): string
    requires '-' in t && i < 2
  {
    Trim(Split(t, '-')[i])
  }

  /** What one comma-separated part turns into. */
  function ExpandPart(part: string): (tokens: seq<string>)
    ensures |tokens| >= 1
  {
    ExpandTrimmed(Trim(part))
  }

  /** A range `prefix<from>-prefix<to>`. */
  datatype Range = Range(prefix: string, from: nat, to: nat)

  /** The range a trimmed part denotes: it holds `-` and its first two pieces are
      designators with the same prefix. */
  function RangeIn(t: string): (r: Option<Range>)
    ensures r.Some? ==> AllLetters(r.value.prefix)
  {
    if '-' in t then
      var startMatch := ParseRef(Piece(t, 0));
      var endMatch := ParseRef(Piece(t, 1));
      if startMatch.Some? && endMatch.Some? && startMatch.value.prefix == endMatch.value.prefix then
        Some(Range(startMatch.value.prefix, startMatch.value.number, endMatch.value.number))
      else None
    else None
  }

  /** What a trimmed part `t` turns into: its range enumerated, or `t` itself. */
  function ExpandTrimmed(t: string): (tokens: seq<string>)
    ensures |tokens| >= 1
  {
    match RangeIn(t)
    case Some(r) => Enumerate(r.prefix, r.from, r.to)
    case None => [t]
  }

  /** The tokens of a list of parts, in order. */
  function Tokens(parts: seq<string>): (tokens: seq<string>)
    ensures |parts| > 0 ==> |tokens| >= 1
  {
    if |parts| == 0 then [] else Tokens(parts[..|parts| - 1]) + ExpandPart(parts[|parts| - 1])
  }

  /** The expanded value: the tokens of every comma part, joined with commas. */
  function Expanded(value: string): string {
    Join(Tokens(Split(value, ',')), ',')
  }

  /** `expandRanges`: push the tokens of every part, then join. */
  method ExpandRanges(value: string) returns (r: string)
    ensures r == Expanded(value)
  {
    var parts := Split(value, ',');
    var expandedParts: seq<string> := [];
    var i := 0;
    while i < |parts|
      invariant 0 <= i <= |parts|
      invariant expandedParts == Tokens(parts[..i])
    {
      expandedParts := PushPart(expandedParts, parts[i]);
      assert parts[..i + 1][..i] == parts[..i];
      i := i + 1;
    }
    WholePrefix(parts);
    r := Join(expandedParts, ',');
  }

  lemma WholePrefix(parts: seq<string>)
    ensures Tokens(parts[..|parts|]) == Tokens(parts)
  {
    assert parts[..|parts|] == parts;
  }

  /** The body of the `forEach` over the parts: trim, and push either the range's
      designators or the part itself. */
  method PushPart(expandedParts: seq<string>, part: string) returns (result: seq<string>)
    ensures result == expandedParts + ExpandPart(part)
  {
    var trimmed := Trim(part);
    result := expandedParts + [trimmed];
    if '-' in trimmed {
      var startMatch := ParseRef(Piece(trimmed, 0));
      var endMatch := ParseRef(Piece(trimmed, 1));
      if startMatch.Some? && endMatch.Some? && startMatch.value.prefix == endMatch.value.prefix {
        var startNum := startMatch.value.number;
        var endNum := endMatch.value.number;
        if startNum <= endNum {
          result := PushAscending(expandedParts, startMatch.value.prefix, startNum, endNum);
        } else {
          result := PushDescending(expandedParts, startMatch.value.prefix, startNum, endNum);
        }
      }
    }
  }

  /** `for (let i = startNum; i <= endNum; i++)`. */
  method PushAscending(expandedParts: seq<string>, prefix: string, startNum: nat, endNum: nat) returns (result: seq<string>)
    requires startNum <= endNum
    ensures result == expandedParts + Enumerate(prefix, startNum, endNum)
  {
    result := expandedParts;
    var n := startNum;
    while n <= endNum
      invariant startNum <= n <= endNum + 1
      invariant result == expandedParts + Ascending(prefix, startNum, n - startNum)
    {
      result := result + [Printed(prefix, n)];
      assert Ascending(prefix, startNum, n + 1 - startNum) == Ascending(prefix, startNum, n - startNum) + [Printed(prefix, n)];
      n := n + 1;
    }
  }

  /** `for (let i = startNum; i >= endNum; i--)`. */
  method PushDescending(expandedParts: seq<string>, prefix: string, startNum: nat, endNum: nat) returns (result: seq<string>)
    requires startNum > endNum
    ensures result == expandedParts + Enumerate(prefix, startNum, endNum)
  {
    result := expandedParts;
    var n: int := startNum;
    while n >= endNum
      invariant endNum - 1 <= n <= startNum
      invariant result == expandedParts + Descending(prefix, startNum, startNum - n)
    {
      result := result + [Printed(prefix, n)];
      assert Descending(prefix, startNum, startNum - n + 1) == Descending(prefix, startNum, startNum - n) + [Printed(prefix, n)];
      n := n - 1;
    }
  }

  /** A range from `a` to `b` yields `|a - b| + 1` designators with the range's prefix;
      the `k`-th carries the number `a + k` counting up, `a - k` counting down, so the
      first is `a` and the last is `b`. */
  lemma EnumerateSteps(prefix: string, a: nat, b: nat)
    requires AllLetters(prefix)
    ensures |Enumerate(prefix, a, b)| == (if a <= b then b - a else a - b) + 1
    ensures forall k :: 0 <= k < |Enumerate(prefix, a, b)| ==>
      ParseRef(Enumerate(prefix, a, b)[k]) == Some(Ref(prefix, if a <= b then a + k else a - k))
  {
    forall k | 0 <= k < |Enumerate(prefix, a, b)|
      ensures ParseRef(Enumerate(prefix, a, b)[k]) == Some(Ref(prefix, if a <= b then a + k else a - k))
    {
      ParseRefPrinted(prefix, if a <= b then a + k else a - k);
    }
  }

  predicate NoSpace(s: string) {
    forall i :: 0 <= i < |s| ==> !IsJsWhitespace(s[i])
  }

  lemma NoSpaceAppend(x: string, y: string)
    requires NoSpace(x) && NoSpace(y)
    ensures NoSpace(x + y)
  {
    forall i | 0 <= i < |x + y| ensures !IsJsWhitespace((x + y)[i]) {
      if i >= |x| { assert (x + y)[i] == y[i - |x|]; }
    }
  }

  /** A printed designator is made of letters and digits only. */
  lemma PrintedChars(prefix: string, n: nat)
    requires AllLetters(prefix)
    ensures var s := Printed(prefix, n);
      NoSpace(s) && '-' !in s && ',' !in s
  {
    var s := Printed(prefix, n);
    forall i | 0 <= i < |s| ensures IsAsciiLetter(s[i]) || IsAsciiDigit(s[i]) {
      if i >= |prefix| { assert s[i] == NatToString(n)[i - |prefix|]; }
    }
  }

  /** `P<a>-P<b>` expands to the range from `a` to `b`; anything after a second `-` is
      ignored, so `R1-R3-R5` gives `R1,R2,R3`. */
  lemma RangeExpands(prefix: string, a: nat, b: nat, tail: string)
    requires AllLetters(prefix)
    requires tail == "" || tail[0] == '-'
    requires NoSpace(tail)
    ensures ExpandPart(Printed(prefix, a) + "-" + Printed(prefix, b) + tail) == Enumerate(prefix, a, b)
  {
    var first := Printed(prefix, a);
    var second := Printed(prefix, b);
    PrintedChars(prefix, a);
    PrintedChars(prefix, b);
    RangeTrimmed(first, second, tail);
    RangeSplit(first, second, tail);
    TrimNoSpace(first);
    TrimNoSpace(second);
    ParseRefPrinted(prefix, a);
    ParseRefPrinted(prefix, b);
    ExpandTrimmedRange(first + "-" + second + tail, first, second, prefix, a, b);
  }

  lemma RangeTrimmed(first: string, second: string, tail: string)
    requires NoSpace(first) && NoSpace(second) && NoSpace(tail)
    ensures Trim(first + "-" + second + tail) == first + "-" + second + tail
  {
    NoSpaceAppend(first, "-");
    NoSpaceAppend(first + "-", second);
    NoSpaceAppend(first + "-" + second, tail);
    TrimNoSpace(first + "-" + second + tail);
  }

  lemma RangeSplit(first: string, second: string, tail: string)
    requires '-' !in first && '-' !in second
    requires tail == "" || tail[0] == '-'
    ensures var part := first + "-" + second + tail;
      '-' in part && |Split(part, '-')| >= 2
      && Split(part, '-')[0] == first && Split(part, '-')[1] == second
  {
    var part := first + "-" + second + tail;
    Regroup(first, second, tail);
    assert part[|first|] == '-';
    SplitAfterPiece(first, second + tail, '-');
    SecondPiece(second, tail);
  }

  lemma ExpandTrimmedRange(t: string, first: string, second: string, prefix: string, a: nat, b: nat)
    requires '-' in t && Split(t, '-')[0] == first && Split(t, '-')[1] == second
    requires ParseRef(Trim(first)) == Some(Ref(prefix, a))
    requires ParseRef(Trim(second)) == Some(Ref(prefix, b))
    ensures ExpandTrimmed(t) == Enumerate(prefix, a, b)
  {
    assert RangeIn(t) == Some(Range(prefix, a, b));
  }

  /** The `j`-th designator of a range. */
  lemma EnumerateAt(prefix: string, a: nat, b: nat, j: nat)
    requires j < |Enumerate(prefix, a, b)|
    ensures |Enumerate(prefix, a, b)| == (if a <= b then b - a else a - b) + 1
    ensures Enumerate(prefix, a, b)[j] == Printed(prefix, if a <= b then a + j else a - j)
  {
  }

  lemma Regroup(x: string, y: string, z: string)
    ensures x + "-" + y + z == x + ['-'] + (y + z)
  {
  }

  lemma SecondPiece(second: string, tail: string)
    requires '-' !in second
    requires tail == "" || tail[0] == '-'
    ensures Split(second + tail, '-')[0] == second
  {
    if tail == "" {
      assert second + tail == second;
      SplitNoSep(second, '-');
    } else {
      assert second + tail == second + ['-'] + tail[1..];
      SplitAfterPiece(second, tail[1..], '-');
    }
  }

  /** Every part trimmed. */
  function TrimAll(parts: seq<string>): (trimmed: seq<string>)
    ensures |trimmed| == |parts|
  {
    seq(|parts|, i requires 0 <= i < |parts| => Trim(parts[i]))
  }

  lemma TrimAllLast(parts: seq<string>)
    requires |parts| > 0
    ensures TrimAll(parts) == TrimAll(parts[..|parts| - 1]) + [Trim(parts[|parts| - 1])]
  {
    var n := |parts| - 1;
    forall k | 0 <= k < n ensures TrimAll(parts)[k] == TrimAll(parts[..n])[k] {
      assert parts[..n][k] == parts[k];
    }
  }

  /** A value without `-` comes back with each comma part trimmed and nothing else
      changed. */
  lemma NoRangeOnlyTrims(value: string)
    requires '-' !in value
    ensures var parts := Split(value, ',');
      Expanded(value) == Join(TrimAll(parts), ',')
  {
    var parts := Split(value, ',');
    forall i | 0 <= i < |parts| ensures '-' !in parts[i] {
      if '-' in parts[i] {
        PartWithin(value, ',', i, '-');
      }
    }
    TokensWithoutRange(parts);
  }

  lemma {:induction false} TokensWithoutRange(parts: seq<string>)
    requires forall i :: 0 <= i < |parts| ==> '-' !in parts[i]
    ensures Tokens(parts) == TrimAll(parts)
  {
    if |parts| > 0 {
      var n := |parts| - 1;
      TokensWithoutRange(parts[..n]);
      if '-' in Trim(parts[n]) {
        TrimWithin(parts[n], '-');
      }
      assert RangeIn(Trim(parts[n])) == None;
      TrimAllLast(parts);
    }
  }

  /** A value whose comma parts are already trimmed and hold no `-` is left as it is. */
  lemma TrimmedWithoutRangeUnchanged(value: string)
    requires '-' !in value
    requires forall i :: 0 <= i < |Split(value, ',')| ==> Trim(Split(value, ',')[i]) == Split(value, ',')[i]
    ensures Expanded(value) == value
  {
    var parts := Split(value, ',');
    NoRangeOnlyTrims(value);
    assert TrimAll(parts) == parts;
    JoinSplit(value, ',');
  }

  /** The expanded value splits back on commas into exactly its tokens. */
  lemma ExpandedTokens(value: string)
    ensures Split(Expanded(value), ',') == Tokens(Split(value, ','))
  {
    var parts := Split(value, ',');
    TokensHaveNoComma(parts);
    SplitJoin(Tokens(parts), ',');
  }

  lemma {:induction false} TokensHaveNoComma(parts: seq<string>)
    requires forall i :: 0 <= i < |parts| ==> ',' !in parts[i]
    ensures forall k :: 0 <= k < |Tokens(parts)| ==> ',' !in Tokens(parts)[k]
  {
    if |parts| > 0 {
      var n := |parts| - 1;
      TokensHaveNoComma(parts[..n]);
      var last := ExpandPart(parts[n]);
      forall j | 0 <= j < |last| ensures ',' !in last[j] {
        TokenHasNoComma(parts[n], j);
      }
    }
  }

  lemma TokenHasNoComma(part: string, j: nat)
    requires ',' !in part && j < |ExpandPart(part)|
    ensures ',' !in ExpandPart(part)[j]
  {
    var t := Trim(part);
    if ',' in t {
      TrimWithin(part, ',');
    }
    match RangeIn(t)
    case Some(r) =>
      EnumerateAt(r.prefix, r.from, r.to, j);
      PrintedChars(r.prefix, if r.from <= r.to then r.from + j else r.from - j);
    case None =>
  }

  /** Expanding twice gives what expanding once gives: every token is already trimmed
      and is no range. */
  lemma ExpandedIdempotent(value: string)
    ensures Expanded(Expanded(value)) == Expanded(value)
  {
    var parts := Split(value, ',');
    ExpandedTokens(value);
    TokensStable(parts);
    TokensOfStable(Tokens(parts));
  }

  /** A token expands to itself. */
  lemma TokenStable(part: string, j: nat)
    requires j < |ExpandPart(part)|
    ensures ExpandPart(ExpandPart(part)[j]) == [ExpandPart(part)[j]]
  {
    var token := ExpandPart(part)[j];
    TokenShape(part, j);
    if token == Trim(part) && RangeIn(Trim(part)).None? {
      TrimIdempotent(part);
      KeptStable(token);
    } else {
      var prefix, n :| AllLetters(prefix) && token == Printed(prefix, n);
      PrintedStable(prefix, n);
    }
  }

  /** A token is the trimmed part itself, or a printed designator. */
  lemma TokenShape(part: string, j: nat)
    requires j < |ExpandPart(part)|
    ensures (ExpandPart(part)[j] == Trim(part) && RangeIn(Trim(part)).None?)
      || exists prefix: string, n: nat :: AllLetters(prefix) && ExpandPart(part)[j] == Printed(prefix, n)
  {
    match RangeIn(Trim(part))
    case Some(r) =>
      EnumerateAt(r.prefix, r.from, r.to, j);
    case None =>
  }

  lemma PrintedStable(prefix: string, n: nat)
    requires AllLetters(prefix)
    ensures ExpandPart(Printed(prefix, n)) == [Printed(prefix, n)]
  {
    PrintedTrimmed(prefix, n);
    KeptStable(Printed(prefix, n));
  }

  lemma PrintedTrimmed(prefix: string, n: nat)
    requires AllLetters(prefix)
    ensures Trim(Printed(prefix, n)) == Printed(prefix, n) && RangeIn(Printed(prefix, n)) == None
  {
    PrintedChars(prefix, n);
    TrimNoSpace(Printed(prefix, n));
  }

  lemma KeptStable(t: string)
    requires Trim(t) == t && RangeIn(t) == None
    ensures ExpandPart(t) == [t]
  {
  }

  lemma {:induction false} TokensStable(parts: seq<string>)
    ensures forall k :: 0 <= k < |Tokens(parts)| ==> ExpandPart(Tokens(parts)[k]) == [Tokens(parts)[k]]
  {
    if |parts| > 0 {
      var n := |parts| - 1;
      TokensStable(parts[..n]);
      var last := ExpandPart(parts[n]);
      forall j | 0 <= j < |last| ensures ExpandPart(last[j]) == [last[j]] {
        TokenStable(parts[n], j);
      }
    }
  }

  /** Parts that each expand to themselves are their own tokens. */
  lemma {:induction false} TokensOfStable(parts: seq<string>)
    requires forall k :: 0 <= k < |parts| ==> ExpandPart(parts[k]) == [parts[k]]
    ensures Tokens(parts) == parts
  {
    if |parts| > 0 {
      var n := |parts| - 1;
      forall k | 0 <= k < n ensures ExpandPart(parts[..n][k]) == [parts[..n][k]] {
        assert parts[..n][k] == parts[k];
      }
      TokensOfStable(parts[..n]);
      assert ExpandPart(parts[n]) == [parts[n]];
      LastSplit(parts);
    }
  }

  /** The `i`-th part of a split holds only characters of the string. */
  lemma {:induction false} PartWithin(s: string, sep: char, i: nat, c: char)
    requires i < |Split(s, sep)| && c in Split(s, sep)[i]
    ensures c in s
    decreases |s|
  {
    if |s| > 0 {
      var rest := Split(s[1..], sep);
      if s[0] == sep {
        if i > 0 {
          assert Split(s, sep)[i] == rest[i - 1];
          PartWithin(s[1..], sep, i - 1, c);
        }
      } else if i == 0 {
        if c != s[0] {
          assert c in rest[0];
          PartWithin(s[1..], sep, 0, c);
        }
      } else {
        assert Split(s, sep)[i] == rest[i];
        PartWithin(s[1..], sep, i, c);
      }
    }
  }
}
