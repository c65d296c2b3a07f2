/** The style checker's two bracket scans, forwards and backwards over the lines of a file, and the proof that they
    are inverse: both find exactly the matching bracket. */
module Brackets {

  /** An opening and a closing character. */
  datatype Pair = Pair(open: char, close: char)

  predicate Opens(c: char) { c == '(' || c == '{' || c == '[' || c == '<' }

  predicate Closes(c: char) { c == ')' || c == '}' || c == ']' || c == '>' }

  function PairOf(open: char): Pair
    requires Opens(open)
  {
    if open == '(' then Pair('(', ')')
    else if open == '[' then Pair('[', ']')
    else if open == '{' then Pair('{', '}')
    else Pair('<', '>')
  }

  function PairTo(close: char): Pair
    requires Closes(close)
  {
    if close == ')' then Pair('(', ')')
    else if close == ']' then Pair('[', ']')
    else if close == '}' then Pair('{', '}')
    else Pair('<', '>')
  }

  // ----- The scans -----

  /** Scan a line from a position: the position just after the bracket that brings the depth to 0, or -1, and the
      depth reached. */
  function FindEnd(line: string, i: nat, depth: int, b: Pair): (int, int)
    decreases |line| - i
  {
    if i >= |line| then (-1, depth)
    else if line[i] == b.open then FindEnd(line, i + 1, depth + 1, b)
    else if line[i] == b.close then if depth - 1 == 0 then (i + 1, 0) else FindEnd(line, i + 1, depth - 1, b)
    else FindEnd(line, i + 1, depth, b)
  }

  /** The same backwards: the position at the bracket that brings the depth to 0. */
  function FindStart(line: string, i: int, depth: int, b: Pair): (int, int)
    requires i < |line|
    decreases i
  {
    if i < 0 then (-1, depth)
    else if line[i] == b.close then FindStart(line, i - 1, depth + 1, b)
    else if line[i] == b.open then if depth - 1 == 0 then (i, 0) else FindStart(line, i - 1, depth - 1, b)
    else FindStart(line, i - 1, depth, b)
  }

  /** Go on at the start of a line. */
  function CloseFrom(lines: seq<string>, l: nat, depth: int, b: Pair): (nat, int)
    decreases |lines| - l
  {
    if l >= |lines| then (|lines|, -1)
    else
      var (end, open) := FindEnd(lines[l], 0, depth, b);
      if end > -1 then (l, end) else CloseFrom(lines, l + 1, open, b)
  }

  /** The line number and the position past the closing bracket, or the number of lines and -1. */
  function CloseExpression(lines: seq<string>, l: nat, p: nat): (nat, int)
    requires IsPosition(lines, l, p)
  {
    if !Opens(lines[l][p]) then (|lines|, -1)
    else
      var (end, open) := FindEnd(lines[l], p, 0, PairOf(lines[l][p]));
      if end > -1 then (l, end) else CloseFrom(lines, l + 1, open, PairOf(lines[l][p]))
  }

  /** Go on at the end of the line before line l. */
  function OpenFrom(lines: seq<string>, l: nat, depth: int, b: Pair): (nat, int)
    requires l <= |lines|
  {
    if l == 0 then (0, -1)
    else
      var (start, open) := FindStart(lines[l - 1], |lines[l - 1]| - 1, depth, b);
      if start > -1 then (l - 1, start) else OpenFrom(lines, l - 1, open, b)
  }

  /** The line number and the position at the opening bracket, or 0 and -1. */
  function ReverseCloseExpression(lines: seq<string>, l: nat, p: nat): (nat, int)
    requires IsPosition(lines, l, p)
  {
    if !Closes(lines[l][p]) then (0, -1)
    else
      var (start, open) := FindStart(lines[l], p, 0, PairTo(lines[l][p]));
      if start > -1 then (l, start) else OpenFrom(lines, l, open, PairTo(lines[l][p]))
  }

  // ----- What matching means -----

  predicate IsPosition(lines: seq<string>, l: nat, p: nat) {
    l < |lines| && p < |lines[l]|
  }

  function Whole(lines: seq<string>): string {
    if lines == [] then "" else lines[0] + Whole(lines[1..])
  }

  /** Where a line starts in the whole text. */
  function Start(lines: seq<string>, l: nat): nat
    requires l <= |lines|
  {
    if l == 0 then 0 else |lines[0]| + Start(lines[1..], l - 1)
  }

  /** The place of a position in the whole text. */
  function Offset(lines: seq<string>, l: nat, p: nat): nat
    requires l <= |lines|
  {
    Start(lines, l) + p
  }

  /** How many more brackets open than close before a place. */
  function Depth(text: string, n: nat, b: Pair): int
    requires n <= |text|
  {
    if n == 0 then 0
    else Depth(text, n - 1, b) + if text[n - 1] == b.open then 1 else if text[n - 1] == b.close then -1 else 0
  }

  /** A bracket pair: the text between is balanced and never closes more than it opens. */
  ghost predicate Balanced(text: string, i: nat, k: nat, b: Pair) {
    && i < k < |text| && text[i] == b.open && text[k] == b.close
    && Depth(text, k + 1, b) == Depth(text, i, b)
    && forall j :: i < j <= k ==> Depth(text, j, b) > Depth(text, i, b)
  }

  /** The bracket at one position matches the bracket at another. */
  ghost predicate Matching(lines: seq<string>, l: nat, p: nat, m: nat, q: nat) {
    && IsPosition(lines, l, p) && IsPosition(lines, m, q) && Opens(lines[l][p])
    && Balanced(Whole(lines), Offset(lines, l, p), Offset(lines, m, q), PairOf(lines[l][p]))
  }

  // ----- Places and positions -----

  /** A line stands at a place of a text. */
  ghost predicate StandsAt(text: string, start: nat, line: string) {
    start + |line| <= |text| && text[start..start + |line|] == line
  }

  lemma StandsAfter(before: string, text: string, start: nat, line: string)
    requires StandsAt(text, start, line)
    ensures StandsAt(before + text, |before| + start, line)
  {
    assert (before + text)[|before| + start..|before| + start + |line|] == text[start..start + |line|];
  }

  /** Where a line stands in the whole text. */
  lemma {:induction false} LineStands(lines: seq<string>, l: nat)
    requires l < |lines|
    ensures StandsAt(Whole(lines), Start(lines, l), lines[l])
    ensures Start(lines, l + 1) == Start(lines, l) + |lines[l]|
    decreases l
  {
    if l > 0 {
      LineStands(lines[1..], l - 1);
      StandsAfter(lines[0], Whole(lines[1..]), Start(lines[1..], l - 1), lines[l]);
    } else {
      assert Start(lines[1..], 0) == 0;
    }
  }

  lemma CharAt(lines: seq<string>, l: nat, p: nat)
    requires IsPosition(lines, l, p)
    ensures Offset(lines, l, p) < |Whole(lines)| && Whole(lines)[Offset(lines, l, p)] == lines[l][p]
  {
    LineStands(lines, l);
    assert Whole(lines)[Start(lines, l)..Start(lines, l) + |lines[l]|][p] == lines[l][p];
  }

  lemma {:induction false} TotalLength(lines: seq<string>)
    ensures Start(lines, |lines|) == |Whole(lines)|
  {
    if lines != [] {
      TotalLength(lines[1..]);
    }
  }

  lemma {:induction false} OffsetGrows(lines: seq<string>, l: nat, m: nat)
    requires l <= m <= |lines|
    ensures Offset(lines, l, 0) <= Offset(lines, m, 0) <= |Whole(lines)|
    decreases m - l
  {
    if l < m {
      LineStands(lines, l);
      OffsetGrows(lines, l + 1, m);
    } else if l == |lines| {
      TotalLength(lines);
    } else {
      LineStands(lines, l);
    }
  }

  /** No two positions share a place. */
  lemma OffsetInjective(lines: seq<string>, l: nat, p: nat, m: nat, q: nat)
    requires IsPosition(lines, l, p) && IsPosition(lines, m, q) && Offset(lines, l, p) == Offset(lines, m, q)
    ensures l == m && p == q
  {
    LineStands(lines, l);
    LineStands(lines, m);
    if l < m {
      OffsetGrows(lines, l + 1, m);
    } else if m < l {
      OffsetGrows(lines, m + 1, l);
    }
  }

  // ----- The scans over the whole text -----

  function Forward(text: string, i: nat, depth: int, b: Pair): int
    decreases |text| - i
  {
    if i >= |text| then -1
    else if text[i] == b.open then Forward(text, i + 1, depth + 1, b)
    else if text[i] == b.close then if depth - 1 == 0 then i else Forward(text, i + 1, depth - 1, b)
    else Forward(text, i + 1, depth, b)
  }

  function Backward(text: string, i: int, depth: int, b: Pair): int
    requires i < |text|
    decreases i
  {
    if i < 0 then -1
    else if text[i] == b.close then Backward(text, i - 1, depth + 1, b)
    else if text[i] == b.open then if depth - 1 == 0 then i else Backward(text, i - 1, depth - 1, b)
    else Backward(text, i - 1, depth, b)
  }

  /** From inside an expression, the forward scan stops at the first place after which the depth is back at base. */
  lemma {:induction false} ForwardStops(text: string, i: nat, base: int, b: Pair)
    requires i <= |text| && Depth(text, i, b) > base && b.open != b.close
    ensures var k := Forward(text, i, Depth(text, i, b) - base, b);
            && (k >= 0 ==> i <= k < |text| && text[k] == b.close && Depth(text, k + 1, b) == base
                           && forall j :: i <= j <= k ==> Depth(text, j, b) > base)
            && (k < 0 ==> forall j :: i <= j <= |text| ==> Depth(text, j, b) > base)
    decreases |text| - i
  {
    if i < |text| {
      assert Depth(text, i + 1, b) ==
             Depth(text, i, b) + if text[i] == b.open then 1 else if text[i] == b.close then -1 else 0;
      if Depth(text, i + 1, b) > base {
        ForwardStops(text, i + 1, base, b);
      }
    }
  }

  /** The backward scan stops at the last place whose depth is back at base. */
  lemma {:induction false} BackwardStops(text: string, i: int, base: int, b: Pair)
    requires -1 <= i < |text| && Depth(text, i + 1, b) > base && b.open != b.close
    ensures var k := Backward(text, i, Depth(text, i + 1, b) - base, b);
            && (k >= 0 ==> k <= i && text[k] == b.open && Depth(text, k, b) == base
                           && forall j :: k < j <= i + 1 ==> Depth(text, j, b) > base)
            && (k < 0 ==> forall j :: 0 <= j <= i + 1 ==> Depth(text, j, b) > base)
    decreases i
  {
    if i >= 0 {
      assert Depth(text, i + 1, b) ==
             Depth(text, i, b) + if text[i] == b.open then 1 else if text[i] == b.close then -1 else 0;
      if Depth(text, i, b) > base {
        BackwardStops(text, i - 1, base, b);
      }
    }
  }

  lemma ForwardFinds(text: string, i: nat, k: nat, b: Pair)
    requires i < |text| && text[i] == b.open && b.open != b.close
    ensures Forward(text, i, 0, b) == k <==> Balanced(text, i, k, b)
  {
    assert Depth(text, i + 1, b) == Depth(text, i, b) + 1;
    ForwardStops(text, i + 1, Depth(text, i, b), b);
    if Balanced(text, i, k, b) {
      assert Depth(text, k + 1, b) == Depth(text, i, b);
    }
  }

  lemma BackwardFinds(text: string, i: nat, k: nat, b: Pair)
    requires k < |text| && text[k] == b.close && b.open != b.close
    ensures Backward(text, k, 0, b) == i <==> Balanced(text, i, k, b)
  {
    var base := Depth(text, k + 1, b);
    assert Depth(text, k, b) == base + 1;
    BackwardStops(text, k - 1, base, b);
  }

  // ----- The scans line by line are the scans over the whole text -----

  lemma {:induction false} FindEndForward(text: string, start: nat, line: string, i: nat, depth: int, b: Pair)
    requires StandsAt(text, start, line) && i <= |line|
    ensures var (end, open) := FindEnd(line, i, depth, b);
            && -1 <= end <= |line| && end != 0
            && Forward(text, start + i, depth, b) ==
               if end > -1 then start + end - 1 else Forward(text, start + |line|, open, b)
    decreases |line| - i
  {
    if i < |line| {
      assert text[start..start + |line|][i] == line[i];
      FindEndForward(text, start, line, i + 1,
                     depth + if line[i] == b.open then 1 else if line[i] == b.close then -1 else 0, b);
    }
  }

  lemma {:induction false} CloseFromForward(lines: seq<string>, l: nat, depth: int, b: Pair)
    requires l <= |lines|
    ensures var (m, e) := CloseFrom(lines, l, depth, b);
            var k := Forward(Whole(lines), Offset(lines, l, 0), depth, b);
            if e > -1 then e > 0 && IsPosition(lines, m, e - 1) && k == Offset(lines, m, e - 1)
            else (m, e) == (|lines|, -1) && k == -1
    decreases |lines| - l
  {
    if l < |lines| {
      LineStands(lines, l);
      FindEndForward(Whole(lines), Start(lines, l), lines[l], 0, depth, b);
      var (end, open) := FindEnd(lines[l], 0, depth, b);
      if end <= -1 {
        CloseFromForward(lines, l + 1, open, b);
      }
    } else {
      TotalLength(lines);
    }
  }

  lemma {:induction false} FindStartBackward(text: string, start: nat, line: string, i: int, depth: int, b: Pair)
    requires StandsAt(text, start, line) && -1 <= i < |line| && start + i < |text|
    ensures var (found, open) := FindStart(line, i, depth, b);
            && -1 <= found < |line|
            && Backward(text, start + i, depth, b) ==
               if found > -1 then start + found else Backward(text, start - 1, open, b)
    decreases i
  {
    if i >= 0 {
      assert text[start..start + |line|][i] == line[i];
      FindStartBackward(text, start, line, i - 1,
                        depth + if line[i] == b.close then 1 else if line[i] == b.open then -1 else 0, b);
    }
  }

  lemma {:induction false} OpenFromBackward(lines: seq<string>, l: nat, depth: int, b: Pair)
    requires l <= |lines| && Offset(lines, l, 0) - 1 < |Whole(lines)|
    ensures var (m, q) := OpenFrom(lines, l, depth, b);
            var k := Backward(Whole(lines), Offset(lines, l, 0) - 1, depth, b);
            if q > -1 then IsPosition(lines, m, q) && k == Offset(lines, m, q) else (m, q) == (0, -1) && k == -1
    decreases l
  {
    if l > 0 {
      LineStands(lines, l - 1);
      var line := lines[l - 1];
      FindStartBackward(Whole(lines), Start(lines, l - 1), line, |line| - 1, depth, b);
      var (start, open) := FindStart(line, |line| - 1, depth, b);
      if start <= -1 {
        OpenFromBackward(lines, l - 1, open, b);
      }
    }
  }

  // ----- Both scans find the matching bracket -----

  /** The forward scan finds the bracket that matches, and nothing exactly when no bracket does. */
  lemma CloseFindsMatch(lines: seq<string>, l: nat, p: nat, m: nat, q: nat)
    requires IsPosition(lines, l, p) && IsPosition(lines, m, q)
    ensures CloseExpression(lines, l, p) == (m, q + 1) <==> Matching(lines, l, p, m, q)
  {
    if Opens(lines[l][p]) {
      var b := PairOf(lines[l][p]);
      CharAt(lines, l, p);
      CharAt(lines, m, q);
      CloseIsForward(lines, l, p);
      ForwardFinds(Whole(lines), Offset(lines, l, p), Offset(lines, m, q), b);
      var (n, e) := CloseExpression(lines, l, p);
      if e > -1 && Forward(Whole(lines), Offset(lines, l, p), 0, b) == Offset(lines, m, q) {
        OffsetInjective(lines, n, e - 1, m, q);
      }
    }
  }

  lemma CloseIsForward(lines: seq<string>, l: nat, p: nat)
    requires IsPosition(lines, l, p) && Opens(lines[l][p])
    ensures var (m, e) := CloseExpression(lines, l, p);
            var k := Forward(Whole(lines), Offset(lines, l, p), 0, PairOf(lines[l][p]));
            if e > -1 then e > 0 && IsPosition(lines, m, e - 1) && k == Offset(lines, m, e - 1)
            else (m, e) == (|lines|, -1) && k == -1
  {
    var b := PairOf(lines[l][p]);
    LineStands(lines, l);
    FindEndForward(Whole(lines), Start(lines, l), lines[l], p, 0, b);
    var (end, open) := FindEnd(lines[l], p, 0, b);
    if end <= -1 {
      CloseFromForward(lines, l + 1, open, b);
    }
  }

  lemma ReverseFindsMatch(lines: seq<string>, l: nat, p: nat, m: nat, q: nat)
    requires IsPosition(lines, l, p) && IsPosition(lines, m, q)
    ensures ReverseCloseExpression(lines, m, q) == (l, p) <==> Matching(lines, l, p, m, q)
  {
    CharAt(lines, l, p);
    CharAt(lines, m, q);
    if Closes(lines[m][q]) {
      var b := PairTo(lines[m][q]);
      ReverseIsBackward(lines, m, q);
      BackwardFinds(Whole(lines), Offset(lines, l, p), Offset(lines, m, q), b);
      var (n, s) := ReverseCloseExpression(lines, m, q);
      if s > -1 && Backward(Whole(lines), Offset(lines, m, q), 0, b) == Offset(lines, l, p) {
        OffsetInjective(lines, n, s, l, p);
      }
    }
  }

  lemma ReverseIsBackward(lines: seq<string>, m: nat, q: nat)
    requires IsPosition(lines, m, q) && Closes(lines[m][q])
    ensures Offset(lines, m, q) < |Whole(lines)|
    ensures var (l, s) := ReverseCloseExpression(lines, m, q);
            var k := Backward(Whole(lines), Offset(lines, m, q), 0, PairTo(lines[m][q]));
            if s > -1 then IsPosition(lines, l, s) && k == Offset(lines, l, s) else (l, s) == (0, -1) && k == -1
  {
    var b := PairTo(lines[m][q]);
    LineStands(lines, m);
    FindStartBackward(Whole(lines), Start(lines, m), lines[m], q, 0, b);
    var (start, open) := FindStart(lines[m], q, 0, b);
    if start <= -1 {
      OpenFromBackward(lines, m, open, b);
    }
  }

  /** The two scans are inverse, on one line or across lines: the forward scan from a position ends just past
      another exactly when the backward scan from that one ends at the first. */
  lemma ScansAreInverse(lines: seq<string>, l: nat, p: nat, m: nat, q: nat)
    requires IsPosition(lines, l, p) && IsPosition(lines, m, q)
    ensures CloseExpression(lines, l, p) == (m, q + 1) <==> ReverseCloseExpression(lines, m, q) == (l, p)
  {
    CloseFindsMatch(lines, l, p, m, q);
    ReverseFindsMatch(lines, l, p, m, q);
  }

  /** What the forward scan finds, the backward scan leads back from. */
  lemma ReverseUndoesClose(lines: seq<string>, l: nat, p: nat)
    requires IsPosition(lines, l, p) && CloseExpression(lines, l, p).1 > -1
    ensures var (m, e) := CloseExpression(lines, l, p);
            e > 0 && IsPosition(lines, m, e - 1) && ReverseCloseExpression(lines, m, e - 1) == (l, p)
  {
    var (m, e) := CloseExpression(lines, l, p);
    CloseIsForward(lines, l, p);
    ScansAreInverse(lines, l, p, m, e - 1);
  }

  /** The forward scan finds nothing exactly when no bracket matches; it then answers with the number of lines. */
  lemma CloseFindsNothing(lines: seq<string>, l: nat, p: nat)
    requires IsPosition(lines, l, p)
    ensures CloseExpression(lines, l, p) == (|lines|, -1) <==> forall m: nat, q: nat :: !Matching(lines, l, p, m, q)
  {
    var (m, e) := CloseExpression(lines, l, p);
    if Opens(lines[l][p]) {
      CloseIsForward(lines, l, p);
      if e > -1 {
        CloseFindsMatch(lines, l, p, m, e - 1);
      }
    }
    forall n: nat, q: nat | Matching(lines, l, p, n, q) ensures CloseExpression(lines, l, p) == (n, q + 1) {
      CloseFindsMatch(lines, l, p, n, q);
    }
  }

  /** The backward scan finds nothing exactly when no bracket matches; it then answers with line 0. */
  lemma ReverseFindsNothing(lines: seq<string>, m: nat, q: nat)
    requires IsPosition(lines, m, q)
    ensures ReverseCloseExpression(lines, m, q) == (0, -1) <==> forall l: nat, p: nat :: !Matching(lines, l, p, m, q)
  {
    var (l, s) := ReverseCloseExpression(lines, m, q);
    if Closes(lines[m][q]) {
      ReverseIsBackward(lines, m, q);
      if s > -1 {
        ReverseFindsMatch(lines, l, s, m, q);
      }
    }
    forall n: nat, p: nat | Matching(lines, n, p, m, q) ensures ReverseCloseExpression(lines, m, q) == (n, p) {
      ReverseFindsMatch(lines, n, p, m, q);
    }
  }

  /** Which characters are brackets, and which close which. */
  lemma PairsExactly(c: char, d: char)
    ensures CloseExpression([[c, d]], 0, 0) == (0, 2) <==> [c, d] in ["()", "[]", "{}", "<>"]
    ensures ReverseCloseExpression([[c, d]], 0, 1) == (0, 0) <==> [c, d] in ["()", "[]", "{}", "<>"]
  {
    var lines := [[c, d]];
    ScansAreInverse(lines, 0, 0, 0, 1);
    assert lines[0][0] == c && lines[0][1] == d;
    if Opens(c) {
      var b := PairOf(c);
      assert FindEnd([c, d], 1, 1, b) == if d == b.close then (2, 0) else FindEnd([c, d], 2, if d == c then 2 else 1, b);
    }
  }

  // ----- The scans as they run -----

  method FindEndOfExpressionInLine(line: string, startpos: nat, start: int, b: Pair) returns (pos: int, depth: int)
    requires startpos <= |line|
    ensures (pos, depth) == FindEnd(line, startpos, start, b)
  {
    depth := start;
    for i := startpos to |line|
      invariant FindEnd(line, i, depth, b) == FindEnd(line, startpos, start, b)
    {
      if line[i] == b.open {
        depth := depth + 1;
      } else if line[i] == b.close {
        depth := depth - 1;
        if depth == 0 {
          return i + 1, 0;
        }
      }
    }
    return -1, depth;
  }

  method FindStartOfExpressionInLine(line: string, endpos: int, start: int, b: Pair)
    returns (pos: int, depth: int)
    requires -1 <= endpos < |line|
    ensures (pos, depth) == FindStart(line, endpos, start, b)
  {
    depth := start;
    var i := endpos;
    while i >= 0
      invariant -1 <= i <= endpos
      invariant FindStart(line, i, depth, b) == FindStart(line, endpos, start, b)
    {
      if line[i] == b.close {
        depth := depth + 1;
      } else if line[i] == b.open {
        depth := depth - 1;
        if depth == 0 {
          return i, 0;
        }
      }
      i := i - 1;
    }
    return -1, depth;
  }

  method FindClosing(lines: seq<string>, linenum: nat, pos: nat) returns (l: nat, p: int)
    requires IsPosition(lines, linenum, pos)
    ensures (l, p) == CloseExpression(lines, linenum, pos)
  {
    var c := lines[linenum][pos];
    if !Opens(c) {
      return |lines|, -1;
    }
    var b := PairOf(c);
    var end, open := FindEndOfExpressionInLine(lines[linenum], pos, 0, b);
    if end > -1 {
      return linenum, end;
    }
    l := linenum;
    while l < |lines| - 1
      invariant linenum <= l < |lines|
      invariant CloseExpression(lines, linenum, pos) == CloseFrom(lines, l + 1, open, b)
    {
      l := l + 1;
      end, open := FindEndOfExpressionInLine(lines[l], 0, open, b);
      if end > -1 {
        return l, end;
      }
    }
    return |lines|, -1;
  }

  method FindOpening(lines: seq<string>, linenum: nat, pos: nat) returns (l: nat, p: int)
    requires IsPosition(lines, linenum, pos)
    ensures (l, p) == ReverseCloseExpression(lines, linenum, pos)
  {
    var c := lines[linenum][pos];
    if !Closes(c) {
      return 0, -1;
    }
    var b := PairTo(c);
    var start, open := FindStartOfExpressionInLine(lines[linenum], pos, 0, b);
    if start > -1 {
      return linenum, start;
    }
    l := linenum;
    while l > 0
      invariant l <= linenum
      invariant ReverseCloseExpression(lines, linenum, pos) == OpenFrom(lines, l, open, b)
    {
      l := l - 1;
      start, open := FindStartOfExpressionInLine(lines[l], |lines[l]| - 1, open, b);
      if start > -1 {
        return l, start;
      }
    }
    return 0, -1;
  }
}
