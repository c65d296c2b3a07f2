/** Characters and the string algorithms the program shares: trimming and splitting. */
module Text {

  /** isspace in the C locale. */
  predicate IsSpace(c: char) { c == ' ' || '\t' <= c <= '\r' }

  function TrimLeftIf(drop: char -> bool, s: string): (t: string)
    ensures t != "" ==> !drop(t[0])
  {
    if s != "" && drop(s[0]) then TrimLeftIf(drop, s[1..]) else s
  }

  function TrimRightIf(drop: char -> bool, s: string): (t: string)
    ensures t != "" ==> !drop(t[|t| - 1])
  {
    if s != "" && drop(s[|s| - 1]) then TrimRightIf(drop, s[..|s| - 1]) else s
  }

  lemma {:induction false} TrimLeftIsSuffix(drop: char -> bool, s: string)
    ensures var t := TrimLeftIf(drop, s); |t| <= |s| && t == s[|s| - |t|..]
  {
    if s != "" && drop(s[0]) {
      TrimLeftIsSuffix(drop, s[1..]);
    }
  }

  lemma {:induction false} TrimRightIsPrefix(drop: char -> bool, s: string)
    ensures TrimRightIf(drop, s) <= s
  {
    if s != "" && drop(s[|s| - 1]) {
      TrimRightIsPrefix(drop, s[..|s| - 1]);
    }
  }

  lemma {:induction false} TrimLeftOf(drop: char -> bool, before: string, s: string)
    requires (forall c :: c in before ==> drop(c)) && (s != "" ==> !drop(s[0]))
    ensures TrimLeftIf(drop, before + s) == s
  {
    if before == "" {
      assert before + s == s;
    } else {
      assert (before + s)[1..] == before[1..] + s;
      TrimLeftOf(drop, before[1..], s);
    }
  }

  lemma {:induction false} TrimRightOf(drop: char -> bool, s: string, after: string)
    requires (forall c :: c in after ==> drop(c)) && (s != "" ==> !drop(s[|s| - 1]))
    ensures TrimRightIf(drop, s + after) == s
    decreases |after|
  {
    if after == "" {
      assert s + after == s;
    } else {
      var all := s + after;
      assert all[..|all| - 1] == s + after[..|after| - 1];
      TrimRightOf(drop, s, after[..|after| - 1]);
    }
  }

  /** boost::trim. */
  function Trim(s: string): string {
    TrimRightIf(IsSpace, TrimLeftIf(IsSpace, s))
  }

  /** Trimming takes off exactly the spaces, tabs, line feeds, vertical tabs, form feeds and carriage returns around a
      text. */
  lemma TrimmedIs(before: string, s: string, after: string)
    requires forall c :: c in before || c in after ==> c in " \t\n\r" || c == '\U{000B}' || c == '\U{000C}'
    requires s != "" ==> !IsSpace(s[0]) && !IsSpace(s[|s| - 1])
    ensures Trim(before + (s + after)) == s
    ensures forall c :: IsSpace(c) <==> c in " \t\n\r" || c == '\U{000B}' || c == '\U{000C}'
  {
    if s == "" {
      assert before + (s + after) == (before + after) + "";
      TrimLeftOf(IsSpace, before + after, "");
    } else {
      assert (s + after)[0] == s[0];
      TrimLeftOf(IsSpace, before, s + after);
      TrimRightOf(IsSpace, s, after);
    }
  }

  /** The pieces between single separators. */
  function Split(separator: char -> bool, s: string): (pieces: seq<string>)
    ensures pieces != []
  {
    if s == "" then [""]
    else
      var rest := Split(separator, s[1..]);
      if separator(s[0]) then [""] + rest else [[s[0]] + rest[0]] + rest[1..]
  }

  /** The tokens between runs of separators, as boost's split gives them with token_compress_on: a run at either
      end leaves an empty token there, and so does the empty text. */
  function Tokens(separator: char -> bool, s: string): (tokens: seq<string>)
    ensures tokens != []
  {
    if s == "" then [""]
    else
      var rest := Tokens(separator, s[1..]);
      if !separator(s[0]) then [[s[0]] + rest[0]] + rest[1..]
      else if |s| > 1 && separator(s[1]) then rest
      else [""] + rest
  }

  /** The non-empty ones, in order. */
  function NonEmpty(texts: seq<string>): seq<string> {
    if texts == [] then [] else (if texts[0] == "" then [] else [texts[0]]) + NonEmpty(texts[1..])
  }

  ghost predicate InnerNonEmpty(tokens: seq<string>) {
    forall i :: 0 < i < |tokens| - 1 ==> tokens[i] != ""
  }

  /** Tokens are the pieces without the empty ones in between: the first and the last piece stay, empty or not. */
  lemma {:induction false} TokensExactly(separator: char -> bool, s: string)
    ensures var tokens, pieces := Tokens(separator, s), Split(separator, s);
            && tokens[0] == pieces[0] && tokens[|tokens| - 1] == pieces[|pieces| - 1]
            && (|tokens| > 1 <==> |pieces| > 1)
            && InnerNonEmpty(tokens) && NonEmpty(tokens[1..]) == NonEmpty(pieces[1..])
  {
    if s != "" {
      var tokens, pieces := Tokens(separator, s[1..]), Split(separator, s[1..]);
      TokensExactly(separator, s[1..]);
      if !separator(s[0]) {
        assert Tokens(separator, s)[1..] == tokens[1..] && Split(separator, s)[1..] == pieces[1..];
      } else {
        SeparatorTokens(separator, s);
        assert Split(separator, s)[1..] == pieces;
      }
    }
  }

  lemma SeparatorTokens(separator: char -> bool, s: string)
    requires s != "" && separator(s[0])
    requires var tokens, pieces := Tokens(separator, s[1..]), Split(separator, s[1..]);
             && tokens[0] == pieces[0] && tokens[|tokens| - 1] == pieces[|pieces| - 1]
             && (|tokens| > 1 <==> |pieces| > 1)
             && InnerNonEmpty(tokens) && NonEmpty(tokens[1..]) == NonEmpty(pieces[1..])
    ensures var tokens, pieces := Tokens(separator, s), Split(separator, s[1..]);
            && tokens[0] == "" && tokens[|tokens| - 1] == pieces[|pieces| - 1] && |tokens| > 1
            && InnerNonEmpty(tokens) && NonEmpty(tokens[1..]) == NonEmpty(pieces)
  {
    var rest, pieces := Tokens(separator, s[1..]), Split(separator, s[1..]);
    if |s| > 1 && separator(s[1]) {
      assert s[1..][0] == s[1] && pieces[0] == "";
      assert [] + NonEmpty(pieces[1..]) == NonEmpty(pieces[1..]);
    } else {
      assert ([""] + rest)[1..] == rest;
      if |rest| > 1 {
        assert s[1..][0] == s[1];
        assert rest[0] != "";
      }
    }
  }

  /** Splitting at a separator splits the text there. */
  lemma {:induction false} SplitAround(separator: char -> bool, a: string, c: char, b: string)
    requires separator(c)
    ensures Split(separator, a + [c] + b) == Split(separator, a) + Split(separator, b)
  {
    if a == "" {
      assert ("" + [c] + b)[1..] == b;
    } else {
      assert (a + [c] + b)[1..] == a[1..] + [c] + b;
      SplitAround(separator, a[1..], c, b);
    }
  }

  /** Text without separators only lengthens the first piece. */
  lemma {:induction false} SplitPrefix(separator: char -> bool, a: string, b: string)
    requires forall c :: c in a ==> !separator(c)
    ensures Split(separator, a + b) == [a + Split(separator, b)[0]] + Split(separator, b)[1..]
  {
    if a == "" {
      assert a + b == b && a + Split(separator, b)[0] == Split(separator, b)[0];
    } else {
      assert a[0] in a;
      assert (a + b)[1..] == a[1..] + b;
      SplitPrefix(separator, a[1..], b);
      assert [a[0]] + (a[1..] + Split(separator, b)[0]) == a + Split(separator, b)[0];
    }
  }

  lemma {:induction false} PiecesHaveNoSeparator(separator: char -> bool, s: string)
    ensures forall p, c :: p in Split(separator, s) && c in p ==> !separator(c) && c in s
  {
    if s != "" {
      PiecesHaveNoSeparator(separator, s[1..]);
    }
  }

  /** Leading space does not matter to a trimmed text. */
  lemma TrimSkipsSpace(c: char, s: string)
    requires IsSpace(c)
    ensures Trim([c] + s) == Trim(s)
  {
    assert ([c] + s)[1..] == s;
  }
}
