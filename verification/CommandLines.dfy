/** Quoting arguments into one Windows command line, and the rules by which the Microsoft C runtime splits a
    command line into arguments again. */
module CommandLines {
  import opened Sequences
  import opened Text

  // ----- The runtime's rules -----

  function Slashes(n: nat): (s: string)
    ensures |s| == n && forall i :: 0 <= i < n ==> s[i] == '\\'
  {
    seq(n, i => '\\')
  }

  /** Split a command line. Arguments end at a space or a tab outside quotes. Backslashes are literal unless they
      precede a quote: 2n of them and a quote give n and open or close a quoted part, 2n + 1 give n and a literal
      quote. Two quotes inside a quoted part are a literal quote. An unclosed quoted part ends with the line. */
  function Parse(line: string): seq<string> {
    ParseFrom(line, 0, false, false, "")
  }

  function ParseFrom(s: string, slashes: nat, quoted: bool, started: bool, arg: string): seq<string>
    decreases |s|
  {
    if s == "" then if started then [arg + Slashes(slashes)] else []
    else if s[0] == '\\' then ParseFrom(s[1..], slashes + 1, quoted, true, arg)
    else if s[0] == '"' then
      if slashes % 2 == 1 then ParseFrom(s[1..], 0, quoted, true, arg + Slashes(slashes / 2) + "\"")
      else if quoted && |s| > 1 && s[1] == '"' then
        ParseFrom(s[2..], 0, quoted, true, arg + Slashes(slashes / 2) + "\"")
      else ParseFrom(s[1..], 0, !quoted, true, arg + Slashes(slashes / 2))
    else if !quoted && (s[0] == ' ' || s[0] == '\t') then
      (if started then [arg + Slashes(slashes)] else []) + ParseFrom(s[1..], 0, false, false, "")
    else ParseFrom(s[1..], 0, quoted, true, arg + Slashes(slashes) + [s[0]])
  }

  // ----- The printer -----

  predicate IsSpecial(c: char) {
    c == ' ' || c == '\t' || c == '\n' || c == '\U{000B}' || c == '"'
  }

  predicate NeedsQuotes(arg: string) {
    exists i :: 0 <= i < |arg| && IsSpecial(arg[i])
  }

  /** The inside of a quoted argument, with a number of backslashes still held back. */
  function Escaped(arg: string, slashes: nat): string {
    if arg == "" then Slashes(2 * slashes)
    else if arg[0] == '\\' then Escaped(arg[1..], slashes + 1)
    else if arg[0] == '"' then Slashes(2 * slashes + 1) + "\"" + Escaped(arg[1..], 0)
    else Slashes(slashes) + [arg[0]] + Escaped(arg[1..], 0)
  }

  function Written(arg: string): string {
    if NeedsQuotes(arg) then "\"" + Escaped(arg, 0) + "\"" else arg
  }

  function Printed(args: seq<string>): string {
    if args == [] then ""
    else if args[0] == "" then Printed(args[1..])
    else Written(args[0]) + " " + Printed(args[1..])
  }

  function CommandLine(args: seq<string>): string {
    TrimRightIf(IsSpace, Printed(args))
  }

  // ----- Parsing what was printed -----

  lemma {:induction false} ParseSlashes(n: nat, s: string, slashes: nat, quoted: bool, arg: string)
    ensures ParseFrom(Slashes(n) + s, slashes, quoted, true, arg) == ParseFrom(s, slashes + n, quoted, true, arg)
  {
    if n == 0 {
      assert Slashes(0) + s == s;
    } else {
      assert (Slashes(n) + s)[1..] == Slashes(n - 1) + s;
      ParseSlashes(n - 1, s, slashes + 1, quoted, arg);
    }
  }

  /** The escaped text and a closing quote read back as the argument. */
  lemma {:induction false} ParseEscaped(arg: string, slashes: nat, tail: string, read: string)
    requires tail == "" || tail[0] != '"'
    ensures ParseFrom(Escaped(arg, slashes) + "\"" + tail, 0, true, true, read) ==
            ParseFrom(tail, 0, false, true, read + Slashes(slashes) + arg)
    decreases |arg|
  {
    if arg == "" {
      ParseClose(slashes, tail, read);
      assert read + Slashes(slashes) + arg == read + Slashes(slashes);
    } else if arg[0] == '\\' {
      ParseEscaped(arg[1..], slashes + 1, tail, read);
      OneMore(slashes, arg, read);
    } else {
      EscapedStep(arg, slashes, tail);
      ParseEscapedChar(arg[0], slashes, Escaped(arg[1..], 0) + "\"" + tail, read);
      ParseEscaped(arg[1..], 0, tail, read + Slashes(slashes) + [arg[0]]);
      NoneHeld(arg, read + Slashes(slashes));
    }
  }

  lemma OneMore(slashes: nat, arg: string, read: string)
    requires arg != "" && arg[0] == '\\'
    ensures read + Slashes(slashes + 1) + arg[1..] == read + Slashes(slashes) + arg
  {
    assert Slashes(slashes + 1) == Slashes(slashes) + [arg[0]];
    assert arg == [arg[0]] + arg[1..];
  }

  lemma NoneHeld(arg: string, read: string)
    requires arg != ""
    ensures read + [arg[0]] + Slashes(0) + arg[1..] == read + arg
  {
    assert Slashes(0) == "" && arg == [arg[0]] + arg[1..];
  }

  lemma EscapedHead(arg: string, slashes: nat)
    requires arg != "" && arg[0] != '\\'
    ensures Escaped(arg, slashes) == Slashes(Held(arg[0], slashes)) + [arg[0]] + Escaped(arg[1..], 0)
  {
  }

  lemma EscapedStep(arg: string, slashes: nat, tail: string)
    requires arg != "" && arg[0] != '\\'
    ensures Escaped(arg, slashes) + "\"" + tail ==
            Slashes(Held(arg[0], slashes)) + ([arg[0]] + (Escaped(arg[1..], 0) + "\"" + tail))
  {
    EscapedHead(arg, slashes);
  }

  /** The closing quote, after the doubled backslashes before it. */
  lemma ParseClose(slashes: nat, tail: string, read: string)
    requires tail == "" || tail[0] != '"'
    ensures ParseFrom(Slashes(2 * slashes) + "\"" + tail, 0, true, true, read) ==
            ParseFrom(tail, 0, false, true, read + Slashes(slashes))
  {
    Associates(Slashes(2 * slashes), "\"", tail);
    ParseSlashes(2 * slashes, "\"" + tail, 0, true, read);
    assert ("\"" + tail)[1..] == tail;
  }

  function Held(c: char, slashes: nat): nat {
    if c == '"' then 2 * slashes + 1 else slashes
  }

  /** Inside quotes, backslashes and the character they precede. */
  lemma ParseEscapedChar(c: char, slashes: nat, rest: string, read: string)
    requires c != '\\'
    ensures ParseFrom(Slashes(Held(c, slashes)) + ([c] + rest), 0, true, true, read) ==
            ParseFrom(rest, 0, true, true, read + Slashes(slashes) + [c])
  {
    ParseSlashes(Held(c, slashes), [c] + rest, 0, true, read);
    assert ([c] + rest)[1..] == rest;
  }

  // ----- The rules, one by one -----

  lemma {:induction false} ParseInside(w: string, rest: string, read: string)
    requires '\\' !in w && '"' !in w
    ensures ParseFrom(w + rest, 0, true, true, read) == ParseFrom(rest, 0, true, true, read + w)
  {
    if w == "" {
      assert w + rest == rest && read + w == read;
    } else {
      assert (w + rest)[1..] == w[1..] + rest;
      ParseInside(w[1..], rest, read + [w[0]]);
      assert read + Slashes(0) + [w[0]] == read + [w[0]] && read + [w[0]] + w[1..] == read + w;
    }
  }

  lemma ParseOpened(rest: string)
    ensures Parse("\"" + rest) == ParseFrom(rest, 0, true, true, "")
  {
    assert ("\"" + rest)[1..] == rest && "" + Slashes(0) == "";
  }

  lemma ParseLastQuote(slashes: nat, read: string)
    ensures ParseFrom("\"", slashes, true, true, read) ==
            [read + Slashes(slashes / 2) + if slashes % 2 == 1 then "\"" else ""]
  {
    assert "\""[1..] == "";
    assert forall s: string :: s + Slashes(0) == s;
    assert read + Slashes(slashes / 2) + "" == read + Slashes(slashes / 2);
  }

  /** In a quoted part, 2n backslashes before the quote give n and end it; 2n + 1 give n and a quote. */
  lemma BackslashesBeforeQuote(w: string, n: nat)
    requires '\\' !in w && '"' !in w
    ensures Parse("\"" + (w + (Slashes(2 * n) + "\""))) == [w + Slashes(n)]
    ensures Parse("\"" + (w + (Slashes(2 * n + 1) + "\""))) == [w + Slashes(n) + "\""]
  {
    assert "" + w == w && w + Slashes(n) + "" == w + Slashes(n);
    ParseOpened(w + (Slashes(2 * n) + "\""));
    ParseInside(w, Slashes(2 * n) + "\"", "");
    ParseSlashes(2 * n, "\"", 0, true, w);
    ParseLastQuote(2 * n, w);
    ParseOpened(w + (Slashes(2 * n + 1) + "\""));
    ParseInside(w, Slashes(2 * n + 1) + "\"", "");
    ParseSlashes(2 * n + 1, "\"", 0, true, w);
    ParseLastQuote(2 * n + 1, w);
  }

  /** Two quotes inside a quoted part are one, and the part goes on. */
  lemma DoubledQuote(w: string, v: string)
    requires '\\' !in w && '"' !in w && '\\' !in v && '"' !in v
    ensures Parse("\"" + (w + ("\"\"" + (v + "\"")))) == [w + "\"" + v]
  {
    var rest := v + "\"";
    assert "" + w == w && ("\"\"" + rest)[2..] == rest && w + Slashes(0) + "\"" == w + "\"";
    ParseOpened(w + ("\"\"" + rest));
    ParseInside(w, "\"\"" + rest, "");
    ParseInside(v, "\"", w + "\"");
    ParseLastQuote(0, w + "\"" + v);
    assert w + "\"" + v + Slashes(0) + "" == w + "\"" + v;
  }

  /** Elsewhere backslashes are backslashes, and a space or a tab ends an argument. */
  lemma PlainArguments(w: string, n: nat, rest: string)
    requires w != "" && !NeedsQuotes(w)
    ensures Parse(w + Slashes(n)) == [w + Slashes(n)]
    ensures Parse(w + (" " + rest)) == [w] + Parse(rest)
    ensures Parse(" " + rest) == Parse(rest) && Parse("\t" + rest) == Parse(rest)
  {
    var arg := w + Slashes(n);
    forall i | 0 <= i < |arg| ensures !IsSpecial(arg[i]) {}
    ParsePlain(arg, "", 0, false, "");
    assert arg + "" == arg && "" + Slashes(0) + arg == arg;
    ParsePlain(w, " " + rest, 0, false, "");
    assert (" " + rest)[1..] == rest && "" + Slashes(0) + w == w;
    assert ("\t" + rest)[1..] == rest && [] + Parse(rest) == Parse(rest);
  }

  // ----- Reading back one argument -----

  /** Unquoted text without special characters is read as it stands. */
  lemma {:induction false} ParsePlain(arg: string, tail: string, slashes: nat, started: bool, read: string)
    requires !NeedsQuotes(arg) && (started || arg != "") && (tail == "" || tail[0] == ' ')
    requires started || (slashes == 0 && read == "")
    ensures ParseFrom(arg + tail, slashes, false, started, read) ==
            [read + Slashes(slashes) + arg] + if tail == "" then [] else Parse(tail[1..])
    decreases |arg|
  {
    if arg == "" {
      assert arg + tail == tail && read + Slashes(slashes) + arg == read + Slashes(slashes);
    } else {
      assert !IsSpecial(arg[0]);
      assert (arg + tail)[1..] == arg[1..] + tail;
      forall i | 0 <= i < |arg[1..]| ensures !IsSpecial(arg[1..][i]) {
        assert arg[1..][i] == arg[i + 1];
      }
      if arg[0] == '\\' {
        ParsePlain(arg[1..], tail, slashes + 1, true, read);
        assert read + Slashes(slashes + 1) + arg[1..] == read + Slashes(slashes) + arg;
      } else {
        ParsePlain(arg[1..], tail, 0, true, read + Slashes(slashes) + [arg[0]]);
        assert read + Slashes(slashes) + [arg[0]] + Slashes(0) + arg[1..] == read + Slashes(slashes) + arg;
      }
    }
  }

  /** A written argument reads back as the argument, at the end of the line or before a space. */
  lemma ParseWritten(arg: string, tail: string)
    requires arg != "" && (tail == "" || tail[0] == ' ')
    ensures Parse(Written(arg) + tail) == [arg] + if tail == "" then [] else Parse(tail[1..])
  {
    if NeedsQuotes(arg) {
      Associates("\"", Escaped(arg, 0) + "\"", tail);
      Associates("\"", Escaped(arg, 0), "\"");
      ParseQuoted(arg, tail);
    } else {
      ParsePlain(arg, tail, 0, false, "");
      assert "" + Slashes(0) + arg == arg;
    }
  }

  lemma ParseQuoted(arg: string, tail: string)
    requires tail == "" || tail[0] == ' '
    ensures Parse("\"" + (Escaped(arg, 0) + "\"" + tail)) == [arg] + if tail == "" then [] else Parse(tail[1..])
  {
    var rest := Escaped(arg, 0) + "\"" + tail;
    assert ("\"" + rest)[1..] == rest && "" + Slashes(0) == "";
    ParseEscaped(arg, 0, tail, "");
    assert "" + Slashes(0) + arg == arg && arg + Slashes(0) == arg;
  }

  /** A written argument, the space after it, and the rest of the line. */
  lemma ParseFirst(arg: string, rest: string)
    requires arg != ""
    ensures Parse(Written(arg) + " " + rest) == [arg] + Parse(rest)
  {
    ParseWritten(arg, " " + rest);
    Associates(Written(arg), " ", rest);
    assert (" " + rest)[1..] == rest;
  }

  lemma PrintedStep(args: seq<string>, tail: string)
    requires args != []
    ensures args[0] == "" ==> Printed(args) == Printed(args[1..]) && NonEmpty(args) == NonEmpty(args[1..])
    ensures args[0] != "" ==>
              && Printed(args) + tail == Written(args[0]) + " " + (Printed(args[1..]) + tail)
              && NonEmpty(args) == [args[0]] + NonEmpty(args[1..])
  {
    if args[0] == "" {
      assert [] + NonEmpty(args[1..]) == NonEmpty(args[1..]);
    } else {
      Associates(Written(args[0]) + " ", Printed(args[1..]), tail);
    }
  }

  lemma {:induction false} ParsePrinted(args: seq<string>, tail: string)
    ensures Parse(Printed(args) + tail) == NonEmpty(args) + Parse(tail)
  {
    if args == [] {
      assert Printed(args) + tail == tail && NonEmpty(args) + Parse(tail) == Parse(tail);
    } else {
      PrintedStep(args, tail);
      ParsePrinted(args[1..], tail);
      if args[0] != "" {
        ParseFirst(args[0], Printed(args[1..]) + tail);
        Associates([args[0]], NonEmpty(args[1..]), Parse(tail));
      }
    }
  }

  lemma {:induction false} EscapedIsLonger(arg: string, slashes: nat)
    ensures |Escaped(arg, slashes)| >= |arg| + slashes
    decreases |arg|
  {
    if arg != "" {
      EscapedIsLonger(arg[1..], if arg[0] == '\\' then slashes + 1 else 0);
    }
  }

  /** An argument goes on the line as it is exactly when it holds no space, tab, line feed, vertical tab or quote. */
  lemma PlainExactly(arg: string)
    ensures Written(arg) == arg <==>
            forall c :: c in arg ==> c != ' ' && c != '\t' && c != '\n' && c != '\U{000B}' && c != '"'
  {
    EscapedIsLonger(arg, 0);
    if NeedsQuotes(arg) {
      var i :| 0 <= i < |arg| && IsSpecial(arg[i]);
      assert arg[i] in arg && |Written(arg)| > |arg|;
    } else {
      forall c | c in arg ensures !IsSpecial(c) {}
    }
  }

  // ----- What stripping the line does -----

  lemma {:induction false} TrimRightConcat(a: string, b: string)
    ensures TrimRightIf(IsSpace, a + b) ==
            if TrimRightIf(IsSpace, b) == "" then TrimRightIf(IsSpace, a) else a + TrimRightIf(IsSpace, b)
    decreases |b|
  {
    if b == "" {
      assert a + b == a;
    } else if IsSpace(b[|b| - 1]) {
      assert (a + b)[..|a + b| - 1] == a + b[..|b| - 1];
      TrimRightConcat(a, b[..|b| - 1]);
    }
  }

  lemma {:induction false} PrintedConcat(a: seq<string>, b: seq<string>)
    ensures Printed(a + b) == Printed(a) + Printed(b) && NonEmpty(a + b) == NonEmpty(a) + NonEmpty(b)
  {
    if a == [] {
      assert a + b == b && "" + Printed(b) == Printed(b);
    } else {
      assert (a + b)[1..] == a[1..] + b;
      PrintedConcat(a[1..], b);
      if a[0] != "" {
        Associates(Written(a[0]) + " ", Printed(a[1..]), Printed(b));
        Associates([a[0]], NonEmpty(a[1..]), NonEmpty(b));
      }
    }
  }

  /** The arguments that come back: space at the end of the line is lost, which takes carriage returns and form
      feeds off the last argument when that is unquoted, and the whole argument when nothing else is in it. */
  function Stripped(args: seq<string>): seq<string> {
    if args == [] then []
    else
      var front, last := args[..|args| - 1], args[|args| - 1];
      if last == "" then Stripped(front)
      else if NeedsQuotes(last) then NonEmpty(args)
      else if TrimRightIf(IsSpace, last) == "" then Stripped(front)
      else NonEmpty(front) + [TrimRightIf(IsSpace, last)]
  }

  lemma PrintedLast(args: seq<string>)
    requires args != []
    ensures var front, last := args[..|args| - 1], args[|args| - 1];
            && Printed(args) == Printed(front) + (if last == "" then "" else Written(last) + " ")
            && NonEmpty(args) == NonEmpty(front) + (if last == "" then [] else [last])
  {
    var front, last := args[..|args| - 1], args[|args| - 1];
    assert args == front + [last];
    PrintedConcat(front, [last]);
    assert [last][1..] == [];
    assert Written(last) + " " + "" == Written(last) + " ";
  }

  lemma PlainPrefix(arg: string)
    requires !NeedsQuotes(arg)
    ensures !NeedsQuotes(TrimRightIf(IsSpace, arg))
  {
    TrimRightIsPrefix(IsSpace, arg);
  }

  /** What the runtime reads from the command line, for every list of arguments. */
  lemma {:induction false} CommandLineParses(args: seq<string>)
    ensures Parse(CommandLine(args)) == Stripped(args)
    decreases |args|
  {
    if args != [] {
      var front, last := args[..|args| - 1], args[|args| - 1];
      PrintedLast(args);
      CommandLineParses(front);
      if last == "" {
        assert Printed(front) + "" == Printed(front);
      } else {
        ParseLast(front, last);
      }
    }
  }

  lemma LineTrimmed(front: seq<string>, written: string)
    ensures var trimmed := TrimRightIf(IsSpace, written);
            TrimRightIf(IsSpace, Printed(front) + (written + " ")) ==
            if trimmed == "" then CommandLine(front) else Printed(front) + trimmed
  {
    TrimRightConcat(written, " ");
    assert TrimRightIf(IsSpace, " ") == "";
    TrimRightConcat(Printed(front), written + " ");
  }

  /** The line with one more argument on it. */
  lemma ParseLast(front: seq<string>, last: string)
    requires last != ""
    ensures var line := TrimRightIf(IsSpace, Printed(front) + (Written(last) + " "));
            var trimmed := TrimRightIf(IsSpace, last);
            if NeedsQuotes(last) then Parse(line) == NonEmpty(front) + [last]
            else if trimmed == "" then line == CommandLine(front)
            else Parse(line) == NonEmpty(front) + [trimmed]
  {
    var trimmed := TrimRightIf(IsSpace, last);
    WrittenTrimmed(last);
    LineTrimmed(front, Written(last));
    if NeedsQuotes(last) {
      ParseWithLast(front, last);
    } else if trimmed != "" {
      PlainPrefix(last);
      ParseWithLast(front, trimmed);
    }
  }

  lemma ParseWithLast(front: seq<string>, last: string)
    requires last != ""
    ensures Parse(Printed(front) + Written(last)) == NonEmpty(front) + [last]
  {
    assert Written(last) + "" == Written(last);
    ParsePrinted(front, Written(last));
    ParseWritten(last, "");
  }

  lemma WrittenTrimmed(arg: string)
    ensures NeedsQuotes(arg) ==> TrimRightIf(IsSpace, Written(arg)) == Written(arg)
    ensures !NeedsQuotes(arg) ==> TrimRightIf(IsSpace, Written(arg)) == TrimRightIf(IsSpace, arg)
  {
    if NeedsQuotes(arg) {
      var written := Written(arg);
      assert written[|written| - 1] == '"';
    }
  }

  /** The last argument is unquoted and ends in a character the final strip takes off. */
  predicate LosesItsEnd(args: seq<string>) {
    var kept := NonEmpty(args);
    kept != [] &&
    var last := kept[|kept| - 1];
    !NeedsQuotes(last) && last != "" && (last[|last| - 1] == '\r' || last[|last| - 1] == '\U{000C}')
  }

  lemma {:induction false} StrippedIsShorter(args: seq<string>)
    ensures |Stripped(args)| <= |NonEmpty(args)|
    decreases |args|
  {
    if args != [] {
      PrintedLast(args);
      StrippedIsShorter(args[..|args| - 1]);
    }
  }

  lemma TrimLoses(arg: string)
    requires arg != "" && !NeedsQuotes(arg)
    ensures TrimRightIf(IsSpace, arg) != arg <==> arg[|arg| - 1] == '\r' || arg[|arg| - 1] == '\U{000C}'
  {
    assert !IsSpecial(arg[|arg| - 1]);
  }

  lemma LosesMeans(args: seq<string>)
    requires args != []
    ensures var front, last := args[..|args| - 1], args[|args| - 1];
            LosesItsEnd(args) <==>
            if last == "" then LosesItsEnd(front) else !NeedsQuotes(last) && TrimRightIf(IsSpace, last) != last
  {
    PrintedLast(args);
    var last := args[|args| - 1];
    if last != "" {
      assert NonEmpty(args)[|NonEmpty(args)| - 1] == last;
      if !NeedsQuotes(last) {
        TrimLoses(last);
      }
    }
  }

  lemma {:induction false} StrippedExactly(args: seq<string>)
    ensures Stripped(args) == NonEmpty(args) <==> !LosesItsEnd(args)
    decreases |args|
  {
    if args != [] {
      var front, last := args[..|args| - 1], args[|args| - 1];
      PrintedLast(args);
      LosesMeans(args);
      if last == "" {
        StrippedExactly(front);
      } else if !NeedsQuotes(last) {
        var trimmed := TrimRightIf(IsSpace, last);
        if trimmed == "" {
          StrippedIsShorter(front);
          assert |Stripped(args)| < |NonEmpty(args)|;
        } else {
          DifferentLast(NonEmpty(front), trimmed, last);
        }
      }
    }
  }

  lemma DifferentLast(front: seq<string>, a: string, b: string)
    ensures front + [a] == front + [b] <==> a == b
  {
    assert (front + [a])[|front|] == a && (front + [b])[|front|] == b;
  }

  /** Quoting round trip: the runtime reads back the arguments, without the empty ones, exactly when the last of
      them does not both go unquoted and end in a carriage return or a form feed. */
  lemma RoundTripExactly(args: seq<string>)
    ensures Parse(CommandLine(args)) == NonEmpty(args) <==> !LosesItsEnd(args)
  {
    CommandLineParses(args);
    StrippedExactly(args);
  }

  /** In particular when no argument holds a carriage return or a form feed. */
  lemma RoundTrip(args: seq<string>)
    requires forall arg, c :: arg in args && c in arg ==> c != '\r' && c != '\U{000C}'
    ensures Parse(CommandLine(args)) == NonEmpty(args)
  {
    RoundTripExactly(args);
    NonEmptyIn(args);
    var kept := NonEmpty(args);
    if kept != [] {
      var last := kept[|kept| - 1];
      assert last in kept;
      assert last != "" ==> last[|last| - 1] in last;
    }
  }

  lemma {:induction false} NonEmptyIn(args: seq<string>)
    ensures forall arg :: arg in NonEmpty(args) <==> arg in args && arg != ""
  {
    if args != [] {
      NonEmptyIn(args[1..]);
    }
  }

  // ----- The printer as it runs -----

  method ArgvToCommandLine(arguments: seq<string>) returns (line: string)
    ensures line == CommandLine(arguments)
  {
    line := "";
    for i := 0 to |arguments|
      invariant line == Printed(arguments[..i])
    {
      var arg := arguments[i];
      PrintedLast(arguments[..i + 1]);
      assert arguments[..i + 1][..i] == arguments[..i];
      if arg == "" {
        continue;
      } else if !NeedsQuotes(arg) {
        line := line + arg;
      } else {
        var quoted := Quote(arg);
        line := line + quoted;
      }
      line := line + " ";
    }
    assert arguments[..|arguments|] == arguments;
    line := TrimRightIf(IsSpace, line);
  }

  method Quote(arg: string) returns (line: string)
    ensures line == "\"" + Escaped(arg, 0) + "\""
  {
    line := "\"";
    var i := 0;
    assert arg[0..] == arg;
    while true
      invariant 0 <= i <= |arg|
      invariant line + Escaped(arg[i..], 0) == "\"" + Escaped(arg, 0)
      decreases |arg| - i
    {
      var slashes := 0;
      while i < |arg| && arg[i] == '\\'
        invariant 0 <= i <= |arg|
        invariant line + Escaped(arg[i..], slashes) == "\"" + Escaped(arg, 0)
      {
        assert arg[i..][1..] == arg[i + 1..];
        i := i + 1;
        slashes := slashes + 1;
      }
      if i == |arg| {
        line := line + Slashes(2 * slashes);
        break;
      }
      assert arg[i..][0] == arg[i] && arg[i..][1..] == arg[i + 1..];
      EscapedHead(arg[i..], slashes);
      Associates(line, Slashes(Held(arg[i], slashes)) + [arg[i]], Escaped(arg[i + 1..], 0));
      if arg[i] == '"' {
        line := line + (Slashes(2 * slashes + 1) + [arg[i]]);
      } else {
        line := line + (Slashes(slashes) + [arg[i]]);
      }
      i := i + 1;
    }
    line := line + "\"";
  }
}
