/** Dotted queries: the scan of query_value, and the text it reads back exactly. */
module Query {
  import opened Sequences
  import opened Values
  import opened FactStore
  import opened Text

  // ----- One lookup -----

  predicate IsDigit(c: char) { '0' <= c <= '9' }

  function LeadingDigits(s: string): string {
    if s != "" && IsDigit(s[0]) then [s[0]] + LeadingDigits(s[1..]) else ""
  }

  function Decimal(digits: string): nat
    requires forall c :: c in digits ==> IsDigit(c)
  {
    if digits == "" then 0
    else
      var last := digits[|digits| - 1];
      assert IsDigit(last);
      10 * Decimal(digits[..|digits| - 1]) + (last as int - '0' as int)
  }

  lemma LeadingDigitsAreDigits(s: string)
    ensures forall c :: c in LeadingDigits(s) ==> IsDigit(c)
  {
  }

  /** std::stoi: leading space, a sign, at least one digit, anything after; null for what it throws on. */
  function Stoi(s: string): Option<int> {
    var body := TrimLeftIf(IsSpace, s);
    var signed := body != "" && (body[0] == '-' || body[0] == '+');
    var digits := LeadingDigits(if signed then body[1..] else body);
    LeadingDigitsAreDigits(if signed then body[1..] else body);
    if digits == "" then None
    else
      var magnitude: int := Decimal(digits);
      var n := if signed && body[0] == '-' then -magnitude else magnitude;
      if -0x8000_0000 <= n <= 0x7fff_ffff then Some(n) else None
  }

  function Element(value: Value, name: string): Option<Value> {
    match value
    case MapValue(entries) => Lookup(entries, name)
    case ArrayValue(elements) =>
      (match Stoi(name)
       case None => None
       case Some(i) => if 0 <= i < |elements| then Some(elements[i]) else None)
    case _ => None
  }

  // ----- Which element an index names -----

  function DecimalText(n: nat): string {
    var digit := ('0' as int + n % 10) as char;
    if n < 10 then [digit] else DecimalText(n / 10) + [digit]
  }

  lemma {:induction false} DecimalReads(n: nat)
    ensures DecimalText(n) != "" && forall c :: c in DecimalText(n) ==> IsDigit(c)
    ensures Decimal(DecimalText(n)) == n
  {
    var text := DecimalText(n);
    if n < 10 {
      assert text[..0] == "";
    } else {
      DecimalReads(n / 10);
      assert text[..|text| - 1] == DecimalText(n / 10);
    }
  }

  lemma {:induction false} LeadingDigitsOf(digits: string, rest: string)
    requires (forall c :: c in digits ==> IsDigit(c)) && (rest != "" ==> !IsDigit(rest[0]))
    ensures LeadingDigits(digits + rest) == digits
  {
    if digits == "" {
      assert digits + rest == rest;
    } else {
      assert (digits + rest)[1..] == digits[1..] + rest;
      LeadingDigitsOf(digits[1..], rest);
    }
  }

  predicate IsSign(sign: string) { sign == "" || sign == "+" || sign == "-" }

  lemma StoiReads(space: string, sign: string, n: nat, rest: string)
    requires (forall c :: c in space ==> IsSpace(c)) && IsSign(sign) && (rest != "" ==> !IsDigit(rest[0]))
    ensures var i := if sign == "-" then -(n as int) else n;
            Stoi(space + (sign + (DecimalText(n) + rest))) == if -0x8000_0000 <= i <= 0x7fff_ffff then Some(i) else None
  {
    var digits := DecimalText(n) + rest;
    var body := sign + digits;
    DecimalReads(n);
    assert IsDigit(DecimalText(n)[0]);
    LeadingDigitsOf(DecimalText(n), rest);
    TrimLeftOf(IsSpace, space, body);
    if sign == "" {
      assert body == digits;
    } else {
      assert body[1..] == digits;
    }
  }

  /** An array element is named by its decimal index, with any space before it, any sign that does not make it
      negative, and anything but a digit after it. */
  lemma ElementNamed(elements: seq<Value>, space: string, sign: string, n: nat, rest: string)
    requires (forall c :: c in space ==> IsSpace(c)) && IsSign(sign) && (rest != "" ==> !IsDigit(rest[0]))
    ensures Element(ArrayValue(elements), space + (sign + (DecimalText(n) + rest))) ==
            if n < |elements| && n <= 0x7fff_ffff && (sign == "-" ==> n == 0) then Some(elements[n]) else None
  {
    StoiReads(space, sign, n, rest);
  }

  function LookupStep(reg: Registry, s: Store, current: Option<Value>, name: string): (Store, Option<Value>) {
    match current
    case None => var t := Resolve(reg, s, name); (t, Lookup(t.facts, name))
    case Some(value) => (s, Element(value, name))
  }

  // ----- The query -----

  function Scan(reg: Registry, s: Store, rest: string, inQuotes: bool, segment: string, current: Option<Value>)
    : (Store, Option<Value>)
    decreases rest
  {
    if rest == "" then
      if segment == "" then (s, current) else LookupStep(reg, s, current, segment)
    else if rest[0] == '"' then Scan(reg, s, rest[1..], !inQuotes, segment, current)
    else if inQuotes || rest[0] != '.' then Scan(reg, s, rest[1..], inQuotes, segment + [rest[0]], current)
    else
      var (t, value) := LookupStep(reg, s, current, segment);
      if value.None? then (t, None) else Scan(reg, t, rest[1..], inQuotes, "", value)
  }

  function QueryValue(reg: Registry, s: Store, query: string): (Store, Option<Value>) {
    var t := Resolve(reg, s, query);
    if query in t.facts then (t, Some(t.facts[query])) else Scan(reg, t, query, false, "", None)
  }

  /** The left fold of lookup over the segments. A miss ends it: the next segment is never looked up as a
      top-level fact. */
  function Fold(reg: Registry, s: Store, current: Option<Value>, segments: seq<string>): (Store, Option<Value>)
    decreases segments
  {
    if segments == [] then (s, current)
    else
      var (t, value) := LookupStep(reg, s, current, segments[0]);
      if value.None? then (t, None) else Fold(reg, t, value, segments[1..])
  }

  // ----- The segments of a query -----

  /** The pieces of a text between its unquoted dots, without its quotes. */
  function Segments(text: string, quoted: bool): (segments: seq<string>)
    ensures segments != []
  {
    if text == "" then [""]
    else if text[0] == '"' then Segments(text[1..], !quoted)
    else
      var rest := Segments(text[1..], quoted);
      if text[0] == '.' && !quoted then [""] + rest else [[text[0]] + rest[0]] + rest[1..]
  }

  /** Only the last segment is not looked up when it is empty. */
  function LookedUp(segments: seq<string>): seq<string>
    requires segments != []
  {
    var last := |segments| - 1;
    if segments[last] == "" then segments[..last] else segments
  }

  lemma LookedUpRest(first: string, rest: seq<string>)
    requires rest != []
    ensures LookedUp([first] + rest) == [first] + LookedUp(rest)
  {
    var all := [first] + rest;
    assert all[|all| - 1] == rest[|rest| - 1];
  }

  lemma {:induction false} ScanIsFold(reg: Registry, s: Store, rest: string, inQuotes: bool, segment: string,
                                      current: Option<Value>)
    ensures var segments := Segments(rest, inQuotes);
            Scan(reg, s, rest, inQuotes, segment, current) ==
            Fold(reg, s, current, LookedUp([segment + segments[0]] + segments[1..]))
    decreases rest
  {
    if rest == "" {
      assert segment + "" == segment && [segment][1..] == [] && [segment] + [] == [segment];
    } else if rest[0] == '"' {
      ScanIsFold(reg, s, rest[1..], !inQuotes, segment, current);
    } else {
      var later := Segments(rest[1..], inQuotes);
      if inQuotes || rest[0] != '.' {
        ScanIsFold(reg, s, rest[1..], inQuotes, segment + [rest[0]], current);
        Associates(segment, [rest[0]], later[0]);
      } else {
        ScanDot(reg, s, rest[1..], segment, current);
        FirstJoined("", later);
        assert segment + "" == segment && ([""] + later)[1..] == later;
        var (t, value) := LookupStep(reg, s, current, segment);
        if value.Some? {
          ScanIsFold(reg, t, rest[1..], false, "", value);
        }
      }
    }
  }

  lemma FirstJoined(nothing: string, segments: seq<string>)
    requires nothing == "" && segments != []
    ensures [nothing + segments[0]] + segments[1..] == segments
  {
    assert nothing + segments[0] == segments[0];
  }

  /** A dot looks the segment before it up. */
  lemma ScanDot(reg: Registry, s: Store, rest: string, segment: string, current: Option<Value>)
    ensures var (t, value) := LookupStep(reg, s, current, segment);
            Fold(reg, s, current, LookedUp([segment] + Segments(rest, false))) ==
            if value.None? then (t, None) else Fold(reg, t, value, LookedUp(Segments(rest, false)))
  {
    var later := Segments(rest, false);
    LookedUpRest(segment, later);
    assert ([segment] + LookedUp(later))[1..] == LookedUp(later);
  }

  /** Every query is the fold of lookup over its segments, unless a fact is named like the whole text. */
  lemma QueryIsFold(reg: Registry, s: Store, query: string)
    ensures var t := Resolve(reg, s, query);
            QueryValue(reg, s, query) ==
            if query in t.facts then (t, Some(t.facts[query])) else Fold(reg, t, None, LookedUp(Segments(query, false)))
  {
    var segments := Segments(query, false);
    ScanIsFold(reg, Resolve(reg, s, query), query, false, "", None);
    FirstJoined("", segments);
  }

  // ----- What a query finds -----

  /** Follow a path down nested maps and arrays: the value at its end, or null when a key is missing, an index names no
      element, or a scalar is met before the end. */
  function Walk(value: Value, path: seq<string>): Option<Value>
    decreases path
  {
    if path == [] then Some(value)
    else
      match value
      case MapValue(entries) => if path[0] in entries then Walk(entries[path[0]], path[1..]) else None
      case ArrayValue(elements) =>
        var index := Stoi(path[0]);
        if index.Some? && 0 <= index.value < |elements| then Walk(elements[index.value], path[1..]) else None
      case _ => None
  }

  lemma {:induction false} FoldWalks(reg: Registry, s: Store, value: Value, path: seq<string>)
    ensures Fold(reg, s, Some(value), path) == (s, Walk(value, path))
    decreases path
  {
    if path != [] {
      var (t, next) := LookupStep(reg, s, Some(value), path[0]);
      if next.Some? {
        FoldWalks(reg, s, next.value, path[1..]);
      }
    }
  }

  lemma FoldFromTop(reg: Registry, s: Store, path: seq<string>)
    requires path != []
    ensures var t := Resolve(reg, s, path[0]);
            Fold(reg, s, None, path) == (t, Walk(MapValue(t.facts), path))
  {
    var t := Resolve(reg, s, path[0]);
    if path[0] in t.facts {
      FoldWalks(reg, t, t.facts[path[0]], path[1..]);
    }
  }

  /** Every query resolves the fact named like the whole text and returns it; or else it resolves the fact that its
      first segment names, and no other, and follows the segments down from the facts. */
  lemma QueryWalks(reg: Registry, s: Store, query: string)
    ensures var path := LookedUp(Segments(query, false));
            var t := Resolve(reg, s, query);
            QueryValue(reg, s, query) ==
            if query in t.facts then (t, Some(t.facts[query]))
            else if path == [] then (t, None)
            else var u := Resolve(reg, t, path[0]); (u, Walk(MapValue(u.facts), path))
  {
    var path := LookedUp(Segments(query, false));
    QueryIsFold(reg, s, query);
    if path != [] {
      FoldFromTop(reg, Resolve(reg, s, query), path);
    }
  }

  /** What a query finds among facts that are all resolved. */
  function QueryIn(facts: map<string, Value>, query: string): Option<Value> {
    var path := LookedUp(Segments(query, false));
    if query in facts then Some(facts[query]) else if path == [] then None else Walk(MapValue(facts), path)
  }

  // ----- Writing a query -----

  datatype Segment = Plain(text: string) | Quoted(text: string)

  predicate Writable(segment: Segment) {
    '"' !in segment.text && (segment.Plain? ==> '.' !in segment.text)
  }

  function Written(segment: Segment): string {
    if segment.Plain? then segment.text else "\"" + segment.text + "\""
  }

  function Joined(segments: seq<Segment>): string
    requires segments != []
  {
    if |segments| == 1 then Written(segments[0]) else Written(segments[0]) + ("." + Joined(segments[1..]))
  }

  function Texts(segments: seq<Segment>): seq<string> {
    if segments == [] then [] else [segments[0].text] + Texts(segments[1..])
  }

  /** A run of characters that holds no quote, and no dot unless it is inside quotes, only lengthens a segment. */
  lemma {:induction false} SegmentsOfText(text: string, rest: string, quoted: bool)
    requires '"' !in text && (quoted || '.' !in text)
    ensures var segments := Segments(rest, quoted);
            Segments(text + rest, quoted) == [text + segments[0]] + segments[1..]
  {
    var segments := Segments(rest, quoted);
    if text == "" {
      assert text + rest == rest && text + segments[0] == segments[0];
    } else {
      assert (text + rest)[1..] == text[1..] + rest;
      SegmentsOfText(text[1..], rest, quoted);
      assert [text[0]] + (text[1..] + segments[0]) == text + segments[0];
    }
  }

  lemma SegmentsOfWritten(segment: Segment, rest: string)
    requires Writable(segment)
    ensures var segments := Segments(rest, false);
            Segments(Written(segment) + rest, false) == [segment.text + segments[0]] + segments[1..]
  {
    if segment.Plain? {
      SegmentsOfText(segment.text, rest, false);
    } else {
      assert (Written(segment) + rest)[1..] == segment.text + ("\"" + rest);
      SegmentsOfText(segment.text, "\"" + rest, true);
      assert ("\"" + rest)[1..] == rest;
    }
  }

  /** A text written from segments has these segments. */
  lemma {:induction false} SegmentsJoined(segments: seq<Segment>)
    requires segments != [] && forall segment :: segment in segments ==> Writable(segment)
    ensures Segments(Joined(segments), false) == Texts(segments)
    decreases segments
  {
    var first := segments[0];
    assert first.text + "" == first.text;
    if |segments| == 1 {
      assert Written(first) + "" == Written(first);
      SegmentsOfWritten(first, "");
      assert Texts(segments) == [first.text];
    } else {
      var rest := Joined(segments[1..]);
      SegmentsJoined(segments[1..]);
      assert ("." + rest)[1..] == rest;
      SegmentsOfWritten(first, "." + rest);
    }
  }

  /** A query written from plain or quoted segments is the fold of lookup over them. */
  lemma QueryFolds(reg: Registry, s: Store, segments: seq<Segment>)
    requires segments != [] && forall segment :: segment in segments ==> Writable(segment)
    ensures var query := Joined(segments);
            var t := Resolve(reg, s, query);
            QueryValue(reg, s, query) ==
            if query in t.facts then (t, Some(t.facts[query])) else Fold(reg, t, None, LookedUp(Texts(segments)))
  {
    QueryIsFold(reg, s, Joined(segments));
    SegmentsJoined(segments);
  }

  /** A query joined from segments finds what is at the end of the path they spell. */
  lemma JoinedQueryWalks(reg: Registry, s: Store, segments: seq<Segment>)
    requires segments != [] && forall segment :: segment in segments ==> Writable(segment)
    requires segments[|segments| - 1].text != ""
    ensures var query := Joined(segments);
            var t := Resolve(reg, s, query);
            var u := Resolve(reg, t, segments[0].text);
            query !in t.facts ==> QueryValue(reg, s, query) == (u, Walk(MapValue(u.facts), Texts(segments)))
  {
    SegmentsJoined(segments);
    TextsAre(segments);
    QueryWalks(reg, s, Joined(segments));
  }

  lemma {:induction false} TextsAre(segments: seq<Segment>)
    ensures |Texts(segments)| == |segments|
    ensures forall i :: 0 <= i < |segments| ==> Texts(segments)[i] == segments[i].text
  {
    if segments != [] {
      TextsAre(segments[1..]);
    }
  }

  /** Once a prefix of the path misses, the whole query is null, whatever top-level facts exist. */
  lemma {:induction false} MissEndsFold(reg: Registry, s: Store, current: Option<Value>, front: seq<string>,
                                        back: seq<string>)
    requires front != [] && Fold(reg, s, current, front).1.None?
    ensures Fold(reg, s, current, front + back) == Fold(reg, s, current, front)
    decreases front
  {
    var (t, value) := LookupStep(reg, s, current, front[0]);
    assert (front + back)[1..] == front[1..] + back;
    if value.Some? {
      MissEndsFold(reg, t, value, front[1..], back);
    }
  }

  // ----- Normalisation of command-line queries -----

  predicate Trimmable(c: char) { c == '.' || IsSpace(c) }

  /** std::unique on consecutive dots: each dot after a dot goes. */
  function Squeezed(s: string): (t: string)
    ensures s != "" ==> t != "" && t[0] == s[0] && t[|t| - 1] == s[|s| - 1]
    ensures s == "" ==> t == ""
    ensures forall i :: 0 <= i < |t| - 1 ==> !(t[i] == '.' && t[i + 1] == '.')
    ensures forall c :: c in t ==> c in s
  {
    if |s| < 2 then s
    else if s[0] == '.' && s[1] == '.' then Squeezed(s[1..])
    else [s[0]] + Squeezed(s[1..])
  }

  function Normalized(query: string): string {
    Squeezed(TrimRightIf(Trimmable, TrimLeftIf(Trimmable, query)))
  }

  predicate Normal(s: string) {
    && (s != "" ==> !Trimmable(s[0]) && !Trimmable(s[|s| - 1]))
    && forall i :: 0 <= i < |s| - 1 ==> !(s[i] == '.' && s[i + 1] == '.')
  }

  predicate IsDot(c: char) { c == '.' }

  /** The pieces between dots. */
  function Pieces(s: string): seq<string> {
    Split(IsDot, s)
  }

  lemma PiecesStep(s: string)
    requires s != ""
    ensures Pieces(s) == var rest := Pieces(s[1..]);
                         if s[0] == '.' then [""] + rest else [[s[0]] + rest[0]] + rest[1..]
  {
    assert IsDot(s[0]) == (s[0] == '.');
  }

  /** Without quotes the segments are what is between the dots. */
  lemma {:induction false} UnquotedSegments(text: string)
    requires '"' !in text
    ensures Segments(text, false) == Pieces(text)
  {
    if text != "" {
      PiecesStep(text);
      UnquotedSegments(text[1..]);
    }
  }

  /** A piece is empty only next to an end of the text or between two dots. */
  lemma {:induction false} PiecesNonEmpty(s: string)
    requires s != "" && s[|s| - 1] != '.' && forall i :: 0 <= i < |s| - 1 ==> !(s[i] == '.' && s[i + 1] == '.')
    ensures forall i :: 0 < i < |Pieces(s)| ==> Pieces(s)[i] != ""
    ensures s[0] != '.' ==> Pieces(s)[0] != ""
  {
    PiecesStep(s);
    if |s| > 1 {
      forall i | 0 <= i < |s[1..]| - 1 ensures !(s[1..][i] == '.' && s[1..][i + 1] == '.') {
        assert s[i + 1] == s[1..][i] && s[i + 2] == s[1..][i + 1];
      }
      PiecesNonEmpty(s[1..]);
    } else {
      assert Pieces(s[1..]) == [""];
    }
  }

  lemma NormalizedIsNormal(query: string)
    ensures Normal(Normalized(query))
  {
    var left := TrimLeftIf(Trimmable, query);
    var both := TrimRightIf(Trimmable, left);
    TrimRightIsPrefix(Trimmable, left);
    if both != "" {
      assert both[0] == left[0];
    }
  }

  lemma SqueezedFixed(s: string)
    requires forall i :: 0 <= i < |s| - 1 ==> !(s[i] == '.' && s[i + 1] == '.')
    ensures Squeezed(s) == s
  {
    if |s| >= 2 {
      assert !(s[0] == '.' && s[0 + 1] == '.');
      forall i | 0 <= i < |s[1..]| - 1 ensures !(s[1..][i] == '.' && s[1..][i + 1] == '.') {
        assert s[i + 1] == s[1..][i] && s[i + 2] == s[1..][i + 1];
      }
      SqueezedFixed(s[1..]);
    }
  }

  /** Normalising is idempotent. */
  lemma NormalizedTwice(query: string)
    ensures Normalized(Normalized(query)) == Normalized(query)
  {
    NormalizedIsNormal(query);
    var q := Normalized(query);
    assert TrimLeftIf(Trimmable, q) == q && TrimRightIf(Trimmable, q) == q;
    SqueezedFixed(q);
  }

  lemma NormalizedPieces(argument: string)
    requires Normalized(argument) != ""
    ensures forall piece :: piece in Pieces(Normalized(argument)) ==> piece != ""
  {
    var query := Normalized(argument);
    NormalizedIsNormal(argument);
    PiecesNonEmpty(query);
    forall i | 0 <= i < |Pieces(query)| ensures Pieces(query)[i] != "" {}
  }

  lemma NormalizedIn(argument: string)
    ensures forall c :: c in Normalized(argument) ==> c in argument
  {
    TrimLeftIsSuffix(Trimmable, argument);
    TrimRightIsPrefix(Trimmable, TrimLeftIf(Trimmable, argument));
  }

  // ----- What normalising keeps -----

  lemma {:induction false} NonEmptyAll(pieces: seq<string>)
    requires forall i :: 0 <= i < |pieces| ==> pieces[i] != ""
    ensures NonEmpty(pieces) == pieces
  {
    if pieces != [] {
      NonEmptyAll(pieces[1..]);
    }
  }

  /** Dropping repeated dots drops only empty pieces. */
  lemma {:induction false} SqueezedPieces(s: string)
    ensures Pieces(Squeezed(s))[0] == Pieces(s)[0]
    ensures NonEmpty(Pieces(Squeezed(s))[1..]) == NonEmpty(Pieces(s)[1..])
  {
    if |s| >= 2 {
      var rest := s[1..];
      SqueezedPieces(rest);
      PiecesStep(s);
      PiecesStep(rest);
      if s[0] == '.' && s[1] == '.' {
        assert Pieces(s)[1..] == Pieces(rest) && Pieces(rest)[0] == "";
      } else {
        var t := [s[0]] + Squeezed(rest);
        assert t[1..] == Squeezed(rest);
        PiecesStep(t);
        if s[0] == '.' {
          assert Pieces(t)[1..] == Pieces(Squeezed(rest)) && Pieces(s)[1..] == Pieces(rest);
        }
      }
    }
  }

  lemma {:induction false} TrimLeftDrops(s: string) returns (before: string)
    ensures s == before + TrimLeftIf(Trimmable, s) && forall c :: c in before ==> Trimmable(c)
  {
    before := "";
    if s != "" && Trimmable(s[0]) {
      var rest := TrimLeftDrops(s[1..]);
      before := [s[0]] + rest;
      Associates([s[0]], rest, TrimLeftIf(Trimmable, s));
    }
  }

  lemma {:induction false} TrimRightDrops(s: string) returns (after: string)
    ensures s == TrimRightIf(Trimmable, s) + after && forall c :: c in after ==> Trimmable(c)
  {
    after := "";
    if s != "" && Trimmable(s[|s| - 1]) {
      var rest := TrimRightDrops(s[..|s| - 1]);
      after := rest + [s[|s| - 1]];
      Associates(TrimRightIf(Trimmable, s), rest, [s[|s| - 1]]);
    }
  }

  lemma TrimDrops(s: string) returns (before: string, kept: string, after: string)
    ensures s == before + kept + after && kept == TrimRightIf(Trimmable, TrimLeftIf(Trimmable, s))
    ensures forall c :: c in before || c in after ==> Trimmable(c)
    ensures kept != "" ==> !Trimmable(kept[0]) && !Trimmable(kept[|kept| - 1])
  {
    var left := TrimLeftIf(Trimmable, s);
    before := TrimLeftDrops(s);
    after := TrimRightDrops(left);
    kept := TrimRightIf(Trimmable, left);
    Associates(before, kept, after);
    if kept != "" {
      assert left[0] == kept[0];
    }
  }

  lemma SqueezedKeeps(s: string)
    requires s != "" && s[0] != '.' && s[|s| - 1] != '.'
    ensures Pieces(Squeezed(s)) == NonEmpty(Pieces(s))
  {
    var pieces, squeezed := Pieces(s), Pieces(Squeezed(s));
    PiecesNonEmpty(Squeezed(s));
    NonEmptyAll(squeezed[1..]);
    SqueezedPieces(s);
    assert squeezed == [squeezed[0]] + squeezed[1..];
  }

  /** Normalising takes dots and spaces off both ends, and of what is left keeps exactly the non-empty pieces between
      dots, in order. */
  lemma NormalizedKeeps(argument: string) returns (before: string, kept: string, after: string)
    ensures argument == before + kept + after
    ensures forall c :: c in before || c in after ==> c == '.' || IsSpace(c)
    ensures if kept == "" then Normalized(argument) == ""
            else
              && kept[0] != '.' && !IsSpace(kept[0]) && kept[|kept| - 1] != '.' && !IsSpace(kept[|kept| - 1])
              && Normalized(argument) != "" && Pieces(Normalized(argument)) == NonEmpty(Pieces(kept))
  {
    before, kept, after := TrimDrops(argument);
    if kept != "" {
      SqueezedKeeps(kept);
    }
  }

  /** A normalised query without quotes is the fold of lookup over its non-empty pieces. */
  lemma NormalizedQueryFolds(reg: Registry, s: Store, argument: string)
    requires Normalized(argument) != "" && '"' !in argument
    ensures var query := Normalized(argument);
            var t := Resolve(reg, s, query);
            && (forall piece :: piece in Pieces(query) ==> piece != "")
            && QueryValue(reg, s, query) ==
               if query in t.facts then (t, Some(t.facts[query])) else Fold(reg, t, None, Pieces(query))
  {
    var query := Normalized(argument);
    NormalizedPieces(argument);
    NormalizedIn(argument);
    UnquotedSegments(query);
    QueryIsFold(reg, s, query);
    assert Pieces(query)[|Pieces(query)| - 1] in Pieces(query);
  }

  /** The set of queries the program runs: every argument normalised, the empty ones dropped. */
  function Queries(arguments: seq<string>): set<string> {
    if arguments == [] then {}
    else
      var query := Normalized(arguments[|arguments| - 1]);
      Queries(arguments[..|arguments| - 1]) + if query == "" then {} else {query}
  }

  lemma {:induction false} QueriesAre(arguments: seq<string>, query: string)
    ensures query in Queries(arguments) <==>
            query != "" && exists i :: 0 <= i < |arguments| && Normalized(arguments[i]) == query
    decreases |arguments|
  {
    if arguments != [] {
      var front := arguments[..|arguments| - 1];
      QueriesAre(front, query);
      assert forall i :: 0 <= i < |front| ==> arguments[i] == front[i];
    }
  }

  method NormalizeQueries(arguments: seq<string>) returns (queries: set<string>)
    ensures queries == Queries(arguments)
  {
    queries := {};
    for i := 0 to |arguments|
      invariant queries == Queries(arguments[..i])
    {
      var query := EraseDuplicateDots(TrimRightIf(Trimmable, TrimLeftIf(Trimmable, arguments[i])));
      assert arguments[..i + 1][..i] == arguments[..i];
      if query == "" {
        continue;
      }
      queries := queries + {query};
    }
    assert arguments[..|arguments|] == arguments;
  }

  lemma {:induction false} SqueezedAppend(s: string, c: char)
    ensures Squeezed(s + [c]) == if s != "" && s[|s| - 1] == '.' && c == '.' then Squeezed(s) else Squeezed(s) + [c]
  {
    if |s| >= 2 {
      assert (s + [c])[1..] == s[1..] + [c];
      SqueezedAppend(s[1..], c);
    }
  }

  /** unique: keep each character that is not a dot repeating the last one kept. */
  method EraseDuplicateDots(s: string) returns (t: string)
    ensures t == Squeezed(s)
  {
    t := "";
    for i := 0 to |s|
      invariant t == Squeezed(s[..i])
    {
      assert s[..i + 1] == s[..i] + [s[i]];
      SqueezedAppend(s[..i], s[i]);
      if t != "" && t[|t| - 1] == '.' && s[i] == '.' {
        continue;
      }
      t := t + [s[i]];
    }
    assert s[..|s|] == s;
  }
}
