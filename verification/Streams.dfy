/** Turning a child's output into lines: the incremental splitter, and the proof that it agrees with splitting the
    whole stream, wherever the stream was cut into chunks. */
module Streams {
  import opened Sequences
  import opened Values
  import opened Text

  predicate IsNewline(c: char) { c == '\n' || c == '\r' }

  /** A callback sees the lines delivered so far, the new one last, and says whether it wants more. */
  type Callback = seq<string> -> bool

  datatype Stream = Stream(buffer: string, delivered: seq<string>)

  // ----- The meaning of a whole stream -----

  function Shaped(trim: bool, text: string): string {
    if trim then Trim(text) else text
  }

  function Emitted(trim: bool, text: string): seq<string> {
    if Shaped(trim, text) == "" then [] else [Shaped(trim, text)]
  }

  function Kept(trim: bool, pieces: seq<string>): seq<string> {
    if pieces == [] then [] else Emitted(trim, pieces[0]) + Kept(trim, pieces[1..])
  }

  /** The lines of a stream: split at every newline character, shaped, the empty ones dropped. */
  function Lines(trim: bool, stream: string): seq<string> {
    Kept(trim, Split(IsNewline, stream))
  }

  /** Delivering lines to a callback up to the first one it rejects, which is still delivered; and whether it
      wants more. */
  function Deliver(callback: Callback, delivered: seq<string>, lines: seq<string>): (seq<string>, bool)
    decreases |lines|
  {
    if lines == [] then (delivered, true)
    else
      var now := delivered + [lines[0]];
      if callback(now) then Deliver(callback, now, lines[1..]) else (now, false)
  }

  // ----- process_data -----

  /** The position of the last newline character, or -1. */
  function LastNewline(data: string): (k: int)
    ensures -1 <= k < |data|
    ensures k >= 0 ==> IsNewline(data[k])
    ensures forall i :: k < i < |data| ==> !IsNewline(data[i])
  {
    if data == "" then -1
    else if IsNewline(data[|data| - 1]) then |data| - 1
    else LastNewline(data[..|data| - 1])
  }

  /** The loop over the lines of a chunk. The first is appended to what the previous chunk left. */
  function Feed(trim: bool, callback: Callback, tokens: seq<string>, s: Stream): (Stream, bool)
    decreases |tokens|
  {
    if tokens == [] then (s, true)
    else
      var line := Shaped(trim, s.buffer + tokens[0]);
      if line == "" then Feed(trim, callback, tokens[1..], Stream("", s.delivered))
      else
        var now := s.delivered + [line];
        if callback(now) then Feed(trim, callback, tokens[1..], Stream("", now)) else (Stream("", now), false)
  }

  function ProcessData(trim: bool, callback: Option<Callback>, data: string, s: Stream): (Stream, bool) {
    var k := LastNewline(data);
    if callback.None? || k < 0 then (s.(buffer := s.buffer + data), true)
    else
      var (t, more) := Feed(trim, callback.value, Tokens(IsNewline, data[..k]), s);
      if more then (t.(buffer := data[k..]), true) else (t, false)
  }

  /** After the last chunk: shape what is left and hand it to the callback, whose answer no longer matters. */
  function Flush(trim: bool, callback: Option<Callback>, s: Stream): Stream {
    var rest := Shaped(trim, s.buffer);
    if callback.Some? && rest != "" then Stream("", s.delivered + [rest]) else s.(buffer := rest)
  }

  // ----- Lines and pieces -----

  lemma {:induction false} KeptConcat(trim: bool, a: seq<string>, b: seq<string>)
    ensures Kept(trim, a + b) == Kept(trim, a) + Kept(trim, b)
  {
    if a == [] {
      assert a + b == b;
    } else {
      assert (a + b)[1..] == a[1..] + b;
      KeptConcat(trim, a[1..], b);
    }
  }

  /** A newline character separates lines. */
  lemma LinesAround(trim: bool, a: string, c: char, b: string)
    requires IsNewline(c)
    ensures Lines(trim, a + [c] + b) == Lines(trim, a) + Lines(trim, b)
  {
    SplitAround(IsNewline, a, c, b);
    KeptConcat(trim, Split(IsNewline, a), Split(IsNewline, b));
  }

  lemma EmptyIsNoLine(trim: bool)
    ensures Emitted(trim, "") == [] && Lines(trim, "") == []
  {
    assert Split(IsNewline, "") == [""];
    KeptOne(trim, "");
  }

  lemma KeptOne(trim: bool, piece: string)
    ensures Kept(trim, [piece]) == Emitted(trim, piece)
  {
    assert [piece][1..] == [];
  }

  /** A newline character in front changes nothing. */
  lemma LinesSkipNewline(trim: bool, c: char, s: string)
    requires IsNewline(c)
    ensures Lines(trim, [c] + s) == Lines(trim, s)
  {
    assert ([c] + s)[1..] == s;
    KeptCons(trim, "", Split(IsNewline, s));
    EmptyIsNoLine(trim);
  }

  lemma KeptCons(trim: bool, piece: string, pieces: seq<string>)
    ensures Kept(trim, [piece] + pieces) == Emitted(trim, piece) + Kept(trim, pieces)
  {
    assert ([piece] + pieces)[1..] == pieces;
  }

  /** Collapsing runs of newline characters drops only empty pieces. */
  lemma {:induction false} TokensKeepLines(trim: bool, s: string)
    ensures Tokens(IsNewline, s)[0] == Split(IsNewline, s)[0]
    ensures Kept(trim, Tokens(IsNewline, s)[1..]) == Kept(trim, Split(IsNewline, s)[1..])
  {
    if s != "" {
      var tokens, pieces := Tokens(IsNewline, s[1..]), Split(IsNewline, s[1..]);
      TokensKeepLines(trim, s[1..]);
      if IsNewline(s[0]) {
        EmptyIsNoLine(trim);
        assert Split(IsNewline, s)[1..] == pieces;
        if |s| > 1 && IsNewline(s[1]) {
          assert s[1] == s[1..][0];
          assert pieces[0] == "";
        } else {
          assert Tokens(IsNewline, s)[1..] == tokens;
        }
      }
    }
  }

  /** What separates lines: a line feed or a carriage return, and nothing else. */
  lemma SeparatesExactly(c: char)
    ensures Lines(false, ['a', c, 'b']) == ["a", "b"] <==> c == '\n' || c == '\r'
  {
    assert Split(IsNewline, "") == [""];
    LinesOfOne(false, "a");
    LinesOfOne(false, "b");
    if IsNewline(c) {
      LinesAround(false, "a", c, "b");
      assert ['a', c, 'b'] == "a" + [c] + "b";
    } else {
      LinesOfOne(false, ['a', c, 'b']);
    }
  }

  /** A text without newline characters is one line, shaped, unless nothing is left of it. */
  lemma LinesOfOne(trim: bool, text: string)
    requires forall i :: 0 <= i < |text| ==> !IsNewline(text[i])
    ensures Lines(trim, text) == var line := if trim then Trim(text) else text; if line == "" then [] else [line]
  {
    assert forall c :: c in text ==> !IsNewline(c);
    SplitPrefix(IsNewline, text, "");
    assert text + "" == text && Split(IsNewline, "") == [""];
    assert Split(IsNewline, text) == [text];
    KeptOne(trim, text);
  }

  // ----- The splitter is right for every chunking -----

  /** What a chunk leaves behind holds no newline character, except perhaps the one it ended on. */
  ghost predicate Trailing(buffer: string) {
    forall i :: 0 < i < |buffer| ==> !IsNewline(buffer[i])
  }

  lemma {:induction false} DeliverConcat(callback: Callback, delivered: seq<string>, a: seq<string>, b: seq<string>)
    ensures Deliver(callback, delivered, a + b) ==
            var (now, more) := Deliver(callback, delivered, a);
            if more then Deliver(callback, now, b) else (now, false)
    decreases |a|
  {
    if a == [] {
      assert a + b == b;
    } else {
      assert (a + b)[0] == a[0] && (a + b)[1..] == a[1..] + b;
      DeliverConcat(callback, delivered + [a[0]], a[1..], b);
    }
  }

  /** The token loop delivers the kept tokens, the first one lengthened by the buffer. */
  lemma {:induction false} FeedDelivers(trim: bool, callback: Callback, tokens: seq<string>, s: Stream)
    requires tokens != []
    ensures var (t, more) := Feed(trim, callback, tokens, s);
            && (t.delivered, more) ==
               Deliver(callback, s.delivered, Kept(trim, [s.buffer + tokens[0]] + tokens[1..]))
            && t.buffer == ""
    decreases |tokens|
  {
    var first := s.buffer + tokens[0];
    var line := Shaped(trim, first);
    var rest := Kept(trim, tokens[1..]);
    assert ([first] + tokens[1..])[1..] == tokens[1..];
    assert Kept(trim, [first] + tokens[1..]) == Emitted(trim, first) + rest;
    DeliverConcat(callback, s.delivered, Emitted(trim, first), rest);
    var now := Stream("", if line == "" then s.delivered else s.delivered + [line]);
    assert line != "" ==> Deliver(callback, s.delivered, [line]) == (now.delivered, callback(now.delivered));
    if tokens[1..] != [] {
      assert now.buffer + tokens[1..][0] == tokens[1..][0];
      assert [tokens[1..][0]] + tokens[1..][1..] == tokens[1..];
      FeedDelivers(trim, callback, tokens[1..], now);
    }
  }

  lemma PrefixedLines(trim: bool, own: string, pre: string)
    requires forall c :: c in own ==> !IsNewline(c)
    ensures var tokens := Tokens(IsNewline, pre);
            Lines(trim, own + pre) == Emitted(trim, own + tokens[0]) + Kept(trim, tokens[1..])
  {
    TokensKeepLines(trim, pre);
    SplitPrefix(IsNewline, own, pre);
    KeptCons(trim, own + Split(IsNewline, pre)[0], Split(IsNewline, pre)[1..]);
  }

  /** With trimming, what was left behind and the next piece make one line. */
  lemma BufferedLines(buffer: string, pre: string)
    requires Trailing(buffer)
    ensures var tokens := Tokens(IsNewline, pre);
            Lines(true, buffer + pre) == Kept(true, [buffer + tokens[0]] + tokens[1..])
  {
    var tokens := Tokens(IsNewline, pre);
    KeptCons(true, buffer + tokens[0], tokens[1..]);
    if buffer != "" && IsNewline(buffer[0]) {
      PrefixedLines(true, buffer[1..], pre);
      Uncons(buffer, pre);
      Uncons(buffer, tokens[0]);
      LinesSkipNewline(true, buffer[0], buffer[1..] + pre);
      TrimSkipsSpace(buffer[0], buffer[1..] + tokens[0]);
    } else {
      PrefixedLines(true, buffer, pre);
    }
  }

  lemma Uncons(a: string, b: string)
    requires a != ""
    ensures a + b == [a[0]] + (a[1..] + b)
  {
  }

  /** One chunk, with trimming: whatever follows it, delivering the lines of buffer, chunk and the rest is the same
      as delivering, after the chunk, the lines of the new buffer and the rest; and a rejection is final. */
  lemma ChunkIsRight(callback: Callback, data: string, rest: string, s: Stream)
    requires Trailing(s.buffer)
    ensures var (t, more) := ProcessData(true, Some(callback), data, s);
            && Deliver(callback, s.delivered, Lines(true, s.buffer + data + rest)) ==
               (if more then Deliver(callback, t.delivered, Lines(true, t.buffer + rest)) else (t.delivered, false))
            && Trailing(t.buffer) && (!more ==> t.buffer == "")
  {
    if LastNewline(data) >= 0 {
      var k := LastNewline(data);
      EndedChunk(callback, data[..k], data[k], data[k + 1..], rest, s);
      assert data == data[..k] + [data[k]] + data[k + 1..] && data[k..] == [data[k]] + data[k + 1..];
    } else if s.buffer == "" {
      assert s.buffer + data == data;
    }
  }

  lemma EndedChunk(callback: Callback, pre: string, c: char, post: string, rest: string, s: Stream)
    requires Trailing(s.buffer) && IsNewline(c)
    ensures var (t, more) := Feed(true, callback, Tokens(IsNewline, pre), s);
            && Deliver(callback, s.delivered, Lines(true, s.buffer + (pre + [c] + post) + rest)) ==
               (if more then Deliver(callback, t.delivered, Lines(true, [c] + post + rest)) else (t.delivered, false))
            && t.buffer == ""
  {
    EndedLines(s.buffer, pre, c, post, rest);
    BufferedLines(s.buffer, pre);
    FeedDelivers(true, callback, Tokens(IsNewline, pre), s);
    DeliverConcat(callback, s.delivered, Lines(true, s.buffer + pre), Lines(true, post + rest));
  }

  lemma EndedLines(buffer: string, pre: string, c: char, post: string, rest: string)
    requires IsNewline(c)
    ensures Lines(true, buffer + (pre + [c] + post) + rest) == Lines(true, buffer + pre) + Lines(true, post + rest)
    ensures Lines(true, [c] + post + rest) == Lines(true, post + rest)
  {
    assert buffer + (pre + [c] + post) + rest == (buffer + pre) + [c] + (post + rest);
    LinesAround(true, buffer + pre, c, post + rest);
    assert [c] + post + rest == [c] + (post + rest);
    LinesSkipNewline(true, c, post + rest);
  }

  lemma FlushIsRight(callback: Callback, s: Stream)
    requires Trailing(s.buffer)
    ensures Flush(true, Some(callback), s) ==
            Stream("", Deliver(callback, s.delivered, Lines(true, s.buffer)).0)
  {
    EmptyIsNoLine(true);
    BufferedLines(s.buffer, "");
    assert Tokens(IsNewline, "") == [""] && s.buffer + "" == s.buffer;
    KeptOne(true, s.buffer);
  }

  // ----- Where a callback stands -----

  /** The callback has had enough of the lines that the text completes. */
  ghost predicate Enough(callback: Callback, text: string) {
    var k := LastNewline(text);
    k >= 0 && !Deliver(callback, [], Lines(true, text[..k])).1
  }

  /** After reading a text, however it was cut: the completed lines are delivered, up to the first one rejected, and the
      rest of the text, from its last newline character on, is buffered. */
  ghost predicate Standing(callback: Callback, seen: string, s: Stream, more: bool) {
    var k := LastNewline(seen);
    if k < 0 then more && s == Stream(seen, [])
    else
      && (s.delivered, more) == Deliver(callback, [], Lines(true, seen[..k]))
      && s.buffer == if more then seen[k..] else ""
  }

  lemma StandingMeans(callback: Callback, seen: string, s: Stream, more: bool)
    requires Standing(callback, seen, s, more)
    ensures (more <==> !Enough(callback, seen)) && Trailing(s.buffer)
  {
  }

  /** Flushing then completes the delivery of all lines of the text. */
  lemma StandingFlushes(callback: Callback, seen: string, s: Stream, more: bool)
    requires Standing(callback, seen, s, more)
    ensures Flush(true, Some(callback), s) == Stream("", Deliver(callback, [], Lines(true, seen)).0)
  {
    var k := LastNewline(seen);
    StandingMeans(callback, seen, s, more);
    FlushIsRight(callback, s);
    EmptyIsNoLine(true);
    if k >= 0 {
      LinesResume(seen, k, "");
      assert seen + "" == seen && seen[k..] + "" == seen[k..];
      DeliverConcat(callback, [], Lines(true, seen[..k]), Lines(true, seen[k..]));
    }
  }

  lemma NewlineAfter(seen: string, chunk: string)
    ensures LastNewline(seen + chunk) ==
            if LastNewline(chunk) >= 0 then |seen| + LastNewline(chunk) else LastNewline(seen)
  {
    var all, m := seen + chunk, LastNewline(seen + chunk);
    var k, j := LastNewline(seen), LastNewline(chunk);
    assert forall i :: 0 <= i < |chunk| ==> all[|seen| + i] == chunk[i];
    if j >= 0 {
      assert IsNewline(all[|seen| + j]);
    } else if k >= 0 {
      assert IsNewline(all[k]);
    }
    if m >= |seen| {
      assert IsNewline(chunk[m - |seen|]);
    }
  }

  lemma CutAfter(a: string, b: string, j: nat)
    requires j <= |b|
    ensures (a + b)[..|a| + j] == a + b[..j] && (a + b)[|a| + j..] == b[j..]
  {
  }

  lemma CutBefore(a: string, b: string, k: nat)
    requires k <= |a|
    ensures (a + b)[..k] == a[..k] && (a + b)[k..] == a[k..] + b
  {
  }

  lemma ProcessStands(callback: Callback, seen: string, s: Stream, chunk: string)
    requires Standing(callback, seen, s, true)
    ensures var (t, more) := ProcessData(true, Some(callback), chunk, s);
            Standing(callback, seen + chunk, t, more)
  {
    NewlineAfter(seen, chunk);
    if LastNewline(chunk) >= 0 {
      CutAfter(seen, chunk, LastNewline(chunk));
      CompletedLines(callback, seen, s, chunk[..LastNewline(chunk)]);
    } else if LastNewline(seen) >= 0 {
      CutBefore(seen, chunk, LastNewline(seen));
    }
  }

  lemma CompletedLines(callback: Callback, seen: string, s: Stream, pre: string)
    requires Standing(callback, seen, s, true)
    ensures var (t, more) := Feed(true, callback, Tokens(IsNewline, pre), s);
            (t.delivered, more) == Deliver(callback, [], Lines(true, seen + pre)) && t.buffer == ""
  {
    var k := LastNewline(seen);
    StandingMeans(callback, seen, s, true);
    BufferedLines(s.buffer, pre);
    FeedDelivers(true, callback, Tokens(IsNewline, pre), s);
    if k >= 0 {
      LinesResume(seen, k, pre);
      DeliverConcat(callback, [], Lines(true, seen[..k]), Lines(true, seen[k..] + pre));
    }
  }

  lemma LinesResume(seen: string, k: nat, pre: string)
    requires k < |seen| && IsNewline(seen[k])
    ensures Lines(true, seen + pre) == Lines(true, seen[..k]) + Lines(true, seen[k..] + pre)
  {
    var rest := seen[k + 1..] + pre;
    assert seen + pre == seen[..k] + [seen[k]] + rest && seen[k..] + pre == [seen[k]] + rest;
    LinesAround(true, seen[..k], seen[k], rest);
    LinesSkipNewline(true, seen[k], rest);
  }

  // ----- A whole stream, chunk by chunk -----

  function Joined(chunks: seq<string>): string {
    if chunks == [] then "" else chunks[0] + Joined(chunks[1..])
  }

  /** Read chunks until the callback has had enough. */
  function ReadChunks(trim: bool, callback: Option<Callback>, chunks: seq<string>, s: Stream): (Stream, bool)
    decreases |chunks|
  {
    if chunks == [] then (s, true)
    else
      var (t, more) := ProcessData(trim, callback, chunks[0], s);
      if more then ReadChunks(trim, callback, chunks[1..], t) else (t, false)
  }

  lemma {:induction false} ChunksAreRight(callback: Callback, chunks: seq<string>, s: Stream)
    requires Trailing(s.buffer)
    ensures var (t, more) := ReadChunks(true, Some(callback), chunks, s);
            && Flush(true, Some(callback), t).delivered ==
               Deliver(callback, s.delivered, Lines(true, s.buffer + Joined(chunks))).0
            && (!more ==> t.buffer == "" && Flush(true, Some(callback), t) == t)
    decreases |chunks|
  {
    if chunks == [] {
      assert s.buffer + "" == s.buffer;
      FlushIsRight(callback, s);
    } else {
      var (t, more) := ProcessData(true, Some(callback), chunks[0], s);
      ChunkIsRight(callback, chunks[0], Joined(chunks[1..]), s);
      Associates(s.buffer, chunks[0], Joined(chunks[1..]));
      if more {
        ChunksAreRight(callback, chunks[1..], t);
      } else {
        EmptyIsNoLine(true);
        FlushIsRight(callback, t);
      }
    }
  }

  /** With trimming, however a stream is cut into chunks, the callback gets the lines of the whole stream, in order,
      up to and including the first one it rejects; the final flush never calls it again after that. */
  lemma AnyChunkingDelivers(callback: Callback, chunks: seq<string>)
    ensures var (t, more) := ReadChunks(true, Some(callback), chunks, Stream("", []));
            && Flush(true, Some(callback), t).delivered ==
               Deliver(callback, [], Lines(true, Joined(chunks))).0
            && (!more ==> Flush(true, Some(callback), t) == t)
  {
    ChunksAreRight(callback, chunks, Stream("", []));
    assert "" + Joined(chunks) == Joined(chunks);
  }

  /** What is delivered is a prefix of the lines: all of them unless one was rejected, and only the last delivered
      line may be one the callback rejected. */
  lemma {:induction false} DeliversPrefix(callback: Callback, delivered: seq<string>, lines: seq<string>)
    returns (n: nat)
    ensures var (now, more) := Deliver(callback, delivered, lines);
            && n <= |lines| && now == delivered + lines[..n]
            && (more ==> n == |lines|)
            && (forall i :: 0 < i < n ==> callback(delivered + lines[..i]))
            && (!more ==> n > 0 && !callback(now))
    decreases |lines|
  {
    if lines == [] {
      n := 0;
    } else {
      var now := delivered + [lines[0]];
      assert delivered + lines[..1] == now;
      if callback(now) {
        var m := DeliversPrefix(callback, now, lines[1..]);
        n := m + 1;
        assert now + lines[1..][..m] == delivered + lines[..n];
        forall i | 0 < i < n ensures callback(delivered + lines[..i]) {
          if i > 1 {
            assert delivered + lines[..i] == now + lines[1..][..i - 1];
          }
        }
      } else {
        n := 1;
      }
    }
  }

  /** Without a callback the whole output is buffered, and trimmed at the end if asked. */
  lemma {:induction false} NoCallbackBuffers(trim: bool, chunks: seq<string>, s: Stream)
    ensures var (t, more) := ReadChunks(trim, None, chunks, s);
            more && Flush(trim, None, t) == Stream(Shaped(trim, s.buffer + Joined(chunks)), s.delivered)
    decreases |chunks|
  {
    if chunks == [] {
      assert s.buffer + "" == s.buffer;
    } else {
      Associates(s.buffer, chunks[0], Joined(chunks[1..]));
      NoCallbackBuffers(trim, chunks[1..], s.(buffer := s.buffer + chunks[0]));
    }
  }

  // ----- Without trimming -----

  ghost predicate HasNewline(s: string) {
    exists i :: 0 <= i < |s| && IsNewline(s[i])
  }

  /** A line of the whole stream never holds a newline character. */
  lemma {:induction false} UntrimmedKeptIn(pieces: seq<string>)
    ensures forall line :: line in Kept(false, pieces) ==> line in pieces
  {
    if pieces != [] {
      UntrimmedKeptIn(pieces[1..]);
    }
  }

  lemma LinesHaveNoNewline(stream: string)
    ensures forall line :: line in Lines(false, stream) ==> !HasNewline(line)
  {
    UntrimmedKeptIn(Split(IsNewline, stream));
    PiecesHaveNoSeparator(IsNewline, stream);
    forall line | line in Lines(false, stream) ensures !HasNewline(line) {
      assert forall c :: c in line ==> !IsNewline(c);
    }
  }

  /** What was delivered holds a line with a newline character, or is about to. */
  ghost predicate Spoiled(s: Stream) {
    HasBadLine(s.delivered) || (s.buffer != "" && IsNewline(s.buffer[0]))
  }

  ghost predicate HasBadLine(lines: seq<string>) {
    exists i :: 0 <= i < |lines| && HasNewline(lines[i])
  }

  lemma BadLineStays(lines: seq<string>, more: seq<string>)
    requires HasBadLine(lines)
    ensures HasBadLine(lines + more)
  {
    var i :| 0 <= i < |lines| && HasNewline(lines[i]);
    assert (lines + more)[i] == lines[i];
  }

  lemma BadLineAdded(lines: seq<string>, line: string)
    requires line != "" && IsNewline(line[0])
    ensures HasBadLine(lines + [line])
  {
    assert (lines + [line])[|lines|] == line;
  }

  lemma {:induction false} FeedKeepsBad(callback: Callback, tokens: seq<string>, s: Stream)
    requires HasBadLine(s.delivered)
    ensures HasBadLine(Feed(false, callback, tokens, s).0.delivered)
    decreases |tokens|
  {
    if tokens != [] {
      var line := s.buffer + tokens[0];
      BadLineStays(s.delivered, [line]);
      FeedKeepsBad(callback, tokens[1..], Stream("", if line == "" then s.delivered else s.delivered + [line]));
    }
  }

  lemma FeedSpoiled(callback: Callback, tokens: seq<string>, s: Stream)
    requires Spoiled(s) && tokens != []
    ensures HasBadLine(Feed(false, callback, tokens, s).0.delivered)
  {
    if HasBadLine(s.delivered) {
      FeedKeepsBad(callback, tokens, s);
    } else {
      var line := s.buffer + tokens[0];
      assert line[0] == s.buffer[0];
      BadLineAdded(s.delivered, line);
      FeedKeepsBad(callback, tokens[1..], Stream("", s.delivered + [line]));
    }
  }

  lemma {:induction false} SpoiledStays(callback: Callback, chunks: seq<string>, s: Stream)
    requires Spoiled(s)
    ensures var t := ReadChunks(false, Some(callback), chunks, s).0;
            HasBadLine(Flush(false, Some(callback), t).delivered)
    decreases |chunks|
  {
    if chunks == [] {
      if HasBadLine(s.delivered) {
        BadLineStays(s.delivered, [s.buffer]);
      } else {
        BadLineAdded(s.delivered, s.buffer);
      }
    } else {
      var k := LastNewline(chunks[0]);
      var (t, more) := ProcessData(false, Some(callback), chunks[0], s);
      if k >= 0 {
        FeedSpoiled(callback, Tokens(IsNewline, chunks[0][..k]), s);
      }
      if more {
        SpoiledStays(callback, chunks[1..], t);
      } else {
        assert t.buffer == "" by {
          FeedDelivers(false, callback, Tokens(IsNewline, chunks[0][..k]), s);
        }
      }
    }
  }

  /** The stream up to the last newline character of the first chunk that has one. */
  function UpToNewline(chunks: seq<string>): (before: Option<string>)
    ensures before.None? <==> !HasNewline(Joined(chunks))
    ensures before.Some? ==> |before.value| < |Joined(chunks)| && before.value == Joined(chunks)[..|before.value|] &&
                             IsNewline(Joined(chunks)[|before.value|])
  {
    if chunks == [] then None
    else
      var k := LastNewline(chunks[0]);
      var all := Joined(chunks);
      if k >= 0 then assert all[k] == chunks[0][k]; Some(chunks[0][..k])
      else
        assert all == chunks[0] + Joined(chunks[1..]);
        assert forall i :: 0 <= i < |Joined(chunks[1..])| ==> all[|chunks[0]| + i] == Joined(chunks[1..])[i];
        match UpToNewline(chunks[1..])
        case None => None
        case Some(rest) => Some(chunks[0] + rest)
  }

  /** Until a newline character is read everything is buffered; the chunk that has one delivers the lines before it,
      and leaves the newline character behind unless the callback has had enough. */
  lemma {:induction false} UntrimmedFrom(callback: Callback, chunks: seq<string>, seen: string)
    requires !HasNewline(seen)
    ensures var t := Flush(false, Some(callback), ReadChunks(false, Some(callback), chunks, Stream(seen, [])).0);
            var before := UpToNewline(chunks);
            if before.None? then t.delivered == Emitted(false, seen + Joined(chunks))
            else
              var (now, more) := Deliver(callback, [], Lines(false, seen + before.value));
              if more then HasBadLine(t.delivered) else t.delivered == now
    decreases |chunks|
  {
    if chunks == [] {
      assert seen + "" == seen;
    } else {
      var data := chunks[0];
      var k := LastNewline(data);
      if k >= 0 {
        FirstLines(callback, data, k, seen);
        var (t, more) := ProcessData(false, Some(callback), data, Stream(seen, []));
        if more {
          SpoiledStays(callback, chunks[1..], t);
        }
      } else {
        assert !HasNewline(seen + data);
        Associates(seen, data, Joined(chunks[1..]));
        UntrimmedFrom(callback, chunks[1..], seen + data);
        var before := UpToNewline(chunks[1..]);
        if before.Some? {
          Associates(seen, data, before.value);
        }
      }
    }
  }

  lemma FirstLines(callback: Callback, data: string, k: nat, seen: string)
    requires !HasNewline(seen) && k == LastNewline(data)
    ensures var (t, more) := ProcessData(false, Some(callback), data, Stream(seen, []));
            && (t.delivered, more) == Deliver(callback, [], Lines(false, seen + data[..k]))
            && t.buffer == if more then data[k..] else ""
  {
    var tokens := Tokens(IsNewline, data[..k]);
    assert forall c :: c in seen ==> !IsNewline(c);
    PrefixedLines(false, seen, data[..k]);
    FeedDelivers(false, callback, tokens, Stream(seen, []));
    KeptCons(false, seen + tokens[0], tokens[1..]);
  }

  lemma DeliverOne(callback: Callback, lines: seq<string>)
    requires |lines| <= 1
    ensures Deliver(callback, [], lines).0 == lines
  {
    if lines != [] {
      assert [] + [lines[0]] == lines && lines[1..] == [];
    }
  }

  lemma DeliveredIsGood(callback: Callback, stream: string)
    ensures !HasBadLine(Deliver(callback, [], Lines(false, stream)).0)
  {
    var n := DeliversPrefix(callback, [], Lines(false, stream));
    var now := Deliver(callback, [], Lines(false, stream)).0;
    LinesHaveNoNewline(stream);
    forall i | 0 <= i < |now| ensures !HasNewline(now[i]) {
      assert now[i] == Lines(false, stream)[i];
    }
  }

  lemma RejectedBefore(callback: Callback, stream: string, k: nat)
    requires k < |stream| && IsNewline(stream[k]) && !Deliver(callback, [], Lines(false, stream[..k])).1
    ensures Deliver(callback, [], Lines(false, stream)) == Deliver(callback, [], Lines(false, stream[..k]))
  {
    assert stream == stream[..k] + [stream[k]] + stream[k + 1..];
    LinesAround(false, stream[..k], stream[k], stream[k + 1..]);
    DeliverConcat(callback, [], Lines(false, stream[..k]), Lines(false, stream[k + 1..]));
  }

  /** Without trimming the buffered newline character ends up in a line. Any callback gets what it should, the lines
      of the stream up to the first one it rejects, exactly when the stream holds no newline character, or the
      callback rejects one of the lines that the first chunk with a newline character completes. */
  lemma UntrimmedExactly(callback: Callback, chunks: seq<string>)
    ensures var t := ReadChunks(false, Some(callback), chunks, Stream("", [])).0;
            var before := UpToNewline(chunks);
            Flush(false, Some(callback), t).delivered == Deliver(callback, [], Lines(false, Joined(chunks))).0 <==>
            before.None? || !Deliver(callback, [], Lines(false, before.value)).1
  {
    var all, before := Joined(chunks), UpToNewline(chunks);
    UntrimmedFrom(callback, chunks, "");
    assert "" + all == all;
    if before.None? {
      LinesOfOne(false, all);
      DeliverOne(callback, Lines(false, all));
    } else {
      assert "" + before.value == before.value;
      if !Deliver(callback, [], Lines(false, before.value)).1 {
        RejectedBefore(callback, all, |before.value|);
      }
      DeliveredIsGood(callback, all);
    }
  }

  ghost predicate AcceptsAll(callback: Callback) {
    forall lines :: callback(lines)
  }

  lemma {:induction false} DeliverAccepted(callback: Callback, delivered: seq<string>, lines: seq<string>)
    requires AcceptsAll(callback)
    ensures Deliver(callback, delivered, lines) == (delivered + lines, true)
    decreases |lines|
  {
    if lines == [] {
      assert delivered + lines == delivered;
    } else {
      DeliverAccepted(callback, delivered + [lines[0]], lines[1..]);
      assert delivered + [lines[0]] + lines[1..] == delivered + lines;
    }
  }

  /** A callback that accepts everything gets the lines of the stream exactly when the stream holds no newline
      character at all. */
  lemma UntrimmedDelivers(callback: Callback, chunks: seq<string>)
    requires AcceptsAll(callback)
    ensures var t := ReadChunks(false, Some(callback), chunks, Stream("", [])).0;
            Flush(false, Some(callback), t).delivered == Lines(false, Joined(chunks)) <==>
            !HasNewline(Joined(chunks))
  {
    UntrimmedExactly(callback, chunks);
    DeliverAccepted(callback, [], Lines(false, Joined(chunks)));
    assert [] + Lines(false, Joined(chunks)) == Lines(false, Joined(chunks));
    if UpToNewline(chunks).Some? {
      DeliverAccepted(callback, [], Lines(false, UpToNewline(chunks).value));
    }
  }

  // ----- The splitter as it runs -----

  class LineReader {
    const trim: bool
    const callback: Option<Callback>
    var buffer: string
    var delivered: seq<string>

    constructor (trim: bool, callback: Option<Callback>)
      ensures this.trim == trim && this.callback == callback && Contents() == Stream("", [])
    {
      this.trim, this.callback := trim, callback;
      buffer, delivered := "", [];
    }

    ghost function Contents(): Stream
      reads this
    {
      Stream(buffer, delivered)
    }

    method Process(data: string) returns (more: bool)
      modifies this
      ensures (Contents(), more) == ProcessData(trim, callback, data, old(Contents()))
    {
      if data == "" {
        assert buffer + data == buffer;
        return true;
      }
      if callback.None? {
        buffer := buffer + data;
        return true;
      }
      var lastNewline := LastNewline(data);
      if lastNewline < 0 {
        buffer := buffer + data;
        return true;
      }
      more := FeedTokens(Tokens(IsNewline, data[..lastNewline]));
      if more {
        buffer := data[lastNewline..];
      }
    }

    /** The loop over the lines of a chunk. */
    method FeedTokens(tokens: seq<string>) returns (more: bool)
      requires callback.Some?
      modifies this
      ensures (Contents(), more) == Feed(trim, callback.value, tokens, old(Contents()))
    {
      assert tokens[0..] == tokens;
      for i := 0 to |tokens|
        invariant Feed(trim, callback.value, tokens, old(Contents())) ==
                  Feed(trim, callback.value, tokens[i..], Contents())
      {
        assert tokens[i..][0] == tokens[i] && tokens[i..][1..] == tokens[i + 1..];
        buffer := buffer + tokens[i];
        if trim {
          buffer := Trim(buffer);
        }
        if buffer == "" {
          continue;
        }
        delivered := delivered + [buffer];
        var finished := !callback.value(delivered);
        buffer := "";
        if finished {
          return false;
        }
      }
      assert tokens[|tokens|..] == [];
      return true;
    }

    method Finish()
      modifies this
      ensures Contents() == Flush(trim, callback, old(Contents()))
    {
      if trim {
        buffer := Trim(buffer);
      }
      if buffer != "" && callback.Some? {
        delivered := delivered + [buffer];
        buffer := "";
      }
    }
  }
}
