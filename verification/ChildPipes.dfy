/** Reading a child's two pipes: a step system over what select and read answer, each pipe feeding its own line
    splitter, and the proof that no interleaving of the pipes shows in the lines. */
module ChildPipes {
  import opened Sequences
  import opened Values
  import opened Text
  import opened Streams

  /** What read gives for a ready pipe. */
  datatype Read = Interrupted | ReadFailed | Closed | Data(chunk: string)

  /** One turn of the loop: the command was found timed out; select failed, or is to be tried again (interrupted
      or nothing ready yet); or some pipes are ready. */
  datatype Round = CommandTimedOut | SelectFailed | Retry | Ready(out: Option<Read>, err: Option<Read>)

  /** How reading ends: both pipes closed, a callback had enough, an exception, or not yet. */
  datatype End = Finished | Stopped | Failed | TimedOut | Running

  /** A pipe, with everything read from it so far. */
  datatype Pipe = Pipe(open: bool, seen: string, stream: Stream)

  datatype Pipes = Pipes(out: Pipe, err: Pipe)

  datatype Callbacks = Callbacks(out: Option<Callback>, err: Option<Callback>)

  function ReadPipe(trim: bool, callback: Option<Callback>, p: Pipe, r: Option<Read>): (Pipe, End) {
    if !p.open || r.None? then (p, Running)
    else
      match r.value
      case Interrupted => (p, Running)
      case ReadFailed => (p, Failed)
      case Closed => (p.(open := false), Running)
      case Data(chunk) =>
        var (stream, more) := ProcessData(trim, callback, chunk, p.stream);
        (Pipe(true, p.seen + chunk, stream), if more then Running else Stopped)
  }

  function Step(trim: bool, callbacks: Callbacks, pipes: Pipes, out: Option<Read>, err: Option<Read>)
    : (Pipes, End)
  {
    var (p, end) := ReadPipe(trim, callbacks.out, pipes.out, out);
    if end != Running then (pipes.(out := p), end)
    else
      var (q, end') := ReadPipe(trim, callbacks.err, pipes.err, err);
      (Pipes(p, q), end')
  }

  function ReadFromChild(trim: bool, callbacks: Callbacks, pipes: Pipes, rounds: seq<Round>): (Pipes, End)
    decreases |rounds|
  {
    if rounds != [] && rounds[0].CommandTimedOut? then (pipes, TimedOut)
    else if !pipes.out.open && !pipes.err.open then (pipes, Finished)
    else if rounds == [] then (pipes, Running)
    else
      match rounds[0]
      case SelectFailed => (pipes, Failed)
      case Ready(out, err) =>
        var (next, end) := Step(trim, callbacks, pipes, out, err);
        if end == Running then ReadFromChild(trim, callbacks, next, rounds[1..]) else (next, end)
      case Retry => ReadFromChild(trim, callbacks, pipes, rounds[1..])
      case CommandTimedOut => (pipes, TimedOut)
  }

  const FRESH: Pipe := Pipe(true, "", Stream("", []))

  // ----- What the rounds give each pipe -----

  /** What read gave for the child's standard output in each round, none when it was not read. */
  function Outs(rounds: seq<Round>): seq<Option<Read>> {
    if rounds == [] then [] else [if rounds[0].Ready? then rounds[0].out else None] + Outs(rounds[1..])
  }

  function Errs(rounds: seq<Round>): seq<Option<Read>> {
    if rounds == [] then [] else [if rounds[0].Ready? then rounds[0].err else None] + Errs(rounds[1..])
  }

  predicate IsData(r: Option<Read>) {
    r.Some? && r.value.Data?
  }

  /** The text of a pipe: the chunks read from it, up to its end. */
  function TextOf(got: seq<Option<Read>>): string {
    if got == [] || got[0] == Some(Closed) then ""
    else if IsData(got[0]) then got[0].value.chunk + TextOf(got[1..])
    else TextOf(got[1..])
  }

  ghost predicate ClosedIn(got: seq<Option<Read>>) {
    Some(Closed) in got
  }

  /** A read failed before the pipe's end. */
  predicate LostIn(got: seq<Option<Read>>) {
    got != [] && got[0] != Some(Closed) && (got[0] == Some(ReadFailed) || LostIn(got[1..]))
  }

  ghost predicate EnoughOf(callback: Option<Callback>, got: seq<Option<Read>>) {
    callback.Some? && Enough(callback.value, TextOf(got))
  }

  ghost predicate BothClosed(rounds: seq<Round>) {
    ClosedIn(Outs(rounds)) && ClosedIn(Errs(rounds))
  }

  /** Nothing in these rounds ends the reading early. */
  ghost predicate Quiet(callbacks: Callbacks, rounds: seq<Round>) {
    && (forall i :: 0 <= i < |rounds| ==> !rounds[i].CommandTimedOut? && !rounds[i].SelectFailed?)
    && !LostIn(Outs(rounds)) && !LostIn(Errs(rounds))
    && !EnoughOf(callbacks.out, Outs(rounds)) && !EnoughOf(callbacks.err, Errs(rounds))
  }

  lemma {:induction false} OneMoreRead(got: seq<Option<Read>>, r: Option<Read>)
    ensures TextOf(got + [r]) == if ClosedIn(got) || !IsData(r) then TextOf(got) else TextOf(got) + r.value.chunk
    ensures LostIn(got + [r]) <==> LostIn(got) || (!ClosedIn(got) && r == Some(ReadFailed))
    ensures ClosedIn(got + [r]) <==> ClosedIn(got) || r == Some(Closed)
  {
    if got == [] {
      assert [r][1..] == [] && got + [r] == [r];
      assert TextOf([]) == "" && (IsData(r) ==> r.value.chunk + "" == "" + r.value.chunk);
    } else {
      assert (got + [r])[1..] == got[1..] + [r];
      OneMoreRead(got[1..], r);
      if IsData(got[0]) && IsData(r) {
        Associates(got[0].value.chunk, TextOf(got[1..]), r.value.chunk);
      }
    }
  }

  lemma {:induction false} OneMoreRound(rounds: seq<Round>, round: Round)
    ensures Outs(rounds + [round]) == Outs(rounds) + [if round.Ready? then round.out else None]
    ensures Errs(rounds + [round]) == Errs(rounds) + [if round.Ready? then round.err else None]
  {
    if rounds == [] {
      assert rounds + [round] == [round] && [round][1..] == [];
    } else {
      assert (rounds + [round])[1..] == rounds[1..] + [round];
      OneMoreRound(rounds[1..], round);
    }
  }

  // ----- The reader follows the rounds -----

  /** The pipe holds what these reads gave, its callback stands where the lines of that text have brought it, and
      without a callback everything is buffered. */
  ghost predicate WasRead(callback: Option<Callback>, got: seq<Option<Read>>, p: Pipe) {
    && p.seen == TextOf(got)
    && if callback.Some? then Standing(callback.value, p.seen, p.stream, !EnoughOf(callback, got))
       else p.stream == Stream(p.seen, [])
  }

  ghost predicate Follows(callback: Option<Callback>, got: seq<Option<Read>>, p: Pipe) {
    WasRead(callback, got, p) && (p.open <==> !ClosedIn(got)) && !LostIn(got) && !EnoughOf(callback, got)
  }

  lemma ReadFollows(callback: Option<Callback>, got: seq<Option<Read>>, p: Pipe, r: Option<Read>)
    requires Follows(callback, got, p)
    ensures var (q, end) := ReadPipe(true, callback, p, r);
            var now := got + [r];
            if end == Running then Follows(callback, now, q)
            else if end == Stopped then EnoughOf(callback, now) && !LostIn(now) && WasRead(callback, now, q)
            else end == Failed && LostIn(now) && q == p
  {
    OneMoreRead(got, r);
    if p.open && IsData(r) {
      DataFollows(callback, got, p, r.value.chunk);
    }
  }

  lemma DataFollows(callback: Option<Callback>, got: seq<Option<Read>>, p: Pipe, chunk: string)
    requires Follows(callback, got, p) && p.open
    ensures var (q, end) := ReadPipe(true, callback, p, Some(Data(chunk)));
            var now := got + [Some(Data(chunk))];
            if end == Running then Follows(callback, now, q)
            else end == Stopped && EnoughOf(callback, now) && !LostIn(now) && WasRead(callback, now, q)
  {
    OneMoreRead(got, Some(Data(chunk)));
    if callback.Some? {
      ChunkFollows(callback.value, p.seen, p.stream, chunk);
    }
  }

  lemma ChunkFollows(callback: Callback, seen: string, s: Stream, chunk: string)
    requires Standing(callback, seen, s, true)
    ensures var (t, more) := ProcessData(true, Some(callback), chunk, s);
            Standing(callback, seen + chunk, t, more) && (more <==> !Enough(callback, seen + chunk))
  {
    ProcessStands(callback, seen, s, chunk);
    var (t, more) := ProcessData(true, Some(callback), chunk, s);
    StandingMeans(callback, seen + chunk, t, more);
  }

  ghost predicate Texts(callbacks: Callbacks, pipes: Pipes, outs: seq<Option<Read>>, errs: seq<Option<Read>>) {
    WasRead(callbacks.out, outs, pipes.out) && WasRead(callbacks.err, errs, pipes.err)
  }

  /** How reading ends after n quiet rounds, and what was then read from each pipe. */
  ghost predicate EndsAt(callbacks: Callbacks, rounds: seq<Round>, n: nat, pipes: Pipes, end: End)
    requires n <= |rounds|
  {
    var before := rounds[..n];
    var outs, errs := Outs(before), Errs(before);
    if n < |rounds| && rounds[n] == CommandTimedOut then end == TimedOut && Texts(callbacks, pipes, outs, errs)
    else if BothClosed(before) then end == Finished && Texts(callbacks, pipes, outs, errs)
    else if n == |rounds| then end == Running && Texts(callbacks, pipes, outs, errs)
    else
      var now := rounds[..n + 1];
      if rounds[n] == SelectFailed || LostIn(Outs(now)) then end == Failed
      else if EnoughOf(callbacks.out, Outs(now)) then end == Stopped && Texts(callbacks, pipes, Outs(now), errs)
      else if LostIn(Errs(now)) then end == Failed
      else EnoughOf(callbacks.err, Errs(now)) && end == Stopped && Texts(callbacks, pipes, Outs(now), Errs(now))
  }

  lemma {:induction false} ReadOn(callbacks: Callbacks, rounds: seq<Round>, k: nat, pipes: Pipes) returns (n: nat)
    requires k <= |rounds| && Quiet(callbacks, rounds[..k])
    requires Follows(callbacks.out, Outs(rounds[..k]), pipes.out) && Follows(callbacks.err, Errs(rounds[..k]), pipes.err)
    ensures k <= n <= |rounds| && Quiet(callbacks, rounds[..n])
    ensures forall m :: k <= m < n ==> !BothClosed(rounds[..m])
    ensures var (after, end) := ReadFromChild(true, callbacks, pipes, rounds[k..]);
            EndsAt(callbacks, rounds, n, after, end)
    decreases |rounds| - k
  {
    n := k;
    if k < |rounds| && rounds[k] != CommandTimedOut && !BothClosed(rounds[..k]) && rounds[k] != SelectFailed {
      var next, end := ReadRound(callbacks, rounds, k, pipes);
      assert rounds[k..][0] == rounds[k] && rounds[k..][1..] == rounds[k + 1..];
      if end == Running {
        n := ReadOn(callbacks, rounds, k + 1, next);
      }
    }
  }

  lemma ReadRound(callbacks: Callbacks, rounds: seq<Round>, k: nat, pipes: Pipes) returns (next: Pipes, end: End)
    requires k < |rounds| && Quiet(callbacks, rounds[..k]) && (rounds[k].Ready? || rounds[k].Retry?)
    requires Follows(callbacks.out, Outs(rounds[..k]), pipes.out) && Follows(callbacks.err, Errs(rounds[..k]), pipes.err)
    ensures (next, end) == if rounds[k].Ready? then Step(true, callbacks, pipes, rounds[k].out, rounds[k].err)
                           else (pipes, Running)
    ensures if end == Running then
              && Quiet(callbacks, rounds[..k + 1])
              && Follows(callbacks.out, Outs(rounds[..k + 1]), next.out)
              && Follows(callbacks.err, Errs(rounds[..k + 1]), next.err)
            else EndsRound(callbacks, rounds, k, next, end)
  {
    var out := if rounds[k].Ready? then rounds[k].out else None;
    var err := if rounds[k].Ready? then rounds[k].err else None;
    var outs, errs := Outs(rounds[..k]), Errs(rounds[..k]);
    assert rounds[..k + 1] == rounds[..k] + [rounds[k]];
    OneMoreRound(rounds[..k], rounds[k]);
    ReadFollows(callbacks.out, outs, pipes.out, out);
    ReadFollows(callbacks.err, errs, pipes.err, err);
    var step := Step(true, callbacks, pipes, out, err);
    next, end := step.0, step.1;
  }

  /** A round that ends the reading: standard output is read first, and when it ends the reading the other is not read. */
  ghost predicate EndsRound(callbacks: Callbacks, rounds: seq<Round>, k: nat, pipes: Pipes, end: End)
    requires k < |rounds|
  {
    var outs, errs := Outs(rounds[..k + 1]), Errs(rounds[..k + 1]);
    if LostIn(outs) then end == Failed
    else if EnoughOf(callbacks.out, outs) then end == Stopped && Texts(callbacks, pipes, outs, Errs(rounds[..k]))
    else if LostIn(errs) then end == Failed
    else EnoughOf(callbacks.err, errs) && end == Stopped && Texts(callbacks, pipes, outs, errs)
  }

  /** For every sequence of what select and read answer, how reading ends and which text was read from which pipe
      follow from the rounds alone. */
  lemma RoundsAreRead(callbacks: Callbacks, rounds: seq<Round>) returns (n: nat)
    ensures n <= |rounds| && Quiet(callbacks, rounds[..n]) && forall m :: 0 <= m < n ==> !BothClosed(rounds[..m])
    ensures var (pipes, end) := ReadFromChild(true, callbacks, Pipes(FRESH, FRESH), rounds);
            EndsAt(callbacks, rounds, n, pipes, end)
  {
    assert rounds[..0] == [] && rounds[0..] == rounds;
    assert TextOf([]) == "";
    n := ReadOn(callbacks, rounds, 0, Pipes(FRESH, FRESH));
  }

  lemma {:induction false} NothingAfterEnd(a: seq<Option<Read>>, b: seq<Option<Read>>)
    requires ClosedIn(a)
    ensures TextOf(a + b) == TextOf(a)
  {
    assert (a + b)[0] == a[0] && (a + b)[1..] == a[1..] + b;
    if a[0] != Some(Closed) {
      NothingAfterEnd(a[1..], b);
    }
  }

  lemma {:induction false} RoundsConcat(a: seq<Round>, b: seq<Round>)
    ensures Outs(a + b) == Outs(a) + Outs(b) && Errs(a + b) == Errs(a) + Errs(b)
  {
    if a == [] {
      assert a + b == b && [] + Outs(b) == Outs(b) && [] + Errs(b) == Errs(b);
    } else {
      assert (a + b)[0] == a[0] && (a + b)[1..] == a[1..] + b;
      RoundsConcat(a[1..], b);
      Associates([Outs(a)[0]], Outs(a[1..]), Outs(b));
      Associates([Errs(a)[0]], Errs(a[1..]), Errs(b));
    }
  }

  /** What a callback has received, and the text returned, when the pipe is done. */
  ghost predicate Received(callback: Option<Callback>, text: string, s: Stream) {
    if callback.Some? then s == Stream("", Deliver(callback.value, [], Lines(true, text)).0)
    else s == Stream(Trim(text), [])
  }

  lemma FlushReceives(callback: Option<Callback>, got: seq<Option<Read>>, p: Pipe)
    requires WasRead(callback, got, p)
    ensures Received(callback, TextOf(got), Flush(true, callback, p.stream))
  {
    if callback.Some? {
      StandingFlushes(callback.value, p.seen, p.stream, !EnoughOf(callback, got));
    }
  }

  /** The rounds that were read when reading ended without an exception: of each pipe all its rounds, save that standard
      error is not read any more in the round in which standard output's callback has had enough. Each callback has
      received the lines of the text its own pipe gave in those rounds, up to and including the first line it rejected,
      and a pipe without a callback returns its text trimmed. */
  lemma PipesAreRight(callbacks: Callbacks, rounds: seq<Round>) returns (o: nat, e: nat)
    ensures e <= o <= |rounds|
    ensures var (pipes, end) := ReadFromChild(true, callbacks, Pipes(FRESH, FRESH), rounds);
            end == Finished || end == Stopped ==>
              && Received(callbacks.out, TextOf(Outs(rounds[..o])), Flush(true, callbacks.out, pipes.out.stream))
              && Received(callbacks.err, TextOf(Errs(rounds[..e])), Flush(true, callbacks.err, pipes.err.stream))
              && (e == o || (e == o - 1 && EnoughOf(callbacks.out, Outs(rounds[..o]))))
              && (end == Finished <==> BothClosed(rounds[..o]) && Quiet(callbacks, rounds[..o]))
  {
    var n := RoundsAreRead(callbacks, rounds);
    var (pipes, end) := ReadFromChild(true, callbacks, Pipes(FRESH, FRESH), rounds);
    o, e := n, n;
    if end == Stopped {
      o := n + 1;
      e := if EnoughOf(callbacks.out, Outs(rounds[..o])) then n else o;
    }
    if end == Finished || end == Stopped {
      FlushReceives(callbacks.out, Outs(rounds[..o]), pipes.out);
      FlushReceives(callbacks.err, Errs(rounds[..e]), pipes.err);
    }
  }

  /** When both pipes were read to their end: each callback has received the lines of its own pipe's text. */
  lemma PipesDeliver(callbacks: Callbacks, rounds: seq<Round>)
    ensures var (pipes, end) := ReadFromChild(true, callbacks, Pipes(FRESH, FRESH), rounds);
            end == Finished ==>
              && Received(callbacks.out, TextOf(Outs(rounds)), Flush(true, callbacks.out, pipes.out.stream))
              && Received(callbacks.err, TextOf(Errs(rounds)), Flush(true, callbacks.err, pipes.err.stream))
  {
    var n := RoundsAreRead(callbacks, rounds);
    var (pipes, end) := ReadFromChild(true, callbacks, Pipes(FRESH, FRESH), rounds);
    assert rounds[..n] + rounds[n..] == rounds;
    RoundsConcat(rounds[..n], rounds[n..]);
    if end == Finished {
      NothingAfterEnd(Outs(rounds[..n]), Outs(rounds[n..]));
      NothingAfterEnd(Errs(rounds[..n]), Errs(rounds[n..]));
      FlushReceives(callbacks.out, Outs(rounds[..n]), pipes.out);
      FlushReceives(callbacks.err, Errs(rounds[..n]), pipes.err);
    }
  }

  /** Callbacks that accept every line get all lines of both streams. */
  lemma AcceptedPipes(out: Callback, err: Callback, rounds: seq<Round>)
    requires AcceptsAll(out) && AcceptsAll(err)
    ensures var callbacks := Callbacks(Some(out), Some(err));
            var (pipes, end) := ReadFromChild(true, callbacks, Pipes(FRESH, FRESH), rounds);
            end == Finished ==>
              && Flush(true, Some(out), pipes.out.stream).delivered == Lines(true, TextOf(Outs(rounds)))
              && Flush(true, Some(err), pipes.err.stream).delivered == Lines(true, TextOf(Errs(rounds)))
  {
    PipesDeliver(Callbacks(Some(out), Some(err)), rounds);
    DeliverAccepted(out, [], Lines(true, TextOf(Outs(rounds))));
    DeliverAccepted(err, [], Lines(true, TextOf(Errs(rounds))));
  }

  // ----- The reader as it runs -----

  /** A pipe of the child, with the splitter that its callback runs. */
  class ChildPipe {
    const reader: LineReader
    var open: bool
    ghost var seen: string

    constructor (trim: bool, callback: Option<Callback>)
      ensures fresh(reader) && reader.trim == trim && reader.callback == callback && Contents() == FRESH
    {
      reader := new LineReader(trim, callback);
      open, seen := true, "";
    }

    ghost function Contents(): Pipe
      reads this, reader
    {
      Pipe(open, seen, reader.Contents())
    }

    method ReadReady(r: Option<Read>) returns (end: End)
      modifies this, reader
      ensures (Contents(), end) == ReadPipe(reader.trim, reader.callback, old(Contents()), r)
    {
      if !open || r.None? {
        return Running;
      }
      match r.value
      case Interrupted => return Running;
      case ReadFailed => return Failed;
      case Closed =>
        open := false;
        return Running;
      case Data(chunk) =>
        var more := reader.Process(chunk);
        seen := seen + chunk;
        return if more then Running else Stopped;
    }
  }

  method ReadChild(out: ChildPipe, err: ChildPipe, rounds: seq<Round>) returns (end: End)
    requires out != err && out.reader != err.reader && out.reader.trim == err.reader.trim
    modifies out, err, out.reader, err.reader
    ensures var callbacks := Callbacks(out.reader.callback, err.reader.callback);
            (Pipes(out.Contents(), err.Contents()), end) ==
            ReadFromChild(out.reader.trim, callbacks, old(Pipes(out.Contents(), err.Contents())), rounds)
  {
    ghost var callbacks := Callbacks(out.reader.callback, err.reader.callback);
    ghost var start := Pipes(out.Contents(), err.Contents());
    var i := 0;
    assert rounds[0..] == rounds;
    while i == |rounds| || !rounds[i].CommandTimedOut?
      invariant 0 <= i <= |rounds|
      invariant ReadFromChild(out.reader.trim, callbacks, start, rounds) ==
                ReadFromChild(out.reader.trim, callbacks, Pipes(out.Contents(), err.Contents()), rounds[i..])
      decreases |rounds| - i
    {
      if !out.open && !err.open {
        return Finished;
      }
      if i == |rounds| {
        return Running;
      }
      assert rounds[i..][0] == rounds[i] && rounds[i..][1..] == rounds[i + 1..];
      match rounds[i] {
        case SelectFailed => return Failed;
        case Ready(o, e) =>
          end := out.ReadReady(o);
          if end != Running {
            return;
          }
          end := err.ReadReady(e);
          if end != Running {
            return;
          }
        case Retry =>
      }
      i := i + 1;
    }
    return TimedOut;
  }
}
