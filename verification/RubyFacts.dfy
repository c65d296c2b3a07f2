/** Custom Ruby facts: a second memoising evaluator, whose facts read each other while their exceptions are caught,
    and which shares its values with the native collection. */
module RubyFacts {
  import opened Sequences
  import opened Values
  import opened DeepMerge
  import Chunks

  type Error = Chunks.Error
  type Outcome = Chunks.Outcome
  type Arguments = Chunks.Arguments

  /** What a confine's own test says; it may raise. */
  datatype Answer = Yes | No | Failing(error: Error)

  datatype Confine = OnFact(fact: string, test: RubyValue -> Answer) | OnBlock(run: () -> Answer)

  /** A resolution has a value, nil for none, or a block, or a command, in this order. A block reads the facts it
      wants, then computes: a pure function that may raise. Of a command only what running it gives matters: its
      output, or none when it fails. */
  datatype Resolution = Resolution(explicitWeight: Option<nat>, confines: seq<Confine>, value: RubyValue,
                                   wanted: seq<string>, block: Option<seq<RubyValue> -> Outcome>,
                                   command: Option<Option<string>>)

  datatype FactCell = FactCell(resolutions: seq<Resolution>, value: RubyValue, resolved: bool, resolving: bool)

  /** The custom facts by name, and the values the native collection holds. */
  datatype World = World(facts: map<string, FactCell>, natives: map<string, RubyValue>)

  function Weight(r: Resolution): nat {
    if r.explicitWeight.Some? then r.explicitWeight.value else |r.confines|
  }

  predicate Descending(rs: seq<Resolution>) {
    forall i, j :: 0 <= i < j < |rs| ==> Weight(rs[i]) >= Weight(rs[j])
  }

  /** std::sort leaves the order of equal weights open: everything below holds for whatever it does. */
  type Sorter = seq<Resolution> -> seq<Resolution>

  ghost predicate Sorts(sort: Sorter) {
    forall rs :: SortsTo(rs, sort(rs))
  }

  ghost predicate SortsTo(rs: seq<Resolution>, sorted: seq<Resolution>) {
    Descending(sorted) && multiset(sorted) == multiset(rs) && |sorted| == |rs|
  }

  /** One sort of this kind: insertion, which keeps the order of equal weights. */
  function ByWeight(rs: seq<Resolution>): seq<Resolution> {
    if rs == [] then [] else Inserted(rs[0], ByWeight(rs[1..]))
  }

  function Inserted(r: Resolution, rs: seq<Resolution>): seq<Resolution> {
    if rs == [] || Weight(r) >= Weight(rs[0]) then [r] + rs else [rs[0]] + Inserted(r, rs[1..])
  }

  lemma {:induction false} InsertedElements(r: Resolution, rs: seq<Resolution>)
    ensures multiset(Inserted(r, rs)) == multiset(rs) + multiset{r} && |Inserted(r, rs)| == |rs| + 1
  {
    if rs != [] && Weight(r) < Weight(rs[0]) {
      InsertedElements(r, rs[1..]);
      assert rs == [rs[0]] + rs[1..];
    }
  }

  lemma {:induction false} InsertedDescends(r: Resolution, rs: seq<Resolution>)
    requires Descending(rs)
    ensures Descending(Inserted(r, rs))
    ensures forall q :: q in Inserted(r, rs) ==> q == r || q in rs
  {
    if rs != [] && Weight(r) < Weight(rs[0]) {
      InsertedDescends(r, rs[1..]);
      var rest := Inserted(r, rs[1..]);
      forall j | 0 <= j < |rest| ensures Weight(rs[0]) >= Weight(rest[j]) {
        assert rest[j] in rest;
      }
    }
  }

  lemma InsertedSortsTo(r: Resolution, rs: seq<Resolution>, sorted: seq<Resolution>)
    requires SortsTo(rs, sorted)
    ensures SortsTo([r] + rs, Inserted(r, sorted))
  {
    InsertedElements(r, sorted);
    InsertedDescends(r, sorted);
    assert multiset([r] + rs) == multiset(rs) + multiset{r};
  }

  lemma {:induction false} ByWeightSortsTo(rs: seq<Resolution>)
    ensures SortsTo(rs, ByWeight(rs))
  {
    if rs != [] {
      ByWeightSortsTo(rs[1..]);
      InsertedSortsTo(rs[0], rs[1..], ByWeight(rs[1..]));
      assert [rs[0]] + rs[1..] == rs;
    }
  }

  lemma ByWeightSorts()
    ensures Sorts(ByWeight)
  {
    forall rs ensures SortsTo(rs, ByWeight(rs)) {
      ByWeightSortsTo(rs);
    }
  }

  // ----- The evaluator -----

  /** Facts that may still start a resolution of their own. */
  function Idle(w: World): set<string> {
    set n | n in w.facts && !w.facts[n].resolving && w.facts[n].resolutions != []
  }

  /** What no evaluation changes: which facts are being resolved, and everything about those. */
  ghost predicate Frame(w: World, u: World) {
    && Idle(u) == Idle(w)
    && (forall n :: n in w.facts ==> n in u.facts && u.facts[n].resolving == w.facts[n].resolving)
    && (forall n :: n in w.facts && w.facts[n].resolving ==> u.facts[n] == w.facts[n])
    && (forall n :: n in u.facts && n !in w.facts ==> !u.facts[n].resolving)
  }

  function WithFact(w: World, n: string, cell: FactCell): World {
    w.(facts := w.facts[n := cell])
  }

  function Begun(sort: Sorter, cell: FactCell): FactCell {
    cell.(resolutions := sort(cell.resolutions), resolving := true)
  }

  /** The built-in fact counts as a resolution of weight 0. */
  predicate NativeFirst(sorted: seq<Resolution>) {
    sorted == [] || Weight(sorted[0]) == 0
  }

  function FactValue(sort: Sorter, w: World, n: string): (r: (World, Outcome))
    requires Sorts(sort) && n in w.facts
    ensures Frame(w, r.0)
    decreases Idle(w), 0, 1
  {
    var cell := w.facts[n];
    if cell.resolving then (w, Chunks.Raised(Chunks.CycleDetected))
    else if cell.resolved then (w, Chunks.Good(cell.value))
    else Evaluate(sort, w, n)
  }

  function Evaluate(sort: Sorter, w: World, n: string): (r: (World, Outcome))
    requires Sorts(sort) && n in w.facts && !w.facts[n].resolving && !w.facts[n].resolved
    ensures Frame(w, r.0)
    decreases Idle(w), 0, 0
  {
    BegunFrame(sort, w, n);
    var begun := Begun(sort, w.facts[n]);
    var started := WithFact(w, n, begun);
    if NativeFirst(begun.resolutions) && n in w.natives then
      LeftFrame(w, started, WithValue(started, n, w.natives[n], false), n, begun, false);
      (Left(WithValue(started, n, w.natives[n], false), n, false), Chunks.Good(w.natives[n]))
    else if begun.value != Nil then
      LeftFrame(w, started, started, n, begun, true);
      (Left(started, n, true), Chunks.Good(begun.value))
    else
      var (u, picked) := if begun.resolutions == [] then (started, Chunks.Good(Nil))
                         else Pick(sort, started, begun.resolutions);
      LeftFrame(w, u, WithValue(u, n, OrNil(picked), true), n, begun, true);
      (Left(WithValue(u, n, OrNil(picked), true), n, true), Chunks.Good(OrNil(picked)))
  }

  /** What is left of an evaluation once the fact is marked and its resolutions are sorted. */
  function Settled(sort: Sorter, started: World, n: string): (World, Outcome)
    requires Sorts(sort) && n in started.facts
  {
    var begun := started.facts[n];
    if NativeFirst(begun.resolutions) && n in started.natives then
      (Left(WithValue(started, n, started.natives[n], false), n, false), Chunks.Good(started.natives[n]))
    else if begun.value != Nil then (Left(started, n, true), Chunks.Good(begun.value))
    else
      var (u, value) := Searched(sort, started, n);
      if n in u.facts then (Left(WithValue(u, n, value, true), n, true), Chunks.Good(value))
      else (u, Chunks.Good(value))
  }

  function Searched(sort: Sorter, started: World, n: string): (World, RubyValue)
    requires Sorts(sort) && n in started.facts
  {
    if started.facts[n].resolutions == [] then (started, Nil)
    else
      var (u, picked) := Pick(sort, started, started.facts[n].resolutions);
      (u, OrNil(picked))
  }

  lemma EvaluateSettles(sort: Sorter, w: World, n: string)
    requires Sorts(sort) && n in w.facts && !w.facts[n].resolving && !w.facts[n].resolved
    ensures Evaluate(sort, w, n) == Settled(sort, WithFact(w, n, Begun(sort, w.facts[n])), n)
  {
  }

  function WithValue(w: World, n: string, value: RubyValue, done: bool): World
    requires n in w.facts
  {
    WithFact(w, n, w.facts[n].(value := value, resolved := done))
  }

  /** Leave the fact, handing its value to the collection (where nil removes) unless it came from there. */
  function Left(w: World, n: string, add: bool): World
    requires n in w.facts
  {
    var cell := w.facts[n];
    World(w.facts[n := cell.(resolving := false)],
          if !add then w.natives else if cell.value == Nil then w.natives - {n} else w.natives[n := cell.value])
  }

  lemma BegunFrame(sort: Sorter, w: World, n: string)
    requires Sorts(sort) && n in w.facts && !w.facts[n].resolving
    ensures var begun := Begun(sort, w.facts[n]);
            && SortsTo(w.facts[n].resolutions, begun.resolutions)
            && (begun.resolutions != [] <==> n in Idle(w))
            && Idle(WithFact(w, n, begun)) == Idle(w) - {n}
  {
    assert SortsTo(w.facts[n].resolutions, sort(w.facts[n].resolutions));
  }

  lemma LeftFrame(w: World, u: World, v: World, n: string, begun: FactCell, add: bool)
    requires n in w.facts && !w.facts[n].resolving && begun.resolving && Frame(WithFact(w, n, begun), u)
    requires begun.resolutions != [] <==> n in Idle(w)
    requires n in v.facts && v.facts == u.facts[n := v.facts[n]] && v.facts[n].resolutions == begun.resolutions
    ensures Frame(w, Left(v, n, add))
  {
    LeftIdle(w, u, v, n, begun, add);
  }

  lemma LeftIdle(w: World, u: World, v: World, n: string, begun: FactCell, add: bool)
    requires n in w.facts && !w.facts[n].resolving && begun.resolving && Idle(u) == Idle(WithFact(w, n, begun))
    requires begun.resolutions != [] <==> n in Idle(w)
    requires n in u.facts && u.facts[n].resolving
    requires n in v.facts && v.facts == u.facts[n := v.facts[n]] && v.facts[n].resolutions == begun.resolutions
    ensures Idle(Left(v, n, add)) == Idle(w)
  {
    assert Idle(WithFact(w, n, begun)) == Idle(w) - {n};
    assert Idle(Left(v, n, add)) == Idle(u) + if begun.resolutions != [] then {n} else {};
  }

  /** The rescue clause: an exception resolves the fact to nil. */
  function OrNil(outcome: Outcome): RubyValue {
    if outcome.Good? then outcome.value else Nil
  }

  /** Facter.value by name: a name with no custom fact gets one when the collection has a value for it. */
  function ReadFact(sort: Sorter, w: World, n: string): (r: (World, Outcome))
    requires Sorts(sort)
    ensures Frame(w, r.0)
    decreases Idle(w), 1, 0
  {
    if n in w.facts then FactValue(sort, w, n)
    else if n in w.natives then
      var created := WithFact(w, n, FactCell([], Nil, false, false));
      assert Idle(created) == Idle(w);
      FactValue(sort, created, n)
    else (w, Chunks.Good(Nil))
  }

  function ReadFacts(sort: Sorter, w: World, names: seq<string>): (r: (World, Arguments))
    requires Sorts(sort)
    ensures Frame(w, r.0)
    decreases Idle(w), 2, |names|
  {
    if names == [] then (w, Chunks.Collected([]))
    else
      var (u, first) := ReadFact(sort, w, names[0]);
      match first
      case Raised(error) => (u, Chunks.Aborted(error))
      case Good(value) =>
        var (v, rest) := ReadFacts(sort, u, names[1..]);
        (v, if rest.Aborted? then rest else Chunks.Collected([value] + rest.values))
  }

  function ConfineAnswer(sort: Sorter, w: World, c: Confine): (r: (World, Answer))
    requires Sorts(sort)
    ensures Frame(w, r.0)
    decreases Idle(w), 2, 0
  {
    match c
    case OnBlock(run) => (w, run())
    case OnFact(fact, test) =>
      var (u, outcome) := ReadFact(sort, w, fact);
      (u, match outcome
          case Raised(error) => Failing(error)
          case Good(value) => if value == Nil then No else test(value))
  }

  function Suitable(sort: Sorter, w: World, confines: seq<Confine>): (r: (World, Answer))
    requires Sorts(sort)
    ensures Frame(w, r.0)
    decreases Idle(w), 3, |confines|
  {
    if confines == [] then (w, Yes)
    else
      var (u, answer) := ConfineAnswer(sort, w, confines[0]);
      if answer.Yes? then Suitable(sort, u, confines[1..]) else (u, answer)
  }

  /** What trying one resolution comes to. */
  datatype Verdict = Unsuitable | NilValue | Valued(value: RubyValue) | Failed(error: Error)

  predicate IsRejected(v: Verdict) {
    v.Unsuitable? || v.NilValue?
  }

  function CommandValue(command: Option<Option<string>>): RubyValue {
    if command.Some? && command.value.Some? then Text(command.value.value) else Nil
  }

  function ResolutionValue(sort: Sorter, w: World, r: Resolution): (j: (World, Outcome))
    requires Sorts(sort)
    ensures Frame(w, j.0)
    decreases Idle(w), 3, 0
  {
    if r.value != Nil then (w, Chunks.Good(r.value))
    else if r.block.Some? then
      var (u, args) := ReadFacts(sort, w, r.wanted);
      (u, Chunks.CallBlock(r.block.value, args))
    else (w, Chunks.Good(CommandValue(r.command)))
  }

  function Judge(sort: Sorter, w: World, r: Resolution): (j: (World, Verdict))
    requires Sorts(sort)
    ensures Frame(w, j.0) && j.1 != Valued(Nil)
    decreases Idle(w), 4, 0
  {
    var (u, answer) := Suitable(sort, w, r.confines);
    match answer
    case Failing(error) => (u, Failed(error))
    case No => (u, Unsuitable)
    case Yes =>
      var (v, outcome) := ResolutionValue(sort, u, r);
      (v, match outcome
          case Raised(error) => Failed(error)
          case Good(value) => if value == Nil then NilValue else Valued(value))
  }

  /** Try the resolutions in order until one has a value; an exception ends it. */
  function Pick(sort: Sorter, w: World, rs: seq<Resolution>): (r: (World, Outcome))
    requires Sorts(sort)
    ensures Frame(w, r.0)
    decreases Idle(w), 5, |rs|
  {
    if rs == [] then (w, Chunks.Good(Nil))
    else
      var (u, verdict) := Judge(sort, w, rs[0]);
      match verdict
      case Valued(value) => (u, Chunks.Good(value))
      case Failed(error) => (u, Chunks.Raised(error))
      case _ => Pick(sort, u, rs[1..])
  }

  // ----- The returned value and the collection agree -----

  function NativeValue(w: World, n: string): RubyValue {
    if n in w.natives then w.natives[n] else Nil
  }

  function Resolving(w: World): set<string> {
    set n | n in w.facts && w.facts[n].resolving
  }

  /** Every resolved fact has the value the collection holds for it, nil when it holds none. */
  ghost predicate Agrees(w: World) {
    && (forall n :: n in w.natives ==> w.natives[n] != Nil)
    && (forall n :: n in w.facts && w.facts[n].resolved ==> w.facts[n].value == NativeValue(w, n))
  }

  /** Leaving a fact settles its agreement, and disturbs no other fact's. */
  lemma LeftAgrees(u: World, n: string, value: RubyValue, done: bool, add: bool)
    requires Agrees(u) && n in u.facts && (!add ==> value == NativeValue(u, n))
    ensures var v := Left(WithValue(u, n, value, done), n, add);
            Agrees(v) && NativeValue(v, n) == value
  {
  }

  lemma {:induction false} FactValueAgrees(sort: Sorter, w: World, n: string)
    requires Sorts(sort) && n in w.facts && Agrees(w)
    ensures var (u, outcome) := FactValue(sort, w, n);
            && Agrees(u)
            && outcome == if w.facts[n].resolving then Chunks.Raised(Chunks.CycleDetected) else Chunks.Good(NativeValue(u, n))
    decreases Idle(w), 0, 1
  {
    if !w.facts[n].resolving && !w.facts[n].resolved {
      EvaluateAgrees(sort, w, n);
    }
  }

  lemma {:induction false} EvaluateAgrees(sort: Sorter, w: World, n: string)
    requires Sorts(sort) && n in w.facts && Agrees(w) && !w.facts[n].resolving && !w.facts[n].resolved
    ensures var (u, outcome) := Evaluate(sort, w, n);
            Agrees(u) && outcome == Chunks.Good(NativeValue(u, n))
    decreases Idle(w), 0, 0
  {
    BegunFrame(sort, w, n);
    var begun := Begun(sort, w.facts[n]);
    var started := WithFact(w, n, begun);
    assert Agrees(started);
    if NativeFirst(begun.resolutions) && n in w.natives {
      LeftAgrees(started, n, w.natives[n], false, false);
    } else if begun.value != Nil {
      assert WithValue(started, n, begun.value, false) == started;
      LeftAgrees(started, n, begun.value, false, true);
    } else if begun.resolutions == [] {
      LeftAgrees(started, n, Nil, true, true);
    } else {
      PickAgrees(sort, started, begun.resolutions);
      var (u, picked) := Pick(sort, started, begun.resolutions);
      LeftAgrees(u, n, OrNil(picked), true, true);
    }
  }

  predicate IsResolving(w: World, n: string) {
    n in w.facts && w.facts[n].resolving
  }

  lemma {:induction false} ReadFactAgrees(sort: Sorter, w: World, n: string)
    requires Sorts(sort) && Agrees(w)
    ensures var (u, outcome) := ReadFact(sort, w, n);
            && Agrees(u)
            && outcome == if IsResolving(w, n) then Chunks.Raised(Chunks.CycleDetected) else Chunks.Good(NativeValue(u, n))
    decreases Idle(w), 1, 0
  {
    if n in w.facts {
      FactValueAgrees(sort, w, n);
    } else if n in w.natives {
      var created := WithFact(w, n, FactCell([], Nil, false, false));
      assert Idle(created) == Idle(w);
      FactValueAgrees(sort, created, n);
    }
  }

  lemma {:induction false} ReadFactsAgree(sort: Sorter, w: World, names: seq<string>)
    requires Sorts(sort) && Agrees(w)
    ensures Agrees(ReadFacts(sort, w, names).0)
    decreases Idle(w), 2, |names|
  {
    if names != [] {
      ReadFactAgrees(sort, w, names[0]);
      var (u, first) := ReadFact(sort, w, names[0]);
      if first.Good? {
        ReadFactsAgree(sort, u, names[1..]);
      }
    }
  }

  lemma {:induction false} SuitableAgrees(sort: Sorter, w: World, confines: seq<Confine>)
    requires Sorts(sort) && Agrees(w)
    ensures Agrees(Suitable(sort, w, confines).0)
    decreases Idle(w), 3, |confines|
  {
    if confines != [] {
      if confines[0].OnFact? {
        ReadFactAgrees(sort, w, confines[0].fact);
      }
      SuitableAgrees(sort, ConfineAnswer(sort, w, confines[0]).0, confines[1..]);
    }
  }

  lemma JudgeAgrees(sort: Sorter, w: World, r: Resolution)
    requires Sorts(sort) && Agrees(w)
    ensures Agrees(Judge(sort, w, r).0)
    decreases Idle(w), 4, 0
  {
    SuitableAgrees(sort, w, r.confines);
    ReadFactsAgree(sort, Suitable(sort, w, r.confines).0, r.wanted);
  }

  lemma {:induction false} PickAgrees(sort: Sorter, w: World, rs: seq<Resolution>)
    requires Sorts(sort) && Agrees(w)
    ensures Agrees(Pick(sort, w, rs).0)
    decreases Idle(w), 5, |rs|
  {
    if rs != [] {
      JudgeAgrees(sort, w, rs[0]);
      PickAgrees(sort, Judge(sort, w, rs[0]).0, rs[1..]);
    }
  }

  // ----- Whole runs -----

  datatype Operation = Value(name: string) | Honor(name: string) | Flush

  /** Flushing resets every fact; the collection keeps what was added to it. */
  function Flushed(w: World): World {
    FlushedBut(w, {})
  }

  function FlushedBut(w: World, kept: set<string>): World {
    w.(facts := map n | n in w.facts :: if n in kept then w.facts[n] else w.facts[n].(value := Nil, resolved := false))
  }

  function Reset(w: World, n: string): World
    requires n in w.facts
  {
    WithFact(w, n, w.facts[n].(value := Nil, resolved := false))
  }

  lemma FlushedStep(w: World, kept: set<string>, n: string)
    requires n in kept && n in w.facts
    ensures Reset(FlushedBut(w, kept), n) == FlushedBut(w, kept - {n})
  {
    assert Reset(FlushedBut(w, kept), n).facts == FlushedBut(w, kept - {n}).facts;
  }

  lemma FlushedNothing(w: World)
    ensures FlushedBut(w, w.facts.Keys) == w
  {
    assert FlushedBut(w, w.facts.Keys).facts == w.facts;
  }

  /** Give a fact, created if need be, the value that the collection has from the environment. */
  function Pinned(w: World, n: string): World
    requires n in w.natives
  {
    var v := if n in w.facts then w else WithFact(w, n, FactCell([], Nil, false, false));
    WithValue(v, n, w.natives[n], true)
  }

  /** A run, with each outcome beside what the collection holds for the fact at that moment. */
  function Run(sort: Sorter, w: World, ops: seq<Operation>): (World, seq<(Outcome, RubyValue)>)
    requires Sorts(sort)
    decreases |ops|
  {
    if ops == [] then (w, [])
    else
      match ops[0]
      case Flush => Run(sort, Flushed(w), ops[1..])
      case Honor(name) => Run(sort, if name in w.natives then Pinned(w, name) else w, ops[1..])
      case Value(name) =>
        var (u, outcome) := ReadFact(sort, w, name);
        var (v, rest) := Run(sort, u, ops[1..]);
        (v, [(outcome, NativeValue(u, name))] + rest)
  }

  lemma FrameResolving(w: World, u: World)
    requires Frame(w, u)
    ensures Resolving(u) == Resolving(w)
  {
  }

  lemma ReadFromOutside(sort: Sorter, w: World, n: string)
    requires Sorts(sort) && Agrees(w) && Resolving(w) == {}
    ensures var (u, outcome) := ReadFact(sort, w, n);
            Agrees(u) && Resolving(u) == {} && outcome == Chunks.Good(NativeValue(u, n))
  {
    FrameResolving(w, ReadFact(sort, w, n).0);
    ReadFactAgrees(sort, w, n);
    if n in w.facts {
      assert n !in Resolving(w);
      FactValueAgrees(sort, w, n);
    } else if n in w.natives {
      var created := WithFact(w, n, FactCell([], Nil, false, false));
      assert Agrees(created);
      FactValueAgrees(sort, created, n);
    }
  }

  /** However facts read each other, asking from outside never raises, leaves no fact resolving, and returns what
      the collection then holds, nil meaning that it holds nothing; over any run of
      values, facts set from the environment, and flushes. */
  lemma {:induction false} RunAgrees(sort: Sorter, w: World, ops: seq<Operation>)
    requires Sorts(sort) && Agrees(w) && Resolving(w) == {}
    ensures var (u, outcomes) := Run(sort, w, ops);
            Agrees(u) && Resolving(u) == {} && forall o :: o in outcomes ==> o.0 == Chunks.Good(o.1)
    decreases |ops|
  {
    if ops != [] {
      match ops[0]
      case Flush =>
        assert Resolving(Flushed(w)) == {};
        RunAgrees(sort, Flushed(w), ops[1..]);
      case Honor(name) =>
        if name in w.natives {
          assert Resolving(Pinned(w, name)) == {};
          RunAgrees(sort, Pinned(w, name), ops[1..]);
        } else {
          RunAgrees(sort, w, ops[1..]);
        }
      case Value(name) =>
        ReadFromOutside(sort, w, name);
        RunAgrees(sort, ReadFact(sort, w, name).0, ops[1..]);
    }
  }

  // ----- Which resolution a value comes from -----

  /** What is left after a confine is checked: it may have read a fact. */
  function AfterConfine(sort: Sorter, w: World, c: Confine): World
    requires Sorts(sort)
  {
    match c
    case OnBlock(_) => w
    case OnFact(fact, _) => ReadFact(sort, w, fact).0
  }

  /** What a confine has to say: that of its block; or that of its test about the value that the collection holds for
      its fact once the fact was read, and no when it holds none; or the failure of a read that closes a cycle. */
  function Said(sort: Sorter, w: World, c: Confine): Answer
    requires Sorts(sort)
  {
    match c
    case OnBlock(run) => run()
    case OnFact(fact, test) =>
      var natives := ReadFact(sort, w, fact).0.natives;
      if IsResolving(w, fact) then Failing(Chunks.CycleDetected)
      else if fact in natives then test(natives[fact])
      else No
  }

  lemma ConfineSays(sort: Sorter, w: World, c: Confine)
    requires Sorts(sort) && Agrees(w)
    ensures ConfineAnswer(sort, w, c) == (AfterConfine(sort, w, c), Said(sort, w, c)) && Agrees(AfterConfine(sort, w, c))
  {
    if c.OnFact? {
      ReadFactAgrees(sort, w, c.fact);
    }
  }

  /** The world in which confine number k is checked. */
  function Asked(sort: Sorter, w: World, confines: seq<Confine>, k: nat): World
    requires Sorts(sort) && k <= |confines|
    decreases k
  {
    if k == 0 then w else Asked(sort, AfterConfine(sort, w, confines[0]), confines[1..], k - 1)
  }

  function SaidAt(sort: Sorter, w: World, confines: seq<Confine>, k: nat): Answer
    requires Sorts(sort) && k < |confines|
  {
    Said(sort, Asked(sort, w, confines, k), confines[k])
  }

  ghost predicate AllHold(sort: Sorter, w: World, confines: seq<Confine>, n: nat)
    requires Sorts(sort) && n <= |confines|
  {
    forall k :: 0 <= k < n ==> SaidAt(sort, w, confines, k).Yes?
  }

  lemma HoldAfterFirst(sort: Sorter, w: World, confines: seq<Confine>, n: nat)
    requires Sorts(sort) && 0 < n <= |confines|
    ensures AllHold(sort, w, confines, n) <==>
            Said(sort, w, confines[0]).Yes? && AllHold(sort, AfterConfine(sort, w, confines[0]), confines[1..], n - 1)
  {
    var u := AfterConfine(sort, w, confines[0]);
    assert SaidAt(sort, w, confines, 0) == Said(sort, w, confines[0]);
    forall k | 0 < k < |confines| ensures SaidAt(sort, w, confines, k) == SaidAt(sort, u, confines[1..], k - 1) {
    }
    if AllHold(sort, w, confines, n) {
      forall k | 0 <= k < n - 1 ensures SaidAt(sort, u, confines[1..], k).Yes? {
        assert SaidAt(sort, w, confines, k + 1).Yes?;
      }
    }
  }

  /** A resolution is suitable exactly when each of its confines holds, each in the world left by those before it. */
  lemma {:induction false} SuitableExactly(sort: Sorter, w: World, confines: seq<Confine>)
    requires Sorts(sort) && Agrees(w)
    ensures var (u, answer) := Suitable(sort, w, confines);
            && (answer.Yes? <==> AllHold(sort, w, confines, |confines|))
            && (answer.Yes? ==> u == Asked(sort, w, confines, |confines|) && Agrees(u))
    decreases |confines|
  {
    if confines != [] {
      ConfineSays(sort, w, confines[0]);
      HoldAfterFirst(sort, w, confines, |confines|);
      if Said(sort, w, confines[0]).Yes? {
        SuitableExactly(sort, AfterConfine(sort, w, confines[0]), confines[1..]);
      }
    }
  }

  /** The first confine that does not hold decides: it says no, or it fails. */
  lemma {:induction false} FirstConfineDecides(sort: Sorter, w: World, confines: seq<Confine>, k: nat)
    requires Sorts(sort) && Agrees(w) && k < |confines|
    requires AllHold(sort, w, confines, k) && !SaidAt(sort, w, confines, k).Yes?
    ensures Suitable(sort, w, confines).1 == SaidAt(sort, w, confines, k)
    decreases k
  {
    ConfineSays(sort, w, confines[0]);
    if k > 0 {
      HoldAfterFirst(sort, w, confines, k);
      FirstConfineDecides(sort, AfterConfine(sort, w, confines[0]), confines[1..], k - 1);
    }
  }

  /** The world after the first k facts are read. */
  function ReadTo(sort: Sorter, w: World, names: seq<string>, k: nat): World
    requires Sorts(sort) && k <= |names|
    decreases k
  {
    if k == 0 then w else ReadTo(sort, ReadFact(sort, w, names[0]).0, names[1..], k - 1)
  }

  /** In the order of the names, what the collection held for each once it was read, nil for nothing. */
  ghost predicate ValuesRead(sort: Sorter, w: World, names: seq<string>, values: seq<RubyValue>)
    requires Sorts(sort)
  {
    && |values| == |names|
    && forall k :: 0 <= k < |names| ==> values[k] == NativeValue(ReadTo(sort, w, names, k + 1), names[k])
  }

  lemma ValuesReadStep(sort: Sorter, w: World, names: seq<string>, values: seq<RubyValue>)
    requires Sorts(sort) && names != []
    requires ValuesRead(sort, ReadFact(sort, w, names[0]).0, names[1..], values)
    ensures ValuesRead(sort, w, names, [NativeValue(ReadFact(sort, w, names[0]).0, names[0])] + values)
  {
    var u := ReadFact(sort, w, names[0]).0;
    assert ReadTo(sort, w, names, 1) == ReadTo(sort, u, names[1..], 0) == u;
    forall k | 0 < k < |names|
      ensures ReadTo(sort, w, names, k + 1) == ReadTo(sort, u, names[1..], k) && names[k] == names[1..][k - 1]
    {
    }
  }

  predicate AnyResolving(w: World, names: seq<string>) {
    names != [] && (IsResolving(w, names[0]) || AnyResolving(w, names[1..]))
  }

  lemma {:induction false} FrameAnyResolving(w: World, u: World, names: seq<string>)
    requires Frame(w, u)
    ensures AnyResolving(u, names) == AnyResolving(w, names)
  {
    if names != [] {
      FrameAnyResolving(w, u, names[1..]);
    }
  }

  /** Reading facts gives these values; it fails exactly when one of the facts is being resolved. */
  lemma {:induction false} ReadFactsExactly(sort: Sorter, w: World, names: seq<string>)
    requires Sorts(sort) && Agrees(w)
    ensures var args := ReadFacts(sort, w, names).1;
            if AnyResolving(w, names) then args == Chunks.Aborted(Chunks.CycleDetected)
            else args.Collected? && ValuesRead(sort, w, names, args.values)
    decreases |names|
  {
    if names != [] {
      var (u, first) := ReadFact(sort, w, names[0]);
      ReadFactAgrees(sort, w, names[0]);
      if first.Good? {
        FrameAnyResolving(w, u, names[1..]);
        ReadFactsExactly(sort, u, names[1..]);
        var rest := ReadFacts(sort, u, names[1..]).1;
        if rest.Collected? {
          ValuesReadStep(sort, w, names, rest.values);
        }
      }
    }
  }

  /** A resolution has a value exactly when it is suitable and the first of these that it has gives one that is not
      nil: its own value, its block called with what its reads give, or its command. */
  lemma ValuedExactly(sort: Sorter, w: World, r: Resolution, value: RubyValue)
    requires Sorts(sort) && Agrees(w)
    ensures var args := ReadFacts(sort, Asked(sort, w, r.confines, |r.confines|), r.wanted).1;
            Judge(sort, w, r).1 == Valued(value) <==>
            && AllHold(sort, w, r.confines, |r.confines|)
            && value != Nil
            && if r.value != Nil then value == r.value
               else if r.block.Some? then args.Collected? && r.block.value(args.values) == Chunks.Good(value)
               else r.command == Some(Some(if value.Text? then value.text else "")) && value.Text?
  {
    SuitableExactly(sort, w, r.confines);
  }

  /** A resolution fails exactly when the first of its confines that does not hold fails, or it is suitable, has no
      value of its own, and its reads or its block raise. */
  lemma FailedExactly(sort: Sorter, w: World, r: Resolution, error: Error)
    requires Sorts(sort) && Agrees(w)
    ensures var args := ReadFacts(sort, Asked(sort, w, r.confines, |r.confines|), r.wanted).1;
            Judge(sort, w, r).1 == Failed(error) <==>
            || (exists k :: 0 <= k < |r.confines| && FailsFirst(sort, w, r.confines, k, error))
            || (&& AllHold(sort, w, r.confines, |r.confines|) && r.value == Nil && r.block.Some?
                && if args.Aborted? then args.error == error else r.block.value(args.values) == Chunks.Raised(error))
  {
    SuitableExactly(sort, w, r.confines);
    forall k | 0 <= k < |r.confines| && FailsFirst(sort, w, r.confines, k, error)
      ensures Suitable(sort, w, r.confines).1 == Failing(error)
    {
      FirstConfineDecides(sort, w, r.confines, k);
    }
    if Suitable(sort, w, r.confines).1 == Failing(error) {
      var k := FirstToFail(sort, w, r.confines);
      FirstConfineDecides(sort, w, r.confines, k);
      assert FailsFirst(sort, w, r.confines, k, error);
    }
  }

  ghost predicate FailsFirst(sort: Sorter, w: World, confines: seq<Confine>, k: nat, error: Error)
    requires Sorts(sort) && k < |confines|
  {
    AllHold(sort, w, confines, k) && SaidAt(sort, w, confines, k) == Failing(error)
  }

  lemma {:induction false} FirstNotToHold(sort: Sorter, w: World, confines: seq<Confine>, n: nat) returns (k: nat)
    requires Sorts(sort) && n <= |confines| && !AllHold(sort, w, confines, n)
    ensures k < n && AllHold(sort, w, confines, k) && !SaidAt(sort, w, confines, k).Yes?
    decreases n
  {
    if AllHold(sort, w, confines, n - 1) {
      k := n - 1;
    } else {
      k := FirstNotToHold(sort, w, confines, n - 1);
    }
  }

  lemma FirstToFail(sort: Sorter, w: World, confines: seq<Confine>) returns (k: nat)
    requires Sorts(sort) && Agrees(w) && !Suitable(sort, w, confines).1.Yes?
    ensures k < |confines| && AllHold(sort, w, confines, k) && !SaidAt(sort, w, confines, k).Yes?
  {
    SuitableExactly(sort, w, confines);
    k := FirstNotToHold(sort, w, confines, |confines|);
  }

  /** The world in which resolution number k is tried, the earlier ones having been rejected. */
  function Reached(sort: Sorter, w: World, rs: seq<Resolution>, k: nat): World
    requires Sorts(sort) && k <= |rs|
    decreases k
  {
    if k == 0 then w else Reached(sort, Judge(sort, w, rs[0]).0, rs[1..], k - 1)
  }

  function VerdictAt(sort: Sorter, w: World, rs: seq<Resolution>, k: nat): Verdict
    requires Sorts(sort) && k < |rs|
  {
    Judge(sort, Reached(sort, w, rs, k), rs[k]).1
  }

  /** The first resolution that is neither unsuitable nor nil decides, with its value or its failure; without one the
      search ends with nil. */
  lemma {:induction false} PickExactly(sort: Sorter, w: World, rs: seq<Resolution>, k: nat)
    requires Sorts(sort) && k <= |rs| && forall j :: 0 <= j < k ==> IsRejected(VerdictAt(sort, w, rs, j))
    requires k < |rs| ==> !IsRejected(VerdictAt(sort, w, rs, k))
    ensures Pick(sort, w, rs).1 ==
            if k == |rs| then Chunks.Good(Nil)
            else
              var verdict := VerdictAt(sort, w, rs, k);
              if verdict.Valued? then Chunks.Good(verdict.value) else Chunks.Raised(verdict.error)
    decreases k
  {
    if k > 0 {
      assert IsRejected(VerdictAt(sort, w, rs, 0));
      var u := Judge(sort, w, rs[0]).0;
      forall j | 0 < j < |rs| ensures VerdictAt(sort, w, rs, j) == VerdictAt(sort, u, rs[1..], j - 1) {
      }
      forall j | 0 <= j < k - 1 ensures IsRejected(VerdictAt(sort, u, rs[1..], j)) {
        assert IsRejected(VerdictAt(sort, w, rs, j + 1));
      }
      PickExactly(sort, u, rs[1..], k - 1);
    }
  }

  /** The value picked is that of the first resolution that is neither unsuitable nor nil. */
  lemma {:induction false} PickIsFirst(sort: Sorter, w: World, rs: seq<Resolution>) returns (k: nat)
    requires Sorts(sort) && Pick(sort, w, rs).1.Good? && Pick(sort, w, rs).1.value != Nil
    ensures k < |rs| && VerdictAt(sort, w, rs, k) == Valued(Pick(sort, w, rs).1.value)
    ensures forall j :: 0 <= j < k ==> IsRejected(VerdictAt(sort, w, rs, j))
    decreases |rs|
  {
    var (u, verdict) := Judge(sort, w, rs[0]);
    if verdict.Valued? {
      k := 0;
    } else {
      var tail := PickIsFirst(sort, u, rs[1..]);
      k := tail + 1;
      forall j | 0 <= j < k ensures IsRejected(VerdictAt(sort, w, rs, j)) {
        if j > 0 {
          assert VerdictAt(sort, w, rs, j) == VerdictAt(sort, u, rs[1..], j - 1);
        }
      }
    }
  }

  /** No weight, whether given or counted. */
  predicate WeighsNothing(r: Resolution) {
    r.explicitWeight == Some(0) || (r.explicitWeight == None && r.confines == [])
  }

  /** In the order of trial a resolution with a greater weight comes first; the number of confines is the weight of one
      that is not given a weight. */
  lemma HeavierFirst(sort: Sorter, rs: seq<Resolution>, i: nat, j: nat)
    requires Sorts(sort) && i < j < |sort(rs)|
    ensures var q, r := sort(rs)[i], sort(rs)[j];
            && (q.explicitWeight.None? && r.explicitWeight.None? ==> |q.confines| >= |r.confines|)
            && (q.explicitWeight.None? && r.explicitWeight.Some? ==> |q.confines| >= r.explicitWeight.value)
            && (q.explicitWeight.Some? && r.explicitWeight.None? ==> q.explicitWeight.value >= |r.confines|)
            && (q.explicitWeight.Some? && r.explicitWeight.Some? ==> q.explicitWeight.value >= r.explicitWeight.value)
  {
    assert SortsTo(rs, sort(rs));
  }

  ghost predicate TakesNative(w: World, n: string)
    requires n in w.facts
  {
    (forall r :: r in w.facts[n].resolutions ==> WeighsNothing(r)) && n in w.natives
  }

  /** Where any value comes from: the fact's own cache; or the collection, when no resolution weighs anything and the
      collection holds a value; or what an earlier look at the collection left behind; or the search, in which an
      exception makes it nil. */
  lemma FactValueIs(sort: Sorter, w: World, n: string)
    requires Sorts(sort) && n in w.facts && !w.facts[n].resolving
    ensures var cell := w.facts[n];
            var picked := Pick(sort, WithFact(w, n, Begun(sort, cell)), sort(cell.resolutions)).1;
            FactValue(sort, w, n).1 == Chunks.Good(
              if cell.resolved then cell.value
              else if TakesNative(w, n) then w.natives[n]
              else if cell.value != Nil then cell.value
              else if picked.Good? then picked.value else Nil)
  {
    TakesNativeMeans(sort, w, n);
  }

  lemma TakesNativeMeans(sort: Sorter, w: World, n: string)
    requires Sorts(sort) && n in w.facts
    ensures TakesNative(w, n) <==> NativeFirst(sort(w.facts[n].resolutions)) && n in w.natives
  {
    var rs := w.facts[n].resolutions;
    assert SortsTo(rs, sort(rs));
    NativeFirstMeans(rs, sort(rs));
    assert forall r :: r in rs ==> (WeighsNothing(r) <==> Weight(r) == 0);
  }

  /** What the fact keeps: its value; it counts as resolved when it was or when it was searched for, not when the value
      is only the collection's; and its resolutions are sorted once it is looked at. */
  lemma FactKeeps(sort: Sorter, w: World, n: string)
    requires Sorts(sort) && n in w.facts && !w.facts[n].resolving
    ensures var cell := w.facts[n];
            var (u, outcome) := FactValue(sort, w, n);
            && n in u.facts && outcome.Good?
            && u.facts[n] == FactCell(
                 if cell.resolved then cell.resolutions else sort(cell.resolutions), outcome.value,
                 cell.resolved || (!TakesNative(w, n) && cell.value == Nil), false)
  {
    TakesNativeMeans(sort, w, n);
    BegunFrame(sort, w, n);
  }

  /** A name that neither a custom fact nor the collection has is nil and leaves nothing behind. */
  lemma UnknownFact(sort: Sorter, w: World, n: string)
    requires Sorts(sort)
    ensures n !in w.facts && n !in w.natives ==> ReadFact(sort, w, n) == (w, Chunks.Good(Nil))
    ensures n in ReadFact(sort, w, n).0.facts <==> n in w.facts || n in w.natives
  {
    if n in w.natives && n !in w.facts {
      var created := WithFact(w, n, FactCell([], Nil, false, false));
      assert Frame(created, FactValue(sort, created, n).0);
    }
  }

  /** A value that is not nil, for a fact with nothing cached: it is the collection's exactly when the fact has no
      resolutions or a top weight of 0, and the collection has one; otherwise it is that of a suitable resolution,
      and every resolution of strictly greater weight was tried before it and was unsuitable or nil. */
  lemma ValueComesFrom(sort: Sorter, w: World, n: string) returns (k: nat)
    requires Sorts(sort) && n in w.facts
    requires var cell := w.facts[n]; !cell.resolving && !cell.resolved && cell.value == Nil
    requires var outcome := FactValue(sort, w, n).1; outcome.Good? && outcome.value != Nil
    ensures var cell := w.facts[n];
            var sorted := sort(cell.resolutions);
            var started := WithFact(w, n, Begun(sort, cell));
            var value := FactValue(sort, w, n).1.value;
            && multiset(sorted) == multiset(cell.resolutions)
            && if (forall r :: r in cell.resolutions ==> Weight(r) == 0) && n in w.natives then
                 value == w.natives[n]
               else
                 GivesValue(sort, started, sorted, k, value)
  {
    var cell := w.facts[n];
    var sorted := sort(cell.resolutions);
    assert SortsTo(cell.resolutions, sorted);
    NativeFirstMeans(cell.resolutions, sorted);
    k := 0;
    if !(NativeFirst(sorted) && n in w.natives) {
      EvaluateSettles(sort, w, n);
      k := PickGivesValue(sort, WithFact(w, n, Begun(sort, cell)), sorted);
    }
  }

  /** The value is that of resolution number k, and every one of strictly greater weight was tried before it and was
      unsuitable or nil. */
  ghost predicate GivesValue(sort: Sorter, w: World, sorted: seq<Resolution>, k: nat, value: RubyValue)
    requires Sorts(sort)
  {
    && k < |sorted| && VerdictAt(sort, w, sorted, k) == Valued(value)
    && forall j :: 0 <= j < |sorted| && Weight(sorted[j]) > Weight(sorted[k]) ==>
         j < k && IsRejected(VerdictAt(sort, w, sorted, j))
  }

  lemma PickGivesValue(sort: Sorter, w: World, sorted: seq<Resolution>) returns (k: nat)
    requires Sorts(sort) && Descending(sorted)
    requires Pick(sort, w, sorted).1.Good? && Pick(sort, w, sorted).1.value != Nil
    ensures GivesValue(sort, w, sorted, k, Pick(sort, w, sorted).1.value)
  {
    k := PickIsFirst(sort, w, sorted);
  }

  lemma NativeFirstMeans(rs: seq<Resolution>, sorted: seq<Resolution>)
    requires SortsTo(rs, sorted)
    ensures NativeFirst(sorted) <==> forall r :: r in rs ==> Weight(r) == 0
  {
    if sorted == [] {
      assert rs == [];
    } else {
      assert sorted[0] in multiset(rs);
      forall r | r in rs ensures Weight(r) <= Weight(sorted[0]) {
        assert r in multiset(sorted);
        var i :| 0 <= i < |sorted| && sorted[i] == r;
      }
    }
  }

  /** What a fact is after a flush, whether or not it had a value: when all its resolutions have weight 0, what the
      collection holds for it, its own old value included; otherwise, or when the collection holds nothing, what its
      resolutions now give. */
  lemma FlushReturns(sort: Sorter, w: World, n: string)
    requires Sorts(sort) && Agrees(w) && n in w.facts && !w.facts[n].resolving
    ensures var u := Flushed(w);
            var rs := w.facts[n].resolutions;
            FactValue(sort, u, n).1 ==
            if (forall r :: r in rs ==> Weight(r) == 0) && NativeValue(w, n) != Nil then Chunks.Good(NativeValue(w, n))
            else Chunks.Good(OrNil(Pick(sort, WithFact(u, n, Begun(sort, u.facts[n])), sort(rs)).1))
  {
    var rs := w.facts[n].resolutions;
    assert SortsTo(rs, sort(rs));
    NativeFirstMeans(rs, sort(rs));
  }

  /** A flush brings the resolutions of a resolved fact back exactly when one of them has a weight: else its old value,
      once added to the collection, counts as the built-in one. */
  lemma FlushedFact(sort: Sorter, w: World, n: string)
    requires Sorts(sort) && Agrees(w) && n in w.facts && !w.facts[n].resolving
    requires w.facts[n].resolved && w.facts[n].value != Nil
    ensures var u := Flushed(w);
            var rs := w.facts[n].resolutions;
            if forall r :: r in rs ==> Weight(r) == 0 then
              && FactValue(sort, u, n).1 == Chunks.Good(w.facts[n].value) && FactValue(sort, u, n).0.natives == w.natives
            else FactValue(sort, u, n).1 ==
                 Chunks.Good(OrNil(Pick(sort, WithFact(u, n, Begun(sort, u.facts[n])), sort(rs)).1))
  {
    FlushReturns(sort, w, n);
    var rs := w.facts[n].resolutions;
    assert SortsTo(rs, sort(rs));
    NativeFirstMeans(rs, sort(rs));
  }

  /** A value set from the environment is honored above every resolution of the fact, but only until a flush, when it
      is a value like any other. */
  lemma PinnedUntilFlush(sort: Sorter, w: World, n: string)
    requires Sorts(sort) && Agrees(w) && n in w.natives && (n in w.facts ==> !w.facts[n].resolving)
    ensures FactValue(sort, Pinned(w, n), n) == (Pinned(w, n), Chunks.Good(w.natives[n]))
    ensures var u := Flushed(Pinned(w, n));
            var rs := u.facts[n].resolutions;
            FactValue(sort, u, n).1 ==
            if forall r :: r in rs ==> Weight(r) == 0 then Chunks.Good(w.natives[n])
            else Chunks.Good(OrNil(Pick(sort, WithFact(u, n, Begun(sort, u.facts[n])), sort(rs)).1))
  {
    FlushReturns(sort, Pinned(w, n), n);
  }
}
