/** Aggregate chunks: a memoising evaluator with cycle detection over a table of chunks, as functions; the
    memo-free meaning of a chunk; and the proof that they agree on every table. */
module Chunks {
  import opened Sequences
  import opened Values
  import opened DeepMerge

  /** Chunk names are Ruby symbols. */
  type Sym = nat

  datatype Requirement = NoRequire | One(dependency: Sym) | Many(dependencies: seq<Sym>)

  datatype Error = CycleDetected | BlockFailed(reason: int) | CannotMerge | WrongType | WrongArgument

  datatype Outcome = Good(value: RubyValue) | Raised(error: Error)

  datatype Arguments = Collected(values: seq<RubyValue>) | Aborted(error: Error)

  type Block = seq<RubyValue> -> Outcome

  datatype Definition = Definition(requirement: Requirement, block: Block)

  type Table = map<Sym, Definition>

  datatype Cell = Cell(definition: Definition, value: RubyValue, resolved: bool, resolving: bool)

  /** The chunks with their flags and caches, and the blocks that completed since they were defined. */
  datatype State = State(cells: map<Sym, Cell>, completed: seq<Sym>)

  function Deps(d: Definition): seq<Sym> {
    match d.requirement
    case NoRequire => []
    case One(name) => [name]
    case Many(names) => names
  }

  // ----- The memoising evaluator -----

  function Idle(s: State): set<Sym> {
    set n | n in s.cells && !s.cells[n].resolving
  }

  function Definitions(s: State): Table {
    map n | n in s.cells :: s.cells[n].definition
  }

  function Started(s: State, n: Sym): State
    requires n in s.cells
  {
    s.(cells := s.cells[n := s.cells[n].(resolving := true)])
  }

  function Stopped(s: State, n: Sym): State
    requires n in s.cells
  {
    s.(cells := s.cells[n := s.cells[n].(resolving := false)])
  }

  function Finished(s: State, n: Sym, value: RubyValue): State
    requires n in s.cells
  {
    State(s.cells[n := s.cells[n].(value := value, resolved := true)], s.completed + [n])
  }

  function CallBlock(block: Block, args: Arguments): Outcome {
    match args
    case Aborted(error) => Raised(error)
    case Collected(values) => block(values)
  }

  function ConcludedCell(cell: Cell, outcome: Outcome): Cell {
    if outcome.Good? then Cell(cell.definition, outcome.value, true, false) else cell.(resolving := false)
  }

  function Concluded(s: State, n: Sym, outcome: Outcome): State
    requires n in s.cells
  {
    State(s.cells[n := ConcludedCell(s.cells[n], outcome)], s.completed + if outcome.Good? then [n] else [])
  }

  lemma StartedFrame(s: State, n: Sym)
    requires n in s.cells && !s.cells[n].resolving
    ensures var t := Started(s, n);
            Definitions(t) == Definitions(s) && Idle(t) == Idle(s) - {n} && n in Idle(s)
  {
  }

  /** The frame of every evaluation: the table and the flags of unfinished chunks are as before. */
  ghost predicate SameFrame(s: State, t: State) {
    Definitions(t) == Definitions(s) && Idle(t) == Idle(s) && t.cells.Keys == s.cells.Keys
  }

  function EvalChunk(s: State, n: Sym): (r: (State, Outcome))
    requires n in s.cells
    ensures SameFrame(s, r.0)
    decreases Idle(s), 0, 0
  {
    var cell := s.cells[n];
    if cell.resolving then (s, Raised(CycleDetected))
    else if cell.resolved then (s, Good(cell.value))
    else
      assert n in Idle(s) && Idle(Started(s, n)) == Idle(s) - {n};
      assert Definitions(Started(s, n)) == Definitions(s);
      var (t, args) := EvalDeps(Started(s, n), Deps(cell.definition));
      var outcome := CallBlock(cell.definition.block, args);
      var u := Concluded(t, n, outcome);
      assert Idle(u) == Idle(t) + {n} && Definitions(u) == Definitions(t);
      (u, outcome)
  }

  function EvalDeps(s: State, deps: seq<Sym>): (r: (State, Arguments))
    ensures SameFrame(s, r.0)
    decreases Idle(s), 2, |deps|
  {
    if deps == [] then (s, Collected([]))
    else
      var (t, first) := FindChunk(s, deps[0]);
      match first
      case Raised(error) => (t, Aborted(error))
      case Good(value) =>
        var (u, rest) := EvalDeps(t, deps[1..]);
        match rest
        case Aborted(error) => (u, Aborted(error))
        case Collected(values) => (u, Collected([value] + values))
  }

  function FindChunk(s: State, n: Sym): (r: (State, Outcome))
    ensures SameFrame(s, r.0)
    decreases Idle(s), 1, 0
  {
    if n in s.cells then EvalChunk(s, n) else (s, Good(Nil))
  }

  lemma EvalChunkStep(s: State, n: Sym)
    requires n in s.cells && !s.cells[n].resolving && !s.cells[n].resolved
    ensures var (t, args) := EvalDeps(Started(s, n), Deps(s.cells[n].definition));
            && n in t.cells && t.cells[n].definition == s.cells[n].definition
            && var outcome := CallBlock(s.cells[n].definition.block, args);
               EvalChunk(s, n) == (Concluded(t, n, outcome), outcome)
  {
    StartedFrame(s, n);
    var t := EvalDeps(Started(s, n), Deps(s.cells[n].definition)).0;
    assert n in Definitions(t) && Definitions(t)[n] == Definitions(s)[n];
  }

  // ----- The memo-free meaning -----

  /** The value of a chunk by plain recursion, given the chunks the recursion is inside of. */
  function Plain(t: Table, path: set<Sym>, n: Sym): Outcome
    requires n in t
    decreases t.Keys - path, 0, 0
  {
    if n in path then Raised(CycleDetected)
    else
      CallBlock(t[n].block, PlainDeps(t, path + {n}, Deps(t[n])))
  }

  function PlainFind(t: Table, path: set<Sym>, n: Sym): Outcome
    decreases t.Keys - path, 1, 0
  {
    if n in t then Plain(t, path, n) else Good(Nil)
  }

  function PlainDeps(t: Table, path: set<Sym>, deps: seq<Sym>): Arguments
    decreases t.Keys - path, 2, |deps|
  {
    if deps == [] then Collected([])
    else
      match PlainFind(t, path, deps[0])
      case Raised(error) => Aborted(error)
      case Good(value) =>
        match PlainDeps(t, path, deps[1..])
        case Aborted(error) => Aborted(error)
        case Collected(values) => Collected([value] + values)
  }

  /** Closed under dependencies that the table knows. */
  ghost predicate Closed(t: Table, region: set<Sym>) {
    forall n, d :: n in region && n in t && d in Deps(t[n]) && d in t ==> d in region
  }

  /** A value does not depend on the path it was found on, as long as the new path adds nothing that the value
      was computed from. */
  lemma {:induction false} PathIrrelevant(t: Table, p: set<Sym>, q: set<Sym>, region: set<Sym>, n: Sym)
    requires n in t && n in region && Closed(t, region) && (q - p) !! region
    requires Plain(t, p, n).Good?
    ensures Plain(t, q, n) == Plain(t, p, n)
    decreases t.Keys - p, 0, 0
  {
    assert n !in q;
    PathIrrelevantDeps(t, p + {n}, q + {n}, region, Deps(t[n]));
  }

  lemma {:induction false} PathIrrelevantDeps(t: Table, p: set<Sym>, q: set<Sym>, region: set<Sym>,
                                              deps: seq<Sym>)
    requires Closed(t, region) && (q - p) !! region
    requires forall d :: d in deps && d in t ==> d in region
    requires PlainDeps(t, p, deps).Collected?
    ensures PlainDeps(t, q, deps) == PlainDeps(t, p, deps)
    decreases t.Keys - p, 2, |deps|
  {
    if deps != [] {
      if deps[0] in t {
        PathIrrelevant(t, p, q, region, deps[0]);
      }
      PathIrrelevantDeps(t, p, q, region, deps[1..]);
    }
  }

  // ----- The invariant of the caches -----

  function Resolving(s: State): set<Sym> {
    set n | n in s.cells && s.cells[n].resolving
  }

  function Resolved(s: State): set<Sym> {
    set n | n in s.cells && s.cells[n].resolved
  }

  /** Each cache holds the memo-free value of its chunk. */
  ghost predicate CachesRight(s: State) {
    forall n :: n in Resolved(s) ==> Plain(Definitions(s), {}, n) == Good(s.cells[n].value)
  }

  /** The invariant of every evaluation: the caches are right, the dependencies of a cached chunk are cached, and the
      blocks that completed are those of the cached chunks, each once. */
  ghost predicate Consistent(s: State) {
    && CachesRight(s) && Closed(Definitions(s), Resolved(s)) && Resolved(s) !! Resolving(s)
    && Distinct(s.completed) && (forall n :: n in s.completed <==> n in Resolved(s))
  }

  lemma CachedOnPath(s: State, n: Sym)
    requires Consistent(s) && n in Resolved(s)
    ensures Plain(Definitions(s), Resolving(s), n) == Good(s.cells[n].value)
  {
    PathIrrelevant(Definitions(s), {}, Resolving(s), Resolved(s), n);
  }

  lemma AllClosed(t: Table)
    ensures Closed(t, t.Keys)
  {
  }

  lemma FrameResolving(s: State, t: State)
    requires SameFrame(s, t)
    ensures Resolving(t) == Resolving(s)
  {
    assert Resolving(s) == s.cells.Keys - Idle(s);
    assert Resolving(t) == t.cells.Keys - Idle(t);
  }

  /** The evaluator computes the memo-free outcome, the error included, and keeps the caches consistent. */
  lemma {:induction false} EvalChunkIsPlain(s: State, n: Sym)
    requires n in s.cells && Consistent(s)
    ensures var (t, outcome) := EvalChunk(s, n);
            && outcome == Plain(Definitions(s), Resolving(s), n)
            && Consistent(t) && Resolved(s) <= Resolved(t) && (outcome.Good? ==> n in Resolved(t))
    decreases Idle(s), 0, 0
  {
    var cell := s.cells[n];
    if cell.resolving {
    } else if cell.resolved {
      CachedOnPath(s, n);
    } else {
      StartedConsistent(s, n);
      EvalDepsIsPlain(Started(s, n), Deps(cell.definition));
      var (t, args) := EvalDeps(Started(s, n), Deps(cell.definition));
      FrameResolving(Started(s, n), t);
      assert Definitions(Started(s, n))[n] == cell.definition;
      assert Definitions(t)[n] == t.cells[n].definition;
      ConcludedConsistent(t, n, EvalChunk(s, n).1, Resolving(s));
    }
  }

  /** Leaving a chunk, with or without a value, keeps the caches consistent. */
  lemma ConcludedConsistent(t: State, n: Sym, outcome: Outcome, path: set<Sym>)
    requires Consistent(t) && n in Resolving(t) && outcome == Plain(Definitions(t), path, n)
    requires outcome.Good? ==> forall d :: d in Deps(t.cells[n].definition) && d in t.cells ==> d in Resolved(t)
    ensures var u := Concluded(t, n, outcome);
            && Consistent(u) && Resolved(t) <= Resolved(u) && (outcome.Good? ==> n in Resolved(u))
  {
    StoppedConsistent(t, n);
    ConcludedShape(t, n, outcome);
    if outcome.Good? {
      FinishedConsistent(Stopped(t, n), n, outcome.value, path);
    }
  }

  lemma ConcludedShape(t: State, n: Sym, outcome: Outcome)
    requires n in t.cells
    ensures Concluded(t, n, outcome) ==
            if outcome.Good? then Finished(Stopped(t, n), n, outcome.value) else Stopped(t, n)
  {
    var u, v := Concluded(t, n, outcome), Stopped(t, n);
    if outcome.Good? {
      assert u.cells == Finished(v, n, outcome.value).cells;
    } else {
      assert u.cells == v.cells && u.completed == v.completed;
    }
  }

  lemma StartedConsistent(s: State, n: Sym)
    requires Consistent(s) && n in s.cells && !s.cells[n].resolved && !s.cells[n].resolving
    ensures var t := Started(s, n);
            && Consistent(t) && Definitions(t) == Definitions(s) && Resolved(t) == Resolved(s)
            && Resolving(t) == Resolving(s) + {n} && Idle(t) == Idle(s) - {n} && n in Idle(s)
  {
    var t := Started(s, n);
    assert Definitions(t) == Definitions(s);
    assert Resolved(t) == Resolved(s) && Resolving(t) == Resolving(s) + {n};
  }

  lemma StoppedConsistent(s: State, n: Sym)
    requires Consistent(s) && n in Resolving(s)
    ensures var t := Stopped(s, n);
            && Consistent(t) && Definitions(t) == Definitions(s) && Resolved(t) == Resolved(s)
            && Resolving(t) == Resolving(s) - {n} && !t.cells[n].resolved && !t.cells[n].resolving
  {
    var t := Stopped(s, n);
    assert Definitions(t) == Definitions(s);
    assert Resolved(t) == Resolved(s) && Resolving(t) == Resolving(s) - {n};
    assert n !in Resolved(s);
  }

  /** Caching a value that the memo-free recursion gives, once all dependencies are cached. */
  lemma FinishedConsistent(u: State, n: Sym, value: RubyValue, path: set<Sym>)
    requires Consistent(u) && n in u.cells && !u.cells[n].resolved && !u.cells[n].resolving
    requires Plain(Definitions(u), path, n) == Good(value)
    requires forall d :: d in Deps(u.cells[n].definition) && d in u.cells ==> d in Resolved(u)
    ensures var v := Finished(u, n, value);
            Consistent(v) && Resolved(v) == Resolved(u) + {n}
  {
    var v := Finished(u, n, value);
    var table := Definitions(u);
    assert Definitions(v) == table;
    assert Resolved(v) == Resolved(u) + {n} && Resolving(v) == Resolving(u);
    AllClosed(table);
    PathIrrelevant(table, path, {}, table.Keys, n);
    assert n !in u.completed;
  }

  lemma {:induction false} EvalDepsIsPlain(s: State, deps: seq<Sym>)
    requires Consistent(s)
    ensures var (t, args) := EvalDeps(s, deps);
            && args == PlainDeps(Definitions(s), Resolving(s), deps)
            && Consistent(t) && Resolved(s) <= Resolved(t)
            && (args.Collected? ==> forall d :: d in deps && d in s.cells ==> d in Resolved(t))
    decreases Idle(s), 2, |deps|
  {
    if deps != [] {
      FindChunkIsPlain(s, deps[0]);
      var (t, first) := FindChunk(s, deps[0]);
      FrameResolving(s, t);
      if first.Good? {
        EvalDepsIsPlain(t, deps[1..]);
      }
    }
  }

  lemma {:induction false} FindChunkIsPlain(s: State, n: Sym)
    requires Consistent(s)
    ensures var (t, outcome) := FindChunk(s, n);
            && outcome == PlainFind(Definitions(s), Resolving(s), n)
            && Consistent(t) && Resolved(s) <= Resolved(t)
            && (outcome.Good? && n in s.cells ==> n in Resolved(t))
    decreases Idle(s), 1, 0
  {
    if n in s.cells {
      EvalChunkIsPlain(s, n);
    }
  }

  // ----- What the memo-free meaning is -----

  /** A value is the block applied to the dependencies' own values, with nil for a dependency that is unknown. */
  lemma {:induction false} PlainDepsAreValues(t: Table, path: set<Sym>, deps: seq<Sym>)
    requires PlainDeps(t, path, deps).Collected?
    ensures var values := PlainDeps(t, path, deps).values;
            |values| == |deps| && forall i :: 0 <= i < |deps| ==> PlainFind(t, {}, deps[i]) == Good(values[i])
    decreases |deps|
  {
    if deps != [] {
      if deps[0] in t {
        AllClosed(t);
        PathIrrelevant(t, path, {}, t.Keys, deps[0]);
      }
      PlainDepsAreValues(t, path, deps[1..]);
    }
  }

  lemma PlainEquation(t: Table, n: Sym) returns (values: seq<RubyValue>)
    requires n in t && Plain(t, {}, n).Good?
    ensures Plain(t, {}, n) == t[n].block(values)
    ensures |values| == |Deps(t[n])|
    ensures forall i :: 0 <= i < |values| ==> PlainFind(t, {}, Deps(t[n])[i]) == Good(values[i])
  {
    values := PlainDeps(t, {} + {n}, Deps(t[n])).values;
    PlainDepsAreValues(t, {} + {n}, Deps(t[n]));
  }

  // ----- Cycles -----

  ghost predicate NonFailing(t: Table) {
    forall n, values :: n in t ==> t[n].block(values).Good?
  }

  ghost predicate Edge(t: Table, a: Sym, b: Sym) {
    a in t && b in t && b in Deps(t[a])
  }

  ghost predicate IsWalk(t: Table, w: seq<Sym>) {
    && (forall i :: 0 <= i < |w| ==> w[i] in t)
    && (forall i :: 0 <= i < |w| - 1 ==> Edge(t, w[i], w[i + 1]))
  }

  ghost predicate Repeats(w: seq<Sym>) {
    exists i, j :: 0 <= i < j < |w| && w[i] == w[j]
  }

  /** Following dependencies from n, some chunk is met twice. */
  ghost predicate CycleReachable(t: Table, n: Sym) {
    exists w :: w != [] && w[0] == n && IsWalk(t, w) && Repeats(w)
  }

  ghost function Nodes(w: seq<Sym>): set<Sym> {
    set n | n in w
  }

  lemma {:induction false} RaisedHasCycle(t: Table, walk: seq<Sym>, n: Sym) returns (w: seq<Sym>)
    requires n in t && NonFailing(t) && IsWalk(t, walk + [n]) && !Repeats(walk)
    requires Plain(t, Nodes(walk), n).Raised?
    ensures Plain(t, Nodes(walk), n) == Raised(CycleDetected)
    ensures walk + [n] <= w && IsWalk(t, w) && Repeats(w)
    decreases t.Keys - Nodes(walk), 0, 0
  {
    var here := walk + [n];
    if n in walk {
      w := here;
      var i :| 0 <= i < |walk| && walk[i] == n;
      assert here[i] == here[|walk|];
    } else {
      assert Nodes(here) == Nodes(walk) + {n};
      assert t[n].block(PlainDepsValues(t, Nodes(here), Deps(t[n]))).Good?;
      w := DepsHaveCycle(t, here, n, Deps(t[n]));
    }
  }

  function PlainDepsValues(t: Table, path: set<Sym>, deps: seq<Sym>): seq<RubyValue> {
    match PlainDeps(t, path, deps)
    case Aborted(_) => []
    case Collected(values) => values
  }

  lemma {:induction false} DepsHaveCycle(t: Table, here: seq<Sym>, n: Sym, deps: seq<Sym>) returns (w: seq<Sym>)
    requires NonFailing(t) && here != [] && here[|here| - 1] == n && IsWalk(t, here) && !Repeats(here)
    requires forall d :: d in deps ==> d in Deps(t[n])
    requires PlainDeps(t, Nodes(here), deps).Aborted?
    ensures PlainDeps(t, Nodes(here), deps) == Aborted(CycleDetected)
    ensures here <= w && IsWalk(t, w) && Repeats(w)
    decreases t.Keys - Nodes(here), 2, |deps|
  {
    var d := deps[0];
    if PlainFind(t, Nodes(here), d).Raised? {
      assert Edge(t, n, d);
      w := RaisedHasCycle(t, here, d);
      assert here <= here + [d] <= w;
    } else {
      w := DepsHaveCycle(t, here, n, deps[1..]);
    }
  }

  /** A chunk with a value: no walk from it repeats a chunk or meets the path. */
  lemma {:induction false} ValueHasNoCycle(t: Table, path: set<Sym>, w: seq<Sym>)
    requires w != [] && IsWalk(t, w) && Plain(t, path, w[0]).Good?
    ensures !Repeats(w) && forall n :: n in w ==> n !in path
    decreases |w|
  {
    var n := w[0];
    if |w| > 1 {
      assert Edge(t, w[0], w[0 + 1]);
      DepHasValue(t, path + {n}, Deps(t[n]), w[1]);
      forall i | 0 <= i < |w[1..]| - 1 ensures Edge(t, w[1..][i], w[1..][i + 1]) {
        assert Edge(t, w[i + 1], w[i + 1 + 1]);
      }
      ValueHasNoCycle(t, path + {n}, w[1..]);
      assert forall i :: 0 < i < |w| ==> w[i] == w[1..][i - 1];
      forall i, j | 0 <= i < j < |w| ensures w[i] != w[j] {
        assert w[1..][j - 1] in w[1..];
        if i > 0 {
          assert w[1..][i - 1] != w[1..][j - 1];
        }
      }
    }
  }

  lemma {:induction false} DepHasValue(t: Table, path: set<Sym>, deps: seq<Sym>, d: Sym)
    requires d in deps && PlainDeps(t, path, deps).Collected?
    ensures PlainFind(t, path, d).Good?
    decreases |deps|
  {
    if deps[0] != d {
      DepHasValue(t, path, deps[1..], d);
    }
  }

  /** With blocks that never fail, evaluating raises exactly when a dependency cycle is reachable. */
  lemma RaisesIffCycle(t: Table, n: Sym)
    requires n in t && NonFailing(t)
    ensures Plain(t, {}, n).Raised? <==> CycleReachable(t, n)
    ensures Plain(t, {}, n).Raised? ==> Plain(t, {}, n) == Raised(CycleDetected)
  {
    if Plain(t, {}, n).Raised? {
      assert Nodes([]) == {} && [] + [n] == [n];
      var w := RaisedHasCycle(t, [], n);
      assert w[0] == n;
    } else if CycleReachable(t, n) {
      var w :| w != [] && w[0] == n && IsWalk(t, w) && Repeats(w);
      ValueHasNoCycle(t, {}, w);
    }
  }

  // ----- The theorems about an outermost evaluation -----

  /** Evaluating a chunk from outside, on any table, cyclic or not, with blocks that may fail, and whatever was
      evaluated before: the outcome is the memo-free one, nothing is left resolving, every cache is right, and each
      block has completed once if its chunk is cached and not at all otherwise. */
  lemma OutermostEvaluation(s: State, n: Sym)
    requires n in s.cells && Consistent(s) && Resolving(s) == {}
    ensures var (t, outcome) := EvalChunk(s, n);
            && outcome == Plain(Definitions(s), {}, n)
            && Definitions(t) == Definitions(s)
            && Resolving(t) == {} && Consistent(t)
            && Resolved(s) <= Resolved(t) && (n in Resolved(t) <==> outcome.Good?)
  {
    EvalChunkIsPlain(s, n);
    FrameResolving(s, EvalChunk(s, n).0);
  }

  /** Every cached value is the block applied to the values of the dependencies, which are cached too. */
  lemma CachesAreBlockValues(s: State, n: Sym) returns (values: seq<RubyValue>)
    requires Consistent(s) && n in Resolved(s)
    ensures var definition := s.cells[n].definition;
            && definition.block(values) == Good(s.cells[n].value) && |values| == |Deps(definition)|
            && forall i :: 0 <= i < |values| ==>
                 var d := Deps(definition)[i];
                 if d in s.cells then d in Resolved(s) && values[i] == s.cells[d].value else values[i] == Nil
  {
    values := PlainEquation(Definitions(s), n);
    var deps := Deps(s.cells[n].definition);
    forall i | 0 <= i < |values|
      ensures if deps[i] in s.cells then deps[i] in Resolved(s) && values[i] == s.cells[deps[i]].value
              else values[i] == Nil
    {
      assert deps[i] in deps;
      assert PlainFind(Definitions(s), {}, deps[i]) == Good(values[i]);
    }
  }

  // ----- Defining a chunk -----

  /** define_chunk after its checks: only the redefined chunk's own cache is reset. */
  function Define(s: State, n: Sym, definition: Definition): State {
    var resolving := n in s.cells && s.cells[n].resolving;
    State(s.cells[n := Cell(definition, Nil, false, resolving)], Without(s.completed, n))
  }

  /** Tables that agree on a closed region give the same values there. */
  lemma {:induction false} TableIrrelevant(t: Table, u: Table, region: set<Sym>, path: set<Sym>, n: Sym)
    requires region <= t.Keys && region <= u.Keys && forall m :: m in region ==> t[m] == u[m]
    requires Closed(t, region) && Closed(u, region) && n in region && Plain(t, path, n).Good?
    ensures Plain(u, path, n) == Plain(t, path, n)
    decreases t.Keys - path, 0, 0
  {
    TableIrrelevantDeps(t, u, region, path + {n}, n, Deps(t[n]));
  }

  lemma {:induction false} TableIrrelevantDeps(t: Table, u: Table, region: set<Sym>, path: set<Sym>, n: Sym,
                                               deps: seq<Sym>)
    requires region <= t.Keys && region <= u.Keys && forall m :: m in region ==> t[m] == u[m]
    requires Closed(t, region) && Closed(u, region) && n in region && forall d :: d in deps ==> d in Deps(t[n])
    requires PlainDeps(t, path, deps).Collected?
    ensures PlainDeps(u, path, deps) == PlainDeps(t, path, deps)
    decreases t.Keys - path, 2, |deps|
  {
    if deps != [] {
      var d := deps[0];
      assert d in Deps(t[n]) && d in Deps(u[n]);
      if d in t {
        TableIrrelevant(t, u, region, path, d);
      }
      TableIrrelevantDeps(t, u, region, path, n, deps[1..]);
    }
  }

  lemma DefineShape(s: State, n: Sym, definition: Definition)
    requires Consistent(s)
    ensures var t := Define(s, n, definition);
            && Resolved(t) == Resolved(s) - {n} && Resolving(t) == Resolving(s)
            && Definitions(t) == Definitions(s)[n := definition]
            && Distinct(t.completed) && (forall m :: m in t.completed <==> m in Resolved(t))
            && forall m :: m in Resolved(t) ==> t.cells[m] == s.cells[m]
  {
    WithoutDistinct(s.completed, n);
    var t := Define(s, n, definition);
    assert Resolved(t) == Resolved(s) - {n};
    assert Resolving(t) == Resolving(s);
    assert Definitions(t) == Definitions(s)[n := definition];
  }

  ghost predicate Unrequired(s: State, n: Sym) {
    forall m :: m in Resolved(s) && m != n ==> n !in Deps(s.cells[m].definition)
  }

  ghost predicate AnyDefinitionKeeps(s: State, n: Sym) {
    forall definition :: CachesRight(Define(s, n, definition))
  }

  const RAISING: Definition := Definition(NoRequire, _ => Raised(BlockFailed(0)))

  /** A chunk can be redefined in any way with every remaining cache still right exactly when no other cached chunk
      requires it. */
  lemma RedefinitionIsSafe(s: State, n: Sym)
    requires Consistent(s)
    ensures AnyDefinitionKeeps(s, n) <==> Unrequired(s, n)
  {
    if Unrequired(s, n) {
      forall definition ensures CachesRight(Define(s, n, definition)) {
        DefineUnrequired(s, n, definition);
      }
    } else {
      var m :| m in Resolved(s) && m != n && n in Deps(s.cells[m].definition);
      RaisingShows(s, n, m);
    }
  }

  /** A chunk that requires one whose block now raises has no value any more, but still its cache. */
  lemma RaisingShows(s: State, n: Sym, m: Sym)
    requires Consistent(s) && m in Resolved(s) && m != n && n in Deps(s.cells[m].definition)
    ensures !CachesRight(Define(s, n, RAISING))
  {
    var t := Define(s, n, RAISING);
    var table := Definitions(t);
    DefineShape(s, n, RAISING);
    assert m in Resolved(t) && table[m] == s.cells[m].definition;
    RaisingRaises(table, {} + {m}, n);
    if CachesRight(t) {
      DepHasValue(table, {} + {m}, Deps(table[m]), n);
    }
  }

  lemma RaisingRaises(t: Table, path: set<Sym>, n: Sym)
    requires n in t && t[n] == RAISING && n !in path
    ensures PlainFind(t, path, n) == Raised(BlockFailed(0))
  {
    assert PlainDeps(t, path + {n}, Deps(RAISING)) == Collected([]);
  }

  lemma DefineUnrequired(s: State, n: Sym, definition: Definition)
    requires Consistent(s) && Unrequired(s, n)
    ensures Consistent(Define(s, n, definition))
  {
    var t := Define(s, n, definition);
    var region := Resolved(t);
    DefineShape(s, n, definition);
    var before, after := Definitions(s), Definitions(t);
    assert Closed(before, region) && Closed(after, region);
    forall m | m in region ensures Plain(after, {}, m) == Good(t.cells[m].value) {
      TableIrrelevant(before, after, region, {}, m);
    }
  }
}
