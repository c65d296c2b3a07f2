/** What holds of every resolution, for every registry: cyclic reads, overlapping coverage and resolvers that
    write anything included. */
module ResolverRuns {
  import opened Sequences
  import opened Values
  import opened FactStore
  import opened LazyEager
  import opened Query

  // ----- A registered resolver runs at most once -----

  /** From s to t exactly the resolvers that are no longer pending ran, each of them once. */
  ghost predicate RanOnce(s: Store, t: Store) {
    && s.log <= t.log
    && var runs := t.log[|s.log|..];
    && Distinct(runs)
    && (forall q :: q in t.pending ==> q in s.pending)
    && (forall q :: q in runs <==> q in s.pending && q !in t.pending)
  }

  lemma RanOnceThen(s: Store, t: Store, u: Store)
    requires RanOnce(s, t) && RanOnce(t, u)
    ensures RanOnce(s, u)
  {
    assert u.log[|s.log|..] == t.log[|s.log|..] + u.log[|t.log|..];
    var first, second := t.log[|s.log|..], u.log[|t.log|..];
    forall i, j | 0 <= i < |first| && 0 <= j < |second| ensures first[i] != second[j] {
      assert first[i] in first && second[j] in second;
    }
  }

  lemma ResolveRunsOnce(reg: Registry, s: Store, name: string)
    ensures RanOnce(s, Resolve(reg, s, name))
    decreases |s.pending|, 1
  {
    var next := Next(reg, s.pending, name);
    if next.Some? {
      var t := RunResolver(reg, s, next.value);
      RunRunsOnce(reg, s, next.value);
      ResolveRunsOnce(reg, t, name);
      RanOnceThen(s, t, Resolve(reg, t, name));
    }
  }

  lemma RunRunsOnce(reg: Registry, s: Store, r: ResolverId)
    requires r in s.pending
    ensures RanOnce(s, RunResolver(reg, s, r))
    decreases |s.pending|, 0
  {
    var taken := Taken(s, r);
    assert taken.log[|s.log|..] == [r];
    assert RanOnce(s, taken);
    PerformRunsOnce(reg, taken, reg(r).script, []);
    RanOnceThen(s, taken, RunResolver(reg, s, r));
  }

  lemma PerformRunsOnce(reg: Registry, s: Store, script: seq<Step>, answers: Answers)
    ensures RanOnce(s, Perform(reg, s, script, answers))
    decreases |s.pending|, 3, |script|
  {
    if script != [] {
      match script[0]
      case Read(which) =>
        var name := which(answers);
        var t := Resolve(reg, s, name);
        ResolveRunsOnce(reg, s, name);
        PerformRunsOnce(reg, t, script[1..], answers + [Lookup(t.facts, name)]);
        RanOnceThen(s, t, Perform(reg, s, script, answers));
      case Write(entry) =>
        var (name, value) := entry(answers);
        var t := AddFact(reg, s, name, value);
        AddFactAssigns(reg, s, name, value);
        ResolveRunsOnce(reg, s, name);
        PerformRunsOnce(reg, t, script[1..], answers);
        RanOnceThen(s, t, Perform(reg, s, script, answers));
    }
  }

  lemma {:induction false} ResolveAllRunsOnce(reg: Registry, s: Store)
    ensures RanOnce(s, ResolveAll(reg, s))
    decreases |s.pending|
  {
    if s.pending != [] {
      RunRunsOnce(reg, s, s.pending[0]);
      ResolveAllRunsOnce(reg, RunResolver(reg, s, s.pending[0]));
      RanOnceThen(s, RunResolver(reg, s, s.pending[0]), ResolveAll(reg, s));
    }
  }

  /** Resolving everything runs every pending resolver exactly once, for any registry. */
  lemma ResolveAllRunsEach(reg: Registry, s: Store)
    ensures s.log <= ResolveAll(reg, s).log
    ensures var runs := ResolveAll(reg, s).log[|s.log|..];
            Distinct(runs) && forall q :: q in runs <==> q in s.pending
  {
    ResolveAllRunsOnce(reg, s);
  }

  lemma {:induction false} ScanRunsOnce(reg: Registry, s: Store, rest: string, inQuotes: bool, segment: string,
                                        current: Option<Value>)
    ensures RanOnce(s, Scan(reg, s, rest, inQuotes, segment, current).0)
    decreases rest
  {
    ResolveRunsOnce(reg, s, segment);
    var (t, value) := LookupStep(reg, s, current, segment);
    assert RanOnce(s, s);
    if rest != "" {
      if rest[0] == '"' {
        ScanRunsOnce(reg, s, rest[1..], !inQuotes, segment, current);
      } else if inQuotes || rest[0] != '.' {
        ScanRunsOnce(reg, s, rest[1..], inQuotes, segment + [rest[0]], current);
      } else if value.Some? {
        ScanRunsOnce(reg, t, rest[1..], inQuotes, "", value);
        RanOnceThen(s, t, Scan(reg, t, rest[1..], inQuotes, "", value).0);
      }
    }
  }

  lemma ServeRunsOnce(reg: Registry, s: Store, op: Operation)
    ensures RanOnce(s, Serve(reg, s, op).0)
  {
    match op
    case Get(name) => ResolveRunsOnce(reg, s, name);
    case Size => ResolveAllRunsOnce(reg, s);
    case Each => ResolveAllRunsOnce(reg, s);
    case Ask(query) =>
      var t := Resolve(reg, s, query);
      ResolveRunsOnce(reg, s, query);
      ScanRunsOnce(reg, t, query, false, "", None);
      RanOnceThen(s, t, Scan(reg, t, query, false, "", None).0);
    case Put(name, value) =>
      ResolveRunsOnce(reg, s, name);
      AddFactAssigns(reg, s, name, value);
    case Drop(name) =>
      ResolveRunsOnce(reg, s, name);
  }

  /** Over any sequence of operations, explicit adds and removes included, no registration runs twice. */
  lemma {:induction false} ServeAllRunsOnce(reg: Registry, s: Store, ops: seq<Operation>)
    ensures RanOnce(s, ServeAll(reg, s, ops).0)
    decreases |ops|
  {
    if ops == [] {
      assert RanOnce(s, s);
    } else {
      var t := Serve(reg, s, ops[0]).0;
      ServeRunsOnce(reg, s, ops[0]);
      ServeAllRunsOnce(reg, t, ops[1..]);
      RanOnceThen(s, t, ServeAll(reg, t, ops[1..]).0);
    }
  }

  // ----- A fact no pending resolver covers keeps its value -----

  ghost predicate Free(reg: Registry, s: Store, name: string) {
    forall r :: r in s.pending ==> !Covers(reg, r, name)
  }

  /** Same value for the name, and still no pending resolver that covers it or that writes out of bounds. */
  ghost predicate Keeps(reg: Registry, s: Store, t: Store, name: string) {
    Lookup(t.facts, name) == Lookup(s.facts, name) && Free(reg, t, name) && WritesCovered(reg, t.pending)
  }

  lemma ResolveKeeps(reg: Registry, s: Store, asked: string, name: string)
    requires Free(reg, s, name) && WritesCovered(reg, s.pending)
    ensures Keeps(reg, s, Resolve(reg, s, asked), name)
    decreases |s.pending|, 1
  {
    var next := Next(reg, s.pending, asked);
    if next.Some? {
      RunKeeps(reg, s, next.value, name);
      ResolveKeeps(reg, RunResolver(reg, s, next.value), asked, name);
    }
  }

  lemma RunKeeps(reg: Registry, s: Store, r: ResolverId, name: string)
    requires r in s.pending && Free(reg, s, name) && WritesCovered(reg, s.pending)
    ensures Keeps(reg, s, RunResolver(reg, s, r), name)
    decreases |s.pending|, 0
  {
    assert reg(r).script[0..] == reg(r).script;
    NeverWritten(reg, Taken(s, r), r, 0, [], name);
    PerformKeeps(reg, Taken(s, r), reg(r).script, [], name);
  }

  /** What a run of a script last writes under a name, if it writes it at all; null counts as written. */
  function LastWrite(reg: Registry, s: Store, script: seq<Step>, answers: Answers, name: string): Option<Option<Value>>
    decreases |script|
  {
    if script == [] then None
    else
      match script[0]
      case Read(which) =>
        var t := Resolve(reg, s, which(answers));
        LastWrite(reg, t, script[1..], answers + [Lookup(t.facts, which(answers))], name)
      case Write(entry) =>
        var (written, value) := entry(answers);
        var later := LastWrite(reg, AddFact(reg, s, written, value), script[1..], answers, name);
        if later.None? && written == name then Some(value) else later
  }

  lemma {:induction false} NeverWritten(reg: Registry, s: Store, r: ResolverId, k: nat, answers: Answers, name: string)
    requires k <= |reg(r).script| && WritesStay(reg, r) && !Covers(reg, r, name)
    ensures LastWrite(reg, s, reg(r).script[k..], answers, name).None?
    decreases |reg(r).script| - k
  {
    var script := reg(r).script[k..];
    if script != [] {
      assert script[1..] == reg(r).script[k + 1..];
      match script[0]
      case Read(which) =>
        var t := Resolve(reg, s, which(answers));
        NeverWritten(reg, t, r, k + 1, answers + [Lookup(t.facts, which(answers))], name);
      case Write(entry) =>
        var (written, value) := entry(answers);
        NeverWritten(reg, AddFact(reg, s, written, value), r, k + 1, answers, name);
    }
  }

  lemma PerformKeeps(reg: Registry, s: Store, script: seq<Step>, answers: Answers, name: string)
    requires Free(reg, s, name) && WritesCovered(reg, s.pending) && LastWrite(reg, s, script, answers, name).None?
    ensures Keeps(reg, s, Perform(reg, s, script, answers), name)
    decreases |s.pending|, 3, |script|
  {
    if script != [] {
      match script[0]
      case Read(which) =>
        var read := which(answers);
        var t := Resolve(reg, s, read);
        ResolveKeeps(reg, s, read, name);
        PerformKeeps(reg, t, script[1..], answers + [Lookup(t.facts, read)], name);
      case Write(entry) =>
        var (written, value) := entry(answers);
        ResolveKeeps(reg, s, written, name);
        AddFactAssigns(reg, s, written, value);
        PerformKeeps(reg, AddFact(reg, s, written, value), script[1..], answers, name);
    }
  }

  lemma {:induction false} ResolveAllKeeps(reg: Registry, s: Store, name: string)
    requires Free(reg, s, name) && WritesCovered(reg, s.pending)
    ensures Keeps(reg, s, ResolveAll(reg, s), name)
    decreases |s.pending|
  {
    if s.pending != [] {
      RunKeeps(reg, s, s.pending[0], name);
      ResolveAllKeeps(reg, RunResolver(reg, s, s.pending[0]), name);
    }
  }

  lemma {:induction false} ScanKeeps(reg: Registry, s: Store, rest: string, inQuotes: bool, segment: string,
                                     current: Option<Value>, name: string)
    requires Free(reg, s, name) && WritesCovered(reg, s.pending)
    ensures Keeps(reg, s, Scan(reg, s, rest, inQuotes, segment, current).0, name)
    decreases rest
  {
    ResolveKeeps(reg, s, segment, name);
    var (t, value) := LookupStep(reg, s, current, segment);
    if rest != "" {
      if rest[0] == '"' {
        ScanKeeps(reg, s, rest[1..], !inQuotes, segment, current, name);
      } else if inQuotes || rest[0] != '.' {
        ScanKeeps(reg, s, rest[1..], inQuotes, segment + [rest[0]], current, name);
      } else if value.Some? {
        ScanKeeps(reg, t, rest[1..], inQuotes, "", value, name);
      }
    }
  }

  predicate Leaves(op: Operation, name: string) {
    (op.Put? || op.Drop?) ==> op.name != name
  }

  lemma ServeKeeps(reg: Registry, s: Store, op: Operation, name: string)
    requires Free(reg, s, name) && WritesCovered(reg, s.pending) && Leaves(op, name)
    ensures Keeps(reg, s, Serve(reg, s, op).0, name)
  {
    match op
    case Get(asked) => ResolveKeeps(reg, s, asked, name);
    case Size => ResolveAllKeeps(reg, s, name);
    case Each => ResolveAllKeeps(reg, s, name);
    case Ask(query) =>
      ResolveKeeps(reg, s, query, name);
      ScanKeeps(reg, Resolve(reg, s, query), query, false, "", None, name);
    case Put(other, value) =>
      ResolveKeeps(reg, s, other, name);
      AddFactAssigns(reg, s, other, value);
    case Drop(other) =>
      ResolveKeeps(reg, s, other, name);
  }

  lemma {:induction false} ServeAllKeeps(reg: Registry, s: Store, ops: seq<Operation>, name: string)
    requires Free(reg, s, name) && WritesCovered(reg, s.pending)
    requires forall op :: op in ops ==> Leaves(op, name)
    ensures Keeps(reg, s, ServeAll(reg, s, ops).0, name)
    decreases |ops|
  {
    if ops != [] {
      ServeKeeps(reg, s, ops[0], name);
      ServeAllKeeps(reg, Serve(reg, s, ops[0]).0, ops[1..], name);
    }
  }

  lemma StaysToTheEnd(reg: Registry, s: Store, name: string, ops: seq<Operation>)
    requires Free(reg, s, name) && WritesCovered(reg, s.pending)
    requires forall op :: op in ops ==> Leaves(op, name)
    ensures var t := ServeAll(reg, s, ops).0;
            Lookup(t.facts, name) == Lookup(s.facts, name) && Lookup(ResolveAll(reg, t).facts, name) == Lookup(s.facts, name)
  {
    ServeAllKeeps(reg, s, ops, name);
    ResolveAllKeeps(reg, ServeAll(reg, s, ops).0, name);
  }

  /** An explicitly added value (or an explicit null) stays until the next explicit add or remove of that name,
      whatever else is asked, added or removed, and no matter which resolvers were pending for the name. */
  lemma AddedValueStays(reg: Registry, s: Store, name: string, value: Option<Value>, ops: seq<Operation>)
    requires WritesCovered(reg, s.pending)
    requires forall op :: op in ops ==> Leaves(op, name)
    ensures var t := ServeAll(reg, s, [Put(name, value)] + ops).0;
            Lookup(t.facts, name) == value && Lookup(ResolveAll(reg, t).facts, name) == value
  {
    AddFactAssigns(reg, s, name, value);
    ServeFirst(reg, s, Put(name, value), ops);
    StaysToTheEnd(reg, AddFact(reg, s, name, value), name, ops);
  }

  lemma ServeFirst(reg: Registry, s: Store, op: Operation, ops: seq<Operation>)
    ensures ServeAll(reg, s, [op] + ops).0 == ServeAll(reg, Serve(reg, s, op).0, ops).0
  {
    assert ([op] + ops)[1..] == ops;
  }

  /** A removed fact stays removed in the same way: its resolvers ran before it was removed. */
  lemma RemovedStays(reg: Registry, s: Store, name: string, ops: seq<Operation>)
    requires WritesCovered(reg, s.pending)
    requires forall op :: op in ops ==> Leaves(op, name)
    ensures var t := ServeAll(reg, s, [Drop(name)] + ops).0;
            name !in t.facts && name !in ResolveAll(reg, t).facts
  {
    var removed := RemoveFact(reg, s, name);
    Removed(reg, s, name);
    ServeFirst(reg, s, Drop(name), ops);
    StaysToTheEnd(reg, removed, name, ops);
    assert Lookup(removed.facts, name) == None;
  }

  lemma Removed(reg: Registry, s: Store, name: string)
    requires WritesCovered(reg, s.pending)
    ensures var t := RemoveFact(reg, s, name);
            name !in t.facts && Free(reg, t, name) && WritesCovered(reg, t.pending)
  {
  }

  /** Resolving everything starts with the registration at the front. */
  lemma FrontRunsFirst(reg: Registry, s: Store)
    requires s.pending != []
    ensures s.log + [s.pending[0]] <= ResolveAll(reg, s).log
  {
    var r := s.pending[0];
    var t := RunResolver(reg, s, r);
    PerformRunsOnce(reg, Taken(s, r), reg(r).script, []);
    ResolveAllRunsOnce(reg, t);
    assert s.log + [r] <= t.log <= ResolveAll(reg, t).log;
  }

  // ----- Which resolver wins a contested name -----

  /** When no pending resolver writes out of bounds, what a run last writes under a name stands at its end. */
  lemma {:induction false} LastWriteHolds(reg: Registry, s: Store, script: seq<Step>, answers: Answers, name: string)
    requires WritesCovered(reg, s.pending) && LastWrite(reg, s, script, answers, name).Some?
    ensures Lookup(Perform(reg, s, script, answers).facts, name) == LastWrite(reg, s, script, answers, name).value
    ensures Free(reg, Perform(reg, s, script, answers), name)
    decreases |script|
  {
    match script[0]
    case Read(which) =>
      var t := Resolve(reg, s, which(answers));
      LastWriteHolds(reg, t, script[1..], answers + [Lookup(t.facts, which(answers))], name);
    case Write(entry) =>
      var (written, value) := entry(answers);
      var t := AddFact(reg, s, written, value);
      if LastWrite(reg, t, script[1..], answers, name).Some? {
        LastWriteHolds(reg, t, script[1..], answers, name);
      } else {
        AddFactAssigns(reg, s, written, value);
        PerformKeeps(reg, t, script[1..], answers, name);
      }
  }

  ghost predicate AlwaysUnder(step: Step, name: string) {
    step.Write? && forall h :: step.entry(h).0 == name
  }

  /** The last thing the script does is to write this name. */
  ghost predicate EndsWriting(script: seq<Step>, name: string) {
    script != [] && AlwaysUnder(script[|script| - 1], name)
  }

  /** A write at the very end stands whatever other resolvers do. */
  lemma {:induction false} EndHolds(reg: Registry, s: Store, script: seq<Step>, answers: Answers, name: string)
    requires EndsWriting(script, name)
    ensures LastWrite(reg, s, script, answers, name).Some?
    ensures Lookup(Perform(reg, s, script, answers).facts, name) == LastWrite(reg, s, script, answers, name).value
    ensures Free(reg, Perform(reg, s, script, answers), name)
    decreases |script|
  {
    if |script| == 1 {
      var (written, value) := script[0].entry(answers);
      AddFactAssigns(reg, s, written, value);
      assert script[1..] == [];
    } else {
      assert script[1..][|script[1..]| - 1] == script[|script| - 1];
      match script[0]
      case Read(which) =>
        var t := Resolve(reg, s, which(answers));
        EndHolds(reg, t, script[1..], answers + [Lookup(t.facts, which(answers))], name);
      case Write(entry) =>
        var (written, value) := entry(answers);
        EndHolds(reg, AddFact(reg, s, written, value), script[1..], answers, name);
    }
  }

  /** What a resolver last writes under a name when it is taken in this state. */
  function Given(reg: Registry, s: Store, r: ResolverId, name: string): Option<Option<Value>> {
    LastWrite(reg, Taken(s, r), reg(r).script, [], name)
  }

  /** The resolver writes the name, and nobody writes it afterwards: it is its last step, or resolvers keep to the names
      they cover. */
  ghost predicate HasLastWord(reg: Registry, s: Store, r: ResolverId, name: string) {
    Given(reg, s, r, name).Some? && (EndsWriting(reg(r).script, name) || WritesCovered(reg, s.pending))
  }

  /** When several resolvers cover a name, the one taken first wins, with the value it writes last: the others run
      inside its own reads and adds, before that value lands. */
  lemma FirstTakenWins(reg: Registry, s: Store, name: string)
    requires Next(reg, s.pending, name).Some? && HasLastWord(reg, s, Next(reg, s.pending, name).value, name)
    ensures Some(Lookup(Resolve(reg, s, name).facts, name)) == Given(reg, s, Next(reg, s.pending, name).value, name)
  {
    var r := Next(reg, s.pending, name).value;
    if EndsWriting(reg(r).script, name) {
      EndHolds(reg, Taken(s, r), reg(r).script, [], name);
    } else {
      LastWriteHolds(reg, Taken(s, r), reg(r).script, [], name);
    }
    var t := RunResolver(reg, s, r);
    assert Resolve(reg, t, name) == t;
  }

  lemma {:induction false} FirstsConcat(reg: Registry, a: seq<ResolverId>, b: seq<ResolverId>, name: string)
    ensures FirstNamed(reg, a + b, name) ==
            if FirstNamed(reg, a, name).Some? then FirstNamed(reg, a, name) else FirstNamed(reg, b, name)
    ensures FirstMatched(reg, a + b, name) ==
            if FirstMatched(reg, a, name).Some? then FirstMatched(reg, a, name) else FirstMatched(reg, b, name)
  {
    if a == [] {
      assert a + b == b;
    } else {
      assert (a + b)[1..] == a[1..] + b;
      FirstsConcat(reg, a[1..], b, name);
    }
  }

  /** No earlier registration goes before this one: none covers the name, or this one is registered under the name
      and the earlier ones only match it. */
  predicate GoesFirst(reg: Registry, before: seq<ResolverId>, q: ResolverId, name: string) {
    var earlier := Next(reg, before, name);
    earlier.None? || earlier == Some(q) || (Named(reg, q, name) && !Named(reg, earlier.value, name))
  }

  lemma LastTakenExactly(reg: Registry, before: seq<ResolverId>, q: ResolverId, after: seq<ResolverId>, name: string)
    requires Covers(reg, q, name) && forall r :: r in after ==> !Covers(reg, r, name)
    ensures Next(reg, before + [q] + after, name) == Some(q) <==> GoesFirst(reg, before, q, name)
  {
    FirstsConcat(reg, before + [q], after, name);
    FirstsConcat(reg, before, [q], name);
  }

  /** The last resolver added for a name wins exactly when it is the one taken, which depends only on what was added
      before it, or when it would give what the one taken gives. */
  lemma LastAddedWinsExactly(reg: Registry, s: Store, before: seq<ResolverId>, q: ResolverId, after: seq<ResolverId>,
                             name: string)
    requires s.pending == before + [q] + after
    requires Covers(reg, q, name) && forall r :: r in after ==> !Covers(reg, r, name)
    requires forall r :: r in s.pending && Covers(reg, r, name) ==> HasLastWord(reg, s, r, name)
    ensures var first := Next(reg, s.pending, name);
            && first.Some?
            && (Some(Lookup(Resolve(reg, s, name).facts, name)) == Given(reg, s, q, name) <==>
                GoesFirst(reg, before, q, name) || Given(reg, s, first.value, name) == Given(reg, s, q, name))
  {
    assert q in s.pending;
    LastTakenExactly(reg, before, q, after, name);
    FirstTakenWins(reg, s, name);
  }

  function Constant(name: string, value: Value): Resolver {
    Resolver([name], false, _ => false, [Write(_ => (name, Some(value)))])
  }

  function Contest(name: string, first: Value, last: Value): Registry {
    r => if r == 0 then Constant(name, first) else Constant(name, last)
  }

  /** "The last resolver that was added for a particular name will win" does not hold: of two resolvers added for
      one name, the first one's value is the value of the fact. */
  lemma LastAddedDoesNotWin(name: string, first: Value, last: Value)
    ensures Lookup(Resolve(Contest(name, first, last), Store(map[], [0, 1], []), name).facts, name) == Some(first)
  {
    var reg := Contest(name, first, last);
    var s := Store(map[], [0, 1], []);
    assert reg(0) == Constant(name, first);
    assert reg(0).names[0] == name;
    assert FirstNamed(reg, s.pending, name) == Some(0);
    assert reg(0).script[1..] == [];
    FirstTakenWins(reg, s, name);
  }
}
