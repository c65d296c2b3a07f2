/** Why demand-driven resolution is safe: whatever is asked for, and in whatever order, every fact ends with the
    value that resolving everything up front would have given it. */
module LazyEager {
  import opened Sequences
  import opened Values
  import opened FactStore
  import opened Query

  // ----- The conditions on the registered resolvers -----

  /** No name is covered by two different pending resolvers. */
  ghost predicate Disjoint(reg: Registry, rs: seq<ResolverId>) {
    forall q, r, name :: q in rs && r in rs && Covers(reg, q, name) && Covers(reg, r, name) ==> q == r
  }

  ghost predicate WritesStay(reg: Registry, r: ResolverId) {
    forall i, h :: 0 <= i < |reg(r).script| && reg(r).script[i].Write? ==>
      Covers(reg, r, reg(r).script[i].entry(h).0)
  }

  /** Every resolver writes only names it covers. */
  ghost predicate WritesCovered(reg: Registry, rs: seq<ResolverId>) {
    forall r :: r in rs ==> WritesStay(reg, r)
  }

  ghost predicate ReadsBelow(reg: Registry, rs: seq<ResolverId>, rank: ResolverId -> nat, r: ResolverId) {
    forall i, h, q :: (0 <= i < |reg(r).script| && reg(r).script[i].Read? && q in rs &&
                       Covers(reg, q, reg(r).script[i].which(h))) ==> rank(q) < rank(r)
  }

  /** The reads are acyclic: a resolver reads only facts of resolvers of smaller rank. */
  ghost predicate Acyclic(reg: Registry, rs: seq<ResolverId>, rank: ResolverId -> nat) {
    forall r :: r in rs ==> ReadsBelow(reg, rs, rank, r)
  }

  ghost predicate WellBehaved(reg: Registry, rs: seq<ResolverId>, rank: ResolverId -> nat) {
    Disjoint(reg, rs) && WritesCovered(reg, rs) && Acyclic(reg, rs, rank)
  }

  // ----- The meaning of a fact, independent of any order of resolution -----

  ghost function Level(reg: Registry, s: Store, rank: ResolverId -> nat, name: string): nat {
    match Next(reg, s.pending, name)
    case None => 0
    case Some(r) => rank(r) + 1
  }

  /** The value a fact has: the stored one when nothing pending covers it, else what its resolver writes when
      every read is answered by the meaning of the fact read. */
  ghost function Meaning(reg: Registry, s: Store, rank: ResolverId -> nat, name: string): Option<Value>
    requires WellBehaved(reg, s.pending, rank)
    decreases Level(reg, s, rank, name)
  {
    match Next(reg, s.pending, name)
    case None => Lookup(s.facts, name)
    case Some(r) => Lookup(Replay(reg, s, rank, r, 0, s.facts, []), name)
  }

  ghost function Replay(reg: Registry, s: Store, rank: ResolverId -> nat, r: ResolverId, k: nat,
                        own: map<string, Value>, answers: Answers): map<string, Value>
    requires WellBehaved(reg, s.pending, rank) && r in s.pending && k <= |reg(r).script|
    decreases rank(r) + 1, |reg(r).script| - k
  {
    if k == |reg(r).script| then own
    else match reg(r).script[k]
      case Read(which) =>
        assert ReadsBelow(reg, s.pending, rank, r);
        Replay(reg, s, rank, r, k + 1, own, answers + [Meaning(reg, s, rank, which(answers))])
      case Write(entry) =>
        var (name, value) := entry(answers);
        Replay(reg, s, rank, r, k + 1, Assign(own, name, value), answers)
  }

  // ----- The invariant of every state a resolution passes through -----

  ghost predicate SoundAt(reg: Registry, s0: Store, rank: ResolverId -> nat, t: Store, active: set<ResolverId>,
                          name: string)
    requires WellBehaved(reg, s0.pending, rank)
  {
    match Next(reg, s0.pending, name)
    case None => Lookup(t.facts, name) == Lookup(s0.facts, name)
    case Some(r) =>
      if r in t.pending then Lookup(t.facts, name) == Lookup(s0.facts, name)
      else r in active || Lookup(t.facts, name) == Meaning(reg, s0, rank, name)
  }

  /** Seen from the start state s0, with the given resolvers in the middle of their run: a fact whose resolver is
      pending is untouched, and a fact whose resolver is done has its meaning. */
  ghost predicate Sound(reg: Registry, s0: Store, rank: ResolverId -> nat, t: Store, active: set<ResolverId>)
    requires WellBehaved(reg, s0.pending, rank)
  {
    && (forall q :: q in t.pending ==> q in s0.pending && q !in active)
    && (forall name :: SoundAt(reg, s0, rank, t, active, name))
  }

  ghost predicate Owned(reg: Registry, s0: Store, active: set<ResolverId>, name: string) {
    var owner := Next(reg, s0.pending, name);
    owner.Some? && owner.value in active
  }

  ghost predicate Untouched(reg: Registry, s0: Store, active: set<ResolverId>, t: Store, u: Store) {
    forall name :: Owned(reg, s0, active, name) ==> Lookup(u.facts, name) == Lookup(t.facts, name)
  }

  ghost predicate OwnFacts(reg: Registry, s0: Store, r: ResolverId, facts: map<string, Value>,
                           own: map<string, Value>)
  {
    forall name :: Next(reg, s0.pending, name) == Some(r) ==> Lookup(facts, name) == Lookup(own, name)
  }

  ghost predicate Above(rank: ResolverId -> nat, r: ResolverId, active: set<ResolverId>) {
    forall a :: a in active ==> rank(r) < rank(a)
  }

  lemma OwnerIs(reg: Registry, s0: Store, rank: ResolverId -> nat, r: ResolverId, name: string)
    requires WellBehaved(reg, s0.pending, rank) && r in s0.pending && Covers(reg, r, name)
    ensures Next(reg, s0.pending, name) == Some(r)
  {
  }

  lemma ResolveSound(reg: Registry, s0: Store, rank: ResolverId -> nat, t: Store, name: string,
                     active: set<ResolverId>)
    requires WellBehaved(reg, s0.pending, rank) && Sound(reg, s0, rank, t, active)
    requires var owner := Next(reg, s0.pending, name); owner.Some? ==> Above(rank, owner.value, active)
    ensures var u := Resolve(reg, t, name);
            Sound(reg, s0, rank, u, active) && Untouched(reg, s0, active, t, u)
    decreases |t.pending|, 1
  {
    var next := Next(reg, t.pending, name);
    if next.Some? {
      OwnerIs(reg, s0, rank, next.value, name);
      RunSound(reg, s0, rank, t, next.value, active);
      ResolveSound(reg, s0, rank, RunResolver(reg, t, next.value), name, active);
    }
  }

  lemma RunSound(reg: Registry, s0: Store, rank: ResolverId -> nat, t: Store, r: ResolverId,
                 active: set<ResolverId>)
    requires WellBehaved(reg, s0.pending, rank) && Sound(reg, s0, rank, t, active)
    requires r in t.pending && Above(rank, r, active)
    ensures var u := RunResolver(reg, t, r);
            Sound(reg, s0, rank, u, active) && Untouched(reg, s0, active, t, u)
    decreases |t.pending|, 0
  {
    var taken, u := Taken(t, r), RunResolver(reg, t, r);
    forall name ensures SoundAt(reg, s0, rank, taken, active + {r}, name) {
      assert SoundAt(reg, s0, rank, t, active, name);
    }
    forall name | Next(reg, s0.pending, name) == Some(r)
      ensures Lookup(t.facts, name) == Lookup(s0.facts, name)
    {
      assert SoundAt(reg, s0, rank, t, active, name);
    }
    PerformSound(reg, s0, rank, taken, r, 0, s0.facts, [], active);
    forall name ensures SoundAt(reg, s0, rank, u, active, name) {
      assert SoundAt(reg, s0, rank, u, active + {r}, name);
    }
  }

  lemma WriteSound(reg: Registry, s0: Store, rank: ResolverId -> nat, t: Store, r: ResolverId, name: string,
                   value: Option<Value>, own: map<string, Value>, active: set<ResolverId>)
    requires WellBehaved(reg, s0.pending, rank) && r in s0.pending && Covers(reg, r, name)
    requires r !in active && Sound(reg, s0, rank, t, active + {r}) && OwnFacts(reg, s0, r, t.facts, own)
    ensures var u := AddFact(reg, t, name, value);
            && u == t.(facts := Assign(t.facts, name, value)) && Sound(reg, s0, rank, u, active + {r})
            && Untouched(reg, s0, active, t, u) && OwnFacts(reg, s0, r, u.facts, Assign(own, name, value))
  {
    OwnerIs(reg, s0, rank, r, name);
    AddFactAssigns(reg, t, name, value);
    assert Next(reg, t.pending, name).None?;
    AssignSound(reg, s0, rank, t, r, name, value, active);
  }

  lemma AssignSound(reg: Registry, s0: Store, rank: ResolverId -> nat, t: Store, r: ResolverId, name: string,
                    value: Option<Value>, active: set<ResolverId>)
    requires WellBehaved(reg, s0.pending, rank) && Next(reg, s0.pending, name) == Some(r)
    requires Sound(reg, s0, rank, t, active + {r})
    ensures Sound(reg, s0, rank, t.(facts := Assign(t.facts, name, value)), active + {r})
  {
    var u := t.(facts := Assign(t.facts, name, value));
    forall n ensures SoundAt(reg, s0, rank, u, active + {r}, n) {
      assert SoundAt(reg, s0, rank, t, active + {r}, n);
    }
  }

  lemma PerformSound(reg: Registry, s0: Store, rank: ResolverId -> nat, t: Store, r: ResolverId, k: nat,
                     own: map<string, Value>, answers: Answers, active: set<ResolverId>)
    requires WellBehaved(reg, s0.pending, rank) && r in s0.pending && k <= |reg(r).script|
    requires r !in active && Above(rank, r, active) && Sound(reg, s0, rank, t, active + {r})
    requires OwnFacts(reg, s0, r, t.facts, own)
    ensures var u := Perform(reg, t, reg(r).script[k..], answers);
            && Sound(reg, s0, rank, u, active + {r}) && Untouched(reg, s0, active, t, u)
            && OwnFacts(reg, s0, r, u.facts, Replay(reg, s0, rank, r, k, own, answers))
    decreases |t.pending|, 2, |reg(r).script| - k
  {
    var script := reg(r).script[k..];
    if k < |reg(r).script| {
      assert script[1..] == reg(r).script[k + 1..];
      match script[0]
      case Read(which) =>
        var name := which(answers);
        assert ReadsBelow(reg, s0.pending, rank, r);
        ResolveSound(reg, s0, rank, t, name, active + {r});
        var u := Resolve(reg, t, name);
        assert SoundAt(reg, s0, rank, u, active + {r}, name);
        PerformSound(reg, s0, rank, u, r, k + 1, own, answers + [Meaning(reg, s0, rank, name)], active);
      case Write(entry) =>
        var (name, value) := entry(answers);
        assert WritesStay(reg, r);
        var u := AddFact(reg, t, name, value);
        WriteSound(reg, s0, rank, t, r, name, value, own, active);
        PerformSound(reg, s0, rank, u, r, k + 1, Assign(own, name, value), answers, active);
    }
  }

  // ----- Sequences of operations on the collection -----

  datatype Operation =
    | Get(name: string)
    | Size
    | Each
    | Ask(query: string)
    | Put(name: string, value: Option<Value>)
    | Drop(name: string)

  datatype Answer = Found(value: Option<Value>) | Counted(size: nat) | Listed(facts: map<string, Value>) | Done

  function Serve(reg: Registry, s: Store, op: Operation): (Store, Answer) {
    match op
    case Get(name) => var t := Resolve(reg, s, name); (t, Found(Lookup(t.facts, name)))
    case Size => var t := ResolveAll(reg, s); (t, Counted(|t.facts|))
    case Each => var t := ResolveAll(reg, s); (t, Listed(t.facts))
    case Ask(query) => var (t, value) := QueryValue(reg, s, query); (t, Found(value))
    case Put(name, value) => (AddFact(reg, s, name, value), Done)
    case Drop(name) => (RemoveFact(reg, s, name), Done)
  }

  function ServeAll(reg: Registry, s: Store, ops: seq<Operation>): (r: (Store, seq<Answer>))
    ensures |r.1| == |ops|
    decreases |ops|
  {
    if ops == [] then (s, [])
    else
      var (t, answer) := Serve(reg, s, ops[0]);
      var (u, answers) := ServeAll(reg, t, ops[1..]);
      (u, [answer] + answers)
  }

  predicate IsQuery(op: Operation) {
    !op.Put? && !op.Drop?
  }

  /** The store in which everything was resolved up front. */
  function Eager(reg: Registry, s: Store): Store {
    ResolveAll(reg, s)
  }

  ghost predicate HasMeaning(reg: Registry, s0: Store, rank: ResolverId -> nat, facts: map<string, Value>)
    requires WellBehaved(reg, s0.pending, rank)
  {
    forall name :: Lookup(facts, name) == Meaning(reg, s0, rank, name)
  }

  lemma ResolveAllSound(reg: Registry, s0: Store, rank: ResolverId -> nat, t: Store)
    requires WellBehaved(reg, s0.pending, rank) && Sound(reg, s0, rank, t, {})
    ensures Sound(reg, s0, rank, ResolveAll(reg, t), {})
    ensures HasMeaning(reg, s0, rank, ResolveAll(reg, t).facts)
    decreases |t.pending|
  {
    if t.pending == [] {
      forall name ensures Lookup(t.facts, name) == Meaning(reg, s0, rank, name) {
        assert SoundAt(reg, s0, rank, t, {}, name);
      }
    } else {
      RunSound(reg, s0, rank, t, t.pending[0], {});
      ResolveAllSound(reg, s0, rank, RunResolver(reg, t, t.pending[0]));
    }
  }

  lemma MeaningIsUnique(reg: Registry, s0: Store, rank: ResolverId -> nat, a: map<string, Value>,
                        b: map<string, Value>)
    requires WellBehaved(reg, s0.pending, rank)
    requires HasMeaning(reg, s0, rank, a) && HasMeaning(reg, s0, rank, b)
    ensures a == b
  {
    forall name ensures name in a <==> name in b
      ensures name in a && name in b ==> a[name] == b[name]
    {
      assert Lookup(a, name) == Lookup(b, name);
    }
  }

  /** A resolved name reads its meaning. */
  lemma GetSound(reg: Registry, s0: Store, rank: ResolverId -> nat, t: Store, name: string)
    requires WellBehaved(reg, s0.pending, rank) && Sound(reg, s0, rank, t, {})
    ensures var u := Resolve(reg, t, name);
            Sound(reg, s0, rank, u, {}) && Lookup(u.facts, name) == Meaning(reg, s0, rank, name)
  {
    ResolveSound(reg, s0, rank, t, name, {});
    assert SoundAt(reg, s0, rank, Resolve(reg, t, name), {}, name);
  }

  lemma {:induction false} ScanSound(reg: Registry, s0: Store, rank: ResolverId -> nat, t: Store, e: Store,
                                     rest: string, inQuotes: bool, segment: string, current: Option<Value>)
    requires WellBehaved(reg, s0.pending, rank) && Sound(reg, s0, rank, t, {})
    requires e.pending == [] && HasMeaning(reg, s0, rank, e.facts)
    ensures Sound(reg, s0, rank, Scan(reg, t, rest, inQuotes, segment, current).0, {})
    ensures Scan(reg, t, rest, inQuotes, segment, current).1 == Scan(reg, e, rest, inQuotes, segment, current).1
    decreases rest
  {
    assert Resolve(reg, e, segment) == e;
    GetSound(reg, s0, rank, t, segment);
    var (u, value) := LookupStep(reg, t, current, segment);
    assert LookupStep(reg, e, current, segment) == (e, value);
    if rest != "" {
      if rest[0] == '"' {
        ScanSound(reg, s0, rank, t, e, rest[1..], !inQuotes, segment, current);
      } else if inQuotes || rest[0] != '.' {
        ScanSound(reg, s0, rank, t, e, rest[1..], inQuotes, segment + [rest[0]], current);
      } else if value.Some? {
        ScanSound(reg, s0, rank, u, e, rest[1..], inQuotes, "", value);
      }
    }
  }

  lemma ServeSound(reg: Registry, s0: Store, rank: ResolverId -> nat, t: Store, op: Operation)
    requires WellBehaved(reg, s0.pending, rank) && Sound(reg, s0, rank, t, {}) && IsQuery(op)
    ensures Sound(reg, s0, rank, Serve(reg, t, op).0, {})
    ensures Serve(reg, t, op).1 == Serve(reg, Eager(reg, s0), op).1
  {
    var e := Eager(reg, s0);
    ResolveAllSound(reg, s0, rank, s0);
    ResolveAllSound(reg, s0, rank, t);
    MeaningIsUnique(reg, s0, rank, e.facts, ResolveAll(reg, t).facts);
    match op
    case Get(name) =>
      GetSound(reg, s0, rank, t, name);
      assert Resolve(reg, e, name) == e;
    case Ask(query) =>
      GetSound(reg, s0, rank, t, query);
      assert Resolve(reg, e, query) == e;
      assert Lookup(e.facts, query) == Meaning(reg, s0, rank, query);
      ScanSound(reg, s0, rank, Resolve(reg, t, query), e, query, false, "", None);
    case Size =>
    case Each =>
  }

  lemma {:induction false} ServeAllSound(reg: Registry, s0: Store, rank: ResolverId -> nat, t: Store,
                                         ops: seq<Operation>)
    requires WellBehaved(reg, s0.pending, rank) && Sound(reg, s0, rank, t, {})
    requires forall op :: op in ops ==> IsQuery(op)
    ensures Sound(reg, s0, rank, ServeAll(reg, t, ops).0, {})
    ensures forall i :: 0 <= i < |ops| ==>
              ServeAll(reg, t, ops).1[i] == Serve(reg, Eager(reg, s0), ops[i]).1
    decreases |ops|
  {
    if ops != [] {
      ServeSound(reg, s0, rank, t, ops[0]);
      ServeAllSound(reg, s0, rank, Serve(reg, t, ops[0]).0, ops[1..]);
    }
  }

  /** The answer that facts give when all of them are resolved. */
  function AnswerFrom(facts: map<string, Value>, op: Operation): Answer {
    match op
    case Get(name) => Found(if name in facts then Some(facts[name]) else None)
    case Size => Counted(|facts|)
    case Each => Listed(facts)
    case Ask(query) => Found(QueryIn(facts, query))
    case Put(_, _) => Done
    case Drop(_) => Done
  }

  lemma ResolvedAnswers(reg: Registry, e: Store, op: Operation)
    requires e.pending == []
    ensures Serve(reg, e, op).1 == AnswerFrom(e.facts, op)
  {
    match op
    case Get(name) => assert Resolve(reg, e, name) == e;
    case Ask(query) =>
      QueryWalks(reg, e, query);
      assert Resolve(reg, e, query) == e;
      var path := LookedUp(Segments(query, false));
      assert path != [] ==> Resolve(reg, e, path[0]) == e;
    case Size =>
    case Each =>
    case Put(_, _) =>
    case Drop(_) =>
  }

  /** Lazy equals eager. Whatever is asked, in whatever order and however often: each answer is what all facts give
      after resolving everything up front, and resolving the rest afterwards gives the same facts. */
  lemma LazyEqualsEager(reg: Registry, s: Store, rank: ResolverId -> nat, ops: seq<Operation>)
    requires WellBehaved(reg, s.pending, rank)
    requires forall op :: op in ops ==> IsQuery(op)
    ensures var (t, answers) := ServeAll(reg, s, ops);
            && ResolveAll(reg, t).facts == ResolveAll(reg, s).facts
            && forall i :: 0 <= i < |ops| ==> answers[i] == AnswerFrom(ResolveAll(reg, s).facts, ops[i])
  {
    var t := ServeAll(reg, s, ops).0;
    ServeAllSound(reg, s, rank, s, ops);
    ResolveAllSound(reg, s, rank, s);
    ResolveAllSound(reg, s, rank, t);
    MeaningIsUnique(reg, s, rank, ResolveAll(reg, s).facts, ResolveAll(reg, t).facts);
    forall i | 0 <= i < |ops| ensures Serve(reg, Eager(reg, s), ops[i]).1 == AnswerFrom(ResolveAll(reg, s).facts, ops[i]) {
      ResolvedAnswers(reg, Eager(reg, s), ops[i]);
    }
  }

  /** The order in which the resolvers were registered does not matter either. */
  lemma OrderIndependent(reg: Registry, s: Store, rank: ResolverId -> nat, reordered: seq<ResolverId>)
    requires WellBehaved(reg, s.pending, rank)
    requires forall r :: r in s.pending <==> r in reordered
    ensures ResolveAll(reg, s.(pending := reordered)).facts == ResolveAll(reg, s).facts
  {
    var t := s.(pending := reordered);
    forall r | r in reordered ensures ReadsBelow(reg, reordered, rank, r) {
      assert ReadsBelow(reg, s.pending, rank, r);
    }
    ResolveAllSound(reg, s, rank, s);
    ResolveAllSound(reg, s, rank, t);
    MeaningIsUnique(reg, s, rank, ResolveAll(reg, s).facts, ResolveAll(reg, t).facts);
  }

  // ----- Why the reads must be acyclic -----

  function Own(q: ResolverId): string { if q == 0 then "a" else "b" }

  function Other(q: ResolverId): ResolverId { if q == 0 then 1 else 0 }

  /** Reads the other one's fact and says whether it has a value. */
  function Follower(q: ResolverId): Resolver {
    Resolver([Own(q)], false, _ => false,
             [Read(_ => Own(Other(q))), Write((h: Answers) => (Own(q), Some(BooleanValue(h != [] && h[0].Some?))))])
  }

  function Followers(): Registry { (q: ResolverId) => Follower(q) }

  lemma FollowerNext(q: ResolverId, rs: seq<ResolverId>)
    requires q < 2 && (rs == [q] || rs == [0, 1])
    ensures Next(Followers(), rs, Own(q)) == Some(q) && Without(rs, q) == if rs == [q] then [] else [Other(q)]
  {
    assert Followers()(q).names[0] == Own(q);
    assert Own(0) != Own(1);
    assert forall r :: r < 2 && Covers(Followers(), r, Own(q)) ==> r == q;
    if rs == [0, 1] {
      assert Without([1], 1) == [] && Without([1], 0) == [1];
      assert rs[1..] == [1];
    }
  }

  /** What a follower does once its read is answered. */
  lemma FollowerRuns(q: ResolverId, s: Store, t: Store)
    requires q < 2 && q in s.pending && t.pending == [] && Resolve(Followers(), Taken(s, q), Own(Other(q))) == t
    ensures RunResolver(Followers(), s, q) == t.(facts := t.facts[Own(q) := BooleanValue(Own(Other(q)) in t.facts)])
  {
    var script := Followers()(q).script;
    var answers := [] + [Lookup(t.facts, Own(Other(q)))];
    assert script[1..][1..] == [];
    assert Resolve(Followers(), t, Own(q)) == t;
    assert Perform(Followers(), Taken(s, q), script, []) == Perform(Followers(), t, script[1..], answers);
  }

  lemma FollowerAskedFirst(q: ResolverId)
    requires q < 2
    ensures var s := Store(map[], [0, 1], []);
            && Resolve(Followers(), s, Own(q)) == RunResolver(Followers(), s, q)
            && RunResolver(Followers(), s, q).pending == []
            && RunResolver(Followers(), s, q).facts ==
               map[Own(Other(q)) := BooleanValue(false), Own(q) := BooleanValue(true)]
  {
    var reg, s := Followers(), Store(map[], [0, 1], []);
    FollowerNext(q, s.pending);
    var first := Taken(s, q);
    FollowerNext(Other(q), first.pending);
    var second := Taken(first, Other(q));
    FollowerRuns(Other(q), first, second);
    var t := RunResolver(reg, first, Other(q));
    assert Resolve(reg, t, Own(Other(q))) == t;
    FollowerRuns(q, s, t);
    var u := RunResolver(reg, s, q);
    assert Resolve(reg, u, Own(q)) == u;
  }

  lemma ServeOne(reg: Registry, s: Store, op: Operation)
    ensures ServeAll(reg, s, [op]).0 == Serve(reg, s, op).0
  {
    assert [op][1..] == [];
  }

  /** Two resolvers that read each other's fact: asking for the second one first changes the facts. */
  lemma CycleShowsOrder()
    ensures var s := Store(map[], [0, 1], []);
            var t := ServeAll(Followers(), s, [Get("b")]).0;
            ResolveAll(Followers(), t).facts != ResolveAll(Followers(), s).facts
  {
    var s := Store(map[], [0, 1], []);
    FollowerAskedFirst(0);
    FollowerAskedFirst(1);
    ServeOne(Followers(), s, Get("b"));
    var lazy, eager := RunResolver(Followers(), s, 1), RunResolver(Followers(), s, 0);
    assert lazy.facts["a"] == BooleanValue(false) && eager.facts["a"] == BooleanValue(true);
  }
}
