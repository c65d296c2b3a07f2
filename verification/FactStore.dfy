/** The demand-driven evaluator behind the fact collection, as functions over a store of resolved facts and
    pending resolvers. The class in Collection.dfy is proved to compute exactly these functions. */
module FactStore {
  import opened Sequences
  import opened Values

  /** Resolvers are shared pointers: they are compared by identity. */
  type ResolverId = nat

  /** What a resolver has read so far, in the order it read it. */
  type Answers = seq<Option<Value>>

  /** One interaction of a resolver with the collection that runs it. The name read, the name written and the
      value written may depend on everything read before; a written null means "resolved to null". */
  datatype Step =
    | Read(which: Answers -> string)
    | Write(entry: Answers -> (string, Option<Value>))

  datatype Resolver = Resolver(names: seq<string>, patterned: bool, matches: string -> bool, script: seq<Step>)

  /** The resolver object behind each identity. */
  type Registry = ResolverId -> Resolver

  /** The log holds the "resolving facts" debug lines, one for each resolver run. */
  datatype Store = Store(facts: map<string, Value>, pending: seq<ResolverId>, log: seq<ResolverId>)

  predicate Named(reg: Registry, r: ResolverId, name: string) {
    name in reg(r).names
  }

  predicate Matched(reg: Registry, r: ResolverId, name: string) {
    reg(r).patterned && reg(r).matches(name)
  }

  predicate Covers(reg: Registry, r: ResolverId, name: string) {
    Named(reg, r, name) || Matched(reg, r, name)
  }

  function FirstNamed(reg: Registry, rs: seq<ResolverId>, name: string): (first: Option<ResolverId>)
    ensures first.None? <==> forall r :: r in rs ==> !Named(reg, r, name)
    ensures first.Some? ==> first.value in rs && Named(reg, first.value, name)
  {
    if rs == [] then None
    else if Named(reg, rs[0], name) then Some(rs[0])
    else FirstNamed(reg, rs[1..], name)
  }

  function FirstMatched(reg: Registry, rs: seq<ResolverId>, name: string): (first: Option<ResolverId>)
    ensures first.None? <==> forall r :: r in rs ==> !Matched(reg, r, name)
    ensures first.Some? ==> first.value in rs && Matched(reg, first.value, name)
  {
    if rs == [] then None
    else if Matched(reg, rs[0], name) then Some(rs[0])
    else FirstMatched(reg, rs[1..], name)
  }

  /** The resolver that resolving a name takes next: those registered under the name come before patterns. */
  function Next(reg: Registry, rs: seq<ResolverId>, name: string): (next: Option<ResolverId>)
    ensures next.None? <==> forall r :: r in rs ==> !Covers(reg, r, name)
    ensures next.Some? ==> next.value in rs && Covers(reg, next.value, name)
  {
    var named := FirstNamed(reg, rs, name);
    if named.Some? then named else FirstMatched(reg, rs, name)
  }

  ghost predicate Subset(rs: seq<ResolverId>, qs: seq<ResolverId>) {
    |rs| <= |qs| && forall r :: r in rs ==> r in qs
  }

  /** Resolve one name: run covering resolvers until none is registered. Terminates for every registry, cyclic
      reads included, because a resolver leaves the pending list before it runs. */
  function Resolve(reg: Registry, s: Store, name: string): (t: Store)
    ensures Subset(t.pending, s.pending)
    ensures forall r :: r in t.pending ==> !Covers(reg, r, name)
    decreases |s.pending|, 1
  {
    match Next(reg, s.pending, name)
    case None => s
    case Some(r) => Resolve(reg, RunResolver(reg, s, r), name)
  }

  /** A resolver is taken off the list, all its registrations at once, before it runs. */
  function Taken(s: Store, r: ResolverId): Store {
    Store(s.facts, Without(s.pending, r), s.log + [r])
  }

  function RunResolver(reg: Registry, s: Store, r: ResolverId): (t: Store)
    requires r in s.pending
    ensures Subset(t.pending, s.pending) && |t.pending| < |s.pending| && r !in t.pending
    decreases |s.pending|, 0
  {
    Perform(reg, Taken(s, r), reg(r).script, [])
  }

  /** A resolver's own code: each step re-enters the collection. */
  function Perform(reg: Registry, s: Store, script: seq<Step>, answers: Answers): (t: Store)
    ensures Subset(t.pending, s.pending)
    decreases |s.pending|, 3, |script|
  {
    if script == [] then s
    else match script[0]
      case Read(which) =>
        var name := which(answers);
        var t := Resolve(reg, s, name);
        Perform(reg, t, script[1..], answers + [Lookup(t.facts, name)])
      case Write(entry) =>
        var (name, value) := entry(answers);
        Perform(reg, AddFact(reg, s, name, value), script[1..], answers)
  }

  function RemoveFact(reg: Registry, s: Store, name: string): (t: Store)
    ensures Subset(t.pending, s.pending)
    decreases |s.pending|, 2
  {
    var t := Resolve(reg, s, name);
    if name in t.facts then t.(facts := t.facts - {name}) else t
  }

  function AddFact(reg: Registry, s: Store, name: string, value: Option<Value>): (t: Store)
    ensures Subset(t.pending, s.pending)
    ensures forall r :: r in t.pending ==> !Covers(reg, r, name)
    decreases |s.pending|, 3, 0
  {
    var t := Resolve(reg, s, name);
    match value
    case None => if name in t.facts then RemoveFact(reg, t, name) else t
    case Some(v) => t.(facts := t.facts[name := v])
  }

  /** Run everything that is pending, front first. */
  function ResolveAll(reg: Registry, s: Store): (t: Store)
    ensures t.pending == []
    decreases |s.pending|
  {
    if s.pending == [] then s else ResolveAll(reg, RunResolver(reg, s, s.pending[0]))
  }

  /** After resolving a name, removing or storing it is a plain map update. */
  lemma AddFactAssigns(reg: Registry, s: Store, name: string, value: Option<Value>)
    ensures AddFact(reg, s, name, value) ==
            var t := Resolve(reg, s, name); t.(facts := Assign(t.facts, name, value))
  {
    var t := Resolve(reg, s, name);
    assert Resolve(reg, t, name) == t;
    if value.None? && name !in t.facts {
      assert t.facts - {name} == t.facts;
    }
  }
}
