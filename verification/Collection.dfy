/** The fact collection itself: three indexes of resolvers kept in step, and the loops over them. Every method is
    proved to compute the function of the same meaning in FactStore.dfy or Query.dfy. */
module FactCollection {
  import opened Sequences
  import opened Values
  import opened FactStore
  import opened Query

  // ----- The two derived indexes, as functions of the registration list -----

  function EntriesOf(names: seq<string>, r: ResolverId): seq<(string, ResolverId)> {
    seq(|names|, i requires 0 <= i < |names| => (names[i], r))
  }

  /** _resolver_map: one entry for each name of each registration, in insertion order. */
  function NameIndex(reg: Registry, rs: seq<ResolverId>): seq<(string, ResolverId)> {
    if rs == [] then [] else EntriesOf(reg(rs[0]).names, rs[0]) + NameIndex(reg, rs[1..])
  }

  /** _pattern_resolvers. */
  function PatternIndex(reg: Registry, rs: seq<ResolverId>): seq<ResolverId> {
    if rs == [] then []
    else (if reg(rs[0]).patterned then [rs[0]] else []) + PatternIndex(reg, rs[1..])
  }

  function ErasedName(entries: seq<(string, ResolverId)>, name: string, r: ResolverId): seq<(string, ResolverId)> {
    if entries == [] then []
    else (if entries[0] == (name, r) then [] else [entries[0]]) + ErasedName(entries[1..], name, r)
  }

  function ErasedNames(entries: seq<(string, ResolverId)>, names: seq<string>, r: ResolverId)
    : seq<(string, ResolverId)>
    decreases |names|
  {
    if names == [] then entries else ErasedNames(ErasedName(entries, names[0], r), names[1..], r)
  }

  lemma {:induction false} NameIndexAppend(reg: Registry, rs: seq<ResolverId>, r: ResolverId)
    ensures NameIndex(reg, rs + [r]) == NameIndex(reg, rs) + EntriesOf(reg(r).names, r)
  {
    if rs == [] {
      assert [r][1..] == [];
      assert rs + [r] == [r];
    } else {
      assert (rs + [r])[1..] == rs[1..] + [r];
      NameIndexAppend(reg, rs[1..], r);
    }
  }

  lemma {:induction false} PatternIndexAppend(reg: Registry, rs: seq<ResolverId>, r: ResolverId)
    ensures PatternIndex(reg, rs + [r]) == PatternIndex(reg, rs) + if reg(r).patterned then [r] else []
  {
    if rs != [] {
      assert (rs + [r])[1..] == rs[1..] + [r];
      PatternIndexAppend(reg, rs[1..], r);
    }
  }

  lemma {:induction false} ErasedNameConcat(a: seq<(string, ResolverId)>, b: seq<(string, ResolverId)>,
                                            name: string, r: ResolverId)
    ensures ErasedName(a + b, name, r) == ErasedName(a, name, r) + ErasedName(b, name, r)
  {
    if a == [] {
      assert a + b == b;
    } else {
      assert (a + b)[1..] == a[1..] + b;
      ErasedNameConcat(a[1..], b, name, r);
    }
  }

  lemma {:induction false} ErasedNamesConcat(a: seq<(string, ResolverId)>, b: seq<(string, ResolverId)>,
                                             names: seq<string>, r: ResolverId)
    ensures ErasedNames(a + b, names, r) == ErasedNames(a, names, r) + ErasedNames(b, names, r)
    decreases |names|
  {
    if names != [] {
      ErasedNameConcat(a, b, names[0], r);
      ErasedNamesConcat(ErasedName(a, names[0], r), ErasedName(b, names[0], r), names[1..], r);
    }
  }

  lemma {:induction false} ErasedNameOther(entries: seq<(string, ResolverId)>, name: string, r: ResolverId)
    requires forall e :: e in entries ==> e.1 != r
    ensures ErasedName(entries, name, r) == entries
  {
    if entries != [] {
      ErasedNameOther(entries[1..], name, r);
    }
  }

  lemma {:induction false} ErasedNamesOther(entries: seq<(string, ResolverId)>, names: seq<string>, r: ResolverId)
    requires forall e :: e in entries ==> e.1 != r
    ensures ErasedNames(entries, names, r) == entries
    decreases |names|
  {
    if names != [] {
      ErasedNameOther(entries, names[0], r);
      ErasedNamesOther(entries, names[1..], r);
    }
  }

  lemma {:induction false} ErasedNameShrinks(entries: seq<(string, ResolverId)>, name: string, r: ResolverId)
    ensures forall e :: e in ErasedName(entries, name, r) <==> e in entries && e != (name, r)
  {
    if entries != [] {
      ErasedNameShrinks(entries[1..], name, r);
    }
  }

  lemma {:induction false} ErasedNamesOwn(entries: seq<(string, ResolverId)>, names: seq<string>, r: ResolverId)
    requires forall e :: e in entries ==> e.1 == r && e.0 in names
    ensures ErasedNames(entries, names, r) == []
    decreases |names|
  {
    if entries != [] {
      assert entries[0] in entries && entries[0].0 in names;
    }
    if names != [] {
      ErasedNameShrinks(entries, names[0], r);
      forall e | e in ErasedName(entries, names[0], r) ensures e.1 == r && e.0 in names[1..] {
        assert e.0 in names && e.0 != names[0];
      }
      ErasedNamesOwn(ErasedName(entries, names[0], r), names[1..], r);
    }
  }

  /** Erasing a resolver's entries name by name leaves the index of the remaining registrations. */
  lemma {:induction false} NameIndexWithout(reg: Registry, rs: seq<ResolverId>, r: ResolverId)
    ensures ErasedNames(NameIndex(reg, rs), reg(r).names, r) == NameIndex(reg, Without(rs, r))
  {
    if rs == [] {
      ErasedNamesOther([], reg(r).names, r);
    } else {
      var own := EntriesOf(reg(rs[0]).names, rs[0]);
      ErasedNamesConcat(own, NameIndex(reg, rs[1..]), reg(r).names, r);
      NameIndexWithout(reg, rs[1..], r);
      if rs[0] == r {
        ErasedNamesOwn(own, reg(r).names, r);
      } else {
        ErasedNamesOther(own, reg(r).names, r);
      }
    }
  }

  lemma {:induction false} PatternIndexWithout(reg: Registry, rs: seq<ResolverId>, r: ResolverId)
    ensures Without(PatternIndex(reg, rs), r) == PatternIndex(reg, Without(rs, r))
  {
    if rs != [] {
      PatternIndexWithout(reg, rs[1..], r);
      if reg(rs[0]).patterned {
        assert ([rs[0]] + PatternIndex(reg, rs[1..]))[1..] == PatternIndex(reg, rs[1..]);
      } else {
        assert [] + PatternIndex(reg, rs[1..]) == PatternIndex(reg, rs[1..]);
      }
    }
  }

  /** The first entry under a name belongs to the first registration with that name. */
  function FirstEntry(entries: seq<(string, ResolverId)>, name: string): Option<ResolverId> {
    if entries == [] then None
    else if entries[0].0 == name then Some(entries[0].1)
    else FirstEntry(entries[1..], name)
  }

  lemma {:induction false} FirstEntryConcat(a: seq<(string, ResolverId)>, b: seq<(string, ResolverId)>,
                                            name: string)
    ensures FirstEntry(a + b, name) ==
            if FirstEntry(a, name).Some? then FirstEntry(a, name) else FirstEntry(b, name)
  {
    if a == [] {
      assert a + b == b;
    } else {
      assert (a + b)[1..] == a[1..] + b;
      FirstEntryConcat(a[1..], b, name);
    }
  }

  lemma {:induction false} FirstEntryOf(names: seq<string>, r: ResolverId, name: string)
    ensures FirstEntry(EntriesOf(names, r), name) == if name in names then Some(r) else None
  {
    if names != [] {
      assert EntriesOf(names, r)[1..] == EntriesOf(names[1..], r);
      FirstEntryOf(names[1..], r, name);
    }
  }

  lemma {:induction false} FirstEntryIsFirstNamed(reg: Registry, rs: seq<ResolverId>, name: string)
    ensures FirstEntry(NameIndex(reg, rs), name) == FirstNamed(reg, rs, name)
  {
    if rs != [] {
      FirstEntryConcat(EntriesOf(reg(rs[0]).names, rs[0]), NameIndex(reg, rs[1..]), name);
      FirstEntryOf(reg(rs[0]).names, rs[0], name);
      FirstEntryIsFirstNamed(reg, rs[1..], name);
    }
  }

  function FirstMatch(reg: Registry, rs: seq<ResolverId>, name: string): Option<ResolverId> {
    if rs == [] then None
    else if reg(rs[0]).matches(name) then Some(rs[0])
    else FirstMatch(reg, rs[1..], name)
  }

  lemma {:induction false} FirstMatchIsFirstMatched(reg: Registry, rs: seq<ResolverId>, name: string)
    ensures FirstMatch(reg, PatternIndex(reg, rs), name) == FirstMatched(reg, rs, name)
  {
    if rs != [] {
      FirstMatchIsFirstMatched(reg, rs[1..], name);
      if reg(rs[0]).patterned {
        assert ([rs[0]] + PatternIndex(reg, rs[1..]))[1..] == PatternIndex(reg, rs[1..]);
      } else {
        assert [] + PatternIndex(reg, rs[1..]) == PatternIndex(reg, rs[1..]);
      }
    }
  }

  class Collection {
    const registry: Registry
    var facts: map<string, Value>
    var resolvers: seq<ResolverId>
    var resolverMap: seq<(string, ResolverId)>
    var patternResolvers: seq<ResolverId>
    var log: seq<ResolverId>

    ghost predicate Valid()
      reads this
    {
      resolverMap == NameIndex(registry, resolvers) && patternResolvers == PatternIndex(registry, resolvers)
    }

    ghost function Contents(): Store
      reads this
    {
      Store(facts, resolvers, log)
    }

    constructor (registry: Registry)
      ensures Valid() && Contents() == Store(map[], [], []) && this.registry == registry
    {
      this.registry := registry;
      facts, resolvers, resolverMap, patternResolvers, log := map[], [], [], [], [];
    }

    /** Register a resolver. */
    method AddResolver(r: ResolverId)
      requires Valid()
      modifies this
      ensures Valid() && Contents() == old(Contents()).(pending := old(resolvers) + [r])
    {
      NameIndexAppend(registry, resolvers, r);
      PatternIndexAppend(registry, resolvers, r);
      resolverMap := resolverMap + EntriesOf(registry(r).names, r);
      if registry(r).patterned {
        patternResolvers := patternResolvers + [r];
      }
      resolvers := resolvers + [r];
    }

    /** Erase the entries (name, r) of the multimap, one iterator step at a time. */
    method EraseName(name: string, r: ResolverId)
      modifies this`resolverMap
      ensures resolverMap == ErasedName(old(resolverMap), name, r)
    {
      var i := 0;
      while i < |resolverMap|
        invariant 0 <= i <= |resolverMap|
        invariant resolverMap[..i] + ErasedName(resolverMap[i..], name, r) == ErasedName(old(resolverMap), name, r)
        decreases |resolverMap| - i
      {
        ghost var before := resolverMap;
        if resolverMap[i] != (name, r) {
          i := i + 1;
          assert before[i - 1..][1..] == before[i..];
        } else {
          resolverMap := resolverMap[..i] + resolverMap[i + 1..];
          assert resolverMap[..i] == before[..i] && resolverMap[i..] == before[i..][1..];
        }
      }
      assert resolverMap[..i] == resolverMap && resolverMap[i..] == [];
    }

    /** Remove a resolver from all three indexes. */
    method RemoveResolver(r: ResolverId)
      requires Valid()
      modifies this`resolverMap, this`patternResolvers, this`resolvers
      ensures Valid() && resolvers == Without(old(resolvers), r)
    {
      ghost var names := registry(r).names;
      for i := 0 to |registry(r).names|
        invariant resolvers == old(resolvers) && patternResolvers == old(patternResolvers)
        invariant ErasedNames(resolverMap, names[i..], r) == ErasedNames(old(resolverMap), names, r)
      {
        EraseName(registry(r).names[i], r);
        assert names[i..][1..] == names[i + 1..];
      }
      assert names[|names|..] == [];
      NameIndexWithout(registry, resolvers, r);
      PatternIndexWithout(registry, resolvers, r);
      patternResolvers := Without(patternResolvers, r);
      resolvers := Without(resolvers, r);
    }

    /** Remove a registered resolver, log it, and run its code on this collection. */
    method Run(r: ResolverId)
      requires Valid() && r in resolvers
      modifies this
      ensures Valid() && Contents() == RunResolver(registry, old(Contents()), r)
      decreases |resolvers|, 0
    {
      RemoveResolver(r);
      log := log + [r];
      ghost var start := Contents();
      ghost var script := registry(r).script;
      var answers: Answers := [];
      assert script[0..] == script;
      for i := 0 to |registry(r).script|
        invariant Valid() && |resolvers| < |old(resolvers)|
        invariant Perform(registry, Contents(), script[i..], answers) == Perform(registry, start, script, [])
      {
        assert script[i..][1..] == script[i + 1..];
        match registry(r).script[i]
        case Read(which) =>
          var answer := GetValue(which(answers));
          answers := answers + [answer];
        case Write(entry) =>
          var (name, value) := entry(answers);
          AddFactValue(name, value);
      }
    }

    method ResolveFact(name: string)
      requires Valid()
      modifies this
      ensures Valid() && Contents() == Resolve(registry, old(Contents()), name)
      decreases |resolvers|, 1
    {
      FirstEntryIsFirstNamed(registry, resolvers, name);
      var next := FirstEntry(resolverMap, name);
      while next.Some?
        invariant Valid() && |resolvers| <= |old(resolvers)|
        invariant next == FirstNamed(registry, resolvers, name)
        invariant Resolve(registry, Contents(), name) == Resolve(registry, old(Contents()), name)
        decreases |resolvers|
      {
        Run(next.value);
        FirstEntryIsFirstNamed(registry, resolvers, name);
        next := FirstEntry(resolverMap, name);
      }
      FirstMatchIsFirstMatched(registry, resolvers, name);
      next := FirstMatch(registry, patternResolvers, name);
      while next.Some?
        invariant Valid() && |resolvers| <= |old(resolvers)|
        invariant forall r :: r in resolvers ==> !Named(registry, r, name)
        invariant next == FirstMatched(registry, resolvers, name)
        invariant Resolve(registry, Contents(), name) == Resolve(registry, old(Contents()), name)
        decreases |resolvers|
      {
        Run(next.value);
        FirstMatchIsFirstMatched(registry, resolvers, name);
        next := FirstMatch(registry, patternResolvers, name);
      }
    }

    method GetValue(name: string) returns (value: Option<Value>)
      requires Valid()
      modifies this
      ensures Valid() && Contents() == Resolve(registry, old(Contents()), name)
      ensures value == Lookup(facts, name)
      decreases |resolvers|, 2
    {
      ResolveFact(name);
      value := if name in facts then Some(facts[name]) else None;
    }

    method RemoveFactValue(name: string)
      requires Valid()
      modifies this
      ensures Valid() && Contents() == RemoveFact(registry, old(Contents()), name)
      decreases |resolvers|, 3
    {
      var value := GetValue(name);
      if value.None? {
        return;
      }
      facts := facts - {name};
    }

    method AddFactValue(name: string, value: Option<Value>)
      requires Valid()
      modifies this
      ensures Valid() && Contents() == AddFact(registry, old(Contents()), name, value)
      decreases |resolvers|, 4
    {
      var oldValue := GetValue(name);
      if value.None? {
        if oldValue.Some? {
          RemoveFactValue(name);
        }
        return;
      }
      facts := facts[name := value.value];
    }

    method ResolveFacts()
      requires Valid()
      modifies this
      ensures Valid() && Contents() == ResolveAll(registry, old(Contents()))
    {
      while resolvers != []
        invariant Valid()
        invariant ResolveAll(registry, Contents()) == ResolveAll(registry, old(Contents()))
        decreases |resolvers|
      {
        Run(resolvers[0]);
      }
    }

    method Size() returns (size: nat)
      requires Valid()
      modifies this
      ensures Valid() && Contents() == ResolveAll(registry, old(Contents())) && size == |facts|
    {
      ResolveFacts();
      size := |facts|;
    }

    method LookupValue(current: Option<Value>, name: string) returns (value: Option<Value>)
      requires Valid()
      modifies this
      ensures Valid() && (Contents(), value) == LookupStep(registry, old(Contents()), current, name)
    {
      match current
      case None => value := GetValue(name);
      case Some(v) => value := Element(v, name);
    }

    method AskQuery(query: string) returns (current: Option<Value>)
      requires Valid()
      modifies this
      ensures Valid() && (Contents(), current) == QueryValue(registry, old(Contents()), query)
    {
      current := GetValue(query);
      if current.Some? {
        return;
      }
      ghost var start := Contents();
      var inQuotes, segment := false, "";
      assert query[0..] == query;
      for i := 0 to |query|
        invariant Valid()
        invariant Scan(registry, Contents(), query[i..], inQuotes, segment, current) ==
                  Scan(registry, start, query, false, "", None)
      {
        var c := query[i];
        assert query[i..][0] == c && query[i..][1..] == query[i + 1..];
        if c == '"' {
          inQuotes := !inQuotes;
          continue;
        }
        if inQuotes || c != '.' {
          segment := segment + [c];
          continue;
        }
        current := LookupValue(current, segment);
        if current.None? {
          return;
        }
        segment := "";
      }
      assert query[|query|..] == "";
      if segment != "" {
        current := LookupValue(current, segment);
      }
    }
  }
}
