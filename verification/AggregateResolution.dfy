/** Chunks and aggregate resolutions as the objects they are: flags and caches updated in place around recursive
    calls. Each method is proved to compute the function of the same meaning on the table's contents. */
module AggregateResolutions {
  import opened Values
  import opened DeepMerge
  import opened Chunks
  import opened Aggregation

  class Chunk {
    var requirement: Requirement
    var block: Block
    var value: RubyValue
    var resolved: bool
    var resolving: bool
    /** The name under which the chunk is in its table: no chunk is in a table twice. */
    ghost const name: Sym

    constructor (requirement: Requirement, block: Block, ghost name: Sym)
      ensures Contents() == Cell(Definition(requirement, block), Nil, false, false) && this.name == name
    {
      this.requirement, this.block, this.name := requirement, block, name;
      value, resolved, resolving := Nil, false, false;
    }

    ghost function Contents(): Cell
      reads this
    {
      Cell(Definition(requirement, block), value, resolved, resolving)
    }

    method SetDependencies(requirement: Requirement)
      modifies this
      ensures Contents() == Cell(Definition(requirement, old(block)), Nil, false, old(resolving))
    {
      this.requirement := requirement;
      value := Nil;
      resolved := false;
    }

    method SetBlock(block: Block)
      modifies this
      ensures Contents() == Cell(Definition(old(requirement), block), Nil, false, old(resolving))
    {
      this.block := block;
      value := Nil;
      resolved := false;
    }

    /** The chunk's value: cached, or from its block once its dependencies have values. */
    method Value(resolution: AggregateResolution) returns (outcome: Outcome)
      requires resolution.Valid() && name in resolution.chunks && resolution.chunks[name] == this
      modifies resolution.chunks.Values, resolution`model
      ensures resolution.Valid()
      ensures (resolution.model, outcome) == EvalChunk(old(resolution.model), name)
      decreases Idle(resolution.model), 1
    {
      if resolving {
        return Raised(CycleDetected);
      }
      if resolved {
        return Good(value);
      }
      outcome := Evaluate(resolution);
    }

    method Evaluate(resolution: AggregateResolution) returns (outcome: Outcome)
      requires resolution.Valid() && name in resolution.chunks && resolution.chunks[name] == this
      requires !resolving && !resolved
      modifies resolution.chunks.Values, resolution`model
      ensures resolution.Valid()
      ensures (resolution.model, outcome) == EvalChunk(old(resolution.model), name)
      decreases Idle(resolution.model), 0
    {
      EvalChunkStep(resolution.model, name);
      Begin(resolution);
      var args := resolution.FindChunks(Deps(Definition(requirement, block)));
      assert Contents() == resolution.model.cells[name];
      outcome := CallBlock(block, args);
      Conclude(resolution, outcome);
    }

    method Begin(resolution: AggregateResolution)
      requires resolution.Valid() && name in resolution.chunks && resolution.chunks[name] == this
      requires !resolving
      modifies this`resolving, resolution`model
      ensures resolution.Valid() && resolution.model == Started(old(resolution.model), name)
      ensures Definitions(resolution.model) == Definitions(old(resolution.model))
      ensures Idle(resolution.model) == Idle(old(resolution.model)) - {name} && name in Idle(old(resolution.model))
    {
      StartedFrame(resolution.model, name);
      resolving := true;
      resolution.model := Started(resolution.model, name);
    }

    method Conclude(resolution: AggregateResolution, outcome: Outcome)
      requires resolution.Valid() && name in resolution.chunks && resolution.chunks[name] == this
      modifies this`resolving, this`value, this`resolved, resolution`model
      ensures resolution.Valid()
      ensures resolution.model == Concluded(old(resolution.model), name, outcome)
    {
      resolving := false;
      if outcome.Good? {
        value := outcome.value;
        resolved := true;
      }
      assert Contents() == ConcludedCell(old(Contents()), outcome);
      resolution.model := Concluded(resolution.model, name, outcome);
    }
  }

  /** Arguments already collected, before the rest of an evaluation. */
  ghost function Extended(values: seq<RubyValue>, rest: (State, Arguments)): (State, Arguments) {
    (rest.0, if rest.1.Collected? then Collected(values + rest.1.values) else rest.1)
  }

  lemma ExtendedByNothing(rest: (State, Arguments))
    ensures Extended([], rest) == rest
  {
    if rest.1.Collected? {
      assert [] + rest.1.values == rest.1.values;
    }
  }

  lemma ExtendedStep(values: seq<RubyValue>, s: State, deps: seq<Sym>)
    requires deps != []
    ensures var (t, first) := FindChunk(s, deps[0]);
            Extended(values, EvalDeps(s, deps)) ==
            if first.Raised? then (t, Aborted(first.error))
            else Extended(values + [first.value], EvalDeps(t, deps[1..]))
  {
    var (t, first) := FindChunk(s, deps[0]);
    if first.Good? {
      var rest := EvalDeps(t, deps[1..]).1;
      if rest.Collected? {
        assert values + ([first.value] + rest.values) == (values + [first.value]) + rest.values;
      }
    }
  }

  ghost predicate Known(s: State, order: seq<Sym>) {
    forall n :: n in order ==> n in s.cells
  }

  /** One turn of the merging loop. */
  lemma MergeStep(s: State, order: seq<Sym>, i: nat, merged: RubyValue)
    requires i < |order| && Known(s, order)
    ensures Known(s, order[i..]) && order[i] in s.cells && Known(s, order[i + 1..])
    ensures var (t, outcome) := EvalChunk(s, order[i]);
            MergeChunks(s, order[i..], merged) ==
            if outcome.Raised? then (t, outcome)
            else if merged.Nil? then MergeChunks(t, order[i + 1..], outcome.value)
            else var m := Merge(merged, outcome.value);
                 if m.None? then (t, Raised(CannotMerge)) else MergeChunks(t, order[i + 1..], m.value)
  {
    assert order[i..][0] == order[i] && order[i..][1..] == order[i + 1..];
  }

  /** One turn of the collecting loop. */
  lemma CollectStep(s: State, order: seq<Sym>, i: nat, hash: map<Key, RubyValue>)
    requires i < |order| && Known(s, order)
    ensures Known(s, order[i..]) && order[i] in s.cells && Known(s, order[i + 1..])
    ensures var (t, outcome) := EvalChunk(s, order[i]);
            CollectChunks(s, order[i..], hash) ==
            if outcome.Raised? then (t, outcome)
            else CollectChunks(t, order[i + 1..], hash[SymbolKey(order[i]) := outcome.value])
  {
    assert order[i..][0] == order[i] && order[i..][1..] == order[i + 1..];
  }

  /** Names in increasing order, as std::map keeps them. */
  predicate Increasing(names: seq<Sym>) {
    forall i, j :: 0 <= i < j < |names| ==> names[i] < names[j]
  }

  /** The keys of an ordered map after inserting a new one. */
  function Inserted(names: seq<Sym>, n: Sym): (all: seq<Sym>)
    ensures forall m :: m in all <==> m in names || m == n
  {
    if names == [] || n < names[0] then [n] + names else [names[0]] + Inserted(names[1..], n)
  }

  lemma {:induction false} InsertedIncreases(names: seq<Sym>, n: Sym)
    requires Increasing(names) && n !in names
    ensures Increasing(Inserted(names, n))
  {
    if names != [] && names[0] < n {
      InsertedIncreases(names[1..], n);
      var rest := Inserted(names[1..], n);
      forall j | 0 <= j < |rest| ensures names[0] < rest[j] {
        assert rest[j] in rest;
      }
    }
  }

  class AggregateResolution {
    var chunks: map<Sym, Chunk>
    var order: seq<Sym>
    var block: Option<AggregateBlock>
    /** The contents of the table, with the blocks that completed since they were defined. */
    ghost var model: State

    ghost predicate Valid()
      reads this, chunks.Values
    {
      && model.cells.Keys == chunks.Keys
      && (forall n :: n in chunks ==> chunks[n].name == n && chunks[n].Contents() == model.cells[n])
      && Increasing(order) && (forall n :: n in order <==> n in chunks)
    }

    constructor ()
      ensures Valid() && model == State(map[], []) && order == [] && block == None
    {
      chunks, order, block, model := map[], [], None, State(map[], []);
    }

    method FindChunk(name: Sym) returns (outcome: Outcome)
      requires Valid()
      modifies chunks.Values, this`model
      ensures Valid()
      ensures (model, outcome) == Chunks.FindChunk(old(model), name)
      decreases Idle(model), 2
    {
      if name !in chunks {
        return Good(Nil);
      }
      outcome := chunks[name].Value(this);
    }

    /** The values of a list of chunks, up to the first that raises. */
    method FindChunks(deps: seq<Sym>) returns (args: Arguments)
      requires Valid()
      modifies chunks.Values, this`model
      ensures Valid()
      ensures (model, args) == EvalDeps(old(model), deps)
      decreases Idle(model), 3
    {
      ghost var start := model;
      var values := [];
      assert deps[0..] == deps;
      ExtendedByNothing(EvalDeps(start, deps));
      for i := 0 to |deps|
        invariant Valid() && SameFrame(start, model)
        invariant EvalDeps(start, deps) == Extended(values, EvalDeps(model, deps[i..]))
      {
        assert deps[i..][0] == deps[i] && deps[i..][1..] == deps[i + 1..];
        ExtendedStep(values, model, deps[i..]);
        var found := FindChunk(deps[i]);
        if found.Raised? {
          return Aborted(found.error);
        }
        values := values + [found.value];
      }
      assert deps[|deps|..] == [] && values + [] == values;
      args := Collected(values);
    }

    /** The value of the resolution. */
    method Value() returns (outcome: Outcome)
      requires Valid()
      modifies chunks.Values, this`model
      ensures Valid()
      ensures (model, outcome) == AggregateValue(old(model), order, block)
    {
      if block.Some? {
        outcome := CollectValues();
        if outcome.Good? {
          outcome := block.value(outcome.value);
        }
        return;
      }
      outcome := MergeValues();
    }

    /** The hash for the aggregate block. */
    method CollectValues() returns (outcome: Outcome)
      requires Valid()
      modifies chunks.Values, this`model
      ensures Valid()
      ensures (model, outcome) == CollectChunks(old(model), order, map[])
    {
      ghost var start := model;
      assert order[0..] == order;
      var hash: map<Key, RubyValue> := map[];
      for i := 0 to |order|
        invariant Valid() && Known(model, order)
        invariant CollectChunks(start, order, map[]) == CollectChunks(model, order[i..], hash)
      {
        CollectStep(model, order, i, hash);
        outcome := chunks[order[i]].Value(this);
        if outcome.Raised? {
          return;
        }
        hash := hash[SymbolKey(order[i]) := outcome.value];
      }
      assert order[|order|..] == [];
      outcome := Good(Hash(hash));
    }

    /** The default aggregation. */
    method MergeValues() returns (outcome: Outcome)
      requires Valid()
      modifies chunks.Values, this`model
      ensures Valid()
      ensures (model, outcome) == MergeChunks(old(model), order, Nil)
    {
      ghost var start := model;
      assert order[0..] == order;
      var merged := Nil;
      for i := 0 to |order|
        invariant Valid() && Known(model, order)
        invariant MergeChunks(start, order, Nil) == MergeChunks(model, order[i..], merged)
      {
        MergeStep(model, order, i, merged);
        outcome := chunks[order[i]].Value(this);
        if outcome.Raised? {
          return;
        }
        if merged.Nil? {
          merged := outcome.value;
          continue;
        }
        var m := Merge(merged, outcome.value);
        if m.None? {
          return Raised(CannotMerge);
        }
        merged := m.value;
      }
      assert order[|order|..] == [];
      outcome := Good(merged);
    }

    method DefineChunk(name: RubyValue, options: seq<(RubyValue, RubyValue)>, block: Option<Block>)
      returns (outcome: Outcome)
      requires Valid()
      modifies this`chunks, this`order, this`model, chunks.Values
      ensures Valid() && fresh(chunks.Values - old(chunks.Values))
      ensures (model, outcome) == DefineChunkOn(old(model), name, options, block)
    {
      if block.None? {
        return Raised(WrongArgument);
      }
      if !name.Symbol? {
        return Raised(WrongType);
      }
      var parsed := ReadOptions(options);
      if parsed.Rejected? {
        return Raised(parsed.error);
      }
      StoreChunk(name.id, parsed.requirement, block.value);
      return Good(Nil);
    }

    static method ReadOptions(options: seq<(RubyValue, RubyValue)>) returns (parsed: Parsed)
      ensures parsed == ParseOptions(options, NoRequire)
    {
      var requirement := NoRequire;
      assert options[0..] == options;
      for i := 0 to |options|
        invariant ParseOptions(options, NoRequire) == ParseOptions(options[i..], requirement)
      {
        assert options[i..][0] == options[i] && options[i..][1..] == options[i + 1..];
        var (key, value) := options[i];
        if !key.Symbol? {
          return Rejected(WrongType);
        }
        if key.id != REQUIRE_OPTION {
          return Rejected(WrongArgument);
        }
        parsed := ParseRequire(value);
        if parsed.Rejected? {
          return;
        }
        requirement := parsed.requirement;
      }
      assert options[|options|..] == [];
      parsed := Options(requirement);
    }

    /** Find or create the chunk, then reset it with its new requirement and block. */
    method StoreChunk(n: Sym, requirement: Requirement, block: Block)
      requires Valid()
      modifies this`chunks, this`order, this`model, chunks.Values
      ensures Valid() && fresh(chunks.Values - old(chunks.Values))
      ensures model == Define(old(model), n, Definition(requirement, block))
    {
      if n !in chunks {
        CreateChunk(n, requirement, block);
      }
      ResetChunk(n, requirement, block);
    }

    method CreateChunk(n: Sym, requirement: Requirement, block: Block)
      requires Valid() && n !in chunks
      modifies this`chunks, this`order, this`model
      ensures Valid() && chunks.Keys == old(chunks).Keys + {n} && fresh(chunks.Values - old(chunks.Values))
      ensures model == old(model).(cells := old(model).cells[n := Cell(Definition(requirement, block), Nil, false, false)])
    {
      InsertedIncreases(order, n);
      order := Inserted(order, n);
      var chunk := new Chunk(requirement, block, n);
      chunks := chunks[n := chunk];
      model := model.(cells := model.cells[n := Cell(Definition(requirement, block), Nil, false, false)]);
    }

    method ResetChunk(n: Sym, requirement: Requirement, block: Block)
      requires Valid() && n in chunks
      modifies this`model, chunks[n]
      ensures Valid()
      ensures model == Define(old(model), n, Definition(requirement, block))
    {
      chunks[n].SetDependencies(requirement);
      chunks[n].SetBlock(block);
      model := Define(model, n, Definition(requirement, block));
    }
  }
}
