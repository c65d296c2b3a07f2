/** The value of an aggregate resolution: all chunks, in the order of the chunk table, either handed to the
    aggregate block or merged. */
module Aggregation {
  import opened Sequences
  import opened Values
  import opened DeepMerge
  import opened Chunks

  type AggregateBlock = RubyValue -> Outcome

  /** The default aggregation loop. */
  function MergeChunks(s: State, order: seq<Sym>, merged: RubyValue): (r: (State, Outcome))
    requires forall n :: n in order ==> n in s.cells
    ensures SameFrame(s, r.0)
    decreases |order|
  {
    if order == [] then (s, Good(merged))
    else
      var (t, outcome) := EvalChunk(s, order[0]);
      match outcome
      case Raised(error) => (t, Raised(error))
      case Good(value) =>
        if merged.Nil? then MergeChunks(t, order[1..], value)
        else
          match Merge(merged, value)
          case None => (t, Raised(CannotMerge))
          case Some(m) => MergeChunks(t, order[1..], m)
  }

  /** The loop that builds the hash for an aggregate block. */
  function CollectChunks(s: State, order: seq<Sym>, hash: map<Key, RubyValue>): (r: (State, Outcome))
    requires forall n :: n in order ==> n in s.cells
    ensures SameFrame(s, r.0) && (r.1.Good? ==> r.1.value.Hash?)
    decreases |order|
  {
    if order == [] then (s, Good(Hash(hash)))
    else
      var (t, outcome) := EvalChunk(s, order[0]);
      match outcome
      case Raised(error) => (t, Raised(error))
      case Good(value) => CollectChunks(t, order[1..], hash[SymbolKey(order[0]) := value])
  }

  function AggregateValue(s: State, order: seq<Sym>, block: Option<AggregateBlock>): (r: (State, Outcome))
    requires forall n :: n in order ==> n in s.cells
    ensures SameFrame(s, r.0)
  {
    match block
    case None => MergeChunks(s, order, Nil)
    case Some(f) =>
      var (t, outcome) := CollectChunks(s, order, map[]);
      (t, if outcome.Good? then f(outcome.value) else outcome)
  }

  // ----- Memo-free meaning -----

  function PlainMerge(t: Table, order: seq<Sym>, merged: RubyValue): Outcome
    requires forall n :: n in order ==> n in t
  {
    if order == [] then Good(merged)
    else
      match Plain(t, {}, order[0])
      case Raised(error) => Raised(error)
      case Good(value) =>
        match Merge(merged, value)
        case None => Raised(CannotMerge)
        case Some(m) => PlainMerge(t, order[1..], m)
  }

  ghost predicate AllGood(t: Table, order: seq<Sym>) {
    forall n :: n in order ==> n in t && Plain(t, {}, n).Good?
  }

  function PlainValues(t: Table, order: seq<Sym>): seq<RubyValue>
    requires AllGood(t, order)
  {
    seq(|order|, i requires 0 <= i < |order| => assert order[i] in order; Plain(t, {}, order[i]).value)
  }

  function FromMerge(merged: Option<RubyValue>): Outcome {
    if merged.Some? then Good(merged.value) else Raised(CannotMerge)
  }

  /** Aggregating by default computes the memo-free merge and leaves the caches in order. */
  lemma {:induction false} MergeChunksIsPlain(s: State, order: seq<Sym>, merged: RubyValue)
    requires Consistent(s) && Resolving(s) == {} && forall n :: n in order ==> n in s.cells
    ensures var (t, outcome) := MergeChunks(s, order, merged);
            && outcome == PlainMerge(Definitions(s), order, merged)
            && Consistent(t) && Resolving(t) == {}
    decreases |order|
  {
    if order != [] {
      OutermostEvaluation(s, order[0]);
      var (t, outcome) := EvalChunk(s, order[0]);
      if outcome.Good? {
        NilIsIdentity(outcome.value);
        if Merge(merged, outcome.value).Some? {
          MergeChunksIsPlain(t, order[1..], Merge(merged, outcome.value).value);
        }
      }
    }
  }

  lemma {:induction false} PlainMergeIsFold(t: Table, order: seq<Sym>, merged: RubyValue)
    requires AllGood(t, order)
    ensures PlainMerge(t, order, merged) == FromMerge(MergeAll(Some(merged), FoldMerge(PlainValues(t, order))))
    decreases |order|
  {
    if order == [] {
      NilIsIdentity(merged);
    } else {
      var value := Plain(t, {}, order[0]).value;
      var rest := FoldMerge(PlainValues(t, order[1..]));
      assert PlainValues(t, order) == [value] + PlainValues(t, order[1..]);
      FoldOne(value);
      FoldConcat([value], PlainValues(t, order[1..]));
      if rest.Some? {
        Associative(merged, value, rest.value);
      }
      if Merge(merged, value).Some? {
        PlainMergeIsFold(t, order[1..], Merge(merged, value).value);
      }
    }
  }

  /** When every chunk has a value, the aggregate is the fold of the merge over all of them. */
  lemma AggregateIsFold(s: State, order: seq<Sym>)
    requires Consistent(s) && Resolving(s) == {} && AllGood(Definitions(s), order)
    ensures AggregateValue(s, order, None).1 == FromMerge(FoldMerge(PlainValues(Definitions(s), order)))
  {
    MergeChunksIsPlain(s, order, Nil);
    PlainMergeIsFold(Definitions(s), order, Nil);
    if FoldMerge(PlainValues(Definitions(s), order)).Some? {
      NilIsIdentity(FoldMerge(PlainValues(Definitions(s), order)).value);
    }
  }

  /** When the arrays of every two chunks commute, as when no two chunks put arrays at the same path, the order of the
      table does not show in the aggregate. */
  lemma AggregateIgnoresOrder(s: State, order: seq<Sym>, reordered: seq<Sym>)
    requires Consistent(s) && Resolving(s) == {} && AllGood(Definitions(s), order)
    requires multiset(order) == multiset(reordered) && PairwiseCommute(PlainValues(Definitions(s), order))
    ensures (forall n :: n in reordered ==> n in s.cells)
    ensures AggregateValue(s, reordered, None).1 == AggregateValue(s, order, None).1
  {
    SameElements(order, reordered);
    AggregateIsFold(s, order);
    AggregateIsFold(s, reordered);
    ValuesPermute(Definitions(s), order, reordered);
    OrderIndependent(PlainValues(Definitions(s), order), PlainValues(Definitions(s), reordered));
  }

  lemma {:induction false} ValuesPermute(t: Table, order: seq<Sym>, reordered: seq<Sym>)
    requires AllGood(t, order) && AllGood(t, reordered) && multiset(order) == multiset(reordered)
    ensures multiset(PlainValues(t, order)) == multiset(PlainValues(t, reordered))
    decreases |order|
  {
    SameElements(order, reordered);
    if order != [] {
      var before, after := PlaceOfFirst(order, reordered);
      SameElements(order[1..], before + after);
      ValuesPermute(t, order[1..], before + after);
      ValuesAround(t, before, order[0], after);
      ValuesAround(t, [], order[0], order[1..]);
      assert [] + [order[0]] + order[1..] == order && [] + order[1..] == order[1..];
    }
  }

  lemma ValuesConcat(t: Table, xs: seq<Sym>, ys: seq<Sym>)
    requires AllGood(t, xs) && AllGood(t, ys)
    ensures PlainValues(t, xs + ys) == PlainValues(t, xs) + PlainValues(t, ys)
  {
  }

  lemma ValuesAround(t: Table, before: seq<Sym>, n: Sym, after: seq<Sym>)
    requires AllGood(t, before + [n] + after)
    ensures AllGood(t, before + after) && n in t && Plain(t, {}, n).Good?
    ensures multiset(PlainValues(t, before + [n] + after)) ==
            multiset(PlainValues(t, before + after)) + multiset{Plain(t, {}, n).value}
  {
    assert forall m :: m in before || m == n || m in after <==> m in before + [n] + after;
    ValuesConcat(t, before, [n]);
    ValuesConcat(t, before + [n], after);
    ValuesConcat(t, before, after);
    assert PlainValues(t, [n]) == [Plain(t, {}, n).value];
    MultisetAround(PlainValues(t, before), Plain(t, {}, n).value, PlainValues(t, after));
  }

  /** A hash that holds, under each chunk's name, the chunk's memo-free value, over what it held before. */
  ghost predicate HoldsValues(t: Table, order: seq<Sym>, before: map<Key, RubyValue>, hash: map<Key, RubyValue>)
    requires AllGood(t, order)
  {
    && (forall n :: n in order ==> SymbolKey(n) in hash && Good(hash[SymbolKey(n)]) == Plain(t, {}, n))
    && (forall k :: (k in before || (k.SymbolKey? && k.id in order)) <==> k in hash)
    && (forall k :: k in before && !(k.SymbolKey? && k.id in order) ==> hash[k] == before[k])
  }

  /** With an aggregate block: the block gets every chunk's memo-free value under the chunk's name. */
  lemma {:induction false} CollectIsPlain(s: State, order: seq<Sym>, hash: map<Key, RubyValue>)
    requires Consistent(s) && Resolving(s) == {} && AllGood(Definitions(s), order)
    ensures var (t, outcome) := CollectChunks(s, order, hash);
            && Consistent(t) && Resolving(t) == {} && outcome.Good? && outcome.value.Hash?
            && HoldsValues(Definitions(s), order, hash, outcome.value.entries)
    decreases |order|
  {
    if order != [] {
      var n, rest := order[0], order[1..];
      assert n in Definitions(s);
      OutermostEvaluation(s, n);
      var (t, outcome) := EvalChunk(s, n);
      var next := hash[SymbolKey(n) := outcome.value];
      CollectIsPlain(t, rest, next);
      HoldsValuesStep(Definitions(s), order, hash, CollectChunks(t, rest, next).1.value.entries);
    }
  }

  lemma HoldsValuesStep(t: Table, order: seq<Sym>, before: map<Key, RubyValue>, hash: map<Key, RubyValue>)
    requires order != [] && AllGood(t, order)
    requires HoldsValues(t, order[1..], before[SymbolKey(order[0]) := Plain(t, {}, order[0]).value], hash)
    ensures HoldsValues(t, order, before, hash)
  {
    assert forall n :: n in order <==> n == order[0] || n in order[1..];
  }

  /** The first chunk without a value is what an aggregate raises, with or without an aggregate block. */
  lemma {:induction false} FirstFailureRaises(s: State, front: seq<Sym>, n: Sym, back: seq<Sym>,
                                              hash: map<Key, RubyValue>)
    requires Consistent(s) && Resolving(s) == {} && AllGood(Definitions(s), front)
    requires n in s.cells && Plain(Definitions(s), {}, n).Raised? && forall m :: m in back ==> m in s.cells
    ensures CollectChunks(s, front + [n] + back, hash).1 == Plain(Definitions(s), {}, n)
    decreases |front|
  {
    if front == [] {
      assert [] + [n] + back == [n] + back;
      OutermostEvaluation(s, n);
    } else {
      assert (front + [n] + back)[1..] == front[1..] + [n] + back;
      assert front[0] in Definitions(s);
      OutermostEvaluation(s, front[0]);
      FirstFailureRaises(EvalChunk(s, front[0]).0, front[1..], n, back,
                         hash[SymbolKey(front[0]) := EvalChunk(s, front[0]).1.value]);
    }
  }

  /** By default a failed merge of the chunks before it comes before a chunk that raises. */
  lemma {:induction false} FirstFailureEndsMerge(s: State, merged: RubyValue, front: seq<Sym>, n: Sym, back: seq<Sym>)
    requires Consistent(s) && Resolving(s) == {} && AllGood(Definitions(s), front)
    requires n in s.cells && Plain(Definitions(s), {}, n).Raised? && forall m :: m in back ==> m in s.cells
    ensures forall m :: m in front + [n] + back ==> m in s.cells
    ensures MergeChunks(s, front + [n] + back, merged).1 ==
            if MergeAll(Some(merged), FoldMerge(PlainValues(Definitions(s), front))).None? then Raised(CannotMerge)
            else Plain(Definitions(s), {}, n)
    decreases |front|
  {
    AllKnown(s, front, n, back);
    var t := Definitions(s);
    MergeChunksIsPlain(s, front + [n] + back, merged);
    PlainMergeConcat(t, front, [n] + back, merged);
    Associates(front, [n], back);
    PlainMergeIsFold(t, front, merged);
  }

  lemma AllKnown(s: State, front: seq<Sym>, n: Sym, back: seq<Sym>)
    requires AllGood(Definitions(s), front) && n in s.cells && forall m :: m in back ==> m in s.cells
    ensures forall m :: m in front + [n] + back ==> m in s.cells
  {
    forall m | m in front ensures m in s.cells {
      assert m in Definitions(s);
    }
  }

  lemma {:induction false} PlainMergeConcat(t: Table, a: seq<Sym>, b: seq<Sym>, merged: RubyValue)
    requires (forall n :: n in a ==> n in t) && (forall n :: n in b ==> n in t)
    ensures PlainMerge(t, a + b, merged) ==
            var first := PlainMerge(t, a, merged); if first.Good? then PlainMerge(t, b, first.value) else first
    decreases |a|
  {
    if a == [] {
      assert a + b == b;
    } else {
      assert (a + b)[1..] == a[1..] + b && (a + b)[0] == a[0];
      var outcome := Plain(t, {}, a[0]);
      if outcome.Good? && Merge(merged, outcome.value).Some? {
        PlainMergeConcat(t, a[1..], b, Merge(merged, outcome.value).value);
      }
    }
  }

  /** With an aggregate block, when every chunk has a value: the block's answer to the hash of all values by name. */
  lemma BlockGetsValues(s: State, order: seq<Sym>, block: AggregateBlock) returns (hash: map<Key, RubyValue>)
    requires Consistent(s) && Resolving(s) == {} && AllGood(Definitions(s), order)
    ensures forall k :: k in hash <==> k.SymbolKey? && k.id in order
    ensures forall n :: n in order ==> Good(hash[SymbolKey(n)]) == Plain(Definitions(s), {}, n)
    ensures AggregateValue(s, order, Some(block)).1 == block(Hash(hash))
  {
    CollectIsPlain(s, order, map[]);
    hash := CollectChunks(s, order, map[]).1.value.entries;
  }

  // ----- define_chunk: checking the options -----

  /** The symbol of the only option. */
  const REQUIRE_OPTION: Sym := 0

  datatype Parsed = Options(requirement: Requirement) | Rejected(error: Error)

  predicate AllSymbols(values: seq<RubyValue>) {
    forall v :: v in values ==> v.Symbol?
  }

  function SymbolIds(values: seq<RubyValue>): seq<Sym>
    requires AllSymbols(values)
  {
    if values == [] then [] else [values[0].id] + SymbolIds(values[1..])
  }

  function ParseRequire(value: RubyValue): Parsed {
    if value.Array? then
      if AllSymbols(value.elements) then Options(Many(SymbolIds(value.elements))) else Rejected(WrongType)
    else if value.Symbol? then Options(One(value.id))
    else Rejected(WrongType)
  }

  /** The options hash, in iteration order: a later require replaces an earlier one, the first fault raises. */
  function ParseOptions(options: seq<(RubyValue, RubyValue)>, requirement: Requirement): Parsed {
    if options == [] then Options(requirement)
    else
      var (key, value) := options[0];
      if !key.Symbol? then Rejected(WrongType)
      else if key.id != REQUIRE_OPTION then Rejected(WrongArgument)
      else
        match ParseRequire(value)
        case Rejected(error) => Rejected(error)
        case Options(r) => ParseOptions(options[1..], r)
  }

  function Symbols(ids: seq<Sym>): seq<RubyValue> {
    seq(|ids|, i requires 0 <= i < |ids| => Symbol(ids[i]))
  }

  lemma {:induction false} SymbolIdsBack(ids: seq<Sym>)
    ensures AllSymbols(Symbols(ids)) && SymbolIds(Symbols(ids)) == ids
  {
    if ids != [] {
      assert Symbols(ids)[1..] == Symbols(ids[1..]);
      SymbolIdsBack(ids[1..]);
    }
  }

  /** What is required is what is passed: one symbol or an array of symbols, in its order; nothing else is accepted. */
  lemma RequirementReadsBack(id: Sym, ids: seq<Sym>, block: Block)
    ensures Deps(Definition(ParseRequire(Symbol(id)).requirement, block)) == [id]
    ensures ParseRequire(Array(Symbols(ids))).Options?
    ensures Deps(Definition(ParseRequire(Array(Symbols(ids))).requirement, block)) == ids
    ensures Deps(Definition(NoRequire, block)) == []
  {
    SymbolIdsBack(ids);
  }

  lemma RequirementExactly(value: RubyValue)
    ensures ParseRequire(value).Options? <==> value.Symbol? || (exists ids :: value == Array(Symbols(ids)))
    ensures ParseRequire(value).Rejected? ==> ParseRequire(value) == Rejected(WrongType)
  {
    if value.Array? && AllSymbols(value.elements) {
      var ids := SymbolIds(value.elements);
      SymbolsBack(value.elements);
      assert value == Array(Symbols(ids));
    }
    forall ids ensures value == Array(Symbols(ids)) ==> ParseRequire(value).Options? {
      SymbolIdsBack(ids);
    }
  }

  lemma {:induction false} SymbolsBack(values: seq<RubyValue>)
    requires AllSymbols(values)
    ensures Symbols(SymbolIds(values)) == values
  {
    if values != [] {
      assert values[0] in values;
      SymbolsBack(values[1..]);
      assert Symbols(SymbolIds(values))[1..] == Symbols(SymbolIds(values[1..]));
      assert values == [values[0]] + values[1..];
    }
  }

  predicate IsRequireOption(option: (RubyValue, RubyValue)) {
    option.0 == Symbol(REQUIRE_OPTION) && ParseRequire(option.1).Options?
  }

  /** Options are accepted exactly when each is a require option for a symbol or an array of symbols; the last one
      counts. */
  lemma {:induction false} OptionsExactly(options: seq<(RubyValue, RubyValue)>, requirement: Requirement)
    ensures var parsed := ParseOptions(options, requirement);
            && (parsed.Options? <==> forall option :: option in options ==> IsRequireOption(option))
            && (parsed.Options? ==> parsed == if options == [] then Options(requirement)
                                             else ParseRequire(options[|options| - 1].1))
    decreases |options|
  {
    if options != [] {
      var (key, value) := options[0];
      assert options[0] in options;
      if key == Symbol(REQUIRE_OPTION) && ParseRequire(value).Options? {
        OptionsExactly(options[1..], ParseRequire(value).requirement);
        assert forall option :: option in options <==> option == options[0] || option in options[1..];
      }
    }
  }

  /** define_chunk: nothing changes unless every check passes. */
  function DefineChunkOn(s: State, name: RubyValue, options: seq<(RubyValue, RubyValue)>, block: Option<Block>)
    : (State, Outcome)
  {
    if block.None? then (s, Raised(WrongArgument))
    else if !name.Symbol? then (s, Raised(WrongType))
    else
      match ParseOptions(options, NoRequire)
      case Rejected(error) => (s, Raised(error))
      case Options(requirement) => (Define(s, name.id, Definition(requirement, block.value)), Good(Nil))
  }

  /** The first option at fault decides the error: a key that is no symbol or a value of the wrong type is a type error,
      another symbol is an argument error. */
  lemma {:induction false} FirstFaultDecides(front: seq<(RubyValue, RubyValue)>, bad: (RubyValue, RubyValue),
                                             back: seq<(RubyValue, RubyValue)>, requirement: Requirement)
    requires (forall option :: option in front ==> IsRequireOption(option)) && !IsRequireOption(bad)
    ensures ParseOptions(front + [bad] + back, requirement) ==
            Rejected(if bad.0.Symbol? && bad.0.id != REQUIRE_OPTION then WrongArgument else WrongType)
    decreases |front|
  {
    var all := front + [bad] + back;
    if front == [] {
      assert all[0] == bad;
      RequirementExactly(bad.1);
    } else {
      assert front[0] in front && all[0] == front[0] && all[1..] == front[1..] + [bad] + back;
      FirstFaultDecides(front[1..], bad, back, ParseRequire(front[0].1).requirement);
    }
  }

  /** A chunk is defined exactly when it is given a block, a symbol for its name and acceptable options; otherwise
      nothing changes. */
  lemma DefinedExactly(s: State, name: RubyValue, options: seq<(RubyValue, RubyValue)>, block: Option<Block>)
    ensures var (t, outcome) := DefineChunkOn(s, name, options, block);
            && (outcome.Good? <==> block.Some? && name.Symbol? && forall option :: option in options ==> IsRequireOption(option))
            && (outcome.Raised? ==> t == s)
            && (outcome.Good? && options == [] ==> t == Define(s, name.id, Definition(NoRequire, block.value)))
            && (outcome.Good? && options != [] ==>
                  var last := options[|options| - 1];
                  && IsRequireOption(last)
                  && t == Define(s, name.id, Definition(ParseRequire(last.1).requirement, block.value)))
  {
    OptionsExactly(options, NoRequire);
    if options != [] {
      assert options[|options| - 1] in options;
    }
  }
}
