/** Custom facts as the objects they are, with their flags, caches and in-place sort. Each method is proved to
    compute the function of the same meaning on the contents of all facts and of the collection. */
module RubyFactObjects {
  import opened DeepMerge
  import opened RubyFacts
  import Chunks

  class Fact {
    const name: string
    var resolutions: seq<Resolution>
    var value: RubyValue
    var resolved: bool
    var resolving: bool

    constructor (name: string)
      ensures this.name == name && Contents() == FactCell([], Nil, false, false)
    {
      this.name := name;
      resolutions, value, resolved, resolving := [], Nil, false, false;
    }

    ghost function Contents(): FactCell
      reads this
    {
      FactCell(resolutions, value, resolved, resolving)
    }

    /** Drop the cached value. */
    method Flush()
      modifies this`value, this`resolved
      ensures Contents() == old(Contents()).(value := Nil, resolved := false)
    {
      resolved := false;
      value := Nil;
    }

    method Value(facter: Facter) returns (outcome: Outcome)
      requires facter.Valid() && name in facter.facts && facter.facts[name] == this
      modifies facter, facter.facts.Values
      ensures facter.Valid() && facter.Extends(old(facter.facts))
      ensures fresh(facter.facts.Values - old(facter.facts.Values))
      ensures (facter.model, outcome) == FactValue(facter.sort, old(facter.model), name)
      decreases Idle(facter.model), 1
    {
      if resolving {
        return Chunks.Raised(Chunks.CycleDetected);
      }
      if resolved {
        return Chunks.Good(value);
      }
      outcome := Evaluate(facter);
    }

    method Evaluate(facter: Facter) returns (outcome: Outcome)
      requires facter.Valid() && name in facter.facts && facter.facts[name] == this
      requires !resolving && !resolved
      modifies facter, facter.facts.Values
      ensures facter.Valid() && facter.Extends(old(facter.facts))
      ensures fresh(facter.facts.Values - old(facter.facts.Values))
      ensures (facter.model, outcome) == RubyFacts.Evaluate(facter.sort, old(facter.model), name)
      decreases Idle(facter.model), 0, 2
    {
      BegunFrame(facter.sort, facter.model, name);
      EvaluateSettles(facter.sort, facter.model, name);
      Begin(facter);
      outcome := Settle(facter);
    }

    /** What the collection has, what is cached, or what the resolutions give. */
    method Settle(facter: Facter) returns (outcome: Outcome)
      requires facter.Valid() && name in facter.facts && facter.facts[name] == this && resolving
      modifies facter, facter.facts.Values
      ensures facter.Valid() && facter.Extends(old(facter.facts))
      ensures fresh(facter.facts.Values - old(facter.facts.Values))
      ensures (facter.model, outcome) == Settled(facter.sort, old(facter.model), name)
      decreases Idle(facter.model), if resolutions == [] then 0 else 7, 1
    {
      if NativeFirst(resolutions) && name in facter.collection {
        SetValue(facter, facter.collection[name], false);
        outcome := Chunks.Good(value);
        Leave(facter, false);
        return;
      }
      if value.Nil? {
        Search(facter);
      }
      outcome := Chunks.Good(value);
      Leave(facter, true);
    }

    /** Find the value among the resolutions; an exception makes it nil. */
    method Search(facter: Facter)
      requires facter.Valid() && name in facter.facts && facter.facts[name] == this && resolving
      modifies facter, facter.facts.Values
      ensures facter.Valid() && facter.Extends(old(facter.facts))
      ensures fresh(facter.facts.Values - old(facter.facts.Values))
      ensures var (u, found) := Searched(facter.sort, old(facter.model), name);
              name in u.facts && facter.model == WithValue(u, name, found, true)
      decreases Idle(facter.model), if resolutions == [] then 0 else 7, 0
    {
      if resolutions == [] {
        SetValue(facter, Nil, true);
        return;
      }
      var picked := facter.Pick(resolutions);
      SetValue(facter, OrNil(picked), true);
    }

    /** Sort the resolutions in place and mark the fact as resolving. */
    method Begin(facter: Facter)
      requires facter.Valid() && name in facter.facts && facter.facts[name] == this
      modifies this`resolutions, this`resolving, facter`model
      ensures facter.Valid()
      ensures facter.model == var w := old(facter.model); WithFact(w, name, Begun(facter.sort, w.facts[name]))
    {
      resolutions := facter.sort(resolutions);
      resolving := true;
      facter.model := WithFact(facter.model, name, Begun(facter.sort, facter.model.facts[name]));
    }

    method SetValue(facter: Facter, v: RubyValue, done: bool)
      requires facter.Valid() && name in facter.facts && facter.facts[name] == this
      modifies this`value, this`resolved, facter`model
      ensures facter.Valid()
      ensures facter.model == WithValue(old(facter.model), name, v, done)
    {
      value := v;
      resolved := done;
      facter.model := WithValue(facter.model, name, v, done);
    }

    /** Add the value to the collection unless it came from there, and clear the mark. */
    method Leave(facter: Facter, add: bool)
      requires facter.Valid() && name in facter.facts && facter.facts[name] == this
      modifies this`resolving, facter`collection, facter`model
      ensures facter.Valid()
      ensures facter.model == Left(old(facter.model), name, add)
    {
      if add {
        facter.collection := if value.Nil? then facter.collection - {name} else facter.collection[name := value];
      }
      resolving := false;
      facter.model := Left(facter.model, name, add);
    }
  }

  class Facter {
    var facts: map<string, Fact>
    var collection: map<string, RubyValue>
    const sort: Sorter
    /** The contents of all facts and of the collection. */
    ghost var model: World

    ghost predicate Valid()
      reads this, facts.Values
    {
      && Sorts(sort) && model.natives == collection && model.facts.Keys == facts.Keys
      && (forall n :: n in facts ==> facts[n].name == n && facts[n].Contents() == model.facts[n])
    }

    /** Facts are created but never replaced. */
    ghost predicate Extends(before: map<string, Fact>)
      reads this
    {
      forall n :: n in before ==> n in facts && facts[n] == before[n]
    }

    constructor (sort: Sorter, collection: map<string, RubyValue>)
      requires Sorts(sort)
      ensures Valid() && model == World(map[], collection) && this.sort == sort
    {
      this.sort := sort;
      facts, this.collection, model := map[], collection, World(map[], collection);
    }

    method Read(n: string) returns (outcome: Outcome)
      requires Valid()
      modifies this, facts.Values
      ensures Valid() && Extends(old(facts)) && fresh(facts.Values - old(facts.Values))
      ensures (model, outcome) == ReadFact(sort, old(model), n)
      decreases Idle(model), 2
    {
      if n !in facts {
        if n !in collection {
          return Chunks.Good(Nil);
        }
        Create(n);
      }
      outcome := facts[n].Value(this);
    }

    method Create(n: string)
      requires Valid() && n !in facts
      modifies this`facts, this`model
      ensures Valid() && Extends(old(facts)) && fresh(facts.Values - old(facts.Values))
      ensures model == WithFact(old(model), n, FactCell([], Nil, false, false)) && Idle(model) == Idle(old(model))
    {
      var fact := new Fact(n);
      facts := facts[n := fact];
      model := WithFact(model, n, FactCell([], Nil, false, false));
      assert Idle(model) == Idle(old(model));
    }

    method FlushOne(n: string)
      requires Valid() && n in facts
      modifies facts[n], this`model
      ensures Valid() && model == Reset(old(model), n)
    {
      facts[n].Flush();
      model := Reset(model, n);
    }

    /** Reset every fact. */
    method FlushAll()
      requires Valid()
      modifies facts.Values, this`model
      ensures Valid() && model == Flushed(old(model))
    {
      var todo := facts.Keys;
      FlushedNothing(model);
      while todo != {}
        invariant todo <= facts.Keys && Valid() && model == FlushedBut(old(model), todo)
      {
        var n :| n in todo;
        FlushedStep(old(model), todo, n);
        FlushOne(n);
        todo := todo - {n};
      }
    }

    /** Set a fact to the value that the environment gave the collection. */
    method Honor(n: string)
      requires Valid() && n in collection
      modifies this, facts.Values
      ensures Valid() && Extends(old(facts)) && fresh(facts.Values - old(facts.Values))
      ensures model == Pinned(old(model), n)
    {
      if n !in facts {
        Create(n);
      }
      facts[n].SetValue(this, collection[n], true);
    }

    method ReadAll(names: seq<string>) returns (args: Arguments)
      requires Valid()
      modifies this, facts.Values
      ensures Valid() && Extends(old(facts)) && fresh(facts.Values - old(facts.Values))
      ensures (model, args) == ReadFacts(sort, old(model), names)
      decreases Idle(model), 3, |names|
    {
      if names == [] {
        return Chunks.Collected([]);
      }
      var first := Read(names[0]);
      if first.Raised? {
        return Chunks.Aborted(first.error);
      }
      args := ReadAll(names[1..]);
      if args.Collected? {
        args := Chunks.Collected([first.value] + args.values);
      }
    }

    method AnswerConfine(c: Confine) returns (answer: Answer)
      requires Valid()
      modifies this, facts.Values
      ensures Valid() && Extends(old(facts)) && fresh(facts.Values - old(facts.Values))
      ensures (model, answer) == ConfineAnswer(sort, old(model), c)
      decreases Idle(model), 3, 0
    {
      match c
      case OnBlock(run) =>
        return run();
      case OnFact(fact, test) =>
        var outcome := Read(fact);
        if outcome.Raised? {
          return Failing(outcome.error);
        }
        return if outcome.value.Nil? then No else test(outcome.value);
    }

    /** All confines must hold; the first that does not, or that raises, ends the check. */
    method IsSuitable(confines: seq<Confine>) returns (answer: Answer)
      requires Valid()
      modifies this, facts.Values
      ensures Valid() && Extends(old(facts)) && fresh(facts.Values - old(facts.Values))
      ensures (model, answer) == Suitable(sort, old(model), confines)
      decreases Idle(model), 4
    {
      ghost var start := model;
      assert confines[0..] == confines;
      for i := 0 to |confines|
        invariant Valid() && Extends(old(facts)) && fresh(facts.Values - old(facts.Values)) && Frame(start, model)
        invariant Suitable(sort, start, confines) == Suitable(sort, model, confines[i..])
      {
        assert confines[i..][0] == confines[i] && confines[i..][1..] == confines[i + 1..];
        answer := AnswerConfine(confines[i]);
        if !answer.Yes? {
          return;
        }
      }
      assert confines[|confines|..] == [];
      answer := Yes;
    }

    /** The value of a resolution: its own, its block's or its command's. */
    method ValueOf(r: Resolution) returns (outcome: Outcome)
      requires Valid()
      modifies this, facts.Values
      ensures Valid() && Extends(old(facts)) && fresh(facts.Values - old(facts.Values))
      ensures (model, outcome) == ResolutionValue(sort, old(model), r)
      decreases Idle(model), 4
    {
      if !r.value.Nil? {
        return Chunks.Good(r.value);
      }
      if r.block.Some? {
        var args := ReadAll(r.wanted);
        return Chunks.CallBlock(r.block.value, args);
      }
      return Chunks.Good(CommandValue(r.command));
    }

    method JudgeResolution(r: Resolution) returns (verdict: Verdict)
      requires Valid()
      modifies this, facts.Values
      ensures Valid() && Extends(old(facts)) && fresh(facts.Values - old(facts.Values))
      ensures (model, verdict) == Judge(sort, old(model), r)
      decreases Idle(model), 5
    {
      var answer := IsSuitable(r.confines);
      if answer.Failing? {
        return Failed(answer.error);
      }
      if answer.No? {
        return Unsuitable;
      }
      var outcome := ValueOf(r);
      if outcome.Raised? {
        return Failed(outcome.error);
      }
      verdict := if outcome.value.Nil? then NilValue else Valued(outcome.value);
    }

    /** The first allowed resolution that resolves. */
    method Pick(rs: seq<Resolution>) returns (outcome: Outcome)
      requires Valid()
      modifies this, facts.Values
      ensures Valid() && Extends(old(facts)) && fresh(facts.Values - old(facts.Values))
      ensures (model, outcome) == RubyFacts.Pick(sort, old(model), rs)
      decreases Idle(model), 6
    {
      ghost var start := model;
      assert rs[0..] == rs;
      for i := 0 to |rs|
        invariant Valid() && Extends(old(facts)) && fresh(facts.Values - old(facts.Values)) && Frame(start, model)
        invariant RubyFacts.Pick(sort, start, rs) == RubyFacts.Pick(sort, model, rs[i..])
      {
        assert rs[i..][0] == rs[i] && rs[i..][1..] == rs[i + 1..];
        var verdict := JudgeResolution(rs[i]);
        if verdict.Failed? {
          return Chunks.Raised(verdict.error);
        }
        if verdict.Valued? {
          return Chunks.Good(verdict.value);
        }
      }
      assert rs[|rs|..] == [];
      outcome := Chunks.Good(Nil);
    }
  }
}
