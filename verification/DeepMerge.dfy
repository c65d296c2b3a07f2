/** The default aggregation of structured custom facts: deep_merge as a partial operation on Ruby values, and what
    makes the result independent of how and in which order the chunks are merged. */
module DeepMerge {
  import opened Sequences
  import opened Values

  datatype Key = SymbolKey(id: nat) | TextKey(text: string)

  datatype RubyValue =
    | Nil
    | Symbol(id: nat)
    | Text(text: string)
    | Number(number: int)
    | Truth(flag: bool)
    | Array(elements: seq<RubyValue>)
    | Hash(entries: map<Key, RubyValue>)

  /** deep_merge; None is the "cannot merge" exception. Hash#merge calls it for the keys both sides have. */
  function Merge(left: RubyValue, right: RubyValue): Option<RubyValue>
    decreases left
  {
    if left.Hash? && right.Hash? then
      if forall k | k in left.entries && k in right.entries :: Merge(left.entries[k], right.entries[k]).Some? then
        Some(Hash(map k | k in left.entries.Keys + right.entries.Keys ::
          if k in left.entries && k in right.entries then Merge(left.entries[k], right.entries[k]).value
          else if k in left.entries then left.entries[k]
          else right.entries[k]))
      else None
    else if left.Array? && right.Array? then Some(Array(left.elements + right.elements))
    else if right.Nil? then Some(left)
    else if left.Nil? then Some(right)
    else None
  }

  /** Merging where either side may already have raised. */
  function MergeAll(left: Option<RubyValue>, right: Option<RubyValue>): Option<RubyValue> {
    if left.None? || right.None? then None else Merge(left.value, right.value)
  }

  function EntryAt(v: RubyValue, k: Key): RubyValue
    requires v.Hash?
  {
    if k in v.entries then v.entries[k] else Nil
  }

  /** Nil is the identity on both sides. */
  lemma NilIsIdentity(v: RubyValue)
    ensures Merge(Nil, v) == Some(v) && Merge(v, Nil) == Some(v)
  {
  }

  ghost predicate MergesAt(a: RubyValue, b: RubyValue, m: RubyValue, k: Key)
    requires a.Hash? && b.Hash? && m.Hash?
  {
    Merge(EntryAt(a, k), EntryAt(b, k)) == Some(EntryAt(m, k))
  }

  ghost predicate MergeableAt(a: RubyValue, b: RubyValue, k: Key)
    requires a.Hash? && b.Hash?
  {
    Merge(EntryAt(a, k), EntryAt(b, k)).Some?
  }

  /** m holds, at each key, the merge of what a and b hold there; an absent key merges like nil. */
  ghost predicate MergesTo(a: RubyValue, b: RubyValue, m: RubyValue)
    requires a.Hash? && b.Hash?
  {
    && m.Hash? && m.entries.Keys == a.entries.Keys + b.entries.Keys
    && forall k :: MergesAt(a, b, m, k)
  }

  lemma HashMergeSucceeds(a: RubyValue, b: RubyValue)
    requires a.Hash? && b.Hash?
    requires forall k :: MergeableAt(a, b, k)
    ensures Merge(a, b).Some?
  {
    forall k | k in a.entries && k in b.entries ensures Merge(a.entries[k], b.entries[k]).Some? {
      assert MergeableAt(a, b, k);
    }
  }

  /** A hash merge is the merge at every key. */
  lemma HashMerge(a: RubyValue, b: RubyValue, m: RubyValue)
    requires a.Hash? && b.Hash?
    ensures Merge(a, b) == Some(m) <==> MergesTo(a, b, m)
  {
    forall k | k !in a.entries || k !in b.entries
      ensures Merge(EntryAt(a, k), EntryAt(b, k)) ==
              Some(if k in a.entries then EntryAt(a, k) else EntryAt(b, k))
    {
      NilIsIdentity(EntryAt(a, k));
      NilIsIdentity(EntryAt(b, k));
    }
    if Merge(a, b) == Some(m) {
      forall k ensures MergesAt(a, b, m, k) {}
    }
    if MergesTo(a, b, m) {
      forall k ensures MergeableAt(a, b, k) {
        assert MergesAt(a, b, m, k);
      }
      HashMergeSucceeds(a, b);
      var n := Merge(a, b).value;
      forall k | k in m.entries ensures m.entries[k] == n.entries[k] {
        assert MergesAt(a, b, m, k);
      }
      assert m.entries == n.entries;
    }
  }

  /** Associative, failure included: one way of bracketing raises exactly when the other does. */
  lemma {:induction false} Associative(a: RubyValue, b: RubyValue, c: RubyValue)
    ensures MergeAll(Merge(a, b), Some(c)) == MergeAll(Some(a), Merge(b, c))
    decreases a
  {
    if a.Hash? && b.Hash? && c.Hash? {
      var left, right := MergeAll(Merge(a, b), Some(c)), MergeAll(Some(a), Merge(b, c));
      forall k ensures AssociativeAt(a, b, c, k) {
        if k in a.entries {
          Associative(EntryAt(a, k), EntryAt(b, k), EntryAt(c, k));
        } else {
          NilIsIdentity(EntryAt(b, k));
          if Merge(EntryAt(b, k), EntryAt(c, k)).Some? {
            NilIsIdentity(Merge(EntryAt(b, k), EntryAt(c, k)).value);
          }
        }
      }
      if left.Some? {
        HashMerge(a, b, Merge(a, b).value);
        HashMerge(Merge(a, b).value, c, left.value);
        HashesLeftToRight(a, b, c, Merge(a, b).value, left.value);
      }
      if right.Some? {
        HashMerge(b, c, Merge(b, c).value);
        HashMerge(a, Merge(b, c).value, right.value);
        HashesRightToLeft(a, b, c, Merge(b, c).value, right.value);
      }
    } else if a.Array? && b.Array? && c.Array? {
      assert (a.elements + b.elements) + c.elements == a.elements + (b.elements + c.elements);
    } else {
      assert a.Hash? && b.Hash? ==> Merge(a, b).None? || Merge(a, b).value.Hash?;
      assert b.Hash? && c.Hash? ==> Merge(b, c).None? || Merge(b, c).value.Hash?;
    }
  }

  ghost predicate AssociativeAt(a: RubyValue, b: RubyValue, c: RubyValue, k: Key)
    requires a.Hash? && b.Hash? && c.Hash?
  {
    MergeAll(Merge(EntryAt(a, k), EntryAt(b, k)), Some(EntryAt(c, k))) ==
    MergeAll(Some(EntryAt(a, k)), Merge(EntryAt(b, k), EntryAt(c, k)))
  }

  lemma KeyLeftToRight(a: RubyValue, b: RubyValue, c: RubyValue, ab: RubyValue, m: RubyValue, k: Key)
    requires a.Hash? && b.Hash? && c.Hash? && ab.Hash? && m.Hash? && AssociativeAt(a, b, c, k)
    requires MergesAt(a, b, ab, k) && MergesAt(ab, c, m, k)
    ensures MergeableAt(b, c, k)
    ensures forall bc: RubyValue :: bc.Hash? && MergesAt(b, c, bc, k) ==> MergesAt(a, bc, m, k)
  {
  }

  lemma KeyRightToLeft(a: RubyValue, b: RubyValue, c: RubyValue, bc: RubyValue, m: RubyValue, k: Key)
    requires a.Hash? && b.Hash? && c.Hash? && bc.Hash? && m.Hash? && AssociativeAt(a, b, c, k)
    requires MergesAt(b, c, bc, k) && MergesAt(a, bc, m, k)
    ensures MergeableAt(a, b, k)
    ensures forall ab: RubyValue :: ab.Hash? && MergesAt(a, b, ab, k) ==> MergesAt(ab, c, m, k)
  {
  }

  lemma HashesLeftToRight(a: RubyValue, b: RubyValue, c: RubyValue, ab: RubyValue, m: RubyValue)
    requires a.Hash? && b.Hash? && c.Hash? && forall k :: AssociativeAt(a, b, c, k)
    requires MergesTo(a, b, ab) && MergesTo(ab, c, m)
    ensures MergeAll(Some(a), Merge(b, c)) == Some(m)
  {
    forall k ensures MergeableAt(b, c, k) {
      KeyLeftToRight(a, b, c, ab, m, k);
    }
    HashMergeSucceeds(b, c);
    var bc := Merge(b, c).value;
    HashMerge(b, c, bc);
    forall k ensures MergesAt(a, bc, m, k) {
      KeyLeftToRight(a, b, c, ab, m, k);
      assert MergesAt(b, c, bc, k);
    }
    HashMerge(a, bc, m);
  }

  lemma HashesRightToLeft(a: RubyValue, b: RubyValue, c: RubyValue, bc: RubyValue, m: RubyValue)
    requires a.Hash? && b.Hash? && c.Hash? && forall k :: AssociativeAt(a, b, c, k)
    requires MergesTo(b, c, bc) && MergesTo(a, bc, m)
    ensures MergeAll(Merge(a, b), Some(c)) == Some(m)
  {
    forall k ensures MergeableAt(a, b, k) {
      KeyRightToLeft(a, b, c, bc, m, k);
    }
    HashMergeSucceeds(a, b);
    var ab := Merge(a, b).value;
    HashMerge(a, b, ab);
    forall k ensures MergesAt(ab, c, m, k) {
      KeyRightToLeft(a, b, c, bc, m, k);
      assert MergesAt(a, b, ab, k);
    }
    HashMerge(ab, c, m);
  }

  // ----- Order independence -----

  /** No path leads to an array in both values. */
  predicate Apart(a: RubyValue, b: RubyValue)
    decreases a
  {
    if a.Array? then !b.Array?
    else if a.Hash? && b.Hash? then
      forall k | k in a.entries && k in b.entries :: Apart(a.entries[k], b.entries[k])
    else true
  }

  /** Wherever both values hold an array, the two arrays concatenate the same way round. */
  predicate ArraysCommute(a: RubyValue, b: RubyValue)
    decreases a
  {
    if a.Array? && b.Array? then a.elements + b.elements == b.elements + a.elements
    else if a.Hash? && b.Hash? then
      forall k | k in a.entries && k in b.entries :: ArraysCommute(a.entries[k], b.entries[k])
    else true
  }

  lemma {:induction false} SameFailure(a: RubyValue, b: RubyValue)
    ensures Merge(a, b).Some? <==> Merge(b, a).Some?
    decreases a
  {
    if a.Hash? && b.Hash? {
      forall k | k in a.entries && k in b.entries
        ensures Merge(a.entries[k], b.entries[k]).Some? <==> Merge(b.entries[k], a.entries[k]).Some?
      {
        SameFailure(a.entries[k], b.entries[k]);
      }
    }
  }

  /** Two values that merge give the same result in both orders exactly when their shared arrays commute. */
  lemma {:induction false} CommutesExactly(a: RubyValue, b: RubyValue)
    requires Merge(a, b).Some?
    ensures Merge(a, b) == Merge(b, a) <==> ArraysCommute(a, b)
    decreases a
  {
    SameFailure(a, b);
    if a.Hash? && b.Hash? {
      var ab, ba := Merge(a, b).value.entries, Merge(b, a).value.entries;
      forall k | k in a.entries && k in b.entries
        ensures ab[k] == ba[k] <==> ArraysCommute(a.entries[k], b.entries[k])
      {
        SameFailure(a.entries[k], b.entries[k]);
        CommutesExactly(a.entries[k], b.entries[k]);
      }
      assert ab.Keys == ba.Keys;
      if ArraysCommute(a, b) {
        assert ab == ba;
      }
    }
  }

  lemma {:induction false} ApartCommute(a: RubyValue, b: RubyValue)
    requires Apart(a, b)
    ensures ArraysCommute(a, b)
    decreases a
  {
    if a.Hash? && b.Hash? {
      forall k | k in a.entries && k in b.entries ensures ArraysCommute(a.entries[k], b.entries[k]) {
        ApartCommute(a.entries[k], b.entries[k]);
      }
    }
  }

  /** What commutes with two values commutes with their merge. */
  lemma {:induction false} CommuteMerge(a: RubyValue, b: RubyValue, c: RubyValue)
    requires ArraysCommute(a, b) && ArraysCommute(a, c) && Merge(b, c).Some?
    ensures ArraysCommute(a, Merge(b, c).value)
    decreases a
  {
    if a.Array? && b.Array? && c.Array? {
      ConcatCommutes(a.elements, b.elements, c.elements);
    } else if a.Hash? && b.Hash? && c.Hash? {
      var m := Merge(b, c).value;
      forall k | k in a.entries && k in m.entries ensures ArraysCommute(a.entries[k], m.entries[k]) {
        if k in b.entries && k in c.entries {
          CommuteMerge(a.entries[k], b.entries[k], c.entries[k]);
        }
      }
    }
  }

  lemma ConcatCommutes(x: seq<RubyValue>, y: seq<RubyValue>, z: seq<RubyValue>)
    requires x + y == y + x && x + z == z + x
    ensures x + (y + z) == (y + z) + x
  {
    assert x + (y + z) == (x + y) + z && y + (x + z) == (y + x) + z && y + (z + x) == (y + z) + x;
  }

  /** Two orders that differ still differ after a later value is merged in. */
  lemma {:induction false} DifferenceStays(a: RubyValue, b: RubyValue, c: RubyValue)
    requires Merge(a, b).Some? && !ArraysCommute(a, b)
    requires Merge(b, a).Some? && Merge(Merge(a, b).value, c).Some? && Merge(Merge(b, a).value, c).Some?
    ensures Merge(Merge(a, b).value, c) != Merge(Merge(b, a).value, c)
    decreases a
  {
    CommutesExactly(a, b);
    if a.Array? && b.Array? {
      if c.Array? {
        SuffixStays(a.elements + b.elements, b.elements + a.elements, c.elements);
      }
    } else if c.Hash? {
      var ab, ba := Merge(a, b).value, Merge(b, a).value;
      var k :| k in a.entries && k in b.entries && !ArraysCommute(a.entries[k], b.entries[k]);
      CommutesExactly(a.entries[k], b.entries[k]);
      SameFailure(a.entries[k], b.entries[k]);
      if k in c.entries {
        DifferenceStays(a.entries[k], b.entries[k], c.entries[k]);
      }
      assert Merge(ab, c).value.entries[k] != Merge(ba, c).value.entries[k];
    }
  }

  lemma SuffixStays(x: seq<RubyValue>, y: seq<RubyValue>, z: seq<RubyValue>)
    requires x != y && |x| == |y|
    ensures x + z != y + z
  {
    assert (x + z)[..|x|] == x && (y + z)[..|y|] == y;
  }

  // ----- The fold over all chunks -----

  /** What the aggregation loop accumulates, starting from nil. */
  function FoldMerge(values: seq<RubyValue>): Option<RubyValue> {
    if values == [] then Some(Nil)
    else MergeAll(FoldMerge(values[..|values| - 1]), Some(values[|values| - 1]))
  }

  /** The chunks may be merged in any grouping. */
  lemma {:induction false} FoldConcat(xs: seq<RubyValue>, ys: seq<RubyValue>)
    ensures FoldMerge(xs + ys) == MergeAll(FoldMerge(xs), FoldMerge(ys))
    decreases |ys|
  {
    if ys == [] {
      assert xs + ys == xs;
      if FoldMerge(xs).Some? {
        NilIsIdentity(FoldMerge(xs).value);
      }
    } else {
      var front, last := ys[..|ys| - 1], ys[|ys| - 1];
      assert (xs + ys)[..|xs + ys| - 1] == xs + front;
      FoldConcat(xs, front);
      if FoldMerge(xs).Some? && FoldMerge(front).Some? {
        Associative(FoldMerge(xs).value, FoldMerge(front).value, last);
      }
    }
  }

  lemma FoldOne(x: RubyValue)
    ensures FoldMerge([x]) == Some(x)
  {
    assert [x][..0] == [];
    NilIsIdentity(x);
  }

  ghost predicate PairwiseApart(xs: seq<RubyValue>) {
    forall i, j :: 0 <= i < j < |xs| ==> Apart(xs[i], xs[j])
  }

  ghost predicate PairwiseCommute(xs: seq<RubyValue>) {
    forall i, j :: 0 <= i < j < |xs| ==> ArraysCommute(xs[i], xs[j])
  }

  lemma {:induction false} CommuteFold(x: RubyValue, ys: seq<RubyValue>)
    requires forall y :: y in ys ==> ArraysCommute(x, y)
    requires FoldMerge(ys).Some?
    ensures ArraysCommute(x, FoldMerge(ys).value)
    decreases |ys|
  {
    if ys != [] {
      var front, last := ys[..|ys| - 1], ys[|ys| - 1];
      assert last in ys;
      CommuteFold(x, front);
      CommuteMerge(x, FoldMerge(front).value, last);
    }
  }

  /** Moving a chunk past others it commutes with changes nothing. */
  lemma MoveToFront(x: RubyValue, before: seq<RubyValue>, after: seq<RubyValue>)
    requires forall y :: y in before ==> ArraysCommute(x, y)
    ensures FoldMerge(before + [x] + after) == FoldMerge([x] + (before + after))
  {
    FoldOne(x);
    FoldConcat(before, [x]);
    FoldConcat(before + [x], after);
    FoldConcat([x], before + after);
    FoldConcat(before, after);
    var f, g := FoldMerge(before), FoldMerge(after);
    if f.Some? {
      CommuteFold(x, before);
      SameFailure(x, f.value);
      if Merge(x, f.value).Some? {
        CommutesExactly(x, f.value);
      }
      if g.Some? {
        Associative(x, f.value, g.value);
      }
    }
  }

  lemma CommuteWithRest(xs: seq<RubyValue>)
    requires xs != [] && PairwiseCommute(xs)
    ensures PairwiseCommute(xs[1..]) && forall y :: y in xs[1..] ==> ArraysCommute(xs[0], y)
  {
  }

  /** When the arrays of every two chunks commute, every order of the chunks gives the same outcome, a failure
      included. */
  lemma {:induction false} OrderIndependent(xs: seq<RubyValue>, ys: seq<RubyValue>)
    requires PairwiseCommute(xs) && multiset(xs) == multiset(ys)
    ensures FoldMerge(xs) == FoldMerge(ys)
    decreases |xs|
  {
    if xs == [] {
      SameElements(xs, ys);
    } else {
      var before, after := PlaceOfFirst(xs, ys);
      SameElements(xs[1..], before + after);
      CommuteWithRest(xs);
      forall y | y in before ensures ArraysCommute(xs[0], y) {
        assert y in before + after;
      }
      MoveToFront(xs[0], before, after);
      OrderIndependent(xs[1..], before + after);
      FoldConcat([xs[0]], xs[1..]);
      FoldConcat([xs[0]], before + after);
      assert xs == [xs[0]] + xs[1..];
    }
  }

  /** In particular when no two chunks put arrays at the same path. */
  lemma ApartOrderIndependent(xs: seq<RubyValue>, ys: seq<RubyValue>)
    requires PairwiseApart(xs) && multiset(xs) == multiset(ys)
    ensures FoldMerge(xs) == FoldMerge(ys)
  {
    forall i, j | 0 <= i < j < |xs| ensures ArraysCommute(xs[i], xs[j]) {
      ApartCommute(xs[i], xs[j]);
    }
    OrderIndependent(xs, ys);
  }

  // ----- What a merge of chunks holds, path by path -----

  /** What a value holds at the end of a path of keys, nil for nothing. */
  function At(v: RubyValue, path: seq<Key>): RubyValue
    decreases path
  {
    if path == [] then v else At(if v.Hash? && path[0] in v.entries then v.entries[path[0]] else Nil, path[1..])
  }

  lemma {:induction false} NothingBelow(v: RubyValue, path: seq<Key>)
    requires !v.Hash? && path != []
    ensures At(v, path) == Nil
    decreases path
  {
    if |path| > 1 {
      NothingBelow(Nil, path[1..]);
    }
  }

  /** At every path the merge holds the merge of what the two sides hold there. */
  lemma {:induction false} MergeAtPath(a: RubyValue, b: RubyValue, m: RubyValue, path: seq<Key>)
    requires Merge(a, b) == Some(m)
    ensures Merge(At(a, path), At(b, path)) == Some(At(m, path))
    decreases path
  {
    NilIsIdentity(At(m, path));
    if path != [] {
      if a.Hash? && b.Hash? {
        HashMerge(a, b, m);
        assert MergesAt(a, b, m, path[0]);
        MergeAtPath(EntryAt(a, path[0]), EntryAt(b, path[0]), EntryAt(m, path[0]), path[1..]);
      } else {
        NothingBelow(if a.Hash? then b else a, path);
        if a.Array? && b.Array? {
          NothingBelow(b, path);
          NothingBelow(m, path);
        }
      }
    }
  }

  /** Something that cannot be merged: neither is nil, and they are neither two arrays nor two hashes. */
  predicate Clash(x: RubyValue, y: RubyValue) {
    !x.Nil? && !y.Nil? && !(x.Array? && y.Array?) && !(x.Hash? && y.Hash?)
  }

  predicate ClashAt(a: RubyValue, b: RubyValue, path: seq<Key>) {
    Clash(At(a, path), At(b, path))
  }

  lemma {:induction false} FailureClashes(a: RubyValue, b: RubyValue) returns (path: seq<Key>)
    requires Merge(a, b).None?
    ensures ClashAt(a, b, path)
    decreases a
  {
    path := [];
    if a.Hash? && b.Hash? {
      var k :| k in a.entries && k in b.entries && Merge(a.entries[k], b.entries[k]).None?;
      var rest := FailureClashes(a.entries[k], b.entries[k]);
      path := [k] + rest;
      assert path[1..] == rest;
    }
  }

  /** Two values cannot be merged exactly when at some path they hold things that cannot. */
  lemma MergeFailsExactly(a: RubyValue, b: RubyValue)
    ensures Merge(a, b).None? <==> exists path :: ClashAt(a, b, path)
  {
    if Merge(a, b).None? {
      var path := FailureClashes(a, b);
    } else {
      forall path ensures !ClashAt(a, b, path) {
        MergeAtPath(a, b, Merge(a, b).value, path);
      }
    }
  }

  /** The elements of the arrays that the chunks hold at a path, in the order of the chunks. */
  function Concatenated(xs: seq<RubyValue>, path: seq<Key>): seq<RubyValue> {
    if xs == [] then []
    else
      var last := At(xs[|xs| - 1], path);
      Concatenated(xs[..|xs| - 1], path) + if last.Array? then last.elements else []
  }

  /** The only thing that any of the chunks holds at a path. */
  ghost predicate OnlyHolder(xs: seq<RubyValue>, path: seq<Key>, v: RubyValue, i: nat) {
    i < |xs| && At(xs[i], path) == v && forall j :: 0 <= j < |xs| && j != i ==> At(xs[j], path).Nil?
  }

  ghost predicate HoldsAt(xs: seq<RubyValue>, path: seq<Key>, v: RubyValue) {
    match v
    case Nil => forall i :: 0 <= i < |xs| ==> At(xs[i], path).Nil?
    case Array(elements) =>
      && (exists i :: 0 <= i < |xs| && At(xs[i], path).Array?)
      && (forall i :: 0 <= i < |xs| ==> At(xs[i], path).Array? || At(xs[i], path).Nil?)
      && elements == Concatenated(xs, path)
    case Hash(_) =>
      && (exists i :: 0 <= i < |xs| && At(xs[i], path).Hash?)
      && (forall i :: 0 <= i < |xs| ==> At(xs[i], path).Hash? || At(xs[i], path).Nil?)
    case _ => exists i :: OnlyHolder(xs, path, v, i)
  }

  lemma {:induction false} NothingConcatenated(xs: seq<RubyValue>, path: seq<Key>)
    requires forall i :: 0 <= i < |xs| ==> !At(xs[i], path).Array?
    ensures Concatenated(xs, path) == []
  {
    if xs != [] {
      NothingConcatenated(xs[..|xs| - 1], path);
    }
  }

  lemma OneMore(front: seq<RubyValue>, last: RubyValue, path: seq<Key>)
    ensures var xs := front + [last];
            && (forall i :: 0 <= i < |front| ==> At(xs[i], path) == At(front[i], path))
            && At(xs[|front|], path) == At(last, path)
            && Concatenated(xs, path) ==
               Concatenated(front, path) + if At(last, path).Array? then At(last, path).elements else []
  {
    assert (front + [last])[..|front|] == front;
  }

  lemma FirstHolder(front: seq<RubyValue>, last: RubyValue, path: seq<Key>)
    requires HoldsAt(front, path, Nil)
    ensures HoldsAt(front + [last], path, At(last, path))
  {
    var xs, x := front + [last], At(last, path);
    OneMore(front, last, path);
    NothingConcatenated(front, path);
    if x.Array? {
      assert [] + x.elements == x.elements;
      assert At(xs[|front|], path).Array?;
    } else if x.Hash? {
      assert At(xs[|front|], path).Hash?;
    } else if !x.Nil? {
      assert OnlyHolder(xs, path, x, |front|);
    }
  }

  lemma HoldsMoreOfArray(front: seq<RubyValue>, last: RubyValue, path: seq<Key>, u: RubyValue, v: RubyValue)
    requires HoldsAt(front, path, u) && Merge(u, At(last, path)) == Some(v) && u.Array?
    ensures HoldsAt(front + [last], path, v)
  {
    var xs, x := front + [last], At(last, path);
    OneMore(front, last, path);
    var i :| 0 <= i < |front| && At(front[i], path).Array?;
    assert At(xs[i], path).Array?;
    assert u.elements + [] == u.elements;
  }

  lemma HoldsMore(front: seq<RubyValue>, last: RubyValue, path: seq<Key>, u: RubyValue, v: RubyValue)
    requires HoldsAt(front, path, u) && Merge(u, At(last, path)) == Some(v)
    ensures HoldsAt(front + [last], path, v)
  {
    var xs := front + [last];
    OneMore(front, last, path);
    if u.Nil? {
      NilIsIdentity(At(last, path));
      FirstHolder(front, last, path);
    } else if u.Array? {
      HoldsMoreOfArray(front, last, path, u, v);
    } else if u.Hash? {
      var i :| 0 <= i < |front| && At(front[i], path).Hash?;
      assert At(xs[i], path).Hash?;
    } else {
      var i :| OnlyHolder(front, path, u, i);
      assert OnlyHolder(xs, path, v, i);
    }
  }

  /** What a merge of chunks holds at any path: arrays are concatenated in the order of the chunks, hashes become a
      hash, anything else is what the one chunk that has something there has. */
  lemma {:induction false} FoldHolds(xs: seq<RubyValue>, path: seq<Key>)
    requires FoldMerge(xs).Some?
    ensures HoldsAt(xs, path, At(FoldMerge(xs).value, path))
    decreases |xs|
  {
    if xs == [] {
      if path != [] {
        NothingBelow(Nil, path);
      }
    } else {
      var front, last := xs[..|xs| - 1], xs[|xs| - 1];
      FoldHolds(front, path);
      MergeAtPath(FoldMerge(front).value, last, FoldMerge(xs).value, path);
      HoldsMore(front, last, path, At(FoldMerge(front).value, path), At(FoldMerge(xs).value, path));
      assert front + [last] == xs;
    }
  }

  // ----- When a merge of chunks fails -----

  /** A value can be merged with a merge exactly when it can be merged with both parts. */
  lemma {:induction false} MergeableWithMerge(a: RubyValue, b: RubyValue, c: RubyValue)
    requires Merge(b, c).Some?
    ensures Merge(a, Merge(b, c).value).Some? <==> Merge(a, b).Some? && Merge(a, c).Some?
    decreases a
  {
    if a.Hash? && b.Hash? && c.Hash? {
      var m := Merge(b, c).value;
      forall k | k in a.entries && k in m.entries
        ensures Merge(a.entries[k], m.entries[k]).Some? <==>
                (k in b.entries ==> Merge(a.entries[k], b.entries[k]).Some?) &&
                (k in c.entries ==> Merge(a.entries[k], c.entries[k]).Some?)
      {
        if k in b.entries && k in c.entries {
          MergeableWithMerge(a.entries[k], b.entries[k], c.entries[k]);
        }
      }
      assert forall k :: k in m.entries <==> k in b.entries || k in c.entries;
    }
  }

  ghost predicate MergeableWithAll(x: RubyValue, ys: seq<RubyValue>) {
    forall i :: 0 <= i < |ys| ==> Merge(x, ys[i]).Some?
  }

  ghost predicate PairwiseMergeable(xs: seq<RubyValue>) {
    forall j :: 0 <= j < |xs| ==> MergeableWithAll(xs[j], xs[..j])
  }

  lemma {:induction false} MergeableWithFold(x: RubyValue, ys: seq<RubyValue>)
    requires FoldMerge(ys).Some?
    ensures Merge(x, FoldMerge(ys).value).Some? <==> MergeableWithAll(x, ys)
    decreases |ys|
  {
    if ys == [] {
      NilIsIdentity(x);
    } else {
      var front, last := ys[..|ys| - 1], ys[|ys| - 1];
      MergeableWithFold(x, front);
      MergeableWithMerge(x, FoldMerge(front).value, last);
      assert MergeableWithAll(x, ys) <==> MergeableWithAll(x, front) && Merge(x, last).Some? by {
        assert forall i :: 0 <= i < |front| ==> ys[i] == front[i];
      }
    }
  }

  /** Merging all chunks succeeds exactly when every two of them can be merged. */
  lemma {:induction false} FoldSucceedsExactly(xs: seq<RubyValue>)
    ensures FoldMerge(xs).Some? <==> PairwiseMergeable(xs)
    decreases |xs|
  {
    if xs != [] {
      var front, last := xs[..|xs| - 1], xs[|xs| - 1];
      FoldSucceedsExactly(front);
      assert forall j :: 0 <= j <= |front| ==> xs[..j] == front[..j];
      assert xs[..|front|] == front;
      assert PairwiseMergeable(xs) <==> PairwiseMergeable(front) && MergeableWithAll(last, front) by {
        assert forall j :: 0 <= j < |front| ==> xs[j] == front[j];
      }
      if FoldMerge(front).Some? {
        MergeableWithFold(last, front);
        SameFailure(last, FoldMerge(front).value);
      }
    }
  }

  lemma InsertSucceeds(x: RubyValue, before: seq<RubyValue>, after: seq<RubyValue>)
    requires FoldMerge([x] + (before + after)).Some?
    ensures FoldMerge(before + [x] + after).Some?
  {
    FoldOne(x);
    FoldConcat([x], before + after);
    FoldConcat(before, after);
    FoldConcat(before, [x]);
    FoldConcat(before + [x], after);
    var f, g := FoldMerge(before).value, FoldMerge(after).value;
    MergeableWithMerge(x, f, g);
    SameFailure(x, f);
    SameFailure(x, g);
    SameFailure(f, g);
    MergeableWithMerge(g, f, x);
    SameFailure(g, Merge(f, x).value);
  }

  lemma {:induction false} SucceedsInAnyOrder(xs: seq<RubyValue>, ys: seq<RubyValue>)
    requires multiset(xs) == multiset(ys) && FoldMerge(xs).Some?
    ensures FoldMerge(ys).Some?
    decreases |xs|
  {
    SameElements(xs, ys);
    if xs != [] {
      var before, after := PlaceOfFirst(xs, ys);
      assert xs == [xs[0]] + xs[1..];
      FoldOne(xs[0]);
      FoldConcat([xs[0]], xs[1..]);
      SucceedsInAnyOrder(xs[1..], before + after);
      FoldConcat([xs[0]], before + after);
      FirstStays(xs[0], xs[1..], before + after);
      InsertSucceeds(xs[0], before, after);
    }
  }

  lemma FirstStays(x: RubyValue, xs: seq<RubyValue>, ys: seq<RubyValue>)
    requires multiset(xs) == multiset(ys) && FoldMerge(xs).Some? && FoldMerge(ys).Some?
    requires Merge(x, FoldMerge(xs).value).Some?
    ensures Merge(x, FoldMerge(ys).value).Some?
  {
    SameElements(xs, ys);
    MergeableWithFold(x, xs);
    MergeableWithFold(x, ys);
    forall i | 0 <= i < |ys| ensures Merge(x, ys[i]).Some? {
      assert ys[i] in xs;
    }
  }

  // ----- Exactly when the order does not matter -----

  ghost predicate EveryOrderGives(xs: seq<RubyValue>, outcome: Option<RubyValue>) {
    forall ys :: multiset(ys) == multiset(xs) ==> FoldMerge(ys) == outcome
  }

  /** Two chunks brought to the front. */
  lemma BroughtForward(xs: seq<RubyValue>, i: nat, j: nat) returns (rest: seq<RubyValue>)
    requires i < j < |xs|
    ensures multiset([xs[i], xs[j]] + rest) == multiset(xs) && multiset([xs[j], xs[i]] + rest) == multiset(xs)
  {
    var a, b, c := xs[..i], xs[i + 1..j], xs[j + 1..];
    rest := a + b + c;
    assert xs == a + [xs[i]] + (b + [xs[j]] + c);
    MultisetAround(a, xs[i], b + [xs[j]] + c);
    assert a + (b + [xs[j]] + c) == (a + b) + [xs[j]] + c;
    MultisetAround(a + b, xs[j], c);
    TwoInFront(xs[i], xs[j], rest);
    TwoInFront(xs[j], xs[i], rest);
  }

  lemma TwoInFront(x: RubyValue, y: RubyValue, rest: seq<RubyValue>)
    ensures multiset([x, y] + rest) == multiset(rest) + multiset{x} + multiset{y}
  {
  }

  /** The order of the chunks does not matter exactly when no order of them can be merged, or the arrays of every two
      chunks commute. */
  lemma OrderIndependentExactly(xs: seq<RubyValue>)
    ensures EveryOrderGives(xs, FoldMerge(xs)) <==> FoldMerge(xs).None? || PairwiseCommute(xs)
  {
    if FoldMerge(xs).None? {
      forall ys | multiset(ys) == multiset(xs) ensures FoldMerge(ys) == FoldMerge(xs) {
        if FoldMerge(ys).Some? {
          SucceedsInAnyOrder(ys, xs);
        }
      }
    } else if PairwiseCommute(xs) {
      forall ys | multiset(ys) == multiset(xs) ensures FoldMerge(ys) == FoldMerge(xs) {
        OrderIndependent(xs, ys);
      }
    } else {
      var i, j :| 0 <= i < j < |xs| && !ArraysCommute(xs[i], xs[j]);
      var ys, zs := TwoOrders(xs, i, j);
    }
  }

  /** Two orders of the chunks with different outcomes, unless both fail. */
  lemma TwoOrders(xs: seq<RubyValue>, i: nat, j: nat) returns (ys: seq<RubyValue>, zs: seq<RubyValue>)
    requires i < j < |xs| && !ArraysCommute(xs[i], xs[j])
    ensures multiset(ys) == multiset(xs) && multiset(zs) == multiset(xs)
    ensures FoldMerge(ys).Some? ==> FoldMerge(ys) != FoldMerge(zs)
  {
    var rest := BroughtForward(xs, i, j);
    ys, zs := [xs[i], xs[j]] + rest, [xs[j], xs[i]] + rest;
    if FoldMerge(ys).Some? {
      OrderOfTwoShows(xs[i], xs[j], rest);
    }
  }

  lemma FoldTwo(x: RubyValue, y: RubyValue, rest: seq<RubyValue>)
    ensures FoldMerge([x, y] + rest) == MergeAll(Merge(x, y), FoldMerge(rest))
  {
    assert [x, y] == [x] + [y];
    FoldOne(x);
    FoldOne(y);
    FoldConcat([x], [y]);
    FoldConcat([x, y], rest);
  }

  lemma OrderOfTwoShows(x: RubyValue, y: RubyValue, rest: seq<RubyValue>)
    requires !ArraysCommute(x, y) && FoldMerge([x, y] + rest).Some?
    ensures FoldMerge([x, y] + rest) != FoldMerge([y, x] + rest)
  {
    FoldTwo(x, y, rest);
    FoldTwo(y, x, rest);
    SameFailure(x, y);
    if FoldMerge([y, x] + rest).Some? {
      DifferenceStays(x, y, FoldMerge(rest).value);
    }
  }

  /** With arrays at a shared path the order shows. */
  lemma OrderShows(x: RubyValue, y: RubyValue)
    requires x != y
    ensures FoldMerge([Array([x]), Array([y])]) != FoldMerge([Array([y]), Array([x])])
  {
    FoldOne(Array([x]));
    FoldOne(Array([y]));
    FoldConcat([Array([x])], [Array([y])]);
    FoldConcat([Array([y])], [Array([x])]);
    assert ([x] + [y])[0] != ([y] + [x])[0];
  }
}
