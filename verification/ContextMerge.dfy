/**
 The three-way context merge of `context_merge.rs`.

 `MergeValue` and `MergeObjects` follow the source: they return the merged
 value and push conflicts on a shared list. They are proved against the
 functions `Merge` and `Conflicts`; what a three-way merge has to satisfy is
 then proved about those functions.
 */
module ContextMerge {
  import opened Wrappers
  import opened Json
  import JsonPointer

  type Maybe = Option<Value>

  /** A conflict with its path as a list of keys. */
  datatype Conflict = Conflict(tokens: seq<string>, base: Maybe, source: Maybe, target: Maybe)

  /** `MergePathConflict`: the path is a JSON Pointer. */
  datatype PathConflict = PathConflict(path: string, base: Maybe, source: Maybe, target: Maybe)

  predicate AllObjects(b: Maybe, s: Maybe, t: Maybe)
  {
    b.Some? && s.Some? && t.Some? && b.value.Object? && s.value.Object? && t.value.Object?
  }

  predicate PairwiseDiffer(b: Maybe, s: Maybe, t: Maybe)
  {
    s != t && s != b && t != b
  }

  function Keys(b: Maybe, s: Maybe, t: Maybe): set<string>
    requires AllObjects(b, s, t)
  {
    b.value.fields.Keys + s.value.fields.Keys + t.value.fields.Keys
  }

  /** The merged value. */
  function Merge(b: Maybe, s: Maybe, t: Maybe): Maybe
    decreases b.Some?, if b.Some? then b.value else Null, 1
  {
    if s == t then s
    else if s == b then t
    else if t == b then s
    else if AllObjects(b, s, t) then Some(Object(MergeFields(b, s, t)))
    else t
  }

  /** The merged members of three objects. */
  function MergeFields(b: Maybe, s: Maybe, t: Maybe): map<string, Value>
    requires AllObjects(b, s, t)
    decreases b.Some?, if b.Some? then b.value else Null, 0
  {
    map k | k in Keys(b, s, t) && Merge(Get(b, k), Get(s, k), Get(t, k)).Some?
        :: Merge(Get(b, k), Get(s, k), Get(t, k)).value
  }

  function Under(key: string, conflicts: seq<Conflict>): (r: seq<Conflict>)
    ensures |r| == |conflicts|
    ensures forall i :: 0 <= i < |r| ==> r[i] == conflicts[i].(tokens := [key] + conflicts[i].tokens)
  {
    seq(|conflicts|, i requires 0 <= i < |conflicts| => conflicts[i].(tokens := [key] + conflicts[i].tokens))
  }

  /** The conflicts, in the order the source reports them. */
  function Conflicts(b: Maybe, s: Maybe, t: Maybe): seq<Conflict>
    decreases b.Some?, if b.Some? then b.value else Null, 1, 0
  {
    if !PairwiseDiffer(b, s, t) then []
    else if AllObjects(b, s, t) then ConflictsUnder(SortedKeys(Keys(b, s, t)), b, s, t)
    else [Conflict([], b, s, t)]
  }

  function ConflictsUnder(keys: seq<string>, b: Maybe, s: Maybe, t: Maybe): seq<Conflict>
    requires AllObjects(b, s, t)
    decreases b.Some?, if b.Some? then b.value else Null, 0, |keys|
  {
    if keys == [] then []
    else
      Under(keys[0], Conflicts(Get(b, keys[0]), Get(s, keys[0]), Get(t, keys[0])))
      + ConflictsUnder(keys[1..], b, s, t)
  }

  lemma {:induction false} MergedMember(b: Maybe, s: Maybe, t: Maybe, k: string)
    requires PairwiseDiffer(b, s, t) && AllObjects(b, s, t)
    ensures Get(Merge(b, s, t), k) == Merge(Get(b, k), Get(s, k), Get(t, k))
  {
  }

  // ----- the code -----

  /** The `&mut Vec<MergePathConflict>` that the recursion shares. */
  class ConflictLog {
    var items: seq<PathConflict>

    constructor ()
      ensures items == []
    {
      items := [];
    }
  }

  /** Conflicts found below `path`, as they appear in the log. */
  function Rendered(path: string, conflicts: seq<Conflict>): (r: seq<PathConflict>)
    ensures |r| == |conflicts|
  {
    seq(|conflicts|, i requires 0 <= i < |conflicts| =>
      PathConflict(path + JsonPointer.Render(conflicts[i].tokens), conflicts[i].base, conflicts[i].source, conflicts[i].target))
  }

  lemma {:induction false} RenderedUnder(path: string, key: string, conflicts: seq<Conflict>)
    ensures Rendered(path, Under(key, conflicts)) == Rendered(path + "/" + JsonPointer.Escape(key), conflicts)
  {
    forall i | 0 <= i < |conflicts|
      ensures path + JsonPointer.Render(Under(key, conflicts)[i].tokens)
           == path + "/" + JsonPointer.Escape(key) + JsonPointer.Render(conflicts[i].tokens)
    {
      assert ([key] + conflicts[i].tokens)[1..] == conflicts[i].tokens;
    }
  }

  lemma {:induction false} RenderedAppend(path: string, a: seq<Conflict>, b: seq<Conflict>)
    ensures Rendered(path, a + b) == Rendered(path, a) + Rendered(path, b)
  {
  }

  lemma {:induction false} ConflictsUnderAppend(keys: seq<string>, key: string, b: Maybe, s: Maybe, t: Maybe)
    requires AllObjects(b, s, t)
    ensures ConflictsUnder(keys + [key], b, s, t)
         == ConflictsUnder(keys, b, s, t) + Under(key, Conflicts(Get(b, key), Get(s, key), Get(t, key)))
  {
    if keys != [] {
      assert (keys + [key])[1..] == keys[1..] + [key];
      ConflictsUnderAppend(keys[1..], key, b, s, t);
    } else {
      assert (keys + [key])[1..] == [];
    }
  }

  /** One more key: the log grows by the conflicts of that member, at its own path. */
  lemma {:induction false} RenderedStep(before: seq<PathConflict>, path: string, childPath: string, keys: seq<string>, i: nat, b: Maybe, s: Maybe, t: Maybe)
    requires AllObjects(b, s, t) && i < |keys| && childPath == path + "/" + JsonPointer.Escape(keys[i])
    ensures before + Rendered(path, ConflictsUnder(keys[..i], b, s, t))
            + Rendered(childPath, Conflicts(Get(b, keys[i]), Get(s, keys[i]), Get(t, keys[i])))
         == before + Rendered(path, ConflictsUnder(keys[..i + 1], b, s, t))
  {
    var key := keys[i];
    var found := Conflicts(Get(b, key), Get(s, key), Get(t, key));
    assert keys[..i + 1] == keys[..i] + [key];
    ConflictsUnderAppend(keys[..i], key, b, s, t);
    RenderedAppend(path, ConflictsUnder(keys[..i], b, s, t), Under(key, found));
    RenderedUnder(path, key, found);
  }

  /** The members merged so far. */
  ghost predicate MergedSoFar(merged: map<string, Value>, done: seq<string>, b: Maybe, s: Maybe, t: Maybe)
  {
    forall k :: Get(Some(Object(merged)), k) == if k in done then Merge(Get(b, k), Get(s, k), Get(t, k)) else None
  }

  /** `if let Some(value) = … { merged.insert(key, value) }` */
  function Inserted(merged: map<string, Value>, key: string, value: Maybe): map<string, Value>
  {
    if value.Some? then merged[key := value.value] else merged
  }

  lemma {:induction false} MergedStep(merged: map<string, Value>, done: seq<string>, key: string, b: Maybe, s: Maybe, t: Maybe)
    requires MergedSoFar(merged, done, b, s, t) && key !in done
    ensures MergedSoFar(Inserted(merged, key, Merge(Get(b, key), Get(s, key), Get(t, key))), done + [key], b, s, t)
  {
  }

  lemma {:induction false} MergedAll(merged: map<string, Value>, keys: seq<string>, b: Maybe, s: Maybe, t: Maybe)
    requires AllObjects(b, s, t)
    requires MergedSoFar(merged, keys, b, s, t) && forall k :: k in keys <==> k in Keys(b, s, t)
    ensures merged == MergeFields(b, s, t)
  {
    ObjectsEqual(merged, MergeFields(b, s, t));
  }

  method MergeValue(path: string, b: Maybe, s: Maybe, t: Maybe, log: ConflictLog) returns (merged: Maybe)
    modifies log
    ensures merged == Merge(b, s, t)
    ensures log.items == old(log.items) + Rendered(path, Conflicts(b, s, t))
    decreases b.Some?, if b.Some? then b.value else Null, 1
  {
    if s == t {
      return s;
    }
    if s == b {
      return t;
    }
    if t == b {
      return s;
    }
    if AllObjects(b, s, t) {
      var fields := MergeObjects(path, b, s, t, log);
      return Some(Object(fields));
    }
    log.items := log.items + [PathConflict(path, b, s, t)];
    assert Rendered(path, [Conflict([], b, s, t)]) == [PathConflict(path, b, s, t)] by {
      assert path + "" == path;
    }
    return t;
  }

  method MergeObjects(path: string, b: Maybe, s: Maybe, t: Maybe, log: ConflictLog) returns (merged: map<string, Value>)
    requires AllObjects(b, s, t)
    modifies log
    ensures merged == MergeFields(b, s, t)
    ensures log.items == old(log.items) + Rendered(path, ConflictsUnder(SortedKeys(Keys(b, s, t)), b, s, t))
    decreases b.Some?, if b.Some? then b.value else Null, 0
  {
    var keys := SortedKeys(Keys(b, s, t));
    merged := map[];
    for i := 0 to |keys|
      invariant MergedSoFar(merged, keys[..i], b, s, t)
      invariant log.items == old(log.items) + Rendered(path, ConflictsUnder(keys[..i], b, s, t))
    {
      var key := keys[i];
      var childPath := path + "/" + JsonPointer.Escape(key);
      var value := MergeValue(childPath, Get(b, key), Get(s, key), Get(t, key), log);
      AscendingTake(keys, i);
      MergedStep(merged, keys[..i], key, b, s, t);
      RenderedStep(old(log.items), path, childPath, keys, i, b, s, t);
      merged := Inserted(merged, key, value);
    }
    assert keys[..|keys|] == keys;
    MergedAll(merged, keys, b, s, t);
  }

  /** `analyze_three_way`; the fallback to `null` is never taken, see `RootIsPresent`. */
  method AnalyzeThreeWay(base: Value, source: Value, target: Value)
    returns (merged: Value, conflicts: seq<PathConflict>)
    ensures Some(merged) == Merge(Some(base), Some(source), Some(target))
    ensures conflicts == Rendered("", Conflicts(Some(base), Some(source), Some(target)))
  {
    var log := new ConflictLog();
    var result := MergeValue("", Some(base), Some(source), Some(target), log);
    merged := if result.Some? then result.value else Null;
    conflicts := log.items;
  }

  // ----- swapping the branches -----

  function Swapped(c: Conflict): Conflict
  {
    Conflict(c.tokens, c.base, c.target, c.source)
  }

  function SwapAll(cs: seq<Conflict>): (r: seq<Conflict>)
    ensures |r| == |cs|
    ensures forall i :: 0 <= i < |r| ==> r[i] == Swapped(cs[i])
  {
    seq(|cs|, i requires 0 <= i < |cs| => Swapped(cs[i]))
  }

  /** Swapping source and target lists the same paths in the same order, with the two sides exchanged. */
  lemma {:induction false} SwapSymmetry(b: Maybe, s: Maybe, t: Maybe)
    ensures Conflicts(b, t, s) == SwapAll(Conflicts(b, s, t))
    decreases b.Some?, if b.Some? then b.value else Null, 1, 0
  {
    if PairwiseDiffer(b, s, t) && AllObjects(b, s, t) {
      assert Keys(b, s, t) == Keys(b, t, s);
      SwapSymmetryUnder(SortedKeys(Keys(b, s, t)), b, s, t);
    }
  }

  lemma {:induction false} SwapSymmetryUnder(keys: seq<string>, b: Maybe, s: Maybe, t: Maybe)
    requires AllObjects(b, s, t)
    ensures ConflictsUnder(keys, b, t, s) == SwapAll(ConflictsUnder(keys, b, s, t))
    decreases b.Some?, if b.Some? then b.value else Null, 0, |keys|
  {
    if keys != [] {
      var k := keys[0];
      SwapSymmetry(Get(b, k), Get(s, k), Get(t, k));
      SwapSymmetryUnder(keys[1..], b, s, t);
    }
  }

  // ----- resolving conflicts -----

  /** Replaces, or deletes, the value at a list of keys. */
  function ReplaceAt(v: Maybe, tokens: seq<string>, replacement: Maybe): Maybe
    decreases |tokens|
  {
    if tokens == [] then replacement
    else if v.Some? && v.value.Object? then
      Some(Object(Put(v.value.fields, tokens[0], ReplaceAt(Get(v, tokens[0]), tokens[1..], replacement))))
    else v
  }

  /** Decides every listed conflict for the source, one after the other. */
  function TakeSource(v: Maybe, cs: seq<Conflict>): Maybe
    decreases |cs|
  {
    if cs == [] then v else TakeSource(ReplaceAt(v, cs[0].tokens, cs[0].source), cs[1..])
  }

  lemma {:induction false} TakeSourceAppend(v: Maybe, a: seq<Conflict>, b: seq<Conflict>)
    ensures TakeSource(v, a + b) == TakeSource(TakeSource(v, a), b)
    decreases |a|
  {
    if a == [] {
      assert a + b == b;
    } else {
      assert (a + b)[1..] == a[1..] + b;
      TakeSourceAppend(ReplaceAt(v, a[0].tokens, a[0].source), a[1..], b);
    }
  }

  /** Conflicts below one key only touch the member at that key. */
  lemma {:induction false} TakeSourceUnder(fields: map<string, Value>, key: string, cs: seq<Conflict>)
    ensures TakeSource(Some(Object(fields)), Under(key, cs))
         == Some(Object(Put(fields, key, TakeSource(Get(Some(Object(fields)), key), cs))))
    decreases |cs|
  {
    if cs == [] {
      ObjectsEqual(fields, Put(fields, key, Get(Some(Object(fields)), key)));
    } else {
      var u := Under(key, cs);
      assert u[0].tokens[1..] == cs[0].tokens;
      var next := Put(fields, key, ReplaceAt(Get(Some(Object(fields)), key), cs[0].tokens, cs[0].source));
      assert u[1..] == Under(key, cs[1..]);
      TakeSourceUnder(next, key, cs[1..]);
      var final := TakeSource(Get(Some(Object(next)), key), cs[1..]);
      ObjectsEqual(Put(next, key, final), Put(fields, key, final));
    }
  }

  lemma {:induction false} TakeSourceKeys(fields: map<string, Value>, keys: seq<string>, b: Maybe, s: Maybe, t: Maybe)
    requires AllObjects(b, s, t) && Ascending(keys)
    ensures var r := TakeSource(Some(Object(fields)), ConflictsUnder(keys, b, s, t));
            r.Some? && r.value.Object?
            && forall k :: Get(r, k) == if k in keys
                                        then TakeSource(Get(Some(Object(fields)), k), Conflicts(Get(b, k), Get(s, k), Get(t, k)))
                                        else Get(Some(Object(fields)), k)
    decreases |keys|
  {
    if keys != [] {
      var k0 := keys[0];
      var cs := Conflicts(Get(b, k0), Get(s, k0), Get(t, k0));
      var next := Put(fields, k0, TakeSource(Get(Some(Object(fields)), k0), cs));
      TakeSourceAppend(Some(Object(fields)), Under(k0, cs), ConflictsUnder(keys[1..], b, s, t));
      TakeSourceUnder(fields, k0, cs);
      TakeSourceKeys(next, keys[1..], b, s, t);
      AscendingDistinct(keys);
      assert keys == [k0] + keys[1..];
    }
  }

  /**
   Merging keeps the target at every conflict; putting the source there
   instead gives exactly the merge with the two branches exchanged.
   */
  lemma {:induction false} ResolvingForSourceIsMergingSwapped(b: Maybe, s: Maybe, t: Maybe)
    ensures TakeSource(Merge(b, s, t), Conflicts(b, s, t)) == Merge(b, t, s)
    decreases b.Some?, if b.Some? then b.value else Null
  {
    if PairwiseDiffer(b, s, t) {
      if AllObjects(b, s, t) {
        var fields := Merge(b, s, t).value.fields;
        var keys := SortedKeys(Keys(b, s, t));
        TakeSourceKeys(fields, keys, b, s, t);
        var r := TakeSource(Merge(b, s, t), Conflicts(b, s, t));
        forall k ensures Get(r, k) == Get(Merge(b, t, s), k) {
          MergedMember(b, s, t, k);
          MergedMember(b, t, s, k);
          if k in keys {
            ResolvingForSourceIsMergingSwapped(Get(b, k), Get(s, k), Get(t, k));
          }
        }
        ObjectsEqual(r.value.fields, Merge(b, t, s).value.fields);
      } else {
        assert TakeSource(t, Conflicts(b, s, t)) == TakeSource(s, []);
      }
    }
  }

  /** With something on all three sides there is a merged value, so no `null` is invented. */
  lemma {:induction false} RootIsPresent(b: Value, s: Value, t: Value)
    ensures Merge(Some(b), Some(s), Some(t)).Some?
  {
  }

  // ----- the exact conflict set -----

  predicate ConflictAt(b: Maybe, s: Maybe, t: Maybe, p: seq<string>)
  {
    && PairwiseDiffer(Lookup(b, p), Lookup(s, p), Lookup(t, p))
    && !AllObjects(Lookup(b, p), Lookup(s, p), Lookup(t, p))
    && forall n :: 0 <= n < |p| ==> AllObjects(Lookup(b, p[..n]), Lookup(s, p[..n]), Lookup(t, p[..n]))
  }

  /** `ConflictAt`, one level at a time. */
  lemma {:induction false} ConflictAtStep(b: Maybe, s: Maybe, t: Maybe, p: seq<string>)
    requires p != []
    ensures ConflictAt(b, s, t, p) <==> AllObjects(b, s, t) && ConflictAt(Get(b, p[0]), Get(s, p[0]), Get(t, p[0]), p[1..])
  {
    var k := p[0];
    assert p[..0] == [];
    forall n | 0 <= n < |p[1..]|
      ensures Lookup(b, p[..n + 1]) == Lookup(Get(b, k), p[1..][..n])
      ensures Lookup(s, p[..n + 1]) == Lookup(Get(s, k), p[1..][..n])
      ensures Lookup(t, p[..n + 1]) == Lookup(Get(t, k), p[1..][..n])
    {
      assert p[..n + 1][1..] == p[1..][..n];
    }
    if AllObjects(b, s, t) && ConflictAt(Get(b, k), Get(s, k), Get(t, k), p[1..]) {
      forall n | 0 <= n < |p| ensures AllObjects(Lookup(b, p[..n]), Lookup(s, p[..n]), Lookup(t, p[..n])) {
        if n > 0 {
          var m := n - 1;
          assert p[..m + 1] == p[..n];
          assert AllObjects(Lookup(Get(b, k), p[1..][..m]), Lookup(Get(s, k), p[1..][..m]), Lookup(Get(t, k), p[1..][..m]));
        }
      }
    }
    if ConflictAt(b, s, t, p) {
      assert AllObjects(Lookup(b, p[..0]), Lookup(s, p[..0]), Lookup(t, p[..0]));
      forall n | 0 <= n < |p[1..]|
        ensures AllObjects(Lookup(Get(b, k), p[1..][..n]), Lookup(Get(s, k), p[1..][..n]), Lookup(Get(t, k), p[1..][..n]))
      {
        assert AllObjects(Lookup(b, p[..n + 1]), Lookup(s, p[..n + 1]), Lookup(t, p[..n + 1]));
      }
    }
  }

  function Expected(b: Maybe, s: Maybe, t: Maybe, p: seq<string>): Conflict
  {
    Conflict(p, Lookup(b, p), Lookup(s, p), Lookup(t, p))
  }

  lemma {:induction false} ConflictsUnderMembers(keys: seq<string>, b: Maybe, s: Maybe, t: Maybe, c: Conflict)
    requires AllObjects(b, s, t)
    ensures c in ConflictsUnder(keys, b, s, t)
       <==> c.tokens != [] && c.tokens[0] in keys
            && c.(tokens := c.tokens[1..]) in Conflicts(Get(b, c.tokens[0]), Get(s, c.tokens[0]), Get(t, c.tokens[0]))
    decreases |keys|
  {
    if keys != [] {
      var k := keys[0];
      var cs := Conflicts(Get(b, k), Get(s, k), Get(t, k));
      var u := Under(k, cs);
      ConflictsUnderMembers(keys[1..], b, s, t, c);
      assert keys == [k] + keys[1..];
      if c in u {
        var i :| 0 <= i < |u| && u[i] == c;
        assert c.tokens[1..] == cs[i].tokens;
        assert c.(tokens := c.tokens[1..]) == cs[i];
      }
      if c.tokens != [] && c.tokens[0] == k && c.(tokens := c.tokens[1..]) in cs {
        var i :| 0 <= i < |cs| && cs[i] == c.(tokens := c.tokens[1..]);
        assert u[i].tokens == c.tokens;
        assert u[i] == c;
      }
    }
  }

  /**
   The exact conflict set: a record is listed if and only if it names a path
   where the three values pairwise differ and are not all objects, below
   objects only, and carries the three values found there.
   */
  lemma {:induction false} ConflictsExactly(b: Maybe, s: Maybe, t: Maybe, c: Conflict)
    ensures c in Conflicts(b, s, t) <==> ConflictAt(b, s, t, c.tokens) && c == Expected(b, s, t, c.tokens)
    decreases |c.tokens|
  {
    var p := c.tokens;
    if p == [] {
      if PairwiseDiffer(b, s, t) && AllObjects(b, s, t) {
        ConflictsUnderMembers(SortedKeys(Keys(b, s, t)), b, s, t, c);
      }
    } else {
      var k := p[0];
      ConflictAtStep(b, s, t, p);
      var inner := c.(tokens := p[1..]);
      ConflictsExactly(Get(b, k), Get(s, k), Get(t, k), inner);
      if AllObjects(b, s, t) {
        ConflictsUnderMembers(SortedKeys(Keys(b, s, t)), b, s, t, c);
        if ConflictAt(Get(b, k), Get(s, k), Get(t, k), p[1..]) {
          DifferenceComesFromAbove(b, s, t, p);
          LookupNothing(p[1..]);
          assert k in Keys(b, s, t);
        }
      }
    }
  }

  lemma DifferenceComesFromAbove(b: Maybe, s: Maybe, t: Maybe, p: seq<string>)
    requires PairwiseDiffer(Lookup(b, p), Lookup(s, p), Lookup(t, p))
    ensures PairwiseDiffer(b, s, t)
  {
  }

  // ----- the order of the list -----

  /** Document order of two paths neither of which is an ancestor of the other. */
  predicate PathBefore(p: seq<string>, q: seq<string>)
  {
    p != [] && q != [] && (Before(p[0], q[0]) || (p[0] == q[0] && PathBefore(p[1..], q[1..])))
  }

  lemma {:induction false} PathBeforeIndependent(p: seq<string>, q: seq<string>)
    requires PathBefore(p, q)
    ensures !(p <= q) && !(q <= p)
  {
    if p[0] == q[0] {
      BeforeIrreflexive(p[0]);
      PathBeforeIndependent(p[1..], q[1..]);
      assert p == [p[0]] + p[1..] && q == [q[0]] + q[1..];
    }
  }

  lemma {:induction false} UnderOrdered(keys: seq<string>, b: Maybe, s: Maybe, t: Maybe, i: nat, j: nat)
    requires AllObjects(b, s, t) && Ascending(keys)
    requires i < j < |ConflictsUnder(keys, b, s, t)|
    ensures PathBefore(ConflictsUnder(keys, b, s, t)[i].tokens, ConflictsUnder(keys, b, s, t)[j].tokens)
    decreases b.Some?, if b.Some? then b.value else Null, 0, |keys|
  {
    hide ConflictsUnder, Conflicts, PathBefore, Before, Merge, MergeFields;
    if keys == [] { NoKeys(b, s, t); }
    var k := keys[0];
    var cs := Conflicts(Get(b, k), Get(s, k), Get(t, k));
    var u, rest := Under(k, cs), ConflictsUnder(keys[1..], b, s, t);
    FirstKey(keys, b, s, t);
    if j < |u| {
      ListedInOrder(Get(b, k), Get(s, k), Get(t, k), i, j);
      SameKeyOrdered(k, cs[i].tokens, cs[j].tokens);
    } else if i >= |u| {
      UnderOrdered(keys[1..], b, s, t, i - |u|, j - |u|);
    } else {
      assert rest[j - |u|] in rest;
      ConflictsUnderMembers(keys[1..], b, s, t, rest[j - |u|]);
      LaterKeyOrdered(keys, cs[i].tokens, rest[j - |u|].tokens);
    }
  }

  lemma NoKeys(b: Maybe, s: Maybe, t: Maybe)
    requires AllObjects(b, s, t)
    ensures ConflictsUnder([], b, s, t) == []
  {
  }

  lemma {:induction false} FirstKey(keys: seq<string>, b: Maybe, s: Maybe, t: Maybe)
    requires AllObjects(b, s, t) && keys != []
    ensures ConflictsUnder(keys, b, s, t)
         == Under(keys[0], Conflicts(Get(b, keys[0]), Get(s, keys[0]), Get(t, keys[0]))) + ConflictsUnder(keys[1..], b, s, t)
  {
    hide Conflicts, Under;
  }

  lemma {:induction false} SameKeyOrdered(key: string, p: seq<string>, q: seq<string>)
    requires PathBefore(p, q)
    ensures PathBefore([key] + p, [key] + q)
  {
    assert ([key] + p)[1..] == p && ([key] + q)[1..] == q;
  }

  lemma {:induction false} LaterKeyOrdered(keys: seq<string>, p: seq<string>, q: seq<string>)
    requires keys != [] && Ascending(keys) && q != [] && q[0] in keys[1..]
    ensures PathBefore([keys[0]] + p, q)
  {
    hide Before;
    var n :| 0 <= n < |keys[1..]| && keys[1..][n] == q[0];
    assert Before(keys[0], keys[n + 1]);
  }

  /** Conflicts are listed in document order; no path equals another or is an ancestor of another. */
  lemma {:induction false} ListedInOrder(b: Maybe, s: Maybe, t: Maybe, i: nat, j: nat)
    requires i < j < |Conflicts(b, s, t)|
    ensures PathBefore(Conflicts(b, s, t)[i].tokens, Conflicts(b, s, t)[j].tokens)
    ensures !(Conflicts(b, s, t)[i].tokens <= Conflicts(b, s, t)[j].tokens)
    ensures !(Conflicts(b, s, t)[j].tokens <= Conflicts(b, s, t)[i].tokens)
    decreases b.Some?, if b.Some? then b.value else Null, 1, 0
  {
    UnderOrdered(SortedKeys(Keys(b, s, t)), b, s, t, i, j);
    PathBeforeIndependent(Conflicts(b, s, t)[i].tokens, Conflicts(b, s, t)[j].tokens);
  }

  // ----- what the merged value means -----

  ghost predicate ConflictAtOrAbove(b: Maybe, s: Maybe, t: Maybe, p: seq<string>)
  {
    exists n :: 0 <= n <= |p| && ConflictAt(b, s, t, p[..n])
  }

  lemma {:induction false} ConflictAtOrAboveStep(b: Maybe, s: Maybe, t: Maybe, p: seq<string>)
    requires p != [] && AllObjects(b, s, t)
    ensures ConflictAtOrAbove(b, s, t, p) <==> ConflictAtOrAbove(Get(b, p[0]), Get(s, p[0]), Get(t, p[0]), p[1..])
  {
    var k := p[0];
    if ConflictAtOrAbove(b, s, t, p) {
      var n :| 0 <= n <= |p| && ConflictAt(b, s, t, p[..n]);
      assert n > 0;
      ConflictAtStep(b, s, t, p[..n]);
      assert p[..n][1..] == p[1..][..n - 1];
    }
    if ConflictAtOrAbove(Get(b, k), Get(s, k), Get(t, k), p[1..]) {
      var n :| 0 <= n <= |p[1..]| && ConflictAt(Get(b, k), Get(s, k), Get(t, k), p[1..][..n]);
      assert p[..n + 1][1..] == p[1..][..n];
      ConflictAtStep(b, s, t, p[..n + 1]);
    }
  }

  /**
   What a merged document has to read as at a path. At and below a conflict it
   reads as the target; elsewhere the unchanged side yields to the changed
   one, agreement is kept, and three different values merge to an object.
   */
  ghost predicate FollowsRule(b: Maybe, s: Maybe, t: Maybe, p: seq<string>, merged: Maybe)
  {
    var lb, ls, lt := Lookup(b, p), Lookup(s, p), Lookup(t, p);
    if ConflictAtOrAbove(b, s, t, p) then merged == lt
    else
      && (ls == lb ==> merged == lt) && (lt == lb ==> merged == ls) && (ls == lt ==> merged == ls)
      && (PairwiseDiffer(lb, ls, lt) ==> merged.Some? && merged.value.Object?)
  }

  /** The pointwise three-way rule, at every path. */
  lemma {:induction false} MergeMeaning(b: Maybe, s: Maybe, t: Maybe, p: seq<string>)
    ensures FollowsRule(b, s, t, p, Lookup(Merge(b, s, t), p))
    decreases |p|
  {
    if p == [] {
      assert p[..0] == [];
      if PairwiseDiffer(b, s, t) && !AllObjects(b, s, t) {
        assert ConflictAt(b, s, t, p[..0]);
      }
    } else if PairwiseDiffer(b, s, t) && AllObjects(b, s, t) {
      var k := p[0];
      MergedMember(b, s, t, k);
      ConflictAtOrAboveStep(b, s, t, p);
      MergeMeaning(Get(b, k), Get(s, k), Get(t, k), p[1..]);
    } else if PairwiseDiffer(b, s, t) {
      assert ConflictAt(b, s, t, p[..0]);
    } else {
      if ConflictAtOrAbove(b, s, t, p) {
        var n :| 0 <= n <= |p| && ConflictAt(b, s, t, p[..n]);
        DifferenceComesFromAbove(b, s, t, p[..n]);
      }
      if PairwiseDiffer(Lookup(b, p), Lookup(s, p), Lookup(t, p)) {
        DifferenceComesFromAbove(b, s, t, p);
      }
    }
  }

  /** Away from conflicts some rule applies, or all three values are objects. */
  lemma {:induction false} EveryPathDecided(b: Maybe, s: Maybe, t: Maybe, p: seq<string>)
    requires !ConflictAtOrAbove(b, s, t, p)
    ensures var lb, ls, lt := Lookup(b, p), Lookup(s, p), Lookup(t, p);
            ls == lb || lt == lb || ls == lt || AllObjects(lb, ls, lt)
    decreases |p|
  {
    assert p[..0] == [];
    assert !ConflictAt(b, s, t, p[..0]);
    if p != [] && PairwiseDiffer(b, s, t) {
      ConflictAtOrAboveStep(b, s, t, p);
      EveryPathDecided(Get(b, p[0]), Get(s, p[0]), Get(t, p[0]), p[1..]);
    }
  }

  /** By the three sides alone: does the merged document have a value at a path below three different objects? */
  ghost predicate IsKept(b: Maybe, s: Maybe, t: Maybe, p: seq<string>)
  {
    var lb, ls, lt := Lookup(b, p), Lookup(s, p), Lookup(t, p);
    if ConflictAtOrAbove(b, s, t, p) || ls == lb then lt.Some?
    else if lt == lb || ls == lt then ls.Some?
    else true
  }

  lemma {:induction false} LookupMember(v: Maybe, p: seq<string>, k: string)
    ensures Lookup(v, p + [k]) == Get(Lookup(v, p), k)
    decreases |p|
  {
    if p == [] {
      assert [] + [k] == [k] && [k][1..] == [];
    } else {
      assert (p + [k])[1..] == p[1..] + [k];
      LookupMember(Get(v, p[0]), p[1..], k);
    }
  }

  /** Three different objects merge to an object with exactly the members that are kept, perhaps none. */
  lemma {:induction false} MergedKeys(b: Maybe, s: Maybe, t: Maybe, p: seq<string>)
    requires !ConflictAtOrAbove(b, s, t, p) && PairwiseDiffer(Lookup(b, p), Lookup(s, p), Lookup(t, p))
    ensures var merged := Lookup(Merge(b, s, t), p);
            merged.Some? && merged.value.Object? && forall k :: k in merged.value.fields <==> IsKept(b, s, t, p + [k])
  {
    hide Merge, ConflictAtOrAbove, Lookup;
    MergeMeaning(b, s, t, p);
    var merged := Lookup(Merge(b, s, t), p);
    forall k ensures k in merged.value.fields <==> IsKept(b, s, t, p + [k]) {
      LookupMember(Merge(b, s, t), p, k);
      MergeMeaning(b, s, t, p + [k]);
    }
  }

  /** The rule at every path determines the merged document: nothing else follows it. */
  lemma {:induction false} MergeIsDetermined(b: Maybe, s: Maybe, t: Maybe, merged: Maybe)
    requires forall p :: FollowsRule(b, s, t, p, Lookup(merged, p))
    ensures merged == Merge(b, s, t)
    decreases b.Some?, if b.Some? then b.value else Null
  {
    var root: seq<string> := [];
    assert FollowsRule(b, s, t, root, Lookup(merged, root));
    assert root[..0] == root;
    if PairwiseDiffer(b, s, t) && AllObjects(b, s, t) {
      NoConflictHere(b, s, t);
      forall k ensures Get(merged, k) == Get(Merge(b, s, t), k) {
        MergedMember(b, s, t, k);
        MemberFollows(b, s, t, merged, k);
        MergeIsDetermined(Get(b, k), Get(s, k), Get(t, k), Get(merged, k));
      }
      ObjectsEqual(merged.value.fields, MergeFields(b, s, t));
    } else if PairwiseDiffer(b, s, t) {
      assert ConflictAt(b, s, t, root[..0]);
    } else {
      if ConflictAtOrAbove(b, s, t, root) {
        var n :| 0 <= n <= |root| && ConflictAt(b, s, t, root[..n]);
      }
    }
  }

  lemma {:induction false} NoConflictHere(b: Maybe, s: Maybe, t: Maybe)
    requires AllObjects(b, s, t)
    ensures !ConflictAtOrAbove(b, s, t, [])
  {
    forall n | 0 <= n <= 0 ensures !ConflictAt(b, s, t, [][..n]) {
      var root: seq<string> := [];
      assert root[..n] == root;
    }
  }

  lemma {:induction false} MemberFollows(b: Maybe, s: Maybe, t: Maybe, merged: Maybe, k: string)
    requires AllObjects(b, s, t) && PairwiseDiffer(b, s, t)
    requires forall p :: FollowsRule(b, s, t, p, Lookup(merged, p))
    ensures forall p :: FollowsRule(Get(b, k), Get(s, k), Get(t, k), p, Lookup(Get(merged, k), p))
  {
    hide ConflictAtOrAbove;
    forall p ensures FollowsRule(Get(b, k), Get(s, k), Get(t, k), p, Lookup(Get(merged, k), p)) {
      var q := [k] + p;
      assert q[0] == k && q[1..] == p;
      ConflictAtOrAboveStep(b, s, t, q);
      assert FollowsRule(b, s, t, q, Lookup(merged, q));
    }
  }

  // ----- paths as pointers -----

  lemma {:induction false} RenderedConflict(b: Value, s: Value, t: Value, i: nat) returns (c: Conflict)
    requires i < |Conflicts(Some(b), Some(s), Some(t))|
    ensures c == Conflicts(Some(b), Some(s), Some(t))[i]
    ensures Rendered("", Conflicts(Some(b), Some(s), Some(t)))[i]
         == PathConflict(JsonPointer.Render(c.tokens), c.base, c.source, c.target)
    ensures ConflictAt(Some(b), Some(s), Some(t), c.tokens) && c == Expected(Some(b), Some(s), Some(t), c.tokens)
  {
    c := Conflicts(Some(b), Some(s), Some(t))[i];
    ConflictsExactly(Some(b), Some(s), Some(t), c);
    assert "" + JsonPointer.Render(c.tokens) == JsonPointer.Render(c.tokens);
  }

  function AsSelection(v: Maybe, pointer: string): Result<Value, string>
  {
    if v.Some? then Success(v.value) else Failure("JSON Pointer did not match: " + pointer)
  }

  /**
   A reported path is usable with the repository's own selector: it is
   accepted, and selecting it in the three documents gives back the three
   values of the conflict (or no match where a side has none), whatever the
   array index syntax.
   */
  lemma {:induction false} ConflictPathsSelect(b: Value, s: Value, t: Value, i: nat, index: string -> Option<nat>)
    requires i < |Conflicts(Some(b), Some(s), Some(t))|
    ensures var c := Rendered("", Conflicts(Some(b), Some(s), Some(t)))[i];
            && JsonPointer.Accepts(c.path)
            && JsonPointer.Select(c.path, b, index) == AsSelection(c.base, c.path)
            && JsonPointer.Select(c.path, s, index) == AsSelection(c.source, c.path)
            && JsonPointer.Select(c.path, t, index) == AsSelection(c.target, c.path)
  {
    var c := RenderedConflict(b, s, t, i);
    var p := c.tokens;
    JsonPointer.ParseRender(p);
    JsonPointer.AcceptsExactlyTheGrammar(JsonPointer.Render(p));
    JsonPointer.WalkIsLookup(b, p, index);
    JsonPointer.WalkIsLookup(s, p, index);
    JsonPointer.WalkIsLookup(t, p, index);
  }

  /** Two reported paths are never equal as text. */
  lemma {:induction false} ReportedPathsDistinct(b: Value, s: Value, t: Value, i: nat, j: nat)
    requires i < j < |Conflicts(Some(b), Some(s), Some(t))|
    ensures Rendered("", Conflicts(Some(b), Some(s), Some(t)))[i].path
         != Rendered("", Conflicts(Some(b), Some(s), Some(t)))[j].path
  {
    var c := RenderedConflict(b, s, t, i);
    var d := RenderedConflict(b, s, t, j);
    ListedInOrder(Some(b), Some(s), Some(t), i, j);
    if JsonPointer.Render(c.tokens) == JsonPointer.Render(d.tokens) {
      JsonPointer.RenderInjective(c.tokens, d.tokens);
    }
  }
}
