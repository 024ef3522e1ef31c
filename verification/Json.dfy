/**
 JSON values as `serde_json::Value` holds them, and the key order of its maps.
 Two objects are equal exactly when they map equal keys to equal values; a
 number is the lexeme it was read from (the `arbitrary_precision` feature).
 */
module Json {
  import opened Wrappers
  import opened TextBasics

  datatype Value =
    | Null
    | Bool(bool)
    | Number(lexeme: string)
    | String(text: string)
    | Array(items: seq<Value>)
    | Object(fields: map<string, Value>)

  /** The member `key` of an optional object; `None` when there is no such member. */
  function Get(v: Option<Value>, key: string): (r: Option<Value>)
    ensures r.Some? ==> v.Some? && r.value < v.value
  {
    if v.Some? && v.value.Object? && key in v.value.fields then Some(v.value.fields[key]) else None
  }

  /** Stores or deletes one member, depending on whether there is a value. */
  function Put(fields: map<string, Value>, key: string, v: Option<Value>): (r: map<string, Value>)
    ensures forall k :: Get(Some(Object(r)), k) == if k == key then v else Get(Some(Object(fields)), k)
  {
    if v.Some? then fields[key := v.value] else fields - {key}
  }

  /** Follows object members only: the value at a list of keys. */
  function Lookup(v: Option<Value>, tokens: seq<string>): Option<Value>
    decreases |tokens|
  {
    if tokens == [] then v else Lookup(Get(v, tokens[0]), tokens[1..])
  }

  lemma {:induction false} ObjectsEqual(a: map<string, Value>, b: map<string, Value>)
    requires forall k :: Get(Some(Object(a)), k) == Get(Some(Object(b)), k)
    ensures a == b
  {
    forall k
      ensures k in a <==> k in b
      ensures k in a ==> a[k] == b[k]
    {
      assert Get(Some(Object(a)), k) == Get(Some(Object(b)), k);
    }
  }

  lemma LookupNothing(tokens: seq<string>)
    ensures Lookup(None, tokens) == None
  {
  }

  // ----- key order -----

  /** Order of keys by scalar values, which is also the byte order of their UTF-8 forms, see `BeforeIsByteOrder`. */
  predicate Before(a: string, b: string)
  {
    b != "" && (a == "" || a[0] < b[0] || (a[0] == b[0] && Before(a[1..], b[1..])))
  }

  lemma BeforeTransitive(a: string, b: string, c: string)
    requires Before(a, b) && Before(b, c)
    ensures Before(a, c)
  {
  }

  lemma BeforeIrreflexive(a: string)
    ensures !Before(a, a)
  {
  }

  lemma {:induction false} BeforeTotal(a: string, b: string)
    ensures a == b || Before(a, b) || Before(b, a)
  {
    if a != "" && b != "" && a[0] == b[0] {
      BeforeTotal(a[1..], b[1..]);
      assert a == [a[0]] + a[1..] && b == [b[0]] + b[1..];
    }
  }

  lemma {:induction false} BeforeInBytes(a: string, b: string)
    requires Before(a, b)
    ensures LexBefore(Utf8Bytes(a), Utf8Bytes(b))
  {
    if a == "" {
      assert SmallerAt(Utf8Bytes(a), Utf8Bytes(b), 0);
    } else if a[0] < b[0] {
      var n := Utf8Order(a[0], b[0]);
      LexInFront(Utf8(a[0]), Utf8(b[0]), n, Utf8Bytes(a[1..]), Utf8Bytes(b[1..]));
    } else {
      BeforeInBytes(a[1..], b[1..]);
      LexBehind(Utf8(a[0]), Utf8Bytes(a[1..]), Utf8Bytes(b[1..]));
    }
  }

  /** Keys are ordered by the bytes of their UTF-8 forms: a proper prefix first, else the smaller first differing byte. */
  lemma {:induction false} BeforeIsByteOrder(a: string, b: string)
    ensures Before(a, b) <==> LexBefore(Utf8Bytes(a), Utf8Bytes(b))
  {
    if Before(a, b) {
      BeforeInBytes(a, b);
    } else if LexBefore(Utf8Bytes(a), Utf8Bytes(b)) {
      LexAsymmetric(Utf8Bytes(a), Utf8Bytes(b));
      BeforeTotal(a, b);
      if Before(b, a) { BeforeInBytes(b, a); }
    }
  }

  /** Strictly ascending key lists: sorted and free of repetitions. */
  predicate Ascending(keys: seq<string>)
  {
    forall i, j :: 0 <= i < j < |keys| ==> Before(keys[i], keys[j])
  }

  predicate IsLeast(key: string, keys: set<string>)
  {
    key in keys && forall k :: k in keys ==> k == key || Before(key, k)
  }

  lemma {:induction false} LeastExists(keys: set<string>)
    requires keys != {}
    ensures exists k :: IsLeast(k, keys)
  {
    var x :| x in keys;
    if keys == {x} {
      assert IsLeast(x, keys);
    } else {
      LeastExists(keys - {x});
      var y :| IsLeast(y, keys - {x});
      BeforeTotal(x, y);
      if Before(x, y) {
        forall k | k in keys ensures k == x || Before(x, k) {
          if k != x && k != y { BeforeTransitive(x, y, k); }
        }
        assert IsLeast(x, keys);
      } else {
        assert IsLeast(y, keys);
      }
    }
  }

  lemma {:induction false} LeastUnique(a: string, b: string, keys: set<string>)
    requires IsLeast(a, keys) && IsLeast(b, keys)
    ensures a == b
  {
    if a != b {
      BeforeTransitive(a, b, a);
      BeforeIrreflexive(a);
    }
  }

  /** The iteration order of a `BTreeSet` or of a sorted map. */
  function SortedKeys(keys: set<string>): (r: seq<string>)
    ensures forall k :: k in r <==> k in keys
    ensures Ascending(r)
  {
    if keys == {} then []
    else
      assert (exists k :: IsLeast(k, keys)) by { LeastExists(keys); }
      assert forall a, b :: IsLeast(a, keys) && IsLeast(b, keys) ==> a == b by {
        forall a, b | IsLeast(a, keys) && IsLeast(b, keys) ensures a == b { LeastUnique(a, b, keys); }
      }
      var least :| IsLeast(least, keys);
      [least] + SortedKeys(keys - {least})
  }

  /** Sorting is determined by the set of keys alone. */
  lemma {:induction false} AscendingUnique(a: seq<string>, b: seq<string>)
    requires Ascending(a) && Ascending(b)
    requires forall k :: k in a <==> k in b
    ensures a == b
  {
    assert a != [] ==> a[0] in b;
    assert b != [] ==> b[0] in a;
    if a != [] && b != [] {
      if a[0] != b[0] {
        assert Before(a[0], b[0]) && Before(b[0], a[0]);
        BeforeTransitive(a[0], b[0], a[0]);
        BeforeIrreflexive(a[0]);
      }
      forall k ensures k in a[1..] <==> k in b[1..] {
        BeforeIrreflexive(a[0]);
        if k in a[1..] { assert Before(a[0], k); assert k in b; assert k in [b[0]] + b[1..]; }
        if k in b[1..] { assert Before(b[0], k); assert k in a; assert k in [a[0]] + a[1..]; }
      }
      AscendingUnique(a[1..], b[1..]);
      assert a == [a[0]] + a[1..] && b == [b[0]] + b[1..];
    }
  }

  lemma {:induction false} AscendingDistinct(keys: seq<string>)
    requires Ascending(keys) && keys != []
    ensures keys[0] !in keys[1..]
  {
    BeforeIrreflexive(keys[0]);
  }

  /** The next key of an ascending list has not been seen, and the list grows by it. */
  lemma {:induction false} AscendingTake(keys: seq<string>, i: nat)
    requires Ascending(keys) && i < |keys|
    ensures keys[i] !in keys[..i] && keys[..i + 1] == keys[..i] + [keys[i]]
  {
    BeforeIrreflexive(keys[i]);
  }
}
