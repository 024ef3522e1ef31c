/**
 Canonical JSON text, `canonical.rs`.

 `WriteValue` follows the source: it appends to one output, visits the members
 of an object in any order and sorts them first. It is proved against `Text`
 of the normal form. A reader that inverts `Text` shows that the text
 determines the value, with numbers compared by value and objects as maps.
 */
module CanonicalJson {
  import opened Wrappers
  import opened TextBasics
  import opened Json
  import opened NumberLexeme
  import opened CanonicalNumber

  const MAX_JSON_DEPTH: nat := 128
  const MAX_JSON_BYTES: nat := 16 * 1024 * 1024
  const MAX_COLLECTION_ITEMS: nat := 100_000
  const MAX_STRING_BYTES: nat := 8 * 1024 * 1024

  // ----- strings -----

  /** Section 7 of RFC 8259, with the short escapes where there are some. */
  function EscapeChar(c: char): string
  {
    if c == '"' then "\\\""
    else if c == '\\' then "\\\\"
    else if c as int == 8 then "\\b"
    else if c as int == 9 then "\\t"
    else if c as int == 10 then "\\n"
    else if c as int == 12 then "\\f"
    else if c as int == 13 then "\\r"
    else if c as int < 32 then "\\u00" + [HexDigit(c as int / 16), HexDigit(c as int % 16)]
    else [c]
  }

  function EscapeAll(s: string): string
  {
    if s == "" then "" else EscapeChar(s[0]) + EscapeAll(s[1..])
  }

  function Quote(s: string): string
  {
    "\"" + (EscapeAll(s) + "\"")
  }

  // ----- text -----

  function Joined(texts: seq<string>): string
  {
    if texts == [] then "" else if |texts| == 1 then texts[0] else texts[0] + ("," + Joined(texts[1..]))
  }

  /** The text of a value whose numbers are printed as they are, members sorted by key. */
  function Text(v: Value): string
  {
    match v
    case Null => "null"
    case Bool(b) => if b then "true" else "false"
    case Number(lexeme) => lexeme
    case String(text) => Quote(text)
    case Array(items) => "[" + (Joined(seq(|items|, i requires 0 <= i < |items| => Text(items[i]))) + "]")
    case Object(fields) =>
      var keys := SortedKeys(fields.Keys);
      "{" + (Joined(seq(|keys|, i requires 0 <= i < |keys| =>
                          assert keys[i] in keys; Quote(keys[i]) + (":" + Text(fields[keys[i]])))) + "}")
  }

  /** All numbers are within the limits of `normalize_number`. */
  predicate Normalizable(v: Value)
  {
    match v
    case Number(lexeme) => Normalize(lexeme).Success?
    case Array(items) => forall i :: 0 <= i < |items| ==> Normalizable(items[i])
    case Object(fields) => forall k :: k in fields ==> Normalizable(fields[k])
    case _ => true
  }

  function Normal(v: Value): Value
    requires Normalizable(v)
  {
    match v
    case Number(lexeme) => Number(Normalize(lexeme).value)
    case Array(items) => Array(seq(|items|, i requires 0 <= i < |items| => Normal(items[i])))
    case Object(fields) => Object(map k | k in fields :: Normal(fields[k]))
    case _ => v
  }

  // ----- the code -----

  class Output {
    var text: string

    constructor ()
      ensures text == ""
    {
      text := "";
    }
  }

  type Entry = (string, Value)

  predicate SortedEntries(entries: seq<Entry>)
  {
    forall i, j :: 0 <= i < j < |entries| ==> Before(entries[i].0, entries[j].0)
  }

  function InsertEntry(e: Entry, entries: seq<Entry>): seq<Entry>
  {
    if entries == [] || Before(e.0, entries[0].0) then [e] + entries
    else [entries[0]] + InsertEntry(e, entries[1..])
  }

  /** `sort_unstable_by` on the bytes of the keys. */
  function SortEntries(entries: seq<Entry>): seq<Entry>
  {
    if entries == [] then [] else InsertEntry(entries[0], SortEntries(entries[1..]))
  }

  lemma {:induction false} InsertKeepsOrder(e: Entry, entries: seq<Entry>)
    requires SortedEntries(entries) && forall x :: x in entries ==> x.0 != e.0
    ensures SortedEntries(InsertEntry(e, entries))
    ensures forall x :: x in InsertEntry(e, entries) <==> x == e || x in entries
  {
    if entries != [] {
      BeforeTotal(e.0, entries[0].0);
      assert entries[0] in entries;
      if Before(e.0, entries[0].0) {
        forall j | 0 <= j < |entries| ensures Before(e.0, entries[j].0) {
          if j > 0 { BeforeTransitive(e.0, entries[0].0, entries[j].0); }
        }
      } else {
        assert entries == [entries[0]] + entries[1..];
        InsertKeepsOrder(e, entries[1..]);
        var rest := InsertEntry(e, entries[1..]);
        forall x | x in rest ensures Before(entries[0].0, x.0) {
          if x != e {
            var i :| 0 <= i < |entries[1..]| && entries[1..][i] == x;
            assert entries[i + 1] == x;
          }
        }
      }
    }
  }

  predicate DistinctKeys(entries: seq<Entry>)
  {
    forall i, j :: 0 <= i < j < |entries| ==> entries[i].0 != entries[j].0
  }

  lemma {:induction false} SortSorts(entries: seq<Entry>)
    requires DistinctKeys(entries)
    ensures SortedEntries(SortEntries(entries))
    ensures forall x :: x in SortEntries(entries) <==> x in entries
  {
    if entries != [] {
      SortSorts(entries[1..]);
      assert entries == [entries[0]] + entries[1..];
      forall x | x in SortEntries(entries[1..]) ensures x.0 != entries[0].0 {
        var i :| 0 <= i < |entries[1..]| && entries[1..][i] == x;
        assert entries[i + 1] == x;
      }
      InsertKeepsOrder(entries[0], SortEntries(entries[1..]));
    }
  }

  /** The entries of a map in some order: each member once. */
  predicate Enumerates(entries: seq<Entry>, fields: map<string, Value>)
  {
    && DistinctKeys(entries)
    && (forall x :: x in entries ==> x.0 in fields && fields[x.0] == x.1)
    && (forall k :: k in fields ==> (k, fields[k]) in entries)
  }

  method Iterate(fields: map<string, Value>) returns (entries: seq<Entry>)
    ensures Enumerates(entries, fields)
  {
    entries := [];
    var left := fields.Keys;
    while left != {}
      invariant left <= fields.Keys && DistinctKeys(entries)
      invariant forall x :: x in entries ==> x.0 in fields && x.0 !in left && fields[x.0] == x.1
      invariant forall k :: k in fields && k !in left ==> (k, fields[k]) in entries
      decreases |left|
    {
      var k :| k in left;
      ghost var before := entries;
      forall x | x in before ensures x.0 != k {}
      forall i | 0 <= i < |before| ensures before[i].0 != k { assert before[i] in before; }
      entries := entries + [(k, fields[k])];
      left := left - {k};
    }
  }

  function KeysOf(entries: seq<Entry>): (r: seq<string>)
    ensures |r| == |entries| && forall i :: 0 <= i < |r| ==> r[i] == entries[i].0
  {
    seq(|entries|, i requires 0 <= i < |entries| => entries[i].0)
  }

  lemma {:induction false} EnumeratedKey(entries: seq<Entry>, fields: map<string, Value>, k: string)
    requires forall x :: x in entries ==> x.0 in fields && fields[x.0] == x.1
    requires forall l :: l in fields ==> (l, fields[l]) in entries
    ensures k in KeysOf(entries) <==> k in fields
  {
    if k in KeysOf(entries) {
      var i :| 0 <= i < |entries| && entries[i].0 == k;
      assert entries[i] in entries;
    }
    if k in fields {
      var i :| 0 <= i < |entries| && entries[i] == (k, fields[k]);
      assert KeysOf(entries)[i] == k;
    }
  }

  /** Sorting makes the order of iteration irrelevant. */
  lemma {:induction false} SortedIteration(entries: seq<Entry>, fields: map<string, Value>)
    requires Enumerates(entries, fields)
    ensures var sorted, keys := SortEntries(entries), SortedKeys(fields.Keys);
            |sorted| == |keys|
            && forall i :: 0 <= i < |keys| ==> keys[i] in fields && sorted[i] == (keys[i], fields[keys[i]])
  {
    SortSorts(entries);
    var sorted, keys := SortEntries(entries), SortedKeys(fields.Keys);
    hide SortEntries, SortedKeys, DistinctKeys;
    assert forall x :: x in sorted ==> x.0 in fields && fields[x.0] == x.1;
    assert forall l :: l in fields ==> (l, fields[l]) in sorted;
    hide Enumerates;
    forall k ensures k in KeysOf(sorted) <==> k in keys { EnumeratedKey(sorted, fields, k); }
    assert Ascending(KeysOf(sorted));
    AscendingUnique(KeysOf(sorted), keys);
    hide Ascending, SortedEntries;
    forall i | 0 <= i < |keys| ensures keys[i] in fields && sorted[i] == (keys[i], fields[keys[i]]) {
      assert sorted[i] in sorted;
    }
  }

  lemma {:induction false} SortedMember(entries: seq<Entry>, v: Value, i: nat)
    requires v.Object? && Enumerates(entries, v.fields) && i < |SortEntries(entries)|
    ensures SortEntries(entries)[i].1 < v
  {
    SortedIteration(entries, v.fields);
  }

  lemma {:induction false} JoinedSnoc(texts: seq<string>, text: string)
    ensures Joined(texts + [text]) == Joined(texts) + (if texts == [] then "" else ",") + text
  {
    if texts == [] {
      assert "" + "" + text == text;
    } else if |texts| == 1 {
      assert (texts + [text])[1..] == [text];
      assert texts[0] + ("," + text) == texts[0] + "," + text;
    } else {
      JoinedSnoc(texts[1..], text);
      assert (texts + [text])[1..] == texts[1..] + [text];
      assert texts[0] + ("," + (Joined(texts[1..]) + "," + text)) == texts[0] + ("," + Joined(texts[1..])) + "," + text;
    }
  }

  function ItemTexts(items: seq<Value>): (r: seq<string>)
    requires forall i :: 0 <= i < |items| ==> Normalizable(items[i])
    ensures |r| == |items|
  {
    seq(|items|, i requires 0 <= i < |items| => Text(Normal(items[i])))
  }

  lemma {:induction false} ArrayText(items: seq<Value>)
    requires Normalizable(Array(items))
    ensures Text(Normal(Array(items))) == "[" + (Joined(ItemTexts(items)) + "]")
  {
    var normal := Normal(Array(items)).items;
    assert ItemTexts(items) == seq(|normal|, i requires 0 <= i < |normal| => Text(normal[i]));
  }

  function MemberText(key: string, value: Value): string
  {
    Quote(key) + (":" + Text(value))
  }

  predicate NormalizableEntries(entries: seq<Entry>)
  {
    forall i :: 0 <= i < |entries| ==> Normalizable(entries[i].1)
  }

  function EntryTexts(entries: seq<Entry>): (r: seq<string>)
    requires NormalizableEntries(entries)
    ensures |r| == |entries|
  {
    seq(|entries|, i requires 0 <= i < |entries| => MemberText(entries[i].0, Normal(entries[i].1)))
  }

  lemma {:induction false} ObjectText(fields: map<string, Value>, entries: seq<Entry>)
    requires Enumerates(entries, fields)
    ensures Normalizable(Object(fields)) <==> NormalizableEntries(SortEntries(entries))
    ensures Normalizable(Object(fields)) ==>
              Text(Normal(Object(fields))) == "{" + (Joined(EntryTexts(SortEntries(entries))) + "}")
  {
    hide SortEntries, Enumerates, SortedKeys;
    var keys, sorted := SortedKeys(fields.Keys), SortEntries(entries);
    SortedIteration(entries, fields);
    if NormalizableEntries(sorted) {
      forall k | k in fields ensures Normalizable(fields[k]) {
        assert k in keys;
        var i :| 0 <= i < |keys| && keys[i] == k;
        assert sorted[i].1 == fields[k];
      }
    }
    if Normalizable(Object(fields)) {
      var normal := Normal(Object(fields)).fields;
      assert normal.Keys == fields.Keys;
      assert EntryTexts(sorted) == seq(|keys|, i requires 0 <= i < |keys| =>
                                         assert keys[i] in keys; Quote(keys[i]) + (":" + Text(normal[keys[i]])));
    }
  }

  lemma {:induction false} Bracketed(before: string, open: string, inside: string, close: string)
    ensures before + open + inside + close == before + (open + (inside + close))
  {
  }

  lemma {:induction false} Appended(before: string, open: string, texts: seq<string>, i: nat)
    requires i < |texts|
    ensures before + open + Joined(texts[..i]) + (if i == 0 then "" else ",") + texts[i] == before + open + Joined(texts[..i + 1])
  {
    assert texts[..i + 1] == texts[..i] + [texts[i]];
    JoinedSnoc(texts[..i], texts[i]);
    hide Joined;
    var a, comma := Joined(texts[..i]), if i == 0 then "" else ",";
    assert before + open + (a + comma + texts[i]) == before + open + a + comma + texts[i];
  }

  method WriteValue(v: Value, output: Output) returns (r: Result<(), LimitError>)
    modifies output
    ensures r.Success? <==> Normalizable(v)
    ensures r.Success? ==> output.text == old(output.text) + Text(Normal(v))
    decreases v
  {
    hide Normalize, Quote;
    match v {
      case Null =>
        output.text := output.text + "null";
      case Bool(b) =>
        output.text := output.text + (if b then "true" else "false");
      case Number(lexeme) =>
        var n := Normalize(lexeme);
        if n.Failure? {
          return Failure(n.error);
        }
        output.text := output.text + n.value;
      case String(text) =>
        output.text := output.text + Quote(text);
      case Array(items) =>
        r := WriteItems(v, output);
        return;
      case Object(fields) =>
        r := WriteMembers(v, output);
        return;
    }
    return Success(());
  }

  method WriteItems(v: Value, output: Output) returns (r: Result<(), LimitError>)
    requires v.Array?
    modifies output
    ensures r.Success? <==> Normalizable(v)
    ensures r.Success? ==> output.text == old(output.text) + Text(Normal(v))
    decreases v, 0
  {
    hide Text, Joined;
    assert Joined(ItemTexts([])) == "" by { NothingJoined(); }
    output.text := output.text + "[";
    for index := 0 to |v.items|
      invariant forall i :: 0 <= i < index ==> Normalizable(v.items[i])
      invariant output.text == old(output.text) + "[" + Joined(ItemTexts(v.items[..index]))
    {
      if index > 0 {
        output.text := output.text + ",";
      }
      var next := WriteValue(v.items[index], output);
      if next.Failure? {
        return next;
      }
      var texts := ItemTexts(v.items[..index + 1]);
      Appended(old(output.text), "[", texts, index);
      assert texts[..index] == ItemTexts(v.items[..index]) && texts[..index + 1] == texts;
    }
    assert v.items[..|v.items|] == v.items;
    Bracketed(old(output.text), "[", Joined(ItemTexts(v.items)), "]");
    output.text := output.text + "]";
    ArrayText(v.items);
    return Success(());
  }

  lemma {:induction false} EntryText(entries: seq<Entry>, i: nat)
    requires i < |entries| && NormalizableEntries(entries[..i + 1])
    ensures NormalizableEntries(entries[..i]) && Normalizable(entries[i].1)
    ensures var texts := EntryTexts(entries[..i + 1]);
            texts[..i] == EntryTexts(entries[..i]) && texts[..i + 1] == texts
            && texts[i] == MemberText(entries[i].0, Normal(entries[i].1))
  {
    assert entries[..i + 1][i] == entries[i];
    assert forall j :: 0 <= j < i ==> entries[..i][j] == entries[..i + 1][j];
  }

  lemma {:induction false} NothingJoined()
    ensures Joined(EntryTexts([])) == "" && Joined(ItemTexts([])) == ""
  {
  }

  /** What one round of the loop appends is the next member. */
  lemma {:induction false} MemberAppended(before: string, entries: seq<Entry>, i: nat)
    requires i < |entries| && NormalizableEntries(entries[..i]) && Normalizable(entries[i].1)
    ensures NormalizableEntries(entries[..i + 1])
    ensures var (key, value) := entries[i];
            before + "{" + Joined(EntryTexts(entries[..i])) + (if i == 0 then "" else ",") + Quote(key) + ":" + Text(Normal(value))
            == before + "{" + Joined(EntryTexts(entries[..i + 1]))
  {
    hide Text, Quote, Joined, Normalizable, Normal;
    assert forall j :: 0 <= j < i ==> entries[..i][j] == entries[..i + 1][j];
    EntryText(entries, i);
    var texts := EntryTexts(entries[..i + 1]);
    Appended(before, "{", texts, i);
    var head := before + "{" + Joined(texts[..i]) + (if i == 0 then "" else ",");
    hide EntryTexts;
    Regroup3(head, Quote(entries[i].0), ":", Text(Normal(entries[i].1)));
  }

  lemma {:induction false} Regroup3(a: string, b: string, c: string, d: string)
    ensures a + b + c + d == a + (b + (c + d))
  {
  }

  method WriteMembers(v: Value, output: Output) returns (r: Result<(), LimitError>)
    requires v.Object?
    modifies output
    ensures r.Success? <==> Normalizable(v)
    ensures r.Success? ==> output.text == old(output.text) + Text(Normal(v))
    decreases v, 0
  {
    hide Text, Quote, SortEntries, MemberText, Joined, Normalizable, Enumerates, EntryTexts;
    output.text := output.text + "{";
    var iterated := Iterate(v.fields);
    ObjectText(v.fields, iterated);
    var entries := SortEntries(iterated);
    assert Joined(EntryTexts([])) == "" by { NothingJoined(); }
    for index := 0 to |entries|
      invariant NormalizableEntries(entries[..index])
      invariant output.text == old(output.text) + "{" + Joined(EntryTexts(entries[..index]))
    {
      if index > 0 {
        output.text := output.text + ",";
      }
      var (key, value) := entries[index];
      output.text := output.text + Quote(key);
      output.text := output.text + ":";
      SortedMember(iterated, v, index);
      var next := WriteValue(value, output);
      if next.Failure? {
        return next;
      }
      MemberAppended(old(output.text), entries, index);
    }
    assert entries[..|entries|] == entries;
    Bracketed(old(output.text), "{", Joined(EntryTexts(entries)), "}");
    output.text := output.text + "}";
    return Success(());
  }

  // ----- limits -----

  /** `validate_limits` finds nothing to complain about. */
  predicate WithinLimits(v: Value, depth: nat)
    decreases v
  {
    depth <= MAX_JSON_DEPTH &&
    match v
    case String(text) => Utf8Length(text) <= MAX_STRING_BYTES
    case Number(lexeme) => Normalize(lexeme).Success?
    case Array(items) => |items| <= MAX_COLLECTION_ITEMS && forall i :: 0 <= i < |items| ==> WithinLimits(items[i], depth + 1)
    case Object(fields) =>
      |fields| <= MAX_COLLECTION_ITEMS
      && forall k :: k in fields ==> Utf8Length(k) <= MAX_STRING_BYTES && WithinLimits(fields[k], depth + 1)
    case _ => true
  }

  lemma {:induction false} WithinLimitsIsNormalizable(v: Value, depth: nat)
    requires WithinLimits(v, depth)
    ensures Normalizable(v)
    decreases v
  {
    match v {
      case Array(items) =>
        forall i | 0 <= i < |items| ensures Normalizable(items[i]) { WithinLimitsIsNormalizable(items[i], depth + 1); }
      case Object(fields) =>
        forall k | k in fields ensures Normalizable(fields[k]) { WithinLimitsIsNormalizable(fields[k], depth + 1); }
      case _ =>
    }
  }

  /** A step from a value to one inside it. */
  datatype Step = Item(index: nat) | Member(key: string)

  function Inside(v: Value, step: Step): Option<Value>
  {
    match (v, step)
    case (Array(items), Item(index)) => if index < |items| then Some(items[index]) else None
    case (Object(fields), Member(key)) => if key in fields then Some(fields[key]) else None
    case _ => None
  }

  function At(v: Value, path: seq<Step>): Option<Value>
  {
    if path == [] then Some(v)
    else if Inside(v, path[0]).None? then None
    else At(Inside(v, path[0]).value, path[1..])
  }

  /** The limits of one value, whatever is inside it. */
  predicate FitsAlone(v: Value)
  {
    match v
    case String(text) => Utf8Length(text) <= MAX_STRING_BYTES
    case Number(lexeme) => Normalize(lexeme).Success?
    case Array(items) => |items| <= MAX_COLLECTION_ITEMS
    case Object(fields) => |fields| <= MAX_COLLECTION_ITEMS && forall k :: k in fields ==> Utf8Length(k) <= MAX_STRING_BYTES
    case _ => true
  }

  /** Every value inside is at most `MAX_JSON_DEPTH` steps away, `depth` steps taken already, and fits alone. */
  ghost predicate FitsEverywhere(v: Value, depth: nat)
  {
    forall path :: At(v, path).Some? ==> FitsAt(v, depth, path)
  }

  predicate FitsAt(v: Value, depth: nat, path: seq<Step>)
    requires At(v, path).Some?
  {
    depth + |path| <= MAX_JSON_DEPTH && FitsAlone(At(v, path).value)
  }

  lemma {:induction false} FitsInside(v: Value, depth: nat)
    ensures FitsEverywhere(v, depth)
       <==> depth <= MAX_JSON_DEPTH && FitsAlone(v)
            && forall step :: Inside(v, step).Some? ==> FitsEverywhere(Inside(v, step).value, depth + 1)
  {
    hide FitsAlone, Inside;
    assert At(v, []) == Some(v);
    if FitsEverywhere(v, depth) {
      assert FitsAt(v, depth, []);
      forall step, path | Inside(v, step).Some? && At(Inside(v, step).value, path).Some?
        ensures FitsAt(Inside(v, step).value, depth + 1, path)
      {
        assert ([step] + path)[1..] == path;
        assert FitsAt(v, depth, [step] + path);
      }
    }
    if depth <= MAX_JSON_DEPTH && FitsAlone(v)
        && forall step :: Inside(v, step).Some? ==> FitsEverywhere(Inside(v, step).value, depth + 1) {
      forall path | At(v, path).Some? ensures FitsAt(v, depth, path) {
        if path != [] {
          assert FitsAt(Inside(v, path[0]).value, depth + 1, path[1..]);
        }
      }
    }
  }

  /**
   The limits hold exactly when every value reached by a path of items and
   members keeps its own limits and the path has at most `MAX_JSON_DEPTH` steps.
   */
  lemma {:induction false} LimitsByPath(v: Value, depth: nat)
    ensures WithinLimits(v, depth) <==> FitsEverywhere(v, depth)
    decreases v
  {
    hide FitsEverywhere, Utf8Length, Normalize;
    FitsInside(v, depth);
    match v {
      case Array(items) =>
        forall i | 0 <= i < |items| ensures WithinLimits(items[i], depth + 1) <==> FitsEverywhere(items[i], depth + 1) {
          LimitsByPath(items[i], depth + 1);
        }
        InsideArray(items, depth + 1);
      case Object(fields) =>
        forall k | k in fields ensures WithinLimits(fields[k], depth + 1) <==> FitsEverywhere(fields[k], depth + 1) {
          LimitsByPath(fields[k], depth + 1);
        }
        InsideObject(fields, depth + 1);
      case _ =>
    }
  }

  lemma {:induction false} InsideArray(items: seq<Value>, depth: nat)
    ensures (forall step :: Inside(Array(items), step).Some? ==> FitsEverywhere(Inside(Array(items), step).value, depth))
       <==> (forall i :: 0 <= i < |items| ==> FitsEverywhere(items[i], depth))
  {
    hide FitsEverywhere;
    assert forall i :: 0 <= i < |items| ==> Inside(Array(items), Item(i)) == Some(items[i]);
  }

  lemma {:induction false} InsideObject(fields: map<string, Value>, depth: nat)
    ensures (forall step :: Inside(Object(fields), step).Some? ==> FitsEverywhere(Inside(Object(fields), step).value, depth))
       <==> (forall k :: k in fields ==> FitsEverywhere(fields[k], depth))
  {
    hide FitsEverywhere;
    assert forall k :: k in fields ==> Inside(Object(fields), Member(k)) == Some(fields[k]);
  }

  /** The canonical text exists and is not too long. */
  predicate HasCanonicalText(v: Value)
  {
    WithinLimits(v, 0) && (WithinLimitsIsNormalizable(v, 0); Utf8Length(Text(Normal(v))) <= MAX_JSON_BYTES)
  }

  // ----- the text without reference to the printer -----

  /** Keys in strictly ascending order of their UTF-8 bytes. */
  ghost predicate BytesAscend(keys: seq<string>)
  {
    forall i, j :: 0 <= i < j < |keys| ==> LexBefore(Utf8Bytes(keys[i]), Utf8Bytes(keys[j]))
  }

  function Labelled(keys: seq<string>, texts: seq<string>): seq<string>
    requires |keys| == |texts|
  {
    seq(|keys|, i requires 0 <= i < |keys| => Quote(keys[i]) + (":" + texts[i]))
  }

  ghost predicate ItemsPrint(v: Value, texts: seq<string>)
    requires v.Array?
    decreases v, 0
  {
    |v.items| == |texts| && forall i :: 0 <= i < |texts| ==> Prints(v.items[i], texts[i])
  }

  ghost predicate MembersPrint(v: Value, keys: seq<string>, texts: seq<string>)
    requires v.Object?
    decreases v, 0
  {
    && |keys| == |texts| && BytesAscend(keys) && (forall k :: k in keys <==> k in v.fields)
    && forall i :: 0 <= i < |keys| ==> keys[i] in keys && Prints(v.fields[keys[i]], texts[i])
  }

  /** A text of a value whose objects list their members by ascending bytes of the keys, at every depth. */
  ghost predicate Prints(v: Value, text: string)
    decreases v, 1
  {
    match v
    case Array(_) => exists texts :: ItemsPrint(v, texts) && text == "[" + (Joined(texts) + "]")
    case Object(_) =>
      exists keys, texts :: MembersPrint(v, keys, texts) && text == "{" + (Joined(Labelled(keys, texts)) + "}")
    case _ => text == Text(v)
  }

  lemma {:induction false} BytesAscendIsAscending(keys: seq<string>)
    ensures BytesAscend(keys) <==> Ascending(keys)
  {
    forall a, b ensures Before(a, b) <==> LexBefore(Utf8Bytes(a), Utf8Bytes(b)) {
      BeforeIsByteOrder(a, b);
    }
  }

  function MemberTexts(fields: map<string, Value>, keys: seq<string>): (r: seq<string>)
    requires forall k :: k in keys ==> k in fields
    ensures |r| == |keys|
  {
    seq(|keys|, i requires 0 <= i < |keys| => assert keys[i] in keys; Text(fields[keys[i]]))
  }

  lemma {:induction false} ObjectTextLabelled(fields: map<string, Value>)
    ensures var keys := SortedKeys(fields.Keys);
            Text(Object(fields)) == "{" + (Joined(Labelled(keys, MemberTexts(fields, keys))) + "}")
  {
    hide Joined, Quote, SortedKeys;
    var keys := SortedKeys(fields.Keys);
    assert Labelled(keys, MemberTexts(fields, keys)) == seq(|keys|, i requires 0 <= i < |keys| =>
        assert keys[i] in keys; Quote(keys[i]) + (":" + Text(fields[keys[i]])));
  }

  /** `Text` is the only such text. */
  lemma {:induction false} TextIsTheText(v: Value, text: string)
    ensures Prints(v, text) <==> text == Text(v)
    decreases v
  {
    match v {
      case Array(items) =>
        forall i, t | 0 <= i < |items| ensures Prints(items[i], t) <==> t == Text(items[i]) { TextIsTheText(items[i], t); }
        ArrayIsTheText(v, text);
      case Object(fields) =>
        forall k, t | k in fields ensures Prints(fields[k], t) <==> t == Text(fields[k]) { TextIsTheText(fields[k], t); }
        ObjectIsTheText(v, text);
      case _ =>
    }
  }

  lemma {:induction false} ArrayIsTheText(v: Value, text: string)
    requires v.Array? && forall i, t :: 0 <= i < |v.items| ==> (Prints(v.items[i], t) <==> t == Text(v.items[i]))
    ensures Prints(v, text) <==> text == Text(v)
  {
    hide Joined;
    var own := seq(|v.items|, i requires 0 <= i < |v.items| => Text(v.items[i]));
    assert Text(v) == "[" + (Joined(own) + "]");
    hide Text;
    assert ItemsPrint(v, own);
    forall texts | ItemsPrint(v, texts) ensures texts == own {
      forall i | 0 <= i < |texts| ensures texts[i] == own[i] {
        assert Prints(v.items[i], texts[i]);
      }
    }
  }

  lemma {:induction false} ObjectIsTheText(v: Value, text: string)
    requires v.Object? && forall k, t :: k in v.fields ==> (Prints(v.fields[k], t) <==> t == Text(v.fields[k]))
    ensures Prints(v, text) <==> text == Text(v)
  {
    hide Joined, Quote, BytesAscend, Text;
    var keys := SortedKeys(v.fields.Keys);
    var own := MemberTexts(v.fields, keys);
    ObjectTextLabelled(v.fields);
    BytesAscendIsAscending(keys);
    assert forall i :: 0 <= i < |keys| ==> keys[i] in keys;
    forall i | 0 <= i < |keys| ensures Prints(v.fields[keys[i]], own[i]) {
      assert own[i] == Text(v.fields[keys[i]]);
    }
    assert MembersPrint(v, keys, own);
    hide MemberTexts, SortedKeys, Labelled;
    forall others, texts | MembersPrint(v, others, texts) ensures others == keys && texts == own {
      OneMembersPrint(v, others, texts);
    }
  }

  lemma {:induction false} OneMembersPrint(v: Value, keys: seq<string>, texts: seq<string>)
    requires v.Object? && forall k, t :: k in v.fields ==> (Prints(v.fields[k], t) <==> t == Text(v.fields[k]))
    requires MembersPrint(v, keys, texts)
    ensures keys == SortedKeys(v.fields.Keys) && texts == MemberTexts(v.fields, keys)
  {
    hide BytesAscend, Text;
    BytesAscendIsAscending(keys);
    AscendingUnique(keys, SortedKeys(v.fields.Keys));
    forall i | 0 <= i < |texts| ensures texts[i] == MemberTexts(v.fields, keys)[i] {
      assert Prints(v.fields[keys[i]], texts[i]);
    }
  }

  datatype CanonicalError = JsonLimit

  /** `to_vec`, up to the encoding of the text as UTF-8. Once the limits hold, writing cannot fail. */
  method ToVec(value: Value) returns (r: Result<string, CanonicalError>)
    ensures r.Success? <==> HasCanonicalText(value)
    ensures r.Success? ==> Normalizable(value) && r.value == Text(Normal(value)) && Prints(Normal(value), r.value)
  {
    hide Text, Normal, Utf8Length, Prints;
    if !WithinLimits(value, 0) {
      return Failure(JsonLimit);
    }
    WithinLimitsIsNormalizable(value, 0);
    var output := new Output();
    var written := WriteValue(value, output);
    assert written.Success?;
    assert "" + Text(Normal(value)) == Text(Normal(value));
    TextIsTheText(Normal(value), output.text);
    if Utf8Length(output.text) > MAX_JSON_BYTES {
      return Failure(JsonLimit);
    }
    return Success(output.text);
  }
}
