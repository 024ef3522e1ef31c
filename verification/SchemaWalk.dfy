/**
 The bounded traversal of a JSON Schema document (`walk` and `check_ref` in
 `schema.rs`). Its state is shared by all levels: the number of schemas seen,
 the set of references and the list of issues.

 A path is the list of tokens whose JSON Pointer the source reports.
 */
module SchemaWalk {
  import opened Json
  import opened Wrappers
  import opened TextBasics

  datatype Token = Key(name: string) | Index(i: nat)

  type Path = seq<Token>

  datatype Code =
    | StructureLimit | NotObjectOrBoolean | UnsupportedKeyword | DialectMismatch
    | RefNotString | RemoteRef | TooManyRefs | RegexTooLong | UnsupportedFormat

  datatype Issue = Issue(code: Code, path: Path)

  /** `JsonSchemaLimits`. */
  datatype Limits = Limits(
    schemaBytes: nat, schemaNodes: nat, schemaDepth: nat, localRefs: nat, refDepth: nat, regexBytes: nat,
    instanceBytes: nat, instanceDepth: nat, collectionItems: nat, stringBytes: nat, numberDigits: nat,
    numberExponentMagnitude: nat, validationErrors: nat, validationFuel: nat)

  predicate FitsWithin(a: Limits, cap: Limits)
  {
    && a.schemaBytes <= cap.schemaBytes && a.schemaNodes <= cap.schemaNodes && a.schemaDepth <= cap.schemaDepth
    && a.localRefs <= cap.localRefs && a.refDepth <= cap.refDepth && a.regexBytes <= cap.regexBytes
    && a.instanceBytes <= cap.instanceBytes && a.instanceDepth <= cap.instanceDepth
    && a.collectionItems <= cap.collectionItems && a.stringBytes <= cap.stringBytes
    && a.numberDigits <= cap.numberDigits && a.numberExponentMagnitude <= cap.numberExponentMagnitude
    && a.validationErrors <= cap.validationErrors && a.validationFuel <= cap.validationFuel
  }

  datatype Rules = Rules(dialect: string, limits: Limits)

  // ----- keywords -----

  predicate IsAllowed(key: string)
  {
    key in {
      "$schema", "$defs", "$ref", "type", "enum", "const", "multipleOf", "minimum", "maximum", "exclusiveMinimum",
      "exclusiveMaximum", "minLength", "maxLength", "pattern", "format", "properties", "required",
      "additionalProperties", "patternProperties", "propertyNames", "minProperties", "maxProperties",
      "prefixItems", "items", "contains", "minContains", "maxContains", "minItems", "maxItems", "uniqueItems",
      "allOf", "anyOf", "oneOf", "not", "if", "then", "else", "dependentRequired", "dependentSchemas", "title",
      "description", "default", "examples", "deprecated", "readOnly", "writeOnly", "$comment"
    }
  }

  predicate IsSupportedFormat(format: string)
  {
    format in {
      "date-time", "date", "time", "duration", "email", "hostname", "ipv4", "ipv6", "uuid", "uri",
      "uri-reference", "json-pointer"
    }
  }

  /** The vocabularies of JSON Schema 2020-12 that are supported, section by section. */
  const CORE := {"$schema", "$ref", "$comment", "$defs"}
  const APPLICATORS := {
    "allOf", "anyOf", "oneOf", "not", "if", "then", "else", "dependentSchemas", "prefixItems", "items", "contains",
    "properties", "patternProperties", "additionalProperties", "propertyNames"
  }
  const VALIDATION := {
    "type", "enum", "const", "multipleOf", "maximum", "exclusiveMaximum", "minimum", "exclusiveMinimum", "maxLength",
    "minLength", "pattern", "maxItems", "minItems", "uniqueItems", "maxContains", "minContains", "maxProperties",
    "minProperties", "required", "dependentRequired"
  }
  const ANNOTATIONS := {"title", "description", "default", "deprecated", "readOnly", "writeOnly", "examples", "format"}

  /**
   Allowed are the keywords of the applicator, validation, format and
   meta-data vocabularies and four core keywords; identifiers, anchors,
   dynamic references, unevaluated locations and encoded contents are not.
   */
  lemma {:induction false} AllowedByVocabulary(key: string)
    ensures IsAllowed(key) <==> key in CORE || key in APPLICATORS || key in VALIDATION || key in ANNOTATIONS
  {
  }

  /** Local references are the root and pointers into its definitions. */
  lemma {:induction false} LocalReferences(reference: string)
    ensures IsLocal(reference) <==> reference == "#" || exists name :: reference == "#/$defs/" + name
  {
    if IsLocal(reference) && reference != "#" {
      assert reference == "#/$defs/" + reference[8..];
    }
    forall name | reference == "#/$defs/" + name ensures IsLocal(reference) {
      assert reference[..8] == "#/$defs/";
    }
  }

  /** How the value of a keyword holds subschemas. */
  datatype Shape = Leaf | One | ByName | ByIndex

  function WalkedShape(key: string): Shape
  {
    if key in {"$defs", "properties", "patternProperties", "dependentSchemas"} then ByName
    else if key in {"allOf", "anyOf", "oneOf", "prefixItems"} then ByIndex
    else if key in {"items", "contains", "not", "if", "then", "else", "propertyNames"} then One
    else Leaf
  }

  predicate IsLocal(reference: string)
  {
    reference == "#" || (|reference| >= 8 && reference[..8] == "#/$defs/")
  }

  // ----- the traversal -----

  datatype State = State(nodes: nat, refs: set<string>, issues: seq<Issue>)

  function Report(s: State, code: Code, path: Path): State
  {
    s.(issues := s.issues + [Issue(code, path)])
  }

  function CheckRef(v: Value, path: Path, rules: Rules, s: State): State
  {
    if !v.String? then Report(s, RefNotString, path)
    else
      var checked := if IsLocal(v.text) then s else Report(s, RemoteRef, path);
      var added := checked.(refs := s.refs + {v.text});
      if |added.refs| > rules.limits.localRefs then Report(added, TooManyRefs, path) else added
  }

  datatype Child = Child(suffix: Path, value: Value)

  function ByNames(key: string, fields: map<string, Value>, names: seq<string>): (r: seq<Child>)
    requires forall name :: name in names ==> name in fields
    ensures |r| == |names|
  {
    seq(|names|, i requires 0 <= i < |names| => Child([Key(key), Key(names[i])], fields[names[i]]))
  }

  function ByIndices(key: string, items: seq<Value>): (r: seq<Child>)
    ensures |r| == |items|
  {
    seq(|items|, i requires 0 <= i < |items| => Child([Key(key), Index(i)], items[i]))
  }

  /** The schemas directly inside the value of a keyword, in the order of the walk. */
  function Children(key: string, v: Value): (r: seq<Child>)
    ensures r == [Child([Key(key)], v)] || Inside(r, v)
  {
    match WalkedShape(key)
    case ByName => if v.Object? then ByNames(key, v.fields, SortedKeys(v.fields.Keys)) else []
    case ByIndex => if v.Array? then ByIndices(key, v.items) else []
    case One => [Child([Key(key)], v)]
    case Leaf => []
  }

  ghost predicate Inside(children: seq<Child>, v: Value)
  {
    forall i :: 0 <= i < |children| ==> children[i].value < v
  }

  function Walk(v: Value, path: Path, depth: nat, rules: Rules, s: State): State
    decreases v, 2, 0
  {
    var here := s.(nodes := s.nodes + 1);
    if here.nodes > rules.limits.schemaNodes || depth > rules.limits.schemaDepth then Report(here, StructureLimit, path)
    else if v.Bool? then here
    else if !v.Object? then Report(here, NotObjectOrBoolean, path)
    else WalkFields(v, SortedKeys(v.fields.Keys), path, depth, rules, here)
  }

  function WalkFields(v: Value, keys: seq<string>, path: Path, depth: nat, rules: Rules, s: State): State
    requires v.Object? && forall key :: key in keys ==> key in v.fields
    decreases v, 1, |keys|
  {
    if keys == [] then s
    else
      WalkField(v, keys[|keys| - 1], path, depth, rules, WalkFields(v, keys[..|keys| - 1], path, depth, rules, s))
  }

  function WalkField(v: Value, key: string, path: Path, depth: nat, rules: Rules, s: State): State
    requires v.Object? && key in v.fields
    decreases v, 1, 0
  {
    var child := v.fields[key];
    var at := path + [Key(key)];
    if !IsAllowed(key) then Report(s, UnsupportedKeyword, at)
    else if key == "$schema" then if child == String(rules.dialect) then s else Report(s, DialectMismatch, at)
    else if key == "$ref" then CheckRef(child, at, rules, s)
    else if key == "pattern" then
      if child.String? && Utf8Length(child.text) > rules.limits.regexBytes then Report(s, RegexTooLong, at) else s
    else if key == "format" then
      if child.String? && IsSupportedFormat(child.text) then s else Report(s, UnsupportedFormat, at)
    else WalkChildren(v, Children(key, child), path, depth, rules, s)
  }

  function WalkChildren(v: Value, children: seq<Child>, path: Path, depth: nat, rules: Rules, s: State): State
    requires Inside(children, v)
    decreases v, 0, |children|
  {
    if children == [] then s
    else
      var last := children[|children| - 1];
      Walk(last.value, path + last.suffix, depth + 1, rules,
           WalkChildren(v, children[..|children| - 1], path, depth, rules, s))
  }

  // ----- what a document holds, whatever the order of the walk -----

  /** Positions of schemas, references, and whether every position is acceptable by itself. */
  datatype Survey = Survey(places: multiset<Path>, refs: set<string>, fine: bool)

  const NOTHING := Survey(multiset{}, {}, true)

  function Plus(a: Survey, b: Survey): Survey
  {
    Survey(a.places + b.places, a.refs + b.refs, a.fine && b.fine)
  }

  predicate FieldFine(v: Value, key: string, rules: Rules)
    requires v.Object? && key in v.fields
  {
    var child := v.fields[key];
    && IsAllowed(key)
    && (key == "$schema" ==> child == String(rules.dialect))
    && (key == "$ref" ==> child.String? && IsLocal(child.text))
    && (key == "pattern" && child.String? ==> Utf8Length(child.text) <= rules.limits.regexBytes)
    && (key == "format" ==> child.String? && IsSupportedFormat(child.text))
  }

  function RefOf(v: Value, key: string): set<string>
    requires v.Object? && key in v.fields
  {
    if key == "$ref" && v.fields[key].String? then {v.fields[key].text} else {}
  }

  function Look(v: Value, path: Path, depth: nat, rules: Rules): Survey
    decreases v, 2, 0
  {
    var here := Survey(multiset{path}, {}, depth <= rules.limits.schemaDepth && (v.Bool? || v.Object?));
    if v.Object? then Plus(here, LookFields(v, SortedKeys(v.fields.Keys), path, depth, rules)) else here
  }

  function LookFields(v: Value, keys: seq<string>, path: Path, depth: nat, rules: Rules): Survey
    requires v.Object? && forall key :: key in keys ==> key in v.fields
    decreases v, 1, |keys|
  {
    if keys == [] then NOTHING
    else Plus(LookFields(v, keys[..|keys| - 1], path, depth, rules), LookField(v, keys[|keys| - 1], path, depth, rules))
  }

  function LookField(v: Value, key: string, path: Path, depth: nat, rules: Rules): Survey
    requires v.Object? && key in v.fields
    decreases v, 1, 0
  {
    Plus(Survey(multiset{}, RefOf(v, key), FieldFine(v, key, rules)),
         LookChildren(v, Children(key, v.fields[key]), path, depth, rules))
  }

  function LookChildren(v: Value, children: seq<Child>, path: Path, depth: nat, rules: Rules): Survey
    requires Inside(children, v)
    decreases v, 0, |children|
  {
    if children == [] then NOTHING
    else
      var last := children[|children| - 1];
      Plus(LookChildren(v, children[..|children| - 1], path, depth, rules), Look(last.value, path + last.suffix, depth + 1, rules))
  }

  // ----- the walk reports an issue exactly when the survey shows one -----

  predicate Clean(before: State, after: State)
  {
    |after.issues| == |before.issues|
  }

  /** From `before` the surveyed part causes no issue. */
  predicate Affordable(before: State, f: Survey, limits: Limits)
  {
    f.fine && before.nodes + |f.places| <= limits.schemaNodes && |before.refs + f.refs| <= limits.localRefs
  }

  predicate Grew(before: State, after: State)
  {
    |after.issues| >= |before.issues| && after.nodes >= before.nodes
  }

  /** Relation between the state before and after a part of the walk and the survey of that part. */
  predicate Agrees(before: State, after: State, f: Survey, limits: Limits)
  {
    && Grew(before, after)
    && (Clean(before, after) <==> Affordable(before, f, limits))
    && (Clean(before, after) ==>
          after.nodes == before.nodes + |f.places| && after.refs == before.refs + f.refs && after.issues == before.issues)
  }

  predicate Within(s: State, limits: Limits)
  {
    |s.refs| <= limits.localRefs && s.nodes <= limits.schemaNodes
  }

  lemma {:induction false} SubsetSize(a: set<string>, b: set<string>)
    requires a <= b
    ensures |a| <= |b|
  {
    if a != {} {
      var x :| x in a;
      SubsetSize(a - {x}, b - {x});
    }
  }

  lemma {:induction false} AgreesWithNothing(s: State, limits: Limits)
    requires Within(s, limits)
    ensures Agrees(s, s, NOTHING, limits)
  {
    assert s.refs + {} == s.refs;
  }

  /** Two parts in a row. */
  lemma {:induction false} AgreesInSequence(a: State, b: State, c: State, f: Survey, g: Survey, limits: Limits)
    requires Within(a, limits) && Agrees(a, b, f, limits)
    requires Grew(b, c) && (Within(b, limits) ==> Agrees(b, c, g, limits))
    ensures Agrees(a, c, Plus(f, g), limits)
  {
    var refs := a.refs + (f.refs + g.refs);
    assert refs == a.refs + f.refs + g.refs;
    SubsetSize(a.refs + f.refs, refs);
    assert |f.places + g.places| == |f.places| + |g.places|;
  }

  lemma {:induction false} WalkGrows(v: Value, path: Path, depth: nat, rules: Rules, s: State)
    ensures Grew(s, Walk(v, path, depth, rules, s))
    decreases v, 2, 0
  {
    var here := s.(nodes := s.nodes + 1);
    if v.Object? {
      FieldsGrow(v, SortedKeys(v.fields.Keys), path, depth, rules, here);
    }
  }

  lemma {:induction false} FieldsGrow(v: Value, keys: seq<string>, path: Path, depth: nat, rules: Rules, s: State)
    requires v.Object? && forall key :: key in keys ==> key in v.fields
    ensures Grew(s, WalkFields(v, keys, path, depth, rules, s))
    decreases v, 1, |keys|
  {
    if keys != [] {
      FieldsGrow(v, keys[..|keys| - 1], path, depth, rules, s);
      FieldGrows(v, keys[|keys| - 1], path, depth, rules, WalkFields(v, keys[..|keys| - 1], path, depth, rules, s));
    }
  }

  lemma {:induction false} FieldGrows(v: Value, key: string, path: Path, depth: nat, rules: Rules, s: State)
    requires v.Object? && key in v.fields
    ensures Grew(s, WalkField(v, key, path, depth, rules, s))
    decreases v, 1, 0
  {
    hide IsAllowed, IsSupportedFormat, Utf8Length, IsLocal, Children;
    ChildrenGrow(v, Children(key, v.fields[key]), path, depth, rules, s);
  }

  lemma {:induction false} ChildrenGrow(v: Value, children: seq<Child>, path: Path, depth: nat, rules: Rules, s: State)
    requires Inside(children, v)
    ensures Grew(s, WalkChildren(v, children, path, depth, rules, s))
    decreases v, 0, |children|
  {
    if children != [] {
      var init, last := children[..|children| - 1], children[|children| - 1];
      ChildrenGrow(v, init, path, depth, rules, s);
      WalkGrows(last.value, path + last.suffix, depth + 1, rules, WalkChildren(v, init, path, depth, rules, s));
    }
  }

  lemma {:induction false} OneReport(s: State, code: Code, path: Path, f: Survey, limits: Limits)
    requires !f.fine || s.nodes + |f.places| > limits.schemaNodes
    ensures Agrees(s, Report(s, code, path), f, limits)
    ensures Agrees(s, Report(s.(nodes := s.nodes + 1), code, path), f, limits)
  {
  }

  lemma {:induction false} LookCountsItself(v: Value, path: Path, depth: nat, rules: Rules)
    ensures |Look(v, path, depth, rules).places| >= 1
    ensures Look(v, path, depth, rules).fine ==> depth <= rules.limits.schemaDepth && (v.Bool? || v.Object?)
  {
    hide LookFields;
    assert |multiset{path}| == 1;
    if v.Object? {
      var more := LookFields(v, SortedKeys(v.fields.Keys), path, depth, rules);
      assert |multiset{path} + more.places| == 1 + |more.places|;
    }
  }

  /** Positions that are not walked further: the limits are exceeded or there is no object. */
  lemma {:induction false} EndAgrees(v: Value, path: Path, depth: nat, rules: Rules, s: State)
    requires Within(s, rules.limits)
    requires s.nodes + 1 > rules.limits.schemaNodes || depth > rules.limits.schemaDepth || !v.Object?
    ensures Agrees(s, Walk(v, path, depth, rules, s), Look(v, path, depth, rules), rules.limits)
  {
    hide WalkFields, LookFields, Agrees;
    var f := Look(v, path, depth, rules);
    LookCountsItself(v, path, depth, rules);
    if s.nodes + 1 > rules.limits.schemaNodes || depth > rules.limits.schemaDepth {
      OneReport(s, StructureLimit, path, f, rules.limits);
    } else if v.Bool? {
      HereAgrees(path, s, rules.limits);
    } else {
      OneReport(s, NotObjectOrBoolean, path, f, rules.limits);
    }
  }

  /** The position itself, before its members are walked. */
  lemma {:induction false} HereAgrees(path: Path, s: State, limits: Limits)
    requires Within(s, limits) && s.nodes + 1 <= limits.schemaNodes
    ensures Agrees(s, s.(nodes := s.nodes + 1), Survey(multiset{path}, {}, true), limits)
  {
    assert s.refs + {} == s.refs;
    assert |multiset{path}| == 1;
  }

  lemma {:induction false} ObjectUnfolds(v: Value, path: Path, depth: nat, rules: Rules, s: State)
    requires v.Object? && s.nodes + 1 <= rules.limits.schemaNodes && depth <= rules.limits.schemaDepth
    ensures Walk(v, path, depth, rules, s)
         == WalkFields(v, SortedKeys(v.fields.Keys), path, depth, rules, s.(nodes := s.nodes + 1))
    ensures Look(v, path, depth, rules)
         == Plus(Survey(multiset{path}, {}, true), LookFields(v, SortedKeys(v.fields.Keys), path, depth, rules))
  {
    hide WalkFields, LookFields, Plus;
  }

  lemma {:induction false} WalkAgrees(v: Value, path: Path, depth: nat, rules: Rules, s: State)
    requires Within(s, rules.limits)
    ensures Agrees(s, Walk(v, path, depth, rules, s), Look(v, path, depth, rules), rules.limits)
    decreases v, 2, 0
  {
    hide Walk, Look, WalkFields, LookFields, Agrees, Grew, Plus;
    if s.nodes + 1 > rules.limits.schemaNodes || depth > rules.limits.schemaDepth || !v.Object? {
      EndAgrees(v, path, depth, rules, s);
    } else {
      var here, keys := s.(nodes := s.nodes + 1), SortedKeys(v.fields.Keys);
      ObjectUnfolds(v, path, depth, rules, s);
      HereAgrees(path, s, rules.limits);
      FieldsGrow(v, keys, path, depth, rules, here);
      FieldsAgree(v, keys, path, depth, rules, here);
      AgreesInSequence(s, here, WalkFields(v, keys, path, depth, rules, here), Survey(multiset{path}, {}, true), LookFields(v, keys, path, depth, rules), rules.limits);
    }
  }

  lemma {:induction false} FieldsAgree(v: Value, keys: seq<string>, path: Path, depth: nat, rules: Rules, s: State)
    requires v.Object? && forall key :: key in keys ==> key in v.fields
    requires Within(s, rules.limits)
    ensures Agrees(s, WalkFields(v, keys, path, depth, rules, s), LookFields(v, keys, path, depth, rules), rules.limits)
    decreases v, 1, |keys|
  {
    hide WalkField, LookField, Agrees, Grew;
    if keys == [] {
      AgreesWithNothing(s, rules.limits);
    } else {
      var init, last := keys[..|keys| - 1], keys[|keys| - 1];
      var b := WalkFields(v, init, path, depth, rules, s);
      FieldsAgree(v, init, path, depth, rules, s);
      FieldGrows(v, last, path, depth, rules, b);
      if Within(b, rules.limits) {
        FieldAgrees(v, last, path, depth, rules, b);
      }
      AgreesInSequence(s, b, WalkField(v, last, path, depth, rules, b),
                       LookFields(v, init, path, depth, rules), LookField(v, last, path, depth, rules), rules.limits);
    }
  }

  lemma {:induction false} RefAgrees(v: Value, path: Path, rules: Rules, s: State)
    requires Within(s, rules.limits)
    ensures Agrees(s, CheckRef(v, path, rules, s),
                   Survey(multiset{}, if v.String? then {v.text} else {}, v.String? && IsLocal(v.text)), rules.limits)
  {
    hide IsLocal;
    assert s.refs + {} == s.refs;
  }

  function FaultCode(v: Value, key: string, rules: Rules): Code
  {
    if !IsAllowed(key) then UnsupportedKeyword
    else if key == "$schema" then DialectMismatch
    else if key == "pattern" then RegexTooLong
    else UnsupportedFormat
  }

  /** Keywords without subschemas, other than references. */
  lemma {:induction false} PlainAgrees(v: Value, key: string, path: Path, depth: nat, rules: Rules, s: State)
    requires v.Object? && key in v.fields && key != "$ref" && Within(s, rules.limits)
    requires WalkedShape(key).Leaf?
    ensures RefOf(v, key) == {}
    ensures FieldFine(v, key, rules) ==> WalkField(v, key, path, depth, rules, s) == s
    ensures !FieldFine(v, key, rules) ==>
              WalkField(v, key, path, depth, rules, s) == Report(s, FaultCode(v, key, rules), path + [Key(key)])
  {
    hide IsAllowed, IsSupportedFormat, Utf8Length, IsLocal;
  }

  lemma {:induction false} RefIsChecked(v: Value, key: string, path: Path, depth: nat, rules: Rules, s: State)
    requires v.Object? && key in v.fields && key == "$ref"
    ensures RefOf(v, key) == if v.fields[key].String? then {v.fields[key].text} else {}
    ensures FieldFine(v, key, rules) <==> v.fields[key].String? && IsLocal(v.fields[key].text)
    ensures WalkField(v, key, path, depth, rules, s) == CheckRef(v.fields[key], path + [Key(key)], rules, s)
  {
    assert IsAllowed("$ref");
    hide IsAllowed, IsLocal, CheckRef;
  }

  /** Keywords without subschemas. */
  lemma {:induction false} LeafAgrees(v: Value, key: string, path: Path, depth: nat, rules: Rules, s: State)
    requires v.Object? && key in v.fields && Within(s, rules.limits)
    requires WalkedShape(key).Leaf?
    ensures Agrees(s, WalkField(v, key, path, depth, rules, s), Survey(multiset{}, RefOf(v, key), FieldFine(v, key, rules)), rules.limits)
  {
    hide IsAllowed, WalkedShape, WalkField, FieldFine, RefOf, CheckRef, IsLocal, Agrees;
    if key == "$ref" {
      RefIsChecked(v, key, path, depth, rules, s);
      RefAgrees(v.fields[key], path + [Key(key)], rules, s);
    } else {
      PlainAgrees(v, key, path, depth, rules, s);
      if FieldFine(v, key, rules) {
        AgreesWithNothing(s, rules.limits);
      } else {
        OneReport(s, FaultCode(v, key, rules), path + [Key(key)], Survey(multiset{}, {}, false), rules.limits);
      }
    }
  }

  lemma PlusNothing(f: Survey)
    ensures Plus(f, NOTHING) == f && Plus(NOTHING, f) == f
  {
  }

  lemma {:induction false} ShapeIsAllowed(key: string)
    requires !WalkedShape(key).Leaf?
    ensures IsAllowed(key) && key !in {"$schema", "$ref", "pattern", "format"}
  {
  }

  lemma {:induction false} LeafLooks(v: Value, key: string, path: Path, depth: nat, rules: Rules)
    requires v.Object? && key in v.fields && WalkedShape(key).Leaf?
    ensures LookField(v, key, path, depth, rules) == Survey(multiset{}, RefOf(v, key), FieldFine(v, key, rules))
  {
    hide WalkedShape, RefOf, FieldFine, Plus;
    PlusNothing(Survey(multiset{}, RefOf(v, key), FieldFine(v, key, rules)));
  }

  /** A keyword with subschemas is its subschemas and nothing else. */
  lemma {:induction false} ApplicatorLooks(v: Value, key: string, path: Path, depth: nat, rules: Rules, s: State)
    requires v.Object? && key in v.fields && !WalkedShape(key).Leaf?
    ensures WalkField(v, key, path, depth, rules, s) == WalkChildren(v, Children(key, v.fields[key]), path, depth, rules, s)
    ensures LookField(v, key, path, depth, rules) == LookChildren(v, Children(key, v.fields[key]), path, depth, rules)
  {
    ShapeIsAllowed(key);
    hide WalkedShape, IsAllowed, Children, WalkChildren, LookChildren, Plus;
    PlusNothing(LookChildren(v, Children(key, v.fields[key]), path, depth, rules));
  }

  lemma {:induction false} FieldAgrees(v: Value, key: string, path: Path, depth: nat, rules: Rules, s: State)
    requires v.Object? && key in v.fields && Within(s, rules.limits)
    ensures Agrees(s, WalkField(v, key, path, depth, rules, s), LookField(v, key, path, depth, rules), rules.limits)
    decreases v, 1, 0
  {
    hide Agrees, RefOf, FieldFine, Plus, WalkedShape, WalkField, LookField, Children;
    var children := Children(key, v.fields[key]);
    if WalkedShape(key).Leaf? {
      LeafAgrees(v, key, path, depth, rules, s);
      LeafLooks(v, key, path, depth, rules);
    } else {
      ChildrenAgree(v, children, path, depth, rules, s);
      ApplicatorLooks(v, key, path, depth, rules, s);
    }
  }

  lemma {:induction false} ChildrenAgree(v: Value, children: seq<Child>, path: Path, depth: nat, rules: Rules, s: State)
    requires Inside(children, v) && Within(s, rules.limits)
    ensures Agrees(s, WalkChildren(v, children, path, depth, rules, s), LookChildren(v, children, path, depth, rules), rules.limits)
    decreases v, 0, |children|
  {
    hide Walk, Look, Agrees, Grew;
    if children == [] {
      AgreesWithNothing(s, rules.limits);
    } else {
      var init, last := children[..|children| - 1], children[|children| - 1];
      var b := WalkChildren(v, init, path, depth, rules, s);
      ChildrenAgree(v, init, path, depth, rules, s);
      WalkGrows(last.value, path + last.suffix, depth + 1, rules, b);
      if Within(b, rules.limits) {
        WalkAgrees(last.value, path + last.suffix, depth + 1, rules, b);
      }
      AgreesInSequence(s, b, Walk(last.value, path + last.suffix, depth + 1, rules, b),
                       LookChildren(v, init, path, depth, rules), Look(last.value, path + last.suffix, depth + 1, rules), rules.limits);
    }
  }

  // ----- positions of schemas -----

  /** Where JSON Schema Core 2020-12 has subschemas: definitions, section 8.2.4, and the applicators of section 10. */
  function StandardShape(key: string): Shape
  {
    match key
    // section 8.2.4
    case "$defs" => ByName
    // section 10.2
    case "allOf" | "anyOf" | "oneOf" => ByIndex
    case "not" | "if" | "then" | "else" => One
    case "dependentSchemas" => ByName
    // section 10.3.1
    case "prefixItems" => ByIndex
    case "items" | "contains" => One
    // section 10.3.2
    case "properties" | "patternProperties" => ByName
    case "additionalProperties" | "propertyNames" => One
    case _ => Leaf
  }

  /** The walk knows every applicator of the standard but one. */
  lemma {:induction false} ShapesCompared(key: string)
    ensures WalkedShape(key) == if key == "additionalProperties" then Leaf else StandardShape(key)
    ensures StandardShape("additionalProperties") == One
  {
  }

  lemma {:induction false} AllShapes()
    ensures forall key :: WalkedShape(key) == if key == "additionalProperties" then Leaf else StandardShape(key)
    ensures StandardShape("additionalProperties") == One
  {
    hide WalkedShape, StandardShape;
    forall key ensures WalkedShape(key) == if key == "additionalProperties" then Leaf else StandardShape(key) {
      ShapesCompared(key);
    }
    ShapesCompared("additionalProperties");
  }

  function ShapeOf(key: string, standard: bool): Shape
  {
    if standard then StandardShape(key) else WalkedShape(key)
  }

  /** The schema at a path that leads from schema to subschema, if it does. */
  function SchemaAt(v: Value, q: Path, standard: bool): Option<Value>
    decreases |q|
  {
    if q == [] then Some(v)
    else if !v.Object? || !q[0].Key? || q[0].name !in v.fields then None
    else
      var child := v.fields[q[0].name];
      match ShapeOf(q[0].name, standard)
      case Leaf => None
      case One => SchemaAt(child, q[1..], standard)
      case ByName =>
        if |q| > 1 && q[1].Key? && child.Object? && q[1].name in child.fields then
          SchemaAt(child.fields[q[1].name], q[2..], standard)
        else None
      case ByIndex =>
        if |q| > 1 && q[1].Index? && child.Array? && q[1].i < |child.items| then
          SchemaAt(child.items[q[1].i], q[2..], standard)
        else None
  }

  function Bit(b: bool): nat
  {
    if b then 1 else 0
  }

  predicate IsPrefix(a: Path, b: Path)
    ensures IsPrefix(a, b) ==> |a| <= |b|
  {
    |a| <= |b| && b[..|a|] == a
  }

  predicate StartsIn(q: Path, keys: seq<string>)
  {
    q != [] && q[0].Key? && q[0].name in keys
  }

  /** A subschema of `child` is reached by `q`. */
  predicate Reaches(child: Child, q: Path)
  {
    IsPrefix(child.suffix, q) && SchemaAt(child.value, q[|child.suffix|..], false).Some?
  }

  function Hits(children: seq<Child>, q: Path): nat
  {
    if children == [] then 0 else Hits(children[..|children| - 1], q) + Bit(Reaches(children[|children| - 1], q))
  }

  lemma {:induction false} PrefixSplits(path: Path, suffix: Path, p: Path)
    ensures IsPrefix(path + suffix, p) <==> IsPrefix(path, p) && IsPrefix(suffix, p[|path|..])
    ensures IsPrefix(path + suffix, p) ==> p[|path + suffix|..] == p[|path|..][|suffix|..]
  {
    if IsPrefix(path + suffix, p) {
      assert p[..|path|] == p[..|path + suffix|][..|path|] == path;
      assert p[|path|..][..|suffix|] == p[..|path + suffix|][|path|..] == suffix;
    }
    if IsPrefix(path, p) && IsPrefix(suffix, p[|path|..]) {
      assert p == path + p[|path|..] && p[|path|..] == suffix + p[|path|..][|suffix|..];
      assert p[..|path + suffix|] == path + suffix;
    }
  }

  lemma {:induction false} HitsByName(key: string, fields: map<string, Value>, names: seq<string>, q: Path)
    requires Ascending(names) && forall name :: name in names ==> name in fields
    ensures Hits(ByNames(key, fields, names), q)
         == Bit(|q| > 1 && q[0] == Key(key) && q[1].Key? && q[1].name in names
                && SchemaAt(fields[q[1].name], q[2..], false).Some?)
  {
    if names != [] {
      var init, last := names[..|names| - 1], names[|names| - 1];
      hide SchemaAt, Before;
      HitsByName(key, fields, init, q);
      BeforeIrreflexive(last);
      assert names == init + [last];
      assert ByNames(key, fields, names)[..|init|] == ByNames(key, fields, init);
      assert |q| > 1 ==> q[..2] == [q[0], q[1]];
      assert last !in init;
    }
  }

  lemma {:induction false} HitsByIndex(key: string, items: seq<Value>, n: nat, q: Path)
    requires n <= |items|
    ensures Hits(ByIndices(key, items)[..n], q)
         == Bit(|q| > 1 && q[0] == Key(key) && q[1].Index? && q[1].i < n && SchemaAt(items[q[1].i], q[2..], false).Some?)
  {
    if n > 0 {
      hide SchemaAt;
      HitsByIndex(key, items, n - 1, q);
      assert ByIndices(key, items)[..n][..n - 1] == ByIndices(key, items)[..n - 1];
      assert |q| > 1 ==> q[..2] == [q[0], q[1]];
    }
  }

  /** Exactly one child of a keyword leads on along a path that leads to a schema. */
  lemma {:induction false} HitsChildren(v: Value, key: string, q: Path)
    requires v.Object? && key in v.fields
    ensures Hits(Children(key, v.fields[key]), q) == Bit(q != [] && q[0] == Key(key) && SchemaAt(v, q, false).Some?)
  {
    hide WalkedShape, Hits;
    var child := v.fields[key];
    match WalkedShape(key) {
      case ByName => if child.Object? { HitsByName(key, child.fields, SortedKeys(child.fields.Keys), q); } else { NoHits(q); }
      case ByIndex =>
        if child.Array? {
          HitsByIndex(key, child.items, |child.items|, q);
          assert ByIndices(key, child.items)[..|child.items|] == ByIndices(key, child.items);
        } else { NoHits(q); }
      case One => OneHit(key, child, q);
      case Leaf => NoHits(q);
    }
  }

  lemma NoHits(q: Path)
    ensures Hits([], q) == 0
  {
  }

  lemma {:induction false} OneHit(key: string, child: Value, q: Path)
    ensures Hits([Child([Key(key)], child)], q) == Bit(q != [] && q[0] == Key(key) && SchemaAt(child, q[1..], false).Some?)
  {
    hide SchemaAt;
    var children := [Child([Key(key)], child)];
    assert children[..0] == [];
    assert q != [] ==> q[..1] == [q[0]];
  }

  lemma {:induction false} LookCounts(v: Value, path: Path, depth: nat, rules: Rules, p: Path)
    ensures Look(v, path, depth, rules).places[p] == Bit(IsPrefix(path, p) && SchemaAt(v, p[|path|..], false).Some?)
    decreases v, 2, 0
  {
    hide LookFields, ShapeOf;
    assert IsPrefix(path, p) ==> p == path + p[|path|..];
    assert path[..|path|] == path && (p == path ==> p[|path|..] == []);
    assert multiset{path}[p] == Bit(IsPrefix(path, p) && p[|path|..] == []);
    if v.Object? {
      var keys := SortedKeys(v.fields.Keys);
      FieldsCount(v, keys, path, depth, rules, p);
    }
  }

  lemma {:induction false} FieldsCount(v: Value, keys: seq<string>, path: Path, depth: nat, rules: Rules, p: Path)
    requires v.Object? && Ascending(keys) && forall key :: key in keys ==> key in v.fields
    ensures LookFields(v, keys, path, depth, rules).places[p]
         == Bit(IsPrefix(path, p) && StartsIn(p[|path|..], keys) && SchemaAt(v, p[|path|..], false).Some?)
    decreases v, 1, |keys|
  {
    hide LookField, SchemaAt, Before, IsPrefix;
    if keys != [] {
      var init, last := keys[..|keys| - 1], keys[|keys| - 1];
      FieldsCount(v, init, path, depth, rules, p);
      FieldCounts(v, last, path, depth, rules, p);
      BeforeIrreflexive(last);
      assert keys == init + [last];
      assert last !in init;
    }
  }

  lemma {:induction false} FieldCounts(v: Value, key: string, path: Path, depth: nat, rules: Rules, p: Path)
    requires v.Object? && key in v.fields
    ensures LookField(v, key, path, depth, rules).places[p]
         == Bit(IsPrefix(path, p) && StartsIn(p[|path|..], [key]) && SchemaAt(v, p[|path|..], false).Some?)
    decreases v, 1, 0
  {
    hide SchemaAt, Children, FieldFine, RefOf, Hits;
    ChildrenCount(v, Children(key, v.fields[key]), path, depth, rules, p);
    if IsPrefix(path, p) {
      HitsChildren(v, key, p[|path|..]);
    }
  }

  lemma {:induction false} ChildrenCount(v: Value, children: seq<Child>, path: Path, depth: nat, rules: Rules, p: Path)
    requires Inside(children, v)
    ensures LookChildren(v, children, path, depth, rules).places[p]
         == if IsPrefix(path, p) then Hits(children, p[|path|..]) else 0
    decreases v, 0, |children|
  {
    if children != [] {
      var init, last := children[..|children| - 1], children[|children| - 1];
      ChildrenCount(v, init, path, depth, rules, p);
      LookCounts(last.value, path + last.suffix, depth + 1, rules, p);
      hide Look, SchemaAt, IsPrefix;
      PrefixSplits(path, last.suffix, p);
    }
  }

  // ----- what the survey says about single positions -----

  /** Number of schemas passed on the way along a path. */
  function Steps(q: Path): nat
  {
    if q == [] then 0
    else if |q| == 1 || (q[0].Key? && WalkedShape(q[0].name).One?) then 1 + Steps(q[1..])
    else 1 + Steps(q[2..])
  }

  /** A schema at some depth is acceptable by itself. */
  predicate SchemaFine(v: Value, depth: nat, rules: Rules)
  {
    && depth <= rules.limits.schemaDepth
    && (v.Bool? || v.Object?)
    && (v.Object? ==> forall key :: key in v.fields ==> FieldFine(v, key, rules))
  }

  predicate RefersTo(v: Value, r: string)
  {
    v.Object? && "$ref" in v.fields && v.fields["$ref"] == String(r)
  }

  /** What is looked for: a reference, or a schema that is not acceptable. */
  datatype Probe = Reference(r: string) | Fault

  predicate Meets(probe: Probe, v: Value, depth: nat, rules: Rules)
  {
    match probe
    case Reference(r) => RefersTo(v, r)
    case Fault => !SchemaFine(v, depth, rules)
  }

  predicate Shows(f: Survey, probe: Probe)
  {
    match probe
    case Reference(r) => r in f.refs
    case Fault => !f.fine
  }

  predicate MeetsAt(v: Value, q: Path, probe: Probe, depth: nat, rules: Rules)
  {
    SchemaAt(v, q, false).Some? && Meets(probe, SchemaAt(v, q, false).value, depth + Steps(q), rules)
  }

  /** Some walked position of `v` meets the probe. */
  ghost predicate Occurs(v: Value, probe: Probe, depth: nat, rules: Rules)
  {
    exists q :: MeetsAt(v, q, probe, depth, rules)
  }

  ghost predicate OccursInside(children: seq<Child>, probe: Probe, depth: nat, rules: Rules)
  {
    exists i :: 0 <= i < |children| && Occurs(children[i].value, probe, depth, rules)
  }

  lemma ShowsPlus(f: Survey, g: Survey, probe: Probe)
    ensures Shows(Plus(f, g), probe) <==> Shows(f, probe) || Shows(g, probe)
    ensures !Shows(NOTHING, probe)
  {
  }

  lemma {:induction false} OccursLast(children: seq<Child>, probe: Probe, depth: nat, rules: Rules)
    requires children != []
    ensures OccursInside(children, probe, depth, rules)
       <==> OccursInside(children[..|children| - 1], probe, depth, rules)
            || Occurs(children[|children| - 1].value, probe, depth, rules)
  {
    hide Occurs;
    assert forall i :: 0 <= i < |children| - 1 ==> children[i] == children[..|children| - 1][i];
  }

  lemma {:induction false} ChildrenShow(v: Value, children: seq<Child>, path: Path, depth: nat, rules: Rules, probe: Probe)
    requires Inside(children, v)
    ensures Shows(LookChildren(v, children, path, depth, rules), probe) <==> OccursInside(children, probe, depth + 1, rules)
    decreases v, 0, |children|
  {
    hide Occurs, Look, Shows, Plus;
    if children == [] {
      ShowsPlus(NOTHING, NOTHING, probe);
    } else {
      var init, last := children[..|children| - 1], children[|children| - 1];
      ChildrenShow(v, init, path, depth, rules, probe);
      LookShows(last.value, path + last.suffix, depth + 1, rules, probe);
      ShowsPlus(LookChildren(v, init, path, depth, rules), Look(last.value, path + last.suffix, depth + 1, rules), probe);
      OccursLast(children, probe, depth + 1, rules);
      hide OccursInside;
    }
  }

  lemma {:induction false} KeyHasIndex(keys: set<string>, key: string)
    requires key in keys
    ensures exists i :: 0 <= i < |SortedKeys(keys)| && SortedKeys(keys)[i] == key
  {
    assert key in SortedKeys(keys);
  }

  lemma {:induction false} StepByName(v: Value, q: Path) returns (i: nat)
    requires q != [] && SchemaAt(v, q, false).Some?
    requires v.Object? && q[0].Key? && q[0].name in v.fields && WalkedShape(q[0].name).ByName?
    ensures i < |Children(q[0].name, v.fields[q[0].name])| && |q| > 1
    ensures var child := Children(q[0].name, v.fields[q[0].name])[i];
            |child.suffix| == 2 && SchemaAt(v, q, false) == SchemaAt(child.value, q[2..], false)
  {
    hide WalkedShape;
    var child := v.fields[q[0].name];
    var names := SortedKeys(child.fields.Keys);
    KeyHasIndex(child.fields.Keys, q[1].name);
    i :| 0 <= i < |names| && names[i] == q[1].name;
  }

  lemma {:induction false} StepByIndex(v: Value, q: Path) returns (i: nat)
    requires q != [] && SchemaAt(v, q, false).Some?
    requires v.Object? && q[0].Key? && q[0].name in v.fields && WalkedShape(q[0].name).ByIndex?
    ensures i < |Children(q[0].name, v.fields[q[0].name])| && |q| > 1
    ensures var child := Children(q[0].name, v.fields[q[0].name])[i];
            |child.suffix| == 2 && SchemaAt(v, q, false) == SchemaAt(child.value, q[2..], false)
  {
    hide WalkedShape;
    i := q[1].i;
  }

  lemma {:induction false} FirstKey(v: Value, q: Path)
    requires q != [] && SchemaAt(v, q, false).Some?
    ensures v.Object? && q[0].Key? && q[0].name in v.fields && !WalkedShape(q[0].name).Leaf?
    ensures WalkedShape(q[0].name).One? ==> SchemaAt(v, q, false) == SchemaAt(v.fields[q[0].name], q[1..], false)
  {
    hide WalkedShape;
  }

  lemma StepsTaken(q: Path)
    requires q != [] && q[0].Key?
    ensures Steps(q) == 1 + Steps(if |q| == 1 || WalkedShape(q[0].name).One? then q[1..] else q[2..])
  {
  }

  /** A path of a schema leads first into a child of one of its keywords. */
  lemma {:induction false} FirstStep(v: Value, q: Path) returns (i: nat)
    requires q != [] && SchemaAt(v, q, false).Some?
    ensures v.Object? && q[0].Key? && q[0].name in v.fields && i < |Children(q[0].name, v.fields[q[0].name])|
    ensures var child := Children(q[0].name, v.fields[q[0].name])[i];
            |child.suffix| <= |q| && SchemaAt(v, q, false) == SchemaAt(child.value, q[|child.suffix|..], false)
            && Steps(q) == 1 + Steps(q[|child.suffix|..])
  {
    hide WalkedShape, SchemaAt, Steps;
    FirstKey(v, q);
    StepsTaken(q);
    match WalkedShape(q[0].name) {
      case ByName => i := StepByName(v, q);
      case ByIndex => i := StepByIndex(v, q);
      case One => i := 0;
    }
  }

  lemma {:induction false} ThroughChild(v: Value, q: Path, probe: Probe, depth: nat, rules: Rules)
    requires q != [] && MeetsAt(v, q, probe, depth, rules)
    ensures v.Object? && q[0].Key? && q[0].name in v.fields
    ensures OccursInside(Children(q[0].name, v.fields[q[0].name]), probe, depth + 1, rules)
  {
    hide Meets, SchemaAt, Children, Steps;
    var i := FirstStep(v, q);
    var child := Children(q[0].name, v.fields[q[0].name])[i];
    assert MeetsAt(child.value, q[|child.suffix|..], probe, depth + 1, rules);
    assert Occurs(child.value, probe, depth + 1, rules);
  }

  lemma {:induction false} ChildLeadsOn(v: Value, key: string, i: nat, q: Path)
    requires v.Object? && key in v.fields && i < |Children(key, v.fields[key])|
    ensures var child := Children(key, v.fields[key])[i];
            SchemaAt(v, child.suffix + q, false) == SchemaAt(child.value, q, false)
            && Steps(child.suffix + q) == 1 + Steps(q)
  {
    var child := Children(key, v.fields[key])[i];
    assert (child.suffix + q)[|child.suffix|..] == q;
    assert child.suffix[0] == Key(key) == (child.suffix + q)[0];
    assert |child.suffix| == 2 ==> child.suffix[1] == (child.suffix + q)[1];
  }

  lemma {:induction false} FromChild(v: Value, key: string, probe: Probe, depth: nat, rules: Rules)
    requires v.Object? && key in v.fields && OccursInside(Children(key, v.fields[key]), probe, depth + 1, rules)
    ensures Occurs(v, probe, depth, rules)
  {
    hide Meets, SchemaAt, Children, Steps;
    var children := Children(key, v.fields[key]);
    var i :| 0 <= i < |children| && Occurs(children[i].value, probe, depth + 1, rules);
    var q :| MeetsAt(children[i].value, q, probe, depth + 1, rules);
    ChildLeadsOn(v, key, i, q);
    assert MeetsAt(v, children[i].suffix + q, probe, depth, rules);
  }

  /** What a keyword shows by itself. */
  predicate KeywordShows(v: Value, key: string, probe: Probe, rules: Rules)
    requires v.Object? && key in v.fields
  {
    match probe
    case Reference(r) => r in RefOf(v, key)
    case Fault => !FieldFine(v, key, rules)
  }

  lemma {:induction false} FieldsShow(v: Value, keys: seq<string>, path: Path, depth: nat, rules: Rules, probe: Probe)
    requires v.Object? && forall key :: key in keys ==> key in v.fields
    ensures Shows(LookFields(v, keys, path, depth, rules), probe)
       <==> exists key :: key in keys && (KeywordShows(v, key, probe, rules)
                                          || OccursInside(Children(key, v.fields[key]), probe, depth + 1, rules))
    decreases v, 1, |keys|
  {
    hide RefOf, Children, OccursInside, FieldFine;
    if keys != [] {
      var init, last := keys[..|keys| - 1], keys[|keys| - 1];
      FieldsShow(v, init, path, depth, rules, probe);
      ChildrenShow(v, Children(last, v.fields[last]), path, depth, rules, probe);
      hide LookChildren;
      assert keys == init + [last];
    }
  }

  lemma {:induction false} KeywordsMeet(v: Value, probe: Probe, depth: nat, rules: Rules)
    requires v.Object?
    ensures Meets(probe, v, depth, rules)
       <==> (probe.Fault? && depth > rules.limits.schemaDepth)
            || exists key :: key in v.fields && KeywordShows(v, key, probe, rules)
  {
    hide FieldFine;
    if probe.Reference? && RefersTo(v, probe.r) {
      assert KeywordShows(v, "$ref", probe, rules);
    }
  }

  /** The survey shows exactly what occurs at some position. */
  lemma {:induction false} LookShows(v: Value, path: Path, depth: nat, rules: Rules, probe: Probe)
    ensures Shows(Look(v, path, depth, rules), probe) <==> Occurs(v, probe, depth, rules)
    decreases v, 2, 0
  {
    hide LookFields, Children, OccursInside, KeywordShows;
    if v.Object? {
      hide Meets;
      var keys := SortedKeys(v.fields.Keys);
      FieldsShow(v, keys, path, depth, rules, probe);
      KeywordsMeet(v, probe, depth, rules);
      if Meets(probe, v, depth, rules) {
        assert MeetsAt(v, [], probe, depth, rules);
      }
      forall key | key in keys && OccursInside(Children(key, v.fields[key]), probe, depth + 1, rules)
        ensures Occurs(v, probe, depth, rules)
      {
        FromChild(v, key, probe, depth, rules);
      }
    } else if Meets(probe, v, depth, rules) {
      assert MeetsAt(v, [], probe, depth, rules);
    }
    if Occurs(v, probe, depth, rules) {
      var q :| MeetsAt(v, q, probe, depth, rules);
      if q != [] {
        ThroughChild(v, q, probe, depth, rules);
      }
    }
  }

  // ----- the result for a document -----

  const START := State(0, {}, [])

  function WalkDocument(document: Value, rules: Rules): State
  {
    Walk(document, [], 0, rules, START)
  }

  ghost predicate AllFine(document: Value, rules: Rules)
  {
    forall q :: SchemaAt(document, q, false).Some? ==> SchemaFine(SchemaAt(document, q, false).value, Steps(q), rules)
  }

  /** Each walked position once. */
  ghost predicate ListsPositions(places: multiset<Path>, document: Value, standard: bool)
  {
    forall q :: places[q] == Bit(SchemaAt(document, q, standard).Some?)
  }

  ghost predicate ListsReferences(refs: set<string>, document: Value)
  {
    forall r :: r in refs <==> exists q :: SchemaAt(document, q, false).Some? && RefersTo(SchemaAt(document, q, false).value, r)
  }

  lemma {:induction false} SurveyMeans(document: Value, rules: Rules)
    ensures var f := Look(document, [], 0, rules);
            ListsPositions(f.places, document, false) && ListsReferences(f.refs, document) && (f.fine <==> AllFine(document, rules))
  {
    hide Look, SchemaAt, SchemaFine, RefersTo, Steps;
    var f := Look(document, [], 0, rules);
    forall q: Path ensures f.places[q] == Bit(SchemaAt(document, q, false).Some?) {
      LookCounts(document, [], 0, rules, q);
      assert IsPrefix([], q) && q[0..] == q;
    }
    forall r ensures r in f.refs <==> exists q :: SchemaAt(document, q, false).Some? && RefersTo(SchemaAt(document, q, false).value, r) {
      LookShows(document, [], 0, rules, Reference(r));
      if r in f.refs {
        var q :| MeetsAt(document, q, Reference(r), 0, rules);
        assert SchemaAt(document, q, false).Some? && RefersTo(SchemaAt(document, q, false).value, r);
      }
      if q :| SchemaAt(document, q, false).Some? && RefersTo(SchemaAt(document, q, false).value, r) {
        assert MeetsAt(document, q, Reference(r), 0, rules);
      }
    }
    LookShows(document, [], 0, rules, Fault);
    assert forall q :: MeetsAt(document, q, Fault, 0, rules)
                  <==> SchemaAt(document, q, false).Some? && !SchemaFine(SchemaAt(document, q, false).value, Steps(q), rules);
  }

  lemma {:induction false} SameListing(a: multiset<Path>, b: multiset<Path>, document: Value)
    requires ListsPositions(a, document, false) && ListsPositions(b, document, false)
    ensures a == b
  {
    hide SchemaAt;
  }

  /**
   The walk reports no issue exactly when every walked schema is acceptable at
   its depth, and the positions and the distinct references are within their
   limits. Then `nodes` is the number of positions and `refs` the set of references.
   */
  lemma {:induction false} WalkIsExact(document: Value, rules: Rules, places: multiset<Path>, refs: set<string>)
    requires ListsPositions(places, document, false) && ListsReferences(refs, document)
    ensures var s := WalkDocument(document, rules);
            && (s.issues == [] <==>
                  AllFine(document, rules) && |places| <= rules.limits.schemaNodes && |refs| <= rules.limits.localRefs)
            && (s.issues == [] ==> s.nodes == |places| && s.refs == refs)
  {
    hide Walk, Look, SchemaAt, AllFine, RefersTo;
    var f := Look(document, [], 0, rules);
    WalkAgrees(document, [], 0, rules, START);
    SurveyMeans(document, rules);
    SameListing(places, f.places, document);
    assert refs == f.refs;
    assert {} + f.refs == f.refs;
  }

  /** Wider limits accept the same document, with the same counts. */
  lemma {:induction false} WiderLimits(document: Value, dialect: string, limits: Limits, cap: Limits)
    requires FitsWithin(limits, cap)
    requires WalkDocument(document, Rules(dialect, limits)).issues == []
    ensures var a, b := WalkDocument(document, Rules(dialect, limits)), WalkDocument(document, Rules(dialect, cap));
            b.issues == [] && b.nodes == a.nodes && b.refs == a.refs
  {
    hide Walk, Look, SchemaAt, RefersTo, AllFine, ListsPositions, ListsReferences, WalkDocument;
    var f := Look(document, [], 0, Rules(dialect, limits));
    SurveyMeans(document, Rules(dialect, limits));
    WalkIsExact(document, Rules(dialect, limits), f.places, f.refs);
    WalkIsExact(document, Rules(dialect, cap), f.places, f.refs);
    FineUnderCap(document, dialect, limits, cap);
  }

  lemma {:induction false} FineUnderCap(document: Value, dialect: string, limits: Limits, cap: Limits)
    requires FitsWithin(limits, cap) && AllFine(document, Rules(dialect, limits))
    ensures AllFine(document, Rules(dialect, cap))
  {
    hide SchemaAt, Steps, IsAllowed, IsSupportedFormat, Utf8Length, IsLocal;
    forall q | SchemaAt(document, q, false).Some?
      ensures SchemaFine(SchemaAt(document, q, false).value, Steps(q), Rules(dialect, cap))
    {
      var schema := SchemaAt(document, q, false).value;
      assert SchemaFine(schema, Steps(q), Rules(dialect, limits));
      forall key | schema.Object? && key in schema.fields ensures FieldFine(schema, key, Rules(dialect, cap)) {
        assert FieldFine(schema, key, Rules(dialect, limits));
      }
    }
  }

  // ----- the applicator that is not walked -----

  predicate HasAdditional(v: Value)
  {
    v.Object? && "additionalProperties" in v.fields
  }

  lemma {:induction false} WalkedIsStandard(v: Value, q: Path)
    requires SchemaAt(v, q, false).Some?
    ensures SchemaAt(v, q, true) == SchemaAt(v, q, false)
    decreases |q|
  {
    hide WalkedShape, StandardShape;
    AllShapes();
    if q != [] {
      var child := v.fields[q[0].name];
      match WalkedShape(q[0].name) {
        case One => WalkedIsStandard(child, q[1..]);
        case ByName => WalkedIsStandard(child.fields[q[1].name], q[2..]);
        case ByIndex => WalkedIsStandard(child.items[q[1].i], q[2..]);
      }
    }
  }

  /** A position that only the standard knows lies behind an `additionalProperties` of a walked schema. */
  lemma {:induction false} OnlyStandard(v: Value, q: Path) returns (p: Path)
    requires SchemaAt(v, q, true).Some? && SchemaAt(v, q, false).None?
    ensures SchemaAt(v, p, false).Some? && HasAdditional(SchemaAt(v, p, false).value)
    decreases |q|
  {
    hide WalkedShape, StandardShape;
    AllShapes();
    var key := q[0].name;
    var child := v.fields[key];
    if key == "additionalProperties" {
      p := [];
    } else {
      match WalkedShape(key) {
        case One =>
          var rest := OnlyStandard(child, q[1..]);
          p := [q[0]] + rest;
          assert p[1..] == rest;
        case ByName =>
          var rest := OnlyStandard(child.fields[q[1].name], q[2..]);
          p := [q[0], q[1]] + rest;
          assert p[2..] == rest;
        case ByIndex =>
          var rest := OnlyStandard(child.items[q[1].i], q[2..]);
          p := [q[0], q[1]] + rest;
          assert p[2..] == rest;
      }
    }
  }

  /** The value of an `additionalProperties` is a position for the standard, never for the walk. */
  lemma {:induction false} AdditionalIsMissed(v: Value, p: Path)
    requires SchemaAt(v, p, false).Some? && HasAdditional(SchemaAt(v, p, false).value)
    ensures SchemaAt(v, p + [Key("additionalProperties")], true).Some?
    ensures SchemaAt(v, p + [Key("additionalProperties")], false).None?
    decreases |p|
  {
    hide WalkedShape, StandardShape;
    AllShapes();
    var extra := [Key("additionalProperties")];
    if p == [] {
      assert p + extra == extra && extra[1..] == [];
    } else {
      var child := v.fields[p[0].name];
      var q := p + extra;
      match WalkedShape(p[0].name) {
        case One =>
          AdditionalIsMissed(child, p[1..]);
          assert q[0] == p[0] && q[1..] == p[1..] + extra;
        case ByName =>
          AdditionalIsMissed(child.fields[p[1].name], p[2..]);
          assert q[0] == p[0] && q[1] == p[1] && q[2..] == p[2..] + extra;
        case ByIndex =>
          AdditionalIsMissed(child.items[p[1].i], p[2..]);
          assert q[0] == p[0] && q[1] == p[1] && q[2..] == p[2..] + extra;
      }
    }
  }

  lemma {:induction false} SameSize(a: multiset<Path>, b: multiset<Path>)
    requires forall q :: a[q] <= b[q]
    ensures |a| == |b| <==> forall q :: a[q] == b[q]
  {
    assert b == a + (b - a);
    if |a| == |b| {
      assert |b - a| == 0;
    } else {
      assert |b - a| > 0;
      var q :| q in b - a;
      assert a[q] != b[q];
    }
  }

  /**
   For a document without issues, `nodes` is the number of subschema positions
   of the standard exactly when no walked schema has `additionalProperties`,
   the one applicator that is allowed but not walked.
   */
  lemma {:induction false} NodesCountTheStandard(document: Value, rules: Rules, standard: multiset<Path>)
    requires ListsPositions(standard, document, true)
    requires WalkDocument(document, rules).issues == []
    ensures WalkDocument(document, rules).nodes == |standard|
       <==> forall p :: SchemaAt(document, p, false).Some? ==> !HasAdditional(SchemaAt(document, p, false).value)
  {
    hide Look, Walk, SchemaAt, HasAdditional, WalkDocument, AllFine, ListsReferences;
    var f := Look(document, [], 0, rules);
    SurveyMeans(document, rules);
    WalkIsExact(document, rules, f.places, f.refs);
    forall q: Path ensures f.places[q] <= standard[q] {
      if SchemaAt(document, q, false).Some? { WalkedIsStandard(document, q); }
    }
    SameSize(f.places, standard);
    hide ListsPositions;
    if q :| standard[q] != f.places[q] {
      OnlyInStandard(document, q, f.places, standard);
    }
    forall p | SchemaAt(document, p, false).Some? && HasAdditional(SchemaAt(document, p, false).value)
      ensures exists q :: f.places[q] != standard[q]
    {
      MissedInWalk(document, p, f.places, standard);
    }
  }

  lemma {:induction false} OnlyInStandard(v: Value, q: Path, walked: multiset<Path>, standard: multiset<Path>)
    requires ListsPositions(walked, v, false) && ListsPositions(standard, v, true) && standard[q] != walked[q]
    ensures exists p :: SchemaAt(v, p, false).Some? && HasAdditional(SchemaAt(v, p, false).value)
  {
    hide SchemaAt, HasAdditional;
    if SchemaAt(v, q, false).Some? { WalkedIsStandard(v, q); }
    var p := OnlyStandard(v, q);
  }

  lemma {:induction false} MissedInWalk(v: Value, p: Path, walked: multiset<Path>, standard: multiset<Path>)
    requires ListsPositions(walked, v, false) && ListsPositions(standard, v, true)
    requires SchemaAt(v, p, false).Some? && HasAdditional(SchemaAt(v, p, false).value)
    ensures exists q :: walked[q] != standard[q]
  {
    hide SchemaAt, HasAdditional;
    AdditionalIsMissed(v, p);
    assert walked[p + [Key("additionalProperties")]] != standard[p + [Key("additionalProperties")]];
  }

  /** An example: one position for the walk, two for the standard. */
  lemma {:induction false} AdditionalIsNotCounted(rules: Rules)
    requires rules.limits.schemaNodes > 0
    ensures var document := Object(map["additionalProperties" := Bool(true)]);
            var s := WalkDocument(document, rules);
            && s.issues == [] && s.nodes == 1
            && SchemaAt(document, [], true).Some? && SchemaAt(document, [Key("additionalProperties")], true).Some?
            && SchemaAt(document, [Key("additionalProperties")], false).None?
  {
    hide WalkedShape, StandardShape;
    var key := "additionalProperties";
    var document := Object(map[key := Bool(true)]);
    AscendingUnique(SortedKeys(document.fields.Keys), [key]);
    AdditionalMember(document, rules);
    assert [key][..0] == [];
    AdditionalIsMissed(document, []);
    assert [] + [Key(key)] == [Key(key)];
  }

  lemma {:induction false} AdditionalMember(v: Value, rules: Rules)
    requires v.Object? && "additionalProperties" in v.fields
    ensures WalkField(v, "additionalProperties", [], 0, rules, State(1, {}, [])) == State(1, {}, [])
  {
    ShapesCompared("additionalProperties");
  }

  // ----- the walk as the source performs it -----

  class SchemaWalker {
    const rules: Rules
    var nodes: nat
    var refs: set<string>
    var issues: seq<Issue>

    constructor (rules: Rules)
      ensures this.rules == rules && Now() == START
    {
      this.rules := rules;
      nodes, refs, issues := 0, {}, [];
    }

    function Now(): State
      reads this
    {
      State(nodes, refs, issues)
    }

    method Push(code: Code, path: Path)
      modifies this
      ensures Now() == Report(old(Now()), code, path)
    {
      issues := issues + [Issue(code, path)];
    }

    method Ref(v: Value, path: Path)
      modifies this
      ensures Now() == CheckRef(v, path, rules, old(Now()))
    {
      if !v.String? {
        Push(RefNotString, path);
        return;
      }
      if !IsLocal(v.text) {
        Push(RemoteRef, path);
      }
      refs := refs + {v.text};
      if |refs| > rules.limits.localRefs {
        Push(TooManyRefs, path);
      }
    }

    method Schema(v: Value, path: Path, depth: nat)
      modifies this
      ensures Now() == Walk(v, path, depth, rules, old(Now()))
      decreases v, 2
    {
      hide WalkFields;
      nodes := nodes + 1;
      if nodes > rules.limits.schemaNodes || depth > rules.limits.schemaDepth {
        Push(StructureLimit, path);
        return;
      }
      if !v.Object? {
        if !v.Bool? {
          Push(NotObjectOrBoolean, path);
        }
        return;
      }
      Members(v, path, depth);
    }

    method Members(v: Value, path: Path, depth: nat)
      requires v.Object?
      modifies this
      ensures Now() == WalkFields(v, SortedKeys(v.fields.Keys), path, depth, rules, old(Now()))
      decreases v, 1
    {
      hide WalkField;
      var keys := SortedKeys(v.fields.Keys);
      for i := 0 to |keys|
        invariant Now() == WalkFields(v, keys[..i], path, depth, rules, old(Now()))
      {
        assert keys[..i + 1][..i] == keys[..i];
        assert keys[i] in keys;
        Member(v, keys[i], path, depth);
      }
      assert keys[..|keys|] == keys;
    }

    method Member(v: Value, key: string, path: Path, depth: nat)
      requires v.Object? && key in v.fields
      modifies this
      ensures Now() == WalkField(v, key, path, depth, rules, old(Now()))
      decreases v, 0
    {
      hide IsAllowed, IsSupportedFormat, Utf8Length, IsLocal, CheckRef, WalkChildren, WalkedShape;
      var child, at := v.fields[key], path + [Key(key)];
      if !IsAllowed(key) {
        Push(UnsupportedKeyword, at);
        return;
      }
      match key {
        case "$schema" => if child != String(rules.dialect) { Push(DialectMismatch, at); }
        case "$ref" => Ref(child, at);
        case "pattern" =>
          if child.String? && Utf8Length(child.text) > rules.limits.regexBytes { Push(RegexTooLong, at); }
        case "format" =>
          if !(child.String? && IsSupportedFormat(child.text)) { Push(UnsupportedFormat, at); }
        case _ => Subschemas(v, Children(key, child), path, depth);
      }
    }

    /** The loop over a map or an array of schemas, or the one schema. */
    method Subschemas(v: Value, children: seq<Child>, path: Path, depth: nat)
      requires Inside(children, v)
      modifies this
      ensures Now() == WalkChildren(v, children, path, depth, rules, old(Now()))
      decreases v, 0, 0
    {
      hide Walk;
      for i := 0 to |children|
        invariant Now() == WalkChildren(v, children[..i], path, depth, rules, old(Now()))
      {
        assert children[..i + 1][..i] == children[..i];
        assert children[i].value < v;
        Schema(children[i].value, path + children[i].suffix, depth + 1);
      }
      assert children[..|children|] == children;
    }
  }
}