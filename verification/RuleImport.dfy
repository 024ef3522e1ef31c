/**
 The rule path of the SillyTavern importer and exporter: which documents carry
 rules (`detect.ts`), how imported rules are installed (`regex.ts`,
 `support.ts`, `import.ts`) and the three documents of a bundle (`export.ts`).

 A stored spec is the list of its rules. Prompts, markers and generation
 settings do not touch that list and appear only as document members.
 */
module RuleImport {
  import opened Wrappers
  import opened RegexRules

  // ----- arrays of rules -----

  /** `value.map(parseRule)`: the views, or the first error. */
  function ParseItems(engine: Engine, items: seq<JsValue>, scope: Scope): (r: Result<seq<RuleView>, ImportError>)
    ensures r.Success? ==> |r.value| == |items|
  {
    if items == [] then Success([])
    else
      var init := ParseItems(engine, items[..|items| - 1], scope);
      if init.Failure? then init
      else match Parse(engine, items[|items| - 1], scope, |items| - 1)
        case Failure(e) => Failure(e)
        case Success(view) => Success(init.value + [view])
  }

  function ParseArray(engine: Engine, value: JsValue, scope: Scope): Result<seq<RuleView>, ImportError>
  {
    if !value.JsArray? then Failure(MustBeAnArray)
    else if |value.items| > 256 then Failure(TooManyRules)
    else ParseItems(engine, value.items, scope)
  }

  function ParseOptional(engine: Engine, value: Option<JsValue>, scope: Scope): Result<seq<RuleView>, ImportError>
  {
    if value.None? then Success([]) else ParseArray(engine, value.value, scope)
  }

  function At(v: Option<JsValue>, key: string): Option<JsValue>
  {
    if v.Some? then Field(v.value, key) else None
  }

  function CharacterScripts(document: JsValue): Option<JsValue>
  {
    At(At(Field(document, "data"), "extensions"), "regex_scripts")
  }

  function PresetScripts(document: JsValue): Option<JsValue>
  {
    At(Field(document, "extensions"), "regex_scripts")
  }

  function ParseEmbedded(engine: Engine, document: JsValue): Result<seq<RuleView>, ImportError>
  {
    match ParseOptional(engine, CharacterScripts(document), Character)
    case Failure(e) => Failure(e)
    case Success(character) =>
      match ParseOptional(engine, PresetScripts(document), Preset)
      case Failure(e) => Failure(e)
      case Success(preset) => Success(character + preset)
  }

  // ----- detection -----

  datatype Kind =
    | OpenAi | Master | ContextTemplate | Instruct | SystemPrompt
    | TextCompletion | ReasoningTemplate | RegexScripts | Unknown

  predicate IsRegexArray(v: Option<JsValue>)
  {
    v.Some? && v.value.JsArray?
    && forall i :: 0 <= i < |v.value.items| ==>
         var entry := v.value.items[i];
         entry.JsObject? && Text(Field(entry, "findRegex")).Some? && Text(Field(entry, "replaceString")).Some?
  }

  predicate IsArray(v: Option<JsValue>)
  {
    v.Some? && v.value.JsArray?
  }

  predicate Has(document: JsValue, keys: seq<string>)
  {
    forall i :: 0 <= i < |keys| ==> Field(document, keys[i]).Some?
  }

  predicate HasAny(document: JsValue, keys: seq<string>)
  {
    exists i :: 0 <= i < |keys| && Field(document, keys[i]).Some?
  }

  function DetectKind(document: JsValue): Kind
  {
    if IsRegexArray(Some(document)) then RegexScripts
    else if !document.JsObject? then Unknown
    else if IsArray(Field(document, "prompts")) && IsArray(Field(document, "prompt_order")) then OpenAi
    else if IsRegexArray(CharacterScripts(document)) || IsRegexArray(PresetScripts(document)) then RegexScripts
    else if HasAny(document, ["context", "instruct", "sysprompt", "reasoning", "preset"]) then Master
    else if Has(document, ["story_string"]) then ContextTemplate
    else if Has(document, ["input_sequence", "output_sequence"]) then Instruct
    else if Has(document, ["content", "name"]) then SystemPrompt
    else if Has(document, ["prefix", "suffix", "separator"]) then ReasoningTemplate
    else if Has(document, ["temp", "top_k", "top_p", "rep_pen"]) then TextCompletion
    else Unknown
  }

  /** The prompt order that `importOpenAi` selects. */
  function SelectedOrder(orders: seq<JsValue>): Option<JsValue>
  {
    if FirstForDefault(orders).Some? then FirstForDefault(orders)
    else if orders == [] then None
    else Some(orders[0])
  }

  function FirstForDefault(orders: seq<JsValue>): Option<JsValue>
  {
    if orders == [] then None
    else if Integer(Field(orders[0], "character_id")) == Some(100001) then Some(orders[0])
    else FirstForDefault(orders[1..])
  }

  predicate HasPromptOrder(document: JsValue)
  {
    IsArray(At(SelectedOrder(Items(Field(document, "prompt_order"))), "order"))
  }

  // ----- installation -----

  function ViewFromRuntime(rule: Rule): RuleView
  {
    RuleView(rule, SourceScope(rule), [])
  }

  function Views(rules: seq<Rule>): seq<RuleView>
  {
    seq(|rules|, i requires 0 <= i < |rules| => ViewFromRuntime(rules[i]))
  }

  function Rules(views: seq<RuleView>): seq<Rule>
  {
    seq(|views|, i requires 0 <= i < |views| => views[i].rule)
  }

  function IndexOf(views: seq<RuleView>, id: string): (n: int)
    ensures -1 <= n < |views|
    ensures n >= 0 ==> views[n].rule.id == id && forall i :: 0 <= i < n ==> views[i].rule.id != id
    ensures n < 0 ==> forall i :: 0 <= i < |views| ==> views[i].rule.id != id
  {
    if views == [] then -1
    else if views[0].rule.id == id then 0
    else var n := IndexOf(views[1..], id); if n < 0 then -1 else n + 1
  }

  function InstallOne(views: seq<RuleView>, view: RuleView): seq<RuleView>
  {
    var index := IndexOf(views, view.rule.id);
    if index >= 0 then views[index := view] else views + [view]
  }

  function InstallAll(views: seq<RuleView>, imported: seq<RuleView>): seq<RuleView>
  {
    if imported == [] then views
    else InstallOne(InstallAll(views, imported[..|imported| - 1]), imported[|imported| - 1])
  }

  /** `a` may stand before `b`. */
  predicate NotAfter(a: RuleView, b: RuleView)
  {
    a.rule.priority < b.rule.priority || (a.rule.priority == b.rule.priority && a.rule.order <= b.rule.order)
  }

  predicate IsSorted(views: seq<RuleView>)
  {
    forall i, j :: 0 <= i < j < |views| ==> NotAfter(views[i], views[j])
  }

  function InsertSorted(views: seq<RuleView>, view: RuleView): seq<RuleView>
  {
    if views == [] || NotAfter(views[|views| - 1], view) then views + [view]
    else InsertSorted(views[..|views| - 1], view) + [views[|views| - 1]]
  }

  /** The stable sort of `Array.prototype.sort` by priority, then order. */
  function SortViews(views: seq<RuleView>): seq<RuleView>
  {
    if views == [] then [] else InsertSorted(SortViews(views[..|views| - 1]), views[|views| - 1])
  }

  lemma {:induction false} InsertSorts(views: seq<RuleView>, view: RuleView)
    requires IsSorted(views)
    ensures IsSorted(InsertSorted(views, view))
    ensures multiset(InsertSorted(views, view)) == multiset(views) + multiset{view}
  {
    hide NotAfter;
    if views != [] {
      var init, last := views[..|views| - 1], views[|views| - 1];
      assert views == init + [last];
      NotAfterTotal(last, view);
      if NotAfter(last, view) {
        forall i | 0 <= i < |init| ensures NotAfter(init[i], view) {
          assert NotAfter(views[i], views[|views| - 1]);
          NotAfterTransitive(init[i], last, view);
        }
      } else {
        InsertSorts(init, view);
        AllNotAfter(init, view, InsertSorted(init, view), last);
      }
    }
  }

  lemma NotAfterTotal(a: RuleView, b: RuleView)
    ensures NotAfter(a, b) || NotAfter(b, a)
  {
  }

  lemma NotAfterTransitive(a: RuleView, b: RuleView, c: RuleView)
    requires NotAfter(a, b) && NotAfter(b, c)
    ensures NotAfter(a, c)
  {
  }

  lemma {:induction false} AllNotAfter(init: seq<RuleView>, view: RuleView, rest: seq<RuleView>, last: RuleView)
    requires multiset(rest) == multiset(init) + multiset{view}
    requires NotAfter(view, last) && forall i :: 0 <= i < |init| ==> NotAfter(init[i], last)
    ensures forall i :: 0 <= i < |rest| ==> NotAfter(rest[i], last)
  {
    hide NotAfter;
    forall i | 0 <= i < |rest| ensures NotAfter(rest[i], last) {
      assert rest[i] in multiset(rest);
      assert rest[i] in init || rest[i] == view;
    }
  }

  lemma {:induction false} SortSorts(views: seq<RuleView>)
    ensures IsSorted(SortViews(views))
    ensures multiset(SortViews(views)) == multiset(views)
  {
    if views != [] {
      SortSorts(views[..|views| - 1]);
      InsertSorts(SortViews(views[..|views| - 1]), views[|views| - 1]);
      assert views == views[..|views| - 1] + [views[|views| - 1]];
    }
  }

  /** Inserting behind everything that may stand before it and ahead of everything else. */
  lemma {:induction false} InsertBetween(left: seq<RuleView>, view: RuleView, right: seq<RuleView>)
    requires forall i :: 0 <= i < |left| ==> NotAfter(left[i], view)
    requires forall i :: 0 <= i < |right| ==> !NotAfter(right[i], view)
    ensures InsertSorted(left + right, view) == left + [view] + right
  {
    if right == [] {
      assert left + right == left;
    } else {
      var init, last := right[..|right| - 1], right[|right| - 1];
      InsertBetween(left, view, init);
      assert (left + right)[..|left + right| - 1] == left + init;
      assert left + [view] + right == left + [view] + init + [last];
    }
  }

  lemma {:induction false} SortedStays(views: seq<RuleView>)
    requires IsSorted(views)
    ensures SortViews(views) == views
  {
    if views != [] {
      hide NotAfter, InsertSorted;
      var init, last := views[..|views| - 1], views[|views| - 1];
      SortedStays(init);
      InsertBetween(init, last, []);
      assert init + [] == init && init + [last] + [] == views;
    }
  }

  lemma {:induction false} Regroup(left: seq<RuleView>, right: seq<RuleView>, block: seq<RuleView>)
    requires block != []
    ensures var init, last := block[..|block| - 1], block[|block| - 1];
            && (left + right + block)[..|left + right + block| - 1] == left + right + init
            && (left + right + block)[|left + right + block| - 1] == last
            && left + init + [last] + right == left + block + right
  {
  }

  /** Sorting moves a sorted block as a whole, in front of what belongs behind it. */
  lemma {:induction false} SortBlock(left: seq<RuleView>, right: seq<RuleView>, block: seq<RuleView>)
    requires IsSorted(left + right) && IsSorted(block)
    requires forall i, j :: 0 <= i < |left| && 0 <= j < |block| ==> NotAfter(left[i], block[j])
    requires forall i, j :: 0 <= i < |right| && 0 <= j < |block| ==> !NotAfter(right[i], block[j])
    ensures SortViews(left + right + block) == left + block + right
    decreases |block|
  {
    if block == [] {
      SortedStays(left + right);
      assert left + right + block == left + right && left + block + right == left + right;
    } else {
      var init, last := block[..|block| - 1], block[|block| - 1];
      SortBlock(left, right, init);
      Regroup(left, right, block);
      assert forall i :: 0 <= i < |init| ==> NotAfter(init[i], last);
      hide IsSorted, InsertSorted, NotAfter;
      InsertBetween(left + init, last, right);
    }
  }

  /** The views of one key, in their order. */
  function WithKey(views: seq<RuleView>, priority: int, order: int): seq<RuleView>
  {
    if views == [] then []
    else
      var last := views[|views| - 1];
      WithKey(views[..|views| - 1], priority, order)
      + (if last.rule.priority == priority && last.rule.order == order then [last] else [])
  }

  lemma {:induction false} InsertIsStable(views: seq<RuleView>, view: RuleView, priority: int, order: int)
    ensures WithKey(InsertSorted(views, view), priority, order) == WithKey(views + [view], priority, order)
  {
    assert (views + [view])[..|views|] == views;
    if views != [] && !NotAfter(views[|views| - 1], view) {
      var init, last := views[..|views| - 1], views[|views| - 1];
      InsertIsStable(init, view, priority, order);
      assert (init + [view])[..|init|] == init;
      assert (InsertSorted(init, view) + [last])[..|InsertSorted(init, view)|] == InsertSorted(init, view);
    }
  }

  /** Together with `SortSorts` this determines the result of the sort. */
  lemma {:induction false} SortIsStable(views: seq<RuleView>, priority: int, order: int)
    ensures WithKey(SortViews(views), priority, order) == WithKey(views, priority, order)
  {
    if views != [] {
      var init, last := views[..|views| - 1], views[|views| - 1];
      SortIsStable(init, priority, order);
      InsertIsStable(SortViews(init), last, priority, order);
      assert (SortViews(init) + [last])[..|SortViews(init)|] == SortViews(init);
    }
  }

  /** The imported rules of a recognized document. */
  function ImportedRules(engine: Engine, document: JsValue): Result<seq<RuleView>, ImportError>
  {
    if document.JsArray? then ParseArray(engine, document, Global) else ParseEmbedded(engine, document)
  }

  /**
   The limits of the JSON library on size, depth and numbers: which documents
   `stringifyJsonExact` accepts, and with which rules the spec at hand can be cloned.
   */
  datatype JsonLimits = JsonLimits(writes: JsValue -> bool, clones: seq<Rule> -> bool)

  function BaseViews(base: Option<seq<Rule>>): seq<RuleView>
  {
    if base.Some? then Views(base.value) else []
  }

  /** `previewSillyTavernImport`: the views of the new spec. A base spec is cloned first, the document hashed last. */
  function Preview(engine: Engine, limits: JsonLimits, document: JsValue, base: Option<seq<Rule>>)
    : Result<seq<RuleView>, ImportError>
  {
    var kind := DetectKind(document);
    if kind == Unknown then Failure(NotARecognizedDocument)
    else if base.Some? && !limits.clones(base.value) then Failure(SpecTooLarge)
    else if kind == OpenAi && !HasPromptOrder(document) then Failure(NoPromptOrder)
    else match ImportedRules(engine, document)
      case Failure(e) => Failure(e)
      case Success(rules) =>
        if !limits.writes(document) then Failure(DocumentTooLarge)
        else Success(SortViews(InstallAll(BaseViews(base), rules)))
  }

  // ----- warnings -----

  function InactiveWarnings(placements: seq<int>, path: string, index: nat): seq<Warning>
  {
    if placements == [] then []
    else
      var last := placements[|placements| - 1];
      InactiveWarnings(placements[..|placements| - 1], path, index)
      + (if TargetOf(last).Some? then []
         else [Warning(if last == 3 then SlashInactive else UnknownPlacement(last), path, index)])
  }

  function LegacyWarnings(given: seq<int>, path: string, index: nat): seq<Warning>
  {
    (if 0 in given then [Warning(LegacyDisplay, path, index)] else [])
    + (if 4 in WithoutDisplay(given) then [Warning(LegacySendAs, path, index)] else [])
  }

  function PlacementWarnings(rule: JsValue, path: string, index: nat): seq<Warning>
  {
    LegacyWarnings(Integers(Items(Field(rule, "placement"))), path, index)
    + InactiveWarnings(Placements(rule), path, index)
  }

  function RuleWarnings(rule: JsValue, path: string, index: nat): seq<Warning>
  {
    var n := Substitution(rule);
    PlacementWarnings(rule, path, index)
    + (if n == 0 || n == 1 || n == 2 then [] else [Warning(UnknownSubstitution(n), path, index)])
  }

  function ItemWarnings(items: seq<JsValue>, path: string): seq<Warning>
  {
    if items == [] then []
    else ItemWarnings(items[..|items| - 1], path) + RuleWarnings(items[|items| - 1], path, |items| - 1)
  }

  lemma {:induction false} InactiveWarns(placements: seq<int>, path: string, index: nat)
    ensures var warnings := InactiveWarnings(placements, path, index);
            && (forall w :: w in warnings ==> w.path == path && w.index == index)
            && (Warning(SlashInactive, path, index) in warnings <==> 3 in Inactive(placements))
            && (forall n :: Warning(UnknownPlacement(n), path, index) in warnings <==> n in Inactive(placements) && n != 3)
            && (forall w :: w in warnings ==> w.kind.SlashInactive? || w.kind.UnknownPlacement?)
  {
    if placements != [] {
      InactiveWarns(placements[..|placements| - 1], path, index);
    }
  }

  lemma {:induction false} StillSendAs(given: seq<int>)
    ensures 4 in WithoutDisplay(given) <==> 4 in given
  {
    hide Without;
    WithoutHas(given, 0, 4);
  }

  lemma {:induction false} WithoutHas(s: seq<int>, n: int, x: int)
    ensures x in Without(s, n) <==> x in s && x != n
  {
    if s != [] {
      var init := s[..|s| - 1];
      WithoutHas(init, n, x);
      assert s == init + [s[|s| - 1]];
    }
  }

  /** What there is to say about the placements and the substitution mode of a rule. */
  predicate Deserves(rule: JsValue, kind: WarningKind)
  {
    var given := Integers(Items(Field(rule, "placement")));
    var inactive := Distinct(Inactive(Placements(rule)));
    match kind
    case LegacyDisplay => 0 in given
    case LegacySendAs => 4 in given
    case SlashInactive => 3 in inactive
    case UnknownPlacement(n) => n in inactive && n != 3
    case UnknownSubstitution(n) => n == Substitution(rule) && n != 0 && n != 1 && n != 2
  }

  /** Nothing is migrated, left inactive or ignored silently, and nothing else is warned about. */
  lemma {:induction false} WarnsExactly(rule: JsValue, path: string, index: nat, w: Warning)
    ensures w in RuleWarnings(rule, path, index) <==> w.path == path && w.index == index && Deserves(rule, w.kind)
  {
    hide Integers, Inactive, InactiveWarnings, WithoutDisplay, WithoutSendAs, Distinct, Field;
    StillSendAs(Integers(Items(Field(rule, "placement"))));
    InactiveWarns(Placements(rule), path, index);
    DistinctIsDistinct(Inactive(Placements(rule)));
  }

  /** `ImportParts`: the state that the importers change step by step. */
  class ImportParts {
    var views: seq<RuleView>
    var warnings: seq<Warning>

    constructor (base: seq<Rule>)
      ensures views == Views(base) && warnings == []
    {
      views, warnings := Views(base), [];
    }

    method TargetsAndInactive(rule: JsValue, path: string, index: nat) returns (targets: seq<Target>, inactive: seq<int>)
      modifies this`warnings
      ensures targets == Distinct(Targets(Placements(rule))) && inactive == Distinct(Inactive(Placements(rule)))
      ensures warnings == old(warnings) + PlacementWarnings(rule, path, index)
    {
      hide Integers, WithoutDisplay, WithoutSendAs, Targets, Inactive, InactiveWarnings, LegacyWarnings, Distinct;
      var placements := Migrate(Integers(Items(Field(rule, "placement"))), path, index);
      targets, inactive := Classify(placements, path, index);
      targets, inactive := Distinct(targets), Distinct(inactive);
    }

    method Migrate(given: seq<int>, path: string, index: nat) returns (placements: seq<int>)
      modifies this`warnings
      ensures placements == WithoutSendAs(WithoutDisplay(given))
      ensures warnings == old(warnings) + LegacyWarnings(given, path, index)
    {
      hide Without;
      placements := given;
      if 0 in placements {
        placements := if |placements| == 1 then [1, 2, 3, 5, 6] else Without(placements, 0);
        warnings := warnings + [Warning(LegacyDisplay, path, index)];
      }
      if 4 in placements {
        placements := if |placements| == 1 then [3] else Without(placements, 4);
        warnings := warnings + [Warning(LegacySendAs, path, index)];
      }
    }

    method Classify(placements: seq<int>, path: string, index: nat) returns (targets: seq<Target>, inactive: seq<int>)
      modifies this`warnings
      ensures targets == Targets(placements) && inactive == Inactive(placements)
      ensures warnings == old(warnings) + InactiveWarnings(placements, path, index)
    {
      targets, inactive := [], [];
      for i := 0 to |placements|
        invariant targets == Targets(placements[..i]) && inactive == Inactive(placements[..i])
        invariant warnings == old(warnings) + InactiveWarnings(placements[..i], path, index)
      {
        var placement := placements[i];
        assert placements[..i + 1][..i] == placements[..i];
        var target := TargetOf(placement);
        if target.Some? {
          targets := targets + [target.value];
        } else {
          inactive := inactive + [placement];
          warnings := warnings
            + [Warning(if placement == 3 then SlashInactive else UnknownPlacement(placement), path, index)];
        }
      }
      assert placements[..|placements|] == placements;
    }

    method ParseRule(engine: Engine, value: JsValue, scope: Scope, index: nat, path: string)
      returns (r: Result<RuleView, ImportError>)
      modifies this`warnings
      ensures r == Parse(engine, value, scope, index)
      ensures r.Success? ==> warnings == old(warnings) + RuleWarnings(value, path, index)
    {
      hide Compiles, FillMacros, Trim, ReplaceMatch, Placements, Targets, Inactive, Distinct, Integers, Texts, PlacementWarnings, RuleId;
      if !value.JsObject? {
        return Failure(MustBeAnObject);
      }
      var find, replace := Text(Field(value, "findRegex")), Text(Field(value, "replaceString"));
      if find.None? || replace.None? {
        return Failure(MustBeAString);
      }
      var targets, inactive := TargetsAndInactive(value, path, index);
      var surfaces := SurfacesFor(value);
      var n := Substitution(value);
      if n != 0 && n != 1 && n != 2 {
        warnings := warnings + [Warning(UnknownSubstitution(n), path, index)];
      }
      var name := Text(Field(value, "scriptName"));
      var rule := Rule(
        RuleId(engine, value, scope, index), if name.Some? then name.value else "Unnamed regex",
        Priority(scope), index, find.value, ReplaceMatch(replace.value),
        Texts(Items(Field(value, "trimStrings"))), targets, surfaces,
        Flag(Field(value, "disabled")), Flag(Field(value, "runOnEdit")), ModeOf(n),
        Integer(Field(value, "minDepth")), NonNegative(Field(value, "maxDepth")));
      if !WithinRuleLimits(rule) {
        return Failure(InvalidRule);
      }
      if !Compiles(engine, FillMacros(rule.findRegex)) {
        return Failure(BadPattern);
      }
      return Success(RuleView(rule, scope, inactive));
    }

    method ParseAll(engine: Engine, value: JsValue, scope: Scope, path: string)
      returns (r: Result<seq<RuleView>, ImportError>)
      modifies this`warnings
      ensures r == ParseArray(engine, value, scope)
      ensures r.Success? ==> warnings == old(warnings) + ItemWarnings(value.items, path)
    {
      hide Parse, RuleWarnings;
      if !value.JsArray? {
        return Failure(MustBeAnArray);
      }
      if |value.items| > 256 {
        return Failure(TooManyRules);
      }
      var parsed: seq<RuleView> := [];
      ghost var earlier := warnings;
      for i := 0 to |value.items|
        invariant ParseItems(engine, value.items[..i], scope) == Success(parsed)
        invariant warnings == earlier + ItemWarnings(value.items[..i], path)
      {
        assert value.items[..i + 1][..i] == value.items[..i];
        var view := ParseRule(engine, value.items[i], scope, i, path);
        if view.Failure? {
          FirstErrorStays(engine, value.items, i + 1, scope);
          return Failure(view.error);
        }
        parsed := parsed + [view.value];
      }
      assert value.items[..|value.items|] == value.items;
      return Success(parsed);
    }

    method InstallRules(imported: seq<RuleView>)
      modifies this`views
      ensures views == SortViews(InstallAll(old(views), imported))
    {
      for i := 0 to |imported|
        invariant views == InstallAll(old(views), imported[..i])
      {
        assert imported[..i + 1][..i] == imported[..i];
        var index := IndexOf(views, imported[i].rule.id);
        if index >= 0 {
          views := views[index := imported[i]];
        } else {
          views := views + [imported[i]];
        }
      }
      assert imported[..|imported|] == imported;
      views := SortViews(views);
    }
  }

  /** `importTopLevelRegex` or `importEmbeddedRegex`, up to the installation. */
  method ImportRules(engine: Engine, document: JsValue, parts: ImportParts)
    returns (r: Result<seq<RuleView>, ImportError>)
    modifies parts`warnings
    ensures r == ImportedRules(engine, document)
  {
    hide ParseItems, ItemWarnings;
    if document.JsArray? {
      r := parts.ParseAll(engine, document, Global, "regex_scripts");
      return;
    }
    var character, preset: seq<RuleView> := [], [];
    var scripts := CharacterScripts(document);
    if scripts.Some? {
      var parsed := parts.ParseAll(engine, scripts.value, Character, "data.extensions.regex_scripts");
      if parsed.Failure? {
        return parsed;
      }
      character := parsed.value;
    }
    scripts := PresetScripts(document);
    if scripts.Some? {
      var parsed := parts.ParseAll(engine, scripts.value, Preset, "extensions.regex_scripts");
      if parsed.Failure? {
        return parsed;
      }
      preset := parsed.value;
    }
    return Success(character + preset);
  }

  /** `previewSillyTavernImport` builds one state that the importers change step by step. */
  method PreviewImport(engine: Engine, limits: JsonLimits, document: JsValue, base: Option<seq<Rule>>)
    returns (r: Result<seq<RuleView>, ImportError>)
    ensures r == Preview(engine, limits, document, base)
  {
    hide ImportedRules, SortViews, InstallAll, DetectKind, HasPromptOrder;
    var kind := DetectKind(document);
    if kind == Unknown {
      return Failure(NotARecognizedDocument);
    }
    if base.Some? && !limits.clones(base.value) {
      return Failure(SpecTooLarge);
    }
    var state := new ImportParts(if base.Some? then base.value else []);
    assert Views([]) == [];
    if kind == OpenAi && !HasPromptOrder(document) {
      return Failure(NoPromptOrder);
    }
    var imported := ImportRules(engine, document, state);
    if imported.Failure? {
      return imported;
    }
    state.InstallRules(imported.value);
    state.InstallRules([]);
    ghost var installed := InstallAll(BaseViews(base), imported.value);
    NothingToInstall(SortViews(installed));
    SortSorts(installed);
    SortedStays(SortViews(installed));
    if !limits.writes(document) {
      return Failure(DocumentTooLarge);
    }
    return Success(state.views);
  }

  lemma NothingToInstall(views: seq<RuleView>)
    ensures InstallAll(views, []) == views
  {
  }

  lemma {:induction false} FirstErrorStays(engine: Engine, items: seq<JsValue>, i: nat, scope: Scope)
    requires i <= |items| && ParseItems(engine, items[..i], scope).Failure?
    ensures ParseItems(engine, items, scope) == ParseItems(engine, items[..i], scope)
    decreases |items| - i
  {
    hide Parse;
    if i < |items| {
      assert items[..i + 1][..i] == items[..i];
      FirstErrorStays(engine, items, i + 1, scope);
    } else {
      assert items[..i] == items;
    }
  }
}
