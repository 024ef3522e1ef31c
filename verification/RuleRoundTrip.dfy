/**
 Export of a spec's rules as a bundle of documents and their import one after
 another (`export.ts`, `import.ts`).
 */
module RuleRoundTrip {
  import opened Wrappers
  import opened RegexRules
  import opened RuleImport

  // ----- what every run of imports keeps -----

  predicate DistinctIds(views: seq<RuleView>)
  {
    forall i, j :: 0 <= i < j < |views| ==> views[i].rule.id != views[j].rule.id
  }

  /** A view as the importer makes it. */
  predicate IsProduced(engine: Engine, view: RuleView)
  {
    && Settled(engine, view.rule)
    && view.rule.priority == Priority(view.sourceScope) && view.sourceScope == SourceScope(view.rule)
  }

  predicate AllProduced(engine: Engine, views: seq<RuleView>)
  {
    forall i :: 0 <= i < |views| ==> IsProduced(engine, views[i])
  }

  predicate SpecInvariant(engine: Engine, views: seq<RuleView>)
  {
    AllProduced(engine, views) && DistinctIds(views) && IsSorted(views)
  }

  lemma {:induction false} ParsedAreProduced(engine: Engine, items: seq<JsValue>, scope: Scope)
    ensures ParseItems(engine, items, scope).Success? ==> AllProduced(engine, ParseItems(engine, items, scope).value)
  {
    if items != [] && ParseItems(engine, items, scope).Success? {
      hide ParseItems, IsProduced, Parse;
      LastParsed(engine, items, scope);
      ParsedAreProduced(engine, items[..|items| - 1], scope);
      ParsedIsProduced(engine, items[|items| - 1], scope, |items| - 1);
    }
  }

  lemma {:induction false} LastParsed(engine: Engine, items: seq<JsValue>, scope: Scope)
    requires items != [] && ParseItems(engine, items, scope).Success?
    ensures var before, last := ParseItems(engine, items[..|items| - 1], scope), Parse(engine, items[|items| - 1], scope, |items| - 1);
            before.Success? && last.Success? && ParseItems(engine, items, scope).value == before.value + [last.value]
  {
    hide Parse;
  }

  lemma {:induction false} ParsedIsProduced(engine: Engine, value: JsValue, scope: Scope, index: nat)
    requires Parse(engine, value, scope, index).Success?
    ensures IsProduced(engine, Parse(engine, value, scope, index).value)
  {
    hide Settled, Parse;
    ParsedIsSettled(engine, value, scope, index);
    ParsedPriority(engine, value, scope, index);
  }

  lemma {:induction false} ParsedPriority(engine: Engine, value: JsValue, scope: Scope, index: nat)
    requires Parse(engine, value, scope, index).Success?
    ensures var view := Parse(engine, value, scope, index).value;
            view.sourceScope == scope && view.rule.priority == Priority(scope)
  {
    hide Compiles, FillMacros, Trim, ReplaceMatch, Texts, Targets, Inactive, Placements, RuleId, Integers, Distinct, SurfacesFor;
  }

  lemma {:induction false} ImportedAreProduced(engine: Engine, document: JsValue)
    requires ImportedRules(engine, document).Success?
    ensures AllProduced(engine, ImportedRules(engine, document).value)
  {
    hide IsProduced, ParseItems;
    forall items, scope
      ensures ParseItems(engine, items, scope).Success? ==> AllProduced(engine, ParseItems(engine, items, scope).value)
    {
      ParsedAreProduced(engine, items, scope);
    }
  }

  lemma {:induction false} InstallOneKeeps(engine: Engine, views: seq<RuleView>, view: RuleView)
    requires AllProduced(engine, views) && IsProduced(engine, view) && DistinctIds(views)
    ensures AllProduced(engine, InstallOne(views, view)) && DistinctIds(InstallOne(views, view))
  {
    hide IsProduced, Settled;
  }

  lemma {:induction false} InstallKeeps(engine: Engine, views: seq<RuleView>, imported: seq<RuleView>)
    requires AllProduced(engine, views) && AllProduced(engine, imported) && DistinctIds(views)
    ensures AllProduced(engine, InstallAll(views, imported)) && DistinctIds(InstallAll(views, imported))
  {
    if imported != [] {
      hide IsProduced, DistinctIds, InstallOne;
      InstallKeeps(engine, views, imported[..|imported| - 1]);
      InstallOneKeeps(engine, InstallAll(views, imported[..|imported| - 1]), imported[|imported| - 1]);
    }
  }

  lemma {:induction false} InsertKeepsDistinct(views: seq<RuleView>, view: RuleView)
    requires DistinctIds(views + [view])
    ensures DistinctIds(InsertSorted(views, view))
    ensures forall v :: v in InsertSorted(views, view) <==> v in views + [view]
  {
    if views != [] && !NotAfter(views[|views| - 1], view) {
      var init, last := views[..|views| - 1], views[|views| - 1];
      hide NotAfter;
      assert views == init + [last];
      assert forall i :: 0 <= i < |init| ==> (init + [view])[i] == (views + [view])[i];
      assert (views + [view])[|views|] == view && (init + [view])[|init|] == view;
      forall i, j | 0 <= i < j < |init + [view]| ensures (init + [view])[i].rule.id != (init + [view])[j].rule.id {
        assert (views + [view])[if j < |init| then j else |views|] == (init + [view])[j];
      }
      InsertKeepsDistinct(init, view);
      var rest := InsertSorted(init, view);
      forall i | 0 <= i < |rest| ensures rest[i].rule.id != last.rule.id {
        assert rest[i] in init + [view];
        assert (views + [view])[|init|] == last && (views + [view])[|views|] == view;
        if rest[i] in init {
          var j :| 0 <= j < |init| && init[j] == rest[i];
          assert (views + [view])[j] == rest[i];
        }
      }
    }
  }

  lemma {:induction false} SortKeeps(engine: Engine, views: seq<RuleView>)
    requires AllProduced(engine, views) && DistinctIds(views)
    ensures SpecInvariant(engine, SortViews(views))
  {
    hide IsProduced;
    SortSorts(views);
    SortKeepsDistinct(views);
    forall i | 0 <= i < |SortViews(views)| ensures IsProduced(engine, SortViews(views)[i]) {
      assert SortViews(views)[i] in multiset(SortViews(views));
      assert SortViews(views)[i] in views;
    }
  }

  lemma {:induction false} SortKeepsDistinct(views: seq<RuleView>)
    requires DistinctIds(views)
    ensures DistinctIds(SortViews(views))
  {
    if views != [] {
      var init, last := views[..|views| - 1], views[|views| - 1];
      assert forall i :: 0 <= i < |init| ==> init[i] == views[i];
      SortKeepsDistinct(init);
      SortSorts(init);
      var sorted := SortViews(init);
      forall i | 0 <= i < |sorted| ensures sorted[i].rule.id != last.rule.id {
        assert sorted[i] in multiset(sorted);
        assert sorted[i] in init;
      }
      hide InsertSorted;
      InsertKeepsDistinct(sorted, last);
    }
  }

  lemma {:induction false} PreviewKeeps(
      engine: Engine, limits: JsonLimits, document: JsValue, base: Option<seq<Rule>>, views: seq<RuleView>)
    requires SpecInvariant(engine, views) && (base.Some? ==> base.value == Rules(views))
    ensures var r := Preview(engine, limits, document, base); r.Success? ==> SpecInvariant(engine, r.value)
  {
    hide DetectKind, HasPromptOrder, ImportedRules, InstallAll, SortViews, SourceScope, Settled;
    var before := BaseViews(base);
    assert base.Some? ==> forall i :: 0 <= i < |views| ==>
        before[i].rule == views[i].rule && before[i].sourceScope == views[i].sourceScope;
    assert AllProduced(engine, before);
    if ImportedRules(engine, document).Success? {
      var rules := ImportedRules(engine, document).value;
      ImportedAreProduced(engine, document);
      InstallKeeps(engine, before, rules);
      SortKeeps(engine, InstallAll(before, rules));
    }
  }

  /** The base spec for the next of a run of imports: none for the first. */
  function NextBase(documents: seq<JsValue>, views: seq<RuleView>): Option<seq<Rule>>
  {
    if documents == [] then None else Some(Rules(views))
  }

  /** Imports one after another, each into the spec of the one before, starting without a spec. */
  function ImportAll(engine: Engine, limits: JsonLimits, documents: seq<JsValue>): Result<seq<RuleView>, ImportError>
  {
    if documents == [] then Success([])
    else
      var init := documents[..|documents| - 1];
      var before := ImportAll(engine, limits, init);
      if before.Failure? then before
      else Preview(engine, limits, documents[|documents| - 1], NextBase(init, before.value))
  }

  /** Every run of imports that starts without a spec. */
  lemma {:induction false} RunInvariant(engine: Engine, limits: JsonLimits, documents: seq<JsValue>)
    ensures var r := ImportAll(engine, limits, documents); r.Success? ==> SpecInvariant(engine, r.value)
  {
    if documents != [] && ImportAll(engine, limits, documents).Success? {
      hide Preview, Settled;
      var init := documents[..|documents| - 1];
      RunInvariant(engine, limits, init);
      var views := ImportAll(engine, limits, init).value;
      PreviewKeeps(engine, limits, documents[|documents| - 1], NextBase(init, views), views);
    }
  }

  // ----- installing replaces by id -----

  /** The last view of an id. */
  function LastWith(views: seq<RuleView>, id: string): Option<RuleView>
  {
    if views == [] then None
    else if views[|views| - 1].rule.id == id then Some(views[|views| - 1])
    else LastWith(views[..|views| - 1], id)
  }

  lemma {:induction false} LastWithIsThe(views: seq<RuleView>, id: string)
    requires DistinctIds(views)
    ensures match LastWith(views, id)
            case None => forall i :: 0 <= i < |views| ==> views[i].rule.id != id
            case Some(view) => view in views && view.rule.id == id
                               && forall i :: 0 <= i < |views| && views[i].rule.id == id ==> views[i] == view
  {
    if views != [] {
      LastWithIsThe(views[..|views| - 1], id);
    }
  }

  /** After an import each id shows the last imported rule of that id, or the rule it had before. */
  lemma {:induction false} LastImportWins(views: seq<RuleView>, imported: seq<RuleView>, id: string)
    requires DistinctIds(views)
    ensures DistinctIds(InstallAll(views, imported))
    ensures LastWith(InstallAll(views, imported), id)
         == if LastWith(imported, id).Some? then LastWith(imported, id) else LastWith(views, id)
  {
    hide LastWith, DistinctIds, InstallOne;
    if imported == [] {
      NoneWith(id);
    } else {
      var init, view := imported[..|imported| - 1], imported[|imported| - 1];
      LastImportWins(views, init, id);
      LastWithStep(imported, id);
      OneImport(InstallAll(views, init), view, id);
    }
  }

  lemma NoneWith(id: string)
    ensures LastWith([], id) == None
  {
  }

  lemma {:induction false} OneImport(before: seq<RuleView>, view: RuleView, id: string)
    requires DistinctIds(before)
    ensures DistinctIds(InstallOne(before, view))
    ensures LastWith(InstallOne(before, view), id) == if view.rule.id == id then Some(view) else LastWith(before, id)
  {
    hide LastWith;
    var after := InstallOne(before, view);
    var k := IndexOf(before, view.rule.id);
    if view.rule.id == id {
      LastWithIsThe(after, id);
      assert after[if k >= 0 then k else |before|] == view;
    } else {
      OtherIds(before, view, id);
    }
  }

  lemma LastWithStep(views: seq<RuleView>, id: string)
    requires views != []
    ensures LastWith(views, id)
         == if views[|views| - 1].rule.id == id then Some(views[|views| - 1]) else LastWith(views[..|views| - 1], id)
  {
  }

  lemma {:induction false} OtherIds(before: seq<RuleView>, view: RuleView, id: string)
    requires DistinctIds(before) && view.rule.id != id && DistinctIds(InstallOne(before, view))
    ensures LastWith(InstallOne(before, view), id) == LastWith(before, id)
  {
    hide LastWith;
    var after := InstallOne(before, view);
    LastWithIsThe(before, id);
    LastWithIsThe(after, id);
    forall i | 0 <= i < |before| && before[i].rule.id == id ensures after[i] == before[i] {
    }
  }

  // ----- export -----

  /** The members that generation settings and a prefill add to the preset document. */
  const SETTINGS := {
    "temperature", "top_p", "openai_max_tokens", "seed", "stop", "frequency_penalty", "presence_penalty",
    "top_k", "top_a", "min_p", "repetition_penalty", "assistant_prefill"
  }

  type Settings = m: map<string, JsValue> | m.Keys <= SETTINGS witness map[]

  /** What the preset document holds besides rules. */
  datatype Preamble = Preamble(name: string, settings: Settings, prompts: seq<JsValue>, order: seq<JsValue>)

  function OfScope(rules: seq<Rule>, scope: Scope): seq<Rule>
  {
    if rules == [] then []
    else
      var last := rules[|rules| - 1];
      OfScope(rules[..|rules| - 1], scope) + (if SourceScope(last) == scope then [last] else [])
  }

  function ExportRules(rules: seq<Rule>): (r: seq<JsValue>)
    ensures |r| == |rules|
  {
    if rules == [] then [] else ExportRules(rules[..|rules| - 1]) + [ExportRule(rules[|rules| - 1])]
  }

  function PresetDocument(preamble: Preamble, rules: seq<Rule>): JsValue
  {
    JsObject(
      preamble.settings
      + map["name" := JsText(preamble.name),
            "prompts" := JsArray(preamble.prompts),
            "prompt_order" := JsArray([JsObject(map[
              "character_id" := JsNumber(Some(100001)), "order" := JsArray(preamble.order)])])]
      + (if rules == [] then map[]
         else map["extensions" := JsObject(map["regex_scripts" := JsArray(ExportRules(rules))])]))
  }

  function CharacterDocument(rules: seq<Rule>): JsValue
  {
    JsObject(map["data" := JsObject(map["extensions" := JsObject(map["regex_scripts" := JsArray(ExportRules(rules))])])])
  }

  function GlobalDocuments(rules: seq<Rule>): seq<JsValue>
  {
    if OfScope(rules, Global) == [] then [] else [JsArray(ExportRules(OfScope(rules, Global)))]
  }

  function CharacterDocuments(rules: seq<Rule>): seq<JsValue>
  {
    if OfScope(rules, Character) == [] then [] else [CharacterDocument(OfScope(rules, Character))]
  }

  /** `exportSillyTavernBundle`: the preset always, the other scopes only if they have rules. */
  function ExportBundle(preamble: Preamble, rules: seq<Rule>): seq<JsValue>
  {
    [PresetDocument(preamble, OfScope(rules, Preset))] + GlobalDocuments(rules) + CharacterDocuments(rules)
  }

  // ----- what each document reads as -----

  /** The views of one scope's rules after a trip: same rules, numbered from 0. */
  function PlacedViews(rules: seq<Rule>): (r: seq<RuleView>)
    ensures |r| == |rules|
  {
    seq(|rules|, i requires 0 <= i < |rules| => RuleView(Placed(rules[i], i), SourceScope(rules[i]), []))
  }

  predicate AllSettled(engine: Engine, rules: seq<Rule>)
  {
    forall i :: 0 <= i < |rules| ==> Settled(engine, rules[i])
  }

  predicate AllOfScope(rules: seq<Rule>, scope: Scope)
  {
    forall i :: 0 <= i < |rules| ==> SourceScope(rules[i]) == scope
  }

  lemma {:induction false} ParseMore(engine: Engine, items: seq<JsValue>, item: JsValue, scope: Scope, view: RuleView)
    requires ParseItems(engine, items, scope).Success? && Parse(engine, item, scope, |items|) == Success(view)
    ensures ParseItems(engine, items + [item], scope) == Success(ParseItems(engine, items, scope).value + [view])
  {
    hide Parse;
    assert (items + [item])[..|items|] == items;
  }

  lemma {:induction false} LastRule(rules: seq<Rule>)
    requires rules != []
    ensures var init, last := rules[..|rules| - 1], rules[|rules| - 1];
            && ExportRules(rules) == ExportRules(init) + [ExportRule(last)]
            && PlacedViews(rules) == PlacedViews(init) + [RuleView(Placed(last, |init|), SourceScope(last), [])]
  {
    hide ExportRule, Placed, SourceScope;
  }

  lemma NoRules(engine: Engine, scope: Scope)
    ensures ParseItems(engine, ExportRules([]), scope) == Success(PlacedViews([]))
  {
  }

  lemma {:induction false} ExportedParse(engine: Engine, rules: seq<Rule>, scope: Scope)
    requires AllSettled(engine, rules) && AllOfScope(rules, scope)
    ensures ParseItems(engine, ExportRules(rules), scope) == Success(PlacedViews(rules))
  {
    hide Settled, Parse, ParseItems, ExportRule, SourceScope, ExportRules, Placed, PlacedViews;
    if rules == [] {
      NoRules(engine, scope);
    } else {
      var init, last := rules[..|rules| - 1], rules[|rules| - 1];
      LastRule(rules);
      ExportedParse(engine, init, scope);
      SettledComesBack(engine, last, |init|);
      ParseMore(engine, ExportRules(init), ExportRule(last), scope, RuleView(Placed(last, |init|), scope, []));
    }
  }

  lemma {:induction false} ExportedIsRegexArray(rules: seq<Rule>)
    ensures IsRegexArray(Some(JsArray(ExportRules(rules))))
  {
    if rules != [] {
      hide ExportRule, Field, Text;
      ExportedIsRegexArray(rules[..|rules| - 1]);
      ExportedTexts(rules[|rules| - 1]);
    }
  }

  lemma {:induction false} PresetScriptsRead(preamble: Preamble, rules: seq<Rule>)
    ensures CharacterScripts(PresetDocument(preamble, rules)) == None
    ensures PresetScripts(PresetDocument(preamble, rules))
         == if rules == [] then None else Some(JsArray(ExportRules(rules)))
  {
    hide ExportRules;
    assert "data" !in preamble.settings && "extensions" !in preamble.settings;
  }

  lemma {:induction false} PromptsRead(preamble: Preamble, rules: seq<Rule>)
    ensures Field(PresetDocument(preamble, rules), "prompts") == Some(JsArray(preamble.prompts))
    ensures Items(Field(PresetDocument(preamble, rules), "prompt_order"))
         == [JsObject(map["character_id" := JsNumber(Some(100001)), "order" := JsArray(preamble.order)])]
    ensures IsArray(Field(PresetDocument(preamble, rules), "prompt_order"))
  {
    hide ExportRules;
  }

  lemma {:induction false} PresetIsOpenAi(preamble: Preamble, rules: seq<Rule>)
    ensures DetectKind(PresetDocument(preamble, rules)) == OpenAi && HasPromptOrder(PresetDocument(preamble, rules))
  {
    PromptsRead(preamble, rules);
    var order := JsObject(map["character_id" := JsNumber(Some(100001)), "order" := JsArray(preamble.order)]);
    assert FirstForDefault([order]) == Some(order);
  }

  /** The result of an array of exported rules, whatever they hold. */
  function ArrayResult(engine: Engine, rules: seq<Rule>, scope: Scope): Result<seq<RuleView>, ImportError>
  {
    if |rules| > 256 then Failure(TooManyRules) else ParseItems(engine, ExportRules(rules), scope)
  }

  lemma {:induction false} PresetImport(engine: Engine, preamble: Preamble, rules: seq<Rule>)
    ensures ImportedRules(engine, PresetDocument(preamble, rules)) == ArrayResult(engine, rules, Preset)
  {
    hide CharacterScripts, PresetScripts;
    PresetScriptsRead(preamble, rules);
    var r := ArrayResult(engine, rules, Preset);
    assert r.Success? ==> [] + r.value == r.value;
  }

  lemma {:induction false} CharacterImport(engine: Engine, rules: seq<Rule>)
    ensures ImportedRules(engine, CharacterDocument(rules)) == ArrayResult(engine, rules, Character)
    ensures DetectKind(CharacterDocument(rules)) == RegexScripts
  {
    ExportedIsRegexArray(rules);
    hide ExportRules, ParseItems, HasAny, Has;
    var r := ArrayResult(engine, rules, Character);
    assert r.Success? ==> r.value + [] == r.value;
  }

  lemma {:induction false} GlobalImport(engine: Engine, rules: seq<Rule>)
    ensures ImportedRules(engine, JsArray(ExportRules(rules))) == ArrayResult(engine, rules, Global)
    ensures DetectKind(JsArray(ExportRules(rules))) == RegexScripts
  {
    ExportedIsRegexArray(rules);
    hide ParseItems, HasAny, Has;
  }

  // ----- the trip -----

  /** The bundle imported document by document, starting without a spec. */
  function Trip(engine: Engine, limits: JsonLimits, preamble: Preamble, rules: seq<Rule>): Result<seq<RuleView>, ImportError>
  {
    ImportAll(engine, limits, ExportBundle(preamble, rules))
  }

  predicate DistinctRuleIds(rules: seq<Rule>)
  {
    forall i, j :: 0 <= i < j < |rules| ==> rules[i].id != rules[j].id
  }

  predicate FitsScopes(rules: seq<Rule>)
  {
    |OfScope(rules, Global)| <= 256 && |OfScope(rules, Character)| <= 256 && |OfScope(rules, Preset)| <= 256
  }

  predicate ScopesAscend(rules: seq<Rule>)
  {
    forall i, j :: 0 <= i < j < |rules| ==> Priority(SourceScope(rules[i])) <= Priority(SourceScope(rules[j]))
  }

  lemma {:induction false} OfScopeMembers(rules: seq<Rule>, scope: Scope)
    ensures AllOfScope(OfScope(rules, scope), scope)
    ensures forall r :: r in OfScope(rules, scope) <==> r in rules && SourceScope(r) == scope
  {
    if rules != [] {
      var init, last := rules[..|rules| - 1], rules[|rules| - 1];
      hide SourceScope;
      OfScopeMembers(init, scope);
      assert rules == init + [last];
      assert OfScope(rules, scope) == OfScope(init, scope) + (if SourceScope(last) == scope then [last] else []);
      hide OfScope;
    }
  }

  lemma {:induction false} OfScopeDistinct(rules: seq<Rule>, scope: Scope)
    requires DistinctRuleIds(rules)
    ensures DistinctRuleIds(OfScope(rules, scope))
  {
    if rules != [] {
      var init, last := rules[..|rules| - 1], rules[|rules| - 1];
      hide SourceScope;
      OfScopeDistinct(init, scope);
      OfScopeMembers(init, scope);
      assert forall i :: 0 <= i < |OfScope(init, scope)| ==> OfScope(init, scope)[i] in init;
    }
  }

  /** No id of `a` occurs in `b`. */
  predicate Apart(a: seq<RuleView>, b: seq<RuleView>)
  {
    forall i, j :: 0 <= i < |a| && 0 <= j < |b| ==> a[i].rule.id != b[j].rule.id
  }

  lemma {:induction false} ScopesApart(rules: seq<Rule>, s: Scope, t: Scope)
    requires DistinctRuleIds(rules) && s != t
    ensures Apart(PlacedViews(OfScope(rules, s)), PlacedViews(OfScope(rules, t)))
  {
    OfScopeMembers(rules, s);
    OfScopeMembers(rules, t);
    hide SourceScope, OfScope;
    forall i, j | 0 <= i < |OfScope(rules, s)| && 0 <= j < |OfScope(rules, t)|
      ensures OfScope(rules, s)[i].id != OfScope(rules, t)[j].id
    {
      var a, b := OfScope(rules, s)[i], OfScope(rules, t)[j];
      var k :| 0 <= k < |rules| && rules[k] == a;
      var l :| 0 <= l < |rules| && rules[l] == b;
    }
  }

  lemma {:induction false} PlacedAreSorted(rules: seq<Rule>, scope: Scope)
    requires AllOfScope(rules, scope) && DistinctRuleIds(rules)
    ensures IsSorted(PlacedViews(rules)) && DistinctIds(PlacedViews(rules))
    ensures forall i :: 0 <= i < |rules| ==> PlacedViews(rules)[i].rule.priority == Priority(scope)
    ensures Views(Rules(PlacedViews(rules))) == PlacedViews(rules)
  {
    forall i | 0 <= i < |rules| ensures ViewFromRuntime(PlacedViews(rules)[i].rule) == PlacedViews(rules)[i] {
      assert SourceScope(rules[i]) == scope;
    }
  }

  lemma {:induction false} InstallFresh(views: seq<RuleView>, block: seq<RuleView>)
    requires Apart(views, block) && DistinctIds(block)
    ensures InstallAll(views, block) == views + block
  {
    if block != [] {
      var init, last := block[..|block| - 1], block[|block| - 1];
      InstallFresh(views, init);
      assert views + block == views + init + [last];
      assert forall i :: 0 <= i < |views + init| ==>
          (views + init)[i].rule.id == if i < |views| then views[i].rule.id else block[i - |views|].rule.id;
    } else {
      assert views + block == views;
    }
  }

  /** Nothing on the way of one import exceeds the JSON limits. */
  predicate Stored(limits: JsonLimits, document: JsValue, base: Option<seq<Rule>>)
  {
    (base.Some? ==> limits.clones(base.value)) && limits.writes(document)
  }

  /** One document of a bundle: its views move in between those already there. */
  lemma {:induction false} PreviewBlock(
      engine: Engine, limits: JsonLimits, document: JsValue, base: Option<seq<Rule>>,
      left: seq<RuleView>, right: seq<RuleView>, block: seq<RuleView>, low: int, here: int, high: int)
    requires DetectKind(document) == OpenAi ==> HasPromptOrder(document)
    requires DetectKind(document) != Unknown && ImportedRules(engine, document) == Success(block)
    requires BaseViews(base) == left + right
    requires IsSorted(left) && IsSorted(right) && IsSorted(block)
    requires low < here < high
    requires forall i :: 0 <= i < |left| ==> left[i].rule.priority <= low
    requires forall i :: 0 <= i < |block| ==> block[i].rule.priority == here
    requires forall i :: 0 <= i < |right| ==> right[i].rule.priority >= high
    requires Apart(left, block) && Apart(right, block) && DistinctIds(block)
    ensures if Stored(limits, document, base) then Preview(engine, limits, document, base) == Success(left + block + right)
            else Preview(engine, limits, document, base).Failure?
  {
    hide DetectKind, HasPromptOrder, ImportedRules, InstallAll, SortViews, SourceScope;
    InstallFresh(left + right, block);
    SortBlock(left, right, block);
  }

  lemma {:induction false} ImportOne(engine: Engine, limits: JsonLimits, documents: seq<JsValue>, document: JsValue)
    ensures ImportAll(engine, limits, documents + [document])
         == if ImportAll(engine, limits, documents).Failure? then ImportAll(engine, limits, documents)
            else Preview(engine, limits, document, NextBase(documents, ImportAll(engine, limits, documents).value))
  {
    hide Preview;
    assert (documents + [document])[..|documents|] == documents;
  }

  lemma {:induction false} SplitViews(left: seq<RuleView>, right: seq<RuleView>)
    requires Views(Rules(left)) == left && Views(Rules(right)) == right
    ensures Views(Rules(left + right)) == left + right
  {
    assert Views(Rules(left + right)) == Views(Rules(left)) + Views(Rules(right));
  }

  lemma {:induction false} ImportBlock(
      engine: Engine, limits: JsonLimits, documents: seq<JsValue>, document: JsValue, rules: seq<Rule>, scope: Scope,
      left: seq<RuleView>, right: seq<RuleView>, low: int, high: int)
    requires DetectKind(document) == OpenAi ==> HasPromptOrder(document)
    requires DetectKind(document) != Unknown && ImportedRules(engine, document) == ArrayResult(engine, rules, scope)
    requires |rules| <= 256 && AllSettled(engine, rules) && AllOfScope(rules, scope) && DistinctRuleIds(rules)
    requires ImportAll(engine, limits, documents) == Success(left + right)
    requires Views(Rules(left)) == left && Views(Rules(right)) == right && IsSorted(left) && IsSorted(right)
    requires low < Priority(scope) < high
    requires forall i :: 0 <= i < |left| ==> left[i].rule.priority <= low
    requires forall i :: 0 <= i < |right| ==> right[i].rule.priority >= high
    requires Apart(left, PlacedViews(rules)) && Apart(right, PlacedViews(rules))
    ensures if Stored(limits, document, NextBase(documents, left + right)) then
              ImportAll(engine, limits, documents + [document]) == Success(left + PlacedViews(rules) + right)
            else ImportAll(engine, limits, documents + [document]).Failure?
  {
    hide DetectKind, HasPromptOrder, ImportedRules, Preview, ParseItems, SourceScope, Settled;
    ExportedParse(engine, rules, scope);
    PlacedAreSorted(rules, scope);
    ImportOne(engine, limits, documents, document);
    SplitViews(left, right);
    assert documents == [] ==> left + right == [];
    hide IsSorted, Apart, DistinctIds, PlacedViews, Views, Rules, ExportRules, Placed, ImportAll;
    PreviewBlock(engine, limits, document, NextBase(documents, left + right), left, right, PlacedViews(rules), low, Priority(scope), high);
  }

  /** The views of a good spec after a trip: scope by scope, each numbered from 0. */
  function ScopeByScope(rules: seq<Rule>): seq<RuleView>
  {
    PlacedViews(OfScope(rules, Global)) + PlacedViews(OfScope(rules, Character)) + PlacedViews(OfScope(rules, Preset))
  }

  lemma {:induction false} OfScopeSettled(engine: Engine, rules: seq<Rule>, scope: Scope)
    requires AllSettled(engine, rules)
    ensures AllSettled(engine, OfScope(rules, scope))
  {
    hide Settled, OfScope;
    OfScopeMembers(rules, scope);
  }

  lemma {:induction false} ScopeFacts(engine: Engine, rules: seq<Rule>, scope: Scope)
    requires AllSettled(engine, rules) && DistinctRuleIds(rules)
    ensures var s := OfScope(rules, scope);
            AllSettled(engine, s) && AllOfScope(s, scope) && DistinctRuleIds(s)
            && IsSorted(PlacedViews(s)) && Views(Rules(PlacedViews(s))) == PlacedViews(s)
            && forall i :: 0 <= i < |s| ==> PlacedViews(s)[i].rule.priority == Priority(scope)
  {
    hide Settled, OfScope, SourceScope;
    OfScopeSettled(engine, rules, scope);
    OfScopeMembers(rules, scope);
    OfScopeDistinct(rules, scope);
    PlacedAreSorted(OfScope(rules, scope), scope);
  }

  // ----- the JSON limits on the way -----

  predicate PresetStored(limits: JsonLimits, preamble: Preamble, rules: seq<Rule>)
  {
    limits.writes(PresetDocument(preamble, OfScope(rules, Preset)))
  }

  predicate GlobalStored(limits: JsonLimits, rules: seq<Rule>)
  {
    OfScope(rules, Global) == []
    || (limits.writes(JsArray(ExportRules(OfScope(rules, Global)))) && limits.clones(Rules(PlacedViews(OfScope(rules, Preset)))))
  }

  predicate CharacterStored(limits: JsonLimits, rules: seq<Rule>)
  {
    OfScope(rules, Character) == []
    || (limits.writes(CharacterDocument(OfScope(rules, Character)))
        && limits.clones(Rules(PlacedViews(OfScope(rules, Global)) + PlacedViews(OfScope(rules, Preset)))))
  }

  /** Each document of the bundle can be written, and the spec before each but the first can be cloned. */
  predicate FitsJson(limits: JsonLimits, preamble: Preamble, rules: seq<Rule>)
  {
    PresetStored(limits, preamble, rules) && GlobalStored(limits, rules) && CharacterStored(limits, rules)
  }

  lemma {:induction false} AfterPreset(engine: Engine, limits: JsonLimits, preamble: Preamble, rules: seq<Rule>)
    requires AllSettled(engine, rules) && DistinctRuleIds(rules) && FitsScopes(rules)
    ensures var r := ImportAll(engine, limits, [PresetDocument(preamble, OfScope(rules, Preset))]);
            if PresetStored(limits, preamble, rules) then r == Success(PlacedViews(OfScope(rules, Preset))) else r.Failure?
  {
    hide DetectKind, HasPromptOrder, ImportedRules, OfScope, PlacedViews, AllSettled, DistinctRuleIds;
    hide ExportRules, PresetDocument, ArrayResult;
    var p := OfScope(rules, Preset);
    var document, block := PresetDocument(preamble, p), PlacedViews(p);
    ScopeFacts(engine, rules, Preset);
    PresetIsOpenAi(preamble, p);
    PresetImport(engine, preamble, p);
    EmptyIsSorted();
    assert [] + [document] == [document] && [] + block + [] == block && [] + block == block;
    var none: seq<RuleView> := [];
    assert none + none == none;
    ImportBlock(engine, limits, [], document, p, Preset, [], [], 1999, 2001);
  }

  lemma {:induction false} AfterGlobal(engine: Engine, limits: JsonLimits, documents: seq<JsValue>, rules: seq<Rule>)
    requires AllSettled(engine, rules) && DistinctRuleIds(rules) && FitsScopes(rules)
    requires documents != [] && ImportAll(engine, limits, documents) == Success(PlacedViews(OfScope(rules, Preset)))
    ensures var r := ImportAll(engine, limits, documents + GlobalDocuments(rules));
            if GlobalStored(limits, rules) then r == Success(PlacedViews(OfScope(rules, Global)) + PlacedViews(OfScope(rules, Preset)))
            else r.Failure?
  {
    hide DetectKind, HasPromptOrder, ImportedRules, ImportAll, OfScope, AllSettled, DistinctRuleIds;
    hide ExportRules, ArrayResult, IsSorted, Views, Rules;
    var g, p := OfScope(rules, Global), OfScope(rules, Preset);
    var none: seq<RuleView> := [];
    assert none + PlacedViews(p) == PlacedViews(p) && none + PlacedViews(g) == PlacedViews(g);
    if g == [] {
      assert documents + [] == documents && PlacedViews(g) == none;
    } else {
      hide PlacedViews;
      ScopeFacts(engine, rules, Global);
      ScopeFacts(engine, rules, Preset);
      ScopesApart(rules, Preset, Global);
      GlobalImport(engine, g);
      EmptyIsSorted();
      ImportBlock(engine, limits, documents, JsArray(ExportRules(g)), g, Global, [], PlacedViews(p), -1, 2000);
    }
  }

  lemma {:induction false} AfterCharacter(engine: Engine, limits: JsonLimits, documents: seq<JsValue>, rules: seq<Rule>)
    requires AllSettled(engine, rules) && DistinctRuleIds(rules) && FitsScopes(rules) && documents != []
    requires ImportAll(engine, limits, documents)
          == Success(PlacedViews(OfScope(rules, Global)) + PlacedViews(OfScope(rules, Preset)))
    ensures var r := ImportAll(engine, limits, documents + CharacterDocuments(rules));
            if CharacterStored(limits, rules) then r == Success(ScopeByScope(rules)) else r.Failure?
  {
    hide DetectKind, HasPromptOrder, ImportedRules, ImportAll, OfScope, AllSettled, DistinctRuleIds;
    hide ExportRules, CharacterDocument, ArrayResult, IsSorted, Views, Rules;
    var g, c, p := OfScope(rules, Global), OfScope(rules, Character), OfScope(rules, Preset);
    if c == [] {
      assert documents + [] == documents && PlacedViews(g) + PlacedViews(c) + PlacedViews(p) == PlacedViews(g) + PlacedViews(p);
    } else {
      hide PlacedViews;
      ScopeFacts(engine, rules, Global);
      ScopeFacts(engine, rules, Character);
      ScopeFacts(engine, rules, Preset);
      ScopesApart(rules, Global, Character);
      ScopesApart(rules, Preset, Character);
      CharacterImport(engine, c);
      ImportBlock(engine, limits, documents, CharacterDocument(c), c, Character, PlacedViews(g), PlacedViews(p), 0, 2000);
    }
  }

  lemma EmptyIsSorted()
    ensures IsSorted([]) && Views(Rules([])) == []
  {
  }

  lemma {:induction false} TripOfGood(engine: Engine, limits: JsonLimits, preamble: Preamble, rules: seq<Rule>)
    requires AllSettled(engine, rules) && DistinctRuleIds(rules) && FitsScopes(rules)
    ensures if FitsJson(limits, preamble, rules) then Trip(engine, limits, preamble, rules) == Success(ScopeByScope(rules))
            else Trip(engine, limits, preamble, rules).Failure?
  {
    hide ImportAll, OfScope, PlacedViews, AllSettled, DistinctRuleIds, PresetDocument, GlobalDocuments, CharacterDocuments, ScopeByScope;
    hide PresetStored, GlobalStored, CharacterStored;
    var first := [PresetDocument(preamble, OfScope(rules, Preset))];
    var second := first + GlobalDocuments(rules);
    AfterPreset(engine, limits, preamble, rules);
    if PresetStored(limits, preamble, rules) {
      AfterGlobal(engine, limits, first, rules);
    } else {
      FailureStays(engine, limits, first, GlobalDocuments(rules));
    }
    if PresetStored(limits, preamble, rules) && GlobalStored(limits, rules) {
      AfterCharacter(engine, limits, second, rules);
    } else {
      FailureStays(engine, limits, second, CharacterDocuments(rules));
    }
  }

  // ----- when a scope is too large -----

  lemma {:induction false} FailureStays(engine: Engine, limits: JsonLimits, documents: seq<JsValue>, more: seq<JsValue>)
    requires ImportAll(engine, limits, documents).Failure?
    ensures ImportAll(engine, limits, documents + more).Failure?
  {
    hide Preview;
    if more == [] {
      assert documents + more == documents;
    } else {
      var init := more[..|more| - 1];
      FailureStays(engine, limits, documents, init);
      assert documents + more == documents + init + [more[|more| - 1]];
      ImportOne(engine, limits, documents + init, more[|more| - 1]);
    }
  }

  lemma {:induction false} BadDocument(engine: Engine, limits: JsonLimits, documents: seq<JsValue>, document: JsValue)
    requires ImportedRules(engine, document).Failure?
    ensures ImportAll(engine, limits, documents + [document]).Failure?
  {
    hide DetectKind, HasPromptOrder, ImportedRules, SortViews, ImportAll;
    ImportOne(engine, limits, documents, document);
  }

  lemma {:induction false} Overflow(engine: Engine, limits: JsonLimits, preamble: Preamble, rules: seq<Rule>)
    requires !FitsScopes(rules)
    ensures Trip(engine, limits, preamble, rules).Failure?
  {
    hide ImportAll, OfScope, ImportedRules, PresetDocument, CharacterDocument, ExportRules;
    var g, c, p := OfScope(rules, Global), OfScope(rules, Character), OfScope(rules, Preset);
    var first := [PresetDocument(preamble, p)];
    var second := first + GlobalDocuments(rules);
    PresetImport(engine, preamble, p);
    GlobalImport(engine, g);
    CharacterImport(engine, c);
    if |p| > 256 {
      assert [] + first == first;
      BadDocument(engine, limits, [], PresetDocument(preamble, p));
      FailureStays(engine, limits, first, GlobalDocuments(rules));
      FailureStays(engine, limits, second, CharacterDocuments(rules));
    } else if |g| > 256 {
      BadDocument(engine, limits, first, JsArray(ExportRules(g)));
      FailureStays(engine, limits, second, CharacterDocuments(rules));
    } else {
      BadDocument(engine, limits, second, CharacterDocument(c));
    }
  }

  // ----- up to renumbering -----

  /** The same rules with `order` counted from 0 in each scope. */
  function Renumber(rules: seq<Rule>): seq<Rule>
  {
    seq(|rules|, i requires 0 <= i < |rules| => Placed(rules[i], |OfScope(rules[..i], SourceScope(rules[i]))|))
  }

  lemma {:induction false} RenumberLast(rules: seq<Rule>)
    requires rules != []
    ensures var init, last := rules[..|rules| - 1], rules[|rules| - 1];
            Renumber(rules) == Renumber(init) + [Placed(last, |OfScope(init, SourceScope(last))|)]
  {
    hide OfScope, SourceScope, Placed;
    assert forall i :: 0 <= i < |rules| ==> rules[..|rules| - 1][..i] == rules[..i];
  }

  function Numbered(rules: seq<Rule>, scope: Scope): seq<Rule>
  {
    Rules(PlacedViews(OfScope(rules, scope)))
  }

  lemma {:induction false} OfScopeLast(rules: seq<Rule>, scope: Scope)
    requires rules != []
    ensures Numbered(rules, scope)
         == Numbered(rules[..|rules| - 1], scope)
            + (if SourceScope(rules[|rules| - 1]) == scope
               then [Placed(rules[|rules| - 1], |OfScope(rules[..|rules| - 1], scope)|)] else [])
  {
    hide SourceScope, Placed;
  }

  lemma {:induction false} NothingAbove(rules: seq<Rule>, scope: Scope)
    requires rules != [] && ScopesAscend(rules) && Priority(SourceScope(rules[|rules| - 1])) < Priority(scope)
    ensures Numbered(rules[..|rules| - 1], scope) == []
  {
    hide OfScope, SourceScope;
    var init := rules[..|rules| - 1];
    assert OfScope(init, scope) == [] || OfScope(init, scope)[0] in OfScope(init, scope);
    assert forall i :: 0 <= i < |init| ==> init[i] == rules[i];
    assert forall r :: r in init ==> SourceScope(r) != scope;
    OfScopeMembers(init, scope);
  }

  lemma {:induction false} ScopeByScopeIsRenumbered(rules: seq<Rule>)
    requires ScopesAscend(rules)
    ensures Rules(ScopeByScope(rules)) == Renumber(rules)
  {
    hide OfScope, SourceScope, Placed, Renumber, Numbered, ScopeByScope, Rules;
    SumOfRules(rules);
    if rules == [] {
      NoneToRenumber();
    } else {
      var init, last := rules[..|rules| - 1], rules[|rules| - 1];
      assert ScopesAscend(init);
      ScopeByScopeIsRenumbered(init);
      SumOfRules(init);
      RenumberLast(rules);
      OfScopeLast(rules, Global);
      OfScopeLast(rules, Character);
      OfScopeLast(rules, Preset);
      if SourceScope(last) == Global {
        NothingAbove(rules, Character);
      }
      if SourceScope(last) != Preset {
        NothingAbove(rules, Preset);
      }
    }
  }

  lemma NoneToRenumber()
    ensures Renumber([]) == [] && Numbered([], Global) == [] && Numbered([], Character) == [] && Numbered([], Preset) == []
  {
  }

  lemma {:induction false} SumOfRules(rules: seq<Rule>)
    ensures Rules(ScopeByScope(rules)) == Numbered(rules, Global) + Numbered(rules, Character) + Numbered(rules, Preset)
  {
    hide OfScope;
  }

  lemma {:induction false} PlacedKeepsShape(engine: Engine, rule: Rule, index: nat)
    ensures Settled(engine, Placed(rule, index)) <==> Settled(engine, rule)
    ensures SourceScope(Placed(rule, index)) == SourceScope(rule) && Placed(rule, index).id == rule.id
  {
    hide Compiles, FillMacros, IsTrimmed, IsCompiled;
  }

  lemma {:induction false} GoodFromTrip(engine: Engine, rules: seq<Rule>, views: seq<RuleView>)
    requires SpecInvariant(engine, views) && Rules(views) == Renumber(rules)
    ensures AllSettled(engine, rules) && DistinctRuleIds(rules) && ScopesAscend(rules)
  {
    hide Settled, SourceScope, OfScope, Placed, Priority;
    assert |views| == |rules|;
    forall i | 0 <= i < |rules|
      ensures Settled(engine, rules[i]) && views[i].rule.id == rules[i].id
      ensures views[i].rule.priority == Priority(SourceScope(rules[i]))
    {
      assert Rules(views)[i] == views[i].rule;
      assert IsProduced(engine, views[i]);
      PlacedKeepsShape(engine, rules[i], |OfScope(rules[..i], SourceScope(rules[i]))|);
    }
  }

  /**
   For every spec: exporting its rules and importing the documents one after
   another gives back the same rules in the same order, renumbered within
   their scopes, exactly when each rule has the importer's shape, ids are
   distinct, scopes ascend, no scope has more than 256 rules and nothing on
   the way exceeds the JSON limits.
   */
  lemma {:induction false} RoundTrip(engine: Engine, limits: JsonLimits, preamble: Preamble, rules: seq<Rule>)
    ensures (var r := Trip(engine, limits, preamble, rules); r.Success? && Rules(r.value) == Renumber(rules))
       <==> AllSettled(engine, rules) && DistinctRuleIds(rules) && ScopesAscend(rules)
            && FitsScopes(rules) && FitsJson(limits, preamble, rules)
  {
    hide AllSettled, DistinctRuleIds, ScopesAscend, FitsScopes, FitsJson, ImportAll, ExportBundle, ScopeByScope, Renumber, Rules;
    var r := Trip(engine, limits, preamble, rules);
    if AllSettled(engine, rules) && DistinctRuleIds(rules) && ScopesAscend(rules) && FitsScopes(rules) {
      TripOfGood(engine, limits, preamble, rules);
      ScopeByScopeIsRenumbered(rules);
    }
    if r.Success? && Rules(r.value) == Renumber(rules) {
      RunInvariant(engine, limits, ExportBundle(preamble, rules));
      GoodFromTrip(engine, rules, r.value);
      if !FitsScopes(rules) { Overflow(engine, limits, preamble, rules); }
    }
  }

  /**
   A spec that any run of imports produced survives the trip exactly when no
   scope has more than 256 rules and nothing exceeds the JSON limits; otherwise
   the trip fails. The limits of the run need not be those of the trip, because
   the rest of the spec may differ.
   */
  lemma {:induction false} ProducedRoundTrip(
      engine: Engine, before: JsonLimits, limits: JsonLimits, preamble: Preamble, documents: seq<JsValue>)
    ensures var r := ImportAll(engine, before, documents);
            r.Success? ==> SurvivesTrip(engine, limits, preamble, Rules(r.value))
  {
    RunInvariant(engine, before, documents);
    if ImportAll(engine, before, documents).Success? {
      GoodSurvives(engine, limits, preamble, ImportAll(engine, before, documents).value);
    }
  }

  /** Export and import succeed exactly when nothing is too large, and then renumber the rules. */
  predicate SurvivesTrip(engine: Engine, limits: JsonLimits, preamble: Preamble, rules: seq<Rule>)
  {
    var r := Trip(engine, limits, preamble, rules);
    && (r.Success? <==> FitsScopes(rules) && FitsJson(limits, preamble, rules))
    && (r.Success? ==> Rules(r.value) == Renumber(rules))
  }

  lemma {:induction false} GoodSurvives(engine: Engine, limits: JsonLimits, preamble: Preamble, views: seq<RuleView>)
    requires SpecInvariant(engine, views)
    ensures SurvivesTrip(engine, limits, preamble, Rules(views))
  {
    ProducedIsGood(engine, views);
    hide AllSettled, DistinctRuleIds, ScopesAscend, FitsScopes, FitsJson, ImportAll, ExportBundle, Renumber, Rules, SpecInvariant;
    if FitsScopes(Rules(views)) {
      TripOfGood(engine, limits, preamble, Rules(views));
      RoundTrip(engine, limits, preamble, Rules(views));
    } else {
      Overflow(engine, limits, preamble, Rules(views));
    }
  }

  lemma {:induction false} ProducedIsGood(engine: Engine, views: seq<RuleView>)
    requires SpecInvariant(engine, views)
    ensures AllSettled(engine, Rules(views)) && DistinctRuleIds(Rules(views)) && ScopesAscend(Rules(views))
  {
    hide Settled, SourceScope, Priority;
    assert forall i :: 0 <= i < |views| ==> IsProduced(engine, views[i]) && Rules(views)[i] == views[i].rule;
  }

  // ----- a spec that does not survive -----

  /** An engine and limits that accept everything. */
  const LENIENT := Engine((_, _) => true, _ => 0)

  const UNLIMITED := JsonLimits(_ => true, _ => true)

  function PlainRule(n: nat): Rule
    requires n < 1000
  {
    Rule([(0x4E00 + n) as char], "", 0, n, "", "", [], [], [Canonical], false, false, NoMacros, None, None)
  }

  /** Two hundred rules, with ids of their own from `first` on. */
  function PlainRules(first: nat): (r: seq<Rule>)
    requires first <= 200
    ensures |r| == 200
  {
    seq(200, i requires 0 <= i < 200 => PlainRule(first + i))
  }

  lemma {:induction false} PlainRuleIsSettled(n: nat)
    requires n < 1000
    ensures Settled(LENIENT, PlainRule(n)) && SourceScope(PlainRule(n)) == Global
  {
    assert FillMacros("") == "" && Split("") == Some(("", ""));
    Fixed("");
    assert ReplaceMatch("") == "";
  }

  lemma {:induction false} PlainRulesAreGood(first: nat)
    requires first <= 200
    ensures AllSettled(LENIENT, PlainRules(first)) && AllOfScope(PlainRules(first), Global) && DistinctRuleIds(PlainRules(first))
  {
    hide Settled, SourceScope;
    forall n: nat | n < 1000 ensures Settled(LENIENT, PlainRule(n)) && SourceScope(PlainRule(n)) == Global {
      PlainRuleIsSettled(n);
    }
    assert forall i, j :: 0 <= i < j < 200 ==> PlainRules(first)[i].id[0] != PlainRules(first)[j].id[0];
  }

  function PlainDocument(first: nat): JsValue
    requires first <= 200
  {
    JsArray(ExportRules(PlainRules(first)))
  }

  lemma {:induction false} PlainDocumentParses(first: nat)
    requires first <= 200
    ensures DetectKind(PlainDocument(first)) == RegexScripts
    ensures ImportedRules(LENIENT, PlainDocument(first)) == Success(PlacedViews(PlainRules(first)))
  {
    hide ParseItems, ExportRules, PlacedViews, DetectKind, PlainRules;
    PlainRulesAreGood(first);
    GlobalImport(LENIENT, PlainRules(first));
    ExportedParse(LENIENT, PlainRules(first), Global);
  }

  lemma {:induction false} AllInScope(rules: seq<Rule>, scope: Scope)
    requires AllOfScope(rules, scope)
    ensures OfScope(rules, scope) == rules
  {
    if rules != [] {
      AllInScope(rules[..|rules| - 1], scope);
    }
  }

  /** Importing an acceptable document with fresh ids into what there is adds its rules. */
  lemma {:induction false} ImportFresh(document: JsValue, base: Option<seq<Rule>>, block: seq<RuleView>)
    requires DetectKind(document) == RegexScripts && ImportedRules(LENIENT, document) == Success(block)
    requires Apart(BaseViews(base), block) && DistinctIds(block)
    ensures var r := Preview(LENIENT, UNLIMITED, document, base);
            r.Success? && |r.value| == |BaseViews(base)| + |block| && multiset(r.value) == multiset(BaseViews(base)) + multiset(block)
  {
    hide DetectKind, ImportedRules, InstallAll, SortViews;
    InstallFresh(BaseViews(base), block);
    SortSorts(BaseViews(base) + block);
    assert |multiset(SortViews(BaseViews(base) + block))| == |multiset(BaseViews(base) + block)|;
  }

  lemma {:induction false} PlainIdsApart(views: seq<RuleView>)
    requires multiset(views) == multiset(PlacedViews(PlainRules(0)))
    ensures Apart(views, PlacedViews(PlainRules(200)))
  {
    forall i, j | 0 <= i < |views| && 0 <= j < 200 ensures views[i].rule.id != PlacedViews(PlainRules(200))[j].rule.id {
      assert views[i] in multiset(views);
      assert views[i] in multiset(PlacedViews(PlainRules(0)));
      var k :| 0 <= k < 200 && PlacedViews(PlainRules(0))[k] == views[i];
      assert PlainRules(0)[k] == PlainRule(k) && PlainRules(200)[j] == PlainRule(200 + j);
      assert PlainRule(k).id[0] != PlainRule(200 + j).id[0];
    }
  }

  /** Two documents of 200 rules each: every import succeeds, but the spec they leave cannot make the trip. */
  lemma {:induction false} ScopesCanOverflow(preamble: Preamble)
    ensures var r := ImportAll(LENIENT, UNLIMITED, [PlainDocument(0), PlainDocument(200)]);
            r.Success? && !FitsScopes(Rules(r.value)) && Trip(LENIENT, UNLIMITED, preamble, Rules(r.value)).Failure?
  {
    hide PlainDocument, PlainRules, PlacedViews, ImportAll, Preview, Apart;
    var first, second := PlainDocument(0), PlainDocument(200);
    PlainDocumentParses(0);
    PlainDocumentParses(200);
    PlainRulesAreGood(0);
    PlainRulesAreGood(200);
    PlacedAreSorted(PlainRules(0), Global);
    PlacedAreSorted(PlainRules(200), Global);
    NoneApart(PlacedViews(PlainRules(0)));
    ImportFresh(first, None, PlacedViews(PlainRules(0)));
    ImportNone();
    ImportOne(LENIENT, UNLIMITED, [], first);
    assert [] + [first] == [first] && [first] + [second] == [first, second];
    var views := ImportAll(LENIENT, UNLIMITED, [first]).value;
    assert multiset(views) == multiset(PlacedViews(PlainRules(0)));
    RuntimeViews(views, PlainRules(0));
    PlainIdsApart(views);
    ImportFresh(second, Some(Rules(views)), PlacedViews(PlainRules(200)));
    ImportOne(LENIENT, UNLIMITED, [first], second);
    var all := ImportAll(LENIENT, UNLIMITED, [first, second]).value;
    AllGlobal(all);
    AllInScope(Rules(all), Global);
    Overflow(LENIENT, UNLIMITED, preamble, Rules(all));
  }

  lemma ImportNone()
    ensures ImportAll(LENIENT, UNLIMITED, []) == Success([])
  {
  }

  lemma NoneApart(block: seq<RuleView>)
    ensures Apart(BaseViews(None), block)
  {
  }

  lemma {:induction false} RuntimeViews(views: seq<RuleView>, rules: seq<Rule>)
    requires multiset(views) == multiset(PlacedViews(rules))
    ensures Views(Rules(views)) == views
  {
    forall i | 0 <= i < |views| ensures ViewFromRuntime(views[i].rule) == views[i] {
      assert views[i] in multiset(PlacedViews(rules));
      var k :| 0 <= k < |rules| && PlacedViews(rules)[k] == views[i];
      assert SourceScope(Placed(rules[k], k)) == SourceScope(rules[k]);
    }
  }

  lemma {:induction false} AllGlobal(views: seq<RuleView>)
    requires multiset(views) == multiset(PlacedViews(PlainRules(0))) + multiset(PlacedViews(PlainRules(200)))
    ensures AllOfScope(Rules(views), Global)
  {
    hide PlainRules, PlacedViews;
    PlainRulesAreGood(0);
    PlainRulesAreGood(200);
    PlacedAreSorted(PlainRules(0), Global);
    PlacedAreSorted(PlainRules(200), Global);
    forall i | 0 <= i < |views| ensures SourceScope(views[i].rule) == Global {
      assert views[i] in multiset(views);
      assert views[i] in PlacedViews(PlainRules(0)) || views[i] in PlacedViews(PlainRules(200));
    }
  }
}
