/**
 SillyTavern text-transform rules: one rule as an exported JSON object
 (`export.ts`) and as the importer reads it (`regex.ts`).

 Strings hold Unicode scalar values, so the length limits count a character
 outside the basic plane once, where the source counts its two UTF-16 units.
 The regular-expression engine and the hash of a document are oracles.
 */
module RegexRules {
  import opened Wrappers
  import opened TextBasics

  /** A decoded JSON value; a number only shows its value as a safe integer, if it has one. */
  datatype JsValue =
    | JsNull
    | JsBool(flag: bool)
    | JsNumber(safe: Option<int>)
    | JsText(text: string)
    | JsArray(items: seq<JsValue>)
    | JsObject(fields: map<string, JsValue>)

  const MAX_SAFE_INTEGER := 9007199254740991

  datatype Scope = Global | Character | Preset
  datatype Target = UserInput | AssistantOutput | WorldInfo | Reasoning
  datatype Surface = Canonical | Prompt | Display
  datatype MacroMode = NoMacros | RawMacros | EscapedMacros

  /** `TextTransformRuleView`. */
  datatype Rule = Rule(
    id: string, name: string, priority: int, order: int,
    findRegex: string, replaceString: string, trimStrings: seq<string>,
    targets: seq<Target>, surfaces: seq<Surface>,
    disabled: bool, runOnEdit: bool, macroMode: MacroMode,
    minDepth: Option<int>, maxDepth: Option<int>)

  /** `SillyTavernTextTransformView`. */
  datatype RuleView = RuleView(rule: Rule, sourceScope: Scope, inactivePlacements: seq<int>)

  datatype WarningKind = LegacyDisplay | LegacySendAs | SlashInactive | UnknownPlacement(n: int) | UnknownSubstitution(n: int)
  datatype Warning = Warning(kind: WarningKind, path: string, index: nat)

  datatype ImportError =
    | NotARecognizedDocument | NoPromptOrder | SpecTooLarge | DocumentTooLarge
    | MustBeAnArray | TooManyRules | MustBeAnObject | MustBeAString | InvalidRule | BadPattern

  /** What the model does not compute: does `new RegExp` succeed, and the 32-bit hash of a value's text. */
  datatype Engine = Engine(compiles: (string, string) -> bool, hash: JsValue -> nat)

  // ----- field access (json.ts) -----

  function Field(v: JsValue, key: string): Option<JsValue>
  {
    if v.JsObject? && key in v.fields then Some(v.fields[key]) else None
  }

  function Text(v: Option<JsValue>): Option<string>
  {
    if v.Some? && v.value.JsText? then Some(v.value.text) else None
  }

  function Flag(v: Option<JsValue>): bool
  {
    v.Some? && v.value.JsBool? && v.value.flag
  }

  function Integer(v: Option<JsValue>): Option<int>
  {
    if v.Some? && v.value.JsNumber? && v.value.safe.Some? && IsSafe(v.value.safe.value) then v.value.safe else None
  }

  predicate IsSafe(n: int)
  {
    -MAX_SAFE_INTEGER <= n <= MAX_SAFE_INTEGER
  }

  function NonNegative(v: Option<JsValue>): Option<int>
  {
    if Integer(v).Some? && Integer(v).value >= 0 then Integer(v) else None
  }

  function Integers(items: seq<JsValue>): seq<int>
  {
    if items == [] then []
    else
      var last := Integer(Some(items[|items| - 1]));
      Integers(items[..|items| - 1]) + (if last.Some? then [last.value] else [])
  }

  function Texts(items: seq<JsValue>): seq<string>
  {
    if items == [] then []
    else
      var last := Text(Some(items[|items| - 1]));
      Texts(items[..|items| - 1]) + (if last.Some? then [last.value] else [])
  }

  // ----- text -----

  /** White space and line terminators of ECMAScript. */
  predicate IsBlank(c: char)
  {
    var n := c as int;
    9 <= n <= 13 || n == 32 || n == 0xA0 || n == 0x1680 || 0x2000 <= n <= 0x200A
    || n == 0x2028 || n == 0x2029 || n == 0x202F || n == 0x205F || n == 0x3000 || n == 0xFEFF
  }

  function Trim(s: string): string
  {
    if s == "" then ""
    else if IsBlank(s[0]) then Trim(s[1..])
    else if IsBlank(s[|s| - 1]) then Trim(s[..|s| - 1])
    else s
  }

  predicate IsTrimmed(s: string)
  {
    s != "" ==> !IsBlank(s[0]) && !IsBlank(s[|s| - 1])
  }

  lemma {:induction false} TrimTrims(s: string)
    ensures IsTrimmed(Trim(s))
    ensures IsTrimmed(s) <==> Trim(s) == s
  {
    if s != "" && IsBlank(s[0]) {
      TrimTrims(s[1..]);
      TrimShortens(s[1..]);
    } else if s != "" && IsBlank(s[|s| - 1]) {
      TrimTrims(s[..|s| - 1]);
      TrimShortens(s[..|s| - 1]);
    }
  }

  lemma TrimShortens(s: string)
    ensures |Trim(s)| <= |s|
  {
  }

  predicate AllBlank(s: string)
  {
    forall i :: 0 <= i < |s| ==> IsBlank(s[i])
  }

  /** `t` is what is left of `s` without white space on the outside. */
  ghost predicate IsTrimOf(t: string, s: string)
  {
    IsTrimmed(t) && exists before, after :: AllBlank(before) && AllBlank(after) && s == before + t + after
  }

  /** Trimming takes white space off both ends, nothing else, and there is only one such text. */
  lemma {:induction false} TrimIsExact(s: string, t: string)
    ensures IsTrimOf(t, s) <==> t == Trim(s)
  {
    TrimTrims(s);
    var before, after := TrimEnds(s);
    if IsTrimOf(t, s) {
      var a, b :| AllBlank(a) && AllBlank(b) && s == a + t + b;
      TrimOfBlanks(a, t, b);
    }
  }

  lemma {:induction false} TrimEnds(s: string) returns (before: string, after: string)
    ensures AllBlank(before) && AllBlank(after) && s == before + Trim(s) + after
    decreases |s|
  {
    hide IsBlank;
    if s != "" && IsBlank(s[0]) {
      var a, b := TrimEnds(s[1..]);
      before, after := [s[0]] + a, b;
      assert s == [s[0]] + s[1..];
      assert [s[0]] + (a + Trim(s) + b) == before + Trim(s) + after;
    } else if s != "" && IsBlank(s[|s| - 1]) {
      var a, b := TrimEnds(s[..|s| - 1]);
      before, after := a, b + [s[|s| - 1]];
      assert s == s[..|s| - 1] + [s[|s| - 1]];
      assert a + Trim(s) + b + [s[|s| - 1]] == before + Trim(s) + after;
    } else {
      before, after := "", "";
      assert "" + s + "" == s;
    }
  }

  lemma {:induction false} TrimOfBlanks(a: string, t: string, b: string)
    requires AllBlank(a) && AllBlank(b) && IsTrimmed(t)
    ensures Trim(a + t + b) == t
    decreases |a| + |b|
  {
    var s := a + t + b;
    if a != "" {
      assert s[1..] == a[1..] + t + b;
      TrimOfBlanks(a[1..], t, b);
    } else if b != "" {
      if t == "" {
        assert s[1..] == b[1..] + t + a;
        TrimOfBlanks(b[1..], t, a);
      } else {
        assert s[..|s| - 1] == a + t + b[..|b| - 1];
        assert s[0] == t[0] && s[|s| - 1] == b[|b| - 1];
        TrimOfBlanks(a, t, b[..|b| - 1]);
      }
    } else {
      assert s == t;
      TrimTrims(t);
    }
  }

  function Lower(c: char): char
  {
    if 'A' <= c <= 'Z' then (c as int + 32) as char else c
  }

  /** The text starts with `{{match}}` in any letter case. */
  predicate StartsWithMatch(s: string)
  {
    && |s| >= 9
    && s[0] == '{' && s[1] == '{'
    && Lower(s[2]) == 'm' && Lower(s[3]) == 'a' && Lower(s[4]) == 't' && Lower(s[5]) == 'c' && Lower(s[6]) == 'h'
    && s[7] == '}' && s[8] == '}'
  }

  /** `.replace(/\{\{match\}\}/gi, "$0")`. */
  function ReplaceMatch(s: string): string
  {
    if s == "" then ""
    else if StartsWithMatch(s) then "$0" + ReplaceMatch(s[9..])
    else [s[0]] + ReplaceMatch(s[1..])
  }

  /** No occurrence of `{{match}}` is left. */
  predicate IsCompiled(s: string)
  {
    forall i :: 0 <= i <= |s| ==> !StartsWithMatch(s[i..])
  }

  /** As long as no dollar sign shows, the output repeats the input. */
  lemma {:induction false} ReplacedPrefix(s: string, n: nat)
    requires n <= |ReplaceMatch(s)|
    requires '$' !in ReplaceMatch(s)[..n]
    ensures n <= |s| && s[..n] == ReplaceMatch(s)[..n]
    decreases n
  {
    if n > 0 {
      assert ReplaceMatch(s)[0] in ReplaceMatch(s)[..n];
      assert ReplaceMatch(s) == [s[0]] + ReplaceMatch(s[1..]);
      assert ReplaceMatch(s)[..n] == [s[0]] + ReplaceMatch(s[1..])[..n - 1];
      ReplacedPrefix(s[1..], n - 1);
      assert s[..n] == [s[0]] + s[1..][..n - 1];
    }
  }

  lemma {:induction false} PrefixDecides(a: string, b: string)
    requires StartsWithMatch(a) && |b| >= 9 && a[..9] == b[..9]
    ensures StartsWithMatch(b) && a[0] == b[0] && '$' !in a[..9]
  {
    assert forall i :: 0 <= i < 9 ==> a[i] == a[..9][i] && b[i] == b[..9][i];
  }

  lemma {:induction false} NoMatchAtStart(s: string)
    ensures !StartsWithMatch(ReplaceMatch(s))
  {
    var r := ReplaceMatch(s);
    if StartsWithMatch(r) {
      PrefixDecides(r, r);
      ReplacedPrefix(s, 9);
      PrefixDecides(r, s);
    }
  }

  lemma {:induction false} Fixed(s: string)
    ensures ReplaceMatch(s) == s <==> IsCompiled(s)
    ensures |ReplaceMatch(s)| <= |s|
  {
    if s == "" {
      assert s[0..] == s;
    } else if StartsWithMatch(s) {
      Fixed(s[9..]);
      assert s[0..] == s;
    } else {
      Fixed(s[1..]);
      assert s == [s[0]] + s[1..];
      assert ReplaceMatch(s)[1..] == ReplaceMatch(s[1..]);
      if IsCompiled(s) {
        forall i | 0 <= i <= |s[1..]| ensures !StartsWithMatch(s[1..][i..]) {
          assert s[1..][i..] == s[i + 1..];
        }
      }
      if IsCompiled(s[1..]) {
        forall i | 0 <= i <= |s| ensures !StartsWithMatch(s[i..]) {
          if i == 0 {
            assert s[0..] == s;
          } else {
            assert s[1..][i - 1..] == s[i..];
          }
        }
      }
    }
  }

  /** Everything up to the first `{{match}}` stays; there the whole match is inserted, and the rest is treated alike. */
  lemma {:induction false} FirstMatchReplaced(s: string, n: nat)
    requires n <= |s| && StartsWithMatch(s[n..]) && forall i :: 0 <= i < n ==> !StartsWithMatch(s[i..])
    ensures n + 9 <= |s| && ReplaceMatch(s) == s[..n] + "$0" + ReplaceMatch(s[n + 9..])
  {
    assert s[0..] == s;
    if n == 0 {
      assert s[..0] + "$0" == "$0";
    } else {
      forall i | 0 <= i < n - 1 ensures !StartsWithMatch(s[1..][i..]) {
        assert s[1..][i..] == s[i + 1..];
      }
      assert s[1..][n - 1..] == s[n..] && s[1..][n - 1 + 9..] == s[n + 9..];
      FirstMatchReplaced(s[1..], n - 1);
      assert !StartsWithMatch(s[0..]);
      assert [s[0]] + s[1..][..n - 1] == s[..n];
    }
  }

  /** One pass leaves nothing to replace: the inserted `$0` never completes another match. */
  lemma {:induction false} ReplaceLeavesNoMatch(s: string)
    ensures ReplaceMatch(ReplaceMatch(s)) == ReplaceMatch(s)
  {
    NoMatchAtStart(s);
    if s != "" {
      if StartsWithMatch(s) {
        ReplaceLeavesNoMatch(s[9..]);
        DollarStays(ReplaceMatch(s[9..]));
      } else {
        ReplaceLeavesNoMatch(s[1..]);
        assert ReplaceMatch(s)[1..] == ReplaceMatch(s[1..]);
      }
    }
  }

  lemma {:induction false} DollarStays(t: string)
    ensures ReplaceMatch("$0" + t) == "$0" + ReplaceMatch(t)
  {
    assert ("$0" + t)[1..] == "0" + t;
    assert ("0" + t)[1..] == t;
    assert !StartsWithMatch("0" + t);
  }

  // ----- the pattern -----

  /** An even number of backslashes stands directly before position `i`. */
  predicate EvenBackslashes(s: string, i: nat)
    requires i <= |s|
  {
    i == 0 || s[i - 1] != '\\' || !EvenBackslashes(s, i - 1)
  }

  /** A closing slash: not the opening one and not escaped. */
  predicate IsClosing(s: string, i: nat)
    requires i < |s|
  {
    i > 0 && s[i] == '/' && EvenBackslashes(s, i)
  }

  /** Pattern and flags of `findRegex`; `None` for an opening slash without a closing one. */
  ghost predicate IsSplit(s: string, r: Option<(string, string)>)
  {
    if s == "" || s[0] != '/' then r == Some((s, ""))
    else match r
      case None => forall i :: 0 <= i < |s| ==> !IsClosing(s, i)
      case Some((pattern, flags)) =>
        && s == "/" + pattern + "/" + flags
        && IsClosing(s, |pattern| + 1)
        && forall i :: |pattern| + 1 < i < |s| ==> !IsClosing(s, i)
  }

  /** The last closing slash before position `n`. */
  function LastClosing(s: string, n: nat): Option<nat>
    requires n <= |s|
  {
    if n == 0 then None else if IsClosing(s, n - 1) then Some(n - 1) else LastClosing(s, n - 1)
  }

  function Split(s: string): Option<(string, string)>
  {
    if s == "" || s[0] != '/' then Some((s, ""))
    else match LastClosing(s, |s|)
      case None => None
      case Some(i) => if 1 <= i < |s| then Some((s[1..i], s[i + 1..])) else None
  }

  lemma {:induction false} LastClosingIsLast(s: string, n: nat)
    requires n <= |s|
    ensures match LastClosing(s, n)
            case None => forall i :: 0 <= i < n ==> !IsClosing(s, i)
            case Some(k) => k < n && IsClosing(s, k) && forall i :: k < i < n ==> !IsClosing(s, i)
  {
    if n > 0 { LastClosingIsLast(s, n - 1); }
  }

  /** Splitting is at the last unescaped slash, and there is only one such split. */
  lemma {:induction false} SplitIsExact(s: string, r: Option<(string, string)>)
    ensures IsSplit(s, r) <==> r == Split(s)
  {
    LastClosingIsLast(s, |s|);
    if s != "" && s[0] == '/' {
      if LastClosing(s, |s|).Some? {
        var k := LastClosing(s, |s|).value;
        assert s == "/" + s[1..k] + "/" + s[k + 1..];
      }
      if IsSplit(s, r) && r.Some? {
        var (pattern, flags) := r.value;
        assert LastClosing(s, |s|) == Some(|pattern| + 1);
        assert pattern == s[1..|pattern| + 1];
        assert flags == s[|pattern| + 2..];
      }
    }
  }

  method SplitRegex(source: string) returns (r: Option<(string, string)>)
    ensures r == Split(source)
    ensures IsSplit(source, r)
  {
    if source == "" || source[0] != '/' {
      return Some((source, ""));
    }
    var index := |source| - 1;
    while index > 0
      invariant 0 <= index < |source|
      invariant forall i :: index < i < |source| ==> !IsClosing(source, i)
    {
      if source[index] == '/' {
        var slashes, cursor := 0, index - 1;
        while cursor >= 0 && source[cursor] == '\\'
          invariant -1 <= cursor < index && slashes >= 0
          invariant EvenBackslashes(source, index)
               == if slashes % 2 == 0 then EvenBackslashes(source, cursor + 1) else !EvenBackslashes(source, cursor + 1)
        {
          slashes, cursor := slashes + 1, cursor - 1;
        }
        if slashes % 2 == 0 {
          r := Some((source[1..index], source[index + 1..]));
          assert source == "/" + source[1..index] + "/" + source[index + 1..];
          SplitIsExact(source, r);
          return;
        }
      }
      index := index - 1;
    }
    r := None;
    SplitIsExact(source, r);
  }

  /** First occurrences, in order: the iteration order of a `Set`. */
  function Distinct<T(==)>(s: seq<T>): seq<T>
  {
    if s == [] then []
    else
      var init := Distinct(s[..|s| - 1]);
      if s[|s| - 1] in init then init else init + [s[|s| - 1]]
  }

  predicate NoRepeats<T(==)>(s: seq<T>)
  {
    forall i, j :: 0 <= i < j < |s| ==> s[i] != s[j]
  }

  lemma {:induction false} DistinctIsDistinct<T>(s: seq<T>)
    ensures NoRepeats(Distinct(s))
    ensures NoRepeats(s) <==> Distinct(s) == s
    ensures forall x :: x in Distinct(s) <==> x in s
  {
    if s != [] {
      var init := s[..|s| - 1];
      DistinctIsDistinct(init);
      assert s == init + [s[|s| - 1]];
      DistinctShortens(init);
    }
  }

  lemma DistinctShortens<T>(s: seq<T>)
    ensures |Distinct(s)| <= |s|
  {
  }

  predicate IsWordStart(c: char)
  {
    'A' <= c <= 'Z' || 'a' <= c <= 'z' || c == '_'
  }

  function WordLength(s: string): (n: nat)
    ensures n <= |s|
  {
    if s == "" || !(IsWordStart(s[0]) || '0' <= s[0] <= '9') then 0 else 1 + WordLength(s[1..])
  }

  /** Length of a macro `{{name}}` at the start of a text, or 0. */
  function MacroLength(s: string): (n: nat)
    ensures n <= |s|
  {
    if |s| < 3 || s[0] != '{' || s[1] != '{' || !IsWordStart(s[2]) then 0
    else
      var end := 2 + WordLength(s[2..]);
      if end + 2 <= |s| && s[end] == '}' && s[end + 1] == '}' then end + 2 else 0
  }

  function FillMacros(s: string): string
  {
    if s == "" then ""
    else if MacroLength(s) > 0 then "macro" + FillMacros(s[MacroLength(s)..])
    else [s[0]] + FillMacros(s[1..])
  }

  predicate IsWord(s: string)
  {
    s != "" && IsWordStart(s[0]) && forall i :: 0 <= i < |s| ==> IsWordStart(s[i]) || '0' <= s[i] <= '9'
  }

  lemma {:induction false} WordRun(s: string, n: nat)
    requires n < |s| && !IsWordStart(s[n]) && !('0' <= s[n] <= '9')
    requires forall i :: 0 <= i < n ==> IsWordStart(s[i]) || '0' <= s[i] <= '9'
    ensures WordLength(s) == n
  {
    if n > 0 { WordRun(s[1..], n - 1); }
  }

  lemma {:induction false} WordRunIs(s: string)
    ensures forall i :: 0 <= i < WordLength(s) ==> IsWordStart(s[i]) || '0' <= s[i] <= '9'
  {
    if s != "" && (IsWordStart(s[0]) || '0' <= s[0] <= '9') {
      WordRunIs(s[1..]);
      forall i | 0 <= i < WordLength(s) ensures IsWordStart(s[i]) || '0' <= s[i] <= '9' {
        if i > 0 { assert s[i] == s[1..][i - 1]; }
      }
    }
  }

  /** A macro is a word in double braces. */
  lemma {:induction false} MacroIsBracedWord(s: string, name: string, rest: string)
    requires s == "{{" + name + "}}" + rest && IsWord(name)
    ensures MacroLength(s) == |name| + 4
  {
    assert s[2..] == name + "}}" + rest;
    assert s[2] == name[0];
    assert forall i :: 0 <= i < |name| ==> s[2..][i] == name[i];
    assert s[2..][|name|] == '}';
    WordRun(s[2..], |name|);
  }

  lemma {:induction false} MacroHasWord(s: string)
    requires MacroLength(s) > 0
    ensures var n := MacroLength(s); n > 4 && IsWord(s[2..n - 2]) && s == "{{" + s[2..n - 2] + "}}" + s[n..]
  {
    var n := MacroLength(s);
    WordRunIs(s[2..]);
    assert forall i :: 2 <= i < n - 2 ==> s[2..][i - 2] == s[i];
  }

  predicate NoMacroBefore(s: string, n: nat)
    requires n <= |s|
  {
    forall i :: 0 <= i < n ==> MacroLength(s[i..]) == 0
  }

  lemma {:induction false} NoMacroInTail(s: string, n: nat)
    requires 0 < n <= |s| && NoMacroBefore(s, n)
    ensures NoMacroBefore(s[1..], n - 1) && MacroLength(s) == 0
  {
    hide MacroLength;
    assert s[0..] == s;
    assert MacroLength(s[0..]) == 0;
    forall i | 0 <= i < n - 1 ensures MacroLength(s[1..][i..]) == 0 {
      assert s[1..][i..] == s[i + 1..];
    }
  }

  lemma {:induction false} PrefixStays(s: string, n: nat)
    requires n <= |s| && NoMacroBefore(s, n)
    ensures FillMacros(s) == s[..n] + FillMacros(s[n..])
  {
    hide MacroLength, NoMacroBefore;
    if n > 0 {
      NoMacroInTail(s, n);
      PrefixStays(s[1..], n - 1);
      assert s[1..][n - 1..] == s[n..] && [s[0]] + s[1..][..n - 1] == s[..n];
      assert FillMacros(s) == [s[0]] + FillMacros(s[1..]);
    } else {
      assert s[0..] == s && s[..0] + FillMacros(s) == FillMacros(s);
    }
  }

  /** Everything up to the first macro stays, and the macro becomes one fixed word; without a macro nothing changes. */
  lemma {:induction false} FirstMacroFilled(s: string, n: nat)
    requires n <= |s| && NoMacroBefore(s, n)
    ensures FillMacros(s) == s[..n] + FillMacros(s[n..])
    ensures var length := MacroLength(s[n..]);
            length > 0 ==> FillMacros(s[n..]) == "macro" + FillMacros(s[n..][length..])
  {
    hide MacroLength, NoMacroBefore;
    PrefixStays(s, n);
  }

  /** `compileRegex` does not throw. */
  predicate Compiles(engine: Engine, source: string)
  {
    Split(source).Some?
    && var (pattern, flags) := Split(source).value;
       (forall i :: 0 <= i < |flags| ==> flags[i] in "dgimsuy") && engine.compiles(pattern, Distinct(flags))
  }

  // ----- import of one rule -----

  function Priority(scope: Scope): int
  {
    match scope
    case Global => 0
    case Character => 1000
    case Preset => 2000
  }

  function ScopeName(scope: Scope): string
  {
    match scope
    case Global => "global"
    case Character => "character"
    case Preset => "preset"
  }

  function Items(v: Option<JsValue>): seq<JsValue>
  {
    if v.Some? && v.value.JsArray? then v.value.items else []
  }

  function Without(s: seq<int>, n: int): seq<int>
  {
    if s == [] then [] else Without(s[..|s| - 1], n) + (if s[|s| - 1] == n then [] else [s[|s| - 1]])
  }

  function WithoutDisplay(placements: seq<int>): seq<int>
  {
    if 0 !in placements then placements else if |placements| == 1 then [1, 2, 3, 5, 6] else Without(placements, 0)
  }

  function WithoutSendAs(placements: seq<int>): seq<int>
  {
    if 4 !in placements then placements else if |placements| == 1 then [3] else Without(placements, 4)
  }

  function Placements(rule: JsValue): seq<int>
  {
    WithoutSendAs(WithoutDisplay(Integers(Items(Field(rule, "placement")))))
  }

  function TargetOf(placement: int): Option<Target>
  {
    if placement == 1 then Some(UserInput)
    else if placement == 2 then Some(AssistantOutput)
    else if placement == 5 then Some(WorldInfo)
    else if placement == 6 then Some(Reasoning)
    else None
  }

  function Targets(placements: seq<int>): seq<Target>
  {
    if placements == [] then []
    else
      var last := TargetOf(placements[|placements| - 1]);
      Targets(placements[..|placements| - 1]) + (if last.Some? then [last.value] else [])
  }

  function Inactive(placements: seq<int>): seq<int>
  {
    if placements == [] then []
    else
      var last := placements[|placements| - 1];
      Inactive(placements[..|placements| - 1]) + (if TargetOf(last).Some? then [] else [last])
  }

  function SurfacesFor(rule: JsValue): seq<Surface>
  {
    var legacy := 0 in Integers(Items(Field(rule, "placement")));
    var markdown := Flag(Field(rule, "markdownOnly")) || legacy;
    var prompt := Flag(Field(rule, "promptOnly")) || legacy;
    if markdown && prompt then [Prompt, Display]
    else if markdown then [Display]
    else if prompt then [Prompt]
    else [Canonical]
  }

  function ModeOf(n: int): MacroMode
  {
    if n == 1 then RawMacros else if n == 2 then EscapedMacros else NoMacros
  }

  function Substitution(rule: JsValue): int
  {
    var n := Integer(Field(rule, "substituteRegex"));
    if n.Some? then n.value else 0
  }

  function Decimal(n: nat): string
  {
    (if n < 10 then "" else Decimal(n / 10)) + [('0' as int + n % 10) as char]
  }

  function HexDigits(n: nat, width: nat): string
  {
    if width == 0 then "" else
    HexDigits(n / 16, width - 1) + [HexDigit(n % 16)]
  }

  function RuleId(engine: Engine, value: JsValue, scope: Scope, index: nat): string
  {
    var given := Text(Field(value, "id"));
    if given.Some? && Trim(given.value) != "" then Trim(given.value)
    else "st-" + ScopeName(scope) + "-" + Decimal(index) + "-" + HexDigits(engine.hash(value), 8)
  }

  predicate WithinRuleLimits(rule: Rule)
  {
    rule.id != "" && |rule.id| <= 128 && |rule.findRegex| <= 65536 && |rule.replaceString| <= 65536
  }

  /** What `parseRule` makes of one entry, warnings aside. */
  function Parse(engine: Engine, value: JsValue, scope: Scope, index: nat): Result<RuleView, ImportError>
  {
    if !value.JsObject? then Failure(MustBeAnObject)
    else match (Text(Field(value, "findRegex")), Text(Field(value, "replaceString")))
      case (Some(find), Some(replace)) =>
        var rule := Rule(
          RuleId(engine, value, scope, index),
          (var name := Text(Field(value, "scriptName")); if name.Some? then name.value else "Unnamed regex"),
          Priority(scope), index, find, ReplaceMatch(replace),
          Texts(Items(Field(value, "trimStrings"))),
          Distinct(Targets(Placements(value))), SurfacesFor(value),
          Flag(Field(value, "disabled")), Flag(Field(value, "runOnEdit")), ModeOf(Substitution(value)),
          Integer(Field(value, "minDepth")), NonNegative(Field(value, "maxDepth")));
        if !WithinRuleLimits(rule) then Failure(InvalidRule)
        else if !Compiles(engine, FillMacros(find)) then Failure(BadPattern)
        else Success(RuleView(rule, scope, Distinct(Inactive(Placements(value)))))
      case _ => Failure(MustBeAString)
  }

  // ----- what placements mean -----

  /** One send-as placement, and otherwise at most legacy display placements. */
  predicate OnlySendAs(given: seq<int>)
  {
    exists i :: 0 <= i < |given| && given[i] == 4 && forall j :: 0 <= j < |given| && j != i ==> given[j] == 0
  }

  /** The numbers that have a target, or those that stay inactive. */
  predicate Wanted(n: int, known: bool)
  {
    if known then n in {1, 2, 5, 6} else n !in {0, 1, 2, 4, 5, 6}
  }

  /** Exactly the wanted numbers of a list, each once, in the order in which they first appear. */
  ghost predicate Keeps(codes: seq<int>, given: seq<int>, known: bool)
  {
    && NoRepeats(codes)
    && (forall n :: n in codes <==> n in given && Wanted(n, known))
    && (forall i, j, k :: 0 <= i < j < |codes| && 0 <= k <= |given| && codes[j] in given[..k] ==> codes[i] in given[..k])
  }

  lemma {:induction false} KeepsNext(codes: seq<int>, given: seq<int>, known: bool, n: int)
    requires Keeps(codes, given, known)
    ensures Keeps(if Wanted(n, known) && n !in codes then codes + [n] else codes, given + [n], known)
  {
    hide Wanted;
    var more, longer := if Wanted(n, known) && n !in codes then codes + [n] else codes, given + [n];
    assert forall m :: m in longer <==> m in given || m == n;
    assert forall m :: m in more <==> m in codes || (Wanted(n, known) && m == n);
    forall i, j, k | 0 <= i < j < |more| && 0 <= k <= |longer| && more[j] in longer[..k]
      ensures more[i] in longer[..k]
    {
      assert more[i] == codes[i] && codes[i] in given;
      if k <= |given| {
        assert longer[..k] == given[..k];
        assert more[j] in given;
      } else {
        assert longer[..k] == longer;
      }
    }
  }

  function Codes(targets: seq<Target>): (r: seq<int>)
    ensures |r| == |targets|
  {
    if targets == [] then [] else Codes(targets[..|targets| - 1]) + [PlacementOf(targets[|targets| - 1])]
  }

  lemma {:induction false} CodesNext(targets: seq<Target>, last: Target)
    ensures Codes(targets + [last]) == Codes(targets) + [PlacementOf(last)]
    ensures PlacementOf(last) in Codes(targets) <==> last in targets
    decreases |targets|
  {
    assert (targets + [last])[..|targets|] == targets;
    if targets != [] {
      var init := targets[..|targets| - 1];
      CodesNext(init, last);
      assert targets == init + [targets[|targets| - 1]];
    }
  }

  lemma {:induction false} DistinctNext<T>(s: seq<T>, x: T)
    ensures Distinct(s + [x]) == Distinct(s) + if x in Distinct(s) then [] else [x]
  {
    assert (s + [x])[..|s|] == s;
  }

  lemma {:induction false} WithoutNext(s: seq<int>, n: int, m: int)
    ensures Without(s + [n], m) == Without(s, m) + if n == m then [] else [n]
  {
    assert (s + [n])[..|s|] == s;
  }

  lemma {:induction false} PlacementNext(s: seq<int>, n: int)
    ensures Targets(s + [n]) == Targets(s) + if TargetOf(n).Some? then [TargetOf(n).value] else []
    ensures Inactive(s + [n]) == Inactive(s) + if TargetOf(n).Some? then [] else [n]
  {
    assert (s + [n])[..|s|] == s;
  }

  function Current(given: seq<int>): seq<int>
  {
    Without(Without(given, 0), 4)
  }

  lemma {:induction false} CurrentNext(given: seq<int>, n: int)
    ensures Current(given + [n]) == Current(given) + if n == 0 || n == 4 then [] else [n]
  {
    hide Without;
    WithoutNext(given, n, 0);
    WithoutNext(Without(given, 0), n, 4);
    assert Without(given, 0) + [] == Without(given, 0);
  }

  lemma {:induction false} TargetsNext(current: seq<int>, n: int)
    ensures var codes := Codes(Distinct(Targets(current)));
            Codes(Distinct(Targets(current + [n]))) == if Wanted(n, true) && n !in codes then codes + [n] else codes
  {
    hide Codes, Distinct, Targets, Inactive;
    PlacementNext(current, n);
    var targets := Targets(current);
    if TargetOf(n).Some? {
      DistinctNext(targets, TargetOf(n).value);
      CodesNext(Distinct(targets), TargetOf(n).value);
      assert Distinct(targets) + [] == Distinct(targets);
    } else {
      assert targets + [] == targets;
    }
  }

  lemma {:induction false} InactiveNext(current: seq<int>, n: int)
    requires n != 0 && n != 4
    ensures var codes := Distinct(Inactive(current));
            Distinct(Inactive(current + [n])) == if Wanted(n, false) && n !in codes then codes + [n] else codes
  {
    hide Distinct, Targets, Inactive;
    PlacementNext(current, n);
    var inactive := Inactive(current);
    if TargetOf(n).Some? {
      assert inactive + [] == inactive;
    } else {
      DistinctNext(inactive, n);
      assert Distinct(inactive) + [] == Distinct(inactive);
    }
  }

  lemma {:induction false} CurrentKeeps(given: seq<int>)
    ensures Keeps(Codes(Distinct(Targets(Current(given)))), given, true)
    ensures Keeps(Distinct(Inactive(Current(given))), given, false)
  {
    if given != [] {
      var init, n := given[..|given| - 1], given[|given| - 1];
      assert given == init + [n];
      CurrentKeeps(init);
      CurrentKeepsNext(init, n);
    } else {
      assert Distinct(Targets(Current([]))) == [] && Distinct(Inactive(Current([]))) == [];
    }
  }

  lemma {:induction false} CurrentKeepsNext(given: seq<int>, n: int)
    requires Keeps(Codes(Distinct(Targets(Current(given)))), given, true)
    requires Keeps(Distinct(Inactive(Current(given))), given, false)
    ensures Keeps(Codes(Distinct(Targets(Current(given + [n])))), given + [n], true)
    ensures Keeps(Distinct(Inactive(Current(given + [n]))), given + [n], false)
  {
    hide Keeps, Codes, Distinct, Targets, Inactive, Current;
    KeepsNext(Codes(Distinct(Targets(Current(given)))), given, true, n);
    KeepsNext(Distinct(Inactive(Current(given))), given, false, n);
    CurrentNext(given, n);
    if n == 0 || n == 4 {
      assert Current(given) + [] == Current(given);
    } else {
      TargetsNext(Current(given), n);
      InactiveNext(Current(given), n);
    }
  }

  lemma {:induction false} WithoutNone(s: seq<int>, n: int)
    ensures n !in s ==> Without(s, n) == s
    ensures Without(s, n) == [] <==> forall i :: 0 <= i < |s| ==> s[i] == n
  {
    if s != [] {
      var init := s[..|s| - 1];
      assert s == init + [s[|s| - 1]];
      WithoutNone(init, n);
      assert forall i :: 0 <= i < |init| ==> init[i] == s[i];
      WithoutNext(init, s[|s| - 1], n);
      hide Without;
      assert s[|s| - 1] == n ==> Without(init, n) + [] == Without(init, n);
    }
  }

  lemma {:induction false} SendAsAlone(given: seq<int>)
    ensures Without(given, 0) == [4] <==> OnlySendAs(given)
  {
    if given != [] {
      hide Without, OnlySendAs;
      var init, n := given[..|given| - 1], given[|given| - 1];
      assert given == init + [n];
      SendAsAlone(init);
      WithoutNone(init, 0);
      WithoutNext(init, n, 0);
      SendAsNext(init, n);
      var rest := Without(init, 0);
      assert rest + [] == rest;
      assert (rest + [n])[|rest|] == n;
      assert rest + [4] == [4] <==> rest == [];
    }
  }

  lemma {:induction false} SendAsNext(given: seq<int>, n: int)
    ensures OnlySendAs(given + [n])
       <==> (n == 0 && OnlySendAs(given)) || (n == 4 && forall j :: 0 <= j < |given| ==> given[j] == 0)
  {
    var longer := given + [n];
    assert longer[|given|] == n;
    assert forall j :: 0 <= j < |given| ==> longer[j] == given[j];
    if OnlySendAs(longer) {
      var i :| 0 <= i < |longer| && longer[i] == 4 && forall j :: 0 <= j < |longer| && j != i ==> longer[j] == 0;
      if i < |given| {
        assert n == longer[|given|] == 0;
        assert given[i] == 4;
      }
    }
    if n == 0 && OnlySendAs(given) {
      var i :| 0 <= i < |given| && given[i] == 4 && forall j :: 0 <= j < |given| && j != i ==> given[j] == 0;
      assert longer[i] == 4;
    }
  }

  /**
   What the placements of a rule come to, legacy ones included. A legacy
   display placement alone stands for all; one send-as placement that is
   alone but for display placements leaves the inactive slash command; any
   other of these two are dropped. Of the rest, 1, 2, 5 and 6 become targets
   and all other numbers are inactive, each once and in order.
   */
  lemma {:induction false} PlacementsMean(given: seq<int>)
    ensures var p := WithoutSendAs(WithoutDisplay(given));
            var targets, inactive := Distinct(Targets(p)), Distinct(Inactive(p));
            if given == [0] then targets == [UserInput, AssistantOutput, WorldInfo, Reasoning] && inactive == [3]
            else if OnlySendAs(given) then targets == [] && inactive == [3]
            else Keeps(Codes(targets), given, true) && Keeps(inactive, given, false)
  {
    if given == [0] {
      LegacyDisplayAlone();
    } else {
      hide Keeps, Codes, Distinct, Targets, Inactive, OnlySendAs, Without;
      Migrated(given);
      CurrentKeeps(given);
      if OnlySendAs(given) {
        SlashCommandAlone();
      }
    }
  }

  lemma {:induction false} Migrated(given: seq<int>)
    requires given != [0]
    ensures WithoutSendAs(WithoutDisplay(given)) == if OnlySendAs(given) then [3] else Current(given)
  {
    hide Without, OnlySendAs;
    SendAsAlone(given);
    WithoutNone(given, 0);
    var rest := Without(given, 0);
    assert WithoutDisplay(given) == rest;
    WithoutNone(rest, 4);
    assert |rest| == 1 && 4 in rest ==> rest == [4];
    assert rest == [4] ==> 4 in rest;
  }

  lemma {:induction false} SlashCommandAlone()
    ensures Distinct(Targets([3])) == [] && Distinct(Inactive([3])) == [3]
  {
    PlacementNext([], 3);
    assert [] + [3] == [3];
    DistinctNext([], 3);
  }

  lemma {:induction false} LegacyDisplayAlone()
    ensures WithoutSendAs(WithoutDisplay([0])) == [1, 2, 3, 5, 6]
    ensures Distinct(Targets([1, 2, 3, 5, 6])) == [UserInput, AssistantOutput, WorldInfo, Reasoning]
    ensures Distinct(Inactive([1, 2, 3, 5, 6])) == [3]
  {
    hide Distinct;
    SlashCommandAlone();
    FiveTargets();
    DistinctIsDistinct([UserInput, AssistantOutput, WorldInfo, Reasoning]);
    DistinctIsDistinct([3]);
  }

  lemma {:induction false} FiveTargets()
    ensures Targets([1, 2, 3, 5, 6]) == [UserInput, AssistantOutput, WorldInfo, Reasoning]
    ensures Inactive([1, 2, 3, 5, 6]) == [3]
  {
    hide Targets, Inactive;
    NoPlacements();
    PlacementNext([], 1);
    PlacementNext([1], 2);
    PlacementNext([1, 2], 3);
    PlacementNext([1, 2, 3], 5);
    PlacementNext([1, 2, 3, 5], 6);
    assert [] + [1] == [1] && [1] + [2] == [1, 2] && [1, 2] + [3] == [1, 2, 3] && [1, 2, 3] + [5] == [1, 2, 3, 5];
    assert [1, 2, 3, 5] + [6] == [1, 2, 3, 5, 6];
  }

  /** How an imported rule reads its placements, and on which surfaces it acts. */
  lemma {:induction false} ImportedPlacements(engine: Engine, value: JsValue, scope: Scope, index: nat)
    requires Parse(engine, value, scope, index).Success?
    ensures var view, given := Parse(engine, value, scope, index).value, Integers(Items(Field(value, "placement")));
            var targets, inactive := view.rule.targets, view.inactivePlacements;
            if given == [0] then targets == [UserInput, AssistantOutput, WorldInfo, Reasoning] && inactive == [3]
            else if OnlySendAs(given) then targets == [] && inactive == [3]
            else Keeps(Codes(targets), given, true) && Keeps(inactive, given, false)
    ensures var surfaces := Parse(engine, value, scope, index).value.rule.surfaces;
            var legacy := 0 in Integers(Items(Field(value, "placement")));
            && (Display in surfaces <==> legacy || Flag(Field(value, "markdownOnly")))
            && (Prompt in surfaces <==> legacy || Flag(Field(value, "promptOnly")))
            && (Canonical in surfaces <==> Display !in surfaces && Prompt !in surfaces)
  {
    hide Compiles, FillMacros, Trim, ReplaceMatch, Texts, Targets, Inactive, RuleId, Integers, Distinct, Keeps, Codes, OnlySendAs,
      WithoutDisplay, WithoutSendAs, WithinRuleLimits;
    PlacementsMean(Integers(Items(Field(value, "placement"))));
  }

  /** A numeric field of a document. */
  predicate Holds(value: JsValue, key: string, n: int)
  {
    Field(value, key) == Some(JsNumber(Some(n))) && IsSafe(n)
  }

  /**
   A field of a document counts exactly when it has the right type and range;
   otherwise the rule gets what a missing field means.
   */
  lemma {:induction false} ImportedFields(engine: Engine, value: JsValue, scope: Scope, index: nat, n: int)
    requires Parse(engine, value, scope, index).Success?
    ensures var rule := Parse(engine, value, scope, index).value.rule;
            && value.JsObject?
            && Field(value, "findRegex") == Some(JsText(rule.findRegex))
            && (rule.disabled <==> Field(value, "disabled") == Some(JsBool(true)))
            && (rule.runOnEdit <==> Field(value, "runOnEdit") == Some(JsBool(true)))
            && (rule.minDepth == Some(n) <==> Holds(value, "minDepth", n))
            && (rule.maxDepth == Some(n) <==> Holds(value, "maxDepth", n) && n >= 0)
            && (rule.macroMode == RawMacros <==> Holds(value, "substituteRegex", 1))
            && (rule.macroMode == EscapedMacros <==> Holds(value, "substituteRegex", 2))
            && rule.name == (match Field(value, "scriptName") case Some(JsText(name)) => name case _ => "Unnamed regex")
  {
    hide Compiles, FillMacros, Trim, ReplaceMatch, Texts, Targets, Inactive, RuleId, Integers, Distinct, Placements, SurfacesFor,
      WithinRuleLimits;
  }

  // ----- export of one rule -----

  /** Also the scope that `viewFromRuntime` gives a rule of a stored spec. */
  function SourceScope(rule: Rule): Scope
  {
    if rule.priority < Priority(Character) then Global
    else if rule.priority < Priority(Preset) then Character
    else Preset
  }

  function PlacementOf(target: Target): int
  {
    match target
    case UserInput => 1
    case AssistantOutput => 2
    case WorldInfo => 5
    case Reasoning => 6
  }

  function TextItems(texts: seq<string>): seq<JsValue>
  {
    if texts == [] then [] else TextItems(texts[..|texts| - 1]) + [JsText(texts[|texts| - 1])]
  }

  function PlacementItems(targets: seq<Target>): seq<JsValue>
  {
    if targets == [] then []
    else PlacementItems(targets[..|targets| - 1]) + [JsNumber(Some(PlacementOf(targets[|targets| - 1])))]
  }

  function Depth(d: Option<int>): JsValue
  {
    if d.None? then JsNull else JsNumber(d)
  }

  function ModeNumber(mode: MacroMode): int
  {
    match mode
    case NoMacros => 0
    case RawMacros => 1
    case EscapedMacros => 2
  }

  function ExportRule(rule: Rule): JsValue
  {
    JsObject(map[
      "id" := JsText(rule.id),
      "scriptName" := JsText(rule.name),
      "findRegex" := JsText(rule.findRegex),
      "replaceString" := JsText(rule.replaceString),
      "trimStrings" := JsArray(TextItems(rule.trimStrings)),
      "placement" := JsArray(PlacementItems(rule.targets)),
      "disabled" := JsBool(rule.disabled),
      "markdownOnly" := JsBool(Display in rule.surfaces),
      "promptOnly" := JsBool(Prompt in rule.surfaces),
      "runOnEdit" := JsBool(rule.runOnEdit),
      "substituteRegex" := JsNumber(Some(ModeNumber(rule.macroMode))),
      "minDepth" := Depth(rule.minDepth),
      "maxDepth" := Depth(rule.maxDepth)
    ])
  }

  // ----- one rule there and back -----

  /** What the importer guarantees of every rule it makes. */
  predicate Settled(engine: Engine, rule: Rule)
  {
    && IsTrimmed(rule.id) && WithinRuleLimits(rule)
    && Compiles(engine, FillMacros(rule.findRegex)) && IsCompiled(rule.replaceString)
    && NoRepeats(rule.targets) && rule.surfaces in {[Prompt, Display], [Display], [Prompt], [Canonical]}
    && (rule.minDepth.Some? ==> IsSafe(rule.minDepth.value))
    && (rule.maxDepth.Some? ==> 0 <= rule.maxDepth.value <= MAX_SAFE_INTEGER)
  }

  lemma {:induction false} GeneratedIdIsTrimmed(engine: Engine, value: JsValue, scope: Scope, index: nat)
    ensures IsTrimmed(RuleId(engine, value, scope, index))
  {
    var given := Text(Field(value, "id"));
    if given.Some? && Trim(given.value) != "" {
      TrimTrims(given.value);
    } else {
      var h := engine.hash(value);
      var init := "st-" + ScopeName(scope) + "-" + Decimal(index) + "-" + HexDigits(h / 16, 7);
      var last := HexDigit(h % 16);
      assert RuleId(engine, value, scope, index) == init + [last];
      assert init[0] == 's';
    }
  }

  lemma {:induction false} ParsedIsSettled(engine: Engine, value: JsValue, scope: Scope, index: nat)
    requires Parse(engine, value, scope, index).Success?
    ensures var view := Parse(engine, value, scope, index).value;
            Settled(engine, view.rule) && view.sourceScope == SourceScope(view.rule) && view.rule.order == index
  {
    hide Compiles, FillMacros, Trim, IsTrimmed, ReplaceMatch, IsCompiled, Texts, Targets, Inactive, Placements, RuleId, Integers, Distinct;
    GeneratedIdIsTrimmed(engine, value, scope, index);
    var replace := Text(Field(value, "replaceString")).value;
    ReplaceLeavesNoMatch(replace);
    Fixed(ReplaceMatch(replace));
    DistinctIsDistinct(Targets(Placements(value)));
  }

  lemma {:induction false} TextsBack(texts: seq<string>)
    ensures Texts(TextItems(texts)) == texts
  {
    if texts != [] {
      var init := texts[..|texts| - 1];
      TextsBack(init);
      assert TextItems(texts)[..|TextItems(texts)| - 1] == TextItems(init);
    }
  }

  lemma {:induction false} AppendNumber(items: seq<JsValue>, n: int)
    requires IsSafe(n)
    ensures Integers(items + [JsNumber(Some(n))]) == Integers(items) + [n]
  {
    assert (items + [JsNumber(Some(n))])[..|items|] == items;
  }

  lemma {:induction false} AppendPlacement(placements: seq<int>, n: int)
    requires TargetOf(n).Some?
    ensures Targets(placements + [n]) == Targets(placements) + [TargetOf(n).value]
    ensures Inactive(placements + [n]) == Inactive(placements)
  {
    assert (placements + [n])[..|placements|] == placements;
  }

  lemma {:induction false} LastTarget(targets: seq<Target>)
    requires targets != []
    ensures PlacementItems(targets)
         == PlacementItems(targets[..|targets| - 1]) + [JsNumber(Some(PlacementOf(targets[|targets| - 1])))]
    ensures targets == targets[..|targets| - 1] + [targets[|targets| - 1]]
  {
  }

  lemma NoPlacements()
    ensures PlacementItems([]) == [] && Integers([]) == [] && Targets([]) == [] && Inactive([]) == []
  {
  }

  lemma PlacementIsKnown(target: Target)
    ensures var n := PlacementOf(target); TargetOf(n) == Some(target) && IsSafe(n) && n != 0 && n != 4
  {
  }

  lemma {:induction false} PlacementsBack(targets: seq<Target>)
    ensures var p := Integers(PlacementItems(targets));
            0 !in p && 4 !in p && Targets(p) == targets && Inactive(p) == []
  {
    hide Integers, PlacementItems, Targets, Inactive, TargetOf, PlacementOf;
    NoPlacements();
    if targets != [] {
      var init, last := targets[..|targets| - 1], targets[|targets| - 1];
      PlacementsBack(init);
      LastTarget(targets);
      PlacementIsKnown(last);
      AppendNumber(PlacementItems(init), PlacementOf(last));
      AppendPlacement(Integers(PlacementItems(init)), PlacementOf(last));
    }
  }

  /** The rule as it stands after a trip, at position `index` of its scope's document. */
  function Placed(rule: Rule, index: nat): Rule
  {
    rule.(priority := Priority(SourceScope(rule)), order := index)
  }

  lemma {:induction false} ExportedTexts(rule: Rule)
    ensures var v := ExportRule(rule);
            v.JsObject? && Text(Field(v, "id")) == Some(rule.id) && Text(Field(v, "scriptName")) == Some(rule.name)
            && Text(Field(v, "findRegex")) == Some(rule.findRegex)
            && Text(Field(v, "replaceString")) == Some(rule.replaceString)
            && Items(Field(v, "trimStrings")) == TextItems(rule.trimStrings)
            && Items(Field(v, "placement")) == PlacementItems(rule.targets)
  {
    hide ExportRule, Field, Text, Items, TextItems, PlacementItems;
    ExportedNames(rule);
    ExportedPatterns(rule);
    ExportedLists(rule);
  }

  lemma {:induction false} ExportedNames(rule: Rule)
    ensures var v := ExportRule(rule);
            v.JsObject? && Text(Field(v, "id")) == Some(rule.id) && Text(Field(v, "scriptName")) == Some(rule.name)
  {
    hide TextItems, PlacementItems;
  }

  lemma {:induction false} ExportedPatterns(rule: Rule)
    ensures var v := ExportRule(rule);
            Text(Field(v, "findRegex")) == Some(rule.findRegex) && Text(Field(v, "replaceString")) == Some(rule.replaceString)
  {
    hide TextItems, PlacementItems;
  }

  lemma {:induction false} ExportedLists(rule: Rule)
    ensures var v := ExportRule(rule);
            && Items(Field(v, "trimStrings")) == TextItems(rule.trimStrings)
            && Items(Field(v, "placement")) == PlacementItems(rule.targets)
  {
    hide TextItems, PlacementItems;
  }

  lemma {:induction false} ExportedOptions(rule: Rule)
    ensures var v := ExportRule(rule);
            Flag(Field(v, "disabled")) == rule.disabled && Flag(Field(v, "runOnEdit")) == rule.runOnEdit
            && Flag(Field(v, "markdownOnly")) == (Display in rule.surfaces)
            && Flag(Field(v, "promptOnly")) == (Prompt in rule.surfaces)
            && ModeOf(Substitution(v)) == rule.macroMode
            && Field(v, "minDepth") == Some(Depth(rule.minDepth)) && Field(v, "maxDepth") == Some(Depth(rule.maxDepth))
  {
    hide TextItems, PlacementItems;
  }

  lemma {:induction false} DepthsBack(rule: Rule)
    requires rule.minDepth.Some? ==> IsSafe(rule.minDepth.value)
    requires rule.maxDepth.Some? ==> 0 <= rule.maxDepth.value <= MAX_SAFE_INTEGER
    ensures Integer(Some(Depth(rule.minDepth))) == rule.minDepth
    ensures NonNegative(Some(Depth(rule.maxDepth))) == rule.maxDepth
  {
  }

  lemma {:induction false} TargetsBack(rule: Rule)
    requires NoRepeats(rule.targets)
    ensures Distinct(Targets(Placements(ExportRule(rule)))) == rule.targets
    ensures Distinct(Inactive(Placements(ExportRule(rule)))) == []
    ensures 0 !in Integers(Items(Field(ExportRule(rule), "placement")))
  {
    hide ExportRule, Field, PlacementItems, Integers, Targets, Inactive, Without, TextItems, Texts;
    ExportedTexts(rule);
    PlacementsBack(rule.targets);
    DistinctIsDistinct(rule.targets);
  }

  lemma {:induction false} SurfacesBack(rule: Rule)
    requires rule.surfaces in {[Prompt, Display], [Display], [Prompt], [Canonical]} && NoRepeats(rule.targets)
    ensures SurfacesFor(ExportRule(rule)) == rule.surfaces
  {
    hide ExportRule, Field, Integers, Depth, Substitution;
    ExportedOptions(rule);
    TargetsBack(rule);
  }

  /** Anything the importer builds from an exported rule is that rule again. */
  lemma {:induction false} SettledComesBack(engine: Engine, rule: Rule, index: nat)
    requires Settled(engine, rule)
    ensures Parse(engine, ExportRule(rule), SourceScope(rule), index)
         == Success(RuleView(Placed(rule, index), SourceScope(rule), []))
  {
    ExportedTexts(rule);
    ExportedOptions(rule);
    hide ExportRule, Field, Text, Items, Flag, Substitution, ModeOf, Depth, Integer, NonNegative, Integers;
    hide Compiles, FillMacros, Trim, IsTrimmed, ReplaceMatch, IsCompiled, Texts, TextItems, PlacementItems, Placements, Targets, Inactive, Distinct, SurfacesFor;
    TrimTrims(rule.id);
    Fixed(rule.replaceString);
    TextsBack(rule.trimStrings);
    TargetsBack(rule);
    SurfacesBack(rule);
    DepthsBack(rule);
  }

  /**
   Exporting a rule and importing it again gives the same rule, at its new
   position and at its scope's priority, exactly when the rule has the shape
   the importer guarantees.
   */
  lemma {:induction false} RuleRoundTrip(engine: Engine, rule: Rule, index: nat)
    ensures Settled(engine, rule)
       <==> Parse(engine, ExportRule(rule), SourceScope(rule), index) == Success(RuleView(Placed(rule, index), SourceScope(rule), []))
  {
    if Settled(engine, rule) {
      SettledComesBack(engine, rule, index);
    }
    hide Parse, Compiles, FillMacros, IsTrimmed, IsCompiled, ExportRule;
    if Parse(engine, ExportRule(rule), SourceScope(rule), index) == Success(RuleView(Placed(rule, index), SourceScope(rule), [])) {
      ParsedIsSettled(engine, ExportRule(rule), SourceScope(rule), index);
    }
  }
}
