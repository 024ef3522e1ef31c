/**
 Application of text-transform rules (`execute.ts`). The texts transformed are
 sequences of UTF-16 units, as JavaScript has them.

 The regular-expression engine is an oracle for a single question, "what does
 the pattern match at this position?". The search around it (`RegExp.exec`
 with its `lastIndex`) follows ECMAScript: under the flag `u` a `lastIndex`
 inside a surrogate pair is taken back to the start of the pair.
 */
module TextTransforms {
  import opened Wrappers
  import TextBasics
  import opened UnicodeText
  import opened RegexRules
  import opened RuleImport
  import opened RuleRoundTrip

  // ----- the search -----

  /** A match at a known position: its length, its numbered groups from 1, its named groups. */
  datatype Found = Found(length: nat, captures: seq<Option<Utf16>>, groups: map<Utf16, Utf16>)

  datatype Match = Match(index: nat, found: Found)

  /** A compiled pattern: `at(input, i)` is the match at position `i`, if any. */
  datatype Regex = Regex(flags: string, at: (Utf16, nat) -> Option<Found>)

  predicate Unicode(x: Regex) { 'u' in x.flags }

  predicate Sticky(x: Regex) { 'y' in x.flags }

  /** `regex.global && !regex.sticky`. */
  predicate ReplacesAll(x: Regex) { 'g' in x.flags && !Sticky(x) }

  /** Position `i` does not cut a surrogate pair. */
  predicate Aligned(s: Utf16, i: nat)
  {
    !(0 < i < |s| && IsHigh(s[i - 1]) && IsLow(s[i]))
  }

  predicate Allowed(x: Regex, s: Utf16, i: nat)
  {
    Unicode(x) ==> Aligned(s, i)
  }

  /** The matcher at one position; matches stay inside the input and, under `u`, do not cut pairs. */
  function MatchAt(x: Regex, s: Utf16, i: nat): Option<Found>
  {
    var f := x.at(s, i);
    if f.Some? && i + f.value.length <= |s| && Allowed(x, s, i + f.value.length) then f else None
  }

  function Advance(x: Regex, s: Utf16, i: nat): nat
  {
    if Unicode(x) && !Aligned(s, i + 1) then i + 2 else i + 1
  }

  /** The leftmost match from position `i` on. */
  function Search(x: Regex, s: Utf16, i: nat): Option<Match>
    decreases |s| - i
  {
    if i > |s| then None
    else if MatchAt(x, s, i).Some? then Some(Match(i, MatchAt(x, s, i).value))
    else if Sticky(x) then None
    else Search(x, s, Advance(x, s, i))
  }

  /** `regex.exec(input)` with `regex.lastIndex == lastIndex`. */
  function Exec(x: Regex, s: Utf16, lastIndex: nat): Option<Match>
  {
    Search(x, s, if Allowed(x, s, lastIndex) then lastIndex else lastIndex - 1)
  }

  function End(m: Match): nat
  {
    m.index + m.found.length
  }

  function MatchText(s: Utf16, m: Match): Utf16
    requires End(m) <= |s|
  {
    s[m.index..End(m)]
  }

  /** `lastIndex` after a match in the replacement loop. */
  function Next(m: Match): nat
  {
    if m.found.length == 0 then m.index + 1 else End(m)
  }

  lemma {:induction false} SearchFinds(x: Regex, s: Utf16, i: nat)
    requires Allowed(x, s, i)
    ensures match Search(x, s, i)
            case None => true
            case Some(m) => i <= m.index && End(m) <= |s| && Allowed(x, s, m.index) && Allowed(x, s, End(m))
                            && MatchAt(x, s, m.index) == Some(m.found) && (Sticky(x) ==> m.index == i)
    decreases |s| - i
  {
    if i <= |s| && MatchAt(x, s, i).None? && !Sticky(x) {
      SearchFinds(x, s, Advance(x, s, i));
    }
  }

  // ----- the loop -----

  /**
   All matches the loop visits from an aligned `lastIndex` on, or `None` if it
   meets an empty match in front of a surrogate pair.
   */
  function Matches(x: Regex, s: Utf16, lastIndex: nat): (r: Option<seq<Match>>)
    requires Allowed(x, s, lastIndex)
    decreases |s| + 1 - lastIndex
  {
    SearchFinds(x, s, lastIndex);
    match Search(x, s, lastIndex)
    case None => Some([])
    case Some(m) =>
      if !Allowed(x, s, Next(m)) then None
      else
        var rest := Matches(x, s, Next(m));
        if rest.None? then None else Some([m] + rest.value)
  }

  /** What the loop replaces from `lastIndex` on: everything with `g`, else only the first match. */
  function Remaining(x: Regex, s: Utf16, lastIndex: nat): Option<seq<Match>>
    requires Allowed(x, s, lastIndex)
  {
    if ReplacesAll(x) then Matches(x, s, lastIndex)
    else Some(if Search(x, s, lastIndex).Some? then [Search(x, s, lastIndex).value] else [])
  }

  function Replaceable(x: Regex, s: Utf16): Option<seq<Match>>
  {
    Remaining(x, s, 0)
  }

  /** The loop leaves within `n` rounds; without `g` or with `y` it leaves after the first match. */
  predicate Halts(x: Regex, s: Utf16, lastIndex: nat, n: nat)
    decreases n
  {
    n > 0 && match Exec(x, s, lastIndex)
             case None => true
             case Some(m) => ReplacesAll(x) ==> Halts(x, s, Next(m), n - 1)
  }

  /** The loop, started as the source starts it, ends. */
  ghost predicate Terminates(x: Regex, s: Utf16)
  {
    exists n: nat :: Halts(x, s, 0, n)
  }

  lemma {:induction false} VisitsAndHalts(x: Regex, s: Utf16, lastIndex: nat)
    requires Allowed(x, s, lastIndex) && lastIndex <= |s| + 1 && Remaining(x, s, lastIndex).Some?
    ensures Halts(x, s, lastIndex, |s| + 2 - lastIndex)
    decreases |s| + 1 - lastIndex
  {
    SearchFinds(x, s, lastIndex);
    if Search(x, s, lastIndex).Some? && ReplacesAll(x) {
      var m := Search(x, s, lastIndex).value;
      VisitsAndHalts(x, s, Next(m));
      MoreRounds(x, s, Next(m), |s| + 2 - Next(m), |s| + 1 - lastIndex);
    }
  }

  lemma {:induction false} MoreRounds(x: Regex, s: Utf16, lastIndex: nat, n: nat, more: nat)
    requires Halts(x, s, lastIndex, n) && n <= more
    ensures Halts(x, s, lastIndex, more)
    decreases n
  {
    if Exec(x, s, lastIndex).Some? && ReplacesAll(x) {
      MoreRounds(x, s, Next(Exec(x, s, lastIndex).value), n - 1, more - 1);
    }
  }

  /** In front of a pair an empty match takes the search back to itself. */
  lemma {:induction false} StuckStays(x: Regex, s: Utf16, m: Match, n: nat)
    requires ReplacesAll(x) && End(m) <= |s| && Allowed(x, s, m.index) && !Allowed(x, s, Next(m))
    requires MatchAt(x, s, m.index) == Some(m.found)
    ensures !Halts(x, s, Next(m), n)
    decreases n
  {
    if n > 0 {
      assert Allowed(x, s, End(m));
      StuckStays(x, s, m, n - 1);
    }
  }

  lemma {:induction false} StuckIsReached(x: Regex, s: Utf16, lastIndex: nat, n: nat)
    requires Allowed(x, s, lastIndex) && Remaining(x, s, lastIndex).None?
    ensures !Halts(x, s, lastIndex, n)
    decreases n
  {
    if n > 0 {
      SearchFinds(x, s, lastIndex);
      var m := Search(x, s, lastIndex).value;
      if Allowed(x, s, Next(m)) {
        StuckIsReached(x, s, Next(m), n - 1);
      } else {
        StuckStays(x, s, m, n - 1);
      }
    }
  }

  /**
   The replacement loop ends exactly when it replaces at most one match or
   visits no empty match in front of a surrogate pair under the flag `u`.
   */
  lemma {:induction false} LoopTerminates(x: Regex, s: Utf16)
    ensures Terminates(x, s) <==> Replaceable(x, s).Some?
    ensures Replaceable(x, s).Some? <==> !ReplacesAll(x) || Matches(x, s, 0).Some?
  {
    hide Halts;
    if Replaceable(x, s).Some? {
      VisitsAndHalts(x, s, 0);
      var n: nat := |s| + 2;
      assert Halts(x, s, 0, n);
    } else {
      forall n: nat ensures !Halts(x, s, 0, n) {
        StuckIsReached(x, s, 0, n);
      }
    }
  }

  /** Under the flag `u` the pattern matches the empty text right in front of a surrogate pair. */
  predicate BlocksAt(x: Regex, s: Utf16, p: nat)
  {
    p < |s| && !Allowed(x, s, p + 1) && MatchAt(x, s, p).Some? && MatchAt(x, s, p).value.length == 0
  }

  /**
   What can be checked position by position: without an empty match in front
   of a pair the loop ends. In particular it does without the flag `u` and
   on inputs without surrogate pairs.
   */
  lemma {:induction false} UnblockedTerminates(x: Regex, s: Utf16)
    requires forall p: nat :: !BlocksAt(x, s, p)
    ensures Terminates(x, s)
  {
    NothingBlocks(x, s, 0);
    LoopTerminates(x, s);
  }

  lemma {:induction false} NothingBlocks(x: Regex, s: Utf16, lastIndex: nat)
    requires Allowed(x, s, lastIndex) && forall p: nat :: !BlocksAt(x, s, p)
    ensures Matches(x, s, lastIndex).Some?
    decreases |s| + 1 - lastIndex
  {
    SearchFinds(x, s, lastIndex);
    if Search(x, s, lastIndex).Some? {
      var m := Search(x, s, lastIndex).value;
      assert !BlocksAt(x, s, m.index);
      NothingBlocks(x, s, Next(m));
    }
  }

  /** An input that starts with a block is not finished: the condition is exact where the loop begins. */
  lemma {:induction false} BlockedAtStart(x: Regex, s: Utf16)
    requires ReplacesAll(x) && BlocksAt(x, s, 0)
    ensures !Terminates(x, s)
  {
    LoopTerminates(x, s);
  }

  const PAIR: Utf16 := [0xD83D, 0xDE00]

  /** The empty pattern on one surrogate pair: endless with the flags `gu`, one round with `u` alone. */
  lemma {:induction false} EmptyPatternMayNotTerminate()
    ensures !Terminates(Regex("gu", (_, _) => Some(Found(0, [], map[]))), PAIR)
    ensures Terminates(Regex("u", (_, _) => Some(Found(0, [], map[]))), PAIR)
  {
    var x := Regex("gu", (_, _) => Some(Found(0, [], map[])));
    BlockedAtStart(x, PAIR);
    LoopTerminates(Regex("u", (_, _) => Some(Found(0, [], map[]))), PAIR);
  }

  // ----- no match is passed over -----

  /** A place where the search may look and the pattern matches. */
  predicate Hit(x: Regex, s: Utf16, p: nat)
  {
    p <= |s| && Allowed(x, s, p) && MatchAt(x, s, p).Some?
  }

  /** The search finds the leftmost match, or there is none. */
  lemma {:induction false} SearchIsLeftmost(x: Regex, s: Utf16, i: nat, p: nat)
    requires Allowed(x, s, i) && !Sticky(x) && i <= p && Hit(x, s, p)
    ensures Search(x, s, i).Some? && Search(x, s, i).value.index <= p
    decreases |s| - i
  {
    if MatchAt(x, s, i).None? {
      SearchIsLeftmost(x, s, Advance(x, s, i), p);
    }
  }

  predicate Covers(m: Match, p: nat)
  {
    m.index <= p < Next(m)
  }

  /** Every place where the pattern matches is where a visited match begins, or inside one. */
  lemma {:induction false} MatchesMissNone(x: Regex, s: Utf16, lastIndex: nat, p: nat)
    requires Allowed(x, s, lastIndex) && Matches(x, s, lastIndex).Some? && !Sticky(x) && lastIndex <= p && Hit(x, s, p)
    ensures exists m :: m in Matches(x, s, lastIndex).value && Covers(m, p)
    decreases |s| + 1 - lastIndex
  {
    hide Hit;
    SearchIsLeftmost(x, s, lastIndex, p);
    SearchFinds(x, s, lastIndex);
    var m := Search(x, s, lastIndex).value;
    var rest := Matches(x, s, Next(m)).value;
    assert Matches(x, s, lastIndex).value == [m] + rest;
    if p < Next(m) {
      assert m in [m] + rest && Covers(m, p);
    } else {
      MatchesMissNone(x, s, Next(m), p);
      var other :| other in rest && Covers(other, p);
      assert other in [m] + rest;
    }
  }

  /**
   The loop replaces what it has to. With `g` every place where the pattern
   matches belongs to a replaced match; without it the leftmost match is
   replaced, and with `y` only one at the very start.
   */
  lemma {:induction false} NoMatchIsMissed(x: Regex, s: Utf16, p: nat)
    requires Replaceable(x, s).Some? && Hit(x, s, p)
    ensures ReplacesAll(x) ==> exists m :: m in Replaceable(x, s).value && Covers(m, p)
    ensures !Sticky(x) ==> Replaceable(x, s).value != [] && Replaceable(x, s).value[0].index <= p
    ensures Sticky(x) && p == 0 ==> Replaceable(x, s).value == [Match(0, MatchAt(x, s, 0).value)]
    ensures forall m :: Sticky(x) && m in Replaceable(x, s).value ==> m.index == 0
  {
    if ReplacesAll(x) {
      MatchesMissNone(x, s, 0, p);
    }
    if !Sticky(x) {
      SearchIsLeftmost(x, s, 0, p);
    }
    SearchFinds(x, s, 0);
  }

  // ----- the matches cut the input into pieces -----

  /** Matches from left to right, inside the input, disjoint, with strictly growing positions. */
  predicate LeftToRight(s: Utf16, start: nat, ms: seq<Match>)
  {
    && (forall i :: 0 <= i < |ms| ==> start <= ms[i].index && End(ms[i]) <= |s|)
    && (forall i, j :: 0 <= i < j < |ms| ==> Next(ms[i]) <= ms[j].index)
  }

  lemma {:induction false} MatchesGoRight(x: Regex, s: Utf16, lastIndex: nat)
    requires Allowed(x, s, lastIndex) && Matches(x, s, lastIndex).Some?
    ensures LeftToRight(s, lastIndex, Matches(x, s, lastIndex).value)
    decreases |s| + 1 - lastIndex
  {
    SearchFinds(x, s, lastIndex);
    if Search(x, s, lastIndex).Some? {
      MatchesGoRight(x, s, Next(Search(x, s, lastIndex).value));
    }
  }

  /** Also for patterns without `g` or with `y`, which replace at most one match. */
  lemma {:induction false} ReplaceableGoRight(x: Regex, s: Utf16)
    requires Replaceable(x, s).Some?
    ensures LeftToRight(s, 0, Replaceable(x, s).value)
    ensures !ReplacesAll(x) ==> |Replaceable(x, s).value| <= 1
    ensures forall i :: 0 <= i < |Replaceable(x, s).value| ==>
              MatchAt(x, s, Replaceable(x, s).value[i].index) == Some(Replaceable(x, s).value[i].found)
  {
    if ReplacesAll(x) {
      MatchesGoRight(x, s, 0);
      MatchesMatch(x, s, 0);
    } else {
      SearchFinds(x, s, 0);
    }
  }

  lemma {:induction false} MatchesMatch(x: Regex, s: Utf16, lastIndex: nat)
    requires Allowed(x, s, lastIndex) && Matches(x, s, lastIndex).Some?
    ensures forall m :: m in Matches(x, s, lastIndex).value ==> MatchAt(x, s, m.index) == Some(m.found)
    decreases |s| + 1 - lastIndex
  {
    SearchFinds(x, s, lastIndex);
    if Search(x, s, lastIndex).Some? {
      MatchesMatch(x, s, Next(Search(x, s, lastIndex).value));
    }
  }

  /** What lies between the matches, from `cursor` to the end: one piece more than matches. */
  function Gaps(s: Utf16, cursor: nat, ms: seq<Match>): (r: seq<Utf16>)
    requires cursor <= |s| && LeftToRight(s, cursor, ms)
    ensures |r| == |ms| + 1
    decreases |ms|
  {
    if ms == [] then [s[cursor..]] else [s[cursor..ms[0].index]] + Gaps(s, End(ms[0]), ms[1..])
  }

  /** Gaps and parts alternately: gap, part, gap, ..., part, gap. */
  function Weave(gaps: seq<Utf16>, parts: seq<Utf16>): Utf16
    requires |gaps| == |parts| + 1
    decreases |parts|
  {
    if parts == [] then gaps[0] else gaps[0] + parts[0] + Weave(gaps[1..], parts[1..])
  }

  lemma {:induction false} WeaveStep(gap: Utf16, gaps: seq<Utf16>, part: Utf16, parts: seq<Utf16>)
    requires |gaps| == |parts| + 1
    ensures Weave([gap] + gaps, [part] + parts) == gap + part + Weave(gaps, parts)
  {
    assert ([gap] + gaps)[1..] == gaps && ([part] + parts)[1..] == parts;
  }

  function MatchTexts(s: Utf16, ms: seq<Match>): (r: seq<Utf16>)
    requires forall i :: 0 <= i < |ms| ==> End(ms[i]) <= |s|
    ensures |r| == |ms|
  {
    if ms == [] then [] else [MatchText(s, ms[0])] + MatchTexts(s, ms[1..])
  }

  lemma {:induction false} ThreePieces(s: Utf16, i: nat, j: nat, k: nat)
    requires i <= j <= k <= |s|
    ensures s[i..] == s[i..j] + s[j..k] + s[k..]
  {
  }

  /** Gaps and matches together are the input: nothing is lost, doubled or moved. */
  lemma {:induction false} InputIsWoven(s: Utf16, cursor: nat, ms: seq<Match>)
    requires cursor <= |s| && LeftToRight(s, cursor, ms)
    ensures Weave(Gaps(s, cursor, ms), MatchTexts(s, ms)) == s[cursor..]
    decreases |ms|
  {
    if ms != [] {
      InputIsWoven(s, End(ms[0]), ms[1..]);
      hide Weave, LeftToRight;
      WeaveStep(s[cursor..ms[0].index], Gaps(s, End(ms[0]), ms[1..]), MatchText(s, ms[0]), MatchTexts(s, ms[1..]));
      ThreePieces(s, cursor, ms[0].index, End(ms[0]));
    } else {
      assert Gaps(s, cursor, ms) == [s[cursor..]];
    }
  }

  // ----- replacement -----

  type Macros = seq<(Utf16, Utf16)>

  const DOLLAR := '$' as int
  const AMPERSAND := '&' as int
  const BACKTICK := '`' as int
  const APOSTROPHE := '\'' as int
  const LESS := '<' as int
  const GREATER := '>' as int

  /** How `replaceAll` writes a replacement value for the occurrence of `pattern` at `i`. */
  function Fill(value: Utf16, s: Utf16, i: nat, pattern: Utf16): Utf16
    requires i + |pattern| <= |s|
    decreases |value|
  {
    if |value| < 2 then value
    else if value[0] == DOLLAR && value[1] == DOLLAR then [DOLLAR] + Fill(value[2..], s, i, pattern)
    else if value[0] == DOLLAR && value[1] == AMPERSAND then pattern + Fill(value[2..], s, i, pattern)
    else if value[0] == DOLLAR && value[1] == BACKTICK then s[..i] + Fill(value[2..], s, i, pattern)
    else if value[0] == DOLLAR && value[1] == APOSTROPHE then s[i + |pattern|..] + Fill(value[2..], s, i, pattern)
    else [value[0]] + Fill(value[1..], s, i, pattern)
  }

  /** `s.replaceAll(pattern, value)` from position `i`; an empty pattern only occurs with an empty value. */
  function ReplaceAll(s: Utf16, i: nat, pattern: Utf16, value: Utf16): Utf16
    requires i <= |s|
    decreases |s| - i
  {
    if pattern == [] || i + |pattern| > |s| then s[i..]
    else if s[i..i + |pattern|] == pattern then
      Fill(value, s, i, pattern) + ReplaceAll(s, i + |pattern|, pattern, value)
    else [s[i]] + ReplaceAll(s, i + 1, pattern, value)
  }

  function Substitute(text: Utf16, macros: Macros): Utf16
  {
    if macros == [] then text
    else
      var (name, value) := macros[|macros| - 1];
      ReplaceAll(Substitute(text, macros[..|macros| - 1]), 0, Encode("{{") + name + Encode("}}"), value)
  }

  function Trimmed(value: Utf16, trims: seq<string>, macros: Macros): Utf16
  {
    if trims == [] then value
    else
      ReplaceAll(Trimmed(value, trims[..|trims| - 1], macros), 0, Substitute(Encode(trims[|trims| - 1]), macros), [])
  }

  predicate IsDigit(u: Unit)
  {
    '0' as int <= u <= '9' as int
  }

  /** Group `n` of a match: the whole match for 0, nothing for a group that did not take part. */
  function Group(s: Utf16, m: Match, n: nat): Option<Utf16>
    requires End(m) <= |s|
  {
    if n == 0 then Some(MatchText(s, m))
    else if n <= |m.found.captures| then m.found.captures[n - 1]
    else None
  }

  function NameLength(t: Utf16): (n: nat)
    ensures n <= |t|
  {
    if t == [] || t[0] == GREATER then 0 else 1 + NameLength(t[1..])
  }

  function OrElse(o: Option<Utf16>, otherwise: Utf16): Utf16
  {
    if o.Some? then o.value else otherwise
  }

  /** The replacement template with its references resolved. */
  function Expand(t: Utf16, s: Utf16, m: Match, trims: seq<string>, macros: Macros): Utf16
    requires End(m) <= |s|
    decreases |t|
  {
    if |t| < 2 then t
    else if t[0] != DOLLAR then [t[0]] + Expand(t[1..], s, m, trims, macros)
    else if t[1] == DOLLAR then [DOLLAR] + Expand(t[2..], s, m, trims, macros)
    else if t[1] == AMPERSAND then Trimmed(MatchText(s, m), trims, macros) + Expand(t[2..], s, m, trims, macros)
    else if t[1] == BACKTICK then s[..m.index] + Expand(t[2..], s, m, trims, macros)
    else if t[1] == APOSTROPHE then s[End(m)..] + Expand(t[2..], s, m, trims, macros)
    else if IsDigit(t[1]) then
      var two := |t| > 2 && IsDigit(t[2]);
      var n := if two then 10 * (t[1] - 48) + t[2] - 48 else t[1] - 48;
      var length := if two then 3 else 2;
      Trimmed(OrElse(Group(s, m, n), t[..length]), trims, macros) + Expand(t[length..], s, m, trims, macros)
    else
      var n := NameLength(t[2..]);
      if t[1] == LESS && n > 0 && 2 + n < |t| then
        var name := t[2..2 + n];
        Trimmed(if name in m.found.groups then m.found.groups[name] else [], trims, macros)
        + Expand(t[3 + n..], s, m, trims, macros)
      else [t[0]] + Expand(t[1..], s, m, trims, macros)
  }

  function Replacement(rule: Rule, m: Match, s: Utf16, macros: Macros): Utf16
    requires End(m) <= |s|
  {
    Substitute(Expand(Encode(rule.replaceString), s, m, rule.trimStrings, macros), macros)
  }

  function Replacements(rule: Rule, ms: seq<Match>, s: Utf16, macros: Macros): (r: seq<Utf16>)
    requires forall i :: 0 <= i < |ms| ==> End(ms[i]) <= |s|
    ensures |r| == |ms|
  {
    if ms == [] then [] else [Replacement(rule, ms[0], s, macros)] + Replacements(rule, ms[1..], s, macros)
  }

  /** The input from `cursor` on with its matches replaced. */
  function Replaced(rule: Rule, s: Utf16, cursor: nat, ms: seq<Match>, macros: Macros): Utf16
    requires cursor <= |s| && LeftToRight(s, cursor, ms)
    decreases |ms|
  {
    if ms == [] then s[cursor..]
    else
      s[cursor..ms[0].index] + Replacement(rule, ms[0], s, macros) + Replaced(rule, s, End(ms[0]), ms[1..], macros)
  }

  /** The output has the input's gaps, each verbatim, with the replacements between them. */
  lemma {:induction false} OutputIsWoven(rule: Rule, s: Utf16, cursor: nat, ms: seq<Match>, macros: Macros)
    requires cursor <= |s| && LeftToRight(s, cursor, ms)
    ensures Replaced(rule, s, cursor, ms, macros) == Weave(Gaps(s, cursor, ms), Replacements(rule, ms, s, macros))
    decreases |ms|
  {
    hide Replacement;
    if ms != [] {
      OutputIsWoven(rule, s, End(ms[0]), ms[1..], macros);
      hide Weave, LeftToRight;
      WeaveStep(s[cursor..ms[0].index], Gaps(s, End(ms[0]), ms[1..]),
                Replacement(rule, ms[0], s, macros), Replacements(rule, ms[1..], s, macros));
    }
  }

  /** A rule that writes each match as itself. */
  predicate RepeatsMatch(rule: Rule, macros: Macros)
  {
    (rule.replaceString == "$&" || rule.replaceString == "$0") && rule.trimStrings == [] && macros == []
  }

  lemma {:induction false} RepeatedMatch(rule: Rule, m: Match, s: Utf16)
    requires End(m) <= |s| && RepeatsMatch(rule, [])
    ensures Replacement(rule, m, s, []) == MatchText(s, m)
  {
    var t := Encode(rule.replaceString);
    assert rule.replaceString[1..] == [rule.replaceString[1]] && rule.replaceString[1..][1..] == "";
    assert Encode(rule.replaceString[1..][1..]) == [];
    assert Encode(rule.replaceString[1..]) == [rule.replaceString[1] as int];
    assert t == [DOLLAR, rule.replaceString[1] as int];
    assert Expand(t[2..], s, m, [], []) == [];
    assert Expand(t, s, m, [], []) == MatchText(s, m) + [];
  }

  /** Replacing each match by itself gives the input back, whatever the pattern matched. */
  lemma {:induction false} ReplacedByItself(rule: Rule, s: Utf16, ms: seq<Match>)
    requires RepeatsMatch(rule, []) && LeftToRight(s, 0, ms)
    ensures Replaced(rule, s, 0, ms, []) == s
  {
    hide Replacement, RepeatsMatch, Replaced, Weave;
    OutputIsWoven(rule, s, 0, ms, []);
    AllRepeated(rule, s, ms);
    InputIsWoven(s, 0, ms);
    assert s[0..] == s;
  }

  lemma {:induction false} AllRepeated(rule: Rule, s: Utf16, ms: seq<Match>)
    requires RepeatsMatch(rule, []) && forall i :: 0 <= i < |ms| ==> End(ms[i]) <= |s|
    ensures Replacements(rule, ms, s, []) == MatchTexts(s, ms)
  {
    hide Replacement, RepeatsMatch;
    if ms != [] {
      RepeatedMatch(rule, ms[0], s);
      AllRepeated(rule, s, ms[1..]);
    }
  }

  // ----- what templates mean -----

  /** The parts of a replacement template; `Lone` is a dollar sign that begins no reference. */
  datatype Part =
    | Verbatim(u: Unit)
    | Lone
    | Dollar
    | Whole
    | Before
    | After
    | Numbered(n: nat, wide: bool)
    | Named(name: Utf16)

  predicate Writable(part: Part)
  {
    match part
    case Verbatim(u) => u != DOLLAR
    case Numbered(n, wide) => n < if wide then 100 else 10
    case Named(name) => name != [] && GREATER !in name
    case _ => true
  }

  function Digit(n: nat): Unit
    requires n < 10
  {
    48 + n
  }

  function Written(part: Part): Utf16
    requires Writable(part)
  {
    match part
    case Verbatim(u) => [u]
    case Lone => [DOLLAR]
    case Dollar => [DOLLAR, DOLLAR]
    case Whole => [DOLLAR, AMPERSAND]
    case Before => [DOLLAR, BACKTICK]
    case After => [DOLLAR, APOSTROPHE]
    case Numbered(n, wide) => if wide then [DOLLAR, Digit(n / 10), Digit(n % 10)] else [DOLLAR, Digit(n)]
    case Named(name) => [DOLLAR, LESS] + name + [GREATER]
  }

  predicate AllWritable(parts: seq<Part>)
  {
    forall part :: part in parts ==> Writable(part)
  }

  function Template(parts: seq<Part>): Utf16
    requires AllWritable(parts)
  {
    if parts == [] then [] else Written(parts[0]) + Template(parts[1..])
  }

  /** A name in angle brackets stands at the beginning. */
  predicate BeginsName(rest: Utf16)
  {
    |rest| > 1 && rest[0] == LESS && rest[1] != GREATER && GREATER in rest
  }

  /** A number of one digit ends before a digit, and a lone dollar sign before what makes no reference. */
  predicate Ends(part: Part, rest: Utf16)
  {
    && (part.Numbered? && !part.wide && rest != [] ==> !IsDigit(rest[0]))
    && (part.Lone? && rest != [] ==>
          !IsDigit(rest[0]) && rest[0] !in {DOLLAR, AMPERSAND, BACKTICK, APOSTROPHE} && !BeginsName(rest))
  }

  predicate IsTemplate(parts: seq<Part>)
  {
    AllWritable(parts) && (parts != [] ==> Ends(parts[0], Template(parts[1..])) && IsTemplate(parts[1..]))
  }

  /**
   What a part stands for. Matches and groups are trimmed, what lies around
   the match is not; a number without a group stands for itself, a name
   without a group for nothing.
   */
  function Meant(part: Part, s: Utf16, m: Match, trims: seq<string>, macros: Macros): Utf16
    requires Writable(part) && End(m) <= |s|
  {
    match part
    case Verbatim(u) => [u]
    case Lone => [DOLLAR]
    case Dollar => [DOLLAR]
    case Whole => Trimmed(s[m.index..End(m)], trims, macros)
    case Before => s[..m.index]
    case After => s[End(m)..]
    case Numbered(n, _) =>
      var group := if n == 0 then Some(s[m.index..End(m)]) else if n <= |m.found.captures| then m.found.captures[n - 1] else None;
      Trimmed(if group.Some? then group.value else Written(part), trims, macros)
    case Named(name) => Trimmed(if name in m.found.groups then m.found.groups[name] else [], trims, macros)
  }

  function AllMeant(parts: seq<Part>, s: Utf16, m: Match, trims: seq<string>, macros: Macros): Utf16
    requires AllWritable(parts) && End(m) <= |s|
  {
    if parts == [] then [] else Meant(parts[0], s, m, trims, macros) + AllMeant(parts[1..], s, m, trims, macros)
  }

  lemma {:induction false} NameEnds(name: Utf16, rest: Utf16)
    requires GREATER !in name
    ensures NameLength(name + ([GREATER] + rest)) == |name|
  {
    var t := name + ([GREATER] + rest);
    if name == [] {
      assert t[0] == GREATER;
    } else {
      assert t[0] == name[0] && t[1..] == name[1..] + ([GREATER] + rest);
      NameEnds(name[1..], rest);
    }
  }

  lemma {:induction false} FirstUnit(part: Part)
    requires Writable(part)
    ensures Written(part) != [] && Written(part)[0] == if part.Verbatim? then part.u else DOLLAR
  {
  }

  lemma {:induction false} NameLengthIs(t: Utf16)
    ensures NameLength(t) < |t| <==> GREATER in t
    ensures GREATER !in t[..NameLength(t)]
    ensures NameLength(t) < |t| ==> t[NameLength(t)] == GREATER
  {
    if t != [] && t[0] != GREATER {
      NameLengthIs(t[1..]);
      assert t[..NameLength(t)] == [t[0]] + t[1..][..NameLength(t) - 1];
      assert t == [t[0]] + t[1..];
    }
  }

  lemma {:induction false} ExpandPart(part: Part, rest: Utf16, s: Utf16, m: Match, trims: seq<string>, macros: Macros)
    requires Writable(part) && Ends(part, rest) && End(m) <= |s|
    ensures Expand(Written(part) + rest, s, m, trims, macros)
         == Meant(part, s, m, trims, macros) + Expand(rest, s, m, trims, macros)
  {
    hide Trimmed;
    if part.Numbered? {
      ExpandNumber(part, rest, s, m, trims, macros);
    } else if part.Named? {
      ExpandName(part.name, rest, s, m, trims, macros);
    } else if part.Verbatim? || part.Lone? {
      ExpandUnit(part, rest, s, m, trims, macros);
    } else {
      var t := Written(part) + rest;
      assert t[0] == DOLLAR && t[1] == Written(part)[1] && t[2..] == rest;
    }
  }

  lemma {:induction false} ExpandUnit(part: Part, rest: Utf16, s: Utf16, m: Match, trims: seq<string>, macros: Macros)
    requires (part.Verbatim? || part.Lone?) && Writable(part) && Ends(part, rest) && End(m) <= |s|
    ensures Expand(Written(part) + rest, s, m, trims, macros)
         == Written(part) + Expand(rest, s, m, trims, macros)
  {
    hide Trimmed;
    var t := Written(part) + rest;
    assert t[1..] == rest;
    if part.Lone? && |rest| > 1 && rest[0] == LESS {
      assert t[2..] == rest[1..];
      NameLengthIs(rest[1..]);
      assert rest == [LESS] + rest[1..];
    }
    if rest == [] {
      assert t == Written(part);
      assert Expand(rest, s, m, trims, macros) == [];
      assert Written(part) + [] == Written(part);
    } else {
      assert t[1] == rest[0];
    }
  }

  lemma {:induction false} ExpandNumber(part: Part, rest: Utf16, s: Utf16, m: Match, trims: seq<string>, macros: Macros)
    requires part.Numbered? && Writable(part) && Ends(part, rest) && End(m) <= |s|
    ensures Expand(Written(part) + rest, s, m, trims, macros)
         == Meant(part, s, m, trims, macros) + Expand(rest, s, m, trims, macros)
  {
    hide Trimmed;
    var w := Written(part);
    var t := w + rest;
    assert t[0] == DOLLAR && t[1] == w[1] && t[..|w|] == w && t[|w|..] == rest;
    if part.wide {
      assert t[2] == Digit(part.n % 10);
      assert 10 * (t[1] - 48) + t[2] - 48 == part.n;
    } else {
      assert rest != [] ==> t[2] == rest[0];
    }
  }

  lemma {:induction false} ExpandName(name: Utf16, rest: Utf16, s: Utf16, m: Match, trims: seq<string>, macros: Macros)
    requires name != [] && GREATER !in name && End(m) <= |s|
    ensures Expand(Written(Named(name)) + rest, s, m, trims, macros)
         == Meant(Named(name), s, m, trims, macros) + Expand(rest, s, m, trims, macros)
  {
    hide Trimmed;
    var t := Written(Named(name)) + rest;
    assert t[0] == DOLLAR && t[1] == LESS;
    assert t[2..] == name + ([GREATER] + rest);
    NameEnds(name, rest);
    assert t[2..2 + |name|] == name && t[3 + |name|..] == rest;
  }

  /** A template means what its parts mean, one after the other: each reference is resolved once and nothing it yields is read again. */
  lemma {:induction false} TemplateMeans(parts: seq<Part>, s: Utf16, m: Match, trims: seq<string>, macros: Macros)
    requires IsTemplate(parts) && End(m) <= |s|
    ensures Expand(Template(parts), s, m, trims, macros) == AllMeant(parts, s, m, trims, macros)
  {
    hide Expand, Meant, Written;
    if parts != [] {
      TemplateMeans(parts[1..], s, m, trims, macros);
      ExpandPart(parts[0], Template(parts[1..]), s, m, trims, macros);
    } else {
      ExpandNothing(s, m, trims, macros);
    }
  }

  lemma ExpandNothing(s: Utf16, m: Match, trims: seq<string>, macros: Macros)
    requires End(m) <= |s|
    ensures Expand([], s, m, trims, macros) == []
  {
  }

  /** Every text is a template. */
  lemma {:induction false} TemplateOf(t: Utf16) returns (parts: seq<Part>)
    ensures IsTemplate(parts) && Template(parts) == t
    decreases |t|
  {
    if t == [] {
      parts := [];
    } else {
      hide Written, Ends, Writable;
      var first := FirstReference(t);
      var rest := TemplateOf(t[|Written(first)|..]);
      parts := [first] + rest;
      assert parts[1..] == rest;
      assert Written(first) + t[|Written(first)|..] == t;
    }
  }

  lemma {:induction false} FirstReference(t: Utf16) returns (part: Part)
    requires t != []
    ensures Writable(part) && Written(part) <= t && Written(part) != [] && Ends(part, t[|Written(part)|..])
  {
    if t[0] != DOLLAR {
      part := Verbatim(t[0]);
    } else if |t| == 1 {
      part := Lone;
    } else if IsDigit(t[1]) {
      part := FirstNumber(t);
    } else if BeginsName(t[1..]) {
      part := FirstName(t);
    } else if t[1] == DOLLAR {
      part := Dollar;
    } else if t[1] == AMPERSAND {
      part := Whole;
    } else if t[1] == BACKTICK {
      part := Before;
    } else if t[1] == APOSTROPHE {
      part := After;
    } else {
      part := Lone;
    }
  }

  lemma {:induction false} FirstNumber(t: Utf16) returns (part: Part)
    requires |t| > 1 && t[0] == DOLLAR && IsDigit(t[1])
    ensures part.Numbered? && Writable(part) && Written(part) <= t && Ends(part, t[|Written(part)|..])
  {
    if |t| > 2 && IsDigit(t[2]) {
      part := Numbered(10 * (t[1] - 48) + (t[2] - 48), true);
      assert part.n / 10 == t[1] - 48 && part.n % 10 == t[2] - 48;
      assert Written(part) == t[..3];
    } else {
      part := Numbered(t[1] - 48, false);
      assert Written(part) == t[..2];
    }
  }

  lemma {:induction false} FirstName(t: Utf16) returns (part: Part)
    requires |t| > 1 && t[0] == DOLLAR && BeginsName(t[1..])
    ensures part.Named? && Writable(part) && Written(part) <= t && Ends(part, t[|Written(part)|..])
  {
    var u := t[2..];
    NameLengthIs(u);
    assert t[1..] == [LESS] + u;
    var n := NameLength(u);
    part := Named(u[..n]);
    assert Written(part) == t[..n + 3];
  }

  // ----- what substitution means -----

  predicate OccursAt(s: Utf16, pattern: Utf16, i: nat)
  {
    i + |pattern| <= |s| && s[i..i + |pattern|] == pattern
  }

  /** Everything up to the first occurrence stays, the occurrence is filled in, and the search goes on behind it. */
  lemma {:induction false} FirstIsReplaced(s: Utf16, i: nat, pattern: Utf16, value: Utf16, j: nat)
    requires pattern != [] && i <= j && OccursAt(s, pattern, j) && forall k :: i <= k < j ==> !OccursAt(s, pattern, k)
    ensures ReplaceAll(s, i, pattern, value) == s[i..j] + Fill(value, s, j, pattern) + ReplaceAll(s, j + |pattern|, pattern, value)
    decreases j - i
  {
    hide Fill;
    var filled, rest := Fill(value, s, j, pattern), ReplaceAll(s, j + |pattern|, pattern, value);
    if i < j {
      FirstIsReplaced(s, i + 1, pattern, value, j);
      assert !OccursAt(s, pattern, i);
      SliceFirst(s, i, j);
      Regroup([s[i]], s[i + 1..j], filled, rest);
      hide ReplaceAll;
    } else {
      assert s[i..j] == [] && [] + filled == filled;
    }
  }

  lemma SliceFirst(s: Utf16, i: nat, j: nat)
    requires i < j <= |s|
    ensures s[i..j] == [s[i]] + s[i + 1..j]
  {
  }

  lemma {:induction false} NothingToReplace(s: Utf16, i: nat, pattern: Utf16, value: Utf16)
    requires i <= |s| && forall k :: i <= k ==> !OccursAt(s, pattern, k)
    ensures ReplaceAll(s, i, pattern, value) == s[i..]
    decreases |s| - i
  {
    hide Fill;
    if i + |pattern| <= |s| && pattern != [] {
      assert !OccursAt(s, pattern, i);
      NothingToReplace(s, i + 1, pattern, value);
      assert s[i..] == [s[i]] + s[i + 1..];
    }
  }

  /** The parts that `replaceAll` knows; to it a dollar sign before a digit or `<` is a lone one, too. */
  predicate Fillable(part: Part)
  {
    !part.Numbered? && !part.Named? && Writable(part)
  }

  predicate MayFollowFilled(part: Part, next: Part)
  {
    part.Lone? ==> next.Verbatim? && next.u !in {AMPERSAND, BACKTICK, APOSTROPHE}
  }

  predicate IsFilling(parts: seq<Part>)
  {
    && (forall part :: part in parts ==> Fillable(part)) && AllWritable(parts)
    && forall i :: 0 < i < |parts| ==> MayFollowFilled(parts[i - 1], parts[i])
  }

  /** The match that an occurrence is to `replaceAll`. */
  function Occurrence(pattern: Utf16, i: nat): Match
  {
    Match(i, Found(|pattern|, [], map[]))
  }

  /** An occurrence is filled in like a match without groups. */
  lemma {:induction false} FillMeans(parts: seq<Part>, s: Utf16, i: nat, pattern: Utf16)
    requires IsFilling(parts) && OccursAt(s, pattern, i)
    ensures Fill(Template(parts), s, i, pattern) == AllMeant(parts, s, Occurrence(pattern, i), [], [])
  {
    if parts != [] {
      hide Meant, Written, Fillable;
      FillingEnds(parts);
      FillMeans(parts[1..], s, i, pattern);
      FillPart(parts[0], Template(parts[1..]), s, i, pattern);
    }
  }

  predicate EndsFilled(part: Part, rest: Utf16)
  {
    part.Lone? && rest != [] ==> rest[0] !in {DOLLAR, AMPERSAND, BACKTICK, APOSTROPHE}
  }

  lemma {:induction false} FillingEnds(parts: seq<Part>)
    requires IsFilling(parts) && parts != []
    ensures EndsFilled(parts[0], Template(parts[1..]))
  {
    hide Written;
    if |parts| > 1 {
      FirstUnit(parts[1]);
      assert MayFollowFilled(parts[0], parts[1]);
      assert Template(parts[1..])[0] == Written(parts[1])[0];
    }
  }

  lemma {:induction false} FillPart(part: Part, rest: Utf16, s: Utf16, i: nat, pattern: Utf16)
    requires Fillable(part) && EndsFilled(part, rest) && OccursAt(s, pattern, i)
    ensures Fill(Written(part) + rest, s, i, pattern)
         == Meant(part, s, Occurrence(pattern, i), [], []) + Fill(rest, s, i, pattern)
  {
    var t := Written(part) + rest;
    assert t[|Written(part)|..] == rest;
    if part.Verbatim? || part.Lone? {
      assert rest == [] ==> t == Written(part) && Fill(rest, s, i, pattern) == [];
      assert rest != [] ==> t[1] == rest[0];
      assert Written(part) + [] == Written(part);
    } else {
      assert t[0] == DOLLAR && t[1] == Written(part)[1];
    }
  }

  /** Every value is made of such parts. */
  lemma {:induction false} FillingOf(value: Utf16) returns (parts: seq<Part>)
    ensures IsFilling(parts) && Template(parts) == value
    decreases |value|
  {
    if value == [] {
      parts := [];
    } else {
      hide Written, EndsFilled, Fillable, IsFilling;
      var first := FirstPart(value);
      var rest := FillingOf(value[|Written(first)|..]);
      MoreFilling(first, rest, value);
      parts := [first] + rest;
    }
  }

  lemma {:induction false} MoreFilling(first: Part, rest: seq<Part>, value: Utf16)
    requires Fillable(first) && Written(first) <= value && EndsFilled(first, value[|Written(first)|..])
    requires IsFilling(rest) && Template(rest) == value[|Written(first)|..]
    ensures IsFilling([first] + rest) && Template([first] + rest) == value
  {
    hide MayFollowFilled, Written, EndsFilled;
    var parts := [first] + rest;
    assert parts[1..] == rest;
    assert AllWritable(parts);
    if rest != [] {
      FirstUnit(rest[0]);
      assert Template(rest)[0] == Written(rest[0])[0];
      FollowsFirst(first, rest[0], value);
    }
    forall i | 0 < i < |parts| ensures MayFollowFilled(parts[i - 1], parts[i]) {
      assert parts[i] == rest[i - 1] && (i > 1 ==> parts[i - 1] == rest[i - 2]);
    }
  }

  lemma {:induction false} FirstPart(value: Utf16) returns (part: Part)
    requires value != []
    ensures Fillable(part) && Written(part) <= value && Written(part) != []
    ensures EndsFilled(part, value[|Written(part)|..])
  {
    if value[0] != DOLLAR {
      part := Verbatim(value[0]);
    } else if |value| > 1 && value[1] == DOLLAR {
      part := Dollar;
    } else if |value| > 1 && value[1] == AMPERSAND {
      part := Whole;
    } else if |value| > 1 && value[1] == BACKTICK {
      part := Before;
    } else if |value| > 1 && value[1] == APOSTROPHE {
      part := After;
    } else {
      part := Lone;
    }
  }

  lemma {:induction false} FollowsFirst(part: Part, next: Part, value: Utf16)
    requires Fillable(part) && Fillable(next) && |Written(part)| < |value|
    requires EndsFilled(part, value[|Written(part)|..])
    requires value[|Written(part)|] == if next.Verbatim? then next.u else DOLLAR
    ensures MayFollowFilled(part, next)
  {
  }

  /** Macros are filled in from the first to the last, each in what the ones before it left. */
  lemma {:induction false} MacrosInOrder(text: Utf16, first: (Utf16, Utf16), rest: Macros)
    ensures Substitute(text, [first] + rest)
         == Substitute(ReplaceAll(text, 0, [0x7B, 0x7B] + first.0 + [0x7D, 0x7D], first.1), rest)
    decreases |rest|
  {
    hide ReplaceAll;
    var macros := [first] + rest;
    if rest == [] {
      Braces();
      assert macros == [first] && macros[..0] == [];
    } else {
      MacrosInOrder(text, first, rest[..|rest| - 1]);
      assert macros[..|macros| - 1] == [first] + rest[..|rest| - 1];
    }
  }

  lemma {:induction false} Braces()
    ensures Encode("{{") == [0x7B, 0x7B] && Encode("}}") == [0x7D, 0x7D]
  {
    assert "{{"[1..] == "{" && "{"[1..] == "" && "}}"[1..] == "}" && "}"[1..] == "";
    assert Encode("{") == [0x7B] + Encode("") && Encode("}") == [0x7D] + Encode("");
  }

  /** Trim strings are taken out from the first to the last, wherever they occur, with their macros filled in. */
  lemma {:induction false} TrimsInOrder(value: Utf16, first: string, rest: seq<string>, macros: Macros)
    ensures Trimmed(value, [first] + rest, macros)
         == Trimmed(ReplaceAll(value, 0, Substitute(Encode(first), macros), []), rest, macros)
    decreases |rest|
  {
    hide ReplaceAll, Substitute;
    var trims := [first] + rest;
    if rest == [] {
      assert trims == [first] && trims[..0] == [];
    } else {
      TrimsInOrder(value, first, rest[..|rest| - 1], macros);
      assert trims[..|trims| - 1] == [first] + rest[..|rest| - 1];
    }
  }

  // ----- application -----

  /** `compileRegex` on a rule's pattern with its macros filled in; `None` when it throws. */
  type Compiler = (string, MacroMode, Macros) -> Option<Regex>

  datatype RuleOutcome = Output(text: Utf16) | BadRegex | Endless

  function ApplyRule(compile: Compiler, s: Utf16, rule: Rule, macros: Macros): RuleOutcome
  {
    match compile(rule.findRegex, rule.macroMode, macros)
    case None => BadRegex
    case Some(x) =>
      if Replaceable(x, s).None? then Endless
      else
        ReplaceableGoRight(x, s);
        Output(Replaced(rule, s, 0, Replaceable(x, s).value, macros))
  }

  /** `applyRule` on a compiled pattern. Inputs on which the source does not return are left out. */
  method ReplaceMatches(x: Regex, s: Utf16, rule: Rule, macros: Macros) returns (r: Utf16)
    requires Terminates(x, s)
    ensures Replaceable(x, s).Some? && LeftToRight(s, 0, Replaceable(x, s).value)
    ensures r == Replaced(rule, s, 0, Replaceable(x, s).value, macros)
  {
    LoopTerminates(x, s);
    ReplaceableGoRight(x, s);
    ghost var total := Replaced(rule, s, 0, Replaceable(x, s).value, macros);
    ghost var ms := Replaceable(x, s).value;
    hide Replacement, Exec, Remaining, LeftToRight, Terminates, Replaced, Allowed, ReplacesAll;
    var output: Utf16, matched := [], false;
    var cursor: nat, lastIndex: nat := 0, 0;
    AllowedAtStart(x, s);
    while true
      invariant cursor <= |s| && LeftToRight(s, cursor, ms)
      invariant Allowed(x, s, lastIndex) && Remaining(x, s, lastIndex) == Some(ms)
      invariant total == output + Replaced(rule, s, cursor, ms, macros)
      invariant !matched ==> output == [] && cursor == 0
      decreases |s| + 1 - lastIndex
    {
      NextMatch(x, s, lastIndex);
      var found := Exec(x, s, lastIndex);
      if found.None? {
        break;
      }
      var m := found.value;
      ReplacedStep(rule, s, cursor, ms, macros);
      Regroup(output, s[cursor..m.index], Replacement(rule, m, s, macros), Replaced(rule, s, End(m), ms[1..], macros));
      output := output + s[cursor..m.index] + Replacement(rule, m, s, macros);
      cursor, matched := End(m), true;
      ms := ms[1..];
      if !ReplacesAll(x) {
        break;
      }
      lastIndex := Next(m);
    }
    ReplacedEnd(rule, s, cursor, macros);
    assert s[0..] == s;
    r := if matched then output + s[cursor..] else s;
  }

  lemma {:induction false} ReplacedStep(rule: Rule, s: Utf16, cursor: nat, ms: seq<Match>, macros: Macros)
    requires cursor <= |s| && LeftToRight(s, cursor, ms) && ms != []
    ensures cursor <= ms[0].index && End(ms[0]) <= |s| && LeftToRight(s, End(ms[0]), ms[1..])
    ensures Replaced(rule, s, cursor, ms, macros)
         == s[cursor..ms[0].index] + Replacement(rule, ms[0], s, macros) + Replaced(rule, s, End(ms[0]), ms[1..], macros)
  {
    hide Replacement;
  }

  lemma ReplacedEnd(rule: Rule, s: Utf16, cursor: nat, macros: Macros)
    requires cursor <= |s|
    ensures LeftToRight(s, cursor, []) && Replaced(rule, s, cursor, [], macros) == s[cursor..]
  {
  }

  lemma Regroup(a: Utf16, b: Utf16, c: Utf16, d: Utf16)
    ensures a + (b + c + d) == a + b + c + d
  {
  }

  lemma AllowedAtStart(x: Regex, s: Utf16)
    ensures Allowed(x, s, 0)
  {
  }

  /** The next call of `exec` finds the first of the remaining matches. */
  lemma {:induction false} NextMatch(x: Regex, s: Utf16, lastIndex: nat)
    requires Allowed(x, s, lastIndex) && Remaining(x, s, lastIndex).Some?
    ensures var ms, found := Remaining(x, s, lastIndex).value, Exec(x, s, lastIndex);
            match found
            case None => ms == []
            case Some(m) =>
              ms != [] && ms[0] == m && lastIndex < Next(m) <= |s| + 1
              && if ReplacesAll(x) then Allowed(x, s, Next(m)) && Remaining(x, s, Next(m)) == Some(ms[1..])
                 else ms[1..] == []
  {
    SearchFinds(x, s, lastIndex);
  }

  // ----- a whole list of rules -----

  const MAX_INPUT_BYTES := 4 * 1024 * 1024
  const MAX_OUTPUT_BYTES := 8 * 1024 * 1024

  /** Length of the UTF-8 form; `TextEncoder` writes a lone surrogate as three bytes. */
  function EncodedLength(s: Utf16): nat
  {
    if s == [] then 0
    else if s[0] < 0x80 then 1 + EncodedLength(s[1..])
    else if s[0] < 0x800 then 2 + EncodedLength(s[1..])
    else if |s| > 1 && !Aligned(s, 1) then 4 + EncodedLength(s[2..])
    else 3 + EncodedLength(s[1..])
  }

  lemma {:induction false} UnitsLength(c: char, rest: Utf16)
    ensures EncodedLength(Units(c) + rest) == |TextBasics.Utf8(c)| + EncodedLength(rest)
  {
    var u := Units(c);
    var t := u + rest;
    UnitsBack(c);
    assert t[|u|..] == rest && t[0] == u[0] && (|u| == 2 ==> t[1] == u[1]);
  }

  /** On a well-formed text it is the length of its UTF-8 bytes. */
  lemma {:induction false} EncodedLengthIsUtf8(text: string)
    ensures EncodedLength(Encode(text)) == |TextBasics.Utf8Bytes(text)|
  {
    if text != "" {
      EncodedLengthIsUtf8(text[1..]);
      UnitsLength(text[0], Encode(text[1..]));
      hide EncodedLength, TextBasics.Utf8;
    }
  }

  datatype Context = Context(target: Target, surface: Surface, depth: Option<int>, isEdit: bool, macros: Macros)

  predicate Applies(rule: Rule, context: Context)
  {
    && !rule.disabled && (context.isEdit ==> rule.runOnEdit)
    && context.target in rule.targets && context.surface in rule.surfaces
    && (context.depth.Some? ==>
          && (rule.minDepth.Some? ==> context.depth.value >= rule.minDepth.value)
          && (rule.maxDepth.Some? ==> context.depth.value <= rule.maxDepth.value))
  }

  datatype Transformed =
    | Transformed(text: Utf16, applied: seq<string>)
    | InputTooLarge
    | OutputTooLarge(id: string)
    | InvalidPattern
    | NoReturn

  function Run(compile: Compiler, text: Utf16, rules: seq<Rule>, context: Context): Transformed
    decreases |rules|
  {
    if rules == [] then Transformed(text, [])
    else if !Applies(rules[0], context) then Run(compile, text, rules[1..], context)
    else match ApplyRule(compile, text, rules[0], context.macros)
      case BadRegex => InvalidPattern
      case Endless => NoReturn
      case Output(next) =>
        if EncodedLength(next) > MAX_OUTPUT_BYTES then OutputTooLarge(rules[0].id)
        else match Run(compile, next, rules[1..], context)
          case Transformed(result, applied) =>
            Transformed(result, (if next != text then [rules[0].id] else []) + applied)
          case failed => failed
  }

  /** What `applyTextTransforms` returns or throws. */
  function Apply(compile: Compiler, input: Utf16, rules: seq<Rule>, context: Context): Transformed
  {
    if EncodedLength(input) > MAX_INPUT_BYTES then InputTooLarge else Run(compile, input, rules, context)
  }

  method ApplyTextTransforms(compile: Compiler, input: Utf16, rules: seq<Rule>, context: Context)
    returns (r: Transformed)
    requires !Apply(compile, input, rules, context).NoReturn?
    ensures r == Apply(compile, input, rules, context)
  {
    hide EncodedLength, Applies, Replaceable, Replaced;
    if EncodedLength(input) > MAX_INPUT_BYTES {
      return InputTooLarge;
    }
    var text, applied: seq<string> := input, [];
    ghost var goal := Run(compile, input, rules, context);
    assert rules[0..] == rules;
    for i := 0 to |rules|
      invariant goal == WithApplied(applied, Run(compile, text, rules[i..], context))
    {
      var rule := rules[i];
      assert rules[i..][0] == rule && rules[i..][1..] == rules[i + 1..];
      if !Applies(rule, context) {
        continue;
      }
      var compiled := compile(rule.findRegex, rule.macroMode, context.macros);
      if compiled.None? {
        return InvalidPattern;
      }
      LoopTerminates(compiled.value, text);
      var next := ReplaceMatches(compiled.value, text, rule, context.macros);
      ghost var rest := Run(compile, next, rules[i + 1..], context);
      if EncodedLength(next) > MAX_OUTPUT_BYTES {
        return OutputTooLarge(rule.id);
      }
      AppliedTwice(applied, if next != text then [rule.id] else [], rest);
      if next != text {
        applied := applied + [rule.id];
      } else {
        assert applied + [] == applied;
      }
      text := next;
    }
    return Transformed(text, applied);
  }

  function WithApplied(applied: seq<string>, r: Transformed): Transformed
  {
    if r.Transformed? then r.(applied := applied + r.applied) else r
  }

  lemma {:induction false} AppliedTwice(a: seq<string>, b: seq<string>, r: Transformed)
    ensures WithApplied(a, WithApplied(b, r)) == WithApplied(a + b, r)
  {
    if r.Transformed? { assert a + (b + r.applied) == a + b + r.applied; }
  }

  // ----- which rules act -----

  /** What keeps a rule from acting; both depth bounds are inclusive and only bind when a depth is given. */
  predicate Inert(rule: Rule, context: Context)
  {
    || rule.disabled || (context.isEdit && !rule.runOnEdit)
    || context.target !in rule.targets || context.surface !in rule.surfaces
    || (context.depth.Some? && rule.minDepth.Some? && context.depth.value < rule.minDepth.value)
    || (context.depth.Some? && rule.maxDepth.Some? && rule.maxDepth.value < context.depth.value)
  }

  /** The rules left when the inert ones are dropped. */
  function Acting(rules: seq<Rule>, context: Context): seq<Rule>
  {
    if rules == [] then []
    else (if Inert(rules[0], context) then [] else [rules[0]]) + Acting(rules[1..], context)
  }

  /** Each rule in turn, whatever its flags, bounds and places. */
  function RunEach(compile: Compiler, text: Utf16, rules: seq<Rule>, macros: Macros): Transformed
    decreases |rules|
  {
    if rules == [] then Transformed(text, [])
    else match ApplyRule(compile, text, rules[0], macros)
      case BadRegex => InvalidPattern
      case Endless => NoReturn
      case Output(next) =>
        if EncodedLength(next) > MAX_OUTPUT_BYTES then OutputTooLarge(rules[0].id)
        else WithApplied(if next != text then [rules[0].id] else [], RunEach(compile, next, rules[1..], macros))
  }

  /**
   The context does nothing but select rules: a list acts as its rules that
   are not inert, each of which is tried. In particular a list of inert rules
   leaves every text alone and cannot fail, and dropping inert rules anywhere
   changes neither the text, nor the applied rules, nor the error.
   */
  lemma {:induction false} ContextSelects(compile: Compiler, text: Utf16, rules: seq<Rule>, context: Context)
    ensures Run(compile, text, rules, context) == RunEach(compile, text, Acting(rules, context), context.macros)
    decreases |rules|
  {
    hide EncodedLength, ApplyRule;
    if rules != [] {
      var first, rest := rules[0], Acting(rules[1..], context);
      assert ([first] + rest)[1..] == rest && [] + rest == rest;
      ContextSelects(compile, text, rules[1..], context);
      var outcome := ApplyRule(compile, text, first, context.macros);
      if outcome.Output? {
        ContextSelects(compile, outcome.text, rules[1..], context);
      }
      assert Inert(first, context) <==> !Applies(first, context);
    }
  }

  lemma {:induction false} InertRulesDoNothing(compile: Compiler, input: Utf16, rules: seq<Rule>, context: Context)
    requires forall rule :: rule in rules ==> Inert(rule, context)
    ensures Apply(compile, input, rules, context)
         == if EncodedLength(input) > MAX_INPUT_BYTES then InputTooLarge else Transformed(input, [])
  {
    hide EncodedLength, Inert;
    NoneActs(rules, context);
    ContextSelects(compile, input, rules, context);
  }

  lemma {:induction false} NoneActs(rules: seq<Rule>, context: Context)
    requires forall rule :: rule in rules ==> Inert(rule, context)
    ensures Acting(rules, context) == []
  {
    if rules != [] {
      NoneActs(rules[1..], context);
    }
  }

  /** Only the acting rules of a list decide what it does. */
  lemma {:induction false} InertRulesMayBeDropped(
      compile: Compiler, input: Utf16, a: seq<Rule>, b: seq<Rule>, context: Context)
    requires Acting(a, context) == Acting(b, context)
    ensures Apply(compile, input, a, context) == Apply(compile, input, b, context)
  {
    ContextSelects(compile, input, a, context);
    ContextSelects(compile, input, b, context);
  }

  // ----- meaning across export and import -----

  /** Equal but for priority and position. */
  predicate SameButPlaces(a: seq<Rule>, b: seq<Rule>)
  {
    |a| == |b| && forall i :: 0 <= i < |a| ==> b[i] == a[i].(priority := b[i].priority, order := b[i].order)
  }

  lemma {:induction false} PlacesDoNotMatter(compile: Compiler, text: Utf16, a: seq<Rule>, b: seq<Rule>, context: Context)
    requires SameButPlaces(a, b)
    ensures Run(compile, text, a, context) == Run(compile, text, b, context)
    decreases |a|
  {
    if a != [] {
      hide EncodedLength, ApplyRule;
      SameOutcome(compile, text, a[0], b[0], context.macros);
      var outcome := ApplyRule(compile, text, a[0], context.macros);
      var next := if Applies(a[0], context) && outcome.Output? then outcome.text else text;
      PlacesDoNotMatter(compile, next, a[1..], b[1..], context);
    }
  }

  lemma {:induction false} SameOutcome(compile: Compiler, s: Utf16, a: Rule, b: Rule, macros: Macros)
    requires b == a.(priority := b.priority, order := b.order)
    ensures ApplyRule(compile, s, a, macros) == ApplyRule(compile, s, b, macros)
  {
    hide Replaced, Replaceable, LeftToRight;
    var compiled := compile(a.findRegex, a.macroMode, macros);
    if compiled.Some? && Replaceable(compiled.value, s).Some? {
      ReplaceableGoRight(compiled.value, s);
      SameReplacedOn(a, b, s, 0, Replaceable(compiled.value, s).value, macros);
    }
  }

  lemma {:induction false} SameReplacedOn(a: Rule, b: Rule, s: Utf16, cursor: nat, ms: seq<Match>, macros: Macros)
    requires b == a.(priority := b.priority, order := b.order)
    requires cursor <= |s| && LeftToRight(s, cursor, ms)
    ensures Replaced(a, s, cursor, ms, macros) == Replaced(b, s, cursor, ms, macros)
    decreases |ms|
  {
    hide Expand, Substitute, Encode;
    if ms != [] {
      SameReplacedOn(a, b, s, End(ms[0]), ms[1..], macros);
    }
  }

  /**
   Whatever specs the importer produces, exporting and importing them again
   changes neither the text nor the applied rules for any input and context,
   as long as no scope has more than 256 rules and nothing exceeds the JSON limits.
   */
  lemma {:induction false} TripKeepsMeaning(
      engine: Engine, before: JsonLimits, limits: JsonLimits, preamble: Preamble, documents: seq<JsValue>,
      compile: Compiler, input: Utf16, context: Context)
    requires ImportAll(engine, before, documents).Success?
    requires var rules := Rules(ImportAll(engine, before, documents).value);
             FitsScopes(rules) && FitsJson(limits, preamble, rules)
    ensures var rules := Rules(ImportAll(engine, before, documents).value);
            var again := Trip(engine, limits, preamble, rules);
            again.Success? && Apply(compile, input, Rules(again.value), context) == Apply(compile, input, rules, context)
  {
    hide ImportAll, FitsScopes, FitsJson, Trip, Run, EncodedLength, Rules;
    var rules := Rules(ImportAll(engine, before, documents).value);
    ProducedRoundTrip(engine, before, limits, preamble, documents);
    RenumberedIsSame(rules);
    PlacesDoNotMatter(compile, input, rules, Renumber(rules), context);
  }

  lemma {:induction false} RenumberedIsSame(rules: seq<Rule>)
    ensures SameButPlaces(rules, Renumber(rules))
  {
    hide OfScope, SourceScope;
  }
}