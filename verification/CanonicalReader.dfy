/**
 A reader that inverts the canonical printer, and what follows: the text of a
 value determines the value (`canonical.rs`).
 */
module CanonicalReader {
  import opened Wrappers
  import opened TextBasics
  import opened Json
  import opened NumberLexeme
  import opened CanonicalNumber
  import opened CanonicalJson

  // ----- reading -----

  function ReadHex(s: string): Option<char>
    requires |s| == 4
  {
    match (HexValue(s[0]), HexValue(s[1]), HexValue(s[2]), HexValue(s[3]))
    case (Some(a), Some(b), Some(c), Some(d)) =>
      var code := 4096 * a + 256 * b + 16 * c + d;
      if 0 <= code < 0xD800 || 0xE000 <= code < 0x10000 then Some(code as char) else None
    case _ => None
  }

  /** An escape, after the reverse solidus. */
  function ReadEscape(s: string): Option<(char, nat)>
    ensures ReadEscape(s).Some? ==> 0 < ReadEscape(s).value.1 <= |s|
  {
    if s == "" then None
    else if s[0] == '"' || s[0] == '\\' || s[0] == '/' then Some((s[0], 1))
    else if s[0] == 'b' then Some((8 as char, 1))
    else if s[0] == 't' then Some((9 as char, 1))
    else if s[0] == 'n' then Some((10 as char, 1))
    else if s[0] == 'f' then Some((12 as char, 1))
    else if s[0] == 'r' then Some((13 as char, 1))
    else if s[0] == 'u' && |s| >= 5 then
      match ReadHex(s[1..5])
      case Some(c) => Some((c, 5))
      case None => None
    else None
  }

  /** The characters of a string, after the opening quote, and what follows the closing one. */
  function ReadChars(s: string): (r: Option<(string, string)>)
    ensures r.Some? ==> |r.value.1| < |s|
    decreases |s|
  {
    if s == "" then None
    else if s[0] == '"' then Some(("", s[1..]))
    else if s[0] == '\\' then
      match ReadEscape(s[1..])
      case None => None
      case Some(e) =>
        match ReadChars(s[1..][e.1..])
        case None => None
        case Some(r) => Some(([e.0] + r.0, r.1))
    else
      match ReadChars(s[1..])
      case None => None
      case Some(r) => Some(([s[0]] + r.0, r.1))
  }

  predicate IsNumberChar(c: char)
  {
    IsDigit(c) || c == '-' || c == '+' || c == '.' || c == 'e' || c == 'E'
  }

  function NumberRun(s: string): (n: nat)
    ensures n <= |s|
  {
    if s == "" || !IsNumberChar(s[0]) then 0 else 1 + NumberRun(s[1..])
  }

  predicate StartsWith(s: string, word: string)
  {
    |s| >= |word| && s[..|word|] == word
  }

  /** One value at the front of a text, and the rest. */
  function ReadValue(s: string): (r: Option<(Value, string)>)
    ensures r.Some? ==> |r.value.1| < |s|
    decreases |s|, 0
  {
    if s == "" then None
    else if s[0] == 'n' then if StartsWith(s, "null") then Some((Null, s[4..])) else None
    else if s[0] == 't' then if StartsWith(s, "true") then Some((Bool(true), s[4..])) else None
    else if s[0] == 'f' then if StartsWith(s, "false") then Some((Bool(false), s[5..])) else None
    else if s[0] == '"' then
      match ReadChars(s[1..])
      case None => None
      case Some(r) => Some((String(r.0), r.1))
    else if s[0] == '[' then
      if |s| > 1 && s[1] == ']' then Some((Array([]), s[2..]))
      else match ReadItems(s[1..])
        case None => None
        case Some(r) => Some((Array(r.0), r.1))
    else if s[0] == '{' then
      if |s| > 1 && s[1] == '}' then Some((Object(map[]), s[2..]))
      else match ReadMembers(s[1..])
        case None => None
        case Some(r) => Some((Object(r.0), r.1))
    else
      var n := NumberRun(s);
      if n > 0 && MatchNumber(s[..n]).Some? then Some((Number(s[..n]), s[n..])) else None
  }

  /** Items up to the closing bracket. */
  function ReadItems(s: string): (r: Option<(seq<Value>, string)>)
    ensures r.Some? ==> |r.value.1| < |s|
    decreases |s|, 1
  {
    match ReadValue(s)
    case None => None
    case Some((v, rest)) =>
      if rest != "" && rest[0] == ']' then Some(([v], rest[1..]))
      else if rest != "" && rest[0] == ',' then
        match ReadItems(rest[1..])
        case None => None
        case Some(more) => Some(([v] + more.0, more.1))
      else None
  }

  /** Members up to the closing brace. */
  function ReadMembers(s: string): (r: Option<(map<string, Value>, string)>)
    ensures r.Some? ==> |r.value.1| < |s|
    decreases |s|, 1
  {
    if s == "" || s[0] != '"' then None
    else match ReadChars(s[1..])
      case None => None
      case Some((key, afterKey)) =>
        if afterKey == "" || afterKey[0] != ':' then None
        else match ReadValue(afterKey[1..])
          case None => None
          case Some((v, rest)) =>
            if rest != "" && rest[0] == '}' then Some((map[key := v], rest[1..]))
            else if rest != "" && rest[0] == ',' then
              match ReadMembers(rest[1..])
              case None => None
              case Some(more) => Some((map[key := v] + more.0, more.1))
            else None
  }

  // ----- reading strings back -----

  lemma {:induction false} ReadControl(c: char)
    requires c as int < 32
    ensures ReadHex("00" + [HexDigit(c as int / 16), HexDigit(c as int % 16)]) == Some(c)
  {
    HexBack(c as int / 16);
    HexBack(c as int % 16);
    HexBack(0);
    assert HexDigit(0) == '0';
  }

  lemma {:induction false} ReadLongEscape(hex: string, c: char, rest: string)
    requires |hex| == 4 && ReadHex(hex) == Some(c)
    ensures ReadEscape("u" + hex + rest) == Some((c, 5))
  {
    hide ReadHex;
    assert ("u" + hex + rest)[1..5] == hex;
  }

  lemma {:induction false} ReadShortEscape(e: string, rest: string)
    requires |e| == 1 && e[0] != 'u'
    ensures ReadEscape(e + rest) == ReadEscape(e)
  {
    assert (e + rest)[0] == e[0];
  }

  /** Every escape the printer writes is read as the character it stands for. */
  lemma {:induction false} ReadEscapedChar(c: char, rest: string)
    ensures EscapeChar(c) != ""
    ensures EscapeChar(c)[0] == '\\' ==>
              ReadEscape(EscapeChar(c)[1..] + rest) == Some((c, |EscapeChar(c)| - 1))
    ensures EscapeChar(c)[0] != '\\' ==> EscapeChar(c) == [c] && c != '"' && c != '\\'
  {
    var text := EscapeChar(c);
    if text[0] == '\\' {
      var e := text[1..];
      if |e| > 1 {
        ReadControl(c);
        var hex := "00" + [HexDigit(c as int / 16), HexDigit(c as int % 16)];
        assert e == "u" + hex;
        ReadLongEscape(hex, c, rest);
      } else {
        ReadShortEscape(e, rest);
      }
    }
  }

  lemma {:induction false} ReadOneChar(c: char, tail: string, s: string, rest: string)
    requires ReadChars(tail) == Some((s, rest))
    ensures ReadChars(EscapeChar(c) + tail) == Some(([c] + s, rest))
  {
    var e := EscapeChar(c);
    ReadEscapedChar(c, tail);
    hide EscapeChar, ReadEscape;
    assert (e + tail)[0] == e[0] && (e + tail)[1..] == e[1..] + tail;
    if e[0] == '\\' {
      Cut(e[1..], tail);
    } else {
      assert e[1..] + tail == tail;
    }
  }

  lemma {:induction false} EscapeStep(s: string, tail: string)
    requires s != ""
    ensures EscapeAll(s) + tail == EscapeChar(s[0]) + (EscapeAll(s[1..]) + tail)
  {
    hide EscapeChar;
  }

  lemma {:induction false} ReadEscapedString(s: string, rest: string)
    ensures ReadChars(EscapeAll(s) + ("\"" + rest)) == Some((s, rest))
  {
    if s == "" {
      assert "" + ("\"" + rest) == "\"" + rest;
    } else {
      var tail := EscapeAll(s[1..]) + ("\"" + rest);
      ReadEscapedString(s[1..], rest);
      hide ReadChars, EscapeChar;
      ReadOneChar(s[0], tail, s[1..], rest);
      EscapeStep(s, "\"" + rest);
      assert s == [s[0]] + s[1..];
    }
  }

  lemma {:induction false} ReadQuoted(s: string, rest: string)
    ensures Quote(s) + rest != "" && (Quote(s) + rest)[0] == '"'
    ensures ReadChars((Quote(s) + rest)[1..]) == Some((s, rest))
  {
    hide ReadChars, EscapeAll;
    ReadEscapedString(s, rest);
    QuoteOpens(EscapeAll(s), rest);
  }

  lemma {:induction false} QuoteOpens(inside: string, rest: string)
    ensures ("\"" + (inside + "\"") + rest)[1..] == inside + ("\"" + rest)
  {
  }

  // ----- reading values back -----

  /** What a number token may not be followed by. */
  predicate Ends(rest: string)
  {
    rest == "" || !IsNumberChar(rest[0])
  }

  predicate IsToken(lexeme: string)
  {
    && MatchNumber(lexeme).Some?
    && lexeme != "" && (forall i :: 0 <= i < |lexeme| ==> IsNumberChar(lexeme[i]))
    && (IsDigit(lexeme[0]) || lexeme[0] == '-')
  }

  /** Values whose numbers are tokens. */
  predicate Readable(v: Value)
  {
    match v
    case Number(lexeme) => IsToken(lexeme)
    case Array(items) => forall i :: 0 <= i < |items| ==> Readable(items[i])
    case Object(fields) => forall k :: k in fields ==> Readable(fields[k])
    case _ => true
  }

  lemma {:induction false} RunOfToken(lexeme: string, rest: string)
    requires (forall i :: 0 <= i < |lexeme| ==> IsNumberChar(lexeme[i])) && Ends(rest)
    ensures NumberRun(lexeme + rest) == |lexeme|
  {
    if lexeme == "" {
      assert lexeme + rest == rest;
    } else {
      assert (lexeme + rest)[1..] == lexeme[1..] + rest;
      RunOfToken(lexeme[1..], rest);
    }
  }

  lemma {:induction false} ReadToken(lexeme: string, rest: string)
    requires IsToken(lexeme) && Ends(rest)
    ensures ReadValue(lexeme + rest) == Some((Number(lexeme), rest))
  {
    RunOfToken(lexeme, rest);
    Cut(lexeme, rest);
    hide NumberRun, ReadItems, ReadMembers, ReadChars, MatchNumber;
    assert (lexeme + rest)[0] == lexeme[0];
  }

  lemma {:induction false} ReadWord(word: string, v: Value, rest: string)
    requires (word == "null" && v == Null) || (word == "true" && v == Bool(true)) || (word == "false" && v == Bool(false))
    ensures ReadValue(word + rest) == Some((v, rest))
  {
    hide NumberRun, ReadItems, ReadMembers, ReadChars, MatchNumber;
    Cut(word, rest);
    assert (word + rest)[0] == word[0];
  }

  function TextsFrom(items: seq<Value>): (r: seq<string>)
    ensures |r| == |items|
  {
    seq(|items|, i requires 0 <= i < |items| => Text(items[i]))
  }

  lemma {:induction false} JoinedStep(texts: seq<string>, close: string)
    requires |texts| > 1
    ensures Joined(texts) + close == texts[0] + ("," + (Joined(texts[1..]) + close))
  {
  }

  lemma {:induction false} TextStart(v: Value)
    requires Readable(v)
    ensures Text(v) != "" && Text(v)[0] != ']' && Text(v)[0] != '}'
  {
    hide Joined, EscapeAll, SortedKeys, MatchNumber;
  }

  /** A closing mark or a comma ends a number. */
  lemma {:induction false} MarksEnd(rest: string)
    ensures Ends("]" + rest) && Ends("}" + rest) && Ends("," + rest)
  {
  }

  /** Reading a printed value gives it back. */
  lemma {:induction false} ReadText(v: Value, rest: string)
    requires Readable(v) && Ends(rest)
    ensures ReadValue(Text(v) + rest) == Some((v, rest))
    decreases v, 1, 0
  {
    match v {
      case Null => ReadWord("null", v, rest);
      case Bool(b) => ReadWord(if b then "true" else "false", v, rest);
      case Number(lexeme) => ReadToken(lexeme, rest);
      case String(text) =>
        hide Quote;
        ReadQuoted(text, rest);
      case Array(items) =>
        if items == [] {
          EmptyArray(rest);
        } else {
          ReadItemsBack(v, 0, rest);
          NonemptyArray(items, rest);
        }
      case Object(fields) =>
        if fields == map[] {
          EmptyObject(rest);
        } else {
          var keys := SortedKeys(fields.Keys);
          assert keys != [] by { var k :| k in fields; assert k in keys; }
          ReadMembersBack(v, keys, rest);
          NonemptyObject(fields, keys, rest);
        }
    }
  }

  lemma {:induction false} EmptyArray(rest: string)
    ensures ReadValue(Text(Array([])) + rest) == Some((Array([]), rest))
  {
    assert Text(Array([])) + rest == "[]" + rest;
    Cut("[]", rest);
  }

  lemma {:induction false} EmptyObject(rest: string)
    ensures ReadValue(Text(Object(map[])) + rest) == Some((Object(map[]), rest))
  {
    var none: map<string, Value> := map[];
    assert none.Keys == {};
    assert SortedKeys(none.Keys) == [];
    assert Text(Object(none)) + rest == "{}" + rest;
    Cut("{}", rest);
  }

  lemma {:induction false} NonemptyArray(items: seq<Value>, rest: string)
    requires items != [] && (forall i :: 0 <= i < |items| ==> Readable(items[i]))
    requires ReadItems(Joined(TextsFrom(items)) + ("]" + rest)) == Some((items, rest))
    ensures ReadValue(Text(Array(items)) + rest) == Some((Array(items), rest))
  {
    hide ReadItems, ReadValue, Joined;
    TextStart(items[0]);
    JoinedStart(TextsFrom(items), "]" + rest);
    ArrayOpening(items, rest);
    hide Text;
    OpenArray(Joined(TextsFrom(items)) + ("]" + rest), items, rest);
  }

  lemma {:induction false} ArrayOpening(items: seq<Value>, rest: string)
    ensures Text(Array(items)) + rest == "[" + (Joined(TextsFrom(items)) + ("]" + rest))
  {
    hide Joined;
    assert TextsFrom(items) == seq(|items|, i requires 0 <= i < |items| => Text(items[i]));
  }

  lemma {:induction false} OpenArray(inside: string, items: seq<Value>, rest: string)
    requires inside != "" && inside[0] != ']' && ReadItems(inside) == Some((items, rest))
    ensures ReadValue("[" + inside) == Some((Array(items), rest))
  {
    hide ReadItems, ReadMembers, ReadChars, NumberRun, MatchNumber;
    Cut("[", inside);
  }

  lemma {:induction false} OpenObject(inside: string, fields: map<string, Value>, rest: string)
    requires inside != "" && inside[0] == '"' && ReadMembers(inside) == Some((fields, rest))
    ensures ReadValue("{" + inside) == Some((Object(fields), rest))
  {
    hide ReadItems, ReadMembers, ReadChars, NumberRun, MatchNumber;
    Cut("{", inside);
  }

  lemma {:induction false} JoinedStart(texts: seq<string>, close: string)
    requires texts != [] && texts[0] != ""
    ensures Joined(texts) + close != "" && (Joined(texts) + close)[0] == texts[0][0]
  {
  }

  lemma {:induction false} ReadItemsBack(v: Value, n: nat, rest: string)
    requires v.Array? && n < |v.items| && Readable(v)
    ensures ReadItems(Joined(TextsFrom(v.items[n..])) + ("]" + rest)) == Some((v.items[n..], rest))
    decreases v, 0, |v.items| - n
  {
    hide ReadItems, ReadValue, Text, Joined, Ends;
    var item, tail, close := v.items[n], v.items[n + 1..], "]" + rest;
    assert v.items[n..] == [item] + tail;
    MarksEnd(rest);
    ItemIsReadable(v, n);
    if tail == [] {
      assert v.items[n..] == [item];
      ReadText(item, close);
      OneText(item, close);
      LastItem(item, rest);
    } else {
      var more := Joined(TextsFrom(tail)) + close;
      MarksEnd(more);
      ReadText(item, "," + more);
      ReadItemsBack(v, n + 1, rest);
      FirstText(item, tail, close);
      NextItem(item, more, tail, rest);
    }
  }

  lemma {:induction false} ItemIsReadable(v: Value, n: nat)
    requires v.Array? && n < |v.items| && Readable(v)
    ensures Readable(v.items[n])
  {
  }

  lemma {:induction false} OneText(item: Value, close: string)
    ensures Joined(TextsFrom([item])) + close == Text(item) + close
  {
    hide Text;
  }

  lemma {:induction false} FirstText(item: Value, tail: seq<Value>, close: string)
    requires tail != []
    ensures Joined(TextsFrom([item] + tail)) + close == Text(item) + ("," + (Joined(TextsFrom(tail)) + close))
  {
    hide Text, Joined;
    assert TextsFrom([item] + tail)[1..] == TextsFrom(tail);
    JoinedStep(TextsFrom([item] + tail), close);
  }

  lemma {:induction false} LastItem(item: Value, rest: string)
    requires ReadValue(Text(item) + ("]" + rest)) == Some((item, "]" + rest))
    ensures ReadItems(Text(item) + ("]" + rest)) == Some(([item], rest))
  {
    hide ReadValue, Text;
    Cut("]", rest);
  }

  lemma {:induction false} NextItem(item: Value, more: string, tail: seq<Value>, rest: string)
    requires ReadValue(Text(item) + ("," + more)) == Some((item, "," + more))
    requires ReadItems(more) == Some((tail, rest))
    ensures ReadItems(Text(item) + ("," + more)) == Some(([item] + tail, rest))
  {
    hide ReadValue, Text;
    Cut(",", more);
  }

  /** The members of some keys. */
  function Restricted(fields: map<string, Value>, keys: seq<string>): map<string, Value>
  {
    map k | k in keys && k in fields :: fields[k]
  }

  function KeyTexts(fields: map<string, Value>, keys: seq<string>): (r: seq<string>)
    requires forall k :: k in keys ==> k in fields
    ensures |r| == |keys|
  {
    seq(|keys|, i requires 0 <= i < |keys| => assert keys[i] in keys; MemberText(keys[i], fields[keys[i]]))
  }

  lemma {:induction false} NonemptyObject(fields: map<string, Value>, keys: seq<string>, rest: string)
    requires keys == SortedKeys(fields.Keys) && keys != []
    requires ReadMembers(Joined(KeyTexts(fields, keys)) + ("}" + rest)) == Some((Restricted(fields, keys), rest))
    ensures ReadValue(Text(Object(fields)) + rest) == Some((Object(fields), rest))
  {
    hide ReadMembers, ReadValue, Joined;
    var texts := KeyTexts(fields, keys);
    ObjectOpening(fields, keys, rest);
    assert keys[0] in keys;
    QuoteStart(keys[0], Text(fields[keys[0]]));
    JoinedStart(texts, "}" + rest);
    assert Restricted(fields, keys) == fields;
    hide Text, SortedKeys;
    OpenObject(Joined(texts) + ("}" + rest), fields, rest);
  }

  lemma {:induction false} QuoteStart(key: string, text: string)
    ensures var s := Quote(key) + (":" + text); s != "" && s[0] == '"'
  {
    hide EscapeAll;
  }

  lemma {:induction false} ObjectOpening(fields: map<string, Value>, keys: seq<string>, rest: string)
    requires keys == SortedKeys(fields.Keys)
    ensures Text(Object(fields)) + rest == "{" + (Joined(KeyTexts(fields, keys)) + ("}" + rest))
  {
    hide Joined, SortedKeys, Quote;
    assert KeyTexts(fields, keys) == seq(|keys|, i requires 0 <= i < |keys| =>
                                           assert keys[i] in keys; Quote(keys[i]) + (":" + Text(fields[keys[i]])));
  }

  /** One member and what follows it. */
  lemma {:induction false} ReadMember(key: string, v: Value, rest: string)
    requires ReadValue(Text(v) + rest) == Some((v, rest))
    ensures var s := MemberText(key, v) + rest;
            s != "" && s[0] == '"'
            && ReadChars(s[1..]) == Some((key, ":" + (Text(v) + rest)))
  {
    hide ReadValue, Text, Quote;
    assert MemberText(key, v) + rest == Quote(key) + (":" + (Text(v) + rest));
    ReadQuoted(key, ":" + (Text(v) + rest));
  }

  lemma {:induction false} RestrictedStep(fields: map<string, Value>, keys: seq<string>)
    requires keys != [] && keys[0] in fields
    ensures Restricted(fields, keys) == map[keys[0] := fields[keys[0]]] + Restricted(fields, keys[1..])
  {
    assert keys == [keys[0]] + keys[1..];
  }

  lemma {:induction false} LastMember(key: string, v: Value, rest: string)
    requires ReadValue(Text(v) + ("}" + rest)) == Some((v, "}" + rest))
    ensures ReadMembers(MemberText(key, v) + ("}" + rest)) == Some((map[key := v], rest))
  {
    hide ReadValue, Text, ReadChars, MemberText;
    ReadMember(key, v, "}" + rest);
    Cut(":", Text(v) + ("}" + rest));
    Cut("}", rest);
  }

  lemma {:induction false} NextMember(key: string, v: Value, more: string, fields: map<string, Value>, rest: string)
    requires ReadValue(Text(v) + ("," + more)) == Some((v, "," + more))
    requires ReadMembers(more) == Some((fields, rest))
    ensures ReadMembers(MemberText(key, v) + ("," + more)) == Some((map[key := v] + fields, rest))
  {
    hide ReadValue, Text, ReadChars, MemberText;
    ReadMember(key, v, "," + more);
    Cut(":", Text(v) + ("," + more));
    Cut(",", more);
  }

  lemma {:induction false} ReadMembersBack(v: Value, keys: seq<string>, rest: string)
    requires v.Object? && Readable(v) && keys != [] && (forall k :: k in keys ==> k in v.fields)
    ensures ReadMembers(Joined(KeyTexts(v.fields, keys)) + ("}" + rest)) == Some((Restricted(v.fields, keys), rest))
    decreases v, 0, |keys|
  {
    hide ReadMembers, ReadValue, Text, MemberText;
    var texts := KeyTexts(v.fields, keys);
    var close := "}" + rest;
    assert keys[0] in keys;
    var member := v.fields[keys[0]];
    MarksEnd(rest);
    RestrictedStep(v.fields, keys);
    if |keys| == 1 {
      ReadText(member, close);
      LastMember(keys[0], member, rest);
      assert Joined(texts) == MemberText(keys[0], member);
      assert Restricted(v.fields, keys) == map[keys[0] := member];
    } else {
      forall k | k in keys[1..] ensures k in v.fields { assert k in keys; }
      var more := Joined(KeyTexts(v.fields, keys[1..])) + close;
      assert texts[1..] == KeyTexts(v.fields, keys[1..]);
      JoinedStep(texts, close);
      hide Joined;
      MarksEnd(more);
      ReadText(member, "," + more);
      ReadMembersBack(v, keys[1..], rest);
      NextMember(keys[0], member, more, Restricted(v.fields, keys[1..]), rest);
    }
  }

  // ----- the main results -----

  /** All number lexemes are numbers of RFC 8259, as `serde_json` guarantees. */
  predicate ValidLexemes(v: Value)
  {
    match v
    case Number(lexeme) => MatchNumber(lexeme).Some?
    case Array(items) => forall i :: 0 <= i < |items| ==> ValidLexemes(items[i])
    case Object(fields) => forall k :: k in fields ==> ValidLexemes(fields[k])
    case _ => true
  }

  lemma {:induction false} NumbersAreTokens(lexeme: string)
    requires MatchNumber(lexeme).Some?
    ensures IsToken(lexeme)
  {
    hide MatchNumber, AllDigits, NatOf, IsExponentPart, Spells;
    var l := MatchNumber(lexeme).value;
    MatchNumberSound(lexeme);
    var rest := NumberText(lexeme, l);
    DigitsAreNumberChars(l.whole);
    DigitsAreNumberChars(l.fraction);
    DigitsAreNumberChars(l.expDigits);
    ExponentChars(rest, l);
    var body := l.whole + Fraction(l.fraction) + rest;
    assert AllNumberChars(Fraction(l.fraction));
    assert AllNumberChars(body);
    WholeStart(l.whole);
    hide AllNumberChars;
    SignedToken(l.negative, body);
  }

  predicate AllNumberChars(s: string)
  {
    forall c :: c in s ==> IsNumberChar(c)
  }

  lemma {:induction false} WholeStart(s: string)
    requires IsWhole(s)
    ensures s != "" && IsDigit(s[0])
  {
  }

  lemma {:induction false} SignedToken(negative: bool, body: string)
    requires body != "" && IsDigit(body[0]) && AllNumberChars(body)
    ensures var s := Sign(negative) + body;
            s != "" && (IsDigit(s[0]) || s[0] == '-') && forall i :: 0 <= i < |s| ==> IsNumberChar(s[i])
  {
  }

  lemma {:induction false} DigitsAreNumberChars(s: string)
    requires AllDigits(s)
    ensures AllNumberChars(s)
  {
  }

  lemma {:induction false} ExponentChars(rest: string, l: Lexeme)
    requires IsExponentPart(rest, l.expNegative, l.expDigits) && AllNumberChars(l.expDigits)
    ensures AllNumberChars(rest)
  {
    if rest != "" {
      assert rest == [rest[0]] + rest[1..];
    }
  }

  lemma {:induction false} NormalIsReadable(v: Value)
    requires ValidLexemes(v) && Normalizable(v)
    ensures Readable(Normal(v))
    decreases v
  {
    match v {
      case Number(lexeme) =>
        NormalizeKeepsValue(lexeme);
        NumbersAreTokens(Normalize(lexeme).value);
      case Array(items) =>
        forall i | 0 <= i < |items| ensures Readable(Normal(items[i])) { NormalIsReadable(items[i]); }
      case Object(fields) =>
        forall k | k in fields ensures Readable(Normal(fields[k])) { NormalIsReadable(fields[k]); }
      case _ =>
    }
  }

  /** Equality of JSON values: numbers by value, arrays item by item, objects as maps. */
  predicate JsonEqual(a: Value, b: Value)
    requires ValidLexemes(a) && ValidLexemes(b)
  {
    match (a, b)
    case (Number(x), Number(y)) =>
      MatchedIsNumber(x);
      MatchedIsNumber(y);
      ValueOf(MatchNumber(x).value) == ValueOf(MatchNumber(y).value)
    case (Array(xs), Array(ys)) => |xs| == |ys| && forall i :: 0 <= i < |xs| ==> JsonEqual(xs[i], ys[i])
    case (Object(xs), Object(ys)) => xs.Keys == ys.Keys && forall k :: k in xs && k in ys ==> JsonEqual(xs[k], ys[k])
    case _ => a == b
  }

  lemma {:induction false} NormalDecidesEquality(a: Value, b: Value)
    requires ValidLexemes(a) && ValidLexemes(b) && Normalizable(a) && Normalizable(b)
    ensures Normal(a) == Normal(b) <==> JsonEqual(a, b)
    decreases a
  {
    hide MatchNumber, Normalize, ValueOf;
    match (a, b) {
      case (Number(x), Number(y)) => NormalizeIsCanonical(x, y);
      case (Array(xs), Array(ys)) =>
        if |xs| == |ys| {
          forall i | 0 <= i < |xs| ensures Normal(xs[i]) == Normal(ys[i]) <==> JsonEqual(xs[i], ys[i]) {
            NormalDecidesEquality(xs[i], ys[i]);
          }
        }
        ItemsDecide(xs, ys);
      case (Object(xs), Object(ys)) =>
        FieldsDecide(xs, ys);
        if xs.Keys == ys.Keys {
          forall k | k in xs ensures Normal(xs[k]) == Normal(ys[k]) <==> JsonEqual(xs[k], ys[k]) {
            NormalDecidesEquality(xs[k], ys[k]);
          }
        }
      case _ =>
        NormalKind(a);
        NormalKind(b);
    }
  }

  lemma {:induction false} FieldsDecide(xs: map<string, Value>, ys: map<string, Value>)
    requires Normalizable(Object(xs)) && Normalizable(Object(ys))
    ensures Normal(Object(xs)) == Normal(Object(ys))
       <==> xs.Keys == ys.Keys && forall k :: k in xs && k in ys ==> Normal(xs[k]) == Normal(ys[k])
  {
    var a, b := Normal(Object(xs)).fields, Normal(Object(ys)).fields;
    assert a.Keys == xs.Keys && b.Keys == ys.Keys;
    assert forall k :: k in xs && k in ys ==> a[k] == Normal(xs[k]) && b[k] == Normal(ys[k]);
  }

  lemma {:induction false} NormalKind(v: Value)
    requires Normalizable(v)
    ensures var n := Normal(v);
            (n.Number? <==> v.Number?) && (n.Array? <==> v.Array?) && (n.Object? <==> v.Object?)
            && (v.Number? || v.Array? || v.Object? || n == v)
  {
  }

  lemma {:induction false} ItemsDecide(xs: seq<Value>, ys: seq<Value>)
    requires Normalizable(Array(xs)) && Normalizable(Array(ys))
    ensures Normal(Array(xs)) == Normal(Array(ys))
       <==> |xs| == |ys| && forall i :: 0 <= i < |xs| ==> Normal(xs[i]) == Normal(ys[i])
  {
    var a, b := Normal(Array(xs)).items, Normal(Array(ys)).items;
    assert forall i :: 0 <= i < |xs| ==> a[i] == Normal(xs[i]);
    assert forall i :: 0 <= i < |ys| ==> b[i] == Normal(ys[i]);
  }

  /**
   Canonical printing is uniquely decodable: two values are printed to the
   same text exactly when they are equal as JSON. Nothing else, such as the
   order of members or the spelling of numbers, shows in the text.
   */
  lemma {:induction false} TextDeterminesValue(a: Value, b: Value)
    requires ValidLexemes(a) && ValidLexemes(b) && Normalizable(a) && Normalizable(b)
    ensures Text(Normal(a)) == Text(Normal(b)) <==> JsonEqual(a, b)
  {
    NormalIsReadable(a);
    NormalIsReadable(b);
    NormalDecidesEquality(a, b);
    hide ReadValue, Text, Normal, JsonEqual;
    ReadText(Normal(a), "");
    ReadText(Normal(b), "");
    assert Text(Normal(a)) + "" == Text(Normal(a)) && Text(Normal(b)) + "" == Text(Normal(b));
  }

  /** No printed value is a proper prefix of another followed by text that cannot continue it. */
  lemma {:induction false} TextIsSelfDelimiting(a: Value, b: Value, rest: string)
    requires ValidLexemes(a) && ValidLexemes(b) && Normalizable(a) && Normalizable(b) && Ends(rest)
    requires Text(Normal(a)) + rest == Text(Normal(b))
    ensures rest == "" && JsonEqual(a, b)
  {
    NormalIsReadable(a);
    NormalIsReadable(b);
    NormalDecidesEquality(a, b);
    hide ReadValue, Text, Normal, JsonEqual;
    ReadText(Normal(a), rest);
    ReadText(Normal(b), "");
    assert Text(Normal(b)) + "" == Text(Normal(b));
  }
}
