/**
 The duplicate-key scanner `json-duplicate-keys.ts`.

 It reads a text once, without parsing it. The reference is the grammar of
 sections 2 to 7 of RFC 8259, as syntax trees and their renderings.
 */
module DuplicateKeys {
  import opened Wrappers
  import opened TextBasics
  import NumberLexeme
  import CanonicalJson
  import CanonicalReader
  import UnicodeText

  /** A decoded name: its UTF-16 units, as `JSON.parse` yields them. */
  type Name = seq<int>

  // ----- decoding -----

  function SimpleEscape(c: char): Option<int>
  {
    if c == '"' || c == '\\' || c == '/' then Some(c as int)
    else if c == 'b' then Some(8)
    else if c == 't' then Some(9)
    else if c == 'n' then Some(10)
    else if c == 'f' then Some(12)
    else if c == 'r' then Some(13)
    else None
  }

  /** The name between the quotes of a string literal (section 7 of RFC 8259); `None` if it is malformed. */
  function Decode(body: string): Option<Name>
    decreases |body|
  {
    if body == "" then Some([])
    else if body[0] == '"' || body[0] as int < 0x20 then None
    else if body[0] != '\\' then
      match Decode(body[1..])
      case None => None
      case Some(rest) => Some(UnicodeText.Units(body[0]) + rest)
    else if |body| < 2 then None
    else if body[1] == 'u' then
      if |body| < 6 then None
      else match (HexValue(body[2]), HexValue(body[3]), HexValue(body[4]), HexValue(body[5]))
        case (Some(a), Some(b), Some(c), Some(d)) =>
          (match Decode(body[6..])
           case None => None
           case Some(rest) => Some([4096 * a + 256 * b + 16 * c + d] + rest))
        case _ => None
    else match (SimpleEscape(body[1]), Decode(body[2..]))
      case (Some(unit), Some(rest)) => Some([unit] + rest)
      case _ => None
  }

  // ----- spelling -----

  /** One unit of a string literal: a character as it is, a short escape, or four hexadecimal digits of either case. */
  datatype Piece = Plain(c: char) | Short(index: nat) | Long(unit: UnicodeText.Unit, capitals: seq<bool>)

  const LETTERS: seq<char> := ['"', '\\', '/', 'b', 'f', 'n', 'r', 't']
  const MEANT: seq<int> := [0x22, 0x5C, 0x2F, 0x08, 0x0C, 0x0A, 0x0D, 0x09]

  function HexChar(n: nat, capital: bool): char
    requires n < 16
  {
    if capital then "0123456789ABCDEF"[n] else HexDigit(n)
  }

  predicate Spellable(p: Piece)
  {
    match p
    case Plain(c) => c != '"' && c != '\\' && c as int >= 0x20
    case Short(index) => index < |LETTERS|
    case Long(_, capitals) => |capitals| == 4
  }

  function Spell(p: Piece): string
    requires Spellable(p)
  {
    match p
    case Plain(c) => [c]
    case Short(index) => ['\\', LETTERS[index]]
    case Long(n, capitals) =>
      ['\\', 'u', HexChar(n / 4096, capitals[0]), HexChar(n / 256 % 16, capitals[1]),
       HexChar(n / 16 % 16, capitals[2]), HexChar(n % 16, capitals[3])]
  }

  function Meant(p: Piece): Name
    requires Spellable(p)
  {
    match p
    case Plain(c) => UnicodeText.Units(c)
    case Short(index) => [MEANT[index]]
    case Long(n, _) => [n]
  }

  predicate AllSpellable(pieces: seq<Piece>)
  {
    forall p :: p in pieces ==> Spellable(p)
  }

  function SpellAll(pieces: seq<Piece>): string
    requires AllSpellable(pieces)
  {
    if pieces == [] then "" else Spell(pieces[0]) + SpellAll(pieces[1..])
  }

  function MeantByAll(pieces: seq<Piece>): Name
    requires AllSpellable(pieces)
  {
    if pieces == [] then [] else Meant(pieces[0]) + MeantByAll(pieces[1..])
  }

  lemma {:induction false} HexCharBack(n: nat, capital: bool)
    requires n < 16
    ensures HexValue(HexChar(n, capital)) == Some(n)
  {
    HexBack(n);
  }

  lemma {:induction false} HexCharOf(c: char)
    requires HexValue(c).Some?
    ensures HexValue(c).value < 16 && c == HexChar(HexValue(c).value, Capital(c))
  {
  }

  /** The first piece of a text. */
  lemma {:induction false} DecodePiece(p: Piece, rest: string)
    requires Spellable(p)
    ensures Decode(Spell(p) + rest)
         == if Decode(rest).Some? then Some(Meant(p) + Decode(rest).value) else None
  {
    var text := Spell(p) + rest;
    assert text[|Spell(p)|..] == rest;
    match p {
      case Plain(c) =>
        assert text[0] == c;
      case Short(index) =>
        assert text[0] == '\\' && text[1] == LETTERS[index];
        ShortMeans(index);
      case Long(n, capitals) =>
        DecodeLong(n, capitals, rest);
    }
  }

  lemma {:induction false} ShortMeans(index: nat)
    requires index < |LETTERS|
    ensures SimpleEscape(LETTERS[index]) == Some(MEANT[index]) && LETTERS[index] != 'u'
  {
  }

  lemma DividedTwice(n: nat)
    ensures n / 256 == n / 16 / 16 && n / 4096 == n / 256 / 16
  {
  }

  lemma {:induction false} FourDigits(n: UnicodeText.Unit)
    ensures n / 4096 < 16 && 4096 * (n / 4096) + 256 * (n / 256 % 16) + 16 * (n / 16 % 16) + n % 16 == n
  {
    DividedTwice(n);
    var q, r: nat := n / 16, n / 256;
    assert n == 16 * q + n % 16;
    assert q == 16 * r + q % 16;
    assert r == 16 * (r / 16) + r % 16;
  }

  lemma {:induction false} DecodeLong(n: UnicodeText.Unit, capitals: seq<bool>, rest: string)
    requires |capitals| == 4
    ensures Decode(Spell(Long(n, capitals)) + rest)
         == if Decode(rest).Some? then Some([n as int] + Decode(rest).value) else None
  {
    hide HexChar, HexValue;
    var spelled := Spell(Long(n, capitals));
    var text := spelled + rest;
    assert text[0] == '\\' && text[1] == 'u' && text[6..] == rest;
    assert forall i :: 2 <= i < 6 ==> text[i] == spelled[i];
    HexCharBack(n / 4096, capitals[0]);
    HexCharBack(n / 256 % 16, capitals[1]);
    HexCharBack(n / 16 % 16, capitals[2]);
    HexCharBack(n % 16, capitals[3]);
    FourDigits(n);
  }

  lemma {:induction false} DecodeSpelled(pieces: seq<Piece>)
    requires AllSpellable(pieces)
    ensures Decode(SpellAll(pieces)) == Some(MeantByAll(pieces))
  {
    hide Decode, Spell, Meant, Spellable;
    if pieces != [] {
      DecodeSpelled(pieces[1..]);
      DecodePiece(pieces[0], SpellAll(pieces[1..]));
    } else {
      DecodeNothing();
    }
  }

  lemma DecodeNothing()
    ensures Decode("") == Some([])
  {
  }

  /** The first piece of a text that is decoded. */
  lemma {:induction false} FirstPiece(body: string) returns (p: Piece)
    requires Decode(body).Some? && body != ""
    ensures Spellable(p) && Spell(p) <= body && Decode(body[|Spell(p)|..]).Some?
  {
    if body[0] != '\\' {
      p := Plain(body[0]);
    } else if body[1] == 'u' {
      p := FirstLong(body);
    } else {
      p := FirstShort(body);
    }
  }

  lemma {:induction false} FirstShort(body: string) returns (p: Piece)
    requires Decode(body).Some? && |body| > 1 && body[0] == '\\' && body[1] != 'u'
    ensures p.Short? && Spellable(p) && Spell(p) <= body && Decode(body[2..]).Some?
  {
    assert SimpleEscape(body[1]).Some?;
    var index: nat :| index < |LETTERS| && LETTERS[index] == body[1] by { LetterOf(body[1]); }
    p := Short(index);
  }

  lemma {:induction false} LetterOf(c: char)
    requires SimpleEscape(c).Some?
    ensures exists index: nat :: index < |LETTERS| && LETTERS[index] == c
  {
    assert LETTERS[0] == '"' && LETTERS[1] == '\\' && LETTERS[2] == '/' && LETTERS[3] == 'b';
    assert LETTERS[4] == 'f' && LETTERS[5] == 'n' && LETTERS[6] == 'r' && LETTERS[7] == 't';
  }

  lemma {:induction false} FirstLong(body: string) returns (p: Piece)
    requires Decode(body).Some? && |body| > 1 && body[0] == '\\' && body[1] == 'u'
    ensures p.Long? && Spellable(p) && Spell(p) <= body && Decode(body[6..]).Some?
  {
    hide HexChar, HexValue;
    var a, b, c, d := HexValue(body[2]), HexValue(body[3]), HexValue(body[4]), HexValue(body[5]);
    HexCharOf(body[2]);
    HexCharOf(body[3]);
    HexCharOf(body[4]);
    HexCharOf(body[5]);
    var n := 4096 * a.value + 256 * b.value + 16 * c.value + d.value;
    DigitsOf(a.value, b.value, c.value, d.value);
    p := Long(n, [Capital(body[2]), Capital(body[3]), Capital(body[4]), Capital(body[5])]);
    assert Spell(p) == body[..6];
  }

  predicate Capital(c: char)
  {
    'A' <= c <= 'F'
  }

  lemma {:induction false} LastDigit(rest: nat, digit: nat)
    requires digit < 16
    ensures (16 * rest + digit) / 16 == rest && (16 * rest + digit) % 16 == digit
  {
  }

  lemma {:induction false} DigitsOf(a: nat, b: nat, c: nat, d: nat)
    requires a < 16 && b < 16 && c < 16 && d < 16
    ensures var n := 4096 * a + 256 * b + 16 * c + d;
            n < 0x10000 && n / 4096 == a && n / 256 % 16 == b && n / 16 % 16 == c && n % 16 == d
  {
    var n := 4096 * a + 256 * b + 16 * c + d;
    assert n == 16 * (16 * (16 * a + b) + c) + d;
    LastDigit(16 * (16 * a + b) + c, d);
    LastDigit(16 * a + b, c);
    LastDigit(a, b);
    DividedTwice(n);
  }

  lemma {:induction false} SpellingOf(body: string) returns (pieces: seq<Piece>)
    requires Decode(body).Some?
    ensures AllSpellable(pieces) && SpellAll(pieces) == body
    decreases |body|
  {
    hide Decode, Spell, Spellable;
    if body == "" {
      pieces := [];
    } else {
      var p := FirstPiece(body);
      SpellIsText(p);
      var rest := SpellingOf(body[|Spell(p)|..]);
      pieces := [p] + rest;
      assert pieces[1..] == rest;
    }
  }

  lemma SpellIsText(p: Piece)
    requires Spellable(p)
    ensures Spell(p) != ""
  {
  }

  ghost predicate Spells(body: string, name: Name)
  {
    exists pieces :: AllSpellable(pieces) && SpellAll(pieces) == body && MeantByAll(pieces) == name
  }

  /**
   A text is decoded to a name exactly when it spells it: unescaped, with
   short escapes or with hexadecimal digits of either case, unit by unit.
   */
  lemma {:induction false} DecodedIsSpelled(body: string, name: Name)
    ensures Decode(body) == Some(name) <==> Spells(body, name)
  {
    hide Decode, SpellAll, MeantByAll, AllSpellable;
    if Decode(body) == Some(name) {
      var pieces := SpellingOf(body);
      DecodeSpelled(pieces);
    }
    if Spells(body, name) {
      var pieces :| AllSpellable(pieces) && SpellAll(pieces) == body && MeantByAll(pieces) == name;
      DecodeSpelled(pieces);
    }
  }

  // ----- the spelling of canonical texts -----

  /** How canonical text spells a character. */
  ghost predicate IsCanonicalPiece(c: char, p: Piece)
  {
    && Spellable(p) && Meant(p) == UnicodeText.Units(c) && (p.Long? ==> p.capitals == [false, false, false, false])
    && forall q :: Spellable(q) && Meant(q) == UnicodeText.Units(c) ==> |Spell(p)| <= |Spell(q)|
  }

  /** Canonical text spells each character as itself, and as shortly as possible, with small hexadecimal digits. */
  lemma {:induction false} CanonicalPiece(c: char) returns (p: Piece)
    ensures IsCanonicalPiece(c, p) && Spell(p) == CanonicalJson.EscapeChar(c)
  {
    if c != '"' && c != '\\' && c as int >= 0x20 {
      p := Plain(c);
    } else {
      p := ShortestEscape(c);
    }
  }

  lemma {:induction false} ShortestEscape(c: char) returns (p: Piece)
    requires c == '"' || c == '\\' || c as int < 0x20
    ensures IsCanonicalPiece(c, p) && Spell(p) == CanonicalJson.EscapeChar(c)
  {
    hide IsCanonicalPiece;
    if index: nat :| index < |MEANT| && MEANT[index] == c as int {
      p := Short(index);
      ShortIsCanonical(c, index);
    } else {
      p := Long(c as int, [false, false, false, false]);
      LongIsCanonical(c);
    }
  }

  lemma {:induction false} ShortIsCanonical(c: char, index: nat)
    requires c == '"' || c == '\\' || c as int < 0x20
    requires index < |MEANT| && MEANT[index] == c as int
    ensures IsCanonicalPiece(c, Short(index)) && Spell(Short(index)) == CanonicalJson.EscapeChar(c)
  {
    NotPlain(c);
    assert MEANT[2] == 0x2F;
  }

  lemma {:induction false} LongIsCanonical(c: char)
    requires (c == '"' || c == '\\' || c as int < 0x20) && forall index: nat :: index < |MEANT| ==> MEANT[index] != c as int
    ensures var p := Long(c as int, [false, false, false, false]);
            IsCanonicalPiece(c, p) && Spell(p) == CanonicalJson.EscapeChar(c)
  {
    var n := c as int;
    NotMeant(n);
    NotPlain(c);
    assert n / 4096 == 0 && n / 256 % 16 == 0 && n / 16 % 16 == n / 16;
    assert HexChar(0, false) == '0';
  }

  lemma {:induction false} NotMeant(n: int)
    requires forall index: nat :: index < |MEANT| ==> MEANT[index] != n
    ensures n !in {0x22, 0x5C, 0x08, 0x09, 0x0A, 0x0C, 0x0D}
  {
    assert MEANT[0] == 0x22 && MEANT[1] == 0x5C && MEANT[3] == 8 && MEANT[4] == 12 && MEANT[5] == 10;
    assert MEANT[6] == 13 && MEANT[7] == 9;
  }

  lemma {:induction false} NotPlain(c: char)
    requires c == '"' || c == '\\' || c as int < 0x20
    ensures forall q :: Spellable(q) && Meant(q) == UnicodeText.Units(c) ==> !q.Plain?
  {
    forall a: char | UnicodeText.Units(a) == UnicodeText.Units(c) ensures a == c {
      assert UnicodeText.Units(a)[0] == UnicodeText.Units(c)[0];
    }
  }

  /** A canonical key is read as the key itself. */
  lemma {:induction false} CanonicalKeyIsRead(key: string)
    ensures Decode(CanonicalJson.EscapeAll(key)) == Some(UnicodeText.Encode(key))
  {
    hide Decode, Spell, Meant, CanonicalJson.EscapeChar, IsCanonicalPiece;
    if key == "" {
      DecodeNothing();
    } else {
      CanonicalKeyIsRead(key[1..]);
      var p := CanonicalPiece(key[0]);
      assert Spellable(p) && Meant(p) == UnicodeText.Units(key[0]) by { CanonicalMeans(key[0], p); }
      DecodePiece(p, CanonicalJson.EscapeAll(key[1..]));
    }
  }

  lemma CanonicalMeans(c: char, p: Piece)
    requires IsCanonicalPiece(c, p)
    ensures Spellable(p) && Meant(p) == UnicodeText.Units(c)
  {
  }

  // ----- the scanner -----

  datatype Frame = ObjectFrame(keys: set<Name>, expectsKey: bool) | ArrayFrame

  datatype Outcome = Accepted | Duplicate(name: Name) | MalformedKey

  /** Distance to the closing quote, skipping escaped characters, or -1. */
  function StringEnd(s: string): (n: int)
    ensures -1 <= n < |s|
    decreases |s|
  {
    if s == "" then -1
    else if s[0] == '"' then 0
    else
      var step := if s[0] == '\\' then 2 else 1;
      if |s| < step then -1
      else var n := StringEnd(s[step..]); if n < 0 then -1 else n + step
  }

  function Popped(stack: seq<Frame>): seq<Frame>
  {
    if stack == [] then [] else stack[..|stack| - 1]
  }

  function WithTop(stack: seq<Frame>, top: Frame): seq<Frame>
  {
    Popped(stack) + [top]
  }

  /** The innermost frame is an object that expects a key. */
  predicate ExpectsKey(stack: seq<Frame>)
  {
    stack != [] && stack[|stack| - 1].ObjectFrame? && stack[|stack| - 1].expectsKey
  }

  /** The effect of a character outside strings. */
  function Punctuated(c: char, stack: seq<Frame>): seq<Frame>
  {
    if c == '{' then stack + [ObjectFrame({}, true)]
    else if c == '[' then stack + [ArrayFrame]
    else if c == '}' || c == ']' then Popped(stack)
    else if c == ',' && stack != [] && stack[|stack| - 1].ObjectFrame? then
      WithTop(stack, stack[|stack| - 1].(expectsKey := true))
    else stack
  }

  function Scan(text: string, stack: seq<Frame>): Outcome
    decreases |text|
  {
    if text == "" then Accepted
    else if text[0] != '"' then Scan(text[1..], Punctuated(text[0], stack))
    else
      var n := StringEnd(text[1..]);
      if n < 0 then Accepted
      else
        var body, rest := text[1..][..n], text[1..][n + 1..];
        if !ExpectsKey(stack) then Scan(rest, stack)
        else match Decode(body)
          case None => MalformedKey
          case Some(name) =>
            var top := stack[|stack| - 1];
            if name in top.keys then Duplicate(name)
            else Scan(rest, WithTop(stack, ObjectFrame(top.keys + {name}, false)))
  }

  method RejectDuplicateKeys(text: string) returns (r: Outcome)
    ensures r == Scan(text, [])
  {
    hide Decode, StringEnd, Punctuated;
    var stack: seq<Frame> := [];
    var index := 0;
    assert text[0..] == text;
    while index < |text|
      invariant index <= |text|
      invariant Scan(text, []) == Scan(text[index..], stack)
      decreases |text| - index
    {
      var character := text[index];
      ghost var rest := text[index..];
      assert rest[1..] == text[index + 1..];
      if character == '"' {
        var start := index;
        index := index + 1;
        index := SkipString(text, index);
        if index >= |text| {
          return Accepted;
        }
        ghost var n := StringEnd(rest[1..]);
        assert rest[1..][..n] == text[start + 1..index] && rest[1..][n + 1..] == text[index + 1..];
        if ExpectsKey(stack) {
          var frame := stack[|stack| - 1];
          var key := Decode(text[start + 1..index]);
          if key.None? {
            return MalformedKey;
          }
          if key.value in frame.keys {
            return Duplicate(key.value);
          }
          stack := WithTop(stack, ObjectFrame(frame.keys + {key.value}, false));
        }
      } else {
        stack := Punctuated(character, stack);
      }
      index := index + 1;
    }
    assert text[index..] == "";
    return Accepted;
  }

  /** The inner loop: from inside a string to its closing quote, or past the end. */
  method SkipString(text: string, start: nat) returns (index: nat)
    requires start <= |text|
    ensures var n := StringEnd(text[start..]); if n < 0 then index >= |text| else index == start + n
  {
    index := start;
    while index < |text| && text[index] != '"'
      invariant start <= index
      invariant index <= |text| ==>
                  var n, m := StringEnd(text[start..]), StringEnd(text[index..]);
                  if m < 0 then n < 0 else n == index - start + m
      invariant index > |text| ==> StringEnd(text[start..]) < 0
      decreases |text| - index
    {
      if text[index] == '\\' {
        assert index + 2 <= |text| ==> text[index..][2..] == text[index + 2..];
        index := index + 1;
      } else {
        assert text[index..][1..] == text[index + 1..];
      }
      index := index + 1;
    }
  }

  // ----- the grammar -----

  datatype Syntax =
    | Scalar(text: string)
    | Str(body: string)
    | Arr(blank: string, items: seq<Element>)
    | Obj(blank: string, members: seq<Member>)

  /** A value with the white space around it. */
  datatype Element = Element(before: string, value: Syntax, after: string)

  datatype Member = Member(before: string, key: string, after: string, element: Element)

  predicate IsSpace(s: string)
  {
    forall i :: 0 <= i < |s| ==> s[i] == ' ' || s[i] as int == 9 || s[i] as int == 10 || s[i] as int == 13
  }

  predicate IsScalar(s: string)
  {
    s == "null" || s == "true" || s == "false" || NumberLexeme.MatchNumber(s).Some?
  }

  predicate WellFormed(v: Syntax)
  {
    match v
    case Scalar(text) => IsScalar(text)
    case Str(body) => Decode(body).Some?
    case Arr(blank, items) => IsSpace(blank) && forall i :: 0 <= i < |items| ==> WellFormedElement(items[i])
    case Obj(blank, members) => IsSpace(blank) && forall i :: 0 <= i < |members| ==> WellFormedMember(members[i])
  }

  predicate WellFormedElement(e: Element)
  {
    IsSpace(e.before) && WellFormed(e.value) && IsSpace(e.after)
  }

  predicate WellFormedMember(m: Member)
  {
    IsSpace(m.before) && Decode(m.key).Some? && IsSpace(m.after) && WellFormedElement(m.element)
  }

  /** The rendering of a tree in front of the rest of a text. */
  function Render(v: Syntax, rest: string): string
    decreases v
  {
    match v
    case Scalar(text) => text + rest
    case Str(body) => "\"" + (body + ("\"" + rest))
    case Arr(blank, items) => "[" + (if items == [] then blank + ("]" + rest) else RenderItems(items, rest))
    case Obj(blank, members) => "{" + (if members == [] then blank + ("}" + rest) else RenderMembers(members, rest))
  }

  function RenderElement(e: Element, rest: string): string
    decreases e
  {
    e.before + Render(e.value, e.after + rest)
  }

  function RenderItems(items: seq<Element>, rest: string): string
    requires items != []
    decreases items
  {
    RenderElement(items[0], if |items| == 1 then "]" + rest else "," + RenderItems(items[1..], rest))
  }

  function RenderMember(m: Member, rest: string): string
    decreases m
  {
    m.before + ("\"" + (m.key + ("\"" + (m.after + (":" + RenderElement(m.element, rest))))))
  }

  function RenderMembers(members: seq<Member>, rest: string): string
    requires members != []
    decreases members
  {
    RenderMember(members[0], if |members| == 1 then "}" + rest else "," + RenderMembers(members[1..], rest))
  }

  /** A JSON text (section 2 of RFC 8259). */
  ghost predicate IsJsonText(text: string, e: Element)
  {
    WellFormedElement(e) && text == RenderElement(e, "")
  }

  // ----- duplicates -----

  function NameOf(m: Member): Name
  {
    if Decode(m.key).Some? then Decode(m.key).value else []
  }

  /** Some object in the tree has two members of the same name (section 4 of RFC 8259). */
  predicate HasDuplicate(v: Syntax)
  {
    match v
    case Arr(_, items) => exists i :: 0 <= i < |items| && HasDuplicate(items[i].value)
    case Obj(_, members) =>
      (exists i, j :: 0 <= i < j < |members| && NameOf(members[i]) == NameOf(members[j]))
      || (exists i :: 0 <= i < |members| && HasDuplicate(members[i].element.value))
    case _ => false
  }

  /** The first repeated name in reading order. */
  function FirstDuplicate(v: Syntax): Option<Name>
  {
    match v
    case Arr(_, items) => FirstInItems(items)
    case Obj(_, members) => FirstInMembers(members, {})
    case _ => None
  }

  function FirstInItems(items: seq<Element>): Option<Name>
  {
    if items == [] then None
    else
      var first := FirstDuplicate(items[0].value);
      if first.Some? then first else FirstInItems(items[1..])
  }

  function FirstInMembers(members: seq<Member>, seen: set<Name>): Option<Name>
  {
    if members == [] then None
    else if NameOf(members[0]) in seen then Some(NameOf(members[0]))
    else
      var first := FirstDuplicate(members[0].element.value);
      if first.Some? then first else FirstInMembers(members[1..], seen + {NameOf(members[0])})
  }

  lemma {:induction false} FirstIsDuplicate(v: Syntax)
    ensures FirstDuplicate(v).Some? <==> HasDuplicate(v)
    decreases v, 1
  {
    match v {
      case Arr(_, items) => FirstOfItems(items);
      case Obj(_, members) => FirstOfMembers(members, {});
      case _ =>
    }
  }

  lemma {:induction false} FirstOfItems(items: seq<Element>)
    ensures FirstInItems(items).Some? <==> exists i :: 0 <= i < |items| && HasDuplicate(items[i].value)
    decreases items, 0
  {
    if items != [] {
      FirstIsDuplicate(items[0].value);
      FirstOfItems(items[1..]);
      hide FirstDuplicate, HasDuplicate;
      assert forall i :: 0 < i < |items| ==> items[i] == items[1..][i - 1];
    }
  }

  /** A name that occurred before, or twice here, or inside. */
  predicate Repeats(members: seq<Member>, seen: set<Name>)
  {
    || (exists i :: 0 <= i < |members| && NameOf(members[i]) in seen)
    || (exists i, j :: 0 <= i < j < |members| && NameOf(members[i]) == NameOf(members[j]))
    || (exists i :: 0 <= i < |members| && HasDuplicate(members[i].element.value))
  }

  lemma {:induction false} FirstOfMembers(members: seq<Member>, seen: set<Name>)
    ensures FirstInMembers(members, seen).Some? <==> Repeats(members, seen)
    decreases members, 0
  {
    if members != [] {
      FirstIsDuplicate(members[0].element.value);
      FirstOfMembers(members[1..], seen + {NameOf(members[0])});
      hide FirstDuplicate, HasDuplicate, NameOf;
      RepeatsStep(members, seen);
    }
  }

  lemma {:induction false} RepeatsStep(members: seq<Member>, seen: set<Name>)
    requires members != []
    ensures Repeats(members, seen)
       <==> NameOf(members[0]) in seen || HasDuplicate(members[0].element.value)
            || Repeats(members[1..], seen + {NameOf(members[0])})
  {
    hide HasDuplicate, NameOf;
    var rest, more := members[1..], seen + {NameOf(members[0])};
    assert forall i :: 0 < i < |members| ==> members[i] == rest[i - 1];
    assert forall i :: 0 <= i < |rest| ==> rest[i] == members[i + 1];
    if Repeats(rest, more) {
      if i :| 0 <= i < |rest| && NameOf(rest[i]) in more {
        assert NameOf(members[i + 1]) in seen || NameOf(members[0]) == NameOf(members[i + 1]);
      } else if i, j :| 0 <= i < j < |rest| && NameOf(rest[i]) == NameOf(rest[j]) {
        assert NameOf(members[i + 1]) == NameOf(members[j + 1]);
      } else {
        var i :| 0 <= i < |rest| && HasDuplicate(rest[i].element.value);
        assert HasDuplicate(members[i + 1].element.value);
      }
    }
    if Repeats(members, seen) && NameOf(members[0]) !in seen && !HasDuplicate(members[0].element.value) {
      if i :| 0 <= i < |members| && NameOf(members[i]) in seen {
        assert NameOf(rest[i - 1]) in more;
      } else if i, j :| 0 <= i < j < |members| && NameOf(members[i]) == NameOf(members[j]) {
        if i == 0 {
          assert NameOf(rest[j - 1]) in more;
        } else {
          assert NameOf(rest[i - 1]) == NameOf(rest[j - 1]);
        }
      } else {
        var i :| 0 <= i < |members| && HasDuplicate(members[i].element.value);
        assert HasDuplicate(rest[i - 1].element.value);
      }
    }
  }

  // ----- scanning a rendered tree -----

  /** Characters outside strings that the scanner ignores. */
  predicate Inert(s: string)
  {
    forall i :: 0 <= i < |s| ==> s[i] !in {'"', '{', '}', '[', ']', ','}
  }

  lemma {:induction false} ScanInert(s: string, rest: string, stack: seq<Frame>)
    requires Inert(s)
    ensures Scan(s + rest, stack) == Scan(rest, stack)
    decreases |s|
  {
    if s == "" {
      assert s + rest == rest;
    } else {
      assert (s + rest)[1..] == s[1..] + rest;
      ScanInert(s[1..], rest, stack);
    }
  }

  lemma {:induction false} ScalarIsInert(s: string)
    requires IsScalar(s)
    ensures Inert(s)
  {
    if NumberLexeme.MatchNumber(s).Some? {
      CanonicalReader.NumbersAreTokens(s);
    }
  }

  lemma {:induction false} SpaceIsInert(s: string)
    requires IsSpace(s)
    ensures Inert(s)
  {
  }

  lemma {:induction false} HexIsPlain(c: char)
    requires HexValue(c).Some?
    ensures c != '"' && c != '\\'
  {
  }

  lemma {:induction false} EscapedUnit(body: string)
    requires body != "" && Decode(body).Some? && body[0] == '\\' && body[1] == 'u'
    ensures |body| >= 6 && Decode(body[6..]).Some?
    ensures forall i :: 2 <= i < 6 ==> body[i] != '"' && body[i] != '\\'
  {
    hide HexValue;
    HexIsPlain(body[2]);
    HexIsPlain(body[3]);
    HexIsPlain(body[4]);
    HexIsPlain(body[5]);
  }

  lemma {:induction false} DecodeStep(body: string)
    requires body != "" && Decode(body).Some?
    ensures body[0] == '\\' ==> |body| >= 2 && (body[1] != 'u' ==> Decode(body[2..]).Some?)
    ensures body[0] != '\\' ==> body[0] != '"' && Decode(body[1..]).Some?
  {
    hide HexValue, SimpleEscape, UnicodeText.Units;
  }

  lemma {:induction false} SkipEscape(s: string)
    requires |s| >= 2 && s[0] == '\\' && StringEnd(s[2..]) >= 0
    ensures StringEnd(s) == StringEnd(s[2..]) + 2
  {
  }

  lemma {:induction false} SkipPlain(s: string)
    requires s != "" && s[0] != '"' && s[0] != '\\' && StringEnd(s[1..]) >= 0
    ensures StringEnd(s) == StringEnd(s[1..]) + 1
  {
  }

  lemma {:induction false} SkipUnit(s: string)
    requires |s| >= 6 && s[0] == '\\' && StringEnd(s[6..]) >= 0
    requires forall i :: 2 <= i < 6 ==> s[i] != '"' && s[i] != '\\'
    ensures StringEnd(s) == StringEnd(s[6..]) + 6
  {
    hide StringEnd;
    assert s[5..][1..] == s[6..] && s[4..][1..] == s[5..] && s[3..][1..] == s[4..] && s[2..][1..] == s[3..];
    SkipPlain(s[5..]);
    SkipPlain(s[4..]);
    SkipPlain(s[3..]);
    SkipPlain(s[2..]);
    SkipEscape(s);
  }

  lemma {:induction false} Cut(body: string, tail: string, n: nat)
    requires n <= |body|
    ensures (body + tail)[n..] == body[n..] + tail
    ensures forall i :: 0 <= i < |body| ==> (body + tail)[i] == body[i]
  {
  }

  /** The scanner finds the closing quote of a well-formed string. */
  lemma {:induction false} EndOfString(body: string, tail: string)
    requires Decode(body).Some? && tail != "" && tail[0] == '"'
    ensures StringEnd(body + tail) == |body|
    decreases |body|
  {
    if body == "" {
      assert body + tail == tail;
    } else {
      hide Decode, StringEnd;
      DecodeStep(body);
      if body[0] != '\\' {
        EndOfString(body[1..], tail);
        Cut(body, tail, 1);
        SkipPlain(body + tail);
      } else if body[1] != 'u' {
        EndOfString(body[2..], tail);
        Cut(body, tail, 2);
        SkipEscape(body + tail);
      } else {
        EscapedUnit(body);
        EndOfString(body[6..], tail);
        Cut(body, tail, 6);
        SkipUnit(body + tail);
      }
    }
  }

  lemma {:induction false} ScanString(body: string, rest: string, stack: seq<Frame>)
    requires Decode(body).Some?
    ensures Scan("\"" + (body + ("\"" + rest)), stack)
         == if !ExpectsKey(stack) then Scan(rest, stack)
            else var top := stack[|stack| - 1];
                 var name := Decode(body).value;
                 if name in top.keys then Duplicate(name)
                 else Scan(rest, WithTop(stack, ObjectFrame(top.keys + {name}, false)))
  {
    hide Decode, StringEnd;
    var inner := body + ("\"" + rest);
    var text := "\"" + inner;
    EndOfString(body, "\"" + rest);
    assert text[1..] == inner;
    assert inner[..|body|] == body;
    assert inner[|body| + 1..] == rest;
  }

  lemma {:induction false} PopTop(base: seq<Frame>, top: Frame, other: Frame)
    ensures Popped(base + [top]) == base && WithTop(base + [top], other) == base + [other]
  {
    assert (base + [top])[..|base|] == base;
  }

  lemma {:induction false} ScanChar(c: char, rest: string, stack: seq<Frame>)
    requires c != '"'
    ensures Scan([c] + rest, stack) == Scan(rest, Punctuated(c, stack))
  {
    assert ([c] + rest)[1..] == rest;
  }

  function Found(first: Option<Name>, otherwise: Outcome): Outcome
  {
    if first.Some? then Duplicate(first.value) else otherwise
  }

  lemma {:induction false} ScanValue(v: Syntax, rest: string, stack: seq<Frame>)
    requires WellFormed(v) && !ExpectsKey(stack)
    ensures Scan(Render(v, rest), stack) == Found(FirstDuplicate(v), Scan(rest, stack))
    decreases v, 2
  {
    hide Scan, Decode, IsScalar;
    match v {
      case Scalar(text) =>
        ScalarIsInert(text);
        ScanInert(text, rest, stack);
      case Str(body) =>
        ScanString(body, rest, stack);
      case Arr(blank, items) =>
        PopTop(stack, ArrayFrame, ArrayFrame);
        if items == [] {
          ScanChar('[', blank + ("]" + rest), stack);
          SpaceIsInert(blank);
          ScanInert(blank, "]" + rest, stack + [ArrayFrame]);
          ScanChar(']', rest, stack + [ArrayFrame]);
        } else {
          ScanChar('[', RenderItems(items, rest), stack);
          ScanItems(items, rest, stack);
        }
      case Obj(blank, members) =>
        var top := ObjectFrame({}, true);
        PopTop(stack, top, top);
        if members == [] {
          ScanChar('{', blank + ("}" + rest), stack);
          SpaceIsInert(blank);
          ScanInert(blank, "}" + rest, stack + [top]);
          ScanChar('}', rest, stack + [top]);
        } else {
          ScanChar('{', RenderMembers(members, rest), stack);
          ScanMembers(members, rest, stack, {});
        }
    }
  }

  lemma {:induction false} ScanElement(e: Element, rest: string, stack: seq<Frame>)
    requires WellFormedElement(e) && !ExpectsKey(stack)
    ensures Scan(RenderElement(e, rest), stack) == Found(FirstDuplicate(e.value), Scan(rest, stack))
    decreases e, 3
  {
    hide Scan;
    SpaceIsInert(e.before);
    SpaceIsInert(e.after);
    ScanInert(e.before, Render(e.value, e.after + rest), stack);
    ScanValue(e.value, e.after + rest, stack);
    ScanInert(e.after, rest, stack);
  }

  lemma {:induction false} ScanItems(items: seq<Element>, rest: string, base: seq<Frame>)
    requires items != [] && forall i :: 0 <= i < |items| ==> WellFormedElement(items[i])
    ensures Scan(RenderItems(items, rest), base + [ArrayFrame]) == Found(FirstInItems(items), Scan(rest, base))
    decreases items, 1
  {
    hide Scan, RenderElement, FirstDuplicate;
    var stack := base + [ArrayFrame];
    PopTop(base, ArrayFrame, ArrayFrame);
    if |items| == 1 {
      ScanElement(items[0], "]" + rest, stack);
      ScanChar(']', rest, stack);
      assert FirstInItems(items[1..]) == None;
    } else {
      var more := RenderItems(items[1..], rest);
      ScanElement(items[0], "," + more, stack);
      ScanChar(',', more, stack);
      ScanItems(items[1..], rest, base);
    }
  }

  lemma {:induction false} ScanMember(m: Member, rest: string, base: seq<Frame>, keys: set<Name>)
    requires WellFormedMember(m)
    ensures Scan(RenderMember(m, rest), base + [ObjectFrame(keys, true)])
         == if NameOf(m) in keys then Duplicate(NameOf(m))
            else Found(FirstDuplicate(m.element.value), Scan(rest, base + [ObjectFrame(keys + {NameOf(m)}, false)]))
    decreases m, 4
  {
    hide Scan, RenderElement, Decode;
    var expecting, filled := ObjectFrame(keys, true), ObjectFrame(keys + {NameOf(m)}, false);
    var value := RenderElement(m.element, rest);
    SpaceIsInert(m.before);
    SpaceIsInert(m.after);
    ScanInert(m.before, "\"" + (m.key + ("\"" + (m.after + (":" + value)))), base + [expecting]);
    ScanString(m.key, m.after + (":" + value), base + [expecting]);
    PopTop(base, expecting, filled);
    ScanInert(m.after, ":" + value, base + [filled]);
    ScanChar(':', value, base + [filled]);
    ScanElement(m.element, rest, base + [filled]);
  }

  lemma {:induction false} ScanMembers(members: seq<Member>, rest: string, base: seq<Frame>, keys: set<Name>)
    requires members != [] && forall i :: 0 <= i < |members| ==> WellFormedMember(members[i])
    ensures Scan(RenderMembers(members, rest), base + [ObjectFrame(keys, true)])
         == Found(FirstInMembers(members, keys), Scan(rest, base))
    decreases members, 1
  {
    hide Scan, RenderMember, FirstDuplicate, NameOf;
    var m := members[0];
    var known := keys + {NameOf(m)};
    var filled := ObjectFrame(known, false);
    PopTop(base, filled, ObjectFrame(known, true));
    if |members| == 1 {
      ScanMember(m, "}" + rest, base, keys);
      ScanChar('}', rest, base + [filled]);
      assert FirstInMembers(members[1..], known) == None;
    } else {
      var more := RenderMembers(members[1..], rest);
      ScanMember(m, "," + more, base, keys);
      ScanChar(',', more, base + [filled]);
      ScanMembers(members[1..], rest, base, known);
    }
  }

  /**
   On every JSON text the scanner rejects exactly when some object has two
   members whose decoded names are equal, and then reports the first repeated
   name in reading order. Strings in value or array position never count.
   */
  lemma {:induction false} ScannerIsExact(text: string, e: Element)
    requires IsJsonText(text, e)
    ensures Scan(text, []) == Found(FirstDuplicate(e.value), Accepted)
    ensures Scan(text, []) != Accepted <==> HasDuplicate(e.value)
  {
    ScanElement(e, "", []);
    FirstIsDuplicate(e.value);
    assert Scan("", []) == Accepted;
  }
}
