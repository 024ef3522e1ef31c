/**
 Texts as JavaScript has them: sequences of UTF-16 units. A `string` holds
 Unicode scalar values, so it is the meaning of a well-formed text
 (`validateUnicodeScalars` in `exact-json.ts`).
 */
module UnicodeText {
  type Unit = n: nat | n < 0x10000

  type Utf16 = seq<Unit>

  predicate IsHigh(u: Unit)
  {
    0xD800 <= u <= 0xDBFF
  }

  predicate IsLow(u: Unit)
  {
    0xDC00 <= u <= 0xDFFF
  }

  /** The one or two units of a scalar value. */
  function Units(c: char): Utf16
  {
    var code := c as int;
    if code < 0x10000 then [code] else [0xD800 + (code - 0x10000) / 0x400, 0xDC00 + (code - 0x10000) % 0x400]
  }

  function Encode(text: string): Utf16
  {
    if text == "" then [] else Units(text[0]) + Encode(text[1..])
  }

  /** No surrogate stands alone. */
  predicate IsPaired(s: Utf16)
  {
    if s == [] then true
    else if IsHigh(s[0]) then |s| > 1 && IsLow(s[1]) && IsPaired(s[2..])
    else !IsLow(s[0]) && IsPaired(s[1..])
  }

  function FromPair(high: Unit, low: Unit): char
    requires IsHigh(high) && IsLow(low)
  {
    var h: int, l: int := high, low;
    (0x10000 + (h - 0xD800) * 0x400 + (l - 0xDC00)) as char
  }

  /** The scalar values of a text without lone surrogates. */
  function Decode(s: Utf16): string
    requires IsPaired(s)
  {
    if s == [] then ""
    else if IsHigh(s[0]) then [FromPair(s[0], s[1])] + Decode(s[2..])
    else [s[0] as char] + Decode(s[1..])
  }

  lemma {:induction false} PairBack(high: Unit, low: Unit)
    requires IsHigh(high) && IsLow(low)
    ensures Units(FromPair(high, low)) == [high, low]
  {
    var h: int, l: int := high, low;
    var n := (h - 0xD800) * 0x400 + (l - 0xDC00);
    assert n / 0x400 == h - 0xD800 && n % 0x400 == l - 0xDC00;
  }

  lemma {:induction false} UnitsBack(c: char)
    ensures var u := Units(c);
            if |u| == 1 then !IsHigh(u[0]) && !IsLow(u[0]) && u[0] as char == c
            else |u| == 2 && IsHigh(u[0]) && IsLow(u[1]) && FromPair(u[0], u[1]) == c
  {
  }

  /** Characters outside the basic plane have ascending pairs: first by the high unit, then by the low one. */
  lemma {:induction false} PairsAscend(a: char, b: char)
    requires 0x10000 <= a as int < b as int
    ensures |Units(a)| == 2 && |Units(b)| == 2
    ensures Units(a)[0] < Units(b)[0] || (Units(a)[0] == Units(b)[0] && Units(a)[1] < Units(b)[1])
  {
    var m, n := a as int - 0x10000, b as int - 0x10000;
    assert m == 0x400 * (m / 0x400) + m % 0x400 && n == 0x400 * (n / 0x400) + n % 0x400;
  }

  lemma {:induction false} EncodedIsPaired(text: string)
    ensures IsPaired(Encode(text)) && Decode(Encode(text)) == text
  {
    hide Units, FromPair;
    if text != "" {
      var first, rest := Units(text[0]), Encode(text[1..]);
      UnitsBack(text[0]);
      EncodedIsPaired(text[1..]);
      assert (first + rest)[|first|..] == rest;
      assert text == [text[0]] + text[1..];
    }
  }

  lemma {:induction false} DecodedEncodes(s: Utf16)
    requires IsPaired(s)
    ensures Encode(Decode(s)) == s
  {
    hide Units, FromPair;
    if s != [] {
      if IsHigh(s[0]) {
        DecodedEncodes(s[2..]);
        PairBack(s[0], s[1]);
        assert Decode(s)[1..] == Decode(s[2..]);
        assert s == [s[0], s[1]] + s[2..];
      } else {
        DecodedEncodes(s[1..]);
        OneUnit(s[0]);
        assert Decode(s)[1..] == Decode(s[1..]);
        assert s == [s[0]] + s[1..];
      }
    }
  }

  lemma OneUnit(u: Unit)
    requires !IsHigh(u) && !IsLow(u)
    ensures Units(u as char) == [u]
  {
  }

  /** A text has no lone surrogate exactly when it is the encoding of some scalar values, and of only one list. */
  lemma {:induction false} PairedMeansEncoded(s: Utf16, text: string)
    ensures IsPaired(s) <==> exists t :: Encode(t) == s
    ensures Encode(text) == s <==> IsPaired(s) && Decode(s) == text
  {
    EncodedIsPaired(text);
    if IsPaired(s) {
      DecodedEncodes(s);
    }
    forall t | Encode(t) == s ensures IsPaired(s) {
      EncodedIsPaired(t);
    }
  }

  method ValidateUnicodeScalars(value: Utf16) returns (ok: bool)
    ensures ok <==> exists t :: Encode(t) == value
  {
    PairedMeansEncoded(value, "");
    var index := 0;
    assert value[0..] == value;
    while index < |value|
      invariant 0 <= index <= |value|
      invariant IsPaired(value) <==> IsPaired(value[index..])
    {
      var code := value[index];
      if IsHigh(code) {
        if index + 1 >= |value| || !IsLow(value[index + 1]) {
          return false;
        }
        assert value[index..][2..] == value[index + 2..];
        index := index + 1;
      } else if IsLow(code) {
        return false;
      } else {
        assert value[index..][1..] == value[index + 1..];
      }
      index := index + 1;
    }
    ok := true;
  }
}
