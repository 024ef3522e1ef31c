/**
 Number lexemes of JSON: the grammar of section 6 of RFC 8259, their decimal
 value, and the bounds check of `exact-json.ts`.
 */
module NumberLexeme {
  import opened Wrappers

  const MAX_NUMBER_DIGITS: nat := 128
  const MAX_EXPONENT_MAGNITUDE: nat := 1024

  // ----- cutting strings -----

  lemma {:induction false} Rejoin(s: string, n: nat)
    requires n <= |s|
    ensures s == s[..n] + s[n..]
  {
  }

  lemma {:induction false} Cut(a: string, b: string)
    ensures (a + b)[..|a|] == a && (a + b)[|a|..] == b
  {
  }

  // ----- powers of ten -----

  /** `x` times ten to the power `k`. */
  function Scaled(x: real, k: int): real
    decreases if k < 0 then -k else k
  {
    if k == 0 then x else if k > 0 then 10.0 * Scaled(x, k - 1) else Scaled(x, k + 1) / 10.0
  }

  function Pow10(k: int): real
  {
    Scaled(1.0, k)
  }

  lemma {:induction false} ScaledNext(x: real, k: int)
    ensures Scaled(x, k + 1) == 10.0 * Scaled(x, k)
  {
  }

  lemma {:induction false} ScaledAdd(x: real, a: int, b: int)
    ensures Scaled(Scaled(x, a), b) == Scaled(x, a + b)
    decreases if b < 0 then -b else b
  {
    if b > 0 {
      ScaledAdd(x, a, b - 1);
      ScaledNext(x, a + b - 1);
    } else if b < 0 {
      ScaledAdd(x, a, b + 1);
      ScaledNext(x, a + b);
    }
  }

  lemma {:induction false} ScaledLess(x: real, y: real, k: int)
    ensures x < y <==> Scaled(x, k) < Scaled(y, k)
    ensures x == 0.0 <==> Scaled(x, k) == 0.0
    decreases if k < 0 then -k else k
  {
    if k > 0 {
      ScaledLess(x, y, k - 1);
    } else if k < 0 {
      ScaledLess(x, y, k + 1);
    }
  }

  lemma {:induction false} Pow10Increasing(a: int, b: int)
    requires a < b
    ensures 0.0 < Pow10(a) && Pow10(a + 1) <= Pow10(b) && Pow10(a) < Pow10(b)
    decreases b - a
  {
    ScaledLess(0.0, 1.0, a);
    ScaledLess(0.0, 0.0, a);
    ScaledNext(1.0, a);
    if a + 1 < b {
      Pow10Increasing(a + 1, b);
    }
  }

  // ----- digits -----

  predicate IsDigit(c: char)
  {
    '0' <= c <= '9'
  }

  predicate AllDigits(s: string)
  {
    forall i :: 0 <= i < |s| ==> IsDigit(s[i])
  }

  function DigitOf(c: char): (d: nat)
    requires IsDigit(c)
    ensures d <= 9 && (d == 0 <==> c == '0')
  {
    c as int - '0' as int
  }

  function NatOf(s: string): nat
    requires AllDigits(s)
  {
    if s == "" then 0 else 10 * NatOf(s[..|s| - 1]) + DigitOf(s[|s| - 1])
  }

  lemma {:induction false} NatOfAppend(a: string, b: string)
    requires AllDigits(a) && AllDigits(b)
    ensures AllDigits(a + b) && NatOf(a + b) as real == Scaled(NatOf(a) as real, |b|) + NatOf(b) as real
    decreases |b|
  {
    if b == "" {
      assert a + b == a;
    } else {
      var init := b[..|b| - 1];
      NatOfAppend(a, init);
      assert (a + b)[..|a + b| - 1] == a + init && (a + b)[|a + b| - 1] == b[|b| - 1];
    }
  }

  predicate AllZeros(s: string)
  {
    forall i :: 0 <= i < |s| ==> s[i] == '0'
  }

  lemma {:induction false} NatOfZeros(s: string)
    requires AllZeros(s)
    ensures AllDigits(s) && NatOf(s) == 0
  {
    if s != "" {
      NatOfZeros(s[..|s| - 1]);
    }
  }

  /** A digit string without a leading zero has as many digits as its value needs. */
  lemma {:induction false} NatOfBounds(s: string)
    requires AllDigits(s) && s != "" && s[0] != '0'
    ensures Pow10(|s| - 1) <= NatOf(s) as real < Pow10(|s|)
  {
    if |s| > 1 {
      var init := s[..|s| - 1];
      NatOfBounds(init);
      WholeBelow(NatOf(init), |init|);
    } else {
      assert s[..0] == "" && NatOf(s) == DigitOf(s[0]);
    }
  }

  lemma {:induction false} WholeBelow(n: nat, k: nat)
    requires n as real < Pow10(k)
    ensures n as real <= Pow10(k) - 1.0
  {
    var p := WholePow(k);
    assert n < p;
  }

  lemma {:induction false} WholePow(k: nat) returns (p: nat)
    ensures Pow10(k) == p as real
  {
    if k == 0 {
      p := 1;
    } else {
      var q := WholePow(k - 1);
      p := 10 * q;
    }
  }

  /** `replace(/^0+/, "")`. */
  function TrimLeadingZeros(s: string): string
  {
    if s != "" && s[0] == '0' then TrimLeadingZeros(s[1..]) else s
  }

  /** `replace(/0+$/, "")`. */
  function TrimTrailingZeros(s: string): string
  {
    if s != "" && s[|s| - 1] == '0' then TrimTrailingZeros(s[..|s| - 1]) else s
  }

  lemma {:induction false} TrimLeading(s: string)
    requires AllDigits(s)
    ensures var t := TrimLeadingZeros(s);
            |t| <= |s| && t == s[|s| - |t|..] && AllDigits(t) && (t == "" || t[0] != '0') && NatOf(t) == NatOf(s)
            && (t == "" <==> NatOf(s) == 0)
  {
    if s != "" && s[0] == '0' {
      TrimLeading(s[1..]);
      assert s == "0" + s[1..];
      NatOfAppend("0", s[1..]);
      NatOfZeros("0");
      ScaledLess(0.0, 0.0, |s[1..]|);
    } else if s != "" {
      NatOfBounds(s);
      ScaledLess(0.0, 1.0, |s| - 1);
      ScaledLess(0.0, 0.0, |s| - 1);
    }
  }

  lemma {:induction false} TrimTrailingShape(s: string)
    ensures var t := TrimTrailingZeros(s);
            |t| <= |s| && t == s[..|t|] && (AllDigits(s) ==> AllDigits(t)) && (t == "" || t[|t| - 1] != '0')
  {
    if s != "" && s[|s| - 1] == '0' {
      TrimTrailingShape(s[..|s| - 1]);
    } else {
      assert s[..|s|] == s;
    }
  }

  lemma {:induction false} TrimTrailing(s: string)
    requires AllDigits(s)
    ensures var t := TrimTrailingZeros(s);
            |t| <= |s| && t == s[..|t|] && AllDigits(t) && (t == "" || t[|t| - 1] != '0')
            && NatOf(s) as real == Scaled(NatOf(t) as real, |s| - |t|)
  {
    TrimTrailingShape(s);
    if s != "" && s[|s| - 1] == '0' {
      TrimTrailing(s[..|s| - 1]);
    }
  }

  // ----- the grammar -----

  /** The pieces that the source's regular expression captures; a missing exponent counts as zero. */
  datatype Lexeme = Lexeme(negative: bool, whole: string, fraction: string, expNegative: bool, expDigits: string)

  predicate IsDigits(s: string)
  {
    s != "" && AllDigits(s)
  }

  /** `exp` of section 6 of RFC 8259, or nothing. */
  predicate IsExponentPart(s: string, negative: bool, digits: string)
  {
    if s == "" then !negative && digits == "0"
    else
      && (s[0] == 'e' || s[0] == 'E') && IsDigits(digits)
      && (if negative then s[1..] == "-" + digits else s[1..] == digits || s[1..] == "+" + digits)
  }

  /** `frac` of section 6 of RFC 8259, or nothing, in front of the rest. */
  predicate IsFractionPart(s: string, fraction: string, rest: string)
  {
    if fraction == "" then s == rest && (s == "" || s[0] != '.') else AllDigits(fraction) && s == "." + (fraction + rest)
  }

  /** `int` of section 6 of RFC 8259. */
  predicate IsWhole(s: string)
  {
    IsDigits(s) && (s[0] == '0' ==> s == "0")
  }

  function Sign(negative: bool): string
  {
    if negative then "-" else ""
  }

  /** `number` of section 6 of RFC 8259, with its pieces. */
  ghost predicate Spells(value: string, l: Lexeme)
  {
    exists tail, rest ::
      && IsFractionPart(tail, l.fraction, rest) && IsExponentPart(rest, l.expNegative, l.expDigits)
      && IsWhole(l.whole) && value == Sign(l.negative) + (l.whole + tail)
  }

  /** The number of leading digits. */
  function DigitRun(s: string): (n: nat)
    ensures n <= |s| && AllDigits(s[..n]) && (n < |s| ==> !IsDigit(s[n]))
  {
    if s == "" || !IsDigit(s[0]) then 0
    else
      var n := DigitRun(s[1..]);
      assert s[..n + 1] == [s[0]] + s[1..][..n];
      n + 1
  }

  /** Matching `(?:[eE]([+-]?\d+))?$`. */
  function MatchExponent(s: string): Option<(bool, string)>
  {
    if s == "" then Some((false, "0"))
    else if s[0] != 'e' && s[0] != 'E' then None
    else
      var signed := |s| > 1 && (s[1] == '+' || s[1] == '-');
      var digits := if signed then s[2..] else s[1..];
      if digits != "" && DigitRun(digits) == |digits| then Some((signed && s[1] == '-', digits)) else None
  }

  /** Matching `(?:\.(\d+))?` and what follows. */
  function MatchFraction(s: string): Option<(string, bool, string)>
  {
    var pointed := s != "" && s[0] == '.';
    var n := if pointed then DigitRun(s[1..]) else 0;
    if pointed && n == 0 then None
    else match MatchExponent(if pointed then s[1..][n..] else s)
      case None => None
      case Some(e) => Some((if pointed then s[1..][..n] else "", e.0, e.1))
  }

  /** `/^(-?)(0|[1-9]\d*)(?:\.(\d+))?(?:[eE]([+-]?\d+))?$/`. */
  function MatchNumber(value: string): Option<Lexeme>
  {
    var negative := value != "" && value[0] == '-';
    var body := if negative then value[1..] else value;
    var n := DigitRun(body);
    if n == 0 || (body[0] == '0' && n > 1) then None
    else match MatchFraction(body[n..])
      case None => None
      case Some(f) => Some(Lexeme(negative, body[..n], f.0, f.1, f.2))
  }

  lemma {:induction false} DigitRunAppend(digits: string, rest: string)
    requires AllDigits(digits) && (rest == "" || !IsDigit(rest[0]))
    ensures DigitRun(digits + rest) == |digits|
  {
    if digits == "" {
      assert digits + rest == rest;
    } else {
      assert (digits + rest)[1..] == digits[1..] + rest;
      DigitRunAppend(digits[1..], rest);
    }
  }

  lemma {:induction false} DigitRunAll(s: string)
    ensures DigitRun(s) == |s| <==> AllDigits(s)
  {
    assert s[..|s|] == s && s + "" == s;
    if AllDigits(s) {
      DigitRunAppend(s, "");
    }
  }

  lemma {:induction false} MatchExponentExact(s: string, negative: bool, digits: string)
    ensures MatchExponent(s) == Some((negative, digits)) <==> IsExponentPart(s, negative, digits)
  {
    DigitRunAll(digits);
    if s != "" {
      var signed := |s| > 1 && (s[1] == '+' || s[1] == '-');
      DigitRunAll(if signed then s[2..] else s[1..]);
      Cut("+", digits);
      Cut("-", digits);
      assert signed ==> s[1..] == [s[1]] + s[2..];
      assert digits != "" && AllDigits(digits) ==> IsDigit(digits[0]);
      hide DigitRun, AllDigits;
    }
  }

  lemma {:induction false} ExponentPartStart(s: string, negative: bool, digits: string)
    requires IsExponentPart(s, negative, digits) && s != ""
    ensures !IsDigit(s[0]) && s[0] != '.'
  {
  }

  lemma {:induction false} MatchFractionComplete(s: string, fraction: string, rest: string, negative: bool, digits: string)
    requires IsFractionPart(s, fraction, rest) && IsExponentPart(rest, negative, digits)
    ensures MatchFraction(s) == Some((fraction, negative, digits))
    ensures s == "" || !IsDigit(s[0])
  {
    MatchExponentExact(rest, negative, digits);
    if rest != "" {
      ExponentPartStart(rest, negative, digits);
    }
    hide MatchExponent, IsExponentPart;
    if fraction != "" {
      Cut(".", fraction + rest);
      Cut(fraction, rest);
      DigitRunAppend(fraction, rest);
      hide DigitRun;
    }
  }

  lemma {:induction false} MatchFractionSound(s: string) returns (rest: string)
    requires MatchFraction(s).Some?
    ensures var f := MatchFraction(s).value;
            IsFractionPart(s, f.0, rest) && IsExponentPart(rest, f.1, f.2)
  {
    hide MatchExponent, IsExponentPart, DigitRun, AllDigits;
    var f := MatchFraction(s).value;
    var pointed := s != "" && s[0] == '.';
    var n := if pointed then DigitRun(s[1..]) else 0;
    rest := if pointed then s[1..][n..] else s;
    MatchExponentExact(rest, f.1, f.2);
    if pointed {
      Rejoin(s, 1);
      Rejoin(s[1..], n);
    }
  }

  /** The matcher finds the pieces of every number. */
  lemma {:induction false} MatchNumberComplete(value: string, l: Lexeme)
    requires Spells(value, l)
    ensures MatchNumber(value) == Some(l)
  {
    var tail, rest :| IsFractionPart(tail, l.fraction, rest) && IsExponentPart(rest, l.expNegative, l.expDigits)
                      && value == Sign(l.negative) + (l.whole + tail);
    MatchFractionComplete(tail, l.fraction, rest, l.expNegative, l.expDigits);
    hide MatchFraction, IsFractionPart, IsExponentPart, Spells;
    var body := l.whole + tail;
    DigitRunAppend(l.whole, tail);
    Cut(l.whole, tail);
    Cut(Sign(l.negative), body);
    assert IsDigit(l.whole[0]) && body[0] == l.whole[0];
    hide DigitRun, AllDigits;
    assert !l.negative ==> value == body;
  }

  lemma {:induction false} MatchNumberSound(value: string)
    requires MatchNumber(value).Some?
    ensures Spells(value, MatchNumber(value).value)
  {
    hide MatchFraction, IsFractionPart, IsExponentPart, DigitRun, AllDigits, Spells;
    var l := MatchNumber(value).value;
    var body := if l.negative then value[1..] else value;
    var n := DigitRun(body);
    var rest := MatchFractionSound(body[n..]);
    Rejoin(body, n);
    assert IsWhole(l.whole) && l.whole == body[..n];
    assert IsFractionPart(body[n..], l.fraction, rest) && IsExponentPart(rest, l.expNegative, l.expDigits);
    if l.negative {
      Rejoin(value, 1);
    } else {
      assert "" + body == body;
    }
    SpellsIntro(value, l, body[n..], rest);
  }

  lemma {:induction false} SpellsIntro(value: string, l: Lexeme, tail: string, rest: string)
    requires IsFractionPart(tail, l.fraction, rest) && IsExponentPart(rest, l.expNegative, l.expDigits)
    requires IsWhole(l.whole) && value == Sign(l.negative) + (l.whole + tail)
    ensures Spells(value, l)
  {
  }

  /** The regular expression accepts exactly the numbers of section 6 of RFC 8259, and their pieces are unique. */
  lemma {:induction false} MatchesExactlyTheGrammar(value: string, l: Lexeme)
    ensures MatchNumber(value) == Some(l) <==> Spells(value, l)
  {
    if MatchNumber(value) == Some(l) {
      MatchNumberSound(value);
    } else if Spells(value, l) {
      MatchNumberComplete(value, l);
    }
  }

  // ----- the value -----

  function Coefficient(l: Lexeme): string
  {
    l.whole + l.fraction
  }

  predicate IsNumber(l: Lexeme)
  {
    IsWhole(l.whole) && AllDigits(l.fraction) && IsDigits(l.expDigits)
  }

  function Signed(negative: bool, n: int): int
  {
    if negative then -n else n
  }

  function ExponentValue(l: Lexeme): int
    requires IsNumber(l)
  {
    Signed(l.expNegative, NatOf(l.expDigits))
  }

  /** The absolute value of the number a lexeme denotes. */
  function Magnitude(l: Lexeme): real
    requires IsNumber(l)
  {
    Scaled(NatOf(Coefficient(l)) as real, ExponentValue(l) - |l.fraction|)
  }

  function ValueOf(l: Lexeme): real
    requires IsNumber(l)
  {
    if l.negative then -Magnitude(l) else Magnitude(l)
  }

  lemma {:induction false} MatchedIsNumber(value: string)
    requires MatchNumber(value).Some?
    ensures IsNumber(MatchNumber(value).value)
  {
    MatchNumberSound(value);
  }

  /** The exponent of the leading digit; zero for a zero. */
  function NormalizedExponent(l: Lexeme): int
    requires IsNumber(l)
  {
    if NatOf(Coefficient(l)) == 0 then 0
    else ExponentValue(l) - |l.fraction| + |TrimLeadingZeros(Coefficient(l))| - 1
  }

  /** The computed exponent locates the value between two powers of ten. */
  lemma {:induction false} ExponentLocatesValue(l: Lexeme)
    requires IsNumber(l)
    ensures Magnitude(l) == 0.0 <==> NatOf(Coefficient(l)) == 0
    ensures Magnitude(l) != 0.0 ==> Pow10(NormalizedExponent(l)) <= Magnitude(l) < Pow10(NormalizedExponent(l) + 1)
  {
    DigitsLocateValue(Coefficient(l), ExponentValue(l) - |l.fraction|);
  }

  lemma {:induction false} DigitsLocateValue(digits: string, x: int)
    requires AllDigits(digits)
    ensures var v, size := Scaled(NatOf(digits) as real, x), |TrimLeadingZeros(digits)|;
            && (v == 0.0 <==> NatOf(digits) == 0)
            && (v != 0.0 ==> Pow10(x + size - 1) <= v < Pow10(x + size))
  {
    hide Scaled, NatOf, TrimLeadingZeros;
    var n := NatOf(digits) as real;
    ScaledLess(n, n, x);
    TrimLeading(digits);
    var t := TrimLeadingZeros(digits);
    hide AllDigits;
    if NatOf(digits) != 0 {
      NatOfBounds(t);
      ScaledLess(n, Pow10(|t| - 1), x);
      ScaledLess(n, Pow10(|t|), x);
      ScaledAdd(1.0, |t| - 1, x);
      ScaledAdd(1.0, |t|, x);
    }
  }

  /** Lexemes of equal value, however written, get the same exponent. */
  lemma {:induction false} EqualValuesEqualExponents(a: Lexeme, b: Lexeme)
    requires IsNumber(a) && IsNumber(b) && Magnitude(a) == Magnitude(b)
    ensures NormalizedExponent(a) == NormalizedExponent(b)
  {
    ExponentLocatesValue(a);
    ExponentLocatesValue(b);
    hide Magnitude, Pow10;
    var e, f := NormalizedExponent(a), NormalizedExponent(b);
    if Magnitude(a) != 0.0 && e < f {
      Pow10Increasing(e, f);
    } else if Magnitude(a) != 0.0 && f < e {
      Pow10Increasing(f, e);
    }
  }

  // ----- the check of exact-json.ts -----

  datatype NumberError = InvalidNumber | DigitLimit | ExponentLimit | NormalizedExponentLimit

  function Abs(x: int): nat
  {
    if x < 0 then -x else x
  }

  /** The verdict, in terms of the value: the first limit that is exceeded, or the exponent of the leading digit. */
  function Verdict(value: string): Result<int, NumberError>
  {
    match MatchNumber(value)
    case None => Failure(InvalidNumber)
    case Some(l) =>
      MatchedIsNumber(value);
      if |Coefficient(l)| > MAX_NUMBER_DIGITS then Failure(DigitLimit)
      else if Abs(ExponentValue(l)) > MAX_EXPONENT_MAGNITUDE then Failure(ExponentLimit)
      else if Abs(NormalizedExponent(l)) > MAX_EXPONENT_MAGNITUDE then Failure(NormalizedExponentLimit)
      else Success(NormalizedExponent(l))
  }

  /** `boundedExponent`, on the captured sign and digits. */
  method BoundedExponent(negative: bool, text: string) returns (r: Result<int, NumberError>)
    requires IsDigits(text)
    ensures var e := Signed(negative, NatOf(text));
            r == if Abs(e) > MAX_EXPONENT_MAGNITUDE then Failure(ExponentLimit) else Success(e)
  {
    var sign := if negative then -1 else 1;
    var digits := TrimLeadingZeros(text);
    TrimLeading(text);
    if |digits| > 4 {
      NatOfBounds(digits);
      FiveDigits(|digits| - 1);
      return Failure(ExponentLimit);
    }
    var magnitude := if digits == "" then 0 else NatOf(digits);
    if magnitude > MAX_EXPONENT_MAGNITUDE {
      return Failure(ExponentLimit);
    }
    return Success(sign * magnitude);
  }

  lemma {:induction false} FiveDigits(k: nat)
    requires k >= 4
    ensures Pow10(k) >= 10000.0
  {
    if k > 4 {
      FiveDigits(k - 1);
    } else {
      assert Scaled(1.0, 2) == 100.0;
    }
  }

  /** `validateNumberLexeme`; the value returned is the local `normalizedExponent`. */
  method ValidateNumberLexeme(value: string) returns (r: Result<int, NumberError>)
    ensures r == Verdict(value)
  {
    hide MatchNumber, NatOf, TrimTrailingZeros, TrimLeadingZeros;
    var matched := MatchNumber(value);
    if matched.None? {
      return Failure(InvalidNumber);
    }
    var l := matched.value;
    MatchedIsNumber(value);
    var coefficient := l.whole + l.fraction;
    if |coefficient| > MAX_NUMBER_DIGITS {
      return Failure(DigitLimit);
    }
    var explicitExponent := BoundedExponent(l.expNegative, l.expDigits);
    if explicitExponent.Failure? {
      return Failure(explicitExponent.error);
    }
    var normalizedExponent := explicitExponent.value - |l.fraction|;
    var significant := TrimLeadingZeros(coefficient);
    TrimLeading(coefficient);
    if significant == "" {
      normalizedExponent := 0;
    } else {
      var normalizedDigits := TrimTrailingZeros(significant);
      TrimTrailingShape(significant);
      var trailingZeros: int := |significant| - |normalizedDigits|;
      normalizedExponent := normalizedExponent + (trailingZeros + |normalizedDigits| - 1);
    }
    if Abs(normalizedExponent) > MAX_EXPONENT_MAGNITUDE {
      return Failure(NormalizedExponentLimit);
    }
    return Success(normalizedExponent);
  }

  /** Leading zeros of the exponent change neither the verdict nor the value. */
  lemma {:induction false} ExponentZerosIrrelevant(l: Lexeme, zeros: string)
    requires IsNumber(l) && AllZeros(zeros)
    ensures var m := l.(expDigits := zeros + l.expDigits);
            IsNumber(m) && ExponentValue(m) == ExponentValue(l) && ValueOf(m) == ValueOf(l)
            && NormalizedExponent(m) == NormalizedExponent(l)
  {
    NatOfZeros(zeros);
    NatOfAppend(zeros, l.expDigits);
    ScaledLess(0.0, 0.0, |l.expDigits|);
  }
}
