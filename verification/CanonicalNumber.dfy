/**
 Decimal normal forms, `canonical/number.rs`.

 `Analyze` and `Normalize` work on raw text, as the source does. On the
 numbers of RFC 8259 they are related to the value of the number, and to the
 verdict of the TypeScript client on the same text.
 */
module CanonicalNumber {
  import opened Wrappers
  import opened NumberLexeme

  const I64_MAX: int := 0x7fff_ffff_ffff_ffff
  const I64_MIN: int := -0x8000_0000_0000_0000

  datatype LimitError = InvalidLimits | DigitsExceeded | ExponentExceeded

  datatype Analyzed = Analyzed(negative: bool, significant: string, scientificExponent: int)

  /** The position of the first `e` or `E`, or -1. */
  function FindMark(s: string): (i: int)
    ensures -1 <= i < |s|
  {
    if s == "" then -1
    else if s[0] == 'e' || s[0] == 'E' then 0
    else var i := FindMark(s[1..]); if i < 0 then -1 else i + 1
  }

  /** The position of the first `.`, or -1. */
  function FindPoint(s: string): (i: int)
    ensures -1 <= i < |s|
  {
    if s == "" then -1
    else if s[0] == '.' then 0
    else var i := FindPoint(s[1..]); if i < 0 then -1 else i + 1
  }

  predicate IsI64(n: int)
  {
    I64_MIN <= n <= I64_MAX
  }

  /** `str::parse::<i64>`. */
  function ParseI64(s: string): Option<int>
  {
    var signed := s != "" && (s[0] == '+' || s[0] == '-');
    var digits := if signed then s[1..] else s;
    if !IsDigits(digits) then None
    else
      var n := Signed(signed && s[0] == '-', NatOf(digits));
      if IsI64(n) then Some(n) else None
  }

  /** `split_exponent`. */
  function SplitExponent(value: string, maxExponent: int): Result<(string, int), LimitError>
  {
    var mark := FindMark(value);
    if mark < 0 then Success((value, 0))
    else match ParseI64(value[mark + 1..])
      case None => Failure(ExponentExceeded)
      case Some(e) => if Abs(e) > maxExponent then Failure(ExponentExceeded) else Success((value[..mark], e))
  }

  function SplitPoint(coefficient: string): (string, string)
  {
    var point := FindPoint(coefficient);
    if point < 0 then (coefficient, "") else (coefficient[..point], coefficient[point + 1..])
  }

  /**
   `analyze`. Lengths of texts fit in 63 bits, so only the additions can leave
   the range of `i64`; each is checked, in the order of the source.
   */
  function Analyze(raw: string, maxDigits: int, maxExponent: int): Result<Analyzed, LimitError>
  {
    if maxDigits <= 0 || maxExponent < 0 then Failure(InvalidLimits)
    else
      var negative := raw != "" && raw[0] == '-';
      match SplitExponent(if negative then raw[1..] else raw, maxExponent)
      case Failure(e) => Failure(e)
      case Success((coefficient, exponent)) =>
        var (integer, fraction) := SplitPoint(coefficient);
        var rawDigits := integer + fraction;
        if |rawDigits| > maxDigits then Failure(DigitsExceeded)
        else
          var withoutLeading := TrimLeadingZeros(rawDigits);
          if withoutLeading == "" then Success(Analyzed(false, "", 0))
          else
            var significant := TrimTrailingZeros(withoutLeading);
            var shifted := exponent - |fraction|;
            var raised := shifted + (|withoutLeading| - |significant|);
            var scientific := raised + (|significant| - 1);
            if !IsI64(shifted) || !IsI64(raised) || !IsI64(scientific) then Failure(ExponentExceeded)
            else if Abs(scientific) > maxExponent then Failure(ExponentExceeded)
            else Success(Analyzed(negative, significant, scientific))
  }

  function Zeros(n: int): string
  {
    if n <= 0 then "" else seq(n, _ => '0')
  }

  /** The plain decimal of an analyzed number. */
  function Plain(a: Analyzed): string
  {
    if a.significant == "" then "0"
    else
      var position := a.scientificExponent + 1;
      Sign(a.negative) +
      if position <= 0 then "0." + Zeros(-position) + a.significant
      else if position >= |a.significant| then a.significant + Zeros(position - |a.significant|)
      else a.significant[..position] + "." + a.significant[position..]
  }

  function Normalize(raw: string): Result<string, LimitError>
  {
    match Analyze(raw, MAX_NUMBER_DIGITS, MAX_EXPONENT_MAGNITUDE)
    case Failure(e) => Failure(e)
    case Success(a) => Success(Plain(a))
  }

  // ----- the pieces of a number of RFC 8259 -----

  lemma {:induction false} FindMarkAt(a: string, rest: string)
    requires forall i :: 0 <= i < |a| ==> a[i] != 'e' && a[i] != 'E'
    requires rest == "" || rest[0] == 'e' || rest[0] == 'E'
    ensures FindMark(a + rest) == if rest == "" then -1 else |a|
  {
    if a == "" {
      assert a + rest == rest;
    } else {
      assert (a + rest)[1..] == a[1..] + rest;
      FindMarkAt(a[1..], rest);
    }
  }

  lemma {:induction false} FindPointAt(a: string, rest: string)
    requires AllDigits(a) && (rest == "" || rest[0] == '.')
    ensures FindPoint(a + rest) == if rest == "" then -1 else |a|
  {
    if a == "" {
      assert a + rest == rest;
    } else {
      assert (a + rest)[1..] == a[1..] + rest;
      FindPointAt(a[1..], rest);
    }
  }

  function Fraction(f: string): string
  {
    if f == "" then "" else "." + f
  }

  lemma {:induction false} SplitPointOfNumber(whole: string, fraction: string)
    requires AllDigits(whole) && AllDigits(fraction)
    ensures SplitPoint(whole + Fraction(fraction)) == (whole, fraction)
  {
    FindPointAt(whole, Fraction(fraction));
    Cut(whole, Fraction(fraction));
    Cut(whole + ".", fraction);
    hide FindPoint, AllDigits;
    if fraction == "" {
      assert whole + "" == whole;
    } else {
      assert whole + "." + fraction == whole + ("." + fraction);
    }
  }

  lemma {:induction false} ParseI64OfExponent(s: string, l: Lexeme)
    requires IsExponentPart(s, l.expNegative, l.expDigits) && s != "" && IsNumber(l)
    ensures var e := ExponentValue(l);
            ParseI64(s[1..]) == if IsI64(e) then Some(e) else None
  {
    Cut("+", l.expDigits);
    Cut("-", l.expDigits);
    assert IsDigit(l.expDigits[0]);
    hide AllDigits, NatOf;
  }

  lemma {:induction false} SplitExponentOfNumber(l: Lexeme, rest: string, maxExponent: nat)
    requires IsNumber(l) && IsExponentPart(rest, l.expNegative, l.expDigits) && maxExponent <= I64_MAX
    ensures SplitExponent(l.whole + Fraction(l.fraction) + rest, maxExponent)
         == if Abs(ExponentValue(l)) > maxExponent then Failure(ExponentExceeded)
            else Success((l.whole + Fraction(l.fraction), ExponentValue(l)))
  {
    var coefficient := l.whole + Fraction(l.fraction);
    FindMarkAt(coefficient, rest);
    Cut(coefficient, rest);
    if rest == "" {
      assert coefficient + rest == coefficient;
      assert l.expDigits[..0] == "" && NatOf("0") == 0;
    } else {
      ParseI64OfExponent(rest, l);
      hide FindMark, ParseI64, IsExponentPart, AllDigits;
      assert (coefficient + rest)[|coefficient| + 1..] == rest[1..];
    }
  }

  /** What the analysis finds, in terms of the pieces of the number. */
  function Analysis(l: Lexeme): Analyzed
    requires IsNumber(l)
  {
    if NatOf(Coefficient(l)) == 0 then Analyzed(false, "", 0)
    else Analyzed(l.negative, TrimTrailingZeros(TrimLeadingZeros(Coefficient(l))), NormalizedExponent(l))
  }

  /** The exponent of the last digit lies below the range of `i64`, although the number may be moderate. */
  predicate Underflows(l: Lexeme)
    requires IsNumber(l)
  {
    NatOf(Coefficient(l)) != 0 && ExponentValue(l) - |l.fraction| < I64_MIN
  }

  function AnalysisResult(l: Lexeme, maxDigits: nat, maxExponent: nat): Result<Analyzed, LimitError>
    requires IsNumber(l)
  {
    if Abs(ExponentValue(l)) > maxExponent then Failure(ExponentExceeded)
    else if |Coefficient(l)| > maxDigits then Failure(DigitsExceeded)
    else if Underflows(l) then Failure(ExponentExceeded)
    else if Abs(NormalizedExponent(l)) > maxExponent then Failure(ExponentExceeded)
    else Success(Analysis(l))
  }

  lemma {:induction false} NumberText(raw: string, l: Lexeme) returns (rest: string)
    requires Spells(raw, l)
    ensures raw == Sign(l.negative) + (l.whole + Fraction(l.fraction) + rest)
    ensures IsExponentPart(rest, l.expNegative, l.expDigits) && IsNumber(l)
  {
    var tail;
    tail, rest :| IsFractionPart(tail, l.fraction, rest) && IsExponentPart(rest, l.expNegative, l.expDigits)
                  && IsWhole(l.whole) && raw == Sign(l.negative) + (l.whole + tail);
    FractionText(tail, l.fraction, rest);
    hide AllDigits, IsExponentPart, Spells, Sign, Fraction;
    Regroup(l.whole, Fraction(l.fraction), rest);
  }

  lemma {:induction false} FractionText(tail: string, fraction: string, rest: string)
    ensures IsFractionPart(tail, fraction, rest) ==> tail == Fraction(fraction) + rest && AllDigits(fraction)
  {
    hide AllDigits;
    if fraction == "" {
      assert "" + rest == rest;
      assert AllDigits("") by { NoDigits(); }
    } else {
      Regroup(".", fraction, rest);
    }
  }

  lemma {:induction false} NoDigits()
    ensures AllDigits("")
  {
  }

  lemma {:induction false} Regroup(a: string, b: string, c: string)
    ensures a + (b + c) == a + b + c
  {
  }

  lemma {:induction false} AnalyzeNumber(raw: string, l: Lexeme, maxDigits: nat, maxExponent: nat)
    requires Spells(raw, l) && 0 < maxDigits && maxExponent <= I64_MAX
    ensures IsNumber(l) && Analyze(raw, maxDigits, maxExponent) == AnalysisResult(l, maxDigits, maxExponent)
  {
    hide SplitExponent, SplitPoint, Spells, NatOf, IsExponentPart, TrimLeadingZeros, TrimTrailingZeros;
    var rest := NumberText(raw, l);
    var body := l.whole + Fraction(l.fraction) + rest;
    Cut(Sign(l.negative), body);
    assert body[0] == l.whole[0] && IsDigit(body[0]);
    assert (if l.negative then raw[1..] else raw) == body by {
      if !l.negative { assert "" + body == body; }
    }
    SplitExponentOfNumber(l, rest, maxExponent);
    SplitPointOfNumber(l.whole, l.fraction);
    TrimLeading(Coefficient(l));
    if TrimLeadingZeros(Coefficient(l)) != "" {
      SomethingStays(TrimLeadingZeros(Coefficient(l)));
    }
    hide AllDigits;
  }

  lemma {:induction false} SomethingStays(s: string)
    requires s != "" && s[0] != '0'
    ensures 1 <= |TrimTrailingZeros(s)| <= |s|
  {
    if s[|s| - 1] == '0' {
      SomethingStays(s[..|s| - 1]);
    }
  }

  /** The verdict on a number by its value: exponent, digits and normalised exponent within the limits. */
  predicate WithinNumberLimits(l: Lexeme, maxDigits: nat, maxExponent: nat)
    requires IsNumber(l)
  {
    Abs(ExponentValue(l)) <= maxExponent && |Coefficient(l)| <= maxDigits && Abs(NormalizedExponent(l)) <= maxExponent
  }

  /**
   The checked additions refuse a number within its limits exactly when they
   underflow, and never when the two limits together fit in `i64`.
   */
  lemma {:induction false} OverflowDecides(raw: string, l: Lexeme, maxDigits: nat, maxExponent: nat)
    requires Spells(raw, l) && 0 < maxDigits && maxExponent <= I64_MAX
    ensures IsNumber(l)
    ensures Analyze(raw, maxDigits, maxExponent).Success? <==> WithinNumberLimits(l, maxDigits, maxExponent) && !Underflows(l)
    ensures WithinNumberLimits(l, maxDigits, maxExponent) && maxExponent + maxDigits <= I64_MAX ==> !Underflows(l)
  {
    hide Spells, Analyze, NatOf, NormalizedExponent, ExponentValue;
    AnalyzeNumber(raw, l, maxDigits, maxExponent);
  }

  /**
   The server accepts exactly the number lexemes the client accepts, although
   the two check the limits in a different order and parse exponents differently.
   */
  lemma {:induction false} SameVerdictAsClient(raw: string)
    requires MatchNumber(raw).Some?
    ensures Analyze(raw, MAX_NUMBER_DIGITS, MAX_EXPONENT_MAGNITUDE).Success? <==> Verdict(raw).Success?
  {
    MatchNumberSound(raw);
    AnalyzeNumber(raw, MatchNumber(raw).value, MAX_NUMBER_DIGITS, MAX_EXPONENT_MAGNITUDE);
  }

  // ----- normal forms -----

  /** No zeros at either end; nothing at all for a zero. */
  predicate IsNormal(a: Analyzed)
  {
    && AllDigits(a.significant)
    && (a.significant == "" ==> a == Analyzed(false, "", 0))
    && (a.significant != "" ==> a.significant[0] != '0' && a.significant[|a.significant| - 1] != '0')
  }

  function AnalyzedMagnitude(a: Analyzed): real
    requires AllDigits(a.significant)
  {
    Scaled(NatOf(a.significant) as real, a.scientificExponent + 1 - |a.significant|)
  }

  /** The analysis is in normal form and denotes the same number. */
  lemma {:induction false} AnalysisKeepsValue(l: Lexeme)
    requires IsNumber(l)
    ensures IsNormal(Analysis(l)) && AnalyzedMagnitude(Analysis(l)) == Magnitude(l)
    ensures Analysis(l).negative <==> l.negative && Magnitude(l) != 0.0
  {
    hide NatOf, Scaled, TrimLeadingZeros, TrimTrailingZeros;
    var digits := Coefficient(l);
    var x := ExponentValue(l) - |l.fraction|;
    TrimLeading(digits);
    var t := TrimLeadingZeros(digits);
    TrimTrailing(t);
    var s := TrimTrailingZeros(t);
    var n := NatOf(digits) as real;
    ScaledLess(n, n, x);
    if NatOf(digits) == 0 {
      NatOfZeros("");
      ScaledLess(0.0, 0.0, 1);
    } else {
      assert s != "" by {
        if s == "" { NatOfZeros(""); ScaledLess(0.0, 0.0, |t|); }
      }
      assert s[0] == t[0];
      ScaledAdd(NatOf(s) as real, |t| - |s|, x);
      hide AllDigits;
    }
  }

  /** Whole digit strings without leading zeros are equal when their values are. */
  lemma {:induction false} NatOfInjective(a: string, b: string)
    requires AllDigits(a) && AllDigits(b) && |a| == |b| && NatOf(a) == NatOf(b)
    ensures a == b
  {
    if a != "" {
      var n := |a| - 1;
      NatOfInjective(a[..n], b[..n]);
      Rejoin(a, n);
      Rejoin(b, n);
      assert DigitOf(a[n]) == DigitOf(b[n]);
    }
  }

  lemma {:induction false} SameLength(a: string, b: string)
    requires AllDigits(a) && AllDigits(b) && a != "" && b != "" && a[0] != '0' && b[0] != '0' && NatOf(a) == NatOf(b)
    ensures |a| == |b|
  {
    NatOfBounds(a);
    NatOfBounds(b);
    hide Pow10, AllDigits, NatOf;
    if |a| < |b| {
      Pow10Increasing(|a| - 1, |b| - 1);
    } else if |b| < |a| {
      Pow10Increasing(|b| - 1, |a| - 1);
    }
  }

  lemma {:induction false} WholeScaled(n: nat, k: nat) returns (m: nat)
    ensures Scaled(n as real, k) == m as real && (k > 0 ==> m % 10 == 0)
  {
    if k == 0 {
      m := n;
    } else {
      var q := WholeScaled(n, k - 1);
      m := 10 * q;
    }
  }

  /** A digit string that does not end in zero is no multiple of ten. */
  lemma {:induction false} LastDigitCounts(a: string)
    requires AllDigits(a) && a != "" && a[|a| - 1] != '0'
    ensures NatOf(a) % 10 != 0 && NatOf(a) > 0
  {
    var d := DigitOf(a[|a| - 1]);
    assert NatOf(a) == 10 * NatOf(a[..|a| - 1]) + d && 0 < d <= 9;
  }

  lemma {:induction false} SameScale(m: nat, j: int, n: nat, k: int)
    requires Scaled(m as real, j) == Scaled(n as real, k) && m % 10 != 0
    ensures k <= j
  {
    if j < k {
      ScaledAdd(n as real, k - j, j);
      ScaledLess(m as real, Scaled(n as real, k - j), j);
      ScaledLess(Scaled(n as real, k - j), m as real, j);
      var q := WholeScaled(n, k - j);
    }
  }

  /** A normal form is determined by the sign and the value. */
  lemma {:induction false} NormalFormUnique(a: Analyzed, b: Analyzed)
    requires IsNormal(a) && IsNormal(b) && a.negative == b.negative && AnalyzedMagnitude(a) == AnalyzedMagnitude(b)
    ensures a == b
  {
    hide NatOf, Scaled;
    var m, n := NatOf(a.significant), NatOf(b.significant);
    var j, k := a.scientificExponent + 1 - |a.significant|, b.scientificExponent + 1 - |b.significant|;
    ScaledLess(m as real, m as real, j);
    ScaledLess(n as real, n as real, k);
    NatOfZeros("");
    if a.significant != "" { LastDigitCounts(a.significant); }
    if b.significant != "" { LastDigitCounts(b.significant); }
    if a.significant != "" && b.significant != "" {
      SameScale(m, j, n, k);
      SameScale(n, k, m, j);
      ScaledLess(m as real, n as real, j);
      ScaledLess(n as real, m as real, j);
      SameLength(a.significant, b.significant);
      NatOfInjective(a.significant, b.significant);
    }
  }

  // ----- the printed form -----

  /** The pieces of a plain decimal. */
  function PlainPieces(a: Analyzed): Lexeme
  {
    var position := a.scientificExponent + 1;
    if a.significant == "" then Lexeme(false, "0", "", false, "0")
    else if position <= 0 then Lexeme(a.negative, "0", Zeros(-position) + a.significant, false, "0")
    else if position >= |a.significant| then
      Lexeme(a.negative, a.significant + Zeros(position - |a.significant|), "", false, "0")
    else Lexeme(a.negative, a.significant[..position], a.significant[position..], false, "0")
  }

  lemma {:induction false} ZerosAre(n: int)
    ensures AllZeros(Zeros(n)) && AllDigits(Zeros(n)) && NatOf(Zeros(n)) == 0 && |Zeros(n)| == if n <= 0 then 0 else n
  {
    NatOfZeros(Zeros(n));
  }

  lemma {:induction false} DigitsAppend(a: string, b: string)
    requires AllDigits(a) && AllDigits(b)
    ensures AllDigits(a + b)
  {
  }

  lemma {:induction false} DigitsCut(a: string, n: nat)
    requires AllDigits(a) && n <= |a|
    ensures AllDigits(a[..n]) && AllDigits(a[n..])
  {
  }

  lemma {:induction false} OneZero()
    ensures IsWhole("0") && NatOf("0") == 0
  {
    assert "0"[..0] == "";
  }

  lemma {:induction false} PiecesAreNumber(a: Analyzed)
    requires IsNormal(a)
    ensures IsNumber(PlainPieces(a))
  {
    OneZero();
    var position := a.scientificExponent + 1;
    if a.significant != "" {
      ZerosAre(-position);
      ZerosAre(position - |a.significant|);
      DigitsAppend(Zeros(-position), a.significant);
      DigitsAppend(a.significant, Zeros(position - |a.significant|));
      if 0 <= position <= |a.significant| { DigitsCut(a.significant, position); }
    }
    NoDigits();
    hide AllDigits, NatOf, Zeros;
  }

  /** A plain decimal is a number of RFC 8259 without an exponent. */
  lemma {:induction false} PlainSpelled(a: Analyzed)
    requires IsNormal(a)
    ensures Spells(Plain(a), PlainPieces(a))
  {
    var l := PlainPieces(a);
    PiecesAreNumber(a);
    hide AllDigits, NatOf, Zeros, Spells, Sign;
    assert IsExponentPart("", false, "0");
    assert Plain(a) == Sign(l.negative) + (l.whole + Fraction(l.fraction)) by { PlainText(a); }
    assert IsFractionPart(Fraction(l.fraction), l.fraction, "") by {
      hide IsNumber, PlainPieces;
      assert l.fraction + "" == l.fraction;
    }
    SpellsIntro(Plain(a), l, Fraction(l.fraction), "");
  }

  lemma {:induction false} PlainText(a: Analyzed)
    requires IsNormal(a)
    ensures var l := PlainPieces(a); Plain(a) == Sign(l.negative) + (l.whole + Fraction(l.fraction))
  {
    hide AllDigits, Zeros;
    var l := PlainPieces(a);
    var position := a.scientificExponent + 1;
    if a.significant == "" {
      assert Sign(false) + ("0" + "") == "0";
    } else if position <= 0 {
      assert "0." + Zeros(-position) + a.significant == "0" + ("." + (Zeros(-position) + a.significant));
    } else if position >= |a.significant| {
      assert l.whole + "" == l.whole;
    } else {
      assert l.whole + "." + l.fraction == l.whole + ("." + l.fraction);
    }
  }

  lemma {:induction false} PadLeft(n: int, s: string)
    requires AllDigits(s)
    ensures AllDigits("0" + (Zeros(n) + s)) && NatOf("0" + (Zeros(n) + s)) == NatOf(s)
  {
    OneZero();
    ZerosAre(n);
    DigitsAppend("0", Zeros(n));
    Regroup("0", Zeros(n), s);
    hide Zeros, NatOf, AllDigits, Scaled;
    NatOfAppend("0", Zeros(n));
    NatOfAppend("0" + Zeros(n), s);
    ScaledLess(0.0, 0.0, |Zeros(n)|);
    ScaledLess(0.0, 0.0, |s|);
  }

  lemma {:induction false} PadRight(s: string, n: int)
    requires AllDigits(s) && n >= 0
    ensures AllDigits(s + Zeros(n)) && NatOf(s + Zeros(n)) as real == Scaled(NatOf(s) as real, n)
  {
    ZerosAre(n);
    NatOfAppend(s, Zeros(n));
  }

  lemma {:induction false} PlainMagnitude(a: Analyzed)
    requires IsNormal(a)
    ensures IsNumber(PlainPieces(a)) && ExponentValue(PlainPieces(a)) == 0
    ensures Magnitude(PlainPieces(a)) == AnalyzedMagnitude(a)
  {
    hide AllDigits, NatOf, Zeros, Scaled, IsWhole;
    PiecesAreNumber(a);
    OneZero();
    var l := PlainPieces(a);
    var position := a.scientificExponent + 1;
    var s := a.significant;
    if s == "" {
      assert Coefficient(l) == "0";
      assert NatOf("") == 0 by { NatOfZeros(""); }
      ScaledLess(0.0, 0.0, 0);
      ScaledLess(0.0, 0.0, 1);
    } else if position <= 0 {
      PadLeft(-position, s);
      ZerosAre(-position);
      assert |l.fraction| == -position + |s|;
    } else if position >= |s| {
      PadRight(s, position - |s|);
      assert Coefficient(l) == l.whole;
      ScaledZero(NatOf(Coefficient(l)) as real);
    } else {
      Rejoin(s, position);
      assert Coefficient(l) == s;
    }
  }

  lemma {:induction false} ScaledZero(x: real)
    ensures Scaled(x, 0) == x
  {
  }

  /** The digits a normal form needs in plain notation. */
  function PlainDigits(a: Analyzed): nat
  {
    var position := a.scientificExponent + 1;
    if a.significant == "" then 1
    else if position <= 0 then 1 - position + |a.significant|
    else if position >= |a.significant| then position
    else |a.significant|
  }

  /** Reading a printed normal form gives it back. */
  lemma {:induction false} AnalysisOfPlain(a: Analyzed)
    requires IsNormal(a)
    ensures MatchNumber(Plain(a)) == Some(PlainPieces(a)) && IsNumber(PlainPieces(a))
    ensures Analysis(PlainPieces(a)) == a && |Coefficient(PlainPieces(a))| == PlainDigits(a)
  {
    hide AllDigits, NatOf, Scaled, AnalyzedMagnitude, Magnitude, MatchNumber, Plain, Spells, NormalizedExponent, ExponentValue, Analysis;
    var l := PlainPieces(a);
    PlainSpelled(a);
    MatchNumberComplete(Plain(a), l);
    PlainMagnitude(a);
    AnalysisKeepsValue(l);
    PlainSize(a);
    NonzeroMagnitude(a);
    assert a.significant == "" ==> !l.negative && !a.negative;
    hide PlainPieces;
    assert l.negative == a.negative by { PlainSign(a); }
    NormalFormUnique(Analysis(l), a);
  }

  lemma {:induction false} PlainSign(a: Analyzed)
    requires IsNormal(a)
    ensures PlainPieces(a).negative == a.negative
  {
  }

  lemma {:induction false} NonzeroMagnitude(a: Analyzed)
    requires IsNormal(a)
    ensures a.significant != "" <==> AnalyzedMagnitude(a) != 0.0
  {
    var n := NatOf(a.significant) as real;
    ScaledLess(n, n, a.scientificExponent + 1 - |a.significant|);
    if a.significant != "" {
      LastDigitCounts(a.significant);
    } else {
      NatOfZeros("");
    }
  }

  lemma {:induction false} PlainSize(a: Analyzed)
    requires IsNormal(a)
    ensures |Coefficient(PlainPieces(a))| == PlainDigits(a)
  {
    hide AllDigits, NatOf;
    ZerosAre(-(a.scientificExponent + 1));
    ZerosAre(a.scientificExponent + 1 - |a.significant|);
  }

  // ----- the main results -----

  lemma {:induction false} NormalizeOf(raw: string) returns (l: Lexeme)
    requires MatchNumber(raw).Some?
    ensures MatchNumber(raw) == Some(l) && IsNumber(l) && IsNormal(Analysis(l))
    ensures AnalyzedMagnitude(Analysis(l)) == Magnitude(l) && (Analysis(l).negative <==> l.negative && Magnitude(l) != 0.0)
    ensures Normalize(raw).Success? ==> Normalize(raw).value == Plain(Analysis(l)) && Abs(NormalizedExponent(l)) <= MAX_EXPONENT_MAGNITUDE
  {
    l := MatchNumber(raw).value;
    MatchNumberSound(raw);
    AnalyzeNumber(raw, l, MAX_NUMBER_DIGITS, MAX_EXPONENT_MAGNITUDE);
    AnalysisKeepsValue(l);
  }

  /** Normalising keeps the value, and the result is a number of RFC 8259 without an exponent. */
  lemma {:induction false} NormalizeKeepsValue(raw: string)
    requires MatchNumber(raw).Some? && Normalize(raw).Success?
    ensures var t := Normalize(raw).value;
            && MatchNumber(t).Some? && IsNumber(MatchNumber(t).value) && IsNumber(MatchNumber(raw).value)
            && ValueOf(MatchNumber(t).value) == ValueOf(MatchNumber(raw).value)
            && 'e' !in t && 'E' !in t
  {
    hide Magnitude, AnalyzedMagnitude, Analysis, Plain, PlainPieces, MatchNumber, Normalize, IsNormal, IsNumber;
    var l := NormalizeOf(raw);
    var a := Analysis(l);
    AnalysisOfPlain(a);
    PlainMagnitude(a);
    PlainHasNoMark(a);
    PlainSign(a);
  }

  lemma {:induction false} DigitsHaveNoMark(s: string)
    requires AllDigits(s)
    ensures 'e' !in s && 'E' !in s && '-' !in s && '.' !in s
  {
  }

  lemma {:induction false} PlainHasNoMark(a: Analyzed)
    requires IsNormal(a)
    ensures 'e' !in Plain(a) && 'E' !in Plain(a)
  {
    PlainText(a);
    PiecesAreNumber(a);
    var l := PlainPieces(a);
    DigitsHaveNoMark(l.whole);
    DigitsHaveNoMark(l.fraction);
    hide AllDigits, Plain, PlainPieces;
  }

  /** Two accepted numbers are printed alike exactly when they are equal as numbers. */
  lemma {:induction false} NormalizeIsCanonical(raw: string, other: string)
    requires MatchNumber(raw).Some? && MatchNumber(other).Some?
    requires Normalize(raw).Success? && Normalize(other).Success?
    ensures IsNumber(MatchNumber(raw).value) && IsNumber(MatchNumber(other).value)
    ensures Normalize(raw) == Normalize(other) <==> ValueOf(MatchNumber(raw).value) == ValueOf(MatchNumber(other).value)
  {
    hide Magnitude, AnalyzedMagnitude, Analysis, Plain, PlainPieces, MatchNumber, Normalize, IsNormal, IsNumber;
    var l := NormalizeOf(raw);
    var m := NormalizeOf(other);
    AnalysisOfPlain(Analysis(l));
    AnalysisOfPlain(Analysis(m));
    MagnitudeSign(l);
    MagnitudeSign(m);
    if ValueOf(l) == ValueOf(m) {
      NormalFormUnique(Analysis(l), Analysis(m));
    }
  }

  lemma {:induction false} MagnitudeSign(l: Lexeme)
    requires IsNumber(l)
    ensures Magnitude(l) >= 0.0
  {
    var n := NatOf(Coefficient(l)) as real;
    var x := ExponentValue(l) - |l.fraction|;
    ScaledLess(n, 0.0, x);
    ScaledLess(0.0, 0.0, x);
  }

  // ----- the printed form without reference to the printer -----

  /** Pieces of a number without an exponent, without zeros at the end of its fraction, and without a sign on zero. */
  predicate IsPlainNumber(l: Lexeme)
  {
    && IsNumber(l) && !l.expNegative && l.expDigits == "0"
    && (l.fraction == "" || l.fraction[|l.fraction| - 1] != '0') && (l.negative ==> Magnitude(l) != 0.0)
  }

  function PlainWritten(l: Lexeme): string
  {
    Sign(l.negative) + (l.whole + Fraction(l.fraction))
  }

  lemma {:induction false} NatOfBelow(s: string)
    requires AllDigits(s)
    ensures NatOf(s) as real < Pow10(|s|)
  {
    if s != "" {
      var init := s[..|s| - 1];
      NatOfBelow(init);
      WholeBelow(NatOf(init), |init|);
    }
  }

  /** Of two digit strings of equal value, the longer begins with a zero. */
  lemma {:induction false} NotLonger(a: string, b: string)
    requires AllDigits(a) && AllDigits(b) && a != "" && a[0] != '0' && NatOf(a) == NatOf(b)
    ensures |a| <= |b|
  {
    NatOfBounds(a);
    NatOfBelow(b);
    hide Pow10, AllDigits, NatOf;
    if |b| < |a| - 1 { Pow10Increasing(|b|, |a| - 1); }
  }

  lemma {:induction false} PlainScale(l: Lexeme)
    requires IsPlainNumber(l)
    ensures AllDigits(Coefficient(l)) && Magnitude(l) == Scaled(NatOf(Coefficient(l)) as real, -|l.fraction|)
    ensures l.fraction != "" ==> NatOf(Coefficient(l)) % 10 != 0
    ensures |l.whole| > 1 ==> Coefficient(l)[0] != '0'
  {
    hide Scaled;
    OneZero();
    NatOfAppend(l.whole, l.fraction);
    var digits := Coefficient(l);
    if l.fraction != "" {
      assert digits[|digits| - 1] == l.fraction[|l.fraction| - 1];
      LastDigitCounts(digits);
    }
  }

  lemma {:induction false} PlainPiecesUnique(l: Lexeme, m: Lexeme)
    requires IsPlainNumber(l) && IsPlainNumber(m) && Magnitude(l) == Magnitude(m)
    ensures l.whole == m.whole && l.fraction == m.fraction
  {
    hide Scaled, Magnitude, AllDigits, NatOf;
    PlainScale(l);
    PlainScale(m);
    var a, b := Coefficient(l), Coefficient(m);
    var j, k := -|l.fraction|, -|m.fraction|;
    if j < 0 { SameScale(NatOf(a), j, NatOf(b), k); }
    if k < 0 { SameScale(NatOf(b), k, NatOf(a), j); }
    assert j == k;
    ScaledLess(NatOf(a) as real, NatOf(b) as real, j);
    ScaledLess(NatOf(b) as real, NatOf(a) as real, j);
    assert NatOf(a) == NatOf(b);
    if |l.whole| > 1 { NotLonger(a, b); }
    if |m.whole| > 1 { NotLonger(b, a); }
    NatOfInjective(a, b);
    Cut(l.whole, l.fraction);
    Cut(m.whole, m.fraction);
  }

  /** A number has only one plain text. */
  lemma {:induction false} PlainUnique(l: Lexeme, m: Lexeme)
    requires IsPlainNumber(l) && IsPlainNumber(m) && ValueOf(l) == ValueOf(m)
    ensures l == m
  {
    MagnitudeSign(l);
    MagnitudeSign(m);
    hide Magnitude;
    PlainPiecesUnique(l, m);
  }

  lemma {:induction false} PlainPiecesArePlain(a: Analyzed)
    requires IsNormal(a)
    ensures IsPlainNumber(PlainPieces(a)) && PlainWritten(PlainPieces(a)) == Plain(a)
  {
    PlainText(a);
    PlainMagnitude(a);
    NonzeroMagnitude(a);
    LastOfPlain(a);
    PlainSign(a);
    hide Magnitude, AnalyzedMagnitude, AllDigits, NatOf, Zeros, Plain, IsWhole;
  }

  lemma {:induction false} LastOfPlain(a: Analyzed)
    requires IsNormal(a)
    ensures var f := PlainPieces(a).fraction; f == "" || f[|f| - 1] != '0'
  {
    hide AllDigits, Zeros;
  }

  /**
   The printed number is the one text with the same value that is a number of
   RFC 8259 without an exponent, without zeros at the end of its fraction,
   and without a sign on zero.
   */
  lemma {:induction false} NormalizeIsThePlainText(raw: string, t: string)
    requires MatchNumber(raw).Some? && Normalize(raw).Success?
    ensures IsNumber(MatchNumber(raw).value)
    ensures Normalize(raw).value == t
       <==> exists l :: IsPlainNumber(l) && ValueOf(l) == ValueOf(MatchNumber(raw).value) && t == PlainWritten(l)
  {
    hide Magnitude, AnalyzedMagnitude, Plain, PlainPieces, PlainWritten, MatchNumber, Normalize, IsNormal, IsNumber;
    var l := NormalizeOf(raw);
    var a := Analysis(l);
    PlainPiecesArePlain(a);
    PlainMagnitude(a);
    PlainSign(a);
    assert ValueOf(PlainPieces(a)) == ValueOf(l);
    forall m | IsPlainNumber(m) && ValueOf(m) == ValueOf(l) ensures m == PlainPieces(a) {
      PlainUnique(m, PlainPieces(a));
    }
  }

  /**
   Printed numbers can be read back, and print the same again, exactly when
   their plain notation stays within the digit limit: the limit is checked
   on what was written, and plain notation may be longer.
   */
  lemma {:induction false} NormalizeAgain(raw: string)
    requires MatchNumber(raw).Some? && Normalize(raw).Success?
    ensures IsNumber(MatchNumber(raw).value)
    ensures var t := Normalize(raw).value;
            && (Normalize(t).Success? <==> PlainDigits(Analysis(MatchNumber(raw).value)) <= MAX_NUMBER_DIGITS)
            && (Normalize(t).Success? ==> Normalize(t) == Success(t))
  {
    hide Magnitude, AnalyzedMagnitude, Analysis, Plain, PlainPieces, PlainDigits, MatchNumber, Analyze, NormalizedExponent,
         ExponentValue, Coefficient, IsNormal, IsNumber, Spells;
    var l := NormalizeOf(raw);
    var a := Analysis(l);
    AnalysisOfPlain(a);
    PlainMagnitude(a);
    PlainSpelled(a);
    AnalyzeNumber(Plain(a), PlainPieces(a), MAX_NUMBER_DIGITS, MAX_EXPONENT_MAGNITUDE);
    OverflowDecides(Plain(a), PlainPieces(a), MAX_NUMBER_DIGITS, MAX_EXPONENT_MAGNITUDE);
    assert Magnitude(PlainPieces(a)) == Magnitude(l);
    EqualValuesEqualExponents(PlainPieces(a), l);
  }

  lemma {:induction false} OneThen200() returns (l: Lexeme)
    ensures l == Lexeme(false, "1", "", false, "200") && IsNumber(l) && Spells("1e200", l)
    ensures NatOf(Coefficient(l)) == 1 && ExponentValue(l) == 200 && NormalizedExponent(l) == 200
  {
    l := Lexeme(false, "1", "", false, "200");
    SpellsIntro("1e200", l, "e200", "e200");
    assert "200"[..2] == "20" && "20"[..1] == "2" && "2"[..0] == "" && "1"[..0] == "";
    assert NatOf("2") == 2 && NatOf("20") == 20 && NatOf("200") == 200;
  }

  /** `1e200` has a canonical text, but that text of 201 digits is refused. */
  lemma {:induction false} CanonicalTextMayBeRefused()
    ensures Normalize("1e200").Success? && Normalize(Normalize("1e200").value).Failure?
  {
    var l := OneThen200();
    MatchesExactlyTheGrammar("1e200", l);
    AnalyzeNumber("1e200", l, MAX_NUMBER_DIGITS, MAX_EXPONENT_MAGNITUDE);
    hide MatchNumber, Analyze, Spells, NatOf, ExponentValue, NormalizedExponent, Plain;
    SomethingStays("1");
    NormalizeAgain("1e200");
  }

  /**
   An example of `Underflows` at the widest limit: `1.00` with the exponent
   -9223372036854775807 has that same scientific exponent, but the addition
   on the way to it leaves `i64`.
   */
  lemma {:induction false} WidestLimitUnderflows(digits: string)
    requires IsDigits(digits) && NatOf(digits) == I64_MAX
    ensures var l := Lexeme(false, "1", "00", true, digits);
            IsNumber(l) && WithinNumberLimits(l, MAX_NUMBER_DIGITS, I64_MAX) && Underflows(l)
  {
    var l := Lexeme(false, "1", "00", true, digits);
    assert IsNumber(l);
    assert "100"[..2] == "10" && "10"[..1] == "1" && "1"[..0] == "";
    assert NatOf("1") == 1 && NatOf("10") == 10 && NatOf("100") == 100;
    assert Coefficient(l) == "100" && TrimLeadingZeros("100") == "100";
  }
}
