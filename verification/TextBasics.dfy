/** Small functions on texts that several modules share. */
module TextBasics {
  import opened Wrappers

  function Concat<T>(parts: seq<seq<T>>): seq<T>
  {
    if parts == [] then [] else parts[0] + Concat(parts[1..])
  }

  function HexDigit(n: nat): char
    requires n < 16
  {
    "0123456789abcdef"[n]
  }

  function HexValue(c: char): Option<nat>
  {
    if '0' <= c <= '9' then Some(c as int - '0' as int)
    else if 'a' <= c <= 'f' then Some(c as int - 'a' as int + 10)
    else if 'A' <= c <= 'F' then Some(c as int - 'A' as int + 10)
    else None
  }

  lemma HexBack(n: nat)
    requires n < 16
    ensures HexValue(HexDigit(n)) == Some(n)
  {
  }

  /** Length of the UTF-8 form of a text of Unicode scalar values. */
  function Utf8Length(s: string): nat
  {
    if s == "" then 0
    else
      var c := s[0] as int;
      (if c < 0x80 then 1 else if c < 0x800 then 2 else if c < 0x10000 then 3 else 4) + Utf8Length(s[1..])
  }

  // ----- bytes -----

  /** The UTF-8 form of a scalar value (section 3 of RFC 3629). */
  function Utf8(c: char): seq<int>
  {
    var n := c as int;
    if n < 0x80 then [n]
    else if n < 0x800 then [0xC0 + n / 64, 0x80 + n % 64]
    else if n < 0x10000 then [0xE0 + n / 4096, 0x80 + n / 64 % 64, 0x80 + n % 64]
    else [0xF0 + n / 262144, 0x80 + n / 4096 % 64, 0x80 + n / 64 % 64, 0x80 + n % 64]
  }

  function Utf8Bytes(s: string): seq<int>
  {
    if s == "" then [] else Utf8(s[0]) + Utf8Bytes(s[1..])
  }

  lemma {:induction false} Utf8LengthCounts(s: string)
    ensures |Utf8Bytes(s)| == Utf8Length(s)
  {
    if s != "" { Utf8LengthCounts(s[1..]); }
  }

  /** `u` and `v` agree up to position `n`, and there `u` ends or has the smaller element. */
  predicate SmallerAt(u: seq<int>, v: seq<int>, n: nat)
  {
    n < |v| && n <= |u| && u[..n] == v[..n] && (n == |u| || u[n] < v[n])
  }

  /** Lexicographic order: a proper prefix, or smaller at the first difference. */
  ghost predicate LexBefore(u: seq<int>, v: seq<int>)
  {
    exists n: nat :: SmallerAt(u, v, n)
  }

  lemma {:induction false} Agree(u: seq<int>, v: seq<int>, n: nat)
    requires n <= |u| && n <= |v| && u[..n] == v[..n]
    ensures forall i :: 0 <= i < n ==> u[i] == v[i]
  {
    assert forall i :: 0 <= i < n ==> u[i] == u[..n][i] && v[i] == v[..n][i];
  }

  lemma {:induction false} LexAsymmetric(u: seq<int>, v: seq<int>)
    requires LexBefore(u, v)
    ensures !LexBefore(v, u)
  {
    var n: nat :| SmallerAt(u, v, n);
    Agree(u, v, n);
    forall m: nat ensures !SmallerAt(v, u, m) {
      if SmallerAt(v, u, m) { Agree(v, u, m); }
    }
  }

  lemma {:induction false} LexBehind(prefix: seq<int>, u: seq<int>, v: seq<int>)
    requires LexBefore(u, v)
    ensures LexBefore(prefix + u, prefix + v)
  {
    var n: nat :| SmallerAt(u, v, n);
    assert (prefix + u)[..|prefix| + n] == prefix + u[..n];
    assert (prefix + v)[..|prefix| + n] == prefix + v[..n];
    assert SmallerAt(prefix + u, prefix + v, |prefix| + n);
  }

  lemma {:induction false} LexInFront(u: seq<int>, v: seq<int>, n: nat, a: seq<int>, b: seq<int>)
    requires SmallerAt(u, v, n) && n < |u|
    ensures LexBefore(u + a, v + b)
  {
    assert (u + a)[..n] == u[..n] && (v + b)[..n] == v[..n];
    assert SmallerAt(u + a, v + b, n);
  }

  /** The base-64 digits that UTF-8 spreads over its bytes. */
  lemma {:induction false} SixBits(n: nat)
    ensures n == 64 * (n / 64) + n % 64 && 0 <= n % 64 < 64
    ensures n / 4096 == n / 64 / 64 && n / 262144 == n / 64 / 64 / 64
  {
  }

  /** The first of two numbers to differ in their leading digits is the smaller one. */
  lemma {:induction false} DigitsDecide(x: nat, y: nat)
    requires x < y
    ensures x / 64 < y / 64 || (x / 64 == y / 64 && x % 64 < y % 64)
    ensures x / 64 <= y / 64
  {
    SixBits(x);
    SixBits(y);
  }

  /** UTF-8 keeps the order of scalar values: some byte decides before either form ends. */
  lemma {:induction false} Utf8Order(c: char, d: char) returns (n: nat)
    requires c < d
    ensures SmallerAt(Utf8(c), Utf8(d), n) && n < |Utf8(c)|
  {
    hide Utf8, SmallerAt;
    var x, y := c as int, d as int;
    if x < 0x80 || (x < 0x800 <= y) || (x < 0x10000 <= y) {
      FirstByte(c, d);
      n := 0;
    } else if x < 0x800 {
      n := TwoBytes(c, d);
    } else if x < 0x10000 {
      n := ThreeBytes(c, d);
    } else {
      n := FourBytes(c, d);
    }
  }

  lemma {:induction false} FirstByte(c: char, d: char)
    requires c < d && (c as int < 0x80 || (c as int < 0x800 <= d as int) || (c as int < 0x10000 <= d as int))
    ensures SmallerAt(Utf8(c), Utf8(d), 0) && 0 < |Utf8(c)|
  {
  }

  lemma {:induction false} TwoBytes(c: char, d: char) returns (n: nat)
    requires 0x80 <= c as int < d as int < 0x800
    ensures SmallerAt(Utf8(c), Utf8(d), n) && n < |Utf8(c)|
  {
    var x, y: nat := c as int, d as int;
    DigitsDecide(x, y);
    n := if x / 64 < y / 64 then 0 else 1;
  }

  lemma {:induction false} ThreeBytes(c: char, d: char) returns (n: nat)
    requires 0x800 <= c as int < d as int < 0x10000
    ensures SmallerAt(Utf8(c), Utf8(d), n) && n < |Utf8(c)|
  {
    var x, y: nat := c as int, d as int;
    DigitsDecide(x, y);
    SixBits(x);
    SixBits(y);
    if x / 64 == y / 64 {
      n := 2;
    } else {
      DigitsDecide(x / 64, y / 64);
      n := if x / 4096 == y / 4096 then 1 else 0;
    }
  }

  lemma {:induction false} FourBytes(c: char, d: char) returns (n: nat)
    requires 0x10000 <= c as int < d as int
    ensures SmallerAt(Utf8(c), Utf8(d), n) && n < |Utf8(c)|
  {
    var x, y: nat := c as int, d as int;
    DigitsDecide(x, y);
    SixBits(x);
    SixBits(y);
    if x / 64 == y / 64 {
      n := 3;
    } else {
      DigitsDecide(x / 64, y / 64);
      if x / 4096 == y / 4096 {
        n := 2;
      } else {
        DigitsDecide(x / 4096, y / 4096);
        n := if x / 262144 == y / 262144 then 1 else 0;
      }
    }
  }
}
