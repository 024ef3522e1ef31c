/**
 JSON Pointers: the escaping of `context_merge.rs`, the validator of
 `selector.rs`, and the reading of a pointer as sections 3 and 4 of RFC 6901
 and `serde_json::Value::pointer` give it.
 */
module JsonPointer {
  import opened Wrappers
  import opened Json

  // ----- escaping -----

  /** `str::replace` of one character by a string. */
  function ReplaceChar(s: string, c: char, into: string): string
  {
    if s == "" then ""
    else (if s[0] == c then into else [s[0]]) + ReplaceChar(s[1..], c, into)
  }

  /** `str::replace` of a two-character pattern: leftmost, non-overlapping. */
  function ReplacePair(s: string, c: char, d: char, into: char): string
  {
    if s == "" then ""
    else if |s| >= 2 && s[0] == c && s[1] == d then [into] + ReplacePair(s[2..], c, d, into)
    else [s[0]] + ReplacePair(s[1..], c, d, into)
  }

  /** The two replacements of the source, one after the other. */
  function Escape(key: string): string
  {
    ReplaceChar(ReplaceChar(key, '~', "~0"), '/', "~1")
  }

  /** Section 4 of RFC 6901: first `~1`, then `~0`. */
  function Unescape(token: string): string
  {
    ReplacePair(ReplacePair(token, '~', '1', '/'), '~', '0', '~')
  }

  /** What escaping is meant to be: one substitution per character. */
  function EscapedChar(c: char): string
  {
    if c == '~' then "~0" else if c == '/' then "~1" else [c]
  }

  function EscapeOnePass(key: string): string
  {
    if key == "" then "" else EscapedChar(key[0]) + EscapeOnePass(key[1..])
  }

  lemma {:induction false} ReplaceCharAppend(a: string, b: string, c: char, into: string)
    ensures ReplaceChar(a + b, c, into) == ReplaceChar(a, c, into) + ReplaceChar(b, c, into)
  {
    if a == "" {
      assert a + b == b;
    } else {
      assert (a + b)[1..] == a[1..] + b;
      ReplaceCharAppend(a[1..], b, c, into);
    }
  }

  /** The two sequential replacements amount to a single pass. */
  lemma {:induction false} EscapeIsOnePass(key: string)
    ensures Escape(key) == EscapeOnePass(key)
  {
    if key != "" {
      var head := if key[0] == '~' then "~0" else [key[0]];
      ReplaceCharAppend(head, ReplaceChar(key[1..], '~', "~0"), '/', "~1");
      assert head[1..] == "" || (head[1..] == "0" && head[1..][1..] == "");
      EscapeIsOnePass(key[1..]);
    }
  }

  /** Every `~` is followed by `0` or `1`. */
  predicate EscapesOk(s: string)
  {
    s == "" ||
    if s[0] == '~' then |s| >= 2 && (s[1] == '0' || s[1] == '1') && EscapesOk(s[2..])
    else EscapesOk(s[1..])
  }

  function UnescapeOnePass(s: string): string
  {
    if s == "" then ""
    else if |s| >= 2 && s[0] == '~' && s[1] == '0' then ['~'] + UnescapeOnePass(s[2..])
    else if |s| >= 2 && s[0] == '~' && s[1] == '1' then ['/'] + UnescapeOnePass(s[2..])
    else [s[0]] + UnescapeOnePass(s[1..])
  }

  /** On well-formed tokens the order prescribed by RFC 6901 is a single pass. */
  lemma {:induction false} UnescapeIsOnePass(token: string)
    requires EscapesOk(token)
    ensures Unescape(token) == UnescapeOnePass(token)
  {
    if token != "" {
      if token[0] == '~' {
        UnescapeIsOnePass(token[2..]);
        var rest := ReplacePair(token[2..], '~', '1', '/');
        if token[1] == '0' {
          assert token[1..][1..] == token[2..];
          assert ReplacePair(token, '~', '1', '/') == ['~'] + (['0'] + rest) == ['~', '0'] + rest;
          assert (['~', '0'] + rest)[2..] == rest;
        } else {
          assert (['/'] + rest)[1..] == rest;
        }
      } else {
        UnescapeIsOnePass(token[1..]);
        var rest := ReplacePair(token[1..], '~', '1', '/');
        assert ([token[0]] + rest)[1..] == rest;
      }
    }
  }

  lemma {:induction false} EscapeWellFormed(key: string)
    ensures EscapesOk(Escape(key)) && '/' !in Escape(key)
  {
    EscapeIsOnePass(key);
    if key != "" {
      EscapeWellFormed(key[1..]);
      EscapeIsOnePass(key[1..]);
      var rest := EscapeOnePass(key[1..]);
      assert EscapedChar(key[0]) + rest == EscapeOnePass(key);
      assert EscapeOnePass(key)[|EscapedChar(key[0])|..] == rest;
    }
  }

  /** Unescaping undoes escaping, so escaping is injective. */
  lemma {:induction false} UnescapeEscape(key: string)
    ensures Unescape(Escape(key)) == key
  {
    EscapeWellFormed(key);
    UnescapeIsOnePass(Escape(key));
    EscapeIsOnePass(key);
    if key != "" {
      UnescapeEscape(key[1..]);
      EscapeWellFormed(key[1..]);
      UnescapeIsOnePass(Escape(key[1..]));
      EscapeIsOnePass(key[1..]);
      var rest := EscapeOnePass(key[1..]);
      assert EscapeOnePass(key)[|EscapedChar(key[0])|..] == rest;
    }
  }

  /** Well-formed tokens are exactly the escaped forms of their own unescaping. */
  lemma {:induction false} EscapeUnescape(token: string)
    requires EscapesOk(token) && '/' !in token
    ensures Escape(Unescape(token)) == token
  {
    UnescapeIsOnePass(token);
    EscapeIsOnePass(UnescapeOnePass(token));
    if token != "" {
      var n := if token[0] == '~' then 2 else 1;
      var rest := UnescapeOnePass(token[n..]);
      EscapeUnescape(token[n..]);
      UnescapeIsOnePass(token[n..]);
      EscapeIsOnePass(rest);
      assert UnescapeOnePass(token)[1..] == rest;
      assert token == token[..n] + token[n..];
    }
  }

  // ----- building and reading a pointer -----

  /** How the merge builds a path: one `/` and one escaped key per level. */
  function Render(tokens: seq<string>): string
  {
    if tokens == [] then "" else "/" + Escape(tokens[0]) + Render(tokens[1..])
  }

  /** `str::split('/')`. */
  function Split(s: string): (parts: seq<string>)
    ensures parts != []
  {
    if s == "" then [""]
    else if s[0] == '/' then [""] + Split(s[1..])
    else var rest := Split(s[1..]); [[s[0]] + rest[0]] + rest[1..]
  }

  function UnescapeAll(parts: seq<string>): (r: seq<string>)
    ensures |r| == |parts|
  {
    if parts == [] then [] else [Unescape(parts[0])] + UnescapeAll(parts[1..])
  }

  /** The keys a pointer names: split at `/`, drop the empty first part, unescape. */
  function Parse(pointer: string): seq<string>
  {
    if pointer == "" then [] else UnescapeAll(Split(pointer)[1..])
  }

  lemma {:induction false} SplitToken(token: string, rest: string)
    requires '/' !in token
    requires rest == "" || rest[0] == '/'
    ensures Split(token + rest) == [token] + Split(rest)[1..]
  {
    if token == "" {
      assert token + rest == rest;
      if rest == "" { assert Split(rest) == [""] + Split(rest)[1..]; }
    } else {
      assert (token + rest)[1..] == token[1..] + rest;
      SplitToken(token[1..], rest);
      assert token == [token[0]] + token[1..];
    }
  }

  /** Reading a rendered path gives back the key list. */
  lemma {:induction false} ParseRender(tokens: seq<string>)
    ensures Parse(Render(tokens)) == tokens
  {
    hide Escape, Unescape, EscapesOk, Render, Parse;
    if tokens == [] {
      NothingRendered();
    } else {
      var token, rest := Escape(tokens[0]), Render(tokens[1..]);
      ParseRender(tokens[1..]);
      EscapeWellFormed(tokens[0]);
      UnescapeEscape(tokens[0]);
      FirstRendered(tokens);
      RenderStarts(tokens[1..]);
      ParseFirst(token, rest);
      assert tokens == [tokens[0]] + tokens[1..];
    }
  }

  lemma NothingRendered()
    ensures Render([]) == "" && Parse("") == []
  {
  }

  lemma {:induction false} FirstRendered(tokens: seq<string>)
    requires tokens != []
    ensures Render(tokens) == ['/'] + (Escape(tokens[0]) + Render(tokens[1..]))
  {
    hide Escape;
  }

  lemma {:induction false} RenderStarts(tokens: seq<string>)
    ensures Render(tokens) == "" || Render(tokens)[0] == '/'
  {
    hide Escape;
  }

  lemma {:induction false} ParseFirst(token: string, rest: string)
    requires '/' !in token && (rest == "" || rest[0] == '/')
    ensures Parse(['/'] + (token + rest)) == [Unescape(token)] + Parse(rest)
  {
    hide Unescape;
    var pointer := ['/'] + (token + rest);
    SplitToken(token, rest);
    assert pointer[1..] == token + rest;
    assert Split(pointer) == [""] + ([token] + Split(rest)[1..]);
    hide Split;
    assert Split(pointer)[1..] == [token] + Split(rest)[1..];
    assert ([token] + Split(rest)[1..])[1..] == Split(rest)[1..];
    if rest == "" { assert Split(rest)[1..] == [] by { SplitNothing(); } }
  }

  lemma SplitNothing()
    ensures Split("")[1..] == []
  {
  }

  /** Different key lists never share a path. */
  lemma {:induction false} RenderInjective(a: seq<string>, b: seq<string>)
    requires Render(a) == Render(b)
    ensures a == b
  {
    ParseRender(a);
    ParseRender(b);
  }

  // ----- the validator -----

  /** The verdict of `validate_pointer`. */
  predicate Accepts(pointer: string)
  {
    (pointer == "" || pointer[0] == '/') && EscapesOk(pointer)
  }

  /**
   The loop of `validate_pointer`. It steps over bytes in the source; the
   bytes it compares are ASCII, so stepping over characters decides the same.
   */
  method ValidatePointer(pointer: string) returns (r: Result<(), string>)
    ensures r.Success? <==> Accepts(pointer)
  {
    if pointer != "" && pointer[0] != '/' {
      return Failure("JSON Pointer must be empty or start with '/'");
    }
    var index := 0;
    while index < |pointer|
      invariant index <= |pointer|
      invariant EscapesOk(pointer) <==> EscapesOk(pointer[index..])
    {
      if pointer[index] == '~' {
        if !(index + 1 < |pointer| && (pointer[index + 1] == '0' || pointer[index + 1] == '1')) {
          return Failure("JSON Pointer contains an invalid escape");
        }
        assert pointer[index..][2..] == pointer[index + 2..];
        index := index + 1;
      } else {
        assert pointer[index..][1..] == pointer[index + 1..];
      }
      index := index + 1;
    }
    return Success(());
  }

  /** Section 3 of RFC 6901: a reference token has no `/`, and `~` only as `~0` or `~1`. */
  predicate IsReferenceToken(token: string)
  {
    '/' !in token && EscapesOk(token)
  }

  /** Section 3 of RFC 6901: a pointer is a run of `/`-prefixed reference tokens. */
  function Prefixed(parts: seq<string>): string
  {
    if parts == [] then "" else "/" + parts[0] + Prefixed(parts[1..])
  }

  ghost predicate IsPointer(s: string)
  {
    exists parts: seq<string> :: (forall part :: part in parts ==> IsReferenceToken(part)) && s == Prefixed(parts)
  }

  lemma {:induction false} EscapesOkAppend(a: string, b: string)
    requires EscapesOk(a)
    ensures EscapesOk(a + b) <==> EscapesOk(b)
  {
    if a == "" {
      assert a + b == b;
    } else {
      var n := if a[0] == '~' then 2 else 1;
      assert (a + b)[n..] == a[n..] + b;
      EscapesOkAppend(a[n..], b);
    }
  }

  lemma {:induction false} PrefixedAccepted(parts: seq<string>)
    requires forall part :: part in parts ==> IsReferenceToken(part)
    ensures Accepts(Prefixed(parts))
  {
    if parts != [] {
      var rest := Prefixed(parts[1..]);
      assert IsReferenceToken(parts[0]);
      PrefixedAccepted(parts[1..]);
      EscapesOkAppend(parts[0], rest);
      assert Prefixed(parts) == ['/'] + (parts[0] + rest);
      assert Prefixed(parts)[1..] == parts[0] + rest;
    }
  }

  function EscapeAll(tokens: seq<string>): (r: seq<string>)
    ensures |r| == |tokens|
  {
    if tokens == [] then [] else [Escape(tokens[0])] + EscapeAll(tokens[1..])
  }

  lemma {:induction false} RenderIsPrefixed(tokens: seq<string>)
    ensures Render(tokens) == Prefixed(EscapeAll(tokens))
    ensures forall part :: part in EscapeAll(tokens) ==> IsReferenceToken(part)
  {
    if tokens != [] {
      RenderIsPrefixed(tokens[1..]);
      EscapeWellFormed(tokens[0]);
      assert EscapeAll(tokens)[1..] == EscapeAll(tokens[1..]);
    }
  }

  /** The position of the first `/`, or the length. */
  function TokenEnd(s: string): (n: nat)
    ensures n <= |s| && '/' !in s[..n] && (n < |s| ==> s[n] == '/')
  {
    if s == "" || s[0] == '/' then 0
    else
      var n := TokenEnd(s[1..]);
      assert s[..n + 1] == [s[0]] + s[1..][..n];
      n + 1
  }

  lemma {:induction false} EscapesOkSplit(s: string, n: nat)
    requires EscapesOk(s) && n <= |s| && (n < |s| ==> s[n] == '/')
    ensures EscapesOk(s[..n]) && EscapesOk(s[n..])
  {
    hide EscapesOk;
    if n == 0 {
      assert s[0..] == s;
      EscapesOkStep(s[..0]);
    } else {
      var m := if s[0] == '~' then 2 else 1;
      EscapesOkStep(s);
      EscapesOkSplit(s[m..], n - m);
      assert s[m..][n - m..] == s[n..];
      assert s[..n][m..] == s[m..][..n - m];
      EscapesOkStep(s[..n]);
    }
  }

  lemma EscapesOkStep(s: string)
    ensures s == "" ==> EscapesOk(s)
    ensures s != "" && s[0] == '~' ==> (EscapesOk(s) <==> |s| >= 2 && (s[1] == '0' || s[1] == '1') && EscapesOk(s[2..]))
    ensures s != "" && s[0] != '~' ==> (EscapesOk(s) <==> EscapesOk(s[1..]))
  {
  }

  /** An accepted pointer is the rendering of the keys it names. */
  lemma {:induction false} AcceptedIsRendered(pointer: string)
    requires Accepts(pointer)
    ensures exists tokens :: pointer == Render(tokens)
    decreases |pointer|
  {
    if pointer == "" {
      assert pointer == Render([]);
    } else {
      var tail := pointer[1..];
      var n := TokenEnd(tail);
      EscapesOkSplit(tail, n);
      AcceptedIsRendered(tail[n..]);
      var tokens :| tail[n..] == Render(tokens);
      EscapeUnescape(tail[..n]);
      var key := Unescape(tail[..n]);
      assert ([key] + tokens)[1..] == tokens;
      assert pointer == "/" + tail[..n] + tail[n..];
      assert pointer == Render([key] + tokens);
    }
  }

  /**
   The validator accepts exactly the pointers of RFC 6901, and those are
   exactly the paths the merge can build.
   */
  lemma {:induction false} AcceptsExactlyTheGrammar(pointer: string)
    ensures Accepts(pointer) <==> IsPointer(pointer)
    ensures IsPointer(pointer) <==> exists tokens :: pointer == Render(tokens)
  {
    if Accepts(pointer) {
      AcceptedIsRendered(pointer);
    }
    forall tokens | pointer == Render(tokens) ensures IsPointer(pointer) {
      RenderIsPrefixed(tokens);
    }
    forall parts: seq<string> | (forall part :: part in parts ==> IsReferenceToken(part)) && pointer == Prefixed(parts)
      ensures Accepts(pointer)
    {
      PrefixedAccepted(parts);
    }
  }

  // ----- evaluation -----

  /**
   `Value::pointer`, used by `select`. Array indices are parsed by the
   library; `index` stands for that parser.
   */
  function Walk(v: Value, tokens: seq<string>, index: string -> Option<nat>): Option<Value>
    decreases |tokens|
  {
    if tokens == [] then Some(v)
    else match v
      case Object(fields) =>
        if tokens[0] in fields then Walk(fields[tokens[0]], tokens[1..], index) else None
      case Array(items) =>
        var i := index(tokens[0]);
        if i.Some? && i.value < |items| then Walk(items[i.value], tokens[1..], index) else None
      case _ => None
  }

  function Select(pointer: string, v: Value, index: string -> Option<nat>): Result<Value, string>
  {
    if !Accepts(pointer) then Failure("invalid JSON Pointer")
    else match Walk(v, Parse(pointer), index)
      case Some(found) => Success(found)
      case None => Failure("JSON Pointer did not match: " + pointer)
  }

  /** Where every proper prefix is an object, a pointer reads the member at its keys. */
  lemma {:induction false} WalkIsLookup(v: Value, tokens: seq<string>, index: string -> Option<nat>)
    requires forall n :: 0 <= n < |tokens| ==> var u := Lookup(Some(v), tokens[..n]); u.Some? && u.value.Object?
    ensures Walk(v, tokens, index) == Lookup(Some(v), tokens)
  {
    if tokens != [] {
      assert Lookup(Some(v), tokens[..0]) == Some(v);
      var child := Get(Some(v), tokens[0]);
      if child.Some? {
        forall n | 0 <= n < |tokens[1..]|
          ensures var u := Lookup(child, tokens[1..][..n]); u.Some? && u.value.Object?
        {
          assert tokens[..n + 1][1..] == tokens[1..][..n];
          assert Lookup(Some(v), tokens[..n + 1]) == Lookup(child, tokens[1..][..n]);
        }
        WalkIsLookup(child.value, tokens[1..], index);
      } else {
        LookupNothing(tokens[1..]);
      }
    }
  }
}
