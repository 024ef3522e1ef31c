/**
 The incremental parser of server-sent events, `sse-parser.ts`.

 `SseParser` has the fields and methods of the source. Its methods are proved
 against functions on `State`; the results on chunking and on printing are
 proved about those functions; an exception is a `Failure`. Strings hold
 Unicode scalar values, so the two limits count a character outside the basic
 plane once, where the source counts its two UTF-16 units.
 */
module SseParser {
  import opened Wrappers
  import opened TextBasics

  const MAX_LINE_CHARS: nat := 1024 * 1024
  const MAX_EVENT_CHARS: nat := 2 * 1024 * 1024

  datatype Frame = Frame(event: string, data: string, id: Option<string>)

  datatype Error = LineTooLong | EventTooLong

  datatype State = State(
    buffer: string, event: string, id: Option<string>, data: seq<string>, dataLength: nat, hasData: bool)

  const Initial := State("", "", None, [], 0, false)

  // ----- string helpers -----

  /** `indexOf` of one character, or -1. */
  function IndexOf(s: string, c: char): (i: int)
    ensures -1 <= i < |s|
    ensures i < 0 ==> c !in s
    ensures i >= 0 ==> s[i] == c && c !in s[..i]
  {
    if s == "" then -1
    else if s[0] == c then 0
    else
      var i := IndexOf(s[1..], c);
      if i < 0 then -1 else assert s[..i + 1] == [s[0]] + s[1..][..i]; i + 1
  }

  lemma {:induction false} IndexOfUnique(s: string, c: char, i: nat)
    requires i < |s| && s[i] == c && c !in s[..i]
    ensures IndexOf(s, c) == i
  {
    if i > 0 {
      assert s[0] == s[..i][0];
      assert s[1..][..i - 1] == s[..i][1..];
      IndexOfUnique(s[1..], c, i - 1);
    }
  }

  function StripCr(line: string): string
  {
    if line != "" && line[|line| - 1] == '\r' then line[..|line| - 1] else line
  }

  function Join(lines: seq<string>): string
  {
    if lines == [] then "" else if |lines| == 1 then lines[0] else lines[0] + "\n" + Join(lines[1..])
  }

  function TotalLength(lines: seq<string>): nat
  {
    if lines == [] then 0 else |lines[0]| + TotalLength(lines[1..])
  }

  lemma {:induction false} TotalLengthAppend(a: seq<string>, b: seq<string>)
    ensures TotalLength(a + b) == TotalLength(a) + TotalLength(b)
  {
    if a == [] {
      assert a + b == b;
    } else {
      assert (a + b)[1..] == a[1..] + b;
      TotalLengthAppend(a[1..], b);
    }
  }

  lemma {:induction false} JoinLength(lines: seq<string>)
    requires lines != []
    ensures |Join(lines)| == TotalLength(lines) + |lines| - 1
  {
    if |lines| > 1 {
      JoinLength(lines[1..]);
    }
  }

  // ----- the specification -----

  function Reset(s: State): State
  {
    Initial.(buffer := s.buffer)
  }

  /** The frame of the fields collected so far, if any data line was seen. */
  function Pending(s: State): Option<Frame>
  {
    if s.hasData then Some(Frame(if s.event == "" then "message" else s.event, Join(s.data), s.id)) else None
  }

  /** Field name and value of a line. */
  function Field(line: string): (string, string)
  {
    var colon := IndexOf(line, ':');
    if colon < 0 then (line, "")
    else
      var value := line[colon + 1..];
      (line[..colon], if value != "" && value[0] == ' ' then value[1..] else value)
  }

  /** What a line asks for. */
  datatype Command = Dispatch | SetEvent(value: string) | AddData(value: string) | SetId(value: string) | Ignore

  function Interpret(line: string): Command
  {
    if line == "" then Dispatch
    else if line[0] == ':' then Ignore
    else
      var (field, value) := Field(line);
      if field == "event" then SetEvent(value)
      else if field == "data" then AddData(value)
      else if field == "id" && '\0' !in value then SetId(value)
      else Ignore
  }

  function WithData(s: State, value: string): State
  {
    s.(dataLength := s.dataLength + |value|, data := s.data + [value], hasData := true)
  }

  function Obey(s: State, c: Command): (r: (State, Result<Option<Frame>, Error>))
    ensures r.0.buffer == s.buffer
  {
    match c
    case Dispatch => (Reset(s), Success(Pending(s)))
    case SetEvent(value) => (s.(event := value), Success(None))
    case AddData(value) =>
      if s.dataLength + |value| > MAX_EVENT_CHARS then
        (s.(dataLength := s.dataLength + |value|), Failure(EventTooLong))
      else (WithData(s, value), Success(None))
    case SetId(value) => (s.(id := Some(value)), Success(None))
    case Ignore => (s, Success(None))
  }

  /** One complete line: the next state, and a frame, nothing, or an error. */
  function Line(s: State, line: string): (r: (State, Result<Option<Frame>, Error>))
    ensures r.0.buffer == s.buffer
  {
    hide Interpret;
    Obey(s, Interpret(line))
  }

  /** What a call leaves behind and what it returns or throws. */
  datatype Outcome = Outcome(state: State, result: Result<seq<Frame>, Error>)

  function Listed(frame: Option<Frame>): seq<Frame>
  {
    if frame.Some? then [frame.value] else []
  }

  function After(frames: seq<Frame>, o: Outcome): Outcome
  {
    if o.result.Success? then Outcome(o.state, Success(frames + o.result.value)) else o
  }

  /** Consumes every complete line of the buffer. */
  function Drain(s: State): Outcome
    decreases |s.buffer|
  {
    var newline := IndexOf(s.buffer, '\n');
    if newline < 0 then Outcome(s, Success([]))
    else
      var (next, r) := Line(s.(buffer := s.buffer[newline + 1..]), StripCr(s.buffer[..newline]));
      if r.Failure? then Outcome(next, Failure(r.error))
      else After(Listed(r.value), Drain(next))
  }

  function PushChunk(s: State, chunk: string): Outcome
  {
    var t := s.(buffer := s.buffer + chunk);
    if '\n' !in t.buffer && |t.buffer| > MAX_LINE_CHARS then Outcome(t, Failure(LineTooLong)) else Drain(t)
  }

  /** Several calls of `push`, up to the first that throws. */
  function PushAll(s: State, chunks: seq<string>): Outcome
    decreases |chunks|
  {
    if chunks == [] then Outcome(s, Success([]))
    else
      var first := PushChunk(s, chunks[0]);
      if first.result.Failure? then first else After(first.result.value, PushAll(first.state, chunks[1..]))
  }

  function FinishAll(s: State): Outcome
  {
    if s.buffer == "" then Outcome(Reset(s), Success(Listed(Pending(s))))
    else
      var (next, r) := Line(s.(buffer := ""), StripCr(s.buffer));
      if r.Failure? then Outcome(next, Failure(r.error))
      else Outcome(Reset(next), Success(Listed(r.value) + Listed(Pending(next))))
  }

  // ----- the code -----

  class SseParser {
    var buffer: string
    var event: string
    var id: Option<string>
    var data: seq<string>
    var dataLength: nat
    var hasData: bool

    function View(): State
      reads this
    {
      State(buffer, event, id, data, dataLength, hasData)
    }

    constructor ()
      ensures View() == Initial
    {
      buffer, event, id, data, dataLength, hasData := "", "", None, [], 0, false;
    }

    method ResetFields()
      modifies this
      ensures View() == Reset(old(View()))
    {
      event, id, data, dataLength, hasData := "", None, [], 0, false;
    }

    method Dispatch() returns (frame: Option<Frame>)
      modifies this
      ensures View() == Reset(old(View())) && frame == Pending(old(View()))
    {
      if !hasData {
        ResetFields();
        return None;
      }
      frame := Some(Frame(if event == "" then "message" else event, Join(data), id));
      ResetFields();
    }

    method ReadLine(line: string) returns (r: Result<Option<Frame>, Error>)
      modifies this
      ensures (View(), r) == Line(old(View()), line)
    {
      if line == "" {
        var frame := Dispatch();
        return Success(frame);
      }
      if line[0] == ':' {
        return Success(None);
      }
      var colon := IndexOf(line, ':');
      var field := if colon < 0 then line else line[..colon];
      var value := if colon < 0 then "" else line[colon + 1..];
      if value != "" && value[0] == ' ' {
        value := value[1..];
      }
      if field == "event" {
        event := value;
      }
      if field == "data" {
        dataLength := dataLength + |value|;
        if dataLength > MAX_EVENT_CHARS {
          return Failure(EventTooLong);
        }
        data := data + [value];
        hasData := true;
      }
      if field == "id" && '\0' !in value {
        id := Some(value);
      }
      return Success(None);
    }

    method Push(chunk: string) returns (r: Result<seq<Frame>, Error>)
      modifies this
      ensures Outcome(View(), r) == PushChunk(old(View()), chunk)
    {
      buffer := buffer + chunk;
      if '\n' !in buffer && |buffer| > MAX_LINE_CHARS {
        return Failure(LineTooLong);
      }
      hide Line, Interpret, Drain, After, StripCr, IndexOf;
      ghost var start := View();
      DrainNothingListed(Drain(start));
      var frames: seq<Frame> := [];
      var newline := IndexOf(buffer, '\n');
      while newline >= 0
        invariant newline == IndexOf(buffer, '\n')
        invariant Drain(start) == After(frames, Drain(View()))
        decreases |buffer|
      {
        ghost var before := View();
        DrainFirstLine(before, newline);
        FrameOrFailure(frames, before);
        var line := StripCr(buffer[..newline]);
        buffer := buffer[newline + 1..];
        var frame := ReadLine(line);
        if frame.Failure? {
          return Failure(frame.error);
        }
        AfterAfter(frames, Listed(frame.value), Drain(View()));
        if frame.value.Some? {
          frames := frames + [frame.value.value];
        } else {
          assert frames + [] == frames;
        }
        newline := IndexOf(buffer, '\n');
      }
      DrainQuiet(View());
      FrameOrFailure(frames, View());
      return Success(frames);
    }

    method Finish() returns (r: Result<seq<Frame>, Error>)
      modifies this
      ensures Outcome(View(), r) == FinishAll(old(View()))
    {
      hide Line;
      var frames: seq<Frame> := [];
      if buffer != "" {
        var line := if buffer[|buffer| - 1] == '\r' then buffer[..|buffer| - 1] else buffer;
        buffer := "";
        var frame := ReadLine(line);
        if frame.Failure? {
          return Failure(frame.error);
        }
        if frame.value.Some? {
          frames := frames + [frame.value.value];
        }
        assert frames == Listed(frame.value);
      }
      var pending := Dispatch();
      assert frames + [] == frames && [] + Listed(pending) == Listed(pending);
      if pending.Some? {
        frames := frames + [pending.value];
      }
      return Success(frames);
    }
  }

  lemma {:induction false} FrameOrFailure(frames: seq<Frame>, s: State)
    ensures Drain(s).result.Failure? ==> After(frames, Drain(s)) == Drain(s)
    ensures Drain(s) == Outcome(s, Success([])) ==> After(frames, Drain(s)) == Outcome(s, Success(frames))
  {
    hide Drain;
    assert frames + [] == frames;
  }

  // ----- what every call keeps -----

  /** States between calls that did not throw. */
  predicate Valid(s: State)
  {
    && '\n' !in s.buffer
    && ValidFields(s)
  }

  predicate ValidFields(s: State)
  {
    && s.hasData == (s.data != [])
    && s.dataLength == TotalLength(s.data) <= MAX_EVENT_CHARS
  }

  /** A frame is named, and its data is a join of lines whose total length is within the limit. */
  ghost predicate WellFormed(f: Frame)
  {
    f.event != ""
    && exists lines: seq<string> ::
         lines != [] && f.data == Join(lines) && TotalLength(lines) <= MAX_EVENT_CHARS
         && |f.data| == TotalLength(lines) + |lines| - 1
  }

  lemma {:induction false} PendingWellFormed(s: State)
    requires ValidFields(s)
    ensures Pending(s).Some? <==> s.data != []
    ensures Pending(s).Some? ==>
              var f := Pending(s).value;
              f.event != "" && f.data == Join(s.data) && |f.data| == s.dataLength + |s.data| - 1 && s.dataLength <= MAX_EVENT_CHARS
    ensures forall f :: f in Listed(Pending(s)) ==> WellFormed(f)
  {
    if s.hasData {
      JoinLength(s.data);
      assert WellFormed(Pending(s).value);
    }
  }

  lemma {:induction false} LineKeepsValid(s: State, line: string)
    requires ValidFields(s) && Line(s, line).1.Success?
    ensures ValidFields(Line(s, line).0) && Line(s, line).0.buffer == s.buffer
    ensures forall f :: f in Listed(Line(s, line).1.value) ==> WellFormed(f)
  {
    hide Interpret;
    PendingWellFormed(s);
    var c := Interpret(line);
    if c.AddData? {
      TotalLengthAppend(s.data, [c.value]);
    }
  }

  /** The part after the last line feed. */
  function Unterminated(text: string): (r: string)
    ensures '\n' !in r && |r| <= |text|
    ensures '\n' !in text ==> r == text
    decreases |text|
  {
    var newline := IndexOf(text, '\n');
    if newline < 0 then text else Unterminated(text[newline + 1..])
  }

  lemma {:induction false} DrainKeepsValid(s: State)
    requires ValidFields(s) && Drain(s).result.Success?
    ensures Valid(Drain(s).state) && Drain(s).state.buffer == Unterminated(s.buffer)
    ensures forall f :: f in Drain(s).result.value ==> WellFormed(f)
    decreases |s.buffer|
  {
    var newline := IndexOf(s.buffer, '\n');
    if newline >= 0 {
      var t, line := s.(buffer := s.buffer[newline + 1..]), StripCr(s.buffer[..newline]);
      LineKeepsValid(t, line);
      DrainKeepsValid(Line(t, line).0);
    }
  }

  /**
   Between calls no line feed is buffered, the running length is the length
   of the collected data, and every frame returned is well formed.
   */
  lemma {:induction false} PushKeepsValid(s: State, chunk: string)
    requires Valid(s) && PushChunk(s, chunk).result.Success?
    ensures Valid(PushChunk(s, chunk).state)
    ensures PushChunk(s, chunk).state.buffer == Unterminated(s.buffer + chunk)
    ensures forall f :: f in PushChunk(s, chunk).result.value ==> WellFormed(f)
  {
    DrainKeepsValid(s.(buffer := s.buffer + chunk));
  }

  // ----- chunks -----

  lemma {:induction false} AfterAfter(a: seq<Frame>, b: seq<Frame>, o: Outcome)
    ensures After(a, After(b, o)) == After(a + b, o)
  {
    if o.result.Success? {
      assert a + (b + o.result.value) == a + b + o.result.value;
    }
  }

  /** More text at the end does not change how the lines before it are read. */
  lemma {:induction false} DrainMore(s: State, more: string)
    ensures var d := Drain(s);
            if d.result.Failure? then Drain(s.(buffer := s.buffer + more)).result == d.result
            else Drain(s.(buffer := s.buffer + more))
                 == After(d.result.value, Drain(d.state.(buffer := d.state.buffer + more)))
    decreases |s.buffer|
  {
    hide Line, Drain, StripCr, After;
    var newline := IndexOf(s.buffer, '\n');
    var longer := s.(buffer := s.buffer + more);
    if newline < 0 {
      DrainQuiet(s);
      DrainNothingListed(Drain(longer));
    } else {
      var line, rest := s.buffer[..newline], s.buffer[newline + 1..];
      CutAtLineFeed(s.buffer, more, newline);
      DrainFirstLine(s, newline);
      DrainFirstLine(longer, newline);
      var t := s.(buffer := rest);
      LineIgnoresBuffer(t, StripCr(line), rest + more);
      assert longer.(buffer := longer.buffer[newline + 1..]) == t.(buffer := rest + more);
      var (next, r) := Line(t, StripCr(line));
      if r.Success? {
        DrainMore(next, more);
        var d := Drain(next);
        AfterMore(Listed(r.value), d, Drain(d.state.(buffer := d.state.buffer + more)));
        AfterMore(Listed(r.value), Drain(next.(buffer := rest + more)), d);
      }
    }
  }

  lemma {:induction false} CutAtLineFeed(text: string, more: string, newline: int)
    requires newline == IndexOf(text, '\n') >= 0
    ensures IndexOf(text + more, '\n') == newline
    ensures (text + more)[..newline] == text[..newline] && (text + more)[newline + 1..] == text[newline + 1..] + more
  {
    assert (text + more)[..newline] == text[..newline];
    IndexOfUnique(text + more, '\n', newline);
  }

  /** The first line of a buffer, by the position of its line feed. */
  lemma {:induction false} DrainFirstLine(s: State, newline: int)
    requires newline == IndexOf(s.buffer, '\n') >= 0
    ensures var (next, r) := Line(s.(buffer := s.buffer[newline + 1..]), StripCr(s.buffer[..newline]));
            Drain(s) == if r.Failure? then Outcome(next, Failure(r.error)) else After(Listed(r.value), Drain(next))
  {
    hide Line, StripCr, After, Listed;
  }

  lemma {:induction false} AfterMore(frames: seq<Frame>, d: Outcome, o: Outcome)
    ensures After(frames, d).result.Failure? <==> d.result.Failure?
    ensures d.result.Failure? ==> After(frames, d) == d
    ensures d.result.Success? ==>
              After(frames, d).state == d.state && After(After(frames, d).result.value, o) == After(frames, After(d.result.value, o))
  {
    if d.result.Success? {
      AfterAfter(frames, d.result.value, o);
    }
  }

  lemma {:induction false} LineIgnoresBuffer(s: State, line: string, buffer: string)
    ensures Line(s.(buffer := buffer), line) == (Line(s, line).0.(buffer := buffer), Line(s, line).1)
    ensures Line(s, line).0.buffer == s.buffer
  {
    hide Interpret, Obey;
    ObeyIgnoresBuffer(s, Interpret(line), buffer);
  }

  lemma {:induction false} ObeyIgnoresBuffer(s: State, c: Command, buffer: string)
    ensures Obey(s.(buffer := buffer), c) == (Obey(s, c).0.(buffer := buffer), Obey(s, c).1)
  {
  }

  /** Every partial line met on the way is within the line limit. */
  predicate LinesFit(rest: string, chunks: seq<string>)
    decreases |chunks|
  {
    chunks == [] ||
    (('\n' in chunks[0] || |rest + chunks[0]| <= MAX_LINE_CHARS) && LinesFit(Unterminated(rest + chunks[0]), chunks[1..]))
  }

  lemma {:induction false} PushAllIsDrain(s: State, chunks: seq<string>)
    requires Valid(s)
    ensures PushAll(s, chunks).result.Success?
       <==> LinesFit(s.buffer, chunks) && Drain(s.(buffer := s.buffer + Concat(chunks))).result.Success?
    ensures PushAll(s, chunks).result.Success? ==> PushAll(s, chunks) == Drain(s.(buffer := s.buffer + Concat(chunks)))
    decreases |chunks|
  {
    if chunks == [] {
      assert s.buffer + "" == s.buffer;
      assert s.(buffer := s.buffer) == s;
    } else {
      var t := s.(buffer := s.buffer + chunks[0]);
      var rest := Concat(chunks[1..]);
      assert s.buffer + Concat(chunks) == t.buffer + rest;
      DrainMore(t, rest);
      if PushChunk(s, chunks[0]).result.Success? {
        PushKeepsValid(s, chunks[0]);
        PushAllIsDrain(Drain(t).state, chunks[1..]);
      }
    }
  }

  lemma {:induction false} FitWithoutLineFeed(rest: string, chunks: seq<string>)
    requires chunks != [] && '\n' !in rest && '\n' !in Concat(chunks) && LinesFit(rest, chunks)
    ensures |rest + Concat(chunks)| <= MAX_LINE_CHARS
    decreases |chunks|
  {
    assert Concat(chunks) == chunks[0] + Concat(chunks[1..]);
    assert '\n' !in chunks[0] && '\n' !in Concat(chunks[1..]);
    assert '\n' !in rest + chunks[0];
    if chunks[1..] != [] {
      FitWithoutLineFeed(rest + chunks[0], chunks[1..]);
    }
  }

  /**
   Chunk boundaries do not matter. Pushing the pieces of a text succeeds
   exactly when pushing the text does and no partial line outgrows the limit
   on the way; it then returns the same frames and leaves the same state.
   */
  lemma {:induction false} ChunkingRefines(s: State, chunks: seq<string>)
    requires Valid(s) && chunks != []
    ensures PushAll(s, chunks).result.Success?
       <==> PushChunk(s, Concat(chunks)).result.Success? && LinesFit(s.buffer, chunks)
    ensures PushAll(s, chunks).result.Success? ==> PushAll(s, chunks) == PushChunk(s, Concat(chunks))
  {
    PushAllIsDrain(s, chunks);
    if LinesFit(s.buffer, chunks) && '\n' !in s.buffer + Concat(chunks) {
      assert '\n' !in Concat(chunks);
      FitWithoutLineFeed(s.buffer, chunks);
    }
  }

  /** The line limit makes the converse fail: a text may pass that its pieces do not. */
  lemma {:induction false} PiecesMayFail() returns (chunks: seq<string>)
    ensures PushChunk(Initial, Concat(chunks)) == Outcome(Initial, Success([]))
    ensures PushAll(Initial, chunks).result == Failure(LineTooLong)
  {
    var long := seq(MAX_LINE_CHARS + 1, _ => ':');
    chunks := [long, "\n"];
    assert Concat(chunks) == long + Concat(["\n"]) == long + "\n" by {
      assert chunks[1..] == ["\n"] && ["\n"][1..] == [];
    }
    TooLong(long, "\n");
    CommentLine(long);
  }

  lemma {:induction false} TooLong(long: string, next: string)
    requires '\n' !in long && |long| > MAX_LINE_CHARS
    ensures PushAll(Initial, [long, next]).result == Failure(LineTooLong)
  {
    assert "" + long == long;
  }

  lemma {:induction false} CommentLine(line: string)
    requires line != "" && line[0] == ':' && '\n' !in line && line[|line| - 1] != '\r'
    ensures PushChunk(Initial, line + "\n") == Outcome(Initial, Success([]))
  {
    hide Interpret, Drain;
    CommentIsIgnored(line);
    assert line + "\n" + "" == line + "\n" && "" + (line + "\n") == line + "\n";
    DrainOneLine(Initial, line, "");
    DrainQuiet(Initial);
    DrainNothingListed(Drain(Initial));
  }

  lemma CommentIsIgnored(line: string)
    requires line != "" && line[0] == ':'
    ensures Interpret(line) == Ignore
  {
  }

  // ----- the end of the stream -----

  lemma {:induction false} DrainQuiet(s: State)
    requires '\n' !in s.buffer
    ensures Drain(s) == Outcome(s, Success([]))
  {
  }

  lemma {:induction false} BlankLine(s: State)
    ensures Line(s, StripCr("")) == (Reset(s), Success(Pending(s)))
  {
  }

  lemma {:induction false} DrainOneLine(s: State, line: string, rest: string)
    requires '\n' !in line
    ensures var (next, r) := Line(s.(buffer := rest), StripCr(line));
            Drain(s.(buffer := line + "\n" + rest))
            == if r.Failure? then Outcome(next, Failure(r.error)) else After(Listed(r.value), Drain(next))
  {
    hide Interpret;
    var text := line + "\n" + rest;
    assert text[..|line|] == line && text[|line|] == '\n';
    IndexOfUnique(text, '\n', |line|);
    assert text[|line| + 1..] == rest;
    assert s.(buffer := text).(buffer := rest) == s.(buffer := rest);
  }

  /**
   `finish` acts as if two more line feeds arrived: an unterminated last line
   is read and an unterminated last block is dispatched.
   */
  lemma {:induction false} FinishIsTwoLineFeeds(s: State)
    requires Valid(s)
    ensures PushChunk(s, "\n\n").result == FinishAll(s).result
    ensures FinishAll(s).result.Success? ==> PushChunk(s, "\n\n") == FinishAll(s)
  {
    hide Interpret, Drain;
    var line := s.buffer;
    assert line + "\n\n" == line + "\n" + "\n";
    assert (line + "\n\n")[|line|] == '\n';
    DrainOneLine(s, line, "\n");
    var (next, r) := Line(s.(buffer := "\n"), StripCr(line));
    LineIgnoresBuffer(s, StripCr(line), "\n");
    LineIgnoresBuffer(s, StripCr(line), "");
    BlankLine(s.(buffer := "\n"));
    if r.Success? {
      assert "" + "\n" + "" == "\n";
      DrainOneLine(next, "", "");
      assert next.(buffer := "\n") == next;
      var last := Reset(next.(buffer := ""));
      DrainQuiet(last);
      BlankLine(next.(buffer := ""));
      assert Listed(Pending(next)) + [] == Listed(Pending(next));
      assert Drain(next) == Outcome(Initial, Success(Listed(Pending(next))));
      if line == "" {
        assert Pending(Reset(s)) == None;
        assert Listed(Pending(s)) + [] == Listed(Pending(s));
      }
    }
  }

  // ----- printing and parsing back -----

  /** The two line ends of section 9.2.5 of the WHATWG HTML standard that the parser knows. */
  function LineEnd(crlf: bool): string
  {
    if crlf then "\r\n" else "\n"
  }

  /** Text that can stand on one line: no line feed, and no final carriage return where that would be taken for a line end. */
  predicate OneLine(text: string, crlf: bool)
  {
    '\n' !in text && (crlf || text == "" || text[|text| - 1] != '\r')
  }

  /** The ways to write a field: `name: value`, `name:value`, or `name` alone. */
  datatype Style = Spaced | Compact | Bare

  datatype Item = Comment(text: string) | Entry(name: string, value: string, style: Style)

  datatype Written = Written(item: Item, crlf: bool)

  /** The lines of one block; `crlf` is the line end of the blank line behind them. */
  datatype Block = Block(lines: seq<Written>, crlf: bool)

  function TextOf(item: Item): string
  {
    match item
    case Comment(text) => ":" + text
    case Entry(name, value, Spaced) => name + ": " + value
    case Entry(name, value, Compact) => name + ":" + value
    case Entry(name, value, Bare) => name
  }

  /** The style can express the value, and the text stands on one line. */
  predicate Writable(line: Written)
  {
    && OneLine(TextOf(line.item), line.crlf)
    && match line.item
       case Comment(_) => true
       case Entry(name, value, style) =>
         && ':' !in name
         && (style.Compact? ==> value == "" || value[0] != ' ')
         && (style.Bare? ==> name != "" && value == "")
  }

  function WriteLines(lines: seq<Written>): string
  {
    if lines == [] then "" else TextOf(lines[0].item) + LineEnd(lines[0].crlf) + WriteLines(lines[1..])
  }

  function WriteBlocks(blocks: seq<Block>): string
  {
    if blocks == [] then ""
    else WriteLines(blocks[0].lines) + LineEnd(blocks[0].crlf) + WriteBlocks(blocks[1..])
  }

  // ----- what written blocks mean -----

  /** The values given to a name, in order. */
  function Values(lines: seq<Written>, name: string): seq<string>
  {
    if lines == [] then []
    else
      var item := lines[0].item;
      (if item.Entry? && item.name == name then [item.value] else []) + Values(lines[1..], name)
  }

  /** Without the values that an id must not have. */
  function Ids(values: seq<string>): seq<string>
  {
    if values == [] then [] else (if '\0' in values[0] then [] else [values[0]]) + Ids(values[1..])
  }

  function Last(values: seq<string>, otherwise: string): string
  {
    if values == [] then otherwise else values[|values| - 1]
  }

  /**
   The event of a block by section 9.2.6 of the WHATWG HTML standard: the last
   event name, or `message`; the last id without a null character; all data
   values, joined by line feeds. A block without data has none.
   */
  function FrameOf(block: Block): Option<Frame>
  {
    var data, ids := Values(block.lines, "data"), Ids(Values(block.lines, "id"));
    var event := Last(Values(block.lines, "event"), "");
    if data == [] then None
    else Some(Frame(if event == "" then "message" else event, Join(data), if ids == [] then None else Some(Last(ids, ""))))
  }

  function FramesOf(blocks: seq<Block>): seq<Frame>
  {
    if blocks == [] then [] else Listed(FrameOf(blocks[0])) + FramesOf(blocks[1..])
  }

  predicate Printable(block: Block)
  {
    (forall line :: line in block.lines ==> Writable(line)) && TotalLength(Values(block.lines, "data")) <= MAX_EVENT_CHARS
  }

  // ----- reading written lines -----

  lemma {:induction false} FieldOfWritten(name: string, value: string)
    requires ':' !in name
    ensures Field(name + ": " + value) == (name, value)
    ensures value == "" || value[0] != ' ' ==> Field(name + ":" + value) == (name, value)
    ensures Field(name) == (name, "")
  {
    var spaced, compact := name + ": " + value, name + ":" + value;
    assert spaced[..|name|] == name && spaced[|name|] == ':' && compact[..|name|] == name && compact[|name|] == ':';
    IndexOfUnique(spaced, ':', |name|);
    IndexOfUnique(compact, ':', |name|);
    assert spaced[|name| + 1..] == " " + value && compact[|name| + 1..] == value;
    assert (" " + value)[1..] == value;
  }

  function CommandOf(item: Item): Command
  {
    match item
    case Comment(_) => Ignore
    case Entry(name, value, _) =>
      if name == "event" then SetEvent(value)
      else if name == "data" then AddData(value)
      else if name == "id" && '\0' !in value then SetId(value)
      else Ignore
  }

  /** Whatever the style, a written field gives its value to its name; other names and comments do nothing. */
  lemma {:induction false} WrittenIsRead(line: Written)
    requires Writable(line)
    ensures Interpret(TextOf(line.item)) == CommandOf(line.item)
  {
    hide OneLine, IndexOf, Field;
    var text := TextOf(line.item);
    assert text != "";
    if line.item.Entry? {
      var name, value := line.item.name, line.item.value;
      FieldOfWritten(name, value);
      assert name != "" ==> text[0] == name[0] && name[0] in name;
      assert name == "" ==> text[0] == ':';
    }
  }

  /** The fields of the parser after the lines of a block. */
  function Collected(s: State, lines: seq<Written>): State
  {
    var data, ids := Values(lines, "data"), Ids(Values(lines, "id"));
    s.(event := Last(Values(lines, "event"), s.event), id := if ids == [] then s.id else Some(Last(ids, "")),
       data := s.data + data, dataLength := s.dataLength + TotalLength(data), hasData := s.hasData || data != [])
  }

  lemma {:induction false} LastOfMore(first: seq<string>, rest: seq<string>, otherwise: string)
    ensures Last(first + rest, otherwise) == Last(rest, Last(first, otherwise))
  {
    if rest == [] { assert first + rest == first; }
  }

  lemma {:induction false} IdsAppend(first: seq<string>, rest: seq<string>)
    requires |first| <= 1
    ensures Ids(first + rest) == Ids(first) + Ids(rest)
  {
    if first == [] {
      assert first + rest == rest && [] + Ids(rest) == Ids(rest);
    } else {
      assert (first + rest)[1..] == rest && Ids(first[1..]) == [];
    }
  }

  lemma {:induction false} OneValue(line: Written, name: string)
    ensures Values([line], name) == if line.item.Entry? && line.item.name == name then [line.item.value] else []
  {
    var one := [line];
    assert one[1..] == [];
  }

  lemma {:induction false} OfOne(value: string)
    ensures Ids([value]) == (if '\0' in value then [] else [value]) && TotalLength([value]) == |value|
    ensures Last([value], "") == value
  {
    var one := [value];
    assert one[1..] == [];
  }

  lemma {:induction false} CollectedOne(s: State, line: Written)
    requires s.dataLength + TotalLength(Values([line], "data")) <= MAX_EVENT_CHARS
    ensures Collected(s, [line]) == Obey(s, CommandOf(line.item)).0
    ensures Obey(s, CommandOf(line.item)).1 == Success(None)
  {
    hide Values, TotalLength, Ids;
    OneValue(line, "event");
    OneValue(line, "id");
    OneValue(line, "data");
    OfNone();
    assert s.data + [] == s.data;
    if line.item.Entry? {
      OfOne(line.item.value);
      NamesDiffer(line.item.name);
    }
  }

  lemma OfNone()
    ensures Ids([]) == [] && TotalLength([]) == 0
  {
  }

  lemma NoValues(name: string)
    ensures Values([], name) == []
  {
  }

  lemma NamesDiffer(name: string)
    ensures (name == "event" ==> name != "id" && name != "data") && (name == "id" ==> name != "data")
  {
  }

  lemma {:induction false} ValuesStep(lines: seq<Written>, name: string)
    requires lines != []
    ensures Values(lines, name) == Values([lines[0]], name) + Values(lines[1..], name)
    ensures |Values([lines[0]], name)| <= 1
  {
    var one := [lines[0]];
    assert one[1..] == [] && Values([], name) == [];
    assert Values(one, name) + [] == Values(one, name);
  }

  lemma {:induction false} CollectedStep(s: State, lines: seq<Written>)
    requires lines != []
    ensures Collected(s, lines) == Collected(Collected(s, [lines[0]]), lines[1..])
  {
    hide Values, Ids, TotalLength;
    var one, rest := [lines[0]], lines[1..];
    ValuesStep(lines, "event");
    ValuesStep(lines, "id");
    ValuesStep(lines, "data");
    LastOfMore(Values(one, "event"), Values(rest, "event"), s.event);
    IdsAppend(Values(one, "id"), Values(rest, "id"));
    LastOfMore(Ids(Values(one, "id")), Ids(Values(rest, "id")), "");
    TotalLengthAppend(Values(one, "data"), Values(rest, "data"));
    assert s.data + Values(one, "data") + Values(rest, "data") == s.data + (Values(one, "data") + Values(rest, "data"));
  }

  lemma {:induction false} DrainTerminatedLine(s: State, line: string, rest: string, crlf: bool)
    requires OneLine(line, crlf)
    ensures var (next, r) := Line(s.(buffer := rest), line);
            Drain(s.(buffer := line + LineEnd(crlf) + rest))
            == if r.Failure? then Outcome(next, Failure(r.error)) else After(Listed(r.value), Drain(next))
  {
    if crlf {
      assert line + LineEnd(crlf) + rest == (line + "\r") + "\n" + rest;
      assert (line + "\r")[..|line|] == line;
      DrainOneLine(s, line + "\r", rest);
    } else {
      DrainOneLine(s, line, rest);
    }
  }

  lemma {:induction false} DrainNothingListed(o: Outcome)
    ensures After([], o) == o
  {
    if o.result.Success? {
      assert [] + o.result.value == o.result.value;
    }
  }

  lemma {:induction false} DrainWritten(s: State, line: Written, rest: string)
    requires Writable(line) && s.dataLength + TotalLength(Values([line], "data")) <= MAX_EVENT_CHARS
    ensures Drain(s.(buffer := TextOf(line.item) + LineEnd(line.crlf) + rest))
         == Drain(Collected(s, [line]).(buffer := rest))
  {
    hide Interpret, TextOf, CommandOf, Drain, OneLine, LineEnd, Collected;
    WrittenIsRead(line);
    DrainTerminatedLine(s, TextOf(line.item), rest, line.crlf);
    CollectedOne(s, line);
    LineIgnoresBuffer(s, TextOf(line.item), rest);
    var (next, r) := Line(s.(buffer := rest), TextOf(line.item));
    DrainNothingListed(Drain(next));
  }

  lemma {:induction false} DrainLines(s: State, lines: seq<Written>, rest: string)
    requires forall line :: line in lines ==> Writable(line)
    requires s.dataLength + TotalLength(Values(lines, "data")) <= MAX_EVENT_CHARS
    ensures Drain(s.(buffer := WriteLines(lines) + rest)) == Drain(Collected(s, lines).(buffer := rest))
    decreases |lines|
  {
    if lines == [] {
      CollectedNone(s);
      assert WriteLines([]) + rest == rest;
    } else {
      hide Drain, TextOf, LineEnd, Writable, Values, Ids, TotalLength, WriteLines, Collected;
      var tail := WriteLines(lines[1..]) + rest;
      WriteLinesStep(lines, rest);
      ValuesStep(lines, "data");
      TotalLengthAppend(Values([lines[0]], "data"), Values(lines[1..], "data"));
      DrainWritten(s, lines[0], tail);
      assert Collected(s, [lines[0]]).dataLength == s.dataLength + TotalLength(Values([lines[0]], "data")) by {
        CollectedLength(s, [lines[0]]);
      }
      DrainLines(Collected(s, [lines[0]]), lines[1..], rest);
      CollectedStep(s, lines);
    }
  }

  lemma {:induction false} WriteLinesStep(lines: seq<Written>, rest: string)
    requires lines != []
    ensures WriteLines(lines) + rest
         == TextOf(lines[0].item) + LineEnd(lines[0].crlf) + (WriteLines(lines[1..]) + rest)
  {
    hide TextOf, LineEnd;
  }

  lemma {:induction false} CollectedNone(s: State)
    ensures Collected(s, []) == s
  {
    assert s.data + [] == s.data;
  }

  lemma {:induction false} CollectedLength(s: State, lines: seq<Written>)
    ensures Collected(s, lines).dataLength == s.dataLength + TotalLength(Values(lines, "data"))
  {
    hide Values, TotalLength, Ids, Last;
  }

  /** The blank line that ends a block dispatches it. */
  lemma {:induction false} DrainBlank(s: State, rest: string, crlf: bool)
    ensures Drain(s.(buffer := LineEnd(crlf) + rest)) == After(Listed(Pending(s)), Drain(Initial.(buffer := rest)))
  {
    assert LineEnd(crlf) + rest == "" + LineEnd(crlf) + rest;
    DrainTerminatedLine(s, "", rest, crlf);
  }

  lemma {:induction false} DrainBlock(block: Block, rest: string)
    requires Printable(block)
    ensures Drain(Initial.(buffer := WriteLines(block.lines) + LineEnd(block.crlf) + rest))
         == After(Listed(FrameOf(block)), Drain(Initial.(buffer := rest)))
  {
    hide Drain, Values, Ids, TotalLength, Writable, WriteLines, Join, LineEnd;
    var tail := LineEnd(block.crlf) + rest;
    assert WriteLines(block.lines) + LineEnd(block.crlf) + rest == WriteLines(block.lines) + tail;
    DrainLines(Initial, block.lines, tail);
    DrainBlank(Collected(Initial, block.lines), rest, block.crlf);
    assert [] + Values(block.lines, "data") == Values(block.lines, "data");
  }

  lemma {:induction false} DrainBlocks(blocks: seq<Block>)
    requires forall block :: block in blocks ==> Printable(block)
    ensures Drain(Initial.(buffer := WriteBlocks(blocks))) == Outcome(Initial, Success(FramesOf(blocks)))
    decreases |blocks|
  {
    if blocks == [] {
      DrainQuiet(Initial);
    } else {
      hide Drain, Printable, FrameOf, WriteLines, LineEnd;
      DrainBlock(blocks[0], WriteBlocks(blocks[1..]));
      DrainBlocks(blocks[1..]);
    }
  }

  /**
   Print/parse round trip: however the lines of a stream are written (fields
   in any order and spelling, comments and unknown fields between them, either
   line end) and however the text is cut into chunks, the parser accepts it
   exactly when no partial line outgrows the limit, returns exactly the events
   of its blocks, and has nothing left to finish.
   */
  lemma {:induction false} ParsePrinted(blocks: seq<Block>, chunks: seq<string>)
    requires forall block :: block in blocks ==> Printable(block)
    requires Concat(chunks) == WriteBlocks(blocks)
    ensures PushAll(Initial, chunks).result.Success? <==> LinesFit("", chunks)
    ensures PushAll(Initial, chunks).result.Success? ==>
              PushAll(Initial, chunks) == Outcome(Initial, Success(FramesOf(blocks)))
    ensures FinishAll(Initial) == Outcome(Initial, Success([]))
  {
    PushAllIsDrain(Initial, chunks);
    assert "" + Concat(chunks) == Concat(chunks);
    DrainBlocks(blocks);
  }

  // ----- every event can be written -----

  /** The lines of a text; `Join` puts them together again. */
  function LinesOf(text: string): (lines: seq<string>)
    ensures lines != []
    ensures forall line :: line in lines ==> '\n' !in line
    ensures Join(lines) == text
    decreases |text|
  {
    var newline := IndexOf(text, '\n');
    if newline < 0 then [text]
    else
      var rest := LinesOf(text[newline + 1..]);
      assert ([text[..newline]] + rest)[1..] == rest;
      assert text == text[..newline] + "\n" + text[newline + 1..];
      [text[..newline]] + rest
  }

  function DataLines(values: seq<string>, crlf: bool): seq<Written>
  {
    if values == [] then [] else [Written(Entry("data", values[0], Spaced), crlf)] + DataLines(values[1..], crlf)
  }

  /** A block for an event, with all its fields spelled out. */
  function BlockOf(f: Frame, crlf: bool): Block
  {
    var id := if f.id.Some? then [Written(Entry("id", f.id.value, Spaced), crlf)] else [];
    Block([Written(Entry("event", f.event, Spaced), crlf)] + id + DataLines(LinesOf(f.data), crlf), crlf)
  }

  lemma {:induction false} DataLinesGive(values: seq<string>, crlf: bool, name: string)
    ensures Values(DataLines(values, crlf), name) == if name == "data" then values else []
  {
    if values != [] {
      DataLinesGive(values[1..], crlf, name);
      assert DataLines(values, crlf)[1..] == DataLines(values[1..], crlf);
    }
  }

  lemma {:induction false} ValuesAppend(a: seq<Written>, b: seq<Written>, name: string)
    ensures Values(a + b, name) == Values(a, name) + Values(b, name)
  {
    if a == [] {
      assert a + b == b;
    } else {
      assert (a + b)[1..] == a[1..] + b;
      ValuesAppend(a[1..], b, name);
    }
  }

  lemma {:induction false} BlockValues(f: Frame, crlf: bool, name: string)
    ensures Values(BlockOf(f, crlf).lines, name)
         == (if name == "event" then [f.event] else [])
            + (if name == "id" && f.id.Some? then [f.id.value] else [])
            + (if name == "data" then LinesOf(f.data) else [])
  {
    hide Values, LinesOf, DataLines;
    var event := [Written(Entry("event", f.event, Spaced), crlf)];
    var id := if f.id.Some? then [Written(Entry("id", f.id.value, Spaced), crlf)] else [];
    var data := DataLines(LinesOf(f.data), crlf);
    ValuesAppend(event + id, data, name);
    ValuesAppend(event, id, name);
    OneValue(event[0], name);
    if f.id.Some? {
      OneValue(id[0], name);
    }
    DataLinesGive(LinesOf(f.data), crlf, name);
    NoValues(name);
  }

  /** No event is out of reach: its block means just that event. */
  lemma {:induction false} EveryEventCanBeWritten(f: Frame, crlf: bool)
    requires f.event != "" && (f.id.Some? ==> '\0' !in f.id.value)
    ensures FrameOf(BlockOf(f, crlf)) == Some(f)
  {
    hide LinesOf, Values, BlockOf, Join;
    BlockValues(f, crlf, "event");
    BlockValues(f, crlf, "id");
    BlockValues(f, crlf, "data");
    OfNone();
    assert [] + [] + LinesOf(f.data) == LinesOf(f.data);
    assert [f.event] + [] + [] == [f.event];
    if f.id.Some? {
      assert [] + [f.id.value] + [] == [f.id.value];
      OfOne(f.id.value);
    }
  }
}
