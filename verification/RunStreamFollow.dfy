/**
 The reconnect loop of `run-stream-follow.ts`.

 The network is a script: for each connection, what it delivers and how it
 ends. `Follow` is the loop of the source over such a script; every call of
 the observer is recorded. It is proved against `FollowAll`, and then about
 `FollowAll` that reconnecting is transparent.
 */
module RunStreamFollow {
  import opened Wrappers
  import opened RunStream

  /** How `streamRunEvents` settles: it returns, or it throws an error that is retryable or not. */
  datatype Ending = Finished | Broken(retryable: bool)

  /**
   One connection. `aborted`: the caller's signal has fired by its end;
   `abortedWaiting`: it fires during the back-off after it.
   */
  datatype Connection = Connection(
    wasOpened: bool, messages: seq<Message>, ending: Ending, aborted: bool, abortedWaiting: bool)

  datatype ConnectionState = Connecting | Live | Reconnecting | Incompatible | Closed

  /** `Returned` and the two rejections of the promise; `Running` while there may be more connections. */
  datatype Outcome = Running | Returned | Rejected | RejectedWaiting

  /** A connection was opened for the events after `cursor`, when `shown` projections had been shown. */
  datatype Ask = Ask(cursor: int, shown: nat)

  datatype Run = Run(
    projection: Projection, reconnectAttempt: nat, outcome: Outcome,
    projections: seq<Projection>, states: seq<ConnectionState>, asks: seq<Ask>)

  // ----- the specification -----

  datatype Fed = Fed(projection: Projection, projections: seq<Projection>, failed: bool)

  /** `onMessage` for each message, up to the first that throws. */
  function Feed(p: Projection, messages: seq<Message>): Fed
    decreases |messages|
  {
    if messages == [] then Fed(p, [], false)
    else
      var next := Reduce(p, messages[0]);
      if next.Failure? then Fed(p, [], true)
      else
        var rest := Feed(next.value, messages[1..]);
        Fed(rest.projection, [next.value] + rest.projections, rest.failed)
  }

  function Opening(r: Run, c: Connection): Run
  {
    var asked := r.(asks := r.asks + [Ask(r.projection.durableSeq, |r.projections|)],
                    states := r.states + [if r.reconnectAttempt == 0 then Connecting else Reconnecting]);
    if c.wasOpened then asked.(reconnectAttempt := 0, states := asked.states + [Live]) else asked
  }

  function Dropped(r: Run): Run
  {
    r.(projection := Disconnect(r.projection), projections := r.projections + [Disconnect(r.projection)])
  }

  function Settle(r: Run, c: Connection, failed: bool): Run
  {
    var threw := failed || c.ending.Broken?;
    var retryable := !failed && (c.ending.Broken? ==> c.ending.retryable);
    if r.projection.terminalStatus.Some? || c.aborted then r.(outcome := Returned, states := r.states + [Closed])
    else if threw && !retryable then Dropped(r).(outcome := Rejected, states := r.states + [Incompatible])
    else Dropped(r).(reconnectAttempt := r.reconnectAttempt + 1, states := r.states + [Reconnecting],
                     outcome := if c.abortedWaiting then RejectedWaiting else Running)
  }

  function Connect(r: Run, c: Connection): Run
  {
    var opening := Opening(r, c);
    var fed := Feed(r.projection, c.messages);
    Settle(opening.(projection := fed.projection, projections := r.projections + fed.projections), c, fed.failed)
  }

  function FollowAll(r: Run, script: seq<Connection>): Run
    decreases |script|
  {
    if script == [] || !r.outcome.Running? then r else FollowAll(Connect(r, script[0]), script[1..])
  }

  function Start(runId: string, initial: int): Run
  {
    var p := Create(runId, initial);
    Run(p, 0, Running, [p], [], [])
  }

  // ----- the code -----

  /** The client calls `onMessage` for one message after the other, until it throws. */
  method StreamMessages(p: Projection, messages: seq<Message>) returns (fed: Fed)
    ensures fed == Feed(p, messages)
  {
    hide Reduce;
    var projection := p;
    var projections: seq<Projection> := [];
    for i := 0 to |messages|
      invariant Feed(p, messages) == var rest := Feed(projection, messages[i..]);
                                     Fed(rest.projection, projections + rest.projections, rest.failed)
    {
      var next := Reduce(projection, messages[i]);
      assert messages[i..][1..] == messages[i + 1..];
      if next.Failure? {
        assert projections + [] == projections;
        return Fed(projection, projections, true);
      }
      ghost var rest := Feed(next.value, messages[i + 1..]);
      assert projections + ([next.value] + rest.projections) == projections + [next.value] + rest.projections;
      projection := next.value;
      projections := projections + [projection];
    }
    assert projections + [] == projections;
    return Fed(projection, projections, false);
  }

  /** `followRunEvents`, for a signal that has not fired at the call. */
  method Follow(runId: string, initial: int, script: seq<Connection>) returns (run: Run)
    ensures run == FollowAll(Start(runId, initial), script)
  {
    hide Feed;
    var projection := Create(runId, initial);
    var reconnectAttempt := 0;
    var outcome := Running;
    var projections := [projection];
    var states: seq<ConnectionState> := [];
    var asks: seq<Ask> := [];
    var n := 0;
    while n < |script| && outcome.Running?
      invariant n <= |script|
      invariant FollowAll(Run(projection, reconnectAttempt, outcome, projections, states, asks), script[n..])
             == FollowAll(Start(runId, initial), script)
    {
      var c := script[n];
      ghost var before := Run(projection, reconnectAttempt, outcome, projections, states, asks);
      states := states + [if reconnectAttempt == 0 then Connecting else Reconnecting];
      asks := asks + [Ask(projection.durableSeq, |projections|)];
      if c.wasOpened {
        reconnectAttempt := 0;
        states := states + [Live];
      }
      var fed := StreamMessages(projection, c.messages);
      projection := fed.projection;
      projections := projections + fed.projections;
      ghost var opening := Opening(before, c).(projection := projection, projections := projections);
      if projection.terminalStatus.Some? || c.aborted {
        states := states + [Closed];
        outcome := Returned;
      } else {
        var threw := fed.failed || c.ending.Broken?;
        var retryable := !fed.failed && (c.ending.Broken? ==> c.ending.retryable);
        projection := Disconnect(projection);
        projections := projections + [projection];
        if threw && !retryable {
          states := states + [Incompatible];
          outcome := Rejected;
        } else {
          reconnectAttempt := reconnectAttempt + 1;
          states := states + [Reconnecting];
          if c.abortedWaiting {
            outcome := RejectedWaiting;
          }
        }
      }
      assert Run(projection, reconnectAttempt, outcome, projections, states, asks) == Settle(opening, c, fed.failed);
      assert script[n..][1..] == script[n + 1..];
      n := n + 1;
    }
    run := Run(projection, reconnectAttempt, outcome, projections, states, asks);
  }

  // ----- the environment -----

  /** A durable log of one run, in increasing order. */
  predicate IsLog(log: seq<DurableEvent>, runId: string)
  {
    Increasing(log) && forall e :: e in log ==> e.runId == runId
  }

  /** The first event of the log behind a cursor. */
  predicate IsNext(log: seq<DurableEvent>, cursor: int, e: DurableEvent)
  {
    e in log && e.durableSeq > cursor && forall x :: x in log ==> x.durableSeq <= cursor || x.durableSeq >= e.durableSeq
  }

  /**
   What a connection asked for the events after `cursor` may deliver: the
   log in order from there, cut anywhere, with old events repeated and any
   live events in between.
   */
  predicate Delivers(log: seq<DurableEvent>, cursor: int, messages: seq<Message>)
    decreases |messages|
  {
    messages == [] ||
    match messages[0]
    case Ephemeral(_) => Delivers(log, cursor, messages[1..])
    case Durable(e) =>
      if e.durableSeq <= cursor then e in log && Delivers(log, cursor, messages[1..])
      else IsNext(log, cursor, e) && Delivers(log, e.durableSeq, messages[1..])
  }

  /** Each connection of the script delivers for the cursor it will be asked with. */
  predicate Faithful(log: seq<DurableEvent>, r: Run, script: seq<Connection>)
    decreases |script|
  {
    script == [] || !r.outcome.Running?
    || (Delivers(log, r.projection.durableSeq, script[0].messages) && Faithful(log, Connect(r, script[0]), script[1..]))
  }

  // ----- reconnect transparency -----

  /** The log entries after `lo`, up to and including `hi`. */
  function Between(log: seq<DurableEvent>, lo: int, hi: int): seq<DurableEvent>
  {
    if log == [] then []
    else (if lo < log[0].durableSeq <= hi then [log[0]] else []) + Between(log[1..], lo, hi)
  }

  lemma {:induction false} BetweenNothing(log: seq<DurableEvent>, lo: int, hi: int)
    requires forall e :: e in log ==> e.durableSeq > hi
    ensures Between(log, lo, hi) == []
  {
    if log != [] {
      assert log[0] in log;
      BetweenNothing(log[1..], lo, hi);
    }
  }

  lemma {:induction false} IncreasingTail(log: seq<DurableEvent>)
    requires Increasing(log) && log != []
    ensures Increasing(log[1..])
    ensures forall x :: x in log[1..] ==> x.durableSeq > log[0].durableSeq
  {
  }

  lemma {:induction false} BetweenNext(log: seq<DurableEvent>, lo: int, cursor: int, e: DurableEvent)
    requires Increasing(log) && lo <= cursor && IsNext(log, cursor, e)
    ensures Between(log, lo, e.durableSeq) == Between(log, lo, cursor) + [e]
  {
    IncreasingTail(log);
    hide Increasing;
    var rest := log[1..];
    assert forall x :: x in log <==> x == log[0] || x in rest by { assert log == [log[0]] + rest; }
    if log[0] == e {
      BetweenNothing(rest, lo, e.durableSeq);
      BetweenNothing(rest, lo, cursor);
    } else {
      BetweenNext(rest, lo, cursor, e);
    }
  }

  /** The projection's durable part is the plain view of the log entries it has passed. */
  ghost predicate Transparent(log: seq<DurableEvent>, runId: string, initial: int, p: Projection)
  {
    && p.runId == runId && initial <= p.durableSeq
    && ViewOf(p) == PlainView(initial, Between(log, initial, p.durableSeq))
  }

  lemma {:induction false} ReduceTransparent(log: seq<DurableEvent>, runId: string, initial: int, p: Projection, m: Message)
    requires IsLog(log, runId) && Transparent(log, runId, initial, p)
    requires m.Durable? ==> m.durable.durableSeq <= p.durableSeq || IsNext(log, p.durableSeq, m.durable)
    requires Reduce(p, m).Success?
    ensures var q := Reduce(p, m).value;
            Transparent(log, runId, initial, q)
            && q.durableSeq == if m.Durable? && m.durable.durableSeq > p.durableSeq then m.durable.durableSeq else p.durableSeq
  {
    hide IsKnown, IsRefresh, Terminal, Refreshes, ClearedNode, PayloadString, PlainView;
    match m {
      case Ephemeral(e) => LiveTrafficIsInvisible(p, e);
      case Durable(e) =>
        if e.durableSeq > p.durableSeq {
          DurableStep(p, initial, Between(log, initial, p.durableSeq), e);
          BetweenNext(log, initial, p.durableSeq, e);
        }
    }
  }

  lemma {:induction false} FeedTransparent(log: seq<DurableEvent>, runId: string, initial: int, p: Projection, messages: seq<Message>)
    requires IsLog(log, runId) && Transparent(log, runId, initial, p)
    requires Delivers(log, p.durableSeq, messages)
    ensures var fed := Feed(p, messages);
            Transparent(log, runId, initial, fed.projection) && fed.projection.durableSeq >= p.durableSeq
            && forall q :: q in fed.projections ==> Transparent(log, runId, initial, q)
    decreases |messages|
  {
    if messages != [] && Reduce(p, messages[0]).Success? {
      hide Reduce;
      ReduceTransparent(log, runId, initial, p, messages[0]);
      FeedTransparent(log, runId, initial, Reduce(p, messages[0]).value, messages[1..]);
    }
  }

  lemma {:induction false} ConnectTransparent(log: seq<DurableEvent>, runId: string, initial: int, r: Run, c: Connection)
    requires IsLog(log, runId) && Transparent(log, runId, initial, r.projection)
    requires forall q :: q in r.projections ==> Transparent(log, runId, initial, q)
    requires Delivers(log, r.projection.durableSeq, c.messages)
    ensures var s := Connect(r, c);
            Transparent(log, runId, initial, s.projection) && s.projection.durableSeq >= r.projection.durableSeq
            && forall q :: q in s.projections ==> Transparent(log, runId, initial, q)
  {
    hide PlainView, Feed, Between;
    FeedTransparent(log, runId, initial, r.projection, c.messages);
  }

  lemma {:induction false} FollowTransparent(log: seq<DurableEvent>, runId: string, initial: int, r: Run, script: seq<Connection>)
    requires IsLog(log, runId) && Transparent(log, runId, initial, r.projection)
    requires forall q :: q in r.projections ==> Transparent(log, runId, initial, q)
    requires Faithful(log, r, script)
    ensures forall q :: q in FollowAll(r, script).projections ==> Transparent(log, runId, initial, q)
    decreases |script|
  {
    if script != [] && r.outcome.Running? {
      hide Connect, Transparent;
      ConnectTransparent(log, runId, initial, r, script[0]);
      FollowTransparent(log, runId, initial, Connect(r, script[0]), script[1..]);
    }
  }

  /**
   Reconnect transparency: whatever the connections do, every projection the
   observer is shown has exactly the durable part that one uninterrupted
   reading of the log up to the same event gives.
   */
  lemma {:induction false} ReconnectTransparency(log: seq<DurableEvent>, runId: string, initial: int, script: seq<Connection>)
    requires IsLog(log, runId) && Faithful(log, Start(runId, initial), script)
    ensures forall q :: q in FollowAll(Start(runId, initial), script).projections ==>
              q.runId == runId && ViewOf(q) == PlainView(initial, Between(log, initial, q.durableSeq))
  {
    BetweenEmpty(log, initial);
    FollowTransparent(log, runId, initial, Start(runId, initial), script);
  }

  lemma {:induction false} BetweenEmpty(log: seq<DurableEvent>, at: int)
    ensures Between(log, at, at) == []
  {
    if log != [] {
      BetweenEmpty(log[1..], at);
    }
  }

  /** No projection in the list is behind an earlier one. */
  predicate NonDecreasing(ps: seq<Projection>)
  {
    forall i, j :: 0 <= i < j < |ps| ==> ps[i].durableSeq <= ps[j].durableSeq
  }

  lemma {:induction false} NonDecreasingAppend(a: seq<Projection>, b: seq<Projection>)
    requires NonDecreasing(a) && NonDecreasing(b)
    requires a != [] && b != [] ==> a[|a| - 1].durableSeq <= b[0].durableSeq
    ensures NonDecreasing(a + b)
  {
    forall i, j | 0 <= i < |a| && 0 <= j < |b| ensures a[i].durableSeq <= b[j].durableSeq {
      assert a[i].durableSeq <= a[|a| - 1].durableSeq && b[0].durableSeq <= b[j].durableSeq;
    }
  }

  function Last(ps: seq<Projection>): Projection
    requires ps != []
  {
    ps[|ps| - 1]
  }

  /** The connection asked for what follows the last projection shown at that moment. */
  predicate Resumes(ps: seq<Projection>, a: Ask)
  {
    0 < a.shown <= |ps| && a.cursor == ps[a.shown - 1].durableSeq
  }

  /**
   The observer never goes back, and each connection resumes from the last
   projection shown before it; so the cursors asked for never decrease either.
   */
  ghost predicate Forward(r: Run)
  {
    && r.projections != [] && Last(r.projections).durableSeq == r.projection.durableSeq
    && NonDecreasing(r.projections)
    && (forall i :: 0 <= i < |r.asks| ==> Resumes(r.projections, r.asks[i]))
    && (forall i, j :: 0 <= i < j < |r.asks| ==> r.asks[i].shown <= r.asks[j].shown)
  }

  lemma {:induction false} ReduceForward(p: Projection, m: Message)
    requires Reduce(p, m).Success?
    ensures Reduce(p, m).value.durableSeq >= p.durableSeq
  {
    hide IsKnown, IsRefresh, Terminal, Refreshes, ClearedNode, PayloadString, TotalText;
  }

  lemma {:induction false} FeedForward(p: Projection, messages: seq<Message>)
    ensures var fed := Feed(p, messages);
            && fed.projection.durableSeq >= p.durableSeq
            && NonDecreasing([p] + fed.projections)
            && fed.projection == Last([p] + fed.projections)
    decreases |messages|
  {
    if messages != [] && Reduce(p, messages[0]).Success? {
      ReduceForward(p, messages[0]);
      hide Reduce;
      var q := Reduce(p, messages[0]).value;
      var rest := Feed(q, messages[1..]);
      FeedForward(q, messages[1..]);
      NonDecreasingAppend([p], [q] + rest.projections);
      assert [p] + Feed(p, messages).projections == [p] + ([q] + rest.projections);
    }
  }

  lemma {:induction false} KeepsForward(r: Run, script: seq<Connection>)
    requires Forward(r)
    ensures Forward(FollowAll(r, script))
    decreases |script|
  {
    if script != [] && r.outcome.Running? {
      ConnectForward(r, script[0]);
      hide Connect, Forward;
      KeepsForward(Connect(r, script[0]), script[1..]);
    }
  }

  /**
   Without any assumption on the network: the durable cursor shown to the
   observer never decreases, and each connection resumes from the last one shown.
   */
  lemma {:induction false} FollowForward(runId: string, initial: int, script: seq<Connection>)
    ensures Forward(FollowAll(Start(runId, initial), script))
  {
    SingleNonDecreasing(Create(runId, initial));
    KeepsForward(Start(runId, initial), script);
  }

  /** The cursors asked for never decrease. */
  lemma {:induction false} AsksForward(r: Run, i: nat, j: nat)
    requires Forward(r) && i < j < |r.asks|
    ensures r.asks[i].cursor <= r.asks[j].cursor
  {
    assert Resumes(r.projections, r.asks[i]) && Resumes(r.projections, r.asks[j]);
  }

  lemma {:induction false} ConnectForward(r: Run, c: Connection)
    requires Forward(r)
    ensures Forward(Connect(r, c))
  {
    hide Feed;
    FeedForward(r.projection, c.messages);
    ConnectProjections(r, c);
    ConnectAppends(r, c);
    var s := Connect(r, c);
    hide NonDecreasing, Connect;
    forall i | 0 <= i < |s.asks| ensures Resumes(s.projections, s.asks[i]) {
      assert i < |r.asks| ==> Resumes(r.projections, r.asks[i]);
    }
  }

  /** A connection adds one question, after what was shown so far, and shows more behind it. */
  lemma {:induction false} ConnectAppends(r: Run, c: Connection)
    ensures var s := Connect(r, c);
            && s.asks == r.asks + [Ask(r.projection.durableSeq, |r.projections|)]
            && r.projections <= s.projections
  {
    hide Feed;
  }

  lemma {:induction false} ConnectProjections(r: Run, c: Connection)
    requires r.projections != [] && Last(r.projections).durableSeq == r.projection.durableSeq
    requires NonDecreasing(r.projections)
    ensures var s := Connect(r, c);
            s.projections != [] && Last(s.projections).durableSeq == s.projection.durableSeq
            && s.projection.durableSeq == Feed(r.projection, c.messages).projection.durableSeq
            && NonDecreasing(s.projections)
  {
    hide Feed, NonDecreasing;
    var fed := Feed(r.projection, c.messages);
    var shown := r.projections + fed.projections;
    ShownForward(r, c.messages);
    var dropped := [Disconnect(fed.projection)];
    SingleNonDecreasing(dropped[0]);
    NonDecreasingAppend(shown, dropped);
  }

  lemma {:induction false} ShownForward(r: Run, messages: seq<Message>)
    requires r.projections != [] && Last(r.projections).durableSeq == r.projection.durableSeq
    requires NonDecreasing(r.projections)
    ensures var fed := Feed(r.projection, messages);
            NonDecreasing(r.projections + fed.projections)
            && Last(r.projections + fed.projections).durableSeq == fed.projection.durableSeq
  {
    hide Feed, NonDecreasing;
    var fed := Feed(r.projection, messages);
    FeedForward(r.projection, messages);
    NonDecreasingTail([r.projection] + fed.projections);
    assert ([r.projection] + fed.projections)[1..] == fed.projections;
    NonDecreasingAppend(r.projections, fed.projections);
  }

  lemma {:induction false} NonDecreasingTail(ps: seq<Projection>)
    requires NonDecreasing(ps) && ps != []
    ensures NonDecreasing(ps[1..])
    ensures |ps| > 1 ==> ps[0].durableSeq <= ps[1].durableSeq
  {
  }

  lemma {:induction false} SingleNonDecreasing(p: Projection)
    ensures NonDecreasing([p])
  {
  }

  // ----- the end of a run -----

  lemma {:induction false} TerminalStays(p: Projection, m: Message)
    requires Reduce(p, m).Success? && p.terminalStatus.Some?
    ensures Reduce(p, m).value.terminalStatus.Some?
  {
    hide IsKnown, IsRefresh, Refreshes, ClearedNode, PayloadString, TotalText;
  }

  lemma {:induction false} FeedTerminal(p: Projection, messages: seq<Message>)
    ensures p.terminalStatus.Some? ==> Feed(p, messages).projection.terminalStatus.Some?
    ensures forall q :: q in Feed(p, messages).projections && q.terminalStatus.Some? ==>
              Feed(p, messages).projection.terminalStatus.Some?
    decreases |messages|
  {
    if messages != [] && Reduce(p, messages[0]).Success? {
      if p.terminalStatus.Some? { TerminalStays(p, messages[0]); }
      hide Reduce;
      FeedTerminal(Reduce(p, messages[0]).value, messages[1..]);
    }
  }

  /** Some projection shown was terminal only if the promise has returned and the connection is closed. */
  predicate EndsWhenTerminal(r: Run)
  {
    (r.projection.terminalStatus.Some? || exists q :: q in r.projections && q.terminalStatus.Some?) ==>
      r.outcome == Returned && r.states != [] && r.states[|r.states| - 1] == Closed
  }

  lemma {:induction false} ConnectEnds(r: Run, c: Connection)
    requires r.outcome.Running? && EndsWhenTerminal(r)
    ensures EndsWhenTerminal(Connect(r, c))
  {
    hide Feed;
    FeedTerminal(r.projection, c.messages);
  }

  lemma {:induction false} FollowEnds(r: Run, script: seq<Connection>)
    requires EndsWhenTerminal(r)
    ensures EndsWhenTerminal(FollowAll(r, script))
    decreases |script|
  {
    if script != [] && r.outcome.Running? {
      ConnectEnds(r, script[0]);
      hide Connect, EndsWhenTerminal;
      FollowEnds(Connect(r, script[0]), script[1..]);
    }
  }

  /**
   A terminal status is never lost: once any projection shown has one, the run
   is over, whatever arrives afterwards, and no further connection is opened.
   */
  lemma {:induction false} TerminalReturns(runId: string, initial: int, script: seq<Connection>)
    ensures EndsWhenTerminal(FollowAll(Start(runId, initial), script))
  {
    FollowEnds(Start(runId, initial), script);
  }

  // ----- which outcome a run has -----

  /** The projection after some messages; none if the reducer throws on one of them. */
  function Folded(p: Projection, messages: seq<Message>): Option<Projection>
    decreases |messages|
  {
    if messages == [] then Some(p)
    else if Reduce(p, messages[0]).Failure? then None
    else Folded(Reduce(p, messages[0]).value, messages[1..])
  }

  ghost predicate RefusedAt(p: Projection, messages: seq<Message>, i: nat)
  {
    i < |messages| && Folded(p, messages[..i]).Some? && Reduce(Folded(p, messages[..i]).value, messages[i]).Failure?
  }

  ghost predicate TerminalAfter(p: Projection, messages: seq<Message>, i: nat)
  {
    i <= |messages| && Folded(p, messages[..i]).Some? && Folded(p, messages[..i]).value.terminalStatus.Some?
  }

  /** Some message is refused by the projection it meets. */
  ghost predicate Refuses(p: Projection, messages: seq<Message>)
  {
    exists i: nat :: RefusedAt(p, messages, i)
  }

  /** Some projection on the way is terminal. */
  ghost predicate ShowsTerminal(p: Projection, messages: seq<Message>)
  {
    exists i: nat :: TerminalAfter(p, messages, i)
  }

  lemma {:induction false} FoldedFirst(p: Projection, messages: seq<Message>, i: nat)
    requires messages != [] && Reduce(p, messages[0]).Success? && i < |messages|
    ensures Folded(p, messages[..i + 1]) == Folded(Reduce(p, messages[0]).value, messages[1..][..i])
  {
    hide Reduce;
    assert messages[..i + 1][1..] == messages[1..][..i];
  }

  lemma {:induction false} RefusedFirst(p: Projection, messages: seq<Message>)
    requires messages != []
    ensures Refuses(p, messages)
       <==> Reduce(p, messages[0]).Failure? || Refuses(Reduce(p, messages[0]).value, messages[1..])
  {
    hide Reduce;
    assert messages[..0] == [] && Folded(p, []) == Some(p);
    if Reduce(p, messages[0]).Failure? {
      assert RefusedAt(p, messages, 0);
    } else {
      var q, rest := Reduce(p, messages[0]).value, messages[1..];
      hide Folded;
      if i: nat :| RefusedAt(p, messages, i) {
        FoldedFirst(p, messages, i - 1);
        assert RefusedAt(q, rest, i - 1);
      }
      if i: nat :| RefusedAt(q, rest, i) {
        FoldedFirst(p, messages, i);
        assert RefusedAt(p, messages, i + 1);
      }
    }
  }

  lemma {:induction false} TerminalFirst(p: Projection, messages: seq<Message>)
    requires messages != []
    ensures ShowsTerminal(p, messages)
       <==> p.terminalStatus.Some?
            || (Reduce(p, messages[0]).Success? && ShowsTerminal(Reduce(p, messages[0]).value, messages[1..]))
  {
    hide Reduce;
    assert messages[..0] == [] && Folded(p, []) == Some(p);
    if p.terminalStatus.Some? { assert TerminalAfter(p, messages, 0); }
    if i: nat :| TerminalAfter(p, messages, i) {
      if i > 0 && Reduce(p, messages[0]).Success? {
        FoldedFirst(p, messages, i - 1);
        assert TerminalAfter(Reduce(p, messages[0]).value, messages[1..], i - 1);
      }
    }
    if Reduce(p, messages[0]).Success? {
      if i: nat :| TerminalAfter(Reduce(p, messages[0]).value, messages[1..], i) {
        FoldedFirst(p, messages, i);
        assert TerminalAfter(p, messages, i + 1);
      }
    }
  }

  lemma {:induction false} FeedMeans(p: Projection, messages: seq<Message>)
    ensures Feed(p, messages).failed <==> Refuses(p, messages)
    ensures Feed(p, messages).projection.terminalStatus.Some? <==> ShowsTerminal(p, messages)
    decreases |messages|
  {
    if messages == [] {
      assert messages[..0] == [];
      assert TerminalAfter(p, messages, 0) <==> p.terminalStatus.Some?;
    } else {
      RefusedFirst(p, messages);
      TerminalFirst(p, messages);
      if Reduce(p, messages[0]).Success? {
        if p.terminalStatus.Some? { TerminalStays(p, messages[0]); }
        hide Reduce, Refuses, ShowsTerminal;
        var q, rest := Reduce(p, messages[0]).value, messages[1..];
        FeedMeans(q, rest);
        FeedTerminal(q, rest);
      }
    }
  }

  /** Every message up to a refused one is shown, as the projection it leads to. */
  lemma {:induction false} FeedShows(p: Projection, messages: seq<Message>, i: nat)
    requires i < |Feed(p, messages).projections|
    ensures i < |messages| && Folded(p, messages[..i + 1]) == Some(Feed(p, messages).projections[i])
    decreases |messages|
  {
    hide Reduce;
    var q, rest := Reduce(p, messages[0]).value, messages[1..];
    if i == 0 {
      assert messages[..1] == [messages[0]] && [messages[0]][1..] == [];
    } else {
      FeedShows(q, rest, i - 1);
      FoldedFirst(p, messages, i);
    }
  }

  lemma {:induction false} FeedShowsAll(p: Projection, messages: seq<Message>)
    ensures var n := |Feed(p, messages).projections|;
            n <= |messages| && (if Refuses(p, messages) then RefusedAt(p, messages, n) else n == |messages|)
    decreases |messages|
  {
    hide Reduce;
    if messages == [] {
      assert forall i: nat :: !RefusedAt(p, messages, i);
    } else {
      RefusedFirst(p, messages);
      assert messages[..0] == [];
      if Reduce(p, messages[0]).Success? {
        var q, rest := Reduce(p, messages[0]).value, messages[1..];
        FeedShowsAll(q, rest);
        var n := |Feed(q, rest).projections|;
        if n < |rest| { FoldedFirst(p, messages, n); }
        hide Folded, Feed;
      }
    }
  }

  /** The outcome of a run whose last connection is `c`, opened for the projection `p`. */
  ghost function OutcomeOf(p: Projection, c: Connection): Outcome
  {
    if c.aborted || ShowsTerminal(p, c.messages) then Returned
    else if Refuses(p, c.messages) || (c.ending.Broken? && !c.ending.retryable) then Rejected
    else if c.abortedWaiting then RejectedWaiting
    else Running
  }

  /** What a connection shows: that it is tried, that it is live, and how it ended. */
  ghost function StatesOf(first: bool, p: Projection, c: Connection): seq<ConnectionState>
  {
    [if first then Connecting else Reconnecting]
    + (if c.wasOpened then [Live] else [])
    + [match OutcomeOf(p, c)
       case Returned => Closed
       case Rejected => Incompatible
       case _ => Reconnecting]
  }

  /** Attempts since the last connection that was opened, itself included. */
  function Tries(script: seq<Connection>): nat
  {
    if script == [] then 0
    else 1 + if script[|script| - 1].wasOpened then 0 else Tries(script[..|script| - 1])
  }

  lemma {:induction false} ConnectOutcome(r: Run, c: Connection)
    requires r.outcome.Running?
    ensures var t := Connect(r, c);
            && t.outcome == OutcomeOf(r.projection, c)
            && t.states == r.states + StatesOf(r.reconnectAttempt == 0, r.projection, c)
            && (t.outcome.Running? ==> t.reconnectAttempt == 1 + if c.wasOpened then 0 else r.reconnectAttempt)
            && (t.outcome != Returned ==> IsCleared(t.projection))
  {
    hide Feed, Refuses, ShowsTerminal;
    FeedMeans(r.projection, c.messages);
    var first: ConnectionState := if r.reconnectAttempt == 0 then Connecting else Reconnecting;
    var live: seq<ConnectionState> := if c.wasOpened then [Live] else [];
    var last: ConnectionState := match OutcomeOf(r.projection, c) case Returned => Closed case Rejected => Incompatible case _ => Reconnecting;
    assert r.states + ([first] + live + [last]) == (r.states + [first]) + live + [last];
    assert r.states + [first] + [] == r.states + [first];
  }

  /** Each connection was opened for a projection that had been shown. */
  predicate AsksAreShown(r: Run)
  {
    forall i :: 0 <= i < |r.asks| ==> 0 < r.asks[i].shown <= |r.projections|
  }

  /** The projections the connections were opened for: each the last one shown before. */
  function OpenedFor(r: Run): (ps: seq<Projection>)
    requires AsksAreShown(r)
    ensures |ps| == |r.asks|
  {
    seq(|r.asks|, i requires 0 <= i < |r.asks| => r.projections[r.asks[i].shown - 1])
  }

  ghost function StatesOfAll(ps: seq<Projection>, script: seq<Connection>): seq<ConnectionState>
    requires |ps| == |script|
  {
    if script == [] then []
    else
      var n := |script| - 1;
      StatesOfAll(ps[..n], script[..n]) + StatesOf(n == 0, ps[n], script[n])
  }

  /** No live text, no counters. */
  predicate IsCleared(p: Projection)
  {
    p.liveItems == map[] && p.lastSeqByCall == map[] && p.nextLiveOrder == 0 && !p.liveTruncated
  }

  /** The run is what these connections, one after the other, amount to. */
  ghost predicate History(r: Run, script: seq<Connection>)
  {
    && |r.asks| == |script| && AsksAreShown(r)
    && r.projections != [] && Last(r.projections) == r.projection
    && r.states == StatesOfAll(OpenedFor(r), script)
    && (forall i :: 0 <= i < |script| - 1 ==> OutcomeOf(OpenedFor(r)[i], script[i]) == Running)
    && r.outcome == (if script == [] then Running else OutcomeOf(OpenedFor(r)[|script| - 1], script[|script| - 1]))
    && (r.outcome.Running? ==> r.reconnectAttempt == Tries(script))
    && (r.outcome != Returned ==> IsCleared(r.projection)) && (forall i :: 0 <= i < |script| ==> IsCleared(OpenedFor(r)[i]))
  }

  lemma {:induction false} ConnectLast(r: Run, c: Connection)
    requires r.projections != [] && Last(r.projections) == r.projection
    ensures Last(Connect(r, c).projections) == Connect(r, c).projection
  {
    hide Reduce;
    FeedLast(r.projection, c.messages);
    hide Feed;
    var fed := Feed(r.projection, c.messages);
    assert Last(r.projections + fed.projections) == fed.projection;
  }

  lemma {:induction false} FeedLast(p: Projection, messages: seq<Message>)
    ensures var fed := Feed(p, messages);
            if fed.projections == [] then fed.projection == p else Last(fed.projections) == fed.projection
    decreases |messages|
  {
    hide Reduce;
    if messages != [] && Reduce(p, messages[0]).Success? {
      FeedLast(Reduce(p, messages[0]).value, messages[1..]);
    }
  }

  lemma {:induction false} StatesOneMore(ps: seq<Projection>, script: seq<Connection>, p: Projection, c: Connection)
    requires |ps| == |script|
    ensures StatesOfAll(ps + [p], script + [c]) == StatesOfAll(ps, script) + StatesOf(script == [], p, c)
  {
    hide StatesOf;
    assert (ps + [p])[..|ps|] == ps && (script + [c])[..|script|] == script;
  }

  lemma {:induction false} TriesOneMore(script: seq<Connection>, c: Connection)
    ensures Tries(script + [c]) == 1 + if c.wasOpened then 0 else Tries(script)
    ensures Tries(script) == 0 <==> script == []
  {
    assert (script + [c])[..|script|] == script;
  }

  lemma {:induction false} HistoryStep(r: Run, script: seq<Connection>, c: Connection)
    requires History(r, script) && r.outcome.Running?
    ensures History(Connect(r, c), script + [c])
  {
    hide Connect, OutcomeOf, StatesOf, StatesOfAll, Tries;
    var t, n := Connect(r, c), |script|;
    ConnectAppends(r, c);
    ConnectLast(r, c);
    ConnectOutcome(r, c);
    assert OpenedFor(t) == OpenedFor(r) + [r.projection];
    StatesOneMore(OpenedFor(r), script, r.projection, c);
    TriesOneMore(script, c);
    assert forall i :: 0 <= i < n ==> (script + [c])[i] == script[i] && OpenedFor(t)[i] == OpenedFor(r)[i];
  }

  lemma HistorySize(r: Run, script: seq<Connection>)
    requires History(r, script)
    ensures |r.asks| == |script|
  {
  }

  lemma {:induction false} HistoryOfAll(r: Run, before: seq<Connection>, script: seq<Connection>)
    requires History(r, before)
    ensures var t := FollowAll(r, script);
            && |before| <= |t.asks| <= |before + script| && History(t, (before + script)[..|t.asks|])
            && (t.outcome.Running? ==> |t.asks| == |before + script|)
    decreases |script|
  {
    hide Connect, History;
    HistorySize(r, before);
    if script == [] || !r.outcome.Running? {
      assert (before + script)[..|before|] == before;
    } else {
      HistoryStep(r, before, script[0]);
      HistoryOfAll(Connect(r, script[0]), before + [script[0]], script[1..]);
      assert before + [script[0]] + script[1..] == before + script;
    }
  }

  /** The connection was aborted, or showed something terminal. */
  ghost predicate IsOver(p: Projection, c: Connection)
  {
    c.aborted || ShowsTerminal(p, c.messages)
  }

  /** A message was refused, or the connection broke for good. */
  ghost predicate HasFailed(p: Projection, c: Connection)
  {
    Refuses(p, c.messages) || (c.ending.Broken? && !c.ending.retryable)
  }

  /** How a run ends, by its last connection. */
  ghost predicate EndsBy(r: Run, p: Projection, c: Connection)
  {
    && (r.outcome == Returned <==> IsOver(p, c))
    && (r.outcome == Rejected <==> !IsOver(p, c) && HasFailed(p, c))
    && (r.outcome == RejectedWaiting <==> !IsOver(p, c) && !HasFailed(p, c) && c.abortedWaiting)
    && r.states != []
    && r.states[|r.states| - 1] == if IsOver(p, c) then Closed else if HasFailed(p, c) then Incompatible else Reconnecting
  }

  lemma {:induction false} HistoryEnds(r: Run, script: seq<Connection>)
    requires History(r, script) && script != []
    ensures EndsBy(r, OpenedFor(r)[|script| - 1], script[|script| - 1])
  {
    hide ShowsTerminal, Refuses, StatesOfAll, Tries, OpenedFor;
    var n := |script| - 1;
    var ps := OpenedFor(r);
    assert r.states == StatesOfAll(ps[..n], script[..n]) + StatesOf(n == 0, ps[n], script[n]) by {
      StatesOneMore(ps[..n], script[..n], ps[n], script[n]);
      assert ps[..n] + [ps[n]] == ps && script[..n] + [script[n]] == script;
    }
  }

  lemma {:induction false} HistoryGoesOn(r: Run, script: seq<Connection>, i: nat)
    requires History(r, script) && i < |script| - 1
    ensures !IsOver(OpenedFor(r)[i], script[i]) && !HasFailed(OpenedFor(r)[i], script[i]) && !script[i].abortedWaiting
  {
    hide ShowsTerminal, Refuses, StatesOfAll, Tries;
    assert OutcomeOf(OpenedFor(r)[i], script[i]) == Running;
  }

  /**
   Over every script, by the script and the reducer alone. A further
   connection is opened only if the one before was neither aborted nor
   terminal, had no message refused and did not break for good. The run is
   rejected, with last state `Incompatible`, exactly when its last connection
   did one of the last two and neither of the first two; it has returned, with
   last state `Closed`, exactly when that connection was aborted or terminal.
   It stops early for no other reason, the states shown are those of its
   connections one after the other, and each connection starts without live text.
   */
  lemma {:induction false} RunOutcome(runId: string, initial: int, script: seq<Connection>)
    ensures var r := FollowAll(Start(runId, initial), script);
            var n := |r.asks|;
            && n <= |script| && (r.outcome.Running? ==> n == |script|)
            && AsksAreShown(r) && r.states == StatesOfAll(OpenedFor(r), script[..n])
            && (forall i :: 0 <= i < n ==> IsCleared(OpenedFor(r)[i]))
            && (n > 0 ==> EndsBy(r, OpenedFor(r)[n - 1], script[n - 1]))
            && (forall i :: 0 <= i < n - 1 ==>
                  !IsOver(OpenedFor(r)[i], script[i]) && !HasFailed(OpenedFor(r)[i], script[i]) && !script[i].abortedWaiting)
  {
    StartHistory(runId, initial);
    hide IsOver, HasFailed, EndsBy, StatesOfAll, OutcomeOf, Tries;
    HistoryOfAll(Start(runId, initial), [], script);
    assert [] + script == script;
    var r := FollowAll(Start(runId, initial), script);
    var n := |r.asks|;
    var done := script[..n];
    if n > 0 { HistoryEnds(r, done); }
    forall i | 0 <= i < n - 1
      ensures !IsOver(OpenedFor(r)[i], script[i]) && !HasFailed(OpenedFor(r)[i], script[i]) && !script[i].abortedWaiting
    {
      HistoryGoesOn(r, done, i);
    }
  }

  lemma StartHistory(runId: string, initial: int)
    ensures History(Start(runId, initial), [])
  {
  }
}
