/**
 The pull loop in its environment: a log that only grows, queries that are
 answered some time after they are asked, and notifications that fire some
 time after the event is stored. The results hold for every interleaving.
 */
module TauriProtocol {
  import opened RunStream
  import opened TauriTransport

  // ----- the log -----

  /** How many events lie at or before a cursor. */
  function Rank(log: seq<DurableEvent>, cursor: int): (n: nat)
    ensures n <= |log|
    ensures forall i :: 0 <= i < n ==> log[i].durableSeq <= cursor
    ensures n < |log| ==> log[n].durableSeq > cursor
  {
    if log == [] || log[0].durableSeq > cursor then 0 else 1 + Rank(log[1..], cursor)
  }

  lemma {:induction false} RankMonotone(log: seq<DurableEvent>, lo: int, hi: int)
    requires lo <= hi
    ensures Rank(log, lo) <= Rank(log, hi)
  {
    if log != [] && log[0].durableSeq <= lo {
      RankMonotone(log[1..], lo, hi);
    }
  }

  /** The events after `lo`, up to and including `hi`. */
  function Span(log: seq<DurableEvent>, lo: int, hi: int): seq<DurableEvent>
    requires lo <= hi
  {
    RankMonotone(log, lo, hi);
    log[Rank(log, lo)..Rank(log, hi)]
  }

  /**
   The answer to `list_run_events`: possibly some old events, then the events
   behind the cursor in order; only a full page may leave some out.
   */
  ghost predicate IsPage(log: seq<DurableEvent>, after: int, page: seq<DurableEvent>)
  {
    |page| <= PAGE_LIMIT && exists k :: 0 <= k <= |page| && IsPageFrom(log, after, page, k)
  }

  predicate IsPageFrom(log: seq<DurableEvent>, after: int, page: seq<DurableEvent>, k: nat)
    requires k <= |page|
  {
    var end := Rank(log, after) + |page| - k;
    && (forall i :: 0 <= i < k ==> page[i].durableSeq <= after)
    && end <= |log| && page[k..] == log[Rank(log, after)..end]
    && (|page| < PAGE_LIMIT ==> end == |log|)
  }

  lemma {:induction false} FreshSkips(cursor: int, page: seq<DurableEvent>, k: nat)
    requires k <= |page| && forall i :: 0 <= i < k ==> page[i].durableSeq <= cursor
    ensures Fresh(cursor, page) == Fresh(cursor, page[k..])
    decreases |page|
  {
    if k > 0 {
      FreshSkips(cursor, page[1..], k - 1);
      assert page[1..][k - 1..] == page[k..];
    } else {
      assert page[0..] == page;
    }
  }

  lemma {:induction false} FreshKeeps(cursor: int, events: seq<DurableEvent>)
    requires Increasing(events) && (events != [] ==> events[0].durableSeq > cursor)
    ensures Fresh(cursor, events) == events
    decreases |events|
  {
    if events != [] {
      FreshKeeps(events[0].durableSeq, events[1..]);
      assert events == [events[0]] + events[1..];
    }
  }

  lemma SliceIncreases(log: seq<DurableEvent>, lo: nat, hi: nat)
    requires Increasing(log) && lo <= hi <= |log|
    ensures Increasing(log[lo..hi])
  {
  }

  /** Of a page, cut where the handling stopped, exactly the new events are delivered. */
  lemma {:induction false} FreshOfPage(log: seq<DurableEvent>, after: int, page: seq<DurableEvent>, k: nat, taken: nat)
    requires Increasing(log) && k <= |page| && IsPageFrom(log, after, page, k) && taken <= |page|
    ensures var m := if taken <= k then 0 else taken - k;
            Rank(log, after) + m <= |log| && Fresh(after, page[..taken]) == log[Rank(log, after)..Rank(log, after) + m]
  {
    hide Rank, Fresh, Increasing;
    var skipped := if taken <= k then taken else k;
    FreshSkips(after, page[..taken], skipped);
    var rest := page[..taken][skipped..];
    var r := Rank(log, after);
    if taken > k {
      assert rest == page[k..][..taken - k] == log[r..r + taken - k];
      SliceIncreases(log, r, r + taken - k);
      FreshKeeps(after, rest);
    } else {
      SliceIncreases(log, r, r);
      FreshKeeps(after, log[r..r]);
      assert rest == [] == log[r..r];
    }
  }

  // ----- the system -----

  /** A query between asking and answering; `asOf` is the length of the log when it was asked. */
  datatype Flight = NoQuery | Asked(asOf: nat) | Answered(asOf: nat, at: nat, page: seq<DurableEvent>)

  /** `heard` is the highest event announced so far. */
  datatype System = System(start: int, sub: Sub, log: seq<DurableEvent>, heard: int, flight: Flight)

  datatype Step =
    | Append(event: DurableEvent)
    | Notify(event: DurableEvent)
    | Listening
    | Evaluate(page: seq<DurableEvent>)
    | Answer(taken: nat, aborts: bool)
    | Fail
    | Waiting
    | Waking
    | Abort

  function Max(a: int, b: int): int
  {
    if a < b then b else a
  }

  ghost predicate Enabled(s: System, step: Step)
  {
    match step
    case Append(e) => forall x :: x in s.log ==> x.durableSeq < e.durableSeq
    case Notify(e) => e in s.log
    case Listening => s.sub.phase.Opening?
    case Evaluate(page) => s.flight.Asked? && s.sub.phase.Querying? && IsPage(s.log, s.sub.phase.after, page)
    case Answer(taken, _) => s.flight.Answered? && s.sub.phase.Querying? && taken <= |s.flight.page|
    case Fail => s.sub.phase.Querying?
    case Waiting => s.sub.phase.Drained?
    case Waking => s.sub.phase == Parked(true)
    case Abort => true
  }

  function FlightAfter(s: System, sub: Sub): Flight
  {
    if sub.phase.Querying? then Asked(|s.log|) else NoQuery
  }

  function Next(s: System, step: Step): System
    requires step.Answer? ==> s.flight.Answered? && step.taken <= |s.flight.page|
    requires step.Evaluate? ==> s.flight.Asked?
  {
    match step
    case Append(e) => s.(log := s.log + [e])
    case Notify(e) => s.(sub := Notified(s.sub), heard := Max(s.heard, e.durableSeq))
    case Listening => var sub := BeginDrain(s.sub); s.(sub := sub, flight := FlightAfter(s, sub))
    case Evaluate(page) => s.(flight := Answered(s.flight.asOf, |s.log|, page))
    case Answer(taken, aborts) =>
      var sub := PageArrived(s.sub, s.flight.page, taken, aborts);
      s.(sub := sub, flight := FlightAfter(s, sub))
    case Fail => s.(sub := QueryFailed(s.sub), flight := NoQuery)
    case Waiting => s.(sub := Park(s.sub))
    case Waking => var sub := Resume(s.sub); s.(sub := sub, flight := FlightAfter(s, sub))
    case Abort => s.(sub := AbortedBy(s.sub))
  }

  /** A log may already exist when the subscription starts. */
  ghost predicate Initial(s: System)
  {
    && Increasing(s.log) && s.sub == Opened(s.start) && s.heard == s.start && s.flight == NoQuery
  }

  ghost predicate Reaches(s: System, steps: seq<Step>, t: System)
    decreases |steps|
  {
    if steps == [] then s == t else Enabled(s, steps[0]) && Reaches(Next(s, steps[0]), steps[1..], t)
  }

  // ----- the invariant -----

  /** What was delivered are the events from the start to the cursor, and the cursor is at the last of them. */
  predicate InStep(log: seq<DurableEvent>, start: int, cursor: int, delivered: seq<DurableEvent>)
  {
    start <= cursor == Top(start, delivered) && delivered == Span(log, start, cursor)
  }

  /** The flags match the place where the code is suspended; a parked loop is woken exactly when there is something to do. */
  predicate Control(sub: Sub, flight: Flight)
  {
    && (sub.draining <==> sub.phase.Querying?)
    && (sub.wake <==> sub.phase.Parked?)
    && (sub.phase.Opening? ==> sub.pending)
    && (sub.phase.Parked? ==> (sub.phase.woken <==> sub.pending || sub.aborted))
    && (sub.phase.Querying? ==> sub.phase.after == sub.cursor)
    && (flight.NoQuery? <==> !sub.phase.Querying?)
  }

  ghost predicate FlightOk(s: System)
  {
    && (s.flight.Asked? ==> s.flight.asOf <= |s.log|)
    && (s.flight.Answered? ==> s.flight.asOf <= s.flight.at <= |s.log| && s.sub.phase.Querying?
                               && IsPage(s.log[..s.flight.at], s.sub.phase.after, s.flight.page))
  }

  /** Everything announced is behind the cursor, on its way, or marked as pending. */
  predicate NothingLost(s: System)
  {
    && s.heard <= Max(s.start, Top(s.start, s.log))
    && (!s.sub.pending && !s.sub.phase.Broken? ==>
          match s.flight
          case NoQuery => s.heard <= s.sub.cursor
          case Asked(asOf) => asOf <= |s.log| && s.heard <= Max(s.sub.cursor, Top(s.start, s.log[..asOf]))
          case Answered(asOf, _, _) => asOf <= |s.log| && s.heard <= Max(s.sub.cursor, Top(s.start, s.log[..asOf])))
  }

  ghost predicate Inv(s: System)
  {
    Increasing(s.log) && InStep(s.log, s.start, s.sub.cursor, s.sub.delivered) && Control(s.sub, s.flight) && FlightOk(s)
    && NothingLost(s)
  }

  lemma {:induction false} InitialInv(s: System)
    requires Initial(s)
    ensures Inv(s)
  {
  }

  lemma {:induction false} TopMonotone(start: int, log: seq<DurableEvent>, m: nat, n: nat)
    requires Increasing(log) && m <= n <= |log|
    ensures Max(start, Top(start, log[..m])) <= Max(start, Top(start, log[..n]))
  {
  }

  lemma {:induction false} RankUnique(log: seq<DurableEvent>, cursor: int, n: nat)
    requires Increasing(log) && n <= |log|
    requires n > 0 ==> log[n - 1].durableSeq <= cursor
    requires n < |log| ==> log[n].durableSeq > cursor
    ensures Rank(log, cursor) == n
  {
    var q := Rank(log, cursor);
    assert q < |log| ==> log[q].durableSeq > cursor;
  }

  /** Storing one more event changes no rank, unless every stored event was already at or before the cursor. */
  lemma {:induction false} RankAppend(log: seq<DurableEvent>, e: DurableEvent, cursor: int)
    ensures Rank(log + [e], cursor)
         == if Rank(log, cursor) == |log| && e.durableSeq <= cursor then |log| + 1 else Rank(log, cursor)
    decreases |log|
  {
    if log != [] {
      assert (log + [e])[1..] == log[1..] + [e];
      RankAppend(log[1..], e, cursor);
    } else {
      assert ([e])[1..] == [];
    }
  }

  lemma {:induction false} IncreasingAppend(log: seq<DurableEvent>, start: int, e: DurableEvent)
    requires Increasing(log) && forall x :: x in log ==> x.durableSeq < e.durableSeq
    ensures Increasing(log + [e]) && Max(start, Top(start, log)) <= Max(start, Top(start, log + [e]))
  {
    forall i | 0 <= i < |log| ensures log[i].durableSeq < e.durableSeq { assert log[i] in log; }
  }

  lemma {:induction false} LastDelivered(log: seq<DurableEvent>, start: int, cursor: int, delivered: seq<DurableEvent>)
    requires InStep(log, start, cursor, delivered)
    ensures var lo, hi := Rank(log, start), Rank(log, cursor);
            lo <= hi && if lo == hi then cursor == start else log[hi - 1].durableSeq == cursor
  {
    hide Rank;
    RankMonotone(log, start, cursor);
    assert |delivered| == Rank(log, cursor) - Rank(log, start);
  }

  lemma {:induction false} InStepAppend(log: seq<DurableEvent>, start: int, cursor: int, delivered: seq<DurableEvent>, e: DurableEvent)
    requires InStep(log, start, cursor, delivered) && forall x :: x in log ==> x.durableSeq < e.durableSeq
    ensures InStep(log + [e], start, cursor, delivered)
  {
    hide Rank, Top;
    var lo, hi := Rank(log, start), Rank(log, cursor);
    LastDelivered(log, start, cursor, delivered);
    RankAppend(log, e, start);
    RankAppend(log, e, cursor);
    if lo < hi {
      assert log[hi - 1] in log;
      SliceAppend(log, e, lo, hi);
    }
  }

  lemma {:induction false} SliceAppend(log: seq<DurableEvent>, e: DurableEvent, lo: nat, hi: nat)
    requires lo <= hi <= |log|
    ensures (log + [e])[lo..hi] == log[lo..hi]
  {
  }

  lemma {:induction false} AppendInv(s: System, e: DurableEvent)
    requires Inv(s) && Enabled(s, Append(e))
    ensures Inv(Next(s, Append(e)))
  {
    hide Increasing, InStep, IsPage, Top, Control;
    var t := Next(s, Append(e));
    InStepAppend(s.log, s.start, s.sub.cursor, s.sub.delivered, e);
    IncreasingAppend(s.log, s.start, e);
    assert forall n :: 0 <= n <= |s.log| ==> t.log[..n] == s.log[..n];
  }

  lemma {:induction false} NotifyInv(s: System, e: DurableEvent)
    requires Inv(s) && Enabled(s, Notify(e))
    ensures Inv(Next(s, Notify(e)))
  {
    hide IsPage, InStep;
    var i :| 0 <= i < |s.log| && s.log[i] == e;
    assert i < |s.log| - 1 ==> s.log[i].durableSeq < s.log[|s.log| - 1].durableSeq;
  }

  lemma {:induction false} RankOfPrefix(log: seq<DurableEvent>, n: nat, cursor: int)
    requires n <= |log|
    ensures Rank(log[..n], cursor) == if Rank(log, cursor) <= n then Rank(log, cursor) else n
    decreases |log|
  {
    if log != [] && n > 0 {
      assert log[..n][1..] == log[1..][..n - 1];
      RankOfPrefix(log[1..], n - 1, cursor);
    }
  }

  /** The events of the log from the cursor on extend what was delivered, and move the cursor to the last of them. */
  lemma {:induction false} InStepExtend(
    log: seq<DurableEvent>, start: int, cursor: int, delivered: seq<DurableEvent>, end: nat)
    requires Increasing(log) && InStep(log, start, cursor, delivered) && Rank(log, cursor) <= end <= |log|
    ensures var news := log[Rank(log, cursor)..end];
            && InStep(log, start, Top(cursor, news), delivered + news)
            && Top(cursor, news) >= cursor && Rank(log, Top(cursor, news)) == end
  {
    var lo, hi := Rank(log, start), Rank(log, cursor);
    var news := log[hi..end];
    RankMonotone(log, start, cursor);
    TopAppend(start, delivered, news);
    SliceConcat(log, lo, hi, end);
    if hi < end {
      TopOfSlice(log, cursor, hi, end);
      RankOfLast(log, cursor, end);
    }
    hide Rank, Increasing, Top;
    assert hi == end ==> news == [];
  }

  lemma {:induction false} SliceConcat(log: seq<DurableEvent>, lo: nat, hi: nat, end: nat)
    requires lo <= hi <= end <= |log|
    ensures log[lo..hi] + log[hi..end] == log[lo..end]
  {
  }

  lemma {:induction false} TopAppend(start: int, a: seq<DurableEvent>, b: seq<DurableEvent>)
    ensures Top(Top(start, a), b) == Top(start, a + b)
  {
    if b == [] {
      assert a + b == a;
    }
  }

  lemma {:induction false} TopOfSlice(log: seq<DurableEvent>, start: int, lo: nat, hi: nat)
    requires lo < hi <= |log|
    ensures Top(start, log[lo..hi]) == log[hi - 1].durableSeq
  {
  }

  lemma {:induction false} RankOfLast(log: seq<DurableEvent>, cursor: int, end: nat)
    requires Increasing(log) && Rank(log, cursor) < end <= |log|
    ensures log[end - 1].durableSeq > cursor && Rank(log, log[end - 1].durableSeq) == end
  {
    assert log[Rank(log, cursor)].durableSeq <= log[end - 1].durableSeq;
    RankUnique(log, log[end - 1].durableSeq, end);
  }

  lemma {:induction false} IncreasingPrefix(log: seq<DurableEvent>, n: nat)
    requires Increasing(log) && n <= |log|
    ensures Increasing(log[..n])
  {
  }

  /** A cursor whose rank covers a part of the log is at or after its last event. */
  lemma {:induction false} RankCovers(log: seq<DurableEvent>, start: int, cursor: int, n: nat)
    requires n <= |log| && start <= cursor && n <= Rank(log, cursor)
    ensures Max(start, Top(start, log[..n])) <= cursor
  {
  }

  /** The new events of a page are the next ones of the log; those of a short page reach to the end of what was stored. */
  lemma {:induction false} NewsOfPage(log: seq<DurableEvent>, at: nat, after: int, page: seq<DurableEvent>, taken: nat) returns (end: nat)
    requires Increasing(log) && at <= |log| && IsPage(log[..at], after, page) && taken <= |page|
    ensures Rank(log, after) <= end <= |log| && Fresh(after, page[..taken]) == log[Rank(log, after)..end]
    ensures |page| <= PAGE_LIMIT && (taken == |page| < PAGE_LIMIT ==> at <= end)
  {
    var stored := log[..at];
    hide Fresh, Increasing, Rank;
    IncreasingPrefix(log, at);
    var k :| 0 <= k <= |page| && IsPageFrom(stored, after, page, k);
    FreshOfPage(stored, after, page, k, taken);
    RankOfPrefix(log, at, after);
    var m := if taken <= k then 0 else taken - k;
    end := Rank(log, after) + m;
    if m > 0 {
      assert stored[Rank(stored, after)..Rank(stored, after) + m] == log[Rank(log, after)..end];
    } else {
      assert Fresh(after, page[..taken]) == [] == log[end..end];
    }
  }

  lemma {:induction false} AnswerInv(s: System, taken: nat, aborts: bool)
    requires Inv(s) && Enabled(s, Answer(taken, aborts))
    ensures Inv(Next(s, Answer(taken, aborts)))
  {
    hide IsPage, InStep, Fresh, Increasing, Rank, Top;
    var end := NewsOfPage(s.log, s.flight.at, s.sub.cursor, s.flight.page, taken);
    InStepExtend(s.log, s.start, s.sub.cursor, s.sub.delivered, end);
    var t := PageArrived(s.sub, s.flight.page, taken, aborts);
    assert s.start <= t.cursor by { InStepStart(s.log, s.start, t.cursor, t.delivered); }
    TopMonotone(s.start, s.log, s.flight.asOf, s.flight.at);
    if taken == |s.flight.page| < PAGE_LIMIT {
      RankCovers(s.log, s.start, t.cursor, s.flight.at);
    }
    assert s.log[..|s.log|] == s.log;
  }

  lemma {:induction false} InStepStart(log: seq<DurableEvent>, start: int, cursor: int, delivered: seq<DurableEvent>)
    requires InStep(log, start, cursor, delivered)
    ensures start <= cursor
  {
  }

  lemma {:induction false} EvaluateInv(s: System, page: seq<DurableEvent>)
    requires Inv(s) && Enabled(s, Evaluate(page))
    ensures Inv(Next(s, Evaluate(page)))
  {
    assert s.log[..|s.log|] == s.log;
    hide IsPage, InStep, Increasing;
  }

  /** Every step of the code and of its environment keeps the invariant. */
  lemma {:induction false} StepInv(s: System, step: Step)
    requires Inv(s) && Enabled(s, step)
    ensures Inv(Next(s, step))
  {
    match step {
      case Append(e) => AppendInv(s, e);
      case Notify(e) => NotifyInv(s, e);
      case Evaluate(page) => EvaluateInv(s, page);
      case Answer(taken, aborts) => AnswerInv(s, taken, aborts);
      case _ => ControlInv(s, step);
    }
  }

  lemma {:induction false} ControlInv(s: System, step: Step)
    requires Inv(s) && Enabled(s, step)
    requires step.Listening? || step.Fail? || step.Waiting? || step.Waking? || step.Abort?
    ensures Inv(Next(s, step))
  {
    hide IsPage, Increasing, InStep, PageArrived, Top;
    InStepStart(s.log, s.start, s.sub.cursor, s.sub.delivered);
    assert s.log[..|s.log|] == s.log;
  }

  lemma {:induction false} RunInv(s: System, steps: seq<Step>, t: System)
    requires Inv(s) && Reaches(s, steps, t)
    ensures Inv(t)
    decreases |steps|
  {
    if steps != [] {
      StepInv(s, steps[0]);
      hide Inv, Next, Enabled;
      RunInv(Next(s, steps[0]), steps[1..], t);
    }
  }

  /**
   Whatever the interleaving, the observer has been given exactly the events
   from the start to the cursor: each once, in order, none skipped. When no
   query is in flight and nothing is pending, every announced event is among
   them; and once every stored event has been announced, all of them are.
   */
  lemma {:induction false} NoLostWakeUp(s: System, steps: seq<Step>, t: System)
    requires Initial(s) && Reaches(s, steps, t)
    ensures t.start <= t.sub.cursor && t.sub.delivered == Span(t.log, t.start, t.sub.cursor)
    ensures !t.sub.pending && !t.sub.phase.Querying? && !t.sub.phase.Broken? ==>
              t.heard <= t.sub.cursor
              && (t.heard >= Top(t.start, t.log) ==> t.sub.delivered == t.log[Rank(t.log, t.start)..])
  {
    InitialInv(s);
    RunInv(s, steps, t);
    if t.sub.cursor >= Top(t.start, t.log) {
      RankAll(t.log, t.start, t.sub.cursor);
    }
  }

  lemma {:induction false} RankAll(log: seq<DurableEvent>, start: int, cursor: int)
    requires Increasing(log) && cursor >= Top(start, log)
    ensures Rank(log, cursor) == |log|
  {
    RankUnique(log, cursor, |log|);
  }

  /**
   The loop never sleeps on work and never wakes without: it is woken exactly
   when something is pending or the signal has fired, and any later
   notification or abort wakes it. `drain` is never entered while it is running.
   */
  lemma {:induction false} ParkedMeansIdle(s: System, steps: seq<Step>, t: System, e: DurableEvent)
    requires Initial(s) && Reaches(s, steps, t)
    ensures t.sub.phase == Parked(false) ==> !t.sub.pending && !t.sub.aborted && t.heard <= t.sub.cursor
    ensures t.sub.phase == Parked(true) ==> t.sub.pending || t.sub.aborted
    ensures t.sub.phase.Parked? ==> Next(t, Notify(e)).sub.phase == Parked(true) && Next(t, Abort).sub.phase == Parked(true)
    ensures t.sub.phase == Opening || t.sub.phase == Parked(true) ==> !t.sub.draining
  {
    InitialInv(s);
    RunInv(s, steps, t);
    hide InStep, IsPage;
  }

  // ----- every query has a cause -----

  ghost predicate StartsQuery(s: System, step: Step)
    requires Enabled(s, step)
  {
    !s.flight.Asked? && Next(s, step).flight.Asked?
  }

  ghost function Queries(s: System, steps: seq<Step>): nat
    decreases |steps|
  {
    if steps == [] || !Enabled(s, steps[0]) then 0
    else (if StartsQuery(s, steps[0]) then 1 else 0) + Queries(Next(s, steps[0]), steps[1..])
  }

  /** The reasons to ask: a notification, or a page so full that it may have left something out. */
  function Causes(s: System, step: Step): nat
  {
    if step.Notify? || (step.Answer? && s.flight.Answered? && |s.flight.page| == PAGE_LIMIT) then 1 else 0
  }

  ghost function AllCauses(s: System, steps: seq<Step>): nat
    decreases |steps|
  {
    if steps == [] || !Enabled(s, steps[0]) then 0
    else Causes(s, steps[0]) + AllCauses(Next(s, steps[0]), steps[1..])
  }

  function Owed(s: System): nat
  {
    if s.sub.pending then 1 else 0
  }

  lemma {:induction false} QueryStep(s: System, step: Step)
    requires Inv(s) && Enabled(s, step)
    ensures (if StartsQuery(s, step) then 1 else 0) + Owed(Next(s, step)) <= Owed(s) + Causes(s, step)
  {
    hide IsPage, Increasing, InStep, FlightOk, NothingLost, Fresh, Top;
  }

  lemma {:induction false} QueriesOwed(s: System, steps: seq<Step>, t: System)
    requires Inv(s) && Reaches(s, steps, t)
    ensures Queries(s, steps) + Owed(t) <= Owed(s) + AllCauses(s, steps)
    decreases |steps|
  {
    if steps != [] {
      StepInv(s, steps[0]);
      QueryStep(s, steps[0]);
      hide Inv, Next, Enabled, StartsQuery, Causes, Owed;
      QueriesOwed(Next(s, steps[0]), steps[1..], t);
    }
  }

  /** The loop does not poll: beyond the first query, there are no more than notifications and full pages. */
  lemma {:induction false} QueriesAreCaused(s: System, steps: seq<Step>, t: System)
    requires Initial(s) && Reaches(s, steps, t)
    ensures Queries(s, steps) <= 1 + AllCauses(s, steps)
  {
    InitialInv(s);
    QueriesOwed(s, steps, t);
  }

  // ----- after an abort -----

  /** A step of `subscribeRun` or of the query it awaits; the others belong to the environment. */
  predicate IsCode(step: Step)
  {
    !step.Append? && !step.Notify? && !step.Abort?
  }

  function CodeSteps(steps: seq<Step>): nat
  {
    if steps == [] then 0 else (if IsCode(steps[0]) then 1 else 0) + CodeSteps(steps[1..])
  }

  /** How many steps of the code an abort still leaves. */
  function Left(s: System): nat
  {
    match s.sub.phase
    case Opening => 4
    case Querying(_) => if s.flight.Asked? then 3 else 2
    case Drained => 1
    case Parked(_) => 1
    case Closed => 0
    case Broken => 0
  }

  /** With the signal fired, a step of the code goes towards the end; only the first `drain` asks. */
  lemma {:induction false} AbortedStep(s: System, step: Step)
    requires Inv(s) && Enabled(s, step) && s.sub.aborted
    ensures var t := Next(s, step); t.sub.aborted && if IsCode(step) then Left(t) < Left(s) else Left(t) == Left(s)
    ensures StartsQuery(s, step) ==> s.sub.phase.Opening?
    ensures Next(s, step).sub.phase.Opening? ==> s.sub.phase.Opening?
    ensures IsCode(step) && (s.sub.phase.Drained? || s.sub.phase.Parked?) ==> Next(s, step).sub.phase.Closed?
    ensures Next(s, step).sub.delivered != s.sub.delivered ==> step.Answer?
  {
    hide IsPage, Increasing, InStep, FlightOk, NothingLost, Fresh, Top;
  }

  /** What may still be delivered from `s` on: the rest of a page that has been read, one page, or nothing. */
  ghost predicate AtMostThePage(s: System, delivered: seq<DurableEvent>)
  {
    if s.flight.Answered? then
      exists n: nat :: n <= |s.flight.page| && delivered == s.sub.delivered + Fresh(s.sub.cursor, s.flight.page[..n])
    else if s.flight.Asked? || s.sub.phase.Opening? then
      s.sub.delivered <= delivered && |delivered| <= |s.sub.delivered| + PAGE_LIMIT
    else
      delivered == s.sub.delivered
  }

  lemma {:induction false} FreshIsNoLonger(cursor: int, page: seq<DurableEvent>)
    ensures |Fresh(cursor, page)| <= |page|
    decreases |page|
  {
    if page != [] {
      FreshIsNoLonger(cursor, page[1..]);
      FreshIsNoLonger(page[0].durableSeq, page[1..]);
    }
  }

  lemma {:induction false} NothingIsEnough(s: System)
    ensures AtMostThePage(s, s.sub.delivered)
  {
    if s.flight.Answered? {
      assert Fresh(s.sub.cursor, s.flight.page[..0]) == [];
      assert s.sub.delivered + [] == s.sub.delivered;
    }
  }

  lemma {:induction false} AtMostThePageStep(s: System, step: Step, delivered: seq<DurableEvent>)
    requires Inv(s) && Enabled(s, step) && s.sub.aborted && AtMostThePage(Next(s, step), delivered)
    ensures AtMostThePage(s, delivered)
  {
    hide Increasing, InStep, NothingLost, Fresh, Top, IsPageFrom;
    NothingIsEnough(s);
    match step {
      case Evaluate(page) =>
        var n: nat :| n <= |page| && delivered == s.sub.delivered + Fresh(s.sub.cursor, page[..n]);
        FreshIsNoLonger(s.sub.cursor, page[..n]);
      case Answer(taken, aborts) =>
        assert delivered == s.sub.delivered + Fresh(s.sub.cursor, s.flight.page[..taken]);
      case _ =>
    }
  }

  lemma {:induction false} AbortedRun(s: System, steps: seq<Step>, t: System)
    requires Inv(s) && s.sub.aborted && Reaches(s, steps, t)
    ensures Queries(s, steps) <= if s.sub.phase.Opening? then 1 else 0
    ensures CodeSteps(steps) + Left(t) <= Left(s)
    ensures AtMostThePage(s, t.sub.delivered)
    decreases |steps|
  {
    if steps == [] {
      NothingIsEnough(s);
    } else {
      var mid := Next(s, steps[0]);
      StepInv(s, steps[0]);
      AbortedStep(s, steps[0]);
      AbortedRun(mid, steps[1..], t);
      AtMostThePageStep(s, steps[0], t.sub.delivered);
      if StartsQuery(s, steps[0]) {
        FirstQuery(s, steps[0]);
      }
    }
  }

  /** The step that asks leaves `Opening`, so nothing asks after it. */
  lemma {:induction false} FirstQuery(s: System, step: Step)
    requires Inv(s) && Enabled(s, step) && s.sub.aborted && StartsQuery(s, step)
    ensures !Next(s, step).sub.phase.Opening?
  {
    hide IsPage, Increasing, InStep, FlightOk, NothingLost, Fresh, Top;
  }

  /**
   Once the signal has fired, no step starts a query except the first `drain`
   after `listen`; at most the page in flight is still delivered; a drained
   or parked loop closes at its next step; and after at most four steps of
   the code the subscription has ended.
   */
  lemma {:induction false} AbortStops(s: System, before: seq<Step>, t: System, after: seq<Step>, u: System)
    requires Initial(s) && Reaches(s, before, t) && t.sub.aborted && Reaches(t, after, u)
    ensures Queries(t, after) <= if t.sub.phase.Opening? then 1 else 0
    ensures AtMostThePage(t, u.sub.delivered)
    ensures CodeSteps(after) + Left(u) <= Left(t) <= 4
    ensures u.sub.aborted && (Left(u) == 0 <==> u.sub.phase.Closed? || u.sub.phase.Broken?)
    ensures u.sub.phase.Drained? ==> Enabled(u, Waiting) && Next(u, Waiting).sub.phase.Closed?
    ensures u.sub.phase.Parked? ==> Enabled(u, Waking) && Next(u, Waking).sub.phase.Closed?
  {
    hide Inv, Initial, Next, AtMostThePage, Reaches;
    InitialInv(s);
    RunInv(s, before, t);
    RunInv(t, after, u);
    AbortedRun(t, after, u);
    StaysAborted(t, after, u);
    AbortedCloses(u);
    assert Left(t) <= 4;
  }

  lemma {:induction false} AbortedCloses(s: System)
    requires Inv(s) && s.sub.aborted
    ensures s.sub.phase.Drained? ==> Enabled(s, Waiting) && Next(s, Waiting).sub.phase.Closed?
    ensures s.sub.phase.Parked? ==> Enabled(s, Waking) && Next(s, Waking).sub.phase.Closed?
  {
    hide InStep, IsPage, FlightOk, NothingLost, Increasing;
  }

  lemma {:induction false} StaysAborted(s: System, steps: seq<Step>, t: System)
    requires Reaches(s, steps, t) && s.sub.aborted
    ensures t.sub.aborted
    decreases |steps|
  {
    if steps != [] {
      hide Fresh, Top;
      StaysAborted(Next(s, steps[0]), steps[1..], t);
    }
  }

  // ----- how a subscription ends -----

  ghost predicate Breaks(s: System, steps: seq<Step>)
    decreases |steps|
  {
    && steps != [] && Enabled(s, steps[0])
    && (steps[0].Fail? || (steps[0].Answer? && steps[0].taken < |s.flight.page|) || Breaks(Next(s, steps[0]), steps[1..]))
  }

  lemma {:induction false} EndStep(s: System, step: Step)
    requires Inv(s) && Enabled(s, step)
    ensures Next(s, step).sub.phase.Broken?
       <==> s.sub.phase.Broken? || step.Fail? || (step.Answer? && step.taken < |s.flight.page|)
    ensures s.sub.phase.Closed? ==> Next(s, step).sub.phase.Closed?
    ensures Next(s, step).sub.phase.Closed? ==> Next(s, step).sub.aborted || s.sub.phase.Closed?
  {
    hide IsPage, Increasing, InStep, FlightOk, NothingLost, Fresh, Top;
  }

  lemma {:induction false} EndRun(s: System, steps: seq<Step>, t: System)
    requires Inv(s) && Reaches(s, steps, t) && (s.sub.phase.Closed? ==> s.sub.aborted)
    ensures t.sub.phase.Broken? <==> s.sub.phase.Broken? || Breaks(s, steps)
    ensures t.sub.phase.Closed? ==> t.sub.aborted
    decreases |steps|
  {
    if steps != [] {
      StepInv(s, steps[0]);
      EndStep(s, steps[0]);
      if s.sub.aborted {
        KeepsAborted(s, steps[0]);
      }
      hide Inv, Next, Enabled;
      EndRun(Next(s, steps[0]), steps[1..], t);
    }
  }

  lemma {:induction false} KeepsAborted(s: System, step: Step)
    requires Enabled(s, step) && s.sub.aborted
    ensures Next(s, step).sub.aborted
  {
    hide Fresh, Top;
  }

  /** It closes only on an abort, and breaks exactly when a query fails or an event is not handled. */
  lemma {:induction false} HowItEnds(s: System, steps: seq<Step>, t: System)
    requires Initial(s) && Reaches(s, steps, t)
    ensures t.sub.phase.Broken? <==> Breaks(s, steps)
    ensures t.sub.phase.Closed? ==> t.sub.aborted
  {
    InitialInv(s);
    EndRun(s, steps, t);
  }
}
