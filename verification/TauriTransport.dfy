/**
 The pull loop of `TauriTransport.subscribeRun`, `transport.ts`.

 `Subscription` holds the closure variables of the source (`cursor`,
 `draining`, `pending`, `wake`), the abort flag and what the observer was
 given. Each method is the code between two suspension points; `phase` says
 where the code is suspended.
 */
module TauriTransport {
  import opened RunStream

  const PAGE_LIMIT: nat := 500

  /** Where `subscribeRun` is suspended, or how it ended. */
  datatype Phase =
    | Opening                 // awaiting `listen`
    | Querying(after: int)    // awaiting `list_run_events`
    | Drained                 // `drain` has returned
    | Parked(woken: bool)     // awaiting the wake-up promise
    | Closed
    | Broken

  datatype Sub = Sub(
    cursor: int, draining: bool, pending: bool, wake: bool, aborted: bool, phase: Phase,
    delivered: seq<DurableEvent>)

  // ----- the steps of the code -----

  function Opened(start: int): Sub
  {
    Sub(start, false, true, false, false, Opening, [])
  }

  /** Entering `drain`, up to the query. */
  function BeginDrain(s: Sub): Sub
  {
    if s.draining then s.(pending := true)
    else s.(draining := true, pending := false, phase := Querying(s.cursor))
  }

  function Notified(s: Sub): Sub
  {
    s.(pending := true, phase := if s.wake && s.phase.Parked? then Parked(true) else s.phase)
  }

  function AbortedBy(s: Sub): Sub
  {
    s.(aborted := true, phase := if s.phase.Parked? then Parked(true) else s.phase)
  }

  /** The events of a page that pass the cursor check, one after the other. */
  function Fresh(cursor: int, page: seq<DurableEvent>): seq<DurableEvent>
    decreases |page|
  {
    if page == [] then []
    else if page[0].durableSeq <= cursor then Fresh(cursor, page[1..])
    else [page[0]] + Fresh(page[0].durableSeq, page[1..])
  }

  lemma {:induction false} FreshStep(before: seq<DurableEvent>, cursor: int, page: seq<DurableEvent>)
    requires page != [] && page[0].durableSeq > cursor
    ensures before + Fresh(cursor, page) == before + [page[0]] + Fresh(page[0].durableSeq, page[1..])
  {
  }

  /** The sequence number of the last event, or `start` without events. */
  function Top(start: int, events: seq<DurableEvent>): int
  {
    if events == [] then start else events[|events| - 1].durableSeq
  }

  /**
   A page arrives. `taken` is how many of its events are handled before the
   decoder or the observer throws, all of them if neither does; `aborts`
   says whether the observer aborts the signal meanwhile.
   */
  function PageArrived(s: Sub, page: seq<DurableEvent>, taken: nat, aborts: bool): Sub
    requires taken <= |page|
  {
    var news := Fresh(s.cursor, page[..taken]);
    var t := s.(cursor := Top(s.cursor, news), delivered := s.delivered + news, aborted := s.aborted || aborts);
    if taken < |page| then t.(draining := false, phase := Broken)
    else if (t.pending || |page| == PAGE_LIMIT) && !t.aborted then t.(pending := false, phase := Querying(t.cursor))
    else t.(pending := t.pending || |page| == PAGE_LIMIT, draining := false, phase := Drained)
  }

  function QueryFailed(s: Sub): Sub
  {
    s.(draining := false, phase := Broken)
  }

  /** The head of the outer loop: leave, or install `wake` and wait unless something is pending. */
  function Park(s: Sub): Sub
  {
    if s.aborted then s.(phase := Closed) else s.(wake := true, phase := Parked(s.pending))
  }

  function Resume(s: Sub): Sub
  {
    var t := s.(wake := false);
    if t.aborted then t.(phase := Closed) else BeginDrain(t)
  }

  class Subscription {
    var cursor: int
    var draining: bool
    var pending: bool
    var wake: bool
    var aborted: bool
    var phase: Phase
    var delivered: seq<DurableEvent>

    function View(): Sub
      reads this
    {
      Sub(cursor, draining, pending, wake, aborted, phase, delivered)
    }

    constructor (afterDurableSeq: int)
      ensures View() == Opened(afterDurableSeq)
    {
      cursor, draining, pending, wake := afterDurableSeq, false, true, false;
      aborted, phase, delivered := false, Opening, [];
    }

    method Drain()
      modifies this
      ensures View() == BeginDrain(old(View()))
    {
      if draining {
        pending := true;
        return;
      }
      draining := true;
      pending := false;
      phase := Querying(cursor);
    }

    method OnNotification()
      modifies this
      ensures View() == Notified(old(View()))
    {
      pending := true;
      if wake && phase.Parked? {
        phase := Parked(true);
      }
    }

    method OnAbort()
      modifies this
      ensures View() == AbortedBy(old(View()))
    {
      aborted := true;
      if phase.Parked? {
        phase := Parked(true);
      }
    }

    method OnPage(page: seq<DurableEvent>, taken: nat, aborts: bool)
      requires taken <= |page|
      modifies this
      ensures View() == PageArrived(old(View()), page, taken, aborts)
    {
      HandleEvents(page[..taken]);
      aborted := aborted || aborts;
      if taken < |page| {
        draining := false;
        phase := Broken;
        return;
      }
      if |page| == PAGE_LIMIT {
        pending := true;
      }
      if pending && !aborted {
        pending := false;
        phase := Querying(cursor);
      } else {
        draining := false;
        phase := Drained;
      }
    }

    /** The loop over the events of a page. */
    method HandleEvents(events: seq<DurableEvent>)
      modifies this`cursor, this`delivered
      ensures cursor == Top(old(cursor), Fresh(old(cursor), events))
      ensures delivered == old(delivered) + Fresh(old(cursor), events)
    {
      ghost var news := [];
      for i := 0 to |events|
        invariant cursor == Top(old(cursor), news) && delivered == old(delivered) + news
        invariant Fresh(old(cursor), events) == news + Fresh(cursor, events[i..])
      {
        var event := events[i];
        assert events[i..][0] == event && events[i..][1..] == events[i + 1..];
        if event.durableSeq <= cursor {
          continue;
        }
        FreshStep(news, cursor, events[i..]);
        delivered := delivered + [event];
        cursor := event.durableSeq;
        news := news + [event];
      }
      assert news + Fresh(cursor, []) == news;
    }

    method OnQueryError()
      modifies this
      ensures View() == QueryFailed(old(View()))
    {
      draining := false;
      phase := Broken;
    }

    method Wait()
      modifies this
      ensures View() == Park(old(View()))
    {
      if aborted {
        phase := Closed;
        return;
      }
      wake := true;
      phase := Parked(pending);
    }

    method WakeUp()
      modifies this
      ensures View() == Resume(old(View()))
    {
      wake := false;
      if aborted {
        phase := Closed;
      } else {
        Drain();
      }
    }
  }
}
