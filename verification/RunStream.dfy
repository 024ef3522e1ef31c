/**
 The projection of a run's event stream, `run-stream-reducer.ts`.

 Reducers are functions from projection to projection, as in the source; the
 protocol error they may throw is a `Failure`. Live text is in UTF-16 units,
 which the limit counts.
 */
module RunStream {
  import opened Wrappers
  import opened UnicodeText
  import Json

  const MAX_LIVE_TEXT_CHARS: nat := 256 * 1024
  const MAX_RECENT_EVENTS: nat := 500

  datatype TerminalStatus = Completed | Failed | Cancelled

  datatype DurableEvent = DurableEvent(
    runId: string, durableSeq: int, kind: string, timestamp: int,
    nodeInstanceId: Option<string>, attemptId: Option<string>, importance: string, payload: Json.Value)

  datatype Audience = User | Trace | Both | Internal

  datatype LlmEvent =
    | TextDelta(callId: string, callSeq: int, itemId: string, text: Utf16)
    | OtherEvent(callId: string, callSeq: int)

  datatype EphemeralEvent = EphemeralEvent(
    runId: string, nodeInstanceId: string, modelCallId: string, audience: Audience, event: LlmEvent)

  datatype Message = Durable(durable: DurableEvent) | Ephemeral(ephemeral: EphemeralEvent)

  datatype TraceEvent = TraceEvent(
    durableSeq: int, kind: string, timestamp: int, nodeInstanceId: Option<string>, attemptId: Option<string>,
    graphNodeId: Option<string>, graphEdgeId: Option<string>, queueValueId: Option<string>, importance: string)

  datatype LiveItem = LiveItem(
    key: string, nodeInstanceId: string, modelCallId: string, itemId: string, text: Utf16, order: nat)

  datatype Projection = Projection(
    runId: string, durableSeq: int, terminalStatus: Option<TerminalStatus>, refreshVersion: nat,
    liveItems: map<string, LiveItem>, lastSeqByCall: map<string, int>, nextLiveOrder: nat,
    liveTruncated: bool, recentEvents: seq<TraceEvent>)

  datatype ProtocolError = CrossedRunBoundary | UnknownCriticalEvent(kind: string)

  // ----- event names -----

  predicate IsKnown(kind: string)
  {
    kind in {
      "run.created", "run.started", "run.waiting", "run.completed", "run.failed", "run.cancel.requested",
      "run.cancelled", "run.interrupt.requested", "run.interrupted", "run.resumed", "run.output.committed",
      "node.scheduled", "node.started", "node.completed", "node.failed", "node.waiting", "node.wait.resolved",
      "node.wait.expired", "node.attempt.leased", "node.attempt.timed_out", "node.lease.expired",
      "node.retry.scheduled", "node.retry.ready", "node.wait.secret_store_required",
      "node.wait.secret_store_resolved", "edge.value.enqueued", "edge.value.consumed", "edge.value.stranded",
      "router.decision", "router.decision_error", "router.read_conflict", "coordination.merge_selected",
      "coordination.expand_completed", "coordination.join_item_indexed", "coordination.join_item_stranded",
      "coordination.join_tuple_selected", "coordination.window_opened", "coordination.window_item_added",
      "coordination.window_closed", "llm.count.prepared", "llm.count.started", "llm.count.completed",
      "llm.count.failed", "llm.count.retry_prepared", "llm.count.retry_ready", "llm.output.repair_prepared",
      "llm.stream.chunk", "llm.tool.prepared", "llm.tool.started", "llm.tool.completed", "llm.tool.failed",
      "llm.tool.outcome_unknown", "llm.tool.retry_prepared", "llm.tool.retry_ready",
      "llm.tool.memory_search_completed", "llm.tool.approval_requested", "llm.tool.approval_resolved",
      "llm.tool.memory_proposals_requested", "llm.tool.memory_proposals_resolved", "llm.call.started",
      "llm.call.completed", "llm.call.failed", "llm.call.outcome_unknown", "llm.call.retry_ready",
      "tool.call.requested", "tool.call.awaiting_approval", "tool.call.started", "tool.call.completed",
      "tool.call.failed", "tool.call.outcome_unknown", "tool.call.retry_ready", "tool.call.retry_prepared",
      "effect.prepared", "effect.started", "effect.succeeded", "effect.failed", "effect.outcome_unknown",
      "effect.outcome_unknown.recorded", "effect.attempt.outcome_unknown", "effect.retry_ready",
      "effect.abandoned_unknown", "effect.resolved", "state.patch.committed", "checkpoint.created",
      "artifact.committed", "memory.proposal.created", "memory.proposal.status_changed",
      "conversation.turn_submitted", "conversation.candidate_regenerated", "conversation.candidate_ready",
      "conversation.selection_changed", "conversation.candidate_projection_resolved"
    }
  }

  predicate IsRefresh(kind: string)
  {
    kind in {
      "run.interrupt.requested", "run.waiting", "run.interrupted", "run.resumed", "llm.tool.approval_requested",
      "llm.tool.approval_resolved", "tool.call.awaiting_approval", "effect.outcome_unknown", "effect.resolved",
      "memory.proposal.created", "memory.proposal.status_changed"
    }
  }

  function Terminal(kind: string): Option<TerminalStatus>
  {
    if kind == "run.completed" then Some(Completed)
    else if kind == "run.failed" then Some(Failed)
    else if kind == "run.cancelled" then Some(Cancelled)
    else None
  }

  /** Events after which views outside the stream are read again. */
  predicate Refreshes(kind: string)
  {
    Terminal(kind).Some? || IsRefresh(kind) || "node.wait." <= kind
  }

  /** The node whose live text an event clears; the empty id counts as none. */
  function ClearedNode(event: DurableEvent): Option<string>
  {
    if (event.kind == "node.completed" || event.kind == "node.failed") && event.nodeInstanceId != Some("")
    then event.nodeInstanceId
    else None
  }

  predicate Rejected(event: DurableEvent)
  {
    event.importance == "critical" && !IsKnown(event.kind)
  }

  function PayloadString(payload: Json.Value, field: string): Option<string>
  {
    var v := Json.Get(Some(payload), field);
    if v.Some? && v.value.String? then Some(v.value.text) else None
  }

  function TraceOf(event: DurableEvent): TraceEvent
  {
    TraceEvent(event.durableSeq, event.kind, event.timestamp, event.nodeInstanceId, event.attemptId,
               PayloadString(event.payload, "nodeId"), PayloadString(event.payload, "edgeId"),
               PayloadString(event.payload, "queueValueId"), event.importance)
  }

  // ----- the reducer -----

  function Create(runId: string, durableSeq: int): Projection
  {
    Projection(runId, durableSeq, None, 0, map[], map[], 0, false, [])
  }

  function Disconnect(p: Projection): Projection
  {
    p.(liveItems := map[], lastSeqByCall := map[], nextLiveOrder := 0, liveTruncated := false)
  }

  /** `slice(-n)` for positive n. */
  function LastN<T>(xs: seq<T>, n: nat): (r: seq<T>)
    ensures |r| == if |xs| <= n then |xs| else n
  {
    if |xs| <= n then xs else xs[|xs| - n..]
  }

  function ClearNode(p: Projection, node: string): Projection
  {
    p.(liveItems := map k | k in p.liveItems && p.liveItems[k].nodeInstanceId != node :: p.liveItems[k])
  }

  function ReduceDurable(p: Projection, event: DurableEvent): Result<Projection, ProtocolError>
  {
    if event.durableSeq <= p.durableSeq then Success(p)
    else if Rejected(event) then Failure(UnknownCriticalEvent(event.kind))
    else
      var recorded := p.(durableSeq := event.durableSeq,
                         recentEvents := LastN(p.recentEvents, MAX_RECENT_EVENTS - 1) + [TraceOf(event)]);
      var cleared := if ClearedNode(event).Some? then ClearNode(recorded, ClearedNode(event).value) else recorded;
      if Terminal(event.kind).Some? then
        Success(Disconnect(cleared).(terminalStatus := Terminal(event.kind), refreshVersion := cleared.refreshVersion + 1))
      else if Refreshes(event.kind) then Success(cleared.(refreshVersion := cleared.refreshVersion + 1))
      else Success(cleared)
  }

  function TotalText(items: map<string, LiveItem>): nat
  {
    TextOfKeys(items, items.Keys)
  }

  function TextOfKeys(items: map<string, LiveItem>, keys: set<string>): nat
    requires keys <= items.Keys
    decreases |keys|
  {
    if keys == {} then 0
    else
      assert exists k :: Json.IsLeast(k, keys) by { Json.LeastExists(keys); }
      assert forall a, b :: Json.IsLeast(a, keys) && Json.IsLeast(b, keys) ==> a == b by {
        forall a, b | Json.IsLeast(a, keys) && Json.IsLeast(b, keys) ensures a == b { Json.LeastUnique(a, b, keys); }
      }
      var k :| Json.IsLeast(k, keys);
      |items[k].text| + TextOfKeys(items, keys - {k})
  }

  function LiveKey(e: EphemeralEvent): string
    requires e.event.TextDelta?
  {
    e.modelCallId + "/" + e.event.itemId
  }

  /** Only what the user may see, and each call's events in increasing order, once. */
  predicate Accepts(p: Projection, e: EphemeralEvent)
  {
    && (e.audience.User? || e.audience.Both?)
    && (e.event.callId in p.lastSeqByCall ==> e.event.callSeq > p.lastSeqByCall[e.event.callId])
  }

  predicate HasText(e: EphemeralEvent)
  {
    e.event.TextDelta? && e.event.text != []
  }

  function Remaining(p: Projection): nat
  {
    if TotalText(p.liveItems) <= MAX_LIVE_TEXT_CHARS then MAX_LIVE_TEXT_CHARS - TotalText(p.liveItems) else 0
  }

  /** `slice(0, n)`. */
  function FirstN(s: Utf16, n: nat): Utf16
  {
    if |s| <= n then s else s[..n]
  }

  function ReduceEphemeral(p: Projection, e: EphemeralEvent): Projection
  {
    if !Accepts(p, e) then p
    else
      var seen := p.(lastSeqByCall := p.lastSeqByCall[e.event.callId := e.event.callSeq]);
      if !HasText(e) then seen
      else
        var key := LiveKey(e);
        var appended := FirstN(e.event.text, Remaining(p));
        var item :=
          if key in p.liveItems then p.liveItems[key]
          else LiveItem(key, e.nodeInstanceId, e.modelCallId, e.event.itemId, [], p.nextLiveOrder);
        seen.(liveItems := p.liveItems[key := item.(text := item.text + appended)],
              nextLiveOrder := if key in p.liveItems then p.nextLiveOrder else p.nextLiveOrder + 1,
              liveTruncated := p.liveTruncated || |appended| < |e.event.text|)
  }

  function RunOf(m: Message): string
  {
    match m
    case Durable(e) => e.runId
    case Ephemeral(e) => e.runId
  }

  function Reduce(p: Projection, m: Message): Result<Projection, ProtocolError>
  {
    if RunOf(m) != p.runId then Failure(CrossedRunBoundary)
    else match m
      case Durable(e) => ReduceDurable(p, e)
      case Ephemeral(e) => Success(ReduceEphemeral(p, e))
  }

  // ----- logs -----

  predicate Increasing(log: seq<DurableEvent>)
  {
    forall i, j :: 0 <= i < j < |log| ==> log[i].durableSeq < log[j].durableSeq
  }

  // ----- the durable part, as a function of the events alone -----

  /** The fields that belong to the durable log. */
  datatype DurableView = DurableView(
    durableSeq: int, terminalStatus: Option<TerminalStatus>, refreshVersion: nat, recentEvents: seq<TraceEvent>)

  function ViewOf(p: Projection): DurableView
  {
    DurableView(p.durableSeq, p.terminalStatus, p.refreshVersion, p.recentEvents)
  }

  function LastTerminal(events: seq<DurableEvent>): Option<TerminalStatus>
  {
    if events == [] then None
    else
      var last := Terminal(events[|events| - 1].kind);
      if last.Some? then last else LastTerminal(events[..|events| - 1])
  }

  function RefreshCount(events: seq<DurableEvent>): nat
  {
    if events == [] then 0
    else RefreshCount(events[..|events| - 1]) + if Refreshes(events[|events| - 1].kind) then 1 else 0
  }

  function TraceAll(events: seq<DurableEvent>): (r: seq<TraceEvent>)
    ensures |r| == |events|
    ensures forall i :: 0 <= i < |r| ==> r[i] == TraceOf(events[i])
  {
    seq(|events|, i requires 0 <= i < |events| => TraceOf(events[i]))
  }

  /** The durable view after exactly these events, for a reader that started behind `start`. */
  function PlainView(start: int, events: seq<DurableEvent>): DurableView
  {
    DurableView(
      if events == [] then start else events[|events| - 1].durableSeq,
      LastTerminal(events), RefreshCount(events), LastN(TraceAll(events), MAX_RECENT_EVENTS))
  }

  lemma {:induction false} LastNSnoc<T>(xs: seq<T>, x: T, n: nat)
    requires n > 0
    ensures LastN(xs + [x], n) == LastN(LastN(xs, n), n - 1) + [x]
  {
  }

  /** Accepting one more event extends the plain view by that event. */
  lemma {:induction false} DurableStep(p: Projection, start: int, events: seq<DurableEvent>, e: DurableEvent)
    requires ViewOf(p) == PlainView(start, events)
    requires e.durableSeq > p.durableSeq && ReduceDurable(p, e).Success?
    ensures ViewOf(ReduceDurable(p, e).value) == PlainView(start, events + [e])
  {
    hide IsKnown, IsRefresh, Terminal, Refreshes, ClearedNode, PayloadString, LastN;
    assert (events + [e])[..|events|] == events;
    LastNSnoc(TraceAll(events), TraceOf(e), MAX_RECENT_EVENTS);
    assert TraceAll(events + [e]) == TraceAll(events) + [TraceOf(e)];
    TerminalRefreshes(e.kind);
  }

  lemma {:induction false} TerminalRefreshes(kind: string)
    ensures Terminal(kind).Some? ==> Refreshes(kind)
  {
    hide IsRefresh;
  }

  /** Live traffic and disconnects leave the durable view alone. */
  lemma {:induction false} LiveTrafficIsInvisible(p: Projection, e: EphemeralEvent)
    ensures ViewOf(ReduceEphemeral(p, e)) == ViewOf(p) == ViewOf(Disconnect(p))
  {
  }
}
