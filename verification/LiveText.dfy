/**
 What the live part of a projection shows (`run-stream-reducer.ts`), over
 every sequence of messages and disconnects.

 The reference is a journal: the live blocks in the order they appeared, each
 with the pieces accepted for it. The projection keeps a map with order
 numbers, a running length limit and per-call counters instead.
 */
module LiveText {
  import opened Wrappers
  import opened RunStream
  import opened TextBasics
  import opened UnicodeText
  import Json

  datatype Action = Receive(message: Message) | Drop

  function Act(p: Projection, a: Action): Result<Projection, ProtocolError>
  {
    match a
    case Receive(m) => Reduce(p, m)
    case Drop => Success(Disconnect(p))
  }

  function ActAll(p: Projection, actions: seq<Action>): Result<Projection, ProtocolError>
    decreases |actions|
  {
    if actions == [] then Success(p)
    else
      var next := Act(p, actions[0]);
      if next.Failure? then next else ActAll(next.value, actions[1..])
  }

  // ----- the length limit -----

  lemma {:induction false} TextRemove(items: map<string, LiveItem>, keys: set<string>, k: string)
    requires keys <= items.Keys && k in keys
    ensures TextOfKeys(items, keys) == |items[k].text| + TextOfKeys(items, keys - {k})
    decreases |keys|
  {
    Json.LeastExists(keys);
    var least :| Json.IsLeast(least, keys);
    assert TextOfKeys(items, keys) == |items[least].text| + TextOfKeys(items, keys - {least}) by {
      forall a, b | Json.IsLeast(a, keys) && Json.IsLeast(b, keys) ensures a == b { Json.LeastUnique(a, b, keys); }
    }
    if k != least {
      TextRemove(items, keys - {least}, k);
      TextRemove(items, keys - {k}, least);
      assert keys - {least} - {k} == keys - {k} - {least};
    }
  }

  lemma {:induction false} TextAgrees(a: map<string, LiveItem>, b: map<string, LiveItem>, keys: set<string>)
    requires keys <= a.Keys && keys <= b.Keys && forall k :: k in keys ==> a[k].text == b[k].text
    ensures TextOfKeys(a, keys) == TextOfKeys(b, keys)
    decreases |keys|
  {
    if keys != {} {
      var k :| k in keys;
      TextRemove(a, keys, k);
      TextRemove(b, keys, k);
      TextAgrees(a, b, keys - {k});
    }
  }

  lemma {:induction false} TextSubset(items: map<string, LiveItem>, some: set<string>, all: set<string>)
    requires some <= all <= items.Keys
    ensures TextOfKeys(items, some) <= TextOfKeys(items, all)
    decreases |all|
  {
    if all - some == {} {
      assert some == all;
    } else {
      var k :| k in all - some;
      TextRemove(items, all, k);
      TextSubset(items, some, all - {k});
    }
  }

  /** Writing one item changes the total by the change of that item. */
  lemma {:induction false} TotalAfterWrite(items: map<string, LiveItem>, key: string, item: LiveItem)
    ensures TotalText(items[key := item]) + (if key in items then |items[key].text| else 0)
         == TotalText(items) + |item.text|
  {
    var after := items[key := item];
    TextRemove(after, after.Keys, key);
    TextAgrees(items, after, items.Keys - {key});
    assert after.Keys - {key} == items.Keys - {key};
    if key in items {
      TextRemove(items, items.Keys, key);
    } else {
      assert items.Keys - {key} == items.Keys;
    }
  }

  lemma {:induction false} TotalAfterClear(p: Projection, node: string)
    ensures TotalText(ClearNode(p, node).liveItems) <= TotalText(p.liveItems)
  {
    var kept := ClearNode(p, node).liveItems;
    TextAgrees(kept, p.liveItems, kept.Keys);
    TextSubset(p.liveItems, kept.Keys, p.liveItems.Keys);
  }

  /** The live text never exceeds its limit. */
  lemma {:induction false} WithinLimit(p: Projection, a: Action)
    requires TotalText(p.liveItems) <= MAX_LIVE_TEXT_CHARS && Act(p, a).Success?
    ensures TotalText(Act(p, a).value.liveItems) <= MAX_LIVE_TEXT_CHARS
  {
    hide IsKnown, IsRefresh, Terminal, Refreshes, ClearedNode, PayloadString, TextOfKeys;
    var q := Act(p, a).value;
    assert TotalText(map[]) == 0 by { EmptyTotal(); }
    match a {
      case Drop =>
      case Receive(Durable(e)) =>
        if e.durableSeq > p.durableSeq && ClearedNode(e).Some? {
          TotalAfterClear(p, ClearedNode(e).value);
        }
      case Receive(Ephemeral(e)) =>
        if Accepts(p, e) && HasText(e) {
          TotalAfterWrite(p.liveItems, LiveKey(e), q.liveItems[LiveKey(e)]);
        }
    }
  }

  function TextAt(items: map<string, LiveItem>, key: string): Utf16
  {
    if key in items then items[key].text else []
  }

  /**
   An accepted piece fills the live text up to the limit: as much of its
   beginning is written as fits, and it counts as cut exactly when not all fits.
   */
  lemma {:induction false} CutsExactly(p: Projection, e: EphemeralEvent)
    requires TotalText(p.liveItems) <= MAX_LIVE_TEXT_CHARS && Accepts(p, e) && HasText(e)
    ensures var q := ReduceEphemeral(p, e);
            var before, wanted := TotalText(p.liveItems), TotalText(p.liveItems) + |e.event.text|;
            var after := if wanted <= MAX_LIVE_TEXT_CHARS then wanted else MAX_LIVE_TEXT_CHARS;
            && TotalText(q.liveItems) == after
            && TextAt(q.liveItems, LiveKey(e)) == TextAt(p.liveItems, LiveKey(e)) + e.event.text[..after - before]
            && (q.liveTruncated <==> p.liveTruncated || wanted > MAX_LIVE_TEXT_CHARS)
  {
    hide TotalText, Accepts;
    var q := ReduceEphemeral(p, e);
    TotalAfterWrite(p.liveItems, LiveKey(e), q.liveItems[LiveKey(e)]);
    assert q.liveItems == p.liveItems[LiveKey(e) := q.liveItems[LiveKey(e)]];
  }

  lemma {:induction false} EmptyTotal()
    ensures TotalText(map[]) == 0
  {
    var none: map<string, LiveItem> := map[];
    assert none.Keys == {};
  }

  // ----- the journal -----

  datatype Block = Block(key: string, node: string, pieces: seq<Utf16>)

  /** Live blocks in order of appearance, and the events accepted since the last reset. */
  datatype Journal = Journal(cursor: int, heard: seq<LlmEvent>, blocks: seq<Block>)

  function Without(blocks: seq<Block>, node: string): seq<Block>
  {
    if blocks == [] then []
    else (if blocks[0].node == node then [] else [blocks[0]]) + Without(blocks[1..], node)
  }

  /** Adds a piece to the block with this key, or opens one at the end. */
  function Extend(blocks: seq<Block>, key: string, node: string, piece: Utf16): seq<Block>
  {
    if blocks == [] then [Block(key, node, [piece])]
    else if blocks[0].key == key then [blocks[0].(pieces := blocks[0].pieces + [piece])] + blocks[1..]
    else [blocks[0]] + Extend(blocks[1..], key, node, piece)
  }

  /** New for its call: later than everything accepted from that call. */
  predicate Fresh(j: Journal, e: EphemeralEvent)
  {
    && (e.audience.User? || e.audience.Both?)
    && forall h :: h in j.heard && h.callId == e.event.callId ==> h.callSeq < e.event.callSeq
  }

  function Note(j: Journal, a: Action): Journal
  {
    match a
    case Drop => Journal(j.cursor, [], [])
    case Receive(Durable(e)) =>
      if e.durableSeq <= j.cursor then j
      else if Terminal(e.kind).Some? then Journal(e.durableSeq, [], [])
      else Journal(e.durableSeq, j.heard,
                   if ClearedNode(e).Some? then Without(j.blocks, ClearedNode(e).value) else j.blocks)
    case Receive(Ephemeral(e)) =>
      if !Fresh(j, e) then j
      else Journal(j.cursor, j.heard + [e.event],
                   if HasText(e) then Extend(j.blocks, LiveKey(e), e.nodeInstanceId, e.event.text) else j.blocks)
  }

  function NoteAll(j: Journal, actions: seq<Action>): Journal
    decreases |actions|
  {
    if actions == [] then j else NoteAll(Note(j, actions[0]), actions[1..])
  }

  lemma {:induction false} ConcatSnoc(pieces: seq<Utf16>, piece: Utf16)
    ensures Concat(pieces + [piece]) == Concat(pieces) + piece
  {
    if pieces == [] {
      assert [piece][1..] == [];
    } else {
      assert (pieces + [piece])[1..] == pieces[1..] + [piece];
      ConcatSnoc(pieces[1..], piece);
    }
  }

  // ----- the projection represents the journal -----

  predicate Has(blocks: seq<Block>, key: string)
  {
    exists i :: 0 <= i < |blocks| && blocks[i].key == key
  }

  /** The blocks, from first to last, are items of the map with ascending order numbers from `low` on. */
  predicate Represents(items: map<string, LiveItem>, blocks: seq<Block>, low: nat, next: nat, exact: bool)
  {
    blocks == [] ||
    (var b := blocks[0];
     && b.key in items && items[b.key].nodeInstanceId == b.node
     && low <= items[b.key].order < next
     && (exact ==> items[b.key].text == Concat(b.pieces))
     && Represents(items, blocks[1..], items[b.key].order + 1, next, exact))
  }

  ghost predicate Hears(last: map<string, int>, heard: seq<LlmEvent>)
  {
    && (forall h :: h in heard ==> h.callId in last && h.callSeq <= last[h.callId])
    && (forall c :: c in last ==> exists h :: h in heard && h.callId == c && h.callSeq == last[c])
  }

  ghost predicate Shows(p: Projection, j: Journal)
  {
    && p.durableSeq == j.cursor
    && Hears(p.lastSeqByCall, j.heard)
    && (forall k :: k in p.liveItems <==> Has(j.blocks, k))
    && Represents(p.liveItems, j.blocks, 0, p.nextLiveOrder, !p.liveTruncated)
  }

  lemma {:induction false} HasStep(blocks: seq<Block>, key: string)
    requires blocks != []
    ensures Has(blocks, key) <==> blocks[0].key == key || Has(blocks[1..], key)
  {
    if Has(blocks, key) {
      var i :| 0 <= i < |blocks| && blocks[i].key == key;
      assert i > 0 ==> blocks[1..][i - 1].key == key;
    }
    if Has(blocks[1..], key) {
      var i :| 0 <= i < |blocks[1..]| && blocks[1..][i].key == key;
      assert blocks[i + 1].key == key;
    }
  }

  /** Blocks that come later have later order numbers. */
  lemma {:induction false} RepresentedFrom(items: map<string, LiveItem>, blocks: seq<Block>, low: nat, next: nat, exact: bool, key: string)
    requires Represents(items, blocks, low, next, exact) && Has(blocks, key)
    ensures key in items && low <= items[key].order < next
  {
    HasStep(blocks, key);
    if blocks[0].key != key {
      RepresentedFrom(items, blocks[1..], items[blocks[0].key].order + 1, next, exact, key);
    }
  }

  /** Representation only depends on the items of the blocks, and order numbers may be capped later. */
  lemma {:induction false} RepresentsFrame(
    items: map<string, LiveItem>, others: map<string, LiveItem>, blocks: seq<Block>,
    low: nat, low': nat, next: nat, next': nat, exact: bool, exact': bool)
    requires Represents(items, blocks, low, next, exact) && low' <= low && next <= next' && (exact' ==> exact)
    requires forall k :: Has(blocks, k) && k in items ==> k in others && others[k] == items[k]
    ensures Represents(others, blocks, low', next', exact')
  {
    if blocks != [] {
      forall k ensures Has(blocks, k) <==> blocks[0].key == k || Has(blocks[1..], k) { HasStep(blocks, k); }
      var m := items[blocks[0].key].order + 1;
      RepresentsFrame(items, others, blocks[1..], m, m, next, next', exact, exact');
    }
  }

  lemma {:induction false} WithoutHas(items: map<string, LiveItem>, blocks: seq<Block>, low: nat, next: nat, exact: bool, node: string, key: string)
    requires Represents(items, blocks, low, next, exact)
    ensures Has(Without(blocks, node), key) <==> Has(blocks, key) && key in items && items[key].nodeInstanceId != node
  {
    if blocks != [] {
      var b := blocks[0];
      var rest := Without(blocks[1..], node);
      WithoutHas(items, blocks[1..], items[b.key].order + 1, next, exact, node, key);
      HasStep(blocks, key);
      if b.node != node {
        HasStep([b] + rest, key);
        assert ([b] + rest)[1..] == rest;
      } else {
        assert Without(blocks, node) == rest;
      }
    }
  }

  lemma {:induction false} WithoutRepresents(items: map<string, LiveItem>, blocks: seq<Block>, low: nat, next: nat, exact: bool, node: string)
    requires Represents(items, blocks, low, next, exact)
    ensures Represents(items, Without(blocks, node), low, next, exact)
  {
    if blocks != [] {
      var b := blocks[0];
      var m := items[b.key].order + 1;
      WithoutRepresents(items, blocks[1..], m, next, exact, node);
      var rest := Without(blocks[1..], node);
      if b.node == node {
        assert Without(blocks, node) == rest;
        RepresentsFrame(items, items, rest, m, low, next, next, exact, exact);
      } else {
        assert ([b] + rest)[1..] == rest;
      }
    }
  }

  lemma {:induction false} ExtendHas(blocks: seq<Block>, key: string, node: string, piece: Utf16, k: string)
    ensures Has(Extend(blocks, key, node, piece), k) <==> k == key || Has(blocks, k)
  {
    var after := Extend(blocks, key, node, piece);
    HasStep(after, k);
    if blocks == [] {
      assert after[1..] == [];
    } else {
      HasStep(blocks, k);
      if blocks[0].key == key {
        assert after[1..] == blocks[1..];
      } else {
        ExtendHas(blocks[1..], key, node, piece, k);
        assert after[1..] == Extend(blocks[1..], key, node, piece);
      }
    }
  }

  /** Adding a piece to the journal and writing the item keep the representation. */
  lemma {:induction false} ExtendRepresents(
    items: map<string, LiveItem>, blocks: seq<Block>, low: nat, next: nat, next': nat, exact: bool, exact': bool,
    key: string, node: string, piece: Utf16, item: LiveItem)
    requires Represents(items, blocks, low, next, exact) && low <= next <= next' && (exact' ==> exact)
    requires if Has(blocks, key) then key in items && item.order == items[key].order && item.nodeInstanceId == items[key].nodeInstanceId
                                 && (exact' ==> item.text == items[key].text + piece)
             else item.order == next < next' && item.nodeInstanceId == node && (exact' ==> item.text == piece)
    ensures Represents(items[key := item], Extend(blocks, key, node, piece), low, next', exact')
  {
    var after := Extend(blocks, key, node, piece);
    var written := items[key := item];
    if blocks == [] {
      assert after[1..] == [];
      assert [piece][1..] == [] && Concat([piece]) == piece;
    } else {
      var b := blocks[0];
      var m := items[b.key].order + 1;
      HasStep(blocks, key);
      if b.key == key {
        ConcatSnoc(b.pieces, piece);
        assert after[1..] == blocks[1..];
        forall k | Has(blocks[1..], k) && k in items ensures written[k] == items[k] {
          RepresentedFrom(items, blocks[1..], m, next, exact, k);
        }
        RepresentsFrame(items, written, blocks[1..], m, m, next, next', exact, exact');
      } else {
        assert after[1..] == Extend(blocks[1..], key, node, piece);
        ExtendRepresents(items, blocks[1..], m, next, next', exact, exact', key, node, piece, item);
      }
    }
  }

  lemma {:induction false} FreshIsAccepted(p: Projection, j: Journal, e: EphemeralEvent)
    requires Hears(p.lastSeqByCall, j.heard)
    ensures Fresh(j, e) <==> Accepts(p, e)
  {
    var c := e.event.callId;
    if c in p.lastSeqByCall {
      var h :| h in j.heard && h.callId == c && h.callSeq == p.lastSeqByCall[c];
    }
  }

  lemma {:induction false} HearsStep(last: map<string, int>, heard: seq<LlmEvent>, e: LlmEvent)
    requires Hears(last, heard) && (e.callId in last ==> e.callSeq > last[e.callId])
    ensures Hears(last[e.callId := e.callSeq], heard + [e])
  {
    var after := last[e.callId := e.callSeq];
    assert e in heard + [e];
    forall c | c in after ensures exists h :: h in heard + [e] && h.callId == c && h.callSeq == after[c] {
      if c != e.callId {
        var h :| h in heard && h.callId == c && h.callSeq == last[c];
        assert h in heard + [e];
      }
    }
  }

  /** Writing a live item, as the reducer does, adds the piece to the journal. */
  lemma {:induction false} TextShows(p: Projection, blocks: seq<Block>, e: EphemeralEvent)
    requires Accepts(p, e) && HasText(e)
    requires forall k :: k in p.liveItems <==> Has(blocks, k)
    requires Represents(p.liveItems, blocks, 0, p.nextLiveOrder, !p.liveTruncated)
    ensures var q := ReduceEphemeral(p, e);
            var after := Extend(blocks, LiveKey(e), e.nodeInstanceId, e.event.text);
            && (forall k :: k in q.liveItems <==> Has(after, k))
            && Represents(q.liveItems, after, 0, q.nextLiveOrder, !q.liveTruncated)
  {
    hide TotalText, Represents, Has, Extend;
    var q := ReduceEphemeral(p, e);
    var key := LiveKey(e);
    var item := q.liveItems[key];
    assert [] + e.event.text == e.event.text;
    assert q.liveItems == p.liveItems[key := item];
    ExtendRepresents(p.liveItems, blocks, 0, p.nextLiveOrder, q.nextLiveOrder, !p.liveTruncated, !q.liveTruncated,
                     key, e.nodeInstanceId, e.event.text, item);
    forall k ensures k in q.liveItems <==> Has(Extend(blocks, key, e.nodeInstanceId, e.event.text), k) {
      ExtendHas(blocks, key, e.nodeInstanceId, e.event.text, k);
    }
  }

  lemma {:induction false} EphemeralShows(p: Projection, j: Journal, e: EphemeralEvent)
    requires Shows(p, j)
    ensures Shows(ReduceEphemeral(p, e), Note(j, Receive(Ephemeral(e))))
  {
    FreshIsAccepted(p, j, e);
    hide TotalText, Represents, Has, Extend, Accepts, Fresh, Remaining, FirstN, LiveKey;
    if Accepts(p, e) {
      assert e.event.callId in p.lastSeqByCall ==> e.event.callSeq > p.lastSeqByCall[e.event.callId] by { AcceptedIsLater(p, e); }
      HearsStep(p.lastSeqByCall, j.heard, e.event);
      hide Hears;
      if HasText(e) {
        TextShows(p, j.blocks, e);
      }
    }
  }

  lemma {:induction false} AcceptedIsLater(p: Projection, e: EphemeralEvent)
    requires Accepts(p, e)
    ensures e.event.callId in p.lastSeqByCall ==> e.event.callSeq > p.lastSeqByCall[e.event.callId]
  {
  }

  lemma {:induction false} NothingShown(p: Projection, cursor: int)
    requires p.durableSeq == cursor && p.liveItems == map[] && p.lastSeqByCall == map[]
    ensures Shows(p, Journal(cursor, [], []))
  {
  }

  lemma {:induction false} ClearShows(p: Projection, j: Journal, node: string)
    requires Shows(p, j)
    ensures Shows(ClearNode(p, node), j.(blocks := Without(j.blocks, node)))
  {
    var q := ClearNode(p, node);
    var exact := !p.liveTruncated;
    WithoutRepresents(p.liveItems, j.blocks, 0, p.nextLiveOrder, exact, node);
    forall k ensures k in q.liveItems <==> Has(Without(j.blocks, node), k) {
      WithoutHas(p.liveItems, j.blocks, 0, p.nextLiveOrder, exact, node, k);
    }
    RepresentsFrame(p.liveItems, q.liveItems, Without(j.blocks, node), 0, 0, p.nextLiveOrder, p.nextLiveOrder, exact, exact);
  }

  lemma {:induction false} DurableShows(p: Projection, j: Journal, e: DurableEvent)
    requires Shows(p, j) && ReduceDurable(p, e).Success?
    ensures Shows(ReduceDurable(p, e).value, Note(j, Receive(Durable(e))))
  {
    hide IsKnown, IsRefresh, Terminal, Refreshes, ClearedNode, PayloadString, Represents, Has;
    if e.durableSeq > p.durableSeq {
      var q := ReduceDurable(p, e).value;
      if Terminal(e.kind).Some? {
        NothingShown(q, e.durableSeq);
      } else if ClearedNode(e).Some? {
        ClearShows(p.(durableSeq := e.durableSeq), j.(cursor := e.durableSeq), ClearedNode(e).value);
      }
    }
  }

  /** Each action keeps the projection in step with the journal. */
  lemma {:induction false} ActShows(p: Projection, j: Journal, a: Action)
    requires Shows(p, j) && Act(p, a).Success?
    ensures Shows(Act(p, a).value, Note(j, a))
  {
    hide Shows;
    match a {
      case Drop => assert Shows(Disconnect(p), Journal(j.cursor, [], [])) by { DropShows(p, j); }
      case Receive(Durable(e)) => DurableShows(p, j, e);
      case Receive(Ephemeral(e)) => EphemeralShows(p, j, e);
    }
  }

  lemma {:induction false} DropShows(p: Projection, j: Journal)
    requires Shows(p, j)
    ensures Shows(Disconnect(p), Journal(j.cursor, [], []))
  {
    NothingShown(Disconnect(p), j.cursor);
  }

  // ----- what is displayed -----

  predicate FirstItem(items: map<string, LiveItem>, key: string)
  {
    key in items && forall k :: k in items ==> items[key].order <= items[k].order
  }

  lemma {:induction false} FirstItemExists(items: map<string, LiveItem>)
    requires items != map[]
    ensures exists k :: FirstItem(items, k)
    decreases |items|
  {
    var x :| x in items;
    var rest := items - {x};
    assert forall k :: k in items ==> k == x || k in rest;
    if rest == map[] {
      assert FirstItem(items, x);
    } else {
      FirstItemExists(rest);
      var y :| FirstItem(rest, y);
      assert FirstItem(items, if items[x].order <= items[y].order then x else y);
    }
  }

  /** `selectLiveText`: the texts of the items, sorted by order number. */
  ghost function SelectLiveText(items: map<string, LiveItem>): Utf16
    decreases |items|
  {
    if items == map[] then []
    else
      FirstItemExists(items);
      var k :| FirstItem(items, k);
      items[k].text + SelectLiveText(items - {k})
  }

  function Displayed(blocks: seq<Block>): Utf16
  {
    if blocks == [] then [] else Concat(blocks[0].pieces) + Displayed(blocks[1..])
  }

  lemma {:induction false} SelectIsDisplayed(items: map<string, LiveItem>, blocks: seq<Block>, low: nat, next: nat)
    requires Represents(items, blocks, low, next, true)
    requires forall k :: k in items <==> Has(blocks, k)
    ensures SelectLiveText(items) == Displayed(blocks)
  {
    if blocks == [] {
      assert items == map[] by { assert forall k :: k !in items; }
    } else {
      var b := blocks[0];
      var m := items[b.key].order + 1;
      forall k ensures Has(blocks, k) <==> b.key == k || Has(blocks[1..], k) { HasStep(blocks, k); }
      forall k | Has(blocks[1..], k) ensures k in items && items[k].order > items[b.key].order {
        RepresentedFrom(items, blocks[1..], m, next, true, k);
      }
      assert forall k :: FirstItem(items, k) <==> k == b.key;
      var rest := items - {b.key};
      RepresentsFrame(items, rest, blocks[1..], m, m, next, next, true, true);
      SelectIsDisplayed(rest, blocks[1..], m, next);
    }
  }

  // ----- the order of what is accepted -----

  predicate PerCallIncreasing(heard: seq<LlmEvent>)
  {
    forall i, j :: 0 <= i < j < |heard| && heard[i].callId == heard[j].callId ==> heard[i].callSeq < heard[j].callSeq
  }

  /** Within a call, pieces are only ever accepted in increasing order. */
  lemma {:induction false} HeardInOrder(j: Journal, actions: seq<Action>)
    requires PerCallIncreasing(j.heard)
    ensures PerCallIncreasing(NoteAll(j, actions).heard)
    decreases |actions|
  {
    if actions != [] {
      assert PerCallIncreasing(Note(j, actions[0]).heard) by {
        hide IsKnown, IsRefresh, Terminal, ClearedNode, HasText, Extend, Without;
        forall i | 0 <= i < |j.heard| ensures j.heard[i] in j.heard {}
      }
      hide Note;
      HeardInOrder(Note(j, actions[0]), actions[1..]);
    }
  }

  /** The durable event by which an action moves the cursor on, if it does. */
  function Moved(cursor: int, a: Action): seq<DurableEvent>
  {
    if a.Receive? && a.message.Durable? && a.message.durable.durableSeq > cursor then [a.message.durable] else []
  }

  function CursorAfter(cursor: int, a: Action): int
  {
    if Moved(cursor, a) == [] then cursor else Moved(cursor, a)[0].durableSeq
  }

  function Passed(cursor: int, actions: seq<Action>): seq<DurableEvent>
    decreases |actions|
  {
    if actions == [] then []
    else Moved(cursor, actions[0]) + Passed(CursorAfter(cursor, actions[0]), actions[1..])
  }

  lemma {:induction false} PassedInOrder(cursor: int, actions: seq<Action>)
    ensures var es := Passed(cursor, actions);
            (forall e :: e in es ==> e.durableSeq > cursor)
            && forall i, j :: 0 <= i < j < |es| ==> es[i].durableSeq < es[j].durableSeq
    decreases |actions|
  {
    if actions != [] {
      var next := CursorAfter(cursor, actions[0]);
      var first, rest := Moved(cursor, actions[0]), Passed(next, actions[1..]);
      PassedInOrder(next, actions[1..]);
      assert first == [] ==> next == cursor && first + rest == rest;
      assert first != [] ==> next > cursor && first == [first[0]] && first[0].durableSeq == next;
      hide Passed, Moved, CursorAfter;
      if first != [] { OneMore(cursor, first[0], rest); }
    }
  }

  lemma {:induction false} OneMore(cursor: int, e: DurableEvent, rest: seq<DurableEvent>)
    requires e.durableSeq > cursor && forall x :: x in rest ==> x.durableSeq > e.durableSeq
    requires forall i, j :: 0 <= i < j < |rest| ==> rest[i].durableSeq < rest[j].durableSeq
    ensures forall x :: x in [e] + rest ==> x.durableSeq > cursor
    ensures forall i, j :: 0 <= i < j < |[e] + rest| ==> ([e] + rest)[i].durableSeq < ([e] + rest)[j].durableSeq
  {
    assert forall j :: 0 < j < |[e] + rest| ==> ([e] + rest)[j] == rest[j - 1] && rest[j - 1] in rest;
  }

  lemma {:induction false} ActDurable(p: Projection, start: int, events: seq<DurableEvent>, a: Action)
    requires ViewOf(p) == PlainView(start, events) && Act(p, a).Success?
    ensures ViewOf(Act(p, a).value) == PlainView(start, events + Moved(p.durableSeq, a))
    ensures Act(p, a).value.durableSeq == CursorAfter(p.durableSeq, a)
  {
    hide IsKnown, IsRefresh, Terminal, Refreshes, ClearedNode, PayloadString, LastN, LastTerminal, RefreshCount, TraceAll;
    assert events + [] == events;
    match a {
      case Drop =>
      case Receive(Ephemeral(e)) => LiveTrafficIsInvisible(p, e);
      case Receive(Durable(e)) =>
        if e.durableSeq > p.durableSeq {
          DurableStep(p, start, events, e);
        }
    }
  }

  /**
   Without any assumption on the order of delivery, the durable view is the
   plain view of the events that moved the cursor on.
   */
  lemma {:induction false} ActAllDurable(p: Projection, start: int, events: seq<DurableEvent>, actions: seq<Action>)
    requires ViewOf(p) == PlainView(start, events) && ActAll(p, actions).Success?
    ensures ViewOf(ActAll(p, actions).value) == PlainView(start, events + Passed(p.durableSeq, actions))
    decreases |actions|
  {
    hide Act, PlainView, Moved, CursorAfter, ViewOf;
    if actions == [] {
      assert events + [] == events;
    } else {
      ActDurable(p, start, events, actions[0]);
      var q := Act(p, actions[0]).value;
      var more := Moved(p.durableSeq, actions[0]);
      ActAllDurable(q, start, events + more, actions[1..]);
      assert events + more + Passed(q.durableSeq, actions[1..]) == events + (more + Passed(q.durableSeq, actions[1..]));
    }
  }

  lemma {:induction false} StartView(runId: string, start: int)
    ensures ViewOf(Create(runId, start)) == PlainView(start, [])
  {
  }

  lemma {:induction false} TraceInOrder(events: seq<DurableEvent>, n: nat)
    requires forall i, j :: 0 <= i < j < |events| ==> events[i].durableSeq < events[j].durableSeq
    ensures var r := LastN(TraceAll(events), n);
            forall a, b :: 0 <= a < b < |r| ==> r[a].durableSeq < r[b].durableSeq
  {
    hide PayloadString;
    var cut := |events| - |LastN(TraceAll(events), n)|;
    assert forall a :: 0 <= a < |LastN(TraceAll(events), n)| ==> LastN(TraceAll(events), n)[a] == TraceOf(events[cut + a]);
  }

  /**
   The recent events are the last 500 that moved the cursor on, in increasing
   order, after any messages and disconnects.
   */
  lemma {:induction false} RecentEvents(runId: string, start: int, actions: seq<Action>)
    requires ActAll(Create(runId, start), actions).Success?
    ensures var p := ActAll(Create(runId, start), actions).value;
            && p.recentEvents == LastN(TraceAll(Passed(start, actions)), MAX_RECENT_EVENTS)
            && forall a, b :: 0 <= a < b < |p.recentEvents| ==> p.recentEvents[a].durableSeq < p.recentEvents[b].durableSeq
  {
    hide ActAll, Passed, TraceOf, TraceAll, LastN;
    var p0 := Create(runId, start);
    StartView(runId, start);
    ActAllDurable(p0, start, [], actions);
    assert [] + Passed(start, actions) == Passed(start, actions);
    PassedInOrder(start, actions);
    TraceInOrder(Passed(start, actions), MAX_RECENT_EVENTS);
  }

  // ----- the whole run -----

  lemma {:induction false} ActAllShows(p: Projection, j: Journal, actions: seq<Action>)
    requires Shows(p, j) && TotalText(p.liveItems) <= MAX_LIVE_TEXT_CHARS && ActAll(p, actions).Success?
    ensures Shows(ActAll(p, actions).value, NoteAll(j, actions))
    ensures TotalText(ActAll(p, actions).value.liveItems) <= MAX_LIVE_TEXT_CHARS
    decreases |actions|
  {
    if actions != [] {
      ActShows(p, j, actions[0]);
      WithinLimit(p, actions[0]);
      hide Act, Note, Shows, TotalText;
      ActAllShows(Act(p, actions[0]).value, Note(j, actions[0]), actions[1..]);
    }
  }

  lemma {:induction false} DistinctOrders(items: map<string, LiveItem>, blocks: seq<Block>, low: nat, next: nat, exact: bool, k: string, l: string)
    requires Represents(items, blocks, low, next, exact) && Has(blocks, k) && Has(blocks, l) && k != l
    ensures k in items && l in items && items[k].order != items[l].order && items[k].order < next
  {
    HasStep(blocks, k);
    HasStep(blocks, l);
    var m := items[blocks[0].key].order + 1;
    if blocks[0].key == k {
      RepresentedFrom(items, blocks[1..], m, next, exact, l);
    } else if blocks[0].key == l {
      RepresentedFrom(items, blocks[1..], m, next, exact, k);
    } else {
      DistinctOrders(items, blocks[1..], m, next, exact, k, l);
    }
  }

  /**
   After any messages and disconnects the live text is within its limit, the
   items have distinct order numbers below the next one, and while nothing
   was cut off the display is the concatenation of the accepted pieces,
   block by block in order of appearance. Within a call, pieces are accepted
   in increasing order.
   */
  lemma {:induction false} LiveProjection(runId: string, start: int, actions: seq<Action>)
    requires ActAll(Create(runId, start), actions).Success?
    ensures var p := ActAll(Create(runId, start), actions).value;
            var j := NoteAll(Journal(start, [], []), actions);
            && TotalText(p.liveItems) <= MAX_LIVE_TEXT_CHARS
            && (forall k :: k in p.liveItems ==> p.liveItems[k].order < p.nextLiveOrder)
            && (forall k, l :: k in p.liveItems && l in p.liveItems && k != l ==> p.liveItems[k].order != p.liveItems[l].order)
            && (!p.liveTruncated ==> SelectLiveText(p.liveItems) == Displayed(j.blocks))
            && PerCallIncreasing(j.heard)
  {
    var p0 := Create(runId, start);
    EmptyTotal();
    NothingShown(p0, start);
    ActAllShows(p0, Journal(start, [], []), actions);
    HeardInOrder(Journal(start, [], []), actions);
    hide ActAll, NoteAll, TotalText;
    var p := ActAll(p0, actions).value;
    var j := NoteAll(Journal(start, [], []), actions);
    forall k | k in p.liveItems ensures p.liveItems[k].order < p.nextLiveOrder {
      RepresentedFrom(p.liveItems, j.blocks, 0, p.nextLiveOrder, !p.liveTruncated, k);
    }
    forall k, l | k in p.liveItems && l in p.liveItems && k != l ensures p.liveItems[k].order != p.liveItems[l].order {
      DistinctOrders(p.liveItems, j.blocks, 0, p.nextLiveOrder, !p.liveTruncated, k, l);
    }
    if !p.liveTruncated {
      SelectIsDisplayed(p.liveItems, j.blocks, 0, p.nextLiveOrder);
    }
  }

  // ----- what a durable event leaves -----

  /** The event ends the run, or the node that this text comes from. */
  predicate Ends(e: DurableEvent, item: LiveItem)
  {
    || e.kind in ["run.completed", "run.failed", "run.cancelled"]
    || (e.kind in ["node.completed", "node.failed"] && e.nodeInstanceId == Some(item.nodeInstanceId) && item.nodeInstanceId != "")
  }

  /** A new event takes away exactly the live text of the run or node it ends, and leaves the rest as it was. */
  lemma {:induction false} LiveTextAfter(p: Projection, e: DurableEvent, key: string)
    requires Act(p, Receive(Durable(e))).Success? && e.durableSeq > p.durableSeq
    ensures var q := Act(p, Receive(Durable(e))).value;
            && (key in q.liveItems <==> key in p.liveItems && !Ends(e, p.liveItems[key]))
            && (key in q.liveItems ==> q.liveItems[key] == p.liveItems[key])
  {
    hide IsKnown, IsRefresh, PayloadString, TotalText;
  }

  /** The names of events that change what views outside the stream show, other than ends and waits. */
  const CONTROL := ["run.interrupt.requested", "run.waiting", "run.interrupted", "run.resumed"]
  const APPROVAL := ["llm.tool.approval_requested", "llm.tool.approval_resolved", "tool.call.awaiting_approval"]
  const OUTCOME := ["effect.outcome_unknown", "effect.resolved"]
  const PROPOSAL := ["memory.proposal.created", "memory.proposal.status_changed"]

  /** The text of a member of an object; anything else has none. */
  ghost predicate HasMember(payload: Json.Value, key: string, text: string)
  {
    payload.Object? && key in payload.fields && payload.fields[key] == Json.String(text)
  }

  /** A new event asks for a refresh exactly if it ends the run, concerns a wait or has one of those names. */
  lemma {:induction false} RefreshAfter(p: Projection, e: DurableEvent)
    requires Act(p, Receive(Durable(e))).Success? && e.durableSeq > p.durableSeq
    ensures var asks := (exists status :: IsEnd(e, status)) || "node.wait." <= e.kind
                        || e.kind in CONTROL || e.kind in APPROVAL || e.kind in OUTCOME || e.kind in PROPOSAL;
            Act(p, Receive(Durable(e))).value.refreshVersion == p.refreshVersion + if asks then 1 else 0
  {
    hide IsKnown, PayloadString, TotalText, ClearedNode;
    assert IsEnd(e, Completed) || IsEnd(e, Failed) || IsEnd(e, Cancelled) <==> exists status :: IsEnd(e, status);
  }

  /** What is kept of an event: its own data, and the graph node, edge and queue value that its payload names. */
  lemma {:induction false} TraceKeeps(e: DurableEvent, text: string)
    ensures var t := TraceOf(e);
            && t.durableSeq == e.durableSeq && t.kind == e.kind && t.timestamp == e.timestamp && t.importance == e.importance
            && t.nodeInstanceId == e.nodeInstanceId && t.attemptId == e.attemptId
            && (t.graphNodeId == Some(text) <==> HasMember(e.payload, "nodeId", text))
            && (t.graphEdgeId == Some(text) <==> HasMember(e.payload, "edgeId", text))
            && (t.queueValueId == Some(text) <==> HasMember(e.payload, "queueValueId", text))
  {
  }

  /** The event names of the three ways a run can end. */
  predicate IsEnd(e: DurableEvent, status: TerminalStatus)
  {
    e.kind == match status
              case Completed => "run.completed"
              case Failed => "run.failed"
              case Cancelled => "run.cancelled"
  }

  ghost predicate EndsLast(events: seq<DurableEvent>, status: TerminalStatus)
  {
    exists i :: 0 <= i < |events| && IsEnd(events[i], status)
                && forall j, other :: i < j < |events| ==> !IsEnd(events[j], other)
  }

  lemma TerminalIsEnd(e: DurableEvent, status: TerminalStatus)
    ensures Terminal(e.kind) == Some(status) <==> IsEnd(e, status)
  {
  }

  lemma {:induction false} LastTerminalIsLast(events: seq<DurableEvent>, status: TerminalStatus)
    ensures LastTerminal(events) == Some(status) <==> EndsLast(events, status)
  {
    if events != [] {
      hide Terminal, IsEnd;
      var init, last := events[..|events| - 1], events[|events| - 1];
      LastTerminalIsLast(init, status);
      forall other ensures Terminal(last.kind) == Some(other) <==> IsEnd(last, other) {
        TerminalIsEnd(last, other);
      }
      EndsLastNext(init, last, status);
      assert events == init + [last];
    }
  }

  lemma {:induction false} EndsLastNext(events: seq<DurableEvent>, last: DurableEvent, status: TerminalStatus)
    ensures EndsLast(events + [last], status)
       <==> IsEnd(last, status) || (EndsLast(events, status) && forall other :: !IsEnd(last, other))
  {
    hide IsEnd;
    var more := events + [last];
    assert more[|events|] == last && forall i :: 0 <= i < |events| ==> more[i] == events[i];
    if EndsLast(events, status) && forall other :: !IsEnd(last, other) {
      var i :| 0 <= i < |events| && IsEnd(events[i], status) && forall j, other :: i < j < |events| ==> !IsEnd(events[j], other);
      assert IsEnd(more[i], status);
    }
    if EndsLast(more, status) && !IsEnd(last, status) {
      var i :| 0 <= i < |more| && IsEnd(more[i], status) && forall j, other :: i < j < |more| ==> !IsEnd(more[j], other);
      assert IsEnd(events[i], status);
      forall other ensures !IsEnd(last, other) {
        assert !IsEnd(more[|events|], other);
      }
      assert forall j, other :: i < j < |events| ==> more[j] == events[j] && !IsEnd(more[j], other);
    }
  }

  /** The status shown is that of the last event that ended the run, whatever was delivered in between. */
  lemma {:induction false} StatusIsOfTheLastEnd(runId: string, start: int, actions: seq<Action>, status: TerminalStatus)
    requires ActAll(Create(runId, start), actions).Success?
    ensures ActAll(Create(runId, start), actions).value.terminalStatus == Some(status)
       <==> EndsLast(Passed(start, actions), status)
  {
    hide ActAll, Passed, EndsLast, LastTerminal, TraceAll, RefreshCount;
    StartView(runId, start);
    ActAllDurable(Create(runId, start), start, [], actions);
    assert [] + Passed(start, actions) == Passed(start, actions);
    LastTerminalIsLast(Passed(start, actions), status);
  }

  // ----- which messages are refused -----

  /** The event comes after the start and after every event received before it. */
  predicate IsNew(start: int, earlier: seq<Action>, e: DurableEvent)
  {
    && e.durableSeq > start
    && forall a :: a in earlier && a.Receive? && a.message.Durable? ==> a.message.durable.durableSeq < e.durableSeq
  }

  /** A message of another run, or a new event that is critical and of no known kind. */
  predicate IsRefused(runId: string, start: int, earlier: seq<Action>, m: Message)
  {
    RunOf(m) != runId
    || (m.Durable? && IsNew(start, earlier, m.durable) && m.durable.importance == "critical" && !IsKnown(m.durable.kind))
  }

  predicate RefusedIn(runId: string, start: int, actions: seq<Action>, i: nat)
  {
    i < |actions| && actions[i].Receive? && IsRefused(runId, start, actions[..i], actions[i].message)
  }

  function ErrorOf(runId: string, m: Message): ProtocolError
  {
    if RunOf(m) != runId then CrossedRunBoundary
    else if m.Durable? then UnknownCriticalEvent(m.durable.kind)
    else CrossedRunBoundary
  }

  lemma {:induction false} ActRefuses(p: Projection, a: Action)
    ensures Act(p, a).Failure? <==> a.Receive? && IsRefused(p.runId, p.durableSeq, [], a.message)
    ensures Act(p, a).Failure? ==> Act(p, a) == Failure(ErrorOf(p.runId, a.message))
    ensures Act(p, a).Success? ==> Act(p, a).value.runId == p.runId && Act(p, a).value.durableSeq == CursorAfter(p.durableSeq, a)
  {
    hide IsKnown, IsRefresh, Terminal, Refreshes, ClearedNode, PayloadString, TextOfKeys;
  }

  /** The first action done, the others are refused as before. */
  lemma {:induction false} RefusedLater(p: Projection, actions: seq<Action>, i: nat)
    requires actions != [] && Act(p, actions[0]).Success?
    ensures var q := Act(p, actions[0]).value;
            RefusedIn(p.runId, p.durableSeq, actions, i + 1) <==> RefusedIn(q.runId, q.durableSeq, actions[1..], i)
  {
    hide Act, IsKnown;
    ActRefuses(p, actions[0]);
    if i + 1 < |actions| {
      assert actions[..i + 1] == [actions[0]] + actions[1..][..i];
      assert actions[1..][i] == actions[i + 1];
      if actions[i + 1].Receive? && actions[i + 1].message.Durable? {
        NewLater(p.durableSeq, actions[0], actions[1..][..i], actions[i + 1].message.durable);
      }
    }
  }

  lemma {:induction false} NewLater(cursor: int, a: Action, earlier: seq<Action>, e: DurableEvent)
    ensures IsNew(cursor, [a] + earlier, e) <==> IsNew(CursorAfter(cursor, a), earlier, e)
  {
    assert a in [a] + earlier;
    assert forall b :: b in [a] + earlier <==> b == a || b in earlier;
  }

  /**
   A run of the reducer fails exactly when some message in it belongs to
   another run, or is an event after all before it that is critical and
   unknown; the error names the first such message. Old events, live messages
   and disconnects never fail.
   */
  lemma {:induction false} FailsExactly(p: Projection, actions: seq<Action>)
    ensures ActAll(p, actions).Failure? <==> exists i: nat :: RefusedIn(p.runId, p.durableSeq, actions, i)
    ensures forall i: nat :: RefusedIn(p.runId, p.durableSeq, actions, i)
                  && (forall j: nat :: j < i ==> !RefusedIn(p.runId, p.durableSeq, actions, j))
              ==> ActAll(p, actions) == Failure(ErrorOf(p.runId, actions[i].message))
    decreases |actions|
  {
    hide Act, IsRefused, ErrorOf;
    if actions != [] {
      ActRefuses(p, actions[0]);
      assert actions[..0] == [];
      assert Act(p, actions[0]).Failure? <==> RefusedIn(p.runId, p.durableSeq, actions, 0);
      if Act(p, actions[0]).Success? {
        FailsLater(p, actions);
      }
    }
  }

  lemma {:induction false} FailsLater(p: Projection, actions: seq<Action>)
    requires actions != [] && Act(p, actions[0]).Success? && !RefusedIn(p.runId, p.durableSeq, actions, 0)
    ensures ActAll(p, actions).Failure? <==> exists i: nat :: RefusedIn(p.runId, p.durableSeq, actions, i)
    ensures forall i: nat :: RefusedIn(p.runId, p.durableSeq, actions, i)
                  && (forall j: nat :: j < i ==> !RefusedIn(p.runId, p.durableSeq, actions, j))
              ==> ActAll(p, actions) == Failure(ErrorOf(p.runId, actions[i].message))
    decreases |actions|, 0
  {
    var q, rest := Act(p, actions[0]).value, actions[1..];
    ActRefuses(p, actions[0]);
    FailsExactly(q, rest);
    hide Act, IsRefused, ErrorOf, RefusedIn;
    assert ActAll(p, actions) == ActAll(q, rest);
    forall i: nat ensures RefusedIn(p.runId, p.durableSeq, actions, i + 1) <==> RefusedIn(q.runId, q.durableSeq, rest, i) {
      RefusedLater(p, actions, i);
    }
    assert (exists i: nat :: RefusedIn(p.runId, p.durableSeq, actions, i))
       <==> (exists i: nat :: RefusedIn(q.runId, q.durableSeq, rest, i)) by {
      if i: nat :| RefusedIn(p.runId, p.durableSeq, actions, i) {
        assert i > 0;
        assert RefusedIn(q.runId, q.durableSeq, rest, i - 1);
      }
      if i: nat :| RefusedIn(q.runId, q.durableSeq, rest, i) {
        assert RefusedIn(p.runId, p.durableSeq, actions, i + 1);
      }
    }
    forall i: nat | RefusedIn(p.runId, p.durableSeq, actions, i)
        && (forall j: nat :: j < i ==> !RefusedIn(p.runId, p.durableSeq, actions, j))
      ensures ActAll(p, actions) == Failure(ErrorOf(p.runId, actions[i].message))
    {
      assert i > 0;
      forall j: nat | j < i - 1 ensures !RefusedIn(q.runId, q.durableSeq, rest, j) {
        assert !RefusedIn(p.runId, p.durableSeq, actions, j + 1);
      }
      assert RefusedIn(q.runId, q.durableSeq, rest, i - 1);
      assert rest[i - 1] == actions[i] by { InRange(p, actions, i); }
    }
  }

  lemma InRange(p: Projection, actions: seq<Action>, i: nat)
    requires RefusedIn(p.runId, p.durableSeq, actions, i)
    ensures i < |actions|
  {
  }

  /** What ends a run or asks for a refresh is known, so the client never refuses it. */
  lemma {:induction false} EndsAreKnown(kind: string)
    requires Terminal(kind).Some? || IsRefresh(kind)
    ensures IsKnown(kind)
  {
  }
}
