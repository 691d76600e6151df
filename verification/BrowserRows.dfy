/** What is stored of a browser-event delivery, and how the history of the worker is read, event by event. */
module BrowserRows {
  import opened Common
  import opened BrowserBatching

  /** The row of one event: the event's own fields, and the session, trace and project of its message. */
  predicate RowOfEvent(r: Row, m: Message, e: Event) {
    && r.session == m.session && r.trace == m.trace && r.project == m.project
    && r.kind == e.kind && r.data == e.data
    && (r.timestamp == e.timestamp || r.timestamp == -e.timestamp)
  }

  /** Each event of a message has its row, in the same place. */
  lemma MessageRowsAreEvents(m: Message, i: nat)
    ensures |MessageRows(m)| == |m.events|
    ensures i < |m.events| ==> RowOfEvent(MessageRows(m)[i], m, m.events[i])
  {
  }

  ghost predicate EventIn(ds: seq<Delivery>, r: Row) {
    exists d, e :: d in ds && e in d.message.events && RowOfEvent(r, d.message, e)
  }

  /** The rows of some deliveries are those of their events: one each, message by message. */
  lemma {:induction false} RowsAreEvents(ds: seq<Delivery>)
    ensures |RowsOf(ds)| == TotalEvents(ds)
    ensures forall r :: r in RowsOf(ds) ==> EventIn(ds, r)
    ensures forall d, e :: d in ds && e in d.message.events ==>
        exists r :: r in RowsOf(ds) && RowOfEvent(r, d.message, e)
  {
    if ds != [] {
      var init, last := ds[..|ds| - 1], ds[|ds| - 1];
      var own := MessageRows(last.message);
      RowsAreEvents(init);
      assert forall d :: d in ds <==> d in init || d == last;
      assert forall r :: r in RowsOf(ds) <==> r in RowsOf(init) || r in own;
      forall r | r in own
        ensures EventIn(ds, r)
      {
        var i :| 0 <= i < |own| && own[i] == r;
        MessageRowsAreEvents(last.message, i);
      }
      forall e | e in last.message.events
        ensures exists r :: r in RowsOf(ds) && RowOfEvent(r, last.message, e)
      {
        var i :| 0 <= i < |last.message.events| && last.message.events[i] == e;
        MessageRowsAreEvents(last.message, i);
        assert own[i] in RowsOf(ds);
      }
    }
  }

  /** The events gathered are counted over all deliveries buffered. */
  lemma {:induction false} EventsAdd(a: seq<Delivery>, b: seq<Delivery>)
    ensures TotalEvents(a + b) == TotalEvents(a) + TotalEvents(b)
    ensures |b| == 1 ==> TotalEvents(b) == |b[0].message.events|
  {
    if b == [] {
      assert a + b == a;
    } else {
      EventsAdd(a, b[..|b| - 1]);
      assert (a + b)[..|a + b| - 1] == a + b[..|b| - 1];
      assert |b| == 1 ==> b[..0] == [];
    }
  }

  lemma {:induction false} BufferedAppend(a: seq<Incoming>, b: seq<Incoming>, hows: set<How>)
    ensures Buffered(a + b) == Buffered(a) + Buffered(b)
    ensures DirectTags(a + b, hows) == DirectTags(a, hows) + DirectTags(b, hows)
  {
    if b == [] {
      assert a + b == a;
    } else {
      var init, last := b[..|b| - 1], b[|b| - 1];
      BufferedAppend(a, init, hows);
      LastOfAppend(a, b);
      ReceivedGrows(a + init, last, hows);
      Associate(Buffered(a), Buffered(init),
                if Direct(last).None? then [Delivery(last.parsed.value, last.tag)] else []);
      Associate(DirectTags(a, hows), DirectTags(init, hows),
                if Direct(last).Some? && Direct(last).value in hows then [last.tag] else []);
    }
  }

  /**
    Of what is received, every message with events goes through the buffer, once
    and at its place; a malformed one is rejected and an empty one acked on the
    spot, and nothing else is.
   */
  lemma EveryMessageIsBuffered(before: seq<Incoming>, i: Incoming, after: seq<Incoming>, hows: set<How>)
    ensures Buffered(before + [i] + after) == Buffered(before)
        + (if i.parsed.Some? && i.parsed.value.events != [] then [Delivery(i.parsed.value, i.tag)] else [])
        + Buffered(after)
    ensures DirectTags(before + [i] + after, hows) == DirectTags(before, hows)
        + (if i.parsed.None? then (if Reject in hows then [i.tag] else [])
           else if i.parsed.value.events == [] && Ack in hows then [i.tag]
           else [])
        + DirectTags(after, hows)
    ensures Buffered([]) == [] && DirectTags([], hows) == []
  {
    BufferedAppend(before + [i], after, hows);
    ReceivedGrows(before, i, hows);
  }

  /** The history is read one effect at a time: a flush counts its batch, a settlement its tag, if done in that way. */
  lemma EffectIsRead(before: seq<Effect>, x: Effect, after: seq<Effect>, hows: set<How>)
    ensures Flushed(before + [x] + after, hows) == Flushed(before, hows)
        + (if x.Flush? && x.outcome in hows then x.batch else []) + Flushed(after, hows)
    ensures SettledTags(before + [x] + after, hows) == SettledTags(before, hows)
        + (if x.Settled? && x.how in hows then [x.tag] else []) + SettledTags(after, hows)
    ensures Flushed([], hows) == [] && SettledTags([], hows) == []
  {
    ReadingsOfAppend(before + [x], after, hows);
    match x
    case Flush(batch, how) => FlushGrows(before, batch, how, hows);
    case Settled(tag, how) => SettledGrows(before, tag, how, hows);
  }
}
