/**
  The batching queue worker with the browser-event handler: deliveries are
  buffered until enough events have gathered or the interval ticks, stored in
  one insert, and only then settled with the queue.
 */
module BrowserBatching {
  import opened Common

  datatype Event = Event(timestamp: int, kind: nat, data: string)

  datatype Message = Message(project: string, session: string, trace: string, events: seq<Event>)

  datatype Row = Row(session: string, trace: string, timestamp: nat, kind: nat, data: string, project: string)

  datatype Delivery = Delivery(message: Message, tag: nat)

  /** What the queue hands over: a tag and the payload, if it deserializes. */
  datatype Incoming = Incoming(tag: nat, parsed: Option<Message>)

  datatype Happening = Received(incoming: Incoming) | ReceiveFailed | Tick

  datatype HandlerError = Transient | Permanent

  /** The three ways to settle a delivery with the queue. */
  datatype How = Ack | Reject | Requeue

  datatype HandlerResult = HandlerResult(toAck: seq<Delivery>, toReject: seq<Delivery>, toRequeue: seq<Delivery>)

  /** What the outside sees of the worker: a batch flushed, with the outcome, or one delivery settled. */
  datatype Effect = Flush(batch: seq<Delivery>, outcome: How) | Settled(tag: nat, how: How)

  function AllTo(ds: seq<Delivery>, how: How): HandlerResult {
    match how
    case Ack => HandlerResult(ds, [], [])
    case Reject => HandlerResult([], ds, [])
    case Requeue => HandlerResult([], [], ds)
  }

  // ---- reading deliveries and effects ------------------------------------------------

  function MessageRows(m: Message): seq<Row> {
    seq(|m.events|, i requires 0 <= i < |m.events| =>
      var e := m.events[i];
      Row(m.session, m.trace, if e.timestamp < 0 then -e.timestamp else e.timestamp, e.kind, e.data, m.project))
  }

  function RowsOf(ds: seq<Delivery>): seq<Row> {
    if ds == [] then [] else RowsOf(ds[..|ds| - 1]) + MessageRows(ds[|ds| - 1].message)
  }

  function TotalEvents(ds: seq<Delivery>): nat {
    if ds == [] then 0 else TotalEvents(ds[..|ds| - 1]) + |ds[|ds| - 1].message.events|
  }

  function Tags(ds: seq<Delivery>): seq<nat> {
    seq(|ds|, i requires 0 <= i < |ds| => ds[i].tag)
  }

  function TagSet(ds: seq<Delivery>): set<nat> {
    set d | d in ds :: d.tag
  }

  function ReceivedTags(received: seq<Incoming>): seq<nat> {
    seq(|received|, i requires 0 <= i < |received| => received[i].tag)
  }

  /** The deliveries that go through the buffer, in arrival order. */
  function Buffered(received: seq<Incoming>): seq<Delivery> {
    if received == [] then []
    else
      var init, last := received[..|received| - 1], received[|received| - 1];
      Buffered(init) + (if Direct(last).None? then [Delivery(last.parsed.value, last.tag)] else [])
  }

  /** How a delivery is settled without going through the buffer, if it is. */
  function Direct(i: Incoming): (how: Option<How>)
    ensures how.None? ==> i.parsed.Some?
  {
    if i.parsed.None? then Some(Reject)
    else if i.parsed.value.events == [] then Some(Ack)
    else None
  }

  function DirectTags(received: seq<Incoming>, hows: set<How>): seq<nat> {
    if received == [] then []
    else
      var init, last := received[..|received| - 1], received[|received| - 1];
      DirectTags(init, hows) + (if Direct(last).Some? && Direct(last).value in hows then [last.tag] else [])
  }

  const EVERY: set<How> := {Ack, Reject, Requeue}

  /** The deliveries flushed with one of the given outcomes, in order. */
  function Flushed(effects: seq<Effect>, hows: set<How>): seq<Delivery> {
    if effects == [] then []
    else
      var init, last := effects[..|effects| - 1], effects[|effects| - 1];
      Flushed(init, hows) + (if last.Flush? && last.outcome in hows then last.batch else [])
  }

  /** The tags settled in one of the given ways, in order. */
  function SettledTags(effects: seq<Effect>, hows: set<How>): seq<nat> {
    if effects == [] then []
    else
      var init, last := effects[..|effects| - 1], effects[|effects| - 1];
      SettledTags(init, hows) + (if last.Settled? && last.how in hows then [last.tag] else [])
  }

  function SettleAll(ds: seq<Delivery>, how: How): seq<Effect> {
    seq(|ds|, i requires 0 <= i < |ds| => Settled(ds[i].tag, how))
  }

  // ---- the invariant -------------------------------------------------------------------

  /** `flush` flushed the delivery that `settled` settles, with the same outcome. */
  ghost predicate FlushedTag(flush: Effect, settled: Effect) {
    flush.Flush? && settled.Settled? && flush.outcome == settled.how && settled.tag in Tags(flush.batch)
  }

  /** The settlement at `k` was due: its batch had been flushed with that outcome, or nothing had to be stored. */
  ghost predicate Due(received: seq<Incoming>, effects: seq<Effect>, k: nat)
    requires k < |effects| && effects[k].Settled?
  {
    || (exists j :: 0 <= j < k && FlushedTag(effects[j], effects[k]))
    || (exists i :: i in received && i.tag == effects[k].tag && Direct(i) == Some(effects[k].how))
  }

  ghost predicate EverySettlementDue(received: seq<Incoming>, effects: seq<Effect>) {
    forall k :: 0 <= k < |effects| && effects[k].Settled? ==> Due(received, effects, k)
  }

  ghost predicate SettledMatchesFlushed(received: seq<Incoming>, effects: seq<Effect>, hows: set<How>) {
    multiset(SettledTags(effects, hows)) == multiset(Tags(Flushed(effects, hows))) +
        multiset(DirectTags(received, hows))
  }

  /** The books balance: nothing received is lost, reordered on its way through the buffer, or settled unduly. */
  ghost predicate Balanced(received: seq<Incoming>, effects: seq<Effect>, buffer: seq<Delivery>) {
    && Flushed(effects, EVERY) + buffer == Buffered(received)
    && (forall hows :: SettledMatchesFlushed(received, effects, hows))
    && EverySettlementDue(received, effects)
  }

  // ---- how the readings grow ---------------------------------------------------------------

  lemma {:induction false} SettleAllGrows(effects: seq<Effect>, ds: seq<Delivery>, how: How, hows: set<How>)
    ensures Flushed(effects + SettleAll(ds, how), hows) == Flushed(effects, hows)
    ensures SettledTags(effects + SettleAll(ds, how), hows) ==
        SettledTags(effects, hows) + (if how in hows then Tags(ds) else [])
  {
    var all := effects + SettleAll(ds, how);
    if ds == [] {
      assert all == effects;
    } else {
      var init, last := ds[..|ds| - 1], ds[|ds| - 1];
      SettleAllGrows(effects, init, how, hows);
      assert SettleAll(ds, how) == SettleAll(init, how) + [Settled(last.tag, how)];
      Associate(effects, SettleAll(init, how), [Settled(last.tag, how)]);
      SettledGrows(effects + SettleAll(init, how), last.tag, how, hows);
      TagsOfAppend(init, [last]);
      assert init + [last] == ds && Tags([last]) == [last.tag];
      Associate(SettledTags(effects, hows), Tags(init), [last.tag]);
    }
  }

  lemma FlushGrows(effects: seq<Effect>, batch: seq<Delivery>, how: How, hows: set<How>)
    ensures Flushed(effects + [Flush(batch, how)], hows) == Flushed(effects, hows) + (if how in hows then batch else [])
    ensures SettledTags(effects + [Flush(batch, how)], hows) == SettledTags(effects, hows)
  {
    assert (effects + [Flush(batch, how)])[..|effects|] == effects;
  }

  lemma ReceivedGrows(received: seq<Incoming>, i: Incoming, hows: set<How>)
    ensures Buffered(received + [i]) == Buffered(received) +
        (if Direct(i).None? then [Delivery(i.parsed.value, i.tag)] else [])
    ensures DirectTags(received + [i], hows) ==
        DirectTags(received, hows) + (if Direct(i).Some? && Direct(i).value in hows then [i.tag] else [])
  {
    assert (received + [i])[..|received|] == received;
  }

  lemma DueStays(received: seq<Incoming>, effects: seq<Effect>, moreReceived: seq<Incoming>, more: seq<Effect>)
    requires EverySettlementDue(received, effects)
    ensures forall k :: 0 <= k < |effects| && effects[k].Settled? ==> Due(received + moreReceived, effects + more, k)
  {
    var r, e := received + moreReceived, effects + more;
    forall k | 0 <= k < |effects| && effects[k].Settled?
      ensures Due(r, e, k)
    {
      assert Due(received, effects, k);
      if j :| 0 <= j < k && FlushedTag(effects[j], effects[k]) {
        assert e[j] == effects[j];
      } else {
        var i :| i in received && i.tag == effects[k].tag && Direct(i) == Some(effects[k].how);
        assert i in r;
      }
    }
  }

  lemma TagsOfAppend(a: seq<Delivery>, b: seq<Delivery>)
    ensures Tags(a + b) == Tags(a) + Tags(b)
  {
  }

  lemma SettledGrows(effects: seq<Effect>, tag: nat, how: How, hows: set<How>)
    ensures Flushed(effects + [Settled(tag, how)], hows) == Flushed(effects, hows)
    ensures SettledTags(effects + [Settled(tag, how)], hows) ==
        SettledTags(effects, hows) + (if how in hows then [tag] else [])
  {
    assert (effects + [Settled(tag, how)])[..|effects|] == effects;
  }

  lemma DirectMatches(received: seq<Incoming>, effects: seq<Effect>, i: Incoming, how: How, hows: set<How>)
    requires Direct(i) == Some(how) && SettledMatchesFlushed(received, effects, hows)
    ensures SettledMatchesFlushed(received + [i], effects + [Settled(i.tag, how)], hows)
  {
    ReceivedGrows(received, i, hows);
    SettledGrows(effects, i.tag, how, hows);
    if how in hows {
      BothGrow(SettledTags(effects, hows), Tags(Flushed(effects, hows)), [i.tag], DirectTags(received, hows));
    }
  }

  lemma DirectIsDue(received: seq<Incoming>, effects: seq<Effect>, i: Incoming, how: How)
    requires Direct(i) == Some(how) && EverySettlementDue(received, effects)
    ensures EverySettlementDue(received + [i], effects + [Settled(i.tag, how)])
  {
    DueStays(received, effects, [i], [Settled(i.tag, how)]);
    assert i in received + [i];
  }

  /** A message that arrives and is settled on the spot. */
  lemma DirectKeepsBalance(received: seq<Incoming>, effects: seq<Effect>, buffer: seq<Delivery>, i: Incoming)
    requires Balanced(received, effects, buffer) && Direct(i).Some?
    ensures Balanced(received + [i], effects + [Settled(i.tag, Direct(i).value)], buffer)
  {
    var how := Direct(i).value;
    forall hows
      ensures SettledMatchesFlushed(received + [i], effects + [Settled(i.tag, how)], hows)
    {
      assert SettledMatchesFlushed(received, effects, hows);
      DirectMatches(received, effects, i, how, hows);
    }
    ReceivedGrows(received, i, EVERY);
    assert Buffered(received + [i]) == Buffered(received);
    SettledGrows(effects, i.tag, how, EVERY);
    DirectIsDue(received, effects, i, how);
  }

  /** A message that arrives and is buffered. */
  lemma BufferingKeepsBalance(received: seq<Incoming>, effects: seq<Effect>, buffer: seq<Delivery>, i: Incoming)
    requires Balanced(received, effects, buffer) && Direct(i).None?
    ensures Balanced(received + [i], effects, buffer + [Delivery(i.parsed.value, i.tag)])
  {
    var r := received + [i];
    ReceivedGrows(received, i, EVERY);
    forall hows
      ensures SettledMatchesFlushed(r, effects, hows)
    {
      ReceivedGrows(received, i, hows);
      assert SettledMatchesFlushed(received, effects, hows);
    }
    assert effects + [] == effects;
    DueStays(received, effects, [i], []);
  }

  function FlushAndSettle(batch: seq<Delivery>, how: How): seq<Effect> {
    [Flush(batch, how)] + SettleAll(batch, how)
  }

  lemma FlushAndSettleGrows(effects: seq<Effect>, batch: seq<Delivery>, how: How, hows: set<How>)
    ensures Flushed(effects + FlushAndSettle(batch, how), hows) ==
        Flushed(effects, hows) + (if how in hows then batch else [])
    ensures SettledTags(effects + FlushAndSettle(batch, how), hows) ==
        SettledTags(effects, hows) + (if how in hows then Tags(batch) else [])
  {
    FlushGrows(effects, batch, how, hows);
    SettleAllGrows(effects + [Flush(batch, how)], batch, how, hows);
    assert effects + FlushAndSettle(batch, how) == effects + [Flush(batch, how)] + SettleAll(batch, how);
  }

  lemma FlushedMatches(received: seq<Incoming>, effects: seq<Effect>, batch: seq<Delivery>, how: How, hows: set<How>)
    requires SettledMatchesFlushed(received, effects, hows)
    ensures SettledMatchesFlushed(received, effects + FlushAndSettle(batch, how), hows)
  {
    FlushAndSettleGrows(effects, batch, how, hows);
    var e := effects + FlushAndSettle(batch, how);
    var flushed, settled := Flushed(effects, hows), SettledTags(effects, hows);
    if how in hows {
      TagsOfAppend(flushed, batch);
      BothGrow(settled, Tags(flushed), Tags(batch), DirectTags(received, hows));
    } else {
      assert Flushed(e, hows) == flushed && SettledTags(e, hows) == settled;
    }
  }

  lemma BothGrow(a: seq<nat>, b: seq<nat>, more: seq<nat>, c: seq<nat>)
    requires multiset(a) == multiset(b) + multiset(c)
    ensures multiset(a + more) == multiset(b + more) + multiset(c)
    ensures multiset(a + more) == multiset(b) + multiset(c + more)
  {
  }

  lemma FlushedIsDue(received: seq<Incoming>, effects: seq<Effect>, batch: seq<Delivery>, how: How)
    requires EverySettlementDue(received, effects)
    ensures EverySettlementDue(received, effects + FlushAndSettle(batch, how))
  {
    var e := effects + FlushAndSettle(batch, how);
    assert received + [] == received;
    DueStays(received, effects, [], FlushAndSettle(batch, how));
    forall k | |effects| <= k < |e| && e[k].Settled?
      ensures Due(received, e, k)
    {
      assert e[|effects|] == Flush(batch, how);
      assert Tags(batch)[k - |effects| - 1] == e[k].tag;
    }
  }

  /** The whole buffer flushed and settled the way the flush went. */
  lemma FlushKeepsBalance(received: seq<Incoming>, effects: seq<Effect>, buffer: seq<Delivery>, how: How)
    requires Balanced(received, effects, buffer)
    ensures Balanced(received, effects + FlushAndSettle(buffer, how), [])
  {
    forall hows
      ensures SettledMatchesFlushed(received, effects + FlushAndSettle(buffer, how), hows)
    {
      FlushedMatches(received, effects, buffer, how, hows);
    }
    FlushAndSettleGrows(effects, buffer, how, EVERY);
    FlushedIsDue(received, effects, buffer, how);
  }

  // ---- settlements in any order ---------------------------------------------------------------

  ghost predicate OnlySettled(effects: seq<Effect>) {
    forall x :: x in effects ==> x.Settled?
  }

  lemma {:induction false} ReadingsOfAppend(a: seq<Effect>, b: seq<Effect>, hows: set<How>)
    ensures Flushed(a + b, hows) == Flushed(a, hows) + Flushed(b, hows)
    ensures SettledTags(a + b, hows) == SettledTags(a, hows) + SettledTags(b, hows)
  {
    if b == [] {
      assert a + b == a;
    } else {
      var init, last := b[..|b| - 1], b[|b| - 1];
      ReadingsOfAppend(a, init, hows);
      assert (a + b)[..|a + b| - 1] == a + init && (a + b)[|a + b| - 1] == last;
      Associate(Flushed(a, hows), Flushed(init, hows), if last.Flush? && last.outcome in hows then last.batch else []);
      var tags := if last.Settled? && last.how in hows then [last.tag] else [];
      Associate(SettledTags(a, hows), SettledTags(init, hows), tags);
    }
  }

  lemma {:induction false} NothingFlushed(effects: seq<Effect>, hows: set<How>)
    requires OnlySettled(effects)
    ensures Flushed(effects, hows) == []
  {
    if effects != [] {
      assert effects[|effects| - 1] in effects;
      NothingFlushed(effects[..|effects| - 1], hows);
    }
  }

  /** Taking one settlement out of a list takes its tag out of the reading. */
  lemma SettledTagsWithout(before: seq<Effect>, x: Effect, after: seq<Effect>, hows: set<How>)
    ensures multiset(SettledTags(before + [x] + after, hows))
         == multiset(SettledTags(before + after, hows)) + multiset(SettledTags([x], hows))
  {
    ReadingsOfAppend(before + [x], after, hows);
    ReadingsOfAppend(before, [x], hows);
    ReadingsOfAppend(before, after, hows);
  }

  /** What is settled does not depend on the order; settling less settles fewer tags. */
  lemma {:induction false} FewerSettlements(some: seq<Effect>, all: seq<Effect>, hows: set<How>)
    requires multiset(some) <= multiset(all)
    ensures multiset(SettledTags(some, hows)) <= multiset(SettledTags(all, hows))
  {
    if some != [] {
      var init, last := some[..|some| - 1], some[|some| - 1];
      assert some == init + [last];
      assert last in multiset(all);
      var k :| 0 <= k < |all| && all[k] == last;
      var before, after := all[..k], all[k + 1..];
      assert all == before + [last] + after;
      Without(before, last, after);
      assert multiset(init) <= multiset(before + after);
      FewerSettlements(init, before + after, hows);
      SettledTagsWithout(before, last, after, hows);
      ReadingsOfAppend(init, [last], hows);
    }
  }

  lemma SameSettlements(some: seq<Effect>, all: seq<Effect>, hows: set<How>)
    requires multiset(some) == multiset(all)
    ensures multiset(SettledTags(some, hows)) == multiset(SettledTags(all, hows))
  {
    FewerSettlements(some, all, hows);
    FewerSettlements(all, some, hows);
  }

  /** A settlement due after the flushes of `before` is due wherever it comes among the settlements that follow. */
  lemma DueMoves(received: seq<Incoming>, before: seq<Effect>, some: seq<Effect>, all: seq<Effect>, k: nat, m: nat)
    requires k < |before + some| && m < |before + all| && (before + some)[k] == (before + all)[m]
    requires (before + all)[m].Settled? && Due(received, before + all, m) && OnlySettled(all)
    requires k == m || |before| <= k
    ensures Due(received, before + some, k)
  {
    var e, full := before + some, before + all;
    if j :| 0 <= j < m && FlushedTag(full[j], full[m]) {
      FlushComesBefore(before, all, j);
      assert e[j] == full[j];
    }
  }

  lemma FlushComesBefore(before: seq<Effect>, all: seq<Effect>, j: nat)
    requires OnlySettled(all) && j < |before + all| && (before + all)[j].Flush?
    ensures j < |before|
  {
    assert forall n :: 0 <= n < |all| ==> all[n] in all && all[n] == (before + all)[|before| + n];
  }

  lemma DueInAnyOrder(received: seq<Incoming>, before: seq<Effect>, some: seq<Effect>, all: seq<Effect>)
    requires EverySettlementDue(received, before + all) && OnlySettled(all) && multiset(some) <= multiset(all)
    ensures EverySettlementDue(received, before + some)
  {
    var e := before + some;
    forall k | 0 <= k < |e| && e[k].Settled?
      ensures Due(received, e, k)
    {
      var m: nat := k;
      if k >= |before| {
        assert e[k] == some[k - |before|];
        assert e[k] in multiset(some);
        assert e[k] in multiset(all);
        var n :| 0 <= n < |all| && all[n] == e[k];
        m := |before| + n;
      }
      assert (before + all)[m] == e[k];
      DueMoves(received, before, some, all, k, m);
    }
  }

  lemma PermutingKeepsBalance(received: seq<Incoming>, before: seq<Effect>, some: seq<Effect>, all: seq<Effect>,
                              buffer: seq<Delivery>)
    requires Balanced(received, before + all, buffer) && OnlySettled(all) && multiset(some) == multiset(all)
    ensures Balanced(received, before + some, buffer)
    ensures forall hows :: Flushed(before + some, hows) == Flushed(before + all, hows)
  {
    assert forall x :: x in some ==> x in multiset(all);
    forall hows
      ensures Flushed(before + some, hows) == Flushed(before + all, hows)
      ensures SettledMatchesFlushed(received, before + some, hows)
    {
      assert SettledMatchesFlushed(received, before + all, hows);
      ReadingsOfAppend(before, some, hows);
      ReadingsOfAppend(before, all, hows);
      NothingFlushed(some, hows);
      NothingFlushed(all, hows);
      SameSettlements(some, all, hows);
    }
    DueInAnyOrder(received, before, some, all);
  }

  // ---- what balanced books promise -----------------------------------------------------------

  ghost predicate Splits(received: seq<Incoming>) {
    multiset(ReceivedTags(received)) == multiset(Tags(Buffered(received))) + multiset(DirectTags(received, EVERY))
  }

  lemma ReceivedTagsGrow(received: seq<Incoming>, i: Incoming)
    ensures ReceivedTags(received + [i]) == ReceivedTags(received) + [i.tag]
  {
  }

  lemma OneMoreSplits(received: seq<Incoming>, i: Incoming)
    requires Splits(received)
    ensures Splits(received + [i])
  {
    var buffered, direct := Buffered(received), DirectTags(received, EVERY);
    ReceivedGrows(received, i, EVERY);
    BothGrow(ReceivedTags(received), Tags(buffered), [i.tag], direct);
    ReceivedTagsGrow(received, i);
    if Direct(i).None? {
      TagsOfAppend(buffered, [Delivery(i.parsed.value, i.tag)]);
      assert Tags([Delivery(i.parsed.value, i.tag)]) == [i.tag];
      assert DirectTags(received + [i], EVERY) == direct;
    } else {
      assert Buffered(received + [i]) == buffered;
      assert DirectTags(received + [i], EVERY) == direct + [i.tag];
    }
  }

  /** Every delivery either goes through the buffer or is settled directly. */
  lemma {:induction false} ReceivedSplits(received: seq<Incoming>)
    ensures Splits(received)
  {
    if received != [] {
      ReceivedSplits(received[..|received| - 1]);
      OneMoreSplits(received[..|received| - 1], received[|received| - 1]);
      assert received[..|received| - 1] + [received[|received| - 1]] == received;
    }
  }

  /** Conservation: what was received is what was settled plus what is still buffered. */
  lemma DeliveriesAreConserved(received: seq<Incoming>, effects: seq<Effect>, buffer: seq<Delivery>)
    requires Balanced(received, effects, buffer)
    ensures multiset(ReceivedTags(received)) == multiset(SettledTags(effects, EVERY)) + multiset(Tags(buffer))
  {
    ReceivedSplits(received);
    assert SettledMatchesFlushed(received, effects, EVERY);
    TagsOfAppend(Flushed(effects, EVERY), buffer);
  }

  /** With distinct tags nothing is settled twice, and nothing still buffered has been settled. */
  lemma SettledAtMostOnce(received: seq<Incoming>, effects: seq<Effect>, buffer: seq<Delivery>, tag: nat)
    requires Balanced(received, effects, buffer) && Distinct(ReceivedTags(received))
    ensures multiset(SettledTags(effects, EVERY))[tag] + multiset(Tags(buffer))[tag] <= 1
  {
    DeliveriesAreConserved(received, effects, buffer);
    DistinctCounts(ReceivedTags(received), tag);
  }

  lemma DistinctFromCounts(s: seq<nat>)
    requires forall x :: multiset(s)[x] <= 1
    ensures Distinct(s)
  {
    forall i, j | 0 <= i < j < |s|
      ensures s[i] != s[j]
    {
      assert s == s[..j] + [s[j]] + s[j + 1..];
      assert multiset(s)[s[j]] == multiset(s[..j])[s[j]] + 1 + multiset(s[j + 1..])[s[j]];
      assert s[..j][i] in multiset(s[..j]);
    }
  }

  lemma BufferedTagsAreDistinct(received: seq<Incoming>, effects: seq<Effect>, buffer: seq<Delivery>)
    requires Balanced(received, effects, buffer) && Distinct(ReceivedTags(received))
    ensures Distinct(Tags(buffer))
    ensures forall d :: d in buffer ==> d.tag in ReceivedTags(received)
  {
    forall tag
      ensures multiset(Tags(buffer))[tag] <= 1
    {
      SettledAtMostOnce(received, effects, buffer, tag);
    }
    DistinctFromCounts(Tags(buffer));
    DeliveriesAreConserved(received, effects, buffer);
    forall d | d in buffer
      ensures d.tag in ReceivedTags(received)
    {
      var i :| 0 <= i < |buffer| && buffer[i] == d;
      assert Tags(buffer)[i] == d.tag;
      assert d.tag in multiset(Tags(buffer));
      assert d.tag in multiset(ReceivedTags(received));
    }
  }

  // ---- the worker ------------------------------------------------------------------------------

  /** The deliveries for which an acker is left when its turn comes. */
  function Attached(ds: seq<Delivery>, ackers: set<nat>): seq<Delivery> {
    if ds == [] then []
    else
      var init, last := ds[..|ds| - 1], ds[|ds| - 1];
      Attached(init, ackers) + (if last.tag in ackers && last.tag !in TagSet(init) then [last] else [])
  }

  lemma LastTagIsNew(init: seq<Delivery>, last: Delivery)
    requires Distinct(Tags(init + [last]))
    ensures Distinct(Tags(init)) && last.tag !in TagSet(init)
  {
    var tags := Tags(init + [last]);
    assert forall i :: 0 <= i < |init| ==> Tags(init)[i] == tags[i];
    forall d | d in init
      ensures d.tag != last.tag
    {
      var i :| 0 <= i < |init| && init[i] == d;
      assert tags[i] == d.tag && tags[|init|] == last.tag;
    }
  }

  lemma {:induction false} AllAttached(ds: seq<Delivery>, ackers: set<nat>)
    requires (forall d :: d in ds ==> d.tag in ackers) && Distinct(Tags(ds))
    ensures Attached(ds, ackers) == ds
  {
    if ds != [] {
      var init, last := ds[..|ds| - 1], ds[|ds| - 1];
      assert ds == init + [last];
      LastTagIsNew(init, last);
      AllAttached(init, ackers);
    }
  }

  lemma OneMoreAttached(ds: seq<Delivery>, d: Delivery, ackers: set<nat>)
    ensures Attached(ds + [d], ackers) == Attached(ds, ackers) + (if d.tag in ackers - TagSet(ds) then [d] else [])
    ensures TagSet(ds + [d]) == TagSet(ds) + {d.tag}
  {
    assert (ds + [d])[..|ds|] == ds;
  }

  function ResultEffects(r: HandlerResult, ackers: set<nat>): seq<Effect> {
    SettleAll(Attached(r.toAck, ackers), Ack)
    + SettleAll(Attached(r.toReject, ackers - TagSet(r.toAck)), Reject)
    + SettleAll(Attached(r.toRequeue, ackers - TagSet(r.toAck) - TagSet(r.toReject)), Requeue)
  }

  lemma OneWayResult(ds: seq<Delivery>, how: How, ackers: set<nat>)
    requires (forall d :: d in ds ==> d.tag in ackers) && Distinct(Tags(ds))
    ensures ResultEffects(AllTo(ds, how), ackers) == SettleAll(ds, how)
  {
    AllAttached(ds, ackers);
    match how
    case Ack => OnlyAcks(ds, ackers);
    case Reject => OnlyRejects(ds, ackers);
    case Requeue => OnlyRequeues(ds, ackers);
  }

  lemma OnlyAcks(ds: seq<Delivery>, ackers: set<nat>)
    ensures ResultEffects(HandlerResult(ds, [], []), ackers) == SettleAll(Attached(ds, ackers), Ack)
  {
    NothingAttached(ackers - TagSet(ds), Reject);
    NothingAttached(ackers - TagSet(ds) - TagSet([]), Requeue);
  }

  lemma OnlyRejects(ds: seq<Delivery>, ackers: set<nat>)
    ensures ResultEffects(HandlerResult([], ds, []), ackers) == SettleAll(Attached(ds, ackers), Reject)
  {
    NothingAttached(ackers, Ack);
    NothingAttached(ackers - TagSet([]) - TagSet(ds), Requeue);
    assert TagSet([]) == {} && ackers - TagSet([]) == ackers;
  }

  lemma OnlyRequeues(ds: seq<Delivery>, ackers: set<nat>)
    ensures ResultEffects(HandlerResult([], [], ds), ackers) == SettleAll(Attached(ds, ackers), Requeue)
  {
    NothingAttached(ackers, Ack);
    NothingAttached(ackers - TagSet([]), Reject);
    assert TagSet([]) == {} && ackers - TagSet([]) - TagSet([]) == ackers;
  }

  lemma NothingAttached(ackers: set<nat>, how: How)
    ensures SettleAll(Attached([], ackers), how) == []
  {
  }

  lemma ResultIsSettlements(r: HandlerResult, ackers: set<nat>)
    ensures OnlySettled(ResultEffects(r, ackers))
  {
  }

  /** Issuing one of the pending calls. */
  lemma IssueOne(pending: seq<Delivery>, k: nat, how: How)
    requires k < |pending|
    ensures multiset(SettleAll(pending, how))
         == multiset(SettleAll(pending[..k] + pending[k + 1..], how)) + multiset{Settled(pending[k].tag, how)}
  {
    RemoveAt(SettleAll(pending, how), k);
    SettleAllWithout(pending, k, how);
  }

  lemma SettleAllWithout(pending: seq<Delivery>, k: nat, how: How)
    requires k < |pending|
    ensures SettleAll(pending[..k] + pending[k + 1..], how) ==
        SettleAll(pending, how)[..k] + SettleAll(pending, how)[k + 1..]
  {
  }

  lemma OneWayTags(ds: seq<Delivery>, how: How, ackers: set<nat>)
    ensures var r := AllTo(ds, how);
      ackers - TagSet(r.toAck) - TagSet(r.toReject) - TagSet(r.toRequeue) == ackers - TagSet(ds)
  {
    assert TagSet([]) == {};
    match how
    case Ack =>
    case Reject =>
    case Requeue =>
  }

  class BatchQueueWorker {
    const size: nat
    var state: seq<Delivery>
    var ackers: set<nat>
    /** The rows confirmed stored. */
    var stored: seq<Row>
    /** This connection's history. */
    ghost var received: seq<Incoming>
    ghost var effects: seq<Effect>

    constructor (size: nat)
      ensures this.size == size && state == [] && ackers == {} && stored == []
    {
      this.size := size;
      state, ackers, stored, received, effects := [], {}, [], [], [];
    }

    /**
      The insert with its retries. An attempt may report an error although some
      or all of its rows got into the table.
     */
    method FlushBatchInner(deliveries: seq<Delivery>) returns (r: Result<(), HandlerError>, ghost added: seq<Row>)
      modifies this`stored
      ensures stored == old(stored) + added && Lands(added, deliveries, r.Ok?)
      ensures r.Err? ==> r.error == Transient && RowsOf(deliveries) != []
    {
      var rows := RowsOf(deliveries);
      added := [];
      if rows == [] {
        return Ok(()), [];
      }
      var attempts: nat :| 0 <= attempts;
      for attempt := 0 to attempts
        invariant stored == old(stored) + added
        invariant forall row :: row in added ==> row in rows
      {
        var landed: nat :| landed <= |rows|;
        Associate(old(stored), added, rows[..landed]);
        stored, added := stored + rows[..landed], added + rows[..landed];
        if landed == |rows| {
          assert rows[..landed] == rows;
          if * {
            return Ok(()), added;
          }
        }
      }
      return Err(Transient), added;
    }

    /** Takes the whole buffer; the result settles all of it one way. */
    method FlushBatch() returns (r: HandlerResult, ghost how: How, ghost added: seq<Row>)
      modifies this`state, this`stored, this`effects
      ensures state == [] && r == AllTo(old(state), how)
      ensures effects == old(effects) + [Flush(old(state), how)]
      ensures stored == old(stored) + added && Lands(added, old(state), how == Ack)
      ensures how != Reject
    {
      var toFlush := state;
      state := [];
      var outcome;
      outcome, added := FlushBatchInner(toFlush);
      match outcome {
        case Ok(_) =>
          r, how := HandlerResult(toFlush, [], []), Ack;
        case Err(Transient) =>
          r, how := HandlerResult([], [], toFlush), Requeue;
        case Err(Permanent) =>
          r, how := HandlerResult([], toFlush, []), Reject;
      }
      effects := effects + [Flush(toFlush, how)];
    }

    /** `flushed` is the outcome of the flush, if there was one, and `added` the rows it brought into the table. */
    method HandleMessage(d: Delivery) returns (r: HandlerResult, ghost flushed: Option<How>, ghost added: seq<Row>)
      modifies this`state, this`stored, this`effects
      ensures d.message.events == [] ==> flushed == None && r == AllTo([d], Ack) && state == old(state)
      ensures d.message.events != [] ==> (flushed.Some? <==> TotalEvents(old(state) + [d]) >= size)
      ensures d.message.events != [] && flushed.None? ==> r == AllTo([], Ack) && state == old(state) + [d]
      ensures flushed.None? ==> added == [] && stored == old(stored) && effects == old(effects)
      ensures stored == old(stored) + added
      ensures flushed.Some? ==>
        && state == [] && r == AllTo(old(state) + [d], flushed.value)
        && effects == old(effects) + [Flush(old(state) + [d], flushed.value)]
        && Lands(added, old(state) + [d], flushed.value == Ack)
    {
      flushed, added := None, [];
      if d.message.events == [] {
        return HandlerResult([d], [], []), None, [];
      }
      state := state + [d];
      if TotalEvents(state) >= size {
        ghost var how;
        r, how, added := FlushBatch();
        return r, Some(how), added;
      }
      r := HandlerResult([], [], []);
    }

    method HandleInterval() returns (r: HandlerResult, ghost flushed: Option<How>, ghost added: seq<Row>)
      modifies this`state, this`stored, this`effects
      ensures flushed.Some? <==> old(state) != []
      ensures flushed.None? ==> r == AllTo([], Ack) && state == [] && added == [] && effects == old(effects)
      ensures stored == old(stored) + added
      ensures flushed.Some? ==>
        && state == [] && r == AllTo(old(state), flushed.value)
        && effects == old(effects) + [Flush(old(state), flushed.value)]
        && Lands(added, old(state), flushed.value == Ack)
    {
      if state != [] {
        ghost var how;
        r, how, added := FlushBatch();
        return r, Some(how), added;
      }
      return HandlerResult([], [], []), None, [];
    }

    method DetachAckers(deliveries: seq<Delivery>) returns (calls: seq<Delivery>)
      modifies this`ackers
      ensures calls == Attached(deliveries, old(ackers))
      ensures ackers == old(ackers) - TagSet(deliveries)
    {
      calls := [];
      for i := 0 to |deliveries|
        invariant calls == Attached(deliveries[..i], old(ackers))
        invariant ackers == old(ackers) - TagSet(deliveries[..i])
      {
        OneMoreAttached(deliveries[..i], deliveries[i], old(ackers));
        assert deliveries[..i + 1] == deliveries[..i] + [deliveries[i]];
        if deliveries[i].tag in ackers {
          ackers := ackers - {deliveries[i].tag};
          calls := calls + [deliveries[i]];
        }
      }
      assert deliveries[..|deliveries|] == deliveries;
    }

    /**
      Removes every acker first, then settles concurrently: the calls go out in
      any order, and once one has failed any number of the others may be dropped.
     */
    method SettleDeliveries(deliveries: seq<Delivery>, how: How) returns (ok: bool, ghost issued: seq<Effect>)
      modifies this`ackers, this`effects
      ensures ackers == old(ackers) - TagSet(deliveries)
      ensures effects == old(effects) + issued
      ensures multiset(issued) <= multiset(SettleAll(Attached(deliveries, old(ackers)), how))
      ensures ok ==> multiset(issued) == multiset(SettleAll(Attached(deliveries, old(ackers)), how))
    {
      var pending := DetachAckers(deliveries);
      ghost var all := multiset(SettleAll(pending, how));
      ok, issued := true, [];
      while pending != []
        invariant ackers == old(ackers) - TagSet(deliveries)
        invariant effects == old(effects) + issued
        invariant multiset(issued) + multiset(SettleAll(pending, how)) == all
        decreases |pending|
      {
        if !ok {
          if * {
            break;
          }
        }
        var k: nat :| k < |pending|;
        IssueOne(pending, k, how);
        Associate(old(effects), issued, [Settled(pending[k].tag, how)]);
        effects, issued := effects + [Settled(pending[k].tag, how)], issued + [Settled(pending[k].tag, how)];
        pending := pending[..k] + pending[k + 1..];
        if * {
          ok := false;
        }
      }
    }

    /** Acks, then rejects, then requeues; each stage is entered only when the one before went through. */
    method HandleResult(r: HandlerResult)
      returns (ok: bool, ghost acked: seq<Effect>, ghost rejected: seq<Effect>, ghost requeued: seq<Effect>)
      modifies this`ackers, this`effects
      ensures effects == old(effects) + (acked + rejected + requeued)
      ensures multiset(acked) <= multiset(SettleAll(Attached(r.toAck, old(ackers)), Ack))
      ensures multiset(rejected) <= multiset(SettleAll(Attached(r.toReject, old(ackers) - TagSet(r.toAck)), Reject))
      ensures multiset(acked + rejected + requeued) <= multiset(ResultEffects(r, old(ackers)))
      ensures rejected != [] ==> multiset(acked) == multiset(SettleAll(Attached(r.toAck, old(ackers)), Ack))
      ensures requeued != [] ==>
        multiset(rejected) == multiset(SettleAll(Attached(r.toReject, old(ackers) - TagSet(r.toAck)), Reject))
      ensures requeued != [] ==> multiset(acked) == multiset(SettleAll(Attached(r.toAck, old(ackers)), Ack))
      ensures ok ==> multiset(acked + rejected + requeued) == multiset(ResultEffects(r, old(ackers)))
      ensures ok ==> ackers == old(ackers) - TagSet(r.toAck) - TagSet(r.toReject) - TagSet(r.toRequeue)
    {
      acked, rejected, requeued := [], [], [];
      ok, acked := SettleDeliveries(r.toAck, Ack);
      assert acked + [] + [] == acked;
      if !ok {
        return;
      }
      ok, rejected := SettleDeliveries(r.toReject, Reject);
      Associate(old(effects), acked, rejected);
      assert acked + rejected + [] == acked + rejected;
      if !ok {
        return;
      }
      ok, requeued := SettleDeliveries(r.toRequeue, Requeue);
      Associate(old(effects), acked + rejected, requeued);
    }

    /** Between two happenings: balanced books, an acker for each buffered delivery, and a buffer below its limit. */
    ghost predicate AtLoopHead(base: seq<Row>)
      reads this
    {
      && Balanced(received, effects, state)
      && ackers == TagSet(state)
      && (state == [] || TotalEvents(state) < size)
      && Landed(base, stored, effects)
    }

    /** Settles a handler's result; the history it completes is known beforehand. */
    method Conclude(r: HandlerResult, ghost full: seq<Effect>, ghost base: seq<Row>) returns (ok: bool)
      requires Completes(received, effects, ackers, state, stored, r, full, base) &&
          (state == [] || TotalEvents(state) < size)
      modifies this`ackers, this`effects
      ensures ok ==> AtLoopHead(base)
      ensures !ok ==> CutShort(received, effects, stored, base)
    {
      ghost var before, rest := effects, ResultEffects(r, ackers);
      ghost var acked, rejected, requeued;
      ok, acked, rejected, requeued := HandleResult(r);
      ResultIsSettlements(r, old(ackers));
      if ok {
        PermutingKeepsBalance(received, before, acked + rejected + requeued, rest, state);
      } else {
        assert PartOf(before + (acked + rejected + requeued), before + rest, |before|);
      }
    }

    /** A delivery from the queue; `ok` is false when settling it, or its batch, fails. */
    method Deliver(i: Incoming, ghost base: seq<Row>) returns (ok: bool)
      requires AtLoopHead(base) && Distinct(ReceivedTags(received + [i]))
      modifies this
      ensures received == old(received) + [i]
      ensures ok ==> AtLoopHead(base)
      ensures !ok ==> CutShort(received, effects, stored, base)
    {
      match i.parsed
      case None =>
        ok := RejectMalformed(i, base);
      case Some(message) =>
        ok := Accept(i, message, base);
    }

    method RejectMalformed(i: Incoming, ghost base: seq<Row>) returns (ok: bool)
      requires AtLoopHead(base) && i.parsed.None?
      modifies this`received, this`effects
      ensures received == old(received) + [i] && effects == old(effects) + [Settled(i.tag, Reject)]
      ensures AtLoopHead(base) && CutShort(received, effects, stored, base)
    {
      RejectKeepsBooks(received, effects, state, i, stored, base);
      received := received + [i];
      effects := effects + [Settled(i.tag, Reject)];
      ok := *;
    }

    method Accept(i: Incoming, message: Message, ghost base: seq<Row>) returns (ok: bool)
      requires AtLoopHead(base) && Distinct(ReceivedTags(received + [i])) && i.parsed == Some(message)
      modifies this
      ensures received == old(received) + [i]
      ensures ok ==> AtLoopHead(base)
      ensures !ok ==> CutShort(received, effects, stored, base)
    {
      TagIsNew(received, effects, state, i);
      ghost var before, buffer := effects, state;
      received, ackers := received + [i], ackers + {i.tag};
      var d := Delivery(message, i.tag);
      var r, flushed, added := HandleMessage(d);
      ghost var full;
      if message.events == [] {
        DirectCompletes(old(received), before, buffer, i, stored, base);
        full := before + [Settled(i.tag, Ack)];
      } else {
        BufferingKeepsBalance(old(received), before, buffer, i);
        OneMoreTag(buffer, d);
        HandlerCompletes(received, before, buffer + [d], flushed, old(stored), added, base);
        full := FlushedOr(before, buffer + [d], flushed);
      }
      ok := Conclude(r, full, base);
    }

    method OnTick(ghost base: seq<Row>) returns (ok: bool)
      requires AtLoopHead(base) && Distinct(ReceivedTags(received))
      modifies this
      ensures received == old(received)
      ensures ok ==> AtLoopHead(base) && state == []
      ensures !ok ==> CutShort(received, effects, stored, base)
    {
      ghost var before, buffer := effects, state;
      var r, flushed, added := HandleInterval();
      HandlerCompletes(received, before, buffer, flushed, old(stored), added, base);
      ok := Conclude(r, FlushedOr(before, buffer, flushed), base);
    }

    /**
      `process_inner` up to the end of the stream or the first error; `happenings`
      interleaves deliveries and ticks in any order. Rows stored on earlier
      connections stay; everything else starts afresh.
     */
    method ProcessInner(happenings: seq<Happening>) returns (ok: bool)
      requires Distinct(ReceivedTags(Deliveries(happenings)))
      modifies this
      ensures received <= Deliveries(happenings)
      ensures ok ==> AtLoopHead(old(stored)) && received == Deliveries(happenings)
      ensures !ok ==> CutShort(received, effects, stored, old(stored))
    {
      state, ackers := [], {};
      received, effects := [], [];
      NothingYet(stored);
      if * {
        EndsInBalance(received, effects, state, stored, stored);
        return false;  // connecting failed
      }
      ok := ReceiveAll(happenings, old(stored));
    }

    /** The select loop of a connection. */
    method ReceiveAll(happenings: seq<Happening>, ghost base: seq<Row>) returns (ok: bool)
      requires AtLoopHead(base) && received == [] && Distinct(ReceivedTags(Deliveries(happenings)))
      modifies this
      ensures received <= Deliveries(happenings)
      ensures ok ==> AtLoopHead(base) && received == Deliveries(happenings)
      ensures !ok ==> CutShort(received, effects, stored, base)
    {
      for next := 0 to |happenings|
        invariant AtLoopHead(base) && received == Deliveries(happenings[..next])
      {
        OneMoreHappening(happenings, next);
        ok := Handle(happenings[next], base);
        if !ok {
          return;
        }
      }
      assert happenings[..|happenings|] == happenings;
      ok := true;
    }

    method Handle(h: Happening, ghost base: seq<Row>) returns (ok: bool)
      requires AtLoopHead(base) && Distinct(ReceivedTags(received + Deliveries([h])))
      modifies this
      ensures ok ==> received == old(received) + Deliveries([h]) && AtLoopHead(base)
      ensures !ok ==> CutShort(received, effects, stored, base)
      ensures received == old(received) || received == old(received) + Deliveries([h])
    {
      OneHappening(h);
      match h
      case ReceiveFailed =>
        EndsInBalance(received, effects, state, stored, base);
        ok := false;
      case Received(incoming) =>
        ok := Deliver(incoming, base);
      case Tick =>
        assert received + [] == received;
        ok := OnTick(base);
    }
  }

  /** The deliveries among the happenings, in order. */
  function Deliveries(happenings: seq<Happening>): seq<Incoming> {
    if happenings == [] then []
    else
      var init, last := happenings[..|happenings| - 1], happenings[|happenings| - 1];
      Deliveries(init) + (if last.Received? then [last.incoming] else [])
  }

  lemma {:induction false} DeliveriesGrow(a: seq<Happening>, b: seq<Happening>)
    ensures Deliveries(a) <= Deliveries(a + b)
  {
    if b == [] {
      assert a + b == a;
    } else {
      DeliveriesGrow(a, b[..|b| - 1]);
      assert (a + b)[..|a + b| - 1] == a + b[..|b| - 1];
    }
  }

  lemma DistinctPrefix(a: seq<Incoming>, b: seq<Incoming>)
    requires a <= b && Distinct(ReceivedTags(b))
    ensures Distinct(ReceivedTags(a))
  {
    assert forall j :: 0 <= j < |a| ==> ReceivedTags(a)[j] == ReceivedTags(b)[j];
  }

  lemma OneHappening(h: Happening)
    ensures Deliveries([h]) == if h.Received? then [h.incoming] else []
  {
    assert [h][..0] == [];
  }

  lemma DeliveriesOfNext(before: seq<Happening>, h: Happening)
    ensures Deliveries(before + [h]) == Deliveries(before) + Deliveries([h])
  {
    OneHappening(h);
    assert (before + [h])[..|before|] == before;
  }

  lemma OneMoreHappening(happenings: seq<Happening>, next: nat)
    requires next < |happenings| && Distinct(ReceivedTags(Deliveries(happenings)))
    ensures Deliveries(happenings[..next + 1]) <= Deliveries(happenings)
    ensures Deliveries(happenings[..next + 1]) == Deliveries(happenings[..next]) + Deliveries([happenings[next]])
    ensures Distinct(ReceivedTags(Deliveries(happenings[..next + 1])))
  {
    var upTo, rest := happenings[..next + 1], happenings[next + 1..];
    TakeOneMore(happenings, next);
    DeliveriesOfNext(happenings[..next], happenings[next]);
    DeliveriesGrow(upTo, rest);
    DistinctPrefix(Deliveries(upTo), Deliveries(happenings));
  }

  lemma NothingYet(base: seq<Row>)
    ensures Balanced([], [], []) && Landed(base, base, []) && TagSet([]) == {}
  {
    forall hows
      ensures SettledMatchesFlushed([], [], hows)
    {
    }
  }

  lemma TagIsNew(received: seq<Incoming>, effects: seq<Effect>, buffer: seq<Delivery>, i: Incoming)
    requires Balanced(received, effects, buffer) && Distinct(ReceivedTags(received + [i]))
    ensures Distinct(ReceivedTags(received)) && i.tag !in TagSet(buffer)
  {
    var tags := ReceivedTags(received);
    ReceivedTagsGrow(received, i);
    assert forall j :: 0 <= j < |tags| ==> tags[j] == (tags + [i.tag])[j];
    assert (tags + [i.tag])[|tags|] == i.tag;
    assert i.tag !in tags;
    BufferedTagsAreDistinct(received, effects, buffer);
  }

  lemma OneMoreTag(buffer: seq<Delivery>, d: Delivery)
    ensures TagSet(buffer + [d]) == TagSet(buffer) + {d.tag}
  {
  }

  lemma DirectLandsNothing(base: seq<Row>, stored: seq<Row>, effects: seq<Effect>, tag: nat, how: How)
    requires Landed(base, stored, effects)
    ensures Landed(base, stored, effects + [Settled(tag, how)])
  {
    SettledGrows(effects, tag, how, {Ack});
    SettledGrows(effects, tag, how, EVERY);
  }

  /** The history once a handler that flushed (or did not) has had its result settled. */
  function FlushedOr(before: seq<Effect>, batch: seq<Delivery>, flushed: Option<How>): seq<Effect> {
    match flushed
    case None => before
    case Some(how) => before + FlushAndSettle(batch, how)
  }

  /** Settling `r` completes the history to `full`, which is balanced and accounts for the rows stored. */
  ghost predicate Completes(received: seq<Incoming>, effects: seq<Effect>, ackers: set<nat>, buffer: seq<Delivery>,
                            stored: seq<Row>, r: HandlerResult, full: seq<Effect>, base: seq<Row>)
  {
    && effects + ResultEffects(r, ackers) == full
    && ackers - TagSet(r.toAck) - TagSet(r.toReject) - TagSet(r.toRequeue) == TagSet(buffer)
    && Balanced(received, full, buffer)
    && Landed(base, stored, full)
  }

  /** A handler that flushed the whole batch, or left it in the buffer. */
  lemma HandlerCompletes(received: seq<Incoming>, before: seq<Effect>, batch: seq<Delivery>, flushed: Option<How>,
                         stored: seq<Row>, added: seq<Row>, base: seq<Row>)
    requires Distinct(ReceivedTags(received)) && Balanced(received, before, batch) && Landed(base, stored, before)
    requires flushed.None? ==> added == []
    requires flushed.Some? ==> Lands(added, batch, flushed.value == Ack)
    ensures flushed.None? ==>
      Completes(received, before, TagSet(batch), batch, stored + added, AllTo([], Ack), before, base)
    ensures flushed.Some? ==>
      Completes(received, before + [Flush(batch, flushed.value)], TagSet(batch), [], stored + added,
                AllTo(batch, flushed.value), FlushedOr(before, batch, flushed), base)
  {
    match flushed
    case None =>
      OneWayResult([], Ack, TagSet(batch));
      assert stored + [] == stored;
    case Some(how) =>
      FlushCompletes(received, before, batch, how, stored, added, base);
  }

  lemma FlushCompletes(received: seq<Incoming>, before: seq<Effect>, batch: seq<Delivery>, how: How,
                       stored: seq<Row>, added: seq<Row>, base: seq<Row>)
    requires Distinct(ReceivedTags(received)) && Balanced(received, before, batch) && Landed(base, stored, before)
    requires Lands(added, batch, how == Ack)
    ensures Completes(received, before + [Flush(batch, how)], TagSet(batch), [], stored + added,
                      AllTo(batch, how), before + FlushAndSettle(batch, how), base)
  {
    BufferedTagsAreDistinct(received, before, batch);
    OneWayResult(batch, how, TagSet(batch));
    FlushKeepsBalance(received, before, batch, how);
    FlushLands(base, stored, added, before, batch, how);
    FlushThenSettle(before, batch, how);
    OneWayTags(batch, how, TagSet(batch));
    assert TagSet(batch) - TagSet(batch) == TagSet([]);
  }

  lemma FlushThenSettle(before: seq<Effect>, batch: seq<Delivery>, how: How)
    ensures before + [Flush(batch, how)] + SettleAll(batch, how) == before + FlushAndSettle(batch, how)
  {
  }

  lemma DirectCompletes(received: seq<Incoming>, before: seq<Effect>, buffer: seq<Delivery>, i: Incoming,
                        stored: seq<Row>, base: seq<Row>)
    requires Balanced(received, before, buffer) && Landed(base, stored, before)
    requires Direct(i) == Some(Ack) && i.tag !in TagSet(buffer)
    ensures Completes(received + [i], before, TagSet(buffer) + {i.tag}, buffer, stored,
                      AllTo([Delivery(i.parsed.value, i.tag)], Ack), before + [Settled(i.tag, Ack)], base)
  {
    DirectKeepsBalance(received, before, buffer, i);
    DirectLandsNothing(base, stored, before, i.tag, Ack);
    SingleAck(Delivery(i.parsed.value, i.tag), TagSet(buffer));
  }

  lemma SingleAck(d: Delivery, others: set<nat>)
    requires d.tag !in others
    ensures ResultEffects(AllTo([d], Ack), others + {d.tag}) == [Settled(d.tag, Ack)]
    ensures others + {d.tag} - TagSet([d]) - TagSet([]) - TagSet([]) == others
  {
    OneWayResult([d], Ack, others + {d.tag});
    assert SettleAll([d], Ack) == [Settled(d.tag, Ack)];
    assert TagSet([d]) == {d.tag} && TagSet([]) == {};
  }

  /** The rows of the flushes that succeeded. */
  ghost function StoredBy(effects: seq<Effect>): seq<Row> {
    RowsOf(Flushed(effects, {Ack}))
  }

  /** What one flush brings into the table: rows of its batch, any number of times, all of them if it succeeded. */
  ghost predicate Lands(added: seq<Row>, batch: seq<Delivery>, complete: bool) {
    && (complete ==> multiset(RowsOf(batch)) <= multiset(added))
    && forall row :: row in added ==> row in RowsOf(batch)
  }

  /** Since `base` the table has gained all rows of the successful flushes, and no row that was never flushed. */
  ghost predicate Landed(base: seq<Row>, stored: seq<Row>, effects: seq<Effect>) {
    && base <= stored
    && multiset(StoredBy(effects)) <= multiset(stored[|base|..])
    && forall row :: row in stored[|base|..] ==> row in RowsOf(Flushed(effects, EVERY))
  }

  lemma {:induction false} RowsOfAppend(a: seq<Delivery>, b: seq<Delivery>)
    ensures RowsOf(a + b) == RowsOf(a) + RowsOf(b)
  {
    if b == [] {
      assert a + b == a;
    } else {
      RowsOfAppend(a, b[..|b| - 1]);
      assert (a + b)[..|a + b| - 1] == a + b[..|b| - 1];
      Associate(RowsOf(a), RowsOf(b[..|b| - 1]), MessageRows(b[|b| - 1].message));
    }
  }

  lemma FlushLands(base: seq<Row>, stored: seq<Row>, added: seq<Row>, effects: seq<Effect>, batch: seq<Delivery>,
                   how: How)
    requires Landed(base, stored, effects) && Lands(added, batch, how == Ack)
    ensures Landed(base, stored + added, effects + FlushAndSettle(batch, how))
  {
    assert (stored + added)[|base|..] == stored[|base|..] + added;
    FlushStores(effects, batch, how);
    FlushAndSettleGrows(effects, batch, how, EVERY);
    RowsOfAppend(Flushed(effects, EVERY), batch);
  }

  lemma FlushStores(effects: seq<Effect>, batch: seq<Delivery>, how: How)
    ensures multiset(StoredBy(effects + FlushAndSettle(batch, how)))
         == multiset(StoredBy(effects)) + (if how == Ack then multiset(RowsOf(batch)) else multiset{})
  {
    FlushAndSettleGrows(effects, batch, how, {Ack});
    if how == Ack {
      RowsOfAppend(Flushed(effects, {Ack}), batch);
    } else {
      assert Flushed(effects + FlushAndSettle(batch, how), {Ack}) == Flushed(effects, {Ack});
    }
  }

  /** `effects` goes the way of `full` for `k` effects, and then settles only some of what `full` settles. */
  ghost predicate PartOf(effects: seq<Effect>, full: seq<Effect>, k: nat) {
    && k <= |effects| && k <= |full| && effects[..k] == full[..k]
    && OnlySettled(full[k..]) && multiset(effects[k..]) <= multiset(full[k..])
  }

  /** A connection that broke off: a balanced history, of which the last settlements may not all have happened. */
  ghost predicate CutShort(received: seq<Incoming>, effects: seq<Effect>, stored: seq<Row>, base: seq<Row>) {
    exists full, buffer, k ::
      Balanced(received, full, buffer) && PartOf(effects, full, k) && Landed(base, stored, full)
  }

  lemma RejectKeepsBooks(received: seq<Incoming>, effects: seq<Effect>, buffer: seq<Delivery>, i: Incoming,
                         stored: seq<Row>, base: seq<Row>)
    requires Balanced(received, effects, buffer) && Landed(base, stored, effects) && i.parsed.None?
    ensures Balanced(received + [i], effects + [Settled(i.tag, Reject)], buffer)
    ensures Landed(base, stored, effects + [Settled(i.tag, Reject)])
    ensures CutShort(received + [i], effects + [Settled(i.tag, Reject)], stored, base)
  {
    DirectKeepsBalance(received, effects, buffer, i);
    DirectLandsNothing(base, stored, effects, i.tag, Reject);
    EndsInBalance(received + [i], effects + [Settled(i.tag, Reject)], buffer, stored, base);
  }

  lemma EndsInBalance(received: seq<Incoming>, effects: seq<Effect>, buffer: seq<Delivery>, stored: seq<Row>,
                      base: seq<Row>)
    requires Balanced(received, effects, buffer) && Landed(base, stored, effects)
    ensures CutShort(received, effects, stored, base)
  {
    assert PartOf(effects, effects, |effects|);
  }

  /** However a connection ends, no delivery has been settled twice and every settlement was due. */
  lemma BrokenConnectionSettlesAtMostOnce(received: seq<Incoming>, effects: seq<Effect>, stored: seq<Row>,
                                          base: seq<Row>, tag: nat)
    requires CutShort(received, effects, stored, base) && Distinct(ReceivedTags(received))
    ensures multiset(SettledTags(effects, EVERY))[tag] <= 1
    ensures EverySettlementDue(received, effects)
  {
    var full, buffer, k :|
      Balanced(received, full, buffer) && PartOf(effects, full, k) && Landed(base, stored, full);
    SettledAtMostOnce(received, full, buffer, tag);
    PartSettlesLess(received, effects, full, k);
  }

  lemma PartSettlesLess(received: seq<Incoming>, effects: seq<Effect>, full: seq<Effect>, k: nat)
    requires PartOf(effects, full, k) && EverySettlementDue(received, full)
    ensures multiset(SettledTags(effects, EVERY)) <= multiset(SettledTags(full, EVERY))
    ensures EverySettlementDue(received, effects)
  {
    var before, some, all := full[..k], effects[k..], full[k..];
    assert full == before + all && effects == before + some;
    FewerSettlements(some, all, EVERY);
    ReadingsOfAppend(before, some, EVERY);
    ReadingsOfAppend(before, all, EVERY);
    DueInAnyOrder(received, before, some, all);
  }

  ghost predicate Within<T(!new)>(part: seq<T>, whole: seq<T>) {
    exists p: seq<T>, q: seq<T> :: whole == p + part + q
  }

  lemma {:induction false} FlushedContains(effects: seq<Effect>, j: nat, hows: set<How>)
    returns (p: seq<Delivery>, q: seq<Delivery>)
    requires j < |effects| && effects[j].Flush? && effects[j].outcome in hows
    ensures Flushed(effects, hows) == p + effects[j].batch + q
  {
    var init, last := effects[..|effects| - 1], effects[|effects| - 1];
    if j == |effects| - 1 {
      p, q := Flushed(init, hows), [];
    } else {
      p, q := FlushedContains(init, j, hows);
      q := q + (if last.Flush? && last.outcome in hows then last.batch else []);
    }
  }

  ghost predicate RowsAreStored(d: Delivery, effects: seq<Effect>) {
    Within(MessageRows(d.message), StoredBy(effects))
  }

  /** Nothing is acknowledged before it is safe: the rows of an acked delivery were stored by an earlier flush. */
  lemma AckedRowsWereStored(received: seq<Incoming>, effects: seq<Effect>, buffer: seq<Delivery>, k: nat)
    requires Balanced(received, effects, buffer) && k < |effects| && effects[k].Settled? && effects[k].how == Ack
    ensures (exists i :: i in received && i.tag == effects[k].tag && Direct(i) == Some(Ack))
         || (exists d :: d in Buffered(received) && d.tag == effects[k].tag && RowsAreStored(d, effects[..k]))
  {
    assert Due(received, effects, k);
    if j :| 0 <= j < k && FlushedTag(effects[j], effects[k]) {
      var batch := effects[j].batch;
      var t :| 0 <= t < |batch| && Tags(batch)[t] == effects[k].tag;
      var p, q := FlushedContains(effects, j, EVERY);
      assert batch[t] in Flushed(effects, EVERY) + buffer;
      p, q := FlushedContains(effects[..k], j, {Ack});
      RowsAreWithin(p, batch, q, t);
    }
  }

  lemma RowsAreWithin(p: seq<Delivery>, batch: seq<Delivery>, q: seq<Delivery>, t: nat)
    requires t < |batch|
    ensures Within(MessageRows(batch[t].message), RowsOf(p + batch + q))
  {
    var before, after := p + batch[..t], batch[t + 1..] + q;
    assert p + batch + q == before + [batch[t]] + after;
    RowsOfAppend(before + [batch[t]], after);
    RowsOfAppend(before, [batch[t]]);
    assert RowsOf([batch[t]]) == MessageRows(batch[t].message);
    assert RowsOf(p + batch + q) == RowsOf(before) + MessageRows(batch[t].message) + RowsOf(after);
  }
}
