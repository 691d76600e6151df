/** What the columns of a trace's row say, counter by counter and span by span. */
module StatisticsMeaning {
  import opened Common
  import opened TraceStatistics

  // ---- the counters ------------------------------------------------------------------

  /** The sum of one counter over some spans. */
  function Sum(xs: seq<Sample>, counter: Sample -> int): int {
    if xs == [] then 0 else counter(xs[0]) + Sum(xs[1..], counter)
  }

  function InputTokens(x: Sample): int { x.usage.input }

  function OutputTokens(x: Sample): int { x.usage.output }

  function TotalTokens(x: Sample): int { x.usage.total }

  function CacheReadTokens(x: Sample): int { x.usage.cacheRead }

  function CacheCreationTokens(x: Sample): int { x.usage.cacheCreation }

  function ReasoningTokens(x: Sample): int { x.usage.reasoning }

  lemma {:induction false} SumSnoc(xs: seq<Sample>, x: Sample, counter: Sample -> int)
    ensures Sum(xs + [x], counter) == Sum(xs, counter) + counter(x)
  {
    if xs == [] {
      assert [] + [x] == [x] && [x][1..] == [];
    } else {
      SumSnoc(xs[1..], x, counter);
      assert (xs + [x])[1..] == xs[1..] + [x];
    }
  }

  /** Each counter is the sum of that counter over the spans. */
  ghost predicate IsSum(u: Usage, xs: seq<Sample>) {
    && u.input == Sum(xs, InputTokens) && u.output == Sum(xs, OutputTokens) && u.total == Sum(xs, TotalTokens)
    && u.cacheRead == Sum(xs, CacheReadTokens) && u.cacheCreation == Sum(xs, CacheCreationTokens)
    && u.reasoning == Sum(xs, ReasoningTokens)
  }

  lemma {:induction false} TotalsAreSums(xs: seq<Sample>)
    ensures IsSum(Totals(xs), xs)
  {
    if xs != [] {
      var init, last := xs[..|xs| - 1], xs[|xs| - 1];
      TotalsAreSums(init);
      SumSnoc(init, last, InputTokens);
      SumSnoc(init, last, OutputTokens);
      SumSnoc(init, last, TotalTokens);
      SumSnoc(init, last, CacheReadTokens);
      SumSnoc(init, last, CacheCreationTokens);
      SumSnoc(init, last, ReasoningTokens);
      assert init + [last] == xs;
    }
  }

  // ---- the top span -------------------------------------------------------------------

  /** The last of the spans without a parent, if there is one. */
  ghost predicate IsLastRoot(id: Option<Id>, xs: seq<Sample>) {
    match id
    case None => forall i :: 0 <= i < |xs| ==> xs[i].span.parent.Some?
    case Some(root) => exists i :: 0 <= i < |xs| && RootAt(xs, i, root)
  }

  ghost predicate RootAt(xs: seq<Sample>, i: nat, root: Id)
    requires i < |xs|
  {
    && xs[i].span.parent.None? && xs[i].span.spanId == root
    && forall j :: i < j < |xs| ==> xs[j].span.parent.Some?
  }

  lemma {:induction false} LastRootIsLast(xs: seq<Sample>)
    ensures IsLastRoot(LastRoot(xs), xs)
  {
    if xs != [] {
      var init := xs[..|xs| - 1];
      LastRootIsLast(init);
      if xs[|xs| - 1].span.parent.None? {
        assert RootAt(xs, |xs| - 1, xs[|xs| - 1].span.spanId);
      } else if LastRoot(init).Some? {
        var i :| 0 <= i < |init| && RootAt(init, i, LastRoot(init).value);
        assert RootAt(xs, i, LastRoot(init).value);
      }
    }
  }

  // ---- the whole row ------------------------------------------------------------------

  /** A row of the table, read off the spans ingested for it. */
  ghost predicate Reports(s: Statistics, xs: seq<Sample>, patches: nat) {
    && IsEarliest(s.startTime, xs) && IsLatest(s.endTime, xs)
    && IsSum(s.usage, xs) && IsLastRoot(s.topSpanId, xs)
    && (s.status == Some("error") <==> exists x :: x in xs && x.span.status == Some("error"))
    && (forall tag :: tag in s.tags <==> exists x :: x in xs && tag in x.span.tags)
    && (forall name :: name in s.spanNames <==> exists x :: x in xs && x.span.name == name)
    && s.numSpans == |xs| + patches
  }

  /** In every interleaving of upserts and patches, each column of a row is what its spans add up to. */
  lemma RowReportsItsSpans(ops: seq<Op>, key: Key)
    requires AllValid(ops) && key in Run(ops)
    ensures Reports(Run(ops)[key], Ingested(ops, key), Patches(ops, key))
  {
    var xs := Ingested(ops, key);
    RowDescribesIngested(ops, key);
    DescribedIsReported(Run(ops)[key], xs, Patches(ops, key));
  }

  lemma DescribedIsReported(s: Statistics, xs: seq<Sample>, patches: nat)
    requires Describes(s, xs, patches)
    ensures Reports(s, xs, patches)
  {
    TotalsAreSums(xs);
    LastRootIsLast(xs);
  }

  // ---- the status text ------------------------------------------------------------------

  predicate NoStatus(x: Sample) { x.span.status == None || x.span.status == Some("") }

  /** The status of the first span that has one. */
  ghost predicate IsFirstStatus(status: Option<string>, xs: seq<Sample>) {
    match status
    case None => forall x :: x in xs ==> NoStatus(x)
    case Some(text) => text != "" && exists i :: 0 <= i < |xs| && StatusAt(xs, i, text)
  }

  ghost predicate StatusAt(xs: seq<Sample>, i: nat, text: string)
    requires i < |xs|
  {
    xs[i].span.status == Some(text) && forall j :: 0 <= j < i ==> NoStatus(xs[j])
  }

  /** Within one flush the first status wins, unless a span failed. */
  lemma {:induction false} AggregateHasFirstStatus(xs: seq<Sample>)
    requires !Failed(xs)
    ensures IsFirstStatus(StatsOf(xs).status, xs)
  {
    if xs != [] {
      var init, last := xs[..|xs| - 1], xs[|xs| - 1];
      assert last in xs && forall x :: x in xs <==> x in init || x == last;
      AggregateHasFirstStatus(init);
      if StatsOf(init).status.Some? {
        var text := StatsOf(init).status.value;
        var i :| 0 <= i < |init| && StatusAt(init, i, text);
        assert StatusAt(xs, i, text);
        assert StatsOf(xs).status == StatsOf(init).status;
      } else if !NoStatus(last) {
        assert forall j :: 0 <= j < |init| ==> init[j] in init;
        assert StatusAt(xs, |init|, last.span.status.value);
      }
    }
  }

  predicate UpsertOf(op: Op, key: Key) { op.Upsert? && op.KeyOf() == key }

  /** The status of the last flush that had one. */
  ghost predicate IsLatestStatus(status: Option<string>, ops: seq<Op>, key: Key) {
    match status
    case None => forall op :: op in ops && UpsertOf(op, key) ==> StatsOf(op.xs).status.None?
    case Some(text) => exists i :: 0 <= i < |ops| && FlushedStatusAt(ops, i, key, text)
  }

  ghost predicate FlushedStatusAt(ops: seq<Op>, i: nat, key: Key, text: string)
    requires i < |ops|
  {
    && UpsertOf(ops[i], key) && StatsOf(ops[i].xs).status == Some(text)
    && forall j :: i < j < |ops| && UpsertOf(ops[j], key) ==> StatsOf(ops[j].xs).status.None?
  }

  function StatusIn(rows: Rows, key: Key): Option<string> {
    if key in rows then rows[key].status else None
  }

  /** Across flushes the latest status wins, unless a span failed. */
  lemma {:induction false} RowHasLatestStatus(ops: seq<Op>, key: Key)
    requires AllValid(ops) && !Failed(Ingested(ops, key))
    ensures IsLatestStatus(StatusIn(Run(ops), key), ops, key)
  {
    if ops != [] {
      var init, last := ops[..|ops| - 1], ops[|ops| - 1];
      assert last in ops && ops == init + [last];
      assert forall x :: x in Ingested(ops, key) <==> x in Ingested(init, key) || x in IngestedBy(last, key);
      RowHasLatestStatus(init, key);
      RowDescribesIngested(init, key);
      StatusAfter(Run(init), last, key);
      LatestStatusNext(init, last, key, StatusIn(Run(init), key));
    }
  }

  /** The status a flush brings for the key, else the one there was. */
  function NextStatus(op: Op, key: Key, before: Option<string>): Option<string> {
    if UpsertOf(op, key) && StatsOf(op.xs).status.Some? then StatsOf(op.xs).status else before
  }

  lemma StatusAfter(rows: Rows, op: Op, key: Key)
    requires op.Valid() && !Failed(IngestedBy(op, key)) && StatusIn(rows, key) != Some(ERROR)
    ensures StatusIn(Apply(rows, op), key) == NextStatus(op, key, StatusIn(rows, key))
  {
    if UpsertOf(op, key) {
      StatsDescribe(op.xs);
    }
  }

  lemma LatestStatusNext(init: seq<Op>, last: Op, key: Key, before: Option<string>)
    requires IsLatestStatus(before, init, key)
    ensures IsLatestStatus(NextStatus(last, key, before), init + [last], key)
  {
    var ops := init + [last];
    if UpsertOf(last, key) && StatsOf(last.xs).status.Some? {
      assert FlushedStatusAt(ops, |init|, key, StatsOf(last.xs).status.value);
    } else if before.Some? {
      var i :| 0 <= i < |init| && FlushedStatusAt(init, i, key, before.value);
      assert FlushedStatusAt(ops, i, key, before.value);
    }
  }

  // ---- which spans are whose -----------------------------------------------------------------

  lemma {:induction false} SamplesOfAppend(a: seq<Sample>, b: seq<Sample>, trace: Id)
    ensures SamplesOf(a + b, trace) == SamplesOf(a, trace) + SamplesOf(b, trace)
  {
    if b == [] {
      assert a + b == a;
    } else {
      var init, last := b[..|b| - 1], b[|b| - 1];
      SamplesOfAppend(a, init, trace);
      LastOfAppend(a, b);
      SamplesGrow(a + init, last, trace);
      Associate(SamplesOf(a, trace), SamplesOf(init, trace), if last.span.traceId == trace then [last] else []);
    }
  }

  /** A flush's spans keep their order and their own usage: each is found once, at its place among its trace's spans. */
  lemma SpanKeepsItsPlace(spans: seq<Span>, usages: seq<Usage>, i: nat)
    requires i < |spans| == |usages|
    ensures var xs, trace := Zip(spans, usages), spans[i].traceId;
      SamplesOf(xs, trace) ==
        SamplesOf(xs[..i], trace) + [Sample(spans[i], usages[i])] + SamplesOf(xs[i + 1..], trace)
  {
    var xs, trace := Zip(spans, usages), spans[i].traceId;
    TakeOneMore(xs, i);
    SamplesOfAppend(xs[..i + 1], xs[i + 1..], trace);
    SamplesGrow(xs[..i], xs[i], trace);
  }
}
