/**
  Trace statistics: spans are aggregated per trace within a flush, the
  aggregates are merged into one row per trace, and every row returned is
  shipped with `num_spans` as its version.
 */
module TraceStatistics {
  import opened Common

  type Id = nat

  datatype Span = Span(
    traceId: Id, projectId: Id, spanId: Id, parent: Option<Id>,
    start: int, end: int, name: string, status: Option<string>, tags: seq<string>)

  /** The integer token counters, of a span or summed. */
  datatype Usage = Usage(input: int, output: int, total: int, cacheRead: int, cacheCreation: int, reasoning: int) {
    function Plus(u: Usage): Usage {
      Usage(input + u.input, output + u.output, total + u.total,
            cacheRead + u.cacheRead, cacheCreation + u.cacheCreation, reasoning + u.reasoning)
    }
  }

  const NO_USAGE := Usage(0, 0, 0, 0, 0, 0)

  datatype Sample = Sample(span: Span, usage: Usage)

  /** The modelled columns, of an aggregate or of a row. */
  datatype Statistics = Statistics(
    startTime: Option<int>, endTime: Option<int>, usage: Usage, status: Option<string>,
    tags: set<string>, spanNames: set<string>, topSpanId: Option<Id>, numSpans: nat)

  datatype Aggregation = Aggregation(traceId: Id, projectId: Id, stats: Statistics)

  datatype Key = Key(project: Id, trace: Id)

  const ERROR := "error"

  const BLANK := Statistics(None, None, NO_USAGE, None, {}, {}, None, 0)

  // ---- aggregating one trace of a flush ----------------------------------------------

  function Least(a: Option<int>, b: Option<int>): Option<int> {
    if a.None? then b else if b.None? then a else Some(Min(a.value, b.value))
  }

  function Greatest(a: Option<int>, b: Option<int>): Option<int> {
    if a.None? then b else if b.None? then a else Some(Max(a.value, b.value))
  }

  function AbsorbStatus(status: Option<string>, ofSpan: Option<string>): Option<string> {
    match ofSpan
    case None => status
    case Some(s) =>
      if s == ERROR then Some(ERROR)
      else if status.None? && s != "" then ofSpan
      else status
  }

  function Elements(s: seq<string>): set<string> {
    set x | x in s
  }

  function Absorb(a: Statistics, x: Sample): Statistics {
    Statistics(
      Least(a.startTime, Some(x.span.start)),
      Greatest(a.endTime, Some(x.span.end)),
      a.usage.Plus(x.usage),
      AbsorbStatus(a.status, x.span.status),
      a.tags + Elements(x.span.tags),
      a.spanNames + {x.span.name},
      if x.span.parent.None? then Some(x.span.spanId) else a.topSpanId,
      a.numSpans + 1)
  }

  function StatsOf(xs: seq<Sample>): Statistics {
    if xs == [] then BLANK else Absorb(StatsOf(xs[..|xs| - 1]), xs[|xs| - 1])
  }

  function SamplesOf(xs: seq<Sample>, trace: Id): seq<Sample> {
    if xs == [] then []
    else
      var last := xs[|xs| - 1];
      SamplesOf(xs[..|xs| - 1], trace) + (if last.span.traceId == trace then [last] else [])
  }

  /** The trace's first span in the batch decides its project. */
  function AggregationOf(xs: seq<Sample>): Aggregation
    requires xs != []
  {
    Aggregation(xs[0].span.traceId, xs[0].span.projectId, StatsOf(xs))
  }

  function Zip(spans: seq<Span>, usages: seq<Usage>): seq<Sample> {
    seq(Min(|spans|, |usages|), i requires 0 <= i < Min(|spans|, |usages|) => Sample(spans[i], usages[i]))
  }

  lemma {:induction false} SamplesOfTrace(xs: seq<Sample>, trace: Id)
    ensures forall x :: x in SamplesOf(xs, trace) <==> x in xs && x.span.traceId == trace
  {
    if xs != [] {
      SamplesOfTrace(xs[..|xs| - 1], trace);
      assert xs == xs[..|xs| - 1] + [xs[|xs| - 1]];
    }
  }

  /** The entries are the aggregates of the samples so far, one per trace. */
  ghost predicate Aggregated(entries: map<Id, Aggregation>, xs: seq<Sample>) {
    && (forall t :: t in entries <==> SamplesOf(xs, t) != [])
    && (forall t :: t in entries ==> entries[t] == AggregationOf(SamplesOf(xs, t)))
  }

  /** `TraceAggregation::from_spans`: one aggregate per trace, in no particular order. */
  method FromSpans(spans: seq<Span>, usages: seq<Usage>) returns (out: seq<Aggregation>)
    ensures Distinct(TracesOf(out))
    ensures forall a :: a in out ==>
      SamplesOf(Zip(spans, usages), a.traceId) != [] && a == AggregationOf(SamplesOf(Zip(spans, usages), a.traceId))
    ensures forall t :: t in TracesOf(out) <==> SamplesOf(Zip(spans, usages), t) != []
  {
    var samples := Zip(spans, usages);
    var entries: map<Id, Aggregation> := map[];
    for i := 0 to |samples|
      invariant Aggregated(entries, samples[..i])
    {
      var x := samples[i];
      var trace := x.span.traceId;
      var entry := if trace in entries then entries[trace] else Aggregation(trace, x.span.projectId, BLANK);
      entry := AddSample(entry, x);
      OneMoreAggregated(entries, samples[..i], x);
      assert samples[..i + 1] == samples[..i] + [x];
      entries := entries[trace := entry];
    }
    assert samples[..|samples|] == samples;
    SamplesHaveTheirTrace(samples);
    out := IntoValues(entries);
  }

  method AddSample(entry: Aggregation, x: Sample) returns (r: Aggregation)
    ensures r == entry.(stats := Absorb(entry.stats, x))
  {
    var s := entry.stats;
    var start := match s.startTime case Some(existing) => Min(existing, x.span.start) case None => x.span.start;
    s := s.(startTime := Some(start));
    var end := match s.endTime case Some(existing) => Max(existing, x.span.end) case None => x.span.end;
    s := s.(endTime := Some(end));
    s := s.(usage := s.usage.Plus(x.usage));
    if x.span.status.Some? {
      if x.span.status.value == ERROR {
        s := s.(status := Some(ERROR));
      } else if s.status.None? && x.span.status.value != "" {
        s := s.(status := x.span.status);
      }
    }
    if x.span.parent.None? {
      s := s.(topSpanId := Some(x.span.spanId));
    }
    s := s.(tags := s.tags + Elements(x.span.tags), spanNames := s.spanNames + {x.span.name});
    s := s.(numSpans := s.numSpans + 1);
    r := entry.(stats := s);
  }

  lemma SamplesGrow(xs: seq<Sample>, x: Sample, t: Id)
    ensures SamplesOf(xs + [x], t) == SamplesOf(xs, t) + (if x.span.traceId == t then [x] else [])
  {
    assert (xs + [x])[..|xs|] == xs;
  }

  lemma AggregationGrows(own: seq<Sample>, x: Sample)
    ensures own == [] ==> AggregationOf([x]) == Aggregation(x.span.traceId, x.span.projectId, Absorb(BLANK, x))
    ensures own != [] ==> AggregationOf(own + [x]) == AggregationOf(own).(stats := Absorb(StatsOf(own), x))
  {
    assert (own + [x])[..|own|] == own;
    assert [x][..0] == [] && StatsOf([]) == BLANK;
  }

  lemma OneMoreAggregated(entries: map<Id, Aggregation>, xs: seq<Sample>, x: Sample)
    requires Aggregated(entries, xs)
    ensures var t := x.span.traceId;
      var entry := if t in entries then entries[t] else Aggregation(t, x.span.projectId, BLANK);
      Aggregated(entries[t := entry.(stats := Absorb(entry.stats, x))], xs + [x])
  {
    var trace := x.span.traceId;
    var own := SamplesOf(xs, trace);
    SamplesGrow(xs, x, trace);
    AggregationGrows(own, x);
    assert own == [] ==> own + [x] == [x];
    forall t | t != trace
      ensures SamplesOf(xs + [x], t) == SamplesOf(xs, t)
    {
      SamplesGrow(xs, x, t);
    }
  }

  lemma SamplesHaveTheirTrace(xs: seq<Sample>)
    ensures forall t :: SamplesOf(xs, t) != [] ==> AggregationOf(SamplesOf(xs, t)).traceId == t
  {
    forall t | SamplesOf(xs, t) != []
      ensures AggregationOf(SamplesOf(xs, t)).traceId == t
    {
      SamplesOfTrace(xs, t);
      assert SamplesOf(xs, t)[0] in SamplesOf(xs, t);
    }
  }

  function TracesOf(out: seq<Aggregation>): seq<Id> {
    seq(|out|, i requires 0 <= i < |out| => out[i].traceId)
  }

  method IntoValues(entries: map<Id, Aggregation>) returns (out: seq<Aggregation>)
    requires forall t :: t in entries ==> entries[t].traceId == t
    ensures Distinct(TracesOf(out))
    ensures forall t :: t in entries <==> t in TracesOf(out)
    ensures forall a :: a in out ==> a.traceId in entries && entries[a.traceId] == a
  {
    out := [];
    var rest := entries.Keys;
    while rest != {}
      invariant rest <= entries.Keys
      invariant forall t :: t in TracesOf(out) <==> t in entries.Keys - rest
      invariant Distinct(TracesOf(out))
      invariant forall a :: a in out ==> a.traceId in entries && entries[a.traceId] == a
      decreases |rest|
    {
      var t :| t in rest;
      assert TracesOf(out + [entries[t]]) == TracesOf(out) + [t];
      out := out + [entries[t]];
      rest := rest - {t};
    }
  }

  // ---- merging into the trace's row ----------------------------------------------------

  /** The `ON CONFLICT` clause. */
  function Merge(row: Statistics, excluded: Statistics): Statistics {
    Statistics(
      Least(row.startTime, excluded.startTime),
      Greatest(row.endTime, excluded.endTime),
      row.usage.Plus(excluded.usage),
      if row.status == Some(ERROR) || excluded.status == Some(ERROR) then Some(ERROR)
      else if excluded.status.Some? then excluded.status
      else row.status,
      row.tags + excluded.tags,
      row.spanNames + excluded.spanNames,
      if excluded.topSpanId.Some? then excluded.topSpanId else row.topSpanId,
      row.numSpans + excluded.numSpans)
  }

  type Rows = map<Key, Statistics>

  function Upserted(rows: Rows, a: Aggregation): Rows {
    var key := Key(a.projectId, a.traceId);
    rows[key := if key in rows then Merge(rows[key], a.stats) else a.stats]
  }

  function Patched(rows: Rows, key: Key): Rows {
    if key in rows then rows[key := rows[key].(numSpans := rows[key].numSpans + 1)] else rows
  }

  /** The spans of one trace in one flush, merged into its row; or a metadata patch. */
  datatype Op = Upsert(xs: seq<Sample>) | Patch(key: Key) {
    ghost predicate Valid() { Upsert? ==> xs != [] }

    function KeyOf(): Key {
      match this
      case Patch(key) => key
      case Upsert(xs) => if xs == [] then Key(0, 0) else Key(xs[0].span.projectId, xs[0].span.traceId)
    }
  }

  ghost predicate AllValid(ops: seq<Op>) { forall op :: op in ops ==> op.Valid() }

  function Apply(rows: Rows, op: Op): Rows
    requires op.Valid()
  {
    match op
    case Upsert(xs) => Upserted(rows, AggregationOf(xs))
    case Patch(key) => Patched(rows, key)
  }

  /** The table after any interleaving of upserts and patches, by any number of workers. */
  function Run(ops: seq<Op>): Rows
    requires AllValid(ops)
  {
    if ops == [] then map[] else Apply(Run(ops[..|ops| - 1]), ops[|ops| - 1])
  }

  /** Everything upserted under a key, in order. */
  function Ingested(ops: seq<Op>, key: Key): seq<Sample> {
    if ops == [] then []
    else
      var init, last := ops[..|ops| - 1], ops[|ops| - 1];
      Ingested(init, key) + IngestedBy(last, key)
  }

  function IngestedBy(op: Op, key: Key): seq<Sample> {
    if op.Upsert? && op.KeyOf() == key then op.xs else []
  }

  /** The patches of a key that found a row. */
  function Patches(ops: seq<Op>, key: Key): nat {
    if ops == [] then 0
    else
      var init, last := ops[..|ops| - 1], ops[|ops| - 1];
      Patches(init, key) + (if last == Patch(key) && Ingested(init, key) != [] then 1 else 0)
  }

  // ---- what a row says about its spans ---------------------------------------------------

  ghost predicate IsEarliest(t: Option<int>, xs: seq<Sample>) {
    && (t.Some? <==> xs != [])
    && (t.Some? ==> (exists x :: x in xs && x.span.start == t.value) && forall x :: x in xs ==> t.value <= x.span.start)
  }

  ghost predicate IsLatest(t: Option<int>, xs: seq<Sample>) {
    && (t.Some? <==> xs != [])
    && (t.Some? ==> (exists x :: x in xs && x.span.end == t.value) && forall x :: x in xs ==> x.span.end <= t.value)
  }

  function Totals(xs: seq<Sample>): Usage {
    if xs == [] then NO_USAGE else Totals(xs[..|xs| - 1]).Plus(xs[|xs| - 1].usage)
  }

  ghost predicate Failed(xs: seq<Sample>) {
    exists x :: x in xs && x.span.status == Some(ERROR)
  }

  function TagsOf(xs: seq<Sample>): set<string> {
    set x, tag | x in xs && tag in x.span.tags :: tag
  }

  function NamesOf(xs: seq<Sample>): set<string> {
    set x | x in xs :: x.span.name
  }

  function LastRoot(xs: seq<Sample>): Option<Id> {
    if xs == [] then None
    else if xs[|xs| - 1].span.parent.None? then Some(xs[|xs| - 1].span.spanId)
    else LastRoot(xs[..|xs| - 1])
  }

  ghost predicate DescribesTimes(s: Statistics, xs: seq<Sample>) {
    IsEarliest(s.startTime, xs) && IsLatest(s.endTime, xs)
  }

  ghost predicate DescribesContents(s: Statistics, xs: seq<Sample>) {
    (s.status == Some(ERROR) <==> Failed(xs)) && s.tags == TagsOf(xs) && s.spanNames == NamesOf(xs)
  }

  /** The statistics of some spans, with so many patches applied on top. */
  ghost predicate Describes(s: Statistics, xs: seq<Sample>, patches: nat) {
    && DescribesTimes(s, xs)
    && DescribesContents(s, xs)
    && s.usage == Totals(xs)
    && s.topSpanId == LastRoot(xs)
    && s.numSpans == |xs| + patches
  }

  lemma {:induction false} TotalsAdd(a: seq<Sample>, b: seq<Sample>)
    ensures Totals(a + b) == Totals(a).Plus(Totals(b))
  {
    if b == [] {
      assert a + b == a;
    } else {
      var init, last := b[..|b| - 1], b[|b| - 1];
      TotalsAdd(a, init);
      TotalsGrow(a + init, last);
      assert a + b == a + init + [last];
      PlusAssociates(Totals(a), Totals(init), last.usage);
    }
  }

  lemma TotalsGrow(xs: seq<Sample>, x: Sample)
    ensures Totals(xs + [x]) == Totals(xs).Plus(x.usage)
  {
    assert (xs + [x])[..|xs|] == xs;
  }

  lemma PlusAssociates(a: Usage, b: Usage, c: Usage)
    ensures a.Plus(b).Plus(c) == a.Plus(b.Plus(c))
  {
  }

  lemma {:induction false} LastRootOfAppend(a: seq<Sample>, b: seq<Sample>)
    ensures LastRoot(a + b) == if LastRoot(b).Some? then LastRoot(b) else LastRoot(a)
  {
    if b == [] {
      assert a + b == a;
    } else {
      LastRootOfAppend(a, b[..|b| - 1]);
      assert (a + b)[..|a + b| - 1] == a + b[..|b| - 1];
    }
  }

  lemma ContentsOfMerge(s: Statistics, t: Statistics, a: seq<Sample>, b: seq<Sample>)
    requires DescribesContents(s, a) && DescribesContents(t, b)
    ensures DescribesContents(Merge(s, t), a + b)
  {
    assert forall x :: x in a + b <==> x in a || x in b;
    assert Failed(a + b) <==> Failed(a) || Failed(b);
    assert TagsOf(a + b) == TagsOf(a) + TagsOf(b);
    assert NamesOf(a + b) == NamesOf(a) + NamesOf(b);
  }

  lemma EarliestOfAppend(s: Option<int>, t: Option<int>, a: seq<Sample>, b: seq<Sample>)
    requires IsEarliest(s, a) && IsEarliest(t, b)
    ensures IsEarliest(Least(s, t), a + b)
  {
    assert forall x :: x in a + b <==> x in a || x in b;
  }

  lemma LatestOfAppend(s: Option<int>, t: Option<int>, a: seq<Sample>, b: seq<Sample>)
    requires IsLatest(s, a) && IsLatest(t, b)
    ensures IsLatest(Greatest(s, t), a + b)
  {
    assert forall x :: x in a + b <==> x in a || x in b;
  }

  lemma TimesOfMerge(s: Statistics, t: Statistics, a: seq<Sample>, b: seq<Sample>)
    requires DescribesTimes(s, a) && DescribesTimes(t, b)
    ensures DescribesTimes(Merge(s, t), a + b)
  {
    EarliestOfAppend(s.startTime, t.startTime, a, b);
    LatestOfAppend(s.endTime, t.endTime, a, b);
  }

  /** Merging two rows describes the spans of both. */
  lemma MergeDescribesBoth(s: Statistics, t: Statistics, a: seq<Sample>, b: seq<Sample>, patches: nat)
    requires Describes(s, a, patches) && Describes(t, b, 0)
    ensures Describes(Merge(s, t), a + b, patches)
  {
    TimesOfMerge(s, t, a, b);
    ContentsOfMerge(s, t, a, b);
    TotalsAdd(a, b);
    LastRootOfAppend(a, b);
  }

  lemma SingleDescribed(x: Sample)
    ensures Describes(Absorb(BLANK, x), [x], 0)
  {
    assert [x][..0] == [];
    assert x in [x];
    assert TagsOf([x]) == {} + Elements(x.span.tags) && NamesOf([x]) == {} + {x.span.name};
    assert Totals([]) == NO_USAGE && Totals([x]) == NO_USAGE.Plus(x.usage);
    assert LastRoot([]) == None;
  }

  /** Absorbing a span is merging in the statistics of that span alone, status text aside. */
  lemma AbsorbIsMerge(a: Statistics, x: Sample)
    ensures Absorb(a, x) == Merge(a, Absorb(BLANK, x)).(status := AbsorbStatus(a.status, x.span.status))
    ensures AbsorbStatus(a.status, x.span.status) == Some(ERROR) <==> Merge(a, Absorb(BLANK, x)).status == Some(ERROR)
  {
  }

  lemma AbsorbDescribes(a: Statistics, xs: seq<Sample>, x: Sample)
    requires Describes(a, xs, 0)
    ensures Describes(Absorb(a, x), xs + [x], 0)
  {
    var merged := Merge(a, Absorb(BLANK, x));
    SingleDescribed(x);
    MergeDescribesBoth(a, Absorb(BLANK, x), xs, [x], 0);
    AbsorbIsMerge(a, x);
    SameUpToStatus(merged, Absorb(a, x), xs + [x]);
  }

  lemma SameUpToStatus(s: Statistics, t: Statistics, xs: seq<Sample>)
    requires Describes(s, xs, 0) && t == s.(status := t.status)
    requires s.status == Some(ERROR) <==> t.status == Some(ERROR)
    ensures Describes(t, xs, 0)
  {
  }

  lemma {:induction false} StatsDescribe(xs: seq<Sample>)
    ensures Describes(StatsOf(xs), xs, 0)
  {
    if xs != [] {
      var init, last := xs[..|xs| - 1], xs[|xs| - 1];
      StatsDescribe(init);
      AbsorbDescribes(StatsOf(init), init, last);
      assert init + [last] == xs;
    }
  }

  /** The table's row for `key`, if any, describes the given spans. */
  ghost predicate RowIsRight(rows: Rows, key: Key, xs: seq<Sample>, patches: nat) {
    && (key in rows <==> xs != [])
    && (key in rows ==> Describes(rows[key], xs, patches))
    && (key !in rows ==> patches == 0)
  }

  lemma UpsertKeepsRowRight(rows: Rows, ys: seq<Sample>, key: Key, xs: seq<Sample>, patches: nat)
    requires ys != [] && RowIsRight(rows, key, xs, patches)
    ensures var more := if Upsert(ys).KeyOf() == key then xs + ys else xs;
      RowIsRight(Upserted(rows, AggregationOf(ys)), key, more, patches)
  {
    if Upsert(ys).KeyOf() == key {
      StatsDescribe(ys);
      if key in rows {
        MergeDescribesBoth(rows[key], StatsOf(ys), xs, ys, patches);
      } else {
        assert xs + ys == ys;
      }
    }
  }

  lemma PatchKeepsRowRight(rows: Rows, patched: Key, key: Key, xs: seq<Sample>, patches: nat)
    requires RowIsRight(rows, key, xs, patches)
    ensures RowIsRight(Patched(rows, patched), key, xs, if patched == key && xs != [] then patches + 1 else patches)
  {
    if patched == key && key in rows {
      PatchDescribes(rows[key], xs, patches);
    }
  }

  /** The row of a trace describes exactly the spans ingested for it, whatever else ran in between. */
  lemma {:induction false} RowDescribesIngested(ops: seq<Op>, key: Key)
    requires AllValid(ops)
    ensures RowIsRight(Run(ops), key, Ingested(ops, key), Patches(ops, key))
  {
    if ops != [] {
      var init, last := ops[..|ops| - 1], ops[|ops| - 1];
      RowDescribesIngested(init, key);
      assert last in ops;
      match last
      case Upsert(ys) =>
        UpsertKeepsRowRight(Run(init), ys, key, Ingested(init, key), Patches(init, key));
        assert Ingested(init, key) + [] == Ingested(init, key);
      case Patch(patched) =>
        PatchKeepsRowRight(Run(init), patched, key, Ingested(init, key), Patches(init, key));
        assert Ingested(init, key) + [] == Ingested(init, key);
    }
  }

  lemma PatchDescribes(s: Statistics, xs: seq<Sample>, patches: nat)
    requires Describes(s, xs, patches)
    ensures Describes(s.(numSpans := s.numSpans + 1), xs, patches + 1)
  {
  }

  // ---- batch-split invariance ---------------------------------------------------------------

  /** The part of a row that does not depend on the order its spans came in. */
  ghost predicate Agree(s: Statistics, t: Statistics) {
    && s.startTime == t.startTime && s.endTime == t.endTime
    && s.usage == t.usage
    && (s.status == Some(ERROR) <==> t.status == Some(ERROR))
    && s.tags == t.tags && s.spanNames == t.spanNames
  }

  lemma {:induction false} TotalsOfPermutation(xs: seq<Sample>, ys: seq<Sample>)
    requires multiset(xs) == multiset(ys)
    ensures Totals(xs) == Totals(ys)
  {
    if xs == [] {
      assert |ys| == |multiset(ys)| == 0;
    } else {
      var init, last := xs[..|xs| - 1], xs[|xs| - 1];
      assert xs == init + [last];
      var before, after := AroundLast(init, last, ys);
      TotalsOfPermutation(init, before + after);
      TotalsWith(before, last, after);
    }
  }

  lemma TotalsWith(before: seq<Sample>, x: Sample, after: seq<Sample>)
    ensures Totals(before + [x] + after) == Totals(before + after).Plus(x.usage)
  {
    TotalsAdd(before, after);
    TotalsAdd(before + [x], after);
    assert (before + [x])[..|before|] == before;
  }

  lemma SameSpansSameStatistics(s: Statistics, t: Statistics, xs: seq<Sample>, ys: seq<Sample>, p: nat, q: nat)
    requires Describes(s, xs, p) && Describes(t, ys, q) && multiset(xs) == multiset(ys)
    ensures Agree(s, t) && s.numSpans - p == t.numSpans - q
  {
    TotalsOfPermutation(xs, ys);
    assert |xs| == |multiset(xs)| == |multiset(ys)| == |ys|;
    forall x
      ensures x in xs <==> x in ys
    {
      assert x in xs <==> x in multiset(xs);
      assert x in ys <==> x in multiset(ys);
    }
    assert Failed(xs) <==> Failed(ys);
    assert TagsOf(xs) == TagsOf(ys) && NamesOf(xs) == NamesOf(ys);
  }

  /**
    However the spans of a trace are split into flushes and in whatever order
    those are upserted, patches and other traces in between or not, the row
    agrees with aggregating all spans at once.
   */
  lemma BatchSplitInvariance(ops: seq<Op>, key: Key, all: seq<Sample>)
    requires AllValid(ops) && all != [] && multiset(Ingested(ops, key)) == multiset(all)
    ensures key in Run(ops)
    ensures Agree(Run(ops)[key], StatsOf(all))
    ensures Run(ops)[key].numSpans == |all| + Patches(ops, key)
    ensures Ingested(ops, key) == all ==> Run(ops)[key].topSpanId == LastRoot(all)
  {
    assert all[0] in multiset(all);
    RowDescribesIngested(ops, key);
    StatsDescribe(all);
    SameSpansSameStatistics(Run(ops)[key], StatsOf(all), Ingested(ops, key), all, Patches(ops, key), 0);
  }

  // ---- versions -------------------------------------------------------------------------------

  /** Every row an operation returned for `key`, in order. */
  function Returned(ops: seq<Op>, key: Key): seq<Statistics>
    requires AllValid(ops)
  {
    if ops == [] then []
    else
      var init, last := ops[..|ops| - 1], ops[|ops| - 1];
      Returned(init, key) + (if last.KeyOf() == key && key in Run(ops) then [Run(ops)[key]] else [])
  }

  ghost predicate StrictlyIncreasing(rows: seq<Statistics>) {
    forall i, j :: 0 <= i < j < |rows| ==> rows[i].numSpans < rows[j].numSpans
  }

  lemma OpRaisesVersion(rows: Rows, op: Op, key: Key)
    requires op.Valid()
    ensures key in rows ==> key in Apply(rows, op)
    ensures op.KeyOf() != key ==> (key in Apply(rows, op) <==> key in rows)
    ensures key in rows && op.KeyOf() != key ==> Apply(rows, op)[key] == rows[key]
    ensures key in rows && op.KeyOf() == key ==> Apply(rows, op)[key].numSpans > rows[key].numSpans
  {
    if op.Upsert? {
      StatsDescribe(op.xs);
    }
  }

  /** The version rises with every row returned, and the last one is the state of the table. */
  lemma {:induction false} VersionsStrictlyIncrease(ops: seq<Op>, key: Key)
    requires AllValid(ops)
    ensures StrictlyIncreasing(Returned(ops, key))
    ensures Returned(ops, key) != [] <==> key in Run(ops)
    ensures key in Run(ops) ==> Returned(ops, key)[|Returned(ops, key)| - 1] == Run(ops)[key]
  {
    if ops != [] {
      var init, last := ops[..|ops| - 1], ops[|ops| - 1];
      VersionsStrictlyIncrease(init, key);
      assert last in ops;
      OpRaisesVersion(Run(init), last, key);
    }
  }

  /** A replacing table keyed by version keeps the latest state: no older row has a version as great. */
  lemma GreatestVersionIsCurrent(ops: seq<Op>, key: Key, row: Statistics)
    requires AllValid(ops) && row in Returned(ops, key)
    ensures key in Run(ops) && row.numSpans <= Run(ops)[key].numSpans
    ensures row.numSpans == Run(ops)[key].numSpans <==> row == Run(ops)[key]
  {
    VersionsStrictlyIncrease(ops, key);
    var rows := Returned(ops, key);
    var i :| 0 <= i < |rows| && rows[i] == row;
    assert i < |rows| - 1 ==> rows[i].numSpans < rows[|rows| - 1].numSpans;
  }

  /** The version counts the spans ingested and the patches applied. */
  lemma VersionCountsSpansAndPatches(ops: seq<Op>, key: Key)
    requires AllValid(ops) && key in Run(ops)
    ensures Run(ops)[key].numSpans == |Ingested(ops, key)| + Patches(ops, key)
  {
    RowDescribesIngested(ops, key);
  }

  /** A patch of an unknown trace creates nothing. */
  lemma PatchesAloneCreateNoRow(ops: seq<Op>, key: Key)
    requires AllValid(ops) && forall op :: op in ops && op.KeyOf() == key ==> op.Patch?
    ensures key !in Run(ops) && Returned(ops, key) == []
  {
    NothingIngested(ops, key);
    RowDescribesIngested(ops, key);
    VersionsStrictlyIncrease(ops, key);
  }

  lemma {:induction false} NothingIngested(ops: seq<Op>, key: Key)
    requires forall op :: op in ops && op.KeyOf() == key ==> op.Patch?
    ensures Ingested(ops, key) == []
  {
    if ops != [] {
      assert ops[|ops| - 1] in ops;
      NothingIngested(ops[..|ops| - 1], key);
    }
  }

  // ---- the store ---------------------------------------------------------------------------------

  /** A row handed back by the store. */
  datatype Trace = Trace(key: Key, row: Statistics)

  lemma OneMoreOp(ops: seq<Op>, op: Op)
    requires AllValid(ops) && op.Valid()
    ensures AllValid(ops + [op]) && Run(ops + [op]) == Apply(Run(ops), op)
  {
    assert (ops + [op])[..|ops|] == ops;
  }

  lemma OneMoreReturned(ops: seq<Op>, op: Op, key: Key)
    requires AllValid(ops) && op.Valid() && AllValid(ops + [op])
    ensures Returned(ops, key) <= Returned(ops + [op], key)
    ensures op.KeyOf() == key && key in Run(ops + [op]) ==> Run(ops + [op])[key] in Returned(ops + [op], key)
  {
    assert (ops + [op])[..|ops|] == ops;
  }

  /** Every trace handed back is a state its row has had. */
  ghost predicate WereReturned(ops: seq<Op>, traces: seq<Trace>)
    requires AllValid(ops)
  {
    forall t :: t in traces ==> t.row in Returned(ops, t.key)
  }

  function KeysOf(traces: seq<Trace>): seq<Key> {
    seq(|traces|, i requires 0 <= i < |traces| => traces[i].key)
  }

  /** Those of the first `n` whose key does not occur again. */
  function LatestUpTo(traces: seq<Trace>, n: nat): seq<Trace>
    requires n <= |traces|
  {
    if n == 0 then []
    else LatestUpTo(traces, n - 1) + (if traces[n - 1].key in KeysOf(traces[n..]) then [] else [traces[n - 1]])
  }

  function LatestOnly(traces: seq<Trace>): seq<Trace> {
    LatestUpTo(traces, |traces|)
  }

  ghost predicate IsLastOccurrence(traces: seq<Trace>, i: nat)
    requires i < |traces|
  {
    forall j :: i < j < |traces| ==> traces[j].key != traces[i].key
  }

  lemma OccursAgain(traces: seq<Trace>, i: nat)
    requires i < |traces|
    ensures traces[i].key in KeysOf(traces[i + 1..]) <==> !IsLastOccurrence(traces, i)
  {
    var rest := KeysOf(traces[i + 1..]);
    if traces[i].key in rest {
      var j :| 0 <= j < |rest| && rest[j] == traces[i].key;
      assert traces[i + 1 + j].key == traces[i].key;
    }
    if !IsLastOccurrence(traces, i) {
      var j :| i < j < |traces| && traces[j].key == traces[i].key;
      assert rest[j - i - 1] == traces[i].key;
    }
  }

  /** What is kept are exactly the last occurrences, each key once. */
  lemma {:induction false} LatestUpToIsExact(traces: seq<Trace>, n: nat)
    requires n <= |traces|
    ensures forall t :: t in LatestUpTo(traces, n) <==>
        exists i :: 0 <= i < n && traces[i] == t && IsLastOccurrence(traces, i)
    ensures Distinct(KeysOf(LatestUpTo(traces, n)))
  {
    if n > 0 {
      LatestUpToIsExact(traces, n - 1);
      OccursAgain(traces, n - 1);
      var init := LatestUpTo(traces, n - 1);
      if IsLastOccurrence(traces, n - 1) {
        DistinctAppend(init, traces[n - 1]);
      } else {
        assert LatestUpTo(traces, n) == init;
      }
    }
  }

  lemma DistinctAppend(traces: seq<Trace>, t: Trace)
    requires Distinct(KeysOf(traces)) && forall u :: u in traces ==> u.key != t.key
    ensures Distinct(KeysOf(traces + [t]))
  {
    OneMoreKey(traces, t);
    forall k | 0 <= k < |traces|
      ensures KeysOf(traces)[k] != t.key
    {
      assert traces[k] in traces;
    }
  }

  function Upserts(batches: seq<seq<Sample>>): seq<Op> {
    seq(|batches|, i requires 0 <= i < |batches| => Upsert(batches[i]))
  }

  function PatchOps(patches: seq<Key>): seq<Op> {
    seq(|patches|, i requires 0 <= i < |patches| => Patch(patches[i]))
  }

  function UpsertKeys(batches: seq<seq<Sample>>): seq<Key> {
    seq(|batches|, i requires 0 <= i < |batches| => Upsert(batches[i]).KeyOf())
  }

  lemma OneMoreBatch(batches: seq<seq<Sample>>, i: nat)
    requires i < |batches|
    ensures Upserts(batches[..i + 1]) == Upserts(batches[..i]) + [Upsert(batches[i])]
    ensures UpsertKeys(batches[..i + 1]) == UpsertKeys(batches[..i]) + [Upsert(batches[i]).KeyOf()]
  {
  }

  lemma OneMorePatch(patches: seq<Key>, i: nat)
    requires i < |patches|
    ensures PatchOps(patches[..i + 1]) == PatchOps(patches[..i]) + [Patch(patches[i])]
    ensures forall key :: key in patches[..i + 1] <==> key in patches[..i] || key == patches[i]
  {
  }

  lemma OneMoreKey(traces: seq<Trace>, t: Trace)
    ensures KeysOf(traces + [t]) == KeysOf(traces) + [t.key]
  {
  }

  class TraceStore {
    var rows: Rows
    /** Every statement that took effect, in the order the row locks imposed. */
    ghost var ops: seq<Op>

    ghost predicate Valid()
      reads this
    {
      AllValid(ops) && rows == Run(ops)
    }

    constructor ()
      ensures Valid() && ops == []
    {
      rows, ops := map[], [];
    }

    /** The upsert statement. */
    method UpsertOne(a: Aggregation, ghost xs: seq<Sample>) returns (t: Trace)
      requires Valid() && xs != [] && a == AggregationOf(xs)
      modifies this
      ensures Valid() && ops == old(ops) + [Upsert(xs)]
      ensures t.key == Upsert(xs).KeyOf() && t.key in rows && rows[t.key] == t.row
      ensures forall key :: key != t.key ==> (key in rows <==> key in old(rows))
      ensures forall key :: key != t.key && key in rows ==> rows[key] == old(rows)[key]
    {
      OneMoreOp(ops, Upsert(xs));
      var key := Key(a.projectId, a.traceId);
      var row := if key in rows then Merge(rows[key], a.stats) else a.stats;
      rows := rows[key := row];
      ops := ops + [Upsert(xs)];
      t := Trace(key, row);
    }

    /** The metadata statement; a missing trace is skipped. */
    method PatchOne(key: Key) returns (t: Option<Trace>)
      requires Valid()
      modifies this
      ensures Valid() && ops == old(ops) + [Patch(key)]
      ensures t.Some? <==> key in old(rows)
      ensures t.Some? ==> t.value.key == key && key in rows && rows[key] == t.value.row
      ensures t.None? ==> rows == old(rows)
      ensures rows.Keys == old(rows.Keys)
      ensures forall k :: k in rows && k != key ==> rows[k] == old(rows)[k]
    {
      OneMoreOp(ops, Patch(key));
      ops := ops + [Patch(key)];
      if key in rows {
        rows := rows[key := rows[key].(numSpans := rows[key].numSpans + 1)];
        t := Some(Trace(key, rows[key]));
      } else {
        t := None;
      }
    }

    /** Statements of other workers may come in anywhere. */
    method OtherWorkers() returns (ghost run: seq<Op>)
      requires Valid()
      modifies this
      ensures Valid() && AllValid(run) && ops == old(ops) + run
    {
      run := [];
      var statements: nat :| 0 <= statements;
      for i := 0 to statements
        invariant Valid() && AllValid(run) && ops == old(ops) + run
      {
        var xs: seq<Sample> := *;
        var key: Key := *;
        ghost var op;
        if xs != [] {
          var _ := UpsertOne(AggregationOf(xs), xs);
          op := Upsert(xs);
        } else {
          var _ := PatchOne(key);
          op := Patch(key);
        }
        Associate(old(ops), run, [op]);
        run := run + [op];
      }
    }

    /** One statement of our own after any number of others'. */
    method UpsertNext(a: Aggregation, ghost xs: seq<Sample>, ghost traces: seq<Trace>, ghost others: seq<Op>)
      returns (t: Trace, ghost run: seq<Op>)
      requires Valid() && xs != [] && a == AggregationOf(xs) && Tracked(ops, traces, others)
      modifies this
      ensures Valid() && AllValid(run) && ops == old(ops) + run + [Upsert(xs)]
      ensures t.key == Upsert(xs).KeyOf() && Tracked(ops, traces + [t], others + run)
    {
      run := OtherWorkers();
      TrackOthers(old(ops), run, traces, others);
      ghost var before := ops;
      t := UpsertOne(a, xs);
      TrackOwn(before, Upsert(xs), traces, others + run);
    }

    method PatchNext(key: Key, ghost traces: seq<Trace>, ghost others: seq<Op>)
      returns (t: Option<Trace>, ghost run: seq<Op>)
      requires Valid() && Tracked(ops, traces, others)
      modifies this
      ensures Valid() && AllValid(run) && ops == old(ops) + run + [Patch(key)]
      ensures key in old(rows) ==> t.Some?
      ensures t.Some? ==> t.value.key == key && Tracked(ops, traces + [t.value], others + run)
      ensures t.None? ==> Tracked(ops, traces, others + run)
      ensures forall k :: k in old(rows) ==> k in rows
    {
      run := OtherWorkers();
      TrackOthers(old(ops), run, traces, others);
      RowsStay(old(ops), run);
      ghost var before := ops;
      t := PatchOne(key);
      if t.Some? {
        TrackOwn(before, Patch(key), traces, others + run);
      } else {
        TrackMiss(before, key, traces, others + run);
      }
    }

    /** `None` when a statement fails: those before it stay in effect. */
    method UpsertBatch(aggregations: seq<Aggregation>, ghost batches: seq<seq<Sample>>)
      returns (r: Option<seq<Trace>>, ghost added: seq<Op>, ghost mine: seq<Op>, ghost others: seq<Op>)
      requires Valid() && |batches| == |aggregations|
      requires forall i :: 0 <= i < |batches| ==> batches[i] != [] && aggregations[i] == AggregationOf(batches[i])
      modifies this
      ensures Valid() && ops == old(ops) + added && Interleaves(added, mine, others) && AllValid(others)
      ensures r.Some? ==> mine == Upserts(batches) && KeysOf(r.value) == UpsertKeys(batches)
      ensures r.Some? ==> Tracked(ops, r.value, others)
      ensures r.None? ==> exists n: nat :: n <= |batches| && mine == Upserts(batches[..n])
    {
      var traces: seq<Trace> := [];
      added, mine, others := [], [], [];
      assert batches[..0] == [];
      for i := 0 to |aggregations|
        invariant Valid() && ops == old(ops) + added && Interleaves(added, mine, others) && AllValid(others)
        invariant mine == Upserts(batches[..i]) && KeysOf(traces) == UpsertKeys(batches[..i])
        invariant Tracked(ops, traces, others)
      {
        if * {
          return None, added, mine, others;
        }
        assert batches[i] != [] && aggregations[i] == AggregationOf(batches[i]);
        var t, run := UpsertNext(aggregations[i], batches[i], traces, others);
        OneMoreBatch(batches, i);
        OneMoreKey(traces, t);
        InterleavesNext(added, mine, others, run, Upsert(batches[i]));
        HistoryGrows(old(ops), added, run, Upsert(batches[i]));
        added, mine, others := added + run + [Upsert(batches[i])], mine + [Upsert(batches[i])], others + run;
        traces := traces + [t];
      }
      assert batches[..|batches|] == batches;
      r := Some(traces);
    }

    /** `earlier` are the traces this flush has been handed so far. */
    method MergeMetadataBatch(patches: seq<Key>, ghost earlier: seq<Trace>, ghost touched: seq<Op>)
      returns (r: Option<seq<Trace>>, ghost added: seq<Op>, ghost mine: seq<Op>, ghost others: seq<Op>)
      requires Valid() && Tracked(ops, earlier, touched)
      modifies this
      ensures Valid() && ops == old(ops) + added && Interleaves(added, mine, others) && AllValid(others)
      ensures r.Some? ==> mine == PatchOps(patches) && Tracked(ops, earlier + r.value, touched + others)
      ensures r.Some? ==> forall key :: key in patches && key in old(rows) ==> key in KeysOf(r.value)
      ensures r.None? ==> exists n: nat :: n <= |patches| && mine == PatchOps(patches[..n])
    {
      var traces: seq<Trace> := [];
      added, mine, others := [], [], [];
      assert patches[..0] == [] && earlier + [] == earlier && touched + [] == touched;
      for i := 0 to |patches|
        invariant Valid() && ops == old(ops) + added && Interleaves(added, mine, others) && AllValid(others)
        invariant mine == PatchOps(patches[..i]) && Tracked(ops, earlier + traces, touched + others)
        invariant forall key :: key in old(rows) ==> key in rows
        invariant forall key :: key in patches[..i] && key in old(rows) ==> key in KeysOf(traces)
      {
        if * {
          return None, added, mine, others;
        }
        var t, run := PatchNext(patches[i], earlier + traces, touched + others);
        OneMorePatch(patches, i);
        InterleavesNext(added, mine, others, run, Patch(patches[i]));
        HistoryGrows(old(ops), added, run, Patch(patches[i]));
        Associate(touched, others, run);
        added, mine, others := added + run + [Patch(patches[i])], mine + [Patch(patches[i])], others + run;
        if t.Some? {
          OneMoreKey(traces, t.value);
          Associate(earlier, traces, [t.value]);
          traces := traces + [t.value];
        }
      }
      assert patches[..|patches|] == patches;
      r := Some(traces);
    }

    /**
      One flush: aggregate, upsert, then patch, with other workers' statements in
      between; a failing step does not stop the next. What is shipped is
      deduplicated; only upserted rows go on to the signals, and `None`
      suppresses them.
     */
    method TraceBranch(spans: seq<Span>, usages: seq<Usage>, patches: seq<Key>)
      returns (shipped: seq<Trace>, signals: Option<seq<Trace>>, ghost batches: seq<seq<Sample>>, ghost patchesOk: bool,
               ghost added: seq<Op>, ghost mine: seq<Op>, ghost others: seq<Op>)
      requires Valid()
      modifies this
      ensures Valid() && OnePerTrace(Zip(spans, usages), batches)
      ensures ops == old(ops) + added && Interleaves(added, mine, others)
      ensures patchesOk && (signals.Some? || batches == []) ==> mine == Upserts(batches) + PatchOps(patches)
      ensures WereReturned(ops, shipped) && Distinct(KeysOf(shipped))
      ensures forall t :: t in shipped ==> t.key in rows && t.row.numSpans <= rows[t.key].numSpans
      ensures forall t :: t in shipped ==>
        rows[t.key] == t.row || Touched(others, t.key) || (!patchesOk && t.key in patches)
      ensures signals.Some? ==> batches != [] && KeysOf(signals.value) == UpsertKeys(batches)
      ensures signals.Some? ==> NewestAreAmong(signals.value, shipped)
    {
      var aggregations := FromSpans(spans, usages);
      batches := BatchesOf(aggregations, Zip(spans, usages));
      BatchesAreRight(aggregations, Zip(spans, usages));
      var upserted: seq<Trace> := [];
      signals := None;
      added, mine, others := [], [], [];
      assert Upserts([]) == [];
      if aggregations != [] {
        var r;
        r, added, mine, others := UpsertBatch(aggregations, batches);
        if r.Some? {
          upserted := r.value;
          signals := r;
        }
      }
      var traces;
      ghost var touched, added', mine', others';
      traces, patchesOk, added', mine', others', touched := PatchAfter(upserted, patches, others);
      Associate(old(ops), added, added');
      InterleavesAppend(added, mine, others, added', mine', others');
      added, mine, others := added + added', mine + mine', others + others';
      shipped := KeepLatest(traces);
      ShippedIsRight(ops, traces, touched);
      NewestAreKept(upserted, traces);
    }

    /** The second half of a flush; what it is handed on is everything still to be shipped. */
    method PatchAfter(upserted: seq<Trace>, patches: seq<Key>, ghost earlier: seq<Op>)
      returns (traces: seq<Trace>, ghost ok: bool, ghost added: seq<Op>, ghost mine: seq<Op>, ghost others: seq<Op>,
               ghost touched: seq<Op>)
      requires Valid() && Tracked(ops, upserted, earlier)
      modifies this
      ensures Valid() && ops == old(ops) + added && Interleaves(added, mine, others)
      ensures ok ==> mine == PatchOps(patches)
      ensures upserted <= traces && Tracked(ops, traces, touched)
      ensures forall key :: Touched(touched, key) ==> Touched(earlier + others, key) || (!ok && key in patches)
    {
      added, mine, others, ok := [], [], [], true;
      var patched: seq<Trace> := [];
      assert PatchOps([]) == [] && upserted + [] == upserted && earlier + [] == earlier;
      touched := earlier;
      if patches != [] {
        var r;
        r, added, mine, others := MergeMetadataBatch(patches, upserted, earlier);
        ok := r.Some?;
        if r.Some? {
          patched := r.value;
          touched := earlier + others;
        } else {
          TrackOthers(old(ops), added, upserted, earlier);
          LostPatchesTouch(earlier, added, mine, others, patches);
          touched := earlier + added;
        }
      }
      traces := upserted + patched;
    }
  }

  // ---- our statements among those of other workers ------------------------------------------

  /** `all` is an interleaving of `mine` and `others`. */
  ghost predicate Interleaves(all: seq<Op>, mine: seq<Op>, others: seq<Op>)
    decreases |all|
  {
    if all == [] then mine == [] && others == []
    else
      var init, last := all[..|all| - 1], all[|all| - 1];
      || (mine != [] && mine[|mine| - 1] == last && Interleaves(init, mine[..|mine| - 1], others))
      || (others != [] && others[|others| - 1] == last && Interleaves(init, mine, others[..|others| - 1]))
  }

  lemma InterleavesOwn(all: seq<Op>, mine: seq<Op>, others: seq<Op>, op: Op)
    requires Interleaves(all, mine, others)
    ensures Interleaves(all + [op], mine + [op], others)
  {
    assert (all + [op])[..|all|] == all && (mine + [op])[..|mine|] == mine;
  }

  lemma InterleavesOther(all: seq<Op>, mine: seq<Op>, others: seq<Op>, op: Op)
    requires Interleaves(all, mine, others)
    ensures Interleaves(all + [op], mine, others + [op])
  {
    assert (all + [op])[..|all|] == all && (others + [op])[..|others|] == others;
  }

  lemma {:induction false} InterleavesAppend(a: seq<Op>, m: seq<Op>, o: seq<Op>, b: seq<Op>, n: seq<Op>, q: seq<Op>)
    requires Interleaves(a, m, o) && Interleaves(b, n, q)
    ensures Interleaves(a + b, m + n, o + q)
    decreases |b|
  {
    if b == [] {
      assert a + b == a && m + n == m && o + q == o;
    } else {
      var init, last := b[..|b| - 1], b[|b| - 1];
      LastOfAppend(a, b);
      if n != [] && n[|n| - 1] == last && Interleaves(init, n[..|n| - 1], q) {
        InterleavesAppend(a, m, o, init, n[..|n| - 1], q);
        InterleavesOwn(a + init, m + n[..|n| - 1], o + q, last);
        LastOfAppend(m, n);
      } else {
        InterleavesAppend(a, m, o, init, n, q[..|q| - 1]);
        InterleavesOther(a + init, m + n, o + q[..|q| - 1], last);
        LastOfAppend(o, q);
      }
    }
  }

  lemma {:induction false} OthersAlone(run: seq<Op>)
    ensures Interleaves(run, [], run)
  {
    if run != [] {
      OthersAlone(run[..|run| - 1]);
    }
  }

  lemma InterleavesNext(all: seq<Op>, mine: seq<Op>, others: seq<Op>, run: seq<Op>, op: Op)
    requires Interleaves(all, mine, others)
    ensures Interleaves(all + run + [op], mine + [op], others + run)
  {
    OthersAlone(run);
    InterleavesAppend(all, mine, others, run, [], run);
    assert mine + [] == mine;
    InterleavesOwn(all + run, mine, others + run, op);
  }

  lemma HistoryGrows(start: seq<Op>, added: seq<Op>, run: seq<Op>, op: Op)
    ensures start + added + run + [op] == start + (added + run + [op])
  {
  }

  ghost predicate Touched(ops: seq<Op>, key: Key) {
    exists op :: op in ops && op.KeyOf() == key
  }

  lemma {:induction false} TouchedByEither(all: seq<Op>, mine: seq<Op>, others: seq<Op>, key: Key)
    requires Interleaves(all, mine, others) && Touched(all, key)
    ensures Touched(mine, key) || Touched(others, key)
    decreases |all|
  {
    var init, last := all[..|all| - 1], all[|all| - 1];
    assert all == init + [last];
    if last.KeyOf() != key {
      if mine != [] && mine[|mine| - 1] == last && Interleaves(init, mine[..|mine| - 1], others) {
        TouchedByEither(init, mine[..|mine| - 1], others, key);
      } else {
        TouchedByEither(init, mine, others[..|others| - 1], key);
      }
    }
  }

  /** Patches whose rows were lost with the failing statement count like another worker's. */
  lemma LostPatchesTouch(earlier: seq<Op>, added: seq<Op>, mine: seq<Op>, others: seq<Op>, patches: seq<Key>)
    requires Interleaves(added, mine, others)
    requires exists n: nat :: n <= |patches| && mine == PatchOps(patches[..n])
    ensures forall key :: Touched(earlier + added, key) ==> Touched(earlier + others, key) || key in patches
  {
    forall key | Touched(earlier + added, key)
      ensures Touched(earlier + others, key) || key in patches
    {
      var op :| op in earlier + added && op.KeyOf() == key;
      if op in earlier {
        assert op in earlier + others;
      } else {
        assert Touched(added, key);
        TouchedByEither(added, mine, others, key);
        assert forall x :: x in others ==> x in earlier + others;
      }
    }
  }

  // ---- what a flush knows of the rows it was handed ------------------------------------------

  ghost predicate CurrentOrLater(rows: Rows, traces: seq<Trace>, others: seq<Op>, i: nat)
    requires i < |traces|
  {
    || (traces[i].key in rows && rows[traces[i].key] == traces[i].row)
    || !IsLastOccurrence(traces, i)
    || Touched(others, traces[i].key)
  }

  ghost predicate VersionsRise(traces: seq<Trace>) {
    forall i, j :: 0 <= i < j < |traces| && traces[i].key == traces[j].key ==>
      traces[i].row.numSpans < traces[j].row.numSpans
  }

  ghost predicate NotAhead(rows: Rows, t: Trace) {
    t.key in rows && t.row.numSpans <= rows[t.key].numSpans
  }

  /**
    The rows handed back so far were all states of the table, with rising
    versions per trace, none ahead of the table; the last one of a trace is what
    the table holds unless another worker has touched that trace.
   */
  ghost predicate Tracked(ops: seq<Op>, traces: seq<Trace>, others: seq<Op>)
    requires AllValid(ops)
  {
    && WereReturned(ops, traces)
    && VersionsRise(traces)
    && (forall t :: t in traces ==> NotAhead(Run(ops), t))
    && (forall i :: 0 <= i < |traces| ==> CurrentOrLater(Run(ops), traces, others, i))
  }

  lemma TrackOther(ops: seq<Op>, op: Op, traces: seq<Trace>, others: seq<Op>)
    requires AllValid(ops) && op.Valid() && AllValid(ops + [op]) && Tracked(ops, traces, others)
    ensures Tracked(ops + [op], traces, others + [op])
  {
    OneMoreOp(ops, op);
    forall t | t in traces
      ensures t.row in Returned(ops + [op], t.key) && NotAhead(Run(ops + [op]), t)
    {
      OneMoreReturned(ops, op, t.key);
      assert NotAhead(Run(ops), t);
      OpRaisesVersion(Run(ops), op, t.key);
    }
    forall i | 0 <= i < |traces|
      ensures CurrentOrLater(Run(ops + [op]), traces, others + [op], i)
    {
      assert CurrentOrLater(Run(ops), traces, others, i);
      OpRaisesVersion(Run(ops), op, traces[i].key);
      assert op in others + [op];
      assert forall x :: x in others ==> x in others + [op];
    }
  }

  lemma {:induction false} TrackOthers(ops: seq<Op>, run: seq<Op>, traces: seq<Trace>, others: seq<Op>)
    requires AllValid(ops) && AllValid(ops + run) && Tracked(ops, traces, others)
    ensures Tracked(ops + run, traces, others + run)
    decreases |run|
  {
    if run == [] {
      assert ops + run == ops && others + run == others;
    } else {
      var init, last := run[..|run| - 1], run[|run| - 1];
      assert forall x :: x in ops + init || x == last ==> x in ops + run;
      TrackOthers(ops, init, traces, others);
      TrackOther(ops + init, last, traces, others + init);
      assert ops + run == ops + init + [last] && others + run == others + init + [last];
    }
  }

  lemma TrackOwn(ops: seq<Op>, op: Op, traces: seq<Trace>, others: seq<Op>)
    requires AllValid(ops) && op.Valid() && AllValid(ops + [op]) && Tracked(ops, traces, others)
    requires op.KeyOf() in Run(ops + [op])
    ensures Tracked(ops + [op], traces + [Trace(op.KeyOf(), Run(ops + [op])[op.KeyOf()])], others)
  {
    OneMoreOp(ops, op);
    var rows := Run(ops + [op]);
    var t := Trace(op.KeyOf(), rows[op.KeyOf()]);
    var more := traces + [t];
    OneMoreReturned(ops, op, t.key);
    forall u | u in traces
      ensures u.row in Returned(ops + [op], u.key) && NotAhead(rows, u)
      ensures u.key == t.key ==> u.row.numSpans < t.row.numSpans
    {
      OneMoreReturned(ops, op, u.key);
      assert NotAhead(Run(ops), u);
      OpRaisesVersion(Run(ops), op, u.key);
    }
    forall i | 0 <= i < |more|
      ensures CurrentOrLater(rows, more, others, i)
    {
      OwnIsCurrentOrLater(ops, op, traces, others, i);
    }
  }

  lemma OwnIsCurrentOrLater(ops: seq<Op>, op: Op, traces: seq<Trace>, others: seq<Op>, i: nat)
    requires AllValid(ops) && op.Valid() && AllValid(ops + [op]) && Tracked(ops, traces, others)
    requires op.KeyOf() in Run(ops + [op]) && i <= |traces|
    ensures CurrentOrLater(Run(ops + [op]), traces + [Trace(op.KeyOf(), Run(ops + [op])[op.KeyOf()])], others, i)
  {
    OneMoreOp(ops, op);
    var more := traces + [Trace(op.KeyOf(), Run(ops + [op])[op.KeyOf()])];
    if i < |traces| {
      assert more[|traces|].key == op.KeyOf() && more[i] == traces[i];
      if traces[i].key != op.KeyOf() {
        assert CurrentOrLater(Run(ops), traces, others, i);
        OpRaisesVersion(Run(ops), op, traces[i].key);
        if !IsLastOccurrence(traces, i) {
          var j :| i < j < |traces| && traces[j].key == traces[i].key;
          assert more[j].key == more[i].key;
        }
      }
    }
  }

  /** A patch that finds no row changes nothing. */
  lemma TrackMiss(ops: seq<Op>, key: Key, traces: seq<Trace>, others: seq<Op>)
    requires AllValid(ops) && AllValid(ops + [Patch(key)]) && Tracked(ops, traces, others) && key !in Run(ops)
    ensures Tracked(ops + [Patch(key)], traces, others)
  {
    OneMoreOp(ops, Patch(key));
    forall t | t in traces
      ensures t.row in Returned(ops + [Patch(key)], t.key)
    {
      OneMoreReturned(ops, Patch(key), t.key);
    }
    assert forall i :: 0 <= i < |traces| ==> CurrentOrLater(Run(ops), traces, others, i);
  }

  lemma {:induction false} RowsStay(ops: seq<Op>, run: seq<Op>)
    requires AllValid(ops) && AllValid(ops + run)
    ensures forall key :: key in Run(ops) ==> key in Run(ops + run)
    decreases |run|
  {
    if run == [] {
      assert ops + run == ops;
    } else {
      var init, last := run[..|run| - 1], run[|run| - 1];
      assert forall x :: x in ops + init || x == last ==> x in ops + run;
      RowsStay(ops, init);
      OneMoreOp(ops + init, last);
      assert ops + run == ops + init + [last];
      forall key | key in Run(ops + init)
        ensures key in Run(ops + run)
      {
        OpRaisesVersion(Run(ops + init), last, key);
      }
    }
  }

  /** For each of `traces` one of its trace's rows is among `kept`, with a version no smaller. */
  ghost predicate NewestAreAmong(traces: seq<Trace>, kept: seq<Trace>) {
    forall t :: t in traces ==> exists u :: u in kept && u.key == t.key && t.row.numSpans <= u.row.numSpans
  }

  lemma {:induction false} NewestIsKept(traces: seq<Trace>, i: nat) returns (u: Trace)
    requires VersionsRise(traces) && i < |traces|
    ensures u in LatestOnly(traces) && u.key == traces[i].key && traces[i].row.numSpans <= u.row.numSpans
    decreases |traces| - i
  {
    if IsLastOccurrence(traces, i) {
      LatestUpToIsExact(traces, |traces|);
      u := traces[i];
    } else {
      var j :| i < j < |traces| && traces[j].key == traces[i].key;
      u := NewestIsKept(traces, j);
    }
  }

  lemma NewestAreKept(some: seq<Trace>, traces: seq<Trace>)
    requires some <= traces && VersionsRise(traces)
    ensures NewestAreAmong(some, LatestOnly(traces))
  {
    forall t | t in some
      ensures exists u :: u in LatestOnly(traces) && u.key == t.key && t.row.numSpans <= u.row.numSpans
    {
      var i :| 0 <= i < |some| && some[i] == t;
      var u := NewestIsKept(traces, i);
    }
  }

  /** What deduplication leaves are last occurrences. */
  lemma ShippedIsRight(ops: seq<Op>, traces: seq<Trace>, touched: seq<Op>)
    requires AllValid(ops) && Tracked(ops, traces, touched)
    ensures WereReturned(ops, LatestOnly(traces)) && Distinct(KeysOf(LatestOnly(traces)))
    ensures forall t :: t in LatestOnly(traces) ==>
      NotAhead(Run(ops), t) && (Run(ops)[t.key] == t.row || Touched(touched, t.key))
  {
    LatestUpToIsExact(traces, |traces|);
    forall t | t in LatestOnly(traces)
      ensures NotAhead(Run(ops), t) && (Run(ops)[t.key] == t.row || Touched(touched, t.key))
    {
      var i :| 0 <= i < |traces| && traces[i] == t && IsLastOccurrence(traces, i);
      assert CurrentOrLater(Run(ops), traces, touched, i);
    }
  }

  /** Keeps the last occurrence of every key, in order. */
  method KeepLatest(traces: seq<Trace>) returns (kept: seq<Trace>)
    ensures kept == LatestOnly(traces)
  {
    var lastIndex: map<Key, nat> := map[];
    for i := 0 to |traces|
      invariant forall k :: 0 <= k < i ==> traces[k].key in lastIndex && k <= lastIndex[traces[k].key] < i
      invariant forall key :: key in lastIndex ==> lastIndex[key] < i && traces[lastIndex[key]].key == key
    {
      lastIndex := lastIndex[traces[i].key := i];
    }
    kept := [];
    for i := 0 to |traces|
      invariant kept == LatestUpTo(traces, i)
    {
      OccursAgain(traces, i);
      if lastIndex[traces[i].key] == i {
        assert IsLastOccurrence(traces, i);
        kept := kept + [traces[i]];
      } else {
        assert traces[lastIndex[traces[i].key]].key == traces[i].key;
      }
    }
  }

  /** One batch per trace of the flush, holding all of its samples. */
  ghost predicate OnePerTrace(samples: seq<Sample>, batches: seq<seq<Sample>>) {
    && (forall b: seq<Sample> :: b in batches ==> b != [] && b == SamplesOf(samples, b[0].span.traceId))
    && (forall i, j :: 0 <= i < j < |batches| && batches[i] != [] && batches[j] != [] ==>
          batches[i][0].span.traceId != batches[j][0].span.traceId)
    && (forall t :: SamplesOf(samples, t) != [] ==> SamplesOf(samples, t) in batches)
  }

  ghost function BatchesOf(aggregations: seq<Aggregation>, samples: seq<Sample>): seq<seq<Sample>> {
    seq(|aggregations|, i requires 0 <= i < |aggregations| => SamplesOf(samples, aggregations[i].traceId))
  }

  lemma BatchesAreRight(aggregations: seq<Aggregation>, samples: seq<Sample>)
    requires Distinct(TracesOf(aggregations))
    requires forall a :: a in aggregations ==>
      SamplesOf(samples, a.traceId) != [] && a == AggregationOf(SamplesOf(samples, a.traceId))
    requires forall t :: t in TracesOf(aggregations) <==> SamplesOf(samples, t) != []
    ensures var batches := BatchesOf(aggregations, samples);
      && (forall i :: 0 <= i < |batches| ==> batches[i] != [] && aggregations[i] == AggregationOf(batches[i]))
      && OnePerTrace(samples, batches)
  {
    var batches: seq<seq<Sample>> := BatchesOf(aggregations, samples);
    forall i | 0 <= i < |batches|
      ensures batches[i] != [] && aggregations[i] == AggregationOf(batches[i])
      ensures batches[i][0].span.traceId == TracesOf(aggregations)[i]
      ensures batches[i] == SamplesOf(samples, batches[i][0].span.traceId)
    {
      assert aggregations[i] in aggregations;
    }
    forall t | SamplesOf(samples, t) != []
      ensures SamplesOf(samples, t) in batches
    {
      var i :| 0 <= i < |aggregations| && TracesOf(aggregations)[i] == t;
      assert batches[i] == SamplesOf(samples, t);
    }
  }

  lemma {:induction false} IngestedOfAppend(a: seq<Op>, b: seq<Op>, key: Key)
    ensures Ingested(a + b, key) == Ingested(a, key) + Ingested(b, key)
  {
    if b == [] {
      assert a + b == a;
    } else {
      var init, last := b[..|b| - 1], b[|b| - 1];
      IngestedOfAppend(a, init, key);
      assert (a + b)[..|a + b| - 1] == a + init;
      Associate(Ingested(a, key), Ingested(init, key), IngestedBy(last, key));
    }
  }

  lemma IngestedOfUpserts(batches: seq<seq<Sample>>, k: nat, key: Key)
    requires k < |batches| && Upsert(batches[k]).KeyOf() == key
    requires forall i :: 0 <= i < |batches| && i != k ==> Upsert(batches[i]).KeyOf() != key
    ensures Ingested(Upserts(batches), key) == batches[k]
  {
    var before, after := Upserts(batches[..k]), Upserts(batches[k + 1..]);
    UpsertsAround(batches, k);
    NoUpsertIngestsNothing(batches[..k], key);
    NoUpsertIngestsNothing(batches[k + 1..], key);
    IngestedOfAppend(before + [Upsert(batches[k])], after, key);
    IngestedOfAppend(before, [Upsert(batches[k])], key);
    IngestedOfOne(Upsert(batches[k]), key);
  }

  lemma UpsertsAround(batches: seq<seq<Sample>>, k: nat)
    requires k < |batches|
    ensures Upserts(batches) == Upserts(batches[..k]) + [Upsert(batches[k])] + Upserts(batches[k + 1..])
  {
  }

  lemma IngestedOfOne(op: Op, key: Key)
    ensures Ingested([op], key) == IngestedBy(op, key)
  {
    assert [op][..0] == [];
  }

  lemma NoUpsertIngestsNothing(batches: seq<seq<Sample>>, key: Key)
    requires forall i :: 0 <= i < |batches| ==> Upsert(batches[i]).KeyOf() != key
    ensures Ingested(Upserts(batches), key) == []
  {
    NothingIngested(Upserts(batches), key);
  }

  lemma NoPatchIngests(patches: seq<Key>, key: Key)
    ensures Ingested(PatchOps(patches), key) == []
  {
    NothingIngested(PatchOps(patches), key);
  }

  /** Whatever other workers do in between, what is ingested is ours and theirs. */
  lemma {:induction false} IngestedInterleaved(all: seq<Op>, mine: seq<Op>, others: seq<Op>, key: Key)
    requires Interleaves(all, mine, others)
    ensures multiset(Ingested(all, key)) == multiset(Ingested(mine, key)) + multiset(Ingested(others, key))
    decreases |all|
  {
    if all != [] {
      var init, last := all[..|all| - 1], all[|all| - 1];
      if mine != [] && mine[|mine| - 1] == last && Interleaves(init, mine[..|mine| - 1], others) {
        IngestedInterleaved(init, mine[..|mine| - 1], others, key);
      } else {
        IngestedInterleaved(init, mine, others[..|others| - 1], key);
      }
    }
  }

  /**
    A flush among other workers' statements ingests, for each of its traces,
    exactly that trace's spans besides what they ingest.
   */
  lemma FlushIngestsItsSpansAmongOthers(ops: seq<Op>, added: seq<Op>, others: seq<Op>, samples: seq<Sample>,
                                        batches: seq<seq<Sample>>, patches: seq<Key>, trace: Id)
    requires Interleaves(added, Upserts(batches) + PatchOps(patches), others)
    requires OnePerTrace(samples, batches) && SamplesOf(samples, trace) != []
    ensures var own := SamplesOf(samples, trace); var key := Key(own[0].span.projectId, trace);
      multiset(Ingested(ops + added, key))
        == multiset(Ingested(ops, key)) + multiset(own) + multiset(Ingested(others, key))
  {
    var own := SamplesOf(samples, trace);
    var key := Key(own[0].span.projectId, trace);
    FlushIngestsItsSpans([], samples, batches, patches, trace);
    assert [] + Upserts(batches) + PatchOps(patches) == Upserts(batches) + PatchOps(patches);
    assert Ingested([], key) + own == own;
    IngestedInterleaved(added, Upserts(batches) + PatchOps(patches), others, key);
    IngestedOfAppend(ops, added, key);
  }

  /** A flush ingests, for each of its traces, exactly that trace's spans in arrival order. */
  lemma FlushIngestsItsSpans(ops: seq<Op>, samples: seq<Sample>, batches: seq<seq<Sample>>, patches: seq<Key>,
                             trace: Id)
    requires OnePerTrace(samples, batches) && SamplesOf(samples, trace) != []
    ensures var own := SamplesOf(samples, trace); var key := Key(own[0].span.projectId, trace);
      Ingested(ops + Upserts(batches) + PatchOps(patches), key) == Ingested(ops, key) + own
  {
    var own := SamplesOf(samples, trace);
    var key := Key(own[0].span.projectId, trace);
    SamplesOfTrace(samples, trace);
    assert own[0] in own;
    var k :| 0 <= k < |batches| && batches[k] == own;
    forall i | 0 <= i < |batches| && i != k
      ensures Upsert(batches[i]).KeyOf() != key
    {
      assert batches[i] in batches;
    }
    IngestedOfUpserts(batches, k, key);
    NoPatchIngests(patches, key);
    IngestedOfAppend(ops, Upserts(batches), key);
    IngestedOfAppend(ops + Upserts(batches), PatchOps(patches), key);
  }

  // ---- traces shared by two projects ------------------------------------------------------------

  function SamplesUnder(xs: seq<Sample>, key: Key): seq<Sample> {
    if xs == [] then []
    else
      var last := xs[|xs| - 1];
      SamplesUnder(xs[..|xs| - 1], key) + (if Under(key, last) then [last] else [])
  }

  predicate Under(key: Key, x: Sample) { x.span.traceId == key.trace && x.span.projectId == key.project }

  /** Every span has the project of its trace's first span in the flush. */
  ghost predicate OneProjectPerTrace(samples: seq<Sample>) {
    forall x :: x in samples ==> SharesProject(samples, x)
  }

  ghost predicate SharesProject(samples: seq<Sample>, x: Sample) {
    var own := SamplesOf(samples, x.span.traceId);
    own != [] && x.span.projectId == own[0].span.projectId
  }

  lemma {:induction false} SamplesUnderIsFilter(xs: seq<Sample>, key: Key)
    ensures forall x :: x in SamplesUnder(xs, key) <==>
        x in xs && x.span.traceId == key.trace && x.span.projectId == key.project
    ensures (forall x :: x in SamplesOf(xs, key.trace) ==> x.span.projectId == key.project) ==>
        SamplesUnder(xs, key) == SamplesOf(xs, key.trace)
  {
    if xs != [] {
      var init, last := xs[..|xs| - 1], xs[|xs| - 1];
      SamplesUnderIsFilter(init, key);
      assert xs == init + [last];
      assert SamplesOf(xs, key.trace) == SamplesOf(init, key.trace) +
          (if last.span.traceId == key.trace then [last] else []);
    }
  }

  /** Under any key but the first span's project, a flush ingests nothing of a trace. */
  lemma OtherProjectsGetNothing(samples: seq<Sample>, batches: seq<seq<Sample>>, key: Key)
    requires OnePerTrace(samples, batches)
    requires SamplesOf(samples, key.trace) != [] ==> SamplesOf(samples, key.trace)[0].span.projectId != key.project
    ensures Ingested(Upserts(batches), key) == []
  {
    forall i | 0 <= i < |batches|
      ensures Upsert(batches[i]).KeyOf() != key
    {
      var b := batches[i];
      assert b in batches;
    }
    NoUpsertIngestsNothing(batches, key);
  }

  lemma KeyGetsItsSamples(samples: seq<Sample>, batches: seq<seq<Sample>>, key: Key)
    requires OnePerTrace(samples, batches) && OneProjectPerTrace(samples)
    ensures Ingested(Upserts(batches), key) == SamplesUnder(samples, key)
  {
    var own := SamplesOf(samples, key.trace);
    SamplesOfTrace(samples, key.trace);
    SamplesUnderIsFilter(samples, key);
    assert forall x :: x in own ==> SharesProject(samples, x);
    if own != [] && own[0].span.projectId == key.project {
      FlushIngestsItsSpans([], samples, batches, [], key.trace);
      assert [] + Upserts(batches) + PatchOps([]) == Upserts(batches);
      assert Ingested([], key) + own == own;
    } else {
      OtherProjectsGetNothing(samples, batches, key);
      if SamplesUnder(samples, key) != [] {
        assert SamplesUnder(samples, key)[0] in own;
      }
    }
  }

  /**
    Flushes aggregate by trace alone but rows are kept per project and trace:
    every row gets exactly its own spans if and only if no trace of the flush
    mixes projects.
   */
  lemma RowsGetTheirOwnSpansIff(samples: seq<Sample>, batches: seq<seq<Sample>>)
    requires OnePerTrace(samples, batches)
    ensures (forall key :: Ingested(Upserts(batches), key) == SamplesUnder(samples, key)) <==>
        OneProjectPerTrace(samples)
  {
    if OneProjectPerTrace(samples) {
      forall key
        ensures Ingested(Upserts(batches), key) == SamplesUnder(samples, key)
      {
        KeyGetsItsSamples(samples, batches, key);
      }
    } else {
      var x :| x in samples && !SharesProject(samples, x);
      var key := Key(x.span.projectId, x.span.traceId);
      SamplesUnderIsFilter(samples, key);
      OtherProjectsGetNothing(samples, batches, key);
      assert x in SamplesUnder(samples, key);
      assert Ingested(Upserts(batches), key) != SamplesUnder(samples, key);
    }
  }

  /** A failing flush: one span of each of two projects under one trace id, both counted under the first. */
  lemma SharedTraceIdIsMisfiled() returns (samples: seq<Sample>, first: Key, second: Key)
    ensures OnePerTrace(samples, [samples]) && !OneProjectPerTrace(samples)
    ensures SamplesUnder(samples, first) == [samples[0]] && SamplesUnder(samples, second) == [samples[1]]
    ensures Ingested(Upserts([samples]), first) == samples && Ingested(Upserts([samples]), second) == []
  {
    var x := Sample(Span(7, 1, 10, None, 0, 1, "a", None, []), NO_USAGE);
    var y := Sample(Span(7, 2, 20, None, 2, 3, "b", None, []), NO_USAGE);
    samples, first, second := [x, y], Key(1, 7), Key(2, 7);
    TwoSamples(x, y);
    IngestedOfUpserts([samples], 0, first);
    NoUpsertIngestsNothing([samples], second);
    assert !SharesProject(samples, y);
  }

  lemma TwoSamples(x: Sample, y: Sample)
    requires x.span.traceId == y.span.traceId && x.span.projectId != y.span.projectId
    ensures forall t :: SamplesOf([x, y], t) == if t == x.span.traceId then [x, y] else []
    ensures SamplesUnder([x, y], Key(x.span.projectId, x.span.traceId)) == [x]
    ensures SamplesUnder([x, y], Key(y.span.projectId, y.span.traceId)) == [y]
  {
    forall t
      ensures SamplesOf([x, y], t) == if t == x.span.traceId then [x, y] else []
    {
      TwoOfTrace(x, y, t);
    }
    TwoUnder(x, y, Key(x.span.projectId, x.span.traceId));
    TwoUnder(x, y, Key(y.span.projectId, y.span.traceId));
  }

  lemma TwoOfTrace(x: Sample, y: Sample, t: Id)
    requires x.span.traceId == y.span.traceId
    ensures SamplesOf([x, y], t) == if t == x.span.traceId then [x, y] else []
  {
    assert [x, y] == [] + [x] + [y];
    SamplesGrow([], x, t);
    SamplesGrow([] + [x], y, t);
  }

  lemma TwoUnder(x: Sample, y: Sample, key: Key)
    ensures SamplesUnder([x, y], key) == (if Under(key, x) then [x] else []) + (if Under(key, y) then [y] else [])
  {
    assert [x, y][..1] == [x] && [x][..0] == [];
    assert SamplesUnder([], key) == [];
  }
}
