/**
  The dynamic batcher: jobs arrive on a channel, are coalesced into batches,
  padded to a rectangle, run in one forward pass, and answered one by one.
 */
module Batcher {
  import opened Common
  import opened StableSorting

  /** One window awaiting inference; `id` names its reply channel. */
  datatype Job = Job(id: nat, ids: seq<int>, mask: seq<int>, types: seq<int>) {
    /** What a tokenizer encoding guarantees: three columns of one length. */
    predicate Rectangular() { |mask| == |ids| && |types| == |ids| }
  }

  /** What a caller's reply channel yields; it is dropped unanswered when the batch panics. */
  datatype Reply = Labels(labels: seq<nat>) | Failed(message: string) | Dropped

  datatype Sent = Sent(id: nat, reply: Reply)

  /** One row of the three input tensors. */
  datatype Row = Row(ids: seq<int>, mask: seq<int>, types: seq<int>)

  /** One forward pass with its per-token argmax: a label list per row, an error, or a panic. */
  datatype Inference = Labelled(perRow: seq<seq<nat>>) | Broken(message: string) | Panicked

  type Session = seq<Row> -> Inference

  const SHAPE_MISMATCH := "logits batch dim differs from input batch"

  function Pad(s: seq<int>, n: nat): seq<int>
    requires |s| <= n
  {
    s + seq(n - |s|, _ => 0)
  }

  function MaxLen(jobs: seq<Job>): (n: nat)
    ensures forall j :: j in jobs ==> |j.ids| <= n
  {
    if jobs == [] then 0 else Max(|jobs[0].ids|, MaxLen(jobs[1..]))
  }

  function PaddedRow(job: Job, n: nat): Row
    requires job.Rectangular() && |job.ids| <= n
  {
    Row(Pad(job.ids, n), Pad(job.mask, n), Pad(job.types, n))
  }

  ghost predicate AllRectangular(jobs: seq<Job>) { forall j :: j in jobs ==> j.Rectangular() }

  function PaddedRows(jobs: seq<Job>): seq<Row>
    requires AllRectangular(jobs)
  {
    var n := MaxLen(jobs);
    seq(|jobs|, b requires 0 <= b < |jobs| => PaddedRow(jobs[b], n))
  }

  /** The pass panics, or a row has fewer labels than its job has tokens, which cutting it to length panics on. */
  predicate Panics(session: Session, jobs: seq<Job>)
    requires AllRectangular(jobs)
  {
    MaxLen(jobs) > 0 &&
    match session(PaddedRows(jobs))
    case Panicked => true
    case Broken(_) => false
    case Labelled(out) => |out| == |jobs| && exists b :: 0 <= b < |jobs| && |out[b]| < |jobs[b].ids|
  }

  function SameReply(jobs: seq<Job>, reply: Reply): seq<Sent> {
    seq(|jobs|, b requires 0 <= b < |jobs| => Sent(jobs[b].id, reply))
  }

  /** What one batch sends back, in row order. */
  function BatchReplies(session: Session, jobs: seq<Job>): (r: seq<Sent>)
    requires AllRectangular(jobs)
    ensures |r| == |jobs| && forall b :: 0 <= b < |jobs| ==> r[b].id == jobs[b].id
  {
    if MaxLen(jobs) == 0 then SameReply(jobs, Labels([]))
    else if Panics(session, jobs) then SameReply(jobs, Dropped)
    else
      match session(PaddedRows(jobs))
      case Panicked => []
      case Broken(e) => SameReply(jobs, Failed(e))
      case Labelled(out) =>
        if |out| != |jobs| then SameReply(jobs, Failed(SHAPE_MISMATCH))
        else seq(|jobs|, b requires 0 <= b < |jobs| => Sent(jobs[b].id, Labels(out[b][..|jobs[b].ids|])))
  }

  function LabelsSent(jobs: seq<Job>, perRow: seq<seq<nat>>): seq<Sent>
    requires |perRow| == |jobs|
  {
    seq(|jobs|, b requires 0 <= b < |jobs| => Sent(jobs[b].id, Labels(perRow[b])))
  }

  predicate LongerFirst(a: Job, b: Job) { |a.ids| >= |b.ids| }

  function Ordered(batch: seq<Job>): seq<Job> { StableSort(batch, LongerFirst) }

  lemma OrderedKeepsJobs(batch: seq<Job>)
    ensures multiset(Ordered(batch)) == multiset(batch)
    ensures AllRectangular(batch) ==> AllRectangular(Ordered(batch))
  {
    SortMultiset(batch, LongerFirst);
  }

  /** Everything sent for a sequence of flushed batches. */
  function AllReplies(session: Session, batches: seq<seq<Job>>): seq<Sent>
    requires forall b :: b in batches ==> AllRectangular(b)
  {
    if batches == [] then []
    else
      var last := batches[|batches| - 1];
      OrderedKeepsJobs(last);
      AllReplies(session, batches[..|batches| - 1]) + BatchReplies(session, Ordered(last))
  }

  function Flatten<T>(ss: seq<seq<T>>): seq<T> {
    if ss == [] then [] else Flatten(ss[..|ss| - 1]) + ss[|ss| - 1]
  }

  lemma SliceOfRectangular(incoming: seq<Job>, start: nat, next: nat)
    requires AllRectangular(incoming) && start <= next <= |incoming|
    ensures AllRectangular(incoming[start..next])
    ensures incoming[..start] + incoming[start..next] == incoming[..next]
  {
    assert forall j :: j in incoming[start..next] ==> j in incoming;
  }

  lemma FlushedOneMore(session: Session, batches: seq<seq<Job>>, batch: seq<Job>)
    requires AllRectangular(batch) && forall b :: b in batches ==> AllRectangular(b)
    ensures Flatten(batches + [batch]) == Flatten(batches) + batch
    ensures AllRectangular(Ordered(batch))
    ensures AllReplies(session, batches + [batch]) ==
        AllReplies(session, batches) + BatchReplies(session, Ordered(batch))
  {
    OrderedKeepsJobs(batch);
    assert (batches + [batch])[..|batches|] == batches;
  }

  // ---- the program ---------------------------------------------------------------

  /** One of the three tensors, zero except for the copied rows. */
  method FillTensor(rows: seq<seq<int>>, maxLen: nat) returns (t: array2<int>)
    requires forall r :: r in rows ==> |r| <= maxLen
    ensures fresh(t) && t.Length0 == |rows| && t.Length1 == maxLen
    ensures forall b :: 0 <= b < |rows| ==> RowOf(t, b) == Pad(rows[b], maxLen)
  {
    t := new int[|rows|, maxLen]((_, _) => 0);
    for b := 0 to |rows|
      invariant forall a, j :: 0 <= a < b && 0 <= j < maxLen ==> t[a, j] == if j < |rows[a]| then rows[a][j] else 0
      invariant forall a, j :: b <= a < |rows| && 0 <= j < maxLen ==> t[a, j] == 0
    {
      assert rows[b] in rows;
      for j := 0 to |rows[b]|
        invariant forall a, i :: 0 <= a < b && 0 <= i < maxLen ==> t[a, i] == if i < |rows[a]| then rows[a][i] else 0
        invariant forall i :: 0 <= i < maxLen ==> t[b, i] == if i < j then rows[b][i] else 0
        invariant forall a, i :: b < a < |rows| && 0 <= i < maxLen ==> t[a, i] == 0
      {
        t[b, j] := rows[b][j];
      }
    }
    forall b | 0 <= b < |rows|
      ensures RowOf(t, b) == Pad(rows[b], maxLen)
    {
      assert rows[b] in rows;
    }
  }

  function RowOf(t: array2<int>, b: nat): seq<int>
    requires b < t.Length0
    reads t
  {
    seq(t.Length1, j requires 0 <= j < t.Length1 reads t => t[b, j])
  }

  /** The three tensors of a batch, read back as rows. */
  method BuildRows(jobs: seq<Job>) returns (rows: seq<Row>)
    requires AllRectangular(jobs)
    ensures rows == PaddedRows(jobs)
  {
    var maxLen := MaxLen(jobs);
    ColumnsFit(jobs);
    var ids := FillTensor(Ids(jobs), maxLen);
    var mask := FillTensor(Masks(jobs), maxLen);
    var types := FillTensor(Types(jobs), maxLen);
    rows := seq(|jobs|, b requires 0 <= b < |jobs| reads ids, mask, types =>
      Row(RowOf(ids, b), RowOf(mask, b), RowOf(types, b)));
    forall b | 0 <= b < |jobs|
      ensures rows[b] == PaddedRows(jobs)[b]
    {
      assert jobs[b] in jobs;
      assert RowOf(ids, b) == Pad(Ids(jobs)[b], maxLen);
      assert RowOf(mask, b) == Pad(Masks(jobs)[b], maxLen);
      assert RowOf(types, b) == Pad(Types(jobs)[b], maxLen);
    }
  }

  function Ids(jobs: seq<Job>): seq<seq<int>> { seq(|jobs|, b requires 0 <= b < |jobs| => jobs[b].ids) }

  function Masks(jobs: seq<Job>): seq<seq<int>> { seq(|jobs|, b requires 0 <= b < |jobs| => jobs[b].mask) }

  function Types(jobs: seq<Job>): seq<seq<int>> { seq(|jobs|, b requires 0 <= b < |jobs| => jobs[b].types) }

  lemma ColumnsFit(jobs: seq<Job>)
    requires AllRectangular(jobs)
    ensures forall r :: r in Ids(jobs) || r in Masks(jobs) || r in Types(jobs) ==> |r| <= MaxLen(jobs)
  {
    assert forall b :: 0 <= b < |jobs| ==> jobs[b] in jobs && jobs[b].Rectangular();
  }

  class BatchWorker {
    var queue: seq<Job>
    var replies: seq<Sent>
    /** Batches in flush order, each as it was before the sort by length. */
    ghost var flushed: seq<seq<Job>>

    constructor ()
      ensures queue == [] && replies == [] && flushed == []
    {
      queue, replies, flushed := [], [], [];
    }

    /** `run_batch`; a panic leaves it before anything is sent. */
    method RunBatch(session: Session, jobs: seq<Job>) returns (panicked: bool)
      requires AllRectangular(jobs)
      modifies this`replies
      ensures panicked == Panics(session, jobs)
      ensures replies == old(replies) + (if panicked then [] else BatchReplies(session, jobs))
    {
      if jobs == [] {
        return false;
      }
      if MaxLen(jobs) == 0 {
        SendAll(jobs, Labels([]));
        return false;
      }
      var rows := BuildRows(jobs);
      match session(rows) {
        case Panicked =>
          return true;
        case Broken(e) =>
          SendAll(jobs, Failed(e));
          return false;
        case Labelled(out) =>
          if |out| != |jobs| {
            SendAll(jobs, Failed(SHAPE_MISMATCH));
            return false;
          }
          panicked := SendCut(session, jobs, out);
      }
    }

    /** The call under `catch_unwind`: unwinding closes the channels of all jobs of the batch. */
    method RunCatching(session: Session, jobs: seq<Job>)
      requires AllRectangular(jobs)
      modifies this`replies
      ensures replies == old(replies) + BatchReplies(session, jobs)
    {
      var panicked := RunBatch(session, jobs);
      if panicked {
        SendAll(jobs, Dropped);
      }
    }

    /** Cuts every row to its job's length first, then sends. */
    method SendCut(ghost session: Session, jobs: seq<Job>, out: seq<seq<nat>>) returns (panicked: bool)
      requires AllRectangular(jobs) && MaxLen(jobs) > 0
      requires session(PaddedRows(jobs)) == Labelled(out) && |out| == |jobs|
      modifies this`replies
      ensures panicked == Panics(session, jobs)
      ensures replies == old(replies) + (if panicked then [] else BatchReplies(session, jobs))
    {
      var perRow: seq<seq<nat>> := [];
      for b := 0 to |jobs|
        invariant |perRow| == b && replies == old(replies)
        invariant forall a :: 0 <= a < b ==> |jobs[a].ids| <= |out[a]| && perRow[a] == out[a][..|jobs[a].ids|]
      {
        if |out[b]| < |jobs[b].ids| {
          return true;
        }
        perRow := perRow + [out[b][..|jobs[b].ids|]];
      }
      SendLabels(jobs, perRow);
      panicked := false;
      assert LabelsSent(jobs, perRow) == BatchReplies(session, jobs);
    }

    /** `perRow` holds the rows already cut to length. */
    method SendLabels(jobs: seq<Job>, perRow: seq<seq<nat>>)
      requires |perRow| == |jobs|
      modifies this`replies
      ensures replies == old(replies) + LabelsSent(jobs, perRow)
    {
      for b := 0 to |jobs|
        invariant replies == old(replies) + LabelsSent(jobs, perRow)[..b]
      {
        TakeOneMore(LabelsSent(jobs, perRow), b);
        Associate(old(replies), LabelsSent(jobs, perRow)[..b], [Sent(jobs[b].id, Labels(perRow[b]))]);
        replies := replies + [Sent(jobs[b].id, Labels(perRow[b]))];
      }
      assert LabelsSent(jobs, perRow)[..|jobs|] == LabelsSent(jobs, perRow);
    }

    method SendAll(jobs: seq<Job>, reply: Reply)
      modifies this`replies
      ensures replies == old(replies) + SameReply(jobs, reply)
    {
      for b := 0 to |jobs|
        invariant replies == old(replies) + SameReply(jobs, reply)[..b]
      {
        TakeOneMore(SameReply(jobs, reply), b);
        Associate(old(replies), SameReply(jobs, reply)[..b], [Sent(jobs[b].id, reply)]);
        replies := replies + [Sent(jobs[b].id, reply)];
      }
      assert SameReply(jobs, reply)[..|jobs|] == SameReply(jobs, reply);
    }

    /** Fills the queue until it is full, the channel is drained or the delay runs out. */
    method FillQueue(maxBatchSize: nat, incoming: seq<Job>, start: nat) returns (next: nat)
      requires start < |incoming| && maxBatchSize >= 1 && queue == [incoming[start]]
      modifies this`queue
      ensures start < next <= |incoming| && queue == incoming[start..next] && |queue| <= maxBatchSize
    {
      next := start + 1;
      while |queue| < maxBatchSize
        invariant start < next <= |incoming| && queue == incoming[start..next] && |queue| <= maxBatchSize
        decreases |incoming| - next
      {
        if * {
          break;  // the delay ran out
        }
        if next == |incoming| {
          break;  // the channel is closed
        }
        queue := queue + [incoming[next]];
        next := next + 1;
      }
    }

    ghost predicate Consistent(session: Session, maxBatchSize: nat, incoming: seq<Job>, next: nat)
      reads this
    {
      && next <= |incoming| && queue == []
      && Flatten(flushed) == incoming[..next]
      && (forall b :: b in flushed ==> 1 <= |b| <= maxBatchSize && AllRectangular(b))
      && replies == AllReplies(session, flushed)
    }

    method TakeBatch(maxBatchSize: nat) returns (batch: seq<Job>)
      modifies this`queue
      ensures batch + queue == old(queue) && |batch| <= maxBatchSize
      ensures |old(queue)| <= maxBatchSize ==> batch == old(queue) && queue == []
    {
      var take := Min(|queue|, maxBatchSize);
      batch := queue[..take];
      queue := queue[take..];
    }

    /**
      `batcher_loop` over everything ever sent on the channel, up to its
      closing. The nondeterministic branch of `FillQueue` is the delay.
     */
    method BatcherLoop(session: Session, maxBatchSize: nat, incoming: seq<Job>)
      requires maxBatchSize >= 1 && AllRectangular(incoming)
      requires queue == [] && replies == [] && flushed == []
      modifies this
      ensures queue == []
      ensures Flatten(flushed) == incoming
      ensures forall b :: b in flushed ==> 1 <= |b| <= maxBatchSize && AllRectangular(b)
      ensures replies == AllReplies(session, flushed)
    {
      var next := 0;
      while true
        invariant Consistent(session, maxBatchSize, incoming, next)
        decreases |incoming| - next
      {
        if next == |incoming| {
          assert incoming[..next] == incoming;
          return;
        }
        next := ServeBatch(session, maxBatchSize, incoming, next);
      }
    }

    /** The loop's body: wait for one job, gather more, sort them by length and run them. */
    method ServeBatch(session: Session, maxBatchSize: nat, incoming: seq<Job>, start: nat) returns (next: nat)
      requires maxBatchSize >= 1 && AllRectangular(incoming)
      requires Consistent(session, maxBatchSize, incoming, start) && start < |incoming|
      modifies this
      ensures start < next && Consistent(session, maxBatchSize, incoming, next)
    {
      queue := queue + [incoming[start]];
      next := FillQueue(maxBatchSize, incoming, start);
      var batch := TakeBatch(maxBatchSize);
      SliceOfRectangular(incoming, start, next);
      FlushedOneMore(session, flushed, batch);
      RunCatching(session, Ordered(batch));
      flushed := flushed + [batch];
    }
  }

  // ---- what callers get -----------------------------------------------------------

  function JobIds(jobs: seq<Job>): seq<nat> {
    seq(|jobs|, i requires 0 <= i < |jobs| => jobs[i].id)
  }

  function SentIds(sent: seq<Sent>): seq<nat> {
    seq(|sent|, i requires 0 <= i < |sent| => sent[i].id)
  }

  lemma {:induction false} InsertIds(x: Job, s: seq<Job>)
    ensures multiset(JobIds(Insert(x, s, LongerFirst))) == multiset{x.id} + multiset(JobIds(s))
  {
    if s == [] || LongerFirst(x, s[0]) {
      assert JobIds([x] + s) == [x.id] + JobIds(s);
    } else {
      InsertIds(x, s[1..]);
      var rest := Insert(x, s[1..], LongerFirst);
      assert JobIds([s[0]] + rest) == [s[0].id] + JobIds(rest);
      assert JobIds(s) == [s[0].id] + JobIds(s[1..]);
    }
  }

  lemma {:induction false} OrderedKeepsIds(s: seq<Job>)
    ensures multiset(JobIds(Ordered(s))) == multiset(JobIds(s))
  {
    if s != [] {
      OrderedKeepsIds(s[1..]);
      InsertIds(s[0], Ordered(s[1..]));
      assert JobIds(s) == [s[0].id] + JobIds(s[1..]);
    }
  }

  lemma IdsAppend(a: seq<Sent>, b: seq<Sent>, p: seq<Job>, q: seq<Job>)
    ensures SentIds(a + b) == SentIds(a) + SentIds(b)
    ensures JobIds(p + q) == JobIds(p) + JobIds(q)
  {
  }

  /** Replies are dropped exactly when the batch panics, and then all of them. */
  lemma DroppedIffPanics(session: Session, jobs: seq<Job>, b: nat)
    requires AllRectangular(jobs) && b < |jobs|
    ensures BatchReplies(session, jobs)[b].reply.Dropped? <==> Panics(session, jobs)
  {
  }

  lemma RepliesCarryJobIds(session: Session, jobs: seq<Job>)
    requires AllRectangular(jobs)
    ensures SentIds(BatchReplies(session, jobs)) == JobIds(jobs)
  {
  }

  /** Exactly one reply per job, however the jobs were batched. */
  lemma {:induction false} EveryJobAnsweredOnce(session: Session, batches: seq<seq<Job>>)
    requires forall b :: b in batches ==> AllRectangular(b)
    ensures multiset(SentIds(AllReplies(session, batches))) == multiset(JobIds(Flatten(batches)))
  {
    if batches != [] {
      var init, last := batches[..|batches| - 1], batches[|batches| - 1];
      EveryJobAnsweredOnce(session, init);
      OrderedKeepsJobs(last);
      OrderedKeepsIds(last);
      RepliesCarryJobIds(session, Ordered(last));
      IdsAppend(AllReplies(session, init), BatchReplies(session, Ordered(last)), Flatten(init), last);
    }
  }

  /** Absent a panic no caller is left without labels or an error. */
  lemma {:induction false} NothingDroppedWithoutPanic(session: Session, batches: seq<seq<Job>>, sent: Sent)
    requires forall b :: b in batches ==> AllRectangular(b) && AllRectangular(Ordered(b))
    requires forall b :: b in batches ==> !Panics(session, Ordered(b))
    requires sent in AllReplies(session, batches)
    ensures !sent.reply.Dropped?
  {
    var init, last := batches[..|batches| - 1], batches[|batches| - 1];
    assert last in batches;
    if sent in AllReplies(session, init) {
      NothingDroppedWithoutPanic(session, init, sent);
    } else {
      var mine := BatchReplies(session, Ordered(last));
      var b :| 0 <= b < |mine| && mine[b] == sent;
      DroppedIffPanics(session, Ordered(last), b);
    }
  }

  /** The session labels each row by itself, and padding does not change the labels of real tokens. */
  ghost predicate RowIndependent(session: Session, rowLabels: Row -> seq<nat>) {
    && (forall rows: seq<Row> :: session(rows).Labelled? && |session(rows).perRow| == |rows| ==>
          forall b :: 0 <= b < |rows| ==> session(rows).perRow[b] == rowLabels(rows[b]))
    && (forall job: Job, n: nat :: job.Rectangular() && 0 < |job.ids| <= n ==>
          |rowLabels(PaddedRow(job, n))| >= |job.ids|
          && rowLabels(PaddedRow(job, n))[..|job.ids|] == rowLabels(Row(job.ids, job.mask, job.types)))
  }

  /** A job's own labels: what a batch holding nothing else would return. */
  function OwnLabels(job: Job, rowLabels: Row -> seq<nat>): seq<nat> {
    if job.ids == [] then [] else rowLabels(Row(job.ids, job.mask, job.types))
  }

  /** `sent` goes to `job`, and if it carries labels they are the job's own. */
  ghost predicate Answers(sent: Sent, job: Job, rowLabels: Row -> seq<nat>) {
    sent.id == job.id && (sent.reply.Labels? ==> sent.reply.labels == OwnLabels(job, rowLabels))
  }

  lemma BatchMatesDoNotMatter(session: Session, jobs: seq<Job>, rowLabels: Row -> seq<nat>, b: nat)
    requires AllRectangular(jobs) && RowIndependent(session, rowLabels)
    requires b < |jobs|
    ensures Answers(BatchReplies(session, jobs)[b], jobs[b], rowLabels)
  {
    var n := MaxLen(jobs);
    var job := jobs[b];
    assert job in jobs;
    if n > 0 && !Panics(session, jobs) {
      var rows := PaddedRows(jobs);
      match session(rows)
      case Panicked =>
      case Broken(_) =>
      case Labelled(out) =>
        if |out| == |jobs| {
          assert out[b] == rowLabels(rows[b]) && rows[b] == PaddedRow(job, n);
        }
    }
  }

  /** Batching is transparent: a successful reply is its own job's labels, whatever rode along. */
  lemma {:induction false} RepliesAreOwnLabels(session: Session, batches: seq<seq<Job>>, rowLabels: Row -> seq<nat>,
                                               sent: Sent)
    requires RowIndependent(session, rowLabels)
    requires forall b :: b in batches ==> AllRectangular(b)
    requires sent in AllReplies(session, batches)
    ensures exists job :: job in Flatten(batches) && Answers(sent, job, rowLabels)
  {
    var init, last := batches[..|batches| - 1], batches[|batches| - 1];
    OrderedKeepsJobs(last);
    var ordered := Ordered(last);
    var mine := BatchReplies(session, ordered);
    if sent in AllReplies(session, init) {
      RepliesAreOwnLabels(session, init, rowLabels, sent);
    } else {
      assert sent in mine;
      var b :| 0 <= b < |mine| && mine[b] == sent;
      BatchMatesDoNotMatter(session, ordered, rowLabels, b);
      assert ordered[b] in multiset(ordered);
      assert ordered[b] in multiset(last);
      assert ordered[b] in Flatten(batches);
    }
  }
}
