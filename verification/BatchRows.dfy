/** What the session sees of each job, cell by cell, and what each job gets back for it. */
module BatchRows {
  import opened StableSorting
  import opened Batcher

  /** A tensor column of one job: its own values, and zero from there to the width of the batch. */
  ghost predicate Column(cells: seq<int>, own: seq<int>, width: nat) {
    && |cells| == width && |own| <= width
    && (forall i :: 0 <= i < |own| ==> cells[i] == own[i])
    && (forall i :: |own| <= i < width ==> cells[i] == 0)
  }

  ghost predicate RowHolds(row: Row, job: Job, width: nat) {
    Column(row.ids, job.ids, width) && Column(row.mask, job.mask, width) && Column(row.types, job.types, width)
  }

  lemma PaddedIsColumn(s: seq<int>, n: nat)
    requires |s| <= n
    ensures Column(Pad(s, n), s, n)
  {
  }

  /** The rows hold the jobs' ids, masks and type ids, each in its own tensor, as wide as the longest job. */
  ghost predicate Tensors(rows: seq<Row>, jobs: seq<Job>, width: nat) {
    && |rows| == |jobs|
    && (forall b :: 0 <= b < |jobs| ==> RowHolds(rows[b], jobs[b], width))
    && (jobs != [] ==> exists b :: 0 <= b < |jobs| && |jobs[b].ids| == width)
  }

  lemma {:induction false} LongestIsAJob(jobs: seq<Job>)
    ensures jobs != [] ==> exists b :: 0 <= b < |jobs| && |jobs[b].ids| == MaxLen(jobs)
  {
    if jobs != [] {
      LongestIsAJob(jobs[1..]);
      if |jobs[0].ids| < MaxLen(jobs[1..]) {
        var b :| 0 <= b < |jobs[1..]| && |jobs[1..][b].ids| == MaxLen(jobs[1..]);
        assert jobs[b + 1] == jobs[1..][b];
      } else {
        assert |jobs[0].ids| == MaxLen(jobs);
      }
    }
  }

  lemma PaddedRowsAreTensors(jobs: seq<Job>)
    requires AllRectangular(jobs)
    ensures Tensors(PaddedRows(jobs), jobs, MaxLen(jobs))
  {
    LongestIsAJob(jobs);
    var n := MaxLen(jobs);
    forall b | 0 <= b < |jobs|
      ensures RowHolds(PaddedRows(jobs)[b], jobs[b], n)
    {
      assert jobs[b] in jobs;
      PaddedIsColumn(jobs[b].ids, n);
      PaddedIsColumn(jobs[b].mask, n);
      PaddedIsColumn(jobs[b].types, n);
    }
  }

  /** Every row is labelled at least as far as its job has tokens. */
  ghost predicate LongEnough(jobs: seq<Job>, out: seq<seq<nat>>) {
    |out| == |jobs| && forall b :: 0 <= b < |jobs| ==> |out[b]| >= |jobs[b].ids|
  }

  /** What job `b` of a batch is answered, given what the session makes of the batch. */
  ghost predicate AnsweredFor(jobs: seq<Job>, b: nat, outcome: Inference, reply: Reply)
    requires b < |jobs|
  {
    match outcome
    case Panicked => reply == Dropped
    case Broken(message) => reply == Failed(message)
    case Labelled(out) =>
      if |out| != |jobs| then reply.Failed?
      else if !LongEnough(jobs, out) then reply == Dropped
      else
        && reply.Labels? && |reply.labels| == |jobs[b].ids|
        && forall i :: 0 <= i < |jobs[b].ids| ==> reply.labels[i] == out[b][i]
  }

  /**
    Every job of a batch is answered from its own row of the one forward pass,
    cut to its own tokens; an error of the pass reaches every job of the batch.
   */
  lemma JobIsAnsweredFromItsRow(session: Session, jobs: seq<Job>, b: nat)
    requires AllRectangular(jobs) && b < |jobs|
    ensures Tensors(PaddedRows(jobs), jobs, MaxLen(jobs))
    ensures var sent := BatchReplies(session, jobs)[b];
      && sent.id == jobs[b].id
      && if MaxLen(jobs) == 0 then sent.reply == Labels([])
         else AnsweredFor(jobs, b, session(PaddedRows(jobs)), sent.reply)
  {
    PaddedRowsAreTensors(jobs);
    if MaxLen(jobs) > 0 {
      AnsweredBySession(session, jobs, b, session(PaddedRows(jobs)));
    }
  }

  lemma PanicsIff(session: Session, jobs: seq<Job>, outcome: Inference)
    requires AllRectangular(jobs) && MaxLen(jobs) > 0 && outcome == session(PaddedRows(jobs))
    ensures Panics(session, jobs) <==> PanicsOn(jobs, outcome)
  {
  }

  /** The pass panics, or cutting one of its rows to length does. */
  ghost predicate PanicsOn(jobs: seq<Job>, outcome: Inference) {
    outcome.Panicked? || (outcome.Labelled? && |outcome.perRow| == |jobs| && !LongEnough(jobs, outcome.perRow))
  }

  lemma AnsweredBySession(session: Session, jobs: seq<Job>, b: nat, outcome: Inference)
    requires AllRectangular(jobs) && b < |jobs| && MaxLen(jobs) > 0 && outcome == session(PaddedRows(jobs))
    ensures AnsweredFor(jobs, b, outcome, BatchReplies(session, jobs)[b].reply)
  {
    PanicsIff(session, jobs, outcome);
    DroppedIffPanics(session, jobs, b);
    if !Panics(session, jobs) {
      RepliesWithoutPanic(session, jobs, b, outcome);
    }
    AnsweredByCases(jobs, b, outcome, BatchReplies(session, jobs)[b].reply);
  }

  /** The reply when nothing panics. */
  ghost function PlainReply(jobs: seq<Job>, b: nat, outcome: Inference): Reply
    requires b < |jobs| && !PanicsOn(jobs, outcome)
  {
    match outcome
    case Broken(message) => Failed(message)
    case Labelled(out) => if |out| == |jobs| then Labels(out[b][..|jobs[b].ids|]) else Failed(SHAPE_MISMATCH)
  }

  lemma AnsweredByCases(jobs: seq<Job>, b: nat, outcome: Inference, reply: Reply)
    requires b < |jobs|
    requires if PanicsOn(jobs, outcome) then reply == Dropped else reply == PlainReply(jobs, b, outcome)
    ensures AnsweredFor(jobs, b, outcome, reply)
  {
  }

  lemma RepliesWithoutPanic(session: Session, jobs: seq<Job>, b: nat, outcome: Inference)
    requires AllRectangular(jobs) && b < |jobs| && MaxLen(jobs) > 0 && outcome == session(PaddedRows(jobs))
    requires !Panics(session, jobs) && !PanicsOn(jobs, outcome)
    ensures BatchReplies(session, jobs)[b].reply == PlainReply(jobs, b, outcome)
  {
  }

  // ---- the order of a batch ---------------------------------------------------------------

  /** Rows come longest first, and jobs of equal length in their order of arrival. */
  lemma BatchIsSortedByLength(jobs: seq<Job>, n: nat)
    ensures forall i, j :: 0 <= i < j < |Ordered(jobs)| ==> |Ordered(jobs)[i].ids| >= |Ordered(jobs)[j].ids|
    ensures Filter(Ordered(jobs), (job: Job) => |job.ids| == n) == Filter(jobs, (job: Job) => |job.ids| == n)
  {
    SortSorted(jobs, LongerFirst);
    assert forall i, j :: 0 <= i < j < |Ordered(jobs)| ==> LongerFirst(Ordered(jobs)[i], Ordered(jobs)[j]);
    SortIsStable(jobs, LongerFirst, (job: Job) => |job.ids| == n);
  }
}
