/**
  What the version table records: over all runs of the protocol, whatever the
  timing, a written row is what the classifier answered, read from the table,
  the listing and the answer alone.
 */
module CheckpointWrites {
  import opened Common
  import opened Checkpoints

  /** Some version of the project is recorded under the agent. */
  ghost predicate HasAgent(rows: seq<VersionRow>, project: string, agent: Id) {
    exists r :: r in rows && r.project == project && r.agent == agent
  }

  ghost predicate AgentInUse(rows: seq<VersionRow>, agent: Id) {
    exists r :: r in rows && r.agent == agent
  }

  /** Worker `i` is at the write of what the classifier answered. */
  predicate AtWrite(s: State, i: nat) { i < |s.workers| && s.workers[i].pc.Writing? }

  /** The agents listed are the project's, and an existing agent in the answer is one of them. */
  ghost predicate ListingOk(s: State, w: Worker) {
    && (Listed(w.pc).Some? ==> forall b :: b in Listed(w.pc).value ==> HasAgent(s.rows, w.shape.project, b))
    && (w.pc.Writing? && w.pc.decision.ExistingAgent? ==> w.pc.decision.agent in w.pc.listed)
  }

  /** A step leaves every worker but the one it advances as it is; new ones start at the beginning. */
  lemma WorkersAfter(s: State, a: Action, t: State, j: nat)
    requires Step(s, a) == Some(t) && j < |t.workers|
    ensures j >= |s.workers| ==> t.workers[j].pc.FastCache?
    ensures j < |s.workers| ==> t.workers[j].shape == s.workers[j].shape
    ensures j < |s.workers| && !(a.Advance? && a.i == j) ==> t.workers[j] == s.workers[j]
  {
  }

  /** Where a worker gets its listing and its answer. */
  lemma ListingAfter(s: State, a: Action, t: State)
    requires a.Advance? && Step(s, a) == Some(t) && Listed(t.workers[a.i].pc).Some?
    ensures var pc, next := s.workers[a.i].pc, t.workers[a.i].pc;
      if next.Writing? then pc == Classifying(next.listed) && a.ok && a.decision == next.decision
        && (next.decision.ExistingAgent? ==> next.decision.agent in next.listed)
      else pc.Listing? && next == Classifying(AgentsOf(s.rows, s.workers[a.i].shape.project))
    ensures t.rows == s.rows
  {
  }

  lemma ListingOkStep(s: State, a: Action, t: State, j: nat)
    requires Step(s, a) == Some(t) && j < |t.workers|
    requires j < |s.workers| ==> ListingOk(s, s.workers[j])
    ensures ListingOk(t, t.workers[j])
  {
    RowsKept(s, a, t);
    WorkersAfter(s, a, t, j);
    if j < |s.workers| && a.Advance? && a.i == j {
      AdvancedListingOk(s, a, t);
    } else if j < |s.workers| {
      ListingStaysOk(s, t, s.workers[j]);
    }
  }

  lemma RowsKept(s: State, a: Action, t: State)
    requires Step(s, a) == Some(t)
    ensures forall r :: r in s.rows ==> r in t.rows
  {
  }

  lemma ListingStaysOk(s: State, t: State, w: Worker)
    requires ListingOk(s, w) && forall r :: r in s.rows ==> r in t.rows
    ensures ListingOk(t, w)
  {
    if Listed(w.pc).Some? {
      forall b | b in Listed(w.pc).value
        ensures HasAgent(t.rows, w.shape.project, b)
      {
        assert HasAgent(s.rows, w.shape.project, b);
      }
    }
  }

  lemma AdvancedListingOk(s: State, a: Action, t: State)
    requires a.Advance? && Step(s, a) == Some(t) && a.i < |s.workers| && ListingOk(s, s.workers[a.i])
    ensures ListingOk(t, t.workers[a.i])
  {
    var w, u := s.workers[a.i], t.workers[a.i];
    if Listed(u.pc).Some? {
      ListingAfter(s, a, t);
      WorkersAfter(s, a, t, a.i);
      AgentsAreListed(s.rows, w.shape.project);
      if u.pc.Writing? {
        assert Listed(w.pc) == Listed(u.pc);
      }
    }
  }

  lemma {:induction false} RunListingOk(states: seq<State>, actions: seq<Action>, k: nat)
    requires IsRun(states, actions) && k < |states|
    ensures forall j :: 0 <= j < |states[k].workers| ==> ListingOk(states[k], states[k].workers[j])
  {
    if k > 0 {
      RunListingOk(states, actions, k - 1);
      forall j | 0 <= j < |states[k].workers|
        ensures ListingOk(states[k], states[k].workers[j])
      {
        ListingOkStep(states[k - 1], actions[k - 1], states[k], j);
      }
    }
  }

  // ---- the written row --------------------------------------------------------------

  /** The row a write appends: the worker's own shape, under the agent classified or under a new one. */
  ghost predicate WritesAnswer(before: seq<VersionRow>, w: Worker, after: seq<VersionRow>) {
    w.pc.Writing? &&
    match w.pc.decision
    case ExistingAgent(a) =>
      && a in w.pc.listed && HasAgent(before, w.shape.project, a)
      && after == before + [VersionRow(w.shape.project, w.shape.hash, a)]
    case NewAgent =>
      exists a :: !AgentInUse(before, a) && after == before + [VersionRow(w.shape.project, w.shape.hash, a)]
  }

  /**
    A row appears only at a write, and it is the answer: the classified agent of
    the project, or an agent no row held before.
   */
  lemma NewRowIsTheAnswer(states: seq<State>, actions: seq<Action>, k: nat)
    requires IsRun(states, actions) && k < |actions|
    requires states[k + 1].rows != states[k].rows
    ensures actions[k].Advance? && actions[k].ok && AtWrite(states[k], actions[k].i)
    ensures WritesAnswer(states[k].rows, states[k].workers[actions[k].i], states[k + 1].rows)
  {
    var s, a, t := states[k], actions[k], states[k + 1];
    RunListingOk(states, actions, k);
    assert Step(s, a) == Some(t);
    RowsChangeAtWrite(s, a, t);
    var w := s.workers[a.i];
    assert ListingOk(s, w);
    if w.pc.decision.NewAgent? {
      assert !AgentInUse(s.rows, a.pick);
    }
  }

  lemma RowsChangeAtWrite(s: State, a: Action, t: State)
    requires Step(s, a) == Some(t) && t.rows != s.rows
    ensures a.Advance? && a.ok && AtWrite(s, a.i) && !Known(s.rows, s.workers[a.i].shape)
  {
  }

  /** Conversely a write that does not fail records the answer, unless the shape is already recorded. */
  lemma WriteRecordsAnswer(states: seq<State>, actions: seq<Action>, k: nat)
    requires IsRun(states, actions) && k < |actions|
    requires actions[k].Advance? && actions[k].ok && AtWrite(states[k], actions[k].i)
    requires var shape := states[k].workers[actions[k].i].shape; forall b :: !Recorded(states[k].rows, shape, b)
    ensures WritesAnswer(states[k].rows, states[k].workers[actions[k].i], states[k + 1].rows)
  {
    var s, a := states[k], actions[k];
    assert Step(s, a) == Some(states[k + 1]);
    var shape := s.workers[a.i].shape;
    if r :| r in s.rows && r.project == shape.project && r.hash == shape.hash {
      assert Recorded(s.rows, shape, r.agent);
    }
    NewRowIsTheAnswer(states, actions, k);
  }

  ghost predicate NewAgentWritten(s: State, a: Action, project: string) {
    && a.Advance? && a.ok && AtWrite(s, a.i)
    && s.workers[a.i].shape.project == project && s.workers[a.i].pc.decision.NewAgent?
    && !Known(s.rows, s.workers[a.i].shape)
  }

  /** A project gains an agent exactly at the write of a `NewAgent` answer, one at a time, and never loses one. */
  lemma AgentGainedIffNewAgentWritten(states: seq<State>, actions: seq<Action>, k: nat, project: string)
    requires IsRun(states, actions) && k < |actions|
    ensures forall b :: HasAgent(states[k].rows, project, b) ==> HasAgent(states[k + 1].rows, project, b)
    ensures (exists b :: HasAgent(states[k + 1].rows, project, b) && !HasAgent(states[k].rows, project, b))
       <==> NewAgentWritten(states[k], actions[k], project)
    ensures forall b, c ::
      (&& HasAgent(states[k + 1].rows, project, b) && !HasAgent(states[k].rows, project, b)
       && HasAgent(states[k + 1].rows, project, c) && !HasAgent(states[k].rows, project, c)) ==> b == c
  {
    var s, a, t := states[k], actions[k], states[k + 1];
    assert Step(s, a) == Some(t);
    RowsKept(s, a, t);
    if t.rows != s.rows {
      NewRowIsTheAnswer(states, actions, k);
      AgentsAfter(s.rows, s.workers[a.i], t.rows, project);
      RowsChangeAtWrite(s, a, t);
    }
  }

  lemma AgentsAfter(before: seq<VersionRow>, w: Worker, after: seq<VersionRow>, project: string)
    requires WritesAnswer(before, w, after)
    ensures forall b :: HasAgent(after, project, b) && !HasAgent(before, project, b) ==>
      b == after[|before|].agent && w.pc.decision.NewAgent? && w.shape.project == project
    ensures w.pc.decision.NewAgent? && w.shape.project == project ==>
      HasAgent(after, project, after[|before|].agent) && !HasAgent(before, project, after[|before|].agent)
  {
    var row := after[|before|];
    assert row in after;
    forall b | HasAgent(after, project, b) && !HasAgent(before, project, b)
      ensures b == row.agent && w.pc.decision.NewAgent? && w.shape.project == project
    {
      var r :| r in after && r.project == project && r.agent == b;
      assert r in before || r == row;
    }
  }

  // ---- where the answer came from -----------------------------------------------------

  /** An answer at its write is the one the classifier gave, on a listing it was shown. */
  lemma {:induction false} AnswerWasGiven(states: seq<State>, actions: seq<Action>, k: nat, i: nat) returns (m: nat)
    requires IsRun(states, actions) && k < |states| && AtWrite(states[k], i)
    ensures m < k && i < |states[m].workers| && states[m].workers[i].shape == states[k].workers[i].shape
    ensures states[m].workers[i].pc == Classifying(states[k].workers[i].pc.listed)
    ensures actions[m].Advance? && actions[m].i == i && actions[m].ok
    ensures actions[m].decision == states[k].workers[i].pc.decision
  {
    var s, a := states[k - 1], actions[k - 1];
    WorkersAfter(s, a, states[k], i);
    if a.Advance? && a.i == i {
      ListingAfter(s, a, states[k]);
      m := k - 1;
    } else {
      m := AnswerWasGiven(states, actions, k - 1, i);
    }
  }

  /** A listing holds exactly the agents the project had in the table when it was read. */
  lemma {:induction false} ListingWasRead(states: seq<State>, actions: seq<Action>, k: nat, i: nat) returns (m: nat)
    requires IsRun(states, actions) && k < |states|
    requires i < |states[k].workers| && Listed(states[k].workers[i].pc).Some?
    ensures m < k && i < |states[m].workers| && states[m].workers[i].shape == states[k].workers[i].shape
    ensures states[m].workers[i].pc.Listing?
    ensures forall b ::
      b in Listed(states[k].workers[i].pc).value <==> HasAgent(states[m].rows, states[k].workers[i].shape.project, b)
  {
    var s, a := states[k - 1], actions[k - 1];
    WorkersAfter(s, a, states[k], i);
    if a.Advance? && a.i == i {
      ListingAfter(s, a, states[k]);
      AgentsAreListed(s.rows, s.workers[i].shape.project);
    }
    if Listed(s.workers[i].pc) == Listed(states[k].workers[i].pc) {
      m := ListingWasRead(states, actions, k - 1, i);
    } else {
      m := k - 1;
    }
  }

  lemma AgentsAreListed(rows: seq<VersionRow>, project: string)
    ensures forall b :: b in AgentsOf(rows, project) <==> HasAgent(rows, project, b)
  {
  }

  // ---- who gets to the classifier -------------------------------------------------------

  /** A shape that is recorded never takes the lock; the agent it is recorded under is the one handed on. */
  lemma RecordedShapeTakesNoLock(s: State, i: nat, pick: Id, decision: Classification, agent: Id, t: State)
    requires i < |s.workers| && s.workers[i].pc.FastDb? && Recorded(s.rows, s.workers[i].shape, agent)
    requires Step(s, Advance(i, true, pick, decision)) == Some(t)
    ensures t.workers[i].pc == FastFill(pick) && Recorded(s.rows, s.workers[i].shape, pick) && t.locks == s.locks
  {
    var shape := s.workers[i].shape;
    assert VersionRow(shape.project, shape.hash, agent) in s.rows;
  }

  /** A worker enters the section of its project exactly if nobody holds the lock, and then holds it for 60 seconds. */
  lemma EntersIffLockFree(s: State, i: nat, pick: Id, decision: Classification, t: State)
    requires i < |s.workers| && s.workers[i].pc.Acquiring? && Step(s, Advance(i, true, pick, decision)) == Some(t)
    ensures var key := LockKey(s.workers[i].shape.project);
      if key in s.locks && s.now < s.locks[key] then t.workers[i].pc == Dropped
      else t.workers[i].pc == CheckCache && key in t.locks && t.locks[key] == s.now + 60
  {
  }
}
