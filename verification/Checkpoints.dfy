/**
  Agent versioning as a protocol: any number of workers, each handling one
  checkpoint, over the version table, a read-through cache and a per-project
  lock. One action is one await point of the handler. The table's primary key
  makes the insert of a known shape fail.
 */
module Checkpoints {
  import opened Common
  import opened LockTable

  const AGENT_CLASSIFY_LOCK_CACHE_KEY := "agent_classify_lock"
  const AGENT_CLASSIFY_LOCK_TTL_SECONDS: nat := 60

  type Id = nat

  datatype VersionRow = VersionRow(project: string, hash: string, agent: Id)

  datatype Shape = Shape(project: string, hash: string)

  /** What the classifier answers: a new agent, or one of those it was shown. */
  datatype Classification = NewAgent | ExistingAgent(agent: Id)

  datatype Pc =
    | FastCache | FastDb | FastFill(agent: Id)
    | Acquiring
    | CheckCache | CheckDb | CheckFill(agent: Id)
    | Tools | Listing | Classifying(listed: set<Id>)
    | Writing(listed: set<Id>, decision: Classification)
    | FillCache(agent: Id)
    | Releasing(result: Option<Id>)
    | Done(agent: Id) | Dropped | Failed

  /** `acquiredAt` is meaningful inside the critical section only. */
  datatype Worker = Worker(shape: Shape, pc: Pc, acquiredAt: nat)

  datatype State = State(
    now: nat,
    locks: Locks,
    rows: seq<VersionRow>,
    cache: map<Shape, Id>,
    workers: seq<Worker>)

  const INIT := State(0, map[], [], map[], [])

  function LockKey(project: string): string {
    AGENT_CLASSIFY_LOCK_CACHE_KEY + ":" + project
  }

  lemma LockKeysDiffer(p: string, q: string)
    requires p != q
    ensures LockKey(p) != LockKey(q)
  {
    var n := |AGENT_CLASSIFY_LOCK_CACHE_KEY| + 1;
    assert LockKey(p)[n..] == p && LockKey(q)[n..] == q;
  }

  ghost predicate Recorded(rows: seq<VersionRow>, shape: Shape, agent: Id) {
    VersionRow(shape.project, shape.hash, agent) in rows
  }

  predicate Known(rows: seq<VersionRow>, shape: Shape) {
    exists r :: r in rows && r.project == shape.project && r.hash == shape.hash
  }

  function AgentsOf(rows: seq<VersionRow>, project: string): set<Id> {
    set r | r in rows && r.project == project :: r.agent
  }

  predicate InCriticalSection(pc: Pc) {
    || pc.CheckCache? || pc.CheckDb? || pc.CheckFill? || pc.Tools? || pc.Listing?
    || pc.Classifying? || pc.Writing? || pc.FillCache? || pc.Releasing?
  }

  // ---- actions -------------------------------------------------------------------

  /** `ok` is false where a call returns an error; `pick` is the id a query or insert returns. */
  datatype Action =
    | Arrive(shape: Shape)
    | Advance(i: nat, ok: bool, pick: Id, decision: Classification)
    | Evict(shape: Shape)
    | OtherLock(key: string, ttl: nat)
    | Tick

  function Set(s: State, i: nat, pc: Pc): State
    requires i < |s.workers|
  {
    s.(workers := s.workers[i := s.workers[i].(pc := pc)])
  }

  /** Reading the cache, in both of its places: an error reads as a miss. */
  function ReadCache(s: State, i: nat, ok: bool, hit: Id -> Pc, miss: Pc): State
    requires i < |s.workers|
  {
    var shape := s.workers[i].shape;
    if ok && shape in s.cache then Set(s, i, hit(s.cache[shape])) else Set(s, i, miss)
  }

  /** Looking the shape up in the table: any matching row may be returned. */
  function ReadDb(s: State, i: nat, ok: bool, pick: Id, hit: Id -> Pc, miss: Pc, error: Pc): Option<State>
    requires i < |s.workers|
  {
    var shape := s.workers[i].shape;
    if !ok then Some(Set(s, i, error))
    else if !Known(s.rows, shape) then Some(Set(s, i, miss))
    else if VersionRow(shape.project, shape.hash, pick) in s.rows then Some(Set(s, i, hit(pick)))
    else None
  }

  /** A best-effort cache write. */
  function WriteCache(s: State, i: nat, ok: bool, agent: Id, next: Pc): State
    requires i < |s.workers|
  {
    var t := Set(s, i, next);
    if ok then t.(cache := t.cache[s.workers[i].shape := agent]) else t
  }

  function InsertRow(s: State, i: nat, agent: Id): State
    requires i < |s.workers|
  {
    var shape := s.workers[i].shape;
    Set(s, i, FillCache(agent)).(rows := s.rows + [VersionRow(shape.project, shape.hash, agent)])
  }

  function StepFast(s: State, i: nat, ok: bool, pick: Id): Option<State>
    requires i < |s.workers|
  {
    var w := s.workers[i];
    match w.pc
    case FastCache => Some(ReadCache(s, i, ok, (a: Id) => Done(a), FastDb))
    case FastDb => ReadDb(s, i, ok, pick, (a: Id) => FastFill(a), Acquiring, Failed)
    case FastFill(agent) => Some(WriteCache(s, i, ok, agent, Done(agent)))
    case Acquiring =>
      var key := LockKey(w.shape.project);
      if !ok then Some(Set(s, i, Dropped))
      else
        var t := s.(locks := AfterAcquire(s.locks, key, s.now, AGENT_CLASSIFY_LOCK_TTL_SECONDS));
        if Held(s.locks, key, s.now) then Some(Set(t, i, Dropped))
        else Some(t.(workers := t.workers[i := w.(pc := CheckCache, acquiredAt := s.now)]))
    case _ => None
  }

  function StepLocked(s: State, i: nat, ok: bool, pick: Id, decision: Classification): Option<State>
    requires i < |s.workers|
  {
    var w := s.workers[i];
    match w.pc
    case CheckCache => Some(ReadCache(s, i, ok, (a: Id) => Releasing(Some(a)), CheckDb))
    case CheckDb => ReadDb(s, i, ok, pick, (a: Id) => CheckFill(a), Tools, Releasing(None))
    case CheckFill(agent) => Some(WriteCache(s, i, ok, agent, Releasing(Some(agent))))
    case Tools => Some(Set(s, i, if ok then Listing else Releasing(None)))
    case Listing => Some(Set(s, i, if ok then Classifying(AgentsOf(s.rows, w.shape.project)) else Releasing(None)))
    case Classifying(listed) =>
      if !ok then Some(Set(s, i, Releasing(None)))
      else if decision.ExistingAgent? && decision.agent !in listed then None
      else Some(Set(s, i, Writing(listed, decision)))
    case Writing(_, verdict) =>
      if !ok || Known(s.rows, w.shape) then Some(Set(s, i, Releasing(None)))
      else if verdict.ExistingAgent? then Some(InsertRow(s, i, verdict.agent))
      else if exists r :: r in s.rows && r.agent == pick then None
      else Some(InsertRow(s, i, pick))
    case FillCache(agent) => Some(WriteCache(s, i, ok, agent, Releasing(Some(agent))))
    case Releasing(result) =>
      var t := Set(s, i, match result case Some(a) => Done(a) case None => Failed);
      Some(if ok then t.(locks := AfterRelease(s.locks, LockKey(w.shape.project))) else t)
    case _ => None
  }

  function Step(s: State, a: Action): Option<State> {
    match a
    case Arrive(shape) => Some(s.(workers := s.workers + [Worker(shape, FastCache, 0)]))
    case Advance(i, ok, pick, decision) =>
      if i >= |s.workers| then None
      else if InCriticalSection(s.workers[i].pc) then StepLocked(s, i, ok, pick, decision)
      else StepFast(s, i, ok, pick)
    case Evict(shape) => Some(s.(cache := s.cache - {shape}))
    case OtherLock(key, ttl) =>
      if exists w :: w in s.workers && key == LockKey(w.shape.project) then None
      else Some(s.(locks := AfterAcquire(s.locks, key, s.now, ttl)))
    case Tick => Some(s.(now := s.now + 1))
  }

  /** Time passes only while every critical section still has time before its lock's TTL. */
  predicate InTime(s: State, a: Action) {
    a.Tick? ==> forall i :: 0 <= i < |s.workers| && InCriticalSection(s.workers[i].pc) ==>
      s.now + 1 < s.workers[i].acquiredAt + AGENT_CLASSIFY_LOCK_TTL_SECONDS
  }

  /** The states a run passes through, first to last. */
  ghost predicate IsRun(states: seq<State>, actions: seq<Action>) {
    && |states| == |actions| + 1
    && states[0] == INIT
    && (forall k :: 0 <= k < |actions| ==> Step(states[k], actions[k]) == Some(states[k + 1]))
  }

  /** Moreover every critical section ends within its lock's TTL. */
  ghost predicate IsInTimeRun(states: seq<State>, actions: seq<Action>) {
    IsRun(states, actions) && forall k :: 0 <= k < |actions| ==> InTime(states[k], actions[k])
  }

  // ---- the invariant -----------------------------------------------------------------

  ghost predicate RowsUnique(rows: seq<VersionRow>) {
    forall i, j :: 0 <= i < j < |rows| ==> !(rows[i].project == rows[j].project && rows[i].hash == rows[j].hash)
  }

  /** The agent a worker has in hand was read from, or written to, the table. */
  ghost predicate AgentInHand(rows: seq<VersionRow>, w: Worker) {
    match w.pc
    case FastFill(a) => Recorded(rows, w.shape, a)
    case CheckFill(a) => Recorded(rows, w.shape, a)
    case FillCache(a) => Recorded(rows, w.shape, a)
    case Releasing(Some(a)) => Recorded(rows, w.shape, a)
    case Done(a) => Recorded(rows, w.shape, a)
    case _ => true
  }

  predicate PastRecheck(pc: Pc) { pc.Tools? || pc.Listing? || pc.Classifying? || pc.Writing? }

  function Listed(pc: Pc): Option<set<Id>> {
    match pc
    case Classifying(listed) => Some(listed)
    case Writing(listed, _) => Some(listed)
    case _ => None
  }

  /** A worker inside the critical section: its lock is live, its shape unknown once rechecked, its listing current. */
  ghost predicate SectionOk(s: State, w: Worker) {
    InCriticalSection(w.pc) ==>
      && LockKey(w.shape.project) in s.locks
      && s.locks[LockKey(w.shape.project)] == w.acquiredAt + AGENT_CLASSIFY_LOCK_TTL_SECONDS
      && s.now < w.acquiredAt + AGENT_CLASSIFY_LOCK_TTL_SECONDS
      && (PastRecheck(w.pc) ==> !Known(s.rows, w.shape))
      && (Listed(w.pc).Some? ==> Listed(w.pc).value == AgentsOf(s.rows, w.shape.project))
  }

  ghost predicate Exclusive(workers: seq<Worker>) {
    forall i, j :: 0 <= i < j < |workers| && InCriticalSection(workers[i].pc) && InCriticalSection(workers[j].pc) ==>
      workers[i].shape.project != workers[j].shape.project
  }

  ghost predicate CacheOk(s: State) {
    forall shape :: shape in s.cache ==> Recorded(s.rows, shape, s.cache[shape])
  }

  ghost predicate Inv(s: State) {
    && RowsUnique(s.rows)
    && CacheOk(s)
    && Exclusive(s.workers)
    && (forall w :: w in s.workers ==> AgentInHand(s.rows, w) && SectionOk(s, w))
  }

  /** What a worker's own step has to establish when the table and the lock of its project stay as they are. */
  lemma QuietStep(s: State, t: State, i: nat)
    requires Inv(s) && i < |s.workers|
    requires t.rows == s.rows && t.now == s.now && t.locks == s.locks
    requires |t.workers| == |s.workers| && forall j :: 0 <= j < |s.workers| && j != i ==> t.workers[j] == s.workers[j]
    requires t.workers[i].shape == s.workers[i].shape
    requires InCriticalSection(t.workers[i].pc) ==> InCriticalSection(s.workers[i].pc)
    requires CacheOk(t) && AgentInHand(t.rows, t.workers[i]) && SectionOk(t, t.workers[i])
    ensures Inv(t)
  {
    forall w | w in t.workers
      ensures AgentInHand(t.rows, w) && SectionOk(t, w)
    {
      var j :| 0 <= j < |t.workers| && t.workers[j] == w;
      if j != i {
        assert s.workers[j] in s.workers;
      }
    }
  }

  lemma FastStepInv(s: State, i: nat, ok: bool, pick: Id)
    requires Inv(s) && i < |s.workers| && !s.workers[i].pc.Acquiring? && StepFast(s, i, ok, pick).Some?
    ensures Inv(StepFast(s, i, ok, pick).value)
  {
    assert s.workers[i] in s.workers;
    QuietStep(s, StepFast(s, i, ok, pick).value, i);
  }

  lemma AcquireStepInv(s: State, i: nat, ok: bool, pick: Id)
    requires Inv(s) && i < |s.workers| && s.workers[i].pc.Acquiring? && StepFast(s, i, ok, pick).Some?
    ensures Inv(StepFast(s, i, ok, pick).value)
  {
    var w := s.workers[i];
    var key := LockKey(w.shape.project);
    var t := StepFast(s, i, ok, pick).value;
    assert w in s.workers;
    forall v | v in t.workers
      ensures AgentInHand(t.rows, v) && SectionOk(t, v)
    {
      var j :| 0 <= j < |t.workers| && t.workers[j] == v;
      if j != i {
        assert v in s.workers;
        if InCriticalSection(v.pc) {
          assert Held(s.locks, LockKey(v.shape.project), s.now);
        }
      }
    }
    forall j | 0 <= j < |t.workers| && j != i
            && InCriticalSection(t.workers[j].pc) && InCriticalSection(t.workers[i].pc)
      ensures t.workers[j].shape.project != w.shape.project
    {
      assert s.workers[j] in s.workers;
      assert Held(s.locks, LockKey(s.workers[j].shape.project), s.now);
    }
  }

  lemma LockedStepInv(s: State, i: nat, ok: bool, pick: Id, decision: Classification)
    requires Inv(s) && i < |s.workers| && StepLocked(s, i, ok, pick, decision).Some?
    requires !s.workers[i].pc.Writing? && !s.workers[i].pc.Releasing?
    ensures Inv(StepLocked(s, i, ok, pick, decision).value)
  {
    assert s.workers[i] in s.workers;
    QuietStep(s, StepLocked(s, i, ok, pick, decision).value, i);
  }

  /** Only the lock holder of a project writes its rows, so nobody else's view of the project is disturbed. */
  lemma InsertStepInv(s: State, i: nat, agent: Id)
    requires Inv(s) && i < |s.workers| && s.workers[i].pc.Writing?
    ensures Inv(InsertRow(s, i, agent))
  {
    var w := s.workers[i];
    var t := InsertRow(s, i, agent);
    assert w in s.workers;
    var row := VersionRow(w.shape.project, w.shape.hash, agent);
    assert t.rows == s.rows + [row];
    assert forall r :: r in t.rows <==> r in s.rows || r == row;
    assert RowsUnique(t.rows) by {
      assert forall j :: 0 <= j < |s.rows| ==> s.rows[j] in s.rows;
    }
    forall v | v in t.workers
      ensures AgentInHand(t.rows, v) && SectionOk(t, v)
    {
      var j :| 0 <= j < |t.workers| && t.workers[j] == v;
      if j != i {
        assert v in s.workers;
        if InCriticalSection(v.pc) {
          assert v.shape.project != w.shape.project;
          assert AgentsOf(t.rows, v.shape.project) == AgentsOf(s.rows, v.shape.project);
        }
      }
    }
  }

  lemma ReleaseStepInv(s: State, i: nat, ok: bool, pick: Id, decision: Classification)
    requires Inv(s) && i < |s.workers| && s.workers[i].pc.Releasing?
    ensures Inv(StepLocked(s, i, ok, pick, decision).value)
  {
    var w := s.workers[i];
    var t := StepLocked(s, i, ok, pick, decision).value;
    assert w in s.workers;
    forall v | v in t.workers
      ensures AgentInHand(t.rows, v) && SectionOk(t, v)
    {
      var j :| 0 <= j < |t.workers| && t.workers[j] == v;
      if j != i {
        assert v in s.workers;
        if InCriticalSection(v.pc) {
          assert v.shape.project != w.shape.project;
          LockKeysDiffer(v.shape.project, w.shape.project);
        }
      }
    }
  }

  lemma EnvironmentStepInv(s: State, a: Action)
    requires Inv(s) && InTime(s, a) && !a.Advance? && Step(s, a).Some?
    ensures Inv(Step(s, a).value)
  {
    var t := Step(s, a).value;
    forall v | v in t.workers
      ensures AgentInHand(t.rows, v) && SectionOk(t, v)
    {
      if v in s.workers {
        var j :| 0 <= j < |s.workers| && s.workers[j] == v;
        assert InCriticalSection(v.pc) ==> Held(s.locks, LockKey(v.shape.project), s.now);
      }
    }
  }

  lemma StepInv(s: State, a: Action)
    requires Inv(s) && InTime(s, a) && Step(s, a).Some?
    ensures Inv(Step(s, a).value)
  {
    match a
    case Advance(i, ok, pick, decision) =>
      var pc := s.workers[i].pc;
      if pc.Writing? {
        if !ok {
          assert s.workers[i] in s.workers;
          QuietStep(s, Step(s, a).value, i);
        } else {
          assert s.workers[i] in s.workers && !Known(s.rows, s.workers[i].shape);
          InsertStepInv(s, i, if pc.decision.ExistingAgent? then pc.decision.agent else pick);
        }
      } else if pc.Releasing? {
        ReleaseStepInv(s, i, ok, pick, decision);
      } else if InCriticalSection(pc) {
        LockedStepInv(s, i, ok, pick, decision);
      } else if pc.Acquiring? {
        AcquireStepInv(s, i, ok, pick);
      } else {
        FastStepInv(s, i, ok, pick);
      }
    case _ => EnvironmentStepInv(s, a);
  }

  lemma {:induction false} RunInv(states: seq<State>, actions: seq<Action>, k: nat)
    requires IsInTimeRun(states, actions) && k < |states|
    ensures Inv(states[k])
  {
    if k > 0 {
      RunInv(states, actions, k - 1);
      StepInv(states[k - 1], actions[k - 1]);
    }
  }

  // ---- what holds of the table whatever the timing -----------------------------------------

  /** The part of the invariant that needs no lock: the primary key and immutable rows carry it. */
  ghost predicate TableInv(s: State) {
    RowsUnique(s.rows) && CacheOk(s) && forall w :: w in s.workers ==> AgentInHand(s.rows, w)
  }

  /** More rows, and a worker and a cache entry that speak of them. */
  lemma TableStep(s: State, t: State, i: nat)
    requires TableInv(s) && i < |s.workers| == |t.workers|
    requires t.workers == s.workers[i := t.workers[i]]
    requires s.rows <= t.rows && RowsUnique(t.rows)
    requires CacheOk(t) && AgentInHand(t.rows, t.workers[i])
    ensures TableInv(t)
  {
    assert forall r :: r in s.rows ==> r in t.rows;
    forall w | w in t.workers
      ensures AgentInHand(t.rows, w)
    {
      assert w in s.workers || w == t.workers[i];
    }
  }

  /** The same for a step that leaves the table as it is. */
  lemma QuietTableStep(s: State, t: State, i: nat)
    requires TableInv(s) && t.rows == s.rows && i < |s.workers| == |t.workers|
    requires forall j :: 0 <= j < |s.workers| && j != i ==> t.workers[j] == s.workers[j]
    requires CacheOk(t) && AgentInHand(t.rows, t.workers[i])
    ensures TableInv(t)
  {
    assert t.workers == s.workers[i := t.workers[i]];
    TableStep(s, t, i);
  }

  lemma InsertKeepsTable(s: State, i: nat, agent: Id)
    requires TableInv(s) && i < |s.workers| && s.workers[i].pc.Writing? && !Known(s.rows, s.workers[i].shape)
    ensures TableInv(InsertRow(s, i, agent))
  {
    var t := InsertRow(s, i, agent);
    assert forall j :: 0 <= j < |s.rows| ==> s.rows[j] in s.rows;
    assert forall r :: r in s.rows ==> r in t.rows;
    assert t.rows[|s.rows|] in t.rows;
    TableStep(s, t, i);
  }

  lemma FastKeepsTable(s: State, i: nat, ok: bool, pick: Id)
    requires TableInv(s) && i < |s.workers| && StepFast(s, i, ok, pick).Some?
    ensures TableInv(StepFast(s, i, ok, pick).value)
  {
    assert s.workers[i] in s.workers;
    QuietTableStep(s, StepFast(s, i, ok, pick).value, i);
  }

  lemma WritingKeepsTable(s: State, i: nat, ok: bool, pick: Id, decision: Classification)
    requires TableInv(s) && i < |s.workers| && s.workers[i].pc.Writing?
    requires StepLocked(s, i, ok, pick, decision).Some?
    ensures TableInv(StepLocked(s, i, ok, pick, decision).value)
  {
    var w := s.workers[i];
    if ok && !Known(s.rows, w.shape) {
      InsertKeepsTable(s, i, if w.pc.decision.ExistingAgent? then w.pc.decision.agent else pick);
    } else {
      QuietTableStep(s, StepLocked(s, i, ok, pick, decision).value, i);
    }
  }

  lemma LookupKeepsTable(s: State, i: nat, ok: bool, pick: Id, decision: Classification)
    requires TableInv(s) && i < |s.workers| && (s.workers[i].pc.CheckCache? || s.workers[i].pc.CheckDb?)
    requires StepLocked(s, i, ok, pick, decision).Some?
    ensures TableInv(StepLocked(s, i, ok, pick, decision).value)
  {
    QuietTableStep(s, StepLocked(s, i, ok, pick, decision).value, i);
  }

  lemma LockedKeepsTable(s: State, i: nat, ok: bool, pick: Id, decision: Classification)
    requires TableInv(s) && i < |s.workers| && StepLocked(s, i, ok, pick, decision).Some?
    requires !s.workers[i].pc.Writing? && !s.workers[i].pc.CheckCache? && !s.workers[i].pc.CheckDb?
    ensures TableInv(StepLocked(s, i, ok, pick, decision).value)
  {
    assert s.workers[i] in s.workers;
    QuietTableStep(s, StepLocked(s, i, ok, pick, decision).value, i);
  }

  lemma {:induction false} RunTableInv(states: seq<State>, actions: seq<Action>, k: nat)
    requires IsRun(states, actions) && k < |states|
    ensures TableInv(states[k])
  {
    if k > 0 {
      RunTableInv(states, actions, k - 1);
      var s, a := states[k - 1], actions[k - 1];
      assert Step(s, a) == Some(states[k]);
      if a.Advance? {
        if s.workers[a.i].pc.Writing? {
          WritingKeepsTable(s, a.i, a.ok, a.pick, a.decision);
        } else if s.workers[a.i].pc.CheckCache? || s.workers[a.i].pc.CheckDb? {
          LookupKeepsTable(s, a.i, a.ok, a.pick, a.decision);
        } else if InCriticalSection(s.workers[a.i].pc) {
          LockedKeepsTable(s, a.i, a.ok, a.pick, a.decision);
        } else {
          FastKeepsTable(s, a.i, a.ok, a.pick);
        }
      }
    }
  }

  // ---- the theorems ---------------------------------------------------------------------

  /** Rows are only ever appended: a version keeps its agent for good. */
  lemma {:induction false} RowsOnlyGrow(states: seq<State>, actions: seq<Action>, j: nat, k: nat)
    requires IsRun(states, actions) && j <= k < |states|
    ensures states[j].rows <= states[k].rows
  {
    if j < k {
      RowsOnlyGrow(states, actions, j, k - 1);
      assert Step(states[k - 1], actions[k - 1]) == Some(states[k]);
    }
  }

  /**
    In every interleaving, whether critical sections end in time or not: a
    (project, hash) has at most one version row, with the same agent ever after,
    and whatever a cache entry or a finished worker says about it is that agent.
   */
  lemma OneAgentPerShape(states: seq<State>, actions: seq<Action>, j: nat, k: nat, shape: Shape, a: Id, b: Id)
    requires IsRun(states, actions) && j <= k < |states|
    requires Recorded(states[j].rows, shape, a)
    requires Recorded(states[k].rows, shape, b)
          || (shape in states[k].cache && states[k].cache[shape] == b)
          || (exists w :: w in states[k].workers && w.shape == shape && w.pc == Done(b))
    ensures a == b
    ensures multiset(states[k].rows)[VersionRow(shape.project, shape.hash, a)] == 1
  {
    RunTableInv(states, actions, k);
    RowsOnlyGrow(states, actions, j, k);
    assert forall r :: r in states[j].rows ==> r in states[k].rows;
    assert Recorded(states[k].rows, shape, b);
    OneRowPerShape(states[k].rows, shape, a, b);
  }

  lemma OneRowPerShape(rows: seq<VersionRow>, shape: Shape, a: Id, b: Id)
    requires RowsUnique(rows) && Recorded(rows, shape, a) && Recorded(rows, shape, b)
    ensures a == b && multiset(rows)[VersionRow(shape.project, shape.hash, a)] == 1
  {
    var x, y := VersionRow(shape.project, shape.hash, a), VersionRow(shape.project, shape.hash, b);
    var m :| 0 <= m < |rows| && rows[m] == x;
    var n :| 0 <= n < |rows| && rows[n] == y;
    assert rows == rows[..m] + [rows[m]] + rows[m + 1..];
    assert x !in rows[..m] && x !in rows[m + 1..];
  }

  /**
    When sections end in time, at every write the listing the classifier saw is
    still the project's agents, and the shape is still unrecorded: the lock
    alone keeps the insert from ever meeting the primary key.
   */
  lemma ListingIsCurrentAtWrite(states: seq<State>, actions: seq<Action>, k: nat, i: nat)
    requires IsInTimeRun(states, actions) && k < |states| && i < |states[k].workers|
    requires states[k].workers[i].pc.Writing?
    ensures var s := states[k]; var w := s.workers[i];
      w.pc.listed == AgentsOf(s.rows, w.shape.project) && !Known(s.rows, w.shape)
  {
    RunInv(states, actions, k);
    assert states[k].workers[i] in states[k].workers;
  }

  /** Releases go through, and nobody else takes the projects' classify locks. */
  ghost predicate LocksAreReturned(states: seq<State>, actions: seq<Action>)
    requires |states| == |actions| + 1
  {
    forall k :: 0 <= k < |actions| ==> ReturnsLock(states[k], actions[k])
  }

  ghost predicate ReturnsLock(s: State, a: Action) {
    && (a.Advance? && a.i < |s.workers| && s.workers[a.i].pc.Releasing? ==> a.ok)
    && (a.OtherLock? ==> forall p :: a.key != LockKey(p))
  }

  ghost predicate InSectionOf(s: State, project: string) {
    exists i :: 0 <= i < |s.workers| && Occupies(s.workers[i], project)
  }

  predicate Occupies(w: Worker, project: string) {
    InCriticalSection(w.pc) && w.shape.project == project
  }

  /** A step of worker `i` does not take any other worker out of its section. */
  lemma OthersStay(s: State, t: State, i: nat, project: string)
    requires InSectionOf(s, project)
    requires |s.workers| <= |t.workers| && forall j :: 0 <= j < |s.workers| && j != i ==> t.workers[j] == s.workers[j]
    requires i < |s.workers| && Occupies(s.workers[i], project) ==> Occupies(t.workers[i], project)
    ensures InSectionOf(t, project)
  {
    var j :| 0 <= j < |s.workers| && Occupies(s.workers[j], project);
    assert Occupies(t.workers[j], project);
  }

  lemma AdvanceKeepsLockOwned(s: State, i: nat, ok: bool, pick: Id, decision: Classification, project: string)
    requires i < |s.workers| && Step(s, Advance(i, ok, pick, decision)).Some?
    requires s.workers[i].pc.Releasing? ==> ok
    requires LockKey(project) in s.locks ==> InSectionOf(s, project)
    ensures var t := Step(s, Advance(i, ok, pick, decision)).value;
      LockKey(project) in t.locks ==> InSectionOf(t, project)
  {
    var w, t := s.workers[i], Step(s, Advance(i, ok, pick, decision)).value;
    if w.shape.project != project {
      LockKeysDiffer(w.shape.project, project);
    }
    if LockKey(project) in t.locks {
      if LockKey(project) in s.locks {
        OthersStay(s, t, i, project);
      } else {
        assert Occupies(t.workers[i], project);
      }
    }
  }

  /**
    A failed classification cannot freeze its project: a classify lock in the
    table belongs to a worker still in its section.
   */
  lemma {:induction false} NoOrphanedLock(states: seq<State>, actions: seq<Action>, k: nat, project: string)
    requires IsRun(states, actions) && k < |states| && LocksAreReturned(states, actions)
    ensures LockKey(project) in states[k].locks ==> InSectionOf(states[k], project)
  {
    if k > 0 {
      NoOrphanedLock(states, actions, k - 1, project);
      var s, a, t := states[k - 1], actions[k - 1], states[k];
      assert Step(s, a) == Some(t) && ReturnsLock(s, a);
      match a
      case Advance(i, ok, pick, decision) =>
        AdvanceKeepsLockOwned(s, i, ok, pick, decision, project);
      case _ =>
        if LockKey(project) in t.locks {
          OthersStay(s, t, |s.workers|, project);
        }
    }
  }

  /**
    The critical section is left only by releasing: on success and on error
    alike, and a successful release frees the lock.
   */
  lemma SectionEndsWithRelease(s: State, i: nat, ok: bool, pick: Id, decision: Classification)
    requires i < |s.workers| && InCriticalSection(s.workers[i].pc)
    requires Step(s, Advance(i, ok, pick, decision)).Some?
    ensures var t := Step(s, Advance(i, ok, pick, decision)).value;
      !InCriticalSection(t.workers[i].pc) ==>
        && s.workers[i].pc.Releasing?
        && t.workers[i].pc == (match s.workers[i].pc.result case Some(a) => Done(a) case None => Failed)
        && (ok ==> forall later :: !Held(t.locks, LockKey(s.workers[i].shape.project), later))
  {
  }

  /** A worker inside the critical section can always take its next step, whether the call succeeds or fails. */
  lemma SectionNeverBlocks(s: State, i: nat)
    requires i < |s.workers| && InCriticalSection(s.workers[i].pc)
    ensures Step(s, Advance(i, false, 0, NewAgent)).Some?
  {
  }

  /** The steps a worker has left in its critical section, at most. */
  function StepsLeft(pc: Pc): nat {
    match pc
    case CheckCache => 8
    case CheckDb => 7
    case Tools => 6
    case Listing => 5
    case Classifying(_) => 4
    case Writing(_, _) => 3
    case CheckFill(_) => 2
    case FillCache(_) => 2
    case Releasing(_) => 1
    case _ => 0
  }

  function StepsOf(actions: seq<Action>, i: nat, j: nat, k: nat): nat
    requires j <= k <= |actions|
    decreases k
  {
    if j == k then 0
    else StepsOf(actions, i, j, k - 1) + (if actions[k - 1].Advance? && actions[k - 1].i == i then 1 else 0)
  }

  ghost predicate StaysInSection(states: seq<State>, i: nat, j: nat, k: nat)
    requires j <= k < |states|
  {
    forall n :: j <= n <= k ==> i < |states[n].workers| && InCriticalSection(states[n].workers[i].pc)
  }

  lemma {:induction false} SectionIsBounded(states: seq<State>, actions: seq<Action>, i: nat, j: nat, k: nat)
    requires IsRun(states, actions) && j <= k < |states| && StaysInSection(states, i, j, k)
    ensures StepsOf(actions, i, j, k) + StepsLeft(states[k].workers[i].pc) <= StepsLeft(states[j].workers[i].pc)
    decreases k
  {
    if j < k {
      SectionIsBounded(states, actions, i, j, k - 1);
      assert Step(states[k - 1], actions[k - 1]) == Some(states[k]);
      StepCounts(states[k - 1], actions[k - 1], i, states[k]);
    }
  }

  lemma StepCounts(s: State, a: Action, i: nat, t: State)
    requires i < |s.workers| && InCriticalSection(s.workers[i].pc) && Step(s, a) == Some(t)
    ensures i < |t.workers|
    ensures StepsLeft(t.workers[i].pc) + (if a.Advance? && a.i == i then 1 else 0) <= StepsLeft(s.workers[i].pc)
  {
    if a.Advance? && a.i == i {
      OwnStepCounts(s, i, a.ok, a.pick, a.decision);
    } else {
      OtherStepCounts(s, a, i);
    }
  }

  lemma OwnStepCounts(s: State, i: nat, ok: bool, pick: Id, decision: Classification)
    requires i < |s.workers| && InCriticalSection(s.workers[i].pc) && StepLocked(s, i, ok, pick, decision).Some?
    ensures i < |StepLocked(s, i, ok, pick, decision).value.workers|
    ensures StepsLeft(StepLocked(s, i, ok, pick, decision).value.workers[i].pc) < StepsLeft(s.workers[i].pc)
  {
  }

  lemma OtherStepCounts(s: State, a: Action, i: nat)
    requires i < |s.workers| && Step(s, a).Some? && !(a.Advance? && a.i == i)
    ensures i < |Step(s, a).value.workers| && Step(s, a).value.workers[i].pc == s.workers[i].pc
  {
  }

  /**
    A critical section ends: whatever its calls return and whatever others do, a
    worker takes at most seven steps inside before the release, and it can
    always take the next one.
   */
  lemma SectionEnds(states: seq<State>, actions: seq<Action>, i: nat, j: nat, k: nat)
    requires IsRun(states, actions) && j <= k < |states| && StaysInSection(states, i, j, k)
    ensures StepsOf(actions, i, j, k) <= 7
    ensures Step(states[k], Advance(i, false, 0, NewAgent)).Some?
  {
    SectionIsBounded(states, actions, i, j, k);
    SectionNeverBlocks(states[k], i);
  }
}
