/**
  The self-healing Redis connection: a supervisor that redials, a periodic
  health check, and callers that report errors, sharing a flag, a connection
  handle and a one-permit notification. One action is one atomic access or one
  await; handles are numbered in dialling order.
 */
module RedisSupervisor {
  import opened Common

  datatype Supervisor =
    | Waiting | Pinging | StoringTrue
    | StoringFalse | Dialing | Swapping | StoringRestored
    | Rearming

  datatype HealthCheck =
    | Sleeping
    | Probing(snapshot: nat)
    | Comparing(snapshot: nat)
    | Clearing(snapshot: nat)
    | Notifying

  datatype State = State(
    connected: bool,
    permit: bool,
    inner: nat,
    supervisor: Supervisor,
    health: HealthCheck)

  /** `ok` is the outcome of the ping or dial, where the step is one. */
  datatype Action = CallerNotifies | Supervise(ok: bool) | DialGivesUp | CheckHealth(ok: bool)

  const INIT := State(true, false, 0, Waiting, Sleeping)

  function StepSupervisor(s: State, ok: bool): Option<State> {
    match s.supervisor
    case Waiting => if s.permit then Some(s.(permit := false, supervisor := Pinging)) else None
    case Pinging => Some(s.(supervisor := if ok then StoringTrue else StoringFalse))
    case StoringTrue => Some(s.(connected := true, supervisor := Waiting))
    case StoringFalse => Some(s.(connected := false, supervisor := Dialing))
    case Dialing => Some(s.(supervisor := if ok then Swapping else Dialing))
    case Swapping => Some(s.(inner := s.inner + 1, supervisor := StoringRestored))
    case StoringRestored => Some(s.(connected := true, supervisor := Waiting))
    case Rearming => Some(s.(permit := true, supervisor := Waiting))
  }

  function StepHealth(s: State, ok: bool): State {
    match s.health
    case Sleeping => s.(health := Probing(s.inner))
    case Probing(snapshot) => s.(health := if ok then Sleeping else Comparing(snapshot))
    case Comparing(snapshot) => s.(health := if snapshot == s.inner then Clearing(snapshot) else Sleeping)
    case Clearing(_) => s.(connected := false, health := if s.connected then Notifying else Sleeping)
    case Notifying => s.(permit := true, health := Sleeping)
  }

  function Step(s: State, a: Action): Option<State> {
    match a
    case CallerNotifies => Some(s.(permit := true))
    case Supervise(ok) => StepSupervisor(s, ok)
    case DialGivesUp => if s.supervisor.Dialing? then Some(s.(supervisor := Rearming)) else None
    case CheckHealth(ok) => Some(StepHealth(s, ok))
  }

  ghost predicate IsRun(states: seq<State>, actions: seq<Action>) {
    && |states| == |actions| + 1
    && states[0] == INIT
    && forall k :: 0 <= k < |actions| ==> Step(states[k], actions[k]) == Some(states[k + 1])
  }

  // ---- no lost wakeup ----------------------------------------------------------------

  /** Somebody is on the way to repairing the connection. */
  predicate RepairPending(s: State) {
    s.permit || !s.supervisor.Waiting? || s.health.Notifying?
  }

  /** In every interleaving, a connection flagged as down has a repair pending. */
  lemma {:induction false} NoLostWakeup(states: seq<State>, actions: seq<Action>, k: nat)
    requires IsRun(states, actions) && k < |states|
    ensures !states[k].connected ==> RepairPending(states[k])
  {
    if k > 0 {
      NoLostWakeup(states, actions, k - 1);
      assert Step(states[k - 1], actions[k - 1]) == Some(states[k]);
    }
  }

  /** Hence the supervisor can move, at once or right after the health check's notification. */
  lemma RepairIsEnabled(states: seq<State>, actions: seq<Action>, k: nat, ok: bool)
    requires IsRun(states, actions) && k < |states| && !states[k].connected
    ensures StepSupervisor(states[k], ok).Some?
         || (states[k].health.Notifying? && StepSupervisor(StepHealth(states[k], ok), ok).Some?)
  {
    NoLostWakeup(states, actions, k);
  }

  // ---- how long a repair takes -----------------------------------------------------------

  /** Supervisor steps to the next store of `true` when nothing fails. */
  function Remaining(s: Supervisor): (n: nat)
    ensures 1 <= n <= 4
  {
    match s
    case Waiting => 3
    case Pinging => 2
    case StoringTrue => 1
    case StoringFalse => 4
    case Dialing => 3
    case Swapping => 2
    case StoringRestored => 1
    case Rearming => 4
  }

  predicate SupervisorActs(a: Action) { a.Supervise? || a.DialGivesUp? }

  /** A ping or dial of the supervisor that fails. */
  predicate SupervisorFails(s: State, a: Action) {
    || (a == Supervise(false) && (s.supervisor.Pinging? || s.supervisor.Dialing?))
    || a.DialGivesUp?
  }

  function SupervisorSteps(actions: seq<Action>, j: nat, k: nat): nat
    requires j <= k <= |actions|
    decreases k
  {
    if j == k then 0 else SupervisorSteps(actions, j, k - 1) + (if SupervisorActs(actions[k - 1]) then 1 else 0)
  }

  function SupervisorFailures(states: seq<State>, actions: seq<Action>, j: nat, k: nat): nat
    requires j <= k <= |actions| <= |states|
    decreases k
  {
    if j == k then 0
    else
      SupervisorFailures(states, actions, j, k - 1) +
      (if SupervisorFails(states[k - 1], actions[k - 1]) then 1 else 0)
  }

  ghost predicate DownThroughout(states: seq<State>, j: nat, k: nat)
    requires j <= k < |states|
  {
    forall i :: j <= i <= k ==> !states[i].connected
  }

  /**
    However callers and health check interfere, the flag stays down for at
    most three supervisor steps plus three for each of its failed pings and
    dials: once those succeed the connection is reported up again.
   */
  lemma {:induction false} RepairIsBounded(states: seq<State>, actions: seq<Action>, j: nat, k: nat)
    requires IsRun(states, actions) && j <= k < |states| && DownThroughout(states, j, k)
    ensures SupervisorSteps(actions, j, k) + Remaining(states[k].supervisor)
         <= Remaining(states[j].supervisor) + 3 * SupervisorFailures(states, actions, j, k)
    ensures SupervisorSteps(actions, j, k) <= 3 + 3 * SupervisorFailures(states, actions, j, k)
    decreases k
  {
    if j < k {
      RepairIsBounded(states, actions, j, k - 1);
      assert Step(states[k - 1], actions[k - 1]) == Some(states[k]);
    }
  }

  // ---- stale failures -----------------------------------------------------------------------

  /** The supervisor installs a freshly dialled handle. */
  predicate Installs(s: State, a: Action) { a.Supervise? && s.supervisor.Swapping? }

  ghost predicate InstalledBetween(states: seq<State>, actions: seq<Action>, j: nat, k: nat)
    requires j <= k < |states| && |states| == |actions| + 1
  {
    exists i :: j <= i < k && Installs(states[i], actions[i])
  }

  lemma {:induction false} HandleChangesByInstallOnly(states: seq<State>, actions: seq<Action>, j: nat, k: nat)
    requires IsRun(states, actions) && j <= k < |states|
    ensures states[j].inner <= states[k].inner
    ensures states[j].inner == states[k].inner <==> !InstalledBetween(states, actions, j, k)
    decreases k
  {
    if j < k {
      HandleChangesByInstallOnly(states, actions, j, k - 1);
      assert Step(states[k - 1], actions[k - 1]) == Some(states[k]);
      assert Installs(states[k - 1], actions[k - 1]) ==> InstalledBetween(states, actions, j, k);
    }
  }

  /** The health check compares handles at `j` and clears the flag at `k`, doing nothing in between. */
  ghost predicate ComparesThenClears(states: seq<State>, actions: seq<Action>, j: nat, k: nat) {
    && j < k < |actions| && |states| == |actions| + 1
    && states[j].health.Comparing? && actions[j].CheckHealth?
    && states[k].health.Clearing? && actions[k].CheckHealth?
    && (forall i :: j < i < k ==> !actions[i].CheckHealth?)
  }

  lemma {:induction false} HealthWaits(states: seq<State>, actions: seq<Action>, j: nat, k: nat)
    requires IsRun(states, actions) && j <= k < |states|
    requires forall i :: j <= i < k ==> !actions[i].CheckHealth?
    ensures states[j].health == states[k].health
    decreases k
  {
    if j < k {
      HealthWaits(states, actions, j, k - 1);
      assert Step(states[k - 1], actions[k - 1]) == Some(states[k]);
    }
  }

  /**
    The pointer comparison protects a fresh connection exactly when no new
    handle is installed between the comparison and the swap of the flag.
   */
  lemma FailureIsOnCurrentHandleIff(states: seq<State>, actions: seq<Action>, j: nat, k: nat)
    requires IsRun(states, actions) && ComparesThenClears(states, actions, j, k)
    ensures states[k].health.snapshot == states[k].inner <==> !InstalledBetween(states, actions, j + 1, k)
  {
    assert Step(states[j], actions[j]) == Some(states[j + 1]);
    HealthWaits(states, actions, j + 1, k);
    HandleChangesByInstallOnly(states, actions, j + 1, k);
  }

  /** The race exists: a stale failure can clear the flag the supervisor has just restored. */
  lemma StaleFailureCanClearTheFlag() returns (states: seq<State>, actions: seq<Action>)
    ensures IsRun(states, actions)
    ensures exists j: nat, k: nat ::
      && ComparesThenClears(states, actions, j, k) && InstalledBetween(states, actions, j + 1, k)
      && states[k].connected && !states[k + 1].connected
  {
    var check, down, up := CheckHealth(false), Supervise(false), Supervise(true);
    actions := [check, check, CallerNotifies, up, down, up, up, check, up, up, check];
    var s0 := INIT;
    var s1 := s0.(health := Probing(0));
    var s2 := s1.(health := Comparing(0));
    var s3 := s2.(permit := true);
    var s4 := s3.(permit := false, supervisor := Pinging);
    var s5 := s4.(supervisor := StoringFalse);
    var s6 := s5.(connected := false, supervisor := Dialing);
    var s7 := s6.(supervisor := Swapping);
    var s8 := s7.(health := Clearing(0));
    var s9 := s8.(inner := 1, supervisor := StoringRestored);
    var s10 := s9.(connected := true, supervisor := Waiting);
    var s11 := s10.(connected := false, health := Notifying);
    states := [s0, s1, s2, s3, s4, s5, s6, s7, s8, s9, s10, s11];
    assert Installs(states[8], actions[8]);
    assert ComparesThenClears(states, actions, 7, 10);
  }

  // ---- what the health check answers to ------------------------------------------------------

  /** Two steps of the health check with none in between. */
  ghost predicate NextCheck(actions: seq<Action>, j: nat, k: nat) {
    && j < k < |actions| && actions[j].CheckHealth? && actions[k].CheckHealth?
    && (forall i :: j < i < k ==> !actions[i].CheckHealth?)
  }

  lemma CheckFollows(states: seq<State>, actions: seq<Action>, j: nat, k: nat)
    requires IsRun(states, actions) && NextCheck(actions, j, k)
    ensures states[k].health == states[j + 1].health == StepHealth(states[j], actions[j].ok).health
  {
    assert Step(states[j], actions[j]) == Some(states[j + 1]);
    HealthWaits(states, actions, j + 1, k);
  }

  /** One round of the check: it takes the handle at `q`, pings it at `p` and compares at `c`. */
  ghost predicate ChecksRound(states: seq<State>, actions: seq<Action>, q: nat, p: nat, c: nat) {
    && NextCheck(actions, q, p) && NextCheck(actions, p, c)
    && |states| == |actions| + 1 && states[q].health.Sleeping?
  }

  /**
    The check goes on to clear the flag if and only if its ping failed and no
    new handle was installed since it took the one it pinged; a ping that
    succeeds ends the round and leaves everything as it is.
   */
  lemma ClearsIffPingFailed(states: seq<State>, actions: seq<Action>, q: nat, p: nat, c: nat)
    requires IsRun(states, actions) && ChecksRound(states, actions, q, p, c)
    ensures states[p].health == Probing(states[q].inner)
    ensures states[c + 1].health.Clearing? <==> !actions[p].ok && !InstalledBetween(states, actions, q, c)
    ensures actions[p].ok ==> states[p + 1] == states[p].(health := Sleeping)
    ensures !actions[p].ok ==>
      states[c + 1].inner == states[c].inner && states[c + 1].connected == states[c].connected
  {
    CheckFollows(states, actions, q, p);
    CheckFollows(states, actions, p, c);
    assert Step(states[c], actions[c]) == Some(states[c + 1]);
    assert Step(states[p], actions[p]) == Some(states[p + 1]);
    HandleChangesByInstallOnly(states, actions, q, c);
  }

  /**
    A silent death does not go unnoticed: after a failed ping on a handle that
    was not replaced, the next step of the check takes the flag down, and if it
    was still up the one after it wakes the supervisor.
   */
  lemma FailedPingIsFlagged(states: seq<State>, actions: seq<Action>, q: nat, p: nat, c: nat, d: nat)
    requires IsRun(states, actions) && ChecksRound(states, actions, q, p, c) && NextCheck(actions, c, d)
    requires !actions[p].ok && !InstalledBetween(states, actions, q, c)
    ensures !states[d + 1].connected
    ensures states[d].connected ==> forall e :: NextCheck(actions, d, e) ==> states[e + 1].permit
  {
    ClearsIffPingFailed(states, actions, q, p, c);
    CheckFollows(states, actions, c, d);
    assert Step(states[d], actions[d]) == Some(states[d + 1]);
    forall e: nat | states[d].connected && NextCheck(actions, d, e)
      ensures states[e + 1].permit
    {
      CheckFollows(states, actions, d, e);
      assert Step(states[e], actions[e]) == Some(states[e + 1]);
    }
  }

  /** The check's latest ping: on handle `h`, and failed. */
  ghost predicate LatestPingFailed(states: seq<State>, actions: seq<Action>, p: nat, h: nat, k: nat) {
    && p < k <= |actions| < |states|
    && states[p].health == Probing(h) && actions[p] == CheckHealth(false)
    && (forall i :: p < i < k && actions[i].CheckHealth? ==> !states[i].health.Probing?)
  }

  /** Over all runs: about to compare or clear for handle `h`, the check's latest ping was on `h` and failed. */
  lemma {:induction false} ClearingFollowsFailedPing(states: seq<State>, actions: seq<Action>, k: nat) returns (p: nat)
    requires IsRun(states, actions) && k < |states|
    requires states[k].health.Comparing? || states[k].health.Clearing?
    ensures LatestPingFailed(states, actions, p, states[k].health.snapshot, k)
  {
    var s, a := states[k - 1], actions[k - 1];
    assert Step(s, a) == Some(states[k]);
    if a.CheckHealth? && s.health.Probing? {
      p := k - 1;
    } else {
      p := ClearingFollowsFailedPing(states, actions, k - 1);
    }
  }

  // ---- who writes the flag ---------------------------------------------------------------------

  ghost predicate LastSupervised(states: seq<State>, actions: seq<Action>, p: nat, k: nat) {
    && p < k <= |actions| < |states| && SupervisorActs(actions[p])
    && (forall i :: p < i < k ==> !SupervisorActs(actions[i]))
  }

  /** How the supervisor came to be where it is, if it has left its initial place. */
  lemma {:induction false} LastStep(states: seq<State>, actions: seq<Action>, k: nat) returns (p: nat)
    requires IsRun(states, actions) && k < |states| && !states[k].supervisor.Waiting?
    ensures LastSupervised(states, actions, p, k)
    ensures states[p + 1].supervisor == states[k].supervisor
  {
    assert Step(states[k - 1], actions[k - 1]) == Some(states[k]);
    if SupervisorActs(actions[k - 1]) {
      p := k - 1;
    } else {
      p := LastStep(states, actions, k - 1);
    }
  }

  /** The flag goes up only at the supervisor, right after its ping succeeded or it installed a new handle. */
  lemma FlagGoesUpByProof(states: seq<State>, actions: seq<Action>, k: nat) returns (p: nat)
    requires IsRun(states, actions) && k < |actions| && !states[k].connected && states[k + 1].connected
    ensures LastSupervised(states, actions, p, k) && actions[k].Supervise?
    ensures (states[p].supervisor.Pinging? && actions[p] == Supervise(true)) || Installs(states[p], actions[p])
  {
    assert Step(states[k], actions[k]) == Some(states[k + 1]);
    p := LastStep(states, actions, k);
    assert Step(states[p], actions[p]) == Some(states[p + 1]);
  }

  /** A new handle is installed only right after it was dialled. */
  lemma InstalledHandleWasDialled(states: seq<State>, actions: seq<Action>, k: nat) returns (p: nat)
    requires IsRun(states, actions) && k < |actions| && Installs(states[k], actions[k])
    ensures LastSupervised(states, actions, p, k) && states[p].supervisor.Dialing? && actions[p] == Supervise(true)
  {
    p := LastStep(states, actions, k);
    assert Step(states[p], actions[p]) == Some(states[p + 1]);
  }

  /** The flag goes down only for a failed ping, of the supervisor or of the health check. */
  lemma FlagGoesDownForAFailedPing(states: seq<State>, actions: seq<Action>, k: nat) returns (p: nat)
    requires IsRun(states, actions) && k < |actions| && states[k].connected && !states[k + 1].connected
    ensures if SupervisorActs(actions[k]) then
        && LastSupervised(states, actions, p, k)
        && states[p].supervisor.Pinging? && actions[p] == Supervise(false)
      else
        && actions[k].CheckHealth? && states[k].health.Clearing?
        && LatestPingFailed(states, actions, p, states[k].health.snapshot, k)
  {
    assert Step(states[k], actions[k]) == Some(states[k + 1]);
    if SupervisorActs(actions[k]) {
      p := LastStep(states, actions, k);
      assert Step(states[p], actions[p]) == Some(states[p + 1]);
    } else {
      p := ClearingFollowsFailedPing(states, actions, k);
    }
  }

  /** A caller's notification waits until the supervisor takes it and pings. */
  lemma {:induction false} NotificationIsKept(states: seq<State>, actions: seq<Action>, j: nat, k: nat)
    requires IsRun(states, actions) && j < k < |states| && actions[j].CallerNotifies?
    ensures states[k].permit || exists i ::
      j < i < k && states[i].supervisor.Waiting? && states[i + 1].supervisor.Pinging?
    decreases k
  {
    assert Step(states[k - 1], actions[k - 1]) == Some(states[k]);
    if j < k - 1 {
      NotificationIsKept(states, actions, j, k - 1);
      if states[k - 1].permit && !states[k].permit {
        assert states[k - 1].supervisor.Waiting? && states[k - 1 + 1].supervisor.Pinging?;
      }
    }
  }
}
