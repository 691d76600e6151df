/** How lookups come to their answers over all runs of the replay cache, and who holds its locks. */
module ReplayWaits {
  import opened Common
  import opened LockTable
  import opened ReplaySelection
  import opened ReplayKeys
  import opened ReplayProtocol
  import opened ReplayAnswers

  /** The state a run is in before action `k`. */
  ghost predicate Before(cfg: Config, actions: seq<Action>, k: nat, s: State) {
    k <= |actions| && Run(cfg, INIT, actions[..k]) == Some(s)
  }

  /** A run is a shorter run and one more action. */
  lemma LastAction(cfg: Config, actions: seq<Action>) returns (s: State)
    requires actions != [] && Run(cfg, INIT, actions).Some?
    ensures Before(cfg, actions, |actions| - 1, s)
    ensures Step(cfg, s, actions[|actions| - 1]) == Run(cfg, INIT, actions)
  {
    var init, last := actions[..|actions| - 1], actions[|actions| - 1];
    assert actions == init + [last];
    PrefixRuns(cfg, INIT, init, [last]);
    s := Run(cfg, INIT, init).value;
    RunAppend(cfg, INIT, init, [last]);
    assert [last][1..] == [];
  }

  lemma {:induction false} PrefixRuns(cfg: Config, s: State, a: seq<Action>, b: seq<Action>)
    requires Run(cfg, s, a + b).Some?
    ensures Run(cfg, s, a).Some?
    decreases |a|
  {
    if a != [] {
      assert (a + b)[0] == a[0] && (a + b)[1..] == a[1..] + b;
      PrefixRuns(cfg, Step(cfg, s, a[0]).value, a[1..], b);
    }
  }

  lemma BeforeInPrefix(cfg: Config, actions: seq<Action>, k: nat, s: State)
    requires actions != [] && Before(cfg, actions[..|actions| - 1], k, s)
    ensures Before(cfg, actions, k, s) && (k < |actions| - 1 ==> actions[..|actions| - 1][k] == actions[k])
  {
    assert actions[..|actions| - 1][..k] == actions[..k];
  }

  // ---- why a lookup waits and why it gives up ---------------------------------------

  /** Only a failed read, or a poll at or past the deadline that sees no marker, sends a lookup live. */
  ghost predicate GivesUp(s: State, a: Action, i: nat) {
    i < |s.lookups| &&
    var l := s.lookups[i];
    || (a == Read(i, false) && l.pc.Reading?)
    || (a.Poll? && a.i == i && l.pc.Waiting? && s.now >= l.pc.deadline
        && (!a.ok || l.window.ReadyKey() !in s.ready))
  }

  /** A miss is read from a cache that holds no entry under the lookup's key, a hit is what is stored there. */
  ghost predicate Answers(s: State, a: Action, i: nat, answer: Answer) {
    && i < |s.lookups| && a == Read(i, true) && s.lookups[i].pc.Reading?
    && var key := s.lookups[i].window.EntryKey(s.lookups[i].hash);
       if answer.Hit? then key in s.store && s.store[key] == answer.response else answer.Miss? && key !in s.store
  }

  lemma LookupMoves(cfg: Config, s: State, a: Action, t: State, i: nat)
    requires Step(cfg, s, a) == Some(t) && i < |t.lookups|
    ensures i >= |s.lookups| ==> t.lookups[i].pc.Checking?
    ensures i < |s.lookups| && s.lookups[i] != t.lookups[i] ==>
      match t.lookups[i].pc
      case Done(Live) => GivesUp(s, a, i)
      case Done(answer) => Answers(s, a, i, answer)
      case Waiting(deadline) => a.TryAcquire? && a.i == i && deadline == s.now + cfg.timeout
      case Reading => (a.Poll? || a.CheckReady?) && a.i == i && a.ok && s.lookups[i].window.ReadyKey() in s.ready
      case Acquiring => a.CheckReady? && a.i == i && (!a.ok || s.lookups[i].window.ReadyKey() !in s.ready)
      case Checking => false
  {
  }

  /** How a lookup's answer came about: by a read of its own key, or by giving up. */
  ghost predicate Concluded(s: State, a: Action, i: nat, answer: Answer) {
    if answer.Live? then GivesUp(s, a, i) else Answers(s, a, i, answer)
  }

  lemma {:induction false} AnswerHasAReason(cfg: Config, actions: seq<Action>, i: nat) returns (k: nat, s: State)
    requires Run(cfg, INIT, actions).Some? && i < |Run(cfg, INIT, actions).value.lookups|
    requires Run(cfg, INIT, actions).value.lookups[i].pc.Done?
    ensures k < |actions| && Before(cfg, actions, k, s)
    ensures Concluded(s, actions[k], i, Run(cfg, INIT, actions).value.lookups[i].pc.answer)
    decreases |actions|
  {
    var t, n := Run(cfg, INIT, actions).value, |actions| - 1;
    s := LastAction(cfg, actions);
    LookupMoves(cfg, s, actions[n], t, i);
    if s.lookups[i] != t.lookups[i] {
      k := n;
    } else {
      k, s := AnswerHasAReason(cfg, actions[..n], i);
      BeforeInPrefix(cfg, actions, k, s);
    }
  }

  /** A deadline is the configured time after the lookup tried to become the warmer. */
  lemma {:induction false} DeadlineIsTimeoutAfterAcquire(cfg: Config, actions: seq<Action>, i: nat)
    returns (k: nat, s: State)
    requires Run(cfg, INIT, actions).Some? && i < |Run(cfg, INIT, actions).value.lookups|
    requires Run(cfg, INIT, actions).value.lookups[i].pc.Waiting?
    ensures k < |actions| && Before(cfg, actions, k, s) && actions[k].TryAcquire? && actions[k].i == i
    ensures Run(cfg, INIT, actions).value.lookups[i].pc.deadline == s.now + cfg.timeout
    decreases |actions|
  {
    var t, n := Run(cfg, INIT, actions).value, |actions| - 1;
    s := LastAction(cfg, actions);
    LookupMoves(cfg, s, actions[n], t, i);
    if s.lookups[i] != t.lookups[i] {
      k := n;
    } else {
      k, s := DeadlineIsTimeoutAfterAcquire(cfg, actions[..n], i);
      BeforeInPrefix(cfg, actions, k, s);
    }
  }

  ghost predicate WaitedInVain(cfg: Config, actions: seq<Action>, i: nat, j: nat, k: nat) {
    && j < k < |actions| && actions[j].TryAcquire? && actions[j].i == i && actions[k].Poll? && actions[k].i == i
    && exists s, t :: && Before(cfg, actions, j, s) && Before(cfg, actions, k, t)
                      && i < |t.lookups| && t.now >= s.now + cfg.timeout
                      && (!actions[k].ok || t.lookups[i].window.ReadyKey() !in t.ready)
  }

  ghost predicate ReadFailed(cfg: Config, actions: seq<Action>, i: nat, k: nat) {
    && k < |actions| && actions[k] == Read(i, false)
    && exists t :: && Before(cfg, actions, k, t) && i < |t.lookups| && t.lookups[i].window.ReadyKey() in t.ready
  }

  /**
    A lookup answers `Live` for two reasons only: its read of a warm window
    failed, or it has polled in vain until the timeout after its acquire.
   */
  lemma LiveIsJustified(cfg: Config, actions: seq<Action>, i: nat) returns (j: nat, k: nat)
    requires Run(cfg, INIT, actions).Some? && i < |Run(cfg, INIT, actions).value.lookups|
    requires Run(cfg, INIT, actions).value.lookups[i].pc == Done(Live)
    ensures ReadFailed(cfg, actions, i, k) || WaitedInVain(cfg, actions, i, j, k)
  {
    var t;
    j := 0;
    k, t := AnswerHasAReason(cfg, actions, i);
    if actions[k].Read? {
      RunConsistent(cfg, INIT, actions[..k]);
      assert LookupOk(cfg, t, t.lookups[i]);
    } else {
      var s;
      j, s := DeadlineIsTimeoutAfterAcquire(cfg, actions[..k], i);
      assert actions[..k][..j] == actions[..j];
      assert Before(cfg, actions, j, s);
    }
  }

  // ---- locks and heartbeats ------------------------------------------------------------

  /** Three heartbeats fit in a TTL of three seconds or more, and no fourth; the interval is never zero. */
  lemma HeartbeatIsAThirdOfTheTtl(ttl: nat)
    ensures var i := HeartbeatInterval(ttl);
      i >= 1 && (ttl >= 3 ==> 3 * i <= ttl < 3 * (i + 1)) && (ttl < 3 ==> i == 1)
  {
  }

  ghost predicate Warming(s: State, window: Window) {
    exists w :: w in s.warms && w.window == window && !w.pc.Finished?
  }

  ghost predicate LocksOwned(s: State) {
    && (forall window: Window :: window.Valid() && window.LockKey() in s.locks ==> Warming(s, window))
    && (forall l :: l in s.lookups ==> l.window.Valid())
    && (forall w :: w in s.warms ==> w.window.Valid())
  }

  predicate Releases(a: Action) { a.Release? ==> a.ok }

  lemma StepLocksOwned(cfg: Config, s: State, a: Action, t: State)
    requires LocksOwned(s) && Releases(a) && Step(cfg, s, a) == Some(t)
    ensures LocksOwned(t)
  {
    ValidWindows(cfg, s, a, t);
    forall window: Window | window.Valid() && window.LockKey() in t.locks
      ensures Warming(t, window)
    {
      if window.LockKey() in s.locks {
        var w :| w in s.warms && w.window == window && !w.pc.Finished?;
        StaysWarming(cfg, s, a, t, w);
      } else {
        NewLock(cfg, s, a, t, window);
      }
    }
  }

  lemma ValidWindows(cfg: Config, s: State, a: Action, t: State)
    requires LocksOwned(s) && Step(cfg, s, a) == Some(t)
    ensures forall l :: l in t.lookups ==> l.window.Valid()
    ensures forall w :: w in t.warms ==> w.window.Valid()
  {
    if (a.Build? || a.WriteNext? || a.Heartbeat? || a.Release?) && a.w < |s.warms| {
      assert s.warms[a.w] in s.warms;
    }
    if (a.CheckReady? || a.TryAcquire? || a.Poll? || a.Read?) && a.i < |s.lookups| {
      assert s.lookups[a.i] in s.lookups;
    }
  }

  lemma StaysWarming(cfg: Config, s: State, a: Action, t: State, w: Warm)
    requires LocksOwned(s) && Releases(a) && Step(cfg, s, a) == Some(t)
    requires w in s.warms && !w.pc.Finished? && w.window.LockKey() in t.locks
    ensures Warming(t, w.window)
  {
    var k :| 0 <= k < |s.warms| && s.warms[k] == w;
    assert k < |t.warms| && t.warms[k] in t.warms && t.warms[k].window == w.window;
  }

  lemma NewLock(cfg: Config, s: State, a: Action, t: State, window: Window)
    requires LocksOwned(s) && Step(cfg, s, a) == Some(t)
    requires window.Valid() && window.LockKey() !in s.locks && window.LockKey() in t.locks
    ensures Warming(t, window)
  {
    assert a.TryAcquire? && s.lookups[a.i] in s.lookups;
    WindowKeysAreInjective(window, s.lookups[a.i].window);
    assert t.warms[|s.warms|] in t.warms;
  }

  /** If releases go through, a window's lock in the table belongs to a warmup of it that is still at work. */
  lemma {:induction false} NoOrphanedWarmLock(cfg: Config, s: State, actions: seq<Action>)
    requires LocksOwned(s) && Run(cfg, s, actions).Some? && forall a :: a in actions ==> Releases(a)
    ensures LocksOwned(Run(cfg, s, actions).value)
    ensures LocksOwned(INIT)
    decreases |actions|
  {
    if actions != [] {
      StepLocksOwned(cfg, s, actions[0], Step(cfg, s, actions[0]).value);
      NoOrphanedWarmLock(cfg, Step(cfg, s, actions[0]).value, actions[1..]);
    }
  }
}
