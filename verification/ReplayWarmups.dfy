/** At most one warmup of a window at a time, in every on-time run of the replay cache. */
module ReplayWarmups {
  import opened LockTable
  import opened ReplayKeys
  import opened ReplayProtocol

  /** Time passes only while every active warmup still has time before its next due call, and renewals do not fail. */
  predicate OnTime(s: State, a: Action) {
    match a
    case Tick => forall w :: 0 <= w < |s.warms| && Active(s.warms[w]) ==> s.now < s.warms[w].due
    case Heartbeat(_, ok) => ok
    case _ => true
  }

  predicate OnTimeRun(cfg: Config, s: State, actions: seq<Action>)
    decreases |actions|
  {
    actions != [] ==>
      && OnTime(s, actions[0])
      && Step(cfg, s, actions[0]).Some?
      && OnTimeRun(cfg, Step(cfg, s, actions[0]).value, actions[1..])
  }

  predicate Overlap(v: Warm, w: Warm) { Active(v) && Active(w) && v.window == w.window }

  ghost predicate AtMostOneWarmup(s: State) {
    forall v, w :: 0 <= v < w < |s.warms| ==> !Overlap(s.warms[v], s.warms[w])
  }

  /** The lock of an active warmup outlives its next due call. */
  ghost predicate Covered(s: State, w: Warm) {
    var key := w.window.LockKey();
    w.window.Valid() && (Active(w) ==> s.now <= w.due && key in s.locks && w.due < s.locks[key])
  }

  ghost predicate Guarded(s: State) {
    && AtMostOneWarmup(s)
    && (forall w :: 0 <= w < |s.warms| ==> Covered(s, s.warms[w]))
    && (forall l :: l in s.lookups ==> l.window.Valid())
  }

  lemma IntervalBelowTtl(ttl: nat)
    ensures HeartbeatInterval(ttl) < ttl <==> ttl >= 2
  {
  }

  lemma LockKeysDiffer(a: Window, b: Window)
    requires a.Valid() && b.Valid() && a != b
    ensures a.LockKey() != b.LockKey()
  {
    if a.LockKey() == b.LockKey() {
      WindowKeysAreInjective(a, b);
    }
  }

  /** Changing one warmup and its own lock leaves the others guarded. */
  lemma ChangeOwnWarm(s: State, t: State, i: nat)
    requires Guarded(s) && i < |s.warms| && Active(s.warms[i])
    requires t.now == s.now && t.lookups == s.lookups && |t.warms| == |s.warms|
    requires t.warms == s.warms[i := t.warms[i]]
    requires t.warms[i].window == s.warms[i].window && Covered(t, t.warms[i])
    requires forall key :: key != s.warms[i].window.LockKey() && Held(s.locks, key, s.now) ==>
      key in t.locks && t.locks[key] == s.locks[key]
    ensures Guarded(t)
  {
    forall w | 0 <= w < |t.warms|
      ensures Covered(t, t.warms[w])
    {
      if w != i && Active(s.warms[w]) {
        assert Covered(s, s.warms[w]);
        assert !Overlap(s.warms[if w < i then w else i], s.warms[if w < i then i else w]);
        LockKeysDiffer(s.warms[w].window, s.warms[i].window);
        assert Held(s.locks, s.warms[w].window.LockKey(), s.now);
      }
    }
    forall v, w | 0 <= v < w < |t.warms|
      ensures !Overlap(t.warms[v], t.warms[w])
    {
      assert !Overlap(s.warms[v], s.warms[w]);
    }
  }

  lemma AcquireGuarded(cfg: Config, s: State, i: nat)
    requires cfg.lockTtl >= 2 && Guarded(s) && i < |s.lookups| && s.lookups[i].pc.Acquiring?
    ensures Guarded(Step(cfg, s, TryAcquire(i, true)).value)
  {
    var t := Step(cfg, s, TryAcquire(i, true)).value;
    var window := s.lookups[i].window;
    assert s.lookups[i] in s.lookups;
    IntervalBelowTtl(cfg.lockTtl);
    forall w | 0 <= w < |t.warms|
      ensures Covered(t, t.warms[w])
    {
      if w < |s.warms| && Active(s.warms[w]) {
        assert Covered(s, s.warms[w]);
        assert Held(s.locks, s.warms[w].window.LockKey(), s.now);
        if s.warms[w].window != window {
          LockKeysDiffer(s.warms[w].window, window);
        }
      }
    }
    forall v, w | 0 <= v < w < |t.warms|
      ensures !Overlap(t.warms[v], t.warms[w])
    {
      if w < |s.warms| {
        assert !Overlap(s.warms[v], s.warms[w]);
      } else if Active(s.warms[v]) {
        assert Covered(s, s.warms[v]) && Held(s.locks, s.warms[v].window.LockKey(), s.now);
      }
    }
  }

  lemma WarmStepGuarded(cfg: Config, s: State, a: Action)
    requires cfg.lockTtl >= 2 && Guarded(s) && OnTime(s, a) && StepWarm(cfg, s, a).Some?
    ensures Guarded(StepWarm(cfg, s, a).value)
  {
    var t := StepWarm(cfg, s, a).value;
    IntervalBelowTtl(cfg.lockTtl);
    assert Covered(s, s.warms[a.w]);
    assert Active(s.warms[a.w]) ==> Held(s.locks, s.warms[a.w].window.LockKey(), s.now);
    ChangeOwnWarm(s, t, a.w);
  }

  lemma StepGuarded(cfg: Config, s: State, a: Action)
    requires cfg.lockTtl >= 2 && Guarded(s) && OnTime(s, a) && Step(cfg, s, a).Some?
    ensures Guarded(Step(cfg, s, a).value)
  {
    if a.Build? || a.WriteNext? || a.Heartbeat? || a.Release? {
      WarmStepGuarded(cfg, s, a);
    } else if a.TryAcquire? && a.ok {
      AcquireGuarded(cfg, s, a.i);
    } else {
      var t := Step(cfg, s, a).value;
      assert t.warms == s.warms && t.locks == s.locks;
      forall w | 0 <= w < |t.warms|
        ensures Covered(t, t.warms[w])
      {
        assert Covered(s, s.warms[w]);
      }
    }
  }

  lemma {:induction false} RunGuarded(cfg: Config, s: State, actions: seq<Action>)
    requires cfg.lockTtl >= 2 && Guarded(s) && OnTimeRun(cfg, s, actions)
    ensures Run(cfg, s, actions).Some? && Guarded(Run(cfg, s, actions).value)
    decreases |actions|
  {
    if actions != [] {
      StepGuarded(cfg, s, actions[0]);
      RunGuarded(cfg, Step(cfg, s, actions[0]).value, actions[1..]);
    }
  }

  // ---- a TTL that is too short --------------------------------------------------------

  const WINDOW := Window("p", "t", "n")

  /** Two lookups; the second acquires the lock as soon as the first one's has run out. */
  function DoubleWarmup(ttl: nat): seq<Action> {
    [Start(WINDOW, "a"), CheckReady(0, true), TryAcquire(0, true)]
    + (if ttl == 0 then [] else [Tick])
    + [Start(WINDOW, "a"), CheckReady(1, true), TryAcquire(1, true)]
  }

  lemma WindowIsValid()
    ensures WINDOW.Valid()
  {
    assert "n"[1..] == "";
  }

  lemma RunCons(cfg: Config, s: State, a: Action, rest: seq<Action>)
    requires Step(cfg, s, a).Some?
    ensures Run(cfg, s, [a] + rest) == Run(cfg, Step(cfg, s, a).value, rest)
    ensures OnTime(s, a) ==> (OnTimeRun(cfg, s, [a] + rest) <==> OnTimeRun(cfg, Step(cfg, s, a).value, rest))
  {
    assert ([a] + rest)[1..] == rest;
  }

  lemma ThreeMore(cfg: Config, s: State, a: Action, b: Action, c: Action, rest: seq<Action>) returns (t: State)
    requires !a.Tick? && !b.Tick? && !c.Tick? && !a.Heartbeat? && !b.Heartbeat? && !c.Heartbeat?
    requires Step(cfg, s, a).Some? && Step(cfg, Step(cfg, s, a).value, b).Some?
    requires Step(cfg, Step(cfg, Step(cfg, s, a).value, b).value, c).Some?
    ensures t == Step(cfg, Step(cfg, Step(cfg, s, a).value, b).value, c).value
    ensures Run(cfg, s, [a, b, c] + rest) == Run(cfg, t, rest)
    ensures OnTimeRun(cfg, s, [a, b, c] + rest) <==> OnTimeRun(cfg, t, rest)
  {
    var s1 := Step(cfg, s, a).value;
    var s2 := Step(cfg, s1, b).value;
    t := Step(cfg, s2, c).value;
    RunCons(cfg, s2, c, rest);
    RunCons(cfg, s1, b, [c] + rest);
    RunCons(cfg, s, a, [b] + ([c] + rest));
    assert [a, b, c] + rest == [a] + ([b] + ([c] + rest));
  }

  /** One more lookup of a cold window whose lock is free starts a warmup. */
  lemma WarmupStarts(cfg: Config, s: State, rest: seq<Action>) returns (t: State)
    requires WINDOW.ReadyKey() !in s.ready && !Held(s.locks, WINDOW.LockKey(), s.now)
    ensures t.now == s.now && t.ready == s.ready && |t.lookups| == |s.lookups| + 1
    ensures t.warms == s.warms + [Warm(WINDOW, Building, s.now + HeartbeatInterval(cfg.lockTtl))]
    ensures t.locks == AfterAcquire(s.locks, WINDOW.LockKey(), s.now, cfg.lockTtl)
    ensures var i := |s.lookups|;
      var all := [Start(WINDOW, "a"), CheckReady(i, true), TryAcquire(i, true)] + rest;
      Run(cfg, s, all) == Run(cfg, t, rest) && (OnTimeRun(cfg, s, all) <==> OnTimeRun(cfg, t, rest))
  {
    WindowIsValid();
    var i := |s.lookups|;
    t := ThreeMore(cfg, s, Start(WINDOW, "a"), CheckReady(i, true), TryAcquire(i, true), rest);
  }

  /** From a state with one active warmup whose lock has run out, one more lookup starts a second one. */
  lemma SecondWarmup(cfg: Config, s: State)
    requires |s.warms| == 1 && Active(s.warms[0]) && s.warms[0].window == WINDOW && |s.lookups| == 1
    requires WINDOW.ReadyKey() !in s.ready && !Held(s.locks, WINDOW.LockKey(), s.now)
    ensures Doubles(cfg, s, SECOND)
  {
    var t := WarmupStarts(cfg, s, []);
    assert SECOND + [] == SECOND;
    assert Overlap(t.warms[0], t.warms[1]);
  }

  const SECOND := [Start(WINDOW, "a"), CheckReady(1, true), TryAcquire(1, true)]

  /** The actions run on time and end with two warmups of one window. */
  ghost predicate Doubles(cfg: Config, s: State, actions: seq<Action>) {
    && OnTimeRun(cfg, s, actions)
    && Run(cfg, s, actions).Some?
    && !AtMostOneWarmup(Run(cfg, s, actions).value)
  }

  lemma ShortTtlDoubleWarmup(cfg: Config)
    requires cfg.lockTtl < 2
    ensures Doubles(cfg, INIT, DoubleWarmup(cfg.lockTtl))
  {
    var rest := (if cfg.lockTtl == 0 then [] else [Tick]) + SECOND;
    var s := WarmupStarts(cfg, INIT, rest);
    assert DoubleWarmup(cfg.lockTtl) == [Start(WINDOW, "a"), CheckReady(0, true), TryAcquire(0, true)] + rest;
    if cfg.lockTtl == 0 {
      assert rest == SECOND;
      SecondWarmup(cfg, s);
    } else {
      RunCons(cfg, s, Tick, SECOND);
      SecondWarmup(cfg, s.(now := 1));
    }
  }

  /**
    With on-time heartbeats, warmups of one window never overlap if and only
    if the lock TTL is at least two seconds.
   */
  lemma SingleWarmupIffTtlAtLeastTwo(cfg: Config)
    ensures (forall actions :: OnTimeRun(cfg, INIT, actions) ==>
               Run(cfg, INIT, actions).Some? && AtMostOneWarmup(Run(cfg, INIT, actions).value))
        <==> cfg.lockTtl >= 2
  {
    if cfg.lockTtl >= 2 {
      forall actions | OnTimeRun(cfg, INIT, actions)
        ensures Run(cfg, INIT, actions).Some? && AtMostOneWarmup(Run(cfg, INIT, actions).value)
      {
        RunGuarded(cfg, INIT, actions);
      }
    } else {
      ShortTtlDoubleWarmup(cfg);
      var actions := DoubleWarmup(cfg.lockTtl);
      assert OnTimeRun(cfg, INIT, actions) && !AtMostOneWarmup(Run(cfg, INIT, actions).value);
    }
  }
}
