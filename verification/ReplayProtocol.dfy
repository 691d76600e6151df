/**
  The replay cache as a protocol: any number of lookups and warmups of any
  number of windows (project, trace, needle) over one shared cache and lock
  service, in any interleaving. One action is one await point of the program.
  Key expiry and eviction of cached entries are not part of the model.
 */
module ReplayProtocol {
  import opened Common
  import opened LockTable
  import opened ReplaySelection
  import opened ReplayKeys

  // ---- state ------------------------------------------------------------------

  datatype Answer = Hit(response: Response) | Miss | Live

  datatype LookupPc = Checking | Acquiring | Waiting(deadline: nat) | Reading | Done(answer: Answer)

  datatype Lookup = Lookup(window: Window, hash: string, pc: LookupPc)

  datatype WarmPc = Building | Writing(written: nat) | Releasing | Finished

  /** `due` is when the next heartbeat, or after the last one the release, has to happen to be on time. */
  datatype Warm = Warm(window: Window, pc: WarmPc, due: nat)

  /** `ready` and `store` are the shared cache: the markers set and the entries written, by key. */
  datatype State = State(
    now: nat,
    locks: Locks,
    ready: set<string>,
    store: map<string, Response>,
    lookups: seq<Lookup>,
    warms: seq<Warm>)

  /** The entries `build_entries` yields for each window, and the configured times. */
  datatype Config = Config(chosen: Window -> seq<Entry>, lockTtl: nat, timeout: nat)

  const INIT := State(0, map[], {}, map[], [], [])

  function HeartbeatInterval(ttl: nat): nat { Max(ttl / 3, 1) }

  predicate Active(w: Warm) { !w.pc.Finished? }

  // ---- actions ------------------------------------------------------------------

  /** `ok` is false where a cache, lock or database call returns an error. */
  datatype Action =
    | Start(window: Window, hash: string)
    | CheckReady(i: nat, ok: bool)
    | TryAcquire(i: nat, ok: bool)
    | Poll(i: nat, ok: bool)
    | Read(i: nat, ok: bool)
    | Build(w: nat, ok: bool)
    | WriteNext(w: nat, ok: bool)
    | Heartbeat(w: nat, ok: bool)
    | Release(w: nat, ok: bool)
    | Tick

  function SetPc(s: State, i: nat, pc: LookupPc): State
    requires i < |s.lookups|
  {
    s.(lookups := s.lookups[i := s.lookups[i].(pc := pc)])
  }

  function SetWarm(s: State, w: nat, warm: Warm): State
    requires w < |s.warms|
  {
    s.(warms := s.warms[w := warm])
  }

  function StepLookup(cfg: Config, s: State, a: Action): Option<State> {
    match a
    case Start(window, hash) =>
      if window.Valid() then Some(s.(lookups := s.lookups + [Lookup(window, hash, Checking)])) else None
    case CheckReady(i, ok) =>
      if i < |s.lookups| && s.lookups[i].pc.Checking?
      then Some(SetPc(s, i, if ok && s.lookups[i].window.ReadyKey() in s.ready then Reading else Acquiring)) else None
    case TryAcquire(i, ok) =>
      if !(i < |s.lookups| && s.lookups[i].pc.Acquiring?) then None
      else
        var waiting, key := SetPc(s, i, Waiting(s.now + cfg.timeout)), s.lookups[i].window.LockKey();
        if !ok then Some(waiting)
        else
          var locked := waiting.(locks := AfterAcquire(s.locks, key, s.now, cfg.lockTtl));
          if Held(s.locks, key, s.now) then Some(locked)
          else
            var warm := Warm(s.lookups[i].window, Building, s.now + HeartbeatInterval(cfg.lockTtl));
            Some(locked.(warms := s.warms + [warm]))
    case Poll(i, ok) =>
      if i < |s.lookups| && s.lookups[i].pc.Waiting? then
        if ok && s.lookups[i].window.ReadyKey() in s.ready then Some(SetPc(s, i, Reading))
        else if s.now >= s.lookups[i].pc.deadline then Some(SetPc(s, i, Done(Live)))
        else Some(s)
      else None
    case Read(i, ok) =>
      if !(i < |s.lookups| && s.lookups[i].pc.Reading?) then None
      else
        var key := s.lookups[i].window.EntryKey(s.lookups[i].hash);
        Some(SetPc(s, i, Done(
          if !ok then Live else if key in s.store then Hit(s.store[key]) else Miss)))
    case _ => None
  }

  /** The next write of a warmup: one more entry, or the ready marker after the last. */
  function Write(cfg: Config, s: State, w: nat, n: nat): State
    requires w < |s.warms| && n <= |cfg.chosen(s.warms[w].window)|
  {
    var window, chosen := s.warms[w].window, cfg.chosen(s.warms[w].window);
    if n < |chosen| then
      SetWarm(s.(store := s.store[window.EntryKey(chosen[n].hash) := chosen[n].response]), w,
              s.warms[w].(pc := Writing(n + 1)))
    else
      SetWarm(s.(ready := s.ready + {window.ReadyKey()}), w, s.warms[w].(pc := Releasing))
  }

  function StepWarm(cfg: Config, s: State, a: Action): Option<State> {
    match a
    case Build(w, ok) =>
      if w < |s.warms| && s.warms[w].pc.Building?
      then Some(SetWarm(s, w, s.warms[w].(pc := if ok then Writing(0) else Releasing))) else None
    case WriteNext(w, ok) =>
      if !(w < |s.warms| && s.warms[w].pc.Writing?
           && s.warms[w].pc.written <= |cfg.chosen(s.warms[w].window)|) then None
      else if !ok then Some(SetWarm(s, w, s.warms[w].(pc := Releasing)))
      else Some(Write(cfg, s, w, s.warms[w].pc.written))
    case Heartbeat(w, ok) =>
      if !(w < |s.warms| && (s.warms[w].pc.Building? || s.warms[w].pc.Writing?)) then None
      else if ok then
        Some(SetWarm(s.(locks := AfterRenew(s.locks, s.warms[w].window.LockKey(), s.now, cfg.lockTtl)), w,
                     s.warms[w].(due := s.now + HeartbeatInterval(cfg.lockTtl))))
      else Some(s)
    case Release(w, ok) =>
      if w < |s.warms| && s.warms[w].pc.Releasing? then
        var finished := SetWarm(s, w, s.warms[w].(pc := Finished));
        Some(if ok then finished.(locks := AfterRelease(s.locks, s.warms[w].window.LockKey())) else finished)
      else None
    case _ => None
  }

  function Step(cfg: Config, s: State, a: Action): Option<State> {
    match a
    case Tick => Some(s.(now := s.now + 1))
    case Build(_, _) => StepWarm(cfg, s, a)
    case WriteNext(_, _) => StepWarm(cfg, s, a)
    case Heartbeat(_, _) => StepWarm(cfg, s, a)
    case Release(_, _) => StepWarm(cfg, s, a)
    case _ => StepLookup(cfg, s, a)
  }

  function Run(cfg: Config, s: State, actions: seq<Action>): Option<State>
    decreases |actions|
  {
    if actions == [] then Some(s)
    else
      match Step(cfg, s, actions[0])
      case None => None
      case Some(t) => Run(cfg, t, actions[1..])
  }

  // ---- what the shared cache holds, in every interleaving -------------------------

  /** `window` chose `response` for `hash`. */
  ghost predicate ChosenFor(cfg: Config, window: Window, hash: string, response: Response) {
    exists e :: e in cfg.chosen(window) && e.hash == hash && e.response == response
  }

  ghost predicate NotChosen(cfg: Config, window: Window, hash: string) {
    forall e :: e in cfg.chosen(window) ==> e.hash != hash
  }

  /** Some window chose `response` for what is stored under `key`. */
  ghost predicate Backed(cfg: Config, key: string, response: Response) {
    exists window: Window, hash: string ::
      window.Valid() && window.EntryKey(hash) == key && ChosenFor(cfg, window, hash, response)
  }

  /** The first `n` entries chosen for the window are in the store. */
  ghost predicate Stored(cfg: Config, store: map<string, Response>, window: Window, n: nat) {
    n <= |cfg.chosen(window)| && forall k :: 0 <= k < n ==> window.EntryKey(cfg.chosen(window)[k].hash) in store
  }

  ghost predicate WarmOk(cfg: Config, s: State, w: Warm) {
    w.window.Valid() && (w.pc.Writing? ==> Stored(cfg, s.store, w.window, w.pc.written))
  }

  ghost predicate LookupOk(cfg: Config, s: State, l: Lookup) {
    l.window.Valid() &&
    match l.pc
    case Reading => l.window.ReadyKey() in s.ready
    case Done(Hit(r)) => Backed(cfg, l.window.EntryKey(l.hash), r)
    case Done(Miss) => l.window.ReadyKey() in s.ready && NotChosen(cfg, l.window, l.hash)
    case _ => true
  }

  ghost predicate ReadyOk(cfg: Config, s: State) {
    forall window: Window :: window.Valid() && window.ReadyKey() in s.ready ==>
      Stored(cfg, s.store, window, |cfg.chosen(window)|)
  }

  /** The store holds chosen entries only, and a marker is set only after all entries of its window. */
  ghost predicate Consistent(cfg: Config, s: State) {
    && (forall key :: key in s.store ==> Backed(cfg, key, s.store[key]))
    && ReadyOk(cfg, s)
    && (forall w :: w in s.warms ==> WarmOk(cfg, s, w))
    && (forall l :: l in s.lookups ==> LookupOk(cfg, s, l))
  }

  /** What is said of lookups and warmups stays true as the cache fills up. */
  lemma CacheGrows(cfg: Config, s: State, t: State)
    requires forall key :: key in s.store ==> key in t.store
    requires s.ready <= t.ready
    ensures forall l :: LookupOk(cfg, s, l) ==> LookupOk(cfg, t, l)
    ensures forall w :: WarmOk(cfg, s, w) ==> WarmOk(cfg, t, w)
  {
  }

  /** A step of one lookup, with the cache as it was. */
  lemma SetPcConsistent(cfg: Config, s: State, i: nat, pc: LookupPc)
    requires Consistent(cfg, s) && i < |s.lookups| && LookupOk(cfg, s, s.lookups[i].(pc := pc))
    ensures Consistent(cfg, SetPc(s, i, pc))
  {
    var t := SetPc(s, i, pc);
    forall l | l in t.lookups
      ensures LookupOk(cfg, t, l)
    {
      assert l in s.lookups || l == s.lookups[i].(pc := pc);
      CacheGrows(cfg, s, t);
    }
    CacheGrows(cfg, s, t);
  }

  lemma SetWarmConsistent(cfg: Config, s: State, w: nat, warm: Warm)
    requires Consistent(cfg, s) && w < |s.warms| && WarmOk(cfg, s, warm)
    ensures Consistent(cfg, SetWarm(s, w, warm))
  {
    var t := SetWarm(s, w, warm);
    CacheGrows(cfg, s, t);
    assert forall x :: x in t.warms ==> x in s.warms || x == warm;
  }

  /** Locks and clock play no part in consistency. */
  lemma LocksDoNotMatter(cfg: Config, s: State, now: nat, locks: Locks)
    requires Consistent(cfg, s)
    ensures Consistent(cfg, s.(now := now, locks := locks))
  {
    CacheGrows(cfg, s, s.(now := now, locks := locks));
  }

  lemma AcquireConsistent(cfg: Config, s: State, i: nat, ok: bool)
    requires Consistent(cfg, s) && StepLookup(cfg, s, TryAcquire(i, ok)).Some?
    ensures Consistent(cfg, StepLookup(cfg, s, TryAcquire(i, ok)).value)
  {
    var t := StepLookup(cfg, s, TryAcquire(i, ok)).value;
    var waiting := SetPc(s, i, Waiting(s.now + cfg.timeout));
    assert s.lookups[i] in s.lookups;
    SetPcConsistent(cfg, s, i, Waiting(s.now + cfg.timeout));
    CacheGrows(cfg, waiting, t);
  }

  lemma ReadConsistent(cfg: Config, s: State, i: nat, ok: bool)
    requires Consistent(cfg, s) && StepLookup(cfg, s, Read(i, ok)).Some?
    ensures Consistent(cfg, StepLookup(cfg, s, Read(i, ok)).value)
  {
    var l := s.lookups[i];
    assert l in s.lookups && LookupOk(cfg, s, l);
    var key := l.window.EntryKey(l.hash);
    if ok && key !in s.store {
      assert Stored(cfg, s.store, l.window, |cfg.chosen(l.window)|);
      forall e | e in cfg.chosen(l.window)
        ensures e.hash != l.hash
      {
        var k :| 0 <= k < |cfg.chosen(l.window)| && cfg.chosen(l.window)[k] == e;
      }
    }
    SetPcConsistent(cfg, s, i, Done(if !ok then Live else if key in s.store then Hit(s.store[key]) else Miss));
  }

  lemma LookupStepConsistent(cfg: Config, s: State, a: Action)
    requires Consistent(cfg, s) && StepLookup(cfg, s, a).Some?
    ensures Consistent(cfg, StepLookup(cfg, s, a).value)
  {
    match a
    case Start(window, hash) =>
      CacheGrows(cfg, s, StepLookup(cfg, s, a).value);
    case CheckReady(i, ok) =>
      assert s.lookups[i] in s.lookups;
      SetPcConsistent(cfg, s, i, if ok && s.lookups[i].window.ReadyKey() in s.ready then Reading else Acquiring);
    case TryAcquire(i, ok) =>
      AcquireConsistent(cfg, s, i, ok);
    case Poll(i, ok) =>
      assert s.lookups[i] in s.lookups;
      if ok && s.lookups[i].window.ReadyKey() in s.ready {
        SetPcConsistent(cfg, s, i, Reading);
      } else if s.now >= s.lookups[i].pc.deadline {
        SetPcConsistent(cfg, s, i, Done(Live));
      }
    case Read(i, ok) =>
      ReadConsistent(cfg, s, i, ok);
  }

  lemma WriteConsistent(cfg: Config, s: State, w: nat)
    requires Consistent(cfg, s) && w < |s.warms| && s.warms[w].pc.Writing?
    ensures s.warms[w].pc.written <= |cfg.chosen(s.warms[w].window)|
    ensures Consistent(cfg, Write(cfg, s, w, s.warms[w].pc.written))
  {
    var warm := s.warms[w];
    var window, n, chosen := warm.window, warm.pc.written, cfg.chosen(warm.window);
    assert warm in s.warms && WarmOk(cfg, s, warm);
    if n < |chosen| {
      var key := window.EntryKey(chosen[n].hash);
      var t := s.(store := s.store[key := chosen[n].response]);
      assert chosen[n] in chosen;
      assert ChosenFor(cfg, window, chosen[n].hash, chosen[n].response);
      assert Backed(cfg, key, chosen[n].response);
      CacheGrows(cfg, s, t);
      SetWarmConsistent(cfg, t, w, warm.(pc := Writing(n + 1)));
    } else {
      var t := s.(ready := s.ready + {window.ReadyKey()});
      CacheGrows(cfg, s, t);
      forall other: Window | other.Valid() && other.ReadyKey() in t.ready
        ensures Stored(cfg, t.store, other, |cfg.chosen(other)|)
      {
        if other.ReadyKey() == window.ReadyKey() {
          WindowKeysAreInjective(other, window);
        }
      }
      SetWarmConsistent(cfg, t, w, warm.(pc := Releasing));
    }
  }

  lemma WarmStepConsistent(cfg: Config, s: State, a: Action)
    requires Consistent(cfg, s) && StepWarm(cfg, s, a).Some?
    ensures Consistent(cfg, StepWarm(cfg, s, a).value)
  {
    assert s.warms[a.w] in s.warms;
    match a
    case Build(w, ok) =>
      SetWarmConsistent(cfg, s, w, s.warms[w].(pc := if ok then Writing(0) else Releasing));
    case WriteNext(w, ok) =>
      if ok {
        WriteConsistent(cfg, s, w);
      } else {
        SetWarmConsistent(cfg, s, w, s.warms[w].(pc := Releasing));
      }
    case Heartbeat(w, ok) =>
      if ok {
        SetWarmConsistent(cfg, s, w, s.warms[w].(due := s.now + HeartbeatInterval(cfg.lockTtl)));
        LocksDoNotMatter(cfg, SetWarm(s, w, s.warms[w].(due := s.now + HeartbeatInterval(cfg.lockTtl))), s.now,
                         AfterRenew(s.locks, s.warms[w].window.LockKey(), s.now, cfg.lockTtl));
      }
    case Release(w, ok) =>
      SetWarmConsistent(cfg, s, w, s.warms[w].(pc := Finished));
      LocksDoNotMatter(cfg, SetWarm(s, w, s.warms[w].(pc := Finished)), s.now,
                       AfterRelease(s.locks, s.warms[w].window.LockKey()));
  }

  lemma {:induction false} RunConsistent(cfg: Config, s: State, actions: seq<Action>)
    requires Consistent(cfg, s) && Run(cfg, s, actions).Some?
    ensures Consistent(cfg, Run(cfg, s, actions).value)
    decreases |actions|
  {
    if actions != [] {
      var a := actions[0];
      if a.Tick? {
        LocksDoNotMatter(cfg, s, s.now + 1, s.locks);
      } else if a.Build? || a.WriteNext? || a.Heartbeat? || a.Release? {
        WarmStepConsistent(cfg, s, a);
      } else {
        LookupStepConsistent(cfg, s, a);
      }
      RunConsistent(cfg, Step(cfg, s, a).value, actions[1..]);
    }
  }
}
