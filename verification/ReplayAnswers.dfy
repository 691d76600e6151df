/** What lookups answer, over all runs of the replay cache, and when an answer can come from a foreign window. */
module ReplayAnswers {
  import opened Common
  import opened LockTable
  import opened Json
  import opened ReplaySelection
  import opened ReplayContents
  import opened ReplayKeys
  import opened ReplayProtocol

  /** Input hashes are hexadecimal; all that matters is that they hold no colon. */
  ghost predicate ClearHashes(cfg: Config) {
    forall window: Window, e: Entry :: e in cfg.chosen(window) ==> ':' !in e.hash
  }

  /** A hit is backed by the lookup's own window, unless its hash is foreign; then by the one window it names. */
  lemma BackedBy(cfg: Config, window: Window, hash: string, r: Response)
    requires window.Valid() && ClearHashes(cfg) && Backed(cfg, window.EntryKey(hash), r)
    ensures !Foreign(hash) ==> ChosenFor(cfg, window, hash, r)
    ensures Foreign(hash) ==> ChosenFor(cfg, ForeignWindow(window, hash), AfterLastColon(hash), r)
  {
    var w: Window, h: string :| w.Valid() && w.EntryKey(h) == window.EntryKey(hash) && ChosenFor(cfg, w, h, r);
    if Foreign(hash) {
      LastColonSplits(hash);
      ForeignKey(window, hash);
      EntryKeysAreInjective(w, h, ForeignWindow(window, hash), AfterLastColon(hash));
    } else {
      KeyIsOwnIffNotForeign(window, hash);
    }
  }

  lemma ChosenHashesAreClear(cfg: Config, env: Env, traceOf: Window -> seq<SpanRow>, maxSpans: nat, maxBytes: nat)
    requires forall w: Window :: cfg.chosen(w) == WarmEntries(env, traceOf(w), w.needle, maxSpans, maxBytes)
    requires forall v :: ':' !in env.inputHash(v)
    ensures ClearHashes(cfg)
  {
    forall w: Window, e: Entry | e in cfg.chosen(w)
      ensures ':' !in e.hash
    {
      SelectedHash(env, traceOf(w), w.needle, maxSpans, maxBytes, e);
    }
  }

  lemma SelectedHash(env: Env, trace: seq<SpanRow>, needle: string, maxSpans: nat, maxBytes: nat, e: Entry)
    requires e in WarmEntries(env, trace, needle, maxSpans, maxBytes)
    ensures exists v :: e.hash == env.inputHash(v)
  {
    var stop := SelectionGuarantees(env, trace, needle, maxSpans, maxBytes);
    var s := ScanOf(env, trace, needle, maxSpans, maxBytes);
    var i :| 0 <= i < Reach(s, stop) && s.First(i) && s.rows[i] == Some(e);
    assert s.rows[i] == Candidate(env, trace[i]);
    assert e.hash == env.inputHash(env.parse(trace[i].input).value);
  }

  /**
    In every interleaving of lookups and warmups of all windows, duplicate
    warmups and failing calls included: a hit carries exactly the response
    selection chose for the hash in the lookup's window, unless the hash is
    foreign; a miss means the window is warm and the hash was not selected.
   */
  lemma AnswersMatchSelection(cfg: Config, env: Env, traceOf: Window -> seq<SpanRow>, maxSpans: nat, maxBytes: nat,
                              actions: seq<Action>, i: nat)
    requires forall w: Window :: cfg.chosen(w) == WarmEntries(env, traceOf(w), w.needle, maxSpans, maxBytes)
    requires forall v :: ':' !in env.inputHash(v)
    requires Run(cfg, INIT, actions).Some? && i < |Run(cfg, INIT, actions).value.lookups|
    ensures
      var s := Run(cfg, INIT, actions).value;
      var l := s.lookups[i];
      var own := WarmEntries(env, traceOf(l.window), l.window.needle, maxSpans, maxBytes);
      match l.pc
      case Done(Hit(r)) =>
        if Foreign(l.hash) then ChosenFor(cfg, ForeignWindow(l.window, l.hash), AfterLastColon(l.hash), r)
        else (exists e :: e in own && e.hash == l.hash) && forall e :: e in own && e.hash == l.hash ==> e.response == r
      case Done(Miss) =>
        l.window.ReadyKey() in s.ready && forall e :: e in own ==> e.hash != l.hash
      case _ => true
  {
    RunConsistent(cfg, INIT, actions);
    var s := Run(cfg, INIT, actions).value;
    var l := s.lookups[i];
    assert l in s.lookups && LookupOk(cfg, s, l);
    if l.pc.Done? && l.pc.answer.Hit? {
      ChosenHashesAreClear(cfg, env, traceOf, maxSpans, maxBytes);
      BackedBy(cfg, l.window, l.hash, l.pc.answer.response);
      if !Foreign(l.hash) {
        var stop := SelectionGuarantees(env, traceOf(l.window), l.window.needle, maxSpans, maxBytes);
        OneResponse(cfg, l.window, l.hash, l.pc.answer.response);
      }
    }
  }

  lemma OneResponse(cfg: Config, window: Window, hash: string, r: Response)
    requires ChosenFor(cfg, window, hash, r) && DistinctHashes(cfg.chosen(window))
    ensures forall e :: e in cfg.chosen(window) && e.hash == hash ==> e.response == r
  {
  }

  ghost predicate ReplaysFirst(env: Env, trace: seq<SpanRow>, hash: string, r: Response) {
    exists j :: 0 <= j < |trace| && FirstOfItsHash(env, trace, j, hash) && Replays(env, trace[j], r)
  }

  /** In every run, a hit on a hash that is not foreign replays the earliest recording of its input in its own trace. */
  lemma HitReplaysTheRecording(cfg: Config, env: Env, traceOf: Window -> seq<SpanRow>, maxSpans: nat, maxBytes: nat,
                               actions: seq<Action>, l: Lookup)
    requires Selects(cfg, env, traceOf, maxSpans, maxBytes)
    requires Run(cfg, INIT, actions).Some? && l in Run(cfg, INIT, actions).value.lookups
    requires l.pc.Done? && l.pc.answer.Hit? && !Foreign(l.hash)
    ensures ReplaysFirst(env, traceOf(l.window), l.hash, l.pc.answer.response)
  {
    var s := Run(cfg, INIT, actions).value;
    var i :| 0 <= i < |s.lookups| && s.lookups[i] == l;
    AnswersMatchSelection(cfg, env, traceOf, maxSpans, maxBytes, actions, i);
    var trace := traceOf(l.window);
    var e :| e in WarmEntries(env, trace, l.window.needle, maxSpans, maxBytes) && e.hash == l.hash;
    ServedEntryIsTheRecording(env, trace, l.window.needle, maxSpans, maxBytes, e);
  }

  // ---- runs ---------------------------------------------------------------------

  lemma {:induction false} RunAppend(cfg: Config, s: State, a: seq<Action>, b: seq<Action>)
    requires Run(cfg, s, a).Some?
    ensures Run(cfg, s, a + b) == Run(cfg, Run(cfg, s, a).value, b)
    decreases |a|
  {
    if a == [] {
      assert a + b == b;
    } else {
      assert (a + b)[0] == a[0] && (a + b)[1..] == a[1..] + b;
      RunAppend(cfg, Step(cfg, s, a[0]).value, a[1..], b);
    }
  }

  lemma RunSnoc(cfg: Config, s: State, actions: seq<Action>, t: State, a: Action)
    requires Run(cfg, s, actions) == Some(t) && Step(cfg, t, a).Some?
    ensures Run(cfg, s, actions + [a]) == Step(cfg, t, a)
  {
    RunAppend(cfg, s, actions, [a]);
    assert [a][1..] == [];
  }

  /** A successful warmup of a cold window nobody is warming, by a lookup of its own. */
  lemma WarmUp(cfg: Config, s: State, window: Window, actions: seq<Action>) returns (more: seq<Action>, t: State)
    requires Consistent(cfg, INIT) && Run(cfg, INIT, actions) == Some(s)
    requires window.Valid() && window.ReadyKey() !in s.ready && !Held(s.locks, window.LockKey(), s.now)
    ensures Run(cfg, INIT, more) == Some(t)
    ensures t.now == s.now && window.ReadyKey() in t.ready && t.ready == s.ready + {window.ReadyKey()}
    ensures forall key :: key in s.store ==> key in t.store
    ensures Stored(cfg, t.store, window, |cfg.chosen(window)|)
    ensures forall key :: key != window.LockKey() ==> (Held(t.locks, key, t.now) <==> Held(s.locks, key, s.now))
  {
    var i, w := |s.lookups|, |s.warms|;
    var s1 := Step(cfg, s, Start(window, "")).value;
    RunSnoc(cfg, INIT, actions, s, Start(window, ""));
    more := actions + [Start(window, "")];
    var s2 := Step(cfg, s1, CheckReady(i, true)).value;
    RunSnoc(cfg, INIT, more, s1, CheckReady(i, true));
    more := more + [CheckReady(i, true)];
    var s3 := Step(cfg, s2, TryAcquire(i, true)).value;
    RunSnoc(cfg, INIT, more, s2, TryAcquire(i, true));
    more := more + [TryAcquire(i, true)];
    t := Step(cfg, s3, Build(w, true)).value;
    RunSnoc(cfg, INIT, more, s3, Build(w, true));
    more := more + [Build(w, true)];
    more, t := WriteAll(cfg, t, w, more);
  }

  lemma {:induction false} WriteAll(cfg: Config, s: State, w: nat, actions: seq<Action>)
    returns (more: seq<Action>, t: State)
    requires Run(cfg, INIT, actions) == Some(s)
    requires w < |s.warms| && s.warms[w].pc.Writing?
    ensures Run(cfg, INIT, more) == Some(t)
    ensures t.now == s.now && t.locks == s.locks && t.ready == s.ready + {s.warms[w].window.ReadyKey()}
    ensures forall key :: key in s.store ==> key in t.store
    ensures Stored(cfg, t.store, s.warms[w].window, |cfg.chosen(s.warms[w].window)|)
    decreases |cfg.chosen(s.warms[w].window)| - s.warms[w].pc.written
  {
    RunConsistent(cfg, INIT, actions);
    assert s.warms[w] in s.warms && WarmOk(cfg, s, s.warms[w]);
    var a := WriteNext(w, true);
    var next := Step(cfg, s, a).value;
    RunSnoc(cfg, INIT, actions, s, a);
    if s.warms[w].pc.written == |cfg.chosen(s.warms[w].window)| {
      more, t := actions + [a], next;
    } else {
      more, t := WriteAll(cfg, next, w, actions + [a]);
    }
  }

  /** A lookup on a warm window whose key is stored is a hit. */
  lemma LookUp(cfg: Config, s: State, window: Window, hash: string, actions: seq<Action>)
    returns (more: seq<Action>, t: State, r: Response)
    requires Run(cfg, INIT, actions) == Some(s)
    requires window.Valid() && window.ReadyKey() in s.ready && window.EntryKey(hash) in s.store
    ensures Run(cfg, INIT, more) == Some(t) && Lookup(window, hash, Done(Hit(r))) in t.lookups
  {
    var i := |s.lookups|;
    var s1 := Step(cfg, s, Start(window, hash)).value;
    RunSnoc(cfg, INIT, actions, s, Start(window, hash));
    more := actions + [Start(window, hash)];
    var s2 := Step(cfg, s1, CheckReady(i, true)).value;
    RunSnoc(cfg, INIT, more, s1, CheckReady(i, true));
    more := more + [CheckReady(i, true)];
    t := Step(cfg, s2, Read(i, true)).value;
    RunSnoc(cfg, INIT, more, s2, Read(i, true));
    more := more + [Read(i, true)];
    r := s.store[window.EntryKey(hash)];
    assert t.lookups[i] == Lookup(window, hash, Done(Hit(r)));
  }

  // ---- when answers are a window's own --------------------------------------------

  ghost predicate IsHit(cfg: Config, actions: seq<Action>, window: Window, hash: string, r: Response) {
    Run(cfg, INIT, actions).Some? && Lookup(window, hash, Done(Hit(r))) in Run(cfg, INIT, actions).value.lookups
  }

  /** In every run, a hit of this lookup carries what its own window chose. */
  ghost predicate AlwaysOwn(cfg: Config, window: Window, hash: string) {
    forall actions, r :: IsHit(cfg, actions, window, hash, r) ==> ChosenFor(cfg, window, hash, r)
  }

  /** The foreign window a hash names holds the entry it names. */
  ghost predicate Reachable(cfg: Config, window: Window, hash: string) {
    Foreign(hash) && exists e :: e in cfg.chosen(ForeignWindow(window, hash)) && e.hash == AfterLastColon(hash)
  }

  /** Both windows warmed, a lookup in one is answered from the other. */
  lemma ForeignHit(cfg: Config, window: Window, hash: string) returns (actions: seq<Action>, r: Response)
    requires window.Valid() && ClearHashes(cfg) && Reachable(cfg, window, hash)
    ensures IsHit(cfg, actions, window, hash, r)
    ensures NotChosen(cfg, window, hash)
  {
    var foreign := ForeignWindow(window, hash);
    ForeignKey(window, hash);
    var s, t;
    if foreign.LockKey() == window.LockKey() || foreign.ReadyKey() == window.ReadyKey() {
      WindowKeysAreInjective(foreign, window);
    }
    actions, s := WarmUp(cfg, INIT, foreign, []);
    actions, t := WarmUp(cfg, s, window, actions);
    var chosen := cfg.chosen(foreign);
    var k :| 0 <= k < |chosen| && chosen[k].hash == AfterLastColon(hash);
    assert foreign.EntryKey(chosen[k].hash) in s.store;
    actions, t, r := LookUp(cfg, t, window, hash, actions);
  }

  /**
    Whatever entries the windows hold: the answers are the window's own if
    and only if the hash reaches no foreign entry.
   */
  lemma AnswersAreOwnIff(cfg: Config, window: Window, hash: string)
    requires window.Valid() && ClearHashes(cfg)
    ensures AlwaysOwn(cfg, window, hash) <==> !Reachable(cfg, window, hash)
  {
    if Reachable(cfg, window, hash) {
      var actions, r := ForeignHit(cfg, window, hash);
      assert !ChosenFor(cfg, window, hash, r);
    } else {
      forall actions, r | IsHit(cfg, actions, window, hash, r)
        ensures ChosenFor(cfg, window, hash, r)
      {
        RunConsistent(cfg, INIT, actions);
        assert LookupOk(cfg, Run(cfg, INIT, actions).value, Lookup(window, hash, Done(Hit(r))));
        BackedBy(cfg, window, hash, r);
      }
    }
  }

  /** The windows hold what selection yields for them. */
  ghost predicate Selects(cfg: Config, env: Env, traceOf: Window -> seq<SpanRow>, maxSpans: nat, maxBytes: nat) {
    && (forall w: Window :: cfg.chosen(w) == WarmEntries(env, traceOf(w), w.needle, maxSpans, maxBytes))
    && (forall v :: ':' !in env.inputHash(v))
  }

  /**
    What a caller can check: over all traces and limits, answers are a
    window's own if and only if the hash is not foreign.
   */
  lemma AnswersAreOwnIffNotForeign(window: Window, hash: string)
    requires window.Valid()
    ensures (forall cfg, env, traceOf, maxSpans, maxBytes :: Selects(cfg, env, traceOf, maxSpans, maxBytes) ==>
        AlwaysOwn(cfg, window, hash))
       <==> !Foreign(hash)
  {
    if Foreign(hash) {
      LastColonSplits(hash);
      var cfg, env, traceOf := TwoSpanTraces(AfterLastColon(hash));
      ChosenHashesAreClear(cfg, env, traceOf, 1, 0);
      ForeignKey(window, hash);
      assert Reachable(cfg, window, hash);
      AnswersAreOwnIff(cfg, window, hash);
      assert Selects(cfg, env, traceOf, 1, 0);
    } else {
      forall cfg, env, traceOf, maxSpans, maxBytes | Selects(cfg, env, traceOf, maxSpans, maxBytes)
        ensures AlwaysOwn(cfg, window, hash)
      {
        ChosenHashesAreClear(cfg, env, traceOf, maxSpans, maxBytes);
        AnswersAreOwnIff(cfg, window, hash);
      }
    }
  }

  /** Every trace has two spans of different input and room for one entry, so every selection stops at the ceiling. */
  lemma TwoSpanTraces(first: string) returns (cfg: Config, env: Env, traceOf: Window -> seq<SpanRow>)
    requires ':' !in first
    ensures Selects(cfg, env, traceOf, 1, 0)
    ensures forall w: Window :: exists e :: e in cfg.chosen(w) && e.hash == first
  {
    env := Env(x => Some(Str(x)), x => x, v => if v == Str("1") then first else first + "0", _ => 0);
    var a := SpanRow("0123456789abcdef0123456789abcdef", "1", "x", "", "", "", "", "");
    var b := a.(input := "2");
    traceOf := _ => [a, b];
    var fixed := env;
    cfg := Config((w: Window) => WarmEntries(fixed, [a, b], w.needle, 1, 0), 2, 0);
    forall w: Window
      ensures exists e :: e in cfg.chosen(w) && e.hash == first
    {
      KeepsFirstAtCeiling(env, a, b, w.needle);
    }
  }

  lemma KeepsFirstAtCeiling(env: Env, a: SpanRow, b: SpanRow, needle: string)
    requires Candidate(env, a).Some? && Candidate(env, b).Some?
    requires Candidate(env, a).value.bytes == 0 && Candidate(env, a).value.hash != Candidate(env, b).value.hash
    ensures WarmEntries(env, [a, b], needle, 1, 0) == [Candidate(env, a).value]
  {
    var s := ScanOf(env, [a, b], needle, 1, 0);
    assert s.rows[0] == Candidate(env, a) && s.rows[1] == Candidate(env, b);
    assert s.First(0) && s.First(1);
    assert s.Kept(0) == [] && s.Kept(1) == [Candidate(env, a).value];
    assert !s.Ceiling(0) && s.Ceiling(1);
    assert s.From(1) == (s.Kept(1), CeilingHit);
    assert s.From(0) == if s.matches[0] then (s.Kept(1), NeedleFound) else s.From(1);
  }
}
