/** The cache keys of the replay cache, and which of them can be confused. */
module ReplayKeys {
  import opened Common
  import opened ReplaySelection

  const DEBUGGER_CACHE_KEY := "debugger_replay_cache"
  const DEBUGGER_CACHE_READY_KEY := "debugger_replay_ready"
  const DEBUGGER_CACHE_LOCK_KEY := "debugger_replay_lock"

  /** What a set of entries is warmed for; project and trace are UUIDs, the needle is any string. */
  datatype Window = Window(project: string, trace: string, needle: string) {
    predicate Valid() {
      ':' !in project && ':' !in trace && NormalizeNeedle(needle) == needle
    }

    function Scope(): string { project + ":" + (trace + ":" + needle) }

    function ReadyKey(): string { DEBUGGER_CACHE_READY_KEY + ":" + Scope() }

    function LockKey(): string { DEBUGGER_CACHE_LOCK_KEY + ":" + Scope() }

    function EntryKey(hash: string): string {
      DEBUGGER_CACHE_KEY + ":" + (project + ":" + (trace + ":" + (needle + ":" + hash)))
    }
  }

  lemma SplitAtFirstColon(a: string, x: string, b: string, y: string)
    requires ':' !in a && ':' !in b && a + ":" + x == b + ":" + y
    ensures a == b && x == y
  {
    var s := a + ":" + x;
    var c, d := s[|a|], s[|b|];
    assert |a| < |b| ==> c in b;
    assert |b| < |a| ==> d in a;
    assert s[..|a|] == a && s[..|b|] == b;
    assert s[|a| + 1..] == x && s[|b| + 1..] == y;
  }

  lemma SplitAtLastColon(a: string, x: string, b: string, y: string)
    requires ':' !in x && ':' !in y && a + ":" + x == b + ":" + y
    ensures a == b && x == y
  {
    var s := a + ":" + x;
    var c, d := s[|a|], s[|b|];
    assert |a| < |b| ==> d in x;
    assert |b| < |a| ==> c in y;
    assert s[..|a|] == a && s[..|b|] == b;
    assert s[|a| + 1..] == x && s[|b| + 1..] == y;
  }

  function BeforeLastColon(s: string): string {
    if ':' !in s then "" else if ':' in s[1..] then [s[0]] + BeforeLastColon(s[1..]) else ""
  }

  function AfterLastColon(s: string): string {
    if ':' !in s then s else AfterLastColon(s[1..])
  }

  lemma {:induction false} LastColonSplits(s: string)
    requires ':' in s
    ensures ':' !in AfterLastColon(s)
    ensures s == BeforeLastColon(s) + ":" + AfterLastColon(s)
  {
    if ':' in s[1..] {
      LastColonSplits(s[1..]);
    } else {
      assert s[0] == ':' && s == ":" + s[1..];
    }
  }

  lemma EntryKeysShareTrace(a: Window, g: string, b: Window, h: string)
    requires a.Valid() && b.Valid() && a.EntryKey(g) == b.EntryKey(h)
    ensures a.project == b.project && a.trace == b.trace && a.needle + ":" + g == b.needle + ":" + h
  {
    SplitAtFirstColon(DEBUGGER_CACHE_KEY, a.project + ":" + (a.trace + ":" + (a.needle + ":" + g)),
                      DEBUGGER_CACHE_KEY, b.project + ":" + (b.trace + ":" + (b.needle + ":" + h)));
    SplitAtFirstColon(a.project, a.trace + ":" + (a.needle + ":" + g), b.project, b.trace + ":" + (b.needle + ":" + h));
    SplitAtFirstColon(a.trace, a.needle + ":" + g, b.trace, b.needle + ":" + h);
  }

  /** Windows do not share the entry keys of hashes without a colon. */
  lemma EntryKeysAreInjective(a: Window, g: string, b: Window, h: string)
    requires a.Valid() && b.Valid() && ':' !in g && ':' !in h
    requires a.EntryKey(g) == b.EntryKey(h)
    ensures a == b && g == h
  {
    EntryKeysShareTrace(a, g, b, h);
    SplitAtLastColon(a.needle, g, b.needle, h);
  }

  /** Different windows have different ready markers and different locks. */
  lemma WindowKeysAreInjective(a: Window, b: Window)
    requires a.Valid() && b.Valid()
    requires a.ReadyKey() == b.ReadyKey() || a.LockKey() == b.LockKey()
    ensures a == b
  {
    if a.ReadyKey() == b.ReadyKey() {
      SplitAtFirstColon(DEBUGGER_CACHE_READY_KEY, a.Scope(), DEBUGGER_CACHE_READY_KEY, b.Scope());
    } else {
      SplitAtFirstColon(DEBUGGER_CACHE_LOCK_KEY, a.Scope(), DEBUGGER_CACHE_LOCK_KEY, b.Scope());
    }
    SplitAtFirstColon(a.project, a.trace + ":" + a.needle, b.project, b.trace + ":" + b.needle);
    SplitAtFirstColon(a.trace, a.needle, b.trace, b.needle);
  }

  /**
    A hash as a caller may send it names an entry of a foreign window: it holds
    a colon, and what stands before its last one could be the tail of a needle.
   */
  predicate Foreign(hash: string) {
    ':' in hash && NormalizeNeedle(BeforeLastColon(hash)) == BeforeLastColon(hash)
  }

  /** The window whose entries a foreign hash reaches from `win`. */
  function ForeignWindow(win: Window, hash: string): Window {
    win.(needle := win.needle + ":" + BeforeLastColon(hash))
  }

  lemma NormalizeWithColon(a: string, b: string)
    ensures NormalizeNeedle(a + ":" + b) == NormalizeNeedle(a) + ":" + NormalizeNeedle(b)
  {
    NormalizeAppend(a + ":", b);
    NormalizeAppend(a, ":");
    assert ":"[1..] == "";
  }

  lemma ForeignKey(win: Window, hash: string)
    requires win.Valid() && Foreign(hash)
    ensures var foreign := ForeignWindow(win, hash);
      foreign.Valid() && foreign != win && foreign.EntryKey(AfterLastColon(hash)) == win.EntryKey(hash)
  {
    var a, b := BeforeLastColon(hash), AfterLastColon(hash);
    LastColonSplits(hash);
    NormalizeWithColon(win.needle, a);
    Associate(win.needle + ":", a, ":");
    Associate(win.needle + ":", a + ":", b);
    assert |win.needle + ":" + a| > |win.needle|;
  }

  /**
    Stored entries have hashes without a colon; a lookup's key is its own
    window's alone iff its hash is not foreign.
   */
  lemma KeyIsOwnIffNotForeign(win: Window, hash: string)
    requires win.Valid()
    ensures (forall w: Window, h: string :: w.Valid() && ':' !in h && w.EntryKey(h) == win.EntryKey(hash) ==>
        w == win && h == hash)
       <==> !Foreign(hash)
  {
    if Foreign(hash) {
      ForeignKey(win, hash);
      LastColonSplits(hash);
    } else {
      forall w: Window, h: string | w.Valid() && ':' !in h && w.EntryKey(h) == win.EntryKey(hash)
        ensures w == win && h == hash
      {
        OnlyOwnKey(win, hash, w, h);
      }
    }
  }

  lemma OnlyOwnKey(win: Window, hash: string, w: Window, h: string)
    requires win.Valid() && w.Valid() && ':' !in h && w.EntryKey(h) == win.EntryKey(hash) && !Foreign(hash)
    ensures w == win && h == hash
  {
    EntryKeysShareTrace(w, h, win, hash);
    if ':' !in hash {
      SplitAtLastColon(w.needle, h, win.needle, hash);
    } else {
      var a, b := BeforeLastColon(hash), AfterLastColon(hash);
      LastColonSplits(hash);
      assert win.needle + ":" + hash == win.needle + ":" + a + ":" + b;
      SplitAtLastColon(w.needle, h, win.needle + ":" + a, b);
      NormalizeWithColon(win.needle, a);
      NormalizedTail(win.needle, a);
      assert false;
    }
  }

  lemma NormalizedTail(needle: string, a: string)
    requires NormalizeNeedle(needle) == needle && NormalizeNeedle(needle + ":" + a) == needle + ":" + a
    ensures NormalizeNeedle(a) == a
  {
    NormalizeWithColon(needle, a);
    var s := needle + ":" + a;
    assert s[|needle| + 1..] == a;
    assert s == needle + ":" + NormalizeNeedle(a);
    assert s[|needle| + 1..] == NormalizeNeedle(a);
  }
}
