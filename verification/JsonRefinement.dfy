/**
  The second phase as a list of tree edits, and the proof that running the
  edits in the walker's order yields the tree of the recursive redactor.
 */
module JsonRefinement {
  import opened Common
  import opened Json
  import opened JsonPointer
  import opened JsonWalker

  datatype Edit = Write(path: Path, text: string) | Restringify(path: Path)

  function ApplyEdit(cfg: Config, t: Value, e: Edit): Option<Value> {
    match e
    case Write(path, text) => Assign(t, path, Str(text))
    case Restringify(path) =>
      (match Resolve(t, path)
       case None => None
       case Some(x) => Assign(t, path, Str(cfg.ser(x))))
  }

  function ApplyEdits(cfg: Config, t: Value, es: seq<Edit>): Option<Value>
    decreases |es|
  {
    if es == [] then Some(t)
    else
      match ApplyEdit(cfg, t, es[0])
      case None => None
      case Some(u) => ApplyEdits(cfg, u, es[1..])
  }

  /** Writes first, then each marker once, a deeper one never after a shallower one. */
  predicate Before(a: Edit, b: Edit) {
    a.Restringify? ==> b.Restringify? && a.path != b.path && |a.path| >= |b.path|
  }

  ghost predicate Ordered(es: seq<Edit>) {
    es != [] ==> (forall e :: e in es[1..] ==> Before(es[0], e)) && Ordered(es[1..])
  }

  lemma {:induction false} OrderedFromPairs(es: seq<Edit>)
    requires forall i, j :: 0 <= i < j < |es| ==> Before(es[i], es[j])
    ensures Ordered(es)
  {
    if es != [] {
      OrderedFromPairs(es[1..]);
    }
  }

  // ---- which edits belong to a node, by path -------------------------------

  /** Stringified JSON was expanded at `p` below `v`. */
  ghost predicate IsMarker(cfg: Config, v: Value, depth: nat, p: Path)
    decreases Fuel(depth), v
  {
    match v
    case Str(s) =>
      (match Expansion(cfg, s, depth)
       case Some(x) => p == [] || IsMarker(cfg, x, depth + 1, p)
       case None => false)
    case _ =>
      p != [] && exists i :: 0 <= i < Count(v) && Token(v, i) == p[0] && !Skipped(cfg, v, i)
                          && IsMarker(cfg, Kid(v, i), depth, p[1..])
  }

  /** A leaf with text `s` sits at `p` below `v`, its bytes starting at `start`. */
  ghost predicate IsLeaf(cfg: Config, v: Value, key: Option<string>, depth: nat, off: nat,
                         p: Path, start: nat, s: string)
    decreases Fuel(depth), v
  {
    match v
    case Str(t) =>
      (match Expansion(cfg, t, depth)
       case Some(x) => IsLeaf(cfg, x, key, depth + 1, off, p, start, s)
       case None => p == [] && s == t && t != "" && start == off + |KeyPrefix(key)|)
    case _ =>
      p != [] && exists i :: 0 <= i < Count(v) && Token(v, i) == p[0] && !Skipped(cfg, v, i)
                          && IsLeaf(cfg, Kid(v, i), KidKey(v, i, key), depth, KidOffset(cfg, v, key, depth, off, i),
                                    p[1..], start, s)
  }

  /** The parameters that stay fixed during one redaction. */
  datatype Job = Job(cfg: Config, rewrite: LeafRewrite)

  ghost predicate IsWrite(job: Job, v: Value, key: Option<string>, depth: nat, off: nat, p: Path, text: string) {
    exists start: nat, s: string ::
      IsLeaf(job.cfg, v, key, depth, off, p, start, s) && job.rewrite(start, s) == Some(text)
  }

  /** `es` is an admissible order of exactly the edits owed to `v`. */
  ghost predicate Plan(job: Job, v: Value, key: Option<string>, depth: nat, off: nat, es: seq<Edit>) {
    && Ordered(es)
    && (forall p :: Restringify(p) in es <==> IsMarker(job.cfg, v, depth, p))
    && (forall p, text :: Write(p, text) in es <==> IsWrite(job, v, key, depth, off, p, text))
  }

  // ---- edits below one child -----------------------------------------------

  /** The edits below child `token`, as that child sees them. */
  function Below(es: seq<Edit>, token: string): seq<Edit> {
    if es == [] then []
    else if es[0].path != [] && es[0].path[0] == token
    then [es[0].(path := es[0].path[1..])] + Below(es[1..], token)
    else Below(es[1..], token)
  }

  lemma {:induction false} InBelow(es: seq<Edit>, token: string, e: Edit)
    ensures e in Below(es, token) <==> e.(path := [token] + e.path) in es
  {
    if es != [] {
      InBelow(es[1..], token, e);
      var up := e.(path := [token] + e.path);
      assert ([token] + e.path)[1..] == e.path;
      if es[0].path != [] && es[0].path[0] == token {
        assert es[0].path == [token] + es[0].path[1..];
        assert up == es[0] <==> e == es[0].(path := es[0].path[1..]);
      }
      assert up in es <==> up == es[0] || up in es[1..];
    }
  }

  lemma {:induction false} BelowOrdered(es: seq<Edit>, token: string)
    requires Ordered(es)
    ensures Ordered(Below(es, token))
  {
    if es != [] {
      BelowOrdered(es[1..], token);
      if es[0].path != [] && es[0].path[0] == token {
        var first := es[0].(path := es[0].path[1..]);
        var rest := Below(es[1..], token);
        assert es[0].path == [token] + first.path;
        forall e | e in rest
          ensures Before(first, e)
        {
          InBelow(es[1..], token, e);
          assert Before(es[0], e.(path := [token] + e.path));
        }
        assert Below(es, token)[1..] == rest;
      }
    }
  }

  lemma AssignChild(t: Value, i: nat, p: Path, x: Value)
    requires DistinctKeys(t) && i < Count(t)
    ensures var path := [Token(t, i)] + p;
      && (Resolve(t, path) == Resolve(Kid(t, i), p))
      && (Assign(t, path, x) ==
           match Assign(Kid(t, i), p, x)
           case None => None
           case Some(k) => Some(WithKid(t, i, k)))
  {
    FindChildByToken(t, i);
    assert ([Token(t, i)] + p)[1..] == p;
  }

  /** Replacing a child changes neither the tokens nor the other children. */
  lemma WithKidFrame(t: Value, i: nat, x: Value)
    requires i < Count(t) && DistinctKeys(t)
    ensures var u := WithKid(t, i, x);
      && IsContainer(u) && Count(u) == Count(t) && DistinctKeys(u)
      && (forall j :: 0 <= j < Count(t) ==> Token(u, j) == Token(t, j))
      && (forall j :: 0 <= j < Count(t) ==> Kid(u, j) == if j == i then x else Kid(t, j))
  {
  }

  lemma TokensDiffer(t: Value, i: nat, j: nat)
    requires i < Count(t) && j < Count(t) && i != j && DistinctKeys(t)
    ensures Token(t, i) != Token(t, j)
  {
    FindChildByToken(t, i);
    FindChildByToken(t, j);
  }

  /** What the induction below carries from edit to edit. */
  ghost predicate SplitsInto(cfg: Config, t: Value, es: seq<Edit>, kids: seq<Value>) {
    && IsContainer(t) && DistinctKeys(t) && |kids| == Count(t)
    && (forall e :: e in es ==> e.path != [] && exists i :: 0 <= i < Count(t) && Token(t, i) == e.path[0])
    && (forall i :: 0 <= i < Count(t) ==> ApplyEdits(cfg, Kid(t, i), Below(es, Token(t, i))) == Some(kids[i]))
  }

  lemma WithKidsIgnoresKids(t: Value, j: nat, k: Value, kids: seq<Value>)
    requires IsContainer(t) && j < Count(t) == |kids|
    ensures IsContainer(WithKid(t, j, k)) && Count(WithKid(t, j, k)) == Count(t)
    ensures WithKids(WithKid(t, j, k), kids) == WithKids(t, kids)
  {
  }

  /** The first edit of a child, seen from that child. */
  lemma FirstBelow(cfg: Config, t: Value, es: seq<Edit>, j: nat, kid: Value)
    requires IsContainer(t) && j < Count(t) && es != [] && es[0].path != [] && es[0].path[0] == Token(t, j)
    requires ApplyEdits(cfg, Kid(t, j), Below(es, Token(t, j))) == Some(kid)
    ensures ApplyEdit(cfg, Kid(t, j), es[0].(path := es[0].path[1..])).Some?
    ensures var u := ApplyEdit(cfg, Kid(t, j), es[0].(path := es[0].path[1..])).value;
      ApplyEdits(cfg, u, Below(es[1..], Token(t, j))) == Some(kid)
  {
    var below := Below(es, Token(t, j));
    assert below[0] == es[0].(path := es[0].path[1..]) && below[1..] == Below(es[1..], Token(t, j));
  }

  lemma SplitStep(cfg: Config, t: Value, es: seq<Edit>, kids: seq<Value>) returns (u: Value)
    requires SplitsInto(cfg, t, es, kids) && es != []
    ensures ApplyEdit(cfg, t, es[0]) == Some(u)
    ensures SplitsInto(cfg, u, es[1..], kids)
    ensures WithKids(u, kids) == WithKids(t, kids)
  {
    var e, rest := es[0], es[1..];
    assert e in es;
    var j: nat :| j < Count(t) && Token(t, j) == e.path[0];
    var inner := e.(path := e.path[1..]);
    assert e.path == [Token(t, j)] + inner.path;
    FirstBelow(cfg, t, es, j, kids[j]);
    var k := ApplyEdit(cfg, Kid(t, j), inner).value;
    EditChild(cfg, t, j, inner);
    u := WithKid(t, j, k);
    WithKidFrame(t, j, k);
    WithKidsIgnoresKids(t, j, k, kids);
    forall i | 0 <= i < Count(u)
      ensures ApplyEdits(cfg, Kid(u, i), Below(rest, Token(u, i))) == Some(kids[i])
    {
      assert ApplyEdits(cfg, Kid(t, i), Below(es, Token(t, i))) == Some(kids[i]);
      if i != j {
        TokensDiffer(t, i, j);
      }
    }
    forall f | f in rest
      ensures f.path != [] && exists i :: 0 <= i < Count(u) && Token(u, i) == f.path[0]
    {
      assert f in es;
      var i: nat :| i < Count(t) && Token(t, i) == f.path[0];
      assert Token(u, i) == f.path[0];
    }
  }

  /**
    Edits below different children do not interfere: applying an arbitrarily
    interleaved list to a node applies to each child its own sublist.
   */
  lemma {:induction false} EditsSplitByChild(cfg: Config, t: Value, es: seq<Edit>, kids: seq<Value>)
    requires SplitsInto(cfg, t, es, kids)
    ensures ApplyEdits(cfg, t, es) == Some(WithKids(t, kids))
    decreases |es|
  {
    if es == [] {
      assert forall i :: 0 <= i < Count(t) ==> ApplyEdits(cfg, Kid(t, i), Below(es, Token(t, i))) == Some(Kid(t, i));
      if t.Arr? {
        assert t.items == kids;
      } else {
        assert WithKids(t, kids).members == t.members;
      }
    } else {
      var u := SplitStep(cfg, t, es, kids);
      EditsSplitByChild(cfg, u, es[1..], kids);
    }
  }

  lemma EditChild(cfg: Config, t: Value, j: nat, inner: Edit)
    requires j < Count(t) && DistinctKeys(t) && ApplyEdit(cfg, Kid(t, j), inner).Some?
    ensures ApplyEdit(cfg, t, inner.(path := [Token(t, j)] + inner.path))
         == Some(WithKid(t, j, ApplyEdit(cfg, Kid(t, j), inner).value))
  {
    match inner
    case Write(p, text) => AssignChild(t, j, p, Str(text));
    case Restringify(p) => AssignChild(t, j, p, Str(cfg.ser(Resolve(Kid(t, j), p).value)));
  }

  // ---- the refinement --------------------------------------------------------

  lemma ExpandFrame(cfg: Config, v: Value, depth: nat)
    requires IsContainer(v) && DistinctKeys(v)
    ensures var t := Expand(cfg, v, depth);
      && IsContainer(t) && Count(t) == Count(v) && DistinctKeys(t)
      && (forall i :: 0 <= i < Count(v) ==> Token(t, i) == Token(v, i) && Kid(t, i) == ExpandedKid(cfg, v, i, depth))
  {
  }

  function RedactedKid(job: Job, v: Value, key: Option<string>, depth: nat, off: nat, i: nat): Value
    requires i < Count(v)
  {
    if Skipped(job.cfg, v, i) then Kid(v, i)
    else Redact(job.cfg, Kid(v, i), KidKey(v, i, key), depth, KidOffset(job.cfg, v, key, depth, off, i), job.rewrite)
  }

  lemma RedactKids(job: Job, v: Value, key: Option<string>, depth: nat, off: nat, t: Value, kids: seq<Value>)
    requires IsContainer(v) && |kids| == Count(v) && IsContainer(t)
    requires v.Arr? == t.Arr? && Count(t) == Count(v) && forall i :: 0 <= i < Count(v) ==> Token(t, i) == Token(v, i)
    requires forall i :: 0 <= i < Count(v) ==> kids[i] == RedactedKid(job, v, key, depth, off, i)
    ensures Redact(job.cfg, v, key, depth, off, job.rewrite) == WithKids(t, kids)
  {
    var r := Redact(job.cfg, v, key, depth, off, job.rewrite);
    if v.Obj? {
      forall i | 0 <= i < |kids|
        ensures r.members[i] == WithKids(t, kids).members[i]
      {
        assert Token(t, i) == Token(v, i);
        assert kids[i] == RedactedKid(job, v, key, depth, off, i);
      }
      assert r.members == WithKids(t, kids).members;
    } else {
      assert r.items == kids;
    }
  }

  /** The edits owed to child `i` are the parent's edits below its token. */
  lemma PlanOfKid(job: Job, v: Value, key: Option<string>, depth: nat, off: nat, es: seq<Edit>, i: nat)
    requires IsContainer(v) && DistinctKeys(v) && i < Count(v)
    requires Plan(job, v, key, depth, off, es)
    ensures var below := Below(es, Token(v, i));
      if Skipped(job.cfg, v, i) then below == []
      else Plan(job, Kid(v, i), KidKey(v, i, key), depth, KidOffset(job.cfg, v, key, depth, off, i), below)
  {
    var token := Token(v, i);
    var below := Below(es, token);
    var at := KidOffset(job.cfg, v, key, depth, off, i);
    BelowOrdered(es, token);
    forall p
      ensures Restringify(p) in below <==> !Skipped(job.cfg, v, i) && IsMarker(job.cfg, Kid(v, i), depth, p)
    {
      InBelow(es, token, Restringify(p));
      MarkerOfKid(job.cfg, v, depth, i, p);
    }
    forall p, text
      ensures Write(p, text) in below
         <==> !Skipped(job.cfg, v, i) && IsWrite(job, Kid(v, i), KidKey(v, i, key), depth, at, p, text)
    {
      InBelow(es, token, Write(p, text));
      WriteOfKid(job, v, key, depth, off, i, p, text);
    }
    if Skipped(job.cfg, v, i) && below != [] {
      assert below[0] in below;
      match below[0]
      case Write(p, text) => assert false;
      case Restringify(p) => assert false;
    }
  }

  lemma MarkerOfKid(cfg: Config, v: Value, depth: nat, i: nat, p: Path)
    requires IsContainer(v) && DistinctKeys(v) && i < Count(v)
    ensures IsMarker(cfg, v, depth, [Token(v, i)] + p)
       <==> !Skipped(cfg, v, i) && IsMarker(cfg, Kid(v, i), depth, p)
  {
    var up := [Token(v, i)] + p;
    assert up[1..] == p && up[0] == Token(v, i);
    forall j: nat | j < Count(v) && j != i
      ensures Token(v, j) != up[0]
    {
      TokensDiffer(v, i, j);
    }
  }

  lemma LeafOfKid(cfg: Config, v: Value, key: Option<string>, depth: nat, off: nat, i: nat, p: Path, start: nat,
                  s: string)
    requires IsContainer(v) && DistinctKeys(v) && i < Count(v)
    ensures IsLeaf(cfg, v, key, depth, off, [Token(v, i)] + p, start, s)
       <==> (!Skipped(cfg, v, i)
         && IsLeaf(cfg, Kid(v, i), KidKey(v, i, key), depth, KidOffset(cfg, v, key, depth, off, i), p, start, s))
  {
    var up := [Token(v, i)] + p;
    assert up[1..] == p && up[0] == Token(v, i);
    forall j: nat | j < Count(v) && j != i
      ensures Token(v, j) != up[0]
    {
      TokensDiffer(v, i, j);
    }
  }

  lemma WriteOfKid(job: Job, v: Value, key: Option<string>, depth: nat, off: nat, i: nat, p: Path, text: string)
    requires IsContainer(v) && DistinctKeys(v) && i < Count(v)
    ensures IsWrite(job, v, key, depth, off, [Token(v, i)] + p, text)
       <==> (!Skipped(job.cfg, v, i)
         && IsWrite(job, Kid(v, i), KidKey(v, i, key), depth, KidOffset(job.cfg, v, key, depth, off, i), p, text))
  {
    var at := KidOffset(job.cfg, v, key, depth, off, i);
    forall start, s
      ensures IsLeaf(job.cfg, v, key, depth, off, [Token(v, i)] + p, start, s)
         <==> (!Skipped(job.cfg, v, i)
           && IsLeaf(job.cfg, Kid(v, i), KidKey(v, i, key), depth, at, p, start, s))
    {
      LeafOfKid(job.cfg, v, key, depth, off, i, p, start, s);
    }
  }

  lemma {:induction false} OrderedInit(es: seq<Edit>)
    requires es != [] && Ordered(es)
    ensures Ordered(es[..|es| - 1])
    ensures forall i :: 0 <= i < |es| - 1 ==> Before(es[i], es[|es| - 1])
  {
    if |es| > 1 {
      var init := es[..|es| - 1];
      OrderedInit(es[1..]);
      assert init[1..] == es[1..][..|es[1..]| - 1];
      assert forall e :: e in init[1..] ==> e in es[1..];
      assert es[1..][|es| - 2] == es[|es| - 1];
      forall i | 0 <= i < |es| - 1
        ensures Before(es[i], es[|es| - 1])
      {
        if i > 0 {
          assert es[i] == es[1..][i - 1];
        }
      }
    }
  }

  /** The only marker at the root of a node comes after every other edit. */
  lemma {:induction false} RootMarkerIsLast(es: seq<Edit>)
    requires Ordered(es) && Restringify([]) in es
    ensures es[|es| - 1] == Restringify([])
    ensures Restringify([]) !in es[..|es| - 1]
  {
    if es[0] == Restringify([]) {
      assert |es| > 1 ==> es[1] in es[1..] && Before(es[0], es[1]);
    } else {
      RootMarkerIsLast(es[1..]);
      assert es[..|es| - 1] == [es[0]] + es[1..][..|es[1..]| - 1];
    }
  }

  lemma {:induction false} ApplyEditsAppend(cfg: Config, t: Value, es: seq<Edit>, e: Edit)
    requires ApplyEdits(cfg, t, es).Some?
    ensures ApplyEdits(cfg, t, es + [e]) == ApplyEdit(cfg, ApplyEdits(cfg, t, es).value, e)
    decreases |es|
  {
    if es == [] {
      assert es + [e] == [e];
      assert [e][1..] == [];
    } else {
      ApplyEditsAppend(cfg, ApplyEdit(cfg, t, es[0]).value, es[1..], e);
      assert (es + [e])[1..] == es[1..] + [e];
    }
  }

  lemma WriteOfExpansion(job: Job, s: string, x: Value, key: Option<string>, depth: nat, off: nat, p: Path,
                         text: string)
    requires Expansion(job.cfg, s, depth) == Some(x)
    ensures IsWrite(job, Str(s), key, depth, off, p, text) <==> IsWrite(job, x, key, depth + 1, off, p, text)
  {
    assert forall start, t ::
        IsLeaf(job.cfg, Str(s), key, depth, off, p, start, t) <==> IsLeaf(job.cfg, x, key, depth + 1, off, p, start, t);
  }

  /** Edits owed to an expanded string: those of its parsed tree, then its own marker. */
  lemma PlanOfExpansion(job: Job, s: string, x: Value, key: Option<string>, depth: nat, off: nat, es: seq<Edit>)
    requires Expansion(job.cfg, s, depth) == Some(x)
    requires Plan(job, Str(s), key, depth, off, es)
    ensures es != [] && es[|es| - 1] == Restringify([])
    ensures Plan(job, x, key, depth + 1, off, es[..|es| - 1])
  {
    assert IsMarker(job.cfg, Str(s), depth, []);
    RootMarkerIsLast(es);
    OrderedInit(es);
    var init := es[..|es| - 1];
    assert es == init + [Restringify([])];
    assert forall e :: e in es <==> e in init || e == Restringify([]);
    forall p
      ensures Restringify(p) in init <==> IsMarker(job.cfg, x, depth + 1, p)
    {
      assert Restringify(p) in es <==> IsMarker(job.cfg, Str(s), depth, p);
    }
    forall p, text
      ensures Write(p, text) in init <==> IsWrite(job, x, key, depth + 1, off, p, text)
    {
      assert Write(p, text) in es <==> IsWrite(job, Str(s), key, depth, off, p, text);
      WriteOfExpansion(job, s, x, key, depth, off, p, text);
    }
  }

  lemma {:induction false} RepeatedRootWrites(cfg: Config, t: Value, es: seq<Edit>, text: string)
    requires forall e :: e in es ==> e == Write([], text)
    ensures ApplyEdits(cfg, t, es) == Some(if es == [] then t else Str(text))
    decreases |es|
  {
    if es != [] {
      assert es[0] in es;
      assert forall e :: e in es[1..] ==> e in es;
      RepeatedRootWrites(cfg, Str(text), es[1..], text);
    }
  }

  lemma WriteOfLeaf(job: Job, s: string, key: Option<string>, depth: nat, off: nat, p: Path, x: string)
    requires Expansion(job.cfg, s, depth).None?
    ensures IsWrite(job, Str(s), key, depth, off, p, x)
       <==> (p == [] && s != "" && job.rewrite(off + |KeyPrefix(key)|, s) == Some(x))
  {
    if p == [] && s != "" && job.rewrite(off + |KeyPrefix(key)|, s) == Some(x) {
      assert IsLeaf(job.cfg, Str(s), key, depth, off, [], off + |KeyPrefix(key)|, s);
    }
  }

  /** A leaf owes at most the write of its own redacted text, at its own root. */
  lemma EditsOfLeaf(job: Job, s: string, key: Option<string>, depth: nat, off: nat, es: seq<Edit>, owed: Option<string>)
    requires Expansion(job.cfg, s, depth).None?
    requires Plan(job, Str(s), key, depth, off, es)
    requires owed == job.rewrite(off + |KeyPrefix(key)|, s)
    ensures owed.Some? ==> forall e :: e in es ==> e == Write([], owed.value)
    ensures es != [] <==> s != "" && owed.Some?
  {
    var v := Str(s);
    forall p, x
      ensures IsWrite(job, v, key, depth, off, p, x) <==> (p == [] && s != "" && owed == Some(x))
    {
      WriteOfLeaf(job, s, key, depth, off, p, x);
    }
    assert forall p :: !IsMarker(job.cfg, v, depth, p);
    forall e | e in es
      ensures owed.Some? && e == Write([], owed.value) && s != ""
    {
      assert match e
        case Write(p, x) => IsWrite(job, v, key, depth, off, p, x)
        case Restringify(p) => IsMarker(job.cfg, v, depth, p);
    }
    assert s != "" && owed.Some? ==> Write([], owed.value) in es;
    assert es != [] ==> es[0] in es;
  }

  lemma RedactOfLeaf(job: Job, s: string, key: Option<string>, depth: nat, off: nat)
    requires Expansion(job.cfg, s, depth).None?
    ensures Redact(job.cfg, Str(s), key, depth, off, job.rewrite)
         == match job.rewrite(off + |KeyPrefix(key)|, s)
            case Some(text) => if s == "" then Str(s) else Str(text)
            case None => Str(s)
  {
  }

  lemma LeafIsRedacted(job: Job, s: string, key: Option<string>, depth: nat, off: nat, es: seq<Edit>)
    requires Expansion(job.cfg, s, depth).None?
    requires Plan(job, Str(s), key, depth, off, es)
    ensures ApplyEdits(job.cfg, Str(s), es) == Some(Redact(job.cfg, Str(s), key, depth, off, job.rewrite))
  {
    var owed := job.rewrite(off + |KeyPrefix(key)|, s);
    EditsOfLeaf(job, s, key, depth, off, es, owed);
    RedactOfLeaf(job, s, key, depth, off);
    if owed.Some? {
      RepeatedRootWrites(job.cfg, Str(s), es, owed.value);
    }
  }

  lemma NoEditsForScalar(job: Job, v: Value, key: Option<string>, depth: nat, off: nat, es: seq<Edit>)
    requires !IsContainer(v) && !v.Str?
    requires Plan(job, v, key, depth, off, es)
    ensures es == []
  {
    assert es == [] ||
      (es[0] in es &&
       match es[0]
       case Write(p, text) => IsWrite(job, v, key, depth, off, p, text)
       case Restringify(p) => IsMarker(job.cfg, v, depth, p));
  }

  /** Given the refinement for every child that is walked, it holds for the node. */
  lemma ContainerIsRedacted(job: Job, v: Value, key: Option<string>, depth: nat, off: nat, es: seq<Edit>)
    requires IsContainer(v) && DistinctKeys(v)
    requires Plan(job, v, key, depth, off, es)
    requires forall i :: 0 <= i < Count(v) ==>
      ApplyEdits(job.cfg, ExpandedKid(job.cfg, v, i, depth), Below(es, Token(v, i)))
        == Some(RedactedKid(job, v, key, depth, off, i))
    ensures ApplyEdits(job.cfg, Expand(job.cfg, v, depth), es)
         == Some(Redact(job.cfg, v, key, depth, off, job.rewrite))
  {
    var t := Expand(job.cfg, v, depth);
    ExpandFrame(job.cfg, v, depth);
    var kids := seq(Count(v), i requires 0 <= i < Count(v) => RedactedKid(job, v, key, depth, off, i));
    EditsPointInside(job, v, key, depth, off, es, t);
    EditsSplitByChild(job.cfg, t, es, kids);
    RedactKids(job, v, key, depth, off, t, kids);
  }

  /** An expanded string: the edits of its parsed tree, then its own restringification. */
  lemma ExpansionIsRedacted(job: Job, s: string, x: Value, key: Option<string>, depth: nat, off: nat, es: seq<Edit>)
    requires Expansion(job.cfg, s, depth) == Some(x) && es != [] && es[|es| - 1] == Restringify([])
    requires ApplyEdits(job.cfg, Expand(job.cfg, x, depth + 1), es[..|es| - 1])
          == Some(Redact(job.cfg, x, key, depth + 1, off, job.rewrite))
    ensures ApplyEdits(job.cfg, Expand(job.cfg, Str(s), depth), es)
         == Some(Redact(job.cfg, Str(s), key, depth, off, job.rewrite))
  {
    var init := es[..|es| - 1];
    assert es == init + [Restringify([])];
    ApplyEditsAppend(job.cfg, Expand(job.cfg, x, depth + 1), init, Restringify([]));
  }

  /**
    Main refinement: any admissible order of the owed edits succeeds on the
    walked tree and produces the tree of the recursive redactor.
   */
  lemma {:induction false} EditsRefineRedact(job: Job, v: Value, key: Option<string>, depth: nat, off: nat,
                                             es: seq<Edit>)
    requires ParsesWellFormed(job.cfg) && WellFormed(v)
    requires Plan(job, v, key, depth, off, es)
    ensures ApplyEdits(job.cfg, Expand(job.cfg, v, depth), es)
         == Some(Redact(job.cfg, v, key, depth, off, job.rewrite))
    decreases Fuel(depth), v
  {
    if v.Str? {
      var expansion := Expansion(job.cfg, v.text, depth);
      if expansion.None? {
        LeafIsRedacted(job, v.text, key, depth, off, es);
      } else {
        var x := expansion.value;
        PlanOfExpansion(job, v.text, x, key, depth, off, es);
        var init := es[..|es| - 1];
        assert job.cfg.parse(v.text) == Some(x);
        EditsRefineRedact(job, x, key, depth + 1, off, init);
        ExpansionIsRedacted(job, v.text, x, key, depth, off, es);
      }
    } else if IsContainer(v) {
      forall i: nat | i < Count(v)
        ensures ApplyEdits(job.cfg, ExpandedKid(job.cfg, v, i, depth), Below(es, Token(v, i)))
             == Some(RedactedKid(job, v, key, depth, off, i))
      {
        PlanOfKid(job, v, key, depth, off, es, i);
        if !Skipped(job.cfg, v, i) {
          EditsRefineRedact(job, Kid(v, i), KidKey(v, i, key), depth, KidOffset(job.cfg, v, key, depth, off, i),
                            Below(es, Token(v, i)));
        }
      }
      ContainerIsRedacted(job, v, key, depth, off, es);
    } else {
      NoEditsForScalar(job, v, key, depth, off, es);
    }
  }

  lemma EditsPointInside(job: Job, v: Value, key: Option<string>, depth: nat, off: nat, es: seq<Edit>, t: Value)
    requires IsContainer(v) && Plan(job, v, key, depth, off, es)
    requires Count(t) == Count(v) && forall i :: 0 <= i < Count(v) ==> Token(t, i) == Token(v, i)
    ensures forall e :: e in es ==> e.path != [] && exists i :: 0 <= i < Count(t) && Token(t, i) == e.path[0]
  {
    forall e | e in es
      ensures e.path != [] && exists i :: 0 <= i < Count(t) && Token(t, i) == e.path[0]
    {
      match e
      case Write(p, text) =>
        assert IsWrite(job, v, key, depth, off, p, text);
        var start: nat, s: string :|
          IsLeaf(job.cfg, v, key, depth, off, p, start, s) && job.rewrite(start, s) == Some(text);
        var i: nat :| i < Count(v) && Token(v, i) == p[0];
        assert Token(t, i) == p[0];
      case Restringify(p) =>
        assert IsMarker(job.cfg, v, depth, p);
        var i: nat :| i < Count(v) && Token(v, i) == p[0];
        assert Token(t, i) == p[0];
    }
  }
}
