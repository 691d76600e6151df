/**
  What the walked document holds, said of the input alone: which nodes the walk
  comes to, which of them are stringified JSON, and how the leaves are rendered.
 */
module WalkMeaning {
  import opened Common
  import opened Json
  import opened JsonPointer
  import opened Spans
  import opened Redaction
  import opened JsonWalker
  import opened JsonRefinement
  import opened JsonRedactor

  /** The string is JSON in string form, and not nested eight deep already. */
  predicate Stringified(cfg: Config, s: string, depth: nat) {
    depth < 8 && cfg.parse(s).Some? && (cfg.parse(s).value.Arr? || cfg.parse(s).value.Obj?)
  }

  /** A node the walk comes to, how many strings it is inside of, and the key it is rendered under. */
  datatype Node = Node(value: Value, depth: nat, key: Option<string>)

  /**
    Starting at `start`, the walk comes to `n` at path `p`: at the start itself,
    inside a string that holds JSON, or below a child that is not skipped. Items
    of an array keep the key of the array.
   */
  ghost predicate Reached(cfg: Config, start: Node, p: Path, n: Node)
    decreases Fuel(start.depth), start.value
  {
    var v := start.value;
    || (p == [] && n == start)
    || (v.Str? && Stringified(cfg, v.text, start.depth)
        && Reached(cfg, Node(cfg.parse(v.text).value, start.depth + 1, start.key), p, n))
    || (p != [] && exists i: nat :: i < Count(v) && Token(v, i) == p[0] && KidReaches(cfg, start, i, p[1..], n))
  }

  ghost predicate KidReaches(cfg: Config, start: Node, i: nat, p: Path, n: Node)
    requires i < Count(start.value)
    decreases Fuel(start.depth), start.value, 0
  {
    var v := start.value;
    if v.Obj? then v.members[i].key !in cfg.skip
                   && Reached(cfg, Node(v.members[i].value, start.depth, Some(v.members[i].key)), p, n)
    else Reached(cfg, Node(v.items[i], start.depth, start.key), p, n)
  }

  /** Child `i` of a node, as the walk comes to it. */
  function KidOf(n: Node, i: nat): Node
    requires i < Count(n.value)
  {
    Node(Kid(n.value, i), n.depth, KidKey(n.value, i, n.key))
  }

  /** The tree a stringified string holds. */
  function InnerOf(cfg: Config, n: Node): Node
    requires n.value.Str? && Stringified(cfg, n.value.text, n.depth)
  {
    Node(cfg.parse(n.value.text).value, n.depth + 1, n.key)
  }

  lemma ExpansionIffStringified(cfg: Config, s: string, depth: nat)
    ensures Expansion(cfg, s, depth) == if Stringified(cfg, s, depth) then cfg.parse(s) else None
  {
  }

  lemma KidNode(cfg: Config, start: Node, i: nat, p: Path, n: Node)
    requires i < Count(start.value)
    ensures KidReaches(cfg, start, i, p, n)
       <==> (!Skipped(cfg, start.value, i) && Reached(cfg, KidOf(start, i), p, n))
  {
  }

  // ---- marked paths ------------------------------------------------------------

  /** A string the walk comes to at `p` is stringified JSON. */
  ghost predicate ExpandedAt(cfg: Config, start: Node, p: Path) {
    exists n :: Reached(cfg, start, p, n) && n.value.Str? && Stringified(cfg, n.value.text, n.depth)
  }

  lemma {:induction false} MarkedIffExpanded(cfg: Config, start: Node, p: Path)
    ensures IsMarker(cfg, start.value, start.depth, p) <==> ExpandedAt(cfg, start, p)
    decreases Fuel(start.depth), start.value
  {
    var v := start.value;
    if v.Str? {
      ExpansionIffStringified(cfg, v.text, start.depth);
      if Stringified(cfg, v.text, start.depth) {
        var inner := InnerOf(cfg, start);
        MarkedIffExpanded(cfg, inner, p);
        ExpandedInside(cfg, start, inner, p);
      }
    } else if p != [] {
      forall i: nat | i < Count(v) && !Skipped(cfg, v, i)
        ensures IsMarker(cfg, Kid(v, i), start.depth, p[1..])
           <==> ExpandedAt(cfg, KidOf(start, i), p[1..])
      {
        MarkedIffExpanded(cfg, KidOf(start, i), p[1..]);
      }
      ExpandedBelow(cfg, start, p);
    }
  }

  lemma ExpandedInside(cfg: Config, start: Node, inner: Node, p: Path)
    requires start.value.Str? && Stringified(cfg, start.value.text, start.depth)
    requires inner == InnerOf(cfg, start)
    ensures ExpandedAt(cfg, start, p) <==> (p == [] || ExpandedAt(cfg, inner, p))
  {
    if n :| Reached(cfg, inner, p, n) && n.value.Str? && Stringified(cfg, n.value.text, n.depth) {
      assert Reached(cfg, start, p, n);
    }
    if p == [] {
      assert Reached(cfg, start, p, start);
    }
  }

  lemma ExpandedBelow(cfg: Config, start: Node, p: Path)
    requires !start.value.Str? && p != []
    ensures ExpandedAt(cfg, start, p) <==>
      exists i: nat :: i < Count(start.value) && Token(start.value, i) == p[0] && !Skipped(cfg, start.value, i)
                    && ExpandedAt(cfg, KidOf(start, i), p[1..])
  {
    var v := start.value;
    if n :| Reached(cfg, start, p, n) && n.value.Str? && Stringified(cfg, n.value.text, n.depth) {
      var i: nat :| i < Count(v) && Token(v, i) == p[0] && KidReaches(cfg, start, i, p[1..], n);
      KidNode(cfg, start, i, p[1..], n);
      assert ExpandedAt(cfg, KidOf(start, i), p[1..]);
    }
    if i: nat :| (i < Count(v) && Token(v, i) == p[0] && !Skipped(cfg, v, i)
                  && ExpandedAt(cfg, KidOf(start, i), p[1..])) {
      var kid := KidOf(start, i);
      var n :| Reached(cfg, kid, p[1..], n) && n.value.Str? && Stringified(cfg, n.value.text, n.depth);
      KidNode(cfg, start, i, p[1..], n);
      assert Reached(cfg, start, p, n);
    }
  }

  // ---- leaves --------------------------------------------------------------------

  /** A non-empty string that is not stringified JSON is reached at `p`, and is rendered under `key`. */
  ghost predicate LeafAt(cfg: Config, start: Node, p: Path, s: string, key: Option<string>) {
    s != "" && exists depth: nat :: Reached(cfg, start, p, Node(Str(s), depth, key)) && !Stringified(cfg, s, depth)
  }

  lemma LeafInside(cfg: Config, start: Node, p: Path, s: string, key: Option<string>)
    requires start.value.Str? && Stringified(cfg, start.value.text, start.depth)
    ensures LeafAt(cfg, start, p, s, key)
       <==> LeafAt(cfg, InnerOf(cfg, start), p, s, key)
  {
    var inner := InnerOf(cfg, start);
    if LeafAt(cfg, inner, p, s, key) {
      var depth: nat :| Reached(cfg, inner, p, Node(Str(s), depth, key)) && !Stringified(cfg, s, depth);
      assert Reached(cfg, start, p, Node(Str(s), depth, key));
    }
  }

  lemma LeafHere(cfg: Config, start: Node, p: Path, s: string, key: Option<string>)
    requires start.value.Str? && !Stringified(cfg, start.value.text, start.depth)
    ensures LeafAt(cfg, start, p, s, key) <==> (p == [] && s == start.value.text && s != "" && key == start.key)
  {
    if p == [] && s == start.value.text && s != "" && key == start.key {
      assert Reached(cfg, start, p, Node(Str(s), start.depth, key));
    }
  }

  ghost predicate LeafBelowAt(cfg: Config, start: Node, p: Path, s: string, key: Option<string>)
    requires p != []
  {
    exists i: nat :: i < Count(start.value) && Token(start.value, i) == p[0] && !Skipped(cfg, start.value, i)
                  && LeafAt(cfg, KidOf(start, i), p[1..], s, key)
  }

  lemma LeafBelow(cfg: Config, start: Node, p: Path, s: string, key: Option<string>)
    requires !start.value.Str?
    ensures LeafAt(cfg, start, p, s, key) <==> (p != [] && LeafBelowAt(cfg, start, p, s, key))
  {
    var v := start.value;
    if LeafAt(cfg, start, p, s, key) {
      var depth: nat :| Reached(cfg, start, p, Node(Str(s), depth, key)) && !Stringified(cfg, s, depth);
      var n := Node(Str(s), depth, key);
      var i: nat :| i < Count(v) && Token(v, i) == p[0] && KidReaches(cfg, start, i, p[1..], n);
      KidNode(cfg, start, i, p[1..], n);
      assert LeafAt(cfg, KidOf(start, i), p[1..], s, key);
    }
    if p != [] && LeafBelowAt(cfg, start, p, s, key) {
      var i: nat :| i < Count(v) && Token(v, i) == p[0] && !Skipped(cfg, v, i)
        && LeafAt(cfg, KidOf(start, i), p[1..], s, key);
      var kid := KidOf(start, i);
      var depth: nat :| Reached(cfg, kid, p[1..], Node(Str(s), depth, key)) && !Stringified(cfg, s, depth);
      KidNode(cfg, start, i, p[1..], Node(Str(s), depth, key));
      assert Reached(cfg, start, p, Node(Str(s), depth, key));
    }
  }

  // ---- the rendered document: one line per leaf ------------------------------------

  /** A leaf with the key it is rendered under. */
  datatype Line = Line(path: Path, key: Option<string>, text: string)

  function Head(l: Line): string {
    match l.key
    case Some(k) => k + ": "
    case None => ""
  }

  function OfLine(l: Line): string {
    Head(l) + l.text + "\n\n"
  }

  function Lines(ls: seq<Line>): string {
    if ls == [] then "" else Lines(ls[..|ls| - 1]) + OfLine(ls[|ls| - 1])
  }

  /** `leaves` are the lines, each where its text stands among them; `off` is where the first line begins. */
  ghost predicate Renders(ls: seq<Line>, leaves: seq<Leaf>, off: nat) {
    |ls| == |leaves| && forall i :: 0 <= i < |ls| ==> LineAt(ls, leaves[i], i, off)
  }

  ghost predicate LineAt(ls: seq<Line>, l: Leaf, i: nat, off: nat)
    requires i < |ls|
  {
    && l.path == ls[i].path && l.original == ls[i].text
    && l.start == off + |Lines(ls[..i])| + |Head(ls[i])|
    && l.end == l.start + |ls[i].text|
  }

  function LinesUnder(token: string, ls: seq<Line>): seq<Line> {
    seq(|ls|, i requires 0 <= i < |ls| => ls[i].(path := [token] + ls[i].path))
  }

  /** The lines of a node, and of its first `k` children. */
  ghost function LinesOf(cfg: Config, n: Node): seq<Line>
    decreases Fuel(n.depth), n.value, 1, 0
  {
    match n.value
    case Str(s) =>
      if Stringified(cfg, s, n.depth) then LinesOf(cfg, InnerOf(cfg, n))
      else if s == "" then []
      else [Line([], n.key, s)]
    case _ => LinesOfKids(cfg, n, Count(n.value))
  }

  ghost function LinesOfKids(cfg: Config, n: Node, k: nat): seq<Line>
    requires k <= Count(n.value)
    decreases Fuel(n.depth), n.value, 0, k
  {
    if k == 0 then []
    else
      LinesOfKids(cfg, n, k - 1) +
      if Skipped(cfg, n.value, k - 1) then []
      else LinesUnder(Token(n.value, k - 1), LinesOf(cfg, KidOf(n, k - 1)))
  }

  lemma {:induction false} LinesAppend(a: seq<Line>, b: seq<Line>)
    ensures Lines(a + b) == Lines(a) + Lines(b)
  {
    if b == [] {
      assert a + b == a && Lines(a) + "" == Lines(a);
    } else {
      var init, last := b[..|b| - 1], b[|b| - 1];
      LinesAppend(a, init);
      LastOfAppend(a, b);
      LinesOneMore(a + init, last);
      Associate(Lines(a), Lines(init), OfLine(last));
    }
  }

  lemma LinesOneMore(ls: seq<Line>, l: Line)
    ensures Lines(ls + [l]) == Lines(ls) + OfLine(l)
  {
    assert (ls + [l])[..|ls|] == ls;
  }

  lemma {:induction false} LinesOfUnder(token: string, ls: seq<Line>)
    ensures Lines(LinesUnder(token, ls)) == Lines(ls)
  {
    if ls != [] {
      var up := LinesUnder(token, ls);
      LinesOfUnder(token, ls[..|ls| - 1]);
      assert up[..|up| - 1] == LinesUnder(token, ls[..|ls| - 1]);
    }
  }

  lemma RendersUnder(token: string, ls: seq<Line>, leaves: seq<Leaf>, off: nat)
    requires Renders(ls, leaves, off)
    ensures Renders(LinesUnder(token, ls), Under(token, leaves), off)
  {
    var up := LinesUnder(token, ls);
    forall i | 0 <= i < |up|
      ensures LineAt(up, Under(token, leaves)[i], i, off)
    {
      assert LineAt(ls, leaves[i], i, off);
      assert up[..i] == LinesUnder(token, ls[..i]);
      LinesOfUnder(token, ls[..i]);
    }
  }

  lemma RendersAppend(a: seq<Line>, x: seq<Leaf>, b: seq<Line>, y: seq<Leaf>, off: nat)
    requires Renders(a, x, off) && Renders(b, y, off + |Lines(a)|)
    ensures Renders(a + b, x + y, off)
  {
    forall i | 0 <= i < |a + b|
      ensures LineAt(a + b, (x + y)[i], i, off)
    {
      if i < |a| {
        assert LineAt(a, x[i], i, off);
        assert (a + b)[..i] == a[..i];
      } else {
        assert LineAt(b, y[i - |a|], i - |a|, off + |Lines(a)|);
        assert (a + b)[..i] == a + b[..i - |a|];
        LinesAppend(a, b[..i - |a|]);
      }
    }
  }

  /** The text and the leaves of a node are its lines, laid out from byte `off` on. */
  ghost predicate LaidOut(cfg: Config, n: Node, off: nat) {
    && Text(cfg, n.value, n.key, n.depth) == Lines(LinesOf(cfg, n))
    && Renders(LinesOf(cfg, n), Leaves(cfg, n.value, n.key, n.depth, off), off)
  }

  ghost predicate KidsLaidOut(cfg: Config, n: Node, off: nat, k: nat)
    requires k <= Count(n.value)
  {
    && TextOfKids(cfg, n.value, n.key, n.depth, k) == Lines(LinesOfKids(cfg, n, k))
    && Renders(LinesOfKids(cfg, n, k), LeavesOfKids(cfg, n.value, n.key, n.depth, off, k), off)
  }

  lemma {:induction false} TextIsLines(cfg: Config, n: Node, off: nat)
    ensures LaidOut(cfg, n, off)
    decreases Fuel(n.depth), n.value, 1, 0
  {
    if n.value.Str? && Stringified(cfg, n.value.text, n.depth) {
      TextIsLines(cfg, InnerOf(cfg, n), off);
      TextOfInner(cfg, n, off);
    } else if n.value.Str? {
      LeafIsOneLine(cfg, n, off);
    } else {
      TextOfKidsIsLines(cfg, n, off, Count(n.value));
    }
  }

  lemma TextOfInner(cfg: Config, n: Node, off: nat)
    requires n.value.Str? && Stringified(cfg, n.value.text, n.depth)
    ensures var inner := InnerOf(cfg, n);
      && LinesOf(cfg, n) == LinesOf(cfg, inner)
      && Text(cfg, n.value, n.key, n.depth) == Text(cfg, inner.value, inner.key, inner.depth)
      && Leaves(cfg, n.value, n.key, n.depth, off) == Leaves(cfg, inner.value, inner.key, inner.depth, off)
  {
    ExpansionIffStringified(cfg, n.value.text, n.depth);
  }

  lemma LeafIsOneLine(cfg: Config, n: Node, off: nat)
    requires n.value.Str? && !Stringified(cfg, n.value.text, n.depth)
    ensures LaidOut(cfg, n, off)
  {
    ExpansionIffStringified(cfg, n.value.text, n.depth);
    if n.value.text != "" {
      var l := Line([], n.key, n.value.text);
      OneLine(l);
      assert LineAt([l], Leaves(cfg, n.value, n.key, n.depth, off)[0], 0, off);
    }
  }

  lemma OneLine(l: Line)
    ensures Lines([l]) == OfLine(l) && Lines([l][..0]) == ""
  {
    assert [l][..0] == [];
    assert "" + OfLine(l) == OfLine(l);
  }

  lemma {:induction false} TextOfKidsIsLines(cfg: Config, n: Node, off: nat, k: nat)
    requires !n.value.Str? && k <= Count(n.value)
    ensures KidsLaidOut(cfg, n, off, k)
    decreases Fuel(n.depth), n.value, 0, k
  {
    if k > 0 {
      TextOfKidsIsLines(cfg, n, off, k - 1);
      if Skipped(cfg, n.value, k - 1) {
        SkippedKidLines(cfg, n, off, k);
      } else {
        TextIsLines(cfg, KidOf(n, k - 1), KidOffset(cfg, n.value, n.key, n.depth, off, k - 1));
        NextKidLines(cfg, n, off, k);
      }
    }
  }

  lemma SkippedKidLines(cfg: Config, n: Node, off: nat, k: nat)
    requires 0 < k <= Count(n.value) && Skipped(cfg, n.value, k - 1) && KidsLaidOut(cfg, n, off, k - 1)
    ensures KidsLaidOut(cfg, n, off, k)
  {
    SkippedKidAddsNothing(cfg, n, off, k);
  }

  lemma SkippedKidAddsNothing(cfg: Config, n: Node, off: nat, k: nat)
    requires 0 < k <= Count(n.value) && Skipped(cfg, n.value, k - 1)
    ensures TextOfKids(cfg, n.value, n.key, n.depth, k) == TextOfKids(cfg, n.value, n.key, n.depth, k - 1)
    ensures LinesOfKids(cfg, n, k) == LinesOfKids(cfg, n, k - 1)
    ensures LeavesOfKids(cfg, n.value, n.key, n.depth, off, k) == LeavesOfKids(cfg, n.value, n.key, n.depth, off, k - 1)
  {
    var text := TextOfKids(cfg, n.value, n.key, n.depth, k - 1);
    assert text + "" == text;
  }

  lemma NextKidLines(cfg: Config, n: Node, off: nat, k: nat)
    requires !n.value.Str? && 0 < k <= Count(n.value) && !Skipped(cfg, n.value, k - 1)
    requires KidsLaidOut(cfg, n, off, k - 1)
    requires LaidOut(cfg, KidOf(n, k - 1), KidOffset(cfg, n.value, n.key, n.depth, off, k - 1))
    ensures KidsLaidOut(cfg, n, off, k)
  {
    var kid := KidOf(n, k - 1);
    var at := KidOffset(cfg, n.value, n.key, n.depth, off, k - 1);
    var ls, leaves := LinesOf(cfg, kid), Leaves(cfg, kid.value, kid.key, kid.depth, at);
    var token := Token(n.value, k - 1);
    LinesOfUnder(token, ls);
    RendersUnder(token, ls, leaves, at);
    LinesAppend(LinesOfKids(cfg, n, k - 1), LinesUnder(token, ls));
    RendersAppend(LinesOfKids(cfg, n, k - 1), LeavesOfKids(cfg, n.value, n.key, n.depth, off, k - 1),
                  LinesUnder(token, ls), Under(token, leaves), off);
  }

  // ---- the lines are the leaves ----------------------------------------------------

  lemma InLinesUnder(token: string, ls: seq<Line>, l: Line)
    ensures l in LinesUnder(token, ls) <==> (l.path != [] && l.path[0] == token && l.(path := l.path[1..]) in ls)
  {
    var up := LinesUnder(token, ls);
    if l in up {
      var i :| 0 <= i < |up| && up[i] == l;
      assert l.path[1..] == ls[i].path;
      assert ls[i] == l.(path := l.path[1..]);
    }
    if l.path != [] && l.path[0] == token && l.(path := l.path[1..]) in ls {
      var i :| 0 <= i < |ls| && ls[i] == l.(path := l.path[1..]);
      assert up[i].path == [token] + l.path[1..] == l.path;
      assert up[i] == l;
    }
  }

  ghost predicate LineBelow(cfg: Config, n: Node, k: nat, l: Line)
    requires k <= Count(n.value)
  {
    l.path != [] && exists i: nat :: i < k && Token(n.value, i) == l.path[0] && !Skipped(cfg, n.value, i)
                                 && LeafAt(cfg, KidOf(n, i), l.path[1..], l.text, l.key)
  }

  /** There is a line for each leaf and for nothing else. */
  lemma {:induction false} LinesAreLeaves(cfg: Config, n: Node, l: Line)
    ensures l in LinesOf(cfg, n) <==> LeafAt(cfg, n, l.path, l.text, l.key)
    decreases Fuel(n.depth), n.value, 1, 0
  {
    if n.value.Str? {
      if Stringified(cfg, n.value.text, n.depth) {
        LinesAreLeaves(cfg, InnerOf(cfg, n), l);
        LeafInside(cfg, n, l.path, l.text, l.key);
      } else {
        LeafHere(cfg, n, l.path, l.text, l.key);
      }
    } else {
      LinesOfKidsAreLeaves(cfg, n, Count(n.value), l);
      LeafBelow(cfg, n, l.path, l.text, l.key);
    }
  }

  lemma {:induction false} LinesOfKidsAreLeaves(cfg: Config, n: Node, k: nat, l: Line)
    requires !n.value.Str? && k <= Count(n.value)
    ensures l in LinesOfKids(cfg, n, k) <==> LineBelow(cfg, n, k, l)
    decreases Fuel(n.depth), n.value, 0, k
  {
    if k > 0 {
      LinesOfKidsAreLeaves(cfg, n, k - 1, l);
      if !Skipped(cfg, n.value, k - 1) {
        InLinesUnder(Token(n.value, k - 1), LinesOf(cfg, KidOf(n, k - 1)), l);
        if l.path != [] {
          LinesAreLeaves(cfg, KidOf(n, k - 1), l.(path := l.path[1..]));
        }
      }
    }
  }

  // ---- the walked tree --------------------------------------------------------------

  /** `t` is the node with every stringified string in it replaced by its own walked tree, and nothing else changed. */
  ghost predicate WalkOf(cfg: Config, n: Node, t: Value)
    decreases Fuel(n.depth), n.value
  {
    match n.value
    case Str(s) => if Stringified(cfg, s, n.depth) then WalkOf(cfg, InnerOf(cfg, n), t) else t == n.value
    case Arr(items) =>
      && t.Arr? && |t.items| == |items|
      && forall i :: 0 <= i < |items| ==> WalkOf(cfg, Node(items[i], n.depth, n.key), t.items[i])
    case Obj(members) =>
      && t.Obj? && |t.members| == |members|
      && forall i :: 0 <= i < |members| ==>
           if members[i].key in cfg.skip then t.members[i] == members[i]
           else && t.members[i].key == members[i].key
                && WalkOf(cfg, Node(members[i].value, n.depth, Some(members[i].key)), t.members[i].value)
    case _ => t == n.value
  }

  lemma {:induction false} ExpandIsWalkOf(cfg: Config, n: Node)
    ensures WalkOf(cfg, n, Expand(cfg, n.value, n.depth))
    decreases Fuel(n.depth), n.value
  {
    match n.value
    case Str(s) =>
      ExpansionIffStringified(cfg, s, n.depth);
      if Stringified(cfg, s, n.depth) {
        ExpandIsWalkOf(cfg, InnerOf(cfg, n));
      }
    case Arr(items) =>
      forall i | 0 <= i < |items|
        ensures WalkOf(cfg, Node(items[i], n.depth, n.key), Expand(cfg, items[i], n.depth))
      {
        ExpandIsWalkOf(cfg, Node(items[i], n.depth, n.key));
      }
    case Obj(members) =>
      forall i | 0 <= i < |members|
        ensures WalkOf(cfg, Node(members[i].value, n.depth, Some(members[i].key)),
                       Expand(cfg, members[i].value, n.depth))
      {
        ExpandIsWalkOf(cfg, Node(members[i].value, n.depth, Some(members[i].key)));
      }
    case _ =>
  }

  /** Whatever the walk comes to is found, walked, under the same path of the walked tree. */
  lemma {:induction false} ReachedInTree(cfg: Config, start: Node, p: Path, n: Node)
    requires ParsesWellFormed(cfg) && WellFormed(start.value)
    requires Reached(cfg, start, p, n)
    ensures Resolve(Expand(cfg, start.value, start.depth), p) == Some(Expand(cfg, n.value, n.depth))
    decreases Fuel(start.depth), start.value
  {
    var v := start.value;
    if p == [] && n == start {
    } else if v.Str? {
      ExpansionIffStringified(cfg, v.text, start.depth);
      assert cfg.parse(v.text).Some?;
      ReachedInTree(cfg, InnerOf(cfg, start), p, n);
    } else {
      var i: nat :| i < Count(v) && Token(v, i) == p[0] && KidReaches(cfg, start, i, p[1..], n);
      KidNode(cfg, start, i, p[1..], n);
      ReachedInTree(cfg, KidOf(start, i), p[1..], n);
      ExpandFrame(cfg, v, start.depth);
      AssignChild(Expand(cfg, v, start.depth), i, p[1..], Null);
      assert p == [p[0]] + p[1..];
    }
  }

  // ---- what `walk_and_render` returns ---------------------------------------------------

  ghost predicate MarkedIn(walked: WalkedJson, p: Path) {
    exists m :: m in walked.markers && m.pointer == Encode(p)
  }

  /** A path is marked exactly if the walk comes to stringified JSON there, less than eight strings deep. */
  lemma MarkedIffStringified(cfg: Config, walked: WalkedJson, v: Value, p: Path)
    requires WalkedFrom(cfg, walked, v)
    ensures MarkedIn(walked, p) <==> ExpandedAt(cfg, Node(v, 0, None), p)
  {
    var paths := Markers(cfg, v, 0);
    MarkedIffExpanded(cfg, Node(v, 0, None), p);
    MarkerIsListed(cfg, v, 0, p);
    if m :| m in walked.markers && m.pointer == Encode(p) {
      RefDenotesAPath(paths, m);
      EncodeInjective(MarkerPath(m), p);
    }
    if p in paths {
      var m := PathHasARef(paths, p);
      assert m in walked.markers;
    }
  }

  /**
    At every node the walk comes to, the tree holds the walk of that node: a
    scalar or a string that is no stringified JSON itself, and in the place of
    stringified JSON the walk of exactly the tree it parses to.
   */
  lemma WalkedTreeHolds(cfg: Config, walked: WalkedJson, v: Value, p: Path, n: Node)
    requires ParsesWellFormed(cfg) && WellFormed(v) && WalkedFrom(cfg, walked, v)
    requires Reached(cfg, Node(v, 0, None), p, n)
    ensures PointerResolve(walked.tree, Encode(p)).Some?
    ensures WalkOf(cfg, n, PointerResolve(walked.tree, Encode(p)).value)
  {
    TokensOfEncode(p);
    ReachedInTree(cfg, Node(v, 0, None), p, n);
    ExpandIsWalkOf(cfg, n);
  }

  ghost predicate RefAt(ls: seq<Line>, l: LeafRef, i: nat)
    requires i < |ls|
  {
    && l.pointer == Encode(ls[i].path) && l.original == ls[i].text
    && l.valueStart == |Lines(ls[..i])| + |Head(ls[i])|
    && l.valueEnd == l.valueStart + |ls[i].text|
  }

  /**
    The document has one line for each non-empty string the walk comes to that
    is no stringified JSON, headed by its key and followed by a blank line except
    at the end; the listed leaves are those lines, in order, each pointing at its text.
   */
  lemma RenderedIsOneLinePerLeaf(cfg: Config, walked: WalkedJson, v: Value)
    requires WalkedFrom(cfg, walked, v)
    ensures var root := Node(v, 0, None); var ls := LinesOf(cfg, root);
      && (forall l :: l in ls <==> LeafAt(cfg, root, l.path, l.text, l.key))
      && Lines(ls) == (if ls == [] then "" else walked.rendered + "\n\n")
      && |walked.leaves| == |ls|
      && (forall i :: 0 <= i < |ls| ==> RefAt(ls, walked.leaves[i], i))
  {
    var root := Node(v, 0, None);
    var ls, leaves := LinesOf(cfg, root), Leaves(cfg, v, None, 0, 0);
    TextIsLines(cfg, root, 0);
    if ls != [] {
      TrimmedLines(ls);
    }
    forall l
      ensures l in ls <==> LeafAt(cfg, root, l.path, l.text, l.key)
    {
      LinesAreLeaves(cfg, root, l);
    }
    forall i | 0 <= i < |ls|
      ensures RefAt(ls, walked.leaves[i], i)
    {
      assert LineAt(ls, leaves[i], i, 0);
      LeafRefAt(leaves, i);
    }
  }

  lemma TrimmedLines(ls: seq<Line>)
    requires ls != []
    ensures Trimmed(Lines(ls)) + "\n\n" == Lines(ls)
  {
    var text := Lines(ls);
    assert text[|text| - 2..] == "\n\n";
    assert text[..|text| - 2] + text[|text| - 2..] == text;
  }

  // ---- what the redaction holds -------------------------------------------------------

  /**
    `x` is in `r` where the walk from `start` finds `p`: through a string
    that was expanded, inside what it serializes.
   */
  ghost predicate HeldAt(cfg: Config, start: Node, r: Value, p: Path, x: Value)
    decreases Fuel(start.depth), start.value
  {
    var v := start.value;
    if v.Str? then
      if Stringified(cfg, v.text, start.depth)
      then exists y :: r == Str(cfg.ser(y)) && HeldAt(cfg, InnerOf(cfg, start), y, p, x)
      else p == [] && r == x
    else
      p != [] && exists i: nat :: i < Count(v) && Token(v, i) == p[0] && HeldInKid(cfg, start, i, r, p[1..], x)
  }

  ghost predicate HeldInKid(cfg: Config, start: Node, i: nat, r: Value, p: Path, x: Value)
    requires i < Count(start.value)
    decreases Fuel(start.depth), start.value, 0
  {
    && i < Count(r) && Token(r, i) == Token(start.value, i) && !Skipped(cfg, start.value, i)
    && HeldAt(cfg, KidOf(start, i), Kid(r, i), p, x)
  }

  function Rewritten(rewrite: LeafRewrite, start: nat, s: string): string {
    match rewrite(start, s)
    case Some(t) => t
    case None => s
  }

  lemma RedactFrame(cfg: Config, n: Node, off: nat, rewrite: LeafRewrite, i: nat)
    requires i < Count(n.value) && !Skipped(cfg, n.value, i)
    ensures var v := n.value;
      var r := Redact(cfg, v, n.key, n.depth, off, rewrite);
      var at := KidOffset(cfg, v, n.key, n.depth, off, i);
      && i < Count(r) && Token(r, i) == Token(v, i)
      && Kid(r, i) == Redact(cfg, Kid(v, i), KidKey(v, i, n.key), n.depth, at, rewrite)
  {
  }

  lemma LeafInAKid(cfg: Config, n: Node, off: nat, p: Path, start: nat, s: string) returns (i: nat)
    requires !n.value.Str? && IsLeaf(cfg, n.value, n.key, n.depth, off, p, start, s)
    ensures p != [] && i < Count(n.value) && Token(n.value, i) == p[0] && !Skipped(cfg, n.value, i)
    ensures IsLeaf(cfg, Kid(n.value, i), KidKey(n.value, i, n.key), n.depth,
                   KidOffset(cfg, n.value, n.key, n.depth, off, i), p[1..], start, s)
  {
    var v := n.value;
    i :| (i < Count(v) && Token(v, i) == p[0] && !Skipped(cfg, v, i)
          && IsLeaf(cfg, Kid(v, i), KidKey(v, i, n.key), n.depth, KidOffset(cfg, v, n.key, n.depth, off, i),
                    p[1..], start, s));
  }

  lemma HeldBelow(cfg: Config, n: Node, i: nat, r: Value, p: Path, x: Value)
    requires !n.value.Str? && p != [] && i < Count(n.value) && Token(n.value, i) == p[0]
    requires HeldInKid(cfg, n, i, r, p[1..], x)
    ensures HeldAt(cfg, n, r, p, x)
  {
  }

  /** Every leaf is found in the redaction at its own path, rewritten as asked and not otherwise. */
  lemma {:induction false} LeafIsRewritten(cfg: Config, n: Node, off: nat, rewrite: LeafRewrite,
                                           p: Path, start: nat, s: string)
    requires IsLeaf(cfg, n.value, n.key, n.depth, off, p, start, s)
    ensures HeldAt(cfg, n, Redact(cfg, n.value, n.key, n.depth, off, rewrite), p, Str(Rewritten(rewrite, start, s)))
    decreases Fuel(n.depth), n.value
  {
    var v := n.value;
    if v.Str? {
      ExpansionIffStringified(cfg, v.text, n.depth);
      if Stringified(cfg, v.text, n.depth) {
        LeafIsRewritten(cfg, InnerOf(cfg, n), off, rewrite, p, start, s);
      }
    } else {
      var i := LeafInAKid(cfg, n, off, p, start, s);
      LeafIsRewritten(cfg, KidOf(n, i), KidOffset(cfg, v, n.key, n.depth, off, i), rewrite, p[1..], start, s);
      RedactFrame(cfg, n, off, rewrite, i);
      HeldBelow(cfg, n, i, Redact(cfg, v, n.key, n.depth, off, rewrite), p,
                Str(Rewritten(rewrite, start, s)));
    }
  }

  lemma LeafIsItself(cfg: Config, v: Value, l: Leaf)
    requires l in Leaves(cfg, v, None, 0, 0)
    ensures l.end == l.start + |l.original|
    ensures IsLeaf(cfg, v, None, 0, 0, l.path, l.start, l.original)
  {
    LeafRanges(cfg, v, None, 0, 0);
    assert RangeMatches(l, Text(cfg, v, None, 0), 0);
    assert l == Leaf(l.path, l.original, l.start, l.start + |l.original|);
    LeafIsListed(cfg, v, None, 0, 0, l.path, l.start, l.original);
  }

  lemma LeafInResult(cfg: Config, v: Value, l: Leaf, rewrite: LeafRewrite)
    requires l in Leaves(cfg, v, None, 0, 0)
    ensures HeldAt(cfg, Node(v, 0, None), Redact(cfg, v, None, 0, 0, rewrite), l.path,
                   Str(Rewritten(rewrite, l.start, l.original)))
  {
    LeafIsItself(cfg, v, l);
    LeafIsRewritten(cfg, Node(v, 0, None), 0, rewrite, l.path, l.start, l.original);
  }

  function WithSpans(s: string, clipped: seq<Span>, ph: string -> string): string {
    if clipped == [] then s else RedactString(s, clipped, ph)
  }

  lemma LeafOfRef(leaves: seq<Leaf>, ref: LeafRef, p: Path) returns (l: Leaf)
    requires ref in LeafRefs("", leaves) && ref.pointer == Encode(p)
    ensures l in leaves && l == Leaf(p, ref.original, ref.valueStart, ref.valueEnd)
  {
    var i :| 0 <= i < |leaves| && LeafRefs("", leaves)[i] == ref;
    LeafRefAt(leaves, i);
    EncodeInjective(leaves[i].path, p);
    l := leaves[i];
  }

  /** What the pass makes of a listed leaf, at its own path: its text with the spans that reach it redacted. */
  lemma ListedLeafIsRewritten(cfg: Config, walked: WalkedJson, v: Value, spans: seq<Span>, ph: string -> string,
                              ref: LeafRef, p: Path)
    requires WalkedFrom(cfg, walked, v) && ref in walked.leaves && ref.pointer == Encode(p)
    ensures exists r ::
        && RedactDocument(cfg, v, spans, ph) == cfg.ser(r)
        && HeldAt(cfg, Node(v, 0, None), r, p,
                  Str(WithSpans(ref.original, Clip(spans, ref.valueStart, ref.valueEnd), ph)))
  {
    var l := LeafOfRef(Leaves(cfg, v, None, 0, 0), ref, p);
    LeafInResult(cfg, v, l, SpanRewrite(spans, ph));
    LeafIsItself(cfg, v, l);
    LeafWithSpans(l, spans, ph);
  }

  lemma LeafWithSpans(l: Leaf, spans: seq<Span>, ph: string -> string)
    requires l.end == l.start + |l.original|
    ensures Rewritten(SpanRewrite(spans, ph), l.start, l.original)
         == WithSpans(l.original, Clip(spans, l.start, l.end), ph)
  {
  }
}
