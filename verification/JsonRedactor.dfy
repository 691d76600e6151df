/**
  `apply_spans_and_serialize` and the theorems about the whole walker: the
  two-phase program computes the recursive redactor and never meets a pointer
  that does not resolve.
 */
module JsonRedactor {
  import opened Common
  import opened StableSorting
  import opened Json
  import opened JsonPointer
  import opened Spans
  import opened Redaction
  import opened JsonWalker
  import opened JsonRefinement

  // ---- markers: the list against the path-wise description -------------------

  lemma InPathsUnder(token: string, paths: seq<Path>, p: Path)
    ensures p in PathsUnder(token, paths) <==> p != [] && p[0] == token && p[1..] in paths
  {
    var up := PathsUnder(token, paths);
    if p in up {
      var i :| 0 <= i < |up| && up[i] == p;
      assert p == [token] + paths[i];
      assert p[1..] == paths[i];
    }
    if p != [] && p[0] == token && p[1..] in paths {
      var i :| 0 <= i < |paths| && paths[i] == p[1..];
      assert up[i] == [token] + p[1..] == p;
    }
  }

  lemma PathsUnderDistinct(token: string, paths: seq<Path>)
    requires Distinct(paths)
    ensures Distinct(PathsUnder(token, paths))
  {
    var up := PathsUnder(token, paths);
    forall i, j | 0 <= i < j < |up|
      ensures up[i] != up[j]
    {
      assert up[i][1..] == paths[i] && up[j][1..] == paths[j];
    }
  }

  ghost predicate MarkerAmong(cfg: Config, v: Value, depth: nat, n: nat, p: Path)
    requires n <= Count(v)
  {
    p != [] && exists i :: 0 <= i < n && Token(v, i) == p[0] && !Skipped(cfg, v, i)
                        && IsMarker(cfg, Kid(v, i), depth, p[1..])
  }

  /** The marked paths are exactly those where stringified JSON was expanded. */
  lemma {:induction false} MarkerIsListed(cfg: Config, v: Value, depth: nat, p: Path)
    ensures p in Markers(cfg, v, depth) <==> IsMarker(cfg, v, depth, p)
    decreases Fuel(depth), v, 1, 0
  {
    if v.Str? {
      var e := Expansion(cfg, v.text, depth);
      if e.Some? {
        MarkerIsListed(cfg, e.value, depth + 1, p);
      }
    } else {
      KidMarkerIsListed(cfg, v, depth, Count(v), p);
    }
  }

  lemma {:induction false} KidMarkerIsListed(cfg: Config, v: Value, depth: nat, n: nat, p: Path)
    requires !v.Str? && n <= Count(v)
    ensures p in MarkersOfKids(cfg, v, depth, n) <==> MarkerAmong(cfg, v, depth, n, p)
    decreases Fuel(depth), v, 0, n
  {
    if n > 0 {
      KidMarkerIsListed(cfg, v, depth, n - 1, p);
      if !Skipped(cfg, v, n - 1) {
        InPathsUnder(Token(v, n - 1), Markers(cfg, Kid(v, n - 1), depth), p);
        if p != [] {
          MarkerIsListed(cfg, Kid(v, n - 1), depth, p[1..]);
        }
      }
    }
  }

  lemma DistinctAppend<T>(a: seq<T>, b: seq<T>)
    requires Distinct(a) && Distinct(b)
    requires forall x :: x in a ==> x !in b
    ensures Distinct(a + b)
  {
    forall i, j | 0 <= i < j < |a + b|
      ensures (a + b)[i] != (a + b)[j]
    {
      if i < |a| <= j {
        assert a[i] in a && b[j - |a|] in b;
      }
    }
  }

  /** No path is marked twice. */
  lemma {:induction false} MarkersAreDistinct(cfg: Config, v: Value, depth: nat)
    requires ParsesWellFormed(cfg) && WellFormed(v)
    ensures Distinct(Markers(cfg, v, depth))
    decreases Fuel(depth), v, 1, 0
  {
    if v.Str? {
      var e := Expansion(cfg, v.text, depth);
      if e.Some? {
        assert cfg.parse(v.text) == e;
        MarkersAreDistinct(cfg, e.value, depth + 1);
        MarkerIsListed(cfg, e.value, depth + 1, []);
        DistinctAppend([[]], Markers(cfg, e.value, depth + 1));
      }
    } else {
      KidMarkersAreDistinct(cfg, v, depth, Count(v));
    }
  }

  lemma {:induction false} KidMarkersAreDistinct(cfg: Config, v: Value, depth: nat, n: nat)
    requires ParsesWellFormed(cfg) && WellFormed(v) && !v.Str? && n <= Count(v)
    ensures Distinct(MarkersOfKids(cfg, v, depth, n))
    decreases Fuel(depth), v, 0, n
  {
    if n > 0 {
      KidMarkersAreDistinct(cfg, v, depth, n - 1);
      if !Skipped(cfg, v, n - 1) {
        MarkersAreDistinct(cfg, Kid(v, n - 1), depth);
        var a, kid := MarkersOfKids(cfg, v, depth, n - 1), Markers(cfg, Kid(v, n - 1), depth);
        var b := PathsUnder(Token(v, n - 1), kid);
        PathsUnderDistinct(Token(v, n - 1), kid);
        forall p | p in a
          ensures p !in b
        {
          KidMarkerIsListed(cfg, v, depth, n - 1, p);
          InPathsUnder(Token(v, n - 1), kid, p);
          var k: nat :| k < n - 1 && Token(v, k) == p[0];
          TokensDiffer(v, k, n - 1);
        }
        DistinctAppend(a, b);
      }
    }
  }

  // ---- leaves: the list against the path-wise description --------------------

  ghost predicate Listed(leaves: seq<Leaf>, p: Path, start: nat, s: string) {
    Leaf(p, s, start, start + |s|) in leaves
  }

  lemma InUnder(token: string, leaves: seq<Leaf>, p: Path, start: nat, s: string)
    ensures Listed(Under(token, leaves), p, start, s) <==>
        (p != [] && p[0] == token && Listed(leaves, p[1..], start, s))
  {
    var up := Under(token, leaves);
    if Listed(up, p, start, s) {
      var i :| 0 <= i < |up| && up[i] == Leaf(p, s, start, start + |s|);
      assert p == [token] + leaves[i].path;
      assert p[1..] == leaves[i].path;
      assert leaves[i] == Leaf(p[1..], s, start, start + |s|);
    }
    if p != [] && p[0] == token && Listed(leaves, p[1..], start, s) {
      var i :| 0 <= i < |leaves| && leaves[i] == Leaf(p[1..], s, start, start + |s|);
      assert up[i].path == [token] + p[1..] == p;
    }
  }

  ghost predicate LeafAmong(cfg: Config, v: Value, key: Option<string>, depth: nat, off: nat, n: nat,
                            p: Path, start: nat, s: string)
    requires n <= Count(v)
  {
    p != [] &&
    exists i :: 0 <= i < n && Token(v, i) == p[0] && !Skipped(cfg, v, i)
             && IsLeaf(cfg, Kid(v, i), KidKey(v, i, key), depth, KidOffset(cfg, v, key, depth, off, i),
                       p[1..], start, s)
  }

  lemma LeafAmongOneMore(cfg: Config, v: Value, key: Option<string>, depth: nat, off: nat, n: nat, p: Path, start: nat,
                         s: string)
    requires 0 < n <= Count(v)
    ensures LeafAmong(cfg, v, key, depth, off, n, p, start, s)
       <==> (|| LeafAmong(cfg, v, key, depth, off, n - 1, p, start, s)
             || (p != [] && Token(v, n - 1) == p[0] && !Skipped(cfg, v, n - 1)
                 && IsLeaf(cfg, Kid(v, n - 1), KidKey(v, n - 1, key), depth,
                           KidOffset(cfg, v, key, depth, off, n - 1), p[1..], start, s)))
  {
  }

  lemma ListedInEither(a: seq<Leaf>, b: seq<Leaf>, p: Path, start: nat, s: string)
    ensures Listed(a + b, p, start, s) <==> Listed(a, p, start, s) || Listed(b, p, start, s)
  {
  }

  /** The leaf list holds exactly the leaves of the tree, each with its own offset. */
  lemma {:induction false} LeafIsListed(cfg: Config, v: Value, key: Option<string>, depth: nat, off: nat,
                                        p: Path, start: nat, s: string)
    ensures Listed(Leaves(cfg, v, key, depth, off), p, start, s) <==> IsLeaf(cfg, v, key, depth, off, p, start, s)
    decreases Fuel(depth), v, 1, 0
  {
    if v.Str? {
      var e := Expansion(cfg, v.text, depth);
      if e.Some? {
        LeafIsListed(cfg, e.value, key, depth + 1, off, p, start, s);
      }
    } else {
      KidLeafIsListed(cfg, v, key, depth, off, Count(v), p, start, s);
    }
  }

  lemma {:induction false} KidLeafIsListed(cfg: Config, v: Value, key: Option<string>, depth: nat, off: nat, n: nat,
                                           p: Path, start: nat, s: string)
    requires !v.Str? && n <= Count(v)
    ensures Listed(LeavesOfKids(cfg, v, key, depth, off, n), p, start, s)
       <==> LeafAmong(cfg, v, key, depth, off, n, p, start, s)
    decreases Fuel(depth), v, 0, n
  {
    if n > 0 {
      KidLeafIsListed(cfg, v, key, depth, off, n - 1, p, start, s);
      LeafAmongOneMore(cfg, v, key, depth, off, n, p, start, s);
      var before := LeavesOfKids(cfg, v, key, depth, off, n - 1);
      if Skipped(cfg, v, n - 1) {
        assert LeavesOfKids(cfg, v, key, depth, off, n) == before;
      } else {
        var at := KidOffset(cfg, v, key, depth, off, n - 1);
        var kid := Leaves(cfg, Kid(v, n - 1), KidKey(v, n - 1, key), depth, at);
        ListedInEither(before, Under(Token(v, n - 1), kid), p, start, s);
        InUnder(Token(v, n - 1), kid, p, start, s);
        if p != [] {
          LeafIsListed(cfg, Kid(v, n - 1), KidKey(v, n - 1, key), depth, at, p[1..], start, s);
        }
      }
    }
  }

  // ---- leaf ranges in the rendered document ---------------------------------

  /** `leaf` lies inside `text`, whose first byte is byte `off`, with a separator after it, and holds its original. */
  ghost predicate RangeMatches(leaf: Leaf, text: string, off: nat) {
    && leaf.original != ""
    && off <= leaf.start
    && leaf.end == leaf.start + |leaf.original|
    && leaf.end + |LEAF_SEPARATOR| <= off + |text|
    && text[leaf.start - off .. leaf.end - off] == leaf.original
  }

  /** Moreover the ranges are ordered and disjoint. */
  ghost predicate RangesMatch(leaves: seq<Leaf>, text: string, off: nat) {
    && (forall l :: l in leaves ==> RangeMatches(l, text, off))
    && (forall i, j :: 0 <= i < j < |leaves| ==> leaves[i].end + |LEAF_SEPARATOR| <= leaves[j].start)
  }

  lemma RangeInSum(l: Leaf, s: string, t: string, off: nat)
    requires RangeMatches(l, s, off) || RangeMatches(l, t, off + |s|)
    ensures RangeMatches(l, s + t, off)
  {
    var a, b := l.start - off, l.end - off;
    if RangeMatches(l, s, off) {
      assert (s + t)[a..b] == s[a..b];
    } else {
      assert (s + t)[a..b] == t[a - |s| .. b - |s|];
    }
  }

  lemma RangesAppend(a: seq<Leaf>, s: string, b: seq<Leaf>, t: string, off: nat)
    requires RangesMatch(a, s, off) && RangesMatch(b, t, off + |s|)
    ensures RangesMatch(a + b, s + t, off)
  {
    forall l | l in a + b
      ensures RangeMatches(l, s + t, off)
    {
      assert l in a || l in b;
      RangeInSum(l, s, t, off);
    }
    forall i, j | 0 <= i < j < |a + b|
      ensures (a + b)[i].end + |LEAF_SEPARATOR| <= (a + b)[j].start
    {
      if i < |a| <= j {
        assert a[i] in a && b[j - |a|] in b;
      }
    }
  }

  lemma RangesUnder(token: string, leaves: seq<Leaf>, text: string, off: nat)
    requires RangesMatch(leaves, text, off)
    ensures RangesMatch(Under(token, leaves), text, off)
  {
    var up := Under(token, leaves);
    forall l | l in up
      ensures RangeMatches(l, text, off)
    {
      var i :| 0 <= i < |up| && up[i] == l;
      assert leaves[i] in leaves;
    }
  }

  /** Leaf ranges are ordered, disjoint and equal to the originals, in every subtree's share of the text. */
  lemma {:induction false} LeafRanges(cfg: Config, v: Value, key: Option<string>, depth: nat, off: nat)
    ensures RangesMatch(Leaves(cfg, v, key, depth, off), Text(cfg, v, key, depth), off)
    decreases Fuel(depth), v, 1, 0
  {
    if v.Str? {
      var s := v.text;
      var e := Expansion(cfg, s, depth);
      if e.Some? {
        LeafRanges(cfg, e.value, key, depth + 1, off);
      } else if s != "" {
        var text := KeyPrefix(key) + s + LEAF_SEPARATOR;
        assert text[|KeyPrefix(key)| .. |KeyPrefix(key)| + |s|] == s;
      }
    } else {
      KidRanges(cfg, v, key, depth, off, Count(v));
    }
  }

  lemma {:induction false} KidRanges(cfg: Config, v: Value, key: Option<string>, depth: nat, off: nat, n: nat)
    requires !v.Str? && n <= Count(v)
    ensures RangesMatch(LeavesOfKids(cfg, v, key, depth, off, n), TextOfKids(cfg, v, key, depth, n), off)
    decreases Fuel(depth), v, 0, n
  {
    if n > 0 {
      KidRanges(cfg, v, key, depth, off, n - 1);
      if Skipped(cfg, v, n - 1) {
        NothingSkipped(LeavesOfKids(cfg, v, key, depth, off, n - 1), TextOfKids(cfg, v, key, depth, n - 1));
      } else {
        LeafRanges(cfg, Kid(v, n - 1), KidKey(v, n - 1, key), depth, KidOffset(cfg, v, key, depth, off, n - 1));
        NextKidRanges(cfg, v, key, depth, off, n);
      }
    }
  }

  lemma NothingSkipped(leaves: seq<Leaf>, text: string)
    ensures leaves + [] == leaves && text + "" == text
  {
  }

  lemma NextKidRanges(cfg: Config, v: Value, key: Option<string>, depth: nat, off: nat, n: nat)
    requires !v.Str? && 0 < n <= Count(v) && !Skipped(cfg, v, n - 1)
    requires RangesMatch(LeavesOfKids(cfg, v, key, depth, off, n - 1), TextOfKids(cfg, v, key, depth, n - 1), off)
    requires var at := KidOffset(cfg, v, key, depth, off, n - 1);
      RangesMatch(Leaves(cfg, Kid(v, n - 1), KidKey(v, n - 1, key), depth, at),
                  Text(cfg, Kid(v, n - 1), KidKey(v, n - 1, key), depth), at)
    ensures RangesMatch(LeavesOfKids(cfg, v, key, depth, off, n), TextOfKids(cfg, v, key, depth, n), off)
  {
    var at := KidOffset(cfg, v, key, depth, off, n - 1);
    var kidLeaves := Leaves(cfg, Kid(v, n - 1), KidKey(v, n - 1, key), depth, at);
    var kidText := Text(cfg, Kid(v, n - 1), KidKey(v, n - 1, key), depth);
    RangesUnder(Token(v, n - 1), kidLeaves, kidText, at);
    RangesAppend(LeavesOfKids(cfg, v, key, depth, off, n - 1), TextOfKids(cfg, v, key, depth, n - 1),
                 Under(Token(v, n - 1), kidLeaves), kidText, off);
  }

  /** Trimming the trailing separator moves no leaf: every range still reads its original. */
  lemma TrimKeepsLeaves(cfg: Config, v: Value, l: Leaf)
    requires l in Leaves(cfg, v, None, 0, 0)
    ensures var doc := Trimmed(Text(cfg, v, None, 0));
      l.start < l.end <= |doc| && doc[l.start..l.end] == l.original
  {
    LeafRanges(cfg, v, None, 0, 0);
    var text := Text(cfg, v, None, 0);
    assert RangeMatches(l, text, 0);
    assert Trimmed(text)[l.start..l.end] == text[l.start..l.end];
  }

  // ---- the edits the program performs ---------------------------------------

  function LeafWrites(job: Job, leaves: seq<Leaf>): seq<Edit> {
    if leaves == [] then []
    else
      (match job.rewrite(leaves[0].start, leaves[0].original)
       case None => []
       case Some(text) => [Write(leaves[0].path, text)])
      + LeafWrites(job, leaves[1..])
  }

  ghost predicate LeafOwes(job: Job, l: Leaf, p: Path, text: string) {
    l.path == p && job.rewrite(l.start, l.original) == Some(text)
  }

  lemma {:induction false} InLeafWrites(job: Job, leaves: seq<Leaf>, e: Edit)
    ensures e in LeafWrites(job, leaves) <==> e.Write? && exists l :: l in leaves && LeafOwes(job, l, e.path, e.text)
  {
    if leaves != [] {
      InLeafWrites(job, leaves[1..], e);
      var l := leaves[0];
      var first := match job.rewrite(l.start, l.original)
        case None => []
        case Some(text) => [Write(l.path, text)];
      assert LeafWrites(job, leaves) == first + LeafWrites(job, leaves[1..]);
      assert e in first <==> e.Write? && LeafOwes(job, l, e.path, e.text);
      assert forall k :: k in leaves <==> k == l || k in leaves[1..];
    }
  }

  function MarkerPath(m: Marker): Path {
    match Tokens(m.pointer)
    case Some(p) => p
    case None => []
  }

  function MarkerEdits(markers: seq<Marker>): seq<Edit> {
    seq(|markers|, i requires 0 <= i < |markers| => Restringify(MarkerPath(markers[i])))
  }

  predicate DeeperFirst(a: Marker, b: Marker) { a.depth >= b.depth }

  /** A marker that stands for a path: its pointer and depth are that path's. */
  ghost predicate Denotes(m: Marker, p: Path) {
    m.pointer == Encode(p) && m.depth == |p| && MarkerPath(m) == p
  }

  lemma MarkerRefDenotes(paths: seq<Path>, i: nat)
    requires i < |paths|
    ensures Denotes(MarkerRefs("", paths)[i], paths[i])
  {
    assert "" + Encode(paths[i]) == Encode(paths[i]);
    TokensOfEncode(paths[i]);
    SlashesOfEncode(paths[i]);
  }

  function SortedMarkers(paths: seq<Path>): seq<Marker> {
    StableSort(MarkerRefs("", paths), DeeperFirst)
  }

  lemma SortedMarkersDenote(paths: seq<Path>)
    ensures forall m :: m in SortedMarkers(paths) ==> MarkerPath(m) in paths && Denotes(m, MarkerPath(m))
    ensures forall p :: p in paths ==> exists m :: m in SortedMarkers(paths) && Denotes(m, p)
  {
    SortMultiset(MarkerRefs("", paths), DeeperFirst);
    forall m | m in SortedMarkers(paths)
      ensures MarkerPath(m) in paths && Denotes(m, MarkerPath(m))
    {
      RefDenotesAPath(paths, m);
    }
    forall p | p in paths
      ensures exists m :: m in SortedMarkers(paths) && Denotes(m, p)
    {
      var m := PathHasARef(paths, p);
      assert m in SortedMarkers(paths);
    }
  }

  lemma RefDenotesAPath(paths: seq<Path>, m: Marker)
    requires m in MarkerRefs("", paths)
    ensures MarkerPath(m) in paths && Denotes(m, MarkerPath(m))
  {
    var refs := MarkerRefs("", paths);
    var i :| 0 <= i < |refs| && refs[i] == m;
    MarkerRefDenotes(paths, i);
  }

  lemma PathHasARef(paths: seq<Path>, p: Path) returns (m: Marker)
    requires p in paths
    ensures m in MarkerRefs("", paths) && Denotes(m, p)
  {
    var i :| 0 <= i < |paths| && paths[i] == p;
    MarkerRefDenotes(paths, i);
    m := MarkerRefs("", paths)[i];
  }

  /** Deepest first, and no path twice: a marker's ancestors come strictly after it. */
  lemma SortedMarkersDescend(paths: seq<Path>)
    requires Distinct(paths)
    ensures var sorted := SortedMarkers(paths);
      forall i, j :: 0 <= i < j < |sorted| ==>
        Before(Restringify(MarkerPath(sorted[i])), Restringify(MarkerPath(sorted[j])))
  {
    var refs, sorted := MarkerRefs("", paths), SortedMarkers(paths);
    SortMultiset(refs, DeeperFirst);
    assert TotalPreorder(DeeperFirst);
    SortSorted(refs, DeeperFirst);
    forall i, j | 0 <= i < j < |refs|
      ensures refs[i] != refs[j]
    {
      MarkerRefDenotes(paths, i);
      MarkerRefDenotes(paths, j);
    }
    DistinctPermutation(refs, sorted);
    SortedMarkersDenote(paths);
    forall i, j | 0 <= i < j < |sorted|
      ensures Before(Restringify(MarkerPath(sorted[i])), Restringify(MarkerPath(sorted[j])))
    {
      assert sorted[i] in sorted && sorted[j] in sorted;
      assert DeeperFirst(sorted[i], sorted[j]);
    }
  }

  lemma InMarkerEdits(paths: seq<Path>, e: Edit)
    ensures e in MarkerEdits(SortedMarkers(paths)) <==> e.Restringify? && e.path in paths
  {
    var sorted := SortedMarkers(paths);
    var es := MarkerEdits(sorted);
    SortedMarkersDenote(paths);
    if e in es {
      var i :| 0 <= i < |es| && es[i] == e;
      assert sorted[i] in sorted;
    }
    if e.Restringify? && e.path in paths {
      var m :| m in sorted && Denotes(m, e.path);
      var i :| 0 <= i < |sorted| && sorted[i] == m;
      assert es[i] == e;
    }
  }

  function ProgramEdits(job: Job, v: Value): seq<Edit> {
    LeafWrites(job, Leaves(job.cfg, v, None, 0, 0)) + MarkerEdits(SortedMarkers(Markers(job.cfg, v, 0)))
  }

  lemma WritesAreOwed(job: Job, v: Value, p: Path, text: string)
    ensures (exists l :: l in Leaves(job.cfg, v, None, 0, 0) && LeafOwes(job, l, p, text))
       <==> IsWrite(job, v, None, 0, 0, p, text)
  {
    var leaves := Leaves(job.cfg, v, None, 0, 0);
    LeafRanges(job.cfg, v, None, 0, 0);
    if l :| l in leaves && LeafOwes(job, l, p, text) {
      assert RangeMatches(l, Text(job.cfg, v, None, 0), 0);
      assert l == Leaf(p, l.original, l.start, l.start + |l.original|);
      LeafIsListed(job.cfg, v, None, 0, 0, p, l.start, l.original);
    }
    if IsWrite(job, v, None, 0, 0, p, text) {
      var start: nat, s: string :| IsLeaf(job.cfg, v, None, 0, 0, p, start, s) && job.rewrite(start, s) == Some(text);
      LeafIsListed(job.cfg, v, None, 0, 0, p, start, s);
      assert LeafOwes(job, Leaf(p, s, start, start + |s|), p, text);
    }
  }

  lemma ProgramIsOrdered(job: Job, v: Value)
    requires ParsesWellFormed(job.cfg) && WellFormed(v)
    ensures Ordered(ProgramEdits(job, v))
  {
    var leaves, paths := Leaves(job.cfg, v, None, 0, 0), Markers(job.cfg, v, 0);
    var ws, ms := LeafWrites(job, leaves), MarkerEdits(SortedMarkers(paths));
    MarkersAreDistinct(job.cfg, v, 0);
    SortedMarkersDescend(paths);
    forall i, j | 0 <= i < j < |ws + ms|
      ensures Before((ws + ms)[i], (ws + ms)[j])
    {
      if i < |ws| {
        assert (ws + ms)[i] in ws;
        InLeafWrites(job, leaves, (ws + ms)[i]);
      }
    }
    OrderedFromPairs(ws + ms);
  }

  /** What the program does, in the order it does it, is an admissible plan. */
  lemma ProgramFollowsPlan(job: Job, v: Value)
    requires ParsesWellFormed(job.cfg) && WellFormed(v)
    ensures Plan(job, v, None, 0, 0, ProgramEdits(job, v))
  {
    var leaves, paths := Leaves(job.cfg, v, None, 0, 0), Markers(job.cfg, v, 0);
    var ws, ms := LeafWrites(job, leaves), MarkerEdits(SortedMarkers(paths));
    ProgramIsOrdered(job, v);
    forall p
      ensures Restringify(p) in ws + ms <==> IsMarker(job.cfg, v, 0, p)
    {
      InLeafWrites(job, leaves, Restringify(p));
      InMarkerEdits(paths, Restringify(p));
      MarkerIsListed(job.cfg, v, 0, p);
    }
    forall p, text
      ensures Write(p, text) in ws + ms <==> IsWrite(job, v, None, 0, 0, p, text)
    {
      InLeafWrites(job, leaves, Write(p, text));
      InMarkerEdits(paths, Write(p, text));
      WritesAreOwed(job, v, p, text);
    }
  }

  lemma ProgramRefinesRedact(job: Job, v: Value)
    requires ParsesWellFormed(job.cfg) && WellFormed(v)
    ensures ApplyEdits(job.cfg, Expand(job.cfg, v, 0), ProgramEdits(job, v))
         == Some(Redact(job.cfg, v, None, 0, 0, job.rewrite))
  {
    ProgramFollowsPlan(job, v);
    EditsRefineRedact(job, v, None, 0, 0, ProgramEdits(job, v));
  }

  // ---- the program ------------------------------------------------------------

  ghost predicate WalkedFrom(cfg: Config, walked: WalkedJson, v: Value) {
    && walked.tree == Expand(cfg, v, 0)
    && walked.leaves == LeafRefs("", Leaves(cfg, v, None, 0, 0))
    && walked.rendered == Trimmed(Text(cfg, v, None, 0))
    && walked.markers == MarkerRefs("", Markers(cfg, v, 0))
  }

  /** Routing: clips every span to every leaf it overlaps. */
  method RouteSpans(leaves: seq<LeafRef>, spans: seq<Span>) returns (perLeaf: array<seq<Span>>)
    ensures fresh(perLeaf) && perLeaf.Length == |leaves|
    ensures forall i :: 0 <= i < |leaves| ==> perLeaf[i] == Clip(spans, leaves[i].valueStart, leaves[i].valueEnd)
  {
    perLeaf := new seq<Span>[|leaves|](_ => []);
    for k := 0 to |spans|
      invariant forall i :: 0 <= i < |leaves| ==>
          perLeaf[i] == Clip(spans[..k], leaves[i].valueStart, leaves[i].valueEnd)
    {
      RouteSpan(leaves, spans, k, perLeaf);
    }
    assert spans[..|spans|] == spans;
  }

  /** One span goes to every leaf it overlaps. */
  method RouteSpan(leaves: seq<LeafRef>, spans: seq<Span>, k: nat, perLeaf: array<seq<Span>>)
    requires k < |spans| && perLeaf.Length == |leaves|
    requires forall i :: 0 <= i < |leaves| ==>
        perLeaf[i] == Clip(spans[..k], leaves[i].valueStart, leaves[i].valueEnd)
    modifies perLeaf
    ensures forall i :: 0 <= i < |leaves| ==>
        perLeaf[i] == Clip(spans[..k + 1], leaves[i].valueStart, leaves[i].valueEnd)
  {
    var span := spans[k];
    for i := 0 to |leaves|
      invariant forall j :: 0 <= j < i ==>
          perLeaf[j] == Clip(spans[..k + 1], leaves[j].valueStart, leaves[j].valueEnd)
      invariant forall j :: i <= j < |leaves| ==> perLeaf[j] == old(perLeaf[j])
    {
      var leaf := leaves[i];
      var overlapStart, overlapEnd := Max(span.start, leaf.valueStart), Min(span.end, leaf.valueEnd);
      ClipStep(spans, k, leaf.valueStart, leaf.valueEnd);
      if overlapStart < overlapEnd {
        var local := Span(overlapStart - leaf.valueStart, overlapEnd - leaf.valueStart, span.category);
        perLeaf[i] := perLeaf[i] + [local];
      }
    }
  }

  lemma ClipStep(spans: seq<Span>, k: nat, start: nat, end: nat)
    requires k < |spans|
    ensures var from, to := Max(spans[k].start, start), Min(spans[k].end, end);
      Clip(spans[..k + 1], start, end) ==
        if from < to then Clip(spans[..k], start, end) + [Span(from - start, to - start, spans[k].category)]
        else Clip(spans[..k], start, end)
  {
    assert spans[..k + 1][..k] == spans[..k];
  }

  lemma NextWrite(job: Job, leaves: seq<Leaf>, i: nat, tail: seq<Edit>, tree: Value)
    requires i < |leaves|
    ensures var l := leaves[i];
      ApplyEdits(job.cfg, tree, LeafWrites(job, leaves[i..]) + tail) ==
        match job.rewrite(l.start, l.original)
        case None => ApplyEdits(job.cfg, tree, LeafWrites(job, leaves[i + 1..]) + tail)
        case Some(text) =>
          match Assign(tree, l.path, Str(text))
          case None => None
          case Some(u) => ApplyEdits(job.cfg, u, LeafWrites(job, leaves[i + 1..]) + tail)
  {
    var l, rest := leaves[i], LeafWrites(job, leaves[i + 1..]);
    assert leaves[i..][0] == l && leaves[i..][1..] == leaves[i + 1..];
    match job.rewrite(l.start, l.original)
    case None =>
      assert LeafWrites(job, leaves[i..]) == [] + rest == rest;
    case Some(text) =>
      var all := LeafWrites(job, leaves[i..]) + tail;
      assert all[0] == Write(l.path, text);
      assert all[1..] == rest + tail;
  }

  /** What one leaf contributes: nothing, or one write through its pointer. */
  method WriteLeaf(tree: Value, ref: LeafRef, localSpans: seq<Span>, ph: string -> string, ghost path: Path)
    returns (r: Result<Value, WalkError>)
    requires ref.pointer == Encode(path)
    ensures var redacted := RedactString(ref.original, localSpans, ph);
      if localSpans == [] then r == Ok(tree)
      else match Assign(tree, path, Str(redacted))
           case None => r == Err(LeafPointerInvalid(ref.pointer))
           case Some(u) => r == Ok(u)
  {
    if localSpans == [] {
      return Ok(tree);
    }
    var redacted := RedactStringLoop(ref.original, localSpans, ph);
    TokensOfEncode(path);
    var slot := PointerAssign(tree, ref.pointer, Str(redacted));
    if slot.None? {
      return Err(LeafPointerInvalid(ref.pointer));
    }
    return Ok(slot.value);
  }

  lemma SpanRewriteAt(rewrite: LeafRewrite, spans: seq<Span>, ph: string -> string, start: nat, s: string,
                      clipped: seq<Span>)
    requires rewrite == SpanRewrite(spans, ph) && clipped == Clip(spans, start, start + |s|)
    ensures rewrite(start, s) == if clipped == [] then None else Some(RedactString(s, clipped, ph))
  {
  }

  lemma LeafRefAt(leaves: seq<Leaf>, i: nat)
    requires i < |leaves|
    ensures var l := leaves[i]; LeafRefs("", leaves)[i] == LeafRef(Encode(l.path), l.original, l.start, l.end)
  {
    assert "" + Encode(leaves[i].path) == Encode(leaves[i].path);
  }

  ghost predicate RefersTo(ref: LeafRef, l: Leaf) {
    && ref == LeafRef(Encode(l.path), l.original, l.start, l.end)
    && l.end == l.start + |l.original|
  }

  /** One turn of the loop below: the edits still to come have the same effect as before. */
  method WriteNext(tree: Value, ref: LeafRef, localSpans: seq<Span>, ph: string -> string,
                   ghost spans: seq<Span>, ghost job: Job, ghost leaves: seq<Leaf>, ghost i: nat, ghost tail: seq<Edit>)
    returns (r: Result<Value, WalkError>)
    requires i < |leaves| && RefersTo(ref, leaves[i]) && job.rewrite == SpanRewrite(spans, ph)
    requires localSpans == Clip(spans, ref.valueStart, ref.valueEnd)
    requires ApplyEdits(job.cfg, tree, LeafWrites(job, leaves[i..]) + tail).Some?
    ensures r.Ok?
    ensures ApplyEdits(job.cfg, r.value, LeafWrites(job, leaves[i + 1..]) + tail)
         == ApplyEdits(job.cfg, tree, LeafWrites(job, leaves[i..]) + tail)
  {
    ghost var l := leaves[i];
    SpanRewriteAt(job.rewrite, spans, ph, l.start, l.original, localSpans);
    NextWrite(job, leaves, i, tail, tree);
    r := WriteLeaf(tree, ref, localSpans, ph, l.path);
  }

  /** First loop: write the redacted leaves back through their pointers. */
  method WriteLeaves(start: Value, refs: seq<LeafRef>, perLeaf: seq<seq<Span>>, ph: string -> string,
                     ghost spans: seq<Span>, ghost job: Job, ghost leaves: seq<Leaf>, ghost tail: seq<Edit>)
    returns (r: Result<Value, WalkError>)
    requires job.rewrite == SpanRewrite(spans, ph)
    requires |refs| == |leaves| == |perLeaf|
    requires forall i :: 0 <= i < |leaves| ==> RefersTo(refs[i], leaves[i])
    requires forall i :: 0 <= i < |leaves| ==> perLeaf[i] == Clip(spans, refs[i].valueStart, refs[i].valueEnd)
    requires ApplyEdits(job.cfg, start, LeafWrites(job, leaves) + tail).Some?
    ensures r.Ok?
    ensures ApplyEdits(job.cfg, r.value, tail) == ApplyEdits(job.cfg, start, LeafWrites(job, leaves) + tail)
  {
    ghost var final := ApplyEdits(job.cfg, start, LeafWrites(job, leaves) + tail);
    var tree := start;
    assert leaves[0..] == leaves;
    for i := 0 to |refs|
      invariant ApplyEdits(job.cfg, tree, LeafWrites(job, leaves[i..]) + tail) == final
    {
      var step := WriteNext(tree, refs[i], perLeaf[i], ph, spans, job, leaves, i, tail);
      match step
      case Err(e) => return Err(e);
      case Ok(u) => tree := u;
    }
    assert leaves[|leaves|..] == [] && [] + tail == tail;
    return Ok(tree);
  }

  /** Second loop: serialize the expanded nodes again, in the order of the sorted list. */
  method RestringifyMarkers(cfg: Config, start: Value, markers: seq<Marker>) returns (r: Result<Value, WalkError>)
    requires forall m :: m in markers ==> Denotes(m, MarkerPath(m))
    requires ApplyEdits(cfg, start, MarkerEdits(markers)).Some?
    ensures r.Ok? && Some(r.value) == ApplyEdits(cfg, start, MarkerEdits(markers))
  {
    ghost var es := MarkerEdits(markers);
    var tree := start;
    assert es[0..] == es;
    for i := 0 to |markers|
      invariant ApplyEdits(cfg, tree, es[i..]) == ApplyEdits(cfg, start, es)
    {
      var marker := markers[i];
      assert marker in markers;
      TokensOfEncode(MarkerPath(marker));
      assert es[i..][0] == Restringify(MarkerPath(marker)) && es[i..][1..] == es[i + 1..];
      var slot := PointerResolve(tree, marker.pointer);
      if slot.None? {
        return Err(MarkerPointerInvalid(marker.pointer));
      }
      var serialized := cfg.ser(slot.value);
      tree := PointerAssign(tree, marker.pointer, Str(serialized)).value;
    }
    assert es[|markers|..] == [];
    return Ok(tree);
  }

  /** `apply_spans_and_serialize`: on a walked document it always succeeds, with the reference redaction. */
  method ApplySpansAndSerialize(cfg: Config, walked: WalkedJson, spans: seq<Span>, ph: string -> string, ghost v: Value)
    returns (r: Result<string, WalkError>)
    requires ParsesWellFormed(cfg) && WellFormed(v) && WalkedFrom(cfg, walked, v)
    ensures r == Ok(RedactDocument(cfg, v, spans, ph))
  {
    ghost var job := Job(cfg, SpanRewrite(spans, ph));
    ghost var leaves, paths := Leaves(cfg, v, None, 0, 0), Markers(cfg, v, 0);
    ProgramRefinesRedact(job, v);
    LeafRanges(cfg, v, None, 0, 0);
    assert forall l :: l in leaves ==> RangeMatches(l, Text(cfg, v, None, 0), 0);
    SortedMarkersDenote(paths);
    forall i | 0 <= i < |leaves|
      ensures RefersTo(walked.leaves[i], leaves[i])
    {
      LeafRefAt(leaves, i);
      assert leaves[i] in leaves;
    }
    var perLeaf := RouteSpans(walked.leaves, spans);
    var written := WriteLeaves(walked.tree, walked.leaves, perLeaf[..], ph,
                               spans, job, leaves, MarkerEdits(SortedMarkers(paths)));
    match written {
      case Err(e) => return Err(e);
      case Ok(tree) =>
        var markers := StableSort(walked.markers, DeeperFirst);
        var restringified := RestringifyMarkers(cfg, tree, markers);
        match restringified {
          case Err(e) => return Err(e);
          case Ok(final) => return Ok(cfg.ser(final));
        }
    }
  }

  /**
    One text through the whole pipeline. `detect` stands for the engine; it is
    given the rendered document and may return anything.
   */
  method RedactText(cfg: Config, input: string, detect: string -> seq<Span>, ph: string -> string)
    returns (r: Result<string, WalkError>)
    requires ParsesWellFormed(cfg)
    ensures cfg.parse(input).None? ==> r == Err(InvalidJson)
    ensures cfg.parse(input).Some? ==>
      var v := cfg.parse(input).value;
      r == Ok(RedactDocument(cfg, v, detect(Trimmed(Text(cfg, v, None, 0))), ph))
  {
    var walked := WalkAndRender(cfg, input);
    if walked.Err? {
      return Err(walked.error);
    }
    var spans := detect(walked.value.rendered);
    r := ApplySpansAndSerialize(cfg, walked.value, spans, ph, cfg.parse(input).value);
  }
}
