/** What the reference redactor promises a caller: shape, bytes, and stability. */
module JsonGuarantees {
  import opened Common
  import opened Json
  import opened JsonPointer
  import opened Spans
  import opened Redaction
  import opened Utf8
  import opened JsonWalker
  import opened JsonRefinement
  import opened JsonRedactor

  // ---- shape -------------------------------------------------------------------

  /**
    `r` is `v` with nothing but leaf strings changed: same keys in the same
    order, skipped members and non-strings untouched, and an expanded string
    still a string, holding the serialization of its redacted tree.
   */
  ghost predicate SameShape(cfg: Config, v: Value, r: Value, depth: nat)
    decreases Fuel(depth), v
  {
    match v
    case Str(s) =>
      (match Expansion(cfg, s, depth)
       case Some(p) => exists y :: r == Str(cfg.ser(y)) && SameShape(cfg, p, y, depth + 1)
       case None => r.Str? && (s == "" ==> r == v))
    case Arr(items) =>
      r.Arr? && |r.items| == |items| && forall i :: 0 <= i < |items| ==> SameShape(cfg, items[i], r.items[i], depth)
    case Obj(members) =>
      && r.Obj? && |r.members| == |members|
      && (forall i :: 0 <= i < |members| ==> r.members[i].key == members[i].key)
      && (forall i :: 0 <= i < |members| ==>
            if members[i].key in cfg.skip then r.members[i] == members[i]
            else SameShape(cfg, members[i].value, r.members[i].value, depth))
    case _ => r == v
  }

  lemma {:induction false} RedactKeepsShape(cfg: Config, v: Value, key: Option<string>, depth: nat, off: nat,
                                            rewrite: LeafRewrite)
    ensures SameShape(cfg, v, Redact(cfg, v, key, depth, off, rewrite), depth)
    decreases Fuel(depth), v
  {
    match v
    case Str(s) =>
      var e := Expansion(cfg, s, depth);
      if e.Some? {
        RedactKeepsShape(cfg, e.value, key, depth + 1, off, rewrite);
      }
    case Arr(items) =>
      forall i: nat | i < |items|
        ensures SameShape(cfg, items[i], Redact(cfg, v, key, depth, off, rewrite).items[i], depth)
      {
        RedactKeepsShape(cfg, items[i], key, depth, KidOffset(cfg, v, key, depth, off, i), rewrite);
      }
    case Obj(members) =>
      forall i: nat | i < |members| && members[i].key !in cfg.skip
        ensures SameShape(cfg, members[i].value, Redact(cfg, v, key, depth, off, rewrite).members[i].value, depth)
      {
        RedactKeepsShape(cfg, members[i].value, Some(members[i].key), depth,
                         KidOffset(cfg, v, key, depth, off, i), rewrite);
      }
    case _ =>
  }

  // ---- only leaf bytes matter ----------------------------------------------------

  lemma LeafOfKidIsLeaf(cfg: Config, v: Value, key: Option<string>, depth: nat, off: nat, i: nat, p: Path, start: nat,
                        s: string)
    requires i < Count(v) && !Skipped(cfg, v, i)
    requires IsLeaf(cfg, Kid(v, i), KidKey(v, i, key), depth, KidOffset(cfg, v, key, depth, off, i), p, start, s)
    ensures IsLeaf(cfg, v, key, depth, off, [Token(v, i)] + p, start, s)
  {
    assert ([Token(v, i)] + p)[1..] == p;
  }

  /** Two rewrites that agree on the document's leaves redact it alike. */
  lemma {:induction false} RedactDependsOnLeaves(cfg: Config, v: Value, key: Option<string>, depth: nat, off: nat,
                                                 f: LeafRewrite, g: LeafRewrite)
    requires forall p, start, s :: IsLeaf(cfg, v, key, depth, off, p, start, s) ==> f(start, s) == g(start, s)
    ensures Redact(cfg, v, key, depth, off, f) == Redact(cfg, v, key, depth, off, g)
    decreases Fuel(depth), v
  {
    if v.Str? {
      var e := Expansion(cfg, v.text, depth);
      if e.Some? {
        var inner := depth + 1;
        forall p, start, s | IsLeaf(cfg, e.value, key, inner, off, p, start, s)
          ensures f(start, s) == g(start, s)
        {
          assert IsLeaf(cfg, v, key, depth, off, p, start, s);
        }
        RedactDependsOnLeaves(cfg, e.value, key, inner, off, f, g);
      } else if v.text != "" {
        assert IsLeaf(cfg, v, key, depth, off, [], off + |KeyPrefix(key)|, v.text);
      }
    } else if IsContainer(v) {
      var a, b := Redact(cfg, v, key, depth, off, f), Redact(cfg, v, key, depth, off, g);
      forall i: nat | i < Count(v)
        ensures Kid(a, i) == Kid(b, i)
      {
        if !Skipped(cfg, v, i) {
          var at := KidOffset(cfg, v, key, depth, off, i);
          forall p, start, s | IsLeaf(cfg, Kid(v, i), KidKey(v, i, key), depth, at, p, start, s)
            ensures f(start, s) == g(start, s)
          {
            LeafOfKidIsLeaf(cfg, v, key, depth, off, i, p, start, s);
          }
          RedactDependsOnLeaves(cfg, Kid(v, i), KidKey(v, i, key), depth, at, f, g);
        }
      }
      SameKids(v, a, b);
    }
  }

  lemma SameKids(v: Value, a: Value, b: Value)
    requires IsContainer(v) && v.Arr? == a.Arr? == b.Arr? && v.Obj? == a.Obj? == b.Obj?
    requires Count(a) == Count(v) == Count(b)
    requires forall i :: 0 <= i < Count(v) ==> Kid(a, i) == Kid(b, i)
    requires v.Obj? ==> forall i :: 0 <= i < Count(v) ==> a.members[i].key == b.members[i].key
    ensures a == b
  {
    if v.Arr? {
      assert forall i :: 0 <= i < |a.items| ==> a.items[i] == Kid(a, i) == Kid(b, i) == b.items[i];
      assert a.items == b.items;
    } else {
      assert forall i :: 0 <= i < |a.members| ==> a.members[i].value == Kid(a, i) == Kid(b, i) == b.members[i].value;
      assert forall i :: 0 <= i < |a.members| ==> a.members[i] == b.members[i];
      assert a.members == b.members;
    }
  }

  lemma {:induction false} ClipAppend(a: seq<Span>, b: seq<Span>, start: nat, end: nat)
    ensures Clip(a + b, start, end) == Clip(a, start, end) + Clip(b, start, end)
  {
    if b == [] {
      assert a + b == a;
    } else {
      assert (a + b)[..|a + b| - 1] == a + b[..|b| - 1];
      ClipAppend(a, b[..|b| - 1], start, end);
    }
  }

  lemma ClipIgnores(before: seq<Span>, extra: Span, after: seq<Span>, start: nat, end: nat)
    requires extra.end <= start || end <= extra.start
    ensures Clip(before + [extra] + after, start, end) == Clip(before + after, start, end)
  {
    assert Clip([extra], start, end) == [] by {
      assert [extra][..0] == [];
    }
    ClipAppend(before + [extra], after, start, end);
    ClipAppend(before, [extra], start, end);
    ClipAppend(before, after, start, end);
  }

  lemma SameRewrite(a: seq<Span>, b: seq<Span>, ph: string -> string, start: nat, s: string)
    requires Clip(a, start, start + |s|) == Clip(b, start, start + |s|)
    ensures SpanRewrite(a, ph)(start, s) == SpanRewrite(b, ph)(start, s)
  {
  }

  /** A span that lies in key prefixes and separators only changes nothing, wherever it is in the list. */
  lemma SpanOutsideLeavesIsDiscarded(cfg: Config, v: Value, before: seq<Span>, extra: Span, after: seq<Span>,
                                     ph: string -> string)
    requires forall l :: l in Leaves(cfg, v, None, 0, 0) ==> extra.end <= l.start || l.end <= extra.start
    ensures RedactDocument(cfg, v, before + [extra] + after, ph) == RedactDocument(cfg, v, before + after, ph)
  {
    var f, g := SpanRewrite(before + [extra] + after, ph), SpanRewrite(before + after, ph);
    forall p, start: nat, s: string | IsLeaf(cfg, v, None, 0, 0, p, start, s)
      ensures f(start, s) == g(start, s)
    {
      OutsideLeaf(cfg, v, extra, p, start, s);
      ClipIgnores(before, extra, after, start, start + |s|);
      SameRewrite(before + [extra] + after, before + after, ph, start, s);
    }
    RedactDependsOnLeaves(cfg, v, None, 0, 0, f, g);
  }

  lemma OutsideLeaf(cfg: Config, v: Value, extra: Span, p: Path, start: nat, s: string)
    requires forall l :: l in Leaves(cfg, v, None, 0, 0) ==> extra.end <= l.start || l.end <= extra.start
    requires IsLeaf(cfg, v, None, 0, 0, p, start, s)
    ensures extra.end <= start || start + |s| <= extra.start
  {
    LeafIsListed(cfg, v, None, 0, 0, p, start, s);
    assert Leaf(p, s, start, start + |s|) in Leaves(cfg, v, None, 0, 0);
  }

  // ---- which bytes of a leaf are replaced -------------------------------------------

  lemma {:induction false} ClipCovers(spans: seq<Span>, start: nat, end: nat, category: string, x: nat)
    ensures CoveredAs(Clip(spans, start, end), category, x)
       <==> start + x < end && CoveredAs(spans, category, start + x)
  {
    if spans != [] {
      var init, s := spans[..|spans| - 1], Last(spans);
      ClipCovers(init, start, end, category, x);
      CoveredAsSnoc(init, s, category, start + x);
      assert init + [s] == spans;
      var from, to := Max(s.start, start), Min(s.end, end);
      if from < to {
        CoveredAsSnoc(Clip(init, start, end), Span(from - start, to - start, s.category), category, x);
      }
    }
  }

  lemma CoveredAsSnoc(init: seq<Span>, s: Span, category: string, x: int)
    ensures CoveredAs(init + [s], category, x) <==>
        CoveredAs(init, category, x) || (Covers(s, x) && s.category == category)
  {
    var all := init + [s];
    if CoveredAs(init, category, x) {
      var i :| 0 <= i < |init| && Covers(init[i], x) && init[i].category == category;
      assert all[i] == init[i];
    }
    if Covers(s, x) && s.category == category {
      assert all[|init|] == s;
    }
  }

  /** Every span starts and ends on a character of the rendered document. */
  ghost predicate SpansOnCharacters(doc: string, spans: seq<Span>) {
    forall s :: s in spans ==> IsCharBoundary(doc, s.start) && IsCharBoundary(doc, s.end)
  }

  lemma {:induction false} ClipOnBoundaries(doc: string, spans: seq<Span>, start: nat, end: nat)
    requires start <= end <= |doc| && SpansOnCharacters(doc, spans)
    ensures OnBoundaries(doc[start..end], Clip(spans, start, end))
  {
    if spans != [] {
      var init, s := spans[..|spans| - 1], Last(spans);
      assert forall t :: t in init ==> t in spans;
      assert s in spans;
      ClipOnBoundaries(doc, init, start, end);
      var text := doc[start..end];
      var from, to := Max(s.start, start), Min(s.end, end);
      if from < to {
        assert IsCharBoundary(text, from - start) && IsCharBoundary(text, to - start);
      }
    }
  }

  /** What becomes of a leaf, piece by piece. */
  function LeafPieces(l: Leaf, spans: seq<Span>): (r: seq<Piece>)
    ensures forall p :: p in r && p.Keep? ==> p.from <= p.to <= |l.original|
  {
    Pieces(l.original, MergedForLeaf(Clip(spans, l.start, l.end)), 0)
  }

  lemma LeafIsOnBoundaries(cfg: Config, v: Value, l: Leaf, spans: seq<Span>)
    requires l in Leaves(cfg, v, None, 0, 0) && SpansOnCharacters(Trimmed(Text(cfg, v, None, 0)), spans)
    ensures l.end == l.start + |l.original|
    ensures OnBoundaries(l.original, Clip(spans, l.start, l.end))
  {
    TrimKeepsLeaves(cfg, v, l);
    LeafRanges(cfg, v, None, 0, 0);
    assert RangeMatches(l, Text(cfg, v, None, 0), 0);
    ClipOnBoundaries(Trimmed(Text(cfg, v, None, 0)), spans, l.start, l.end);
  }

  /** A placeholder carries the label of a span that covers every byte under it. */
  lemma PlaceholderHasItsLabel(l: Leaf, spans: seq<Span>, x: nat, i: nat)
    requires OnBoundaries(l.original, Clip(spans, l.start, l.end)) && i < |LeafPieces(l, spans)|
    requires var p := LeafPieces(l, spans)[i]; p.Mask? && p.from <= x < p.to
    ensures CoveredAs(spans, LeafPieces(l, spans)[i].category, l.start + x)
  {
    var clipped, category := Clip(spans, l.start, l.end), LeafPieces(l, spans)[i].category;
    RedactStringMasksExactlyCovered(l.original, clipped, x => x);
    assert CoveredAs(clipped, category, x);
    ClipCovers(spans, l.start, l.end, category, x);
  }

  /**
    A byte of a leaf is replaced if and only if some span covers its offset in
    the rendered document; the placeholder over it carries the label of a span
    covering it; every other byte is kept, in order.
   */
  lemma LeafByteReplacedIffCovered(cfg: Config, v: Value, l: Leaf, spans: seq<Span>, ph: string -> string, x: nat)
    requires l in Leaves(cfg, v, None, 0, 0) && x < |l.original|
    requires SpansOnCharacters(Trimmed(Text(cfg, v, None, 0)), spans)
    ensures var pieces := LeafPieces(l, spans);
      && SpanRewrite(spans, ph)(l.start, l.original)
           == (if Clip(spans, l.start, l.end) == [] then None else Some(Render(l.original, pieces, ph)))
      && Tiles(pieces, 0, |l.original|)
      && (Masked(pieces, x) <==> Covered(spans, l.start + x))
      && (forall i :: 0 <= i < |pieces| && pieces[i].Mask? && pieces[i].from <= x < pieces[i].to
            ==> CoveredAs(spans, pieces[i].category, l.start + x))
  {
    var clipped := Clip(spans, l.start, l.end);
    LeafIsOnBoundaries(cfg, v, l, spans);
    SpanRewriteAt(SpanRewrite(spans, ph), spans, ph, l.start, l.original, clipped);
    RedactStringMasksExactlyCovered(l.original, clipped, ph);
    ClipCoversSome(spans, l.start, l.end, x);
    var pieces := LeafPieces(l, spans);
    forall i | 0 <= i < |pieces| && pieces[i].Mask? && pieces[i].from <= x < pieces[i].to
      ensures CoveredAs(spans, pieces[i].category, l.start + x)
    {
      PlaceholderHasItsLabel(l, spans, x, i);
    }
  }

  lemma ClipCoversSome(spans: seq<Span>, start: nat, end: nat, x: nat)
    requires start + x < end
    ensures Covered(Clip(spans, start, end), x) <==> Covered(spans, start + x)
  {
    var clipped := Clip(spans, start, end);
    if Covered(spans, start + x) {
      var i :| 0 <= i < |spans| && Covers(spans[i], start + x);
      assert CoveredAs(spans, spans[i].category, start + x);
      ClipCovers(spans, start, end, spans[i].category, x);
    }
    if Covered(clipped, x) {
      var i :| 0 <= i < |clipped| && Covers(clipped[i], x);
      assert CoveredAs(clipped, clipped[i].category, x);
      ClipCovers(spans, start, end, clipped[i].category, x);
    }
  }

  // ---- nothing detected ------------------------------------------------------------------

  /** The pass when no span was detected: expanded strings are parsed and serialized again. */
  function Reserialize(cfg: Config, v: Value, depth: nat): Value
    decreases Fuel(depth), v
  {
    match v
    case Str(s) =>
      (match Expansion(cfg, s, depth)
       case Some(p) => Str(cfg.ser(Reserialize(cfg, p, depth + 1)))
       case None => v)
    case Arr(items) => Arr(seq(|items|, i requires 0 <= i < |items| => Reserialize(cfg, items[i], depth)))
    case Obj(members) =>
      Obj(seq(|members|, i requires 0 <= i < |members| =>
        Member(members[i].key,
               if members[i].key in cfg.skip then members[i].value
               else Reserialize(cfg, members[i].value, depth))))
    case _ => v
  }

  ghost predicate RewritesNothing(rewrite: LeafRewrite) {
    forall start, s :: rewrite(start, s) == None
  }

  lemma {:induction false} RedactNothing(cfg: Config, v: Value, key: Option<string>, depth: nat, off: nat,
                                         rewrite: LeafRewrite)
    requires RewritesNothing(rewrite)
    ensures Redact(cfg, v, key, depth, off, rewrite) == Reserialize(cfg, v, depth)
    decreases Fuel(depth), v
  {
    if v.Str? {
      var e := Expansion(cfg, v.text, depth);
      if e.Some? {
        RedactNothing(cfg, e.value, key, depth + 1, off, rewrite);
      }
    } else if IsContainer(v) {
      var a, b := Redact(cfg, v, key, depth, off, rewrite), Reserialize(cfg, v, depth);
      forall i: nat | i < Count(v)
        ensures Kid(a, i) == Kid(b, i)
      {
        if !Skipped(cfg, v, i) {
          RedactNothing(cfg, Kid(v, i), KidKey(v, i, key), depth, KidOffset(cfg, v, key, depth, off, i), rewrite);
        }
      }
      SameKids(v, a, b);
    }
  }

  lemma ReserializeFrame(cfg: Config, v: Value, depth: nat)
    requires IsContainer(v)
    ensures var r := Reserialize(cfg, v, depth);
      && Count(r) == Count(v) && r.Arr? == v.Arr? && r.Obj? == v.Obj?
      && (v.Obj? ==> forall i :: 0 <= i < Count(v) ==> r.members[i].key == v.members[i].key)
      && (forall i :: 0 <= i < Count(v) ==>
            Kid(r, i) == if Skipped(cfg, v, i) then Kid(v, i) else Reserialize(cfg, Kid(v, i), depth))
  {
  }

  /** Parsing undoes serializing on the trees that end up in the place of the expanded strings of `v`. */
  ghost predicate RoundTripsInside(cfg: Config, v: Value, depth: nat)
    decreases Fuel(depth), v
  {
    if v.Str? then
      match Expansion(cfg, v.text, depth)
      case Some(p) =>
        var inner := Reserialize(cfg, p, depth + 1);
        cfg.parse(cfg.ser(inner)) == Some(inner) && RoundTripsInside(cfg, p, depth + 1)
      case None => true
    else
      forall i :: 0 <= i < Count(v) && !Skipped(cfg, v, i) ==> RoundTripsInside(cfg, Kid(v, i), depth)
  }

  /** Reserializing a second time changes nothing, at any depth. */
  lemma {:induction false} ReserializeTwice(cfg: Config, v: Value, depth: nat)
    requires RoundTripsInside(cfg, v, depth)
    ensures Reserialize(cfg, Reserialize(cfg, v, depth), depth) == Reserialize(cfg, v, depth)
    decreases Fuel(depth), v
  {
    if v.Str? {
      var e := Expansion(cfg, v.text, depth);
      if e.Some? {
        var inner := Reserialize(cfg, e.value, depth + 1);
        ReserializeFrame(cfg, e.value, depth + 1);
        assert cfg.parse(cfg.ser(inner)) == Some(inner) && IsContainer(inner);
        ReserializeTwice(cfg, e.value, depth + 1);
      }
    } else if IsContainer(v) {
      var r := Reserialize(cfg, v, depth);
      ReserializeFrame(cfg, v, depth);
      ReserializeFrame(cfg, r, depth);
      forall i: nat | i < Count(v)
        ensures Kid(Reserialize(cfg, r, depth), i) == Kid(r, i)
      {
        if !Skipped(cfg, v, i) {
          ReserializeTwice(cfg, Kid(v, i), depth);
        }
      }
      SameKids(v, Reserialize(cfg, r, depth), r);
    }
  }

  /**
    With nothing detected the pass is idempotent: its output is a fixed point,
    provided the trees it serializes are parsed back as they were.
   */
  lemma NoSpansIdempotent(cfg: Config, input: string, ph: string -> string)
    requires cfg.parse(input).Some? && RoundTripsInside(cfg, cfg.parse(input).value, 0)
    requires var r := Reserialize(cfg, cfg.parse(input).value, 0); cfg.parse(cfg.ser(r)) == Some(r)
    ensures var output := RedactDocument(cfg, cfg.parse(input).value, [], ph);
      cfg.parse(output).Some? && RedactDocument(cfg, cfg.parse(output).value, [], ph) == output
  {
    var v := cfg.parse(input).value;
    var r := Reserialize(cfg, v, 0);
    var rewrite := SpanRewrite([], ph);
    forall start: nat, s: string
      ensures rewrite(start, s) == None
    {
      assert Clip([], start, start + |s|) == [];
    }
    RedactNothing(cfg, v, None, 0, 0, rewrite);
    RedactNothing(cfg, r, None, 0, 0, rewrite);
    ReserializeTwice(cfg, v, 0);
  }

  /** A document without stringified JSON comes back as the very same tree. */
  lemma {:induction false} NothingExpandedNothingChanged(cfg: Config, v: Value, depth: nat)
    requires forall p :: !IsMarker(cfg, v, depth, p)
    ensures Reserialize(cfg, v, depth) == v
    decreases Fuel(depth), v
  {
    if v.Str? {
      assert !IsMarker(cfg, v, depth, []);
    } else if IsContainer(v) {
      ReserializeFrame(cfg, v, depth);
      forall i: nat | i < Count(v)
        ensures Kid(Reserialize(cfg, v, depth), i) == Kid(v, i)
      {
        if !Skipped(cfg, v, i) {
          forall p
            ensures !IsMarker(cfg, Kid(v, i), depth, p)
          {
            assert ([Token(v, i)] + p)[1..] == p;
            assert !IsMarker(cfg, v, depth, [Token(v, i)] + p);
          }
          NothingExpandedNothingChanged(cfg, Kid(v, i), depth);
        }
      }
      SameKids(v, Reserialize(cfg, v, depth), v);
    }
  }
}
