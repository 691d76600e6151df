/**
  `redact_string`: replacing byte ranges of one leaf by placeholders. The loop
  builds a string; the model also names the pieces that string is made of, so
  that which byte survived, which was masked and by whose label can be stated.
 */
module Redaction {
  import opened Common
  import opened StableSorting
  import opened Spans
  import opened Utf8

  datatype Piece =
    | Keep(from: nat, to: nat)
    | Mask(from: nat, to: nat, category: string)

  /** The piece-level trace of the loop: `cursor` is the end of the last placeholder. */
  function Pieces(text: string, merged: seq<Span>, cursor: nat): (r: seq<Piece>)
    requires cursor <= |text|
    ensures forall p :: p in r && p.Keep? ==> p.from <= p.to <= |text|
  {
    if merged == [] then
      if cursor < |text| then [Keep(cursor, |text|)] else []
    else
      var Span(start, end, category) := merged[0];
      if end > |text| || end <= cursor then Pieces(text, merged[1..], cursor)
      else
        var from := Max(cursor, start);
        if !IsCharBoundary(text, from) || !IsCharBoundary(text, end) then Pieces(text, merged[1..], cursor)
        else [Keep(cursor, from), Mask(from, end, category)] + Pieces(text, merged[1..], end)
  }

  /** `ph` is the placeholder format applied to an upper-cased label. */
  function Render(text: string, pieces: seq<Piece>, ph: string -> string): string
    requires forall p :: p in pieces && p.Keep? ==> p.from <= p.to <= |text|
  {
    if pieces == [] then ""
    else
      (match pieces[0]
       case Keep(from, to) => text[from..to]
       case Mask(_, _, category) => ph(category))
      + Render(text, pieces[1..], ph)
  }

  function MergedForLeaf(spans: seq<Span>): seq<Span> {
    Coalesce([], StableSort(spans, ByStart))
  }

  function RedactString(text: string, spans: seq<Span>, ph: string -> string): string {
    if spans == [] then text
    else Render(text, Pieces(text, MergedForLeaf(spans), 0), ph)
  }

  // What the pieces say

  /** The pieces are laid end to end from `from` to `to`. */
  ghost predicate Tiles(pieces: seq<Piece>, from: nat, to: nat) {
    if pieces == [] then from == to
    else pieces[0].from == from && from <= pieces[0].to && Tiles(pieces[1..], pieces[0].to, to)
  }

  ghost predicate Masked(pieces: seq<Piece>, x: int) {
    exists i :: 0 <= i < |pieces| && pieces[i].Mask? && pieces[i].from <= x < pieces[i].to
  }

  /** Every byte under a placeholder is covered by a span carrying that placeholder's label. */
  ghost predicate MaskedByTheirLabel(pieces: seq<Piece>, spans: seq<Span>) {
    forall i, x :: 0 <= i < |pieces| && pieces[i].Mask? && pieces[i].from <= x < pieces[i].to
      ==> CoveredAs(spans, pieces[i].category, x)
  }

  ghost predicate OnBoundaries(text: string, spans: seq<Span>) {
    forall s :: s in spans ==>
      s.start < s.end <= |text| && IsCharBoundary(text, s.start) && IsCharBoundary(text, s.end)
  }

  lemma MaskedCons(p: Piece, rest: seq<Piece>, x: int)
    ensures Masked([p] + rest, x) <==> (p.Mask? && p.from <= x < p.to) || Masked(rest, x)
  {
    var all := [p] + rest;
    if Masked(rest, x) {
      var i :| 0 <= i < |rest| && rest[i].Mask? && rest[i].from <= x < rest[i].to;
      assert all[i + 1] == rest[i];
    }
    if p.Mask? && p.from <= x < p.to {
      assert all[0] == p;
    }
    if Masked(all, x) {
      var i :| 0 <= i < |all| && all[i].Mask? && all[i].from <= x < all[i].to;
      assert i > 0 ==> rest[i - 1] == all[i];
    }
  }

  /** Whatever the spans, the pieces tile the text and mask only covered bytes under their own label. */
  lemma {:induction false} PiecesAreSound(text: string, merged: seq<Span>, cursor: nat)
    requires cursor <= |text|
    requires forall s :: s in merged ==> s.start < s.end
    ensures Tiles(Pieces(text, merged, cursor), cursor, |text|)
    ensures MaskedByTheirLabel(Pieces(text, merged, cursor), merged)
  {
    if merged == [] {
    } else {
      var Span(start, end, category) := merged[0];
      var from := Max(cursor, start);
      var taken := cursor < end <= |text| && IsCharBoundary(text, from) && IsCharBoundary(text, end);
      var next := if taken then end else cursor;
      PiecesAreSound(text, merged[1..], next);
      var all, rest := Pieces(text, merged, cursor), Pieces(text, merged[1..], next);
      if taken {
        assert all[1..][1..] == rest;
      }
      forall i, x | 0 <= i < |all| && all[i].Mask? && all[i].from <= x < all[i].to
        ensures CoveredAs(merged, all[i].category, x)
      {
        CoveredAsCons(merged, all[i].category, x);
        var j := if taken then i - 2 else i;
        if j >= 0 {
          assert all[i] == rest[j];
        } else {
          assert Covers(merged[0], x);
        }
      }
    }
  }

  /** What the first two pieces of a span that is honoured say about byte `x`. */
  lemma MaskedTwo(from: nat, to: nat, start: nat, category: string, rest: seq<Piece>, x: nat)
    ensures Masked([Keep(from, start), Mask(start, to, category)] + rest, x) <==> start <= x < to || Masked(rest, x)
  {
    MaskedCons(Keep(from, start), [Mask(start, to, category)] + rest, x);
    MaskedCons(Mask(start, to, category), rest, x);
    assert [Keep(from, start), Mask(start, to, category)] + rest
        == [Keep(from, start)] + ([Mask(start, to, category)] + rest);
  }

  lemma {:induction false} TilesStartAfter(text: string, merged: seq<Span>, cursor: nat, x: nat)
    requires x < cursor <= |text|
    ensures !Masked(Pieces(text, merged, cursor), x)
  {
    if merged != [] {
      var Span(start, end, category) := merged[0];
      var from := Max(cursor, start);
      if cursor < end <= |text| && IsCharBoundary(text, from) && IsCharBoundary(text, end) {
        var rest := Pieces(text, merged[1..], end);
        TilesStartAfter(text, merged[1..], end, x);
        MaskedTwo(cursor, end, from, category, rest, x);
      } else {
        TilesStartAfter(text, merged[1..], cursor, x);
      }
    }
  }

  /**
    Which spans are honoured, without reference to the loop: the end is a
    boundary, and the start is one too or lies below `floor` or inside an
    earlier span that is honoured itself.
   */
  ghost predicate Anchored(text: string, spans: seq<Span>, floor: nat, i: nat)
    requires i < |spans|
  {
    && IsCharBoundary(text, spans[i].end)
    && (|| IsCharBoundary(text, spans[i].start)
        || spans[i].start < floor
        || exists j: nat :: j < i && Anchored(text, spans, floor, j) && spans[i].start < spans[j].end)
  }

  ghost predicate AnchoredCovers(text: string, spans: seq<Span>, floor: nat, x: int) {
    exists i: nat :: i < |spans| && Anchored(text, spans, floor, i) && Covers(spans[i], x)
  }

  /** Whether the loop honours the first span, and the cursor it leaves. */
  predicate Taken(text: string, s: Span, cursor: nat) {
    cursor < s.end <= |text| && IsCharBoundary(text, Max(cursor, s.start)) && IsCharBoundary(text, s.end)
  }

  function NextCursor(text: string, s: Span, cursor: nat): nat {
    if Taken(text, s, cursor) then s.end else cursor
  }

  lemma TakenIffAnchored(text: string, merged: seq<Span>, cursor: nat)
    requires merged != [] && cursor <= |text| && IsCharBoundary(text, cursor)
    ensures Taken(text, merged[0], cursor) <==> cursor < merged[0].end && Anchored(text, merged, cursor, 0)
  {
  }

  /** Moving the cursor past the first span anchors the same spans among the others. */
  lemma {:induction false} AnchoredInRest(text: string, merged: seq<Span>, cursor: nat, i: nat)
    requires 0 < i < |merged| && cursor <= |text| && IsCharBoundary(text, cursor)
    ensures Anchored(text, merged, cursor, i)
       <==> Anchored(text, merged[1..], NextCursor(text, merged[0], cursor), i - 1)
  {
    var rest, next := merged[1..], NextCursor(text, merged[0], cursor);
    TakenIffAnchored(text, merged, cursor);
    forall j: nat | 0 < j < i
      ensures Anchored(text, merged, cursor, j) <==> Anchored(text, rest, next, j - 1)
    {
      AnchoredInRest(text, merged, cursor, j);
    }
    if j: nat :| j < i && Anchored(text, merged, cursor, j) && merged[i].start < merged[j].end {
      assert j > 0 ==> Anchored(text, rest, next, j - 1) && rest[i - 1].start < rest[j - 1].end;
    }
    if j: nat :| j < i - 1 && Anchored(text, rest, next, j) && rest[i - 1].start < rest[j].end {
      assert Anchored(text, merged, cursor, j + 1) && merged[i].start < merged[j + 1].end;
    }
  }

  lemma AnchoredCoversCons(text: string, merged: seq<Span>, cursor: nat, x: nat)
    requires merged != [] && cursor <= |text| && IsCharBoundary(text, cursor) && cursor <= x
    ensures AnchoredCovers(text, merged, cursor, x)
       <==> ((Taken(text, merged[0], cursor) && Covers(merged[0], x))
             || AnchoredCovers(text, merged[1..], NextCursor(text, merged[0], cursor), x))
  {
    var rest, next := merged[1..], NextCursor(text, merged[0], cursor);
    TakenIffAnchored(text, merged, cursor);
    if i: nat :| i < |merged| && Anchored(text, merged, cursor, i) && Covers(merged[i], x) {
      if i > 0 {
        AnchoredInRest(text, merged, cursor, i);
        assert Anchored(text, rest, next, i - 1) && Covers(rest[i - 1], x);
      }
    }
    if i: nat :| i < |rest| && Anchored(text, rest, next, i) && Covers(rest[i], x) {
      AnchoredInRest(text, merged, cursor, i + 1);
      assert Anchored(text, merged, cursor, i + 1) && Covers(merged[i + 1], x);
    }
  }

  /** From the cursor on, the loop masks exactly the bytes of the anchored spans. */
  lemma {:induction false} MaskedIffAnchored(text: string, merged: seq<Span>, cursor: nat, x: nat)
    requires cursor <= |text| && IsCharBoundary(text, cursor)
    requires Sorted(merged, ByStart) && cursor <= x < |text|
    ensures Masked(Pieces(text, merged, cursor), x) <==> AnchoredCovers(text, merged, cursor, x)
  {
    if merged != [] {
      var s, rest := merged[0], merged[1..];
      AnchoredCoversCons(text, merged, cursor, x);
      if !Taken(text, s, cursor) {
        MaskedIffAnchored(text, rest, cursor, x);
      } else {
        var from := Max(cursor, s.start);
        MaskedTwo(cursor, s.end, from, s.category, Pieces(text, rest, s.end), x);
        if x >= s.end {
          MaskedIffAnchored(text, rest, s.end, x);
        } else {
          TilesStartAfter(text, rest, s.end, x);
          assert forall i :: 0 <= i < |rest| ==> ByStart(s, rest[i]);
        }
      }
    }
  }

  /** On boundaries every span is anchored. */
  lemma BoundariesAnchor(text: string, spans: seq<Span>, x: int)
    requires OnBoundaries(text, spans)
    ensures AnchoredCovers(text, spans, 0, x) <==> Covered(spans, x)
  {
    assert forall i :: 0 <= i < |spans| ==> spans[i] in spans;
    if i :| 0 <= i < |spans| && Covers(spans[i], x) {
      assert Anchored(text, spans, 0, i);
    }
  }

  /** Absorbing keeps spans non-empty, inside the text and on its boundaries. */
  lemma {:induction false} CoalesceKeepsBoundaries(text: string, out: seq<Span>, spans: seq<Span>)
    requires OnBoundaries(text, out) && OnBoundaries(text, spans)
    ensures OnBoundaries(text, Coalesce(out, spans))
    decreases |spans|
  {
    if spans != [] {
      assert spans[0] in spans;
      assert out != [] ==> Last(out) in out;
      CoalesceKeepsBoundaries(text, Absorb(out, spans[0]), spans[1..]);
    }
  }

  lemma {:induction false} CoalesceKeepsNonEmpty(out: seq<Span>, spans: seq<Span>)
    requires forall s :: s in out + spans ==> s.start < s.end
    ensures forall s :: s in Coalesce(out, spans) ==> s.start < s.end
    decreases |spans|
  {
    if spans != [] {
      assert spans[0] in out + spans;
      assert forall s :: s in out ==> s in out + spans;
      assert forall s :: s in spans[1..] ==> s in spans && s in out + spans;
      assert out != [] ==> Last(out) in out + spans;
      CoalesceKeepsNonEmpty(Absorb(out, spans[0]), spans[1..]);
    }
  }

  lemma {:induction false} CoalesceKeepsStarts(out: seq<Span>, spans: seq<Span>)
    requires Sorted(out + spans, ByStart)
    ensures Sorted(Coalesce(out, spans), ByStart)
    decreases |spans|
  {
    var all := out + spans;
    if spans == [] {
      assert all == out;
    } else {
      var next := Absorb(out, spans[0]);
      var rest := next + spans[1..];
      assert forall i :: 0 <= i < |out| ==> all[i] == out[i];
      assert forall j :: |next| <= j < |rest| ==> rest[j] == all[|out| + 1 + j - |next|];
      assert forall i :: 0 <= i < |next| ==> next[i].start == all[i].start;
      CoalesceKeepsStarts(next, spans[1..]);
    }
  }

  /** What redacting one leaf does to it, for spans on char boundaries. */
  ghost predicate ExactlyCoveredMasked(text: string, spans: seq<Span>, pieces: seq<Piece>) {
    && Tiles(pieces, 0, |text|)
    && MaskedByTheirLabel(pieces, spans)
    && forall x: nat :: x < |text| ==> (Masked(pieces, x) <==> Covered(spans, x))
  }

  lemma MergedForLeafFacts(spans: seq<Span>)
    ensures Sorted(MergedForLeaf(spans), ByStart)
    ensures forall category, x :: CoveredAs(MergedForLeaf(spans), category, x) <==> CoveredAs(spans, category, x)
  {
    var sorted := StableSort(spans, ByStart);
    SpanOrders();
    SortSorted(spans, ByStart);
    SortMultiset(spans, ByStart);
    assert [] + sorted == sorted;
    CoalesceKeepsStarts([], sorted);
    forall category, x
      ensures CoveredAs(MergedForLeaf(spans), category, x) <==> CoveredAs(spans, category, x)
    {
      CoalesceCovers([], sorted, category, x);
      CoveredAsSameElements(spans, sorted, category, x);
    }
  }

  lemma MergingCoversTheSame(spans: seq<Span>, x: int)
    ensures Covered(MergedForLeaf(spans), x) <==> Covered(spans, x)
  {
    MergedForLeafFacts(spans);
    CoveredIffSomeLabel(spans, x);
    CoveredIffSomeLabel(MergedForLeaf(spans), x);
  }

  /** A byte of the leaf is replaced if and only if some span covers it. */
  lemma RedactStringMasksExactlyCovered(text: string, spans: seq<Span>, ph: string -> string)
    requires OnBoundaries(text, spans)
    ensures var pieces := Pieces(text, MergedForLeaf(spans), 0);
      ExactlyCoveredMasked(text, spans, pieces) && RedactString(text, spans, ph) == Render(text, pieces, ph)
  {
    var merged := MergedForLeaf(spans);
    var pieces := Pieces(text, merged, 0);
    MergedForLeafFacts(spans);
    SortMultiset(spans, ByStart);
    CoalesceKeepsBoundaries(text, [], StableSort(spans, ByStart));
    PiecesAreSound(text, merged, 0);
    if spans == [] {
      RenderTail(text, merged, 0, ph);
    }
    forall x: nat | x < |text|
      ensures Masked(pieces, x) <==> Covered(spans, x)
    {
      MaskedIffAnchored(text, merged, 0, x);
      BoundariesAnchor(text, merged, x);
      MergingCoversTheSame(spans, x);
    }
  }

  /** With no assumption on boundaries nothing outside the spans is ever masked. */
  lemma RedactStringMasksOnlyCovered(text: string, spans: seq<Span>)
    requires forall s :: s in spans ==> s.start < s.end
    ensures var pieces := Pieces(text, MergedForLeaf(spans), 0);
      Tiles(pieces, 0, |text|) && MaskedByTheirLabel(pieces, spans)
  {
    var sorted := StableSort(spans, ByStart);
    SortMultiset(spans, ByStart);
    assert [] + sorted == sorted;
    CoalesceKeepsNonEmpty([], sorted);
    MergedForLeafFacts(spans);
    PiecesAreSound(text, MergedForLeaf(spans), 0);
  }

  lemma PiecesOfRejected(text: string, s: Span)
    requires s.start < s.end <= |text|
    requires !IsCharBoundary(text, s.start) || !IsCharBoundary(text, s.end)
    ensures Pieces(text, [s], 0) == [Keep(0, |text|)] == Pieces(text, [], 0)
  {
    assert [s][1..] == [];
    assert Max(0, s.start) == s.start;
    assert Pieces(text, [s], 0) == Pieces(text, [s][1..], 0);
  }

  /** The boundary condition is needed: one that splits a character masks nothing at all. */
  lemma SpanInsideACharacterIsDropped(ph: string -> string)
    ensures var text := ['a', 0xC3 as char, 0xA9 as char];
      RedactString(text, [Span(0, 2, "X")], ph) == text && Covered([Span(0, 2, "X")], 0)
  {
    var text := ['a', 0xC3 as char, 0xA9 as char];
    var s := [Span(0, 2, "X")];
    assert Covers(s[0], 0);
    assert StableSort(s, ByStart) == s;
    assert Coalesce([], s) == s by {
      assert Absorb([], s[0]) == s && s[1..] == [];
    }
    PiecesOfRejected(text, s[0]);
    RenderTail(text, [], 0, ph);
  }

  /**
    For any spans at all: the masked bytes are those of the anchored merged
    spans, so redaction is exact if and only if these cover all that is covered.
   */
  lemma ExactIffAnchored(text: string, spans: seq<Span>)
    ensures var merged := MergedForLeaf(spans); var pieces := Pieces(text, merged, 0);
      && (forall x: nat :: x < |text| ==> (Masked(pieces, x) <==> AnchoredCovers(text, merged, 0, x)))
      && ((forall x: nat :: x < |text| ==> (Masked(pieces, x) <==> Covered(spans, x)))
          <==> (forall x: nat :: x < |text| && Covered(spans, x) ==> AnchoredCovers(text, merged, 0, x)))
  {
    var merged := MergedForLeaf(spans);
    MergedForLeafFacts(spans);
    forall x: nat | x < |text|
      ensures Masked(Pieces(text, merged, 0), x) <==> AnchoredCovers(text, merged, 0, x)
      ensures AnchoredCovers(text, merged, 0, x) ==> Covered(spans, x)
    {
      MaskedIffAnchored(text, merged, 0, x);
      MergingCoversTheSame(spans, x);
    }
  }

  /**
    Parts of one label collapse into one range if and only if, in order of their
    starts, none that follows another label touches an earlier one of its own.
   */
  lemma LeafLabelsApartIffUninterrupted(spans: seq<Span>)
    ensures LabelsApart(MergedForLeaf(spans)) <==> Uninterrupted(StableSort(spans, ByStart))
  {
    SpanOrders();
    SortSorted(spans, ByStart);
    ApartIffUninterrupted(StableSort(spans, ByStart));
  }

  /** A leaf's parts are taken by their starts; parts that start together, in the order they were detected. */
  lemma PartsAreTakenByStart(spans: seq<Span>, start: nat)
    ensures var sorted := StableSort(spans, ByStart);
      && (forall i, j :: 0 <= i < j < |sorted| ==> sorted[i].start <= sorted[j].start)
      && Filter(sorted, (s: Span) => s.start == start) == Filter(spans, (s: Span) => s.start == start)
  {
    var sorted := StableSort(spans, ByStart);
    SpanOrders();
    SortSorted(spans, ByStart);
    assert forall i, j :: 0 <= i < j < |sorted| ==> ByStart(sorted[i], sorted[j]);
    SortIsStable(spans, ByStart, (s: Span) => s.start == start);
  }

  lemma {:induction false} CoalesceLeavesNoneTouching(out: seq<Span>, spans: seq<Span>)
    requires NoneTouch(out)
    ensures NoneTouch(Coalesce(out, spans))
    decreases |spans|
  {
    if spans != [] {
      CoalesceLeavesNoneTouching(Absorb(out, spans[0]), spans[1..]);
    }
  }

  /** Of neighbouring merged parts with one label the first ends before the second starts. */
  lemma MergedPartsAreApart(spans: seq<Span>, i: nat)
    requires 0 < i < |MergedForLeaf(spans)|
    ensures var a, b := MergedForLeaf(spans)[i - 1], MergedForLeaf(spans)[i];
      a.start <= b.start && (a.category == b.category ==> a.end < b.start)
  {
    MergedForLeafFacts(spans);
    assert ByStart(MergedForLeaf(spans)[i - 1], MergedForLeaf(spans)[i]);
    CoalesceLeavesNoneTouching([], StableSort(spans, ByStart));
    assert !Touches(MergedForLeaf(spans)[i - 1], MergedForLeaf(spans)[i]);
  }

  lemma {:induction false} RenderAppend(text: string, a: seq<Piece>, b: seq<Piece>, ph: string -> string)
    requires forall p :: p in a + b && p.Keep? ==> p.from <= p.to <= |text|
    ensures Renderable(text, a) && Renderable(text, b)
    ensures Render(text, a + b, ph) == Render(text, a, ph) + Render(text, b, ph)
  {
    assert forall p :: p in a + b <==> p in a || p in b;
    if a == [] {
      assert a + b == b;
    } else {
      assert (a + b)[0] == a[0] && (a + b)[1..] == a[1..] + b;
      RenderAppend(text, a[1..], b, ph);
      Associate(match a[0] case Keep(from, to) => text[from..to] case Mask(_, _, category) => ph(category),
                Render(text, a[1..], ph), Render(text, b, ph));
    }
  }

  ghost predicate Renderable(text: string, pieces: seq<Piece>) {
    forall p :: p in pieces && p.Keep? ==> p.from <= p.to <= |text|
  }

  /** The rendering is that of its pieces, in order: a kept piece is its own bytes, a masked one is one placeholder. */
  lemma PieceIsRendered(text: string, before: seq<Piece>, p: Piece, after: seq<Piece>, ph: string -> string)
    requires Renderable(text, before + [p] + after)
    ensures Renderable(text, before) && Renderable(text, after)
    ensures Render(text, before + [p] + after, ph) ==
      Render(text, before, ph) + (if p.Keep? then text[p.from..p.to] else ph(p.category)) + Render(text, after, ph)
    ensures Render(text, [], ph) == ""
  {
    RenderAppend(text, before + [p], after, ph);
    RenderAppend(text, before, [p], ph);
    assert [p][1..] == [];
    assert Render(text, [p], ph) == (if p.Keep? then text[p.from..p.to] else ph(p.category)) + "";
  }

  /** One entity in two parts, with another label between their starts. */
  const SPLIT_ENTITY := [Span(0, 10, "A"), Span(5, 6, "B"), Span(7, 12, "A")]

  lemma SplitEntityStays()
    ensures MergedForLeaf(SPLIT_ENTITY) == SPLIT_ENTITY
  {
    assert "A"[0] != "B"[0];
    AlreadyMergedForLeaf(SPLIT_ENTITY);
  }

  lemma AlreadyMergedForLeaf(spans: seq<Span>)
    requires Sorted(spans, ByStart) && NoneTouch(spans)
    ensures MergedForLeaf(spans) == spans
  {
    SortIsIdentityOnSorted(spans, ByStart);
    assert [] + spans == spans;
    CoalesceIsIdentity([], spans);
  }

  /** The condition can fail: the touching parts of one entity get two placeholders. */
  lemma OneEntityTwoPlaceholders(text: string, ph: string -> string)
    requires |text| == 12 && IsCharBoundary(text, 10)
    ensures Touches(SPLIT_ENTITY[0], SPLIT_ENTITY[2]) && RedactString(text, SPLIT_ENTITY, ph) == ph("A") + ph("A")
  {
    SplitEntityStays();
    FirstMask(text, SPLIT_ENTITY, 0, 10, "A", SPLIT_ENTITY[1..], ph);
    BehindThenMask(text, SPLIT_ENTITY[1..], 10, 12, "A", ph);
  }

  /** A span behind the cursor leaves nothing; one that ends the text leaves its placeholder. */
  lemma BehindThenMask(text: string, merged: seq<Span>, cursor: nat, end: nat, category: string, ph: string -> string)
    requires |merged| == 2 && merged[0].end <= cursor < end == |text| && IsCharBoundary(text, cursor)
    requires merged[1].start <= cursor && merged[1].end == end && merged[1].category == category
    ensures Render(text, Pieces(text, merged, cursor), ph) == ph(category)
  {
    RenderStep(text, merged, merged[1..], cursor, ph);
    FirstMask(text, merged[1..], cursor, end, category, [], ph);
    RenderTail(text, [], end, ph);
    assert ph(category) + "" == ph(category);
  }

  /** A span that begins at or before the cursor leaves its placeholder and nothing else. */
  lemma FirstMask(text: string, merged: seq<Span>, cursor: nat, end: nat, category: string, others: seq<Span>,
                  ph: string -> string)
    requires merged != [] && others == merged[1..] && merged[0].start <= cursor < end <= |text|
    requires merged[0].end == end && merged[0].category == category
    requires IsCharBoundary(text, cursor) && IsCharBoundary(text, end)
    ensures Render(text, Pieces(text, merged, cursor), ph) == ph(category) + Render(text, Pieces(text, others, end), ph)
  {
    RenderStep(text, merged, others, cursor, ph);
    assert text[cursor..cursor] == "";
  }

  /** The first half of `redact_string`: sort, then merge same-label neighbours. */
  method MergeForLeafLoop(spans: seq<Span>) returns (merged: seq<Span>)
    ensures merged == MergedForLeaf(spans)
  {
    var sorted := StableSort(spans, ByStart);
    merged := [];
    for i := 0 to |sorted|
      invariant Coalesce(merged, sorted[i..]) == MergedForLeaf(spans)
    {
      assert sorted[i..][0] == sorted[i] && sorted[i..][1..] == sorted[i + 1..];
      merged := AbsorbInto(merged, sorted[i]);
    }
    assert sorted[|sorted|..] == [];
  }

  /** The loop of `redact_string`. */
  method RedactStringLoop(text: string, spans: seq<Span>, ph: string -> string) returns (out: string)
    ensures out == RedactString(text, spans, ph)
  {
    if spans == [] {
      return text;
    }
    var merged := MergeForLeafLoop(spans);
    out := "";
    var cursor := 0;
    for i := 0 to |merged|
      invariant cursor <= |text|
      invariant out + Render(text, Pieces(text, merged[i..], cursor), ph) == RedactString(text, spans, ph)
    {
      var start, end, category := merged[i].start, merged[i].end, merged[i].category;
      RenderStep(text, merged[i..], merged[i + 1..], cursor, ph);
      if end > |text| { continue; }
      if end <= cursor { continue; }
      var from := Max(cursor, start);
      if !IsCharBoundary(text, from) || !IsCharBoundary(text, end) { continue; }
      Accumulate(out, text[cursor..from], ph(category), Render(text, Pieces(text, merged[i + 1..], end), ph));
      out := out + text[cursor..from];
      out := out + ph(category);
      cursor := end;
    }
    RenderTail(text, merged[|merged|..], cursor, ph);
    if cursor < |text| {
      out := out + text[cursor..];
    }
  }

  lemma Accumulate(out: string, kept: string, placeholder: string, rest: string)
    ensures out + (kept + (placeholder + rest)) == out + kept + placeholder + rest
  {
    Associate(out, kept, placeholder + rest);
    Associate(out + kept, placeholder, rest);
  }

  lemma RenderTail(text: string, merged: seq<Span>, cursor: nat, ph: string -> string)
    requires cursor <= |text| && merged == []
    ensures Render(text, Pieces(text, merged, cursor), ph) == text[cursor..]
  {
    if cursor < |text| {
      assert [Keep(cursor, |text|)][1..] == [];
      assert text[cursor..|text|] + "" == text[cursor..];
    }
  }

  /** One turn of the loop, seen from the pieces still to be rendered. */
  lemma RenderStep(text: string, merged: seq<Span>, others: seq<Span>, cursor: nat, ph: string -> string)
    requires cursor <= |text| && merged != [] && others == merged[1..]
    ensures var s := merged[0]; var from := Max(cursor, s.start);
      Render(text, Pieces(text, merged, cursor), ph) ==
        if cursor < s.end <= |text| && IsCharBoundary(text, from) && IsCharBoundary(text, s.end)
        then text[cursor..from] + (ph(s.category) + Render(text, Pieces(text, others, s.end), ph))
        else Render(text, Pieces(text, others, cursor), ph)
  {
    var s := merged[0];
    var from := Max(cursor, s.start);
    if cursor < s.end <= |text| && IsCharBoundary(text, from) && IsCharBoundary(text, s.end) {
      var rest := Pieces(text, others, s.end);
      var keep, mask := Keep(cursor, from), Mask(from, s.end, s.category);
      assert ([keep, mask] + rest)[1..] == [mask] + rest;
      assert ([mask] + rest)[1..] == rest;
    }
  }
}
