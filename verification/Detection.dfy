/** From token labels of every window to labelled byte spans of the text. */
module Detection {
  import opened Common
  import opened Spans
  import opened Windows
  import opened Bioes

  /** A window's tokens: byte offsets and the special-token mask. */
  datatype Encoding = Encoding(offsets: seq<Offset>, special: seq<bool>) {
    /** A token that contributes bytes: not special, and not the (0, 0) placeholder. */
    predicate Real(t: nat) {
      && t < |offsets|
      && !(t < |special| && special[t])
      && offsets[t] != Offset(0, 0)
    }

    /** What the tokenizer guarantees of real tokens: nondecreasing starts and ends. */
    ghost predicate Monotone() {
      forall t, u :: 0 <= t < u && Real(t) && Real(u) ==>
        offsets[t].start <= offsets[u].start && offsets[t].end <= offsets[u].end
    }
  }

  /** First start and last end of the real tokens in [from, upto). */
  function Hull(enc: Encoding, from: nat, upto: nat): Option<Offset>
    decreases upto
  {
    if upto <= from then None
    else
      var before := Hull(enc, from, upto - 1);
      if !enc.Real(upto - 1) then before
      else
        match before
        case None => Some(enc.offsets[upto - 1])
        case Some(h) => Some(Offset(h.start, enc.offsets[upto - 1].end))
  }

  function CharSpans(enc: Encoding, spans: seq<LabelSpan>): seq<Span> {
    if spans == [] then []
    else
      var s := spans[|spans| - 1];
      CharSpans(enc, spans[..|spans| - 1]) +
      match Hull(enc, s.startToken, s.endToken)
      case Some(h) => if h.end > h.start then [Span(h.start, h.end, s.category)] else []
      case None => []
  }

  /** `map_to_char_spans`. */
  method MapToCharSpans(enc: Encoding, spans: seq<LabelSpan>) returns (merged: seq<Span>)
    ensures merged == MergeSpans(CharSpans(enc, spans))
  {
    var out: seq<Span> := [];
    for k := 0 to |spans|
      invariant out == CharSpans(enc, spans[..k])
    {
      var s := spans[k];
      assert spans[..k + 1][..k] == spans[..k];
      var hull: Option<Offset> := None;
      var limit := Min(s.endToken, |enc.offsets|);
      for t := s.startToken to Max(limit, s.startToken)
        invariant hull == Hull(enc, s.startToken, t)
      {
        if t < |enc.special| && enc.special[t] { continue; }
        if enc.offsets[t] == Offset(0, 0) { continue; }
        hull := Some(Offset(if hull.None? then enc.offsets[t].start else hull.value.start, enc.offsets[t].end));
      }
      HullStopsAtTable(enc, s.startToken, Max(limit, s.startToken), s.endToken);
      if hull.Some? && hull.value.end > hull.value.start {
        out := out + [Span(hull.value.start, hull.value.end, s.category)];
      }
    }
    assert spans[..|spans|] == spans;
    merged := MergeSpansLoop(out);
  }

  lemma {:induction false} HullStopsAtTable(enc: Encoding, from: nat, limit: nat, upto: nat)
    requires limit == Max(Min(upto, |enc.offsets|), from)
    ensures Hull(enc, from, limit) == Hull(enc, from, upto)
    decreases upto
  {
    if limit < upto {
      HullStopsAtTable(enc, from, Max(Min(upto - 1, |enc.offsets|), from), upto - 1);
    }
  }

  /** One tokenized window with its shift and the labels the session returned for it. */
  datatype LabelledWindow = LabelledWindow(enc: Encoding, shift: nat, ids: seq<nat>)

  function Shifted(spans: seq<Span>, shift: nat): seq<Span> {
    seq(|spans|, i requires 0 <= i < |spans| =>
      Span(spans[i].start + shift, spans[i].end + shift, spans[i].category))
  }

  function SpansOfWindow(w: LabelledWindow, labels: LabelMap): seq<Span> {
    Shifted(MergeSpans(CharSpans(w.enc, Decode(Tags(w.ids, labels), |w.ids|))), w.shift)
  }

  function AllSpans(windows: seq<LabelledWindow>, labels: LabelMap): seq<Span> {
    if windows == [] then []
    else AllSpans(windows[..|windows| - 1], labels) + SpansOfWindow(windows[|windows| - 1], labels)
  }

  /** One window's share: decode, map to bytes, shift into the text. */
  method SpansFromWindow(win: LabelledWindow, labels: LabelMap) returns (shifted: seq<Span>)
    ensures shifted == SpansOfWindow(win, labels)
  {
    var labelSpans := BioesSpans(win.ids, labels);
    var charSpans := MapToCharSpans(win.enc, labelSpans);
    shifted := ShiftSpans(charSpans, win.shift);
  }

  method ShiftSpans(spans: seq<Span>, shift: nat) returns (shifted: seq<Span>)
    ensures shifted == Shifted(spans, shift)
  {
    shifted := [];
    for i := 0 to |spans|
      invariant |shifted| == i
      invariant forall j :: 0 <= j < i ==> shifted[j] == Shifted(spans, shift)[j]
    {
      shifted := shifted + [Span(spans[i].start + shift, spans[i].end + shift, spans[i].category)];
    }
  }

  /** The merge logic of `detect_spans_for_text`. */
  method DetectSpans(windows: seq<LabelledWindow>, labels: LabelMap) returns (spans: seq<Span>)
    ensures spans == MergeSpans(AllSpans(windows, labels))
  {
    var all: seq<Span> := [];
    for k := 0 to |windows|
      invariant all == AllSpans(windows[..k], labels)
    {
      assert windows[..k + 1][..k] == windows[..k];
      var shifted := SpansFromWindow(windows[k], labels);
      all := all + shifted;
    }
    assert windows[..|windows|] == windows;
    spans := MergeSpansLoop(all);
  }

  // ---- what is covered ------------------------------------------------------------

  predicate HullCovers(enc: Encoding, s: LabelSpan, x: int) {
    match Hull(enc, s.startToken, s.endToken)
    case Some(h) => h.start <= x < h.end
    case None => false
  }

  lemma {:induction false} CharSpansCover(enc: Encoding, spans: seq<LabelSpan>, category: string, x: int)
    ensures CoveredAs(CharSpans(enc, spans), category, x)
       <==> exists i :: 0 <= i < |spans| && spans[i].category == category && HullCovers(enc, spans[i], x)
  {
    if spans != [] {
      var init, s := spans[..|spans| - 1], spans[|spans| - 1];
      CharSpansCover(enc, init, category, x);
      var a, b := CharSpans(enc, init), CharSpans(enc, spans);
      if CoveredAs(a, category, x) {
        var i :| 0 <= i < |a| && Covers(a[i], x) && a[i].category == category;
        assert b[i] == a[i];
      }
      if CoveredAs(b, category, x) {
        var i :| 0 <= i < |b| && Covers(b[i], x) && b[i].category == category;
        if i < |a| {
          assert a[i] == b[i];
          var j :| 0 <= j < |init| && init[j].category == category && HullCovers(enc, init[j], x);
          assert spans[j] == init[j];
        } else {
          assert HullCovers(enc, spans[|spans| - 1], x);
        }
      }
      if j :| 0 <= j < |spans| && spans[j].category == category && HullCovers(enc, spans[j], x) {
        if j < |init| {
          assert init[j] == spans[j];
        } else {
          assert Covers(b[|b| - 1], x) && b[|b| - 1].category == category;
        }
      }
    }
  }

  lemma ShiftedCover(spans: seq<Span>, shift: nat, category: string, x: int)
    ensures CoveredAs(Shifted(spans, shift), category, x) <==> CoveredAs(spans, category, x - shift)
  {
    var moved := Shifted(spans, shift);
    if CoveredAs(spans, category, x - shift) {
      var i :| 0 <= i < |spans| && Covers(spans[i], x - shift) && spans[i].category == category;
      assert Covers(moved[i], x);
    }
    if CoveredAs(moved, category, x) {
      var i :| 0 <= i < |moved| && Covers(moved[i], x) && moved[i].category == category;
      assert Covers(spans[i], x - shift);
    }
  }

  /** Byte `x` of the text lies under a labelled group of tokens of window `w`. */
  ghost predicate WindowCovers(w: LabelledWindow, labels: LabelMap, category: string, x: int) {
    var groups := Decode(Tags(w.ids, labels), |w.ids|);
    exists i :: 0 <= i < |groups| && groups[i].category == category && HullCovers(w.enc, groups[i], x - w.shift)
  }

  lemma WindowSpansCover(w: LabelledWindow, labels: LabelMap, category: string, x: int)
    ensures CoveredAs(SpansOfWindow(w, labels), category, x) <==> WindowCovers(w, labels, category, x)
  {
    var groups := Decode(Tags(w.ids, labels), |w.ids|);
    var chars := CharSpans(w.enc, groups);
    ShiftedCover(MergeSpans(chars), w.shift, category, x);
    MergePreservesCoverage(chars, category, x - w.shift);
    CharSpansCover(w.enc, groups, category, x - w.shift);
  }

  ghost predicate SomeWindowCovers(windows: seq<LabelledWindow>, labels: LabelMap, category: string, x: int) {
    exists w :: w in windows && WindowCovers(w, labels, category, x)
  }

  lemma SomeWindowCoversSnoc(init: seq<LabelledWindow>, last: LabelledWindow, labels: LabelMap, category: string,
                             x: int)
    ensures SomeWindowCovers(init + [last], labels, category, x)
       <==> SomeWindowCovers(init, labels, category, x) || WindowCovers(last, labels, category, x)
  {
    assert forall w :: w in init + [last] <==> w in init || w == last;
  }

  lemma {:induction false} AllSpansCover(windows: seq<LabelledWindow>, labels: LabelMap, category: string, x: int)
    ensures CoveredAs(AllSpans(windows, labels), category, x) <==> SomeWindowCovers(windows, labels, category, x)
  {
    if windows == [] {
      assert !CoveredAs([], category, x);
    } else {
      var init, last := windows[..|windows| - 1], windows[|windows| - 1];
      assert windows == init + [last];
      AllSpansCover(init, labels, category, x);
      WindowSpansCover(last, labels, category, x);
      CoveredAsAppend(AllSpans(init, labels), SpansOfWindow(last, labels), category, x);
      SomeWindowCoversSnoc(init, last, labels, category, x);
    }
  }

  lemma CoveredAsAppend(a: seq<Span>, b: seq<Span>, category: string, x: int)
    ensures CoveredAs(a + b, category, x) <==> CoveredAs(a, category, x) || CoveredAs(b, category, x)
  {
    var c := a + b;
    if CoveredAs(a, category, x) {
      var i :| 0 <= i < |a| && Covers(a[i], x) && a[i].category == category;
      assert c[i] == a[i];
    }
    if CoveredAs(b, category, x) {
      var i :| 0 <= i < |b| && Covers(b[i], x) && b[i].category == category;
      assert c[|a| + i] == b[i];
    }
    if CoveredAs(c, category, x) {
      var i :| 0 <= i < |c| && Covers(c[i], x) && c[i].category == category;
      assert i < |a| ==> a[i] == c[i];
      assert i >= |a| ==> b[i - |a|] == c[i];
    }
  }

  /** The final spans of a label cover exactly the bytes under that label's groups in some window. */
  lemma DetectedIffInSomeWindow(windows: seq<LabelledWindow>, labels: LabelMap, category: string, x: int)
    ensures CoveredAs(MergeSpans(AllSpans(windows, labels)), category, x)
       <==> SomeWindowCovers(windows, labels, category, x)
  {
    MergePreservesCoverage(AllSpans(windows, labels), category, x);
    AllSpansCover(windows, labels, category, x);
  }

  lemma {:induction false} HullHoldsToken(enc: Encoding, from: nat, upto: nat, t: nat)
    requires enc.Monotone() && enc.Real(t) && from <= t < upto
    ensures var h := Hull(enc, from, upto);
      h.Some? && h.value.start <= enc.offsets[t].start && enc.offsets[t].end <= h.value.end
    ensures exists u :: t <= u < upto && enc.Real(u) && Hull(enc, from, upto).value.end == enc.offsets[u].end
    decreases upto
  {
    if t < upto - 1 {
      HullHoldsToken(enc, from, upto - 1, t);
      assert enc.Real(upto - 1) ==> enc.offsets[t].end <= enc.offsets[upto - 1].end;
    } else {
      HullStartsBefore(enc, from, t, t);
    }
  }

  lemma {:induction false} HullStartsBefore(enc: Encoding, from: nat, upto: nat, t: nat)
    requires enc.Monotone() && enc.Real(t) && upto <= t
    ensures var h := Hull(enc, from, upto); h.Some? ==> h.value.start <= enc.offsets[t].start
    decreases upto
  {
    if from < upto {
      HullStartsBefore(enc, from, upto - 1, t);
    }
  }

  /** A labelled real token puts each of its bytes under a group of its own label. */
  lemma LabelledTokenIsCovered(w: LabelledWindow, labels: LabelMap, tags: seq<Tag>, t: nat, x: nat)
    requires tags == Tags(w.ids, labels) && t < |tags| && !tags[t].prefix.O?
    requires w.enc.Monotone() && w.enc.Real(t) && w.enc.offsets[t].start <= x < w.enc.offsets[t].end
    ensures WindowCovers(w, labels, tags[t].base, w.shift + x)
  {
    var groups := Decode(tags, |w.ids|);
    DecodeIsDecoding(tags, |w.ids|);
    assert Held(groups, t);
    var i :| 0 <= i < |groups| && Holds(groups[i], t);
    assert IsGroup(tags, groups[i]);
    HullHoldsToken(w.enc, groups[i].startToken, groups[i].endToken, t);
    assert HullCovers(w.enc, groups[i], (w.shift + x) - w.shift);
  }

  /**
    No labelled byte is lost: if the table gives the token of any window a name
    other than "O", each byte of the token ends up in a span of the label named.
   */
  lemma LabelledTokenIsDetected(windows: seq<LabelledWindow>, labels: LabelMap, w: LabelledWindow, t: nat, x: nat,
                                base: string)
    requires w in windows && t < |w.ids| && w.ids[t] < |labels.idToLabel|
    requires var name := labels.idToLabel[w.ids[t]]; name != "" && name != "O" && Names(name, base)
    requires w.enc.Monotone() && w.enc.Real(t) && w.enc.offsets[t].start <= x < w.enc.offsets[t].end
    ensures CoveredAs(MergeSpans(AllSpans(windows, labels)), base, w.shift + x)
  {
    var tags := Tags(w.ids, labels);
    SplitNames(labels.idToLabel[w.ids[t]], base);
    LabelledTokenIsCovered(w, labels, tags, t, x);
    DetectedIffInSomeWindow(windows, labels, base, w.shift + x);
  }

  // ---- which tokens a hull is made of -----------------------------------------------

  /** Special tokens, the (0, 0) placeholders, and tokens the tokenizer gave no offset. */
  ghost predicate Silent(enc: Encoding, from: nat, upto: nat) {
    forall t :: from <= t < upto && t < |enc.offsets| ==>
      (t < |enc.special| && enc.special[t]) || (enc.offsets[t].start == 0 && enc.offsets[t].end == 0)
  }

  /** The first and the last token of a range that are not silent. */
  ghost predicate Ends(enc: Encoding, from: nat, first: nat, last: nat, upto: nat) {
    && from <= first <= last < upto && last < |enc.offsets|
    && !Silent(enc, first, first + 1) && !Silent(enc, last, last + 1)
    && Silent(enc, from, first) && Silent(enc, last + 1, upto)
  }

  /** A group's bytes run from its first token that is not silent to its last one. */
  lemma {:induction false} HullIsFirstToLast(enc: Encoding, from: nat, upto: nat) returns (first: nat, last: nat)
    ensures Hull(enc, from, upto).None? <==> Silent(enc, from, upto)
    ensures Hull(enc, from, upto).Some? ==>
      && Ends(enc, from, first, last, upto)
      && Hull(enc, from, upto).value == Offset(enc.offsets[first].start, enc.offsets[last].end)
    decreases upto
  {
    first, last := 0, 0;
    if from < upto {
      first, last := HullIsFirstToLast(enc, from, upto - 1);
      if enc.Real(upto - 1) {
        assert !Silent(enc, upto - 1, upto);
        last := upto - 1;
        if Hull(enc, from, upto - 1).None? {
          first := upto - 1;
        }
      } else {
        assert Silent(enc, upto - 1, upto);
      }
    }
  }
}
