/** The engine and the walker together: from the tokenizer's offsets to the bytes that are replaced. */
module Pipeline {
  import opened Common
  import opened StableSorting
  import opened Utf8
  import opened Spans
  import opened Windows
  import opened Bioes
  import opened Detection
  import opened Json
  import opened JsonWalker
  import opened Redaction
  import opened JsonGuarantees

  /** A window as the engine tokenizes it: a slice of the text whose real tokens start and end on its characters. */
  ghost predicate Tokenizes(text: string, offsets: seq<Offset>, c: Chunking, w: LabelledWindow)
    requires c.Valid()
  {
    exists slice :: slice in WindowsOf(text, offsets, c) && slice.start == w.shift && slice.end <= |text|
                    && slice.start <= slice.end && TokensOnCharacters(w.enc, text[slice.start..slice.end])
  }

  ghost predicate AllTokenized(text: string, offsets: seq<Offset>, c: Chunking, windows: seq<LabelledWindow>)
    requires c.Valid()
  {
    forall w {:trigger Tokenizes(text, offsets, c, w)} :: w in windows ==> Tokenizes(text, offsets, c, w)
  }

  ghost predicate TokensOnCharacters(enc: Encoding, slice: string) {
    forall t: nat :: enc.Real(t) ==>
      IsCharBoundary(slice, enc.offsets[t].start) && IsCharBoundary(slice, enc.offsets[t].end)
  }

  lemma {:induction false} HullOnCharacters(enc: Encoding, slice: string, from: nat, upto: nat)
    requires TokensOnCharacters(enc, slice)
    ensures match Hull(enc, from, upto)
      case Some(h) => IsCharBoundary(slice, h.start) && IsCharBoundary(slice, h.end)
      case None => true
    decreases upto
  {
    if from < upto {
      HullOnCharacters(enc, slice, from, upto - 1);
    }
  }

  lemma {:induction false} CharSpansOnCharacters(enc: Encoding, slice: string, spans: seq<LabelSpan>)
    requires TokensOnCharacters(enc, slice)
    ensures OnBoundaries(slice, CharSpans(enc, spans))
  {
    if spans != [] {
      var s := spans[|spans| - 1];
      CharSpansOnCharacters(enc, slice, spans[..|spans| - 1]);
      HullOnCharacters(enc, slice, s.startToken, s.endToken);
    }
  }

  lemma MergeKeepsBoundaries(text: string, spans: seq<Span>)
    requires OnBoundaries(text, spans)
    ensures OnBoundaries(text, MergeSpans(spans))
  {
    if |spans| > 1 {
      SortMultiset(spans, ByStartEnd);
      CoalesceKeepsBoundaries(text, [], StableSort(spans, ByStartEnd));
    }
  }

  lemma BoundaryOfSlice(text: string, start: nat, end: nat, p: nat)
    requires start <= end <= |text| && IsCharBoundary(text, start) && IsCharBoundary(text, end)
    requires IsCharBoundary(text[start..end], p)
    ensures IsCharBoundary(text, start + p)
  {
    assert p < end - start ==> text[start..end][p] == text[start + p];
  }

  lemma ShiftKeepsBoundaries(text: string, start: nat, end: nat, spans: seq<Span>)
    requires start <= end <= |text| && IsCharBoundary(text, start) && IsCharBoundary(text, end)
    requires OnBoundaries(text[start..end], spans)
    ensures OnBoundaries(text, Shifted(spans, start))
  {
    var shifted := Shifted(spans, start);
    forall s | s in shifted
      ensures s.start < s.end <= |text| && IsCharBoundary(text, s.start) && IsCharBoundary(text, s.end)
    {
      var i :| 0 <= i < |shifted| && shifted[i] == s;
      assert spans[i] in spans;
      BoundaryOfSlice(text, start, end, spans[i].start);
      BoundaryOfSlice(text, start, end, spans[i].end);
    }
  }

  lemma WindowsCutOnCharacters(text: string, offsets: seq<Offset>, c: Chunking, slice: Window)
    requires c.Valid() && slice in WindowsOf(text, offsets, c)
    ensures slice.start <= slice.end <= |text| && IsCharBoundary(text, slice.start) && IsCharBoundary(text, slice.end)
  {
    if |offsets| > c.size {
      LastVisit(c, |offsets|);
      SlicesAreWellFormed(text, offsets, c, VisitCount(c, |offsets|));
    }
  }

  lemma WindowSpansOnBoundaries(text: string, offsets: seq<Offset>, c: Chunking, w: LabelledWindow, labels: LabelMap)
    requires c.Valid() && Tokenizes(text, offsets, c, w)
    ensures OnBoundaries(text, SpansOfWindow(w, labels))
  {
    var slice :| slice in WindowsOf(text, offsets, c) && slice.start == w.shift && slice.end <= |text|
                 && slice.start <= slice.end && TokensOnCharacters(w.enc, text[slice.start..slice.end]);
    var groups := Decode(Tags(w.ids, labels), |w.ids|);
    WindowsCutOnCharacters(text, offsets, c, slice);
    CharSpansOnCharacters(w.enc, text[slice.start..slice.end], groups);
    MergeKeepsBoundaries(text[slice.start..slice.end], CharSpans(w.enc, groups));
    ShiftKeepsBoundaries(text, slice.start, slice.end, MergeSpans(CharSpans(w.enc, groups)));
  }

  lemma {:induction false} AllSpansOnBoundaries(text: string, offsets: seq<Offset>, c: Chunking,
                                                windows: seq<LabelledWindow>,
                                                labels: LabelMap)
    requires c.Valid() && AllTokenized(text, offsets, c, windows)
    ensures OnBoundaries(text, AllSpans(windows, labels))
  {
    if windows != [] {
      assert Tokenizes(text, offsets, c, windows[|windows| - 1]);
      AllSpansOnBoundaries(text, offsets, c, windows[..|windows| - 1], labels);
      WindowSpansOnBoundaries(text, offsets, c, windows[|windows| - 1], labels);
    }
  }

  /** `spans` is what the engine reports for the labelled windows. */
  ghost predicate Detects(windows: seq<LabelledWindow>, labels: LabelMap, spans: seq<Span>) {
    spans == MergeSpans(AllSpans(windows, labels))
  }

  /** Every detected span lies inside the text and starts and ends on its characters. */
  lemma DetectedSpansOnBoundaries(text: string, offsets: seq<Offset>, c: Chunking, windows: seq<LabelledWindow>,
                                  labels: LabelMap, spans: seq<Span>)
    requires c.Valid() && AllTokenized(text, offsets, c, windows) && Detects(windows, labels, spans)
    ensures OnBoundaries(text, spans)
  {
    AllSpansOnBoundaries(text, offsets, c, windows, labels);
    MergeKeepsBoundaries(text, AllSpans(windows, labels));
  }

  /** The document's text, as it is tokenized. */
  function Document(cfg: Config, v: Value): string { Trimmed(Text(cfg, v, None, 0)) }

  /** In some window, a group of labelled tokens covers the byte. */
  ghost predicate Labelled(windows: seq<LabelledWindow>, labels: LabelMap, x: int) {
    exists category :: SomeWindowCovers(windows, labels, category, x)
  }

  /** A byte is in a detected span if and only if, in some window, a group of labelled tokens covers it. */
  lemma CoveredIffLabelled(windows: seq<LabelledWindow>, labels: LabelMap, spans: seq<Span>, x: int)
    requires Detects(windows, labels, spans)
    ensures Covered(spans, x) <==> Labelled(windows, labels, x)
  {
    CoveredIffSomeLabel(spans, x);
    forall category
      ensures CoveredAs(spans, category, x) <==> SomeWindowCovers(windows, labels, category, x)
    {
      DetectedIffInSomeWindow(windows, labels, category, x);
    }
  }

  lemma MaskedIffCovered(cfg: Config, v: Value, l: Leaf, spans: seq<Span>, x: nat)
    requires l in Leaves(cfg, v, None, 0, 0) && x < |l.original| && OnBoundaries(Document(cfg, v), spans)
    ensures Masked(LeafPieces(l, spans), x) <==> Covered(spans, l.start + x)
  {
    LeafByteReplacedIffCovered(cfg, v, l, spans, s => s, x);
  }

  /**
    End to end: with the spans the engine reports, a byte of a leaf is replaced
    if and only if one of them covers it; no condition on spans is left.
   */
  lemma LeafByteReplacedIffDetected(cfg: Config, v: Value, l: Leaf, offsets: seq<Offset>, c: Chunking,
                                    windows: seq<LabelledWindow>, labels: LabelMap, spans: seq<Span>, x: nat)
    requires l in Leaves(cfg, v, None, 0, 0) && x < |l.original|
    requires c.Valid() && AllTokenized(Document(cfg, v), offsets, c, windows) && Detects(windows, labels, spans)
    ensures Masked(LeafPieces(l, spans), x) <==> Covered(spans, l.start + x)
  {
    DetectedSpansOnBoundaries(Document(cfg, v), offsets, c, windows, labels, spans);
    MaskedIffCovered(cfg, v, l, spans, x);
  }
}
