/**
  Sliding windows over a token stream: tokens are counted on the full text, and
  each window is a slice of the text from its first token's start to its last
  token's end, widened to character boundaries.
 */
module Windows {
  import opened Common
  import opened Utf8

  datatype Offset = Offset(start: nat, end: nat)

  /** A window's slice of the text; its start is also the shift of its spans. */
  datatype Window = Window(start: nat, end: nat)

  /** What the tokenizer guarantees of its offset table: nondecreasing starts and ends, inside the text. */
  ghost predicate OffsetTable(text: string, offsets: seq<Offset>) {
    && (forall i :: 0 <= i < |offsets| ==> offsets[i].start <= |text| && offsets[i].end <= |text|)
    && (forall i, j :: 0 <= i < j < |offsets| ==>
          offsets[i].start <= offsets[j].start && offsets[i].end <= offsets[j].end)
  }

  /** The effective chunk size and the overlap, as `Engine::load` accepts them. */
  datatype Chunking = Chunking(size: nat, overlap: nat) {
    ghost predicate Valid() { overlap < size }
    function Stride(): nat
      requires Valid()
    {
      size - overlap
    }
  }

  function CeilDiv(x: nat, d: nat): nat
    requires d > 0
  {
    (x + d - 1) / d
  }

  /** How many windows the loop visits for `n` tokens. */
  function VisitCount(c: Chunking, n: nat): nat
    requires c.Valid() && n > c.size
  {
    1 + CeilDiv(n - c.size, c.Stride())
  }

  function FirstToken(c: Chunking, k: nat): nat
    requires c.Valid()
  {
    k * c.Stride()
  }

  /** One past the last token of window `k`. */
  function TokenEnd(c: Chunking, n: nat, k: nat): nat
    requires c.Valid()
  {
    Min(FirstToken(c, k) + c.size, n)
  }

  /** Window `k` as a slice of the text; it may be empty. */
  function Slice(text: string, offsets: seq<Offset>, c: Chunking, k: nat): Window
    requires c.Valid() && FirstToken(c, k) < |offsets|
  {
    Window(Clamp(text, offsets[FirstToken(c, k)].start, false),
           Clamp(text, offsets[TokenEnd(c, |offsets|, k) - 1].end, true))
  }

  /** The non-empty slices among the first `k` visited windows. */
  function Slices(text: string, offsets: seq<Offset>, c: Chunking, k: nat): seq<Window>
    requires c.Valid() && (k == 0 || FirstToken(c, k - 1) < |offsets|)
  {
    if k == 0 then []
    else
      FirstTokenGrows(c, k);
      var w := Slice(text, offsets, c, k - 1);
      Slices(text, offsets, c, k - 1) + if w.start >= w.end then [] else [w]
  }

  lemma FirstTokenGrows(c: Chunking, k: nat)
    requires c.Valid() && k > 0
    ensures FirstToken(c, k) == FirstToken(c, k - 1) + c.Stride()
  {
    assert k * c.Stride() == (k - 1) * c.Stride() + c.Stride();
  }

  /** The window list of a text: none, the whole text, or the visited slices. */
  function WindowsOf(text: string, offsets: seq<Offset>, c: Chunking): seq<Window>
    requires c.Valid()
  {
    if |offsets| == 0 then []
    else if |offsets| <= c.size then [Window(0, |text|)]
    else
      LastVisit(c, |offsets|);
      Slices(text, offsets, c, VisitCount(c, |offsets|))
  }

  /** The last visited window is the first that reaches the last token. */
  lemma LastVisit(c: Chunking, n: nat)
    requires c.Valid() && n > c.size
    ensures var last := VisitCount(c, n) - 1;
      FirstToken(c, last) < n <= FirstToken(c, last) + c.size
      && (last > 0 ==> FirstToken(c, last - 1) + c.size < n)
  {
    var d, x := c.Stride(), n - c.size;
    var q := CeilDiv(x, d);
    var r := (x + d - 1) % d;
    assert x + d - 1 == q * d + r;
    assert (q - 1) * d == q * d - d;
  }

  lemma FirstTokenMonotone(c: Chunking, j: nat, k: nat)
    requires c.Valid() && j <= k
    ensures FirstToken(c, j) <= FirstToken(c, k)
  {
    if j < k {
      FirstTokenGrows(c, k);
      FirstTokenMonotone(c, j, k - 1);
    }
  }

  lemma VisitedOnce(c: Chunking, n: nat, k: nat)
    requires c.Valid() && n > c.size
    requires n <= FirstToken(c, k) + c.size && (k > 0 ==> FirstToken(c, k - 1) + c.size < n)
    ensures k + 1 == VisitCount(c, n)
  {
    LastVisit(c, n);
    var last := VisitCount(c, n) - 1;
    if k < last {
      FirstTokenMonotone(c, k, last - 1);
    } else if last < k {
      FirstTokenMonotone(c, last, k - 1);
    }
  }

  /** `split_into_windows`; `visits` counts the turns of its loop. */
  method SplitIntoWindows(text: string, offsets: seq<Offset>, c: Chunking) returns (out: seq<Window>, ghost visits: nat)
    requires c.Valid()
    ensures out == WindowsOf(text, offsets, c)
    ensures |offsets| > c.size ==> visits == VisitCount(c, |offsets|)
  {
    visits := 0;
    out := [];
    var total := |offsets|;
    if total == 0 {
      return;
    }
    if total <= c.size {
      return [Window(0, |text|)], 0;
    }
    var stride := c.Stride();
    var tokStart := 0;
    while tokStart < total
      invariant tokStart == FirstToken(c, visits) && tokStart < total
      invariant visits > 0 ==> FirstToken(c, visits - 1) + c.size < total
      invariant out == Slices(text, offsets, c, visits)
      decreases total - tokStart
    {
      var tokEnd := Min(tokStart + c.size, total);
      var safeStart := ClampCharBoundary(text, offsets[tokStart].start, false);
      var safeEnd := ClampCharBoundary(text, offsets[tokEnd - 1].end, true);
      FirstTokenGrows(c, visits + 1);
      visits := visits + 1;
      if safeStart >= safeEnd {
        if tokEnd == total {
          break;
        }
        tokStart := tokStart + stride;
        continue;
      }
      out := out + [Window(safeStart, safeEnd)];
      if tokEnd == total {
        break;
      }
      tokStart := tokStart + stride;
    }
    VisitedOnce(c, total, visits - 1);
  }

  // ---- coverage -----------------------------------------------------------------

  /** The bytes of token `t` lie inside window `w`; a token without bytes always does. */
  predicate TokenInside(offsets: seq<Offset>, t: nat, w: Window)
    requires t < |offsets|
  {
    offsets[t].start < offsets[t].end ==> w.start <= offsets[t].start && offsets[t].end <= w.end
  }

  lemma SliceHoldsItsTokens(text: string, offsets: seq<Offset>, c: Chunking, k: nat, t: nat)
    requires c.Valid() && OffsetTable(text, offsets) && FirstToken(c, k) < |offsets|
    requires FirstToken(c, k) <= t < TokenEnd(c, |offsets|, k)
    ensures TokenInside(offsets, t, Slice(text, offsets, c, k))
  {
    var first, last := FirstToken(c, k), TokenEnd(c, |offsets|, k) - 1;
    assert offsets[first].start <= offsets[t].start && offsets[t].end <= offsets[last].end;
  }

  lemma {:induction false} SliceIsKept(text: string, offsets: seq<Offset>, c: Chunking, visits: nat, k: nat)
    requires c.Valid() && k < visits && FirstToken(c, visits - 1) < |offsets|
    ensures FirstToken(c, k) < |offsets|
    ensures var w := Slice(text, offsets, c, k); w.start < w.end ==> w in Slices(text, offsets, c, visits)
  {
    FirstTokenGrows(c, visits);
    if k < visits - 1 {
      FirstTokenGrows(c, visits - 1);
      SliceIsKept(text, offsets, c, visits - 1, k);
    }
  }

  /** Which visited window holds the `m` tokens from `a` on, when `m` is at most the overlap plus one. */
  lemma {:induction false} HomeWindow(c: Chunking, n: nat, a: nat, m: nat, k: nat) returns (home: nat)
    requires c.Valid() && n > c.size
    requires 0 < m <= c.overlap + 1 && a + m <= n
    requires k < VisitCount(c, n) && FirstToken(c, k) <= a
    ensures k <= home < VisitCount(c, n)
    ensures FirstToken(c, home) <= a && a + m <= TokenEnd(c, n, home)
    decreases VisitCount(c, n) - k
  {
    LastVisit(c, n);
    FirstTokenGrows(c, k + 1);
    if k + 1 < VisitCount(c, n) && FirstToken(c, k + 1) <= a {
      home := HomeWindow(c, n, a, m, k + 1);
    } else {
      home := k;
    }
  }

  /** Every run of at most overlap + 1 tokens, one of which has bytes, lies whole in one emitted window. */
  lemma RunInOneWindow(text: string, offsets: seq<Offset>, c: Chunking, a: nat, m: nat, solid: nat)
    requires c.Valid() && OffsetTable(text, offsets)
    requires 0 < m <= c.overlap + 1 && a + m <= |offsets|
    requires a <= solid < a + m && offsets[solid].start < offsets[solid].end
    ensures exists w :: w in WindowsOf(text, offsets, c) && forall t :: a <= t < a + m ==> TokenInside(offsets, t, w)
  {
    var n := |offsets|;
    if n <= c.size {
      var w := Window(0, |text|);
      assert w in WindowsOf(text, offsets, c);
      assert forall t :: a <= t < a + m ==> TokenInside(offsets, t, w);
    } else {
      var k := HomeWindow(c, n, a, m, 0);
      LastVisit(c, n);
      SliceIsKept(text, offsets, c, VisitCount(c, n), k);
      var w := Slice(text, offsets, c, k);
      forall t: nat | a <= t < a + m
        ensures TokenInside(offsets, t, w)
      {
        SliceHoldsItsTokens(text, offsets, c, k, t);
      }
      assert TokenInside(offsets, solid, w);
      assert WindowsOf(text, offsets, c) == Slices(text, offsets, c, VisitCount(c, n));
      assert w in WindowsOf(text, offsets, c);
    }
  }

  /** In particular no token's bytes are lost. */
  lemma EveryTokenCovered(text: string, offsets: seq<Offset>, c: Chunking, t: nat)
    requires c.Valid() && OffsetTable(text, offsets)
    requires t < |offsets| && offsets[t].start < offsets[t].end
    ensures exists w :: w in WindowsOf(text, offsets, c) && w.start <= offsets[t].start && offsets[t].end <= w.end
  {
    RunInOneWindow(text, offsets, c, t, 1, t);
    var w :| w in WindowsOf(text, offsets, c) && forall u :: t <= u < t + 1 ==> TokenInside(offsets, u, w);
    assert TokenInside(offsets, t, w);
  }

  /** The bound is tight: once a text needs two windows, some run of overlap + 2 tokens is in none of them. */
  lemma LongerRunIsSplit(c: Chunking, n: nat, k: nat)
    requires c.Valid() && n > c.size
    ensures var a := c.Stride() - 1;
      a + (c.overlap + 2) <= n
      && !(FirstToken(c, k) <= a && a + (c.overlap + 2) <= TokenEnd(c, n, k))
  {
    if k > 0 {
      FirstTokenMonotone(c, 1, k);
    }
  }

  /** Windows are non-empty slices on character boundaries. */
  lemma {:induction false} SlicesAreWellFormed(text: string, offsets: seq<Offset>, c: Chunking, visits: nat)
    requires c.Valid() && (visits == 0 || FirstToken(c, visits - 1) < |offsets|)
    ensures forall w :: w in Slices(text, offsets, c, visits) ==>
      w.start < w.end <= |text| && IsCharBoundary(text, w.start) && IsCharBoundary(text, w.end)
  {
    if visits > 0 {
      FirstTokenGrows(c, visits);
      if visits > 1 {
        FirstTokenGrows(c, visits - 1);
      }
      SlicesAreWellFormed(text, offsets, c, visits - 1);
    }
  }

  /** `w` reaches from token `first` to token `last` and, apart from half characters, no further. */
  ghost predicate ReachesExactly(text: string, offsets: seq<Offset>, first: int, last: int, w: Window) {
    && 0 <= first <= last < |offsets|
    && w.start <= offsets[first].start && offsets[last].end <= w.end
    && (forall q :: w.start < q <= offsets[first].start ==> !IsCharBoundary(text, q))
    && (forall q :: offsets[last].end <= q < w.end ==> !IsCharBoundary(text, q))
  }

  lemma SliceReachesExactly(text: string, offsets: seq<Offset>, c: Chunking, k: nat)
    requires c.Valid() && OffsetTable(text, offsets) && FirstToken(c, k) < |offsets|
    ensures ReachesExactly(text, offsets, FirstToken(c, k), TokenEnd(c, |offsets|, k) - 1, Slice(text, offsets, c, k))
  {
    PreviousBoundaryIsNearest(text, offsets[FirstToken(c, k)].start);
    NextBoundaryIsNearest(text, offsets[TokenEnd(c, |offsets|, k) - 1].end);
  }

  lemma {:induction false} WindowIsASlice(text: string, offsets: seq<Offset>, c: Chunking, visits: nat, w: Window)
    returns (k: nat)
    requires c.Valid() && (visits == 0 || FirstToken(c, visits - 1) < |offsets|)
    requires w in Slices(text, offsets, c, visits)
    ensures k < visits && FirstToken(c, k) < |offsets| && w == Slice(text, offsets, c, k)
  {
    FirstTokenGrows(c, visits);
    if w == Slice(text, offsets, c, visits - 1) {
      k := visits - 1;
    } else {
      FirstTokenGrows(c, visits - 1);
      k := WindowIsASlice(text, offsets, c, visits - 1, w);
    }
  }

  /**
    A window is bounded by its own tokens: it is the slice of `size` consecutive
    tokens, or of fewer at the end, that starts a multiple of the stride into the table.
   */
  lemma WindowIsItsTokens(text: string, offsets: seq<Offset>, c: Chunking, w: Window) returns (k: nat)
    requires c.Valid() && OffsetTable(text, offsets) && |offsets| > c.size && w in WindowsOf(text, offsets, c)
    ensures var first := k * (c.size - c.overlap);
      var last := if first + c.size <= |offsets| then first + c.size - 1 else |offsets| - 1;
      ReachesExactly(text, offsets, first, last, w)
  {
    LastVisit(c, |offsets|);
    k := WindowIsASlice(text, offsets, c, VisitCount(c, |offsets|), w);
    SliceReachesExactly(text, offsets, c, k);
  }
}
