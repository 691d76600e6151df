/**
  Labelled byte ranges and the merge of same-label touching ranges. Two places
  of the redactor run this merge: the engine over a whole text (`merge_spans`)
  and the walker over one leaf (`redact_string`); they differ only in sort key.
 */
module Spans {
  import opened Common
  import opened StableSorting

  datatype Span = Span(start: nat, end: nat, category: string)

  predicate Covers(s: Span, x: int) { s.start <= x < s.end }

  ghost predicate Covered(spans: seq<Span>, x: int) {
    exists i :: 0 <= i < |spans| && Covers(spans[i], x)
  }

  ghost predicate CoveredAs(spans: seq<Span>, category: string, x: int) {
    exists i :: 0 <= i < |spans| && Covers(spans[i], x) && spans[i].category == category
  }

  predicate Touches(prev: Span, s: Span) {
    prev.end >= s.start && prev.category == s.category
  }

  ghost predicate NoneTouch(spans: seq<Span>) {
    forall i :: 0 < i < |spans| ==> !Touches(spans[i - 1], spans[i])
  }

  predicate ByStart(a: Span, b: Span) { a.start <= b.start }

  predicate ByStartEnd(a: Span, b: Span) {
    a.start < b.start || (a.start == b.start && a.end <= b.end)
  }

  lemma SpanOrders()
    ensures TotalPreorder(ByStart) && TotalPreorder(ByStartEnd)
  {
  }

  function Last<T>(s: seq<T>): T
    requires s != []
  {
    s[|s| - 1]
  }

  function Absorb(out: seq<Span>, s: Span): seq<Span> {
    if out != [] && Touches(Last(out), s)
    then out[|out| - 1 := Last(out).(end := Max(Last(out).end, s.end))]
    else out + [s]
  }

  function Coalesce(out: seq<Span>, spans: seq<Span>): seq<Span>
    decreases |spans|
  {
    if spans == [] then out else Coalesce(Absorb(out, spans[0]), spans[1..])
  }

  /** `merge_spans` of the engine. */
  function MergeSpans(spans: seq<Span>): seq<Span> {
    if |spans| <= 1 then spans else Coalesce([], StableSort(spans, ByStartEnd))
  }

  lemma AbsorbCovers(out: seq<Span>, s: Span, category: string, x: int)
    requires out != [] ==> Last(out).start <= s.start
    ensures CoveredAs(Absorb(out, s), category, x)
        <==> CoveredAs(out, category, x) || (Covers(s, x) && s.category == category)
    ensures Last(Absorb(out, s)).start <= s.start
  {
    var r := Absorb(out, s);
    if CoveredAs(out, category, x) {
      var i :| 0 <= i < |out| && Covers(out[i], x) && out[i].category == category;
      assert Covers(r[i], x) && r[i].category == category;
    }
    if Covers(s, x) && s.category == category {
      assert Covers(r[|r| - 1], x) && r[|r| - 1].category == category;
    }
    if CoveredAs(r, category, x) {
      var i :| 0 <= i < |r| && Covers(r[i], x) && r[i].category == category;
      assert (i < |out| && Covers(out[i], x)) || (Covers(s, x) && s.category == category);
    }
  }

  lemma {:induction false} CoalesceCovers(out: seq<Span>, spans: seq<Span>, category: string, x: int)
    requires Sorted(spans, ByStart)
    requires out != [] && spans != [] ==> Last(out).start <= spans[0].start
    ensures CoveredAs(Coalesce(out, spans), category, x)
        <==> CoveredAs(out, category, x) || CoveredAs(spans, category, x)
    decreases |spans|
  {
    if spans != [] {
      AbsorbCovers(out, spans[0], category, x);
      assert |spans| > 1 ==> ByStart(spans[0], spans[1]);
      CoalesceCovers(Absorb(out, spans[0]), spans[1..], category, x);
      CoveredAsCons(spans, category, x);
    }
  }

  lemma CoveredAsCons(spans: seq<Span>, category: string, x: int)
    requires spans != []
    ensures CoveredAs(spans, category, x)
        <==> (Covers(spans[0], x) && spans[0].category == category) || CoveredAs(spans[1..], category, x)
  {
    if CoveredAs(spans, category, x) {
      var i :| 0 <= i < |spans| && Covers(spans[i], x) && spans[i].category == category;
      assert i > 0 ==> spans[1..][i - 1] == spans[i];
    }
    if CoveredAs(spans[1..], category, x) {
      var i :| 0 <= i < |spans[1..]| && Covers(spans[1..][i], x) && spans[1..][i].category == category;
      assert spans[i + 1] == spans[1..][i];
    }
  }

  lemma CoveredAsSameElements(s: seq<Span>, t: seq<Span>, category: string, x: int)
    requires forall y :: y in s <==> y in t
    ensures CoveredAs(s, category, x) <==> CoveredAs(t, category, x)
  {
    if CoveredAs(s, category, x) {
      var i :| 0 <= i < |s| && Covers(s[i], x) && s[i].category == category;
      assert s[i] in t;
    }
    if CoveredAs(t, category, x) {
      var i :| 0 <= i < |t| && Covers(t[i], x) && t[i].category == category;
      assert t[i] in s;
    }
  }

  lemma CoveredIffSomeLabel(spans: seq<Span>, x: int)
    ensures Covered(spans, x) <==> exists category :: CoveredAs(spans, category, x)
  {
    if Covered(spans, x) {
      var i :| 0 <= i < |spans| && Covers(spans[i], x);
      assert CoveredAs(spans, spans[i].category, x);
    }
  }

  /** Per label, merging covers exactly the bytes the input covered. */
  lemma MergePreservesCoverage(spans: seq<Span>, category: string, x: int)
    ensures CoveredAs(MergeSpans(spans), category, x) <==> CoveredAs(spans, category, x)
  {
    if |spans| > 1 {
      var sorted := StableSort(spans, ByStartEnd);
      SpanOrders();
      SortSorted(spans, ByStartEnd);
      SortMultiset(spans, ByStartEnd);
      CoalesceCovers([], sorted, category, x);
      CoveredAsSameElements(spans, sorted, category, x);
    }
  }

  lemma {:induction false} CoalesceShape(out: seq<Span>, spans: seq<Span>)
    requires Sorted(out + spans, ByStartEnd) && NoneTouch(out)
    ensures Sorted(Coalesce(out, spans), ByStartEnd) && NoneTouch(Coalesce(out, spans))
    decreases |spans|
  {
    var all := out + spans;
    if spans == [] {
      assert all == out;
    } else {
      var next := Absorb(out, spans[0]);
      var rest := next + spans[1..];
      var n := |next|;
      assert forall i :: 0 <= i < |out| ==> all[i] == out[i];
      assert all[|out|] == spans[0];
      assert forall j :: n <= j < |rest| ==> rest[j] == all[|out| + 1 + j - n];
      assert forall i :: 0 <= i < n - 1 ==> rest[i] == all[i];
      forall i, j | 0 <= i < j < |rest|
        ensures ByStartEnd(rest[i], rest[j])
      {
        assert i != n - 1 && j != n - 1 ==> ByStartEnd(rest[i], rest[j]);
        if i == n - 1 {
          assert ByStartEnd(spans[0], all[|out| + 1 + j - n]);
          assert out != [] ==> ByStartEnd(Last(out), all[|out| + 1 + j - n]);
          assert out != [] ==> ByStartEnd(all[|out| - 1], all[|out|]);
        } else if j == n - 1 {
          assert i < |out| - 1 ==> ByStartEnd(all[i], all[|out| - 1]);
          assert ByStartEnd(all[i], all[|out|]);
        }
      }
      CoalesceShape(next, spans[1..]);
    }
  }

  lemma {:induction false} CoalesceIsIdentity(out: seq<Span>, spans: seq<Span>)
    requires NoneTouch(out + spans)
    ensures Coalesce(out, spans) == out + spans
    decreases |spans|
  {
    if spans == [] {
      assert out + spans == out;
    } else {
      var all := out + spans;
      if out != [] {
        assert all[|out| - 1] == Last(out) && all[|out|] == spans[0];
      }
      assert out + [spans[0]] + spans[1..] == all;
      CoalesceIsIdentity(out + [spans[0]], spans[1..]);
    }
  }

  /** The result is sorted, has no touching same-label neighbours, and merging it again changes nothing. */
  lemma MergeIsIdempotent(spans: seq<Span>)
    ensures var r := MergeSpans(spans);
      Sorted(r, ByStartEnd) && NoneTouch(r) && MergeSpans(r) == r
  {
    if |spans| > 1 {
      var sorted := StableSort(spans, ByStartEnd);
      SpanOrders();
      SortSorted(spans, ByStartEnd);
      assert [] + sorted == sorted;
      CoalesceShape([], sorted);
      var r := MergeSpans(spans);
      SortIsIdentityOnSorted(r, ByStartEnd);
      assert [] + r == r;
      CoalesceIsIdentity([], r);
    }
  }

  // ---- ranges of one label that stay apart ----------------------------------------

  ghost predicate TouchedBy(spans: seq<Span>, s: Span) {
    exists i :: 0 <= i < |spans| && Touches(spans[i], s)
  }

  /** No two spans of one label touch, wherever they are in the list. */
  ghost predicate LabelsApart(spans: seq<Span>) {
    forall i, j :: 0 <= i < j < |spans| ==> !Touches(spans[i], spans[j])
  }

  /** `s` comes right after a span of another label, yet touches an earlier one of its own. */
  ghost predicate Interrupts(before: seq<Span>, s: Span) {
    before != [] && Last(before).category != s.category && TouchedBy(before, s)
  }

  ghost predicate InterruptedAt(spans: seq<Span>, j: nat)
    requires j < |spans|
  {
    Interrupts(spans[..j], spans[j])
  }

  /** No span that follows another label touches an earlier one of its own. */
  ghost predicate Uninterrupted(spans: seq<Span>) {
    forall j :: 0 <= j < |spans| ==> !InterruptedAt(spans, j)
  }

  /** `out` is what has become of `before`: it ends in the same label and reaches as far in each. */
  ghost predicate Stands(out: seq<Span>, before: seq<Span>) {
    && (out == [] <==> before == [])
    && (out != [] ==> Last(out).category == Last(before).category && Last(out).start <= Last(before).start)
    && (forall t :: TouchedBy(out, t) <==> TouchedBy(before, t))
  }

  lemma TouchedBySnoc(spans: seq<Span>, s: Span, t: Span)
    ensures TouchedBy(spans + [s], t) <==> TouchedBy(spans, t) || Touches(s, t)
  {
    var all := spans + [s];
    if i :| 0 <= i < |spans| && Touches(spans[i], t) {
      assert Touches(all[i], t);
    }
    if Touches(s, t) {
      assert Touches(all[|spans|], t);
    }
  }

  lemma AbsorbStands(out: seq<Span>, before: seq<Span>, s: Span)
    requires Stands(out, before) && (before != [] ==> Last(before).start <= s.start)
    ensures Stands(Absorb(out, s), before + [s])
  {
    forall t
      ensures TouchedBy(Absorb(out, s), t) <==> TouchedBy(before + [s], t)
    {
      TouchedBySnoc(before, s, t);
      if out != [] && Touches(Last(out), s) {
        var init, last := out[..|out| - 1], Last(out);
        TouchedBySnoc(init, last, t);
        TouchedBySnoc(init, last.(end := Max(last.end, s.end)), t);
        assert out == init + [last];
        assert Absorb(out, s) == init + [last.(end := Max(last.end, s.end))];
      } else {
        TouchedBySnoc(out, s, t);
      }
    }
  }

  lemma AppendApartIff(out: seq<Span>, s: Span)
    ensures LabelsApart(out + [s]) <==> LabelsApart(out) && !TouchedBy(out, s)
  {
    var next := out + [s];
    assert forall i :: 0 <= i < |out| ==> next[i] == out[i];
    if i :| 0 <= i < |out| && Touches(out[i], s) {
      assert Touches(next[i], next[|out|]);
    }
    if i, j :| 0 <= i < j < |out| && Touches(out[i], out[j]) {
      assert Touches(next[i], next[j]);
    }
  }

  lemma ExtendApartIff(init: seq<Span>, last: Span, end: nat)
    ensures LabelsApart(init + [last.(end := end)]) <==> LabelsApart(init + [last])
  {
    AppendApartIff(init, last);
    AppendApartIff(init, last.(end := end));
    assert forall i :: 0 <= i < |init| ==> (Touches(init[i], last.(end := end)) <==> Touches(init[i], last));
  }

  lemma AbsorbApartIff(out: seq<Span>, before: seq<Span>, s: Span)
    requires Stands(out, before) && (before != [] ==> Last(before).start <= s.start)
    ensures LabelsApart(Absorb(out, s)) <==> LabelsApart(out) && !Interrupts(before, s)
  {
    if out != [] && Touches(Last(out), s) {
      var init, last := out[..|out| - 1], Last(out);
      assert out == init + [last];
      ExtendApartIff(init, last, Max(last.end, s.end));
      assert Absorb(out, s) == init + [last.(end := Max(last.end, s.end))];
    } else {
      AppendApartIff(out, s);
      if i :| 0 <= i < |out| && Touches(out[i], s) {
        assert i < |out| - 1 && Last(out).category == s.category ==> Touches(out[i], Last(out));
      }
    }
  }

  lemma {:induction false} CoalesceApartIff(out: seq<Span>, all: seq<Span>, k: nat)
    requires k <= |all| && Stands(out, all[..k]) && Sorted(all, ByStart)
    ensures LabelsApart(Coalesce(out, all[k..])) <==>
      LabelsApart(out) && forall j :: k <= j < |all| ==> !InterruptedAt(all, j)
    decreases |all| - k
  {
    if k < |all| {
      assert k > 0 ==> all[..k][k - 1] == all[k - 1] && ByStart(all[k - 1], all[k]);
      AbsorbStands(out, all[..k], all[k]);
      AbsorbApartIff(out, all[..k], all[k]);
      TakeOneMore(all, k);
      assert all[k..][0] == all[k] && all[k..][1..] == all[k + 1..];
      CoalesceApartIff(Absorb(out, all[k]), all, k + 1);
      assert InterruptedAt(all, k) <==> Interrupts(all[..k], all[k]);
    } else {
      assert all[k..] == [];
    }
  }

  lemma ApartIffUninterrupted(sorted: seq<Span>)
    requires Sorted(sorted, ByStart)
    ensures LabelsApart(Coalesce([], sorted)) <==> Uninterrupted(sorted)
  {
    assert sorted[..0] == [] && sorted[0..] == sorted;
    assert Stands([], []);
    CoalesceApartIff([], sorted, 0);
  }

  /**
    Merging looks at list neighbours only. It separates the spans of every label
    if and only if, in sorted order, no span that follows another label touches
    an earlier span of its own.
   */
  lemma LabelsApartIffUninterrupted(spans: seq<Span>)
    ensures LabelsApart(MergeSpans(spans)) <==> Uninterrupted(StableSort(spans, ByStartEnd))
  {
    var sorted := StableSort(spans, ByStartEnd);
    SpanOrders();
    SortSorted(spans, ByStartEnd);
    SortMultiset(spans, ByStartEnd);
    if |spans| > 1 {
      ApartIffUninterrupted(sorted);
    }
  }

  /** The condition can fail: ranges of one label still overlap across another label. */
  lemma SameLabelOverlapCanRemain()
    ensures var s := [Span(0, 10, "A"), Span(5, 6, "B"), Span(7, 12, "A")];
      MergeSpans(s) == s && Touches(s[0], s[2]) && !LabelsApart(s)
  {
    var s := [Span(0, 10, "A"), Span(5, 6, "B"), Span(7, 12, "A")];
    assert "A"[0] != "B"[0];
    assert Touches(s[0], s[2]);
    AlreadyMerged(s);
  }

  lemma AlreadyMerged(s: seq<Span>)
    requires |s| > 1 && Sorted(s, ByStartEnd) && NoneTouch(s)
    ensures MergeSpans(s) == s
  {
    SortIsIdentityOnSorted(s, ByStartEnd);
    assert [] + s == s;
    CoalesceIsIdentity([], s);
  }

  /** The loop of `merge_spans`: the last output span is extended in place. */
  method MergeSpansLoop(input: seq<Span>) returns (out: seq<Span>)
    ensures out == MergeSpans(input)
  {
    if |input| <= 1 {
      return input;
    }
    var spans := StableSort(input, ByStartEnd);
    out := [];
    for i := 0 to |spans|
      invariant Coalesce(out, spans[i..]) == Coalesce([], spans)
    {
      assert spans[i..][0] == spans[i] && spans[i..][1..] == spans[i + 1..];
      out := AbsorbInto(out, spans[i]);
    }
    assert spans[|spans|..] == [];
  }

  method AbsorbInto(spans: seq<Span>, s: Span) returns (out: seq<Span>)
    ensures out == Absorb(spans, s)
  {
    out := spans;
    if |out| > 0 && out[|out| - 1].end >= s.start && out[|out| - 1].category == s.category {
      if s.end > out[|out| - 1].end {
        out := out[|out| - 1 := out[|out| - 1].(end := s.end)];
      }
    } else {
      out := out + [s];
    }
  }

  /**
    The merged spans, in so many words: by start and then by end, and of two
    neighbours with one label the first ends before the second starts.
   */
  lemma MergedSpansAreApart(spans: seq<Span>, i: nat, j: nat)
    requires i < j < |MergeSpans(spans)|
    ensures var a, b := MergeSpans(spans)[i], MergeSpans(spans)[j];
      && (a.start < b.start || (a.start == b.start && a.end <= b.end))
      && (j == i + 1 && a.category == b.category ==> a.end < b.start)
  {
    MergeIsIdempotent(spans);
    var r := MergeSpans(spans);
    assert ByStartEnd(r[i], r[j]);
    assert j == i + 1 ==> !Touches(r[j - 1], r[j]);
  }
}
