/** Decoding one label per token into labelled token spans (BIO and BIOES schemes). */
module Bioes {
  import opened Common

  /** X is a label without a recognised prefix; the decoder treats it like I. */
  datatype Prefix = O | B | I | E | S | X

  datatype Tag = Tag(prefix: Prefix, base: string)

  predicate HasPrefix(s: string, p: string) { |s| >= |p| && s[..|p|] == p }

  function SplitBioes(name: string): Tag {
    if name == "O" then Tag(O, "")
    else if HasPrefix(name, "B-") then Tag(B, name[2..])
    else if HasPrefix(name, "I-") then Tag(I, name[2..])
    else if HasPrefix(name, "E-") then Tag(E, name[2..])
    else if HasPrefix(name, "S-") then Tag(S, name[2..])
    else Tag(X, name)
  }

  datatype LabelMap = LabelMap(idToLabel: seq<string>) {
    /** Unknown ids and gaps in the table both read as "O". */
    function Lookup(id: nat): string {
      if id < |idToLabel| && idToLabel[id] != "" then idToLabel[id] else "O"
    }
  }

  function Tags(ids: seq<nat>, labels: LabelMap): seq<Tag> {
    seq(|ids|, i requires 0 <= i < |ids| => SplitBioes(labels.Lookup(ids[i])))
  }

  datatype LabelSpan = LabelSpan(startToken: nat, endToken: nat, category: string)

  /** A boundary falls between tokens `t - 1` and `t`, both labelled. */
  predicate Cut(tags: seq<Tag>, t: nat)
    requires 0 < t < |tags|
  {
    || tags[t].prefix.B? || tags[t].prefix.S?
    || tags[t - 1].prefix.E? || tags[t - 1].prefix.S?
    || tags[t].base != tags[t - 1].base
  }

  /** Token `t` begins a group: the first one, or after an O token, or after a cut. */
  predicate StartsGroup(tags: seq<Tag>, t: nat)
    requires t < |tags|
  {
    t == 0 || tags[t - 1].prefix.O? || Cut(tags, t)
  }

  /** The spans through token `t`, given those before it. */
  function Extend(tags: seq<Tag>, t: nat, before: seq<LabelSpan>): seq<LabelSpan>
    requires t < |tags|
  {
    if tags[t].prefix.O? then before
    else if StartsGroup(tags, t) || before == [] then before + [LabelSpan(t, t + 1, tags[t].base)]
    else before[|before| - 1 := before[|before| - 1].(endToken := t + 1)]
  }

  /** The spans of the first `n` tokens. */
  function Decode(tags: seq<Tag>, n: nat): (r: seq<LabelSpan>)
    requires n <= |tags|
    ensures n > 0 && !tags[n - 1].prefix.O? ==>
        r != [] && r[|r| - 1].endToken == n && r[|r| - 1].category == tags[n - 1].base
  {
    if n == 0 then [] else Extend(tags, n - 1, Decode(tags, n - 1))
  }

  predicate Holds(s: LabelSpan, t: int) { s.startToken <= t < s.endToken }

  ghost predicate Held(out: seq<LabelSpan>, t: int) {
    exists i :: 0 <= i < |out| && Holds(out[i], t)
  }

  /** A non-empty run of labelled tokens of one label, with no cut inside and a cut or an O token in front. */
  ghost predicate IsGroup(tags: seq<Tag>, s: LabelSpan) {
    && s.startToken < s.endToken <= |tags|
    && (forall t :: s.startToken <= t < s.endToken ==> !tags[t].prefix.O? && tags[t].base == s.category)
    && (forall t :: s.startToken < t < s.endToken ==> !Cut(tags, t))
    && (s.startToken > 0 && !tags[s.startToken - 1].prefix.O? ==> Cut(tags, s.startToken))
  }

  /**
    The spans partition the labelled tokens among the first `n`: ordered,
    disjoint, non-empty and of one label each, with a boundary between two
    labelled neighbours exactly at a cut.
   */
  ghost predicate IsDecoding(tags: seq<Tag>, n: nat, out: seq<LabelSpan>)
    requires n <= |tags|
  {
    && (forall i :: 0 <= i < |out| ==> IsGroup(tags, out[i]) && out[i].endToken <= n)
    && (forall i, j :: 0 <= i < j < |out| ==> out[i].endToken <= out[j].startToken)
    && (forall t {:trigger Held(out, t)} :: 0 <= t < n && !tags[t].prefix.O? ==> Held(out, t))
  }

  lemma HeldMonotone(a: seq<LabelSpan>, b: seq<LabelSpan>, t: int)
    requires Held(a, t) && |a| <= |b|
    requires forall i :: 0 <= i < |a| ==> a[i].startToken == b[i].startToken && a[i].endToken <= b[i].endToken
    ensures Held(b, t)
  {
    var i :| 0 <= i < |a| && Holds(a[i], t);
    assert Holds(b[i], t);
  }

  lemma SkipOutside(tags: seq<Tag>, t: nat, before: seq<LabelSpan>)
    requires t < |tags| && IsDecoding(tags, t, before) && tags[t].prefix.O?
    ensures IsDecoding(tags, t + 1, before)
  {
  }

  lemma AppendGroup(tags: seq<Tag>, t: nat, before: seq<LabelSpan>)
    requires t < |tags| && IsDecoding(tags, t, before)
    requires !tags[t].prefix.O? && StartsGroup(tags, t)
    ensures IsDecoding(tags, t + 1, before + [LabelSpan(t, t + 1, tags[t].base)])
  {
    var last := LabelSpan(t, t + 1, tags[t].base);
    var out := before + [last];
    assert IsGroup(tags, last);
    forall u | 0 <= u < t + 1 && !tags[u].prefix.O?
      ensures Held(out, u)
    {
      if u < t {
        HeldMonotone(before, out, u);
      } else {
        assert Holds(out[|before|], t);
      }
    }
  }

  lemma ExtendGroup(tags: seq<Tag>, t: nat, before: seq<LabelSpan>)
    requires 0 < t < |tags| && IsDecoding(tags, t, before)
    requires !tags[t].prefix.O? && !StartsGroup(tags, t)
    requires before != [] && before[|before| - 1].endToken == t
    ensures IsDecoding(tags, t + 1, before[|before| - 1 := before[|before| - 1].(endToken := t + 1)])
  {
    var k := |before| - 1;
    var out := before[k := before[k].(endToken := t + 1)];
    assert IsGroup(tags, before[k]);
    assert IsGroup(tags, out[k]);
    forall u | 0 <= u < t + 1 && !tags[u].prefix.O?
      ensures Held(out, u)
    {
      if u < t {
        HeldMonotone(before, out, u);
      } else {
        assert Holds(out[k], t);
      }
    }
  }

  lemma ExtendIsDecoding(tags: seq<Tag>, t: nat, before: seq<LabelSpan>)
    requires t < |tags| && IsDecoding(tags, t, before)
    requires t > 0 && !tags[t - 1].prefix.O? ==> before != [] && before[|before| - 1].endToken == t
    ensures IsDecoding(tags, t + 1, Extend(tags, t, before))
  {
    if tags[t].prefix.O? {
      SkipOutside(tags, t, before);
    } else if StartsGroup(tags, t) {
      AppendGroup(tags, t, before);
    } else {
      ExtendGroup(tags, t, before);
    }
  }

  lemma {:induction false} DecodeIsDecoding(tags: seq<Tag>, n: nat)
    requires n <= |tags|
    ensures IsDecoding(tags, n, Decode(tags, n))
  {
    if n == 0 {
      assert Decode(tags, n) == [];
    } else {
      DecodeIsDecoding(tags, n - 1);
      ExtendIsDecoding(tags, n - 1, Decode(tags, n - 1));
      assert Decode(tags, n) == Extend(tags, n - 1, Decode(tags, n - 1));
    }
  }

  /** Nothing else is a decoding: the conditions above determine the spans. */
  lemma {:induction false} DecodingIsUnique(tags: seq<Tag>, n: nat, out: seq<LabelSpan>)
    requires n <= |tags| && IsDecoding(tags, n, out)
    ensures out == Decode(tags, n)
  {
    if n == 0 {
      assert |out| > 0 ==> IsGroup(tags, out[0]);
    } else if tags[n - 1].prefix.O? {
      LastTokenOutside(tags, n, out);
      DecodingIsUnique(tags, n - 1, out);
    } else {
      var smaller := LastTokenInLastSpan(tags, n, out);
      DecodingIsUnique(tags, n - 1, smaller);
    }
  }

  lemma LastTokenOutside(tags: seq<Tag>, n: nat, out: seq<LabelSpan>)
    requires 0 < n <= |tags| && IsDecoding(tags, n, out) && tags[n - 1].prefix.O?
    ensures IsDecoding(tags, n - 1, out)
  {
    forall i | 0 <= i < |out|
      ensures out[i].endToken <= n - 1
    {
      assert IsGroup(tags, out[i]);
    }
  }

  lemma LastTokenIsLast(tags: seq<Tag>, n: nat, out: seq<LabelSpan>)
    requires 0 < n <= |tags| && IsDecoding(tags, n, out) && !tags[n - 1].prefix.O?
    ensures out != [] && IsGroup(tags, out[|out| - 1])
    ensures out[|out| - 1].endToken == n
    ensures StartsGroup(tags, n - 1) <==> out[|out| - 1].startToken == n - 1
  {
    assert Held(out, n - 1);
    var k :| 0 <= k < |out| && Holds(out[k], n - 1);
    assert IsGroup(tags, out[|out| - 1]);
  }

  /** Taking the last labelled token away leaves a decoding that `Decode` would extend to `out`. */
  lemma LastTokenInLastSpan(tags: seq<Tag>, n: nat, out: seq<LabelSpan>) returns (smaller: seq<LabelSpan>)
    requires 0 < n <= |tags| && IsDecoding(tags, n, out) && !tags[n - 1].prefix.O?
    ensures IsDecoding(tags, n - 1, smaller)
    ensures out == Extend(tags, n - 1, smaller)
  {
    LastTokenIsLast(tags, n, out);
    var k := |out| - 1;
    if StartsGroup(tags, n - 1) {
      DropLast(tags, n, out);
      smaller := out[..k];
      assert out == smaller + [out[k]];
      assert out[k] == LabelSpan(n - 1, n, tags[n - 1].base);
    } else {
      ShrinkLast(tags, n, out);
      smaller := out[k := out[k].(endToken := n - 1)];
      assert out == smaller[k := out[k]];
    }
  }

  lemma DropLast(tags: seq<Tag>, n: nat, out: seq<LabelSpan>)
    requires 0 < n <= |tags| && IsDecoding(tags, n, out)
    requires out != [] && out[|out| - 1].startToken == n - 1
    ensures IsDecoding(tags, n - 1, out[..|out| - 1])
  {
    var init := out[..|out| - 1];
    forall t | 0 <= t < n - 1 && !tags[t].prefix.O?
      ensures Held(init, t)
    {
      assert Held(out, t);
      var i :| 0 <= i < |out| && Holds(out[i], t);
      assert Holds(init[i], t);
    }
  }

  lemma ShrinkLast(tags: seq<Tag>, n: nat, out: seq<LabelSpan>)
    requires 1 < n <= |tags| && IsDecoding(tags, n, out)
    requires out != [] && out[|out| - 1].endToken == n && out[|out| - 1].startToken < n - 1
    ensures IsDecoding(tags, n - 1, out[|out| - 1 := out[|out| - 1].(endToken := n - 1)])
  {
    var k := |out| - 1;
    var short := out[k := out[k].(endToken := n - 1)];
    assert IsGroup(tags, out[k]);
    assert IsGroup(tags, short[k]);
    forall t | 0 <= t < n - 1 && !tags[t].prefix.O?
      ensures Held(short, t)
    {
      assert Held(out, t);
      var i :| 0 <= i < |out| && Holds(out[i], t);
      assert Holds(short[i], t);
    }
  }

  function Close(out: seq<LabelSpan>, current: Option<LabelSpan>): seq<LabelSpan> {
    match current
    case Some(s) => out + [s]
    case None => out
  }

  /** A span is open after a token labelled B, I or unprefixed. */
  predicate LeavesOpen(tag: Tag) { tag.prefix.B? || tag.prefix.I? || tag.prefix.X? }

  /** `bioes_spans`: one pass with at most one open span. */
  method BioesSpans(ids: seq<nat>, labels: LabelMap) returns (out: seq<LabelSpan>)
    ensures out == Decode(Tags(ids, labels), |ids|)
  {
    ghost var tags := Tags(ids, labels);
    out := [];
    var current: Option<LabelSpan> := None;
    for i := 0 to |ids|
      invariant Close(out, current) == Decode(tags, i)
      invariant current.Some? <==> i > 0 && LeavesOpen(tags[i - 1])
    {
      var tag := SplitBioes(labels.Lookup(ids[i]));
      assert tag == tags[i];
      out, current := Take(tag, i, out, current, tags);
    }
    out := Close(out, current);
  }

  /** A token that begins a group is decoded to a span of its own. */
  lemma DecodeStart(tags: seq<Tag>, i: nat)
    requires i < |tags| && !tags[i].prefix.O? && StartsGroup(tags, i)
    ensures Decode(tags, i + 1) == Decode(tags, i) + [LabelSpan(i, i + 1, tags[i].base)]
  {
  }

  /** A token that continues the open span extends it. */
  lemma DecodeContinue(tags: seq<Tag>, i: nat, before: seq<LabelSpan>, open: LabelSpan)
    requires i < |tags| && !tags[i].prefix.O? && !StartsGroup(tags, i)
    requires before + [open] == Decode(tags, i)
    ensures Decode(tags, i + 1) == before + [open.(endToken := i + 1)]
  {
    assert before + [open.(endToken := i + 1)] == (before + [open])[|before| := open.(endToken := i + 1)];
  }

  /** Whether a token other than B and S continues the open span is decided by the labels alone. */
  lemma ContinuesIffSameLabel(tags: seq<Tag>, i: nat, before: seq<LabelSpan>, open: Option<LabelSpan>)
    requires i < |tags| && !tags[i].prefix.O? && !tags[i].prefix.B? && !tags[i].prefix.S?
    requires Close(before, open) == Decode(tags, i)
    requires open.Some? <==> i > 0 && LeavesOpen(tags[i - 1])
    ensures !StartsGroup(tags, i) <==> open.Some? && open.value.category == tags[i].base
  {
  }

  /** The arms of the decoder for one token. */
  method Take(tag: Tag, i: nat, before: seq<LabelSpan>, open: Option<LabelSpan>, ghost tags: seq<Tag>)
    returns (out: seq<LabelSpan>, current: Option<LabelSpan>)
    requires i < |tags| && tag == tags[i]
    requires Close(before, open) == Decode(tags, i)
    requires open.Some? <==> i > 0 && LeavesOpen(tags[i - 1])
    ensures Close(out, current) == Decode(tags, i + 1)
    ensures current.Some? <==> LeavesOpen(tag)
  {
    match tag.prefix
    case O =>
      out, current := Close(before, open), None;
    case B =>
      DecodeStart(tags, i);
      out, current := Close(before, open), Some(LabelSpan(i, i + 1, tag.base));
    case S =>
      DecodeStart(tags, i);
      out, current := Close(before, open) + [LabelSpan(i, i + 1, tag.base)], None;
    case E =>
      ContinuesIffSameLabel(tags, i, before, open);
      if open.Some? && open.value.category == tag.base {
        DecodeContinue(tags, i, before, open.value);
        out := before + [open.value.(endToken := i + 1)];
      } else {
        DecodeStart(tags, i);
        out := Close(before, open) + [LabelSpan(i, i + 1, tag.base)];
      }
      current := None;
    case _ =>
      ContinuesIffSameLabel(tags, i, before, open);
      if open.Some? && open.value.category == tag.base {
        DecodeContinue(tags, i, before, open.value);
        out, current := before, Some(open.value.(endToken := i + 1));
      } else {
        DecodeStart(tags, i);
        out, current := Close(before, open), Some(LabelSpan(i, i + 1, tag.base));
      }
  }

  // ---- what the names say ---------------------------------------------------------

  /** The label a name stands for: the name without one of the four prefixes, or else the whole name. */
  ghost predicate Names(name: string, base: string) {
    || name == "B-" + base || name == "I-" + base || name == "E-" + base || name == "S-" + base
    || (name == base && !Prefixed(name))
  }

  ghost predicate Prefixed(name: string) {
    exists base :: name == "B-" + base || name == "I-" + base || name == "E-" + base || name == "S-" + base
  }

  /** A name with a prefix splits into that prefix and the rest, whatever the rest is. */
  lemma PrefixedNameSplits(base: string)
    ensures SplitBioes("B-" + base) == Tag(B, base)
    ensures SplitBioes("I-" + base) == Tag(I, base)
    ensures SplitBioes("E-" + base) == Tag(E, base)
    ensures SplitBioes("S-" + base) == Tag(S, base)
  {
    assert ("B-" + base)[..2] == "B-" && ("B-" + base)[2..] == base;
    assert ("I-" + base)[..2] == "I-" && ("I-" + base)[2..] == base;
    assert ("E-" + base)[..2] == "E-" && ("E-" + base)[2..] == base;
    assert ("S-" + base)[..2] == "S-" && ("S-" + base)[2..] == base;
  }

  /** Only the name "O" is outside, and a name without a prefix is a label by itself. */
  lemma OtherNameSplits(name: string)
    requires !Prefixed(name)
    ensures SplitBioes(name) == if name == "O" then Tag(O, "") else Tag(X, name)
  {
    if |name| >= 2 && name[1] == '-' {
      assert name == [name[0]] + "-" + name[2..];
      assert name != "B-" + name[2..] && name != "I-" + name[2..];
      assert name != "E-" + name[2..] && name != "S-" + name[2..];
    }
  }

  lemma SplitNames(name: string, base: string)
    requires Names(name, base) && name != "O"
    ensures !SplitBioes(name).prefix.O? && SplitBioes(name).base == base
    ensures SplitBioes(name).prefix.B? <==> name == "B-" + base
    ensures SplitBioes(name).prefix.E? <==> name == "E-" + base
    ensures SplitBioes(name).prefix.S? <==> name == "S-" + base
  {
    PrefixedNameSplits(base);
    if !Prefixed(name) {
      OtherNameSplits(name);
    }
  }

  lemma EveryNameNames(name: string) returns (base: string)
    ensures Names(name, base)
  {
    if Prefixed(name) {
      base :| name == "B-" + base || name == "I-" + base || name == "E-" + base || name == "S-" + base;
    } else {
      base := name;
    }
  }

  /** Two neighbours of one label, the first not an end and the second not a beginning. */
  ghost predicate Joined(a: string, b: string) {
    exists base :: && Names(a, base) && a != "O" && a != "E-" + base && a != "S-" + base
                   && Names(b, base) && b != "O" && b != "B-" + base && b != "S-" + base
  }

  ghost predicate InOneSpan(out: seq<LabelSpan>, t: int, u: int) {
    exists i :: 0 <= i < |out| && Holds(out[i], t) && Holds(out[i], u)
  }

  /** What the decoder makes of two neighbouring tokens, read off their names: one span holds both or none does. */
  lemma NeighboursInOneSpanIffJoined(ids: seq<nat>, labels: LabelMap, out: seq<LabelSpan>, t: nat, a: string, b: string)
    requires 0 < t < |ids| && out == Decode(Tags(ids, labels), |Tags(ids, labels)|)
    requires a == labels.Lookup(ids[t - 1]) && b == labels.Lookup(ids[t])
    ensures InOneSpan(out, t - 1, t) <==> Joined(a, b)
  {
    var tags := Tags(ids, labels);
    var x, y := tags[t - 1], tags[t];
    assert |tags| == |ids| && x == SplitBioes(a) && y == SplitBioes(b);
    DecodedNeighbours(tags, out, t, x, y);
    JoinedIffNoCut(a, b, x, y);
  }

  lemma DecodedNeighbours(tags: seq<Tag>, out: seq<LabelSpan>, t: nat, a: Tag, b: Tag)
    requires 0 < t < |tags| && out == Decode(tags, |tags|) && a == tags[t - 1] && b == tags[t]
    ensures InOneSpan(out, t - 1, t) <==> NoCutBetween(a, b)
  {
    DecodeIsDecoding(tags, |tags|);
    NeighboursInOneSpan(tags, out, t, a, b);
  }

  ghost predicate NoCutBetween(a: Tag, b: Tag) {
    && !a.prefix.O? && !b.prefix.O? && a.base == b.base
    && !a.prefix.E? && !a.prefix.S? && !b.prefix.B? && !b.prefix.S?
  }

  lemma NeighboursInOneSpan(tags: seq<Tag>, out: seq<LabelSpan>, t: nat, a: Tag, b: Tag)
    requires 0 < t < |tags| && IsDecoding(tags, |tags|, out) && a == tags[t - 1] && b == tags[t]
    ensures InOneSpan(out, t - 1, t) <==> NoCutBetween(a, b)
  {
    if i :| 0 <= i < |out| && Holds(out[i], t - 1) && Holds(out[i], t) {
      assert IsGroup(tags, out[i]);
      assert !Cut(tags, t);
    }
    if NoCutBetween(a, b) {
      assert Held(out, t);
      var i :| 0 <= i < |out| && Holds(out[i], t);
      assert IsGroup(tags, out[i]);
      assert out[i].startToken != t;
      assert Holds(out[i], t - 1);
    }
  }

  lemma JoinedIffNoCut(a: string, b: string, x: Tag, y: Tag)
    requires x == SplitBioes(a) && y == SplitBioes(b)
    ensures Joined(a, b) <==> NoCutBetween(x, y)
  {
    if base :| && Names(a, base) && a != "O" && a != "E-" + base && a != "S-" + base
               && Names(b, base) && b != "O" && b != "B-" + base && b != "S-" + base {
      SplitNames(a, base);
      SplitNames(b, base);
    }
    if NoCutBetween(x, y) {
      var p := EveryNameNames(a);
      var q := EveryNameNames(b);
      SplitNames(a, p);
      SplitNames(b, q);
    }
  }

  /** Every span holds tokens of one label only, by the label table, and is reported under it. */
  lemma SpanTokensHaveItsName(ids: seq<nat>, labels: LabelMap, s: LabelSpan, t: nat)
    requires s in Decode(Tags(ids, labels), |Tags(ids, labels)|) && Holds(s, t)
    ensures t < |ids| && ids[t] < |labels.idToLabel|
    ensures var name := labels.idToLabel[ids[t]]; name != "" && name != "O" && Names(name, s.category)
  {
    var tags := Tags(ids, labels);
    DecodeIsDecoding(tags, |tags|);
    assert IsGroup(tags, s);
    var name := labels.Lookup(ids[t]);
    assert tags[t] == SplitBioes(name);
    var base := EveryNameNames(name);
    if name != "O" {
      SplitNames(name, base);
    }
  }
}
