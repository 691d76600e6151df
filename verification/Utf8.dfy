/** UTF-8 character boundaries in a string held as its bytes, one `char` per byte. */
module Utf8 {
  /** `str::is_char_boundary`: not in front of a continuation byte. */
  predicate IsCharBoundary(text: string, i: int) {
    i == 0 || i == |text| || (0 < i < |text| && !(0x80 as char <= text[i] < 0xC0 as char))
  }

  /**
    `clamp_char_boundary`: the nearest boundary at or after `pos` when expanding
    right, at or before it otherwise; a position past the end becomes the end.
   */
  method ClampCharBoundary(text: string, pos: nat, expandRight: bool) returns (p: nat)
    ensures p <= |text| && IsCharBoundary(text, p)
    ensures pos > |text| ==> p == |text|
    ensures pos <= |text| && expandRight ==>
      pos <= p && forall q :: pos <= q < p ==> !IsCharBoundary(text, q)
    ensures pos <= |text| && !expandRight ==>
      p <= pos && forall q :: p < q <= pos ==> !IsCharBoundary(text, q)
    ensures p == Clamp(text, pos, expandRight)
  {
    ghost var target := Clamp(text, pos, expandRight);
    if pos > |text| {
      return |text|;
    }
    if IsCharBoundary(text, pos) {
      return pos;
    }
    p := pos;
    if expandRight {
      while p < |text| && !IsCharBoundary(text, p)
        invariant pos <= p <= |text|
        invariant forall q :: pos <= q < p ==> !IsCharBoundary(text, q)
        invariant NextBoundary(text, p) == target
      {
        p := p + 1;
      }
    } else {
      while p > 0 && !IsCharBoundary(text, p)
        invariant p <= pos
        invariant forall q :: p < q <= pos ==> !IsCharBoundary(text, q)
        invariant PreviousBoundary(text, p) == target
      {
        p := p - 1;
      }
    }
  }

  function NextBoundary(text: string, pos: nat): (p: nat)
    requires pos <= |text|
    ensures pos <= p <= |text| && IsCharBoundary(text, p)
    decreases |text| - pos
  {
    if IsCharBoundary(text, pos) then pos else NextBoundary(text, pos + 1)
  }

  function PreviousBoundary(text: string, pos: nat): (p: nat)
    requires pos <= |text|
    ensures p <= pos && IsCharBoundary(text, p)
  {
    if IsCharBoundary(text, pos) then pos else PreviousBoundary(text, pos - 1)
  }

  function Clamp(text: string, pos: nat, expandRight: bool): nat {
    if pos > |text| then |text|
    else if expandRight then NextBoundary(text, pos)
    else PreviousBoundary(text, pos)
  }

  lemma {:induction false} NextBoundaryIsNearest(text: string, pos: nat)
    requires pos <= |text|
    ensures forall q :: pos <= q < NextBoundary(text, pos) ==> !IsCharBoundary(text, q)
    decreases |text| - pos
  {
    if !IsCharBoundary(text, pos) {
      NextBoundaryIsNearest(text, pos + 1);
    }
  }

  lemma {:induction false} PreviousBoundaryIsNearest(text: string, pos: nat)
    requires pos <= |text|
    ensures forall q :: PreviousBoundary(text, pos) < q <= pos ==> !IsCharBoundary(text, q)
  {
    if !IsCharBoundary(text, pos) {
      PreviousBoundaryIsNearest(text, pos - 1);
    }
  }

  // ---- boundaries of encoded text --------------------------------------------------

  type Scalar = c: nat | c < 0x110000 witness 0

  predicate Continuation(b: char) { 0x80 as char <= b < 0xC0 as char }

  /** The bytes of one scalar value, as section 3 of RFC 3629 lays them out. */
  function Bytes(c: Scalar): (s: string)
    ensures 1 <= |s| <= 4 && !Continuation(s[0])
    ensures forall i :: 1 <= i < |s| ==> Continuation(s[i])
  {
    if c < 0x80 then [c as char]
    else if c < 0x800 then [(0xC0 + c / 64) as char, (0x80 + c % 64) as char]
    else if c < 0x10000 then
      [(0xE0 + c / 4096) as char, (0x80 + c / 64 % 64) as char, (0x80 + c % 64) as char]
    else
      [(0xF0 + c / 262144) as char, (0x80 + c / 4096 % 64) as char, (0x80 + c / 64 % 64) as char,
       (0x80 + c % 64) as char]
  }

  function Encoded(cs: seq<Scalar>): string {
    if cs == [] then "" else Encoded(cs[..|cs| - 1]) + Bytes(cs[|cs| - 1])
  }

  lemma {:induction false} PrefixIsShorter(cs: seq<Scalar>, k: nat)
    requires k <= |cs|
    ensures |Encoded(cs[..k])| <= |Encoded(cs)|
  {
    if k < |cs| {
      PrefixIsShorter(cs[..|cs| - 1], k);
      assert cs[..|cs| - 1][..k] == cs[..k];
    } else {
      assert cs[..k] == cs;
    }
  }

  ghost predicate AfterWholeScalars(cs: seq<Scalar>, i: nat) {
    exists k :: 0 <= k <= |cs| && i == |Encoded(cs[..k])|
  }

  /** In encoded text the boundaries are exactly the offsets between whole characters. */
  lemma {:induction false} BoundaryIffAfterWholeScalars(cs: seq<Scalar>, i: nat)
    ensures IsCharBoundary(Encoded(cs), i) <==> AfterWholeScalars(cs, i)
  {
    assert cs[..|cs|] == cs;
    if cs == [] {
      assert Encoded(cs[..0]) == "";
    } else {
      var init, last := cs[..|cs| - 1], Bytes(cs[|cs| - 1]);
      BoundaryIffAfterWholeScalars(init, i);
      BoundaryOfAppend(Encoded(init), last, i);
      if AfterWholeScalars(init, i) {
        var k :| 0 <= k <= |init| && i == |Encoded(init[..k])|;
        assert init[..k] == cs[..k];
        PrefixIsShorter(init, k);
      }
      if AfterWholeScalars(cs, i) {
        var k :| 0 <= k <= |cs| && i == |Encoded(cs[..k])|;
        if k < |cs| {
          assert init[..k] == cs[..k];
          PrefixIsShorter(init, k);
        }
      }
    }
  }

  lemma BoundaryOfAppend(a: string, b: string, i: nat)
    requires b != [] && !Continuation(b[0]) && forall j :: 1 <= j < |b| ==> Continuation(b[j])
    ensures IsCharBoundary(a + b, i) <==> (if i <= |a| then IsCharBoundary(a, i) else i == |a + b|)
  {
    if |a| <= i < |a + b| {
      assert (a + b)[i] == b[i - |a|];
    }
  }
}
