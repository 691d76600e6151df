/** Small vocabulary shared by every module. */
module Common {
  datatype Option<+T> = None | Some(value: T)

  datatype Result<+T, +E> = Ok(value: T) | Err(error: E)

  function Max(a: int, b: int): int { if a >= b then a else b }

  function Min(a: int, b: int): int { if a <= b then a else b }

  lemma Associate<T>(a: seq<T>, b: seq<T>, c: seq<T>)
    ensures (a + b) + c == a + (b + c)
  {
  }

  lemma LastOfAppend<T>(a: seq<T>, b: seq<T>)
    requires b != []
    ensures a + b == a + b[..|b| - 1] + [b[|b| - 1]]
  {
  }

  lemma TakeOneMore<T>(s: seq<T>, n: nat)
    requires n < |s|
    ensures s[..n + 1] == s[..n] + [s[n]]
    ensures s == s[..n + 1] + s[n + 1..]
  {
  }

  /** Where a permutation of `init + [last]` holds the last element. */
  lemma AroundLast<T>(init: seq<T>, last: T, ys: seq<T>) returns (before: seq<T>, after: seq<T>)
    requires multiset(init + [last]) == multiset(ys)
    ensures ys == before + [last] + after
    ensures multiset(init) == multiset(before + after)
  {
    assert last in multiset(ys);
    var k :| 0 <= k < |ys| && ys[k] == last;
    before, after := ys[..k], ys[k + 1..];
    assert ys == before + [last] + after;
    Without(before, last, after);
    assert multiset(init) == multiset(init + [last]) - multiset{last};
  }

  lemma RemoveAt<T>(s: seq<T>, k: nat)
    requires k < |s|
    ensures multiset(s) == multiset(s[..k] + s[k + 1..]) + multiset{s[k]}
  {
    assert s == s[..k] + [s[k]] + s[k + 1..];
    Without(s[..k], s[k], s[k + 1..]);
  }

  lemma Without<T>(before: seq<T>, x: T, after: seq<T>)
    ensures multiset(before + [x] + after) - multiset{x} == multiset(before + after)
  {
  }

  /** A sequence in which no element occurs twice. */
  ghost predicate Distinct<T>(s: seq<T>) {
    forall i, j :: 0 <= i < j < |s| ==> s[i] != s[j]
  }

  lemma {:induction false} DistinctCounts<T>(s: seq<T>, x: T)
    requires Distinct(s)
    ensures multiset(s)[x] <= 1
  {
    if s != [] {
      DistinctCounts(s[1..], x);
      assert s == [s[0]] + s[1..];
      assert forall k :: 0 <= k < |s[1..]| ==> s[1..][k] == s[k + 1] != s[0];
    }
  }

  /** Rearranging a duplicate-free sequence keeps it duplicate-free. */
  lemma DistinctPermutation<T>(s: seq<T>, t: seq<T>)
    requires Distinct(s) && multiset(s) == multiset(t)
    ensures Distinct(t)
    ensures forall x :: x in s <==> x in t
  {
    forall i, j | 0 <= i < j < |t|
      ensures t[i] != t[j]
    {
      DistinctCounts(s, t[j]);
      assert t == t[..j] + [t[j]] + t[j + 1..];
      assert multiset(t[..j])[t[j]] == 0;
      assert t[..j][i] in multiset(t[..j]);
    }
    forall x
      ensures x in s <==> x in t
    {
      assert x in s <==> x in multiset(s);
      assert x in t <==> x in multiset(t);
    }
  }
}

/** The standard library's stable sorts, as an insertion sort. */
module StableSorting {
  ghost predicate TotalPreorder<T(!new)>(le: (T, T) -> bool) {
    && (forall a, b :: le(a, b) || le(b, a))
    && (forall a, b, c :: le(a, b) && le(b, c) ==> le(a, c))
  }

  ghost predicate Sorted<T>(s: seq<T>, le: (T, T) -> bool) {
    forall i, j :: 0 <= i < j < |s| ==> le(s[i], s[j])
  }

  /** Puts `x` in front of the first element that is not strictly below it. */
  function Insert<T>(x: T, s: seq<T>, le: (T, T) -> bool): seq<T> {
    if s == [] || le(x, s[0]) then [x] + s else [s[0]] + Insert(x, s[1..], le)
  }

  function StableSort<T>(s: seq<T>, le: (T, T) -> bool): seq<T> {
    if s == [] then [] else Insert(s[0], StableSort(s[1..], le), le)
  }

  lemma {:induction false} InsertMultiset<T>(x: T, s: seq<T>, le: (T, T) -> bool)
    ensures multiset(Insert(x, s, le)) == multiset{x} + multiset(s)
  {
    if s == [] || le(x, s[0]) {
    } else {
      InsertMultiset(x, s[1..], le);
      assert s == [s[0]] + s[1..];
    }
  }

  lemma {:induction false} SortMultiset<T>(s: seq<T>, le: (T, T) -> bool)
    ensures multiset(StableSort(s, le)) == multiset(s)
    ensures |StableSort(s, le)| == |s|
    ensures forall x :: x in StableSort(s, le) <==> x in s
  {
    if s != [] {
      SortMultiset(s[1..], le);
      InsertMultiset(s[0], StableSort(s[1..], le), le);
      assert s == [s[0]] + s[1..];
    }
    var r := StableSort(s, le);
    assert |r| == |multiset(r)| == |multiset(s)| == |s|;
    forall x
      ensures x in r <==> x in s
    {
      assert x in r <==> x in multiset(r);
      assert x in s <==> x in multiset(s);
    }
  }

  lemma {:induction false} InsertSorted<T(!new)>(x: T, s: seq<T>, le: (T, T) -> bool)
    requires TotalPreorder(le) && Sorted(s, le)
    ensures Sorted(Insert(x, s, le), le)
  {
    if s == [] || le(x, s[0]) {
    } else {
      InsertSorted(x, s[1..], le);
      InsertMultiset(x, s[1..], le);
      var r := Insert(x, s[1..], le);
      forall k | 0 <= k < |r|
        ensures le(s[0], r[k])
      {
        assert r[k] in multiset(r);
        assert r[k] == x || r[k] in multiset(s[1..]);
      }
    }
  }

  lemma {:induction false} SortSorted<T(!new)>(s: seq<T>, le: (T, T) -> bool)
    requires TotalPreorder(le)
    ensures Sorted(StableSort(s, le), le)
  {
    if s != [] {
      SortSorted(s[1..], le);
      InsertSorted(s[0], StableSort(s[1..], le), le);
    }
  }

  /** Sorting something already in order moves nothing. */
  lemma {:induction false} SortIsIdentityOnSorted<T(!new)>(s: seq<T>, le: (T, T) -> bool)
    requires Sorted(s, le)
    ensures StableSort(s, le) == s
  {
    if s != [] {
      SortIsIdentityOnSorted(s[1..], le);
      assert s == [s[0]] + s[1..];
    }
  }

  function Filter<T>(s: seq<T>, p: T -> bool): seq<T> {
    if s == [] then [] else (if p(s[0]) then [s[0]] else []) + Filter(s[1..], p)
  }

  lemma FilterCons<T>(x: T, s: seq<T>, p: T -> bool)
    ensures Filter([x] + s, p) == (if p(x) then [x] else []) + Filter(s, p)
  {
    assert ([x] + s)[1..] == s;
  }

  lemma FilterSwap<T>(x: T, y: T, s: seq<T>, p: T -> bool)
    requires !p(x) || !p(y)
    ensures Filter([x] + ([y] + s), p) == Filter([y] + ([x] + s), p)
  {
    FilterCons(x, [y] + s, p);
    FilterCons(y, [x] + s, p);
    FilterCons(x, s, p);
    FilterCons(y, s, p);
  }

  lemma {:induction false} InsertIsStable<T(!new)>(x: T, s: seq<T>, le: (T, T) -> bool, p: T -> bool)
    requires forall a, b :: p(a) && p(b) ==> le(a, b)
    ensures Filter(Insert(x, s, le), p) == Filter([x] + s, p)
  {
    if s != [] && !le(x, s[0]) {
      InsertIsStable(x, s[1..], le, p);
      FilterCons(s[0], Insert(x, s[1..], le), p);
      FilterCons(s[0], [x] + s[1..], p);
      FilterSwap(x, s[0], s[1..], p);
      assert s == [s[0]] + s[1..];
    }
  }

  /** Elements the order does not tell apart stay in the order they came in. */
  lemma {:induction false} SortIsStable<T(!new)>(s: seq<T>, le: (T, T) -> bool, p: T -> bool)
    requires forall a, b :: p(a) && p(b) ==> le(a, b)
    ensures Filter(StableSort(s, le), p) == Filter(s, p)
  {
    if s != [] {
      SortIsStable(s[1..], le, p);
      InsertIsStable(s[0], StableSort(s[1..], le), le, p);
      FilterCons(s[0], StableSort(s[1..], le), p);
    }
  }
}
