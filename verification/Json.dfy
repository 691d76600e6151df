/**
  JSON trees as serde_json holds them with `preserve_order`: an object is a list
  of members in insertion order. A Rust `String` is modelled by the sequence of
  its UTF-8 bytes, one `char` per byte, so every length and offset is in bytes.
 */
module Json {
  import opened Common

  datatype Member = Member(key: string, value: Value)

  datatype Value =
    | Null
    | Bool(b: bool)
    | Number(repr: string)
    | Str(text: string)
    | Arr(items: seq<Value>)
    | Obj(members: seq<Member>)

  predicate IsContainer(v: Value) { v.Arr? || v.Obj? }

  /** Children of a node, addressed uniformly by position. */
  function Count(v: Value): nat {
    match v
    case Arr(items) => |items|
    case Obj(members) => |members|
    case _ => 0
  }

  function Kid(v: Value, i: nat): Value
    requires i < Count(v)
    ensures Kid(v, i) < v
  {
    if v.Arr? then v.items[i] else v.members[i].value
  }

  /** The reference token of child `i` in a JSON Pointer, before escaping. */
  function Token(v: Value, i: nat): string
    requires i < Count(v)
  {
    if v.Arr? then Decimal(i) else v.members[i].key
  }

  function WithKid(v: Value, i: nat, x: Value): Value
    requires i < Count(v)
  {
    if v.Arr? then Arr(v.items[i := x])
    else Obj(v.members[i := Member(v.members[i].key, x)])
  }

  function WithKids(v: Value, kids: seq<Value>): Value
    requires IsContainer(v) && |kids| == Count(v)
  {
    if v.Arr? then Arr(kids)
    else Obj(seq(|kids|, i requires 0 <= i < |kids| => Member(v.members[i].key, kids[i])))
  }

  /** What serde_json guarantees of a map: no key occurs twice, at any level. */
  ghost predicate WellFormed(v: Value)
    decreases v
  {
    && DistinctKeys(v)
    && forall i :: 0 <= i < Count(v) ==> WellFormed(Kid(v, i))
  }

  ghost predicate DistinctKeys(v: Value) {
    v.Obj? ==> forall i, j :: 0 <= i < j < |v.members| ==> v.members[i].key != v.members[j].key
  }

  // Decimal numerals of array indices

  function Digit(d: nat): char
    requires d < 10
  {
    '0' + d as char
  }

  function Decimal(n: nat): string {
    if n < 10 then [Digit(n)] else Decimal(n / 10) + [Digit(n % 10)]
  }

  predicate IsDigit(c: char) { '0' <= c <= '9' }

  predicate AllDigits(s: string) { forall i :: 0 <= i < |s| ==> IsDigit(s[i]) }

  function Numeral(s: string): nat
    requires AllDigits(s)
  {
    if s == "" then 0 else 10 * Numeral(s[..|s| - 1]) + (s[|s| - 1] - '0') as nat
  }

  /** serde_json's `parse_index`: no sign, no leading zero, digits only. */
  function ParseIndex(s: string): Option<nat> {
    if s == "" || s[0] == '+' || (s[0] == '0' && |s| != 1) then None
    else if AllDigits(s) then Some(Numeral(s))
    else None
  }

  lemma {:induction false} DecimalIsNumeral(n: nat)
    ensures |Decimal(n)| >= 1 && AllDigits(Decimal(n)) && Numeral(Decimal(n)) == n
    ensures Decimal(n)[0] == '0' ==> n == 0
    ensures n < 10 <==> |Decimal(n)| == 1
  {
    if n < 10 {
      assert Decimal(n)[..0] == "";
    } else {
      DecimalIsNumeral(n / 10);
      var d := Decimal(n);
      assert d[..|d| - 1] == Decimal(n / 10);
      assert d[0] == Decimal(n / 10)[0];
    }
  }

  /** A formatted array index reads back as itself. */
  lemma ParseIndexDecimal(n: nat)
    ensures ParseIndex(Decimal(n)) == Some(n)
  {
    DecimalIsNumeral(n);
  }

  // Looking a reference token up in a node

  function IndexOfKey(members: seq<Member>, key: string): Option<nat> {
    if members == [] then None
    else if members[0].key == key then Some(0)
    else
      match IndexOfKey(members[1..], key)
      case None => None
      case Some(i) => Some(i + 1)
  }

  function FindChild(v: Value, token: string): (r: Option<nat>)
    ensures r.Some? ==> r.value < Count(v)
  {
    match v
    case Obj(members) => IndexOfKeyInRange(members, token); IndexOfKey(members, token)
    case Arr(items) =>
      (match ParseIndex(token)
       case Some(i) => if i < |items| then Some(i) else None
       case None => None)
    case _ => None
  }

  lemma {:induction false} IndexOfKeyInRange(members: seq<Member>, key: string)
    ensures var r := IndexOfKey(members, key);
      r.Some? ==> r.value < |members| && members[r.value].key == key
  {
    if members != [] && members[0].key != key {
      IndexOfKeyInRange(members[1..], key);
    }
  }

  lemma {:induction false} IndexOfKeyFinds(members: seq<Member>, i: nat)
    requires i < |members|
    requires forall a, b :: 0 <= a < b < |members| ==> members[a].key != members[b].key
    ensures IndexOfKey(members, members[i].key) == Some(i)
  {
    if i > 0 {
      assert members[1..][i - 1] == members[i];
      IndexOfKeyFinds(members[1..], i - 1);
    }
  }

  /** A child's own token leads back to that child. */
  lemma FindChildByToken(v: Value, i: nat)
    requires DistinctKeys(v) && i < Count(v)
    ensures FindChild(v, Token(v, i)) == Some(i)
  {
    if v.Arr? {
      ParseIndexDecimal(i);
    } else {
      IndexOfKeyFinds(v.members, i);
    }
  }

  // Resolving a list of reference tokens

  function Resolve(v: Value, path: seq<string>): Option<Value> {
    if path == [] then Some(v)
    else
      match FindChild(v, path[0])
      case None => None
      case Some(i) => Resolve(Kid(v, i), path[1..])
  }

  function Assign(v: Value, path: seq<string>, x: Value): Option<Value> {
    if path == [] then Some(x)
    else
      match FindChild(v, path[0])
      case None => None
      case Some(i) =>
        match Assign(Kid(v, i), path[1..], x)
        case None => None
        case Some(kid) => Some(WithKid(v, i, kid))
  }

  // Looking up and assigning

  lemma {:induction false} DecimalOfNumeral(s: string)
    requires s != "" && AllDigits(s) && (|s| == 1 || s[0] != '0')
    ensures Decimal(Numeral(s)) == s && (Numeral(s) == 0 ==> s == "0")
  {
    var init, last := s[..|s| - 1], s[|s| - 1];
    assert s == init + [last];
    if init == "" {
      assert Numeral(s) == (last - '0') as nat;
    } else {
      DecimalOfNumeral(init);
      assert init[0] == s[0];
      assert Numeral(s) / 10 == Numeral(init) && Numeral(s) % 10 == (last - '0') as nat;
    }
  }

  /** Only a plain decimal, without sign or leading zeros, is an index, and of one item. */
  lemma IndexIffDecimal(s: string, n: nat)
    ensures ParseIndex(s) == Some(n) <==> s == Decimal(n)
  {
    ParseIndexDecimal(n);
    if ParseIndex(s) == Some(n) {
      DecimalOfNumeral(s);
    }
  }

  lemma DifferentTokensDifferentChildren(v: Value, a: string, b: string)
    requires a != b && FindChild(v, a).Some? && FindChild(v, b).Some?
    ensures FindChild(v, a) != FindChild(v, b)
  {
    if v.Obj? {
      IndexOfKeyInRange(v.members, a);
      IndexOfKeyInRange(v.members, b);
    } else {
      IndexIffDecimal(a, FindChild(v, a).value);
      IndexIffDecimal(b, FindChild(v, a).value);
    }
  }

  lemma {:induction false} SameKeysSameIndex(a: seq<Member>, b: seq<Member>, key: string)
    requires |a| == |b| && forall i :: 0 <= i < |a| ==> a[i].key == b[i].key
    ensures IndexOfKey(a, key) == IndexOfKey(b, key)
  {
    if a != [] {
      SameKeysSameIndex(a[1..], b[1..], key);
    }
  }

  lemma ChildrenStayInPlace(v: Value, i: nat, x: Value, token: string)
    requires i < Count(v)
    ensures FindChild(WithKid(v, i, x), token) == FindChild(v, token)
    ensures Count(WithKid(v, i, x)) == Count(v)
    ensures forall j :: 0 <= j < Count(v) ==> Kid(WithKid(v, i, x), j) == if j == i then x else Kid(v, j)
  {
    if v.Obj? {
      SameKeysSameIndex(v.members, WithKid(v, i, x).members, token);
    }
  }

  /** The two paths part: neither leads to the other's node or below it. */
  predicate Part(p: seq<string>, q: seq<string>) {
    p != [] && q != [] && (p[0] != q[0] || Part(p[1..], q[1..]))
  }

  /** What was assigned is found again. */
  lemma {:induction false} AssignedIsFound(v: Value, p: seq<string>, x: Value)
    requires Assign(v, p, x).Some?
    ensures Resolve(Assign(v, p, x).value, p) == Some(x)
    decreases |p|
  {
    if p != [] {
      var i := FindChild(v, p[0]).value;
      AssignedIsFound(Kid(v, i), p[1..], x);
      ChildrenStayInPlace(v, i, Assign(Kid(v, i), p[1..], x).value, p[0]);
    }
  }

  /** Whatever is not on the way stays as it is, and stays where it is. */
  lemma {:induction false} AssignLeavesTheRest(v: Value, p: seq<string>, x: Value, q: seq<string>)
    requires Assign(v, p, x).Some? && Part(p, q)
    ensures Resolve(Assign(v, p, x).value, q) == Resolve(v, q)
    decreases |p|
  {
    var i := FindChild(v, p[0]).value;
    var kid := Assign(Kid(v, i), p[1..], x).value;
    ChildrenStayInPlace(v, i, kid, q[0]);
    if p[0] == q[0] {
      AssignLeavesTheRest(Kid(v, i), p[1..], x, q[1..]);
    } else if FindChild(v, q[0]).Some? {
      DifferentTokensDifferentChildren(v, p[0], q[0]);
    }
  }
}
