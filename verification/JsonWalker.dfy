/**
  The JSON walker: expand stringified JSON in place, render the string leaves to
  one text, then route spans back to the leaves and serialize.

  First come functions that say, node by node, what each phase produces; they
  recurse on the tree and never mention a pointer. The class and the methods at
  the end are the program: they work through pointer strings, byte offsets and
  one global list of markers.
 */
module JsonWalker {
  import opened Common
  import opened Json
  import opened JsonPointer
  import opened Spans
  import opened Redaction

  const MAX_RECURSION_DEPTH: nat := 8
  const LEAF_SEPARATOR := "\n\n"

  /** serde_json as a pair of functions; `skip` is the caller's `skip_keys`. */
  datatype Config = Config(
    parse: string -> Option<Value>,
    ser: Value -> string,
    skip: set<string>)

  /** A parsed tree never holds the same key twice in one object. */
  ghost predicate ParsesWellFormed(cfg: Config) {
    forall s :: cfg.parse(s).Some? ==> WellFormed(cfg.parse(s).value)
  }

  // ---- node by node --------------------------------------------------------

  function Fuel(depth: nat): nat {
    if depth < MAX_RECURSION_DEPTH then MAX_RECURSION_DEPTH - depth else 0
  }

  /** The tree a string leaf is replaced by, if it is stringified JSON. */
  function Expansion(cfg: Config, s: string, depth: nat): (r: Option<Value>)
    ensures r.Some? ==> depth < MAX_RECURSION_DEPTH && IsContainer(r.value)
  {
    if depth < MAX_RECURSION_DEPTH then
      match cfg.parse(s)
      case Some(v) => if IsContainer(v) then Some(v) else None
      case None => None
    else None
  }

  predicate Skipped(cfg: Config, v: Value, i: nat)
    requires i < Count(v)
  {
    v.Obj? && v.members[i].key in cfg.skip
  }

  /** The key a child is rendered under: its own, or the one its array inherited. */
  function KidKey(v: Value, i: nat, key: Option<string>): Option<string>
    requires i < Count(v)
  {
    if v.Obj? then Some(v.members[i].key) else key
  }

  function KeyPrefix(key: Option<string>): string {
    match key
    case Some(k) => k + ": "
    case None => ""
  }

  /** The walked tree. */
  function Expand(cfg: Config, v: Value, depth: nat): Value
    decreases Fuel(depth), v
  {
    match v
    case Str(s) =>
      (match Expansion(cfg, s, depth)
       case Some(p) => Expand(cfg, p, depth + 1)
       case None => v)
    case Arr(items) => Arr(seq(|items|, i requires 0 <= i < |items| => Expand(cfg, items[i], depth)))
    case Obj(members) =>
      Obj(seq(|members|, i requires 0 <= i < |members| =>
        Member(members[i].key,
               if members[i].key in cfg.skip then members[i].value
               else Expand(cfg, members[i].value, depth))))
    case _ => v
  }

  /** What a node adds to the rendered document. */
  function Text(cfg: Config, v: Value, key: Option<string>, depth: nat): string
    decreases Fuel(depth), v, 1, 0
  {
    match v
    case Str(s) =>
      (match Expansion(cfg, s, depth)
       case Some(p) => Text(cfg, p, key, depth + 1)
       case None => if s == "" then "" else KeyPrefix(key) + s + LEAF_SEPARATOR)
    case _ => TextOfKids(cfg, v, key, depth, Count(v))
  }

  /** What the first `n` children of a node add. */
  function TextOfKids(cfg: Config, v: Value, key: Option<string>, depth: nat, n: nat): string
    requires n <= Count(v)
    decreases Fuel(depth), v, 0, n
  {
    if n == 0 then ""
    else
      TextOfKids(cfg, v, key, depth, n - 1) +
      if Skipped(cfg, v, n - 1) then "" else Text(cfg, Kid(v, n - 1), KidKey(v, n - 1, key), depth)
  }

  /** A string leaf: where it is in the walked tree, and where its bytes are in the document. */
  datatype Leaf = Leaf(path: Path, original: string, start: nat, end: nat)

  function Under(token: string, leaves: seq<Leaf>): seq<Leaf> {
    seq(|leaves|, i requires 0 <= i < |leaves| => leaves[i].(path := [token] + leaves[i].path))
  }

  /** The leaves of a node whose text starts at byte `off` of the document, in render order. */
  function Leaves(cfg: Config, v: Value, key: Option<string>, depth: nat, off: nat): seq<Leaf>
    decreases Fuel(depth), v, 1, 0
  {
    match v
    case Str(s) =>
      (match Expansion(cfg, s, depth)
       case Some(p) => Leaves(cfg, p, key, depth + 1, off)
       case None =>
         var start := off + |KeyPrefix(key)|;
         if s == "" then [] else [Leaf([], s, start, start + |s|)])
    case _ => LeavesOfKids(cfg, v, key, depth, off, Count(v))
  }

  function LeavesOfKids(cfg: Config, v: Value, key: Option<string>, depth: nat, off: nat, n: nat): seq<Leaf>
    requires n <= Count(v)
    decreases Fuel(depth), v, 0, n
  {
    if n == 0 then []
    else
      LeavesOfKids(cfg, v, key, depth, off, n - 1) +
      if Skipped(cfg, v, n - 1) then []
      else Under(Token(v, n - 1),
                 Leaves(cfg, Kid(v, n - 1), KidKey(v, n - 1, key), depth, KidOffset(cfg, v, key, depth, off, n - 1)))
  }

  function KidOffset(cfg: Config, v: Value, key: Option<string>, depth: nat, off: nat, i: nat): nat
    requires i <= Count(v)
    decreases Fuel(depth), v, 0, i, 1
  {
    off + |TextOfKids(cfg, v, key, depth, i)|
  }

  function PathsUnder(token: string, paths: seq<Path>): seq<Path> {
    seq(|paths|, i requires 0 <= i < |paths| => [token] + paths[i])
  }

  /** Paths in the walked tree where stringified JSON was expanded, in walk order. */
  function Markers(cfg: Config, v: Value, depth: nat): seq<Path>
    decreases Fuel(depth), v, 1, 0
  {
    match v
    case Str(s) =>
      (match Expansion(cfg, s, depth)
       case Some(p) => [[]] + Markers(cfg, p, depth + 1)
       case None => [])
    case _ => MarkersOfKids(cfg, v, depth, Count(v))
  }

  function MarkersOfKids(cfg: Config, v: Value, depth: nat, n: nat): seq<Path>
    requires n <= Count(v)
    decreases Fuel(depth), v, 0, n
  {
    if n == 0 then []
    else
      MarkersOfKids(cfg, v, depth, n - 1) +
      if Skipped(cfg, v, n - 1) then []
      else PathsUnder(Token(v, n - 1), Markers(cfg, Kid(v, n - 1), depth))
  }

  /** The parts of `spans` inside bytes [start, end), relative to `start`. */
  function Clip(spans: seq<Span>, start: nat, end: nat): seq<Span> {
    if spans == [] then []
    else
      var rest := Clip(spans[..|spans| - 1], start, end);
      var s := Last(spans);
      var from, to := Max(s.start, start), Min(s.end, end);
      if from < to then rest + [Span(from - start, to - start, s.category)] else rest
  }

  /** The text a leaf is rewritten to, if at all, given where its bytes start and what it holds. */
  type LeafRewrite = (nat, string) -> Option<string>

  /**
    The reference redactor: one recursive pass that returns the node redacted,
    with expanded strings already serialized again. `off` is the byte of the
    document at which the node's text starts.
   */
  function Redact(cfg: Config, v: Value, key: Option<string>, depth: nat, off: nat, rewrite: LeafRewrite): Value
    decreases Fuel(depth), v
  {
    match v
    case Str(s) =>
      (match Expansion(cfg, s, depth)
       case Some(p) => Str(cfg.ser(Redact(cfg, p, key, depth + 1, off, rewrite)))
       case None =>
         if s == "" then v
         else
           match rewrite(off + |KeyPrefix(key)|, s)
           case Some(t) => Str(t)
           case None => v)
    case Arr(items) =>
      Arr(seq(|items|, i requires 0 <= i < |items| =>
        Redact(cfg, items[i], key, depth, KidOffset(cfg, v, key, depth, off, i), rewrite)))
    case Obj(members) =>
      Obj(seq(|members|, i requires 0 <= i < |members| =>
        Member(members[i].key,
               if members[i].key in cfg.skip then members[i].value
               else Redact(cfg, members[i].value, Some(members[i].key), depth,
                           KidOffset(cfg, v, key, depth, off, i), rewrite))))
    case _ => v
  }

  /** The rewrite that detected spans call for: a leaf no span overlaps is left alone. */
  function SpanRewrite(spans: seq<Span>, ph: string -> string): LeafRewrite {
    (start: nat, s: string) =>
      var clipped := Clip(spans, start, start + |s|);
      if clipped == [] then None else Some(RedactString(s, clipped, ph))
  }

  /** The redacted document of a parsed input. */
  function RedactDocument(cfg: Config, v: Value, spans: seq<Span>, ph: string -> string): string {
    cfg.ser(Redact(cfg, v, None, 0, 0, SpanRewrite(spans, ph)))
  }

  /** The document handed to the model: the root's text without its trailing separator. */
  function Trimmed(text: string): string {
    if |text| >= 2 && text[|text| - 2..] == LEAF_SEPARATOR then text[..|text| - 2] else text
  }

  // ---- the program ---------------------------------------------------------

  datatype LeafRef = LeafRef(pointer: string, original: string, valueStart: nat, valueEnd: nat)

  datatype Marker = Marker(pointer: string, depth: nat)

  datatype WalkedJson = WalkedJson(tree: Value, leaves: seq<LeafRef>, rendered: string, markers: seq<Marker>)

  datatype WalkError = InvalidJson | LeafPointerInvalid(pointer: string) | MarkerPointerInvalid(marker: string)

  function LeafRefs(base: string, leaves: seq<Leaf>): seq<LeafRef> {
    seq(|leaves|, i requires 0 <= i < |leaves| =>
      LeafRef(base + Encode(leaves[i].path), leaves[i].original, leaves[i].start, leaves[i].end))
  }

  function MarkerRefs(base: string, paths: seq<Path>): seq<Marker> {
    seq(|paths|, i requires 0 <= i < |paths| =>
      Marker(base + Encode(paths[i]), Slashes(base + Encode(paths[i]))))
  }

  lemma RefsUnder(base: string, token: string, leaves: seq<Leaf>, paths: seq<Path>)
    ensures LeafRefs(base, Under(token, leaves)) == LeafRefs(base + "/" + EscapeToken(token), leaves)
    ensures MarkerRefs(base, PathsUnder(token, paths)) == MarkerRefs(base + "/" + EscapeToken(token), paths)
  {
    var child := base + "/" + EscapeToken(token);
    forall p: Path
      ensures base + Encode([token] + p) == child + Encode(p)
    {
      EncodeCons(token, p);
      assert base + ("/" + EscapeToken(token) + Encode(p)) == child + Encode(p);
    }
  }

  lemma RefsAppend(base: string, a: seq<Leaf>, b: seq<Leaf>, p: seq<Path>, q: seq<Path>)
    ensures LeafRefs(base, a + b) == LeafRefs(base, a) + LeafRefs(base, b)
    ensures MarkerRefs(base, p + q) == MarkerRefs(base, p) + MarkerRefs(base, q)
  {
  }

  /** The three accumulators `walk` appends to, as a value. */
  datatype Acc = Acc(rendered: string, leaves: seq<LeafRef>, markers: seq<Marker>)

  /** What walking `value` does to the accumulators. */
  ghost predicate Appended(cfg: Config, a: Acc, b: Acc, value: Value, pointer: string,
                           key: Option<string>, depth: nat) {
    && b.rendered == a.rendered + Text(cfg, value, key, depth)
    && b.leaves == a.leaves + LeafRefs(pointer, Leaves(cfg, value, key, depth, |a.rendered|))
    && b.markers == a.markers + MarkerRefs(pointer, Markers(cfg, value, depth))
  }

  /** The same, after the first `n` children of `value`. */
  ghost predicate AppendedKids(cfg: Config, a: Acc, b: Acc, value: Value, pointer: string,
                               key: Option<string>, depth: nat, n: nat)
    requires n <= Count(value)
  {
    && b.rendered == a.rendered + TextOfKids(cfg, value, key, depth, n)
    && b.leaves == a.leaves + LeafRefs(pointer, LeavesOfKids(cfg, value, key, depth, |a.rendered|, n))
    && b.markers == a.markers + MarkerRefs(pointer, MarkersOfKids(cfg, value, depth, n))
  }

  lemma KidSkipped(cfg: Config, a: Acc, b: Acc, value: Value, pointer: string,
                   key: Option<string>, depth: nat, i: nat)
    requires i < Count(value) && Skipped(cfg, value, i)
    requires AppendedKids(cfg, a, b, value, pointer, key, depth, i)
    ensures AppendedKids(cfg, a, b, value, pointer, key, depth, i + 1)
  {
  }

  lemma LeavesOfNextKid(cfg: Config, value: Value, pointer: string, key: Option<string>, depth: nat, off: nat, i: nat)
    requires i < Count(value) && !Skipped(cfg, value, i)
    ensures LeafRefs(pointer, LeavesOfKids(cfg, value, key, depth, off, i + 1))
         == LeafRefs(pointer, LeavesOfKids(cfg, value, key, depth, off, i))
          + LeafRefs(pointer + "/" + EscapeToken(Token(value, i)),
                     Leaves(cfg, Kid(value, i), KidKey(value, i, key), depth,
                         KidOffset(cfg, value, key, depth, off, i)))
  {
    var token := Token(value, i);
    var ls := Leaves(cfg, Kid(value, i), KidKey(value, i, key), depth, KidOffset(cfg, value, key, depth, off, i));
    RefsUnder(pointer, token, ls, []);
    RefsAppend(pointer, LeavesOfKids(cfg, value, key, depth, off, i), Under(token, ls), [], []);
  }

  lemma MarkersOfNextKid(cfg: Config, value: Value, pointer: string, depth: nat, i: nat)
    requires i < Count(value) && !Skipped(cfg, value, i)
    ensures MarkerRefs(pointer, MarkersOfKids(cfg, value, depth, i + 1))
         == MarkerRefs(pointer, MarkersOfKids(cfg, value, depth, i))
          + MarkerRefs(pointer + "/" + EscapeToken(Token(value, i)), Markers(cfg, Kid(value, i), depth))
  {
    var token := Token(value, i);
    var ms := Markers(cfg, Kid(value, i), depth);
    RefsUnder(pointer, token, [], ms);
    RefsAppend(pointer, [], [], MarkersOfKids(cfg, value, depth, i), PathsUnder(token, ms));
  }

  /** Walking child `i` under its own pointer extends what its parent has appended so far. */
  lemma KidWalked(cfg: Config, a: Acc, b: Acc, c: Acc, value: Value, pointer: string,
                  key: Option<string>, depth: nat, i: nat)
    requires i < Count(value) && !Skipped(cfg, value, i)
    requires AppendedKids(cfg, a, b, value, pointer, key, depth, i)
    requires Appended(cfg, b, c, Kid(value, i), pointer + "/" + EscapeToken(Token(value, i)),
                      KidKey(value, i, key), depth)
    ensures AppendedKids(cfg, a, c, value, pointer, key, depth, i + 1)
  {
    var off := |a.rendered|;
    LeavesOfNextKid(cfg, value, pointer, key, depth, off, i);
    MarkersOfNextKid(cfg, value, pointer, depth, i);
    var child := pointer + "/" + EscapeToken(Token(value, i));
    Associate(a.rendered, TextOfKids(cfg, value, key, depth, i),
        Text(cfg, Kid(value, i), KidKey(value, i, key), depth));
    Associate(a.leaves, LeafRefs(pointer, LeavesOfKids(cfg, value, key, depth, off, i)),
                LeafRefs(child, Leaves(cfg, Kid(value, i), KidKey(value, i, key), depth, |b.rendered|)));
    Associate(a.markers, MarkerRefs(pointer, MarkersOfKids(cfg, value, depth, i)),
                MarkerRefs(child, Markers(cfg, Kid(value, i), depth)));
  }

  function ExpandedKid(cfg: Config, v: Value, i: nat, depth: nat): Value
    requires i < Count(v)
  {
    if Skipped(cfg, v, i) then Kid(v, i) else Expand(cfg, Kid(v, i), depth)
  }

  lemma ExpandKids(cfg: Config, v: Value, depth: nat, kids: seq<Value>)
    requires IsContainer(v) && |kids| == Count(v)
    requires forall i :: 0 <= i < Count(v) ==> kids[i] == ExpandedKid(cfg, v, i, depth)
    ensures Expand(cfg, v, depth) == WithKids(v, kids)
  {
    if v.Obj? {
      var e := Expand(cfg, v, depth);
      assert forall i :: 0 <= i < |kids| ==> e.members[i] == WithKids(v, kids).members[i];
      assert e.members == WithKids(v, kids).members;
    } else {
      assert Expand(cfg, v, depth).items == kids;
    }
  }

  class Walker {
    const cfg: Config
    var leaves: seq<LeafRef>
    var rendered: string
    var markers: seq<Marker>

    constructor (cfg: Config)
      ensures this.cfg == cfg && leaves == [] && rendered == "" && markers == []
    {
      this.cfg := cfg;
      leaves, rendered, markers := [], "", [];
    }

    ghost function Accumulated(): Acc
      reads this
    {
      Acc(rendered, leaves, markers)
    }

    /** `walk`: returns the replaced value and appends to the accumulators. */
    method Walk(value: Value, pointer: string, parentKey: Option<string>, depth: nat) returns (walked: Value)
      modifies this
      ensures walked == Expand(cfg, value, depth)
      ensures Appended(cfg, old(Accumulated()), Accumulated(), value, pointer, parentKey, depth)
      decreases Fuel(depth), value, 1
    {
      match value
      case Obj(_) => walked := WalkMembers(value, pointer, parentKey, depth);
      case Arr(_) => walked := WalkItems(value, pointer, parentKey, depth);
      case Str(_) => walked := WalkString(value, pointer, parentKey, depth);
      case _ => walked := value;
    }

    method WalkMembers(value: Value, pointer: string, parentKey: Option<string>, depth: nat) returns (walked: Value)
      requires value.Obj?
      modifies this
      ensures walked == Expand(cfg, value, depth)
      ensures Appended(cfg, old(Accumulated()), Accumulated(), value, pointer, parentKey, depth)
      decreases Fuel(depth), value, 0
    {
      var members := value.members;
      var kids: seq<Value> := [];
      for i := 0 to |members|
        invariant |kids| == i
        invariant forall j :: 0 <= j < i ==> kids[j] == ExpandedKid(cfg, value, j, depth)
        invariant AppendedKids(cfg, old(Accumulated()), Accumulated(), value, pointer, parentKey, depth, i)
      {
        var k := members[i].key;
        if k in cfg.skip {
          kids := kids + [members[i].value];
          KidSkipped(cfg, old(Accumulated()), Accumulated(), value, pointer, parentKey, depth, i);
          continue;
        }
        ghost var before := Accumulated();
        var kid := Walk(members[i].value, pointer + "/" + EscapeToken(k), Some(k), depth);
        kids := kids + [kid];
        KidWalked(cfg, old(Accumulated()), before, Accumulated(), value, pointer, parentKey, depth, i);
      }
      ExpandKids(cfg, value, depth, kids);
      walked := WithKids(value, kids);
    }

    method WalkItems(value: Value, pointer: string, parentKey: Option<string>, depth: nat) returns (walked: Value)
      requires value.Arr?
      modifies this
      ensures walked == Expand(cfg, value, depth)
      ensures Appended(cfg, old(Accumulated()), Accumulated(), value, pointer, parentKey, depth)
      decreases Fuel(depth), value, 0
    {
      var items := value.items;
      var kids: seq<Value> := [];
      for i := 0 to |items|
        invariant |kids| == i
        invariant forall j :: 0 <= j < i ==> kids[j] == ExpandedKid(cfg, value, j, depth)
        invariant AppendedKids(cfg, old(Accumulated()), Accumulated(), value, pointer, parentKey, depth, i)
      {
        EscapeDecimal(i);
        ghost var before := Accumulated();
        var kid := Walk(items[i], pointer + "/" + Decimal(i), parentKey, depth);
        kids := kids + [kid];
        KidWalked(cfg, old(Accumulated()), before, Accumulated(), value, pointer, parentKey, depth, i);
      }
      ExpandKids(cfg, value, depth, kids);
      walked := WithKids(value, kids);
    }

    method WalkString(value: Value, pointer: string, parentKey: Option<string>, depth: nat) returns (walked: Value)
      requires value.Str?
      modifies this
      ensures walked == Expand(cfg, value, depth)
      ensures Appended(cfg, old(Accumulated()), Accumulated(), value, pointer, parentKey, depth)
      decreases Fuel(depth), value, 0
    {
      var s := value.text;
      walked := value;
      assert pointer + Encode([]) == pointer;
      if depth < MAX_RECURSION_DEPTH {
        var parsed := cfg.parse(s);
        if parsed.Some? && IsContainer(parsed.value) {
          markers := markers + [Marker(pointer, Slashes(pointer))];
          RefsAppend(pointer, [], [], [[]], Markers(cfg, parsed.value, depth + 1));
          walked := Walk(parsed.value, pointer, parentKey, depth + 1);
          return;
        }
      }
      if s == "" {
        return;
      }
      if parentKey.Some? {
        rendered := rendered + parentKey.value;
        rendered := rendered + ": ";
      }
      var valueStart := |rendered|;
      rendered := rendered + s;
      var valueEnd := |rendered|;
      leaves := leaves + [LeafRef(pointer, s, valueStart, valueEnd)];
      rendered := rendered + LEAF_SEPARATOR;
    }
  }

  /** `walk_and_render`. */
  method WalkAndRender(cfg: Config, input: string) returns (r: Result<WalkedJson, WalkError>)
    ensures r.Ok? <==> cfg.parse(input).Some?
    ensures r.Err? ==> r.error == InvalidJson
    ensures r.Ok? ==>
      var v := cfg.parse(input).value;
      r.value == WalkedJson(
        Expand(cfg, v, 0),
        LeafRefs("", Leaves(cfg, v, None, 0, 0)),
        Trimmed(Text(cfg, v, None, 0)),
        MarkerRefs("", Markers(cfg, v, 0)))
  {
    var parsed := cfg.parse(input);
    if parsed.None? {
      return Err(InvalidJson);
    }
    var w := new Walker(cfg);
    var tree := w.Walk(parsed.value, "", None, 0);
    assert w.rendered == Text(cfg, parsed.value, None, 0);
    assert w.leaves == LeafRefs("", Leaves(cfg, parsed.value, None, 0, 0));
    var rendered := w.rendered;
    if |rendered| >= 2 && rendered[|rendered| - 2..] == LEAF_SEPARATOR {
      rendered := rendered[..|rendered| - 2];
    }
    return Ok(WalkedJson(tree, w.leaves, rendered, w.markers));
  }
}
