/**
  JSON Pointers as strings: what the walker writes and what serde_json's
  `pointer_mut` reads, following sections 3 and 4 of RFC 6901.
 */
module JsonPointer {
  import opened Common
  import opened Json

  function ReplaceChar(s: string, c: char, with: string): string {
    if s == "" then "" else (if s[0] == c then with else [s[0]]) + ReplaceChar(s[1..], c, with)
  }

  /** Leftmost, non-overlapping replacement of the two-character pattern `ab`. */
  function ReplacePair(s: string, a: char, b: char, with: char): string {
    if s == "" then ""
    else if |s| >= 2 && s[0] == a && s[1] == b then [with] + ReplacePair(s[2..], a, b, with)
    else [s[0]] + ReplacePair(s[1..], a, b, with)
  }

  function EscapeToken(s: string): string {
    ReplaceChar(ReplaceChar(s, '~', "~0"), '/', "~1")
  }

  function UnescapeToken(s: string): string {
    ReplacePair(ReplacePair(s, '~', '1', '/'), '~', '0', '~')
  }

  lemma {:induction false} ReplaceCharAppend(s: string, t: string, c: char, with: string)
    ensures ReplaceChar(s + t, c, with) == ReplaceChar(s, c, with) + ReplaceChar(t, c, with)
  {
    if s == "" {
      assert s + t == t;
    } else {
      ReplaceCharAppend(s[1..], t, c, with);
      assert (s + t)[0] == s[0] && (s + t)[1..] == s[1..] + t;
      Associate(if s[0] == c then with else [s[0]], ReplaceChar(s[1..], c, with), ReplaceChar(t, c, with));
    }
  }

  function EscapedChar(c: char): string {
    if c == '~' then "~0" else if c == '/' then "~1" else [c]
  }

  lemma EscapeUnfold(s: string)
    requires s != ""
    ensures EscapeToken(s) == EscapedChar(s[0]) + EscapeToken(s[1..])
  {
    var head := if s[0] == '~' then "~0" else [s[0]];
    ReplaceCharAppend(head, ReplaceChar(s[1..], '~', "~0"), '/', "~1");
    assert ReplaceChar("~0", '/', "~1") == "~0" by {
      assert "~0"[1..] == "0";
    }
    assert ReplaceChar([s[0]], '/', "~1") == if s[0] == '/' then "~1" else [s[0]] by {
      assert [s[0]][1..] == "";
      assert "~1" + "" == "~1";
    }
  }

  lemma PairMiss(c: char, d: char, s: string, a: char, b: char, with: char)
    requires c != a
    ensures ReplacePair([c] + s, a, b, with) == [c] + ReplacePair(s, a, b, with)
    ensures d != b ==> ReplacePair([a, d] + s, a, b, with) == [a] + ReplacePair([d] + s, a, b, with)
  {
    assert ([c] + s)[1..] == s;
    assert ([a, d] + s)[1..] == [d] + s;
  }

  lemma PairHit(s: string, a: char, b: char, with: char)
    ensures ReplacePair([a, b] + s, a, b, with) == [with] + ReplacePair(s, a, b, with)
  {
    assert ([a, b] + s)[2..] == s;
  }

  /** Undoing `~1` leaves exactly the first half of the escaping in place. */
  lemma {:induction false} UnescapeSlashes(s: string)
    ensures ReplacePair(EscapeToken(s), '~', '1', '/') == ReplaceChar(s, '~', "~0")
  {
    if s != "" {
      EscapeUnfold(s);
      UnescapeSlashes(s[1..]);
      var rest := EscapeToken(s[1..]);
      if s[0] == '~' {
        PairMiss('0', '0', rest, '~', '1', '/');
        assert "~0" + rest == ['~', '0'] + rest;
      } else if s[0] == '/' {
        PairHit(rest, '~', '1', '/');
      } else {
        PairMiss(s[0], '0', rest, '~', '1', '/');
      }
    }
  }

  lemma {:induction false} UnescapeTildes(s: string)
    ensures ReplacePair(ReplaceChar(s, '~', "~0"), '~', '0', '~') == s
  {
    if s != "" {
      UnescapeTildes(s[1..]);
      var e, rest := ReplaceChar(s, '~', "~0"), ReplaceChar(s[1..], '~', "~0");
      if s[0] == '~' {
        assert e[2..] == rest;
      } else {
        assert e[1..] == rest;
      }
    }
  }

  /** Evaluation of a reference token undoes the escaping, for every key. */
  lemma UnescapeEscape(s: string)
    ensures UnescapeToken(EscapeToken(s)) == s
  {
    UnescapeSlashes(s);
    UnescapeTildes(s);
  }

  lemma {:induction false} EscapeHasNoSlash(s: string)
    ensures '/' !in EscapeToken(s)
  {
    if s != "" {
      EscapeUnfold(s);
      EscapeHasNoSlash(s[1..]);
    }
  }

  lemma {:induction false} EscapeIsIdentity(s: string)
    requires '/' !in s && '~' !in s
    ensures EscapeToken(s) == s
  {
    if s != "" {
      EscapeUnfold(s);
      EscapeIsIdentity(s[1..]);
    }
  }

  /** The walker writes array indices without escaping; it makes no difference. */
  lemma EscapeDecimal(n: nat)
    ensures EscapeToken(Decimal(n)) == Decimal(n)
  {
    DecimalIsNumeral(n);
    EscapeIsIdentity(Decimal(n));
  }

  // Whole pointers

  type Path = seq<string>

  function Encode(path: Path): string {
    if path == [] then "" else "/" + EscapeToken(path[0]) + Encode(path[1..])
  }

  lemma EncodeCons(token: string, p: Path)
    ensures Encode([token] + p) == "/" + EscapeToken(token) + Encode(p)
  {
    assert ([token] + p)[1..] == p;
  }

  function Slashes(s: string): nat {
    if s == "" then 0 else (if s[0] == '/' then 1 else 0) + Slashes(s[1..])
  }

  lemma {:induction false} SlashesAppend(s: string, t: string)
    ensures Slashes(s + t) == Slashes(s) + Slashes(t)
  {
    if s == "" {
      assert s + t == t;
    } else {
      SlashesAppend(s[1..], t);
      assert (s + t)[1..] == s[1..] + t;
    }
  }

  lemma {:induction false} NoSlashes(s: string)
    requires '/' !in s
    ensures Slashes(s) == 0
  {
    if s != "" {
      NoSlashes(s[1..]);
    }
  }

  /** A marker's depth, counted in the string, is the length of its path. */
  lemma {:induction false} SlashesOfEncode(path: Path)
    ensures Slashes(Encode(path)) == |path|
  {
    if path != [] {
      var tok := EscapeToken(path[0]);
      SlashesOfEncode(path[1..]);
      EscapeHasNoSlash(path[0]);
      NoSlashes(tok);
      SlashesAppend("/" + tok, Encode(path[1..]));
      SlashesAppend("/", tok);
      assert Slashes("/") == 1 by { assert "/"[1..] == ""; }
    }
  }

  /** `str::split('/')`. */
  function Split(s: string): (r: seq<string>)
    ensures |r| >= 1
  {
    if s == "" then [""]
    else
      var r := Split(s[1..]);
      if s[0] == '/' then [""] + r else [[s[0]] + r[0]] + r[1..]
  }

  lemma {:induction false} SplitAtSlash(a: string, b: string)
    requires '/' !in a
    ensures Split(a) == [a]
    ensures Split(a + "/" + b) == [a] + Split(b)
  {
    var s := a + "/" + b;
    if a == "" {
      assert s[0] == '/' && s[1..] == b;
    } else {
      SplitAtSlash(a[1..], b);
      assert s[1..] == a[1..] + "/" + b;
      assert [a[0]] + a[1..] == a;
    }
  }

  function Unescaped(tokens: seq<string>): seq<string> {
    seq(|tokens|, i requires 0 <= i < |tokens| => UnescapeToken(tokens[i]))
  }

  /** The reference tokens `pointer_mut` walks, or None for a malformed pointer. */
  function Tokens(pointer: string): Option<Path> {
    if pointer == "" then Some([])
    else if pointer[0] != '/' then None
    else Some(Unescaped(Split(pointer[1..])))
  }

  function PointerResolve(tree: Value, pointer: string): Option<Value> {
    match Tokens(pointer)
    case None => None
    case Some(path) => Resolve(tree, path)
  }

  /** `*tree.pointer_mut(pointer)? = x`. */
  function PointerAssign(tree: Value, pointer: string, x: Value): Option<Value> {
    match Tokens(pointer)
    case None => None
    case Some(path) => Assign(tree, path, x)
  }

  lemma EncodeTail(path: Path)
    requires path != []
    ensures |path| == 1 ==> Encode(path)[1..] == EscapeToken(path[0])
    ensures |path| > 1 ==> Encode(path[1..]) != ""
    ensures |path| > 1 ==> Encode(path)[1..] == EscapeToken(path[0]) + "/" + Encode(path[1..])[1..]
  {
    var tok, rest := EscapeToken(path[0]), Encode(path[1..]);
    SlashedTail(tok, rest);
    if |path| > 1 {
      SlashedTail(EscapeToken(path[1]), Encode(path[2..]));
      assert path[1..][1..] == path[2..];
      assert rest == "/" + EscapeToken(path[1]) + Encode(path[2..]);
      SlashSplit(tok, rest);
    } else {
      assert rest == "" && tok + "" == tok;
    }
  }

  lemma SlashedTail(tok: string, rest: string)
    ensures ("/" + tok + rest)[1..] == tok + rest
  {
  }

  lemma SlashSplit(tok: string, rest: string)
    requires rest != "" && rest[0] == '/'
    ensures tok + rest == tok + "/" + rest[1..]
  {
  }

  lemma UnescapedCons(token: string, tokens: seq<string>)
    ensures Unescaped([token] + tokens) == [UnescapeToken(token)] + Unescaped(tokens)
  {
  }

  lemma {:induction false} SplitEncode(path: Path)
    requires path != []
    ensures Unescaped(Split(Encode(path)[1..])) == path
  {
    var tok := EscapeToken(path[0]);
    EscapeHasNoSlash(path[0]);
    UnescapeEscape(path[0]);
    EncodeTail(path);
    if |path| == 1 {
      SplitAtSlash(tok, "");
      UnescapedCons(tok, []);
    } else {
      var rest := Encode(path[1..])[1..];
      SplitEncode(path[1..]);
      SplitAtSlash(tok, rest);
      UnescapedCons(tok, Split(rest));
    }
  }

  /** Every pointer the walker builds is read back as the path it stands for. */
  lemma TokensOfEncode(path: Path)
    ensures Tokens(Encode(path)) == Some(path)
  {
    if path != [] {
      SplitEncode(path);
    }
  }

  /** Different paths never share a pointer string. */
  lemma EncodeInjective(p: Path, q: Path)
    requires Encode(p) == Encode(q)
    ensures p == q
  {
    TokensOfEncode(p);
    TokensOfEncode(q);
  }

  /** Section 3 of RFC 6901: `~` is written `~0`, `/` is written `~1`, and every other character as itself. */
  lemma EscapedCharacterByCharacter(before: string, c: char, after: string)
    ensures EscapeToken(before + [c] + after) ==
      EscapeToken(before) + (if c == '~' then "~0" else if c == '/' then "~1" else [c]) + EscapeToken(after)
    ensures EscapeToken("") == ""
  {
    EscapeAppend(before + [c], after);
    EscapeAppend(before, [c]);
    EscapeUnfold([c]);
    assert [c][1..] == "" && EscapedChar(c) + "" == EscapedChar(c);
  }

  lemma EscapeAppend(s: string, t: string)
    ensures EscapeToken(s + t) == EscapeToken(s) + EscapeToken(t)
  {
    ReplaceCharAppend(s, t, '~', "~0");
    ReplaceCharAppend(ReplaceChar(s, '~', "~0"), ReplaceChar(t, '~', "~0"), '/', "~1");
  }
}
