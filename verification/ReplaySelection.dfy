/** Which recorded responses a replay cache holds: selection and paging over a trace. */
module ReplaySelection {
  import opened Common
  import opened Json

  datatype SpanRow = SpanRow(
    spanId: string,
    input: string,
    rawResponse: string,
    genAiOutput: string,
    finishReason: string,
    finishReasons: string,
    model: string,
    output: string)

  datatype Response =
    | Raw(response: Value, finishReasons: Option<seq<string>>, model: Option<string>)
    | GenAi(messages: Value, finishReasons: Option<seq<string>>, model: Option<string>)

  /** Library functions: JSON parsing, trimming, the input hash and the serialized size. */
  datatype Env = Env(
    parse: string -> Option<Value>,
    trim: string -> string,
    inputHash: Value -> string,
    size: Response -> nat)

  function Strings(items: seq<Value>): seq<string> {
    if items == [] then []
    else (if items[0].Str? then [items[0].text] else []) + Strings(items[1..])
  }

  function ResolveFinishReasons(env: Env, row: SpanRow): Option<seq<string>> {
    var listed := if env.trim(row.finishReasons) == "" then None else env.parse(row.finishReasons);
    if listed.Some? && listed.value.Arr? && Strings(listed.value.items) != [] then Some(Strings(listed.value.items))
    else if env.trim(row.finishReason) != "" then
      match env.parse(row.finishReason)
      case Some(Str(s)) => Some([s])
      case _ => Some([env.trim(row.finishReason)])
    else None
  }

  function ResolveResponse(env: Env, row: SpanRow): Option<Response> {
    var reasons := ResolveFinishReasons(env, row);
    var model := if env.trim(row.model) == "" then None else Some(env.trim(row.model));
    var raw := if env.trim(row.rawResponse) == "" then None else env.parse(row.rawResponse);
    if raw.Some? then Some(Raw(raw.value, reasons, model))
    else
      var output := if env.trim(row.genAiOutput) != "" then env.trim(row.genAiOutput) else env.trim(row.output);
      if output == "" then None
      else
        match env.parse(output)
        case Some(messages) => Some(GenAi(messages, reasons, model))
        case None => None
  }

  // ---- the needle -------------------------------------------------------------

  function ToLower(c: char): char {
    if 'A' <= c <= 'Z' then (c - 'A') + 'a' else c
  }

  /** `normalize_needle`, on ASCII: drop hyphens, lower the rest. */
  function NormalizeNeedle(needle: string): string {
    if needle == "" then ""
    else (if needle[0] == '-' then "" else [ToLower(needle[0])]) + NormalizeNeedle(needle[1..])
  }

  predicate EndsWith(s: string, suffix: string) {
    |suffix| <= |s| && s[|s| - |suffix|..] == suffix
  }

  /** `spanId` is the span's 32 lower-case hex digits. */
  predicate MatchesNeedle(needle: string, spanId: string) {
    needle != "" && EndsWith(spanId, needle)
  }

  lemma {:induction false} NormalizeAppend(a: string, b: string)
    ensures NormalizeNeedle(a + b) == NormalizeNeedle(a) + NormalizeNeedle(b)
  {
    if a == "" {
      assert a + b == b;
    } else {
      NormalizeAppend(a[1..], b);
      assert (a + b)[0] == a[0] && (a + b)[1..] == a[1..] + b;
      Associate(if a[0] == '-' then "" else [ToLower(a[0])], NormalizeNeedle(a[1..]), NormalizeNeedle(b));
    }
  }

  /** Any tail of a span's id, hyphenated and cased in any way, selects that span once it has a digit in it. */
  lemma AnyTailOfTheIdMatches(spanId: string, written: string, cut: nat)
    requires NormalizeNeedle(written) == spanId && cut <= |written|
    requires NormalizeNeedle(written[cut..]) != ""
    ensures MatchesNeedle(NormalizeNeedle(written[cut..]), spanId)
  {
    assert written == written[..cut] + written[cut..];
    NormalizeAppend(written[..cut], written[cut..]);
    var a, b := NormalizeNeedle(written[..cut]), NormalizeNeedle(written[cut..]);
    assert spanId == a + b && spanId[|a|..] == b;
  }

  // ---- selection ----------------------------------------------------------------

  datatype Entry = Entry(hash: string, response: Response, bytes: nat)

  datatype Outcome = NeedleFound | CeilingHit | Exhausted

  /** The entry a row could become: it needs a parseable input and a resolvable response. */
  function Candidate(env: Env, row: SpanRow): Option<Entry> {
    match (env.parse(row.input), ResolveResponse(env, row))
    case (Some(input), Some(response)) => Some(Entry(env.inputHash(input), response, env.size(response)))
    case _ => None
  }

  function Candidates(env: Env, rows: seq<SpanRow>): seq<Option<Entry>> {
    seq(|rows|, i requires 0 <= i < |rows| => Candidate(env, rows[i]))
  }

  /** The parameters of a scan, with rows reduced to what it looks at. */
  datatype Scan = Scan(rows: seq<Option<Entry>>, matches: seq<bool>, maxSpans: nat, maxBytes: nat) {
    ghost predicate Valid() { |rows| == |matches| }

    /** Row `i` is the first with its input hash. */
    ghost predicate First(i: nat)
      requires i < |rows|
    {
      rows[i].Some? && forall j :: 0 <= j < i && rows[j].Some? ==> rows[j].value.hash != rows[i].value.hash
    }

    /** The first occurrences among the first `n` rows that fit the byte budget by themselves. */
    ghost function Kept(n: nat): seq<Entry>
      requires n <= |rows|
    {
      if n == 0 then []
      else if First(n - 1) && rows[n - 1].value.bytes <= maxBytes then Kept(n - 1) + [rows[n - 1].value]
      else Kept(n - 1)
    }

    /** Admitting row `i` would break a ceiling. */
    ghost predicate Ceiling(i: nat)
      requires i < |rows|
    {
      First(i) &&
      (|Kept(i)| >= maxSpans
       || (rows[i].value.bytes <= maxBytes && TotalBytes(Kept(i)) + rows[i].value.bytes > maxBytes))
    }

    /** The result of a scan that has passed the first `i` rows. */
    ghost function From(i: nat): (seq<Entry>, Outcome)
      requires Valid() && i <= |rows|
      decreases |rows| - i
    {
      if i == |rows| then (Kept(i), Exhausted)
      else if Ceiling(i) then (Kept(i), CeilingHit)
      else if matches[i] then (Kept(i + 1), NeedleFound)
      else From(i + 1)
    }
  }

  function TotalBytes(entries: seq<Entry>): nat {
    if entries == [] then 0 else TotalBytes(entries[..|entries| - 1]) + entries[|entries| - 1].bytes
  }

  function ScanOf(env: Env, rows: seq<SpanRow>, needle: string, maxSpans: nat, maxBytes: nat): (s: Scan)
    ensures s.Valid()
  {
    Scan(Candidates(env, rows),
         seq(|rows|, i requires 0 <= i < |rows| => MatchesNeedle(needle, rows[i].spanId)),
         maxSpans, maxBytes)
  }

  ghost function Select(env: Env, rows: seq<SpanRow>, needle: string, maxSpans: nat, maxBytes: nat)
    : (seq<Entry>, Outcome)
  {
    ScanOf(env, rows, needle, maxSpans, maxBytes).From(0)
  }

  ghost predicate SeenIs(s: Scan, i: nat, seen: set<string>)
    requires i <= |s.rows|
  {
    forall h :: h in seen <==> exists j :: 0 <= j < i && s.rows[j].Some? && s.rows[j].value.hash == h
  }

  ghost predicate ScanState(s: Scan, i: nat, entries: seq<Entry>, seen: set<string>, totalBytes: nat) {
    && i <= |s.rows| && SeenIs(s, i, seen)
    && entries == s.Kept(i) && totalBytes == TotalBytes(entries)
  }

  /** The part of the scan that admits a candidate; `full` means a ceiling was hit. */
  method Admit(entry: Entry, maxSpans: nat, maxBytes: nat, entries: seq<Entry>, seen: set<string>, totalBytes: nat,
               ghost s: Scan, ghost i: nat)
    returns (entries': seq<Entry>, seen': set<string>, totalBytes': nat, full: bool)
    requires s.Valid() && i < |s.rows| && s.rows[i] == Some(entry)
    requires maxSpans == s.maxSpans && maxBytes == s.maxBytes
    requires ScanState(s, i, entries, seen, totalBytes)
    ensures full <==> s.Ceiling(i)
    ensures full ==> entries' == s.Kept(i)
    ensures !full ==> ScanState(s, i + 1, entries', seen', totalBytes')
  {
    entries', seen', totalBytes', full := entries, seen, totalBytes, false;
    assert s.First(i) <==> entry.hash !in seen;
    if entry.hash !in seen {
      if |entries| >= maxSpans {
        full := true;
        return;
      }
      seen' := seen + {entry.hash};
      if entry.bytes <= maxBytes {
        if totalBytes + entry.bytes > maxBytes {
          full := true;
          return;
        }
        totalBytes' := totalBytes + entry.bytes;
        entries' := entries + [entry];
      }
    }
  }

  /** `select_entries`. */
  method SelectEntries(env: Env, rows: seq<SpanRow>, needle: string, maxSpans: nat, maxBytes: nat)
    returns (entries: seq<Entry>, outcome: Outcome)
    ensures (entries, outcome) == Select(env, rows, needle, maxSpans, maxBytes)
  {
    ghost var s := ScanOf(env, rows, needle, maxSpans, maxBytes);
    entries := [];
    var seen: set<string> := {};
    var totalBytes := 0;
    for i := 0 to |rows|
      invariant ScanState(s, i, entries, seen, totalBytes)
      invariant s.From(0) == s.From(i)
    {
      var candidate := Candidate(env, rows[i]);
      assert candidate == s.rows[i];
      if candidate.Some? {
        var full;
        entries, seen, totalBytes, full := Admit(candidate.value, maxSpans, maxBytes, entries, seen, totalBytes, s, i);
        if full {
          return entries, CeilingHit;
        }
      }
      if MatchesNeedle(needle, rows[i].spanId) {
        return entries, NeedleFound;
      }
    }
    outcome := Exhausted;
  }

  // ---- what a selection guarantees ---------------------------------------------

  lemma {:induction false} InKept(s: Scan, n: nat, e: Entry)
    requires n <= |s.rows|
    ensures e in s.Kept(n) <==> e.bytes <= s.maxBytes && exists i :: 0 <= i < n && s.First(i) && s.rows[i] == Some(e)
  {
    if n > 0 {
      InKept(s, n - 1, e);
    }
  }

  ghost predicate DistinctHashes(entries: seq<Entry>) {
    forall i, j :: 0 <= i < j < |entries| ==> entries[i].hash != entries[j].hash
  }

  lemma {:induction false} KeptIsDistinct(s: Scan, n: nat)
    requires n <= |s.rows|
    ensures DistinctHashes(s.Kept(n))
  {
    if n > 0 {
      KeptIsDistinct(s, n - 1);
      if s.First(n - 1) && s.rows[n - 1].value.bytes <= s.maxBytes {
        var before := s.Kept(n - 1);
        forall i | 0 <= i < |before|
          ensures before[i].hash != s.rows[n - 1].value.hash
        {
          InKept(s, n - 1, before[i]);
        }
      }
    }
  }

  /** Where a scan stopped: `stop` rows were passed without reaching a ceiling or the needle. */
  ghost predicate StopsAt(s: Scan, stop: nat)
    requires s.Valid()
  {
    && stop <= |s.rows|
    && (forall i :: 0 <= i < stop ==> !s.Ceiling(i) && !s.matches[i])
    && (stop < |s.rows| ==> s.Ceiling(stop) || s.matches[stop])
  }

  lemma {:induction false} FindStop(s: Scan, i: nat) returns (stop: nat)
    requires s.Valid() && i <= |s.rows|
    requires forall j :: 0 <= j < i ==> !s.Ceiling(j) && !s.matches[j]
    ensures StopsAt(s, stop)
    ensures s.From(i) ==
      if stop == |s.rows| then (s.Kept(stop), Exhausted)
      else if s.Ceiling(stop) then (s.Kept(stop), CeilingHit)
      else (s.Kept(stop + 1), NeedleFound)
    decreases |s.rows| - i
  {
    if i == |s.rows| || s.Ceiling(i) || s.matches[i] {
      stop := i;
    } else {
      stop := FindStop(s, i + 1);
    }
  }

  lemma {:induction false} KeptWithinCeilings(s: Scan, n: nat)
    requires n <= |s.rows| && forall i :: 0 <= i < n ==> !s.Ceiling(i)
    ensures |s.Kept(n)| <= s.maxSpans && TotalBytes(s.Kept(n)) <= s.maxBytes
  {
    if n > 0 {
      KeptWithinCeilings(s, n - 1);
      assert !s.Ceiling(n - 1);
      if s.First(n - 1) && s.rows[n - 1].value.bytes <= s.maxBytes {
        var k := s.Kept(n);
        assert k[..|k| - 1] == s.Kept(n - 1);
      }
    }
  }

  /** How many rows the entries of a scan stopped at `stop` come from: the needle's row is included. */
  ghost function Reach(s: Scan, stop: nat): nat
    requires s.Valid() && stop <= |s.rows|
  {
    if stop < |s.rows| && !s.Ceiling(stop) then stop + 1 else stop
  }

  lemma ScanGuarantees(s: Scan) returns (stop: nat)
    requires s.Valid()
    ensures var (entries, outcome) := s.From(0);
      && StopsAt(s, stop)
      && (outcome == Exhausted <==> stop == |s.rows|)
      && (outcome == CeilingHit <==> stop < |s.rows| && s.Ceiling(stop))
      && (outcome == NeedleFound <==> stop < |s.rows| && !s.Ceiling(stop) && s.matches[stop])
      && |entries| <= s.maxSpans && TotalBytes(entries) <= s.maxBytes && DistinctHashes(entries)
      && (forall e :: e in entries <==>
            e.bytes <= s.maxBytes && exists i :: 0 <= i < Reach(s, stop) && s.First(i) && s.rows[i] == Some(e))
  {
    stop := FindStop(s, 0);
    var n := Reach(s, stop);
    KeptWithinCeilings(s, n);
    KeptIsDistinct(s, n);
    forall e
      ensures e in s.Kept(n) <==> e.bytes <= s.maxBytes && exists i :: 0 <= i < n && s.First(i) && s.rows[i] == Some(e)
    {
      InKept(s, n, e);
    }
  }

  /**
    A selection is bounded and duplicate-free; each entry is the earliest row of
    its hash; and the outcome says which rows it covers.
   */
  lemma SelectionGuarantees(env: Env, rows: seq<SpanRow>, needle: string, maxSpans: nat, maxBytes: nat)
    returns (stop: nat)
    ensures var s := ScanOf(env, rows, needle, maxSpans, maxBytes);
      var (entries, outcome) := Select(env, rows, needle, maxSpans, maxBytes);
      && StopsAt(s, stop)
      && (outcome == Exhausted <==> stop == |rows|)
      && (outcome == CeilingHit <==> stop < |rows| && s.Ceiling(stop))
      && (outcome == NeedleFound <==> stop < |rows| && !s.Ceiling(stop) && MatchesNeedle(needle, rows[stop].spanId))
      && |entries| <= maxSpans && TotalBytes(entries) <= maxBytes && DistinctHashes(entries)
      && (forall e :: e in entries <==>
            e.bytes <= maxBytes && exists i :: 0 <= i < Reach(s, stop) && s.First(i) && s.rows[i] == Some(e))
      && forall i :: 0 <= i < |rows| ==> s.rows[i] == Candidate(env, rows[i])
  {
    stop := ScanGuarantees(ScanOf(env, rows, needle, maxSpans, maxBytes));
  }

  /** An oversized first occurrence claims its hash for good: no later duplicate is ever admitted. */
  lemma OversizedBlocksItsHash(s: Scan, i: nat, n: nat, e: Entry)
    requires i < |s.rows| && n <= |s.rows|
    requires s.First(i) && s.rows[i].value.bytes > s.maxBytes
    requires e in s.Kept(n)
    ensures e.hash != s.rows[i].value.hash
  {
    InKept(s, n, e);
    var j :| 0 <= j < n && s.First(j) && s.rows[j] == Some(e);
    if j < i {
      assert s.rows[j].Some?;
    } else if i < j {
      assert s.rows[i].Some?;
    }
  }

  // ---- paging ---------------------------------------------------------------------

  ghost predicate Extends(a: Scan, b: Scan) {
    && a.Valid() && b.Valid() && a.maxSpans == b.maxSpans && a.maxBytes == b.maxBytes
    && a.rows <= b.rows && a.matches <= b.matches
  }

  lemma {:induction false} KeptOfPrefix(a: Scan, b: Scan, n: nat)
    requires Extends(a, b) && n <= |a.rows|
    ensures a.Kept(n) == b.Kept(n)
    ensures forall i :: 0 <= i < n ==> a.First(i) == b.First(i)
  {
    if n > 0 {
      KeptOfPrefix(a, b, n - 1);
      assert forall j :: 0 <= j < n ==> a.rows[j] == b.rows[j];
      assert a.First(n - 1) == b.First(n - 1);
    }
  }

  lemma {:induction false} FromOfPrefix(a: Scan, b: Scan, i: nat)
    requires Extends(a, b) && i <= |a.rows| && a.From(i).1 != Exhausted
    ensures b.From(i) == a.From(i)
    decreases |a.rows| - i
  {
    KeptOfPrefix(a, b, i);
    if i < |a.rows| {
      KeptOfPrefix(a, b, i + 1);
      assert a.matches[i] == b.matches[i] && a.rows[i] == b.rows[i];
      if !a.Ceiling(i) && !a.matches[i] {
        FromOfPrefix(a, b, i + 1);
      }
    }
  }

  /** More rows never change a selection that has terminated. */
  lemma TerminatedSelectionIsStable(env: Env, rows: seq<SpanRow>, more: seq<SpanRow>, needle: string, maxSpans: nat,
                                    maxBytes: nat)
    requires Select(env, rows, needle, maxSpans, maxBytes).1 != Exhausted
    ensures Select(env, rows + more, needle, maxSpans, maxBytes) == Select(env, rows, needle, maxSpans, maxBytes)
  {
    var a, b := ScanOf(env, rows, needle, maxSpans, maxBytes), ScanOf(env, rows + more, needle, maxSpans, maxBytes);
    assert Extends(a, b);
    FromOfPrefix(a, b, 0);
  }

  /** One page of the trace query: LIMIT and OFFSET over a fixed order. */
  function Page(trace: seq<SpanRow>, limit: nat, offset: nat): seq<SpanRow> {
    if offset >= |trace| then [] else trace[offset..Min(offset + limit, |trace|)]
  }

  /** The entry set of a window: the one-shot selection over the whole trace, or nothing. */
  ghost function WarmEntries(env: Env, trace: seq<SpanRow>, needle: string, maxSpans: nat, maxBytes: nat): seq<Entry> {
    var (entries, outcome) := Select(env, trace, needle, maxSpans, maxBytes);
    if outcome == Exhausted then [] else entries
  }

  datatype QueryError = QueryFailed(offset: nat)

  /**
    `build_entries` with pages of `pageSize` rows; `queryOk` says which page
    queries succeed. The result does not depend on the page size.
   */
  method BuildEntries(env: Env, trace: seq<SpanRow>, cacheUntil: string, pageSize: nat, maxSpans: nat, maxBytes: nat,
                      queryOk: nat -> bool)
    returns (r: Result<seq<Entry>, QueryError>)
    ensures r.Ok? ==> r.value == WarmEntries(env, trace, NormalizeNeedle(cacheUntil), maxSpans, maxBytes)
    ensures r.Err? ==> !queryOk(r.error.offset)
  {
    var needle := NormalizeNeedle(cacheUntil);
    var page := Max(pageSize, 1);
    var rows: seq<SpanRow> := [];
    var offset := 0;
    while true
      invariant 0 <= offset <= |trace| && rows == trace[..offset]
      decreases |trace| - offset, 1
    {
      if !queryOk(offset) {
        return Err(QueryFailed(offset));
      }
      var fetched := Page(trace, page, offset);
      var exhausted := |fetched| < page;
      rows := rows + fetched;
      var seenRows := offset + |fetched|;
      assert rows == trace[..seenRows];
      var entries, outcome := SelectEntries(env, rows, needle, maxSpans, maxBytes);
      assert trace[..seenRows] + trace[seenRows..] == trace;
      if outcome != Exhausted {
        TerminatedSelectionIsStable(env, rows, trace[seenRows..], needle, maxSpans, maxBytes);
        return Ok(entries);
      }
      if exhausted {
        assert seenRows == |trace| && rows == trace;
        return Ok([]);
      }
      offset := offset + page;
    }
  }
}
