/**
  What a replay cache holds of the recording: which column of which row each
  entry, and so each hit, carries, and exactly where a selection ends.
 */
module ReplayContents {
  import opened Common
  import opened Json
  import opened ReplaySelection

  predicate Blank(env: Env, column: string) { env.trim(column) == "" }

  /** The row recorded the provider's raw response, and `v` is that. */
  ghost predicate RecordedRaw(env: Env, row: SpanRow, v: Value) {
    !Blank(env, row.rawResponse) && env.parse(row.rawResponse) == Some(v)
  }

  /** The row's output is `v`: the gen_ai output if there is one, the plain output column if there is none. */
  ghost predicate RecordedOutput(env: Env, row: SpanRow, v: Value) {
    if !Blank(env, row.genAiOutput) then env.parse(env.trim(row.genAiOutput)) == Some(v)
    else !Blank(env, row.output) && env.parse(env.trim(row.output)) == Some(v)
  }

  // ---- finish reasons ---------------------------------------------------------------

  lemma {:induction false} StringsAppend(a: seq<Value>, b: seq<Value>)
    ensures Strings(a + b) == Strings(a) + Strings(b)
  {
    if a == [] {
      assert a + b == b;
    } else {
      StringsAppend(a[1..], b);
      assert (a + b)[0] == a[0] && (a + b)[1..] == a[1..] + b;
      Associate(if a[0].Str? then [a[0].text] else [], Strings(a[1..]), Strings(b));
    }
  }

  /** The strings of a list are the texts of its string items, each once and in order. */
  lemma StringsInOrder(before: seq<Value>, item: Value, after: seq<Value>)
    ensures Strings(before + [item] + after)
         == Strings(before) + (if item.Str? then [item.text] else []) + Strings(after)
    ensures Strings([]) == []
  {
    StringsAppend(before + [item], after);
    StringsAppend(before, [item]);
    assert [item][1..] == [];
  }

  /** The recorded list of reasons, with a string in it. */
  ghost predicate ListsReasons(env: Env, row: SpanRow, items: seq<Value>) {
    !Blank(env, row.finishReasons) && env.parse(row.finishReasons) == Some(Arr(items)) && exists s :: Str(s) in items
  }

  lemma {:induction false} StringsAreTexts(items: seq<Value>, s: string)
    ensures s in Strings(items) <==> Str(s) in items
  {
    if items != [] {
      StringsAreTexts(items[1..], s);
      assert Str(s) in items <==> items[0] == Str(s) || Str(s) in items[1..];
    }
  }

  /** The strings of the list if it has any; else the single reason, unquoted if it is quoted; else nothing. */
  ghost predicate ReasonsAre(env: Env, row: SpanRow, reasons: Option<seq<string>>) {
    && (forall items :: ListsReasons(env, row, items) ==> reasons == Some(Strings(items)))
    && ((forall items :: !ListsReasons(env, row, items)) ==>
          if Blank(env, row.finishReason) then reasons == None
          else reasons.Some? && |reasons.value| == 1 && SingleReason(env, row.finishReason, reasons.value[0]))
  }

  ghost predicate SingleReason(env: Env, column: string, reason: string) {
    && (forall s :: env.parse(column) == Some(Str(s)) ==> reason == s)
    && ((forall s :: env.parse(column) != Some(Str(s))) ==> reason == env.trim(column))
  }

  lemma ReasonsResolved(env: Env, row: SpanRow)
    ensures ReasonsAre(env, row, ResolveFinishReasons(env, row))
  {
    var listed := env.parse(row.finishReasons);
    if !Blank(env, row.finishReasons) && listed.Some? && listed.value.Arr? {
      var items := listed.value.items;
      if Strings(items) != [] {
        StringsAreTexts(items, Strings(items)[0]);
        assert ListsReasons(env, row, items);
      } else {
        forall s
          ensures Str(s) !in items
        {
          StringsAreTexts(items, s);
        }
      }
    }
    SingleReasonResolved(env, row.finishReason);
  }

  lemma SingleReasonResolved(env: Env, column: string)
    ensures SingleReason(env, column, match env.parse(column) case Some(Str(s)) => s case _ => env.trim(column))
  {
  }

  // ---- what an entry carries ----------------------------------------------------------

  /** The response of a row: its raw response if one was recorded, and only otherwise its output. */
  ghost predicate Replays(env: Env, row: SpanRow, r: Response) {
    && (r.Raw? <==> exists v :: RecordedRaw(env, row, v))
    && (r.Raw? ==> RecordedRaw(env, row, r.response))
    && (r.GenAi? ==> RecordedOutput(env, row, r.messages))
    && ReasonsAre(env, row, r.finishReasons)
    && r.model == (if Blank(env, row.model) then None else Some(env.trim(row.model)))
  }

  lemma ResolvedIsReplayed(env: Env, row: SpanRow)
    ensures ResolveResponse(env, row).Some? ==> Replays(env, row, ResolveResponse(env, row).value)
    ensures ResolveResponse(env, row).None? <==> forall v :: !RecordedRaw(env, row, v) && !RecordedOutput(env, row, v)
  {
    var r := ResolveResponse(env, row);
    ReasonsResolved(env, row);
    if r.Some? && r.value.Raw? {
      assert RecordedRaw(env, row, r.value.response);
    }
    if r.Some? && r.value.GenAi? {
      assert RecordedOutput(env, row, r.value.messages);
    }
  }

  /** The row can be replayed: its input parses, and so does what it recorded. */
  ghost predicate Replayable(env: Env, row: SpanRow, input: Value) {
    && env.parse(row.input) == Some(input)
    && exists v :: RecordedRaw(env, row, v) || RecordedOutput(env, row, v)
  }

  /** The entry of a replayable row: the hash of its input, its response and the size of that. */
  ghost predicate EntryOf(env: Env, row: SpanRow, e: Entry) {
    && (exists input :: Replayable(env, row, input) && e.hash == env.inputHash(input))
    && Replays(env, row, e.response) && e.bytes == env.size(e.response)
  }

  /** A row becomes an entry exactly if it is replayable, and the entry is its own. */
  lemma CandidateIsEntryOf(env: Env, row: SpanRow)
    ensures Candidate(env, row).Some? <==> exists input :: Replayable(env, row, input)
    ensures Candidate(env, row).Some? ==> EntryOf(env, row, Candidate(env, row).value)
  {
    ResolvedIsReplayed(env, row);
    if Candidate(env, row).Some? {
      assert Replayable(env, row, env.parse(row.input).value);
    }
  }

  // ---- where a selection ends, and what it holds ----------------------------------------

  /** Row `i` is replayable and no replayable row before it has its hash. */
  ghost predicate FirstOfItsHash(env: Env, rows: seq<SpanRow>, i: nat, hash: string)
    requires i < |rows|
  {
    && HasHash(env, rows[i], hash)
    && forall j :: 0 <= j < i ==> !HasHash(env, rows[j], hash)
  }

  ghost predicate HasHash(env: Env, row: SpanRow, hash: string) {
    exists input :: Replayable(env, row, input) && env.inputHash(input) == hash
  }

  /** The entries are those of the first `n` rows that come first with their hash and fit the byte budget. */
  ghost predicate Covers(env: Env, rows: seq<SpanRow>, n: nat, maxBytes: nat, entries: seq<Entry>)
    requires n <= |rows|
  {
    && (forall e :: e in entries ==> e.bytes <= maxBytes && EntryOfFirst(env, rows, n, e))
    && (forall i, hash :: 0 <= i < n && FirstOfItsHash(env, rows, i, hash) ==>
          exists e :: EntryOf(env, rows[i], e) && e.hash == hash && (e.bytes <= maxBytes ==> e in entries))
  }

  ghost predicate EntryOfFirst(env: Env, rows: seq<SpanRow>, n: nat, e: Entry)
    requires n <= |rows|
  {
    exists i :: 0 <= i < n && FirstOfItsHash(env, rows, i, e.hash) && EntryOf(env, rows[i], e)
  }

  lemma CandidateHash(env: Env, row: SpanRow, hash: string)
    ensures HasHash(env, row, hash) <==> Candidate(env, row).Some? && Candidate(env, row).value.hash == hash
  {
    CandidateIsEntryOf(env, row);
  }

  lemma FirstIsFirst(env: Env, rows: seq<SpanRow>, s: Scan, i: nat, hash: string)
    requires i < |rows| && s.rows == Candidates(env, rows)
    ensures FirstOfItsHash(env, rows, i, hash) <==> (s.First(i) && s.rows[i].value.hash == hash)
  {
    forall j | 0 <= j <= i
      ensures HasHash(env, rows[j], hash) <==> s.rows[j].Some? && s.rows[j].value.hash == hash
    {
      CandidateHash(env, rows[j], hash);
    }
  }

  lemma KeptCovers(env: Env, rows: seq<SpanRow>, s: Scan, n: nat)
    requires n <= |rows| && s.rows == Candidates(env, rows)
    ensures Covers(env, rows, n, s.maxBytes, s.Kept(n))
  {
    forall e | e in s.Kept(n)
      ensures e.bytes <= s.maxBytes && EntryOfFirst(env, rows, n, e)
    {
      InKept(s, n, e);
      var i :| 0 <= i < n && s.First(i) && s.rows[i] == Some(e);
      FirstIsFirst(env, rows, s, i, e.hash);
      CandidateIsEntryOf(env, rows[i]);
    }
    forall i, hash | 0 <= i < n && FirstOfItsHash(env, rows, i, hash)
      ensures exists e :: EntryOf(env, rows[i], e) && e.hash == hash && (e.bytes <= s.maxBytes ==> e in s.Kept(n))
    {
      FirstIsFirst(env, rows, s, i, hash);
      CandidateIsEntryOf(env, rows[i]);
      InKept(s, n, s.rows[i].value);
    }
  }

  /** The id ends with a needle that is not empty. */
  ghost predicate Needle(needle: string, row: SpanRow) {
    needle != "" && exists head :: row.spanId == head + needle
  }

  lemma NeedleIffMatches(needle: string, row: SpanRow)
    ensures Needle(needle, row) <==> MatchesNeedle(needle, row.spanId)
  {
    if MatchesNeedle(needle, row.spanId) {
      assert row.spanId == row.spanId[..|row.spanId| - |needle|] + needle;
    }
  }

  /** The next entry does not fit: there is no room for one more, or for its bytes. */
  predicate NoRoom(entries: seq<Entry>, e: Entry, maxSpans: nat, maxBytes: nat) {
    |entries| >= maxSpans || (e.bytes <= maxBytes && TotalBytes(entries) + e.bytes > maxBytes)
  }

  ghost predicate NewHashWithoutRoom(env: Env, rows: seq<SpanRow>, i: nat, entries: seq<Entry>, maxSpans: nat,
                                     maxBytes: nat)
    requires i < |rows|
  {
    exists e ::
      EntryOf(env, rows[i], e) && FirstOfItsHash(env, rows, i, e.hash) && NoRoom(entries, e, maxSpans, maxBytes)
  }

  /**
    A selection ends at the first of: the needle's row, which it still covers; a
    row whose new hash leaves no room; the end of the trace. Up to there it
    holds the recording of every first row that fits, and nothing else.
   */
  lemma SelectionEnds(env: Env, rows: seq<SpanRow>, needle: string, maxSpans: nat, maxBytes: nat) returns (stop: nat)
    ensures var (entries, outcome) := Select(env, rows, needle, maxSpans, maxBytes);
      && stop <= |rows| && (forall i :: 0 <= i < stop ==> !Needle(needle, rows[i]))
      && match outcome
         case Exhausted => stop == |rows| && Covers(env, rows, stop, maxBytes, entries)
         case NeedleFound =>
           && stop < |rows| && Needle(needle, rows[stop]) && Covers(env, rows, stop + 1, maxBytes, entries)
         case CeilingHit =>
           && stop < |rows| && Covers(env, rows, stop, maxBytes, entries)
           && NewHashWithoutRoom(env, rows, stop, entries, maxSpans, maxBytes)
  {
    var s := ScanOf(env, rows, needle, maxSpans, maxBytes);
    stop := FindStop(s, 0);
    forall i | 0 <= i < |rows|
      ensures Needle(needle, rows[i]) <==> s.matches[i]
    {
      NeedleIffMatches(needle, rows[i]);
    }
    KeptCovers(env, rows, s, stop);
    if stop < |rows| && s.Ceiling(stop) {
      CeilingLeavesNoRoom(env, rows, s, stop);
    } else if stop < |rows| {
      KeptCovers(env, rows, s, stop + 1);
    }
  }

  lemma CeilingLeavesNoRoom(env: Env, rows: seq<SpanRow>, s: Scan, i: nat)
    requires i < |rows| && s.rows == Candidates(env, rows) && s.Ceiling(i)
    ensures NewHashWithoutRoom(env, rows, i, s.Kept(i), s.maxSpans, s.maxBytes)
  {
    CandidateIsEntryOf(env, rows[i]);
    FirstIsFirst(env, rows, s, i, s.rows[i].value.hash);
  }

  /**
    What a window is warmed with: nothing if its needle is no row's and nothing
    ran out of room; otherwise the recording of every first row that fits, through
    the needle's row or up to the one without room.
   */
  lemma WindowHoldsItsRecording(env: Env, trace: seq<SpanRow>, needle: string, maxSpans: nat, maxBytes: nat)
    returns (stop: nat)
    ensures var entries := WarmEntries(env, trace, needle, maxSpans, maxBytes);
      && stop <= |trace| && (forall i :: 0 <= i < stop ==> !Needle(needle, trace[i]))
      && if stop == |trace| then entries == []
         else || (Needle(needle, trace[stop]) && Covers(env, trace, stop + 1, maxBytes, entries))
              || (&& NewHashWithoutRoom(env, trace, stop, entries, maxSpans, maxBytes)
                  && Covers(env, trace, stop, maxBytes, entries))
  {
    stop := SelectionEnds(env, trace, needle, maxSpans, maxBytes);
  }

  /** What a window serves for a hash is the recording of the first row of its trace with that hash. */
  lemma ServedEntryIsTheRecording(env: Env, trace: seq<SpanRow>, needle: string, maxSpans: nat, maxBytes: nat, e: Entry)
    requires e in WarmEntries(env, trace, needle, maxSpans, maxBytes)
    ensures EntryOfFirst(env, trace, |trace|, e)
  {
    var stop := SelectionEnds(env, trace, needle, maxSpans, maxBytes);
  }

  /** The bytes of a selection are the sum over its entries. */
  lemma {:induction false} TotalBytesAppend(a: seq<Entry>, b: seq<Entry>)
    ensures TotalBytes(a + b) == TotalBytes(a) + TotalBytes(b)
    ensures |b| == 1 ==> TotalBytes(b) == b[0].bytes
  {
    if b == [] {
      assert a + b == a;
    } else {
      TotalBytesAppend(a, b[..|b| - 1]);
      assert (a + b)[..|a + b| - 1] == a + b[..|b| - 1];
      assert |b| == 1 ==> b[..0] == [];
    }
  }

  // ---- the needle as it is written -------------------------------------------------------

  /** One character of a needle, normalized: hyphens go, capitals become small. */
  lemma NeedleCharacter(before: string, c: char, after: string)
    ensures NormalizeNeedle(before + [c] + after) ==
      NormalizeNeedle(before)
      + (if c == '-' then "" else if 'A' <= c <= 'Z' then [c + 32 as char] else [c])
      + NormalizeNeedle(after)
    ensures NormalizeNeedle("") == ""
  {
    NormalizeAppend(before + [c], after);
    NormalizeAppend(before, [c]);
    assert [c][1..] == "";
    assert NormalizeNeedle([c]) == (if c == '-' then "" else [ToLower(c)]) + "";
  }
}
