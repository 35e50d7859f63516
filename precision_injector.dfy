// scripts/precision_rtz_injector.py: translations injected into decompressed
// `.rtz` buffers at the byte alignment recorded by an earlier text search.

module PrecisionInjector {
  import opened Wrappers
  import opened Bytes
  import opened Text
  import Utf16
  import RtzInjection

  // ---------------------------------------------------------------------
  // find_best_alignment_for_text
  // ---------------------------------------------------------------------

  /** One row of the search results of a file. */
  datatype SearchResult = SearchResult(searchText: string, exactMatch: bool, alignment: int)

  predicate IsMatch(r: SearchResult, text: string, exact: bool)
  {
    r.searchText == text && r.exactMatch == exact
  }

  /** `[r for r in search_results if r['search_text'] == text and r['exact_match'] == exact]`. */
  function Matches(rs: seq<SearchResult>, text: string, exact: bool): seq<SearchResult>
  {
    if rs == [] then []
    else (if IsMatch(rs[0], text, exact) then [rs[0]] else []) + Matches(rs[1..], text, exact)
  }

  /** `rs[i]` is the first result of the given kind for `text`. */
  predicate FirstMatchAt(rs: seq<SearchResult>, text: string, exact: bool, i: int)
  {
    0 <= i < |rs| && IsMatch(rs[i], text, exact) && forall j :: 0 <= j < i ==> !IsMatch(rs[j], text, exact)
  }

  /** The filter is empty exactly when no result is of the kind, and
      otherwise starts with the first one that is. */
  lemma {:induction false} MatchesSpec(rs: seq<SearchResult>, text: string, exact: bool)
    ensures Matches(rs, text, exact) == [] <==> forall i :: 0 <= i < |rs| ==> !IsMatch(rs[i], text, exact)
    ensures forall i :: FirstMatchAt(rs, text, exact, i) ==> Matches(rs, text, exact)[0] == rs[i]
  {
    if rs != [] {
      var tail := rs[1..];
      MatchesSpec(tail, text, exact);
      assert forall i :: 1 <= i < |rs| ==> rs[i] == tail[i - 1];
      if !IsMatch(rs[0], text, exact) {
        forall i | FirstMatchAt(rs, text, exact, i) ensures Matches(rs, text, exact)[0] == rs[i] {
          assert FirstMatchAt(tail, text, exact, i - 1);
        }
      }
    }
  }

  /** `any(r['search_text'] == text and r['exact_match'] for r in search_results)`. */
  predicate HasExact(rs: seq<SearchResult>, text: string)
  {
    exists i :: 0 <= i < |rs| && IsMatch(rs[i], text, true)
  }

  /** `find_best_alignment_for_text`. */
  function FindBestAlignment(rs: seq<SearchResult>, text: string): Option<int>
  {
    var exact := Matches(rs, text, true);
    if exact != [] then Some(exact[0].alignment)
    else
      var partial := Matches(rs, text, false);
      if partial != [] then Some(partial[0].alignment) else None
  }

  /** The alignment of the first exact match, else of the first partial
      match, else none, which happens exactly when no result is for the text. */
  lemma FindBestAlignmentSpec(rs: seq<SearchResult>, text: string)
    ensures FindBestAlignment(rs, text) == None <==> forall i :: 0 <= i < |rs| ==> rs[i].searchText != text
    ensures forall i :: FirstMatchAt(rs, text, true, i) ==> FindBestAlignment(rs, text) == Some(rs[i].alignment)
    ensures forall i :: FirstMatchAt(rs, text, false, i) && !HasExact(rs, text) ==> FindBestAlignment(rs, text) == Some(rs[i].alignment)
    ensures HasExact(rs, text) <==> Matches(rs, text, true) != []
  {
    MatchesSpec(rs, text, true);
    MatchesSpec(rs, text, false);
  }

  // ---------------------------------------------------------------------
  // replace_text_with_alignment
  // ---------------------------------------------------------------------

  /** `data[alignment:]`, less its last byte when its length is odd. */
  function Aligned(data: seq<byte>, alignment: int): seq<byte>
  {
    var s := PySliceFrom(data, alignment);
    if |s| % 2 == 1 then s[..|s| - 1] else s
  }

  /** The aligned slice starts at the normalised alignment, has an even
      length and leaves out at most the last byte of the buffer. */
  lemma AlignedSpec(data: seq<byte>, alignment: int)
    ensures |Aligned(data, alignment)| % 2 == 0
    ensures |data| - PyIndex(alignment, |data|) - 1 <= |Aligned(data, alignment)| <= |data| - PyIndex(alignment, |data|)
    ensures Aligned(data, alignment) == data[PyIndex(alignment, |data|)..PyIndex(alignment, |data|) + |Aligned(data, alignment)|]
  {
  }

  /** What one call computes: the count it returns, and the buffer it
      stores in `modified_aligned_data` when the text occurs. */
  datatype Replacement = Replacement(count: int, stored: Option<seq<byte>>)

  /** The count and the stored buffer for an already aligned slice. */
  function ReplaceIn(aligned: seq<byte>, search: string, replacement: string): Replacement
  {
    var p := Utf16.Encode(search);
    var before := CountOf(aligned, p);
    if before == 0 then Replacement(0, None)
    else
      var m := ReplaceAll(aligned, p, Utf16.Encode(replacement));
      Replacement(before - CountOf(m, p), Some(m))
  }

  function AlignedReplace(data: seq<byte>, search: string, replacement: string, alignment: int): Replacement
  {
    ReplaceIn(Aligned(data, alignment), search, replacement)
  }

  /** For a non-empty text, nothing is stored and zero is returned exactly
      when the text does not occur in the slice. */
  lemma ReplaceInAbsent(aligned: seq<byte>, search: string, replacement: string)
    requires search != ""
    ensures ReplaceIn(aligned, search, replacement).stored == None <==> FindFrom(aligned, Utf16.Encode(search), 0) == -1
    ensures ReplaceIn(aligned, search, replacement).stored == None ==> ReplaceIn(aligned, search, replacement).count == 0
  {
    CountZeroIffAbsent(aligned, Utf16.Encode(search));
  }

  /** The stored buffer changes length by the size difference once per
      occurrence counted. */
  lemma ReplaceInLength(aligned: seq<byte>, search: string, replacement: string)
    requires search != ""
    ensures ReplaceIn(aligned, search, replacement).stored.Some? ==>
      |ReplaceIn(aligned, search, replacement).stored.value|
        == |aligned| + CountOf(aligned, Utf16.Encode(search)) * (|Utf16.Encode(replacement)| - |Utf16.Encode(search)|)
  {
    ReplaceLength(aligned, Utf16.Encode(search), Utf16.Encode(replacement));
  }

  /** A translation equal to the text it replaces is reported as making
      no replacement, since the count after equals the count before. */
  lemma ReplaceBySelfCountsNothing(data: seq<byte>, text: string, alignment: int)
    requires text != ""
    ensures AlignedReplace(data, text, text, alignment).count == 0
  {
    ReplaceBySelf(Aligned(data, alignment), Utf16.Encode(text));
  }

  /** The returned number is a difference of counts, not the number of
      replacements: when the replacement contains the text, one
      replacement can be reported as a negative number. */
  lemma CountIsDifference()
    ensures AlignedReplace(Utf16.Encode("A"), "A", "AA", 0).count == -1
  {
    var p: seq<byte> := [65, 0];
    var pp: seq<byte> := [65, 0, 65, 0];
    EncodeLetterA();
    assert Aligned(p, 0) == p;
    CountsOfA(p, pp);
  }

  lemma EncodeLetterA()
    ensures Utf16.Encode("A") == [65, 0]
    ensures Utf16.Encode("AA") == [65, 0, 65, 0]
  {
    assert Utf16.TextUnits("A") == [65];
    Utf16.EncodeAppend("A", "A");
    assert "A" + "A" == "AA";
  }

  lemma CountsOfA(p: seq<byte>, pp: seq<byte>)
    requires p == [65, 0] && pp == p + p
    ensures CountOf(p, p) == 1 && ReplaceAll(p, p, pp) == pp && CountOf(pp, p) == 2
  {
    assert p[..|p|] == p && p[|p|..] == [];
    assert pp[..|p|] == p && pp[|p|..] == p;
    assert ReplaceAll(p, p, pp) == pp + ReplaceAll([], p, pp);
  }

  /** `get_modified_data` hands back the aligned slice only: what is
      stored is computed from `data[alignment:]` alone, and with a
      replacement of the same size it is shorter than the buffer whenever
      the alignment is positive, the leading bytes being lost. */
  lemma LeadingBytesLost(data: seq<byte>, search: string, replacement: string, alignment: int)
    requires 0 <= alignment <= |data| && search != ""
    ensures AlignedReplace(data, search, replacement, alignment) == AlignedReplace(data[alignment..], search, replacement, 0)
    ensures (0 < alignment && |Utf16.Encode(search)| == |Utf16.Encode(replacement)|
             && AlignedReplace(data, search, replacement, alignment).stored.Some?) ==>
      |AlignedReplace(data, search, replacement, alignment).stored.value| < |data|
  {
    assert Aligned(data, alignment) == Aligned(data[alignment..], 0);
    var aligned := Aligned(data, alignment);
    if |Utf16.Encode(search)| == |Utf16.Encode(replacement)| {
      ReplaceInLength(aligned, search, replacement);
      var n, d := CountOf(aligned, Utf16.Encode(search)), |Utf16.Encode(replacement)| - |Utf16.Encode(search)|;
      assert d == 0;
      assert n * d == n * 0 == 0;
      AlignedSpec(data, alignment);
    }
  }

  // ---------------------------------------------------------------------
  // inject_with_precise_alignment
  // ---------------------------------------------------------------------

  /** The counters of `stats`. */
  datatype Stats = Stats(filesProcessed: nat, successfulInjections: nat, totalReplacements: nat,
                         exactMatchesUsed: nat, partialMatchesUsed: nat)

  /** The state the translation loop works on: the current buffer, the
      injector's `modified_aligned_data`, the replacements so far and the
      counters. */
  datatype PState = PState(data: seq<byte>, stored: seq<byte>, successful: nat, stats: Stats)

  /** One translation: looked up in the search results, replaced at the
      alignment found, and taken over (with its match kind counted) when
      the reported number is positive. */
  function Step(s: PState, t: RtzInjection.Translation, rs: seq<SearchResult>): PState
  {
    match FindBestAlignment(rs, t.japanese)
    case None => s
    case Some(a) =>
      var r := AlignedReplace(s.data, t.japanese, t.english, a);
      var stored := if r.stored.Some? then r.stored.value else s.stored;
      if r.count > 0 then
        PState(stored, stored, s.successful + r.count,
               if HasExact(rs, t.japanese) then s.stats.(exactMatchesUsed := s.stats.exactMatchesUsed + 1)
               else s.stats.(partialMatchesUsed := s.stats.partialMatchesUsed + 1))
      else s.(stored := stored)
  }

  /** A translation without search results changes nothing. */
  lemma StepNone(s: PState, t: RtzInjection.Translation, rs: seq<SearchResult>)
    requires FindBestAlignment(rs, t.japanese) == None
    ensures Step(s, t, rs) == s
  {
  }

  /** A translation with an alignment: the stored buffer is updated, and
      taken over when the reported number is positive. */
  lemma StepSome(s: PState, t: RtzInjection.Translation, rs: seq<SearchResult>, a: int, r: Replacement, stored: seq<byte>)
    requires FindBestAlignment(rs, t.japanese) == Some(a)
    requires r == AlignedReplace(s.data, t.japanese, t.english, a)
    requires stored == if r.stored.Some? then r.stored.value else s.stored
    ensures r.count > 0 ==> Step(s, t, rs) == PState(stored, stored, s.successful + r.count,
      if HasExact(rs, t.japanese) then s.stats.(exactMatchesUsed := s.stats.exactMatchesUsed + 1)
      else s.stats.(partialMatchesUsed := s.stats.partialMatchesUsed + 1))
    ensures r.count <= 0 ==> Step(s, t, rs) == s.(stored := stored)
  {
  }

  /** The translations from `ts[k]` on, one step each. */
  function Precise(s: PState, ts: seq<RtzInjection.Translation>, rs: seq<SearchResult>, k: nat): PState
    requires k <= |ts|
    decreases |ts| - k
  {
    if k == |ts| then s else Precise(Step(s, ts[k], rs), ts, rs, k + 1)
  }

  lemma PreciseUnfold(s: PState, ts: seq<RtzInjection.Translation>, rs: seq<SearchResult>, k: nat)
    requires k < |ts|
    ensures Precise(s, ts, rs, k) == Precise(Step(s, ts[k], rs), ts, rs, k + 1)
  {
  }

  /** From `s` to `r` over at most `n` translations: replacements only
      add up, an unchanged total leaves buffer and counters alone, and
      each translation taken over is counted once, as exact or partial. */
  predicate Tallied(s: PState, r: PState, n: nat)
  {
    && r.successful >= s.successful
    && (r.successful == s.successful ==> r.data == s.data && r.stats == s.stats)
    && r.stats.exactMatchesUsed >= s.stats.exactMatchesUsed
    && r.stats.partialMatchesUsed >= s.stats.partialMatchesUsed
    && (r.stats.exactMatchesUsed - s.stats.exactMatchesUsed) + (r.stats.partialMatchesUsed - s.stats.partialMatchesUsed)
       <= r.successful - s.successful
    && (r.stats.exactMatchesUsed - s.stats.exactMatchesUsed) + (r.stats.partialMatchesUsed - s.stats.partialMatchesUsed) <= n
    && r.stats == s.stats.(exactMatchesUsed := r.stats.exactMatchesUsed, partialMatchesUsed := r.stats.partialMatchesUsed)
  }

  lemma StepTallied(s: PState, t: RtzInjection.Translation, rs: seq<SearchResult>)
    ensures Tallied(s, Step(s, t, rs), 1)
  {
  }

  lemma TalliedTrans(s: PState, m: PState, r: PState, n1: nat, n2: nat)
    requires Tallied(s, m, n1) && Tallied(m, r, n2)
    ensures Tallied(s, r, n1 + n2)
  {
  }

  /** Over the translations from `ts[k]` on, the counts are tallied. */
  lemma {:induction false} PreciseTallied(s: PState, ts: seq<RtzInjection.Translation>, rs: seq<SearchResult>, k: nat)
    requires k <= |ts|
    ensures Tallied(s, Precise(s, ts, rs, k), |ts| - k)
    decreases |ts| - k
  {
    if k < |ts| {
      var m := Step(s, ts[k], rs);
      StepTallied(s, ts[k], rs);
      PreciseTallied(m, ts, rs, k + 1);
      TalliedTrans(s, m, Precise(s, ts, rs, k), 1, |ts| - k - 1);
    }
  }

  /** The buffer and the replacements a step produces depend on the
      buffer alone: not on what was stored before, nor on the counters. */
  lemma {:induction false} PreciseDataOnly(s1: PState, s2: PState, ts: seq<RtzInjection.Translation>, rs: seq<SearchResult>, k: nat)
    requires k <= |ts| && s1.data == s2.data
    ensures Precise(s1, ts, rs, k).data == Precise(s2, ts, rs, k).data
    ensures Precise(s1, ts, rs, k).successful - s1.successful == Precise(s2, ts, rs, k).successful - s2.successful
    decreases |ts| - k
  {
    if k < |ts| {
      PreciseDataOnly(Step(s1, ts[k], rs), Step(s2, ts[k], rs), ts, rs, k + 1);
    }
  }

  const NO_STATS := Stats(0, 0, 0, 0, 0)

  /** The bytes one file is rewritten with, if any: the 4-byte header
      kept, the rest gunzipped, the translations applied and the result
      gzipped again, when the replacements add up to a positive number. */
  function FileWritten(raw: seq<byte>, ts: seq<RtzInjection.Translation>, rs: seq<SearchResult>,
                       gunzip: seq<byte> -> Option<seq<byte>>, gzip: seq<byte> -> seq<byte>): Option<seq<byte>>
  {
    match gunzip(PySliceFrom(raw, 4))
    case None => None
    case Some(d) =>
      var p := Precise(PState(d, [], 0, NO_STATS), ts, rs, 0);
      if p.successful > 0 then Some(PySlice(raw, 0, 4) + gzip(p.data)) else None
  }

  /** What processing one file leaves: the bytes written, the stored
      slice and the counters. */
  datatype FileOutcome = FileOutcome(written: Option<seq<byte>>, stored: seq<byte>, stats: Stats)

  function InjectFile(raw: seq<byte>, ts: seq<RtzInjection.Translation>, rs: seq<SearchResult>,
                      stored: seq<byte>, stats: Stats,
                      gunzip: seq<byte> -> Option<seq<byte>>, gzip: seq<byte> -> seq<byte>): FileOutcome
  {
    match gunzip(PySliceFrom(raw, 4))
    case None => FileOutcome(None, stored, stats)
    case Some(d) =>
      var p := Precise(PState(d, stored, 0, stats), ts, rs, 0);
      if p.successful > 0 then
        FileOutcome(Some(PySlice(raw, 0, 4) + gzip(p.data)), p.stored,
                    p.stats.(successfulInjections := p.stats.successfulInjections + 1,
                             totalReplacements := p.stats.totalReplacements + p.successful))
      else FileOutcome(None, p.stored, p.stats)
  }

  /** The bytes written for a file depend only on the file, its
      translations and its search results, whatever the injector did
      before; a file is written exactly when the total of replacements
      grows, and then counts as one successful injection. */
  lemma InjectFileSpec(raw: seq<byte>, ts: seq<RtzInjection.Translation>, rs: seq<SearchResult>,
                       stored: seq<byte>, stats: Stats,
                       gunzip: seq<byte> -> Option<seq<byte>>, gzip: seq<byte> -> seq<byte>)
    ensures InjectFile(raw, ts, rs, stored, stats, gunzip, gzip).written == FileWritten(raw, ts, rs, gunzip, gzip)
    ensures InjectFile(raw, ts, rs, stored, stats, gunzip, gzip).written.Some?
      <==> InjectFile(raw, ts, rs, stored, stats, gunzip, gzip).stats.totalReplacements > stats.totalReplacements
    ensures InjectFile(raw, ts, rs, stored, stats, gunzip, gzip).stats.successfulInjections
      == stats.successfulInjections + (if FileWritten(raw, ts, rs, gunzip, gzip).Some? then 1 else 0)
    ensures InjectFile(raw, ts, rs, stored, stats, gunzip, gzip).stats.totalReplacements >= stats.totalReplacements
    ensures InjectFile(raw, ts, rs, stored, stats, gunzip, gzip).stats.filesProcessed == stats.filesProcessed
  {
    match gunzip(PySliceFrom(raw, 4))
    case None =>
    case Some(d) =>
      var s1 := PState(d, stored, 0, stats);
      PreciseDataOnly(s1, PState(d, [], 0, NO_STATS), ts, rs, 0);
      PreciseTallied(s1, ts, rs, 0);
  }

  // ---------------------------------------------------------------------
  // Target files: sorted(set(search results) & set(translations))
  // ---------------------------------------------------------------------

  /** Python's `<` on strings: code point by code point, a proper prefix
      first. */
  predicate StrBefore(a: string, b: string)
    decreases |a|
  {
    if a == [] then b != []
    else if b == [] then false
    else if a[0] != b[0] then a[0] < b[0]
    else StrBefore(a[1..], b[1..])
  }

  lemma {:induction false} StrBeforeIrreflexive(a: string)
    ensures !StrBefore(a, a)
    decreases |a|
  {
    if a != [] {
      StrBeforeIrreflexive(a[1..]);
    }
  }

  lemma {:induction false} StrBeforeTrans(a: string, b: string, c: string)
    requires StrBefore(a, b) && StrBefore(b, c)
    ensures StrBefore(a, c)
    decreases |a|
  {
    if a != [] && a[0] == b[0] && b[0] == c[0] {
      StrBeforeTrans(a[1..], b[1..], c[1..]);
    }
  }

  lemma {:induction false} StrBeforeTotal(a: string, b: string)
    requires a != b
    ensures StrBefore(a, b) || StrBefore(b, a)
    decreases |a|
  {
    if a != [] && b != [] && a[0] == b[0] {
      assert a == [a[0]] + a[1..] && b == [b[0]] + b[1..];
      StrBeforeTotal(a[1..], b[1..]);
    }
  }

  predicate StrictlySorted(s: seq<string>)
  {
    forall i, j :: 0 <= i < j < |s| ==> StrBefore(s[i], s[j])
  }

  /** `x` placed before the first element it comes before. */
  function InsertPath(x: string, s: seq<string>): seq<string>
  {
    if s == [] then [x]
    else if StrBefore(x, s[0]) then [x] + s
    else [s[0]] + InsertPath(x, s[1..])
  }

  lemma {:induction false} InsertPathElements(x: string, s: seq<string>)
    ensures |InsertPath(x, s)| == |s| + 1
    ensures forall y :: y in InsertPath(x, s) <==> y == x || y in s
  {
    if s != [] && !StrBefore(x, s[0]) {
      InsertPathElements(x, s[1..]);
      assert s == [s[0]] + s[1..];
    }
  }

  lemma {:induction false} InsertPathSorted(x: string, s: seq<string>)
    requires StrictlySorted(s) && x !in s
    ensures StrictlySorted(InsertPath(x, s))
  {
    if s != [] {
      if StrBefore(x, s[0]) {
        forall j | 0 <= j < |s| ensures StrBefore(x, s[j]) {
          if j > 0 { StrBeforeTrans(x, s[0], s[j]); }
        }
      } else {
        var rest := InsertPath(x, s[1..]);
        InsertPathSorted(x, s[1..]);
        InsertPathElements(x, s[1..]);
        StrBeforeTotal(x, s[0]);
        forall y | y in rest ensures StrBefore(s[0], y) {
          if y != x {
            var j :| 0 <= j < |s[1..]| && s[1..][j] == y;
            assert s[j + 1] == y;
          }
        }
        var r := [s[0]] + rest;
        forall i, j | 0 <= i < j < |r| ensures StrBefore(r[i], r[j]) {
          if i > 0 {
            assert r[i] == rest[i - 1] && r[j] == rest[j - 1];
          } else {
            assert r[j] == rest[j - 1] && r[j] in rest;
          }
        }
      }
    }
  }

  /** `sorted(...)` of a list without repeats, by insertion. */
  function SortPaths(s: seq<string>): seq<string>
  {
    if s == [] then [] else InsertPath(s[|s| - 1], SortPaths(s[..|s| - 1]))
  }

  /** The sorted list holds the same paths, each before the next. */
  lemma {:induction false} SortPathsSpec(s: seq<string>)
    requires RtzInjection.Distinct(s)
    ensures forall y :: y in SortPaths(s) <==> y in s
    ensures StrictlySorted(SortPaths(s))
  {
    if s != [] {
      var front, x := s[..|s| - 1], s[|s| - 1];
      RtzInjection.DistinctFront(s);
      SortPathsSpec(front);
      InsertPathElements(x, SortPaths(front));
      InsertPathSorted(x, SortPaths(front));
      assert s == front + [x];
    }
  }

  /** The paths of `ps` that also have search results, in order. */
  function Common(ps: seq<string>, sr: map<string, seq<SearchResult>>): seq<string>
  {
    if ps == [] then []
    else Common(ps[..|ps| - 1], sr) + (if ps[|ps| - 1] in sr then [ps[|ps| - 1]] else [])
  }

  lemma {:induction false} CommonSpec(ps: seq<string>, sr: map<string, seq<SearchResult>>)
    ensures forall y :: y in Common(ps, sr) <==> y in ps && y in sr
    ensures RtzInjection.Distinct(ps) ==> RtzInjection.Distinct(Common(ps, sr))
  {
    if ps != [] {
      var front := ps[..|ps| - 1];
      CommonSpec(front, sr);
      assert ps == front + [ps[|ps| - 1]];
      if RtzInjection.Distinct(ps) {
        RtzInjection.DistinctFront(ps);
      }
    }
  }

  /** The files processed, in processing order. */
  function Targets(sr: map<string, seq<SearchResult>>, gs: seq<RtzInjection.FileGroup>): seq<string>
  {
    SortPaths(Common(RtzInjection.Paths(gs), sr))
  }

  /** The targets are the files with both search results and loaded
      translations, in ascending order without repeats. */
  lemma TargetsSpec(sr: map<string, seq<SearchResult>>, rows: seq<RtzInjection.Row>)
    ensures StrictlySorted(Targets(sr, RtzInjection.Loaded(rows)))
    ensures forall q :: (q in Targets(sr, RtzInjection.Loaded(rows))
      <==> q in sr && q in RtzInjection.Paths(RtzInjection.Loaded(rows)))
  {
    var gs := RtzInjection.Loaded(rows);
    RtzInjection.GroupSpec(rows);
    assert RtzInjection.Distinct(RtzInjection.Paths(gs));
    CommonSpec(RtzInjection.Paths(gs), sr);
    SortPathsSpec(Common(RtzInjection.Paths(gs), sr));
  }

  lemma StrictlySortedDistinct(s: seq<string>)
    requires StrictlySorted(s)
    ensures RtzInjection.Distinct(s)
  {
    forall i, j | 0 <= i < j < |s| ensures s[i] != s[j] {
      if s[i] == s[j] { StrBeforeIrreflexive(s[i]); }
    }
  }

  // ---------------------------------------------------------------------
  // run_precision_injection
  // ---------------------------------------------------------------------

  /** The search results of a file; none when the file has no entry. */
  function SearchOf(sr: map<string, seq<SearchResult>>, p: string): seq<SearchResult>
  {
    if p in sr then sr[p] else []
  }

  /** The injector's state across files, with the files written so far. */
  datatype RunState = RunState(stored: seq<byte>, stats: Stats, outputs: map<string, seq<byte>>)

  /** The files from `targets[k]` on, in order; a file missing from the
      RomFS is passed over. */
  function RunFiles(st: RunState, targets: seq<string>, gs: seq<RtzInjection.FileGroup>,
                    sr: map<string, seq<SearchResult>>, romfs: map<string, seq<byte>>,
                    gunzip: seq<byte> -> Option<seq<byte>>, gzip: seq<byte> -> seq<byte>, k: nat): RunState
    requires k <= |targets|
    decreases |targets| - k
  {
    if k == |targets| then st
    else
      var p := targets[k];
      var next :=
        if p in romfs then
          var o := InjectFile(romfs[p], RtzInjection.Lookup(gs, p), SearchOf(sr, p), st.stored, st.stats, gunzip, gzip);
          RunState(o.stored, o.stats, if o.written.Some? then st.outputs[p := o.written.value] else st.outputs)
        else st;
      RunFiles(next, targets, gs, sr, romfs, gunzip, gzip, k + 1)
  }

  /** With distinct targets, a path ends up written exactly when it was
      already, or it is still to come, exists and its own file result is
      a write; the bytes are that result. */
  lemma {:induction false} RunFilesOutputs(st: RunState, targets: seq<string>, gs: seq<RtzInjection.FileGroup>,
                                           sr: map<string, seq<SearchResult>>, romfs: map<string, seq<byte>>,
                                           gunzip: seq<byte> -> Option<seq<byte>>, gzip: seq<byte> -> seq<byte>,
                                           k: nat, q: string)
    requires k <= |targets|
    requires RtzInjection.Distinct(targets)
    requires q in targets[k..] ==> q !in st.outputs
    ensures q in RunFiles(st, targets, gs, sr, romfs, gunzip, gzip, k).outputs <==>
      q in st.outputs || (q in targets[k..] && q in romfs && FileWritten(romfs[q], RtzInjection.Lookup(gs, q), SearchOf(sr, q), gunzip, gzip).Some?)
    ensures q in RunFiles(st, targets, gs, sr, romfs, gunzip, gzip, k).outputs ==>
      RunFiles(st, targets, gs, sr, romfs, gunzip, gzip, k).outputs[q] ==
        if q in st.outputs then st.outputs[q] else FileWritten(romfs[q], RtzInjection.Lookup(gs, q), SearchOf(sr, q), gunzip, gzip).value
    decreases |targets| - k
  {
    if k < |targets| {
      var p := targets[k];
      assert targets[k..] == [p] + targets[k + 1..];
      assert p !in targets[k + 1..] by {
        var later := targets[k + 1..];
        assert forall j :: 0 <= j < |later| ==> later[j] == targets[k + 1 + j];
      }
      if p in romfs {
        InjectFileSpec(romfs[p], RtzInjection.Lookup(gs, p), SearchOf(sr, p), st.stored, st.stats, gunzip, gzip);
        var o := InjectFile(romfs[p], RtzInjection.Lookup(gs, p), SearchOf(sr, p), st.stored, st.stats, gunzip, gzip);
        var next := RunState(o.stored, o.stats, if o.written.Some? then st.outputs[p := o.written.value] else st.outputs);
        RunFilesOutputs(next, targets, gs, sr, romfs, gunzip, gzip, k + 1, q);
      } else {
        RunFilesOutputs(st, targets, gs, sr, romfs, gunzip, gzip, k + 1, q);
      }
    }
  }

  /** Over the files: the total of replacements only grows; when it does
      not, nothing is written; when it does, something is. */
  lemma {:induction false} RunFilesTotals(st: RunState, targets: seq<string>, gs: seq<RtzInjection.FileGroup>,
                                          sr: map<string, seq<SearchResult>>, romfs: map<string, seq<byte>>,
                                          gunzip: seq<byte> -> Option<seq<byte>>, gzip: seq<byte> -> seq<byte>, k: nat)
    requires k <= |targets|
    ensures RunFiles(st, targets, gs, sr, romfs, gunzip, gzip, k).stats.totalReplacements >= st.stats.totalReplacements
    ensures RunFiles(st, targets, gs, sr, romfs, gunzip, gzip, k).stats.totalReplacements == st.stats.totalReplacements
      ==> RunFiles(st, targets, gs, sr, romfs, gunzip, gzip, k).outputs == st.outputs
    ensures RunFiles(st, targets, gs, sr, romfs, gunzip, gzip, k).stats.totalReplacements > st.stats.totalReplacements
      ==> RunFiles(st, targets, gs, sr, romfs, gunzip, gzip, k).outputs != map[]
    ensures st.outputs != map[] ==> RunFiles(st, targets, gs, sr, romfs, gunzip, gzip, k).outputs != map[]
    ensures RunFiles(st, targets, gs, sr, romfs, gunzip, gzip, k).stats.filesProcessed == st.stats.filesProcessed
    decreases |targets| - k
  {
    if k < |targets| {
      var p := targets[k];
      if p in romfs {
        InjectFileSpec(romfs[p], RtzInjection.Lookup(gs, p), SearchOf(sr, p), st.stored, st.stats, gunzip, gzip);
        var o := InjectFile(romfs[p], RtzInjection.Lookup(gs, p), SearchOf(sr, p), st.stored, st.stats, gunzip, gzip);
        var next := RunState(o.stored, o.stats, if o.written.Some? then st.outputs[p := o.written.value] else st.outputs);
        if o.written.Some? {
          assert p in next.outputs;
        }
        RunFilesTotals(next, targets, gs, sr, romfs, gunzip, gzip, k + 1);
      } else {
        RunFilesTotals(st, targets, gs, sr, romfs, gunzip, gzip, k + 1);
      }
    }
  }

  /** The injector with its `stats` and the `modified_aligned_data` field,
      which holds nothing until a replacement stores a buffer there. */
  class PrecisionRtzInjector {
    var stats: Stats
    var modifiedAlignedData: seq<byte>

    constructor()
      ensures stats == NO_STATS && modifiedAlignedData == []
    {
      stats := NO_STATS;
      modifiedAlignedData := [];
    }

    /** `load_translations`: FAILED and incomplete rows skipped, one
        leading `romfs/` removed, translations grouped by file; a
        confidence `float()` rejects drops everything. */
    method LoadTranslations(rows: seq<RtzInjection.Row>) returns (translationsByFile: seq<RtzInjection.FileGroup>)
      ensures translationsByFile == RtzInjection.Loaded(rows)
    {
      translationsByFile := [];
      for k := 0 to |rows|
        invariant translationsByFile == RtzInjection.Group(rows[..k])
        invariant forall i :: 0 <= i < k && RtzInjection.Kept(rows[i]) ==> rows[i].confidenceParses
      {
        var row := rows[k];
        assert rows[..k + 1][..k] == rows[..k];
        if row.status == Some("FAILED") {
          continue;
        }
        var fileRef := Strip(row.file);
        var japaneseText := Strip(row.japanese);
        var englishText := Strip(row.english);
        if fileRef == "" || japaneseText == "" || englishText == "" {
          continue;
        }
        if RtzInjection.HasRomfsPrefix(fileRef) {
          fileRef := fileRef[6..];
        }
        if !row.confidenceParses {
          return [];
        }
        RtzInjection.NormaliseDropsPrefix(Strip(row.file));
        translationsByFile := RtzInjection.Insert(translationsByFile, fileRef, RtzInjection.Translation(japaneseText, englishText));
      }
      assert rows[..|rows|] == rows;
    }

    /** `replace_text_with_alignment`: the count it returns, and the
        buffer it stores when the text occurs in the aligned slice. */
    method ReplaceTextWithAlignment(data: seq<byte>, searchText: string, replaceText: string, alignment: int)
      returns (made: int)
      modifies this
      ensures made == AlignedReplace(data, searchText, replaceText, alignment).count
      ensures modifiedAlignedData == (match AlignedReplace(data, searchText, replaceText, alignment).stored
        case Some(m) => m
        case None => old(modifiedAlignedData))
      ensures stats == old(stats)
    {
      var alignedData := PySliceFrom(data, alignment);
      if |alignedData| % 2 == 1 {
        alignedData := alignedData[..|alignedData| - 1];
      }
      var searchBytes := Utf16.Encode(searchText);
      var replaceBytes := Utf16.Encode(replaceText);
      var countBefore: int := CountOf(alignedData, searchBytes);
      if countBefore == 0 {
        return 0;
      }
      modifiedAlignedData := ReplaceAll(alignedData, searchBytes, replaceBytes);
      var countAfter := CountOf(modifiedAlignedData, searchBytes);
      return countBefore - countAfter;
    }

    /** `get_modified_data`. */
    function GetModifiedData(): seq<byte>
      reads this
    {
      modifiedAlignedData
    }

    /** The translation loop of `inject_with_precise_alignment`. */
    method ApplyTranslations(data: seq<byte>, translations: seq<RtzInjection.Translation>, searchResults: seq<SearchResult>)
      returns (modifiedData: seq<byte>, successfulReplacements: nat)
      modifies this
      ensures PState(modifiedData, modifiedAlignedData, successfulReplacements, stats)
        == Precise(PState(data, old(modifiedAlignedData), 0, old(stats)), translations, searchResults, 0)
    {
      modifiedData := data;
      successfulReplacements := 0;
      ghost var goal := Precise(PState(data, modifiedAlignedData, 0, stats), translations, searchResults, 0);
      for k := 0 to |translations|
        invariant Precise(PState(modifiedData, modifiedAlignedData, successfulReplacements, stats), translations, searchResults, k) == goal
      {
        PreciseUnfold(PState(modifiedData, modifiedAlignedData, successfulReplacements, stats), translations, searchResults, k);
        modifiedData, successfulReplacements := TranslateOne(modifiedData, successfulReplacements, translations[k], searchResults);
      }
    }

    /** One turn of the translation loop: the best alignment looked up,
        the replacement tried there, and its result taken over and its
        match kind counted when the reported number is positive. */
    method TranslateOne(data: seq<byte>, successful: nat, translation: RtzInjection.Translation, searchResults: seq<SearchResult>)
      returns (modifiedData: seq<byte>, successfulReplacements: nat)
      modifies this
      ensures PState(modifiedData, modifiedAlignedData, successfulReplacements, stats)
        == Step(PState(data, old(modifiedAlignedData), successful, old(stats)), translation, searchResults)
    {
      ghost var before := PState(data, modifiedAlignedData, successful, stats);
      modifiedData, successfulReplacements := data, successful;
      var bestAlignment := FindBestAlignment(searchResults, translation.japanese);
      if bestAlignment.None? {
        StepNone(before, translation, searchResults);
        return;
      }
      ghost var r := AlignedReplace(data, translation.japanese, translation.english, bestAlignment.value);
      var replacementsMade := ReplaceTextWithAlignment(data, translation.japanese, translation.english, bestAlignment.value);
      StepSome(before, translation, searchResults, bestAlignment.value, r, modifiedAlignedData);
      if replacementsMade > 0 {
        modifiedData := GetModifiedData();
        successfulReplacements := successfulReplacements + replacementsMade;
        if HasExact(searchResults, translation.japanese) {
          stats := stats.(exactMatchesUsed := stats.exactMatchesUsed + 1);
        } else {
          stats := stats.(partialMatchesUsed := stats.partialMatchesUsed + 1);
        }
      }
    }

    /** `inject_with_precise_alignment` on the bytes of one file. */
    method InjectWithPreciseAlignment(rawData: seq<byte>, translations: seq<RtzInjection.Translation>,
                                      searchResults: seq<SearchResult>,
                                      gunzip: seq<byte> -> Option<seq<byte>>, gzip: seq<byte> -> seq<byte>)
      returns (success: bool, written: Option<seq<byte>>)
      modifies this
      ensures FileOutcome(written, modifiedAlignedData, stats)
        == InjectFile(rawData, translations, searchResults, old(modifiedAlignedData), old(stats), gunzip, gzip)
      ensures success <==> written.Some?
    {
      var header := PySlice(rawData, 0, 4);
      var compressedData := PySliceFrom(rawData, 4);
      var decompressedData := gunzip(compressedData);
      if decompressedData.None? {
        return false, None;
      }
      var modifiedData, successfulReplacements := ApplyTranslations(decompressedData.value, translations, searchResults);
      if successfulReplacements > 0 {
        var finalData := header + gzip(modifiedData);
        stats := stats.(successfulInjections := stats.successfulInjections + 1,
                        totalReplacements := stats.totalReplacements + successfulReplacements);
        return true, Some(finalData);
      }
      return false, None;
    }

    /** `run_precision_injection` over the search results by file, the
        translation rows and the RomFS files by path: it stops when
        either input is empty or no file has both; otherwise every target
        is processed in ascending order, and the run succeeds when the
        total of replacements is positive. */
    method RunPrecisionInjection(searchResultsByFile: map<string, seq<SearchResult>>, rows: seq<RtzInjection.Row>,
                                 romfs: map<string, seq<byte>>,
                                 gunzip: seq<byte> -> Option<seq<byte>>, gzip: seq<byte> -> seq<byte>)
      returns (ok: bool, outputs: map<string, seq<byte>>)
      modifies this
      ensures var gs := RtzInjection.Loaded(rows);
        if searchResultsByFile == map[] || gs == [] || Targets(searchResultsByFile, gs) == [] then
          !ok && outputs == map[] && stats == old(stats) && modifiedAlignedData == old(modifiedAlignedData)
        else
          && RunState(modifiedAlignedData, stats, outputs)
            == RunFiles(RunState(old(modifiedAlignedData), old(stats).(filesProcessed := |Targets(searchResultsByFile, gs)|), map[]),
                        Targets(searchResultsByFile, gs), gs, searchResultsByFile, romfs, gunzip, gzip, 0)
          && (ok <==> stats.totalReplacements > 0)
    {
      if searchResultsByFile == map[] {
        return false, map[];
      }
      var translationsByFile := LoadTranslations(rows);
      if translationsByFile == [] {
        return false, map[];
      }
      var targetFiles := SortPaths(Common(RtzInjection.Paths(translationsByFile), searchResultsByFile));
      if targetFiles == [] {
        return false, map[];
      }
      TargetsSpec(searchResultsByFile, rows);
      stats := stats.(filesProcessed := |targetFiles|);
      outputs := map[];
      ghost var goal := RunFiles(RunState(modifiedAlignedData, stats, outputs), targetFiles, translationsByFile,
                                 searchResultsByFile, romfs, gunzip, gzip, 0);
      for k := 0 to |targetFiles|
        invariant RunFiles(RunState(modifiedAlignedData, stats, outputs), targetFiles, translationsByFile,
                           searchResultsByFile, romfs, gunzip, gzip, k) == goal
      {
        var filePath := targetFiles[k];
        if filePath in romfs {
          var translations := RtzInjection.Lookup(translationsByFile, filePath);
          assert filePath in searchResultsByFile;
          var searchResults := searchResultsByFile[filePath];
          var success, written := InjectWithPreciseAlignment(romfs[filePath], translations, searchResults, gunzip, gzip);
          if success {
            outputs := outputs[filePath := written.value];
          }
        }
      }
      return stats.totalReplacements > 0, outputs;
    }
  }

  /** End to end, from a fresh injector: a file is written exactly when
      it has search results and loaded translations, exists, and its own
      result is a write, and the run succeeds exactly when some file is
      written. */
  lemma RunSpec(sr: map<string, seq<SearchResult>>, rows: seq<RtzInjection.Row>, romfs: map<string, seq<byte>>,
                gunzip: seq<byte> -> Option<seq<byte>>, gzip: seq<byte> -> seq<byte>, stored: seq<byte>, q: string)
    requires forall k :: 0 <= k < |rows| && RtzInjection.Kept(rows[k]) ==> rows[k].confidenceParses
    ensures var gs := RtzInjection.Loaded(rows);
      var r := RunFiles(RunState(stored, NO_STATS.(filesProcessed := |Targets(sr, gs)|), map[]), Targets(sr, gs), gs, sr, romfs, gunzip, gzip, 0);
      && (q in r.outputs <==> q in sr && RtzInjection.Select(rows, q) != [] && q in romfs
                              && FileWritten(romfs[q], RtzInjection.Select(rows, q), SearchOf(sr, q), gunzip, gzip).Some?)
      && (q in r.outputs ==> r.outputs[q] == FileWritten(romfs[q], RtzInjection.Select(rows, q), SearchOf(sr, q), gunzip, gzip).value)
      && (r.stats.totalReplacements > 0 <==> r.outputs != map[])
  {
    var gs := RtzInjection.Loaded(rows);
    var targets := Targets(sr, gs);
    var st := RunState(stored, NO_STATS.(filesProcessed := |targets|), map[]);
    TargetsSpec(sr, rows);
    StrictlySortedDistinct(targets);
    RtzInjection.GroupSpec(rows);
    assert targets[0..] == targets;
    RunFilesOutputs(st, targets, gs, sr, romfs, gunzip, gzip, 0, q);
    RunFilesTotals(st, targets, gs, sr, romfs, gunzip, gzip, 0);
    if q in sr && RtzInjection.Select(rows, q) != [] {
      assert gs == RtzInjection.Group(rows);
      assert RtzInjection.Lookup(gs, q) == RtzInjection.Select(rows, q);
    }
  }
}
