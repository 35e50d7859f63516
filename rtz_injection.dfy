/** scripts/rtz_injection_fixed.py: search-and-replace of UTF-16LE text
    in decompressed `.rtz` buffers. Every occurrence of the Japanese text
    is found (overlapping ones included), the occurrences are replaced
    from the last to the first, each one only if the Japanese bytes are
    still there, and the English text may be longer or shorter, so the
    buffer may change length. Translations come from CSV rows, grouped by
    the `.rtz` file they name after a path correction. */
module RtzInjection {

  import opened Wrappers
  import opened Bytes
  import opened Text
  import Utf16

  // ---------------------------------------------------------------------
  // find_text_in_rtz
  // ---------------------------------------------------------------------

  /** Every position at or after `start` where `p` occurs, in ascending
      order, overlapping occurrences included. */
  function Occurrences(s: seq<byte>, p: seq<byte>, start: nat): (r: seq<nat>)
    decreases |s| + 1 - start
  {
    if start + |p| > |s| then []
    else (if s[start..start + |p|] == p then [start] else []) + Occurrences(s, p, start + 1)
  }

  /** Every occurrence at or after `start` is listed and nothing else; the
      positions strictly ascend. */
  lemma {:induction false} OccurrencesSpec(s: seq<byte>, p: seq<byte>, start: nat)
    ensures forall q :: q in Occurrences(s, p, start) <==> start <= q && OccursAt(s, p, q)
    ensures forall i, j :: 0 <= i < j < |Occurrences(s, p, start)| ==> Occurrences(s, p, start)[i] < Occurrences(s, p, start)[j]
    decreases |s| + 1 - start
  {
    if start + |p| <= |s| {
      OccurrencesSpec(s, p, start + 1);
      var r := Occurrences(s, p, start);
      var tail := Occurrences(s, p, start + 1);
      if s[start..start + |p|] == p {
        assert r == [start] + tail;
        forall i, j | 0 <= i < j < |r| ensures r[i] < r[j] {
          assert r[j] == tail[j - 1] && r[j] in tail;
          if i > 0 {
            assert r[i] == tail[i - 1];
          }
        }
      } else {
        assert r == tail;
      }
    }
  }

  /** Positions where `p` does not occur contribute nothing. */
  lemma {:induction false} OccurrencesSkip(s: seq<byte>, p: seq<byte>, start: nat, stop: nat)
    requires start <= stop && forall i :: start <= i < stop ==> !OccursAt(s, p, i)
    ensures stop + |p| <= |s| ==> Occurrences(s, p, start) == Occurrences(s, p, stop)
    ensures stop + |p| > |s| ==> Occurrences(s, p, start) == []
    decreases stop - start
  {
    if start < stop {
      if start + |p| <= |s| {
        assert !OccursAt(s, p, start);
        assert Occurrences(s, p, start) == [] + Occurrences(s, p, start + 1);
      }
      OccurrencesSkip(s, p, start + 1, stop);
    }
  }

  /** What one `find` call contributes to the positions. */
  lemma FindStep(s: seq<byte>, p: seq<byte>, start: nat)
    ensures FindFrom(s, p, start) == -1 ==> Occurrences(s, p, start) == []
    ensures FindFrom(s, p, start) != -1 ==>
      Occurrences(s, p, start) == [FindFrom(s, p, start) as nat] + Occurrences(s, p, FindFrom(s, p, start) + 1)
  {
    var f := FindFrom(s, p, start);
    if f == -1 {
      OccurrencesSkip(s, p, start, if start <= |s| then |s| + 1 else start);
    } else {
      OccurrencesSkip(s, p, start, f);
      assert Occurrences(s, p, f) == [f as nat] + Occurrences(s, p, f + 1);
    }
  }

  /** One turn of the loop over `find`: the positions collected so far
      followed by the occurrences still ahead make up all of them. */
  lemma FindLoopStep(s: seq<byte>, p: seq<byte>, start: nat, positions: seq<nat>, all: seq<nat>)
    requires positions + Occurrences(s, p, start) == all
    ensures FindFrom(s, p, start) == -1 ==> positions == all
    ensures FindFrom(s, p, start) != -1 ==>
      && start < FindFrom(s, p, start) + 1 <= |s| + 1
      && (positions + [FindFrom(s, p, start) as nat]) + Occurrences(s, p, FindFrom(s, p, start) + 1) == all
  {
    FindStep(s, p, start);
    var f := FindFrom(s, p, start);
    if f == -1 {
      assert positions + [] == positions;
    } else {
      var next := Occurrences(s, p, f + 1);
      assert positions + ([f as nat] + next) == (positions + [f as nat]) + next;
    }
  }

  /** `find_text_in_rtz`: the loop over `find`, collecting positions. */
  method FindTextInRtz(rtzData: seq<byte>, searchText: string) returns (positions: seq<nat>)
    ensures positions == Occurrences(rtzData, Utf16.Encode(searchText), 0)
  {
    var searchBytes := Utf16.Encode(searchText);
    positions := [];
    var start: nat := 0;
    while true
      invariant start <= |rtzData| + 1
      invariant positions + Occurrences(rtzData, searchBytes, start) == Occurrences(rtzData, searchBytes, 0)
      decreases |rtzData| + 1 - start
    {
      var pos := FindFrom(rtzData, searchBytes, start);
      FindLoopStep(rtzData, searchBytes, start, positions, Occurrences(rtzData, searchBytes, 0));
      if pos == -1 {
        break;
      }
      positions := positions + [pos as nat];
      start := pos + 1;
    }
  }

  // ---------------------------------------------------------------------
  // replace_text_in_rtz
  // ---------------------------------------------------------------------

  /** One position of the backward pass: when the Japanese bytes are
      still at `pos`, the slice they occupy becomes the English bytes. */
  function ReplaceAt(data: seq<byte>, jp: seq<byte>, en: seq<byte>, pos: nat): (r: (seq<byte>, bool))
  {
    if pos + |jp| <= |data| && data[pos..pos + |jp|] == jp then (data[..pos] + en + data[pos + |jp|..], true)
    else (data, false)
  }

  /** The backward pass over the first `k` positions of `ps`: `ps[k - 1]`
      first, down to `ps[0]`. The result and the number of replacements
      made. */
  function ReplaceBackward(data: seq<byte>, jp: seq<byte>, en: seq<byte>, ps: seq<nat>, k: nat): (r: (seq<byte>, nat))
    requires k <= |ps|
    ensures r.1 <= k
    decreases k
  {
    if k == 0 then (data, 0)
    else
      var step := ReplaceAt(data, jp, en, ps[k - 1]);
      var rest := ReplaceBackward(step.0, jp, en, ps, k - 1);
      (rest.0, rest.1 + (if step.1 then 1 else 0))
  }

  /** What the rest of the backward pass, over the first `k` positions,
      gives after `made` replacements completes the whole pass `goal`. */
  predicate BackwardRemains(data: seq<byte>, jp: seq<byte>, en: seq<byte>, ps: seq<nat>, k: nat, made: nat, goal: (seq<byte>, nat))
    requires k <= |ps|
  {
    ReplaceBackward(data, jp, en, ps, k).0 == goal.0 && made + ReplaceBackward(data, jp, en, ps, k).1 == goal.1
  }

  /** One turn of the backward pass keeps `BackwardRemains`: position
      `k - 1` is tried, and counted when it is replaced. */
  lemma BackwardTurn(data: seq<byte>, jp: seq<byte>, en: seq<byte>, ps: seq<nat>, k: nat, made: nat, goal: (seq<byte>, nat))
    requires 0 < k <= |ps| && BackwardRemains(data, jp, en, ps, k, made, goal)
    ensures var st := ReplaceAt(data, jp, en, ps[k - 1]);
      BackwardRemains(st.0, jp, en, ps, k - 1, made + if st.1 then 1 else 0, goal)
  {
  }

  /** One turn of the backward loop: the Japanese bytes at `pos`, when
      still there, replaced by the English bytes. */
  method TryReplaceAt(data: seq<byte>, jp: seq<byte>, en: seq<byte>, pos: nat) returns (modifiedData: seq<byte>, replaced: bool)
    ensures (modifiedData, replaced) == ReplaceAt(data, jp, en, pos)
  {
    modifiedData, replaced := data, false;
    if pos + |jp| <= |data| {
      var foundText := data[pos..pos + |jp|];
      if foundText == jp {
        modifiedData, replaced := data[..pos] + en + data[pos + |jp|..], true;
      }
    }
  }

  /** The bytes added by `n` replacements that each add `d`, counted one
      replacement at a time. */
  function Growth(n: nat, d: int): int
  {
    if n == 0 then 0 else Growth(n - 1, d) + d
  }

  lemma {:induction false} GrowthIsProduct(n: nat, d: int)
    ensures Growth(n, d) == n * d
  {
    if n != 0 {
      GrowthIsProduct(n - 1, d);
      MulSucc(n - 1, d);
    }
  }

  /** `replace_text_in_rtz` on the encoded texts. */
  function ReplaceText(data: seq<byte>, japanese: string, english: string): (seq<byte>, nat)
  {
    var jp := Utf16.Encode(japanese);
    var ps := Occurrences(data, jp, 0);
    ReplaceBackward(data, jp, Utf16.Encode(english), ps, |ps|)
  }

  /** Each replacement changes the length by `len(en) - len(jp)`. */
  lemma {:induction false} ReplaceBackwardLength(data: seq<byte>, jp: seq<byte>, en: seq<byte>, ps: seq<nat>, k: nat)
    requires k <= |ps|
    ensures |ReplaceBackward(data, jp, en, ps, k).0| == |data| + Growth(ReplaceBackward(data, jp, en, ps, k).1, |en| - |jp|)
    decreases k
  {
    if k != 0 {
      var step := ReplaceAt(data, jp, en, ps[k - 1]);
      ReplaceBackwardLength(step.0, jp, en, ps, k - 1);
    }
  }

  /** Nothing before the first position changes: a replacement at `pos`
      keeps every byte before `pos`. */
  lemma {:induction false} ReplaceBackwardPrefix(data: seq<byte>, jp: seq<byte>, en: seq<byte>, ps: seq<nat>, k: nat, m: nat)
    requires k <= |ps| && m <= |data| && forall i :: 0 <= i < k ==> m <= ps[i]
    ensures m <= |ReplaceBackward(data, jp, en, ps, k).0|
    ensures ReplaceBackward(data, jp, en, ps, k).0[..m] == data[..m]
    decreases k
  {
    if k != 0 {
      var step := ReplaceAt(data, jp, en, ps[k - 1]);
      assert m <= |step.0| && step.0[..m] == data[..m];
      ReplaceBackwardPrefix(step.0, jp, en, ps, k - 1, m);
    }
  }

  /** Occurrences that do not overlap are all replaced: working backward,
      each replacement leaves the bytes of the earlier ones in place. */
  lemma {:induction false} SeparatedAllReplaced(data: seq<byte>, jp: seq<byte>, en: seq<byte>, ps: seq<nat>, k: nat)
    requires k <= |ps|
    requires forall i :: 0 <= i < k ==> OccursAt(data, jp, ps[i])
    requires forall i :: 0 <= i < k - 1 ==> ps[i] + |jp| <= ps[i + 1]
    ensures ReplaceBackward(data, jp, en, ps, k).1 == k
    decreases k
  {
    if k != 0 {
      var p := ps[k - 1];
      var step := ReplaceAt(data, jp, en, p);
      assert data[p..p + |jp|] == jp;
      assert step.1 && step.0[..p] == data[..p];
      forall i | 0 <= i < k - 1 ensures OccursAt(step.0, jp, ps[i]) {
        SeparatedBelow(ps, |jp|, i, k - 1);
        OccursInSharedPrefix(data, step.0, jp, p, ps[i]);
      }
      SeparatedAllReplaced(step.0, jp, en, ps, k - 1);
    }
  }

  /** An occurrence that ends by `m` is still there in a sequence that
      shares the first `m` elements. */
  lemma OccursInSharedPrefix(a: seq<byte>, b: seq<byte>, p: seq<byte>, m: nat, q: nat)
    requires m <= |a| && m <= |b| && a[..m] == b[..m] && q + |p| <= m && OccursAt(a, p, q)
    ensures OccursAt(b, p, q)
  {
    assert a[q..q + |p|] == a[..m][q..q + |p|];
    assert b[q..q + |p|] == b[..m][q..q + |p|];
  }

  /** In a list whose consecutive entries up to `j` are `gap` apart or
      more, every entry before `j` ends before entry `j` starts. */
  lemma {:induction false} SeparatedBelow(ps: seq<nat>, gap: nat, i: nat, j: nat)
    requires i < j < |ps| && forall q :: 0 <= q < j ==> ps[q] + gap <= ps[q + 1]
    ensures ps[i] + gap <= ps[j]
    decreases j - i
  {
    if i + 1 < j {
      SeparatedBelow(ps, gap, i + 1, j);
    }
  }

  // ---------------------------------------------------------------------
  // load_translations
  // ---------------------------------------------------------------------

  /** The four corrected file references. */
  const PATH_MAPPING: map<string, string> := map[
    "romfs/fe/tuto_007.rtz" := "fe/tuto_007.rtz",
    "romfs/fe/tuto_012.rtz" := "fe/tuto_012.rtz",
    "romfs/fe/tuto_013.rtz" := "fe/tuto_013.rtz",
    "romfs/script/FEV_G_S_03.rtz" := "script/FEV_G_S_03.rtz"]

  predicate HasRomfsPrefix(p: string)
  {
    |p| >= 6 && p[..6] == "romfs/"
  }

  /** A file reference becomes a path under the RomFS directory: the
      mapping first, then one leading `romfs/` removed. */
  function NormalisePath(ref: string): string
  {
    var mapped := if ref in PATH_MAPPING then PATH_MAPPING[ref] else ref;
    if HasRomfsPrefix(mapped) then mapped[6..] else mapped
  }

  /** The mapping only spells out what the prefix removal does anyway: the
      normalised path is the reference with one leading `romfs/` dropped. */
  lemma NormaliseDropsPrefix(ref: string)
    ensures NormalisePath(ref) == if HasRomfsPrefix(ref) then ref[6..] else ref
  {
    if ref in PATH_MAPPING {
      assert ref == "romfs/fe/tuto_007.rtz" || ref == "romfs/fe/tuto_012.rtz"
        || ref == "romfs/fe/tuto_013.rtz" || ref == "romfs/script/FEV_G_S_03.rtz";
      assert !HasRomfsPrefix(PATH_MAPPING[ref]) by {
        assert PATH_MAPPING[ref][0] != 'r';
      }
    }
  }

  /** One CSV row: a missing `translation_status` column is `None`, a
      missing text column is the empty string, and `confidenceParses`
      says whether `float()` accepts the `confidence` cell. */
  datatype Row = Row(status: Option<string>, file: string, japanese: string, english: string,
                     confidenceParses: bool)

  datatype Translation = Translation(japanese: string, english: string)

  /** The translations of one `.rtz` file, in row order. */
  datatype FileGroup = FileGroup(path: string, translations: seq<Translation>)

  /** A row is used unless it is marked FAILED or one of its three
      stripped fields is empty. */
  predicate Kept(row: Row)
  {
    row.status != Some("FAILED") && Strip(row.file) != "" && Strip(row.japanese) != "" && Strip(row.english) != ""
  }

  function Target(row: Row): string
  {
    NormalisePath(Strip(row.file))
  }

  function TranslationOf(row: Row): Translation
  {
    Translation(Strip(row.japanese), Strip(row.english))
  }

  /** The file paths of the groups, in order. */
  function Paths(gs: seq<FileGroup>): (ps: seq<string>)
    ensures |ps| == |gs|
  {
    if gs == [] then [] else Paths(gs[..|gs| - 1]) + [gs[|gs| - 1].path]
  }

  predicate Distinct(ps: seq<string>)
  {
    forall i, j :: 0 <= i < j < |ps| ==> ps[i] != ps[j]
  }

  /** The translations filed under `path`; none when there is no group. */
  function Lookup(gs: seq<FileGroup>, path: string): seq<Translation>
  {
    if gs == [] then []
    else if gs[|gs| - 1].path == path then gs[|gs| - 1].translations
    else Lookup(gs[..|gs| - 1], path)
  }

  /** Appending `t` to the translations of the group for `path`. */
  function Update(gs: seq<FileGroup>, path: string, t: Translation): seq<FileGroup>
  {
    if gs == [] then []
    else if gs[|gs| - 1].path == path then
      gs[..|gs| - 1] + [gs[|gs| - 1].(translations := gs[|gs| - 1].translations + [t])]
    else Update(gs[..|gs| - 1], path, t) + [gs[|gs| - 1]]
  }

  /** Appending `t` under `path`: to the existing group, or to a new group
      placed last. */
  function Insert(gs: seq<FileGroup>, path: string, t: Translation): seq<FileGroup>
  {
    if path in Paths(gs) then Update(gs, path, t) else gs + [FileGroup(path, [t])]
  }

  lemma {:induction false} UpdatePaths(gs: seq<FileGroup>, path: string, t: Translation)
    ensures Paths(Update(gs, path, t)) == Paths(gs)
  {
    if gs != [] {
      var r := Update(gs, path, t);
      if gs[|gs| - 1].path == path {
        assert r[..|r| - 1] == gs[..|gs| - 1];
      } else {
        UpdatePaths(gs[..|gs| - 1], path, t);
        assert r[..|r| - 1] == Update(gs[..|gs| - 1], path, t);
      }
    }
  }

  lemma {:induction false} LookupAbsent(gs: seq<FileGroup>, q: string)
    requires q !in Paths(gs)
    ensures Lookup(gs, q) == []
  {
    if gs != [] {
      assert Paths(gs) == Paths(gs[..|gs| - 1]) + [gs[|gs| - 1].path];
      LookupAbsent(gs[..|gs| - 1], q);
    }
  }

  lemma DistinctFront(ps: seq<string>)
    requires ps != [] && Distinct(ps)
    ensures Distinct(ps[..|ps| - 1]) && ps[|ps| - 1] !in ps[..|ps| - 1]
  {
  }

  lemma {:induction false} UpdateLookup(gs: seq<FileGroup>, path: string, t: Translation, q: string)
    requires Distinct(Paths(gs)) && path in Paths(gs)
    ensures Lookup(Update(gs, path, t), q) == Lookup(gs, q) + if q == path then [t] else []
  {
    var front, last := gs[..|gs| - 1], gs[|gs| - 1];
    var r := Update(gs, path, t);
    assert Paths(gs) == Paths(front) + [last.path];
    DistinctFront(Paths(gs));
    if last.path == path {
      assert r[..|r| - 1] == front;
    } else {
      assert r[..|r| - 1] == Update(front, path, t);
      if q != last.path {
        UpdateLookup(front, path, t, q);
      }
    }
  }

  lemma {:induction false} InsertSpec(gs: seq<FileGroup>, path: string, t: Translation)
    requires Distinct(Paths(gs))
    ensures Paths(Insert(gs, path, t)) == if path in Paths(gs) then Paths(gs) else Paths(gs) + [path]
    ensures Distinct(Paths(Insert(gs, path, t)))
    ensures forall q :: Lookup(Insert(gs, path, t), q) == Lookup(gs, q) + if q == path then [t] else []
  {
    if path in Paths(gs) {
      UpdatePaths(gs, path, t);
      forall q ensures Lookup(Insert(gs, path, t), q) == Lookup(gs, q) + if q == path then [t] else [] {
        UpdateLookup(gs, path, t, q);
      }
    } else {
      var r := gs + [FileGroup(path, [t])];
      assert r[..|r| - 1] == gs;
      LookupAbsent(gs, path);
    }
  }

  /** The grouping of the used rows, in the order their files first
      appear. */
  function Group(rows: seq<Row>): seq<FileGroup>
  {
    if rows == [] then []
    else
      var gs := Group(rows[..|rows| - 1]);
      var row := rows[|rows| - 1];
      if Kept(row) then Insert(gs, Target(row), TranslationOf(row)) else gs
  }

  /** Reference definition: the translations of the used rows that name
      `path`, in row order. */
  function Select(rows: seq<Row>, path: string): seq<Translation>
  {
    if rows == [] then []
    else
      var row := rows[|rows| - 1];
      Select(rows[..|rows| - 1], path) + if Kept(row) && Target(row) == path then [TranslationOf(row)] else []
  }

  /** The grouping files every used row under its own path and nowhere
      else: one group per path, holding exactly that path's rows in order,
      and a group exists exactly for the paths some used row names. */
  lemma {:induction false} GroupSpec(rows: seq<Row>)
    ensures Distinct(Paths(Group(rows)))
    ensures forall q :: Lookup(Group(rows), q) == Select(rows, q)
    ensures forall q :: q in Paths(Group(rows)) <==> Select(rows, q) != []
  {
    if rows != [] {
      var front, row := rows[..|rows| - 1], rows[|rows| - 1];
      GroupSpec(front);
      if Kept(row) {
        InsertSpec(Group(front), Target(row), TranslationOf(row));
      }
    }
  }

  /** What `load_translations` returns: the grouping, or nothing at all
      when `float()` rejects the confidence of a used row. */
  function Loaded(rows: seq<Row>): seq<FileGroup>
  {
    if forall k :: 0 <= k < |rows| && Kept(rows[k]) ==> rows[k].confidenceParses then Group(rows) else []
  }

  /** `load_translations`: the loop over the CSV rows. */
  method LoadTranslations(rows: seq<Row>) returns (translationsByFile: seq<FileGroup>)
    ensures translationsByFile == Loaded(rows)
  {
    translationsByFile := [];
    for k := 0 to |rows|
      invariant translationsByFile == Group(rows[..k])
      invariant forall i :: 0 <= i < k && Kept(rows[i]) ==> rows[i].confidenceParses
    {
      var row := rows[k];
      assert rows[..k + 1][..k] == rows[..k];
      if row.status == Some("FAILED") {
        continue;
      }
      var originalFileRef := Strip(row.file);
      var japaneseText := Strip(row.japanese);
      var englishText := Strip(row.english);
      if originalFileRef == "" || japaneseText == "" || englishText == "" {
        continue;
      }
      if !row.confidenceParses {
        return [];
      }
      translationsByFile := Insert(translationsByFile, NormalisePath(originalFileRef), Translation(japaneseText, englishText));
    }
    assert rows[..|rows|] == rows;
  }

  /** The counters of `injection_stats`. */
  datatype Stats = Stats(filesProcessed: nat, filesModified: nat, translationsApplied: nat,
                         translationsFailed: nat, bytesAdded: int)

  // ---------------------------------------------------------------------
  // process_rtz_file and run_injection
  // ---------------------------------------------------------------------

  /** The buffer after a list of translations, how many of them replaced
      something, and the size differences summed over all replacements. */
  datatype Applied = Applied(data: seq<byte>, applied: nat, added: int)

  /** The translations from `ts[k]` on, each tried on the buffer the
      previous ones left; a translation that replaces nothing leaves the
      buffer as it was. */
  function ApplyTranslations(data: seq<byte>, ts: seq<Translation>, k: nat): (a: Applied)
    requires k <= |ts|
    ensures a.applied <= |ts| - k
    decreases |ts| - k
  {
    if k == |ts| then Applied(data, 0, 0)
    else
      var r := ReplaceText(data, ts[k].japanese, ts[k].english);
      var rest := ApplyTranslations(if r.1 > 0 then r.0 else data, ts, k + 1);
      Applied(rest.data, rest.applied + (if r.1 > 0 then 1 else 0),
              rest.added + Growth(r.1, |Utf16.Encode(ts[k].english)| - |Utf16.Encode(ts[k].japanese)|))
  }

  /** What the translations from `ts[k]` on give, after `made` applied
      translations that added `added` bytes, completes the whole run `goal`. */
  predicate ApplyRemains(data: seq<byte>, ts: seq<Translation>, k: nat, made: nat, added: int, goal: Applied)
    requires k <= |ts|
  {
    var a := ApplyTranslations(data, ts, k);
    a.data == goal.data && made + a.applied == goal.applied && added + a.added == goal.added
  }

  /** One turn of the loop over the translations keeps `ApplyRemains`:
      translation `k` is tried on `data`, and the buffer, the count and
      the bytes added become `data2`, `made2` and `added2`. */
  lemma ApplyTurn(data: seq<byte>, ts: seq<Translation>, k: nat, made: nat, added: int, goal: Applied,
                  r: (seq<byte>, nat), data2: seq<byte>, made2: nat, added2: int)
    requires k < |ts| && ApplyRemains(data, ts, k, made, added, goal)
    requires r == ReplaceText(data, ts[k].japanese, ts[k].english)
    requires data2 == (if r.1 > 0 then r.0 else data) && made2 == made + (if r.1 > 0 then 1 else 0)
    requires added2 == added + Growth(r.1, |Utf16.Encode(ts[k].english)| - |Utf16.Encode(ts[k].japanese)|)
    ensures ApplyRemains(data2, ts, k + 1, made2, added2, goal)
  {
  }

  /** `replace_text_in_rtz` changes the length by the size difference once
      per replacement. */
  lemma ReplaceTextLength(data: seq<byte>, japanese: string, english: string)
    ensures |ReplaceText(data, japanese, english).0|
      == |data| + Growth(ReplaceText(data, japanese, english).1, |Utf16.Encode(english)| - |Utf16.Encode(japanese)|)
  {
    var jp := Utf16.Encode(japanese);
    var ps := Occurrences(data, jp, 0);
    ReplaceBackwardLength(data, jp, Utf16.Encode(english), ps, |ps|);
  }

  /** `bytes_added` is exactly how much the buffer grew, and a file where
      no translation applied is left untouched. */
  lemma {:induction false} ApplyTranslationsSpec(data: seq<byte>, ts: seq<Translation>, k: nat)
    requires k <= |ts|
    ensures |ApplyTranslations(data, ts, k).data| == |data| + ApplyTranslations(data, ts, k).added
    ensures ApplyTranslations(data, ts, k).applied == 0 ==> ApplyTranslations(data, ts, k).data == data && ApplyTranslations(data, ts, k).added == 0
    decreases |ts| - k
  {
    if k < |ts| {
      var r := ReplaceText(data, ts[k].japanese, ts[k].english);
      ApplyTranslationsSpec(if r.1 > 0 then r.0 else data, ts, k + 1);
      ReplaceTextLength(data, ts[k].japanese, ts[k].english);
    }
  }

  /** The buffer the translations work on: the gunzipped file, or the file
      itself when it is not gzip data. */
  function Working(original: seq<byte>, gunzip: seq<byte> -> Option<seq<byte>>): seq<byte>
  {
    match gunzip(original)
    case Some(d) => d
    case None => original
  }

  /** The bytes written: recompressed when the file was compressed, and
      left uncompressed when compression fails. */
  function FinalData(modified: seq<byte>, wasCompressed: bool, gzip: seq<byte> -> Option<seq<byte>>): seq<byte>
  {
    if wasCompressed then
      match gzip(modified)
      case Some(z) => z
      case None => modified
    else modified
  }

  /** What `process_rtz_file` writes for one file, if anything. */
  function FileWrite(original: seq<byte>, ts: seq<Translation>, gunzip: seq<byte> -> Option<seq<byte>>,
                     gzip: seq<byte> -> Option<seq<byte>>): Option<seq<byte>>
  {
    var a := ApplyTranslations(Working(original, gunzip), ts, 0);
    if a.applied > 0 then Some(FinalData(a.data, gunzip(original).Some?, gzip)) else None
  }

  /** The counters after one file. */
  function FileTally(s: Stats, original: seq<byte>, ts: seq<Translation>,
                     gunzip: seq<byte> -> Option<seq<byte>>): Stats
  {
    var a := ApplyTranslations(Working(original, gunzip), ts, 0);
    s.(filesModified := s.filesModified + (if a.applied > 0 then 1 else 0),
       translationsApplied := s.translationsApplied + a.applied,
       translationsFailed := s.translationsFailed + (|ts| - a.applied),
       bytesAdded := s.bytesAdded + a.added)
  }

  /** Every translation of the file is counted once, as applied or as
      failed; the file counts as modified exactly when it is written; and
      `bytes_added` grows by the growth of the decompressed buffer. */
  lemma FileTallySpec(s: Stats, original: seq<byte>, ts: seq<Translation>,
                      gunzip: seq<byte> -> Option<seq<byte>>, gzip: seq<byte> -> Option<seq<byte>>)
    ensures FileTally(s, original, ts, gunzip).translationsApplied + FileTally(s, original, ts, gunzip).translationsFailed
      == s.translationsApplied + s.translationsFailed + |ts|
    ensures FileTally(s, original, ts, gunzip).filesModified == s.filesModified + (if FileWrite(original, ts, gunzip, gzip).Some? then 1 else 0)
    ensures FileTally(s, original, ts, gunzip).bytesAdded - s.bytesAdded
      == |ApplyTranslations(Working(original, gunzip), ts, 0).data| - |Working(original, gunzip)|
    ensures FileTally(s, original, ts, gunzip).filesProcessed == s.filesProcessed
  {
    ApplyTranslationsSpec(Working(original, gunzip), ts, 0);
  }

  /** The files `run_injection` writes: for each group whose file exists,
      the bytes `process_rtz_file` writes. */
  function Outputs(romfs: map<string, seq<byte>>, gs: seq<FileGroup>, gunzip: seq<byte> -> Option<seq<byte>>,
                   gzip: seq<byte> -> Option<seq<byte>>): map<string, seq<byte>>
  {
    if gs == [] then map[]
    else
      var m := Outputs(romfs, gs[..|gs| - 1], gunzip, gzip);
      var g := gs[|gs| - 1];
      if g.path in romfs && FileWrite(romfs[g.path], g.translations, gunzip, gzip).Some? then
        m[g.path := FileWrite(romfs[g.path], g.translations, gunzip, gzip).value]
      else m
  }

  /** The counters after the groups, one file at a time. */
  function RunTally(s: Stats, romfs: map<string, seq<byte>>, gs: seq<FileGroup>,
                    gunzip: seq<byte> -> Option<seq<byte>>): Stats
  {
    if gs == [] then s
    else
      var prev := RunTally(s, romfs, gs[..|gs| - 1], gunzip);
      var g := gs[|gs| - 1];
      if g.path in romfs then FileTally(prev, romfs[g.path], g.translations, gunzip) else prev
  }

  /** With one group per path, a path is written exactly when its file
      exists and its own translations change it, and what is written is
      that file's result. */
  lemma {:induction false} OutputsSpec(romfs: map<string, seq<byte>>, gs: seq<FileGroup>,
                                       gunzip: seq<byte> -> Option<seq<byte>>, gzip: seq<byte> -> Option<seq<byte>>, q: string)
    requires Distinct(Paths(gs))
    ensures q in Outputs(romfs, gs, gunzip, gzip) <==> q in romfs && FileWrite(romfs[q], Lookup(gs, q), gunzip, gzip).Some?
    ensures q in Outputs(romfs, gs, gunzip, gzip) ==> Outputs(romfs, gs, gunzip, gzip)[q] == FileWrite(romfs[q], Lookup(gs, q), gunzip, gzip).value
  {
    if gs != [] {
      var front, g := gs[..|gs| - 1], gs[|gs| - 1];
      assert Paths(gs) == Paths(front) + [g.path];
      DistinctFront(Paths(gs));
      OutputsSpec(romfs, front, gunzip, gzip, q);
      if g.path == q {
        LookupAbsent(front, q);
        OutputsAbsent(romfs, front, gunzip, gzip, q);
      }
    }
  }

  lemma {:induction false} OutputsAbsent(romfs: map<string, seq<byte>>, gs: seq<FileGroup>,
                                         gunzip: seq<byte> -> Option<seq<byte>>, gzip: seq<byte> -> Option<seq<byte>>, q: string)
    requires q !in Paths(gs)
    ensures q !in Outputs(romfs, gs, gunzip, gzip)
  {
    if gs != [] {
      assert Paths(gs) == Paths(gs[..|gs| - 1]) + [gs[|gs| - 1].path];
      OutputsAbsent(romfs, gs[..|gs| - 1], gunzip, gzip, q);
    }
  }

  /** End to end: each file's output depends only on the CSV rows that
      name it, taken in row order. */
  lemma RunOutputs(rows: seq<Row>, romfs: map<string, seq<byte>>,
                   gunzip: seq<byte> -> Option<seq<byte>>, gzip: seq<byte> -> Option<seq<byte>>, q: string)
    requires forall k :: 0 <= k < |rows| && Kept(rows[k]) ==> rows[k].confidenceParses
    ensures q in Outputs(romfs, Loaded(rows), gunzip, gzip) <==> q in romfs && FileWrite(romfs[q], Select(rows, q), gunzip, gzip).Some?
    ensures q in Outputs(romfs, Loaded(rows), gunzip, gzip) ==> Outputs(romfs, Loaded(rows), gunzip, gzip)[q] == FileWrite(romfs[q], Select(rows, q), gunzip, gzip).value
  {
    GroupSpec(rows);
    OutputsSpec(romfs, Group(rows), gunzip, gzip, q);
  }

  /** The injector and its `injection_stats`. */
  class FixedRtzInjector {
    var stats: Stats

    constructor()
      ensures stats == Stats(0, 0, 0, 0, 0)
    {
      stats := Stats(0, 0, 0, 0, 0);
    }

    /** `replace_text_in_rtz`: the result and whether anything was
        replaced; `bytes_added` grows by the size difference once per
        replacement. */
    method ReplaceTextInRtz(rtzData: seq<byte>, japanese: string, english: string)
      returns (result: seq<byte>, success: bool)
      modifies this
      ensures result == ReplaceText(rtzData, japanese, english).0
      ensures success <==> ReplaceText(rtzData, japanese, english).1 > 0
      ensures stats == old(stats).(bytesAdded := old(stats).bytesAdded
        + Growth(ReplaceText(rtzData, japanese, english).1, |Utf16.Encode(english)| - |Utf16.Encode(japanese)|))
    {
      var positions := FindTextInRtz(rtzData, japanese);
      if |positions| == 0 {
        return rtzData, false;
      }
      var japaneseBytes := Utf16.Encode(japanese);
      var englishBytes := Utf16.Encode(english);
      var sizeDiff := |englishBytes| - |japaneseBytes|;
      var modifiedData := rtzData;
      var replacementsMade := 0;
      ghost var goal := ReplaceBackward(rtzData, japaneseBytes, englishBytes, positions, |positions|);
      var k := |positions|;
      while k > 0
        invariant 0 <= k <= |positions|
        invariant BackwardRemains(modifiedData, japaneseBytes, englishBytes, positions, k, replacementsMade, goal)
        invariant stats.bytesAdded == old(stats).bytesAdded + Growth(replacementsMade, sizeDiff)
        invariant stats == old(stats).(bytesAdded := stats.bytesAdded)
      {
        var pos := positions[k - 1];
        BackwardTurn(modifiedData, japaneseBytes, englishBytes, positions, k, replacementsMade, goal);
        var replaced;
        modifiedData, replaced := TryReplaceAt(modifiedData, japaneseBytes, englishBytes, pos);
        if replaced {
          replacementsMade := replacementsMade + 1;
          stats := stats.(bytesAdded := stats.bytesAdded + sizeDiff);
        }
        k := k - 1;
      }
      return modifiedData, replacementsMade > 0;
    }

    /** The translation loop of `process_rtz_file`: each translation is
        tried on the buffer the previous ones left, and counted as applied
        or failed. */
    method ApplyAll(workingData: seq<byte>, translations: seq<Translation>)
      returns (modifiedData: seq<byte>, successfulReplacements: nat)
      modifies this
      ensures modifiedData == ApplyTranslations(workingData, translations, 0).data
      ensures successfulReplacements == ApplyTranslations(workingData, translations, 0).applied
      ensures stats == old(stats).(translationsApplied := old(stats).translationsApplied + successfulReplacements,
                                   translationsFailed := old(stats).translationsFailed + (|translations| - successfulReplacements),
                                   bytesAdded := old(stats).bytesAdded + ApplyTranslations(workingData, translations, 0).added)
    {
      modifiedData := workingData;
      successfulReplacements := 0;
      ghost var start := stats;
      ghost var added := 0;
      ghost var goal := ApplyTranslations(workingData, translations, 0);
      for k := 0 to |translations|
        invariant ApplyRemains(modifiedData, translations, k, successfulReplacements, added, goal)
        invariant successfulReplacements <= k
        invariant stats == start.(translationsApplied := start.translationsApplied + successfulReplacements,
                                  translationsFailed := start.translationsFailed + (k - successfulReplacements),
                                  bytesAdded := start.bytesAdded + added)
      {
        var t := translations[k];
        ghost var before, made, added0 := modifiedData, successfulReplacements, added;
        ghost var r := ReplaceText(modifiedData, t.japanese, t.english);
        var newData, ok := ReplaceTextInRtz(modifiedData, t.japanese, t.english);
        if ok {
          modifiedData := newData;
          successfulReplacements := successfulReplacements + 1;
          stats := stats.(translationsApplied := stats.translationsApplied + 1);
        } else {
          stats := stats.(translationsFailed := stats.translationsFailed + 1);
        }
        added := added + Growth(r.1, |Utf16.Encode(translations[k].english)| - |Utf16.Encode(translations[k].japanese)|);
        ApplyTurn(before, translations, k, made, added0, goal, r, modifiedData, successfulReplacements, added);
      }
    }

    /** `process_rtz_file` on the bytes of the file: the translations in
        order, then the write when any of them applied. */
    method ProcessRtzFile(originalData: seq<byte>, translations: seq<Translation>,
                          gunzip: seq<byte> -> Option<seq<byte>>, gzip: seq<byte> -> Option<seq<byte>>)
      returns (success: bool, written: Option<seq<byte>>)
      modifies this
      ensures written == FileWrite(originalData, translations, gunzip, gzip)
      ensures success <==> written.Some?
      ensures stats == FileTally(old(stats), originalData, translations, gunzip)
    {
      var wasCompressed := gunzip(originalData).Some?;
      var workingData := Working(originalData, gunzip);
      var modifiedData, successfulReplacements := ApplyAll(workingData, translations);
      if successfulReplacements > 0 {
        var finalData := FinalData(modifiedData, wasCompressed, gzip);
        stats := stats.(filesModified := stats.filesModified + 1);
        return true, Some(finalData);
      }
      return false, None;
    }

    /** `run_injection` over the CSV rows and the RomFS files by path:
        nothing happens when no translation loads; otherwise
        `files_processed` is the number of files named, each existing file
        is processed in turn and the written files are returned. */
    method RunInjection(rows: seq<Row>, romfs: map<string, seq<byte>>,
                        gunzip: seq<byte> -> Option<seq<byte>>, gzip: seq<byte> -> Option<seq<byte>>)
      returns (ok: bool, outputs: map<string, seq<byte>>)
      modifies this
      ensures ok <==> Loaded(rows) != []
      ensures outputs == Outputs(romfs, Loaded(rows), gunzip, gzip)
      ensures stats == if ok then RunTally(old(stats).(filesProcessed := |Loaded(rows)|), romfs, Loaded(rows), gunzip) else old(stats)
    {
      var translationsByFile := LoadTranslations(rows);
      if translationsByFile == [] {
        return false, map[];
      }
      stats := stats.(filesProcessed := |translationsByFile|);
      ghost var start := stats;
      outputs := map[];
      for k := 0 to |translationsByFile|
        invariant outputs == Outputs(romfs, translationsByFile[..k], gunzip, gzip)
        invariant stats == RunTally(start, romfs, translationsByFile[..k], gunzip)
      {
        var g := translationsByFile[k];
        assert translationsByFile[..k + 1][..k] == translationsByFile[..k];
        if g.path in romfs {
          var success, written := ProcessRtzFile(romfs[g.path], g.translations, gunzip, gzip);
          if success {
            outputs := outputs[g.path := written.value];
          }
        }
      }
      assert translationsByFile[..|translationsByFile|] == translationsByFile;
      return true, outputs;
    }
  }
}
