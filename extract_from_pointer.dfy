/** The string extraction of scripts/extract_from_pointer.py: pointer rows
    are grouped by target, targets that follow a separator unit and start
    with a printable unit are kept, each kept target's extent runs to the
    next kept target, the trailing separator run is split off, and one CSV
    row `pointer_offsets;pointer_value;separators;extract` is produced per
    kept target. */
module ExtractFromPointer {

  import opened Wrappers
  import opened Bytes
  import opened Text
  import opened Ordering
  import Utf16

  const BASE_ADDR: int := 0x100000
  const PATCH_START: int := 0x949720
  const PATCH_END: int := 0xB51CD0

  // ---------------------------------------------------------------------
  // Separators
  // ---------------------------------------------------------------------

  /** `is_separator`: the unit `00 00` or `FF FF`. */
  predicate IsSeparator(pair: seq<byte>)
  {
    pair == [0x00, 0x00] || pair == [0xFF, 0xFF]
  }

  /** The unit at `i` is a separator. */
  predicate SeparatorAt(s: seq<byte>, i: int)
    requires 0 <= i && i + 2 <= |s|
  {
    IsSeparator(s[i..i + 2])
  }

  /** A whole number of separator units. */
  predicate IsSeparatorRun(s: seq<byte>)
  {
    |s| % 2 == 0 && forall i :: 0 <= i < |s| - 1 && i % 2 == 0 ==> SeparatorAt(s, i)
  }

  predicate EndsInSeparator(s: seq<byte>)
  {
    |s| >= 2 && SeparatorAt(s, |s| - 2)
  }

  /** The length of the run of separator units ending `s`, counted two
      bytes at a time from the end. */
  function SeparatorTail(s: seq<byte>): (n: nat)
    ensures n <= |s| && n % 2 == 0
    decreases |s|
  {
    if EndsInSeparator(s) then SeparatorTail(s[..|s| - 2]) + 2 else 0
  }

  /** A separator unit in front of a run makes a longer run. */
  lemma RunPrepend(tail: seq<byte>, run: seq<byte>)
    requires |tail| == 2 && IsSeparator(tail) && IsSeparatorRun(run)
    ensures IsSeparatorRun(tail + run)
  {
    var r := tail + run;
    forall i | 0 <= i < |r| - 1 && i % 2 == 0 ensures SeparatorAt(r, i) {
      if i == 0 {
        assert r[0..2] == tail;
      } else {
        assert r[i..i + 2] == run[i - 2..i];
        assert SeparatorAt(run, i - 2);
      }
    }
  }

  /** A separator unit after a run makes a longer run. */
  lemma RunAppend(run: seq<byte>, tail: seq<byte>)
    requires |tail| == 2 && IsSeparator(tail) && IsSeparatorRun(run)
    ensures IsSeparatorRun(run + tail)
  {
    var r := run + tail;
    forall i | 0 <= i < |r| - 1 && i % 2 == 0 ensures SeparatorAt(r, i) {
      if i == |run| {
        assert r[i..i + 2] == tail;
      } else {
        assert r[i..i + 2] == run[i..i + 2];
        assert SeparatorAt(run, i);
      }
    }
  }

  /** What the run length means: the last `n` bytes are separator units and
      what precedes them does not end in one. */
  lemma {:induction false} SeparatorTailSpec(s: seq<byte>)
    ensures var n := SeparatorTail(s);
      IsSeparatorRun(s[|s| - n..]) && !EndsInSeparator(s[..|s| - n])
    decreases |s|
  {
    if EndsInSeparator(s) {
      var p := s[..|s| - 2];
      var m := SeparatorTail(p);
      SeparatorTailSpec(p);
      assert s[|s| - (m + 2)..] == p[|p| - m..] + s[|s| - 2..];
      RunAppend(p[|p| - m..], s[|s| - 2..]);
      assert s[..|s| - (m + 2)] == p[..|p| - m];
    } else {
      assert s[|s|..] == [];
      assert s[..|s|] == s;
    }
  }

  /** `strip_trailing_separators`: removes separator units from the end
      while there are any, prepending each to the collected run. */
  method StripTrailingSeparators(input: seq<byte>) returns (chunk: seq<byte>, sep: seq<byte>)
    ensures chunk + sep == input
    ensures IsSeparatorRun(sep)
    ensures !EndsInSeparator(chunk)
    ensures |sep| == SeparatorTail(input)
  {
    chunk, sep := input, [];
    while |chunk| >= 2 && IsSeparator(chunk[|chunk| - 2..])
      invariant chunk + sep == input
      invariant IsSeparatorRun(sep)
      invariant SeparatorTail(input) == SeparatorTail(chunk) + |sep|
      decreases |chunk|
    {
      var tail := chunk[|chunk| - 2..];
      var rest := chunk[..|chunk| - 2];
      RunPrepend(tail, sep);
      assert chunk == rest + tail;
      sep := tail + sep;
      chunk := rest;
    }
  }

  /** Any split into a part that does not end in a separator unit followed
      by a separator run is the split `strip_trailing_separators` makes. */
  lemma {:induction false} SeparatorSplitUnique(chunk: seq<byte>, sep: seq<byte>)
    requires IsSeparatorRun(sep) && !EndsInSeparator(chunk)
    ensures SeparatorTail(chunk + sep) == |sep|
    decreases |sep|
  {
    var s := chunk + sep;
    if sep == [] {
      assert s == chunk;
    } else {
      var shorter := sep[..|sep| - 2];
      RunDropLast(sep);
      assert s[|s| - 2..|s|] == sep[|sep| - 2..|sep|];
      assert EndsInSeparator(s);
      SeparatorSplitUnique(chunk, shorter);
      assert s[..|s| - 2] == chunk + shorter;
    }
  }

  /** A non-empty run ends in a separator unit, and without it is a run. */
  lemma RunDropLast(sep: seq<byte>)
    requires IsSeparatorRun(sep) && sep != []
    ensures EndsInSeparator(sep) && IsSeparatorRun(sep[..|sep| - 2])
  {
    var n := |sep|;
    assert SeparatorAt(sep, n - 2);
    var shorter := sep[..n - 2];
    forall i | 0 <= i < |shorter| - 1 && i % 2 == 0 ensures SeparatorAt(shorter, i) {
      assert shorter[i..i + 2] == sep[i..i + 2];
      assert SeparatorAt(sep, i);
    }
  }

  /** Each separator byte as two upper-case hexadecimal digits (`%02X`). */
  function HexCells(sep: seq<byte>): (cells: seq<string>)
    ensures |cells| == |sep|
  {
    seq(|sep|, k requires 0 <= k < |sep| => FormatPadded(sep[k], 2, 16))
  }

  /** The separators cell: two-digit upper-case hex bytes joined by single
      spaces, or `(aucun)` when there are none. */
  function FormatSeparators(sep: seq<byte>): (cell: string)
    ensures sep == [] <==> cell == "(aucun)"
  {
    if sep == [] then "(aucun)"
    else
      var cells := HexCells(sep);
      var j := Join(cells, " ");
      assert |cells[0]| >= 1 by { PaddedDigits(sep[0], 2, 16); }
      FirstCellLeads(cells, " ");
      PaddedDigits(sep[0], 2, 16);
      assert DigitValue(j[0], 16) >= 0;
      j
  }

  /** A join starts with the first part's first character. */
  lemma FirstCellLeads(cells: seq<string>, sep: string)
    requires |cells| >= 1 && |cells[0]| >= 1
    ensures |Join(cells, sep)| >= 1 && Join(cells, sep)[0] == cells[0][0]
  {
  }

  /** The pointer-locations cell: `0x%06X` per location, joined by commas. */
  function FormatLocations(locs: seq<int>): string
  {
    Join(seq(|locs|, k requires 0 <= k < |locs| => "0x" + FormatPadded(locs[k], 6, 16)), ",")
  }

  // ---------------------------------------------------------------------
  // Grouping the pointer rows
  // ---------------------------------------------------------------------

  /** A pointer row: the location `off` holds the target `val`. */
  datatype Ptr = Ptr(off: int, val: int)

  /** A target with the locations that point at it. */
  datatype Group = Group(target: int, locations: seq<int>)

  predicate TargetsAscending(gs: seq<Group>)
  {
    forall i, j :: 0 <= i < j < |gs| ==> gs[i].target < gs[j].target
  }

  predicate InPatch(v: int) { PATCH_START <= v < PATCH_END }

  /** One CSV row as `load_and_group_pointers` reads it: rows with fewer
      than two fields or whose first field is `offset` in any case are
      skipped, a trailing run of `L`/`l` is removed from both fields, and a
      field that is not hexadecimal makes the row be skipped. */
  function ParseRow(row: seq<string>): Option<Ptr>
  {
    if |row| < 2 || EqualsIgnoringCase(row[0], "offset") then None
    else
      match (ParseInt(RStripChars(row[0], {'L', 'l'}), 16), ParseInt(RStripChars(row[1], {'L', 'l'}), 16))
      case (Some(off), Some(val)) => Some(Ptr(off, val))
      case _ => None
  }

  /** The rows' pointers whose target lies in [PATCH_START, PATCH_END), in row order. */
  function KeptPairs(rows: seq<seq<string>>): seq<Ptr>
  {
    if rows == [] then []
    else
      var last := ParseRow(rows[|rows| - 1]);
      KeptPairs(rows[..|rows| - 1]) + (if last.Some? && InPatch(last.value.val) then [last.value] else [])
  }

  /** The locations pointing at `v`, in row order. */
  function LocationsOf(ps: seq<Ptr>, v: int): seq<int>
  {
    if ps == [] then []
    else LocationsOf(ps[..|ps| - 1], v) + (if ps[|ps| - 1].val == v then [ps[|ps| - 1].off] else [])
  }

  /** The distinct targets in order of first appearance (the dictionary's key order). */
  function Keys(ps: seq<Ptr>): seq<int>
  {
    if ps == [] then []
    else
      var k := Keys(ps[..|ps| - 1]);
      if ps[|ps| - 1].val in k then k else k + [ps[|ps| - 1].val]
  }

  /** The key order holds each kept target once. */
  lemma {:induction false} KeysExact(ps: seq<Ptr>)
    ensures Distinct(Keys(ps))
    ensures forall v :: v in Keys(ps) <==> exists p :: p in ps && p.val == v
  {
    if ps != [] {
      var front := ps[..|ps| - 1];
      KeysExact(front);
      assert forall q :: q in ps <==> q in front || q == ps[|ps| - 1];
    }
  }

  /** The grouping `load_and_group_pointers` returns: targets ascending,
      each with its locations ascending. */
  function GroupsOf(rows: seq<seq<string>>): seq<Group>
  {
    var ps := KeptPairs(rows);
    var keys := SortInts(Keys(ps));
    seq(|keys|, k requires 0 <= k < |keys| => Group(keys[k], SortInts(LocationsOf(ps, keys[k]))))
  }

  /** The pointers one row contributes. */
  function Kept(row: seq<string>): seq<Ptr>
  {
    var parsed := ParseRow(row);
    if parsed.Some? && InPatch(parsed.value.val) then [parsed.value] else []
  }

  lemma KeptPairsStep(rows: seq<seq<string>>, i: nat)
    requires i < |rows|
    ensures KeptPairs(rows[..i + 1]) == KeptPairs(rows[..i]) + Kept(rows[i])
  {
    assert rows[..i + 1][..i] == rows[..i];
  }

  lemma LocationsStep(ps: seq<Ptr>, p: Ptr, v: int)
    ensures LocationsOf(ps + [p], v) == LocationsOf(ps, v) + (if p.val == v then [p.off] else [])
  {
    assert (ps + [p])[..|ps|] == ps;
  }

  lemma KeysStep(ps: seq<Ptr>, p: Ptr)
    ensures Keys(ps + [p]) == if p.val in Keys(ps) then Keys(ps) else Keys(ps) + [p.val]
  {
    assert (ps + [p])[..|ps|] == ps;
  }

  /** The dictionary built from the pointers `ps`: its key order is the
      order of first appearance, each key maps to its locations in order. */
  ghost predicate Grouped(order: seq<int>, ptrMap: map<int, seq<int>>, ps: seq<Ptr>)
  {
    && order == Keys(ps)
    && (forall v :: v in ptrMap <==> v in order)
    && (forall v :: v in ptrMap ==> ptrMap[v] == LocationsOf(ps, v))
  }

  /** One kept pointer added to the dictionary (`setdefault(val, []).append(off)`). */
  method AddPointer(order: seq<int>, ptrMap: map<int, seq<int>>, ghost ps: seq<Ptr>, p: Ptr)
    returns (order': seq<int>, ptrMap': map<int, seq<int>>)
    requires Grouped(order, ptrMap, ps)
    ensures Grouped(order', ptrMap', ps + [p])
  {
    KeysStep(ps, p);
    KeysExact(ps);
    forall v ensures LocationsOf(ps + [p], v) == LocationsOf(ps, v) + (if p.val == v then [p.off] else []) {
      LocationsStep(ps, p, v);
    }
    if p.val in ptrMap {
      ptrMap' := ptrMap[p.val := ptrMap[p.val] + [p.off]];
      order' := order;
    } else {
      LocationsAbsent(ps, p.val);
      ptrMap' := ptrMap[p.val := [p.off]];
      order' := order + [p.val];
    }
  }

  /** The loop of `load_and_group_pointers`: a dictionary (its key order
      and its map) from target to the locations in row order. */
  method GroupRows(rows: seq<seq<string>>) returns (order: seq<int>, ptrMap: map<int, seq<int>>)
    ensures Grouped(order, ptrMap, KeptPairs(rows))
  {
    ptrMap, order := map[], [];
    for i := 0 to |rows|
      invariant Grouped(order, ptrMap, KeptPairs(rows[..i]))
    {
      ghost var before := KeptPairs(rows[..i]);
      KeptPairsStep(rows, i);
      var parsed := ParseRow(rows[i]);
      if parsed.Some? && PATCH_START <= parsed.value.val < PATCH_END {
        assert Kept(rows[i]) == [parsed.value];
        order, ptrMap := AddPointer(order, ptrMap, before, parsed.value);
      } else {
        assert Kept(rows[i]) == [];
        assert before + [] == before;
      }
    }
    assert rows[..|rows|] == rows;
  }

  /** `load_and_group_pointers`: the row loop, then the dictionary rebuilt
      with keys ascending and each list sorted. */
  method LoadAndGroupPointers(rows: seq<seq<string>>) returns (groups: seq<Group>)
    ensures groups == GroupsOf(rows)
  {
    var order, ptrMap := GroupRows(rows);
    var keys := SortInts(order);
    SortIntsSorted(order);
    assert forall k :: 0 <= k < |keys| ==> keys[k] in ptrMap by {
      forall k | 0 <= k < |keys| ensures keys[k] in ptrMap {
        assert keys[k] in multiset(order);
      }
    }
    groups := seq(|keys|, k requires 0 <= k < |keys| => Group(keys[k], SortInts(ptrMap[keys[k]])));
  }

  /** A target that no pointer holds has no locations. */
  lemma {:induction false} LocationsAbsent(ps: seq<Ptr>, v: int)
    requires forall p :: p in ps ==> p.val != v
    ensures LocationsOf(ps, v) == []
  {
    if ps != [] {
      LocationsAbsent(ps[..|ps| - 1], v);
    }
  }

  /** A pointer is kept exactly when some row parses to it and its target
      lies in [PATCH_START, PATCH_END). */
  lemma {:induction false} KeptPairsExact(rows: seq<seq<string>>, p: Ptr)
    ensures p in KeptPairs(rows) <==>
      (exists r :: r in rows && ParseRow(r) == Some(p)) && InPatch(p.val)
  {
    if rows != [] {
      var front := rows[..|rows| - 1];
      KeptPairsExact(front, p);
      assert forall r :: r in rows <==> r in front || r == rows[|rows| - 1];
    }
  }

  /** Every location of a pointer at `v` is in `v`'s list, as often as it occurs. */
  lemma {:induction false} LocationsOfCount(ps: seq<Ptr>, v: int, off: int)
    ensures multiset(LocationsOf(ps, v))[off] == multiset(ps)[Ptr(off, v)]
  {
    if ps != [] {
      var front := ps[..|ps| - 1];
      LocationsOfCount(front, v, off);
      assert ps == front + [ps[|ps| - 1]];
    }
  }

  /** The sorted keys are the distinct kept targets, strictly ascending. */
  lemma GroupKeys(rows: seq<seq<string>>)
    ensures StrictlyIncreasing(SortInts(Keys(KeptPairs(rows))))
    ensures forall v :: v in SortInts(Keys(KeptPairs(rows))) <==> v in Keys(KeptPairs(rows))
  {
    var ks := SortInts(Keys(KeptPairs(rows)));
    KeysExact(KeptPairs(rows));
    SortIntsSorted(Keys(KeptPairs(rows)));
    SortIntsDistinct(Keys(KeptPairs(rows)));
    forall v ensures v in ks <==> v in Keys(KeptPairs(rows)) {
      assert v in ks <==> v in multiset(ks);
    }
  }

  /** The k-th group's target is the k-th sorted key. */
  lemma GroupTarget(rows: seq<seq<string>>, k: nat)
    requires k < |GroupsOf(rows)|
    ensures |GroupsOf(rows)| == |SortInts(Keys(KeptPairs(rows)))|
    ensures GroupsOf(rows)[k].target == SortInts(Keys(KeptPairs(rows)))[k]
  {
  }

  /** The grouping's targets are strictly ascending. */
  lemma GroupsOfAscending(rows: seq<seq<string>>)
    ensures TargetsAscending(GroupsOf(rows))
  {
    GroupKeys(rows);
    forall i, j | 0 <= i < j < |GroupsOf(rows)| ensures GroupsOf(rows)[i].target < GroupsOf(rows)[j].target {
      GroupTarget(rows, i);
      GroupTarget(rows, j);
    }
  }

  /** Every group's target is the target of a kept pointer, hence in the patch range. */
  lemma GroupsOfTargetKept(rows: seq<seq<string>>, k: nat)
    requires k < |GroupsOf(rows)|
    ensures InPatch(GroupsOf(rows)[k].target)
    ensures exists p :: p in KeptPairs(rows) && p.val == GroupsOf(rows)[k].target
  {
    var ps := KeptPairs(rows);
    GroupTarget(rows, k);
    GroupKeys(rows);
    KeysExact(ps);
    var ks := SortInts(Keys(ps));
    assert ks[k] in Keys(ps);
    var p :| p in ps && p.val == ks[k];
    KeptPairsExact(rows, p);
  }

  /** Every kept pointer's target has a group. */
  lemma GroupsOfTargetCovers(rows: seq<seq<string>>, p: Ptr)
    requires p in KeptPairs(rows)
    ensures exists k :: 0 <= k < |GroupsOf(rows)| && GroupsOf(rows)[k].target == p.val
  {
    var ps := KeptPairs(rows);
    var ks := SortInts(Keys(ps));
    GroupKeys(rows);
    KeysExact(ps);
    assert p.val in ks;
    var k :| 0 <= k < |ks| && ks[k] == p.val;
    GroupTarget(rows, k);
  }

  /** Each target's location list is ascending and holds every location
      exactly as often as a kept pointer row gives it. */
  lemma GroupsOfLocations(rows: seq<seq<string>>, k: nat, off: int)
    requires k < |GroupsOf(rows)|
    ensures Ascending(GroupsOf(rows)[k].locations)
    ensures multiset(GroupsOf(rows)[k].locations)[off] == multiset(KeptPairs(rows))[Ptr(off, GroupsOf(rows)[k].target)]
  {
    var ps := KeptPairs(rows);
    var v := GroupsOf(rows)[k].target;
    SortIntsSorted(LocationsOf(ps, v));
    LocationsOfCount(ps, v, off);
  }

  // ---------------------------------------------------------------------
  // Selecting targets and slicing extents
  // ---------------------------------------------------------------------

  /** The strict UTF-16LE decode of the unit at `fo` followed by `isprintable`:
      an empty slice decodes to the empty text, which is printable; one
      byte or a surrogate unit fails to decode. */
  predicate FirstUnitPrintable(data: seq<byte>, fo: int, printable: char -> bool)
  {
    var w := PySlice(data, fo, fo + 2);
    |w| == 0 ||
    (|w| == 2 &&
      var u := (w[0] as int) + 256 * (w[1] as int);
      !(0xD800 <= u < 0xE000) && printable(u as char))
  }

  /** A target is kept when its file offset is at least 2, the two bytes
      before it form a separator unit, and its first unit is printable. */
  predicate KeepTarget(data: seq<byte>, val: int, printable: char -> bool)
  {
    var fo := val - BASE_ADDR;
    fo >= 2 && IsSeparator(PySlice(data, fo - 2, fo)) && FirstUnitPrintable(data, fo, printable)
  }

  /** The kept groups, in target order. */
  function ValidGroups(gs: seq<Group>, data: seq<byte>, printable: char -> bool): seq<Group>
  {
    if gs == [] then []
    else
      var last := gs[|gs| - 1];
      ValidGroups(gs[..|gs| - 1], data, printable) + (if KeepTarget(data, last.target, printable) then [last] else [])
  }

  /** A group is kept exactly when it passes the checks. */
  lemma {:induction false} ValidGroupsExact(gs: seq<Group>, data: seq<byte>, printable: char -> bool)
    ensures forall g :: g in ValidGroups(gs, data, printable) <==> g in gs && KeepTarget(data, g.target, printable)
  {
    if gs != [] {
      var front := gs[..|gs| - 1];
      ValidGroupsExact(front, data, printable);
      assert forall g :: g in gs <==> g in front || g == gs[|gs| - 1];
    }
  }

  lemma {:induction false} ValidGroupsSubset(gs: seq<Group>, data: seq<byte>, printable: char -> bool, g: Group)
    requires g in ValidGroups(gs, data, printable)
    ensures g in gs
  {
    var front := gs[..|gs| - 1];
    if g != gs[|gs| - 1] {
      ValidGroupsSubset(front, data, printable, g);
    }
  }

  /** Keeping a subsequence keeps targets strictly ascending. */
  lemma {:induction false} ValidGroupsAscending(gs: seq<Group>, data: seq<byte>, printable: char -> bool)
    requires TargetsAscending(gs)
    ensures TargetsAscending(ValidGroups(gs, data, printable))
  {
    if gs != [] {
      var front := gs[..|gs| - 1];
      var last := gs[|gs| - 1];
      ValidGroupsAscending(front, data, printable);
      var vf := ValidGroups(front, data, printable);
      forall g | g in vf ensures g.target < last.target {
        ValidGroupsSubset(front, data, printable, g);
        var m :| 0 <= m < |front| && front[m] == g;
        assert gs[m] == g;
      }
      var vs := ValidGroups(gs, data, printable);
      assert vs == vf + (if KeepTarget(data, last.target, printable) then [last] else []);
      forall i, j | 0 <= i < j < |vs| ensures vs[i].target < vs[j].target {
        assert vs[i] == vf[i];
        if j >= |vf| {
          assert vf[i] in vf && vs[j] == last;
        } else {
          assert vs[j] == vf[j];
        }
      }
    }
  }

  /** The file-offset extent of the idx-th kept target: from its own offset
      to the next kept target's, or to PATCH_END - BASE_ADDR for the last. */
  function ExtentStart(vs: seq<Group>, idx: nat): int
    requires idx < |vs|
  {
    vs[idx].target - BASE_ADDR
  }

  function ExtentEnd(vs: seq<Group>, idx: nat): int
    requires idx < |vs|
  {
    if idx + 1 < |vs| then vs[idx + 1].target - BASE_ADDR else PATCH_END - BASE_ADDR
  }

  /** Extents are non-empty, each ends where the next begins, and the last
      ends at PATCH_END - BASE_ADDR. */
  lemma ExtentsContiguous(vs: seq<Group>, idx: nat)
    requires TargetsAscending(vs)
    requires forall g :: g in vs ==> InPatch(g.target)
    requires idx < |vs|
    ensures ExtentStart(vs, idx) < ExtentEnd(vs, idx)
    ensures idx + 1 < |vs| ==> ExtentEnd(vs, idx) == ExtentStart(vs, idx + 1)
    ensures idx + 1 == |vs| ==> ExtentEnd(vs, idx) == PATCH_END - BASE_ADDR
  {
    assert vs[idx] in vs;
  }

  // ---------------------------------------------------------------------
  // The extracted rows
  // ---------------------------------------------------------------------

  /** One output row: `pointer_offsets;pointer_value;separators;extract`. */
  datatype Record = Record(pointerOffsets: string, pointerValue: string, separators: string, extract: string)

  /** The row for the idx-th kept target. */
  function RecordOf(data: seq<byte>, vs: seq<Group>, idx: nat): Record
    requires idx < |vs|
  {
    var raw := PySlice(data, ExtentStart(vs, idx), ExtentEnd(vs, idx));
    var n := SeparatorTail(raw);
    var chunk, sep := raw[..|raw| - n], raw[|raw| - n..];
    var text := RStripChars(Utf16.Decode(chunk), {'\0'});
    Record(FormatLocations(vs[idx].locations), "0x" + FormatPadded(vs[idx].target, 8, 16),
           FormatSeparators(sep), EscapeNewlines(text))
  }

  /** The first loop of `extract_strings`: the targets that pass the
      separator and printable checks, in key order. */
  method SelectTargets(groups: seq<Group>, data: seq<byte>, printable: char -> bool)
    returns (valid: seq<Group>)
    ensures valid == ValidGroups(groups, data, printable)
  {
    valid := [];
    for k := 0 to |groups|
      invariant valid == ValidGroups(groups[..k], data, printable)
    {
      assert groups[..k + 1][..k] == groups[..k];
      var val := groups[k].target;
      var fo := val - BASE_ADDR;
      if fo < 2 || !IsSeparator(PySlice(data, fo - 2, fo)) {
        continue;
      }
      if !FirstUnitPrintable(data, fo, printable) {
        continue;
      }
      valid := valid + [groups[k]];
    }
    assert groups[..|groups|] == groups;
  }

  /** The second loop of `extract_strings`: one row per kept target. */
  /** The rows of the first `n` kept targets, in order. */
  function Records(data: seq<byte>, vs: seq<Group>, n: nat): (rs: seq<Record>)
    requires n <= |vs|
    ensures |rs| == n
  {
    var row := (k: int) requires 0 <= k < |vs| => RecordOf(data, vs, k);
    Tabulate(row, n)
  }

  /** Row `idx` of the output is the record of the idx-th kept target. */
  lemma RecordsAt(data: seq<byte>, vs: seq<Group>, n: nat, idx: nat)
    requires idx < n <= |vs|
    ensures Records(data, vs, n)[idx] == RecordOf(data, vs, idx)
  {
    var row := (k: int) requires 0 <= k < |vs| => RecordOf(data, vs, k);
    TabulateAt(row, n, idx);
  }

  method BuildRecords(data: seq<byte>, valid: seq<Group>) returns (records: seq<Record>)
    ensures records == Records(data, valid, |valid|)
  {
    records := [];
    for idx := 0 to |valid|
      invariant records == Records(data, valid, idx)
    {
      var r := ExtractOne(data, valid, idx);
      records := records + [r];
    }
  }

  /** One iteration of the second loop of `extract_strings`. */
  method ExtractOne(data: seq<byte>, valid: seq<Group>, idx: nat) returns (r: Record)
    requires idx < |valid|
    ensures r == RecordOf(data, valid, idx)
  {
    var start := valid[idx].target - BASE_ADDR;
    var end := if idx + 1 < |valid| then valid[idx + 1].target - BASE_ADDR else PATCH_END - BASE_ADDR;
    var raw := PySlice(data, start, end);
    var mainChunk, sepBytes := StripTrailingSeparators(raw);
    assert mainChunk == raw[..|raw| - |sepBytes|] && sepBytes == raw[|raw| - |sepBytes|..];
    var text := RStripChars(Utf16.Decode(mainChunk), {'\0'});
    r := Record(FormatLocations(valid[idx].locations), "0x" + FormatPadded(valid[idx].target, 8, 16),
                FormatSeparators(sepBytes), EscapeNewlines(text));
  }

  /** `extract_strings`: group the rows, keep the valid targets, and build
      one row per kept target. */
  method ExtractStrings(data: seq<byte>, rows: seq<seq<string>>, printable: char -> bool)
    returns (records: seq<Record>)
    ensures var vs := ValidGroups(GroupsOf(rows), data, printable);
      records == Records(data, vs, |vs|)
  {
    var ptrMap := LoadAndGroupPointers(rows);
    var valid := SelectTargets(ptrMap, data, printable);
    records := BuildRecords(data, valid);
  }

  /** A row's extract never contains a line break, its separators cell
      names exactly the separator run that ended the extent, and
      unescaping the extract gives back the decoded extent without that
      run whenever the decoded text held no `†` of its own. */
  lemma RecordFields(data: seq<byte>, vs: seq<Group>, idx: nat)
    requires idx < |vs|
    ensures var r := RecordOf(data, vs, idx);
      var raw := PySlice(data, ExtentStart(vs, idx), ExtentEnd(vs, idx));
      '\n' !in r.extract &&
      exists chunk, sep :: chunk + sep == raw && IsSeparatorRun(sep) && !EndsInSeparator(chunk) &&
        r.separators == FormatSeparators(sep) &&
        var text := RStripChars(Utf16.Decode(chunk), {'\0'});
        (NEWLINE_MARK !in text ==> UnescapeNewlines(r.extract) == text)
  {
    var raw := PySlice(data, ExtentStart(vs, idx), ExtentEnd(vs, idx));
    var n := SeparatorTail(raw);
    var chunk, sep := raw[..|raw| - n], raw[|raw| - n..];
    assert chunk + sep == raw;
    SeparatorTailSpec(raw);
    var text := RStripChars(Utf16.Decode(chunk), {'\0'});
    NoNewlineAfterEscape(text);
    UnescapeEscape(text);
  }

  lemma NoNewlineAfterEscape(t: string)
    ensures '\n' !in EscapeNewlines(t)
  {
    var e := EscapeNewlines(t);
    forall i | 0 <= i < |e| ensures e[i] != '\n' {
    }
  }
}
