/** The pointer-table export of scripts/IDA_export_pointers.py: every
    4-byte-aligned dword of every segment whose value points into
    [START, END) is collected, the hits are sorted by target, and each
    target is given the distance to the next distinct target as its size.
    The database is reached only through an abstract dword reader and a
    list of segments. */
module PointerScan {

  import opened Wrappers
  import opened Text
  import opened Ordering

  const START: int := 0x00949720
  const END: int := 0x00B51CE0

  /** A segment of the database, covering addresses [start, end). */
  datatype Segment = Segment(start: int, end: int)

  /** A dword at address `ea` whose value `target` lies in [START, END). */
  datatype Hit = Hit(ea: int, target: int)

  /** One line of the exported table. */
  datatype Row = Row(ea: int, target: int, size: int)

  predicate InRange(v: int) { START <= v < END }

  // ---------------------------------------------------------------------
  // The scan
  // ---------------------------------------------------------------------

  /** The hits of one segment, visiting `ea`, `ea + 4`, ... below `segEnd`. */
  function SegmentHits(read: int -> int, ea: int, segEnd: int): seq<Hit>
    decreases segEnd - ea
  {
    if ea >= segEnd then []
    else (if InRange(read(ea)) then [Hit(ea, read(ea))] else []) + SegmentHits(read, ea + 4, segEnd)
  }

  /** The hits of all segments, segment after segment. */
  function ScanHits(read: int -> int, segs: seq<Segment>): seq<Hit>
  {
    if segs == [] then [] else SegmentHits(read, segs[0].start, segs[0].end) + ScanHits(read, segs[1..])
  }

  /** The collection loop: one pass over each segment in 4-byte steps. */
  method Scan(read: int -> int, segs: seq<Segment>) returns (pointers: seq<Hit>)
    ensures pointers == ScanHits(read, segs)
  {
    pointers := [];
    var i := 0;
    while i < |segs|
      invariant 0 <= i <= |segs|
      invariant pointers + ScanHits(read, segs[i..]) == ScanHits(read, segs)
    {
      ghost var before := pointers;
      pointers := ScanSegment(read, segs[i].start, segs[i].end, pointers);
      ScanHitsStep(read, segs, i, before);
      i := i + 1;
    }
  }

  lemma ScanHitsStep(read: int -> int, segs: seq<Segment>, i: nat, before: seq<Hit>)
    requires i < |segs|
    ensures before + ScanHits(read, segs[i..])
         == (before + SegmentHits(read, segs[i].start, segs[i].end)) + ScanHits(read, segs[i + 1..])
  {
    assert segs[i..][1..] == segs[i + 1..];
  }

  /** The inner loop over one segment: the segment's hits are appended, in
      address order. */
  method ScanSegment(read: int -> int, segStart: int, segEnd: int, pointers: seq<Hit>) returns (out: seq<Hit>)
    ensures out == pointers + SegmentHits(read, segStart, segEnd)
  {
    out := pointers;
    var ea := segStart;
    while ea < segEnd
      invariant pointers + SegmentHits(read, segStart, segEnd) == out + SegmentHits(read, ea, segEnd)
      decreases segEnd - ea
    {
      var val := read(ea);
      ghost var prev := out;
      if START <= val < END {
        out := out + [Hit(ea, val)];
      }
      SegmentHitsStep(read, ea, segEnd, prev);
      ea := ea + 4;
    }
  }

  lemma SegmentHitsStep(read: int -> int, ea: int, segEnd: int, prev: seq<Hit>)
    requires ea < segEnd
    ensures prev + SegmentHits(read, ea, segEnd)
         == (prev + (if InRange(read(ea)) then [Hit(ea, read(ea))] else [])) + SegmentHits(read, ea + 4, segEnd)
  {
  }

  /** Address `ea` is one of the 4-byte steps of segment `s`. */
  predicate Visits(s: Segment, ea: int)
  {
    s.start <= ea < s.end && (ea - s.start) % 4 == 0
  }

  /** The addresses a segment visits from `ea` on: `ea` itself, then those
      visited from `ea + 4`. */
  lemma VisitsStep(ea: int, segEnd: int, x: int)
    requires ea < segEnd
    ensures Visits(Segment(ea, segEnd), x) <==> x == ea || Visits(Segment(ea + 4, segEnd), x)
  {
    if x != ea && ea <= x && (x - ea) % 4 == 0 {
      assert x - ea >= 4;
    }
  }

  /** `SegmentHits` below `segEnd`, one step unfolded. */
  lemma SegmentHitsCons(read: int -> int, ea: int, segEnd: int)
    requires ea < segEnd
    ensures SegmentHits(read, ea, segEnd)
         == (if InRange(read(ea)) then [Hit(ea, read(ea))] else []) + SegmentHits(read, ea + 4, segEnd)
  {
  }

  /** A hit of one segment is exactly a visited address whose dword is in range. */
  lemma {:induction false} SegmentHitsExact(read: int -> int, ea: int, segEnd: int, h: Hit)
    ensures h in SegmentHits(read, ea, segEnd) <==>
      Visits(Segment(ea, segEnd), h.ea) && InRange(read(h.ea)) && h.target == read(h.ea)
    decreases segEnd - ea
  {
    if ea < segEnd {
      SegmentHitsCons(read, ea, segEnd);
      SegmentHitsExact(read, ea + 4, segEnd, h);
      VisitsStep(ea, segEnd, h.ea);
    }
  }

  /** The scan collects a pair exactly when its address is a visited
      address of some segment and its dword value lies in [START, END). */
  lemma {:induction false} ScanHitsExact(read: int -> int, segs: seq<Segment>, h: Hit)
    ensures h in ScanHits(read, segs) <==>
      (exists j :: 0 <= j < |segs| && Visits(segs[j], h.ea)) && InRange(read(h.ea)) && h.target == read(h.ea)
  {
    if segs != [] {
      SegmentHitsExact(read, segs[0].start, segs[0].end, h);
      ScanHitsExact(read, segs[1..], h);
      if exists j :: 0 <= j < |segs| && Visits(segs[j], h.ea) {
        var j :| 0 <= j < |segs| && Visits(segs[j], h.ea);
        if j > 0 { assert segs[1..][j - 1] == segs[j]; }
      }
      if exists j :: 0 <= j < |segs[1..]| && Visits(segs[1..][j], h.ea) {
        var j :| 0 <= j < |segs[1..]| && Visits(segs[1..][j], h.ea);
        assert segs[j + 1] == segs[1..][j];
      }
    }
  }

  // ---------------------------------------------------------------------
  // Stable sort by target
  // ---------------------------------------------------------------------

  predicate SortedByTarget(s: seq<Hit>)
  {
    forall i, j :: 0 <= i < j < |s| ==> s[i].target <= s[j].target
  }

  /** `x` placed after every element whose target is not larger. */
  function Insert(x: Hit, s: seq<Hit>): seq<Hit>
  {
    if s == [] then [x]
    else if x.target < s[0].target then [x] + s
    else [s[0]] + Insert(x, s[1..])
  }

  /** Inserting adds exactly `x`. */
  lemma {:induction false} InsertPermutes(x: Hit, s: seq<Hit>)
    ensures multiset(Insert(x, s)) == multiset(s) + multiset{x}
  {
    if s != [] && x.target >= s[0].target {
      InsertPermutes(x, s[1..]);
      assert s == [s[0]] + s[1..];
    }
  }

  /** A bound below `x` and every element of `s` bounds the result. */
  lemma {:induction false} InsertLowerBound(x: Hit, s: seq<Hit>, lo: int)
    requires x.target >= lo && forall i :: 0 <= i < |s| ==> s[i].target >= lo
    ensures forall i :: 0 <= i < |Insert(x, s)| ==> Insert(x, s)[i].target >= lo
  {
    if s != [] && x.target >= s[0].target {
      InsertLowerBound(x, s[1..], lo);
    }
  }

  /** Inserting keeps a sorted list sorted. */
  lemma {:induction false} InsertKeepsSorted(x: Hit, s: seq<Hit>)
    requires SortedByTarget(s)
    ensures SortedByTarget(Insert(x, s))
  {
    if s != [] && x.target >= s[0].target {
      var rest := Insert(x, s[1..]);
      InsertKeepsSorted(x, s[1..]);
      InsertLowerBound(x, s[1..], s[0].target);
      var r := [s[0]] + rest;
      forall i, j | 0 <= i < j < |r| ensures r[i].target <= r[j].target {
        assert r[j] == rest[j - 1];
        if i > 0 { assert r[i] == rest[i - 1]; }
      }
    }
  }

  /** Inserting adds exactly `x` and keeps a sorted list sorted. */
  lemma InsertSorted(x: Hit, s: seq<Hit>)
    ensures multiset(Insert(x, s)) == multiset(s) + multiset{x}
    ensures SortedByTarget(s) ==> SortedByTarget(Insert(x, s))
  {
    InsertPermutes(x, s);
    if SortedByTarget(s) {
      InsertKeepsSorted(x, s);
    }
  }

  /** `sorted(pointers, key=lambda x: x[1])`: Python's sort is stable, so
      elements are inserted in input order, each after its equals. */
  function SortByTarget(s: seq<Hit>): seq<Hit>
  {
    if s == [] then [] else Insert(s[|s| - 1], SortByTarget(s[..|s| - 1]))
  }

  /** The sorted list is ordered by target and is a permutation of the input. */
  lemma {:induction false} SortByTargetSorted(s: seq<Hit>)
    ensures SortedByTarget(SortByTarget(s))
    ensures multiset(SortByTarget(s)) == multiset(s)
  {
    if s != [] {
      var p := s[..|s| - 1];
      SortByTargetSorted(p);
      InsertSorted(s[|s| - 1], SortByTarget(p));
      assert s == p + [s[|s| - 1]];
    }
  }

  /** The elements of `s` with target `t`, in order. */
  function OfTarget(s: seq<Hit>, t: int): seq<Hit>
  {
    if s == [] then []
    else OfTargetHead(s[0], t) + OfTarget(s[1..], t)
  }

  /** The first element's contribution to `OfTarget`. */
  function OfTargetHead(x: Hit, t: int): seq<Hit>
  {
    if x.target == t then [x] else []
  }

  /** `OfTarget` of a non-empty list, one step unfolded. */
  lemma OfTargetCons(s: seq<Hit>, t: int)
    requires s != []
    ensures OfTarget(s, t) == OfTargetHead(s[0], t) + OfTarget(s[1..], t)
  {
  }

  lemma {:induction false} OfTargetAppend(s: seq<Hit>, u: seq<Hit>, t: int)
    ensures OfTarget(s + u, t) == OfTarget(s, t) + OfTarget(u, t)
  {
    if s == [] {
      assert s + u == u;
    } else {
      var su := s + u;
      var head := OfTargetHead(s[0], t);
      assert su[0] == s[0] && su[1..] == s[1..] + u;
      OfTargetCons(su, t);
      OfTargetCons(s, t);
      OfTargetAppend(s[1..], u, t);
      assert head + (OfTarget(s[1..], t) + OfTarget(u, t)) == (head + OfTarget(s[1..], t)) + OfTarget(u, t);
    }
  }

  lemma {:induction false} OfTargetNone(s: seq<Hit>, t: int)
    requires forall y :: y in s ==> y.target != t
    ensures OfTarget(s, t) == []
  {
    if s != [] {
      OfTargetNone(s[1..], t);
    }
  }

  /** An element placed before a sorted list with larger targets comes
      first, and no element of the list has its target. */
  lemma OfTargetInsertBefore(x: Hit, s: seq<Hit>, t: int)
    requires SortedByTarget(s) && s != [] && x.target < s[0].target
    ensures OfTarget([x] + s, t) == OfTarget(s, t) + OfTargetHead(x, t)
  {
    var xs := [x] + s;
    assert xs[0] == x && xs[1..] == s;
    OfTargetCons(xs, t);
    if x.target == t {
      OfTargetNone(s, t);
    }
  }

  lemma {:induction false} OfTargetInsert(x: Hit, s: seq<Hit>, t: int)
    requires SortedByTarget(s)
    ensures OfTarget(Insert(x, s), t) == OfTarget(s, t) + OfTargetHead(x, t)
  {
    var hx := OfTargetHead(x, t);
    if s == [] {
      OfTargetCons([x], t);
      assert [x][1..] == [];
    } else if x.target < s[0].target {
      OfTargetInsertBefore(x, s, t);
    } else {
      var h0 := OfTargetHead(s[0], t);
      var rest := Insert(x, s[1..]);
      var r := [s[0]] + rest;
      assert r[0] == s[0] && r[1..] == rest;
      OfTargetCons(r, t);
      OfTargetCons(s, t);
      OfTargetInsert(x, s[1..], t);
      assert h0 + (OfTarget(s[1..], t) + hx) == (h0 + OfTarget(s[1..], t)) + hx;
    }
  }

  /** The sort is stable: for every target, the hits with that target keep
      their relative order. */
  lemma {:induction false} SortByTargetStable(s: seq<Hit>, t: int)
    ensures OfTarget(SortByTarget(s), t) == OfTarget(s, t)
  {
    if s != [] {
      var p, x := s[..|s| - 1], s[|s| - 1];
      var sp := SortByTarget(p);
      var tail := OfTargetHead(x, t);
      assert SortedByTarget(sp) by { SortByTargetSorted(p); }
      SortByTargetStable(p, t);
      OfTargetInsert(x, sp, t);
      OfTargetAppend(p, [x], t);
      OfTargetSingle(x, t);
      assert s == p + [x];
      assert SortByTarget(s) == Insert(x, sp);
    }
  }

  /** A one-hit list keeps its hit exactly when the target matches. */
  lemma OfTargetSingle(x: Hit, t: int)
    ensures OfTarget([x], t) == OfTargetHead(x, t)
  {
    OfTargetCons([x], t);
    assert [x][1..] == [];
  }

  // ---------------------------------------------------------------------
  // Distinct targets and sizes
  // ---------------------------------------------------------------------

  /** `sorted({tgt for _, tgt in pointers_sorted})`: the distinct targets of
      a target-sorted list, ascending. */
  function UniqueTargets(s: seq<Hit>): (u: seq<int>)
    ensures forall v :: v in u <==> exists h :: h in s && h.target == v
    ensures SortedByTarget(s) ==> StrictlyIncreasing(u)
    ensures SortedByTarget(s) && |s| > 0 ==> |u| > 0 && u[0] == s[0].target
  {
    if s == [] then []
    else if |s| >= 2 && s[0].target == s[1].target then
      assert forall h :: h in s <==> h == s[0] || h in s[1..];
      UniqueTargets(s[1..])
    else
      assert forall h :: h in s <==> h == s[0] || h in s[1..];
      [s[0].target] + UniqueTargets(s[1..])
  }

  /** The position of `t` in `u` (`target_index[t]`). */
  function IndexOf(u: seq<int>, t: int): (i: nat)
    requires t in u
    ensures i < |u| && u[i] == t
  {
    if u[0] == t then 0 else 1 + IndexOf(u[1..], t)
  }

  /** The next distinct target after position `i`, or END after the last. */
  function NextOrEnd(u: seq<int>, i: nat): int
  {
    if i + 1 < |u| then u[i + 1] else END
  }

  /** `next_tgt - tgt` for target `t`. */
  function TargetSize(u: seq<int>, t: int): int
    requires t in u
  {
    NextOrEnd(u, IndexOf(u, t)) - t
  }

  /** The sizing loop: one row per sorted hit, in the same order. */
  method BuildTable(sorted: seq<Hit>, uniq: seq<int>) returns (table: seq<Row>)
    requires forall h :: h in sorted ==> h.target in uniq
    ensures |table| == |sorted|
    ensures forall k :: 0 <= k < |sorted| ==>
      table[k] == Row(sorted[k].ea, sorted[k].target, TargetSize(uniq, sorted[k].target))
  {
    table := [];
    for k := 0 to |sorted|
      invariant |table| == k
      invariant forall m :: 0 <= m < k ==>
        table[m] == Row(sorted[m].ea, sorted[m].target, TargetSize(uniq, sorted[m].target))
    {
      var ptrEa, tgt := sorted[k].ea, sorted[k].target;
      var idx := IndexOf(uniq, tgt);
      var nextTgt := if idx + 1 < |uniq| then uniq[idx + 1] else END;
      var size := nextTgt - tgt;
      table := table + [Row(ptrEa, tgt, size)];
    }
  }

  /** In a strictly increasing list, the position of its i-th element is i. */
  lemma IndexOfIncreasing(u: seq<int>, i: nat)
    requires StrictlyIncreasing(u) && i < |u|
    ensures IndexOf(u, u[i]) == i
  {
  }

  /** Every size is positive when all targets lie below END. */
  lemma SizePositive(u: seq<int>, t: int)
    requires StrictlyIncreasing(u) && t in u
    requires forall v :: v in u ==> v < END
    ensures TargetSize(u, t) > 0
  {
  }

  /** Each distinct target's interval ends where the next one starts, and
      the last one ends at END. */
  lemma SizesContiguous(u: seq<int>, i: nat)
    requires StrictlyIncreasing(u) && i < |u|
    ensures u[i] + TargetSize(u, u[i]) == (if i + 1 < |u| then u[i + 1] else END)
  {
    IndexOfIncreasing(u, i);
  }

  /** The sizes of the distinct targets from position i on. */
  function SizesFrom(u: seq<int>, i: nat): int
    requires StrictlyIncreasing(u) && i <= |u|
    decreases |u| - i
  {
    if i == |u| then 0 else TargetSize(u, u[i]) + SizesFrom(u, i + 1)
  }

  /** The intervals of the distinct targets exactly cover
      [smallest target, END): their sizes add up to END - u[0]. */
  lemma {:induction false} SizesCover(u: seq<int>, i: nat)
    requires StrictlyIncreasing(u) && i < |u|
    ensures SizesFrom(u, i) == END - u[i]
    decreases |u| - i
  {
    SizesContiguous(u, i);
    if i + 1 < |u| {
      SizesCover(u, i + 1);
    }
  }

  // ---------------------------------------------------------------------
  // The whole export
  // ---------------------------------------------------------------------

  /** The table the script builds from a scan. */
  function ExportTable(read: int -> int, segs: seq<Segment>): seq<Row>
  {
    var sorted := SortByTarget(ScanHits(read, segs));
    var uniq := UniqueTargets(sorted);
    seq(|sorted|, k requires 0 <= k < |sorted| =>
      assert sorted[k] in sorted;
      Row(sorted[k].ea, sorted[k].target, TargetSize(uniq, sorted[k].target)))
  }

  /** The rows are in target order, every target lies in [START, END)
      with a positive size, and rows with the same target have the same
      size. */
  predicate ExportedTable(table: seq<Row>)
  {
    && (forall i, j :: 0 <= i < j < |table| ==> table[i].target <= table[j].target)
    && (forall k :: 0 <= k < |table| ==> InRange(table[k].target) && table[k].size > 0)
    && (forall i, j :: 0 <= i < |table| && 0 <= j < |table| && table[i].target == table[j].target ==>
          table[i].size == table[j].size)
  }

  /** The exported table of any scan has those properties. */
  lemma ExportTableSpec(read: int -> int, segs: seq<Segment>)
    ensures ExportedTable(ExportTable(read, segs))
  {
    var pointers := ScanHits(read, segs);
    var sorted := SortByTarget(pointers);
    SortByTargetSorted(pointers);
    var uniq := UniqueTargets(sorted);
    var table := ExportTable(read, segs);
    forall h | h in sorted ensures InRange(h.target) {
      assert h in multiset(pointers);
      ScanHitsExact(read, segs, h);
    }
    forall k | 0 <= k < |table| ensures InRange(table[k].target) && table[k].size > 0 {
      assert sorted[k] in sorted;
      SizePositive(uniq, sorted[k].target);
    }
  }

  /** Scan, sort, and size: the table rows in target order. */
  method ExportPointers(read: int -> int, segs: seq<Segment>) returns (table: seq<Row>)
    ensures table == ExportTable(read, segs)
    ensures ExportedTable(table)
  {
    var pointers := Scan(read, segs);
    var sorted := SortByTarget(pointers);
    var uniq := UniqueTargets(sorted);
    table := BuildTable(sorted, uniq);
    ExportTableSpec(read, segs);
  }

  // ---------------------------------------------------------------------
  // The CSV text
  // ---------------------------------------------------------------------

  const HEADER: string := "offset;cible;taille\n"

  /** `f"{ptr_ea:08X};{tgt:08X};{size}\n"`. */
  function RenderRow(r: Row): string
  {
    FormatPadded(r.ea, 8, 16) + ";" + FormatPadded(r.target, 8, 16) + ";" + FormatPadded(r.size, 0, 10) + "\n"
  }

  function RenderRows(rows: seq<Row>): string
  {
    if rows == [] then "" else RenderRow(rows[0]) + RenderRows(rows[1..])
  }

  /** The file written by the export. */
  function Render(rows: seq<Row>): string
  {
    HEADER + RenderRows(rows)
  }

  /** A digit rendering holds no field separator. */
  lemma NoSemicolon(v: nat, width: nat, base: nat)
    requires base == 10 || base == 16
    ensures ';' !in FormatPadded(v, width, base)
  {
    PaddedDigits(v, width, base);
    var f := FormatPadded(v, width, base);
    forall i | 0 <= i < |f| ensures f[i] != ';' {
      assert DigitValue(f[i], base) >= 0;
    }
  }

  /** Three `;`-free fields joined by `;` split back into those fields. */
  lemma SplitThree(f0: string, f1: string, f2: string)
    requires ';' !in f0 && ';' !in f1 && ';' !in f2
    ensures SplitOn(f0 + ";" + f1 + ";" + f2, ';') == [f0, f1, f2]
  {
    assert Join([f2], [';']) == f2;
    assert Join([f1, f2], [';']) == f1 + [';'] + f2 by { assert [f1, f2][1..] == [f2]; }
    assert Join([f0, f1, f2], [';']) == f0 + [';'] + f1 + [';'] + f2 by { assert [f0, f1, f2][1..] == [f1, f2]; }
    SplitOnJoin([f0, f1, f2], ';');
  }

  /** A rendered row reads back: split on `;`, its fields parse to the
      address, target and size it was made from. */
  lemma RenderRowParses(r: Row)
    requires r.ea >= 0 && r.target >= 0 && r.size >= 0
    ensures var line := RenderRow(r);
      |line| > 0 && line[|line| - 1] == '\n' &&
      var fields := SplitOn(line[..|line| - 1], ';');
      |fields| == 3 &&
      ParseInt(fields[0], 16) == Some(r.ea) &&
      ParseInt(fields[1], 16) == Some(r.target) &&
      ParseInt(fields[2], 10) == Some(r.size)
  {
    var f0, f1, f2 := FormatPadded(r.ea, 8, 16), FormatPadded(r.target, 8, 16), FormatPadded(r.size, 0, 10);
    NoSemicolon(r.ea, 8, 16);
    NoSemicolon(r.target, 8, 16);
    NoSemicolon(r.size, 0, 10);
    var body := f0 + ";" + f1 + ";" + f2;
    var line := RenderRow(r);
    assert line == body + "\n";
    assert line[..|line| - 1] == body;
    SplitThree(f0, f1, f2);
    ParseFormatHex(r.ea, 8);
    ParseFormatHex(r.target, 8);
    ParseFormatDecimal(r.size);
  }
}
