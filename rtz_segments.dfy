/** scripts/extract_rtz_content.py: length-prefixed text segments of a
    decompressed RTZ buffer. From a start offset, each segment is a 5-byte
    prefix whose fifth byte is the number L of UTF-16 code units, followed
    by 2L content bytes; the scan stops at the terminator `FF FF FF FF 00`,
    when a prefix no longer fits, or when a content would run past the end.
    Reinsertion then overwrites every content in place, last segment
    first, with its translation padded with space units or truncated to
    the original byte length, and rewrites the count byte. */
module RtzSegments {

  import opened Bytes
  import Utf16

  /** The marker that ends the segment list. */
  const TERMINATOR: seq<byte> := [0xFF, 0xFF, 0xFF, 0xFF, 0x00]

  /** A segment: where its prefix is, where its content starts and ends,
      and the content bytes as read (decoding, the clean-up of furigana
      and tags, and the translation itself are one uninterpreted function of
      these bytes in this model). */
  datatype Segment = Segment(prefixPos: nat, contentStart: nat, contentEnd: nat, raw: seq<byte>)

  // ---------------------------------------------------------------------
  // extract_segments
  // ---------------------------------------------------------------------

  /** The segments read from `pos` on. */
  function SegmentsFrom(data: seq<byte>, pos: nat): (segs: seq<Segment>)
    ensures forall k :: 0 <= k < |segs| ==> Fits(|data|, segs[k])
    decreases |data| - pos
  {
    if pos + 5 > |data| then []
    else if data[pos..pos + 5] == TERMINATOR then []
    else
      var count := data[pos + 4] as nat;
      var cs, ce := pos + 5, pos + 5 + count * 2;
      if ce > |data| then []
      else [Segment(pos, cs, ce, data[cs..ce])] + SegmentsFrom(data, ce)
  }

  /** What a segment read from `data` is: a prefix that is not the
      terminator, the count from its fifth byte, and a content of twice
      that many bytes lying inside the buffer. */
  predicate WellFormed(data: seq<byte>, s: Segment)
  {
    && s.contentStart == s.prefixPos + 5
    && s.contentStart <= s.contentEnd <= |data|
    && data[s.prefixPos..s.contentStart] != TERMINATOR
    && s.contentEnd == s.contentStart + 2 * data[s.prefixPos + 4] as nat
    && s.raw == data[s.contentStart..s.contentEnd]
  }

  /** Every segment is well formed, the first starts at `pos`, and each
      next prefix starts where the previous content ended. */
  lemma {:induction false} SegmentsFromSpec(data: seq<byte>, pos: nat)
    ensures forall k :: 0 <= k < |SegmentsFrom(data, pos)| ==> WellFormed(data, SegmentsFrom(data, pos)[k])
    ensures |SegmentsFrom(data, pos)| > 0 ==> SegmentsFrom(data, pos)[0].prefixPos == pos
    ensures forall k :: 0 <= k < |SegmentsFrom(data, pos)| - 1 ==>
      SegmentsFrom(data, pos)[k + 1].prefixPos == SegmentsFrom(data, pos)[k].contentEnd
    decreases |data| - pos
  {
    var segs := SegmentsFrom(data, pos);
    if segs != [] {
      var ce := pos + 5 + data[pos + 4] as nat * 2;
      SegmentsFromSpec(data, ce);
      var rest := SegmentsFrom(data, ce);
      assert segs == [segs[0]] + rest;
      assert forall k :: 1 <= k < |segs| ==> segs[k] == rest[k - 1];
    }
  }

  /** Segments are laid out in ascending order without overlap. */
  lemma {:induction false} SegmentsAscending(data: seq<byte>, pos: nat, j: nat, k: nat)
    requires j < k < |SegmentsFrom(data, pos)|
    ensures SegmentsFrom(data, pos)[j].contentEnd <= SegmentsFrom(data, pos)[k].prefixPos
    decreases k - j
  {
    SegmentsFromSpec(data, pos);
    if j + 1 < k {
      SegmentsAscending(data, pos, j + 1, k);
    }
  }

  /** Scanning stops only at the terminator, when a prefix no longer fits,
      or when the next content would run past the end: the position after
      the last segment is one of these. */
  lemma {:induction false} SegmentsStop(data: seq<byte>, pos: nat)
    ensures var segs := SegmentsFrom(data, pos);
      var stop := if segs == [] then pos else segs[|segs| - 1].contentEnd;
      || stop + 5 > |data|
      || data[stop..stop + 5] == TERMINATOR
      || stop + 5 + 2 * data[stop + 4] as nat > |data|
    decreases |data| - pos
  {
    var segs := SegmentsFrom(data, pos);
    if segs != [] {
      var ce := pos + 5 + data[pos + 4] as nat * 2;
      SegmentsFromSpec(data, ce);
      SegmentsStop(data, ce);
      var rest := SegmentsFrom(data, ce);
      assert segs == [segs[0]] + rest;
      if rest != [] {
        assert segs[|segs| - 1] == rest[|rest| - 1];
      }
    }
  }

  lemma SegmentsFromStep(data: seq<byte>, pos: nat)
    requires pos + 5 <= |data| && data[pos..pos + 5] != TERMINATOR
    requires pos + 5 + data[pos + 4] as nat * 2 <= |data|
    ensures var cs, ce := pos + 5, pos + 5 + data[pos + 4] as nat * 2;
      SegmentsFrom(data, pos) == [Segment(pos, cs, ce, data[cs..ce])] + SegmentsFrom(data, ce)
  {
  }

  lemma SegmentsFromEnd(data: seq<byte>, pos: nat)
    requires pos + 5 <= |data|
    requires data[pos..pos + 5] == TERMINATOR || pos + 5 + data[pos + 4] as nat * 2 > |data|
    ensures SegmentsFrom(data, pos) == []
  {
  }

  /** `extract_segments`: the scanning loop. */
  method ExtractSegments(data: seq<byte>, start: nat) returns (segments: seq<Segment>)
    ensures segments == SegmentsFrom(data, start)
  {
    var pos := start;
    segments := [];
    while pos + 5 <= |data|
      invariant segments + SegmentsFrom(data, pos) == SegmentsFrom(data, start)
      decreases |data| - pos
    {
      if data[pos..pos + 5] == TERMINATOR {
        SegmentsFromEnd(data, pos);
        break;
      }
      var count := data[pos + 4] as nat;
      var byteLen := count * 2;
      var cs, ce := pos + 5, pos + 5 + byteLen;
      if ce > |data| {
        SegmentsFromEnd(data, pos);
        break;
      }
      SegmentsFromStep(data, pos);
      var seg := Segment(pos, cs, ce, data[cs..ce]);
      Associate(segments, seg, SegmentsFrom(data, ce));
      segments := segments + [seg];
      pos := ce;
    }
  }

  lemma Associate(a: seq<Segment>, s: Segment, b: seq<Segment>)
    ensures a + ([s] + b) == (a + [s]) + b
  {
  }

  // ---------------------------------------------------------------------
  // patch_file: reinsertion
  // ---------------------------------------------------------------------

  /** The bytes written into a segment: its translation encoded and
      brought to the original content length. */
  function NewRaw(s: Segment, translate: seq<byte> -> string): (r: seq<byte>)
    requires s.contentStart <= s.contentEnd && (s.contentEnd - s.contentStart) % 2 == 0
    ensures |r| == s.contentEnd - s.contentStart
  {
    Utf16.FitToLength(Utf16.Encode(translate(s.raw)), s.contentEnd - s.contentStart)
  }

  /** A segment whose content fits a buffer of length `n`, with the
      positions a read segment has. */
  predicate Fits(n: nat, s: Segment)
  {
    s.prefixPos + 5 == s.contentStart <= s.contentEnd <= n && (s.contentEnd - s.contentStart) % 2 == 0
  }

  /** Replacement bytes for each segment, as long as its content. */
  predicate Fills(n: nat, segs: seq<Segment>, fills: seq<seq<byte>>)
  {
    && |fills| == |segs|
    && forall k :: 0 <= k < |segs| ==> Fits(n, segs[k]) && |fills[k]| == segs[k].contentEnd - segs[k].contentStart
  }

  /** The translations of all segments, fitted to their contents. */
  function NewRaws(segs: seq<Segment>, translate: seq<byte> -> string): (fills: seq<seq<byte>>)
    requires forall k :: 0 <= k < |segs| ==> segs[k].contentStart <= segs[k].contentEnd && (segs[k].contentEnd - segs[k].contentStart) % 2 == 0
    ensures |fills| == |segs| && forall k :: 0 <= k < |segs| ==> fills[k] == NewRaw(segs[k], translate)
  {
    seq(|segs|, k requires 0 <= k < |segs| => NewRaw(segs[k], translate))
  }

  /** One reinsertion step: the count byte gets the new unit count modulo
      256 (`new_units & 0xFF`), and the content bytes are replaced. */
  function PatchSegment(buf: seq<byte>, s: Segment, fill: seq<byte>): (r: seq<byte>)
    requires Fits(|buf|, s)
    ensures |r| == |buf| + |fill| - (s.contentEnd - s.contentStart)
  {
    var counted := buf[s.prefixPos + 4 := (|fill| / 2) % 256];
    PySliceAssign(counted, s.contentStart, s.contentEnd, fill)
  }

  /** Bytes as long as the content keep the buffer's length; the count byte
      gets the content's own unit count, the content holds the new bytes,
      and nothing else changes. */
  lemma PatchSegmentSpec(buf: seq<byte>, s: Segment, fill: seq<byte>)
    requires Fits(|buf|, s) && |fill| == s.contentEnd - s.contentStart
    ensures var r := PatchSegment(buf, s, fill);
      && |r| == |buf|
      && r[s.prefixPos + 4] == ((s.contentEnd - s.contentStart) / 2) % 256
      && r[s.contentStart..s.contentEnd] == fill
      && (forall j :: 0 <= j < |buf| && j != s.prefixPos + 4 && !(s.contentStart <= j < s.contentEnd) ==> r[j] == buf[j])
  {
    var counted := buf[s.prefixPos + 4 := (|fill| / 2) % 256];
    var r := counted[..s.contentStart] + fill + counted[s.contentEnd..];
    assert PatchSegment(buf, s, fill) == r;
    assert r[s.contentStart..s.contentEnd] == fill;
  }

  /** The buffer after reinserting the segments of index `i` and above,
      highest index first. */
  function PatchDown(buf: seq<byte>, segs: seq<Segment>, fills: seq<seq<byte>>, i: nat): (r: seq<byte>)
    requires Fills(|buf|, segs, fills)
    ensures |r| == |buf|
    decreases |segs| - i
  {
    if i >= |segs| then buf
    else
      PatchSegment(PatchDown(buf, segs, fills, i + 1), segs[i], fills[i])
  }

  /** Each segment ends before the next one's prefix. */
  predicate Ascending(segs: seq<Segment>)
  {
    forall j, k :: 0 <= j < k < |segs| ==> segs[j].contentEnd <= segs[k].prefixPos
  }

  /** Every segment's count byte holds its content's unit count. */
  predicate CountsMatch(data: seq<byte>, segs: seq<Segment>)
  {
    forall k :: 0 <= k < |segs| ==>
      segs[k].prefixPos + 4 < |data| && data[segs[k].prefixPos + 4] as nat * 2 == segs[k].contentEnd - segs[k].contentStart
  }

  /** The segments read from a buffer ascend and carry their counts. */
  lemma SegmentsLayout(data: seq<byte>, start: nat)
    ensures Ascending(SegmentsFrom(data, start)) && CountsMatch(data, SegmentsFrom(data, start))
  {
    SegmentsFromSpec(data, start);
    var segs := SegmentsFrom(data, start);
    forall j, k | 0 <= j < k < |segs| ensures segs[j].contentEnd <= segs[k].prefixPos {
      SegmentsAscending(data, start, j, k);
    }
  }

  /** Reinsertion changes no byte outside the segment contents: prefixes
      (their count bytes included, which get their own value back) and
      whatever lies between or around the segments keep their values. */
  lemma {:induction false} PatchDownFrame(data: seq<byte>, segs: seq<Segment>, fills: seq<seq<byte>>, i: nat, j: nat)
    requires Fills(|data|, segs, fills) && Ascending(segs) && CountsMatch(data, segs)
    requires j < |data| && forall k :: i <= k < |segs| ==> !(segs[k].contentStart <= j < segs[k].contentEnd)
    ensures PatchDown(data, segs, fills, i)[j] == data[j]
    decreases |segs| - i
  {
    if i < |segs| {
      var after := PatchDown(data, segs, fills, i + 1);
      PatchDownFrame(data, segs, fills, i + 1, j);
      PatchSegmentSpec(after, segs[i], fills[i]);
      if j == segs[i].prefixPos + 4 {
        CountByte(data[j], segs[i].contentEnd - segs[i].contentStart);
      }
    }
  }

  /** A count byte read back from its content length is itself. */
  lemma CountByte(c: byte, len: int)
    requires c as int * 2 == len
    ensures (len / 2) % 256 == c as int
  {
  }

  /** After reinsertion every segment's content holds its new bytes:
      patching a segment never touches the content of a later one. */
  lemma PatchDownContent(data: seq<byte>, segs: seq<Segment>, fills: seq<seq<byte>>, i: nat, k: nat)
    requires Fills(|data|, segs, fills) && Ascending(segs) && i <= k < |segs|
    ensures PatchDown(data, segs, fills, i)[segs[k].contentStart..segs[k].contentEnd] == fills[k]
  {
    var r, sk := PatchDown(data, segs, fills, i), segs[k];
    forall j | sk.contentStart <= j < sk.contentEnd ensures r[j] == fills[k][j - sk.contentStart] {
      PatchDownContentAt(data, segs, fills, i, k, j);
    }
  }

  lemma {:induction false} PatchDownContentAt(data: seq<byte>, segs: seq<Segment>, fills: seq<seq<byte>>, i: nat, k: nat, j: nat)
    requires Fills(|data|, segs, fills) && Ascending(segs) && i <= k < |segs|
    requires segs[k].contentStart <= j < segs[k].contentEnd
    ensures PatchDown(data, segs, fills, i)[j] == fills[k][j - segs[k].contentStart]
    decreases |segs| - i
  {
    var after := PatchDown(data, segs, fills, i + 1);
    PatchSegmentSpec(after, segs[i], fills[i]);
    if i < k {
      PatchDownContentAt(data, segs, fills, i + 1, k, j);
      assert segs[i].contentEnd <= segs[k].prefixPos;
    } else {
      assert PatchDown(data, segs, fills, i)[segs[k].contentStart..segs[k].contentEnd][j - segs[k].contentStart]
          == PatchDown(data, segs, fills, i)[j];
    }
  }

  /** After reinsertion of segments read from a buffer (`SegmentsLayout`
      gives the requirements for `SegmentsFrom`), every segment's content
      holds its new bytes. */
  lemma ReinsertedContents(data: seq<byte>, segs: seq<Segment>, fills: seq<seq<byte>>)
    requires Fills(|data|, segs, fills) && Ascending(segs)
    ensures forall k :: 0 <= k < |segs| ==> PatchDown(data, segs, fills, 0)[segs[k].contentStart..segs[k].contentEnd] == fills[k]
  {
    forall k | 0 <= k < |segs| ensures PatchDown(data, segs, fills, 0)[segs[k].contentStart..segs[k].contentEnd] == fills[k] {
      PatchDownContent(data, segs, fills, 0, k);
    }
  }

  /** Every count byte keeps its original value L after reinsertion. */
  lemma CountBytesKept(data: seq<byte>, segs: seq<Segment>, fills: seq<seq<byte>>)
    requires Fills(|data|, segs, fills) && Ascending(segs) && CountsMatch(data, segs)
    ensures forall k :: 0 <= k < |segs| ==> PatchDown(data, segs, fills, 0)[segs[k].prefixPos + 4] == data[segs[k].prefixPos + 4]
  {
    forall k | 0 <= k < |segs| ensures PatchDown(data, segs, fills, 0)[segs[k].prefixPos + 4] == data[segs[k].prefixPos + 4] {
      CountByteOutside(segs, k);
      PatchDownFrame(data, segs, fills, 0, segs[k].prefixPos + 4);
    }
  }

  /** No byte outside the segment contents changes. */
  lemma ReinsertionFrame(data: seq<byte>, segs: seq<Segment>, fills: seq<seq<byte>>)
    requires Fills(|data|, segs, fills) && Ascending(segs) && CountsMatch(data, segs)
    ensures forall j :: 0 <= j < |data| && Outside(segs, j) ==> PatchDown(data, segs, fills, 0)[j] == data[j]
  {
    forall j | 0 <= j < |data| && Outside(segs, j) ensures PatchDown(data, segs, fills, 0)[j] == data[j] {
      PatchDownFrame(data, segs, fills, 0, j);
    }
  }

  /** Position `j` lies in no segment's content. */
  predicate Outside(segs: seq<Segment>, j: int)
  {
    forall k :: 0 <= k < |segs| ==> !(segs[k].contentStart <= j < segs[k].contentEnd)
  }

  /** A segment's count byte lies outside every content. */
  lemma CountByteOutside(segs: seq<Segment>, k: nat)
    requires Ascending(segs) && k < |segs| && forall m :: 0 <= m < |segs| ==> Fits(segs[m].contentEnd, segs[m])
    ensures Outside(segs, segs[k].prefixPos + 4)
  {
    forall m | 0 <= m < |segs| ensures !(segs[m].contentStart <= segs[k].prefixPos + 4 < segs[m].contentEnd) {
      if m < k {
        assert segs[m].contentEnd <= segs[k].prefixPos;
      } else if m > k {
        assert segs[k].contentEnd <= segs[m].prefixPos;
      }
    }
  }

  // ---------------------------------------------------------------------
  // The reinsertion loop, in place on the buffer
  // ---------------------------------------------------------------------

  /** The pad-or-truncate step: shorter translations are padded with space
      units, anything else is cut to the original length. */
  method FitContent(s: Segment, translate: seq<byte> -> string) returns (newRaw: seq<byte>)
    requires s.contentStart <= s.contentEnd && (s.contentEnd - s.contentStart) % 2 == 0
    ensures newRaw == NewRaw(s, translate)
  {
    var origLen := s.contentEnd - s.contentStart;
    newRaw := Utf16.Encode(translate(s.raw));
    if |newRaw| < origLen {
      var pad := (origLen - |newRaw|) / 2;
      newRaw := newRaw + Utf16.Repeat(Utf16.SPACE, pad);
    } else {
      newRaw := newRaw[..origLen];
    }
  }

  /** One iteration of the reinsertion loop. */
  method WriteSegment(buf: array<byte>, s: Segment, translate: seq<byte> -> string)
    requires Fits(buf.Length, s)
    modifies buf
    ensures buf[..] == PatchSegment(old(buf[..]), s, NewRaw(s, translate))
  {
    var newRaw := FitContent(s, translate);
    var newUnits := |newRaw| / 2;
    buf[s.prefixPos + 4] := newUnits % 256;
    WriteSlice(buf, s.contentStart, newRaw);
  }

  /** `patch_file` on the loaded buffer: read the segments, then rewrite
      them from the last to the first. The segments always fit the
      buffer, so the reinsertion is well defined. */
  method PatchFile(buf: array<byte>, start: nat, translate: seq<byte> -> string)
    modifies buf
    ensures var segs := SegmentsFrom(old(buf[..]), start);
      Fills(buf.Length, segs, NewRaws(segs, translate)) &&
      buf[..] == PatchDown(old(buf[..]), segs, NewRaws(segs, translate), 0)
  {
    var segments := ExtractSegments(buf[..], start);
    ghost var data := buf[..];
    SegmentsLayout(data, start);
    ghost var fills := NewRaws(segments, translate);
    var i := |segments|;
    while i > 0
      invariant 0 <= i <= |segments| && buf.Length == |data|
      invariant buf[..] == PatchDown(data, segments, fills, i)
    {
      i := i - 1;
      WriteSegment(buf, segments[i], translate);
    }
  }
}
