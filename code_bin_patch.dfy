/** scripts/code_bin_trad_no_extend.py: in-place, length-preserving
    translation of the strings of code.bin. Each pointer-table row gives a
    file offset; the string there runs up to the first separator unit, its
    translation is encoded, cut or padded with UTF-16LE spaces to the
    original byte length, and written back over it together with the
    separator run that follows. The translator is a parameter. */
module CodeBinPatch {

  import opened Wrappers
  import opened Bytes
  import opened Text
  import Utf16
  import opened ExtractFromPointer

  /** The virtual base subtracted from every target (`- 0x00100000`). */
  const BANK_BASE: int := 0x100000

  // ---------------------------------------------------------------------
  // read_pointers
  // ---------------------------------------------------------------------

  /** One row of the pointer table: `int(cible, 16) - 0x00100000` and
      `int(taille)`; `None` is the ValueError of either conversion. */
  function ReadPointer(cible: string, taille: string): Option<(int, int)>
  {
    match ParseInt(cible, 16)
    case None => None
    case Some(c) =>
      match ParseInt(taille, 10)
      case None => None
      case Some(t) => Some((c - BANK_BASE, t))
  }

  /** A row as the pointer-table exporter writes it (`%08X` target, `%d`
      size) is read back as the target's file offset and the size. */
  lemma ReadPointerOfRow(target: nat, size: nat)
    ensures ReadPointer(FormatPadded(target, 8, 16), FormatPadded(size, 0, 10)) == Some((target - BANK_BASE, size))
  {
    ParseFormatHex(target, 8);
    ParseFormatDecimal(size);
  }

  /** `read_pointers` over all rows; `None` when one row does not parse.
      Reading succeeds exactly when every row parses, and then gives each
      row's conversion in order. */
  function ReadPointers(rows: seq<(string, string)>): (r: Option<seq<(int, int)>>)
    ensures r.Some? <==> forall k :: 0 <= k < |rows| ==> ReadPointer(rows[k].0, rows[k].1).Some?
    ensures r.Some? ==> |r.value| == |rows|
    ensures r.Some? ==> forall k :: 0 <= k < |rows| ==> r.value[k] == ReadPointer(rows[k].0, rows[k].1).value
  {
    var parsed := seq(|rows|, k requires 0 <= k < |rows| => ReadPointer(rows[k].0, rows[k].1));
    assert forall k :: 0 <= k < |rows| ==> parsed[k] == ReadPointer(rows[k].0, rows[k].1);
    AllSome(parsed)
  }

  // ---------------------------------------------------------------------
  // extract_string
  // ---------------------------------------------------------------------

  /** `SEPARATOR_PATTERN.match(data[end:end+4])`: the window at `end`
      begins with a separator unit. */
  predicate UnitIsSeparator(data: seq<byte>, end: int)
  {
    var w := PySlice(data, end, end + 4);
    |w| >= 2 && IsSeparator(w[..2])
  }

  /** The scan stops at `offset`: it is at or past `len(data) - 1`, or
      the unit there is a separator. */
  predicate Stops(data: seq<byte>, offset: int)
  {
    offset >= |data| - 1 || UnitIsSeparator(data, offset)
  }

  /** Where the scan from `offset` stops: the first position, stepping two
      bytes at a time, where `Stops` holds. */
  function StringEnd(data: seq<byte>, offset: int): int
    decreases |data| - offset
  {
    if Stops(data, offset) then offset else StringEnd(data, offset + 2)
  }

  /** An even distance stays even one step back. */
  lemma EvenStep(end: int, offset: int)
    requires (end - (offset + 2)) % 2 == 0
    ensures (end - offset) % 2 == 0
  {
  }

  /** The scan's end lies an even distance on from its start. */
  lemma {:induction false} StringEndEven(data: seq<byte>, offset: int)
    ensures offset <= StringEnd(data, offset) && (StringEnd(data, offset) - offset) % 2 == 0
    decreases |data| - offset
  {
    if !Stops(data, offset) {
      StringEndEven(data, offset + 2);
      EvenStep(StringEnd(data, offset + 2), offset);
    }
  }

  /** The scan stops where it ends. */
  lemma {:induction false} StringEndStops(data: seq<byte>, offset: int)
    ensures Stops(data, StringEnd(data, offset))
    decreases |data| - offset
  {
    if !Stops(data, offset) {
      StringEndStops(data, offset + 2);
    }
  }

  /** A scan that starts inside the data or at its end stops no further
      than its end. */
  lemma {:induction false} StringEndInside(data: seq<byte>, offset: int)
    requires offset <= |data|
    ensures StringEnd(data, offset) <= |data|
    decreases |data| - offset
  {
    if !Stops(data, offset) {
      if offset + 2 < |data| {
        StringEndInside(data, offset + 2);
      } else {
        assert Stops(data, offset + 2);
      }
    }
  }

  /** The scan's end: an even distance from the start, a position where
      the scan stops, and never past the data when it starts inside it or
      at its end. */
  lemma StringEndSpec(data: seq<byte>, offset: int)
    ensures offset <= StringEnd(data, offset) && (StringEnd(data, offset) - offset) % 2 == 0
    ensures Stops(data, StringEnd(data, offset))
    ensures offset <= |data| ==> StringEnd(data, offset) <= |data|
  {
    StringEndEven(data, offset);
    StringEndStops(data, offset);
    if offset <= |data| {
      StringEndInside(data, offset);
    }
  }

  /** No step of the scan before its end stops it: the `j`-th step from
      `offset` either is the end or lies past every earlier stop. */
  lemma {:induction false} StringEndFirst(data: seq<byte>, offset: int, j: nat)
    requires offset + 2 * j < StringEnd(data, offset)
    ensures !Stops(data, offset + 2 * j)
    decreases j
  {
    if j != 0 {
      assert !Stops(data, offset);
      StringEndFirst(data, offset + 2, j - 1);
      assert offset + 2 + 2 * (j - 1) == offset + 2 * j;
    }
  }

  /** `extract_string`: the string's bytes and where the scan stopped. */
  method ExtractString(data: seq<byte>, offset: int) returns (bytes: seq<byte>, end: int)
    ensures end == StringEnd(data, offset)
    ensures bytes == PySlice(data, offset, end)
  {
    end := offset;
    while end < |data| - 1
      invariant StringEnd(data, end) == StringEnd(data, offset)
      decreases |data| - end
    {
      if UnitIsSeparator(data, end) {
        break;
      }
      end := end + 2;
    }
    bytes := PySlice(data, offset, end);
  }

  // ---------------------------------------------------------------------
  // patch_binary
  // ---------------------------------------------------------------------

  /** `SEPARATOR_PATTERN.match(s)`: the longest run of separator units
      at the start of `s`. */
  function LeadingSeparators(s: seq<byte>): (run: seq<byte>)
    ensures run <= s && IsSeparatorRun(run)
    decreases |s|
  {
    if |s| >= 2 && IsSeparator(s[..2]) then
      var rest := LeadingSeparators(s[2..]);
      RunPrepend(s[..2], rest);
      assert s == s[..2] + s[2..];
      s[..2] + rest
    else []
  }

  /** The translation of the original bytes, encoded and fitted to their
      length. */
  function Fitted(original: seq<byte>, translate: string -> string): seq<byte>
  {
    Utf16.FitToLength(Utf16.Encode(translate(Utf16.Decode(original))), |original|)
  }

  /** An even-length original gives a translation of exactly its length. */
  lemma FittedLength(original: seq<byte>, translate: string -> string)
    requires |original| % 2 == 0
    ensures |Fitted(original, translate)| == |original|
  {
    var t := Utf16.Encode(translate(Utf16.Decode(original)));
    assert |t| % 2 == 0;
  }

  /** One pointer of `patch_binary`: the fitted translation written over
      the original bytes, then the separator run that followed written back
      after it. */
  function PatchOne(data: seq<byte>, offset: int, translate: string -> string): seq<byte>
  {
    var end := StringEnd(data, offset);
    var original := PySlice(data, offset, end);
    WritePatch(data, offset, original, Fitted(original, translate), LeadingSeparators(PySliceFrom(data, end)))
  }

  /** The two slice writes: `fitted` over the `original` bytes at `offset`,
      then, when a separator run followed, that run after it. */
  function WritePatch(data: seq<byte>, offset: int, original: seq<byte>, fitted: seq<byte>, sep: seq<byte>): seq<byte>
  {
    var written := PySliceAssign(data, offset, offset + |original|, fitted);
    if sep != [] then PySliceAssign(written, offset + |original|, offset + |original| + |sep|, sep)
    else written
  }

  /** Writing back a run read from `s` at `at` leaves `s` as it was. */
  lemma WriteBackSame(s: seq<byte>, at: nat, run: seq<byte>)
    requires at <= |s| && run <= s[at..]
    ensures PySliceAssign(s, at, at + |run|, run) == s
  {
    assert s[at..at + |run|] == run;
    assert s == s[..at] + run + s[at + |run|..];
  }

  /** The two slice writes of one pointer, for a string `[offset, end)`
      inside the image, a replacement of its length, and a run read after it. */
  lemma WritesInPlace(data: seq<byte>, offset: nat, end: nat, fitted: seq<byte>, sep: seq<byte>)
    requires offset <= end <= |data| && |fitted| == end - offset && sep <= data[end..]
    ensures WritePatch(data, offset, data[offset..end], fitted, sep) == data[..offset] + fitted + data[end..]
  {
    var written := data[..offset] + fitted + data[end..];
    assert written[end..] == data[end..];
    WriteBackSame(written, end, sep);
  }

  /** The string `[offset, end)` lies inside the image, its fitted
      translation has its length, and patching the pointer replaces exactly
      those bytes with it. */
  predicate PatchedAt(data: seq<byte>, offset: int, end: int, translate: string -> string)
  {
    && 0 <= offset <= end <= |data|
    && |Fitted(data[offset..end], translate)| == end - offset
    && PatchOne(data, offset, translate) == data[..offset] + Fitted(data[offset..end], translate) + data[end..]
  }

  /** For an offset inside the image, the string's bytes become the fitted
      translation (its prefix when longer, followed by `20 00` units when
      shorter) and nothing else changes: the bytes before the string and
      from its end on are untouched, since the separator write-back
      rewrites the bytes already there; the length is kept. */
  lemma PatchOneSpec(data: seq<byte>, offset: int, translate: string -> string)
    requires 0 <= offset <= |data|
    ensures PatchedAt(data, offset, StringEnd(data, offset), translate)
  {
    StringEndEven(data, offset);
    StringEndInside(data, offset);
    var end := StringEnd(data, offset);
    FittedLength(data[offset..end], translate);
    PatchOneInside(data, offset, end, translate);
  }

  lemma PatchOneInside(data: seq<byte>, offset: nat, end: nat, translate: string -> string)
    requires offset <= end <= |data| && end == StringEnd(data, offset)
    requires |Fitted(data[offset..end], translate)| == end - offset
    ensures PatchedAt(data, offset, end, translate)
  {
    var original := data[offset..end];
    assert PySlice(data, offset, end) == original;
    assert PySliceFrom(data, end) == data[end..];
    WritesInPlace(data, offset, end, Fitted(original, translate), LeadingSeparators(data[end..]));
  }

  /** An offset past the image changes nothing. */
  lemma PatchOnePast(data: seq<byte>, offset: int, translate: string -> string)
    requires offset > |data|
    ensures PatchOne(data, offset, translate) == data
  {
    assert StringEnd(data, offset) == offset;
    assert PySlice(data, offset, offset) == [];
    assert PySliceFrom(data, offset) == [];
  }

  /** The translation fitted as the loop body writes it: cut to the
      original length, or padded with `(original - translated) // 2` spaces. */
  method FitTranslation(originalBytes: seq<byte>, translate: string -> string) returns (translatedBytes: seq<byte>)
    ensures translatedBytes == Fitted(originalBytes, translate)
  {
    var originalText := Utf16.Decode(originalBytes);
    var translatedText := translate(originalText);
    translatedBytes := Utf16.Encode(translatedText);
    if |translatedBytes| > |originalBytes| {
      translatedBytes := translatedBytes[..|originalBytes|];
    } else if |translatedBytes| < |originalBytes| {
      var padUnits := (|originalBytes| - |translatedBytes|) / 2;
      translatedBytes := translatedBytes + Utf16.Repeat(Utf16.SPACE, padUnits);
    }
  }

  /** One pointer as the loop body writes it. */
  method PatchAt(data: seq<byte>, offset: int, translate: string -> string) returns (r: seq<byte>)
    ensures r == PatchOne(data, offset, translate)
  {
    var originalBytes, end := ExtractString(data, offset);
    var translatedBytes := FitTranslation(originalBytes, translate);
    var sepBytes := LeadingSeparators(PySliceFrom(data, end));
    r := PySliceAssign(data, offset, offset + |originalBytes|, translatedBytes);
    if sepBytes != [] {
      r := PySliceAssign(r, offset + |originalBytes|, offset + |originalBytes| + |sepBytes|, sepBytes);
    }
  }

  /** `patch_binary` over the pointers in order. */
  function PatchAll(data: seq<byte>, offsets: seq<int>, translate: string -> string): seq<byte>
  {
    if offsets == [] then data
    else PatchOne(PatchAll(data, offsets[..|offsets| - 1], translate), offsets[|offsets| - 1], translate)
  }

  lemma PatchAllStep(data: seq<byte>, offsets: seq<int>, translate: string -> string, i: nat)
    requires i < |offsets|
    ensures PatchAll(data, offsets[..i + 1], translate) == PatchOne(PatchAll(data, offsets[..i], translate), offsets[i], translate)
  {
    assert offsets[..i + 1][..i] == offsets[..i];
  }

  /** With every offset non-negative, the patched image has the length of
      the original. */
  lemma {:induction false} PatchAllLength(data: seq<byte>, offsets: seq<int>, translate: string -> string)
    requires forall k :: 0 <= k < |offsets| ==> offsets[k] >= 0
    ensures |PatchAll(data, offsets, translate)| == |data|
  {
    if offsets != [] {
      var front := offsets[..|offsets| - 1];
      PatchAllLength(data, front, translate);
      var acc := PatchAll(data, front, translate);
      if offsets[|offsets| - 1] <= |acc| {
        PatchOneSpec(acc, offsets[|offsets| - 1], translate);
      } else {
        PatchOnePast(acc, offsets[|offsets| - 1], translate);
      }
    }
  }

  /** The loop of `patch_binary` over the pointers read from the table
      (the sizes are read but not used). */
  method PatchBinary(data: seq<byte>, pointers: seq<(int, int)>, translate: string -> string) returns (out: seq<byte>)
    ensures out == PatchAll(data, Offsets(pointers), translate)
  {
    out := data;
    for idx := 0 to |pointers|
      invariant out == PatchAll(data, Offsets(pointers)[..idx], translate)
    {
      var offset := pointers[idx].0;
      PatchAllStep(data, Offsets(pointers), translate, idx);
      out := PatchAt(out, offset, translate);
    }
    assert Offsets(pointers)[..|pointers|] == Offsets(pointers);
  }

  function Offsets(pointers: seq<(int, int)>): (offsets: seq<int>)
    ensures |offsets| == |pointers|
    ensures forall k :: 0 <= k < |pointers| ==> offsets[k] == pointers[k].0
  {
    seq(|pointers|, k requires 0 <= k < |pointers| => pointers[k].0)
  }
}
