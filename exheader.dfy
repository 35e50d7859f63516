/** The extended-header patch run after the code binary has grown: the code
    size, read-only size, data size and physical page count of the header
    are recomputed from the sizes of the padded and the patched binaries and
    packed as 32-bit little-endian fields at fixed offsets. Two versions
    exist: the first writes its fields with Python slice assignment whatever
    the header's length; the second refuses a header too short to hold them. */
module ExHeader {

  import opened Wrappers
  import opened Bytes

  /** Size of a memory page. */
  const PAGE: int := 0x1000

  /** Data plus bss size of the unmodified program, as recorded in its header. */
  const BASE_DATA_SIZE: int := 0x001BBF78 + 0x001E16FC

  /** One past the last byte the patch writes: the header must be this long. */
  const HEADER_MIN: int := 0x38

  const CODE_SIZE_AT: int := 0x00
  const RO_SIZE_AT: int := 0x08
  const DATA_SIZE_AT: int := 0x0C
  const PAGES_AT: int := 0x34

  // ---------------------------------------------------------------------
  // Page rounding
  // ---------------------------------------------------------------------

  /** `(v + 0xFFF) & ~0xFFF`: on Python's unbounded two's-complement
      integers, clearing the low twelve bits subtracts the floored remainder
      modulo 0x1000, which Dafny's `%` gives for a positive divisor. */
  function RoundUp(v: int): (r: int)
    ensures r % PAGE == 0
    ensures v <= r < v + PAGE
  {
    var x := v + 0xFFF;
    assert x == PAGE * (x / PAGE) + x % PAGE;
    x - x % PAGE
  }

  /** A value already on a page boundary is left alone. */
  lemma RoundUpAligned(v: int)
    requires v % PAGE == 0
    ensures RoundUp(v) == v
  {
    var x := v + 0xFFF;
    assert v == PAGE * (v / PAGE);
    assert x == PAGE * (v / PAGE) + 0xFFF;
    assert x % PAGE == 0xFFF;
  }

  /** Rounding twice is rounding once. */
  lemma RoundUpIdempotent(v: int)
    ensures RoundUp(RoundUp(v)) == RoundUp(v)
  {
    RoundUpAligned(RoundUp(v));
  }

  /** The result is the smallest page multiple that is at least `v`. */
  lemma RoundUpLeast(v: int, m: int)
    requires m % PAGE == 0 && v <= m
    ensures RoundUp(v) <= m
  {
    var r := RoundUp(v);
    var a, b := r / PAGE, m / PAGE;
    assert r == PAGE * a;
    assert m == PAGE * b;
    PageMultiplesApart(a, b);
  }

  lemma PageMultiplesApart(a: int, b: int)
    requires PAGE * a < PAGE * b + PAGE
    ensures PAGE * a <= PAGE * b
  {
    assert PAGE * (a - b) < PAGE;
  }

  // ---------------------------------------------------------------------
  // The new field values
  // ---------------------------------------------------------------------

  datatype Fields = Fields(codeSize: int, dataSize: int, pages: int)

  /** The values written for a padded binary of `sizePadded` bytes that was
      patched into one of `sizePatched` bytes: the code size covers the
      patched image, the data size grows by the difference of the two sizes,
      and both are whole pages. */
  function NewFields(sizePadded: nat, sizePatched: nat): (f: Fields)
    ensures f.codeSize % PAGE == 0 && sizePatched <= f.codeSize < sizePatched + PAGE
    ensures f.dataSize % PAGE == 0
    ensures BASE_DATA_SIZE + (sizePatched - sizePadded) <= f.dataSize < BASE_DATA_SIZE + (sizePatched - sizePadded) + PAGE
    ensures f.pages * PAGE == f.dataSize
  {
    var delta := sizePatched - sizePadded;
    var dataSize := RoundUp(BASE_DATA_SIZE + delta);
    Fields(RoundUp(sizePatched), dataSize, dataSize / PAGE)
  }

  /** The two sizes are the least page multiples covering the patched image
      and the grown data section. */
  lemma NewFieldsLeast(sizePadded: nat, sizePatched: nat, m: int)
    requires m % PAGE == 0
    ensures sizePatched <= m ==> NewFields(sizePadded, sizePatched).codeSize <= m
    ensures BASE_DATA_SIZE + (sizePatched - sizePadded) <= m ==> NewFields(sizePadded, sizePatched).dataSize <= m
  {
    if sizePatched <= m {
      RoundUpLeast(sizePatched, m);
    }
    if BASE_DATA_SIZE + (sizePatched - sizePadded) <= m {
      RoundUpLeast(BASE_DATA_SIZE + (sizePatched - sizePadded), m);
    }
  }

  /** `struct.pack('<I', v)` succeeds on every value written. */
  predicate Packable(f: Fields)
  {
    IsU32(f.codeSize) && IsU32(f.dataSize) && IsU32(f.pages)
  }

  /** The bytes the patch rewrites. */
  predicate InField(i: int)
  {
    CODE_SIZE_AT <= i < CODE_SIZE_AT + 4 || RO_SIZE_AT <= i < DATA_SIZE_AT + 4 || PAGES_AT <= i < PAGES_AT + 4
  }

  // ---------------------------------------------------------------------
  // The length-checked patch
  // ---------------------------------------------------------------------

  /** `ex` with the four fields written in place. */
  function HeaderWith(ex: seq<byte>, f: Fields): seq<byte>
    requires |ex| >= HEADER_MIN && Packable(f)
  {
    var h1 := WriteLe32(ex, CODE_SIZE_AT, f.codeSize);
    var h2 := WriteLe32(h1, RO_SIZE_AT, 0);
    var h3 := WriteLe32(h2, DATA_SIZE_AT, f.dataSize);
    WriteLe32(h3, PAGES_AT, f.pages)
  }

  /** Reading the header back gives the four values, the page count times
      the page size is the data size, and every other byte is as it was. */
  lemma HeaderWithFields(ex: seq<byte>, f: Fields)
    requires |ex| >= HEADER_MIN && Packable(f) && f.pages * PAGE == f.dataSize
    ensures |HeaderWith(ex, f)| == |ex|
    ensures ReadLe32(HeaderWith(ex, f), CODE_SIZE_AT) == f.codeSize
    ensures ReadLe32(HeaderWith(ex, f), RO_SIZE_AT) == 0
    ensures ReadLe32(HeaderWith(ex, f), DATA_SIZE_AT) == f.dataSize
    ensures ReadLe32(HeaderWith(ex, f), PAGES_AT) == f.pages
    ensures ReadLe32(HeaderWith(ex, f), PAGES_AT) * PAGE == ReadLe32(HeaderWith(ex, f), DATA_SIZE_AT)
    ensures forall i :: 0 <= i < |ex| && !InField(i) ==> HeaderWith(ex, f)[i] == ex[i]
  {
    var h := HeaderWith(ex, f);
    FieldReadsBack(h, CODE_SIZE_AT, f.codeSize);
    FieldReadsBack(h, RO_SIZE_AT, 0);
    FieldReadsBack(h, DATA_SIZE_AT, f.dataSize);
    FieldReadsBack(h, PAGES_AT, f.pages);
  }

  /** A field holding the packed bytes of `v` reads back as `v`. */
  lemma FieldReadsBack(h: seq<byte>, off: int, v: int)
    requires 0 <= off && off + 4 <= |h| && IsU32(v) && h[off..off + 4] == Le32(v)
    ensures ReadLe32(h, off) == v
  {
    ReadLe32OfLe32(v);
    assert forall k :: 0 <= k < 4 ==> h[off + k] == Le32(v)[k];
  }

  /** The patched header the second script writes, or None when it returns
      false: a size that cannot be read (a missing file), an unreadable
      header, a header under 0x38 bytes, or a value `struct.pack` rejects. */
  function FixedPatch(ex: Option<seq<byte>>, sizeOriginal: Option<nat>, sizePatched: Option<nat>): Option<seq<byte>>
  {
    if sizeOriginal.None? || sizePatched.None? || ex.None? then None
    else if |ex.value| < HEADER_MIN then None
    else
      var f := NewFields(sizeOriginal.value, sizePatched.value);
      if !Packable(f) then None else Some(HeaderWith(ex.value, f))
  }

  /** The patch succeeds exactly when both sizes and the header are
      available, the header is long enough and the values fit 32 bits; it
      then keeps the header's length. */
  lemma FixedPatchSpec(ex: Option<seq<byte>>, sizeOriginal: Option<nat>, sizePatched: Option<nat>)
    ensures FixedPatch(ex, sizeOriginal, sizePatched).Some? <==>
      sizeOriginal.Some? && sizePatched.Some? && ex.Some? && |ex.value| >= HEADER_MIN
      && Packable(NewFields(sizeOriginal.value, sizePatched.value))
    ensures FixedPatch(ex, sizeOriginal, sizePatched).Some? ==>
      |FixedPatch(ex, sizeOriginal, sizePatched).value| == |ex.value|
  {
    if FixedPatch(ex, sizeOriginal, sizePatched).Some? {
      HeaderWithFields(ex.value, NewFields(sizeOriginal.value, sizePatched.value));
    }
  }

  /** A header too short for the page-count field is refused. */
  lemma ShortHeaderRefused(ex: seq<byte>, sizeOriginal: Option<nat>, sizePatched: Option<nat>)
    requires |ex| < HEADER_MIN
    ensures FixedPatch(Some(ex), sizeOriginal, sizePatched) == None
  {
  }

  /** The second script's `patch_exheader` on a fresh `bytearray` of the
      header: the four slice assignments overwrite the buffer in place. */
  method PatchExheaderFixed(exheader: Option<seq<byte>>, sizeOriginal: Option<nat>, sizePatched: Option<nat>)
    returns (written: Option<seq<byte>>)
    ensures written == FixedPatch(exheader, sizeOriginal, sizePatched)
  {
    if sizeOriginal.None? || sizePatched.None? {
      return None;
    }
    var delta := sizePatched.value - sizeOriginal.value;
    var newDataSize := RoundUp(BASE_DATA_SIZE + delta);
    var pages := newDataSize / PAGE;
    if exheader.None? {
      return None;
    }
    var src := exheader.value;
    var ex := new byte[|src|](i requires 0 <= i < |src| => src[i]);
    assert ex[..] == src;
    if ex.Length < HEADER_MIN {
      return None;
    }
    var codeSize := RoundUp(sizePatched.value);
    ghost var f := Fields(codeSize, newDataSize, pages);
    assert f == NewFields(sizeOriginal.value, sizePatched.value);
    if !IsU32(codeSize) {
      return None;
    }
    WriteSlice(ex, CODE_SIZE_AT, Le32(codeSize));
    WriteSlice(ex, RO_SIZE_AT, Le32(0));
    if !IsU32(newDataSize) {
      return None;
    }
    WriteSlice(ex, DATA_SIZE_AT, Le32(newDataSize));
    if !IsU32(pages) {
      return None;
    }
    WriteSlice(ex, PAGES_AT, Le32(pages));
    written := Some(ex[..]);
  }

  // ---------------------------------------------------------------------
  // The first script: slice assignment with no length check
  // ---------------------------------------------------------------------

  /** The four slice assignments with Python's rules: on a header shorter
      than a slot, the slot's bytes are inserted at the clamped position and
      the header grows. */
  function SliceWrites(ex: seq<byte>, f: Fields): seq<byte>
    requires Packable(f)
  {
    var h1 := PySliceAssign(ex, CODE_SIZE_AT, CODE_SIZE_AT + 4, Le32(f.codeSize));
    var h2 := PySliceAssign(h1, RO_SIZE_AT, RO_SIZE_AT + 4, Le32(0));
    var h3 := PySliceAssign(h2, DATA_SIZE_AT, DATA_SIZE_AT + 4, Le32(f.dataSize));
    PySliceAssign(h3, PAGES_AT, PAGES_AT + 4, Le32(f.pages))
  }

  /** The header the first script writes, or None when `struct.pack`
      raises and the script stops before writing. */
  function AsWrittenPatch(ex: seq<byte>, sizePadded: nat, sizePatched: nat): Option<seq<byte>>
  {
    var f := NewFields(sizePadded, sizePatched);
    if Packable(f) then Some(SliceWrites(ex, f)) else None
  }

  /** On a header of at least 0x38 bytes the two scripts write the same
      bytes. */
  lemma AsWrittenAgreesOnLongHeaders(ex: seq<byte>, sizePadded: nat, sizePatched: nat)
    requires |ex| >= HEADER_MIN
    ensures AsWrittenPatch(ex, sizePadded, sizePatched) == FixedPatch(Some(ex), Some(sizePadded), Some(sizePatched))
  {
  }

  /** On a header of 0x10 to 0x33 bytes the first script writes a header
      four bytes longer, with the page count appended at its old end rather
      than at 0x34, while the second script refuses it. */
  lemma ShortHeaderMisplaced(ex: seq<byte>, sizePadded: nat, sizePatched: nat)
    requires DATA_SIZE_AT + 4 <= |ex| < PAGES_AT
    requires Packable(NewFields(sizePadded, sizePatched))
    ensures AsWrittenPatch(ex, sizePadded, sizePatched).Some?
    ensures |AsWrittenPatch(ex, sizePadded, sizePatched).value| == |ex| + 4 < HEADER_MIN
    ensures AsWrittenPatch(ex, sizePadded, sizePatched).value[|ex|..] == Le32(NewFields(sizePadded, sizePatched).pages)
    ensures FixedPatch(Some(ex), Some(sizePadded), Some(sizePatched)) == None
  {
    var f := NewFields(sizePadded, sizePatched);
    var h1 := PySliceAssign(ex, CODE_SIZE_AT, CODE_SIZE_AT + 4, Le32(f.codeSize));
    var h2 := PySliceAssign(h1, RO_SIZE_AT, RO_SIZE_AT + 4, Le32(0));
    var h3 := PySliceAssign(h2, DATA_SIZE_AT, DATA_SIZE_AT + 4, Le32(f.dataSize));
    assert |h3| == |ex|;
    assert PySliceAssign(h3, PAGES_AT, PAGES_AT + 4, Le32(f.pages)) == h3 + Le32(f.pages);
  }

  /** `exheader_path.replace('.bin', '_patched.bin')`. */
  function OutputName(path: string): string
  {
    ReplaceAll(path, ".bin", "_patched.bin")
  }

  /** Every `.bin` in the path, counted left to right, adds eight characters. */
  lemma OutputNameLength(path: string)
    ensures |OutputName(path)| == |path| + 8 * CountOf(path, ".bin")
  {
    ReplaceLength(path, ".bin", "_patched.bin");
  }

  /** The output path is the input path, so the header is overwritten,
      exactly when the path contains no `.bin`. */
  lemma OutputNameKeepsInput(path: string)
    ensures OutputName(path) == path <==> FindFrom(path, ".bin", 0) == -1
  {
    CountZeroIffAbsent(path, ".bin");
    OutputNameLength(path);
    if FindFrom(path, ".bin", 0) == -1 {
      ReplaceAbsent(path, ".bin", "_patched.bin");
    }
  }

  /** The first script's `patch_exheader`: the same four slice assignments
      on the header's `bytearray`, then the output name. */
  method PatchExheaderAsWritten(exheaderPath: string, exheader: seq<byte>, sizePadded: nat, sizePatched: nat)
    returns (outPath: string, written: Option<seq<byte>>)
    ensures written == AsWrittenPatch(exheader, sizePadded, sizePatched)
    ensures outPath == OutputName(exheaderPath)
  {
    var delta := sizePatched - sizePadded;
    var newDataSize := RoundUp(BASE_DATA_SIZE + delta);
    var pages := newDataSize / PAGE;
    var ex := exheader;
    var codeSize := RoundUp(sizePatched);
    outPath := OutputName(exheaderPath);
    if !IsU32(codeSize) || !IsU32(newDataSize) || !IsU32(pages) {
      return outPath, None;
    }
    ex := PySliceAssign(ex, CODE_SIZE_AT, CODE_SIZE_AT + 4, Le32(codeSize));
    ex := PySliceAssign(ex, RO_SIZE_AT, RO_SIZE_AT + 4, Le32(0));
    ex := PySliceAssign(ex, DATA_SIZE_AT, DATA_SIZE_AT + 4, Le32(newDataSize));
    ex := PySliceAssign(ex, PAGES_AT, PAGES_AT + 4, Le32(pages));
    written := Some(ex);
  }
}
