/** scripts/zero_text_injector.py: a diagnostic injector that overwrites
    every piece of text it can recognise in a decompressed RTZ asset with
    the digit `0`. Three passes run over the same `bytearray`, in place and
    without changing its length: UTF-16LE runs, UTF-8 runs up to a zero
    byte, and four fixed Shift-JIS byte patterns. Whether a chunk "looks
    like text" (a strict decode followed by the `is_meaningful_text`
    regular-expression test) is an uninterpreted predicate on the chunk's bytes,
    and gzip is an uninterpreted pair of functions. */
module ZeroText {

  import opened Wrappers
  import opened Bytes
  import Utf16

  /** `'0'.encode('utf-16le')`. */
  const ZERO16: seq<byte> := [0x30, 0x00]

  /** `'0'.encode('utf-8')`, which is also `'0'.encode('shift_jis')`. */
  const ZERO8: seq<byte> := [0x30]

  lemma ZeroUnitIsEncoding()
    ensures Utf16.Encode("0") == ZERO16
  {
    assert Utf16.TextUnits("0") == [0x30];
  }

  /** `b'\x00' * n`. */
  function Zeros(n: nat): (r: seq<byte>)
    ensures |r| == n && forall j :: 0 <= j < n ==> r[j] == 0
  {
    seq(n, _ => 0)
  }

  /** A byte the passes may write: the digit `0` or a zero byte. */
  predicate ZeroByte(b: byte)
  {
    b == 0x30 || b == 0
  }

  /** `after` is `before` with some bytes overwritten by `0` digits or zero
      bytes, and no byte moved. */
  predicate ZeroedFrom(before: seq<byte>, after: seq<byte>)
  {
    |after| == |before| && forall j :: 0 <= j < |before| ==> after[j] == before[j] || ZeroByte(after[j])
  }

  lemma ZeroedFromTrans(a: seq<byte>, b: seq<byte>, c: seq<byte>)
    requires ZeroedFrom(a, b) && ZeroedFrom(b, c)
    ensures ZeroedFrom(a, c)
  {
  }

  /** Overwriting with zero text is zeroing. */
  lemma OverwriteZeroed(buf: seq<byte>, at: nat, fill: seq<byte>)
    requires at + |fill| <= |buf| && forall j :: 0 <= j < |fill| ==> ZeroByte(fill[j])
    ensures ZeroedFrom(buf, Overwrite(buf, at, fill))
  {
    OverwriteAt(buf, at, fill);
  }

  // ---------------------------------------------------------------------
  // find_text_boundaries
  // ---------------------------------------------------------------------

  /** Four zero bytes, none of them before `start`, end at `p`. */
  predicate FourZeros(data: seq<byte>, start: nat, p: nat)
  {
    start + 3 <= p < |data| && data[p - 3] == 0 && data[p - 2] == 0 && data[p - 1] == 0 && data[p] == 0
  }

  /** The first position from `p` on, below `limit`, where four zero bytes
      end; `limit` when there is none (and `p` itself when `p >= limit`). */
  function FirstRun(data: seq<byte>, start: nat, limit: nat, p: nat): (r: nat)
    ensures p <= r && (p <= limit ==> r <= limit)
    decreases limit - p
  {
    if p >= limit || FourZeros(data, start, p) then p else FirstRun(data, start, limit, p + 1)
  }

  /** `FirstRun` finds the first end of four zero bytes: none ends before
      the result, and one ends at it unless the scan reached `limit`. */
  lemma {:induction false} FirstRunSpec(data: seq<byte>, start: nat, limit: nat, p: nat)
    ensures forall q :: p <= q < FirstRun(data, start, limit, p) ==> !FourZeros(data, start, q)
    ensures FirstRun(data, start, limit, p) < limit ==> FourZeros(data, start, FirstRun(data, start, limit, p))
    decreases limit - p
  {
    if p < limit && !FourZeros(data, start, p) {
      FirstRunSpec(data, start, limit, p + 1);
    }
  }

  /** The number of zero bytes that end just before `e`, counting none
      before `start`. */
  function ZeroRun(data: seq<byte>, start: nat, e: nat): nat
    decreases e
  {
    if e <= start || e > |data| || data[e - 1] != 0 then 0 else 1 + ZeroRun(data, start, e - 1)
  }

  /** The counter reaches four exactly where four zeros end. */
  lemma ZeroRunFour(data: seq<byte>, start: nat, p: nat)
    requires start <= p < |data| && data[p] == 0
    ensures FourZeros(data, start, p) <==> ZeroRun(data, start, p) + 1 >= 4
  {
    if ZeroRun(data, start, p) >= 3 {
      assert ZeroRun(data, start, p - 1) >= 2;
      assert ZeroRun(data, start, p - 2) >= 1;
    }
    if FourZeros(data, start, p) {
      assert ZeroRun(data, start, p - 2) >= 1;
      assert ZeroRun(data, start, p - 1) >= 2;
    }
  }

  /** The end `find_text_boundaries` returns for a text starting at `start`:
      the first position where four zero bytes end, but no further than
      `start + max_size` or the end of the data, moved back by one byte
      when the span would be odd. */
  function BoundaryEnd(data: seq<byte>, start: nat, maxSize: nat): (r: nat)
    ensures start <= r && (r - start) % 2 == 0
    ensures start <= Min(|data|, start + maxSize) ==> r <= Min(|data|, start + maxSize)
    ensures start >= Min(|data|, start + maxSize) ==> r == start
  {
    var raw := FirstRun(data, start, Min(|data|, start + maxSize), start);
    if (raw - start) % 2 == 1 then raw - 1 else raw
  }

  /** What the boundary search guarantees: the text is an even span ending
      no later than the data and the chunk; no four zero bytes occur
      inside it, and when it stops short of the limit, four zero bytes end
      at its end or just after it. */
  lemma BoundarySpec(data: seq<byte>, start: nat, maxSize: nat)
    requires start <= |data|
    ensures var e, limit := BoundaryEnd(data, start, maxSize), Min(|data|, start + maxSize);
      && start <= e <= limit && (e - start) % 2 == 0
      && (forall q :: start <= q < e ==> !FourZeros(data, start, q))
      && (e + 1 < limit ==> FourZeros(data, start, e) || FourZeros(data, start, e + 1))
  {
    FirstRunSpec(data, start, Min(|data|, start + maxSize), start);
  }

  /** `find_text_boundaries`: scan from `start`, counting consecutive zero
      bytes; a non-zero byte resets the count and the fourth zero in a row
      stops the scan. An odd span loses its last byte. */
  method FindTextBoundaries(data: array<byte>, start: nat, maxSize: nat) returns (textStart: nat, textEnd: nat)
    ensures textStart == start && textEnd == BoundaryEnd(data[..], start, maxSize)
  {
    textStart := start;
    textEnd := start;
    var consecutiveNulls := 0;
    ghost var limit := Min(data.Length, start + maxSize);
    while textEnd < Min(data.Length, start + maxSize)
      invariant start <= textEnd && (textEnd <= limit || textEnd == start)
      invariant consecutiveNulls == ZeroRun(data[..], start, textEnd) < 4
      invariant FirstRun(data[..], start, limit, textEnd) == FirstRun(data[..], start, limit, start)
      decreases limit - textEnd
    {
      if data[textEnd] == 0 {
        ZeroRunFour(data[..], start, textEnd);
        consecutiveNulls := consecutiveNulls + 1;
        if consecutiveNulls >= 4 {
          break;
        }
      } else {
        consecutiveNulls := 0;
      }
      textEnd := textEnd + 1;
    }
    if (textEnd - textStart) % 2 == 1 {
      textEnd := textEnd - 1;
    }
  }

  // ---------------------------------------------------------------------
  // The bytes written over a recognised text
  // ---------------------------------------------------------------------

  /** The UTF-16 replacement for a text of `size` bytes: `'0' * (size // 2)`
      (at least one `'0'`) encoded, padded with zero bytes or cut to `size`
      bytes. */
  function ZeroFill16(size: nat): (r: seq<byte>)
    ensures |r| == size
    ensures forall j :: 0 <= j < |r| ==> ZeroByte(r[j])
  {
    var count := if size / 2 == 0 then 1 else size / 2;
    var zeroBytes := Utf16.Repeat(ZERO16, count);
    Utf16.RepeatUnits(ZERO16, count);
    assert forall j :: 0 <= j < |zeroBytes| ==> zeroBytes[j] == ZERO16[j % 2] by {
      forall j | 0 <= j < |zeroBytes| ensures zeroBytes[j] == ZERO16[j % 2] {
        assert j == 2 * (j / 2) + j % 2;
      }
    }
    var fitted := if |zeroBytes| < size then zeroBytes + Zeros(size - |zeroBytes|)
                  else if |zeroBytes| > size then zeroBytes[..size]
                  else zeroBytes;
    fitted[..size]
  }

  /** For the even spans the boundary search returns, the replacement is
      exactly `size / 2` units of `'0'`: no padding and no truncation. */
  lemma ZeroFill16Even(size: nat)
    requires size > 0 && size % 2 == 0
    ensures ZeroFill16(size) == Utf16.Repeat(ZERO16, size / 2)
  {
  }

  /** The UTF-8 replacement for a text of `len` bytes: `'0'` padded with
      zero bytes, then cut to `len` bytes. */
  function ZeroFill8(len: nat): (r: seq<byte>)
    ensures |r| == len
    ensures len > 0 ==> r[0] == 0x30 && forall j :: 1 <= j < len ==> r[j] == 0
  {
    var bytes := if |ZERO8| < len then ZERO8 + Zeros(len - |ZERO8|) else ZERO8;
    bytes[..len]
  }

  /** The Shift-JIS replacement for a pattern of `len` bytes: `'0'`
      followed by `len - 1` zero bytes. */
  function SjisFill(len: nat): (r: seq<byte>)
    requires len >= 1
    ensures |r| == len && r[0] == 0x30 && forall j :: 1 <= j < len ==> r[j] == 0
  {
    ZERO8 + Zeros(len - |ZERO8|)
  }

  // ---------------------------------------------------------------------
  // The RTZ container: a 4-byte little-endian size, then a gzip stream
  // ---------------------------------------------------------------------

  /** The size bounds `decompress_rtz` accepts, exclusive at both ends. */
  const MIN_SIZE: int := 100
  const MAX_SIZE: int := 10000000

  /** `compress_rtz`: the uncompressed length as a little-endian 32-bit
      integer, then the compressed stream; `None` is the failure of
      `struct.pack` on a length of 2^32 or more. */
  function CompressRtz(data: seq<byte>, gzip: seq<byte> -> seq<byte>): (r: Option<seq<byte>>)
    ensures r.Some? <==> IsU32(|data|)
    ensures r.Some? ==> |r.value| >= 4 && ReadLe32(r.value, 0) == |data| && r.value[4..] == gzip(data)
  {
    if IsU32(|data|) then
      var out := Le32(|data|) + gzip(data);
      ReadLe32OfLe32(|data|);
      assert out[..4] == Le32(|data|);
      assert ReadLe32(out, 0) == ReadLe32(out[..4], 0);
      Some(out)
    else None
  }

  /** `decompress_rtz` on a file's bytes: the declared size must lie
      strictly between 100 and 10,000,000 and the stream must start with
      the gzip magic `1F 8B`; `gunzip` is `None` when decompression fails. */
  function DecompressRtz(raw: seq<byte>, gunzip: seq<byte> -> Option<seq<byte>>): (r: Option<seq<byte>>)
    ensures r.Some? ==> |raw| >= 6 && MIN_SIZE < ReadLe32(raw, 0) < MAX_SIZE && raw[4..6] == [0x1F, 0x8B]
    ensures r.Some? ==> r == gunzip(raw[4..])
  {
    if |raw| < 4 then None
    else if !(MIN_SIZE < ReadLe32(raw, 0) < MAX_SIZE) then None
    else if !(|raw| >= 6 && raw[4..6] == [0x1F, 0x8B]) then None
    else gunzip(raw[4..])
  }

  /** Compressing and decompressing give the data back, for a size the
      reader accepts and a gzip pair that round-trips. The declared size is
      not compared with the decompressed length. */
  lemma CompressRoundTrip(data: seq<byte>, gzip: seq<byte> -> seq<byte>, gunzip: seq<byte> -> Option<seq<byte>>)
    requires MIN_SIZE < |data| < MAX_SIZE
    requires |gzip(data)| >= 2 && gzip(data)[..2] == [0x1F, 0x8B] && gunzip(gzip(data)) == Some(data)
    ensures CompressRtz(data, gzip).Some? && DecompressRtz(CompressRtz(data, gzip).value, gunzip) == Some(data)
  {
    var out := CompressRtz(data, gzip).value;
    assert out[4..6] == gzip(data)[..2];
  }

  // ---------------------------------------------------------------------
  // replace_utf16_text
  // ---------------------------------------------------------------------

  /** The chunk tried at `i`: at most 200 bytes, rounded down to even. */
  function ChunkSize16(n: nat, i: nat): (c: nat)
    requires i <= n
    ensures c <= n - i && c % 2 == 0 && c <= 200
  {
    var c := Min(200, n - i);
    if c % 2 == 1 then c - 1 else c
  }

  /** Where one iteration of a scan leaves it: the image, the next scan
      index, and the number of replacements it made (0 or 1). */
  datatype Scan = Scan(buf: seq<byte>, next: nat, made: nat)

  /** One iteration of the UTF-16 scan at `i`. A chunk accepted by
      `meaningful` whose boundary search gives a non-empty text has that
      text overwritten, and the scan resumes at the text's end; otherwise
      the scan moves on by one code unit. */
  function Utf16Step(buf: seq<byte>, i: nat, meaningful: seq<byte> -> bool): (r: Scan)
    requires i + 6 < |buf|
    ensures |r.buf| == |buf| && i < r.next <= |buf| && r.made <= 1
  {
    var cs := ChunkSize16(|buf|, i);
    var e := BoundaryEnd(buf, i, cs);
    if meaningful(buf[i..i + cs]) && e > i then
      Scan(Overwrite(buf, i, ZeroFill16(e - i)), e, 1)
    else Scan(buf, i + 2, 0)
  }

  /** One step of the UTF-16 scan only writes `0` digits and zero bytes,
      and nothing before the index it is at. */
  lemma Utf16StepZeroed(buf: seq<byte>, i: nat, meaningful: seq<byte> -> bool)
    requires i + 6 < |buf|
    ensures ZeroedFrom(buf, Utf16Step(buf, i, meaningful).buf)
    ensures Utf16Step(buf, i, meaningful).buf[..i] == buf[..i]
  {
    if Utf16Step(buf, i, meaningful).made == 1 {
      OverwriteZeroed(buf, i, ZeroFill16(Utf16Step(buf, i, meaningful).next - i));
    }
  }

  /** The UTF-16 pass from scan index `i`: the image and the number of
      replacements, while the index stays below `len(data) - 6`. */
  function Utf16From(buf: seq<byte>, i: nat, meaningful: seq<byte> -> bool): (r: (seq<byte>, nat))
    ensures |r.0| == |buf|
    decreases |buf| - i
  {
    if i + 6 >= |buf| then (buf, 0)
    else
      var st := Utf16Step(buf, i, meaningful);
      var rest := Utf16From(st.buf, st.next, meaningful);
      (rest.0, rest.1 + st.made)
  }

  /** The UTF-16 pass only writes `0` digits and zero bytes, and never
      before the index it starts from. */
  lemma {:induction false} Utf16Zeroed(buf: seq<byte>, i: nat, meaningful: seq<byte> -> bool)
    ensures ZeroedFrom(buf, Utf16From(buf, i, meaningful).0)
    ensures i <= |buf| ==> Utf16From(buf, i, meaningful).0[..i] == buf[..i]
    decreases |buf| - i
  {
    if i + 6 < |buf| {
      var st := Utf16Step(buf, i, meaningful);
      Utf16StepZeroed(buf, i, meaningful);
      Utf16Zeroed(st.buf, st.next, meaningful);
      ZeroedFromTrans(buf, st.buf, Utf16From(st.buf, st.next, meaningful).0);
      assert Utf16From(buf, i, meaningful).0[..i] == Utf16From(st.buf, st.next, meaningful).0[..st.next][..i];
    }
  }

  /** One iteration of the loop of `replace_utf16_text`, in place. */
  method ScanUtf16At(data: array<byte>, i: nat, meaningful: seq<byte> -> bool) returns (next: nat, made: nat)
    requires i + 6 < data.Length
    modifies data
    ensures Scan(data[..], next, made) == Utf16Step(old(data[..]), i, meaningful)
  {
    ghost var buf := data[..];
    var chunkSize := Min(200, data.Length - i);
    if chunkSize % 2 == 1 {
      chunkSize := chunkSize - 1;
    }
    assert chunkSize == ChunkSize16(|buf|, i);
    var chunk := data[i..i + chunkSize];
    assert chunk == buf[i..i + chunkSize];
    ghost var st := Utf16Step(buf, i, meaningful);
    if meaningful(chunk) {
      var textStart, textEnd := FindTextBoundaries(data, i, chunkSize);
      if textEnd > textStart {
        var originalTextSize := textEnd - textStart;
        assert st == Scan(Overwrite(buf, i, ZeroFill16(originalTextSize)), textEnd, 1);
        WriteSlice(data, textStart, ZeroFill16(originalTextSize));
        return textEnd, 1;
      }
    }
    assert st == Scan(buf, i + 2, 0);
    return i + 2, 0;
  }

  /** `replace_utf16_text` with replacement `'0'`, in place. */
  method ReplaceUtf16Text(data: array<byte>, meaningful: seq<byte> -> bool) returns (replacements: nat)
    modifies data
    ensures (data[..], replacements) == Utf16From(old(data[..]), 0, meaningful)
  {
    replacements := 0;
    var i := 0;
    ghost var goal := Utf16From(data[..], 0, meaningful);
    ghost var rest := goal;
    while i < data.Length - 6
      invariant rest == Utf16From(data[..], i, meaningful)
      invariant rest.0 == goal.0 && replacements + rest.1 == goal.1
      decreases data.Length - i
    {
      var next, made := ScanUtf16At(data, i, meaningful);
      replacements := replacements + made;
      i := next;
      rest := Utf16From(data[..], i, meaningful);
    }
  }

  // ---------------------------------------------------------------------
  // replace_utf8_text
  // ---------------------------------------------------------------------

  /** The first zero byte at or after `i`, or the end of the data. */
  function FirstZero(buf: seq<byte>, i: nat): (r: nat)
    requires i <= |buf|
    ensures i <= r <= |buf|
    ensures forall j :: i <= j < r ==> buf[j] != 0
    ensures r < |buf| ==> buf[r] == 0
    decreases |buf| - i
  {
    if i == |buf| || buf[i] == 0 then i else FirstZero(buf, i + 1)
  }

  /** One iteration of the UTF-8 scan at `i`. A chunk of at most 100
      bytes accepted by `meaningful` starts a text that runs up to the next
      zero byte; a text longer than 3 bytes is overwritten and the scan
      resumes at its end, anything else moves the scan on by one byte. */
  function Utf8Step(buf: seq<byte>, i: nat, meaningful: seq<byte> -> bool): (r: Scan)
    requires i + 3 < |buf|
    ensures |r.buf| == |buf| && i < r.next <= |buf| && r.made <= 1
  {
    var e := FirstZero(buf, i);
    if meaningful(buf[i..i + Min(100, |buf| - i)]) && e - i > 3 then
      Scan(Overwrite(buf, i, ZeroFill8(e - i)), e, 1)
    else Scan(buf, i + 1, 0)
  }

  /** One step of the UTF-8 scan only writes `0` digits and zero bytes,
      and nothing before the index it is at. */
  lemma Utf8StepZeroed(buf: seq<byte>, i: nat, meaningful: seq<byte> -> bool)
    requires i + 3 < |buf|
    ensures ZeroedFrom(buf, Utf8Step(buf, i, meaningful).buf)
    ensures Utf8Step(buf, i, meaningful).buf[..i] == buf[..i]
  {
    if Utf8Step(buf, i, meaningful).made == 1 {
      OverwriteZeroed(buf, i, ZeroFill8(Utf8Step(buf, i, meaningful).next - i));
    }
  }

  /** The UTF-8 pass from scan index `i`, while the index stays below
      `len(data) - 3`. */
  function Utf8From(buf: seq<byte>, i: nat, meaningful: seq<byte> -> bool): (r: (seq<byte>, nat))
    ensures |r.0| == |buf|
    decreases |buf| - i
  {
    if i + 3 >= |buf| then (buf, 0)
    else
      var st := Utf8Step(buf, i, meaningful);
      var rest := Utf8From(st.buf, st.next, meaningful);
      (rest.0, rest.1 + st.made)
  }

  /** A replaced UTF-8 text is a run of more than 3 non-zero bytes that
      ends at a zero byte or at the end of the data; it becomes `0`
      followed by zero bytes. */
  lemma Utf8StepSpec(buf: seq<byte>, i: nat, meaningful: seq<byte> -> bool)
    requires i + 3 < |buf| && Utf8Step(buf, i, meaningful).made == 1
    ensures var e := Utf8Step(buf, i, meaningful).next;
      && i + 3 < e <= |buf|
      && (forall j :: i <= j < e ==> buf[j] != 0)
      && (e < |buf| ==> buf[e] == 0)
      && Utf8Step(buf, i, meaningful).buf == Overwrite(buf, i, [0x30] + Zeros(e - i - 1))
  {
    var e := FirstZero(buf, i);
    assert ZeroFill8(e - i) == [0x30] + Zeros(e - i - 1);
  }

  /** The UTF-8 pass only writes `0` digits and zero bytes, and never
      before the index it starts from. */
  lemma {:induction false} Utf8Zeroed(buf: seq<byte>, i: nat, meaningful: seq<byte> -> bool)
    ensures ZeroedFrom(buf, Utf8From(buf, i, meaningful).0)
    ensures i <= |buf| ==> Utf8From(buf, i, meaningful).0[..i] == buf[..i]
    decreases |buf| - i
  {
    if i + 3 < |buf| {
      var st := Utf8Step(buf, i, meaningful);
      Utf8StepZeroed(buf, i, meaningful);
      Utf8Zeroed(st.buf, st.next, meaningful);
      ZeroedFromTrans(buf, st.buf, Utf8From(st.buf, st.next, meaningful).0);
      assert Utf8From(buf, i, meaningful).0[..i] == Utf8From(st.buf, st.next, meaningful).0[..st.next][..i];
    }
  }

  /** The search for the end of a UTF-8 text: the next zero byte. */
  method FindNull(data: array<byte>, i: nat) returns (textEnd: nat)
    requires i <= data.Length
    ensures textEnd == FirstZero(data[..], i)
  {
    textEnd := i;
    while textEnd < data.Length && data[textEnd] != 0
      invariant i <= textEnd <= data.Length
      invariant FirstZero(data[..], textEnd) == FirstZero(data[..], i)
    {
      textEnd := textEnd + 1;
    }
  }

  /** One iteration of the loop of `replace_utf8_text`, in place. */
  method ScanUtf8At(data: array<byte>, i: nat, meaningful: seq<byte> -> bool) returns (next: nat, made: nat)
    requires i + 3 < data.Length
    modifies data
    ensures Scan(data[..], next, made) == Utf8Step(old(data[..]), i, meaningful)
  {
    ghost var buf := data[..];
    var chunkSize := Min(100, data.Length - i);
    var chunk := data[i..i + chunkSize];
    assert chunk == buf[i..i + Min(100, |buf| - i)];
    ghost var st := Utf8Step(buf, i, meaningful);
    if meaningful(chunk) {
      var textEnd := FindNull(data, i);
      var textLength := textEnd - i;
      if textLength > 3 {
        assert st == Scan(Overwrite(buf, i, ZeroFill8(textLength)), i + textLength, 1);
        WriteSlice(data, i, ZeroFill8(textLength));
        return i + textLength, 1;
      }
    }
    assert st == Scan(buf, i + 1, 0);
    return i + 1, 0;
  }

  /** `replace_utf8_text` with replacement `'0'`, in place. */
  method ReplaceUtf8Text(data: array<byte>, meaningful: seq<byte> -> bool) returns (replacements: nat)
    modifies data
    ensures (data[..], replacements) == Utf8From(old(data[..]), 0, meaningful)
  {
    replacements := 0;
    var i := 0;
    ghost var goal := Utf8From(data[..], 0, meaningful);
    ghost var rest := goal;
    while i < data.Length - 3
      invariant rest == Utf8From(data[..], i, meaningful)
      invariant rest.0 == goal.0 && replacements + rest.1 == goal.1
      decreases data.Length - i
    {
      var next, made := ScanUtf8At(data, i, meaningful);
      replacements := replacements + made;
      i := next;
      rest := Utf8From(data[..], i, meaningful);
    }
  }

  // ---------------------------------------------------------------------
  // replace_shift_jis_text
  // ---------------------------------------------------------------------

  /** The Shift-JIS byte patterns looked for, in order: あ, い, カ and タン. */
  const PATTERNS: seq<seq<byte>> := [[0x82, 0xA0], [0x82, 0xA2], [0x83, 0x4A], [0x83, 0x5E, 0x83, 0x93]]

  /** A pattern holding neither a `0` digit nor a zero byte, so that
      nothing a pass writes can be part of an occurrence. */
  predicate Clean(p: seq<byte>)
  {
    forall k :: 0 <= k < |p| ==> !ZeroByte(p[k])
  }

  lemma PatternsClean()
    ensures forall k :: 0 <= k < |PATTERNS| ==> |PATTERNS[k]| > 0 && Clean(PATTERNS[k])
  {
  }

  /** An occurrence found at `f` overwritten by `0` and zero bytes. */
  function SjisWrite(buf: seq<byte>, p: seq<byte>, f: nat): (r: seq<byte>)
    requires |p| > 0 && OccursAt(buf, p, f)
    ensures |r| == |buf|
  {
    buf[..f] + SjisFill(|p|) + buf[f + |p|..]
  }

  /** The step is a slice assignment of zero text. */
  lemma SjisWriteIs(buf: seq<byte>, p: seq<byte>, f: nat)
    requires |p| > 0 && OccursAt(buf, p, f)
    ensures SjisWrite(buf, p, f) == Overwrite(buf, f, SjisFill(|p|))
    ensures ZeroedFrom(buf, SjisWrite(buf, p, f))
  {
    OverwriteZeroed(buf, f, SjisFill(|p|));
  }

  /** The loop over one pattern from `pos`, one position at a time: an
      occurrence at `pos` is overwritten by `0` and zero bytes of the same
      length and the scan resumes after it; otherwise the scan moves on by
      one byte. `SjisFromFound` shows this is the loop that calls `find`. */
  function SjisFrom(buf: seq<byte>, p: seq<byte>, pos: nat): (r: (seq<byte>, nat))
    requires |p| > 0
    ensures |r.0| == |buf|
    decreases |buf| - pos
  {
    if pos + |p| > |buf| then (buf, 0)
    else if OccursAt(buf, p, pos) then
      var rest := SjisFrom(SjisWrite(buf, p, pos), p, pos + |p|);
      (rest.0, rest.1 + 1)
    else SjisFrom(buf, p, pos + 1)
  }

  /** Positions without an occurrence are passed over. */
  lemma {:induction false} SjisSkip(buf: seq<byte>, p: seq<byte>, pos: nat, f: nat)
    requires |p| > 0 && pos <= f && forall q :: pos <= q < f ==> !OccursAt(buf, p, q)
    ensures SjisFrom(buf, p, pos) == SjisFrom(buf, p, f)
    decreases f - pos
  {
    if pos < f {
      SjisSkip(buf, p, pos + 1, f);
    }
  }

  /** One `find` of the loop: with no occurrence from `pos` on the pass
      ends, otherwise it goes on after the occurrence found. */
  lemma SjisFromFound(buf: seq<byte>, p: seq<byte>, pos: nat, f: int)
    requires |p| > 0 && pos < |buf| && f == FindFrom(buf, p, pos)
    ensures f == -1 ==> SjisFrom(buf, p, pos) == (buf, 0)
    ensures f != -1 ==> SjisFrom(buf, p, pos).0 == SjisFrom(SjisWrite(buf, p, f), p, f + |p|).0
    ensures f != -1 ==> SjisFrom(buf, p, pos).1 == SjisFrom(SjisWrite(buf, p, f), p, f + |p|).1 + 1
  {
    if f == -1 {
      SjisSkip(buf, p, pos, |buf|);
    } else {
      SjisSkip(buf, p, pos, f);
    }
  }

  /** Overwriting with zero text creates no occurrence of a clean pattern:
      every occurrence afterwards was there before, clear of the window. */
  lemma NoNewOccurrence(buf: seq<byte>, at: nat, fill: seq<byte>, p: seq<byte>, q: int)
    requires |p| > 0 && Clean(p) && at + |fill| <= |buf| && forall j :: 0 <= j < |fill| ==> ZeroByte(fill[j])
    requires OccursAt(Overwrite(buf, at, fill), p, q)
    ensures OccursAt(buf, p, q) && (|fill| == 0 || q + |p| <= at || at + |fill| <= q)
  {
    var w := Overwrite(buf, at, fill);
    OverwriteAt(buf, at, fill);
    if |fill| > 0 && q + |p| > at && at + |fill| > q {
      var m := if q < at then at else q;
      ZeroByteBreaks(w, p, q, m);
      assert false;
    }
    assert buf[q..q + |p|] == w[q..q + |p|];
  }

  /** A `0` digit or zero byte inside a window keeps a clean pattern out
      of it. */
  lemma ZeroByteBreaks(w: seq<byte>, p: seq<byte>, q: int, m: int)
    requires Clean(p) && 0 <= q <= m < q + |p| <= |w| && ZeroByte(w[m])
    ensures !OccursAt(w, p, q)
  {
    assert w[q..q + |p|][m - q] == w[m];
  }

  /** The same for one step of a pass. */
  lemma SjisWriteNoNew(buf: seq<byte>, p: seq<byte>, f: nat, other: seq<byte>, q: int)
    requires |p| > 0 && OccursAt(buf, p, f)
    requires |other| > 0 && Clean(other) && OccursAt(SjisWrite(buf, p, f), other, q)
    ensures OccursAt(buf, other, q) && (q + |other| <= f || f + |p| <= q)
  {
    SjisWriteIs(buf, p, f);
    NoNewOccurrence(buf, f, SjisFill(|p|), other, q);
  }

  /** The pass over a clean pattern leaves no occurrence of it anywhere,
      given none before the position it starts from. */
  lemma {:induction false} SjisClears(buf: seq<byte>, p: seq<byte>, pos: nat)
    requires |p| > 0 && Clean(p) && forall q :: 0 <= q < pos ==> !OccursAt(buf, p, q)
    ensures forall q :: !OccursAt(SjisFrom(buf, p, pos).0, p, q)
    decreases |buf| - pos
  {
    if pos + |p| <= |buf| {
      if OccursAt(buf, p, pos) {
        var w := SjisWrite(buf, p, pos);
        forall q | 0 <= q < pos + |p| ensures !OccursAt(w, p, q) {
          if OccursAt(w, p, q) {
            SjisWriteNoNew(buf, p, pos, p, q);
          }
        }
        SjisClears(w, p, pos + |p|);
      } else {
        SjisClears(buf, p, pos + 1);
      }
    }
  }

  /** The pass over any pattern creates no occurrence of a clean one. */
  lemma {:induction false} SjisNoNew(buf: seq<byte>, p: seq<byte>, pos: nat, other: seq<byte>, q: int)
    requires |p| > 0 && |other| > 0 && Clean(other) && OccursAt(SjisFrom(buf, p, pos).0, other, q)
    ensures OccursAt(buf, other, q)
    decreases |buf| - pos
  {
    if pos + |p| <= |buf| {
      if OccursAt(buf, p, pos) {
        SjisNoNew(SjisWrite(buf, p, pos), p, pos + |p|, other, q);
        SjisWriteNoNew(buf, p, pos, other, q);
      } else {
        SjisNoNew(buf, p, pos + 1, other, q);
      }
    }
  }

  /** The pass over one pattern only writes `0` digits and zero bytes. */
  lemma {:induction false} SjisZeroed(buf: seq<byte>, p: seq<byte>, pos: nat)
    requires |p| > 0
    ensures ZeroedFrom(buf, SjisFrom(buf, p, pos).0)
    decreases |buf| - pos
  {
    if pos + |p| <= |buf| {
      if OccursAt(buf, p, pos) {
        var w := SjisWrite(buf, p, pos);
        SjisWriteIs(buf, p, pos);
        SjisZeroed(w, p, pos + |p|);
        ZeroedFromTrans(buf, w, SjisFrom(w, p, pos + |p|).0);
      } else {
        SjisZeroed(buf, p, pos + 1);
      }
    }
  }

  /** The passes over the patterns `ps`, one after another. */
  function SjisAll(buf: seq<byte>, ps: seq<seq<byte>>): (r: (seq<byte>, nat))
    requires forall k :: 0 <= k < |ps| ==> |ps[k]| > 0
    ensures |r.0| == |buf|
  {
    if ps == [] then (buf, 0)
    else
      var done := SjisAll(buf, ps[..|ps| - 1]);
      var last := SjisFrom(done.0, ps[|ps| - 1], 0);
      (last.0, done.1 + last.1)
  }

  /** After the passes over clean patterns none of them occurs anywhere,
      and only `0` digits and zero bytes were written. */
  lemma {:induction false} SjisAllSpec(buf: seq<byte>, ps: seq<seq<byte>>)
    requires forall k :: 0 <= k < |ps| ==> |ps[k]| > 0 && Clean(ps[k])
    ensures forall k, q :: 0 <= k < |ps| ==> !OccursAt(SjisAll(buf, ps).0, ps[k], q)
    ensures ZeroedFrom(buf, SjisAll(buf, ps).0)
  {
    if ps != [] {
      var front := ps[..|ps| - 1];
      var last := ps[|ps| - 1];
      var done := SjisAll(buf, front).0;
      SjisAllSpec(buf, front);
      SjisClears(done, last, 0);
      SjisZeroed(done, last, 0);
      ZeroedFromTrans(buf, done, SjisAll(buf, ps).0);
      forall k, q | 0 <= k < |ps| ensures !OccursAt(SjisAll(buf, ps).0, ps[k], q) {
        if k < |ps| - 1 && OccursAt(SjisAll(buf, ps).0, ps[k], q) {
          assert ps[k] == front[k];
          SjisNoNew(done, last, 0, ps[k], q);
        }
      }
    }
  }

  /** Nothing is left to replace from `pos` on. */
  predicate PassFinished(buf: seq<byte>, pattern: seq<byte>, pos: nat)
    requires |pattern| > 0
  {
    SjisFrom(buf, pattern, pos) == (buf, 0)
  }

  /** The pass from `pos` over `before` makes one replacement and then
      continues as the pass from `found + |pattern|` over `after`. */
  predicate PassAdvanced(before: seq<byte>, after: seq<byte>, pattern: seq<byte>, pos: nat, found: nat)
    requires |pattern| > 0
  {
    && SjisFrom(before, pattern, pos).0 == SjisFrom(after, pattern, found + |pattern|).0
    && SjisFrom(before, pattern, pos).1 == SjisFrom(after, pattern, found + |pattern|).1 + 1
  }

  /** One iteration of the loop over a pattern: `find` from `pos`, and
      the occurrence found, if any, overwritten by `0` and zero bytes; the
      rest of the pass goes on from after it. */
  method ZeroNextOccurrence(data: array<byte>, pattern: seq<byte>, pos: nat) returns (found: int)
    requires |pattern| > 0 && pos < data.Length
    modifies data
    ensures found == -1 ==> data[..] == old(data[..]) && PassFinished(old(data[..]), pattern, pos)
    ensures found != -1 ==> pos <= found && PassAdvanced(old(data[..]), data[..], pattern, pos, found)
  {
    found := FindFrom(data[..], pattern, pos);
    SjisFromFound(data[..], pattern, pos, found);
    if found != -1 {
      SjisWriteIs(data[..], pattern, found);
      WriteSlice(data, found, SjisFill(|pattern|));
    }
  }

  /** The pass from `pos` over `buf`, after `made` replacements, still
      ends in `goal`. */
  predicate PassRemains(buf: seq<byte>, pattern: seq<byte>, pos: nat, made: nat, goal: (seq<byte>, nat))
    requires |pattern| > 0
  {
    SjisFrom(buf, pattern, pos).0 == goal.0 && made + SjisFrom(buf, pattern, pos).1 == goal.1
  }

  /** One replacement keeps `PassRemains`. */
  lemma PassTurn(before: seq<byte>, after: seq<byte>, pattern: seq<byte>, pos: nat, found: nat,
                 made: nat, goal: (seq<byte>, nat))
    requires |pattern| > 0 && PassRemains(before, pattern, pos, made, goal)
    requires PassAdvanced(before, after, pattern, pos, found)
    ensures PassRemains(after, pattern, found + |pattern|, made + 1, goal)
  {
  }

  /** Where the rest of the pass changes nothing, the pass is complete. */
  lemma PassDone(buf: seq<byte>, pattern: seq<byte>, pos: nat, made: nat, goal: (seq<byte>, nat))
    requires |pattern| > 0 && PassRemains(buf, pattern, pos, made, goal)
    requires PassFinished(buf, pattern, pos)
    ensures (buf, made) == goal
  {
  }

  /** At the end of the buffer the pass is finished. */
  lemma PassEnds(buf: seq<byte>, pattern: seq<byte>, pos: nat)
    requires |pattern| > 0 && pos >= |buf|
    ensures PassFinished(buf, pattern, pos)
  {
  }

  /** The loop over one pattern, in place. */
  method ReplacePattern(data: array<byte>, pattern: seq<byte>) returns (replacements: nat)
    requires |pattern| > 0
    modifies data
    ensures (data[..], replacements) == SjisFrom(old(data[..]), pattern, 0)
  {
    replacements := 0;
    var pos: nat := 0;
    ghost var goal := SjisFrom(data[..], pattern, 0);
    while pos < data.Length
      invariant PassRemains(data[..], pattern, pos, replacements, goal)
      decreases data.Length - pos
    {
      ghost var before := data[..];
      var found := ZeroNextOccurrence(data, pattern, pos);
      if found == -1 {
        PassDone(data[..], pattern, pos, replacements, goal);
        return;
      }
      PassTurn(before, data[..], pattern, pos, found, replacements, goal);
      replacements := replacements + 1;
      pos := found + |pattern|;
    }
    PassEnds(data[..], pattern, pos);
    PassDone(data[..], pattern, pos, replacements, goal);
  }

  /** `replace_shift_jis_text` with replacement `'0'`, in place. */
  method ReplaceShiftJisText(data: array<byte>) returns (replacements: nat)
    modifies data
    ensures (data[..], replacements) == SjisAll(old(data[..]), PATTERNS)
  {
    replacements := 0;
    for k := 0 to |PATTERNS|
      invariant (data[..], replacements) == SjisAll(old(data[..]), PATTERNS[..k])
    {
      assert PATTERNS[..k + 1][..k] == PATTERNS[..k];
      var made := ReplacePattern(data, PATTERNS[k]);
      replacements := replacements + made;
    }
    assert PATTERNS[..|PATTERNS|] == PATTERNS;
  }

  // ---------------------------------------------------------------------
  // replace_all_text_with_zero
  // ---------------------------------------------------------------------

  /** The Shift-JIS pass over the fixed pattern list. */
  function ShiftJisPass(buf: seq<byte>): (r: (seq<byte>, nat))
    ensures |r.0| == |buf|
  {
    PatternsClean();
    SjisAll(buf, PATTERNS)
  }

  /** The three passes in order, on one buffer: the image and the sum of
      the three replacement counts. */
  function ZeroAll(data: seq<byte>, meaningful16: seq<byte> -> bool, meaningful8: seq<byte> -> bool): (r: (seq<byte>, nat))
    ensures |r.0| == |data|
  {
    var a := Utf16From(data, 0, meaningful16);
    var b := Utf8From(a.0, 0, meaningful8);
    var c := ShiftJisPass(b.0);
    (c.0, a.1 + b.1 + c.1)
  }

  /** Every byte of the result is the original byte, a `0` digit or a zero
      byte, and none of the Shift-JIS patterns is left anywhere in it. */
  lemma {:induction false} ZeroAllSpec(data: seq<byte>, meaningful16: seq<byte> -> bool, meaningful8: seq<byte> -> bool)
    ensures ZeroedFrom(data, ZeroAll(data, meaningful16, meaningful8).0)
    ensures forall k, q :: 0 <= k < |PATTERNS| ==> !OccursAt(ZeroAll(data, meaningful16, meaningful8).0, PATTERNS[k], q)
  {
    PatternsClean();
    var a := Utf16From(data, 0, meaningful16).0;
    var b := Utf8From(a, 0, meaningful8).0;
    Utf16Zeroed(data, 0, meaningful16);
    Utf8Zeroed(a, 0, meaningful8);
    SjisAllSpec(b, PATTERNS);
    ZeroedFromTrans(data, a, b);
    ZeroedFromTrans(data, b, ZeroAll(data, meaningful16, meaningful8).0);
  }

  /** `ZeroAll` as the three passes applied one after the other. */
  lemma ZeroAllIs(data: seq<byte>, meaningful16: seq<byte> -> bool, meaningful8: seq<byte> -> bool)
    ensures ZeroAll(data, meaningful16, meaningful8).0
      == ShiftJisPass(Utf8From(Utf16From(data, 0, meaningful16).0, 0, meaningful8).0).0
    ensures ZeroAll(data, meaningful16, meaningful8).1
      == Utf16From(data, 0, meaningful16).1 + Utf8From(Utf16From(data, 0, meaningful16).0, 0, meaningful8).1
         + ShiftJisPass(Utf8From(Utf16From(data, 0, meaningful16).0, 0, meaningful8).0).1
  {
  }

  /** `replace_all_text_with_zero`: copy into a `bytearray`, run the three
      passes on it in place, and add up their counts. */
  method ReplaceAllTextWithZero(data: seq<byte>, meaningful16: seq<byte> -> bool, meaningful8: seq<byte> -> bool)
    returns (modifiedData: seq<byte>, replacements: nat)
    ensures modifiedData == ZeroAll(data, meaningful16, meaningful8).0
    ensures replacements == ZeroAll(data, meaningful16, meaningful8).1
  {
    var buf := new byte[|data|](k requires 0 <= k < |data| => data[k]);
    assert buf[..] == data;
    var utf16 := ReplaceUtf16Text(buf, meaningful16);
    var utf8 := ReplaceUtf8Text(buf, meaningful8);
    var sjis := ReplaceShiftJisText(buf);
    ZeroAllIs(data, meaningful16, meaningful8);
    modifiedData := buf[..];
    replacements := utf16 + utf8 + sjis;
  }

  // ---------------------------------------------------------------------
  // process_rtz_file and process_all_rtz_files
  // ---------------------------------------------------------------------

  /** What happens to one `.rtz` file: it is copied unchanged, or rewritten
      with the given bytes after the given number of replacements. */
  datatype FileResult = Copied | Rewritten(bytes: seq<byte>, replacements: nat)

  /** `process_rtz_file` on a file's bytes. A file that does not
      decompress, one in which nothing was replaced, and one whose result
      cannot be compressed are copied. */
  function Process(raw: seq<byte>, gzip: seq<byte> -> seq<byte>, gunzip: seq<byte> -> Option<seq<byte>>,
                   meaningful16: seq<byte> -> bool, meaningful8: seq<byte> -> bool): (r: FileResult)
  {
    match DecompressRtz(raw, gunzip)
    case None => Copied
    case Some(data) =>
      var z := ZeroAll(data, meaningful16, meaningful8);
      if z.1 > 0 && CompressRtz(z.0, gzip).Some? then Rewritten(CompressRtz(z.0, gzip).value, z.1)
      else Copied
  }

  /** The bytes written for a file: the rewritten stream, or the original. */
  function Output(raw: seq<byte>, r: FileResult): seq<byte>
  {
    if r.Rewritten? then r.bytes else raw
  }

  /** A rewritten file is a decompressible RTZ file whose text was zeroed:
      its size field holds the length of the decompressed data, which the
      passes did not change, its stream is the compression of the zeroed
      data, and at least one replacement was made. */
  lemma ProcessSpec(raw: seq<byte>, gzip: seq<byte> -> seq<byte>, gunzip: seq<byte> -> Option<seq<byte>>,
                    meaningful16: seq<byte> -> bool, meaningful8: seq<byte> -> bool)
    ensures DecompressRtz(raw, gunzip).None? ==> Process(raw, gzip, gunzip, meaningful16, meaningful8).Copied?
    ensures Process(raw, gzip, gunzip, meaningful16, meaningful8).Rewritten? ==>
      var data := DecompressRtz(raw, gunzip).value;
      var out := Process(raw, gzip, gunzip, meaningful16, meaningful8).bytes;
      var zeroed := ZeroAll(data, meaningful16, meaningful8).0;
      && DecompressRtz(raw, gunzip).Some?
      && Process(raw, gzip, gunzip, meaningful16, meaningful8).replacements > 0
      && |out| >= 4 && ReadLe32(out, 0) == |data|
      && out[4..] == gzip(zeroed)
      && ZeroedFrom(data, zeroed)
  {
    if DecompressRtz(raw, gunzip).Some? {
      ZeroAllSpec(DecompressRtz(raw, gunzip).value, meaningful16, meaningful8);
    }
  }

  /** What happens to each file of a run, in order. */
  function Results(files: seq<seq<byte>>, gzip: seq<byte> -> seq<byte>, gunzip: seq<byte> -> Option<seq<byte>>,
                   meaningful16: seq<byte> -> bool, meaningful8: seq<byte> -> bool): (rs: seq<FileResult>)
    ensures |rs| == |files|
  {
    seq(|files|, k requires 0 <= k < |files| => Process(files[k], gzip, gunzip, meaningful16, meaningful8))
  }

  /** The number of files rewritten. */
  function Rewrites(rs: seq<FileResult>): (n: nat)
    ensures n <= |rs|
  {
    if rs == [] then 0
    else Rewrites(rs[..|rs| - 1]) + (if rs[|rs| - 1].Rewritten? then 1 else 0)
  }

  /** The replacements counted over the files rewritten. */
  function Replacements(rs: seq<FileResult>): nat
  {
    if rs == [] then 0
    else Replacements(rs[..|rs| - 1]) + (if rs[|rs| - 1].Rewritten? then rs[|rs| - 1].replacements else 0)
  }

  /** Extending a prefix of the results by one adds that result's counts. */
  lemma CountStep(rs: seq<FileResult>, k: nat)
    requires k < |rs|
    ensures Rewrites(rs[..k + 1]) == Rewrites(rs[..k]) + (if rs[k].Rewritten? then 1 else 0)
    ensures Replacements(rs[..k + 1]) == Replacements(rs[..k]) + (if rs[k].Rewritten? then rs[k].replacements else 0)
  {
    assert rs[..k + 1][..k] == rs[..k];
  }

  /** A rewritten file always carries at least one replacement. */
  lemma RewrittenReplaces(files: seq<seq<byte>>, gzip: seq<byte> -> seq<byte>, gunzip: seq<byte> -> Option<seq<byte>>,
                          meaningful16: seq<byte> -> bool, meaningful8: seq<byte> -> bool)
    ensures forall k :: 0 <= k < |files| && Results(files, gzip, gunzip, meaningful16, meaningful8)[k].Rewritten? ==>
      Results(files, gzip, gunzip, meaningful16, meaningful8)[k].replacements > 0
  {
  }

  /** Some file was rewritten exactly when one of the results is a rewrite. */
  lemma {:induction false} RewritesSpec(rs: seq<FileResult>)
    ensures Rewrites(rs) > 0 <==> exists k :: 0 <= k < |rs| && rs[k].Rewritten?
  {
    if rs != [] {
      var front := rs[..|rs| - 1];
      RewritesSpec(front);
      if exists k :: 0 <= k < |front| && front[k].Rewritten? {
        var k :| 0 <= k < |front| && front[k].Rewritten?;
        assert rs[k] == front[k];
      }
      if exists k :: 0 <= k < |rs| && rs[k].Rewritten? {
        var k :| 0 <= k < |rs| && rs[k].Rewritten?;
        if k < |front| {
          assert front[k] == rs[k];
        }
      }
    }
  }

  /** When every rewrite carries a replacement, the total of replacements
      is at least the number of files rewritten. */
  lemma {:induction false} ReplacementsCoverRewrites(rs: seq<FileResult>)
    requires forall k :: 0 <= k < |rs| && rs[k].Rewritten? ==> rs[k].replacements > 0
    ensures Replacements(rs) >= Rewrites(rs)
  {
    if rs != [] {
      var front := rs[..|rs| - 1];
      assert forall k :: 0 <= k < |front| ==> front[k] == rs[k];
      ReplacementsCoverRewrites(front);
    }
  }

  /** After the first `k` files: one output per file and the counts of the
      results so far. */
  predicate AllRemain(files: seq<seq<byte>>, gzip: seq<byte> -> seq<byte>, gunzip: seq<byte> -> Option<seq<byte>>,
                      meaningful16: seq<byte> -> bool, meaningful8: seq<byte> -> bool,
                      k: nat, outputs: seq<seq<byte>>, modified: int, replaced: int)
  {
    var results := Results(files, gzip, gunzip, meaningful16, meaningful8);
    && k <= |files| && |outputs| == k
    && (forall j :: 0 <= j < k ==> outputs[j] == Output(files[j], results[j]))
    && modified == Rewrites(results[..k])
    && replaced == Replacements(results[..k])
  }

  /** Processing file `k` extends `AllRemain` by one file. */
  lemma AllTurn(files: seq<seq<byte>>, gzip: seq<byte> -> seq<byte>, gunzip: seq<byte> -> Option<seq<byte>>,
                meaningful16: seq<byte> -> bool, meaningful8: seq<byte> -> bool,
                k: nat, outputs: seq<seq<byte>>, modified: int, replaced: int,
                written: seq<byte>, modified2: int, replaced2: int)
    requires AllRemain(files, gzip, gunzip, meaningful16, meaningful8, k, outputs, modified, replaced)
    requires k < |files|
    requires var r := Process(files[k], gzip, gunzip, meaningful16, meaningful8);
      && written == Output(files[k], r)
      && modified2 == modified + (if r.Rewritten? then 1 else 0)
      && replaced2 == replaced + (if r.Rewritten? then r.replacements else 0)
    ensures AllRemain(files, gzip, gunzip, meaningful16, meaningful8, k + 1, outputs + [written], modified2, replaced2)
  {
    var results := Results(files, gzip, gunzip, meaningful16, meaningful8);
    CountStep(results, k);
    var outputs2 := outputs + [written];
    forall j | 0 <= j < k + 1 ensures outputs2[j] == Output(files[j], results[j]) {
      if j < k { assert outputs2[j] == outputs[j]; }
    }
  }

  /** The injector and its `stats` counters. */
  class ZeroTextInjector {
    var filesProcessed: nat
    var filesModified: nat
    var textReplacements: nat
    var errors: nat

    constructor()
      ensures filesProcessed == 0 && filesModified == 0 && textReplacements == 0 && errors == 0
    {
      filesProcessed := 0;
      filesModified := 0;
      textReplacements := 0;
      errors := 0;
    }

    /** `process_rtz_file`: returns whether the file was rewritten and the
        bytes written for it; a rewritten file counts as modified and adds
        its replacements to the total. */
    method ProcessRtzFile(raw: seq<byte>, gzip: seq<byte> -> seq<byte>, gunzip: seq<byte> -> Option<seq<byte>>,
                          meaningful16: seq<byte> -> bool, meaningful8: seq<byte> -> bool)
      returns (modified: bool, written: seq<byte>)
      modifies this
      ensures var r := Process(raw, gzip, gunzip, meaningful16, meaningful8);
        && modified == r.Rewritten?
        && written == Output(raw, r)
        && filesModified == old(filesModified) + (if r.Rewritten? then 1 else 0)
        && textReplacements == old(textReplacements) + (if r.Rewritten? then r.replacements else 0)
      ensures filesProcessed == old(filesProcessed) && errors == old(errors)
    {
      var data := DecompressRtz(raw, gunzip);
      if data.None? {
        return false, raw;
      }
      var modifiedData, replacements := ReplaceAllTextWithZero(data.value, meaningful16, meaningful8);
      if replacements > 0 {
        var compressed := CompressRtz(modifiedData, gzip);
        if compressed.Some? {
          filesModified := filesModified + 1;
          textReplacements := textReplacements + replacements;
          return true, compressed.value;
        }
        return false, raw;
      }
      return false, raw;
    }

    /** `process_all_rtz_files` over the `.rtz` files found: with none it
        reports failure and changes nothing; otherwise every file is
        processed and counted, one output per file, and the run succeeds
        exactly when some file was modified. */
    method ProcessAllRtzFiles(files: seq<seq<byte>>, gzip: seq<byte> -> seq<byte>, gunzip: seq<byte> -> Option<seq<byte>>,
                              meaningful16: seq<byte> -> bool, meaningful8: seq<byte> -> bool)
      returns (success: bool, outputs: seq<seq<byte>>)
      modifies this
      ensures |outputs| == |files|
      ensures forall k :: 0 <= k < |files| ==> outputs[k] == Output(files[k], Results(files, gzip, gunzip, meaningful16, meaningful8)[k])
      ensures filesProcessed == old(filesProcessed) + |files| && errors == old(errors)
      ensures filesModified == old(filesModified) + Rewrites(Results(files, gzip, gunzip, meaningful16, meaningful8))
      ensures textReplacements == old(textReplacements) + Replacements(Results(files, gzip, gunzip, meaningful16, meaningful8))
      ensures success <==> files != [] && filesModified > 0
    {
      outputs := [];
      if files == [] {
        return false, outputs;
      }
      for k := 0 to |files|
        invariant AllRemain(files, gzip, gunzip, meaningful16, meaningful8, k, outputs,
                            filesModified - old(filesModified), textReplacements - old(textReplacements))
        invariant filesProcessed == old(filesProcessed) + k && errors == old(errors)
      {
        ghost var modified0, replaced0 := filesModified - old(filesModified), textReplacements - old(textReplacements);
        filesProcessed := filesProcessed + 1;
        var modified, written := ProcessRtzFile(files[k], gzip, gunzip, meaningful16, meaningful8);
        AllTurn(files, gzip, gunzip, meaningful16, meaningful8, k, outputs, modified0, replaced0,
                written, filesModified - old(filesModified), textReplacements - old(textReplacements));
        outputs := outputs + [written];
      }
      ghost var results := Results(files, gzip, gunzip, meaningful16, meaningful8);
      assert results[..|files|] == results;
      success := filesModified > 0;
    }
  }
}
