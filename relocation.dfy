/** The append-and-repoint relocation shared by scripts/inject_from_file.py,
    inject_character_selection_fixed.py and inject_character_selection_small.py:
    each translated row becomes a block (its UTF-16LE text followed by its
    separator bytes) appended at the end of the image, and every pointer
    slot the row names is rewritten to the block's virtual address
    BASE_ADDR + (length of the image before the append). */
module Relocation {

  import opened Wrappers
  import opened Bytes
  import opened Text
  import Utf16
  import ExtractFromPointer

  const BASE_ADDR: int := 0x100000

  /** A translated row: its `pointer_offsets`, `separators` and `extract` cells. */
  datatype Entry = Entry(pointerOffsets: string, separators: string, extract: string)

  // ---------------------------------------------------------------------
  // Hexadecimal cells
  // ---------------------------------------------------------------------

  /** `int(p, 16)` for each cell of a list; `None` stands for the ValueError. */
  function HexValues(parts: seq<string>): (vs: seq<Option<int>>)
    ensures |vs| == |parts|
  {
    seq(|parts|, k requires 0 <= k < |parts| => ParseInt(parts[k], 16))
  }

  predicate IsByteValue(v: Option<int>)
  {
    v.Some? && 0 <= v.value < 256
  }

  /** `bytes(values)`: the ValueError of a missing or out-of-range value is `None`. */
  function BytesOf(vs: seq<Option<int>>): (r: Option<seq<byte>>)
    ensures r.Some? <==> forall k :: 0 <= k < |vs| ==> IsByteValue(vs[k])
    ensures r.Some? ==> |r.value| == |vs| && forall k :: 0 <= k < |vs| ==> vs[k] == Some(r.value[k] as int)
  {
    if vs == [] then Some([])
    else
      var rest := BytesOf(vs[1..]);
      assert forall k :: 1 <= k < |vs| ==> vs[k] == vs[1..][k - 1];
      if IsByteValue(vs[0]) && rest.Some? then
        var b: byte := vs[0].value;
        Some([b] + rest.value)
      else None
  }

  /** `parse_separators`: `(aucun)` after stripping is no bytes, otherwise
      every whitespace-separated token is one hexadecimal byte. */
  function ParseSeparators(field: string): (r: Option<seq<byte>>)
    ensures Strip(field) == "(aucun)" ==> r == Some([])
  {
    if Strip(field) == "(aucun)" then Some([]) else BytesOf(HexValues(SplitWhitespace(field)))
  }

  /** The bytes of a list of cells: one per cell, each the cell's
      hexadecimal value, and none at all when some cell is not a
      hexadecimal byte. */
  lemma HexBytes(ws: seq<string>)
    ensures BytesOf(HexValues(ws)).Some? <==> forall k :: 0 <= k < |ws| ==> IsByteValue(ParseInt(ws[k], 16))
    ensures BytesOf(HexValues(ws)).Some? ==>
      |BytesOf(HexValues(ws)).value| == |ws| &&
      forall k :: 0 <= k < |ws| ==> ParseInt(ws[k], 16) == Some(BytesOf(HexValues(ws)).value[k] as int)
  {
    var vs := HexValues(ws);
    assert forall k :: 0 <= k < |ws| ==> vs[k] == ParseInt(ws[k], 16);
  }

  /** The last character of a join is the last character of the last part. */
  lemma {:induction false} LastCellTrails(cells: seq<string>, sep: string)
    requires |cells| >= 1 && |cells[|cells| - 1]| >= 1
    ensures |Join(cells, sep)| >= 1
    ensures Join(cells, sep)[|Join(cells, sep)| - 1] == cells[|cells| - 1][|cells[|cells| - 1]| - 1]
    decreases |cells|
  {
    if |cells| > 1 {
      LastCellTrails(cells[1..], sep);
    }
  }

  /** The hexadecimal cells of a separator run are words that parse back
      to their bytes. */
  lemma HexCellsParse(sep: seq<byte>)
    ensures forall k :: 0 <= k < |sep| ==> IsWord(ExtractFromPointer.HexCells(sep)[k])
    ensures forall k :: 0 <= k < |sep| ==> HexValues(ExtractFromPointer.HexCells(sep))[k] == Some(sep[k] as int)
  {
    var cells := ExtractFromPointer.HexCells(sep);
    forall k | 0 <= k < |sep| ensures IsWord(cells[k]) && HexValues(cells)[k] == Some(sep[k] as int) {
      PaddedDigits(sep[k], 2, 16);
      ParseFormatHex(sep[k], 2);
    }
  }

  /** The joined cells neither start nor end with whitespace. */
  lemma HexJoinTrimmed(sep: seq<byte>)
    requires sep != []
    ensures Strip(Join(ExtractFromPointer.HexCells(sep), " ")) == Join(ExtractFromPointer.HexCells(sep), " ")
    ensures Join(ExtractFromPointer.HexCells(sep), " ")[0] != '('
  {
    var cells := ExtractFromPointer.HexCells(sep);
    PaddedDigits(sep[0], 2, 16);
    PaddedDigits(sep[|sep| - 1], 2, 16);
    ExtractFromPointer.FirstCellLeads(cells, " ");
    LastCellTrails(cells, " ");
    StripTrimmed(Join(cells, " "));
  }

  /** Reading back the separators cell that extraction wrote gives the
      separator bytes back. */
  lemma ParseFormatSeparators(sep: seq<byte>)
    ensures ParseSeparators(ExtractFromPointer.FormatSeparators(sep)) == Some(sep)
  {
    if sep != [] {
      var cells := ExtractFromPointer.HexCells(sep);
      var j := Join(cells, " ");
      assert j == ExtractFromPointer.FormatSeparators(sep);
      HexJoinTrimmed(sep);
      assert Strip(j) != "(aucun)" by {
        assert Strip(j)[0] != "(aucun)"[0];
      }
      HexCellsParse(sep);
      SplitWhitespaceJoin(cells);
      HexCellsBytes(sep);
    }
  }

  lemma HexCellsBytes(sep: seq<byte>)
    ensures BytesOf(HexValues(ExtractFromPointer.HexCells(sep))) == Some(sep)
  {
    HexCellsParse(sep);
    BytesOfValues(HexValues(ExtractFromPointer.HexCells(sep)), sep);
  }

  /** Values that are all bytes give exactly those bytes. */
  lemma BytesOfValues(vs: seq<Option<int>>, bs: seq<byte>)
    requires |vs| == |bs|
    requires forall k :: 0 <= k < |vs| ==> vs[k] == Some(bs[k] as int)
    ensures BytesOf(vs) == Some(bs)
  {
    assert forall k :: 0 <= k < |vs| ==> IsByteValue(vs[k]);
    var r := BytesOf(vs).value;
    assert |r| == |bs|;
    assert forall k :: 0 <= k < |bs| ==> r[k] == bs[k];
    assert r == bs;
  }

  // ---------------------------------------------------------------------
  // The appended block
  // ---------------------------------------------------------------------

  /** The block for a row: UTF-16LE of the text with `†` turned back into
      line breaks, then the separator bytes. */
  function Block(e: Entry): (r: Option<seq<byte>>)
    ensures r.Some? <==> ParseSeparators(e.separators).Some?
  {
    match ParseSeparators(e.separators)
    case None => None
    case Some(sep) => Some(Utf16.Encode(UnescapeNewlines(e.extract)) + sep)
  }

  /** Re-injecting a row exactly as extraction wrote it appends the
      extracted text, encoded again, followed by the separator run that
      ended its extent; decoding that text gives the extract back. */
  lemma BlockOfRecord(pointerOffsets: string, text: string, sep: seq<byte>)
    requires NEWLINE_MARK !in text
    ensures Block(Entry(pointerOffsets, ExtractFromPointer.FormatSeparators(sep), EscapeNewlines(text)))
      == Some(Utf16.Encode(text) + sep)
    ensures Utf16.Decode(Utf16.Encode(text)) == text
  {
    ParseFormatSeparators(sep);
    UnescapeEscape(text);
    Utf16.DecodeEncode(text);
  }

  // ---------------------------------------------------------------------
  // Rewriting the pointer slots of one row
  // ---------------------------------------------------------------------

  /** Four bytes at `off` lie inside the image. */
  predicate ValidSlot(data: seq<byte>, off: int)
  {
    0 <= off && off + 4 <= |data|
  }

  /** The image after some pointer writes, and how many slots were written. */
  datatype Patched = Patched(data: seq<byte>, count: nat)

  /** One address of the `pointer_offsets` list, already parsed (`None` is
      the ValueError of `int`): converted to a file offset, skipped when the
      slot is not in the image, otherwise written little-endian
      (`to_bytes(4, 'little')` raises OverflowError, `None`, for an address
      of 2^32 or more). */
  function RepointOne(p: Patched, a: Option<int>, addr: int): (r: Option<Patched>)
    ensures r.Some? ==> |r.value.data| == |p.data|
  {
    match a
    case None => None
    case Some(v) =>
      var off := v - BASE_ADDR;
      if !ValidSlot(p.data, off) then Some(p)
      else if !IsU32(addr) then None
      else Some(Patched(WriteLe32(p.data, off, addr), p.count + 1))
  }

  /** The pointer loop of a row over its parsed addresses, in order. */
  function Repoint(data: seq<byte>, addrs: seq<Option<int>>, addr: int): (r: Option<Patched>)
    ensures r.Some? ==> |r.value.data| == |data| && r.value.count <= |addrs|
  {
    if addrs == [] then Some(Patched(data, 0))
    else
      match Repoint(data, addrs[..|addrs| - 1], addr)
      case None => None
      case Some(p) => RepointOne(p, addrs[|addrs| - 1], addr)
  }

  /** The parsed address names an in-image slot. */
  predicate HitsSlot(data: seq<byte>, a: Option<int>)
  {
    a.Some? && ValidSlot(data, a.value - BASE_ADDR)
  }

  /** The number of addresses that name an in-image slot. */
  function SlotCount(data: seq<byte>, addrs: seq<Option<int>>): nat
  {
    if addrs == [] then 0
    else SlotCount(data, addrs[..|addrs| - 1]) + (if HitsSlot(data, addrs[|addrs| - 1]) then 1 else 0)
  }

  predicate AllParse(addrs: seq<Option<int>>)
  {
    forall k :: 0 <= k < |addrs| ==> addrs[k].Some?
  }

  /** The parsed address `a` names a slot holding byte `j`. */
  predicate SlotHolds(a: Option<int>, j: int)
  {
    a.Some? && a.value - BASE_ADDR <= j < a.value - BASE_ADDR + 4
  }

  /** The byte at `j` lies in the slot of some address. */
  predicate Covered(addrs: seq<Option<int>>, j: int)
  {
    exists k :: 0 <= k < |addrs| && SlotHolds(addrs[k], j)
  }

  /** A row's pointer loop completes exactly when every address parses and,
      if any slot is to be written, the new address fits in 32 bits. */
  lemma {:induction false} RepointSucceeds(data: seq<byte>, addrs: seq<Option<int>>, addr: int)
    ensures Repoint(data, addrs, addr).Some? <==> AllParse(addrs) && (SlotCount(data, addrs) == 0 || IsU32(addr))
  {
    if addrs != [] {
      var front := addrs[..|addrs| - 1];
      RepointSucceeds(data, front, addr);
      assert forall k :: 0 <= k < |front| ==> front[k] == addrs[k];
      if AllParse(front) && addrs[|addrs| - 1].Some? {
        assert AllParse(addrs);
      }
    }
  }

  /** The count of written slots is the number of addresses naming an
      in-image slot (`pointer_count`). */
  lemma {:induction false} RepointCount(data: seq<byte>, addrs: seq<Option<int>>, addr: int)
    requires Repoint(data, addrs, addr).Some?
    ensures Repoint(data, addrs, addr).value.count == SlotCount(data, addrs)
  {
    if addrs != [] {
      RepointCount(data, addrs[..|addrs| - 1], addr);
    }
  }

  /** Only bytes inside named slots can change. */
  lemma {:induction false} RepointFrame(data: seq<byte>, addrs: seq<Option<int>>, addr: int, j: int)
    requires Repoint(data, addrs, addr).Some?
    requires 0 <= j < |data| && !Covered(addrs, j)
    ensures Repoint(data, addrs, addr).value.data[j] == data[j]
  {
    if addrs != [] {
      var front := addrs[..|addrs| - 1];
      forall k | 0 <= k < |front| ensures !SlotHolds(front[k], j) {
        assert front[k] == addrs[k];
      }
      RepointFrame(data, front, addr, j);
      assert !SlotHolds(addrs[|addrs| - 1], j);
    }
  }

  /** A parsed address naming a slot other than `off` that shares a byte with it. */
  predicate Clobbers(a: Option<int>, off: int)
  {
    a.Some? && a.value - BASE_ADDR != off && off - 4 < a.value - BASE_ADDR < off + 4
  }

  /** A slot written by the loop holds the new address, unless a later
      address of the same row named an overlapping slot. */
  lemma {:induction false} RepointWritten(data: seq<byte>, addrs: seq<Option<int>>, addr: int, k: nat, off: int)
    requires Repoint(data, addrs, addr).Some?
    requires k < |addrs| && addrs[k] == Some(off + BASE_ADDR) && ValidSlot(data, off)
    requires forall m :: k < m < |addrs| ==> !Clobbers(addrs[m], off)
    ensures IsU32(addr)
    ensures Repoint(data, addrs, addr).value.data[off..off + 4] == Le32(addr)
  {
    var front := addrs[..|addrs| - 1];
    var prev := Repoint(data, front, addr).value;
    var last := addrs[|addrs| - 1];
    if k < |addrs| - 1 {
      assert front[k] == addrs[k];
      forall m | k < m < |front| ensures !Clobbers(front[m], off) {
        assert front[m] == addrs[m];
      }
      RepointWritten(data, front, addr, k, off);
      var o := last.value - BASE_ADDR;
      if ValidSlot(prev.data, o) && o != off {
        assert !Clobbers(addrs[|addrs| - 1], off);
        var w := WriteLe32(prev.data, o, addr);
        assert w[off..off + 4] == prev.data[off..off + 4];
      }
    }
  }

  /** Naming the same slot twice in a row writes the same bytes as naming
      it once. */
  lemma RepointRepeat(data: seq<byte>, addrs: seq<Option<int>>, addr: int)
    requires |addrs| >= 1 && Repoint(data, addrs, addr).Some?
    ensures Repoint(data, addrs + [addrs[|addrs| - 1]], addr).Some?
    ensures Repoint(data, addrs + [addrs[|addrs| - 1]], addr).value.data == Repoint(data, addrs, addr).value.data
  {
    var last := addrs[|addrs| - 1];
    var prev := Repoint(data, addrs[..|addrs| - 1], addr).value;
    assert (addrs + [last])[..|addrs|] == addrs;
    var o := last.value - BASE_ADDR;
    if ValidSlot(prev.data, o) {
      WriteLe32Idempotent(prev.data, o, addr);
    }
  }

  /** Once a row's pointer loop has failed, it stays failed. */
  lemma {:induction false} RepointFailureSticks(data: seq<byte>, addrs: seq<Option<int>>, addr: int, k: nat)
    requires k <= |addrs| && Repoint(data, addrs[..k], addr).None?
    ensures Repoint(data, addrs, addr).None?
    decreases |addrs| - k
  {
    if k < |addrs| {
      assert addrs[..k + 1][..k] == addrs[..k];
      RepointFailureSticks(data, addrs, addr, k + 1);
    } else {
      assert addrs[..k] == addrs;
    }
  }

  /** The inner loop `for off_s in ...split(','): int(off_s, 16) ...` over an
      image, with the count of written slots. */
  method RepointRow(data: seq<byte>, parts: seq<string>, addr: int) returns (r: Option<Patched>)
    ensures r == Repoint(data, HexValues(parts), addr)
  {
    ghost var addrs := HexValues(parts);
    var cur := Patched(data, 0);
    for k := 0 to |parts|
      invariant Repoint(data, addrs[..k], addr) == Some(cur)
    {
      assert addrs[..k + 1][..k] == addrs[..k];
      var addrVirt := ParseCell(parts, k);
      var next := RepointAt(cur, addrVirt, addr);
      if next.None? {
        RepointFailureSticks(data, addrs, addr, k + 1);
        return None;
      }
      cur := next.value;
    }
    assert addrs[..|parts|] == addrs;
    r := Some(cur);
  }

  /** `int(parts[k], 16)`. */
  method ParseCell(parts: seq<string>, k: nat) returns (a: Option<int>)
    requires k < |parts|
    ensures a == HexValues(parts)[k]
  {
    a := ParseInt(parts[k], 16);
  }

  /** One iteration of the inner loop after parsing: skip an out-of-image
      slot, otherwise write the address and count the slot. */
  method RepointAt(p: Patched, addrVirt: Option<int>, addr: int) returns (r: Option<Patched>)
    ensures r == RepointOne(p, addrVirt, addr)
  {
    if addrVirt.None? {
      return None;
    }
    var off := addrVirt.value - BASE_ADDR;
    if off < 0 || off + 4 > |p.data| {
      return Some(p);
    }
    if !IsU32(addr) {
      return None;
    }
    r := Some(Patched(WriteLe32(p.data, off, addr), p.count + 1));
  }

  // ---------------------------------------------------------------------
  // One row, and all rows
  // ---------------------------------------------------------------------

  /** The row's `pointer_offsets` cell split on commas, each parsed as hexadecimal. */
  function Addresses(e: Entry): (addrs: seq<Option<int>>)
    ensures |addrs| >= 1
  {
    HexValues(SplitOn(e.pointerOffsets, ','))
  }

  /** What a row contributes once its cells are parsed: the addresses of its
      slots and its block (`None` when the separators cell does not parse). */
  datatype Plan = Plan(addrs: seq<Option<int>>, block: Option<seq<byte>>)

  function PlanOf(e: Entry): (pl: Plan)
    ensures pl.addrs == Addresses(e) && pl.block == Block(e)
  {
    Plan(Addresses(e), Block(e))
  }

  /** One iteration of the main loop on an image whose length is the
      cursor: the slots are rewritten to BASE_ADDR + cursor and the block
      is appended. The count is the number of slots written. */
  function Place(data: seq<byte>, pl: Plan): (r: Option<Patched>)
    ensures r.Some? ==> |r.value.data| >= |data|
  {
    match pl.block
    case None => None
    case Some(block) =>
      match Repoint(data, pl.addrs, BASE_ADDR + |data|)
      case None => None
      case Some(p) => Some(Patched(p.data + block, p.count))
  }

  /** The image after a row: the pointer-loop image with the block appended
      at the old end, which becomes BASE_ADDR + the old length; the count is
      the number of addresses naming an in-image slot. A row fails exactly
      when its separators or one of its addresses do not parse, or a slot is
      to be written with an address of 2^32 or more. */
  lemma PlaceSpec(data: seq<byte>, pl: Plan)
    ensures Place(data, pl).Some? <==>
      pl.block.Some? && AllParse(pl.addrs) && (SlotCount(data, pl.addrs) == 0 || IsU32(BASE_ADDR + |data|))
    ensures Place(data, pl).Some? ==>
      && Place(data, pl).value.data[..|data|] == Repoint(data, pl.addrs, BASE_ADDR + |data|).value.data
      && Place(data, pl).value.data[|data|..] == pl.block.value
      && |Place(data, pl).value.data| == |data| + |pl.block.value|
      && Place(data, pl).value.count == SlotCount(data, pl.addrs)
  {
    RepointSucceeds(data, pl.addrs, BASE_ADDR + |data|);
    if Place(data, pl).Some? {
      RepointCount(data, pl.addrs, BASE_ADDR + |data|);
    }
  }

  /** A row leaves every byte outside the slots it names as it was. */
  lemma PlaceFrame(data: seq<byte>, pl: Plan, j: int)
    requires Place(data, pl).Some?
    requires 0 <= j < |data| && !Covered(pl.addrs, j)
    ensures Place(data, pl).value.data[j] == data[j]
  {
    RepointFrame(data, pl.addrs, BASE_ADDR + |data|, j);
  }

  /** The image and the per-row counts after a run of rows. */
  datatype Injected = Injected(data: seq<byte>, counts: seq<nat>)

  /** One more row after a run of rows. */
  function Extend(acc: Option<Injected>, pl: Plan): (r: Option<Injected>)
  {
    match acc
    case None => None
    case Some(a) =>
      match Place(a.data, pl)
      case None => None
      case Some(p) => Some(Injected(p.data, a.counts + [p.count]))
  }

  /** The main loop over the parsed rows; `None` when any row makes the
      script stop with an exception. */
  function PlaceAll(data: seq<byte>, plans: seq<Plan>): (r: Option<Injected>)
    ensures r.Some? ==> |r.value.data| >= |data| && |r.value.counts| == |plans|
  {
    if plans == [] then Some(Injected(data, []))
    else Extend(PlaceAll(data, plans[..|plans| - 1]), plans[|plans| - 1])
  }

  /** The rows of the CSV file, parsed. */
  function Plans(rows: seq<Entry>): (plans: seq<Plan>)
    ensures |plans| == |rows|
  {
    if rows == [] then [] else Plans(rows[..|rows| - 1]) + [PlanOf(rows[|rows| - 1])]
  }

  /** The main loop over the rows of the CSV file. */
  function InjectAll(data: seq<byte>, rows: seq<Entry>): Option<Injected>
  {
    PlaceAll(data, Plans(rows))
  }

  /** Parsing one more row extends the parsed rows by its plan. */
  lemma PlansStep(rows: seq<Entry>, i: nat)
    requires i < |rows|
    ensures Plans(rows[..i + 1]) == Plans(rows[..i]) + [PlanOf(rows[i])]
  {
    assert rows[..i + 1][..i] == rows[..i];
  }

  /** The main loop after row `i` is the loop before it, extended by row `i`. */
  lemma InjectAllStep(data: seq<byte>, rows: seq<Entry>, i: nat)
    requires i < |rows|
    ensures InjectAll(data, rows[..i + 1]) == Extend(InjectAll(data, rows[..i]), PlanOf(rows[i]))
  {
    PlansStep(rows, i);
    var plans := Plans(rows[..i]);
    var ext := plans + [PlanOf(rows[i])];
    assert ext[..|ext| - 1] == plans;
  }

  /** Once the main loop has failed, it stays failed: the script stops at the
      first exception and writes nothing. */
  lemma {:induction false} InjectFailureSticks(data: seq<byte>, rows: seq<Entry>, k: nat, n: nat)
    requires k <= n <= |rows| && InjectAll(data, rows[..k]).None?
    ensures InjectAll(data, rows[..n]).None?
    decreases n - k
  {
    if k < n {
      InjectAllStep(data, rows, k);
      InjectFailureSticks(data, rows, k + 1, n);
    }
  }

  /** The total length of the blocks. */
  function BlocksLength(plans: seq<Plan>): nat
  {
    if plans == [] then 0
    else BlocksLength(plans[..|plans| - 1]) + (match plans[|plans| - 1].block case Some(b) => |b| case None => 0)
  }

  /** The byte at `j` lies in a slot named by some row. */
  predicate CoveredByPlans(plans: seq<Plan>, j: int)
  {
    exists i :: 0 <= i < |plans| && Covered(plans[i].addrs, j)
  }

  /** After all rows: every row's block parsed and the image grew by exactly
      the blocks' total length. */
  lemma {:induction false} PlaceAllLength(data: seq<byte>, plans: seq<Plan>)
    requires PlaceAll(data, plans).Some?
    ensures forall i :: 0 <= i < |plans| ==> plans[i].block.Some?
    ensures |PlaceAll(data, plans).value.data| == |data| + BlocksLength(plans)
  {
    if plans != [] {
      var front := plans[..|plans| - 1];
      PlaceAllLength(data, front);
      PlaceSpec(PlaceAll(data, front).value.data, plans[|plans| - 1]);
      assert forall i :: 0 <= i < |front| ==> plans[i] == front[i];
    }
  }

  /** Every original byte outside the slots named by the rows is unchanged. */
  lemma {:induction false} PlaceAllFrame(data: seq<byte>, plans: seq<Plan>, j: int)
    requires PlaceAll(data, plans).Some?
    requires 0 <= j < |data| && !CoveredByPlans(plans, j)
    ensures PlaceAll(data, plans).value.data[j] == data[j]
  {
    if plans != [] {
      var front := plans[..|plans| - 1];
      assert !CoveredByPlans(front, j) by {
        forall i | 0 <= i < |front| ensures !Covered(front[i].addrs, j) {
          assert plans[i] == front[i];
        }
      }
      PlaceAllFrame(data, front, j);
      var acc := PlaceAll(data, front).value;
      assert !Covered(plans[|plans| - 1].addrs, j);
      PlaceFrame(acc.data, plans[|plans| - 1], j);
    }
  }

  /** The block as the scripts build it: `txt = extract.replace('†', '\n')`,
      `txt.encode('utf-16le') + parse_separators(separators)`. */
  method MakeBlock(e: Entry) returns (block: Option<seq<byte>>)
    ensures block == Block(e)
  {
    var txt := UnescapeNewlines(e.extract);
    var utf16Bytes := Utf16.Encode(txt);
    var sepBytes := ParseSeparators(e.separators);
    if sepBytes.None? {
      return None;
    }
    block := Some(utf16Bytes + sepBytes.value);
  }

  /** One iteration of the main loop as the scripts write it, with the
      cursor kept equal to the image length: the block, the new address
      BASE_ADDR + cursor, the pointer loop, then the append. */
  method InjectOne(data: seq<byte>, cursor: int, e: Entry) returns (r: Option<Patched>, size: nat)
    requires cursor == |data|
    ensures r == Place(data, PlanOf(e))
    ensures r.Some? ==> |r.value.data| == |data| + size
  {
    var block := MakeBlock(e);
    if block.None? {
      return None, 0;
    }
    var newFileOff := cursor;
    var newAddr := BASE_ADDR + newFileOff;
    var patched := RepointRow(data, SplitOn(e.pointerOffsets, ','), newAddr);
    if patched.None? {
      return None, 0;
    }
    r := Some(Patched(patched.value.data + block.value, patched.value.count));
    size := |block.value|;
  }

  /** The main loop of inject_character_selection_fixed.py and
      inject_character_selection_small.py: every row in order, the cursor
      kept equal to the image length; the counts are the per-row
      `pointer_count`s. */
  method InjectRows(data: seq<byte>, rows: seq<Entry>) returns (r: Option<Injected>)
    ensures r == InjectAll(data, rows)
  {
    var cur := data;
    var cursor := |data|;
    var counts: seq<nat> := [];
    for idx := 0 to |rows|
      invariant cursor == |cur|
      invariant InjectAll(data, rows[..idx]) == Some(Injected(cur, counts))
    {
      var p, size := InjectOne(cur, cursor, rows[idx]);
      InjectAllStep(data, rows, idx);
      if p.None? {
        InjectFailureSticks(data, rows, idx + 1, |rows|);
        assert rows[..|rows|] == rows;
        return None;
      }
      cur := p.value.data;
      cursor := cursor + size;
      counts := counts + [p.value.count];
    }
    assert rows[..|rows|] == rows;
    r := Some(Injected(cur, counts));
  }
}
