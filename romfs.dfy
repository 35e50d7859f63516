/** Locating the RomFS image inside a cartridge dump: the NCSD header at
    0x100 holds a table of eight partitions, the first non-empty partition
    holds an NCCH header, and that header gives the RomFS offset and size.
    Offsets and sizes are counted in 0x200-byte media units. */
module Romfs {

  import opened Wrappers
  import opened Bytes

  const MEDIA_UNIT: int := 0x200
  const NCSD_MAGIC_AT: int := 0x100
  const TABLE_AT: int := 0x120
  const TABLE_ENTRIES: int := 8
  /** One past the last byte of the partition table. */
  const TABLE_END: int := TABLE_AT + 8 * TABLE_ENTRIES
  /** Offsets inside a partition: its NCCH magic, then its RomFS fields. */
  const NCCH_MAGIC_AT: int := 0x100
  const ROMFS_FIELDS_AT: int := 0x1C0

  /** `b'NCSD'` and `b'NCCH'`. */
  const NCSD_MAGIC: seq<byte> := [0x4E, 0x43, 0x53, 0x44]
  const NCCH_MAGIC: seq<byte> := [0x4E, 0x43, 0x43, 0x48]

  /** What `f.read(n)` returns at position `at`: up to `n` bytes, fewer at
      the end of the file, none past it. */
  function Window(data: seq<byte>, at: nat, n: nat): (w: seq<byte>)
    ensures |w| <= n
    ensures at + n <= |data| ==> w == data[at..at + n]
  {
    if at >= |data| then [] else if at + n <= |data| then data[at..at + n] else data[at..]
  }

  /** The dump opened for reading, with its cursor. */
  class RomFile {
    const data: seq<byte>
    var pos: nat

    constructor (data: seq<byte>)
      ensures this.data == data && pos == 0
    {
      this.data := data;
      pos := 0;
    }

    /** `f.seek(p)`. */
    method Seek(p: nat)
      modifies this
      ensures pos == p
    {
      pos := p;
    }

    /** `f.read(n)`: the cursor moves past the bytes read. */
    method Read(n: nat) returns (b: seq<byte>)
      modifies this
      ensures b == Window(data, old(pos), n)
      ensures pos == old(pos) + |b|
    {
      b := Window(data, pos, n);
      pos := pos + |b|;
    }
  }

  // ---------------------------------------------------------------------
  // The partition table
  // ---------------------------------------------------------------------

  datatype Partition = Partition(offset: nat, size: nat)

  /** `struct.unpack('<I', data[at:at + 4])[0] * 0x200`: a 32-bit count of
      media units, in bytes; None when fewer than four bytes remain, where
      `struct.unpack` raises. */
  function UnitsAt(rom: seq<byte>, at: nat): (v: Option<nat>)
    ensures v.Some? <==> at + 4 <= |rom|
    ensures v.Some? ==> v.value % MEDIA_UNIT == 0
  {
    if at + 4 <= |rom| then Some(ReadLe32(rom, at) * MEDIA_UNIT) else None
  }

  /** Table entry `i`. */
  function Entry(rom: seq<byte>, i: nat): Partition
    requires i < TABLE_ENTRIES && TABLE_AT + 8 * i + 8 <= |rom|
  {
    Partition(UnitsAt(rom, TABLE_AT + 8 * i).value, UnitsAt(rom, TABLE_AT + 8 * i + 4).value)
  }

  predicate Used(p: Partition)
  {
    p.offset != 0 && p.size != 0
  }

  /** The entries among the first `n` with both fields non-zero, in table
      order. */
  function Kept(rom: seq<byte>, n: nat): seq<Partition>
    requires n <= TABLE_ENTRIES && TABLE_AT + 8 * n <= |rom|
  {
    if n == 0 then []
    else Kept(rom, n - 1) + (if Used(Entry(rom, n - 1)) then [Entry(rom, n - 1)] else [])
  }

  function Partitions(rom: seq<byte>): seq<Partition>
    requires |rom| >= TABLE_END
  {
    Kept(rom, TABLE_ENTRIES)
  }

  /** Every kept entry is a used table entry, every used entry is kept, and
      the first kept one is the first used one. */
  lemma {:induction false} KeptSpec(rom: seq<byte>, n: nat)
    requires n <= TABLE_ENTRIES && TABLE_AT + 8 * n <= |rom|
    ensures |Kept(rom, n)| <= n
    ensures forall p :: p in Kept(rom, n) <==> (exists i :: 0 <= i < n && Used(Entry(rom, i)) && p == Entry(rom, i))
    ensures Kept(rom, n) == [] <==> forall i :: 0 <= i < n ==> !Used(Entry(rom, i))
    ensures Kept(rom, n) != [] ==> exists i :: (0 <= i < n && Kept(rom, n)[0] == Entry(rom, i) && Used(Entry(rom, i))
      && forall j :: 0 <= j < i ==> !Used(Entry(rom, j)))
  {
    if n > 0 {
      KeptSpec(rom, n - 1);
      var e := Entry(rom, n - 1);
      forall p ensures p in Kept(rom, n) <==> (exists i :: 0 <= i < n && Used(Entry(rom, i)) && p == Entry(rom, i)) {
        if p in Kept(rom, n) && !(p in Kept(rom, n - 1)) {
          assert Used(e) && p == e;
        }
      }
      if Kept(rom, n - 1) == [] && Used(e) {
        assert Kept(rom, n)[0] == e;
      }
    }
  }

  /** The game partition is the first used table entry. */
  lemma FirstPartition(rom: seq<byte>, i: nat)
    requires |rom| >= TABLE_END && i < TABLE_ENTRIES
    requires Used(Entry(rom, i)) && forall j :: 0 <= j < i ==> !Used(Entry(rom, j))
    ensures Partitions(rom) != [] && Partitions(rom)[0] == Entry(rom, i)
  {
    KeptSpec(rom, TABLE_ENTRIES);
    var k :| 0 <= k < TABLE_ENTRIES && Partitions(rom)[0] == Entry(rom, k) && Used(Entry(rom, k))
      && forall j :: 0 <= j < k ==> !Used(Entry(rom, j));
    assert !(k < i) && !(i < k);
  }

  // ---------------------------------------------------------------------
  // The whole parse
  // ---------------------------------------------------------------------

  datatype RomfsResult =
    | InvalidNcsd          // magic at 0x100 is not NCSD: exit(1)
    | ShortRead            // struct.unpack on fewer than 4 bytes raises
    | NoPartitions
    | InvalidNcch          // magic in the game partition is not NCCH: exit(1)
    | NoRomfs              // a RomFS field is zero
    | Extracted(romfs: seq<byte>)

  /** The outcome for the game partition at byte `game`. */
  function ParseGame(rom: seq<byte>, game: nat): RomfsResult
  {
    if Window(rom, game + NCCH_MAGIC_AT, 4) != NCCH_MAGIC then InvalidNcch
    else
      var romfsOffset := UnitsAt(rom, game + ROMFS_FIELDS_AT);
      var romfsSize := UnitsAt(rom, game + ROMFS_FIELDS_AT + 4);
      if romfsOffset.None? || romfsSize.None? then ShortRead
      else if romfsOffset.value == 0 || romfsSize.value == 0 then NoRomfs
      else Extracted(Window(rom, game + romfsOffset.value, romfsSize.value))
  }

  /** The outcome of reading the dump `rom`. */
  function ParseRom(rom: seq<byte>): RomfsResult
  {
    if Window(rom, NCSD_MAGIC_AT, 4) != NCSD_MAGIC then InvalidNcsd
    else if |rom| < TABLE_END then ShortRead
    else if Partitions(rom) == [] then NoPartitions
    else ParseGame(rom, Partitions(rom)[0].offset)
  }

  /** An extraction needs the NCSD magic, a complete table, and a used
      entry; the image comes from the first used entry. */
  lemma ParseRomExtracted(rom: seq<byte>)
    requires ParseRom(rom).Extracted?
    ensures |rom| >= TABLE_END && rom[NCSD_MAGIC_AT..NCSD_MAGIC_AT + 4] == NCSD_MAGIC
    ensures exists i :: (0 <= i < TABLE_ENTRIES && Used(Entry(rom, i)) && Partitions(rom) != []
      && ParseRom(rom) == ParseGame(rom, Entry(rom, i).offset)
      && forall j :: 0 <= j < i ==> !Used(Entry(rom, j)))
  {
    KeptSpec(rom, TABLE_ENTRIES);
  }

  /** An image extracted from a partition starts at the partition's offset
      plus the non-zero RomFS offset, and is the RomFS size long or runs to
      the end of the dump; the partition carries the NCCH magic. */
  lemma ParseGameExtracted(rom: seq<byte>, game: nat)
    requires ParseGame(rom, game).Extracted?
    ensures game + ROMFS_FIELDS_AT + 8 <= |rom|
    ensures rom[game + NCCH_MAGIC_AT..game + NCCH_MAGIC_AT + 4] == NCCH_MAGIC
    ensures var start := game + UnitsAt(rom, game + ROMFS_FIELDS_AT).value;
      var size := UnitsAt(rom, game + ROMFS_FIELDS_AT + 4).value;
      var image := ParseGame(rom, game).romfs;
      && start > game && size > 0 && |image| <= size
      && (start + size <= |rom| ==> image == rom[start..start + size])
      && (start < |rom| < start + size ==> image == rom[start..])
      && (|rom| <= start ==> image == [])
  {
  }

  /** A dump laid out as the format describes parses to the RomFS its
      headers point at. */
  lemma WellFormedRomParses(rom: seq<byte>, i: nat, romfsOffset: nat, romfsSize: nat)
    requires |rom| >= TABLE_END && i < TABLE_ENTRIES
    requires rom[NCSD_MAGIC_AT..NCSD_MAGIC_AT + 4] == NCSD_MAGIC
    requires Used(Entry(rom, i)) && forall j :: 0 <= j < i ==> !Used(Entry(rom, j))
    requires Entry(rom, i).offset + ROMFS_FIELDS_AT + 8 <= |rom|
    requires rom[Entry(rom, i).offset + NCCH_MAGIC_AT..Entry(rom, i).offset + NCCH_MAGIC_AT + 4] == NCCH_MAGIC
    requires UnitsAt(rom, Entry(rom, i).offset + ROMFS_FIELDS_AT) == Some(romfsOffset) && romfsOffset > 0
    requires UnitsAt(rom, Entry(rom, i).offset + ROMFS_FIELDS_AT + 4) == Some(romfsSize) && romfsSize > 0
    requires Entry(rom, i).offset + romfsOffset + romfsSize <= |rom|
    ensures ParseRom(rom) == Extracted(rom[Entry(rom, i).offset + romfsOffset..Entry(rom, i).offset + romfsOffset + romfsSize])
  {
    FirstPartition(rom, i);
  }

  // ---------------------------------------------------------------------
  // The script
  // ---------------------------------------------------------------------

  /** `struct.unpack('<I', f.read(4))[0] * 0x200`. */
  method ReadUnits(f: RomFile) returns (v: Option<nat>)
    modifies f
    ensures v == UnitsAt(f.data, old(f.pos))
    ensures f.pos == old(f.pos) + 4 || v.None?
  {
    var b := f.Read(4);
    if |b| == 4 {
      assert forall k :: 0 <= k < 4 ==> b[k] == f.data[old(f.pos) + k];
      v := Some(ReadLe32(b, 0) * MEDIA_UNIT);
    } else {
      v := None;
    }
  }

  /** The `for i in range(8)` loop: the used entries, in table order, and
      whether the whole table could be read. */
  method ReadTable(f: RomFile) returns (partitions: seq<Partition>, complete: bool)
    requires f.pos == TABLE_AT
    modifies f
    ensures complete <==> |f.data| >= TABLE_END
    ensures complete ==> partitions == Partitions(f.data)
  {
    partitions := [];
    for i := 0 to TABLE_ENTRIES
      invariant f.pos == TABLE_AT + 8 * i
      invariant i == 0 ==> partitions == []
      invariant i > 0 ==> TABLE_AT + 8 * i <= |f.data| && partitions == Kept(f.data, i)
    {
      var offset := ReadUnits(f);
      if offset.None? {
        return partitions, false;
      }
      var size := ReadUnits(f);
      if size.None? {
        return partitions, false;
      }
      assert Partition(offset.value, size.value) == Entry(f.data, i);
      if offset.value != 0 && size.value != 0 {
        partitions := partitions + [Partition(offset.value, size.value)];
      }
    }
    complete := true;
  }

  /** The NCCH check and the RomFS range of the game partition. */
  method ReadGame(f: RomFile, game: nat) returns (r: RomfsResult)
    modifies f
    ensures r == ParseGame(f.data, game)
  {
    f.Seek(game + NCCH_MAGIC_AT);
    var ncch := f.Read(4);
    if ncch != NCCH_MAGIC {
      return InvalidNcch;
    }
    f.Seek(game + ROMFS_FIELDS_AT);
    var romfsOffset := ReadUnits(f);
    if romfsOffset.None? {
      return ShortRead;
    }
    var romfsSize := ReadUnits(f);
    if romfsSize.None? {
      return ShortRead;
    }
    if romfsOffset.value != 0 && romfsSize.value != 0 {
      f.Seek(game + romfsOffset.value);
      var romfs := f.Read(romfsSize.value);
      return Extracted(romfs);
    }
    return NoRomfs;
  }

  /** The script body: the NCSD magic, the partition table, then the first
      used partition. The partition list is the table's used entries
      whenever the whole table was read. */
  method ExtractRomfs(f: RomFile) returns (r: RomfsResult, partitions: seq<Partition>)
    modifies f
    ensures r == ParseRom(f.data)
    ensures r != InvalidNcsd && r != ShortRead ==> |f.data| >= TABLE_END && partitions == Partitions(f.data)
  {
    f.Seek(NCSD_MAGIC_AT);
    var magic := f.Read(4);
    if magic != NCSD_MAGIC {
      return InvalidNcsd, [];
    }
    f.Seek(TABLE_AT);
    var complete;
    partitions, complete := ReadTable(f);
    if !complete {
      return ShortRead, partitions;
    }
    if partitions == [] {
      return NoPartitions, partitions;
    }
    r := ReadGame(f, partitions[0].offset);
  }
}
