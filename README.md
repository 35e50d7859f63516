# Binary string-table patching, modelled in Dafny

The system translates a game by replacing the UTF-16LE text inside its
executable image (`code.bin`, virtual base `0x100000`) and inside its
`.rtz` script assets. Every string in the image is reached through 4-byte
little-endian pointers. The patching is done by a set of small sequential
scripts over byte buffers. This project models those scripts and proves
what each one guarantees about the bytes it produces.

The scripts fall into six groups, each modelled by its own module or
modules:

- **Pointer table and extents.**
  - `PointerScan` models `scripts/IDA_export_pointers.py`. It scans every
    segment in 4-byte steps for dwords pointing into the text region,
    sorts the hits by target, and sizes each target by the distance to
    the next distinct one.
  - `ExtractFromPointer` models `scripts/extract_from_pointer.py`. It
    groups pointers by target, keeps targets preceded by a `00 00`/`FF FF`
    separator unit, slices the contiguous extents, splits off the
    trailing separator run, and writes one CSV row per string.
- **In-place, length-preserving replacement.**
  - `CodeBinPatch`: `scripts/code_bin_trad_no_extend.py`.
  - `SafeReplacement`: `safe_replacement_test.py`.
  - `RtzSegments`: `scripts/extract_rtz_content.py`, for 5-byte-prefixed
    segments.
  - `ZeroText`: `scripts/zero_text_injector.py`, which overwrites all
    recognisable text with the digit `0`.
- **Append-and-repoint relocation.** Each translated string is appended
  at the end of the image, and every pointer that owns it is rewritten to
  `0x100000 + old length`.
  - `Relocation` covers `inject_character_selection_fixed.py` and
    `inject_character_selection_small.py`.
  - `InjectFromFile`: `scripts/inject_from_file.py`.
  - `InjectSelectionComplete`: `inject_character_selection_complete.py`.
  - `TutorialInjection`: `tutorial_injection_script.py`, which only
    appends.
- **Search-and-replace in decompressed `.rtz` buffers.**
  - `RtzInjection`: `scripts/rtz_injection_fixed.py`.
  - `PrecisionInjector`: `scripts/precision_rtz_injector.py`.
- **Size bookkeeping.**
  - `ExHeader`: `scripts/patch_exheader.py` and `patch_exheader_fixed.py`,
    which put page-rounded code and data sizes into the extended header.
  - `PadData`: `scripts/pad_data.py`, which inserts a zero run after the
    data section.
- **Container headers.** `Romfs` models `extract_romfs.py`, which locates
  the RomFS image through the NCSD partition table and the NCCH header.

Shared modules:

- `Bytes`: byte buffers with Python's slicing, `find`, `count` and
  `replace` rules, and 32-bit little-endian fields.
- `Utf16`: the UTF-16LE codec of section 2.1 of RFC 2781.
- `Text`: strip, split, `int(s, base)`, hexadecimal and decimal
  formatting, and the `†` newline escape.
- `Ordering`: `sorted` on integers.
- `Wrappers`: `Option`.

How the Python code is modelled:

- Some code that mutates a `bytearray` without changing its length works
  on a Dafny `array<byte>`: `RtzSegments.WriteSegment` and
  `RtzSegments.PatchFile`, the passes of `ZeroText` (`ReplaceUtf16Text`,
  `ReplaceUtf8Text`, `ReplacePattern`, `ReplaceShiftJisText`) and
  `ExHeader.PatchExheaderFixed` (through `Bytes.WriteSlice`). Each such
  method is proved equal to a specification function on `seq<byte>`.
- `SafeReplacement.RunScript` and `CodeBinPatch.PatchBinary` also write
  into the image without changing its length, but they reassign a
  `seq<byte>` instead.
- Buffers that grow are `seq<byte>` values reassigned in the loop, as in
  the scripts.
- Injector objects with counters (`ZeroTextInjector`, `FixedRTZInjector`,
  `PrecisionRTZInjector`) and the ROM file cursor of `extract_romfs.py`
  are classes whose methods update their fields.
- An uncaught exception (`int()` on a malformed cell, `to_bytes` or
  `struct.pack` overflow) becomes a `None` or error result, with no
  output written.

## Model

| member | source | states |
|---|---|---|
| PointerScan.Scan | scripts/IDA_export_pointers.py:13-24 | the collected list is exactly the segments' in-range hits, segment by segment, in address order |
| PointerScan.ScanSegment | scripts/IDA_export_pointers.py:19-24 | one segment's loop appends that segment's hits to what was collected |
| PointerScan.ScanHitsExact | scripts/IDA_export_pointers.py:20-23 | a (location, target) pair is collected exactly when the location is a 4-byte step of some segment and its dword lies in [START, END) and is the target |
| PointerScan.InsertSorted | scripts/IDA_export_pointers.py:30 | inserting one hit adds exactly that hit and keeps a target-sorted list sorted |
| PointerScan.SortByTargetSorted | scripts/IDA_export_pointers.py:30 | the sort by target is ordered by target and is a permutation of the hits |
| PointerScan.SortByTargetStable | scripts/IDA_export_pointers.py:30 | the sort is stable: for each target, the hits with that target keep their scan order |
| PointerScan.UniqueTargets | scripts/IDA_export_pointers.py:33 | the distinct targets are exactly the targets of the hits, strictly increasing, starting at the first hit's target |
| PointerScan.IndexOf | scripts/IDA_export_pointers.py:34 | the index of a target is a position holding that target |
| PointerScan.IndexOfIncreasing | scripts/IDA_export_pointers.py:34 | in the strictly increasing target list, the i-th target's index is i |
| PointerScan.BuildTable | scripts/IDA_export_pointers.py:36-41 | one row per sorted hit, in order, with the hit's location, target and its target's size |
| PointerScan.SizePositive | scripts/IDA_export_pointers.py:38-40 | every size is positive when all targets lie below END |
| PointerScan.SizesContiguous | scripts/IDA_export_pointers.py:38-40 | each target's interval ends where the next distinct target starts, the last at END |
| PointerScan.SizesCover | scripts/IDA_export_pointers.py:38-40 | the sizes of the distinct targets from the i-th on add up to END minus the i-th target |
| PointerScan.ExportTableSpec | scripts/IDA_export_pointers.py:13-41 | every exported table is ordered by target, every target is in [START, END) with a positive size, and rows with the same target have the same size |
| PointerScan.ExportPointers | scripts/IDA_export_pointers.py:13-41 | the script's three loops produce the exported table, which has those properties |
| PointerScan.RenderRowParses | scripts/IDA_export_pointers.py:52 | a rendered row ends in a newline and splits on `;` into three fields that parse back to the location, target (hex) and size (decimal) |
| ExtractFromPointer.SeparatorTailSpec | scripts/extract_from_pointer.py:18-27 | the trailing separator run is made of `00 00`/`FF FF` units and what precedes it does not end in one |
| ExtractFromPointer.StripTrailingSeparators | scripts/extract_from_pointer.py:21-27 | chunk followed by the run is the input, the run is made of separator units, the chunk does not end in one, and the run is as long as the trailing separator run |
| ExtractFromPointer.SeparatorSplitUnique | scripts/extract_from_pointer.py:21-27 | any split into a chunk not ending in a separator unit and a separator run is the one the function makes |
| ExtractFromPointer.FormatSeparators | scripts/extract_from_pointer.py:80 | the separators cell is `(aucun)` exactly when there are no separator bytes |
| ExtractFromPointer.KeptPairsExact | scripts/extract_from_pointer.py:36-46 | a pointer is kept exactly when some row parses to it and its target lies in [PATCH_START, PATCH_END) |
| ExtractFromPointer.KeysExact | scripts/extract_from_pointer.py:46 | the dictionary's key order holds each kept target exactly once |
| ExtractFromPointer.AddPointer | scripts/extract_from_pointer.py:46 | `setdefault(val, []).append(off)` keeps the dictionary equal to the grouping of the pointers seen so far |
| ExtractFromPointer.GroupRows | scripts/extract_from_pointer.py:33-46 | after the row loop the dictionary groups the kept pointers by target, in row order |
| ExtractFromPointer.LoadAndGroupPointers | scripts/extract_from_pointer.py:32-47 | the result is the grouping with keys ascending and each location list sorted |
| ExtractFromPointer.LocationsOfCount | scripts/extract_from_pointer.py:46 | a target's location list holds each location as often as a kept row gives it |
| ExtractFromPointer.GroupKeys | scripts/extract_from_pointer.py:47 | the sorted keys are the distinct kept targets, strictly ascending |
| ExtractFromPointer.GroupTarget | scripts/extract_from_pointer.py:47 | the k-th group's target is the k-th sorted key |
| ExtractFromPointer.GroupsOfAscending | scripts/extract_from_pointer.py:47 | the groups' targets are strictly ascending |
| ExtractFromPointer.GroupsOfTargetKept | scripts/extract_from_pointer.py:45-47 | every group's target is that of a kept pointer, so it lies in the patch range |
| ExtractFromPointer.GroupsOfTargetCovers | scripts/extract_from_pointer.py:45-47 | every kept pointer's target has a group |
| ExtractFromPointer.GroupsOfLocations | scripts/extract_from_pointer.py:47 | each location list is ascending and holds each location as often as the kept rows give it |
| ExtractFromPointer.ValidGroupsExact | scripts/extract_from_pointer.py:53-64 | a group is kept exactly when it is a group whose target is preceded by a separator unit and starts with a printable character |
| ExtractFromPointer.ValidGroupsAscending | scripts/extract_from_pointer.py:53-64 | keeping groups keeps the targets strictly ascending |
| ExtractFromPointer.SelectTargets | scripts/extract_from_pointer.py:53-64 | the first loop keeps exactly those groups, in key order |
| ExtractFromPointer.ExtentsContiguous | scripts/extract_from_pointer.py:67-71 | extents are non-empty, each ends where the next begins, and the last ends at PATCH_END - BASE_ADDR |
| ExtractFromPointer.RecordsAt | scripts/extract_from_pointer.py:66-86 | output row idx is the record of the idx-th kept target |
| ExtractFromPointer.ExtractOne | scripts/extract_from_pointer.py:67-86 | one iteration builds the record of its target |
| ExtractFromPointer.BuildRecords | scripts/extract_from_pointer.py:66-86 | the second loop builds one record per kept target, in order |
| ExtractFromPointer.ExtractStrings | scripts/extract_from_pointer.py:49-86 | the rows are the records of the kept groups of the parsed pointer rows |
| ExtractFromPointer.RecordFields | scripts/extract_from_pointer.py:68-86 | an extract holds no line break, its separators cell names exactly the separator run that ends the extent, and unescaping gives back the decoded extent without it |
| ExtractFromPointer.NoNewlineAfterEscape | scripts/extract_from_pointer.py:29-30 | an escaped text holds no line break |
| CodeBinPatch.ReadPointerOfRow | scripts/code_bin_trad_no_extend.py:35-36 | a row written as an 8-digit hex target and a decimal size reads back as (target - 0x100000, size) |
| CodeBinPatch.ReadPointers | scripts/code_bin_trad_no_extend.py:29-39 | the list is present exactly when every row parses, and then holds each row's parsed pointer in order |
| CodeBinPatch.StringEndSpec | scripts/code_bin_trad_no_extend.py:42-48 | the scan ends an even number of bytes after the offset, at a position where it stops, and inside the image when it starts inside |
| CodeBinPatch.StringEndFirst | scripts/code_bin_trad_no_extend.py:42-48 | no earlier two-byte step stops the scan |
| CodeBinPatch.ExtractString | scripts/code_bin_trad_no_extend.py:42-48 | the loop returns the scan's end and the bytes from the offset to it |
| CodeBinPatch.LeadingSeparators | scripts/code_bin_trad_no_extend.py:115-116 | the matched separator run is a prefix of what follows the string and is made of separator units |
| CodeBinPatch.FittedLength | scripts/code_bin_trad_no_extend.py:118-125 | an even-length original gets a translation of exactly its length |
| CodeBinPatch.WriteBackSame | scripts/code_bin_trad_no_extend.py:129-130 | writing back the separator run that is already there changes nothing |
| CodeBinPatch.WritesInPlace | scripts/code_bin_trad_no_extend.py:128-130 | the two slice writes replace exactly the string's bytes |
| CodeBinPatch.PatchOneSpec | scripts/code_bin_trad_no_extend.py:105-130 | for an offset inside the image, the string's bytes become its fitted translation and nothing else changes |
| CodeBinPatch.PatchOnePast | scripts/code_bin_trad_no_extend.py:105-130 | an offset past the image changes nothing |
| CodeBinPatch.FitTranslation | scripts/code_bin_trad_no_extend.py:112-125 | the truncate-or-pad step yields the fitted translation |
| CodeBinPatch.PatchAt | scripts/code_bin_trad_no_extend.py:108-130 | one loop iteration patches its pointer's string |
| CodeBinPatch.PatchAllLength | scripts/code_bin_trad_no_extend.py:100-136 | when every offset is non-negative, patching every pointer keeps the image's length; the exporter's START = 0x949720 puts every offset at 0x849720 or above |
| CodeBinPatch.PatchBinary | scripts/code_bin_trad_no_extend.py:100-136 | the loop patches the pointers' strings in list order |
| CodeBinPatch.Offsets | scripts/code_bin_trad_no_extend.py:105 | the loop visits each pointer's offset, in order |
| SafeReplacement.FindString | safe_replacement_test.py:34-38 | the result is the first offset where the encoded text occurs, and None exactly when it occurs nowhere |
| SafeReplacement.ReplaceString | safe_replacement_test.py:40-54 | the new bytes are exactly as long as the encoded original: the encoded translation padded with UTF-16LE spaces, or cut to length |
| SafeReplacement.Apply | safe_replacement_test.py:70-89 | one replacement keeps the image's length |
| SafeReplacement.ApplySpec | safe_replacement_test.py:70-89 | an absent text changes nothing; a found text has its encoded bytes replaced by the fitted translation at its first occurrence, the count grows by one, and every other byte is unchanged |
| SafeReplacement.ApplyAll | safe_replacement_test.py:66-92 | all replacements keep the image's length and count at most one success each |
| SafeReplacement.ReplaceOne | safe_replacement_test.py:70-89 | one loop iteration performs that replacement |
| SafeReplacement.RunScript | safe_replacement_test.py:56-96 | the loop applies the replacements in order, the image keeps its length, and it is written exactly when some replacement was made |
| Relocation.BytesOf | inject_character_selection_fixed.py:28 | `bytes(...)` succeeds exactly when every value is a byte, and then holds those values in order |
| Relocation.ParseSeparators | inject_character_selection_fixed.py:23-28 | a cell that strips to `(aucun)` gives no bytes |
| Relocation.HexBytes | inject_character_selection_fixed.py:27-28 | the separator bytes exist exactly when every token parses as a hexadecimal byte, and then are those values, one per token |
| Relocation.ParseFormatSeparators | scripts/inject_from_file.py:20-24 | reading back the separators cell that extraction writes gives the separator bytes back |
| Relocation.Block | inject_character_selection_fixed.py:64-67 | a row's block exists exactly when its separators cell parses |
| Relocation.BlockOfRecord | inject_character_selection_fixed.py:64-67 | re-injecting an extracted row appends the encoded text followed by the separator run that ended its extent, and decoding the text gives it back |
| Relocation.RepointOne | inject_character_selection_fixed.py:79-89 | one address keeps the image's length |
| Relocation.Repoint | inject_character_selection_fixed.py:78-89 | a row's pointer loop keeps the image's length and counts at most one slot per address |
| Relocation.RepointSucceeds | inject_character_selection_fixed.py:79-89 | the pointer loop completes exactly when every address parses and, if any slot is written, the new address fits in 32 bits |
| Relocation.RepointCount | inject_character_selection_fixed.py:78-89 | `pointer_count` is the number of addresses naming a slot inside the image |
| Relocation.RepointFrame | inject_character_selection_fixed.py:79-89 | only bytes inside named slots can change |
| Relocation.RepointWritten | inject_character_selection_fixed.py:83-88 | a slot written by the loop holds the new address little-endian unless a later address overwrote an overlapping slot |
| Relocation.RepointRepeat | inject_character_selection_fixed.py:79-89 | naming the same slot twice in a row writes the same bytes as naming it once |
| Relocation.RepointFailureSticks | inject_character_selection_fixed.py:79-80 | once an address fails to parse the row's loop has failed |
| Relocation.RepointRow | inject_character_selection_fixed.py:78-89 | the inner loop computes the row's pointer loop |
| Relocation.ParseCell | inject_character_selection_fixed.py:80 | `int(off_s.strip(), 16)` is the parsed address |
| Relocation.RepointAt | inject_character_selection_fixed.py:81-89 | one inner iteration skips an out-of-image slot and otherwise writes and counts it |
| Relocation.Addresses | inject_character_selection_fixed.py:79 | splitting on commas gives at least one address |
| Relocation.PlanOf | inject_character_selection_fixed.py:64-79 | a row's plan is its parsed addresses and its block |
| Relocation.Place | inject_character_selection_fixed.py:74-94 | a row never shrinks the image |
| Relocation.PlaceSpec | inject_character_selection_fixed.py:74-94 | a row succeeds exactly when its block parses and its slots can be written; the old bytes are then the repointed image, the block is appended at the old end, whose address BASE_ADDR + old length the slots receive, and the count is the in-image slot count |
| Relocation.PlaceFrame | inject_character_selection_fixed.py:74-94 | a row leaves every byte outside its named slots as it was |
| Relocation.PlaceAll | inject_character_selection_fixed.py:60-94 | the whole loop never shrinks the image and gives one count per row |
| Relocation.PlansStep | inject_character_selection_fixed.py:60 | one more row extends the parsed rows by its plan |
| Relocation.InjectAllStep | inject_character_selection_fixed.py:60-94 | the loop after row i is the loop before it extended by row i |
| Relocation.InjectFailureSticks | inject_character_selection_fixed.py:60-94 | once a row raises, the script has stopped and writes nothing |
| Relocation.PlaceAllLength | inject_character_selection_fixed.py:60-94 | after all rows every block parsed and the image grew by exactly the blocks' total length |
| Relocation.PlaceAllFrame | inject_character_selection_fixed.py:60-94 | every original byte outside the slots the rows name is unchanged |
| Relocation.MakeBlock | inject_character_selection_fixed.py:64-67 | the script's text and separator steps build the row's block |
| Relocation.InjectOne | inject_character_selection_fixed.py:64-94 | one iteration with the cursor at the image's end places the row and grows the image by the block |
| Relocation.InjectRows | inject_character_selection_small.py:28-51 | the main loop of both selection scripts places every row in order |
| InjectFromFile.RunScript | scripts/inject_from_file.py:26-62 | the script places the first MAX_CHAINES rows in order |
| InjectFromFile.RowsPastLimitIgnored | scripts/inject_from_file.py:36-39 | rows past MAX_CHAINES have no effect |
| InjectSelectionComplete.SingleOf | inject_character_selection_complete.py:53-62 | a row's single address is its `pointer_offsets` cell parsed as hexadecimal, and its block is the shared block |
| InjectSelectionComplete.StepSpec | inject_character_selection_complete.py:53-69 | a row that does not raise is accepted exactly when 0 <= off < len(data) - 4; a rejected row changes nothing and appends nothing; an accepted row writes BASE_ADDR + old length at its slot, appends its block, and changes no other byte |
| InjectSelectionComplete.LastSlotRejected | inject_character_selection_complete.py:65 | the guard rejects the last in-image slot, at len(data) - 4 |
| InjectSelectionComplete.RunAll | inject_character_selection_complete.py:48-74 | the loop gives one acceptance flag per row |
| InjectSelectionComplete.CompleteAllStep | inject_character_selection_complete.py:48-74 | the loop after row i is the loop before it extended by row i |
| InjectSelectionComplete.CompleteFailureSticks | inject_character_selection_complete.py:48-74 | once a row raises the script has stopped |
| InjectSelectionComplete.CountTrueAll | inject_character_selection_complete.py:83 | the success count equals the number of rows exactly when every row was accepted |
| InjectSelectionComplete.AcceptedMeans | inject_character_selection_complete.py:62-69 | row i's flag is set exactly when its slot passed the guard on the image as row i found it |
| InjectSelectionComplete.RunAllLength | inject_character_selection_complete.py:65-68 | the image grows by exactly the blocks of the accepted rows |
| InjectSelectionComplete.ParseAddress | inject_character_selection_complete.py:62 | the address is the cell parsed as hexadecimal |
| InjectSelectionComplete.InjectSingle | inject_character_selection_complete.py:53-74 | one iteration with the cursor at the image's end is the row's step, and grows the image by the block it reports |
| InjectSelectionComplete.RunScript | inject_character_selection_complete.py:35-83 | an image is written exactly when no row raises; it is the loop's image, the success count is the number of accepted rows, and the result is true exactly when every row was accepted |
| TutorialInjection.AppendedLength | tutorial_injection_script.py:51-74 | the appended bytes are as long as the encoded texts plus one terminator each |
| TutorialInjection.AppendedPrefix | tutorial_injection_script.py:51-74 | what the first m rows append is a prefix of what the first n rows append |
| TutorialInjection.AppendedAt | tutorial_injection_script.py:58-72 | row i's encoded text sits right after what the rows before it appended, followed by `00 00` |
| TutorialInjection.AppendedPresent | tutorial_injection_script.py:58-74 | a row with a translation appends its encoded text and the terminator |
| TutorialInjection.PresentAll | tutorial_injection_script.py:94 | the success count equals the number of rows exactly when every row has a translation |
| TutorialInjection.LoopStep | tutorial_injection_script.py:51-79 | one more row extends the appended bytes by its piece and the count by one when it has a translation |
| TutorialInjection.AppendTranslation | tutorial_injection_script.py:57-79 | one iteration appends the row's piece, keeps the cursor at the image's end, and succeeds exactly when the row has a translation |
| TutorialInjection.RunScript | tutorial_injection_script.py:33-104 | the output is the input followed by every row's encoded text and terminator, in order; the count is the number of rows with a translation; the result is true exactly when every row has one |
| RtzSegments.SegmentsFrom | scripts/extract_rtz_content.py:66-97 | every segment read lies inside the buffer with its content right after its 5-byte prefix |
| RtzSegments.SegmentsFromSpec | scripts/extract_rtz_content.py:71-94 | each segment's count byte gives its content length, the first prefix is at the start offset and each next prefix starts where the previous content ends |
| RtzSegments.SegmentsAscending | scripts/extract_rtz_content.py:79-93 | segments read earlier end before later ones begin |
| RtzSegments.SegmentsStop | scripts/extract_rtz_content.py:71-82 | the scan stops only where no prefix fits, at the `FF FF FF FF 00` terminator, or where a content would run past the end |
| RtzSegments.SegmentsFromStep | scripts/extract_rtz_content.py:77-93 | a well-formed prefix yields its segment followed by the segments read from its content's end |
| RtzSegments.SegmentsFromEnd | scripts/extract_rtz_content.py:73-82 | the terminator or an overlong content ends the list |
| RtzSegments.ExtractSegments | scripts/extract_rtz_content.py:66-97 | the loop returns exactly the segments read from the start offset |
| RtzSegments.NewRaw | scripts/extract_rtz_content.py:111-118 | the new content is exactly as long as the original content |
| RtzSegments.NewRaws | scripts/extract_rtz_content.py:104-118 | one fitted translation per segment, in segment order |
| RtzSegments.PatchSegment | scripts/extract_rtz_content.py:119-123 | the slice assignment changes the buffer length by the difference between new and old content length |
| RtzSegments.PatchSegmentSpec | scripts/extract_rtz_content.py:119-123 | with a same-length fill the length is kept, the count byte becomes the unit count modulo 256, the content is the fill, and no other byte changes |
| RtzSegments.PatchDown | scripts/extract_rtz_content.py:110-123 | reinsertion keeps the buffer length |
| RtzSegments.SegmentsLayout | scripts/extract_rtz_content.py:71-94 | the segments read are in ascending, non-overlapping order and each count byte matches its content length |
| RtzSegments.PatchDownFrame | scripts/extract_rtz_content.py:110-123 | a byte inside no content of the remaining segments is left as read |
| RtzSegments.PatchDownContent | scripts/extract_rtz_content.py:110-123 | after reinsertion every processed segment's content is its fill |
| RtzSegments.ReinsertedContents | scripts/extract_rtz_content.py:110-123 | after the whole backwards pass every segment's content is its fitted translation |
| RtzSegments.CountBytesKept | scripts/extract_rtz_content.py:119-121 | every count byte ends as it was read, since the fitted length equals the original |
| RtzSegments.ReinsertionFrame | scripts/extract_rtz_content.py:110-123 | every byte outside all contents, count bytes included, is unchanged |
| RtzSegments.CountByteOutside | scripts/extract_rtz_content.py:77-93 | a segment's count byte lies outside every segment's content |
| RtzSegments.FitContent | scripts/extract_rtz_content.py:111-118 | the method pads with space units or truncates exactly as the fitting function does |
| RtzSegments.WriteSegment | scripts/extract_rtz_content.py:119-123 | the array afterwards is one reinsertion step applied to its old contents |
| RtzSegments.PatchFile | scripts/extract_rtz_content.py:99-126 | the buffer afterwards is the backwards reinsertion of every segment's fitted translation into the old buffer |
| ZeroText.Zeros | scripts/zero_text_injector.py:124 | `b'\x00' * n` is n zero bytes |
| ZeroText.OverwriteZeroed | scripts/zero_text_injector.py:129 | overwriting a span with `0` digits and zero bytes only ever writes such bytes |
| ZeroText.FirstRun | scripts/zero_text_injector.py:245-256 | the scan position never passes the limit |
| ZeroText.FirstRunSpec | scripts/zero_text_injector.py:245-256 | the scan stops at the first place where four zero bytes in a row end, or at the limit |
| ZeroText.ZeroRunFour | scripts/zero_text_injector.py:249-252 | the consecutive-zero counter reaches four exactly where four zero bytes end |
| ZeroText.BoundaryEnd | scripts/zero_text_injector.py:238-262 | the text end is at or after the start, no further than the chunk or the data, and the span is even |
| ZeroText.BoundarySpec | scripts/zero_text_injector.py:238-262 | the text span is even, lies in the chunk, holds no four zero bytes in a row, and stops short of the limit only at such a run |
| ZeroText.FindTextBoundaries | scripts/zero_text_injector.py:238-262 | the loop returns the start unchanged and the end the boundary search defines |
| ZeroText.ZeroFill16 | scripts/zero_text_injector.py:113-129 | the UTF-16 replacement is exactly as long as the text and made only of `0` digits and zero bytes |
| ZeroText.ZeroFill16Even | scripts/zero_text_injector.py:116-126 | for an even span the replacement is size/2 UTF-16 `0` characters, with no padding and no truncation |
| ZeroText.ZeroFill8 | scripts/zero_text_injector.py:169-175 | the UTF-8 replacement is as long as the text, a `0` followed by zero bytes |
| ZeroText.SjisFill | scripts/zero_text_injector.py:210-211 | the Shift-JIS replacement of a pattern is `0` followed by zero bytes, as long as the pattern |
| ZeroText.CompressRtz | scripts/zero_text_injector.py:53-66 | the output starts with the uncompressed length as little-endian 32 bits followed by the gzip stream; it fails exactly when the length does not fit 32 bits |
| ZeroText.DecompressRtz | scripts/zero_text_injector.py:31-51 | a file is accepted only when its size field lies strictly between 100 and 10,000,000 and its stream starts with `1F 8B`, and then gives the decompressed stream |
| ZeroText.CompressRoundTrip | scripts/zero_text_injector.py:31-66 | decompressing a compressed RTZ file gives back the data, for sizes the reader accepts |
| ZeroText.ChunkSize16 | scripts/zero_text_injector.py:94-96 | the UTF-16 chunk is even, at most 200 bytes, and inside the data |
| ZeroText.Utf16Step | scripts/zero_text_injector.py:91-139 | one UTF-16 step keeps the length, advances the index, and makes at most one replacement |
| ZeroText.Utf16StepZeroed | scripts/zero_text_injector.py:98-136 | one UTF-16 step only writes `0` digits and zero bytes and leaves everything before the index alone |
| ZeroText.Utf16From | scripts/zero_text_injector.py:84-141 | the UTF-16 pass keeps the data length |
| ZeroText.Utf16Zeroed | scripts/zero_text_injector.py:84-141 | the UTF-16 pass only writes `0` digits and zero bytes |
| ZeroText.ScanUtf16At | scripts/zero_text_injector.py:92-139 | one in-place iteration leaves the array and the index as one step of the scan defines |
| ZeroText.ReplaceUtf16Text | scripts/zero_text_injector.py:84-141 | the in-place pass leaves the array and the count the UTF-16 pass defines |
| ZeroText.FirstZero | scripts/zero_text_injector.py:163-165 | the text runs up to the first zero byte or the end of the data |
| ZeroText.Utf8Step | scripts/zero_text_injector.py:149-183 | one UTF-8 step keeps the length, advances the index, and makes at most one replacement |
| ZeroText.Utf8StepZeroed | scripts/zero_text_injector.py:153-180 | one UTF-8 step only writes `0` digits and zero bytes and leaves everything before the index alone |
| ZeroText.Utf8From | scripts/zero_text_injector.py:143-185 | the UTF-8 pass keeps the data length |
| ZeroText.Utf8StepSpec | scripts/zero_text_injector.py:161-178 | a replaced UTF-8 text is more than 3 non-zero bytes ending at a zero byte or the end, and becomes `0` followed by zero bytes |
| ZeroText.Utf8Zeroed | scripts/zero_text_injector.py:143-185 | the UTF-8 pass only writes `0` digits and zero bytes |
| ZeroText.FindNull | scripts/zero_text_injector.py:163-165 | the loop stops at the first zero byte |
| ZeroText.ScanUtf8At | scripts/zero_text_injector.py:150-183 | one in-place iteration leaves the array and the index as one step of the scan defines |
| ZeroText.ReplaceUtf8Text | scripts/zero_text_injector.py:143-185 | the in-place pass leaves the array and the count the UTF-8 pass defines |
| ZeroText.PatternsClean | scripts/zero_text_injector.py:195-200 | the four Shift-JIS patterns are non-empty and hold neither a `0` digit nor a zero byte |
| ZeroText.SjisWrite | scripts/zero_text_injector.py:211 | overwriting a pattern occurrence keeps the length |
| ZeroText.SjisWriteIs | scripts/zero_text_injector.py:210-211 | the overwrite puts the pattern-length `0`-and-zeros fill at the occurrence |
| ZeroText.SjisFrom | scripts/zero_text_injector.py:202-213 | the pass over one pattern keeps the data length |
| ZeroText.SjisSkip | scripts/zero_text_injector.py:205 | positions without an occurrence are passed over |
| ZeroText.SjisFromFound | scripts/zero_text_injector.py:204-213 | `find` finding nothing ends the pass; otherwise the pass overwrites the occurrence found, counts it, and goes on after it |
| ZeroText.NoNewOccurrence | scripts/zero_text_injector.py:211 | writing `0` digits and zero bytes creates no new occurrence of a pattern |
| ZeroText.ZeroByteBreaks | scripts/zero_text_injector.py:195-211 | a `0` digit or zero byte keeps a pattern from matching across it |
| ZeroText.SjisWriteNoNew | scripts/zero_text_injector.py:211 | one overwrite creates no occurrence of any pattern |
| ZeroText.SjisClears | scripts/zero_text_injector.py:202-213 | after the pass over a pattern, the pattern occurs nowhere |
| ZeroText.SjisNoNew | scripts/zero_text_injector.py:202-213 | the pass over one pattern creates no occurrence of another |
| ZeroText.SjisZeroed | scripts/zero_text_injector.py:202-213 | the pass over one pattern only writes `0` digits and zero bytes |
| ZeroText.SjisAll | scripts/zero_text_injector.py:187-215 | the passes over all patterns keep the data length |
| ZeroText.SjisAllSpec | scripts/zero_text_injector.py:187-215 | after the passes no pattern occurs anywhere, and only `0` digits and zero bytes were written |
| ZeroText.ZeroNextOccurrence | scripts/zero_text_injector.py:204-213 | one iteration either finds nothing and changes nothing, or overwrites the next occurrence at or after the position |
| ZeroText.PassTurn | scripts/zero_text_injector.py:204-213 | one replacement keeps the loop invariant of the pass |
| ZeroText.PassDone | scripts/zero_text_injector.py:206-207 | when `find` fails the pass has reached its result |
| ZeroText.PassEnds | scripts/zero_text_injector.py:204 | a position past the data ends the pass |
| ZeroText.ReplacePattern | scripts/zero_text_injector.py:202-213 | the in-place loop over one pattern gives the pass's image and count |
| ZeroText.ReplaceShiftJisText | scripts/zero_text_injector.py:187-215 | the in-place method gives the image and count of the passes over the four patterns |
| ZeroText.ShiftJisPass | scripts/zero_text_injector.py:187-215 | the Shift-JIS pass keeps the data length |
| ZeroText.ZeroAll | scripts/zero_text_injector.py:68-82 | replacing all text keeps the data length |
| ZeroText.ZeroAllSpec | scripts/zero_text_injector.py:68-82 | every byte of the result is the original byte, a `0` digit or a zero byte, and none of the Shift-JIS patterns remains |
| ZeroText.ZeroAllIs | scripts/zero_text_injector.py:73-82 | the result is the UTF-16, UTF-8 and Shift-JIS passes in that order, and the count is the sum of their counts |
| ZeroText.ReplaceAllTextWithZero | scripts/zero_text_injector.py:68-82 | the method returns the image and the total count `ZeroAll` defines |
| ZeroText.ProcessSpec | scripts/zero_text_injector.py:264-302 | a file that does not decompress is copied; a rewritten file decompresses to the zeroed data, keeps its length in the size field, and carried at least one replacement |
| ZeroText.Results | scripts/zero_text_injector.py:324-330 | one result per file, in order |
| ZeroText.Rewrites | scripts/zero_text_injector.py:292 | no more files are modified than were processed |
| ZeroText.CountStep | scripts/zero_text_injector.py:285-293 | each file adds one to the modified count and its replacements to the total exactly when it is rewritten |
| ZeroText.RewrittenReplaces | scripts/zero_text_injector.py:285-294 | a rewritten file always carries at least one replacement |
| ZeroText.RewritesSpec | scripts/zero_text_injector.py:351 | some file is modified exactly when one of the results is a rewrite |
| ZeroText.ReplacementsCoverRewrites | scripts/zero_text_injector.py:285-294 | the total of replacements is at least the number of files modified |
| ZeroText.AllTurn | scripts/zero_text_injector.py:324-330 | processing the next file keeps the loop invariant of the run |
| ZeroText.ZeroTextInjector.constructor | scripts/zero_text_injector.py:15-29 | all four counters start at zero |
| ZeroText.ZeroTextInjector.ProcessRtzFile | scripts/zero_text_injector.py:264-302 | the file is reported modified exactly when it is rewritten; the modified count and replacement total grow only then, and the other counters are unchanged |
| ZeroText.ZeroTextInjector.ProcessAllRtzFiles | scripts/zero_text_injector.py:304-351 | with no files the run fails and changes nothing; otherwise every file gets its output, the counters grow by the files processed, rewritten and replaced, and the run succeeds exactly when there were files and the modified counter is positive |
| RtzInjection.OccurrencesSpec | scripts/rtz_injection_fixed.py:141-157 | the positions collected are exactly the occurrences of the search bytes at or after the start, in strictly ascending order |
| RtzInjection.OccurrencesSkip | scripts/rtz_injection_fixed.py:150-155 | positions without an occurrence contribute nothing |
| RtzInjection.FindStep | scripts/rtz_injection_fixed.py:151-155 | a failing `find` ends the list; a successful one contributes its position and the search resumes one byte later |
| RtzInjection.FindLoopStep | scripts/rtz_injection_fixed.py:150-155 | one turn of the `find` loop keeps "collected so far plus still ahead is all of them" |
| RtzInjection.FindTextInRtz | scripts/rtz_injection_fixed.py:141-157 | the loop returns every occurrence of the UTF-16LE search text, in order |
| RtzInjection.ReplaceBackward | scripts/rtz_injection_fixed.py:177-193 | the backward pass makes at most one replacement per position |
| RtzInjection.BackwardTurn | scripts/rtz_injection_fixed.py:177-193 | one turn of the backward loop keeps its invariant: the last remaining position is tried and counted when replaced |
| RtzInjection.TryReplaceAt | scripts/rtz_injection_fixed.py:179-192 | one iteration replaces the Japanese bytes at the position exactly when they are still there |
| RtzInjection.ReplaceBackwardLength | scripts/rtz_injection_fixed.py:183-193 | each replacement changes the length by len(en) - len(jp) |
| RtzInjection.ReplaceBackwardPrefix | scripts/rtz_injection_fixed.py:173-190 | working backwards, nothing before the first position changes |
| RtzInjection.SeparatedAllReplaced | scripts/rtz_injection_fixed.py:173-192 | occurrences that do not overlap are all replaced |
| RtzInjection.NormaliseDropsPrefix | scripts/rtz_injection_fixed.py:28-85 | the path mapping followed by the prefix strip is the same as dropping one leading `romfs/` |
| RtzInjection.InsertSpec | scripts/rtz_injection_fixed.py:87-98 | filing a row under a path appends it to that path's group, adding the path last when new, and keeps paths distinct |
| RtzInjection.GroupSpec | scripts/rtz_injection_fixed.py:68-98 | every used row is filed under its own path and nowhere else, in row order, and a group exists exactly for the paths some used row names |
| RtzInjection.LoadTranslations | scripts/rtz_injection_fixed.py:55-115 | the loop returns the grouping of the rows that are not FAILED and have a file, Japanese and English text |
| RtzInjection.ApplyTranslations | scripts/rtz_injection_fixed.py:228-247 | no more translations apply than were tried |
| RtzInjection.ApplyTurn | scripts/rtz_injection_fixed.py:228-247 | one turn of the translation loop keeps its invariant: a translation that replaced something updates the buffer and the count |
| RtzInjection.ReplaceTextLength | scripts/rtz_injection_fixed.py:159-195 | `replace_text_in_rtz` changes the length by the size difference once per replacement |
| RtzInjection.ApplyTranslationsSpec | scripts/rtz_injection_fixed.py:225-247 | `bytes_added` is exactly how much the buffer grew, and a file where no translation applied is left untouched |
| RtzInjection.FileTallySpec | scripts/rtz_injection_fixed.py:201-278 | every translation is counted once as applied or failed, the file counts as modified exactly when written, and `bytes_added` grows by the growth of the buffer |
| RtzInjection.OutputsSpec | scripts/rtz_injection_fixed.py:348-360 | a path is written exactly when its file exists and its own translations change it, and what is written is that file's result |
| RtzInjection.OutputsAbsent | scripts/rtz_injection_fixed.py:348-355 | a path no translation names is never written |
| RtzInjection.RunOutputs | scripts/rtz_injection_fixed.py:55-385 | end to end, each file's output depends only on the CSV rows that name it, in row order |
| RtzInjection.FixedRtzInjector.constructor | scripts/rtz_injection_fixed.py:21-41 | all five counters start at zero |
| RtzInjection.FixedRtzInjector.ReplaceTextInRtz | scripts/rtz_injection_fixed.py:159-199 | the result is the backward replacement of every occurrence, success means some replacement was made, and `bytes_added` grows by the size difference per replacement |
| RtzInjection.FixedRtzInjector.ApplyAll | scripts/rtz_injection_fixed.py:224-247 | the buffer and count are those of the translations applied in turn; applied and failed grow by the translations that did and did not apply, `bytes_added` by the growth |
| RtzInjection.FixedRtzInjector.ProcessRtzFile | scripts/rtz_injection_fixed.py:201-278 | the write happens exactly when some translation applied, holding the recompressed (or raw) modified data, and the counters follow the per-file tally |
| RtzInjection.FixedRtzInjector.RunInjection | scripts/rtz_injection_fixed.py:327-385 | the run succeeds exactly when some translation loads; then `files_processed` is the number of files named and the outputs and counters are those of processing every existing file; otherwise nothing changes |
| PrecisionInjector.MatchesSpec | scripts/precision_rtz_injector.py:127-136 | the filtered list is empty exactly when no result has the text and the match kind, and otherwise starts with the first such result |
| PrecisionInjector.FindBestAlignmentSpec | scripts/precision_rtz_injector.py:123-138 | the alignment of the first exact match, else of the first partial match; none exactly when no result is for the text |
| PrecisionInjector.AlignedSpec | scripts/precision_rtz_injector.py:232-234 | the aligned slice starts at the Python-normalised alignment, has even length, and drops at most the buffer's last byte |
| PrecisionInjector.ReplaceInAbsent | scripts/precision_rtz_injector.py:241-244 | for a non-empty text, nothing is stored and zero is returned exactly when the text does not occur in the aligned slice |
| PrecisionInjector.ReplaceInLength | scripts/precision_rtz_injector.py:247 | the stored buffer changes length by the size difference once per occurrence |
| PrecisionInjector.ReplaceBySelfCountsNothing | scripts/precision_rtz_injector.py:241-252 | replacing a text by itself is reported as zero replacements, since the counts before and after are equal |
| PrecisionInjector.CountIsDifference | scripts/precision_rtz_injector.py:241-252 | the number returned is a difference of counts: replacing `A` by `AA` in `A` reports -1 |
| PrecisionInjector.LeadingBytesLost | scripts/precision_rtz_injector.py:226-262 | what is stored is computed from `data[alignment:]` alone, and with a same-size replacement at a positive alignment it is shorter than the buffer |
| PrecisionInjector.StepNone | scripts/precision_rtz_injector.py:171-175 | a translation without search results changes nothing |
| PrecisionInjector.StepSome | scripts/precision_rtz_injector.py:177-194 | with an alignment, the stored buffer is updated, and a positive count takes it over, adds the count and increments the exact or partial counter |
| PrecisionInjector.PreciseTallied | scripts/precision_rtz_injector.py:158-194 | over the translations the replacement total only grows; when it does not, neither the buffer nor the statistics change; the exact and partial counters grow by at most one per translation and by no more than the replacements; no other statistic changes |
| PrecisionInjector.PreciseDataOnly | scripts/precision_rtz_injector.py:158-194 | the buffer and the replacements counted depend on the buffer alone, not on what was stored before or on the counters |
| PrecisionInjector.InjectFileSpec | scripts/precision_rtz_injector.py:140-224 | the bytes written for a file depend only on the file, its translations and its search results; a file is written exactly when the total of replacements grows, and then counts as one successful injection |
| PrecisionInjector.SortPathsSpec | scripts/precision_rtz_injector.py:324 | `sorted` gives the same paths in strictly ascending order |
| PrecisionInjector.TargetsSpec | scripts/precision_rtz_injector.py:313-324 | the targets are the files with both search results and loaded translations, strictly ascending |
| PrecisionInjector.RunFilesOutputs | scripts/precision_rtz_injector.py:324-338 | a path is written exactly when it is a target, exists, and its own file result is a write; the bytes are that result |
| PrecisionInjector.RunFilesTotals | scripts/precision_rtz_injector.py:324-343 | over the files the total of replacements only grows, and something is written exactly when it grows |
| PrecisionInjector.PrecisionRtzInjector.constructor | scripts/precision_rtz_injector.py:17-32 | all statistics start at zero and nothing is stored |
| PrecisionInjector.PrecisionRtzInjector.LoadTranslations | scripts/precision_rtz_injector.py:76-121 | the grouping of the rows that are not FAILED and have a file, Japanese and English text, one leading `romfs/` removed |
| PrecisionInjector.PrecisionRtzInjector.ReplaceTextWithAlignment | scripts/precision_rtz_injector.py:226-256 | returns the difference of counts in the aligned slice and stores the replaced slice when the text occurs there; the statistics are unchanged |
| PrecisionInjector.PrecisionRtzInjector.ApplyTranslations | scripts/precision_rtz_injector.py:158-194 | the loop ends in the state the translation steps define, taken in order |
| PrecisionInjector.PrecisionRtzInjector.TranslateOne | scripts/precision_rtz_injector.py:161-194 | one turn of the loop is one translation step |
| PrecisionInjector.PrecisionRtzInjector.InjectWithPreciseAlignment | scripts/precision_rtz_injector.py:140-224 | the write, the stored buffer and the statistics are those of the per-file result, and success means a write |
| PrecisionInjector.PrecisionRtzInjector.RunPrecisionInjection | scripts/precision_rtz_injector.py:288-343 | an empty input or no common file stops the run and changes nothing; otherwise `files_processed` is the number of targets, the targets are processed in order, and success means the total of replacements is positive |
| PrecisionInjector.RunSpec | scripts/precision_rtz_injector.py:288-343 | from a fresh injector a file is written exactly when it has search results and loaded translations, exists, and its own result is a write, and the run succeeds exactly when some file is written |
| ExHeader.RoundUp | scripts/patch_exheader.py:5-6 | `round_up_0x1000` gives a multiple of 0x1000 at or above the value and less than 0x1000 above it |
| ExHeader.RoundUpAligned | scripts/patch_exheader.py:5-6 | an aligned value is left as it is |
| ExHeader.RoundUpIdempotent | scripts/patch_exheader.py:5-6 | rounding twice is rounding once |
| ExHeader.RoundUpLeast | scripts/patch_exheader.py:5-6 | the result is the least multiple of 0x1000 at or above the value |
| ExHeader.NewFields | scripts/patch_exheader.py:9-20 | the code size and the data size (0x001BBF78 + 0x001E16FC plus the size delta) are page-aligned and less than a page above their raw values, and the page count times 0x1000 is the data size |
| ExHeader.NewFieldsLeast | scripts/patch_exheader.py:11-20 | both sizes are the least page multiples that hold their raw values |
| ExHeader.HeaderWithFields | patch_exheader_fixed.py:64-77 | on a header of at least 0x38 bytes the length is kept, the four fields read back as written (read-only size 0, page count times 0x1000 equal to the data size), and no other byte changes |
| ExHeader.FixedPatchSpec | patch_exheader_fixed.py:16-92 | a header is produced exactly when both binaries and the header exist, the header has at least 0x38 bytes and every field fits 32 bits; it keeps the header's length |
| ExHeader.ShortHeaderRefused | patch_exheader_fixed.py:59-61 | a header shorter than 0x38 bytes is refused |
| ExHeader.PatchExheaderFixed | patch_exheader_fixed.py:16-92 | the method writes exactly the header the fixed patch defines, in source order |
| ExHeader.AsWrittenAgreesOnLongHeaders | scripts/patch_exheader.py:20-26 | on headers of at least 0x38 bytes the unguarded slice assignments give the same header as the fixed script |
| ExHeader.ShortHeaderMisplaced | scripts/patch_exheader.py:21-26 | on a header of 0x10 to 0x33 bytes the unguarded script succeeds, grows the header by 4 bytes and puts the page count at its old end, where the fixed script refuses it |
| ExHeader.OutputNameLength | scripts/patch_exheader.py:28 | every `.bin` occurrence in the path grows the output name by 8 characters |
| ExHeader.OutputNameKeepsInput | scripts/patch_exheader.py:28 | the output name equals the input path exactly when the path holds no `.bin`, in which case the input is overwritten |
| ExHeader.PatchExheaderAsWritten | scripts/patch_exheader.py:8-29 | the method writes the unguarded patch to the path with every `.bin` replaced by `_patched.bin` |
| PadData.ZeroRun | scripts/pad_data.py:18 | `b'\x00' * n` is max(n, 0) zero bytes |
| PadData.PadDataSplit | scripts/pad_data.py:10-21 | the output is the input split at the normalised end of the data section with the zero run in between |
| PadData.PadDataSpec | scripts/pad_data.py:10-21 | the file grows by the padding size, the bytes before the insertion point are unchanged, the inserted bytes are zero, and the rest is shifted by the padding size |
| PadData.PadDataUndone | scripts/pad_data.py:21 | removing the inserted run gives back the original file |
| PadData.PadPastEndAppends | scripts/pad_data.py:11-21 | with the bounds check commented out, a section ending past the file puts the padding at the end |
| PadData.PadNothing | scripts/pad_data.py:18-21 | a non-positive padding size leaves the file as it was |
| Romfs.Window | extract_romfs.py:54-55 | `f.read(n)` returns at most n bytes, and exactly the next n when that many remain |
| Romfs.RomFile.constructor | extract_romfs.py:12 | the file starts at position 0 over the dump's bytes |
| Romfs.RomFile.Seek | extract_romfs.py:14 | `seek` moves the cursor to the position given |
| Romfs.RomFile.Read | extract_romfs.py:15 | `read` returns the window at the cursor and moves the cursor past it |
| Romfs.UnitsAt | extract_romfs.py:25-26 | a field reads as a multiple of 0x200 exactly when four bytes remain |
| Romfs.KeptSpec | extract_romfs.py:24-28 | the partitions kept are exactly the table entries with non-zero offset and size, in table order, none when no entry is used |
| Romfs.FirstPartition | extract_romfs.py:33-34 | the game partition is the first used table entry |
| Romfs.ParseRomExtracted | extract_romfs.py:12-65 | an extraction needs the NCSD magic, a complete table and a used entry, and comes from the first used entry |
| Romfs.ParseGameExtracted | extract_romfs.py:37-55 | an extracted image needs the NCCH magic and non-zero RomFS offset and size, and is the RomFS range of the dump, cut short at its end |
| Romfs.WellFormedRomParses | extract_romfs.py:12-65 | a dump laid out as the NCSD/NCCH headers describe extracts exactly the RomFS range they point at |
| Romfs.ReadUnits | extract_romfs.py:47-48 | the method reads the field at the cursor, or fails where `struct.unpack` raises |
| Romfs.ReadTable | extract_romfs.py:22-28 | the whole table is read exactly when the dump reaches its end, and then the list is the used entries |
| Romfs.ReadGame | extract_romfs.py:37-63 | the NCCH check and the RomFS read give the per-partition result |
| Romfs.ExtractRomfs | extract_romfs.py:12-65 | the script's outcome is the parse of the dump, and past the magic check the partition list is the table's used entries |
| Bytes.Le32 | inject_character_selection_fixed.py:88 | `to_bytes(4, 'little')` on a 32-bit value gives four bytes |
| Bytes.ReadLe32OfLe32 | inject_character_selection_fixed.py:88 | a packed 32-bit field reads back as the value packed |
| Bytes.WriteLe32 | inject_character_selection_fixed.py:88 | writing a 4-byte slot keeps the length, puts the packed value in the slot and changes nothing else |
| Bytes.WriteLe32Idempotent | inject_character_selection_fixed.py:88 | patching the same slot twice with the same value is patching it once |
| Bytes.PyIndex | scripts/pad_data.py:21 | a slice bound is clamped to [0, n], and a negative one counts from the end |
| Bytes.PySlice | scripts/pad_data.py:21 | a slice is no longer than its sequence and is the ordinary subrange when the bounds are in range |
| Bytes.PySliceFrom | scripts/pad_data.py:21 | `s[i:]` is the suffix from i when i is in range |
| Bytes.PySliceAssign | scripts/patch_exheader.py:21-26 | a slice assignment with in-range bounds replaces exactly that range |
| Bytes.OverwriteAt | scripts/zero_text_injector.py:129 | an in-range same-length slice assignment changes the bytes inside the window to the new bytes and nothing outside |
| Bytes.WriteSlice | patch_exheader_fixed.py:68-77 | the in-place slice assignment on a `bytearray` leaves the array equal to the overwritten contents |
| Bytes.FindFrom | scripts/rtz_injection_fixed.py:151 | `find` returns the first occurrence at or after the start, or -1 exactly when there is none |
| Bytes.CountZeroIffAbsent | scripts/precision_rtz_injector.py:241-244 | a non-empty pattern is counted zero times exactly when `find` does not find it |
| Bytes.ReplaceAbsent | scripts/precision_rtz_injector.py:243-247 | replacing a pattern that does not occur changes nothing |
| Bytes.ReplaceLength | scripts/precision_rtz_injector.py:247 | `replace` changes the length by the size difference once per counted occurrence |
| Bytes.ReplaceBySelf | scripts/precision_rtz_injector.py:247 | replacing a pattern by itself changes nothing |
| Text.LStripSpec | inject_character_selection_fixed.py:80 | `lstrip` keeps a suffix that does not start with whitespace |
| Text.RStripSpec | inject_character_selection_fixed.py:80 | `rstrip` keeps a prefix that does not end with whitespace |
| Text.RStripCharsSpec | scripts/extract_from_pointer.py:39 | `rstrip("Ll")` removes only a trailing run of the given characters and keeps a prefix not ending in one |
| Text.SplitOn | inject_character_selection_fixed.py:79 | `split(',')` gives at least one part and no part holds the delimiter |
| Text.JoinSplitOn | inject_character_selection_fixed.py:79 | joining the parts of a split with the delimiter gives the string back |
| Text.SplitOnJoin | inject_character_selection_fixed.py:79 | splitting a `",".join` of delimiter-free cells gives the cells back, so the extractor's pointer list survives the round trip |
| Text.SplitWhitespaceJoin | inject_character_selection_fixed.py:27 | `split()` of a `" ".join` of words gives the words back, so the separators cell survives the round trip |
| Text.Digits | scripts/extract_from_pointer.py:79-83 | the rendered digits are valid in their base and denote the value |
| Text.LeadingZeros | scripts/extract_from_pointer.py:79-83 | zero padding does not change a digit string's value |
| Text.ParseFormatHex | scripts/extract_from_pointer.py:41-42 | a zero-padded hexadecimal field, with or without `0x`, parses back to its value with `int(s, 16)` |
| Text.ParseFormatDecimal | scripts/code_bin_trad_no_extend.py:36 | `int(str(v)) == v` for every integer |
| Text.StripIdempotent | inject_character_selection_fixed.py:25 | stripping twice is stripping once |
| Text.ParseIntStrip | inject_character_selection_fixed.py:80 | `int(s.strip(), base) == int(s, base)` |
| Text.UnescapeEscape | scripts/extract_from_pointer.py:29-30 | the injectors' `replace('†', '\n')` undoes the escape exactly when the text held no `†` of its own |
| Utf16.CharUnits | scripts/code_bin_trad_no_extend.py:55-56 | one character encodes to one code unit, or two above U+FFFF |
| Utf16.UnitBytes | scripts/code_bin_trad_no_extend.py:55-56 | each code unit becomes two bytes, low byte first |
| Utf16.Encode | scripts/code_bin_trad_no_extend.py:55-56 | UTF-16LE output has even length and at least two bytes per character |
| Utf16.Units | scripts/code_bin_trad_no_extend.py:51-52 | pairing bytes gives one unit per two bytes; an odd trailing byte is dropped |
| Utf16.UnitsOfUnitBytes | scripts/code_bin_trad_no_extend.py:51-56 | pairing the bytes of encoded units gives the units back |
| Utf16.SurrogatePair | scripts/code_bin_trad_no_extend.py:55-56 | a character above U+FFFF becomes a high and a low surrogate that recombine to it |
| Utf16.DecodeCharUnits | scripts/code_bin_trad_no_extend.py:51-56 | decoding one character's units followed by more units yields that character first |
| Utf16.DecodeEncode | scripts/code_bin_trad_no_extend.py:51-56 | `decode_utf16le(encode_utf16le(t)) == t` |
| Utf16.EncodeAppend | scripts/code_bin_trad_no_extend.py:55-56 | encoding a concatenation encodes the parts one after the other |
| Utf16.Repeat | safe_replacement_test.py:49 | `b * n` is n copies of b |
| Utf16.RepeatUnits | safe_replacement_test.py:49 | every unit of `' '.encode('utf-16le') * n` is `20 00` |
| Utf16.FitToLength | safe_replacement_test.py:40-54 | a longer encoding is cut to the slot; a shorter one is kept as a prefix and followed by `20 00` units, and a slot of matching parity is filled exactly |
| Ordering.InsertIntElements | scripts/extract_from_pointer.py:47 | inserting adds exactly that value to the multiset |
| Ordering.InsertIntSorted | scripts/extract_from_pointer.py:47 | inserting into an ascending list keeps it ascending |
| Ordering.SortIntsSorted | scripts/extract_from_pointer.py:47 | `sorted` gives an ascending permutation of its input |
| Ordering.DistinctPermutation | scripts/extract_from_pointer.py:47 | a permutation of a list without repeats has none |
| Ordering.SortIntsDistinct | scripts/extract_from_pointer.py:47 | sorting distinct keys gives a strictly increasing list |
| Wrappers.AllSome | scripts/code_bin_trad_no_extend.py:29-39 | the rows all convert exactly when every one does, and then the values are the converted rows in order |
| Text.EscapeNewlines | scripts/extract_from_pointer.py:29-30 | `escape_newlines` replaces every line break by `†` and keeps every other character |
| Text.UnescapeNewlines | inject_character_selection_complete.py:53 | `replace('†', '\n')` turns every `†` into a line break and keeps every other character |
| Text.Word | inject_character_selection_fixed.py:27 | a word of `split()` is the longest whitespace-free prefix |

## Left out

- File and directory I/O is not modelled: reading inputs, writing outputs, `mkdir`, `shutil` copies, backups and directory scans. Inputs are byte sequences, lists of parsed CSV rows, or maps from path to bytes. Outputs are returned values.
- Printing, logging, debug files and reports are not modelled: `save_debug_info`, `create_injection_report`, `print_final_results` and the statistics printouts carry no data the model needs.
- Interactive confirmations (`input()`), the IDA save dialog (`ask_file`) and process exit codes are not modelled. The exit paths that are modelled appear as result values: `None`, `RomfsResult` errors, `false`.
- The network translators are function parameters. This covers `translate_text` in `scripts/code_bin_trad_no_extend.py` and `translate` with its `clean_text` preparation in `scripts/extract_rtz_content.py`. They are foreign services.
- gzip compression and decompression are function parameters; `gunzip` returns `None` where `gzip.decompress` raises. The codec is a foreign library.
- The IDA database is reached through a dword-reader function and a list of segment ranges. The IDA API is foreign.
- `str.isprintable`, `is_meaningful_text` and the strict UTF-8/UTF-16 decode attempts of `zero_text_injector.py` are uninterpreted predicates. They are Unicode-table and regular-expression tests.
- CSV parsing is left out, including quoting, and the choice of the newest CSV by modification time in `find_latest_usable_translations`. The rows arrive already split into cells, and the search results of `precision_rtz_injector.py` arrive as a map from file to result rows.
- Of `float()` on the `confidence` cell, only whether it succeeds is modelled, as a flag on each row.
- A short CSV row is modelled only in `TutorialInjection`. `csv.DictReader` fills a short row's missing cells with `None`. There, `None.encode` is caught for each row (tutorial_injection_script.py:57), and the English cell is an `Option<string>`. Elsewhere the model has no `None` cell, and the scripts behave as follows:
  - `.strip()` on `None` raises in scripts/rtz_injection_fixed.py:73-75 and scripts/precision_rtz_injector.py:96-98. The handlers at :100-102 and :117-119 return `{}`, so the run returns False.
  - `quality.upper()` on `None` raises in scripts/precision_rtz_injector.py:164-166. The handler at :222-224 fails that file. By then, the file's earlier translations have already moved the exact/partial counters and `modified_aligned_data`.
  - The scripts that read `row[...]` stop on `None.replace`, `None.split` or `int(None)`. These are inject_character_selection_*.py, scripts/inject_from_file.py and scripts/code_bin_trad_no_extend.py.
- A column missing from the CSV header is modelled only where the script reads it with `row.get`. It then reads as the `row.get` default (`RtzInjection.Row`). Where the script reads it with `row[...]`, it raises `KeyError` and the script ends; that case is not modelled.
- `RtzInjection.RunOutputs`: stated only for row sets whose used rows all have a parsable confidence. When one does not, `load_translations` returns nothing and the run stops; `RtzInjection.FixedRtzInjector.RunInjection` states that case.
- `PrecisionInjector.RunSpec`: stated only under the same parsable-confidence condition. `PrecisionInjector.PrecisionRtzInjector.RunPrecisionInjection` covers the empty-translations stop.
- `setup_directories` in `scripts/rtz_injection_fixed.py` and the `romfs` existence checks in `main` are not modelled. They fail only when the RomFS directory is missing, which is I/O.
- A missing input file is modelled only in three places. In `ExHeader.FixedPatch`, an absent header or size is `None`. In `RtzInjection` and `PrecisionInjector`, a path absent from the RomFS path map is skipped. Elsewhere it is not modelled:
  - `Romfs.ExtractRomfs`: extract_romfs.py:8-10 exits.
  - `ExHeader.PatchExheaderAsWritten`: scripts/patch_exheader.py:9-10 and :18 raise in `getsize` or `read_bytes`.
  - `PadData.PadDataSection`: scripts/pad_data.py:7 raises in `read_bytes`.
- Other OS errors are not modelled: permissions, disk full, a failing write.
- `ZeroText.ZeroTextInjector.ProcessAllRtzFiles`: the `errors` counter is never incremented. Only exceptions from file I/O reach it, and those are not modelled.
- `copy_non_rtz_files` and the copy-on-failure branches of `zero_text_injector.py` are not modelled. They copy files without reading them.
- The `.rtz` file list that `rglob` would find is a parameter, in the order given.
- The write of `romfs.bin` in `extract_romfs.py` is not modelled. The extracted image is returned instead.
- `Text.ParseInt`: accepts only ASCII digits with no underscores. Python's `int(s, base)` also accepts single underscores between digits and after the `0x` prefix (`int('0x_94_97_20', 16)`), and non-ASCII decimal digits. On such a cell the model acts as if `int()` had raised. This affects `Relocation.ParseCell`, `Relocation.HexBytes`, `InjectSelectionComplete.ParseAddress`, `CodeBinPatch.ReadPointers` and the row filter of `ExtractFromPointer`: the script stops or the row is skipped. The exporters never write such cells.
- `RtzSegments.ExtractSegments`: the start offset is a `nat`. `int(sys.argv[2], 0)` in `scripts/extract_rtz_content.py` can be negative. Python would then read the first prefix counting from the end of the buffer, and the content slice could mix a negative and a non-negative bound. That case is not modelled.
- `RtzSegments.PatchFile`: takes a `nat` start for the same reason. With a negative start, the reinsertion slice assignment can insert bytes instead of overwriting them, and the model does not capture this.
- `pad_data.py`'s command-line parsing (`int(s, 0)`) is not modelled; the offsets and the padding size are integers.
- `RtzSegments.NewRaw`: decoding the segment bytes, `clean_text`, and the translation are folded into one function of the segment's bytes. Only the translated text is used.

## Findings

| source | as written | input that shows it | evidently intended | confidence | as-written member | corrected member |
|---|---|---|---|---|---|---|
| scripts/patch_exheader.py:21-26 | the four fields are written by Python slice assignment with no length check, so on a header of 0x10 to 0x33 bytes the page-count slice clamps to the header's end: the header grows by 4 bytes and the page count lands at its old end (below 0x10 bytes the earlier field slices clamp and insert as well) | a 16-byte header with sizes whose fields fit 32 bits | refuse headers shorter than 0x38 bytes, as patch_exheader_fixed.py:59-61 does | high, not executed | ExHeader.ShortHeaderMisplaced | ExHeader.FixedPatchSpec |
