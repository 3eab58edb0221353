# Verified model of CP/M-65's storage and relocation code

A Dafny model of the parts of CP/M-65 that rewrite data in place and have to agree with each other:

1. **Assembler back end and relocation** (`Bytes`, `Opcodes`, `Records`, `RecordLog`, `Placement`, `Emission`,
   `NibbleStream`, `RelocationWriters`, `RelocationReaders`, `Relocatable`, `Loading`, `Branches`, `Operands`, `Toolchain`,
   `InstructionSet`): the
   record log in the arena, branch relaxation, code emission, the nibble-packed relocation streams with two writers
   and two readers, the result that relocating commutes with assembling elsewhere, and the whole way from a parsed
   log to a relocated program.
2. **BDOS file system** (`Bitmap`, `Geometry`, `Directory`, `Claims`, `Consistency`, `FcbValues`, `Opening`,
   `Closing`, `Deletion`, `Transfers`, `NextWrites`, `Duplicates`, `Login`, `FileSystem`): block allocator, directory search
   with its high-water mark, and the operations login, open, create, read, write, close and delete. The calls
   `OpenFile`, `CreateFile`, `CloseFile`, `ReadSequential`, `WriteSequential` and `DeleteFile` of
   `FileSystem.FileSystem`, and the internal ones that change entries, map or open FCB in steps of their own,
   require and ensure `Inv()` and keep `Orderly()`; `LoginDrive` establishes them on a sane disk. `Inv()` is safety
   on a disk with any number of entries, and `Transfers.AllocationSafety` says what it means. `Orderly()` adds, for
   at most 256 entries, that the mark is right, that keys differ and that the FCB follows its entry. The parts of a
   call that only search (`ReadDirEntry`, `FindFirst`, `FindNext`), touch a field of the FCB (`GetFcbBlock`,
   `SetFcbBlock`, `MoveOn`) or work on the map and the mark (`UpdateBitmapForDirent`, `UpdateCdrmaxField`,
   `StartMap`) say what they do instead.
3. **Apple II 6-and-2 sectors** (`GcrTables`, `GcrSectors`, `SectorCodec`).
4. **KIM-1 write-back sector buffer** (`SectorCache`).
5. **BEdit's line store** (`Lines`, `BasicEditor`).
6. **QE's gap buffer, saving and loading** (`TextFiles`, `Cursor`, `GapBuffer`).
7. **The emulator's file slots** (`OpenFiles`) and **the FCB parser** (`FileNames`).

6502 code is modelled as byte and word arithmetic over explicit state, with the carries, flags and wrap-arounds
the code relies on. `int` of the assembler is the 16-bit one of its target.

`dafny verify dfyconfig.toml` checks the project.

## Where the code does not do what it seems to

Each of these is kept in the model as the code has it, and the members named say exactly when it matters.

- A data block whose number is a multiple of 256 is taken for no block at all (`src/bdos/filesystem.S:525-543`): on a big
  disk the record after it in the block goes to a newly allocated one, and reading reports the end of the file
  (`Consistency.Seen`, `Transfers.WrittenIsFoundExactly`, `NextWrites.AlwaysFoundAgainExactly`). Allocation stays safe all the same.
- Reading sequentially past the end of an extent closes it, which is a hard error for a read-only file or disk
  even though nothing was written (`FileSystem.FileSystem.ReadSequential`).
- Past the last extent a read leaves the FCB naming the blocks of the entry it came from, its first block being next
  (`FileSystem.FileSystem.ReadSequential` says exactly when, `NextWrites.ReadsPastTheEnd` gives such a state for every
  disk). A write then goes into that entry's block, unless it is not seen or not in the entry any more
  (`NextWrites.NextWriteIsOwnExactly`).
- `update_cdrmax` stores the difference of the high bytes, so the mark is wrong for directories of more than 256
  entries, which some ports define (`Directory.UpdateCdrmaxExactly`, `Directory.LoginBoundsExactly`). Files beyond the mark
  are then not found, and a name can be given twice (`Opening.UnfoundExactly`, `Duplicates.TakenIsRefusedExactly`), but
  blocks are still not shared (`FileSystem.FileSystem.Inv` needs no bound on the entries).
- The last block of a disk is never allocated, DSM being one less than there are blocks
  (`Bitmap.Allocator.AllocateUnusedBlock`).
- Merging 16-bit allocation maps misses some mismatches (`Directory.ClashExactly`); a close that goes well then leaves a
  block of the FCB out of the entry (`Closing.NamesAllExactly`).
- `?` in the first byte, and user codes that agree with the deleted mark in seven bits, make searches see some deleted
  entries and miss others (`Directory.TransparentExactly`).
- Jumps and branches of the assembler's structured statements inherit the `<` or `>` of the operand before. In a program
  loaded above page 0 they then miss their labels, unless they are branches over a distance that two bytes can express
  (`Branches.BranchReachesExactly`, `Branches.StructuredJumpExactly`, `Branches.StructuredJumpReachesItsLabel`).
- JSR with a zero page symbol is given two bytes, being its own zero page form (`InstructionSet.JumpForms`,
  `Placement.PassSizes`).
- Closing after a write into an extent that is not the last one of its entry gives the entry that extent and count, and
  so cuts the file short (`FcbValues.KeepsRecordsExactly`).
- `.byte >label` asks for a fix-up of the byte before its own (`Relocatable.OwnMarksExactly`).
- Without room for a new line BEdit has already deleted the old one of that number (`BasicEditor.Editor.LineEntry`), and
  deleting a line that is not there deletes the next (`Lines.SingleExactly`).
- Closing a file the emulator has no slot for takes another file's slot away (`OpenFiles.Files.CloseFile`).

## Model

| member | source | states |
|---|---|---|
| `RecordLog.Arena.EmitByte` | apps/asm.c:764-777 | a byte joins the open byte record, or starts a new one when there is none or it holds 30; the arena is again the layout of the log with that byte appended, every earlier record where it was and as it was |
| `RecordLog.Arena.EmitFill` | apps/asm.c:779-783 | a fill record with its 16-bit count follows the log in the arena |
| `RecordLog.Arena.AddExpressionRecord` | apps/asm.c:785-807 | with a symbol, an expression record of unknown length; without one, the opcode and the low byte, or low and high byte, of the value, as many as it takes, go behind the bytes so far |
| `RecordLog.Arena.AppendSymbol` | apps/asm.c:826-837 | a symbol record links to the one before and becomes the last; a name of more than 23 characters is refused and nothing changes |
| `RecordLog.Arena.CreateLabelDefinition` | apps/asm.c:1308-1317 | a symbol not defined yet becomes a text symbol in place and a label record follows; a defined one is an error and the log stays as it was |
| `RecordLog.Arena.Finish` | apps/asm.c:1593-1594 | the end record follows the log |
| `RecordLog.Arena.Walk` | apps/asm.c:1610-1715 | stepping by the low five bits of the first byte visits exactly the records of the log, in order, and stops at the end record |
| `RecordLog.RunsConcatenate` | apps/asm.c:764-777 | however the byte records split them, they concatenate to the bytes that were emitted |
| `RecordLog.StoredDetermines` | apps/asm.c:785-837 | records that are stored as the same bytes are the same record: the packed arena loses nothing |
| `Opcodes.InvertInverts` | apps/asm.c:1767-1773 | flipping bit 5 of a branch opcode gives the branch that is taken just when the other is not |
| `Opcodes.ShrinkSettles` | apps/asm.c:1661-1667 | an absolute opcode shrunk for a zero page operand is a two-byte one that shrinks no further; JSR alone maps to itself |
| `InstructionSet.AluForms` | apps/asm.c:666-745 | by literal opcodes, the eight forms of ORA, AND, EOR, ADC, STA, LDA, CMP and SBC: their lengths, which one is immediate, and which two have a zero page form and which that is; absolute,Y has three bytes and none |
| `InstructionSet.ShiftForms` | apps/asm.c:666-745 | the same for ASL, ROL, LSR, ROR, DEC and INC |
| `InstructionSet.AddressedForms` | apps/asm.c:666-745 | the same for BIT, STY, LDY, CPY, CPX, STX and LDX |
| `InstructionSet.ImpliedForms` | apps/asm.c:666-745 | the instructions without an operand and the shifts of the accumulator have one byte |
| `InstructionSet.ImmediateForms` | apps/asm.c:666-745 | LDY, LDX, CPY and CPX immediate |
| `InstructionSet.JumpForms` | apps/asm.c:666-745 | JMP, JMP indirect and JSR have three bytes; JSR is its own zero page form |
| `InstructionSet.BranchForms` | apps/asm.c:666-745 | the eight branches, of two bytes each, with the flag each one looks at |
| `Placement.Placer.PlaceCode` | apps/asm.c:1607-1720 | one pass in place over the records: every label gets the 16-bit address of what precedes it, every expression the length its operand calls for, by the instructions of `InstructionSet`, with labels as they were when it was reached; it reports a change exactly if some length differs, and names what went wrong otherwise |
| `Placement.Placer.Relax` | apps/asm.c:2084-2093 | when the loop ends, labels are addresses, every two-byte branch has a displacement in [-128, 127], all other lengths fit their operands, exactly the absolute opcodes with zero page operands have been shrunk, real opcodes are still real, and the total is the text size; with .expand 0 it ends within two passes |
| `Placement.PassLabels` | apps/asm.c:1607-1720 | after any pass a label is the sum of the lengths before it as that pass left them |
| `Placement.RelaxationSound` | apps/asm.c:1680-1692 | a pass other than the first that changes no length leaves every label as it was, so offsets taken over from the pass before were this pass's, and branches are short exactly where the distance allows it |
| `Placement.ShortExactly` | apps/asm.c:1680-1692 | in a relaxed program a branch has two bytes if and only if some displacement byte reaches its target, and five otherwise |
| `Placement.ShortSettles` | apps/asm.c:1680-1692 | with .expand 0 the second pass changes no length |
| `Placement.PassSizes` | apps/asm.c:1642-1667 | every operand that is not a branch has its final length after one pass |
| `Placement.Settling` | apps/asm.c:2086-2093 | what a pass that changes nothing guarantees, for any number of passes, the pass number being a byte that wraps |
| `Emission.ObjectWriter.WriteHeader` | apps/asm.c:1815-1824 | the seven header bytes: zero page use, pages, the address of the relocation table and the jump of the BDOS entry |
| `Emission.ObjectWriter.WriteCode` | apps/asm.c:1724-1813 | with a program counter of one byte only, the code of every record in order, two-byte branches included; `Operands` says what the operands are |
| `Emission.ObjectWriter.WriteTextRelocations` | apps/asm.c:1858-1920 | the stream for the marks of the header and of all text and BSS operands |
| `Emission.ObjectWriter.WriteZPRelocations` | apps/asm.c:1922-1979 | the stream for the marks of all zero page operands |
| `Emission.ObjectWriter.WriteObject` | apps/asm.c:2101-2106 | the file is header, code, zero page stream and text stream |
| `Emission.RelaxedIsMeasured` | apps/asm.c:1724-1813 | after relaxation every record emits just as many bytes as its length says |
| `Emission.CodeSize` | apps/asm.c:1724-1813 | so the code is as long as the addresses assumed |
| `Emission.HeaderBytes` | apps/asm.c:1815-1824 | the page count p of the header is the least with textUsage <= 256p, but zero from 0xff01 on; then the 16-bit text size and a JMP to be filled in |
| `NibbleStream.ItemsDistances` | apps/asm.c:1842-1850 | reading the distances to some offsets adds the addend at exactly those offsets, in order |
| `NibbleStream.AddAllAt` | tools/cpmemu/biosbdos.c:83-89 | what a list of fix-ups does to each single byte: the addend as often as the byte is named |
| `NibbleStream.NoStopInside` | apps/asm.c:1842-1856 | no distance contains the nibble that ends a stream |
| `NibbleStream.PackAt` | apps/asm.c:1831-1840 | each nibble is found again in its half of its byte |
| `RelocationWriters.OutputFile.WriteRelocation` | apps/asm.c:1831-1840 | the half-written byte is told from none by -1, which no buffered nibble is, sign extension included; nibbles written so far are kept |
| `RelocationWriters.OutputFile.FlushRelocations` | apps/asm.c:1852-1856 | the bytes written are the packed nibbles, with or without an odd one |
| `RelocationWriters.ToBytestream` | tools/multilink.cc:58-85 | the linker's two loops give the same bytes for the same offsets as the assembler's incremental writer |
| `RelocationReaders.DoRelocation` | tools/cpmemu/biosbdos.c:83-107 | adds the addend at exactly the encoded offsets and returns the address behind the stream, reading a table that it changes memory around |
| `RelocationReaders.BiosRelocator.RelocateLoop` | src/lib/relocate.S:40-91 | the same for the 6502 reader with its self-modified pointer and byte-wise carries |
| `Relocatable.OperandsThatRelocate` | apps/asm.c:1858-1979 | a record survives both fix-ups for every page if and only if its operand is of a listed form: whole addresses, low halves, high halves in words and immediates, long branches without < or >, zero page operands that do not carry into an emitted high byte |
| `Relocatable.OwnMarksExactly` | apps/asm.c:1858-1920 | every mark is on a byte of its own record if and only if no one-byte constant is the > of a text or BSS symbol |
| `Relocatable.RelocatedByte` | apps/asm.c:1724-1979 | where no mark strays, both passes change each byte of the code as its own record's marks say, expressible operand or not |
| `Relocatable.RelocationCommutes` | apps/asm.c:1724-1979 | for any such log, loaded anywhere, both passes turn the image into exactly the one assembled with text and BSS labels moved by the page and zero page labels by the base; nothing around it changes |
| `Loading.StreamsInPlace` | tools/cpmemu/biosbdos.c:109-113 | the two streams lie behind the image where the header says, out of reach of the fix-ups they ask for |
| `Loading.EmulatorRelocate` | tools/cpmemu/biosbdos.c:109-113 | the emulator's relocation of a whole object file whose marks do not stray adds the page and the zero page base at just its marks, and if the format can express every operand it leaves the image assembled for its load address |
| `Loading.BiosRelocate` | src/lib/relocate.S:13-60 | so does the BIOS's |
| `Operands.OperandInMemory` | apps/asm.c:1724-1813 | in a loaded and relocated program every operand but a branch's is, by the kind of its symbol: the page plus the address for text, the page plus text size plus address for BSS, the zero page base plus address for zero page symbols, with the offset, modulo 65536; low byte first, or the half that < or > asks for; one-byte and word constants likewise |
| `Operands.BssIsOutside` | apps/asm.c:1783-1790 | an absolute operand with a BSS symbol that does not wrap points behind the image |
| `Operands.DataInMemory` | apps/asm.c:1737-1753 | bytes are as they were written and fillings zero, whatever the page |
| `Operands.HeaderInMemory` | apps/asm.c:1815-1824 | the header of a loaded program, whose text size has become the address behind the image |
| `Toolchain.FittingIsReady` | apps/asm.c:2084-2106 | an object file of a relaxed log that fits into memory has a text size that has not wrapped, so it is one that relocation works on |
| `Toolchain.AssembleForEmulator` | tools/cpmemu/biosbdos.c:172-180 | from the log that parsing left to the bytes the CPU runs: relaxed, written, read in at the TPA and relocated; if every operand is expressible those are the bytes assembled for that address |
| `Toolchain.AssembleForBios` | src/lib/relocate.S:13-60 | the same through the BIOS's relocator |
| `Branches.BranchesReachTheirLabels` | apps/asm.c:1755-1777 | in the relocated program every branch, short or inverted over a JMP, goes to the run-time address of its label under the condition of its opcode and past itself otherwise |
| `Branches.BranchReachesExactly` | apps/asm.c:1363-1384 | in a program whose marks do not stray, relocated to any page, a branch, with the < or > of another operand or without, transfers to the run-time address of its label under its condition if and only if it is a two-byte one, or has neither < nor >, or the page is 0 |
| `Branches.StructuredJumpExactly` | apps/asm.c:1350-1434 | a JMP of a structured statement, which inherits the < or > of the operand before, goes to the run-time address of its label, on a page above 0, if and only if there was none |
| `Branches.StructuredJumpReachesItsLabel` | apps/asm.c:1350-1434 | JMP or branch, it reaches the place of the label record, on a page above 0, if and only if it inherited neither < nor > or is a branch of two bytes |
| `Bitmap.ReplaceBits` | src/bdos/utils.S:71-94 | rotating right, replacing the bottom bit and rotating back replaces exactly one bit |
| `Bitmap.WithBitBits` | src/bdos/filesystem.S:1576-1594 | marking a block changes that block's bit and no other |
| `Bitmap.MarkSlotsBits` | src/bdos/filesystem.S:1502-1536 | marking or freeing a list of blocks changes exactly the blocks of the list, zeroes aside |
| `Bitmap.BoundOnScan` | src/bdos/filesystem.S:1602-1613 | the byte-at-a-time bound test is right on a scan from 0 |
| `Bitmap.BoundBeyond` | src/bdos/filesystem.S:1602-1613 | beyond that it is a 16-bit comparison for all blocks if and only if the low byte of DSM is 0 or its high byte is 255 |
| `Bitmap.Allocator.RotateR8` | src/bdos/utils.S:71-83 | the loop rotates right through the bottom bit |
| `Bitmap.Allocator.RotateL8` | src/bdos/utils.S:85-94 | the loop rotates left through the top bit |
| `Bitmap.Allocator.GetBitmapStatus` | src/bdos/filesystem.S:1565-1572 | the bottom bit of the result is the block's |
| `Bitmap.Allocator.UpdateBitmapStatus` | src/bdos/filesystem.S:1576-1594 | the map with that one bit set or cleared |
| `Bitmap.Allocator.AllocateUnusedBlock` | src/bdos/filesystem.S:1598-1640 | the least clear block below DSM, now set, nothing else changed; disk full if and only if all blocks below DSM are set |
| `Geometry.DefinedShape` | include/cpm65.inc:164-233 | every disk the macro accepts with blocks of at most 8 kilobytes has the shape the other results ask for |
| `Geometry.DefinedSizes` | include/cpm65.inc:164-233 | its fields stand for the block size, number of blocks, number of entries and reserved sectors asked for, with as many extents to an entry as its map has blocks for |
| `Geometry.GetFcbBlockIndex` | src/bdos/filesystem.S:569-606 | the shifts give the offset of the record's block number |
| `Geometry.SlotInMap` | src/bdos/filesystem.S:569-606 | it lies inside the sixteen-byte map |
| `Geometry.GroupedRecord` | src/bdos/filesystem.S:569-606 | the slots of an entry are the blocks of the file in order, behind those of the entries before it |
| `Geometry.SameSlotSameBlock` | src/bdos/filesystem.S:569-606 | two records of an entry share a block number if and only if they are in the same block of the file |
| `Geometry.GetSequentialSectorNumber` | src/bdos/filesystem.S:682-728 | the three bytes, with the carries propagated by hand, are block * (blockMask + 1) + CR % (blockMask + 1) + the reserved sectors |
| `Geometry.SectorsInOrder` | src/bdos/filesystem.S:682-728 | block 0 begins behind the reserved sectors; in a block the next record is in the next sector, and the next block behind its last one |
| `Geometry.SectorsDiffer` | src/bdos/filesystem.S:682-728 | sectors are equal if and only if block and place are; all lie behind the reserved ones and fit 24 bits |
| `Geometry.DirectoryApart` | src/bdos/filesystem.S:1736-1752 | no sector of a data block is a directory sector |
| `Geometry.SplitNumbers` | src/bdos/filesystem.S:954-978 | splitting a 16-bit record number into CR, EX and S2 numbers the records, and COMPUTEPOINTER undoes it |
| `Geometry.PointerSplits` | src/bdos/core.S:90-116 | and splitting undoes COMPUTEPOINTER, up to the top half of S2 |
| `FcbValues.PositionIsPointer` | src/bdos/core.S:90-116 | the position that reading and writing move on by one is the record number COMPUTEPOINTER gives |
| `Directory.MatchEntry` | src/bdos/filesystem.S:1230-1268 | the byte loop with its wildcards, the ignored byte and the masked extent decides exactly the matching relation |
| `Directory.MatchesExactly` | src/bdos/filesystem.S:1230-1268 | an FCB matches an entry if and only if, except at its question marks and in byte 13, user, name, type and module agree in seven bits and the extents divided by mask + 1 |
| `Directory.MatchesIsSameKey` | src/bdos/filesystem.S:1230-1268 | without wildcards, matching is having the same user, name, type, extent group and module |
| `Directory.MatchesOwnKeyExactly` | src/bdos/filesystem.S:1230-1268 | an FCB matches the entries of its own key and no others if and only if no byte of it reads as a question mark, which the number of module 63 does |
| `Directory.TransparentExactly` | src/bdos/filesystem.S:1211-1228 | stopping at the high-water mark gives the search of the whole directory for every directory within the mark if and only if the mark is at the end or the first byte does not also match deleted entries |
| `Directory.UpdateCdrmaxExactly` | src/bdos/filesystem.S:1483-1498 | the mark becomes the maximum if and only if it stays or the subtraction leaves the high byte as it is |
| `Directory.LoginBoundsExactly` | src/bdos/filesystem.S:1395-1424 | logging in leaves a mark that bounds the live entries of every directory if and only if there are at most 256 entries |
| `Directory.MergeFcbIntoEntry` | src/bdos/filesystem.S:610-679 | both maps become the merged one, or the first clash that is noticed stops it |
| `Directory.ClashExactly` | src/bdos/filesystem.S:639-644 | on a big disk two numbers pass for equal if and only if the FCB's is at most 255 above the entry's, counted modulo 65536 |
| `Claims.Take` | src/bdos/filesystem.S:1598-1640 | a block that was not marked is nobody's, so it can be held and marked without being shared |
| `Claims.Move` | src/bdos/filesystem.S:610-679 | blocks going from one holder to unused places of another stay held once |
| `Claims.Free` | src/bdos/filesystem.S:316-344 | unmarking one holder's blocks leaves all others' marked |
| `Consistency.TakeBlock` | src/bdos/filesystem.S:798-804 | putting an unmarked block into the open FCB keeps the state safe on every disk, and in order where it was |
| `Consistency.WriteBack` | src/bdos/filesystem.S:283-306 | so does writing the open FCB back, and the FCB still finds that entry |
| `Consistency.MergeStopped` | src/bdos/filesystem.S:293-297 | so does a merge that stops at a clash |
| `Consistency.DropEntry` | src/bdos/filesystem.S:327-334 | so does deleting an entry the open FCB has no blocks from |
| `Consistency.NewEntry` | src/bdos/filesystem.S:190-207 | so does putting down a new entry, with the mark as the code then computes it; its key being new, the state stays in order |
| `Consistency.LeaveBehind` | src/bdos/filesystem.S:446-455 | so does keeping an FCB with its blocks under a key that no search finds |
| `Consistency.FoundExactly` | src/bdos/filesystem.S:1206-1277 | where the mark is right, a search finds an entry if and only if some entry matches |
| `Opening.UnfoundExactly` | src/bdos/filesystem.S:161-170 | an FCB without wildcards finds nothing if and only if all live entries that bear its key are out of the search's reach |
| `FcbValues.RecordsInExtent` | src/bdos/filesystem.S:119-151 | the record count of an opened extent is what is left of the entry's records behind the start of that extent, from 0 to 128 |
| `FcbValues.KeepsRecordsExactly` | src/bdos/filesystem.S:286-291 | an entry that takes over the extent and record count of an FCB keeps what it said about every extent if and only if its own extent was not a later one |
| `FcbValues.CreatedLayout` | src/bdos/filesystem.S:190-207 | a new entry has the user, the FCB's bytes up to the record count, and no blocks |
| `Duplicates.TakenIsRefusedExactly` | src/bdos/filesystem.S:161-226 | after logging in to any sane disk a name that an entry bears is always found, so that creating it again is refused, if and only if there are at most 256 entries |
| `Opening.OpenStep` | src/bdos/filesystem.S:103-151 | an FCB opened with wildcards, on any disk, finds again the entry it was opened from, and shares no block with another |
| `Opening.CreateStep` | src/bdos/filesystem.S:161-226 | after creating, the state is safe on any disk; where the mark is right, searching for the FCB finds the new entry |
| `Closing.NamesAllExactly` | src/bdos/filesystem.S:283-306 | after the FCB was written back, its entry names all of its blocks if and only if the two maps agreed in every place before |
| `Closing.SearchedAlike` | src/bdos/filesystem.S:260-307 | closing changes no search: any FCB finds the same entry as before |
| `Closing.EntryCovers` | src/bdos/filesystem.S:435-521 | where the state is in order, an FCB not flagged as modified finds an entry that covers the record it has just passed |
| `Closing.StartsOver` | src/bdos/filesystem.S:435-521 | an FCB that matched an entry and, moved on by one extent, does so no more is at the first block of its map again |
| `FileSystem.FileSystem.FindFirst` | src/bdos/filesystem.S:1206-1277 | the least matching entry up to where the search stops, with the position on it; else none and the position on -1 |
| `FileSystem.FileSystem.FindNext` | src/bdos/filesystem.S:1211-1277 | the next one behind the position |
| `FileSystem.FileSystem.OpenFile` | src/bdos/filesystem.S:98-151 | opens if and only if the search finds an entry, which where the mark is right means that some entry matches; the FCB is the entry's under the extent asked for, with what is left of the entry's records from there, 0 to 128, as record count, CR and behind as they were and the drive in place, and finds that entry again; safety and order are kept |
| `FileSystem.FileSystem.CreateFile` | src/bdos/filesystem.S:156-226 | fails if and only if the search finds the name or no entry is deleted, with the FCB as it was or emptied; with a deleted entry it goes well if and only if no entry in reach of the search bears the key: that entry becomes the new one, the mark is updated and the FCB is the empty one of that name; safety and order are kept |
| `FileSystem.FileSystem.CloseFile` | src/bdos/filesystem.S:260-307 | an unmodified FCB needs nothing; else the entry found gets record count, extent and merged map, and it is the one the FCB has its blocks from; it names all of them if and only if the maps agreed; fails if and only if none is found or a clash is noticed; the rest of the FCB, drive included, stays, and it is then flagged as not modified; safety and order are kept |
| `FileSystem.FileSystem.GetFcbBlock` | src/bdos/filesystem.S:525-543 | the block number of the current record, low byte first on big disks, and a zero flag that is then only that of the low byte |
| `FileSystem.FileSystem.SeekToBlockAndCreate` | src/bdos/filesystem.S:798-846 | the sector of the record in the FCB's block, or in the least free block if none is seen; the disk is full if and only if there is none |
| `FileSystem.FileSystem.WriteSequential` | src/bdos/filesystem.S:732-793 | writes at the right place of the right block of the extent, crossing to the next one, opened or created, when full; the position goes on by one, a record count below the new CR becomes that, and then, or if the block is new, the FCB is flagged as modified; within an extent the block is NextBlock, and the call is abandoned if and only if there is none; the directory is full if and only if the next extent is not found and no entry is deleted; changes no other live entry; safety and order are kept, also for an FCB left behind by a read |
| `FileSystem.FileSystem.WriteThenClose` | src/bdos/filesystem.S:732-793 | from a state in order, a write followed by a close that goes well leaves the entry covering the record that was written |
| `FileSystem.FileSystem.ReadSequential` | src/bdos/filesystem.S:435-521 | reads the record's sector, the position going on by one, or reports no data; a full read-only or write-protected extent ends in a hard error, if and only if; else a full extent goes on to the entry found for the FCB moved on by one, and if and only if there is none the FCB is left behind: it reports no data, keeps its blocks, is at its first slot, and where the state was in order that is the first block of the entry it came from |
| `FileSystem.FileSystem.DeleteFile` | src/bdos/filesystem.S:316-344 | of the entries a search looks at, which are all where the mark is right, exactly the matching live ones are marked deleted and exactly their blocks freed; a hard error if and only if the first match is read only; safety and order are kept |
| `Deletion.AllReached` | src/bdos/filesystem.S:316-344 | where the mark is right, deleting among the entries a search looks at is deleting in the whole directory |
| `Deletion.GoesExactly` | src/bdos/filesystem.S:316-344 | the entries that go are the live ones with the user, name and type of the FCB in seven bits, question marks fitting everything, whatever their extent |
| `FileSystem.FileSystem.LoginDrive` | src/bdos/filesystem.S:1342-1424 | below DSM a bit is set if and only if the block is reserved by the DPB or named by a live entry; on a sane disk of any number of entries the state is safe, and with at most 256 of different keys it is in order |
| `FileSystem.FileSystem.UpdateBitmapForDirent` | src/bdos/filesystem.S:1502-1536 | marks or frees exactly the blocks of the entry |
| `Login.LoginEstablishes` | src/bdos/filesystem.S:1342-1424 | what logging in leaves is safe for every disk whose live entries have different blocks of the data area, and in order if there are at most 256 of different keys |
| `Transfers.AllocationSafety` | src/bdos/filesystem.S:1598-1640 | in every safe state, on a disk of any number of entries, no block is in two places, the FCB's blocks are in no other entry than the one it has them from, and an unmarked block is behind the directory and in use nowhere |
| `Transfers.FcbBlockIsOwn` | src/bdos/filesystem.S:525-562 | each block of the open FCB is marked, a data block, and in no live entry but the one the FCB has its blocks from |
| `Transfers.OwnSectorIsNoOthers` | src/bdos/filesystem.S:682-728 | no sector of it is a sector of another entry's block or of the directory |
| `Transfers.WrittenIsFoundExactly` | src/bdos/filesystem.S:435-480 | what was just written is found again by reading if and only if its block is no multiple of 256 |
| `NextWrites.NoNextExactly` | src/bdos/filesystem.S:798-846 | there is no block for the next record if and only if none is seen in its slot and all blocks below DSM are marked |
| `NextWrites.NextWriteIsOwnExactly` | src/bdos/filesystem.S:732-846 | the next write stays out of every live entry but the one the FCB finds if and only if the FCB finds the entry it has its blocks from, or sees no block in its slot, or that block is no longer in that entry |
| `NextWrites.ReadsPastTheEnd` | src/bdos/filesystem.S:435-521 | on every disk there is a safe state, in order if it has at most 256 entries, in which a read past the end leaves the FCB behind with its next write going to a block of a live entry |
| `NextWrites.AlwaysFoundAgainExactly` | src/bdos/filesystem.S:732-846 | in every safe state what the next write puts down is found again by reading, if and only if DSM is at most 256 |
| `GcrTables.SixtyFourCodes` | src/arch/apple2e/apple2e.S:126-155 | the loop's criterion accepts exactly 64 codes, whose nibbles are those of the literal table in order |
| `GcrTables.NibbleTable` | src/arch/apple2e/apple2e.S:126-155 | the nibble of each value, by the literal table of the 6-and-2 encoding |
| `SectorCodec.Codec.Rejects` | src/arch/apple2e/apple2e.S:128-142 | the two bit tests reject exactly the codes without a pair of ones or with more than one pair of zeros |
| `SectorCodec.Codec.BuildTables` | src/arch/apple2e/apple2e.S:126-155 | the encoding table is the literal list of the 64 nibbles, and the decoding one undoes it |
| `SectorCodec.Codec.Precompute` | src/arch/apple2e/apple2e.S:1213-1242 | three passes of 86 from any old contents leave byte y with its upper six bits at sixes[y] and its bit 1 and bit 0 as bits 2k and 2k + 1 of twos[85 - y % 86], k being y / 86; the spare pairs hold bits of bytes 1 and 0 again, and all values are below 64 |
| `SectorCodec.Codec.Emit` | src/arch/apple2e/apple2e.S:1317-1358 | the 343 nibbles are the chain of differences of the values, ended by the last value |
| `GcrSectors.StreamOrder` | src/arch/apple2e/apple2e.S:1317-1358 | in this order: twos[85], then each pair of neighbours of the twos down to the first, the first two with the first six, each pair of neighbours of the sixes, and the last six |
| `SectorCodec.Codec.ReadStream` | src/arch/apple2e/apple2e.S:996-1034 | the running value at each place, and acceptance exactly if the last is zero |
| `SectorCodec.Codec.Recombine` | src/arch/apple2e/apple2e.S:1038-1052 | whatever the buffers held, the upper six bits of byte y are those of the old byte and its bits 1 and 0 are bits 2k and 2k + 1 of twos[85 - y % 86], k being y / 86 |
| `GcrSectors.SectorRoundTrip` | src/arch/apple2e/apple2e.S:996-1052 | every sector that is written is accepted and read back |
| `SectorCodec.Codec.WriteThenRead` | src/arch/apple2e/apple2e.S:996-1358 | with the tables as built, splitting, writing, reading into the same buffer and joining is accepted and leaves the data as they were |
| `GcrSectors.AcceptsExactly` | src/arch/apple2e/apple2e.S:996-1034 | a stream of valid nibbles is accepted if and only if it is what the writer makes of the values read from it |
| `GcrSectors.OneNibbleOff` | src/arch/apple2e/apple2e.S:996-1034 | one nibble that comes back as another valid one is always noticed |
| `SectorCache.Divide` | src/arch/kim-1/kim-1-k1013.S:106-118 | sixteen shift-and-subtract steps give quotient and remainder by 52 |
| `SectorCache.PlacesExactly` | src/arch/kim-1/kim-1-k1013.S:120-131 | two numbers get the same place and half if and only if they are equal modulo 256 tracks |
| `SectorCache.HostLayout` | src/arch/kim-1/kim-1-k1013.S:120-131 | byte i of record n is byte 128 (n % 2) + i of host sector n % 52 / 2 on track n / 52 |
| `SectorCache.Driver.SetSec` | src/arch/kim-1/kim-1-k1013.S:88-131 | only the address asked for changes |
| `SectorCache.Driver.ChangeSector` | src/arch/kim-1/kim-1-k1013.S:146-207 | the buffer holds the sector asked for, a dirty one having been written first; the disk programs see is the same |
| `SectorCache.Driver.Read` | src/arch/kim-1/kim-1.S:292-310 | the data are those of a plain map from drive and number to 128 bytes |
| `SectorCache.Driver.Write` | src/arch/kim-1/kim-1.S:312-341 | the plain map changes in that record alone; with a nonzero argument the host disk agrees with the buffer |
| `SectorCache.Driver.Serve` | src/arch/kim-1/kim-1.S:292-341 | any run of requests gets the answers, and leaves the disk, of the plain map |
| `Lines.EncodedOnce` | apps/bedit.asm:769-791 | the bytes up to the final zero can be read as lines in one way only |
| `Lines.LineAt` | apps/bedit.asm:982-1071 | each line is its length in bytes, its number low byte first, and its text, and the next line follows |
| `BasicEditor.Editor.TestLineNumber` | apps/bedit.asm:704-728 | the flags compare the numbers as 16-bit values |
| `BasicEditor.Editor.FindLine` | apps/bedit.asm:748-767 | stops at the first line with at least the number, or the end |
| `BasicEditor.Editor.InsertLine` | apps/bedit.asm:982-1071 | moving the rest of the document up in place inserts exactly one line before the current one, if and only if it fits below himem; else nothing changes |
| `BasicEditor.Editor.DeleteCurrentLine` | apps/bedit.asm:1073-1132 | moving the rest down in place removes exactly that line; at the end nothing changes |
| `BasicEditor.Editor.LineEntry` | apps/bedit.asm:1209-1274 | the document with that line entered; without room, the document with an old line of the number already gone |
| `BasicEditor.Editor.DeleteLines` | apps/bedit.asm:1134-1153 | removes the run of lines from the first of at least the first number to the last of at most the last |
| `Lines.EnteredExactly` | apps/bedit.asm:1209-1274 | ascending numbers stay ascending; the line is in, any other of its number out, all others stay |
| `Lines.RemovedExactly` | apps/bedit.asm:1134-1153 | in an ascending document exactly the lines of the range go |
| `Lines.RangeExactly` | apps/bedit.asm:884-942 | what each form of the range takes out: everything, from a number on, or between two numbers |
| `Lines.SingleExactly` | apps/bedit.asm:884-942 | deleting one number does what it says if and only if the line exists or none of a higher number does |
| `GapBuffer.Buffer.CursorHome` | apps/qe.c:565-569 | the document stays; the cursor is at the start of its line |
| `GapBuffer.Buffer.CursorEnd` | apps/qe.c:571-575 | at its end |
| `GapBuffer.Buffer.CursorLeft` | apps/qe.c:577-584 | so many places left, within the line |
| `GapBuffer.Buffer.CursorRight` | apps/qe.c:586-593 | so many right, within the line |
| `GapBuffer.Buffer.CursorDown` | apps/qe.c:595-607 | so many lines down in the column each step allows; current_line is the start of the cursor's line |
| `GapBuffer.Buffer.CursorUp` | apps/qe.c:610-627 | so many lines up |
| `GapBuffer.Buffer.CursorWordRight` | apps/qe.c:664-679 | at the next boundary so many times; the byte behind the buffer makes no difference |
| `GapBuffer.Buffer.GotoLine` | apps/qe.c:751-769 | over so many newlines, 0 counting as 65536 |
| `Cursor.ForwardCounts` | apps/qe.c:751-769 | that is the start of the line with just so many newlines before it, if there is one, else the end |
| `Cursor.DownLands` | apps/qe.c:595-607 | one line down the cursor is in the same column, or at the end of a line too short for that |
| `Cursor.DownByCounts` | apps/qe.c:595-607 | so many newlines further on if there are as many, else at the end of the text |
| `Cursor.UpLands` | apps/qe.c:610-627 | one line up likewise |
| `Cursor.UpByCounts` | apps/qe.c:610-627 | so many newlines back, else at the start |
| `Cursor.WordsBegin` | apps/qe.c:629-637 | a boundary is before a letter or digit that follows something else, or before anything but white space that follows white space |
| `Cursor.UpUndoesDownExactly` | apps/qe.c:595-627 | up undoes down if and only if the next line reaches as far |
| `GapBuffer.Buffer.SaveFile` | apps/qe.c:456-489 | the records are the text with a return before each newline, filled up with ^Z; a whole record of ^Z more exactly if that is full already and the gap is behind the text |
| `GapBuffer.Buffer.InsertFile` | apps/qe.c:398-423 | what is read goes before the cursor until there is no room, which is reported if and only if there is more |
| `GapBuffer.Buffer.LoadFile` | apps/qe.c:433-441 | the document is what the file holds, or as much of it as fits, and the cursor is at its start |
| `TextFiles.SavedReadsBackExactly` | apps/qe.c:398-489 | a saved document reads back if and only if it has no return and no ^Z in it; the file is whole records |
| `TextFiles.SavedLayout` | apps/qe.c:456-489 | every 10 in the file has a 13 before it, and every 13 of a text without returns a 10 behind it; only 26s follow, fewer than a record, or up to a whole one if the gap is behind the text |
| `TextFiles.ReadsEach` | apps/qe.c:398-423 | reading keeps each byte but 13s up to the first 26 |
| `GapBuffer.Buffer.SaveThenLoad` | apps/qe.c:398-489 | saved at any gap position and loaded into the same buffer, a document always fits, and is the same if and only if it has no return and no ^Z in it |
| `OpenFiles.Files.Bump` | tools/cpmemu/fileio.c:85-102 | relinking takes the slot to the head and keeps the others in order, in both directions, over all sixteen |
| `OpenFiles.Files.FindFile` | tools/cpmemu/fileio.c:236-269 | a present name gives its slot, the only one if it is not blank, and changes nothing; else the last slot of the list is taken over, its descriptor closed: every other slot was taken to the head since that one was; names stay unique |
| `OpenFiles.Files.CloseFile` | tools/cpmemu/fileio.c:288-303 | blanks the name but not the drive; a file without a slot first costs another its own |
| `OpenFiles.RecentFirst` | tools/cpmemu/fileio.c:85-102 | in any run of bumps a slot is before every one not bumped since |
| `OpenFiles.LastIsLongest` | tools/cpmemu/fileio.c:236-269 | so in the list a run of the operations leaves, every slot was bumped after the last one was |
| `FileNames.IsTerminatorChar` | src/bdos/parsefcb.S:175-191 | the table search decides the set of terminators |
| `FileNames.ParseFcb` | src/bdos/parsefcb.S:12-173 | the FCB, pointer and error of the parse as specified: drive, eight and three characters padded or starred, four zeroes |
| `FileNames.FieldCharacters` | src/bdos/parsefcb.S:90-173 | a field is the capitals of the characters up to a terminator or a star, then spaces or, for a star, question marks |
| `FileNames.TerminatorsAre` | src/bdos/parsefcb.S:175-191 | the terminators as literal characters |
| `FileNames.CaseIsIgnored` | src/bdos/parsefcb.S:12-173 | a text and any capitalised form of it parse alike |
| `FileNames.PrintedParsesExactly` | apps/qe.c:79-106 | parsing what was printed gives the FCB back without error if and only if it is well formed; the pointer is on the final zero |
| `FileNames.ParsedIsWellFormed` | src/bdos/parsefcb.S:12-173 | whatever the text, name and type come out well formed, and the error says just that the drive is not below 16 |
| `FileNames.ReparseIsSame` | src/bdos/parsefcb.S:12-173 | printing and parsing again gives the same FCB |

## Left out

- FileSystem.FileSystem.LoginDrive: requires a directory whose entries name blocks inside the map, because the code writes bits outside it otherwise; the first 16 blocks must be on the disk.
- FileSystem.FileSystem.WriteSequential: does not model files beyond module 62, because module 63 of a modified FCB reads as a wildcard in the search (`Directory.MatchesOwnKeyExactly`); requires CR of at most 128.
- FileSystem.FileSystem.ReadSequential: the same, and requires that a CR of 128 comes with an RC of 128, because the code would take a block number from behind the map otherwise.
- FileSystem.FileSystem.OpenFile: asks for an extent byte that is not a question mark, because the FCB keeps it and would match other extents when it is closed.
- FileSystem.FileSystem.CreateFile: asks for a name without wildcards, which the code does not check and which would give an entry with a wildcard in it.
- FileSystem.FileSystem.DeleteFile: asks that the entry the open FCB has its blocks from is not among those deleted.
- FileSystem.FileSystem.Inv: is for block shifts 3 to 6, a DSM of at least 16 and at most 65528, because the code adds 7 to it in 16 bits, one open FCB, user codes that are neither `?` nor like the deleted mark, and entries without wildcards.
- FileSystem.FileSystem.Orderly: is for disks of at most 256 directory entries, where the mark is right (`Directory.LoginBoundsExactly`).
- Placement.Placer.Relax: the loop is bounded by a parameter, because with long branches a pass mixes offsets of the pass before with the current ones and need not settle; for `.expand 0` the end within two passes is proved, and branches that could be short are short only for up to 256 passes, the pass number being a byte.
- Placement.Placer.PlaceCode: works on the list of records the arena stands for; that the arena stands for one, and how records are packed into it, is `RecordLog`.
- RecordLog.Arena.EmitByte: requires room in the arena, because the code never checks for it; so do the other members that add records.
- Relocatable.RelocationCommutes: requires an image that fits the 16-bit address space.
- Loading.EmulatorRelocate: requires a program without a `>` of a text or BSS symbol in a one-byte constant, whose mark falls on the record before; so do the other results on relocated memory.
- Lexer, expression parser, scopes, .zp, .bss and equates of the assembler, and its symbol file.
- Multilink's comparing of three links and its ELF reading; only the encoding of offsets is modelled.
- Random reads and writes but for the number split, file size, rename, attributes, search results in the DMA buffer, and the drive vectors.
- Zero-filling of new blocks and block shift 7.
- The sector buffer under the directory: the directory is modelled as what is on the disk, which is what a search from the start reads again.
- SectorCodec.Codec.ReadStream: bytes below the least nibble, which index in front of the table, are required not to come; the retry loop, headers, timing and the other sectors of a track are not part of this model.
- SectorCache.Driver.Read: host input and output always succeed, because after a failed seek the code leaves a dirty buffer without a place; sectors on track 255 and beyond are excluded, as that track marks an empty buffer.
- BasicEditor.Editor.LineEntry: takes the number and the text as parsed; command parsing, listing, renumbering, loading and saving are not part of this model.
- GapBuffer.Buffer.SaveFile: the host stores every record; file creation, renaming and error paths are left out.
- GapBuffer.Buffer.InsertFile: a file is whole records without read errors.
- QE's cursor_wordleft, deletion, insertion and all drawing.
- OpenFiles.Files.FindFile: opening, reading and writing host files are left out; a closed descriptor is returned instead.
- FileNames.ParseFcb: texts of up to 255 bytes with a zero at the end, because the index is one byte.
- The bitwise or of a nibble into a value with clear low bits is modelled as an addition, and loops that copy a fixed number of FCB bytes as slices.
- Terminal, screen, serial and floppy drivers, timing, and the CPU itself.
