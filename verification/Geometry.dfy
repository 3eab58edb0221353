/**
 Disk shapes and positions on a disk (include/cpm65.inc:164-233; src/bdos/filesystem.S:567-606,
 681-728, 957-978, 1736-1752; src/bdos/core.S:90-116).
 */
module Geometry {
  import opened Bytes
  import opened Bitmap

  datatype Dpb = Dpb(
    blockShift: nat, blockMask: Byte, extentMask: Byte,
    blocksOnDisk: Word,        // DSM: one less than there are blocks
    directoryEntries: Word,    // DRM: one less than there are entries
    al0: bv8, al1: bv8,        // the blocks the directory takes up
    reserved: Word)            // sectors before block 0

  // ---------- the shapes define_dpb makes ----------

  /** A byte with its n top bits set. */
  function TopOnes(n: nat): bv8
  {
    match n
    case 0 => 0x00
    case 1 => 0x80
    case 2 => 0xc0
    case 3 => 0xe0
    case 4 => 0xf0
    case 5 => 0xf8
    case 6 => 0xfc
    case 7 => 0xfe
    case _ => 0xff
  }

  function BlockShift(blockSize: nat): Option<nat>
  {
    match blockSize
    case 1024 => Just(3)
    case 2048 => Just(4)
    case 4096 => Just(5)
    case 8192 => Just(6)
    case 16384 => Just(7)
    case _ => Nothing
  }

  /** Records in a block, for the block shifts the macro knows. */
  function BlockRecords(shift: nat): (r: nat)
    requires 3 <= shift <= 7
  {
    match shift
    case 3 => 8
    case 4 => 16
    case 5 => 32
    case 6 => 64
    case _ => 128
  }

  /** Extents one directory entry describes: sixteen one-byte or eight two-byte block numbers. */
  function EntryExtents(shift: nat, big: bool): nat
    requires 3 <= shift <= 7 && (big ==> shift > 3)
  {
    BlockRecords(shift) / (if big then 16 else 8)
  }

  /** The macro define_dpb; Nothing where it reports an error or a field does not fit. */
  function DefineDpb(sectors: nat, blockSize: nat, dirents: nat, reserved: nat): Option<Dpb>
  {
    match BlockShift(blockSize)
    case Nothing => Nothing
    case Just(shift) =>
      var blocks := sectors * 128 / blockSize;
      var directoryBlocks := dirents * 32 / blockSize;
      if directoryBlocks == 0 || dirents * 32 % blockSize != 0 || directoryBlocks > 16 then Nothing
      else if blocks >= 256 && blockSize == 1024 then Nothing
      else if blocks == 0 || blocks > 0x1_0000 || dirents > 0x1_0000 || reserved >= 0x1_0000 then Nothing
      else
        Just(Dpb(shift, BlockRecords(shift) - 1, EntryExtents(shift, blocks >= 256) - 1, blocks - 1, dirents - 1,
                 TopOnes(directoryBlocks), TopOnes(if directoryBlocks > 8 then directoryBlocks - 8 else 0), reserved))
  }

  /** What the BDOS relies on: a shape of the macro's with blocks of at most 8 kilobytes. */
  ghost predicate Shape(d: Dpb, directoryBlocks: nat)
  {
    && 3 <= d.blockShift <= 6 && d.blockMask == BlockRecords(d.blockShift) - 1
    && (d.blocksOnDisk >= 0xff ==> d.blockShift > 3)
    && d.extentMask == EntryExtents(d.blockShift, d.blocksOnDisk >= 0xff) - 1
    && 1 <= directoryBlocks <= 16
    && d.directoryEntries + 1 == 4 * directoryBlocks * BlockRecords(d.blockShift)
    && (forall b: nat :: b < 16 ==> (Bit([d.al0, d.al1], b) <==> b < directoryBlocks))
  }

  lemma TopOnesBits(n: nat, i: nat)
    requires i < 8
    ensures BitAt(TopOnes(n), 7 - i) <==> i < n
  {
    if n < 8 {
      match n
      case 0 =>
      case 1 =>
      case 2 =>
      case 3 =>
      case 4 =>
      case 5 =>
      case 6 =>
      case 7 =>
    }
  }

  /** The sizes asked for are those the fields stand for. */
  lemma DefinedSizes(sectors: nat, blockSize: nat, dirents: nat, reserved: nat)
    requires DefineDpb(sectors, blockSize, dirents, reserved).Just?
    ensures var d := DefineDpb(sectors, blockSize, dirents, reserved).value;
            && 128 * (d.blockMask + 1) == blockSize && 128 * Power(d.blockShift) == blockSize
            && d.blocksOnDisk + 1 == sectors * 128 / blockSize && d.directoryEntries + 1 == dirents && d.reserved == reserved
            && 128 * 128 * (d.extentMask + 1) == blockSize * if d.blocksOnDisk + 1 >= 256 then 8 else 16
  {
    hide TopOnes;
    match blockSize
    case 1024 =>
    case 2048 =>
    case 4096 =>
    case 8192 =>
    case 16384 =>
  }

  function Power(n: nat): nat { if n == 0 then 1 else 2 * Power(n - 1) }

  lemma DefinedShape(sectors: nat, blockSize: nat, dirents: nat, reserved: nat)
    requires DefineDpb(sectors, blockSize, dirents, reserved).Just?
    requires blockSize < 16384
    ensures Shape(DefineDpb(sectors, blockSize, dirents, reserved).value, dirents * 32 / blockSize)
  {
    hide TopOnes, BitAt;
    var d := DefineDpb(sectors, blockSize, dirents, reserved).value;
    var n := dirents * 32 / blockSize;
    forall b: nat | b < 16
      ensures Bit([d.al0, d.al1], b) <==> b < n
    {
      if b < 8 {
        TopOnesBits(n, b);
      } else {
        TopOnesBits(if n > 8 then n - 8 else 0, b - 8);
      }
    }
    match blockSize
    case 1024 =>
    case 2048 =>
    case 4096 =>
    case 8192 =>
  }

  // ---------- the place of a record in its entry's allocation map ----------

  /** Block numbers take two bytes as soon as the high byte of DSM is not zero. */
  predicate BigDisk(d: Dpb) { Hi(d.blocksOnDisk) != 0 }

  /** The records of a file are numbered through its extents. */
  function RecordNumber(ex: nat, cr: nat): nat { ex * 128 + cr }

  /** The block of the file, counted within the directory entry, that record (ex, cr) is in. */
  function SlotNumber(d: Dpb, ex: Byte, cr: Byte): nat
    requires 3 <= d.blockShift <= 7
  {
    RecordNumber(ex % (d.extentMask + 1), cr) / BlockRecords(d.blockShift)
  }

  /** Offset of that block's number in the FCB. */
  function SlotOffset(d: Dpb, ex: Byte, cr: Byte): nat
    requires 3 <= d.blockShift <= 7
  {
    16 + SlotNumber(d, ex, cr) * if BigDisk(d) then 2 else 1
  }

  /** The number of the record's block, by shifting the two parts into place. */
  method GetFcbBlockIndex(d: Dpb, ghost directoryBlocks: nat, ex: Byte, cr: Byte) returns (y: Byte)
    requires Shape(d, directoryBlocks) && cr < 0x80
    ensures y == SlotOffset(d, ex, cr)
  {
    // The mask is one less than a power of two.
    var a: nat := ex % (d.extentMask + 1);
    var x: nat := 7 - d.blockShift;
    ghost var whole := a;
    while true
      invariant 0 < x <= 7 - d.blockShift && 0 <= a
      invariant a * Pow2(x) == whole * Pow2(7 - d.blockShift)
      decreases x
    {
      a := 2 * a;
      x := x - 1;
      if x == 0 {
        break;
      }
    }
    var start: nat := a;
    a := cr;
    x := d.blockShift;
    while true
      invariant 0 < x <= d.blockShift && 0 <= a
      invariant a / Pow2(x) == cr / Pow2(d.blockShift)
      decreases x
    {
      a := a / 2;
      x := x - 1;
      if x == 0 {
        break;
      }
    }
    SlotParts(d, directoryBlocks, ex, cr);
    a := a + start;
    if d.blocksOnDisk / 0x100 != 0 {
      a := 2 * a;
    }
    y := a + 16;
  }

  function Pow2(n: nat): nat
    requires n <= 7
  {
    match n
    case 0 => 1
    case 1 => 2
    case 2 => 4
    case 3 => 8
    case 4 => 16
    case 5 => 32
    case 6 => 64
    case _ => 128
  }

  lemma SlotParts(d: Dpb, directoryBlocks: nat, ex: Byte, cr: Byte)
    requires Shape(d, directoryBlocks) && cr < 0x80
    ensures SlotNumber(d, ex, cr)
         == (ex % (d.extentMask + 1)) * Pow2(7 - d.blockShift) + cr / Pow2(d.blockShift)
    ensures SlotNumber(d, ex, cr) < if BigDisk(d) then 8 else 16
  {
    hide Bit, BitAt;
    var e: nat := ex % (d.extentMask + 1);
    var c: nat := cr;
    match d.blockShift
    case 3 => assert (e * 128 + c) / 8 == e * 16 + c / 8;
    case 4 => assert (e * 128 + c) / 16 == e * 8 + c / 16;
    case 5 => assert (e * 128 + c) / 32 == e * 4 + c / 32;
    case 6 => assert (e * 128 + c) / 64 == e * 2 + c / 64;
  }

  /** Every record of an extent has its block number inside the 16-byte map. */
  lemma SlotInMap(d: Dpb, directoryBlocks: nat, ex: Byte, cr: Byte)
    requires Shape(d, directoryBlocks) && cr < 0x80
    ensures 16 <= SlotOffset(d, ex, cr) && SlotOffset(d, ex, cr) + (if BigDisk(d) then 1 else 0) < 32
  {
    SlotParts(d, directoryBlocks, ex, cr);
  }

  /** Entries describe whole groups of extents: the extents that differ in the masked bits only. */
  function EntryGroup(d: Dpb, ex: Byte): nat { ex / (d.extentMask + 1) }

  /** Two records of one directory entry share a slot exactly when they share a block of the file. */
  lemma SameSlotSameBlock(d: Dpb, directoryBlocks: nat, ex1: Byte, cr1: Byte, ex2: Byte, cr2: Byte)
    requires Shape(d, directoryBlocks) && cr1 < 0x80 && cr2 < 0x80
    requires EntryGroup(d, ex1) == EntryGroup(d, ex2)
    ensures SlotOffset(d, ex1, cr1) == SlotOffset(d, ex2, cr2)
       <==> RecordNumber(ex1, cr1) / BlockRecords(d.blockShift) == RecordNumber(ex2, cr2) / BlockRecords(d.blockShift)
  {
    GroupedRecord(d, directoryBlocks, ex1, cr1);
    GroupedRecord(d, directoryBlocks, ex2, cr2);
    hide Bit, BitAt, BlockRecords, RecordNumber, EntryExtents;
  }

  /** The blocks of the entries before this one, and the slot. */
  lemma GroupedRecord(d: Dpb, directoryBlocks: nat, ex: Byte, cr: Byte)
    requires Shape(d, directoryBlocks) && cr < 0x80
    ensures RecordNumber(ex, cr) / BlockRecords(d.blockShift)
         == EntryGroup(d, ex) * (16 / if d.blocksOnDisk >= 0xff then 2 else 1) + SlotNumber(d, ex, cr)
  {
    hide Bit, BitAt;
    var m: nat := d.extentMask + 1;
    var g: nat, e: nat, c: nat := ex / m, ex % m, cr;
    assert ex == g * m + e;
    if d.blocksOnDisk >= 0xff {
      match d.blockShift
      case 4 => assert ((g * 1 + e) * 128 + c) / 16 == g * 8 + (e * 128 + c) / 16;
      case 5 => assert ((g * 2 + e) * 128 + c) / 32 == g * 8 + (e * 128 + c) / 32;
      case 6 => assert ((g * 4 + e) * 128 + c) / 64 == g * 8 + (e * 128 + c) / 64;
    } else {
      match d.blockShift
      case 3 => assert ((g * 1 + e) * 128 + c) / 8 == g * 16 + (e * 128 + c) / 8;
      case 4 => assert ((g * 2 + e) * 128 + c) / 16 == g * 16 + (e * 128 + c) / 16;
      case 5 => assert ((g * 4 + e) * 128 + c) / 32 == g * 16 + (e * 128 + c) / 32;
      case 6 => assert ((g * 8 + e) * 128 + c) / 64 == g * 16 + (e * 128 + c) / 64;
    }
  }

  // ---------- sectors ----------

  /** The sector of a record in a block. */
  function Sector(d: Dpb, block: Word, cr: Byte): nat
    requires 3 <= d.blockShift <= 7
  {
    block * BlockRecords(d.blockShift) + cr % BlockRecords(d.blockShift) + d.reserved
  }

  function Triple(lo: Byte, mid: Byte, hi: Byte): nat { 0x1_0000 * hi + 0x100 * mid + lo }

  /** One `asl; rol; rol` over the three bytes of a sector number. */
  method ShiftSector(lo: Byte, mid: Byte, hi: Byte) returns (lo': Byte, mid': Byte, hi': Byte)
    requires Triple(lo, mid, hi) < 0x80_0000
    ensures Triple(lo', mid', hi') == 2 * Triple(lo, mid, hi)
  {
    hide ToByte;
    var low := Rol(lo, false);
    var middle := Rol(mid, low.1);
    var high := Rol(hi, middle.1);
    assert !high.1;
    lo', mid', hi' := low.0, middle.0, high.0;
  }

  /** `rol`: twice the byte and the carry in, and the bit that falls out. */
  function Rol(b: Byte, carry: bool): (r: (Byte, bool))
    ensures r.0 + (if r.1 then 0x100 else 0) == 2 * b + if carry then 1 else 0
  {
    var sum := 2 * b + if carry then 1 else 0;
    (ToByte(sum), b >= 0x80)
  }

  /** Three bytes of a sector number, added up with the carries the code propagates. */
  method GetSequentialSectorNumber(d: Dpb, ghost directoryBlocks: nat, block: Word, cr: Byte)
      returns (lo: Byte, mid: Byte, hi: Byte)
    requires Shape(d, directoryBlocks)
    ensures Triple(lo, mid, hi) == Sector(d, block, cr)
         == block * (d.blockMask + 1) + cr % (d.blockMask + 1) + d.reserved
  {
    hide Bit, Triple, BlockRecords;
    lo, mid, hi := BlockToSector(block, d.blockShift);
    SectorBounds(d, directoryBlocks, block);
    lo, mid, hi := AddByte(lo, mid, hi, cr % (d.blockMask + 1));
    lo, mid, hi := AddWord(lo, mid, hi, d.reserved);
  }

  lemma SectorBounds(d: Dpb, directoryBlocks: nat, block: Word)
    requires Shape(d, directoryBlocks)
    ensures block * Pow2(d.blockShift) == block * BlockRecords(d.blockShift) < 0x40_0000
  {
    hide Bit;
    match d.blockShift
    case 3 =>
    case 4 =>
    case 5 =>
    case 6 =>
  }

  method BlockToSector(block: Word, shift: nat) returns (lo: Byte, mid: Byte, hi: Byte)
    requires 0 < shift <= 6
    ensures Triple(lo, mid, hi) == block * Pow2(shift)
  {
    hide Triple, Pow2;
    lo, mid, hi := Lo(block), Hi(block), 0;
    WholeBlock(block);
    var x: nat := shift;
    while true
      invariant 0 < x <= shift
      invariant Triple(lo, mid, hi) == block * Pow2(shift - x)
      decreases x
    {
      NextPower(block, shift - x);
      lo, mid, hi := ShiftSector(lo, mid, hi);
      x := x - 1;
      if x == 0 {
        break;
      }
    }
  }

  lemma WholeBlock(block: Word)
    ensures Triple(Lo(block), Hi(block), 0) == block * Pow2(0)
  {
  }

  lemma NextPower(block: Word, n: nat)
    requires n < 6
    ensures block * Pow2(n) < 0x80_0000 && block * Pow2(n + 1) == 2 * (block * Pow2(n))
  {
    match n
    case 0 =>
    case 1 =>
    case 2 =>
    case 3 =>
    case 4 =>
    case 5 =>
  }

  method AddByte(lo: Byte, mid: Byte, hi: Byte, b: Byte) returns (lo': Byte, mid': Byte, hi': Byte)
    requires Triple(lo, mid, hi) + b < 0x100_0000
    ensures Triple(lo', mid', hi') == Triple(lo, mid, hi) + b
  {
    var carry;
    mid', hi' := mid, hi;
    var sum := Adc(b, lo, false);
    lo', carry := sum.0, sum.1;
    if carry {
      mid' := ToByte(mid' + 1);
      if mid' == 0 {
        hi' := ToByte(hi' + 1);
      }
    }
  }

  method AddWord(lo: Byte, mid: Byte, hi: Byte, w: Word) returns (lo': Byte, mid': Byte, hi': Byte)
    requires Triple(lo, mid, hi) + w < 0x100_0000
    ensures Triple(lo', mid', hi') == Triple(lo, mid, hi) + w
  {
    hi' := hi;
    var low := Adc(lo, Lo(w), false);
    var middle := Adc(mid, Hi(w), low.1);
    lo', mid' := low.0, middle.0;
    if middle.1 {
      hi' := ToByte(hi' + 1);
    }
  }

  /** Different blocks, or different places in a block, are different sectors behind the reserved ones. */
  lemma SectorsDiffer(d: Dpb, directoryBlocks: nat, b1: Word, cr1: Byte, b2: Word, cr2: Byte)
    requires Shape(d, directoryBlocks)
    ensures d.reserved <= Sector(d, b1, cr1) < 0x100_0000
    ensures Sector(d, b1, cr1) == Sector(d, b2, cr2)
       <==> b1 == b2 && cr1 % BlockRecords(d.blockShift) == cr2 % BlockRecords(d.blockShift)
  {
    hide Bit, BitAt;
    match d.blockShift
    case 3 =>
    case 4 =>
    case 5 =>
    case 6 =>
  }

  /** Block 0 starts behind the reserved sectors, records follow one another, and so do the blocks. */
  lemma SectorsInOrder(d: Dpb, directoryBlocks: nat, block: Word, cr: Byte)
    requires Shape(d, directoryBlocks)
    ensures Sector(d, 0, 0) == d.reserved
    ensures var records := BlockRecords(d.blockShift);
            && records == d.blockMask + 1
            && (cr % records + 1 < records && cr < 0xff ==> Sector(d, block, cr + 1) == Sector(d, block, cr) + 1)
            && (cr % records == 0 && block < 0xffff ==>
                  Sector(d, block + 1, cr) == Sector(d, block, records - 1) + 1 == Sector(d, block, cr) + records)
  {
    var r := BlockRecords(d.blockShift);
    hide Bit, BlockRecords;
    NextPlace(r, cr);
    MoreBlocks(block, r);
  }

  lemma NextPlace(r: nat, cr: nat)
    requires r == 8 || r == 16 || r == 32 || r == 64
    ensures 0 % r == 0 && (r - 1) % r == r - 1 && (cr % r + 1 < r ==> (cr + 1) % r == cr % r + 1)
  {
    var q, m := cr / r, cr % r;
    WholeAndRest(cr, r);
    RestIs(r, 0, 0);
    RestIs(r, 0, r - 1);
    if m + 1 < r {
      RestIs(r, q, m + 1);
    }
  }

  lemma MoreBlocks(block: nat, r: nat)
    ensures (block + 1) * r == block * r + r && 0 * r == 0
  {
  }

  /** calculate_dirent_sector: four entries to a sector; the third byte of the sector number is zero. */
  function DirentSector(d: Dpb, position: Word): Word { ToWord(position / 4 + d.reserved) }

  /** The directory lies in its own blocks: no data sector of another block is a directory sector. */
  lemma DirectoryApart(d: Dpb, directoryBlocks: nat, position: Word, block: Word, cr: Byte)
    requires Shape(d, directoryBlocks) && position <= d.directoryEntries && block >= directoryBlocks
    requires d.reserved + d.directoryEntries / 4 < 0x1_0000
    ensures DirentSector(d, position) == d.reserved + position / 4 < Sector(d, block, cr)
  {
    hide Bit, BitAt;
    match d.blockShift
    case 3 =>
    case 4 =>
    case 5 =>
    case 6 =>
  }

  // ---------- random access ----------

  /** seek_to_random_location: the record number's two low bytes, taken apart into CR, EX and S2. */
  function SplitRecord(r0: Byte, r1: Byte): (r: (Byte, Byte, Byte))
  {
    var cr := r0 % 0x80;
    var carry := r0 / 0x80;
    var ex := ToByte(r1 * 2 + carry) % 0x20;
    var s2 := r1 / 2 / 2 / 2 / 2;
    (cr, ex, s2)
  }

  /** bdos_COMPUTEPOINTER: R0 and R1 from EX, CR and S2, of which the top half is shifted out. */
  function ComputePointer(ex: Byte, cr: Byte, s2: Byte): (r: (Byte, Byte))
    requires cr < 0x80 && ex < 0x20
  {
    (ex % 2 * 0x80 + cr, ToByte(s2 * 0x10) + ex / 2)
  }

  /** The split numbers the records of a file, module by module and extent by extent. */
  lemma SplitNumbers(r0: Byte, r1: Byte)
    ensures var (cr, ex, s2) := SplitRecord(r0, r1);
            && cr < 0x80 && ex < 0x20 && s2 < 0x10
            && RecordNumber(0x20 * s2 + ex, cr) == 0x100 * r1 + r0
            && ComputePointer(ex, cr, s2) == (r0, r1)
  {
    var q: int, m: int := r1 / 0x10, r1 % 0x10;
    var h: int, l: int := r0 / 0x80, r0 % 0x80;
    assert r1 == 0x10 * q + m && r0 == 0x80 * h + l;
    Halvings(r1);
    DoubledLow(q, 2 * m + h);
    HalfOf(m, h);
    ShiftedUp(q);
  }

  lemma Halvings(b: int)
    requires b >= 0
    ensures b / 2 / 2 / 2 / 2 == b / 0x10
  {
  }

  lemma DoubledLow(q: int, rest: int)
    requires 0 <= q < 0x10 && 0 <= rest < 0x20
    ensures ToByte(0x20 * q + rest) % 0x20 == rest
  {
    var sum := 0x20 * q + rest;
    var k := if q >= 8 then 1 else 0;
    assert ToByte(sum) == 0x20 * (q - 8 * k) + rest;
  }

  lemma HalfOf(m: int, h: int)
    requires 0 <= h <= 1
    ensures (2 * m + h) / 2 == m && (2 * m + h) % 2 == h
  {
  }

  lemma ShiftedUp(q: int)
    requires 0 <= q < 0x10
    ensures ToByte(q * 0x10) == q * 0x10
  {
  }

  /** The not-modified flag in the top bit of S2 does not get into the pointer. */
  lemma PointerSplits(ex: Byte, cr: Byte, s2: Byte)
    requires cr < 0x80 && ex < 0x20
    ensures var (r0, r1) := ComputePointer(ex, cr, s2);
            SplitRecord(r0, r1) == (cr, ex, s2 % 0x10)
  {
    var low: int, half: int, odd: int := s2 % 0x10, ex / 2, ex % 2;
    ShiftedOut(s2);
    PointerIs(ex, cr, s2);
    SplitOf(odd, cr, low, half);
    hide ToByte, ComputePointer, SplitRecord;
  }

  lemma SplitOf(odd: int, cr: int, low: int, half: int)
    requires 0 <= odd <= 1 && 0 <= cr < 0x80 && 0 <= low < 0x10 && 0 <= half < 0x10
    ensures SplitRecord(odd * 0x80 + cr, low * 0x10 + half) == (cr, 2 * half + odd, low)
  {
    var r1 := low * 0x10 + half;
    Halvings(r1);
    Quarters(low, half);
    DoubledLow(low, 2 * half + odd);
    HighAndLow(odd, cr);
    hide ToByte;
    assert r1 * 2 + odd == 0x20 * low + (2 * half + odd);
  }

  lemma PointerIs(ex: Byte, cr: Byte, s2: Byte)
    requires cr < 0x80 && ex < 0x20
    ensures ToByte(s2 * 0x10) == s2 % 0x10 * 0x10 ==>
              ComputePointer(ex, cr, s2) == (ex % 2 * 0x80 + cr, s2 % 0x10 * 0x10 + ex / 2)
  {
    hide ToByte;
  }

  lemma Quarters(low: int, half: int)
    requires 0 <= half < 0x10
    ensures (low * 0x10 + half) / 0x10 == low
  {
  }

  lemma ShiftedOut(s2: Byte)
    ensures ToByte(s2 * 0x10) == s2 % 0x10 * 0x10
  {
    var h: int := s2 / 0x10;
    assert s2 * 0x10 == 0x100 * h + s2 % 0x10 * 0x10;
  }

  lemma HighAndLow(high: int, low: int)
    requires 0 <= high <= 1 && 0 <= low < 0x80
    ensures (high * 0x80 + low) / 0x80 == high && (high * 0x80 + low) % 0x80 == low
  {
  }
}
