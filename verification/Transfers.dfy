/** Reading and writing in sequence, as steps on values (src/bdos/filesystem.S:435-480, 525-562, 732-846). */
module Transfers {
  import opened Bytes
  import opened Bitmap
  import opened Geometry
  import opened Directory
  import opened Consistency
  import opened FcbValues

  datatype Transfer =
    | AtSector(sector: nat)   // where the record is written to or read from
    | NoData                  // end of file
    | DirectoryFull
    | Abandoned               // a hard error

  /** The least unused block has gone into slot k and is marked. */
  ghost predicate TookLeast(v: Volume, f: Fcb, k: nat, bits: seq<bv8>, f': Fcb, bits': seq<bv8>)
  {
    var big := BigDisk(v.dpb);
    && k < |Slots(big, f)|
    && var block := Slots(big, f')[k];
       && Slots(big, f') == Slots(big, f)[k := block]
       && v.directoryBlocks <= block < v.dpb.blocksOnDisk && Covers(bits, v.dpb.blocksOnDisk)
       && !Bit(bits, block) && AllUsed(bits, 0, block)
       && bits' == WithBit(bits, block, true)
  }

  /** And nothing but the slot and the flag is different. */
  ghost predicate TookBlock(v: Volume, f: Fcb, k: nat, bits: seq<bv8>, f': Fcb, bits': seq<bv8>)
  {
    TookLeast(v, f, k, bits, f', bits') && f'[..AL] == f[..AL][S2 := f[S2] % 0x80] && f'[CR..] == f[CR..]
  }

  /** A block is taken from the map only if the FCB has none to be seen, and then it is the least. */
  ghost predicate TookIfUnseen(v: Volume, f: Fcb, k: nat, bits: seq<bv8>, f': Fcb, bits': seq<bv8>)
  {
    var big := BigDisk(v.dpb);
    && k < |Slots(big, f)|
    && if Seen(big, Slots(big, f)[k]) then Slots(big, f') == Slots(big, f) && bits' == bits
       else TookLeast(v, f, k, bits, f', bits')
  }

  lemma Unflagged(v: Volume, f: Fcb, g: Fcb)
    requires g == f[S2 := f[S2] % 0x80]
    ensures Slots(BigDisk(v.dpb), g) == Slots(BigDisk(v.dpb), f)
    ensures g[EX] == f[EX] && g[CR] == f[CR]
    ensures g[..S2] == f[..S2] && g[CR..] == f[CR..] && g[..AL] == f[..AL][S2 := f[S2] % 0x80]
  {
  }

  lemma SameKeyPart(f: Fcb, g: Fcb)
    requires f[..AL] == g[..AL][S2 := g[S2] % 0x80]
    ensures f[1..S2] == g[1..S2] && f[S2] == g[S2] % 0x80 && f[EX] == g[EX]
  {
    assert forall y :: 0 <= y < AL ==> f[y] == f[..AL][y];
    assert forall y :: 0 <= y < S2 ==> f[..AL][y] == g[y];
  }

  /** A block of the open FCB: a data block, marked as used, and in no other live entry. */
  ghost predicate OwnBlock(v: Volume, s: State, block: Word)
  {
    && v.directoryBlocks <= block <= v.dpb.blocksOnDisk && block / 8 < |s.bits| && Bit(s.bits, block)
    && forall i :: 0 <= i < |s.directory| && Live(s.directory[i]) && s.home != Just(i) ==>
         block !in Slots(BigDisk(v.dpb), s.directory[i])
  }

  lemma FcbBlockIsOwn(v: Volume, s: State, k: nat)
    requires Safe(v, s) && s.open && k < |Slots(BigDisk(v.dpb), s.fcb)| && Slots(BigDisk(v.dpb), s.fcb)[k] != 0
    ensures OwnBlock(v, s, Slots(BigDisk(v.dpb), s.fcb)[k])
  {
    var big, h, n := BigDisk(v.dpb), Holdings(v, s), |s.directory|;
    var block := Slots(big, s.fcb)[k];
    var j := match s.home case Just(i) => if Slots(big, s.directory[i])[k] == block then i else n case Nothing => n;
    hide Slots, SaneEntries, Search, Fit, Live, SaneFcb, EntryKey, AllUsed, Faithful, Saved, Bit;
    assert h[j][k] == block;
    forall i | 0 <= i < |s.directory| && Live(s.directory[i]) && s.home != Just(i)
      ensures block !in Slots(big, s.directory[i])
    {
      assert h[i] == Slots(big, s.directory[i]);
    }
  }

  /**
   What safety comes to: no block is in two places, all blocks in use are marked and lie behind
   the directory, so an unmarked block, which is what the allocator hands out, is nobody's.
   */
  lemma AllocationSafety(v: Volume, s: State)
    requires Safe(v, s)
    ensures forall i, t, j, u ::
              && 0 <= i < |s.directory| && Live(s.directory[i]) && 0 <= t < |Slots(BigDisk(v.dpb), s.directory[i])|
              && 0 <= j < |s.directory| && Live(s.directory[j]) && 0 <= u < |Slots(BigDisk(v.dpb), s.directory[j])|
              && Slots(BigDisk(v.dpb), s.directory[i])[t] == Slots(BigDisk(v.dpb), s.directory[j])[u] != 0
              ==> i == j && t == u
    ensures s.open ==> forall k :: 0 <= k < |Slots(BigDisk(v.dpb), s.fcb)| && Slots(BigDisk(v.dpb), s.fcb)[k] != 0 ==>
              OwnBlock(v, s, Slots(BigDisk(v.dpb), s.fcb)[k])
    ensures forall block: Word :: 0 < block < v.dpb.blocksOnDisk && block / 8 < |s.bits| && !Bit(s.bits, block) ==>
              && v.directoryBlocks <= block
              && (forall i :: 0 <= i < |s.directory| && Live(s.directory[i]) ==> block !in Slots(BigDisk(v.dpb), s.directory[i]))
              && (s.open ==> block !in Slots(BigDisk(v.dpb), s.fcb))
  {
    var h := Holdings(v, s);
    hide Slots, Bit, OwnBlock, Tied, SaneEntries, Fit, Live, BigDisk;
    assert forall i :: 0 <= i < |s.directory| && Live(s.directory[i]) ==> h[i] == Slots(BigDisk(v.dpb), s.directory[i]);
    if s.open {
      forall k | 0 <= k < |Slots(BigDisk(v.dpb), s.fcb)| && Slots(BigDisk(v.dpb), s.fcb)[k] != 0
        ensures OwnBlock(v, s, Slots(BigDisk(v.dpb), s.fcb)[k])
        ensures var b := Slots(BigDisk(v.dpb), s.fcb)[k]; b / 8 < |s.bits| && Bit(s.bits, b)
      {
        FcbBlockIsOwn(v, s, k);
        OwnIsMarked(v, s, Slots(BigDisk(v.dpb), s.fcb)[k]);
      }
    }
  }

  lemma OwnIsMarked(v: Volume, s: State, block: Word)
    requires OwnBlock(v, s, block)
    ensures block / 8 < |s.bits| && Bit(s.bits, block)
  {
  }

  /** A sector of such a block holds no record of another entry, and no entries. */
  lemma OwnSectorIsNoOthers(v: Volume, s: State, block: Word, cr: Byte)
    requires Safe(v, s) && OwnBlock(v, s, block)
    ensures forall i, t, c: Byte ::
              0 <= i < |s.directory| && Live(s.directory[i]) && s.home != Just(i)
              && 0 <= t < |Slots(BigDisk(v.dpb), s.directory[i])|
              ==> Sector(v.dpb, block, cr) != Sector(v.dpb, Slots(BigDisk(v.dpb), s.directory[i])[t], c)
    ensures v.dpb.reserved + v.dpb.directoryEntries / 4 < 0x1_0000 ==>
              forall i: Word :: i < |s.directory| ==> DirentSector(v.dpb, i) < Sector(v.dpb, block, cr)
  {
    assert 3 <= v.dpb.blockShift <= 7;
    VolumeFacts(v, s);
    hide Slots, Safe, Live, Bit, Sector, Shape;
    forall i, t, c: Byte | 0 <= i < |s.directory| && Live(s.directory[i]) && s.home != Just(i)
                           && 0 <= t < |Slots(BigDisk(v.dpb), s.directory[i])|
      ensures Sector(v.dpb, block, cr) != Sector(v.dpb, Slots(BigDisk(v.dpb), s.directory[i])[t], c)
    {
      SectorsDiffer(v.dpb, v.directoryBlocks, block, cr, Slots(BigDisk(v.dpb), s.directory[i])[t], c);
    }
    if v.dpb.reserved + v.dpb.directoryEntries / 4 < 0x1_0000 {
      forall i: Word | i < |s.directory|
        ensures DirentSector(v.dpb, i) < Sector(v.dpb, block, cr)
      {
        DirectoryApart(v.dpb, v.directoryBlocks, i, block, cr);
      }
    }
  }

  /**
   The count covers the record that was written; and the flag that says "not modified" is gone if the
   count is that record's or a block had to be taken.
   */
  ghost predicate CountAndFlag(v: Volume, f: Fcb, k: nat, f': Fcb)
  {
    && f'[RC] == (if f'[CR] > f[RC] then f'[CR] else f[RC])
    && k < |Slots(BigDisk(v.dpb), f)|
    && (f'[CR] >= f[RC] || !Seen(BigDisk(v.dpb), Slots(BigDisk(v.dpb), f)[k]) ==> f'[S2] == f[S2] % 0x80)
    && (f'[CR] < f[RC] && Seen(BigDisk(v.dpb), Slots(BigDisk(v.dpb), f)[k]) ==> f'[S2] == f[S2])
  }

  /** What a record is written to is the FCB's own block; the FCB is ready for the next record. */
  ghost predicate WroteAt(v: Volume, s: State, f: Fcb, k: nat, f': Fcb, sector: nat)
    requires Fit(v)
  {
    && SaneFcb(f') && f'[..S2] == f[..S2] && f'[S2] % 0x80 == f[S2] % 0x80
    && f'[CR] as int == f[CR] as int + 1 && f'[CR + 1..] == f[CR + 1..]
    && CountAndFlag(v, f, k, f') && k < |Slots(BigDisk(v.dpb), f')|
    && var block := Slots(BigDisk(v.dpb), f')[k];
       && sector == Sector(v.dpb, block, f[CR])
       && OwnBlock(v, s, block)
  }

  lemma WroteSameKey(v: Volume, s: State, f: Fcb, k: nat, f': Fcb, sector: nat)
    requires Fit(v) && WroteAt(v, s, f, k, f', sector)
    ensures f'[1..S2] == f[1..S2] && f'[S2] % 0x80 == f[S2] % 0x80
  {
    hide Slots, Sector, OwnBlock, SaneFcb, Fit;
    assert forall y :: 0 <= y < S2 ==> f'[y] == f'[..S2][y] == f[y];
  }

  /** The FCB after a record was written: on to the next, with the count and the flag brought up to date. */
  function AdvancedFcb(f: Fcb): Fcb
  {
    var a, h := Inc(f[CR]), f[CR := Inc(f[CR])];
    if a >= f[RC] then h[RC := a][S2 := h[S2] % 0x80] else h
  }

  /** From the state s0, after the block was found or taken, and after the FCB has gone on to the next record. */
  lemma RecordWritten(v: Volume, s0: State, s: State, k: nat, g: Fcb, sector: nat)
    requires Safe(v, s0) && s0.open && Safe(v, s) && s == s0.(fcb := s.fcb, bits := s.bits)
    requires s0.fcb[CR] < 0x80 && k < |Slots(BigDisk(v.dpb), s.fcb)|
    requires sector == Sector(v.dpb, Slots(BigDisk(v.dpb), s.fcb)[k], s.fcb[CR])
    requires var seen := Seen(BigDisk(v.dpb), Slots(BigDisk(v.dpb), s0.fcb)[k]);
             && (seen ==> s.fcb == s0.fcb && s.bits == s0.bits)
             && (!seen ==> TookBlock(v, s0.fcb, k, s0.bits, s.fcb, s.bits))
    requires g == AdvancedFcb(s.fcb)
    ensures var s' := s.(fcb := g);
            && Safe(v, s') && (Ordered(v, s) ==> Ordered(v, s')) && Found(v, s') == Found(v, s0)
            && WroteAt(v, s', s0.fcb, k, g, sector) && TookIfUnseen(v, s0.fcb, k, s0.bits, g, s.bits)
  {
    TiedFacts(v, s0);
    AdvancedKey(s.fcb);
    hide Safe, Ordered, Slots, Seen, Sector, TookBlock, WroteAt, TookIfUnseen, Search, SaneFcb, BigDisk, AdvancedFcb, Fit;
    Touch(v, s, g);
    Advanced(v, s, s0.fcb, k, s.fcb, g, sector, s0.bits);
    WroteSameKey(v, s.(fcb := g), s0.fcb, k, g, sector);
    SameSearch(v, s.directory, s.cdrmax, s0.fcb, g);
  }

  lemma AdvancedKey(f: Fcb)
    ensures var g := AdvancedFcb(f);
            && g[1..S2] == f[1..S2] && g[S2] % 0x80 == f[S2] % 0x80 && g[AL..CR] == f[AL..CR]
            && (g[S2] >= 0x80 ==> f[S2] >= 0x80)
  {
  }

  lemma Advanced(v: Volume, s: State, was: Fcb, k: nat, f: Fcb, g: Fcb, sector: nat, bits: seq<bv8>)
    requires Safe(v, s) && s.open && s.fcb == f && Safe(v, s.(fcb := g))
    requires was[CR] < 0x80 && k < |Slots(BigDisk(v.dpb), f)|
    requires sector == Sector(v.dpb, Slots(BigDisk(v.dpb), f)[k], f[CR])
    requires var seen := Seen(BigDisk(v.dpb), Slots(BigDisk(v.dpb), was)[k]);
             && (seen ==> f == was && s.bits == bits)
             && (!seen ==> TookBlock(v, was, k, bits, f, s.bits))
    requires g == AdvancedFcb(f)
    ensures WroteAt(v, s.(fcb := g), was, k, g, sector)
    ensures TookIfUnseen(v, was, k, bits, g, s.bits)
  {
    AdvancedBytes(v, was, f, g, bits, s.bits, k);
    BlockInUse(v, s, was, k, f, bits);
    FcbBlockIsOwn(v, s.(fcb := g), k);
    TiedFacts(v, s.(fcb := g));
    hide Slots, Safe, OwnBlock, SaneFcb, Sector, Bit, WithBit, AllUsed, TookBlock, TookLeast, CountAndFlag, Seen;
    if !Seen(BigDisk(v.dpb), Slots(BigDisk(v.dpb), was)[k]) {
      TookAlso(v, was, k, bits, f, s.bits, g);
    }
  }

  lemma TookAlso(v: Volume, was: Fcb, k: nat, bits: seq<bv8>, f: Fcb, bits': seq<bv8>, g: Fcb)
    requires TookBlock(v, was, k, bits, f, bits') && Slots(BigDisk(v.dpb), g) == Slots(BigDisk(v.dpb), f)
    ensures TookLeast(v, was, k, bits, g, bits')
  {
    hide Slots, Bit, WithBit, AllUsed;
  }

  lemma AdvancedBytes(v: Volume, was: Fcb, f: Fcb, g: Fcb, bits: seq<bv8>, bits': seq<bv8>, k: nat)
    requires was[CR] < 0x80 && (f == was || TookBlock(v, was, k, bits, f, bits'))
    requires g == AdvancedFcb(f)
    ensures Slots(BigDisk(v.dpb), g) == Slots(BigDisk(v.dpb), f) && f[CR] == was[CR]
    ensures g[..S2] == was[..S2] && g[S2] % 0x80 == was[S2] % 0x80
    ensures g[CR] as int == was[CR] as int + 1 && g[CR + 1..] == was[CR + 1..]
    ensures g[RC] == (if g[CR] > was[RC] then g[CR] else was[RC])
    ensures g[S2] == if f == was && g[CR] < was[RC] then was[S2] else was[S2] % 0x80
  {
    assert f[..AL] == was[..AL] || f[..AL] == was[..AL][S2 := was[S2] % 0x80];
    assert f[CR..] == was[CR..];
    hide TookBlock;
    assert g[AL..CR] == f[AL..CR];
    SlotsOfPart(BigDisk(v.dpb), g, f);
    hide Slots;
    assert forall y :: 0 <= y < AL && y != S2 ==> f[y] == f[..AL][y] == was[y];
    assert f[S2] == f[..AL][S2];
    assert forall y :: CR <= y < 36 ==> f[y] == f[CR..][y - CR] == was[y];
  }

  lemma BlockInUse(v: Volume, s: State, was: Fcb, k: nat, f: Fcb, bits: seq<bv8>)
    requires Safe(v, s) && k < |Slots(BigDisk(v.dpb), f)|
    requires var seen := Seen(BigDisk(v.dpb), Slots(BigDisk(v.dpb), was)[k]);
             && (seen ==> f == was)
             && (!seen ==> TookBlock(v, was, k, bits, f, s.bits))
    ensures Slots(BigDisk(v.dpb), f)[k] != 0
  {
    hide Slots, Bit, WithBit;
  }

  /** The record just passed is where the transfer was, in a block of the FCB's own. */
  ghost predicate AtRecord(v: Volume, s: State, f: Fcb, f': Fcb, sector: nat)
    requires Fit(v)
  {
    var next, cr: nat := if f[CR] == 0x80 then 1 else 0, f[CR] % 0x80;
    && SameName(f', f) && ExtentNumber(f') == ExtentNumber(f) + next && f'[CR] == cr + 1
    && var k := SlotNumber(v.dpb, f'[EX], cr);
       && k < |Slots(BigDisk(v.dpb), f')|
       && var block := Slots(BigDisk(v.dpb), f')[k];
          sector == Sector(v.dpb, block, cr) && OwnBlock(v, s, block)
  }

  /** In the file, the FCB is one record further on. */
  lemma OneFurther(v: Volume, s: State, f: Fcb, f': Fcb, sector: nat)
    requires Fit(v) && f[CR] <= 0x80 && AtRecord(v, s, f, f', sector)
    ensures Position(f') == Position(f) + 1 && f'[CR] as int == f[CR] % 0x80 + 1
  {
    hide Slots, SlotNumber, Sector, OwnBlock, Fit, SameName;
  }

  /** Where a read of the current record goes. */
  function CurrentSector(v: Volume, f: Fcb): Transfer
    requires 3 <= v.dpb.blockShift <= 7
  {
    var big, k := BigDisk(v.dpb), SlotNumber(v.dpb, f[EX], f[CR]);
    if k < |Slots(big, f)| && Seen(big, Slots(big, f)[k]) then AtSector(Sector(v.dpb, Slots(big, f)[k], f[CR])) else NoData
  }

  lemma WrittenPassed(v: Volume, s: State, f: Fcb, f1: Fcb, k: nat, f2: Fcb, sector: nat)
    requires Fit(v) && s.fcb == f2
    requires var next := if f[CR] == 0x80 then 1 else 0;
             SameName(f1, f) && ExtentNumber(f1) == ExtentNumber(f) + next && f1[CR] == f[CR] % 0x80
    requires k == SlotNumber(v.dpb, f1[EX], f1[CR]) && WroteAt(v, s, f1, k, f2, sector)
    ensures CountAndFlag(v, f1, k, f2)
    ensures AtRecord(v, s, f, f2, sector) && f2[RC] >= f2[CR] && (f2[S2] < 0x80 || f2[CR] < f2[RC])
  {
    hide Slots, SlotNumber, Sector, Fit, OwnBlock, SaneFcb;
    assert s.(fcb := f2) == s;
    assert f2 == f2[DR := f2[DR]];
    Passed(v, s, f, f1, f2, s, sector);
  }

  lemma ReadPassed(v: Volume, f: Fcb, f1: Fcb, s: State, sector: nat)
    requires Fit(v) && f1[CR] < 0x80 && s.fcb == f1[CR := Inc(f1[CR])]
    requires var next := if f[CR] == 0x80 then 1 else 0;
             SameName(f1, f) && ExtentNumber(f1) == ExtentNumber(f) + next && f1[CR] == f[CR] % 0x80
    requires CurrentSector(v, f1) == AtSector(sector)
    requires var k := SlotNumber(v.dpb, f1[EX], f1[CR]);
             k < |Slots(BigDisk(v.dpb), f1)| && OwnBlock(v, s, Slots(BigDisk(v.dpb), f1)[k])
    ensures AtRecord(v, s, f, s.fcb, sector)
  {
    var f2 := s.fcb;
    assert f2[AL..CR] == f1[AL..CR];
    SlotsOfPart(BigDisk(v.dpb), f2, f1);
    hide Slots, SlotNumber, Sector, Fit, OwnBlock, Seen;
    assert f2 == f2[DR := f2[DR]] && s == s.(fcb := f2);
    Passed(v, s, f, f1, f2, s, sector);
  }

  lemma Passed(v: Volume, s: State, f: Fcb, f1: Fcb, f2: Fcb, s': State, sector: nat)
    requires Fit(v) && s'.fcb == f2[DR := s'.fcb[DR]] && s' == s.(fcb := s'.fcb)
    requires var next := if f[CR] == 0x80 then 1 else 0;
             SameName(f1, f) && ExtentNumber(f1) == ExtentNumber(f) + next && f1[CR] == f[CR] % 0x80
    requires f2[..S2] == f1[..S2] && f2[S2] % 0x80 == f1[S2] % 0x80 && f2[CR] as int == f1[CR] as int + 1
    requires var k := SlotNumber(v.dpb, f1[EX], f1[CR]);
             && k < |Slots(BigDisk(v.dpb), f2)|
             && var block := Slots(BigDisk(v.dpb), f2)[k];
                sector == Sector(v.dpb, block, f1[CR]) && OwnBlock(v, s, block)
    ensures AtRecord(v, s', f, s'.fcb, sector)
  {
    WithUserCode(v, f2, s'.fcb);
    assert forall y :: 0 <= y < S2 ==> f2[y] == f2[..S2][y] == f1[y];
    hide Slots, SlotNumber, Sector, Fit, Bit;
  }

  lemma SectorThere(v: Volume, f: Fcb, g: Fcb)
    requires 3 <= v.dpb.blockShift <= 7 && g == f[DR := g[DR]]
    ensures CurrentSector(v, g) == CurrentSector(v, f)
  {
    WithUserCode(v, f, g);
    hide Slots, SlotNumber, Sector;
  }

  lemma RecordThere(v: Volume, s: State, f: Fcb, g: Fcb, s': State, sector: nat)
    requires Fit(v) && g == f[DR := g[DR]] && s'.fcb == s.fcb[DR := s'.fcb[DR]] && s' == s.(fcb := s'.fcb)
    requires AtRecord(v, s, g, s.fcb, sector)
    ensures AtRecord(v, s', f, s'.fcb, sector)
  {
    WithUserCode(v, f, g);
    WithUserCode(v, s.fcb, s'.fcb);
    hide Slots, Bit, Fit, SlotNumber, Sector, ExtentNumber;
  }

  lemma TookThere(v: Volume, f: Fcb, g: Fcb, k: nat, f': Fcb, g': Fcb, bits: seq<bv8>, bits': seq<bv8>)
    requires g == f[DR := g[DR]] && g' == f'[DR := g'[DR]]
    ensures TookIfUnseen(v, g, k, bits, f', bits') ==> TookIfUnseen(v, f, k, bits, g', bits')
  {
    WithUserCode(v, f, g);
    WithUserCode(v, f', g');
    hide Slots, Bit, WithBit, AllUsed, Fit, Seen;
  }

  lemma CountThere(v: Volume, f: Fcb, g: Fcb, k: nat, f': Fcb, g': Fcb)
    requires g == f[DR := g[DR]] && g' == f'[DR := g'[DR]]
    ensures CountAndFlag(v, g, k, f') ==> CountAndFlag(v, f, k, g')
    ensures g'[S2] == f'[S2] && g'[CR] == f'[CR] && g'[RC] == f'[RC]
  {
    WithUserCode(v, f, g);
    hide Slots, Seen;
  }

  /** All of it, once the drive is back in the FCB. */
  lemma WriteThere(v: Volume, s: State, f: Fcb, g: Fcb, s': State, sector: nat, bits: seq<bv8>)
    requires Fit(v) && g == f[DR := g[DR]] && s'.fcb == s.fcb[DR := s'.fcb[DR]] && s' == s.(fcb := s'.fcb)
    requires AtRecord(v, s, g, s.fcb, sector) && f[CR] <= 0x80
    requires var k := SlotNumber(v.dpb, g[EX], g[CR]);
             g[CR] < 0x80 ==> CountAndFlag(v, g, k, s.fcb) && TookIfUnseen(v, g, k, bits, s.fcb, s.bits)
    ensures AtRecord(v, s', f, s'.fcb, sector) && Position(s'.fcb) == Position(f) + 1
    ensures s'.fcb[S2] == s.fcb[S2] && s'.fcb[CR] == s.fcb[CR] && s'.fcb[RC] == s.fcb[RC]
    ensures var k := SlotNumber(v.dpb, f[EX], f[CR]);
            f[CR] < 0x80 ==> CountAndFlag(v, f, k, s'.fcb) && TookIfUnseen(v, f, k, bits, s'.fcb, s'.bits)
  {
    var k := SlotNumber(v.dpb, f[EX], f[CR]);
    hide SlotNumber, AtRecord, CountAndFlag, TookIfUnseen, Fit, Position;
    RecordThere(v, s, f, g, s', sector);
    OneFurther(v, s', f, s'.fcb, sector);
    CountThere(v, f, g, k, s.fcb, s'.fcb);
    TookThere(v, f, g, k, s.fcb, s'.fcb, bits, s.bits);
  }

  /** What was just written can be read again exactly if its block is one the FCB can see. */
  lemma WrittenIsFoundExactly(v: Volume, s: State, f: Fcb, sector: nat)
    requires Fit(v) && AtRecord(v, s, f, s.fcb, sector) && f[CR] <= 0x80
    ensures var back := s.fcb[CR := f[CR] % 0x80];
            var block := Slots(BigDisk(v.dpb), s.fcb)[SlotNumber(v.dpb, back[EX], back[CR])];
            CurrentSector(v, back) == AtSector(sector) <==> block % 0x100 != 0
  {
    var back := s.fcb[CR := f[CR] % 0x80];
    assert back[AL..CR] == s.fcb[AL..CR];
    SlotsOfPart(BigDisk(v.dpb), back, s.fcb);
    hide SlotNumber, Sector;
  }
}
