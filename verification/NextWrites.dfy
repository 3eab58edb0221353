/**
 Which block the next record goes to, whose it is and whether it is found again
 (src/bdos/filesystem.S:435-562, 732-846, 1538-1577).
 */
module NextWrites {
  import opened Bytes
  import opened Bitmap
  import opened Geometry
  import opened Directory
  import opened Claims
  import opened Consistency
  import opened FcbValues
  import opened Closing
  import opened Transfers

  /** The least block from `from` up that the map has free. */
  function LeastUnused(bits: seq<bv8>, from: nat, last: Word): Option<Word>
    requires Covers(bits, last)
    decreases last - from
  {
    if from >= last then Nothing else if !Bit(bits, from) then Just(from) else LeastUnused(bits, from + 1, last)
  }

  lemma {:induction false} LeastUnusedIs(bits: seq<bv8>, from: nat, last: Word)
    requires Covers(bits, last)
    ensures match LeastUnused(bits, from, last)
            case Just(b) => from <= b < last && !Bit(bits, b) && AllUsed(bits, from, b)
            case Nothing => from <= last ==> AllUsed(bits, from, last)
    decreases last - from
  {
    hide BitAt;
    if from < last && Bit(bits, from) {
      LeastUnusedIs(bits, from + 1, last);
    }
  }

  lemma MapCovers(v: Volume, s: State)
    requires Safe(v, s)
    ensures Covers(s.bits, v.dpb.blocksOnDisk)
  {
    hide Disjoint, SaneEntries, Tied, AllUsed, Fit;
  }

  /** The number at the FCB's current place. */
  ghost function CurrentNumber(v: Volume, f: Fcb): Word
    requires Fit(v) && f[CR] < 0x80
  {
    SlotParts(v.dpb, v.directoryBlocks, f[EX], f[CR]);
    Slots(BigDisk(v.dpb), f)[SlotNumber(v.dpb, f[EX], f[CR])]
  }

  /** The FCB's own block there if it is seen, and the least unused one if not. */
  ghost function NextBlock(v: Volume, s: State): Option<Word>
    requires Safe(v, s) && s.fcb[CR] < 0x80
  {
    MapCovers(v, s);
    var block := CurrentNumber(v, s.fcb);
    if Seen(BigDisk(v.dpb), block) then Just(block) else LeastUnused(s.bits, 0, v.dpb.blocksOnDisk)
  }

  /** It is what a write takes, */
  lemma NextIsTaken(v: Volume, s: State, f: Fcb, bits: seq<bv8>)
    requires Safe(v, s) && s.fcb[CR] < 0x80
    requires TookIfUnseen(v, s.fcb, SlotNumber(v.dpb, s.fcb[EX], s.fcb[CR]), s.bits, f, bits)
    ensures NextBlock(v, s) == Just(Slots(BigDisk(v.dpb), f)[SlotNumber(v.dpb, s.fcb[EX], s.fcb[CR])])
  {
    MapCovers(v, s);
    hide Slots, SlotNumber, Shape, Safe, Seen, LeastUnused, WithBit, BitAt;
    LeastUnusedIs(s.bits, 0, v.dpb.blocksOnDisk);
  }

  /** and there is none exactly when a block has to be taken from a full map. */
  lemma NoNextExactly(v: Volume, s: State)
    requires Safe(v, s) && s.fcb[CR] < 0x80
    ensures NextBlock(v, s) == Nothing
       <==> !Seen(BigDisk(v.dpb), CurrentNumber(v, s.fcb)) && AllUsed(s.bits, 0, v.dpb.blocksOnDisk)
  {
    MapCovers(v, s);
    hide CurrentNumber, Safe, Seen, LeastUnused, BitAt;
    LeastUnusedIs(s.bits, 0, v.dpb.blocksOnDisk);
  }

  /** The drive makes no difference to it. */
  lemma NextBlockUser(v: Volume, s: State, t: State)
    requires Safe(v, s) && Safe(v, t) && s.fcb[CR] < 0x80 && t.fcb == s.fcb[DR := t.fcb[DR]] && t == s.(fcb := t.fcb)
    ensures NextBlock(v, s) == NextBlock(v, t)
  {
    WithUserCode(v, s.fcb, t.fcb);
    hide Safe, Slots, SlotNumber, LeastUnused, Seen;
  }

  // ---------- whose block it is ----------

  ghost predicate InNoOther(v: Volume, s: State, block: Word)
  {
    forall i :: 0 <= i < |s.directory| && Live(s.directory[i]) && Found(v, s) != Just(i) ==>
      block !in Slots(BigDisk(v.dpb), s.directory[i])
  }

  /**
   The next write stays out of every live entry but the FCB's own, unless the FCB was left behind by a
   read past the last extent and its current block is seen and still in the entry it came from.
   */
  lemma NextWriteIsOwnExactly(v: Volume, s: State)
    requires Safe(v, s) && s.open && s.fcb[CR] < 0x80
    ensures s.home.Just? ==> s.home.value < |s.directory|
    ensures NextBlock(v, s).Just? ==>
              (InNoOther(v, s, NextBlock(v, s).value)
               <==> || Found(v, s) == s.home
                    || !Seen(BigDisk(v.dpb), CurrentNumber(v, s.fcb))
                    || CurrentNumber(v, s.fcb) !in Slots(BigDisk(v.dpb), s.directory[s.home.value]))
  {
    TiedFacts(v, s);
    if NextBlock(v, s).Just? {
      var block := NextBlock(v, s).value;
      if Seen(BigDisk(v.dpb), CurrentNumber(v, s.fcb)) {
        SeenIsUsed(BigDisk(v.dpb), block);
        FcbBlockIsOwn(v, s, SlotNumber(v.dpb, s.fcb[EX], s.fcb[CR]));
        hide Slots, SlotNumber, Safe, Seen, LeastUnused, Bit, Found, Live;
      } else {
        UnusedIsNoOnes(v, s, block);
      }
    }
  }

  lemma UnusedIsNoOnes(v: Volume, s: State, block: Word)
    requires Safe(v, s) && s.fcb[CR] < 0x80 && NextBlock(v, s) == Just(block)
    requires !Seen(BigDisk(v.dpb), CurrentNumber(v, s.fcb))
    ensures InNoOther(v, s, block)
  {
    MapCovers(v, s);
    FirstIsUsed(v, s);
    LeastUnusedIs(s.bits, 0, v.dpb.blocksOnDisk);
    AllocationSafety(v, s);
    hide Slots, CurrentNumber, Safe, Seen, LeastUnused, BitAt, Found;
  }

  lemma FirstIsUsed(v: Volume, s: State)
    requires Safe(v, s)
    ensures Covers(s.bits, 1) && Bit(s.bits, 0)
  {
    hide Disjoint, Held, SaneEntries, Tied, BitAt;
  }

  // ---------- whether it is found again ----------

  /** Once the current record has gone to the block, a read at its place goes there too. */
  ghost predicate FoundAgain(v: Volume, f: Fcb, block: Word)
    requires Fit(v) && f[CR] < 0x80
  {
    SlotParts(v.dpb, v.directoryBlocks, f[EX], f[CR]);
    var big, k := BigDisk(v.dpb), SlotNumber(v.dpb, f[EX], f[CR]);
    forall g: Fcb :: g[EX] == f[EX] && g[CR] == f[CR] && Slots(big, g) == Slots(big, f)[k := block] ==>
      CurrentSector(v, g) == AtSector(Sector(v.dpb, block, f[CR]))
  }

  /** Everything that is written is found again on exactly the disks of at most 257 blocks. */
  lemma AlwaysFoundAgainExactly(v: Volume)
    requires Fit(v)
    ensures (forall s :: Safe(v, s) && s.open && s.fcb[CR] < 0x80 && NextBlock(v, s).Just? ==>
               FoundAgain(v, s.fcb, NextBlock(v, s).value))
       <==> v.dpb.blocksOnDisk <= 0x100
  {
    hide Safe, NextBlock, FoundAgain;
    if v.dpb.blocksOnDisk <= 0x100 {
      forall s | Safe(v, s) && s.open && s.fcb[CR] < 0x80 && NextBlock(v, s).Just?
        ensures FoundAgain(v, s.fcb, NextBlock(v, s).value)
      {
        SmallNext(v, s);
        SeenIsFound(v, s.fcb, NextBlock(v, s).value);
      }
    } else {
      var s := HalfFull(v);
      HalfFullIsSafe(v);
      HalfFullNext(v);
      UnseenIsLost(v, s.fcb, 0x100);
    }
  }

  lemma SmallNext(v: Volume, s: State)
    requires Safe(v, s) && s.open && s.fcb[CR] < 0x80 && NextBlock(v, s).Just? && v.dpb.blocksOnDisk <= 0x100
    ensures Seen(BigDisk(v.dpb), NextBlock(v, s).value)
  {
    if !Seen(BigDisk(v.dpb), CurrentNumber(v, s.fcb)) {
      MapCovers(v, s);
      FirstIsUsed(v, s);
      LeastUnusedIs(s.bits, 0, v.dpb.blocksOnDisk);
      hide *;
      SmallIsSeen(BigDisk(v.dpb), LeastUnused(s.bits, 0, v.dpb.blocksOnDisk).value);
    }
    hide Slots, SlotNumber, Safe, LeastUnused, Bit, CurrentNumber, Seen, BigDisk;
  }

  lemma SmallIsSeen(big: bool, block: Word)
    requires 0 < block < 0x100
    ensures Seen(big, block)
  {
  }

  lemma SeenIsFound(v: Volume, f: Fcb, block: Word)
    requires Fit(v) && f[CR] < 0x80 && Seen(BigDisk(v.dpb), block)
    ensures FoundAgain(v, f, block)
  {
    SlotParts(v.dpb, v.directoryBlocks, f[EX], f[CR]);
    hide Slots, SlotNumber, Seen, Sector, Shape;
  }

  lemma UnseenIsLost(v: Volume, f: Fcb, block: Word)
    requires Fit(v) && f[CR] < 0x80 && BigDisk(v.dpb) && !Seen(true, block)
    ensures !FoundAgain(v, f, block)
  {
    var k := SlotNumber(v.dpb, f[EX], f[CR]);
    SlotParts(v.dpb, v.directoryBlocks, f[EX], f[CR]);
    var g := SetSlot(true, f, k, block);
    assert g[..AL][EX] == g[EX] && f[..AL][EX] == f[EX];
    assert g[CR..][0] == g[CR] && f[CR..][0] == f[CR];
    hide Slots, SlotNumber, Seen, Sector, Shape, SetSlot;
    assert CurrentSector(v, g) == NoData;
  }

  /** An empty directory, but the first 256 blocks marked. */
  function HalfFull(v: Volume): State
  {
    var dead: Entry := seq(32, _ => DELETED);
    State(seq(v.dpb.directoryEntries + 1, _ => dead), 0, HalfMap(v.dpb.blocksOnDisk / 8 + 1), seq(36, _ => 0), true, Nothing)
  }

  function HalfMap(n: nat): seq<bv8> { seq(n, i => if i < 32 then 0xff else 0) }

  lemma HalfMapBits(n: nat, b: nat)
    requires b / 8 < n
    ensures Bit(HalfMap(n), b) <==> b < 0x100
  {
    Full(7 - b % 8);
  }

  lemma Full(n: nat)
    requires n < 8
    ensures BitAt(0xff, n) && !BitAt(0, n)
  {
  }

  lemma HalfFullIsSafe(v: Volume)
    requires Fit(v) && v.dpb.blocksOnDisk > 0x100
    ensures Safe(v, HalfFull(v)) && HalfFull(v).fcb[CR] == 0
  {
    var s := HalfFull(v);
    FoundFacts(v, s.directory, s.cdrmax, s.fcb);
    hide Fit, Search, Matches;
    forall b: nat | b < v.directoryBlocks
      ensures b / 8 < |s.bits| && Bit(s.bits, b)
    {
      FewDirectoryBlocks(v);
      HalfMapBits(v.dpb.blocksOnDisk / 8 + 1, b);
    }
    hide HalfMap, Bit;
    NothingHeld(v, s);
  }

  lemma FewDirectoryBlocks(v: Volume)
    requires Fit(v)
    ensures 0 < v.directoryBlocks <= 16
  {
  }

  lemma NothingHeld(v: Volume, s: State)
    requires AllUsed(s.bits, 0, v.directoryBlocks) && Covers(s.bits, v.dpb.blocksOnDisk + 1)
    requires forall i :: 0 <= i < |s.directory| && Live(s.directory[i]) ==> AllZero(Slots(BigDisk(v.dpb), s.directory[i]))
    requires s.home == Nothing && AllZero(Slots(BigDisk(v.dpb), s.fcb))
    ensures Allocated(v, s)
  {
    var h := Holdings(v, s);
    hide Slots, Bit;
    assert forall i, t :: 0 <= i < |h| && 0 <= t < |h[i]| ==> h[i][t] == 0;
  }

  lemma HalfFullNext(v: Volume)
    requires Fit(v) && v.dpb.blocksOnDisk > 0x100 && Safe(v, HalfFull(v)) && HalfFull(v).fcb[CR] == 0
    ensures NextBlock(v, HalfFull(v)) == Just(0x100) && BigDisk(v.dpb) && !Seen(true, 0x100)
  {
    var s := HalfFull(v);
    MapCovers(v, s);
    LeastUnusedIs(s.bits, 0, v.dpb.blocksOnDisk);
    forall b: nat | b < v.dpb.blocksOnDisk
      ensures Bit(s.bits, b) <==> b < 0x100
    {
      HalfMapBits(v.dpb.blocksOnDisk / 8 + 1, b);
    }
    SlotParts(v.dpb, v.directoryBlocks, 0, 0);
    hide LeastUnused, HalfMap, Bit, Safe, SlotNumber, Fit;
    assert !Bit(s.bits, 0x100);
  }

  // ---------- reading past the end ----------

  /** A directory with one file, of one full extent and one block, */
  function OneFile(v: Volume): Entry
    requires Fit(v)
  {
    var blocks: seq<Byte> := seq(16, _ => 0);
    var name: seq<Byte> := seq(11, _ => 0x41);
    var rest: seq<Byte> := [v.dpb.extentMask, 0, 0, 0x80] + blocks[0 := v.directoryBlocks];
    [v.user] + name + rest
  }

  /** which is open and has been read to its end. */
  function ReadToEnd(v: Volume): State
    requires Fit(v)
  {
    var dead: Entry := seq(32, _ => DELETED);
    var f: Fcb := OneFile(v)[S2 := 0x80] + [0x80, 0, 0, 0];
    State(seq(v.dpb.directoryEntries + 1, _ => dead)[0 := OneFile(v)], 0, FullMap(v.dpb.blocksOnDisk / 8 + 1), f, true, Just(0))
  }

  function FullMap(n: nat): seq<bv8> { seq(n, _ => 0xff) }

  /**
   On every disk there is a state in which a read leaves the FCB behind, and the next write would go
   into the block of the extent that was read.
   */
  lemma ReadsPastTheEnd(v: Volume)
    requires Fit(v)
    ensures var s := ReadToEnd(v);
            var m := s.(fcb := MovedOnFcb(s.fcb));
            && Safe(v, s) && Found(v, s) == s.home == Just(0) && s.fcb[CR] == s.fcb[RC] == 0x80 && s.fcb[T1] < 0x80
            && (v.dpb.directoryEntries < 0x100 ==> Ordered(v, s))
            && Safe(v, m) && Found(v, m) == Nothing && m.fcb[CR] == 0
            && NextBlock(v, m).Just? && !InNoOther(v, m, NextBlock(v, m).value)
  {
    var s := ReadToEnd(v);
    var m := s.(fcb := MovedOnFcb(s.fcb));
    OneIsFound(v);
    OneIsAllocated(v);
    OneIsSane(v);
    OneFileBlocks(v);
    OneMoved(v);
    hide Slots, Live, Search, Allocated, OneFile, SaneFcb, MovedOnFcb, Fit, SaneEntry, FullMap;
    assert Safe(v, s);
    LeaveBehind(v, s, m.fcb);
    assert CurrentNumber(v, m.fcb) == Slots(BigDisk(v.dpb), m.fcb)[0];
    assert Live(m.directory[0]) && Found(v, m) != Just(0);
  }

  lemma OneFileBlocks(v: Volume)
    requires Fit(v)
    ensures var big, e := BigDisk(v.dpb), OneFile(v);
            && 0 < v.directoryBlocks <= 16 && Seen(big, v.directoryBlocks) && v.directoryBlocks in Slots(big, e)
            && Slots(big, e)[0] == v.directoryBlocks && forall k :: 0 < k < |Slots(big, e)| ==> Slots(big, e)[k] == 0
  {
    FewDirectoryBlocks(v);
    SmallIsSeen(BigDisk(v.dpb), v.directoryBlocks);
    var e := OneFile(v);
    assert e[AL] == v.directoryBlocks && forall y :: AL < y < CR ==> e[y] == 0;
    hide OneFile, Fit, Seen, BigDisk;
    OneBlock(BigDisk(v.dpb), e, v.directoryBlocks);
  }

  lemma OneBlock(big: bool, e: Entry, block: Byte)
    requires e[AL] == block && forall y :: AL < y < CR ==> e[y] == 0
    ensures Slots(big, e)[0] == block && block in Slots(big, e)
    ensures forall k :: 0 < k < |Slots(big, e)| ==> Slots(big, e)[k] == 0
  {
    assert Slots(big, e)[0] == block;
  }

  lemma OneIsSane(v: Volume)
    requires Fit(v)
    ensures var s := ReadToEnd(v);
            && SaneEntries(v, s.directory) && SaneFcb(s.fcb) && Live(s.directory[0]) && s.fcb[CR] == s.fcb[RC] == 0x80
            && s.fcb[T1] < 0x80 && HighWater(s.directory, s.cdrmax) && DifferentKeys(v, s.directory)
            && Slots(BigDisk(v.dpb), s.fcb) == Slots(BigDisk(v.dpb), s.directory[0])
  {
    hide Bit, Slots;
    var s := ReadToEnd(v);
    assert s.fcb[AL..CR] == s.directory[0][AL..CR];
    SlotsOfPart(BigDisk(v.dpb), s.fcb, s.directory[0]);
    assert Live(s.directory[0]) && SaneEntry(s.directory[0]);
    assert forall i :: 0 < i < |s.directory| ==> !Live(s.directory[i]);
  }

  lemma OneMoved(v: Volume)
    requires Fit(v)
    ensures var s := ReadToEnd(v);
            var f := MovedOnFcb(s.fcb);
            && Slots(BigDisk(v.dpb), f) == Slots(BigDisk(v.dpb), s.fcb) && SaneFcb(f) && f[CR] == 0
            && f[EX] as int == v.dpb.extentMask as int + 1 && f[1..EX] == s.fcb[1..EX] && SlotNumber(v.dpb, f[EX], f[CR]) == 0
  {
    hide Bit, Slots;
    var s := ReadToEnd(v);
    var f := MovedOnFcb(s.fcb);
    assert f[AL..CR] == s.fcb[AL..CR];
    SlotsOfPart(BigDisk(v.dpb), f, s.fcb);
    SlotZero(v, f[EX]);
  }

  lemma OneIsFound(v: Volume)
    requires Fit(v)
    ensures var s := ReadToEnd(v);
            && Found(v, s) == Just(0) && Search(v, s.directory, s.cdrmax, MovedOnFcb(s.fcb)) == Nothing
  {
    var s := ReadToEnd(v);
    var f := MovedOnFcb(s.fcb);
    OneMoved(v);
    OneMatches(v);
    NextGroup(v.dpb.extentMask);
    FoundFacts(v, s.directory, s.cdrmax, f);
    hide Search, Slots, MovedOnFcb, SlotNumber, SaneFcb, OneFile, SameByte, Matches, Fit;
    FoundIs(v, s.directory, s.cdrmax, s.fcb, 0);
    OtherExtent(v, f, s.directory[0]);
    assert forall i :: 0 < i < |s.directory| ==> !Live(s.directory[i]);
  }

  lemma OtherExtent(v: Volume, f: Fcb, e: Entry)
    requires !SameByte(v.dpb.extentMask, EX, f[EX], e[EX])
    ensures !Matches(v.dpb.extentMask, UserFcb(v, f), e, KEY)
  {
    hide SameByte;
    assert UserFcb(v, f)[EX] == f[EX];
  }

  lemma OneMatches(v: Volume)
    requires Fit(v)
    ensures var s := ReadToEnd(v);
            && s.directory[0][EX] == v.dpb.extentMask && Matches(v.dpb.extentMask, UserFcb(v, s.fcb), s.directory[0], KEY)
  {
    var f, e, mask := UserFcb(v, ReadToEnd(v).fcb), ReadToEnd(v).directory[0], v.dpb.extentMask;
    assert e[S2] == 0 && f[S2] == 0x80;
    hide Bit, OneFile, SameByte, KeyPart, Masked;
    FlagIgnored(mask, 0);
    forall y | 0 <= y < KEY
      ensures KeyPart(mask, y, f[y]) == KeyPart(mask, y, e[y])
    {
    }
    OwnKeyMatches(mask, f, e);
  }

  lemma NextGroup(extentMask: Byte)
    requires extentMask < 0x10
    ensures !SameByte(extentMask, EX, extentMask + 1, extentMask)
  {
    hide SameByte, Masked;
    SameByteIsSameKey(extentMask, EX, extentMask + 1, extentMask);
    MaskedEnds(extentMask);
  }

  lemma OneIsAllocated(v: Volume)
    requires Fit(v)
    ensures Allocated(v, ReadToEnd(v))
  {
    var s := ReadToEnd(v);
    OneIsHeld(v);
    OneFileBlocks(v);
    FullyUsed(v);
    var h := Holdings(v, s);
    hide Slots, OneFile, Fit, Holding, FullMap, Bit, Holdings, ReadToEnd;
    AllocatedFrom(v, s, h);
  }

  /** The file's block is the only one that is held. */
  lemma OneIsHeld(v: Volume)
    requires Fit(v)
    ensures var h := Holdings(v, ReadToEnd(v));
            forall i, t :: 0 <= i < |h| && 0 <= t < |h[i]| && h[i][t] != 0 ==> i == 0 && t == 0 && h[i][t] == v.directoryBlocks
  {
    var s := ReadToEnd(v);
    OneFileBlocks(v);
    OneIsSane(v);
    hide Slots, OneFile, Fit, FullMap;
    assert forall i :: 0 < i < |s.directory| ==> !Live(s.directory[i]);
  }

  lemma FullyUsed(v: Volume)
    requires Fit(v)
    ensures var bits := ReadToEnd(v).bits;
            && Covers(bits, v.dpb.blocksOnDisk + 1) && AllUsed(bits, 0, v.directoryBlocks)
            && v.directoryBlocks <= v.dpb.blocksOnDisk && Bit(bits, v.directoryBlocks)
  {
    var bits := ReadToEnd(v).bits;
    FewDirectoryBlocks(v);
    forall b: nat | b / 8 < |bits|
      ensures Bit(bits, b)
    {
      Full(7 - b % 8);
    }
    hide Bit, FullMap, OneFile, Shape;
  }
}
