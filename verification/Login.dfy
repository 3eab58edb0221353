/** What logging in to a drive leaves in the map (src/bdos/filesystem.S:1313-1424, 1483-1536). */
module Login {
  import opened Bytes
  import opened Bitmap
  import opened Geometry
  import opened Directory
  import opened Claims
  import opened Consistency

  /** No live entry names a block the map has no bit for. */
  ghost predicate EntriesInMap(v: Volume, directory: seq<Entry>, bytes: nat)
  {
    forall i, t :: 0 <= i < |directory| && Live(directory[i]) && 0 <= t < |Slots(BigDisk(v.dpb), directory[i])| ==>
      Slots(BigDisk(v.dpb), directory[i])[t] / 8 < bytes
  }

  /** One of the first n entries is live and names the block. */
  ghost predicate Referenced(v: Volume, directory: seq<Entry>, n: nat, block: nat)
  {
    exists i :: 0 <= i < n && i < |directory| && Live(directory[i]) && block in Slots(BigDisk(v.dpb), directory[i])
  }

  predicate ReservedBlock(d: Dpb, block: nat) { block < 16 && Bit([d.al0, d.al1], block) }

  /** A block below DSM is marked exactly when it is reserved by the DPB or referenced by an entry. */
  ghost predicate MapExact(v: Volume, directory: seq<Entry>, n: nat, bits: seq<bv8>)
  {
    && Covers(bits, v.dpb.blocksOnDisk)
    && forall b :: 0 <= b < v.dpb.blocksOnDisk ==>
         (Bit(bits, b) <==> ReservedBlock(v.dpb, b) || (b != 0 && Referenced(v, directory, n, b)))
  }

  /** Blocks of entries are marked even if they lie at or beyond DSM. */
  ghost predicate UsedMarked(v: Volume, directory: seq<Entry>, n: nat, bits: seq<bv8>)
  {
    forall b: nat :: b / 8 < |bits| && b != 0 && Referenced(v, directory, n, b) ==> Bit(bits, b)
  }

  lemma MapStarts(v: Volume, directory: seq<Entry>, bits: seq<bv8>)
    requires |bits| >= 2 && bits[0] == v.dpb.al0 && bits[1] == v.dpb.al1 && Covers(bits, v.dpb.blocksOnDisk)
    requires forall i :: 2 <= i < (v.dpb.blocksOnDisk + 7) / 8 && i < |bits| ==> bits[i] == 0
    ensures MapExact(v, directory, 0, bits) && UsedMarked(v, directory, 0, bits)
  {
    forall b | 0 <= b < v.dpb.blocksOnDisk
      ensures Bit(bits, b) <==> ReservedBlock(v.dpb, b)
    {
      if b >= 16 {
        assert bits[b / 8] == 0;
        assert !BitAt(0, 7 - b % 8);
      }
    }
  }

  /** What looking at entry n does to the map. */
  lemma MapNext(v: Volume, directory: seq<Entry>, n: nat, bits: seq<bv8>)
    requires n < |directory| && MapExact(v, directory, n, bits) && UsedMarked(v, directory, n, bits)
    requires EntriesInMap(v, directory, |bits|)
    ensures !Live(directory[n]) ==> MapExact(v, directory, n + 1, bits) && UsedMarked(v, directory, n + 1, bits)
    ensures Live(directory[n]) ==>
              && InMap(bits, Slots(BigDisk(v.dpb), directory[n]))
              && var marked := MarkSlots(bits, Slots(BigDisk(v.dpb), directory[n]), true);
                 MapExact(v, directory, n + 1, marked) && UsedMarked(v, directory, n + 1, marked)
  {
    hide Bit, Slots, MarkSlots, Live, ReservedBlock, Referenced;
    forall b: nat
      ensures Referenced(v, directory, n + 1, b) <==>
              Referenced(v, directory, n, b) || (Live(directory[n]) && b in Slots(BigDisk(v.dpb), directory[n]))
    {
      ReferencedNext(v, directory, n, b);
    }
    if Live(directory[n]) {
      assert InMap(bits, Slots(BigDisk(v.dpb), directory[n]));
      MapMarked(v, directory, n, bits, Slots(BigDisk(v.dpb), directory[n]));
    }
  }

  lemma MapMarked(v: Volume, directory: seq<Entry>, n: nat, bits: seq<bv8>, slots: seq<Word>)
    requires MapExact(v, directory, n, bits) && UsedMarked(v, directory, n, bits) && InMap(bits, slots)
    requires forall b: nat {:trigger Referenced(v, directory, n + 1, b)} ::
               Referenced(v, directory, n + 1, b) <==> Referenced(v, directory, n, b) || b in slots
    ensures MapExact(v, directory, n + 1, MarkSlots(bits, slots, true))
    ensures UsedMarked(v, directory, n + 1, MarkSlots(bits, slots, true))
  {
    hide Bit, Slots, MarkSlots, Live, ReservedBlock, Referenced;
    forall b: nat | b / 8 < |bits|
      ensures Bit(MarkSlots(bits, slots, true), b) <==> Bit(bits, b) || (b != 0 && b in slots)
    {
      MarkSlotsBits(bits, slots, true, b);
    }
  }

  lemma ReferencedNext(v: Volume, directory: seq<Entry>, n: nat, block: nat)
    requires n < |directory|
    ensures Referenced(v, directory, n + 1, block)
       <==> Referenced(v, directory, n, block) || (Live(directory[n]) && block in Slots(BigDisk(v.dpb), directory[n]))
  {
    hide Slots;
  }

  lemma FirstMark(directory: seq<Entry>)
    requires |directory| <= 0x1_0000
    ensures LoginCdrmax(directory, 0) == 0
  {
  }

  /** A disk that is fit to be used: no block is used twice and none lies off the disk. */
  ghost predicate SaneDisk(v: Volume, directory: seq<Entry>)
  {
    && Fit(v) && SaneEntries(v, directory)
    && Disjoint(Holdings(v, Fresh(directory)))
    && forall i, t :: 0 <= i < |directory| && Live(directory[i]) && 0 <= t < |Slots(BigDisk(v.dpb), directory[i])| ==>
         var block := Slots(BigDisk(v.dpb), directory[i])[t];
         block == 0 || v.directoryBlocks <= block <= v.dpb.blocksOnDisk
  }

  function Fresh(directory: seq<Entry>): State
  {
    State(directory, 0, [], seq(36, _ => 0), false, Nothing)
  }

  /** Logging in to a sane disk is where every run starts. */
  lemma LoginEstablishes(v: Volume, directory: seq<Entry>, s: State)
    requires SaneDisk(v, directory) && s.directory == directory && !s.open && s.home == Nothing
    requires Covers(s.bits, v.dpb.blocksOnDisk + 1)
    requires s.cdrmax == LoginCdrmax(directory, |directory|)
    requires MapExact(v, directory, |directory|, s.bits) && UsedMarked(v, directory, |directory|, s.bits)
    ensures Safe(v, s) && (v.dpb.directoryEntries < 0x100 && DifferentKeys(v, directory) ==> Ordered(v, s))
  {
    if |directory| <= 0x100 {
      SmallLoginCdrmax(directory, |directory|);
    }
    var h := Holdings(v, s);
    assert h == Holdings(v, Fresh(directory));
    hide Bit, Slots, Plain, LoginCdrmax, DifferentKeys;
    forall i, t | 0 <= i < |h| && 0 <= t < |h[i]| && h[i][t] != 0
      ensures v.directoryBlocks <= h[i][t] <= v.dpb.blocksOnDisk && Bit(s.bits, h[i][t])
    {
      assert i < |directory| && Live(directory[i]) && h[i] == Slots(BigDisk(v.dpb), directory[i]);
      assert h[i][t] in Slots(BigDisk(v.dpb), directory[i]);
      assert Referenced(v, directory, |directory|, h[i][t]);
    }
    forall b | 0 <= b < v.directoryBlocks
      ensures Bit(s.bits, b)
    {
      assert ReservedBlock(v.dpb, b);
    }
  }
}
