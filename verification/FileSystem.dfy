/** The BDOS file operations (src/bdos/filesystem.S) over one drive, one open FCB at a time. */
module FileSystem {
  import opened Bytes
  import opened Bitmap
  import opened Geometry
  import opened Directory
  import opened Consistency
  import opened FcbValues
  import opened Opening
  import opened Closing
  import opened Deletion
  import opened Transfers
  import opened NextWrites
  import opened Login

  datatype Outcome =
    | Done
    | Failed
    | HardError     // "file is R/O", "disk is R/O" or "disk full": the program is abandoned

  class FileSystem {
    const volume: Volume
    const allocator: Allocator
    const writeProtected: bool      // the drive's bit in the write-protect vector
    var directory: seq<Entry>       // as it is on the disk
    var cdrmax: Word
    var directoryPos: Word
    var fcb: Fcb                    // the caller's open FCB
    var oldFcbDrive: Byte
    ghost var open: bool
    ghost var home: Option<nat>

    ghost function Abstract(): State
      reads this, allocator.bitmap
    {
      State(directory, cdrmax, allocator.bitmap[..], fcb, open, home)
    }

    ghost predicate Inv()
      reads this, allocator, allocator.bitmap
    {
      && allocator.Valid() && allocator.blocksOnDisk == volume.dpb.blocksOnDisk
      && Safe(volume, Abstract())
    }

    /** On disks where the high-water mark is right. */
    ghost predicate Orderly()
      reads this, allocator.bitmap
    {
      Ordered(volume, Abstract())
    }

    /** The entry a search for the FCB finds. */
    function OwnEntry(): Option<nat>
      reads this`directory, this`cdrmax, this`fcb
    {
      Search(volume, directory, cdrmax, fcb)
    }

    constructor (v: Volume, disk: seq<Entry>, readOnly: bool)
      ensures volume == v && directory == disk && writeProtected == readOnly && !open
      ensures fresh(allocator) && fresh(allocator.bitmap) && allocator.Valid()
      ensures allocator.blocksOnDisk == v.dpb.blocksOnDisk
      ensures 16 <= v.dpb.blocksOnDisk ==> allocator.bitmap.Length >= 2
    {
      volume, directory, writeProtected := v, disk, readOnly;
      allocator := new Allocator(v.dpb.blocksOnDisk);
      cdrmax, directoryPos, fcb, oldFcbDrive := 0, NOWHERE, seq(36, _ => 0), 0;
      open, home := false, Nothing;
    }

    // ---------- searching ----------

    /** read_dir_entry: the position is incremented first and runs off the end to -1. */
    method ReadDirEntry()
      requires |directory| == volume.dpb.directoryEntries + 1 && volume.dpb.directoryEntries < NOWHERE
      requires directoryPos == NOWHERE || directoryPos < |directory|
      modifies this`directoryPos
      ensures directoryPos == if old(directoryPos) == NOWHERE then 0
                              else if old(directoryPos) == volume.dpb.directoryEntries then NOWHERE
                              else old(directoryPos) + 1
    {
      if directoryPos == volume.dpb.directoryEntries {
        directoryPos := NOWHERE;
        return;
      }
      directoryPos := ToWord(directoryPos + 1);
    }

    function After(position: Word): nat { if position == NOWHERE then 0 else position + 1 }

    method FindFirst(f: Fcb, n: nat) returns (found: bool)
      requires 0 < n <= 32
      requires |directory| == volume.dpb.directoryEntries + 1 && volume.dpb.directoryEntries < NOWHERE
      modifies this`directoryPos
      ensures var r := NextMatch(directory, volume.dpb.extentMask, f, n, 0, SearchEnd(directory, cdrmax, f));
              && (found <==> r.Just?) && directoryPos == (if found then r.value else NOWHERE)
    {
      directoryPos := NOWHERE;
      found := FindNext(f, n);
    }

    method FindNext(f: Fcb, n: nat) returns (found: bool)
      requires 0 < n <= 32
      requires |directory| == volume.dpb.directoryEntries + 1 && volume.dpb.directoryEntries < NOWHERE
      requires directoryPos == NOWHERE || directoryPos < |directory|
      modifies this`directoryPos
      ensures var r := NextMatch(directory, volume.dpb.extentMask, f, n, After(old(directoryPos)), SearchEnd(directory, cdrmax, f));
              && (found <==> r.Just?) && directoryPos == (if found then r.value else NOWHERE)
    {
      hide Matches;
      ghost var goal := NextMatch(directory, volume.dpb.extentMask, f, n, After(directoryPos), SearchEnd(directory, cdrmax, f));
      while true
        invariant directoryPos == NOWHERE || directoryPos < |directory|
        invariant NextMatch(directory, volume.dpb.extentMask, f, n, After(directoryPos), SearchEnd(directory, cdrmax, f)) == goal
        decreases |directory| - After(directoryPos)
      {
        ReadDirEntry();
        if directoryPos == 0xffff {
          return false;
        }
        if f[DR] != 0xe5 && cdrmax < directoryPos {
          directoryPos := NOWHERE;
          return false;
        }
        found := MatchEntry(volume.dpb.extentMask, f, directory[directoryPos], n);
        if found {
          return;
        }
      }
    }

    // ---------- calls ----------

    /** convert_user_fcb: the user code takes the place of the drive, which is put back at the end. */
    method BeginCall()
      requires Inv()
      modifies this`fcb, this`oldFcbDrive
      ensures Inv() && (old(Orderly()) ==> Orderly()) && OwnEntry() == old(OwnEntry())
      ensures fcb == old(fcb)[DR := volume.user] && oldFcbDrive == old(fcb)[DR]
    {
      hide Safe, Ordered, Search;
      oldFcbDrive := fcb[DR];
      UserCodeOnly(volume, Abstract(), fcb[DR := volume.user]);
      fcb := fcb[DR := volume.user];
    }

    /** internal_ENDSYS */
    method EndCall()
      requires Inv()
      modifies this`fcb
      ensures Inv() && (old(Orderly()) ==> Orderly()) && OwnEntry() == old(OwnEntry())
      ensures fcb == WithDrive(old(fcb), oldFcbDrive)
      ensures oldFcbDrive < 0x80 ==> fcb[DR] == oldFcbDrive
    {
      hide Safe, Ordered, Search;
      if oldFcbDrive < 0x80 {
        UserCodeOnly(volume, Abstract(), fcb[DR := oldFcbDrive]);
        fcb := fcb[DR := oldFcbDrive];
      }
    }

    /** The caller hands in an FCB of its own making; one that was open before is forgotten. */
    method NewUserFcb(f: Fcb)
      requires Inv()
      modifies this`fcb, this`oldFcbDrive, this`open, this`home
      ensures Inv() && (old(Orderly()) ==> Orderly())
      ensures !open && fcb == f[S2 := 0][DR := volume.user] && oldFcbDrive == f[DR]
    {
      hide Safe, Ordered;
      LetGo(volume, Abstract(), f[S2 := 0][DR := volume.user]);
      open, home := false, Nothing;
      fcb := f[S2 := 0];
      oldFcbDrive := fcb[DR];
      fcb := fcb[DR := volume.user];
    }

    /** A hard error: the program is abandoned, and its FCB with it. */
    ghost method Abandon()
      requires Inv()
      modifies this`open, this`home
      ensures Inv() && (old(Orderly()) ==> Orderly()) && !open && home == Nothing
    {
      hide Safe, Ordered;
      LetGo(volume, Abstract(), fcb);
      open, home := false, Nothing;
    }

    /** internal_OPENFILE */
    method InternalOpenFile() returns (ok: bool)
      requires Inv() && !open && fcb[DR] == volume.user && fcb[EX] != ANY
      modifies this`fcb, this`directoryPos, this`open, this`home
      ensures Inv() && (old(Orderly()) ==> Orderly())
      ensures (ok <==> open) && (ok <==> old(OwnEntry()).Just?)
      ensures ok ==>
                && home == OwnEntry() == old(OwnEntry()) == Just(directoryPos as nat)
                && directoryPos < |directory| && Live(directory[directoryPos])
                && Matches(volume.dpb.extentMask, old(fcb), directory[directoryPos], KEY)
                && fcb == OpenedFcb(old(fcb), directory[directoryPos])
      ensures !ok ==> fcb == old(fcb) && home == old(home)
    {
      hide Matches, Live, OpenedFcb, Search, NextMatch, SearchEnd, Ordered, Safe;
      VolumeFacts(volume, Abstract());
      SearchIs(volume, directory, cdrmax, fcb);
      ok := FindFirst(fcb, KEY);
      if ok {
        OpenStep(volume, Abstract(), fcb, directoryPos);
        var e := directory[directoryPos];
        var tempb := fcb[EX];
        var f: Fcb := e + fcb[CR..];
        f := f[S2 := f[S2] % 0x80 + 0x80];      // fcb_is_not_modified
        var recordCount := if f[EX] == tempb then f[RC] else if f[EX] >= tempb then 0x80 else 0;
        f := f[RC := recordCount];
        f := f[EX := tempb];
        assert f == OpenedFcb(fcb, e) by { OpenedIs(fcb, e); }
        fcb := f;
        open, home := true, Just(directoryPos as nat);
      }
    }

    /** internal_CREATEFILE */
    method InternalCreateFile() returns (r: Outcome)
      requires Inv() && !open && fcb[DR] == volume.user && SaneFcb(fcb)
      modifies this`fcb, this`directoryPos, this`directory, this`cdrmax, this`open, this`home
      ensures Inv() && (old(Orderly()) ==> Orderly())
      ensures r == HardError <==> writeProtected
      ensures r == Failed <==>
                !writeProtected && (old(OwnEntry()).Just? || forall i :: 0 <= i < |old(directory)| ==> Live(old(directory)[i]))
      ensures r != Done ==> directory == old(directory) && cdrmax == old(cdrmax)
      ensures r == HardError || old(OwnEntry()).Just? ==> fcb == old(fcb) && !open
      ensures r == Failed && old(OwnEntry()) == Nothing ==>
                && open && home == OwnEntry() == Nothing
                && fcb == WithoutBlocks(old(fcb))[DR := DELETED]
      ensures r == Done ==>
                && directoryPos < |old(directory)| && !Live(old(directory)[directoryPos])
                && directory == old(directory)[directoryPos := CreatedEntry(volume.user, old(fcb))]
                && cdrmax == UpdateCdrmax(old(cdrmax), directoryPos)
                && open && home == OwnEntry() && fcb == CreatedFcb(old(fcb))
                && (old(Orderly()) ==> home == Just(directoryPos as nat))
    {
      hide Live, CreatedEntry, CreatedFcb, SaneFcb, Safe, Ordered, SeesDeleted, Search, NextMatch, SearchEnd, UpdateCdrmax,
           WithoutBlocks;
      if writeProtected {
        return HardError;
      }
      VolumeFacts(volume, Abstract());
      SearchIs(volume, directory, cdrmax, fcb);
      var found := FindFirst(fcb, KEY);
      if found {
        return Failed;
      }
      ghost var f, s := fcb, Abstract();
      fcb := WithoutBlocks(fcb);
      fcb := fcb[DR := 0xe5];
      SearchForDeleted(volume, s, fcb);
      found := FindFirst(fcb, 1);
      if !found {
        NotCreated(volume, s, f);
        open, home := true, Nothing;
        return Failed;
      }
      var e := directory[directoryPos];
      e := e[..1] + fcb[1..AL + 16];
      e := e[DR := volume.user];
      CreatedIs(volume, f, e);
      directory := directory[directoryPos := e];
      UpdateCdrmaxField();
      fcb := fcb[S2 := fcb[S2] % 0x80 + 0x80];
      CreatedFcbIs(f, fcb);
      CreateStep(volume, s, f, directoryPos);
      open, home := true, OwnEntry();
      r := Done;
    }

    /** bdos_OPENFILE */
    method OpenFile(f: Fcb) returns (ok: bool)
      requires Inv() && f[EX] != ANY
      modifies this`fcb, this`oldFcbDrive, this`directoryPos, this`open, this`home
      ensures Inv() && (old(Orderly()) ==> Orderly()) && (ok <==> open)
      // The drive is the caller's again, and the record count that of the extent asked for.
      ensures f[DR] < 0x80 ==> fcb[DR] == f[DR]
      ensures fcb[EX] == f[EX] && fcb[CR..] == f[CR..]
      ensures ok && directoryPos < |directory| && directory[directoryPos][RC] <= 0x80 ==>
                var behind := 0x80 * (directory[directoryPos][EX] as int - f[EX] as int) + directory[directoryPos][RC] as int;
                fcb[RC] as int == if behind <= 0 then 0 else if behind >= 0x80 then 0x80 else behind
      ensures var asked := f[S2 := 0][DR := volume.user];
              && (ok <==> Search(volume, directory, cdrmax, asked).Just?)
              && (HighWater(directory, cdrmax) ==>
                    (ok <==> exists i :: 0 <= i < |directory| && Matches(volume.dpb.extentMask, asked, directory[i], KEY)))
              && (ok ==>
                    && home == OwnEntry() == Search(volume, directory, cdrmax, asked) == Just(directoryPos as nat)
                    && directoryPos < |directory| && Live(directory[directoryPos])
                    && Matches(volume.dpb.extentMask, asked, directory[directoryPos], KEY)
                    && fcb == WithDrive(OpenedFcb(asked, directory[directoryPos]), f[DR]))
              && (!ok ==> fcb == WithDrive(asked, f[DR]))
    {
      hide Safe, Ordered, Matches, Live, OpenedFcb, Search, HighWater, WithDrive;
      ghost var asked := f[S2 := 0][DR := volume.user];
      VolumeFacts(volume, Abstract());
      assert UserFcb(volume, asked) == asked;
      if HighWater(directory, cdrmax) {
        FoundExactly(volume, directory, cdrmax, asked);
      }
      NewUserFcb(f);
      ok := InternalOpenFile();
      if ok {
        OpenedCount(asked, directory[directoryPos]);
      }
      DriveBack(fcb, f[DR]);
      EndCall();
    }

    /** bdos_CREATEFILE; the name has no wildcards in it. */
    method CreateFile(f: Fcb) returns (r: Outcome)
      requires Inv() && SaneFcb(f[S2 := 0])
      modifies this`fcb, this`oldFcbDrive, this`directoryPos, this`directory, this`cdrmax, this`open, this`home
      ensures Inv() && (old(Orderly()) ==> Orderly())
      ensures r == HardError <==> writeProtected
      ensures r != HardError && f[DR] < 0x80 ==> fcb[DR] == f[DR]
      ensures r != Done ==> directory == old(directory) && cdrmax == old(cdrmax)
      // With a deleted entry to use, it goes well if and only if no entry in reach of the search bears the key.
      ensures !writeProtected && (exists i :: 0 <= i < |old(directory)| && !Live(old(directory)[i])) ==>
                (r == Done <==> OutOfReach(volume, old(directory), old(cdrmax), f[S2 := 0]))
      ensures var asked := f[S2 := 0][DR := volume.user];
              var taken := Search(volume, old(directory), old(cdrmax), asked);
              && (r == Failed <==>
                    !writeProtected && (taken.Just? || forall i :: 0 <= i < |old(directory)| ==> Live(old(directory)[i])))
              && (r == HardError ==> !open && fcb == asked)
              && (r == Failed && taken.Just? ==> !open && fcb == WithDrive(asked, f[DR]))
              && (r == Failed && taken == Nothing ==>
                    open && home == OwnEntry() == Nothing && fcb == WithDrive(WithoutBlocks(asked)[DR := DELETED], f[DR]))
              && (r == Done ==>
                    && directoryPos < |old(directory)| && !Live(old(directory)[directoryPos])
                    && directory == old(directory)[directoryPos := CreatedEntry(volume.user, asked)]
                    && cdrmax == UpdateCdrmax(old(cdrmax), directoryPos)
                    && open && home == OwnEntry() && fcb == WithDrive(CreatedFcb(asked), f[DR])
                    && (old(Orderly()) ==> home == Just(directoryPos as nat)))
    {
      hide Safe, Ordered, Live, CreatedEntry, CreatedFcb, SaneFcb, Search, WithDrive, WithoutBlocks, UpdateCdrmax, OutOfReach, Fit,
           UserFcb;
      WithoutDrive(volume, f[S2 := 0]);
      VolumeFacts(volume, Abstract());
      UnfoundExactly(volume, directory, cdrmax, f[S2 := 0]);
      AskedAlike(volume, directory, cdrmax, f[S2 := 0]);
      NewUserFcb(f);
      r := InternalCreateFile();
      if r != HardError {
        EndCall();
      }
    }

    /** bdos_CLOSEFILE */
    method CloseFile() returns (r: Outcome)
      requires Inv() && open
      modifies this`fcb, this`oldFcbDrive, this`directoryPos, this`directory, this`open, this`home
      ensures Inv() && (old(Orderly()) ==> Orderly())
      ensures r == HardError <==> old(fcb)[T1] >= 0x80 || writeProtected
      ensures r == HardError ==> !open
      ensures r != HardError ==>
                open && home == old(home) && OwnEntry() == old(OwnEntry()) && KeepsBlocks(volume, old(fcb), fcb)
      // Of the FCB only block numbers and the flag may be different.
      ensures r != HardError ==>
                && (old(fcb)[DR] < 0x80 ==> fcb[DR] == old(fcb)[DR]) && fcb[1..S2] == old(fcb)[1..S2]
                && fcb[S2] % 0x80 == old(fcb)[S2] % 0x80 && fcb[RC] == old(fcb)[RC] && fcb[CR..] == old(fcb)[CR..]
      ensures r == Done ==> fcb[S2] >= 0x80
      ensures r != Done || old(fcb)[S2] >= 0x80 ==> directory == old(directory)
      ensures r == Done && old(fcb)[S2] < 0x80 ==>
                && home == OwnEntry() && home.Just? && home.value < |old(directory)| && |directory| == |old(directory)|
                && directory == old(directory)[home.value := directory[home.value]]
                && ClosedBy(volume, old(directory)[home.value], old(fcb), directory[home.value], fcb)
                && (NamesAll(volume, directory[home.value], fcb) <==> MapsAgree(volume, old(directory)[home.value], old(fcb)))
      ensures r == Failed <==>
                && old(fcb)[T1] < 0x80 && !writeProtected && old(fcb)[S2] < 0x80
                && (old(OwnEntry()).Nothing?
                    || (old(home).Just? && old(home).value < |old(directory)|
                        && MapsClash(volume, old(directory)[old(home).value], old(fcb))))
    {
      hide Safe, Ordered, Live, Slots, KeepsBlocks, MapsClash, Clash, ClosedBy, SameFile, Search, SameEntries, NamesAll, MapsAgree;
      ghost var was := directory;
      BeginCall();
      ghost var f := fcb;
      WithUserCode(volume, old(fcb), f);
      if home.Just? && home.value < |directory| {
        ClashThere(volume, directory[home.value], old(fcb), f);
      }
      r := InternalCloseFile();
      if r == HardError {
        return;
      }
      ghost var f' := fcb;
      EndCall();
      ClosedThere(volume, old(fcb), f, f', fcb);
      DriveBack(f', oldFcbDrive);
      SameFileThere(old(fcb), f, f', fcb);
      if r == Done && f[S2] < 0x80 {
        MapsThere(volume, was[home.value], old(fcb), f);
        MapsThere(volume, directory[home.value], f', fcb);
      }
    }

    /** internal_CLOSEFILE */
    method InternalCloseFile() returns (r: Outcome)
      requires Inv() && open && fcb[DR] == volume.user
      modifies this`fcb, this`directoryPos, this`directory, this`open, this`home
      ensures Inv() && (old(Orderly()) ==> Orderly())
      ensures r == HardError <==> old(fcb)[T1] >= 0x80 || writeProtected
      ensures r == HardError ==> !open && fcb == old(fcb)
      ensures r != HardError ==>
                && open && home == old(home) && OwnEntry() == old(OwnEntry())
                && SameFile(fcb, old(fcb)) && KeepsBlocks(volume, old(fcb), fcb)
      ensures r == Done ==> fcb[S2] >= 0x80
      ensures SameEntries(volume, old(directory), directory)
      // There is nothing to do, or the FCB goes to its entry.
      ensures r == Done && old(fcb)[S2] >= 0x80 ==> fcb == old(fcb) && directory == old(directory)
      ensures r == Done && old(fcb)[S2] < 0x80 ==>
                && home == OwnEntry() && home.Just? && home.value < |old(directory)| && |directory| == |old(directory)|
                && directory == old(directory)[home.value := directory[home.value]]
                && ClosedBy(volume, old(directory)[home.value], old(fcb), directory[home.value], fcb)
                && (NamesAll(volume, directory[home.value], fcb) <==> MapsAgree(volume, old(directory)[home.value], old(fcb)))
      ensures r != Done ==> directory == old(directory)
      ensures r == Failed <==>
                && old(fcb)[T1] < 0x80 && !writeProtected && old(fcb)[S2] < 0x80
                && (old(OwnEntry()).Nothing?
                    || (old(home).Just? && old(home).value < |old(directory)|
                        && MapsClash(volume, old(directory)[old(home).value], old(fcb))))
    {
      hide Live, Slots, EntryKey, SaneFcb, SaneEntry, Safe, Ordered, SeesDeleted, Search, NextMatch, SearchEnd, Plain, Clash,
           Agree, Merged, Matches, SameEntries, NamesAll, MapsAgree, MergedMaps;
      ghost var s := Abstract();
      VolumeFacts(volume, s);
      NoneChanged(volume, directory);
      if fcb[T1] >= 0x80 || writeProtected {
        Abandon();
        return HardError;
      }
      if fcb[S2] >= 0x80 {
        return Done;
      }
      SearchForOwn(volume, s);
      var found := FindFirst(fcb, KEY);
      if !found {
        return Failed;
      }
      var e := directory[directoryPos];
      e := e[RC := fcb[RC]];
      e := e[EX := fcb[EX]];
      var f, e', error := MergeFcbIntoEntry(BigDisk(volume.dpb), fcb, e);
      SlotsOfPart(BigDisk(volume.dpb), e, directory[directoryPos]);
      StillKept(volume, fcb, e, f);
      if error {
        MergeStopped(volume, s, f);
        fcb := f;
        return Failed;
      }
      ClosedIs(volume, directory[directoryPos], fcb, e, e', f, f[S2 := f[S2] % 0x80 + 0x80]);
      ClosedEntry(volume, directory[directoryPos], fcb, e');
      WriteBack(volume, s, e', f[S2 := f[S2] % 0x80 + 0x80]);
      OneClosed(volume, directory, directoryPos, fcb, e', f[S2 := f[S2] % 0x80 + 0x80]);
      directory := directory[directoryPos := e'];
      fcb := f[S2 := f[S2] % 0x80 + 0x80];
      NamesAllExactly(volume, Abstract(), directoryPos, s.directory[directoryPos], s.fcb);
      r := Done;
    }

    // ---------- reading and writing in sequence ----------

    /** Which block number of the FCB is the current one. */
    function CurrentSlot(): nat
      reads this
      requires Fit(volume)
    {
      SlotNumber(volume.dpb, fcb[EX], fcb[CR])
    }

    /** get_fcb_block, with what it leaves in the zero flag. */
    method GetFcbBlock() returns (block: Word, seen: bool)
      requires Fit(volume) && fcb[CR] < 0x80
      ensures CurrentSlot() < |Slots(BigDisk(volume.dpb), fcb)|
      ensures var k := CurrentSlot();
              if volume.dpb.blocksOnDisk >= 0x100 then block as int == fcb[16 + 2 * k] as int + 0x100 * fcb[17 + 2 * k] as int
              else block as int == fcb[16 + k] as int
      ensures block == Slots(BigDisk(volume.dpb), fcb)[CurrentSlot()] && (seen <==> Seen(BigDisk(volume.dpb), block))
    {
      SlotParts(volume.dpb, volume.directoryBlocks, fcb[EX], fcb[CR]);
      hide Shape;
      var y := GetFcbBlockIndex(volume.dpb, volume.directoryBlocks, fcb[EX], fcb[CR]);
      if volume.dpb.blocksOnDisk / 0x100 != 0 {
        y := y + 1;
        if fcb[y - 1] != 0 || fcb[y] != 0 {
          var x := fcb[y];
          y := y - 1;
          var a := fcb[y];
          return Pair(a, x), a != 0;
        }
      }
      block := fcb[y];
      seen := block != 0;
    }

    /** set_fcb_block */
    method SetFcbBlock(block: Word)
      requires Fit(volume) && fcb[CR] < 0x80 && (BigDisk(volume.dpb) || block < 0x100)
      modifies this`fcb
      ensures fcb[..AL] == old(fcb)[..AL] && fcb[CR..] == old(fcb)[CR..]
      ensures CurrentSlot() == old(CurrentSlot()) < |Slots(BigDisk(volume.dpb), fcb)|
      ensures Slots(BigDisk(volume.dpb), fcb) == Slots(BigDisk(volume.dpb), old(fcb))[old(CurrentSlot()) := block]
    {
      ghost var f, k := fcb, CurrentSlot();
      SlotParts(volume.dpb, volume.directoryBlocks, fcb[EX], fcb[CR]);
      hide Shape, SlotNumber;
      var y := GetFcbBlockIndex(volume.dpb, volume.directoryBlocks, fcb[EX], fcb[CR]);
      fcb := fcb[y := Lo(block)];
      if volume.dpb.blocksOnDisk / 0x100 != 0 {
        y := y + 1;
        fcb := fcb[y := Hi(block)];
      }
      assert fcb == SetSlot(BigDisk(volume.dpb), f, k, block);
    }

    /** seek_to_block_and_create; the block is the FCB's, or the least unused one if the FCB's is not seen. */
    method SeekToBlockAndCreate() returns (r: Transfer)
      requires Inv() && open && fcb[CR] < 0x80
      modifies this`fcb, this`open, this`home, allocator.bitmap
      ensures Inv() && (old(Orderly()) ==> Orderly()) && CurrentSlot() == old(CurrentSlot()) < |Slots(BigDisk(volume.dpb), fcb)|
      ensures r == Abandoned || r.AtSector?
      ensures r == Abandoned ==> allocator.bitmap[..] == old(allocator.bitmap[..])
      ensures r.AtSector? ==>
                && open && home == old(home)
                && r.sector == Sector(volume.dpb, Slots(BigDisk(volume.dpb), fcb)[CurrentSlot()], fcb[CR])
      ensures var big := BigDisk(volume.dpb);
              var before := Slots(big, old(fcb))[old(CurrentSlot())];
              && (Seen(big, before) ==> r.AtSector? && fcb == old(fcb) && allocator.bitmap[..] == old(allocator.bitmap[..]))
              && (!Seen(big, before) && r.AtSector? ==>
                    TookBlock(volume, old(fcb), old(CurrentSlot()), old(allocator.bitmap[..]), fcb, allocator.bitmap[..]))
              && (r == Abandoned <==> !Seen(big, before) && AllUsed(old(allocator.bitmap[..]), 0, volume.dpb.blocksOnDisk))
    {
      ghost var s := Abstract();
      VolumeFacts(volume, s);
      hide Safe, Ordered, Slots, Seen, WithBit, Bit, Sector, SlotNumber, Shape, Search;
      var block, seen := GetFcbBlock();
      if !seen {
        fcb := fcb[S2 := fcb[S2] % 0x80];       // fcb_is_modified
        Unflagged(volume, s.fcb, fcb);
        var a := allocator.AllocateUnusedBlock();
        if a == DiskFull {
          LetGo(volume, s, fcb);
          open, home := false, Nothing;
          return Abandoned;
        }
        block := a.block;
        SetFcbBlock(block);
        SameKeyPart(fcb, s.fcb);
        TakeBlock(volume, s, CurrentSlot(), block, fcb);
      }
      var lo, mid, hi := GetSequentialSectorNumber(volume.dpb, volume.directoryBlocks, block, fcb[CR]);
      r := AtSector(Triple(lo, mid, hi));
    }

    method MoveOn()
      modifies this`fcb
      ensures fcb == MovedOnFcb(old(fcb))
    {
      fcb := fcb[EX := Inc(fcb[EX]) % 0x20];
      if fcb[EX] == 0 {
        fcb := fcb[S2 := Inc(fcb[S2])];
      }
      fcb := fcb[CR := 0];
      fcb := fcb[RC := 0];
    }

    /** close_extent_and_move_to_next_one; how closing goes does not matter if it comes back. */
    method CloseExtentAndMoveOn() returns (r: Outcome)
      requires Inv() && open && fcb[DR] == volume.user && ExtentNumber(fcb) < LAST_EXTENT
      modifies this`fcb, this`directoryPos, this`directory, this`open, this`home
      ensures Inv() && (old(Orderly()) ==> Orderly()) && !open && (r == Done || r == HardError)
      ensures r == HardError <==> old(fcb)[T1] >= 0x80 || writeProtected
      ensures Untouched(old(directory), directory, old(home), Nothing) && SameEntries(volume, old(directory), directory)
      ensures r == Done ==>
                && SaneFcb(fcb) && fcb[..EX] == old(fcb)[..EX] && ExtentNumber(fcb) == ExtentNumber(old(fcb)) + 1
                && fcb[CR] == 0 && fcb[RC] == 0 && KeepsBlocks(volume, old(fcb), fcb)
                && fcb[1..S2] == MovedOnFcb(old(fcb))[1..S2] && fcb[S2] % 0x80 == MovedOnFcb(old(fcb))[S2] % 0x80
                && OwnEntry() == Search(volume, old(directory), cdrmax, MovedOnFcb(old(fcb)))
      // The FCB could be taken up again with the blocks it has.
      ensures r == Done ==> Allocated(volume, Abstract().(open := true, home := old(home)))
      ensures old(home).Just? ==> old(home).value < |directory| && Live(directory[old(home).value])
    {
      hide Safe, Ordered, Live, KeepsBlocks, ClosedBy, MapsClash, MovedOnFcb, SaneFcb, SameFile, Search, SameEntries,
           SaneEntry, EntryKey, Allocated, Slots, Matches, ExtentNumber;
      ghost var was := Abstract();
      VolumeFacts(volume, was);
      TiedFacts(volume, was);
      r := InternalCloseFile();
      ClosingTouches(volume, was.directory, directory, home);
      if r == HardError {
        SameLive(volume, was.directory, directory, was.home);
        return;
      }
      ghost var f, s := fcb, Abstract();
      TiedFacts(volume, s);
      MoveOn();
      MovedOn(volume, old(fcb), f, fcb);
      AllocatedBy(volume, s, fcb);
      SameSearch(volume, directory, cdrmax, MovedOnFcb(old(fcb)), fcb);
      SearchedAlike(volume, was.directory, directory, cdrmax, MovedOnFcb(old(fcb)));
      LetGo(volume, s, fcb);
      open, home := false, Nothing;
      r := Done;
    }

    /** The extent is full: the next one is opened or, if there is none, created. */
    method NextExtentForWriting() returns (ok: bool)
      requires Inv() && open && fcb[DR] == volume.user && ExtentNumber(fcb) < LAST_EXTENT
      requires fcb[T1] < 0x80 && !writeProtected
      modifies this`fcb, this`directoryPos, this`directory, this`cdrmax, this`open, this`home
      ensures Inv() && (old(Orderly()) ==> Orderly()) && open && home == OwnEntry()
      ensures SameName(fcb, old(fcb)) && ExtentNumber(fcb) == ExtentNumber(old(fcb)) + 1 && fcb[CR] == 0
      ensures Untouched(old(directory), directory, old(home), Just(directoryPos as nat))
      ensures LiveUntouched(old(directory), directory, old(home))
      ensures !ok <==>
                && Search(volume, old(directory), old(cdrmax), MovedOnFcb(old(fcb))) == Nothing
                && forall i :: 0 <= i < |old(directory)| ==> Live(old(directory)[i])
      ensures !ok ==> home == Nothing
    {
      hide Safe, Ordered, Live, KeepsBlocks, SaneFcb, OpenedFcb, CreatedEntry, CreatedFcb, AllZero, Matches, EntryKey, Search,
           MovedOnFcb, SameEntries, Allocated, WithoutBlocks, UpdateCdrmax, ExtentNumber;
      ghost var was := directory;
      var closed := CloseExtentAndMoveOn();
      ghost var f, now := fcb, directory;
      fcb := fcb[RC := 0];
      assert fcb == f;
      AllLiveToo(volume, was, now);
      ClosedSameName(old(fcb), f);
      VolumeFacts(volume, Abstract());
      var found := InternalOpenFile();
      if found {
        OpenedSameName(volume, f, directory[directoryPos], fcb);
        SameNames(fcb, f, old(fcb));
        return true;
      }
      var created := InternalCreateFile();
      CreatedBytes(volume, f);
      NoKeyChange(volume, f);
      SameNames(fcb, f, old(fcb));
      ok := created == Done;
      if ok {
        OneMoreTouched(volume, was, now, directory, directoryPos, old(home));
      }
    }

    /** The FCB goes on to the next record. */
    method Advance()
      modifies this`fcb
      ensures fcb == AdvancedFcb(old(fcb))
    {
      var a := Inc(fcb[CR]);
      fcb := fcb[CR := a];
      if a >= fcb[RC] {
        fcb := fcb[RC := a];
        fcb := fcb[S2 := fcb[S2] % 0x80];       // fcb_is_modified
      }
    }

    /** The record at CR is written, and the FCB goes on to the next. */
    method WriteRecord() returns (r: Transfer)
      requires Inv() && open && fcb[CR] < 0x80
      modifies this`fcb, this`open, this`home, allocator.bitmap
      ensures Inv() && (old(Orderly()) ==> Orderly()) && (r == Abandoned || r.AtSector?)
      ensures r == Abandoned ==>
                allocator.bitmap[..] == old(allocator.bitmap[..]) && AllUsed(allocator.bitmap[..], 0, volume.dpb.blocksOnDisk)
      ensures r == Abandoned <==> old(NextBlock(volume, Abstract())) == Nothing
      ensures r.AtSector? ==>
                && open && home == old(home) && OwnEntry() == old(OwnEntry())
                && WroteAt(volume, Abstract(), old(fcb), old(CurrentSlot()), fcb, r.sector)
                && TookIfUnseen(volume, old(fcb), old(CurrentSlot()), old(allocator.bitmap[..]), fcb, allocator.bitmap[..])
    {
      ghost var s0 := Abstract();
      VolumeFacts(volume, s0);
      TiedFacts(volume, s0);
      hide Safe, Ordered, Slots, Seen, WithBit, Bit, Sector, SlotNumber, Shape, TookBlock, SaneFcb, TookIfUnseen, WroteAt,
           AllUsed, BigDisk, BlockRecords, Live, Search, NextBlock, Fit, Covers, AdvancedFcb;
      NoNextExactly(volume, s0);
      r := SeekToBlockAndCreate();
      if r == Abandoned {
        return;
      }
      ghost var s, k := Abstract(), CurrentSlot();
      Advance();
      RecordWritten(volume, s0, s, k, fcb, r.sector);
    }

    /** At the end of an extent, on to the next. */
    method SettleForWriting() returns (ok: bool)
      requires Inv() && open && fcb[DR] == volume.user && fcb[T1] < 0x80 && !writeProtected
      requires fcb[CR] <= 0x80 && (fcb[CR] == 0x80 ==> ExtentNumber(fcb) < LAST_EXTENT)
      modifies this`fcb, this`directoryPos, this`directory, this`cdrmax, this`open, this`home
      ensures Inv() && (old(Orderly()) ==> Orderly()) && open && fcb[CR] < 0x80
      ensures var next := if old(fcb)[CR] == 0x80 then 1 else 0;
              SameName(fcb, old(fcb)) && ExtentNumber(fcb) == ExtentNumber(old(fcb)) + next && fcb[CR] == old(fcb)[CR] % 0x80
      ensures Untouched(old(directory), directory, old(home), Just(directoryPos as nat))
      ensures LiveUntouched(old(directory), directory, old(home))
      ensures !ok <==>
                && old(fcb)[CR] == 0x80 && Search(volume, old(directory), old(cdrmax), MovedOnFcb(old(fcb))) == Nothing
                && forall i :: 0 <= i < |old(directory)| ==> Live(old(directory)[i])
      ensures old(fcb)[CR] == 0x80 ==> home == OwnEntry()
      ensures old(fcb)[CR] < 0x80 ==> Abstract() == old(Abstract())
    {
      hide Inv, Orderly, OwnEntry, Safe, Ordered, Live, Search, SameName, Untouched, LiveUntouched, MovedOnFcb, ExtentNumber;
      SameFcb(fcb);
      Same(directory, home, Just(directoryPos as nat));
      ok := true;
      if fcb[CR] == 0x80 {
        ok := NextExtentForWriting();
      }
    }

    /** bdos_WRITESEQUENTIAL, once the user code is in place of the drive. */
    method InternalWriteSequential() returns (r: Transfer)
      requires Inv() && open && fcb[DR] == volume.user
      requires fcb[CR] <= 0x80 && (fcb[CR] == 0x80 ==> ExtentNumber(fcb) < LAST_EXTENT)
      modifies this`fcb, this`directoryPos, this`directory, this`cdrmax, this`open, this`home, allocator.bitmap
      ensures Inv() && (old(Orderly()) ==> Orderly()) && r != NoData
      ensures Untouched(old(directory), directory, old(home), Just(directoryPos as nat))
      ensures LiveUntouched(old(directory), directory, old(home))
      ensures r.AtSector? ==> open && AtRecord(volume, Abstract(), old(fcb), fcb, r.sector) && fcb[RC] >= fcb[CR]
      // A write that makes the extent longer, or takes a block, marks the FCB as modified.
      ensures r.AtSector? ==> fcb[S2] < 0x80 || fcb[CR] < fcb[RC]
      ensures r.AtSector? && old(fcb)[CR] < 0x80 ==>
                CountAndFlag(volume, old(fcb), old(CurrentSlot()), fcb)
      ensures r.AtSector? ==>
                if old(fcb)[CR] == 0x80 then home == OwnEntry() else home == old(home) && OwnEntry() == old(OwnEntry())
      ensures old(fcb)[CR] < 0x80 ==> directory == old(directory) && cdrmax == old(cdrmax)
      ensures r == DirectoryFull <==>
                && old(fcb)[CR] == 0x80 && old(fcb)[T1] < 0x80 && !writeProtected
                && Search(volume, old(directory), old(cdrmax), MovedOnFcb(old(fcb))) == Nothing
                && forall i :: 0 <= i < |old(directory)| ==> Live(old(directory)[i])
      ensures !r.AtSector? ==> allocator.bitmap[..] == old(allocator.bitmap[..])
      ensures old(fcb)[T1] >= 0x80 || writeProtected ==> r == Abandoned
      ensures r == Abandoned ==>
                old(fcb)[T1] >= 0x80 || writeProtected || AllUsed(allocator.bitmap[..], 0, volume.dpb.blocksOnDisk)
      ensures old(fcb)[CR] < 0x80 ==>
                && (old(fcb)[T1] < 0x80 && !writeProtected ==>
                      (r == Abandoned <==> old(NextBlock(volume, Abstract())) == Nothing))
                && (r.AtSector? ==>
                      TookIfUnseen(volume, old(fcb), old(CurrentSlot()), old(allocator.bitmap[..]), fcb, allocator.bitmap[..]))
    {
      VolumeFacts(volume, Abstract());
      hide Safe, Ordered, Slots, Seen, SlotNumber, Shape, SaneFcb, WroteAt, Live, Search, AllUsed, AtRecord, TookIfUnseen,
           SameName, Untouched, LiveUntouched, MovedOnFcb, NextBlock, ExtentNumber, BigDisk, Fit;
      Same(directory, home, Just(directoryPos as nat));
      if fcb[T1] >= 0x80 || writeProtected {
        Abandon();
        return Abandoned;
      }
      var ok := SettleForWriting();
      if !ok {
        return DirectoryFull;
      }
      ghost var f, slot := fcb, CurrentSlot();
      r := WriteRecord();
      if r.AtSector? {
        WrittenPassed(volume, Abstract(), old(fcb), f, slot, fcb, r.sector);
      }
    }

    /** bdos_WRITESEQUENTIAL, */
    method WriteAndRestore() returns (r: Transfer)
      requires Inv() && open && fcb[CR] <= 0x80 && (fcb[CR] == 0x80 ==> ExtentNumber(fcb) < LAST_EXTENT)
      modifies this`fcb, this`oldFcbDrive, this`directoryPos, this`directory, this`cdrmax, this`open, this`home,
               allocator.bitmap
      ensures Inv() && (old(Orderly()) ==> Orderly()) && r != NoData
      ensures Untouched(old(directory), directory, old(home), Just(directoryPos as nat))
      ensures LiveUntouched(old(directory), directory, old(home))
      ensures r.AtSector? ==> open && AtRecord(volume, Abstract(), old(fcb), fcb, r.sector) && fcb[RC] >= fcb[CR]
      ensures oldFcbDrive == old(fcb)[DR] && (r != Abandoned && oldFcbDrive < 0x80 ==> fcb[DR] == oldFcbDrive)
      // A write that makes the extent longer, or takes a block, marks the FCB as modified.
      ensures r.AtSector? ==> fcb[S2] < 0x80 || fcb[CR] < fcb[RC]
      ensures r.AtSector? && old(fcb)[CR] < 0x80 ==>
                CountAndFlag(volume, old(fcb), old(CurrentSlot()), fcb)
      ensures r.AtSector? ==>
                if old(fcb)[CR] == 0x80 then home == OwnEntry() else home == old(home) && OwnEntry() == old(OwnEntry())
      ensures old(fcb)[CR] < 0x80 ==> directory == old(directory) && cdrmax == old(cdrmax)
      ensures r == DirectoryFull <==>
                && old(fcb)[CR] == 0x80 && old(fcb)[T1] < 0x80 && !writeProtected
                && Search(volume, old(directory), old(cdrmax), MovedOnFcb(old(fcb))) == Nothing
                && forall i :: 0 <= i < |old(directory)| ==> Live(old(directory)[i])
      ensures !r.AtSector? ==> allocator.bitmap[..] == old(allocator.bitmap[..])
      ensures old(fcb)[T1] >= 0x80 || writeProtected ==> r == Abandoned
      ensures r == Abandoned ==>
                old(fcb)[T1] >= 0x80 || writeProtected || AllUsed(allocator.bitmap[..], 0, volume.dpb.blocksOnDisk)
      // Within an extent, the next block is what the record goes to.
      ensures old(fcb)[CR] < 0x80 ==>
                && (old(fcb)[T1] < 0x80 && !writeProtected ==>
                      (r == Abandoned <==> old(NextBlock(volume, Abstract())) == Nothing))
                && (r.AtSector? ==>
                      TookIfUnseen(volume, old(fcb), old(CurrentSlot()), old(allocator.bitmap[..]), fcb, allocator.bitmap[..]))
    {
      VolumeFacts(volume, Abstract());
      hide Safe, Ordered, Slots, Seen, SlotNumber, Shape, Live, AllUsed, AtRecord, TookIfUnseen, SameName, Untouched,
           LiveUntouched, MovedOnFcb, NextBlock, Search, ExtentNumber, WithDrive, BigDisk, CountAndFlag, Position;
      ghost var s0 := Abstract();
      BeginCall();
      ghost var f := fcb;
      WithUserCode(volume, old(fcb), f);
      MovedOnUser(volume, directory, cdrmax, old(fcb), f);
      if fcb[CR] < 0x80 {
        NextBlockUser(volume, s0, Abstract());
      }
      r := InternalWriteSequential();
      if r == Abandoned {
        return;
      }
      ghost var s, f' := Abstract(), fcb;
      EndCall();
      DriveBack(f', oldFcbDrive);
      if r.AtSector? {
        WriteThere(volume, s, s0.fcb, f, Abstract(), r.sector, s0.bits);
      }
    }

    /** where the next block and the next position are. */
    method WriteSequential() returns (r: Transfer)
      requires Inv() && open && fcb[CR] <= 0x80 && (fcb[CR] == 0x80 ==> ExtentNumber(fcb) < LAST_EXTENT)
      modifies this`fcb, this`oldFcbDrive, this`directoryPos, this`directory, this`cdrmax, this`open, this`home,
               allocator.bitmap
      ensures Inv() && (old(Orderly()) ==> Orderly()) && r != NoData
      ensures Untouched(old(directory), directory, old(home), Just(directoryPos as nat))
      ensures LiveUntouched(old(directory), directory, old(home))
      ensures r.AtSector? ==> open && AtRecord(volume, Abstract(), old(fcb), fcb, r.sector) && fcb[RC] >= fcb[CR]
      ensures r != Abandoned && old(fcb)[DR] < 0x80 ==> fcb[DR] == old(fcb)[DR]
      ensures r.AtSector? ==> Position(fcb) == Position(old(fcb)) + 1 && fcb[CR] as int == old(fcb)[CR] % 0x80 + 1
      // A write that makes the extent longer, or takes a block, marks the FCB as modified.
      ensures r.AtSector? ==> fcb[S2] < 0x80 || fcb[CR] < fcb[RC]
      ensures r.AtSector? && old(fcb)[CR] < 0x80 ==>
                CountAndFlag(volume, old(fcb), old(CurrentSlot()), fcb)
      ensures r.AtSector? ==>
                if old(fcb)[CR] == 0x80 then home == OwnEntry() else home == old(home) && OwnEntry() == old(OwnEntry())
      ensures old(fcb)[CR] < 0x80 ==> directory == old(directory) && cdrmax == old(cdrmax)
      ensures r == DirectoryFull <==>
                && old(fcb)[CR] == 0x80 && old(fcb)[T1] < 0x80 && !writeProtected
                && Search(volume, old(directory), old(cdrmax), MovedOnFcb(old(fcb))) == Nothing
                && forall i :: 0 <= i < |old(directory)| ==> Live(old(directory)[i])
      ensures !r.AtSector? ==> allocator.bitmap[..] == old(allocator.bitmap[..])
      ensures old(fcb)[T1] >= 0x80 || writeProtected ==> r == Abandoned
      ensures r == Abandoned ==>
                old(fcb)[T1] >= 0x80 || writeProtected || AllUsed(allocator.bitmap[..], 0, volume.dpb.blocksOnDisk)
      // Within an extent, the next block is what the record goes to.
      ensures old(fcb)[CR] < 0x80 ==>
                && (old(fcb)[T1] < 0x80 && !writeProtected ==>
                      (r == Abandoned <==> old(NextBlock(volume, Abstract())) == Nothing))
                && (r.AtSector? ==>
                      && TookIfUnseen(volume, old(fcb), old(CurrentSlot()), old(allocator.bitmap[..]), fcb, allocator.bitmap[..])
                      && old(NextBlock(volume, Abstract())) == Just(Slots(BigDisk(volume.dpb), fcb)[old(CurrentSlot())]))
    {
      ghost var s0 := Abstract();
      VolumeFacts(volume, s0);
      hide Inv, Orderly, OwnEntry, Safe, Ordered, Slots, Seen, SlotNumber, Shape, Live, AllUsed, AtRecord, TookIfUnseen, Untouched,
           LiveUntouched, MovedOnFcb, NextBlock, Search, ExtentNumber, BigDisk, CountAndFlag, Position;
      r := WriteAndRestore();
      if r.AtSector? {
        OneFurther(volume, Abstract(), s0.fcb, fcb, r.sector);
        if s0.fcb[CR] < 0x80 {
          NextIsTaken(volume, s0, fcb, allocator.bitmap[..]);
        }
      }
    }

    /**
     A write and a close. If both go well, the entry covers the record that was written, so opening the
     extent again gives an FCB that does.
     */
    method WriteThenClose() returns (w: Transfer, c: Outcome)
      requires Inv() && Orderly() && open && fcb[CR] <= 0x80 && (fcb[CR] == 0x80 ==> ExtentNumber(fcb) < LAST_EXTENT)
      modifies this`fcb, this`oldFcbDrive, this`directoryPos, this`directory, this`cdrmax, this`open, this`home,
               allocator.bitmap
      ensures Inv() && Orderly()
      ensures w.AtSector? && c == Done && OwnEntry().Just? ==>
                && home == OwnEntry() && home.value < |directory| && Position(fcb) == Position(old(fcb)) + 1
                && Tells(directory[home.value], fcb[EX], fcb[CR])
    {
      hide Inv, Orderly, OwnEntry, Safe, Ordered, Slots, Seen, SlotNumber, Shape, Live, AllUsed, AtRecord, TookIfUnseen, Untouched,
           LiveUntouched, MovedOnFcb, NextBlock, Search, ExtentNumber, BigDisk, CountAndFlag, KeepsBlocks, MapsClash, NamesAll,
           MapsAgree;
      c := Failed;
      w := WriteSequential();
      if w.AtSector? {
        ghost var f := fcb;
        c := CloseFile();
        assert c != HardError ==> fcb[CR] == fcb[CR..][0] == f[CR..][0] == f[CR];
        if c == Done && OwnEntry().Just? {
          Covered();
        }
      }
    }

    lemma Covered()
      requires Inv() && Orderly() && open && OwnEntry().Just? && fcb[S2] >= 0x80 && 0 < fcb[CR] <= fcb[RC]
      ensures home == OwnEntry() && home.value < |directory| && Tells(directory[home.value], fcb[EX], fcb[CR])
    {
      hide Safe, Ordered, Search;
      EntryCovers(volume, Abstract());
    }

    method NextExtentForReading() returns (r: Outcome)
      requires Inv() && open && fcb[DR] == volume.user && ExtentNumber(fcb) < LAST_EXTENT
      modifies this`fcb, this`directoryPos, this`directory, this`open, this`home
      ensures Inv() && (old(Orderly()) ==> Orderly())
      ensures Untouched(old(directory), directory, old(home), Nothing) && SameEntries(volume, old(directory), directory)
      ensures r == HardError <==> old(fcb)[T1] >= 0x80 || writeProtected
      ensures var next := Search(volume, old(directory), cdrmax, MovedOnFcb(old(fcb)));
              && (r != HardError ==>
                    && open && OwnEntry() == next && ExtentNumber(fcb) == ExtentNumber(old(fcb)) + 1 && fcb[CR] == 0)
              && (r == Done ==> home == next && home.Just? && SameName(fcb, old(fcb)))
              && (r == Failed ==> next == Nothing)
      // The FCB is left behind.
      ensures r == Failed ==>
                && home == old(home) && fcb[RC] == 0 && KeepsBlocks(volume, old(fcb), fcb)
                && (old(OwnEntry()).Just? ==> CurrentSlot() == 0)
    {
      hide Safe, Ordered, Live, KeepsBlocks, SaneFcb, OpenedFcb, Matches, EntryKey, Search, MovedOnFcb, SameEntries, Allocated,
           ExtentNumber, Shape, SlotNumber, Untouched;
      ghost var was := Abstract();
      VolumeFacts(volume, was);
      TiedFacts(volume, was);
      r := CloseExtentAndMoveOn();
      if r == HardError {
        return;
      }
      ghost var f := fcb;
      ClosedSameName(old(fcb), f);
      var ok := InternalOpenFile();
      if !ok {
        StillHeld(volume, Abstract(), was.home);
        open, home := true, was.home;
        if was.home.Just? && Found(volume, was).Just? {
          LeftAtFirst(volume, was, fcb);
        }
        return Failed;
      }
      OpenedSameName(volume, f, directory[directoryPos], fcb);
      SameNames(fcb, f, old(fcb));
      r := Done;
    }

    /** The record at CR is read, if it has a block to be seen, and the FCB goes on to the next. */
    method ReadRecord() returns (r: Transfer)
      requires Inv() && open && fcb[CR] < 0x80
      modifies this`fcb
      ensures Inv() && (old(Orderly()) ==> Orderly()) && OwnEntry() == old(OwnEntry()) && r == CurrentSector(volume, old(fcb))
      ensures r == NoData ==> fcb == old(fcb)
      ensures r.AtSector? ==>
                && fcb == old(fcb)[CR := Inc(old(fcb)[CR])] && old(CurrentSlot()) < |Slots(BigDisk(volume.dpb), old(fcb))|
                && OwnBlock(volume, Abstract(), Slots(BigDisk(volume.dpb), old(fcb))[old(CurrentSlot())])
    {
      VolumeFacts(volume, Abstract());
      TiedFacts(volume, Abstract());
      hide Safe, Ordered, Slots, Seen, Bit, Sector, SlotNumber, Shape, Live, BigDisk, SeesDeleted, Triple, SaneFcb, Search;
      var block, seen := GetFcbBlock();
      if !seen {
        return NoData;
      }
      ghost var k, s := CurrentSlot(), Abstract();
      var lo, mid, hi := GetSequentialSectorNumber(volume.dpb, volume.directoryBlocks, block, fcb[CR]);
      r := AtSector(Triple(lo, mid, hi));
      SeenIsUsed(BigDisk(volume.dpb), block);
      FcbBlockIsOwn(volume, s, k);
      fcb := fcb[CR := Inc(fcb[CR])];
      Touch(volume, s, fcb);
      SameSearch(volume, directory, cdrmax, s.fcb, fcb);
    }

    /** At the end of an extent, on to the next; only at the end of the file is there none. */
    method SettleForReading() returns (r: Outcome)
      requires Inv() && open && fcb[DR] == volume.user && fcb[CR] <= 0x80
      requires fcb[CR] == 0x80 ==> fcb[RC] == 0x80 && ExtentNumber(fcb) < LAST_EXTENT
      modifies this`fcb, this`directoryPos, this`directory, this`open, this`home
      ensures Inv() && (old(Orderly()) ==> Orderly())
      ensures Untouched(old(directory), directory, old(home), Nothing) && SameEntries(volume, old(directory), directory)
      ensures r == HardError <==> old(fcb)[CR] == 0x80 && (old(fcb)[T1] >= 0x80 || writeProtected)
      ensures r == Done ==>
                && open && fcb[CR] < 0x80
                && var next := if old(fcb)[CR] == 0x80 then 1 else 0;
                   SameName(fcb, old(fcb)) && ExtentNumber(fcb) == ExtentNumber(old(fcb)) + next && fcb[CR] == old(fcb)[CR] % 0x80
      ensures old(fcb)[CR] < 0x80 ==> Abstract() == old(Abstract()) && (r == Failed <==> old(fcb)[CR] == old(fcb)[RC])
      ensures old(fcb)[CR] == 0x80 && r != HardError ==>
                var next := Search(volume, old(directory), cdrmax, MovedOnFcb(old(fcb)));
                && open && OwnEntry() == next && (r == Done <==> next.Just?) && (next.Just? ==> home == next)
                && (next == Nothing ==>
                      && home == old(home) && ExtentNumber(fcb) == ExtentNumber(old(fcb)) + 1
                      && fcb[CR] == 0 && fcb[RC] == 0 && KeepsBlocks(volume, old(fcb), fcb)
                      && (old(OwnEntry()).Just? ==> CurrentSlot() == 0))
    {
      VolumeFacts(volume, Abstract());
      hide Inv, Orderly, OwnEntry, Safe, Ordered, Search, SameName, Untouched, SameEntries, MovedOnFcb, ExtentNumber,
           KeepsBlocks, Fit, SlotNumber;
      SameFcb(fcb);
      Same(directory, home, Nothing);
      NoneChanged(volume, directory);
      r := Done;
      if fcb[CR] == fcb[RC] {
        if fcb[CR] != 0x80 {
          return Failed;
        }
        r := NextExtentForReading();
      }
    }

    /** internal_READSEQUENTIAL; at the end of an extent the FCB is closed, which a read-only file does not survive. */
    method InternalReadSequential() returns (r: Transfer)
      requires Inv() && open && fcb[DR] == volume.user && fcb[CR] <= 0x80
      requires fcb[CR] == 0x80 ==> fcb[RC] == 0x80 && ExtentNumber(fcb) < LAST_EXTENT
      modifies this`fcb, this`directoryPos, this`directory, this`open, this`home
      ensures Inv() && (old(Orderly()) ==> Orderly()) && r != DirectoryFull
      ensures r == Abandoned <==> old(fcb)[CR] == 0x80 && (old(fcb)[T1] >= 0x80 || writeProtected)
      ensures Untouched(old(directory), directory, old(home), Nothing) && SameEntries(volume, old(directory), directory)
      ensures r.AtSector? ==> open && AtRecord(volume, Abstract(), old(fcb), fcb, r.sector)
      ensures old(fcb)[CR] < 0x80 ==> fcb[..CR] == old(fcb)[..CR] && (r == NoData ==> fcb[CR] == old(fcb)[CR])
      ensures old(fcb)[CR] < 0x80 ==>
                && directory == old(directory) && open && home == old(home) && OwnEntry() == old(OwnEntry())
                && r == if old(fcb)[CR] == old(fcb)[RC] then NoData else CurrentSector(volume, old(fcb))
      // The next extent's entry is the FCB's if there is one; if not, the FCB is left behind.
      ensures old(fcb)[CR] == 0x80 && r != Abandoned ==>
                var next := Search(volume, old(directory), cdrmax, MovedOnFcb(old(fcb)));
                && open && OwnEntry() == next && (next.Just? ==> home == next)
                && (next == Nothing ==>
                      && r == NoData && home == old(home) && ExtentNumber(fcb) == ExtentNumber(old(fcb)) + 1
                      && fcb[CR] == 0 && fcb[RC] == 0 && KeepsBlocks(volume, old(fcb), fcb)
                      && (old(OwnEntry()).Just? ==> CurrentSlot() == 0))
    {
      VolumeFacts(volume, Abstract());
      hide Safe, Ordered, Slots, Seen, Sector, SlotNumber, Shape, SaneFcb, KeepsBlocks, MovedOnFcb, SameName, Untouched,
           AtRecord, OwnBlock, ExtentNumber, BigDisk, BlockRecords, Search, SameEntries, CurrentSector;
      var settled := SettleForReading();
      if settled != Done {
        return if settled == HardError then Abandoned else NoData;
      }
      ghost var f := fcb;
      r := ReadRecord();
      if r.AtSector? {
        ReadPassed(volume, old(fcb), f, Abstract(), r.sector);
      }
    }

    /** bdos_READSEQUENTIAL, */
    method ReadAndRestore() returns (r: Transfer)
      requires Inv() && open && fcb[CR] <= 0x80
      requires fcb[CR] == 0x80 ==> fcb[RC] == 0x80 && ExtentNumber(fcb) < LAST_EXTENT
      modifies this`fcb, this`oldFcbDrive, this`directoryPos, this`directory, this`open, this`home
      ensures Inv() && (old(Orderly()) ==> Orderly()) && r != DirectoryFull
      ensures r == Abandoned <==> old(fcb)[CR] == 0x80 && (old(fcb)[T1] >= 0x80 || writeProtected)
      ensures Untouched(old(directory), directory, old(home), Nothing) && SameEntries(volume, old(directory), directory)
      ensures r.AtSector? ==> open && AtRecord(volume, Abstract(), old(fcb), fcb, r.sector)
      ensures oldFcbDrive == old(fcb)[DR] && (r != Abandoned && oldFcbDrive < 0x80 ==> fcb[DR] == oldFcbDrive)
      ensures old(fcb)[CR] < 0x80 ==> fcb[1..CR] == old(fcb)[1..CR] && (r == NoData ==> fcb[CR] == old(fcb)[CR])
      ensures old(fcb)[CR] < 0x80 ==>
                && directory == old(directory) && open && home == old(home) && OwnEntry() == old(OwnEntry())
                && r == if old(fcb)[CR] == old(fcb)[RC] then NoData else CurrentSector(volume, old(fcb))
      // The next extent's entry is the FCB's if there is one; if not, the FCB is left behind with its old
      // blocks, the first of which is up next.
      ensures old(fcb)[CR] == 0x80 && r != Abandoned ==>
                var next := Search(volume, old(directory), cdrmax, MovedOnFcb(old(fcb)));
                && open && OwnEntry() == next && (next.Just? ==> home == next)
                && (next == Nothing ==>
                      && r == NoData && home == old(home) && ExtentNumber(fcb) == ExtentNumber(old(fcb)) + 1
                      && fcb[CR] == 0 && fcb[RC] == 0 && KeepsBlocks(volume, old(fcb), fcb)
                      && (old(OwnEntry()).Just? ==> CurrentSlot() == 0))
    {
      VolumeFacts(volume, Abstract());
      hide Safe, Ordered, Slots, SlotNumber, Shape, Live, AtRecord, SameName, Untouched, KeepsBlocks, MovedOnFcb,
           Search, SameEntries, WithDrive, ExtentNumber, BigDisk, CurrentSector;
      BeginCall();
      ghost var f := fcb;
      WithUserCode(volume, old(fcb), f);
      MovedOnUser(volume, directory, cdrmax, old(fcb), f);
      r := InternalReadSequential();
      if r == Abandoned {
        return;
      }
      ghost var s, f' := Abstract(), fcb;
      EndCall();
      DriveBack(f', oldFcbDrive);
      WithUserCode(volume, f', fcb);
      if r.AtSector? {
        RecordThere(volume, s, old(fcb), f, Abstract(), r.sector);
      }
      if old(fcb)[CR] < 0x80 {
        SectorThere(volume, old(fcb), f);
        FrontThere(old(fcb), f, f', fcb);
      } else if OwnEntry() == Nothing {
        StaleBlocks(volume, old(fcb), f, f', fcb);
      }
    }

    /** and where it leaves the FCB. */
    method ReadSequential() returns (r: Transfer)
      requires Inv() && open && fcb[CR] <= 0x80
      requires fcb[CR] == 0x80 ==> fcb[RC] == 0x80 && ExtentNumber(fcb) < LAST_EXTENT
      modifies this`fcb, this`oldFcbDrive, this`directoryPos, this`directory, this`open, this`home
      ensures Inv() && (old(Orderly()) ==> Orderly()) && r != DirectoryFull
      ensures r == Abandoned <==> old(fcb)[CR] == 0x80 && (old(fcb)[T1] >= 0x80 || writeProtected)
      ensures Untouched(old(directory), directory, old(home), Nothing) && SameEntries(volume, old(directory), directory)
      ensures r.AtSector? ==> open && AtRecord(volume, Abstract(), old(fcb), fcb, r.sector)
      ensures r.AtSector? ==> Position(fcb) == Position(old(fcb)) + 1
      ensures r != Abandoned && old(fcb)[DR] < 0x80 ==> fcb[DR] == old(fcb)[DR]
      ensures old(fcb)[CR] < 0x80 ==> fcb[1..CR] == old(fcb)[1..CR] && (r == NoData ==> fcb[CR] == old(fcb)[CR])
      ensures old(fcb)[CR] < 0x80 ==>
                && directory == old(directory) && open && home == old(home) && OwnEntry() == old(OwnEntry())
                && r == if old(fcb)[CR] == old(fcb)[RC] then NoData else CurrentSector(volume, old(fcb))
      // The next extent's entry is the FCB's if there is one; if not, the FCB is left behind with its old
      // blocks, the first of which is up next.
      ensures old(fcb)[CR] == 0x80 && r != Abandoned ==>
                var next := Search(volume, old(directory), cdrmax, MovedOnFcb(old(fcb)));
                && open && OwnEntry() == next && (next.Just? ==> home == next)
                && (next == Nothing ==>
                      && r == NoData && home == old(home) && ExtentNumber(fcb) == ExtentNumber(old(fcb)) + 1
                      && fcb[CR] == 0 && fcb[RC] == 0 && KeepsBlocks(volume, old(fcb), fcb)
                      && (old(OwnEntry()).Just? ==> CurrentSlot() == 0))
      // Where the mark is right, it is left behind exactly if no entry matches the next extent.
      ensures old(fcb)[CR] == 0x80 && r != Abandoned && HighWater(old(directory), cdrmax) ==>
                (OwnEntry() == Nothing <==>
                   forall i :: 0 <= i < |old(directory)| ==>
                     !Matches(volume.dpb.extentMask, UserFcb(volume, MovedOnFcb(old(fcb))), old(directory)[i], KEY))
      // If the state was in order, that is still the first block of the entry it came from.
      ensures old(Orderly()) && old(fcb)[CR] == 0x80 && r != Abandoned && OwnEntry() == Nothing && old(OwnEntry()).Just? ==>
                var big, h := BigDisk(volume.dpb), old(OwnEntry()).value;
                && home == Just(h) && h < |old(directory)| && h < |directory|
                && (Seen(big, Slots(big, old(directory)[h])[0]) ==>
                      Slots(big, fcb)[CurrentSlot()] == Slots(big, directory[h])[0] == Slots(big, old(directory)[h])[0])
    {
      ghost var s0 := Abstract();
      VolumeFacts(volume, s0);
      hide Safe, Ordered, Slots, Seen, SlotNumber, Shape, Live, AtRecord, SameName, Untouched, KeepsBlocks, MovedOnFcb,
           Search, SameEntries, ExtentNumber, BigDisk, CurrentSector, HighWater, Matches, UserFcb, Position;
      if HighWater(directory, cdrmax) {
        FoundExactly(volume, directory, cdrmax, MovedOnFcb(fcb));
      }
      r := ReadAndRestore();
      if r.AtSector? {
        OneFurther(volume, Abstract(), s0.fcb, fcb, r.sector);
      }
      if old(fcb)[CR] == 0x80 && r != Abandoned && OwnEntry() == Nothing && Ordered(volume, s0) && Found(volume, s0).Just? {
        TiedFacts(volume, s0);
        FirstIsKept(volume, s0, directory, fcb);
      }
    }

    // ---------- deleting ----------

    /** bdos_DELETEFILE, which does not know whether the file is open. */
    method DeleteFile(f: Fcb) returns (r: Outcome)
      requires Inv()
      requires open && home.Just? && home.value < |directory| ==>
                 !Matches(volume.dpb.extentMask, f[DR := volume.user], directory[home.value], T3 + 1)
      modifies this`directoryPos, this`directory, this`open, this`home, allocator.bitmap
      ensures Inv() && (old(Orderly()) ==> Orderly())
      ensures r == HardError || (open == old(open) && home == old(home))
      ensures r != Done ==> directory == old(directory) && allocator.bitmap[..] == old(allocator.bitmap[..])
      // All of this is about the entries a search looks at;
      ensures var p, n := f[DR := volume.user], Reach(old(directory), cdrmax);
              && (r == HardError <==> writeProtected || FirstIsReadOnly(volume, old(directory), n, p))
              && (r == Failed <==> !writeProtected && forall i :: 0 <= i < n ==> !Goes(volume, p, old(directory)[i]))
              && (r == Done ==>
                    && Deleted(volume, p, old(directory), n, directory)
                    && Freed(volume, p, old(directory), n, old(allocator.bitmap[..]), allocator.bitmap[..]))
      // if the mark is right, that is the whole directory.
      ensures HighWater(old(directory), cdrmax) ==>
                var p, n := f[DR := volume.user], |old(directory)|;
                && (r == HardError <==> writeProtected || FirstIsReadOnly(volume, old(directory), n, p))
                && (r == Failed <==> !writeProtected && forall i :: 0 <= i < n ==> !Goes(volume, p, old(directory)[i]))
                && (r == Done ==>
                      && Deleted(volume, p, old(directory), n, directory)
                      && Freed(volume, p, old(directory), n, old(allocator.bitmap[..]), allocator.bitmap[..]))
    {
      hide Safe, Ordered, Matches, Live, Slots, Bit, MarkSlots, SeesDeleted, SearchEnd, NextMatch, Freed, Deleted, InMap,
           FirstIsReadOnly, HighWater;
      VolumeFacts(volume, Abstract());
      ghost var was, bits := directory, allocator.bitmap[..];
      var p := f[DR := volume.user];
      if HighWater(was, cdrmax) {
        AllReached(volume, was, cdrmax, p);
      }
      if writeProtected {
        Abandon();
        return HardError;
      }
      SearchByPattern(volume, directory, cdrmax, p, T3 + 1, 0);
      var found := FindFirst(p, T3 + 1);
      if !found {
        NoneToGo(volume, was, Reach(was, cdrmax), p);
        return Failed;
      }
      FirstToGo(volume, was, Reach(was, cdrmax), p, directoryPos);
      if directory[directoryPos][T1] >= 0x80 {
        Abandon();
        return HardError;
      }
      NothingDeleted(volume, p, was, directoryPos, bits);
      DeleteMatches(p);
      r := Done;
    }

    /** From the first match on, which the position is at. */
    method DeleteMatches(p: Fcb)
      requires Inv() && p[DR] == volume.user && directoryPos < |directory| && Goes(volume, p, directory[directoryPos])
      requires open && home.Just? && home.value < |directory| ==>
                 !Matches(volume.dpb.extentMask, p, directory[home.value], T3 + 1)
      requires Deleted(volume, p, directory, directoryPos, directory)
      requires Freed(volume, p, directory, directoryPos, allocator.bitmap[..], allocator.bitmap[..])
      requires directoryPos < Reach(directory, cdrmax)
      modifies this`directoryPos, this`directory, allocator.bitmap
      ensures Inv() && (old(Orderly()) ==> Orderly())
      ensures Deleted(volume, p, old(directory), Reach(old(directory), cdrmax), directory)
      ensures Freed(volume, p, old(directory), Reach(old(directory), cdrmax), old(allocator.bitmap[..]), allocator.bitmap[..])
    {
      hide Safe, Ordered, Matches, Live, Slots, Bit, MarkSlots, SeesDeleted, SearchEnd, NextMatch, Freed, InMap, Deleted;
      VolumeFacts(volume, Abstract());
      ghost var was, bits, reach := directory, allocator.bitmap[..], Reach(directory, cdrmax);
      var found := true;
      while found
        invariant Inv() && (old(Orderly()) ==> Orderly()) && |directory| == |was| == volume.dpb.directoryEntries + 1
        invariant found ==> directoryPos < reach && Goes(volume, p, directory[directoryPos])
        invariant open && home.Just? && home.value < |directory| ==>
                    !Matches(volume.dpb.extentMask, p, directory[home.value], T3 + 1)
        invariant var n := if found then directoryPos as nat else reach;
                  Deleted(volume, p, was, n, directory) && Freed(volume, p, was, n, bits, allocator.bitmap[..])
        decreases if found then |directory| - directoryPos else -1
      {
        ghost var i, now, before := directoryPos, allocator.bitmap[..], directory;
        DeletedBefore(volume, p, was, i, directory);
        DropEntry(volume, Abstract(), directoryPos);
        UpdateBitmapForDirent(directory[directoryPos], false);
        directory := directory[directoryPos := directory[directoryPos][DR := 0xe5]];
        assert directory[i := was[i]] == before;
        SearchByPattern(volume, directory, cdrmax, p, T3 + 1, directoryPos + 1);
        found := FindNext(p, T3 + 1);
        DeletedOneMore(volume, p, was, i, bits, now, directory, if found then directoryPos as nat else reach);
      }
    }

    // ---------- logging in ----------

    /** update_bitmap_for_dirent: marks the blocks of an entry used or free. */
    method UpdateBitmapForDirent(e: Entry, used: bool)
      requires InMap(allocator.bitmap[..], Slots(BigDisk(volume.dpb), e))
      modifies allocator.bitmap
      ensures allocator.bitmap[..] == MarkSlots(old(allocator.bitmap[..]), Slots(BigDisk(volume.dpb), e), used)
    {
      hide WithBit;
      var big := volume.dpb.blocksOnDisk / 0x100 != 0;
      ghost var slots, goal := Slots(big, e), MarkSlots(allocator.bitmap[..], Slots(big, e), used);
      assert slots[0..] == slots;
      var y, i := AL, 0;
      while y != 32
        invariant 0 <= i <= |slots| && y == AL + i * (if big then 2 else 1)
        invariant InMap(allocator.bitmap[..], slots) && InMap(allocator.bitmap[..], slots[i..])
        invariant MarkSlots(allocator.bitmap[..], slots[i..], used) == goal
        decreases 32 - y
      {
        var block: Word := if big then Pair(e[y], e[y + 1]) else e[y];
        assert block == slots[i] == slots[i..][0] && slots[i..][1..] == slots[i + 1..];
        y := y + if big then 2 else 1;
        i := i + 1;
        if block != 0 {
          allocator.UpdateBitmapStatus(block, if used then 1 else 0);
        }
      }
      assert slots[i..] == [];
    }

    method UpdateCdrmaxField()
      modifies this`cdrmax
      ensures cdrmax == UpdateCdrmax(old(cdrmax), directoryPos)
    {
      var borrow := if directoryPos % 0x100 < cdrmax % 0x100 then 1 else 0;
      var high: int := directoryPos / 0x100 - cdrmax / 0x100 - borrow;
      if high >= 0 {
        cdrmax := Pair(directoryPos % 0x100, high);
      }
    }

    /** The reserved blocks are all that is in the map. */
    method StartMap()
      requires 16 <= volume.dpb.blocksOnDisk && volume.dpb.blocksOnDisk + 7 < 0x1_0000
      requires allocator.Valid() && allocator.blocksOnDisk == volume.dpb.blocksOnDisk
      modifies allocator.bitmap
      ensures MapExact(volume, directory, 0, allocator.bitmap[..]) && UsedMarked(volume, directory, 0, allocator.bitmap[..])
    {
      allocator.ZeroBitmap();
      allocator.bitmap[1] := volume.dpb.al1;
      allocator.bitmap[0] := volume.dpb.al0;
      MapStarts(volume, directory, allocator.bitmap[..]);
    }

    /** internal_LOGINDRIVE, for a drive that has not been logged in: the map and the mark are rebuilt. */
    method LoginDrive()
      requires |directory| == volume.dpb.directoryEntries + 1 && volume.dpb.directoryEntries < NOWHERE
      requires 16 <= volume.dpb.blocksOnDisk && volume.dpb.blocksOnDisk + 7 < 0x1_0000
      requires allocator.Valid() && allocator.blocksOnDisk == volume.dpb.blocksOnDisk
      requires EntriesInMap(volume, directory, allocator.bitmap.Length)
      modifies this`cdrmax, this`directoryPos, this`open, this`home, allocator.bitmap
      ensures !open && home == Nothing
      ensures cdrmax == LoginCdrmax(directory, |directory|)
      ensures MapExact(volume, directory, |directory|, allocator.bitmap[..])
      ensures UsedMarked(volume, directory, |directory|, allocator.bitmap[..])
      // This is where every run starts.
      ensures SaneDisk(volume, directory) ==>
                Inv() && (volume.dpb.directoryEntries < 0x100 && DifferentKeys(volume, directory) ==> Orderly())
    {
      hide MapExact, UsedMarked, EntriesInMap, LoginCdrmax, Slots, UpdateCdrmax, MarkSlots, SaneDisk, Safe, Ordered;
      open, home := false, Nothing;
      StartMap();
      cdrmax := 0;
      directoryPos := NOWHERE;
      ReadDirEntry();
      FirstMark(directory);
      while directoryPos != 0xffff
        invariant !open && home == Nothing
        invariant directoryPos == NOWHERE || directoryPos < |directory|
        invariant var n := if directoryPos == NOWHERE then |directory| else directoryPos as nat;
                  && cdrmax == LoginCdrmax(directory, n)
                  && MapExact(volume, directory, n, allocator.bitmap[..])
                  && UsedMarked(volume, directory, n, allocator.bitmap[..])
        decreases if directoryPos == NOWHERE then 0 else |directory| - directoryPos
      {
        MapNext(volume, directory, directoryPos, allocator.bitmap[..]);
        LoginStep(directory, directoryPos);
        if directory[directoryPos][DR] != 0xe5 {
          UpdateBitmapForDirent(directory[directoryPos], true);
          UpdateCdrmaxField();
        }
        ReadDirEntry();
      }
      if SaneDisk(volume, directory) {
        LoginEstablishes(volume, directory, Abstract());
      }
    }
  }
}
