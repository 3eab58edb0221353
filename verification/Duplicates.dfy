/** Names that can be given twice (src/bdos/filesystem.S:156-226, 1206-1277, 1395-1424, 1483-1498). */
module Duplicates {
  import opened Bytes
  import opened Bitmap
  import opened Directory
  import opened Consistency
  import opened FcbValues
  import opened Opening
  import opened NextWrites

  /** Some live entry bears the FCB's key, and some entry is deleted. */
  ghost predicate TakenWithRoom(v: Volume, directory: seq<Entry>, f: Fcb)
  {
    && (exists i :: 0 <= i < |directory| && Bears(v, directory, f, i))
    && exists i :: 0 <= i < |directory| && !Live(directory[i])
  }

  /** After logging in. */
  ghost predicate JustLoggedIn(v: Volume, s: State)
  {
    Safe(v, s) && !s.open && s.home == Nothing && s.cdrmax == LoginCdrmax(s.directory, |s.directory|)
  }

  /**
   A name that an entry bears is refused, after logging in to any sane disk, exactly if there are at
   most 256 entries. With more, creating it again puts it down a second time.
   */
  lemma TakenIsRefusedExactly(v: Volume)
    requires Fit(v)
    ensures (forall s, f :: JustLoggedIn(v, s) && SaneFcb(f) && TakenWithRoom(v, s.directory, f) ==>
               Search(v, s.directory, s.cdrmax, f).Just?)
       <==> v.dpb.directoryEntries < 0x100
  {
    hide Search, Bears, SaneFcb, Fit, LoginCdrmax, Live;
    if v.dpb.directoryEntries < 0x100 {
      forall s, f | JustLoggedIn(v, s) && SaneFcb(f) && TakenWithRoom(v, s.directory, f)
        ensures Search(v, s.directory, s.cdrmax, f).Just?
      {
        SmallIsRefused(v, s, f);
      }
    } else {
      TwoNamesAreSafe(v);
    }
  }

  lemma SmallIsRefused(v: Volume, s: State, f: Fcb)
    requires JustLoggedIn(v, s) && SaneFcb(f) && TakenWithRoom(v, s.directory, f) && v.dpb.directoryEntries < 0x100
    ensures Search(v, s.directory, s.cdrmax, f).Just?
  {
    VolumeFacts(v, s);
    SmallLoginCdrmax(s.directory, |s.directory|);
    UnfoundExactly(v, s.directory, s.cdrmax, f);
    var i :| 0 <= i < |s.directory| && Bears(v, s.directory, f, i);
    hide Search, EntryKey, SaneFcb, Fit, LoginCdrmax, Live, Safe;
  }

  /** Entries 255 and 256 are live, and the mark that logging in computes is 0. */
  function TwoNames(v: Volume): State
    requires v.dpb.directoryEntries >= 0x100
  {
    var dead: Entry := seq(32, _ => DELETED);
    var f: Fcb := seq(36, _ => 0);
    var other: Fcb := f[1 := 1];
    var directory: seq<Entry> := seq(v.dpb.directoryEntries + 1, _ => dead);
    State(directory[0xff := CreatedEntry(v.user, other)][0x100 := CreatedEntry(v.user, f)], 0,
          FullMap(v.dpb.blocksOnDisk / 8 + 1), f, false, Nothing)
  }

  lemma TwoNamesAreSafe(v: Volume)
    requires Fit(v) && v.dpb.directoryEntries >= 0x100
    ensures var s := TwoNames(v);
            && JustLoggedIn(v, s) && SaneFcb(s.fcb) && TakenWithRoom(v, s.directory, s.fcb)
            && Search(v, s.directory, s.cdrmax, s.fcb) == Nothing
  {
    var s := TwoNames(v);
    var f, other: Fcb := s.fcb, s.fcb[1 := 1];
    TwoEntries(v);
    NoBlocks(v, f);
    NoBlocks(v, other);
    FewEntries(v);
    MarkWraps(s.directory, 0xff);
    FullMapUsed(v);
    hide Fit, CreatedEntry, Slots, FullMap, Bit, Search, LoginCdrmax, SaneFcb, EntryKey, SaneEntry;
    NothingHeld(v, s);
    FoundFacts(v, s.directory, s.cdrmax, f);
    assert Bears(v, s.directory, f, 0x100) && !Live(s.directory[0]);
  }

  lemma TwoEntries(v: Volume)
    requires Fit(v) && v.dpb.directoryEntries >= 0x100
    ensures var s := TwoNames(v);
            && SaneFcb(s.fcb) && EntryKey(v, s.directory[0x100]) == EntryKey(v, UserFcb(v, s.fcb))
            && s.directory[0xff] == CreatedEntry(v.user, s.fcb[1 := 1]) && s.directory[0x100] == CreatedEntry(v.user, s.fcb)
            && (forall i :: 0 <= i < |s.directory| ==> (Live(s.directory[i]) <==> i == 0xff || i == 0x100))
            && forall i :: 0 <= i < |s.directory| ==> SaneEntry(s.directory[i])
  {
    var s := TwoNames(v);
    var f, other: Fcb := s.fcb, s.fcb[1 := 1];
    assert SaneFcb(f) && SaneFcb(other);
    CreatedSane(v, f);
    CreatedSane(v, other);
    hide Fit, CreatedEntry, EntryKey;
  }

  lemma FewEntries(v: Volume)
    requires Fit(v)
    ensures v.dpb.directoryEntries + 1 <= 0x1000
  {
    hide Bit;
  }

  lemma FullMapUsed(v: Volume)
    requires Fit(v)
    ensures var bits := FullMap(v.dpb.blocksOnDisk / 8 + 1);
            AllUsed(bits, 0, v.directoryBlocks) && Covers(bits, v.dpb.blocksOnDisk + 1)
  {
    FewDirectoryBlocks(v);
    var bits := FullMap(v.dpb.blocksOnDisk / 8 + 1);
    hide Fit;
    forall b: nat | b / 8 < |bits|
      ensures Bit(bits, b)
    {
      Full(7 - b % 8);
    }
    AtLeastSixteen(v);
  }

  lemma AtLeastSixteen(v: Volume)
    requires Fit(v)
    ensures v.dpb.blocksOnDisk >= 16
  {
  }
}
