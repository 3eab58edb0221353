/**
 What every BDOS file operation keeps. On every disk the blocks of live entries and of the open FCB
 are marked and held once, and searching finds the FCB's own entry or none (Safe). On disks of at
 most 256 entries, where the high-water mark is right, it also bounds the live entries, keys tell
 them apart, and the FCB follows its entry (Ordered). Each lemma here is one kind of step.
 */
module Consistency {
  import opened Bytes
  import opened Bitmap
  import opened Geometry
  import opened Directory
  import opened Claims

  /** The parts of the state that never change: the disk's shape and who is logged on. */
  datatype Volume = Volume(dpb: Dpb, directoryBlocks: nat, user: Byte)

  /**
   The parts that do. `home` is the entry the open FCB has its blocks from, if there is one. That is
   also the entry it is for, except after reading past the last extent.
   */
  datatype State = State(directory: seq<Entry>, cdrmax: Word, bits: seq<bv8>, fcb: Fcb, open: bool, home: Option<nat>)

  /**
   A disk the BDOS can keep safe: sixteen-bit block arithmetic that does not wrap, and a user code
   that is neither '?' nor the one that looks like a deleted entry in its low seven bits.
   */
  ghost predicate Fit(v: Volume)
  {
    && Shape(v.dpb, v.directoryBlocks)
    && 16 <= v.dpb.blocksOnDisk && v.dpb.blocksOnDisk + 7 < 0x1_0000
    && v.user < 0x80 && !SeesDeleted(v.user)
  }

  function EntryKey(v: Volume, e: seq<Byte>): seq<Byte>
    requires |e| >= 32
  {
    Key(v.dpb.extentMask, e)
  }

  /** The FCB as it is during a call, with the user code in place of the drive. */
  function UserFcb(v: Volume, f: Fcb): Fcb { f[DR := v.user] }

  function Module(e: seq<Byte>): Byte
    requires |e| >= 32
  {
    e[S2] % 0x80
  }

  /** Module 63 would read as '?'. */
  const LAST_MODULE: Byte := 0x3e

  ghost predicate SaneEntry(e: Entry)
  {
    Live(e) ==> Plain(e) && !SeesDeleted(e[DR]) && Module(e) <= LAST_MODULE
  }

  ghost predicate SaneEntries(v: Volume, directory: seq<Entry>)
  {
    |directory| == v.dpb.directoryEntries + 1 && forall i :: 0 <= i < |directory| ==> SaneEntry(directory[i])
  }

  /** No wildcards where entries have names and extents. */
  ghost predicate SaneFcb(f: Fcb)
  {
    (forall y :: 1 <= y <= EX ==> f[y] != ANY) && Module(f) <= LAST_MODULE
  }

  /** The entry that a search for the FCB finds. */
  function Found(v: Volume, s: State): Option<nat>
  {
    Search(v, s.directory, s.cdrmax, s.fcb)
  }

  function Search(v: Volume, directory: seq<Entry>, cdrmax: Word, f: Fcb): Option<nat>
  {
    NextMatch(directory, v.dpb.extentMask, UserFcb(v, f), KEY, 0, SearchEnd(directory, cdrmax, UserFcb(v, f)))
  }

  /** The block numbers in which an FCB differs from its entry. */
  function Extra(entry: seq<Word>, fcb: seq<Word>): (r: seq<Word>)
    requires |entry| == |fcb|
    ensures |r| == |fcb|
  {
    seq(|fcb|, k requires 0 <= k < |fcb| => if fcb[k] == entry[k] then 0 else fcb[k])
  }

  /** What live entry i holds, and, behind the last entry, what the open FCB holds beyond its entry. */
  function Holding(v: Volume, s: State, i: nat): seq<Word>
  {
    var big := BigDisk(v.dpb);
    if i < |s.directory| then
      if Live(s.directory[i]) then Slots(big, s.directory[i]) else []
    else if i == |s.directory| && s.open then
      match s.home
      case Nothing => Slots(big, s.fcb)
      case Just(h) => if h < |s.directory| then Extra(Slots(big, s.directory[h]), Slots(big, s.fcb)) else []
    else []
  }

  function Holdings(v: Volume, s: State): (h: seq<seq<Word>>)
    ensures |h| == |s.directory| + 1
  {
    seq(|s.directory| + 1, i requires 0 <= i <= |s.directory| => Holding(v, s, i))
  }

  ghost predicate Allocated(v: Volume, s: State)
  {
    && AllUsed(s.bits, 0, v.directoryBlocks)
    && Disjoint(Holdings(v, s)) && Held(Holdings(v, s), s.bits, v.directoryBlocks, v.dpb.blocksOnDisk)
  }

  /**
   Whether get_fcb_block reports a block number as one: it leaves the zero flag as the low byte has
   it. On a big disk the block numbers that are multiples of 256 go unseen.
   */
  predicate Seen(big: bool, block: Word) { if big then Lo(block) != 0 else block != 0 }

  /** An FCB has taken over every block of its entry, but for those it cannot see. */
  ghost predicate Faithful(big: bool, entry: seq<Word>, fcb: seq<Word>)
  {
    |entry| == |fcb| && forall k :: 0 <= k < |entry| && entry[k] != fcb[k] ==> !Seen(big, entry[k])
  }

  /** And the entry has every block of the FCB, but for those that stand in for an unseen one. */
  ghost predicate Saved(big: bool, entry: seq<Word>, fcb: seq<Word>)
  {
    Faithful(big, entry, fcb) && forall k :: 0 <= k < |entry| && entry[k] != fcb[k] ==> entry[k] != 0
  }

  /** Searching for the open FCB finds the entry it has its blocks from, or none. */
  ghost predicate Tied(v: Volume, s: State)
  {
    && SaneFcb(s.fcb)
    && (s.home.Just? ==> s.home.value < |s.directory| && Live(s.directory[s.home.value]))
    && (Found(v, s) == Nothing || Found(v, s) == s.home)
  }

  ghost predicate Safe(v: Volume, s: State)
  {
    Fit(v) && SaneEntries(v, s.directory) && Allocated(v, s) && (s.open ==> Tied(v, s))
  }

  ghost predicate DifferentKeys(v: Volume, directory: seq<Entry>)
  {
    forall i, j :: 0 <= i < j < |directory| && Live(directory[i]) && Live(directory[j]) ==>
      EntryKey(v, directory[i]) != EntryKey(v, directory[j])
  }

  /** How many records an entry says there are in extent ex. */
  function RecordsIn(e: Entry, ex: Byte): Byte { if e[EX] == ex then e[RC] else if e[EX] >= ex then 0x80 else 0 }

  /**
   The FCB has all blocks of its entry; an FCB marked as not modified has no others, and the number of
   records that the entry says.
   */
  ghost predicate Follows(v: Volume, e: Entry, f: Fcb)
  {
    && Faithful(BigDisk(v.dpb), Slots(BigDisk(v.dpb), e), Slots(BigDisk(v.dpb), f))
    && (f[S2] >= 0x80 ==>
          Saved(BigDisk(v.dpb), Slots(BigDisk(v.dpb), e), Slots(BigDisk(v.dpb), f)) && f[RC] == RecordsIn(e, f[EX]))
  }

  ghost predicate Ordered(v: Volume, s: State)
  {
    && v.dpb.directoryEntries < 0x100 && HighWater(s.directory, s.cdrmax) && DifferentKeys(v, s.directory)
    && (s.open && Found(v, s).Just? && Found(v, s).value < |s.directory| ==> Follows(v, s.directory[Found(v, s).value], s.fcb))
  }

  // ---------- what a search finds ----------

  /** How many entries a search looks at. */
  function Reach(directory: seq<Entry>, cdrmax: Word): nat
  {
    if |directory| <= cdrmax + 1 then |directory| else cdrmax + 1
  }

  lemma FoundFacts(v: Volume, directory: seq<Entry>, cdrmax: Word, f: Fcb)
    requires Fit(v)
    ensures match Search(v, directory, cdrmax, f)
            case Just(i) =>
              && i < Reach(directory, cdrmax) && i < |directory| && Live(directory[i])
              && Matches(v.dpb.extentMask, UserFcb(v, f), directory[i], KEY)
              && forall j :: 0 <= j < i ==> !Matches(v.dpb.extentMask, UserFcb(v, f), directory[j], KEY)
            case Nothing =>
              forall j :: 0 <= j < Reach(directory, cdrmax) ==> !Matches(v.dpb.extentMask, UserFcb(v, f), directory[j], KEY)
  {
    var p := UserFcb(v, f);
    hide Matches;
    NextMatchIsFirst(directory, v.dpb.extentMask, p, KEY, 0, SearchEnd(directory, cdrmax, p));
    var r := Search(v, directory, cdrmax, f);
    if r.Just? && !Live(directory[r.value]) {
      DeletedSeen(v.dpb.extentMask, p, directory[r.value], KEY);
    }
  }

  lemma FoundIs(v: Volume, directory: seq<Entry>, cdrmax: Word, f: Fcb, i: nat)
    requires Fit(v) && i < Reach(directory, cdrmax) && Matches(v.dpb.extentMask, UserFcb(v, f), directory[i], KEY)
    requires forall j :: 0 <= j < i ==> !Matches(v.dpb.extentMask, UserFcb(v, f), directory[j], KEY)
    ensures Search(v, directory, cdrmax, f) == Just(i)
  {
    hide Matches, Search;
    FoundFacts(v, directory, cdrmax, f);
  }

  lemma NoneFoundIs(v: Volume, directory: seq<Entry>, cdrmax: Word, f: Fcb)
    requires Fit(v)
    requires forall j :: 0 <= j < Reach(directory, cdrmax) ==> !Matches(v.dpb.extentMask, UserFcb(v, f), directory[j], KEY)
    ensures Search(v, directory, cdrmax, f) == Nothing
  {
    hide Matches, Search;
    FoundFacts(v, directory, cdrmax, f);
  }

  lemma SearchIs(v: Volume, directory: seq<Entry>, cdrmax: Word, f: Fcb)
    requires f[DR] == v.user
    ensures Search(v, directory, cdrmax, f) == NextMatch(directory, v.dpb.extentMask, f, KEY, 0, SearchEnd(directory, cdrmax, f))
  {
    assert UserFcb(v, f) == f;
  }

  /** Where the mark is right, a search finds an entry exactly if there is one that matches. */
  lemma FoundExactly(v: Volume, directory: seq<Entry>, cdrmax: Word, f: Fcb)
    requires Fit(v) && HighWater(directory, cdrmax)
    ensures Search(v, directory, cdrmax, f).Just?
       <==> exists i :: 0 <= i < |directory| && Matches(v.dpb.extentMask, UserFcb(v, f), directory[i], KEY)
  {
    FoundFacts(v, directory, cdrmax, f);
    hide Search, Matches;
    forall i | 0 <= i < |directory| && Matches(v.dpb.extentMask, UserFcb(v, f), directory[i], KEY)
      ensures i < Reach(directory, cdrmax)
    {
      if !Live(directory[i]) {
        DeletedSeen(v.dpb.extentMask, UserFcb(v, f), directory[i], KEY);
      }
    }
  }

  /** Where the same entries match, the same entry is found. */
  lemma FoundSame(v: Volume, a: seq<Entry>, b: seq<Entry>, cdrmax: Word, f: Fcb, g: Fcb)
    requires Fit(v) && |a| == |b|
    requires forall j :: 0 <= j < |a| ==>
               (Matches(v.dpb.extentMask, UserFcb(v, f), a[j], KEY) <==> Matches(v.dpb.extentMask, UserFcb(v, g), b[j], KEY))
    ensures Search(v, a, cdrmax, f) == Search(v, b, cdrmax, g)
  {
    hide Matches, Search;
    FoundFacts(v, a, cdrmax, f);
    FoundFacts(v, b, cdrmax, g);
  }

  /** The flag makes no difference to what an FCB matches. */
  lemma SameSearch(v: Volume, directory: seq<Entry>, cdrmax: Word, f: Fcb, g: Fcb)
    requires Fit(v) && SaneFcb(f) && g[1..S2] == f[1..S2] && g[S2] % 0x80 == f[S2] % 0x80
    ensures SaneFcb(g) && Search(v, directory, cdrmax, g) == Search(v, directory, cdrmax, f)
  {
    assert forall y :: 1 <= y < S2 ==> g[y] == g[1..S2][y - 1] == f[y];
    hide Search, SameByte;
    forall j | 0 <= j < |directory|
      ensures Matches(v.dpb.extentMask, UserFcb(v, g), directory[j], KEY)
         <==> Matches(v.dpb.extentMask, UserFcb(v, f), directory[j], KEY)
    {
      SameFlag(v.dpb.extentMask, f[S2], g[S2], directory[j][S2]);
    }
    FoundSame(v, directory, directory, cdrmax, g, f);
  }

  lemma SameFlag(extentMask: Byte, f: Byte, g: Byte, e: Byte)
    requires f % 0x80 == g % 0x80 <= LAST_MODULE
    ensures SameByte(extentMask, S2, f, e) <==> SameByte(extentMask, S2, g, e)
  {
    ModDifference(f, e);
    ModDifference(g, e);
  }

  // ---------- the FCB is let go ----------

  function Closed(s: State, fcb: Fcb): State { s.(fcb := fcb, open := false, home := Nothing) }

  /** Whatever an open FCB held beyond its entry is lost, but stays marked. */
  lemma LetGo(v: Volume, s: State, fcb: Fcb)
    requires Safe(v, s)
    ensures Safe(v, Closed(s, fcb)) && (Ordered(v, s) ==> Ordered(v, Closed(s, fcb)))
  {
    var s' := Closed(s, fcb);
    var h, h' := Holdings(v, s), Holdings(v, s');
    hide Slots, Disjoint, Held, AllUsed, SaneEntries, HighWater, DifferentKeys, Fit, Live, Search, Follows, Tied;
    var n := |s.directory|;
    Shrink(h, s.bits, v.directoryBlocks, v.dpb.blocksOnDisk, n, []);
    assert h' == h[n := []];
  }

  /** It may also be kept, under another key, as long as no entry is found for that. */
  lemma LeaveBehind(v: Volume, s: State, fcb: Fcb)
    requires Safe(v, s) && s.open && SaneFcb(fcb) && Slots(BigDisk(v.dpb), fcb) == Slots(BigDisk(v.dpb), s.fcb)
    requires Search(v, s.directory, s.cdrmax, fcb) == Nothing
    ensures Safe(v, s.(fcb := fcb)) && (Ordered(v, s) ==> Ordered(v, s.(fcb := fcb)))
  {
    hide Slots, Disjoint, Held, AllUsed, SaneEntries, HighWater, DifferentKeys, Fit, Live, Search, Follows, SaneFcb;
    assert Holdings(v, s.(fcb := fcb)) == Holdings(v, s);
  }

  // ---------- the FCB is tied to an entry, or to none ----------

  lemma TieTo(v: Volume, s: State, fcb: Fcb, i: nat)
    requires Safe(v, s) && !s.open && i < |s.directory| && Live(s.directory[i])
    requires SaneFcb(fcb) && Search(v, s.directory, s.cdrmax, fcb) == Just(i)
    requires Slots(BigDisk(v.dpb), s.directory[i]) == Slots(BigDisk(v.dpb), fcb)
    requires fcb[RC] == RecordsIn(s.directory[i], fcb[EX])
    ensures var s' := s.(fcb := fcb, open := true, home := Just(i));
            Safe(v, s') && (Ordered(v, s) ==> Ordered(v, s'))
  {
    var s' := s.(fcb := fcb, open := true, home := Just(i));
    var h, n := Holdings(v, s), |s.directory|;
    var extra := Extra(Slots(BigDisk(v.dpb), s.directory[i]), Slots(BigDisk(v.dpb), fcb));
    Zeroes(h, s.bits, v.directoryBlocks, v.dpb.blocksOnDisk, n, extra);
    hide Slots, Disjoint, Held, AllUsed, SaneEntries, HighWater, DifferentKeys, Fit, Live, SaneFcb, Extra, Search, Seen;
    assert Holdings(v, s') == h[n := extra];
  }

  /** Without blocks, an FCB may be tied to whatever a search finds for it. */
  lemma TieEmpty(v: Volume, s: State, fcb: Fcb)
    requires Safe(v, s) && !s.open && SaneFcb(fcb)
    requires forall j :: 0 <= j < |Slots(BigDisk(v.dpb), fcb)| ==> Slots(BigDisk(v.dpb), fcb)[j] == 0
    ensures Safe(v, s.(fcb := fcb, open := true, home := Search(v, s.directory, s.cdrmax, fcb)))
  {
    var s' := s.(fcb := fcb, open := true, home := Search(v, s.directory, s.cdrmax, fcb));
    var h, n := Holdings(v, s), |s.directory|;
    FoundFacts(v, s.directory, s.cdrmax, fcb);
    var nothing := Holding(v, s', n);
    Zeroes(h, s.bits, v.directoryBlocks, v.dpb.blocksOnDisk, n, nothing);
    hide Slots, AllUsed, SaneEntries, Fit, Live, SaneFcb, Disjoint, Held, Search, Matches, Extra;
    assert Holdings(v, s') == h[n := nothing];
  }

  /** Changes to an FCB that touch neither its key nor its blocks, and do not mark it as not modified. */
  lemma Touch(v: Volume, s: State, fcb: Fcb)
    requires Safe(v, s) && s.open
    requires fcb[1..S2] == s.fcb[1..S2] && fcb[S2] % 0x80 == s.fcb[S2] % 0x80 && fcb[AL..CR] == s.fcb[AL..CR]
    requires fcb[S2] >= 0x80 ==> s.fcb[S2] >= 0x80 && fcb[RC] == s.fcb[RC]
    ensures Safe(v, s.(fcb := fcb)) && (Ordered(v, s) ==> Ordered(v, s.(fcb := fcb)))
  {
    var s' := s.(fcb := fcb);
    assert fcb[EX] == fcb[1..S2][EX - 1] == s.fcb[EX];
    SlotsFrom(BigDisk(v.dpb), fcb, s.fcb);
    SameSearch(v, s.directory, s.cdrmax, s.fcb, fcb);
    hide Slots, Disjoint, Held, AllUsed, SaneEntries, HighWater, DifferentKeys, Fit, Live, Search, Faithful, Saved, SaneFcb;
    assert Holdings(v, s') == Holdings(v, s);
  }

  lemma SlotsFrom(big: bool, a: Fcb, b: Fcb)
    requires a[AL..CR] == b[AL..CR]
    ensures Slots(big, a) == Slots(big, b)
  {
    assert forall y :: AL <= y < CR ==> a[y] == a[AL..CR][y - AL] == b[y];
  }

  // ---------- entries come and go ----------

  /** The mark, on disks of at most 256 entries. */
  lemma MarkAfter(cdrmax: Word, position: Word)
    requires position < 0x100
    ensures UpdateCdrmax(cdrmax, position) == if position >= cdrmax then position else cdrmax
  {
    UpdateCdrmaxExactly(cdrmax, position);
  }

  lemma HighWaterAfter(directory: seq<Entry>, cdrmax: Word, i: nat, e: Entry)
    requires HighWater(directory, cdrmax) && i < |directory| <= 0x100
    ensures HighWater(directory[i := e], UpdateCdrmax(cdrmax, i)) && i <= UpdateCdrmax(cdrmax, i)
  {
    MarkAfter(cdrmax, i);
  }

  /** A deleted entry gives way to a new one without blocks. */
  lemma NewEntry(v: Volume, s: State, i: nat, e: Entry)
    requires Safe(v, s) && !s.open && i < |s.directory| && !Live(s.directory[i])
    requires Live(e) && SaneEntry(e)
    requires forall j :: 0 <= j < |Slots(BigDisk(v.dpb), e)| ==> Slots(BigDisk(v.dpb), e)[j] == 0
    ensures var s' := s.(directory := s.directory[i := e], cdrmax := UpdateCdrmax(s.cdrmax, i));
            && Safe(v, s')
            && (Ordered(v, s) &&
                (forall j :: 0 <= j < |s.directory| && Live(s.directory[j]) ==> EntryKey(v, s.directory[j]) != EntryKey(v, e))
                ==> Ordered(v, s') && i <= s'.cdrmax)
  {
    var s' := s.(directory := s.directory[i := e], cdrmax := UpdateCdrmax(s.cdrmax, i));
    NewEntryAllocated(v, s, i, e, UpdateCdrmax(s.cdrmax, i));
    if Ordered(v, s) {
      HighWaterAfter(s.directory, s.cdrmax, i, e);
    }
    hide Slots, Live, EntryKey, SaneEntry, HighWater, Allocated, Fit, UpdateCdrmax;
  }

  lemma NewEntryAllocated(v: Volume, s: State, i: nat, e: Entry, cdrmax: Word)
    requires Allocated(v, s) && !s.open && i < |s.directory| && !Live(s.directory[i]) && Live(e)
    requires forall j :: 0 <= j < |Slots(BigDisk(v.dpb), e)| ==> Slots(BigDisk(v.dpb), e)[j] == 0
    ensures Allocated(v, s.(directory := s.directory[i := e], cdrmax := cdrmax))
  {
    var s' := s.(directory := s.directory[i := e], cdrmax := cdrmax);
    var h := Holdings(v, s);
    Zeroes(h, s.bits, v.directoryBlocks, v.dpb.blocksOnDisk, i, Slots(BigDisk(v.dpb), e));
    hide Slots, Live, AllUsed, Disjoint, Held;
    assert Holdings(v, s') == h[i := Slots(BigDisk(v.dpb), e)];
  }

  /** An unmarked block goes into a slot of the open FCB in which no block is seen. */
  lemma TakeBlock(v: Volume, s: State, k: nat, block: Word, fcb: Fcb)
    requires Safe(v, s) && s.open
    requires var slots := Slots(BigDisk(v.dpb), s.fcb);
             k < |slots| && !Seen(BigDisk(v.dpb), slots[k]) && Slots(BigDisk(v.dpb), fcb) == slots[k := block]
    requires block < v.dpb.blocksOnDisk && !Bit(s.bits, block)
    requires fcb[1..S2] == s.fcb[1..S2] && fcb[S2] == s.fcb[S2] % 0x80
    ensures block >= v.directoryBlocks > 0
    ensures var s' := s.(fcb := fcb, bits := WithBit(s.bits, block, true));
            Safe(v, s') && (Ordered(v, s) ==> Ordered(v, s'))
  {
    var s' := s.(fcb := fcb, bits := WithBit(s.bits, block, true));
    assert block >= v.directoryBlocks > 0;
    TakeAllocated(v, s, k, block, fcb);
    SameSearch(v, s.directory, s.cdrmax, s.fcb, fcb);
    hide Slots, Live, HighWater, DifferentKeys, Allocated, SaneEntries, WithBit, Bit, Fit, Search, SaneFcb, Seen, Saved;
  }

  lemma TakeAllocated(v: Volume, s: State, k: nat, block: Word, fcb: Fcb)
    requires Allocated(v, s) && s.open && (s.home.Just? ==> s.home.value < |s.directory| && Live(s.directory[s.home.value]))
    requires var slots := Slots(BigDisk(v.dpb), s.fcb);
             k < |slots| && Slots(BigDisk(v.dpb), fcb) == slots[k := block]
    requires v.directoryBlocks <= block < v.dpb.blocksOnDisk && !Bit(s.bits, block) && block != 0
    ensures Allocated(v, s.(fcb := fcb, bits := WithBit(s.bits, block, true)))
  {
    var s' := s.(fcb := fcb, bits := WithBit(s.bits, block, true));
    var h, h', n := Holdings(v, s), Holdings(v, s'), |s.directory|;
    if s.home.Just? {
      FreshExtra(v, s, k, block, fcb);
    }
    hide Slots, Bit, WithBit, Extra;
    var taken: seq<Word> := h[n][k := block];
    assert h'[n] == taken;
    assert h' == h[n := h'[n]];
    Take(h, s.bits, v.directoryBlocks, v.dpb.blocksOnDisk, n, k, block, h'[n]);
    forall b | 0 <= b < v.directoryBlocks
      ensures Bit(s'.bits, b)
    {
      WithBitBits(s.bits, block, true, b);
    }
  }

  /** The block is new to the entry too. */
  lemma FreshExtra(v: Volume, s: State, k: nat, block: Word, fcb: Fcb)
    requires Allocated(v, s) && s.open && s.home.Just? && s.home.value < |s.directory| && Live(s.directory[s.home.value])
    requires var slots := Slots(BigDisk(v.dpb), s.fcb);
             k < |slots| && Slots(BigDisk(v.dpb), fcb) == slots[k := block]
    requires v.directoryBlocks <= block < v.dpb.blocksOnDisk && !Bit(s.bits, block) && block != 0
    ensures var big, e := BigDisk(v.dpb), s.directory[s.home.value];
            Extra(Slots(big, e), Slots(big, fcb)) == Extra(Slots(big, e), Slots(big, s.fcb))[k := block]
  {
    var h, i := Holdings(v, s), s.home.value;
    hide Slots, Bit;
    assert h[i] == Slots(BigDisk(v.dpb), s.directory[i]);
    assert h[i][k] != 0 ==> Bit(s.bits, h[i][k]);
  }

  /** The open FCB is written back to its entry: each takes from the other what it has not. */
  lemma WriteBack(v: Volume, s: State, e: Entry, fcb: Fcb)
    requires Safe(v, s) && s.open && Found(v, s).Just? && Found(v, s) == s.home
    requires Live(e) && SaneEntry(e) && EntryKey(v, e) == EntryKey(v, s.directory[s.home.value])
    requires Matches(v.dpb.extentMask, UserFcb(v, s.fcb), e, KEY)
    requires MergedMaps(v, s.directory[s.home.value], s.fcb, e, fcb)
    requires fcb[1..S2] == s.fcb[1..S2] && fcb[S2] % 0x80 == s.fcb[S2] % 0x80 && fcb[RC] == RecordsIn(e, fcb[EX])
    ensures var s' := s.(directory := s.directory[s.home.value := e], fcb := fcb);
            Safe(v, s') && Found(v, s') == s.home && (Ordered(v, s) ==> Ordered(v, s'))
  {
    var i := s.home.value;
    var s' := s.(directory := s.directory[i := e], fcb := fcb);
    FoundFacts(v, s.directory, s.cdrmax, s.fcb);
    FoundSame(v, s.directory, s'.directory, s.cdrmax, s.fcb, s.fcb);
    SameSearch(v, s'.directory, s.cdrmax, s.fcb, fcb);
    WriteBackAllocated(v, s, e, fcb);
    if Ordered(v, s) {
      MergedIsSaved(v, s.directory[i], s.fcb, e, fcb);
    }
    hide Slots, EntryKey, SaneEntry, Allocated, Fit, Saved, MergedMaps, Search, Matches, SaneFcb;
  }

  /** Merging stopped at a clash; the FCB may have taken over blocks of its entry up to there. */
  lemma MergeStopped(v: Volume, s: State, fcb: Fcb)
    requires Safe(v, s) && s.open && s.home.Just? && s.fcb[S2] < 0x80 && fcb[..AL] == s.fcb[..AL]
    requires Found(v, s) == s.home
    requires var f, e := Slots(BigDisk(v.dpb), s.fcb), Slots(BigDisk(v.dpb), s.directory[s.home.value]);
             forall k :: 0 <= k < |f| ==>
               Slots(BigDisk(v.dpb), fcb)[k] == f[k] || Slots(BigDisk(v.dpb), fcb)[k] == Merged(f[k], e[k])
    ensures Safe(v, s.(fcb := fcb)) && Found(v, s.(fcb := fcb)) == s.home && (Ordered(v, s) ==> Ordered(v, s.(fcb := fcb)))
  {
    var s' := s.(fcb := fcb);
    var e := Slots(BigDisk(v.dpb), s.directory[s.home.value]);
    assert forall y :: 0 <= y < AL ==> fcb[y] == fcb[..AL][y] == s.fcb[y];
    SameSearch(v, s.directory, s.cdrmax, s.fcb, fcb);
    hide Slots, Disjoint, Held, AllUsed, SaneEntries, HighWater, DifferentKeys, Fit, Live, Search, SaneFcb, Seen, BigDisk;
    assert Extra(e, Slots(BigDisk(v.dpb), fcb)) == Extra(e, Slots(BigDisk(v.dpb), s.fcb));
    hide Extra;
    assert Holdings(v, s') == Holdings(v, s);
  }

  ghost predicate MergedMaps(v: Volume, e: Entry, f: Fcb, e': Entry, f': Fcb)
  {
    var big := BigDisk(v.dpb);
    forall k :: 0 <= k < |Slots(big, f)| ==>
      && Slots(big, f')[k] == Merged(Slots(big, f)[k], Slots(big, e)[k])
      && Slots(big, e')[k] == Merged(Slots(big, e)[k], Slots(big, f)[k])
  }

  lemma MergedIsSaved(v: Volume, e: Entry, f: Fcb, e': Entry, f': Fcb)
    requires MergedMaps(v, e, f, e', f') && Faithful(BigDisk(v.dpb), Slots(BigDisk(v.dpb), e), Slots(BigDisk(v.dpb), f))
    ensures Saved(BigDisk(v.dpb), Slots(BigDisk(v.dpb), e'), Slots(BigDisk(v.dpb), f'))
  {
    hide Slots, Seen, BigDisk;
  }

  lemma WriteBackAllocated(v: Volume, s: State, e: Entry, fcb: Fcb)
    requires Safe(v, s) && s.open && s.home.Just? && Live(e)
    requires MergedMaps(v, s.directory[s.home.value], s.fcb, e, fcb)
    ensures Allocated(v, s.(directory := s.directory[s.home.value := e], fcb := fcb))
  {
    var i, n := s.home.value, |s.directory|;
    var s' := s.(directory := s.directory[i := e], fcb := fcb);
    var h, h' := Holdings(v, s), Holdings(v, s');
    OthersHoldSame(v, s, s');
    BlocksMove(v, s, e, fcb);
    hide Slots, Disjoint, Held, AllUsed, Fit, Live, SaneEntries, BigDisk, MergedMaps, Holding, Extra, Found, SaneFcb;
    Move(h, s.bits, v.directoryBlocks, v.dpb.blocksOnDisk, i, n, h'[i], h'[n]);
    assert h' == h[i := h'[i]][n := h'[n]];
  }

  lemma OthersHoldSame(v: Volume, s: State, s': State)
    requires s.open && s.home.Just? && s.home.value < |s.directory| && Live(s.directory[s.home.value])
    requires |s'.directory| == |s.directory|
    requires s'.directory == s.directory[s.home.value := s'.directory[s.home.value]]
    ensures forall j :: 0 <= j < |s.directory| && j != s.home.value ==> Holding(v, s', j) == Holding(v, s, j)
  {
    hide Slots;
  }

  /** Place by place, a block stays where it is or goes from the FCB's to the entry's. */
  lemma BlocksMove(v: Volume, s: State, e: Entry, fcb: Fcb)
    requires s.open && s.home.Just? && s.home.value < |s.directory| && Live(s.directory[s.home.value]) && Live(e)
    requires MergedMaps(v, s.directory[s.home.value], s.fcb, e, fcb)
    ensures var i, n := s.home.value, |s.directory|;
            var s' := s.(directory := s.directory[i := e], fcb := fcb);
            var x, y, a, b := Holding(v, s, i), Holding(v, s, n), Holding(v, s', i), Holding(v, s', n);
            && |x| == |y| == |a| == |b|
            && forall k :: 0 <= k < |a| ==> (a[k] == x[k] && b[k] == y[k]) || (x[k] == 0 && a[k] == y[k] && b[k] == 0)
  {
    hide Slots;
  }

  /** An entry that the open FCB has no blocks from is deleted and its blocks are given back. */
  lemma DropEntry(v: Volume, s: State, i: nat)
    requires Safe(v, s) && i < |s.directory| && Live(s.directory[i])
    requires s.open ==> s.home != Just(i)
    ensures InMap(s.bits, Slots(BigDisk(v.dpb), s.directory[i]))
    ensures var s' := s.(directory := s.directory[i := s.directory[i][DR := DELETED]],
                         bits := MarkSlots(s.bits, Slots(BigDisk(v.dpb), s.directory[i]), false));
            Safe(v, s') && (Ordered(v, s) ==> Ordered(v, s'))
  {
    DropAllocated(v, s, i);
    var e: Entry := s.directory[i][DR := DELETED];
    assert !Live(e);
    if s.open {
      FoundWithout(v, s.directory, s.cdrmax, s.fcb, i, e);
    }
    hide Slots, EntryKey, MarkSlots, Allocated, Fit, Plain, SeesDeleted, Follows, Search;
  }

  lemma FoundWithout(v: Volume, directory: seq<Entry>, cdrmax: Word, f: Fcb, i: nat, e: Entry)
    requires Fit(v) && i < |directory| && Search(v, directory, cdrmax, f) != Just(i) && !Live(e)
    ensures Search(v, directory[i := e], cdrmax, f) == Search(v, directory, cdrmax, f)
  {
    var p := UserFcb(v, f);
    FoundFacts(v, directory, cdrmax, f);
    if Matches(v.dpb.extentMask, p, e, KEY) {
      DeletedSeen(v.dpb.extentMask, p, e, KEY);
    }
    hide Matches, Search;
    match Search(v, directory, cdrmax, f)
    case Just(h) => FoundIs(v, directory[i := e], cdrmax, f, h);
    case Nothing => NoneFoundIs(v, directory[i := e], cdrmax, f);
  }

  lemma DropAllocated(v: Volume, s: State, i: nat)
    requires Allocated(v, s) && i < |s.directory| && Live(s.directory[i]) && (s.open ==> s.home != Just(i))
    ensures InMap(s.bits, Slots(BigDisk(v.dpb), s.directory[i]))
    ensures Allocated(v, s.(directory := s.directory[i := s.directory[i][DR := DELETED]],
                            bits := MarkSlots(s.bits, Slots(BigDisk(v.dpb), s.directory[i]), false)))
  {
    var slots := Slots(BigDisk(v.dpb), s.directory[i]);
    var h := Holdings(v, s);
    assert h[i] == slots;
    Free(h, s.bits, v.directoryBlocks, v.dpb.blocksOnDisk, i);
    FreeKeepsFirst(h, s.bits, v.directoryBlocks, v.dpb.blocksOnDisk, i);
    var bits := MarkSlots(s.bits, slots, false);
    hide *;
    DropHoldings(v, s, i, bits);
    AllocatedFrom(v, s.(directory := s.directory[i := s.directory[i][DR := DELETED]], bits := bits), h[i := []]);
  }

  lemma AllocatedFrom(v: Volume, s: State, h: seq<seq<Word>>)
    requires h == Holdings(v, s) && AllUsed(s.bits, 0, v.directoryBlocks)
    requires Disjoint(h) && Held(h, s.bits, v.directoryBlocks, v.dpb.blocksOnDisk)
    ensures Allocated(v, s)
  {
    hide Disjoint, Held, AllUsed, Holding;
  }

  lemma DropHoldings(v: Volume, s: State, i: nat, bits: seq<bv8>)
    requires i < |s.directory| && (s.open ==> s.home != Just(i))
    ensures Holdings(v, s.(directory := s.directory[i := s.directory[i][DR := DELETED]], bits := bits))
         == Holdings(v, s)[i := []]
  {
    var e: Entry := s.directory[i][DR := DELETED];
    var s' := s.(directory := s.directory[i := e], bits := bits);
    assert !Live(e);
    hide Slots, Extra;
    forall j | 0 <= j <= |s.directory| && j != i
      ensures Holding(v, s', j) == Holding(v, s, j)
    {
    }
    assert Holding(v, s', i) == [];
    hide Holding;
    assert Holdings(v, s') == Holdings(v, s)[i := []];
  }
}
