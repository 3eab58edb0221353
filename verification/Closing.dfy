/** Closing, and moving on to the next extent, as steps on values (src/bdos/filesystem.S:260-307, 483-521, 610-679). */
module Closing {
  import opened Bytes
  import opened Geometry
  import opened Directory
  import opened Consistency
  import opened FcbValues

  /** Entry e and FCB f have become e' and f'. */
  ghost predicate ClosedBy(v: Volume, e: Entry, f: Fcb, e': Entry, f': Fcb)
  {
    && e'[..AL] == e[..AL][RC := f[RC]][EX := f[EX]]
    && MergedMaps(v, e, f, e', f')
    && f'[S2] >= 0x80
  }

  ghost predicate MapsClash(v: Volume, e: Entry, f: Fcb)
  {
    var big := BigDisk(v.dpb);
    exists k :: 0 <= k < |Slots(big, f)| && !Agree(Slots(big, f)[k], Slots(big, e)[k])
             && Clash(big, Slots(big, f)[k], Slots(big, e)[k])
  }

  /** What the search for an open FCB is worth: the entry found is the one its blocks are from. */
  lemma SearchForOwn(v: Volume, s: State)
    requires Safe(v, s) && s.open && s.fcb[DR] == v.user
    ensures SaneFcb(s.fcb)
    ensures NextMatch(s.directory, v.dpb.extentMask, s.fcb, KEY, 0, SearchEnd(s.directory, s.cdrmax, s.fcb)) == Found(v, s)
    ensures match Found(v, s)
            case Nothing => true
            case Just(i) =>
              && s.home == Just(i) && i < |s.directory| && Live(s.directory[i]) && SaneEntry(s.directory[i])
              && Matches(v.dpb.extentMask, UserFcb(v, s.fcb), s.directory[i], KEY)
              && EntryKey(v, s.directory[i]) == EntryKey(v, UserFcb(v, s.fcb))
  {
    SaneIsPlain(v, s.fcb);
    FoundFacts(v, s.directory, s.cdrmax, s.fcb);
    assert UserFcb(v, s.fcb) == s.fcb;
    hide Matches, EntryKey, Live, SaneEntry, SaneFcb, Allocated, Fit, Plain, NextMatch, SearchEnd;
    if Found(v, s).Just? {
      MatchesIsSameKey(v.dpb.extentMask, UserFcb(v, s.fcb), s.directory[Found(v, s).value]);
    }
  }

  lemma ClosedEntry(v: Volume, e: Entry, f: Fcb, e': Entry)
    requires Live(e) && SaneEntry(e) && SaneFcb(f) && EntryKey(v, e) == EntryKey(v, UserFcb(v, f))
    requires e'[..AL] == e[..AL][RC := f[RC]][EX := f[EX]]
    ensures Live(e') && SaneEntry(e') && EntryKey(v, e') == EntryKey(v, e)
    ensures Matches(v.dpb.extentMask, UserFcb(v, f), e', KEY)
  {
    assert forall y :: 0 <= y < AL ==> e'[y] == e'[..AL][y];
    ClosedKey(v, e, f, e');
    hide EntryKey, Matches;
    OwnKeyMatches(v.dpb.extentMask, UserFcb(v, f), e');
  }

  lemma ClosedKey(v: Volume, e: Entry, f: Fcb, e': Entry)
    requires EntryKey(v, e) == EntryKey(v, UserFcb(v, f))
    requires forall y :: 0 <= y < KEY ==> e'[y] == if y == EX then f[y] else e[y]
    ensures EntryKey(v, e') == EntryKey(v, e)
  {
    hide KeyPart;
    var k, l := EntryKey(v, e), EntryKey(v, UserFcb(v, f));
    assert k[EX] == l[EX] && l[EX] == KeyPart(v.dpb.extentMask, EX, f[EX]);
  }

  lemma ClosedIs(v: Volume, e: Entry, f: Fcb, b: Entry, e': Entry, g: Fcb, f': Fcb)
    requires b == e[RC := f[RC]][EX := f[EX]] && e'[..AL] == b[..AL]
    requires forall k :: 0 <= k < |Slots(BigDisk(v.dpb), f)| ==>
               && Slots(BigDisk(v.dpb), g)[k] == Merged(Slots(BigDisk(v.dpb), f)[k], Slots(BigDisk(v.dpb), b)[k])
               && Slots(BigDisk(v.dpb), e')[k] == Merged(Slots(BigDisk(v.dpb), b)[k], Slots(BigDisk(v.dpb), f)[k])
    requires g[..AL] == f[..AL] && g[CR..] == f[CR..] && f' == g[S2 := g[S2] % 0x80 + 0x80]
    ensures ClosedBy(v, e, f, e', f') && SameFile(f', f) && f'[1..S2] == f[1..S2]
  {
    FlaggedMap(v, g, f');
    SlotsOfPart(BigDisk(v.dpb), b, e);
    hide Slots, Merged;
    assert forall y :: 0 <= y < AL ==> g[y] == g[..AL][y] == f[y];
    assert e'[..AL] == e[..AL][RC := f[RC]][EX := f[EX]];
  }

  // ---------- whether the entry has everything ----------

  /** The entry says there are so many records in the extent, or more. */
  predicate Tells(e: Entry, ex: Byte, count: Byte) { 0x80 * (e[EX] as int - ex as int) + e[RC] as int >= count as int }

  /** The entry an FCB follows covers the record the FCB has just passed. */
  lemma EntryCovers(v: Volume, s: State)
    requires Safe(v, s) && Ordered(v, s) && s.open && Found(v, s).Just?
    requires s.fcb[S2] >= 0x80 && 0 < s.fcb[CR] <= s.fcb[RC]
    ensures Found(v, s) == s.home && s.home.value < |s.directory| && Tells(s.directory[s.home.value], s.fcb[EX], s.fcb[CR])
  {
    FoundFacts(v, s.directory, s.cdrmax, s.fcb);
    TiedFacts(v, s);
    hide Slots, Safe, HighWater, DifferentKeys, Search, Matches, Faithful, Saved, BigDisk, SaneFcb, Live;
  }

  /** Every block of the FCB is one of the entry's. */
  ghost predicate NamesAll(v: Volume, e: Entry, f: Fcb)
  {
    var big := BigDisk(v.dpb);
    forall k :: 0 <= k < |Slots(big, f)| && Slots(big, f)[k] != 0 ==> Slots(big, f)[k] in Slots(big, e)
  }

  ghost predicate MapsAgree(v: Volume, e: Entry, f: Fcb)
  {
    var big := BigDisk(v.dpb);
    forall k :: 0 <= k < |Slots(big, f)| ==> Agree(Slots(big, f)[k], Slots(big, e)[k])
  }

  /** A block of an open FCB can only be at its own place in the entry. */
  lemma OwnPlace(v: Volume, s: State, h: nat, k: nat)
    requires Safe(v, s) && s.open && s.home == Just(h) && h < |s.directory| && Live(s.directory[h])
    requires k < |Slots(BigDisk(v.dpb), s.fcb)| && Slots(BigDisk(v.dpb), s.fcb)[k] != 0
    ensures var block, e := Slots(BigDisk(v.dpb), s.fcb)[k], Slots(BigDisk(v.dpb), s.directory[h]);
            block in e <==> e[k] == block
  {
    var hs, n := Holdings(v, s), |s.directory|;
    var block, e := Slots(BigDisk(v.dpb), s.fcb)[k], Slots(BigDisk(v.dpb), s.directory[h]);
    hide Slots, SaneEntries, Live, Fit, Search;
    assert hs[h] == e && (e[k] != block ==> hs[n][k] == block);
  }

  /** After a close that wrote the FCB back, the entry has all of its blocks if and only if the two maps agreed. */
  lemma NamesAllExactly(v: Volume, s: State, h: nat, e: Entry, f: Fcb)
    requires Safe(v, s) && s.open && s.home == Just(h) && h < |s.directory| && Live(s.directory[h])
    requires MergedMaps(v, e, f, s.directory[h], s.fcb)
    ensures NamesAll(v, s.directory[h], s.fcb) <==> MapsAgree(v, e, f)
  {
    var big := BigDisk(v.dpb);
    hide Slots, Safe, BigDisk, Live;
    forall k | 0 <= k < |Slots(big, s.fcb)| && Slots(big, s.fcb)[k] != 0
      ensures Slots(big, s.fcb)[k] in Slots(big, s.directory[h]) <==> Slots(big, s.directory[h])[k] == Slots(big, s.fcb)[k]
    {
      OwnPlace(v, s, h, k);
    }
    MergedAlike(v, e, f, s.directory[h], s.fcb);
  }

  lemma MergedAlike(v: Volume, e: Entry, f: Fcb, e': Entry, f': Fcb)
    requires MergedMaps(v, e, f, e', f')
    ensures var big := BigDisk(v.dpb);
            forall k :: 0 <= k < |Slots(big, f')| ==>
              (Agree(Slots(big, f)[k], Slots(big, e)[k])
               <==> Slots(big, f')[k] == 0 || Slots(big, e')[k] == Slots(big, f')[k])
  {
    hide Slots, BigDisk;
  }

  lemma MapsThere(v: Volume, e: Entry, f: Fcb, g: Fcb)
    requires g == f[DR := g[DR]]
    ensures MapsAgree(v, e, f) <==> MapsAgree(v, e, g)
    ensures NamesAll(v, e, f) <==> NamesAll(v, e, g)
  {
    WithUserCode(v, f, g);
    hide Slots, Agree;
  }

  lemma StillKept(v: Volume, f: Fcb, e: Entry, g: Fcb)
    requires var big := BigDisk(v.dpb);
             forall k :: 0 <= k < |Slots(big, f)| ==>
               Slots(big, g)[k] == Slots(big, f)[k] || Slots(big, g)[k] == Merged(Slots(big, f)[k], Slots(big, e)[k])
    ensures KeepsBlocks(v, f, g)
    ensures KeepsBlocks(v, f, g[S2 := g[S2] % 0x80 + 0x80])
  {
    FlaggedMap(v, g, g[S2 := g[S2] % 0x80 + 0x80]);
    hide Slots;
  }

  lemma ClashThere(v: Volume, e: Entry, f: Fcb, g: Fcb)
    requires g == f[DR := g[DR]]
    ensures MapsClash(v, e, f) <==> MapsClash(v, e, g)
  {
    WithUserCode(v, f, g);
    hide Slots, Clash;
  }

  lemma ClosedThere(v: Volume, f: Fcb, g: Fcb, f': Fcb, g': Fcb)
    requires g == f[DR := g[DR]] && g' == f'[DR := g'[DR]]
    ensures KeepsBlocks(v, g, f') ==> KeepsBlocks(v, f, g')
    ensures forall e, e' :: ClosedBy(v, e, g, e', f') ==> ClosedBy(v, e, f, e', g')
  {
    WithUserCode(v, f, g);
    WithUserCode(v, f', g');
    hide Slots, Merged;
  }

  lemma SameFileThere(f: Fcb, g: Fcb, f': Fcb, g': Fcb)
    requires g == f[DR := g[DR]] && SameFile(f', g) && g' == f'[DR := g'[DR]]
    ensures g'[1..S2] == f[1..S2] && g'[S2] == f'[S2] && g'[S2] % 0x80 == f[S2] % 0x80 && g'[RC] == f[RC] && g'[CR..] == f[CR..]
  {
    assert forall y :: 0 <= y < S2 ==> f'[y] == f'[..S2][y] == g[y];
    assert forall y :: CR <= y < 36 ==> f'[y] == f'[CR..][y - CR] == g[y];
  }

  /** No entry but those two has changed. */
  ghost predicate Untouched(before: seq<Entry>, after: seq<Entry>, one: Option<nat>, other: Option<nat>)
  {
    |after| == |before| && forall i :: 0 <= i < |before| && one != Just(i) && other != Just(i) ==> after[i] == before[i]
  }

  /** No live entry but that one has changed. */
  ghost predicate LiveUntouched(before: seq<Entry>, after: seq<Entry>, one: Option<nat>)
  {
    |after| == |before| && forall i :: 0 <= i < |before| && Live(before[i]) && one != Just(i) ==> after[i] == before[i]
  }

  lemma Same(directory: seq<Entry>, one: Option<nat>, other: Option<nat>)
    ensures Untouched(directory, directory, one, other) && LiveUntouched(directory, directory, one)
  {
  }

  function MovedOnFcb(g: Fcb): Fcb
  {
    var ex := Inc(g[EX]) % 0x20;
    g[EX := ex][S2 := if ex == 0 then Inc(g[S2]) else g[S2]][CR := 0][RC := 0]
  }

  lemma MovedOn(v: Volume, f: Fcb, g: Fcb, m: Fcb)
    requires SaneFcb(f) && SameFile(g, f) && KeepsBlocks(v, f, g) && ExtentNumber(f) < LAST_EXTENT
    requires m == MovedOnFcb(g)
    ensures SaneFcb(m) && m[..EX] == f[..EX] && ExtentNumber(m) == ExtentNumber(f) + 1 && KeepsBlocks(v, f, m)
    ensures m[CR] == 0 && m[RC] == 0 && Slots(BigDisk(v.dpb), m) == Slots(BigDisk(v.dpb), g)
    ensures SaneFcb(MovedOnFcb(f)) && m[1..S2] == MovedOnFcb(f)[1..S2] && m[S2] % 0x80 == MovedOnFcb(f)[S2] % 0x80
  {
    assert forall y :: 0 <= y < S2 ==> g[y] == g[..S2][y] == f[y];
    assert m[AL..CR] == g[AL..CR];
    SlotsOfPart(BigDisk(v.dpb), m, g);
    hide Slots;
    ModuleUp(g[S2], g[EX]);
    ModuleUp(f[S2], f[EX]);
  }

  lemma ModuleUp(s2: Byte, ex: Byte)
    requires s2 % 0x80 <= LAST_MODULE && 0x20 * (s2 % 0x80) + ex % 0x20 < LAST_EXTENT
    ensures var ex' := Inc(ex) % 0x20;
            var s2' := if ex' == 0 then Inc(s2) else s2;
            && s2' % 0x80 <= LAST_MODULE && 0x20 * (s2' % 0x80) + ex' == 0x20 * (s2 % 0x80) + ex % 0x20 + 1
            && s2' % 0x80 == if ex' == 0 then s2 % 0x80 + 1 else s2 % 0x80
  {
    ExtentUp(ex);
    if ex % 0x20 == 0x1f {
      assert Inc(s2) as int == s2 as int + 1;
    }
  }

  lemma ExtentUp(ex: Byte)
    ensures Inc(ex) % 0x20 == if ex % 0x20 == 0x1f then 0 else ex % 0x20 + 1
  {
  }

  // ---------- what closing does to the directory as a whole ----------

  /** The entries are still the same to every search, and still name the blocks they did. */
  ghost predicate SameEntries(v: Volume, before: seq<Entry>, after: seq<Entry>)
  {
    && |after| == |before|
    && forall i :: 0 <= i < |before| ==>
         && EntryKey(v, after[i]) == EntryKey(v, before[i]) && (Live(after[i]) <==> Live(before[i]))
         && forall k :: 0 <= k < |Slots(BigDisk(v.dpb), before[i])| && Slots(BigDisk(v.dpb), before[i])[k] != 0 ==>
              Slots(BigDisk(v.dpb), after[i])[k] == Slots(BigDisk(v.dpb), before[i])[k]
  }

  lemma NoneChanged(v: Volume, directory: seq<Entry>)
    ensures SameEntries(v, directory, directory)
  {
  }

  lemma OneClosed(v: Volume, before: seq<Entry>, i: nat, f: Fcb, e': Entry, f': Fcb)
    requires i < |before| && ClosedBy(v, before[i], f, e', f') && EntryKey(v, e') == EntryKey(v, before[i])
    ensures SameEntries(v, before, before[i := e'])
  {
    assert e'[..AL][DR] == e'[DR] == before[i][DR];
    hide Slots, EntryKey;
  }

  lemma SearchedAlike(v: Volume, before: seq<Entry>, after: seq<Entry>, cdrmax: Word, f: Fcb)
    requires Fit(v) && SameEntries(v, before, after)
    ensures Search(v, after, cdrmax, f) == Search(v, before, cdrmax, f)
  {
    hide Matches, Search, Slots, Key;
    forall j | 0 <= j < |before|
      ensures Matches(v.dpb.extentMask, UserFcb(v, f), before[j], KEY) <==> Matches(v.dpb.extentMask, UserFcb(v, f), after[j], KEY)
    {
      SameKeySameMatch(v.dpb.extentMask, UserFcb(v, f), before[j], after[j]);
    }
    FoundSame(v, before, after, cdrmax, f, f);
  }

  lemma ClosingTouches(v: Volume, before: seq<Entry>, after: seq<Entry>, home: Option<nat>)
    requires |after| == |before|
    requires after == before || (home.Just? && home.value < |before| && after == before[home.value := after[home.value]])
    ensures Untouched(before, after, home, Nothing)
  {
  }

  lemma SameLive(v: Volume, before: seq<Entry>, after: seq<Entry>, home: Option<nat>)
    requires SameEntries(v, before, after) && (home.Just? ==> home.value < |before| && Live(before[home.value]))
    ensures home.Just? ==> home.value < |after| && Live(after[home.value])
  {
    hide Slots, Live, EntryKey;
  }

  lemma AllLiveToo(v: Volume, before: seq<Entry>, after: seq<Entry>)
    requires SameEntries(v, before, after)
    ensures (forall i :: 0 <= i < |before| ==> Live(before[i])) <==> (forall i :: 0 <= i < |after| ==> Live(after[i]))
  {
    hide Slots, Live, EntryKey;
  }

  lemma OneMoreTouched(v: Volume, before: seq<Entry>, now: seq<Entry>, after: seq<Entry>, i: nat, home: Option<nat>)
    requires SameEntries(v, before, now) && Untouched(before, now, home, Nothing)
    requires i < |now| && !Live(now[i]) && |after| == |now| && after == now[i := after[i]]
    ensures Untouched(before, after, home, Just(i)) && LiveUntouched(before, after, home)
  {
    hide Slots, Live, EntryKey;
  }

  lemma ClosedSameName(f: Fcb, m: Fcb)
    requires m[..EX] == f[..EX] && SaneFcb(m)
    ensures SameName(m, f) && m[DR] == f[DR] && m[EX] != ANY
  {
    assert forall y :: 0 <= y < EX ==> m[y] == m[..EX][y] == f[y];
  }

  lemma SameNames(a: Fcb, b: Fcb, c: Fcb)
    requires SameName(a, b) && SameName(b, c)
    ensures SameName(a, c)
  {
  }

  /** The drive makes no difference to where the next extent is found. */
  lemma MovedOnUser(v: Volume, directory: seq<Entry>, cdrmax: Word, f: Fcb, g: Fcb)
    requires g == f[DR := g[DR]]
    ensures Search(v, directory, cdrmax, MovedOnFcb(g)) == Search(v, directory, cdrmax, MovedOnFcb(f))
  {
    assert UserFcb(v, MovedOnFcb(g)) == UserFcb(v, MovedOnFcb(f));
  }

  // ---------- the next extent is missing ----------

  /** An FCB that has found no entry keeps the blocks of the one it came from. */
  lemma StillHeld(v: Volume, s: State, home: Option<nat>)
    requires Safe(v, s) && !s.open && SaneFcb(s.fcb) && Found(v, s) == Nothing
    requires Allocated(v, s.(open := true, home := home))
    requires home.Just? ==> home.value < |s.directory| && Live(s.directory[home.value])
    ensures var s' := s.(open := true, home := home);
            Safe(v, s') && (Ordered(v, s) ==> Ordered(v, s'))
  {
    hide Allocated, SaneEntries, Fit, Search, SaneFcb, Live, HighWater, DifferentKeys;
  }

  lemma AllocatedBy(v: Volume, s: State, fcb: Fcb)
    requires Safe(v, s) && Slots(BigDisk(v.dpb), fcb) == Slots(BigDisk(v.dpb), s.fcb)
    ensures Allocated(v, s.(fcb := fcb))
  {
    hide Slots, SaneEntries, Fit, Tied, Extra;
    assert Holdings(v, s.(fcb := fcb)) == Holdings(v, s);
    AllocatedFrom(v, s.(fcb := fcb), Holdings(v, s));
  }

  /**
   An entry that an FCB matches, but no more once the FCB has moved on, was at its last extent. So the
   next block the FCB would use is its first one again.
   */
  lemma StartsOver(v: Volume, f: Fcb, m: Fcb, e: Entry)
    requires Shape(v.dpb, v.directoryBlocks) && SaneFcb(f) && m[1..S2] == MovedOnFcb(f)[1..S2]
    requires ExtentNumber(f) < LAST_EXTENT && m[S2] % 0x80 == MovedOnFcb(f)[S2] % 0x80 && m[CR] == 0
    requires Matches(v.dpb.extentMask, UserFcb(v, f), e, KEY) && !Matches(v.dpb.extentMask, UserFcb(v, m), e, KEY)
    ensures SlotNumber(v.dpb, m[EX], m[CR]) == 0
  {
    var mask := v.dpb.extentMask;
    assert forall y :: 1 <= y < S2 ==> m[y] == m[1..S2][y - 1];
    ModuleUp(f[S2], f[EX]);
    hide SameByte;
    if m[EX] % (mask + 1) != 0 {
      SameGroup(mask, f[EX], m[EX]);
      SameFlag(mask, f[S2], m[S2], e[S2]);
      SameMasked(mask, f[EX], m[EX], e[EX]);
    }
    SlotZero(v, m[EX]);
  }

  lemma LeftAtFirst(v: Volume, s: State, m: Fcb)
    requires Safe(v, s) && s.open && s.fcb[DR] == v.user && Found(v, s).Just? && ExtentNumber(s.fcb) < LAST_EXTENT
    requires m[1..S2] == MovedOnFcb(s.fcb)[1..S2] && m[S2] % 0x80 == MovedOnFcb(s.fcb)[S2] % 0x80 && m[CR] == 0
    requires Search(v, s.directory, s.cdrmax, MovedOnFcb(s.fcb)) == Nothing
    ensures SlotNumber(v.dpb, m[EX], m[CR]) == 0
  {
    var f, i := s.fcb, Found(v, s).value;
    FoundFacts(v, s.directory, s.cdrmax, f);
    FoundFacts(v, s.directory, s.cdrmax, MovedOnFcb(f));
    assert MovedOnFcb(f)[1..S2][EX - 1] == MovedOnFcb(f)[EX] == m[1..S2][EX - 1] == m[EX];
    TiedFacts(v, s);
    VolumeFacts(v, s);
    hide Safe, Search, Matches, MovedOnFcb, SlotNumber, Shape, ExtentNumber;
    StartsOver(v, f, MovedOnFcb(f), s.directory[i]);
  }

  lemma SlotZero(v: Volume, ex: Byte)
    requires Shape(v.dpb, v.directoryBlocks) && ex % (v.dpb.extentMask + 1) == 0
    ensures SlotNumber(v.dpb, ex, 0) == 0
  {
  }

  /** Moving on within an entry's extents leaves the part of the number alone that is compared. */
  lemma SameGroup(extentMask: Byte, ex: Byte, ex': Byte)
    requires extentMask == 0 || extentMask == 1 || extentMask == 3 || extentMask == 7 || extentMask == 15
    requires ex' == Inc(ex) % 0x20 && ex' % (extentMask + 1) != 0
    ensures Masked(ex, extentMask) % 0x20 == Masked(ex', extentMask) % 0x20 && ex' != 0
  {
    ExtentUp(ex);
    hide Inc, Masked;
    var m: int, high: int, low: int := extentMask + 1, ex / 0x20, ex % 0x20;
    var a, r := low / m, low % m;
    Quotient(m, low);
    if r + 1 == m {
      Rest(m, a + 1, 0);
    } else {
      Rest(m, a, r + 1);
    }
    Rest(m, a, 0);
    Whole(m, high, a, r);
    MaskedIs(extentMask, ex, r);
    MaskedIs(extentMask, ex', r + 1);
    LowPart(high, m * a);
  }

  lemma MaskedIs(extentMask: Byte, b: Byte, rest: int)
    requires b % (extentMask + 1) == rest
    ensures Masked(b, extentMask) == b - rest
  {
  }

  lemma Quotient(m: int, x: int)
    requires m > 0
    ensures x == m * (x / m) + x % m && 0 <= x % m < m
  {
  }

  lemma Rest(m: int, q: int, r: int)
    requires m == 1 || m == 2 || m == 4 || m == 8 || m == 16
    requires 0 <= r < m
    ensures (m * q + r) % m == r && m * (q + 1) == m * q + m
  {
    match m
    case 1 =>
    case 2 => assert (2 * q + r) % 2 == r;
    case 4 => assert (4 * q + r) % 4 == r;
    case 8 => assert (8 * q + r) % 8 == r;
    case _ => assert (16 * q + r) % 16 == r;
  }

  lemma Whole(m: int, high: int, a: int, r: int)
    requires m == 1 || m == 2 || m == 4 || m == 8 || m == 16
    requires 0 <= r < m
    ensures (0x20 * high + (m * a + r)) % m == r
  {
    match m
    case 1 =>
    case 2 => Rest(2, 16 * high + a, r);
    case 4 => Rest(4, 8 * high + a, r);
    case 8 => Rest(8, 4 * high + a, r);
    case _ => Rest(16, 2 * high + a, r);
  }

  lemma LowPart(high: int, low: int)
    ensures 0 <= low < 0x20 ==> (0x20 * high + low) % 0x20 == low
  {
  }

  lemma SameMasked(extentMask: Byte, f: Byte, g: Byte, e: Byte)
    requires Masked(f, extentMask) % 0x20 == Masked(g, extentMask) % 0x20 && f != ANY && g != ANY
    ensures SameByte(extentMask, EX, f, e) <==> SameByte(extentMask, EX, g, e)
  {
    hide SameByte, Masked;
    SameByteIsSameKey(extentMask, EX, f, e);
    SameByteIsSameKey(extentMask, EX, g, e);
  }

  /** Block numbers an FCB had in common with its entry are still in both. */
  lemma FirstIsKept(v: Volume, s: State, after: seq<Entry>, f: Fcb)
    requires Safe(v, s) && Ordered(v, s) && s.open && Found(v, s).Just? && SameEntries(v, s.directory, after)
    requires KeepsBlocks(v, s.fcb, f)
    ensures Found(v, s).value < |after|
    ensures var big, e := BigDisk(v.dpb), s.directory[Found(v, s).value];
            Seen(big, Slots(big, e)[0]) ==>
              Slots(big, f)[0] == Slots(big, after[Found(v, s).value])[0] == Slots(big, e)[0]
  {
    FoundFacts(v, s.directory, s.cdrmax, s.fcb);
    SeenIsUsed(BigDisk(v.dpb), Slots(BigDisk(v.dpb), s.directory[Found(v, s).value])[0]);
    hide Slots, Search, Matches, Allocated, SaneEntries, Tied, HighWater, DifferentKeys, Seen, BigDisk, EntryKey, Live;
  }

  lemma StaleBlocks(v: Volume, f: Fcb, f0: Fcb, f1: Fcb, f': Fcb)
    requires f0 == f[DR := f0[DR]] && f' == f1[DR := f'[DR]]
    requires ExtentNumber(f1) == ExtentNumber(f0) + 1 && KeepsBlocks(v, f0, f1)
    ensures ExtentNumber(f') == ExtentNumber(f) + 1 && f'[CR] == f1[CR] && f'[RC] == f1[RC] && KeepsBlocks(v, f, f')
    ensures MovedOnFcb(f0) == MovedOnFcb(f)[DR := f0[DR]]
  {
    WithUserCode(v, f, f0);
    WithUserCode(v, f1, f');
    hide Slots, ExtentNumber;
  }
}
