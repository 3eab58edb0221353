/** Opening and creating, as steps on values (src/bdos/filesystem.S:98-226). */
module Opening {
  import opened Bytes
  import opened Geometry
  import opened Directory
  import opened Consistency
  import opened FcbValues

  /** What a search with wildcards finds, and what it does not look at. */
  lemma SearchByPattern(v: Volume, directory: seq<Entry>, cdrmax: Word, f: Fcb, n: nat, from: nat)
    requires !SeesDeleted(f[DR]) && 0 < n <= 32
    ensures match NextMatch(directory, v.dpb.extentMask, f, n, from, SearchEnd(directory, cdrmax, f))
            case Just(i) =>
              && from <= i < Reach(directory, cdrmax) && Live(directory[i]) && Matches(v.dpb.extentMask, f, directory[i], n)
              && forall j :: from <= j < i ==> !Matches(v.dpb.extentMask, f, directory[j], n)
            case Nothing =>
              forall j :: from <= j < Reach(directory, cdrmax) ==> !Matches(v.dpb.extentMask, f, directory[j], n)
  {
    hide Matches;
    var end := SearchEnd(directory, cdrmax, f);
    NextMatchIsFirst(directory, v.dpb.extentMask, f, n, from, end);
    var r := NextMatch(directory, v.dpb.extentMask, f, n, from, end);
    if r.Just? && !Live(directory[r.value]) {
      DeletedSeen(v.dpb.extentMask, f, directory[r.value], n);
    }
  }

  /** The search create makes for a deleted entry. */
  lemma SearchForDeleted(v: Volume, s: State, f: Fcb)
    requires Safe(v, s) && f[DR] == DELETED
    ensures match NextMatch(s.directory, v.dpb.extentMask, f, 1, 0, SearchEnd(s.directory, s.cdrmax, f))
            case Just(i) => i < |s.directory| && !Live(s.directory[i])
            case Nothing => forall i :: 0 <= i < |s.directory| ==> Live(s.directory[i])
  {
    hide Allocated, Tied, Plain, Fit;
    var mask := v.dpb.extentMask;
    NextMatchIsFirst(s.directory, mask, f, 1, 0, |s.directory| - 1);
    forall i | 0 <= i < |s.directory|
      ensures Matches(mask, f, s.directory[i], 1) <==> !Live(s.directory[i])
    {
      assert SaneEntry(s.directory[i]);
      ModDifference(f[DR], s.directory[i][DR]);
      assert Matches(mask, f, s.directory[i], 1) <==> SameByte(mask, 0, f[0], s.directory[i][0]);
    }
  }

  /** Opening: the FCB becomes the entry's, under the extent number that was asked for. */
  lemma OpenStep(v: Volume, s: State, f: Fcb, i: nat)
    requires Safe(v, s) && !s.open && f[DR] == v.user && f[EX] != ANY
    requires Search(v, s.directory, s.cdrmax, f) == Just(i)
    ensures i < |s.directory| && Live(s.directory[i]) && Matches(v.dpb.extentMask, f, s.directory[i], KEY)
    ensures var s' := s.(fcb := OpenedFcb(f, s.directory[i]), open := true, home := Just(i));
            Safe(v, s') && Found(v, s') == Just(i) && (Ordered(v, s) ==> Ordered(v, s'))
  {
    FoundFacts(v, s.directory, s.cdrmax, f);
    assert UserFcb(v, f) == f;
    var e := s.directory[i];
    var g := OpenedFcb(f, e);
    assert SaneEntry(e);
    assert g[AL..CR] == e[AL..CR];
    SlotsOfPart(BigDisk(v.dpb), g, e);
    OpenedSane(f, e);
    OpenedFound(v, s, f, i);
    hide Safe, Ordered, OpenedFcb, Slots, SaneEntry, Matches, Search;
    TieTo(v, s, g, i);
  }

  lemma OpenedSane(f: Fcb, e: Entry)
    requires Live(e) && SaneEntry(e) && f[EX] != ANY
    ensures SaneFcb(OpenedFcb(f, e))
  {
  }

  /** The FCB as opened finds what the FCB with wildcards found. */
  lemma OpenedFound(v: Volume, s: State, f: Fcb, i: nat)
    requires Fit(v) && f[DR] == v.user && f[EX] != ANY && Search(v, s.directory, s.cdrmax, f) == Just(i)
    requires i < |s.directory| && SaneFcb(OpenedFcb(f, s.directory[i]))
    ensures Search(v, s.directory, s.cdrmax, OpenedFcb(f, s.directory[i])) == Just(i)
  {
    var mask, e := v.dpb.extentMask, s.directory[i];
    var g := UserFcb(v, OpenedFcb(f, e));
    assert UserFcb(v, f) == f;
    FoundFacts(v, s.directory, s.cdrmax, f);
    OpenedKey(v, f, e);
    SaneIsPlain(v, OpenedFcb(f, e));
    OwnKeyMatches(mask, g, e);
    hide Matches, Search, Plain, OpenedFcb, Key, SaneFcb, Fit;
    forall j | 0 <= j < i
      ensures !Matches(mask, g, s.directory[j], KEY)
    {
      MatchesIsSameKey(mask, g, s.directory[j]);
      if Matches(mask, g, s.directory[j], KEY) {
        SameKeySameMatch(mask, f, e, s.directory[j]);
      }
    }
    FoundIs(v, s.directory, s.cdrmax, OpenedFcb(f, e), i);
  }

  lemma OpenedKey(v: Volume, f: Fcb, e: Entry)
    requires f[DR] == v.user && v.user != ANY && f[EX] != ANY && Matches(v.dpb.extentMask, f, e, KEY)
    ensures EntryKey(v, e) == EntryKey(v, UserFcb(v, OpenedFcb(f, e)))
  {
    var g := UserFcb(v, OpenedFcb(f, e));
    var mask := v.dpb.extentMask;
    hide KeyPart, SameByte;
    forall y | 0 <= y < KEY
      ensures KeyPart(mask, y, e[y]) == KeyPart(mask, y, g[y])
    {
      if y == DR || y == EX {
        assert SameByte(mask, y, f[y], e[y]);
        SameByteIsSameKey(mask, y, f[y], e[y]);
      } else if y == S2 {
        FlagIgnored(mask, e[S2]);
      }
    }
  }

  lemma OpenedCount(f: Fcb, e: Entry)
    ensures var g := OpenedFcb(f, e);
            && g[EX] == f[EX] && g[CR..] == f[CR..]
            && (e[RC] <= 0x80 ==>
                  var behind := 0x80 * (e[EX] as int - f[EX] as int) + e[RC] as int;
                  g[RC] as int == if behind <= 0 then 0 else if behind >= 0x80 then 0x80 else behind)
  {
    if e[RC] <= 0x80 {
      RecordsInExtent(e, f[EX]);
    }
  }

  lemma OpenedIs(f: Fcb, e: Entry)
    ensures OpenedFcb(f, e)
         == var g: Fcb := e + f[CR..];
            var recordCount := if e[EX] == f[EX] then e[RC] else if e[EX] >= f[EX] then 0x80 else 0;
            g[S2 := e[S2] % 0x80 + 0x80][RC := recordCount][EX := f[EX]]
  {
  }

  lemma OpenedSameName(v: Volume, f: Fcb, e: Entry, g: Fcb)
    requires Fit(v) && SaneFcb(f) && f[DR] == v.user
    requires Matches(v.dpb.extentMask, f, e, KEY) && g == OpenedFcb(f, e)
    ensures SameName(g, f) && ExtentNumber(g) == ExtentNumber(f) && g[CR..] == f[CR..]
  {
    assert UserFcb(v, f) == f;
    SaneIsPlain(v, f);
    MatchesIsSameKey(v.dpb.extentMask, f, e);
    NameAndModule(v, f, e, g);
    hide *;
    NumberOfSame(f, g);
  }

  lemma NumberOfSame(f: Fcb, g: Fcb)
    requires g[S2] % 0x80 == f[S2] % 0x80 && g[EX] == f[EX]
    ensures ExtentNumber(g) == ExtentNumber(f)
  {
  }

  lemma NameAndModule(v: Volume, f: Fcb, e: Entry, g: Fcb)
    requires Key(v.dpb.extentMask, f) == Key(v.dpb.extentMask, e) && g == OpenedFcb(f, e)
    ensures SameName(g, f) && g[S2] % 0x80 == f[S2] % 0x80 && g[EX] == f[EX] && g[CR..] == f[CR..]
  {
    hide Masked;
    var k, l := Key(v.dpb.extentMask, f), Key(v.dpb.extentMask, e);
    forall y | 1 <= y < KEY && y != EX && y != S1
      ensures g[y] % 0x80 == f[y] % 0x80
    {
      assert k[y] == l[y] && k[y] == f[y] % 0x80 && l[y] == e[y] % 0x80;
    }
  }

  /** What internal_CREATEFILE makes of the FCB. */
  function CreatedFcb(f: Fcb): Fcb { WithoutBlocks(f)[DR := DELETED][S2 := f[S2] % 0x80 + 0x80] }

  /**
   Creating: a deleted entry takes the FCB's name, and the FCB, without blocks, is tied to what a search
   finds now. Where the mark is right that is the new entry.
   */
  lemma CreateStep(v: Volume, s: State, f: Fcb, i: nat)
    requires Safe(v, s) && !s.open && SaneFcb(f) && i < |s.directory| && !Live(s.directory[i])
    requires Search(v, s.directory, s.cdrmax, f) == Nothing
    ensures var g := CreatedFcb(f);
            var directory, cdrmax := s.directory[i := CreatedEntry(v.user, f)], UpdateCdrmax(s.cdrmax, i);
            var s' := s.(directory := directory, cdrmax := cdrmax, fcb := g, open := true,
                         home := Search(v, directory, cdrmax, g));
            Safe(v, s') && (Ordered(v, s) ==> Ordered(v, s') && s'.home == Just(i))
  {
    var e, g := CreatedEntry(v.user, f), CreatedFcb(f);
    CreatedSane(v, f);
    CreatedBytes(v, f);
    NoBlocks(v, f);
    if Ordered(v, s) {
      NewKey(v, s, f);
    }
    hide Slots, CreatedEntry, CreatedFcb, EntryKey, SaneEntry, Live, SaneFcb, Ordered, Safe, Search, UpdateCdrmax;
    NewEntry(v, s, i, e);
    var s' := s.(directory := s.directory[i := e], cdrmax := UpdateCdrmax(s.cdrmax, i));
    TieEmpty(v, s', g);
    if Ordered(v, s) {
      CreatedFound(v, s', f, i);
    }
  }

  /** Entry i is the FCB's by name, extent group and module. */
  predicate Bears(v: Volume, directory: seq<Entry>, f: Fcb, i: nat)
    requires i < |directory|
  {
    Live(directory[i]) && EntryKey(v, directory[i]) == EntryKey(v, UserFcb(v, f))
  }

  /** All entries that bear the FCB's key are behind the mark, where no search looks. */
  ghost predicate OutOfReach(v: Volume, directory: seq<Entry>, cdrmax: Word, f: Fcb)
  {
    forall i :: 0 <= i < |directory| && Bears(v, directory, f, i) ==> i >= Reach(directory, cdrmax)
  }

  lemma UnfoundExactly(v: Volume, directory: seq<Entry>, cdrmax: Word, f: Fcb)
    requires Fit(v) && SaneFcb(f)
    ensures Search(v, directory, cdrmax, f) == Nothing <==> OutOfReach(v, directory, cdrmax, f)
  {
    var mask, p, r := v.dpb.extentMask, UserFcb(v, f), Search(v, directory, cdrmax, f);
    FoundFacts(v, directory, cdrmax, f);
    SaneIsPlain(v, f);
    hide Matches, Search, Key, Live, SaneFcb, Fit, Plain;
    forall i | 0 <= i < |directory| && Bears(v, directory, f, i)
      ensures Matches(mask, p, directory[i], KEY)
    {
      OwnKeyMatches(mask, p, directory[i]);
    }
    if r.Just? {
      MatchesIsSameKey(mask, p, directory[r.value]);
      assert Bears(v, directory, f, r.value);
    }
  }

  lemma AskedAlike(v: Volume, directory: seq<Entry>, cdrmax: Word, f: Fcb)
    ensures Search(v, directory, cdrmax, f[DR := v.user]) == Search(v, directory, cdrmax, f)
  {
    assert UserFcb(v, f[DR := v.user]) == UserFcb(v, f);
  }

  /** Where the mark is right, an FCB that finds nothing has a key of its own. */
  lemma NewKey(v: Volume, s: State, f: Fcb)
    requires Safe(v, s) && Ordered(v, s) && SaneFcb(f) && Search(v, s.directory, s.cdrmax, f) == Nothing
    ensures forall j :: 0 <= j < |s.directory| && Live(s.directory[j]) ==>
              EntryKey(v, s.directory[j]) != EntryKey(v, CreatedEntry(v.user, f))
  {
    FoundFacts(v, s.directory, s.cdrmax, f);
    CreatedSane(v, f);
    hide Matches, Search, Key, CreatedEntry, Allocated, Tied, SaneEntries, Live, Fit, DifferentKeys;
    forall j | 0 <= j < |s.directory| && Live(s.directory[j])
      ensures EntryKey(v, s.directory[j]) != EntryKey(v, CreatedEntry(v.user, f))
    {
      if EntryKey(v, s.directory[j]) == EntryKey(v, UserFcb(v, f)) {
        OwnKeyMatches(v.dpb.extentMask, UserFcb(v, f), s.directory[j]);
      }
    }
  }

  lemma CreatedFound(v: Volume, s: State, f: Fcb, i: nat)
    requires Safe(v, s) && Ordered(v, s) && !s.open && SaneFcb(f) && i < |s.directory| && i <= s.cdrmax
    requires s.directory[i] == CreatedEntry(v.user, f)
    ensures Search(v, s.directory, s.cdrmax, CreatedFcb(f)) == Just(i)
    ensures Ordered(v, s.(fcb := CreatedFcb(f), open := true, home := Just(i)))
  {
    var mask, g := v.dpb.extentMask, UserFcb(v, CreatedFcb(f));
    CreatedSane(v, f);
    CreatedBytes(v, f);
    CreatedKey(v, f);
    SaneIsPlain(v, CreatedFcb(f));
    OwnKeyMatches(mask, g, s.directory[i]);
    NoBlocks(v, f);
    hide Matches, Search, Key, CreatedEntry, Allocated, Tied, SaneEntries, CreatedFcb, SaneFcb, SaneEntry, SeesDeleted, Slots,
         Plain, Shape;
    forall j | 0 <= j < i
      ensures !Matches(mask, g, s.directory[j], KEY)
    {
      if Matches(mask, g, s.directory[j], KEY) {
        MatchesIsSameKey(mask, g, s.directory[j]);
        if !Live(s.directory[j]) {
          DeletedSeen(mask, g, s.directory[j], KEY);
        }
      }
    }
    FoundIs(v, s.directory, s.cdrmax, CreatedFcb(f), i);
  }

  lemma CreatedSane(v: Volume, f: Fcb)
    requires Fit(v) && SaneFcb(f)
    ensures Live(CreatedEntry(v.user, f)) && SaneEntry(CreatedEntry(v.user, f))
    ensures EntryKey(v, CreatedEntry(v.user, f)) == EntryKey(v, UserFcb(v, f))
  {
    hide KeyPart;
  }

  lemma CreatedBytes(v: Volume, f: Fcb)
    ensures var g := CreatedFcb(f);
            && g[1..S2] == f[1..S2] && g[S2] % 0x80 == f[S2] % 0x80 && g[CR..] == f[CR..] && SameName(g, f)
            && ExtentNumber(g) == ExtentNumber(f) && AllZero(Slots(BigDisk(v.dpb), g)) && (SaneFcb(f) ==> SaneFcb(g))
  {
    var g := CreatedFcb(f);
    NoBlocks(v, f);
    assert g[AL..CR] == WithoutBlocks(f)[AL..CR];
    SlotsOfPart(BigDisk(v.dpb), g, WithoutBlocks(f));
    hide Slots;
    assert forall y :: 1 <= y < S2 ==> g[y] == f[y];
    NumberOfSame(f, g);
  }

  lemma CreatedKey(v: Volume, f: Fcb)
    requires Fit(v) && SaneFcb(f)
    ensures EntryKey(v, CreatedEntry(v.user, f)) == EntryKey(v, UserFcb(v, CreatedFcb(f)))
  {
    CreatedSane(v, f);
    var g := UserFcb(v, CreatedFcb(f));
    FlagIgnored(v.dpb.extentMask, f[S2]);
    hide KeyPart;
    assert forall y :: 0 <= y < KEY && y != S2 ==> g[y] == UserFcb(v, f)[y];
  }

  /** The directory is full: the FCB is left without blocks and without an entry. */
  lemma NotCreated(v: Volume, s: State, f: Fcb)
    requires Safe(v, s) && !s.open && SaneFcb(f) && Search(v, s.directory, s.cdrmax, f) == Nothing
    ensures var s' := s.(fcb := WithoutBlocks(f)[DR := DELETED], open := true, home := Nothing);
            Safe(v, s') && Found(v, s') == Nothing && (Ordered(v, s) ==> Ordered(v, s'))
  {
    var g: Fcb := WithoutBlocks(f)[DR := DELETED];
    NoKeyChange(v, f);
    SameSearch(v, s.directory, s.cdrmax, f, g);
    hide Slots, SaneFcb, Search, WithoutBlocks, Allocated, SaneEntries, Fit, HighWater, DifferentKeys;
    TieEmpty(v, s, g);
  }

  lemma CreatedIs(v: Volume, f: Fcb, e: Entry)
    requires e == [v.user] + WithoutBlocks(f)[1..CR]
    ensures e == CreatedEntry(v.user, f)
  {
  }

  lemma CreatedFcbIs(f: Fcb, g: Fcb)
    requires var cleared: Fcb := WithoutBlocks(f)[DR := DELETED]; g == cleared[S2 := cleared[S2] % 0x80 + 0x80]
    ensures g == CreatedFcb(f)
  {
  }

  lemma NoBlocks(v: Volume, f: Fcb)
    ensures WithoutBlocks(f)[1..AL] == f[1..AL] && WithoutBlocks(f)[CR..] == f[CR..]
    ensures AllZero(Slots(BigDisk(v.dpb), WithoutBlocks(f)))
    ensures AllZero(Slots(BigDisk(v.dpb), CreatedEntry(v.user, f)))
    ensures Slots(BigDisk(v.dpb), WithoutBlocks(f)) == Slots(BigDisk(v.dpb), CreatedEntry(v.user, f))
  {
  }

  /** Clearing the blocks and putting the deleted mark in the first byte. */
  lemma NoKeyChange(v: Volume, f: Fcb)
    ensures var g := WithoutBlocks(f)[DR := DELETED];
            && g[1..AL] == f[1..AL] && g[1..S2] == f[1..S2] && g[S2] == f[S2] && g[CR..] == f[CR..]
            && (SaneFcb(f) ==> SaneFcb(g)) && AllZero(Slots(BigDisk(v.dpb), g))
            && SameName(g, f) && ExtentNumber(g) == ExtentNumber(f)
  {
    var g := WithoutBlocks(f)[DR := DELETED];
    NoBlocks(v, f);
    assert g[AL..CR] == WithoutBlocks(f)[AL..CR];
    SlotsOfPart(BigDisk(v.dpb), g, WithoutBlocks(f));
    NumberOfSame(f, g);
  }
}
