/** What the bytes of an FCB and of a directory entry stand for while files are opened, closed and written. */
module FcbValues {
  import opened Bytes
  import opened Geometry
  import opened Directory
  import opened Consistency

  /** The bytes internal_OPENFILE leaves in the FCB. */
  function OpenedFcb(f: Fcb, e: Entry): Fcb
  {
    (e + f[CR..])[S2 := e[S2] % 0x80 + 0x80][RC := RecordsIn(e, f[EX])][EX := f[EX]]
  }

  /** The entry internal_CREATEFILE puts down. */
  function CreatedEntry(user: Byte, f: Fcb): Entry { [user] + f[1..AL] + seq(16, _ => 0) }

  /** A new entry has the name, and no blocks; user, extent and counts are those of the FCB. */
  lemma CreatedLayout(user: Byte, f: Fcb)
    ensures var e := CreatedEntry(user, f);
            && e[0] == user && (forall y :: 1 <= y < 16 ==> e[y] == f[y]) && forall y :: 16 <= y < 32 ==> e[y] == 0
  {
  }

  predicate AllZero(slots: seq<Word>) { forall j :: 0 <= j < |slots| ==> slots[j] == 0 }

  /** `sta (param), y` over the allocation map. */
  function WithoutBlocks(f: Fcb): Fcb { f[..AL] + seq(16, _ => 0) + f[CR..] }

  function WithDrive(f: Fcb, drive: Byte): Fcb { if drive < 0x80 then f[DR := drive] else f }

  lemma DriveBack(f: Fcb, drive: Byte)
    ensures WithDrive(f, drive) == f[DR := WithDrive(f, drive)[DR]]
  {
  }

  lemma FrontThere(f: Fcb, g: Fcb, f': Fcb, g': Fcb)
    requires g == f[DR := g[DR]] && g' == f'[DR := g'[DR]] && f'[..CR] == g[..CR]
    ensures g'[1..CR] == f[1..CR] && g'[CR] == f'[CR] && g[CR] == f[CR]
  {
    assert forall y :: 0 <= y < CR ==> f'[y] == f'[..CR][y] == g[y];
  }

  lemma SlotsOfPart(big: bool, a: seq<Byte>, b: seq<Byte>)
    requires |a| >= 32 && |b| >= 32 && a[AL..CR] == b[AL..CR]
    ensures Slots(big, a) == Slots(big, b)
  {
    assert forall y :: AL <= y < CR ==> a[y] == a[AL..CR][y - AL] == b[y];
  }

  /** The records an entry has in an extent are those of its total that fall into it. */
  lemma RecordsInExtent(e: Entry, ex: Byte)
    requires e[RC] <= 0x80
    ensures var behind := 0x80 * (e[EX] as int - ex as int) + e[RC] as int;
            RecordsIn(e, ex) as int == if behind <= 0 then 0 else if behind >= 0x80 then 0x80 else behind
  {
  }

  /**
   When an entry takes over the extent and count of an FCB, it keeps what it said about every extent
   exactly if its own was not a later one: closing after a write into an earlier one cuts the file short.
   */
  lemma KeepsRecordsExactly(e: Entry, e': Entry, f: Fcb)
    requires e'[EX] == f[EX] && e'[RC] == f[RC] && 0 < e[RC] <= 0x80 && RecordsIn(e, f[EX]) <= f[RC] <= 0x80
    ensures (forall ex: Byte :: RecordsIn(e', ex) >= RecordsIn(e, ex)) <==> e[EX] <= f[EX]
  {
    assert e[EX] > f[EX] ==> RecordsIn(e', e[EX]) < RecordsIn(e, e[EX]);
  }

  lemma FlagIgnored(extentMask: Byte, b: Byte)
    ensures KeyPart(extentMask, S2, b % 0x80 + 0x80) == KeyPart(extentMask, S2, b) == KeyPart(extentMask, S2, b % 0x80)
  {
  }

  lemma FlaggedMap(v: Volume, f: Fcb, g: Fcb)
    requires g == f[S2 := f[S2] % 0x80 + 0x80]
    ensures Slots(BigDisk(v.dpb), g) == Slots(BigDisk(v.dpb), f)
    ensures g[..S2] == f[..S2] && g[1..S2] == f[1..S2] && g[S2] % 0x80 == f[S2] % 0x80 && g[RC] == f[RC]
    ensures g[CR..] == f[CR..]
  {
  }

  lemma WithUserCode(v: Volume, f: Fcb, g: Fcb)
    requires g == f[DR := g[DR]]
    ensures Slots(BigDisk(v.dpb), g) == Slots(BigDisk(v.dpb), f) && SameName(g, f) && SameName(f, g)
    ensures ExtentNumber(g) == ExtentNumber(f) && forall y :: 1 <= y < 36 ==> g[y] == f[y]
  {
  }

  lemma WithoutDrive(v: Volume, f: Fcb)
    requires SaneFcb(f)
    ensures SaneFcb(f[DR := v.user])
  {
  }

  /** Extents are numbered through the modules, 32 to each. */
  function ExtentNumber(f: Fcb): nat
  {
    var group: nat, extent: nat := f[S2] % 0x80, f[EX] % 0x20;
    0x20 * group + extent
  }

  /** The number of a record in its file. */
  function Position(f: Fcb): nat
  {
    var group: nat, extent: nat := f[S2] % 0x80, f[EX] % 0x20;
    0x1000 * group + 0x80 * extent + f[CR]
  }

  /** It is the one that COMPUTEPOINTER gives, up to the sixteen bits of that. */
  lemma PositionIsPointer(f: Fcb)
    requires f[CR] < 0x80 && f[EX] < 0x20
    ensures var (r0, r1) := ComputePointer(f[EX], f[CR], f[S2]);
            0x100 * r1 + r0 == Position(f) % 0x1_0000
  {
    var m: int, ex: int, cr: int := f[S2] % 0x80, f[EX], f[CR];
    var low: int, half: int, odd: int := f[S2] % 0x10, ex / 2, ex % 2;
    ShiftedOut(f[S2]);
    PointerIs(f[EX], f[CR], f[S2]);
    hide ToByte, ComputePointer;
    assert ex == 2 * half + odd && m % 0x10 == low;
    LowModules(m, low, 0x80 * ex + cr);
  }

  lemma LowModules(m: int, low: int, rest: int)
    requires 0 <= m && low == m % 0x10 && 0 <= rest < 0x1000
    ensures (0x1000 * m + rest) % 0x1_0000 == 0x1000 * low + rest
  {
    var q := m / 0x10;
    assert 0x1000 * m + rest == 0x1_0000 * q + (0x1000 * low + rest);
  }

  const LAST_EXTENT: nat := 0x20 * LAST_MODULE + 0x1f

  predicate SameName(f: Fcb, g: Fcb) { forall y :: 1 <= y < EX ==> f[y] % 0x80 == g[y] % 0x80 }

  lemma SameFcb(f: Fcb)
    ensures SameName(f, f)
  {
  }

  /** The parts of an FCB that closing leaves alone; of S2, the module. */
  predicate SameFile(a: Fcb, b: Fcb)
  {
    a[..S2] == b[..S2] && a[S2] % 0x80 == b[S2] % 0x80 && a[RC] == b[RC] && a[CR..] == b[CR..]
  }

  /** The FCB still names the blocks it did. */
  predicate KeepsBlocks(v: Volume, f: Fcb, g: Fcb)
  {
    var big := BigDisk(v.dpb);
    forall k :: 0 <= k < |Slots(big, f)| && Slots(big, f)[k] != 0 ==> Slots(big, g)[k] == Slots(big, f)[k]
  }

  lemma SaneIsPlain(v: Volume, f: Fcb)
    requires Fit(v) && SaneFcb(f)
    ensures Plain(UserFcb(v, f))
  {
  }

  lemma VolumeFacts(v: Volume, s: State)
    requires Safe(v, s)
    ensures Fit(v) && |s.directory| == v.dpb.directoryEntries + 1 <= 0x1000
    ensures v.user != ANY && !SeesDeleted(v.user)
  {
    hide Allocated, Tied;
  }

  lemma TiedFacts(v: Volume, s: State)
    requires Safe(v, s) && s.open
    ensures SaneFcb(s.fcb) && (s.home.Just? ==> s.home.value < |s.directory| && Live(s.directory[s.home.value]))
    ensures Found(v, s) == Nothing || Found(v, s) == s.home
  {
    hide Allocated, SaneEntries, Fit, Search, SaneFcb;
  }

  /** The first byte of an FCB is the caller's business. */
  lemma UserCodeOnly(v: Volume, s: State, fcb: Fcb)
    requires Safe(v, s) && fcb[1..] == s.fcb[1..]
    ensures Safe(v, s.(fcb := fcb)) && (Ordered(v, s) ==> Ordered(v, s.(fcb := fcb)))
    ensures Search(v, s.directory, s.cdrmax, fcb) == Search(v, s.directory, s.cdrmax, s.fcb)
  {
    assert UserFcb(v, fcb) == UserFcb(v, s.fcb);
    if s.open {
      assert fcb[1..S2] == fcb[1..][..S2 - 1] && s.fcb[1..S2] == s.fcb[1..][..S2 - 1];
      assert fcb[AL..CR] == fcb[1..][AL - 1..CR - 1] && s.fcb[AL..CR] == s.fcb[1..][AL - 1..CR - 1];
      assert fcb[S2] == fcb[1..][S2 - 1] == s.fcb[S2];
      hide Safe, Ordered, Search;
      Touch(v, s, fcb);
    } else {
      hide Slots, SaneEntries, Fit, HighWater, DifferentKeys, Search;
      assert Holdings(v, s.(fcb := fcb)) == Holdings(v, s);
    }
  }

  lemma SeenIsUsed(big: bool, block: Word)
    ensures Seen(big, block) ==> block != 0
  {
  }
}
