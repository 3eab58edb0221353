/**
 Loading an object file the assembler wrote: both relocators turn the file's image into the image
 assembled for where it was loaded (tools/cpmemu/biosbdos.c:109-113, 175-180; src/lib/relocate.S:10-40).
 */
module Loading {
  import opened Bytes
  import opened Records
  import opened NibbleStream
  import opened RelocationReaders
  import opened Placement
  import opened Emission
  import opened Relocatable

  /** An object file in memory, of a log that marks no byte but its records' own. */
  ghost predicate ObjectAt(mem: seq<Byte>, base: Word, log: seq<Record>, zpUsage: Byte, textUsage: Word)
  {
    && |mem| == 0x1_0000 && Ready(log, textUsage) && NoStrayMarks(log)
    && Loaded(mem, base, Object(log, zpUsage, textUsage))
  }

  /** Where the two streams are. */
  lemma ObjectParts(mem: seq<Byte>, base: Word, log: seq<Record>, zpUsage: Byte, textUsage: Word)
    requires ObjectAt(mem, base, log, zpUsage, textUsage)
    ensures WellFormed(log)
    ensures var zs, ts := Encode(ZpMarks(log, |log|)), Encode(TextMarks(log, |log|));
            && base + textUsage + |zs| + |ts| <= 0x1_0000 && |zs| > 0 && |ts| > 0
            && mem[base + textUsage..base + textUsage + |zs|] == zs
            && mem[base + textUsage + |zs|..base + textUsage + |zs| + |ts|] == ts
    ensures Loaded(mem, base, Image(log, zpUsage, textUsage)) && textUsage >= START_ADDRESS
    ensures Pair(mem[base + 2], mem[base + 3]) == textUsage
  {
    hide *;
    ObjectForm(mem, base, log, zpUsage, textUsage);
    ImageSize(log, zpUsage, textUsage);
    ImageHeader(log, zpUsage, textUsage);
    HeaderUsage(zpUsage, textUsage);
    var image, zs, ts := Image(log, zpUsage, textUsage), Encode(ZpMarks(log, |log|)), Encode(TextMarks(log, |log|));
    EncodeNonempty(ZpMarks(log, |log|));
    EncodeNonempty(TextMarks(log, |log|));
    LoadedParts(mem, base, image, zs, ts);
    HeaderInPlace(mem, base, image, Header(zpUsage, textUsage));
  }

  lemma ObjectForm(mem: seq<Byte>, base: Word, log: seq<Record>, zpUsage: Byte, textUsage: Word)
    requires ObjectAt(mem, base, log, zpUsage, textUsage)
    ensures |mem| == 0x1_0000 && Ready(log, textUsage) && WellFormed(log)
    ensures Loaded(mem, base, Image(log, zpUsage, textUsage) + Encode(ZpMarks(log, |log|)) + Encode(TextMarks(log, |log|)))
  {
    hide Loaded, Image, Sound, Sized, RealOpcodes, NoStrayMarks, Extent;
  }

  lemma HeaderInPlace(mem: seq<Byte>, base: nat, image: seq<Byte>, h: seq<Byte>)
    requires Loaded(mem, base, image) && |h| == START_ADDRESS <= |image| && forall i :: 0 <= i < START_ADDRESS ==> image[i] == h[i]
    ensures base + 3 < |mem| && mem[base + 2] == h[2] && mem[base + 3] == h[3]
  {
  }

  lemma ImageHeader(log: seq<Record>, zpUsage: Byte, textUsage: Word)
    requires WellFormed(log)
    ensures |Image(log, zpUsage, textUsage)| >= START_ADDRESS
    ensures forall i :: 0 <= i < START_ADDRESS ==> Image(log, zpUsage, textUsage)[i] == Header(zpUsage, textUsage)[i]
  {
    hide Header;
  }

  lemma HeaderUsage(zpUsage: Byte, textUsage: Word)
    ensures var h := Header(zpUsage, textUsage);
            |h| > 3 && h[2] == Lo(textUsage) && h[3] == Hi(textUsage) && Pair(h[2], h[3]) == textUsage
  {
  }

  lemma LoadedParts(mem: seq<Byte>, base: nat, image: seq<Byte>, zs: seq<Byte>, ts: seq<Byte>)
    requires Loaded(mem, base, image + zs + ts)
    ensures base + |image| + |zs| + |ts| <= |mem|
    ensures Loaded(mem, base, image)
    ensures forall i :: 0 <= i < |image| ==> mem[base + i] == image[i]
    ensures mem[base + |image|..base + |image| + |zs|] == zs
    ensures mem[base + |image| + |zs|..base + |image| + |zs| + |ts|] == ts
  {
    var all := image + zs + ts;
    forall i | 0 <= i < |image|
      ensures mem[base + i] == image[i]
    {
      assert all[i] == image[i];
    }
    forall i | 0 <= i < |zs|
      ensures mem[base + |image|..base + |image| + |zs|][i] == zs[i]
    {
      assert all[|image| + i] == zs[i];
    }
    forall i | 0 <= i < |ts|
      ensures mem[base + |image| + |zs|..base + |image| + |zs| + |ts|][i] == ts[i]
    {
      assert all[|image| + |zs| + i] == ts[i];
    }
  }

  lemma EncodeNonempty(offsets: seq<Word>)
    ensures |Encode(offsets)| > 0
  {
    PackSize(Distances(offsets, 0) + [STOP]);
  }

  /** The marks lie in the image, below the streams. */
  lemma MarksBelow(log: seq<Record>, textUsage: Word, base: Word, lo: nat, hi: nat)
    requires Ready(log, textUsage) && NoStrayMarks(log)
    requires base + textUsage <= lo <= hi <= 0x1_0000
    ensures Clear(base, ZpMarks(log, |log|), lo, hi) && Clear(base, TextMarks(log, |log|), lo, hi)
  {
    hide *;
    ReadyForm(log, textUsage);
    HeaderBelow(textUsage, Extent(log, |log|));
    OwnMarksExactly(log, textUsage);
    MarksGathered(log, |log|);
    GatheredBelow(log, ZpLists(log), |log|);
    GatheredBelow(log, TextLists(log), |log|);
    BelowIsClear(base, ZpMarks(log, |log|), textUsage, lo, hi);
    BelowIsClear(base, TextMarks(log, |log|), textUsage, lo, hi);
  }

  lemma HeaderBelow(textUsage: Word, extent: nat)
    requires textUsage == START_ADDRESS + extent
    ensures 3 < textUsage
  {
  }

  lemma BelowIsClear(base: Word, marks: seq<Word>, end: nat, lo: nat, hi: nat)
    requires forall i :: 0 <= i < |marks| ==> marks[i] < end
    requires base + end <= lo <= hi <= 0x1_0000
    ensures Clear(base, marks, lo, hi)
  {
    forall i | 0 <= i < |marks|
      ensures !(lo <= ToWord(base + marks[i]) < hi)
    {
      NoWrap(base + marks[i]);
    }
  }

  lemma {:induction false} GatheredBelow(log: seq<Record>, lists: seq<seq<Word>>, n: nat)
    requires OwnMarks(log, lists) && n <= |log|
    ensures forall i :: 0 <= i < |Gather(lists, n)| ==> Gather(lists, n)[i] < START_ADDRESS + Extent(log, |log|)
  {
    if n > 0 {
      GatheredBelow(log, lists, n - 1);
      ExtentMonotone(log, n, |log|);
    }
  }

  /** Before the first pass, and between the two. */
  lemma StreamsInPlace(mem: seq<Byte>, base: Word, log: seq<Record>, zpUsage: Byte, textUsage: Word, zp: Byte)
    requires ObjectAt(mem, base, log, zpUsage, textUsage)
    ensures WellFormed(log)
    ensures StreamAt(mem, base + textUsage, base, ZpMarks(log, |log|))
    ensures StreamAt(AddAll(mem, base, ZpMarks(log, |log|), zp),
                     base + textUsage + |Encode(ZpMarks(log, |log|))|, base, TextMarks(log, |log|))
    ensures |Encode(ZpMarks(log, |log|))| + base + textUsage < 0x1_0000
  {
    hide *;
    ObjectParts(mem, base, log, zpUsage, textUsage);
    ObjectReady(mem, base, log, zpUsage, textUsage);
    var zs, ts := Encode(ZpMarks(log, |log|)), Encode(TextMarks(log, |log|));
    var table: nat := base + textUsage;
    var second: nat := table + |zs|;
    MarksBelow(log, textUsage, base, table, table + |zs|);
    MarksBelow(log, textUsage, base, second, second + |ts|);
    KeptAbove(mem, base, log, textUsage, zp, second, second + |ts|);
    var mem' := AddAll(mem, base, ZpMarks(log, |log|), zp);
    assert mem'[second..second + |ts|] == mem[second..second + |ts|];
    StreamPlaced(mem, table, base, ZpMarks(log, |log|));
    StreamPlaced(mem', second, base, TextMarks(log, |log|));
  }

  lemma ObjectReady(mem: seq<Byte>, base: Word, log: seq<Record>, zpUsage: Byte, textUsage: Word)
    requires ObjectAt(mem, base, log, zpUsage, textUsage)
    ensures |mem| == 0x1_0000 && Ready(log, textUsage) && WellFormed(log) && NoStrayMarks(log)
  {
  }

  lemma StreamPlaced(mem: seq<Byte>, table: nat, base: Word, offsets: seq<Word>)
    requires |mem| == 0x1_0000
    requires table + |Encode(offsets)| <= 0x1_0000
    requires mem[table..table + |Encode(offsets)|] == Encode(offsets)
    requires Clear(base, offsets, table, table + |Encode(offsets)|)
    ensures StreamAt(mem, table, base, offsets)
  {
  }

  lemma KeptAbove(mem: seq<Byte>, base: Word, log: seq<Record>, textUsage: Word, zp: Byte, lo: nat, hi: nat)
    requires |mem| == 0x1_0000 && Ready(log, textUsage) && NoStrayMarks(log)
    requires base + textUsage <= lo <= hi <= 0x1_0000
    ensures forall a :: lo <= a < hi ==> AddAll(mem, base, ZpMarks(log, |log|), zp)[a] == mem[a]
  {
    OwnMarksExactly(log, textUsage);
    hide Strays, Sound, Sized, RealOpcodes, TextMark, ZpMark, WellFormed, AddAll, Hits, OwnMarks,
         TextMarks, ZpMarks, Extent, TextLists, ZpLists;
    forall a | lo <= a < hi
      ensures AddAll(mem, base, ZpMarks(log, |log|), zp)[a] == mem[a]
    {
      OutsideMarks(log, base, a);
      AddAllAt(mem, base, ZpMarks(log, |log|), zp, a);
      OneOff(mem[a]);
    }
  }

  /** The memory a relocator has to leave behind, */
  ghost predicate LoadedFor(was: seq<Byte>, mem: seq<Byte>, base: Word, log: seq<Record>, zpUsage: Byte,
                            textUsage: Word, page: Byte, zp: Byte)
  {
    && |was| == |mem| == 0x1_0000 && WellFormed(log)
    && |MovedImage(log, zpUsage, textUsage, page, zp)| == textUsage
    && Loaded(mem, base, MovedImage(log, zpUsage, textUsage, page, zp))
    && forall a :: 0 <= a < 0x1_0000 && (a < base || a >= base + textUsage) ==> mem[a] == was[a]
  }

  /** and the one it does leave behind, whether or not the format can express every operand. */
  ghost predicate RelocatedFor(was: seq<Byte>, mem: seq<Byte>, base: Word, log: seq<Record>, zpUsage: Byte,
                               textUsage: Word, page: Byte, zp: Byte)
  {
    && |was| == 0x1_0000 && Ready(log, textUsage) && NoStrayMarks(log)
    && Loaded(was, base, Image(log, zpUsage, textUsage)) && base + textUsage <= 0x1_0000
    && mem == Relocated(was, base, log, page, zp)
  }

  lemma BothPasses(mem: seq<Byte>, base: Word, log: seq<Record>, zpUsage: Byte, textUsage: Word, page: Byte, zp: Byte)
    requires ObjectAt(mem, base, log, zpUsage, textUsage)
    ensures WellFormed(log)
    ensures RelocatedFor(mem, Relocated(mem, base, log, page, zp), base, log, zpUsage, textUsage, page, zp)
    ensures AllRelocate(log, textUsage, zp) ==>
              LoadedFor(mem, Relocated(mem, base, log, page, zp), base, log, zpUsage, textUsage, page, zp)
  {
    ObjectParts(mem, base, log, zpUsage, textUsage);
    hide Relocated, MovedImage, Image, WellFormed, AllRelocate, Loaded, NoStrayMarks, Sound, Sized, RealOpcodes, Extent;
    if AllRelocate(log, textUsage, zp) {
      RelocationCommutes(mem, base, log, zpUsage, textUsage, page, zp);
    }
  }

  /** The emulator: TPA_BASE and ZP_BASE are the constants it was built with. */
  method EmulatorRelocate(ram: array<Byte>, tpaBase: Word, zpBase: Byte,
                          ghost log: seq<Record>, ghost zpUsage: Byte, ghost textUsage: Word)
    requires ram.Length == 0x1_0000 && tpaBase % 0x100 == 0
    requires ObjectAt(ram[..], tpaBase, log, zpUsage, textUsage)
    modifies ram
    ensures RelocatedFor(old(ram[..]), ram[..], tpaBase, log, zpUsage, textUsage, tpaBase / 0x100, zpBase)
    ensures WellFormed(log) && AllRelocate(log, textUsage, zpBase) ==>
              LoadedFor(old(ram[..]), ram[..], tpaBase, log, zpUsage, textUsage, tpaBase / 0x100, zpBase)
  {
    hide *;
    ObjectBounds(ram[..], tpaBase, log, zpUsage, textUsage);
    BothPasses(ram[..], tpaBase, log, zpUsage, textUsage, tpaBase / 0x100, zpBase);
    StreamsInPlace(ram[..], tpaBase, log, zpUsage, textUsage, zpBase);
    RelocatedIs(ram[..], tpaBase, log, tpaBase / 0x100, zpBase);
    NoWrap(textUsage + tpaBase);
    var relotable := TableAddress(ram, tpaBase);
    relotable := DoRelocation(ram, relotable, zpBase, tpaBase, ZpMarks(log, |log|));
    NoWrap(tpaBase + textUsage + |Encode(ZpMarks(log, |log|))|);
    var _ := DoRelocation(ram, relotable, tpaBase / 0x100, tpaBase, TextMarks(log, |log|));
  }

  lemma ObjectBounds(mem: seq<Byte>, base: Word, log: seq<Record>, zpUsage: Byte, textUsage: Word)
    requires ObjectAt(mem, base, log, zpUsage, textUsage)
    ensures |mem| == 0x1_0000 && WellFormed(log) && base + textUsage < 0x1_0000 && textUsage >= 7
    ensures Pair(mem[base + 2], mem[base + 3]) == textUsage
  {
    hide WellFormed, NoStrayMarks, Sound, Sized, RealOpcodes, Loaded;
    ObjectParts(mem, base, log, zpUsage, textUsage);
  }

  /** `(ram[TPA_BASE + 2] | (ram[TPA_BASE + 3] << 8)) + TPA_BASE` */
  method TableAddress(ram: array<Byte>, tpaBase: Word) returns (relotable: Word)
    requires ram.Length == 0x1_0000 && tpaBase + 7 <= 0x1_0000
    ensures relotable == ToWord(Pair(ram[tpaBase + 2], ram[tpaBase + 3]) + tpaBase)
  {
    relotable := ToWord(ram[tpaBase + 2] + ram[tpaBase + 3] * 0x100 + tpaBase);
  }

  /** bios_RELOCATE: the page is in A, the zero page address in X. */
  method BiosRelocate(bios: BiosRelocator, a: Byte, x: Byte,
                      ghost log: seq<Record>, ghost zpUsage: Byte, ghost textUsage: Word)
    requires bios.mem.Length == 0x1_0000
    requires ObjectAt(bios.mem[..], Pair(0, a), log, zpUsage, textUsage)
    modifies bios, bios.mem
    ensures RelocatedFor(old(bios.mem[..]), bios.mem[..], Pair(0, a), log, zpUsage, textUsage, a, x)
    ensures WellFormed(log) && AllRelocate(log, textUsage, x) ==>
              LoadedFor(old(bios.mem[..]), bios.mem[..], Pair(0, a), log, zpUsage, textUsage, a, x)
  {
    hide ObjectAt, LoadedFor, RelocatedFor, AllRelocate, StreamAt, AddAll, Encode, ZpMarks, TextMarks, Relocated, WellFormed;
    ghost var base := Pair(0, a);
    ObjectBounds(bios.mem[..], base, log, zpUsage, textUsage);
    BothPasses(bios.mem[..], base, log, zpUsage, textUsage, a, x);
    StreamsInPlace(bios.mem[..], base, log, zpUsage, textUsage, x);
    RelocatedIs(bios.mem[..], base, log, a, x);
    bios.ptrHi := a;
    bios.ptrLo := 0;
    assert bios.Ptr() == base;
    var (lo, carry) := Adc(bios.mem[bios.Ptr() + 2], bios.ptrLo, false);
    bios.reloptrLo := lo;
    var (hi, _) := Adc(bios.mem[bios.Ptr() + 3], bios.ptrHi, carry);
    bios.reloptrHi := hi;
    assert bios.Reloptr() == base + textUsage;
    bios.RelocateLoop(x, ZpMarks(log, |log|));
    bios.ptrLo := 0;
    bios.ptrHi := a;
    NoWrap(base + textUsage + |Encode(ZpMarks(log, |log|))|);
    bios.RelocateLoop(a, TextMarks(log, |log|));
  }
}
