/**
 From a parsed log to a program in memory: placed, written, loaded and relocated
 (apps/asm.c:2084-2106, tools/cpmemu/biosbdos.c:172-180, src/lib/relocate.S:10-40).
 */
module Toolchain {
  import opened Bytes
  import opened Opcodes
  import opened Records
  import opened RecordLog
  import opened NibbleStream
  import opened Placement
  import opened Emission
  import opened RelocationReaders
  import opened Relocatable
  import opened Loading

  /** What relaxation leaves of a log. */
  ghost predicate Assembled(records: seq<Record>, log: seq<Record>, textUsage: Word)
  {
    && WellFormed(records) && SameShape(records, log) && OpcodesShrunk(records, log)
    && WellFormed(log) && Labelled(log) && Sound(log) && Sized(log) && RealOpcodes(log) && textUsage == Pc(log, |log|)
  }

  /** An object file that fits into memory is one the relocators can work on. */
  lemma FittingIsReady(records: seq<Record>, log: seq<Record>, zpUsage: Byte, textUsage: Word)
    requires Assembled(records, log, textUsage) && |Object(log, zpUsage, textUsage)| <= 0x1_0000
    ensures Ready(log, textUsage)
  {
    RelaxedIsMeasured(log, textUsage);
    CodeSize(log, |log|, textUsage);
    EncodeNonempty(ZpMarks(log, |log|));
    ObjectIs(log, zpUsage, textUsage);
    NoWrap(START_ADDRESS + Extent(log, |log|));
    hide Object, Code, Sound, Sized, RealOpcodes, Labelled, WellFormed, Measured, Extent;
  }

  lemma ObjectIs(log: seq<Record>, zpUsage: Byte, textUsage: Word)
    requires WellFormed(log)
    ensures |Object(log, zpUsage, textUsage)| >= START_ADDRESS + |Code(log, |log|, textUsage)| + |Encode(ZpMarks(log, |log|))|
  {
    hide Code, Header;
  }

  lemma StraysKept(records: seq<Record>, log: seq<Record>)
    requires WellFormed(records) && SameShape(records, log) && OpcodesShrunk(records, log) && WellFormed(log)
    ensures NoStrayMarks(records) ==> NoStrayMarks(log)
  {
    hide Shrink, GetInsnProps, IsConstant;
    forall k | 0 <= k < |log|
      ensures Strays(log, k) ==> Strays(records, k)
    {
      if log[k].Expr? {
        assert SameRecord(records[k], log[k]) && records[k].Expr?;
        assert SameRecord(records[records[k].variable], log[records[k].variable]);
        if Shrinks(records, records[k]) {
          ShrinkSettles(records[k].opcode);
          ByteIsConstant();
        }
      }
    }
  }

  lemma ByteIsConstant()
    ensures IsConstant(BYTE_CONSTANT)
  {
  }

  /** The back end of the assembler, from the end of parsing to the object file. */
  method Assemble(records: seq<Record>, branchSize: Byte, zpUsage: Byte, limit: nat)
      returns (verdict: Verdict, bytes: seq<Byte>, log: seq<Record>, textUsage: Word)
    requires Orderly(records) && (branchSize == SHORT || branchSize == LONG)
    ensures verdict.Settled? ==> Assembled(records, log, textUsage) && bytes == Object(log, zpUsage, textUsage)
  {
    OrderlyParts(records);
    hide *;
    var placer := new Placer(records, branchSize);
    verdict := placer.Relax(limit);
    bytes, log, textUsage := [], placer.log, placer.textUsage;
    if verdict.Settled? {
      AssembledIs(records, log, textUsage);
      var writer := new ObjectWriter(log, zpUsage, textUsage);
      writer.WriteObject();
      bytes := writer.file.out;
    }
  }

  lemma OrderlyParts(records: seq<Record>)
    requires Orderly(records)
    ensures WellFormed(records) && Fresh(records) && RealOpcodes(records)
  {
  }

  lemma AssembledIs(records: seq<Record>, log: seq<Record>, textUsage: Word)
    requires WellFormed(records) && SameShape(records, log) && OpcodesShrunk(records, log)
    requires WellFormed(log) && Labelled(log) && Sound(log) && Sized(log) && RealOpcodes(log) && textUsage == Pc(log, |log|)
    ensures Assembled(records, log, textUsage)
  {
  }

  /** `read(fd, &ram[TPA_BASE], …)`, for a file that there is room for. */
  method ReadIn(mem: array<Byte>, base: Word, bytes: seq<Byte>)
    requires base + |bytes| <= mem.Length
    modifies mem
    ensures Loaded(mem[..], base, bytes)
    ensures mem[..base] == old(mem[..base]) && mem[base + |bytes|..] == old(mem[base + |bytes|..])
  {
    for i := 0 to |bytes|
      invariant forall j :: 0 <= j < i ==> mem[base + j] == bytes[j]
      invariant mem[..base] == old(mem[..base]) && mem[base + |bytes|..] == old(mem[base + |bytes|..])
    {
      mem[base + i] := bytes[i];
    }
  }

  lemma ObjectIsThere(records: seq<Record>, mem: seq<Byte>, base: Word, log: seq<Record>, zpUsage: Byte, textUsage: Word)
    requires Assembled(records, log, textUsage) && NoStrayMarks(records)
    requires |mem| == 0x1_0000 && Loaded(mem, base, Object(log, zpUsage, textUsage))
    ensures ObjectAt(mem, base, log, zpUsage, textUsage)
  {
    StraysKept(records, log);
    FittingIsReady(records, log, zpUsage, textUsage);
    hide Object, WellFormed, Labelled, Sound, Sized, RealOpcodes, SameShape, OpcodesShrunk, Ready, NoStrayMarks, Extent;
  }

  /**
   A program is assembled and loaded by the emulator: from the log the parser left to the bytes the CPU
   runs. Where the format can express its operands those are the bytes for that address.
   */
  method AssembleForEmulator(records: seq<Record>, branchSize: Byte, zpUsage: Byte, limit: nat,
                             ram: array<Byte>, tpaBase: Word, zpBase: Byte)
      returns (verdict: Verdict, fits: bool, ghost log: seq<Record>, ghost textUsage: Word, ghost loaded: seq<Byte>)
    requires Orderly(records) && NoStrayMarks(records) && (branchSize == SHORT || branchSize == LONG)
    requires ram.Length == 0x1_0000 && tpaBase % 0x100 == 0
    modifies ram
    ensures !verdict.Settled? || !fits ==> ram[..] == old(ram[..])
    ensures verdict.Settled? ==>
              && Assembled(records, log, textUsage)
              && (fits <==> tpaBase + |Object(log, zpUsage, textUsage)| <= 0x1_0000)
    ensures verdict.Settled? && fits ==>
              && loaded == old(ram[..tpaBase]) + Object(log, zpUsage, textUsage)
                           + old(ram[tpaBase + |Object(log, zpUsage, textUsage)|..])
              && RelocatedFor(loaded, ram[..], tpaBase, log, zpUsage, textUsage, tpaBase / 0x100, zpBase)
              && (AllRelocate(log, textUsage, zpBase) ==>
                    LoadedFor(loaded, ram[..], tpaBase, log, zpUsage, textUsage, tpaBase / 0x100, zpBase))
  {
    var bytes, l, t;
    verdict, bytes, l, t := Assemble(records, branchSize, zpUsage, limit);
    log, textUsage, loaded := l, t, ram[..];
    fits := tpaBase + |bytes| <= 0x1_0000;
    if !verdict.Settled? || !fits {
      return;
    }
    hide Object, Orderly, RelocatedFor, LoadedFor, AllRelocate, NoStrayMarks, WellFormed, Labelled, Sound, Sized,
         RealOpcodes, SameShape, OpcodesShrunk, Extent, Pc, ObjectAt;
    ReadIn(ram, tpaBase, bytes);
    LoadedIs(ram[..], tpaBase, bytes);
    loaded := ram[..];
    ObjectIsThere(records, loaded, tpaBase, log, zpUsage, textUsage);
    EmulatorRelocate(ram, tpaBase, zpBase, log, zpUsage, textUsage);
  }

  lemma LoadedIs(mem: seq<Byte>, base: nat, bytes: seq<Byte>)
    requires Loaded(mem, base, bytes)
    ensures base + |bytes| <= |mem| && mem == mem[..base] + bytes + mem[base + |bytes|..]
  {
  }

  /** The same through the BIOS. */
  method AssembleForBios(records: seq<Record>, branchSize: Byte, zpUsage: Byte, limit: nat,
                         bios: BiosRelocator, a: Byte, x: Byte)
      returns (verdict: Verdict, fits: bool, ghost log: seq<Record>, ghost textUsage: Word, ghost loaded: seq<Byte>)
    requires Orderly(records) && NoStrayMarks(records) && (branchSize == SHORT || branchSize == LONG)
    requires bios.mem.Length == 0x1_0000
    modifies bios, bios.mem
    ensures !verdict.Settled? || !fits ==> bios.mem[..] == old(bios.mem[..])
    ensures verdict.Settled? ==>
              && Assembled(records, log, textUsage)
              && (fits <==> Pair(0, a) + |Object(log, zpUsage, textUsage)| <= 0x1_0000)
    ensures verdict.Settled? && fits ==>
              && loaded == old(bios.mem[..Pair(0, a)]) + Object(log, zpUsage, textUsage)
                           + old(bios.mem[Pair(0, a) + |Object(log, zpUsage, textUsage)|..])
              && RelocatedFor(loaded, bios.mem[..], Pair(0, a), log, zpUsage, textUsage, a, x)
              && (AllRelocate(log, textUsage, x) ==>
                    LoadedFor(loaded, bios.mem[..], Pair(0, a), log, zpUsage, textUsage, a, x))
  {
    var bytes, l, t;
    verdict, bytes, l, t := Assemble(records, branchSize, zpUsage, limit);
    log, textUsage, loaded := l, t, bios.mem[..];
    fits := Pair(0, a) + |bytes| <= 0x1_0000;
    if !verdict.Settled? || !fits {
      return;
    }
    hide Object, Orderly, RelocatedFor, LoadedFor, AllRelocate, NoStrayMarks, WellFormed, Labelled, Sound, Sized,
         RealOpcodes, SameShape, OpcodesShrunk, Extent, Pc, ObjectAt;
    ReadIn(bios.mem, Pair(0, a), bytes);
    LoadedIs(bios.mem[..], Pair(0, a), bytes);
    loaded := bios.mem[..];
    ObjectIsThere(records, loaded, Pair(0, a), log, zpUsage, textUsage);
    BiosRelocate(bios, a, x, log, zpUsage, textUsage);
  }
}
