/** What stands in memory once a program is loaded, record by record (apps/asm.c:1724-1813). */
module Operands {
  import opened Bytes
  import opened Opcodes
  import opened Records
  import opened Emission
  import opened Relocatable
  import opened Loading
  import opened Branches

  /**
   Where the operand of an instruction or a word points: into the text, behind it for BSS symbols, or
   into the zero page, each at the place it was loaded to.
   */
  lemma OperandInMemory(was: seq<Byte>, mem: seq<Byte>, page: Byte, log: seq<Record>, zpUsage: Byte,
                        textUsage: Word, zp: Byte, k: nat)
    requires LoadedFor(was, mem, Pair(0, page), log, zpUsage, textUsage, page, zp)
    requires Ready(log, textUsage) && AllRelocate(log, textUsage, zp)
    requires k < |log| && log[k].Expr? && !IsRelative(log[k].opcode)
    ensures log[k].variable < |log| && log[log[k].variable].Symbol?
    ensures 0x100 * page + Pc(log, k) + log[k].length <= |mem| == 0x1_0000
    ensures var r, symbol, at := log[k], log[log[k].variable], 0x100 * page + Pc(log, k);
            var x := symbol.address + r.offset;
            var w := match symbol.kind
                     case Text => (0x100 * page + x) % 0x1_0000
                     case Bss => (0x100 * page + textUsage + x) % 0x1_0000
                     case Zp => (zp + x) % 0x1_0000
                     case _ => x % 0x1_0000;
            var first, second := (if r.post == Msb then w / 0x100 else w % 0x100), (if r.post == None then w / 0x100 else 0);
            if r.opcode == 0x00 then r.length == 1 && mem[at] == first
            else if r.opcode == 0xff then r.length == 2 && mem[at] == first && mem[at + 1] == second
            else
              && mem[at] == r.opcode && (r.length == 2 || r.length == 3) && mem[at + 1] == first
              && (r.length == 3 ==> mem[at + 2] == second)
  {
    hide *;
    var r, base: int := log[k], 0x100 * page;
    LoadedForParts(was, mem, Pair(0, page), log, zpUsage, textUsage, page, zp);
    ExprSymbol(log, k);
    PageAddress(page);
    SizeOf(r);
    ReadySettled(log, textUsage, k);
    OperandLength(r);
    MovedBytes(log, k, textUsage, page, zp);
    RecordInMemory(was, mem, Pair(0, page), log, zpUsage, textUsage, page, zp, k, 0);
    var w := ToWord(Value(log, r, textUsage) + MovedBy(log[r.variable].kind, page, zp));
    RunAddress(log, r, textUsage, page, zp);
    OperandBytesAre(r, w);
    if r.length >= 2 {
      RecordInMemory(was, mem, Pair(0, page), log, zpUsage, textUsage, page, zp, k, 1);
    }
    if r.length == 3 {
      RecordInMemory(was, mem, Pair(0, page), log, zpUsage, textUsage, page, zp, k, 2);
    }
  }

  lemma OperandLength(r: Record)
    requires Relocatable.Settled(r) && !IsRelative(r.opcode)
    ensures BYTE_CONSTANT == 0x00 && WORD_CONSTANT == 0xff
    ensures if r.opcode == 0x00 then r.length == 1 else r.length == 2 || (r.opcode != 0xff && r.length == 3)
  {
    hide IsRelative;
  }

  lemma RunAddress(log: seq<Record>, r: Record, textUsage: Word, page: Byte, zp: Byte)
    requires r.Expr? && r.variable < |log| && log[r.variable].Symbol?
    ensures var symbol := log[r.variable];
            var x := symbol.address + r.offset;
            ToWord(Value(log, r, textUsage) + MovedBy(symbol.kind, page, zp))
            == match symbol.kind
               case Text => (0x100 * page + x) % 0x1_0000
               case Bss => (0x100 * page + textUsage + x) % 0x1_0000
               case Zp => (zp + x) % 0x1_0000
               case _ => x % 0x1_0000
  {
    var symbol := log[r.variable];
    var bss := if symbol.kind == Kind.Bss then textUsage else 0;
    ToWordAdd(r.offset + symbol.address + bss, MovedBy(symbol.kind, page, zp));
  }

  lemma OperandBytesAre(r: Record, w: Word)
    requires Relocatable.Settled(r) && !IsRelative(r.opcode)
    ensures var first, second := (if r.post == Msb then w / 0x100 else w % 0x100), (if r.post == None then w / 0x100 else 0);
            OperandBytes(r, w)
            == if r.opcode == 0x00 then [first]
               else if r.opcode == 0xff then [first, second]
               else if r.length == 3 then [r.opcode, first, second]
               else [r.opcode, first]
  {
    OperandHalves(r, w);
    HalvesAre(r, Lo(w), Hi(w));
    hide OperandBytes, FromHalves, IsRelative;
  }

  /** Uninitialised data lies behind the image. */
  lemma BssIsOutside(was: seq<Byte>, mem: seq<Byte>, page: Byte, log: seq<Record>, zpUsage: Byte,
                     textUsage: Word, zp: Byte, k: nat)
    requires LoadedFor(was, mem, Pair(0, page), log, zpUsage, textUsage, page, zp)
    requires Ready(log, textUsage) && AllRelocate(log, textUsage, zp)
    requires k < |log| && log[k].Expr? && !IsRelative(log[k].opcode) && log[k].length == 3 && log[k].post == None
    requires log[k].variable < |log| && log[log[k].variable].Symbol? && log[log[k].variable].kind == Kind.Bss
    requires 0x100 * page + textUsage + log[log[k].variable].address + log[k].offset < 0x1_0000
    ensures 0x100 * page + Pc(log, k) + 3 <= |mem| == 0x1_0000
    ensures var at := 0x100 * page + Pc(log, k);
            && Pair(mem[at + 1], mem[at + 2]) as int
               == 0x100 * page + textUsage + log[log[k].variable].address + log[k].offset
            && Pair(mem[at + 1], mem[at + 2]) as int >= 0x100 * page + |MovedImage(log, zpUsage, textUsage, page, zp)|
  {
    OperandInMemory(was, mem, page, log, zpUsage, textUsage, zp, k);
    LoadedForParts(was, mem, Pair(0, page), log, zpUsage, textUsage, page, zp);
    hide LoadedFor, Ready, AllRelocate, WellFormed, MovedImage, IsRelative, Pc;
  }

  /** The header, whose text usage has become the address behind the image. */
  lemma HeaderInMemory(was: seq<Byte>, mem: seq<Byte>, page: Byte, log: seq<Record>, zpUsage: Byte, textUsage: Word, zp: Byte)
    requires LoadedFor(was, mem, Pair(0, page), log, zpUsage, textUsage, page, zp)
    ensures 0x100 * page + 7 <= |mem| == 0x1_0000
    ensures var at := 0x100 * page;
            && mem[at] == zpUsage && mem[at + 4] == 0x4c && mem[at + 5] == mem[at + 6] == 0
            && Pair(mem[at + 2], mem[at + 3]) as int == (0x100 * page + textUsage) % 0x1_0000
            && (textUsage <= 0xff00 ==> 0x100 * (mem[at + 1] as int - 1) < textUsage as int <= 0x100 * mem[at + 1] as int)
  {
    HeaderBytes(zpUsage, textUsage);
    HeaderUsage(zpUsage, textUsage);
    PageAddress(page);
    HeaderMoved(mem, Pair(0, page), log, zpUsage, textUsage, page, zp);
    EndMoved(textUsage, page);
    hide LoadedFor, Loaded, MovedImage, Header;
  }

  lemma HeaderMoved(mem: seq<Byte>, base: Word, log: seq<Record>, zpUsage: Byte, textUsage: Word, page: Byte, zp: Byte)
    requires WellFormed(log) && Loaded(mem, base, MovedImage(log, zpUsage, textUsage, page, zp))
    ensures base + 7 <= |mem| && START_ADDRESS == 7
    ensures forall i :: 0 <= i < 7 ==>
              mem[base + i] == if i == 3 then ToByte(Hi(textUsage) + page) else Header(zpUsage, textUsage)[i]
  {
    hide Header, Code, WellFormed, Moved;
    var image := MovedImage(log, zpUsage, textUsage, page, zp);
    assert |image| >= 7;
    forall i | 0 <= i < 7
      ensures mem[base + i] == if i == 3 then ToByte(Hi(textUsage) + page) else Header(zpUsage, textUsage)[i]
    {
      assert mem[base + i] == image[i];
    }
  }

  lemma EndMoved(textUsage: Word, page: Byte)
    ensures Pair(Lo(textUsage), ToByte(Hi(textUsage) + page)) as int == (0x100 * page + textUsage) % 0x1_0000
  {
  }

  /** Bytes and fillings stand as they were written, whatever the page. */
  lemma DataInMemory(was: seq<Byte>, mem: seq<Byte>, page: Byte, log: seq<Record>, zpUsage: Byte,
                     textUsage: Word, zp: Byte, k: nat)
    requires LoadedFor(was, mem, Pair(0, page), log, zpUsage, textUsage, page, zp)
    requires Ready(log, textUsage) && AllRelocate(log, textUsage, zp)
    requires k < |log| && (log[k].Bytes? || log[k].Fill?)
    ensures 0x100 * page + Pc(log, k) + Size(log[k]) <= |mem| == 0x1_0000
    ensures var at := 0x100 * page + Pc(log, k);
            forall d :: 0 <= d < Size(log[k]) ==> mem[at + d] == if log[k].Bytes? then log[k].data[d] else 0
  {
    hide *;
    PageAddress(page);
    LoadedForParts(was, mem, Pair(0, page), log, zpUsage, textUsage, page, zp);
    ReadyPlaces(log, textUsage, k);
    DataSize(log[k]);
    forall d | 0 <= d < Size(log[k])
      ensures mem[0x100 * page + Pc(log, k) + d] == if log[k].Bytes? then log[k].data[d] else 0
    {
      RecordInMemory(was, mem, Pair(0, page), log, zpUsage, textUsage, page, zp, k, d);
      DataBytes(log, k, textUsage, page, zp, d);
    }
  }

  lemma DataSize(r: Record)
    ensures r.Bytes? ==> Size(r) == |r.data|
  {
  }

  lemma DataBytes(log: seq<Record>, k: nat, textUsage: Word, page: Byte, zp: Byte, d: nat)
    requires WellFormed(log) && k < |log| && (log[k].Bytes? || log[k].Fill?) && d < Size(log[k])
    ensures WellFormed(Moved(log, page, zp)) && d < |EmitRecord(Moved(log, page, zp), k, textUsage)|
    ensures EmitRecord(Moved(log, page, zp), k, textUsage)[d] == if log[k].Bytes? then log[k].data[d] else 0
  {
    hide WellFormed;
  }
}
