/**
 What the assembler writes: header, code and the two relocation streams
 (apps/asm.c:1724-1979, 2103-2106).
 */
module Emission {
  import opened Bytes
  import opened Opcodes
  import opened Records
  import opened NibbleStream
  import opened RelocationWriters
  import opened Placement

  // ---------- code ----------

  /** An operand after `<` or `>`. */
  function PostProcess(value: Word, post: Postprocessing): Word
  {
    match post
    case None => value
    case Lsb => value % 0x100
    case Msb => value / 0x100
  }

  /** The 16-bit value of an operand: BSS follows the text. */
  function Value(log: seq<Record>, r: Record, textUsage: Word): Word
    requires r.Expr? && r.variable < |log| && log[r.variable].Symbol?
  {
    var symbol := log[r.variable];
    ToWord(r.offset + symbol.address + if symbol.kind == Kind.Bss then textUsage else 0)
  }

  function EmitOperand(r: Record, value: Word): seq<Byte>
    requires r.Expr?
  {
    (if IsConstant(r.opcode) then [] else [r.opcode])
    + [Lo(value)]
    + if r.length == 3 || r.opcode == WORD_CONSTANT then [Hi(value)] else []
  }

  /** A branch at an address whose low byte is pc. */
  function EmitBranch(r: Record, target: Word, pc: Byte): seq<Byte>
    requires r.Expr?
  {
    if r.length == 2 then [r.opcode, ToByte(target - pc - 2)]
    else [Invert(r.opcode), 3, JMP, Lo(target), Hi(target)]
  }

  function EmitRecord(log: seq<Record>, k: nat, textUsage: Word): seq<Byte>
    requires WellFormed(log) && k < |log|
  {
    match log[k]
    case Bytes(data) => data
    case Fill(count) => seq(count, _ => 0)
    case Expr(opcode, _, _, _, post) =>
      if IsRelative(opcode) then EmitBranch(log[k], Target(log, log[k]), Lo(Pc(log, k)))
      else EmitOperand(log[k], PostProcess(Value(log, log[k], textUsage), post))
    case Symbol(_, _, _, _, _) => []
    case LabelDef(_) => []
  }

  /** The code of the first k records. */
  function Code(log: seq<Record>, k: nat, textUsage: Word): seq<Byte>
    requires WellFormed(log) && k <= |log|
  {
    if k == 0 then [] else Code(log, k - 1, textUsage) + EmitRecord(log, k - 1, textUsage)
  }

  /** Every record emits as many bytes as its length says. */
  ghost predicate Measured(log: seq<Record>, textUsage: Word)
    requires WellFormed(log)
  {
    forall k :: 0 <= k < |log| ==> |EmitRecord(log, k, textUsage)| == Size(log[k])
  }

  lemma ConstantsAreNotRelative()
    ensures !IsRelative(BYTE_CONSTANT) && !IsRelative(WORD_CONSTANT)
  {
  }

  lemma RelaxedIsMeasured(log: seq<Record>, textUsage: Word)
    requires WellFormed(log) && Sound(log) && Sized(log) && RealOpcodes(log)
    ensures Measured(log, textUsage)
  {
    hide Pc, Value, Target, Displacement, PostProcess, GetB;
    forall k | 0 <= k < |log|
      ensures |EmitRecord(log, k, textUsage)| == Size(log[k])
    {
      ConstantsAreNotRelative();
      if log[k].Expr? && IsBranch(log[k].opcode) {
        InvertInverts(log[k].opcode, Flags(false, false, false, false));
      }
      if log[k].Expr? && !Branches(log[k]) {
        assert log[k].length == FixedLength(log, log[k]);
        assert GetInsnLength(log[k].opcode) <= 3;
      }
    }
  }

  lemma {:induction false} CodeSize(log: seq<Record>, k: nat, textUsage: Word)
    requires WellFormed(log) && Measured(log, textUsage) && k <= |log|
    ensures |Code(log, k, textUsage)| == Extent(log, k)
  {
    if k > 0 {
      CodeSize(log, k - 1, textUsage);
    }
  }

  // ---------- relocation marks ----------

  /** The byte of record k that the text relocations name, if any: the high byte of an address. */
  function TextMark(log: seq<Record>, k: nat): seq<Word>
    requires WellFormed(log) && k < |log|
  {
    var r := log[k];
    if r.Expr? && r.post != Lsb && log[r.variable].kind in {Kind.Text, Kind.Bss}
       && (!IsRelative(r.opcode) || r.length != 2)
    then
      [ToWord(Pc(log, k) + r.length - 1 - if r.post == Msb && !GetInsnProps(r.opcode).imm then 1 else 0)]
    else []
  }

  /** The byte of record k that the zero page relocations name, if any. */
  function ZpMark(log: seq<Record>, k: nat): seq<Word>
    requires WellFormed(log) && k < |log|
  {
    var r := log[k];
    if r.Expr? && log[r.variable].kind == Kind.Zp && r.post != Msb
    then [ToWord(Pc(log, k) + if IsConstant(r.opcode) then 0 else 1)]
    else []
  }

  /** The text relocations of the header and the first k records. */
  function TextMarks(log: seq<Record>, k: nat): (marks: seq<Word>)
    requires WellFormed(log) && k <= |log|
    ensures marks != []
  {
    if k == 0 then [3] else TextMarks(log, k - 1) + TextMark(log, k - 1)
  }

  function ZpMarks(log: seq<Record>, k: nat): seq<Word>
    requires WellFormed(log) && k <= |log|
  {
    if k == 0 then [] else ZpMarks(log, k - 1) + ZpMark(log, k - 1)
  }

  function LastMark(marks: seq<Word>): Word
  {
    if marks == [] then 0 else marks[|marks| - 1]
  }

  /** What the writers put out for the next mark, or for none. */
  lemma NextMark(marks: seq<Word>, mark: seq<Word>)
    requires |mark| <= 1
    ensures mark == [] ==> marks + mark == marks
    ensures mark != [] ==>
              && Distances(marks + mark, 0) == Distances(marks, 0) + Distance(ToWord(mark[0] - LastMark(marks)))
              && LastMark(marks + mark) == mark[0]
  {
    if mark == [] {
      assert marks + mark == marks;
    } else {
      assert mark == [mark[0]];
      DistancesSnoc(marks, 0, mark[0]);
    }
  }

  // ---------- the object file ----------

  function Header(zpUsage: Byte, textUsage: Word): (h: seq<Byte>)
    ensures |h| == START_ADDRESS
  {
    [zpUsage, ToByte(ToWord(textUsage + 0xff) / 0x100), Lo(textUsage), Hi(textUsage), JMP, 0, 0]
  }

  /**
   The zero page and text usage, the latter also in pages, and a jump that is to go to the BDOS.
   From 0xff01 bytes of text on, the number of pages has wrapped to zero.
   */
  lemma HeaderBytes(zpUsage: Byte, textUsage: Word)
    ensures var h := Header(zpUsage, textUsage);
            && h[0] == zpUsage && 0x100 * h[3] as int + h[2] as int == textUsage as int && h[4] == 0x4c && h[5] == h[6] == 0
            && if textUsage <= 0xff00 then 0x100 * (h[1] as int - 1) < textUsage as int <= 0x100 * h[1] as int else h[1] == 0
  {
    assert ToWord(textUsage + 0xff) as int == if textUsage <= 0xff00 then textUsage + 0xff else textUsage as int - 0xff01;
  }

  /** Everything in the file that ends up in the program's memory and is not a relocation stream. */
  function Image(log: seq<Record>, zpUsage: Byte, textUsage: Word): seq<Byte>
    requires WellFormed(log)
  {
    Header(zpUsage, textUsage) + Code(log, |log|, textUsage)
  }

  function Object(log: seq<Record>, zpUsage: Byte, textUsage: Word): seq<Byte>
    requires WellFormed(log)
  {
    Image(log, zpUsage, textUsage) + Encode(ZpMarks(log, |log|)) + Encode(TextMarks(log, |log|))
  }

  // ---------- the writers ----------

  class ObjectWriter {
    const log: seq<Record>
    const zpUsage: Byte
    const textUsage: Word
    const file: OutputFile

    constructor (records: seq<Record>, zp: Byte, text: Word)
      ensures log == records && zpUsage == zp && textUsage == text
      ensures fresh(file) && file.Valid() && file.out == []
    {
      log, zpUsage, textUsage := records, zp, text;
      file := new OutputFile();
    }

    method WriteHeader()
      modifies file`out
      ensures file.out == old(file.out) + Header(zpUsage, textUsage)
    {
      file.WriteByte(zpUsage);
      file.WriteByte(ToByte(ToWord(textUsage + 255) / 0x100));
      file.WriteByte(textUsage % 0x100);
      file.WriteByte(textUsage / 0x100);
      file.WriteByte(0x4c);
      file.WriteByte(0);
      file.WriteByte(0);
    }

    /** writeCode: its program counter is a single byte. */
    method WriteCode()
      requires WellFormed(log)
      modifies file`out
      ensures file.out == old(file.out) + Code(log, |log|, textUsage)
    {
      hide Pc, EmitRecord, WellFormed, Size;
      ghost var start := file.out;
      var pc: Byte := 7;
      var k := 0;
      assert Pc(log, 0) == 7 by { StartPc(log); }
      while k < |log|
        invariant 0 <= k <= |log|
        invariant file.out == start + Code(log, k, textUsage)
        invariant pc == Lo(Pc(log, k))
      {
        ghost var before := file.out;
        WriteRecord(k, pc);
        assert start + (Code(log, k, textUsage) + EmitRecord(log, k, textUsage))
            == before + EmitRecord(log, k, textUsage);
        LowPcNext(log, k);
        pc := ToByte(pc + Size(log[k]));
        k := k + 1;
      }
    }

    method WriteRecord(k: nat, pc: Byte)
      requires WellFormed(log) && k < |log| && pc == Lo(Pc(log, k))
      modifies file`out
      ensures file.out == old(file.out) + EmitRecord(log, k, textUsage)
    {
      hide Pc, GetInsnProps;
      var r := log[k];
      match r {
        case Bytes(data) =>
          for i := 0 to |data|
            invariant file.out == old(file.out) + data[..i]
          {
            file.WriteByte(data[i]);
          }
          assert data[..|data|] == data;
        case Fill(count) =>
          var len: int := count;
          while len != 0
            invariant 0 <= len <= count
            invariant file.out == old(file.out) + seq(count - len, _ => 0)
            decreases len
          {
            file.WriteByte(0);
            len := len - 1;
          }
        case Expr(opcode, v, offset, length, post) =>
          if IsRelative(opcode) {
            WriteBranch(r, pc);
          } else {
            WriteOperand(r);
          }
        case Symbol(_, _, _, _, _) =>
        case LabelDef(_) =>
      }
    }

    method WriteBranch(r: Record, pc: Byte)
      requires r.Expr? && r.variable < |log| && log[r.variable].Symbol?
      modifies file`out
      ensures file.out == old(file.out) + EmitBranch(r, Target(log, r), pc)
    {
      var address := ToWord(log[r.variable].address + r.offset);
      if r.length == 2 {
        file.WriteByte(r.opcode);
        file.WriteByte(ToByte(Signed16(ToWord(address - pc - 2))));
        LowByte(address, pc);
      } else {
        file.WriteByte(Invert(r.opcode));
        file.WriteByte(3);
        file.WriteByte(0x4c);
        file.WriteByte(address % 0x100);
        file.WriteByte(address / 0x100);
      }
    }

    method WriteOperand(r: Record)
      requires WellFormed(log) && r.Expr? && r.variable < |log| && log[r.variable].Symbol?
      modifies file`out
      ensures file.out == old(file.out) + EmitOperand(r, PostProcess(Value(log, r, textUsage), r.post))
    {
      if r.opcode != 0x00 && r.opcode != 0xff {
        file.WriteByte(r.opcode);
      }
      var address := ToWord(r.offset + log[r.variable].address);
      if log[r.variable].kind == Kind.Bss {
        ToWordAdd(r.offset + log[r.variable].address, textUsage);
        address := ToWord(address + textUsage);
      }
      assert address == Value(log, r, textUsage);
      if r.post == Msb {
        address := address / 0x100;
      } else if r.post == Lsb {
        address := address % 0x100;
      }
      file.WriteByte(address % 0x100);
      if r.length == 3 || r.opcode == 0xff {
        file.WriteByte(address / 0x100);
      }
    }

    /** Both relocation writers skip over what they have no mark for. */
    method TextRelocation(k: nat, pc: Word, lastRelocation: Word) returns (last: Word)
      requires WellFormed(log) && file.Valid() && k < |log| && pc == Pc(log, k)
      requires file.nibbles == Distances(TextMarks(log, k), 0) && lastRelocation == LastMark(TextMarks(log, k))
      modifies file
      ensures file.Valid() && file.start == old(file.start)
      ensures file.nibbles == Distances(TextMarks(log, k + 1), 0) && last == LastMark(TextMarks(log, k + 1))
    {
      hide Pc, GetInsnProps, Distances, Distance, Pack, LastMark;
      var r := log[k];
      NextMark(TextMarks(log, k), TextMark(log, k));
      last := lastRelocation;
      if r.Expr? {
        var kind := log[r.variable].kind;
        if r.post != Lsb && (kind == Kind.Text || kind == Kind.Bss) {
          if !IsRelative(r.opcode) || r.length != 2 {
            var address := ToWord(pc + r.length - 1);
            if r.post == Msb && !GetInsnProps(r.opcode).imm {
              MinusOne(pc + r.length - 1);
              address := ToWord(address - 1);
            }
            assert TextMark(log, k) == [address];
            file.WriteRelocationFor(ToWord(address - lastRelocation));
            last := address;
          }
        }
      }
    }

    method WriteTextRelocations()
      requires WellFormed(log) && file.Valid()
      modifies file
      ensures file.out == old(file.out) + Encode(TextMarks(log, |log|))
    {
      hide Pc, GetInsnProps, Distances, Distance, Pack;
      var pc: Word := 7;
      var lastRelocation: Word := 3;
      file.ResetRelocationWriter();
      NoDistances();
      NextMark([], [3]);
      assert [] + [3] == TextMarks(log, 0);
      file.WriteRelocationFor(3);
      assert Pc(log, 0) == 7 by { StartPc(log); }
      var k := 0;
      while k < |log|
        invariant 0 <= k <= |log| && pc == Pc(log, k)
        invariant file.Valid() && file.start == old(file.out)
        invariant file.nibbles == Distances(TextMarks(log, k), 0)
        invariant lastRelocation == LastMark(TextMarks(log, k))
      {
        lastRelocation := TextRelocation(k, pc, lastRelocation);
        PcNext(log, k);
        pc := ToWord(pc + Size(log[k]));
        k := k + 1;
      }
      file.WriteRelocation(0xf);
      file.FlushRelocations();
    }

    method ZpRelocation(k: nat, pc: Word, lastRelocation: Word) returns (last: Word)
      requires WellFormed(log) && file.Valid() && k < |log| && pc == Pc(log, k)
      requires file.nibbles == Distances(ZpMarks(log, k), 0) && lastRelocation == LastMark(ZpMarks(log, k))
      modifies file
      ensures file.Valid() && file.start == old(file.start)
      ensures file.nibbles == Distances(ZpMarks(log, k + 1), 0) && last == LastMark(ZpMarks(log, k + 1))
    {
      hide Pc, Distances, Distance, Pack, LastMark;
      var r := log[k];
      NextMark(ZpMarks(log, k), ZpMark(log, k));
      last := lastRelocation;
      if r.Expr? && log[r.variable].kind == Kind.Zp {
        var address := if r.opcode == 0x00 || r.opcode == 0xff then pc else ToWord(pc + 1);
        if r.post != Msb {
          assert ZpMark(log, k) == [address];
          file.WriteRelocationFor(ToWord(address - lastRelocation));
          last := address;
        }
      }
    }

    method WriteZPRelocations()
      requires WellFormed(log) && file.Valid()
      modifies file
      ensures file.out == old(file.out) + Encode(ZpMarks(log, |log|))
    {
      hide Pc, Distances, Distance, Pack;
      NoDistances();
      var pc: Word := 7;
      var lastRelocation: Word := 0;
      file.ResetRelocationWriter();
      assert Pc(log, 0) == 7 by { StartPc(log); }
      var k := 0;
      while k < |log|
        invariant 0 <= k <= |log| && pc == Pc(log, k)
        invariant file.Valid() && file.start == old(file.out)
        invariant file.nibbles == Distances(ZpMarks(log, k), 0)
        invariant lastRelocation == LastMark(ZpMarks(log, k))
      {
        lastRelocation := ZpRelocation(k, pc, lastRelocation);
        PcNext(log, k);
        pc := ToWord(pc + Size(log[k]));
        k := k + 1;
      }
      file.WriteRelocation(0xf);
      file.FlushRelocations();
    }

    /** The emission part of main. */
    method WriteObject()
      requires WellFormed(log) && file.Valid() && file.out == []
      modifies file
      ensures file.out == Object(log, zpUsage, textUsage)
    {
      hide Code, ZpMarks, TextMarks, Encode, Header, WellFormed;
      WriteHeader();
      WriteCode();
      file.ResetRelocationWriter();
      WriteZPRelocations();
      file.ResetRelocationWriter();
      WriteTextRelocations();
    }
  }

  lemma NoDistances()
    ensures Distances([], 0) == []
  {
  }

  lemma StartPc(log: seq<Record>)
    ensures Pc(log, 0) == 7
  {
  }

  lemma LowPcNext(log: seq<Record>, k: nat)
    requires k < |log|
    ensures Lo(Pc(log, k + 1)) == ToByte(Lo(Pc(log, k)) + Size(log[k]))
  {
    hide *;
    var pc: int := Pc(log, k);
    PcNext(log, k);
    LowOfWord(pc + Size(log[k]));
    LowIs(Pc(log, k));
    ToByteAdd(pc, Size(log[k]));
  }

  lemma LowOfWord(x: int)
    ensures Lo(ToWord(x)) == ToByte(x)
  {
    var q := x / 0x1_0000;
    assert x == ToWord(x) + 0x100 * (0x100 * q);
    ByteTurns(ToWord(x), 0x100 * q);
  }

  lemma ByteTurns(x: int, k: int)
    ensures ToByte(x + 0x100 * k) == ToByte(x)
  {
  }

  lemma LowIs(w: Word)
    ensures Lo(w) == ToByte(w)
  {
  }

  lemma LowByte(address: Word, pc: Byte)
    ensures ToByte(Signed16(ToWord(address - pc - 2))) == ToByte(address - pc - 2)
  {
  }

  lemma MinusOne(x: int)
    ensures ToWord(ToWord(x) - 1) == ToWord(x - 1)
  {
  }
}
