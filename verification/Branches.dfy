/**
 What the code does once it is in memory: the short form of a branch, and the inverted branch over
 a JMP that stands in for it, go to the label under the same condition (apps/asm.c:1755-1777).
 */
module Branches {
  import opened Bytes
  import opened Opcodes
  import opened Records
  import opened Placement
  import opened Emission
  import opened Relocatable
  import opened Loading

  predicate Jumps(opcode: Byte) { IsBranch(opcode) || opcode == JMP }

  /** The 6502's next program counter, for the two kinds of instruction a branch is made of. */
  function Step(mem: seq<Byte>, pc: Word, flags: Flags): Word
    requires |mem| == 0x1_0000 && Jumps(mem[pc]) && pc + (if IsBranch(mem[pc]) then 2 else 3) <= 0x1_0000
  {
    if IsBranch(mem[pc]) then
      ToWord(pc + 2 + if Taken(mem[pc], flags) then Signed8(mem[pc + 1]) else 0)
    else
      Pair(mem[pc + 1], mem[pc + 2])
  }

  /** A signed byte carries the distance. */
  lemma ShortReach(base: Word, target: Word, pc: Word)
    requires Near(Signed16(ToWord(target - pc - 2)))
    ensures ToWord(base + pc + 2 + Signed8(ToByte(target - pc - 2))) == ToWord(base + target)
  {
    var w: int := ToWord(target - pc - 2);
    var distance := Signed16(w);
    ByteOfWord(target - pc - 2);
    assert Signed8(ToByte(w)) == distance;
    var k := (target - pc - 2 - distance) / 0x1_0000;
    assert target - pc - 2 == distance + 0x1_0000 * k;
    WholeTurns(base + pc + 2 + distance, k);
  }

  lemma ByteOfWord(x: int)
    ensures ToByte(ToWord(x)) == ToByte(x)
  {
    var q := x / 0x1_0000;
    assert x == 0x100 * (0x100 * q) + ToWord(x);
    assert x % 0x100 == ToWord(x) % 0x100;
  }

  /** Byte d of record k, in the memory a relocator left behind. */
  lemma RecordInMemory(was: seq<Byte>, mem: seq<Byte>, base: Word, log: seq<Record>, zpUsage: Byte,
                       textUsage: Word, page: Byte, zp: Byte, k: nat, d: nat)
    requires LoadedFor(was, mem, base, log, zpUsage, textUsage, page, zp)
    requires Ready(log, textUsage) && AllRelocate(log, textUsage, zp) && k < |log| && d < Size(log[k])
    ensures Pc(log, k) == START_ADDRESS + Extent(log, k)
    ensures base + Pc(log, k) + Size(log[k]) <= |mem| == 0x1_0000
    ensures d < |EmitRecord(Moved(log, page, zp), k, textUsage)|
    ensures mem[base + Pc(log, k) + d] == EmitRecord(Moved(log, page, zp), k, textUsage)[d]
  {
    hide *;
    OperandsCommute(log, textUsage, page, zp);
    ReadyForm(log, textUsage);
    LoadedForParts(was, mem, base, log, zpUsage, textUsage, page, zp);
    ImageParts(log, zpUsage, textUsage, page, zp);
    ReadyPlaces(log, textUsage, k);
    MovedCodeAt(log, textUsage, page, zp, k, d);
    var i := START_ADDRESS + Extent(log, k) + d;
    LoadedAt(mem, base, MovedImage(log, zpUsage, textUsage, page, zp), i);
    assert i - START_ADDRESS == Extent(log, k) + d;
  }

  lemma LoadedForParts(was: seq<Byte>, mem: seq<Byte>, base: Word, log: seq<Record>, zpUsage: Byte,
                       textUsage: Word, page: Byte, zp: Byte)
    requires LoadedFor(was, mem, base, log, zpUsage, textUsage, page, zp)
    ensures WellFormed(log) && |mem| == 0x1_0000 && base + textUsage <= 0x1_0000
    ensures |MovedImage(log, zpUsage, textUsage, page, zp)| == textUsage
    ensures Loaded(mem, base, MovedImage(log, zpUsage, textUsage, page, zp))
  {
    hide WellFormed, MovedImage;
  }

  /** Where a relocated branch record goes: to its label if the branch is taken, else past itself. */
  predicate Transfers(mem: seq<Byte>, at: Word, r: Record, target: Word, flags: Flags)
    requires |mem| == 0x1_0000 && r.Expr? && IsBranch(r.opcode)
    requires at + (if r.length == 2 then 2 else 5) <= 0x1_0000
  {
    && IsBranch(mem[at])
    && if r.length == 2 then
         Step(mem, at, flags) == if Taken(r.opcode, flags) then target else ToWord(at + 2)
       else
         && Step(mem, at, flags) == (if Taken(r.opcode, flags) then at + 2 else ToWord(at + 5))
         && mem[at + 2] == JMP && Step(mem, at + 2, flags) == target
  }

  /**
   In a relaxed, relocated program every branch, short or long, transfers to the run-time address
   of its label exactly when the condition of the branch that was written holds, and otherwise
   goes on with the next record.
   */
  lemma BranchesReachTheirLabels(was: seq<Byte>, mem: seq<Byte>, page: Byte, log: seq<Record>, zpUsage: Byte,
                                 textUsage: Word, zp: Byte, k: nat, flags: Flags)
    requires LoadedFor(was, mem, Pair(0, page), log, zpUsage, textUsage, page, zp)
    requires Ready(log, textUsage) && AllRelocate(log, textUsage, zp)
    requires k < |log| && Branches(log[k])
    ensures IsBranch(log[k].opcode)
    ensures 0x100 * page + Pc(log, k) + (if log[k].length == 2 then 2 else 5) <= 0x1_0000
    ensures Transfers(mem, 0x100 * page + Pc(log, k), log[k], ToWord(0x100 * page + Target(log, log[k])), flags)
  {
    hide *;
    var r := log[k];
    var base: int := 0x100 * page;
    var at: int := base + Pc(log, k);
    PageAddress(page);
    BranchFacts(log, textUsage, zp, k, page);
    MovedBytes(log, k, textUsage, page, zp);
    LoadedForParts(was, mem, base, log, zpUsage, textUsage, page, zp);
    BranchInMemory(was, mem, base, log, zpUsage, textUsage, page, zp, k);
    var target: int := Target(log, r);
    var w := ToWord(target + 0x100 * page);
    BranchForm(r, w, Lo(Pc(log, k)));
    var bytes := EmitBranch(r, w, Lo(Pc(log, k)));
    forall d | 0 <= d < r.length
      ensures mem[at + d] == bytes[d]
    {
      RecordInMemory(was, mem, base, log, zpUsage, textUsage, page, zp, k, d);
    }
    if r.length == 2 {
      assert mem[at + 0] == bytes[0] && mem[at + 1] == bytes[1];
      SameLowByte(target, page, Lo(Pc(log, k)));
      LowPc(target, Pc(log, k));
      ShortForm(mem, at, r, base, target, Pc(log, k), flags);
    } else {
      assert mem[at + 0] == bytes[0] && mem[at + 1] == bytes[1] && mem[at + 2] == bytes[2];
      assert mem[at + 3] == bytes[3] && mem[at + 4] == bytes[4];
      LongForm(mem, at, r, w, flags);
    }
  }

  lemma BranchInMemory(was: seq<Byte>, mem: seq<Byte>, base: Word, log: seq<Record>, zpUsage: Byte,
                       textUsage: Word, page: Byte, zp: Byte, k: nat)
    requires LoadedFor(was, mem, base, log, zpUsage, textUsage, page, zp)
    requires Ready(log, textUsage) && AllRelocate(log, textUsage, zp)
    requires k < |log| && log[k].Expr? && (log[k].length == 2 || log[k].length == 5)
    ensures base + Pc(log, k) + log[k].length <= 0x1_0000
  {
    RecordInMemory(was, mem, base, log, zpUsage, textUsage, page, zp, k, 0);
    hide LoadedFor, Ready, AllRelocate, WellFormed, Extent, Pc, Moved, EmitRecord;
  }

  lemma PageAddress(page: Byte)
    ensures Pair(0, page) == 0x100 * page
  {
  }

  lemma BranchForm(r: Record, target: Word, pc: Byte)
    requires r.Expr? && (r.length == 2 || r.length == 5)
    ensures Size(r) == r.length
    ensures EmitBranch(r, target, pc)
         == if r.length == 2 then [r.opcode, ToByte(target - pc - 2)]
            else [Invert(r.opcode), 3, JMP, Lo(target), Hi(target)]
  {
  }

  lemma ShortForm(mem: seq<Byte>, at: Word, r: Record, base: Word, target: Word, pc: Word, flags: Flags)
    requires |mem| == 0x1_0000 && r.Expr? && IsBranch(r.opcode) && r.length == 2
    requires at == base + pc && at + 2 <= 0x1_0000 && mem[at] == r.opcode
    requires mem[at + 1] == ToByte(target - pc - 2) && Near(Signed16(ToWord(target - pc - 2)))
    ensures Transfers(mem, at, r, ToWord(base + target), flags)
  {
    ShortReach(base, target, pc);
    hide Taken, Near, Signed16, Signed8, ToByte;
  }

  lemma LongForm(mem: seq<Byte>, at: Word, r: Record, target: Word, flags: Flags)
    requires |mem| == 0x1_0000 && r.Expr? && IsBranch(r.opcode) && r.length == 5
    requires at + 5 <= 0x1_0000 && mem[at] == Invert(r.opcode) && mem[at + 1] == 3 && mem[at + 2] == JMP
    requires mem[at + 3] == Lo(target) && mem[at + 4] == Hi(target)
    ensures Transfers(mem, at, r, target, flags)
  {
    InvertInverts(r.opcode, flags);
    NoWrap(at + 2);
    PairHalves(target);
    hide Taken, Invert, Lo, Hi;
  }

  lemma PairHalves(w: Word)
    ensures Pair(Lo(w), Hi(w)) == w
  {
  }

  lemma LowPc(target: Word, pc: Word)
    ensures ToByte(target - Lo(pc) - 2) == ToByte(target - pc - 2)
  {
    assert target - pc - 2 == target - Lo(pc) - 2 - 0x100 * Hi(pc);
  }

  lemma BranchFacts(log: seq<Record>, textUsage: Word, zp: Byte, k: nat, page: Byte)
    requires Ready(log, textUsage) && AllRelocate(log, textUsage, zp) && k < |log| && Branches(log[k])
    ensures WellFormed(log) && log[log[k].variable].kind == Text && IsBranch(log[k].opcode)
    ensures IsRelative(log[k].opcode) && MovedBy(log[log[k].variable].kind, page, zp) == 0x100 * page
    ensures log[k].Expr? && (log[k].length == 2 || log[k].length == 5)
    ensures log[k].length == 2 ==> Near(Signed16(ToWord(Target(log, log[k]) - Pc(log, k) - 2)))
  {
    hide Extent, Pc, Target, GetInsnProps, Near, Signed16, ToWord, Sized;
  }

  // ---------- operands with `<` or `>` ----------

  /** Byte d of record k in the memory the relocators leave behind, whatever the operands. */
  lemma RelocatedRecord(was: seq<Byte>, mem: seq<Byte>, base: Word, log: seq<Record>, zpUsage: Byte,
                        textUsage: Word, page: Byte, zp: Byte, k: nat, d: nat)
    requires RelocatedFor(was, mem, base, log, zpUsage, textUsage, page, zp) && k < |log| && d < Size(log[k])
    ensures WellFormed(log) && Pc(log, k) == START_ADDRESS + Extent(log, k) && |mem| == 0x1_0000
    ensures base + Pc(log, k) + Size(log[k]) <= 0x1_0000 && d < |EmitRecord(log, k, textUsage)|
    ensures mem[base + Pc(log, k) + d] == FixedUp(log, k, textUsage, page, zp, d)
  {
    hide *;
    RelocatedParts(was, mem, base, log, zpUsage, textUsage, page, zp);
    ReadyForm(log, textUsage);
    ReadyPlaces(log, textUsage, k);
    RelocatedByte(was, base, log, zpUsage, textUsage, page, zp, k, d);
  }

  lemma RelocatedParts(was: seq<Byte>, mem: seq<Byte>, base: Word, log: seq<Record>, zpUsage: Byte,
                       textUsage: Word, page: Byte, zp: Byte)
    requires RelocatedFor(was, mem, base, log, zpUsage, textUsage, page, zp)
    ensures |was| == |mem| == 0x1_0000 && Ready(log, textUsage) && WellFormed(log) && NoStrayMarks(log)
    ensures Loaded(was, base, Image(log, zpUsage, textUsage)) && base + textUsage <= 0x1_0000
    ensures mem == Relocated(was, base, log, page, zp)
  {
    hide WellFormed, NoStrayMarks, Image, Relocated, Sound, Sized, RealOpcodes, Extent, Loaded;
  }

  /**
   A branch may have been recorded with the `<` or `>` of another operand: those of zif, zuntil, zbreak
   and zcontinue are. Over a short distance that makes no difference; over a long one, in a program that
   is loaded above page 0, the branch misses its label.
   */
  lemma BranchReachesExactly(was: seq<Byte>, mem: seq<Byte>, page: Byte, log: seq<Record>, zpUsage: Byte,
                             textUsage: Word, zp: Byte, k: nat, flags: Flags)
    requires RelocatedFor(was, mem, Pair(0, page), log, zpUsage, textUsage, page, zp)
    requires k < |log| && Branches(log[k])
    ensures |mem| == 0x1_0000 && IsBranch(log[k].opcode) && log[k].variable < |log| && log[log[k].variable].Symbol?
    ensures 0x100 * page + Pc(log, k) + (if log[k].length == 2 then 2 else 5) <= 0x1_0000
    ensures Transfers(mem, 0x100 * page + Pc(log, k), log[k], ToWord(0x100 * page + Target(log, log[k])), flags)
       <==> log[k].length == SHORT || log[k].post == None || page == 0
  {
    hide *;
    RelocatedParts(was, mem, Pair(0, page), log, zpUsage, textUsage, page, zp);
    BranchForms(log, textUsage, k);
    var r, base: int, target: int := log[k], 0x100 * page, Target(log, log[k]);
    var at: int := base + Pc(log, k);
    var pc := Lo(Pc(log, k));
    PageAddress(page);
    SizeOf(r);
    BranchForm(r, target, pc);
    var bytes, place := EmitBranch(r, target, pc), TextPlace(r);
    RelocatedRecord(was, mem, base, log, zpUsage, textUsage, page, zp, k, 0);
    forall d | 0 <= d < r.length
      ensures d < |bytes| && mem[at + d] == if place != [] && place[0] == d then ToByte(bytes[d] + page) else bytes[d]
    {
      RelocatedRecord(was, mem, base, log, zpUsage, textUsage, page, zp, k, d);
      BranchFixedUp(log, k, textUsage, page, zp, d);
    }
    BranchPlace(r);
    assert mem[at + 0] == bytes[0] && mem[at + 1] == bytes[1];
    if r.length == 2 {
      LowPc(target, Pc(log, k));
      ShortForm(mem, at, r, base, target, Pc(log, k), flags);
    } else {
      assert mem[at + 2] == bytes[2] && mem[at + 3] == if r.post == Msb then ToByte(bytes[3] + page) else bytes[3];
      assert mem[at + 4] == if r.post == None then ToByte(bytes[4] + page) else bytes[4];
      var x := Pair(mem[at + 3], mem[at + 4]);
      PairParts(mem[at + 3], mem[at + 4]);
      LongForm(mem, at, r, x, flags);
      OneTarget(mem, at, r, x, ToWord(base + target), flags);
      JumpWord(target, page, r.post, mem[at + 3], mem[at + 4]);
    }
  }

  lemma BranchForms(log: seq<Record>, textUsage: Word, k: nat)
    requires Ready(log, textUsage) && k < |log| && Branches(log[k])
    ensures WellFormed(log) && IsBranch(log[k].opcode) && log[k].variable < |log| && log[log[k].variable].Symbol?
    ensures log[log[k].variable].kind == Text && IsRelative(log[k].opcode) && log[k].Expr?
    ensures SHORT == 2 && LONG == 5 && (log[k].length == SHORT || log[k].length == LONG)
    ensures log[k].length == 2 ==> Near(Signed16(ToWord(Target(log, log[k]) - Pc(log, k) - 2)))
  {
    hide Extent, Pc, Target, GetInsnProps, Near, Signed16, ToWord, Sized;
  }

  /** What relocation makes of a branch's bytes. */
  lemma BranchFixedUp(log: seq<Record>, k: nat, textUsage: Word, page: Byte, zp: Byte, d: nat)
    requires Ready(log, textUsage) && k < |log| && Branches(log[k]) && d < |EmitRecord(log, k, textUsage)|
    ensures log[k].variable < |log| && log[log[k].variable].Symbol?
    ensures var bytes := EmitBranch(log[k], Target(log, log[k]), Lo(Pc(log, k)));
            && d < |bytes|
            && FixedUp(log, k, textUsage, page, zp, d)
               == var place := TextPlace(log[k]); if place != [] && place[0] == d then ToByte(bytes[d] + page) else bytes[d]
  {
    hide *;
    BranchForms(log, textUsage, k);
    MovedBytes(log, k, textUsage, page, zp);
    TextFacts(log, k, textUsage, page, zp);
    FixedUpIs(log, k, textUsage, page, zp, d);
    MarkIn(TextPlace(log[k]), START_ADDRESS + Extent(log, k), page, d);
    MarkIn([], START_ADDRESS + Extent(log, k), zp, d);
    OneOff(EmitRecord(log, k, textUsage)[d]);
  }

  lemma MarkIn(place: seq<int>, start: nat, addend: Byte, d: nat)
    ensures Adds(At(place, start), addend, start + d) == (if place != [] && place[0] == d then addend else 0)
    ensures Adds([], addend, start + d) == 0
  {
  }

  /** Only a long branch is marked, and with `>` in its low byte. */
  lemma BranchPlace(r: Record)
    requires r.Expr? && IsRelative(r.opcode) && (r.length == 2 || r.length == 5)
    ensures TextPlace(r) == if r.length == 2 || r.post == Lsb then [] else [if r.post == Msb then 3 else 4]
  {
    ConstantProps();
    RelativeIsNotImmediate(r.opcode);
    hide GetInsnProps;
  }

  lemma PairParts(lo: Byte, hi: Byte)
    ensures Lo(Pair(lo, hi)) == lo && Hi(Pair(lo, hi)) == hi
  {
  }

  /** The JMP of a long branch goes to one place. */
  lemma OneTarget(mem: seq<Byte>, at: Word, r: Record, x: Word, y: Word, flags: Flags)
    requires |mem| == 0x1_0000 && r.Expr? && IsBranch(r.opcode) && r.length == 5 && at + 5 <= 0x1_0000
    requires Transfers(mem, at, r, x, flags)
    ensures Transfers(mem, at, r, y, flags) <==> x == y
  {
    hide Step, Taken;
  }

  lemma JumpWord(target: Word, page: Byte, post: Postprocessing, lo: Byte, hi: Byte)
    requires lo == if post == Msb then ToByte(Lo(target) + page) else Lo(target)
    requires hi == if post == None then ToByte(Hi(target) + page) else Hi(target)
    ensures Pair(lo, hi) == ToWord(0x100 * page + target) <==> post == None || page == 0
  {
    AddPages(target, page);
    var w := ToWord(target + 0x100 * page);
    PairHalves(w);
    PairParts(lo, hi);
    BytesMove(Lo(target), page);
    BytesMove(Hi(target), page);
    hide Lo, Hi, Pair, ToByte;
  }

  lemma BytesMove(b: Byte, page: Byte)
    ensures ToByte(b + page) == b <==> page == 0
  {
  }

  predicate JumpAt(mem: seq<Byte>, at: nat) { |mem| == 0x1_0000 && at + 3 <= 0x1_0000 && mem[at] == JMP }

  /** There is a JMP at this place, to the target. */
  predicate JumpsTo(mem: seq<Byte>, at: nat, target: Word, flags: Flags)
  {
    JumpAt(mem, at) && Step(mem, at, flags) == target
  }

  /**
   The jumps that zendloop and, without a condition, zbreak, zcontinue, zuntil and zif put down are
   recorded in the same way. They go to the run-time address of their label, which lies above page 0,
   exactly if there was no `<` or `>`.
   */
  lemma StructuredJumpExactly(was: seq<Byte>, mem: seq<Byte>, page: Byte, log: seq<Record>, zpUsage: Byte,
                              textUsage: Word, zp: Byte, k: nat, flags: Flags)
    requires RelocatedFor(was, mem, Pair(0, page), log, zpUsage, textUsage, page, zp)
    requires k < |log| && log[k].Expr? && log[k].opcode == JMP && log[k].length == 3
    requires log[k].variable < |log| && log[log[k].variable].Symbol? && log[log[k].variable].kind in {Kind.Text, Kind.Bss}
    ensures JumpAt(mem, 0x100 * page + Pc(log, k))
    ensures var target := ToWord(0x100 * page + Value(log, log[k], textUsage));
            && (JumpsTo(mem, 0x100 * page + Pc(log, k), target, flags)
                <==> || log[k].post == None
                     || (log[k].post == Lsb && target < 0x100)
                     || (log[k].post == Msb && target == 0))
            && (0 < page && 0x100 * page + Value(log, log[k], textUsage) < 0x1_0000 ==>
                  (JumpsTo(mem, 0x100 * page + Pc(log, k), target, flags) <==> log[k].post == None))
  {
    hide *;
    var r, base: int := log[k], 0x100 * page;
    var at: int := base + Pc(log, k);
    var v: int := Value(log, r, textUsage);
    var target := ToWord(base + v);
    var x := PostProcess(target, r.post);
    PageAddress(page);
    NotABranch();
    ShiftOf(log[r.variable].kind, page, zp);
    RelocatedParts(was, mem, Pair(0, page), log, zpUsage, textUsage, page, zp);
    MovedBytes(log, k, textUsage, page, zp);
    JumpBytes(r, x);
    OperandIs(r, target);
    var bytes := [JMP, Lo(x), Hi(x)];
    SizeOf(r);
    forall d | 0 <= d < 3
      ensures at + 3 <= 0x1_0000 && mem[at + d] == bytes[d]
    {
      RelocatedRecord(was, mem, base, log, zpUsage, textUsage, page, zp, k, d);
      JumpCommutes(log, k, textUsage, page, zp, d);
    }
    RelocatedRecord(was, mem, base, log, zpUsage, textUsage, page, zp, k, 0);
    assert mem[at + 0] == bytes[0] && mem[at + 1] == bytes[1] && mem[at + 2] == bytes[2];
    JumpGoes(mem, at, x, flags);
    Unprocessed(target, r.post);
    AbovePageZero(page, v);
  }

  /** A whole address is one the format can express. */
  lemma JumpCommutes(log: seq<Record>, k: nat, textUsage: Word, page: Byte, zp: Byte, d: nat)
    requires Ready(log, textUsage) && k < |log| && log[k].Expr? && log[k].opcode == JMP && log[k].length == 3
    requires log[k].variable < |log| && log[log[k].variable].Symbol? && log[log[k].variable].kind in {Kind.Text, Kind.Bss}
    requires d < |EmitRecord(log, k, textUsage)|
    ensures d < |EmitRecord(Moved(log, page, zp), k, textUsage)|
    ensures FixedUp(log, k, textUsage, page, zp, d) == EmitRecord(Moved(log, page, zp), k, textUsage)[d]
  {
    NotABranch();
    TextCommutes(log, k, textUsage, page, zp);
    hide EmitRecord, FixedUp, IsRelative, TextMark, ZpMark, Moved, InRecord, Ready;
  }

  /**
   With the label's own place for the address: a jump or branch of a structured statement gets there
   exactly if there was no `<` or `>` or it is a branch of two bytes.
   */
  lemma StructuredJumpReachesItsLabel(was: seq<Byte>, mem: seq<Byte>, page: Byte, log: seq<Record>, zpUsage: Byte,
                                      textUsage: Word, zp: Byte, k: nat, j: nat, flags: Flags)
    requires RelocatedFor(was, mem, Pair(0, page), log, zpUsage, textUsage, page, zp)
    requires Labelled(log) && 0 < page && 0x100 * page + textUsage < 0x1_0000
    requires k < |log| && log[k].Expr? && log[k].offset == 0
    requires (log[k].opcode == JMP && log[k].length == 3) || Branches(log[k])
    requires j < |log| && log[j].LabelDef? && log[j].symbol == log[k].variable
    ensures |mem| == 0x1_0000 && 0x100 * page + Pc(log, k) + log[k].length <= 0x1_0000
    ensures 0x100 * page + Pc(log, j) < 0x1_0000
    ensures Branches(log[k]) ==> IsBranch(log[k].opcode) && (log[k].length == SHORT || log[k].length == LONG)
    ensures var at, place := 0x100 * page + Pc(log, k), 0x100 * page + Pc(log, j);
            if Branches(log[k]) then
              Transfers(mem, at, log[k], place, flags) <==> log[k].post == None || log[k].length == SHORT
            else
              JumpsTo(mem, at, place, flags) <==> log[k].post == None
  {
    hide *;
    RelocatedParts(was, mem, Pair(0, page), log, zpUsage, textUsage, page, zp);
    StructuredLabel(log, textUsage, k, j);
    NoWrap(0x100 * page + Pc(log, j));
    if Branches(log[k]) {
      BranchForms(log, textUsage, k);
      BranchReachesExactly(was, mem, page, log, zpUsage, textUsage, zp, k, flags);
    } else {
      SizeOf(log[k]);
      RelocatedRecord(was, mem, Pair(0, page), log, zpUsage, textUsage, page, zp, k, 0);
      PageAddress(page);
      StructuredJumpExactly(was, mem, page, log, zpUsage, textUsage, zp, k, flags);
    }
  }

  /** The labels of these statements are inside the program. */
  lemma StructuredLabel(log: seq<Record>, textUsage: Word, k: nat, j: nat)
    requires Ready(log, textUsage) && Labelled(log) && k < |log| && j < |log|
    requires log[k].Expr? && log[j].LabelDef? && log[k].variable == log[j].symbol && log[k].offset == 0
    ensures log[k].variable < |log| && log[log[k].variable].Symbol? && log[log[k].variable].kind == Kind.Text
    ensures Value(log, log[k], textUsage) == Target(log, log[k]) == Pc(log, j) <= textUsage
  {
    ReadyPlaces(log, textUsage, j);
    hide Sound, Sized, RealOpcodes, Extent;
  }

  lemma ShiftOf(kind: Kind, page: Byte, zp: Byte)
    requires kind == Kind.Text || kind == Kind.Bss
    ensures MovedBy(kind, page, zp) == 0x100 * page
  {
  }

  lemma SizeOf(r: Record)
    requires r.Expr?
    ensures Size(r) == r.length
  {
  }

  lemma OperandIs(r: Record, v: Word)
    requires r.Expr?
    ensures OperandBytes(r, v) == EmitOperand(r, PostProcess(v, r.post))
  {
  }

  lemma JumpBytes(r: Record, x: Word)
    requires r.Expr? && r.opcode == JMP && r.length == 3
    ensures EmitOperand(r, x) == [JMP, Lo(x), Hi(x)]
  {
    NotABranch();
    hide IsConstant, Lo, Hi;
  }

  lemma JumpGoes(mem: seq<Byte>, at: Word, x: Word, flags: Flags)
    requires |mem| == 0x1_0000 && at + 3 <= 0x1_0000
    requires mem[at] == JMP && mem[at + 1] == Lo(x) && mem[at + 2] == Hi(x)
    ensures JumpAt(mem, at) && forall y :: JumpsTo(mem, at, y, flags) <==> x == y
  {
    PairHalves(x);
    hide Lo, Hi;
  }

  lemma Unprocessed(v: Word, post: Postprocessing)
    ensures PostProcess(v, post) == v <==> post == None || (post == Lsb && v < 0x100) || (post == Msb && v == 0)
  {
  }

  lemma AbovePageZero(page: Byte, v: Word)
    ensures 0 < page && 0x100 * page + v < 0x1_0000 ==> ToWord(0x100 * page + v) >= 0x100
  {
  }

  lemma NotABranch()
    ensures !IsRelative(JMP) && !IsConstant(JMP) && !IsBranch(JMP)
  {
  }
}
