/**
 What the bit tests on opcodes come to for every instruction the assembler knows (apps/asm.c:553-632,
 666-745): the 6502's own table.
 */
module InstructionSet {
  import opened Bytes
  import opened Opcodes

  /** The eight that take every operand: ORA AND EOR ADC STA LDA CMP SBC, by their (zp,X) forms. */
  const ALU: set<Byte> := {0x01, 0x21, 0x41, 0x61, 0x81, 0xa1, 0xc1, 0xe1}

  /** ASL ROL LSR ROR DEC INC, without an operand's bits. */
  const SHIFTS: set<Byte> := {0x02, 0x22, 0x42, 0x62, 0xc2, 0xe2}

  /** Instructions without an operand, and shifts of the accumulator. */
  const IMPLIED: set<Byte> := {
    0x00, 0x08, 0x18, 0x28, 0x38, 0x40, 0x48, 0x58, 0x60, 0x68, 0x78, 0x88, 0x8a, 0x98, 0x9a, 0xa8, 0xaa, 0xb8, 0xba, 0xc8,
    0xca, 0xd8, 0xe8, 0xea, 0xf8, 0x0a, 0x2a, 0x4a, 0x6a}

  /** LDY LDX CPY CPX, immediate; the other eight immediates are among the ALU forms. */
  const IMMEDIATE: set<Byte> := {0xa0, 0xa2, 0xc0, 0xe0}

  /** BPL BMI BVC BVS BCC BCS BNE BEQ */
  const BRANCHES: set<Byte> := {0x10, 0x30, 0x50, 0x70, 0x90, 0xb0, 0xd0, 0xf0}

  /** BIT STY LDY CPY CPX STX LDX with an address, by their zero page forms. */
  const ADDRESSED: set<Byte> := {0x24, 0x84, 0xa4, 0xc4, 0xe4, 0x86, 0xa6}

  /** (zp,X) zp # abs (zp),Y zp,X abs,Y abs,X */
  lemma AluForms(op: Byte)
    requires op in ALU
    ensures Plainly(op, 2) && Plainly(op + 0x04, 2) && Immediately(op + 0x08) && Plainly(op + 0x10, 2) && Plainly(op + 0x14, 2)
    ensures Shrinkably(op + 0x0c, op + 0x04) && Plainly(op + 0x18, 3) && Shrinkably(op + 0x1c, op + 0x14)
  {
    var n := op / 0x20;
    assert op == 0x20 * n + 1;
    forall field | 0 <= field < 8
      ensures Form(0x20 * n + 4 * field + 1, field)
    {
      FieldForm(n, field, 1);
    }
    FormsOf(op);
  }

  /** zp abs zp,X abs,X */
  lemma ShiftForms(op: Byte)
    requires op in SHIFTS
    ensures Plainly(op + 0x04, 2) && Shrinkably(op + 0x0c, op + 0x04)
    ensures Plainly(op + 0x14, 2) && Shrinkably(op + 0x1c, op + 0x14)
  {
    var n := op / 0x20;
    assert op == 0x20 * n + 2;
    ShortForms(op, n);
    hide Plainly, Shrinkably;
  }

  lemma ShortForms(op: Byte, n: nat)
    requires n < 8 && op == 0x20 * n + 2
    ensures Form(op + 0x04, 1) && Form(op + 0x0c, 3) && Form(op + 0x14, 5) && Form(op + 0x1c, 7)
  {
    hide Form;
    FieldForm(n, 1, 2);
    FieldForm(n, 3, 2);
    FieldForm(n, 5, 2);
    FieldForm(n, 7, 2);
  }

  /** One byte each. */
  lemma ImpliedForms(op: Byte)
    requires op in IMPLIED
    ensures Plainly(op, 1)
  {
    hide GetField;
    if op in {0x8a, 0x9a, 0xaa, 0xba, 0xca, 0xea, 0x0a, 0x2a, 0x4a, 0x6a} {
      assert op % 4 == 2 && op / 4 % 2 == 0;
    } else if op in {0x00, 0x40, 0x60} {
      assert op % 4 == 0 && op / 4 % 8 == 0;
    } else if op in {0x08, 0x28, 0x48, 0x68, 0x88, 0xa8, 0xc8, 0xe8} {
      assert op % 4 == 0 && op / 4 % 8 == 2;
    } else {
      assert op in {0x18, 0x38, 0x58, 0x78, 0x98, 0xb8, 0xd8, 0xf8};
      assert op % 4 == 0 && op / 4 % 8 == 6;
    }
  }

  lemma ImmediateForms(op: Byte)
    requires op in IMMEDIATE
    ensures Immediately(op)
  {
    hide GetField;
  }

  /** zp and abs, and for LDY, LDX, STY and STX the indexed ones. */
  lemma AddressedForms(op: Byte)
    requires op in ADDRESSED
    ensures Plainly(op, 2) && Shrinkably(op + 0x08, op)
    ensures op in {0x84, 0x86, 0xa4, 0xa6} ==> Plainly(op + 0x10, 2)
    ensures op in {0xa4, 0xa6} ==> Shrinkably(op + 0x18, op + 0x10)
  {
    var n, c: int := op / 0x20, op % 4;
    assert op == 0x20 * n + 4 + c && (c == 0 || c == 2);
    assert c == 0 ==> n == 1 || n >= 4;
    FieldForm(n, 1, c);
    FieldForm(n, 3, c);
    FieldForm(n, 5, c);
    FieldForm(n, 7, c);
    hide Plainly, Shrinkably;
  }

  /** JMP, JMP () and JSR, which is its own zero page form and so is cut short. */
  lemma JumpForms()
    ensures Plainly(0x4c, 3) && Plainly(0x6c, 3) && Shrinkably(0x20, 0x20)
  {
  }

  /** Each branch with the flag it looks at. */
  lemma BranchForms(op: Byte, flags: Flags)
    ensures IsBranch(op) <==> op in BRANCHES
    ensures op in BRANCHES ==> GetInsnLength(op) == 2 && IsRelative(op) && !GetInsnProps(op).imm
    ensures IsBranch(0x10) && (Taken(0x10, flags) <==> !flags.negative) && IsBranch(0x30) && (Taken(0x30, flags) <==> flags.negative)
    ensures IsBranch(0x50) && (Taken(0x50, flags) <==> !flags.overflow) && IsBranch(0x70) && (Taken(0x70, flags) <==> flags.overflow)
    ensures IsBranch(0x90) && (Taken(0x90, flags) <==> !flags.carry) && IsBranch(0xb0) && (Taken(0xb0, flags) <==> flags.carry)
    ensures IsBranch(0xd0) && (Taken(0xd0, flags) <==> !flags.zero) && IsBranch(0xf0) && (Taken(0xf0, flags) <==> flags.zero)
  {
    if op in BRANCHES {
      assert op % 0x20 == 0x10;
      BranchIsRelative(op);
    }
    var n := op / 0x20;
    assert op == 0x20 * n + op % 0x20;
    hide GetField;
  }

  /** What bits 2 to 4 mean for the opcodes with an operand. */
  predicate Form(op: int, field: nat)
  {
    match field
    case 0 => Plainly(op, 2)
    case 1 => Plainly(op, 2)
    case 2 => Immediately(op)
    case 3 => Shrinkably(op, op - 8)
    case 4 => Plainly(op, 2)
    case 5 => Plainly(op, 2)
    case 6 => Plainly(op, 3)
    case _ => Shrinkably(op, op - 8)
  }

  lemma FieldForm(n: nat, field: nat, c: nat)
    requires n < 8 && field < 8 && (c == 0 || c == 1 || c == 2) && (c != 1 ==> field % 2 == 1)
    requires c == 0 && field == 3 ==> n != 2 && n != 3
    ensures Form(0x20 * n + 4 * field + c, field)
  {
    OpcodeBits(n, field, c);
  }

  lemma FormsOf(op: int)
    requires forall field :: 0 <= field < 8 ==> Form(op + 4 * field, field)
    ensures Plainly(op, 2) && Plainly(op + 0x04, 2) && Immediately(op + 0x08) && Plainly(op + 0x10, 2) && Plainly(op + 0x14, 2)
    ensures Shrinkably(op + 0x0c, op + 0x04) && Plainly(op + 0x18, 3) && Shrinkably(op + 0x1c, op + 0x14)
  {
    hide Plainly, Immediately, Shrinkably;
    assert Form(op + 4 * 0, 0) && Form(op + 4 * 1, 1) && Form(op + 4 * 2, 2) && Form(op + 4 * 3, 3);
    assert Form(op + 4 * 4, 4) && Form(op + 4 * 5, 5) && Form(op + 4 * 6, 6) && Form(op + 4 * 7, 7);
  }

  lemma OpcodeBits(n: nat, field: nat, c: nat)
    requires n < 8 && field < 8 && c < 4
    ensures var op := 0x20 * n + 4 * field + c;
            op < 0x100 && op / 4 % 8 == field && op % 4 == c && op / 4 % 2 == field % 2 && op / 8 % 2 == field / 2 % 2
  {
    var q := 8 * n + field;
    assert (0x20 * n + 4 * field + c) / 4 == q;
    assert (0x20 * n + 4 * field + c) / 8 == q / 2 == 4 * n + field / 2;
  }

  predicate Plainly(op: int, size: nat)
  {
    && 0 <= op < 0x100 && GetInsnLength(op) == size
    && !GetInsnProps(op).shrinks && !GetInsnProps(op).imm && !IsRelative(op)
  }

  predicate Immediately(op: int)
  {
    0 <= op < 0x100 && GetInsnLength(op) == 2 && GetInsnProps(op).imm && !GetInsnProps(op).shrinks && !IsRelative(op)
  }

  /** Three bytes, with a zero page form of two. */
  predicate Shrinkably(op: int, short: int)
  {
    && 0 <= op < 0x100 && GetInsnLength(op) == 3 && !GetInsnProps(op).imm && !IsRelative(op)
    && GetInsnProps(op).shrinks && Shrink(op) as int == short
  }
}
