/** The opcode classifiers of the assembler (apps/asm.c:666-745), on values instead of bit masks. */
module Opcodes {
  import opened Bytes

  /** The addressing forms an opcode's b field stands for; the last two are not real b values. */
  datatype BValue = XPtr | Zp | Imm | Abs | YPtr | XOfz | YOff | XOff | Imp | Rel

  /** The columns of the property table the back end consults. */
  datatype Props = Props(size: Byte, shrinks: bool, imm: bool, relative: bool)

  /** Opcodes of records that are not instructions. */
  const BYTE_CONSTANT: Byte := 0x00
  const WORD_CONSTANT: Byte := 0xff
  const JMP: Byte := 0x4c
  const JMP_INDIRECT: Byte := 0x6c
  const JSR: Byte := 0x20

  function GetField(opcode: Byte): BValue
  {
    match opcode / 4 % 8
    case 0 => XPtr
    case 1 => Zp
    case 2 => Imm
    case 3 => Abs
    case 4 => YPtr
    case 5 => XOfz
    case 6 => YOff
    case _ => XOff
  }

  function GetB(opcode: Byte): BValue
  {
    if opcode % 4 == 1 then GetField(opcode)
    else if opcode % 4 == 2 then
      if opcode / 4 % 2 == 1 then GetField(opcode)
      else if opcode == 0xa2 then Imm
      else Imp
    else if opcode / 4 % 2 == 1 then GetField(opcode)
    else if opcode / 4 % 8 == 4 then Rel
    else if opcode == JSR then Abs
    else if opcode / 0x80 == 1 && opcode / 4 % 8 == 0 then Imm
    else Imp
  }

  function GetBProps(b: BValue): Props
  {
    match b
    case XPtr => Props(2, false, false, false)
    case Zp => Props(2, false, false, false)
    case Imm => Props(2, false, true, false)
    case Abs => Props(3, true, false, false)
    case YPtr => Props(2, false, false, false)
    case XOfz => Props(2, false, false, false)
    case YOff => Props(3, false, false, false)
    case XOff => Props(3, true, false, false)
    case Imp => Props(1, false, false, false)
    case Rel => Props(2, false, false, true)
  }

  function GetInsnProps(opcode: Byte): Props
  {
    if opcode == JMP || opcode == JMP_INDIRECT then Props(3, false, false, false)
    else GetBProps(GetB(opcode))
  }

  function GetInsnLength(opcode: Byte): Byte { GetInsnProps(opcode).size }

  predicate IsConstant(opcode: Byte) { opcode == BYTE_CONSTANT || opcode == WORD_CONSTANT }

  predicate IsRelative(opcode: Byte) { GetInsnProps(opcode).relative }

  /** `opcode & 0b11110111`: the zero-page form of an absolute opcode. */
  function Shrink(opcode: Byte): Byte
  {
    if opcode / 8 % 2 == 1 then opcode - 8 else opcode
  }

  /** `opcode ^ 0b00100000`: the branch on the opposite condition. */
  function Invert(opcode: Byte): Byte
  {
    if opcode / 0x20 % 2 == 1 then opcode - 0x20 else opcode + 0x20
  }

  /** The eight conditional branches of the 6502. */
  predicate IsBranch(opcode: Byte) { opcode % 0x20 == 0x10 }

  /** The processor flags, in the order of bits 6 and 7 of a branch opcode. */
  datatype Flags = Flags(negative: bool, overflow: bool, carry: bool, zero: bool)

  /** Whether a branch is taken: bits 6 and 7 choose a flag and bit 5 is the value it must have. */
  predicate Taken(opcode: Byte, flags: Flags)
    requires IsBranch(opcode)
  {
    var flag := match opcode / 0x40
                case 0 => flags.negative
                case 1 => flags.overflow
                case 2 => flags.carry
                case _ => flags.zero;
    flag == (opcode / 0x20 % 2 == 1)
  }

  lemma InvertInverts(opcode: Byte, flags: Flags)
    requires IsBranch(opcode)
    ensures IsBranch(Invert(opcode))
    ensures Taken(Invert(opcode), flags) == !Taken(opcode, flags)
    ensures IsRelative(opcode)
  {
    InvertBits(opcode);
    BranchIsRelative(opcode);
    hide Invert, IsRelative;
  }

  lemma InvertBits(opcode: Byte)
    ensures Invert(opcode) / 0x40 == opcode / 0x40 && Invert(opcode) % 0x20 == opcode % 0x20
    ensures Invert(opcode) / 0x20 % 2 == 1 - opcode / 0x20 % 2
  {
    var q: int, rest: int := opcode / 0x20, opcode % 0x20;
    assert opcode == 0x20 * q + rest;
    if q % 2 == 1 {
      Thirds(q - 1, rest);
    } else {
      Thirds(q + 1, rest);
    }
    Thirds(q, rest);
  }

  lemma Thirds(q: int, rest: int)
    requires 0 <= rest < 0x20
    ensures (0x20 * q + rest) / 0x20 == q && (0x20 * q + rest) % 0x20 == rest && (0x20 * q + rest) / 0x40 == q / 2
  {
  }

  lemma BranchIsRelative(opcode: Byte)
    requires IsBranch(opcode)
    ensures IsRelative(opcode)
  {
    var q: int := opcode / 0x20;
    assert opcode / 4 == 8 * q + 4;
  }

  /**
   A shrunk opcode is a two-byte instruction and stays what it is from then on. JSR is the one
   opcode that shrinking leaves alone; it is given two bytes again on every pass.
   */
  lemma ShrinkSettles(opcode: Byte)
    requires !IsConstant(opcode) && GetInsnProps(opcode).shrinks
    ensures var small := Shrink(opcode);
            && !IsConstant(small) && !IsRelative(small)
            && (GetInsnProps(small).shrinks ==> small == opcode == JSR)
            && (!GetInsnProps(small).shrinks ==> GetInsnLength(small) == 2)
    ensures !IsRelative(opcode)
  {
    if opcode != JSR {
      ShrinkingFields(opcode);
      ShrunkField(opcode);
      var small := Shrink(opcode);
      assert GetB(small) == GetField(small);
    }
  }

  lemma ShrinkingFields(opcode: Byte)
    requires GetInsnProps(opcode).shrinks && opcode != JSR
    ensures opcode / 4 % 8 == 3 || opcode / 4 % 8 == 7
    ensures opcode / 4 % 2 == 1
  {
    var field := opcode / 4 % 8;
    assert GetB(opcode) == Abs || GetB(opcode) == XOff;
    assert field == 3 || field == 7;
    assert opcode / 4 % 2 == field % 2;
  }

  lemma ShrunkField(opcode: Byte)
    requires opcode / 4 % 8 == 3 || opcode / 4 % 8 == 7
    ensures Shrink(opcode) == opcode - 8
    ensures (opcode - 8) / 4 % 8 == opcode / 4 % 8 - 2
    ensures (opcode - 8) % 4 == opcode % 4 && (opcode - 8) / 4 % 2 == 1
  {
    var q: int := opcode / 4;
    assert opcode / 8 == q / 2;
    var small: int := opcode - 8;
    assert small / 4 == q - 2;
    assert small / 4 % 2 == 1;
  }
}
