/**
 Relocation commutes with assembly: fixing up an assembled image for text page p and zero page
 base z gives the bytes the assembler would have written with every text and BSS label moved by
 256 * p and every zero page label by z.
 */
module Relocatable {
  import opened Bytes
  import opened Opcodes
  import opened Records
  import opened NibbleStream
  import opened Placement
  import opened Emission

  // ---------- assembling with moved labels ----------

  function MovedBy(kind: Kind, page: Byte, zp: Byte): nat
  {
    match kind
    case Text => 0x100 * page
    case Bss => 0x100 * page
    case Zp => zp
    case _ => 0
  }

  function MovedRecord(r: Record, page: Byte, zp: Byte): Record
  {
    match r
    case Symbol(kind, _, address, _, _) => r.(address := ToWord(address + MovedBy(kind, page, zp)))
    case _ => r
  }

  function Moved(log: seq<Record>, page: Byte, zp: Byte): (moved: seq<Record>)
    ensures |moved| == |log| && (WellFormed(log) ==> WellFormed(moved))
  {
    seq(|log|, i requires 0 <= i < |log| => MovedRecord(log[i], page, zp))
  }

  lemma MovedKeepsPlaces(log: seq<Record>, page: Byte, zp: Byte, k: nat)
    requires k <= |log|
    ensures Extent(Moved(log, page, zp), k) == Extent(log, k)
    ensures Pc(Moved(log, page, zp), k) == Pc(log, k)
  {
    ExtentSame(log, Moved(log, page, zp), k);
  }

  /** The image as it would be with moved labels; the relocation table's own address moves as well. */
  function MovedImage(log: seq<Record>, zpUsage: Byte, textUsage: Word, page: Byte, zp: Byte): seq<Byte>
    requires WellFormed(log)
  {
    Header(zpUsage, textUsage)[3 := ToByte(Hi(textUsage) + page)]
    + Code(Moved(log, page, zp), |log|, textUsage)
  }

  // ---------- one record ----------

  /** What the mark of a record, if it has one, adds to the byte at `address`. */
  function Adds(mark: seq<int>, addend: Byte, address: int): Byte
  {
    if mark != [] && mark[0] == address then addend else 0
  }

  ghost predicate InRecord(log: seq<Record>, k: nat, marks: seq<Word>)
    requires k < |log|
  {
    forall i :: 0 <= i < |marks| ==>
      START_ADDRESS + Extent(log, k) <= marks[i] < START_ADDRESS + Extent(log, k) + Size(log[k])
  }

  /** Byte d of record k after both fix-ups. */
  function FixedUp(log: seq<Record>, k: nat, textUsage: Word, page: Byte, zp: Byte, d: nat): Byte
    requires WellFormed(log) && k < |log| && d < |EmitRecord(log, k, textUsage)|
  {
    var address := START_ADDRESS + Extent(log, k) + d;
    ToByte(EmitRecord(log, k, textUsage)[d]
           + Adds(ZpMark(log, k), zp, address) + Adds(TextMark(log, k), page, address))
  }

  /** Record k asks for fix-ups inside itself only, and they turn its bytes into the moved ones. */
  ghost predicate Commutes(log: seq<Record>, k: nat, textUsage: Word, page: Byte, zp: Byte)
    requires WellFormed(log) && k < |log|
  {
    && InRecord(log, k, TextMark(log, k)) && InRecord(log, k, ZpMark(log, k))
    && |EmitRecord(Moved(log, page, zp), k, textUsage)| == |EmitRecord(log, k, textUsage)|
    && forall d :: 0 <= d < |EmitRecord(log, k, textUsage)| ==>
         FixedUp(log, k, textUsage, page, zp, d) == EmitRecord(Moved(log, page, zp), k, textUsage)[d]
  }

  /** The record emits the high half of a zero page operand. */
  predicate EmitsHigh(r: Record)
    requires r.Expr?
  {
    r.post == Msb || (r.post == None && (r.length == 3 || r.opcode == WORD_CONSTANT))
  }

  /**
   The operands the relocation format can express, by the symbol's kind:
   - text and BSS: a whole address, a `<` low half anywhere, a `>` high half in a word or an
     immediate; a long branch only without `<` or `>`;
   - zero page: everything, as long as moving does not carry into a high half that is emitted.
   */
  predicate Relocates(log: seq<Record>, k: nat, textUsage: Word, zp: Byte)
    requires WellFormed(log) && k < |log|
  {
    var r := log[k];
    r.Expr? ==>
      match log[r.variable].kind
      case Zp => EmitsHigh(r) ==> Lo(Value(log, r, textUsage)) + zp < 0x100
      case Text => RelocatesText(r)
      case Bss => RelocatesText(r)
      case _ => true
  }

  predicate RelocatesText(r: Record)
    requires r.Expr?
  {
    if IsRelative(r.opcode) then r.length == SHORT || r.post == None
    else if r.opcode == WORD_CONSTANT || r.length == 3 then true
    else if r.opcode == BYTE_CONSTANT then r.post == Lsb
    else r.post == Lsb || (r.post == Msb && GetInsnProps(r.opcode).imm)
  }

  /** The state the log is in after relaxation, in an image that fits the address space. */
  ghost predicate Ready(log: seq<Record>, textUsage: Word)
  {
    && WellFormed(log) && Sound(log) && Sized(log) && RealOpcodes(log)
    && textUsage == START_ADDRESS + Extent(log, |log|)
  }

  /** A word from its halves, of which the high one may be too big. */
  lemma WordOf(high: nat, lo: Byte)
    ensures ToWord(0x100 * high + lo) == 0x100 * ToByte(high) + lo
    ensures Lo(ToWord(0x100 * high + lo)) == lo && Hi(ToWord(0x100 * high + lo)) == ToByte(high)
  {
    var turns := high / 0x100;
    assert 0x100 * high + lo == 0x1_0000 * turns + (0x100 * ToByte(high) + lo);
    WholeTurns(0x100 * ToByte(high) + lo, turns);
  }

  lemma WholeTurns(x: int, k: int)
    ensures ToWord(x + 0x1_0000 * k) == ToWord(x)
  {
  }

  lemma AddPages(v: Word, page: Byte)
    ensures Lo(ToWord(v + 0x100 * page)) == Lo(v)
    ensures Hi(ToWord(v + 0x100 * page)) == ToByte(Hi(v) + page)
  {
    WordOf(Hi(v) + page, Lo(v));
    assert v + 0x100 * page == 0x100 * (Hi(v) + page) + Lo(v);
  }

  lemma AddZeroPage(v: Word, zp: Byte)
    ensures Lo(ToWord(v + zp)) == ToByte(Lo(v) + zp)
    ensures Hi(ToWord(v + zp)) == Hi(v) <==> Lo(v) + zp < 0x100
  {
    var lo: int, hi: int := Lo(v), Hi(v);
    if lo + zp < 0x100 {
      assert v + zp == 0x100 * hi + (lo + zp);
      WordOf(hi, lo + zp);
    } else {
      assert v + zp == 0x100 * (hi + 1) + (lo + zp - 0x100);
      WordOf(hi + 1, lo + zp - 0x100);
    }
  }

  /** What moving the labels does to the values of record k. */
  lemma MovedValues(log: seq<Record>, k: nat, textUsage: Word, page: Byte, zp: Byte)
    requires WellFormed(log) && k < |log| && log[k].Expr?
    ensures var moved := Moved(log, page, zp);
            var kind := log[log[k].variable].kind;
            && WellFormed(moved) && moved[k] == log[k] && Pc(moved, k) == Pc(log, k)
            && Value(moved, log[k], textUsage) == ToWord(Value(log, log[k], textUsage) + MovedBy(kind, page, zp))
            && Target(moved, log[k]) == ToWord(Target(log, log[k]) + MovedBy(kind, page, zp))
  {
    hide Pc, WellFormed, ToWord, MovedBy, Extent;
    MovedKeepsPlaces(log, page, zp, k);
    ExprSymbol(log, k);
    var r, symbol := log[k], log[log[k].variable];
    var shift := MovedBy(symbol.kind, page, zp);
    var bss := if symbol.kind == Kind.Bss then textUsage else 0;
    MovedSum(symbol.address, shift, r.offset + bss);
    MovedSum(symbol.address, shift, r.offset);
  }

  lemma ExprSymbol(log: seq<Record>, k: nat)
    requires WellFormed(log) && k < |log| && log[k].Expr?
    ensures log[k].variable < |log| && log[log[k].variable].Symbol?
  {
  }

  lemma MovedSum(address: int, shift: int, rest: int)
    ensures ToWord(rest + ToWord(address + shift)) == ToWord(ToWord(rest + address) + shift)
  {
    ToWordAdd(rest, address + shift);
    ToWordAdd(rest + address, shift);
  }

  /** In an image that fits, addresses do not wrap. */
  lemma ReadyPlaces(log: seq<Record>, textUsage: Word, k: nat)
    requires Ready(log, textUsage) && k < |log|
    ensures Pc(log, k) == START_ADDRESS + Extent(log, k)
    ensures START_ADDRESS + Extent(log, k) + Size(log[k]) <= textUsage
  {
    hide Sound, Sized, RealOpcodes, WellFormed, Size;
    ExtentMonotone(log, k + 1, |log|);
    NoWrap(START_ADDRESS + Extent(log, k));
  }

  lemma NoWrap(x: nat)
    ensures x < 0x1_0000 ==> ToWord(x) == x
  {
  }

  // ---------- one operand, counted from its record's first byte ----------

  /** An expression of the length a settled pass gives it. */
  predicate Settled(r: Record)
  {
    && r.Expr?
    && (r.opcode == BYTE_CONSTANT ==> r.length == 1)
    && (r.opcode == WORD_CONSTANT ==> r.length == 2)
    && (!IsConstant(r.opcode) && IsRelative(r.opcode) ==> r.length == SHORT || r.length == LONG)
    && (!IsConstant(r.opcode) && !IsRelative(r.opcode) ==> r.length == 2 || r.length == 3)
  }

  /** Where the mark of a text or BSS operand is. */
  function TextPlace(r: Record): seq<int>
    requires r.Expr?
  {
    if r.post != Lsb && (!IsRelative(r.opcode) || r.length != 2)
    then [r.length - 1 - if r.post == Msb && !GetInsnProps(r.opcode).imm then 1 else 0]
    else []
  }

  function ZpPlace(r: Record): seq<int>
    requires r.Expr?
  {
    if r.post != Msb then [if IsConstant(r.opcode) then 0 else 1] else []
  }

  /** Adding `addend` at the place turns the bytes `was` into `now`. */
  ghost predicate Turns(was: seq<Byte>, now: seq<Byte>, place: seq<int>, addend: Byte)
  {
    && |was| == |now|
    && (place != [] ==> 0 <= place[0] < |was|)
    && forall d :: 0 <= d < |was| ==> now[d] == ToByte(was[d] + Adds(place, addend, d))
  }

  function OperandBytes(r: Record, v: Word): seq<Byte>
    requires r.Expr?
  {
    EmitOperand(r, PostProcess(v, r.post))
  }

  /** The same bytes, from the halves of the value. */
  function FromHalves(r: Record, lo: Byte, hi: Byte): seq<Byte>
    requires r.Expr?
  {
    (if IsConstant(r.opcode) then [] else [r.opcode])
    + [if r.post == Msb then hi else lo]
    + if r.length == 3 || r.opcode == WORD_CONSTANT then [if r.post == None then hi else 0] else []
  }

  lemma OperandHalves(r: Record, v: Word)
    requires r.Expr?
    ensures OperandBytes(r, v) == FromHalves(r, Lo(v), Hi(v))
  {
  }

  lemma ConstantProps()
    ensures !GetInsnProps(WORD_CONSTANT).imm && !GetInsnProps(BYTE_CONSTANT).imm
    ensures !IsRelative(WORD_CONSTANT) && !IsRelative(BYTE_CONSTANT)
  {
  }

  lemma RelativeIsNotImmediate(opcode: Byte)
    ensures IsRelative(opcode) ==> !GetInsnProps(opcode).imm
  {
  }

  /** A long operand is never an immediate one. */
  lemma LongIsNotImmediate(opcode: Byte)
    ensures GetInsnLength(opcode) == 3 ==> !GetInsnProps(opcode).imm
  {
  }

  lemma OneOff(b: Byte)
    ensures ToByte(b) == b && ToByte(b + 0) == b && ToByte(b + 1) != b
  {
  }

  lemma TextHalves(r: Record, lo: Byte, hi: Byte, page: Byte)
    requires Settled(r) && !IsRelative(r.opcode)
    requires IsConstant(r.opcode) || r.length == 3 ==> !GetInsnProps(r.opcode).imm
    ensures var was, now := FromHalves(r, lo, hi), FromHalves(r, lo, ToByte(hi + page));
            && (RelocatesText(r) ==> Turns(was, now, TextPlace(r), page))
            && (!RelocatesText(r) && page == 1 ==> !Turns(was, now, TextPlace(r), page))
  {
    var was, now := FromHalves(r, lo, hi), FromHalves(r, lo, ToByte(hi + page));
    HalvesAre(r, lo, hi);
    HalvesAre(r, lo, ToByte(hi + page));
    OneOff(lo);
    OneOff(hi);
    OneOff(0);
    OneOff(r.opcode);
    ConstantProps();
    hide GetInsnProps, FromHalves, ToByte;
    if !RelocatesText(r) && page == 1 {
      var d := if IsConstant(r.opcode) then 0 else 1;
      assert now[d] != ToByte(was[d] + Adds(TextPlace(r), page, d));
    }
  }

  lemma HalvesAre(r: Record, lo: Byte, hi: Byte)
    requires Settled(r) && !IsRelative(r.opcode)
    ensures var low, high := (if r.post == Msb then hi else lo), (if r.post == None then hi else 0);
            FromHalves(r, lo, hi)
            == if r.opcode == BYTE_CONSTANT then [low]
               else if r.opcode == WORD_CONSTANT then [low, high]
               else if r.length == 3 then [r.opcode, low, high]
               else [r.opcode, low]
  {
    hide GetInsnProps, IsRelative;
  }

  lemma TextOperand(r: Record, v: Word, page: Byte)
    requires Settled(r) && !IsRelative(r.opcode)
    requires !IsConstant(r.opcode) && r.length == 3 ==> !GetInsnProps(r.opcode).imm
    ensures var was, now := OperandBytes(r, v), OperandBytes(r, ToWord(v + 0x100 * page));
            && (RelocatesText(r) ==> Turns(was, now, TextPlace(r), page))
            && (!RelocatesText(r) && page == 1 ==> !Turns(was, now, TextPlace(r), page))
  {
    ConstantProps();
    AddPages(v, page);
    OperandHalves(r, v);
    OperandHalves(r, ToWord(v + 0x100 * page));
    hide OperandBytes, FromHalves, Lo, Hi, ToWord, ToByte, GetInsnProps, Turns, RelocatesText, TextPlace;
    TextHalves(r, Lo(v), Hi(v), page);
  }

  lemma ZpHalves(r: Record, lo: Byte, hi: Byte, hi': Byte, zp: Byte)
    requires Settled(r) && !IsRelative(r.opcode)
    ensures Turns(FromHalves(r, lo, hi), FromHalves(r, ToByte(lo + zp), hi'), ZpPlace(r), zp)
       <==> (EmitsHigh(r) ==> hi' == hi)
  {
    hide GetInsnProps;
    var was, now := FromHalves(r, lo, hi), FromHalves(r, ToByte(lo + zp), hi');
    if EmitsHigh(r) {
      var high := if r.post == Msb then (if IsConstant(r.opcode) then 0 else 1)
                  else (if IsConstant(r.opcode) then 1 else 2);
      assert was[high] == hi && now[high] == hi' && Adds(ZpPlace(r), zp, high) == 0;
    }
  }

  lemma ZpOperand(r: Record, v: Word, zp: Byte)
    requires Settled(r) && !IsRelative(r.opcode)
    ensures Turns(OperandBytes(r, v), OperandBytes(r, ToWord(v + zp)), ZpPlace(r), zp)
       <==> (EmitsHigh(r) ==> Lo(v) + zp < 0x100)
  {
    AddZeroPage(v, zp);
    OperandHalves(r, v);
    OperandHalves(r, ToWord(v + zp));
    hide OperandBytes, FromHalves, Lo, Hi, ToWord, ToByte, GetInsnProps, Turns, ZpPlace, EmitsHigh;
    ZpHalves(r, Lo(v), Hi(v), Hi(ToWord(v + zp)), zp);
  }

  lemma BranchBytes(r: Record, target: Word, pc: Byte, page: Byte)
    requires Settled(r) && IsRelative(r.opcode)
    ensures var was, now := EmitBranch(r, target, pc), EmitBranch(r, ToWord(target + 0x100 * page), pc);
            && (RelocatesText(r) ==> Turns(was, now, TextPlace(r), page))
            && (!RelocatesText(r) && page == 1 ==> !Turns(was, now, TextPlace(r), page))
  {
    ConstantProps();
    RelativeIsNotImmediate(r.opcode);
    AddPages(target, page);
    SameLowByte(target, page, pc);
    hide GetInsnProps, Invert, Lo, Hi, ToWord;
    var was, now := EmitBranch(r, target, pc), EmitBranch(r, ToWord(target + 0x100 * page), pc);
    if r.length != 2 && !RelocatesText(r) && page == 1 {
      OneOff(Hi(target));
      assert now[4] != ToByte(was[4] + Adds(TextPlace(r), page, 4));
    }
  }

  lemma SameLowByte(target: Word, page: Byte, pc: Byte)
    ensures ToByte(ToWord(target + 0x100 * page) - pc - 2) == ToByte(target - pc - 2)
  {
    AddPages(target, page);
    var moved: int := ToWord(target + 0x100 * page);
    assert moved - pc - 2 == 0x100 * Hi(moved) + (Lo(target) - pc - 2);
    assert target - pc - 2 == 0x100 * Hi(target) + (Lo(target) - pc - 2);
  }

  // ---------- one record ----------

  lemma ReadySettled(log: seq<Record>, textUsage: Word, k: nat)
    requires Ready(log, textUsage) && k < |log| && log[k].Expr?
    ensures Settled(log[k])
    ensures !IsConstant(log[k].opcode) && log[k].length == 3 ==> !GetInsnProps(log[k].opcode).imm
    ensures log[log[k].variable].kind == Kind.Zp ==> !IsRelative(log[k].opcode)
  {
    var r := log[k];
    ConstantProps();
    LongIsNotImmediate(r.opcode);
    hide GetB, Displacement;
    if IsBranch(r.opcode) {
      InvertInverts(r.opcode, Flags(false, false, false, false));
    }
    assert GetInsnLength(r.opcode) <= 3;
    assert !Branches(r) ==> r.length == FixedLength(log, r);
    assert Branches(r) ==> log[r.variable].kind == Text;
  }

  function At(place: seq<int>, start: nat): seq<int>
  {
    if place == [] then [] else [start + place[0]]
  }

  lemma MarksArePlaces(log: seq<Record>, textUsage: Word, k: nat)
    requires Ready(log, textUsage) && k < |log|
    ensures var r, start := log[k], START_ADDRESS + Extent(log, k);
            && (r.Expr? && log[r.variable].kind in {Kind.Text, Kind.Bss} ==>
                  TextMark(log, k) == At(TextPlace(r), start) && ZpMark(log, k) == [])
            && (r.Expr? && log[r.variable].kind == Kind.Zp ==>
                  TextMark(log, k) == [] && ZpMark(log, k) == At(ZpPlace(r), start))
            && (!r.Expr? || log[r.variable].kind !in {Kind.Text, Kind.Bss, Kind.Zp} ==>
                  TextMark(log, k) == [] && ZpMark(log, k) == [])
  {
    if log[k].Expr? {
      if log[log[k].variable].kind in {Kind.Text, Kind.Bss} {
        TextMarkIsPlace(log, textUsage, k);
      } else if log[log[k].variable].kind == Kind.Zp {
        ZpMarkIsPlace(log, textUsage, k);
      }
    }
    hide Extent, TextPlace, ZpPlace, Ready;
  }

  lemma TextMarkIsPlace(log: seq<Record>, textUsage: Word, k: nat)
    requires Ready(log, textUsage) && k < |log| && log[k].Expr? && log[log[k].variable].kind in {Kind.Text, Kind.Bss}
    ensures TextMark(log, k) == At(TextPlace(log[k]), START_ADDRESS + Extent(log, k))
  {
    ReadyPlaces(log, textUsage, k);
    ReadySettled(log, textUsage, k);
    ConstantProps();
    hide Pc, Extent, GetInsnProps, Sound, Sized, RealOpcodes, WellFormed;
    var r, pc: int := log[k], Pc(log, k);
    NoWrap(pc + r.length - 1);
    NoWrap(pc + r.length - 2);
  }

  lemma ZpMarkIsPlace(log: seq<Record>, textUsage: Word, k: nat)
    requires Ready(log, textUsage) && k < |log| && log[k].Expr? && log[log[k].variable].kind == Kind.Zp
    ensures ZpMark(log, k) == At(ZpPlace(log[k]), START_ADDRESS + Extent(log, k))
  {
    ReadyPlaces(log, textUsage, k);
    ReadySettled(log, textUsage, k);
    ConstantProps();
    hide Pc, Extent, GetInsnProps, Sound, Sized, RealOpcodes, WellFormed;
    var pc: int := Pc(log, k);
    NoWrap(pc);
    NoWrap(pc + 1);
  }

  lemma CommutesByText(log: seq<Record>, k: nat, textUsage: Word, page: Byte, zp: Byte, place: seq<int>)
    requires WellFormed(log) && k < |log| && |EmitRecord(log, k, textUsage)| == Size(log[k])
    requires TextMark(log, k) == At(place, START_ADDRESS + Extent(log, k)) && ZpMark(log, k) == []
    ensures WellFormed(Moved(log, page, zp))
    ensures Commutes(log, k, textUsage, page, zp)
       <==> Turns(EmitRecord(log, k, textUsage), EmitRecord(Moved(log, page, zp), k, textUsage), place, page)
  {
    hide EmitRecord, TextMark, ZpMark, Extent, WellFormed, Moved, Size, ToByte;
    var was, now := EmitRecord(log, k, textUsage), EmitRecord(Moved(log, page, zp), k, textUsage);
    assert forall d :: 0 <= d < |was| ==>
      FixedUp(log, k, textUsage, page, zp, d) == ToByte(was[d] + Adds(place, page, d));
  }

  lemma CommutesByZp(log: seq<Record>, k: nat, textUsage: Word, page: Byte, zp: Byte, place: seq<int>)
    requires WellFormed(log) && k < |log| && |EmitRecord(log, k, textUsage)| == Size(log[k])
    requires ZpMark(log, k) == At(place, START_ADDRESS + Extent(log, k)) && TextMark(log, k) == []
    ensures WellFormed(Moved(log, page, zp))
    ensures Commutes(log, k, textUsage, page, zp)
       <==> Turns(EmitRecord(log, k, textUsage), EmitRecord(Moved(log, page, zp), k, textUsage), place, zp)
  {
    hide EmitRecord, TextMark, ZpMark, Extent, WellFormed, Moved, Size, ToByte;
    var was, now := EmitRecord(log, k, textUsage), EmitRecord(Moved(log, page, zp), k, textUsage);
    assert forall d :: 0 <= d < |was| ==>
      FixedUp(log, k, textUsage, page, zp, d) == ToByte(was[d] + Adds(place, zp, d));
  }

  /** Nothing is marked, so nothing may move. */
  lemma CommutesUnmarked(log: seq<Record>, k: nat, textUsage: Word, page: Byte, zp: Byte)
    requires WellFormed(log) && k < |log| && TextMark(log, k) == [] && ZpMark(log, k) == []
    requires WellFormed(Moved(log, page, zp))
    requires EmitRecord(Moved(log, page, zp), k, textUsage) == EmitRecord(log, k, textUsage)
    ensures Commutes(log, k, textUsage, page, zp)
  {
    hide EmitRecord, TextMark, ZpMark, Extent, WellFormed, Moved, Size;
    var was := EmitRecord(log, k, textUsage);
    forall d | 0 <= d < |was|
      ensures ToByte(was[d]) == was[d]
    {
      OneOff(was[d]);
    }
  }

  /** The record's bytes, before and after moving, in terms of the value it names. */
  lemma MovedBytes(log: seq<Record>, k: nat, textUsage: Word, page: Byte, zp: Byte)
    requires WellFormed(log) && k < |log| && log[k].Expr?
    ensures var r, moved := log[k], Moved(log, page, zp);
            var shift := MovedBy(log[r.variable].kind, page, zp);
            && WellFormed(moved) && r.variable < |log| && log[r.variable].Symbol?
            && (IsRelative(r.opcode) ==>
                  && EmitRecord(log, k, textUsage) == EmitBranch(r, Target(log, r), Lo(Pc(log, k)))
                  && EmitRecord(moved, k, textUsage) == EmitBranch(r, ToWord(Target(log, r) + shift), Lo(Pc(log, k))))
            && (!IsRelative(r.opcode) ==>
                  && EmitRecord(log, k, textUsage) == OperandBytes(r, Value(log, r, textUsage))
                  && EmitRecord(moved, k, textUsage) == OperandBytes(r, ToWord(Value(log, r, textUsage) + shift)))
  {
    MovedValues(log, k, textUsage, page, zp);
  }

  lemma TextFacts(log: seq<Record>, k: nat, textUsage: Word, page: Byte, zp: Byte)
    requires Ready(log, textUsage) && k < |log| && log[k].Expr?
    requires log[log[k].variable].kind in {Kind.Text, Kind.Bss}
    ensures WellFormed(log) && |EmitRecord(log, k, textUsage)| == Size(log[k])
    ensures TextMark(log, k) == At(TextPlace(log[k]), START_ADDRESS + Extent(log, k)) && ZpMark(log, k) == []
    ensures MovedBy(log[log[k].variable].kind, page, zp) == 0x100 * page
  {
    RelaxedIsMeasured(log, textUsage);
    MarksArePlaces(log, textUsage, k);
    hide Extent, EmitRecord, TextPlace, TextMark, ZpMark, At, Sound, Sized, RealOpcodes;
  }

  lemma ZpFacts(log: seq<Record>, k: nat, textUsage: Word, page: Byte, zp: Byte)
    requires Ready(log, textUsage) && k < |log| && log[k].Expr?
    requires log[log[k].variable].kind == Kind.Zp
    ensures WellFormed(log) && |EmitRecord(log, k, textUsage)| == Size(log[k])
    ensures ZpMark(log, k) == At(ZpPlace(log[k]), START_ADDRESS + Extent(log, k)) && TextMark(log, k) == []
    ensures MovedBy(log[log[k].variable].kind, page, zp) == zp
  {
    RelaxedIsMeasured(log, textUsage);
    MarksArePlaces(log, textUsage, k);
    hide Extent, EmitRecord, ZpPlace, TextMark, ZpMark, At, Sound, Sized, RealOpcodes;
  }

  lemma TextCommutes(log: seq<Record>, k: nat, textUsage: Word, page: Byte, zp: Byte)
    requires Ready(log, textUsage) && k < |log| && log[k].Expr?
    requires log[log[k].variable].kind in {Kind.Text, Kind.Bss}
    ensures RelocatesText(log[k]) ==> Commutes(log, k, textUsage, page, zp)
    ensures !RelocatesText(log[k]) && page == 1 ==> !Commutes(log, k, textUsage, page, zp)
  {
    hide *;
    var r := log[k];
    TextFacts(log, k, textUsage, page, zp);
    ReadySettled(log, textUsage, k);
    MovedBytes(log, k, textUsage, page, zp);
    CommutesByText(log, k, textUsage, page, zp, TextPlace(r));
    if IsRelative(r.opcode) {
      BranchBytes(r, Target(log, r), Lo(Pc(log, k)), page);
    } else {
      TextOperand(r, Value(log, r, textUsage), page);
    }
  }

  lemma ZpCommutes(log: seq<Record>, k: nat, textUsage: Word, page: Byte, zp: Byte)
    requires Ready(log, textUsage) && k < |log| && log[k].Expr?
    requires log[log[k].variable].kind == Kind.Zp
    ensures Commutes(log, k, textUsage, page, zp)
       <==> (EmitsHigh(log[k]) ==> Lo(Value(log, log[k], textUsage)) + zp < 0x100)
  {
    hide *;
    var r := log[k];
    ZpFacts(log, k, textUsage, page, zp);
    ReadySettled(log, textUsage, k);
    MovedBytes(log, k, textUsage, page, zp);
    CommutesByZp(log, k, textUsage, page, zp, ZpPlace(r));
    ZpOperand(r, Value(log, r, textUsage), zp);
  }

  lemma CommutesIsRelocates(log: seq<Record>, k: nat, textUsage: Word, page: Byte, zp: Byte)
    requires Ready(log, textUsage) && k < |log| && log[k].Expr?
    ensures Relocates(log, k, textUsage, zp) ==> Commutes(log, k, textUsage, page, zp)
    ensures !Relocates(log, k, textUsage, zp) && page == 1 ==> !Commutes(log, k, textUsage, page, zp)
  {
    var r := log[k];
    var kind := log[r.variable].kind;
    if kind == Kind.Text || kind == Kind.Bss {
      TextCommutes(log, k, textUsage, page, zp);
    } else if kind == Kind.Zp {
      ZpCommutes(log, k, textUsage, page, zp);
    } else {
      MarksArePlaces(log, textUsage, k);
      MovedBytes(log, k, textUsage, page, zp);
      ValueUnmoved(Value(log, r, textUsage));
      ValueUnmoved(Target(log, r));
      hide EmitRecord, TextMark, ZpMark, Ready, Moved, WellFormed, Pc, Value, Target, EmitBranch, OperandBytes, ToWord, IsRelative;
      CommutesUnmarked(log, k, textUsage, page, zp);
    }
  }

  lemma ValueUnmoved(v: Word)
    ensures ToWord(v + 0) == v
  {
  }

  /** Exactly the operands of the listed forms survive relocation, whatever page it is for. */
  lemma OperandsThatRelocate(log: seq<Record>, k: nat, textUsage: Word, zp: Byte)
    requires Ready(log, textUsage) && k < |log|
    ensures (forall page: Byte :: Commutes(log, k, textUsage, page, zp)) <==> Relocates(log, k, textUsage, zp)
  {
    if log[k].Expr? {
      forall page: Byte
        ensures Relocates(log, k, textUsage, zp) ==> Commutes(log, k, textUsage, page, zp)
      {
        CommutesIsRelocates(log, k, textUsage, page, zp);
      }
      CommutesIsRelocates(log, k, textUsage, 1, zp);
    } else {
      MarksArePlaces(log, textUsage, k);
      forall page: Byte
        ensures Commutes(log, k, textUsage, page, zp)
      {
        CommutesUnmarked(log, k, textUsage, page, zp);
      }
    }
  }

  // ---------- the whole image ----------

  function Gather(lists: seq<seq<Word>>, n: nat): seq<Word>
    requires n <= |lists|
  {
    if n == 0 then [] else Gather(lists, n - 1) + lists[n - 1]
  }

  lemma {:induction false} HitsConcat(base: Word, xs: seq<Word>, ys: seq<Word>, address: Word)
    ensures Hits(base, xs + ys, address) == Hits(base, xs, address) + Hits(base, ys, address)
  {
    if xs == [] {
      assert xs + ys == ys;
    } else {
      assert (xs + ys)[1..] == xs[1..] + ys;
      HitsConcat(base, xs[1..], ys, address);
    }
  }

  /** The single mark of a record. */
  lemma HitsMark(base: Word, mark: seq<Word>, address: Word, place: int)
    requires |mark| <= 1 && (mark != [] ==> base + mark[0] < 0x1_0000) && address == base + place
    ensures Hits(base, mark, address) == if mark != [] && mark[0] == place then 1 else 0
  {
    if mark != [] {
      assert mark[1..] == [];
      assert Hits(base, mark[1..], address) == 0;
    }
  }

  /** Marks of the first n records, each of which marks at most one byte, of its own. */
  ghost predicate OwnMarks(log: seq<Record>, lists: seq<seq<Word>>)
  {
    && |lists| == |log|
    && forall k :: 0 <= k < |log| ==> |lists[k]| <= 1 && InRecord(log, k, lists[k])
  }

  /** A byte of record k is marked by record k or not at all. */
  lemma {:induction false} HitsInRecord(log: seq<Record>, lists: seq<seq<Word>>, n: nat, base: Word, k: nat, d: nat)
    requires OwnMarks(log, lists) && n <= |log| && k < |log| && d < Size(log[k])
    requires base + START_ADDRESS + Extent(log, |log|) <= 0x1_0000
    ensures START_ADDRESS + Extent(log, k) + d < START_ADDRESS + Extent(log, |log|)
    ensures Hits(base, Gather(lists, n), base + START_ADDRESS + Extent(log, k) + d)
         == if k < n then Adds(lists[k], 1, START_ADDRESS + Extent(log, k) + d) else 0
  {
    ExtentMonotone(log, k + 1, |log|);
    if n > 0 {
      var place := START_ADDRESS + Extent(log, k) + d;
      HitsInRecord(log, lists, n - 1, base, k, d);
      HitsConcat(base, Gather(lists, n - 1), lists[n - 1], base + place);
      ExtentMonotone(log, n, |log|);
      HitsMark(base, lists[n - 1], base + place, place);
      if n - 1 < k {
        ExtentMonotone(log, n, k);
      } else if n - 1 > k {
        ExtentMonotone(log, k + 1, n - 1);
      }
    }
  }

  /** No byte outside the code is marked by a record. */
  lemma {:induction false} HitsElsewhere(log: seq<Record>, lists: seq<seq<Word>>, n: nat, base: Word, address: Word)
    requires OwnMarks(log, lists) && n <= |log|
    requires base + START_ADDRESS + Extent(log, |log|) <= 0x1_0000
    requires address < base + START_ADDRESS || address >= base + START_ADDRESS + Extent(log, |log|)
    ensures Hits(base, Gather(lists, n), address) == 0
  {
    if n > 0 {
      HitsElsewhere(log, lists, n - 1, base, address);
      HitsConcat(base, Gather(lists, n - 1), lists[n - 1], address);
      ExtentMonotone(log, n, |log|);
      HitsMark(base, lists[n - 1], address, address - base);
    }
  }

  function TextLists(log: seq<Record>): (lists: seq<seq<Word>>)
    requires WellFormed(log)
    ensures |lists| == |log|
  {
    seq(|log|, k requires 0 <= k < |log| => TextMark(log, k))
  }

  function ZpLists(log: seq<Record>): (lists: seq<seq<Word>>)
    requires WellFormed(log)
    ensures |lists| == |log|
  {
    seq(|log|, k requires 0 <= k < |log| => ZpMark(log, k))
  }

  lemma {:induction false} MarksGathered(log: seq<Record>, n: nat)
    requires WellFormed(log) && n <= |log|
    ensures TextMarks(log, n) == [3] + Gather(TextLists(log), n)
    ensures ZpMarks(log, n) == Gather(ZpLists(log), n)
  {
    hide TextMark, ZpMark, WellFormed;
    if n > 0 {
      MarksGathered(log, n - 1);
      assert [3] + (Gather(TextLists(log), n - 1) + TextMark(log, n - 1))
          == [3] + Gather(TextLists(log), n - 1) + TextMark(log, n - 1);
    }
  }

  /** `>` on a one-byte constant: the mark is one byte too early, on the record before. */
  predicate Strays(log: seq<Record>, k: nat)
    requires WellFormed(log) && k < |log|
  {
    var r := log[k];
    r.Expr? && r.opcode == BYTE_CONSTANT && r.post == Msb && log[r.variable].kind in {Kind.Text, Kind.Bss}
  }

  ghost predicate NoStrayMarks(log: seq<Record>)
    requires WellFormed(log)
  {
    forall k :: 0 <= k < |log| ==> !Strays(log, k)
  }

  lemma MarkInside(log: seq<Record>, textUsage: Word, k: nat)
    requires Ready(log, textUsage) && k < |log|
    ensures InRecord(log, k, ZpMark(log, k))
    ensures InRecord(log, k, TextMark(log, k)) <==> !Strays(log, k)
  {
    MarksArePlaces(log, textUsage, k);
    if log[k].Expr? {
      ReadySettled(log, textUsage, k);
      ZpPlaceInside(log[k]);
      TextPlaceInside(log[k]);
      if TextMark(log, k) != [] {
        MarkAt(log, k, TextMark(log, k), TextPlace(log[k]));
      }
      if ZpMark(log, k) != [] {
        MarkAt(log, k, ZpMark(log, k), ZpPlace(log[k]));
      }
    }
    hide TextPlace, ZpPlace, TextMark, ZpMark, Extent, Sound, Sized, RealOpcodes, WellFormed, Settled, IsRelative;
  }

  lemma MarkAt(log: seq<Record>, k: nat, marks: seq<Word>, place: seq<int>)
    requires k < |log| && |place| == 1 && marks == At(place, START_ADDRESS + Extent(log, k))
    ensures InRecord(log, k, marks) <==> 0 <= place[0] < Size(log[k])
  {
    assert marks[0] == START_ADDRESS + Extent(log, k) + place[0];
    hide Extent, Size;
  }

  lemma ZpPlaceInside(r: Record)
    requires Settled(r)
    ensures |ZpPlace(r)| <= 1 && (ZpPlace(r) != [] ==> 0 <= ZpPlace(r)[0] && (!IsRelative(r.opcode) ==> ZpPlace(r)[0] < r.length))
  {
    hide GetInsnProps;
  }

  lemma TextPlaceInside(r: Record)
    requires Settled(r)
    ensures |TextPlace(r)| <= 1
    ensures TextPlace(r) != [] ==> (0 <= TextPlace(r)[0] < r.length <==> !(r.opcode == BYTE_CONSTANT && r.post == Msb))
    ensures r.opcode == BYTE_CONSTANT && r.post == Msb ==> TextPlace(r) != []
  {
    ConstantProps();
    hide GetInsnProps;
  }

  /** Those apart, every mark is on a byte of its own record. */
  lemma OwnMarksExactly(log: seq<Record>, textUsage: Word)
    requires Ready(log, textUsage)
    ensures OwnMarks(log, TextLists(log)) && OwnMarks(log, ZpLists(log)) <==> NoStrayMarks(log)
  {
    MarkCounts(log);
    forall k | 0 <= k < |log|
      ensures InRecord(log, k, ZpLists(log)[k])
      ensures InRecord(log, k, TextLists(log)[k]) <==> !Strays(log, k)
    {
      MarkInside(log, textUsage, k);
    }
    hide InRecord, Strays, TextMark, ZpMark, Ready, WellFormed;
  }

  lemma RelocatingDoesNotStray(log: seq<Record>, textUsage: Word, zp: Byte)
    requires Ready(log, textUsage) && AllRelocate(log, textUsage, zp)
    ensures NoStrayMarks(log)
  {
    hide EmitsHigh, Value, Sound, RealOpcodes, GetInsnProps;
    ConstantProps();
    forall k | 0 <= k < |log|
      ensures !Strays(log, k)
    {
      assert Relocates(log, k, textUsage, zp);
      if log[k].Expr? {
        ReadySettled(log, textUsage, k);
      }
    }
  }

  /** Every operand of the log is one the format can express. */
  ghost predicate AllRelocate(log: seq<Record>, textUsage: Word, zp: Byte)
    requires WellFormed(log)
  {
    forall k :: 0 <= k < |log| ==> Relocates(log, k, textUsage, zp)
  }

  ghost predicate AllCommute(log: seq<Record>, textUsage: Word, page: Byte, zp: Byte)
    requires WellFormed(log)
  {
    forall k :: 0 <= k < |log| ==> Commutes(log, k, textUsage, page, zp)
  }

  lemma OperandsCommute(log: seq<Record>, textUsage: Word, page: Byte, zp: Byte)
    requires Ready(log, textUsage) && AllRelocate(log, textUsage, zp)
    ensures AllCommute(log, textUsage, page, zp)
    ensures OwnMarks(log, TextLists(log)) && OwnMarks(log, ZpLists(log))
  {
    hide Relocates, Sound, Sized, RealOpcodes;
    forall k | 0 <= k < |log|
      ensures Commutes(log, k, textUsage, page, zp)
    {
      OperandsThatRelocate(log, k, textUsage, zp);
    }
    RelocatingDoesNotStray(log, textUsage, zp);
    OwnMarksExactly(log, textUsage);
  }

  lemma MarkCounts(log: seq<Record>)
    requires WellFormed(log)
    ensures forall k :: 0 <= k < |log| ==> |TextMark(log, k)| <= 1 && |ZpMark(log, k)| <= 1
  {
    hide Pc, GetInsnProps;
  }

  lemma {:induction false} CodeAt(log: seq<Record>, n: nat, textUsage: Word, k: nat, d: nat)
    requires WellFormed(log) && Measured(log, textUsage) && k < n <= |log| && d < Size(log[k])
    ensures d < |EmitRecord(log, k, textUsage)|
    ensures Extent(log, k) + d < |Code(log, n, textUsage)|
    ensures Code(log, n, textUsage)[Extent(log, k) + d] == EmitRecord(log, k, textUsage)[d]
  {
    hide EmitRecord, WellFormed, Size;
    CodeSize(log, n, textUsage);
    CodeSize(log, n - 1, textUsage);
    if k < n - 1 {
      ExtentMonotone(log, k + 1, n - 1);
      CodeAt(log, n - 1, textUsage, k, d);
    }
  }

  /** The record a byte of the code belongs to, and its place there. */
  lemma {:induction false} Locate(log: seq<Record>, n: nat, i: nat) returns (k: nat, d: nat)
    requires n <= |log| && i < Extent(log, n)
    ensures k < n && d < Size(log[k]) && i == Extent(log, k) + d
  {
    if i < Extent(log, n - 1) {
      k, d := Locate(log, n - 1, i);
    } else {
      k, d := n - 1, i - Extent(log, n - 1);
    }
  }

  ghost predicate Loaded(mem: seq<Byte>, base: nat, bytes: seq<Byte>)
  {
    && base + |bytes| <= |mem|
    && forall i :: 0 <= i < |bytes| ==> mem[base + i] == bytes[i]
  }

  /** Memory after both passes over the marks of a log. */
  function Relocated(mem: seq<Byte>, base: Word, log: seq<Record>, page: Byte, zp: Byte): (r: seq<Byte>)
    requires |mem| == 0x1_0000 && WellFormed(log)
    ensures |r| == |mem|
  {
    AddAll(AddAll(mem, base, ZpMarks(log, |log|), zp), base, TextMarks(log, |log|), page)
  }

  lemma RelocatedAt(mem: seq<Byte>, base: Word, log: seq<Record>, page: Byte, zp: Byte, address: Word)
    requires |mem| == 0x1_0000 && WellFormed(log)
    ensures var z, t := Hits(base, ZpMarks(log, |log|), address), Hits(base, TextMarks(log, |log|), address);
            && (z <= 1 && t <= 1 ==>
                  Relocated(mem, base, log, page, zp)[address]
                  == ToByte(mem[address] + (if z == 1 then zp else 0) + if t == 1 then page else 0))
            && (z == 0 && t == 0 ==> Relocated(mem, base, log, page, zp)[address] == mem[address])
  {
    hide *;
    var z, t := Hits(base, ZpMarks(log, |log|), address), Hits(base, TextMarks(log, |log|), address);
    var mem' := AddAll(mem, base, ZpMarks(log, |log|), zp);
    AddAllAt(mem, base, ZpMarks(log, |log|), zp, address);
    AddAllAt(mem', base, TextMarks(log, |log|), page, address);
    RelocatedIs(mem, base, log, page, zp);
    if z <= 1 && t <= 1 {
      AddedTwice(mem[address], zp, z, page, t);
    }
  }

  lemma RelocatedIs(mem: seq<Byte>, base: Word, log: seq<Record>, page: Byte, zp: Byte)
    requires |mem| == 0x1_0000 && WellFormed(log)
    ensures Relocated(mem, base, log, page, zp)
         == AddAll(AddAll(mem, base, ZpMarks(log, |log|), zp), base, TextMarks(log, |log|), page)
  {
  }

  lemma AddedTwice(m: Byte, zp: Byte, z: nat, page: Byte, t: nat)
    requires z <= 1 && t <= 1
    ensures ToByte(ToByte(m + zp * z) + page * t)
         == ToByte(m + (if z == 1 then zp else 0) + if t == 1 then page else 0)
    ensures z == 0 && t == 0 ==> ToByte(ToByte(m + zp * z) + page * t) == m
  {
    var a, b := (if z == 1 then zp else 0), (if t == 1 then page else 0);
    assert zp * z == a && page * t == b;
    ToByteAdd(m + a, b);
    OneOff(m);
  }

  /** Where the relocation marks of a log fall in a memory that holds its image at `base`. */
  lemma HeaderMarks(log: seq<Record>, base: Word, i: nat)
    requires WellFormed(log) && OwnMarks(log, TextLists(log)) && OwnMarks(log, ZpLists(log))
    requires base + START_ADDRESS + Extent(log, |log|) <= 0x1_0000 && i < START_ADDRESS
    ensures Hits(base, ZpMarks(log, |log|), base + i) == 0
    ensures Hits(base, TextMarks(log, |log|), base + i) == if i == 3 then 1 else 0
  {
    hide OwnMarks, ZpMarks, TextMarks, Gather, TextLists, ZpLists, WellFormed, Extent, Hits;
    MarksGathered(log, |log|);
    HitsElsewhere(log, ZpLists(log), |log|, base, base + i);
    HitsElsewhere(log, TextLists(log), |log|, base, base + i);
    HitsConcat(base, [3], Gather(TextLists(log), |log|), base + i);
    HitsMark(base, [3], base + i, i);
  }

  lemma OutsideMarks(log: seq<Record>, base: Word, address: Word)
    requires WellFormed(log) && OwnMarks(log, TextLists(log)) && OwnMarks(log, ZpLists(log))
    requires base + START_ADDRESS + Extent(log, |log|) <= 0x1_0000
    requires address < base || address >= base + START_ADDRESS + Extent(log, |log|)
    ensures Hits(base, ZpMarks(log, |log|), address) == 0
    ensures Hits(base, TextMarks(log, |log|), address) == 0
  {
    hide OwnMarks, ZpMarks, TextMarks, Gather, TextLists, ZpLists, WellFormed, Extent, Hits;
    MarksGathered(log, |log|);
    HitsElsewhere(log, ZpLists(log), |log|, base, address);
    HitsElsewhere(log, TextLists(log), |log|, base, address);
    HitsConcat(base, [3], Gather(TextLists(log), |log|), address);
    HitsMark(base, [3], address, address - base);
  }

  lemma CodeMarks(log: seq<Record>, base: Word, k: nat, d: nat)
    requires WellFormed(log) && OwnMarks(log, TextLists(log)) && OwnMarks(log, ZpLists(log))
    requires base + START_ADDRESS + Extent(log, |log|) <= 0x1_0000 && k < |log| && d < Size(log[k])
    ensures var place := START_ADDRESS + Extent(log, k) + d;
            && base + place < 0x1_0000
            && Hits(base, ZpMarks(log, |log|), base + place) == Adds(ZpMark(log, k), 1, place)
            && Hits(base, TextMarks(log, |log|), base + place) == Adds(TextMark(log, k), 1, place)
  {
    var place := START_ADDRESS + Extent(log, k) + d;
    assert TextLists(log)[k] == TextMark(log, k) && ZpLists(log)[k] == ZpMark(log, k);
    hide OwnMarks, ZpMarks, TextMarks, Gather, TextLists, ZpLists, WellFormed, Extent, Hits, TextMark, ZpMark;
    MarksGathered(log, |log|);
    HitsInRecord(log, ZpLists(log), |log|, base, k, d);
    HitsInRecord(log, TextLists(log), |log|, base, k, d);
    HitsConcat(base, [3], Gather(TextLists(log), |log|), base + place);
    HitsMark(base, [3], base + place, place);
  }

  /**
   Relocation commutes with assembly: an image of settled, expressible operands, loaded at any
   base, becomes the image assembled with moved labels, and nothing around it changes.
   */
  lemma RelocationCommutes(mem: seq<Byte>, base: Word, log: seq<Record>, zpUsage: Byte, textUsage: Word,
                           page: Byte, zp: Byte)
    requires |mem| == 0x1_0000 && Ready(log, textUsage) && AllRelocate(log, textUsage, zp)
    requires Loaded(mem, base, Image(log, zpUsage, textUsage))
    ensures Loaded(Relocated(mem, base, log, page, zp), base, MovedImage(log, zpUsage, textUsage, page, zp))
    ensures |MovedImage(log, zpUsage, textUsage, page, zp)| == |Image(log, zpUsage, textUsage)| == textUsage
    ensures forall a :: 0 <= a < 0x1_0000 && (a < base || a >= base + textUsage) ==>
              Relocated(mem, base, log, page, zp)[a] == mem[a]
  {
    OperandsCommute(log, textUsage, page, zp);
    ImageSizes(log, zpUsage, textUsage, page, zp);
    hide OwnMarks, AllRelocate, AllCommute, Relocated, MovedImage, Image;
    var moved := MovedImage(log, zpUsage, textUsage, page, zp);
    forall i | 0 <= i < |moved|
      ensures Relocated(mem, base, log, page, zp)[base + i] == moved[i]
    {
      ImageByte(mem, base, log, zpUsage, textUsage, page, zp, i);
    }
    forall a | 0 <= a < 0x1_0000 && (a < base || a >= base + textUsage)
      ensures Relocated(mem, base, log, page, zp)[a] == mem[a]
    {
      OutsideMarks(log, base, a);
      RelocatedAt(mem, base, log, page, zp, a);
    }
  }

  lemma ImageSizes(log: seq<Record>, zpUsage: Byte, textUsage: Word, page: Byte, zp: Byte)
    requires Ready(log, textUsage) && AllCommute(log, textUsage, page, zp)
    ensures |MovedImage(log, zpUsage, textUsage, page, zp)| == |Image(log, zpUsage, textUsage)| == textUsage
    ensures Measured(log, textUsage) && Measured(Moved(log, page, zp), textUsage)
    ensures |Code(log, |log|, textUsage)| == Extent(log, |log|)
    ensures |Code(Moved(log, page, zp), |log|, textUsage)| == Extent(log, |log|)
  {
    RelaxedIsMeasured(log, textUsage);
    MovedIsMeasured(log, textUsage, page, zp);
    MovedKeepsPlaces(log, page, zp, |log|);
    CodeSize(log, |log|, textUsage);
    CodeSize(Moved(log, page, zp), |log|, textUsage);
  }

  lemma MovedIsMeasured(log: seq<Record>, textUsage: Word, page: Byte, zp: Byte)
    requires WellFormed(log) && Measured(log, textUsage) && AllCommute(log, textUsage, page, zp)
    ensures Measured(Moved(log, page, zp), textUsage)
  {
    hide EmitRecord, TextMark, ZpMark, InRecord, FixedUp, WellFormed;
    var moved := Moved(log, page, zp);
    forall k | 0 <= k < |moved|
      ensures |EmitRecord(moved, k, textUsage)| == Size(moved[k])
    {
      assert Commutes(log, k, textUsage, page, zp);
      assert |EmitRecord(log, k, textUsage)| == Size(log[k]);
    }
  }

  /** One byte of the image. */
  lemma ImageByte(mem: seq<Byte>, base: Word, log: seq<Record>, zpUsage: Byte, textUsage: Word,
                  page: Byte, zp: Byte, i: nat)
    requires |mem| == 0x1_0000 && Ready(log, textUsage) && AllCommute(log, textUsage, page, zp)
    requires OwnMarks(log, TextLists(log)) && OwnMarks(log, ZpLists(log))
    requires Loaded(mem, base, Image(log, zpUsage, textUsage))
    requires |MovedImage(log, zpUsage, textUsage, page, zp)| == |Image(log, zpUsage, textUsage)| == textUsage
    requires i < textUsage
    ensures base + i < 0x1_0000
    ensures Relocated(mem, base, log, page, zp)[base + i] == MovedImage(log, zpUsage, textUsage, page, zp)[i]
  {
    hide *;
    ImageParts(log, zpUsage, textUsage, page, zp);
    ReadyForm(log, textUsage);
    LoadedAt(mem, base, Image(log, zpUsage, textUsage), i);
    RelocatedAt(mem, base, log, page, zp, base + i);
    if i < START_ADDRESS {
      HeaderMarks(log, base, i);
      HeaderByte(zpUsage, textUsage, page, i);
    } else {
      var k, d := Locate(log, |log|, i - START_ADDRESS);
      CodeMarks(log, base, k, d);
      CodeAt(log, |log|, textUsage, k, d);
      MovedCodeAt(log, textUsage, page, zp, k, d);
      CommutesAt(log, k, textUsage, page, zp, d);
      AddsOnce(ZpMark(log, k), zp, i);
      AddsOnce(TextMark(log, k), page, i);
    }
  }

  /** Whether or not an operand is one the format can express, its bytes are fixed up as its marks say. */
  lemma RelocatedByte(mem: seq<Byte>, base: Word, log: seq<Record>, zpUsage: Byte, textUsage: Word,
                      page: Byte, zp: Byte, k: nat, d: nat)
    requires |mem| == 0x1_0000 && Ready(log, textUsage) && NoStrayMarks(log)
    requires Loaded(mem, base, Image(log, zpUsage, textUsage)) && k < |log| && d < Size(log[k])
    ensures base + START_ADDRESS + Extent(log, k) + d < 0x1_0000 && d < |EmitRecord(log, k, textUsage)|
    ensures Relocated(mem, base, log, page, zp)[base + START_ADDRESS + Extent(log, k) + d]
         == FixedUp(log, k, textUsage, page, zp, d)
  {
    hide *;
    ReadyForm(log, textUsage);
    ImageSize(log, zpUsage, textUsage);
    OwnMarksExactly(log, textUsage);
    var i := START_ADDRESS + Extent(log, k) + d;
    CodeAt(log, |log|, textUsage, k, d);
    LoadedAt(mem, base, Image(log, zpUsage, textUsage), i);
    CodeMarks(log, base, k, d);
    RelocatedAt(mem, base, log, page, zp, base + i);
    AddsOnce(ZpMark(log, k), zp, i);
    AddsOnce(TextMark(log, k), page, i);
    FixedUpIs(log, k, textUsage, page, zp, d);
    assert i - START_ADDRESS == Extent(log, k) + d;
  }

  lemma FixedUpIs(log: seq<Record>, k: nat, textUsage: Word, page: Byte, zp: Byte, d: nat)
    requires WellFormed(log) && k < |log| && d < |EmitRecord(log, k, textUsage)|
    ensures var place := START_ADDRESS + Extent(log, k) + d;
            FixedUp(log, k, textUsage, page, zp, d)
            == ToByte(EmitRecord(log, k, textUsage)[d]
                      + Adds(ZpMark(log, k), zp, place) + Adds(TextMark(log, k), page, place))
  {
    hide EmitRecord, ZpMark, TextMark, Extent, Adds, ToByte;
  }

  lemma ImageSize(log: seq<Record>, zpUsage: Byte, textUsage: Word)
    requires Ready(log, textUsage)
    ensures Measured(log, textUsage)
    ensures |Image(log, zpUsage, textUsage)| == textUsage == START_ADDRESS + |Code(log, |log|, textUsage)|
    ensures forall i :: START_ADDRESS <= i < textUsage ==>
              Image(log, zpUsage, textUsage)[i] == Code(log, |log|, textUsage)[i - START_ADDRESS]
  {
    RelaxedIsMeasured(log, textUsage);
    CodeSize(log, |log|, textUsage);
    hide Sound, Sized, RealOpcodes, WellFormed, Code, Measured;
  }

  lemma ReadyForm(log: seq<Record>, textUsage: Word)
    requires Ready(log, textUsage)
    ensures WellFormed(log) && textUsage == START_ADDRESS + Extent(log, |log|)
  {
  }

  lemma LoadedAt(mem: seq<Byte>, base: nat, bytes: seq<Byte>, i: nat)
    requires Loaded(mem, base, bytes) && i < |bytes|
    ensures base + |bytes| <= |mem| && mem[base + i] == bytes[i]
  {
  }

  lemma AddsOnce(mark: seq<int>, addend: Byte, address: int)
    ensures Adds(mark, 1, address) == 0 || Adds(mark, 1, address) == 1
    ensures Adds(mark, addend, address) == if Adds(mark, 1, address) == 1 then addend else 0
  {
  }

  lemma HeaderByte(zpUsage: Byte, textUsage: Word, page: Byte, i: nat)
    requires i < START_ADDRESS
    ensures Header(zpUsage, textUsage)[3 := ToByte(Hi(textUsage) + page)][i]
         == ToByte(Header(zpUsage, textUsage)[i] + 0 + if i == 3 then page else 0)
    ensures i != 3 ==> Header(zpUsage, textUsage)[3 := ToByte(Hi(textUsage) + page)][i] == Header(zpUsage, textUsage)[i]
  {
    OneOff(Header(zpUsage, textUsage)[i]);
  }

  /** The two images, header byte by header byte and code byte by code byte. */
  lemma ImageParts(log: seq<Record>, zpUsage: Byte, textUsage: Word, page: Byte, zp: Byte)
    requires Ready(log, textUsage) && AllCommute(log, textUsage, page, zp)
    ensures Measured(log, textUsage) && Measured(Moved(log, page, zp), textUsage)
    ensures |Code(log, |log|, textUsage)| == Extent(log, |log|)
    ensures |Code(Moved(log, page, zp), |log|, textUsage)| == Extent(log, |log|)
    ensures |Image(log, zpUsage, textUsage)| == START_ADDRESS + Extent(log, |log|)
    ensures |MovedImage(log, zpUsage, textUsage, page, zp)| == START_ADDRESS + Extent(log, |log|)
    ensures forall i :: 0 <= i < START_ADDRESS ==>
              && Image(log, zpUsage, textUsage)[i] == Header(zpUsage, textUsage)[i]
              && MovedImage(log, zpUsage, textUsage, page, zp)[i]
                 == Header(zpUsage, textUsage)[3 := ToByte(Hi(textUsage) + page)][i]
    ensures forall i :: START_ADDRESS <= i < START_ADDRESS + Extent(log, |log|) ==>
              && Image(log, zpUsage, textUsage)[i] == Code(log, |log|, textUsage)[i - START_ADDRESS]
              && MovedImage(log, zpUsage, textUsage, page, zp)[i]
                 == Code(Moved(log, page, zp), |log|, textUsage)[i - START_ADDRESS]
  {
    hide *;
    ImageSizes(log, zpUsage, textUsage, page, zp);
    ReadyForm(log, textUsage);
    ImagesSplit(log, zpUsage, textUsage, page, zp);
  }

  lemma ImagesSplit(log: seq<Record>, zpUsage: Byte, textUsage: Word, page: Byte, zp: Byte)
    requires WellFormed(log)
    ensures Image(log, zpUsage, textUsage) == Header(zpUsage, textUsage) + Code(log, |log|, textUsage)
    ensures MovedImage(log, zpUsage, textUsage, page, zp)
         == Header(zpUsage, textUsage)[3 := ToByte(Hi(textUsage) + page)] + Code(Moved(log, page, zp), |log|, textUsage)
  {
  }

  lemma MovedCodeAt(log: seq<Record>, textUsage: Word, page: Byte, zp: Byte, k: nat, d: nat)
    requires WellFormed(log) && Measured(Moved(log, page, zp), textUsage) && k < |log| && d < Size(log[k])
    ensures d < |EmitRecord(Moved(log, page, zp), k, textUsage)|
    ensures Extent(log, k) + d < |Code(Moved(log, page, zp), |log|, textUsage)|
    ensures Code(Moved(log, page, zp), |log|, textUsage)[Extent(log, k) + d]
         == EmitRecord(Moved(log, page, zp), k, textUsage)[d]
  {
    hide EmitRecord, WellFormed, Measured, Code, Extent;
    MovedKeepsPlaces(log, page, zp, k);
    CodeAt(Moved(log, page, zp), |log|, textUsage, k, d);
  }

  lemma CommutesAt(log: seq<Record>, k: nat, textUsage: Word, page: Byte, zp: Byte, d: nat)
    requires WellFormed(log) && AllCommute(log, textUsage, page, zp) && k < |log|
    requires d < |EmitRecord(log, k, textUsage)|
    ensures d < |EmitRecord(Moved(log, page, zp), k, textUsage)|
    ensures var place := START_ADDRESS + Extent(log, k) + d;
            EmitRecord(Moved(log, page, zp), k, textUsage)[d]
            == ToByte(EmitRecord(log, k, textUsage)[d]
                      + Adds(ZpMark(log, k), zp, place) + Adds(TextMark(log, k), page, place))
  {
    hide EmitRecord, WellFormed, TextMark, ZpMark, InRecord, Extent, Moved;
    assert Commutes(log, k, textUsage, page, zp);
    assert FixedUp(log, k, textUsage, page, zp, d) == EmitRecord(Moved(log, page, zp), k, textUsage)[d];
  }
}
