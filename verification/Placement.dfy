/**
 Branch relaxation (apps/asm.c:1607-1720, 2085-2093). A pass walks the log once, giving every
 expression its length and every label its address. A branch is measured with the label's address
 of this pass when the label lies behind it, and of the previous pass when it lies ahead.
 */
module Placement {
  import opened Bytes
  import opened Opcodes
  import opened Records

  datatype Outcome =
    | Placed(changed: bool)
    | OutOfRange    // "out of range branch", with .expand 0
    | NotText       // "branch to non-text label"

  const SHORT: Byte := 2
  const LONG: Byte := 5

  /** The 16-bit distance a branch at `pc` has to cover. */
  function Delta(place: Word, offset: Word, pc: Word): int
  {
    Signed16(ToWord(place + offset - pc - 2))
  }

  predicate Near(delta: int) { -128 <= delta <= 127 }

  // ---------- what one pass does, record by record ----------

  predicate Shrinks(log: seq<Record>, r: Record)
    requires r.Expr? && r.variable < |log| && log[r.variable].Symbol?
  {
    !IsConstant(r.opcode) && log[r.variable].kind == Kind.Zp && GetInsnProps(r.opcode).shrinks
  }

  predicate Branches(r: Record)
  {
    r.Expr? && !IsConstant(r.opcode) && IsRelative(r.opcode)
  }

  /** The length of anything but a branch: it depends on the opcode and the symbol's kind alone. */
  function FixedLength(log: seq<Record>, r: Record): Byte
    requires r.Expr? && r.variable < |log| && log[r.variable].Symbol?
  {
    if r.opcode == BYTE_CONSTANT then 1
    else if r.opcode == WORD_CONSTANT then 2
    else if Shrinks(log, r) then 2
    else GetInsnLength(r.opcode)
  }

  /** The address of symbol v that a pass over `was`, having come to record k of `now`, sees. */
  function Seen(was: seq<Record>, now: seq<Record>, v: nat, k: nat): Word
    requires k <= |now| && v < |was| && was[v].Symbol?
  {
    if k == 0 then was[v].address
    else if now[k - 1] == LabelDef(v) then Pc(now, k - 1)
    else Seen(was, now, v, k - 1)
  }

  /** Nothing but opcodes, lengths and addresses may differ. */
  ghost predicate SameShape(was: seq<Record>, now: seq<Record>)
  {
    && |was| == |now|
    && forall k :: 0 <= k < |was| ==> SameRecord(was[k], now[k])
  }

  predicate SameRecord(a: Record, b: Record)
  {
    match a
    case Expr(_, variable, offset, _, post) =>
      b.Expr? && b.variable == variable && b.offset == offset && b.post == post
    case Symbol(kind, alias, _, next, name) =>
      b.Symbol? && b.kind == kind && b.alias == alias && b.next == next && b.name == name
    case _ => a == b
  }

  ghost predicate PlacedExpr(was: seq<Record>, now: seq<Record>, k: nat, pass: Byte, defaultSize: Byte)
    requires |was| == |now| && k < |was| && was[k].Expr? && now[k].Expr?
    requires was[k].variable < |was| && was[was[k].variable].Symbol?
  {
    var r := was[k];
    var place := Seen(was, now, r.variable, k);
    && now[k].opcode == (if Shrinks(was, r) then Shrink(r.opcode) else r.opcode)
    && (!Branches(r) ==> now[k].length == FixedLength(was, r))
    && (Branches(r) ==>
          && was[r.variable].kind == Text
          && now[k].length == (if pass == 0 then defaultSize
                               else if Near(Delta(place, r.offset, Pc(now, k))) then SHORT else LONG)
          && (pass != 0 && defaultSize == SHORT ==> Near(Delta(place, r.offset, Pc(now, k)))))
  }

  /** The first `upto` records of `now` are what a pass makes of those of `was`. */
  ghost predicate PlacedUpTo(was: seq<Record>, now: seq<Record>, upto: nat, pass: Byte, defaultSize: Byte)
    requires WellFormed(was)
  {
    && SameShape(was, now) && upto <= |was|
    && (forall k :: 0 <= k < upto && was[k].Expr? ==> PlacedExpr(was, now, k, pass, defaultSize))
    && (forall k :: upto <= k < |was| && was[k].Expr? ==> now[k] == was[k])
    && (forall v :: 0 <= v < |was| && was[v].Symbol? ==> now[v].address == Seen(was, now, v, upto))
  }

  /** `now` is `was` after a whole pass. */
  ghost predicate AfterPass(was: seq<Record>, now: seq<Record>, pass: Byte, defaultSize: Byte)
    requires WellFormed(was)
  {
    PlacedUpTo(was, now, |was|, pass, defaultSize)
  }

  ghost predicate SameLengths(was: seq<Record>, now: seq<Record>, upto: nat)
  {
    |was| == |now| && forall k :: 0 <= k < upto && k < |was| ==> Size(was[k]) == Size(now[k])
  }

  lemma {:induction false} SeenSame(was: seq<Record>, a: seq<Record>, b: seq<Record>, v: nat, k: nat)
    requires k <= |a| && k <= |b| && v < |was| && was[v].Symbol?
    requires forall i :: 0 <= i < k ==> Size(a[i]) == Size(b[i]) && (a[i] == LabelDef(v) <==> b[i] == LabelDef(v))
    ensures Seen(was, a, v, k) == Seen(was, b, v, k)
  {
    if k > 0 {
      ExtentSame(a, b, k - 1);
      SeenSame(was, a, b, v, k - 1);
    }
  }

  lemma ShapeKeepsForm(was: seq<Record>, now: seq<Record>)
    requires WellFormed(was) && SameShape(was, now)
    ensures WellFormed(now)
  {
    assert forall k :: 0 <= k < |was| ==> SameRecord(was[k], now[k]);
  }

  // ---------- the relaxation theorem ----------

  /** Every label's address is the sum of the lengths before it. */
  ghost predicate Labelled(log: seq<Record>)
    requires WellFormed(log)
  {
    forall j :: 0 <= j < |log| && log[j].LabelDef? ==> log[log[j].symbol].address == Pc(log, j)
  }

  /** The address a branch or operand names. */
  function Target(log: seq<Record>, r: Record): Word
    requires r.Expr? && r.variable < |log| && log[r.variable].Symbol?
  {
    ToWord(log[r.variable].address + r.offset)
  }

  /** How far the target of record k is from the end of a two-byte branch at its place. */
  function Displacement(log: seq<Record>, k: nat): int
    requires k < |log| && log[k].Expr? && log[k].variable < |log| && log[log[k].variable].Symbol?
  {
    Signed16(ToWord(Target(log, log[k]) - Pc(log, k) - 2))
  }

  lemma DeltaIsDisplacement(log: seq<Record>, k: nat, place: Word, pc: Word)
    requires k < |log| && log[k].Expr? && log[k].variable < |log| && log[log[k].variable].Symbol?
    requires place == log[log[k].variable].address && pc == Pc(log, k)
    ensures Delta(place, log[k].offset, pc) == Displacement(log, k)
  {
    hide Extent, Signed16;
    ToWordAdd(place + log[k].offset, 0 - pc as int - 2);
  }

  /** Every branch is short exactly when the distance it has to cover allows it. */
  ghost predicate Relaxed(log: seq<Record>)
    requires WellFormed(log)
  {
    forall k :: 0 <= k < |log| && Branches(log[k]) ==>
      && log[log[k].variable].kind == Text
      && log[k].length == if Near(Displacement(log, k)) then SHORT else LONG
  }

  /** A label that is passed before record k has this pass's address there; another has the old one. */
  lemma {:induction false} SeenAt(was: seq<Record>, now: seq<Record>, j: nat, k: nat)
    requires WellFormed(was) && SameShape(was, now) && j < |was| && k <= |was| && was[j].LabelDef?
    ensures Seen(was, now, was[j].symbol, k) == if j < k then Pc(now, j) else was[was[j].symbol].address
  {
    if k > 0 {
      assert SameRecord(was[k - 1], now[k - 1]);
      SeenAt(was, now, j, k - 1);
    }
  }

  lemma {:induction false} SeenUndefined(was: seq<Record>, now: seq<Record>, v: nat, k: nat)
    requires WellFormed(was) && SameShape(was, now) && v < |was| && was[v].Symbol? && k <= |was|
    requires forall j :: 0 <= j < |was| ==> was[j] != LabelDef(v)
    ensures Seen(was, now, v, k) == was[v].address
  {
    if k > 0 {
      assert SameRecord(was[k - 1], now[k - 1]);
      SeenUndefined(was, now, v, k - 1);
    }
  }

  /** After any pass every label stands where the pass left it. */
  lemma PassLabels(was: seq<Record>, now: seq<Record>, pass: Byte, defaultSize: Byte)
    requires WellFormed(was) && AfterPass(was, now, pass, defaultSize)
    ensures WellFormed(now) && Labelled(now)
  {
    ShapeKeepsForm(was, now);
    forall j | 0 <= j < |now| && now[j].LabelDef?
      ensures now[now[j].symbol].address == Pc(now, j)
    {
      assert SameRecord(was[j], now[j]);
      SeenAt(was, now, j, |was|);
    }
  }

  /** When no length changes, old and new addresses coincide, so it never mattered which one was used. */
  lemma SettledAddresses(was: seq<Record>, now: seq<Record>, v: nat, k: nat)
    requires WellFormed(was) && SameShape(was, now) && SameLengths(was, now, |was|) && Labelled(was)
    requires v < |was| && was[v].Symbol? && k <= |was|
    ensures Seen(was, now, v, k) == was[v].address
  {
    if j :| 0 <= j < |was| && was[j] == LabelDef(v) {
      SeenAt(was, now, j, k);
      ExtentSame(was, now, j);
    } else {
      SeenUndefined(was, now, v, k);
    }
  }

  /**
   Relaxation soundness: a pass other than the first that changes no length leaves every address
   as it was, every label at the sum of the lengths before it, and every branch short exactly
   when the true displacement fits a signed byte.
   */
  lemma RelaxationSound(was: seq<Record>, now: seq<Record>, pass: Byte, defaultSize: Byte)
    requires WellFormed(was) && Labelled(was) && AfterPass(was, now, pass, defaultSize) && pass != 0
    requires SameLengths(was, now, |was|)
    ensures WellFormed(now) && Labelled(now) && Relaxed(now)
    ensures forall v :: 0 <= v < |was| && was[v].Symbol? ==> now[v] == was[v]
  {
    PassLabels(was, now, pass, defaultSize);
    forall v | 0 <= v < |was| && was[v].Symbol?
      ensures now[v] == was[v]
    {
      SettledAddresses(was, now, v, |was|);
      assert SameRecord(was[v], now[v]);
    }
    forall k | 0 <= k < |now| && Branches(now[k])
      ensures now[now[k].variable].kind == Text
      ensures now[k].length ==
              if Near(Displacement(now, k)) then SHORT else LONG
    {
      BranchSettled(was, now, k, pass, defaultSize);
    }
  }

  /** In a relaxed program, the branches that are short are just those whose target some displacement byte reaches. */
  lemma ShortExactly(log: seq<Record>, k: nat)
    requires WellFormed(log) && Relaxed(log) && k < |log| && Branches(log[k])
    ensures log[k].length == 2 || log[k].length == 5
    ensures log[k].length == 2 <==> exists d: Byte :: Reaches(log, k, d)
  {
    assert log[k].variable < |log| && log[log[k].variable].Symbol?;
    hide Target, Pc, WellFormed, Relaxed;
    assert (log[k].length == 2 <==> Near(Displacement(log, k))) && (log[k].length == 2 || log[k].length == 5) by {
      RelaxedLength(log, k);
    }
    if Near(Displacement(log, k)) {
      NearReaches(log, k);
    } else if d: Byte :| Reaches(log, k, d) {
      Reached(Target(log, log[k]), Pc(log, k), d);
      assert false;
    }
  }

  lemma RelaxedLength(log: seq<Record>, k: nat)
    requires WellFormed(log) && Relaxed(log) && k < |log| && Branches(log[k])
    ensures log[k].variable < |log| && log[log[k].variable].Symbol?
    ensures log[k].length == if Near(Displacement(log, k)) then 2 else 5
  {
    hide Displacement;
  }

  lemma NearReaches(log: seq<Record>, k: nat)
    requires k < |log| && log[k].Expr? && log[k].variable < |log| && log[log[k].variable].Symbol?
    requires Near(Displacement(log, k))
    ensures exists d: Byte :: Reaches(log, k, d)
  {
    hide Target, Pc;
    assert Reaches(log, k, ToByte(Displacement(log, k)));
  }

  /** A branch at record k with displacement byte d goes to its target. */
  predicate Reaches(log: seq<Record>, k: nat, d: Byte)
    requires k < |log| && log[k].Expr? && log[k].variable < |log| && log[log[k].variable].Symbol?
  {
    var past: int, forward: int := Pc(log, k) + 2, if d >= 0x80 then d as int - 0x100 else d as int;
    (past + forward) % 0x1_0000 == Target(log, log[k]) as int
  }

  lemma Reached(t: Word, pc: Word, d: Byte)
    requires (pc + 2 + if d >= 0x80 then d as int - 0x100 else d as int) % 0x1_0000 == t as int
    ensures Signed16(ToWord(t - pc - 2)) == if d >= 0x80 then d as int - 0x100 else d as int
  {
  }

  /** An opcode is a branch after a pass exactly when it was one before. */
  lemma BranchKept(was: seq<Record>, now: seq<Record>, k: nat, pass: Byte, defaultSize: Byte)
    requires WellFormed(was) && AfterPass(was, now, pass, defaultSize) && k < |was| && was[k].Expr?
    ensures now[k].Expr? && Branches(now[k]) == Branches(was[k])
    ensures Branches(was[k]) ==> now[k].opcode == was[k].opcode
  {
    assert SameRecord(was[k], now[k]);
    assert PlacedExpr(was, now, k, pass, defaultSize);
    if Shrinks(was, was[k]) {
      ShrinkSettles(was[k].opcode);
    }
  }

  lemma BranchSettled(was: seq<Record>, now: seq<Record>, k: nat, pass: Byte, defaultSize: Byte)
    requires WellFormed(was) && Labelled(was) && AfterPass(was, now, pass, defaultSize) && pass != 0
    requires SameLengths(was, now, |was|) && WellFormed(now)
    requires k < |now| && Branches(now[k])
    ensures now[now[k].variable].kind == Text
    ensures now[k].length ==
            if Near(Displacement(now, k)) then SHORT else LONG
  {
    hide Delta, Near, Displacement, Extent, GetInsnProps;
    assert SameRecord(was[k], now[k]);
    BranchKept(was, now, k, pass, defaultSize);
    assert PlacedExpr(was, now, k, pass, defaultSize);
    var v := was[k].variable;
    assert SameRecord(was[v], now[v]);
    SettledAddresses(was, now, v, k);
    SettledAddresses(was, now, v, |was|);
    DeltaIsDisplacement(now, k, now[v].address, Pc(now, k));
  }

  // ---------- the pass itself ----------

  /** A symbol that was used and never defined. */
  predicate IsUnresolved(r: Record) { r.Symbol? && r.kind == Reference }

  lemma PassStarts(was: seq<Record>, pass: Byte, defaultSize: Byte)
    requires WellFormed(was)
    ensures PlacedUpTo(was, was, 0, pass, defaultSize) && Pc(was, 0) == 7 && SameLengths(was, was, 0)
  {
  }

  lemma LengthsNext(was: seq<Record>, now: seq<Record>, k: nat)
    requires |was| == |now| && k < |was|
    ensures SameLengths(was, now, k + 1) <==> SameLengths(was, now, k) && Size(was[k]) == Size(now[k])
    ensures SameLengths(was, now, 0)
  {
  }

  lemma KeptShape(was: seq<Record>, now: seq<Record>, k: nat, upto: nat, pass: Byte, defaultSize: Byte)
    requires WellFormed(was) && PlacedUpTo(was, now, upto, pass, defaultSize) && k < |was|
    ensures |now| == |was| && WellFormed(now) && SameRecord(was[k], now[k])
    ensures k >= upto && was[k].Expr? ==> now[k] == was[k]
  {
    ShapeKeepsForm(was, now);
  }

  lemma PlacedExprSame(was: seq<Record>, a: seq<Record>, b: seq<Record>, k: nat, pass: Byte, defaultSize: Byte)
    requires WellFormed(was) && SameShape(was, a) && SameShape(was, b) && k < |was| && was[k].Expr?
    requires SameLengths(a, b, k) && a[k].Expr? && a[k] == b[k]
    requires PlacedExpr(was, a, k, pass, defaultSize)
    ensures PlacedExpr(was, b, k, pass, defaultSize)
  {
    hide Delta, Near, Extent, ToWord, GetInsnProps, SameRecord;
    LabelDefsSame(was, a, b);
    SeenSame(was, a, b, was[k].variable, k);
    ExtentSame(a, b, k);
    assert Pc(a, k) == Pc(b, k);
  }

  lemma LabelDefsSame(was: seq<Record>, a: seq<Record>, b: seq<Record>)
    requires SameShape(was, a) && SameShape(was, b)
    ensures forall i :: 0 <= i < |was| && (a[i].LabelDef? || b[i].LabelDef?) ==> a[i] == b[i] == was[i]
  {
    forall i | 0 <= i < |was| && (a[i].LabelDef? || b[i].LabelDef?)
      ensures a[i] == b[i] == was[i]
    {
      assert SameRecord(was[i], a[i]) && SameRecord(was[i], b[i]);
    }
  }

  /** Records that carry nothing for the pass to rewrite. */
  lemma PlainStep(was: seq<Record>, now: seq<Record>, k: nat, pass: Byte, defaultSize: Byte)
    requires WellFormed(was) && PlacedUpTo(was, now, k, pass, defaultSize) && k < |was|
    requires !was[k].Expr? && !was[k].LabelDef?
    ensures PlacedUpTo(was, now, k + 1, pass, defaultSize)
  {
    assert SameRecord(was[k], now[k]);
  }

  lemma LabelStep(was: seq<Record>, now: seq<Record>, k: nat, pass: Byte, defaultSize: Byte)
    requires WellFormed(was) && PlacedUpTo(was, now, k, pass, defaultSize) && k < |was| && was[k].LabelDef?
    ensures var v := was[k].symbol;
            && now[v].Symbol?
            && var next := now[v := now[v].(address := Pc(now, k))];
               && PlacedUpTo(was, next, k + 1, pass, defaultSize) && Pc(next, k + 1) == Pc(now, k)
               && (SameLengths(was, next, k + 1) <==> SameLengths(was, now, k))
  {
    var v := was[k].symbol;
    assert SameRecord(was[k], now[k]) && SameRecord(was[v], now[v]);
    var next := now[v := now[v].(address := Pc(now, k))];
    hide PlacedExpr;
    assert SameShape(was, next) by {
      assert forall i :: 0 <= i < |was| ==> SameRecord(was[i], now[i]);
    }
    LabelDefsSame(was, now, next);
    ExtentSame(now, next, k);
    forall x | 0 <= x < |was| && was[x].Symbol?
      ensures next[x].address == Seen(was, next, x, k + 1)
    {
      SeenSame(was, now, next, x, k);
    }
    forall i | 0 <= i < k + 1 && was[i].Expr?
      ensures PlacedExpr(was, next, i, pass, defaultSize)
    {
      assert SameRecord(was[i], now[i]);
      PlacedExprSame(was, now, next, i, pass, defaultSize);
    }
  }

  lemma ExprStep(was: seq<Record>, now: seq<Record>, next: seq<Record>, k: nat, pass: Byte, defaultSize: Byte)
    requires WellFormed(was) && PlacedUpTo(was, now, k, pass, defaultSize) && k < |was| && was[k].Expr?
    requires |next| == |now| && next == now[k := next[k]] && SameRecord(was[k], next[k])
    requires PlacedExpr(was, next, k, pass, defaultSize)
    ensures PlacedUpTo(was, next, k + 1, pass, defaultSize) && Pc(next, k) == Pc(now, k)
  {
    hide PlacedExpr;
    assert SameShape(was, next) by {
      assert forall i :: 0 <= i < |was| ==> SameRecord(was[i], now[i]);
    }
    LabelDefsSame(was, now, next);
    ExtentSame(now, next, k);
    forall x | 0 <= x < |was| && was[x].Symbol?
      ensures next[x].address == Seen(was, next, x, k + 1)
    {
      SeenSame(was, now, next, x, k);
    }
    forall i | 0 <= i < k && was[i].Expr?
      ensures PlacedExpr(was, next, i, pass, defaultSize)
    {
      assert SameRecord(was[i], now[i]);
      PlacedExprSame(was, now, next, i, pass, defaultSize);
    }
  }

  datatype Verdict =
    | Settled(passes: nat)
    | Failed(outcome: Outcome)
    | Unresolved      // a symbol was used and never defined
    | StillChanging   // the bound on passes was reached

  /** The number of pass n, which is a byte. */
  function PassNumber(n: nat): Byte { n % 0x100 }

  lemma PassFacts(n: nat)
    ensures PassNumber(0) == 0 && PassNumber(n + 1) == (PassNumber(n) + 1) % 0x100
    ensures 0 < n && PassNumber(n) == 0 ==> n >= 0x100
  {
  }

  /** No expression has been given a length yet. */
  ghost predicate Fresh(log: seq<Record>)
  {
    forall k :: 0 <= k < |log| && log[k].Expr? ==> log[k].length == 0xff
  }

  /** Every branch is long, or short with a displacement that fits. */
  ghost predicate Sound(log: seq<Record>)
    requires WellFormed(log)
  {
    forall k :: 0 <= k < |log| && Branches(log[k]) ==>
      && log[log[k].variable].kind == Text
      && (log[k].length == LONG || (log[k].length == SHORT && Near(Displacement(log, k))))
  }

  /** Everything but a branch has the length its opcode and symbol call for. */
  ghost predicate Sized(log: seq<Record>)
    requires WellFormed(log)
  {
    forall k :: 0 <= k < |log| && log[k].Expr? && !Branches(log[k]) ==>
      log[k].length == FixedLength(log, log[k])
  }

  /** Records hold real instructions: anything but a branch or a constant has an operand. */
  ghost predicate RealOpcodes(log: seq<Record>)
  {
    forall k :: 0 <= k < |log| && log[k].Expr? && !IsConstant(log[k].opcode) ==>
      IsBranch(log[k].opcode) || (!IsRelative(log[k].opcode) && GetInsnLength(log[k].opcode) >= 2)
  }

  /** Absolute opcodes with zero page operands have been shrunk, and no others. */
  ghost predicate OpcodesShrunk(was: seq<Record>, now: seq<Record>)
    requires WellFormed(was)
  {
    && |was| == |now|
    && forall k :: 0 <= k < |was| && was[k].Expr? ==>
         now[k].Expr? && now[k].opcode == if Shrinks(was, was[k]) then Shrink(was[k].opcode) else was[k].opcode
  }

  lemma PassShrinks(was: seq<Record>, now: seq<Record>, pass: Byte, defaultSize: Byte)
    requires WellFormed(was) && AfterPass(was, now, pass, defaultSize)
    ensures OpcodesShrunk(was, now)
  {
    hide Shrinks, Shrink, Seen, Pc, FixedLength, Delta, Near, Branches;
    forall k | 0 <= k < |was| && was[k].Expr?
      ensures now[k].Expr? && now[k].opcode == if Shrinks(was, was[k]) then Shrink(was[k].opcode) else was[k].opcode
    {
      assert SameRecord(was[k], now[k]);
      assert PlacedExpr(was, now, k, pass, defaultSize);
    }
  }

  /** Passes after the first find nothing more to shrink. */
  lemma ShrunkTwice(a: seq<Record>, b: seq<Record>, c: seq<Record>)
    requires WellFormed(a) && WellFormed(b) && SameShape(a, b) && OpcodesShrunk(a, b) && OpcodesShrunk(b, c)
    ensures OpcodesShrunk(a, c)
  {
    hide Shrink, GetInsnProps, IsConstant, IsRelative;
    forall k | 0 <= k < |a| && a[k].Expr?
      ensures c[k].Expr? && c[k].opcode == if Shrinks(a, a[k]) then Shrink(a[k].opcode) else a[k].opcode
    {
      assert SameRecord(a[k], b[k]) && SameRecord(a[a[k].variable], b[a[k].variable]);
      if Shrinks(a, a[k]) {
        ShrinkSettles(a[k].opcode);
      }
    }
  }

  lemma ShrunkKeepsReal(was: seq<Record>, now: seq<Record>)
    requires WellFormed(was) && SameShape(was, now) && OpcodesShrunk(was, now) && RealOpcodes(was)
    ensures RealOpcodes(now)
  {
    hide GetInsnProps, Shrink, IsBranch, IsConstant, IsRelative, GetInsnLength;
    forall k | 0 <= k < |now| && now[k].Expr? && !IsConstant(now[k].opcode)
      ensures IsBranch(now[k].opcode) || (!IsRelative(now[k].opcode) && GetInsnLength(now[k].opcode) >= 2)
    {
      assert SameRecord(was[k], now[k]);
      if Shrinks(was, was[k]) {
        ShrunkIsReal(was[k].opcode);
      }
    }
  }

  lemma ShrunkIsReal(opcode: Byte)
    requires !IsConstant(opcode) && GetInsnProps(opcode).shrinks
    ensures !IsRelative(Shrink(opcode)) && GetInsnLength(Shrink(opcode)) >= 2
  {
    ShrinkSettles(opcode);
    if GetInsnProps(Shrink(opcode)).shrinks {
      JsrLength();
    }
    hide Shrink, GetInsnProps;
  }

  lemma JsrLength()
    ensures GetInsnLength(JSR) == 3
  {
  }

  lemma ShapeReflexive(log: seq<Record>)
    ensures SameShape(log, log)
  {
  }

  lemma PassShape(was: seq<Record>, now: seq<Record>, pass: Byte, defaultSize: Byte)
    requires WellFormed(was) && AfterPass(was, now, pass, defaultSize)
    ensures SameShape(was, now) && |was| == |now|
  {
  }

  lemma ShapeTransitive(a: seq<Record>, b: seq<Record>, c: seq<Record>)
    requires SameShape(a, b) && SameShape(b, c)
    ensures SameShape(a, c)
  {
    forall k | 0 <= k < |a|
      ensures SameRecord(a[k], c[k])
    {
      assert SameRecord(a[k], b[k]) && SameRecord(b[k], c[k]);
    }
  }

  /** Shrinking has settled after one pass. */
  lemma PassSizes(was: seq<Record>, now: seq<Record>, pass: Byte, defaultSize: Byte)
    requires WellFormed(was) && AfterPass(was, now, pass, defaultSize)
    ensures WellFormed(now) && Sized(now)
  {
    hide Extent, GetInsnProps;
    ShapeKeepsForm(was, now);
    forall k | 0 <= k < |now| && now[k].Expr? && !Branches(now[k])
      ensures now[k].length == FixedLength(now, now[k])
    {
      assert SameRecord(was[k], now[k]);
      assert SameRecord(was[was[k].variable], now[was[k].variable]);
      BranchKept(was, now, k, pass, defaultSize);
      assert PlacedExpr(was, now, k, pass, defaultSize);
      if Shrinks(was, was[k]) {
        ShrinkSettles(was[k].opcode);
      }
    }
  }

  /** With .expand 0 every length is known after the first pass. */
  lemma ShortSettles(a: seq<Record>, b: seq<Record>, c: seq<Record>)
    requires WellFormed(a) && AfterPass(a, b, 0, SHORT)
    requires WellFormed(b) && AfterPass(b, c, 1, SHORT)
    ensures SameLengths(b, c, |b|)
  {
    hide Extent, GetInsnProps;
    PassSizes(a, b, 0, SHORT);
    forall k | 0 <= k < |b|
      ensures Size(b[k]) == Size(c[k])
    {
      assert SameRecord(a[k], b[k]) && SameRecord(b[k], c[k]);
      if b[k].Expr? {
        BranchKept(a, b, k, 0, SHORT);
        assert PlacedExpr(a, b, k, 0, SHORT) && PlacedExpr(b, c, k, 1, SHORT);
      }
    }
  }

  /** What a pass that changes nothing leaves behind, first pass or not. */
  lemma Settling(was: seq<Record>, now: seq<Record>, pass: Byte, defaultSize: Byte, n: nat)
    requires WellFormed(was) && AfterPass(was, now, pass, defaultSize) && SameLengths(was, now, |was|)
    requires defaultSize == SHORT || defaultSize == LONG
    requires n == 0 ==> pass == 0 && Fresh(was)
    requires n > 0 ==> Labelled(was)
    requires n > 0 && pass == 0 ==> defaultSize == LONG && n >= 0x100
    ensures WellFormed(now) && Sound(now) && (n < 0x100 ==> Relaxed(now))
  {
    ShapeKeepsForm(was, now);
    if pass != 0 {
      RelaxationSound(was, now, pass, defaultSize);
    } else {
      forall k | 0 <= k < |now| && Branches(now[k])
        ensures n >= 0x100 && now[now[k].variable].kind == Text && now[k].length == LONG
      {
        assert SameRecord(was[k], now[k]);
        assert SameRecord(was[was[k].variable], now[was[k].variable]);
        BranchKept(was, now, k, pass, defaultSize);
        assert PlacedExpr(was, now, k, pass, defaultSize);
        assert Size(was[k]) == Size(now[k]);
      }
    }
  }

  class Placer {
    var log: seq<Record>
    var textUsage: Word
    var badProgram: bool
    var defaultBranchSize: Byte

    constructor (records: seq<Record>, branchSize: Byte)
      requires branchSize == SHORT || branchSize == LONG
      ensures log == records && textUsage == 0 && !badProgram && defaultBranchSize == branchSize
    {
      log, textUsage, badProgram, defaultBranchSize := records, 0, false, branchSize;
    }

    /** placeCode: one walk over the log, rewriting the records in place. */
    method PlaceCode(pass: Byte) returns (outcome: Outcome)
      requires WellFormed(log)
      requires defaultBranchSize == SHORT || defaultBranchSize == LONG
      modifies this`log, this`textUsage, this`badProgram
      ensures outcome.Placed? ==>
                && AfterPass(old(log), log, pass, defaultBranchSize)
                && textUsage == Pc(log, |log|)
                && (!outcome.changed <==> SameLengths(old(log), log, |log|))
      ensures outcome == OutOfRange ==> pass != 0 && defaultBranchSize == SHORT
      ensures outcome == NotText ==>
                exists k :: 0 <= k < |old(log)| && Branches(old(log)[k])
                         && old(log)[old(log)[k].variable].kind != Text
      ensures outcome.Placed? ==>
                (badProgram <==> old(badProgram) || exists v :: 0 <= v < |old(log)| && IsUnresolved(old(log)[v]))
    {
      hide PlacedUpTo, Pc, Extent, SameLengths, SameShape;
      ghost var was := log;
      PassStarts(was, pass, defaultBranchSize);
      var changed := false;
      var pc: Word := 7;
      var k := 0;
      while k < |log|
        invariant 0 <= k <= |was| == |log| && PlacedUpTo(was, log, k, pass, defaultBranchSize)
        invariant pc == Pc(log, k)
        invariant !changed <==> SameLengths(was, log, k)
        invariant badProgram <==> old(badProgram) || exists v :: 0 <= v < k && IsUnresolved(was[v])
      {
        var r := log[k];
        KeptShape(was, log, k, k, pass, defaultBranchSize);
        PcNext(log, k);
        LengthsNext(was, log, k);
        match r {
          case Symbol(kind, _, _, _, _) =>
            PlainStep(was, log, k, pass, defaultBranchSize);
            if kind == Reference {
              badProgram := true;
            }
          case Bytes(data) =>
            PlainStep(was, log, k, pass, defaultBranchSize);
            pc := ToWord(pc + |data|);
          case Fill(count) =>
            PlainStep(was, log, k, pass, defaultBranchSize);
            pc := ToWord(pc + count);
          case Expr(opcode, v, offset, length, post) =>
            outcome := PlaceExpr(was, k, pc, pass);
            if !outcome.Placed? {
              return;
            }
            changed := changed || outcome.changed;
            PcNext(log, k);
            LengthsNext(was, log, k);
            pc := ToWord(pc + log[k].length);
          case LabelDef(v) =>
            LabelStep(was, log, k, pass, defaultBranchSize);
            log := log[v := log[v].(address := pc)];
        }
        k := k + 1;
      }
      textUsage := pc;
      outcome := Placed(changed);
      assert k == |was|;
    }

    /**
     The loop of main: passes until one changes nothing. The pass number is a byte, so after 256
     passes a "first" pass comes round again. `limit` bounds the number of passes; with
     .expand 0 the second pass always is the last.
     */
    method Relax(limit: nat) returns (verdict: Verdict)
      requires WellFormed(log) && Fresh(log)
      requires defaultBranchSize == SHORT || defaultBranchSize == LONG
      modifies this`log, this`textUsage, this`badProgram
      ensures verdict.Settled? ==> SameShape(old(log), log) && WellFormed(log) && Labelled(log) && Sound(log)
      ensures verdict.Settled? ==> OpcodesShrunk(old(log), log) && (RealOpcodes(old(log)) ==> RealOpcodes(log))
      ensures verdict.Settled? ==> Sized(log) && textUsage == Pc(log, |log|)
      ensures verdict.Settled? && verdict.passes <= 0x100 ==> Relaxed(log)
      ensures verdict.StillChanging? && defaultBranchSize == SHORT ==> limit < 2
    {
      hide WellFormed, Fresh, SameShape, AfterPass, Labelled, Sound, Sized, Relaxed, SameLengths, Pc, IsUnresolved, Branches,
           RealOpcodes, OpcodesShrunk, PassNumber;
      ghost var first := log;
      ShapeReflexive(first);
      var i: Byte, n: nat := 0, 0;
      ghost var prev := log;
      PassFacts(0);
      while n < limit
        invariant n <= limit && i == PassNumber(n) && WellFormed(log) && SameShape(first, log)
        invariant n > 0 ==> OpcodesShrunk(first, log)
        invariant n == 0 ==> Fresh(log) && log == first
        invariant n > 0 ==> WellFormed(prev) && AfterPass(prev, log, PassNumber(n - 1), defaultBranchSize)
        invariant defaultBranchSize == SHORT ==> n <= 1
      {
        ghost var was := log;
        PassFacts(n);
        var outcome := PlaceCode(i);
        if !outcome.Placed? {
          return Failed(outcome);
        }
        PassLabels(was, log, i, defaultBranchSize);
        PassShape(was, log, i, defaultBranchSize);
        ShapeTransitive(first, was, log);
        PassSizes(was, log, i, defaultBranchSize);
        PassShrinks(was, log, i, defaultBranchSize);
        if n > 0 {
          ShrunkTwice(first, was, log);
          PassLabels(prev, was, PassNumber(n - 1), defaultBranchSize);
          if defaultBranchSize == SHORT {
            ShortSettles(prev, was, log);
          }
        }
        if !outcome.changed {
          Settling(was, log, i, defaultBranchSize, n);
          if RealOpcodes(first) {
            ShrunkKeepsReal(first, log);
          }
          return Settled(n + 1);
        }
        if badProgram {
          return Unresolved;
        }
        prev := was;
        i := (i + 1) % 0x100;
        n := n + 1;
      }
      verdict := StillChanging;
    }

    /** The expression case of the walk; `Placed(c)` says whether its length changed. */
    method PlaceExpr(ghost was: seq<Record>, k: nat, pc: Word, pass: Byte) returns (outcome: Outcome)
      requires WellFormed(was) && PlacedUpTo(was, log, k, pass, defaultBranchSize)
      requires k < |was| && log[k].Expr? && pc == Pc(log, k)
      requires defaultBranchSize == SHORT || defaultBranchSize == LONG
      modifies this`log
      ensures outcome.Placed? ==>
                && PlacedUpTo(was, log, k + 1, pass, defaultBranchSize)
                && |log| == |was| && log[k].Expr? && Pc(log, k) == pc
                && (outcome.changed <==> Size(was[k]) != Size(log[k]))
                && (SameLengths(was, log, k) <==> SameLengths(was, old(log), k))
      ensures outcome == OutOfRange ==> pass != 0 && defaultBranchSize == SHORT
      ensures outcome == NotText ==> was[k].Expr? && Branches(was[k]) && was[was[k].variable].kind != Text
    {
      hide Extent, Seen, GetB, Near, Signed16, ToWord;
      var s := log[k];
      assert SameRecord(was[k], s) && was[k] == s;
      var symbol := log[s.variable];
      assert SameRecord(was[s.variable], symbol);
      var props := GetInsnProps(s.opcode);
      var opcode, len := s.opcode, props.size;
      if s.opcode == BYTE_CONSTANT {
        len := 1;
      } else if s.opcode == WORD_CONSTANT {
        len := 2;
      } else if symbol.kind == Kind.Zp && props.shrinks {
        opcode, len := Shrink(opcode), 2;
        ShrinkSettles(s.opcode);
      } else if props.relative {
        if symbol.kind != Text {
          return NotText;
        }
        if pass == 0 {
          len := defaultBranchSize;
        } else {
          var delta := Signed16(ToWord(symbol.address + s.offset - pc - 2));
          NearIs(delta);
          if -128 <= delta <= 127 {
            len := 2;
          } else if defaultBranchSize == 2 {
            return OutOfRange;
          } else {
            len := 5;
          }
        }
      }
      ghost var now := log;
      ghost var next := log[k := s.(opcode := opcode, length := len)];
      ExtentSame(now, next, k);
      NextShape(was, now, next, k);
      LabelDefsSame(was, now, next);
      SeenSame(was, now, next, s.variable, k);
      assert PlacedExpr(was, next, k, pass, defaultBranchSize);
      ExprStep(was, now, next, k, pass, defaultBranchSize);
      log := log[k := s.(opcode := opcode, length := len)];
      outcome := Placed(len != s.length);
    }
  }

  lemma NearIs(delta: int)
    ensures Near(delta) <==> -128 <= delta <= 127
  {
  }

  lemma NextShape(was: seq<Record>, now: seq<Record>, next: seq<Record>, k: nat)
    requires SameShape(was, now) && k < |was| && |next| == |now| && next == now[k := next[k]]
    requires SameRecord(was[k], next[k])
    ensures SameShape(was, next)
  {
    assert forall i :: 0 <= i < |was| ==> SameRecord(was[i], now[i]);
  }
}
