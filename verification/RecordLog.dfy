/**
 The record log as bytes (apps/asm.c:10-62, 749-871, 1308-1317, 1593-1594): records are appended
 to an arena that was cleared to zero, and found again by adding up the lengths in their first bytes.
 */
module RecordLog {
  import opened Bytes
  import opened Opcodes
  import opened Records
  import opened Placement

  const MAX_RUN: nat := 30      // bytes in one byte record
  const MAX_NAME: nat := 23     // characters in a symbol's name

  // ---------- layout ----------

  /** The first byte of a record: its type in the top three bits, its length in the others. */
  function Descr(r: Record): nat
  {
    match r
    case Bytes(data) => 0x20 + 1 + |data|
    case Expr(_, _, _, _, _) => 0x40 + 8
    case Symbol(_, _, _, _, name) => 0x60 + 8 + |name|
    case LabelDef(_) => 0x80 + 3
    case Fill(_) => 0xa0 + 3
  }

  function Length(r: Record): (n: nat)
    ensures n > 0
  {
    match r
    case Bytes(data) => 1 + |data|
    case Expr(_, _, _, _, _) => 8
    case Symbol(_, _, _, _, name) => 8 + |name|
    case LabelDef(_) => 3
    case Fill(_) => 3
  }

  predicate Fits(r: Record)
  {
    match r
    case Bytes(data) => 1 <= |data| <= MAX_RUN
    case Symbol(_, _, _, _, name) => |name| <= MAX_NAME
    case _ => true
  }

  /** Where record k starts. */
  function Place(log: seq<Record>, k: nat): nat
    requires k <= |log|
  {
    if k == 0 then 0 else Place(log, k - 1) + Length(log[k - 1])
  }

  function KindCode(kind: Kind): Byte
  {
    match kind
    case Uninitialised => 0
    case Reference => 1
    case Zp => 2
    case Bss => 3
    case Text => 4
    case Computed => 5
  }

  function PostCode(post: Postprocessing): Byte
  {
    match post
    case None => 0
    case Lsb => 1
    case Msb => 2
  }

  /** A pointer to record k of an arena that starts at `base`. */
  function Pointer(log: seq<Record>, base: Word, k: nat): Word
  {
    if k < |log| then ToWord(base + Place(log, k)) else 0
  }

  function MaybePointer(log: seq<Record>, base: Word, k: Option<nat>): Word
  {
    if k.Just? then Pointer(log, base, k.value) else 0
  }

  /** The packed structures, little-endian. */
  function Stored(log: seq<Record>, base: Word, r: Record): (bytes: seq<Byte>)
    requires Fits(r)
    ensures |bytes| == Length(r)
  {
    match r
    case Bytes(data) => [Descr(r)] + data
    case Fill(count) => [Descr(r), Lo(count), Hi(count)]
    case Expr(opcode, variable, offset, length, post) =>
      var p := Pointer(log, base, variable);
      [Descr(r), opcode, Lo(p), Hi(p), Lo(offset), Hi(offset), length, PostCode(post)]
    case Symbol(kind, alias, address, next, name) =>
      var a, n := MaybePointer(log, base, alias), MaybePointer(log, base, next);
      [Descr(r), KindCode(kind), Lo(a), Hi(a), Lo(address), Hi(address), Lo(n), Hi(n)] + name
    case LabelDef(symbol) =>
      var p := Pointer(log, base, symbol);
      [Descr(r), Lo(p), Hi(p)]
  }

  ghost predicate RecordAt(mem: seq<Byte>, base: Word, log: seq<Record>, k: nat)
    requires k < |log|
  {
    && Fits(log[k]) && Place(log, k) + Length(log[k]) <= |mem|
    && mem[Place(log, k)..Place(log, k) + Length(log[k])] == Stored(log, base, log[k])
  }

  /** The records fill the arena from the start; the rest of it is still zero. */
  ghost predicate Laid(mem: seq<Byte>, base: Word, log: seq<Record>)
  {
    && Place(log, |log|) <= |mem|
    && (forall k :: 0 <= k < |log| ==> RecordAt(mem, base, log, k))
    && (forall i :: Place(log, |log|) <= i < |mem| ==> mem[i] == 0)
  }

  /** Two byte records in a row only if the first is full. */
  ghost predicate RunsSplit(log: seq<Record>)
  {
    forall k :: 0 < k < |log| && log[k - 1].Bytes? && log[k].Bytes? ==> |log[k - 1].data| == MAX_RUN
  }

  /** Symbols refer to symbols of the log. */
  ghost predicate LinksInside(log: seq<Record>)
  {
    forall k :: 0 <= k < |log| && log[k].Symbol? ==>
      && (log[k].alias.Just? ==> log[k].alias.value < |log|)
      && (log[k].next.Just? ==> log[k].next.value < |log|)
  }

  // ---------- appending ----------

  predicate OpenRun(log: seq<Record>)
  {
    log != [] && log[|log| - 1].Bytes?
  }

  /** One byte more: into the last run if it has room, into a new one otherwise. */
  function AppendByte(log: seq<Record>, b: Byte): (r: seq<Record>)
    ensures |log| <= |r| && r != []
  {
    if OpenRun(log) && |log[|log| - 1].data| < MAX_RUN
    then log[..|log| - 1] + [Bytes(log[|log| - 1].data + [b])]
    else log + [Bytes([b])]
  }

  function AppendBytes(log: seq<Record>, bytes: seq<Byte>): seq<Record>
    decreases |bytes|
  {
    if bytes == [] then log else AppendBytes(AppendByte(log, bytes[0]), bytes[1..])
  }

  /** The bytes of the byte records of a log, in order. */
  function AllBytes(log: seq<Record>): seq<Byte>
  {
    if log == [] then []
    else AllBytes(log[..|log| - 1]) + if OpenRun(log) then log[|log| - 1].data else []
  }

  /** Runs concatenate to what was emitted, however it was split. */
  lemma {:induction false} RunsConcatenate(log: seq<Record>, bytes: seq<Byte>)
    ensures AllBytes(AppendBytes(log, bytes)) == AllBytes(log) + bytes
    decreases |bytes|
  {
    if bytes != [] {
      var first, rest := bytes[0], bytes[1..];
      assert AppendBytes(log, bytes) == AppendBytes(AppendByte(log, first), rest);
      hide *;
      RunsConcatenate(AppendByte(log, first), rest);
      ByteAppended(log, first);
      FirstAndRest(AllBytes(log), bytes);
    }
  }

  lemma FirstAndRest(before: seq<Byte>, bytes: seq<Byte>)
    requires bytes != []
    ensures before + [bytes[0]] + bytes[1..] == before + bytes
  {
  }

  lemma ByteAppended(log: seq<Record>, b: Byte)
    ensures AllBytes(AppendByte(log, b)) == AllBytes(log) + [b]
  {
    var log' := AppendByte(log, b);
    assert log'[..|log'| - 1] == if |log'| == |log| then log[..|log| - 1] else log;
  }

  lemma {:induction false} PlaceSame(a: seq<Record>, b: seq<Record>, k: nat)
    requires k <= |a| && k <= |b|
    requires forall i :: 0 <= i < k ==> Length(a[i]) == Length(b[i])
    ensures Place(a, k) == Place(b, k)
  {
    if k > 0 {
      PlaceSame(a, b, k - 1);
    }
  }

  lemma {:induction false} PlaceMonotone(log: seq<Record>, i: nat, j: nat)
    requires i <= j <= |log|
    ensures Place(log, i) + (j - i) <= Place(log, j)
  {
    if i < j {
      PlaceMonotone(log, i, j - 1);
    }
  }

  /** Every record of `a` starts at the same place in `b`. */
  ghost predicate SamePlaces(a: seq<Record>, b: seq<Record>)
  {
    |a| <= |b| && forall i :: 0 <= i < |a| ==> Place(a, i) == Place(b, i)
  }

  lemma AppendKeepsPlaces(log: seq<Record>, r: Record)
    ensures SamePlaces(log, log + [r]) && Place(log + [r], |log|) == Place(log, |log|)
    ensures Place(log + [r], |log| + 1) == Place(log, |log|) + Length(r)
  {
    forall i | 0 <= i <= |log|
      ensures Place(log, i) == Place(log + [r], i)
    {
      PlaceSame(log, log + [r], i);
    }
  }

  lemma LastKeepsPlaces(log: seq<Record>, r: Record)
    requires log != []
    ensures var n := |log| - 1;
            && SamePlaces(log, log[..n] + [r]) && Place(log[..n] + [r], n) == Place(log, n)
            && Place(log[..n] + [r], n + 1) == Place(log, n) + Length(r)
  {
    var n := |log| - 1;
    forall i | 0 <= i <= n
      ensures Place(log, i) == Place(log[..n] + [r], i)
    {
      PlaceSame(log, log[..n] + [r], i);
    }
  }

  lemma UpdateKeepsPlaces(log: seq<Record>, k: nat, r: Record)
    requires k < |log| && Length(r) == Length(log[k])
    ensures SamePlaces(log, log[k := r]) && Place(log[k := r], |log|) == Place(log, |log|)
  {
    forall i | 0 <= i <= |log|
      ensures Place(log, i) == Place(log[k := r], i)
    {
      PlaceSame(log, log[k := r], i);
    }
  }

  /** A record that is not touched stays as it is stored. */
  lemma StoredSame(a: seq<Record>, b: seq<Record>, base: Word, k: nat)
    requires SamePlaces(a, b) && k < |a| && a[k] == b[k] && Fits(a[k])
    requires WellFormed(a) && LinksInside(a)
    ensures Stored(a, base, a[k]) == Stored(b, base, b[k])
  {
    hide Place, Pointer, SamePlaces;
    match a[k]
    case Expr(_, variable, _, _, _) => PointerSame(a, b, base, variable);
    case LabelDef(symbol) => PointerSame(a, b, base, symbol);
    case Symbol(_, alias, _, next, _) =>
      if alias.Just? {
        PointerSame(a, b, base, alias.value);
      }
      if next.Just? {
        PointerSame(a, b, base, next.value);
      }
    case _ =>
  }

  lemma PointerSame(a: seq<Record>, b: seq<Record>, base: Word, k: nat)
    requires SamePlaces(a, b) && k < |a|
    ensures Pointer(a, base, k) == Pointer(b, base, k)
  {
    hide Place;
  }

  lemma RecordKept(mem: seq<Byte>, mem': seq<Byte>, base: Word, a: seq<Record>, b: seq<Record>, k: nat, lo: nat, hi: nat)
    requires SamePlaces(a, b) && k < |a| && a[k] == b[k] && Orderly(a)
    requires RecordAt(mem, base, a, k) && |mem'| == |mem| && lo <= hi <= |mem|
    requires forall i :: 0 <= i < |mem| && !(lo <= i < hi) ==> mem'[i] == mem[i]
    requires Place(a, k) + Length(a[k]) <= lo || hi <= Place(a, k)
    ensures RecordAt(mem', base, b, k)
  {
    hide *;
    SamePlaceAt(a, b, k);
    RecordIs(mem, base, a, k);
    RecordIs(mem', base, b, k);
    OrderlyForm(a);
    StoredSame(a, b, base, k);
    SliceKept(mem, mem', Place(a, k), Length(a[k]), lo, hi);
  }

  lemma RecordIs(mem: seq<Byte>, base: Word, log: seq<Record>, k: nat)
    requires k < |log|
    ensures RecordAt(mem, base, log, k)
       <==> && Fits(log[k]) && Place(log, k) + Length(log[k]) <= |mem|
            && mem[Place(log, k)..Place(log, k) + Length(log[k])] == Stored(log, base, log[k])
  {
    hide Fits, Place, Length, Stored;
  }

  lemma OrderlyForm(log: seq<Record>)
    requires Orderly(log)
    ensures WellFormed(log) && LinksInside(log)
  {
  }

  lemma SliceKept(mem: seq<Byte>, mem': seq<Byte>, at: nat, n: nat, lo: nat, hi: nat)
    requires |mem'| == |mem| && at + n <= |mem| && (at + n <= lo || hi <= at)
    requires forall i :: 0 <= i < |mem| && !(lo <= i < hi) ==> mem'[i] == mem[i]
    ensures mem'[at..at + n] == mem[at..at + n]
  {
  }

  lemma SamePlaceAt(a: seq<Record>, b: seq<Record>, k: nat)
    requires SamePlaces(a, b) && k < |a|
    ensures |a| <= |b| && Place(a, k) == Place(b, k)
  {
  }

  lemma PlaceStep(log: seq<Record>, k: nat)
    requires k < |log|
    ensures Place(log, k + 1) == Place(log, k) + Length(log[k])
  {
  }

  /** Between `a` and `b` only record t is new or different, and only its bytes were written. */
  ghost predicate OneRecord(mem: seq<Byte>, mem': seq<Byte>, base: Word, a: seq<Record>, b: seq<Record>, t: nat)
  {
    && SamePlaces(a, b) && t < |b| && Place(a, |a|) <= Place(b, |b|) <= |mem| == |mem'|
    && (forall k :: 0 <= k < |b| && k != t ==> k < |a| && a[k] == b[k])
    && RecordAt(mem', base, b, t)
    && forall i :: 0 <= i < |mem| && !(Place(b, t) <= i < Place(b, t) + Length(b[t])) ==> mem'[i] == mem[i]
  }

  lemma LaidChange(mem: seq<Byte>, mem': seq<Byte>, base: Word, a: seq<Record>, b: seq<Record>, t: nat)
    requires Laid(mem, base, a) && Orderly(a)
    requires OneRecord(mem, mem', base, a, b, t)
    ensures Laid(mem', base, b)
  {
    PlaceStep(b, t);
    PlaceMonotone(b, t + 1, |b|);
    hide Place, RecordAt, Orderly, SamePlaces, Length;
    forall k | 0 <= k < |b|
      ensures RecordAt(mem', base, b, k)
    {
      if k != t {
        OthersKept(mem, mem', base, a, b, t, k);
      }
    }
  }

  lemma OthersKept(mem: seq<Byte>, mem': seq<Byte>, base: Word, a: seq<Record>, b: seq<Record>, t: nat, k: nat)
    requires Laid(mem, base, a) && Orderly(a)
    requires OneRecord(mem, mem', base, a, b, t) && k < |b| && k != t
    ensures RecordAt(mem', base, b, k)
  {
    hide Place, RecordAt, Orderly, SamePlaces, Length;
    PlaceStep(b, t);
    PlaceStep(b, k);
    PlaceMonotone(b, t + 1, |b|);
    if k < t {
      PlaceMonotone(b, k + 1, t);
    } else {
      PlaceMonotone(b, t + 1, k);
    }
    SamePlaceAt(a, b, k);
    RecordKept(mem, mem', base, a, b, k, Place(b, t), Place(b, t) + Length(b[t]));
  }

  // ---------- the arena ----------

  class Arena {
    const mem: array<Byte>        // cpm_ram, cleared by main
    const base: Word              // its address
    var top: nat                  // the open byte record, or where the next record goes
    var lastSymbol: Word          // a pointer, or 0
    ghost var log: seq<Record>
    ghost var last: Option<nat>   // the symbol it points to

    ghost predicate Valid()
      reads this, mem
    {
      && 0 < base && base + mem.Length <= 0x1_0000
      && Laid(mem[..], base, log) && Orderly(log)
      && top == (if OpenRun(log) then Place(log, |log| - 1) else Place(log, |log|))
      && (last.Just? ==> last.value < |log|) && lastSymbol == MaybePointer(log, base, last)
    }

    /** The source never checks that the arena has room; its callers have to. */
    ghost predicate Room(n: nat)
      reads this
    {
      Place(log, |log|) + n < mem.Length
    }

    constructor (size: nat, address: Word)
      requires 0 < address && address + size <= 0x1_0000
      ensures Valid() && log == [] && mem.Length == size && base == address
    {
      mem := new Byte[size](_ => 0);
      base, top, lastSymbol, log, last := address, 0, 0, [], Nothing;
    }

    /** addRecord: steps over an open byte record, then puts down the new record's first byte. */
    method AddRecord(descr: Byte) returns (r: nat)
      requires Valid() && Room(1)
      modifies mem, this`top
      ensures r == Place(log, |log|) < mem.Length
      ensures mem[..] == old(mem[..])[r := descr]
      ensures top == r + descr % 0x20
    {
      TopDescr(mem[..], base, log, top);
      r := top;
      if mem[r] / 0x20 == 1 {
        top := top + mem[r] % 0x20;
        r := top;
      }
      mem[r] := descr;
      top := top + descr % 0x20;
    }

    /** The log after `b` was written over the old one, at record t. */
    ghost method Conclude(was: seq<Byte>, b: seq<Record>, t: nat)
      requires 0 < base && base + mem.Length <= 0x1_0000
      requires Laid(was, base, log) && Orderly(log)
      requires OneRecord(was, mem[..], base, log, b, t) && Orderly(b)
      requires top == (if OpenRun(b) then Place(b, |b| - 1) else Place(b, |b|))
      requires last.Just? ==> last.value < |log|
      requires lastSymbol == MaybePointer(log, base, last)
      modifies this`log
      ensures Valid() && log == b
    {
      hide *;
      LaidChange(was, mem[..], base, log, b, t);
      OneRecordPlaces(was, mem[..], base, log, b, t);
      PointerKept(log, b, base, last);
      log := b;
      Established();
    }

    lemma Established()
      requires 0 < base && base + mem.Length <= 0x1_0000
      requires Laid(mem[..], base, log) && Orderly(log)
      requires top == (if OpenRun(log) then Place(log, |log| - 1) else Place(log, |log|))
      requires last.Just? ==> last.value < |log|
      requires lastSymbol == MaybePointer(log, base, last)
      ensures Valid()
    {
    }

    method EmitByte(byte: Byte)
      requires Valid() && Room(2)
      modifies mem, this`top, this`log
      ensures Valid() && log == AppendByte(old(log), byte)
      ensures Place(log, |log|) <= old(Place(log, |log|)) + 2
    {
      hide Laid, Orderly, WellFormed, LinksInside, Place, AppendByte, OneRecord;
      ghost var was, before, end := mem[..], log, Place(log, |log|);
      TopDescr(was, base, log, top);
      OpenLength(was, base, log);
      var r := top;
      if mem[r] / 0x20 != 1 || mem[r] % 0x20 == 0x1f {
        r := AddRecord(0x20);
        mem[r] := mem[r] + 1;
        assert mem[..] == was[end := 0x21];
      }
      var len := mem[r] % 0x20;
      mem[r + len] := byte;
      mem[r] := mem[r] + 1;
      if OpenRun(before) && |before[|before| - 1].data| < MAX_RUN {
        RunExtended(was, mem[..], base, before, byte);
      } else {
        RunStarted(was, mem[..], base, before, byte);
      }
      ghost var b := AppendByte(before, byte);
      AppendedByteIsOrderly(before, byte);
      Conclude(was, b, |b| - 1);
    }

    /** Fields that follow one another. */
    method Store(at: nat, bytes: seq<Byte>)
      requires at + |bytes| <= mem.Length
      modifies mem
      ensures mem[..] == old(mem[..])[..at] + bytes + old(mem[..])[at + |bytes|..]
    {
      ghost var was := mem[..];
      for i := 0 to |bytes|
        invariant forall k :: 0 <= k < mem.Length ==> mem[k] == if at <= k < at + i then bytes[k - at] else was[k]
      {
        mem[at + i] := bytes[i];
      }
    }

    method EmitFill(len: Word)
      requires Valid() && Room(3)
      modifies mem, this`top, this`log
      ensures Valid() && log == old(log) + [Fill(len)]
    {
      hide Laid, Orderly, Place, OneRecord;
      ghost var was, r := mem[..], Fill(len);
      var at := AddRecord(0xa3);
      Store(at + 1, [len % 0x100, len / 0x100]);
      assert mem[..] == was[..at] + [0xa3, Lo(len), Hi(len)] + was[at + 3..];
      RecordAppended(was, mem[..], base, log, r);
      FollowedIsOrderly(log, r);
      PlaceNext(log, r);
      Conclude(was, log + [r], |log|);
    }

    /**
     addExpressionRecord, with what the parser left in its token variables: `tokenVariable` points
     to a symbol or is null. The postprocessing flag is whatever the last expression left behind.
     */
    method AddExpressionRecord(op: Byte, tokenVariable: Word, tokenValue: Word, post: Postprocessing, ghost symbol: nat)
      requires Valid() && Room(8)
      requires IsConstant(op) || IsBranch(op) || (!IsRelative(op) && GetInsnLength(op) >= 2)
      requires tokenVariable != 0 ==>
                 symbol < |log| && log[symbol].Symbol? && tokenVariable == Pointer(log, base, symbol)
      modifies mem, this`top, this`log
      ensures Valid()
      ensures tokenVariable != 0 ==> log == old(log) + [Expr(op, symbol, tokenValue, 0xff, post)]
      ensures tokenVariable == 0 ==>
                && log == AppendBytes(old(log), InsnBytes(op, tokenValue))
                && AllBytes(log) == AllBytes(old(log)) + match GetInsnLength(op)
                                                         case 1 => [op]
                                                         case 2 => [op, tokenValue % 0x100]
                                                         case _ => [op, tokenValue % 0x100, tokenValue / 0x100]
    {
      RunsConcatenate(log, InsnBytes(op, tokenValue));
      InsnBytesAre(op, tokenValue);
      hide Valid, GetInsnProps, AppendByte, AppendBytes, InsnBytes, Place, Pointer, IsConstant, IsBranch, IsRelative, AllBytes;
      if tokenVariable != 0 {
        AddSymbolicRecord(op, tokenVariable, tokenValue, post, symbol);
      } else {
        var len := GetInsnLength(op);
        ghost var before := log;
        EmitByte(op);
        if len != 1 {
          EmitByte(tokenValue % 0x100);
          if len != 2 {
            EmitByte(tokenValue / 0x100);
          }
        }
        AppendInsn(before, op, tokenValue);
      }
    }

    method AddSymbolicRecord(op: Byte, tokenVariable: Word, tokenValue: Word, post: Postprocessing, ghost symbol: nat)
      requires Valid() && Room(8)
      requires IsConstant(op) || IsBranch(op) || (!IsRelative(op) && GetInsnLength(op) >= 2)
      requires symbol < |log| && log[symbol].Symbol? && tokenVariable == Pointer(log, base, symbol)
      modifies mem, this`top, this`log
      ensures Valid() && log == old(log) + [Expr(op, symbol, tokenValue, 0xff, post)]
    {
      hide Laid, Orderly, Place, OneRecord, IsConstant, IsBranch, GetInsnProps, Pointer;
      ghost var was, r := mem[..], Expr(op, symbol, tokenValue, 0xff, post);
      var at := AddRecord(0x48);
      ghost var fields := [op, Lo(tokenVariable), Hi(tokenVariable), Lo(tokenValue), Hi(tokenValue), 0xff, PostCode(post)];
      Store(at + 1, [op, tokenVariable % 0x100, tokenVariable / 0x100, tokenValue % 0x100, tokenValue / 0x100,
                     0xff, PostCode(post)]);
      Following(was, mem[..], at, 0x48, fields);
      PlaceNext(log, r);
      PointerKept(log, log + [r], base, Just(symbol));
      assert Stored(log + [r], base, r) == [0x48] + fields;
      hide Stored;
      RecordAppended(was, mem[..], base, log, r);
      FollowedIsOrderly(log, r);
      Conclude(was, log + [r], |log|);
    }

    /** appendSymbol: everything but the name and the link is left as the zeroes it found. */
    method AppendSymbol(name: seq<Byte>) returns (r: Word)
      requires Valid() && Room(8 + |name|) && |name| < 0x80
      modifies mem, this`top, this`log, this`lastSymbol, this`last
      ensures Valid()
      ensures |name| > MAX_NAME ==> r == 0 && log == old(log)      // "symbol too long"
      ensures |name| <= MAX_NAME ==>
                && log == old(log) + [Symbol(Uninitialised, Nothing, 0, old(last), name)]
                && r == lastSymbol == Pointer(log, base, |log| - 1) && r != 0 && last == Just(|log| - 1)
    {
      var len := |name| + 8;
      if len > 0x1f {
        return 0;
      }
      var at := AddSymbolRecord(name);
      last := Just(|log| - 1);
      lastSymbol := base + at;
      LastPointer(log, base, at);
      r := lastSymbol;
    }

    method AddSymbolRecord(name: seq<Byte>) returns (at: nat)
      requires Valid() && Room(8 + |name|) && |name| <= MAX_NAME
      modifies mem, this`top, this`log
      ensures Valid() && log == old(log) + [Symbol(Uninitialised, Nothing, 0, last, name)]
      ensures at == Place(log, |log| - 1) < mem.Length
    {
      hide Laid, Orderly, Place, OneRecord, Stored, MaybePointer, OpenRun, Lo, Hi;
      ghost var was, symbol := mem[..], Symbol(Uninitialised, Nothing, 0, last, name);
      var len := |name| + 8;
      NameDescr(len);
      at := AddRecord(0x60 + len);
      ghost var first := mem[..];
      assert first == was[at := 0x60 + len];
      Store(at + 6, [Lo(lastSymbol), Hi(lastSymbol)] + name);
      SymbolStored(was, mem[..], base, log, last, lastSymbol, name);
      Conclude(was, log + [symbol], |log|);
    }

    /** createLabelDefinition: turns the symbol into a text symbol in place, then puts down the record. */
    method CreateLabelDefinition(r: Word, ghost symbol: nat) returns (exists_: bool)
      requires Valid() && Room(3)
      requires symbol < |log| && log[symbol].Symbol? && r == Pointer(log, base, symbol)
      modifies mem, this`top, this`log
      ensures Valid()
      ensures exists_ <==> old(log)[symbol].kind !in {Uninitialised, Reference}
      ensures exists_ ==> log == old(log)      // "symbol exists"
      ensures !exists_ ==> log == old(log)[symbol := old(log)[symbol].(kind := Text)] + [LabelDef(symbol)]
    {
      hide Orderly, OneRecord, RecordAt;
      SymbolBytes(mem[..], base, log, symbol);
      var type_ := mem[r - base + 1];
      if type_ != 0 && type_ != 1 {
        return true;
      }
      SetText(r, symbol);
      AddLabelRecord(r, symbol);
      exists_ := false;
    }

    method SetText(r: Word, ghost symbol: nat)
      requires Valid() && symbol < |log| && log[symbol].Symbol? && r == Pointer(log, base, symbol)
      requires log[symbol].kind in {Uninitialised, Reference}
      modifies mem, this`log
      ensures Valid() && log == old(log)[symbol := old(log)[symbol].(kind := Text)]
      ensures r == Pointer(log, base, symbol) && Place(log, |log|) == old(Place(log, |log|))
      ensures MayFollow(log, LabelDef(symbol))
    {
      hide Orderly, OneRecord, RecordAt;
      ghost var was := mem[..];
      UpdateKeepsPlaces(log, symbol, log[symbol].(kind := Text));
      PointerKept(log, log[symbol := log[symbol].(kind := Text)], base, Just(symbol));
      SymbolBytes(was, base, log, symbol);
      mem[r - base + 1] := 4;
      SymbolRewritten(was, mem[..], base, log, symbol);
      TextIsOrderly(log, symbol);
      Conclude(was, log[symbol := log[symbol].(kind := Text)], symbol);
    }

    method AddLabelRecord(r: Word, ghost symbol: nat)
      requires Valid() && Room(3) && MayFollow(log, LabelDef(symbol)) && r == Pointer(log, base, symbol)
      modifies mem, this`top, this`log
      ensures Valid() && log == old(log) + [LabelDef(symbol)]
    {
      hide Laid, Orderly, Place, OneRecord, Pointer;
      ghost var was, def := mem[..], LabelDef(symbol);
      var at := AddRecord(0x83);
      Store(at + 1, [r % 0x100, r / 0x100]);
      PlaceNext(log, def);
      PointerKept(log, log + [def], base, Just(symbol));
      assert mem[..] == was[..at] + [0x83, Lo(r), Hi(r)] + was[at + 3..];
      RecordAppended(was, mem[..], base, log, def);
      FollowedIsOrderly(log, def);
      Conclude(was, log + [def], |log|);
    }

    /** The log is complete: an end record follows its last record. */
    ghost predicate Closed()
      reads this, mem
    {
      && 0 < base && base + mem.Length <= 0x1_0000 && Place(log, |log|) < mem.Length
      && (forall k :: 0 <= k < |log| ==> RecordAt(mem[..], base, log, k))
      && mem[Place(log, |log|)] == 1
      && Orderly(log)
    }

    method Finish()
      requires Valid() && Room(1)
      modifies mem, this`top
      ensures Closed() && log == old(log)
    {
      hide Orderly, Stored, Pointer, MaybePointer;
      ghost var was := mem[..];
      var at := AddRecord(1);
      forall k | 0 <= k < |log|
        ensures RecordAt(mem[..], base, log, k)
      {
        assert RecordAt(was, base, log, k);
        PlaceStep(log, k);
        PlaceMonotone(log, k + 1, |log|);
        assert mem[..][Place(log, k)..Place(log, k) + Length(log[k])] == was[Place(log, k)..Place(log, k) + Length(log[k])];
      }
    }

    /** The walk every pass makes over the log: from record to record by the length in the first byte. */
    method Walk() returns (visited: seq<(nat, seq<Byte>)>)
      requires Closed()
      ensures |visited| == |log|
      ensures forall k :: 0 <= k < |log| ==>
                Fits(log[k]) && visited[k] == (Place(log, k), Stored(log, base, log[k]))
    {
      hide Orderly, Stored, Descr, Length, Place;
      visited := [];
      var r: nat := 0;
      assert Place(log, 0) == 0 by { FirstPlace(log); }
      while true
        invariant |visited| <= |log| && r == Place(log, |visited|)
        invariant forall k :: 0 <= k < |visited| ==>
                    Fits(log[k]) && visited[k] == (Place(log, k), Stored(log, base, log[k]))
        decreases |log| - |visited|
      {
        ghost var k := |visited|;
        if k < |log| {
          StepOf(k);
        }
        if mem[r] / 0x20 == 0 {
          break;
        }
        var len := mem[r] % 0x20;
        visited := visited + [(r, mem[r..r + len])];
        r := r + len;
      }
    }

    lemma StepOf(k: nat)
      requires Closed() && k < |log|
      ensures Fits(log[k]) && Place(log, k) + Length(log[k]) == Place(log, k + 1) <= mem.Length
      ensures mem[Place(log, k)] / 0x20 != 0 && mem[Place(log, k)] % 0x20 == Length(log[k])
      ensures mem[Place(log, k)..Place(log, k) + Length(log[k])] == Stored(log, base, log[k])
    {
      hide Orderly, Stored;
      assert RecordAt(mem[..], base, log, k);
      DescrAt(mem[..], base, log, k);
      PlaceStep(log, k);
    }
  }

  lemma FirstPlace(log: seq<Record>)
    ensures Place(log, 0) == 0
  {
  }

  /** References of a record point into the log. */
  predicate Refers(log: seq<Record>, r: Record)
  {
    match r
    case Expr(_, variable, _, _, _) => variable < |log|
    case Symbol(_, alias, _, next, _) =>
      (alias.Just? ==> alias.value < |log|) && (next.Just? ==> next.value < |log|)
    case LabelDef(symbol) => symbol < |log|
    case _ => true
  }

  lemma PointersDiffer(log: seq<Record>, base: Word, i: nat, j: nat)
    requires i < |log| && j < |log| && 0 < base && base + Place(log, |log|) <= 0x1_0000
    requires Pointer(log, base, i) == Pointer(log, base, j)
    ensures i == j && Pointer(log, base, i) != 0
  {
    PlaceMonotone(log, i, |log|);
    PlaceMonotone(log, j, |log|);
    if i < j {
      PlaceMonotone(log, i, j);
    } else if j < i {
      PlaceMonotone(log, j, i);
    }
    hide Place;
  }

  lemma LinksDiffer(log: seq<Record>, base: Word, i: Option<nat>, j: Option<nat>)
    requires (i.Just? ==> i.value < |log|) && (j.Just? ==> j.value < |log|)
    requires 0 < base && base + Place(log, |log|) <= 0x1_0000
    requires MaybePointer(log, base, i) == MaybePointer(log, base, j)
    ensures i == j
  {
    hide Place, Pointer;
    if i.Just? {
      PointersDiffer(log, base, i.value, i.value);
    }
    if j.Just? {
      PointersDiffer(log, base, j.value, j.value);
    }
    if i.Just? && j.Just? {
      PointersDiffer(log, base, i.value, j.value);
    }
  }

  lemma HalvesDiffer(v: Word, w: Word)
    requires Lo(v) == Lo(w) && Hi(v) == Hi(w)
    ensures v == w
  {
  }

  /** What a record is stored as says which record it was: the arena loses nothing. */
  lemma StoredDetermines(log: seq<Record>, base: Word, a: Record, b: Record)
    requires Fits(a) && Fits(b) && Refers(log, a) && Refers(log, b)
    requires 0 < base && base + Place(log, |log|) <= 0x1_0000
    requires Stored(log, base, a) == Stored(log, base, b)
    ensures a == b
  {
    hide Place, Pointer, MaybePointer, Lo, Hi;
    var s, t := Stored(log, base, a), Stored(log, base, b);
    assert s[0] == Descr(a) && t[0] == Descr(b);
    match a {
      case Bytes(data) =>
        assert s[1..] == data && t[1..] == b.data;
      case Fill(count) =>
        assert s[1] == t[1] && s[2] == t[2];
        HalvesDiffer(count, b.count);
      case Expr(opcode, variable, offset, length, post) =>
        assert s[1] == t[1] && s[2] == t[2] && s[3] == t[3] && s[4] == t[4] && s[5] == t[5] && s[6] == t[6] && s[7] == t[7];
        HalvesDiffer(Pointer(log, base, variable), Pointer(log, base, b.variable));
        PointersDiffer(log, base, variable, b.variable);
        HalvesDiffer(offset, b.offset);
      case Symbol(kind, alias, address, next, name) =>
        assert s[1] == t[1] && s[2] == t[2] && s[3] == t[3] && s[4] == t[4] && s[5] == t[5] && s[6] == t[6] && s[7] == t[7];
        assert s[8..] == name && t[8..] == b.name;
        HalvesDiffer(MaybePointer(log, base, alias), MaybePointer(log, base, b.alias));
        LinksDiffer(log, base, alias, b.alias);
        HalvesDiffer(address, b.address);
        HalvesDiffer(MaybePointer(log, base, next), MaybePointer(log, base, b.next));
        LinksDiffer(log, base, next, b.next);
      case LabelDef(symbol) =>
        assert s[1] == t[1] && s[2] == t[2];
        HalvesDiffer(Pointer(log, base, symbol), Pointer(log, base, b.symbol));
        PointersDiffer(log, base, symbol, b.symbol);
    }
  }

  function InsnBytes(op: Byte, value: Word): seq<Byte>
  {
    var len := GetInsnLength(op);
    [op] + if len == 1 then [] else if len == 2 then [Lo(value)] else [Lo(value), Hi(value)]
  }

  lemma InsnBytesAre(op: Byte, value: Word)
    ensures InsnBytes(op, value)
         == match GetInsnLength(op)
            case 1 => [op]
            case 2 => [op, value % 0x100]
            case _ => [op, value % 0x100, value / 0x100]
  {
    hide GetInsnLength;
  }

  lemma AppendInsn(log: seq<Record>, op: Byte, value: Word)
    ensures var len := GetInsnLength(op);
            var one := AppendByte(log, op);
            var two := AppendByte(one, Lo(value));
            AppendBytes(log, InsnBytes(op, value))
            == if len == 1 then one else if len == 2 then two else AppendByte(two, Hi(value))
  {
    hide AppendByte, GetInsnProps, Lo, Hi;
    AppendSome(log, op, Lo(value), Hi(value));
  }

  lemma AppendSome(log: seq<Record>, a: Byte, b: Byte, c: Byte)
    ensures AppendBytes(log, [a]) == AppendByte(log, a)
    ensures AppendBytes(log, [a] + [b]) == AppendByte(AppendByte(log, a), b)
    ensures AppendBytes(log, [a] + [b, c]) == AppendByte(AppendByte(AppendByte(log, a), b), c)
  {
    hide AppendByte;
    AppendFirst(log, a, []);
    AppendFirst(log, a, [b]);
    AppendFirst(AppendByte(log, a), b, []);
    AppendFirst(log, a, [b, c]);
    AppendFirst(AppendByte(log, a), b, [c]);
    AppendFirst(AppendByte(AppendByte(log, a), b), c, []);
    assert [a] + [] == [a] && [b] + [] == [b] && [c] + [] == [c] && [b] + [c] == [b, c];
  }

  lemma AppendFirst(log: seq<Record>, a: Byte, rest: seq<Byte>)
    ensures AppendBytes(log, [a] + rest) == AppendBytes(AppendByte(log, a), rest)
    ensures AppendBytes(log, []) == log
  {
    assert ([a] + rest)[1..] == rest;
  }

  lemma PointerKept(a: seq<Record>, b: seq<Record>, base: Word, k: Option<nat>)
    requires SamePlaces(a, b) && (k.Just? ==> k.value < |a|)
    ensures MaybePointer(a, base, k) == MaybePointer(b, base, k)
  {
  }

  lemma OneRecordPlaces(was: seq<Byte>, now: seq<Byte>, base: Word, a: seq<Record>, b: seq<Record>, t: nat)
    requires OneRecord(was, now, base, a, b, t)
    ensures SamePlaces(a, b)
  {
  }

  /** Where the next record of length n starts, and that it can start there. */
  lemma PlaceNext(log: seq<Record>, r: Record)
    ensures Place(log + [r], |log|) == Place(log, |log|)
    ensures Place(log + [r], |log| + 1) == Place(log, |log|) + Length(r)
    ensures SamePlaces(log, log + [r])
  {
    AppendKeepsPlaces(log, r);
  }

  lemma ZeroesAhead(mem: seq<Byte>, base: Word, log: seq<Record>, n: nat)
    requires Laid(mem, base, log) && Place(log, |log|) + n <= |mem|
    ensures mem[Place(log, |log|)..Place(log, |log|) + n] == seq(n, _ => 0)
  {
  }

  /** The first byte of a record and the fields behind it. */
  lemma Following(was: seq<Byte>, now: seq<Byte>, at: nat, descr: Byte, fields: seq<Byte>)
    requires at + 1 + |fields| <= |was|
    requires var first := was[at := descr]; now == first[..at + 1] + fields + first[at + 1 + |fields|..]
    ensures now == was[..at] + ([descr] + fields) + was[at + 1 + |fields|..]
  {
  }

  /** A symbol's link and name, behind five bytes that were zero. */
  lemma NameStored(was: seq<Byte>, now: seq<Byte>, at: nat, len: nat, fields: seq<Byte>)
    requires len <= 0x1f && at + len <= |was| && |fields| + 6 == len
    requires was[at..at + len] == seq(len, _ => 0)
    requires var first := was[at := 0x60 + len]; now == first[..at + 6] + fields + first[at + len..]
    ensures now == was[..at] + ([0x60 + len, 0, 0, 0, 0, 0] + fields) + was[at + len..]
  {
    var zeroes := was[at..at + len];
    assert was[at..at + 6] == zeroes[..6] == [0, 0, 0, 0, 0, 0];
    assert now[at..at + 6] == [0x60 + len] + was[at + 1..at + 6];
    assert was[at + 1..at + 6] == zeroes[1..6];
  }

  lemma StoredSymbol(log: seq<Record>, base: Word, next: Option<nat>, name: seq<Byte>)
    requires |name| <= MAX_NAME
    ensures var link := MaybePointer(log, base, next);
            Stored(log, base, Symbol(Uninitialised, Nothing, 0, next, name))
            == [0x60 + (|name| + 8), 0, 0, 0, 0, 0] + ([Lo(link), Hi(link)] + name)
  {
  }

  lemma SymbolIsNext(was: seq<Byte>, now: seq<Byte>, base: Word, log: seq<Record>, last: Option<nat>, name: seq<Byte>)
    requires Laid(was, base, log) && Orderly(log) && |name| <= MAX_NAME && (last.Just? ==> last.value < |log|)
    requires Place(log, |log|) + 8 + |name| <= |was| == |now|
    requires var link, at := MaybePointer(log, base, last), Place(log, |log|);
             now == was[..at] + ([0x60 + (|name| + 8), 0, 0, 0, 0, 0] + ([Lo(link), Hi(link)] + name)) + was[at + 8 + |name|..]
    ensures var b := log + [Symbol(Uninitialised, Nothing, 0, last, name)];
            && OneRecord(was, now, base, log, b, |log|) && Orderly(b) && !OpenRun(b)
            && Place(b, |log|) == Place(log, |log|) && Place(b, |b|) == Place(log, |log|) + 8 + |name|
  {
    hide Laid, Orderly, Place, OneRecord, Stored, Pointer, SamePlaces, RecordAt;
    var symbol := Symbol(Uninitialised, Nothing, 0, last, name);
    PlaceNext(log, symbol);
    PointerKept(log, log + [symbol], base, last);
    StoredSymbol(log + [symbol], base, last, name);
    RecordAppended(was, now, base, log, symbol);
    FollowedIsOrderly(log, symbol);
  }

  lemma SymbolStored(was: seq<Byte>, now: seq<Byte>, base: Word, log: seq<Record>, last: Option<nat>, link: Word, name: seq<Byte>)
    requires Laid(was, base, log) && Orderly(log) && |name| <= MAX_NAME && (last.Just? ==> last.value < |log|)
    requires link == MaybePointer(log, base, last) && Place(log, |log|) + 8 + |name| <= |was|
    requires var at, len := Place(log, |log|), |name| + 8;
             var first := was[at := 0x60 + len];
             now == first[..at + 6] + ([Lo(link), Hi(link)] + name) + first[at + len..]
    ensures var b := log + [Symbol(Uninitialised, Nothing, 0, last, name)];
            && OneRecord(was, now, base, log, b, |log|) && Orderly(b) && !OpenRun(b)
            && Place(b, |log|) == Place(log, |log|) && Place(b, |b|) == Place(log, |log|) + 8 + |name|
  {
    hide Laid, Orderly, OneRecord, Stored, Pointer, MaybePointer, Place, OpenRun, Lo, Hi;
    ZeroesAhead(was, base, log, |name| + 8);
    NameStored(was, now, Place(log, |log|), |name| + 8, [Lo(link), Hi(link)] + name);
    SymbolIsNext(was, now, base, log, last, name);
  }

  lemma LastPointer(log: seq<Record>, base: Word, at: nat)
    requires log != [] && at == Place(log, |log| - 1) && base + at < 0x1_0000
    ensures base + at == Pointer(log, base, |log| - 1)
  {
  }

  /** The type byte of a symbol, and where it is. */
  lemma SymbolBytes(mem: seq<Byte>, base: Word, log: seq<Record>, k: nat)
    requires Laid(mem, base, log) && k < |log| && log[k].Symbol? && base + |mem| <= 0x1_0000
    ensures Place(log, k) + 8 <= |mem| && Pointer(log, base, k) == base + Place(log, k)
    ensures mem[Place(log, k) + 1] == KindCode(log[k].kind)
  {
    assert RecordAt(mem, base, log, k);
    hide Place;
    assert mem[Place(log, k) + 1] == mem[Place(log, k)..Place(log, k) + Length(log[k])][1];
  }

  lemma LinksKept(a: seq<Record>, b: seq<Record>, base: Word, k: nat)
    requires SamePlaces(a, b) && LinksInside(a) && k < |a| && a[k].Symbol?
    ensures MaybePointer(a, base, a[k].alias) == MaybePointer(b, base, a[k].alias)
    ensures MaybePointer(a, base, a[k].next) == MaybePointer(b, base, a[k].next)
  {
    PointerKept(a, b, base, a[k].alias);
    PointerKept(a, b, base, a[k].next);
  }

  lemma TextIsOrderly(log: seq<Record>, k: nat)
    requires Orderly(log) && k < |log| && log[k].Symbol? && log[k].kind in {Uninitialised, Reference}
    ensures var b := log[k := log[k].(kind := Text)];
            Orderly(b) && MayFollow(b, LabelDef(k)) && OpenRun(b) == OpenRun(log)
  {
    var b := log[k := log[k].(kind := Text)];
    assert forall j :: 0 <= j < |log| ==> log[j] != LabelDef(k);
    TextForm(log, k);
    TextRest(log, k);
    hide WellFormed, LinksInside, RunsSplit, Fresh, RealOpcodes;
    assert forall j :: 0 <= j < |log| ==> b[j] != LabelDef(k);
  }

  lemma TextForm(log: seq<Record>, k: nat)
    requires WellFormed(log) && LinksInside(log) && k < |log| && log[k].Symbol?
    ensures WellFormed(log[k := log[k].(kind := Text)]) && LinksInside(log[k := log[k].(kind := Text)])
  {
  }

  lemma TextRest(log: seq<Record>, k: nat)
    requires RunsSplit(log) && Fresh(log) && RealOpcodes(log) && k < |log| && log[k].Symbol?
    ensures var b := log[k := log[k].(kind := Text)];
            RunsSplit(b) && Fresh(b) && RealOpcodes(b)
  {
    hide IsConstant, IsBranch, IsRelative, GetInsnLength;
  }

  lemma SymbolRewritten(was: seq<Byte>, now: seq<Byte>, base: Word, log: seq<Record>, k: nat)
    requires Laid(was, base, log) && Orderly(log) && k < |log| && log[k].Symbol?
    requires |now| == |was| && Place(log, k) + 1 < |was| && now == was[Place(log, k) + 1 := KindCode(Text)]
    ensures var b := log[k := log[k].(kind := Text)];
            OneRecord(was, now, base, log, b, k) && Place(b, |b|) == Place(log, |log|)
  {
    var r := log[k].(kind := Text);
    var b := log[k := r];
    UpdateKeepsPlaces(log, k, r);
    assert RecordAt(was, base, log, k);
    var at: nat, n := Place(log, k), Length(r);
    assert LinksInside(log);
    hide Place, Laid, Orderly;
    assert Place(b, k) == at by { SamePlaceAt(log, b, k); }
    LinksKept(log, b, base, k);
    hide SamePlaces;
    assert Stored(log, base, log[k])[1 := KindCode(Text)] == Stored(b, base, r);
    hide OneRecord, Length, KindCode;
    assert now[at..at + n] == Stored(log, base, log[k])[1 := KindCode(Text)];
    OneRecordFrom(was, now, base, log, b, k, Stored(b, base, r));
  }

  lemma OpenLength(mem: seq<Byte>, base: Word, log: seq<Record>)
    requires Laid(mem, base, log)
    ensures OpenRun(log) ==> 1 <= |log[|log| - 1].data| <= MAX_RUN && Length(log[|log| - 1]) == 1 + |log[|log| - 1].data|
  {
    if OpenRun(log) {
      assert RecordAt(mem, base, log, |log| - 1);
    }
  }

  /** The rules for a log, apart from its layout. */
  ghost predicate Orderly(log: seq<Record>)
  {
    RunsSplit(log) && LinksInside(log) && WellFormed(log) && Fresh(log) && RealOpcodes(log)
  }

  lemma AppendedByteIsOrderly(log: seq<Record>, byte: Byte)
    requires Orderly(log)
    requires OpenRun(log) ==> |log[|log| - 1].data| <= MAX_RUN
    ensures Orderly(AppendByte(log, byte)) && OpenRun(AppendByte(log, byte))
  {
    var b := AppendByte(log, byte);
    assert b[|b| - 1].Bytes? && forall j :: 0 <= j < |b| - 1 ==> b[j] == log[j];
    assert |b| == |log| ==> log[|log| - 1].Bytes?;
    hide AppendByte, WellFormed, LinksInside, Fresh, RealOpcodes;
    SameButBytes(log, b);
  }

  /** Byte records are no one's business but their neighbours'. */
  lemma SameButBytes(log: seq<Record>, b: seq<Record>)
    requires LinksInside(log) && WellFormed(log) && Fresh(log) && RealOpcodes(log) && |log| <= |b|
    requires forall j :: 0 <= j < |b| && !b[j].Bytes? ==> j < |log| && b[j] == log[j]
    requires forall j :: 0 <= j < |log| && !log[j].Bytes? ==> b[j] == log[j]
    ensures LinksInside(b) && WellFormed(b) && Fresh(b) && RealOpcodes(b)
  {
    hide GetInsnProps, IsBranch, IsConstant, IsRelative, GetInsnLength;
  }

  lemma RunExtended(was: seq<Byte>, now: seq<Byte>, base: Word, log: seq<Record>, byte: Byte)
    requires Laid(was, base, log) && Place(log, |log|) < |was| && OpenRun(log) && |log[|log| - 1].data| < MAX_RUN
    requires var n := |log| - 1;
             now == was[Place(log, |log|) := byte][Place(log, n) := 0x22 + |log[n].data|]
    ensures var b := AppendByte(log, byte);
            && OneRecord(was, now, base, log, b, |b| - 1) && Place(b, |b| - 1) == Place(log, |log| - 1)
            && Place(b, |b|) == Place(log, |log|) + 1
  {
    hide Laid, Orderly, Stored, SamePlaces, RecordAt, OneRecord, Fits;
    var n := |log| - 1;
    var data := log[n].data;
    var r := Bytes(data + [byte]);
    var b := AppendByte(log, byte);
    LastKeepsPlaces(log, r);
    PlaceStep(log, n);
    LastRun(was, base, log, byte);
    var top: nat := Place(log, n);
    hide *;
    RunStored(was, now, top, data, byte);
    OneRecordFrom(was, now, base, log, b, n, [0x22 + |data|] + (data + [byte]));
  }

  lemma LastRun(mem: seq<Byte>, base: Word, log: seq<Record>, byte: Byte)
    requires Laid(mem, base, log) && OpenRun(log) && |log[|log| - 1].data| < MAX_RUN
    ensures var n := |log| - 1;
            var data := log[n].data;
            var b := AppendByte(log, byte);
            && Place(log, n) + 1 + |data| == Place(log, |log|)
            && mem[Place(log, n)..Place(log, n) + 1 + |data|] == [0x21 + |data|] + data
            && b == log[..n] + [Bytes(data + [byte])] && |b| == |log| && Fits(b[n]) && Length(b[n]) == 2 + |data|
            && Stored(b, base, b[n]) == [0x22 + |data|] + (data + [byte])
  {
    assert RecordAt(mem, base, log, |log| - 1);
    PlaceStep(log, |log| - 1);
  }

  lemma OneRecordFrom(was: seq<Byte>, now: seq<Byte>, base: Word, a: seq<Record>, b: seq<Record>, t: nat, bytes: seq<Byte>)
    requires SamePlaces(a, b) && t < |b| && Place(a, |a|) <= Place(b, |b|) <= |was| == |now|
    requires forall k :: 0 <= k < |b| && k != t ==> k < |a| && a[k] == b[k]
    requires Fits(b[t]) && Stored(b, base, b[t]) == bytes && Place(b, t) + |bytes| <= |was|
    requires now[Place(b, t)..Place(b, t) + |bytes|] == bytes
    requires forall i :: 0 <= i < |was| && !(Place(b, t) <= i < Place(b, t) + |bytes|) ==> now[i] == was[i]
    ensures OneRecord(was, now, base, a, b, t)
  {
    assert |Stored(b, base, b[t])| == Length(b[t]);
    hide Place, SamePlaces, Stored;
  }

  /** A record other than a byte record, behind the last one. */
  lemma RecordAppended(was: seq<Byte>, now: seq<Byte>, base: Word, log: seq<Record>, r: Record)
    requires Laid(was, base, log) && Fits(r) && Place(log, |log|) + Length(r) <= |was| == |now|
    requires now == was[..Place(log, |log|)] + Stored(log + [r], base, r) + was[Place(log, |log|) + Length(r)..]
    ensures OneRecord(was, now, base, log, log + [r], |log|)
    ensures Place(log + [r], |log| + 1) == Place(log, |log|) + Length(r)
  {
    hide *;
    AppendKeepsPlaces(log, r);
    var b, end: nat := log + [r], Place(log, |log|);
    var bytes := Stored(b, base, r);
    assert b[|log|] == r && forall k :: 0 <= k < |log| ==> b[k] == log[k];
    Spliced(was, now, end, bytes);
    OneRecordFrom(was, now, base, log, b, |log|, bytes);
  }

  lemma Spliced(was: seq<Byte>, now: seq<Byte>, end: nat, bytes: seq<Byte>)
    requires end + |bytes| <= |was| && now == was[..end] + bytes + was[end + |bytes|..]
    ensures |now| == |was| && now[end..end + |bytes|] == bytes
    ensures forall i :: 0 <= i < |was| && !(end <= i < end + |bytes|) ==> now[i] == was[i]
  {
  }

  /** What may come next without breaking the order of a log. */
  predicate MayFollow(log: seq<Record>, r: Record)
  {
    match r
    case Bytes(_) => false
    case Fill(_) => true
    case Expr(opcode, variable, _, length, _) =>
      && variable < |log| && log[variable].Symbol? && length == 0xff
      && (IsConstant(opcode) || IsBranch(opcode) || (!IsRelative(opcode) && GetInsnLength(opcode) >= 2))
    case Symbol(kind, alias, _, next, _) =>
      alias == Nothing && (next.Just? ==> next.value < |log|) && kind == Uninitialised
    case LabelDef(symbol) =>
      && symbol < |log| && log[symbol].Symbol? && log[symbol].kind == Text
      && forall k :: 0 <= k < |log| ==> log[k] != LabelDef(symbol)
  }

  lemma FollowedIsOrderly(log: seq<Record>, r: Record)
    requires Orderly(log) && MayFollow(log, r)
    ensures Orderly(log + [r]) && !OpenRun(log + [r])
  {
    hide GetInsnProps, IsBranch, IsConstant;
    var b := log + [r];
    assert forall k :: 0 <= k < |log| ==> b[k] == log[k];
    assert b[|log|] == r;
  }

  lemma RunStored(was: seq<Byte>, now: seq<Byte>, top: nat, data: seq<Byte>, byte: Byte)
    requires top + 1 + |data| < |was| == |now| && |data| < MAX_RUN
    requires was[top..top + 1 + |data|] == [0x21 + |data|] + data
    requires now == was[top + 1 + |data| := byte][top := 0x22 + |data|]
    ensures now[top..top + 2 + |data|] == [0x22 + |data|] + (data + [byte])
  {
    forall i | 0 <= i < |data|
      ensures now[top + 1 + i] == data[i]
    {
      assert was[top + 1 + i] == was[top..top + 1 + |data|][1 + i];
    }
  }

  lemma RunStarted(was: seq<Byte>, now: seq<Byte>, base: Word, log: seq<Record>, byte: Byte)
    requires Laid(was, base, log) && Place(log, |log|) + 1 < |was|
    requires !OpenRun(log) || |log[|log| - 1].data| >= MAX_RUN
    requires now == was[Place(log, |log|) + 1 := byte][Place(log, |log|) := 0x22]
    ensures var b := AppendByte(log, byte);
            && OneRecord(was, now, base, log, b, |b| - 1) && Place(b, |b| - 1) == Place(log, |log|)
            && Place(b, |b|) == Place(log, |log|) + 2
  {
    var end := Place(log, |log|);
    AppendKeepsPlaces(log, Bytes([byte]));
    hide Place, SamePlaces;
    assert now[end..end + 2] == [0x22, byte] == [0x22] + [byte];
  }

  /** A record starts with its description. */
  lemma DescrAt(mem: seq<Byte>, base: Word, log: seq<Record>, k: nat)
    requires k < |log| && RecordAt(mem, base, log, k)
    ensures Place(log, k) + Length(log[k]) <= |mem|
    ensures mem[Place(log, k)] == Descr(log[k])
    ensures Descr(log[k]) % 0x20 == Length(log[k])
    ensures Descr(log[k]) / 0x20 == 1 <==> log[k].Bytes?
    ensures Descr(log[k]) / 0x20 != 0
  {
    hide Place, Pointer, MaybePointer, KindCode, PostCode;
    assert mem[Place(log, k)] == mem[Place(log, k)..Place(log, k) + Length(log[k])][0];
  }

  /** What the byte at `top` says. */
  lemma TopDescr(mem: seq<Byte>, base: Word, log: seq<Record>, top: nat)
    requires Laid(mem, base, log) && Place(log, |log|) < |mem|
    requires top == (if OpenRun(log) then Place(log, |log| - 1) else Place(log, |log|))
    ensures top < |mem|
    ensures OpenRun(log) ==>
              && mem[top] / 0x20 == 1 && mem[top] % 0x20 == Length(log[|log| - 1])
              && top + mem[top] % 0x20 == Place(log, |log|) && mem[top] == 0x20 + mem[top] % 0x20
    ensures !OpenRun(log) ==> mem[top] == 0
  {
    hide Laid, Place, Length;
    if OpenRun(log) {
      OpenDescr(mem, base, log);
    } else {
      ClosedDescr(mem, base, log);
    }
  }

  lemma OpenDescr(mem: seq<Byte>, base: Word, log: seq<Record>)
    requires Laid(mem, base, log) && OpenRun(log)
    ensures var top := Place(log, |log| - 1);
            && top < |mem| && mem[top] / 0x20 == 1 && mem[top] % 0x20 == Length(log[|log| - 1])
            && top + mem[top] % 0x20 == Place(log, |log|) && mem[top] == 0x20 + mem[top] % 0x20
  {
    var n := |log| - 1;
    assert RecordAt(mem, base, log, n) && log[n].Bytes?;
    hide *;
    PlaceStep(log, n);
    DescrAt(mem, base, log, n);
    ByteParts(mem[Place(log, n)]);
  }

  lemma ClosedDescr(mem: seq<Byte>, base: Word, log: seq<Record>)
    requires Laid(mem, base, log) && Place(log, |log|) < |mem|
    ensures mem[Place(log, |log|)] == 0
  {
    hide Place, RecordAt;
  }

  lemma ByteParts(b: Byte)
    ensures b == 0x20 * (b / 0x20) + b % 0x20
  {
  }

  lemma NameDescr(len: nat)
    requires len <= 0x1f
    ensures (0x60 + len) % 0x20 == len
  {
  }
}
