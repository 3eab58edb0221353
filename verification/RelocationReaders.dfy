/**
 The two independent readers of the relocation format: the emulator's, in C
 (tools/cpmemu/biosbdos.c:83-113), and the BIOS's, in 6502 assembly (src/lib/relocate.S).
 Both change memory in place while they read the stream from the same memory.
 */
module RelocationReaders {
  import opened Bytes
  import opened NibbleStream

  /** None of the marked bytes lies in [lo, hi). */
  ghost predicate Clear(base: Word, offsets: seq<Word>, lo: nat, hi: nat)
  {
    forall i :: 0 <= i < |offsets| ==> !(lo <= ToWord(base + offsets[i]) < hi)
  }

  /** None of the bytes these nibbles mark lies in [lo, hi). */
  ghost predicate ClearNibbles(address: Word, nibbles: seq<Nibble>, lo: nat, hi: nat)
    decreases |nibbles|
  {
    nibbles == [] ||
    (var next := ToWord(address + nibbles[0]);
     && (nibbles[0] == SKIP || !(lo <= next < hi))
     && ClearNibbles(next, nibbles[1..], lo, hi))
  }

  lemma {:induction false} ClearDistance(address: Word, delta: nat, rest: seq<Nibble>, lo: nat, hi: nat)
    requires !(lo <= ToWord(address + delta) < hi)
    requires ClearNibbles(ToWord(address + delta), rest, lo, hi)
    ensures ClearNibbles(address, Distance(delta) + rest, lo, hi)
    decreases delta
  {
    hide ToWord;
    DistanceIs(delta);
    hide Distance;
    if delta >= SKIP {
      var next: int := ToWord(address + SKIP);
      ToWordAdd(address + SKIP, delta - SKIP);
      ClearDistance(next, delta - SKIP, rest, lo, hi);
      ClearFirst(address, SKIP, Distance(delta - SKIP) + rest, lo, hi);
      assert Distance(delta) + rest == [SKIP] + (Distance(delta - SKIP) + rest);
    } else {
      ClearFirst(address, delta, rest, lo, hi);
      assert Distance(delta) + rest == [delta] + rest;
    }
  }

  lemma DistanceIs(delta: nat)
    ensures Distance(delta) == if delta >= SKIP then [SKIP] + Distance(delta - SKIP) else [delta]
  {
  }

  lemma ClearFirst(address: Word, n: Nibble, rest: seq<Nibble>, lo: nat, hi: nat)
    ensures ClearNibbles(address, [n] + rest, lo, hi)
       <==> (n == SKIP || !(lo <= ToWord(address + n) < hi)) && ClearNibbles(ToWord(address + n), rest, lo, hi)
  {
    assert ([n] + rest)[1..] == rest;
    hide ToWord;
  }

  lemma {:induction false} ClearDistances(base: Word, from: Word, offsets: seq<Word>, lo: nat, hi: nat)
    requires Clear(base, offsets, lo, hi)
    ensures ClearNibbles(ToWord(base + from), Distances(offsets, from), lo, hi)
    decreases |offsets|
  {
    if offsets != [] {
      WrappedDistance(base, from, offsets[0]);
      assert Clear(base, offsets[1..], lo, hi);
      ClearDistances(base, offsets[0], offsets[1..], lo, hi);
      ClearDistance(ToWord(base + from), ToWord(offsets[0] - from), Distances(offsets[1..], offsets[0]), lo, hi);
    }
  }

  /** The stream for `offsets` lies at `table`, out of reach of the fix-ups it asks for. */
  ghost predicate StreamAt(mem: seq<Byte>, table: nat, base: Word, offsets: seq<Word>)
    requires |mem| == 0x1_0000
  {
    var end := table + |Encode(offsets)|;
    && end <= 0x1_0000
    && mem[table..end] == Encode(offsets)
    && Clear(base, offsets, table, end)
  }

  /** A reader with `done` nibbles behind it, on the way to memory `goal`. */
  ghost predicate Reading(mem: seq<Byte>, table: nat, address: Word, offsets: seq<Word>, done: nat,
                          addend: Byte, goal: seq<Byte>)
    requires |mem| == 0x1_0000
  {
    var marks := Distances(offsets, 0);
    var end := table + |Encode(offsets)|;
    && end <= 0x1_0000 && mem[table..end] == Encode(offsets)
    && done <= |marks|
    && ClearNibbles(address, marks[done..], table, end)
    && Items(mem, address, marks[done..], addend).0 == goal
  }

  lemma ReadingStarts(mem: seq<Byte>, table: nat, base: Word, offsets: seq<Word>, addend: Byte)
    requires |mem| == 0x1_0000 && StreamAt(mem, table, base, offsets)
    ensures Reading(mem, table, base, offsets, 0, addend, AddAll(mem, base, offsets, addend))
  {
    hide Items, Distances, AddAll, Encode, ClearNibbles, Clear;
    assert Distances(offsets, 0)[0..] == Distances(offsets, 0);
    assert ToWord(base + 0) == base;
    ClearDistances(base, 0, offsets, table, table + |Encode(offsets)|);
    ItemsDistances(mem, base, 0, offsets, addend);
  }

  /** What the byte at the reader's place holds. */
  lemma ReadingByte(mem: seq<Byte>, table: nat, address: Word, offsets: seq<Word>, done: nat,
                    addend: Byte, goal: seq<Byte>)
    requires |mem| == 0x1_0000 && Reading(mem, table, address, offsets, done, addend, goal)
    requires done % 2 == 0
    ensures done <= |Distances(offsets, 0)| && |Encode(offsets)| == |Distances(offsets, 0)| / 2 + 1
    ensures table + done / 2 < table + |Encode(offsets)| <= 0x1_0000
    ensures var marks := Distances(offsets, 0);
            var b := mem[table + done / 2];
            && (b / 0x10 == STOP <==> done == |marks|)
            && (done < |marks| ==> b / 0x10 == marks[done])
            && (done < |marks| ==> (b % 0x10 == STOP <==> done + 1 == |marks|))
            && (done + 1 < |marks| ==> b % 0x10 == marks[done + 1])
  {
    hide Items, Distances, Pack, ClearNibbles;
    var marks := Distances(offsets, 0);
    PackSize(marks + [STOP]);
    PackAt(marks + [STOP], done / 2);
    NoStopInside(offsets, 0);
    assert mem[table..table + |Encode(offsets)|][done / 2] == mem[table + done / 2];
  }

  /** At the end of the stream nothing is left to do. */
  lemma ReadingEnds(mem: seq<Byte>, table: nat, address: Word, offsets: seq<Word>, addend: Byte, goal: seq<Byte>)
    requires |mem| == 0x1_0000
    requires Reading(mem, table, address, offsets, |Distances(offsets, 0)|, addend, goal)
    ensures mem == goal
  {
  }

  /** One nibble further. */
  lemma ReadingItem(mem: seq<Byte>, table: nat, address: Word, offsets: seq<Word>, done: nat,
                    addend: Byte, goal: seq<Byte>)
    requires |mem| == 0x1_0000 && Reading(mem, table, address, offsets, done, addend, goal)
    requires done < |Distances(offsets, 0)|
    ensures var (mem', next) := Item(mem, address, Distances(offsets, 0)[done], addend);
            Reading(mem', table, next, offsets, done + 1, addend, goal)
  {
    hide Distances, Encode;
    var marks := Distances(offsets, 0);
    var end := table + |Encode(offsets)|;
    var (mem', next) := Item(mem, address, marks[done], addend);
    assert marks[done..][1..] == marks[done + 1..];
    assert mem'[table..end] == mem[table..end];
  }

  // ---------- tools/cpmemu/biosbdos.c ----------

  method DoRelocationItem(ram: array<Byte>, address: Word, n: Nibble, addend: Byte) returns (next: Word)
    requires ram.Length == 0x1_0000
    modifies ram
    ensures (ram[..], next) == Item(old(ram[..]), address, n, addend)
  {
    next := ToWord(address + n);
    if n != 0xe {
      ram[next] := ToByte(ram[next] + addend);
    }
  }

  /** Marks exactly the encoded offsets and returns the address just past the stream. */
  method DoRelocation(ram: array<Byte>, relotable: Word, addend: Byte, base: Word, ghost offsets: seq<Word>)
      returns (rest: Word)
    requires ram.Length == 0x1_0000
    requires StreamAt(ram[..], relotable, base, offsets)
    modifies ram
    ensures ram[..] == AddAll(old(ram[..]), base, offsets, addend)
    ensures rest == ToWord(relotable + |Encode(offsets)|)
  {
    hide Reading, Items, Item, Distances, Encode, AddAll, StreamAt;
    ghost var marks, goal := Distances(offsets, 0), AddAll(ram[..], base, offsets, addend);
    ghost var done: nat := 0;
    ReadingStarts(ram[..], relotable, base, offsets, addend);
    var address := base;
    rest := relotable;
    while true
      invariant done % 2 == 0 && Reading(ram[..], relotable, address, offsets, done, addend, goal)
      invariant rest == relotable + done / 2
      decreases |marks| - done
    {
      ReadingByte(ram[..], relotable, address, offsets, done, addend, goal);
      var b := ram[rest];
      rest := ToWord(rest + 1);
      if b / 0x10 == 0xf {
        ReadingEnds(ram[..], relotable, address, offsets, addend, goal);
        return;
      }
      ReadingItem(ram[..], relotable, address, offsets, done, addend, goal);
      address := DoRelocationItem(ram, address, b / 0x10, addend);
      if b % 0x10 == 0xf {
        ReadingEnds(ram[..], relotable, address, offsets, addend, goal);
        return;
      }
      ReadingItem(ram[..], relotable, address, offsets, done + 1, addend, goal);
      address := DoRelocationItem(ram, address, b % 0x10, addend);
      done := done + 2;
    }
  }

  // ---------- src/lib/relocate.S ----------

  lemma Within(x: nat)
    ensures x < 0x1_0000 ==> ToWord(x) == x
  {
  }

  /**
   The BIOS relocator. `ptr` and the operand of the self-modified load `reloptr$` are pairs of
   bytes; `byte$` is the operand that keeps the byte whose second half is still to be looked at.
   */
  class BiosRelocator {
    const mem: array<Byte>
    var ptrLo: Byte
    var ptrHi: Byte
    var reloptrLo: Byte
    var reloptrHi: Byte
    var byte: Byte

    constructor (memory: array<Byte>)
      ensures mem == memory
    {
      mem := memory;
      ptrLo, ptrHi, reloptrLo, reloptrHi, byte := 0, 0, 0, 0, 0;
    }

    function Ptr(): Word
      reads this
    {
      0x100 * ptrHi + ptrLo
    }

    function Reloptr(): Word
      reads this
    {
      0x100 * reloptrHi + reloptrLo
    }

    method IncReloptr()
      modifies this`reloptrLo, this`reloptrHi
      ensures Reloptr() == ToWord(old(Reloptr()) + 1)
    {
      reloptrLo := ToByte(reloptrLo + 1);
      if reloptrLo == 0 {
        reloptrHi := ToByte(reloptrHi + 1);
      }
    }

    method AdvancePtr(a: Byte)
      modifies this`ptrLo, this`ptrHi
      ensures Ptr() == ToWord(old(Ptr()) + a)
    {
      var (sum, carry) := Adc(a, ptrLo, false);
      ptrLo := sum;
      if carry {
        ptrHi := ToByte(ptrHi + 1);
      }
    }

    /** relocate$: moves ptr on by A, carrying into the high byte, and adds X unless A is 14. */
    method RelocateNibble(a: Nibble, x: Byte)
      requires mem.Length == 0x1_0000
      modifies this`ptrLo, this`ptrHi, mem
      ensures (mem[..], Ptr()) == Item(old(mem[..]), old(Ptr()), a, x)
    {
      AdvancePtr(a);
      if a != 0xe {
        var p := Ptr();
        var (fixed, _) := Adc(x, mem[p], false);
        mem[p] := fixed;
      }
    }

    /** relocate_loop$: walks the stream at reloptr, fixing up from ptr, and leaves reloptr past it. */
    method RelocateLoop(x: Byte, ghost offsets: seq<Word>)
      requires mem.Length == 0x1_0000
      requires StreamAt(mem[..], Reloptr(), Ptr(), offsets)
      modifies this, mem
      ensures mem[..] == AddAll(old(mem[..]), old(Ptr()), offsets, x)
      ensures Reloptr() == ToWord(old(Reloptr()) + |Encode(offsets)|)
    {
      hide Reading, Items, Item, Distances, Encode, AddAll, StreamAt, ToWord;
      ghost var marks, goal := Distances(offsets, 0), AddAll(mem[..], Ptr(), offsets, x);
      ghost var table: nat := Reloptr();
      ghost var done: nat := 0;
      ReadingStarts(mem[..], table, Ptr(), offsets, x);
      while true
        invariant done % 2 == 0 && Reading(mem[..], table, Ptr(), offsets, done, x, goal)
        invariant Reloptr() == table + done / 2
        decreases |marks| - done
      {
        ReadingByte(mem[..], table, Ptr(), offsets, done, x, goal);
        var a := mem[Reloptr()];
        Within(table + done / 2 + 1);
        IncReloptr();
        byte := a;
        if a / 0x10 == 0xf {
          ReadingEnds(mem[..], table, Ptr(), offsets, x, goal);
          break;
        }
        ReadingItem(mem[..], table, Ptr(), offsets, done, x, goal);
        RelocateNibble(a / 0x10, x);
        if byte % 0x10 == 0xf {
          ReadingEnds(mem[..], table, Ptr(), offsets, x, goal);
          break;
        }
        ReadingItem(mem[..], table, Ptr(), offsets, done + 1, x, goal);
        RelocateNibble(byte % 0x10, x);
        done := done + 2;
      }
    }
  }
}
