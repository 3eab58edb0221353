/**
 The relocation format (doc/NOTES.md:67-83): a string of nibbles, two to a byte with the high
 half first. A nibble below 14 moves the address on and marks a byte to be fixed up, 14 only
 moves it on, and 15 ends the stream.

 All distances are 16-bit, so the definitions work for every list of offsets; a list that is not
 ascending is encoded by distances that wrap.
 */
module NibbleStream {
  import opened Bytes

  const SKIP: Nibble := 0xe
  const STOP: Nibble := 0xf

  /** The nibbles that move the address on by `delta` and mark the byte there. */
  function Distance(delta: nat): (nibbles: seq<Nibble>)
  {
    if delta >= SKIP then [SKIP] + Distance(delta - SKIP) else [delta]
  }

  /** The nibbles that mark each of `offsets`, starting from address `from`. */
  function Distances(offsets: seq<Word>, from: Word): seq<Nibble>
  {
    if offsets == [] then []
    else Distance(ToWord(offsets[0] - from)) + Distances(offsets[1..], offsets[0])
  }

  function Join(high: Nibble, low: Nibble): (b: Byte)
    ensures b / 0x10 == high && b % 0x10 == low
  {
    0x10 * high + low
  }

  /** Two nibbles to a byte, the last byte filled up with a zero nibble. */
  function Pack(nibbles: seq<Nibble>): seq<Byte>
  {
    if nibbles == [] then []
    else if |nibbles| == 1 then [Join(nibbles[0], 0)]
    else [Join(nibbles[0], nibbles[1])] + Pack(nibbles[2..])
  }

  /** The whole stream for a list of offsets from the start of the image. */
  function Encode(offsets: seq<Word>): seq<Byte>
  {
    Pack(Distances(offsets, 0) + [STOP])
  }

  // ---------- what a stream means ----------

  /** `addend` added to the byte at `address`, in eight bits. */
  function AddAt(mem: seq<Byte>, address: Word, addend: Byte): (r: seq<Byte>)
    requires |mem| == 0x1_0000
    ensures |r| == |mem|
  {
    mem[address := ToByte(mem[address] + addend)]
  }

  /** `addend` added at every one of `offsets` from `base`. */
  function AddAll(mem: seq<Byte>, base: Word, offsets: seq<Word>, addend: Byte): (r: seq<Byte>)
    requires |mem| == 0x1_0000
    ensures |r| == |mem|
    decreases |offsets|
  {
    if offsets == [] then mem
    else AddAll(AddAt(mem, ToWord(base + offsets[0]), addend), base, offsets[1..], addend)
  }

  /** How often the byte at `address` is marked. */
  function Hits(base: Word, offsets: seq<Word>, address: Word): nat
  {
    if offsets == [] then 0
    else (if ToWord(base + offsets[0]) == address then 1 else 0) + Hits(base, offsets[1..], address)
  }

  /** Byte by byte: each byte gains the addend once for every mark on it, and no other changes. */
  lemma {:induction false} AddAllAt(mem: seq<Byte>, base: Word, offsets: seq<Word>, addend: Byte, address: Word)
    requires |mem| == 0x1_0000
    ensures AddAll(mem, base, offsets, addend)[address]
         == ToByte(mem[address] + addend * Hits(base, offsets, address))
    decreases |offsets|
  {
    if offsets == [] {
    } else {
      var mem' := AddAt(mem, ToWord(base + offsets[0]), addend);
      AddAllAt(mem', base, offsets[1..], addend, address);
      if ToWord(base + offsets[0]) == address {
        OneMore(mem[address], addend, Hits(base, offsets[1..], address));
      }
    }
  }

  lemma OneMore(value: int, addend: int, hits: nat)
    ensures ToByte(ToByte(value + addend) + addend * hits) == ToByte(value + addend * (1 + hits))
  {
    var rest := addend * hits;
    assert addend * (1 + hits) == addend + rest;
    ToByteAdd(value + addend, rest);
  }

  // ---------- a reader, nibble by nibble ----------

  /** One nibble: move on, and fix up unless the nibble is 14. */
  function Item(mem: seq<Byte>, address: Word, n: Nibble, addend: Byte): (r: (seq<Byte>, Word))
    requires |mem| == 0x1_0000
    ensures |r.0| == 0x1_0000
  {
    var next := ToWord(address + n);
    (if n == SKIP then mem else AddAt(mem, next, addend), next)
  }

  function Items(mem: seq<Byte>, address: Word, nibbles: seq<Nibble>, addend: Byte): (r: (seq<Byte>, Word))
    requires |mem| == 0x1_0000
    ensures |r.0| == 0x1_0000
    decreases |nibbles|
  {
    if nibbles == [] then (mem, address)
    else
      var (mem', next) := Item(mem, address, nibbles[0], addend);
      Items(mem', next, nibbles[1..], addend)
  }

  lemma {:induction false} ItemsConcat(mem: seq<Byte>, address: Word, xs: seq<Nibble>, ys: seq<Nibble>, addend: Byte)
    requires |mem| == 0x1_0000
    ensures var (mem', next) := Items(mem, address, xs, addend);
            Items(mem, address, xs + ys, addend) == Items(mem', next, ys, addend)
    decreases |xs|
  {
    if xs == [] {
      assert xs + ys == ys;
    } else {
      assert (xs + ys)[1..] == xs[1..] + ys;
      var (mem', next) := Item(mem, address, xs[0], addend);
      ItemsConcat(mem', next, xs[1..], ys, addend);
    }
  }

  lemma {:induction false} ItemsDistance(mem: seq<Byte>, address: Word, delta: nat, addend: Byte)
    requires |mem| == 0x1_0000
    ensures Items(mem, address, Distance(delta), addend)
         == (AddAt(mem, ToWord(address + delta), addend), ToWord(address + delta))
    decreases delta
  {
    if delta >= SKIP {
      var next := ToWord(address + SKIP);
      var rest: nat := delta - SKIP;
      assert Distance(delta) == [SKIP] + Distance(rest);
      assert Distance(delta)[1..] == Distance(rest);
      assert Items(mem, address, Distance(delta), addend) == Items(mem, next, Distance(rest), addend);
      ItemsDistance(mem, next, rest, addend);
      assert ToWord(next + rest) == ToWord(address + delta);
    } else {
      var n: Nibble := delta;
      assert Distance(delta) == [n] && [n][1..] == [];
      var (mem', next) := Item(mem, address, n, addend);
      assert Items(mem, address, [n], addend) == Items(mem', next, [], addend);
    }
  }

  lemma WrappedDistance(base: int, from: int, offset: int)
    ensures ToWord(ToWord(base + from) + ToWord(offset - from)) == ToWord(base + offset)
  {
    ToWordAdd(ToWord(base + from), offset - from);
    ToWordAdd(base + from, offset - from);
  }

  /** Decoding undoes encoding: exactly the encoded offsets are marked, in order. */
  lemma {:induction false} ItemsDistances(mem: seq<Byte>, base: Word, from: Word, offsets: seq<Word>, addend: Byte)
    requires |mem| == 0x1_0000
    ensures Items(mem, ToWord(base + from), Distances(offsets, from), addend).0
         == AddAll(mem, base, offsets, addend)
    decreases |offsets|
  {
    if offsets == [] {
    } else {
      var address: int, delta: int := ToWord(base + from), ToWord(offsets[0] - from);
      WrappedDistance(base, from, offsets[0]);
      ItemsDistance(mem, address, delta, addend);
      ItemsConcat(mem, address, Distance(delta), Distances(offsets[1..], offsets[0]), addend);
      ItemsDistances(AddAt(mem, ToWord(base + offsets[0]), addend), base, offsets[0], offsets[1..], addend);
    }
  }

  /** Distances never contain the end mark, so a reader stops only where the stream ends. */
  lemma {:induction false} NoStopInside(offsets: seq<Word>, from: Word)
    ensures forall i :: 0 <= i < |Distances(offsets, from)| ==> Distances(offsets, from)[i] != STOP
  {
    if offsets == [] {
    } else {
      NoStopInDistance(ToWord(offsets[0] - from));
      NoStopInside(offsets[1..], offsets[0]);
    }
  }

  lemma {:induction false} NoStopInDistance(delta: nat)
    ensures forall i :: 0 <= i < |Distance(delta)| ==> Distance(delta)[i] != STOP
    decreases delta
  {
    if delta >= SKIP {
      NoStopInDistance(delta - SKIP);
    }
  }

  // ---------- packing ----------

  lemma {:induction false} PackSize(nibbles: seq<Nibble>)
    ensures |Pack(nibbles)| == (|nibbles| + 1) / 2
  {
    if |nibbles| >= 2 {
      PackSize(nibbles[2..]);
    }
  }

  /** Byte i holds nibbles 2i and 2i+1. */
  lemma {:induction false} PackAt(nibbles: seq<Nibble>, i: nat)
    requires 2 * i < |nibbles|
    ensures i < |Pack(nibbles)|
    ensures Pack(nibbles)[i] / 0x10 == nibbles[2 * i]
    ensures Pack(nibbles)[i] % 0x10 == if 2 * i + 1 < |nibbles| then nibbles[2 * i + 1] else 0
  {
    if i == 0 {
    } else {
      PackAt(nibbles[2..], i - 1);
      assert nibbles[2..][2 * (i - 1)] == nibbles[2 * i];
      if 2 * i + 1 < |nibbles| {
        assert nibbles[2..][2 * (i - 1) + 1] == nibbles[2 * i + 1];
      }
    }
  }

  /** Whole bytes can be packed first. */
  lemma {:induction false} PackConcat(xs: seq<Nibble>, ys: seq<Nibble>)
    requires |xs| % 2 == 0
    ensures Pack(xs + ys) == Pack(xs) + Pack(ys)
  {
    if xs == [] {
      assert xs + ys == ys;
    } else {
      assert (xs + ys)[2..] == xs[2..] + ys;
      PackConcat(xs[2..], ys);
    }
  }
}
