/**
 The allocation bitmap (src/bdos/filesystem.S:1538-1640, src/bdos/utils.S:71-94): one bit a block,
 the lowest-numbered block in the top bit of a byte.
 */
module Bitmap {
  import opened Bytes

  // ---------- single bytes ----------

  /** The bit with value 2^n. */
  function Mask(n: nat): (m: bv8)
    requires n < 8
    ensures m != 0
  {
    match n
    case 0 => 0x01
    case 1 => 0x02
    case 2 => 0x04
    case 3 => 0x08
    case 4 => 0x10
    case 5 => 0x20
    case 6 => 0x40
    case _ => 0x80
  }

  predicate BitAt(b: bv8, n: nat)
    requires n < 8
  {
    b & Mask(n) != 0
  }

  /** `lsr a`, with the bit that falls out put back at the top. */
  function RotateRight(b: bv8): bv8
  {
    if b & 1 != 0 then (b >> 1) | 0x80 else b >> 1
  }

  /** `asl a; adc #0` */
  function RotateLeft(b: bv8): bv8
  {
    if b & 0x80 != 0 then (b << 1) + 1 else b << 1
  }

  function RotateRightBy(b: bv8, n: nat): bv8
    decreases n
  {
    if n == 0 then b else RotateRightBy(RotateRight(b), n - 1)
  }

  function RotateLeftBy(b: bv8, n: nat): bv8
    decreases n
  {
    if n == 0 then b else RotateLeftBy(RotateLeft(b), n - 1)
  }

  lemma RotateRightBits(b: bv8, n: nat)
    requires n < 8
    ensures BitAt(RotateRight(b), n) == BitAt(b, if n == 7 then 0 else n + 1)
  {
  }

  lemma RotateLeftBits(b: bv8, n: nat)
    requires n < 8
    ensures BitAt(RotateLeft(b), n) == BitAt(b, if n == 0 then 7 else n - 1)
  {
  }

  /** Bit n, counted k places further round. */
  function Round(n: nat, k: nat): (r: nat)
    requires n < 8 && k < 8
    ensures r < 8
  {
    if n + k < 8 then n + k else n + k - 8
  }

  /** Rotating right by k brings bit n + k to bit n, */
  lemma {:induction false} RotatedRight(b: bv8, k: nat, n: nat)
    requires n < 8 && k < 8
    ensures BitAt(RotateRightBy(b, k), n) == BitAt(b, Round(n, k))
    decreases k
  {
    hide BitAt, RotateRight;
    if k > 0 {
      RotatedRight(RotateRight(b), k - 1, n);
      RotateRightBits(b, Round(n, k - 1));
    }
  }

  /** and rotating left takes it back. */
  lemma {:induction false} RotatedLeft(b: bv8, k: nat, n: nat)
    requires n < 8 && k < 8
    ensures BitAt(RotateLeftBy(b, k), Round(n, k)) == BitAt(b, n)
    decreases k
  {
    hide BitAt, RotateLeft;
    if k > 0 {
      RotateLeftBits(b, Round(n, 1));
      RotatedLeft(RotateLeft(b), k - 1, Round(n, 1));
    }
  }

  /** Rotate, replace the bottom bit, rotate back. */
  function Replace(b: bv8, k: nat, value: bv8): bv8
  {
    RotateLeftBy((RotateRightBy(b, k) & 0xfe) | value, k)
  }

  lemma BottomBit(b: bv8, value: bv8, n: nat)
    requires value <= 1 && n < 8
    ensures BitAt((b & 0xfe) | value, n) == if n == 0 then value == 1 else BitAt(b, n)
  {
  }

  /** Exactly one bit is replaced. */
  lemma ReplaceBits(b: bv8, k: nat, value: bv8, n: nat)
    requires k < 8 && n < 8 && value <= 1
    ensures BitAt(Replace(b, k, value), n) == if n == k then value == 1 else BitAt(b, n)
  {
    hide BitAt, RotateLeftBy, RotateRightBy;
    var m := if n >= k then n - k else n + 8 - k;
    var rotated := RotateRightBy(b, k);
    RotatedLeft((rotated & 0xfe) | value, k, m);
    BottomBit(rotated, value, m);
    RotatedRight(b, k, m);
  }

  // ---------- the map ----------

  /** Room for n blocks. */
  predicate Covers(bits: seq<bv8>, n: nat) { n <= 8 * |bits| }

  predicate Bit(bits: seq<bv8>, block: nat)
    requires block / 8 < |bits|
  {
    BitAt(bits[block / 8], 7 - block % 8)
  }

  /** The map with one block marked used or free. */
  function WithBit(bits: seq<bv8>, block: nat, used: bool): (r: seq<bv8>)
    requires block / 8 < |bits|
    ensures |r| == |bits|
  {
    bits[block / 8 := Replace(bits[block / 8], 7 - block % 8, if used then 1 else 0)]
  }

  /** Marking a block touches that block and no other. */
  lemma WithBitBits(bits: seq<bv8>, block: nat, used: bool, other: nat)
    requires block / 8 < |bits| && other / 8 < |bits|
    ensures Bit(WithBit(bits, block, used), other) == if other == block then used else Bit(bits, other)
  {
    hide Replace, BitAt;
    if other / 8 == block / 8 {
      ReplaceBits(bits[block / 8], 7 - block % 8, if used then 1 else 0, 7 - other % 8);
    }
  }

  /** Every block from lo up to hi is marked used. */
  ghost predicate AllUsed(bits: seq<bv8>, lo: nat, hi: nat)
  {
    Covers(bits, hi) && forall b :: lo <= b < hi ==> Bit(bits, b)
  }

  /** The allocator's bound test looks at one byte of the block number at a time. */
  predicate InBounds(block: Word, blocksOnDisk: Word)
  {
    Lo(block) < Lo(blocksOnDisk) || Hi(block) < Hi(blocksOnDisk)
  }

  /** On a scan that starts at 0 the test says what it should; */
  lemma BoundOnScan(block: Word, blocksOnDisk: Word)
    requires block <= blocksOnDisk
    ensures InBounds(block, blocksOnDisk) <==> block < blocksOnDisk
  {
  }

  /** it is a 16-bit comparison for all blocks exactly if DSM is a multiple of 256 or its high byte is $ff. */
  lemma BoundBeyond(blocksOnDisk: Word)
    ensures (forall block: Word :: InBounds(block, blocksOnDisk) <==> block < blocksOnDisk)
       <==> Lo(blocksOnDisk) == 0 || Hi(blocksOnDisk) == 0xff
  {
    if Lo(blocksOnDisk) > 0 && Hi(blocksOnDisk) < 0xff {
      var block: Word := 0x100 * (Hi(blocksOnDisk) + 1);
      assert Lo(block) == 0;
      assert block > blocksOnDisk && InBounds(block, blocksOnDisk);
    } else {
      forall block: Word
        ensures InBounds(block, blocksOnDisk) <==> block < blocksOnDisk
      {
        BoundAtEdge(block, blocksOnDisk);
      }
    }
  }

  lemma BoundAtEdge(block: Word, blocksOnDisk: Word)
    requires Lo(blocksOnDisk) == 0 || Hi(blocksOnDisk) == 0xff
    ensures InBounds(block, blocksOnDisk) <==> block < blocksOnDisk
  {
    var bh: int, bl: int, dh: int, dl: int := Hi(block), Lo(block), Hi(blocksOnDisk), Lo(blocksOnDisk);
    assert block == 0x100 * bh + bl && blocksOnDisk == 0x100 * dh + dl;
    hide Lo, Hi;
  }

  // ---------- marking the blocks of a directory entry ----------

  ghost predicate InMap(bits: seq<bv8>, slots: seq<Word>)
  {
    forall i :: 0 <= i < |slots| ==> slots[i] / 8 < |bits|
  }

  /** Every block in the list marked; a zero stands for no block. */
  function MarkSlots(bits: seq<bv8>, slots: seq<Word>, used: bool): (r: seq<bv8>)
    requires InMap(bits, slots)
    ensures |r| == |bits|
    decreases |slots|
  {
    if slots == [] then bits
    else
      var rest := slots[1..];
      assert InMap(bits, rest);
      MarkSlots(if slots[0] == 0 then bits else WithBit(bits, slots[0], used), rest, used)
  }

  lemma {:induction false} MarkSlotsBits(bits: seq<bv8>, slots: seq<Word>, used: bool, block: nat)
    requires InMap(bits, slots) && block / 8 < |bits|
    ensures Bit(MarkSlots(bits, slots, used), block)
         == if block != 0 && block in slots then used else Bit(bits, block)
    decreases |slots|
  {
    hide WithBit, BitAt;
    if slots != [] {
      var next := if slots[0] == 0 then bits else WithBit(bits, slots[0], used);
      assert slots == [slots[0]] + slots[1..];
      assert InMap(next, slots[1..]);
      MarkSlotsBits(next, slots[1..], used, block);
      if slots[0] != 0 {
        WithBitBits(bits, slots[0], used, block);
      }
    }
  }

  datatype Allocation = Block(block: Word) | DiskFull

  class Allocator {
    const bitmap: array<bv8>
    const blocksOnDisk: Word      // the DSM field of the DPB: one less than there are blocks

    constructor (dsm: Word)
      ensures blocksOnDisk == dsm && fresh(bitmap) && bitmap.Length == (dsm + 1 + 7) / 8
    {
      blocksOnDisk := dsm;
      bitmap := new bv8[(dsm + 1 + 7) / 8];
    }

    ghost predicate Valid()
      reads this
    {
      8 * bitmap.Length > blocksOnDisk
    }

    method RotateR8(a: bv8, x: nat) returns (r: bv8)
      requires x < 8
      ensures r == RotateRightBy(a, x)
    {
      r := a;
      var n: nat := x;
      while n != 0
        invariant 0 <= n <= x && RotateRightBy(r, n) == RotateRightBy(a, x)
      {
        var carry := r & 1 != 0;
        r := r >> 1;
        if carry {
          r := r | 0x80;
        }
        n := n - 1;
      }
    }

    method RotateL8(a: bv8, x: nat) returns (r: bv8)
      requires x < 8
      ensures r == RotateLeftBy(a, x)
    {
      r := a;
      var n: nat := x;
      while n != 0
        invariant 0 <= n <= x && RotateLeftBy(r, n) == RotateLeftBy(a, x)
      {
        var carry := r & 0x80 != 0;
        r := r << 1;
        if carry {
          r := r + 1;
        }
        n := n - 1;
      }
    }

    /** The byte of the bitmap a block is in, and how far to rotate it. */
    method GetBitmapLocation(block: Word) returns (offset: nat, bitpos: nat)
      ensures offset == block / 8 && bitpos == 7 - block % 8
    {
      var a: int := block % 8;
      a := 0xff - a;                    // eor #$ff
      a := ToByte(a + 7 + 1);           // sec; adc #7
      bitpos := a;
      offset := block;
      for i := 0 to 3                   // shiftr_temp0
        invariant offset == if i == 0 then block else if i == 1 then block / 2 else if i == 2 then block / 4 else block / 8
      {
        offset := offset / 2;
      }
    }

    /** The block's bit, rotated to the bottom. */
    method GetBitmapStatus(block: Word) returns (status: bv8)
      requires block / 8 < bitmap.Length
      ensures status & 1 == 1 <==> Bit(bitmap[..], block)
    {
      var offset, bitpos := GetBitmapLocation(block);
      status := RotateR8(bitmap[offset], bitpos);
      RotatedRight(bitmap[offset], bitpos, 0);
      assert BitAt(status, 0) <==> status & 1 == 1;
    }

    method UpdateBitmapStatus(block: Word, value: bv8)
      requires block / 8 < bitmap.Length && value <= 1
      modifies bitmap
      ensures bitmap[..] == WithBit(old(bitmap[..]), block, value == 1)
    {
      hide RotateRightBy, RotateLeftBy;
      var offset, bitpos := GetBitmapLocation(block);
      var a := RotateR8(bitmap[offset], bitpos);
      a := a & 0xfe;
      a := a | value;
      a := RotateL8(a, bitpos);
      assert a == Replace(bitmap[offset], bitpos, value);
      assert value == 0 || value == 1;
      bitmap[offset] := a;
    }

    /** The least free block below DSM, now used; or DiskFull, exactly when there is none. */
    method AllocateUnusedBlock() returns (r: Allocation)
      requires Valid()
      modifies bitmap
      ensures r == DiskFull <==> AllUsed(old(bitmap[..]), 0, blocksOnDisk)
      ensures r == DiskFull ==> bitmap[..] == old(bitmap[..])
      ensures r.Block? ==>
                && r.block < blocksOnDisk && !Bit(old(bitmap[..]), r.block) && AllUsed(old(bitmap[..]), 0, r.block)
                && bitmap[..] == WithBit(old(bitmap[..]), r.block, true)
    {
      hide WithBit, BitAt;
      var block: Word := 0;
      while true
        invariant block <= blocksOnDisk && AllUsed(bitmap[..], 0, block) && bitmap[..] == old(bitmap[..])
        decreases blocksOnDisk - block
      {
        BoundOnScan(block, blocksOnDisk);
        if !(block % 0x100 < blocksOnDisk % 0x100) {
          if !(block / 0x100 < blocksOnDisk / 0x100) {
            return DiskFull;
          }
        }
        var status := GetBitmapStatus(block);
        if status & 1 == 0 {
          break;
        }
        assert status & 1 == 1;
        block := block + 1;
      }
      UpdateBitmapStatus(block, 1);
      r := Block(block);
    }

    /** Clears the bytes that hold blocks below DSM; the count is rounded up in 16 bits. */
    method ZeroBitmap()
      requires Valid() && 0 < blocksOnDisk && blocksOnDisk + 7 < 0x1_0000
      modifies bitmap
      ensures forall i :: 0 <= i < (blocksOnDisk + 7) / 8 ==> bitmap[i] == 0
    {
      var count: nat := ToWord(blocksOnDisk + 7) / 8;
      var i := 0;
      while true
        invariant 0 <= i && 0 < count && i + count == (blocksOnDisk + 7) / 8
        invariant forall k :: 0 <= k < i ==> bitmap[k] == 0
        decreases count
      {
        bitmap[i] := 0;
        i := i + 1;
        count := count - 1;
        if count == 0 {
          break;
        }
      }
    }
  }
}
