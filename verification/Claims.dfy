/**
 Who holds which blocks. A holding is the list of block numbers of one directory entry, or of the
 open FCB; zero stands for no block.
 */
module Claims {
  import opened Bytes
  import opened Bitmap

  /** No block is held twice. */
  ghost predicate Disjoint(h: seq<seq<Word>>)
  {
    forall i, s, j, t ::
      && 0 <= i < |h| && 0 <= s < |h[i]| && 0 <= j < |h| && 0 <= t < |h[j]|
      && h[i][s] == h[j][t] && h[i][s] != 0
      ==> i == j && s == t
  }

  /** Every block held lies behind the directory and is marked in the map. */
  ghost predicate Held(h: seq<seq<Word>>, bits: seq<bv8>, first: nat, last: nat)
  {
    && Covers(bits, last + 1)
    && forall i, s :: 0 <= i < |h| && 0 <= s < |h[i]| && h[i][s] != 0 ==>
         first <= h[i][s] <= last && Bit(bits, h[i][s])
  }

  /** Some blocks given up, none gained. */
  ghost predicate Below(a: seq<Word>, b: seq<Word>)
  {
    |a| <= |b| && forall s :: 0 <= s < |a| ==> a[s] == 0 || a[s] == b[s]
  }

  lemma Shrink(h: seq<seq<Word>>, bits: seq<bv8>, first: nat, last: nat, i: nat, a: seq<Word>)
    requires Disjoint(h) && Held(h, bits, first, last) && i < |h| && Below(a, h[i])
    ensures Disjoint(h[i := a]) && Held(h[i := a], bits, first, last)
  {
    hide Bit;
  }

  lemma Zeroes(h: seq<seq<Word>>, bits: seq<bv8>, first: nat, last: nat, i: nat, z: seq<Word>)
    requires Disjoint(h) && Held(h, bits, first, last) && i < |h|
    requires forall t :: 0 <= t < |z| ==> z[t] == 0
    ensures Disjoint(h[i := z]) && Held(h[i := z], bits, first, last)
  {
    hide Bit;
  }

  /** A block that was not marked is nobody's, so its new holder shares it with no one. */
  lemma Take(h: seq<seq<Word>>, bits: seq<bv8>, first: nat, last: nat, i: nat, s: nat, block: Word,
             taken: seq<Word>)
    requires Disjoint(h) && Held(h, bits, first, last) && i < |h| && s < |h[i]| && taken == h[i][s := block]
    requires first <= block <= last && !Bit(bits, block)
    ensures Disjoint(h[i := taken])
    ensures Held(h[i := taken], WithBit(bits, block, true), first, last)
  {
    var h' := h[i := taken];
    var bits' := WithBit(bits, block, true);
    hide Bit, WithBit;
    forall j, t | 0 <= j < |h'| && 0 <= t < |h'[j]| && h'[j][t] != 0
      ensures first <= h'[j][t] <= last && Bit(bits', h'[j][t])
    {
      WithBitBits(bits, block, true, h'[j][t]);
      if !(j == i && t == s) {
        assert h'[j][t] == h[j][t];
      }
    }
    forall j, t, k, u | 0 <= j < |h'| && 0 <= t < |h'[j]| && 0 <= k < |h'| && 0 <= u < |h'[k]| &&
                        h'[j][t] == h'[k][u] && h'[j][t] != 0
      ensures j == k && t == u
    {
      if !(j == i && t == s) {
        assert h'[j][t] == h[j][t];
      }
      if !(k == i && u == s) {
        assert h'[k][u] == h[k][u];
      }
    }
  }

  /** Blocks go from one holding to unused places of another. */
  lemma Move(h: seq<seq<Word>>, bits: seq<bv8>, first: nat, last: nat, i: nat, n: nat, a: seq<Word>, b: seq<Word>)
    requires Disjoint(h) && Held(h, bits, first, last) && i < |h| && n < |h| && i != n
    requires |a| == |h[i]| == |b| == |h[n]|
    requires forall s :: 0 <= s < |a| ==>
               || (a[s] == h[i][s] && b[s] == h[n][s])
               || (h[i][s] == 0 && a[s] == h[n][s] && b[s] == 0)
    ensures Disjoint(h[i := a][n := b]) && Held(h[i := a][n := b], bits, first, last)
  {
    var h' := h[i := a][n := b];
    hide Bit;
    forall j, t | 0 <= j < |h'| && 0 <= t < |h'[j]| && h'[j][t] != 0
      ensures exists j' :: 0 <= j' < |h| && t < |h[j']| && h[j'][t] == h'[j][t]
                      && (j' == j || (j == i && j' == n && b[t] == 0))
    {
      var j' := if j == i && h[i][t] == 0 then n else j;
      assert h[j'][t] == h'[j][t];
    }
  }

  /** Giving up a whole holding and unmarking its blocks leaves all others marked. */
  lemma Free(h: seq<seq<Word>>, bits: seq<bv8>, first: nat, last: nat, i: nat)
    requires Disjoint(h) && Held(h, bits, first, last) && i < |h|
    ensures InMap(bits, h[i])
    ensures Disjoint(h[i := []]) && Held(h[i := []], MarkSlots(bits, h[i], false), first, last)
  {
    HoldingInMap(h, bits, first, last, i);
    var bits' := MarkSlots(bits, h[i], false);
    hide Bit, MarkSlots;
    forall j, t | 0 <= j < |h| && j != i && 0 <= t < |h[j]| && h[j][t] != 0
      ensures Bit(bits', h[j][t])
    {
      MarkSlotsBits(bits, h[i], false, h[j][t]);
    }
  }

  lemma HoldingInMap(h: seq<seq<Word>>, bits: seq<bv8>, first: nat, last: nat, i: nat)
    requires Held(h, bits, first, last) && i < |h|
    ensures InMap(bits, h[i])
  {
    hide Bit;
    forall s: nat | s < |h[i]|
      ensures h[i][s] / 8 < |bits|
    {
      if h[i][s] != 0 {
        assert h[i][s] <= last;
      }
    }
  }

  /** Blocks before the first one for data keep their marks when a holding is freed. */
  lemma FreeKeepsFirst(h: seq<seq<Word>>, bits: seq<bv8>, first: nat, last: nat, i: nat)
    requires Held(h, bits, first, last) && i < |h| && AllUsed(bits, 0, first) && InMap(bits, h[i])
    ensures AllUsed(MarkSlots(bits, h[i], false), 0, first)
  {
    hide Bit, MarkSlots;
    forall b | 0 <= b < first
      ensures Bit(MarkSlots(bits, h[i], false), b)
    {
      MarkSlotsBits(bits, h[i], false, b);
    }
  }
}
