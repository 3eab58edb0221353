/**
 The nibbles Apple II disks can hold and the tables between them and six-bit values
 (src/arch/apple2e/apple2e.S:126-155).
 */
module GcrTables {
  /** No two zeros in a row, at most one exception: of the bits 1 to 6 at most one marks a pair of zeros. */
  predicate AtMostOneBit(a: bv8) { a & (a - 1) == 0 }

  function ZeroPairs(x: bv8): bv8 { (((x << 1) | x) ^ 0xff) & 0x7e }

  /** The low seven bits of a nibble that can be written: a pair of ones, and at most one pair of zeros. */
  predicate Accepted(x: bv8) { (x << 1) & x != 0 && AtMostOneBit(ZeroPairs(x)) }

  /** All of them below x, in order. */
  function Codes(x: bv8): (r: seq<bv8>)
    ensures forall i :: 0 <= i < |r| ==> r[i] < x && Accepted(r[i])
    decreases x
  {
    if x == 0 then [] else Codes(x - 1) + if Accepted(x - 1) then [x - 1] else []
  }

  lemma {:induction false} CodesAscend(x: bv8)
    ensures forall i, j :: 0 <= i < j < |Codes(x)| ==> Codes(x)[i] < Codes(x)[j]
    decreases x
  {
    if x > 0 {
      CodesAscend(x - 1);
      CodesStep(x);
      hide Codes, Accepted;
    }
  }

  lemma CodesStep(x: bv8)
    requires x > 0
    ensures Codes(x) == Codes(x - 1) + if Accepted(x - 1) then [x - 1] else []
  {
  }

  lemma {:induction false} CodesGrow(x: bv8, last: bv8)
    requires x <= last
    ensures Codes(x) <= Codes(last)
    decreases last
  {
    if x < last {
      CodesGrow(x, last - 1);
    }
  }

  // ---------- nibbles ----------

  const START: bv8 := 0x96      // DECODE_TABLE_START, the least nibble

  /** The nibbles for the codes below x: the codes with the top bit set. */
  function Nibbles(x: bv8): (r: seq<bv8>)
    requires x <= 0x80
    ensures |r| == |Codes(x)|
  {
    Marked(Codes(x))
  }

  function Marked(s: seq<bv8>): (r: seq<bv8>)
    ensures |r| == |s|
  {
    seq(|s|, i requires 0 <= i < |s| => s[i] | 0x80)
  }

  lemma MarkedMore(s: seq<bv8>, c: bv8)
    ensures Marked(s + [c]) == Marked(s) + [c | 0x80]
  {
  }

  lemma NibblesDiffer(x: bv8, i: nat, j: nat)
    requires x <= 0x80 && i < j < |Nibbles(x)|
    ensures Nibbles(x)[i] != Nibbles(x)[j]
  {
    CodesAscend(x);
    var c, d := Codes(x)[i], Codes(x)[j];
    assert c < x && d < x;
    hide Codes, Accepted;
    if c | 0x80 == d | 0x80 {
      SameLow(x, c, d);
    }
  }

  lemma SameLow(x: bv8, c: bv8, d: bv8)
    requires x <= 0x80 && c < x && d < x && c | 0x80 == d | 0x80
    ensures c == d
  {
  }

  lemma LeastCode(c: bv8)
    requires c < 0x80 && Accepted(c)
    ensures START <= c | 0x80 == c + 0x80
  {
  }

  lemma NoNibbles()
    ensures Nibbles(3) == []
  {
    CodesStep(3);
    CodesStep(2);
    CodesStep(1);
  }

  // ---------- which they are ----------

  /** The nibble for the code x, if it is one. */
  function One(x: bv8): seq<bv8> { if Accepted(x) then [x | 0x80] else [] }

  function Four(x: bv8): seq<bv8> { One(x) + One(x + 1) + One(x + 2) + One(x + 3) }

  function Eight(x: bv8): seq<bv8> { Four(x) + Four(x + 4) }

  lemma OneMore(x: bv8, next: bv8)
    requires x < 0x80 && next == x + 1
    ensures Nibbles(next) == Nibbles(x) + One(x)
  {
    assert next - 1 == x;
    CodesStep(next);
    MarkedMore(Codes(x), x);
    hide Accepted, Codes, Marked;
  }

  lemma FourMore(x: bv8)
    requires x <= 0x7c
    ensures Nibbles(x + 4) == Nibbles(x) + Four(x)
  {
    hide Nibbles, One;
    OneMore(x, x + 1);
    OneMore(x + 1, x + 2);
    OneMore(x + 2, x + 3);
    OneMore(x + 3, x + 4);
  }

  lemma EightMore(x: bv8)
    requires x <= 0x78
    ensures Nibbles(x + 8) == Nibbles(x) + Eight(x)
  {
    hide Nibbles, Four;
    FourMore(x);
    FourMore(x + 4);
  }

  lemma LowestEights()
    ensures Eight(0x00) == [] && Eight(0x08) == []
    ensures Eight(0x10) == [0x96, 0x97] && Eight(0x18) == [0x9a, 0x9b, 0x9d, 0x9e, 0x9f]
  {
  }

  lemma LowerPair()
    ensures Eight(0x20) == [0xa6, 0xa7] && Eight(0x28) == [0xab, 0xac, 0xad, 0xae, 0xaf]
  {
  }

  lemma EightFrom30()
    ensures Eight(0x30) == [0xb2, 0xb3, 0xb4, 0xb5, 0xb6, 0xb7]
  {
  }

  lemma EightFrom38()
    ensures Eight(0x38) == [0xb9, 0xba, 0xbb, 0xbc, 0xbd, 0xbe, 0xbf]
  {
  }

  lemma UpperPair()
    ensures Eight(0x40) == [] && Eight(0x48) == [0xcb, 0xcd, 0xce, 0xcf]
  {
  }

  lemma EightFrom50()
    ensures Eight(0x50) == [0xd3, 0xd6, 0xd7]
  {
  }

  lemma EightFrom58()
    ensures Eight(0x58) == [0xd9, 0xda, 0xdb, 0xdc, 0xdd, 0xde, 0xdf]
  {
  }

  lemma HighestPair()
    ensures Eight(0x60) == [0xe5, 0xe6, 0xe7] && Eight(0x68) == [0xe9, 0xea, 0xeb, 0xec, 0xed, 0xee, 0xef]
  {
  }

  lemma EightFrom70()
    ensures Eight(0x70) == [0xf2, 0xf3, 0xf4, 0xf5, 0xf6, 0xf7]
  {
  }

  lemma EightFrom78()
    ensures Eight(0x78) == [0xf9, 0xfa, 0xfb, 0xfc, 0xfd, 0xfe, 0xff]
  {
  }

  lemma LowestNibbles(before: seq<bv8>)
    requires Nibbles(0x00) == before
    ensures Nibbles(0x20) == before + [0x96, 0x97] + [0x9a, 0x9b, 0x9d, 0x9e, 0x9f]
  {
    LowestEights();
    hide Nibbles, Eight;
    EightMore(0x00);
    EightMore(0x08);
    EightMore(0x10);
    EightMore(0x18);
  }

  lemma LowerNibbles(before: seq<bv8>)
    requires Nibbles(0x20) == before
    ensures Nibbles(0x40) == before + [0xa6, 0xa7] + [0xab, 0xac, 0xad, 0xae, 0xaf]
            + [0xb2, 0xb3, 0xb4, 0xb5, 0xb6, 0xb7] + [0xb9, 0xba, 0xbb, 0xbc, 0xbd, 0xbe, 0xbf]
  {
    LowerPair();
    EightFrom30();
    EightFrom38();
    hide Nibbles, Eight;
    EightMore(0x20);
    EightMore(0x28);
    EightMore(0x30);
    EightMore(0x38);
  }

  lemma UpperNibbles(before: seq<bv8>)
    requires Nibbles(0x40) == before
    ensures Nibbles(0x60) == before + [0xcb, 0xcd, 0xce, 0xcf] + [0xd3, 0xd6, 0xd7] + [0xd9, 0xda, 0xdb, 0xdc, 0xdd, 0xde, 0xdf]
  {
    UpperPair();
    EightFrom50();
    EightFrom58();
    hide Nibbles, Eight;
    EightMore(0x40);
    EightMore(0x48);
    EightMore(0x50);
    EightMore(0x58);
  }

  lemma HighestNibbles(before: seq<bv8>)
    requires Nibbles(0x60) == before
    ensures Nibbles(0x80) == before + [0xe5, 0xe6, 0xe7] + [0xe9, 0xea, 0xeb, 0xec, 0xed, 0xee, 0xef]
            + [0xf2, 0xf3, 0xf4, 0xf5, 0xf6, 0xf7] + [0xf9, 0xfa, 0xfb, 0xfc, 0xfd, 0xfe, 0xff]
  {
    HighestPair();
    EightFrom70();
    EightFrom78();
    hide Nibbles, Eight;
    EightMore(0x60);
    EightMore(0x68);
    EightMore(0x70);
    EightMore(0x78);
  }

  /** The nibbles of the 6-and-2 encoding, by value. */
  const NIBBLES: seq<bv8> :=
    [0x96, 0x97] + [0x9a, 0x9b, 0x9d, 0x9e, 0x9f] + [0xa6, 0xa7]
  + [0xab, 0xac, 0xad, 0xae, 0xaf] + [0xb2, 0xb3, 0xb4, 0xb5, 0xb6, 0xb7]
  + [0xb9, 0xba, 0xbb, 0xbc, 0xbd, 0xbe, 0xbf] + [0xcb, 0xcd, 0xce, 0xcf]
  + [0xd3, 0xd6, 0xd7] + [0xd9, 0xda, 0xdb, 0xdc, 0xdd, 0xde, 0xdf]
  + [0xe5, 0xe6, 0xe7] + [0xe9, 0xea, 0xeb, 0xec, 0xed, 0xee, 0xef]
  + [0xf2, 0xf3, 0xf4, 0xf5, 0xf6, 0xf7] + [0xf9, 0xfa, 0xfb, 0xfc, 0xfd, 0xfe, 0xff]

  /** There are just as many as there are six-bit values, and these they are. */
  lemma SixtyFourCodes()
    ensures |Codes(0x80)| == 64 && Nibbles(0x80) == NIBBLES
  {
    AllNibbles();
    NibbleCount();
    hide Codes, Marked, NIBBLES;
  }

  lemma NibbleCount()
    ensures |NIBBLES| == 64
  {
  }

  lemma AllNibbles()
    ensures Nibbles(0x80) == NIBBLES
  {
    hide Nibbles;
    FirstNibbles();
    LowerNibbles(Nibbles(0x20));
    UpperNibbles(Nibbles(0x40));
    HighestNibbles(Nibbles(0x60));
  }

  lemma FirstNibbles()
    ensures Nibbles(0x20) == [0x96, 0x97] + [0x9a, 0x9b, 0x9d, 0x9e, 0x9f]
  {
    hide Nibbles;
    NoCodes();
    LowestNibbles([]);
    assert [] + [0x96, 0x97] == [0x96, 0x97];
  }

  lemma NoCodes()
    ensures Nibbles(0x00) == []
  {
  }

  lemma NextNibble(x: bv8)
    requires x < 0x80
    ensures Nibbles(x + 1) == Nibbles(x) + if Accepted(x) then [x | 0x80] else []
    ensures |Nibbles(x + 1)| <= 64
  {
    CodesStep(x + 1);
    CodesGrow(x + 1, 0x80);
    SixtyFourCodes();
    MarkedMore(Codes(x), x);
    hide Codes, Accepted, Marked;
    assert x + 1 - 1 == x;
  }

  /** The nibble for a six-bit value. */
  function Encoded(v: bv8): (n: bv8)
    requires v < 64
  {
    SixtyFourCodes();
    Nibbles(0x80)[v as nat]
  }

  lemma NibbleTable(v: bv8)
    requires v < 64
    ensures |NIBBLES| == 64 && Encoded(v) == NIBBLES[v as nat]
  {
    SixtyFourCodes();
    hide Codes, Marked, NIBBLES;
  }

  /** The place of a nibble in the decoding table. */
  function TablePlace(n: bv8): (p: nat)
    requires START <= n
    ensures p < 0x6a
  {
    n as nat - START as nat
  }

  lemma ValueOfIndex(v: bv8)
    ensures (v as nat) as bv8 == v
  {
  }

  lemma NewNibble(x: bv8)
    requires x < 0x80 && Accepted(x)
    ensures forall i :: 0 <= i < |Nibbles(x)| ==> Nibbles(x)[i] != x | 0x80
  {
    forall i | 0 <= i < |Nibbles(x)|
      ensures Nibbles(x)[i] != x | 0x80
    {
      NextNibble(x);
      NibblesDiffer(x + 1, i, |Nibbles(x)|);
    }
  }

  lemma PlacesDiffer(m: bv8, n: bv8)
    requires START <= m && START <= n && m != n
    ensures TablePlace(m) != TablePlace(n)
  {
  }

  lemma LowestBit(a: bv8)
    ensures a == 0 ==> AtMostOneBit(a)
    ensures a & 1 == 0 ==> (AtMostOneBit(a) <==> AtMostOneBit(a >> 1))
    ensures a & 1 != 0 ==> (AtMostOneBit(a) <==> a >> 1 == 0)
    ensures a != 0 ==> a >> 1 < a
  {
  }
}
