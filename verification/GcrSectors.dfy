/** Sectors as six-bit values, and these as a chain of nibbles (src/arch/apple2e/apple2e.S:996-1052, 1213-1242, 1317-1358). */
module GcrSectors {
  import opened GcrTables

  // ---------- a sector in six-bit values ----------

  /** The two low bits of a byte, swapped. */
  function LowTwo(b: bv8): (r: bv8)
    ensures r < 4
  {
    ((b & 1) << 1) | ((b >> 1) & 1)
  }

  function HighSix(b: bv8): (r: bv8)
    ensures r < 64
  {
    b >> 2
  }

  /** The byte a pass takes the low bits of for place x: passes run downwards from byte 1, around the end. */
  function Source(pass: nat, x: nat): (y: nat)
    requires pass < 3 && x < 86
    ensures y < 256
  {
    Around(Top(pass) - 1 - x)
  }

  /** One more than the byte a pass begins with. */
  function Top(pass: nat): (y: nat)
    requires pass <= 3
  {
    match pass
    case 0 => 258
    case 1 => 172
    case 2 => 86
    case _ => 0
  }

  /** A small number as the index register has it. */
  function Around(y: nat): nat { if y >= 256 then y - 256 else y }

  /** What has been shifted into place x after so many passes. */
  function Gathered(data: seq<bv8>, passes: nat, x: nat): bv8
    requires |data| == 256 && passes <= 3 && x < 86
  {
    if passes == 0 then 0 else (Gathered(data, passes - 1, x) << 2) | LowTwo(data[Source(passes - 1, x)])
  }

  function Twos(data: seq<bv8>): (r: seq<bv8>)
    requires |data| == 256
    ensures |r| == 86
  {
    seq(86, x requires 0 <= x < 86 => Gathered(data, 3, x))
  }

  function Sixes(data: seq<bv8>): (r: seq<bv8>)
    requires |data| == 256
    ensures |r| == 256
  {
    seq(256, y requires 0 <= y < 256 => HighSix(data[y]))
  }

  /** The bits of a byte in which the passes so far have left something of the sector. */
  function PassMask(passes: nat): bv8
    requires passes <= 3
  {
    match passes
    case 0 => 0
    case 1 => 0x03
    case 2 => 0x0f
    case _ => 0x3f
  }

  /** What is left of an old twos byte after so many passes. */
  function Kept(two: bv8, passes: nat): bv8
    requires passes <= 3
  {
    two & PassMask(passes)
  }

  /** `lsr` and `rol`, twice. */
  function RolledIn(two: bv8, b: bv8): bv8 { (((two << 1) | (b & 1)) << 1) | ((b >> 1) & 1) }

  lemma RolledInGathers(data: seq<bv8>, passes: nat, x: nat, two: bv8)
    requires |data| == 256 && passes < 3 && x < 86 && Kept(two, passes) == Gathered(data, passes, x)
    ensures Kept(RolledIn(two, data[Source(passes, x)]), passes + 1) == Gathered(data, passes + 1, x)
  {
    var g, b := Gathered(data, passes, x), data[Source(passes, x)];
    assert Gathered(data, passes + 1, x) == (g << 2) | LowTwo(b);
    hide Gathered, Source;
    match passes
    case 0 => FirstRoll(two, b);
    case 1 => SecondRoll(two, b);
    case _ => ThirdRoll(two, b);
  }

  lemma FirstRoll(two: bv8, b: bv8)
    ensures RolledIn(two, b) & 0x03 == (0 << 2) | LowTwo(b)
  {
  }

  lemma SecondRoll(two: bv8, b: bv8)
    ensures RolledIn(two, b) & 0x0f == ((two & 0x03) << 2) | LowTwo(b)
  {
  }

  lemma ThirdRoll(two: bv8, b: bv8)
    ensures RolledIn(two, b) & 0x3f == ((two & 0x0f) << 2) | LowTwo(b)
  {
  }

  // ---------- the chain of nibbles ----------

  predicate AllSix(v: seq<bv8>) { forall i :: 0 <= i < |v| ==> v[i] < 64 }

  /** The six-bit values of a sector in the order they are written: the twos backwards, then the sixes. */
  function Values(twos: seq<bv8>, sixes: seq<bv8>): (v: seq<bv8>)
    requires |twos| == 86 && |sixes| == 256
    ensures |v| == 342
  {
    seq(342, i requires 0 <= i < 342 => if i < 86 then twos[85 - i] else sixes[i - 86])
  }

  function Xor(a: bv8, b: bv8): bv8 { a ^ b }

  lemma XorIsSix(a: bv8, b: bv8)
    requires a < 64 && b < 64
    ensures Xor(a, b) < 64
  {
  }

  lemma XorUndone(a: bv8, b: bv8)
    ensures Xor(a, Xor(b, a)) == b && Xor(a, a) == 0 && Xor(0, a) == a && (Xor(a, b) == 0 <==> a == b)
  {
  }

  /** What is written for value i: its difference from the one before it, and the last once more. */
  function Link(v: seq<bv8>, i: nat): (r: bv8)
    requires 0 < |v| && i <= |v| && AllSix(v)
    ensures r < 64
  {
    var before := if i == 0 then 0 else v[i - 1];
    var value := if i == |v| then 0 else v[i];
    XorIsSix(value, before);
    Xor(value, before)
  }

  function Chain(v: seq<bv8>): (s: seq<bv8>)
    requires 0 < |v| && AllSix(v)
    ensures |s| == |v| + 1
  {
    seq(|v| + 1, i requires 0 <= i <= |v| => Encoded(Link(v, i)))
  }

  ghost predicate ChainedUpTo(v: seq<bv8>, s: seq<bv8>)
    requires 0 < |v| && AllSix(v)
  {
    |s| <= |v| + 1 && forall i :: 0 <= i < |s| ==> s[i] == Encoded(Link(v, i))
  }

  lemma NothingChained(v: seq<bv8>)
    requires 0 < |v| && AllSix(v)
    ensures ChainedUpTo(v, [])
  {
  }

  lemma ChainedNext(v: seq<bv8>, s: seq<bv8>, n: bv8)
    requires 0 < |v| && AllSix(v) && |s| < |v| && ChainedUpTo(v, s) && n == Encoded(Link(v, |s|))
    ensures ChainedUpTo(v, s + [n])
  {
    hide Encoded, Link;
  }

  lemma XorCommutes(a: bv8, b: bv8)
    ensures Xor(a, b) == Xor(b, a)
  {
  }

  lemma ChainIsLinks(v: seq<bv8>, s: seq<bv8>)
    requires 0 < |v| && AllSix(v) && |s| == |v| + 1 && ChainedUpTo(v, s)
    ensures s == Chain(v)
  {
    hide Encoded, Link;
  }

  // ---------- reading it back ----------

  /** A decoding table that undoes the encoding. */
  ghost predicate Undoes(table: seq<bv8>)
  {
    |table| == 0x6a && forall v: bv8 :: v < 64 ==> START <= Encoded(v) && table[TablePlace(Encoded(v))] == v
  }

  /** Bytes that the table has a place for. */
  predicate InTable(s: seq<bv8>) { forall i :: 0 <= i < |s| ==> START <= s[i] }

  /** Nibbles that stand for a value. */
  ghost predicate Coded(s: seq<bv8>) { forall i :: 0 <= i < |s| ==> StandsForSix(s[i]) }

  ghost predicate StandsForSix(n: bv8) { exists v: bv8 :: v < 64 && Encoded(v) == n }

  function Decoded(table: seq<bv8>, n: bv8): bv8
    requires |table| == 0x6a && START <= n
  {
    table[TablePlace(n)]
  }

  /** The accumulated checksum after n nibbles, which is also the value read. */
  function Running(table: seq<bv8>, s: seq<bv8>, n: nat): bv8
    requires |table| == 0x6a && InTable(s) && n <= |s|
  {
    if n == 0 then 0 else Xor(Running(table, s, n - 1), Decoded(table, s[n - 1]))
  }

  lemma RunningNext(table: seq<bv8>, s: seq<bv8>, n: nat)
    requires |table| == 0x6a && InTable(s) && n < |s|
    ensures Running(table, s, n + 1) == Xor(Running(table, s, n), table[TablePlace(s[n])])
  {
  }

  function ReadValues(table: seq<bv8>, s: seq<bv8>): (v: seq<bv8>)
    requires |table| == 0x6a && InTable(s) && 0 < |s|
    ensures |v| == |s| - 1
  {
    seq(|s| - 1, i requires 0 <= i < |s| - 1 => Running(table, s, i + 1))
  }

  /** The checksum comes out as zero. */
  predicate Accepts(table: seq<bv8>, s: seq<bv8>)
    requires |table| == 0x6a && InTable(s)
  {
    Running(table, s, |s|) == 0
  }

  lemma CodedInTable(table: seq<bv8>, s: seq<bv8>)
    requires Undoes(table) && Coded(s)
    ensures InTable(s)
  {
    hide Encoded;
  }

  lemma ChainIsCoded(v: seq<bv8>)
    requires 0 < |v| && AllSix(v)
    ensures Coded(Chain(v))
  {
    hide Encoded;
    var s := Chain(v);
    forall i | 0 <= i < |s|
      ensures StandsForSix(s[i])
    {
      var x := Link(v, i);
      assert x < 64 && Encoded(x) == s[i];
    }
  }

  /** Along the chain, the running value is the value that was written. */
  lemma {:induction false} RunningOnChain(table: seq<bv8>, v: seq<bv8>, n: nat)
    requires Undoes(table) && 0 < |v| && AllSix(v) && n <= |v| + 1
    ensures InTable(Chain(v))
    ensures Running(table, Chain(v), n) == if n == 0 || n == |v| + 1 then 0 else v[n - 1]
  {
    ChainIsCoded(v);
    CodedInTable(table, Chain(v));
    if n > 0 {
      RunningOnChain(table, v, n - 1);
      assert Chain(v)[n - 1] == Encoded(Link(v, n - 1));
      assert Decoded(table, Chain(v)[n - 1]) == Link(v, n - 1);
      XorUndone(if n == 1 then 0 else v[n - 2], if n == |v| + 1 then 0 else v[n - 1]);
      hide Encoded, Chain, Undoes;
    }
  }

  /** What was written is read, and accepted. */
  lemma ChainReadsBack(table: seq<bv8>, v: seq<bv8>)
    requires Undoes(table) && 0 < |v| && AllSix(v)
    ensures InTable(Chain(v)) && Accepts(table, Chain(v)) && ReadValues(table, Chain(v)) == v
  {
    RunningOnChain(table, v, |v| + 1);
    hide Running, Chain, Undoes, AllSix, InTable;
    var r := ReadValues(table, Chain(v));
    forall i | 0 <= i < |v|
      ensures r[i] == v[i]
    {
      RunningOnChain(table, v, i + 1);
    }
    assert r == v;
  }

  lemma DecodedNibble(table: seq<bv8>, s: seq<bv8>, i: nat)
    requires Undoes(table) && Coded(s) && i < |s|
    ensures START <= s[i] && Decoded(table, s[i]) < 64 && Encoded(Decoded(table, s[i])) == s[i]
  {
    hide Encoded;
  }

  lemma {:induction false} RunningIsSix(table: seq<bv8>, s: seq<bv8>, n: nat)
    requires Undoes(table) && Coded(s) && InTable(s) && n <= |s|
    ensures Running(table, s, n) < 64
  {
    if n > 0 {
      RunningIsSix(table, s, n - 1);
      DecodedNibble(table, s, n - 1);
      XorIsSix(Running(table, s, n - 1), Decoded(table, s[n - 1]));
    }
  }

  /** The streams the reader accepts are just those the writer makes. */
  lemma AcceptsExactly(table: seq<bv8>, s: seq<bv8>)
    requires Undoes(table) && Coded(s) && 1 < |s|
    ensures InTable(s) && AllSix(ReadValues(table, s))
    ensures Accepts(table, s) <==> s == Chain(ReadValues(table, s))
  {
    CodedInTable(table, s);
    forall i | 0 <= i < |s|
      ensures Running(table, s, i) < 64
    {
      RunningIsSix(table, s, i);
    }
    var v := ReadValues(table, s);
    assert AllSix(v);
    if Accepts(table, s) {
      forall i | 0 <= i < |s|
        ensures s[i] == Chain(v)[i]
      {
        LinkIsDecoded(table, s, v, i);
        DecodedNibble(table, s, i);
      }
    } else {
      ChainReadsBack(table, v);
    }
  }

  lemma LinkIsDecoded(table: seq<bv8>, s: seq<bv8>, v: seq<bv8>, i: nat)
    requires |table| == 0x6a && InTable(s) && 1 < |s| && i < |s|
    requires v == ReadValues(table, s) && AllSix(v) && Accepts(table, s)
    ensures Link(v, i) == Decoded(table, s[i])
  {
    var r := Running(table, s, i);
    assert Running(table, s, i + 1) == Xor(r, Decoded(table, s[i]));
    hide Running;
    XorBack(r, Decoded(table, s[i]));
  }

  lemma XorBack(r: bv8, d: bv8)
    ensures Xor(Xor(r, d), r) == d
  {
  }

  /** A single nibble that comes back as another is always noticed. */
  lemma OneNibbleOff(table: seq<bv8>, s: seq<bv8>, i: nat, n: bv8)
    requires Undoes(table) && Coded(s) && i < |s| && n != s[i] && Coded(s[i := n])
    ensures InTable(s) && InTable(s[i := n])
    ensures Accepts(table, s) ==> !Accepts(table, s[i := n])
  {
    CodedInTable(table, s);
    CodedInTable(table, s[i := n]);
    DecodedNibble(table, s, i);
    DecodedNibble(table, s[i := n], i);
    assert s[i := n][i] == n;
    hide Encoded, Undoes, Coded;
    DifferenceStays(table, s, i, n, |s|);
    XorUndone(Decoded(table, s[i]), Decoded(table, n));
  }

  lemma {:induction false} DifferenceStays(table: seq<bv8>, s: seq<bv8>, i: nat, n: bv8, k: nat)
    requires |table| == 0x6a && InTable(s) && i < |s| && k <= |s| && START <= n && InTable(s[i := n])
    ensures Running(table, s[i := n], k)
         == if k <= i then Running(table, s, k)
            else Xor(Running(table, s, k), Xor(Decoded(table, s[i]), Decoded(table, n)))
  {
    if k > 0 {
      DifferenceStays(table, s, i, n, k - 1);
      hide Decoded;
      assert s[i := n][k - 1] == if k - 1 == i then n else s[k - 1];
      XorSwaps(Running(table, s, k - 1), Decoded(table, s[k - 1]), Decoded(table, s[i]), Decoded(table, n));
    }
  }

  lemma XorSwaps(r: bv8, d: bv8, a: bv8, b: bv8)
    ensures Xor(Xor(r, Xor(a, b)), d) == Xor(Xor(r, d), Xor(a, b))
    ensures Xor(r, b) == Xor(Xor(r, a), Xor(a, b))
  {
  }

  // ---------- bytes again ----------

  /** `lsr` and `rol`, twice. */
  function Joined(six: bv8, two: bv8): bv8 { (((six << 1) | (two & 1)) << 1) | ((two >> 1) & 1) }

  /** The twos' bits that belong to the byte in pass k of reading. */
  function PairAt(two: bv8, k: nat): bv8
    requires k < 3
  {
    match k
    case 0 => two
    case 1 => two >> 2
    case _ => two >> 4
  }

  /** `lsr`, twice. */
  function Shifted(two: bv8): bv8 { two >> 2 }

  /** What is left of the twos at place i of the values when y bytes have been joined. */
  function UsedUp(two: bv8, y: nat, i: nat): bv8
    requires i < 86 && y <= 256
  {
    if y <= i then PairAt(two, 0) else if y <= 86 + i then PairAt(two, 1) else if y <= 172 + i then PairAt(two, 2)
    else Shifted(PairAt(two, 2))
  }

  lemma UsedUpNext(v: seq<bv8>, y: nat)
    requires |v| == 342 && y < 256
    ensures UsedUp(v[y % 86], y, y % 86) == PairAt(v[y % 86], y / 86)
    ensures UsedUp(v[y % 86], y + 1, y % 86) == Shifted(UsedUp(v[y % 86], y, y % 86))
    ensures forall j :: 0 <= j < 86 && j != y % 86 ==> UsedUp(v[j], y + 1, j) == UsedUp(v[j], y, j)
  {
    ShiftedPairs(v[y % 86]);
    hide PairAt, Shifted;
  }

  lemma ShiftedPairs(two: bv8)
    ensures Shifted(PairAt(two, 0)) == PairAt(two, 1) && Shifted(PairAt(two, 1)) == PairAt(two, 2)
  {
  }

  function Bytes(v: seq<bv8>): (data: seq<bv8>)
    requires |v| == 342
    ensures |data| == 256
  {
    seq(256, y requires 0 <= y < 256 => Joined(v[86 + y], PairAt(v[y % 86], y / 86)))
  }

  lemma SecondPair(b: bv8, rest: bv8, a: bv8)
    requires a < 4
    ensures Joined(HighSix(b), PairAt((((rest << 2) | LowTwo(b)) << 2) | a, 1)) == b
  {
  }

  lemma ThirdPair(b: bv8, rest: bv8, a: bv8, c: bv8)
    requires a < 4 && c < 4
    ensures Joined(HighSix(b), PairAt((((((rest << 2) | LowTwo(b)) << 2) | a) << 2) | c, 2)) == b
  {
  }

  lemma GatheredIs(data: seq<bv8>, x: nat)
    requires |data| == 256 && x < 86
    ensures Gathered(data, 3, x)
         == (((((0 << 2) | LowTwo(data[Source(0, x)])) << 2) | LowTwo(data[Source(1, x)])) << 2) | LowTwo(data[Source(2, x)])
  {
    hide LowTwo, Source;
    assert Gathered(data, 3, x) == (Gathered(data, 2, x) << 2) | LowTwo(data[Source(2, x)]);
    assert Gathered(data, 2, x) == (Gathered(data, 1, x) << 2) | LowTwo(data[Source(1, x)]);
    assert Gathered(data, 1, x) == (Gathered(data, 0, x) << 2) | LowTwo(data[Source(0, x)]);
  }

  lemma GatheredIsSix(data: seq<bv8>, x: nat)
    requires |data| == 256 && x < 86
    ensures Gathered(data, 3, x) < 64
  {
    GatheredIs(data, x);
    hide Gathered, LowTwo, Source;
    ThreePairs(LowTwo(data[Source(0, x)]), LowTwo(data[Source(1, x)]), LowTwo(data[Source(2, x)]));
  }

  lemma ThreePairs(a: bv8, b: bv8, c: bv8)
    requires a < 4 && b < 4 && c < 4
    ensures (((((0 << 2) | a) << 2) | b) << 2) | c < 64
  {
  }

  function SectorValues(data: seq<bv8>): (v: seq<bv8>)
    requires |data| == 256
    ensures |v| == 342 && AllSix(v)
  {
    SectorIsSix(data);
    Values(Twos(data), Sixes(data))
  }

  lemma SectorIsSix(data: seq<bv8>)
    requires |data| == 256
    ensures AllSix(Values(Twos(data), Sixes(data)))
  {
    hide Gathered, HighSix;
    forall x | 0 <= x < 86
      ensures Twos(data)[x] < 64
    {
      GatheredIsSix(data, x);
    }
    assert forall y :: 0 <= y < 256 ==> Sixes(data)[y] == HighSix(data[y]);
  }

  /** The bits of byte y are in the twos where reading looks for them. */
  lemma ByteJoins(data: seq<bv8>, y: nat)
    requires |data| == 256 && y < 256
    ensures Joined(HighSix(data[y]), PairAt(Gathered(data, 3, 85 - y % 86), y / 86)) == data[y]
  {
    SourceOfByte(y);
    ByteJoinsAt(data, y, 85 - y % 86, y / 86);
  }

  lemma ByteJoinsAt(data: seq<bv8>, y: nat, x: nat, k: nat)
    requires |data| == 256 && y < 256 && x < 86 && k < 3 && Source(2 - k, x) == y
    ensures Joined(HighSix(data[y]), PairAt(Gathered(data, 3, x), k)) == data[y]
  {
    hide *;
    GatheredIs(data, x);
    PairJoins(data[Source(0, x)], data[Source(1, x)], data[Source(2, x)], k);
  }

  lemma SourceOfByte(y: nat)
    requires y < 256
    ensures y / 86 < 3 && Source(2 - y / 86, 85 - y % 86) == y
  {
  }

  lemma PairJoins(a: bv8, b: bv8, c: bv8, k: nat)
    requires k < 3
    ensures var d := match k case 0 => c case 1 => b case _ => a;
            Joined(HighSix(d), PairAt((((((0 << 2) | LowTwo(a)) << 2) | LowTwo(b)) << 2) | LowTwo(c), k)) == d
  {
    hide LowTwo, Joined, HighSix, PairAt;
    match k
    case 0 => FirstPair(c, (((0 << 2) | LowTwo(a)) << 2) | LowTwo(b));
    case 1 => SecondPair(b, (0 << 2) | LowTwo(a), LowTwo(c));
    case 2 => ThirdPair(a, 0, LowTwo(b), LowTwo(c));
  }

  lemma FirstPair(b: bv8, rest: bv8)
    ensures Joined(HighSix(b), PairAt((rest << 2) | LowTwo(b), 0)) == b
  {
  }

  lemma BytesOfValues(data: seq<bv8>)
    requires |data| == 256
    ensures Bytes(SectorValues(data)) == data
  {
    hide Gathered, Joined, HighSix, PairAt;
    var v := SectorValues(data);
    forall y | 0 <= y < 256
      ensures Joined(v[86 + y], PairAt(v[y % 86], y / 86)) == data[y]
    {
      assert v[86 + y] == HighSix(data[y]);
      assert v[y % 86] == Gathered(data, 3, 85 - y % 86);
      ByteJoins(data, y);
    }
  }

  // ---------- the format in bits ----------

  /** Pair k of a twos byte holds the low bits of b: its upper bit is bit 0 of b, and its lower bit is bit 1. */
  predicate HoldsLowBits(two: bv8, k: nat, b: bv8)
    requires k < 3
  {
    match k
    case 0 => two & 1 == (b >> 1) & 1 && (two >> 1) & 1 == b & 1
    case 1 => (two >> 2) & 1 == (b >> 1) & 1 && (two >> 3) & 1 == b & 1
    case _ => (two >> 4) & 1 == (b >> 1) & 1 && (two >> 5) & 1 == b & 1
  }

  lemma JoinedHolds(six: bv8, two: bv8, k: nat)
    requires k < 3
    ensures Joined(six, PairAt(two, k)) >> 2 == six & 0x3f
    ensures HoldsLowBits(two, k, Joined(six, PairAt(two, k)))
  {
  }

  /** Where the bits of a sector go: byte y has its upper six bits at sixes[y] and the others in pair y / 86. */
  lemma SplitInBits(data: seq<bv8>)
    requires |data| == 256
    ensures forall y :: 0 <= y < 256 ==> Sixes(data)[y] == data[y] >> 2
    ensures forall y :: 0 <= y < 256 ==> HoldsLowBits(Twos(data)[85 - y % 86], y / 86, data[y])
    ensures HoldsLowBits(Twos(data)[0], 2, data[1]) && HoldsLowBits(Twos(data)[1], 2, data[0])
    ensures forall x :: 0 <= x < 86 ==> Twos(data)[x] < 64
  {
    assert forall y :: 0 <= y < 256 ==> Sixes(data)[y] == data[y] >> 2;
    SpareBits(data);
    hide Gathered, Joined, HighSix, PairAt, Source, HoldsLowBits, Sixes;
    forall y | 0 <= y < 256
      ensures HoldsLowBits(Twos(data)[85 - y % 86], y / 86, data[y])
    {
      ByteJoins(data, y);
      JoinedHolds(HighSix(data[y]), Twos(data)[85 - y % 86], y / 86);
    }
    forall x | 0 <= x < 86
      ensures Twos(data)[x] < 64
    {
      GatheredIsSix(data, x);
    }
  }

  /** The two places with a pair to spare begin with bytes that have their bits elsewhere as well. */
  lemma SpareBits(data: seq<bv8>)
    requires |data| == 256
    ensures HoldsLowBits(Twos(data)[0], 2, data[1]) && HoldsLowBits(Twos(data)[1], 2, data[0])
  {
    hide Gathered, HoldsLowBits;
    SpareBitsAt(data, 0, 1);
    SpareBitsAt(data, 1, 0);
  }

  lemma SpareBitsAt(data: seq<bv8>, x: nat, y: nat)
    requires |data| == 256 && x < 2 && y == 1 - x
    ensures HoldsLowBits(Gathered(data, 3, x), 2, data[y])
  {
    assert Source(0, x) == y;
    hide Gathered, Joined, HighSix, PairAt, Source, HoldsLowBits;
    ByteJoinsAt(data, y, x, 2);
    JoinedHolds(HighSix(data[y]), Gathered(data, 3, x), 2);
  }

  /** The same places, read: whatever the six-bit values are. */
  lemma BytesInBits(twos: seq<bv8>, sixes: seq<bv8>)
    requires |twos| == 86 && |sixes| == 256
    ensures forall y :: 0 <= y < 256 ==> Bytes(Values(twos, sixes))[y] >> 2 == sixes[y] & 0x3f
    ensures forall y :: 0 <= y < 256 ==> HoldsLowBits(twos[85 - y % 86], y / 86, Bytes(Values(twos, sixes))[y])
  {
    hide Joined, PairAt, HoldsLowBits;
    forall y | 0 <= y < 256
      ensures Bytes(Values(twos, sixes))[y] >> 2 == sixes[y] & 0x3f
      ensures HoldsLowBits(twos[85 - y % 86], y / 86, Bytes(Values(twos, sixes))[y])
    {
      JoinedHolds(sixes[y], twos[85 - y % 86], y / 86);
    }
  }

  /** The nibbles on the disk, in their order: the twos from the last to the first, then the sixes. */
  lemma StreamOrder(twos: seq<bv8>, sixes: seq<bv8>)
    requires |twos| == 86 && |sixes| == 256 && AllSix(Values(twos, sixes))
    ensures AllSix(twos) && AllSix(sixes)
    ensures var s := Chain(Values(twos, sixes));
            && |s| == 343 && s[0] == Encoded(twos[85]) && s[342] == Encoded(sixes[255])
            && (forall i :: 1 <= i < 86 ==> twos[85 - i] ^ twos[86 - i] < 64 && s[i] == Encoded(twos[85 - i] ^ twos[86 - i]))
            && sixes[0] ^ twos[0] < 64 && s[86] == Encoded(sixes[0] ^ twos[0])
            && (forall i :: 87 <= i < 342 ==>
                  sixes[i - 86] ^ sixes[i - 87] < 64 && s[i] == Encoded(sixes[i - 86] ^ sixes[i - 87]))
  {
    var v := Values(twos, sixes);
    ValuePlaces(twos, sixes);
    hide Encoded, Values, Chain, Link, Xor;
    forall i | 0 <= i <= 342
      ensures Link(v, i) < 64 && Chain(v)[i] == Encoded(Link(v, i))
      ensures Link(v, i) == if i == 0 then v[0] else if i == 342 then v[341] else v[i] ^ v[i - 1]
    {
      LinkIs(v, i);
    }
  }

  lemma ValuePlaces(twos: seq<bv8>, sixes: seq<bv8>)
    requires |twos| == 86 && |sixes| == 256
    ensures var v := Values(twos, sixes);
            && (forall x :: 0 <= x < 86 ==> twos[x] == v[85 - x]) && (forall y :: 0 <= y < 256 ==> sixes[y] == v[86 + y])
            && (AllSix(v) ==> AllSix(twos) && AllSix(sixes))
  {
    var v := Values(twos, sixes);
    assert forall x :: 0 <= x < 86 ==> twos[x] == v[85 - x];
    assert forall y :: 0 <= y < 256 ==> sixes[y] == v[86 + y];
    hide Values;
  }

  lemma LinkIs(v: seq<bv8>, i: nat)
    requires 0 < |v| && AllSix(v) && i <= |v|
    ensures Chain(v)[i] == Encoded(Link(v, i))
    ensures Link(v, i) == if i == 0 then v[0] else if i == |v| then v[|v| - 1] else v[i] ^ v[i - 1]
  {
    hide Encoded;
    Ends(v[0], v[|v| - 1]);
  }

  lemma Ends(first: bv8, last: bv8)
    ensures first ^ 0 == first && 0 ^ last == last
  {
  }

  /** A sector that was written is read back. */
  lemma SectorRoundTrip(table: seq<bv8>, data: seq<bv8>)
    requires Undoes(table) && |data| == 256
    ensures var s := Chain(SectorValues(data));
            |s| == 343 && InTable(s) && Accepts(table, s) && Bytes(ReadValues(table, s)) == data
  {
    ChainReadsBack(table, SectorValues(data));
    BytesOfValues(data);
  }
}
