/**
 The Apple II disk driver's tables, sector writer and sector reader
 (src/arch/apple2e/apple2e.S:126-155, 996-1052, 1213-1242, 1317-1358).
 */
module SectorCodec {
  import opened GcrTables
  import opened GcrSectors

  class Codec {
    const encodeTab: array<bv8>
    const decodeTab: array<bv8>
    const twos: array<bv8>
    const sixes: array<bv8>

    constructor ()
      ensures Shape() && fresh(encodeTab) && fresh(decodeTab) && fresh(twos) && fresh(sixes)
    {
      encodeTab := new bv8[64];
      decodeTab := new bv8[0x100 - START as nat];
      twos := new bv8[86];
      sixes := new bv8[256];
    }

    predicate Shape()
    {
      && encodeTab.Length == 64 && decodeTab.Length == 0x6a && twos.Length == 86 && sixes.Length == 256
      && encodeTab != decodeTab && encodeTab != twos && encodeTab != sixes
      && decodeTab != twos && decodeTab != sixes && twos != sixes
    }

    /** One table encodes, and the other undoes it. */
    ghost predicate TablesBuilt()
      reads encodeTab, decodeTab
      requires Shape()
    {
      && (forall v: bv8 :: v < 64 ==> encodeTab[v as nat] == Encoded(v))
      && (forall v: bv8 :: v < 64 ==> START <= Encoded(v) && decodeTab[TablePlace(Encoded(v))] == v)
    }

    ghost predicate BuiltUpTo(codes: seq<bv8>)
      reads encodeTab, decodeTab
      requires Shape()
    {
      && |codes| <= 64
      && forall i :: 0 <= i < |codes| ==>
           encodeTab[i] == codes[i] && START <= codes[i] && decodeTab[TablePlace(codes[i])] == i as bv8
    }

    method Rejects(x: bv8) returns (reject: bool)
      requires x < 0x80
      ensures reject <==> !Accepted(x)
    {
      var a := x << 1;
      if a & x == 0 {
        return true;
      }
      a := ((a | x) ^ 0xff) & 0x7e;
      var carry := false;
      ghost var all := a;
      assert all == ZeroPairs(x);
      while true
        invariant carry ==> !AtMostOneBit(all)
        invariant !carry ==> (AtMostOneBit(all) <==> AtMostOneBit(a))
        invariant a == 0 ==> !carry
        decreases a
      {
        if carry {
          return true;
        }
        LowestBit(a);
        carry := a & 1 != 0;
        a := a >> 1;
        if a == 0 {
          break;
        }
      }
      reject := false;
    }

    ghost predicate TwosDone(data: seq<bv8>, passes: nat, from: nat, to: nat)
      reads twos
      requires Shape() && |data| == 256 && passes <= 3
    {
      forall x :: from <= x < to && x < 86 ==> Kept(twos[x], passes) == Gathered(data, passes, x)
    }

    ghost predicate SixesDone(data: seq<bv8>, from: int)
      reads sixes
      requires Shape() && |data| == 256
    {
      forall k :: from <= k < 256 && 0 <= k ==> sixes[k] == HighSix(data[k])
    }

    /** One pass over the twos, with y going down. */
    method Pass(data: array<bv8>, ghost pass: nat, y: nat) returns (y': nat)
      requires Shape() && data.Length == 256 && data != twos && data != sixes
      requires pass < 3 && y == Around(Top(pass))
      requires TwosDone(data[..], pass, 0, 86) && SixesDone(data[..], Top(pass))
      modifies twos, sixes
      ensures y' == Around(Top(pass + 1))
      ensures TwosDone(data[..], pass + 1, 0, 86) && SixesDone(data[..], Top(pass + 1))
    {
      ghost var d, top: int := data[..], Top(pass);
      assert top == Top(pass + 1) + 86;
      hide TwosDone, SixesDone, Top, Around;
      var x := 0;
      y' := y;
      assert TwosDone(d, pass + 1, 0, x) by { NoneDone(d, pass + 1); }
      while true
        invariant 0 <= x < 86 && y' == Around(top - x) && data[..] == d
        invariant TwosDone(d, pass + 1, 0, x) && TwosDone(d, pass, x, 86) && SixesDone(d, top - x)
        decreases 86 - x
      {
        y' := Step(data, pass, x, y');
        x := x + 1;
        if x >= 0x56 {
          break;
        }
      }
    }

    lemma NoneDone(data: seq<bv8>, passes: nat)
      requires Shape() && |data| == 256 && passes <= 3
      ensures TwosDone(data, passes, 0, 0)
    {
    }

    method Step(data: array<bv8>, ghost pass: nat, x: nat, y: nat) returns (y': nat)
      requires Shape() && data.Length == 256 && data != twos && data != sixes
      requires pass < 3 && x < 86 && y == Around(Top(pass) - x)
      requires TwosDone(data[..], pass + 1, 0, x) && TwosDone(data[..], pass, x, 86) && SixesDone(data[..], Top(pass) - x)
      modifies twos, sixes
      ensures data[..] == old(data[..]) && y' == Around(Top(pass) - x - 1)
      ensures TwosDone(data[..], pass + 1, 0, x + 1) && TwosDone(data[..], pass, x + 1, 86)
      ensures SixesDone(data[..], Top(pass) - x - 1)
    {
      hide TwosDone, SixesDone, Source, Top, Around;
      y' := if y == 0 then 0xff else y - 1;
      StepPlace(pass, x);
      RollTwo(data, pass, x, y');
      PutSix(data, Top(pass) - x, y');
    }

    method RollTwo(data: array<bv8>, ghost pass: nat, x: nat, y: nat)
      requires Shape() && data.Length == 256 && data != twos && data != sixes
      requires pass < 3 && x < 86 && y == Source(pass, x)
      requires TwosDone(data[..], pass + 1, 0, x) && TwosDone(data[..], pass, x, 86)
      modifies twos
      ensures TwosDone(data[..], pass + 1, 0, x + 1) && TwosDone(data[..], pass, x + 1, 86)
    {
      hide Gathered, Kept, RolledIn, Source;
      RolledInGathers(data[..], pass, x, twos[x]);
      twos[x] := RolledIn(twos[x], data[y]);
    }

    method PutSix(data: array<bv8>, ghost from: int, y: nat)
      requires Shape() && data.Length == 256 && data != twos && data != sixes
      requires y < 256 && (from - 1 < 256 ==> y == from - 1) && SixesDone(data[..], from)
      modifies sixes
      ensures SixesDone(data[..], from - 1)
    {
      hide HighSix;
      sixes[y] := HighSix(data[y]);
    }

    lemma StepPlace(pass: nat, x: nat)
      requires pass < 3 && x < 86
      ensures var y, top := Around(Top(pass) - x), Top(pass);
              && 0 < top - x && Source(pass, x) == Around(top - x - 1) == (if y == 0 then 0xff else y - 1) < 256
              && (top - x - 1 < 256 ==> Source(pass, x) == top - x - 1)
    {
    }

    /** Splits a sector into the two buffers, in three passes over the twos. */
    method Precompute(data: array<bv8>)
      requires Shape() && data.Length == 256 && data != twos && data != sixes
      modifies twos, sixes
      ensures twos[..] == Twos(data[..]) && sixes[..] == Sixes(data[..])
      ensures forall y :: 0 <= y < 256 ==> sixes[y] == data[y] >> 2 && HoldsLowBits(twos[85 - y % 86], y / 86, data[y])
      ensures HoldsLowBits(twos[0], 2, data[1]) && HoldsLowBits(twos[1], 2, data[0])
      ensures forall x :: 0 <= x < 86 ==> twos[x] < 64
    {
      Split(data);
      SplitThere(data[..]);
    }

    /** The format in bits, in the buffers. */
    lemma SplitThere(data: seq<bv8>)
      requires Shape() && |data| == 256 && twos[..] == Twos(data) && sixes[..] == Sixes(data)
      ensures forall y :: 0 <= y < 256 ==> sixes[y] == data[y] >> 2 && HoldsLowBits(twos[85 - y % 86], y / 86, data[y])
      ensures HoldsLowBits(twos[0], 2, data[1]) && HoldsLowBits(twos[1], 2, data[0])
      ensures forall x :: 0 <= x < 86 ==> twos[x] < 64
    {
      hide HoldsLowBits, Twos, Sixes;
      SplitInBits(data);
      assert forall x :: 0 <= x < 86 ==> twos[x] == twos[..][x];
      assert forall y :: 0 <= y < 256 ==> sixes[y] == sixes[..][y];
    }

    method Split(data: array<bv8>)
      requires Shape() && data.Length == 256 && data != twos && data != sixes
      modifies twos, sixes
      ensures twos[..] == Twos(data[..]) && sixes[..] == Sixes(data[..])
    {
      var y: nat := 2;
      ghost var pass := 0;
      NothingGathered(data[..]);
      while true
        invariant 0 <= pass < 3 && y == Around(Top(pass))
        invariant TwosDone(data[..], pass, 0, 86) && SixesDone(data[..], Top(pass))
        decreases 3 - pass
      {
        hide TwosDone, SixesDone;
        y := Pass(data, pass, y);
        pass := pass + 1;
        if y == 0 {
          break;
        }
      }
      MaskTwos(data[..]);
      assert sixes[..] == Sixes(data[..]);
    }

    lemma NothingGathered(data: seq<bv8>)
      requires Shape() && |data| == 256
      ensures TwosDone(data, 0, 0, 86)
    {
      forall x | 0 <= x < 86
        ensures Kept(twos[x], 0) == Gathered(data, 0, x)
      {
      }
    }

    method MaskTwos(ghost data: seq<bv8>)
      requires Shape() && |data| == 256 && TwosDone(data, 3, 0, 86)
      modifies twos
      ensures twos[..] == Twos(data)
    {
      hide Gathered;
      var x := 0x55;
      while true
        invariant 0 <= x < 86
        invariant TwosDone(data, 3, 0, x + 1)
        invariant forall i :: x < i < 86 ==> twos[i] == Gathered(data, 3, i)
        decreases x
      {
        twos[x] := twos[x] & 0x3f;
        if x == 0 {
          break;
        }
        x := x - 1;
      }
      assert twos[..] == Twos(data);
    }

    method AddCode(ghost codes: seq<bv8>, code: bv8, y: nat)
      requires Shape() && BuiltUpTo(codes) && y == |codes| < 64
      requires START <= code && forall i :: 0 <= i < y ==> codes[i] != code
      modifies encodeTab, decodeTab
      ensures BuiltUpTo(codes + [code])
    {
      forall i | 0 <= i < y
        ensures TablePlace(codes[i]) != TablePlace(code)
      {
        PlacesDiffer(codes[i], code);
      }
      hide TablePlace;
      encodeTab[y] := code;
      decodeTab[TablePlace(code)] := y as bv8;
    }

    lemma AllBuilt()
      requires Shape() && BuiltUpTo(Nibbles(0x80))
      ensures TablesBuilt() && encodeTab[..] == NIBBLES
    {
      SixtyFourCodes();
      hide Codes, Nibbles, TablePlace, NIBBLES;
      assert encodeTab[..] == Nibbles(0x80);
      forall v: bv8 | v < 64
        ensures encodeTab[v as nat] == Encoded(v)
        ensures START <= Encoded(v) && decodeTab[TablePlace(Encoded(v))] == v
      {
        ValueOfIndex(v);
        assert encodeTab[v as nat] == Nibbles(0x80)[v as nat];
      }
    }

    /** The decoding table is one that reads back what the encoding table wrote. */
    lemma TablesUndo()
      requires Shape() && TablesBuilt()
      ensures Undoes(decodeTab[..])
    {
      hide Encoded, TablePlace;
    }

    lemma CountUp(x: bv8)
      requires 3 <= x < 0x80
      ensures 3 <= x + 1 <= 0x80 && 0x80 - (x + 1) < 0x80 - x
    {
    }

    method TryCode(x: bv8, y: nat) returns (y': nat)
      requires Shape() && 3 <= x < 0x80 && BuiltUpTo(Nibbles(x)) && y == |Nibbles(x)|
      modifies encodeTab, decodeTab
      ensures BuiltUpTo(Nibbles(x + 1)) && y' == |Nibbles(x + 1)|
    {
      hide Nibbles, Accepted, BuiltUpTo;
      NextNibble(x);
      var reject := Rejects(x);
      y' := y;
      if !reject {
        LeastCode(x);
        NewNibble(x);
        AddCode(Nibbles(x), x | 0x80, y);
        y' := y + 1;
      } else {
        assert Nibbles(x) + [] == Nibbles(x);
      }
    }

    method BuildTables()
      requires Shape()
      modifies encodeTab, decodeTab
      ensures TablesBuilt() && encodeTab[..] == NIBBLES
    {
      var x: bv8 := 3;
      var y: nat := 0;
      NoNibbles();
      assert BuiltUpTo(Nibbles(x));
      hide Codes, Nibbles, Accepted, BuiltUpTo, TablePlace, TablesBuilt, Shape;
      while true
        invariant 3 <= x < 0x80 && BuiltUpTo(Nibbles(x)) && y == |Nibbles(x)|
        decreases 0x80 - x
      {
        y := TryCode(x, y);
        CountUp(x);
        x := x + 1;
        if x >= 0x80 {
          break;
        }
      }
      AllBuilt();
    }

    // ---------- writing ----------

    /** The timed part of write_track: the values' nibbles, and the checksum. */
    method Emit() returns (s: seq<bv8>)
      requires Shape() && TablesBuilt() && AllSix(Values(twos[..], sixes[..]))
      ensures s == Chain(Values(twos[..], sixes[..]))
    {
      ghost var v := Values(twos[..], sixes[..]);
      s := EmitTwos(v);
      s := EmitSixes(v, s, twos[0]);
      var n := Nibble(v, 342, sixes[255]);
      s := s + [n];
      ChainIsLinks(v, s);
    }

    method EmitTwos(ghost v: seq<bv8>) returns (s: seq<bv8>)
      requires Shape() && TablesBuilt() && AllSix(v) && v == Values(twos[..], sixes[..])
      ensures |s| == 86 && ChainedUpTo(v, s)
    {
      assert forall x :: 0 <= x < 86 ==> v[85 - x] == twos[x];
      NothingChained(v);
      hide Xor, Encoded, Link, TablesBuilt, Values, AllSix, ChainedUpTo;
      s := [];
      var a: bv8 := 0;
      var y := 0x56;
      while true
        invariant 0 < y <= 86 && |s| == 86 - y && a == (if y == 86 then 0 else v[85 - y])
        invariant ChainedUpTo(v, s)
        decreases y
      {
        s := EmitTwo(v, s, a, y - 1);
        a := twos[y - 1];
        y := y - 1;
        if y == 0 {
          break;
        }
      }
    }

    method EmitTwo(ghost v: seq<bv8>, s: seq<bv8>, a: bv8, y: nat) returns (s': seq<bv8>)
      requires Shape() && TablesBuilt() && |v| == 342 && AllSix(v) && y < 86 && twos[y] == v[85 - y]
      requires |s| == 85 - y && ChainedUpTo(v, s) && a == (if y == 85 then 0 else v[84 - y])
      ensures |s'| == |s| + 1 && ChainedUpTo(v, s')
    {
      hide Xor, Encoded, Link, TablesBuilt, AllSix, ChainedUpTo;
      var n := Nibble(v, 85 - y, Xor(a, twos[y]));
      ChainedNext(v, s, n);
      s' := s + [n];
    }

    method EmitSixes(ghost v: seq<bv8>, begun: seq<bv8>, last: bv8) returns (s: seq<bv8>)
      requires Shape() && TablesBuilt() && AllSix(v) && v == Values(twos[..], sixes[..])
      requires |begun| == 86 && ChainedUpTo(v, begun) && last == twos[0]
      ensures |s| == 342 && ChainedUpTo(v, s)
    {
      assert last == v[85] && forall y :: 0 <= y < 256 ==> v[86 + y] == sixes[y];
      hide Xor, Encoded, Link, TablesBuilt, Values, AllSix, ChainedUpTo;
      s := begun;
      var a := last;
      var y := 0;
      while true
        invariant 0 <= y < 256 && |s| == 86 + y && a == v[85 + y]
        invariant ChainedUpTo(v, s)
        decreases 256 - y
      {
        assert sixes[y] == v[86 + y];
        var n := Nibble(v, 86 + y, Xor(a, sixes[y]));
        ChainedNext(v, s, n);
        s := s + [n];
        a := sixes[y];
        y := y + 1;
        if y == 256 {
          break;
        }
      }
    }

    method Nibble(ghost v: seq<bv8>, ghost i: nat, a: bv8) returns (n: bv8)
      requires Shape() && TablesBuilt() && 0 < |v| && AllSix(v) && i <= |v|
      requires if i == |v| then a == v[i - 1] else a == Xor(if i == 0 then 0 else v[i - 1], v[i])
      ensures n == Encoded(Link(v, i))
    {
      if i == |v| {
        XorUndone(0, a);
      }
      XorCommutes(if i == 0 then 0 else v[i - 1], if i == |v| then 0 else v[i]);
      assert a == Link(v, i);
      hide Encoded, Link;
      n := encodeTab[a as nat];
    }

    // ---------- reading ----------

    /** read_track's inner part: values in, and whether the checksum came out as zero. */
    method ReadStream(s: seq<bv8>, data: array<bv8>) returns (ok: bool)
      requires Shape() && data.Length == 256 && data != twos && data != decodeTab && data != encodeTab
      requires |s| == 343 && InTable(s)
      modifies twos, data
      ensures ok <==> Accepts(decodeTab[..], s)
      ensures Values(twos[..], data[..]) == ReadValues(decodeTab[..], s)
    {
      var a := ReadTwos(s);
      a := ReadSixes(s, a, data);
      hide Running, Xor;
      RunningNext(decodeTab[..], s, 342);
      a := Xor(a, decodeTab[TablePlace(s[342])]);
      ok := a == 0;
      ghost var v, r := Values(twos[..], data[..]), ReadValues(decodeTab[..], s);
      assert forall i :: 0 <= i < 342 ==> v[i] == r[i];
    }

    method ReadTwos(s: seq<bv8>) returns (a: bv8)
      requires Shape() && |s| == 343 && InTable(s)
      modifies twos
      ensures a == Running(decodeTab[..], s, 86)
      ensures forall x :: 0 <= x < 86 ==> twos[x] == Running(decodeTab[..], s, 86 - x)
    {
      ghost var table := decodeTab[..];
      a := 0;
      var y := 0x56;
      assert a == Running(table, s, 0);
      hide Running, Xor;
      while true
        invariant 0 < y <= 86 && decodeTab[..] == table && a == Running(table, s, 86 - y)
        invariant forall x :: y <= x < 86 ==> twos[x] == Running(table, s, 86 - x)
        decreases y
      {
        RunningNext(table, s, 86 - y);
        a := Xor(a, decodeTab[TablePlace(s[86 - y])]);
        y := y - 1;
        twos[y] := a;
        if y == 0 {
          break;
        }
      }
    }

    method ReadSixes(s: seq<bv8>, begun: bv8, data: array<bv8>) returns (a: bv8)
      requires Shape() && data.Length == 256 && data != twos && data != decodeTab && data != encodeTab
      requires |s| == 343 && InTable(s) && begun == Running(decodeTab[..], s, 86)
      modifies data
      ensures a == Running(decodeTab[..], s, 342)
      ensures forall y :: 0 <= y < 256 ==> data[y] == Running(decodeTab[..], s, 87 + y)
    {
      hide Running, Xor;
      ghost var table := decodeTab[..];
      a := begun;
      var y := 0;
      while true
        invariant 0 <= y < 256 && decodeTab[..] == table && a == Running(table, s, 86 + y)
        invariant forall i :: 0 <= i < y ==> data[i] == Running(table, s, 87 + i)
        decreases 256 - y
      {
        RunningNext(table, s, 86 + y);
        a := Xor(a, decodeTab[TablePlace(s[86 + y])]);
        data[y] := a;
        y := y + 1;
        if y == 256 {
          break;
        }
      }
    }

    /** The sixes in the sector's buffer are joined with the twos, which are used up. */
    method Recombine(data: array<bv8>)
      requires Shape() && data.Length == 256 && data != twos
      modifies twos, data
      ensures data[..] == Bytes(old(Values(twos[..], data[..])))
      ensures forall y :: 0 <= y < 256 ==>
                data[y] >> 2 == old(data[y]) & 0x3f && HoldsLowBits(old(twos[85 - y % 86]), y / 86, data[y])
    {
      ghost var before, read := twos[..], data[..];
      BytesInBits(before, read);
      hide HoldsLowBits, Bytes, Values;
      Join(data);
      assert forall y :: 0 <= y < 256 ==> data[y] == data[..][y] && read[y] == old(data[y]);
      assert forall x :: 0 <= x < 86 ==> before[x] == old(twos[x]);
    }

    method Join(data: array<bv8>)
      requires Shape() && data.Length == 256 && data != twos
      modifies twos, data
      ensures data[..] == Bytes(old(Values(twos[..], data[..])))
    {
      ghost var v := Values(twos[..], data[..]);
      assert forall j :: 0 <= j < 86 ==> v[85 - j] == twos[j];
      hide Joined, PairAt, Values;
      var x, y := 0x56, 0;
      while true
        invariant 0 <= y < 256 && (if y == 0 then x == 86 else x == 85 - (y - 1) % 86)
        invariant forall i :: 0 <= i < y ==> data[i] == Joined(v[86 + i], PairAt(v[i % 86], i / 86))
        invariant forall i :: y <= i < 256 ==> data[i] == v[86 + i]
        invariant forall j :: 0 <= j < 86 ==> twos[j] == UsedUp(v[85 - j], y, 85 - j)
        decreases 256 - y
      {
        x := if x == 0 then 0x55 else x - 1;
        JoinOne(data, x, y, v);
        y := y + 1;
        if y == 256 {
          break;
        }
      }
      assert data[..] == Bytes(v);
    }

    method JoinOne(data: array<bv8>, x: nat, y: nat, ghost v: seq<bv8>)
      requires Shape() && data.Length == 256 && data != twos && |v| == 342
      requires y < 256 && x == 85 - y % 86 && data[y] == v[86 + y]
      requires forall j :: 0 <= j < 86 ==> twos[j] == UsedUp(v[85 - j], y, 85 - j)
      modifies twos, data
      ensures data[y] == Joined(v[86 + y], PairAt(v[y % 86], y / 86))
      ensures forall i :: 0 <= i < 256 && i != y ==> data[i] == old(data[i])
      ensures forall j :: 0 <= j < 86 ==> twos[j] == UsedUp(v[85 - j], y + 1, 85 - j)
    {
      hide Joined, PairAt, UsedUp, Shifted;
      UsedUpNext(v, y);
      data[y] := Joined(data[y], twos[x]);
      twos[x] := Shifted(twos[x]);
    }

    // ---------- there and back ----------

    /** Tables built at start, a sector written, and the nibbles read into the same buffer. */
    method WriteThenRead(data: array<bv8>) returns (ok: bool)
      requires Shape() && data.Length == 256
      requires data != encodeTab && data != decodeTab && data != twos && data != sixes
      modifies encodeTab, decodeTab, twos, sixes, data
      ensures ok && data[..] == old(data[..])
    {
      ghost var sector := data[..];
      SectorIsSix(sector);
      hide Shape, TablesBuilt, Twos, Sixes, Values, AllSix, Chain, Accepts, ReadValues, Bytes, InTable, Undoes;
      BuildTables();
      Precompute(data);
      var s := Emit();
      TablesUndo();
      SectorRoundTrip(decodeTab[..], sector);
      ok := ReadStream(s, data);
      Recombine(data);
    }
  }
}
