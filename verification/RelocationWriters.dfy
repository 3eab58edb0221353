/** The two independent writers of the relocation format. */
module RelocationWriters {
  import opened Bytes
  import opened NibbleStream

  /** `|` of a nibble into a value whose low four bits are clear. */
  function OrNibble(value: int, nibble: Nibble): int
    requires value % 0x10 == 0
  {
    value + nibble
  }

  /** `relocationBuffer = nibble << 4`: the int8_t value never is the sentinel -1. */
  method Shifted(nibble: Nibble) returns (buffer: int)
    ensures buffer == Signed8(Join(nibble, 0)) && buffer != -1
  {
    buffer := Signed8(ToByte(nibble * 0x10));
  }

  /** `writeByte(relocationBuffer | nibble)`, where the buffer is sign-extended to an int first. */
  method Merge(buffer: int, nibble: Nibble, ghost first: Nibble) returns (b: Byte)
    requires buffer == Signed8(Join(first, 0))
    ensures b == Join(first, nibble)
  {
    b := ToByte(OrNibble(buffer, nibble));
  }

  lemma PackSnoc(xs: seq<Nibble>, first: Nibble, second: Nibble)
    requires |xs| % 2 == 0
    ensures Pack(xs + [first, second]) == Pack(xs) + [Join(first, second)]
  {
    var last := [first, second];
    PackConcat(xs, last);
    assert last[2..] == [];
    assert Pack(last) == [Join(first, second)] + Pack(last[2..]) == [Join(first, second)];
  }

  /**
   The output file of the assembler, with the incremental nibble writer of apps/asm.c:1826-1856.
   `relocationBuffer` is an int8_t that holds either the first nibble of a byte, shifted up, or -1.
   */
  class OutputFile {
    var relocationBuffer: int
    var out: seq<Byte>               // everything passed to writeByte
    ghost var start: seq<Byte>       // what had been written at the last reset
    ghost var nibbles: seq<Nibble>   // every nibble written since
    ghost var whole: seq<Nibble>     // those of them that make up whole bytes

    ghost predicate Valid()
      reads this
    {
      && |whole| % 2 == 0
      && out == start + Pack(whole)
      && (relocationBuffer == -1 ==> nibbles == whole)
      && (relocationBuffer != -1 ==>
            && |nibbles| == |whole| + 1
            && nibbles == whole + [nibbles[|whole|]]
            && relocationBuffer == Signed8(Join(nibbles[|whole|], 0)))
    }

    constructor ()
      ensures Valid() && start == out == [] && nibbles == []
    {
      relocationBuffer := -1;
      out, start, nibbles, whole := [], [], [], [];
    }

    method WriteByte(b: Byte)
      modifies this`out
      ensures out == old(out) + [b]
    {
      out := out + [b];
    }

    method ResetRelocationWriter()
      modifies this
      ensures Valid() && out == start == old(out) && nibbles == []
    {
      relocationBuffer := -1;
      start, nibbles, whole := out, [], [];
    }

    method WriteRelocation(nibble: Nibble)
      requires Valid()
      modifies this
      ensures Valid() && start == old(start) && nibbles == old(nibbles) + [nibble]
    {
      if relocationBuffer == -1 {
        relocationBuffer := Shifted(nibble);
        nibbles := nibbles + [nibble];
      } else {
        ghost var first := nibbles[|whole|];
        PackSnoc(whole, first, nibble);
        var joined := Merge(relocationBuffer, nibble, first);
        out := out + [joined];
        relocationBuffer := -1;
        nibbles, whole := nibbles + [nibble], whole + [first, nibble];
        assert nibbles == whole;
      }
    }

    method WriteRelocationFor(distance: Word)
      requires Valid()
      modifies this
      ensures Valid() && start == old(start) && nibbles == old(nibbles) + Distance(distance)
    {
      var delta: nat := distance;
      while delta >= 0xe
        invariant Valid() && start == old(start)
        invariant nibbles + Distance(delta) == old(nibbles) + Distance(distance)
      {
        ghost var before := nibbles;
        WriteRelocation(0xe);
        delta := delta - 0xe;
        assert before + ([SKIP] + Distance(delta)) == before + [SKIP] + Distance(delta);
      }
      WriteRelocation(delta);
    }

    /** Completes a half-written byte; the -1 sentinel tells the two cases apart exactly. */
    method FlushRelocations()
      requires Valid()
      modifies this
      ensures out == old(start + Pack(nibbles))
    {
      if relocationBuffer != -1 {
        ghost var full, last := whole, nibbles[|whole|];
        PackSnoc(full, last, 0);
        PackConcat(full, [last]);
        WriteRelocation(0);
        assert whole == nibbles == full + [last, 0];
      }
    }
  }

  /** What has been written once the distances to some offsets are out, and what is still to come. */
  lemma {:induction false} DistancesSnoc(offsets: seq<Word>, from: Word, next: Word)
    ensures Distances(offsets + [next], from)
         == Distances(offsets, from)
            + Distance(ToWord(next - (if offsets == [] then from else offsets[|offsets| - 1])))
  {
    if offsets == [] {
      assert [next][1..] == [];
      assert Distances([next][1..], next) == [];
    } else {
      assert (offsets + [next])[1..] == offsets[1..] + [next];
      DistancesSnoc(offsets[1..], offsets[0], next);
    }
  }

  /** tools/multilink.cc:58-85: first the list of nibbles, then pairs of them. */
  method ToBytestream(differences: seq<Word>) returns (results: seq<Byte>)
    ensures results == Encode(differences)
  {
    var bytes := ToNibbles(differences);
    results := PairNibbles(bytes);
  }

  method ToNibbles(differences: seq<Word>) returns (bytes: seq<Nibble>)
    ensures bytes == Distances(differences, 0) + [STOP]
  {
    hide ToWord;
    bytes := [];
    var pos: Word := 0;
    for i := 0 to |differences|
      invariant pos == if i == 0 then 0 else differences[i - 1]
      invariant bytes == Distances(differences[..i], 0)
    {
      var diff := differences[i];
      bytes := PushDistance(bytes, ToWord(diff - pos));
      pos := diff;
      assert differences[..i + 1] == differences[..i] + [diff];
      DistancesSnoc(differences[..i], 0, diff);
    }
    assert differences[..|differences|] == differences;
    bytes := bytes + [0xf];
  }

  method PushDistance(before: seq<Nibble>, distance: Word) returns (bytes: seq<Nibble>)
    ensures bytes == before + Distance(distance)
  {
    bytes := before;
    var delta: nat := distance;
    while delta >= 0xe
      invariant bytes + Distance(delta) == before + Distance(distance)
    {
      ghost var sofar := bytes;
      bytes := bytes + [0xe];
      delta := delta - 0xe;
      assert sofar + ([SKIP] + Distance(delta)) == bytes + Distance(delta);
    }
    bytes := bytes + [delta];
  }

  method PairNibbles(bytes: seq<Nibble>) returns (results: seq<Byte>)
    ensures results == Pack(bytes)
  {
    results := [];
    var i := 0;
    hide Pack, Join;
    assert bytes[0..] == bytes;
    assert PackFrom(bytes, 0) == Pack(bytes);
    hide PackFrom;
    while i < |bytes|
      invariant 0 <= i && results + PackFrom(bytes, i) == Pack(bytes)
      decreases |bytes| - i
    {
      var left: int := bytes[i];
      var right: int := if i + 1 < |bytes| then bytes[i + 1] else 0;
      PackNext(bytes, i);
      results := results + [ToByte(left * 0x10 + right)];
      i := i + 2;
    }
    NothingPacked(bytes, i);
  }

  function PackFrom(nibbles: seq<Nibble>, i: nat): seq<Byte>
  {
    Pack(if i <= |nibbles| then nibbles[i..] else [])
  }

  lemma PackNext(nibbles: seq<Nibble>, i: nat)
    requires i < |nibbles|
    ensures var left: int, right: int := nibbles[i], if i + 1 < |nibbles| then nibbles[i + 1] else 0;
            PackFrom(nibbles, i) == [ToByte(left * 0x10 + right)] + PackFrom(nibbles, i + 2)
  {
    JoinIs(nibbles[i], if i + 1 < |nibbles| then nibbles[i + 1] else 0);
    hide Join, ToByte;
    if i + 1 < |nibbles| {
      assert nibbles[i..][2..] == nibbles[i + 2..];
    }
  }

  lemma JoinIs(left: Nibble, right: Nibble)
    ensures Join(left, right) == ToByte(left as int * 0x10 + right)
  {
  }

  lemma NothingPacked(nibbles: seq<Nibble>, i: nat)
    requires i >= |nibbles|
    ensures PackFrom(nibbles, i) == []
  {
  }
}
