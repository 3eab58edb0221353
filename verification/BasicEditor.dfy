/**
 BEdit's document: one array of bytes, with a line shifted in or out in place (apps/bedit.asm:704-791,
 884-942, 982-1153, 1209-1274).
 */
module BasicEditor {
  import opened Bytes
  import opened Lines

  datatype Outcome = Done | NoRoom

  class Editor {
    const mem: array<Byte>
    const lineBuffer: array<Byte>
    const textStart: Word
    const himem: Byte             // the page the document must end below
    var currentLine: Word
    var ptr1: Word
    var ptr2: Word
    var lineNumber: Word
    var lineLength: Byte
    var dirty: bool
    ghost var lines: seq<Line>    // what the bytes stand for

    ghost predicate Shape()
    {
      mem.Length == 0x1_0000 && lineBuffer.Length == 128 && mem != lineBuffer
    }

    ghost predicate Valid()
      reads this`lines, mem
    {
      && Shape() && AllFit(lines) && textStart + |Encode(lines)| < 0x100 * himem
      && mem[textStart..textStart + |Encode(lines)| + 1] == Encode(lines) + [0]
    }

    /** The address of line i, or of the final zero. */
    ghost function Address(i: nat): int
      reads this`lines
      requires AllFit(lines) && i <= |lines|
    {
      textStart + |Encode(lines[..i])|
    }

    ghost predicate At(address: int, i: nat)
      reads this`lines
      requires AllFit(lines)
    {
      i <= |lines| && address == Address(i)
    }

    /** new_file, on a machine with room for more than nothing. */
    constructor (start: Word, top: Byte)
      requires start < 0x100 * top
      ensures Valid() && lines == [] && At(currentLine, 0) && !dirty && textStart == start && himem == top
      ensures fresh(mem) && fresh(lineBuffer)
    {
      mem := new Byte[0x1_0000];
      lineBuffer := new Byte[128];
      textStart, himem, currentLine := start, top, start;
      ptr1, ptr2, lineNumber, lineLength, dirty := 0, 0, 0, 0, false;
      lines := [];
      new;
      mem[textStart] := 0;
      assert mem[textStart..textStart + 1] == [0];
    }

    // ---------- the bytes of one line ----------

    lemma EndIsWithin(i: nat)
      requires Valid() && i <= |lines|
      ensures textStart <= Address(i) <= textStart + |Encode(lines)| < 0x100 * himem <= 0xff00
      ensures i == |lines| ==> Address(i) == textStart + |Encode(lines)|
    {
      EncodeSplit(lines, i);
      assert i == |lines| ==> lines[..i] == lines;
      hide Encode;
    }

    lemma AfterLine(i: nat)
      requires Valid() && i < |lines|
      ensures Address(i + 1) == Address(i) + Length(lines[i])
    {
      EncodeTo(lines, i);
      hide Encode;
    }

    /** What is stored at line i and behind. */
    lemma Stored(i: nat)
      requires Valid() && i <= |lines|
      ensures textStart <= Address(i) <= textStart + |Encode(lines)| < 0xff00
      ensures mem[textStart..Address(i)] == Encode(lines[..i])
      ensures mem[Address(i)..textStart + |Encode(lines)| + 1] == Encode(lines[i..]) + [0]
    {
      EndIsWithin(i);
      EncodeSplit(lines, i);
      hide Encode;
      var a, b := Encode(lines[..i]), Encode(lines[i..]);
      assert a + b + [0] == a + (b + [0]);
      SliceParts(mem, textStart, Address(i), textStart + |Encode(lines)| + 1, a, b + [0]);
    }

    lemma Header(i: nat)
      requires Valid() && i <= |lines|
      ensures textStart <= Address(i) < 0xff00
      ensures mem[Address(i)] == if i == |lines| then 0 else Length(lines[i])
      ensures i < |lines| ==> mem[Address(i) + 1] == Lo(lines[i].number) && mem[Address(i) + 2] == Hi(lines[i].number)
    {
      Stored(i);
      var behind := mem[Address(i)..textStart + |Encode(lines)| + 1];
      if i < |lines| {
        EncodeFrom(lines, i);
        var b, rest := LineBytes(lines[i]), Encode(lines[i + 1..]);
        hide Encode;
        assert behind == b + (rest + [0]);
        assert behind[0] == b[0] && behind[1] == b[1] && behind[2] == b[2];
      } else {
        assert lines[i..] == [];
        assert behind == [0];
      }
    }

    // ---------- finding lines ----------

    /** test_line_number: the flags, for a current line of number k. */
    method TestLineNumber(ghost i: nat) returns (carry: bool, zero: bool)
      requires Valid() && At(currentLine, i) && i < |lines|
      ensures zero <==> lines[i].number == lineNumber
      ensures carry <==> lines[i].number < lineNumber
    {
      Header(i);
      ghost var k := lines[i].number;
      hide Valid, At;
      Halves(k, lineNumber);
      if mem[currentLine + 1] == Lo(lineNumber) {
        if mem[currentLine + 2] == Hi(lineNumber) {
          return false, true;
        }
      }
      var borrow := if Lo(lineNumber) < mem[currentLine + 1] then 1 else 0;
      var high: int := mem[currentLine + 2];
      carry := Hi(lineNumber) >= high + borrow;
      zero := false;
    }

    method GotoNextLine(ghost i: nat) returns (zero: bool)
      requires Valid() && At(currentLine, i)
      modifies this`currentLine
      ensures Valid() && (zero <==> i == |lines|) && At(currentLine, if i == |lines| then i else i + 1)
    {
      Header(i);
      if i < |lines| {
        AfterLine(i);
        EndIsWithin(i + 1);
      }
      hide Encode, AllFit;
      var a: int := mem[currentLine];
      zero := a == 0;
      if a != 0 {
        currentLine := currentLine + a;
      }
    }

    /** The first line from the start with at least that number, or the end. */
    method FindLine() returns (ghost i: nat)
      requires Valid()
      modifies this`currentLine
      ensures Valid() && i == AtLeast(lines, lineNumber, 0) && At(currentLine, i)
    {
      currentLine := textStart;
      i := 0;
      assert lines[..0] == [];
      while true
        invariant i <= |lines| && Valid() && At(currentLine, i)
        invariant AtLeast(lines, lineNumber, 0) == AtLeast(lines, lineNumber, i)
        decreases |lines| - i
      {
        Header(i);
        hide Encode, AllFit, Valid;
        if mem[currentLine] == 0 {
          break;
        }
        var carry, zero := TestLineNumber(i);
        if !carry {
          break;
        }
        zero := GotoNextLine(i);
        i := i + 1;
      }
    }

    method FindEndOfDocument(ghost start: nat)
      requires Valid() && At(currentLine, start)
      modifies this`ptr1
      ensures Valid() && ptr1 as int == textStart + |Encode(lines)|
    {
      ptr1 := currentLine;
      ghost var i := start;
      while true
        invariant i <= |lines| && Valid() && At(ptr1, i)
        decreases |lines| - i
      {
        Header(i);
        EndIsWithin(i);
        hide Encode, AllFit;
        if mem[ptr1] == 0 {
          return;
        }
        AfterLine(i);
        EndIsWithin(i + 1);
        ptr1 := ptr1 + mem[ptr1];
        i := i + 1;
      }
    }

    // ---------- changing the document ----------

    /** Bytes that make up two runs of lines make up the document of both. */
    lemma Reassembled(a: seq<Line>, b: seq<Line>, at: int)
      requires Shape() && AllFit(a) && AllFit(b) && lines == a + b
      requires at == textStart + |Encode(a)| && at + |Encode(b)| < 0x100 * himem
      requires mem[textStart..at] == Encode(a) && mem[at..at + |Encode(b)| + 1] == Encode(b) + [0]
      ensures Valid() && Address(|a|) == at
    {
      EncodeConcat(a, b);
      hide Encode, LineBytes, AllFit;
      assert (a + b)[..|a|] == a;
      SliceWhole(mem, textStart, at, at + |Encode(b)| + 1);
      ZeroBehind(Encode(a), Encode(b));
    }

    /** Bytes from ptr2 on move down to currentLine, which moves up to ptr1; told of n of them and of those from lo on. */
    method CloseUp(ghost lo: nat, ghost n: nat)
      requires Shape() && currentLine < ptr1 && currentLine < ptr2 && ptr2 + (ptr1 - currentLine) < 0x1_0000
      requires lo <= currentLine && n <= ptr1 - currentLine
      modifies mem, this`currentLine, this`ptr2
      ensures mem[lo..old(currentLine)] == old(mem[lo..currentLine])
      ensures mem[old(currentLine)..old(currentLine) + n] == old(mem[ptr2..ptr2 + n])
    {
      ghost var start: nat, gap: nat, was := currentLine, ptr2 - currentLine, mem[..];
      SameSlice(mem, was, lo, currentLine);
      SameSlice(mem, was, ptr2, ptr2 + n);
      MoveDown(was, start, gap);
      MovedSlice(mem, was, start, start + n, gap);
      SameSlice(mem, was, lo, start);
    }

    method MoveDown(ghost was: seq<Byte>, ghost start: nat, ghost gap: nat)
      requires Shape() && currentLine < ptr1 && currentLine < ptr2 && ptr2 + (ptr1 - currentLine) < 0x1_0000
      requires was == mem[..] && start == currentLine as int && gap == ptr2 - currentLine
      modifies mem, this`currentLine, this`ptr2
      ensures forall k :: start <= k < ptr1 ==> mem[k] == was[k + gap]
      ensures forall k :: 0 <= k < start ==> mem[k] == was[k]
    {
      while true
        invariant start <= currentLine < ptr1 && ptr2 as int == currentLine + gap
        invariant forall k :: start <= k < currentLine ==> mem[k] == was[k + gap]
        invariant forall k :: 0 <= k < start || currentLine <= k < 0x1_0000 ==> mem[k] == was[k]
        decreases ptr1 - currentLine
      {
        mem[currentLine] := mem[ptr2];
        currentLine := currentLine + 1;
        ptr2 := ptr2 + 1;
        if ptr1 == currentLine {
          break;
        }
      }
    }

    method DeleteCurrentLine(ghost i: nat)
      requires Valid() && At(currentLine, i)
      modifies mem, this`currentLine, this`ptr1, this`ptr2, this`dirty, this`lines
      ensures Valid() && At(currentLine, i)
      ensures lines == if i < |old(lines)| then Without(old(lines), i) else old(lines)
    {
      var saved := currentLine;
      dirty := true;
      Header(i);
      hide Encode, AllFit, Valid, Without, LineBytes;
      if mem[currentLine] != 0 {
        NextStarts(i);
        ptr2 := currentLine + mem[currentLine];
        FindEndOfDocument(i);
        RemoveLine(i);
      }
      currentLine := saved;
    }

    method RemoveLine(ghost i: nat)
      requires Valid() && i < |lines| && At(currentLine, i) && At(ptr2, i + 1) && currentLine < ptr2
      requires ptr1 as int == textStart + |Encode(lines)|
      modifies mem, this`currentLine, this`ptr2, this`lines
      ensures lines == Without(old(lines), i)
      ensures Valid() && At(old(currentLine), i)
    {
      StoredAround(i);
      hide Encode, AllFit, Valid, Without, LineBytes, Address;
      ghost var saved, was, before, behind := currentLine, lines, mem[textStart..currentLine], mem[ptr2..ptr1 + 1];
      CloseUp(textStart, |behind|);
      lines := Without(was, i);
      Rejoined(saved, i, was, before, behind);
    }

    lemma StoredAround(i: nat)
      requires Valid() && i < |lines|
      ensures textStart <= Address(i) < Address(i + 1) <= textStart + |Encode(lines)| < 0xff00
      ensures Address(i + 1) <= Address(i) + 0xff && textStart + |Encode(lines)| < 0x100 * himem
      ensures mem[textStart..Address(i)] == Encode(lines[..i])
      ensures mem[Address(i + 1)..textStart + |Encode(lines)| + 1] == Encode(lines[i + 1..]) + [0]
    {
      Stored(i);
      Stored(i + 1);
      NextStarts(i);
      hide Encode;
    }

    lemma NextStarts(i: nat)
      requires Valid() && i < |lines|
      ensures Address(i + 1) == Address(i) + Length(lines[i])
      ensures Address(i) < Address(i + 1) <= textStart + |Encode(lines)|
    {
      AfterLine(i);
      EndIsWithin(i + 1);
      hide Encode, AllFit;
    }

    /** After closing up, the bytes before and behind the line are next to each other. */
    lemma Rejoined(saved: Word, i: nat, was: seq<Line>, before: seq<Byte>, behind: seq<Byte>)
      requires Shape() && AllFit(was) && i < |was| && lines == Without(was, i)
      requires textStart <= saved && saved + |behind| <= ptr1 < 0x100 * himem
      requires before == Encode(was[..i]) && mem[textStart..saved] == before
      requires behind == Encode(was[i + 1..]) + [0] && mem[saved..saved + |behind|] == behind
      ensures Valid() && At(saved, i)
    {
      hide Encode, LineBytes;
      Reassembled(was[..i], was[i + 1..], saved);
    }

    /** The bytes from currentLine to the final zero at ptr1 move up to end at ptr2. */
    method OpenUp(ghost lo: nat)
      requires Shape() && lo <= currentLine <= ptr1 < ptr2
      modifies mem, this`ptr1, this`ptr2
      ensures mem[lo..currentLine] == old(mem[lo..currentLine])
      ensures var gap := old(ptr2 - ptr1);
              && ptr1 == currentLine && ptr2 as int == currentLine + gap
              && mem[currentLine + gap..old(ptr2) + 1] == old(mem[currentLine..ptr1 + 1])
    {
      ghost var end, gap, was := ptr1 as int, ptr2 - ptr1, mem[..];
      MoveUp(was, end, gap);
      ShiftedSlice(mem, was, currentLine, end + 1, gap);
      SameSlice(mem, was, lo, currentLine);
    }

    method MoveUp(ghost was: seq<Byte>, ghost end: int, ghost gap: int)
      requires Shape() && currentLine <= ptr1 < ptr2 && was == mem[..] && end == ptr1 as int && gap == ptr2 - ptr1
      modifies mem, this`ptr1, this`ptr2
      ensures ptr1 == currentLine && ptr2 as int == currentLine + gap
      ensures forall k :: currentLine + gap <= k < end + 1 + gap ==> mem[k] == was[k - gap]
      ensures forall k :: 0 <= k < currentLine ==> mem[k] == was[k]
    {
      while true
        invariant currentLine <= ptr1 <= end && ptr2 as int == ptr1 + gap
        invariant forall k :: ptr2 < k < end + 1 + gap ==> mem[k] == was[k - gap]
        invariant forall k :: 0 <= k <= ptr2 ==> mem[k] == was[k]
        decreases ptr1
      {
        mem[ptr2] := mem[ptr1];
        if ptr1 == currentLine {
          break;
        }
        ptr1 := ptr1 - 1;
        ptr2 := ptr2 - 1;
      }
    }

    /** The header but for the number, and the text. */
    method WriteLine(ghost lo: nat, ghost hi: nat) returns (ghost l: Line)
      requires Shape() && lineLength <= 128 && lo <= currentLine && currentLine + lineLength + 3 <= hi <= 0x1_0000
      modifies mem
      ensures mem[lo..currentLine] == old(mem[lo..currentLine])
      ensures mem[currentLine + lineLength + 3..hi] == old(mem[currentLine + lineLength + 3..hi])
      ensures Fits(l) && l.text == lineBuffer[..lineLength] && Length(l) == lineLength + 3
      ensures mem[currentLine..currentLine + lineLength + 3] == LineBytes(l)
    {
      ghost var was, start: nat, end: nat := mem[..], currentLine, currentLine + lineLength + 3;
      CopyText(was);
      SameSlice(mem, was, lo, start);
      SameSlice(mem, was, end, hi);
      ghost var text := lineBuffer[..lineLength];
      l := Line(Pair(mem[start + 1], mem[start + 2]), text);
      LineIs(mem[start..end], l);
    }

    method CopyText(ghost was: seq<Byte>)
      requires Shape() && lineLength <= 128 && currentLine + lineLength + 3 <= 0x1_0000 && was == mem[..]
      modifies mem
      ensures mem[currentLine] == lineLength + 3
      ensures forall k :: 0 <= k < lineLength ==> mem[currentLine + 3 + k] == lineBuffer[k]
      ensures forall k :: 0 <= k < currentLine || currentLine + 3 + lineLength <= k < 0x1_0000 ==> mem[k] == was[k]
    {
      mem[currentLine] := lineLength + 3;
      var x: Byte := 0;
      while true
        invariant x <= lineLength && mem[currentLine] == lineLength + 3
        invariant forall k :: 0 <= k < x ==> mem[currentLine + 3 + k] == lineBuffer[k]
        invariant forall k :: 0 <= k < currentLine || currentLine + 3 + lineLength <= k < 0x1_0000 ==> mem[k] == was[k]
        decreases lineLength - x
      {
        if x == lineLength {
          break;
        }
        mem[currentLine + 3 + x] := lineBuffer[x];
        x := x + 1;
      }
    }

    /** insert_line: the line goes before the current one, its number being whatever is there. */
    method InsertLine(ghost i: nat) returns (r: Outcome)
      requires Valid() && At(currentLine, i) && lineLength <= 128
      modifies mem, this`currentLine, this`ptr1, this`ptr2, this`dirty, this`lines, this`lineLength
      ensures Valid()
      ensures r == NoRoom <==> textStart + |Encode(old(lines))| + old(lineLength) + 3 >= 0x100 * himem
      ensures r == NoRoom ==> lines == old(lines) && currentLine == old(currentLine) && mem[..] == old(mem[..])
      ensures r == Done ==>
                && |lines| == |old(lines)| + 1 && i <= |old(lines)|
                && lines == With(old(lines), i, lines[i])
                && lines[i].text == old(lineBuffer[..lineLength])
                && At(old(currentLine), i) && At(currentLine, i + 1) && lineLength == 0
    {
      EndIsWithin(i);
      hide Encode, AllFit, Valid, LineBytes, With;
      FindEndOfDocument(i);
      var newEnd: int := ptr1 + lineLength + 3;
      ptr2 := newEnd;
      if newEnd / 0x100 >= himem {
        return NoRoom;
      }
      dirty := true;
      PutLine(i);
      Header(i);
      currentLine := currentLine + mem[currentLine];
      lineLength := 0;
      r := Done;
    }

    method PutLine(ghost i: nat)
      requires Valid() && At(currentLine, i) && lineLength <= 128
      requires ptr1 as int == textStart + |Encode(lines)| && ptr2 as int == ptr1 + lineLength + 3 < 0x100 * himem
      modifies mem, this`ptr1, this`ptr2, this`lines
      ensures Valid() && i <= |old(lines)| && |lines| == |old(lines)| + 1
      ensures lines == With(old(lines), i, lines[i]) && lines[i].text == lineBuffer[..lineLength]
      ensures At(currentLine, i) && At(currentLine + lineLength + 3, i + 1)
    {
      Stored(i);
      hide Encode, AllFit, Valid, LineBytes, Address, With, Fits, Length, At, Shape;
      ghost var was, before, behind := lines, mem[textStart..currentLine], mem[currentLine..ptr1 + 1];
      ghost var l := MakeRoom(before, behind);
      lines := With(was, i, l);
      Inserted(currentLine, i, was, l, before, behind);
    }

    /** What was from currentLine on comes behind the new line. */
    method MakeRoom(ghost before: seq<Byte>, ghost behind: seq<Byte>) returns (ghost l: Line)
      requires Shape() && lineLength <= 128 && textStart <= currentLine <= ptr1
      requires ptr2 as int == ptr1 + lineLength + 3 < 0xffff
      requires before == mem[textStart..currentLine] && behind == mem[currentLine..ptr1 + 1]
      modifies mem, this`ptr1, this`ptr2
      ensures Fits(l) && l.text == lineBuffer[..lineLength] && Length(l) == lineLength + 3
      ensures currentLine + Length(l) + |behind| <= 0x1_0000 && mem[textStart..currentLine] == before
      ensures mem[currentLine..currentLine + Length(l)] == LineBytes(l)
      ensures mem[currentLine + Length(l)..currentLine + Length(l) + |behind|] == behind
    {
      hide LineBytes, Fits, Length;
      ghost var end := ptr2 + 1;
      OpenUp(textStart);
      l := WriteLine(textStart, end);
    }

    lemma Inserted(at: Word, i: nat, was: seq<Line>, l: Line, before: seq<Byte>, behind: seq<Byte>)
      requires Shape() && AllFit(was) && Fits(l) && i <= |was| && lines == With(was, i, l)
      requires at as int == textStart + |before| && at + Length(l) + |behind| <= 0x100 * himem
      requires before == Encode(was[..i]) && mem[textStart..at] == before
      requires mem[at..at + Length(l)] == LineBytes(l)
      requires behind == Encode(was[i..]) + [0] && mem[at + Length(l)..at + Length(l) + |behind|] == behind
      ensures Valid() && At(at, i) && At(at + Length(l), i + 1)
    {
      EncodeWith(was, i, l);
      SliceWhole(mem, at, at + Length(l), at + Length(l) + |behind|);
      hide Encode, LineBytes, With, Fits;
      Reassembled(was[..i], [l] + was[i..], at);
      AfterLine(i);
    }

    // ---------- commands ----------

    /** Puts the number into the header of line i. */
    method SetNumber(ghost i: nat)
      requires Valid() && At(currentLine, i) && i < |lines|
      modifies mem, this`lines
      ensures Valid() && At(currentLine, i) && lines == old(lines)[i := Line(lineNumber, old(lines)[i].text)]
    {
      StoredAround(i);
      StoredLine(i);
      hide Encode, AllFit, Valid, Address, At, LineBytes, Fits, Lo, Hi;
      ghost var was, l := lines, Line(lineNumber, lines[i].text);
      ghost var end: nat := textStart + |Encode(lines)| + 1;
      ghost var before, behind := mem[textStart..currentLine], mem[currentLine + Length(l)..end];
      FitsToo(was, i);
      PutHeader(was[i], end);
      lines := was[i := l];
      Replaced(currentLine, i, was, l, behind);
    }

    lemma FitsToo(was: seq<Line>, i: nat)
      requires AllFit(was) && i < |was|
      ensures Fits(was[i])
    {
    }

    method PutHeader(ghost prior: Line, ghost end: nat)
      requires Shape() && Fits(prior) && textStart <= currentLine && currentLine + Length(prior) <= end <= 0x1_0000
      requires mem[currentLine..currentLine + Length(prior)] == LineBytes(prior)
      modifies mem
      ensures var l := Line(lineNumber, prior.text);
              && Fits(l) && Length(l) == Length(prior)
              && mem[currentLine..currentLine + Length(l)] == LineBytes(l)
              && mem[textStart..currentLine] == old(mem[textStart..currentLine])
              && mem[currentLine + Length(l)..end] == old(mem[currentLine + Length(prior)..end])
    {
      ghost var l := Line(lineNumber, prior.text);
      ghost var start: nat, next: nat, m := currentLine, currentLine + Length(l), mem[..];
      SameSlice(mem, m, textStart, start);
      SameSlice(mem, m, next, end);
      assert m[start..next] == LineBytes(prior);
      hide Lo, Hi, LineBytes;
      mem[currentLine + 1] := Lo(lineNumber);
      mem[currentLine + 2] := Hi(lineNumber);
      SameSlice(mem, m, textStart, start);
      SameSlice(mem, m, next, end);
      NewHeader(mem, m, start, prior, l);
    }

    lemma StoredLine(i: nat)
      requires Valid() && i < |lines|
      ensures Address(i) + Length(lines[i]) == Address(i + 1) < 0xff00
      ensures mem[Address(i)..Address(i) + Length(lines[i])] == LineBytes(lines[i])
    {
      Stored(i);
      NextStarts(i);
      EncodeFrom(lines, i);
      EndIsWithin(i + 1);
      var a, rest := LineBytes(lines[i]), Encode(lines[i + 1..]);
      hide Encode, LineBytes;
      assert a + rest + [0] == a + (rest + [0]);
      SliceParts(mem, Address(i), Address(i + 1), textStart + |Encode(lines)| + 1, a, rest + [0]);
    }

    lemma Replaced(at: int, i: nat, was: seq<Line>, l: Line, behind: seq<Byte>)
      requires Shape() && AllFit(was) && Fits(l) && i < |was| && lines == was[i := l] && at >= 0
      requires at == textStart + |Encode(was[..i])| && at + Length(l) + |behind| <= 0x100 * himem
      requires mem[textStart..at] == Encode(was[..i])
      requires mem[at..at + Length(l)] == LineBytes(l)
      requires behind == Encode(was[i + 1..]) + [0] && mem[at + Length(l)..at + Length(l) + |behind|] == behind
      ensures Valid() && At(at, i)
    {
      EncodeReplaced(was, i, l);
      hide Encode, LineBytes, AllFit, Fits, Length;
      SliceWhole(mem, at, at + Length(l), at + Length(l) + |behind|);
      Reassembled(was[..i], [l] + was[i + 1..], at);
    }

    /** line_entry, for a number and the text that came with it. */
    method LineEntry(n: Word, text: seq<Byte>) returns (r: Outcome)
      requires Valid() && |text| <= 128
      modifies this`currentLine, this`ptr1, this`ptr2, this`lineNumber, this`lineLength, this`dirty, this`lines,
               mem, lineBuffer
      ensures Valid()
      ensures r == NoRoom <==> textStart + |Encode(Cleared(old(lines), n))| + |text| + 3 >= 0x100 * himem
      ensures r == Done ==> lines == Entered(old(lines), n, text)
      // A line that is to be replaced is gone before it turns out that there is no room for the new one.
      ensures r == NoRoom ==> lines == Cleared(old(lines), n)
    {
      hide Encode, AllFit, AtLeast, Cleared, With, Address;
      lineNumber := n;
      ghost var i := FindLine();
      TakeOut(i);
      FillBuffer(text);
      r := InsertNumbered(i, text);
    }

    /** insert_line, after which the line gets its number. */
    method InsertNumbered(ghost i: nat, ghost text: seq<Byte>) returns (r: Outcome)
      requires Valid() && At(currentLine, i) && lineLength <= 128 && lineBuffer[..lineLength] == text
      modifies mem, this`currentLine, this`ptr1, this`ptr2, this`dirty, this`lines, this`lineLength
      ensures Valid() && i <= |old(lines)|
      ensures r == NoRoom <==> textStart + |Encode(old(lines))| + |text| + 3 >= 0x100 * himem
      ensures lines == if r == NoRoom then old(lines) else With(old(lines), i, Line(lineNumber, text))
    {
      hide Encode, AllFit, LineBytes, Address, With;
      var saved := currentLine;
      ghost var was := lines;
      r := InsertLine(i);
      if r == NoRoom {
        return;
      }
      currentLine := saved;
      ghost var l := lines[i];
      SetNumber(i);
      WithInstead(was, i, l, Line(lineNumber, text));
    }

    /** If the current line has just the number, it is deleted. */
    method TakeOut(ghost i: nat)
      requires Valid() && i == AtLeast(lines, lineNumber, 0) && At(currentLine, i)
      modifies mem, this`currentLine, this`ptr1, this`ptr2, this`dirty, this`lines
      ensures Valid() && At(currentLine, i) && lines == Cleared(old(lines), lineNumber)
    {
      Header(i);
      if i < |lines| {
        Halves(lines[i].number, lineNumber);
      }
      hide Encode, AllFit, Valid, AtLeast, Lo, Hi;
      if mem[currentLine] != 0 {
        if mem[currentLine + 1] == Lo(lineNumber) {
          if mem[currentLine + 2] == Hi(lineNumber) {
            DeleteCurrentLine(i);
          }
        }
      }
    }

    method FillBuffer(text: seq<Byte>)
      requires Shape() && |text| <= 128
      modifies this`lineLength, lineBuffer
      ensures lineLength as int == |text| && lineBuffer[..lineLength] == text
    {
      var y := 0;
      while y < |text|
        invariant 0 <= y <= |text| && lineBuffer[..y] == text[..y]
      {
        lineBuffer[y] := text[y];
        y := y + 1;
      }
      lineLength := y;
    }

    /** parse_line_range, for what was given on the command line. */
    method ParseRange(range: Range) returns (ghost i: nat)
      requires Valid()
      modifies this`currentLine, this`lineNumber
      ensures Valid() && i == AtLeast(lines, FirstOf(range), 0) && At(currentLine, i)
      ensures i < |lines| ==> lineNumber == LastOf(lines, range)
    {
      currentLine := textStart;
      lineNumber := 0xffff;
      i := 0;
      if range == All {
        assert lines[..0] == [];
        assert i == AtLeast(lines, 0, 0);
        return;
      }
      lineNumber := range.n;
      i := FindLine();
      Header(i);
      hide Encode, AllFit, Valid, AtLeast;
      if i < |lines| {
        PairHalves(lines[i].number);
      }
      lineNumber := Pair(mem[currentLine + 1], mem[currentLine + 2]);
      if range.From? {
        lineNumber := 0xffff;
      } else if range.FromTo? {
        lineNumber := range.last;
      }
    }

    method DeleteLines(range: Range)
      requires Valid()
      modifies mem, this`currentLine, this`ptr1, this`ptr2, this`lineNumber, this`dirty, this`lines
      ensures Valid() && lines == Removed(old(lines), FirstOf(range), LastOf(old(lines), range))
    {
      hide Encode, AllFit, AtLeast, Without, Cut, UpTo, Removed, LastOf, FirstOf, Address;
      ghost var i := ParseRange(range);
      ghost var was, k, last := lines, i, LastOf(lines, range);
      NothingCut(was, i);
      while true
        invariant i <= k <= |was| && Valid() && At(currentLine, i) && (k < |was| ==> lineNumber == last)
        invariant lines == Cut(was, i, k) && UpTo(was, last, k) == UpTo(was, last, i)
        decreases |was| - k
      {
        UpToNext(was, last, i, k);
        var more := DeleteWithin(i);
        if !more {
          break;
        }
        k := k + 1;
      }
      RemovedIs(was, FirstOf(range), last);
    }

    /** Deletes the current line unless it is beyond the range or the end. */
    method DeleteWithin(ghost i: nat) returns (more: bool)
      requires Valid() && At(currentLine, i)
      modifies mem, this`currentLine, this`ptr1, this`ptr2, this`dirty, this`lines
      ensures Valid() && At(currentLine, i)
      ensures more <==> i < |old(lines)| && old(lines)[i].number <= lineNumber
      ensures lines == if more then Without(old(lines), i) else old(lines)
    {
      Header(i);
      hide Encode, AllFit, Valid, Without;
      if mem[currentLine] == 0 {
        return false;
      }
      var carry, zero := TestLineNumber(i);
      if !zero && !carry {
        return false;
      }
      DeleteCurrentLine(i);
      more := true;
    }
  }

  lemma WithInstead(lines: seq<Line>, i: nat, a: Line, b: Line)
    requires i <= |lines|
    ensures With(lines, i, a)[i := b] == With(lines, i, b)
  {
  }

  lemma NothingCut(lines: seq<Line>, i: nat)
    requires i <= |lines|
    ensures Cut(lines, i, i) == lines
  {
  }

  lemma RemovedIs(lines: seq<Line>, first: Word, last: Word)
    ensures var i := AtLeast(lines, first, 0);
            Removed(lines, first, last) == Cut(lines, i, UpTo(lines, last, i))
  {
  }

  lemma UpToNext(was: seq<Line>, last: Word, i: nat, k: nat)
    requires i <= k <= |was|
    ensures k < |was| ==> Cut(was, i, k)[i] == was[k] && Without(Cut(was, i, k), i) == Cut(was, i, k + 1)
    ensures UpTo(was, last, k) == if k < |was| && was[k].number <= last then UpTo(was, last, k + 1) else k
  {
  }

  lemma NewHeader(mem: array<Byte>, was: seq<Byte>, start: int, prior: Line, l: Line)
    requires Fits(l) && Fits(prior) && l.text == prior.text && 0 <= start && start + Length(l) <= |was| <= mem.Length
    requires was[start..start + Length(l)] == LineBytes(prior)
    requires mem[start] == was[start] && mem[start + 1] == Lo(l.number) && mem[start + 2] == Hi(l.number)
    requires forall k :: start + 3 <= k < start + Length(l) ==> mem[k] == was[k]
    ensures mem[start..start + Length(l)] == LineBytes(l)
  {
    var b, c := LineBytes(prior), mem[start..start + Length(l)];
    assert c[0] == b[0];
    assert forall k :: 3 <= k < |b| ==> c[k] == was[start + k] == b[k];
  }

  lemma PairHalves(w: Word)
    ensures Pair(Lo(w), Hi(w)) == w
  {
  }

  /** A header and the text. */
  lemma LineIs(b: seq<Byte>, l: Line)
    requires Fits(l) && |b| == Length(l) && b[0] == Length(l) && l.number == Pair(b[1], b[2])
    requires forall k :: 0 <= k < |l.text| ==> b[3 + k] == l.text[k]
    ensures b == LineBytes(l)
  {
    PairParts(b[1], b[2]);
    hide Lo, Hi, Pair;
  }

  lemma PairParts(lo: Byte, hi: Byte)
    ensures Lo(Pair(lo, hi)) == lo && Hi(Pair(lo, hi)) == hi
  {
  }

  lemma ShiftedSlice(m: array<Byte>, was: seq<Byte>, lo: nat, hi: nat, gap: nat)
    requires lo <= hi <= |was| && hi + gap <= m.Length
    requires forall k :: lo + gap <= k < hi + gap ==> m[k] == was[k - gap]
    ensures m[lo + gap..hi + gap] == was[lo..hi]
  {
  }

  lemma MovedSlice(m: array<Byte>, was: seq<Byte>, lo: nat, hi: nat, gap: nat)
    requires lo <= hi <= m.Length && hi + gap <= |was|
    requires forall k :: lo <= k < hi ==> m[k] == was[k + gap]
    ensures m[lo..hi] == was[lo + gap..hi + gap]
  {
  }

  lemma SameSlice(m: array<Byte>, was: seq<Byte>, lo: nat, hi: nat)
    requires lo <= hi <= |was| && hi <= m.Length && forall k :: lo <= k < hi ==> m[k] == was[k]
    ensures m[lo..hi] == was[lo..hi]
  {
  }

  lemma EncodeReplaced(was: seq<Line>, i: nat, l: Line)
    requires AllFit(was) && Fits(l) && i < |was|
    ensures AllFit(was[..i]) && AllFit([l] + was[i + 1..]) && was[i := l] == was[..i] + ([l] + was[i + 1..])
    ensures Encode([l] + was[i + 1..]) + [0] == LineBytes(l) + (Encode(was[i + 1..]) + [0])
  {
    EncodeConcat([l], was[i + 1..]);
    EncodeOne(l);
    hide Encode, LineBytes, Fits;
    assert was[i := l] == was[..i] + ([l] + was[i + 1..]);
    ZeroBehind(LineBytes(l), Encode(was[i + 1..]));
  }

  lemma EncodeWith(was: seq<Line>, i: nat, l: Line)
    requires AllFit(was) && Fits(l) && i <= |was|
    ensures AllFit([l] + was[i..]) && With(was, i, l) == was[..i] + ([l] + was[i..])
    ensures Encode([l] + was[i..]) + [0] == LineBytes(l) + (Encode(was[i..]) + [0])
  {
    EncodeConcat([l], was[i..]);
    EncodeOne(l);
    hide Encode, LineBytes;
  }

  lemma SliceParts(m: array<Byte>, lo: nat, mid: nat, hi: nat, a: seq<Byte>, b: seq<Byte>)
    requires lo <= mid <= hi <= m.Length && mid == lo + |a| && m[lo..hi] == a + b
    ensures m[lo..mid] == a && m[mid..hi] == b
  {
    assert m[lo..hi][..|a|] == a && m[lo..hi][|a|..] == b;
    assert m[lo..mid] == m[lo..hi][..|a|] && m[mid..hi] == m[lo..hi][|a|..];
  }

  lemma ZeroBehind(a: seq<Byte>, b: seq<Byte>)
    ensures a + b + [0] == a + (b + [0])
  {
  }

  lemma SliceWhole(m: array<Byte>, lo: nat, mid: nat, hi: nat)
    requires lo <= mid <= hi <= m.Length
    ensures m[lo..hi] == m[lo..mid] + m[mid..hi]
  {
  }

  lemma Halves(k: Word, n: Word)
    ensures k == n <==> Lo(k) == Lo(n) && Hi(k) == Hi(n)
    ensures k < n <==> !(k == n) && Hi(n) >= Hi(k) + if Lo(n) < Lo(k) then 1 else 0
  {
    var kh: int, kl: int, nh: int, nl: int := Hi(k), Lo(k), Hi(n), Lo(n);
    assert k == 0x100 * kh + kl && n == 0x100 * nh + nl;
    hide Lo, Hi;
  }
}
