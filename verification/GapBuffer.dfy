/** QE's buffer: the text with a gap at the cursor (apps/qe.c:187-194, 387-490, 565-679, 751-769). */
module GapBuffer {
  import opened Bytes
  import opened TextFiles
  import opened Cursor

  class Buffer {
    const memory: array<Byte>
    const bufferStart: nat
    const bufferEnd: nat
    var gapStart: nat
    var gapEnd: nat
    var currentLine: nat

    /** The text before the gap and the text behind it. */
    ghost function Document(): (doc: seq<Byte>)
      reads this`gapStart, this`gapEnd, memory
      requires Bounds()
      ensures |doc| == Cursor() + bufferEnd - gapEnd
    {
      memory[bufferStart..gapStart] + memory[gapEnd..bufferEnd]
    }

    ghost function Cursor(): nat
      reads this`gapStart, this`gapEnd
      requires Bounds()
    {
      gapStart - bufferStart
    }

    /** The byte at bufferEnd can be read. */
    ghost predicate Bounds()
      reads this`gapStart, this`gapEnd
    {
      bufferStart <= gapStart <= gapEnd <= bufferEnd < memory.Length
    }

    /** The current line is the one the cursor is in. */
    ghost predicate Valid()
      reads this`gapStart, this`gapEnd, this`currentLine, memory
    {
      Bounds() && currentLine == bufferStart + LineStart(Document(), Cursor())
    }

    constructor (m: array<Byte>, start: nat, end: nat)
      requires start <= end < m.Length
      ensures Valid() && Document() == [] && memory == m && bufferStart == start && bufferEnd == end
    {
      memory, bufferStart, bufferEnd := m, start, end;
      gapStart, gapEnd, currentLine := start, end, start;
    }

    /** new_file */
    method NewFile()
      requires bufferStart <= bufferEnd < memory.Length
      modifies this
      ensures Valid() && Document() == [] && gapStart == bufferStart && gapEnd == bufferEnd
    {
      gapStart, gapEnd, currentLine := bufferStart, bufferEnd, bufferStart;
    }

    // ---------- one byte across the gap ----------

    lemma ByteBehind()
      requires Bounds() && gapEnd < bufferEnd
      ensures memory[gapEnd] == Document()[Cursor()]
    {
    }

    lemma ByteBefore()
      requires Bounds() && bufferStart < gapStart
      ensures memory[gapStart - 1] == Document()[Cursor() - 1]
    {
    }

    /** `*gap_start++ = *gap_end++` */
    method StepRight()
      requires Bounds() && gapEnd < bufferEnd
      modifies this`gapStart, this`gapEnd, memory
      ensures Bounds() && Document() == old(Document()) && Cursor() == old(Cursor()) + 1
    {
      ghost var before, behind := memory[bufferStart..gapStart], memory[gapEnd..bufferEnd];
      memory[gapStart] := memory[gapEnd];
      gapStart := gapStart + 1;
      gapEnd := gapEnd + 1;
      assert memory[bufferStart..gapStart] == before + [behind[0]];
      assert memory[gapEnd..bufferEnd] == behind[1..];
    }

    /** `*--gap_end = *--gap_start` */
    method StepLeft()
      requires Bounds() && bufferStart < gapStart
      modifies this`gapStart, this`gapEnd, memory
      ensures Bounds() && Document() == old(Document()) && Cursor() == old(Cursor()) - 1
    {
      ghost var before, behind := memory[bufferStart..gapStart], memory[gapEnd..bufferEnd];
      gapStart := gapStart - 1;
      gapEnd := gapEnd - 1;
      memory[gapEnd] := memory[gapStart];
      assert memory[bufferStart..gapStart] == before[..|before| - 1];
      assert memory[gapEnd..bufferEnd] == [before[|before| - 1]] + behind;
    }

    // ---------- movement ----------

    method CursorHome()
      requires Valid()
      modifies this`gapStart, this`gapEnd, memory
      ensures Valid() && Document() == old(Document()) && Cursor() == LineStart(Document(), old(Cursor()))
    {
      ghost var doc, c := Document(), Cursor();
      hide LineStart, Document;
      while gapStart != currentLine
        invariant Bounds() && Document() == doc && LineStart(doc, c) <= Cursor() <= c
        invariant currentLine == bufferStart + LineStart(doc, c)
      {
        StepLeft();
      }
      StartIsUnique(doc, LineStart(doc, c), LineStart(doc, c));
    }

    method CursorEnd()
      requires Valid()
      modifies this`gapStart, this`gapEnd, memory
      ensures Valid() && Document() == old(Document()) && Cursor() == LineEnd(Document(), old(Cursor()))
    {
      ghost var doc, c := Document(), Cursor();
      hide LineStart, LineEnd, Document;
      while true
        invariant Bounds() && Document() == doc && c <= Cursor() <= LineEnd(doc, c)
        decreases bufferEnd - gapEnd
      {
        if gapEnd == bufferEnd {
          break;
        }
        ByteBehind();
        if memory[gapEnd] == 10 {
          break;
        }
        StepRight();
      }
      StartIsUnique(doc, Cursor(), LineStart(doc, c));
    }

    method CursorLeft(count: Word)
      requires Valid()
      modifies this`gapStart, this`gapEnd, memory
      ensures Valid() && Document() == old(Document()) && Cursor() == Left(Document(), old(Cursor()), count)
    {
      ghost var doc, c := Document(), Cursor();
      ghost var start := LineStart(doc, c);
      hide LineStart, Document;
      var n: nat := count;
      while n > 0
        invariant Bounds() && Document() == doc && n <= count && Cursor() == Max(start, c - (count - n))
      {
        n := n - 1;
        if gapStart != bufferStart {
          ByteBefore();
          if memory[gapStart - 1] != 10 {
            StepLeft();
          }
        }
      }
      StartIsUnique(doc, Cursor(), start);
    }

    method CursorRight(count: Word)
      requires Valid()
      modifies this`gapStart, this`gapEnd, memory
      ensures Valid() && Document() == old(Document()) && Cursor() == Right(Document(), old(Cursor()), count)
    {
      ghost var doc, c := Document(), Cursor();
      ghost var start, end := LineStart(doc, c), LineEnd(doc, c);
      hide LineStart, LineEnd, Document;
      var n: nat := count;
      while n > 0
        invariant Bounds() && Document() == doc && n <= count && Cursor() == Min(end, c + (count - n))
      {
        n := n - 1;
        if gapEnd != bufferEnd {
          ByteBehind();
          if memory[gapEnd] != 10 {
            StepRight();
          }
        }
      }
      StartIsUnique(doc, Cursor(), start);
    }

    method CursorDown(count: Word)
      requires Valid() && bufferEnd - bufferStart < 0x1_0000
      modifies this`gapStart, this`gapEnd, this`currentLine, memory
      ensures Valid() && Document() == old(Document()) && Cursor() == DownBy(Document(), old(Cursor()), count)
    {
      ghost var doc, c := Document(), Cursor();
      var n: nat := count;
      hide LineStart, LineEnd, Document, DownBy, Down;
      while n > 0
        invariant Valid() && Document() == doc && DownBy(doc, Cursor(), n) == DownBy(doc, c, count)
      {
        n := n - 1;
        DownByNext(doc, Cursor(), n + 1);
        var stop := DownOnce();
        if stop {
          return;
        }
      }
      NoneDown(doc, Cursor());
    }

    method DownOnce() returns (stop: bool)
      requires Valid() && bufferEnd - bufferStart < 0x1_0000
      modifies this`gapStart, this`gapEnd, this`currentLine, memory
      ensures Valid() && Document() == old(Document()) && Cursor() == Down(Document(), old(Cursor()))
      ensures stop <==> LineEnd(Document(), old(Cursor())) == |Document()|
    {
      hide LineStart, LineEnd, Document;
      var offset: Word := gapStart - currentLine;
      CursorEnd();
      if gapEnd == bufferEnd {
        return true;
      }
      StepRight();
      StartIsUnique(Document(), Cursor(), Cursor());
      currentLine := gapStart;
      CursorRight(offset);
      stop := false;
    }

    method CursorUp(count: Word)
      requires Valid() && bufferEnd - bufferStart < 0x1_0000
      modifies this`gapStart, this`gapEnd, this`currentLine, memory
      ensures Valid() && Document() == old(Document()) && Cursor() == UpBy(Document(), old(Cursor()), count)
    {
      ghost var doc, c := Document(), Cursor();
      var n: nat := count;
      hide LineStart, LineEnd, Document, UpBy, Up;
      while n > 0
        invariant Valid() && Document() == doc && UpBy(doc, Cursor(), n) == UpBy(doc, c, count)
      {
        n := n - 1;
        UpByNext(doc, Cursor(), n + 1);
        var stop := UpOnce();
        if stop {
          return;
        }
      }
      NoneUp(doc, Cursor());
    }

    method UpOnce() returns (stop: bool)
      requires Valid() && bufferEnd - bufferStart < 0x1_0000
      modifies this`gapStart, this`gapEnd, this`currentLine, memory
      ensures Valid() && Document() == old(Document()) && Cursor() == Up(Document(), old(Cursor()))
      ensures stop <==> LineStart(Document(), old(Cursor())) == 0
    {
      hide LineStart, LineEnd, Document, Right, Up;
      ghost var doc, c := Document(), Cursor();
      var offset: Word := gapStart - currentLine;
      UpIs(doc, c);
      CursorHome();
      if gapStart == bufferStart {
        return true;
      }
      BackOneLine();
      currentLine := gapStart;
      CursorRight(offset);
      stop := false;
    }

    /** From the start of a line to that of the one before. */
    method BackOneLine()
      requires Bounds() && bufferStart < gapStart && Document()[Cursor() - 1] == NEWLINE
      modifies this`gapStart, this`gapEnd, memory
      ensures Bounds() && Document() == old(Document()) && Cursor() == LineStart(Document(), old(Cursor()) - 1)
      ensures Cursor() == LineStart(Document(), Cursor())
    {
      hide LineStart, Document;
      ghost var doc, s := Document(), Cursor();
      while true
        invariant Bounds() && Document() == doc && LineStart(doc, s - 1) < Cursor() <= s
        decreases gapStart
      {
        StepLeft();
        if gapStart == bufferStart {
          break;
        }
        ByteBefore();
        if memory[gapStart - 1] == 10 {
          break;
        }
      }
      StartIsUnique(doc, s - 1, Cursor());
      StartIsUnique(doc, Cursor(), Cursor());
    }

    /** goto_line; lines count from 1, and 0 is taken for 65536. */
    method GotoLine(lineno: Word)
      requires Valid()
      modifies this`gapStart, this`gapEnd, this`currentLine, memory
      ensures Valid() && Document() == old(Document()) && Cursor() == Forward(Document(), 0, ToWord(lineno as int - 1))
    {
      hide LineStart, LineEnd, Document;
      ghost var doc := Document();
      GotoFirst();
      ghost var goal := Forward(doc, 0, ToWord(lineno as int - 1));
      if gapEnd == bufferEnd {
        return;
      }
      var n := ToWord(lineno as int - 1);
      while n != 0
        invariant Valid() && Document() == doc && Forward(doc, Cursor(), n) == goal && gapEnd < bufferEnd
        decreases n
      {
        OverNewline();
        if gapEnd == bufferEnd {
          return;
        }
        n := n - 1;
      }
    }

    /** To the start of the next line, or the end of the text. */
    method OverNewline()
      requires Valid() && gapEnd < bufferEnd
      modifies this`gapStart, this`gapEnd, this`currentLine, memory
      ensures Valid() && Document() == old(Document())
      ensures var e := LineEnd(Document(), old(Cursor()));
              Cursor() == if e == |Document()| then e else e + 1
    {
      hide LineStart, LineEnd, Document;
      ghost var doc, c := Document(), Cursor();
      ghost var start := LineStart(doc, c);
      while gapEnd != bufferEnd
        invariant Bounds() && Document() == doc && c <= Cursor() <= LineEnd(doc, c)
        invariant currentLine == bufferStart + start
        decreases bufferEnd - gapEnd
      {
        ByteBehind();
        var a := memory[gapEnd];
        StepRight();
        if a == 10 {
          currentLine := gapStart;
          EndIsUnique(doc, c, Cursor() - 1);
          StartIsUnique(doc, Cursor(), Cursor());
          return;
        }
      }
      StartIsUnique(doc, Cursor(), start);
    }

    /** cursor_wordright; the byte behind the buffer is looked at, but makes no difference. */
    method CursorWordRight(count: Word)
      requires Valid()
      modifies this`gapStart, this`gapEnd, this`currentLine, memory
      ensures Valid() && Document() == old(Document()) && Cursor() == WordRightBy(Document(), old(Cursor()), count)
    {
      hide LineStart, LineEnd, Document;
      ghost var doc, c := Document(), Cursor();
      var n: nat := count;
      while n > 0
        invariant Valid() && Document() == doc && WordRightBy(doc, Cursor(), n) == WordRightBy(doc, c, count)
      {
        n := n - 1;
        OneWordRight();
      }
    }

    method OneWordRight()
      requires Valid()
      modifies this`gapStart, this`gapEnd, this`currentLine, memory
      ensures Valid() && Document() == old(Document()) && Cursor() == WordRight(Document(), old(Cursor()))
    {
      hide LineStart, LineEnd, Boundary, Document, WordRight;
      ghost var doc, c := Document(), Cursor();
      while gapEnd != bufferEnd
        invariant Valid() && Document() == doc && WordRight(doc, Cursor()) == WordRight(doc, c)
        decreases bufferEnd - gapEnd
      {
        WordRightNext(doc, Cursor());
        var left, right := OverByte();
        if Boundary(left, right) {
          return;
        }
      }
      WordRightEnds(doc);
    }

    /** One byte to the right, and the byte behind it. */
    method OverByte() returns (left: Byte, right: Byte)
      requires Valid() && gapEnd < bufferEnd
      modifies this`gapStart, this`gapEnd, this`currentLine, memory
      ensures Valid() && Document() == old(Document()) && Cursor() == old(Cursor()) + 1
      ensures left == Document()[old(Cursor())]
      ensures gapEnd < bufferEnd ==> right == Document()[Cursor()]
    {
      hide LineStart, Document;
      ghost var doc, k := Document(), Cursor();
      ByteBehind();
      left := memory[gapEnd];
      StepRight();
      right := memory[gapEnd];
      if gapEnd < bufferEnd {
        ByteBehind();
      }
      if left == 10 {
        StartIsUnique(doc, k + 1, k + 1);
        currentLine := gapStart;
      } else {
        StartIsUnique(doc, k + 1, LineStart(doc, k));
      }
    }

    // ---------- saving ----------

    /** The byte of the text that comes next, and where reading is then. */
    ghost predicate Reading(inp: int, p: nat)
      reads this`gapStart, this`gapEnd
      requires Bounds()
    {
      p <= Cursor() + bufferEnd - gapEnd &&
      ((inp == bufferStart + p && p <= Cursor()) || (inp == gapEnd + p - Cursor() && p >= Cursor()))
    }

    /** Where reading is between bytes. */
    ghost predicate Between(inp: int, p: nat, q: nat)
      reads this`gapStart, this`gapEnd, memory
      requires Bounds()
    {
      && (q <= |Crlf(Document())| ==> Reading(inp, p) && (p == |Document()| ==> (inp != bufferEnd <==> Behind())))
      && (q > |Crlf(Document())| ==> inp == bufferEnd)
    }

    /** The gap is behind the text, with room in it. */
    ghost predicate Behind()
      reads this`gapStart, this`gapEnd
    {
      gapEnd == bufferEnd && gapStart != bufferEnd
    }

    method Fetch(inp: nat, ghost p: nat, ghost q: nat) returns (inp': nat, c: Byte, pushed: Byte)
      requires Bounds() && Between(inp, p, q) && Producing(Document(), p, 0, q)
      ensures p < |Document()| ==>
                && Between(inp', p + 1, q + 1) && Producing(Document(), p + 1, pushed, q + 1)
                && q < |Crlf(Document())| && c == Crlf(Document())[q]
      ensures p == |Document()| ==>
                && Between(inp', p, q + 1) && Producing(Document(), p, pushed, q + 1)
                && q >= |Crlf(Document())| && c == END
      ensures pushed == 0 || pushed == NEWLINE
    {
      ghost var doc := Document();
      if p < |doc| {
        ByteComes(doc, p, q);
        ByteAt(inp, p);
      } else {
        EndComes(doc, q);
      }
      hide Producing, Document, Crlf;
      inp' := inp;
      if inp' == gapStart {
        inp' := gapEnd;
      }
      if inp' != bufferEnd {
        c := memory[inp'];
        inp' := inp' + 1;
      } else {
        c := 26;
      }
      pushed := 0;
      if c == 10 {
        pushed := 10;
        c := 13;
      }
    }

    lemma ByteAt(inp: nat, p: nat)
      requires Bounds() && p < |Document()| && Reading(inp, p)
      ensures var i := if inp == gapStart then gapEnd else inp;
              i < bufferEnd && memory[i] == Document()[p] && Reading(i + 1, p + 1)
    {
    }

    /** The loop goes on just as long as there is something to write. */
    lemma MoreToCome(inp: nat, pushed: Byte, outp: nat, p: nat, q: nat)
      requires Bounds() && OnTrack(inp, pushed, outp, p, q)
      requires q <= |Saved(Document(), Behind())|
      ensures inp != bufferEnd || outp != 0 || pushed != 0 <==> q < |Saved(Document(), Behind())|
    {
      var doc := Document();
      FillsUp(|Crlf(doc)|, Behind(), if q < |Crlf(doc)| then |Crlf(doc)| else q);
      if q < |Crlf(doc)| {
        if pushed == 0 && p == |doc| {
          EndComes(doc, q);
        }
        if p < |doc| {
          ByteAt(inp, p);
        }
      } else if q == |Crlf(doc)| {
        if pushed != 0 {
          PushedComes(doc, p, pushed, q);
        } else if p < |doc| {
          ByteComes(doc, p, q);
        }
      }
    }

    method NextByte(inp: nat, pushed: Byte, ghost outp: nat, ghost p: nat, ghost q: nat)
        returns (inp': nat, pushed': Byte, c: Byte, ghost p': nat)
      requires Bounds() && OnTrack(inp, pushed, outp, p, q)
      requires q < |Saved(Document(), Behind())|
      ensures OnTrack(inp', pushed', if outp == 127 then 0 else outp + 1, p', q + 1)
      ensures c == Saved(Document(), Behind())[q]
    {
      hide Document, Crlf, Producing, Saved, Between;
      SavedBytes(Document(), Behind(), q);
      NextOffset(q);
      if pushed != 0 {
        PushedComes(Document(), p, pushed, q);
        StillBetween(inp, p, q);
        c := pushed;
        inp', pushed', p' := inp, 0, p;
      } else {
        inp', c, pushed' := Fetch(inp, p, q);
        ProducingWithin(Document(), p, 0, q);
        p' := if p < |Document()| then p + 1 else p;
      }
    }

    lemma StillBetween(inp: nat, p: nat, q: nat)
      requires Bounds() && Between(inp, p, q) && q < |Crlf(Document())|
      ensures Between(inp, p, q + 1)
    {
    }

    lemma StartsBetween()
      requires Bounds()
      ensures Between(bufferStart, 0, 0)
    {
    }

    /** really_save_file, for a host that stores every record. */
    method SaveFile(dma: array<Byte>) returns (file: seq<Byte>)
      requires Bounds() && dma.Length == 128 && dma != memory
      modifies dma
      ensures file == Saved(Document(), Behind()) && Document() == old(Document())
    {
      ghost var all := Saved(Document(), Behind());
      file := [];
      var inp := bufferStart;
      var pushed: Byte := 0;
      var outp: nat := 0;
      ghost var p, q := 0, 0;
      StartsOnTrack();
      hide Document, Saved, Behind, OnTrack, Crlf, Filling;
      while inp != bufferEnd || outp != 0 || pushed != 0
        invariant outp < 128 && OnTrack(inp, pushed, outp, p, q)
        invariant Document() == old(Document()) && all == Saved(Document(), Behind())
        invariant q <= |all| && file + dma[..outp] == all[..q]
        invariant inp != bufferEnd || outp != 0 || pushed != 0 <==> q < |all|
        decreases |all| - q
      {
        file, inp, pushed, outp, p := SaveByte(file, dma, inp, pushed, outp, p, q);
        q := q + 1;
        MoreToCome(inp, pushed, outp, p, q);
      }
      assert dma[..outp] == [] && all[..q] == all;
    }

    method SaveByte(file: seq<Byte>, dma: array<Byte>, inp: nat, pushed: Byte, outp: nat, ghost p: nat, ghost q: nat)
        returns (file': seq<Byte>, inp': nat, pushed': Byte, outp': nat, ghost p': nat)
      requires Bounds() && dma.Length == 128 && dma != memory && outp < 128 && OnTrack(inp, pushed, outp, p, q)
      requires q < |Saved(Document(), Behind())| && file + dma[..outp] == Saved(Document(), Behind())[..q]
      modifies dma
      ensures Document() == old(Document()) && outp' < 128 && OnTrack(inp', pushed', outp', p', q + 1)
      ensures file' + dma[..outp'] == Saved(Document(), Behind())[..q + 1]
    {
      hide Saved, Behind, OnTrack;
      ghost var all := Saved(Document(), Behind());
      var c: Byte;
      inp', pushed', c, p' := NextByte(inp, pushed, outp, p, q);
      assert all[..q + 1] == all[..q] + [c];
      ghost var m := memory[..];
      file', outp' := Store(file, dma, outp, c);
      assert memory[..] == m;
    }

    ghost predicate OnTrack(inp: nat, pushed: Byte, outp: nat, p: nat, q: nat)
      reads this`gapStart, this`gapEnd, memory
      requires Bounds()
    {
      Between(inp, p, q) && Producing(Document(), p, pushed, q) && (pushed == 0 || pushed == NEWLINE) && outp == q % 128
    }

    lemma StartsOnTrack()
      requires Bounds()
      ensures OnTrack(bufferStart, 0, 0, 0, 0)
      ensures bufferStart != bufferEnd <==> 0 < |Saved(Document(), Behind())|
    {
      ProducingStarts(Document());
      StartsBetween();
      MoreToCome(bufferStart, 0, 0, 0, 0);
    }

    // ---------- loading ----------

    /** insert_file, for a file of whole records: what is read goes before the cursor until there is no room. */
    method InsertFile(file: seq<Byte>) returns (full: bool)
      requires Bounds() && |file| % 128 == 0
      modifies this`gapStart, memory
      ensures Bounds() && full == (|Read(file)| > old(gapEnd - gapStart))
      ensures var taken := if full then Read(file)[..old(gapEnd - gapStart)] else Read(file);
              Document() == old(Document())[..old(Cursor())] + taken + old(Document())[old(Cursor())..]
    {
      ghost var start, before, behind := gapStart, memory[bufferStart..gapStart], memory[gapEnd..bufferEnd];
      assert Inserting(before, behind, start, []);
      hide Document, Inserting, Read;
      ghost var taken;
      full, taken := TakeIn(file, before, behind, start);
      Together(before, taken, behind, start);
    }

    method TakeIn(file: seq<Byte>, ghost before: seq<Byte>, ghost behind: seq<Byte>, ghost start: nat)
        returns (full: bool, ghost taken: seq<Byte>)
      requires Bounds() && Inserting(before, behind, start, [])
      modifies this`gapStart, memory
      ensures Bounds() && Inserting(before, behind, start, taken)
      ensures full == (|Read(file)| > old(gapEnd - gapStart))
      ensures taken == if full then Read(file)[..old(gapEnd - gapStart)] else Read(file)
    {
      ghost var all, room := Read(file), gapEnd - gapStart;
      hide Inserting, Read;
      taken := [];
      assert file[0..] == file;
      var i := 0;
      while i < |file|
        invariant 0 <= i <= |file| && Bounds() && |taken| + gapEnd - gapStart == room
        invariant Inserting(before, behind, start, taken) && taken + Read(file[i..]) == all
        decreases |file| - i
      {
        ReadNext(file, i);
        var c := file[i];
        ghost var rest := Read(file[i + 1..]);
        i := i + 1;
        if c == 26 {
          return false, taken;
        }
        if c != 13 {
          assert all == taken + [c] + rest;
          if gapStart == gapEnd {
            assert all[..room] == taken;
            return true, taken;
          }
          Put(c, before, behind, start, taken);
          taken := taken + [c];
        }
      }
      NothingRead(file);
      full := false;
    }

    /** The text taken in so far lies between what was before and behind the gap. */
    ghost predicate Inserting(before: seq<Byte>, behind: seq<Byte>, start: nat, taken: seq<Byte>)
      reads this`gapStart, this`gapEnd, memory
      requires Bounds()
    {
      && bufferStart <= start <= gapStart && memory[bufferStart..start] == before
      && memory[start..gapStart] == taken && memory[gapEnd..bufferEnd] == behind
    }

    method Put(c: Byte, ghost before: seq<Byte>, ghost behind: seq<Byte>, ghost start: nat, ghost taken: seq<Byte>)
      requires Bounds() && gapStart < gapEnd && Inserting(before, behind, start, taken)
      modifies this`gapStart, memory
      ensures Bounds() && gapStart == old(gapStart) + 1 && Inserting(before, behind, start, taken + [c])
    {
      memory[gapStart] := c;
      gapStart := gapStart + 1;
      assert memory[start..gapStart] == taken + [c];
    }

    lemma Together(before: seq<Byte>, taken: seq<Byte>, behind: seq<Byte>, start: nat)
      requires Bounds() && Inserting(before, behind, start, taken)
      ensures Document() == before + taken + behind
    {
      assert memory[bufferStart..gapStart] == memory[bufferStart..start] + memory[start..gapStart];
    }

    /** load_file, for a file of whole records. */
    method LoadFile(file: seq<Byte>) returns (full: bool)
      requires bufferStart <= bufferEnd < memory.Length && |file| % 128 == 0
      modifies this, memory
      ensures Valid() && Cursor() == 0 && full == (|Read(file)| > bufferEnd - bufferStart)
      ensures Document() == if full then Read(file)[..bufferEnd - bufferStart] else Read(file)
    {
      NewFile();
      full := InsertFile(file);
      hide Read;
      GotoFirst();
    }

    /** A document saved, wherever its gap is, and loaded again into the same buffer. */
    method SaveThenLoad(dma: array<Byte>) returns (full: bool)
      requires Bounds() && dma.Length == 128 && dma != memory
      modifies this, memory, dma
      ensures Valid() && Cursor() == 0 && !full
      ensures Document() == old(Document()) <==> Plain(old(Document()))
    {
      ghost var doc, behind := Document(), Behind();
      ReadCrlf(doc, Filling(|Crlf(doc)|, behind));
      SavedReadsBackExactly(doc, behind);
      assert |doc| <= bufferEnd - bufferStart;
      hide Document, Read, Crlf, Filling, Plain, Valid, Cursor, Saved;
      var file := SaveFile(dma);
      full := LoadFile(file);
    }

    /** How goto_line begins, and all of it for line 1, whatever line was the current one. */
    method GotoFirst()
      requires Bounds()
      modifies this`gapStart, this`gapEnd, this`currentLine, memory
      ensures Valid() && Document() == old(Document()) && Cursor() == 0
    {
      hide Document, LineStart;
      ghost var doc := Document();
      while gapStart != bufferStart
        invariant Bounds() && Document() == doc
      {
        StepLeft();
      }
      currentLine := bufferStart;
      StartIsUnique(doc, 0, 0);
    }
  }

  lemma ReadNext(file: seq<Byte>, i: nat)
    requires i < |file|
    ensures Read(file[i..]) == if file[i] == END then []
                               else (if file[i] == RETURN then [] else [file[i]]) + Read(file[i + 1..])
  {
    assert file[i..] == [file[i]] + file[i + 1..];
    ReadFirst(file[i], file[i + 1..]);
  }

  lemma NothingRead(file: seq<Byte>)
    ensures Read(file[|file|..]) == []
  {
  }

  lemma NextOffset(q: nat)
    ensures (q + 1) % 128 == if q % 128 == 127 then 0 else q % 128 + 1
  {
  }

  /** A byte goes into the record buffer, and a full record into the file. */
  method Store(file: seq<Byte>, dma: array<Byte>, outp: nat, c: Byte) returns (file': seq<Byte>, outp': nat)
    requires dma.Length == 128 && outp < 128
    modifies dma
    ensures outp' == if outp == 127 then 0 else outp + 1
    ensures file' + dma[..outp'] == old(file + dma[..outp]) + [c]
  {
    ghost var was := dma[..outp];
    dma[outp] := c;
    outp' := outp + 1;
    file' := file;
    assert dma[..outp'] == was + [c];
    if outp' == 128 {
      assert dma[..128] == dma[..];
      file' := file + dma[..];
      outp' := 0;
    }
  }
}
