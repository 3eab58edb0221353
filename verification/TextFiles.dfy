/** Documents as the records of a text file: CR LF at the end of a line, ^Z at the end (apps/qe.c:398-423, 456-489). */
module TextFiles {
  import opened Bytes

  const NEWLINE: Byte := 10
  const RETURN: Byte := 13
  const END: Byte := 26       // ^Z

  /** Every newline with a return before it. */
  function Crlf(doc: seq<Byte>): seq<Byte>
  {
    if doc == [] then [] else (if doc[0] == NEWLINE then [RETURN, NEWLINE] else [doc[0]]) + Crlf(doc[1..])
  }

  function Ends(n: nat): (r: seq<Byte>)
    ensures |r| == n
  {
    seq(n, _ => END)
  }

  /** What is read from a file: up to the first ^Z, without returns. */
  function Read(file: seq<Byte>): seq<Byte>
  {
    if file == [] || file[0] == END then []
    else (if file[0] == RETURN then [] else [file[0]]) + Read(file[1..])
  }

  /** ^Zs that fill up the last record; a whole record of them if the gap is behind the document. */
  function Filling(n: nat, gapBehind: bool): nat
  {
    if n % 128 != 0 then 128 - n % 128 else if gapBehind then 128 else 0
  }

  function Saved(doc: seq<Byte>, gapBehind: bool): seq<Byte>
  {
    Crlf(doc) + Ends(Filling(|Crlf(doc)|, gapBehind))
  }

  predicate Plain(doc: seq<Byte>) { RETURN !in doc && END !in doc }

  lemma {:induction false} ReadCrlf(doc: seq<Byte>, n: nat)
    ensures |Read(Crlf(doc) + Ends(n))| <= |doc|
    ensures |Read(Crlf(doc) + Ends(n))| == |doc| <==> Plain(doc)
    ensures Plain(doc) ==> Read(Crlf(doc) + Ends(n)) == doc
  {
    if doc == [] {
      assert Crlf(doc) + Ends(n) == Ends(n);
      ReadEnds(n);
    } else {
      ReadCrlf(doc[1..], n);
      var rest := Crlf(doc[1..]) + Ends(n);
      assert doc == [doc[0]] + doc[1..];
      assert Plain(doc) <==> doc[0] != RETURN && doc[0] != END && Plain(doc[1..]);
      hide Crlf, Read;
      CrlfFirst(doc);
      if doc[0] == NEWLINE {
        assert Crlf(doc) + Ends(n) == [RETURN] + ([NEWLINE] + rest);
        ReadFirst(RETURN, [NEWLINE] + rest);
        ReadFirst(NEWLINE, rest);
      } else {
        assert Crlf(doc) + Ends(n) == [doc[0]] + rest;
        ReadFirst(doc[0], rest);
      }
    }
  }

  lemma ReadEnds(n: nat)
    ensures Read(Ends(n)) == []
  {
  }

  lemma CrlfFirst(doc: seq<Byte>)
    requires doc != []
    ensures Crlf(doc) == (if doc[0] == NEWLINE then [RETURN, NEWLINE] else [doc[0]]) + Crlf(doc[1..])
  {
  }

  lemma ReadFirst(c: Byte, rest: seq<Byte>)
    ensures Read([c] + rest) == if c == END then [] else (if c == RETURN then [] else [c]) + Read(rest)
  {
    assert ([c] + rest)[1..] == rest;
  }

  /** A document comes back from a file exactly if it has no returns and no ^Z in it. */
  lemma SavedReadsBackExactly(doc: seq<Byte>, gapBehind: bool)
    ensures Read(Saved(doc, gapBehind)) == doc <==> Plain(doc)
    ensures |Saved(doc, gapBehind)| % 128 == 0
  {
    ReadCrlf(doc, Filling(|Crlf(doc)|, gapBehind));
  }

  function Count(s: seq<Byte>, c: Byte): nat
  {
    if s == [] then 0 else (if s[0] == c then 1 else 0) + Count(s[1..], c)
  }

  ghost predicate ReturnsBefore(s: seq<Byte>) { forall i :: 0 <= i < |s| && s[i] == 10 ==> i > 0 && s[i - 1] == 13 }

  ghost predicate NewlinesBehind(s: seq<Byte>) { forall i :: 0 <= i < |s| && s[i] == 13 ==> i + 1 < |s| && s[i + 1] == 10 }

  lemma {:induction false} CrlfBytes(doc: seq<Byte>)
    ensures |Crlf(doc)| == |doc| + Count(doc, 10)
    ensures ReturnsBefore(Crlf(doc)) && (13 !in doc ==> NewlinesBehind(Crlf(doc)))
  {
    if doc != [] {
      CrlfFirst(doc);
      CrlfBytes(doc[1..]);
      assert doc == [doc[0]] + doc[1..];
      hide Crlf, ReturnsBefore, NewlinesBehind;
      OneLine(doc[0], Crlf(doc[1..]));
    }
  }

  lemma OneLine(c: Byte, rest: seq<Byte>)
    requires ReturnsBefore(rest)
    ensures var s := (if c == NEWLINE then [RETURN, NEWLINE] else [c]) + rest;
            && |s| == |rest| + (if c == 10 then 2 else 1)
            && ReturnsBefore(s) && (c != 13 && NewlinesBehind(rest) ==> NewlinesBehind(s))
  {
  }

  /**
   What a text file looks like: lines end in 13, 10, and the text in 26s, up to the end of a record or,
   if the gap is behind the text, to that of another one.
   */
  lemma SavedLayout(doc: seq<Byte>, gapBehind: bool)
    ensures var s, n := Saved(doc, gapBehind), |doc| + Count(doc, 10);
            && ReturnsBefore(s) && n <= |s| && (13 !in doc ==> NewlinesBehind(s[..n]))
            && (forall i :: n <= i < |s| ==> s[i] == 26)
            && |s| % 128 == 0 && (if gapBehind then n < |s| <= n + 128 else n <= |s| < n + 128)
            && ((forall i :: 0 <= i < |doc| ==> doc[i] != 10) ==> s[..n] == doc)
  {
    CrlfBytes(doc);
    if forall i :: 0 <= i < |doc| ==> doc[i] != 10 {
      OneLineOnly(doc);
    }
    var text, filling := Crlf(doc), Filling(|Crlf(doc)|, gapBehind);
    FillsRecord(|text|, gapBehind);
    hide Crlf, Count, ReturnsBefore, NewlinesBehind, Filling;
    Filled(text, filling);
  }

  lemma FillsRecord(n: nat, gapBehind: bool)
    ensures var k := Filling(n, gapBehind);
            (n + k) % 128 == 0 && if gapBehind then 0 < k <= 128 else k < 128
  {
  }

  lemma Filled(text: seq<Byte>, filling: nat)
    requires ReturnsBefore(text)
    ensures var s := text + Ends(filling);
            && |s| == |text| + filling && s[..|text|] == text && ReturnsBefore(s)
            && forall i :: |text| <= i < |s| ==> s[i] == 26
  {
    var s := text + Ends(filling);
    assert s[..|text|] == text;
    forall i | 0 <= i < |s| && s[i] == 10
      ensures i > 0 && s[i - 1] == 13
    {
      assert i < |text| && text[i] == s[i] && (i > 0 ==> text[i - 1] == s[i - 1]);
    }
  }

  lemma {:induction false} OneLineOnly(doc: seq<Byte>)
    requires forall i :: 0 <= i < |doc| ==> doc[i] != 10
    ensures Crlf(doc) == doc
  {
    if doc != [] {
      OneLineOnly(doc[1..]);
      CrlfFirst(doc);
    }
  }

  /** And what is read of one: up to the first 26, everything but the 13s. */
  lemma {:induction false} ReadsEach(a: seq<Byte>, c: Byte, b: seq<Byte>)
    requires 26 !in a
    ensures Read(a + [c] + b) == if c == 26 then Read(a) else Read(a) + (if c == 13 then [] else [c]) + Read(b)
  {
    if a == [] {
      assert a + [c] + b == [c] + b;
      ReadFirst(c, b);
    } else {
      assert a + [c] + b == [a[0]] + (a[1..] + [c] + b) && a == [a[0]] + a[1..];
      ReadFirst(a[0], a[1..] + [c] + b);
      ReadFirst(a[0], a[1..]);
      ReadsEach(a[1..], c, b);
      hide Read;
    }
  }

  // ---------- the file byte by byte ----------

  function Pending(pushed: Byte): seq<Byte> { if pushed != 0 then [NEWLINE] else [] }

  /** With q bytes written, the text from p on is still to come, after a newline if one is pushed. */
  ghost predicate Producing(doc: seq<Byte>, p: nat, pushed: Byte, q: nat)
  {
    && p <= |doc|
    && if q <= |Crlf(doc)| then Pending(pushed) + Crlf(doc[p..]) == Crlf(doc)[q..] else p == |doc| && pushed == 0
  }

  lemma ProducingWithin(doc: seq<Byte>, p: nat, pushed: Byte, q: nat)
    requires Producing(doc, p, pushed, q)
    ensures p <= |doc|
  {
  }

  lemma ProducingStarts(doc: seq<Byte>)
    ensures Producing(doc, 0, 0, 0)
  {
    assert doc[0..] == doc;
  }

  lemma PushedComes(doc: seq<Byte>, p: nat, pushed: Byte, q: nat)
    requires Producing(doc, p, pushed, q) && pushed != 0
    ensures q < |Crlf(doc)| && Crlf(doc)[q] == NEWLINE && Producing(doc, p, 0, q + 1)
  {
    var text, rest := Crlf(doc), Crlf(doc[p..]);
    assert Pending(pushed) + rest == text[q..];
    hide Crlf;
    assert text[q..][0] == NEWLINE && text[q..][1..] == rest;
    assert text[q + 1..] == rest;
  }

  lemma ByteComes(doc: seq<Byte>, p: nat, q: nat)
    requires Producing(doc, p, 0, q) && p < |doc|
    ensures q < |Crlf(doc)| && Crlf(doc)[q] == if doc[p] == NEWLINE then RETURN else doc[p]
    ensures Producing(doc, p + 1, if doc[p] == NEWLINE then NEWLINE else 0, q + 1)
  {
    var text, rest := Crlf(doc), Crlf(doc[p + 1..]);
    assert doc[p..][1..] == doc[p + 1..];
    assert Crlf(doc[p..]) == (if doc[p] == NEWLINE then [RETURN, NEWLINE] else [doc[p]]) + rest;
    assert text[q..] == Crlf(doc[p..]);
    hide Crlf, Read, Saved;
    assert text[q + 1..] == text[q..][1..];
    if doc[p] == NEWLINE {
      assert ([RETURN, NEWLINE] + rest)[1..] == [NEWLINE] + rest;
    } else {
      assert ([doc[p]] + rest)[1..] == rest;
    }
  }

  lemma EndComes(doc: seq<Byte>, q: nat)
    requires Producing(doc, |doc|, 0, q)
    ensures q >= |Crlf(doc)| && Producing(doc, |doc|, 0, q + 1)
  {
    assert Crlf(doc[|doc|..]) == [];
  }

  lemma SavedBytes(doc: seq<Byte>, behind: bool, q: nat)
    requires q < |Saved(doc, behind)|
    ensures Saved(doc, behind)[q] == if q < |Crlf(doc)| then Crlf(doc)[q] else END
  {
  }

  /** When the last record is full. */
  lemma FillsUp(n: nat, behind: bool, q: nat)
    requires n <= q <= n + Filling(n, behind)
    ensures q == n + Filling(n, behind) <==> q % 128 == 0 && (q == n ==> !behind)
  {
  }
}
