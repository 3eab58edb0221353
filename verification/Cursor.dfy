/** Places in a text and the moves between them (apps/qe.c:565-679, 751-769). */
module Cursor {
  import opened Bytes
  import opened TextFiles

  /** The start of the line place c is in. */
  function LineStart(doc: seq<Byte>, c: nat): (r: nat)
    requires c <= |doc|
    ensures r <= c && (r == 0 || doc[r - 1] == NEWLINE)
    ensures forall k :: r <= k < c ==> doc[k] != NEWLINE
  {
    if c == 0 || doc[c - 1] == NEWLINE then c else LineStart(doc, c - 1)
  }

  /** The place of the newline that ends it, or the end of the text. */
  function LineEnd(doc: seq<Byte>, c: nat): (r: nat)
    requires c <= |doc|
    ensures c <= r <= |doc| && (r == |doc| || doc[r] == NEWLINE)
    ensures forall k :: c <= k < r ==> doc[k] != NEWLINE
    decreases |doc| - c
  {
    if c == |doc| || doc[c] == NEWLINE then c else LineEnd(doc, c + 1)
  }

  lemma StartIsUnique(doc: seq<Byte>, c: nat, r: nat)
    requires r <= c <= |doc| && (r == 0 || doc[r - 1] == NEWLINE) && forall k :: r <= k < c ==> doc[k] != NEWLINE
    ensures r == LineStart(doc, c)
  {
  }

  lemma EndIsUnique(doc: seq<Byte>, c: nat, r: nat)
    requires c <= r <= |doc| && (r == |doc| || doc[r] == NEWLINE) && forall k :: c <= k < r ==> doc[k] != NEWLINE
    ensures r == LineEnd(doc, c)
  {
  }

  function Min(a: int, b: int): int { if a < b then a else b }

  function Max(a: int, b: int): int { if a < b then b else a }

  function Left(doc: seq<Byte>, c: nat, count: nat): nat
    requires c <= |doc|
  {
    Max(LineStart(doc, c), c - count)
  }

  function Right(doc: seq<Byte>, c: nat, count: nat): (r: nat)
    requires c <= |doc|
    ensures c <= r <= |doc|
  {
    Min(LineEnd(doc, c), c + count)
  }

  /** The same column of the line after; from the last line, its end. */
  function Down(doc: seq<Byte>, c: nat): (r: nat)
    requires c <= |doc|
    ensures r <= |doc|
  {
    var e := LineEnd(doc, c);
    if e == |doc| then e else Right(doc, e + 1, c - LineStart(doc, c))
  }

  /** The same column of the line before; from the first line, its start. */
  function Up(doc: seq<Byte>, c: nat): (r: nat)
    requires c <= |doc|
    ensures r <= |doc|
  {
    var s := LineStart(doc, c);
    if s == 0 then 0 else Right(doc, LineStart(doc, s - 1), c - s)
  }

  lemma UpIs(doc: seq<Byte>, c: nat)
    requires c <= |doc|
    ensures var s := LineStart(doc, c);
            s <= c && Up(doc, c) == if s == 0 then 0 else Right(doc, LineStart(doc, s - 1), c - s)
  {
    hide LineStart, Right;
  }

  /** The calls for several lines stop where there is no other line. */
  function DownBy(doc: seq<Byte>, c: nat, count: nat): (r: nat)
    requires c <= |doc|
    ensures r <= |doc|
    decreases count
  {
    if count == 0 then c else if LineEnd(doc, c) == |doc| then |doc| else DownBy(doc, Down(doc, c), count - 1)
  }

  function UpBy(doc: seq<Byte>, c: nat, count: nat): (r: nat)
    requires c <= |doc|
    ensures r <= |doc|
    decreases count
  {
    if count == 0 then c else if LineStart(doc, c) == 0 then 0 else UpBy(doc, Up(doc, c), count - 1)
  }

  lemma NoneDown(doc: seq<Byte>, c: nat)
    requires c <= |doc|
    ensures DownBy(doc, c, 0) == c
  {
  }

  lemma NoneUp(doc: seq<Byte>, c: nat)
    requires c <= |doc|
    ensures UpBy(doc, c, 0) == c
  {
  }

  lemma DownByNext(doc: seq<Byte>, c: nat, count: nat)
    requires c <= |doc| && count > 0
    ensures DownBy(doc, c, count) == if LineEnd(doc, c) == |doc| then Down(doc, c) else DownBy(doc, Down(doc, c), count - 1)
  {
  }

  lemma UpByNext(doc: seq<Byte>, c: nat, count: nat)
    requires c <= |doc| && count > 0
    ensures UpBy(doc, c, count) == if LineStart(doc, c) == 0 then Up(doc, c) else UpBy(doc, Up(doc, c), count - 1)
  {
  }

  /** Up undoes down exactly if the next line reaches as far. */
  lemma UpUndoesDownExactly(doc: seq<Byte>, c: nat)
    requires c <= |doc| && LineEnd(doc, c) < |doc|
    ensures var e := LineEnd(doc, c);
            Up(doc, Down(doc, c)) == c <==> LineEnd(doc, e + 1) - (e + 1) >= c - LineStart(doc, c)
  {
    var e, s := LineEnd(doc, c), LineStart(doc, c);
    StartIsUnique(doc, e, s);
    EndIsUnique(doc, s, e);
    DownIsInNextLine(doc, c);
    hide LineStart, LineEnd;
  }

  lemma DownIsInNextLine(doc: seq<Byte>, c: nat)
    requires c <= |doc| && LineEnd(doc, c) < |doc|
    ensures LineStart(doc, Down(doc, c)) == LineEnd(doc, c) + 1
  {
    StartIsUnique(doc, Down(doc, c), LineEnd(doc, c) + 1);
  }

  /** One line down: in the same column, or at the end of a line that is shorter. */
  lemma DownLands(doc: seq<Byte>, c: nat)
    requires c <= |doc| && LineEnd(doc, c) < |doc|
    ensures var d := Down(doc, c);
            var column, column' := c - LineStart(doc, c), d - LineStart(doc, d);
            && Newlines(doc, d) == Newlines(doc, c) + 1
            && (column' == column || (column' < column && LineEnd(doc, d) == d))
  {
    var e, d := LineEnd(doc, c), Down(doc, c);
    DownIsInNextLine(doc, c);
    NoNewlines(doc, c, e);
    NoNewlines(doc, e + 1, d);
    EndIsUnique(doc, d, LineEnd(doc, e + 1));
    hide LineStart, LineEnd;
  }

  /** And one up. */
  lemma UpLands(doc: seq<Byte>, c: nat)
    requires c <= |doc| && 0 < LineStart(doc, c)
    ensures var d := Up(doc, c);
            var column, column' := c - LineStart(doc, c), d - LineStart(doc, d);
            && Newlines(doc, d) + 1 == Newlines(doc, c)
            && (column' == column || (column' < column && LineEnd(doc, d) == d))
  {
    var s, d := LineStart(doc, c), Up(doc, c);
    var t := LineStart(doc, s - 1);
    UpIs(doc, c);
    EndIsUnique(doc, t, s - 1);
    StartIsUnique(doc, d, t);
    EndIsUnique(doc, d, s - 1);
    NoNewlines(doc, s, c);
    NoNewlines(doc, d, s - 1);
    hide LineStart, LineEnd, Up;
  }

  /** For several lines: that many down if there are so many, else the end of the text. */
  lemma {:induction false} DownByCounts(doc: seq<Byte>, c: nat, count: nat)
    requires c <= |doc|
    ensures if Newlines(doc, |doc|) >= Newlines(doc, c) + count
            then Newlines(doc, DownBy(doc, c, count)) == Newlines(doc, c) + count
            else DownBy(doc, c, count) == |doc|
    decreases count
  {
    var e := LineEnd(doc, c);
    NoNewlines(doc, c, e);
    NewlinesGrow(doc, c, |doc|);
    if count > 0 && e < |doc| {
      DownLands(doc, c);
      DownByCounts(doc, Down(doc, c), count - 1);
    }
  }

  /** And up, or to the start of the text. */
  lemma {:induction false} UpByCounts(doc: seq<Byte>, c: nat, count: nat)
    requires c <= |doc|
    ensures if Newlines(doc, c) >= count
            then Newlines(doc, UpBy(doc, c, count)) == Newlines(doc, c) - count
            else UpBy(doc, c, count) == 0
    decreases count
  {
    var s := LineStart(doc, c);
    NoNewlines(doc, s, c);
    if count > 0 && s > 0 {
      UpLands(doc, c);
      UpByCounts(doc, Up(doc, c), count - 1);
    }
  }

  /** goto_line from place c, over so many newlines; short of lines, the end of the text. */
  function Forward(doc: seq<Byte>, c: nat, lines: nat): (r: nat)
    requires c <= |doc|
    ensures c <= r <= |doc|
    decreases lines
  {
    if c == |doc| || lines == 0 then c
    else if LineEnd(doc, c) == |doc| then |doc|
    else Forward(doc, LineEnd(doc, c) + 1, lines - 1)
  }

  /** How many newlines there are in front of a place. */
  function Newlines(doc: seq<Byte>, c: nat): nat
    requires c <= |doc|
  {
    if c == 0 then 0 else Newlines(doc, c - 1) + if doc[c - 1] == NEWLINE then 1 else 0
  }

  lemma {:induction false} NoNewlines(doc: seq<Byte>, c: nat, d: nat)
    requires c <= d <= |doc| && forall k :: c <= k < d ==> doc[k] != NEWLINE
    ensures Newlines(doc, c) == Newlines(doc, d)
  {
    if c < d {
      NoNewlines(doc, c, d - 1);
    }
  }

  lemma {:induction false} NewlinesGrow(doc: seq<Byte>, c: nat, d: nat)
    requires c <= d <= |doc|
    ensures Newlines(doc, c) <= Newlines(doc, d)
  {
    if c < d {
      NewlinesGrow(doc, c, d - 1);
    }
  }

  /** Going to a line ends at the start of the line with just so many newlines before it, if there is one. */
  lemma {:induction false} ForwardCounts(doc: seq<Byte>, c: nat, lines: nat)
    requires c <= |doc| && (c == 0 || doc[c - 1] == NEWLINE)
    ensures var r := Forward(doc, c, lines);
            if Newlines(doc, |doc|) >= Newlines(doc, c) + lines
            then Newlines(doc, r) == Newlines(doc, c) + lines && (r == 0 || doc[r - 1] == NEWLINE)
            else r == |doc|
    decreases lines
  {
    var e := LineEnd(doc, c);
    NoNewlines(doc, c, e);
    NewlinesGrow(doc, c, |doc|);
    if c < |doc| && lines > 0 && e < |doc| {
      ForwardCounts(doc, e + 1, lines - 1);
    }
  }

  // ---------- words ----------

  predicate IsAlnum(c: Byte) { 48 <= c <= 57 || 65 <= c <= 90 || 97 <= c <= 122 }

  predicate IsSpace(c: Byte) { 9 <= c <= 13 || c == 32 }

  predicate Boundary(left: Byte, right: Byte)
  {
    (!IsAlnum(left) && IsAlnum(right)) || (IsSpace(left) && !IsSpace(right))
  }

  /** A word begins with a letter or digit behind something else, or with anything behind white space. */
  lemma WordsBegin(left: Byte, right: Byte)
    ensures Boundary(left, right)
       <==> || ((48 <= right <= 57 || 65 <= right <= 90 || 97 <= right <= 122)
                && (left < 48 || 57 < left < 65 || 90 < left < 97 || 122 < left))
            || (left in [9, 10, 11, 12, 13, 32] && right !in [9, 10, 11, 12, 13, 32])
  {
  }

  /** The first place behind c with a word boundary before it, or the end of the text. */
  function WordRight(doc: seq<Byte>, c: nat): (r: nat)
    requires c <= |doc|
    ensures c <= r <= |doc| && (c < |doc| ==> c < r)
    ensures c < r < |doc| ==> Boundary(doc[r - 1], doc[r])
    ensures forall k :: c < k < r ==> !Boundary(doc[k - 1], doc[k])
    decreases |doc| - c
  {
    if c == |doc| then c
    else if c + 1 == |doc| || Boundary(doc[c], doc[c + 1]) then c + 1
    else WordRight(doc, c + 1)
  }

  lemma WordRightNext(doc: seq<Byte>, c: nat)
    requires c < |doc|
    ensures WordRight(doc, c) == if c + 1 == |doc| || Boundary(doc[c], doc[c + 1]) then c + 1 else WordRight(doc, c + 1)
  {
  }

  lemma WordRightEnds(doc: seq<Byte>)
    ensures WordRight(doc, |doc|) == |doc|
  {
  }

  function WordRightBy(doc: seq<Byte>, c: nat, count: nat): (r: nat)
    requires c <= |doc|
    ensures r <= |doc|
    decreases count
  {
    if count == 0 then c else WordRightBy(doc, WordRight(doc, c), count - 1)
  }
}
