/** Numbered lines and the bytes BEdit keeps them as (apps/bedit.asm). */
module Lines {
  import opened Bytes

  datatype Line = Line(number: Word, text: seq<Byte>)

  predicate Fits(l: Line) { |l.text| <= 252 }

  predicate AllFit(lines: seq<Line>) { forall i :: 0 <= i < |lines| ==> Fits(lines[i]) }

  function Length(l: Line): Byte
    requires Fits(l)
  {
    |l.text| + 3
  }

  /** The length of all of it, the number, the text. */
  function LineBytes(l: Line): (b: seq<Byte>)
    requires Fits(l)
    ensures |b| == Length(l)
  {
    [Length(l), Lo(l.number), Hi(l.number)] + l.text
  }

  function Encode(lines: seq<Line>): seq<Byte>
    requires AllFit(lines)
  {
    if lines == [] then [] else LineBytes(lines[0]) + Encode(lines[1..])
  }

  lemma {:induction false} EncodeConcat(a: seq<Line>, b: seq<Line>)
    requires AllFit(a) && AllFit(b)
    ensures AllFit(a + b) && Encode(a + b) == Encode(a) + Encode(b)
  {
    hide LineBytes;
    if a == [] {
      assert a + b == b;
    } else {
      assert (a + b)[1..] == a[1..] + b;
      EncodeConcat(a[1..], b);
    }
  }

  lemma EncodeOne(l: Line)
    requires Fits(l)
    ensures Encode([l]) == LineBytes(l)
  {
    assert Encode([l][1..]) == [];
  }

  lemma EncodeFrom(lines: seq<Line>, i: nat)
    requires AllFit(lines) && i < |lines|
    ensures Encode(lines[i..]) == LineBytes(lines[i]) + Encode(lines[i + 1..])
  {
    hide LineBytes, Fits;
    assert lines[i..][1..] == lines[i + 1..];
  }

  lemma EncodeTo(lines: seq<Line>, i: nat)
    requires AllFit(lines) && i < |lines|
    ensures Encode(lines[..i + 1]) == Encode(lines[..i]) + LineBytes(lines[i])
  {
    hide LineBytes, Encode;
    assert lines[..i + 1] == lines[..i] + [lines[i]];
    EncodeConcat(lines[..i], [lines[i]]);
    EncodeOne(lines[i]);
  }

  lemma EncodeSplit(lines: seq<Line>, i: nat)
    requires AllFit(lines) && i <= |lines|
    ensures Encode(lines) == Encode(lines[..i]) + Encode(lines[i..])
  {
    hide LineBytes, Encode, Fits;
    assert lines == lines[..i] + lines[i..];
    EncodeConcat(lines[..i], lines[i..]);
  }

  /** The bytes up to the final zero can be read in one way only. */
  lemma {:induction false} EncodedOnce(a: seq<Line>, b: seq<Line>, x: seq<Byte>, y: seq<Byte>)
    requires AllFit(a) && AllFit(b) && Encode(a) + [0] + x == Encode(b) + [0] + y
    ensures a == b && x == y
  {
    var s, t := Encode(a) + [0] + x, Encode(b) + [0] + y;
    FirstByte(a, x);
    FirstByte(b, y);
    if a == [] {
      assert s[1..] == x && t[1..] == y;
    } else {
      var n: nat := s[0];
      FirstLine(a, x);
      FirstLine(b, y);
      hide Encode, LineBytes;
      SameLine(a[0], b[0]);
      EncodedOnce(a[1..], b[1..], x, y);
    }
  }

  /** Line i in memory: its length, the low and the high byte of its number, its text; then the next line. */
  lemma LineAt(lines: seq<Line>, i: nat)
    requires AllFit(lines) && i < |lines|
    ensures var at, s, l := |Encode(lines[..i])|, Encode(lines), lines[i];
            && at + |l.text| + 3 == |Encode(lines[..i + 1])| <= |s|
            && s[at] as int == |l.text| + 3 && s[at + 1] as int + 0x100 * s[at + 2] as int == l.number as int
            && s[at + 3..at + 3 + |l.text|] == l.text
  {
    var s, b, l := Encode(lines), LineBytes(lines[i]), lines[i];
    LineParts(l);
    EncodeSplit(lines, i);
    EncodeFrom(lines, i);
    EncodeTo(lines, i);
    hide LineBytes, Encode, Fits;
    InPlace(Encode(lines[..i]), b, Encode(lines[i + 1..]));
  }

  lemma LineParts(l: Line)
    requires Fits(l)
    ensures var b := LineBytes(l);
            && |b| == |l.text| + 3 && b[0] as int == |l.text| + 3 && b[3..] == l.text
            && b[1] as int + 0x100 * b[2] as int == l.number as int
  {
  }

  lemma InPlace(a: seq<Byte>, b: seq<Byte>, c: seq<Byte>)
    requires |b| >= 3
    ensures var s := a + (b + c);
            && s[|a|] == b[0] && s[|a| + 1] == b[1] && s[|a| + 2] == b[2]
            && s[|a| + 3..|a| + |b|] == b[3..] && |a + b| <= |s|
  {
  }

  lemma FirstByte(lines: seq<Line>, x: seq<Byte>)
    requires AllFit(lines)
    ensures (Encode(lines) + [0] + x)[0] == if lines == [] then 0 else Length(lines[0])
  {
  }

  lemma FirstLine(lines: seq<Line>, x: seq<Byte>)
    requires AllFit(lines) && lines != []
    ensures var s, n := Encode(lines) + [0] + x, Length(lines[0]);
            s[..n] == LineBytes(lines[0]) && s[n..] == Encode(lines[1..]) + [0] + x
  {
    var b, rest := LineBytes(lines[0]), Encode(lines[1..]);
    assert Encode(lines) == b + rest;
    hide Encode, LineBytes;
    assert Encode(lines) + [0] + x == b + (rest + [0] + x);
  }

  lemma SameLine(a: Line, b: Line)
    requires Fits(a) && Fits(b) && LineBytes(a) == LineBytes(b)
    ensures a == b
  {
    var s, t := LineBytes(a), LineBytes(b);
    assert s[1] == Lo(a.number) && t[1] == Lo(b.number) && s[2] == Hi(a.number) && t[2] == Hi(b.number);
    assert Pair(Lo(a.number), Hi(a.number)) == a.number && Pair(Lo(b.number), Hi(b.number)) == b.number;
    assert s[3..] == a.text && t[3..] == b.text;
  }

  // ---------- what the commands are to do ----------

  predicate Ascending(lines: seq<Line>)
  {
    forall i, j :: 0 <= i < j < |lines| ==> lines[i].number < lines[j].number
  }

  /** The first line from i on with at least that number. */
  function AtLeast(lines: seq<Line>, n: Word, i: nat): (r: nat)
    requires i <= |lines|
    ensures i <= r <= |lines| && (forall j :: i <= j < r ==> lines[j].number < n)
    ensures r < |lines| ==> lines[r].number >= n
    decreases |lines| - i
  {
    if i == |lines| || lines[i].number >= n then i else AtLeast(lines, n, i + 1)
  }

  function Without(lines: seq<Line>, i: nat): seq<Line>
    requires i < |lines|
  {
    lines[..i] + lines[i + 1..]
  }

  function With(lines: seq<Line>, i: nat, l: Line): (r: seq<Line>)
    requires i <= |lines|
    ensures |r| == |lines| + 1 && r[i] == l
  {
    lines[..i] + [l] + lines[i..]
  }

  /** All but the lines from i up to k. */
  function Cut(lines: seq<Line>, i: nat, k: nat): (r: seq<Line>)
    requires i <= k <= |lines|
    ensures |r| == |lines| - k + i
  {
    lines[..i] + lines[k..]
  }

  /** The document without the line of that number. */
  function Cleared(lines: seq<Line>, n: Word): seq<Line>
  {
    var i := AtLeast(lines, n, 0);
    if i < |lines| && lines[i].number == n then Without(lines, i) else lines
  }

  function Entered(lines: seq<Line>, n: Word, text: seq<Byte>): seq<Line>
  {
    var i, rest := AtLeast(lines, n, 0), Cleared(lines, n);
    if i <= |rest| then With(rest, i, Line(n, text)) else rest
  }

  /** In a document in order, the lines before that place are those of lower numbers. */
  lemma AtLeastSplits(lines: seq<Line>, n: Word)
    requires Ascending(lines)
    ensures var i := AtLeast(lines, n, 0);
            && (forall l :: l in lines[..i] <==> l in lines && l.number < n)
            && (forall l :: l in lines[i..] <==> l in lines && l.number >= n)
  {
    var i := AtLeast(lines, n, 0);
    Before(lines, n, i);
    Beyond(lines, n - 1, i);
    hide Ascending, AtLeast;
    assert lines == lines[..i] + lines[i..];
  }

  lemma Before(lines: seq<Line>, n: int, i: nat)
    requires i <= |lines| && forall j :: 0 <= j < i ==> lines[j].number < n
    ensures AllBelow(lines[..i], n)
  {
  }

  lemma AscendingConcat(a: seq<Line>, b: seq<Line>)
    requires Ascending(a) && Ascending(b)
    requires forall l, m :: l in a && m in b ==> l.number < m.number
    ensures Ascending(a + b)
  {
    forall i, j | 0 <= i < j < |a + b|
      ensures (a + b)[i].number < (a + b)[j].number
    {
      if i < |a| <= j {
        assert a[i] in a && b[j - |a|] in b;
      }
    }
  }

  ghost predicate AllBelow(s: seq<Line>, n: int) { forall l :: l in s ==> l.number < n }

  ghost predicate AllAbove(s: seq<Line>, n: int) { forall l :: l in s ==> l.number > n }

  lemma AscendingAround(a: seq<Line>, l: Line, b: seq<Line>)
    requires Ascending(a) && Ascending(b) && AllBelow(a, l.number) && AllAbove(b, l.number)
    ensures Ascending(a + [l] + b) && Ascending(a + b)
  {
    hide Ascending;
    assert Ascending([l]) by { OneAscends(l); }
    AscendingConcat(a, b);
    AscendingConcat(a, [l]);
    AscendingConcat(a + [l], b);
  }

  lemma OneAscends(l: Line)
    ensures Ascending([l])
  {
  }

  /** The first line of a higher number than n. */
  function Next(lines: seq<Line>, n: Word): (r: nat)
    ensures r <= |lines|
  {
    var i := AtLeast(lines, n, 0);
    if i < |lines| && lines[i].number == n then i + 1 else i
  }

  /** The lines before and behind the place of number n. */
  lemma Surroundings(lines: seq<Line>, n: Word)
    requires Ascending(lines)
    ensures var i, next := AtLeast(lines, n, 0), Next(lines, n);
            && Ascending(lines[..i]) && AllBelow(lines[..i], n) && Ascending(lines[next..]) && AllAbove(lines[next..], n)
            && Cleared(lines, n) == lines[..i] + lines[next..]
  {
    LowerPart(lines, n);
    HigherPart(lines, n);
    ClearedIs(lines, n);
    hide *;
  }

  lemma LowerPart(lines: seq<Line>, n: Word)
    requires Ascending(lines)
    ensures Ascending(lines[..AtLeast(lines, n, 0)]) && AllBelow(lines[..AtLeast(lines, n, 0)], n)
  {
    Before(lines, n, AtLeast(lines, n, 0));
    hide AllBelow;
  }

  lemma HigherPart(lines: seq<Line>, n: Word)
    requires Ascending(lines)
    ensures Ascending(lines[Next(lines, n)..]) && AllAbove(lines[Next(lines, n)..], n)
  {
    NextIsHigher(lines, n);
    hide Next, AllAbove;
    Beyond(lines, n, Next(lines, n));
  }

  lemma ClearedIs(lines: seq<Line>, n: Word)
    ensures Cleared(lines, n) == lines[..AtLeast(lines, n, 0)] + lines[Next(lines, n)..]
  {
    hide AtLeast;
    var i := AtLeast(lines, n, 0);
    assert lines == lines[..i] + lines[i..];
  }

  lemma NextIsHigher(lines: seq<Line>, n: Word)
    requires Ascending(lines)
    ensures Next(lines, n) < |lines| ==> lines[Next(lines, n)].number > n
  {
  }

  lemma AllParts(lines: seq<Line>, n: Word)
    ensures var i, next := AtLeast(lines, n, 0), Next(lines, n);
            forall l :: l in lines <==> l in lines[..i] || (next > i && l == lines[i]) || l in lines[next..]
  {
    var i, next := AtLeast(lines, n, 0), Next(lines, n);
    assert lines == lines[..i] + lines[i..];
    if next > i {
      assert lines[i..] == [lines[i]] + lines[next..];
    }
  }

  lemma ClearedExactly(lines: seq<Line>, n: Word)
    requires Ascending(lines)
    ensures Ascending(Cleared(lines, n))
    ensures forall l :: l in Cleared(lines, n) <==> l in lines && l.number != n
  {
    Surroundings(lines, n);
    AllParts(lines, n);
    var i, next := AtLeast(lines, n, 0), Next(lines, n);
    assert next > i ==> lines[i].number == n;
    hide Ascending, AtLeast, Cleared, Next;
    AscendingAround(lines[..i], Line(n, []), lines[next..]);
  }

  /** Entering a line puts it in order, in place of any line of that number; all other lines stay. */
  lemma EnteredExactly(lines: seq<Line>, n: Word, text: seq<Byte>)
    requires Ascending(lines)
    ensures Ascending(Entered(lines, n, text))
    ensures forall l :: l in Entered(lines, n, text) <==> l == Line(n, text) || (l in lines && l.number != n)
  {
    Surroundings(lines, n);
    ClearedExactly(lines, n);
    var i, rest, next := AtLeast(lines, n, 0), Cleared(lines, n), Next(lines, n);
    hide Ascending, AtLeast, Cleared, Next;
    assert rest[..i] == lines[..i] && rest[i..] == lines[next..];
    AscendingAround(lines[..i], Line(n, text), lines[next..]);
  }

  /** The lines from i on whose numbers are not beyond the last: how many there are before the first that is. */
  function UpTo(lines: seq<Line>, last: Word, i: nat): (r: nat)
    requires i <= |lines|
    ensures i <= r <= |lines| && (forall j :: i <= j < r ==> lines[j].number <= last)
    ensures r < |lines| ==> lines[r].number > last
    decreases |lines| - i
  {
    if i == |lines| || lines[i].number > last then i else UpTo(lines, last, i + 1)
  }

  function Removed(lines: seq<Line>, first: Word, last: Word): seq<Line>
  {
    var i := AtLeast(lines, first, 0);
    Cut(lines, i, UpTo(lines, last, i))
  }

  /** In a document in order, just the lines of the range go. */
  lemma RemovedExactly(lines: seq<Line>, first: Word, last: Word)
    requires Ascending(lines)
    ensures Ascending(Removed(lines, first, last))
    ensures forall l :: l in Removed(lines, first, last) <==> l in lines && !(first <= l.number <= last)
  {
    var i := AtLeast(lines, first, 0);
    var j := UpTo(lines, last, i);
    AtLeastSplits(lines, first);
    UpToSplits(lines, last, i);
    Tail(lines, i);
    Tail(lines, j);
    LowerPart(lines, first);
    assert forall l :: l in lines[j..] ==> l in lines[i..];
    hide Ascending, AtLeast, UpTo;
    AscendingConcat(lines[..i], lines[j..]);
  }

  lemma Tail(lines: seq<Line>, j: nat)
    requires Ascending(lines) && j <= |lines|
    ensures Ascending(lines[j..])
  {
  }

  lemma UpToSplits(lines: seq<Line>, last: Word, i: nat)
    requires Ascending(lines) && i <= |lines|
    ensures forall l :: l in lines[UpTo(lines, last, i)..] <==> l in lines[i..] && l.number > last
  {
    var j := UpTo(lines, last, i);
    Beyond(lines, last, j);
    assert lines[i..] == lines[i..j] + lines[j..];
    assert forall l :: l in lines[i..j] ==> l.number <= last;
    hide Ascending, UpTo;
  }

  lemma Beyond(lines: seq<Line>, last: int, j: nat)
    requires Ascending(lines) && j <= |lines| && (j < |lines| ==> lines[j].number > last)
    ensures AllAbove(lines[j..], last)
  {
    assert forall k :: j <= k < |lines| ==> lines[k].number > last;
    hide Ascending;
  }

  /** The lines a command names: all, one, or from one on, perhaps up to another. */
  datatype Range = All | Single(n: Word) | From(n: Word) | FromTo(n: Word, last: Word)

  function FirstOf(r: Range): Word { if r.All? then 0 else r.n }

  /** The last number of the range; with one number given, that of the first line not below it. */
  function LastOf(lines: seq<Line>, r: Range): Word
  {
    match r
    case Single(n) => if AtLeast(lines, n, 0) < |lines| then lines[AtLeast(lines, n, 0)].number else n
    case FromTo(n, last) => last
    case _ => 0xffff
  }

  /**
   Deleting one line deletes the next one if there is none of that number: it does what was asked
   for exactly if the line is there, or none of a higher number is.
   */
  lemma SingleExactly(lines: seq<Line>, n: Word)
    requires Ascending(lines)
    ensures Removed(lines, n, LastOf(lines, Single(n))) == Cleared(lines, n)
       <==> (exists l :: l in lines && l.number == n) || (forall l :: l in lines ==> l.number < n)
  {
    var i := AtLeast(lines, n, 0);
    AtLeastSplits(lines, n);
    if i < |lines| {
      SingleAmong(lines, n);
    } else {
      SingleBeyond(lines, n);
    }
  }

  /** What the other forms take out of a document in order. */
  lemma RangeExactly(lines: seq<Line>, r: Range)
    requires Ascending(lines) && !r.Single?
    ensures forall l :: l in Removed(lines, FirstOf(r), LastOf(lines, r)) <==>
              l in lines && match r
                            case All => false
                            case From(n) => l.number < n
                            case FromTo(n, last) => l.number < n || l.number > last
                            case Single(_) => true
  {
    RemovedExactly(lines, FirstOf(r), LastOf(lines, r));
    hide Ascending, Removed;
  }

  lemma SingleAmong(lines: seq<Line>, n: Word)
    requires Ascending(lines) && AtLeast(lines, n, 0) < |lines|
    ensures Removed(lines, n, LastOf(lines, Single(n))) == Cleared(lines, n)
       <==> (exists l :: l in lines && l.number == n) || (forall l :: l in lines ==> l.number < n)
  {
    var i := AtLeast(lines, n, 0);
    var k := lines[i].number;
    var removed, cleared := Removed(lines, n, LastOf(lines, Single(n))), Cleared(lines, n);
    RemovedExactly(lines, n, k);
    ClearedExactly(lines, n);
    RemovedIsCut(lines, n);
    hide Ascending, AtLeast, Removed, Cleared;
    assert lines[i] in lines && k >= n;
    assert lines[i] !in removed;
    assert k != n ==> lines[i] in cleared;
    if exists l :: l in lines && l.number == n {
      FirstIs(lines, n);
    }
  }

  /** With the line there, it is the one that is found. */
  lemma FirstIs(lines: seq<Line>, n: Word)
    requires Ascending(lines) && exists l :: l in lines && l.number == n
    ensures AtLeast(lines, n, 0) < |lines| && lines[AtLeast(lines, n, 0)].number == n
  {
    var l :| l in lines && l.number == n;
    var j :| 0 <= j < |lines| && lines[j] == l;
    var i := AtLeast(lines, n, 0);
    assert i <= j;
    hide AtLeast;
  }

  lemma RemovedIsCut(lines: seq<Line>, n: Word)
    requires Ascending(lines) && AtLeast(lines, n, 0) < |lines|
    ensures var i := AtLeast(lines, n, 0);
            && Removed(lines, n, LastOf(lines, Single(n))) == lines[..i] + lines[i + 1..]
            && LastOf(lines, Single(n)) == lines[i].number >= n
            && (lines[i].number == n ==> Cleared(lines, n) == lines[..i] + lines[i + 1..])
  {
    hide *;
    var i := AtLeast(lines, n, 0);
    LastIs(lines, n);
    RemovedOne(lines, n);
    ClearedOne(lines, n);
  }

  lemma LastIs(lines: seq<Line>, n: Word)
    requires AtLeast(lines, n, 0) < |lines|
    ensures LastOf(lines, Single(n)) == lines[AtLeast(lines, n, 0)].number
  {
    hide AtLeast;
  }

  lemma RemovedOne(lines: seq<Line>, n: Word)
    requires Ascending(lines) && AtLeast(lines, n, 0) < |lines|
    ensures var i := AtLeast(lines, n, 0); Removed(lines, n, lines[i].number) == lines[..i] + lines[i + 1..]
  {
    OneUpTo(lines, AtLeast(lines, n, 0));
    hide Ascending, AtLeast, UpTo;
  }

  lemma ClearedOne(lines: seq<Line>, n: Word)
    requires AtLeast(lines, n, 0) < |lines|
    ensures var i := AtLeast(lines, n, 0); lines[i].number == n ==> Cleared(lines, n) == lines[..i] + lines[i + 1..]
  {
    ClearedIs(lines, n);
    hide AtLeast, Cleared;
  }

  lemma SingleBeyond(lines: seq<Line>, n: Word)
    requires Ascending(lines) && AtLeast(lines, n, 0) == |lines|
    ensures Removed(lines, n, LastOf(lines, Single(n))) == Cleared(lines, n)
    ensures forall l :: l in lines ==> l.number < n
  {
    assert lines[..|lines|] == lines;
    hide Ascending, AtLeast;
  }

  lemma OneUpTo(lines: seq<Line>, i: nat)
    requires Ascending(lines) && i < |lines|
    ensures UpTo(lines, lines[i].number, i) == i + 1
  {
  }
}
