/** File names as text and in FCBs: parsing (src/bdos/parsefcb.S:12-192) and QE's printing (apps/qe.c:79-106). */
module FileNames {
  import opened Bytes

  const SPACE: Byte := 32
  const STAR: Byte := 42
  const DOT: Byte := 46
  const COLON: Byte := 58
  const QUERY: Byte := 63
  const AT: Byte := 64

  const TERMINATORS: seq<Byte> := [32, 61, 62, 60, 46, 58, 44, 91, 93, 47, 124, 10, 13, 127, 9, 0]

  predicate Terminator(c: Byte) { c in TERMINATORS }

  predicate Lower(c: Byte) { 97 <= c <= 122 }

  function Upper(c: Byte): Byte { if Lower(c) then c - 32 else c }

  /** A string with a zero at its end, or sooner. */
  predicate Text(s: seq<Byte>) { 0 < |s| < 0x100 && s[|s| - 1] == 0 }

  lemma NotTheEnd(s: seq<Byte>, y: nat)
    requires Text(s) && y < |s| && !Terminator(s[y])
    ensures y + 1 < |s|
  {
    assert TERMINATORS[15] == 0;
  }

  /** Characters of a name: one that ends the text stays where it is and stands for a space, a star for a question mark. */
  function Field(s: seq<Byte>, y: nat, n: nat): (r: (seq<Byte>, nat))
    requires Text(s) && y < |s|
    ensures |r.0| == n && y <= r.1 < |s|
    decreases n
  {
    if n == 0 then ([], y)
    else
      var c := Upper(s[y]);
      if Terminator(c) then
        var (rest, y') := Field(s, y, n - 1);
        ([SPACE] + rest, y')
      else if c == STAR then
        var (rest, y') := Field(s, y, n - 1);
        ([QUERY] + rest, y')
      else
        UpperTerminator(s[y]);
        NotTheEnd(s, y);
        var (rest, y') := Field(s, y + 1, n - 1);
        ([c] + rest, y')
  }

  lemma UpperTerminator(c: Byte)
    ensures Terminator(Upper(c)) <==> Terminator(c)
  {
    if Lower(c) {
      assert c !in TERMINATORS && c - 32 !in TERMINATORS;
    }
  }

  /** The next character that ends a name. */
  function SkipTo(s: seq<Byte>, y: nat): (r: nat)
    requires Text(s) && y < |s|
    ensures y <= r < |s| && Terminator(s[r]) && forall k :: y <= k < r ==> !Terminator(s[k])
    decreases |s| - y
  {
    if Terminator(s[y]) then y
    else
      NotTheEnd(s, y);
      SkipTo(s, y + 1)
  }

  datatype Parsed = Parsed(fcb: seq<Byte>, next: nat, error: bool)

  /** A colon in second place has a drive in front of it. */
  predicate HasDrive(s: seq<Byte>)
    requires Text(s)
  {
    s[0] != 0 && s[1] == COLON
  }

  /** The drive's number: one for A; what is not below 16 is an error. */
  function DriveOf(s: seq<Byte>): Byte
    requires Text(s)
  {
    if HasDrive(s) then ToByte(Upper(s[0]) as int - AT) else 0
  }

  function NameStart(s: seq<Byte>): (y: nat)
    requires Text(s)
    ensures y < |s|
  {
    if HasDrive(s) then 2 else 0
  }

  function NameOf(s: seq<Byte>): (r: seq<Byte>)
    requires Text(s)
    ensures |r| == 8
  {
    Field(s, NameStart(s), 8).0
  }

  /** Where the name is over: at the dot, if there is a type. */
  function NameEnd(s: seq<Byte>): (y: nat)
    requires Text(s)
    ensures y < |s| && Terminator(s[y]) && (s[y] == DOT ==> y + 1 < |s|)
  {
    SkipTo(s, Field(s, NameStart(s), 8).1)
  }

  function TypeOf(s: seq<Byte>): (r: seq<Byte>)
    requires Text(s)
    ensures |r| == 3
  {
    if s[NameEnd(s)] == DOT then Field(s, NameEnd(s) + 1, 3).0 else [SPACE, SPACE, SPACE]
  }

  function TypeEnd(s: seq<Byte>): (y: nat)
    requires Text(s)
    ensures y < |s| && Terminator(s[y])
  {
    if s[NameEnd(s)] == DOT then SkipTo(s, Field(s, NameEnd(s) + 1, 3).1) else NameEnd(s)
  }

  function Parse(s: seq<Byte>): (p: Parsed)
    requires Text(s)
    ensures |p.fcb| == 16 && p.next < |s| && Terminator(s[p.next])
  {
    Parsed([DriveOf(s)] + NameOf(s) + TypeOf(s) + [0, 0, 0, 0], TypeEnd(s), DriveOf(s) >= 16)
  }

  // ---------- what comes out of it ----------

  /** A character that parsing leaves as it is. */
  predicate Proper(c: Byte) { !Terminator(c) && c != STAR && !Lower(c) }

  /** Proper characters, then spaces. */
  predicate Padded(f: seq<Byte>)
  {
    f == [] || (f[0] == SPACE && AllSpaces(f)) || (Proper(f[0]) && Padded(f[1..]))
  }

  predicate AllSpaces(f: seq<Byte>) { forall i :: 0 <= i < |f| ==> f[i] == SPACE }

  lemma {:induction false} FieldIsPadded(s: seq<Byte>, y: nat, n: nat)
    requires Text(s) && y < |s|
    ensures Padded(Field(s, y, n).0)
    ensures Terminator(s[y]) ==> AllSpaces(Field(s, y, n).0)
    decreases n
  {
    if n > 0 {
      var c := Upper(s[y]);
      UpperTerminator(s[y]);
      if Terminator(c) || c == STAR {
        FieldIsPadded(s, y, n - 1);
        assert Proper(QUERY);
        assert Field(s, y, n).0[1..] == Field(s, y, n - 1).0;
      } else {
        NotTheEnd(s, y);
        FieldIsPadded(s, y + 1, n - 1);
        assert Field(s, y, n).0[1..] == Field(s, y + 1, n - 1).0;
        assert !Lower(c);
      }
    }
  }

  // ---------- printing ----------

  function Unspaced(f: seq<Byte>): seq<Byte>
  {
    if f == [] then [] else (if f[0] == SPACE then [] else [f[0]]) + Unspaced(f[1..])
  }

  lemma {:induction false} UnspacedLength(f: seq<Byte>)
    ensures |Unspaced(f)| <= |f|
  {
    if f != [] {
      UnspacedLength(f[1..]);
    }
  }

  function Render(drive: Byte, name: seq<Byte>): (s: seq<Byte>)
    requires |name| == 11
    ensures Text(s)
  {
    UnspacedLength(name[..8]);
    UnspacedLength(name[8..]);
    (if drive != 0 then [ToByte(AT as int + drive), COLON] else []) + Unspaced(name[..8]) + [DOT] + Unspaced(name[8..]) + [0]
  }

  /** Reading printed characters gives them back, with the spaces; the character behind them is next. */
  lemma {:induction false} FieldOfUnspaced(a: seq<Byte>, f: seq<Byte>, b: seq<Byte>)
    requires Padded(f) && Text(a + Unspaced(f) + b) && 0 < |b| && Terminator(b[0])
    ensures Field(a + Unspaced(f) + b, |a|, |f|) == (f, |a| + |Unspaced(f)|)
    decreases |f|
  {
    hide *;
    var s := a + Unspaced(f) + b;
    PaddedIs(f);
    if f == [] || f[0] == SPACE {
      SpacesVanish(f);
      Behind(a, b);
      OnlySpaces(s, |a|, |f|);
      assert f == seq(|f|, _ => SPACE);
    } else {
      var c, rest := f[0], f[1..];
      Across(a, c, Unspaced(rest), b);
      FieldOfUnspaced(a + [c], rest, b);
      ProperField(s, |a|, |f|);
      assert f == [c] + rest;
    }
  }

  lemma PaddedIs(f: seq<Byte>)
    requires Padded(f)
    ensures f == [] || f[0] == SPACE ==> AllSpaces(f) && forall i :: 0 <= i < |f| ==> f[i] == SPACE
    ensures f != [] && f[0] != SPACE ==> Unspaced(f) == [f[0]] + Unspaced(f[1..]) && Proper(f[0]) && Padded(f[1..])
  {
  }

  lemma Behind(a: seq<Byte>, b: seq<Byte>)
    ensures a + [] + b == a + b && (0 < |b| ==> (a + b)[|a|] == b[0])
  {
  }

  lemma Across(a: seq<Byte>, c: Byte, u: seq<Byte>, b: seq<Byte>)
    ensures a + ([c] + u) + b == (a + [c]) + u + b && (a + ([c] + u) + b)[|a|] == c
  {
  }

  lemma ProperField(s: seq<Byte>, y: nat, n: nat)
    requires Text(s) && y + 1 < |s| && Proper(s[y]) && n > 0
    ensures Field(s, y, n) == ([s[y]] + Field(s, y + 1, n - 1).0, Field(s, y + 1, n - 1).1)
  {
  }

  lemma {:induction false} SpacesVanish(f: seq<Byte>)
    requires AllSpaces(f)
    ensures Unspaced(f) == []
  {
    if f != [] {
      SpacesVanish(f[1..]);
    }
  }

  lemma {:induction false} OnlySpaces(s: seq<Byte>, y: nat, n: nat)
    requires Text(s) && y < |s| && Terminator(s[y])
    ensures Field(s, y, n) == (seq(n, _ => SPACE), y)
  {
    UpperTerminator(s[y]);
    if n > 0 {
      OnlySpaces(s, y, n - 1);
      assert Field(s, y, n) == ([SPACE] + Field(s, y, n - 1).0, y);
      assert seq(n, _ => SPACE) == [SPACE] + seq(n - 1, _ => SPACE);
    } else {
      assert seq(n, _ => SPACE) == [];
    }
  }

  /** An FCB's name and type, in proper characters padded with spaces. */
  predicate WellFormed(drive: Byte, name: seq<Byte>)
    requires |name| == 11
  {
    drive < 16 && Padded(name[..8]) && Padded(name[8..])
  }

  lemma {:induction false} UnspacedIsProper(f: seq<Byte>)
    requires Padded(f)
    ensures forall i :: 0 <= i < |Unspaced(f)| ==> Proper(Unspaced(f)[i])
  {
    if f != [] {
      if f[0] == SPACE {
        SpacesVanish(f);
      } else {
        UnspacedIsProper(f[1..]);
      }
    }
  }

  function DriveText(drive: Byte): seq<Byte> { if drive != 0 then [ToByte(AT as int + drive), COLON] else [] }

  /** The drive is read as it was printed, or as none. */
  lemma DriveReadsBack(drive: Byte, name: seq<Byte>)
    requires |name| == 11 && WellFormed(drive, name)
    ensures var s := Render(drive, name);
            DriveOf(s) == drive && NameStart(s) == |DriveText(drive)|
  {
    var s, u, e := Render(drive, name), Unspaced(name[..8]), Unspaced(name[8..]);
    RenderedIs(drive, name);
    if drive == 0 {
      UnspacedIsProper(name[..8]);
      UnspacedIsProper(name[8..]);
      hide Render, Unspaced, Padded, Proper, Terminator, Text;
      assert s == u + [DOT] + e + [0];
      NoColon(u, e);
    } else {
      hide Render, Unspaced, Padded, Proper, Terminator, Text;
      assert s[0] == ToByte(AT as int + drive) && s[1] == COLON;
      DriveLetter(drive);
    }
  }

  lemma NoColon(u: seq<Byte>, e: seq<Byte>)
    requires forall i :: 0 <= i < |u| ==> Proper(u[i])
    requires forall i :: 0 <= i < |e| ==> Proper(e[i])
    ensures COLON !in u + [DOT] + e + [0]
  {
    assert TERMINATORS[5] == COLON;
  }

  lemma DriveLetter(drive: Byte)
    requires 0 < drive < 16
    ensures var c := ToByte(AT as int + drive);
            c != 0 && ToByte(Upper(c) as int - AT) == drive
  {
    assert ToByte(AT as int + drive) as int == AT as int + drive;
  }

  lemma NamesReadBack(drive: Byte, name: seq<Byte>)
    requires |name| == 11 && WellFormed(drive, name)
    ensures var s := Render(drive, name);
            NameOf(s) == name[..8] && TypeOf(s) == name[8..] && TypeEnd(s) == |s| - 1
  {
    hide *;
    WellFormedIs(drive, name);
    DriveReadsBack(drive, name);
    RenderedIs(drive, name);
    DotEnds();
    var s, d, u, e := Render(drive, name), DriveText(drive), Unspaced(name[..8]), Unspaced(name[8..]);
    Layout(d, u, e);
    FieldOfUnspaced(d, name[..8], [DOT] + e + [0]);
    FieldOfUnspaced(d + u + [DOT], name[8..], [0]);
    NamesFrom(s, name[..8], name[8..], |d|, |d| + |u|);
  }

  lemma DotEnds()
    ensures DOT == 46 && Terminator(DOT) && Terminator(0)
  {
    assert TERMINATORS[4] == DOT && TERMINATORS[15] == 0;
  }

  lemma WellFormedIs(drive: Byte, name: seq<Byte>)
    requires |name| == 11 && WellFormed(drive, name)
    ensures drive < 16 && Padded(name[..8]) && Padded(name[8..])
  {
  }

  lemma Layout(d: seq<Byte>, u: seq<Byte>, e: seq<Byte>)
    ensures var s := d + u + [DOT] + e + [0];
            && s == d + u + ([DOT] + e + [0]) == (d + u + [DOT]) + e + [0]
            && |s| == |d| + |u| + |e| + 2 && s[|d| + |u|] == DOT && s[|s| - 1] == 0
  {
  }

  lemma RenderedIs(drive: Byte, name: seq<Byte>)
    requires |name| == 11
    ensures Render(drive, name) == DriveText(drive) + Unspaced(name[..8]) + [DOT] + Unspaced(name[8..]) + [0]
  {
    hide Unspaced;
  }

  /** Two fields with a dot between them, the second up to the final zero. */
  lemma NamesFrom(s: seq<Byte>, f: seq<Byte>, g: seq<Byte>, start: nat, dot: nat)
    requires Text(s) && NameStart(s) == start && dot + 1 < |s| && s[dot] == DOT && Terminator(DOT) && Terminator(s[|s| - 1])
    requires Field(s, start, 8) == (f, dot) && Field(s, dot + 1, 3) == (g, |s| - 1)
    ensures NameOf(s) == f && TypeOf(s) == g && TypeEnd(s) == |s| - 1
  {
    hide Field, NameStart, Terminator;
  }

  /** Parsing what was printed gives the FCB back exactly if it is well formed; then all of the text is used. */
  lemma PrintedParsesExactly(drive: Byte, name: seq<Byte>)
    requires |name| == 11
    ensures var p := Parse(Render(drive, name));
            !p.error && p.fcb == [drive] + name + [0, 0, 0, 0] <==> WellFormed(drive, name)
    ensures WellFormed(drive, name) ==> Parse(Render(drive, name)).next == |Render(drive, name)| - 1
  {
    var s := Render(drive, name);
    PartsOf([drive], name[..8], name[8..], [0, 0, 0, 0]);
    assert name == name[..8] + name[8..];
    assert [drive] + name + [0, 0, 0, 0] == [drive] + name[..8] + name[8..] + [0, 0, 0, 0];
    if WellFormed(drive, name) {
      DriveReadsBack(drive, name);
      NamesReadBack(drive, name);
    } else {
      ParsedIsWellFormed(s);
      hide Parse, Render, WellFormed;
    }
  }

  /** What parsing makes of any text is well formed, but for the drive where it reports an error. */
  lemma ParsedIsWellFormed(s: seq<Byte>)
    requires Text(s)
    ensures var p := Parse(s);
            && (!p.error <==> WellFormed(p.fcb[0], p.fcb[1..12]))
            && p.fcb[12..] == [0, 0, 0, 0]
  {
    PartsArePadded(s);
    hide DriveOf, NameOf, TypeOf, TypeEnd, Text, Terminator, Padded;
    PartsOf([DriveOf(s)], NameOf(s), TypeOf(s), [0, 0, 0, 0]);
  }

  lemma PartsArePadded(s: seq<Byte>)
    requires Text(s)
    ensures Padded(NameOf(s)) && Padded(TypeOf(s))
  {
    hide Field, NameEnd, NameStart, SkipTo, Text, Terminator, Padded;
    FieldIsPadded(s, NameStart(s), 8);
    SpacesArePadded([SPACE, SPACE, SPACE]);
    if s[NameEnd(s)] == DOT {
      FieldIsPadded(s, NameEnd(s) + 1, 3);
    }
  }

  lemma SpacesArePadded(f: seq<Byte>)
    requires AllSpaces(f)
    ensures Padded(f)
  {
  }

  lemma PartsOf(d: seq<Byte>, n: seq<Byte>, e: seq<Byte>, z: seq<Byte>)
    requires |d| == 1 && |n| == 8 && |e| == 3 && |z| == 4
    ensures var fcb := d + n + e + z;
            && fcb[0] == d[0] && fcb[1..12] == n + e && fcb[1..12][..8] == n && fcb[1..12][8..] == e && fcb[12..] == z
  {
  }

  /** So any text that is parsed without error, printed and parsed again, gives the same FCB. */
  lemma ReparseIsSame(s: seq<Byte>)
    requires Text(s) && !Parse(s).error
    ensures var p := Parse(s);
            Parse(Render(p.fcb[0], p.fcb[1..12])).fcb == p.fcb
  {
    var p := Parse(s);
    ParsedIsWellFormed(s);
    PrintedParsesExactly(p.fcb[0], p.fcb[1..12]);
    assert p.fcb == [p.fcb[0]] + p.fcb[1..12] + p.fcb[12..];
  }

  // ---------- the characters ----------

  /** The characters that end a name: control characters, and ` ,./:<=>[]|`. */
  lemma TerminatorsAre(c: Byte)
    ensures Terminator(c)
       <==> c == 0 || c == 9 || c == 10 || c == 13 || c == 32 || c == 44 || c == 46 || c == 47 || c == 58
            || 60 <= c <= 62 || c == 91 || c == 93 || c == 124 || c == 127
  {
    hide Terminator, TERMINATORS;
    Those();
    if Terminator(c) {
      OnlyThose(c);
    }
  }

  lemma OnlyThose(c: Byte)
    requires Terminator(c)
    ensures c == 0 || c == 9 || c == 10 || c == 13 || c == 32 || c == 44 || c == 46 || c == 47 || c == 58
            || 60 <= c <= 62 || c == 91 || c == 93 || c == 124 || c == 127
  {
  }

  lemma Those()
    ensures Terminator(0) && Terminator(9) && Terminator(10) && Terminator(13) && Terminator(32)
    ensures Terminator(44) && Terminator(46) && Terminator(47) && Terminator(58) && Terminator(60)
    ensures Terminator(61) && Terminator(62) && Terminator(91) && Terminator(93) && Terminator(124) && Terminator(127)
  {
  }

  /** Two texts that differ in the case of letters only. */
  predicate SameLetters(s: seq<Byte>, t: seq<Byte>)
  {
    |s| == |t| && forall i :: 0 <= i < |s| ==> s[i] == t[i] || (97 <= s[i] <= 122 && t[i] == s[i] - 32)
  }

  /** A text and any capitalised form of it parse alike. */
  lemma CaseIsIgnored(s: seq<Byte>, t: seq<Byte>)
    requires Text(s) && Text(t) && SameLetters(s, t)
    ensures Parse(s) == Parse(t)
  {
    hide Field, SkipTo, DriveOf, NameStart, NameEnd, NameOf, TypeOf, TypeEnd, Upper, SameLetters, Text, Terminator;
    SameDrive(s, t);
    SameName(s, t);
    SameType(s, t);
  }

  lemma SameType(s: seq<Byte>, t: seq<Byte>)
    requires Text(s) && Text(t) && SameLetters(s, t)
    ensures TypeOf(s) == TypeOf(t) && TypeEnd(s) == TypeEnd(t)
  {
    hide Field, SkipTo, NameStart, NameEnd, NameOf, Upper, SameLetters, Text, Terminator;
    SameName(s, t);
    if s[NameEnd(s)] == DOT {
      SameField(s, t, NameEnd(s) + 1, 3);
      SameSkip(s, t, Field(s, NameEnd(s) + 1, 3).1);
    }
  }

  lemma SameDrive(s: seq<Byte>, t: seq<Byte>)
    requires Text(s) && Text(t) && SameLetters(s, t)
    ensures DriveOf(s) == DriveOf(t) && NameStart(s) == NameStart(t)
  {
    assert HasDrive(s) <==> HasDrive(t);
    assert Upper(s[0]) == Upper(t[0]);
    hide Upper, HasDrive, Text, SameLetters;
  }

  lemma SameName(s: seq<Byte>, t: seq<Byte>)
    requires Text(s) && Text(t) && SameLetters(s, t)
    ensures NameOf(s) == NameOf(t) && NameEnd(s) == NameEnd(t) && (s[NameEnd(s)] == DOT <==> t[NameEnd(t)] == DOT)
  {
    SameDrive(s, t);
    SameField(s, t, NameStart(s), 8);
    SameSkip(s, t, Field(s, NameStart(s), 8).1);
    DotStays(s, t, NameEnd(s));
    hide Field, SkipTo, DriveOf, NameStart, Upper, SameLetters, Text, Terminator;
  }

  lemma DotStays(s: seq<Byte>, t: seq<Byte>, y: nat)
    requires SameLetters(s, t) && y < |s|
    ensures s[y] == DOT <==> t[y] == DOT
  {
  }

  lemma {:induction false} SameField(s: seq<Byte>, t: seq<Byte>, y: nat, n: nat)
    requires Text(s) && Text(t) && SameLetters(s, t) && y < |s|
    ensures Field(s, y, n) == Field(t, y, n)
    decreases n
  {
    if n > 0 {
      UpperTerminator(s[y]);
      UpperTerminator(t[y]);
      SameField(s, t, y, n - 1);
      if !Terminator(s[y]) {
        NotTheEnd(s, y);
        SameField(s, t, y + 1, n - 1);
      }
      assert Upper(s[y]) == Upper(t[y]);
      hide Upper, Terminator, SameLetters;
    }
  }

  lemma {:induction false} SameSkip(s: seq<Byte>, t: seq<Byte>, y: nat)
    requires Text(s) && Text(t) && SameLetters(s, t) && y < |s|
    ensures SkipTo(s, y) == SkipTo(t, y)
    decreases |s| - y
  {
    UpperTerminator(s[y]);
    UpperTerminator(t[y]);
    assert Upper(s[y]) == Upper(t[y]);
    hide Upper, Terminator, SameLetters;
    if !Terminator(s[y]) {
      NotTheEnd(s, y);
      SameSkip(s, t, y + 1);
    }
  }

  /**
   The characters of a field whose text runs from y up to a terminator or a star at e: those of the text in
   capitals, and then spaces or question marks.
   */
  lemma {:induction false} FieldCharacters(s: seq<Byte>, y: nat, e: nat, n: nat, k: nat)
    requires Text(s) && y <= e < |s| && k < n
    requires forall i :: y <= i < e ==> !Terminator(s[i]) && s[i] != 42
    requires Terminator(s[e]) || s[e] == 42
    ensures Field(s, y, n).0[k] as int
         == if y + k < e then (if 97 <= s[y + k] <= 122 then s[y + k] - 32 else s[y + k])
            else if s[e] == 42 then 63
            else 32
    ensures Field(s, y, n).1 == if y + n < e then y + n else e
    decreases n
  {
    hide Terminator, Text, Field, Upper;
    FirstCharacter(s, y, n);
    var y' := if y < e then y + 1 else y;
    if n > 1 {
      FieldCharacters(s, y', e, n - 1, if k == 0 then 0 else k - 1);
    } else {
      NoField(s, y');
    }
  }

  lemma FirstCharacter(s: seq<Byte>, y: nat, n: nat)
    requires Text(s) && y < |s| && n > 0
    ensures var last := Terminator(s[y]) || s[y] == 42;
            && (!last ==> y + 1 < |s|)
            && var f, rest := Field(s, y, n), Field(s, if last then y else y + 1, n - 1);
               && f.1 == rest.1 && f.0[1..] == rest.0
               && f.0[0] as int
                  == if s[y] == 42 then 63 else if last then 32 else if 97 <= s[y] <= 122 then s[y] - 32 else s[y]
  {
    FieldFirst(s, y, n);
    UpperTerminator(s[y]);
    Stars(s[y]);
    NoStars();
    hide Terminator, Text, Field, Upper;
  }

  lemma NoStars()
    ensures !Terminator(42)
  {
  }

  lemma NoField(s: seq<Byte>, y: nat)
    requires Text(s) && y < |s|
    ensures Field(s, y, 0) == ([], y)
  {
  }

  lemma Stars(c: Byte)
    ensures (Upper(c) == STAR <==> c == 42) && (!(97 <= c <= 122) ==> Upper(c) == c)
    ensures 97 <= c <= 122 ==> Upper(c) == c - 32
  {
  }

  // ---------- the parser ----------

  method IsTerminatorChar(a: Byte) returns (carry: bool)
    ensures carry <==> Terminator(a)
  {
    var x := |TERMINATORS| - 1;
    while true
      invariant 0 <= x < |TERMINATORS| && a !in TERMINATORS[x + 1..]
      decreases x
    {
      if a == TERMINATORS[x] {
        return true;
      }
      assert TERMINATORS[x..] == [TERMINATORS[x]] + TERMINATORS[x + 1..];
      x := x - 1;
      if x < 0 {
        assert TERMINATORS[0..] == TERMINATORS;
        return false;
      }
    }
  }

  /** Pushes n characters of a name. */
  method PushField(s: seq<Byte>, y: nat, n: nat, stack: seq<Byte>) returns (y': nat, stack': seq<Byte>)
    requires Text(s) && y < |s| && n > 0
    ensures stack' == stack + Field(s, y, n).0 && y' == Field(s, y, n).1
  {
    y', stack' := y, stack;
    var x := n;
    while true
      invariant 0 < x <= n && y' < |s|
      invariant stack' + Field(s, y', x).0 == stack + Field(s, y, n).0 && Field(s, y', x).1 == Field(s, y, n).1
      decreases x
    {
      var at: int := y';
      var a := Upper(s[at]);
      var terminator := IsTerminatorChar(a);
      UpperTerminator(s[at]);
      FieldFirst(s, at, x);
      hide Field, Upper;
      if terminator {
        a := 32;
        at := at - 1;
      } else {
        NotTheEnd(s, at);
      }
      if a == 42 {
        a := 63;
        at := at - 1;
      }
      stack' := stack' + [a];
      y' := at + 1;
      x := x - 1;
      if x == 0 {
        break;
      }
    }
    assert Field(s, y', 0).0 == [];
  }

  lemma FieldFirst(s: seq<Byte>, y: nat, n: nat)
    requires Text(s) && y < |s| && n > 0
    ensures var c := Upper(s[y]);
            var stay := Terminator(c) || c == STAR;
            && (!stay ==> y + 1 < |s|)
            && var r, rest := Field(s, y, n), Field(s, if stay then y else y + 1, n - 1);
               r.1 == rest.1 && r.0 == [if Terminator(c) then SPACE else if c == STAR then QUERY else c] + rest.0
  {
    UpperTerminator(s[y]);
    if !Terminator(s[y]) {
      NotTheEnd(s, y);
    }
  }

  method SkipName(s: seq<Byte>, y: nat) returns (y': nat)
    requires Text(s) && y < |s|
    ensures y' == SkipTo(s, y)
  {
    y' := y;
    while true
      invariant y' < |s| && SkipTo(s, y') == SkipTo(s, y)
      decreases |s| - y'
    {
      var terminator := IsTerminatorChar(s[y']);
      if terminator {
        return;
      }
      NotTheEnd(s, y');
      y' := y' + 1;
    }
  }

  /** bdos_PARSEFCB: the sixteen bytes go through the stack. */
  method ParseFcb(s: seq<Byte>) returns (fcb: seq<Byte>, next: nat, carry: bool)
    requires Text(s)
    ensures Parsed(fcb, next, carry) == Parse(s)
  {
    hide Field, SkipTo, Upper, Terminator, DriveOf, NameStart, HasDrive;
    var x, y, failure := ReadDrive(s);
    var stack := [x];
    y, stack := PushField(s, y, 8, stack);
    y := SkipName(s, y);
    assert y == NameEnd(s) && stack == [x] + NameOf(s);
    hide NameOf, NameEnd;
    if s[y] == 46 {
      y, stack := PushField(s, y + 1, 3, stack);
      y := SkipName(s, y);
    } else {
      stack := stack + [32, 32, 32];
    }
    stack := stack + [0, 0, 0, 0];
    fcb, next, carry := stack, y, failure;
  }

  method ReadDrive(s: seq<Byte>) returns (x: Byte, y: nat, failure: bool)
    requires Text(s)
    ensures x == DriveOf(s) && y == NameStart(s) && (failure <==> DriveOf(s) >= 16)
  {
    x, y, failure := 0, 0, false;
    if s[0] != 0 && s[1] == 58 {
      x := ToByte(Upper(s[0]) as int - 64);
      if x >= 16 {
        failure := true;
      }
      y := 2;
    }
  }
}
