/**
 Directory entries, how an FCB is matched against them and how far a search goes
 (src/bdos/filesystem.S:608-679, 1206-1277, 1428-1536).
 */
module Directory {
  import opened Bytes

  type Entry = e: seq<Byte> | |e| == 32 witness seq(32, _ => 0)
  type Fcb = f: seq<Byte> | |f| == 36 witness seq(36, _ => 0)

  // Offsets in an FCB; the first 32 bytes are laid out like a directory entry.
  const DR: nat := 0      // drive, replaced by the user code
  const T1: nat := 9      // top bit: read only
  const T3: nat := 11
  const EX: nat := 12
  const S1: nat := 13
  const S2: nat := 14     // module; top bit: not modified
  const RC: nat := 15
  const AL: nat := 16
  const CR: nat := 32

  const DELETED: Byte := 0xe5
  const ANY: Byte := 0x3f      // '?'
  const NOWHERE: Word := 0xffff

  predicate Live(e: Entry) { e[DR] != DELETED }

  // ---------- matching ----------

  /** `eor #$ff; and`: the bits outside the extent mask, which is one less than a power of two. */
  function Masked(b: Byte, extentMask: Byte): Byte { b - b % (extentMask + 1) }

  lemma MaskedEnds(extentMask: Byte)
    requires extentMask < 0x10
    ensures Masked(extentMask, extentMask) == 0 && Masked(extentMask + 1, extentMask) == extentMask + 1
  {
    OwnRest(extentMask + 1);
  }

  lemma OwnRest(m: int)
    requires m > 0
    ensures m % m == 0 && (m - 1) % m == m - 1
  {
  }

  /** Byte y of an FCB against byte y of an entry. */
  predicate SameByte(extentMask: Byte, y: nat, f: Byte, e: Byte)
  {
    || f == ANY
    || y == S1
    || (if y == EX then ToByte(Masked(e, extentMask) - Masked(f, extentMask)) % 0x20 == 0
        else ToByte(f - e) % 0x80 == 0)
  }

  predicate Matches(extentMask: Byte, f: Fcb, e: Entry, n: nat)
    requires n <= 32
  {
    forall y :: 0 <= y < n ==> SameByte(extentMask, y, f[y], e[y])
  }

  method MatchEntry(extentMask: Byte, f: Fcb, e: Entry, n: nat) returns (same: bool)
    requires 0 < n <= 32
    ensures same <==> Matches(extentMask, f, e, n)
  {
    var y := 0;
    while true
      invariant 0 <= y < n && Matches(extentMask, f, e, y)
      decreases n - y
    {
      var a: int := f[y];
      if a != 0x3f && y != S1 {
        if y == EX {
          var tempb: int := Masked(f[y], extentMask);
          a := Masked(e[y], extentMask);
          if ToByte(a - tempb) % 0x20 != 0 {
            assert !SameByte(extentMask, y, f[y], e[y]);
            return false;
          }
        } else if ToByte(a - e[y]) % 0x80 != 0 {
          assert !SameByte(extentMask, y, f[y], e[y]);
          return false;
        }
      }
      y := y + 1;
      if y == n {
        return true;
      }
    }
  }

  /** The least matching entry from `from` up to `last`. */
  function NextMatch(directory: seq<Entry>, extentMask: Byte, f: Fcb, n: nat, from: nat, last: int): Option<nat>
    requires last < |directory| && n <= 32
    decreases last - from
  {
    if from > last then Nothing
    else if Matches(extentMask, f, directory[from], n) then Just(from)
    else NextMatch(directory, extentMask, f, n, from + 1, last)
  }

  lemma {:induction false} NextMatchIsFirst(directory: seq<Entry>, extentMask: Byte, f: Fcb, n: nat, from: nat, last: int)
    requires last < |directory| && n <= 32
    ensures var r := NextMatch(directory, extentMask, f, n, from, last);
            match r
            case Just(i) =>
              && from <= i <= last && Matches(extentMask, f, directory[i], n)
              && forall j :: from <= j < i ==> !Matches(extentMask, f, directory[j], n)
            case Nothing => forall j :: from <= j <= last ==> !Matches(extentMask, f, directory[j], n)
    decreases last - from
  {
    if from <= last && !Matches(extentMask, f, directory[from], n) {
      NextMatchIsFirst(directory, extentMask, f, n, from + 1, last);
    }
  }

  // ---------- keys ----------

  const KEY: nat := 15      // the bytes that tell entries apart: user, name, type, extent group, module

  /** What of byte y counts. */
  function KeyPart(extentMask: Byte, y: nat, b: Byte): Byte
  {
    if y == S1 then 0 else if y == EX then Masked(b, extentMask) % 0x20 else b % 0x80
  }

  function Key(extentMask: Byte, e: seq<Byte>): (k: seq<Byte>)
    requires |e| >= 32
    ensures |k| == KEY
  {
    seq(KEY, y requires 0 <= y < KEY => KeyPart(extentMask, y, e[y]))
  }

  /** None of the key bytes is a wildcard. */
  predicate Plain(e: seq<Byte>)
    requires |e| >= 32
  {
    forall y :: 0 <= y < KEY && y != S1 ==> e[y] != ANY
  }

  lemma SameByteIsSameKey(extentMask: Byte, y: nat, f: Byte, e: Byte)
    requires f != ANY
    ensures SameByte(extentMask, y, f, e) <==> KeyPart(extentMask, y, f) == KeyPart(extentMask, y, e)
  {
    if y == EX {
      ModDifference32(Masked(e, extentMask), Masked(f, extentMask));
    } else {
      ModDifference(f, e);
    }
  }

  lemma ModDifference32(a: Byte, b: Byte)
    ensures ToByte(a - b) % 0x20 == 0 <==> a % 0x20 == b % 0x20
  {
    var x: int, y: int := a, b;
    var turn := if x >= y then 0 else 1;
    assert ToByte(x - y) == x - y + 0x100 * turn;
    Multiples(x, y, turn);
  }

  lemma Multiples(x: int, y: int, turn: int)
    ensures (x - y + 0x100 * turn) % 0x20 == 0 <==> x % 0x20 == y % 0x20
  {
    var i, j := x / 0x20, y / 0x20;
    assert x == 0x20 * i + x % 0x20 && y == 0x20 * j + y % 0x20;
    assert x - y + 0x100 * turn == 0x20 * (i - j + 8 * turn) + (x % 0x20 - y % 0x20);
  }

  /** Matching is having the same key, byte by byte, but for the wildcards. */
  lemma MatchesByKey(extentMask: Byte, f: Fcb, e: Entry)
    ensures Matches(extentMask, f, e, KEY)
       <==> forall y :: 0 <= y < KEY ==> y == S1 || f[y] == ANY || Key(extentMask, f)[y] == Key(extentMask, e)[y]
  {
    hide KeyPart, SameByte;
    forall y | 0 <= y < KEY
      ensures SameByte(extentMask, y, f[y], e[y])
         <==> y == S1 || f[y] == ANY || KeyPart(extentMask, y, f[y]) == KeyPart(extentMask, y, e[y])
    {
      ByteByKey(extentMask, y, f[y], e[y]);
    }
    var k, l := Key(extentMask, f), Key(extentMask, e);
    assert forall y :: 0 <= y < KEY ==> k[y] == KeyPart(extentMask, y, f[y]) && l[y] == KeyPart(extentMask, y, e[y]);
  }

  lemma ByteByKey(extentMask: Byte, y: nat, f: Byte, e: Byte)
    ensures SameByte(extentMask, y, f, e)
       <==> y == S1 || f == ANY || KeyPart(extentMask, y, f) == KeyPart(extentMask, y, e)
  {
    if f != ANY && y != S1 {
      SameByteIsSameKey(extentMask, y, f, e);
    }
  }

  lemma SameIgnored(extentMask: Byte, f: Fcb, e: Entry)
    ensures Key(extentMask, f)[S1] == Key(extentMask, e)[S1]
  {
  }

  predicate IsExtentMask(m: Byte) { m == 0 || m == 1 || m == 3 || m == 7 || m == 15 }

  /**
   What matching means, with n of the key's bytes compared: user, name and type are the same in seven
   bits and the extents are of one group, except where the FCB has a question mark.
   */
  lemma MatchesExactly(extentMask: Byte, f: Fcb, e: Entry, n: nat)
    requires n <= 15 && IsExtentMask(extentMask)
    ensures Matches(extentMask, f, e, n)
       <==> forall y :: 0 <= y < n && y != 13 && f[y] != 0x3f ==>
              if y == 12 then f[12] % 0x20 / (extentMask + 1) == e[12] % 0x20 / (extentMask + 1)
              else f[y] % 0x80 == e[y] % 0x80
  {
    hide SameByte, KeyPart, IsExtentMask;
    forall y | 0 <= y < n
      ensures SameByte(extentMask, y, f[y], e[y])
         <==> (y != 13 && f[y] != 0x3f ==>
                 if y == 12 then f[12] % 0x20 / (extentMask + 1) == e[12] % 0x20 / (extentMask + 1)
                 else f[y] % 0x80 == e[y] % 0x80)
    {
      ByteByKey(extentMask, y, f[y], e[y]);
      PartOfKey(extentMask, y, f[y], e[y]);
    }
  }

  lemma PartOfKey(extentMask: Byte, y: nat, f: Byte, e: Byte)
    requires IsExtentMask(extentMask)
    ensures S1 == 13 && ANY == 0x3f
    ensures y != 13 ==>
              (KeyPart(extentMask, y, f) == KeyPart(extentMask, y, e)
               <==> if y == 12 then f % 0x20 / (extentMask + 1) == e % 0x20 / (extentMask + 1) else f % 0x80 == e % 0x80)
  {
    GroupsByMask(extentMask, f);
    GroupsByMask(extentMask, e);
    hide Masked;
    var k: int := extentMask + 1;
    SameMultiple(k, f % 0x20 / k, e % 0x20 / k);
  }

  lemma SameMultiple(k: int, a: int, b: int)
    requires k > 0
    ensures a * k == b * k <==> a == b
  {
    Multiple(k, a - b);
  }

  /** The bits outside the mask are the number of the group. */
  lemma GroupsByMask(extentMask: Byte, b: Byte)
    requires IsExtentMask(extentMask)
    ensures Masked(b, extentMask) % 0x20 == b % 0x20 / (extentMask + 1) * (extentMask + 1)
  {
    var k: int := extentMask + 1;
    Grouped(b, k, if k == 1 then 32 else if k == 2 then 16 else if k == 4 then 8 else if k == 8 then 4 else 2);
  }

  lemma Grouped(n: nat, k: nat, m: nat)
    requires k > 0 && k * m == 0x20
    ensures (n - n % k) % 0x20 == n % 0x20 / k * k
  {
    var q, r := n / 0x20, n % 0x20;
    WholeAndRest(r, k);
    Regrouped(n, k, m, q, r / k, r % k);
  }

  lemma Regrouped(n: nat, k: nat, m: nat, q: nat, j: nat, t: nat)
    requires k > 0 && k * m == 0x20 && t < k && k * j + t < 0x20 && n == 0x20 * q + (k * j + t)
    ensures (n - n % k) % 0x20 == k * j
  {
    assert 0x20 * q == k * (m * q);
    assert n == k * (m * q + j) + t;
    RestIs(k, m * q + j, t);
  }

  /** Entries of the same key match the same FCBs. */
  lemma SameKeySameMatch(extentMask: Byte, f: Fcb, e: Entry, e': Entry)
    requires Key(extentMask, e) == Key(extentMask, e')
    ensures Matches(extentMask, f, e, KEY) <==> Matches(extentMask, f, e', KEY)
  {
    MatchesByKey(extentMask, f, e);
    MatchesByKey(extentMask, f, e');
    hide Matches, Key;
  }

  /** An FCB matches all entries of its key. */
  lemma OwnKeyMatches(extentMask: Byte, f: Fcb, e: Entry)
    requires Key(extentMask, f) == Key(extentMask, e)
    ensures Matches(extentMask, f, e, KEY)
  {
    MatchesByKey(extentMask, f, e);
    hide Matches, Key;
  }

  /**
   It matches no others if and only if it has no wildcard. That is why module 63 is out of bounds: its
   number, in an FCB that is marked as modified, is a question mark.
   */
  lemma MatchesOwnKeyExactly(extentMask: Byte, f: Fcb)
    requires extentMask < 0x10
    ensures (forall e: Entry :: Matches(extentMask, f, e, KEY) <==> Key(extentMask, f) == Key(extentMask, e)) <==> Plain(f)
  {
    if Plain(f) {
      forall e: Entry
        ensures Matches(extentMask, f, e, KEY) <==> Key(extentMask, f) == Key(extentMask, e)
      {
        MatchesIsSameKey(extentMask, f, e);
      }
    } else {
      var y :| 0 <= y < KEY && y != S1 && f[y] == ANY;
      var e: Entry := f[..32][y := 0];
      OtherKey(extentMask, y);
      MatchesByKey(extentMask, f, e);
      hide KeyPart, Matches;
      var k, l := Key(extentMask, f), Key(extentMask, e);
      assert k[y] == KeyPart(extentMask, y, ANY) && l[y] == KeyPart(extentMask, y, 0);
      assert forall x :: 0 <= x < KEY && x != y ==> k[x] == l[x];
    }
  }

  lemma OtherKey(extentMask: Byte, y: nat)
    requires y != S1 && extentMask < 0x10
    ensures KeyPart(extentMask, y, ANY) != KeyPart(extentMask, y, 0)
  {
  }

  /** Without wildcards, matching is having the same key. */
  lemma MatchesIsSameKey(extentMask: Byte, f: Fcb, e: Entry)
    requires Plain(f)
    ensures Matches(extentMask, f, e, KEY) <==> Key(extentMask, f) == Key(extentMask, e)
  {
    MatchesByKey(extentMask, f, e);
    SameIgnored(extentMask, f, e);
    hide Matches, Key;
  }

  // ---------- the high-water mark ----------

  /** No live entry lies beyond the mark. */
  ghost predicate HighWater(directory: seq<Entry>, cdrmax: Word)
  {
    forall i :: 0 <= i < |directory| && Live(directory[i]) ==> i <= cdrmax
  }

  /** Where a search stops: at the mark, unless deleted entries are what it is for. */
  function SearchEnd(directory: seq<Entry>, cdrmax: Word, f: Fcb): int
  {
    if f[DR] == DELETED || |directory| - 1 <= cdrmax then |directory| - 1 else cdrmax
  }

  /** The first byte of an FCB also matches the first byte of a deleted entry. */
  predicate SeesDeleted(first: Byte) { first == ANY || first % 0x80 == DELETED % 0x80 }

  lemma DeletedSeen(extentMask: Byte, f: Fcb, e: Entry, n: nat)
    requires !Live(e) && 0 < n <= 32 && Matches(extentMask, f, e, n)
    ensures SeesDeleted(f[DR])
  {
    assert SameByte(extentMask, 0, f[0], e[0]);
    ModDifference(f[DR], DELETED);
  }

  lemma ModDifference(a: Byte, b: Byte)
    ensures ToByte(a - b) % 0x80 == 0 <==> a % 0x80 == b % 0x80
  {
    var d: int := a - b;
    assert ToByte(d) % 0x80 == d % 0x80;
  }

  lemma {:induction false} NextMatchStops(directory: seq<Entry>, extentMask: Byte, f: Fcb, n: nat, from: nat, end: int, last: int)
    requires end <= last < |directory| && n <= 32
    requires forall j :: end < j <= last && 0 <= j ==> !Matches(extentMask, f, directory[j], n)
    ensures NextMatch(directory, extentMask, f, n, from, end) == NextMatch(directory, extentMask, f, n, from, last)
    decreases last - from
  {
    hide Matches;
    if from <= last {
      if from > end || !Matches(extentMask, f, directory[from], n) {
        NextMatchStops(directory, extentMask, f, n, from + 1, end, last);
      }
    }
  }

  /** With the mark in place, stopping early finds what a search of the whole directory would. */
  lemma EarlyExit(directory: seq<Entry>, cdrmax: Word, extentMask: Byte, f: Fcb, n: nat, from: nat)
    requires HighWater(directory, cdrmax) && 0 < n <= 32
    requires f[DR] == DELETED || !SeesDeleted(f[DR])
    ensures NextMatch(directory, extentMask, f, n, from, SearchEnd(directory, cdrmax, f))
         == NextMatch(directory, extentMask, f, n, from, |directory| - 1)
  {
    var end := SearchEnd(directory, cdrmax, f);
    forall j | end < j <= |directory| - 1
      ensures !Matches(extentMask, f, directory[j], n)
    {
      if Matches(extentMask, f, directory[j], n) {
        DeletedSeen(extentMask, f, directory[j], n);
      }
    }
    NextMatchStops(directory, extentMask, f, n, from, end, |directory| - 1);
  }

  /** From any place on, the search with the mark gives the match that the whole directory gives. */
  ghost predicate Transparent(directory: seq<Entry>, cdrmax: Word, extentMask: Byte, f: Fcb, n: nat)
    requires n <= 32
  {
    forall from: nat ::
      NextMatch(directory, extentMask, f, n, from, SearchEnd(directory, cdrmax, f))
      == NextMatch(directory, extentMask, f, n, from, |directory| - 1)
  }

  /**
   The mark is transparent for exactly the FCBs that do not also match deleted entries: with '?' in
   the first byte, or a user code that agrees with the deleted mark in its low seven bits, a search
   misses deleted entries beyond the mark that it would report below it.
   */
  lemma TransparentExactly(drm: Word, cdrmax: Word, extentMask: Byte, f: Fcb, n: nat)
    requires 0 < n <= 32
    ensures (forall directory: seq<Entry> :: |directory| == drm + 1 && HighWater(directory, cdrmax) ==>
               Transparent(directory, cdrmax, extentMask, f, n))
       <==> drm <= cdrmax || f[DR] == DELETED || !SeesDeleted(f[DR])
  {
    if drm <= cdrmax {
    } else if f[DR] == DELETED || !SeesDeleted(f[DR]) {
      forall directory: seq<Entry>, from: nat | |directory| == drm + 1 && HighWater(directory, cdrmax)
        ensures NextMatch(directory, extentMask, f, n, from, SearchEnd(directory, cdrmax, f))
             == NextMatch(directory, extentMask, f, n, from, |directory| - 1)
      {
        EarlyExit(directory, cdrmax, extentMask, f, n, from);
      }
    } else {
      MissesDeleted(drm, cdrmax, extentMask, f, n);
    }
  }

  /** A directory of deleted entries, all of which match. */
  lemma MissesDeleted(drm: Word, cdrmax: Word, extentMask: Byte, f: Fcb, n: nat)
    requires 0 < n <= 32 && cdrmax < drm && f[DR] != DELETED && SeesDeleted(f[DR])
    ensures exists directory: seq<Entry> :: |directory| == drm + 1 && HighWater(directory, cdrmax) &&
              !Transparent(directory, cdrmax, extentMask, f, n)
  {
    var twin: Entry := [DELETED] + f[1..32];
    var directory: seq<Entry> := seq(drm + 1, _ => twin);
    TwinMatches(extentMask, f, n);
    hide Matches;
    var from: nat := cdrmax + 1;
    assert NextMatch(directory, extentMask, f, n, from, SearchEnd(directory, cdrmax, f)) == Nothing;
    assert NextMatch(directory, extentMask, f, n, from, |directory| - 1) == Just(from);
    assert HighWater(directory, cdrmax) && !Transparent(directory, cdrmax, extentMask, f, n);
  }

  lemma TwinMatches(extentMask: Byte, f: Fcb, n: nat)
    requires n <= 32 && SeesDeleted(f[DR])
    ensures Matches(extentMask, f, [DELETED] + f[1..32], n)
  {
    var e: Entry := [DELETED] + f[1..32];
    forall y | 0 <= y < n
      ensures SameByte(extentMask, y, f[y], e[y])
    {
      if y == 0 {
        ModDifference(f[DR], DELETED);
      }
    }
  }

  // ---------- the mark kept up to date ----------

  /**
   update_cdrmax. The high byte it stores is the difference left over from comparing, not the high
   byte of the position.
   */
  function UpdateCdrmax(cdrmax: Word, position: Word): Word
  {
    var borrow := if Lo(position) < Lo(cdrmax) then 1 else 0;
    var high: int := Hi(position) - Hi(cdrmax) - borrow;
    if high >= 0 then Pair(Lo(position), high) else cdrmax
  }

  /** The mark becomes what it should exactly when it stays put or the subtraction leaves the high byte alone. */
  lemma UpdateCdrmaxExactly(cdrmax: Word, position: Word)
    ensures UpdateCdrmax(cdrmax, position) == (if position >= cdrmax then position else cdrmax)
       <==> position < cdrmax || (cdrmax < 0x100 && Lo(position) >= cdrmax)
  {
    var ph: int, pl: int, ch: int, cl: int := Hi(position), Lo(position), Hi(cdrmax), Lo(cdrmax);
    assert position == 0x100 * ph + pl && cdrmax == 0x100 * ch + cl;
    var borrow := if pl < cl then 1 else 0;
    assert position >= cdrmax <==> ph - ch - borrow >= 0;
    assert cdrmax < 0x100 <==> ch == 0;
    hide Lo, Hi;
  }

  /** The mark after the positions 0 to n-1 of a directory were looked at, from a mark of zero. */
  function LoginCdrmax(directory: seq<Entry>, n: nat): Word
    requires n <= |directory| <= 0x1_0000
  {
    if n == 0 then 0
    else
      var before := LoginCdrmax(directory, n - 1);
      if Live(directory[n - 1]) then UpdateCdrmax(before, n - 1) else before
  }

  lemma {:induction false} SmallLoginCdrmax(directory: seq<Entry>, n: nat)
    requires n <= |directory| <= 0x100
    ensures LoginCdrmax(directory, n) < 0x100 && (n > 0 ==> LoginCdrmax(directory, n) < n)
    ensures forall i :: 0 <= i < n && Live(directory[i]) ==> i <= LoginCdrmax(directory, n)
  {
    if n > 0 {
      SmallLoginCdrmax(directory, n - 1);
    }
  }

  lemma {:induction false} DeletedLoginCdrmax(directory: seq<Entry>, n: nat)
    requires n <= |directory| <= 0x1_0000
    requires forall i :: 0 <= i < n ==> !Live(directory[i])
    ensures LoginCdrmax(directory, n) == 0
  {
    if n > 0 {
      DeletedLoginCdrmax(directory, n - 1);
    }
  }

  /** Logging in bounds every live entry of every directory exactly for directories of at most 256 entries. */
  lemma LoginBoundsExactly(drm: Word)
    ensures (forall directory: seq<Entry> :: |directory| == drm + 1 ==>
               HighWater(directory, LoginCdrmax(directory, |directory|)))
       <==> drm < 0x100
  {
    if drm < 0x100 {
      forall directory: seq<Entry> | |directory| == drm + 1
        ensures HighWater(directory, LoginCdrmax(directory, |directory|))
      {
        SmallLoginCdrmax(directory, |directory|);
      }
    } else {
      BoundLost(drm);
    }
  }

  /** Live entries 255 and 256 put the mark back to 0. */
  lemma BoundLost(drm: Word)
    requires drm >= 0x100
    ensures exists directory: seq<Entry> :: |directory| == drm + 1 &&
              !HighWater(directory, LoginCdrmax(directory, |directory|))
  {
    var dead: Entry := seq(32, _ => DELETED);
    var alive: Entry := seq(32, _ => 0);
    var directory: seq<Entry> := seq(drm + 1, i => if i == 0xff || i == 0x100 then alive else dead);
    assert Live(alive) && !Live(dead);
    hide LoginCdrmax, HighWater;
    MarkWraps(directory, 0xff);
    NotHighWater(directory, 0, 0x100);
  }

  lemma MarkWraps(directory: seq<Entry>, n: Word)
    requires n == 0xff && n + 1 < |directory| <= 0x1_0000
    requires forall i :: 0 <= i < |directory| ==> (Live(directory[i]) <==> i == n || i == n + 1)
    ensures LoginCdrmax(directory, |directory|) == 0
  {
    hide *;
    Wrapping();
    DeletedLoginCdrmax(directory, n);
    LoginStep(directory, n);
    LoginStep(directory, n + 1);
    DeletedTail(directory, n + 2, |directory|);
  }

  lemma Wrapping()
    ensures UpdateCdrmax(0, 0xff) == 0xff && UpdateCdrmax(0xff, 0x100) == 0
  {
    assert Lo(0) == 0 && Hi(0) == 0 && Lo(0xff) == 0xff && Hi(0xff) == 0 && Lo(0x100) == 0 && Hi(0x100) == 1;
    hide Lo, Hi;
  }

  lemma LoginStep(directory: seq<Entry>, n: nat)
    requires n < |directory| <= 0x1_0000
    ensures LoginCdrmax(directory, n + 1)
         == var before := LoginCdrmax(directory, n);
            if Live(directory[n]) then UpdateCdrmax(before, n) else before
  {
  }

  lemma NotHighWater(directory: seq<Entry>, cdrmax: Word, i: nat)
    requires cdrmax < i < |directory| && Live(directory[i])
    ensures !HighWater(directory, cdrmax)
  {
  }

  lemma {:induction false} DeletedTail(directory: seq<Entry>, from: nat, n: nat)
    requires from <= n <= |directory| <= 0x1_0000
    requires forall i :: from <= i < n ==> !Live(directory[i])
    ensures LoginCdrmax(directory, n) == LoginCdrmax(directory, from)
  {
    if from < n {
      DeletedTail(directory, from, n - 1);
    }
  }

  // ---------- block numbers ----------

  /** The sixteen or eight block numbers of an entry, or of the like part of an FCB. */
  function Slots(big: bool, e: seq<Byte>): (slots: seq<Word>)
    requires |e| >= 32
    ensures |slots| == if big then 8 else 16
  {
    if big then seq(8, i requires 0 <= i < 8 => Pair(e[AL + 2 * i], e[AL + 2 * i + 1]))
    else seq(16, i requires 0 <= i < 16 => e[AL + i])
  }

  /** Two block numbers that merging reports as different; on a big disk the comparison is a subtraction. */
  predicate Clash(big: bool, f: Word, e: Word)
  {
    if big then ToByte(Hi(f) - Hi(e) - if Lo(f) < Lo(e) then 1 else 0) != 0 else f != e
  }

  /** Different numbers go unnoticed on a big disk exactly when the FCB's is at most 255 above the entry's. */
  lemma ClashExactly(f: Word, e: Word)
    ensures Clash(true, f, e) <==> ToWord(f - e) >= 0x100
  {
    var fh: int, fl: int, eh: int, el: int := Hi(f), Lo(f), Hi(e), Lo(e);
    assert f == 0x100 * fh + fl && e == 0x100 * eh + el;
    var borrow := if fl < el then 1 else 0;
    var high, low := fh - eh - borrow, fl - el + 0x100 * borrow;
    assert f - e == 0x100 * high + low && 0 <= low < 0x100;
    assert ToWord(0x100 * high + low) == 0x100 * ToByte(high) + low;
  }

  function Merged(f: Word, e: Word): Word { if f != 0 then f else e }

  /** Of two block numbers at most one is in use, or they are the same. */
  predicate Agree(f: Word, e: Word) { f == 0 || e == 0 || f == e }

  /**
   merge_fcb_into_dirent: unused numbers are filled in from the other side, both ways. The first
   clash stops it.
   */
  method MergeFcbIntoEntry(big: bool, f0: Fcb, e0: Entry) returns (f: Fcb, e: Entry, error: bool)
    ensures f[..AL] == f0[..AL] && f[CR..] == f0[CR..] && e[..AL] == e0[..AL]
    ensures forall i :: 0 <= i < |Slots(big, f0)| ==>
              Slots(big, f)[i] == Slots(big, f0)[i] || Slots(big, f)[i] == Merged(Slots(big, f0)[i], Slots(big, e0)[i])
    ensures !error ==> forall i :: 0 <= i < |Slots(big, f0)| ==>
              && Slots(big, f)[i] == Merged(Slots(big, f0)[i], Slots(big, e0)[i])
              && Slots(big, e)[i] == Merged(Slots(big, e0)[i], Slots(big, f0)[i])
    ensures error <==> exists i :: 0 <= i < |Slots(big, f0)|
                         && !Agree(Slots(big, f0)[i], Slots(big, e0)[i])
                         && Clash(big, Slots(big, f0)[i], Slots(big, e0)[i])
  {
    hide Slots, Clash;
    f, e, error := f0, e0, false;
    var i := 0;
    while i < (if big then 8 else 16)
      invariant 0 <= i <= if big then 8 else 16
      invariant f[..AL] == f0[..AL] && f[CR..] == f0[CR..] && e[..AL] == e0[..AL]
      invariant forall j :: i <= j < |Slots(big, f0)| ==>
                  Slots(big, f)[j] == Slots(big, f0)[j] && Slots(big, e)[j] == Slots(big, e0)[j]
      invariant forall j :: 0 <= j < i ==>
                  Agree(Slots(big, f0)[j], Slots(big, e0)[j]) || !Clash(big, Slots(big, f0)[j], Slots(big, e0)[j])
      invariant forall j :: 0 <= j < i ==>
                  && Slots(big, f)[j] == Merged(Slots(big, f0)[j], Slots(big, e0)[j])
                  && Slots(big, e)[j] == Merged(Slots(big, e0)[j], Slots(big, f0)[j])
    {
      if Slots(big, f)[i] == 0 {            // FCB <- dirent
        SlotBytes(big, e, i);
        f := SetSlot(big, f, i, Slots(big, e)[i]);
      }
      if Slots(big, e)[i] == 0 {            // FCB -> dirent
        SlotBytes(big, f, i);
        e := SetSlot(big, e, i, Slots(big, f)[i]);
      }
      ClashDiffers(big, Slots(big, f)[i], Slots(big, e)[i]);
      if Clash(big, Slots(big, f)[i], Slots(big, e)[i]) {
        return f, e, true;
      }
      i := i + 1;
    }
  }

  /** Two bytes or one. */
  function SetSlot(big: bool, e: seq<Byte>, i: nat, block: Word): (r: seq<Byte>)
    requires |e| >= 32 && i < if big then 8 else 16
    requires big || block < 0x100
    ensures |r| == |e| && r[..AL] == e[..AL] && r[CR..] == e[CR..]
    ensures Slots(big, r) == Slots(big, e)[i := block]
  {
    if big then e[AL + 2 * i := Lo(block)][AL + 2 * i + 1 := Hi(block)] else e[AL + i := block]
  }

  lemma SlotBytes(big: bool, e: seq<Byte>, i: nat)
    requires |e| >= 32 && i < if big then 8 else 16
    ensures !big ==> Slots(big, e)[i] < 0x100
  {
  }

  lemma ClashDiffers(big: bool, f: Word, e: Word)
    ensures Clash(big, f, e) ==> f != e
  {
  }
}
