/** The emulator's sixteen file slots, linked in the order of their use (tools/cpmemu/fileio.c:19-62, 85-102, 236-303). */
module OpenFiles {
  import opened Bytes

  const NUM_FILES: nat := 16
  const NONE: int := -1       // a null pointer, or no file descriptor

  type Chars = s: seq<Byte> | |s| == 11 witness seq(11, _ => 0x20)

  datatype Name = Name(drive: Byte, bytes: Chars)

  function Spaces(): Chars { seq(11, _ => 0x20) }

  predicate Blank(n: Name) { n.bytes == Spaces() }

  /** The list with one slot taken to its head. */
  function ToFront(order: seq<int>, f: int): seq<int>
  {
    [f] + Dropped(order, f)
  }

  function Dropped(order: seq<int>, f: int): seq<int>
  {
    if order == [] then [] else if order[0] == f then order[1..] else [order[0]] + Dropped(order[1..], f)
  }

  /** Where a slot is in the list. */
  ghost function Place(order: seq<int>, f: int): (k: nat)
    requires f in order
    ensures k < |order| && order[k] == f && f !in order[..k]
  {
    if order[0] == f then 0 else assert order == [order[0]] + order[1..]; 1 + Place(order[1..], f)
  }

  lemma {:induction false} DroppedAt(order: seq<int>, k: nat)
    requires k < |order| && order[k] !in order[..k]
    ensures Dropped(order, order[k]) == order[..k] + order[k + 1..]
  {
    if k > 0 {
      assert order[0] == order[..k][0];
      assert order[1..][..k - 1] == order[..k][1..];
      DroppedAt(order[1..], k - 1);
    }
  }

  /** A list of sixteen slot numbers. */
  predicate Slots(order: seq<int>)
  {
    |order| == NUM_FILES && forall i :: 0 <= i < NUM_FILES ==> 0 <= order[i] < NUM_FILES
  }

  function InTurn(): seq<int> { seq(NUM_FILES, i => i) }

  predicate Distinct(order: seq<int>) { forall i, j :: 0 <= i < j < |order| ==> order[i] != order[j] }

  class Files {
    const prev: array<int>
    const next: array<int>
    const names: array<Name>
    const fds: array<int>
    var firstFile: int
    ghost var order: seq<int>       // the slots from the head on
    ghost var bumps: seq<int>       // every slot that was taken to the head, from the start

    predicate Shape()
    {
      && prev.Length == next.Length == names.Length == fds.Length == NUM_FILES
      && prev != next && prev != fds && next != fds
    }

    /** Both ways the links go through every slot once. */
    ghost predicate Linked()
      reads this, prev, next
      requires Shape()
    {
      && Slots(order) && Distinct(order) && Along(order, prev[..], next[..]) && firstFile == order[0]
      && order == AfterBumps(InTurn(), bumps)
    }

    ghost predicate Valid()
      reads this, prev, next, names
    {
      Shape() && Linked() && Unique(names[..])
    }

    /** files_init */
    constructor ()
      ensures Valid() && (forall i :: 0 <= i < NUM_FILES ==> names[i] == Name(0, Spaces()) && fds[i] == NONE)
      ensures order == InTurn() && bumps == []
    {
      prev := new int[NUM_FILES];
      next := new int[NUM_FILES];
      names := new Name[NUM_FILES](_ => Name(0, Spaces()));
      fds := new int[NUM_FILES];
      new;
      for i := 0 to NUM_FILES
        invariant forall k :: 0 <= k < i ==> prev[k] == (if k == 0 then NONE else k - 1)
        invariant forall k :: 0 <= k < i ==> next[k] == (if k == NUM_FILES - 1 then NONE else k + 1)
        invariant forall k :: 0 <= k < i ==> names[k] == Name(0, Spaces()) && fds[k] == NONE
      {
        prev[i] := if i == 0 then NONE else i - 1;
        next[i] := if i == NUM_FILES - 1 then NONE else i + 1;
        names[i] := Name(0, Spaces());
        fds[i] := NONE;
      }
      firstFile := 0;
      order, bumps := InTurn(), [];
      LinkedInTurn(prev[..], next[..]);
      AllBlank(names[..]);
      hide Along, Distinct, Slots, Unique, AfterBumps, InTurn;
    }

    /** bump */
    method Bump(f: int)
      requires Valid() && 0 <= f < NUM_FILES
      modifies this, prev, next
      ensures Valid() && f in old(order) && order == ToFront(old(order), f) && bumps == old(bumps) + [f]
    {
      AllSlots(order, f);
      ghost var was, k, p, n := order, Place(order, f), prev[..], next[..];
      DroppedAt(was, k);
      Reordered(was, k);
      StaysInside(was, k);
      OneMoreBump(bumps, f);
      hide Unique, Dropped, ToFront, AfterBumps, Along, Distinct, Slots, NewPrev, NewNext;
      if f != firstFile {
        Relink(f, was, k);
        Relinked(was, k, p, n);
        order := ToFront(was, f);
        assert prev[..] == NewPrev(was, k, p) && next[..] == NewNext(was, k, n);
      } else {
        FrontAlready(was);
      }
      bumps := bumps + [f];
    }

    /** The place in the list of the first slot with the name, or 16. */
    ghost function FirstWith(name: Name): (k: nat)
      reads this, names
      requires Shape() && Slots(order)
      ensures k <= NUM_FILES && (forall i :: 0 <= i < k ==> names[order[i]] != name)
      ensures k < NUM_FILES ==> names[order[k]] == name
    {
      LeastWith(order, names[..], name, 0)
    }

    ghost predicate Present(name: Name)
      reads this, names
      requires Shape() && Slots(order)
    {
      FirstWith(name) < NUM_FILES
    }

    /** The slot with the name, or the one that will have it: the last of the list. */
    ghost function SlotFor(name: Name): (f: int)
      reads this, names
      requires Shape() && Slots(order)
      ensures 0 <= f < NUM_FILES
      ensures Present(name) ==> names[f] == name
      ensures !Present(name) ==> f == order[NUM_FILES - 1] && forall i :: 0 <= i < NUM_FILES ==> names[order[i]] != name
    {
      order[if FirstWith(name) < NUM_FILES then FirstWith(name) else NUM_FILES - 1]
    }

    /** find_file; `closed` is the descriptor of the file that had to make way. */
    method FindFile(name: Name) returns (f: int, closed: int)
      requires Valid()
      modifies this, prev, next, names, fds
      ensures Valid() && f == old(SlotFor(name)) && names[f] == name
      // Found: nothing changes, and of names that are not blank there is only one.
      ensures old(Present(name)) ==>
                && closed == NONE && order == old(order) && bumps == old(bumps) && names[..] == old(names[..]) && fds[..] == old(fds[..])
                && (!Blank(name) ==> forall j :: 0 <= j < NUM_FILES && names[j] == name ==> j == f)
      // Not found: the slot that has gone longest without it is taken, and goes to the head.
      ensures !old(Present(name)) ==>
                && LongestUnused(old(bumps), f)
                && closed == old(fds[..])[f] && order == ToFront(old(order), f) && bumps == old(bumps) + [f]
                && names[..] == old(names[..])[f := name] && fds[..] == old(fds[..])[f := NONE]
    {
      hide LeastWith, Unique, ToFront, Along, Distinct, FirstWith, AfterBumps, LongestUnused;
      var found;
      found, f := Search(name);
      closed := NONE;
      if found {
        OnlyOne(names[..], f);
      } else {
        LastIsLongest(order, bumps);
        NewName(order, names[..], f, name);
        closed := Evict(f, name);
      }
    }

    /** Along the list: the slot with the name, or else the last one. */
    method Search(name: Name) returns (found: bool, f: int)
      requires Valid()
      ensures (found <==> Present(name)) && f == SlotFor(name)
    {
      f := firstFile;
      ghost var k := 0;
      while true
        invariant 0 <= k < NUM_FILES && f == order[k] && k <= FirstWith(name)
        decreases NUM_FILES - k
      {
        LinkAt(order, prev[..], next[..], k);
        if name == names[f] {
          return true, f;
        }
        if next[f] == NONE {
          return false, f;
        }
        f := next[f];
        k := k + 1;
      }
    }

    /** The slot goes to the head of the list and is given the name. */
    method Evict(f: int, name: Name) returns (closed: int)
      requires Valid() && 0 <= f < NUM_FILES && Unique(names[..][f := name])
      modifies this, prev, next, names, fds
      ensures Valid() && closed == old(fds[..])[f] && order == ToFront(old(order), f) && bumps == old(bumps) + [f]
      ensures names[..] == old(names[..])[f := name] && fds[..] == old(fds[..])[f := NONE]
    {
      hide Unique, ToFront, Along, AfterBumps;
      Bump(f);
      closed := fds[f];
      fds[f] := NONE;
      names[f] := name;
    }

    /** file_close: a file that has no slot is given one first, at another's cost. The drive stays. */
    method CloseFile(name: Name) returns (closed: seq<int>)
      requires Valid()
      modifies this, prev, next, names, fds
      ensures Valid()
      ensures var f := old(SlotFor(name));
              && order == (if old(Present(name)) then old(order) else ToFront(old(order), f))
              && bumps == (if old(Present(name)) then old(bumps) else old(bumps) + [f])
              && (old(Present(name)) || LongestUnused(old(bumps), f))
              && names[..] == old(names[..])[f := Name(name.drive, Spaces())] && fds[..] == old(fds[..])[f := NONE]
              && closed == if old(fds[..])[f] == NONE then [] else [old(fds[..])[f]]
    {
      hide Unique, ToFront, Along, Distinct, FirstWith, SlotFor, Present, AfterBumps, LongestUnused;
      var f, evicted := FindFile(name);
      closed := if evicted != NONE then [evicted] else [];
      if fds[f] != NONE {
        closed := closed + [fds[f]];
      }
      NewBlank(names[..], f, name.drive);
      names[f] := Name(name.drive, Spaces());
      fds[f] := NONE;
    }

    method Relink(f: int, ghost was: seq<int>, ghost k: nat)
      requires Valid() && was == order && 0 < k < NUM_FILES && f == was[k]
      modifies this`firstFile, prev, next
      ensures firstFile == f
      ensures prev[..] == NewPrev(was, k, old(prev[..])) && next[..] == NewNext(was, k, old(next[..]))
    {
      hide Unique;
      LinkAt(order, prev[..], next[..], k);
      if prev[f] != NONE {
        next[prev[f]] := next[f];
      }
      if next[f] != NONE {
        prev[next[f]] := prev[f];
      }
      prev[firstFile] := f;
      prev[f] := NONE;
      next[f] := firstFile;
      firstFile := f;
    }
  }

  lemma LinkedInTurn(prev: seq<int>, next: seq<int>)
    requires |prev| == |next| == NUM_FILES
    requires forall k :: 0 <= k < NUM_FILES ==> prev[k] == if k == 0 then NONE else k - 1
    requires forall k :: 0 <= k < NUM_FILES ==> next[k] == if k == NUM_FILES - 1 then NONE else k + 1
    ensures Slots(InTurn()) && Distinct(InTurn()) && Along(InTurn(), prev, next) && InTurn()[0] == 0
    ensures AfterBumps(InTurn(), []) == InTurn()
  {
  }

  lemma AllBlank(names: seq<Name>)
    requires forall k :: 0 <= k < |names| ==> names[k] == Name(0, Spaces())
    ensures Unique(names)
  {
  }

  // ---------- what the order means ----------

  /** The list after so many slots have been bumped, one after the other. */
  function AfterBumps(order: seq<int>, bumps: seq<int>): seq<int>
  {
    if bumps == [] then order
    else ToFront(AfterBumps(order, bumps[..|bumps| - 1]), bumps[|bumps| - 1])
  }

  ghost predicate Before(order: seq<int>, f: int, g: int)
  {
    exists i, j :: 0 <= i < j < |order| && order[i] == f && order[j] == g
  }

  lemma {:induction false} DroppedHas(order: seq<int>, f: int, g: int)
    requires g in order && g != f
    ensures g in Dropped(order, f)
  {
    if order[0] != f {
      assert order == [order[0]] + order[1..];
      if order[0] != g {
        DroppedHas(order[1..], f, g);
      }
    }
  }

  lemma {:induction false} DroppedKeepsOrder(order: seq<int>, h: int, f: int, g: int)
    requires Before(order, f, g) && h != f && h != g
    ensures Before(Dropped(order, h), f, g)
  {
    var i, j :| 0 <= i < j < |order| && order[i] == f && order[j] == g;
    if order[0] == h {
      assert order[1..][i - 1] == f && order[1..][j - 1] == g;
    } else if i == 0 {
      assert order[1..][j - 1] == g;
      DroppedHas(order[1..], h, g);
      var k :| 0 <= k < |Dropped(order[1..], h)| && Dropped(order[1..], h)[k] == g;
      assert Dropped(order, h)[0] == f && Dropped(order, h)[k + 1] == g;
    } else {
      assert order[1..][i - 1] == f && order[1..][j - 1] == g;
      DroppedKeepsOrder(order[1..], h, f, g);
      var r := Dropped(order[1..], h);
      var k, l :| 0 <= k < l < |r| && r[k] == f && r[l] == g;
      assert Dropped(order, h)[k + 1] == f && Dropped(order, h)[l + 1] == g;
    }
  }

  lemma AtFront(order: seq<int>, f: int, g: int)
    requires g in order && g != f
    ensures Before(ToFront(order, f), f, g)
  {
    DroppedHas(order, f, g);
    var r := Dropped(order, f);
    var k :| 0 <= k < |r| && r[k] == g;
    assert ToFront(order, f)[0] == f && ToFront(order, f)[k + 1] == g;
  }

  lemma {:induction false} StaysIn(order: seq<int>, bumps: seq<int>, g: int)
    requires g in order
    ensures g in AfterBumps(order, bumps)
  {
    if bumps != [] {
      var f := bumps[|bumps| - 1];
      StaysIn(order, bumps[..|bumps| - 1], g);
      if f != g {
        DroppedHas(AfterBumps(order, bumps[..|bumps| - 1]), f, g);
      }
    }
  }

  /** A slot is before every slot that has not been bumped since it was: the last one is the one not bumped longest. */
  lemma {:induction false} RecentFirst(order: seq<int>, bumps: seq<int>, k: nat, g: int)
    requires k < |bumps| && g in order && g !in bumps[k..]
    ensures Before(AfterBumps(order, bumps), bumps[k], g)
  {
    var n := |bumps| - 1;
    var earlier, f, h := AfterBumps(order, bumps[..n]), bumps[k], bumps[n];
    assert bumps[k..][0] == f && bumps[k..][n - k] == h;
    StaysIn(order, bumps[..n], g);
    if h == f {
      AtFront(earlier, f, g);
    } else {
      assert bumps[k..n] == bumps[k..][..n - k];
      assert bumps[..n][k..] == bumps[k..n];
      RecentFirst(order, bumps[..n], k, g);
      DroppedKeepsOrder(earlier, h, f, g);
      var r := Dropped(earlier, h);
      var i, j :| 0 <= i < j < |r| && r[i] == f && r[j] == g;
      assert ToFront(earlier, h)[i + 1] == f && ToFront(earlier, h)[j + 1] == g;
    }
  }

  /** Since the slot was last taken to the head, if ever, every other one has been. */
  ghost predicate LongestUnused(bumps: seq<int>, f: int)
  {
    forall k, g :: 0 <= k < |bumps| && bumps[k] == f && 0 <= g < NUM_FILES && g != f ==> g in bumps[k..]
  }

  lemma LastIsLongest(order: seq<int>, bumps: seq<int>)
    requires Slots(order) && Distinct(order) && order == AfterBumps(InTurn(), bumps)
    ensures LongestUnused(bumps, order[NUM_FILES - 1])
  {
    hide AfterBumps;
    var f := order[NUM_FILES - 1];
    forall k, g | 0 <= k < |bumps| && bumps[k] == f && 0 <= g < NUM_FILES && g != f
      ensures g in bumps[k..]
    {
      assert InTurn()[g] == g;
      if g !in bumps[k..] {
        RecentFirst(InTurn(), bumps, k, g);
      }
    }
  }

  lemma OneMoreBump(bumps: seq<int>, f: int)
    ensures AfterBumps(InTurn(), bumps + [f]) == ToFront(AfterBumps(InTurn(), bumps), f)
  {
    assert (bumps + [f])[..|bumps|] == bumps;
    hide ToFront, InTurn;
  }

  lemma FrontAlready(order: seq<int>)
    requires order != []
    ensures ToFront(order, order[0]) == order
  {
  }

  /** The links of the sixteen slots go along the list, and back. */
  ghost predicate Along(order: seq<int>, prev: seq<int>, next: seq<int>)
  {
    && Slots(order) && Distinct(order) && |prev| == |next| == NUM_FILES
    && (forall i :: 0 <= i < NUM_FILES ==> prev[order[i]] == if i == 0 then NONE else order[i - 1])
    && next[order[NUM_FILES - 1]] == NONE && (forall i :: 0 <= i < NUM_FILES - 1 ==> next[order[i]] == order[i + 1])
  }

  lemma LinkAt(order: seq<int>, prev: seq<int>, next: seq<int>, i: nat)
    requires Along(order, prev, next) && i < NUM_FILES
    ensures prev[order[i]] == if i == 0 then NONE else order[i - 1]
    ensures next[order[i]] == if i == NUM_FILES - 1 then NONE else order[i + 1]
  {
  }

  function NewPrev(was: seq<int>, k: nat, prev: seq<int>): seq<int>
    requires Slots(was) && |prev| == NUM_FILES && 0 < k < NUM_FILES
  {
    (if k < NUM_FILES - 1 then prev[was[k + 1] := was[k - 1]] else prev)[was[0] := was[k]][was[k] := NONE]
  }

  function NewNext(was: seq<int>, k: nat, next: seq<int>): seq<int>
    requires Slots(was) && |next| == NUM_FILES && 0 < k < NUM_FILES
  {
    next[was[k - 1] := if k < NUM_FILES - 1 then was[k + 1] else NONE][was[k] := was[0]]
  }

  /** Taking slot k out and putting it at the head leaves links along the new list. */
  lemma Relinked(was: seq<int>, k: nat, prev: seq<int>, next: seq<int>)
    requires Along(was, prev, next) && 0 < k < NUM_FILES && Dropped(was, was[k]) == was[..k] + was[k + 1..]
    ensures Along(ToFront(was, was[k]), NewPrev(was, k, prev), NewNext(was, k, next))
  {
    Reordered(was, k);
    hide Dropped;
    BackLinks(was, k, prev, next);
    ForwardLinks(was, k, prev, next);
    hide NewPrev, NewNext;
  }

  lemma Different(order: seq<int>, i: nat, j: nat)
    requires Distinct(order) && i < |order| && j < |order|
    ensures order[i] == order[j] <==> i == j
  {
  }

  /** The new links by old places in the list. */
  lemma PrevAt(was: seq<int>, k: nat, prev: seq<int>, j: nat)
    requires Slots(was) && |prev| == NUM_FILES && Distinct(was) && 0 < k < NUM_FILES && j < NUM_FILES
    requires prev[was[j]] == if j == 0 then NONE else was[j - 1]
    ensures NewPrev(was, k, prev)[was[j]]
         == if j == k then NONE else if j == 0 then was[k] else if j == k + 1 then was[k - 1] else was[j - 1]
  {
    Different(was, j, k);
    Different(was, j, 0);
    if k < NUM_FILES - 1 {
      Different(was, j, k + 1);
    }
    hide Distinct;
  }

  lemma NextAt(was: seq<int>, k: nat, next: seq<int>, j: nat)
    requires Slots(was) && |next| == NUM_FILES && Distinct(was) && 0 < k < NUM_FILES && j < NUM_FILES
    requires next[was[j]] == if j == NUM_FILES - 1 then NONE else was[j + 1]
    ensures NewNext(was, k, next)[was[j]]
         == if j == k then was[0]
            else if j == k - 1 then (if k < NUM_FILES - 1 then was[k + 1] else NONE)
            else if j == NUM_FILES - 1 then NONE else was[j + 1]
  {
    Different(was, j, k);
    Different(was, j, k - 1);
    hide Distinct;
  }

  lemma BackLinks(was: seq<int>, k: nat, prev: seq<int>, next: seq<int>)
    requires Along(was, prev, next) && 0 < k < NUM_FILES && Dropped(was, was[k]) == was[..k] + was[k + 1..]
    ensures var order, p := ToFront(was, was[k]), NewPrev(was, k, prev);
            |order| == |p| == NUM_FILES && Slots(order)
            && forall i :: 0 <= i < NUM_FILES ==> p[order[i]] == if i == 0 then NONE else order[i - 1]
  {
    Reordered(was, k);
    StaysInside(was, k);
    assert Slots(was);
    hide Dropped, ToFront, Along, NewPrev, Distinct;
    var order, p := ToFront(was, was[k]), NewPrev(was, k, prev);
    forall i | 0 <= i < NUM_FILES
      ensures p[order[i]] == if i == 0 then NONE else order[i - 1]
    {
      BackAt(was, k, prev, next, i, order[i], if i > 0 then order[i - 1] else NONE);
    }
  }

  /** One place of the new list and the one before. */
  lemma BackAt(was: seq<int>, k: nat, prev: seq<int>, next: seq<int>, i: nat, here: int, before: int)
    requires Along(was, prev, next) && 0 < k < NUM_FILES && i < NUM_FILES
    requires here == if i == 0 then was[k] else if i <= k then was[i - 1] else was[i]
    requires before == if i == 0 then NONE else if i == 1 then was[k] else if i - 1 <= k then was[i - 2] else was[i - 1]
    ensures 0 <= here < NUM_FILES && NewPrev(was, k, prev)[here] == before
  {
    var j := if i == 0 then k else if i <= k then i - 1 else i;
    LinkAt(was, prev, next, j);
    PrevAt(was, k, prev, j);
    hide Along, NewPrev, Distinct;
  }

  lemma ForwardLinks(was: seq<int>, k: nat, prev: seq<int>, next: seq<int>)
    requires Along(was, prev, next) && 0 < k < NUM_FILES && Dropped(was, was[k]) == was[..k] + was[k + 1..]
    ensures var order, n := ToFront(was, was[k]), NewNext(was, k, next);
            |order| == |n| == NUM_FILES && Slots(order)
            && n[order[NUM_FILES - 1]] == NONE && forall i :: 0 <= i < NUM_FILES - 1 ==> n[order[i]] == order[i + 1]
  {
    Reordered(was, k);
    StaysInside(was, k);
    assert Slots(was);
    hide Dropped, ToFront, Along, NewNext, Distinct;
    var order, n := ToFront(was, was[k]), NewNext(was, k, next);
    forall i | 0 <= i < NUM_FILES
      ensures n[order[i]] == if i < NUM_FILES - 1 then order[i + 1] else NONE
    {
      ForwardAt(was, k, prev, next, i, order[i], if i < NUM_FILES - 1 then order[i + 1] else NONE);
    }
  }

  /** One place of the new list and the one behind. */
  lemma ForwardAt(was: seq<int>, k: nat, prev: seq<int>, next: seq<int>, i: nat, here: int, behind: int)
    requires Along(was, prev, next) && 0 < k < NUM_FILES && i < NUM_FILES
    requires here == if i == 0 then was[k] else if i <= k then was[i - 1] else was[i]
    requires behind == if i == NUM_FILES - 1 then NONE else if i + 1 <= k then was[i] else was[i + 1]
    ensures 0 <= here < NUM_FILES && NewNext(was, k, next)[here] == behind
  {
    var j := if i == 0 then k else if i <= k then i - 1 else i;
    LinkAt(was, prev, next, j);
    NextAt(was, k, next, j);
    hide Along, NewNext, Distinct;
  }

  /** The list with slot k of it at the head. */
  lemma Reordered(was: seq<int>, k: nat)
    requires k < |was| == NUM_FILES && Distinct(was) && Dropped(was, was[k]) == was[..k] + was[k + 1..]
    ensures var order := ToFront(was, was[k]);
            && |order| == NUM_FILES && Distinct(order)
            && (forall i :: 0 <= i < NUM_FILES ==> order[i] == if i == 0 then was[k] else if i <= k then was[i - 1] else was[i])
            && (k == 0 ==> order == was)
  {
    hide Dropped;
  }

  lemma StaysInside(was: seq<int>, k: nat)
    requires k < |was| && Slots(was) && Distinct(was) && Dropped(was, was[k]) == was[..k] + was[k + 1..]
    ensures Slots(ToFront(was, was[k]))
  {
    Reordered(was, k);
    hide ToFront, Dropped, Distinct;
  }

  /** Every slot is in a list of sixteen different slots. */
  lemma AllSlots(order: seq<int>, f: int)
    requires Slots(order) && Distinct(order)
    requires 0 <= f < NUM_FILES
    ensures f in order
  {
    ElementsOf(order);
    WithinBelow(order, NUM_FILES);
    BelowCount(NUM_FILES);
    InBelow(NUM_FILES, f);
    if f !in order {
      assert Elements(order) <= Below(NUM_FILES) - {f};
      Subset(Elements(order), Below(NUM_FILES) - {f});
    }
  }

  function Elements(s: seq<int>): set<int> { if s == [] then {} else {s[0]} + Elements(s[1..]) }

  function Below(n: nat): set<int> { if n == 0 then {} else {n - 1} + Below(n - 1) }

  lemma {:induction false} ElementsOf(s: seq<int>)
    requires Distinct(s)
    ensures |Elements(s)| == |s| && forall x :: x in Elements(s) <==> x in s
  {
    if s != [] {
      ElementsOf(s[1..]);
      assert s == [s[0]] + s[1..];
    }
  }

  lemma {:induction false} InBelow(n: nat, f: int)
    ensures f in Below(n) <==> 0 <= f < n
  {
    if n > 0 {
      InBelow(n - 1, f);
    }
  }

  lemma WithinBelow(s: seq<int>, n: nat)
    requires Distinct(s) && forall i :: 0 <= i < |s| ==> 0 <= s[i] < n
    ensures Elements(s) <= Below(n)
  {
    ElementsOf(s);
    forall x | x in Elements(s)
      ensures x in Below(n)
    {
      InBelow(n, x);
    }
  }

  lemma {:induction false} BelowCount(n: nat)
    ensures |Below(n)| == n
  {
    if n > 0 {
      BelowCount(n - 1);
      InBelow(n - 1, n - 1);
    }
  }

  lemma Subset(a: set<int>, b: set<int>)
    requires a <= b
    ensures |a| <= |b|
  {
    assert b == a + (b - a);
  }

  function LeastWith(order: seq<int>, names: seq<Name>, name: Name, from: nat): (k: nat)
    requires Slots(order) && |names| == NUM_FILES && from <= NUM_FILES
    ensures from <= k <= NUM_FILES && (forall i :: from <= i < k ==> names[order[i]] != name)
    ensures k < NUM_FILES ==> names[order[k]] == name
    decreases NUM_FILES - from
  {
    if from == NUM_FILES || names[order[from]] == name then from else LeastWith(order, names, name, from + 1)
  }

  lemma OnlyOne(names: seq<Name>, f: int)
    requires Unique(names) && 0 <= f < |names|
    ensures !Blank(names[f]) ==> forall j :: 0 <= j < |names| && names[j] == names[f] ==> j == f
  {
  }

  lemma NewName(order: seq<int>, names: seq<Name>, f: int, name: Name)
    requires Slots(order) && |names| == NUM_FILES && Distinct(order) && Unique(names) && 0 <= f < NUM_FILES
    requires forall i :: 0 <= i < NUM_FILES ==> names[order[i]] != name
    ensures Unique(names[f := name])
  {
    forall j | 0 <= j < NUM_FILES
      ensures names[j] != name
    {
      AllSlots(order, j);
    }
  }

  lemma NewBlank(names: seq<Name>, f: int, drive: Byte)
    requires Unique(names) && 0 <= f < |names|
    ensures Unique(names[f := Name(drive, Spaces())])
  {
  }

  /** No two slots have the same name, unless it is blank. */
  predicate Unique(names: seq<Name>)
  {
    forall i, j :: 0 <= i < j < |names| && names[i] == names[j] ==> Blank(names[i])
  }
}
