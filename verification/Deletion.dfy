/** Deleting, as steps on values (src/bdos/filesystem.S:316-344). */
module Deletion {
  import opened Bytes
  import opened Bitmap
  import opened Geometry
  import opened Directory
  import opened Consistency

  /** The entries a deletion is for. */
  ghost predicate Goes(v: Volume, p: Fcb, e: Entry) { Live(e) && Matches(v.dpb.extentMask, p, e, T3 + 1) }

  /** These are the live ones whose user, name and type fit, a question mark fitting all; extents are not asked about. */
  lemma GoesExactly(v: Volume, p: Fcb, e: Entry)
    requires Fit(v)
    ensures Goes(v, p, e)
       <==> e[0] != 0xe5 && forall y :: 0 <= y < 12 && p[y] != 0x3f ==> p[y] % 0x80 == e[y] % 0x80
  {
    MaskOf(v);
    MatchesExactly(v.dpb.extentMask, p, e, 12);
    hide Matches, Fit;
  }

  lemma MaskOf(v: Volume)
    requires Fit(v)
    ensures IsExtentMask(v.dpb.extentMask)
  {
    var d := v.dpb;
    assert d.extentMask == EntryExtents(d.blockShift, d.blocksOnDisk >= 0xff) - 1;
    hide Fit;
  }

  /** Of those among the first n. */
  ghost predicate FirstIsReadOnly(v: Volume, directory: seq<Entry>, n: nat, p: Fcb)
  {
    exists i :: 0 <= i < n && i < |directory| && Goes(v, p, directory[i]) && directory[i][T1] >= 0x80
             && forall j :: 0 <= j < i ==> !Goes(v, p, directory[j])
  }

  /** Of the first n entries those that go have been marked as deleted; nothing else is different. */
  ghost predicate Deleted(v: Volume, p: Fcb, before: seq<Entry>, n: nat, after: seq<Entry>)
  {
    && |after| == |before|
    && forall i :: 0 <= i < |before| ==>
         after[i] == if i < n && Goes(v, p, before[i]) then before[i][DR := DELETED] else before[i]
  }

  /** And exactly their blocks have been given back. */
  ghost predicate Freed(v: Volume, p: Fcb, before: seq<Entry>, n: nat, bits: seq<bv8>, bits': seq<bv8>)
  {
    && |bits'| == |bits|
    && forall b: nat :: b / 8 < |bits| ==>
         (Bit(bits', b) <==> Bit(bits, b) && !(b != 0 && GivenBack(v, p, before, n, b)))
  }

  ghost predicate GivenBack(v: Volume, p: Fcb, before: seq<Entry>, n: nat, block: nat)
  {
    exists i :: 0 <= i < n && i < |before| && Goes(v, p, before[i]) && block in Slots(BigDisk(v.dpb), before[i])
  }

  lemma FirstToGo(v: Volume, directory: seq<Entry>, n: nat, p: Fcb, i: nat)
    requires i < n <= |directory| && Goes(v, p, directory[i]) && forall j :: 0 <= j < i ==> !Goes(v, p, directory[j])
    ensures FirstIsReadOnly(v, directory, n, p) <==> directory[i][T1] >= 0x80
  {
    hide Goes;
  }

  lemma NoneToGo(v: Volume, directory: seq<Entry>, n: nat, p: Fcb)
    requires n <= |directory| && forall j :: 0 <= j < n ==> !Goes(v, p, directory[j])
    ensures !FirstIsReadOnly(v, directory, n, p)
  {
    hide Goes;
  }

  /** Nothing goes before the first entry that does. */
  lemma NothingDeleted(v: Volume, p: Fcb, directory: seq<Entry>, n: nat, bits: seq<bv8>)
    requires forall i :: 0 <= i < n && i < |directory| ==> !Goes(v, p, directory[i])
    ensures Deleted(v, p, directory, n, directory) && Freed(v, p, directory, n, bits, bits)
  {
    hide Goes, Slots, Bit;
  }

  /** From entry n on, all is as it was. */
  lemma DeletedBefore(v: Volume, p: Fcb, before: seq<Entry>, n: nat, after: seq<Entry>)
    requires n < |before| && Deleted(v, p, before, n, after)
    ensures |after| == |before| && after[n] == before[n]
  {
    hide Goes;
  }

  lemma DeletedOneMore(v: Volume, p: Fcb, before: seq<Entry>, i: nat, bits: seq<bv8>, now: seq<bv8>, after: seq<Entry>, n: nat)
    requires i < n <= |before| == |after|
    requires Deleted(v, p, before, i, after[i := before[i]]) && Freed(v, p, before, i, bits, now)
    requires Goes(v, p, before[i]) && after[i] == before[i][DR := DELETED]
    requires InMap(now, Slots(BigDisk(v.dpb), before[i]))
    requires forall j :: i < j < n ==> !Goes(v, p, after[j])
    ensures Deleted(v, p, before, n, after)
    ensures Freed(v, p, before, n, bits, MarkSlots(now, Slots(BigDisk(v.dpb), before[i]), false))
  {
    var slots := Slots(BigDisk(v.dpb), before[i]);
    hide Goes, Slots, Bit, MarkSlots;
    assert forall j :: 0 <= j < |before| && j != i ==> after[j] == after[i := before[i]][j];
    forall b: nat | b / 8 < |bits|
      ensures Bit(MarkSlots(now, slots, false), b) <==>
              Bit(bits, b) && !(b != 0 && GivenBack(v, p, before, n, b))
    {
      MarkSlotsBits(now, slots, false, b);
      assert GivenBack(v, p, before, n, b) <==> GivenBack(v, p, before, i, b) || b in slots;
    }
  }

  /** Where the mark is right, the entries a search looks at are all that can go. */
  lemma AllReached(v: Volume, directory: seq<Entry>, cdrmax: Word, p: Fcb)
    requires HighWater(directory, cdrmax)
    ensures var n, all := Reach(directory, cdrmax), |directory|;
            && (FirstIsReadOnly(v, directory, n, p) <==> FirstIsReadOnly(v, directory, all, p))
            && ((forall i :: 0 <= i < n ==> !Goes(v, p, directory[i])) <==> (forall i :: 0 <= i < all ==> !Goes(v, p, directory[i])))
            && (forall after :: Deleted(v, p, directory, n, after) <==> Deleted(v, p, directory, all, after))
            && (forall bits, bits' :: Freed(v, p, directory, n, bits, bits') <==> Freed(v, p, directory, all, bits, bits'))
  {
    hide Matches, Slots, Live, Bit;
    assert forall i :: Reach(directory, cdrmax) <= i < |directory| ==> !Goes(v, p, directory[i]);
    assert forall b: nat ::
        GivenBack(v, p, directory, Reach(directory, cdrmax), b) <==> GivenBack(v, p, directory, |directory|, b);
  }
}
