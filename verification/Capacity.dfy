/**
 How full a disk is. Every sector is clear, or belongs to exactly one file; so the names and sizes of the user's files
 alone decide whether Create succeeds.
 */
module Capacity {
  import opened Words
  import opened Bitmaps
  import opened Files
  import opened Directories
  import opened SectorOwnership
  import opened DiskLayout
  import opened FileSystems

  // ---------- sectors are conserved ----------

  /** How many sectors the slots own in all. */
  function Footprint(slots: seq<Slot>): nat
  {
    if slots == [] then 0 else Footprint(slots[..|slots| - 1]) + |slots[|slots| - 1].Sectors()|
  }

  /** The free map with exactly the sectors of the slots marked. */
  function Marks(slots: seq<Slot>): (bits: seq<bool>)
    ensures |bits| == NUM_SECTORS
  {
    if slots == [] then seq(NUM_SECTORS, _ => false)
    else WithAll(Marks(slots[..|slots| - 1]), slots[|slots| - 1].Sectors(), true)
  }

  lemma {:induction false} MarksAreOwned(slots: seq<Slot>, s: nat)
    requires s < NUM_SECTORS
    ensures Marks(slots)[s] <==> Owned(slots, s)
  {
    if slots != [] {
      var front, last := slots[..|slots| - 1], slots[|slots| - 1];
      MarksAreOwned(front, s);
      OwnsIsInSectors(last, s);
      if Owned(front, s) {
        var k :| 0 <= k < |front| && front[k].Owns(s);
        assert slots[k].Owns(s);
      }
      if Owned(slots, s) && !last.Owns(s) {
        var k :| 0 <= k < |slots| && slots[k].Owns(s);
        assert k != |slots| - 1;
        assert front[k].Owns(s);
      }
    }
  }

  lemma SectorsApart(slot: Slot, i: nat, j: nat)
    requires slot.WellFormed() && i < j < |slot.Sectors()|
    ensures slot.Sectors()[i] != slot.Sectors()[j]
  {
    if i == 0 {
      assert slot.Sectors()[j] == slot.header.Data()[j - 1];
    } else {
      assert slot.Sectors()[i] == slot.header.dataSectors[i - 1] && slot.Sectors()[j] == slot.header.dataSectors[j - 1];
    }
  }

  lemma SectorIsNew(slots: seq<Slot>, i: nat)
    requires slots != [] && Disjoint(slots) && slots[|slots| - 1].WellFormed() && i < |slots[|slots| - 1].Sectors()|
    ensures var s := slots[|slots| - 1].Sectors()[i]; 0 <= s < NUM_SECTORS && !Marks(slots[..|slots| - 1])[s]
  {
    var front, last := slots[..|slots| - 1], slots[|slots| - 1];
    var s := last.Sectors()[i];
    OwnsIsInSectors(last, s);
    SlotSectorInRange(last, s);
    MarksAreOwned(front, s);
    forall k | 0 <= k < |front|
      ensures !front[k].Owns(s)
    {
      assert front[k] == slots[k];
    }
  }

  lemma {:induction false} MarksCount(slots: seq<Slot>)
    requires Disjoint(slots) && forall k :: 0 <= k < |slots| ==> slots[k].WellFormed()
    ensures CountClear(Marks(slots)) + Footprint(slots) == NUM_SECTORS
  {
    if slots == [] {
      AllClearCount(Marks([]));
    } else {
      var front, last := slots[..|slots| - 1], slots[|slots| - 1];
      FrontDisjoint(slots);
      MarksCount(front);
      hide Disjoint, Marks;
      forall i | 0 <= i < |last.Sectors()|
        ensures 0 <= last.Sectors()[i] < NUM_SECTORS && !Marks(front)[last.Sectors()[i]]
      {
        SectorIsNew(slots, i);
      }
      forall i, j | 0 <= i < j < |last.Sectors()|
        ensures last.Sectors()[i] != last.Sectors()[j]
      {
        SectorsApart(last, i, j);
      }
      MarkedCount(Marks(front), last.Sectors());
      MarksLast(slots);
    }
  }

  lemma MarksLast(slots: seq<Slot>)
    requires slots != []
    ensures Marks(slots) == WithAll(Marks(slots[..|slots| - 1]), slots[|slots| - 1].Sectors(), true)
  {
  }

  lemma FrontDisjoint(slots: seq<Slot>)
    requires slots != [] && Disjoint(slots)
    ensures Disjoint(slots[..|slots| - 1])
  {
    var front := slots[..|slots| - 1];
    forall j, k, s | 0 <= j < k < |front| && front[j].Owns(s)
      ensures !front[k].Owns(s)
    {
      assert slots[j].Owns(s);
      assert front[k] == slots[k];
    }
  }

  /** Clear sectors and owned sectors together are all sectors. */
  lemma SectorsConserved(bits: seq<bool>, slots: seq<Slot>)
    requires Invariant(bits, slots)
    ensures CountClear(bits) + Footprint(slots) == NUM_SECTORS
  {
    forall s | 0 <= s < NUM_SECTORS
      ensures bits[s] == Marks(slots)[s]
    {
      MarksAreOwned(slots, s);
    }
    assert bits == Marks(slots);
    MarksCount(slots);
  }

  // ---------- the room that a map of files takes ----------

  type FileStore = map<seq<Byte>, seq<Byte>>

  /** A file takes its header sector and its data sectors. */
  function FileSpace(size: nat): nat
  {
    1 + DivRoundUp(size, 128)
  }

  ghost function Space(m: FileStore): nat
  {
    if m == map[] then 0
    else
      var key :| key in m;
      FileSpace(|m[key]|) + Space(m - {key})
  }

  lemma {:induction false} SpaceWithout(m: FileStore, key: seq<Byte>)
    requires key in m
    ensures Space(m) == FileSpace(|m[key]|) + Space(m - {key})
    decreases |m|
  {
    var k :| k in m && Space(m) == FileSpace(|m[k]|) + Space(m - {k});
    if k != key {
      var without := m - {k};
      assert (m - {k}) - {key} == (m - {key}) - {k};
      assert |m - {k}| < |m| by { assert (m - {k}).Keys == m.Keys - {k}; }
      assert |m - {key}| < |m| by { assert (m - {key}).Keys == m.Keys - {key}; }
      SpaceWithout(m - {k}, key);
      SpaceWithout(m - {key}, k);
    }
  }

  lemma SpaceWith(m: FileStore, key: seq<Byte>, bytes: seq<Byte>)
    requires key !in m
    ensures Space(m[key := bytes]) == Space(m) + FileSpace(|bytes|) && |m[key := bytes]| == |m| + 1
  {
    SpaceWithout(m[key := bytes], key);
    assert m[key := bytes] - {key} == m;
  }

  ghost function UsedCount(slots: seq<Slot>): nat
  {
    if slots == [] then 0 else UsedCount(slots[..|slots| - 1]) + (if slots[|slots| - 1].Used? then 1 else 0)
  }

  lemma {:induction false} UsedBound(slots: seq<Slot>)
    ensures UsedCount(slots) <= |slots|
    ensures UsedCount(slots) == |slots| <==> forall k :: 0 <= k < |slots| ==> slots[k].Used?
  {
    if slots != [] {
      var front := slots[..|slots| - 1];
      UsedBound(front);
      assert forall k :: 0 <= k < |front| ==> front[k] == slots[k];
    }
  }

  lemma ReadableFront(slots: seq<Slot>)
    requires Readable(slots) && slots != []
    ensures Readable(slots[..|slots| - 1])
  {
  }

  /** One slot more in the row adds its file to the map. */
  lemma FilesOfLonger(d: Disk, slots: seq<Slot>)
    requires Readable(slots) && |slots| > 2
    ensures Readable(slots[..|slots| - 1])
    ensures
      var front, last := slots[..|slots| - 1], slots[|slots| - 1];
      if last.Used?
      then last.key !in FilesOf(d, front) && FilesOf(d, slots) == FilesOf(d, front)[last.key := Flat(d, last.header)]
      else FilesOf(d, slots) == FilesOf(d, front)
  {
    ReadableFront(slots);
    var n := |slots| - 1;
    var padded := slots[n := Free];
    SameFiles(d, slots[..n], padded);
    if slots[n].Used? {
      hide Flat;
      FileNew(d, d, padded, slots, n);
    } else {
      assert padded == slots;
    }
  }

  /** A free slot at the end adds nothing. */
  lemma SameFiles(d: Disk, front: seq<Slot>, padded: seq<Slot>)
    requires Readable(front) && padded == front + [Free]
    ensures Readable(padded) && FilesOf(d, padded) == FilesOf(d, front)
  {
    hide Flat, DistinctNames;
    assert DistinctNames(padded) by { NamesPadded(front); }
    hide Readable;
    forall k | 2 <= k < |front| && front[k].Used?
      ensures front[k].key in FilesOf(d, padded) && front[k].key in FilesOf(d, front)
      ensures FilesOf(d, padded)[front[k].key] == FilesOf(d, front)[front[k].key]
    {
      assert padded[k] == front[k];
      FilesAt(d, front, k);
      FilesAt(d, padded, k);
    }
  }

  lemma NamesPadded(front: seq<Slot>)
    requires DistinctNames(front)
    ensures DistinctNames(front + [Free])
  {
  }

  lemma FootprintLonger(front: seq<Slot>, last: Slot)
    ensures Footprint(front + [last]) == Footprint(front) + |last.Sectors()|
    ensures UsedCount(front + [last]) == UsedCount(front) + (if last.Used? then 1 else 0)
  {
    assert (front + [last])[..|front|] == front;
  }

  lemma NoFiles(d: Disk, slots: seq<Slot>)
    requires Readable(slots) && |slots| == 2
    ensures Space(FilesOf(d, slots)) == 0 && |FilesOf(d, slots)| == 0 && UsedCount([]) == 0
  {
    assert FilesOf(d, slots) == map[];
  }

  lemma FilesSpaceLonger(d: Disk, slots: seq<Slot>)
    requires Readable(slots) && |slots| > 2 && Readable(slots[..|slots| - 1])
    ensures
      var front, last := slots[..|slots| - 1], slots[|slots| - 1];
      && Space(FilesOf(d, slots)) == Space(FilesOf(d, front)) + |last.Sectors()|
      && |FilesOf(d, slots)| == |FilesOf(d, front)| + (if last.Used? then 1 else 0)
  {
    hide FilesOf, Flat, Readable, Space, FileSpace;
    var n := |slots| - 1;
    FilesOfLonger(d, slots);
    if slots[n].Used? {
      SlotSpace(slots, n);
      SpaceWith(FilesOf(d, slots[..n]), slots[n].key, Flat(d, slots[n].header));
    }
  }

  /** The room that the user's files take is what their slots own. */
  lemma {:induction false} FilesSpace(d: Disk, slots: seq<Slot>)
    requires Readable(slots) && |slots| >= 2
    ensures Space(FilesOf(d, slots)) + Footprint(slots[..2]) == Footprint(slots)
    ensures |FilesOf(d, slots)| == UsedCount(slots[2..])
  {
    hide FilesOf, Space, Footprint, UsedCount;
    if |slots| == 2 {
      NoFiles(d, slots);
      assert slots[..2] == slots && slots[2..] == [];
    } else {
      var n := |slots| - 1;
      ReadableFront(slots);
      hide Readable;
      FilesSpaceLonger(d, slots);
      FilesSpace(d, slots[..n]);
      assert slots[..n][..2] == slots[..2];
      FootprintLonger(slots[..n], slots[n]);
      FootprintLonger(slots[2..n], slots[n]);
      assert slots[..n] + [slots[n]] == slots && slots[2..n] + [slots[n]] == slots[2..] && slots[..n][2..] == slots[2..n];
    }
  }

  lemma SlotSpace(slots: seq<Slot>, k: nat)
    requires Readable(slots) && k < |slots| && slots[k].Used?
    ensures slots[k].header.WellFormed() && |slots[k].Sectors()| == FileSpace(slots[k].header.numBytes)
  {
  }

  // ---------- when Create succeeds ----------

  /** Sectors of the free map and of the directory, with their headers. */
  const SYSTEM_SECTORS := 5

  /** There is room in the directory and on the disk for one more file. */
  ghost predicate HasRoom(m: FileStore, size: nat)
  {
    |m| < 10 && 5 + Space(m) + FileSpace(size) <= 1024
  }

  lemma ClearSectors(d: Disk)
    requires Consistent(d)
    ensures CountClear(FreeBits(d)) + SYSTEM_SECTORS + Space(FileMap(d)) == NUM_SECTORS
    ensures |FileMap(d)| == UsedCount(Slots(d)[2..])
  {
    hide FreeBits, FilesOf, Invariant;
    SectorsConserved(FreeBits(d), Slots(d));
    SlotsReadable(FreeBits(d), Slots(d));
    FilesSpace(d, Slots(d));
    SlotSpace(Slots(d), 0);
    SlotSpace(Slots(d), 1);
    TwoSlots(Slots(d)[0], Slots(d)[1]);
    assert Slots(d)[..2] == [Slots(d)[0], Slots(d)[1]];
  }

  lemma TwoSlots(a: Slot, b: Slot)
    ensures Footprint([a, b]) == |a.Sectors()| + |b.Sectors()|
  {
    FootprintLonger([a], b);
    FootprintLonger([], a);
    assert [a, b] == [a] + [b] && [a] == [] + [a];
  }

  lemma UserSlotUsed(d: Disk, j: nat)
    requires Bootable(d) && j < NUM_DIR_ENTRIES
    ensures Slots(d)[2..][j].Used? <==> Table(d)[j].inUse
  {
    hide Table, EntrySlot;
    SlotAt(d, j + 2);
    EntryUsed(d, Table(d)[j]);
  }

  lemma FullDirectory(d: Disk)
    requires Consistent(d)
    ensures Full(Table(d)) <==> |FileMap(d)| == NUM_DIR_ENTRIES
  {
    hide Slots, FreeBits, FileMap, Table, Invariant, UsedCount;
    ClearSectors(d);
    var users := Slots(d)[2..];
    UsedBound(users);
    forall j | 0 <= j < NUM_DIR_ENTRIES
      ensures users[j].Used? <==> Table(d)[j].inUse
    {
      UserSlotUsed(d, j);
    }
  }

  lemma EntryUsed(d: Disk, e: DirectoryEntry)
    ensures EntrySlot(d, e).Used? <==> e.inUse
    ensures e.inUse ==> EntrySlot(d, e).key == e.Key()
  {
  }

  lemma AbsentName(d: Disk, name: seq<Byte>)
    requires Consistent(d)
    ensures Absent(Table(d), name) <==> NameKey(name) !in FileMap(d)
  {
    hide FreeBits, FileMap, Table, Invariant, EntrySlot;
    if NameKey(name) in FileMap(d) {
      var k := FileMapIndex(d, NameKey(name));
      SlotAt(d, k);
      EntryUsed(d, Table(d)[k - 2]);
    } else {
      forall j | 0 <= j < NUM_DIR_ENTRIES && Table(d)[j].inUse
        ensures Table(d)[j].Key() != NameKey(name)
      {
        SlotAt(d, j + 2);
        EntryUsed(d, Table(d)[j]);
        FileMapAt(d, j + 2);
      }
    }
  }

  /** The user's files alone tell whether Create succeeds: the name is new, and there is room. */
  lemma CreateNeedsRoom(d: Disk, name: seq<Byte>, size: nat)
    requires Consistent(d)
    ensures CanCreate(d, name, size) <==> NameKey(name) !in FileMap(d) && HasRoom(FileMap(d), size)
  {
    hide FreeBits, FileMap, Table, Slots, Space;
    ClearSectors(d);
    FullDirectory(d);
    AbsentName(d, name);
    UsedBound(Slots(d)[2..]);
  }
}
