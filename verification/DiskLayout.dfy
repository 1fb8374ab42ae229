/**
 What a formatted disk means: its free map, its directory, the slots that own its sectors, and the
 finite map from file names to file contents that a user of the file system sees.
 */
module DiskLayout {
  import opened Words
  import opened Bitmaps
  import opened Files
  import opened OpenFiles
  import opened Directories
  import opened SectorOwnership

  const FREE_MAP_SECTOR := 0
  const DIRECTORY_SECTOR := 1
  const FREE_MAP_FILE_SIZE := 128
  const DIRECTORY_FILE_SIZE := 200

  function BlankSector(i: nat): Sector
  {
    seq(SECTOR_SIZE, _ => 0)
  }

  type Disk = d: seq<Sector> | |d| == 1024 witness seq<Sector>(1024, BlankSector)

  function MapHeader(d: Disk): Header
  {
    DecodeHeader(d[FREE_MAP_SECTOR])
  }

  function DirHeader(d: Disk): Header
  {
    DecodeHeader(d[DIRECTORY_SECTOR])
  }

  /** The two well-known headers can be opened. */
  ghost predicate Bootable(d: Disk)
  {
    && MapHeader(d).WellFormed() && MapHeader(d).numBytes == FREE_MAP_FILE_SIZE
    && DirHeader(d).WellFormed() && DirHeader(d).numBytes == DIRECTORY_FILE_SIZE
  }

  function FreeBits(d: Disk): (bits: seq<bool>)
    requires Bootable(d)
    ensures |bits| == NUM_SECTORS
  {
    BitsOf(DecodeWords(Flat(d, MapHeader(d))), NUM_SECTORS)
  }

  function Table(d: Disk): (t: seq<DirectoryEntry>)
    requires Bootable(d)
    ensures |t| == NUM_DIR_ENTRIES
  {
    DecodeTable(Flat(d, DirHeader(d)), NUM_DIR_ENTRIES)
  }

  function EntrySlot(d: Disk, e: DirectoryEntry): Slot
  {
    if !e.inUse then Free
    else Used(e.Key(), e.sector, if 0 <= e.sector < NUM_SECTORS then DecodeHeader(d[e.sector]) else Header(0, 0, []))
  }

  function Slots(d: Disk): (slots: seq<Slot>)
    requires Bootable(d)
    ensures |slots| == NUM_SLOTS
  {
    seq(NUM_SLOTS, k requires 0 <= k < NUM_SLOTS =>
      if k == 0 then Used([], FREE_MAP_SECTOR, MapHeader(d))
      else if k == 1 then Used([], DIRECTORY_SECTOR, DirHeader(d))
      else EntrySlot(d, Table(d)[k - 2]))
  }

  lemma SlotAt(d: Disk, k: nat)
    requires Bootable(d) && 2 <= k < NUM_SLOTS
    ensures Slots(d)[k] == EntrySlot(d, Table(d)[k - 2])
  {
  }

  /** The file-system invariant, stated on the bytes of the disk. */
  ghost predicate Consistent(d: Disk)
  {
    Bootable(d) && Invariant(FreeBits(d), Slots(d))
  }

  /** Slots that can be read as files under different names. */
  ghost predicate Readable(slots: seq<Slot>)
  {
    DistinctNames(slots) && forall k :: 0 <= k < |slots| && slots[k].Used? ==> slots[k].header.WellFormed()
  }

  /** The files in a row of slots: names to contents. */
  ghost function FilesOf(d: Disk, slots: seq<Slot>): map<seq<Byte>, seq<Byte>>
    requires Readable(slots)
  {
    map k | 2 <= k < |slots| && slots[k].Used? :: slots[k].key := Flat(d, slots[k].header)
  }

  lemma FilesAt(d: Disk, slots: seq<Slot>, k: nat)
    requires Readable(slots) && 2 <= k < |slots| && slots[k].Used?
    ensures slots[k].key in FilesOf(d, slots) && FilesOf(d, slots)[slots[k].key] == Flat(d, slots[k].header)
  {
    hide Flat;
  }

  /** One slot's file is new, gone or changed, and the others are as they were. */
  lemma FilesElsewhere(d: Disk, d': Disk, slots: seq<Slot>, slots': seq<Slot>, i: nat)
    requires Readable(slots) && Readable(slots') && 2 <= i < |slots| == |slots'| && slots' == slots[i := slots'[i]]
    requires forall j :: 2 <= j < |slots| && j != i && slots[j].Used? ==>
      Flat(d', slots[j].header) == Flat(d, slots[j].header)
    ensures forall j :: 2 <= j < |slots| && j != i && slots[j].Used? ==>
      && slots[j].key in FilesOf(d', slots') && slots[j].key in FilesOf(d, slots)
      && FilesOf(d', slots')[slots[j].key] == FilesOf(d, slots)[slots[j].key]
  {
    hide Flat, FilesOf;
    forall j | 2 <= j < |slots| && j != i && slots[j].Used?
      ensures slots[j].key in FilesOf(d', slots') && slots[j].key in FilesOf(d, slots)
      ensures FilesOf(d', slots')[slots[j].key] == FilesOf(d, slots)[slots[j].key]
    {
      FilesAt(d, slots, j);
      FilesAt(d', slots', j);
    }
  }

  lemma FileWritten(d: Disk, d': Disk, slots: seq<Slot>, i: nat)
    requires Readable(slots) && 2 <= i < |slots| && slots[i].Used?
    requires forall j :: 2 <= j < |slots| && j != i && slots[j].Used? ==>
      Flat(d', slots[j].header) == Flat(d, slots[j].header)
    ensures FilesOf(d', slots) == FilesOf(d, slots)[slots[i].key := Flat(d', slots[i].header)]
  {
    hide Flat;
    FilesElsewhere(d, d', slots, slots, i);
    FilesAt(d', slots, i);
  }

  lemma FileNew(d: Disk, d': Disk, slots: seq<Slot>, slots': seq<Slot>, i: nat)
    requires Readable(slots) && Readable(slots') && 2 <= i < |slots| == |slots'| && slots' == slots[i := slots'[i]]
    requires slots[i].Free? && slots'[i].Used?
    requires forall j :: 2 <= j < |slots| && j != i && slots[j].Used? ==>
      Flat(d', slots[j].header) == Flat(d, slots[j].header)
    ensures slots'[i].key !in FilesOf(d, slots)
    ensures FilesOf(d', slots') == FilesOf(d, slots)[slots'[i].key := Flat(d', slots'[i].header)]
  {
    hide Flat, Readable;
    FilesElsewhere(d, d', slots, slots', i);
    FilesAt(d', slots', i);
    NameIsNew(d, slots, slots', i);
  }

  lemma NameIsNew(d: Disk, slots: seq<Slot>, slots': seq<Slot>, i: nat)
    requires Readable(slots) && Readable(slots') && 2 <= i < |slots| == |slots'| && slots' == slots[i := slots'[i]]
    requires slots[i].Free? && slots'[i].Used?
    ensures slots'[i].key !in FilesOf(d, slots)
  {
    forall j | 2 <= j < |slots| && slots[j].Used?
      ensures slots[j].key != slots'[i].key
    {
      assert slots'[j] == slots[j];
    }
  }

  lemma FileGone(d: Disk, d': Disk, slots: seq<Slot>, slots': seq<Slot>, i: nat)
    requires Readable(slots) && Readable(slots') && 2 <= i < |slots| == |slots'| && slots' == slots[i := slots'[i]]
    requires slots[i].Used? && slots'[i].Free?
    requires forall j :: 2 <= j < |slots| && j != i && slots[j].Used? ==>
      Flat(d', slots[j].header) == Flat(d, slots[j].header)
    ensures FilesOf(d', slots') == FilesOf(d, slots) - {slots[i].key}
  {
    hide Flat, FilesOf;
    FileNew(d', d, slots', slots, i);
  }

  lemma SlotsReadable(bits: seq<bool>, slots: seq<Slot>)
    requires Invariant(bits, slots)
    ensures Readable(slots)
  {
    forall k | 0 <= k < |slots| && slots[k].Used?
      ensures slots[k].header.WellFormed()
    {
      assert slots[k].WellFormed();
    }
  }

  /** The user's view of a disk. */
  ghost function FileMap(d: Disk): map<seq<Byte>, seq<Byte>>
    requires Consistent(d)
  {
    SlotsReadable(FreeBits(d), Slots(d));
    FilesOf(d, Slots(d))
  }

  lemma FileMapAt(d: Disk, k: nat)
    requires Consistent(d) && 2 <= k < NUM_SLOTS && Slots(d)[k].Used?
    ensures Slots(d)[k].key in FileMap(d) && FileMap(d)[Slots(d)[k].key] == Flat(d, Slots(d)[k].header)
  {
    hide Slots, FreeBits, Flat, Invariant, FilesOf;
    SlotsReadable(FreeBits(d), Slots(d));
    FilesAt(d, Slots(d), k);
  }

  lemma FileMapIndex(d: Disk, key: seq<Byte>) returns (k: nat)
    requires Consistent(d) && key in FileMap(d)
    ensures 2 <= k < NUM_SLOTS && Slots(d)[k].Used? && Slots(d)[k].key == key
    ensures FileMap(d)[key] == Flat(d, Slots(d)[k].header)
  {
    hide Slots, FreeBits, Flat, Invariant;
    SlotsReadable(FreeBits(d), Slots(d));
    k :| 2 <= k < NUM_SLOTS && Slots(d)[k].Used? && Slots(d)[k].key == key;
    FileMapAt(d, k);
  }

  // ---------- which sectors a system update leaves alone ----------

  /** Only the contents of the free map and the directory, and the sectors of extra, may differ. */
  ghost predicate SystemUpdate(d: Disk, d': Disk, extra: set<int>)
    requires Bootable(d)
  {
    forall t :: 0 <= t < NUM_SECTORS && t !in MapHeader(d).Data() && t !in DirHeader(d).Data() && t !in extra ==>
      d'[t] == d[t]
  }

  /** Headers of existing files, and data of user files, survive a system update on clear sectors. */
  lemma UpdateSpares(d: Disk, d': Disk, extra: set<int>, k: nat, t: int)
    requires Consistent(d) && SystemUpdate(d, d', extra) && k < NUM_SLOTS && Slots(d)[k].Owns(t)
    requires forall x :: x in extra && 0 <= x < NUM_SECTORS ==> !FreeBits(d)[x]
    requires k >= 2 || t == Slots(d)[k].hdrSector
    ensures 0 <= t < NUM_SECTORS && d'[t] == d[t]
  {
    var slots, bits := Slots(d), FreeBits(d);
    SlotSectorInRange(slots[k], t);
    MarkedIffOwned(bits, slots, k, t);
    assert slots[0].header == MapHeader(d) && slots[1].header == DirHeader(d);
    assert k != 0 ==> !slots[0].Owns(t);
    assert k != 1 ==> !slots[1].Owns(t);
  }

  lemma UpdateKeepsHeaders(d: Disk, d': Disk, extra: set<int>)
    requires Consistent(d) && SystemUpdate(d, d', extra)
    requires forall x :: x in extra && 0 <= x < NUM_SECTORS ==> !FreeBits(d)[x]
    ensures MapHeader(d') == MapHeader(d) && DirHeader(d') == DirHeader(d) && Bootable(d')
    ensures forall k :: 2 <= k < NUM_SLOTS && Slots(d)[k].Used? ==>
      EntrySlot(d', Table(d)[k - 2]) == Slots(d)[k]
  {
    hide DecodeHeader, DecodeTable, FreeBits, Flat;
    UpdateSpares(d, d', extra, 0, FREE_MAP_SECTOR);
    UpdateSpares(d, d', extra, 1, DIRECTORY_SECTOR);
    forall k | 2 <= k < NUM_SLOTS && Slots(d)[k].Used?
      ensures EntrySlot(d', Table(d)[k - 2]) == Slots(d)[k]
    {
      SlotAt(d, k);
      UpdateSpares(d, d', extra, k, Slots(d)[k].hdrSector);
    }
  }

  lemma UpdateKeepsContents(d: Disk, d': Disk, extra: set<int>, k: nat)
    requires Consistent(d) && SystemUpdate(d, d', extra) && 2 <= k < NUM_SLOTS && Slots(d)[k].Used?
    requires forall x :: x in extra && 0 <= x < NUM_SECTORS ==> !FreeBits(d)[x]
    ensures Slots(d)[k].header.WellFormed() && Flat(d', Slots(d)[k].header) == Flat(d, Slots(d)[k].header)
  {
    var h := Slots(d)[k].header;
    assert Slots(d)[k].WellFormed();
    forall t | t in h.Data()
      ensures d'[t] == d[t]
    {
      UpdateSpares(d, d', extra, k, t);
    }
    FlatFrame(d, d', h);
  }

  // ---------- adding and removing a file ----------

  /** d' is d with one more file, in directory entry i. */
  ghost predicate FileAdded(d: Disk, d': Disk, i: nat, file: Slot)
  {
    && Consistent(d) && Bootable(d') && i < NUM_DIR_ENTRIES
    && MapHeader(d') == MapHeader(d) && DirHeader(d') == DirHeader(d)
    && FreeBits(d') == WithAll(FreeBits(d), file.Sectors(), true)
    && Slots(d') == Slots(d)[i + 2 := file]
  }

  ghost predicate FileRemoved(d: Disk, d': Disk, i: nat)
  {
    && Consistent(d) && Bootable(d') && i < NUM_DIR_ENTRIES
    && MapHeader(d') == MapHeader(d) && DirHeader(d') == DirHeader(d)
    && FreeBits(d') == WithAll(FreeBits(d), Slots(d)[i + 2].Sectors(), false)
    && Slots(d') == Slots(d)[i + 2 := Free]
  }

  /** The three write-backs of Create add the file. */
  lemma WritesAddFile(d: Disk, d': Disk, i: nat, file: Slot, table: seq<DirectoryEntry>)
    requires Consistent(d) && file.Used? && file.WellFormed() && i < NUM_DIR_ENTRIES
    requires forall s :: file.Owns(s) ==> !FreeBits(d)[s]
    requires SystemUpdate(d, d', {file.hdrSector}) && DecodeHeader(d'[file.hdrSector]) == file.header
    requires |table| == NUM_DIR_ENTRIES && table == Table(d)[i := table[i]]
    requires table[i].inUse && table[i].Key() == file.key && table[i].sector == file.hdrSector
    requires !Table(d)[i].inUse
    requires Bootable(d') ==> Table(d') == table && FreeBits(d') == WithAll(FreeBits(d), file.Sectors(), true)
    ensures FileAdded(d, d', i, file)
  {
    hide DecodeHeader, DecodeTable, FreeBits, Flat;
    UpdateKeepsHeaders(d, d', {file.hdrSector});
    var want := Slots(d)[i + 2 := file];
    forall k | 0 <= k < NUM_SLOTS
      ensures Slots(d')[k] == want[k]
    {
      if k >= 2 { SlotAt(d, k); SlotAt(d', k); }
    }
  }

  lemma WritesRemoveFile(d: Disk, d': Disk, i: nat, table: seq<DirectoryEntry>)
    requires Consistent(d) && i < NUM_DIR_ENTRIES && Slots(d)[i + 2].Used?
    requires SystemUpdate(d, d', {})
    requires table == Table(d)[i := Table(d)[i].(inUse := false)]
    requires Bootable(d') ==> Table(d') == table && FreeBits(d') == WithAll(FreeBits(d), Slots(d)[i + 2].Sectors(), false)
    ensures FileRemoved(d, d', i)
  {
    hide DecodeHeader, DecodeTable, FreeBits, Flat;
    UpdateKeepsHeaders(d, d', {});
    var want := Slots(d)[i + 2 := Free];
    forall k | 0 <= k < NUM_SLOTS
      ensures Slots(d')[k] == want[k]
    {
      if k >= 2 { SlotAt(d, k); SlotAt(d', k); }
    }
  }

  /** Adding a file on clear sectors under a new name keeps the disk consistent. */
  lemma AddedIsConsistent(d: Disk, d': Disk, i: nat, file: Slot)
    requires FileAdded(d, d', i, file) && file.Used? && file.WellFormed() && Slots(d)[i + 2].Free?
    requires forall s :: file.Owns(s) ==> !FreeBits(d)[s]
    requires forall k :: 2 <= k < NUM_SLOTS && Slots(d)[k].Used? ==> Slots(d)[k].key != file.key
    ensures Consistent(d')
  {
    AddKeepsInvariant(FreeBits(d), Slots(d), i + 2, file);
  }

  lemma RemovedIsConsistent(d: Disk, d': Disk, i: nat)
    requires FileRemoved(d, d', i) && Slots(d)[i + 2].Used?
    ensures Consistent(d')
  {
    RemoveKeepsInvariant(FreeBits(d), Slots(d), i + 2);
  }

  /** To the user, Create adds one name and leaves every other file's bytes alone. */
  lemma AddedFileMap(d: Disk, d': Disk, i: nat, file: Slot)
    requires FileAdded(d, d', i, file) && Consistent(d') && file.Used? && file.WellFormed() && Slots(d)[i + 2].Free?
    requires forall s :: file.Owns(s) ==> !FreeBits(d)[s]
    requires SystemUpdate(d, d', {file.hdrSector})
    ensures file.key !in FileMap(d)
    ensures FileMap(d') == FileMap(d)[file.key := Flat(d', file.header)]
  {
    hide FreeBits, Flat, FilesOf, Slots, Invariant;
    SlotsReadable(FreeBits(d), Slots(d));
    SlotsReadable(FreeBits(d'), Slots(d'));
    forall j | 2 <= j < NUM_SLOTS && j != i + 2 && Slots(d)[j].Used?
      ensures Flat(d', Slots(d)[j].header) == Flat(d, Slots(d)[j].header)
    {
      UpdateKeepsContents(d, d', {file.hdrSector}, j);
    }
    FileNew(d, d', Slots(d), Slots(d'), i + 2);
  }

  /** To the user, Remove takes one name away and leaves every other file's bytes alone. */
  lemma RemovedFileMap(d: Disk, d': Disk, i: nat)
    requires FileRemoved(d, d', i) && Consistent(d') && Slots(d)[i + 2].Used? && SystemUpdate(d, d', {})
    ensures Slots(d)[i + 2].key in FileMap(d)
    ensures FileMap(d') == FileMap(d) - {Slots(d)[i + 2].key}
  {
    hide FreeBits, Flat, FilesOf, Slots, Invariant;
    SlotsReadable(FreeBits(d), Slots(d));
    SlotsReadable(FreeBits(d'), Slots(d'));
    forall j | 2 <= j < NUM_SLOTS && j != i + 2 && Slots(d)[j].Used?
      ensures Flat(d', Slots(d)[j].header) == Flat(d, Slots(d)[j].header)
    {
      UpdateKeepsContents(d, d', {}, j);
    }
    FileGone(d, d', Slots(d), Slots(d'), i + 2);
    FileMapAt(d, i + 2);
  }

  // ---------- writing a user file's data ----------

  lemma UserWriteSpares(d: Disk, d': Disk, k: nat, j: nat, t: int)
    requires Consistent(d) && 2 <= k < NUM_SLOTS && Slots(d)[k].Used? && OnlyDataChanged(d, d', Slots(d)[k].header)
    requires j < NUM_SLOTS && Slots(d)[j].Owns(t) && (j != k || t == Slots(d)[k].hdrSector)
    ensures 0 <= t < NUM_SECTORS && d'[t] == d[t]
  {
    hide FreeBits, Slots;
    assert Slots(d)[j].WellFormed() && Slots(d)[k].WellFormed();
    SlotSectorInRange(Slots(d)[j], t);
    if j != k { OwnersApart(FreeBits(d), Slots(d), j, k, t); }
  }

  lemma UserWriteKeepsContents(d: Disk, d': Disk, k: nat, j: nat)
    requires Consistent(d) && 2 <= k < NUM_SLOTS && Slots(d)[k].Used? && OnlyDataChanged(d, d', Slots(d)[k].header)
    requires j < NUM_SLOTS && Slots(d)[j].Used? && j != k
    ensures Slots(d)[j].header.WellFormed() && Flat(d', Slots(d)[j].header) == Flat(d, Slots(d)[j].header)
  {
    hide FreeBits, Slots, Flat;
    var h := Slots(d)[j].header;
    assert Slots(d)[j].WellFormed();
    forall t | t in h.Data()
      ensures d'[t] == d[t]
    {
      UserWriteSpares(d, d', k, j, t);
    }
    FlatFrame(d, d', h);
  }

  lemma UserWriteKeepsSystem(d: Disk, d': Disk, k: nat)
    requires Consistent(d) && 2 <= k < NUM_SLOTS && Slots(d)[k].Used? && OnlyDataChanged(d, d', Slots(d)[k].header)
    ensures Bootable(d') && FreeBits(d') == FreeBits(d) && Slots(d') == Slots(d)
  {
    UserWriteSpares(d, d', k, 0, FREE_MAP_SECTOR);
    UserWriteSpares(d, d', k, 1, DIRECTORY_SECTOR);
    assert MapHeader(d') == MapHeader(d) && DirHeader(d') == DirHeader(d);
    assert Slots(d)[0].header == MapHeader(d) && Slots(d)[1].header == DirHeader(d);
    UserWriteKeepsContents(d, d', k, 0);
    UserWriteKeepsContents(d, d', k, 1);
    assert Table(d') == Table(d);
    forall j | 0 <= j < NUM_SLOTS
      ensures Slots(d')[j] == Slots(d)[j]
    {
      hide DecodeHeader, DecodeTable, FreeBits, Flat;
      if j >= 2 {
        SlotAt(d, j);
        SlotAt(d', j);
        if Slots(d)[j].Used? { UserWriteSpares(d, d', k, j, Slots(d)[j].hdrSector); }
      }
    }
  }

  /** A write confined to one user file's data keeps the disk consistent and every other file as it was. */
  lemma UserWrite(d: Disk, d': Disk, k: nat)
    requires Consistent(d) && 2 <= k < NUM_SLOTS && Slots(d)[k].Used?
    requires OnlyDataChanged(d, d', Slots(d)[k].header)
    ensures Consistent(d') && FreeBits(d') == FreeBits(d) && Slots(d') == Slots(d)
    ensures FileMap(d') == FileMap(d)[Slots(d)[k].key := Flat(d', Slots(d)[k].header)]
  {
    UserWriteKeepsSystem(d, d', k);
    assert Consistent(d');
    hide FreeBits, Flat, FilesOf, Slots, Invariant, MapHeader, DirHeader;
    SlotsReadable(FreeBits(d), Slots(d));
    forall j | 2 <= j < NUM_SLOTS && j != k && Slots(d)[j].Used?
      ensures Flat(d', Slots(d)[j].header) == Flat(d, Slots(d)[j].header)
    {
      UserWriteKeepsContents(d, d', k, j);
    }
    FileWritten(d, d', Slots(d), k);
  }
}
