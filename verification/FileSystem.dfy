/**
 The file system proper (filesys/filesys.cc): format, Create, Open and Remove, on the bytes of the
 disk. Each operation keeps the ownership invariant and acts on the user's map of files.
 */
module FileSystems {
  import opened Words
  import opened Bitmaps
  import opened Files
  import opened OpenFiles
  import opened Directories
  import opened SectorOwnership
  import opened DiskLayout

  /** Key under which a name of any length is filed. */
  function NameKey(name: seq<Byte>): seq<Byte>
  {
    Canon(name, FILE_NAME_MAX_LEN)
  }

  /** A name counts for its first nine characters. */
  lemma NineCharacters(name: seq<Byte>)
    requires 0 !in name
    ensures NameKey(name) == if |name| <= 9 then name else name[..9]
  {
    CanonIsPrefix(name, 9);
  }

  // ---------- what Create and Remove do, as relations on disks ----------

  /** What Create needs: a new name, an unused entry, a clear sector for the header and enough for the data. */
  ghost predicate CanCreate(d: Disk, name: seq<Byte>, size: nat)
    requires Bootable(d)
  {
    && Absent(Table(d), name) && !Full(Table(d))
    && CountClear(FreeBits(d)) >= 1 + DivRoundUp(size, SECTOR_SIZE)
  }

  /** d' is d plus the new file, laid out first fit, of the given size. */
  ghost predicate Created(d: Disk, d': Disk, name: seq<Byte>, size: nat, i: nat, file: Slot)
  {
    && FileAdded(d, d', i, file) && Consistent(d')
    && IsFirstUnused(Table(d), i)
    && file.Used? && file.key == NameKey(name) && file.header.WellFormed() && file.header.numBytes == size
    && FirstFit(FreeBits(d), file.Sectors())
    && file.key !in FileMap(d)
    && FileMap(d') == FileMap(d)[file.key := Flat(d', file.header)]
  }

  ghost predicate Removed(d: Disk, d': Disk, name: seq<Byte>, i: nat)
  {
    && FileRemoved(d, d', i) && Consistent(d')
    && Slots(d)[i + 2].Used? && Slots(d)[i + 2].key == NameKey(name)
    && NameKey(name) in FileMap(d)
    && FileMap(d') == FileMap(d) - {NameKey(name)}
  }

  /** A header sector found first, and data sectors found after it, are together a first fit. */
  lemma HeaderThenData(bits: seq<bool>, s: int, data: seq<int>)
    requires IsFirstClear(bits, s) && FirstFit(bits[s := true], data)
    ensures FirstFit(bits, [s] + data)
    ensures WithAll(bits[s := true], data, true) == WithAll(bits, [s] + data, true)
  {
    var all := [s] + data;
    var bits' := bits[s := true];
    forall i | 0 <= i < |data|
      ensures s < data[i] < |bits| && !bits[data[i]]
    {
      assert !bits'[data[i]];
    }
    forall i, j | 0 <= i < j < |all|
      ensures all[i] < all[j]
    {
      if i > 0 { assert data[i - 1] < data[j - 1]; }
    }
    forall t, i | 0 <= i < |all| && 0 <= t < all[i] && !bits[t]
      ensures t in all[..i]
    {
      assert i > 0;
      if t == s {
        assert all[..i][0] == s;
      } else {
        assert !bits'[t] && t in data[..i - 1];
        assert all[..i] == [s] + data[..i - 1];
      }
    }
  }

  lemma FirstFitIsClear(bits: seq<bool>, taken: seq<int>, s: int)
    requires FirstFit(bits, taken) && s in taken
    ensures 0 <= s < |bits| && !bits[s]
  {
    var i :| 0 <= i < |taken| && taken[i] == s;
  }

  /** The new file owns only sectors that were clear. */
  lemma NewFileIsClear(bits: seq<bool>, file: Slot)
    requires |bits| == NUM_SECTORS && file.Used? && FirstFit(bits, file.Sectors()) && file.header.WellFormed()
    ensures file.WellFormed() && forall s :: file.Owns(s) ==> 0 <= s < NUM_SECTORS && !bits[s]
  {
    var all := file.Sectors();
    assert all[0] == file.hdrSector;
    forall s | file.Owns(s)
      ensures 0 <= s < NUM_SECTORS && !bits[s]
    {
      OwnsIsInSectors(file, s);
      FirstFitIsClear(bits, all, s);
    }
    forall i | 0 <= i < |file.header.Data()|
      ensures file.header.Data()[i] != file.hdrSector
    {
      assert all[0] < all[i + 1];
    }
  }

  lemma AbsentKeys(d: Disk, name: seq<Byte>, k: nat)
    requires Bootable(d) && Absent(Table(d), name) && 2 <= k < NUM_SLOTS && Slots(d)[k].Used?
    ensures Slots(d)[k].key != NameKey(name)
  {
    SlotAt(d, k);
  }

  /** What reached the disk when Create flushed header, directory and map. */
  ghost predicate Flushed(d: Disk, d': Disk, file: Slot, table: seq<DirectoryEntry>)
  {
    && Bootable(d) && file.Used? && 0 <= file.hdrSector < NUM_SECTORS
    && SystemUpdate(d, d', {file.hdrSector})
    && DecodeHeader(d'[file.hdrSector]) == file.header
    && (Bootable(d') ==> Table(d') == table && FreeBits(d') == WithAll(FreeBits(d), file.Sectors(), true))
  }

  /** Every in-use entry names a sector of the disk, so Find answers -1 only for an absent name. */
  lemma FoundSector(d: Disk, name: seq<Byte>, i: int)
    requires Consistent(d) && Finds(Table(d), name, i)
    ensures 0 <= Table(d)[i].sector < NUM_SECTORS && Slots(d)[i + 2].Used?
  {
    hide Table, FreeBits, Slots, DecodeHeader, Disjoint, Owned;
    SlotAt(d, i + 2);
    assert Slots(d)[i + 2].WellFormed();
  }

  lemma FoundSectors(d: Disk, name: seq<Byte>)
    requires Consistent(d)
    ensures forall i :: Finds(Table(d), name, i) ==> 0 <= Table(d)[i].sector < NUM_SECTORS && Slots(d)[i + 2].Used?
  {
    hide Table, FreeBits, Slots, Invariant;
    forall i | Finds(Table(d), name, i)
      ensures 0 <= Table(d)[i].sector < NUM_SECTORS && Slots(d)[i + 2].Used?
    {
      FoundSector(d, name, i);
    }
  }

  /** Data sectors of the free map are not data sectors of the directory, and neither holds a clear sector. */
  lemma SystemFilesApart(d: Disk, t: int)
    requires Consistent(d)
    ensures t in DirHeader(d).Data() ==> t !in MapHeader(d).Data() && 0 <= t < NUM_SECTORS && FreeBits(d)[t]
    ensures t in MapHeader(d).Data() ==> 0 <= t < NUM_SECTORS && FreeBits(d)[t]
  {
    hide DecodeHeader, DecodeTable, FreeBits, Flat;
    var slots := Slots(d);
    assert slots[0].header == MapHeader(d) && slots[1].header == DirHeader(d);
    assert slots[0].WellFormed() && slots[1].WellFormed();
    if t in DirHeader(d).Data() {
      assert slots[1].Owns(t);
      SlotSectorInRange(slots[1], t);
      MarkedIffOwned(FreeBits(d), slots, 1, t);
      OwnersApart(FreeBits(d), slots, 1, 0, t);
    }
    if t in MapHeader(d).Data() {
      assert slots[0].Owns(t);
      SlotSectorInRange(slots[0], t);
      MarkedIffOwned(FreeBits(d), slots, 0, t);
    }
  }

  /** Writing the directory and then the free map leaves both as written. */
  lemma TwoWriteBacks(d: Disk, d1: Disk, d2: Disk, d3: Disk, extra: set<int>)
    requires Consistent(d) && (forall x :: x in extra ==> 0 <= x < NUM_SECTORS && !FreeBits(d)[x])
    requires forall t :: 0 <= t < NUM_SECTORS && t !in extra ==> d1[t] == d[t]
    requires OnlyDataChanged(d1, d2, DirHeader(d)) && OnlyDataChanged(d2, d3, MapHeader(d))
    ensures SystemUpdate(d, d3, extra) && (forall x :: x in extra ==> d3[x] == d1[x])
    ensures Bootable(d3) && MapHeader(d3) == MapHeader(d) && DirHeader(d3) == DirHeader(d)
    ensures Flat(d3, DirHeader(d)) == Flat(d2, DirHeader(d))
  {
    hide DecodeHeader, DecodeTable, FreeBits, Flat;
    forall x | x in extra
      ensures d3[x] == d1[x]
    {
      SystemFilesApart(d, x);
    }
    UpdateKeepsHeaders(d, d3, extra);
    forall t | t in DirHeader(d).Data()
      ensures d3[t] == d2[t]
    {
      SystemFilesApart(d, t);
    }
    FlatFrame(d2, d3, DirHeader(d));
  }

  lemma FlushedIsCreated(d: Disk, d': Disk, name: seq<Byte>, size: nat, i: nat, file: Slot, table: seq<DirectoryEntry>)
    requires Consistent(d) && Flushed(d, d', file, table)
    requires Absent(Table(d), name) && IsFirstUnused(Table(d), i) && file.key == NameKey(name)
    requires table == Table(d)[i := NewEntry(Table(d)[i], name, file.hdrSector)]
    requires file.header.WellFormed() && file.header.numBytes == size && FirstFit(FreeBits(d), file.Sectors())
    ensures Created(d, d', name, size, i, file)
  {
    hide DecodeHeader, DecodeTable, FreeBits, Flat, FileMap, WithAll, Strncpy;
    CanonStrncpy(Table(d)[i].name, name, FILE_NAME_MAX_LEN);
    NewFileIsClear(FreeBits(d), file);
    WritesAddFile(d, d', i, file, table);
    SlotAt(d, i + 2);
    forall k | 2 <= k < NUM_SLOTS && Slots(d)[k].Used?
      ensures Slots(d)[k].key != file.key
    {
      AbsentKeys(d, name, k);
    }
    AddedIsConsistent(d, d', i, file);
    AddedFileMap(d, d', i, file);
  }

  lemma WritesAreRemoved(d: Disk, d': Disk, name: seq<Byte>, i: nat)
    requires Consistent(d) && Finds(Table(d), name, i) && SystemUpdate(d, d', {})
    requires Slots(d)[i + 2].Used?
    requires Bootable(d') ==>
      && Table(d') == Table(d)[i := Table(d)[i].(inUse := false)]
      && FreeBits(d') == WithAll(FreeBits(d), Slots(d)[i + 2].Sectors(), false)
    ensures Removed(d, d', name, i)
  {
    hide DecodeHeader, DecodeTable, FreeBits, Flat, FileMap, WithAll;
    SlotAt(d, i + 2);
    WritesRemoveFile(d, d', i, Table(d)[i := Table(d)[i].(inUse := false)]);
    RemovedIsConsistent(d, d', i);
    RemovedFileMap(d, d', i);
  }

  lemma FreeBitsOf(d: Disk, words: seq<Word>)
    requires Bootable(d) && DecodeWords(Flat(d, MapHeader(d))) == words
    ensures |words| == 32 && FreeBits(d) == BitsOf(words, NUM_SECTORS)
  {
  }

  lemma DataThenHeader(bits: seq<bool>, s: nat, data: seq<int>)
    requires s < |bits|
    ensures WithAll(bits, data, false)[s := false] == WithAll(bits, [s] + data, false)
  {
  }

  /** Slot k of the disk is a user's file with this key and header. */
  ghost predicate IsFileSlot(d: Disk, k: nat, key: seq<Byte>, h: Header)
  {
    Bootable(d) && 2 <= k < NUM_SLOTS && Slots(d)[k].Used? && Slots(d)[k].key == key && Slots(d)[k].header == h
  }

  lemma FoundFile(d: Disk, name: seq<Byte>, i: nat)
    requires Consistent(d) && Finds(Table(d), name, i)
    ensures 0 <= Table(d)[i].sector < NUM_SECTORS
    ensures
      var h := DecodeHeader(d[Table(d)[i].sector]);
      && h.WellFormed() && Slots(d)[i + 2] == Used(NameKey(name), Table(d)[i].sector, h)
      && NameKey(name) in FileMap(d) && FileMap(d)[NameKey(name)] == Flat(d, h)
  {
    hide DecodeHeader, DecodeTable, FreeBits, Flat, FileMap;
    SlotAt(d, i + 2);
    assert Slots(d)[i + 2].WellFormed();
    FileMapAt(d, i + 2);
  }

  lemma AbsentFile(d: Disk, name: seq<Byte>)
    requires Consistent(d) && Absent(Table(d), name)
    ensures NameKey(name) !in FileMap(d)
  {
    hide DecodeHeader, DecodeTable, FreeBits, Flat, FileMap, Slots;
    if NameKey(name) in FileMap(d) {
      var k := FileMapIndex(d, NameKey(name));
      AbsentKeys(d, name, k);
    }
  }

  /** Writing the free map and then the directory, the order Remove uses. */
  lemma WriteBacksRemove(d: Disk, d2: Disk, d3: Disk, name: seq<Byte>, i: nat, words: seq<Word>)
    requires Consistent(d) && Finds(Table(d), name, i)
    requires OnlyDataChanged(d, d2, MapHeader(d)) && OnlyDataChanged(d2, d3, DirHeader(d))
    requires DecodeWords(Flat(d2, MapHeader(d))) == words && |words| == 32
    requires BitsOf(words, NUM_SECTORS) == WithAll(FreeBits(d), Slots(d)[i + 2].Sectors(), false)
    requires DecodeTable(Flat(d3, DirHeader(d)), NUM_DIR_ENTRIES) == Table(d)[i := Table(d)[i].(inUse := false)]
    ensures Removed(d, d3, name, i)
  {
    hide DecodeHeader, DecodeTable, Flat, FileMap, WithAll, BitsOf, DecodeWords;
    assert SystemUpdate(d, d3, {});
    UpdateKeepsHeaders(d, d3, {});
    forall t | t in MapHeader(d).Data()
      ensures d3[t] == d2[t]
    {
      SystemFilesApart(d, t);
    }
    FlatFrame(d2, d3, MapHeader(d));
    FoundFile(d, name, i);
    WritesAreRemoved(d, d3, name, i);
  }

  // ---------- format ----------

  lemma {:induction false} AllClearCount(bits: seq<bool>)
    requires forall i :: 0 <= i < |bits| ==> !bits[i]
    ensures CountClear(bits) == |bits|
  {
    if bits != [] { AllClearCount(bits[..|bits| - 1]); }
  }

  /** A first fit uses up as many clear positions as it takes. */
  lemma TakenCount(bits: seq<bool>, taken: seq<int>)
    requires FirstFit(bits, taken)
    ensures CountClear(WithAll(bits, taken, true)) == CountClear(bits) - |taken|
  {
    MarkedCount(bits, taken);
  }

  /** The slots of a freshly formatted disk: the two system files and nothing else. */
  function FormatSlots(mapHdr: Header, dirHdr: Header): (slots: seq<Slot>)
    ensures |slots| == NUM_SLOTS
  {
    seq(NUM_SLOTS, k => if k == 0 then Used([], FREE_MAP_SECTOR, mapHdr)
                        else if k == 1 then Used([], DIRECTORY_SECTOR, dirHdr) else Free)
  }

  /** The map that format builds: sectors 0 and 1, then room for the map, then for the directory. */
  ghost predicate FormatBits(bits: seq<bool>, mapHdr: Header, dirHdr: Header)
  {
    && |bits| == NUM_SECTORS && mapHdr.WellFormed() && dirHdr.WellFormed()
    && (forall s :: s in mapHdr.Data() ==> s >= 2)
    && (forall s :: s in dirHdr.Data() ==> s >= 2 && s !in mapHdr.Data())
    && (forall s :: 0 <= s < NUM_SECTORS ==> (bits[s] <==> s < 2 || s in mapHdr.Data() || s in dirHdr.Data()))
  }

  lemma AllocationsFormat(start: seq<bool>, mid: seq<bool>, bits: seq<bool>, mapHdr: Header, dirHdr: Header)
    requires |start| == NUM_SECTORS && forall s :: 0 <= s < NUM_SECTORS ==> (start[s] <==> s < 2)
    requires mapHdr.WellFormed() && dirHdr.WellFormed()
    requires FirstFit(start, mapHdr.Data()) && mid == WithAll(start, mapHdr.Data(), true)
    requires FirstFit(mid, dirHdr.Data()) && bits == WithAll(mid, dirHdr.Data(), true)
    ensures FormatBits(bits, mapHdr, dirHdr)
  {
    forall s | s in mapHdr.Data()
      ensures s >= 2
    {
      FirstFitIsClear(start, mapHdr.Data(), s);
    }
    forall s | s in dirHdr.Data()
      ensures s >= 2 && s !in mapHdr.Data()
    {
      FirstFitIsClear(mid, dirHdr.Data(), s);
    }
  }

  lemma FormatInvariant(bits: seq<bool>, mapHdr: Header, dirHdr: Header)
    requires FormatBits(bits, mapHdr, dirHdr)
    ensures Invariant(bits, FormatSlots(mapHdr, dirHdr))
  {
    var slots := FormatSlots(mapHdr, dirHdr);
    FormatDisjoint(bits, mapHdr, dirHdr);
    hide Disjoint;
    forall s | 0 <= s < NUM_SECTORS
      ensures bits[s] <==> Owned(slots, s)
    {
      FormatOwned(bits, mapHdr, dirHdr, s);
    }
  }

  lemma FormatDisjoint(bits: seq<bool>, mapHdr: Header, dirHdr: Header)
    requires FormatBits(bits, mapHdr, dirHdr)
    ensures Disjoint(FormatSlots(mapHdr, dirHdr))
  {
  }

  lemma FormatOwned(bits: seq<bool>, mapHdr: Header, dirHdr: Header, s: nat)
    requires FormatBits(bits, mapHdr, dirHdr) && s < NUM_SECTORS
    ensures bits[s] <==> Owned(FormatSlots(mapHdr, dirHdr), s)
  {
    var slots := FormatSlots(mapHdr, dirHdr);
    assert slots[0].Owns(s) <==> s == 0 || s in mapHdr.Data();
    assert slots[1].Owns(s) <==> s == 1 || s in dirHdr.Data();
  }

  /** The writes of format: two headers, the map's contents, the directory's contents. */
  lemma FormatWrites(d1: Disk, d2: Disk, d3: Disk, bits: seq<bool>, table: seq<DirectoryEntry>)
    requires Bootable(d1) && FormatBits(bits, MapHeader(d1), DirHeader(d1))
    requires OnlyDataChanged(d1, d2, MapHeader(d1)) && OnlyDataChanged(d2, d3, DirHeader(d1))
    requires BitsOf(DecodeWords(Flat(d2, MapHeader(d1))), NUM_SECTORS) == bits
    requires DecodeTable(Flat(d3, DirHeader(d1)), NUM_DIR_ENTRIES) == table
    requires forall i :: 0 <= i < NUM_DIR_ENTRIES ==> !table[i].inUse
    ensures Consistent(d3) && FileMap(d3) == map[] && FreeBits(d3) == bits
    ensures MapHeader(d3) == MapHeader(d1) && DirHeader(d3) == DirHeader(d1)
  {
    hide DecodeHeader, DecodeTable, BitsOf, DecodeWords, Flat, Invariant;
    assert d3[0] == d1[0] && d3[1] == d1[1];
    FlatFrame(d2, d3, MapHeader(d1));
    FormatInvariant(bits, MapHeader(d1), DirHeader(d1));
    assert MapHeader(d3) == MapHeader(d1) && DirHeader(d3) == DirHeader(d1);
    assert Table(d3) == table;
    assert Slots(d3) == FormatSlots(MapHeader(d1), DirHeader(d1)) by {
      forall k | 0 <= k < NUM_SLOTS
        ensures Slots(d3)[k] == FormatSlots(MapHeader(d1), DirHeader(d1))[k]
      {
        if k >= 2 { SlotAt(d3, k); }
      }
    }
  }

  /** Marks the two header sectors and allocates the two system files; the source asserts that it works. */
  method AllocateSystemFiles(freeMap: Bitmap, mapHdr: FileHeader, dirHdr: FileHeader)
    requires freeMap.Valid() && freeMap.numBits == NUM_SECTORS && mapHdr.Valid() && dirHdr.Valid() && mapHdr != dirHdr
    requires forall i :: 0 <= i < NUM_SECTORS ==> !freeMap.Bits()[i]
    modifies freeMap.words, mapHdr, dirHdr
    ensures mapHdr.Valid() && mapHdr.View().numBytes == FREE_MAP_FILE_SIZE
    ensures dirHdr.Valid() && dirHdr.View().numBytes == DIRECTORY_FILE_SIZE
    ensures mapHdr.View().WellFormed() && dirHdr.View().WellFormed()
    ensures FormatBits(freeMap.Bits(), mapHdr.View(), dirHdr.View())
  {
    hide BitsOf, WithAll, CountClear;
    ghost var empty := freeMap.Bits();
    AllClearCount(empty);
    freeMap.Mark(FREE_MAP_SECTOR);
    CountClearUpdate(empty, FREE_MAP_SECTOR, true);
    freeMap.Mark(DIRECTORY_SECTOR);
    CountClearUpdate(empty[0 := true], DIRECTORY_SECTOR, true);
    ghost var start := freeMap.Bits();
    var ok := mapHdr.Allocate(freeMap, FREE_MAP_FILE_SIZE);
    assert ok;
    ghost var mid := freeMap.Bits();
    TakenCount(start, mapHdr.View().Data());
    ok := dirHdr.Allocate(freeMap, DIRECTORY_FILE_SIZE);
    assert ok;
    AllocationsFormat(start, mid, freeMap.Bits(), mapHdr.View(), dirHdr.View());
  }

  /** Allocates the system files and writes their headers, so that they can be opened. */
  method WriteSystemHeaders(disk: SynchDisk) returns (freeMap: Bitmap)
    requires disk.Valid()
    modifies disk
    ensures disk.Valid() && Bootable(disk.sectors)
    ensures fresh(freeMap) && fresh(freeMap.words) && freeMap.Valid() && freeMap.numBits == NUM_SECTORS
    ensures FormatBits(freeMap.Bits(), MapHeader(disk.sectors), DirHeader(disk.sectors))
  {
    hide DecodeHeader, EncodeHeader, BitsOf, FormatBits;
    freeMap := new Bitmap(NUM_SECTORS);
    var mapHdr := new FileHeader(Header(0, 0, seq(NUM_DIRECT, _ => 0)));
    var dirHdr := new FileHeader(Header(0, 0, seq(NUM_DIRECT, _ => 0)));
    AllocateSystemFiles(freeMap, mapHdr, dirHdr);
    mapHdr.WriteBack(disk, FREE_MAP_SECTOR);
    dirHdr.WriteBack(disk, DIRECTORY_SECTOR);
    HeaderRoundTrip(mapHdr.View());
    HeaderRoundTrip(dirHdr.View());
  }

  /** Writes the map and the empty directory into their files. */
  method WriteInitialFiles(
    disk: SynchDisk, freeMap: Bitmap, directory: Directory, freeMapFile: OpenFile, directoryFile: OpenFile)
    requires disk.Valid() && Bootable(disk.sectors) && freeMapFile.disk == disk && directoryFile.disk == disk
    requires freeMap.Valid() && freeMap.numBits == NUM_SECTORS && directory.Valid() && directory.table.Length == NUM_DIR_ENTRIES
    requires FormatBits(freeMap.Bits(), MapHeader(disk.sectors), DirHeader(disk.sectors))
    requires forall i :: 0 <= i < NUM_DIR_ENTRIES ==> !directory.table[i].inUse
    requires freeMapFile.hdr.Valid() && freeMapFile.hdr.View() == MapHeader(disk.sectors)
    requires directoryFile.hdr.Valid() && directoryFile.hdr.View() == DirHeader(disk.sectors)
    modifies disk
    ensures disk.Valid() && Consistent(disk.sectors) && FileMap(disk.sectors) == map[]
    ensures freeMapFile.Valid() && freeMapFile.hdr.View() == MapHeader(disk.sectors)
    ensures directoryFile.Valid() && directoryFile.hdr.View() == DirHeader(disk.sectors)
  {
    hide DecodeHeader, DecodeTable, Flat, FileMap, BitsOf, Invariant, DecodeWords, Slots, FormatBits;
    ghost var d1 := disk.sectors;
    WriteBackBitmap(freeMap, freeMapFile);
    ghost var d2 := disk.sectors;
    directory.WriteBack(directoryFile);
    FormatWrites(d1, d2, disk.sectors, freeMap.Bits(), directory.table[..]);
  }

  class FileSystem {
    const disk: SynchDisk
    const freeMapFile: OpenFile
    const directoryFile: OpenFile

    ghost predicate Valid()
      reads disk, freeMapFile, freeMapFile.hdr, directoryFile, directoryFile.hdr
    {
      && disk.Valid() && Consistent(disk.sectors)
      && freeMapFile.disk == disk && directoryFile.disk == disk
      && freeMapFile.Valid() && freeMapFile.hdr.View() == MapHeader(disk.sectors)
      && directoryFile.Valid() && directoryFile.hdr.View() == DirHeader(disk.sectors)
    }

    /** FileSystem(TRUE): whatever the disk held, it now holds an empty, consistent file system. */
    constructor Format(disk: SynchDisk)
      requires disk.Valid()
      modifies disk
      ensures Valid() && this.disk == disk && fresh(freeMapFile.hdr) && fresh(directoryFile.hdr)
      ensures FileMap(disk.sectors) == map[]
    {
      hide DecodeHeader, EncodeHeader, DecodeTable, Flat, FileMap, WithAll, BitsOf, Invariant, DecodeWords, Slots, CountClear, FormatBits;
      var freeMap := WriteSystemHeaders(disk);
      var directory := new Directory(NUM_DIR_ENTRIES);
      this.disk := disk;
      freeMapFile := new OpenFile(disk, FREE_MAP_SECTOR);
      directoryFile := new OpenFile(disk, DIRECTORY_SECTOR);
      new;
      hide Bootable, Consistent, OnlyDataChanged, MapHeader, DirHeader;
      WriteInitialFiles(disk, freeMap, directory, freeMapFile, directoryFile);
    }

    /** FileSystem(FALSE): opens the two system files of any disk; of a disk in order, it makes a file system in order. */
    constructor Mount(disk: SynchDisk)
      requires disk.Valid()
      ensures this.disk == disk && fresh(freeMapFile.hdr) && fresh(directoryFile.hdr)
      ensures freeMapFile.hdr.View() == MapHeader(disk.sectors) && directoryFile.hdr.View() == DirHeader(disk.sectors)
      ensures Consistent(disk.sectors) ==> Valid()
    {
      this.disk := disk;
      freeMapFile := new OpenFile(disk, FREE_MAP_SECTOR);
      directoryFile := new OpenFile(disk, DIRECTORY_SECTOR);
    }

    /** Succeeds exactly when it can; a failing Create leaves every byte of the disk as it was. */
    method Create(name: seq<Byte>, initialSize: Int32) returns (success: bool)
      requires Valid() && 0 <= initialSize <= MAX_FILE_SIZE
      modifies disk
      ensures Valid()
      ensures success <==> CanCreate(old(disk.sectors), name, initialSize)
      ensures !success ==> disk.sectors == old(disk.sectors)
      ensures success ==> exists i, file :: Created(old(disk.sectors), disk.sectors, name, initialSize, i, file)
    {
      hide DecodeHeader, DecodeTable, FreeBits, Flat, FileMap, WithAll, BitsOf, Invariant, DecodeWords, Slots, FirstFit;
      ghost var d := disk.sectors;
      var directory, found := Lookup(name);
      if found != -1 {
        return false;
      }
      var hdr, sector, freeMap;
      success, hdr, sector, freeMap := Reserve(directory, name, initialSize);
      if success {
        ghost var file := Used(NameKey(name), sector, hdr.View());
        ghost var i :| IsFirstUnused(Table(d), i) && directory.table[..] == Table(d)[i := NewEntry(Table(d)[i], name, sector)];
        FirstFitIsClear(FreeBits(d), file.Sectors(), sector);
        Flush(hdr, sector, directory, freeMap, file);
        FlushedIsCreated(d, disk.sectors, name, initialSize, i, file, directory.table[..]);
      }
    }

    /**
     The rest of Create's decisions, made on in-memory copies of the directory and the map: find out whether
     there is room for the file, and if so where its header and data go.
     */
    method Reserve(directory: Directory, name: seq<Byte>, initialSize: Int32)
      returns (success: bool, hdr: FileHeader, sector: int, freeMap: Bitmap)
      requires Valid() && 0 <= initialSize <= MAX_FILE_SIZE
      requires directory.Valid() && directory.table[..] == Table(disk.sectors) && Absent(Table(disk.sectors), name)
      modifies directory.table
      ensures success <==> CanCreate(disk.sectors, name, initialSize)
      ensures success ==> fresh(hdr) && hdr.Valid() && 0 <= sector < NUM_SECTORS
      ensures success ==> hdr.View().WellFormed() && hdr.View().numBytes == initialSize
      ensures success ==> exists i ::
        IsFirstUnused(Table(disk.sectors), i) &&
        directory.table[..] == Table(disk.sectors)[i := NewEntry(Table(disk.sectors)[i], name, sector)]
      ensures success ==> freeMap.Valid() && freeMap.numBits == NUM_SECTORS
      ensures success ==> FirstFit(FreeBits(disk.sectors), [sector] + hdr.View().Data())
      ensures success ==> freeMap.Bits() == WithAll(FreeBits(disk.sectors), [sector] + hdr.View().Data(), true)
    {
      hide DecodeHeader, DecodeTable, FreeBits, Flat, WithAll, BitsOf, Invariant, DecodeWords, Slots, FirstFit, CountClear;
      ghost var bits := FreeBits(disk.sectors);
      success := false;
      hdr := new FileHeader(Header(0, 0, seq(NUM_DIRECT, _ => 0)));
      freeMap := FetchFreeMap();
      CountClearZero(bits);
      sector := freeMap.FindAndSet();
      if sector == -1 {
        return;
      }
      CountClearUpdate(bits, sector, true);
      var added := directory.Add(name, sector);
      if !added {
        return;
      }
      success := hdr.Allocate(freeMap, initialSize);
      if success { HeaderThenData(bits, sector, hdr.View().Data()); }
    }

    /** Fetches the directory and looks a name up in it. */
    method Lookup(name: seq<Byte>) returns (directory: Directory, sector: int)
      requires Valid()
      ensures fresh(directory) && fresh(directory.table) && directory.Valid() && directory.tableSize == NUM_DIR_ENTRIES
      ensures directory.table[..] == Table(disk.sectors)
      ensures sector == -1 <==> Absent(Table(disk.sectors), name)
      ensures sector != -1 ==> sector >= 0
      ensures sector != -1 ==> exists i :: Finds(Table(disk.sectors), name, i) && sector == Table(disk.sectors)[i].sector
    {
      hide DecodeTable, Flat, Invariant;
      directory := new Directory(NUM_DIR_ENTRIES);
      directory.FetchFrom(directoryFile);
      sector := directory.Find(name);
      FoundSectors(disk.sectors, name);
    }

    /** `new PersistentBitmap(freeMapFile, NumSectors)` */
    method FetchFreeMap() returns (freeMap: Bitmap)
      requires Valid()
      ensures fresh(freeMap) && fresh(freeMap.words) && freeMap.Valid() && freeMap.numBits == NUM_SECTORS
      ensures freeMap.Bits() == FreeBits(disk.sectors)
    {
      freeMap := new Bitmap(NUM_SECTORS);
      FetchBitmap(freeMap, freeMapFile);
    }

    /** The three write-backs at the end of a successful Create. */
    method Flush(hdr: FileHeader, sector: nat, directory: Directory, freeMap: Bitmap, ghost file: Slot)
      requires Valid() && hdr.Valid() && directory.Valid() && directory.tableSize == NUM_DIR_ENTRIES
      requires freeMap.Valid() && freeMap.numBits == NUM_SECTORS && sector < NUM_SECTORS
      requires file.Used? && file.hdrSector == sector && file.header == hdr.View()
      requires !FreeBits(disk.sectors)[sector]
      requires freeMap.Bits() == WithAll(FreeBits(disk.sectors), [sector] + hdr.View().Data(), true)
      modifies disk
      ensures disk.Valid() && Flushed(old(disk.sectors), disk.sectors, file, directory.table[..])
    {
      hide DecodeHeader, EncodeHeader, FreeBits, Flat, FileMap, WithAll, Invariant, DecodeWords, Slots, SystemUpdate;
      ghost var d := disk.sectors;
      hdr.WriteBack(disk, sector);
      ghost var d1 := disk.sectors;
      HeaderRoundTrip(hdr.View());
      directory.WriteBack(directoryFile);
      ghost var d2 := disk.sectors;
      WriteBackBitmap(freeMap, freeMapFile);
      TwoWriteBacks(d, d1, d2, disk.sectors, {sector});
      FreeBitsOf(disk.sectors, freeMap.words[..]);
    }

    /** An open file for an existing name, whose contents are the user's file; null otherwise. */
    method Open(name: seq<Byte>) returns (openFile: OpenFile?)
      requires Valid()
      ensures openFile == null <==> NameKey(name) !in FileMap(disk.sectors)
      ensures openFile != null ==> fresh(openFile) && fresh(openFile.hdr) && openFile.Valid() && openFile.disk == disk
      ensures openFile != null ==> openFile.seekPosition == 0 && openFile.Contents() == FileMap(disk.sectors)[NameKey(name)]
      ensures openFile != null ==> exists k :: IsFileSlot(disk.sectors, k, NameKey(name), openFile.hdr.View())
    {
      hide DecodeHeader, DecodeTable, FreeBits, Flat, FileMap, Invariant, Slots;
      var directory, sector := Lookup(name);
      if sector >= 0 {
        ghost var i :| Finds(Table(disk.sectors), name, i) && sector == Table(disk.sectors)[i].sector;
        FoundFile(disk.sectors, name, i);
        openFile := new OpenFile(disk, sector);
        assert IsFileSlot(disk.sectors, i + 2, NameKey(name), openFile.hdr.View());
      } else {
        AbsentFile(disk.sectors, name);
        openFile := null;
      }
    }

    /** Deletes the name and gives its sectors back; FALSE, and no change, when there is no such file. */
    method Remove(name: seq<Byte>) returns (success: bool)
      requires Valid()
      modifies disk
      ensures Valid()
      ensures success <==> NameKey(name) in old(FileMap(disk.sectors))
      ensures !success ==> disk.sectors == old(disk.sectors)
      ensures success ==> exists i :: Removed(old(disk.sectors), disk.sectors, name, i)
    {
      hide DecodeHeader, DecodeTable, FreeBits, Flat, FileMap, Invariant, Slots, WithAll, BitsOf, DecodeWords;
      ghost var d := disk.sectors;
      var directory, sector := Lookup(name);
      if sector == -1 {
        AbsentFile(d, name);
        return false;
      }
      ghost var i :| Finds(Table(d), name, i) && sector == Table(d)[i].sector;
      FoundFile(d, name, i);
      var freeMap := ReleaseSectors(sector, i);
      var _ := directory.Remove(name);
      FlushRemoval(freeMap, directory, name, i);
      return true;
    }

    method FlushRemoval(freeMap: Bitmap, directory: Directory, ghost name: seq<Byte>, ghost i: nat)
      requires Valid() && directory.Valid() && directory.tableSize == NUM_DIR_ENTRIES
      requires freeMap.Valid() && freeMap.numBits == NUM_SECTORS && Finds(Table(disk.sectors), name, i)
      requires directory.table[..] == Table(disk.sectors)[i := Table(disk.sectors)[i].(inUse := false)]
      requires freeMap.Bits() == WithAll(FreeBits(disk.sectors), Slots(disk.sectors)[i + 2].Sectors(), false)
      modifies disk
      ensures disk.Valid() && Removed(old(disk.sectors), disk.sectors, name, i)
    {
      hide DecodeHeader, DecodeTable, FreeBits, Flat, FileMap, Invariant, Slots, WithAll, BitsOf, DecodeWords, Removed;
      ghost var d := disk.sectors;
      WriteBackBitmap(freeMap, freeMapFile);
      ghost var d2 := disk.sectors;
      directory.WriteBack(directoryFile);
      WriteBacksRemove(d, d2, disk.sectors, name, i, freeMap.words[..]);
    }

    /** The map with the file's data sectors and header sector cleared. */
    method ReleaseSectors(sector: nat, ghost i: nat) returns (freeMap: Bitmap)
      requires Valid() && i < NUM_DIR_ENTRIES && Slots(disk.sectors)[i + 2].Used?
      requires sector < NUM_SECTORS && sector == Slots(disk.sectors)[i + 2].hdrSector
      requires Slots(disk.sectors)[i + 2].header == DecodeHeader(disk.sectors[sector])
      ensures fresh(freeMap) && fresh(freeMap.words) && freeMap.Valid() && freeMap.numBits == NUM_SECTORS
      ensures freeMap.Bits() == WithAll(FreeBits(disk.sectors), Slots(disk.sectors)[i + 2].Sectors(), false)
    {
      hide DecodeHeader, DecodeTable, FreeBits, Flat, Slots, BitsOf, DecodeWords;
      var fileHdr := new FileHeader(Header(0, 0, seq(NUM_DIRECT, _ => 0)));
      fileHdr.FetchFrom(disk, sector);
      freeMap := FetchFreeMap();
      ghost var bits, slots := FreeBits(disk.sectors), Slots(disk.sectors);
      assert slots[i + 2].WellFormed();
      forall s | s in fileHdr.View().Data()
        ensures bits[s]
      {
        assert slots[i + 2].Owns(s);
        SlotSectorInRange(slots[i + 2], s);
        MarkedIffOwned(bits, slots, i + 2, s);
      }
      fileHdr.Deallocate(freeMap);
      freeMap.Clear(sector);
      DataThenHeader(bits, sector, fileHdr.View().Data());
    }
  }
}
