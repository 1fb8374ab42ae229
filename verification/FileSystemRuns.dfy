/**
 Whole runs of the file system. Whatever sequence of operations follows a format, the disk stays
 consistent and every answer is the one that a map from names to byte arrays would have given.
 */
module FileSystemRuns {
  import opened Words
  import opened Bitmaps
  import opened Files
  import opened OpenFiles
  import opened Directories
  import opened SectorOwnership
  import opened DiskLayout
  import opened FileSystems
  import opened Capacity

  /** Creating a file and removing it again gives back the free map and the user's files. */
  lemma CreateThenRemoveRestores(d: Disk, d': Disk, d'': Disk, name: seq<Byte>, size: nat, i: nat, file: Slot, j: nat)
    requires Created(d, d', name, size, i, file) && Removed(d', d'', name, j)
    ensures FreeBits(d'') == FreeBits(d) && Slots(d'') == Slots(d) && FileMap(d'') == FileMap(d)
  {
    hide FreeBits, Flat, FileMap, Table, MapHeader, DirHeader, Slots, Invariant, FirstFit, WithAll;
    FreeSlot(d, i);
    OneEntry(d', i, j);
    NewFileIsClear(FreeBits(d), file);
    forall s | s in file.Sectors()
      ensures 0 <= s < NUM_SECTORS && !FreeBits(d)[s]
    {
      FirstFitIsClear(FreeBits(d), file.Sectors(), s);
    }
    MarkThenClear(FreeBits(d), file);
    assert Slots(d'') == Slots(d)[i + 2 := file][i + 2 := Free];
    assert FileMap(d'') == FileMap(d)[file.key := Flat(d', file.header)] - {file.key};
  }

  /** Only one entry has a given name. */
  lemma OneEntry(d: Disk, i: nat, j: nat)
    requires Consistent(d) && i < NUM_DIR_ENTRIES && j < NUM_DIR_ENTRIES
    requires Slots(d)[i + 2].Used? && Slots(d)[j + 2].Used? && Slots(d)[i + 2].key == Slots(d)[j + 2].key
    ensures i == j
  {
    hide FreeBits, Slots, Disjoint, Owned;
  }

  lemma FreeSlot(d: Disk, i: nat)
    requires Bootable(d) && IsFirstUnused(Table(d), i)
    ensures i < NUM_DIR_ENTRIES && Slots(d)[i + 2].Free?
  {
    SlotAt(d, i + 2);
  }

  // ---------- operations on the abstract map of files ----------

  datatype Op =
    | CreateOp(name: seq<Byte>, size: Int32)
    | RemoveOp(name: seq<Byte>)
    | WriteOp(name: seq<Byte>, data: seq<Byte>, position: Offset)
    | ReadOp(name: seq<Byte>, numBytes: Int32, position: Offset)
  {
    /** Sizes that Create can represent, and requests whose end is an int; the source checks neither. */
    predicate InRange()
    {
      && (CreateOp? ==> 0 <= size <= MAX_FILE_SIZE)
      && (WriteOp? ==> position + |data| <= 0x7FFF_FFFF)
      && (ReadOp? ==> position + numBytes <= 0x7FFF_FFFF)
    }
  }

  /** Open answers null for an unknown name. */
  datatype Answer = Flag(ok: bool) | Moved(bytes: seq<Byte>) | NoFile

  /** One operation on a map of files: which answers and successors are right. */
  ghost predicate StoreStep(m: FileStore, op: Op, a: Answer, m': FileStore)
  {
    var key := NameKey(op.name);
    match op
    case CreateOp(_, size) =>
      // the new file's bytes are whatever its sectors held
      a == Flag(size >= 0 && key !in m && HasRoom(m, size)) &&
      if a.ok then key in m' && |m'[key]| == size && m' == m[key := m'[key]] else m' == m
    case RemoveOp(_) =>
      a == Flag(key in m) && m' == m - {key}
    case WriteOp(_, data, position) =>
      if key !in m then a == NoFile && m' == m
      else
        var k := TransferSize(|m[key]|, |data|, position);
        a == Moved(data[..k]) && m' == m[key := Splice(m[key], position, data[..k])]
    case ReadOp(_, numBytes, position) =>
      m' == m &&
      if key !in m then a == NoFile
      else a == Moved(Slice(m[key], position, TransferSize(|m[key]|, numBytes, position)))
  }

  /**
   What a read and a write of an existing file come to, byte by byte: all the bytes asked for, or all up to the end of the
   file, are moved; every other byte stays.
   */
  lemma TransfersAreComplete(m: FileStore, op: Op, a: Answer, m': FileStore)
    requires StoreStep(m, op, a, m') && (op.WriteOp? || op.ReadOp?) && NameKey(op.name) in m
    ensures
      var was, n := m[NameKey(op.name)], if op.WriteOp? then |op.data| else op.numBytes;
      && a.Moved? && MovesAll(|was|, n, op.position, |a.bytes|)
      && m'.Keys == m.Keys && |m'[NameKey(op.name)]| == |was|
      && (op.WriteOp? ==> a.bytes == op.data[..|a.bytes|])
      && (forall p :: op.position <= p < op.position + |a.bytes| ==> a.bytes[p - op.position] == m'[NameKey(op.name)][p])
      && (forall p :: 0 <= p < |was| && (op.ReadOp? || p < op.position || p >= op.position + |a.bytes|) ==>
            m'[NameKey(op.name)][p] == was[p])
      && forall key :: key in m && key != NameKey(op.name) ==> m'[key] == m[key]
  {
    hide HasRoom, NameKey, MovesAll;
  }

  /** The answers to ops, from an empty store, are right, and m is a store that explains them. */
  ghost predicate Explained(ops: seq<Op>, answers: seq<Answer>, m: FileStore)
    requires |ops| == |answers|
  {
    if ops == [] then m == map[]
    else
      var n := |ops| - 1;
      exists m0 :: Explained(ops[..n], answers[..n], m0) && StoreStep(m0, ops[n], answers[n], m)
  }

  lemma ExplainedExtend(ops: seq<Op>, n: nat, answers: seq<Answer>, m0: FileStore, a: Answer, m: FileStore)
    requires n < |ops| && |answers| == n && Explained(ops[..n], answers, m0) && StoreStep(m0, ops[n], a, m)
    ensures Explained(ops[..n + 1], answers + [a], m)
  {
    assert ops[..n + 1][..n] == ops[..n];
    assert (answers + [a])[..n] == answers;
  }

  /** One operation through the file system, as a user program would do it. */
  method Execute(fs: FileSystem, op: Op) returns (a: Answer)
    requires fs.Valid() && op.InRange()
    modifies fs.disk
    ensures fs.Valid()
    ensures StoreStep(old(FileMap(fs.disk.sectors)), op, a, FileMap(fs.disk.sectors))
  {
    hide Consistent, Flat, Slots, Invariant, FreeBits, Table, MapHeader, DirHeader, FileMap, CanCreate, FileAdded, FileRemoved, HasRoom;
    match op {
      case CreateOp(name, size) =>
        CreateNeedsRoom(fs.disk.sectors, name, size);
        var ok := fs.Create(name, size);
        a := Flag(ok);
      case RemoveOp(name) =>
        var ok := fs.Remove(name);
        a := Flag(ok);
      case WriteOp(name, data, position) =>
        a := ExecuteWrite(fs, name, data, position);
      case ReadOp(name, numBytes, position) =>
        a := ExecuteRead(fs, name, numBytes, position);
    }
  }

  method ExecuteWrite(fs: FileSystem, name: seq<Byte>, data: seq<Byte>, position: Offset) returns (a: Answer)
    requires fs.Valid() && position + |data| <= 0x7FFF_FFFF
    modifies fs.disk
    ensures fs.Valid()
    ensures StoreStep(old(FileMap(fs.disk.sectors)), WriteOp(name, data, position), a, FileMap(fs.disk.sectors))
  {
    hide DecodeHeader, DecodeTable, FreeBits, Flat, FileMap, Slots, Invariant;
    var file := fs.Open(name);
    if file == null {
      return NoFile;
    }
    ghost var d := fs.disk.sectors;
    ghost var slot :| IsFileSlot(d, slot, NameKey(name), file.hdr.View());
    var k := file.WriteAt(data, |data|, position);
    UserWrite(d, fs.disk.sectors, slot);
    UserWriteKeepsSystem(d, fs.disk.sectors, slot);
    UserWriteKeepsHeaders(d, fs.disk.sectors, slot);
    return Moved(data[..k]);
  }

  lemma UserWriteKeepsHeaders(d: Disk, d': Disk, k: nat)
    requires Consistent(d) && 2 <= k < NUM_SLOTS && Slots(d)[k].Used?
    requires OnlyDataChanged(d, d', Slots(d)[k].header)
    ensures MapHeader(d') == MapHeader(d) && DirHeader(d') == DirHeader(d)
  {
    UserWriteSpares(d, d', k, 0, FREE_MAP_SECTOR);
    UserWriteSpares(d, d', k, 1, DIRECTORY_SECTOR);
  }

  method ExecuteRead(fs: FileSystem, name: seq<Byte>, numBytes: Int32, position: Offset) returns (a: Answer)
    requires fs.Valid() && position + numBytes <= 0x7FFF_FFFF
    ensures StoreStep(FileMap(fs.disk.sectors), ReadOp(name, numBytes, position), a, FileMap(fs.disk.sectors))
  {
    hide DecodeHeader, DecodeTable, FreeBits, Flat, FileMap, Slots, Invariant;
    var file := fs.Open(name);
    if file == null {
      return NoFile;
    }
    var into := new Byte[TransferSize(file.hdr.View().numBytes, numBytes, position)];
    var k := file.ReadAt(into, 0, numBytes, position);
    return Moved(into[..]);
  }

  /** Format, then any sequence of operations. */
  method Session(disk: SynchDisk, ops: seq<Op>) returns (answers: seq<Answer>)
    requires disk.Valid() && forall i :: 0 <= i < |ops| ==> ops[i].InRange()
    modifies disk
    ensures disk.Valid() && Consistent(disk.sectors)
    ensures |answers| == |ops| && Explained(ops, answers, FileMap(disk.sectors))
  {
    hide DecodeHeader, DecodeTable, FreeBits, Flat, FileMap, Slots, Invariant, StoreStep;
    var fs := new FileSystem.Format(disk);
    answers := [];
    for n := 0 to |ops|
      invariant fs.Valid() && |answers| == n && Explained(ops[..n], answers, FileMap(disk.sectors))
    {
      ghost var m0 := FileMap(disk.sectors);
      var a := Execute(fs, ops[n]);
      ExplainedExtend(ops, n, answers, m0, a, FileMap(disk.sectors));
      answers := answers + [a];
    }
    assert ops[..|ops|] == ops;
  }
}
