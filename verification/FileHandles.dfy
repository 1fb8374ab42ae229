/**
 Open files that outlive Remove. A handle keeps the header it read when it was opened; after Remove, its data sectors may
 go to other files. This module says exactly when a write through such a handle leaves the file system in order.
 */
module FileHandles {
  import opened Words
  import opened Bitmaps
  import opened Files
  import opened OpenFiles
  import opened Directories
  import opened SectorOwnership
  import opened DiskLayout
  import opened FileSystems
  import opened FileSystemRuns
  import opened Capacity

  /** The header of a handle names no sector of the free map or of the directory, headers included. */
  ghost predicate SafeHandle(d: Disk, h: Header)
  {
    && Bootable(d) && h.WellFormed()
    && forall s :: s in h.Data() ==> s >= 2 && s !in MapHeader(d).Data() && s !in DirHeader(d).Data()
  }

  /** One of the handle's data sectors now holds the header of a file. */
  ghost predicate HitsHeader(d: Disk, h: Header)
    requires Bootable(d)
  {
    exists k :: 2 <= k < NUM_SLOTS && Slots(d)[k].Used? && Slots(d)[k].hdrSector in h.Data()
  }

  /** The disk is in order and holds the same files, under the same names and in the same places. */
  ghost predicate SameLayout(d: Disk, d': Disk)
    requires Consistent(d)
  {
    Consistent(d') && FreeBits(d') == FreeBits(d) && Slots(d') == Slots(d)
  }

  // ---------- a write that hits no header ----------

  lemma HandleKeepsHeaders(d: Disk, d': Disk, h: Header)
    requires SafeHandle(d, h) && OnlyDataChanged(d, d', h)
    ensures MapHeader(d') == MapHeader(d) && DirHeader(d') == DirHeader(d) && Bootable(d')
  {
    hide DecodeHeader;
    assert 0 !in h.Data() && 1 !in h.Data();
    assert d'[0] == d[0] && d'[1] == d[1];
  }

  lemma HandleKeepsSystem(d: Disk, d': Disk, h: Header)
    requires SafeHandle(d, h) && OnlyDataChanged(d, d', h)
    ensures Bootable(d') && FreeBits(d') == FreeBits(d) && Table(d') == Table(d)
  {
    HandleKeepsHeaders(d, d', h);
    hide DecodeHeader, Flat, DecodeTable, DecodeWords, BitsOf;
    HandleSpares(d, d', h, MapHeader(d));
    HandleSpares(d, d', h, DirHeader(d));
  }

  /** A file that shares no data sector with the handle keeps its contents. */
  lemma HandleSpares(d: Disk, d': Disk, h: Header, other: Header)
    requires h.WellFormed() && OnlyDataChanged(d, d', h) && other.WellFormed()
    requires forall s :: s in other.Data() ==> s !in h.Data()
    ensures Flat(d', other) == Flat(d, other)
  {
    forall s | s in other.Data()
      ensures d'[s] == d[s]
    {
      DataInRange(other, s);
    }
    FlatFrame(d, d', other);
  }

  lemma DataInRange(h: Header, s: int)
    requires h.WellFormed() && s in h.Data()
    ensures 0 <= s < NUM_SECTORS
  {
    var i :| 0 <= i < |h.Data()| && h.Data()[i] == s;
    assert h.dataSectors[i] == s;
  }

  lemma HandleKeepsSlot(d: Disk, d': Disk, h: Header, k: nat)
    requires Consistent(d) && SafeHandle(d, h) && OnlyDataChanged(d, d', h)
    requires Bootable(d') && Table(d') == Table(d) && 2 <= k < NUM_SLOTS
    requires Slots(d)[k].Used? ==> Slots(d)[k].hdrSector !in h.Data()
    ensures Slots(d')[k] == Slots(d)[k]
  {
    hide DecodeHeader, Table, FreeBits, Slots;
    SlotAt(d, k);
    SlotAt(d', k);
    if Slots(d)[k].Used? {
      SlotsReadableAt(FreeBits(d), Slots(d), k);
    }
  }

  lemma SlotsReadableAt(bits: seq<bool>, slots: seq<Slot>, k: nat)
    requires Invariant(bits, slots) && k < NUM_SLOTS && slots[k].Used?
    ensures 0 <= slots[k].hdrSector < NUM_SECTORS && slots[k].header.WellFormed() && |slots[k].header.dataSectors| == NUM_DIRECT
  {
    assert slots[k].WellFormed();
  }

  lemma SystemSlots(d: Disk, d': Disk)
    requires Bootable(d) && Bootable(d') && MapHeader(d') == MapHeader(d) && DirHeader(d') == DirHeader(d)
    ensures Slots(d')[0] == Slots(d)[0] && Slots(d')[1] == Slots(d)[1]
  {
  }

  /** A write that hits no header, stale or not, leaves the layout as it is. */
  lemma HandleWrite(d: Disk, d': Disk, h: Header)
    requires Consistent(d) && SafeHandle(d, h) && OnlyDataChanged(d, d', h) && !HitsHeader(d, h)
    ensures SameLayout(d, d')
  {
    HandleKeepsHeaders(d, d', h);
    HandleKeepsSystem(d, d', h);
    SystemSlots(d, d');
    hide DecodeHeader, Table, FreeBits, Invariant, SafeHandle, Slots, MapHeader, DirHeader;
    forall k | 0 <= k < NUM_SLOTS
      ensures Slots(d')[k] == Slots(d)[k]
    {
      if k >= 2 {
        assert Slots(d)[k].Used? ==> Slots(d)[k].hdrSector !in h.Data();
        HandleKeepsSlot(d, d', h, k);
      }
    }
    assert Slots(d') == Slots(d);
  }

  // ---------- exactly when ----------

  /** What WriteAt through a handle with header h may do to a disk: patch goes to position, and no other sector changes. */
  ghost predicate Writes(d: Disk, h: Header, position: nat, patch: seq<Byte>, d': Disk)
    requires h.WellFormed()
  {
    && OnlyDataChanged(d, d', h) && patch != [] && position + |patch| <= h.numBytes
    && Flat(d', h) == Splice(Flat(d, h), position, patch)
  }

  function OtherByte(b: Byte): Byte
  {
    if b == 0 then 1 else 0
  }

  /** The first byte of a header sector is part of the file length. */
  lemma FirstByteMatters(x: Sector, y: Sector)
    requires x[0] != y[0]
    ensures DecodeHeader(x) != DecodeHeader(y)
  {
    LowByte(x[0..4]);
    LowByte(y[0..4]);
    assert DecodeWords(x)[0] == BytesWord(x[0..4]) && DecodeWords(y)[0] == BytesWord(y[0..4]);
    hide BytesWord;
  }

  lemma LowByte(b: seq<Byte>)
    requires |b| == 4
    ensures BytesWord(b) % 256 == b[0]
  {
    var b0: int, b1: int, b2: int, b3: int := b[0], b[1], b[2], b[3];
    assert BytesWord(b) == b0 + 256 * (b1 + 256 * b2 + 65536 * b3);
  }

  /** The disk after one byte is written at the start of sector number i of a file. */
  function OneByteWritten(d: Disk, h: Header, i: nat, b: Byte): Disk
    requires h.WellFormed() && i < h.numSectors
  {
    d[h.dataSectors[i] := d[h.dataSectors[i]][0 := b]]
  }

  lemma OneByteIsWritten(d: Disk, h: Header, i: nat, b: Byte)
    requires h.WellFormed() && i < h.numSectors
    ensures Writes(d, h, i * SECTOR_SIZE, [b], OneByteWritten(d, h, i, b))
  {
    var d' := OneByteWritten(d, h, i, b);
    assert h.Data()[i] == h.dataSectors[i];
    var was, now := Flat(d, h), Splice(Flat(d, h), i * SECTOR_SIZE, [b]);
    forall p | 0 <= p < h.numBytes
      ensures Flat(d', h)[p] == now[p]
    {
      OneByteAt(d, h, i, b, p);
    }
  }

  lemma OneByteAt(d: Disk, h: Header, i: nat, b: Byte, p: nat)
    requires h.WellFormed() && i < h.numSectors && p < h.numBytes
    ensures Flat(OneByteWritten(d, h, i, b), h)[p] == if p == i * SECTOR_SIZE then b else Flat(d, h)[p]
  {
    var q := p / SECTOR_SIZE;
    if q != i { assert h.dataSectors[q] != h.dataSectors[i]; }
  }

  /** What every outcome of such a write has in common. */
  lemma OneByteArrives(d: Disk, d': Disk, h: Header, i: nat, b: Byte)
    requires h.WellFormed() && i < h.numSectors && Writes(d, h, i * SECTOR_SIZE, [b], d')
    ensures i * SECTOR_SIZE < h.numBytes && d'[h.dataSectors[i]][0] == b
  {
    assert Flat(d', h)[i * SECTOR_SIZE] == b;
  }

  /** File k is found as before. */
  ghost predicate SlotKept(d: Disk, d': Disk, k: nat)
    requires Bootable(d) && k < NUM_SLOTS
  {
    Bootable(d') && Slots(d')[k] == Slots(d)[k]
  }

  /** And it holds what it held. */
  ghost predicate Spared(d: Disk, d': Disk, k: nat)
    requires Bootable(d) && k < NUM_SLOTS
  {
    && SlotKept(d, d', k)
    && (Slots(d)[k].Used? && Slots(d)[k].header.WellFormed() ==>
          Flat(d', Slots(d)[k].header) == Flat(d, Slots(d)[k].header))
  }

  /** If a data sector of the handle holds the header of file k, a single byte written to its start damages that header. */
  lemma DamageShows(d: Disk, h: Header, k: nat) returns (i: nat, b: Byte)
    requires Consistent(d) && SafeHandle(d, h) && 2 <= k < NUM_SLOTS && Slots(d)[k].Used?
    requires Slots(d)[k].hdrSector in h.Data()
    ensures i < h.numSectors && Writes(d, h, i * SECTOR_SIZE, [b], OneByteWritten(d, h, i, b))
    ensures forall d': Disk :: Writes(d, h, i * SECTOR_SIZE, [b], d') ==> !SlotKept(d, d', k)
  {
    var s := Slots(d)[k].hdrSector;
    i :| 0 <= i < |h.Data()| && h.Data()[i] == s;
    SlotsReadableAt(FreeBits(d), Slots(d), k);
    b := OtherByte(d[s][0]);
    OneByteIsWritten(d, h, i, b);
    hide Table, FreeBits, Slots, DecodeHeader, Invariant, Writes;
    SlotAt(d, k);
    forall d': Disk | Writes(d, h, i * SECTOR_SIZE, [b], d')
      ensures !SlotKept(d, d', k)
    {
      OneByteArrives(d, d', h, i, b);
      FirstByteMatters(d[s], d'[s]);
      if Bootable(d') { SlotAt(d', k); }
    }
  }

  lemma FirstByteOf(d: Disk, h: Header, j: nat)
    requires h.WellFormed() && j < h.numSectors
    ensures j * SECTOR_SIZE < h.numBytes && Flat(d, h)[j * SECTOR_SIZE] == d[h.dataSectors[j]][0]
  {
  }

  /** If it holds data of file k, a single byte written to its start changes that file's contents. */
  lemma DataDamageShows(d: Disk, h: Header, k: nat, s: int) returns (i: nat, b: Byte)
    requires Consistent(d) && SafeHandle(d, h) && 2 <= k < NUM_SLOTS && Slots(d)[k].Used?
    requires s in h.Data() && s in Slots(d)[k].header.Data()
    ensures i < h.numSectors && Writes(d, h, i * SECTOR_SIZE, [b], OneByteWritten(d, h, i, b))
    ensures forall d': Disk :: Writes(d, h, i * SECTOR_SIZE, [b], d') ==> !Spared(d, d', k)
  {
    var other := Slots(d)[k].header;
    i :| 0 <= i < |h.Data()| && h.Data()[i] == s;
    var j: nat :| j < |other.Data()| && other.Data()[j] == s;
    SlotsReadableAt(FreeBits(d), Slots(d), k);
    DataInRange(h, s);
    b := OtherByte(d[s][0]);
    OneByteIsWritten(d, h, i, b);
    hide FreeBits, Slots, DecodeHeader, Invariant, Writes, Flat;
    forall d': Disk | Writes(d, h, i * SECTOR_SIZE, [b], d')
      ensures !Spared(d, d', k)
    {
      OneByteArrives(d, d', h, i, b);
      FirstByteOf(d, other, j);
      FirstByteOf(d', other, j);
    }
  }

  /** Every write through the handle leaves the layout as it is. */
  ghost predicate Harmless(d: Disk, h: Header)
    requires Consistent(d) && h.WellFormed()
  {
    forall position: nat, patch, d': Disk :: Writes(d, h, position, patch, d') ==> SameLayout(d, d')
  }

  /**
   The exact condition: whatever is written through a handle, wherever in its file, the file system stays in order with
   the same files in the same places, if and only if none of the handle's data sectors holds a header now.
   */
  lemma HandleWriteExact(d: Disk, h: Header)
    requires Consistent(d) && SafeHandle(d, h)
    ensures Harmless(d, h) <==> !HitsHeader(d, h)
  {
    hide SameLayout, FreeBits, Slots, Invariant, SlotKept, OneByteWritten;
    if HitsHeader(d, h) {
      var k :| 2 <= k < NUM_SLOTS && Slots(d)[k].Used? && Slots(d)[k].hdrSector in h.Data();
      var i, b := DamageShows(d, h, k);
      hide Writes;
      DamageChangesLayout(d, OneByteWritten(d, h, i, b), k);
    } else {
      forall position: nat, patch, d': Disk | Writes(d, h, position, patch, d')
        ensures SameLayout(d, d')
      {
        HandleWrite(d, d', h);
      }
    }
  }

  lemma DamageChangesLayout(d: Disk, d': Disk, k: nat)
    requires Consistent(d) && k < NUM_SLOTS && !SlotKept(d, d', k)
    ensures !SameLayout(d, d')
  {
  }

  /** A sector of the handle is the header sector or a data sector of file k now. */
  ghost predicate Shares(d: Disk, h: Header, k: nat)
    requires Bootable(d) && k < NUM_SLOTS
  {
    exists s :: s in h.Data() && Slots(d)[k].Owns(s)
  }

  /** Every write through the handle leaves file k alone. */
  ghost predicate Spares(d: Disk, h: Header, k: nat)
    requires Bootable(d) && h.WellFormed() && k < NUM_SLOTS
  {
    forall position: nat, patch, d': Disk :: Writes(d, h, position, patch, d') ==> Spared(d, d', k)
  }

  lemma NoSharingSpares(d: Disk, d': Disk, h: Header, k: nat)
    requires Consistent(d) && SafeHandle(d, h) && OnlyDataChanged(d, d', h) && 2 <= k < NUM_SLOTS && !Shares(d, h, k)
    ensures Spared(d, d', k)
  {
    HandleKeepsHeaders(d, d', h);
    HandleKeepsSystem(d, d', h);
    hide DecodeHeader, Table, FreeBits, Invariant, Slots, MapHeader, DirHeader, Flat;
    var file := Slots(d)[k];
    assert file.Used? ==> file.Owns(file.hdrSector);
    HandleKeepsSlot(d, d', h, k);
    if file.Used? && file.header.WellFormed() {
      assert forall s :: s in file.header.Data() ==> file.Owns(s);
      HandleSpares(d, d', h, file.header);
    }
  }

  /**
   The exact condition, file by file: every write through a handle leaves a file as it is, header and contents, if and
   only if the handle and the file share no sector now.
   */
  lemma SparesExact(d: Disk, h: Header, k: nat)
    requires Consistent(d) && SafeHandle(d, h) && 2 <= k < NUM_SLOTS && Slots(d)[k].Used?
    ensures Spares(d, h, k) <==> !Shares(d, h, k)
  {
    hide FreeBits, Slots, Invariant, SlotKept, OneByteWritten;
    if Shares(d, h, k) {
      var s :| s in h.Data() && Slots(d)[k].Owns(s);
      var i, b;
      if s == Slots(d)[k].hdrSector {
        i, b := DamageShows(d, h, k);
      } else {
        i, b := DataDamageShows(d, h, k, s);
      }
      hide Writes;
      assert !Spared(d, OneByteWritten(d, h, i, b), k);
    } else {
      forall position: nat, patch, d': Disk | Writes(d, h, position, patch, d')
        ensures Spared(d, d', k)
      {
        NoSharingSpares(d, d', h, k);
      }
    }
  }

  /** So a handle is safe for all files but its own exactly if it shares no sector with any of them. */
  lemma OthersSparedExact(d: Disk, h: Header, own: int)
    requires Consistent(d) && SafeHandle(d, h)
    ensures (forall k :: 2 <= k < NUM_SLOTS && k != own && Slots(d)[k].Used? ==> Spares(d, h, k)) <==>
            (forall k :: 2 <= k < NUM_SLOTS && k != own && Slots(d)[k].Used? ==> !Shares(d, h, k))
  {
    hide FreeBits, Slots, Invariant, Spares, Shares;
    forall k | 2 <= k < NUM_SLOTS && k != own && Slots(d)[k].Used?
      ensures Spares(d, h, k) <==> !Shares(d, h, k)
    {
      SparesExact(d, h, k);
    }
  }

  // ---------- runs with open files ----------

  /** The disk and the headers that open files hold. */
  datatype State = State(disk: Disk, handles: seq<Header>)

  ghost predicate Init(st: State)
  {
    Consistent(st.disk) && st.handles == []
  }

  /** A step: Create, Remove, Open, or a write through one of the open files, whether or not its name still exists. */
  ghost predicate Step(st: State, st': State)
    requires Consistent(st.disk)
  {
    || (st'.handles == st.handles && exists name, size: nat, i: nat, file :: Created(st.disk, st'.disk, name, size, i, file))
    || (st'.handles == st.handles && exists name, i: nat :: Removed(st.disk, st'.disk, name, i))
    || (st'.disk == st.disk && exists k: nat :: Opens(st, k, st'))
    || (st'.handles == st.handles && exists n: nat :: WritesThrough(st, n, st'.disk))
  }

  ghost predicate Opens(st: State, k: nat, st': State)
    requires Consistent(st.disk)
  {
    && 2 <= k < NUM_SLOTS && Slots(st.disk)[k].Used?
    && st'.handles == st.handles + [Slots(st.disk)[k].header]
  }

  /** A write through open file n, made when none of its sectors holds a header. */
  ghost predicate WritesThrough(st: State, n: nat, d': Disk)
    requires Consistent(st.disk)
  {
    n < |st.handles| && OnlyDataChanged(st.disk, d', st.handles[n]) && !HitsHeader(st.disk, st.handles[n])
  }

  ghost predicate HandlesOk(st: State)
  {
    Consistent(st.disk) && forall n :: 0 <= n < |st.handles| ==> SafeHandle(st.disk, st.handles[n])
  }

  lemma OpenedIsSafe(d: Disk, k: nat)
    requires Consistent(d) && 2 <= k < NUM_SLOTS && Slots(d)[k].Used?
    ensures SafeHandle(d, Slots(d)[k].header)
  {
    var slots, bits := Slots(d), FreeBits(d);
    SlotsReadableAt(bits, slots, k);
    assert slots[0] == Used([], FREE_MAP_SECTOR, MapHeader(d)) && slots[1] == Used([], DIRECTORY_SECTOR, DirHeader(d));
    hide FreeBits, Slots;
    forall s | s in slots[k].header.Data()
      ensures s >= 2 && s !in MapHeader(d).Data() && s !in DirHeader(d).Data()
    {
      DataInRange(slots[k].header, s);
      OwnersApart(bits, slots, k, 0, s);
      OwnersApart(bits, slots, k, 1, s);
    }
  }

  lemma StillSafe(d: Disk, d': Disk, h: Header)
    requires SafeHandle(d, h) && Bootable(d') && MapHeader(d') == MapHeader(d) && DirHeader(d') == DirHeader(d)
    ensures SafeHandle(d', h)
  {
  }

  /** Every step keeps the disk in order, and every handle clear of the system files. */
  lemma StepKeepsHandles(st: State, st': State)
    requires HandlesOk(st) && Step(st, st')
    ensures HandlesOk(st')
  {
    hide SafeHandle, Slots, FreeBits, Invariant, FileMap, Table, DecodeHeader;
    var d, d' := st.disk, st'.disk;
    if exists k: nat :: Opens(st, k, st') && d' == d {
      var k: nat :| Opens(st, k, st');
      OpenedIsSafe(d, k);
    } else {
      assert st'.handles == st.handles;
      assert Consistent(d') && MapHeader(d') == MapHeader(d) && DirHeader(d') == DirHeader(d) by {
        if exists n: nat :: WritesThrough(st, n, d') {
          var n: nat :| WritesThrough(st, n, d');
          HandleKeepsHeaders(d, d', st.handles[n]);
          HandleWrite(d, d', st.handles[n]);
        }
      }
      forall n | 0 <= n < |st'.handles|
        ensures SafeHandle(d', st'.handles[n])
      {
        StillSafe(d, d', st.handles[n]);
      }
    }
  }

  ghost predicate IsRun(states: seq<State>)
  {
    && states != [] && Init(states[0])
    && forall i :: 0 <= i < |states| - 1 ==> Consistent(states[i].disk) && Step(states[i], states[i + 1])
  }

  /** In every run in which no write hits a header, stale handles or not, the disk stays in order. */
  lemma {:induction false} RunKeepsHandles(states: seq<State>, i: nat)
    requires IsRun(states) && i < |states|
    ensures HandlesOk(states[i])
  {
    hide Step, HandlesOk, Consistent;
    if i == 0 {
      InitOk(states[0]);
    } else {
      RunKeepsHandles(states, i - 1);
      assert Step(states[i - 1], states[i]);
      StepKeepsHandles(states[i - 1], states[i]);
    }
  }

  lemma InitOk(st: State)
    requires Init(st)
    ensures HandlesOk(st)
  {
  }

  // ---------- how a write comes to hit a header ----------

  /** First fit takes the lowest clear position first. */
  lemma FirstFitHead(bits: seq<bool>, t: seq<int>, t': seq<int>)
    requires FirstFit(bits, t) && FirstFit(bits, t') && t != [] && t' != []
    ensures t[0] == t'[0]
  {
    assert t[..0] == [] && t'[..0] == [];
  }

  /** When only the first of two positions is taken, the next first fit starts with the second. */
  lemma SecondFit(bits: seq<bool>, s: int, t: int, next: seq<int>)
    requires FirstFit(bits, [s, t]) && FirstFit(WithAll(bits, [s], true), next) && next != []
    ensures next[0] == t
  {
    var now := WithAll(bits, [s], true);
    assert [s, t][..1] == [s] && [s, t][..0] == [] && next[..0] == [];
    assert [s, t][0] == s && [s, t][1] == t;
    assert 0 <= t < |bits| && !now[t];
    assert 0 <= next[0] < |bits| && !now[next[0]];
  }

  lemma NewSectors(d: Disk, d': Disk, name: seq<Byte>, size: nat, i: nat, file: Slot)
    requires Created(d, d', name, size, i, file)
    ensures |file.Sectors()| == 1 + DivRoundUp(size, SECTOR_SIZE) && file.Sectors()[0] == file.hdrSector
    ensures FirstFit(FreeBits(d), file.Sectors()) && FreeBits(d') == WithAll(FreeBits(d), file.Sectors(), true)
    ensures Slots(d')[i + 2] == file && file.Used? && Consistent(d) && Consistent(d') && 2 <= i + 2 < NUM_SLOTS
    ensures MapHeader(d') == MapHeader(d) && DirHeader(d') == DirHeader(d)
  {
    hide FreeBits, Slots, FileMap, Table, FirstFit, WithAll, DecodeHeader, Invariant;
  }

  /** The sectors of the three files, by first fit. */
  lemma HeaderTakesDataSector(
    d0: Disk, d1: Disk, d2: Disk, d3: Disk, d4: Disk, a: seq<Byte>, b: seq<Byte>, c: seq<Byte>, size: nat,
    i: nat, fileA: Slot, j: nat, fileB: Slot, k: nat, fileC: Slot)
    requires Created(d0, d1, a, SECTOR_SIZE, i, fileA) && Consistent(d2) && FreeBits(d2) == FreeBits(d0)
    requires Created(d2, d3, b, 0, j, fileB) && Created(d3, d4, c, size, k, fileC)
    ensures fileC.Used? && fileA.Used? && fileC.hdrSector in fileA.header.Data()
  {
    NewSectors(d0, d1, a, SECTOR_SIZE, i, fileA);
    NewSectors(d2, d3, b, 0, j, fileB);
    NewSectors(d3, d4, c, size, k, fileC);
    hide FreeBits, Slots, FileMap, Table, FirstFit, WithAll, Created, Consistent;
    ThirdFit(FreeBits(d0), fileA, fileB, fileC);
  }

  lemma ThirdFit(bits: seq<bool>, fileA: Slot, fileB: Slot, fileC: Slot)
    requires fileA.Used? && fileB.Used? && fileC.Used? && |fileA.Sectors()| == 2 && |fileB.Sectors()| == 1
    requires FirstFit(bits, fileA.Sectors()) && FirstFit(bits, fileB.Sectors())
    requires FirstFit(WithAll(bits, fileB.Sectors(), true), fileC.Sectors())
    ensures fileC.hdrSector in fileA.header.Data()
  {
    hide FirstFit, WithAll;
    var s, t := fileA.hdrSector, fileA.header.Data()[0];
    assert fileA.Sectors() == [s, t] && fileB.Sectors() == [fileB.hdrSector];
    FirstFitHead(bits, fileA.Sectors(), fileB.Sectors());
    SecondFit(bits, s, t, fileC.Sectors());
    assert t in fileA.header.Data();
  }

  /**
   Create a file of one sector and open it, remove it, create an empty file and then another one: the last file's header
   is in the sector that the handle takes for data, and some write through the handle damages it.
   */
  lemma StaleHandleHitsHeader(
    d0: Disk, d1: Disk, d2: Disk, d3: Disk, d4: Disk, a: seq<Byte>, b: seq<Byte>, c: seq<Byte>, size: nat,
    i: nat, fileA: Slot, r: nat, j: nat, fileB: Slot, k: nat, fileC: Slot)
    requires Created(d0, d1, a, SECTOR_SIZE, i, fileA) && Removed(d1, d2, a, r)
    requires Created(d2, d3, b, 0, j, fileB) && Created(d3, d4, c, size, k, fileC)
    ensures Consistent(d4) && fileA.Used? && SafeHandle(d4, fileA.header)
    ensures HitsHeader(d4, fileA.header) && !Harmless(d4, fileA.header)
  {
    CreateThenRemoveRestores(d0, d1, d2, a, SECTOR_SIZE, i, fileA, r);
    NewSectors(d0, d1, a, SECTOR_SIZE, i, fileA);
    NewSectors(d2, d3, b, 0, j, fileB);
    NewSectors(d3, d4, c, size, k, fileC);
    HeaderTakesDataSector(d0, d1, d2, d3, d4, a, b, c, size, i, fileA, j, fileB, k, fileC);
    SameHeadersRemoved(d1, d2, a, r);
    hide FreeBits, Slots, FileMap, Table, Created, Removed, Invariant, DecodeHeader, Harmless;
    OpenedIsSafe(d1, i + 2);
    StillSafe(d1, d4, fileA.header);
    HandleWriteExact(d4, fileA.header);
  }

  lemma SameHeadersRemoved(d: Disk, d': Disk, name: seq<Byte>, i: nat)
    requires Removed(d, d', name, i)
    ensures MapHeader(d') == MapHeader(d) && DirHeader(d') == DirHeader(d) && Consistent(d')
  {
  }

  lemma ShortKeys()
    ensures NameKey([65]) == [65] && NameKey([66]) == [66] && NameKey([67]) == [67]
  {
  }

  /** An empty file takes its header sector and no more. */
  lemma RoomForFew(m: FileStore)
    requires m == map[] || exists key :: m == map[key := []]
    ensures HasRoom(m, 0) && (m == map[] ==> HasRoom(m, SECTOR_SIZE))
  {
    if m != map[] {
      var key :| m == map[key := []];
      SpaceWith(map[], key, []);
      assert m == map[][key := []];
    }
  }

  /** Creating a file when there is room, as a fact about the two disks. */
  method CreateFile(fs: FileSystem, name: seq<Byte>, size: nat) returns (ghost i: nat, ghost file: Slot)
    requires fs.Valid() && size <= MAX_FILE_SIZE
    requires NameKey(name) !in FileMap(fs.disk.sectors) && HasRoom(FileMap(fs.disk.sectors), size)
    modifies fs.disk
    ensures fs.Valid() && Created(old(fs.disk.sectors), fs.disk.sectors, name, size, i, file)
    ensures FileMap(fs.disk.sectors).Keys == old(FileMap(fs.disk.sectors)).Keys + {NameKey(name)}
    ensures NameKey(name) in FileMap(fs.disk.sectors) && |FileMap(fs.disk.sectors)[NameKey(name)]| == size
    ensures FileMap(fs.disk.sectors) == old(FileMap(fs.disk.sectors))[NameKey(name) := FileMap(fs.disk.sectors)[NameKey(name)]]
  {
    hide FreeBits, Slots, FileMap, Table, Invariant, DecodeHeader, HasRoom, CanCreate, MapHeader, DirHeader;
    CreateNeedsRoom(fs.disk.sectors, name, size);
    ghost var d := fs.disk.sectors;
    var ok := fs.Create(name, size);
    assert ok;
    i, file :| Created(d, fs.disk.sectors, name, size, i, file);
  }

  /** Opens a file that was just created: the handle's header is the new file's. */
  method OpenCreated(fs: FileSystem, name: seq<Byte>, ghost d: Disk, ghost size: nat, ghost i: nat, ghost file: Slot)
    returns (handle: OpenFile)
    requires fs.Valid() && Created(d, fs.disk.sectors, name, size, i, file)
    ensures handle.Valid() && fresh(handle) && fresh(handle.hdr) && handle.disk == fs.disk
    ensures file.Used? && handle.hdr.View() == file.header
  {
    NewSectors(d, fs.disk.sectors, name, size, i, file);
    hide FreeBits, Slots, FileMap, Table, Invariant, DecodeHeader, MapHeader, DirHeader, FileAdded, FirstFit;
    var f := fs.Open(name);
    assert f != null;
    handle := f;
    ghost var k: nat :| IsFileSlot(fs.disk.sectors, k, NameKey(name), handle.hdr.View());
    OneEntry(fs.disk.sectors, k - 2, i);
  }

  /** Such a run exists on every disk, from format on, and ends with a handle that can damage another file's header. */
  method StaleHandle(disk: SynchDisk) returns (handle: OpenFile)
    requires disk.Valid()
    modifies disk
    ensures disk.Valid() && Consistent(disk.sectors) && handle.Valid() && handle.disk == disk
    ensures SafeHandle(disk.sectors, handle.hdr.View())
    ensures HitsHeader(disk.sectors, handle.hdr.View()) && !Harmless(disk.sectors, handle.hdr.View())
  {
    hide FreeBits, Slots, FileMap, Table, Invariant, DecodeHeader, HasRoom, Created, Removed, NameKey, SafeHandle, HitsHeader, Harmless;
    var fs := new FileSystem.Format(disk);
    ShortKeys();
    RoomForFew(map[]);
    ghost var d0 := disk.sectors;
    ghost var i, fileA := CreateFile(fs, [65], SECTOR_SIZE);
    ghost var d1 := disk.sectors;
    handle := OpenCreated(fs, [65], d0, SECTOR_SIZE, i, fileA);
    ghost var h := handle.hdr.View();
    var ok := fs.Remove([65]);
    ghost var d2 := disk.sectors;
    ghost var r: nat :| Removed(d1, d2, [65], r);
    RemovedMap(d1, d2, [65], r);
    assert FileMap(d2) == map[];
    ghost var j, fileB := CreateFile(fs, [66], 0);
    ghost var d3 := disk.sectors;
    assert FileMap(d3) == map[[66] := []];
    RoomForFew(FileMap(d3));
    ghost var k, fileC := CreateFile(fs, [67], 0);
    StaleHandleHitsHeader(d0, d1, d2, d3, disk.sectors, [65], [66], [67], 0, i, fileA, r, j, fileB, k, fileC);
  }

  lemma RemovedMap(d: Disk, d': Disk, name: seq<Byte>, r: nat)
    requires Removed(d, d', name, r)
    ensures Consistent(d) && Consistent(d') && FileMap(d') == FileMap(d) - {NameKey(name)}
  {
  }
}
