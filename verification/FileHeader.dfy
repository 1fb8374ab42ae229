/**
 The disk as the file system sees it (an array of 128-byte sectors behind SynchDisk), the on-disk
 file header of filesys/filehdr.cc, and the flat byte array that a header and a disk denote.
 */
module Files {
  import opened Words
  import opened Bitmaps

  const SECTOR_SIZE := 128
  const NUM_SECTORS := 1024
  const NUM_DIRECT := 30
  const MAX_FILE_SIZE := 3840

  type Sector = s: seq<Byte> | |s| == 128 witness seq(128, _ => 0)

  /** What SynchDisk offers its callers: whole sectors, read and written one at a time. */
  class SynchDisk {
    var sectors: seq<Sector>

    ghost predicate Valid()
      reads this
    {
      |sectors| == NUM_SECTORS
    }

    constructor (contents: seq<Sector>)
      requires |contents| == NUM_SECTORS
      ensures Valid() && sectors == contents
    {
      sectors := contents;
    }

    method ReadSector(sectorNumber: nat) returns (data: Sector)
      requires Valid() && sectorNumber < NUM_SECTORS
      ensures data == sectors[sectorNumber]
    {
      data := sectors[sectorNumber];
    }

    method WriteSector(sectorNumber: nat, data: Sector)
      requires Valid() && sectorNumber < NUM_SECTORS
      modifies this
      ensures Valid() && sectors == old(sectors)[sectorNumber := data]
    {
      sectors := sectors[sectorNumber := data];
    }
  }

  // ---------- headers ----------

  datatype Header = Header(numBytes: Int32, numSectors: Int32, dataSectors: seq<Int32>)
  {
    /** The sectors that hold the file's data, in file order. */
    function Data(): seq<Int32>
    {
      if 0 <= numSectors <= |dataSectors| then dataSectors[..numSectors] else []
    }

    ghost predicate WellFormed()
    {
      && |dataSectors| == NUM_DIRECT
      && 0 <= numBytes <= MAX_FILE_SIZE
      && numSectors == DivRoundUp(numBytes, SECTOR_SIZE)
      && (forall i :: 0 <= i < numSectors ==> 0 <= dataSectors[i] < NUM_SECTORS)
      && (forall i, j :: 0 <= i < j < numSectors ==> dataSectors[i] != dataSectors[j])
    }
  }

  /** The 32 ints of a header in memory order: numBytes, numSectors, dataSectors. */
  function HeaderWords(h: Header): (ws: seq<Word>)
    requires |h.dataSectors| == NUM_DIRECT
    ensures |ws| == NUM_DIRECT + 2
  {
    seq(NUM_DIRECT + 2, i requires 0 <= i < NUM_DIRECT + 2 =>
      ToWord(if i == 0 then h.numBytes else if i == 1 then h.numSectors else h.dataSectors[i - 2]))
  }

  function WordsHeader(ws: seq<Word>): (h: Header)
    requires |ws| == NUM_DIRECT + 2
    ensures |h.dataSectors| == NUM_DIRECT
  {
    Header(ToInt(ws[0]), ToInt(ws[1]), seq(NUM_DIRECT, i requires 0 <= i < NUM_DIRECT => ToInt(ws[i + 2])))
  }

  function EncodeHeader(h: Header): Sector
    requires |h.dataSectors| == NUM_DIRECT
  {
    EncodeWords(HeaderWords(h))
  }

  function DecodeHeader(s: Sector): (h: Header)
    ensures |h.dataSectors| == NUM_DIRECT
  {
    WordsHeader(DecodeWords(s))
  }

  lemma HeaderWordsRoundTrip(h: Header)
    requires |h.dataSectors| == NUM_DIRECT
    ensures WordsHeader(HeaderWords(h)) == h
  {
    var back := WordsHeader(HeaderWords(h));
    forall i | 0 <= i < NUM_DIRECT
      ensures back.dataSectors[i] == h.dataSectors[i]
    {
      assert HeaderWords(h)[i + 2] == ToWord(h.dataSectors[i]);
    }
    assert back.dataSectors == h.dataSectors;
    assert HeaderWords(h)[0] == ToWord(h.numBytes) && HeaderWords(h)[1] == ToWord(h.numSectors);
  }

  /** A header written to its sector is the header read back. */
  lemma HeaderRoundTrip(h: Header)
    requires |h.dataSectors| == NUM_DIRECT
    ensures DecodeHeader(EncodeHeader(h)) == h
  {
    WordsRoundTrip(HeaderWords(h));
    HeaderWordsRoundTrip(h);
  }

  /** The contents of the file with header h on disk d: one flat array of numBytes bytes. */
  function Flat(d: seq<Sector>, h: Header): (bytes: seq<Byte>)
    requires |d| == NUM_SECTORS && h.WellFormed()
    ensures |bytes| == h.numBytes
  {
    seq(h.numBytes, p requires 0 <= p < h.numBytes => d[h.dataSectors[p / SECTOR_SIZE]][p % SECTOR_SIZE])
  }

  /** The contents of a file depend on its own data sectors and on nothing else. */
  lemma FlatFrame(d: seq<Sector>, d': seq<Sector>, h: Header)
    requires |d| == |d'| == NUM_SECTORS && h.WellFormed()
    requires forall s :: s in h.Data() ==> d[s] == d'[s]
    ensures Flat(d, h) == Flat(d', h)
  {
    forall p | 0 <= p < h.numBytes
      ensures Flat(d, h)[p] == Flat(d', h)[p]
    {
      assert h.dataSectors[p / SECTOR_SIZE] == h.Data()[p / SECTOR_SIZE];
    }
  }

  lemma FirstFitWellFormed(bits: seq<bool>, h: Header)
    requires |bits| == NUM_SECTORS && |h.dataSectors| == NUM_DIRECT && 0 <= h.numBytes <= MAX_FILE_SIZE
    requires h.numSectors == DivRoundUp(h.numBytes, SECTOR_SIZE) && FirstFit(bits, h.Data())
    ensures h.WellFormed()
  {
    var data := h.Data();
    forall i | 0 <= i < h.numSectors
      ensures 0 <= h.dataSectors[i] < NUM_SECTORS
    {
      assert h.dataSectors[i] == data[i];
    }
    forall i, j | 0 <= i < j < h.numSectors
      ensures h.dataSectors[i] != h.dataSectors[j]
    {
      assert data[i] < data[j];
    }
  }

  class FileHeader {
    var numBytes: Int32
    var numSectors: Int32
    var dataSectors: seq<Int32>

    ghost predicate Valid()
      reads this
    {
      |dataSectors| == NUM_DIRECT
    }

    function View(): Header
      reads this
    {
      Header(numBytes, numSectors, dataSectors)
    }

    /** A header starts with whatever memory holds. */
    constructor (garbage: Header)
      requires |garbage.dataSectors| == NUM_DIRECT
      ensures Valid() && View() == garbage
    {
      numBytes, numSectors, dataSectors := garbage.numBytes, garbage.numSectors, garbage.dataSectors;
    }

    /** Succeeds exactly when enough sectors are clear; then the file's sectors are a first fit. */
    method Allocate(freeMap: Bitmap, fileSize: Int32) returns (ok: bool)
      requires Valid() && freeMap.Valid() && freeMap.numBits == NUM_SECTORS
      requires 0 <= fileSize <= MAX_FILE_SIZE
      modifies this, freeMap.words
      ensures Valid()
      ensures ok <==> CountClear(old(freeMap.Bits())) >= DivRoundUp(fileSize, SECTOR_SIZE)
      ensures !ok ==> freeMap.Bits() == old(freeMap.Bits())
      ensures ok ==> View().WellFormed() && numBytes == fileSize
      ensures ok ==> FirstFit(old(freeMap.Bits()), View().Data())
      ensures ok ==> freeMap.Bits() == WithAll(old(freeMap.Bits()), View().Data(), true)
    {
      numBytes := fileSize;
      numSectors := DivRoundUp(fileSize, SECTOR_SIZE);
      var clear := freeMap.NumClear();
      if clear < numSectors {
        return false;
      }
      ghost var bits := freeMap.Bits();
      TakeSectors(freeMap);
      FirstFitWellFormed(bits, View());
      ok := true;
    }

    /** Allocate's loop; there is a clear sector each time round, so FindAndSet does not fail. */
    method TakeSectors(freeMap: Bitmap)
      requires Valid() && freeMap.Valid() && freeMap.numBits == NUM_SECTORS
      requires 0 <= numSectors <= NUM_DIRECT && numSectors <= CountClear(freeMap.Bits())
      modifies this`dataSectors, freeMap.words
      ensures Valid() && Taken(old(freeMap.Bits()), View().Data(), freeMap.Bits())
    {
      ghost var bits := freeMap.Bits();
      for i := 0 to numSectors
        invariant Valid() && Taken(bits, dataSectors[..i], freeMap.Bits())
      {
        CountClearZero(freeMap.Bits());
        ghost var now, taken := freeMap.Bits(), dataSectors[..i];
        var s := freeMap.FindAndSet();
        TakeNext(bits, taken, now, s);
        dataSectors := dataSectors[i := s];
        assert dataSectors[..i + 1] == taken + [s];
      }
    }

    /** Every data sector was marked (the source asserts it) and ends clear. */
    method Deallocate(freeMap: Bitmap)
      requires Valid() && View().WellFormed() && freeMap.Valid() && freeMap.numBits == NUM_SECTORS
      requires forall s :: s in View().Data() ==> freeMap.Bits()[s]
      modifies freeMap.words
      ensures freeMap.Bits() == WithAll(old(freeMap.Bits()), View().Data(), false)
    {
      ghost var bits := freeMap.Bits();
      assert bits == WithAll(bits, dataSectors[..0], false);
      for i := 0 to numSectors
        invariant freeMap.Bits() == WithAll(bits, dataSectors[..i], false)
      {
        assert dataSectors[i] == View().Data()[i];
        assert dataSectors[i] !in dataSectors[..i];
        var marked := freeMap.Test(dataSectors[i]);
        assert marked;
        freeMap.Clear(dataSectors[i]);
        assert dataSectors[..i + 1] == dataSectors[..i] + [dataSectors[i]];
        assert freeMap.Bits() == WithAll(bits, dataSectors[..i + 1], false);
      }
    }

    method FetchFrom(disk: SynchDisk, sector: nat)
      requires disk.Valid() && sector < NUM_SECTORS
      modifies this
      ensures Valid() && View() == DecodeHeader(disk.sectors[sector])
    {
      var data := disk.ReadSector(sector);
      var h := DecodeHeader(data);
      numBytes, numSectors, dataSectors := h.numBytes, h.numSectors, h.dataSectors;
    }

    method WriteBack(disk: SynchDisk, sector: nat)
      requires Valid() && disk.Valid() && sector < NUM_SECTORS
      modifies disk
      ensures disk.Valid() && disk.sectors == old(disk.sectors)[sector := EncodeHeader(View())]
    {
      disk.WriteSector(sector, EncodeHeader(View()));
    }

    /** On any disk, byte number offset of the file is byte offset % SectorSize of this sector. */
    method ByteToSector(offset: nat) returns (sector: nat)
      requires View().WellFormed() && offset / SECTOR_SIZE < numSectors
      ensures sector == View().Data()[offset / SECTOR_SIZE] && sector < NUM_SECTORS
      ensures forall d: seq<Sector> :: |d| == NUM_SECTORS && offset < numBytes ==>
        Flat(d, View())[offset] == d[sector][offset % SECTOR_SIZE]
    {
      sector := dataSectors[offset / SECTOR_SIZE];
    }

    method FileLength() returns (n: Int32)
      ensures n == View().numBytes
    {
      n := numBytes;
    }
  }
}
