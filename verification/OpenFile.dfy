/**
 Open files (filesys/openfile.cc): reads and writes of arbitrary byte ranges, built from reads and
 writes of whole sectors. Proved to act on one flat byte array.
 */
module OpenFiles {
  import opened Words
  import opened Files

  /** All the bytes that were asked for, or all that are left of the file. */
  ghost predicate MovesAll(length: int, n: int, position: int, k: int)
  {
    if n <= 0 || position >= length then k == 0
    else 0 < k <= n && position + k <= length && (k < n ==> position + k == length)
  }

  /** How many bytes a request for n bytes at position moves in a file of the given length. */
  function TransferSize(length: nat, n: int, position: nat): (k: nat)
    ensures k > 0 ==> position + k <= length && k <= n
    ensures MovesAll(length, n, position, k)
  {
    if n <= 0 || position >= length then 0
    else if position + n > length then length - position
    else n
  }

  /** A position in a file: a 32-bit int that is not negative. */
  type Offset = x: int | 0 <= x < 0x8000_0000 witness 0

  /** A sum in a 32-bit int. */
  function Sum32(a: Int32, b: Int32): Int32
  {
    if a + b >= 0x8000_0000 then a + b - WORD_SPAN else if a + b < -0x8000_0000 then a + b + WORD_SPAN else a + b
  }

  /** How many bytes ReadAt and WriteAt go on with, after they have checked the request and cut it at the end of the file. */
  function Cut(length: Offset, n: Int32, position: Offset): Int32
  {
    if n <= 0 || position >= length then 0
    else if Sum32(position, n) > length then length - position
    else n
  }

  /** The sum of position and size is not needed, or fits a 32-bit int. */
  predicate CutWorks(length: int, n: int, position: int)
  {
    n <= 0 || position >= length || position + n <= 0x7FFF_FFFF
  }

  /** The cut keeps a request inside the file if and only if the sum does not overflow. */
  lemma CutExact(length: Offset, n: Int32, position: Offset)
    ensures Cut(length, n, position) == TransferSize(length, n, position) <==> CutWorks(length, n, position)
    ensures !CutWorks(length, n, position) ==> position + Cut(length, n, position) > length
  {
  }

  /** A request that is not cut: 2147483647 bytes from position 1 of a file of 100. */
  lemma CutOverflows()
    ensures Cut(100, 0x7FFF_FFFF, 1) == 0x7FFF_FFFF && TransferSize(100, 0x7FFF_FFFF, 1) == 99
  {
    CutExact(100, 0x7FFF_FFFF, 1);
  }

  /** The first and last sector of a request lie around it, inside the file. */
  lemma SectorBounds(h: Header, position: nat, k: nat)
    requires h.WellFormed() && 0 < k && position + k <= h.numBytes
    ensures
      var first, last := position / SECTOR_SIZE, (position + k - 1) / SECTOR_SIZE;
      && first * SECTOR_SIZE <= position < (first + 1) * SECTOR_SIZE
      && last * SECTOR_SIZE < position + k <= (last + 1) * SECTOR_SIZE
      && first <= last < h.numSectors
  {
  }

  /** Nothing outside the data sectors of h differs between d and d'. */
  ghost predicate OnlyDataChanged(d: seq<Sector>, d': seq<Sector>, h: Header)
  {
    && |d| == |d'| == NUM_SECTORS
    && forall s :: 0 <= s < NUM_SECTORS && s !in h.Data() ==> d'[s] == d[s]
  }

  /** bcopy */
  method Copy(src: seq<Byte>, dst: array<Byte>, at: nat)
    requires at + |src| <= dst.Length
    modifies dst
    ensures dst[..] == Splice(old(dst[..]), at, src)
  {
    for i := 0 to |src|
      invariant forall j :: 0 <= j < dst.Length ==> dst[j] == if at <= j < at + i then src[j - at] else old(dst[j])
    {
      dst[at + i] := src[i];
    }
    assert dst[..] == Splice(old(dst[..]), at, src);
  }

  /**
   buf holds, from file offset start on, what the file will hold there after from[..k] is written at
   position. Past the end of the file it may hold anything.
   */
  ghost predicate Merged(buf: seq<Byte>, start: nat, was: seq<Byte>, from: seq<Byte>, k: nat, position: nat)
    requires k <= |from|
  {
    forall j :: 0 <= j < |buf| && start + j < |was| ==>
      buf[j] == if position <= start + j < position + k then from[start + j - position] else was[start + j]
  }

  /** The partial sectors at the two ends of a request have been read into buf. */
  ghost predicate Prefilled(buf: seq<Byte>, start: nat, was: seq<Byte>, k: nat, position: nat)
  {
    forall j :: 0 <= j < |buf| && start + j < |was| && !(position <= start + j < position + k) ==>
      buf[j] == was[start + j]
  }

  lemma PrefilledMerges(buf: seq<Byte>, start: nat, was: seq<Byte>, from: seq<Byte>, k: nat, position: nat)
    requires k <= |from| && start <= position && position - start + k <= |buf|
    requires Prefilled(buf, start, was, k, position)
    ensures Merged(Splice(buf, position - start, from[..k]), start, was, from, k, position)
  {
    var r := Splice(buf, position - start, from[..k]);
    forall j | 0 <= j < |buf|
      ensures r[j] == if position <= start + j < position + k then from[start + j - position] else buf[j]
    {
    }
  }

  /** The buffer after the two conditional reads: buf1 after the first, buf2 after both. */
  ghost predicate PartialsRead(buf0: seq<Byte>, first: nat, last: nat, was: seq<Byte>, k: nat, position: nat,
                               buf1: seq<Byte>, buf2: seq<Byte>)
  {
    && first * SECTOR_SIZE <= position < (first + 1) * SECTOR_SIZE
    && last * SECTOR_SIZE < position + k <= (last + 1) * SECTOR_SIZE
    && 0 < k && position + k <= |was| && |buf0| == (1 + last - first) * SECTOR_SIZE
    && buf1 == (if position == first * SECTOR_SIZE then buf0 else SectorFetched(buf0, 0, was, first))
    && buf2 == (if position + k == (last + 1) * SECTOR_SIZE || (first == last && position != first * SECTOR_SIZE)
                then buf1 else SectorFetched(buf1, (last - first) * SECTOR_SIZE, was, last))
  }

  /** Bytes of the first sector before the request. */
  lemma PrefilledBefore(buf0: seq<Byte>, first: nat, last: nat, was: seq<Byte>, k: nat, position: nat,
                        buf1: seq<Byte>, buf2: seq<Byte>, j: nat)
    requires PartialsRead(buf0, first, last, was, k, position, buf1, buf2) && first * SECTOR_SIZE + j < position
    ensures |buf2| == |buf0| && j < |buf2| && buf2[j] == was[first * SECTOR_SIZE + j]
  {
    hide SectorFetched;
    SectorFetchedAt(buf0, 0, was, first, j);
    if buf2 != buf1 {
      SectorFetchedAt(buf1, (last - first) * SECTOR_SIZE, was, last, j);
    }
  }

  /** Bytes of the last sector behind the request, if the first sector is another one or begins with the request. */
  lemma PrefilledBehind(buf0: seq<Byte>, first: nat, last: nat, was: seq<Byte>, k: nat, position: nat,
                        buf1: seq<Byte>, buf2: seq<Byte>, j: nat)
    requires PartialsRead(buf0, first, last, was, k, position, buf1, buf2)
    requires position + k <= first * SECTOR_SIZE + j < |was| && j < |buf0|
    requires first != last || position == first * SECTOR_SIZE
    ensures |buf2| == |buf0| && buf2[j] == was[first * SECTOR_SIZE + j]
  {
    hide SectorFetched;
    SectorFetchedAt(buf1, (last - first) * SECTOR_SIZE, was, last, j);
  }

  /** Bytes behind the request, if it lies inside one sector. */
  lemma PrefilledInside(buf0: seq<Byte>, first: nat, was: seq<Byte>, k: nat, position: nat,
                        buf1: seq<Byte>, buf2: seq<Byte>, j: nat)
    requires PartialsRead(buf0, first, first, was, k, position, buf1, buf2) && position != first * SECTOR_SIZE
    requires position + k <= first * SECTOR_SIZE + j < |was| && j < |buf0|
    ensures |buf2| == |buf0| && buf2[j] == was[first * SECTOR_SIZE + j]
  {
    hide SectorFetched;
    SectorFetchedAt(buf0, 0, was, first, j);
  }

  /** Which partial sectors are read is enough, whatever the alignment. */
  lemma PartialSectorsPrefill(buf0: seq<Byte>, first: nat, last: nat, was: seq<Byte>, k: nat, position: nat,
                              buf1: seq<Byte>, buf2: seq<Byte>)
    requires PartialsRead(buf0, first, last, was, k, position, buf1, buf2)
    ensures Prefilled(buf2, first * SECTOR_SIZE, was, k, position)
  {
    PartialsLength(buf0, first, last, was, k, position, buf1, buf2);
    hide PartialsRead;
    forall j | 0 <= j < |buf2| && first * SECTOR_SIZE + j < |was| &&
               !(position <= first * SECTOR_SIZE + j < position + k)
      ensures buf2[j] == was[first * SECTOR_SIZE + j]
    {
      PrefilledAt(buf0, first, last, was, k, position, buf1, buf2, j);
    }
  }

  lemma PrefilledAt(buf0: seq<Byte>, first: nat, last: nat, was: seq<Byte>, k: nat, position: nat,
                    buf1: seq<Byte>, buf2: seq<Byte>, j: nat)
    requires PartialsRead(buf0, first, last, was, k, position, buf1, buf2) && j < |buf0|
    requires first * SECTOR_SIZE + j < |was| && !(position <= first * SECTOR_SIZE + j < position + k)
    ensures |buf2| == |buf0| && buf2[j] == was[first * SECTOR_SIZE + j]
  {
    hide PartialsRead;
    if first * SECTOR_SIZE + j < position {
      PrefilledBefore(buf0, first, last, was, k, position, buf1, buf2, j);
    } else if first != last || position == first * SECTOR_SIZE {
      PrefilledBehind(buf0, first, last, was, k, position, buf1, buf2, j);
    } else {
      PrefilledInside(buf0, first, was, k, position, buf1, buf2, j);
    }
  }

  lemma PartialsLength(buf0: seq<Byte>, first: nat, last: nat, was: seq<Byte>, k: nat, position: nat,
                       buf1: seq<Byte>, buf2: seq<Byte>)
    requires PartialsRead(buf0, first, last, was, k, position, buf1, buf2)
    ensures |buf2| == |buf0|
  {
  }

  lemma SectorFetchedAt(buf: seq<Byte>, at: nat, was: seq<Byte>, i: nat, j: nat)
    requires i * SECTOR_SIZE < |was| && at + SECTOR_SIZE <= |buf| && j < |buf|
    ensures SectorFetched(buf, at, was, i)[j] ==
      if at <= j < at + SECTOR_SIZE && i * SECTOR_SIZE + j - at < |was| then was[i * SECTOR_SIZE + j - at] else buf[j]
  {
  }

  /** buf after ReadAt fetched sector number i of the file into it at offset at. */
  function SectorFetched(buf: seq<Byte>, at: nat, was: seq<Byte>, i: nat): (r: seq<Byte>)
    requires i * SECTOR_SIZE < |was| && at + SECTOR_SIZE <= |buf|
    ensures |r| == |buf|
  {
    var k := TransferSize(|was|, SECTOR_SIZE, i * SECTOR_SIZE);
    Splice(buf, at, Slice(was, i * SECTOR_SIZE, k))
  }

  /** The data of sectors [first, upto) of the file, one after the other. */
  function SectorRun(d: seq<Sector>, h: Header, first: nat, upto: nat): (run: seq<Byte>)
    requires |d| == NUM_SECTORS && h.WellFormed() && first <= upto <= h.numSectors
    ensures |run| == (upto - first) * SECTOR_SIZE
  {
    if first == upto then [] else SectorRun(d, h, first, upto - 1) + d[h.dataSectors[upto - 1]]
  }

  lemma SectorRunGrows(d: seq<Sector>, h: Header, first: nat, upto: nat)
    requires |d| == NUM_SECTORS && h.WellFormed() && first <= upto <= h.numSectors
    ensures SectorRun(d, h, first, first) == []
    ensures upto < h.numSectors ==> SectorRun(d, h, first, upto + 1) == SectorRun(d, h, first, upto) + d[h.dataSectors[upto]]
  {
  }

  /** A piece put behind what is there already. */
  lemma SpliceGrows(buf: seq<Byte>, at: nat, piece: seq<Byte>)
    requires at + |piece| <= |buf|
    ensures Splice(buf, at, piece)[..at + |piece|] == buf[..at] + piece
  {
  }

  lemma {:induction false} SectorRunAt(d: seq<Sector>, h: Header, first: nat, upto: nat, i: nat, r: nat)
    requires |d| == NUM_SECTORS && h.WellFormed() && first <= i < upto <= h.numSectors && r < SECTOR_SIZE
    ensures SectorRun(d, h, first, upto)[(i - first) * SECTOR_SIZE + r] == d[h.dataSectors[i]][r]
    decreases upto
  {
    if i < upto - 1 { SectorRunAt(d, h, first, upto - 1, i, r); }
  }

  lemma {:induction false} SectorRunFrame(d: seq<Sector>, d': seq<Sector>, h: Header, first: nat, upto: nat)
    requires |d| == |d'| == NUM_SECTORS && h.WellFormed() && first <= upto <= h.numSectors
    requires forall i :: first <= i < upto ==> d[h.dataSectors[i]] == d'[h.dataSectors[i]]
    ensures SectorRun(d, h, first, upto) == SectorRun(d', h, first, upto)
    decreases upto
  {
    if first < upto { SectorRunFrame(d, d', h, first, upto - 1); }
  }

  /** A run of sectors is the matching stretch of the flat array. */
  lemma SectorRunIsFlat(d: seq<Sector>, h: Header, first: nat, upto: nat, j: nat)
    requires |d| == NUM_SECTORS && h.WellFormed() && first <= upto <= h.numSectors
    requires j < (upto - first) * SECTOR_SIZE && first * SECTOR_SIZE + j < h.numBytes
    ensures SectorRun(d, h, first, upto)[j] == Flat(d, h)[first * SECTOR_SIZE + j]
  {
    var i, r := first + j / SECTOR_SIZE, j % SECTOR_SIZE;
    SectorRunAt(d, h, first, upto, i, r);
    assert (first * SECTOR_SIZE + j) / SECTOR_SIZE == i;
    assert (first * SECTOR_SIZE + j) % SECTOR_SIZE == r;
  }

  lemma SectorRunSlice(d: seq<Sector>, h: Header, first: nat, upto: nat, position: nat, k: nat)
    requires |d| == NUM_SECTORS && h.WellFormed() && first <= upto <= h.numSectors
    requires first * SECTOR_SIZE <= position && position + k <= upto * SECTOR_SIZE && position + k <= h.numBytes
    ensures
      var start := position - first * SECTOR_SIZE;
      SectorRun(d, h, first, upto)[start..start + k] == Flat(d, h)[position..position + k]
  {
    var start := position - first * SECTOR_SIZE;
    var piece, want := SectorRun(d, h, first, upto)[start..start + k], Flat(d, h)[position..position + k];
    forall j | 0 <= j < k
      ensures piece[j] == want[j]
    {
      SectorRunIsFlat(d, h, first, upto, start + j);
    }
  }

  /** Part way through writing buf back: the sectors before sector number i of the file hold it. */
  ghost predicate Writing(was: seq<Sector>, d: seq<Sector>, h: Header, first: nat, i: nat, buf: seq<Byte>)
    requires |was| == NUM_SECTORS && h.WellFormed()
  {
    && OnlyDataChanged(was, d, h)
    && first <= i <= h.numSectors && (i - first) * SECTOR_SIZE <= |buf|
    && SectorRun(d, h, first, i) == buf[..(i - first) * SECTOR_SIZE]
    && forall s :: 0 <= s < h.numSectors && !(first <= s < i) ==> d[h.dataSectors[s]] == was[h.dataSectors[s]]
  }

  lemma WritingStep(was: seq<Sector>, d: seq<Sector>, h: Header, first: nat, i: nat, buf: seq<Byte>, piece: Sector)
    requires |was| == NUM_SECTORS && h.WellFormed() && Writing(was, d, h, first, i, buf) && i < h.numSectors
    requires (i + 1 - first) * SECTOR_SIZE <= |buf|
    requires piece == buf[(i - first) * SECTOR_SIZE..(i + 1 - first) * SECTOR_SIZE]
    ensures Writing(was, d[h.dataSectors[i] := piece], h, first, i + 1, buf)
  {
    var d' := d[h.dataSectors[i] := piece];
    SectorRunFrame(d, d', h, first, i);
    var j := (i - first) * SECTOR_SIZE;
    assert buf[..j + SECTOR_SIZE] == buf[..j] + piece;
    assert h.dataSectors[i] == h.Data()[i];
  }

  /** Storing a merged buffer amounts to splicing the new bytes into the flat array. */
  lemma StoredMergedIsSplice(d: seq<Sector>, d': seq<Sector>, h: Header, first: nat, upto: nat,
                             buf: seq<Byte>, from: seq<Byte>, k: nat, position: nat)
    requires |d| == |d'| == NUM_SECTORS && h.WellFormed() && 0 < k <= |from| && position + k <= h.numBytes
    requires first <= upto <= h.numSectors
    requires first * SECTOR_SIZE <= position && position + k <= upto * SECTOR_SIZE
    requires Merged(buf, first * SECTOR_SIZE, Flat(d, h), from, k, position)
    requires SectorRun(d', h, first, upto) == buf
    requires forall i :: 0 <= i < h.numSectors && !(first <= i < upto) ==> d'[h.dataSectors[i]] == d[h.dataSectors[i]]
    ensures Flat(d', h) == Splice(Flat(d, h), position, from[..k])
  {
    var was, now := Flat(d, h), Flat(d', h);
    var want := Splice(was, position, from[..k]);
    forall p | 0 <= p < h.numBytes
      ensures now[p] == want[p]
    {
      if first * SECTOR_SIZE <= p < upto * SECTOR_SIZE {
        SectorRunIsFlat(d', h, first, upto, p - first * SECTOR_SIZE);
      } else {
        assert now[p] == was[p];
      }
    }
  }

  class OpenFile {
    const hdr: FileHeader
    const disk: SynchDisk
    var seekPosition: Offset

    ghost predicate Valid()
      reads this, hdr, disk
    {
      hdr.Valid() && disk.Valid() && hdr.View().WellFormed()
    }

    ghost function Contents(): (bytes: seq<Byte>)
      requires Valid()
      reads this, hdr, disk
    {
      Flat(disk.sectors, hdr.View())
    }

    constructor (disk: SynchDisk, sector: nat)
      requires disk.Valid() && sector < NUM_SECTORS
      ensures fresh(hdr) && hdr.Valid() && this.disk == disk && seekPosition == 0
      ensures hdr.View() == DecodeHeader(disk.sectors[sector])
      ensures DecodeHeader(disk.sectors[sector]).WellFormed() ==> Valid()
    {
      this.disk := disk;
      hdr := new FileHeader(Header(0, 0, seq(NUM_DIRECT, _ => 0)));
      seekPosition := 0;
      new;
      hdr.FetchFrom(disk, sector);
    }

    method Seek(position: Offset)
      modifies this
      ensures seekPosition == position
    {
      seekPosition := position;
    }

    /** Copies into[at..] from the file; exactly the slice [position, position + k). */
    method ReadAt(into: array<Byte>, at: nat, numBytes: Int32, position: Offset) returns (k: nat)
      requires Valid() && CutWorks(hdr.View().numBytes, numBytes, position)
      requires at + TransferSize(hdr.View().numBytes, numBytes, position) <= into.Length
      modifies into
      ensures Valid() && k == TransferSize(hdr.View().numBytes, numBytes, position)
      ensures MovesAll(hdr.View().numBytes, numBytes, position, k)
      ensures into[..] == Splice(old(into[..]), at, Slice(Contents(), position, k))
    {
      var fileLength := hdr.FileLength();
      if numBytes <= 0 || position >= fileLength {
        return 0;
      }
      CutExact(fileLength, numBytes, position);
      k := if Sum32(position, numBytes) > fileLength then fileLength - position else numBytes;
      var bytes := ReadRange(k, position);
      ghost var file := Contents();
      Copy(bytes, into, at);
      assert Contents() == file;
    }

    /** Reads the full and partial sectors of a request, and keeps the part we want. */
    method ReadRange(k: nat, position: nat) returns (bytes: seq<Byte>)
      requires Valid() && 0 < k && position + k <= hdr.View().numBytes
      ensures bytes == Slice(Contents(), position, k)
    {
      var firstSector := position / SECTOR_SIZE;
      var lastSector := (position + k - 1) / SECTOR_SIZE;
      SectorBounds(hdr.View(), position, k);
      hide Flat, SectorRun;
      var sectors := ReadSectors(firstSector, lastSector);
      var start := position - firstSector * SECTOR_SIZE;
      bytes := sectors[start..start + k];
      SectorRunSlice(disk.sectors, hdr.View(), firstSector, lastSector + 1, position, k);
    }

    method ReadSectors(firstSector: nat, lastSector: nat) returns (contents: seq<Byte>)
      requires Valid() && firstSector <= lastSector < hdr.View().numSectors
      ensures contents == SectorRun(disk.sectors, hdr.View(), firstSector, lastSector + 1)
    {
      hide Flat, SectorRun, Splice;
      var buf := new Byte[(1 + lastSector - firstSector) * SECTOR_SIZE];
      SectorRunGrows(disk.sectors, hdr.View(), firstSector, firstSector);
      var i := firstSector;
      while i <= lastSector
        invariant firstSector <= i <= lastSector + 1
        invariant buf[..(i - firstSector) * SECTOR_SIZE] == SectorRun(disk.sectors, hdr.View(), firstSector, i)
      {
        SectorRunGrows(disk.sectors, hdr.View(), firstSector, i);
        ReadSectorInto(buf, (i - firstSector) * SECTOR_SIZE, i);
        i := i + 1;
      }
      contents := buf[..];
      assert buf[..buf.Length] == buf[..];
    }

    /** `ReadSector(hdr->ByteToSector(i * SectorSize), &buf[at])`, when buf is filled up to at. */
    method ReadSectorInto(buf: array<Byte>, at: nat, i: nat)
      requires Valid() && i < hdr.View().numSectors && at + SECTOR_SIZE <= buf.Length
      modifies buf
      ensures buf[..at + SECTOR_SIZE] == old(buf[..at]) + disk.sectors[hdr.dataSectors[i]]
    {
      hide Flat, Splice;
      ghost var was := buf[..];
      var s := hdr.ByteToSector(i * SECTOR_SIZE);
      var data := disk.ReadSector(s);
      SpliceGrows(was, at, data);
      Copy(data, buf, at);
      assert buf[..][..at + SECTOR_SIZE] == buf[..at + SECTOR_SIZE] && was[..at] == old(buf[..at]);
    }

    /**
     Replaces exactly the bytes [position, position + k) of this file, although whole sectors are
     written, and touches no sector outside the file.
     */
    method WriteAt(from: seq<Byte>, numBytes: Int32, position: Offset) returns (k: nat)
      requires Valid() && CutWorks(hdr.View().numBytes, numBytes, position)
      requires TransferSize(hdr.View().numBytes, numBytes, position) <= |from|
      modifies disk
      ensures Valid() && k == TransferSize(hdr.View().numBytes, numBytes, position)
      ensures MovesAll(hdr.View().numBytes, numBytes, position, k)
      ensures Contents() == Splice(old(Contents()), position, from[..k])
      ensures OnlyDataChanged(old(disk.sectors), disk.sectors, hdr.View())
      ensures k == 0 ==> disk.sectors == old(disk.sectors)
    {
      hide Flat;
      var fileLength := hdr.FileLength();
      if numBytes <= 0 || position >= fileLength {
        return 0;
      }
      CutExact(fileLength, numBytes, position);
      k := if Sum32(position, numBytes) > fileLength then fileLength - position else numBytes;
      WriteRange(from, k, position);
    }

    /** Reads the partial sectors of a request, copies the new bytes in, and writes the sectors back. */
    method WriteRange(from: seq<Byte>, k: nat, position: nat)
      requires Valid() && 0 < k <= |from| && position + k <= hdr.View().numBytes
      modifies disk
      ensures Valid() && Contents() == Splice(old(Contents()), position, from[..k])
      ensures OnlyDataChanged(old(disk.sectors), disk.sectors, hdr.View())
    {
      hide Flat, Splice, Merged;
      var firstSector := position / SECTOR_SIZE;
      var lastSector := (position + k - 1) / SECTOR_SIZE;
      SectorBounds(hdr.View(), position, k);
      var buf := FillBuffer(from, k, position, firstSector, lastSector);
      ghost var was := disk.sectors;
      WriteSectors(firstSector, lastSector, buf);
      assert buf[..(lastSector + 1 - firstSector) * SECTOR_SIZE] == buf;
      StoredMergedIsSplice(was, disk.sectors, hdr.View(), firstSector, lastSector + 1, buf, from, k, position);
    }

    method WritePiece(i: nat, piece: Sector)
      requires Valid() && i < hdr.View().numSectors
      modifies disk
      ensures disk.Valid() && disk.sectors == old(disk.sectors)[hdr.dataSectors[i] := piece]
    {
      var s := hdr.ByteToSector(i * SECTOR_SIZE);
      disk.WriteSector(s, piece);
    }

    method WriteSectors(firstSector: nat, lastSector: nat, buf: seq<Byte>)
      requires Valid() && firstSector <= lastSector < hdr.View().numSectors
      requires |buf| == (1 + lastSector - firstSector) * SECTOR_SIZE
      modifies disk
      ensures Valid() && Writing(old(disk.sectors), disk.sectors, hdr.View(), firstSector, lastSector + 1, buf)
    {
      ghost var was, d, h := disk.sectors, disk.sectors, hdr.View();
      var i := firstSector;
      while i <= lastSector
        invariant disk.Valid() && hdr.View() == h && firstSector <= i <= lastSector + 1
        invariant disk.sectors == d && Writing(was, d, h, firstSector, i, buf)
      {
        var piece := buf[(i - firstSector) * SECTOR_SIZE..(i + 1 - firstSector) * SECTOR_SIZE];
        WritingStep(was, d, h, firstSector, i, buf, piece);
        d := d[h.dataSectors[i] := piece];
        WritePiece(i, piece);
        i := i + 1;
      }
    }

    /** `ReadAt(&buf[at], SectorSize, i * SectorSize)` */
    method FetchSector(buf: array<Byte>, at: nat, i: nat)
      requires Valid() && i * SECTOR_SIZE < hdr.View().numBytes && at + SECTOR_SIZE <= buf.Length
      modifies buf
      ensures buf[..] == SectorFetched(old(buf[..]), at, Contents(), i)
    {
      var k := ReadAt(buf, at, SECTOR_SIZE, i * SECTOR_SIZE);
    }

    /** A buffer for the sectors about to be written, with the partial ones read in. */
    method ReadPartialSectors(k: nat, position: nat, firstSector: nat, lastSector: nat) returns (buf: array<Byte>)
      requires Valid() && 0 < k && position + k <= hdr.View().numBytes
      requires firstSector * SECTOR_SIZE <= position < (firstSector + 1) * SECTOR_SIZE
      requires lastSector * SECTOR_SIZE < position + k <= (lastSector + 1) * SECTOR_SIZE
      ensures fresh(buf) && buf.Length == (1 + lastSector - firstSector) * SECTOR_SIZE
      ensures Prefilled(buf[..], firstSector * SECTOR_SIZE, Contents(), k, position)
    {
      buf := new Byte[(1 + lastSector - firstSector) * SECTOR_SIZE];
      var firstAligned := position == firstSector * SECTOR_SIZE;
      var lastAligned := position + k == (lastSector + 1) * SECTOR_SIZE;
      ghost var was, buf0 := Contents(), buf[..];
      if !firstAligned {
        FetchSector(buf, 0, firstSector);
      }
      ghost var buf1 := buf[..];
      if !lastAligned && (firstSector != lastSector || firstAligned) {
        FetchSector(buf, (lastSector - firstSector) * SECTOR_SIZE, lastSector);
      }
      assert Contents() == was;
      PartialSectorsPrefill(buf0, firstSector, lastSector, was, k, position, buf1, buf[..]);
    }

    /** The sectors about to be written: partial ones are read first, then the new bytes copied in. */
    method FillBuffer(from: seq<Byte>, k: nat, position: nat, firstSector: nat, lastSector: nat)
      returns (contents: seq<Byte>)
      requires Valid() && 0 < k <= |from| && position + k <= hdr.View().numBytes
      requires firstSector * SECTOR_SIZE <= position < (firstSector + 1) * SECTOR_SIZE
      requires lastSector * SECTOR_SIZE < position + k <= (lastSector + 1) * SECTOR_SIZE
      ensures |contents| == (1 + lastSector - firstSector) * SECTOR_SIZE
      ensures Merged(contents, firstSector * SECTOR_SIZE, Contents(), from, k, position)
    {
      var buf := ReadPartialSectors(k, position, firstSector, lastSector);
      ghost var was := Contents();
      PrefilledMerges(buf[..], firstSector * SECTOR_SIZE, was, from, k, position);
      Copy(from[..k], buf, position - firstSector * SECTOR_SIZE);
      assert Contents() == was;
      contents := buf[..];
    }

    method Read(into: array<Byte>, numBytes: Int32) returns (k: nat)
      requires Valid() && CutWorks(hdr.View().numBytes, numBytes, seekPosition)
      requires TransferSize(hdr.View().numBytes, numBytes, seekPosition) <= into.Length
      modifies this, into
      ensures Valid() && k == TransferSize(hdr.View().numBytes, numBytes, old(seekPosition))
      ensures MovesAll(hdr.View().numBytes, numBytes, old(seekPosition), k)
      ensures into[..] == Splice(old(into[..]), 0, Slice(Contents(), old(seekPosition), k))
      ensures seekPosition == old(seekPosition) + k
    {
      k := ReadAt(into, 0, numBytes, seekPosition);
      seekPosition := seekPosition + k;
    }

    method Write(from: seq<Byte>, numBytes: Int32) returns (k: nat)
      requires Valid() && CutWorks(hdr.View().numBytes, numBytes, seekPosition)
      requires TransferSize(hdr.View().numBytes, numBytes, seekPosition) <= |from|
      modifies this, disk
      ensures Valid() && k == TransferSize(hdr.View().numBytes, numBytes, old(seekPosition))
      ensures MovesAll(hdr.View().numBytes, numBytes, old(seekPosition), k)
      ensures Contents() == Splice(old(Contents()), old(seekPosition), from[..k])
      ensures OnlyDataChanged(old(disk.sectors), disk.sectors, hdr.View())
      ensures seekPosition == old(seekPosition) + k
    {
      k := WriteAt(from, numBytes, seekPosition);
      seekPosition := seekPosition + k;
    }
  }
}
