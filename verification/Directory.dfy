/**
 The directory (filesys/directory.cc) and the persistent free map (filesys/pbitmap.cc): the two
 in-memory tables that live in ordinary files, with their byte layout.
 */
module Directories {
  import opened Words
  import opened Bitmaps
  import opened Files
  import opened OpenFiles

  const FILE_NAME_MAX_LEN := 9
  const ENTRY_SIZE := 20

  // ---------- C strings, compared and copied on their first n characters ----------

  /** A C string is its bytes up to a terminating NUL; reading past the end finds the NUL. */
  function CharAt(s: seq<Byte>): Byte
  {
    if s == [] then 0 else s[0]
  }

  function Rest(s: seq<Byte>): seq<Byte>
  {
    if s == [] then [] else s[1..]
  }

  /** `strncmp(a, b, n) == 0` */
  predicate StrnEqual(a: seq<Byte>, b: seq<Byte>, n: nat)
  {
    n == 0 ||
    (CharAt(a) == CharAt(b) && (CharAt(a) == 0 || StrnEqual(Rest(a), Rest(b), n - 1)))
  }

  /** The part of a string that strncmp and strncpy look at. */
  function Canon(s: seq<Byte>, n: nat): (c: seq<Byte>)
    ensures |c| <= n
  {
    if n == 0 || CharAt(s) == 0 then [] else [s[0]] + Canon(s[1..], n - 1)
  }

  lemma {:induction false} StrnEqualIsCanon(a: seq<Byte>, b: seq<Byte>, n: nat)
    ensures StrnEqual(a, b, n) <==> Canon(a, n) == Canon(b, n)
  {
    if n > 0 && CharAt(a) == CharAt(b) && CharAt(a) != 0 {
      StrnEqualIsCanon(a[1..], b[1..], n - 1);
      assert Canon(a, n)[1..] == Canon(a[1..], n - 1);
      assert Canon(b, n)[1..] == Canon(b[1..], n - 1);
    } else if n > 0 && CharAt(a) != CharAt(b) {
      assert Canon(a, n) != [] ==> Canon(a, n)[0] == CharAt(a);
      assert Canon(b, n) != [] ==> Canon(b, n)[0] == CharAt(b);
    }
  }

  /** Of a string without a NUL inside, the first n characters. */
  lemma {:induction false} CanonIsPrefix(s: seq<Byte>, n: nat)
    requires 0 !in s
    ensures Canon(s, n) == if |s| <= n then s else s[..n]
  {
    if n > 0 && s != [] {
      assert s[0] in s && forall c <- s[1..] :: c in s;
      CanonIsPrefix(s[1..], n - 1);
      assert s == [s[0]] + s[1..];
    }
  }

  /** `strncpy(dst, src, n)`: stops at the NUL, pads with NULs to n, leaves the rest of dst. */
  function Strncpy(dst: seq<Byte>, src: seq<Byte>, n: nat): (r: seq<Byte>)
    requires n <= |dst|
    ensures |r| == |dst|
  {
    var c := Canon(src, n);
    c + seq(n - |c|, _ => 0) + dst[n..]
  }

  lemma {:induction false} CanonPadded(c: seq<Byte>, tail: seq<Byte>, n: nat)
    requires |c| <= n && (forall i :: 0 <= i < |c| ==> c[i] != 0) && (|c| < n ==> CharAt(tail) == 0)
    ensures Canon(c + tail, n) == c
  {
    if c == [] {
      assert c + tail == tail;
    } else {
      assert (c + tail)[1..] == c[1..] + tail;
      CanonPadded(c[1..], tail, n - 1);
    }
  }

  lemma {:induction false} CanonHasNoNul(s: seq<Byte>, n: nat)
    ensures forall i :: 0 <= i < |Canon(s, n)| ==> Canon(s, n)[i] != 0
  {
    if n > 0 && CharAt(s) != 0 { CanonHasNoNul(s[1..], n - 1); }
  }

  lemma CanonStrncpy(dst: seq<Byte>, src: seq<Byte>, n: nat)
    requires n <= |dst|
    ensures Canon(Strncpy(dst, src, n), n) == Canon(src, n)
  {
    var c := Canon(src, n);
    CanonHasNoNul(src, n);
    var tail := seq(n - |c|, _ => 0) + dst[n..];
    assert Strncpy(dst, src, n) == c + tail;
    CanonPadded(c, tail, n);
  }

  // ---------- directory entries ----------

  type Name = s: seq<Byte> | |s| == 10 witness seq(10, _ => 0)

  datatype DirectoryEntry = DirectoryEntry(inUse: bool, sector: Int32, name: Name)
  {
    /** The name by which the directory knows the file. */
    function Key(): seq<Byte>
    {
      Canon(name, FILE_NAME_MAX_LEN)
    }
  }

  /** sizeof(DirectoryEntry) is 20: flag and 3 bytes of padding, int, 10 chars and 2 bytes of padding. */
  function EncodeEntry(e: DirectoryEntry): (b: seq<Byte>)
    ensures |b| == ENTRY_SIZE
  {
    [if e.inUse then 1 else 0, 0, 0, 0] + WordBytes(ToWord(e.sector)) + e.name + [0, 0]
  }

  function DecodeEntry(b: seq<Byte>): DirectoryEntry
    requires |b| == ENTRY_SIZE
  {
    DirectoryEntry(b[0] != 0, ToInt(BytesWord(b[4..8])), b[8..18])
  }

  lemma EntryRoundTrip(e: DirectoryEntry)
    ensures DecodeEntry(EncodeEntry(e)) == e
  {
    var b := EncodeEntry(e);
    WordBytesRoundTrip(ToWord(e.sector));
    assert b[4..8] == WordBytes(ToWord(e.sector));
    assert b[8..18] == e.name;
  }

  function EncodeTable(t: seq<DirectoryEntry>): (b: seq<Byte>)
    ensures |b| == ENTRY_SIZE * |t|
  {
    if t == [] then [] else EncodeTable(t[..|t| - 1]) + EncodeEntry(t[|t| - 1])
  }

  function DecodeTable(b: seq<Byte>, n: nat): (t: seq<DirectoryEntry>)
    requires |b| == ENTRY_SIZE * n
    ensures |t| == n
  {
    if n == 0 then []
    else DecodeTable(b[..|b| - ENTRY_SIZE], n - 1) + [DecodeEntry(b[|b| - ENTRY_SIZE..])]
  }

  lemma DecodeLonger(front: seq<Byte>, last: seq<Byte>, n: nat)
    requires |front| == ENTRY_SIZE * n && |last| == ENTRY_SIZE
    ensures DecodeTable(front + last, n + 1) == DecodeTable(front, n) + [DecodeEntry(last)]
  {
    hide DecodeEntry;
    assert (front + last)[..|front|] == front && (front + last)[|front|..] == last;
  }

  lemma EncodeLonger(front: seq<DirectoryEntry>, last: DirectoryEntry)
    ensures EncodeTable(front + [last]) == EncodeTable(front) + EncodeEntry(last)
  {
    hide EncodeEntry;
    assert (front + [last])[..|front|] == front;
  }

  lemma EmptyTable()
    ensures DecodeTable(EncodeTable([]), 0) == []
  {
  }

  /** A directory written to its file is the directory read back. */
  lemma {:induction false} TableRoundTrip(t: seq<DirectoryEntry>)
    ensures DecodeTable(EncodeTable(t), |t|) == t
  {
    hide EncodeEntry, DecodeEntry, DecodeTable, EncodeTable;
    if t == [] {
      EmptyTable();
    } else {
      var front, last := t[..|t| - 1], t[|t| - 1];
      assert t == front + [last];
      TableRoundTrip(front);
      EntryRoundTrip(last);
      EncodeLonger(front, last);
      DecodeLonger(EncodeTable(front), EncodeEntry(last), |front|);
    }
  }

  /** Entry i is the in-use entry that the directory finds for the name. */
  ghost predicate Finds(t: seq<DirectoryEntry>, name: seq<Byte>, i: int)
  {
    && 0 <= i < |t| && t[i].inUse && t[i].Key() == Canon(name, FILE_NAME_MAX_LEN)
    && forall j :: 0 <= j < i && t[j].inUse ==> t[j].Key() != Canon(name, FILE_NAME_MAX_LEN)
  }

  ghost predicate Absent(t: seq<DirectoryEntry>, name: seq<Byte>)
  {
    forall j :: 0 <= j < |t| && t[j].inUse ==> t[j].Key() != Canon(name, FILE_NAME_MAX_LEN)
  }

  ghost predicate IsFirstUnused(t: seq<DirectoryEntry>, i: int)
  {
    0 <= i < |t| && !t[i].inUse && forall j :: 0 <= j < i ==> t[j].inUse
  }

  ghost predicate Full(t: seq<DirectoryEntry>)
  {
    forall j :: 0 <= j < |t| ==> t[j].inUse
  }

  function NewEntry(was: DirectoryEntry, name: seq<Byte>, sector: Int32): DirectoryEntry
  {
    DirectoryEntry(true, sector, Strncpy(was.name, name, FILE_NAME_MAX_LEN))
  }

  /** `file->ReadAt(buffer, size, 0)` for a table as long as its file. */
  method ReadFromStart(file: OpenFile, size: nat) returns (bytes: seq<Byte>)
    requires file.Valid() && file.hdr.View().numBytes == size
    ensures bytes == file.Contents()
  {
    var buf := new Byte[size];
    var k := file.ReadAt(buf, 0, size, 0);
    bytes := buf[..];
  }

  class Directory {
    const tableSize: nat
    const table: array<DirectoryEntry>

    ghost predicate Valid()
    {
      table.Length == tableSize
    }

    /** All entries start unused; their other fields are whatever memory holds. */
    constructor (size: nat)
      ensures Valid() && fresh(table) && tableSize == size
      ensures forall i :: 0 <= i < tableSize ==> !table[i].inUse
    {
      tableSize := size;
      table := new DirectoryEntry[size];
      new;
      for i := 0 to size
        invariant forall j :: 0 <= j < i ==> !table[j].inUse
      {
        table[i] := table[i].(inUse := false);
      }
    }

    method FetchFrom(file: OpenFile)
      requires Valid() && file.Valid() && file.hdr.View().numBytes == ENTRY_SIZE * tableSize
      modifies table
      ensures table[..] == DecodeTable(file.Contents(), tableSize)
    {
      var bytes := ReadFromStart(file, ENTRY_SIZE * tableSize);
      var t := DecodeTable(bytes, tableSize);
      for i := 0 to tableSize
        invariant table[..i] == t[..i]
      {
        table[i] := t[i];
      }
      assert table[..] == table[..tableSize];
    }

    method WriteBack(file: OpenFile)
      requires Valid() && file.Valid() && file.hdr.View().numBytes == ENTRY_SIZE * tableSize
      modifies file.disk
      ensures file.Valid() && DecodeTable(file.Contents(), tableSize) == table[..]
      ensures OnlyDataChanged(old(file.disk.sectors), file.disk.sectors, file.hdr.View())
    {
      var bytes := EncodeTable(table[..]);
      var k := file.WriteAt(bytes, |bytes|, 0);
      assert file.Contents() == bytes;
      TableRoundTrip(table[..]);
    }

    method FindIndex(name: seq<Byte>) returns (index: int)
      requires Valid()
      ensures index == -1 <==> Absent(table[..], name)
      ensures index != -1 ==> Finds(table[..], name, index)
    {
      for i := 0 to tableSize
        invariant forall j :: 0 <= j < i && table[j].inUse ==> table[j].Key() != Canon(name, FILE_NAME_MAX_LEN)
      {
        StrnEqualIsCanon(table[i].name, name, FILE_NAME_MAX_LEN);
        if table[i].inUse && StrnEqual(table[i].name, name, FILE_NAME_MAX_LEN) {
          return i;
        }
      }
      return -1;
    }

    method Find(name: seq<Byte>) returns (sector: int)
      requires Valid()
      ensures Absent(table[..], name) ==> sector == -1
      ensures !Absent(table[..], name) ==> exists i :: Finds(table[..], name, i) && sector == table[i].sector
    {
      var i := FindIndex(name);
      if i != -1 {
        return table[i].sector;
      }
      return -1;
    }

    method Add(name: seq<Byte>, newSector: Int32) returns (ok: bool)
      requires Valid()
      modifies table
      ensures ok <==> Absent(old(table[..]), name) && !Full(old(table[..]))
      ensures !ok ==> table[..] == old(table[..])
      ensures ok ==> exists i ::
        IsFirstUnused(old(table[..]), i) &&
        table[..] == old(table[..])[i := NewEntry(old(table[..])[i], name, newSector)]
    {
      var found := FindIndex(name);
      if found != -1 {
        return false;
      }
      for i := 0 to tableSize
        invariant table[..] == old(table[..])
        invariant forall j :: 0 <= j < i ==> table[j].inUse
      {
        if !table[i].inUse {
          assert IsFirstUnused(old(table[..]), i);
          table[i] := NewEntry(table[i], name, newSector);
          assert table[..] == old(table[..])[i := NewEntry(old(table[..])[i], name, newSector)];
          return true;
        }
      }
      return false;
    }

    method Remove(name: seq<Byte>) returns (ok: bool)
      requires Valid()
      modifies table
      ensures ok <==> !Absent(old(table[..]), name)
      ensures !ok ==> table[..] == old(table[..])
      ensures ok ==> exists i ::
        Finds(old(table[..]), name, i) &&
        table[..] == old(table[..])[i := old(table[..])[i].(inUse := false)]
    {
      var i := FindIndex(name);
      if i == -1 {
        return false;
      }
      table[i] := table[i].(inUse := false);
      assert table[..] == old(table[..])[i := old(table[..])[i].(inUse := false)];
      return true;
    }
  }

  // ---------- the persistent bitmap ----------

  /** The map's words as one file's bytes, and back; word order and byte order are kept. */
  method FetchBitmap(b: Bitmap, file: OpenFile)
    requires b.Valid() && file.Valid() && file.hdr.View().numBytes == 4 * b.numWords
    modifies b.words
    ensures b.words[..] == DecodeWords(file.Contents())
  {
    var bytes := ReadFromStart(file, 4 * b.numWords);
    var ws := DecodeWords(bytes);
    for i := 0 to b.numWords
      invariant b.words[..i] == ws[..i]
    {
      b.words[i] := ws[i];
    }
    assert b.words[..] == b.words[..b.numWords];
  }

  method WriteBackBitmap(b: Bitmap, file: OpenFile)
    requires b.Valid() && file.Valid() && file.hdr.View().numBytes == 4 * b.numWords
    modifies file.disk
    ensures file.Valid() && DecodeWords(file.Contents()) == b.words[..]
    ensures OnlyDataChanged(old(file.disk.sectors), file.disk.sectors, file.hdr.View())
  {
    var bytes := EncodeWords(b.words[..]);
    var k := file.WriteAt(bytes, |bytes|, 0);
    assert file.Contents() == bytes;
    WordsRoundTrip(b.words[..]);
  }
}
