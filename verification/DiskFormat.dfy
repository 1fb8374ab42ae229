/**
 The disk and the wire byte by byte: at which offset each field of a file header, of the directory, of the free map and of
 a packet stands (filesys/filehdr.h, directory.h, lib/bitmap.h, machine/network.h, network/post.h).
 */
module DiskFormat {
  import opened Words
  import opened Bitmaps
  import opened Files
  import opened Directories
  import opened DiskLayout
  import opened SectorOwnership
  import opened PostOffice

  /** The unsigned number that four bytes stand for, the low byte first. */
  function WordAt(b: seq<Byte>, p: nat): int
    requires p + 4 <= |b|
  {
    var b0: int, b1: int, b2: int, b3: int := b[p], b[p + 1], b[p + 2], b[p + 3];
    b0 + 0x100 * b1 + 0x1_0000 * b2 + 0x100_0000 * b3
  }

  /** A 32-bit int in two's complement. */
  function IntAt(b: seq<Byte>, p: nat): int
    requires p + 4 <= |b|
  {
    var w := WordAt(b, p);
    if w < 0x8000_0000 then w else w - 0x1_0000_0000
  }

  lemma DecodedWord(b: seq<Byte>, i: nat)
    requires |b| % 4 == 0 && 4 * i + 4 <= |b|
    ensures DecodeWords(b)[i] == WordAt(b, 4 * i) && ToInt(DecodeWords(b)[i]) == IntAt(b, 4 * i)
  {
    var four := b[4 * i..4 * i + 4];
    assert four[0] == b[4 * i] && four[1] == b[4 * i + 1] && four[2] == b[4 * i + 2] && four[3] == b[4 * i + 3];
  }

  // ---------- a file header ----------

  /** A header sector: the length in bytes, the number of data sectors, and room for thirty sector numbers. */
  lemma HeaderBytes(s: Sector)
    ensures
      var h := DecodeHeader(s);
      && h.numBytes == IntAt(s, 0) && h.numSectors == IntAt(s, 4) && |h.dataSectors| == 30
      && forall i :: 0 <= i < 30 ==> h.dataSectors[i] == IntAt(s, 8 + 4 * i)
  {
    hide IntAt, DecodeWords;
    DecodedWord(s, 0);
    DecodedWord(s, 1);
    forall i | 0 <= i < 30
      ensures ToInt(DecodeWords(s)[i + 2]) == IntAt(s, 8 + 4 * i)
    {
      DecodedWord(s, i + 2);
    }
  }

  // ---------- the directory ----------

  lemma SubSlice(s: seq<Byte>, from: nat, n: nat, lo: nat, hi: nat)
    requires lo <= hi <= n && from + n <= |s|
    ensures s[from..from + n][lo..hi] == s[from + lo..from + hi]
  {
    var piece := s[from..from + n];
    forall k | 0 <= k < hi - lo
      ensures piece[lo..hi][k] == s[from + lo..from + hi][k]
    {
      assert piece[lo + k] == s[from + (lo + k)];
    }
  }

  lemma OneEntry(b: seq<Byte>, i: nat)
    requires 20 * i + 20 <= |b|
    ensures
      var e := DecodeEntry(b[20 * i..20 * i + 20]);
      && (e.inUse <==> b[20 * i] != 0) && e.sector == IntAt(b, 20 * i + 4) && e.name == b[20 * i + 8..20 * i + 18]
  {
    var one := b[20 * i..20 * i + 20];
    SubSlice(b, 20 * i, 20, 4, 8);
    SubSlice(b, 20 * i, 20, 8, 18);
    var word := one[4..8];
    assert word[0] == b[20 * i + 4] && word[1] == b[20 * i + 5] && word[2] == b[20 * i + 6] && word[3] == b[20 * i + 7];
  }

  /** Entry i takes the twenty bytes from 20 i on: the flag, the header's sector from byte 4, ten characters from byte 8. */
  lemma {:induction false} EntryBytes(b: seq<Byte>, n: nat, i: nat)
    requires |b| == 20 * n && i < n
    ensures
      var e := DecodeTable(b, n)[i];
      && (e.inUse <==> b[20 * i] != 0) && e.sector == IntAt(b, 20 * i + 4) && e.name == b[20 * i + 8..20 * i + 18]
  {
    hide DecodeEntry;
    var front := b[..20 * (n - 1)];
    if i == n - 1 {
      assert b[20 * (n - 1)..] == b[20 * i..20 * i + 20];
      OneEntry(b, i);
    } else {
      EntryBytes(front, n - 1, i);
      assert front[20 * i + 8..20 * i + 18] == b[20 * i + 8..20 * i + 18];
    }
  }

  // ---------- the free map ----------

  /** w with its last m bits dropped. */
  function Dropped(w: nat, m: nat): nat
  {
    if m == 0 then w else Dropped(w / 2, m - 1)
  }

  lemma {:induction false} BitShift(w: nat, m: nat, k: nat)
    ensures Bit(w, m + k) <==> Bit(Dropped(w, m), k)
  {
    if m > 0 { BitShift(w / 2, m - 1, k); }
  }

  lemma DroppedByte(w: nat, m: nat)
    ensures Dropped(w, 8 + m) == Dropped(w / 0x100, m)
  {
    assert Dropped(w, 8 + m) == Dropped(w / 2 / 2, 6 + m);
    assert Dropped(w / 2 / 2, 6 + m) == Dropped(w / 2 / 2 / 2 / 2, 4 + m);
    assert Dropped(w / 16, 4 + m) == Dropped(w / 16 / 2 / 2, 2 + m) == Dropped(w / 16 / 2 / 2 / 2 / 2, m);
    assert w / 2 / 2 / 2 / 2 == w / 16 && w / 16 / 2 / 2 / 2 / 2 == w / 0x100;
  }

  lemma Multiple(x: int, d: nat)
    ensures x > 0 ==> x * d >= d
    ensures x < 0 ==> x * d <= 0 - d
  {
  }

  lemma QuotientIs(w: nat, d: nat, q: nat, r: nat)
    requires d > 0 && w == q * d + r && r < d
    ensures w / d == q
  {
    var q', r' := w / d, w % d;
    assert w == q' * d + r';
    assert (q - q') * d == r' - r;
    Multiple(q - q', d);
  }

  lemma HalfAgain(w: nat, p: nat)
    requires p > 0
    ensures w / 2 / p == w / (2 * p)
  {
    var q, r := w / 2 / p, w / 2 % p;
    assert w / 2 == q * p + r;
    assert w == q * (2 * p) + (2 * r + w % 2);
    QuotientIs(w, 2 * p, q, 2 * r + w % 2);
  }

  /** The last n bits of a number do not depend on the others. */
  lemma {:induction false} LowBit(hi: nat, lo: nat, n: nat, k: nat)
    requires lo < Pow2(n) && k < n
    ensures Bit(hi * Pow2(n) + lo, k) <==> Bit(lo, k)
    decreases k
  {
    var w, p := hi * Pow2(n) + lo, Pow2(n - 1);
    assert w == 2 * (hi * p) + lo;
    if k > 0 {
      LowBit(hi, lo / 2, n - 1, k - 1);
      assert w / 2 == hi * p + lo / 2;
    }
  }

  lemma EightBits()
    ensures Pow2(8) == 0x100
  {
    assert Pow2(4) == 16;
  }

  /** Byte j of a little-endian word holds its bits from 8 j on. */
  lemma {:induction false} ByteBit(w: nat, j: nat, k: nat)
    requires k < 8
    ensures Bit(w, 8 * j + k) <==> Bit(Bytes(w, j) % 0x100, k)
  {
    hide Bit, Pow2;
    EightBits();
    if j == 0 {
      LowBit(w / 0x100, w % 0x100, 8, k);
    } else {
      ByteBit(w / 0x100, j - 1, k);
      BitShift(w, 8, 8 * (j - 1) + k);
      DroppedByte(w, 0);
    }
  }

  /** w with its last j bytes dropped. */
  function Bytes(w: nat, j: nat): nat
  {
    if j == 0 then w else Bytes(w / 0x100, j - 1)
  }

  lemma WordBytesAt(b: seq<Byte>, p: nat)
    requires p + 4 <= |b|
    ensures WordAt(b, p) >= 0
    ensures Bytes(WordAt(b, p), 0) % 0x100 == b[p] && Bytes(WordAt(b, p), 1) % 0x100 == b[p + 1]
    ensures Bytes(WordAt(b, p), 2) % 0x100 == b[p + 2] && Bytes(WordAt(b, p), 3) % 0x100 == b[p + 3]
  {
    var w := WordAt(b, p);
    var b0: int, b1: int, b2: int, b3: int := b[p], b[p + 1], b[p + 2], b[p + 3];
    assert w / 0x100 == b1 + 0x100 * b2 + 0x1_0000 * b3;
    assert w / 0x100 / 0x100 == b2 + 0x100 * b3;
    assert w / 0x100 / 0x100 / 0x100 == b3;
    assert Bytes(w, 2) == Bytes(w / 0x100, 1) == w / 0x100 / 0x100;
    assert Bytes(w, 3) == Bytes(w / 0x100, 2) == Bytes(w / 0x100 / 0x100, 1) == w / 0x100 / 0x100 / 0x100;
  }

  /** Sector number s is bit s mod 8 of byte s / 8 of the free map's file. */
  lemma MapBits(b: seq<Byte>, n: nat, s: nat)
    requires |b| % 4 == 0 && s < n <= 8 * |b|
    ensures BitsOf(DecodeWords(b), n)[s] <==> Bit(b[s / 8], s % 8)
  {
    hide Bit, WordAt, Bytes;
    var i, j := s / 32, s % 32 / 8;
    DecodedWord(b, i);
    WordBytesAt(b, 4 * i);
    ByteBit(WordAt(b, 4 * i), j, s % 8);
    assert s % 32 == 8 * j + s % 8 && s / 8 == 4 * i + j;
  }

  /** What a bit of a byte is. */
  lemma {:induction false} BitIs(w: nat, k: nat)
    ensures Bit(w, k) <==> w / Pow2(k) % 2 == 1
    decreases k
  {
    if k > 0 {
      BitIs(w / 2, k - 1);
      HalfAgain(w, Pow2(k - 1));
    }
  }

  /**
   Where the two system files of any bootable disk are and what their bytes mean: sector 0 holds the header of the free map,
   whose bit s tells whether sector s is taken; sector 1 holds the header of the directory, ten entries of twenty bytes.
   */
  lemma SystemBytes(d: Disk)
    requires Bootable(d)
    ensures DecodeHeader(d[0]).WellFormed() && DecodeHeader(d[1]).WellFormed()
    ensures
      var map_ := Flat(d, DecodeHeader(d[0]));
      |map_| == 128 && |FreeBits(d)| == 1024 &&
      forall s :: 0 <= s < 1024 ==> (FreeBits(d)[s] <==> map_[s / 8] / Pow2(s % 8) % 2 == 1)
    ensures
      var dir := Flat(d, DecodeHeader(d[1]));
      |dir| == 200 && |Table(d)| == 10 && forall i :: 0 <= i < 10 ==>
        var e := Table(d)[i];
        && (e.inUse <==> dir[20 * i] != 0) && e.sector == IntAt(dir, 20 * i + 4) && e.name == dir[20 * i + 8..20 * i + 18]
  {
    hide DecodeHeader, Flat, IntAt, Bit, Pow2, DecodeTable;
    var map_, dir := Flat(d, DecodeHeader(d[0])), Flat(d, DecodeHeader(d[1]));
    forall s | 0 <= s < 1024
      ensures FreeBits(d)[s] <==> map_[s / 8] / Pow2(s % 8) % 2 == 1
    {
      MapBits(map_, 1024, s);
      BitIs(map_[s / 8], s % 8);
    }
    forall i | 0 <= i < 10
      ensures
        var e := Table(d)[i];
        && (e.inUse <==> dir[20 * i] != 0) && e.sector == IntAt(dir, 20 * i + 4) && e.name == dir[20 * i + 8..20 * i + 18]
    {
      EntryBytes(dir, 10, i);
    }
  }

  // ---------- a packet ----------

  /** The network's header, the post office's header, the data: three words, three words, and the mail's bytes. */
  lemma PacketBytes(m: Mail, padding: seq<Byte>, numBoxes: nat)
    requires WellAddressed(m, numBoxes) && |padding| == MAX_PACKET_SIZE - |Payload(m)|
    ensures
      var p := Wire(m, padding);
      && |p| == 64
      && IntAt(p, 0) == m.pktHdr.to && IntAt(p, 4) == m.pktHdr.from && WordAt(p, 8) == m.pktHdr.length
      && IntAt(p, 12) == m.mailHdr.to && IntAt(p, 16) == m.mailHdr.from && WordAt(p, 20) == m.mailHdr.length
      && p[24..24 + |m.data|] == m.data && p[24 + |m.data|..] == padding
  {
    hide WordAt, IntAt;
    var p := Wire(m, padding);
    var first, second := EncodeTriple(m.pktHdr.to, m.pktHdr.from, m.pktHdr.length),
      EncodeTriple(m.mailHdr.to, m.mailHdr.from, m.mailHdr.length);
    assert p == first + second + m.data + padding;
    TripleBytes(m.pktHdr.to, m.pktHdr.from, m.pktHdr.length);
    TripleBytes(m.mailHdr.to, m.mailHdr.from, m.mailHdr.length);
    hide EncodeTriple, Wire, Payload;
    forall i | 0 <= i < 12 && i % 4 == 0
      ensures WordAt(p, i) == WordAt(first, i) && IntAt(p, i) == IntAt(first, i)
      ensures WordAt(p, 12 + i) == WordAt(second, i) && IntAt(p, 12 + i) == IntAt(second, i)
    {
      assert p[i..i + 4] == first[i..i + 4] && p[12 + i..12 + i + 4] == second[i..i + 4];
      SameBytes(p, i, first, i);
      SameBytes(p, 12 + i, second, i);
    }
    assert WordAt(p, 8) == WordAt(first, 8) && IntAt(p, 0) == IntAt(first, 0) && IntAt(p, 4) == IntAt(first, 4);
    assert WordAt(p, 12 + 8) == WordAt(second, 8);
    assert IntAt(p, 12 + 0) == IntAt(second, 0) && IntAt(p, 12 + 4) == IntAt(second, 4);
  }

  lemma SameBytes(a: seq<Byte>, p: nat, b: seq<Byte>, q: nat)
    requires p + 4 <= |a| && q + 4 <= |b| && a[p..p + 4] == b[q..q + 4]
    ensures WordAt(a, p) == WordAt(b, q) && IntAt(a, p) == IntAt(b, q)
  {
    var four := a[p..p + 4];
    assert a[p] == four[0] == b[q] && a[p + 1] == four[1] == b[q + 1];
    assert a[p + 2] == four[2] == b[q + 2] && a[p + 3] == four[3] == b[q + 3];
  }

  lemma TripleBytes(x: Int32, y: Int32, n: Word)
    ensures
      var b := EncodeTriple(x, y, n);
      IntAt(b, 0) == x && IntAt(b, 4) == y && WordAt(b, 8) == n
  {
    var b := EncodeTriple(x, y, n);
    WordsRoundTrip([ToWord(x), ToWord(y), n]);
    DecodedWord(b, 0);
    DecodedWord(b, 1);
    DecodedWord(b, 2);
  }
}
