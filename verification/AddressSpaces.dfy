/**
 Address spaces and page translation (userprog/addrspace.cc, machine/translate.cc): the page table of every live space
 maps to frames of its own, so each space is a private flat array of bytes.
 */
module AddressSpaces {
  import opened Words
  import opened Bitmaps

  const PAGE_SIZE := 512
  const NUM_PHYS_PAGES := 128
  const MEMORY_SIZE := 65536

  datatype TranslationEntry = TranslationEntry(
    virtualPage: nat, physicalPage: Int32, valid: bool, readOnly: bool, use: bool, dirty: bool)

  datatype ExceptionType =
    NoException | PageFaultException | ReadOnlyException | BusErrorException | AddressErrorException

  datatype Translation = Fault(exception: ExceptionType) | At(physAddr: nat)

  predicate IsAccessSize(size: nat)
  {
    size == 1 || size == 2 || size == 4
  }

  // ---------- one translation ----------

  /** What Translate finds in a page table for an unsigned address. */
  function Translated(table: seq<TranslationEntry>, addr: Word, size: nat, writing: bool): Translation
  {
    var vpn, offset := addr / PAGE_SIZE, addr % PAGE_SIZE;
    if (size == 4 && addr % 4 != 0) || (size == 2 && addr % 2 != 0) then Fault(AddressErrorException)
    else if vpn >= |table| then Fault(AddressErrorException)
    else if !table[vpn].valid then Fault(PageFaultException)
    else if table[vpn].readOnly && writing then Fault(ReadOnlyException)
    else if ToWord(table[vpn].physicalPage) >= NUM_PHYS_PAGES then Fault(BusErrorException)
    else At(ToWord(table[vpn].physicalPage) * PAGE_SIZE + offset)
  }

  /** The table afterwards: a successful translation sets the entry's use bit, a write its dirty bit too. */
  function Touched(table: seq<TranslationEntry>, addr: Word, size: nat, writing: bool): seq<TranslationEntry>
  {
    var vpn := addr / PAGE_SIZE;
    if Translated(table, addr, size, writing).Fault? then table
    else table[vpn := table[vpn].(use := true, dirty := table[vpn].dirty || writing)]
  }

  /** When each exception is raised, and where an access goes that raises none. Pages have 512 bytes, memory 128 frames. */
  lemma FaultsExact(table: seq<TranslationEntry>, addr: Word, size: nat, writing: bool)
    requires IsAccessSize(size)
    ensures
      var result, page := Translated(table, addr, size, writing), addr / 512;
      && (result == Fault(AddressErrorException) <==> addr % size != 0 || addr >= 512 * |table|)
      && (addr % size == 0 && addr < 512 * |table| ==>
            var e := table[page];
            && (result == Fault(PageFaultException) <==> !e.valid)
            && (result == Fault(ReadOnlyException) <==> e.valid && e.readOnly && writing)
            && (result == Fault(BusErrorException) <==> e.valid && !(e.readOnly && writing) && !(0 <= e.physicalPage < 128))
            && (result.At? <==> e.valid && !(e.readOnly && writing) && 0 <= e.physicalPage < 128)
            && (result.At? ==> result.physAddr == 512 * e.physicalPage + addr % 512))
  {
    assert addr / PAGE_SIZE < |table| <==> addr < 512 * |table|;
  }

  /** A translation changes use and dirty bits only: those of the page translated, dirty only by a write. */
  lemma BitsAfter(table: seq<TranslationEntry>, addr: Word, size: nat, writing: bool)
    ensures
      var after := Touched(table, addr, size, writing);
      var done := Translated(table, addr, size, writing).At?;
      |after| == |table| && forall i :: 0 <= i < |table| ==>
        && after[i] == table[i].(use := after[i].use, dirty := after[i].dirty)
        && (after[i].use <==> table[i].use || (done && i == addr / 512))
        && (after[i].dirty <==> table[i].dirty || (done && i == addr / 512 && writing))
  {
  }

  datatype Access = Access(addr: Word, size: nat, writing: bool)

  function TouchedByAll(table: seq<TranslationEntry>, accesses: seq<Access>): seq<TranslationEntry>
  {
    if accesses == [] then table
    else
      var last := accesses[|accesses| - 1];
      Touched(TouchedByAll(table, accesses[..|accesses| - 1]), last.addr, last.size, last.writing)
  }

  /** The access gets through the table, to page i. */
  predicate Reaches(table: seq<TranslationEntry>, a: Access, i: nat)
  {
    a.addr / 512 == i && Translated(table, a.addr, a.size, a.writing).At?
  }

  predicate IsUsed(table: seq<TranslationEntry>, accesses: seq<Access>, i: nat)
  {
    exists a <- accesses :: Reaches(table, a, i)
  }

  predicate IsWritten(table: seq<TranslationEntry>, accesses: seq<Access>, i: nat)
  {
    exists a <- accesses :: Reaches(table, a, i) && a.writing
  }

  /** Use and dirty bits decide nothing. */
  lemma BitsDecideNothing(t: seq<TranslationEntry>, u: seq<TranslationEntry>, addr: Word, size: nat, writing: bool)
    requires |t| == |u| && forall i :: 0 <= i < |t| ==> u[i] == t[i].(use := u[i].use, dirty := u[i].dirty)
    ensures Translated(t, addr, size, writing) == Translated(u, addr, size, writing)
  {
    if addr / PAGE_SIZE < |t| { assert u[addr / PAGE_SIZE].valid == t[addr / PAGE_SIZE].valid; }
  }

  lemma OneMore(table: seq<TranslationEntry>, accesses: seq<Access>, a: Access, i: nat)
    ensures IsUsed(table, accesses + [a], i) <==> IsUsed(table, accesses, i) || Reaches(table, a, i)
    ensures IsWritten(table, accesses + [a], i) <==> IsWritten(table, accesses, i) || (Reaches(table, a, i) && a.writing)
  {
    hide Reaches;
    assert a in accesses + [a] && forall x :: x in accesses ==> x in accesses + [a];
  }

  /** After any accesses a page is in use if and only if it was before or one of them reached it, and dirty likewise. */
  lemma {:induction false} DirtyExact(table: seq<TranslationEntry>, accesses: seq<Access>)
    ensures
      var after := TouchedByAll(table, accesses);
      |after| == |table| && forall i :: 0 <= i < |table| ==>
        && after[i] == table[i].(use := after[i].use, dirty := after[i].dirty)
        && (after[i].use <==> table[i].use || IsUsed(table, accesses, i))
        && (after[i].dirty <==> table[i].dirty || IsWritten(table, accesses, i))
  {
    if accesses != [] {
      var before, last := accesses[..|accesses| - 1], accesses[|accesses| - 1];
      assert accesses == before + [last];
      var was := TouchedByAll(table, before);
      DirtyExact(table, before);
      BitsDecideNothing(table, was, last.addr, last.size, last.writing);
      BitsAfter(was, last.addr, last.size, last.writing);
      hide Translated, Touched, IsUsed, IsWritten;
      forall i | 0 <= i < |table|
        ensures IsUsed(table, accesses, i) <==> IsUsed(table, before, i) || Reaches(table, last, i)
        ensures IsWritten(table, accesses, i) <==> IsWritten(table, before, i) || (Reaches(table, last, i) && last.writing)
      {
        OneMore(table, before, last, i);
      }
    }
  }

  /** Translate's assertion: whatever the table holds, all bytes of the access lie in main memory, in one frame. */
  lemma TranslatedInMemory(table: seq<TranslationEntry>, addr: Word, size: nat, writing: bool)
    requires IsAccessSize(size) && Translated(table, addr, size, writing).At?
    ensures
      var p := Translated(table, addr, size, writing).physAddr;
      && p + size <= MEMORY_SIZE
      && p / PAGE_SIZE == (p + size - 1) / PAGE_SIZE == ToWord(table[addr / PAGE_SIZE].physicalPage)
  {
    AlignedInPage(addr, size);
    FrameOf(ToWord(table[addr / PAGE_SIZE].physicalPage), addr % PAGE_SIZE);
    FrameOf(ToWord(table[addr / PAGE_SIZE].physicalPage), addr % PAGE_SIZE + size - 1);
  }

  lemma AlignedInPage(addr: nat, size: nat)
    requires IsAccessSize(size) && addr % size == 0
    ensures addr % PAGE_SIZE + size <= PAGE_SIZE
  {
    if size == 4 {
      var m := addr / 4;
      assert addr == m / 128 * PAGE_SIZE + 4 * (m % 128);
      FrameOf(m / 128, 4 * (m % 128));
    } else if size == 2 {
      var m := addr / 2;
      assert addr == m / 256 * PAGE_SIZE + 2 * (m % 256);
      FrameOf(m / 256, 2 * (m % 256));
    }
  }

  lemma FrameOf(frame: nat, offset: nat)
    requires offset < PAGE_SIZE
    ensures (frame * PAGE_SIZE + offset) / PAGE_SIZE == frame && (frame * PAGE_SIZE + offset) % PAGE_SIZE == offset
  {
  }

  // ---------- bytes and values ----------

  /** What ReadMem makes of the bytes: a byte is signed, a half word is not. */
  function ReadValue(b: seq<Byte>): Int32
    requires IsAccessSize(|b|)
  {
    if |b| == 1 then (if b[0] < 128 then b[0] else b[0] - 256)
    else if |b| == 2 then var b0: int, b1: int := b[0], b[1]; b0 + 256 * b1
    else ToInt(BytesWord(b))
  }

  /** The bytes that WriteMem stores. */
  function WrittenBytes(value: Int32, size: nat): (b: seq<Byte>)
    requires IsAccessSize(size)
    ensures |b| == size
  {
    WordBytes(ToWord(value))[..size]
  }

  /** A value read where it was written: a word as it was, a half word unsigned, a byte signed. */
  lemma WrittenThenRead(value: Int32, size: nat)
    requires IsAccessSize(size)
    ensures
      var r := ReadValue(WrittenBytes(value, size));
      && (size == 4 ==> r == value)
      && (size == 2 ==> r == value % 0x1_0000)
      && (size == 1 ==> -128 <= r < 128 && r % 256 == value % 256)
  {
    var w := ToWord(value);
    if size == 4 {
      assert WordBytes(w)[..4] == WordBytes(w);
      WordBytesRoundTrip(w);
    } else if size == 2 {
      LowHalf(value);
    } else {
      LowByte(value);
    }
  }

  lemma LowBits(value: Int32)
    ensures ToWord(value) % 0x100 == value % 0x100 && ToWord(value) % 0x1_0000 == value % 0x1_0000
  {
  }

  lemma LowHalf(value: Int32)
    ensures ReadValue(WrittenBytes(value, 2)) == value % 0x1_0000
  {
    var w := ToWord(value);
    LowBits(value);
    hide ToWord;
    assert WrittenBytes(value, 2) == [w % 256, w / 256 % 256];
    HalfOf(w);
  }

  lemma HalfOf(w: Word)
    ensures w % 256 + 256 * (w / 256 % 256) == w % 0x1_0000
  {
    var r := w % 256 + 256 * (w / 256 % 256);
    assert w == w / 256 / 256 * 0x1_0000 + r && 0 <= r < 0x1_0000;
  }

  lemma LowByte(value: Int32)
    ensures var r := ReadValue(WrittenBytes(value, 1)); -128 <= r < 128 && r % 256 == value % 256
  {
    var w := ToWord(value);
    LowBits(value);
    hide ToWord;
    assert WrittenBytes(value, 1) == [w % 256];
    SignedByte(w % 256);
  }

  lemma SignedByte(b: Byte)
    ensures b % 256 == b && (b - 256) % 256 == b
  {
  }

  // ---------- who owns each frame ----------

  class AddrSpace {
    const numPages: nat
    const pageTable: array<TranslationEntry>
    ghost const owned: seq<Int32>

    /** Page i is valid, writable and in frame owned[i]. */
    ghost predicate Valid()
      reads pageTable
    {
      numPages == pageTable.Length && Maps(pageTable[..], owned)
    }

    /** Takes the lowest free frames, or none at all if there are too few. */
    constructor (frames: Bitmap, size: nat)
      requires frames.Valid() && frames.numBits == NUM_PHYS_PAGES
      modifies frames.words
      ensures Valid() && fresh(pageTable) && Taken(old(frames.Bits()), owned, frames.Bits())
      ensures forall i :: 0 <= i < numPages ==>
        var e := pageTable[i];
        && e.virtualPage == i && e.physicalPage == owned[i] && e.valid && !e.readOnly && !e.use && !e.dirty
      ensures numPages == (var n := DivRoundUp(size, PAGE_SIZE); if n > CountClear(old(frames.Bits())) then 0 else n)
    {
      var n := DivRoundUp(size, PAGE_SIZE);
      var numclear := frames.NumClear();
      if n > numclear {
        n := 0;
      }
      var table, fs := FillTable(frames, n);
      numPages, pageTable, owned := n, table, fs;
    }
  }

  ghost predicate Maps(table: seq<TranslationEntry>, owned: seq<Int32>)
  {
    |table| == |owned| && forall i :: 0 <= i < |owned| ==> MapsTo(table[i], owned[i])
  }

  ghost predicate MapsTo(e: TranslationEntry, frame: Int32)
  {
    e.valid && !e.readOnly && e.physicalPage == frame
  }

  /** The constructor's loop; FindAndSet does not fail in it. */
  method FillTable(frames: Bitmap, n: nat) returns (table: array<TranslationEntry>, ghost fs: seq<Int32>)
    requires frames.Valid() && frames.numBits == NUM_PHYS_PAGES && n <= CountClear(frames.Bits())
    modifies frames.words
    ensures fresh(table) && table.Length == n && Maps(table[..], fs)
    ensures forall i :: 0 <= i < n ==> table[i] == TranslationEntry(i, fs[i], true, false, false, false)
    ensures Taken(old(frames.Bits()), fs, frames.Bits())
  {
    ghost var bits := frames.Bits();
    table := new TranslationEntry[n](_ => TranslationEntry(0, 0, false, false, false, false));
    fs := [];
    hide Taken;
    StartTaking(bits);
    for i := 0 to n
      invariant |fs| == i && Maps(table[..i], fs)
      invariant forall j :: 0 <= j < i ==> table[j] == TranslationEntry(j, fs[j], true, false, false, false)
      invariant Taken(bits, fs, frames.Bits())
    {
      StillClear(bits, fs, frames.Bits());
      ghost var now := frames.Bits();
      var f := frames.FindAndSet();
      TakeNext(bits, fs, now, f);
      table[i] := TranslationEntry(i, f, true, false, false, false);
      fs := fs + [f];
    }
    assert table[..n] == table[..];
  }

  lemma StartTaking(bits: seq<bool>)
    ensures Taken(bits, [], bits)
  {
  }

  lemma StillClear(bits: seq<bool>, fs: seq<Int32>, now: seq<bool>)
    requires Taken(bits, fs, now) && |fs| < CountClear(bits)
    ensures !AllSet(now)
  {
    CountClearZero(now);
  }

  ghost predicate Injective(live: set<AddrSpace>)
  {
    forall s, t, i, j ::
      s in live && t in live && 0 <= i < |s.owned| && 0 <= j < |t.owned| && s.owned[i] == t.owned[j] ==> s == t && i == j
  }

  /** Frame f belongs to one of the live spaces. */
  ghost predicate IsOwned(live: set<AddrSpace>, f: int)
  {
    exists s :: s in live && f in s.owned
  }

  /** No frame is mapped twice, and the marked frames are exactly the mapped ones. */
  ghost predicate Owners(bits: seq<bool>, live: set<AddrSpace>)
  {
    && |bits| == NUM_PHYS_PAGES
    && Injective(live)
    && (forall s, i :: s in live && 0 <= i < |s.owned| ==> 0 <= s.owned[i] < NUM_PHYS_PAGES)
    && (forall f :: 0 <= f < NUM_PHYS_PAGES ==> (bits[f] <==> IsOwned(live, f)))
  }

  lemma NewSpaceKeepsInjective(bits: seq<bool>, live: set<AddrSpace>, s: AddrSpace)
    requires Owners(bits, live) && s !in live && FirstFit(bits, s.owned)
    ensures Injective(live + {s})
  {
    var live' := live + {s};
    forall t, u, i, j | t in live' && u in live' && 0 <= i < |t.owned| && 0 <= j < |u.owned| && t.owned[i] == u.owned[j]
      ensures t == u && i == j
    {
      if t in live {
        assert IsOwned(live, t.owned[i]);
      }
      if u in live {
        assert IsOwned(live, u.owned[j]);
      }
    }
  }

  /** A new space on frames that were free keeps the ownership. */
  lemma NewSpaceKeepsOwners(bits: seq<bool>, live: set<AddrSpace>, s: AddrSpace)
    requires Owners(bits, live) && s !in live && FirstFit(bits, s.owned)
    ensures Owners(WithAll(bits, s.owned, true), live + {s})
  {
    var bits', live' := WithAll(bits, s.owned, true), live + {s};
    NewSpaceKeepsInjective(bits, live, s);
    hide Injective;
    forall f | 0 <= f < NUM_PHYS_PAGES
      ensures bits'[f] <==> IsOwned(live', f)
    {
      if f in s.owned {
        assert s in live';
      } else if bits[f] {
        var t :| t in live && f in t.owned;
        assert t in live';
      } else {
        assert !IsOwned(live, f);
      }
    }
  }

  /** A space that gives its frames back leaves the others theirs. */
  lemma DeadSpaceKeepsOwners(bits: seq<bool>, live: set<AddrSpace>, s: AddrSpace)
    requires Owners(bits, live) && s in live
    ensures Owners(WithAll(bits, s.owned, false), live - {s})
  {
    var bits', live' := WithAll(bits, s.owned, false), live - {s};
    forall f | 0 <= f < NUM_PHYS_PAGES
      ensures bits'[f] <==> IsOwned(live', f)
    {
      if f in s.owned {
        FrameOfOne(live, s, f);
      } else if bits[f] {
        var t :| t in live && f in t.owned;
        assert t in live';
      } else {
        assert !IsOwned(live, f);
      }
    }
  }

  lemma FrameOfOne(live: set<AddrSpace>, s: AddrSpace, f: int)
    requires Injective(live) && s in live && f in s.owned
    ensures !IsOwned(live - {s}, f)
  {
    forall t | t in live - {s}
      ensures f !in t.owned
    {
      var i :| 0 <= i < |s.owned| && s.owned[i] == f;
      assert forall j :: 0 <= j < |t.owned| ==> t.owned[j] != s.owned[i];
    }
  }

  /** The access is aligned and lies inside the space. */
  ghost predicate InSpace(space: AddrSpace, addr: nat, size: nat)
    requires IsAccessSize(size)
  {
    addr % size == 0 && addr + size <= |space.owned| * PAGE_SIZE
  }

  // ---------- a space as a flat array of bytes ----------

  ghost predicate InMemory(owned: seq<Int32>)
  {
    forall i :: 0 <= i < |owned| ==> 0 <= owned[i] < NUM_PHYS_PAGES
  }

  /** Where virtual address v lies. */
  ghost function Place(owned: seq<Int32>, v: nat): (p: nat)
    requires InMemory(owned) && v < |owned| * PAGE_SIZE
    ensures p < MEMORY_SIZE
  {
    owned[v / PAGE_SIZE] * PAGE_SIZE + v % PAGE_SIZE
  }

  /** What the program in a space sees. */
  ghost function View(owned: seq<Int32>, mem: seq<Byte>): (bytes: seq<Byte>)
    requires InMemory(owned) && |mem| == MEMORY_SIZE
    ensures |bytes| == |owned| * PAGE_SIZE
  {
    seq(|owned| * PAGE_SIZE, v requires 0 <= v < |owned| * PAGE_SIZE => mem[Place(owned, v)])
  }

  /** In the table of a space, only a misaligned address or one beyond the space faults. */
  lemma SpaceTranslates(table: seq<TranslationEntry>, owned: seq<Int32>, addr: Word, size: nat, writing: bool)
    requires Maps(table, owned) && InMemory(owned) && IsAccessSize(size)
    ensures Translated(table, addr, size, writing) ==
            if addr % size == 0 && addr + size <= |owned| * PAGE_SIZE then At(Place(owned, addr))
            else Fault(AddressErrorException)
  {
    if addr % size == 0 {
      AlignedInPage(addr, size);
    }
    if addr / PAGE_SIZE < |owned| {
      assert MapsTo(table[addr / PAGE_SIZE], owned[addr / PAGE_SIZE]);
    }
  }

  lemma PlaceNear(owned: seq<Int32>, v: nat, size: nat, k: nat)
    requires InMemory(owned) && IsAccessSize(size) && v % size == 0 && v + size <= |owned| * PAGE_SIZE && k < size
    ensures Place(owned, v + k) == Place(owned, v) + k && (v + k) / PAGE_SIZE == v / PAGE_SIZE
  {
    AlignedInPage(v, size);
    FrameOf(v / PAGE_SIZE, v % PAGE_SIZE + k);
  }

  /** Two places are the same only for the same page and offset of the same space. */
  lemma PlacesApart(live: set<AddrSpace>, s: AddrSpace, t: AddrSpace, v: nat, u: nat)
    requires Injective(live) && s in live && t in live && InMemory(s.owned) && InMemory(t.owned)
    requires v < |s.owned| * PAGE_SIZE && u < |t.owned| * PAGE_SIZE
    ensures Place(s.owned, v) == Place(t.owned, u) <==> s == t && v == u
  {
    if Place(s.owned, v) == Place(t.owned, u) {
      FrameOf(s.owned[v / PAGE_SIZE], v % PAGE_SIZE);
      FrameOf(t.owned[u / PAGE_SIZE], u % PAGE_SIZE);
    }
  }

  /** The bytes read through a space are those of its flat array. */
  lemma ReadsView(owned: seq<Int32>, mem: seq<Byte>, v: nat, size: nat)
    requires InMemory(owned) && |mem| == MEMORY_SIZE && IsAccessSize(size)
    requires v % size == 0 && v + size <= |owned| * PAGE_SIZE && Place(owned, v) + size <= MEMORY_SIZE
    ensures mem[Place(owned, v)..Place(owned, v) + size] == View(owned, mem)[v..v + size]
  {
    var there, seen := mem[Place(owned, v)..Place(owned, v) + size], View(owned, mem)[v..v + size];
    forall k | 0 <= k < size
      ensures there[k] == seen[k]
    {
      PlaceNear(owned, v, size, k);
    }
  }

  /** What ReadMem reads through a space, if it reads. */
  lemma UserReads(owned: seq<Int32>, mem: seq<Byte>, v: nat, size: nat)
    requires InMemory(owned) && |mem| == MEMORY_SIZE && IsAccessSize(size)
    ensures v % size == 0 && v + size <= |owned| * PAGE_SIZE ==>
      var p := Place(owned, v); p + size <= MEMORY_SIZE ==> mem[p..p + size] == View(owned, mem)[v..v + size]
  {
    if v % size == 0 && v + size <= |owned| * PAGE_SIZE && Place(owned, v) + size <= MEMORY_SIZE {
      ReadsView(owned, mem, v, size);
    }
  }

  /** A write through one space changes exactly the written bytes of that space, and nothing of any other. */
  lemma WriteChangesView(live: set<AddrSpace>, s: AddrSpace, t: AddrSpace, mem: seq<Byte>, v: nat, patch: seq<Byte>)
    requires Injective(live) && s in live && t in live && InMemory(s.owned) && InMemory(t.owned)
    requires |mem| == MEMORY_SIZE && IsAccessSize(|patch|) && v % |patch| == 0
    requires v + |patch| <= |s.owned| * PAGE_SIZE && Place(s.owned, v) + |patch| <= MEMORY_SIZE
    ensures View(t.owned, Splice(mem, Place(s.owned, v), patch)) ==
            if s == t then Splice(View(t.owned, mem), v, patch) else View(t.owned, mem)
  {
    hide Injective, InMemory, Place, Splice;
    var mem' := Splice(mem, Place(s.owned, v), patch);
    if s == t {
      forall u | 0 <= u < |t.owned| * PAGE_SIZE
        ensures View(t.owned, mem')[u] == Splice(View(t.owned, mem), v, patch)[u]
      {
        OneByteAfter(live, s, t, mem, v, patch, u);
        SplicedByte(View(t.owned, mem), v, patch, u);
      }
    } else {
      forall u | 0 <= u < |t.owned| * PAGE_SIZE
        ensures View(t.owned, mem')[u] == View(t.owned, mem)[u]
      {
        OneByteAfter(live, s, t, mem, v, patch, u);
      }
    }
  }

  lemma SplicedByte(mem: seq<Byte>, p: nat, patch: seq<Byte>, q: nat)
    requires p + |patch| <= |mem| && q < |mem|
    ensures Splice(mem, p, patch)[q] == if p <= q < p + |patch| then patch[q - p] else mem[q]
  {
  }

  lemma OneByteAfter(
    live: set<AddrSpace>, s: AddrSpace, t: AddrSpace, mem: seq<Byte>, v: nat, patch: seq<Byte>, u: nat)
    requires Injective(live) && s in live && t in live && InMemory(s.owned) && InMemory(t.owned)
    requires |mem| == MEMORY_SIZE && IsAccessSize(|patch|) && v % |patch| == 0
    requires v + |patch| <= |s.owned| * PAGE_SIZE && Place(s.owned, v) + |patch| <= MEMORY_SIZE
    requires u < |t.owned| * PAGE_SIZE
    ensures Splice(mem, Place(s.owned, v), patch)[Place(t.owned, u)] ==
            if s == t && v <= u < v + |patch| then patch[u - v] else mem[Place(t.owned, u)]
  {
    hide Injective, InMemory, Place, Splice;
    var p, q := Place(s.owned, v), Place(t.owned, u);
    SplicedByte(mem, p, patch, q);
    if s == t && v <= u < v + |patch| {
      PlaceNear(s.owned, v, |patch|, u - v);
    } else if p <= q < p + |patch| {
      PlaceNear(s.owned, v, |patch|, q - p);
      PlacesApart(live, s, t, v + (q - p), u);
    }
  }

  /** The destructor's loop. */
  method FreeFrames(frames: Bitmap, space: AddrSpace)
    requires frames.Valid() && frames.numBits == NUM_PHYS_PAGES && space.Valid() && InMemory(space.owned)
    modifies frames.words
    ensures frames.Bits() == WithAll(old(frames.Bits()), space.owned, false)
  {
    ghost var bits := frames.Bits();
    assert bits == WithAll(bits, space.owned[..0], false);
    for i := 0 to space.numPages
      invariant frames.Bits() == WithAll(bits, space.owned[..i], false)
    {
      var f := space.pageTable[i].physicalPage;
      assert MapsTo(space.pageTable[..][i], space.owned[i]);
      frames.Clear(f);
      assert space.owned[..i + 1] == space.owned[..i] + [f];
      assert frames.Bits() == WithAll(bits, space.owned[..i + 1], false);
    }
    assert space.owned[..space.numPages] == space.owned;
  }

  lemma AllInMemory(bits: seq<bool>, live: set<AddrSpace>)
    requires Owners(bits, live)
    ensures Injective(live) && forall s <- live :: InMemory(s.owned)
  {
  }

  lemma UserTranslates(
    bits: seq<bool>, live: set<AddrSpace>, s: AddrSpace, table: seq<TranslationEntry>, addr: Word, size: nat,
    writing: bool)
    requires Owners(bits, live) && s in live && Maps(table, s.owned) && IsAccessSize(size)
    ensures InMemory(s.owned)
    ensures Translated(table, addr, size, writing) ==
            if addr % size == 0 && addr + size <= |s.owned| * PAGE_SIZE then At(Place(s.owned, addr))
            else Fault(AddressErrorException)
  {
    AllInMemory(bits, live);
    SpaceTranslates(table, s.owned, addr, size, writing);
  }

  lemma TouchedKeepsMaps(table: seq<TranslationEntry>, owned: seq<Int32>, addr: Word, size: nat, writing: bool)
    requires Maps(table, owned)
    ensures Maps(Touched(table, addr, size, writing), owned)
  {
    var after := Touched(table, addr, size, writing);
    forall i | 0 <= i < |owned|
      ensures MapsTo(after[i], owned[i])
    {
      assert MapsTo(table[i], owned[i]);
    }
  }

  lemma ViewsAfterWrite(bits: seq<bool>, live: set<AddrSpace>, s: AddrSpace, mem: seq<Byte>, v: nat, patch: seq<Byte>)
    requires Owners(bits, live) && s in live && |mem| == MEMORY_SIZE && IsAccessSize(|patch|) && v % |patch| == 0
    requires v + |patch| <= |s.owned| * PAGE_SIZE && InMemory(s.owned) && Place(s.owned, v) + |patch| <= MEMORY_SIZE
    ensures View(s.owned, Splice(mem, Place(s.owned, v), patch)) == Splice(View(s.owned, mem), v, patch)
    ensures forall t <- live :: InMemory(t.owned)
    ensures forall t <- live :: t != s ==> View(t.owned, Splice(mem, Place(s.owned, v), patch)) == View(t.owned, mem)
  {
    hide Place, View, Splice, InMemory, Injective;
    AllInMemory(bits, live);
    WriteChangesView(live, s, s, mem, v, patch);
    forall t <- live
      ensures t != s ==> View(t.owned, Splice(mem, Place(s.owned, v), patch)) == View(t.owned, mem)
    {
      WriteChangesView(live, s, t, mem, v, patch);
    }
  }

  // ---------- the machine and the kernel's frame map ----------

  class Kernel {
    const frames: Bitmap
    const mainMemory: array<Byte>
    var pageTable: array<TranslationEntry>
    var pageTableSize: nat
    ghost var live: set<AddrSpace>

    ghost predicate Hardware()
      reads this
    {
      frames.Valid() && frames.numBits == NUM_PHYS_PAGES && mainMemory.Length == MEMORY_SIZE
      && pageTableSize == pageTable.Length
    }

    ghost predicate Valid()
      reads this, frames.words, set s <- live :: s.pageTable
    {
      Hardware() && Owners(frames.Bits(), live) && forall s <- live :: s.Valid()
    }

    constructor ()
      ensures Valid() && live == {} && fresh(frames.words) && fresh(mainMemory) && fresh(pageTable)
    {
      frames := new Bitmap(NUM_PHYS_PAGES);
      mainMemory := new Byte[MEMORY_SIZE](_ => 0);
      pageTable := new TranslationEntry[0];
      pageTableSize := 0;
      live := {};
    }

    /** Starts a space; it takes as many frames as it needs, or none if there are too few. */
    method NewSpace(size: nat) returns (space: AddrSpace)
      requires Valid()
      modifies this`live, frames.words
      ensures Valid() && fresh(space) && live == old(live) + {space}
      ensures frames.Bits() == WithAll(old(frames.Bits()), space.owned, true)
      ensures |space.owned| ==
              (var n := DivRoundUp(size, PAGE_SIZE); if n > CountClear(old(frames.Bits())) then 0 else n)
    {
      space := new AddrSpace(frames, size);
      NewSpaceKeepsOwners(old(frames.Bits()), live, space);
      live := live + {space};
    }

    /** The destructor: exactly this space's frames become free. */
    method DestroySpace(space: AddrSpace)
      requires Valid() && space in live
      modifies this`live, frames.words
      ensures Valid() && live == old(live) - {space}
      ensures frames.Bits() == WithAll(old(frames.Bits()), space.owned, false)
    {
      DeadSpaceKeepsOwners(frames.Bits(), live, space);
      FreeFrames(frames, space);
      live := live - {space};
    }

    /** AddrSpace::RestoreState, on a switch to a thread of that space. */
    method RestoreState(space: AddrSpace)
      requires Hardware() && space.Valid()
      modifies this`pageTable, this`pageTableSize
      ensures Hardware() && pageTable == space.pageTable
    {
      pageTable := space.pageTable;
      pageTableSize := space.numPages;
    }

    /** Translates, and sets the use and dirty bits if there is no fault. */
    method Translate(virtAddr: Int32, size: nat, writing: bool) returns (exception: ExceptionType, physAddr: nat)
      requires Hardware() && IsAccessSize(size)
      modifies pageTable
      ensures pageTable[..] == Touched(old(pageTable[..]), ToWord(virtAddr), size, writing)
      ensures old(Valid()) ==> Valid()
      ensures Translated(old(pageTable[..]), ToWord(virtAddr), size, writing) ==
              if exception == NoException then At(physAddr) else Fault(exception)
      ensures exception == NoException ==> physAddr + size <= MEMORY_SIZE
    {
      physAddr := 0;
      if (size == 4 && ToWord(virtAddr) % 4 != 0) || (size == 2 && ToWord(virtAddr) % 2 != 0) {
        return AddressErrorException, physAddr;
      }
      var vpn, offset := ToWord(virtAddr) / PAGE_SIZE, ToWord(virtAddr) % PAGE_SIZE;
      if vpn >= pageTableSize {
        return AddressErrorException, physAddr;
      } else if !pageTable[vpn].valid {
        return PageFaultException, physAddr;
      }
      if pageTable[vpn].readOnly && writing {
        return ReadOnlyException, physAddr;
      }
      var pageFrame := ToWord(pageTable[vpn].physicalPage);
      if pageFrame >= NUM_PHYS_PAGES {
        return BusErrorException, physAddr;
      }
      TranslatedInMemory(pageTable[..], ToWord(virtAddr), size, writing);
      pageTable[vpn] := pageTable[vpn].(use := true);
      if writing {
        pageTable[vpn] := pageTable[vpn].(dirty := true);
      }
      exception, physAddr := NoException, pageFrame * PAGE_SIZE + offset;
      assert old(Valid()) ==> Valid() by {
        forall t | old(Valid()) && t in live
          ensures t.Valid()
        {
          assert old(t.Valid());
          if t.pageTable == pageTable { TouchedKeepsMaps(old(pageTable[..]), t.owned, ToWord(virtAddr), size, writing); }
          else { assert t.pageTable[..] == old(t.pageTable[..]); }
        }
      }
    }

    method ReadMem(addr: Int32, size: nat) returns (exception: ExceptionType, value: Int32)
      requires Hardware() && IsAccessSize(size)
      modifies pageTable
      ensures pageTable[..] == Touched(old(pageTable[..]), ToWord(addr), size, false)
      ensures old(Valid()) ==> Valid()
      ensures Translated(old(pageTable[..]), ToWord(addr), size, false).Fault? ==>
        exception == Translated(old(pageTable[..]), ToWord(addr), size, false).exception
      ensures Translated(old(pageTable[..]), ToWord(addr), size, false).At? ==>
        var p := Translated(old(pageTable[..]), ToWord(addr), size, false).physAddr;
        exception == NoException && p + size <= MEMORY_SIZE && value == ReadValue(mainMemory[p..p + size])
    {
      var physicalAddress;
      exception, physicalAddress := Translate(addr, size, false);
      if exception != NoException {
        return exception, 0;
      }
      value := ReadValue(mainMemory[physicalAddress..physicalAddress + size]);
    }

    method WriteMem(addr: Int32, size: nat, value: Int32) returns (exception: ExceptionType)
      requires Hardware() && IsAccessSize(size)
      modifies pageTable, mainMemory
      ensures pageTable[..] == Touched(old(pageTable[..]), ToWord(addr), size, true)
      ensures old(Valid()) ==> Valid()
      ensures Translated(old(pageTable[..]), ToWord(addr), size, true).Fault? ==>
        && exception == Translated(old(pageTable[..]), ToWord(addr), size, true).exception
        && mainMemory[..] == old(mainMemory[..])
      ensures Translated(old(pageTable[..]), ToWord(addr), size, true).At? ==>
        var p := Translated(old(pageTable[..]), ToWord(addr), size, true).physAddr;
        && exception == NoException && p + size <= MEMORY_SIZE
        && mainMemory[..] == Splice(old(mainMemory[..]), p, WrittenBytes(value, size))
    {
      var physicalAddress;
      exception, physicalAddress := Translate(addr, size, true);
      if exception == NoException {
        StoreBytes(physicalAddress, WrittenBytes(value, size));
      }
    }

    method StoreBytes(p: nat, bytes: seq<Byte>)
      requires p + |bytes| <= mainMemory.Length
      modifies mainMemory
      ensures mainMemory[..] == Splice(old(mainMemory[..]), p, bytes)
    {
      ghost var was := mainMemory[..];
      for k := 0 to |bytes|
        invariant forall j :: 0 <= j < mainMemory.Length ==>
          mainMemory[j] == if p <= j < p + k then bytes[j - p] else was[j]
      {
        mainMemory[p + k] := bytes[k];
      }
      assert mainMemory[..] == Splice(was, p, bytes);
    }

    /** The bytes that the program in a space sees. */
    ghost function ViewOf(space: AddrSpace): seq<Byte>
      reads this, mainMemory
      requires Hardware() && InMemory(space.owned)
    {
      View(space.owned, mainMemory[..])
    }

    /** A load by the program in a space: from its own flat array, or an address error. */
    method UserRead(space: AddrSpace, addr: Int32, size: nat) returns (exception: ExceptionType, value: Int32)
      requires Valid() && space in live && IsAccessSize(size)
      modifies this`pageTable, this`pageTableSize, space.pageTable
      ensures Valid()
      ensures exception == NoException || exception == AddressErrorException
      ensures exception == NoException <==> InSpace(space, ToWord(addr), size)
      ensures exception == NoException ==> value == ReadValue(ViewOf(space)[ToWord(addr)..ToWord(addr) + size])
    {
      hide Translated, Touched, Maps, Owners, Place;
      AllInMemory(frames.Bits(), live);
      RestoreState(space);
      ghost var table := pageTable[..];
      UserTranslates(frames.Bits(), live, space, table, ToWord(addr), size, false);
      exception, value := ReadMem(addr, size);
      UserReads(space.owned, mainMemory[..], ToWord(addr), size);
    }

    /** A store by the program in a space: it changes exactly the named bytes of its array and no other space's. */
    method UserWrite(space: AddrSpace, addr: Int32, size: nat, value: Int32) returns (exception: ExceptionType)
      requires Valid() && space in live && IsAccessSize(size)
      modifies this`pageTable, this`pageTableSize, space.pageTable, mainMemory
      ensures Valid() && live == old(live)
      ensures exception == NoException || exception == AddressErrorException
      ensures exception == NoException <==> InSpace(space, ToWord(addr), size)
      ensures exception == NoException ==>
        ViewOf(space) == Splice(old(ViewOf(space)), ToWord(addr), WrittenBytes(value, size))
      ensures exception != NoException ==> mainMemory[..] == old(mainMemory[..])
      ensures forall t <- live :: t != space ==> ViewOf(t) == old(ViewOf(t))
    {
      hide Translated, Touched, Maps, Owners, Place, View, InMemory;
      AllInMemory(frames.Bits(), live);
      RestoreState(space);
      ghost var table, mem := pageTable[..], mainMemory[..];
      UserTranslates(frames.Bits(), live, space, table, ToWord(addr), size, true);
      exception := WriteMem(addr, size, value);
      if exception == NoException {
        ViewsAfterWrite(frames.Bits(), live, space, mem, ToWord(addr), WrittenBytes(value, size));
      }
    }
  }
}
