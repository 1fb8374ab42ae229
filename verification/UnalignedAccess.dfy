/**
 The unaligned load and store pairs of the simulated CPU (LWL, LWR, SWL and SWR in machine/mipssim.cc, built with
 SIM_FIX) and the delayed load. The machine is little-endian and always moves aligned words.
 */
module UnalignedAccess {
  import opened Words

  const LOAD_REG := 37
  const LOAD_VALUE_REG := 38
  const NUM_TOTAL_REGS := 40

  // ---------- merging a word with a register, by the low address bits ----------

  function LoadLeft(old_: Word, value: Word, byte: nat): Word
    requires byte < 4
  {
    match 3 - byte
    case 0 => value
    case 1 => old_ % 0x100 + value % 0x100_0000 * 0x100
    case 2 => old_ % 0x1_0000 + value % 0x1_0000 * 0x1_0000
    case _ => old_ % 0x100_0000 + value % 0x100 * 0x100_0000
  }

  function LoadRight(old_: Word, value: Word, byte: nat): Word
    requires byte < 4
  {
    match 3 - byte
    case 0 => old_ - old_ % 0x100 + value / 0x100_0000
    case 1 => old_ - old_ % 0x1_0000 + value / 0x1_0000
    case 2 => old_ - old_ % 0x100_0000 + value / 0x100
    case _ => value
  }

  function StoreLeft(value: Word, reg: Word, byte: nat): Word
    requires byte < 4
  {
    match 3 - byte
    case 0 => reg
    case 1 => value - value % 0x100_0000 + reg / 0x100
    case 2 => value - value % 0x1_0000 + reg / 0x1_0000
    case _ => value - value % 0x100 + reg / 0x100_0000
  }

  function StoreRight(value: Word, reg: Word, byte: nat): Word
    requires byte < 4
  {
    match 3 - byte
    case 0 => value % 0x100_0000 + reg % 0x100 * 0x100_0000
    case 1 => value % 0x1_0000 + reg % 0x1_0000 * 0x1_0000
    case 2 => value % 0x100 + reg % 0x100_0000 * 0x100
    case _ => reg
  }

  /** The bytes of a word give every aligned piece of it. */
  lemma WordParts(w: Word)
    ensures
      var b := WordBytes(w);
      var b0: int, b1: int, b2: int, b3: int := b[0], b[1], b[2], b[3];
      && w == b0 + 0x100 * b1 + 0x1_0000 * b2 + 0x100_0000 * b3
      && w % 0x100 == b0 && w % 0x1_0000 == b0 + 0x100 * b1 && w % 0x100_0000 == b0 + 0x100 * b1 + 0x1_0000 * b2
      && w / 0x100 == b1 + 0x100 * b2 + 0x1_0000 * b3 && w / 0x1_0000 == b2 + 0x100 * b3 && w / 0x100_0000 == b3
  {
    assert w / 0x100 / 0x100 == w / 0x1_0000 && w / 0x1_0000 / 0x100 == w / 0x100_0000;
  }

  lemma PartsWord(w: Word, b: seq<Byte>)
    requires |b| == 4 && w == BytesWord(b)
    ensures WordBytes(w) == b
  {
    var b0: int, b1: int, b2: int, b3: int := b[0], b[1], b[2], b[3];
    var r1, r2 := b1 + 0x100 * b2 + 0x1_0000 * b3, b2 + 0x100 * b3;
    SplitByte(b0, r1);
    SplitByte(b1, r2);
    SplitByte(b2, b3);
    assert w / 0x1_0000 == w / 0x100 / 0x100 && w / 0x100_0000 == w / 0x1_0000 / 0x100;
  }

  lemma SplitByte(low: Byte, rest: nat)
    ensures (low + 0x100 * rest) % 0x100 == low && (low + 0x100 * rest) / 0x100 == rest
  {
  }

  /** LWL: the top byte + 1 bytes come from the bottom of the word, the rest stay. */
  lemma LoadLeftBytes(old_: Word, value: Word, byte: nat)
    requires byte < 4
    ensures WordBytes(LoadLeft(old_, value, byte)) == WordBytes(old_)[..3 - byte] + WordBytes(value)[..byte + 1]
  {
    WordParts(old_);
    WordParts(value);
    hide WordBytes;
    PartsWord(LoadLeft(old_, value, byte), WordBytes(old_)[..3 - byte] + WordBytes(value)[..byte + 1]);
  }

  /** LWR: the bottom 4 - byte bytes come from the top of the word, the rest stay. */
  lemma LoadRightBytes(old_: Word, value: Word, byte: nat)
    requires byte < 4
    ensures WordBytes(LoadRight(old_, value, byte)) == WordBytes(value)[byte..] + WordBytes(old_)[4 - byte..]
  {
    WordParts(old_);
    WordParts(value);
    hide WordBytes;
    PartsWord(LoadRight(old_, value, byte), WordBytes(value)[byte..] + WordBytes(old_)[4 - byte..]);
  }

  /** SWL: the bottom byte + 1 bytes of the word become the top of the register. */
  lemma StoreLeftBytes(value: Word, reg: Word, byte: nat)
    requires byte < 4
    ensures WordBytes(StoreLeft(value, reg, byte)) == WordBytes(reg)[3 - byte..] + WordBytes(value)[byte + 1..]
  {
    WordParts(value);
    WordParts(reg);
    hide WordBytes;
    PartsWord(StoreLeft(value, reg, byte), WordBytes(reg)[3 - byte..] + WordBytes(value)[byte + 1..]);
  }

  /** SWR: the top 4 - byte bytes of the word become the bottom of the register. */
  lemma StoreRightBytes(value: Word, reg: Word, byte: nat)
    requires byte < 4
    ensures WordBytes(StoreRight(value, reg, byte)) == WordBytes(value)[..byte] + WordBytes(reg)[..4 - byte]
  {
    WordParts(value);
    WordParts(reg);
    hide WordBytes;
    PartsWord(StoreRight(value, reg, byte), WordBytes(value)[..byte] + WordBytes(reg)[..4 - byte]);
  }

  // ---------- registers and memory ----------

  type Registers = r: seq<Int32> | |r| == 40 witness seq(40, _ => 0)

  /** A memory of whole words. */
  type Memory = m: seq<Byte> | |m| % 4 == 0 witness []

  function Aligned(a: nat): (w: nat)
    ensures w <= a < w + 4 && w % 4 == 0
  {
    a - a % 4
  }

  function WordAt(mem: Memory, a: nat): Word
    requires a < |mem|
  {
    BytesWord(mem[Aligned(a)..Aligned(a) + 4])
  }

  /** DelayedLoad: the pending load lands, the next one becomes pending, and R0 stays zero. */
  function Landed(regs: Registers, nextReg: Int32, nextValue: Int32): Registers
    requires 0 <= regs[LOAD_REG] < 32
  {
    regs[regs[LOAD_REG] := regs[LOAD_VALUE_REG]][LOAD_REG := nextReg][LOAD_VALUE_REG := nextValue][0 := 0]
  }

  /** The value that a merging load starts from: the pending one if it is for the same register. */
  function Current(regs: Registers, rt: nat): Word
    requires rt < 32
  {
    ToWord(if regs[LOAD_REG] == rt then regs[LOAD_VALUE_REG] else regs[rt])
  }

  /** Registers between instructions: R0 is zero and the pending load is for a general register. */
  ghost predicate Settled(regs: Registers)
  {
    regs[0] == 0 && 0 <= regs[LOAD_REG] < 32
  }

  function AfterLWL(regs: Registers, mem: Memory, rt: nat, a: nat): Registers
    requires rt < 32 && a < |mem| && 0 <= regs[LOAD_REG] < 32
  {
    Landed(regs, rt, ToInt(LoadLeft(Current(regs, rt), WordAt(mem, a), a % 4)))
  }

  function AfterLWR(regs: Registers, mem: Memory, rt: nat, a: nat): Registers
    requires rt < 32 && a < |mem| && 0 <= regs[LOAD_REG] < 32
  {
    Landed(regs, rt, ToInt(LoadRight(Current(regs, rt), WordAt(mem, a), a % 4)))
  }

  /** The memory after the aligned word around a is replaced. */
  function WithWord(mem: Memory, a: nat, value: Word): (r: Memory)
    requires a < |mem|
    ensures |r| == |mem|
  {
    AlignedFits(|mem|, a);
    Splice(mem, Aligned(a), WordBytes(value))
  }

  lemma AlignedFits(n: nat, a: nat)
    requires n % 4 == 0 && a < n
    ensures Aligned(a) + 4 <= n
  {
  }

  function AfterSWL(regs: Registers, mem: Memory, rt: nat, a: nat): (r: Memory)
    requires rt < 32 && a < |mem|
    ensures |r| == |mem|
  {
    WithWord(mem, a, StoreLeft(WordAt(mem, a), ToWord(regs[rt]), a % 4))
  }

  function AfterSWR(regs: Registers, mem: Memory, rt: nat, a: nat): (r: Memory)
    requires rt < 32 && a < |mem|
    ensures |r| == |mem|
  {
    WithWord(mem, a, StoreRight(WordAt(mem, a), ToWord(regs[rt]), a % 4))
  }

  class Machine {
    const registers: array<Int32>
    const mainMemory: array<Byte>

    ghost predicate Valid()
      reads registers
    {
      && registers.Length == NUM_TOTAL_REGS && mainMemory.Length % 4 == 0
      && registers[0] == 0 && 0 <= registers[LOAD_REG] < 32
    }

    constructor (memorySize: nat)
      requires memorySize % 4 == 0
      ensures Valid() && fresh(registers) && fresh(mainMemory) && mainMemory.Length == memorySize
    {
      registers := new Int32[NUM_TOTAL_REGS](_ => 0);
      mainMemory := new Byte[memorySize](_ => 0);
    }

    method ReadWord(addr: nat) returns (value: Word)
      requires Valid() && addr + 4 <= mainMemory.Length
      ensures value == BytesWord(mainMemory[addr..addr + 4])
    {
      value := BytesWord([mainMemory[addr], mainMemory[addr + 1], mainMemory[addr + 2], mainMemory[addr + 3]]);
      assert mainMemory[addr..addr + 4] == [mainMemory[addr], mainMemory[addr + 1], mainMemory[addr + 2], mainMemory[addr + 3]];
    }

    method WriteWord(addr: nat, value: Word)
      requires Valid() && addr + 4 <= mainMemory.Length
      modifies mainMemory
      ensures Valid() && mainMemory[..] == Splice(old(mainMemory[..]), addr, WordBytes(value))
    {
      var b := WordBytes(value);
      mainMemory[addr], mainMemory[addr + 1], mainMemory[addr + 2], mainMemory[addr + 3] := b[0], b[1], b[2], b[3];
    }

    method DelayedLoad(nextReg: Int32, nextValue: Int32)
      requires Valid() && 0 <= nextReg < 32
      modifies registers
      ensures Valid() && registers[..] == Landed(old(registers[..]), nextReg, nextValue)
    {
      registers[registers[LOAD_REG]] := registers[LOAD_VALUE_REG];
      registers[LOAD_REG] := nextReg;
      registers[LOAD_VALUE_REG] := nextValue;
      registers[0] := 0;
    }

    method LWL(rs: nat, rt: nat, extra: int)
      requires Valid() && rs < 32 && rt < 32 && 0 <= registers[rs] + extra < mainMemory.Length
      modifies registers
      ensures Valid()
      ensures registers[..] == AfterLWL(old(registers[..]), mainMemory[..], rt, old(registers[rs]) + extra)
    {
      var tmp: nat := registers[rs] + extra;
      var byte := tmp % 4;
      var value := ReadWord(tmp - byte);
      var next := if registers[LOAD_REG] == rt then registers[LOAD_VALUE_REG] else registers[rt];
      DelayedLoad(rt, ToInt(LoadLeft(ToWord(next), value, byte)));
    }

    method LWR(rs: nat, rt: nat, extra: int)
      requires Valid() && rs < 32 && rt < 32 && 0 <= registers[rs] + extra < mainMemory.Length
      modifies registers
      ensures Valid()
      ensures registers[..] == AfterLWR(old(registers[..]), mainMemory[..], rt, old(registers[rs]) + extra)
    {
      var tmp: nat := registers[rs] + extra;
      var byte := tmp % 4;
      var value := ReadWord(tmp - byte);
      var next := if registers[LOAD_REG] == rt then registers[LOAD_VALUE_REG] else registers[rt];
      DelayedLoad(rt, ToInt(LoadRight(ToWord(next), value, byte)));
    }

    method SWL(rs: nat, rt: nat, extra: int)
      requires Valid() && rs < 32 && rt < 32 && 0 <= registers[rs] + extra < mainMemory.Length
      modifies registers, mainMemory
      ensures Valid() && registers[..] == Landed(old(registers[..]), 0, 0)
      ensures mainMemory[..] == AfterSWL(old(registers[..]), old(mainMemory[..]), rt, old(registers[rs]) + extra)
    {
      var tmp: nat := registers[rs] + extra;
      var byte := tmp % 4;
      ghost var regs: Registers, mem: Memory := registers[..], mainMemory[..];
      AlignedFits(mainMemory.Length, tmp);
      assert tmp - byte == Aligned(tmp);
      hide StoreLeft, Splice, WordBytes, BytesWord, Landed, Aligned, ToWord;
      var value := ReadWord(tmp - byte);
      assert value == WordAt(mem, tmp);
      hide WordAt;
      WriteWord(tmp - byte, StoreLeft(value, ToWord(registers[rt]), byte));
      assert mainMemory[..] == AfterSWL(regs, mem, rt, tmp);
      hide AfterSWL, WithWord;
      DelayedLoad(0, 0);
    }

    method SWR(rs: nat, rt: nat, extra: int)
      requires Valid() && rs < 32 && rt < 32 && 0 <= registers[rs] + extra < mainMemory.Length
      modifies registers, mainMemory
      ensures Valid() && registers[..] == Landed(old(registers[..]), 0, 0)
      ensures mainMemory[..] == AfterSWR(old(registers[..]), old(mainMemory[..]), rt, old(registers[rs]) + extra)
    {
      var tmp: nat := registers[rs] + extra;
      var byte := tmp % 4;
      ghost var regs: Registers, mem: Memory := registers[..], mainMemory[..];
      AlignedFits(mainMemory.Length, tmp);
      assert tmp - byte == Aligned(tmp);
      hide StoreRight, Splice, WordBytes, BytesWord, Landed, Aligned, ToWord;
      var value := ReadWord(tmp - byte);
      assert value == WordAt(mem, tmp);
      hide WordAt;
      WriteWord(tmp - byte, StoreRight(value, ToWord(registers[rt]), byte));
      assert mainMemory[..] == AfterSWR(regs, mem, rt, tmp);
      hide AfterSWR, WithWord;
      DelayedLoad(0, 0);
    }
  }

  // ---------- the pairs ----------

  lemma WordAtBytes(mem: Memory, a: nat)
    requires a < |mem|
    ensures WordBytes(WordAt(mem, a)) == mem[Aligned(a)..Aligned(a) + 4]
  {
    PartsWord(WordAt(mem, a), mem[Aligned(a)..Aligned(a) + 4]);
  }

  /** An aligned address has both accesses in one word; otherwise the second is in the next word. */
  lemma AddressCases(a: nat)
    ensures a % 4 == 0 ==> Aligned(a) == a && Aligned(a + 3) == a && (a + 3) % 4 == 3
    ensures a % 4 != 0 ==> Aligned(a + 3) == Aligned(a) + 4 && (a + 3) % 4 == a % 4 - 1
    ensures a == Aligned(a) + a % 4
  {
  }

  lemma SlicesJoin(mem: seq<Byte>, w: nat, k: nat, before: seq<Byte>)
    requires 0 < k < 4 && w + 8 <= |mem| && |before| == 4
    ensures (mem[w..w + 4][k..] + before[4 - k..])[..4 - k] + mem[w + 4..w + 8][..k] == mem[w + k..w + k + 4]
  {
    assert (mem[w..w + 4][k..] + before[4 - k..])[..4 - k] == mem[w + k..w + 4];
    assert mem[w + 4..w + 8][..k] == mem[w + 4..w + 4 + k];
    assert mem[w + k..w + 4] + mem[w + 4..w + 4 + k] == mem[w + k..w + k + 4];
  }

  /** Two splices side by side are one. */
  lemma SpliceAdjacent(mem: seq<Byte>, w: nat, x: seq<Byte>, y: seq<Byte>)
    requires |x| == |y| == 4 && w + 8 <= |mem|
    ensures Splice(Splice(mem, w, x), w + 4, y) == Splice(mem, w, x + y)
  {
  }

  /** Bytes put back where they were need not be spliced. */
  lemma SpliceTrim(mem: seq<Byte>, w: nat, k: nat, z: seq<Byte>)
    requires 0 < k < 4 && w + 8 <= |mem| && |z| == 4
    ensures Splice(mem, w, mem[w..w + k] + z + mem[w + k + 4..w + 8]) == Splice(mem, w + k, z)
  {
    assert mem[..w] + mem[w..w + k] == mem[..w + k] && mem[w + k + 4..w + 8] + mem[w + 8..] == mem[w + k + 4..];
  }

  lemma SplicesJoin(mem: seq<Byte>, w: nat, k: nat, b: seq<Byte>, b': seq<Byte>)
    requires 0 < k < 4 && w + 8 <= |mem| && |b| == |b'| == 4
    ensures
      var mem1 := Splice(mem, w, mem[w..w + 4][..k] + b[..4 - k]);
      Splice(mem1, w + 4, b'[4 - k..] + mem1[w + 4..w + 8][k..]) == Splice(mem, w + k, b[..4 - k] + b'[4 - k..])
  {
    var x, z := mem[w..w + 4][..k] + b[..4 - k], b[..4 - k] + b'[4 - k..];
    var mem1 := Splice(mem, w, x);
    var y := b'[4 - k..] + mem1[w + 4..w + 8][k..];
    assert mem1[w + 4..w + 8] == mem[w + 4..w + 8];
    assert x + y == mem[w..w + k] + z + mem[w + k + 4..w + 8];
    hide Splice;
    SpliceAdjacent(mem, w, x, y);
    SpliceTrim(mem, w, k, z);
  }

  /** The two merges together give the unaligned word, whatever was there before. */
  lemma MergedLoad(mem: Memory, a: nat, before: Word)
    requires a + 3 < |mem|
    ensures
      var right := LoadRight(before, WordAt(mem, a), a % 4);
      LoadLeft(right, WordAt(mem, a + 3), (a + 3) % 4) == BytesWord(mem[a..a + 4])
  {
    hide LoadRight, LoadLeft, WordAt, WordBytes, BytesWord, Aligned;
    var k, w := a % 4, Aligned(a);
    var right := LoadRight(before, WordAt(mem, a), k);
    var left := LoadLeft(right, WordAt(mem, a + 3), (a + 3) % 4);
    AddressCases(a);
    LoadRightBytes(before, WordAt(mem, a), k);
    LoadLeftBytes(right, WordAt(mem, a + 3), (a + 3) % 4);
    WordAtBytes(mem, a);
    WordAtBytes(mem, a + 3);
    if k == 0 {
      assert WordBytes(right)[..0] + mem[w..w + 4][..4] == mem[a..a + 4];
    } else {
      SlicesJoin(mem, w, k, WordBytes(before));
    }
    WordBytesRoundTrip(left);
  }

  /** No load of the base register is pending, or it would not change it. */
  predicate BaseStays(regs: Registers, rs: nat)
    requires rs < 32
  {
    rs == 0 || regs[LOAD_REG] != rs || regs[LOAD_VALUE_REG] == regs[rs]
  }

  /** What an interrupt handler leaves: CheckIfDue lets the pending load land. */
  function AfterInterrupt(regs: Registers, interrupted: bool): Registers
    requires 0 <= regs[LOAD_REG] < 32
  {
    if interrupted then Landed(regs, 0, 0) else regs
  }

  /**
   Both instructions of a pair name the same base register. They compute addresses three apart if and only if no pending
   load changes the base under them.
   */
  lemma SecondAddress(regs: Registers, rs: nat, next: nat, value: Int32, interrupted: bool)
    requires Settled(regs) && rs < 32 && next < 32 && (next == rs ==> rs == 0)
    ensures AfterInterrupt(Landed(regs, next, value), interrupted)[rs] == regs[rs] <==> BaseStays(regs, rs)
  {
  }

  /**
   LWR at a, then LWL at a + 3, then whatever makes the last load land: rt holds the four bytes from a on, whether or
   not an interrupt between the two flushed the pending load. Every other general register is as if neither
   had run.
   */
  lemma UnalignedLoad(regs: Registers, mem: Memory, rt: nat, a: nat, interrupted: bool)
    requires Settled(regs) && 0 < rt < 32 && a + 3 < |mem|
    ensures
      var regs2 := AfterInterrupt(AfterLWR(regs, mem, rt, a), interrupted);
      && 0 <= regs2[LOAD_REG] < 32
      && var regs3 := AfterLWL(regs2, mem, rt, a + 3);
      && 0 <= regs3[LOAD_REG] < 32
      && var end := Landed(regs3, 0, 0);
      && end[rt] == ToInt(BytesWord(mem[a..a + 4]))
      && forall r :: 0 <= r < 32 && r != rt ==> end[r] == Landed(regs, 0, 0)[r]
  {
    MergedLoad(mem, a, Current(regs, rt));
    hide LoadRight, LoadLeft, WordAt, BytesWord;
    var regs2 := AfterInterrupt(AfterLWR(regs, mem, rt, a), interrupted);
    assert Current(regs2, rt) == LoadRight(Current(regs, rt), WordAt(mem, a), a % 4);
  }

  lemma StoreRightEffect(regs: Registers, mem: Memory, rt: nat, a: nat)
    requires rt < 32 && a < |mem|
    ensures
      var w, k, b := Aligned(a), a % 4, WordBytes(ToWord(regs[rt]));
      AfterSWR(regs, mem, rt, a) == Splice(mem, w, mem[w..w + 4][..k] + b[..4 - k])
  {
    StoreRightBytes(WordAt(mem, a), ToWord(regs[rt]), a % 4);
    WordAtBytes(mem, a);
  }

  lemma StoreLeftEffect(regs: Registers, mem: Memory, rt: nat, a: nat)
    requires rt < 32 && a < |mem|
    ensures
      var w, k, b := Aligned(a), a % 4, WordBytes(ToWord(regs[rt]));
      AfterSWL(regs, mem, rt, a) == Splice(mem, w, b[3 - k..] + mem[w..w + 4][k + 1..])
  {
    StoreLeftBytes(WordAt(mem, a), ToWord(regs[rt]), a % 4);
    WordAtBytes(mem, a);
  }

  /** The bytes a store pair writes when rt holds old_ at the first store and new_ at the second. */
  function PairBytes(old_: Int32, new_: Int32, k: nat): seq<Byte>
    requires k < 4
  {
    if k == 0 then WordBytes(ToWord(new_)) else WordBytes(ToWord(old_))[..4 - k] + WordBytes(ToWord(new_))[4 - k..]
  }

  lemma StorePairBytes(regs: Registers, regs': Registers, mem: Memory, rt: nat, a: nat)
    requires rt < 32 && a + 3 < |mem|
    ensures AfterSWL(regs', AfterSWR(regs, mem, rt, a), rt, a + 3) == Splice(mem, a, PairBytes(regs[rt], regs'[rt], a % 4))
  {
    hide AfterSWL, AfterSWR, WordBytes, Aligned, Splice;
    var b, b', w, mem1 := WordBytes(ToWord(regs[rt])), WordBytes(ToWord(regs'[rt])), Aligned(a), AfterSWR(regs, mem, rt, a);
    AddressCases(a);
    StoreRightEffect(regs, mem, rt, a);
    StoreLeftEffect(regs', mem1, rt, a + 3);
    if a % 4 == 0 {
      assert mem[w..w + 4][..0] + b[..4] == b && b'[0..] + mem1[w..w + 4][4..] == b';
      SpliceTwice(mem, a, b, b');
    } else {
      SplicesJoin(mem, w, a % 4, b, b');
    }
  }

  lemma SpliceTwice(mem: seq<Byte>, a: nat, b: seq<Byte>, b': seq<Byte>)
    requires a + |b| <= |mem| && |b'| == |b|
    ensures Splice(Splice(mem, a, b), a, b') == Splice(mem, a, b')
  {
  }

  lemma SplicesDiffer(mem: seq<Byte>, a: nat, b: seq<Byte>, b': seq<Byte>)
    requires a + |b| <= |mem| && |b'| == |b|
    ensures Splice(mem, a, b) == Splice(mem, a, b') <==> b == b'
  {
    assert Splice(mem, a, b)[a..a + |b|] == b && Splice(mem, a, b')[a..a + |b|] == b';
  }

  /** The part of rt that the second store of a pair writes: all of it at an aligned address. */
  function SecondPart(value: Int32, k: nat): seq<Byte>
    requires k < 4
  {
    WordBytes(ToWord(value))[if k == 0 then 0 else 4 - k..]
  }

  lemma PairBytesExact(old_: Int32, new_: Int32, k: nat)
    requires k < 4
    ensures PairBytes(old_, new_, k) == WordBytes(ToWord(old_)) <==> SecondPart(old_, k) == SecondPart(new_, k)
  {
    hide WordBytes, ToWord;
    var b, b' := WordBytes(ToWord(old_)), WordBytes(ToWord(new_));
    if k != 0 {
      assert b == b[..4 - k] + b[4 - k..];
      assert PairBytes(old_, new_, k)[4 - k..] == b'[4 - k..];
    }
  }

  /**
   SWR at a, then SWL at a + 3, interrupted or not. Exactly the four bytes from a on change. A load of rt that was still
   pending lands between the two; so the bytes are those of rt if and only if that load does not change the part that
   the second store writes.
   */
  lemma UnalignedStore(regs: Registers, mem: Memory, rt: nat, a: nat, interrupted: bool)
    requires Settled(regs) && rt < 32 && a + 3 < |mem|
    ensures
      var landed := Landed(regs, 0, 0);
      var end := AfterSWL(AfterInterrupt(landed, interrupted), AfterSWR(regs, mem, rt, a), rt, a + 3);
      && end == Splice(mem, a, PairBytes(regs[rt], landed[rt], a % 4))
      && (end == Splice(mem, a, WordBytes(ToWord(regs[rt]))) <==>
          SecondPart(regs[rt], a % 4) == SecondPart(landed[rt], a % 4))
  {
    hide AfterSWL, AfterSWR, WordBytes, Splice, PairBytes, SecondPart;
    var landed := Landed(regs, 0, 0);
    assert AfterInterrupt(landed, interrupted)[rt] == landed[rt];
    StorePairBytes(regs, AfterInterrupt(landed, interrupted), mem, rt, a);
    PairBytesLength(regs[rt], landed[rt], a % 4);
    SplicesDiffer(mem, a, PairBytes(regs[rt], landed[rt], a % 4), WordBytes(ToWord(regs[rt])));
    PairBytesExact(regs[rt], landed[rt], a % 4);
  }

  lemma PairBytesLength(old_: Int32, new_: Int32, k: nat)
    requires k < 4
    ensures |PairBytes(old_, new_, k)| == 4 && PairBytes(old_, old_, k) == WordBytes(ToWord(old_))
  {
    hide WordBytes;
  }

  /** All registers are 0, and a load of 1 into register 8 is pending. */
  function LoadOf1Pending(): (regs: Registers)
    ensures Settled(regs) && regs[8] == 0 && regs[LOAD_REG] == 8 && regs[LOAD_VALUE_REG] == 1
  {
    seq(40, i => if i == LOAD_REG then 8 else if i == LOAD_VALUE_REG then 1 else 0)
  }

  lemma PartsOf0And1()
    ensures SecondPart(0, 0) != SecondPart(1, 0)
  {
    assert SecondPart(0, 0)[0] == 0 && SecondPart(1, 0)[0] == 1;
  }

  /** A store pair that does not store what its register holds. */
  lemma PendingLoadShows()
    ensures
      var regs, mem := LoadOf1Pending(), [0, 0, 0, 0];
      AfterSWL(Landed(regs, 0, 0), AfterSWR(regs, mem, 8, 0), 8, 3) != Splice(mem, 0, WordBytes(ToWord(regs[8])))
  {
    hide AfterSWL, AfterSWR, SecondPart, WordBytes, PairBytes, LoadOf1Pending, Splice;
    UnalignedStore(LoadOf1Pending(), [0, 0, 0, 0], 8, 0, false);
    PartsOf0And1();
  }

  /** The registers and the memory after SWR and SWL of rt, with the interrupts that fell behind each. */
  function StorePair(regs: Registers, mem: Memory, rt: nat, a: nat, i1: bool, i2: bool): (Registers, Registers, Memory)
    requires rt < 32 && a + 3 < |mem| && Settled(regs)
  {
    var regs1 := AfterInterrupt(Landed(regs, 0, 0), i1);
    (regs1, AfterInterrupt(Landed(regs1, 0, 0), i2), AfterSWL(regs1, AfterSWR(regs, mem, rt, a), rt, a + 3))
  }

  /** The registers after LWR and LWL of rd, with the interrupt between them, and once the last load has landed. */
  function LoadPair(regs: Registers, mem: Memory, rd: nat, a: nat, i3: bool): (Registers, Registers)
    requires 0 < rd < 32 && a + 3 < |mem| && Settled(regs)
  {
    var regs1 := AfterInterrupt(AfterLWR(regs, mem, rd, a), i3);
    (regs1, Landed(AfterLWL(regs1, mem, rd, a + 3), 0, 0))
  }

  /**
   SWR and SWL of rt at a and a + 3, then LWR and LWL of rd there, with interrupts anywhere between. All four name the base
   register rs. They compute those addresses if and only if no pending load changes rs; and rd ends up with what rt held
   if and only if no pending load changes the part of rt that the second store writes.
   */
  lemma StoreThenLoad(
    regs: Registers, mem: Memory, rs: nat, rt: nat, rd: nat, a: nat, i1: bool, i2: bool, i3: bool)
    requires Settled(regs) && rs < 32 && rt < 32 && 0 < rd < 32 && a + 3 < |mem|
    ensures
      var stored := StorePair(regs, mem, rt, a, i1, i2);
      && Settled(stored.1)
      && var loaded := LoadPair(stored.1, stored.2, rd, a, i3);
      && (rd != rs || !i3 ==>
            (stored.0[rs] == stored.1[rs] == loaded.0[rs] == regs[rs] <==> BaseStays(regs, rs)))
      && (loaded.1[rd] == regs[rt] <==>
            SecondPart(regs[rt], a % 4) == SecondPart(Landed(regs, 0, 0)[rt], a % 4))
  {
    hide AfterSWL, AfterSWR, WordBytes, BytesWord, SecondPart, PairBytes, LoadLeft, LoadRight, WordAt;
    var stored := StorePair(regs, mem, rt, a, i1, i2);
    StoredBytes(regs, mem, rt, a, i1);
    UnalignedLoad(stored.1, stored.2, rd, a, i3);
  }

  /** The four stored bytes read as a word. */
  lemma StoredBytes(regs: Registers, mem: Memory, rt: nat, a: nat, interrupted: bool)
    requires Settled(regs) && rt < 32 && a + 3 < |mem|
    ensures
      var landed := Landed(regs, 0, 0);
      var end := AfterSWL(AfterInterrupt(landed, interrupted), AfterSWR(regs, mem, rt, a), rt, a + 3);
      ToInt(BytesWord(end[a..a + 4])) == regs[rt] <==>
        SecondPart(regs[rt], a % 4) == SecondPart(landed[rt], a % 4)
  {
    hide AfterSWL, AfterSWR, WordBytes, BytesWord, SecondPart, PairBytes;
    UnalignedStore(regs, mem, rt, a, interrupted);
    var landed := Landed(regs, 0, 0);
    var b, written := WordBytes(ToWord(regs[rt])), PairBytes(regs[rt], landed[rt], a % 4);
    PairBytesLength(regs[rt], landed[rt], a % 4);
    assert Splice(mem, a, written)[a..a + 4] == written;
    SplicesDiffer(mem, a, written, b);
    WordBytesRoundTrip(ToWord(regs[rt]));
    SameWord(written, regs[rt]);
  }

  lemma SameWord(bytes: seq<Byte>, value: Int32)
    requires |bytes| == 4
    ensures ToInt(BytesWord(bytes)) == value <==> bytes == WordBytes(ToWord(value))
  {
    WordBytesRoundTrip(ToWord(value));
    PartsWord(BytesWord(bytes), bytes);
    hide WordBytes, BytesWord;
  }
}
