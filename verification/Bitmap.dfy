/**
 The packed bitmap of lib/bitmap.cc: bits kept 32 to a word in an array of unsigned ints.
 The free-sector map, the physical-page map and the process-slot map are all such bitmaps.
 */
module Bitmaps {
  import opened Words

  const BITS_IN_WORD := 32

  /** The bits that the first numBits positions of an array of words hold. */
  function BitsOf(words: seq<Word>, numBits: nat): (bits: seq<bool>)
    requires numBits <= BITS_IN_WORD * |words|
    ensures |bits| == numBits
  {
    seq(numBits, i requires 0 <= i < numBits => Bit(words[i / BITS_IN_WORD], i % BITS_IN_WORD))
  }

  /** How many positions are clear. */
  function CountClear(bits: seq<bool>): nat
  {
    if bits == [] then 0
    else CountClear(bits[..|bits| - 1]) + (if bits[|bits| - 1] then 0 else 1)
  }

  /** i is the lowest-numbered clear position. */
  ghost predicate IsFirstClear(bits: seq<bool>, i: int)
  {
    0 <= i < |bits| && !bits[i] && forall j :: 0 <= j < i ==> bits[j]
  }

  ghost predicate AllSet(bits: seq<bool>)
  {
    forall j :: 0 <= j < |bits| ==> bits[j]
  }

  /** No position is clear exactly when the count is zero. */
  lemma {:induction false} CountClearZero(bits: seq<bool>)
    ensures CountClear(bits) == 0 <==> AllSet(bits)
  {
    if bits != [] {
      var front := bits[..|bits| - 1];
      CountClearZero(front);
      assert forall j :: 0 <= j < |front| ==> front[j] == bits[j];
    }
  }

  /** Setting a clear position lowers the count by one; clearing a set one raises it. */
  lemma {:induction false} CountClearUpdate(bits: seq<bool>, i: nat, v: bool)
    requires i < |bits| && bits[i] != v
    ensures CountClear(bits[i := v]) == CountClear(bits) + (if v then -1 else 1)
  {
    var front := bits[..|bits| - 1];
    if i < |bits| - 1 {
      CountClearUpdate(front, i, v);
      assert bits[i := v][..|bits| - 1] == front[i := v];
    } else {
      assert bits[i := v][..|bits| - 1] == front;
    }
  }

  /** The effect of one word update on all bits of the map. */
  lemma WordUpdate(words: seq<Word>, numBits: nat, which: nat, v: bool)
    requires numBits <= BITS_IN_WORD * |words| && which < numBits
    ensures
      var w := words[which / BITS_IN_WORD];
      var w' := if v then SetBit(w, which % BITS_IN_WORD) else ClearBit(w, which % BITS_IN_WORD);
      BitsOf(words[which / BITS_IN_WORD := w'], numBits) == BitsOf(words, numBits)[which := v]
  {
    var q, r := which / BITS_IN_WORD, which % BITS_IN_WORD;
    var w' := if v then SetBit(words[q], r) else ClearBit(words[q], r);
    var before, after := BitsOf(words, numBits)[which := v], BitsOf(words[q := w'], numBits);
    forall i | 0 <= i < numBits
      ensures after[i] == before[i]
    {
      if i / BITS_IN_WORD == q {
        if v { SetBitBits(words[q], r, i % BITS_IN_WORD); } else { ClearBitBits(words[q], r, i % BITS_IN_WORD); }
        assert i % BITS_IN_WORD == r <==> i == which;
      }
    }
  }

  // ---------- taking positions, first fit ----------

  /** What Allocate takes from a map: n distinct clear positions, lowest first, leaving no gap below. */
  ghost predicate FirstFit(bits: seq<bool>, taken: seq<int>)
  {
    && (forall i :: 0 <= i < |taken| ==> 0 <= taken[i] < |bits| && !bits[taken[i]])
    && (forall i, j :: 0 <= i < j < |taken| ==> taken[i] < taken[j])
    && (forall s, i :: 0 <= i < |taken| && 0 <= s < taken[i] && !bits[s] ==> s in taken[..i])
  }

  /** bits with every position of taken set to v. */
  function WithAll(bits: seq<bool>, taken: seq<int>, v: bool): (r: seq<bool>)
    ensures |r| == |bits|
  {
    seq(|bits|, s requires 0 <= s < |bits| => if s in taken then v else bits[s])
  }

  /** Marking distinct clear positions lowers the count of clear ones by their number. */
  lemma {:induction false} MarkedCount(bits: seq<bool>, taken: seq<int>)
    requires forall i :: 0 <= i < |taken| ==> 0 <= taken[i] < |bits| && !bits[taken[i]]
    requires forall i, j :: 0 <= i < j < |taken| ==> taken[i] != taken[j]
    ensures CountClear(WithAll(bits, taken, true)) == CountClear(bits) - |taken|
  {
    if taken == [] {
      assert WithAll(bits, taken, true) == bits;
    } else {
      var front, last := taken[..|taken| - 1], taken[|taken| - 1];
      MarkedCount(bits, front);
      CountClearUpdate(WithAll(bits, front, true), last, true);
      assert WithAll(bits, taken, true) == WithAll(bits, front, true)[last := true];
    }
  }

  /** now is bits after a first fit took the positions taken, one FindAndSet at a time. */
  ghost predicate Taken(bits: seq<bool>, taken: seq<Int32>, now: seq<bool>)
  {
    FirstFit(bits, taken) && now == WithAll(bits, taken, true) && CountClear(now) == CountClear(bits) - |taken|
  }

  lemma FirstClearIsHigher(bits: seq<bool>, taken: seq<Int32>, f: Int32, i: nat)
    requires FirstFit(bits, taken) && IsFirstClear(WithAll(bits, taken, true), f) && i < |taken|
    ensures taken[i] < f
  {
    var now := WithAll(bits, taken, true);
    assert !now[f] && taken[i] in taken && now[taken[i]];
  }

  /** Taking the positions that FindAndSet yields, one after the other, is first fit. */
  lemma TakeNext(bits: seq<bool>, taken: seq<Int32>, now: seq<bool>, f: Int32)
    requires Taken(bits, taken, now) && IsFirstClear(now, f)
    ensures Taken(bits, taken + [f], now[f := true])
  {
    CountClearUpdate(now, f, true);
    var more := taken + [f];
    forall i | 0 <= i < |taken| ensures taken[i] < f { FirstClearIsHigher(bits, taken, f, i); }
    forall s, i | 0 <= i < |more| && 0 <= s < more[i] && !bits[s]
      ensures s in more[..i]
    {
      if i < |taken| {
        assert more[..i] == taken[..i];
      } else {
        assert more[..i] == taken;
        assert now[s];
      }
    }
    assert now[f := true] == WithAll(bits, more, true);
  }

  class Bitmap {
    const numBits: nat
    const numWords: nat
    const words: array<Word>

    ghost predicate Valid()
    {
      numBits > 0 && numWords == DivRoundUp(numBits, BITS_IN_WORD) && words.Length == numWords
    }

    ghost function Bits(): (bits: seq<bool>)
      requires Valid()
      reads words
      ensures |bits| == numBits
    {
      BitsOf(words[..], numBits)
    }

    constructor (numItems: nat)
      requires numItems > 0
      ensures Valid() && fresh(words) && numBits == numItems
      ensures forall i :: 0 <= i < numBits ==> !Bits()[i]
    {
      numBits := numItems;
      numWords := DivRoundUp(numItems, BITS_IN_WORD);
      words := new Word[DivRoundUp(numItems, BITS_IN_WORD)](_ => 0);
      new;
      forall k ensures !Bit(0, k) { ZeroHasNoBits(k); }
      var i := 0;
      while i < numBits
        invariant 0 <= i <= numBits
        invariant forall j :: 0 <= j < numBits ==> !Bits()[j]
      {
        Clear(i);
        i := i + 1;
      }
    }

    method Mark(which: nat)
      requires Valid() && which < numBits
      modifies words
      ensures Bits() == old(Bits())[which := true]
    {
      WordUpdate(words[..], numBits, which, true);
      var q := which / BITS_IN_WORD;
      ghost var before := words[..];
      words[q] := SetBit(words[q], which % BITS_IN_WORD);
      assert words[..] == before[q := words[q]];
    }

    method Clear(which: nat)
      requires Valid() && which < numBits
      modifies words
      ensures Bits() == old(Bits())[which := false]
    {
      WordUpdate(words[..], numBits, which, false);
      var q := which / BITS_IN_WORD;
      ghost var before := words[..];
      words[q] := ClearBit(words[q], which % BITS_IN_WORD);
      assert words[..] == before[q := words[q]];
    }

    method Test(which: nat) returns (isSet: bool)
      requires Valid() && which < numBits
      ensures isSet == Bits()[which]
    {
      var w := words[which / BITS_IN_WORD];
      isSet := And(w, Pow2(which % BITS_IN_WORD)) != 0;
      TestBit(w, which % BITS_IN_WORD);
    }

    /** First fit: the lowest clear position, which becomes set; -1 when every position is set. */
    method FindAndSet() returns (r: int)
      requires Valid()
      modifies words
      ensures r == -1 <==> AllSet(old(Bits()))
      ensures r == -1 ==> Bits() == old(Bits())
      ensures r != -1 ==> IsFirstClear(old(Bits()), r) && Bits() == old(Bits())[r := true]
    {
      for i := 0 to numBits
        invariant Bits() == old(Bits())
        invariant forall j :: 0 <= j < i ==> Bits()[j]
      {
        var t := Test(i);
        if !t {
          Mark(i);
          return i;
        }
      }
      return -1;
    }

    method NumClear() returns (count: nat)
      requires Valid()
      ensures count == CountClear(Bits())
    {
      count := 0;
      for i := 0 to numBits
        invariant count == CountClear(Bits()[..i])
      {
        var t := Test(i);
        assert Bits()[..i + 1][..i] == Bits()[..i];
        if !t {
          count := count + 1;
        }
      }
      assert Bits()[..numBits] == Bits();
    }
  }
}
