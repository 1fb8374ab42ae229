/**
 Machine words: 32-bit unsigned words with the C bitwise operators the packed bitmap uses,
 and the little-endian byte layout in which words and ints reach the disk.
 */
module Words {

  const WORD_SPAN: int := 0x1_0000_0000

  type Byte = x: int | 0 <= x < 256
  type Word = x: int | 0 <= x < 0x1_0000_0000
  type Int32 = x: int | -0x8000_0000 <= x < 0x8000_0000

  // ---------- bitwise operators ----------

  /** `1 << k` */
  function Pow2(k: nat): (p: nat)
    ensures p >= 1
  {
    if k == 0 then 1 else 2 * Pow2(k - 1)
  }

  /** Bit number k of w, counting from the least significant. */
  predicate Bit(w: nat, k: nat)
    decreases k
  {
    if k == 0 then w % 2 == 1 else Bit(w / 2, k - 1)
  }

  /** `a | b` */
  function Or(a: nat, b: nat): nat
  {
    if a == 0 && b == 0 then 0
    else 2 * Or(a / 2, b / 2) + (if a % 2 == 1 || b % 2 == 1 then 1 else 0)
  }

  /** `a & b` */
  function And(a: nat, b: nat): nat
  {
    if a == 0 || b == 0 then 0
    else 2 * And(a / 2, b / 2) + (if a % 2 == 1 && b % 2 == 1 then 1 else 0)
  }

  /** `~w` on n bits */
  function Complement(w: nat, n: nat): nat
    requires w < Pow2(n)
  {
    Pow2(n) - 1 - w
  }

  lemma {:induction false} ZeroHasNoBits(k: nat)
    ensures !Bit(0, k)
  {
    if k > 0 { ZeroHasNoBits(k - 1); }
  }

  lemma OrParts(a: nat, b: nat)
    ensures Or(a, b) / 2 == Or(a / 2, b / 2)
    ensures Or(a, b) % 2 == 1 <==> a % 2 == 1 || b % 2 == 1
  {
  }

  lemma {:induction false} OrBit(a: nat, b: nat, k: nat)
    ensures Bit(Or(a, b), k) <==> Bit(a, k) || Bit(b, k)
    decreases k
  {
    hide Or;
    OrParts(a, b);
    if k > 0 { OrBit(a / 2, b / 2, k - 1); }
  }

  lemma AndParts(a: nat, b: nat)
    ensures And(a, b) / 2 == And(a / 2, b / 2)
    ensures And(a, b) % 2 == 1 <==> a % 2 == 1 && b % 2 == 1
  {
  }

  lemma {:induction false} AndBit(a: nat, b: nat, k: nat)
    ensures Bit(And(a, b), k) <==> Bit(a, k) && Bit(b, k)
    decreases k
  {
    hide And;
    AndParts(a, b);
    if k > 0 { AndBit(a / 2, b / 2, k - 1); }
  }

  lemma {:induction false} ComplementBit(w: nat, n: nat, k: nat)
    requires w < Pow2(n) && k < n
    ensures Bit(Complement(w, n), k) <==> !Bit(w, k)
    decreases k
  {
    if k > 0 {
      ComplementBit(w / 2, n - 1, k - 1);
      assert Complement(w, n) / 2 == Complement(w / 2, n - 1);
    }
  }

  lemma {:induction false} PowerBit(k: nat, j: nat)
    ensures Bit(Pow2(k), j) <==> j == k
    decreases j
  {
    if k == 0 {
      if j > 0 { ZeroHasNoBits(j - 1); }
    } else if j > 0 {
      PowerBit(k - 1, j - 1);
    }
  }

  lemma {:induction false} OrBound(a: nat, b: nat, n: nat)
    requires a < Pow2(n) && b < Pow2(n)
    ensures Or(a, b) < Pow2(n)
    decreases n
  {
    if n > 0 { OrBound(a / 2, b / 2, n - 1); }
  }

  lemma {:induction false} AndBound(a: nat, b: nat)
    ensures And(a, b) <= a
    decreases a
  {
    if a > 0 { AndBound(a / 2, b / 2); }
  }

  /** `w & (1 << k)` is non-zero exactly when bit k of w is set. */
  lemma {:induction false} TestBit(w: nat, k: nat)
    ensures And(w, Pow2(k)) != 0 <==> Bit(w, k)
    decreases k
  {
    if w == 0 {
      ZeroHasNoBits(k);
    } else if k == 0 {
      assert Pow2(0) / 2 == 0;
    } else {
      TestBit(w / 2, k - 1);
      assert Pow2(k) / 2 == Pow2(k - 1) && Pow2(k) % 2 == 0;
    }
  }

  lemma {:induction false} Pow2Monotone(j: nat, k: nat)
    requires j < k
    ensures Pow2(j) < Pow2(k)
  {
    if j < k - 1 { Pow2Monotone(j, k - 1); }
  }

  lemma Pow2Word()
    ensures Pow2(32) == 0x1_0000_0000
  {
    assert Pow2(8) == 0x100;
    assert Pow2(16) == 0x1_0000;
    assert Pow2(24) == 0x100_0000;
  }

  // ---------- C's single-bit updates on one word ----------

  /** `w |= 1 << k` */
  function SetBit(w: Word, k: nat): (r: Word)
    requires k < 32
  {
    Pow2Word(); Pow2Monotone(k, 32); OrBound(w, Pow2(k), 32);
    Or(w, Pow2(k))
  }

  /** `w &= ~(1 << k)` */
  function ClearBit(w: Word, k: nat): (r: Word)
    requires k < 32
  {
    Pow2Word(); Pow2Monotone(k, 32); AndBound(w, Complement(Pow2(k), 32));
    And(w, Complement(Pow2(k), 32))
  }

  lemma SetBitBits(w: Word, k: nat, j: nat)
    requires k < 32
    ensures Bit(SetBit(w, k), j) <==> Bit(w, j) || j == k
  {
    OrBit(w, Pow2(k), j);
    PowerBit(k, j);
  }

  lemma ClearBitBits(w: Word, k: nat, j: nat)
    requires k < 32 && j < 32
    ensures Bit(ClearBit(w, k), j) <==> Bit(w, j) && j != k
  {
    Pow2Word(); Pow2Monotone(k, 32);
    AndBit(w, Complement(Pow2(k), 32), j);
    ComplementBit(Pow2(k), 32, j);
    PowerBit(k, j);
  }

  // ---------- little-endian layout ----------

  function WordBytes(w: Word): (b: seq<Byte>)
    ensures |b| == 4
  {
    [w % 256, w / 256 % 256, w / 65536 % 256, w / 16777216]
  }

  function BytesWord(b: seq<Byte>): (w: Word)
    requires |b| == 4
  {
    var b0: int, b1: int, b2: int, b3: int := b[0], b[1], b[2], b[3];
    b0 + 256 * b1 + 65536 * b2 + 16777216 * b3
  }

  lemma WordBytesRoundTrip(w: Word)
    ensures BytesWord(WordBytes(w)) == w
  {
    assert w / 256 / 256 == w / 65536;
    assert w / 65536 / 256 == w / 16777216;
  }

  function ToWord(x: Int32): Word
  {
    if x < 0 then x + WORD_SPAN else x
  }

  function ToInt(w: Word): Int32
  {
    if w >= 0x8000_0000 then w - WORD_SPAN else w
  }

  /** The bytes of an array of words, in memory order. */
  function EncodeWords(ws: seq<Word>): (b: seq<Byte>)
    ensures |b| == 4 * |ws|
  {
    seq(4 * |ws|, i requires 0 <= i < 4 * |ws| => WordBytes(ws[i / 4])[i % 4])
  }

  function DecodeWords(b: seq<Byte>): (ws: seq<Word>)
    requires |b| % 4 == 0
    ensures |ws| == |b| / 4
  {
    seq(|b| / 4, i requires 0 <= i < |b| / 4 => BytesWord(b[4 * i..4 * i + 4]))
  }

  lemma EncodedWord(ws: seq<Word>, i: nat)
    requires i < |ws|
    ensures EncodeWords(ws)[4 * i..4 * i + 4] == WordBytes(ws[i])
  {
    var b := EncodeWords(ws);
    assert b[4 * i] == WordBytes(ws[i])[0] by { assert (4 * i) / 4 == i && (4 * i) % 4 == 0; }
    assert b[4 * i + 1] == WordBytes(ws[i])[1] by { assert (4 * i + 1) / 4 == i && (4 * i + 1) % 4 == 1; }
    assert b[4 * i + 2] == WordBytes(ws[i])[2] by { assert (4 * i + 2) / 4 == i && (4 * i + 2) % 4 == 2; }
    assert b[4 * i + 3] == WordBytes(ws[i])[3] by { assert (4 * i + 3) / 4 == i && (4 * i + 3) % 4 == 3; }
  }

  lemma WordsRoundTrip(ws: seq<Word>)
    ensures DecodeWords(EncodeWords(ws)) == ws
  {
    forall i | 0 <= i < |ws|
      ensures DecodeWords(EncodeWords(ws))[i] == ws[i]
    {
      EncodedWord(ws, i);
      WordBytesRoundTrip(ws[i]);
    }
  }

  // ---------- pieces of byte sequences ----------

  /** s with the bytes from position on replaced by those of patch. */
  function Splice(s: seq<Byte>, position: nat, patch: seq<Byte>): (r: seq<Byte>)
    requires patch == [] || position + |patch| <= |s|
    ensures |r| == |s|
  {
    if patch == [] then s else s[..position] + patch + s[position + |patch|..]
  }

  /** The k bytes of s from position on. */
  function Slice(s: seq<Byte>, position: nat, k: nat): (r: seq<Byte>)
    requires k == 0 || position + k <= |s|
    ensures |r| == k
  {
    if k == 0 then [] else s[position..position + k]
  }

  // ---------- divRoundUp ----------

  function DivRoundUp(n: nat, s: nat): (q: nat)
    requires s > 0
  {
    n / s + (if n % s > 0 then 1 else 0)
  }

  /** As many pieces of size s as n needs, and not one more. */
  lemma DivRoundUpLeast(n: nat, s: nat)
    requires s > 0
    ensures n <= DivRoundUp(n, s) * s < n + s
  {
    var q, m := n / s, n % s;
    assert n == q * s + m;
    assert (q + 1) * s == q * s + s;
  }
}
