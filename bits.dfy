/**
 * The bit packing of HW4's Vector<bool> (HW4/vector.hh): element i lives in
 * bit i % 32 of the 32-bit word i / 32.
 *
 * The word-level facts are lemmas over abstract words and bit offsets; the
 * sequence-level lemmas only pick the word and the offset and call them, so
 * no single proof mixes bit-vector arithmetic with sequence indexing.
 */
module WordBits {

  /** uint32_t */
  type Word = bv32

  /** Bit k of w, lowest bit first (BitMask relates it to `w & (1 << k)`). */
  predicate BitOf(w: Word, k: bv5)
  {
    (w >> k) & 1 == 1
  }

  /** BitOf is the C++ test `w & (1 << k)`, read as a bool. */
  lemma BitMask(w: Word, k: bv5)
    ensures BitOf(w, k) == (w & (1 << k) != 0)
  {
  }

  /** A bool promoted to an integer: 1 or 0. */
  function FromBool(b: bool): Word
  {
    if b then 1 else 0
  }

  /** Bit::operator=: `w &= ~(1 << k); w |= b << k`. */
  function Assign(w: Word, k: bv5, b: bool): Word
  {
    (w & !(1 << k)) | (FromBool(b) << k)
  }

  /** push_back's `w |= b << k`. */
  function OrIn(w: Word, k: bv5, b: bool): Word
  {
    w | (FromBool(b) << k)
  }

  /** resize's `w &= ~(-1 << n)`: keeps the n lowest bits. */
  function KeepLow(w: Word, n: bv5): Word
  {
    w & !(0xFFFF_FFFF << n)
  }

  /** Assign sets bit k to b and leaves the other bits alone. */
  lemma AssignBit(w: Word, k: bv5, b: bool, j: bv5)
    ensures BitOf(Assign(w, k, b), j) == if j == k then b else BitOf(w, j)
  {
  }

  /** OrIn sets bit k when b holds and leaves the other bits alone. */
  lemma OrInBit(w: Word, k: bv5, b: bool, j: bv5)
    ensures BitOf(OrIn(w, k, b), j) == (BitOf(w, j) || (j == k && b))
  {
  }

  /** KeepLow(w, n) keeps the bits below n and clears the rest. */
  lemma KeepLowBit(w: Word, n: bv5, j: bv5)
    ensures BitOf(KeepLow(w, n), j) == (j < n && BitOf(w, j))
  {
  }

  /** KeepLow(w, 0) is zero: `~(-1 << 0)` clears the whole word. */
  lemma KeepLowZero(w: Word)
    ensures KeepLow(w, 0) == 0
  {
  }

  lemma OffsetOrder(a: bv5, b: bv5)
    ensures a < b <==> a as int < b as int
  {
  }

  /** The zero word has no bit set. */
  lemma ZeroBit(k: bv5)
    ensures !BitOf(0, k)
  {
  }

  // ---------------------------------------------------------------------
  // Bits of a sequence of words
  // ---------------------------------------------------------------------

  /** `i % 32` as a shift amount (five bits, as a shift of a 32-bit word needs). */
  function Pos(i: int): bv5
    requires i >= 0
  {
    (i % 32) as bv5
  }

  lemma PosValue(i: int)
    requires i >= 0
    ensures Pos(i) as int == i % 32
  {
  }

  /** `arr[i/32] & (1 << i%32)`, read as a bool. */
  predicate Bit(s: seq<Word>, i: int)
    requires 0 <= i && i / 32 < |s|
  {
    BitOf(s[i / 32], Pos(i))
  }

  /** Bit::operator=(b) on element i. */
  function SetBit(s: seq<Word>, i: int, b: bool): (r: seq<Word>)
    requires 0 <= i && i / 32 < |s|
    ensures |r| == |s|
    ensures forall x :: 0 <= x < |s| && x != i / 32 ==> r[x] == s[x]
  {
    s[i / 32 := Assign(s[i / 32], Pos(i), b)]
  }

  /** Two elements of the same word sit at different offsets, in the same order. */
  lemma PosOrder(i: int, j: int)
    requires 0 <= i && 0 <= j && i / 32 == j / 32
    ensures i == j <==> Pos(i) == Pos(j)
    ensures i < j <==> Pos(i) < Pos(j)
  {
    PosValue(i);
    PosValue(j);
    OffsetOrder(Pos(i), Pos(j));
    assert i - j == i % 32 - j % 32;
  }

  /** SetBit changes element i to b and no other element. */
  lemma SetBitBit(s: seq<Word>, i: int, b: bool, j: int)
    requires 0 <= i && i / 32 < |s| && 0 <= j && j / 32 < |s|
    ensures Bit(SetBit(s, i, b), j) == if j == i then b else Bit(s, j)
  {
    if i / 32 == j / 32 {
      PosOrder(i, j);
      AssignBit(s[i / 32], Pos(i), b, Pos(j));
    }
  }

  /** push_back's `arr[i/32] |= b << i%32`. */
  function OrBit(s: seq<Word>, i: int, b: bool): (r: seq<Word>)
    requires 0 <= i && i / 32 < |s|
    ensures |r| == |s|
    ensures forall x :: 0 <= x < |s| && x != i / 32 ==> r[x] == s[x]
  {
    s[i / 32 := OrIn(s[i / 32], Pos(i), b)]
  }

  /** OrBit sets element i when b holds and changes no other element. */
  lemma OrBitBit(s: seq<Word>, i: int, b: bool, j: int)
    requires 0 <= i && i / 32 < |s| && 0 <= j && j / 32 < |s|
    ensures Bit(OrBit(s, i, b), j) == (Bit(s, j) || (j == i && b))
  {
    if i / 32 == j / 32 {
      PosOrder(i, j);
      OrInBit(s[i / 32], Pos(i), b, Pos(j));
    }
  }

  /** Every element in a zero word is clear. */
  lemma ZeroWordBit(s: seq<Word>, i: int)
    requires 0 <= i && i / 32 < |s| && s[i / 32] == 0
    ensures !Bit(s, i)
  {
    ZeroBit(Pos(i));
  }

  /**
   * resize's `arr[n/32] &= ~(-1 << n%32)`: clears the elements from n to
   * the end of n's word and keeps every other element.
   */
  function ClearFrom(s: seq<Word>, n: int): (r: seq<Word>)
    requires 0 <= n && n / 32 < |s|
    ensures |r| == |s|
    ensures forall x :: 0 <= x < |s| && x != n / 32 ==> r[x] == s[x]
  {
    s[n / 32 := KeepLow(s[n / 32], Pos(n))]
  }

  lemma ClearFromBit(s: seq<Word>, n: int, j: int)
    requires 0 <= n && n / 32 < |s| && 0 <= j && j / 32 < |s|
    ensures Bit(ClearFrom(s, n), j) == ((j < n || j / 32 != n / 32) && Bit(s, j))
  {
    if j / 32 == n / 32 {
      PosOrder(j, n);
      KeepLowBit(s[n / 32], Pos(n), Pos(j));
    }
  }

  /** When n is a multiple of 32, ClearFrom zeroes n's whole word. */
  lemma ClearFromWhole(s: seq<Word>, n: int)
    requires 0 <= n && n / 32 < |s| && n % 32 == 0
    ensures ClearFrom(s, n)[n / 32] == 0
  {
    KeepLowZero(s[n / 32]);
  }

  // ---------------------------------------------------------------------
  // The bits of a sequence of words, as a sequence of bools
  // ---------------------------------------------------------------------

  /** Every bit of s, word after word, lowest bit first. */
  function Bools(s: seq<Word>): (r: seq<bool>)
    ensures |r| == 32 * |s|
  {
    seq(32 * |s|, i => 0 <= i < 32 * |s| && Bit(s, i))
  }

  lemma BoolsAt(s: seq<Word>, k: int)
    requires 0 <= k < 32 * |s|
    ensures Bools(s)[k] == Bit(s, k)
  {
  }

  lemma BoolsSetBit(s: seq<Word>, i: int, b: bool)
    requires 0 <= i && i / 32 < |s|
    ensures Bools(SetBit(s, i, b)) == Bools(s)[i := b]
  {
    forall j | 0 <= j < 32 * |s|
      ensures Bools(SetBit(s, i, b))[j] == Bools(s)[i := b][j]
    {
      SetBitBit(s, i, b, j);
    }
  }

  /** Copying element j to element i. */
  lemma BoolsCopyBit(s: seq<Word>, i: int, j: int)
    requires 0 <= i && i / 32 < |s| && 0 <= j && j / 32 < |s|
    ensures Bools(SetBit(s, i, Bit(s, j))) == Bools(s)[i := Bools(s)[j]]
  {
    BoolsAt(s, j);
    BoolsSetBit(s, i, Bit(s, j));
  }

  lemma BoolsOrBit(s: seq<Word>, i: int, b: bool)
    requires 0 <= i && i / 32 < |s|
    ensures Bools(OrBit(s, i, b)) == Bools(s)[i := Bools(s)[i] || b]
  {
    forall j | 0 <= j < 32 * |s|
      ensures Bools(OrBit(s, i, b))[j] == Bools(s)[i := Bools(s)[i] || b][j]
    {
      OrBitBit(s, i, b, j);
    }
  }

  lemma BoolsClearFrom(s: seq<Word>, n: int)
    requires 0 <= n && n / 32 < |s|
    ensures forall k :: 0 <= k < 32 * |s| ==>
      Bools(ClearFrom(s, n))[k] == ((k < n || k / 32 != n / 32) && Bools(s)[k])
  {
    forall k | 0 <= k < 32 * |s|
      ensures Bools(ClearFrom(s, n))[k] == ((k < n || k / 32 != n / 32) && Bools(s)[k])
    {
      ClearFromBit(s, n, k);
    }
  }

  /** Words that agree hold the same bits. */
  lemma BoolsSameWords(s: seq<Word>, t: seq<Word>, m: int)
    requires 0 <= m <= |s| && m <= |t|
    requires forall x :: 0 <= x < m ==> s[x] == t[x]
    ensures forall k :: 0 <= k < 32 * m ==> Bools(s)[k] == Bools(t)[k]
  {
    forall k | 0 <= k < 32 * m
      ensures Bools(s)[k] == Bools(t)[k]
    {
      BitOfPrefix(s, t, k);
    }
  }

  /** Zero words hold no set bit. */
  lemma BoolsZeroWords(s: seq<Word>, lo: int, hi: int)
    requires 0 <= lo && hi <= |s|
    requires forall x :: lo <= x < hi ==> s[x] == 0
    ensures forall k :: 32 * lo <= k < 32 * hi ==> !Bools(s)[k]
  {
    forall k | 32 * lo <= k < 32 * hi
      ensures !Bools(s)[k]
    {
      ZeroWordBit(s, k);
    }
  }

  lemma BitOfPrefix(s: seq<Word>, t: seq<Word>, i: int)
    requires 0 <= i && i / 32 < |s| && i / 32 < |t| && s[i / 32] == t[i / 32]
    ensures Bit(s, i) == Bit(t, i)
  {
  }
}
