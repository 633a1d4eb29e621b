/**
 * Three statements of HW4's Vector<bool> (HW4/vector.hh) as they are
 * written, next to the corrected forms that BoolVectorSpec and the
 * VectorBool class use, each with a small vector that shows the difference.
 */
module BoolVectorAsWritten {
  import opened IntHelpers
  import opened VectorSpec
  import opened WordBits
  import opened Outcomes
  import opened BoolVectorSpec

  /** The word resize masks as written, `arr[arr.size() - 1]`: the last word kept. */
  function ResizeMaskWord(count: int): (k: int)
    requires count >= 0
    ensures k == -1 <==> count == 0
    ensures count > 0 ==> 32 * k < count <= 32 * (k + 1)
  {
    Ceil32(count) - 1
  }

  /**
   * resize(count) as written: `arr[arr.size()-1] &= ~(-1 << count%32)`
   * whenever count < len.  For a count that is a multiple of 32 the mask
   * `~(-1 << 0)` is 0, so the last kept word is wiped.  With count == 0 the
   * index is -1, outside the word array; that call is not modelled.
   */
  function ResizeAsWritten(b: BoolVec, count: int): (r: BoolVec)
    requires Inv(b) && count >= 0
    requires count < b.len ==> count > 0
    ensures r.len == count && r.cap == Max(b.cap, count) && r.words.len == Ceil32(count)
    ensures |r.words.store| >= r.words.len
  {
    var w := VectorSpec.Resize(b.words, Ceil32(count), 0);
    var k := ResizeMaskWord(count);
    var s := if count < b.len then w.store[k := KeepLow(w.store[k], Pos(count))] else w.store;
    BoolVec(Vec(s, w.len), count, Max(b.cap, count))
  }

  /**
   * Shrinking 64 set bits to 32: as written the 32 kept elements are
   * cleared (element 0 reads false); the corrected resize keeps them.
   * clear() on a non-empty vector masks word -1.
   */
  lemma ResizeAsWrittenClearsKeptWord()
    ensures var b := BoolVec(Vec([0xFFFF_FFFF, 0xFFFF_FFFF], 2), 64, 64);
      Inv(b) && Contents(b)[0] &&
      !Contents(ResizeAsWritten(b, 32))[0] &&
      Contents(BoolVectorSpec.Resize(b, 32))[0]
    ensures ResizeMaskWord(0) == -1
  {
    var b := BoolVec(Vec([0xFFFF_FFFF, 0xFFFF_FFFF], 2), 64, 64);
    assert Inv(b);
    assert BitOf(0xFFFF_FFFF, 0);
    assert Contents(b)[0] == Bit(b.words.store, 0);
    var r := ResizeAsWritten(b, 32);
    KeepLowZero(0xFFFF_FFFF);
    assert r.words.store[0] == 0;
    ZeroBit(0);
    assert Contents(r)[0] == Bit(r.words.store, 0);
    assert Contents(BoolVectorSpec.Resize(b, 32)) == Contents(b)[..32];
  }

  /**
   * push_back(x) as written: after the growth loop, `arr[len/32] |= x << len%32`
   * with no check that the word vector holds word len/32.  After a
   * shrinking resize it may not: the bit then lands past the word vector's
   * size, where the next reserve's push_back(0) overwrites it.
   */
  function PushBackAsWritten(b: BoolVec, x: bool): (r: BoolVec)
    requires Inv(b) && b.len / 32 < |Grown(b).words.store|
    ensures r.len == b.len + 1 && r.words.len == Grown(b).words.len
  {
    var g := Grown(b);
    BoolVec(Vec(OrBit(g.words.store, g.len, x), g.words.len), g.len + 1, g.cap)
  }

  /**
   * Vector<bool>(33, 64) resized to 32 keeps one word of its two; pushing
   * true as written sets bit 32 in the second slot, past the word vector's
   * size, and reserve(128) then zeroes that slot: at(32) turns false.  The
   * corrected push_back first pushes a word, and the bit survives.
   */
  lemma PushBackAsWrittenLosesBit()
    ensures var b := BoolVectorSpec.Resize(Init(33, 64), 32);
      b == BoolVec(Vec([0, 0], 1), 32, 64) &&
      At(PushBackAsWritten(b, true), 32) == Ok(true) &&
      At(BoolVectorSpec.Reserve(PushBackAsWritten(b, true), 128), 32) == Ok(false) &&
      At(BoolVectorSpec.Reserve(BoolVectorSpec.PushBack(b, true), 128), 32) == Ok(true)
  {
    var b0 := Init(33, 64);
    assert b0.words == Vec([0, 0], 2);
    var b := BoolVectorSpec.Resize(b0, 32);
    assert b.words.store == ClearRange([0, 0], 1, 2, 0);
    assert b == BoolVec(Vec([0, 0], 1), 32, 64);
    var p := PushBackAsWritten(b, true);
    assert p.words.store == [0, OrIn(0, 0, true)];
    assert OrIn(0, 0, true) == 1;
    assert BitOf(1, 0);
    var q := BoolVectorSpec.Reserve(p, 128);
    assert q.words.store[1] == 0;
    ZeroBit(0);
    var c := BoolVectorSpec.PushBack(b, true);
    assert Contents(c)[32];
  }

  /**
   * Away from a shrink to a whole number of words, resize as written is the
   * corrected resize: the masked word is count's own word and the mask is
   * the corrected one.
   */
  lemma ResizeAsWrittenAgrees(b: BoolVec, count: int)
    requires Inv(b) && count >= 0 && (count < b.len ==> count > 0)
    requires count >= b.len || count % 32 != 0
    ensures ResizeAsWritten(b, count) == BoolVectorSpec.Resize(b, count)
  {
    if count < b.len {
      assert ResizeMaskWord(count) == count / 32;
    }
  }

  /** A shrink to a positive multiple of 32 as written clears the whole last kept word. */
  lemma ResizeAsWrittenWipes(b: BoolVec, count: int)
    requires Inv(b) && 0 < count < b.len && count % 32 == 0
    ensures Shaped(ResizeAsWritten(b, count))
    ensures forall i :: count - 32 <= i < count ==> !Contents(ResizeAsWritten(b, count))[i]
  {
    var r := ResizeAsWritten(b, count);
    var k := ResizeMaskWord(count);
    assert k == count / 32 - 1;
    KeepLowZero(VectorSpec.Resize(b.words, Ceil32(count), 0).store[k]);
    assert r.words.store[k] == 0;
    forall i | count - 32 <= i < count
      ensures !Contents(r)[i]
    {
      assert i / 32 == k;
      ZeroWordBit(r.words.store, i);
      BoolsAt(r.words.store, i);
    }
  }

  /**
   * erase(first, last) as written: s is the word array erase's loop leaves
   * (as in BoolVectorSpec.ErasedBits), then resize(len - n) as written.
   * Leaving a count that is not a multiple of 32 it removes [first, last);
   * leaving a positive multiple of 32 it clears the last 32 kept elements.
   * Erasing every element reaches resize(0), which masks word -1; that call
   * is not modelled.
   */
  function EraseAsWritten(t: BoolVec, first: int, last: int, s: seq<Word>): (r: BoolVec)
    requires Inv(t) && 0 <= first < last <= t.len && last - first < t.len
    requires |s| == |t.words.store| && Bools(s) == ShiftedDown(Bools(t.words.store), first, t.len - (last - first), last - first)
    requires forall x :: (t.len - (last - first)) / 32 < x < |s| ==> s[x] == t.words.store[x]
    ensures Shaped(r) && r.len == t.len - (last - first) && r.cap == t.cap
    ensures r.len % 32 != 0 ==> Contents(r) == Contents(t)[..first] + Contents(t)[last..]
    ensures r.len % 32 == 0 ==> forall i :: r.len - 32 <= i < r.len ==> !Contents(r)[i]
  {
    ErasedBits(t, first, last, s);
    var m := BoolVec(Vec(s, t.words.len), t.len, t.cap);
    var count := t.len - (last - first);
    if count % 32 != 0 then
      ResizeAsWrittenAgrees(m, count);
      ResizeAsWritten(m, count)
    else
      ResizeAsWrittenWipes(m, count);
      ResizeAsWritten(m, count)
  }

  /**
   * 32 set elements followed by a clear one: erase(end() - 1) leaves the
   * first 32 as they are, and as written element 0 then reads false; the
   * corrected erase keeps it true.
   */
  lemma EraseAsWrittenWipesKeptWord()
    ensures var t := BoolVec(Vec([0xFFFF_FFFF, 0], 2), 33, 64);
      Inv(t) && Contents(t)[0] &&
      !Contents(EraseAsWritten(t, 32, 33, t.words.store))[0] &&
      (Contents(t)[..32] + Contents(t)[33..])[0]
  {
    var t := BoolVec(Vec([0xFFFF_FFFF, 0], 2), 33, 64);
    forall i | 33 <= i < 64
      ensures !Bools(t.words.store)[i]
    {
      ZeroWordBit(t.words.store, i);
      BoolsAt(t.words.store, i);
    }
    assert Inv(t);
    assert BitOf(0xFFFF_FFFF, 0);
    BoolsAt(t.words.store, 0);
    assert Contents(t)[0];
    ShiftedDownNone(Bools(t.words.store), 32, 1);
    assert (Contents(t)[..32] + Contents(t)[33..])[0] == Contents(t)[0];
  }

  /** What a write through insert's first iterator does to the word array. */
  datatype Write = Written(words: seq<Word>) | PastWords

  /**
   * The first `*it = *(it-1)` of insert's loop as written, on t, the vector
   * after resize(len + 1): `it = end()` is element t.len, one past the last
   * element, and the write lands in word t.len / 32.
   */
  function InsertFirstCopyAsWritten(t: BoolVec): (r: Write)
    requires Shaped(t) && t.len >= 1
    ensures r == PastWords <==> t.len / 32 >= |t.words.store|
    ensures r.Written? ==>
      |r.words| == |t.words.store| && Bools(r.words) == Bools(t.words.store)[t.len := Bools(t.words.store)[t.len - 1]]
  {
    if t.len / 32 >= |t.words.store| then PastWords
    else
      BoolsCopyBit(t.words.store, t.len, t.len - 1);
      Written(SetBit(t.words.store, t.len, Bit(t.words.store, t.len - 1)))
  }

  /**
   * Vector<bool>(31) has capacity smallestPow2(31) = 32 and one word; insert
   * resizes it to 32 elements, still one word, and the loop's first write
   * goes to word 1, past the word array.
   */
  lemma InsertAsWrittenWritesPastWords()
    ensures var t := BoolVectorSpec.Resize(Init(31, 32), 32);
      t.len == 32 && |t.words.store| == 1 &&
      InsertFirstCopyAsWritten(t) == PastWords
  {
    var b := Init(31, 32);
    assert Ceil32(32) == 1;
    assert Pow2Ceil(1) == 1;
    assert b.words == Vec([0], 1);
    var w := VectorSpec.Resize(b.words, 1, 0);
    assert |w.store| == 1;
  }
}
