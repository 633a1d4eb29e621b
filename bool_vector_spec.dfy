/**
 * HW4's Vector<bool> (HW4/vector.hh, the partial specialisation), as a value:
 * a Vector<uint32_t> of words, element i being bit i % 32 of word i / 32,
 * and the size and capacity counted in elements.  Each function is what one
 * member function does to the three fields; Contents is the sequence of
 * elements the vector stands for, read as at() reads it.
 *
 * The word vector is a VectorSpec.Vec whose default element is 0; the class
 * in bool_vector.dfy holds it as a field of that value type, updated through
 * these functions.
 */
module BoolVectorSpec {
  import opened IntHelpers
  import opened VectorSpec
  import opened WordBits
  import opened Outcomes

  /** Vector<bool>'s fields `arr`, `len` and `cap`. */
  datatype BoolVec = BoolVec(words: Vec<Word>, len: int, cap: int)

  /** `ceil((double) n / 32)`: the number of words that hold n elements. */
  function Ceil32(n: int): (r: int)
    ensures n >= 0 ==> r >= 0 && n <= 32 * r < n + 32
  {
    if n <= 0 then 0 else (n + 31) / 32
  }

  /** The word vector is well formed and its allocation covers the elements at() may read. */
  predicate Shaped(b: BoolVec)
  {
    Sized(b.words) && 0 <= b.len <= 32 * |b.words.store|
  }

  /** The elements, read as at() reads them: the first len bits of the word array. */
  function Contents(b: BoolVec): (r: seq<bool>)
    requires Shaped(b)
    ensures |r| == b.len
  {
    Bools(b.words.store)[..b.len]
  }

  /**
   * The class invariant: the word vector is a clean Vector<uint32_t>, every
   * element lies in one of its words, and the bits from the size up to the
   * end of the last word are clear.
   */
  ghost predicate Inv(b: BoolVec)
  {
    Clean(b.words, 0) && 0 <= b.len <= b.cap && b.len <= 32 * b.words.len
    && forall i :: b.len <= i < 32 * b.words.len ==> !Bools(b.words.store)[i]
  }

  // ---------------------------------------------------------------------
  // Construction and access
  // ---------------------------------------------------------------------

  /** init(): no words for capacity 0, else Vector<uint32_t>(ceil(cap/32)). */
  function InitWords(cap: int): (w: Vec<Word>)
    requires cap >= 0
    ensures Clean(w, 0) && w.len == Ceil32(cap)
    ensures forall x :: 0 <= x < |w.store| ==> w.store[x] == 0
  {
    if cap == 0 then Vec([], 0) else Vec(Fill(0, Pow2Ceil(Ceil32(cap))), Ceil32(cap))
  }

  /** Vector(size, cap), and through it Vector() and Vector(size): size elements, all false. */
  function Init(size: int, cap: int): (r: BoolVec)
    requires 0 <= size <= cap
    ensures Inv(r) && r.len == size && r.cap == cap
    ensures Contents(r) == Fill(false, size)
  {
    var r := BoolVec(InitWords(cap), size, cap);
    BoolsZeroWords(r.words.store, 0, |r.words.store|);
    r
  }

  /** at(i): element i, or out_of_range from i >= len on. */
  function At(b: BoolVec, i: int): (r: Outcome<bool>)
    requires Shaped(b) && 0 <= i
    ensures i >= b.len <==> r == OutOfRange
    ensures i < b.len ==> r == Ok(Contents(b)[i])
  {
    if i >= b.len then OutOfRange
    else
      BoolsAt(b.words.store, i);
      Ok(BitOf(b.words.store[i / 32], Pos(i)))
  }

  /** `v[i] = x`: operator[] checks the index, then Bit::operator= rewrites bit i. */
  function SetAt(b: BoolVec, i: int, x: bool): (r: Outcome<BoolVec>)
    requires Inv(b) && 0 <= i
    ensures i >= b.len <==> r == OutOfRange
    ensures r.Ok? ==> Inv(r.value) && r.value.len == b.len && r.value.cap == b.cap
    ensures r.Ok? ==> Contents(r.value) == Contents(b)[i := x]
  {
    if i >= b.len then OutOfRange
    else
      var r := BoolVec(Vec(SetBit(b.words.store, i, x), b.words.len), b.len, b.cap);
      BoolsSetBit(b.words.store, i, x);
      Ok(r)
  }

  // ---------------------------------------------------------------------
  // Capacity
  // ---------------------------------------------------------------------

  /** reserve's loop: push_back(0) on the word vector until it holds target words. */
  function PadWords(w: Vec<Word>, target: int): (r: Vec<Word>)
    requires Sized(w)
    ensures Sized(r) && r.len == Max(w.len, target)
    ensures forall x :: 0 <= x < w.len ==> r.store[x] == w.store[x]
    ensures forall x :: w.len <= x < r.len ==> r.store[x] == 0
    ensures Clean(w, 0) ==> Clean(r, 0)
    decreases target - w.len
  {
    if w.len >= target then w
    else
      var p := VectorSpec.PushBack(w, 0, 0);
      PushedWords(w, p);
      PadWords(p, target)
  }

  /** push_back(0) on the word vector keeps its words and adds a zero one. */
  lemma PushedWords(w: Vec<Word>, p: Vec<Word>)
    requires Sized(w) && p == VectorSpec.PushBack(w, 0, 0)
    ensures p.len == w.len + 1 && p.store[w.len] == 0
    ensures forall x :: 0 <= x < w.len ==> p.store[x] == w.store[x]
  {
    assert Elems(p) == Elems(w) + [0];
    forall x | 0 <= x < w.len
      ensures p.store[x] == w.store[x]
    {
      assert Elems(p)[x] == Elems(w)[x];
    }
    assert Elems(p)[w.len] == 0;
  }

  /** reserve(newCap): words for newCap elements; the capacity only grows. */
  function Reserve(b: BoolVec, newCap: int): (r: BoolVec)
    requires Sized(b.words)
    ensures r.len == b.len && r.cap == Max(b.cap, newCap)
    ensures r.words.len == Max(b.words.len, Ceil32(newCap))
    ensures Inv(b) ==> Inv(r) && Contents(r) == Contents(b)
  {
    var r := BoolVec(PadWords(b.words, Ceil32(newCap)), b.len, Max(b.cap, newCap));
    PaddedBits(b, r);
    r
  }

  lemma PaddedBits(b: BoolVec, r: BoolVec)
    requires Sized(b.words) && r == BoolVec(PadWords(b.words, r.words.len), b.len, r.cap) && b.cap <= r.cap
    ensures Inv(b) ==> Inv(r) && Contents(r) == Contents(b)
  {
    if Inv(b) {
      MoreWords(b, r);
    }
  }

  /** Adding zero words after the last one keeps the elements and the invariant. */
  lemma MoreWords(b: BoolVec, r: BoolVec)
    requires Inv(b) && Sized(r.words) && r.len == b.len && b.cap <= r.cap
    requires Clean(r.words, 0) && b.words.len <= r.words.len
    requires forall x :: 0 <= x < b.words.len ==> r.words.store[x] == b.words.store[x]
    requires forall x :: b.words.len <= x < r.words.len ==> r.words.store[x] == 0
    ensures Inv(r) && Contents(r) == Contents(b)
  {
    BoolsSameWords(r.words.store, b.words.store, b.words.len);
    BoolsZeroWords(r.words.store, b.words.len, r.words.len);
    assert Contents(r) == Contents(b) by {
      forall k | 0 <= k < b.len
        ensures Contents(r)[k] == Contents(b)[k]
      {
      }
    }
  }

  /** shrink_to_fit(): the capacity becomes the size; words past ceil(len/32) are erased. */
  function ShrinkToFit(b: BoolVec): (r: BoolVec)
    requires Inv(b)
    ensures Inv(r) && r.len == b.len && r.cap == b.len
    ensures r.words.len == Ceil32(b.len)
    ensures Contents(r) == Contents(b)
  {
    var w := VectorSpec.Erase(b.words, Ceil32(b.len), b.words.len, 0);
    var r := BoolVec(w, b.len, b.len);
    ShrunkBits(b, w, r);
    r
  }

  lemma ShrunkBits(b: BoolVec, w: Vec<Word>, r: BoolVec)
    requires Inv(b) && w == VectorSpec.Erase(b.words, Ceil32(b.len), b.words.len, 0)
    requires r == BoolVec(w, b.len, b.len)
    ensures Inv(r) && r.words.len == Ceil32(b.len) && Contents(r) == Contents(b)
  {
    assert w.len == Ceil32(b.len) by {
      if Ceil32(b.len) < b.words.len {
        assert |Elems(w)| == Ceil32(b.len);
      }
    }
    forall x | 0 <= x < w.len
      ensures w.store[x] == b.words.store[x]
    {
      if Ceil32(b.len) < b.words.len {
        assert Elems(w)[x] == Elems(b.words)[x];
      }
    }
    BoolsSameWords(w.store, b.words.store, w.len);
    assert Contents(r) == Contents(b) by {
      forall k | 0 <= k < b.len
        ensures Contents(r)[k] == Contents(b)[k]
      {
      }
    }
  }

  // ---------------------------------------------------------------------
  // Size
  // ---------------------------------------------------------------------

  /**
   * resize(count): the word vector is resized to ceil(count/32) words and,
   * when the vector shrinks, the bits from count to the end of count's word
   * are cleared.  Only a count inside a word leaves such bits, so the mask
   * is applied when count % 32 != 0 (ResizeAsWritten is the code as written).
   */
  function Resize(b: BoolVec, count: int): (r: BoolVec)
    requires Inv(b) && count >= 0
    ensures Inv(r) && r.len == count && r.cap == Max(b.cap, count)
    ensures r.words.len == Ceil32(count)
    ensures Contents(r) == if count <= b.len then Contents(b)[..count]
                           else Contents(b) + Fill(false, count - b.len)
  {
    var w := VectorSpec.Resize(b.words, Ceil32(count), 0);
    ResizedBools(b, count, w);
    var s := if count < b.len && count % 32 != 0 then ClearFrom(w.store, count) else w.store;
    ResizeMasked(b, count, w, s);
    var r := BoolVec(Vec(s, w.len), count, Max(b.cap, count));
    ResizeBits(b, count, r);
    r
  }

  /** The words kept by VectorSpec.Resize are the old ones, the added ones are 0. */
  lemma ResizedWords(v: Vec<Word>, n: nat, w: Vec<Word>)
    requires Clean(v, 0) && w == VectorSpec.Resize(v, n, 0)
    ensures Clean(w, 0) && w.len == n
    ensures forall x :: 0 <= x < Min(n, v.len) ==> w.store[x] == v.store[x]
    ensures forall x :: v.len <= x < n ==> w.store[x] == 0
  {
    forall x | 0 <= x < Min(n, v.len)
      ensures w.store[x] == v.store[x]
    {
      assert Elems(w)[..Min(n, v.len)][x] == Elems(v)[..Min(n, v.len)][x];
    }
    forall x | v.len <= x < n
      ensures w.store[x] == 0
    {
      assert Elems(w)[x] == 0;
    }
  }

  /** Every bit of the resized word vector is an old element or clear. */
  lemma ResizedBools(b: BoolVec, count: int, w: Vec<Word>)
    requires Inv(b) && count >= 0 && w == VectorSpec.Resize(b.words, Ceil32(count), 0)
    ensures Clean(w, 0) && w.len == Ceil32(count)
    ensures forall i :: 0 <= i < 32 * w.len ==> Bools(w.store)[i] == (i < b.len && Bools(b.words.store)[i])
  {
    ResizedWords(b.words, Ceil32(count), w);
    var m := Min(Ceil32(count), b.words.len);
    BoolsSameWords(w.store, b.words.store, m);
    BoolsZeroWords(w.store, m, w.len);
  }

  /** After the mask, the bits of the word vector are the old elements below count. */
  lemma ResizeMasked(b: BoolVec, count: int, w: Vec<Word>, s: seq<Word>)
    requires Inv(b) && count >= 0 && Clean(w, 0) && w.len == Ceil32(count)
    requires forall i :: 0 <= i < 32 * w.len ==> Bools(w.store)[i] == (i < b.len && Bools(b.words.store)[i])
    requires s == if count < b.len && count % 32 != 0 then ClearFrom(w.store, count) else w.store
    ensures |s| == |w.store|
    ensures forall i :: 0 <= i < 32 * w.len ==> Bools(s)[i] == (i < count && i < b.len && Bools(b.words.store)[i])
  {
    if count < b.len && count % 32 != 0 {
      BoolsClearFrom(w.store, count);
    }
  }

  /** A word vector holding exactly the old elements below count is their resize. */
  lemma ResizeBits(b: BoolVec, count: int, r: BoolVec)
    requires Inv(b) && count >= 0 && r.len == count && r.cap == Max(b.cap, count)
    requires Clean(r.words, 0) && r.words.len == Ceil32(count)
    requires forall i :: 0 <= i < 32 * r.words.len ==>
      Bools(r.words.store)[i] == (i < count && i < b.len && Bools(b.words.store)[i])
    ensures Inv(r)
    ensures Contents(r) == if count <= b.len then Contents(b)[..count]
                           else Contents(b) + Fill(false, count - b.len)
  {
    var u := Bools(r.words.store);
    FromView(r, u);
    var expected := if count <= b.len then Contents(b)[..count] else Contents(b) + Fill(false, count - b.len);
    forall k | 0 <= k < count
      ensures u[k] == expected[k]
    {
    }
  }

  /** clear(): resize(0). */
  function Clear(b: BoolVec): (r: BoolVec)
    requires Inv(b)
    ensures Inv(r) && Contents(r) == [] && r.cap == b.cap
  {
    Resize(b, 0)
  }

  // ---------------------------------------------------------------------
  // push_back, insert and erase
  // ---------------------------------------------------------------------

  /** push_back's growth loop: reserve(max(1, cap << 1)) while len >= cap. */
  function Grown(b: BoolVec): (r: BoolVec)
    requires Sized(b.words) && 0 <= b.cap
    ensures r.len == b.len < r.cap && 0 <= r.cap
    ensures Inv(b) ==> Inv(r) && Contents(r) == Contents(b)
    ensures Inv(b) ==> r.cap == if b.len < b.cap then b.cap else Max(1, 2 * b.cap)
    decreases b.len - b.cap + 1
  {
    if b.len >= b.cap then Grown(Reserve(b, Max(1, 2 * b.cap))) else b
  }

  /**
   * push_back(x) with a word for bit len: the code as written ORs x into
   * word len/32 even when the word vector holds only len/32 words (see
   * PushBackAsWritten); here such a word is pushed first.
   */
  function PushBack(b: BoolVec, x: bool): (r: BoolVec)
    requires Inv(b)
    ensures Inv(r) && Contents(r) == Contents(b) + [x]
    ensures r.cap == if b.len < b.cap then b.cap else Max(1, 2 * b.cap)
  {
    var g := Grown(b);
    var w := if g.len / 32 >= g.words.len then VectorSpec.PushBack(g.words, 0, 0) else g.words;
    var r := BoolVec(Vec(OrBit(w.store, g.len, x), w.len), g.len + 1, g.cap);
    PushBackBits(g, w, x, r);
    r
  }

  lemma PushBackBits(g: BoolVec, w: Vec<Word>, x: bool, r: BoolVec)
    requires Inv(g) && g.len < g.cap
    requires w == if g.len / 32 >= g.words.len then VectorSpec.PushBack(g.words, 0, 0) else g.words
    requires r == BoolVec(Vec(OrBit(w.store, g.len, x), w.len), g.len + 1, g.cap)
    ensures Inv(r) && Contents(r) == Contents(g) + [x]
  {
    var t := BoolVec(w, g.len, g.cap);
    if g.len / 32 >= g.words.len {
      PushedWords(g.words, w);
      MoreWords(g, t);
    }
    AppendBit(t, x, r);
  }

  /** OR-ing x into the first clear bit past the size appends x. */
  lemma AppendBit(t: BoolVec, x: bool, r: BoolVec)
    requires Inv(t) && t.len < t.cap && t.len < 32 * t.words.len
    requires r == BoolVec(Vec(OrBit(t.words.store, t.len, x), t.words.len), t.len + 1, t.cap)
    ensures Inv(r) && Contents(r) == Contents(t) + [x]
  {
    var v := Bools(t.words.store);
    assert !v[t.len];
    BoolsOrBit(t.words.store, t.len, x);
    var u := v[t.len := x];
    FromView(r, u);
    assert u[..t.len + 1] == v[..t.len] + [x];
  }

  /** A vector whose bits past the size are clear satisfies Inv, and its elements are the first len bits. */
  lemma FromView(b: BoolVec, u: seq<bool>)
    requires Clean(b.words, 0) && 0 <= b.len <= b.cap && b.len <= 32 * b.words.len
    requires u == Bools(b.words.store)
    requires forall i :: b.len <= i < |u| ==> !u[i]
    ensures Inv(b) && Contents(b) == u[..b.len]
  {
  }

  // ---------------------------------------------------------------------
  // The shifting loops of insert and erase, on the elements
  // ---------------------------------------------------------------------

  /**
   * insert's loop `*it = *(it-1)`, run from top down to i + 1: every
   * element in (i, top] holds its predecessor, the others are as in v.
   */
  function ShiftedUp(v: seq<bool>, i: int, top: int): (r: seq<bool>)
    requires 0 <= i
    ensures |r| == |v|
  {
    seq(|v|, j requires 0 <= j < |v| => if i < j <= top then v[j - 1] else v[j])
  }

  /** Before the first iteration nothing has moved. */
  lemma ShiftedUpNone(v: seq<bool>, top: int)
    requires 0 <= top
    ensures ShiftedUp(v, top, top) == v
  {
  }

  /** One more iteration copies element i - 1 to element i. */
  lemma ShiftedUpStep(v: seq<bool>, i: int, top: int)
    requires 0 < i <= top < |v|
    ensures ShiftedUp(v, i, top)[i := ShiftedUp(v, i, top)[i - 1]] == ShiftedUp(v, i - 1, top)
  {
  }

  /** One iteration of insert's loop on the words: bit i takes bit i - 1. */
  lemma ShiftUpWords(s: seq<Word>, v: seq<bool>, i: int, top: int)
    requires 0 < i <= top < |v| && |v| == 32 * |s| && Bools(s) == ShiftedUp(v, i, top)
    ensures Bools(SetBit(s, i, Bit(s, i - 1))) == ShiftedUp(v, i - 1, top)
  {
    BoolsCopyBit(s, i, i - 1);
    ShiftedUpStep(v, i, top);
  }

  /**
   * After resize(n + 1) the elements are c + [false]; shifting (pos, n]
   * up and writing x at pos inserts x at pos and keeps the clear tail.
   */
  lemma InsertSeq(v: seq<bool>, pos: int, n: int, x: bool, c: seq<bool>)
    requires 0 <= pos <= n < |v| && v[..n + 1] == c + [false]
    requires forall i :: n < i < |v| ==> !v[i]
    ensures ShiftedUp(v, pos, n)[pos := x][..n + 1] == c[..pos] + [x] + c[pos..]
    ensures forall i :: n + 1 <= i < |v| ==> !ShiftedUp(v, pos, n)[i]
  {
    var u := ShiftedUp(v, pos, n)[pos := x];
    var expected := c[..pos] + [x] + c[pos..];
    assert |c| == n;
    forall j | 0 <= j <= n
      ensures u[j] == expected[j]
    {
      if pos < j {
        assert v[..n + 1][j - 1] == c[j - 1];
        assert expected[j] == c[pos..][j - 1 - pos];
      } else if j < pos {
        assert v[..n + 1][j] == c[j];
        assert expected[j] == c[..pos][j];
      }
    }
  }

  /**
   * Insert on the fields: t is the vector after resize(len + 1), so its
   * elements are c + [false]; s is its word array with (pos, len - 1]
   * shifted up, and x written at pos gives the elements c with x at pos.
   */
  lemma InsertedBits(t: BoolVec, pos: int, x: bool, c: seq<bool>, s: seq<Word>)
    requires Inv(t) && Contents(t) == c + [false] && 0 <= pos <= |c|
    requires |s| == |t.words.store| && Bools(s) == ShiftedUp(Bools(t.words.store), pos, t.len - 1)
    requires forall x :: (t.len - 1) / 32 < x < |s| ==> s[x] == t.words.store[x]
    ensures Inv(BoolVec(Vec(SetBit(s, pos, x), t.words.len), t.len, t.cap))
    ensures Contents(BoolVec(Vec(SetBit(s, pos, x), t.words.len), t.len, t.cap)) == c[..pos] + [x] + c[pos..]
  {
    var v := Bools(t.words.store);
    assert v[..t.len] == c + [false];
    assert (t.len - 1) / 32 < t.words.len;
    BoolsSetBit(s, pos, x);
    InsertSeq(v, pos, t.len - 1, x, c);
    FromView(BoolVec(Vec(SetBit(s, pos, x), t.words.len), t.len, t.cap), Bools(SetBit(s, pos, x)));
  }

  /**
   * erase's loop `*first = *(first+n); first++`, run from first up to
   * i - 1: every element in [first, i) holds the element n places above it.
   */
  function ShiftedDown(v: seq<bool>, first: int, i: int, n: int): (r: seq<bool>)
    requires 0 <= first && 0 < n && i + n <= |v|
    ensures |r| == |v|
  {
    seq(|v|, j requires 0 <= j < |v| => if first <= j < i then v[j + n] else v[j])
  }

  lemma ShiftedDownNone(v: seq<bool>, first: int, n: int)
    requires 0 <= first && 0 < n && first + n <= |v|
    ensures ShiftedDown(v, first, first, n) == v
  {
  }

  lemma ShiftedDownStep(v: seq<bool>, first: int, i: int, n: int)
    requires 0 <= first <= i && 0 < n && i + 1 + n <= |v|
    ensures ShiftedDown(v, first, i, n)[i := ShiftedDown(v, first, i, n)[i + n]] == ShiftedDown(v, first, i + 1, n)
  {
  }

  /** One iteration of erase's loop on the words: bit i takes bit i + n. */
  lemma ShiftDownWords(s: seq<Word>, v: seq<bool>, first: int, i: int, n: int)
    requires 0 <= first <= i && 0 < n && i + 1 + n <= |v| && |v| == 32 * |s|
    requires Bools(s) == ShiftedDown(v, first, i, n)
    ensures Bools(SetBit(s, i, Bit(s, i + n))) == ShiftedDown(v, first, i + 1, n)
  {
    BoolsCopyBit(s, i, i + n);
    ShiftedDownStep(v, first, i, n);
  }

  /**
   * With the elements c in the first stop + n bits and clear bits after
   * them, shifting [first, stop) down by n leaves c without [first, first + n)
   * in the first stop bits and keeps the clear tail.
   */
  lemma EraseSeq(v: seq<bool>, first: int, n: int, stop: int, c: seq<bool>)
    requires 0 <= first <= stop && 0 < n && stop + n <= |v| && v[..stop + n] == c
    requires forall i :: stop + n <= i < |v| ==> !v[i]
    ensures ShiftedDown(v, first, stop, n)[..stop] == c[..first] + c[first + n..]
    ensures forall i :: stop + n <= i < |v| ==> !ShiftedDown(v, first, stop, n)[i]
  {
    var u := ShiftedDown(v, first, stop, n);
    var expected := c[..first] + c[first + n..];
    forall j | 0 <= j < stop
      ensures u[j] == expected[j]
    {
      if first <= j {
        assert v[..stop + n][j + n] == c[j + n];
      } else {
        assert v[..stop + n][j] == c[j];
      }
    }
  }

  /**
   * erase(first, last) on the fields: s is t's word array with
   * [first, len - n) shifted down by n = last - first; resize(len - n) then
   * leaves t's elements without [first, last).
   */
  lemma ErasedBits(t: BoolVec, first: int, last: int, s: seq<Word>)
    requires Inv(t) && 0 <= first < last <= t.len
    requires |s| == |t.words.store| && Bools(s) == ShiftedDown(Bools(t.words.store), first, t.len - (last - first), last - first)
    requires forall x :: (t.len - (last - first)) / 32 < x < |s| ==> s[x] == t.words.store[x]
    ensures Inv(BoolVec(Vec(s, t.words.len), t.len, t.cap))
    ensures Contents(Resize(BoolVec(Vec(s, t.words.len), t.len, t.cap), t.len - (last - first)))
      == Contents(t)[..first] + Contents(t)[last..]
  {
    var n := last - first;
    var v := Bools(t.words.store);
    var c := Contents(t);
    var m := BoolVec(Vec(s, t.words.len), t.len, t.cap);
    assert (t.len - n) / 32 < t.words.len;
    EraseSeq(v, first, n, t.len - n, c);
    FromView(m, Bools(s));
    assert Bools(s)[..t.len][..t.len - n] == Bools(s)[..t.len - n];
    assert first + n == last;
  }
}
