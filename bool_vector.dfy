/**
 * HW4's Vector<bool> (HW4/vector.hh) as an object: the fields `arr`, `len`
 * and `cap` of the C++ class.  `arr` is a Vector<uint32_t> held by value; it
 * is kept here as its VectorSpec.Vec value (the storage the VectorBase class
 * of base_vector.dfy is proved to follow), and the calls the C++ code makes
 * on it are the matching VectorSpec functions.
 *
 * Every method keeps the invariant BoolVectorSpec.Inv.  The methods without
 * a loop of their own, and reserve and push_back whose loops are proved to
 * compute the recursive functions PadWords and Grown, end in the state the
 * matching function of BoolVectorSpec gives; insert and erase shift bits in
 * loops and are specified by the elements they leave.
 */
module BoolVector {
  import opened IntHelpers
  import opened VectorSpec
  import opened WordBits
  import opened Outcomes
  import opened BoolVectorSpec

  class VectorBool {
    /** The word vector `arr`: element i is bit i % 32 of word i / 32. */
    var words: Vec<Word>
    var len: int
    var cap: int

    function State(): BoolVec
      reads this
    {
      BoolVec(words, len, cap)
    }

    ghost predicate Valid()
      reads this
    {
      Inv(State())
    }

    /** The elements, as at() reads them. */
    function Elements(): (r: seq<bool>)
      reads this
      requires Valid()
      ensures |r| == len
    {
      Contents(State())
    }

    /** Vector(size, cap); Vector() is Vector(0, 0) and Vector(size) is Vector(size, smallestPow2(size)). */
    constructor (size: int, capacity: int)
      requires 0 <= size <= capacity
      ensures Valid() && State() == Init(size, capacity)
    {
      words, len, cap := InitWords(capacity), size, capacity;
      var r := Init(size, capacity);
    }

    /** operator[](i) followed by Bit::operator=(x); `thrown` is the out_of_range exception. */
    method Set(i: int, x: bool) returns (thrown: bool)
      requires Valid() && 0 <= i
      modifies this
      ensures SetAt(old(State()), i, x) == if thrown then OutOfRange else Ok(State())
    {
      if i >= len {
        return true;
      }
      words := Vec(SetBit(words.store, i, x), words.len);
      thrown := false;
    }

    /** reserve(newCap): push_back(0) on the word vector up to ceil(newCap/32) words. */
    method Reserve(newCap: int)
      requires Valid()
      modifies this
      ensures State() == BoolVectorSpec.Reserve(old(State()), newCap)
    {
      var target := Ceil32(newCap);
      var i := words.len;
      while i < target
        invariant Sized(words) && i == words.len && len == old(len) && cap == old(cap)
        invariant PadWords(words, target) == PadWords(old(words), target)
        decreases target - i
      {
        PushedWords(words, VectorSpec.PushBack(words, 0, 0));
        words := VectorSpec.PushBack(words, 0, 0);
        i := i + 1;
      }
      assert PadWords(words, target) == words;
      cap := Max(cap, newCap);
    }

    /** shrink_to_fit(): cap = len, then the words past ceil(cap/32) are erased. */
    method ShrinkToFit()
      requires Valid()
      modifies this
      ensures State() == BoolVectorSpec.ShrinkToFit(old(State()))
    {
      cap := len;
      words := VectorSpec.Erase(words, Ceil32(cap), words.len, 0);
    }

    /** resize(count). */
    method Resize(count: int)
      requires Valid() && count >= 0
      modifies this
      ensures State() == BoolVectorSpec.Resize(old(State()), count)
    {
      words := VectorSpec.Resize(words, Ceil32(count), 0);
      if count < len && count % 32 != 0 {
        words := Vec(ClearFrom(words.store, count), words.len);
      }
      len := count;
      cap := Max(cap, count);
    }

    /** clear(): resize(0). */
    method Clear()
      requires Valid()
      modifies this
      ensures State() == BoolVectorSpec.Clear(old(State()))
    {
      Resize(0);
    }

    /** push_back(x): reserve(max(1, cap << 1)) while len >= cap, then OR x into bit len. */
    method PushBack(x: bool)
      requires Valid()
      modifies this
      ensures State() == BoolVectorSpec.PushBack(old(State()), x)
    {
      while len >= cap
        invariant Valid() && Grown(State()) == Grown(old(State()))
        decreases len - cap
      {
        Reserve(Max(1, 2 * cap));
      }
      if len / 32 >= words.len {
        words := VectorSpec.PushBack(words, 0, 0);
      }
      words := Vec(OrBit(words.store, len, x), words.len);
      len := len + 1;
    }

    /**
     * insert(pos, x): resize(len + 1), then `*it = *(it-1)` from the last
     * element down to pos + 1, then `*pos = x`.
     */
    method Insert(pos: int, x: bool)
      requires Valid() && 0 <= pos <= len
      modifies this
      ensures Valid() && len == old(len) + 1 && cap == Max(old(cap), old(len) + 1)
      ensures words.len == Ceil32(len)
      ensures Elements() == old(Elements())[..pos] + [x] + old(Elements())[pos..]
    {
      ghost var c := Elements();
      Resize(len + 1);
      assert Fill(false, 1) == [false];
      var s := MoveUp(words.store, pos, len - 1);
      InsertedBits(State(), pos, x, c, s);
      words := Vec(SetBit(s, pos, x), words.len);
    }

    /**
     * erase(first, last): with n = last - first > 0, `*first = *(first+n)`
     * while first < len - n, then resize(len - n).
     */
    method Erase(first: int, last: int)
      requires Valid() && 0 <= first <= len && 0 <= last <= len
      modifies this
      ensures Valid() && cap == old(cap)
      ensures first >= last ==> State() == old(State())
      ensures first < last ==> len == old(len) - (last - first) && words.len == Ceil32(len)
      ensures first < last ==> Elements() == old(Elements())[..first] + old(Elements())[last..]
    {
      var n := last - first;
      if n <= 0 {
        return;
      }
      var s := MoveDown(words.store, first, len - n, n);
      ErasedBits(State(), first, last, s);
      words := Vec(s, words.len);
      Resize(len - n);
    }

    /** erase(pos): erase(pos, pos + 1). */
    method EraseAt(pos: int)
      requires Valid() && 0 <= pos < len
      modifies this
      ensures Valid() && cap == old(cap) && len == old(len) - 1
      ensures Elements() == old(Elements())[..pos] + old(Elements())[pos + 1..]
    {
      Erase(pos, pos + 1);
    }
  }

  /**
   * insert's loop on the word array: `*it = *(it-1)` for it from top down
   * to pos + 1, each assignment through Bit::operator=.
   */
  method MoveUp(s: seq<Word>, pos: int, top: int) returns (r: seq<Word>)
    requires 0 <= pos <= top < 32 * |s|
    ensures |r| == |s| && Bools(r) == ShiftedUp(Bools(s), pos, top)
    ensures forall x :: top / 32 < x < |s| ==> r[x] == s[x]
  {
    ghost var v := Bools(s);
    ShiftedUpNone(v, top);
    r := s;
    var i := top;
    while i > pos
      invariant pos <= i <= top && |r| == |s| && Bools(r) == ShiftedUp(v, i, top)
      invariant forall x :: top / 32 < x < |s| ==> r[x] == s[x]
    {
      ShiftUpWords(r, v, i, top);
      r := SetBit(r, i, Bit(r, i - 1));
      i := i - 1;
    }
  }

  /**
   * erase's loop on the word array: `*first = *(first+n)` for first from
   * first up to stop - 1.
   */
  method MoveDown(s: seq<Word>, first: int, stop: int, n: int) returns (r: seq<Word>)
    requires 0 <= first <= stop && 0 < n && stop + n <= 32 * |s|
    ensures |r| == |s| && Bools(r) == ShiftedDown(Bools(s), first, stop, n)
    ensures forall x :: stop / 32 < x < |s| ==> r[x] == s[x]
  {
    ghost var v := Bools(s);
    ShiftedDownNone(v, first, n);
    r := s;
    var i := first;
    while i < stop
      invariant first <= i <= stop && |r| == |s| && Bools(r) == ShiftedDown(v, first, i, n)
      invariant forall x :: stop / 32 < x < |s| ==> r[x] == s[x]
    {
      ShiftDownWords(r, v, first, i, n);
      r := SetBit(r, i, Bit(r, i + n));
      i := i + 1;
    }
  }
}
