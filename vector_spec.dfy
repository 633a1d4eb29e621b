/**
 * The storage of the hand-rolled vectors of HW2, HW3 and HW4 (vector.hh), as
 * a value: `store` is the whole allocation, so its length is the capacity,
 * and the first `len` slots are the elements.  Each function below is what
 * one mutation method does to the storage; the classes in base_vector.dfy
 * and simple_vector.dfy are proved to follow them.
 *
 * `d` stands for the value-initialised element `T()`, which C++ writes into
 * every slot that is not an element.
 */
module VectorSpec {
  import opened IntHelpers

  datatype Vec<T> = Vec(store: seq<T>, len: int)

  /** The size lies within the capacity. */
  predicate Sized<T>(v: Vec<T>)
  {
    0 <= v.len <= |v.store|
  }

  /** Every slot from the size up to the capacity holds T(). */
  ghost predicate Clean<T>(v: Vec<T>, d: T)
  {
    Sized(v) && forall i :: v.len <= i < |v.store| ==> v.store[i] == d
  }

  /** The elements: the first `len` slots. */
  function Elems<T>(v: Vec<T>): seq<T>
    requires Sized(v)
  {
    v.store[..v.len]
  }

  function Capacity<T>(v: Vec<T>): nat
  {
    |v.store|
  }

  function Max(a: int, b: int): int
  {
    if a < b then b else a
  }

  function Min(a: int, b: int): int
  {
    if a < b then a else b
  }

  /** n copies of d. */
  function Fill<T>(d: T, n: nat): (r: seq<T>)
    ensures |r| == n && forall i :: 0 <= i < n ==> r[i] == d
  {
    seq(n, _ => d)
  }

  /** `realloc` to newCap slots followed by the loop that writes T() from the old capacity on. */
  function Realloc<T>(store: seq<T>, newCap: nat, d: T): (r: seq<T>)
    ensures |r| == newCap
    ensures forall i :: 0 <= i < newCap ==> r[i] == (if i < |store| then store[i] else d)
  {
    if newCap <= |store| then store[..newCap] else store + Fill(d, newCap - |store|)
  }

  /** Slots in [lo, hi) overwritten with d. */
  function ClearRange<T>(s: seq<T>, lo: int, hi: int, d: T): (r: seq<T>)
    ensures |r| == |s|
    ensures forall i :: 0 <= i < |s| ==> r[i] == (if lo <= i < hi then d else s[i])
  {
    seq(|s|, i requires 0 <= i < |s| => if lo <= i < hi then d else s[i])
  }

  // ---------------------------------------------------------------------
  // Operations of VectorBase (HW3, HW4); HW2 differs only where noted
  // ---------------------------------------------------------------------

  /** reinit(newCap): a reallocation that keeps the elements when they fit. */
  function Reinit<T>(v: Vec<T>, newCap: nat, d: T): (r: Vec<T>)
    ensures Capacity(r) == newCap && r.len == v.len
    ensures Sized(v) && v.len <= newCap ==> Sized(r) && Elems(r) == Elems(v)
    ensures Clean(v, d) && v.len <= newCap ==> Clean(r, d)
  {
    Vec(Realloc(v.store, newCap, d), v.len)
  }

  /** reserve(n): reallocates only when n exceeds the capacity. */
  function Reserve<T>(v: Vec<T>, n: int, d: T): (r: Vec<T>)
    requires Sized(v)
    ensures Sized(r) && Elems(r) == Elems(v)
    ensures Capacity(r) == Max(Capacity(v), n)
    ensures Clean(v, d) ==> Clean(r, d)
  {
    if n > |v.store| then Reinit(v, n, d) else v
  }

  /** shrink_to_fit(): reallocates to exactly the size. */
  function ShrinkToFit<T>(v: Vec<T>, d: T): (r: Vec<T>)
    requires Sized(v)
    ensures Sized(r) && Elems(r) == Elems(v)
    ensures Capacity(r) == v.len
    ensures Clean(v, d) ==> Clean(r, d)
  {
    if |v.store| > v.len then Reinit(v, v.len, d) else v
  }

  /**
   * resize(count): grows to the least power of two >= count when count
   * exceeds the capacity, then writes T() over the dropped slots [count, len).
   */
  function Resize<T>(v: Vec<T>, count: nat, d: T): (r: Vec<T>)
    requires Sized(v)
    ensures Sized(r) && r.len == count
    ensures Capacity(r) == if count > Capacity(v) then Pow2Ceil(count) else Capacity(v)
    ensures Elems(r)[..Min(count, v.len)] == Elems(v)[..Min(count, v.len)]
    ensures Clean(v, d) ==> Clean(r, d) && forall i :: v.len <= i < count ==> Elems(r)[i] == d
  {
    var w := if count > |v.store| then Reinit(v, Pow2Ceil(count), d) else v;
    Vec(ClearRange(w.store, count, v.len, d), count)
  }

  /** clear(): resize(0). */
  function Clear<T>(v: Vec<T>, d: T): (r: Vec<T>)
    requires Sized(v)
    ensures Sized(r) && r.len == 0 && Capacity(r) == Capacity(v)
    ensures Clean(v, d) ==> Clean(r, d)
  {
    Resize(v, 0, d)
  }

  /** The store after push_back's growth loop: one doubling of max(1, cap) when full. */
  function Grow<T>(v: Vec<T>, d: T): (r: Vec<T>)
    requires Sized(v)
    ensures Sized(r) && Elems(r) == Elems(v) && r.len < Capacity(r)
    ensures Capacity(r) == if v.len < Capacity(v) then Capacity(v) else 2 * Max(1, Capacity(v))
    ensures Clean(v, d) ==> Clean(r, d)
  {
    if v.len >= |v.store| then Reinit(v, 2 * Max(1, |v.store|), d) else v
  }

  /** `arr[len++] = x` once there is room. */
  function Append<T>(w: Vec<T>, x: T): (r: Vec<T>)
    requires 0 <= w.len < |w.store|
    ensures Sized(r) && Elems(r) == Elems(w) + [x] && Capacity(r) == Capacity(w)
  {
    Vec(w.store[w.len := x], w.len + 1)
  }

  /** push_back(x). */
  function PushBack<T>(v: Vec<T>, x: T, d: T): (r: Vec<T>)
    requires Sized(v)
    ensures Sized(r) && Elems(r) == Elems(v) + [x]
    ensures Capacity(r) == if v.len < Capacity(v) then Capacity(v) else 2 * Max(1, Capacity(v))
    ensures Clean(v, d) ==> Clean(r, d)
  {
    AppendClean(Grow(v, d), x, d);
    Append(Grow(v, d), x)
  }

  lemma AppendClean<T>(w: Vec<T>, x: T, d: T)
    requires 0 <= w.len < |w.store|
    ensures Clean(w, d) ==> Clean(Append(w, x), d)
  {
  }

  /**
   * The shifting loop of insert(pos, x), run after the last element has been
   * pushed again: slots [pos, len-1) move up by one and x lands at pos.
   */
  function ShiftIn<T>(w: Vec<T>, pos: int, x: T): (r: Vec<T>)
    requires Sized(w) && 0 <= pos < w.len
    ensures Sized(r) && r.len == w.len && Capacity(r) == Capacity(w)
    ensures r.store[w.len..] == w.store[w.len..]
  {
    Vec(w.store[..pos] + [x] + w.store[pos..w.len - 1] + w.store[w.len..], w.len)
  }

  /** A store that agrees slot by slot with ShiftIn is ShiftIn's store. */
  lemma ShiftInSlots<T>(a: seq<T>, w: Vec<T>, pos: int, x: T)
    requires Sized(w) && 0 <= pos < w.len && |a| == |w.store|
    requires a[pos] == x
    requires forall j :: 0 <= j < pos ==> a[j] == w.store[j]
    requires forall j :: pos < j < w.len ==> a[j] == w.store[j - 1]
    requires forall j :: w.len <= j < |a| ==> a[j] == w.store[j]
    ensures a == ShiftIn(w, pos, x).store
  {
  }

  /** insert(pos, x): needs a last element to copy. */
  function Insert<T>(v: Vec<T>, pos: int, x: T, d: T): (r: Vec<T>)
    requires Sized(v) && 1 <= v.len && 0 <= pos <= v.len
    ensures Sized(r) && Elems(r) == Elems(v)[..pos] + [x] + Elems(v)[pos..]
    ensures Capacity(r) == Capacity(PushBack(v, x, d))
    ensures Clean(v, d) ==> Clean(r, d)
  {
    var w := PushBack(v, v.store[v.len - 1], d);
    InsertElems(v, w, pos, x);
    ShiftIn(w, pos, x)
  }

  lemma InsertElems<T>(v: Vec<T>, w: Vec<T>, pos: int, x: T)
    requires Sized(v) && 1 <= v.len && 0 <= pos <= v.len
    requires Sized(w) && Elems(w) == Elems(v) + [v.store[v.len - 1]]
    ensures Elems(ShiftIn(w, pos, x)) == Elems(v)[..pos] + [x] + Elems(v)[pos..]
  {
    var r := ShiftIn(w, pos, x);
    assert Elems(r) == w.store[..pos] + [x] + w.store[pos..v.len];
    assert w.store[..pos] == Elems(v)[..pos];
    assert w.store[pos..v.len] == Elems(v)[pos..];
  }

  /** The shifting loop of erase: slots [first + n, len) move down by n. */
  function ShiftOut<T>(v: Vec<T>, first: int, n: int): (r: Vec<T>)
    requires Sized(v) && 0 <= first && 0 < n && first + n <= v.len
    ensures Sized(r) && r.len == v.len && Capacity(r) == Capacity(v)
    ensures r.store[v.len..] == v.store[v.len..]
    ensures Elems(r)[..v.len - n] == Elems(v)[..first] + Elems(v)[first + n..]
  {
    var r := Vec(v.store[..first] + v.store[first + n..v.len] + v.store[v.len - n..], v.len);
    assert Elems(r)[..v.len - n] == v.store[..first] + v.store[first + n..v.len];
    r
  }

  /** A store that agrees slot by slot with ShiftOut is ShiftOut's store. */
  lemma ShiftOutSlots<T>(a: seq<T>, v: Vec<T>, first: int, n: int)
    requires Sized(v) && 0 <= first && 0 < n && first + n <= v.len && |a| == |v.store|
    requires forall j :: 0 <= j < first ==> a[j] == v.store[j]
    requires forall j :: first <= j < v.len - n ==> a[j] == v.store[j + n]
    requires forall j :: v.len - n <= j < |a| ==> a[j] == v.store[j]
    ensures a == ShiftOut(v, first, n).store
  {
  }

  /**
   * erase(first, last): removes the slots [first, last); an empty or
   * reversed range changes nothing.
   */
  function Erase<T>(v: Vec<T>, first: int, last: int, d: T): (r: Vec<T>)
    requires Sized(v) && 0 <= first <= v.len && 0 <= last <= v.len
    ensures first >= last ==> r == v
    ensures Sized(r) && Capacity(r) == Capacity(v)
    ensures first < last ==> Elems(r) == Elems(v)[..first] + Elems(v)[last..]
    ensures Clean(v, d) ==> Clean(r, d)
  {
    var n := last - first;
    if n <= 0 then v
    else
      var s := ShiftOut(v, first, n);
      var r := Resize(s, v.len - n, d);
      assert Clean(v, d) ==> Clean(s, d);
      r
  }

  // ---------------------------------------------------------------------
  // HW2's Vector: reinit never allocates zero slots and push_back doubles cap
  // ---------------------------------------------------------------------

  /** HW2 reinit(newCap): a request for 0 slots allocates 1. */
  function Reinit2<T>(v: Vec<T>, newCap: nat, d: T): (r: Vec<T>)
    ensures Capacity(r) == Max(1, newCap) && r.len == v.len
    ensures Sized(v) && v.len <= newCap ==> Sized(r) && Elems(r) == Elems(v)
    ensures Clean(v, d) && v.len <= newCap ==> Clean(r, d)
  {
    Reinit(v, if newCap == 0 then 1 else newCap, d)
  }

  /** HW2 shrink_to_fit(): an empty vector with slots keeps one slot. */
  function ShrinkToFit2<T>(v: Vec<T>, d: T): (r: Vec<T>)
    requires Sized(v)
    ensures Sized(r) && Elems(r) == Elems(v)
    ensures Capacity(r) == if Capacity(v) > v.len then Max(1, v.len) else v.len
    ensures Clean(v, d) ==> Clean(r, d)
  {
    if |v.store| > v.len then Reinit2(v, v.len, d) else v
  }

  /** HW2 push_back's growth loop: cap << 1, which reinit turns from 0 into 1. */
  function Grow2<T>(v: Vec<T>, d: T): (r: Vec<T>)
    requires Sized(v)
    ensures Sized(r) && Elems(r) == Elems(v) && r.len < Capacity(r)
    ensures Capacity(r) == if v.len < Capacity(v) then Capacity(v) else Max(1, 2 * Capacity(v))
    ensures Clean(v, d) ==> Clean(r, d)
  {
    if v.len >= |v.store| then Reinit2(v, 2 * |v.store|, d) else v
  }

  /** HW2 push_back(x). */
  function PushBack2<T>(v: Vec<T>, x: T, d: T): (r: Vec<T>)
    requires Sized(v)
    ensures Sized(r) && Elems(r) == Elems(v) + [x]
    ensures Capacity(r) == if v.len < Capacity(v) then Capacity(v) else Max(1, 2 * Capacity(v))
    ensures Clean(v, d) ==> Clean(r, d)
  {
    AppendClean(Grow2(v, d), x, d);
    Append(Grow2(v, d), x)
  }

  /** HW2 insert(pos, x). */
  function Insert2<T>(v: Vec<T>, pos: int, x: T, d: T): (r: Vec<T>)
    requires Sized(v) && 1 <= v.len && 0 <= pos <= v.len
    ensures Sized(r) && Elems(r) == Elems(v)[..pos] + [x] + Elems(v)[pos..]
    ensures Capacity(r) == Capacity(PushBack2(v, x, d))
    ensures Clean(v, d) ==> Clean(r, d)
  {
    var w := PushBack2(v, v.store[v.len - 1], d);
    InsertElems(v, w, pos, x);
    ShiftIn(w, pos, x)
  }

  // ---------------------------------------------------------------------
  // insert as written: `pos` is a pointer into the block push_back may move
  // ---------------------------------------------------------------------

  /**
   * What insert(pos, x) as written leaves.  `pos` is a T* into the storage,
   * taken before push_back(arr[len-1]) runs; when that push_back calls
   * reinit, realloc may move the elements, and the shifting loop and
   * `*pos = elem` then write through a pointer into the released block.
   */
  datatype InsertResult<T> = Inserted(result: Vec<T>) | StalePointer

  /** HW3/HW4 insert(pos, x) as written: pos is only usable if push_back kept the block. */
  function InsertAsWritten<T>(v: Vec<T>, pos: int, x: T, d: T): (r: InsertResult<T>)
    requires Sized(v) && 1 <= v.len && 0 <= pos <= v.len
    ensures r == StalePointer <==> v.len == Capacity(v)
    ensures r.Inserted? ==> Sized(r.result) && Elems(r.result) == Elems(v)[..pos] + [x] + Elems(v)[pos..]
  {
    var w := PushBack(v, v.store[v.len - 1], d);
    if Capacity(w) != Capacity(v) then StalePointer
    else
      InsertElems(v, w, pos, x);
      Inserted(ShiftIn(w, pos, x))
  }

  /** HW2 insert(pos, x) as written, over HW2's push_back. */
  function InsertAsWritten2<T>(v: Vec<T>, pos: int, x: T, d: T): (r: InsertResult<T>)
    requires Sized(v) && 1 <= v.len && 0 <= pos <= v.len
    ensures r == StalePointer <==> v.len == Capacity(v)
    ensures r.Inserted? ==> Sized(r.result) && Elems(r.result) == Elems(v)[..pos] + [x] + Elems(v)[pos..]
  {
    var w := PushBack2(v, v.store[v.len - 1], d);
    if Capacity(w) != Capacity(v) then StalePointer
    else
      InsertElems(v, w, pos, x);
      Inserted(ShiftIn(w, pos, x))
  }

  /**
   * Vector<int>(4) is full, as smallestPow2(4) is 4: insert(begin(), 7) as
   * written goes through a stale pointer in HW3/HW4 and in HW2, while the
   * intended insert gives 7 followed by the four elements.
   */
  lemma InsertAsWrittenOnFullVector()
    ensures var v := Vec([0, 0, 0, 0], 4);
      Pow2Ceil(4) == 4 &&
      InsertAsWritten(v, 0, 7, 0) == StalePointer &&
      InsertAsWritten2(v, 0, 7, 0) == StalePointer &&
      Elems(Insert(v, 0, 7, 0)) == [7, 0, 0, 0, 0] == Elems(Insert2(v, 0, 7, 0))
  {
    var v := Vec([0, 0, 0, 0], 4);
    assert Pow2Ceil(2) == 2;
    assert Elems(v)[..0] + [7] + Elems(v)[0..] == [7, 0, 0, 0, 0];
  }

  // ---------------------------------------------------------------------
  // Properties relating several operations
  // ---------------------------------------------------------------------

  /** Erasing the slot just inserted gives back the elements. */
  lemma EraseUndoesInsert<T>(v: Vec<T>, pos: int, x: T, d: T)
    requires Sized(v) && 1 <= v.len && 0 <= pos <= v.len
    ensures Elems(Erase(Insert(v, pos, x, d), pos, pos + 1, d)) == Elems(v)
  {
    var e := Elems(v);
    var i := Elems(Insert(v, pos, x, d));
    assert i[..pos] == e[..pos];
    assert i[pos + 1..] == e[pos..];
  }

  /** Erasing the last slot after push_back gives back the elements. */
  lemma EraseUndoesPushBack<T>(v: Vec<T>, x: T, d: T)
    requires Sized(v)
    ensures Elems(Erase(PushBack(v, x, d), v.len, v.len + 1, d)) == Elems(v)
  {
    var p := Elems(PushBack(v, x, d));
    assert p[..v.len] == Elems(v);
  }

  /** Growing with resize and shrinking back restores the elements. */
  lemma ResizeUpThenBack<T>(v: Vec<T>, count: nat, d: T)
    requires Sized(v) && v.len <= count
    ensures Elems(Resize(Resize(v, count, d), v.len, d)) == Elems(v)
  {
    var r := Resize(v, count, d);
    assert Elems(r)[..v.len] == Elems(v)[..v.len];
  }

  /** After clear(), a resize exposes only T(). */
  lemma ClearThenResizeIsDefault<T>(v: Vec<T>, count: nat, d: T)
    requires Clean(v, d)
    ensures Elems(Resize(Clear(v, d), count, d)) == Fill(d, count)
  {
  }

  /**
   * VectorBase::push_back on a vector grown only by push_back: the capacity
   * is 2 from the first element on and then the least power of two that holds
   * the elements.
   */
  lemma PushBackCapacity<T>(v: Vec<T>, x: T, d: T)
    requires Sized(v)
    requires Capacity(v) == (if v.len == 0 then 0 else Max(2, Pow2Ceil(v.len)))
    ensures Capacity(PushBack(v, x, d)) == Max(2, Pow2Ceil(v.len + 1))
  {
    if v.len > 0 {
      Pow2CeilStep(v.len);
    }
  }

  /** HW2 push_back: the capacity runs 0, 1, 2, 4, ... as the least power of two that holds the elements. */
  lemma PushBack2Capacity<T>(v: Vec<T>, x: T, d: T)
    requires Sized(v) && Capacity(v) == Pow2Ceil(v.len)
    ensures Capacity(PushBack2(v, x, d)) == Pow2Ceil(v.len + 1)
  {
    if v.len > 0 {
      Pow2CeilStep(v.len);
    }
  }
}
