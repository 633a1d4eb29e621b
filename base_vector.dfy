/**
 * VectorBase<T> of HW3/vector.hh and HW4/vector.hh: a heap array `arr` of
 * `cap` slots holding `len` elements.  The two revisions differ only in
 * erase's guard (HW3 returns on an empty range, HW4 also on a reversed one);
 * under HW3's own demand that the range is not reversed they agree, so one
 * class models both.
 *
 * Each method is proved to change the storage as the matching function of
 * VectorSpec says, and to keep every slot past the size at T() (`dflt`).
 */
module BaseVector {
  import opened IntHelpers
  import opened VectorSpec

  class VectorBase<T> {
    var arr: array<T>
    var len: int
    var cap: int
    /** The value-initialised element T(). */
    const dflt: T

    function Model(): Vec<T>
      reads this, arr
    {
      Vec(arr[..], len)
    }

    ghost predicate Valid()
      reads this, arr
    {
      cap == arr.Length && Clean(Model(), dflt)
    }

    function Size(): int
      reads this
    {
      len
    }

    function Capacity(): int
      reads this
    {
      cap
    }

    /** VectorBase(): no slots. */
    constructor Empty(d: T)
      ensures Valid() && dflt == d
      ensures Model() == Vec([], 0)
    {
      arr := new T[0];
      len, cap, dflt := 0, 0, d;
    }

    /** VectorBase(size): size copies of T() in the least power of two >= size slots. */
    constructor OfSize(size: int, d: T)
      requires 0 <= size <= MaxPow2Arg
      ensures Valid() && dflt == d
      ensures Elems(Model()) == Fill(d, size) && cap == Pow2Ceil(size)
    {
      var c := SmallestPow2(size);
      var a := new T[c](_ => d);
      assert a[..][..size] == Fill(d, size);
      arr, len, cap, dflt := a, size, c, d;
    }

    /** VectorBase(size, cap): size copies of T() in cap slots. */
    constructor WithCapacity(size: int, capacity: int, d: T)
      requires 0 <= size <= capacity
      ensures Valid() && dflt == d
      ensures Model() == Vec(Fill(d, capacity), size)
    {
      arr := new T[capacity](_ => d);
      len, cap, dflt := size, capacity, d;
    }

    /** reinit(newCap): a fresh array keeping the first min(cap, newCap) slots, T() after them. */
    method Reinit(newCap: int)
      requires Valid() && len <= newCap
      modifies this
      ensures Valid() && fresh(arr)
      ensures Model() == VectorSpec.Reinit(old(Model()), newCap, dflt)
    {
      var a := new T[newCap](_ => dflt);
      var m := Min(cap, newCap);
      var i := 0;
      while i < m
        modifies a
        invariant 0 <= i <= m
        invariant forall j :: 0 <= j < newCap ==> a[j] == (if j < i then arr[j] else dflt)
      {
        a[i] := arr[i];
        i := i + 1;
      }
      assert a[..] == Realloc(arr[..], newCap, dflt);
      arr, cap := a, newCap;
    }

    /** reserve(n) */
    method Reserve(n: int)
      requires Valid()
      modifies this
      ensures Valid()
      ensures Model() == VectorSpec.Reserve(old(Model()), n, dflt)
    {
      if n > cap {
        Reinit(n);
      }
    }

    /** shrink_to_fit() */
    method ShrinkToFit()
      requires Valid()
      modifies this
      ensures Valid()
      ensures Model() == VectorSpec.ShrinkToFit(old(Model()), dflt)
    {
      if cap > len {
        Reinit(len);
      }
    }

    /** resize(count): smallestPow2 bounds a growing count. */
    method Resize(count: int)
      requires Valid() && 0 <= count && (count <= cap || count <= MaxPow2Arg)
      modifies this, arr
      ensures Valid() && (arr == old(arr) || fresh(arr))
      ensures Model() == VectorSpec.Resize(old(Model()), count, dflt)
    {
      if count > cap {
        var p := SmallestPow2(count);
        Reinit(p);
      }
      ghost var w := arr[..];
      var i := count;
      while i < len
        modifies arr
        invariant arr.Length == |w|
        invariant forall j :: 0 <= j < |w| ==> arr[j] == (if count <= j < i then dflt else w[j])
      {
        arr[i] := dflt;
        i := i + 1;
      }
      assert arr[..] == ClearRange(w, count, len, dflt);
      len := count;
    }

    /** clear() */
    method Clear()
      requires Valid()
      modifies this, arr
      ensures Valid()
      ensures Model() == VectorSpec.Clear(old(Model()), dflt)
    {
      Resize(0);
    }

    /** push_back(x): the growth loop runs at most once, since doubling max(1, cap) passes len. */
    method PushBack(x: T)
      requires Valid()
      modifies this, arr
      ensures Valid() && (arr == old(arr) || fresh(arr))
      ensures Model() == VectorSpec.PushBack(old(Model()), x, dflt)
    {
      ghost var grown := false;
      while len >= cap
        invariant Valid() && (arr == old(arr) || fresh(arr))
        invariant !grown ==> Model() == old(Model())
        invariant grown ==> Model() == Grow(old(Model()), dflt) && len < cap
        decreases if grown then 0 else 1
      {
        Reinit(2 * Max(1, cap));
        grown := true;
      }
      arr[len] := x;
      len := len + 1;
    }

    /** insert(pos, x): pushes the last element again, then shifts [pos, len-1) up by one. */
    method Insert(pos: int, x: T)
      requires Valid() && 1 <= len && 0 <= pos <= len
      modifies this, arr
      ensures Valid()
      ensures Model() == VectorSpec.Insert(old(Model()), pos, x, dflt)
    {
      PushBack(arr[len - 1]);
      ShiftUp(pos, x);
    }

    /** The shifting loop of insert: slots [pos, len-1) move up by one and x lands at pos. */
    method ShiftUp(pos: int, x: T)
      requires Sized(Model()) && 0 <= pos < len
      modifies arr
      ensures Model() == ShiftIn(old(Model()), pos, x)
    {
      ghost var w := Model();
      var i := len - 2;
      while i >= pos
        invariant pos - 1 <= i <= len - 2
        invariant forall j :: 0 <= j <= i + 1 ==> arr[j] == w.store[j]
        invariant forall j :: i + 1 < j < len ==> arr[j] == w.store[j - 1]
        invariant forall j :: len <= j < arr.Length ==> arr[j] == w.store[j]
      {
        arr[i + 1] := arr[i];
        i := i - 1;
      }
      arr[pos] := x;
      ShiftInSlots(arr[..], w, pos, x);
    }

    /** erase(first, last): shifts the tail down over the range, then resizes. */
    method Erase(first: int, last: int)
      requires Valid() && 0 <= first <= len && 0 <= last <= len
      modifies this, arr
      ensures Valid()
      ensures Model() == VectorSpec.Erase(old(Model()), first, last, dflt)
    {
      var n := last - first;
      if n <= 0 {
        return;
      }
      ShiftDown(first, n);
      Resize(len - n);
    }

    /** The shifting loop of erase: slots [first + n, len) move down by n. */
    method ShiftDown(first: int, n: int)
      requires Sized(Model()) && 0 <= first && 0 < n && first + n <= len
      modifies arr
      ensures Model() == ShiftOut(old(Model()), first, n)
    {
      ghost var v := Model();
      var i := first;
      while i < len - n
        invariant first <= i <= len - n
        invariant forall j :: 0 <= j < first ==> arr[j] == v.store[j]
        invariant forall j :: first <= j < i ==> arr[j] == v.store[j + n]
        invariant forall j :: i <= j < arr.Length ==> arr[j] == v.store[j]
      {
        arr[i] := arr[i + n];
        i := i + 1;
      }
      ShiftOutSlots(arr[..], v, first, n);
    }

    /** erase(pos): erase(pos, pos + 1). */
    method EraseAt(pos: int)
      requires Valid() && 0 <= pos < len
      modifies this, arr
      ensures Valid()
      ensures Model() == VectorSpec.Erase(old(Model()), pos, pos + 1, dflt)
    {
      Erase(pos, pos + 1);
    }
  }
}
