/**
 * Vector<T> of HW2/vector.hh, the first revision of the hand-rolled vector.
 * It differs from the later VectorBase in two places: reinit never
 * allocates zero slots, and push_back doubles the capacity itself
 * (0 becomes 1 through reinit) rather than max(1, cap).
 *
 * Each method is proved to change the storage as the matching function of
 * VectorSpec says, and to keep every slot past the size at T() (`dflt`).
 */
module SimpleVector {
  import opened IntHelpers
  import opened VectorSpec

  class Vector<T> {
    var arr: array<T>
    var len: int
    var cap: int
    /** The value-initialised element T(). */
    const dflt: T

    function Model(): Vec<T>
      reads this, arr
    {
      Vec(arr[..], len)
    }

    ghost predicate Valid()
      reads this, arr
    {
      cap == arr.Length && Clean(Model(), dflt)
    }

    function Size(): int
      reads this
    {
      len
    }

    function Capacity(): int
      reads this
    {
      cap
    }

    /** Vector(): no slots. */
    constructor Empty(d: T)
      ensures Valid() && dflt == d
      ensures Model() == Vec([], 0)
    {
      arr := new T[0];
      len, cap, dflt := 0, 0, d;
    }

    /** Vector(size): size copies of T() in the least power of two >= size slots. */
    constructor OfSize(size: int, d: T)
      requires 0 <= size <= MaxPow2Arg
      ensures Valid() && dflt == d
      ensures Elems(Model()) == Fill(d, size) && cap == Pow2Ceil(size)
    {
      var c := SmallestPow2(size);
      var a := new T[c](_ => d);
      assert a[..][..size] == Fill(d, size);
      arr, len, cap, dflt := a, size, c, d;
    }

    /** Vector(size, cap): size copies of T() in cap slots. */
    constructor WithCapacity(size: int, capacity: int, d: T)
      requires 0 <= size <= capacity
      ensures Valid() && dflt == d
      ensures Model() == Vec(Fill(d, capacity), size)
    {
      arr := new T[capacity](_ => d);
      len, cap, dflt := size, capacity, d;
    }

    /** reinit(newCap): as VectorBase's, but a request for 0 slots allocates 1. */
    method Reinit(newCap: int)
      requires Valid() && len <= newCap
      modifies this
      ensures Valid() && fresh(arr)
      ensures Model() == Reinit2(old(Model()), newCap, dflt)
    {
      var c := if newCap == 0 then 1 else newCap;
      var a := new T[c](_ => dflt);
      var m := Min(cap, c);
      var i := 0;
      while i < m
        modifies a
        invariant 0 <= i <= m
        invariant forall j :: 0 <= j < c ==> a[j] == (if j < i then arr[j] else dflt)
      {
        a[i] := arr[i];
        i := i + 1;
      }
      assert a[..] == Realloc(arr[..], c, dflt);
      arr, cap := a, c;
    }

    /** reserve(n) */
    method Reserve(n: int)
      requires Valid()
      modifies this
      ensures Valid()
      ensures Model() == VectorSpec.Reserve(old(Model()), n, dflt)
    {
      if n > cap {
        Reinit(n);
      }
    }

    /** shrink_to_fit() */
    method ShrinkToFit()
      requires Valid()
      modifies this
      ensures Valid()
      ensures Model() == ShrinkToFit2(old(Model()), dflt)
    {
      if cap > len {
        Reinit(len);
      }
    }

    /** resize(count): smallestPow2 bounds a growing count. */
    method Resize(count: int)
      requires Valid() && 0 <= count && (count <= cap || count <= MaxPow2Arg)
      modifies this, arr
      ensures Valid() && (arr == old(arr) || fresh(arr))
      ensures Model() == VectorSpec.Resize(old(Model()), count, dflt)
    {
      if count > cap {
        var p := SmallestPow2(count);
        Reinit(p);
      }
      ghost var w := arr[..];
      var i := count;
      while i < len
        modifies arr
        invariant arr.Length == |w|
        invariant forall j :: 0 <= j < |w| ==> arr[j] == (if count <= j < i then dflt else w[j])
      {
        arr[i] := dflt;
        i := i + 1;
      }
      assert arr[..] == ClearRange(w, count, len, dflt);
      len := count;
    }

    /** clear() */
    method Clear()
      requires Valid()
      modifies this, arr
      ensures Valid()
      ensures Model() == VectorSpec.Clear(old(Model()), dflt)
    {
      Resize(0);
    }

    /** push_back(x): the growth loop runs at most once, since reinit(cap << 1) passes len. */
    method PushBack(x: T)
      requires Valid()
      modifies this, arr
      ensures Valid() && (arr == old(arr) || fresh(arr))
      ensures Model() == PushBack2(old(Model()), x, dflt)
    {
      ghost var grown := false;
      while len >= cap
        invariant Valid() && (arr == old(arr) || fresh(arr))
        invariant !grown ==> Model() == old(Model())
        invariant grown ==> Model() == Grow2(old(Model()), dflt) && len < cap
        decreases if grown then 0 else 1
      {
        Reinit(2 * cap);
        grown := true;
      }
      arr[len] := x;
      len := len + 1;
    }

    /** insert(pos, x): pushes the last element again, then shifts [pos, len-1) up by one. */
    method Insert(pos: int, x: T)
      requires Valid() && 1 <= len && 0 <= pos <= len
      modifies this, arr
      ensures Valid()
      ensures Model() == Insert2(old(Model()), pos, x, dflt)
    {
      PushBack(arr[len - 1]);
      ShiftUp(pos, x);
    }

    /** The shifting loop of insert: slots [pos, len-1) move up by one and x lands at pos. */
    method ShiftUp(pos: int, x: T)
      requires Sized(Model()) && 0 <= pos < len
      modifies arr
      ensures Model() == ShiftIn(old(Model()), pos, x)
    {
      ghost var w := Model();
      var i := len - 2;
      while i >= pos
        invariant pos - 1 <= i <= len - 2
        invariant forall j :: 0 <= j <= i + 1 ==> arr[j] == w.store[j]
        invariant forall j :: i + 1 < j < len ==> arr[j] == w.store[j - 1]
        invariant forall j :: len <= j < arr.Length ==> arr[j] == w.store[j]
      {
        arr[i + 1] := arr[i];
        i := i - 1;
      }
      arr[pos] := x;
      ShiftInSlots(arr[..], w, pos, x);
    }

    /** erase(first, last): only an empty range returns early, so a reversed one is excluded. */
    method Erase(first: int, last: int)
      requires Valid() && 0 <= first <= last <= len
      modifies this, arr
      ensures Valid()
      ensures Model() == VectorSpec.Erase(old(Model()), first, last, dflt)
    {
      var n := last - first;
      if n <= 0 {
        return;
      }
      ShiftDown(first, n);
      Resize(len - n);
    }

    /** The shifting loop of erase: slots [first + n, len) move down by n. */
    method ShiftDown(first: int, n: int)
      requires Sized(Model()) && 0 <= first && 0 < n && first + n <= len
      modifies arr
      ensures Model() == ShiftOut(old(Model()), first, n)
    {
      ghost var v := Model();
      var i := first;
      while i < len - n
        invariant first <= i <= len - n
        invariant forall j :: 0 <= j < first ==> arr[j] == v.store[j]
        invariant forall j :: first <= j < i ==> arr[j] == v.store[j + n]
        invariant forall j :: i <= j < arr.Length ==> arr[j] == v.store[j]
      {
        arr[i] := arr[i + n];
        i := i + 1;
      }
      ShiftOutSlots(arr[..], v, first, n);
    }

    /** erase(pos): erase(pos, pos + 1). */
    method EraseAt(pos: int)
      requires Valid() && 0 <= pos < len
      modifies this, arr
      ensures Valid()
      ensures Model() == VectorSpec.Erase(old(Model()), pos, pos + 1, dflt)
    {
      Erase(pos, pos + 1);
    }
  }
}
