/**
 * Vector<T>: the growable array of the weather program (Vector.h).
 * A fixed-size backing array `data` of `capacity` slots, of which the first
 * `size` hold the elements; pushBack doubles the capacity when it is full.
 */
module Vectors {
  import opened Results

  function Pow2(j: nat): nat
  {
    if j == 0 then 1 else 2 * Pow2(j - 1)
  }

  /** The capacity after `k` further pushBacks, starting from `capacity` and `size`. */
  function CapacityAfterPushes(capacity: int, size: int, k: nat): int
    decreases k
  {
    if k == 0 then capacity
    else CapacityAfterPushes(if size == capacity then 2 * capacity else capacity, size + 1, k - 1)
  }

  /** The first of c, 2c, 4c, ... that is at least n. */
  function LeastDoubling(c: int, n: int): int
    requires c >= 1
    decreases if n > c then n - c else 0
  {
    if n <= c then c else LeastDoubling(2 * c, n)
  }

  /** How many doublings LeastDoubling(c, n) takes. */
  function Doublings(c: int, n: int): nat
    requires c >= 1
    decreases if n > c then n - c else 0
  {
    if n <= c then 0 else 1 + Doublings(2 * c, n)
  }

  lemma ScaledPow2(c: int, j: nat)
    ensures c * Pow2(j + 1) == (2 * c) * Pow2(j)
  {
    assert Pow2(j + 1) == 2 * Pow2(j);
  }

  /** LeastDoubling(c, n) is c * 2^j for the least j with c * 2^j >= n. */
  lemma {:induction false} LeastDoublingIsLeast(c: int, n: int)
    requires c >= 1
    ensures LeastDoubling(c, n) == c * Pow2(Doublings(c, n)) >= n
    ensures Doublings(c, n) > 0 ==> c * Pow2(Doublings(c, n) - 1) < n
    decreases if n > c then n - c else 0
  {
    if n > c {
      var j := Doublings(2 * c, n);
      LeastDoublingIsLeast(2 * c, n);
      ScaledPow2(c, j);
      if j > 0 {
        ScaledPow2(c, j - 1);
      }
    }
  }

  /** From any valid state, k pushBacks leave the least doubling of capacity that holds size + k. */
  lemma {:induction false} PushesReachLeastDoubling(capacity: int, size: int, k: nat)
    requires 1 <= capacity && 0 <= size <= capacity
    ensures CapacityAfterPushes(capacity, size, k) == LeastDoubling(capacity, size + k)
    decreases k
  {
    if k > 0 {
      if size == capacity {
        PushesReachLeastDoubling(2 * capacity, size + 1, k - 1);
      } else {
        PushesReachLeastDoubling(capacity, size + 1, k - 1);
      }
    }
  }

  /** After k pushBacks on an empty vector of capacity c0, the capacity is the least c0 * 2^j >= k. */
  lemma GrowthFromEmpty(c0: int, k: nat)
    requires c0 >= 1
    ensures CapacityAfterPushes(c0, 0, k) == c0 * Pow2(Doublings(c0, k)) >= k
    ensures Doublings(c0, k) > 0 ==> c0 * Pow2(Doublings(c0, k) - 1) < k
  {
    PushesReachLeastDoubling(c0, 0, k);
    LeastDoublingIsLeast(c0, k);
  }

  class Vector<T(0)> {
    var data: array<T>
    var size: int
    var capacity: int

    /** The class invariant every public operation keeps. */
    ghost predicate Valid()
      reads this
    {
      0 <= size <= capacity && 1 <= capacity && data.Length == capacity
    }

    /** The elements, slots [0, size) of the backing array. */
    ghost function Elements(): seq<T>
      reads this, data
      requires Valid()
    {
      data[..size]
    }

    /** Vector(int n = 1): empty, with room for max(n, 1) elements. */
    constructor (n: int)
      ensures Valid() && fresh(data)
      ensures size == 0 && capacity == (if n > 0 then n else 1)
      ensures Elements() == []
    {
      size := 0;
      capacity := if n > 0 then n else 1;
      data := new T[if n > 0 then n else 1];
    }

    /** Vector(int n, const T& defaultValue): n copies of defaultValue. */
    constructor Filled(n: int, defaultValue: T)
      requires n >= 0
      ensures Valid() && fresh(data)
      ensures size == n && capacity == (if n > 0 then n else 1)
      ensures |Elements()| == n && forall i :: 0 <= i < n ==> Elements()[i] == defaultValue
    {
      var cap := if n > 0 then n else 1;
      var a := new T[cap];
      var i := 0;
      while i < n
        modifies a
        invariant 0 <= i <= n
        invariant forall j :: 0 <= j < i ==> a[j] == defaultValue
      {
        a[i] := defaultValue;
        i := i + 1;
      }
      data, size, capacity := a, n, cap;
    }

    /** Vector(const Vector<T>& other): a deep copy in fresh storage. */
    constructor Copy(other: Vector<T>)
      requires other.Valid()
      ensures Valid() && fresh(data)
      ensures size == other.size && capacity == other.capacity
      ensures Elements() == other.Elements()
    {
      var a := new T[other.capacity];
      var i := 0;
      while i < other.size
        modifies a
        invariant 0 <= i <= other.size
        invariant a[..i] == other.data[..i]
      {
        a[i] := other.data[i];
        i := i + 1;
      }
      data, size, capacity := a, other.size, other.capacity;
    }

    /** operator=: a deep copy of other into fresh storage; self-assignment changes nothing. */
    method Assign(other: Vector<T>)
      requires Valid() && other.Valid()
      modifies this
      ensures Valid()
      ensures size == old(other.size) && capacity == old(other.capacity)
      ensures Elements() == old(other.Elements())
      ensures other == this ==> unchanged(this)
      ensures other != this ==> fresh(data)
    {
      if other != this {
        var a := new T[other.capacity];
        var i := 0;
        while i < other.size
          modifies a
          invariant 0 <= i <= other.size
          invariant a[..i] == other.data[..i]
        {
          a[i] := other.data[i];
          i := i + 1;
        }
        size := other.size;
        capacity := other.capacity;
        data := a;
      }
    }

    /** resize(): doubles the capacity, keeping size and elements. */
    method Resize()
      requires Valid()
      modifies this
      ensures Valid() && fresh(data)
      ensures capacity == 2 * old(capacity) && size == old(size)
      ensures Elements() == old(Elements())
    {
      var newCapacity := capacity * 2;
      var tmp := new T[newCapacity];
      var i := 0;
      while i < size
        modifies tmp
        invariant 0 <= i <= size
        invariant tmp[..i] == data[..i]
      {
        tmp[i] := data[i];
        i := i + 1;
      }
      data := tmp;
      capacity := newCapacity;
    }

    /** pushBack(element): doubles a full vector first, then appends. */
    method PushBack(element: T)
      requires Valid()
      modifies this, data
      ensures Valid()
      ensures Elements() == old(Elements()) + [element]
      ensures size == old(size) + 1
      ensures capacity == CapacityAfterPushes(old(capacity), old(size), 1)
      ensures data == old(data) || fresh(data)
    {
      if size == capacity {
        Resize();
      }
      data[size] := element;
      size := size + 1;
    }

    /** popBack(): drops the last element of a non-empty vector; storage is kept. */
    method PopBack()
      requires Valid()
      modifies this
      ensures Valid() && data == old(data) && capacity == old(capacity)
      ensures size == if old(size) > 0 then old(size) - 1 else old(size)
      ensures Elements() == old(Elements())[..size]
    {
      if size > 0 {
        size := size - 1;
      }
    }

    /** Clear(): empties the vector, keeping its capacity. */
    method Clear()
      requires Valid()
      modifies this
      ensures Valid() && data == old(data) && capacity == old(capacity)
      ensures size == 0 && Elements() == []
    {
      size := 0;
    }

    /** GetSize(). */
    method GetSize() returns (n: int)
      requires Valid()
      ensures n == |Elements()|
    {
      n := size;
    }

    /** operator[] read access: out_of_range unless 0 <= index < size. */
    method Get(index: int) returns (r: Result<T>)
      requires Valid()
      ensures r.Err? <==> index < 0 || index >= size
      ensures r.Err? ==> r.error == OutOfRange
      ensures r.Ok? ==> r.value == Elements()[index]
    {
      if index < 0 || index >= size {
        return Err(OutOfRange);
      }
      return Ok(data[index]);
    }

    /** Assignment through operator[]: out_of_range unless 0 <= index < size. */
    method Set(index: int, element: T) returns (r: Outcome)
      requires Valid()
      modifies data
      ensures Valid()
      ensures r.Fail? <==> index < 0 || index >= size
      ensures r.Fail? ==> r.error == OutOfRange
      ensures Elements() == if r.Pass? then old(Elements())[index := element] else old(Elements())
    {
      if index < 0 || index >= size {
        return Fail(OutOfRange);
      }
      data[index] := element;
      return Pass;
    }
  }
}
