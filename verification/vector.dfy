/** The growable array of `vector/vector.c`. Elements are values; the copy and
    default constructors are the shallow ones. */
module Vectors {
  const INITIAL_CAPACITY: nat := 8
  const GROWTH_FACTOR: nat := 2

  function Power(k: nat): (p: nat)
    ensures p >= 1
  {
    if k == 0 then 1 else GROWTH_FACTOR * Power(k - 1)
  }

  ghost predicate IsPower(c: nat) {
    exists k: nat :: c == Power(k)
  }

  lemma PowerOfTwo(k: nat)
    ensures Power(0) == 1 && Power(k + 1) == 2 * Power(k)
  {
  }

  lemma {:induction false} PowerMonotone(j: nat, k: nat)
    requires j <= k
    ensures Power(j) <= Power(k)
  {
    if j < k { PowerMonotone(j, k - 1); }
  }

  /** `c` is the least power of the growth factor that is at least `target`. */
  ghost predicate LeastPower(c: nat, target: nat) {
    IsPower(c) && c >= target && forall d: nat :: IsPower(d) && d >= target ==> c <= d
  }

  /** `get_new_capacity` */
  method GetNewCapacity(target: nat) returns (newCapacity: nat)
    ensures LeastPower(newCapacity, target)
    ensures target > 1 ==> newCapacity < 2 * target
  {
    newCapacity := 1;
    ghost var k := 0;
    while newCapacity < target
      invariant newCapacity == Power(k)
      invariant forall j: nat :: j < k ==> Power(j) < target
      invariant k > 0 ==> newCapacity < GROWTH_FACTOR * target
      decreases target - newCapacity
    {
      newCapacity := newCapacity * GROWTH_FACTOR;
      k := k + 1;
    }
    forall d: nat | IsPower(d) && d >= target ensures newCapacity <= d {
      var j: nat :| d == Power(j);
      PowerMonotone(k, if j < k then k else j);
    }
  }

  class Vector<T(0)> {
    var data: array<T>
    var size: nat
    /** Elements carried over by reallocations so far. */
    ghost var copied: nat
    const default: T

    /** The capacity is the length of the array. */
    ghost predicate Valid()
      reads this
    {
      size <= data.Length && IsPower(data.Length) && data.Length >= INITIAL_CAPACITY
    }

    ghost function Elements(): (s: seq<T>)
      requires Valid()
      reads this, data
      ensures |s| == size
    {
      data[..size]
    }

    /** `vector_create` */
    constructor (d: T)
      ensures Valid() && fresh(data) && Elements() == []
      ensures default == d && copied == 0 && data.Length == 8
    {
      data := new T[INITIAL_CAPACITY];
      size, copied, default := 0, 0, d;
      assert Power(3) == INITIAL_CAPACITY;
    }

    /** `realloc` of the array to the new capacity for `target`. */
    method Grow(target: nat)
      requires Valid() && target > data.Length
      modifies `data, `copied
      ensures Valid() && fresh(data) && Elements() == old(Elements())
      ensures LeastPower(data.Length, target) && data.Length < 2 * target
      ensures copied == old(copied) + old(data.Length)
    {
      var capacity := GetNewCapacity(target);
      var bigger := new T[capacity];
      for i := 0 to data.Length
        invariant bigger[..i] == data[..i]
        modifies bigger
      {
        bigger[i] := data[i];
      }
      assert bigger[..size] == data[..size];
      copied := copied + data.Length;
      data := bigger;
    }

    /** `vector_reserve` */
    method Reserve(n: nat)
      requires Valid()
      modifies `data, `copied
      ensures Valid() && (data == old(data) || fresh(data)) && Elements() == old(Elements())
      ensures if n <= old(data.Length) then data == old(data) else LeastPower(data.Length, n)
    {
      if n > data.Length {
        Grow(n);
      }
    }

    /** `vector_push_back` */
    method PushBack(x: T)
      requires Valid()
      modifies this, data
      ensures Valid() && (data == old(data) || fresh(data)) && Elements() == old(Elements()) + [x]
      ensures if old(size) < old(data.Length) then data == old(data) && copied == old(copied)
              else LeastPower(data.Length, old(data.Length) + 1) && copied == old(copied) + old(size)
      ensures data.Length <= 2 * old(data.Length) + 1
    {
      if size < data.Length {
        data[size] := x;
        size := size + 1;
        return;
      }
      Grow(data.Length + 1);
      data[size] := x;
      size := size + 1;
    }

    /** `vector_insert`. An empty vector takes the element wherever it should go. Past the
        end of any other, the element is written where it belongs if there is room for
        that, though the size grows by one only; the write is out of bounds just when
        the position is beyond the capacity, which was doubled if it was used up. */
    method Insert(position: nat, x: T) returns (inBounds: bool)
      requires Valid()
      modifies this, data
      ensures Valid() && (data == old(data) || fresh(data))
      ensures inBounds <==> position <= old(size) || old(size) == 0 || position < data.Length
      ensures position <= old(size) || old(size) == 0 ==>
        var p := if old(size) == 0 then 0 else position;
        Elements() == old(Elements())[..p] + [x] + old(Elements())[p..]
      ensures inBounds && position > old(size) > 0 ==>
        size == old(size) + 1 && Elements()[..old(size)] == old(Elements()) && data[position] == x
      ensures if old(size) < old(data.Length) then data == old(data) else LeastPower(data.Length, old(data.Length) + 1)
    {
      inBounds := true;
      if size == 0 {
        data[0] := x;
        size := 1;
        assert Elements() == [x];
        return;
      }
      if position == size {
        PushBack(x);
        return;
      }
      if size == data.Length {
        Grow(data.Length + 1);
      }
      if position > size {
        inBounds := PlaceBeyond(position, x);
        return;
      }
      Place(position, x);
    }

    /** The shifting loop does nothing, and the write may miss the array. */
    method PlaceBeyond(position: nat, x: T) returns (inBounds: bool)
      requires Valid() && size < position && size < data.Length
      modifies `size, data
      ensures Valid() && (inBounds <==> position < data.Length)
      ensures inBounds ==> size == old(size) + 1 && Elements()[..old(size)] == old(Elements()) && data[position] == x
    {
      if position >= data.Length {
        return false;
      }
      data[position] := x;
      size := size + 1;
      inBounds := true;
    }

    /** Insertion before the end of a vector that has room. */
    method Place(position: nat, x: T)
      requires Valid() && position < size < data.Length
      modifies `size, data
      ensures Valid() && Elements() == old(Elements())[..position] + [x] + old(Elements())[position..]
    {
      MakeRoom(position);
      data[position] := x;
      size := size + 1;
    }

    /** The shifting loop of insertion; the source has a second copy of it for
        position 0, where the unsigned index cannot pass below. */
    method MakeRoom(position: nat)
      requires Valid() && position < size < data.Length
      modifies data
      ensures data[..position] == old(data[..position]) && data[position + 1..size + 1] == old(data[position..size])
    {
      var i := size;
      while i > position
        invariant position <= i <= size
        invariant forall j :: 0 <= j < i ==> data[j] == old(data[j])
        invariant forall j :: i < j <= size ==> data[j] == old(data[j - 1])
      {
        data[i] := data[i - 1];
        i := i - 1;
      }
    }

    /** `vector_erase`. Its loop reads one element further than it moves, which is
        beyond the array exactly when the vector is full; it then stops here. */
    method Erase(position: nat) returns (inBounds: bool)
      requires Valid() && position < size
      modifies this, data
      ensures Valid() && data == old(data)
      ensures inBounds <==> old(size) < data.Length
      ensures inBounds ==> Elements() == old(Elements())[..position] + old(Elements())[position + 1..]
    {
      var i := position;
      while i < size
        invariant position <= i <= size && size == old(size) && data == old(data) && Valid()
        invariant i < size || size < data.Length
        invariant forall j :: 0 <= j < data.Length ==>
          data[j] == if position <= j < i then old(data[j + 1]) else old(data[j])
      {
        if i + 1 == data.Length {
          return false;
        }
        data[i] := data[i + 1];
        i := i + 1;
      }
      size := size - 1;
      inBounds := true;
    }

    /** `vector_resize` */
    method Resize(n: nat)
      requires Valid()
      modifies this, data
      ensures Valid() && (data == old(data) || fresh(data)) && size == n
      ensures Elements() == if n <= old(size) then old(Elements())[..n]
                            else old(Elements()) + seq(n - old(size), _ => default)
      ensures if n <= old(data.Length) then data == old(data) else LeastPower(data.Length, n)
    {
      if n <= size {
        size := n;
        return;
      }
      if n > data.Length {
        Grow(n);
      }
      ghost var room, was := data, size;
      for i := size to n
        invariant was <= i && size == was && data == room && Valid()
        invariant data[..i] == old(Elements()) + seq(i - was, _ => default)
      {
        data[i] := default;
      }
      size := n;
    }

    /** `n` pushes onto an empty vector carry over fewer than `2n` elements. */
    method PushAll(xs: seq<T>)
      requires Valid() && size == 0 && copied == 0 && data.Length == INITIAL_CAPACITY
      modifies this, data
      ensures Valid() && Elements() == xs
      ensures copied == data.Length - INITIAL_CAPACITY && (xs != [] ==> copied < 2 * |xs|)
    {
      for i := 0 to |xs|
        invariant Valid() && (data == old(data) || fresh(data)) && Elements() == xs[..i]
        invariant copied == data.Length - INITIAL_CAPACITY && (data.Length == INITIAL_CAPACITY || data.Length < 2 * i)
      {
        ghost var capacity := data.Length;
        PushBack(xs[i]);
        if data.Length != capacity { NextPower(capacity, data.Length); }
      }
    }

    /** The least power above a power is twice it. */
    static lemma NextPower(c: nat, d: nat)
      requires IsPower(c) && LeastPower(d, c + 1)
      ensures d == 2 * c
    {
      var k: nat :| c == Power(k);
      var j: nat :| d == Power(j);
      assert 2 * c == Power(k + 1) && IsPower(2 * c);
      if j <= k { PowerMonotone(j, k); } else { PowerMonotone(k + 1, j); }
    }
  }
}
