/** SimpleVector<Type>: a growable array that owns one buffer of `capacity`
    slots, of which the first `size` hold the live elements.  The buffer is
    an `array<T>` whose length is the capacity; `new T[n]` stands for a fresh
    `ArrayPtr<Type>(n)`, whose slots the model leaves unconstrained.  Positions
    (the source's iterators) are indices into the live range. */
module SimpleVectors {
  import opened VectorSpec

  /** The hint that selects the reserving constructor. */
  datatype ReserveProxyObject = ReserveProxyObject(reserve: nat)
  {
    function ReturnCapacity(): nat { reserve }
  }

  /** `Reserve(n)`: wraps a capacity request so that it is not mistaken for
      a size. */
  function Reserve(capacityToReserve: nat): (r: ReserveProxyObject)
    ensures r.ReturnCapacity() == capacityToReserve
  {
    ReserveProxyObject(capacityToReserve)
  }

  /** The outcome of checked access: the element, or the `std::out_of_range`
      the source throws. */
  datatype AtResult<T> = Found(value: T) | OutOfRange

  class SimpleVector<T(0)>
  {
    var size: nat
    var capacity: nat
    var elements: array<T>

    /** `size <= capacity`, and the buffer has exactly `capacity` slots. */
    ghost predicate Valid()
      reads this
    {
      size <= capacity && capacity == elements.Length
    }

    /** The live elements, `elements[0..size)`. */
    ghost function Contents(): seq<T>
      reads this, elements
      requires Valid()
    {
      elements[..size]
    }

    /** The default constructor: no elements, no storage. */
    constructor ()
      ensures Valid() && fresh(elements)
      ensures Contents() == [] && capacity == 0
    {
      size, capacity := 0, 0;
      elements := new T[0];
    }

    /** `SimpleVector(size, value)`: `n` copies of `value` in exactly `n`
        slots; `SimpleVector(size)` is this with `value == Type{}`. */
    constructor Filled(n: nat, value: T)
      ensures Valid() && fresh(elements)
      ensures Contents() == seq(n, _ => value) && capacity == n
    {
      var a := new T[n];
      var i := 0;
      while i < n
        invariant 0 <= i <= n
        invariant forall k :: 0 <= k < i ==> a[k] == value
      {
        a[i] := value;
        i := i + 1;
      }
      size, capacity, elements := n, n, a;
    }

    /** `SimpleVector(std::initializer_list<Type>)`: the listed elements,
        with no spare capacity. */
    constructor FromList(init: seq<T>)
      ensures Valid() && fresh(elements)
      ensures Contents() == init && capacity == |init|
    {
      size, capacity := 0, 0;
      elements := new T[0];
      new;
      Assign(init);
    }

    /** The copy constructor: a deep copy of the live elements, with no
        spare capacity; the source is untouched. */
    constructor Copy(other: SimpleVector<T>)
      requires other.Valid()
      ensures Valid() && fresh(elements)
      ensures Contents() == other.Contents() && capacity == other.size
    {
      size, capacity := 0, 0;
      elements := new T[0];
      new;
      Assign(other.elements[..other.size]);
    }

    /** The move constructor: takes over the buffer, size and capacity; the
        source is left with no elements and no storage. */
    constructor Moved(other: SimpleVector<T>)
      requires other.Valid()
      modifies other
      ensures Valid() && other.Valid()
      ensures elements == old(other.elements)
      ensures size == old(other.size) && capacity == old(other.capacity)
      ensures Contents() == old(other.Contents())
      ensures other.Contents() == [] && other.capacity == 0 && fresh(other.elements)
    {
      size := other.size;
      capacity := other.capacity;
      elements := other.elements;
      new;
      other.size, other.capacity := 0, 0;
      other.elements := new T[0];
    }

    /** `SimpleVector(ReserveProxyObject)`: no elements, exactly the hinted
        capacity. */
    constructor FromProxy(proxy: ReserveProxyObject)
      ensures Valid() && fresh(elements)
      ensures Contents() == [] && capacity == proxy.ReturnCapacity()
    {
      size, capacity := 0, 0;
      elements := new T[0];
      new;
      Reserve(proxy.ReturnCapacity());
    }

    /** Copy assignment by copy-and-swap: afterwards this holds a fresh copy
        of the source's live elements; self-assignment changes nothing. */
    method CopyAssign(other: SimpleVector<T>)
      requires Valid() && other.Valid()
      modifies this
      ensures Valid() && other.Valid()
      ensures Contents() == old(other.Contents())
      ensures this != other ==> fresh(elements) && capacity == old(other.size)
      ensures this == other ==> unchanged(this)
    {
      if this != other {
        var temp := new SimpleVector.Copy(other);
        Swap(temp);
      }
    }

    /** Move assignment: exchanges the whole state with the source (the
        source receives this vector's previous state). */
    method MoveAssign(other: SimpleVector<T>)
      requires Valid() && other.Valid()
      modifies this, other
      ensures Valid() && other.Valid()
      ensures elements == old(other.elements) && other.elements == old(elements)
      ensures size == old(other.size) && other.size == old(size)
      ensures capacity == old(other.capacity) && other.capacity == old(capacity)
      ensures Contents() == old(other.Contents()) && other.Contents() == old(Contents())
    {
      if this != other {
        size, other.size := other.size, size;
        capacity, other.capacity := other.capacity, capacity;
        elements, other.elements := other.elements, elements;
      }
    }

    /** `swap`: exchanges buffers, sizes and capacities; no element moves. */
    method Swap(other: SimpleVector<T>)
      requires Valid() && other.Valid()
      modifies this, other
      ensures Valid() && other.Valid()
      ensures elements == old(other.elements) && other.elements == old(elements)
      ensures size == old(other.size) && other.size == old(size)
      ensures capacity == old(other.capacity) && other.capacity == old(capacity)
      ensures Contents() == old(other.Contents()) && other.Contents() == old(Contents())
    {
      elements, other.elements := other.elements, elements;
      size, other.size := other.size, size;
      capacity, other.capacity := other.capacity, capacity;
    }

    /** `PushBack`: appends `value`, reallocating by the growth rule when
        the buffer is full. */
    method PushBack(value: T)
      requires Valid()
      modifies this, elements
      ensures Valid()
      ensures Contents() == old(Contents()) + [value]
      ensures capacity == PushCapacity(old(size), old(capacity))
      ensures old(size) < old(capacity) ==> elements == old(elements)
      ensures old(size) == old(capacity) ==> fresh(elements)
    {
      var newSize := size + 1;
      if newSize > capacity {
        var newCapacity := if capacity != 0 then Max(newSize, 2 * capacity) else 1;
        MoveElements(newCapacity);
      }
      elements[size] := value;
      size := newSize;
    }

    /** `PopBack`: drops the last element; the buffer is untouched. */
    method PopBack()
      requires Valid() && size != 0
      modifies this
      ensures Valid() && elements == old(elements) && capacity == old(capacity)
      ensures Contents() == old(Contents())[..old(size) - 1]
    {
      size := size - 1;
    }

    /** `Insert(position, value)`: places `value` before index `pos`, shifting
        the tail in place when it fits and otherwise copying both halves into
        a buffer sized by the growth rule; returns the position of the new
        element. */
    method Insert(pos: nat, value: T) returns (r: nat)
      requires Valid() && pos <= size
      modifies this, elements
      ensures Valid() && r == pos
      ensures Contents() == InsertAt(old(Contents()), pos, value)
      ensures capacity == PushCapacity(old(size), old(capacity))
      ensures old(size) < old(capacity) ==> elements == old(elements)
      ensures old(size) == old(capacity) ==> fresh(elements)
    {
      ghost var s := Contents();
      var newSize := size + 1;
      if newSize <= capacity {
        var i := size;
        while i > pos
          invariant Valid() && elements == old(elements) && size == old(size)
          invariant pos <= i <= size
          invariant forall k :: 0 <= k < i ==> elements[k] == s[k]
          invariant forall k :: i < k <= size ==> elements[k] == s[k - 1]
        {
          elements[i] := elements[i - 1];
          i := i - 1;
        }
        elements[pos] := value;
      } else {
        var newCapacity := if capacity != 0 then Max(newSize, 2 * capacity) else 1;
        var newElements := new T[newCapacity];
        var i := 0;
        while i < pos
          invariant Valid() && elements == old(elements) && size == old(size)
          invariant Contents() == s
          invariant 0 <= i <= pos
          invariant forall k :: 0 <= k < i ==> newElements[k] == s[k]
        {
          newElements[i] := elements[i];
          i := i + 1;
        }
        newElements[pos] := value;
        while i < size
          invariant Valid() && elements == old(elements) && size == old(size)
          invariant Contents() == s
          invariant pos <= i <= size
          invariant forall k :: 0 <= k < pos ==> newElements[k] == s[k]
          invariant newElements[pos] == value
          invariant forall k :: pos < k <= i ==> newElements[k] == s[k - 1]
        {
          newElements[i + 1] := elements[i];
          i := i + 1;
        }
        elements := newElements;
        capacity := newCapacity;
      }
      size := newSize;
      assert Contents() == InsertAt(s, pos, value);
      r := pos;
    }

    /** `Erase(position)`: removes the element at `pos` by moving the tail
        one slot towards the front; returns the position that now holds the
        following element. */
    method Erase(pos: nat) returns (r: nat)
      requires Valid() && pos < size
      modifies this, elements
      ensures Valid() && r == pos
      ensures elements == old(elements) && capacity == old(capacity)
      ensures Contents() == EraseAt(old(Contents()), pos)
    {
      ghost var s := Contents();
      var i := pos;
      while i + 1 < size
        invariant Valid() && elements == old(elements) && size == old(size)
        invariant pos <= i < size
        invariant forall k :: 0 <= k < i ==> elements[k] == s[if k < pos then k else k + 1]
        invariant forall k :: i <= k < size ==> elements[k] == s[k]
      {
        elements[i] := elements[i + 1];
        i := i + 1;
      }
      size := size - 1;
      assert Contents() == EraseAt(s, pos);
      r := pos;
    }

    /** `Reserve(n)`: grows the buffer to exactly `n` slots when it has
        fewer; the live elements never change. */
    method Reserve(newCapacity: nat)
      requires Valid()
      modifies this
      ensures Valid() && size == old(size) && Contents() == old(Contents())
      ensures capacity == Max(old(capacity), newCapacity)
      ensures newCapacity <= old(capacity) ==> unchanged(this)
      ensures newCapacity > old(capacity) ==> fresh(elements)
    {
      if newCapacity > capacity {
        MoveElements(newCapacity);
      }
    }

    /** `GetSize`: the number of live elements. */
    function GetSize(): (r: nat)
      reads this, elements
      requires Valid()
      ensures r == |Contents()|
    {
      size
    }

    /** `GetCapacity`: the number of slots in the buffer. */
    function GetCapacity(): (r: nat)
      reads this
      requires Valid()
      ensures r == elements.Length && r >= size
    {
      capacity
    }

    /** `IsEmpty`: whether there are no live elements. */
    function IsEmpty(): (r: bool)
      reads this, elements
      requires Valid()
      ensures r <==> Contents() == []
    {
      size == 0
    }

    /** `operator[]` read: the caller guarantees `index < size`. */
    method Get(index: nat) returns (r: T)
      requires Valid() && index < size
      ensures r == Contents()[index]
    {
      r := elements[index];
    }

    /** `operator[]` write through the returned reference. */
    method Set(index: nat, value: T)
      requires Valid() && index < size
      modifies elements
      ensures Valid() && Contents() == old(Contents())[index := value]
    {
      elements[index] := value;
    }

    /** `At`: checked access, out of range exactly when `index >= size`. */
    method At(index: nat) returns (r: AtResult<T>)
      requires Valid()
      ensures r.OutOfRange? <==> index >= |Contents()|
      ensures r.Found? ==> r.value == Contents()[index]
    {
      if index >= size {
        return OutOfRange;
      }
      return Found(elements[index]);
    }

    /** `Clear`: no live elements; the buffer is kept. */
    method Clear()
      requires Valid()
      modifies this
      ensures Valid() && elements == old(elements) && capacity == old(capacity)
      ensures Contents() == []
    {
      size := 0;
    }

    /** `Resize(n)`: `blank` is the element type's `Type{}`.  Beyond the
        capacity the buffer is reallocated to exactly `n` slots and the old
        elements kept (the new slots are whatever a fresh buffer holds);
        within it, the vector is truncated or padded with `blank`. */
    method Resize(n: nat, blank: T)
      requires Valid()
      modifies this, elements
      ensures Valid() && size == n
      ensures capacity == Max(old(capacity), n)
      ensures old(capacity) < n ==> fresh(elements) && Contents()[..old(size)] == old(Contents())
      ensures n <= old(capacity) ==> elements == old(elements)
      ensures n <= old(capacity) ==> Contents() == Resized(old(Contents()), n, blank)
    {
      ghost var s := Contents();
      if capacity < n {
        MoveElements(n);
      } else if n >= size {
        var i := size;
        while i < n
          invariant Valid() && elements == old(elements) && size == old(size)
          invariant size <= i <= n
          invariant forall k :: 0 <= k < size ==> elements[k] == s[k]
          invariant forall k :: size <= k < i ==> elements[k] == blank
        {
          elements[i] := blank;
          i := i + 1;
        }
      }
      size := n;
      assert n <= old(capacity) ==> Contents() == Resized(s, n, blank);
    }

    /** `Assign`: replaces the state by a copy of `src` in a fresh buffer of
        exactly `|src|` slots. */
    method Assign(src: seq<T>)
      modifies this
      ensures Valid() && fresh(elements)
      ensures Contents() == src && capacity == |src|
    {
      var temp := new T[|src|];
      var i := 0;
      while i < |src|
        invariant 0 <= i <= |src|
        invariant forall k :: 0 <= k < i ==> temp[k] == src[k]
      {
        temp[i] := src[i];
        i := i + 1;
      }
      size, capacity := |src|, |src|;
      elements := temp;
    }

    /** `MoveElements`: moves the live elements into a fresh buffer of
        `newCapacity` slots (every caller asks for more than `size`). */
    method MoveElements(newCapacity: nat)
      requires Valid() && size <= newCapacity
      modifies this
      ensures Valid() && fresh(elements) && capacity == newCapacity
      ensures size == old(size) && Contents() == old(Contents())
    {
      var newElements := new T[newCapacity];
      var count := if size < newCapacity then size else newCapacity;
      var i := 0;
      while i < count
        invariant Valid() && elements == old(elements) && size == old(size)
        invariant 0 <= i <= count
        invariant forall k :: 0 <= k < i ==> newElements[k] == elements[k]
      {
        newElements[i] := elements[i];
        i := i + 1;
      }
      elements := newElements;
      capacity := newCapacity;
    }
  }
}
