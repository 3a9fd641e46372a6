/** The growable array that the kernel's containers are built on. */
module GrowableList {

  class List<T(0)> {
    var data: array<T>
    var size: nat
    var maxCapacity: nat

    predicate Valid()
      reads this
    {
      size <= maxCapacity == data.Length
    }

    ghost function Contents(): (s: seq<T>)
      requires Valid()
      reads this, data
    {
      data[..size]
    }

    constructor (capacity: nat)
      ensures Valid() && Contents() == [] && fresh(data)
    {
      size, maxCapacity, data := 0, capacity, new T[capacity];
    }

    /** Moves the elements to a new array of the requested size. */
    method Resize(requested: nat)
      requires Valid() && size <= requested
      modifies this
      ensures Valid() && fresh(data) && maxCapacity == requested && Contents() == old(Contents())
    {
      maxCapacity := requested;
      var newData := new T[requested];
      for i := 0 to size
        invariant size <= data.Length && data == old(data) && size == old(size)
        invariant newData[..i] == data[..i]
        invariant data[..] == old(data[..])
        modifies newData
      {
        newData[i] := data[i];
      }
      data := newData;
    }

    method At(ind: nat) returns (x: T)
      requires Valid() && ind < size
      ensures x == Contents()[ind]
    {
      x := data[ind];
    }

    method Set(ind: nat, c: T)
      requires Valid() && ind < size
      modifies data
      ensures Contents() == old(Contents()[..ind]) + [c] + old(Contents()[ind + 1..])
    {
      data[ind] := c;
      assert Contents() == old(Contents())[ind := c];
    }

    method PushBack(c: T)
      requires Valid()
      modifies this, data
      ensures Valid() && Contents() == old(Contents()) + [c]
      ensures maxCapacity == if old(size < maxCapacity) then old(maxCapacity) else old(maxCapacity) * 2 + 1
      ensures data == old(data) || fresh(data)
    {
      if size >= maxCapacity {
        Resize(maxCapacity * 2 + 1);
      }
      data[size] := c;
      size := size + 1;
    }

    /** Copies another list's elements behind the last one of this. */
    method CopyBehind(other: List<T>)
      requires Valid() && other.Valid() && size + other.size <= maxCapacity && (other == this || other.data != data)
      modifies data
      ensures data[..size + other.size] == old(Contents()) + old(other.Contents())
    {
      var end := other.size + size;
      for i := size to end
        invariant forall k | 0 <= k < size :: data[k] == old(data[k])
        invariant forall k | 0 <= k < other.size :: other.data[k] == old(other.data[k])
        invariant forall k | size <= k < i :: data[k] == old(other.data[k - size])
      {
        data[i] := other.data[i - size];
      }
    }

    /** Appends another list, which may be this one. */
    method Append(other: List<T>)
      requires Valid() && other.Valid() && (other == this || other.data != data)
      modifies this, data
      ensures Valid() && Contents() == old(Contents()) + old(other.Contents())
      ensures maxCapacity ==
        if old(size + other.size < maxCapacity) then old(maxCapacity) else old(other.size + size) * 2 + 1
      ensures data == old(data) || fresh(data)
    {
      if maxCapacity <= size + other.size {
        Resize((other.size + size) * 2 + 1);
      }
      CopyBehind(other);
      size := other.size + size;
    }

    /** Takes one element out; those behind it move up. */
    method Erase(ind: nat)
      requires Valid() && ind < size
      modifies this`size, data
      ensures Valid() && Contents() == old(Contents()[..ind]) + old(Contents()[ind + 1..])
    {
      ghost var s := Contents();
      for i := ind to size - 1
        invariant forall k | 0 <= k < ind || i <= k < size :: data[k] == s[k]
        invariant forall k | ind <= k < i :: data[k] == s[k + 1]
        modifies data
      {
        data[i] := data[i + 1];
      }
      assert data[..size - 1] == s[..ind] + s[ind + 1..];
      size := size - 1;
    }
  }
}
