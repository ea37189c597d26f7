/**
 * MiniVector (MiniVector.hpp, types.cpp): a self-growing array.  Elements
 * live in the first `size` cells of `elements`; inserting into the last free
 * cell doubles the capacity, so a vector between calls is never full.
 */
module MiniVector {
  class MiniVector<T(0)> {
    var cap: nat
    var size: nat
    var elements: array<T>

    /** Between calls the array has room for one more element. */
    ghost predicate Valid()
      reads this
    {
      1 <= cap == elements.Length && size < cap
    }

    /** begin() .. end(): the elements in insertion order. */
    function Elements(): (r: seq<T>)
      reads this, elements
      requires Valid()
      ensures |r| == size && forall i :: 0 <= i < size ==> r[i] == elements[i]
    {
      elements[..size]
    }

    /** size() */
    function Size(): (r: nat)
      reads this, elements
      requires Valid()
      ensures r == |Elements()|
    {
      size
    }

    constructor(capacity: nat)
      requires 1 <= capacity
      ensures Valid() && fresh(elements) && Elements() == [] && cap == capacity
    {
      cap := capacity;
      size := 0;
      elements := new T[capacity];
    }

    /** reset: forget the elements; the capacity stays. */
    method Reset()
      requires Valid()
      modifies this
      ensures Valid() && Elements() == [] && cap == old(cap) && elements == old(elements)
    {
      size := 0;
    }

    /** insert: store at the end, then expand when that filled the array. */
    method Insert(data: T)
      requires Valid()
      modifies this, elements
      ensures Valid() && Elements() == old(Elements()) + [data]
      ensures old(size) + 1 < old(cap) ==> cap == old(cap) && elements == old(elements)
      ensures old(size) + 1 == old(cap) ==> cap == 2 * old(cap) && fresh(elements)
    {
      ghost var before := Elements();
      elements[size] := data;
      size := size + 1;
      assert elements[..size] == before + [data];
      if size != cap {
        return;
      }
      Expand();
    }

    /** expand: twice the capacity, with the first `size` elements copied over. */
    method Expand()
      requires 1 <= cap == elements.Length && size <= cap
      modifies this
      ensures cap == 2 * old(cap) && cap == elements.Length && fresh(elements)
      ensures size == old(size) && elements[..size] == old(elements[..size])
    {
      var temp := elements;
      cap := cap * 2;
      elements := new T[cap];
      forall i | 0 <= i < size {
        elements[i] := temp[i];
      }
    }
  }
}
