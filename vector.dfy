/**
 * The generic Vector layer that the String functions delegate to. Only the
 * behaviour the String layer relies on is specified: the growth policy and the
 * exact capacities chosen are left open by the contracts.
 */
module Vectors {

  /** The range-error enumeration of the Vector layer; V_E_CLEAR means "no error". */
  datatype VectorErr = V_E_CLEAR | V_E_RANGE

  /** What `Vector_at` yields: the element, or the error it signals. */
  datatype Result<T> = Ok(value: T) | Err(error: VectorErr)

  /** A resizable array: `arr.Length` is the allocated size (`_arrSize`), `length` the used prefix. */
  class Vector<T(0)> {
    var arr: array<T>
    var length: nat

    ghost predicate Valid()
      reads this
    {
      length <= arr.Length
    }

    /** The number of elements the buffer holds without reallocation. */
    function Capacity(): nat
      reads this
    {
      arr.Length
    }

    /** The logically valid elements. */
    function Contents(): (s: seq<T>)
      reads this, arr
      requires Valid()
      ensures |s| == length
    {
      arr[..length]
    }

    /** initVector: room for at least `initSize` elements and for all of `elems`, holding `elems`. */
    constructor Init(initSize: nat, elems: seq<T>)
      ensures Valid() && fresh(arr)
      ensures Contents() == elems
      ensures Capacity() >= initSize && Capacity() >= |elems|
    {
      var a := new T[if initSize > |elems| then initSize else |elems|];
      forall i | 0 <= i < |elems| {
        a[i] := elems[i];
      }
      arr := a;
      length := |elems|;
    }

    /** Vector_at: the element at `index`, or V_E_RANGE when `index` is not below `length`. */
    function At(index: nat): (r: Result<T>)
      reads this, arr
      requires Valid()
      ensures r.Ok? <==> index < length
      ensures r.Ok? ==> r.value == Contents()[index]
      ensures r.Err? ==> r.error == V_E_RANGE
    {
      if index < length then Ok(arr[index]) else Err(V_E_RANGE)
    }

    /** Vector_clear: forget every element, keeping the buffer. */
    method Clear()
      requires Valid()
      modifies this`length
      ensures Valid() && Contents() == []
    {
      length := 0;
    }

    /** Vector_add: append one element, growing the buffer when it is full. */
    method Add(x: T)
      requires Valid()
      modifies this, arr
      ensures Valid() && (arr == old(arr) || fresh(arr))
      ensures Contents() == old(Contents()) + [x]
      ensures Capacity() >= old(Capacity())
    {
      if length == arr.Length {
        var a := new T[2 * arr.Length + 1];
        forall i | 0 <= i < length {
          a[i] := arr[i];
        }
        arr := a;
      }
      arr[length] := x;
      length := length + 1;
    }

    /** _Vector_resize: grow the buffer by at least `n` elements, keeping every element. */
    method Resize(n: nat)
      requires Valid()
      modifies this
      ensures Valid() && fresh(arr)
      ensures Contents() == old(Contents())
      ensures Capacity() >= old(Capacity()) + n
    {
      var a := new T[arr.Length + n];
      forall i | 0 <= i < length {
        a[i] := arr[i];
      }
      arr := a;
    }
  }

  /**
   * initByteVector: a fresh byte vector holding `bytes`, with room for at least
   * `initSize` bytes and one byte beyond the content, where a NUL terminator is written.
   */
  method InitByteVector(initSize: nat, bytes: seq<char>) returns (v: Vector<char>)
    ensures fresh(v) && fresh(v.arr) && v.Valid()
    ensures v.Contents() == bytes
    ensures v.Capacity() >= initSize && v.length < v.Capacity()
    ensures v.arr[v.length] == '\0'
  {
    v := new Vector<char>.Init(if initSize > |bytes| then initSize else |bytes| + 1, bytes);
    v.arr[v.length] := '\0';
  }
}
