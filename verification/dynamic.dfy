/** The growable array of src/lib/dynamic.c: fixed-size elements in one block of
    bytes that doubles when it is full. */
module DynamicArray {
  type byte = n: int | 0 <= n < 256

  const DYNAMIC_DEFAULT_CAPACITY := 32

  /** The space COUNT elements of N bytes take. */
  function Bytes(count: nat, n: nat): nat {
    count * n
  }

  lemma BytesStep(count: nat, n: nat)
    ensures Bytes(count + 1, n) == Bytes(count, n) + n && Bytes(0, n) == 0
  {}

  lemma BytesDouble(count: nat, n: nat)
    ensures Bytes(count * 2, n) == Bytes(count, n) * 2
  {}

  lemma {:induction false} BytesGrow(a: nat, b: nat, n: nat)
    requires a <= b
    ensures Bytes(a, n) <= Bytes(b, n)
  {
    if a < b {
      BytesStep(b - 1, n);
      BytesGrow(a, b - 1, n);
    }
  }

  function Concat(elems: seq<seq<byte>>): seq<byte> {
    if elems == [] then [] else Concat(elems[..|elems| - 1]) + elems[|elems| - 1]
  }

  ghost predicate AllOfSize(elems: seq<seq<byte>>, n: nat) {
    forall i :: 0 <= i < |elems| ==> |elems[i]| == n
  }

  lemma {:induction false} ConcatLength(elems: seq<seq<byte>>, n: nat)
    requires AllOfSize(elems, n)
    ensures |Concat(elems)| == Bytes(|elems|, n)
  {
    hide Bytes;
    BytesStep(0, n);
    if elems != [] {
      var k := |elems| - 1;
      ConcatLength(elems[..k], n);
      BytesStep(k, n);
      assert Concat(elems) == Concat(elems[..k]) + elems[k];
    }
  }

  lemma {:induction false} ConcatPrefix(elems: seq<seq<byte>>, i: nat)
    requires i <= |elems|
    ensures Concat(elems[..i]) <= Concat(elems)
  {
    if i < |elems| {
      assert elems[..|elems| - 1][..i] == elems[..i];
      ConcatPrefix(elems[..|elems| - 1], i);
    } else {
      assert elems[..i] == elems;
    }
  }

  /** Element i occupies the bytes from i times the element size on. */
  lemma ConcatAt(elems: seq<seq<byte>>, n: nat, i: nat)
    requires AllOfSize(elems, n) && i < |elems|
    ensures Bytes(i, n) + n <= |Concat(elems)| && Concat(elems)[Bytes(i, n)..Bytes(i, n) + n] == elems[i]
  {
    hide Bytes;
    ConcatLength(elems[..i], n);
    assert elems[..i + 1][..i] == elems[..i];
    ConcatPrefix(elems, i + 1);
    assert Concat(elems[..i + 1]) == Concat(elems[..i]) + elems[i];
  }

  class Dynamic {
    var length: nat
    var capacity: nat
    var size: nat
    var elementSize: nat
    /** The bytes behind the header. */
    var data: array<byte>
    ghost const initial: nat
    /** The elements, and how many of them regrowing has copied so far. */
    ghost var elems: seq<seq<byte>>
    ghost var copied: nat

    ghost predicate Sized()
      reads this
    {
      && elementSize >= 1 && length <= capacity && size == Bytes(capacity, elementSize) == data.Length
      && initial >= 1 && copied == capacity - initial
      && (capacity > initial ==> capacity < 2 * length)
    }

    ghost predicate Valid()
      reads this, data
    {
      && Sized() && length == |elems| && AllOfSize(elems, elementSize)
      && Bytes(length, elementSize) <= data.Length
      && data[..Bytes(length, elementSize)] == Concat(elems)
    }

    constructor Alloc(elementSize: nat, count: nat)
      requires elementSize >= 1 && count >= 1
      ensures Valid() && fresh(data)
      ensures elems == [] && this.elementSize == elementSize && capacity == initial == count
    {
      length, capacity, size := 0, count, Bytes(count, elementSize);
      this.elementSize := elementSize;
      data := new byte[Bytes(count, elementSize)];
      initial, elems, copied := count, [], 0;
    }

    /** dynamic_grow: make room for one more element. */
    method Grow()
      requires Valid()
      modifies this`length, this`capacity, this`size, this`data, this`copied
      ensures Sized() && length == old(length) + 1
      ensures Bytes(old(length), elementSize) + elementSize <= data.Length
      ensures data[..Bytes(old(length), elementSize)] == old(data[..Bytes(length, elementSize)])
      ensures data == old(data) || fresh(data)
    {
      hide Bytes;
      BytesStep(length, elementSize);
      if length == capacity {
        BytesDouble(capacity, elementSize);
        var block := data;
        size := size * 2;
        capacity := capacity * 2;
        data := new byte[size];
        forall i | 0 <= i < block.Length {
          data[i] := block[i];
        }
        copied := copied + length;
        assert data[..block.Length] == block[..];
      }
      length := length + 1;
      BytesGrow(length, capacity, elementSize);
    }

    /** dynamic_insert: append one element; the others stay what they are. */
    method Insert(element: seq<byte>)
      requires Valid() && |element| == elementSize
      modifies this`length, this`capacity, this`size, this`data, this`copied, this`elems, data
      ensures Valid() && elems == old(elems) + [element]
      ensures data == old(data) || fresh(data)
    {
      hide Bytes;
      var offset := Bytes(length, elementSize);
      BytesStep(length, elementSize);
      Grow();
      ghost var before := data[..offset];
      forall i | 0 <= i < elementSize {
        data[offset + i] := element[i];
      }
      elems := elems + [element];
      assert elems[..|elems| - 1] == old(elems);
      assert data[..offset + elementSize] == before + element;
    }

    /** dynamic_get: the offset at which element idx starts. */
    method Get(idx: nat) returns (offset: nat)
      requires Valid() && idx < length
      ensures offset + elementSize <= data.Length && data[offset..offset + elementSize] == elems[idx]
    {
      hide Bytes;
      offset := Bytes(idx, elementSize);
      ConcatAt(elems, elementSize, idx);
      assert data[..Bytes(length, elementSize)][offset..offset + elementSize] == data[offset..offset + elementSize];
    }
  }

  /** dynamic: no array of elements without a size. */
  method Create(elementSize: nat, initialCapacity: nat) returns (d: Dynamic?)
    ensures d == null <==> elementSize < 1
    ensures d != null ==> fresh(d) && d.Valid() && fresh(d.data) && d.elems == [] && d.elementSize == elementSize
                          && d.capacity == if initialCapacity == 0 then DYNAMIC_DEFAULT_CAPACITY else initialCapacity
  {
    if elementSize < 1 {
      return null;
    }
    var count := if initialCapacity == 0 then DYNAMIC_DEFAULT_CAPACITY else initialCapacity;
    d := new Dynamic.Alloc(elementSize, count);
  }

  /** Any number of inserts: the array holds what was inserted, in order, and
      regrowing has copied fewer than two elements for each. */
  method InsertAll(d: Dynamic, items: seq<seq<byte>>)
    requires d.Valid() && d.elems == [] && d.copied == 0 && AllOfSize(items, d.elementSize) && items != []
    modifies d, d.data
    ensures d.Valid() && d.elems == items && d.copied < 2 * |items|
  {
    for i := 0 to |items|
      invariant d.Valid() && d.elems == items[..i] && d.elementSize == old(d.elementSize)
      invariant d.data == old(d.data) || fresh(d.data)
    {
      d.Insert(items[i]);
    }
  }
}
