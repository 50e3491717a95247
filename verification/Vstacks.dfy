/** The stack of the order preserving minimal perfect hash map (opmphm_vstack.c). */
module Vstacks {
  import opened Bytes
  import opened Growth

  class Vstack<T(0)> {
    var data: array<T>
    var head: nat
    var size: nat
    const minSize: nat
    /** The elements from the bottom to the top. */
    ghost var contents: seq<T>
    /** Operations so far, and elements that reallocations had to move for them. */
    ghost var ops: nat
    ghost var moved: nat

    ghost predicate Valid()
      reads this, data
    {
      && data.Length == size && Fits(minSize, size, head) && Paid(minSize, size, head, moved, ops)
      && contents == data[..head]
    }

    constructor (minSize: nat)
      requires minSize >= 1
      ensures Valid() && fresh(data) && contents == [] && ops == 0 && moved == 0 && this.minSize == minSize
    {
      size, this.minSize, head := minSize, minSize, 0;
      data := new T[minSize];
      contents, ops, moved := [], 0, 0;
    }

    /** Moves the elements to an array of another size. */
    method Realloc(n: nat, live: nat)
      requires live <= data.Length && live <= n
      modifies `data, `moved
      ensures fresh(data) && data.Length == n && moved == old(moved) + live
      ensures forall i | 0 <= i < live :: data[i] == old(data[i])
    {
      var bigger := new T[n];
      forall i | 0 <= i < live {
        bigger[i] := data[i];
      }
      data, moved := bigger, moved + live;
    }

    method Push(x: T)
      requires Valid()
      modifies this, data
      ensures Valid() && (if size == old(size) then data == old(data) else fresh(data))
      ensures moved == old(moved) + (if size == old(size) then 0 else old(head))
      ensures size == if old(head) == old(size) then 2 * old(size) else old(size)
      ensures contents == old(contents) + [x] && ops == old(ops) + 1
    {
      GrowKeeps(minSize, size, head, moved, ops);
      if head >= size {
        size := size * 2;
        Realloc(size, head);
      }
      data[head] := x;
      head := head + 1;
      contents, ops := contents + [x], ops + 1;
    }

    /** An empty stack has nothing to give. */
    method Pop() returns (r: Option<T>)
      requires Valid()
      modifies this, data
      ensures Valid() && (if size == old(size) then data == old(data) else fresh(data))
      ensures moved == old(moved) + (if size == old(size) then 0 else old(head))
      ensures old(contents) == [] ==> r == None && contents == [] && ops == old(ops)
      ensures old(contents) != [] ==>
        size == if old(size) > minSize && |contents| <= old(size) / 4 then old(size) / 2 else old(size)
      ensures old(contents) != [] ==>
        && r == Some(old(contents)[|old(contents)| - 1]) && contents == old(contents)[..|old(contents)| - 1]
        && ops == old(ops) + 1
    {
      if head == 0 {
        return None;
      }
      ShrinkKeeps(minSize, size, head, moved, ops);
      head := head - 1;
      if size > minSize && head <= size / 4 {
        size := size / 2;
        Realloc(size, head + 1);
      }
      r := Some(data[head]);
      contents, ops := contents[..head], ops + 1;
    }

    /** Over any run the reallocations cost at most a constant for each operation. */
    lemma Amortised()
      requires Valid()
      ensures moved <= 3 * ops + minSize / 2
    {
      MovedIsLinear(minSize, size, head, moved, ops);
    }

    lemma Capacity() returns (k: nat)
      requires Valid()
      ensures size == minSize * Power(k) && (size == minSize || head > size / 4) && head <= size == data.Length
    {
      k := DoubledIsPower(minSize, size);
    }
  }
}
