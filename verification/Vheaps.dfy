/** The heap of the order preserving minimal perfect hash map (opmphm_vheap.c). */
module Vheaps {
  import opened Bytes
  import opened Growth

  /** comp (a, b) says that a comes before b. */
  ghost predicate StrictWeakOrder<T(!new)>(comp: (T, T) -> bool) {
    && (forall a :: !comp(a, a))
    && (forall a, b, c :: comp(a, b) && comp(b, c) ==> comp(a, c))
    && (forall a, b, c :: !comp(a, b) && !comp(b, c) ==> !comp(a, c))
  }

  function Parent(i: nat): nat
    requires i > 0
  {
    (i - 1) / 2
  }

  /** No element comes before its parent, except perhaps at the positions the sift is busy with. */
  ghost predicate HeapExcept<T(!new)>(comp: (T, T) -> bool, v: seq<T>, up: int, down: int) {
    forall i | 0 < i < |v| && i != up && Parent(i) != down :: !comp(v[i], v[Parent(i)])
  }

  ghost predicate IsHeap<T(!new)>(comp: (T, T) -> bool, v: seq<T>) {
    HeapExcept(comp, v, -1, -1)
  }

  /** The children of p do not come before p's parent either. */
  ghost predicate Bridged<T(!new)>(comp: (T, T) -> bool, v: seq<T>, p: nat) {
    p > 0 ==> forall i | 0 < i < |v| && Parent(i) == p && p < |v| :: !comp(v[i], v[Parent(p)])
  }

  function Swap<T>(v: seq<T>, i: nat, j: nat): (r: seq<T>)
    requires i < |v| && j < |v|
    ensures |r| == |v|
    ensures forall k | 0 <= k < |v| :: r[k] == if k == i then v[j] else if k == j then v[i] else v[k]
  {
    v[i := v[j]][j := v[i]]
  }

  lemma SwapKeepsElements<T>(v: seq<T>, i: nat, j: nat)
    requires i < |v| && j < |v|
    ensures multiset(Swap(v, i, j)) == multiset(v)
  {
  }

  /** Nothing comes before the first element of a heap. */
  lemma {:induction false} FirstOfHeap<T(!new)>(comp: (T, T) -> bool, v: seq<T>, i: nat)
    requires StrictWeakOrder(comp) && IsHeap(comp, v) && i < |v|
    ensures !comp(v[i], v[0])
  {
    if i > 0 {
      FirstOfHeap(comp, v, Parent(i));
      assert !comp(v[i], v[Parent(i)]);
    }
  }

  /** A new last element leaves the heap as it is, except at its own position. */
  lemma AppendedLast<T(!new)>(comp: (T, T) -> bool, v: seq<T>, x: T)
    requires IsHeap(comp, v)
    ensures HeapExcept(comp, v + [x], |v|, -1) && Bridged(comp, v + [x], |v|)
  {
    var w := v + [x];
    forall i | 0 < i < |w| && i != |v|
      ensures !comp(w[i], w[Parent(i)])
    {
      assert !comp(v[i], v[Parent(i)]);
    }
  }

  /** One step up. */
  lemma StepUp<T(!new)>(comp: (T, T) -> bool, v: seq<T>, p: nat)
    requires StrictWeakOrder(comp) && 0 < p < |v| && HeapExcept(comp, v, p, -1) && Bridged(comp, v, p)
    requires !comp(v[Parent(p)], v[p])
    ensures HeapExcept(comp, Swap(v, p, Parent(p)), Parent(p), -1) && Bridged(comp, Swap(v, p, Parent(p)), Parent(p))
  {
    var q := Parent(p);
    var w := Swap(v, p, q);
    forall i | 0 < i < |w| && i != q
      ensures !comp(w[i], w[Parent(i)])
      ensures Parent(i) == q && q > 0 ==> !comp(w[i], w[Parent(q)])
    {
      if i != p {
        assert !comp(v[i], v[Parent(i)]);
      }
      if q > 0 {
        assert !comp(v[q], v[Parent(q)]);
      }
    }
  }

  /** One step down, to the child that comes first. */
  lemma StepDown<T(!new)>(comp: (T, T) -> bool, v: seq<T>, p: nat, c: nat)
    requires StrictWeakOrder(comp) && p < c < |v| && Parent(c) == p
    requires HeapExcept(comp, v, -1, p) && Bridged(comp, v, p)
    requires comp(v[c], v[p]) && forall i | 0 < i < |v| && Parent(i) == p :: !comp(v[i], v[c])
    ensures HeapExcept(comp, Swap(v, p, c), -1, c) && Bridged(comp, Swap(v, p, c), c)
  {
    var w := Swap(v, p, c);
    forall i | 0 < i < |w| && Parent(i) != c
      ensures !comp(w[i], w[Parent(i)])
    {
      if Parent(i) != p && i != p {
        assert !comp(v[i], v[Parent(i)]);
      }
    }
    forall i | 0 < i < |w| && Parent(i) == c
      ensures !comp(w[i], w[Parent(c)])
    {
      assert !comp(v[i], v[Parent(i)]);
    }
  }

  class Vheap<T(0,!new)> {
    var data: array<T>
    var count: nat
    var size: nat
    const minSize: nat
    const comp: (T, T) -> bool
    /** Operations so far, and elements that reallocations had to move for them. */
    ghost var ops: nat
    ghost var moved: nat

    ghost predicate Valid()
      reads this, data
    {
      && count <= data.Length == size && Fits(minSize, size, count) && Paid(minSize, size, count, moved, ops)
      && StrictWeakOrder(comp) && IsHeap(comp, data[..count])
    }

    ghost function Elements(): multiset<T>
      requires Valid()
      reads this, data
    {
      multiset(data[..count])
    }

    constructor (comp: (T, T) -> bool, minSize: nat)
      requires minSize >= 1 && StrictWeakOrder(comp)
      ensures Valid() && fresh(data) && count == 0 && Elements() == multiset{} && ops == 0 && moved == 0
      ensures this.minSize == minSize && this.comp == comp
    {
      this.comp, size, this.minSize, count := comp, minSize, minSize, 0;
      data := new T[minSize];
      ops, moved := 0, 0;
    }

    method Realloc(n: nat, live: nat)
      requires live <= data.Length && live <= n
      modifies `data, `moved
      ensures fresh(data) && data.Length == n && moved == old(moved) + live
      ensures data[..live] == old(data[..live])
    {
      var bigger := new T[n];
      forall i | 0 <= i < live {
        bigger[i] := data[i];
      }
      data, moved := bigger, moved + live;
    }

    /** Room for one more element at the end. */
    method Grow()
      requires count <= data.Length == size && Fits(minSize, size, count) && Paid(minSize, size, count, moved, ops)
      modifies this
      ensures count == old(count) + 1 <= data.Length == size && Fits(minSize, size, count)
      ensures Paid(minSize, size, count, moved, ops) && ops == old(ops) + 1
      ensures size == if old(count) == old(size) then 2 * old(size) else old(size)
      ensures data[..count - 1] == old(data[..count]) && (if size == old(size) then data == old(data) else fresh(data))
      ensures moved == old(moved) + (if size == old(size) then 0 else old(count))
    {
      hide Fits, Paid;
      GrowKeeps(minSize, size, count, moved, ops);
      count := count + 1;
      if count > size {
        size := size * 2;
        Realloc(size, count - 1);
      }
      ops := ops + 1;
    }

    method Insert(x: T)
      requires Valid()
      modifies this, data
      ensures Valid() && (if size == old(size) then data == old(data) else fresh(data))
      ensures moved == old(moved) + (if size == old(size) then 0 else old(count))
      ensures size == if old(count) == old(size) then 2 * old(size) else old(size)
      ensures Elements() == old(Elements()) + multiset{x} && count == old(count) + 1 && ops == old(ops) + 1
    {
      hide HeapExcept, Bridged, StrictWeakOrder, Fits, Paid;
      AppendedLast(comp, data[..count], x);
      ghost var v := data[..count] + [x];
      Grow();
      var pos := SiftUp(x, v);
      ghost var w := data[..count][pos := x];
      data[pos] := x;
      assert data[..count] == w;
    }

    /** Moves parents down until x has its place; w is the array with x there. */
    method SiftUp(x: T, ghost v: seq<T>) returns (pos: nat)
      requires 0 < count <= data.Length && |v| == count && v == data[..count - 1] + [x]
      requires StrictWeakOrder(comp) && HeapExcept(comp, v, count - 1, -1) && Bridged(comp, v, count - 1)
      modifies data
      ensures pos < count && IsHeap(comp, data[..count][pos := x])
      ensures multiset(data[..count][pos := x]) == multiset(v)
    {
      hide HeapExcept, Bridged, StrictWeakOrder, Swap;
      pos := count - 1;
      ghost var w := v;
      while pos > 0
        invariant pos < count && |w| == count && w == data[..count][pos := x]
        invariant HeapExcept(comp, w, pos, -1) && Bridged(comp, w, pos) && multiset(w) == multiset(v)
      {
        var parent := (pos - 1) / 2;
        if comp(data[parent], x) {
          Settled(comp, w, pos);
          return;
        }
        StepUp(comp, w, pos);
        SwapKeepsElements(w, pos, parent);
        HoleMoves(data[..count], pos, parent, x);
        w := Swap(w, pos, parent);
        data[pos] := data[parent];
        pos := parent;
      }
      AtTop(comp, w);
    }

    /** The first element leaves, the last one takes its place; shrinking comes before both. */
    method TakeFirst() returns (r: T)
      requires 0 < count <= data.Length == size && Fits(minSize, size, count) && Paid(minSize, size, count, moved, ops)
      modifies this, data
      ensures count == old(count) - 1 < data.Length == size && Fits(minSize, size, count)
      ensures Paid(minSize, size, count, moved, ops) && ops == old(ops) + 1
      ensures size == if old(size) > minSize && 4 * count <= old(size) then old(size) / 2 else old(size)
      ensures r == old(data[0]) && (if size == old(size) then data == old(data) else fresh(data))
      ensures moved == old(moved) + (if size == old(size) then 0 else old(count))
      ensures data[..count] == if count > 0 then old(data[..count])[..count][0 := old(data[count - 1])] else []
    {
      hide Fits, Paid;
      ShrinkKeeps(minSize, size, count, moved, ops);
      ghost var v := data[..count];
      count := count - 1;
      if size > minSize && count <= size / 4 {
        size := size / 2;
        Realloc(size, count + 1);
      }
      ops := ops + 1;
      assert data[..count + 1] == v;
      r := data[0];
      data[0] := data[count];
    }

    method Remove() returns (r: Option<T>)
      requires Valid()
      modifies this, data
      ensures Valid() && (if size == old(size) then data == old(data) else fresh(data))
      ensures moved == old(moved) + (if size == old(size) then 0 else old(count))
      ensures old(count) == 0 ==> r == None && count == 0 && Elements() == old(Elements()) && ops == old(ops)
      ensures old(count) > 0 ==> r.Some? && count == old(count) - 1 && ops == old(ops) + 1
      ensures old(count) > 0 ==>
        size == if old(size) > minSize && 4 * count <= old(size) then old(size) / 2 else old(size)
      ensures old(count) > 0 ==> Elements() + multiset{r.value} == old(Elements())
      ensures old(count) > 0 ==> forall y | y in old(Elements()) :: !comp(y, r.value)
    {
      if count == 0 {
        return None;
      }
      hide HeapExcept, StrictWeakOrder, Fits, Paid, IsHeap;
      ghost var v, elements := data[..count], Elements();
      LastToFront(comp, v);
      FirstIsFirst(comp, v);
      var first := TakeFirst();
      assert multiset(data[..count]) + multiset{first} == elements && HeapExcept(comp, data[..count], -1, 0);
      SiftDown();
      assert Elements() + multiset{first} == elements;
      r := Some(first);
    }

    method SiftDown()
      requires count < data.Length && StrictWeakOrder(comp) && HeapExcept(comp, data[..count], -1, 0)
      modifies data
      ensures IsHeap(comp, data[..count]) && multiset(data[..count]) == old(multiset(data[..count]))
    {
      hide HeapExcept, Bridged, StrictWeakOrder, Swap;
      var elem, child, busy := 0, 1, true;
      BridgedAtTop(comp, data[..count]);
      while busy && child < count
        invariant child == 2 * elem + 1 && (elem < count || count == 0)
        invariant busy ==> HeapExcept(comp, data[..count], -1, elem) && Bridged(comp, data[..count], elem)
        invariant !busy ==> IsHeap(comp, data[..count])
        invariant multiset(data[..count]) == old(multiset(data[..count]))
        decreases count - elem, busy
      {
        ghost var v := data[..count];
        var first := child;
        if child + 1 < count && comp(data[child + 1], data[child]) {
          first := child + 1;
        }
        Children(comp, v, elem, first);
        busy := comp(data[first], data[elem]);
        if busy {
          StepDown(comp, v, elem, first);
          SwapKeepsElements(v, elem, first);
          var temp := data[first];
          data[first] := data[elem];
          data[elem] := temp;
          SwapIs(v, elem, first, data[..count]);
          elem := first;
          child := 2 * first + 1;
        } else {
          Sunk(comp, v, elem, first);
        }
      }
      if busy {
        NoChildren(comp, data[..count], elem);
      }
    }

    lemma Amortised()
      requires Valid()
      ensures moved <= 3 * ops + minSize / 2
    {
      MovedIsLinear(minSize, size, count, moved, ops);
    }

    lemma Capacity() returns (k: nat)
      requires Valid()
      ensures size == minSize * Power(k) && (size == minSize || count > size / 4) && count <= size == data.Length
    {
      k := DoubledIsPower(minSize, size);
    }
  }

  // ---------- ends of the sifts ----------

  lemma Settled<T(!new)>(comp: (T, T) -> bool, v: seq<T>, p: nat)
    requires StrictWeakOrder(comp) && 0 < p < |v| && HeapExcept(comp, v, p, -1) && comp(v[Parent(p)], v[p])
    ensures IsHeap(comp, v)
  {
  }

  lemma HoleMoves<T>(d: seq<T>, pos: nat, parent: nat, x: T)
    requires pos < |d| && parent < |d| && pos != parent
    ensures Swap(d[pos := x], pos, parent) == d[pos := d[parent]][parent := x]
  {
  }

  lemma AtTop<T(!new)>(comp: (T, T) -> bool, v: seq<T>)
    requires HeapExcept(comp, v, 0, -1)
    ensures IsHeap(comp, v)
  {
  }

  lemma BridgedAtTop<T(!new)>(comp: (T, T) -> bool, v: seq<T>)
    ensures Bridged(comp, v, 0)
  {
  }

  lemma FirstIsFirst<T(!new)>(comp: (T, T) -> bool, v: seq<T>)
    requires StrictWeakOrder(comp) && IsHeap(comp, v) && v != []
    ensures forall y | y in multiset(v) :: !comp(y, v[0])
  {
    forall y | y in multiset(v)
      ensures !comp(y, v[0])
    {
      var i :| 0 <= i < |v| && v[i] == y;
      FirstOfHeap(comp, v, i);
    }
  }

  /** The last element takes the place of the first one. */
  lemma LastToFront<T(!new)>(comp: (T, T) -> bool, v: seq<T>)
    requires IsHeap(comp, v) && v != []
    ensures var n := |v| - 1; var w := if n > 0 then v[..n][0 := v[n]] else [];
      HeapExcept(comp, w, -1, 0) && multiset(w) + multiset{v[0]} == multiset(v)
  {
    var n := |v| - 1;
    assert v == v[..n] + [v[n]];
    if n > 0 {
      var w := v[..n][0 := v[n]];
      forall i | 0 < i < |w| && Parent(i) != 0
        ensures !comp(w[i], w[Parent(i)])
      {
        assert !comp(v[i], v[Parent(i)]);
      }
    }
  }

  lemma Children<T(!new)>(comp: (T, T) -> bool, v: seq<T>, p: nat, c: nat)
    requires StrictWeakOrder(comp) && 2 * p + 1 < |v|
    requires c == if 2 * p + 2 < |v| && comp(v[2 * p + 2], v[2 * p + 1]) then 2 * p + 2 else 2 * p + 1
    ensures Parent(c) == p && forall i | 0 < i < |v| && Parent(i) == p :: !comp(v[i], v[c])
  {
  }

  lemma SwapIs<T>(v: seq<T>, p: nat, c: nat, w: seq<T>)
    requires p < |v| == |w| && c < |v| && w[p] == v[c] && w[c] == v[p]
    requires forall i | 0 <= i < |v| && i != p && i != c :: w[i] == v[i]
    ensures w == Swap(v, p, c)
  {
  }

  lemma Sunk<T(!new)>(comp: (T, T) -> bool, v: seq<T>, p: nat, c: nat)
    requires StrictWeakOrder(comp) && p < |v| && c < |v| && HeapExcept(comp, v, -1, p) && !comp(v[c], v[p])
    requires forall i | 0 < i < |v| && Parent(i) == p :: !comp(v[i], v[c])
    ensures IsHeap(comp, v)
  {
  }

  lemma NoChildren<T(!new)>(comp: (T, T) -> bool, v: seq<T>, p: nat)
    requires HeapExcept(comp, v, -1, p) && 2 * p + 1 >= |v|
    ensures IsHeap(comp, v)
  {
  }

  // ---------- draining ----------

  lemma NothingLeft<T(0,!new)>(heap: Vheap<T>)
    requires heap.Valid()
    ensures heap.count == 0 ==> heap.Elements() == multiset{}
  {
    hide HeapExcept, StrictWeakOrder, Fits, Paid;
  }

  /** The elements taken out are in order, and none of those left comes before them. */
  ghost predicate Drained<T(!new)>(comp: (T, T) -> bool, out: seq<T>, rest: multiset<T>) {
    && (forall i, j | 0 <= i < j < |out| :: !comp(out[j], out[i]))
    && forall i, y | 0 <= i < |out| && y in rest :: !comp(y, out[i])
  }

  lemma DrainedNext<T(!new)>(comp: (T, T) -> bool, out: seq<T>, r: T, rest: multiset<T>)
    requires Drained(comp, out, rest + multiset{r}) && forall y | y in rest + multiset{r} :: !comp(y, r)
    ensures Drained(comp, out + [r], rest)
  {
    assert r in rest + multiset{r} && forall y | y in rest :: y in rest + multiset{r};
  }

  /** Taking everything out gives the elements in order. */
  method Drain<T(0,!new)>(heap: Vheap<T>) returns (out: seq<T>)
    requires heap.Valid()
    modifies heap, heap.data
    ensures heap.Valid() && heap.count == 0
    ensures multiset(out) == old(heap.Elements())
    ensures forall i, j | 0 <= i < j < |out| :: !heap.comp(out[j], out[i])
  {
    hide Vheap.Valid, Vheap.Elements;
    out := [];
    while heap.count > 0
      invariant heap.Valid() && (heap.data == old(heap.data) || fresh(heap.data))
      invariant multiset(out) + heap.Elements() == old(heap.Elements())
      invariant Drained(heap.comp, out, heap.Elements())
      decreases heap.count
    {
      hide Drained;
      var r := heap.Remove();
      DrainedNext(heap.comp, out, r.value, heap.Elements());
      out := out + [r.value];
    }
    NothingLeft(heap);
  }
}
