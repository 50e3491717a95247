/** The capacity rule shared by the heap and the stack: double when full, halve when at most a quarter is used. */
module Growth {

  /** size is minSize times a power of two. */
  predicate Doubled(minSize: nat, size: nat)
    requires minSize > 0
  {
    size == minSize || (size > minSize && size % 2 == 0 && Doubled(minSize, size / 2))
  }

  function Power(k: nat): (r: nat)
    ensures r > 0
  {
    if k == 0 then 1 else 2 * Power(k - 1)
  }

  lemma {:induction false} DoubledIsPower(minSize: nat, size: nat) returns (k: nat)
    requires minSize > 0 && Doubled(minSize, size)
    ensures size == minSize * Power(k)
  {
    if size == minSize {
      k := 0;
    } else {
      var j := DoubledIsPower(minSize, size / 2);
      k := j + 1;
      assert size == 2 * (minSize * Power(j)) == minSize * Power(k);
    }
  }

  lemma {:induction false} PowerIsDoubled(minSize: nat, k: nat)
    requires minSize > 0
    ensures Doubled(minSize, minSize * Power(k))
  {
    if k > 0 {
      PowerIsDoubled(minSize, k - 1);
      TwiceMore(minSize, Power(k - 1));
    }
  }

  lemma TwiceMore(m: nat, p: nat)
    requires m > 0 && p > 0
    ensures m * (2 * p) == 2 * (m * p) && m * p >= m
  {
  }

  /** Enough room, and unless it has the minimal size more than a quarter is used. */
  predicate Fits(minSize: nat, size: nat, count: nat) {
    && minSize > 0 && Doubled(minSize, size) && count <= size
    && (size == minSize || count > size / 4)
  }

  /** The size before the element number count + 1 is stored. */
  function Grown(size: nat, count: nat): nat {
    if count + 1 > size then size * 2 else size
  }

  /** The size after the element number count was taken out. */
  function Shrunk(minSize: nat, size: nat, count: nat): nat
    requires count > 0
  {
    if size > minSize && count - 1 <= size / 4 then size / 2 else size
  }

  /** Twice the number of elements a reallocation may still have to move. */
  function Potential(size: nat, count: nat): nat {
    if 2 * count >= size then 2 * (2 * count - size) else size - 2 * count
  }

  /** Elements moved by reallocations, against the number of operations. */
  predicate Paid(minSize: nat, size: nat, count: nat, moved: nat, ops: nat) {
    2 * moved + Potential(size, count) <= 6 * ops + minSize
  }

  /** Altogether at most linear in the number of operations. */
  lemma MovedIsLinear(minSize: nat, size: nat, count: nat, moved: nat, ops: nat)
    requires Paid(minSize, size, count, moved, ops)
    ensures moved <= 3 * ops + minSize / 2
  {
  }

  lemma GrowKeeps(minSize: nat, size: nat, count: nat, moved: nat, ops: nat)
    requires Fits(minSize, size, count) && Paid(minSize, size, count, moved, ops)
    ensures var now := Grown(size, count);
      && Fits(minSize, now, count + 1) && count + 1 <= now
      && Paid(minSize, now, count + 1, moved + (if now != size then count else 0), ops + 1)
  {
    hide Doubled, Potential, Paid;
    AtLeast(minSize, size);
    GrowPays(minSize, size, count, moved, ops);
  }

  lemma GrowPays(minSize: nat, size: nat, count: nat, moved: nat, ops: nat)
    requires count <= size && Paid(minSize, size, count, moved, ops)
    ensures var now := Grown(size, count);
      Paid(minSize, now, count + 1, moved + (if now != size then count else 0), ops + 1)
  {
    if count == size {
      assert Potential(size, count) == 2 * size && Potential(size * 2, count + 1) == 4;
    } else {
      assert Potential(size, count + 1) <= Potential(size, count) + 4;
    }
  }

  /** After shrinking, the element taken out is still inside the array. */
  lemma ShrinkKeeps(minSize: nat, size: nat, count: nat, moved: nat, ops: nat)
    requires Fits(minSize, size, count) && count > 0 && Paid(minSize, size, count, moved, ops)
    ensures var now := Shrunk(minSize, size, count);
      && Fits(minSize, now, count - 1) && count - 1 < now
      && Paid(minSize, now, count - 1, moved + (if now != size then count else 0), ops + 1)
  {
    hide Doubled, Potential, Paid;
    AtLeast(minSize, size);
    ShrinkPays(minSize, size, count, moved, ops);
  }

  lemma ShrinkPays(minSize: nat, size: nat, count: nat, moved: nat, ops: nat)
    requires 0 < count <= size && Paid(minSize, size, count, moved, ops)
    requires size > minSize ==> size == 2 * (size / 2)
    requires size > minSize ==> count > size / 4
    ensures var now := Shrunk(minSize, size, count);
      Paid(minSize, now, count - 1, moved + (if now != size then count else 0), ops + 1)
  {
    if size > minSize && count - 1 <= size / 4 {
      assert 2 * count + Potential(size / 2, count - 1) <= Potential(size, count) + 6;
    } else {
      assert Potential(size, count - 1) <= Potential(size, count) + 2;
    }
  }

  lemma AtLeast(minSize: nat, size: nat)
    requires minSize > 0 && Doubled(minSize, size)
    ensures size >= minSize && (size > minSize ==> size / 2 >= minSize && size == 2 * (size / 2))
    ensures size > minSize && size / 2 > minSize ==> size % 4 == 0
    ensures Doubled(minSize, size * 2) && (size > minSize ==> Doubled(minSize, size / 2))
  {
    hide Doubled;
    NotSmaller(minSize, size);
    Halves(minSize, size);
    if size > minSize {
      NotSmaller(minSize, size / 2);
      Halves(minSize, size / 2);
      if size / 2 > minSize {
        assert size == 4 * (size / 2 / 2);
      }
    }
    Twice(minSize, size);
  }

  lemma {:induction false} NotSmaller(minSize: nat, size: nat)
    requires minSize > 0 && Doubled(minSize, size)
    ensures size >= minSize
  {
  }

  lemma Halves(minSize: nat, size: nat)
    requires minSize > 0 && Doubled(minSize, size)
    ensures size > minSize ==> size == 2 * (size / 2) && Doubled(minSize, size / 2)
  {
  }

  lemma Twice(minSize: nat, size: nat)
    requires minSize > 0 && Doubled(minSize, size)
    ensures Doubled(minSize, size * 2)
  {
    NotSmaller(minSize, size);
    assert size * 2 / 2 == size;
  }
}
