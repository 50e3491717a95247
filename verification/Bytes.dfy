/** Bytes, NUL-free strings and the lexicographic order that memcmp and strcmp compute. */
module Bytes {

  datatype Option<+T> = None | Some(value: T)

  newtype byte = x: int | 0 <= x < 256

  const NUL: byte := 0
  const PERCENT: byte := 37
  const DOT: byte := 46
  const SLASH: byte := 47
  const COLON: byte := 58
  const BACKSLASH: byte := 92

  /** What a C string can hold: any bytes but the terminator. */
  predicate NulFree(s: seq<byte>) {
    NUL !in s
  }

  /** n copies of the byte b. */
  function Repeat(b: byte, n: nat): (r: seq<byte>)
    ensures |r| == n
    ensures forall i | 0 <= i < n :: r[i] == b
  {
    if n == 0 then [] else [b] + Repeat(b, n - 1)
  }

  lemma {:induction false} RepeatSplit(b: byte, m: nat, n: nat)
    ensures Repeat(b, m) + Repeat(b, n) == Repeat(b, m + n)
  {
  }

  lemma Assoc<T>(a: seq<T>, b: seq<T>, c: seq<T>)
    ensures (a + b) + c == a + (b + c)
  {
  }

  /** Three-way lexicographic order on bytes, a proper prefix first. */
  function Compare(a: seq<byte>, b: seq<byte>): int {
    if a == [] then (if b == [] then 0 else -1)
    else if b == [] then 1
    else if a[0] != b[0] then (if a[0] < b[0] then -1 else 1)
    else Compare(a[1..], b[1..])
  }

  lemma {:induction false} CompareAntisymmetric(a: seq<byte>, b: seq<byte>)
    ensures Compare(a, b) == -Compare(b, a)
    ensures Compare(a, b) == 0 <==> a == b
  {
    if a != [] && b != [] && a[0] == b[0] {
      CompareAntisymmetric(a[1..], b[1..]);
      assert a == [a[0]] + a[1..] && b == [b[0]] + b[1..];
    }
  }

  /** The order, spelled out: a proper prefix, or a smaller byte at the first place that differs. */
  lemma {:induction false} CompareMeans(a: seq<byte>, b: seq<byte>)
    ensures Compare(a, b) < 0 <==>
      (|a| < |b| && a == b[..|a|]) || exists i | 0 <= i < |a| && i < |b| :: a[..i] == b[..i] && a[i] < b[i]
  {
    if a == [] {
      assert b[..0] == [];
    } else if b != [] && a[0] == b[0] {
      CompareMeans(a[1..], b[1..]);
      forall i | 0 < i <= |a| && i <= |b|
        ensures a[..i] == b[..i] <==> a[1..][..i - 1] == b[1..][..i - 1]
      {
        assert a[..i] == [a[0]] + a[1..][..i - 1] && b[..i] == [b[0]] + b[1..][..i - 1];
      }
      if i :| 0 <= i < |a[1..]| && i < |b[1..]| && a[1..][..i] == b[1..][..i] && a[1..][i] < b[1..][i] {
        assert a[..i + 1] == b[..i + 1] && a[i + 1] < b[i + 1];
      }
      if i :| 0 <= i < |a| && i < |b| && a[..i] == b[..i] && a[i] < b[i] {
        assert a[1..][..i - 1] == b[1..][..i - 1] && a[1..][i - 1] < b[1..][i - 1];
      }
    } else if b != [] {
      assert a[..0] == b[..0];
      forall i | 0 < i < |a| && i < |b|
        ensures a[..i] != b[..i]
      {
        assert a[..i][0] == a[0] && b[..i][0] == b[0];
      }
    }
  }

  lemma {:induction false} CompareTransitive(a: seq<byte>, b: seq<byte>, c: seq<byte>)
    requires Compare(a, b) <= 0 && Compare(b, c) <= 0
    ensures Compare(a, c) <= 0
    ensures Compare(a, b) < 0 || Compare(b, c) < 0 ==> Compare(a, c) < 0
  {
    if a != [] && b != [] && c != [] && a[0] == b[0] == c[0] {
      CompareTransitive(a[1..], b[1..], c[1..]);
    }
  }

  /** Prepending the same bytes to both sides changes nothing. */
  lemma {:induction false} ComparePrefixed(p: seq<byte>, a: seq<byte>, b: seq<byte>)
    ensures Compare(p + a, p + b) == Compare(a, b)
  {
    if p == [] {
      assert p + a == a && p + b == b;
    } else {
      assert (p + a)[1..] == p[1..] + a && (p + b)[1..] == p[1..] + b;
      ComparePrefixed(p[1..], a, b);
    }
  }

  lemma {:induction false} PrefixNotAfter(a: seq<byte>, b: seq<byte>)
    requires a <= b
    ensures Compare(a, b) <= 0
  {
    assert b == a + b[|a|..] && a == a + [];
    ComparePrefixed(a, [], b[|a|..]);
  }

  /** Strings that share the prefix p form an interval: nothing lies between two of them outside. */
  lemma {:induction false} PrefixInterval(p: seq<byte>, a: seq<byte>, m: seq<byte>, b: seq<byte>)
    requires p <= a && p <= b
    requires Compare(a, m) <= 0 && Compare(m, b) <= 0
    ensures p <= m
  {
    if p != [] {
      PrefixInterval(p[1..], a[1..], m[1..], b[1..]);
      assert p == [p[0]] + p[1..] && m == [m[0]] + m[1..];
    }
  }
}
