/** Finite maps from byte strings, and the longest-prefix rule that the mount trie implements. */
module PrefixMaps {
  import opened Bytes

  function Get<V>(m: map<seq<byte>, V>, p: seq<byte>): Option<V> {
    if p in m then Some(m[p]) else None
  }

  /** The value of the longest key that is a prefix of q. */
  function Longest<V>(m: map<seq<byte>, V>, q: seq<byte>): Option<V> {
    if q in m then Some(m[q])
    else if q == [] then None
    else Longest(m, q[..|q| - 1])
  }

  /** The prefix of length n is the longest one that is a key. */
  predicate IsLongest<V>(m: map<seq<byte>, V>, q: seq<byte>, n: nat) {
    n <= |q| && q[..n] in m && forall k | n < k <= |q| :: q[..k] !in m
  }

  /** Longest, spelled out: the key is there, is a prefix, and no longer key is one. */
  lemma {:induction false} LongestIsLongest<V>(m: map<seq<byte>, V>, q: seq<byte>)
    ensures Longest(m, q).None? <==> forall n | 0 <= n <= |q| :: q[..n] !in m
    ensures Longest(m, q).Some? ==> exists n: nat :: IsLongest(m, q, n) && Longest(m, q) == Some(m[q[..n]])
  {
    assert q[..|q|] == q;
    if q in m {
      assert IsLongest(m, q, |q|);
    } else if q != [] {
      var r := q[..|q| - 1];
      LongestIsLongest(m, r);
      assert forall n | 0 <= n < |q| :: r[..n] == q[..n];
      if Longest(m, r).Some? {
        var n: nat :| IsLongest(m, r, n) && Longest(m, r) == Some(m[r[..n]]);
        LongerBy(m, q, n);
      }
    }
  }

  lemma LongerBy<V>(m: map<seq<byte>, V>, q: seq<byte>, n: nat)
    requires q != [] && q !in m && IsLongest(m, q[..|q| - 1], n)
    ensures IsLongest(m, q, n) && q[..|q| - 1][..n] == q[..n]
  {
    var r := q[..|q| - 1];
    assert forall k | 0 <= k < |q| :: r[..k] == q[..k];
    assert q[..|q|] == q;
  }

  lemma {:induction false} LongestAt<V>(m: map<seq<byte>, V>, q: seq<byte>, len: nat)
    requires len <= |q| && q[..len] in m && forall k | len < k <= |q| :: q[..k] !in m
    ensures Longest(m, q) == Some(m[q[..len]])
  {
    assert q[..|q|] == q;
    if len < |q| {
      var r := q[..|q| - 1];
      assert forall k | 0 <= k < |q| :: r[..k] == q[..k];
      LongestAt(m, r, len);
    }
  }

  /** One slot of a node: the text on the edge, the value beside it and what hangs below. */
  datatype Slot<V> = Slot(text: seq<byte>, value: Option<V>, below: map<seq<byte>, V>)

  /** What a slot says about the string p; a value below the edge wins over the one beside it. */
  function SlotGet<V>(slot: Option<Slot<V>>, p: seq<byte>): Option<V> {
    match slot
    case None => None
    case Some(s) =>
      if !(s.text <= p) then None
      else if p[|s.text|..] in s.below then Some(s.below[p[|s.text|..]])
      else if p == s.text then s.value
      else None
  }

  /** The slot says the right thing about every string that starts with b. */
  ghost predicate Describes<V>(m: map<seq<byte>, V>, b: byte, slot: Option<Slot<V>>) {
    forall p: seq<byte> | p != [] && p[0] == b :: Get(m, p) == SlotGet(slot, p)
  }

  lemma DescribesOther<V>(m: map<seq<byte>, V>, b: byte, slot: Option<Slot<V>>, name: seq<byte>, v: V)
    requires Describes(m, b, slot) && (name == [] || name[0] != b)
    ensures Describes(m[name := v], b, slot)
  {
  }

  /** Going on below the edge. */
  lemma DescribesDescend<V>(m: map<seq<byte>, V>, s: Slot<V>, name: seq<byte>, v: V)
    requires s.text != [] && s.text <= name && Describes(m, name[0], Some(s))
    ensures Describes(m[name := v], name[0], Some(s.(below := s.below[name[|s.text|..] := v])))
  {
    var rest := name[|s.text|..];
    forall p: seq<byte> | p != [] && p[0] == name[0]
      ensures Get(m[name := v], p) == SlotGet(Some(s.(below := s.below[rest := v])), p)
    {
      assert Get(m, p) == SlotGet(Some(s), p);
      if s.text <= p {
        assert p == s.text + p[|s.text|..] && name == s.text + rest;
      }
    }
  }

  /** The part of m below the prefix, with the prefix taken off. */
  function Cut<V>(m: map<seq<byte>, V>, prefix: seq<byte>): map<seq<byte>, V> {
    var keys := set p | p in m && prefix <= p :: p[|prefix|..];
    assert forall p | p in m && prefix <= p :: prefix + p[|prefix|..] == p;
    map s | s in keys :: m[prefix + s]
  }

  lemma CutGet<V>(m: map<seq<byte>, V>, prefix: seq<byte>, s: seq<byte>)
    ensures Get(Cut(m, prefix), s) == Get(m, prefix + s)
  {
    var keys := set p | p in m && prefix <= p :: p[|prefix|..];
    assert forall p | p in m && prefix <= p :: prefix + p[|prefix|..] == p;
    if prefix + s in m {
      assert prefix <= prefix + s && (prefix + s)[|prefix|..] == s;
    }
  }

  lemma GetOther<V>(m: map<seq<byte>, V>, name: seq<byte>, v: V, p: seq<byte>)
    ensures Get(m[name := v], p) == if p == name then Some(v) else Get(m, p)
  {
  }

  lemma PrefixTransitive<T>(a: seq<T>, b: seq<T>, c: seq<T>)
    requires a <= b <= c
    ensures a <= c
  {
  }

  lemma SameSuffix<T>(head: seq<T>, p: seq<T>, q: seq<T>)
    requires head <= p && head <= q
    ensures p[|head|..] == q[|head|..] <==> p == q
    ensures head + p[|head|..] == p
  {
    assert p == head + p[|head|..] && q == head + q[|head|..];
  }

  /** Cutting the edge: the first part stays, the second part moves below next to the new name. */
  lemma DescribesSplit<V>(m: map<seq<byte>, V>, s: Slot<V>, k: nat, name: seq<byte>, v: V)
    requires 0 < k < |s.text| && k <= |name| && s.text[..k] == name[..k]
    requires Describes(m, name[0], Some(s))
    ensures Describes(m[name := v], name[0], Some(Slot(s.text[..k], None, Cut(m, s.text[..k])[name[k..] := v])))
  {
    var head := s.text[..k];
    var below := Cut(m, head)[name[k..] := v];
    var slot := Slot(head, None, below);
    forall p: seq<byte> | p != [] && p[0] == name[0]
      ensures Get(m[name := v], p) == SlotGet(Some(slot), p)
    {
      if head <= p {
        SameSuffix(head, p, name);
        var rest := p[k..];
        CutGet(m, head, rest);
        assert SlotGet(Some(slot), p) == Get(below, rest);
      } else {
        assert Get(m, p) == SlotGet(Some(s), p);
        if s.text <= p {
          PrefixTransitive(head, s.text, p);
        }
      }
    }
  }

  /** The node behind a cut edge: the rest of the edge, and the new name where it leaves the edge. */
  lemma DescribesBelow<V>(m: map<seq<byte>, V>, s: Slot<V>, k: nat, b: byte)
    requires 0 < k < |s.text| && Describes(m, s.text[0], Some(s))
    ensures var slot := if b == s.text[k] then Some(s.(text := s.text[k..])) else None;
      Describes(Cut(m, s.text[..k]), b, slot)
    ensures Get(Cut(m, s.text[..k]), []) == None
  {
    var head, tail := s.text[..k], s.text[k..];
    var slot := if b == s.text[k] then Some(s.(text := tail)) else None;
    assert s.text == head + tail;
    CutGet(m, head, []);
    assert head + [] == head && Get(m, head) == SlotGet(Some(s), head);
    forall p: seq<byte> | p != [] && p[0] == b
      ensures Get(Cut(m, head), p) == SlotGet(slot, p)
    {
      CutGet(m, head, p);
      assert Get(m, head + p) == SlotGet(Some(s), head + p);
      SlotShift(s, head, tail, p);
    }
  }

  lemma SlotShift<V>(s: Slot<V>, head: seq<byte>, tail: seq<byte>, p: seq<byte>)
    requires s.text == head + tail
    ensures SlotGet(Some(s), head + p) == SlotGet(Some(s.(text := tail)), p)
  {
    PrefixBehind(head, tail, p);
    if tail <= p {
      assert (head + p)[|s.text|..] == p[|tail|..];
    }
  }

  lemma PrefixBehind<T>(head: seq<T>, t: seq<T>, p: seq<T>)
    ensures head + t <= head + p <==> t <= p
    ensures head + t == head + p <==> t == p
  {
    assert (head + t)[|head|..] == t && (head + p)[|head|..] == p;
    if head + t <= head + p {
      assert (head + p)[|head|..|head| + |t|] == t;
      assert p[..|t|] == t;
    }
  }

  lemma DescribesNew<V>(m: map<seq<byte>, V>, name: seq<byte>, v: V)
    requires name != [] && Describes(m, name[0], None)
    ensures Describes(m[name := v], name[0], Some(Slot(name, Some(v), map[])))
  {
    forall p: seq<byte> | p != [] && p[0] == name[0]
      ensures Get(m[name := v], p) == SlotGet(Some(Slot(name, Some(v), map[])), p)
    {
      assert Get(m, p) == None;
    }
  }

  lemma {:induction false} LongestEmpty<V>(m: map<seq<byte>, V>, q: seq<byte>)
    requires m == map[]
    ensures Longest(m, q) == None
  {
    if q != [] {
      LongestEmpty(m, q[..|q| - 1]);
    }
  }

  /** When a slot describes the strings that start with its first byte, so does the lookup through it. */
  lemma {:induction false} LongestThroughSlot<V>(m: map<seq<byte>, V>, s: Slot<V>, q: seq<byte>)
    requires s.text != [] && s.text <= q
    requires Describes(m, q[0], Some(s))
    ensures var below := Longest(s.below, q[|s.text|..]);
      Longest(m, q) == if below.Some? then below else if s.value.Some? then s.value else Get(m, [])
  {
    var rest := q[|s.text|..];
    assert Get(m, q) == SlotGet(Some(s), q);
    if q == s.text {
      assert rest == [];
      if q !in m {
        LongestNotInside(m, q[..|q| - 1], Some(s));
      }
    } else if q !in m {
      var r := q[..|q| - 1];
      assert r[|s.text|..] == rest[..|rest| - 1];
      LongestThroughSlot(m, s, r);
    }
  }

  /** No string that is shorter than the edge, or leaves it, is a key, except possibly "". */
  lemma {:induction false} LongestNotInside<V>(m: map<seq<byte>, V>, q: seq<byte>, s: Option<Slot<V>>)
    requires q != [] ==> Describes(m, q[0], s)
    requires s.Some? ==> !(s.value.text <= q)
    ensures Longest(m, q) == Get(m, [])
  {
    if q != [] {
      assert Get(m, q) == None;
      LongestNotInside(m, q[..|q| - 1], s);
    }
  }
}
