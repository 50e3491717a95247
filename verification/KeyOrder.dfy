/** The order of keys in a keyset and the below relation (comparators of keyset.c, keytest.c). */
module KeyOrder {
  import opened Bytes
  import opened Escaping
  import opened Levels
  import opened KeyNames
  import opened NamedKeys

  /** The bytes a key is ordered by. */
  function Unescaped(n: Name): seq<byte> {
    UnescapedName(n.Render())
  }

  // ---------- comparators ----------

  /** memcmp over the first n bytes. */
  function MemCmp(a: seq<byte>, b: seq<byte>, n: nat): int
    requires n <= |a| && n <= |b|
  {
    if n == 0 then 0
    else if a[0] != b[0] then (if a[0] < b[0] then -1 else 1)
    else MemCmp(a[1..], b[1..], n - 1)
  }

  /** keyCompareByName on the unescaped names. */
  function CompareByName(name1: seq<byte>, name2: seq<byte>): int {
    if |name1| == |name2| then MemCmp(name1, name2, |name2|)
    else if |name1| < |name2| then
      var ret := MemCmp(name1, name2, |name1|);
      if ret == 0 then -1 else ret
    else
      var ret := MemCmp(name1, name2, |name2|);
      if ret == 0 then 1 else ret
  }

  /** keyCompareByOwner: no owner comes first. */
  function CompareByOwner(owner1: Option<seq<byte>>, owner2: Option<seq<byte>>): int {
    match (owner1, owner2)
    case (None, None) => 0
    case (None, Some(_)) => -1
    case (Some(_), None) => 1
    case (Some(a), Some(b)) => Compare(a, b)
  }

  /** What identifies a key inside a keyset. */
  datatype Ident = Ident(name: Name, owner: Option<seq<byte>>)

  function CompareIdents(a: Ident, b: Ident): int {
    var ret := CompareByName(Unescaped(a.name), Unescaped(b.name));
    if ret == 0 then CompareByOwner(a.owner, b.owner) else ret
  }

  lemma {:induction false} MemCmpIsCompare(a: seq<byte>, b: seq<byte>, n: nat)
    requires n <= |a| && n <= |b| && (n == |a| || n == |b|)
    ensures Compare(a, b) ==
      if MemCmp(a, b, n) != 0 then MemCmp(a, b, n) else if |a| == |b| then 0 else if |a| < |b| then -1 else 1
  {
    if n > 0 && a[0] == b[0] {
      MemCmpIsCompare(a[1..], b[1..], n - 1);
    }
  }

  /** The comparator is the lexicographic order. */
  lemma CompareByNameIsLexicographic(a: seq<byte>, b: seq<byte>)
    ensures CompareByName(a, b) == Compare(a, b)
  {
    MemCmpIsCompare(a, b, if |a| < |b| then |a| else |b|);
  }

  // ---------- the unescaped name determines the name ----------

  /** Lists of parts whose unescaped forms, each closed by a NUL, begin one another, begin one another. */
  lemma {:induction false} UnescapedPartsPrefix(a: seq<seq<byte>>, b: seq<seq<byte>>)
    requires ValidParts(a) && ValidParts(b)
    ensures UnescapedParts(a) <= UnescapedParts(b) <==> a <= b
  {
    hide *;
    UnescapedNil();
    if a == [] {
    } else if b == [] {
      UnescapedEndsInNul(a);
    } else {
      var x, y := UnescapedParts(a[1..]), UnescapedParts(b[1..]);
      ValidHead(a);
      ValidHead(b);
      UnescapedPartsPrefix(a[1..], b[1..]);
      assert a == [a[0]] + a[1..] && b == [b[0]] + b[1..];
      UnescapedHead(a[0], a[1..]);
      UnescapedHead(b[0], b[1..]);
      Assoc(Unescape(a[0]), [NUL], x);
      Assoc(Unescape(b[0]), [NUL], y);
      if UnescapedParts(a) <= UnescapedParts(b) {
        TerminatedEqual(Unescape(a[0]), x, Unescape(b[0]), y);
        EscapeUnescape(a[0]);
        EscapeUnescape(b[0]);
        assert a[0] == b[0];
      }
      if a[0] == b[0] {
        SamePrefix(Unescape(a[0]) + [NUL], x, y);
        SamePrefix([a[0]], a[1..], b[1..]);
      }
    }
  }

  lemma ValidHead(parts: seq<seq<byte>>)
    requires ValidParts(parts) && parts != []
    ensures var e := parts[0];
      && ValidParts(parts[1..]) && NulFree(Unescape(e)) && NulFree(e)
      && ValidPart(e) && e != [] && WellEscaped(e, 0) && e != [DOT] && e != [DOT, DOT]
  {
    assert ValidPart(parts[0]);
    UnescapeNulFree(parts[0]);
    assert forall i | 0 <= i < |parts| - 1 :: parts[1..][i] == parts[i + 1];
  }

  /** Two strings up to their first NUL. */
  lemma TerminatedEqual(a: seq<byte>, x: seq<byte>, b: seq<byte>, y: seq<byte>)
    requires NulFree(a) && NulFree(b)
    requires a + [NUL] + x <= b + [NUL] + y
    ensures a == b
  {
    var p, q := a + [NUL] + x, b + [NUL] + y;
    assert p[|a|] == NUL && q[|b|] == NUL;
    assert forall i | 0 <= i < |a| :: p[i] == a[i] != NUL;
    assert forall i | 0 <= i < |b| :: q[i] == b[i] != NUL;
    assert q[|a|] == p[|a|];
    assert |a| == |b|;
    assert p[..|a|] == a && q[..|b|] == b && q[..|a|] == p[..|a|];
  }

  lemma UnescapedOf(n: Name)
    requires n.Valid()
    ensures Unescaped(n) == (if n.root == [] then [NUL] else []) + UnescapedParts(n.Levels())
  {
    ValidIsReadable(n);
    SplitRender(n);
    RenderStart(n);
  }

  lemma LevelsValid(n: Name)
    requires n.Valid()
    ensures ValidParts(n.Levels())
  {
    if n.root != [] {
      NamespaceIsPart(n.root);
    }
  }

  /** a is q or an ancestor of q: the same root, and its parts come first. */
  predicate Encloses(a: Name, q: Name) {
    a.root == q.root && a.parts <= q.parts
  }

  /** Ancestors are exactly the names whose unescaped bytes begin the other's. */
  lemma UnescapedPrefix(a: Name, q: Name)
    requires a.Valid() && q.Valid()
    ensures Unescaped(a) <= Unescaped(q) <==> Encloses(a, q)
  {
    UnescapedOf(a);
    UnescapedOf(q);
    LevelsValid(a);
    LevelsValid(q);
    UnescapedPartsPrefix(a.Levels(), q.Levels());
    if a.root == [] && q.root == [] {
      SamePrefix([NUL], UnescapedParts(a.parts), UnescapedParts(q.parts));
    } else if a.root == [] || q.root == [] {
      UnescapedFirstByte(if a.root == [] then q else a);
    } else {
      assert [] + UnescapedParts(a.Levels()) == UnescapedParts(a.Levels());
      assert [] + UnescapedParts(q.Levels()) == UnescapedParts(q.Levels());
      SamePrefix([a.root], a.parts, q.parts);
    }
  }

  /** Cascading names begin with a NUL, the others do not. */
  lemma UnescapedFirstByte(n: Name)
    requires n.Valid()
    ensures Unescaped(n) != [] && (Unescaped(n)[0] == NUL <==> n.root == [])
  {
    UnescapedOf(n);
    if n.root != [] {
      NamespaceIsPart(n.root);
      assert UnescapedParts(n.Levels()) == (Unescape(n.root) + [NUL]) + UnescapedParts(n.Levels()[1..]);
      assert Unescape(n.root) == n.root by {
        PlainUnescape(n.root);
        assert LeadingBackslashes(n.root) == 0;
      }
    }
  }

  /** Different names have different unescaped forms. */
  lemma UnescapedInjective(a: Name, b: Name)
    requires a.Valid() && b.Valid() && Unescaped(a) == Unescaped(b)
    ensures a == b
  {
    UnescapedPrefix(a, b);
    UnescapedPrefix(b, a);
  }

  // ---------- the order is total, parents come first ----------

  lemma CompareIdentsAntisymmetric(a: Ident, b: Ident)
    requires a.name.Valid() && b.name.Valid()
    ensures CompareIdents(a, b) == -CompareIdents(b, a)
    ensures CompareIdents(a, b) == 0 <==> a == b
  {
    var u, v := Unescaped(a.name), Unescaped(b.name);
    CompareByNameIsLexicographic(u, v);
    CompareByNameIsLexicographic(v, u);
    CompareAntisymmetric(u, v);
    if u == v {
      UnescapedInjective(a.name, b.name);
      if a.owner.Some? && b.owner.Some? {
        CompareAntisymmetric(a.owner.value, b.owner.value);
      }
    }
  }

  /** Keys of one name: the one without owner comes first, the others in the order of their owners. */
  lemma OwnersDecide(n: Name, a: seq<byte>, b: seq<byte>)
    ensures CompareIdents(Ident(n, None), Ident(n, None)) == 0
    ensures CompareIdents(Ident(n, None), Ident(n, Some(a))) < 0 < CompareIdents(Ident(n, Some(a)), Ident(n, None))
    ensures CompareIdents(Ident(n, Some(a)), Ident(n, Some(b))) < 0 <==>
      (|a| < |b| && a == b[..|a|]) || exists i | 0 <= i < |a| && i < |b| :: a[..i] == b[..i] && a[i] < b[i]
  {
    var u := Unescaped(n);
    CompareByNameIsLexicographic(u, u);
    CompareAntisymmetric(u, u);
    CompareMeans(a, b);
  }

  /** The name decides before the owner, byte by byte of the unescaped form. */
  lemma NamesDecide(a: Ident, b: Ident)
    ensures var u, v := Unescaped(a.name), Unescaped(b.name);
      u != v ==> (CompareIdents(a, b) < 0 <==>
        (|u| < |v| && u == v[..|u|]) || exists i | 0 <= i < |u| && i < |v| :: u[..i] == v[..i] && u[i] < v[i])
  {
    var u, v := Unescaped(a.name), Unescaped(b.name);
    CompareByNameIsLexicographic(u, v);
    CompareAntisymmetric(u, v);
    CompareMeans(u, v);
  }

  lemma CompareIdentsTransitive(a: Ident, b: Ident, c: Ident)
    requires a.name.Valid() && b.name.Valid() && c.name.Valid()
    requires CompareIdents(a, b) < 0 && CompareIdents(b, c) < 0
    ensures CompareIdents(a, c) < 0
  {
    var u, v, w := Unescaped(a.name), Unescaped(b.name), Unescaped(c.name);
    CompareByNameIsLexicographic(u, v);
    CompareByNameIsLexicographic(v, w);
    CompareByNameIsLexicographic(u, w);
    CompareTransitive(u, v, w);
    CompareAntisymmetric(u, v);
    CompareAntisymmetric(v, w);
    CompareAntisymmetric(u, w);
    if u == v == w && a.owner.Some? && b.owner.Some? && c.owner.Some? {
      CompareTransitive(a.owner.value, b.owner.value, c.owner.value);
    }
  }

  /** Every parent precedes its descendants, whoever owns them. */
  lemma ParentsFirst(a: Ident, q: Ident)
    requires a.name.Valid() && q.name.Valid() && Encloses(a.name, q.name) && a.name != q.name
    ensures CompareIdents(a, q) < 0
  {
    var u, v := Unescaped(a.name), Unescaped(q.name);
    UnescapedPrefix(a.name, q.name);
    PrefixNotAfter(u, v);
    CompareByNameIsLexicographic(u, v);
    CompareAntisymmetric(u, v);
    if u == v {
      UnescapedInjective(a.name, q.name);
    }
  }

  /** A subtree is an interval of the order. */
  lemma SubtreeIsInterval(top: Name, a: Ident, m: Ident, b: Ident)
    requires top.Valid() && a.name.Valid() && m.name.Valid() && b.name.Valid()
    requires Encloses(top, a.name) && Encloses(top, b.name)
    requires CompareIdents(a, m) <= 0 && CompareIdents(m, b) <= 0
    ensures Encloses(top, m.name)
  {
    var u, v, w := Unescaped(a.name), Unescaped(m.name), Unescaped(b.name);
    CompareByNameIsLexicographic(u, v);
    CompareByNameIsLexicographic(v, w);
    UnescapedPrefix(top, a.name);
    UnescapedPrefix(top, b.name);
    PrefixInterval(Unescaped(top), u, v, w);
    UnescapedPrefix(top, m.name);
  }

  /** Cascading names come before all others. */
  lemma CascadingFirst(a: Ident, b: Ident)
    requires a.name.Valid() && b.name.Valid() && a.name.root == [] && b.name.root != []
    ensures CompareIdents(a, b) < 0
  {
    UnescapedFirstByte(a.name);
    UnescapedFirstByte(b.name);
    CompareByNameIsLexicographic(Unescaped(a.name), Unescaped(b.name));
  }
}
