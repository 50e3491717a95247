/** When the run that ksCut takes out is the whole subtree, and where the cursor continues. */
module Cuts {
  import opened Bytes
  import opened Escaping
  import opened KeyNames
  import opened KeyOrder
  import opened Below
  import opened KeySets

  /** The run holds every hit and nothing else. */
  predicate CutsAll(keys: seq<Key>, cutpoint: Name)
    requires cutpoint.Valid() && AllNamed(keys)
  {
    var marks := Marks(keys, cutpoint);
    forall i | 0 <= i < |keys| :: Hit(cutpoint, keys[i].id.name) <==> RunStart(marks) <= i < RunEnd(marks)
  }

  /** Between a cascading key to cut and a namespaced key to cut there are only keys to cut. */
  predicate NoneBetween(keys: seq<Key>, cutpoint: Name)
    requires cutpoint.Valid() && AllNamed(keys)
  {
    forall i, j, k | 0 <= i < j < k < |keys| && keys[i].id.name.root == [] != keys[k].id.name.root ::
      Hit(cutpoint, keys[i].id.name) && Hit(cutpoint, keys[k].id.name) ==> Hit(cutpoint, keys[j].id.name)
  }

  lemma HitIs(cutpoint: Name, name: Name)
    requires cutpoint.Valid() && name.Valid() && cutpoint.root != []
    ensures Hit(cutpoint, name) <==>
      Encloses(cutpoint, name) || (name.root == [] && cutpoint.parts <= name.parts && cutpoint.parts != name.parts)
  {
    hide Name.Valid, KeyIsBelowOrSame;
    BelowOrSameNamespaced(cutpoint, name);
  }

  lemma InOrder(keys: seq<Key>, i: nat, j: nat)
    requires Sorted(keys) && AllNamed(keys) && i < j < |keys|
    ensures CompareIdents(keys[i].id, keys[j].id) < 0 && CompareIdents(keys[j].id, keys[i].id) > 0
    ensures keys[i].id.name.Valid() && keys[j].id.name.Valid()
    ensures keys[j].id.name.root == [] ==> keys[i].id.name.root == []
  {
    hide CompareIdents, Name.Valid;
    CompareIdentsAntisymmetric(keys[i].id, keys[j].id);
    if keys[j].id.name.root == [] != keys[i].id.name.root {
      CascadingFirst(keys[j].id, keys[i].id);
    }
  }

  /** What lies between two namespaced hits, or between two cascading ones, is a hit. */
  lemma Interval(keys: seq<Key>, cutpoint: Name, i: nat, j: nat, k: nat)
    requires Sorted(keys) && AllNamed(keys) && cutpoint.Valid() && cutpoint.root != []
    requires i < j < k < |keys| && (keys[i].id.name.root == [] <==> keys[k].id.name.root == [])
    requires Hit(cutpoint, keys[i].id.name) && Hit(cutpoint, keys[k].id.name)
    ensures Hit(cutpoint, keys[j].id.name)
  {
    hide CompareIdents, Name.Valid, Sorted, AllNamed, Hit;
    InOrder(keys, i, j);
    InOrder(keys, j, k);
    var a, m, b := keys[i].id, keys[j].id, keys[k].id;
    HitIs(cutpoint, a.name);
    HitIs(cutpoint, m.name);
    HitIs(cutpoint, b.name);
    if a.name.root != [] {
      SubtreeIsInterval(cutpoint, a, m, b);
    } else {
      var top := Name([], cutpoint.parts);
      assert top.Valid() by {
        TopValid(cutpoint);
      }
      SubtreeIsInterval(top, a, m, b);
      if m.name.parts == top.parts {
        ParentsFirst(m, a);
      }
    }
  }

  lemma TopValid(n: Name)
    requires n.Valid()
    ensures Name([], n.parts).Valid()
  {
  }

  /** Without a gap among the marks, and only then, the first run holds all of them. */
  lemma OneRun(marks: seq<bool>)
    ensures (forall i | 0 <= i < |marks| :: marks[i] <==> RunStart(marks) <= i < RunEnd(marks))
      <==> forall i, j, k | 0 <= i < j < k < |marks| && marks[i] && marks[k] :: marks[j]
  {
    var from, to := RunStart(marks), RunEnd(marks);
    if forall i, j, k | 0 <= i < j < k < |marks| && marks[i] && marks[k] :: marks[j] {
      forall i | to <= i < |marks|
        ensures !marks[i]
      {
        assert marks[from] && !marks[to];
      }
    }
  }

  /**
    ksCut is a filter exactly if no foreign key sits between the cascading keys and the namespaced
    keys that the cutpoint matches: each of the two groups is without gaps.
   */
  lemma CutsAllExactlyIf(keys: seq<Key>, cutpoint: Name)
    requires Sorted(keys) && AllNamed(keys) && cutpoint.Valid() && cutpoint.root != []
    ensures CutsAll(keys, cutpoint) <==> NoneBetween(keys, cutpoint)
  {
    hide CompareIdents, Name.Valid, Sorted, AllNamed, Hit, RunStart, RunEnd;
    var marks := Marks(keys, cutpoint);
    OneRun(marks);
    if NoneBetween(keys, cutpoint) {
      forall i, j, k | 0 <= i < j < k < |keys| && marks[i] && marks[k]
        ensures marks[j]
      {
        InOrder(keys, i, k);
        if keys[i].id.name.root == [] <==> keys[k].id.name.root == [] {
          Interval(keys, cutpoint, i, j, k);
        }
      }
    }
  }

  /** Without cascading keys nothing can go wrong: ksCut takes the subtree. */
  lemma CutsSubtree(keys: seq<Key>, cutpoint: Name)
    requires Sorted(keys) && AllNamed(keys) && cutpoint.Valid() && cutpoint.root != []
    requires forall i | 0 <= i < |keys| :: keys[i].id.name.root != []
    ensures CutsAll(keys, cutpoint)
    ensures forall i | 0 <= i < |keys| :: Hit(cutpoint, keys[i].id.name) <==> Encloses(cutpoint, keys[i].id.name)
  {
    hide CompareIdents, Name.Valid, Sorted, Hit, CutsAll;
    CutsAllExactlyIf(keys, cutpoint);
    forall i | 0 <= i < |keys|
      ensures Hit(cutpoint, keys[i].id.name) <==> Encloses(cutpoint, keys[i].id.name)
    {
      HitIs(cutpoint, keys[i].id.name);
    }
  }

  /** On the map: the entries cut out are those the cutpoint matches, the others stay. */
  lemma CutFiltersTheMap(keys: seq<Key>, contents: map<Ident, Key>, cutpoint: Name)
    requires Sorted(keys) && AllNamed(keys) && Represents(keys, contents)
    requires cutpoint.Valid() && cutpoint.root != [] && NoneBetween(keys, cutpoint)
    ensures RunStart(Marks(keys, cutpoint)) <= RunEnd(Marks(keys, cutpoint)) <= |keys|
    ensures var cut := PartOf(contents, keys[RunStart(Marks(keys, cutpoint))..RunEnd(Marks(keys, cutpoint))]);
      forall id | id in contents :: id.name.Valid() && (id in cut <==> Hit(cutpoint, id.name))
  {
    hide CompareIdents, Name.Valid, Sorted, Hit, RunStart, RunEnd, NoneBetween;
    CutsAllExactlyIf(keys, cutpoint);
    var marks := Marks(keys, cutpoint);
    RunBounds(marks);
    var from, to := RunStart(marks), RunEnd(marks);
    SortedDistinct(keys);
    forall id | id in contents
      ensures id.name.Valid() && (contents[id] in keys[from..to] <==> Hit(cutpoint, id.name))
    {
      var i :| 0 <= i < |keys| && keys[i] == contents[id];
      if from <= i < to {
        assert keys[from..to][i - from] == keys[i];
      } else {
        assert forall j | 0 <= j < to - from :: keys[from..to][j] == keys[from + j];
      }
    }
  }

  const A: seq<byte> := [97]
  const B: seq<byte> := [98]
  const X: seq<byte> := [120]

  /** With a foreign key in between ksCut stops early: the cutpoint itself stays in the keyset. */
  lemma CutCanStopEarly(keys: seq<Key>)
    requires |keys| == 3 && forall i | 0 <= i < 3 :: keys[i].named
    requires keys[0].id == Ident(Name([], [A, B]), None)
    requires keys[1].id == Ident(Name(DIR, [X]), None)
    requires keys[2].id == Ident(Name(USER, [A]), None)
    ensures Sorted(keys) && AllNamed(keys) && Name(USER, [A]).Valid() && !CutsAll(keys, Name(USER, [A]))
    ensures var marks := Marks(keys, Name(USER, [A]));
      RunStart(marks) == 0 && RunEnd(marks) == 1 && Hit(Name(USER, [A]), keys[2].id.name)
  {
    hide CompareIdents, Hit, KeyIsBelowOrSame, Encloses;
    Letters();
    ExampleOrder(keys);
    var cutpoint := Name(USER, [A]);
    HitIs(cutpoint, keys[0].id.name);
    HitIs(cutpoint, keys[1].id.name);
    HitIs(cutpoint, keys[2].id.name);
    ExampleHits();
    var marks := Marks(keys, cutpoint);
    assert marks[0] && !marks[1] && marks[2];
  }

  lemma Letters()
    ensures Name([], [A, B]).Valid() && Name(DIR, [X]).Valid() && Name(USER, [A]).Valid()
  {
    NoEscapesIsWellEscaped(A);
    NoEscapesIsWellEscaped(B);
    NoEscapesIsWellEscaped(X);
  }

  lemma ExampleHits()
    ensures Encloses(Name(USER, [A]), Name(USER, [A])) && !Encloses(Name(USER, [A]), Name(DIR, [X])) && [A] <= [A, B]
  {
    assert [A, B][..1] == [A];
  }

  lemma ExampleOrder(keys: seq<Key>)
    requires |keys| == 3
    requires keys[0].id == Ident(Name([], [A, B]), None)
    requires keys[1].id == Ident(Name(DIR, [X]), None)
    requires keys[2].id == Ident(Name(USER, [A]), None)
    ensures Sorted(keys)
  {
    hide Name.Valid, Unescaped;
    Letters();
    CascadingFirst(keys[0].id, keys[1].id);
    CascadingFirst(keys[0].id, keys[2].id);
    var u, v := Unescaped(keys[1].id.name), Unescaped(keys[2].id.name);
    RootForms(keys[1].id.name);
    RootForms(keys[2].id.name);
    assert u[0] == 100 && v[0] == 117;
    CompareByNameIsLexicographic(u, v);
  }

  /** Cutting at the current key: ksNext goes on with the first key behind the removed subtree. */
  method CutAtCursor(ks: KeySet) returns (returned: KeySet, next: Key?)
    requires ks.Valid() && ks.current < ks.size && ks.cursor == ks.keys[ks.current]
    requires ks.cursor.id.name.root != [] && NoneBetween(ks.keys, ks.cursor.id.name)
    modifies ks, ks.arr
    ensures ks.Valid() && returned.Valid()
    ensures old(ks.cursor) in returned.keys
    ensures var keys, cutpoint := old(ks.keys), old(ks.cursor).id.name; var it := RunEnd(Marks(keys, cutpoint));
      CutsAll(keys, cutpoint) && next == if it < |keys| then keys[it] else null
  {
    hide CompareIdents, Name.Valid, Sorted, Represents, Hit, NoneBetween;
    ghost var keys, at := ks.keys, ks.current;
    var cutpoint := ks.cursor.id.name;
    ghost var marks := Marks(keys, cutpoint);
    CutsAllExactlyIf(keys, cutpoint);
    HitIs(cutpoint, cutpoint);
    returned := ks.Cut(cutpoint);
    assert returned.keys[at - RunStart(marks)] == keys[at];
    next := ks.Next();
  }

  /** Where ksCut reads the new current key when the cursor stood behind the run. */
  function CursorRead(found: nat, it: nat, current: nat): int {
    found + current - it
  }

  /** It reads a key that is left, or the terminator, if and only if the cursor was not behind the end. */
  lemma ReadsInsideExactlyIf(size: nat, found: nat, it: nat, current: nat)
    requires found < it < size && it <= current
    ensures 0 <= CursorRead(found, it, current) <= size - (it - found) <==> current <= size
  {
  }

  /** Iterating over the whole keyset. */
  method ToTheEnd(ks: KeySet)
    requires ks.Shape()
    modifies ks`current, ks`cursor
    ensures ks.current == ks.size
  {
    ks.Rewind();
    ghost var n := 0;
    while true
      invariant n <= ks.size && ks.Shape()
      invariant if n == 0 then ks.cursor == null && ks.current == 0 else ks.current == n - 1 && ks.cursor == ks.keys[n - 1]
      decreases ks.size - n
    {
      var k := ks.Next();
      if k == null {
        break;
      }
      n := n + 1;
    }
  }

  /** Popping then leaves the cursor behind the end. */
  method PastTheEnd(ks: KeySet, ghost ext: map<Key, nat>)
    requires ks.Valid() && ks.Accounts(ext) && ks.keys != []
    modifies ks, ks.arr, ks.keys
    ensures ks.Valid() && ks.current == ks.size + 1
  {
    hide KeySet.Valid, KeySet.Accounts;
    ks.ValidShape();
    ToTheEnd(ks);
    var _ := ks.Pop(ext);
    ks.ValidShape();
  }
}
