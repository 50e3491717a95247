/** Mountpoints in the trie, and the backend responsible for a key (mount.c, trieLookup in trie.c). */
module Mounts {
  import opened Bytes
  import opened Escaping
  import opened Levels
  import opened KeyNames
  import opened NamedKeys
  import opened PrefixMaps
  import opened Tries
  import KeyOrder

  /** Names are put into the trie, and looked up in it, with a slash at the end. */
  function Slashed(n: Name): seq<byte> {
    n.Render() + [SLASH]
  }

  predicate Namespaced(n: Name) {
    n.Valid() && n.root != []
  }

  /** The nearest of the mountpoints that enclose q, by path components. */
  function Nearest<B>(mounts: map<Name, B>, q: Name): Option<B>
    decreases |q.parts|
  {
    if q in mounts then Some(mounts[q])
    else if q.parts == [] then None
    else Nearest(mounts, Up(q))
  }

  lemma SlashedNulFree(n: Name)
    requires n.Valid()
    ensures NulFree(Slashed(n))
  {
    CanonicalNulFree(n);
  }

  /** The trie holds exactly the mountpoints, each under its slashed name. */
  ghost predicate Tracks<B>(contents: map<seq<byte>, B>, mounts: map<Name, B>) {
    && (forall n | n in mounts :: Namespaced(n) && Slashed(n) in contents && contents[Slashed(n)] == mounts[n])
    && forall p | p in contents :: p != [] && Parse(p[..|p| - 1]) in mounts && p == Slashed(Parse(p[..|p| - 1]))
  }

  /** A slash in front and a slash behind: the root is a part like the others. */
  lemma SlashedIsPath(n: Name)
    requires n.root != []
    ensures [SLASH] + Slashed(n) == Path(n.Levels()) + [SLASH]
  {
    assert n.Levels()[1..] == n.parts;
    Assoc(n.root, Path(n.parts), [SLASH]);
  }

  /** String prefix of slashed names is component prefix, escaped slashes included. */
  lemma SlashedPrefix(n: Name, q: Name)
    requires Namespaced(n) && Namespaced(q)
    ensures Slashed(n) <= Slashed(q) <==> n.root == q.root && n.parts <= q.parts
  {
    SlashedIsPath(n);
    SlashedIsPath(q);
    ConsPrefix(SLASH, Slashed(n), Slashed(q));
    LevelsWellEscaped(n);
    LevelsWellEscaped(q);
    PathPrefix(n.Levels(), q.Levels());
    SamePrefix([n.root], n.parts, q.parts);
  }

  lemma LevelsWellEscaped(n: Name)
    requires Namespaced(n)
    ensures WellEscapedParts(n.Levels())
  {
    ValidIsReadable(n);
  }

  /** A cascading name is below no mountpoint. */
  lemma CascadingPrefix(n: Name, q: Name)
    requires Namespaced(n) && q.Valid() && q.root == []
    ensures !(Slashed(n) <= Slashed(q))
  {
    ValidIsReadable(n);
    ValidIsReadable(q);
    RenderStart(n);
    RenderStart(q);
    assert Slashed(n)[0] == n.Render()[0] && Slashed(q)[0] == q.Render()[0];
  }

  lemma ParseSlashed(n: Name)
    requires n.Valid()
    ensures Slashed(n) != [] && Slashed(n)[..|Slashed(n)| - 1] == n.Render()
    ensures Parse(Slashed(n)[..|Slashed(n)| - 1]) == n
  {
    ValidIsReadable(n);
    ParseRender(n);
  }

  /** A prefix of the slashed query is in the trie exactly when it is an enclosing mountpoint. */
  lemma PrefixInTrie<B>(contents: map<seq<byte>, B>, mounts: map<Name, B>, q: Name, len: nat)
    requires Tracks(contents, mounts) && q.Valid() && len <= |Slashed(q)|
    ensures var p := Slashed(q)[..len];
      p in contents <==>
        p != [] &&
        var n := Parse(p[..|p| - 1]);
        n in mounts && n.root == q.root && n.parts <= q.parts && p == Slashed(n)
  {
    hide *;
    var p := Slashed(q)[..len];
    if p in contents {
      TracksAt(contents, mounts, p);
      var n := Parse(p[..|p| - 1]);
      TracksName(contents, mounts, n);
      EnclosingOfPrefix(n, q);
    } else if p != [] {
      var n := Parse(p[..|p| - 1]);
      if n in mounts && p == Slashed(n) {
        TracksName(contents, mounts, n);
      }
    }
  }

  lemma TracksAt<B>(contents: map<seq<byte>, B>, mounts: map<Name, B>, p: seq<byte>)
    requires Tracks(contents, mounts) && p in contents
    ensures p != [] && Parse(p[..|p| - 1]) in mounts && p == Slashed(Parse(p[..|p| - 1]))
  {
  }

  lemma TracksName<B>(contents: map<seq<byte>, B>, mounts: map<Name, B>, n: Name)
    requires Tracks(contents, mounts) && n in mounts
    ensures Namespaced(n) && Slashed(n) in contents && contents[Slashed(n)] == mounts[n]
  {
  }

  lemma EnclosingOfPrefix(n: Name, q: Name)
    requires Namespaced(n) && q.Valid() && Slashed(n) <= Slashed(q)
    ensures n.root == q.root && n.parts <= q.parts
  {
    if q.root == [] {
      CascadingPrefix(n, q);
    } else {
      SlashedPrefix(n, q);
    }
  }

  /** The name k levels deep on the way to q. */
  function Upto(q: Name, k: nat): Name
    requires k <= |q.parts|
  {
    q.(parts := q.parts[..k])
  }

  /** Longest prefix by bytes finds the nearest mountpoint by components. */
  lemma LongestIsNearest<B>(contents: map<seq<byte>, B>, mounts: map<Name, B>, q: Name)
    requires Tracks(contents, mounts) && q.Valid()
    ensures Longest(contents, Slashed(q)) == Nearest(mounts, q)
  {
    assert Upto(q, |q.parts|) == q;
    NearestFrom(contents, mounts, q, |q.parts|);
  }

  lemma {:induction false} NearestFrom<B>(contents: map<seq<byte>, B>, mounts: map<Name, B>, q: Name, k: nat)
    requires Tracks(contents, mounts) && q.Valid() && k <= |q.parts|
    requires forall j | k < j <= |q.parts| :: Upto(q, j) !in mounts
    ensures Longest(contents, Slashed(q)) == Nearest(mounts, Upto(q, k))
  {
    hide *;
    var n := Upto(q, k);
    NearestUnfold(mounts, q, k);
    if n in mounts {
      NearestHere(contents, mounts, q, k);
    } else if k == 0 {
      NothingHere(contents, mounts, q);
    } else {
      NearestFrom(contents, mounts, q, k - 1);
    }
  }

  lemma NearestUnfold<B>(mounts: map<Name, B>, q: Name, k: nat)
    requires k <= |q.parts|
    ensures Upto(q, k) in mounts ==> Nearest(mounts, Upto(q, k)) == Some(mounts[Upto(q, k)])
    ensures Upto(q, k) !in mounts && k == 0 ==> Nearest(mounts, Upto(q, k)) == None
    ensures Upto(q, k) !in mounts && k > 0 ==> Nearest(mounts, Upto(q, k)) == Nearest(mounts, Upto(q, k - 1))
  {
    if k > 0 {
      assert Up(Upto(q, k)) == Upto(q, k - 1);
    }
  }

  /** A prefix of the query that is in the trie is the slashed name of some mountpoint on the way. */
  lemma MountOfPrefix<B>(contents: map<seq<byte>, B>, mounts: map<Name, B>, q: Name, len: nat) returns (k: nat)
    requires Tracks(contents, mounts) && q.Valid()
    requires len <= |Slashed(q)| && Slashed(q)[..len] in contents
    ensures k <= |q.parts| && Upto(q, k) in mounts && Slashed(Upto(q, k)) == Slashed(q)[..len]
  {
    PrefixInTrie(contents, mounts, q, len);
    var p := Slashed(q)[..len];
    var n := Parse(p[..|p| - 1]);
    k := |n.parts|;
    assert n == Upto(q, k);
  }

  lemma NearestHere<B>(contents: map<seq<byte>, B>, mounts: map<Name, B>, q: Name, k: nat)
    requires Tracks(contents, mounts) && q.Valid() && k <= |q.parts|
    requires forall j | k < j <= |q.parts| :: Upto(q, j) !in mounts
    requires Upto(q, k) in mounts
    ensures Longest(contents, Slashed(q)) == Some(mounts[Upto(q, k)])
  {
    hide *;
    var n := Upto(q, k);
    TracksName(contents, mounts, n);
    UptoPrefix(q, k, |q.parts|);
    assert Slashed(n) <= Slashed(q);
    var len := |Slashed(n)|;
    assert Slashed(q)[..len] == Slashed(n);
    forall j | len < j <= |Slashed(q)|
      ensures Slashed(q)[..j] !in contents
    {
      if Slashed(q)[..j] in contents {
        var d := MountOfPrefix(contents, mounts, q, j);
        UptoPrefix(q, d, k);
      }
    }
    LongestAt(contents, Slashed(q), len);
  }

  /** A shorter way down has a shorter slashed name. */
  lemma UptoPrefix(q: Name, j: nat, k: nat)
    requires q.Valid() && j <= |q.parts| && k <= |q.parts|
    ensures j <= k && (Namespaced(Upto(q, j)) || Namespaced(Upto(q, k))) ==> Slashed(Upto(q, j)) <= Slashed(Upto(q, k))
    ensures Upto(q, |q.parts|) == q
  {
    if j <= k && q.root != [] {
      SlashedPrefix(Upto(q, j), Upto(q, k));
    }
  }

  lemma NothingHere<B>(contents: map<seq<byte>, B>, mounts: map<Name, B>, q: Name)
    requires Tracks(contents, mounts) && q.Valid()
    requires forall j | 0 <= j <= |q.parts| :: Upto(q, j) !in mounts
    ensures Longest(contents, Slashed(q)) == None
  {
    hide *;
    LongestIsLongest(contents, Slashed(q));
    forall j | 0 <= j <= |Slashed(q)|
      ensures Slashed(q)[..j] !in contents
    {
      if Slashed(q)[..j] in contents {
        var d := MountOfPrefix(contents, mounts, q, j);
      }
    }
  }

  /** Mounting one more name. */
  lemma TracksInsert<B>(contents: map<seq<byte>, B>, mounts: map<Name, B>, n: Name, b: B)
    requires Tracks(contents, mounts) && Namespaced(n)
    ensures Tracks(contents[Slashed(n) := b], mounts[n := b])
  {
    hide Parse, Slashed, Namespaced;
    NamespacedParse(n);
    forall m | m in mounts && m != n
      ensures Slashed(m) != Slashed(n)
    {
      TracksName(contents, mounts, m);
      NamespacedParse(m);
    }
  }

  lemma NothingTracked<B>(contents: map<seq<byte>, B>, mounts: map<Name, B>)
    requires contents == map[] && mounts == map[]
    ensures Tracks(contents, mounts)
  {
  }

  lemma NamespacedParse(n: Name)
    requires Namespaced(n)
    ensures Slashed(n) != [] && Parse(Slashed(n)[..|Slashed(n)| - 1]) == n
  {
    ParseSlashed(n);
  }

  // ---------- mountBackend and mountGetBackend ----------

  /** The mountpoint of a backend: "" for the default backend, else a name. */
  datatype Mountpoint = Default | At(name: Name)

  const ELEKTRA: seq<byte> := [101, 108, 101, 107, 116, 114, 97]

  class Backend {
    const mountpoint: Mountpoint
    var refcounter: nat
    var specsize: int
    var dirsize: int
    var usersize: int
    var systemsize: int

    /** The sizes are unknown until the first kdbGet. */
    constructor (mountpoint: Mountpoint)
      ensures this.mountpoint == mountpoint && refcounter == 1
      ensures specsize == dirsize == usersize == systemsize == -1
    {
      this.mountpoint := mountpoint;
      refcounter := 1;
      specsize, dirsize, usersize, systemsize := -1, -1, -1, -1;
    }
  }

  /** One element of kdb->split: the backend, its parent key and the initial syncbits. */
  datatype Part = Part(handle: Backend, parent: Name, syncbits: nat)

  /** The names a backend is mounted under, in the order of the namespaces. */
  function MountNames(mp: Mountpoint): seq<Name> {
    match mp
    case Default => [Name(SYSTEM, [ELEKTRA])]
    case At(n) =>
      if n.root != [] then [n]
      else if n.parts == [] then [Name(SPEC, []), Name(DIR, []), Name(USER, []), Name(SYSTEM, [])]
      else [Name(DIR, n.parts), Name(USER, n.parts), Name(SYSTEM, n.parts)]
  }

  /** The names, spelled out: a cascading backend is not mounted in spec, unless it is the root. */
  lemma MountNamesAre(mp: Mountpoint, m: Name)
    ensures m in MountNames(mp) <==>
      match mp
      case Default => m == Name(SYSTEM, [ELEKTRA])
      case At(n) =>
        if n.root != [] then m == n
        else m.parts == n.parts && (m.root == DIR || m.root == USER || m.root == SYSTEM || (m.root == SPEC && n.parts == []))
  {
  }

  /** Later mounts under the same name win. */
  function MountAll<B>(mounts: map<Name, B>, names: seq<Name>, b: B): map<Name, B>
    decreases |names|
  {
    if names == [] then mounts else MountAll(mounts[names[0] := b], names[1..], b)
  }

  lemma {:induction false} MountAllIs<B>(mounts: map<Name, B>, names: seq<Name>, b: B, n: Name)
    ensures n in MountAll(mounts, names, b) <==> n in mounts || n in names
    ensures n in names ==> MountAll(mounts, names, b)[n] == b
    ensures n in mounts && n !in names ==> MountAll(mounts, names, b)[n] == mounts[n]
    decreases |names|
  {
    if names != [] {
      MountAllIs(mounts[names[0] := b], names[1..], b, n);
      assert names == [names[0]] + names[1..];
    }
  }

  lemma MountNamesNamespaced(mp: Mountpoint)
    requires mp.At? ==> mp.name.Valid()
    ensures forall i | 0 <= i < |MountNames(mp)| :: Namespaced(MountNames(mp)[i])
  {
    NoEscapesIsWellEscaped(ELEKTRA);
    assert ValidPart(ELEKTRA);
  }

  /** Up to four names, one after the other. */
  lemma MountedOneByOne<B>(mounts: map<Name, B>, names: seq<Name>, b: B)
    ensures |names| == 1 ==> MountAll(mounts, names, b) == mounts[names[0] := b]
    ensures |names| == 3 ==> MountAll(mounts, names, b) == mounts[names[0] := b][names[1] := b][names[2] := b]
    ensures |names| == 4 ==>
      MountAll(mounts, names, b) == mounts[names[0] := b][names[1] := b][names[2] := b][names[3] := b]
  {
    forall n
      ensures n in MountAll(mounts, names, b) <==> n in mounts || n in names
      ensures n in names ==> MountAll(mounts, names, b)[n] == b
      ensures n in mounts && n !in names ==> MountAll(mounts, names, b)[n] == mounts[n]
    {
      MountAllIs(mounts, names, b, n);
    }
  }

  class Kdb {
    var trie: Trie?<Backend>
    var split: seq<Part>
    const defaultBackend: Backend
    ghost var mounts: map<Name, Backend>

    ghost predicate Valid()
      reads this, if trie == null then {} else {trie}, if trie == null then {} else trie.Repr
    {
      if trie == null then mounts == map[] else trie.Valid() && Tracks(trie.Contents, mounts)
    }

    ghost function Footprint(): set<object>
      reads this, if trie == null then {} else {trie}
    {
      {this} + if trie == null then {} else trie.Repr
    }

    constructor (defaultBackend: Backend)
      ensures Valid() && mounts == map[] && split == [] && this.defaultBackend == defaultBackend
      ensures fresh(Footprint())
    {
      this.defaultBackend := defaultBackend;
      trie, split, mounts := null, [], map[];
    }

    method InsertName(n: Name, b: Backend, syncbits: nat)
      requires Valid() && Namespaced(n)
      modifies Footprint()
      ensures Valid() && fresh(Footprint() - old(Footprint()))
      ensures mounts == old(mounts)[n := b] && split == old(split) + [Part(b, n, syncbits)]
    {
      hide Tracks, Slashed, NulFree, Trie.Valid;
      SlashedNulFree(n);
      NothingTracked<Backend>(map[], map[]);
      ghost var before := if trie == null then map[] else trie.Contents;
      TracksInsert(before, mounts, n, b);
      trie := TrieInsert(trie, Slashed(n), b);
      split := split + [Part(b, n, syncbits)];
      mounts := mounts[n := b];
    }

    /** mountBackend: every name goes into the trie and into the split, and is counted. */
    method MountBackend(b: Backend)
      requires Valid() && b !in Footprint() && (b.mountpoint.At? ==> b.mountpoint.name.Valid())
      modifies Footprint(), b
      ensures Valid() && fresh(Footprint() - old(Footprint()))
      ensures b.refcounter == |MountNames(b.mountpoint)|
      ensures mounts == MountAll(old(mounts), MountNames(b.mountpoint), b)
      ensures |split| == |old(split)| + b.refcounter && old(split) <= split
      ensures forall i | 0 <= i < b.refcounter ::
        split[|old(split)| + i] ==
          Part(b, MountNames(b.mountpoint)[i], if b.refcounter == 1 then 0 else 2)
      ensures b.mountpoint == Default ==>
        var m := Name(SYSTEM, [ELEKTRA]);
        mounts == old(mounts)[m := b] && split == old(split) + [Part(b, m, 0)]
      ensures b.mountpoint.At? && b.mountpoint.name.root != [] ==>
        var m := b.mountpoint.name;
        mounts == old(mounts)[m := b] && split == old(split) + [Part(b, m, 0)]
      ensures b.mountpoint == At(Name([], [])) ==>
        var spec, dir, user, system := Name(SPEC, []), Name(DIR, []), Name(USER, []), Name(SYSTEM, []);
        && mounts == old(mounts)[spec := b][dir := b][user := b][system := b]
        && split == old(split) + [Part(b, spec, 2), Part(b, dir, 2), Part(b, user, 2), Part(b, system, 2)]
      ensures b.mountpoint.At? && b.mountpoint.name.root == [] && b.mountpoint.name.parts != [] ==>
        var ps := b.mountpoint.name.parts;
        var dir, user, system := Name(DIR, ps), Name(USER, ps), Name(SYSTEM, ps);
        && mounts == old(mounts)[dir := b][user := b][system := b]
        && split == old(split) + [Part(b, dir, 2), Part(b, user, 2), Part(b, system, 2)]
    {
      hide Tracks, Slashed, Namespaced, Trie.Valid;
      MountNamesNamespaced(b.mountpoint);
      var names := MountNames(b.mountpoint);
      var syncbits := if |names| == 1 then 0 else 2;
      MountedOneByOne(mounts, names, b);
      b.refcounter := 0;
      while b.refcounter < |names|
        invariant b.refcounter <= |names| && Valid() && b !in Footprint() && fresh(Footprint() - old(Footprint()))
        invariant MountAll(mounts, names[b.refcounter..], b) == MountAll(old(mounts), names, b)
        invariant |split| == |old(split)| + b.refcounter && old(split) <= split
        invariant forall i | 0 <= i < b.refcounter :: split[|old(split)| + i] == Part(b, names[i], syncbits)
      {
        InsertName(names[b.refcounter], b, syncbits);
        b.refcounter := b.refcounter + 1;
      }
    }

    /** mountGetBackend: the backend of the nearest enclosing mountpoint, else the default one. */
    method GetBackend(key: Option<Name>) returns (b: Backend)
      requires Valid() && (key.Some? ==> key.value.Valid())
      ensures b == Responsible(mounts, defaultBackend, key)
      ensures key.Some? ==> forall n | IsNearest(mounts, n, key.value) :: b == mounts[n]
      ensures key.None? || (forall n | n in mounts :: !KeyOrder.Encloses(n, key.value)) ==> b == defaultBackend
    {
      if key.Some? {
        ResponsibleMeans(mounts, defaultBackend, key.value);
      }
      if key.None? {
        return defaultBackend;
      }
      var found := None;
      if trie != null {
        SlashedNulFree(key.value);
        found := trie.PrefixLookup(Slashed(key.value));
        LongestIsNearest(trie.Contents, mounts, key.value);
      } else {
        NothingMounted(mounts, key.value);
      }
      b := if found.None? then defaultBackend else found.value;
    }
  }

  /** A mountpoint at or above the key, and no other one is nearer. */
  ghost predicate IsNearest<B>(mounts: map<Name, B>, n: Name, q: Name) {
    && n in mounts && KeyOrder.Encloses(n, q)
    && forall m | m in mounts && KeyOrder.Encloses(m, q) :: |m.parts| <= |n.parts|
  }

  /** The backend, spelled out: that of the nearest mountpoint; if there is none, the default one. */
  lemma ResponsibleMeans<B>(mounts: map<Name, B>, defaultBackend: B, q: Name)
    ensures forall n | IsNearest(mounts, n, q) :: Responsible(mounts, defaultBackend, Some(q)) == mounts[n]
    ensures
      (forall n | n in mounts :: !KeyOrder.Encloses(n, q))
      ==> Responsible(mounts, defaultBackend, Some(q)) == defaultBackend
  {
    forall n | IsNearest(mounts, n, q)
      ensures Nearest(mounts, q) == Some(mounts[n])
    {
      NearestFound(mounts, n, q);
    }
    if forall n | n in mounts :: !KeyOrder.Encloses(n, q) {
      NothingNear(mounts, q);
    }
  }

  lemma {:induction false} NearestFound<B>(mounts: map<Name, B>, n: Name, q: Name)
    requires IsNearest(mounts, n, q)
    ensures Nearest(mounts, q) == Some(mounts[n])
    decreases |q.parts|
  {
    if q in mounts {
      assert KeyOrder.Encloses(q, q) && n == q;
    } else {
      assert n != q && n.parts != q.parts;
      assert Up(q).parts == q.parts[..|q.parts| - 1];
      NearestFound(mounts, n, Up(q));
    }
  }

  lemma {:induction false} NothingNear<B>(mounts: map<Name, B>, q: Name)
    requires forall n | n in mounts :: !KeyOrder.Encloses(n, q)
    ensures Nearest(mounts, q) == None
    decreases |q.parts|
  {
    assert KeyOrder.Encloses(q, q);
    if q.parts != [] {
      NothingNear(mounts, Up(q));
    }
  }

  /** Without a mountpoint between them a name has the backend of the one above. */
  lemma {:induction false} NothingBetween<B>(mounts: map<Name, B>, defaultBackend: B, a: Name, q: Name)
    requires KeyOrder.Encloses(a, q) && forall m | m in mounts && KeyOrder.Encloses(m, q) :: KeyOrder.Encloses(m, a)
    ensures Responsible(mounts, defaultBackend, Some(q)) == Responsible(mounts, defaultBackend, Some(a))
    decreases |q.parts|
  {
    if q != a {
      assert KeyOrder.Encloses(q, q) && q.parts != a.parts;
      assert q !in mounts;
      assert Up(q).parts == q.parts[..|q.parts| - 1];
      NothingBetween(mounts, defaultBackend, a, Up(q));
    }
  }

  /** The backend responsible for a key; a key without a name has the default backend. */
  function Responsible<B>(mounts: map<Name, B>, defaultBackend: B, key: Option<Name>): B {
    if key.None? then defaultBackend
    else match Nearest(mounts, key.value)
      case None => defaultBackend
      case Some(b) => b
  }

  lemma {:induction false} NothingMounted<B>(mounts: map<Name, B>, q: Name)
    requires mounts == map[]
    ensures Nearest(mounts, q) == None
    decreases |q.parts|
  {
    if q.parts != [] {
      NothingMounted(mounts, Up(q));
    }
  }
}
