/** kdbGet: which keys come from the backends, which stay, and what is remembered for kdbSet (kdb.c, split.c). */
module KdbGets {
  import opened Bytes
  import opened KeyNames
  import opened KeyOrder
  import opened KeySets
  import opened Mounts
  import opened Postprocessing
  import opened Splits
  import opened KdbSets

  // ---------- filtering ----------

  /** What elektraSplitPostprocess leaves of a keyset, as a map. */
  function Filtered(m: map<Ident, Key>, router: Router, own: Backend, parent: Name): map<Ident, Key> {
    map id | id in m && Belongs(id.name, router, own, parent) :: m[id]
  }

  /** Postprocess, which drops the keys of a keyset one by one, does this to its map. */
  lemma FilteredIsKept(keys: seq<Key>, m: map<Ident, Key>, router: Router, own: Backend, parent: Name)
    requires Represents(keys, m)
    ensures Represents(Kept(keys, router, own, parent), Filtered(m, router, own, parent))
  {
    KeptAre(keys, router, own, parent);
    RepresentsFiltered(keys, m, Kept(keys, router, own, parent), router, own, parent);
  }

  lemma RepresentsFiltered(keys: seq<Key>, m: map<Ident, Key>, kept: seq<Key>, router: Router, own: Backend,
                           parent: Name)
    requires Represents(keys, m)
    requires forall k :: k in kept <==> k in keys && Belongs(k.id.name, router, own, parent)
    ensures Represents(kept, Filtered(m, router, own, parent))
  {
    hide Belongs;
    forall i | 0 <= i < |kept|
      ensures kept[i].id in Filtered(m, router, own, parent) && m[kept[i].id] == kept[i]
    {
      assert kept[i] in keys;
    }
  }

  /** The keyset of a part, as it is merged: filtered, but for the default part. */
  function PartFiltered(m: map<Ident, Key>, layout: Layout, router: Router, j: nat): map<Ident, Key>
    requires layout.Valid() && j < |layout.handles|
  {
    if layout.handles[j].Some? && layout.parents[j].Some?
    then Filtered(m, router, layout.handles[j].value, layout.parents[j].value)
    else m
  }

  /** What passes the filter of a part has this part as its target. */
  lemma FilteredTarget(m: map<Ident, Key>, layout: Layout, router: Router, j: nat, id: Ident)
    requires layout.Valid() && layout.Proper() && j < |layout.handles| && id in PartFiltered(m, layout, router, j)
    requires layout.handles[j].Some? && layout.parents[j].Some?
    ensures Target(layout, router, id.name) == j
  {
    layout.SearchFindsTheFit(j, router.Of(id.name), id.name.root);
  }

  // ---------- the default part ----------

  function WithDefault(layout: Layout): Layout
    requires layout.Valid()
  {
    Layout(layout.handles + [None], layout.parents + [None], layout.cascading + [false])
  }

  lemma {:induction false} SearchIgnoresDefault(layout: Layout, i: nat, backend: Backend, root: seq<byte>)
    requires layout.Valid() && i <= |layout.handles|
    ensures WithDefault(layout).Search(i, backend, root) == layout.Search(i, backend, root)
    decreases |layout.handles| - i
  {
    if i < |layout.handles| {
      SearchIgnoresDefault(layout, i + 1, backend, root);
    }
  }

  /** The default part changes nothing about the others. */
  lemma DefaultIsApart(layout: Layout, router: Router)
    requires layout.Valid() && layout.Proper() && Straight(layout, router)
    ensures var l := WithDefault(layout); l.Valid() && l.Proper() && Straight(l, router)
    ensures forall n: Name :: Target(WithDefault(layout), router, n) == Target(layout, router, n)
  {
    hide OnlyUnder, Responsible, Layout.Search;
    forall n: Name
      ensures Target(WithDefault(layout), router, n) == Target(layout, router, n)
    {
      SearchIgnoresDefault(layout, 0, router.Of(n), n.root);
    }
  }

  // ---------- appoint, reload, filter, merge ----------

  /** Keysets without keys. */
  function Empty(n: nat): (keysets: seq<map<Ident, Key>>)
    ensures |keysets| == n && forall i | 0 <= i < n :: keysets[i] == map[]
  {
    seq(n, _ => map[])
  }

  /** The maps of the parts before filtering: the flagged ones come from their backends. */
  predicate Reloaded(appointed: seq<map<Ident, Key>>, loaded: seq<map<Ident, Key>>, bits: seq<nat>) {
    && |appointed| == |loaded| == |bits|
    && forall j | 0 <= j < |bits| && !SyncBit(bits[j]) :: loaded[j] == appointed[j]
  }

  predicate AllFiltered(loaded: seq<map<Ident, Key>>, parts: seq<map<Ident, Key>>, layout: Layout, router: Router)
    requires layout.Valid()
  {
    && |loaded| == |parts| == |layout.handles|
    && forall j | 0 <= j < |parts| :: parts[j] == PartFiltered(loaded[j], layout, router, j)
  }

  lemma InPart(keys: seq<Key>, contents: map<Ident, Key>, layout: Layout, router: Router, bits: seq<nat>,
               appointed: seq<map<Ident, Key>>, loaded: seq<map<Ident, Key>>, parts: seq<map<Ident, Key>>,
               i: nat, x: Ident)
    requires layout.Valid() && layout.Proper() && |bits| == |layout.handles| > 0 && !SyncBit(bits[|bits| - 1])
    requires forall j | 0 <= j < |bits| - 1 :: layout.handles[j].Some? && layout.parents[j].Some?
    requires layout.handles[|bits| - 1] == None
    requires Appointed(Empty(|bits|), appointed, bits, contents, keys, layout, router)
    requires Reloaded(appointed, loaded, bits) && AllFiltered(loaded, parts, layout, router)
    requires i < |parts| && x in parts[i]
    ensures Target(layout, router, x.name) == if i < |parts| - 1 then i else -1
  {
    hide Target, Layout.Proper, SyncBit;
    if i < |parts| - 1 {
      FilteredTarget(loaded[i], layout, router, i, x);
    } else {
      assert x in Share(contents, keys, layout, router, -1);
    }
  }

  /** Each key is in the part it belongs to, and nowhere else. */
  lemma PartsApart(parts: seq<map<Ident, Key>>, layout: Layout, router: Router)
    requires layout.Valid()
    requires forall i, x | 0 <= i < |parts| && x in parts[i] ::
      Target(layout, router, x.name) == if i < |parts| - 1 then i else -1
    ensures forall i, j | 0 <= i < j < |parts| :: parts[i].Keys !! parts[j].Keys
  {
    hide Target;
    forall i, j | 0 <= i < j < |parts|
      ensures parts[i].Keys !! parts[j].Keys
    {
      forall x | x in parts[i]
        ensures x !in parts[j]
      {
        assert Target(layout, router, x.name) == i;
      }
    }
  }

  /** What is in the part that a name belongs to. */
  lemma AtItsPart(keys: seq<Key>, contents: map<Ident, Key>, layout: Layout, router: Router, bits: seq<nat>,
                  appointed: seq<map<Ident, Key>>, loaded: seq<map<Ident, Key>>, parts: seq<map<Ident, Key>>,
                  id: Ident)
    requires layout.Valid() && Straight(layout, router) && Represents(keys, contents)
    requires |bits| == |layout.handles| > 0 && !SyncBit(bits[|bits| - 1]) && layout.handles[|bits| - 1] == None
    requires Appointed(Empty(|bits|), appointed, bits, contents, keys, layout, router)
    requires Reloaded(appointed, loaded, bits) && AllFiltered(loaded, parts, layout, router)
    ensures var t := Target(layout, router, id.name);
      && -1 <= t < |parts| - 1
      && var m := parts[if t >= 0 then t else |parts| - 1];
         var source := if t >= 0 && SyncBit(bits[t]) then loaded[t] else contents;
         && (id in m <==> id in source && (t >= 0 ==> Storable(id.name.root)))
         && (id in m ==> m[id] == source[id])
  {
    hide Target, Straight, Represents, Belongs, Storable, SyncBit, Share;
    TargetHasBackend(layout, router, id.name);
    if Target(layout, router, id.name) >= 0 {
      AppointedBelongs(layout, router, id.name);
    }
    ShareHas(keys, contents, layout, router, id);
  }

  /**
    The whole way of the keys through kdbGet: afterwards a key that has a part comes from where this part
    was filled, if it can be stored at all, and the others stay. Nothing is lost and nothing comes twice.
   */
  lemma ReloadAndMerge(keys: seq<Key>, contents: map<Ident, Key>, layout: Layout, router: Router, bits: seq<nat>,
                       appointed: seq<map<Ident, Key>>, loaded: seq<map<Ident, Key>>, parts: seq<map<Ident, Key>>,
                       id: Ident)
    requires layout.Valid() && layout.Proper() && Straight(layout, router) && Represents(keys, contents)
    requires |bits| == |layout.handles| > 0 && !SyncBit(bits[|bits| - 1]) && layout.handles[|bits| - 1] == None
    requires forall j | 0 <= j < |bits| - 1 :: layout.handles[j].Some? && layout.parents[j].Some?
    requires Appointed(Empty(|bits|), appointed, bits, contents, keys, layout, router)
    requires Reloaded(appointed, loaded, bits) && AllFiltered(loaded, parts, layout, router)
    ensures forall i, j | 0 <= i < j < |parts| :: parts[i].Keys !! parts[j].Keys
    ensures var merged, t := MergeParts(map[], parts), Target(layout, router, id.name);
      && -1 <= t < |parts| - 1
      && var source := if t >= 0 && SyncBit(bits[t]) then loaded[t] else contents;
         && (id in merged <==> id in source && (t >= 0 ==> Storable(id.name.root)))
         && (id in merged ==> merged[id] == source[id])
    ensures forall j | 0 <= j < |parts| - 1 && id in parts[j] :: Target(layout, router, id.name) == j
  {
    hide Target, Layout.Proper, Straight, Represents, Belongs, Storable, SyncBit, Appointed, Reloaded, AllFiltered;
    assert |parts| == |bits| by {
      hide *;
      SameNumber(layout, router, loaded, parts);
    }
    forall i, x | 0 <= i < |parts| && x in parts[i]
      ensures Target(layout, router, x.name) == if i < |parts| - 1 then i else -1
    {
      InPart(keys, contents, layout, router, bits, appointed, loaded, parts, i, x);
    }
    PartsApart(parts, layout, router);
    AtItsPart(keys, contents, layout, router, bits, appointed, loaded, parts, id);
    MergeIsUnion(parts, id);
  }

  lemma SameNumber(layout: Layout, router: Router, loaded: seq<map<Ident, Key>>, parts: seq<map<Ident, Key>>)
    requires layout.Valid() && AllFiltered(loaded, parts, layout, router)
    ensures |loaded| == |parts| == |layout.handles|
  {
  }

  // ---------- the loops ----------

  /**
    What the plugins of a part answer: the resolver, if there is one, 0 or 1 (anything else is an error),
    and the others with the keys they read.
   */
  datatype Source = Source(resolver: Option<int>, keys: Option<map<Ident, Key>>)

  predicate NamesValid(m: map<Ident, Key>) {
    forall id | id in m :: id.name.Valid()
  }

  function ClearSync(bits: nat): (r: nat)
    ensures !SyncBit(r) && (CascadingBit(r) <==> CascadingBit(bits))
  {
    if SyncBit(bits) then bits - SPLIT_FLAG_SYNC else bits
  }

  /** elektraGetCheckUpdateNeeded: asks every resolver, flags what changed, and forgets the numbers of keys. */
  method CheckUpdateNeeded(split: Split, sources: seq<Source>) returns (ret: int)
    requires split.Complete() && |sources| == |split.keysets|
    modifies split`syncbits, split.Backends()
    ensures split.Complete() && split.LayoutOf() == old(split.LayoutOf()) && ret >= -1
    ensures ret == -1 <==> exists i | 0 <= i < |sources| :: sources[i].resolver != Some(0) && sources[i].resolver != Some(1)
    ensures ret == 0 <==> forall i | 0 <= i < |sources| :: sources[i].resolver == Some(0)
    ensures ret >= 0 ==> forall i | 0 <= i < |sources| :: SyncBit(split.syncbits[i]) <==> sources[i].resolver == Some(1)
    ensures ret >= 0 ==> forall i | 0 <= i < |sources| && Storable(split.parents[i].value.root) ::
      StoredSize(split.handles[i].value, split.parents[i].value.root) == 0
  {
    hide SyncBit, CascadingBit, Storable, StoredSize;
    ret := 0;
    for i := 0 to |sources|
      invariant split.Complete() && 0 <= ret && (ret == 0 <==> forall j | 0 <= j < i :: sources[j].resolver == Some(0))
      invariant forall j | 0 <= j < |split.syncbits| ::
        CascadingBit(split.syncbits[j]) == CascadingBit(old(split.syncbits)[j])
      invariant forall j | 0 <= j < i :: sources[j].resolver == Some(0) || sources[j].resolver == Some(1)
      invariant forall j | 0 <= j < i :: SyncBit(split.syncbits[j]) <==> sources[j].resolver == Some(1)
      invariant forall j | 0 <= j < i && Storable(split.parents[j].value.root) ::
        StoredSize(split.handles[j].value, split.parents[j].value.root) == 0
    {
      split.syncbits := split.syncbits[i := ClearSync(split.syncbits[i])];
      if sources[i].resolver.Some? {
        assert split.handles[i].value in split.Backends();
        var _ := BackendUpdateSize(split.handles[i].value, split.parents[i].value.root, 0);
      }
      if sources[i].resolver == Some(1) {
        split.syncbits := split.syncbits[i := SetSync(split.syncbits[i])];
        ret := ret + 1;
      } else if sources[i].resolver != Some(0) {
        return -1;
      }
    }
  }

  /** elektraGetDoUpdate: the flagged parts are read, until a plugin fails. */
  method DoUpdate(split: Split, sources: seq<Source>) returns (ret: int)
    requires split.Valid() && |split.keysets| == |sources| + 1
    modifies split`keysets
    ensures split.Valid() && (ret == 0 || ret == -1)
    ensures ret == -1 <==> exists i | 0 <= i < |sources| :: SyncBit(split.syncbits[i]) && sources[i].keys.None?
    ensures ret == 0 ==> forall i | 0 <= i < |split.keysets| ::
      split.keysets[i] ==
        if i < |sources| && SyncBit(split.syncbits[i]) then sources[i].keys.value else old(split.keysets)[i]
  {
    hide SyncBit;
    for i := 0 to |sources|
      invariant split.Valid() && |split.keysets| == |sources| + 1
      invariant forall j | 0 <= j < i :: SyncBit(split.syncbits[j]) ==> sources[j].keys.Some?
      invariant forall j | 0 <= j < |split.keysets| ::
        split.keysets[j] == if j < i && SyncBit(split.syncbits[j]) then sources[j].keys.value else old(split.keysets)[j]
    {
      if SyncBit(split.syncbits[i]) {
        if sources[i].keys.None? {
          return -1;
        }
        split.keysets := split.keysets[i := sources[i].keys.value];
      }
    }
    ret := 0;
  }

  /** The loop of elektraSplitPostprocess on the map of a keyset. */
  method FilterPart(m: map<Ident, Key>, handle: Kdb, own: Backend, parent: Name) returns (r: map<Ident, Key>)
    requires handle.Valid() && NamesValid(m)
    ensures r == Filtered(m, RouterOf(handle), own, parent)
  {
    hide Kdb.Valid, Responsible, Name.Valid;
    r := m;
    var todo := m.Keys;
    ghost var router := RouterOf(handle);
    while todo != {}
      invariant todo <= m.Keys
      invariant r == map id | id in m && (id in todo || Belongs(id.name, router, own, parent)) :: m[id]
      decreases todo
    {
      var id :| id in todo;
      todo := todo - {id};
      var curHandle := handle.GetBackend(Some(id.name));
      assert curHandle == router.Of(id.name);
      if !(curHandle == own && Storable(id.name.root) && id.name.root == parent.root) {
        r := r - {id};
      }
    }
  }

  /** One part: its keys are filtered, need no sync any more, and their number is remembered. */
  method GetPart(split: Split, handle: Kdb, i: nat, needSync: set<Key>) returns (ok: bool, still: set<Key>)
    requires split.Valid() && i < |split.keysets| && handle.Valid()
    requires split as object !in handle.Footprint()
    requires split.handles[i].Some? && split.parents[i].Some? && NamesValid(split.keysets[i])
    modifies split`keysets, split.handles[i].value
    ensures handle.Valid() && RouterOf(handle) == old(RouterOf(handle))
    ensures var own, parent := split.handles[i].value, split.parents[i].value;
      && split.keysets == old(split.keysets)[i := Filtered(old(split.keysets)[i], RouterOf(handle), own, parent)]
      && ok == Storable(parent.root) && (ok ==> StoredSize(own, parent.root) == |split.keysets[i]|)
      && forall r | Storable(r) && r != parent.root :: StoredSize(own, r) == old(StoredSize(own, r))
    ensures still == needSync - old(split.keysets)[i].Values
  {
    hide Kdb.Valid, Storable, StoredSize, Belongs, NamesValid;
    var own, parent := split.handles[i].value, split.parents[i].value;
    still := needSync - split.keysets[i].Values;
    var filtered := FilterPart(split.keysets[i], handle, own, parent);
    split.keysets := split.keysets[i := filtered];
    var updated := BackendUpdateSize(own, parent.root, |filtered|);
    ok := updated != -1;
  }

  /** No key of the first n keysets is in the set. */
  ghost predicate Examined(keysets: seq<map<Ident, Key>>, n: nat, still: set<Key>) {
    n <= |keysets| && forall j, id | 0 <= j < n && id in keysets[j] :: keysets[j][id] !in still
  }

  /** The first n parts are in namespaces that are stored. */
  predicate StorableParts(parents: seq<Option<Name>>, n: nat) {
    n <= |parents| && forall j | 0 <= j < n :: parents[j].Some? && Storable(parents[j].value.root)
  }

  lemma NothingYet(keysets: seq<map<Ident, Key>>, still: set<Key>, parents: seq<Option<Name>>)
    ensures Examined(keysets, 0, still) && StorableParts(parents, 0)
  {
  }

  lemma StorableNext(parents: seq<Option<Name>>, n: nat)
    requires n < |parents| && parents[n].Some?
    ensures StorableParts(parents, n + 1) <==> StorableParts(parents, n) && Storable(parents[n].value.root)
  {
    hide Storable;
  }

  lemma ExaminedNext(keysets: seq<map<Ident, Key>>, n: nat, still: set<Key>)
    requires n < |keysets| && Examined(keysets, n, still)
    ensures Examined(keysets, n + 1, still - keysets[n].Values)
  {
  }

  /** The part remembers another size of its backend than the parts before. */
  lemma OtherNamespaces(layout: Layout, i: nat)
    requires layout.Valid() && layout.Proper() && i < |layout.handles| && layout.handles[i].Some?
    ensures forall j | 0 <= j < i && layout.handles[j] == layout.handles[i] ::
      layout.parents[j].Some? && layout.parents[i].Some? && layout.parents[j].value.root != layout.parents[i].value.root
  {
  }

  /** splitGet: no part is skipped, because the test for the flag is never true. */
  method SplitGet(split: Split, handle: Kdb, needSync: set<Key>) returns (ret: int, still: set<Key>)
    requires split.Valid() && split.keysets != [] && split.LayoutOf().Proper() && handle.Valid()
    requires split as object !in handle.Footprint()
    requires forall i | 0 <= i < |split.keysets| - 1 ::
      split.handles[i].Some? && split.parents[i].Some? && NamesValid(split.keysets[i])
    modifies split`keysets, split.Backends()
    ensures split.Valid() && handle.Valid() && RouterOf(handle) == old(RouterOf(handle))
    ensures |split.keysets| == |old(split.keysets)|
    ensures forall i | 0 <= i < |split.keysets| - 1 ::
      split.keysets[i] == Filtered(old(split.keysets)[i], RouterOf(handle), split.handles[i].value, split.parents[i].value)
    ensures split.keysets[|split.keysets| - 1] == old(split.keysets)[|split.keysets| - 1]
    ensures ret == if StorableParts(split.parents, |split.keysets| - 1) then 1 else -1
    ensures forall i | 0 <= i < |split.keysets| - 1 && Storable(split.parents[i].value.root) ::
      StoredSize(split.handles[i].value, split.parents[i].value.root) == |split.keysets[i]|
    ensures still <= needSync && Examined(old(split.keysets), |split.keysets| - 1, still)
  {
    hide Kdb.Valid, Storable, StoredSize, Filtered, NamesValid, Examined, StorableParts, Layout.Proper;
    NothingYet(split.keysets, needSync, split.parents);
    ret, still := 1, needSync;
    var last := |split.keysets| - 1;
    ghost var router, layout := RouterOf(handle), split.LayoutOf();
    for i := 0 to last
      invariant split.Valid() && |split.keysets| == last + 1 && handle.Valid() && RouterOf(handle) == router
      invariant forall j | 0 <= j < i ::
        split.keysets[j] == Filtered(old(split.keysets)[j], router, split.handles[j].value, split.parents[j].value)
      invariant forall j | i <= j <= last :: split.keysets[j] == old(split.keysets)[j]
      invariant ret == if StorableParts(split.parents, i) then 1 else -1
      invariant forall j | 0 <= j < i && Storable(split.parents[j].value.root) ::
        StoredSize(split.handles[j].value, split.parents[j].value.root) == |split.keysets[j]|
      invariant still <= needSync && Examined(old(split.keysets), i, still)
    {
      assert split.handles[i].value in split.Backends();
      OtherNamespaces(layout, i);
      ExaminedNext(old(split.keysets), i, still);
      StorableNext(split.parents, i);
      var ok;
      ok, still := GetPart(split, handle, i, still);
      if !ok {
        ret := -1;
      }
    }
  }

  // ---------- kdbGet ----------

  predicate Complete(layout: Layout)
    requires layout.Valid()
  {
    forall i | 0 <= i < |layout.handles| :: layout.handles[i].Some? && layout.parents[i].Some?
  }

  /** The entries that belong to part j. */
  ghost function Belonging(contents: map<Ident, Key>, layout: Layout, router: Router, j: int): map<Ident, Key>
    requires layout.Valid()
  {
    map id | id in contents && Target(layout, router, id.name) == j :: contents[id]
  }

  /** A key whose part was read again comes from there, any other was there before; what has a part can be stored. */
  ghost predicate Got(id: Ident, contents: map<Ident, Key>, now: map<Ident, Key>, layout: Layout, router: Router,
                      sources: seq<Source>)
    requires layout.Valid()
  {
    var t := Target(layout, router, id.name);
    var read := 0 <= t < |sources| && sources[t].resolver == Some(1) && sources[t].keys.Some?;
    var source := if read then sources[t].keys.value else contents;
    && (id in now <==> id in source && (t >= 0 ==> Storable(id.name.root)))
    && (id in now ==> now[id] == source[id])
  }

  /** The parts as kdbGet fills them: flagged by their resolvers, and read if flagged. */
  predicate Filled(sources: seq<Source>, bits: seq<nat>, appointed: seq<map<Ident, Key>>,
                   loaded: seq<map<Ident, Key>>) {
    && |bits| == |appointed| == |loaded| == |sources| + 1 && !SyncBit(bits[|sources|])
    && (forall i | 0 <= i < |sources| ::
         (SyncBit(bits[i]) <==> sources[i].resolver == Some(1)) && (SyncBit(bits[i]) ==> sources[i].keys.Some?))
    && forall i | 0 <= i < |loaded| ::
         loaded[i] == if i < |sources| && SyncBit(bits[i]) then sources[i].keys.value else appointed[i]
  }

  lemma GotOne(keys: seq<Key>, contents: map<Ident, Key>, layout: Layout, router: Router, sources: seq<Source>,
               bits: seq<nat>, appointed: seq<map<Ident, Key>>, loaded: seq<map<Ident, Key>>,
               parts: seq<map<Ident, Key>>, id: Ident)
    requires layout.Valid() && layout.Proper() && Straight(layout, router) && Represents(keys, contents)
    requires Complete(layout) && |sources| == |layout.handles| && Filled(sources, bits, appointed, loaded)
    requires Appointed(Empty(|bits|), appointed, bits, contents, keys, WithDefault(layout), router)
    requires AllFiltered(loaded, parts, WithDefault(layout), router)
    ensures var now := MergeParts(map[], parts);
      && Got(id, contents, now, layout, router, sources)
      && forall j | 0 <= j < |sources| ::
           id in parts[j] <==> id in now && Target(layout, router, id.name) == j
    ensures forall j | 0 <= j < |sources| && id in parts[j] :: MergeParts(map[], parts)[id] == parts[j][id] == loaded[j][id]
  {
    hide Target, Layout.Proper, Straight, Represents, Storable, SyncBit, Appointed;
    DefaultIsApart(layout, router);
    ReloadAndMerge(keys, contents, WithDefault(layout), router, bits, appointed, loaded, parts, id);
    MergeIsUnion(parts, id);
    AtItsPart(keys, contents, WithDefault(layout), router, bits, appointed, loaded, parts, id);
  }

  /** All keys at once, and how many of them each part has. */
  lemma GotAll(keys: seq<Key>, contents: map<Ident, Key>, layout: Layout, router: Router, sources: seq<Source>,
               bits: seq<nat>, appointed: seq<map<Ident, Key>>, loaded: seq<map<Ident, Key>>,
               parts: seq<map<Ident, Key>>, still: set<Key>)
    requires layout.Valid() && layout.Proper() && Straight(layout, router) && Represents(keys, contents)
    requires Complete(layout) && |sources| == |layout.handles| && Filled(sources, bits, appointed, loaded)
    requires Appointed(Empty(|bits|), appointed, bits, contents, keys, WithDefault(layout), router)
    requires AllFiltered(loaded, parts, WithDefault(layout), router) && Examined(loaded, |sources|, still)
    ensures var now := MergeParts(map[], parts);
      && (forall id :: Got(id, contents, now, layout, router, sources))
      && (forall j | 0 <= j < |sources| :: parts[j] == Belonging(now, layout, router, j))
      && forall id | id in now && Target(layout, router, id.name) >= 0 :: now[id] !in still
  {
    hide Target, Layout.Proper, Straight, Represents, Storable, Filled, Appointed, AllFiltered, Got, WithDefault;
    hide Complete;
    var now := MergeParts(map[], parts);
    AsMany(layout, sources, bits, appointed, loaded);
    AsManyParts(layout, router, loaded, parts);
    forall id
      ensures Got(id, contents, now, layout, router, sources)
      ensures forall j | 0 <= j < |sources| :: id in parts[j] <==> id in now && Target(layout, router, id.name) == j
      ensures forall j | 0 <= j < |sources| && id in parts[j] :: id in loaded[j] && now[id] == parts[j][id] == loaded[j][id]
    {
      GotOne(keys, contents, layout, router, sources, bits, appointed, loaded, parts, id);
      InLoaded(layout, router, sources, loaded, parts, id);
    }
    forall id | id in now && Target(layout, router, id.name) >= 0
      ensures now[id] !in still
    {
      var j := Target(layout, router, id.name);
      TargetIs(layout, router, id.name);
      assert id in parts[j];
    }
  }

  lemma AsMany(layout: Layout, sources: seq<Source>, bits: seq<nat>,
               appointed: seq<map<Ident, Key>>, loaded: seq<map<Ident, Key>>)
    requires layout.Valid() && |sources| == |layout.handles| && Filled(sources, bits, appointed, loaded)
    ensures |loaded| == |sources| + 1
  {
    hide SyncBit;
  }

  lemma AsManyParts(layout: Layout, router: Router, loaded: seq<map<Ident, Key>>, parts: seq<map<Ident, Key>>)
    requires layout.Valid() && AllFiltered(loaded, parts, WithDefault(layout), router)
    ensures |loaded| == |parts| == |layout.handles| + 1
  {
  }

  lemma InLoaded(layout: Layout, router: Router, sources: seq<Source>, loaded: seq<map<Ident, Key>>,
                 parts: seq<map<Ident, Key>>, id: Ident)
    requires layout.Valid() && |sources| == |layout.handles| && AllFiltered(loaded, parts, WithDefault(layout), router)
    ensures forall j | 0 <= j < |sources| && id in parts[j] :: id in loaded[j]
  {
    hide Belongs;
  }

  /** Keys that were appointed have valid names, like those that were read. */
  lemma LoadedNames(keys: seq<Key>, contents: map<Ident, Key>, layout: Layout, router: Router, sources: seq<Source>,
                    bits: seq<nat>, appointed: seq<map<Ident, Key>>, loaded: seq<map<Ident, Key>>)
    requires layout.Valid() && AllNamed(keys) && Represents(keys, contents) && Filled(sources, bits, appointed, loaded)
    requires Appointed(Empty(|bits|), appointed, bits, contents, keys, layout, router)
    requires forall i | 0 <= i < |sources| && sources[i].keys.Some? :: NamesValid(sources[i].keys.value)
    ensures forall i | 0 <= i < |sources| :: NamesValid(loaded[i])
  {
    hide Target, SyncBit, Name.Valid;
    forall i, id | 0 <= i < |sources| && !SyncBit(bits[i]) && id in loaded[i]
      ensures id.name.Valid()
    {
      assert id in contents && contents[id] in keys;
    }
  }

  lemma NothingAppointed(before: seq<map<Ident, Key>>, appointed: seq<map<Ident, Key>>, bits: seq<nat>,
                         contents: map<Ident, Key>,
                         keys: seq<Key>, layout: Layout, router: Router)
    requires layout.Valid() && |before| == |bits| > 0
    requires Appointed(before, appointed, bits, contents, keys, layout, router)
    requires forall i | 0 <= i < |before| :: before[i] == map[]
    ensures Appointed(Empty(|bits|), appointed, bits, contents, keys, layout, router)
  {
    hide Appointed;
    assert before == Empty(|bits|);
  }

  /** The parts are filled with the keys that stay and those that are read. */
  method Fill(handle: Kdb, split: Split, keys: seq<Key>, contents: map<Ident, Key>, sources: seq<Source>)
    returns (ret: int, ghost appointed: seq<map<Ident, Key>>)
    requires handle.Valid() && split as object !in handle.Footprint() && AllNamed(keys) && Represents(keys, contents)
    requires split.Complete() && |sources| == |split.keysets|
    requires forall i | 0 <= i < |split.keysets| :: split.keysets[i] == map[]
    requires forall i | 0 <= i < |sources| :: SyncBit(split.syncbits[i]) <==> sources[i].resolver == Some(1)
    requires forall i | 0 <= i < |sources| && sources[i].keys.Some? :: NamesValid(sources[i].keys.value)
    modifies split
    ensures split.Valid() && handle.Valid() && RouterOf(handle) == old(RouterOf(handle)) && (ret == 0 || ret == -1)
    ensures ret == -1 <==> exists i | 0 <= i < |sources| :: sources[i].resolver == Some(1) && sources[i].keys.None?
    ensures split.handles == old(split.handles) + [None] && split.parents == old(split.parents) + [None]
    ensures split.LayoutOf() == WithDefault(old(split.LayoutOf())) && |split.keysets| == |sources| + 1
    ensures ret == 0 ==>
      && Filled(sources, split.syncbits, appointed, split.keysets)
      && Appointed(Empty(|split.syncbits|), appointed, split.syncbits, contents, keys, split.LayoutOf(), RouterOf(handle))
      && forall i | 0 <= i < |sources| :: NamesValid(split.keysets[i])
  {
    hide Kdb.Valid, Represents, AllNamed, Appointed, NamesValid;
    ghost var was, layout := split.syncbits, split.LayoutOf();
    var _ := split.Appoint(handle, keys, contents);
    appointed := split.keysets;
    assert split.LayoutOf() == WithDefault(layout);
    ghost var bits, router := split.syncbits, RouterOf(handle);
    NothingAppointed(old(split.keysets) + [map[]], appointed, bits, contents, keys, WithDefault(layout), router);
    assert forall i | 0 <= i < |sources| :: bits[i] == was[i];
    ret := DoUpdate(split, sources);
    assert split.LayoutOf() == WithDefault(layout);
    if ret == 0 {
      LoadedNames(keys, contents, WithDefault(layout), router, sources, bits, appointed, split.keysets);
    }
  }

  /** The backend of part j remembers this number of keys for the namespace of the part. */
  ghost predicate Remembers(layout: Layout, j: nat, size: nat)
    requires layout.Valid() && Complete(layout) && j < |layout.handles|
    reads layout.handles[j].value
  {
    Storable(layout.parents[j].value.root) ==> StoredSize(layout.handles[j].value, layout.parents[j].value.root) == size
  }

  lemma PartsComplete(split: Split, layout: Layout)
    requires split.Valid() && layout.Valid() && Complete(layout) && split.LayoutOf() == WithDefault(layout)
    ensures |split.keysets| == |layout.handles| + 1
    ensures forall i | 0 <= i < |layout.handles| :: split.handles[i].Some? && split.parents[i].Some?
  {
  }

  lemma FilteredByGet(split: Split, loaded: seq<map<Ident, Key>>, layout: Layout, router: Router)
    requires split.Valid() && layout.Valid() && Complete(layout) && split.LayoutOf() == WithDefault(layout)
    requires |split.keysets| == |loaded| == |layout.handles| + 1
    requires forall i | 0 <= i < |layout.handles| :: split.handles[i].Some? && split.parents[i].Some?
    requires forall i | 0 <= i < |layout.handles| ::
      split.keysets[i] == Filtered(loaded[i], router, split.handles[i].value, split.parents[i].value)
    requires forall i | 0 <= i < |layout.handles| && Storable(split.parents[i].value.root) ::
      StoredSize(split.handles[i].value, split.parents[i].value.root) == |split.keysets[i]|
    requires split.keysets[|layout.handles|] == loaded[|layout.handles|]
    ensures AllFiltered(loaded, split.keysets, WithDefault(layout), router)
    ensures forall j | 0 <= j < |layout.handles| :: Remembers(layout, j, |split.keysets[j]|)
  {
    hide Filtered, Storable, StoredSize;
  }

  /** splitGet, in terms of the parts before the default one was added. */
  method GetParts(handle: Kdb, split: Split, needSync: set<Key>, ghost layout: Layout) returns (still: set<Key>)
    requires split.Valid() && handle.Valid() && split as object !in handle.Footprint()
    requires layout.Valid() && layout.Proper() && Straight(layout, RouterOf(handle)) && Complete(layout)
    requires split.LayoutOf() == WithDefault(layout) && |split.keysets| == |layout.handles| + 1
    requires forall i | 0 <= i < |layout.handles| :: NamesValid(split.keysets[i])
    modifies split`keysets, split.Backends()
    ensures split.Valid() && handle.Valid() && RouterOf(handle) == old(RouterOf(handle))
    ensures AllFiltered(old(split.keysets), split.keysets, WithDefault(layout), RouterOf(handle))
    ensures |split.keysets| == |old(split.keysets)|
    ensures forall j | 0 <= j < |layout.handles| :: Remembers(layout, j, |split.keysets[j]|)
    ensures still <= needSync && Examined(old(split.keysets), |layout.handles|, still)
  {
    hide Kdb.Valid, Straight, Layout.Proper, Storable, StoredSize, NamesValid, Filtered, Examined, StorableParts;
    hide WithDefault, Complete, Remembers, AllFiltered;
    ghost var router := RouterOf(handle);
    PartsComplete(split, layout);
    DefaultIsApart(layout, router);
    var _, remaining := SplitGet(split, handle, needSync);
    still := remaining;
    FilteredByGet(split, old(split.keysets), layout, router);
  }

  /** splitGet and splitMerge: the keys are filtered and put together. */
  method Collect(handle: Kdb, split: Split, needSync: set<Key>, ghost keys: seq<Key>, ghost contents: map<Ident, Key>,
                 ghost layout: Layout, ghost sources: seq<Source>, ghost appointed: seq<map<Ident, Key>>)
    returns (now: map<Ident, Key>, still: set<Key>)
    requires split.Valid() && handle.Valid() && split as object !in handle.Footprint() && Represents(keys, contents)
    requires layout.Valid() && layout.Proper() && Straight(layout, RouterOf(handle)) && Complete(layout)
    requires split.LayoutOf() == WithDefault(layout) && |sources| == |layout.handles|
    requires Filled(sources, split.syncbits, appointed, split.keysets)
    requires var bits := split.syncbits;
      Appointed(Empty(|bits|), appointed, bits, contents, keys, WithDefault(layout), RouterOf(handle))
    requires forall i | 0 <= i < |sources| :: NamesValid(split.keysets[i])
    modifies split`keysets, split.Backends()
    ensures handle.Valid() && RouterOf(handle) == old(RouterOf(handle)) && still <= needSync
    ensures forall id :: Got(id, contents, now, layout, RouterOf(handle), sources)
    ensures forall id | id in now && Target(layout, RouterOf(handle), id.name) >= 0 :: now[id] !in still
    ensures forall j | 0 <= j < |sources| :: Remembers(layout, j, |Belonging(now, layout, RouterOf(handle), j)|)
  {
    hide Kdb.Valid, Represents, Straight, Layout.Proper, NamesValid, Appointed, Examined, Got, Belonging, Target;
    hide Filled, AllFiltered, WithDefault, Storable, StoredSize;
    ghost var loaded := split.keysets;
    AsMany(layout, sources, split.syncbits, appointed, loaded);
    still := GetParts(handle, split, needSync, layout);
    now := split.Merge(map[]);
    GotAll(keys, contents, layout, RouterOf(handle), sources, split.syncbits, appointed, loaded, split.keysets, still);
    forall j | 0 <= j < |sources|
      ensures Remembers(layout, j, |Belonging(now, layout, RouterOf(handle), j)|)
    {
      assert Remembers(layout, j, |split.keysets[j]|);
    }
  }

  /**
    kdbGet without global plugins, for parts that splitBuildup selected: -1 if a plugin fails, 0 if no resolver
    saw a change, and otherwise the keys as Got tells. The keyset stays as it is unless 1 is returned.
   */
  method KdbGet(handle: Kdb, split: Split, keys: seq<Key>, contents: map<Ident, Key>, needSync: set<Key>,
                sources: seq<Source>)
    returns (ret: int, now: map<Ident, Key>, still: set<Key>)
    requires handle.Valid() && split as object !in handle.Footprint() && AllNamed(keys) && Represents(keys, contents)
    requires split.Complete() && split.LayoutOf().Proper() && Straight(split.LayoutOf(), RouterOf(handle))
    requires |sources| == |split.keysets| && forall i | 0 <= i < |split.keysets| :: split.keysets[i] == map[]
    requires forall i | 0 <= i < |sources| && sources[i].keys.Some? :: NamesValid(sources[i].keys.value)
    modifies split, split.Backends()
    ensures handle.Valid() && RouterOf(handle) == old(RouterOf(handle)) && ret in {-1, 0, 1}
    ensures ret != -1 <==>
      && (forall i | 0 <= i < |sources| :: (sources[i].resolver == Some(0) || sources[i].resolver == Some(1)))
      && forall i | 0 <= i < |sources| && sources[i].resolver == Some(1) :: sources[i].keys.Some?
    ensures ret == 0 <==> forall i | 0 <= i < |sources| :: sources[i].resolver == Some(0)
    ensures ret != 1 ==> now == contents && still == needSync
    ensures ret == 1 ==> forall id :: Got(id, contents, now, old(split.LayoutOf()), RouterOf(handle), sources)
    ensures ret == 1 ==> still <= needSync
    ensures ret == 1 ==>
      forall id | id in now && Target(old(split.LayoutOf()), RouterOf(handle), id.name) >= 0 :: now[id] !in still
    ensures ret == 1 ==>
      forall j | 0 <= j < |sources| ::
        Remembers(old(split.LayoutOf()), j, |Belonging(now, old(split.LayoutOf()), RouterOf(handle), j)|)
    ensures ret == 0 ==> forall j | 0 <= j < |sources| :: Remembers(old(split.LayoutOf()), j, 0)
  {
    hide Kdb.Valid, Represents, AllNamed, Straight, Layout.Proper, SyncBit, CascadingBit, Storable, StoredSize;
    hide NamesValid;
    hide Appointed, Examined, Got, Belonging, Target, StorableParts, Filled, Filtered;
    now, still := contents, needSync;
    ghost var layout, router := split.LayoutOf(), RouterOf(handle);
    ret := CheckUpdateNeeded(split, sources);
    if ret <= 0 {
      return;
    }
    ghost var appointed;
    ret, appointed := Fill(handle, split, keys, contents, sources);
    if ret == -1 {
      return;
    }
    now, still := Collect(handle, split, needSync, keys, contents, layout, sources, appointed);
    ret := 1;
  }

  // ---------- kdbSet after kdbGet ----------

  /** kdbSet as it divides the keys of this map among the parts, none of which needs sync. */
  ghost predicate Afterwards(situation: Situation, now: map<Ident, Key>)
    requires situation.Valid()
  {
    && Complete(situation.layout) && StorableParts(situation.layout.parents, |situation.sizes|)
    && Represents(situation.keys, now)
    && Divided(Empty(|situation.sizes|), situation.keysets, now, situation.keys, situation.layout, situation.router)
    && forall id | id in now && Target(situation.layout, situation.router, id.name) >= 0 :: now[id] !in situation.needSync
  }

  lemma PartsAfterwards(situation: Situation, now: map<Ident, Key>, j: nat)
    requires situation.Valid() && Afterwards(situation, now) && j < |situation.sizes|
    ensures situation.keysets[j] == Belonging(now, situation.layout, situation.router, j)
    ensures situation.TakesPart(j) <==> situation.sizes[j] != |situation.keysets[j]|
    ensures situation.Unready(j) <==> situation.sizes[j] == -1
  {
    hide Target, Represents, Storable;
    ShareAll(situation.keys, now, situation.layout, situation.router, j);
    if NeedsSync(situation.keys, situation.needSync, situation.layout, situation.router, j) {
      var i :| 0 <= i < |situation.keys| && situation.keys[i] in situation.needSync &&
        Target(situation.layout, situation.router, situation.keys[i].id.name) == j;
      KeyRepresented(situation.keys, now, i);
    }
  }

  lemma KeyRepresented(keys: seq<Key>, now: map<Ident, Key>, i: nat)
    requires Represents(keys, now) && i < |keys|
    ensures keys[i].id in now && now[keys[i].id] == keys[i]
  {
  }

  /** kdbSet with what kdbGet has just returned does nothing. */
  lemma SetAfterGet(situation: Situation, now: map<Ident, Key>, handles: seq<Option<Backend>>, plugins: map<Backend,
                    Installed>,
                    ret: int, trace: seq<Step>, env: Env, taking: seq<nat>)
    requires situation.Valid() && Afterwards(situation, now)
    requires Outcome(situation, handles, plugins, ret, trace, env, taking)
    requires forall j | 0 <= j < |situation.sizes| ::
      situation.sizes[j] == |Belonging(now, situation.layout, situation.router, j)|
    ensures ret == 0 && trace == []
  {
    hide Afterwards, Belonging, Situation.TakesPart, Situation.Unready;
    forall j | 0 <= j < |situation.sizes|
      ensures !situation.TakesPart(j) && !situation.Unready(j)
    {
      PartsAfterwards(situation, now, j);
    }
  }

  /** But after a kdbGet that found nothing new the sizes are 0, and every part that has a key is stored again. */
  lemma SetAfterIdleGet(situation: Situation, now: map<Ident, Key>, handles: seq<Option<Backend>>,
                        plugins: map<Backend, Installed>,
                        ret: int, trace: seq<Step>, env: Env, taking: seq<nat>)
    requires situation.Valid() && Afterwards(situation, now)
    requires Outcome(situation, handles, plugins, ret, trace, env, taking)
    requires forall j | 0 <= j < |situation.sizes| :: situation.sizes[j] == 0
    ensures ret == 0 <==> forall id | id in now :: Target(situation.layout, situation.router, id.name) == -1
    ensures ret != 0 ==> forall j | 0 <= j < |situation.sizes| ::
      j in taking <==> exists id :: id in now && Target(situation.layout, situation.router, id.name) == j
  {
    hide Afterwards, Target, Env.Trace, Env.AnyPrepareFails, Situation.TakesPart, Situation.Unready;
    forall j | 0 <= j < |situation.sizes|
      ensures !situation.Unready(j)
      ensures situation.TakesPart(j) <==> exists id :: id in now && Target(situation.layout, situation.router, id.name) == j
    {
      PartsAfterwards(situation, now, j);
      SomeOrNone(now, situation.layout, situation.router, j);
    }
    forall id | id in now
      ensures -1 <= Target(situation.layout, situation.router, id.name) < |situation.sizes|
    {
      TargetIs(situation.layout, situation.router, id.name);
    }
    if id :| id in now && Target(situation.layout, situation.router, id.name) != -1 {
      assert situation.TakesPart(Target(situation.layout, situation.router, id.name));
    }
  }

  lemma SomeOrNone(now: map<Ident, Key>, layout: Layout, router: Router, j: int)
    requires layout.Valid()
    ensures |Belonging(now, layout, router, j)| != 0 <==> exists id :: id in now && Target(layout, router, id.name) == j
  {
    hide Target;
    var m := Belonging(now, layout, router, j);
    if |m| == 0 {
      assert m == map[];
      forall id | id in now
        ensures Target(layout, router, id.name) != j
      {
        assert id !in m;
      }
    } else {
      var id :| id in m;
    }
  }
}
