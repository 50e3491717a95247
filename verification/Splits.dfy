/** Dividing the keys of an application among the mounted backends, and putting them together again (split.c). */
module Splits {
  import opened Bytes
  import opened KeyNames
  import opened KeyOrder
  import opened KeySets
  import opened Mounts
  import NamedKeys
  import opened Postprocessing

  // ---------- which part a key belongs to ----------

  const SPLIT_FLAG_SYNC := 1
  const SPLIT_FLAG_CASCADING := 2
  const APPROXIMATE_NR_OF_BACKENDS := 16

  predicate SyncBit(bits: nat) {
    bits % 2 == 1
  }

  predicate CascadingBit(bits: nat) {
    bits / 2 % 2 == 1
  }

  function SetSync(bits: nat): (r: nat)
    ensures SyncBit(r) && (CascadingBit(r) <==> CascadingBit(bits))
  {
    if SyncBit(bits) then bits else bits + SPLIT_FLAG_SYNC
  }

  /** What does not change while keys are handed out. The default part has neither backend nor parent. */
  datatype Layout = Layout(handles: seq<Option<Backend>>, parents: seq<Option<Name>>, cascading: seq<bool>) {

    predicate Valid() {
      |handles| == |parents| == |cascading|
    }

    /** A cascading backend has a part for each namespace it is mounted in, any other takes all its keys. */
    predicate Fits(i: nat, backend: Backend, root: seq<byte>)
      requires Valid() && i < |handles|
    {
      && handles[i] == Some(backend)
      && (cascading[i] ==> Storable(root) && parents[i].Some? && parents[i].value.root == root)
    }

    /** The parts of one backend are either its only one, or cascading and of different namespaces. */
    predicate Proper()
      requires Valid()
    {
      forall i, j | 0 <= i < j < |handles| && handles[i].Some? && handles[i] == handles[j] ::
        && cascading[i] && cascading[j] && parents[i].Some? && parents[j].Some?
        && parents[i].value.root != parents[j].value.root
    }

    /** splitSearchBackend. */
    function Search(i: nat, backend: Backend, root: seq<byte>): (r: int)
      requires Valid() && i <= |handles|
      ensures r == -1 || i <= r < |handles|
      decreases |handles| - i
    {
      if i == |handles| then -1
      else if handles[i] == Some(backend) then
        if cascading[i] then
          if !Storable(root) then -1
          else if parents[i].Some? && parents[i].value.root == root then i
          else Search(i + 1, backend, root)
        else i
      else Search(i + 1, backend, root)
    }

    /** The search finds the first part that fits; only names outside the stored namespaces may miss one. */
    lemma {:induction false} SearchIsFirstFit(i: nat, backend: Backend, root: seq<byte>)
      requires Valid() && i <= |handles|
      ensures var r := Search(i, backend, root);
        && (r >= 0 ==> Fits(r, backend, root) && forall j | i <= j < r :: !Fits(j, backend, root))
        && (r == -1 && Storable(root) ==> forall j | i <= j < |handles| :: !Fits(j, backend, root))
      decreases |handles| - i
    {
      if i < |handles| {
        SearchIsFirstFit(i + 1, backend, root);
      }
    }

    /** In a proper layout at most one part fits, so the search finds exactly it. */
    lemma SearchFindsTheFit(i: nat, backend: Backend, root: seq<byte>)
      requires Valid() && Proper() && i < |handles| && Fits(i, backend, root)
      ensures Search(0, backend, root) == i
    {
      SearchUpTo(0, i, backend, root);
    }

    lemma {:induction false} SearchUpTo(from: nat, i: nat, backend: Backend, root: seq<byte>)
      requires Valid() && Proper() && from <= i < |handles| && Fits(i, backend, root)
      ensures Search(from, backend, root) == i
      decreases i - from
    {
      if from < i {
        SearchUpTo(from + 1, i, backend, root);
      }
    }
  }

  /** The layout of the parts that mountBackend recorded. */
  function LayoutOfParts(parts: seq<Part>): (l: Layout)
    ensures l.Valid() && |l.handles| == |parts|
    ensures forall i | 0 <= i < |parts| ::
      && l.handles[i] == Some(parts[i].handle) && l.parents[i] == Some(parts[i].parent)
      && l.cascading[i] == CascadingBit(parts[i].syncbits)
  {
    Layout(
      seq(|parts|, i requires 0 <= i < |parts| => Some(parts[i].handle)),
      seq(|parts|, i requires 0 <= i < |parts| => Some(parts[i].parent)),
      seq(|parts|, i requires 0 <= i < |parts| => CascadingBit(parts[i].syncbits)))
  }

  /** Mounting another backend keeps the layout proper. */
  lemma MountKeepsProper(parts: seq<Part>, b: Backend, now: seq<Part>)
    requires LayoutOfParts(parts).Proper() && forall i | 0 <= i < |parts| :: parts[i].handle != b
    requires var names := MountNames(b.mountpoint);
      && |now| == |parts| + |names| && parts <= now
      && forall i | 0 <= i < |names| :: now[|parts| + i] == Part(b, names[i], if |names| == 1 then 0 else 2)
    ensures LayoutOfParts(now).Proper()
  {
    hide Layout.Proper, MountNames;
    var names := MountNames(b.mountpoint);
    var l, m := LayoutOfParts(parts), LayoutOfParts(now);
    NamespacesDiffer(b.mountpoint);
    ProperUnfold(l);
    ProperUnfold(m);
    forall i, j | 0 <= i < j < |now| && m.handles[i] == m.handles[j]
      ensures m.cascading[i] && m.cascading[j] && m.parents[i].value.root != m.parents[j].value.root
    {
      if i < |parts| {
        assert now[i] == parts[i];
      }
      if j < |parts| {
        assert now[j] == parts[j] && l.handles[i] == l.handles[j];
        assert l.parents[i].value.root != l.parents[j].value.root;
      } else {
        var n := j - |parts|;
        assert now[|parts| + n] == Part(b, names[n], if |names| == 1 then 0 else 2);
        if i >= |parts| {
          var k := i - |parts|;
          assert now[|parts| + k] == Part(b, names[k], if |names| == 1 then 0 else 2);
        }
      }
    }
  }

  lemma ProperUnfold(l: Layout)
    requires l.Valid()
    ensures l.Proper() <==> forall i, j | 0 <= i < j < |l.handles| && l.handles[i].Some? && l.handles[i] == l.handles[j] ::
      && l.cascading[i] && l.cascading[j] && l.parents[i].Some? && l.parents[j].Some?
      && l.parents[i].value.root != l.parents[j].value.root
  {
  }

  lemma NamespacesDiffer(mp: Mountpoint)
    ensures forall i, j | 0 <= i < j < |MountNames(mp)| :: MountNames(mp)[i].root != MountNames(mp)[j].root
  {
  }

  /** A part that takes all keys of its backend is reached only from names in its own namespace. */
  ghost predicate Straight(layout: Layout, router: Router)
    requires layout.Valid()
  {
    forall i | 0 <= i < |layout.handles| && layout.handles[i].Some? && !layout.cascading[i] ::
      layout.parents[i].Some? && OnlyUnder(router, layout.handles[i].value, layout.parents[i].value.root)
  }

  /** The backend is not the default one, and mounted in one namespace only. */
  ghost predicate OnlyUnder(router: Router, b: Backend, root: seq<byte>) {
    b != router.defaultBackend && forall m | m in router.mounts && router.mounts[m] == b :: m.root == root
  }

  lemma {:induction false} NearestRoot<B>(mounts: map<Name, B>, q: Name) returns (m: Name)
    requires Nearest(mounts, q).Some?
    ensures m in mounts && m.root == q.root && Some(mounts[m]) == Nearest(mounts, q)
    decreases |q.parts|
  {
    if q in mounts {
      m := q;
    } else {
      m := NearestRoot(mounts, NamedKeys.Up(q));
    }
  }

  lemma StraightReach(router: Router, b: Backend, root: seq<byte>, n: Name)
    requires OnlyUnder(router, b, root) && router.Of(n) == b
    ensures n.root == root
  {
    var _ := NearestRoot(router.mounts, n);
  }

  /** In a straight layout whatever is appointed to a part belongs to it, if it can be stored at all. */
  lemma AppointedBelongs(layout: Layout, router: Router, n: Name)
    requires layout.Valid() && Straight(layout, router) && Target(layout, router, n) >= 0
    ensures var t := Target(layout, router, n);
      && layout.handles[t].Some? && layout.parents[t].Some?
      && (Belongs(n, router, layout.handles[t].value, layout.parents[t].value) <==> Storable(n.root))
  {
    hide Responsible, OnlyUnder, Storable;
    var t := Target(layout, router, n);
    layout.SearchIsFirstFit(0, router.Of(n), n.root);
    if !layout.cascading[t] {
      StraightReach(router, layout.handles[t].value, layout.parents[t].value.root, n);
    }
  }

  /** Mounting another backend keeps the layout straight. */
  lemma MountKeepsStraight(parts: seq<Part>, router: Router, b: Backend, now: seq<Part>)
    requires Straight(LayoutOfParts(parts), router)
    requires b != router.defaultBackend && forall m | m in router.mounts :: router.mounts[m] != b
    requires forall i | 0 <= i < |parts| :: parts[i].handle != b
    requires var names := MountNames(b.mountpoint);
      && |now| == |parts| + |names| && parts <= now
      && forall i | 0 <= i < |names| :: now[|parts| + i] == Part(b, names[i], if |names| == 1 then 0 else 2)
    ensures Straight(LayoutOfParts(now), router.(mounts := MountAll(router.mounts, MountNames(b.mountpoint), b)))
  {
    hide MountNames, MountAll;
    var names := MountNames(b.mountpoint);
    var later := router.(mounts := MountAll(router.mounts, names, b));
    var l, m := LayoutOfParts(parts), LayoutOfParts(now);
    forall i | 0 <= i < |now| && !m.cascading[i]
      ensures OnlyUnder(later, now[i].handle, now[i].parent.root)
    {
      if i < |parts| {
        assert now[i] == parts[i] && l.handles[i] == Some(parts[i].handle);
      } else {
        assert now[|parts| + (i - |parts|)] == Part(b, names[i - |parts|], if |names| == 1 then 0 else 2);
      }
      forall n | n in later.mounts && later.mounts[n] == now[i].handle
        ensures n.root == now[i].parent.root
      {
        MountAllIs(router.mounts, names, b, n);
      }
    }
  }

  /** So does one more cascading part of a backend that has such parts only, in another namespace. */
  lemma CascadingPartKeeps(parts: seq<Part>, router: Router, b: Backend, n: Name, later: Router)
    requires LayoutOfParts(parts).Proper() && Straight(LayoutOfParts(parts), router)
    requires forall i | 0 <= i < |parts| && parts[i].handle == b ::
      CascadingBit(parts[i].syncbits) && parts[i].parent.root != n.root
    requires later == router || later == router.(mounts := router.mounts[n := b])
    ensures var now := parts + [Part(b, n, SPLIT_FLAG_CASCADING)];
      LayoutOfParts(now).Proper() && Straight(LayoutOfParts(now), later)
  {
    hide Layout.Proper;
    var now := parts + [Part(b, n, SPLIT_FLAG_CASCADING)];
    var l, m := LayoutOfParts(parts), LayoutOfParts(now);
    ProperUnfold(l);
    ProperUnfold(m);
    forall i, j | 0 <= i < j < |now| && m.handles[i] == m.handles[j]
      ensures m.cascading[i] && m.cascading[j] && m.parents[i].value.root != m.parents[j].value.root
    {
      assert now[i] == parts[i];
      if j < |parts| {
        assert now[j] == parts[j] && l.handles[i] == l.handles[j];
        assert l.parents[i].value.root != l.parents[j].value.root;
      }
    }
    forall i | 0 <= i < |now| && !m.cascading[i]
      ensures OnlyUnder(later, now[i].handle, now[i].parent.root)
    {
      assert now[i] == parts[i] && l.handles[i] == Some(parts[i].handle);
    }
  }

  /** The part a key goes to, or -1. */
  function Target(layout: Layout, router: Router, n: Name): int
    requires layout.Valid()
  {
    layout.Search(0, router.Of(n), n.root)
  }

  // ---------- shares of a keyset ----------

  /** The entries of the first keys whose part is j; -1 stands for the keys without a part. */
  ghost function Share(contents: map<Ident, Key>, first: seq<Key>, layout: Layout, router: Router, j: int): map<Ident,
                       Key>
    requires layout.Valid()
  {
    map id | id in contents && contents[id] in first && Target(layout, router, id.name) == j :: contents[id]
  }

  lemma ShareNext(keys: seq<Key>, contents: map<Ident, Key>, n: nat, layout: Layout, router: Router, j: int)
    requires layout.Valid() && Represents(keys, contents) && n < |keys|
    ensures Share(contents, keys[..n + 1], layout, router, j) ==
      if Target(layout, router, keys[n].id.name) == j
        then Share(contents, keys[..n], layout, router, j)[keys[n].id := keys[n]]
      else Share(contents, keys[..n], layout, router, j)
  {
    hide Target;
    assert keys[..n + 1] == keys[..n] + [keys[n]];
  }

  lemma ShareAll(keys: seq<Key>, contents: map<Ident, Key>, layout: Layout, router: Router, j: int)
    requires layout.Valid() && Represents(keys, contents)
    ensures Share(contents, keys, layout, router, j) ==
      map id | id in contents && Target(layout, router, id.name) == j :: contents[id]
  {
  }

  // ---------- the split ----------

  /**
    The parallel arrays of struct _Split. Each keyset is given by its map; KeySet shows that
    appending keys and keysets is updating this map.
   */
  class Split {
    var keysets: seq<map<Ident, Key>>
    var handles: seq<Option<Backend>>
    var parents: seq<Option<Name>>
    var syncbits: seq<nat>
    var alloc: nat

    ghost predicate Valid()
      reads this
    {
      |keysets| == |handles| == |parents| == |syncbits| <= alloc && alloc > 0
    }

    function LayoutOf(): (l: Layout)
      reads this
      ensures l.handles == handles && l.parents == parents && |l.cascading| == |syncbits|
      ensures forall i | 0 <= i < |syncbits| :: l.cascading[i] == CascadingBit(syncbits[i])
    {
      Layout(handles, parents, seq(|syncbits|, i requires 0 <= i < |syncbits| reads this => CascadingBit(syncbits[i])))
    }

    constructor ()
      ensures Valid() && keysets == [] && alloc == APPROXIMATE_NR_OF_BACKENDS
    {
      keysets, handles, parents, syncbits, alloc := [], [], [], [], APPROXIMATE_NR_OF_BACKENDS;
    }

    /** splitAppend: a new part with an empty keyset; the arrays are doubled when they are full. */
    method Append(backend: Option<Backend>, parentKey: Option<Name>, bits: nat) returns (n: nat)
      requires Valid()
      modifies this
      ensures Valid() && n == |old(keysets)|
      ensures keysets == old(keysets) + [map[]] && handles == old(handles) + [backend]
      ensures parents == old(parents) + [parentKey] && syncbits == old(syncbits) + [bits]
      ensures alloc == if |old(keysets)| == old(alloc) then 2 * old(alloc) else old(alloc)
    {
      n := |keysets|;
      if n + 1 > alloc {
        alloc := alloc * 2;
      }
      keysets, handles := keysets + [map[]], handles + [backend];
      parents, syncbits := parents + [parentKey], syncbits + [bits];
    }

    /** splitRemove: the parts behind move down, one after the other, in all four arrays. */
    method Remove(at: nat)
      requires Valid() && at < |keysets|
      modifies this
      ensures Valid() && alloc == old(alloc)
      ensures keysets == Without(old(keysets), at) && handles == Without(old(handles), at)
      ensures parents == Without(old(parents), at) && syncbits == Without(old(syncbits), at)
    {
      hide Shifted, Without;
      ShiftedNothing(keysets, at);
      ShiftedNothing(handles, at);
      ShiftedNothing(parents, at);
      ShiftedNothing(syncbits, at);
      var size := |keysets| - 1;
      for i := at to size
        invariant Valid() && |keysets| == size + 1 && alloc == old(alloc)
        invariant Shifted(old(keysets), keysets, at, i) && Shifted(old(handles), handles, at, i)
        invariant Shifted(old(parents), parents, at, i) && Shifted(old(syncbits), syncbits, at, i)
      {
        ShiftedNext(old(keysets), keysets, at, i);
        ShiftedNext(old(handles), handles, at, i);
        ShiftedNext(old(parents), parents, at, i);
        ShiftedNext(old(syncbits), syncbits, at, i);
        keysets := keysets[i := keysets[i + 1]];
        handles := handles[i := handles[i + 1]];
        parents := parents[i := parents[i + 1]];
        syncbits := syncbits[i := syncbits[i + 1]];
      }
      ShiftedEnd(old(keysets), keysets, at);
      ShiftedEnd(old(handles), handles, at);
      ShiftedEnd(old(parents), parents, at);
      ShiftedEnd(old(syncbits), syncbits, at);
      keysets, handles, parents, syncbits := keysets[..size], handles[..size], parents[..size], syncbits[..size];
    }

    /** splitSearchBackend. */
    method SearchBackend(backend: Backend, parent: Name) returns (r: int)
      requires Valid()
      ensures r == LayoutOf().Search(0, backend, parent.root)
    {
      ghost var layout := LayoutOf();
      for i := 0 to |keysets|
        invariant layout.Search(0, backend, parent.root) == layout.Search(i, backend, parent.root)
      {
        if handles[i] == Some(backend) {
          if CascadingBit(syncbits[i]) {
            if parent.root == SPEC || parent.root == DIR || parent.root == USER || parent.root == SYSTEM {
              if parents[i].Some? && parents[i].value.root == parent.root {
                return i;
              }
            } else {
              return -1;
            }
          } else {
            return i;
          }
        }
      }
      r := -1;
    }

    /** splitDivide: each part gets the keys of its backend, and is flagged if one of them needs sync. */
    method Divide(handle: Kdb, keys: seq<Key>, needSync: set<Key>, ghost contents: map<Ident, Key>) returns (ret: int)
      requires Valid() && handle.Valid() && this as object !in handle.Footprint()
      requires AllNamed(keys) && Represents(keys, contents)
      modifies this
      ensures Valid() && handles == old(handles) && parents == old(parents) && LayoutOf() == old(LayoutOf())
      ensures Divided(old(keysets), keysets, contents, keys, LayoutOf(), RouterOf(handle))
      ensures Flagged(old(syncbits), syncbits, keys, needSync, LayoutOf(), RouterOf(handle))
      ensures ret == if AnyNeedsSync(keys, needSync, LayoutOf(), RouterOf(handle)) then 1 else 0
    {
      hide Kdb.Valid, Target, Represents, Layout.Search, Divided, Flagged, AnyNeedsSync, Responsible, Name.Valid;
      ghost var layout, router := LayoutOf(), RouterOf(handle);
      ret := 0;
      DividedNothing(keysets, syncbits, contents, needSync, layout, router);
      assert keys[..0] == [];
      for n := 0 to |keys|
        invariant Valid() && handles == old(handles) && parents == old(parents)
        invariant LayoutOf() == layout && handle.Valid() && RouterOf(handle) == router
        invariant Divided(old(keysets), keysets, contents, keys[..n], layout, router)
        invariant Flagged(old(syncbits), syncbits, keys[..n], needSync, layout, router)
        invariant ret == if AnyNeedsSync(keys[..n], needSync, layout, router) then 1 else 0
      {
        var curHandle := handle.GetBackend(Some(keys[n].id.name));
        var curFound := SearchBackend(curHandle, keys[n].id.name);
        TargetIs(layout, router, keys[n].id.name);
        DividedNext(old(keysets), keysets, contents, keys, n, layout, router);
        FlaggedNext(old(syncbits), syncbits, keys, n, needSync, layout, router);
        if curFound != -1 {
          keysets := keysets[curFound := keysets[curFound][keys[n].id := keys[n]]];
          if keys[n] in needSync {
            syncbits := syncbits[curFound := SetSync(syncbits[curFound])];
            ret := 1;
          }
        }
      }
      assert keys[..|keys|] == keys;
    }

    /** splitAppoint: a default part is added; keys go to their part, unless it will be reloaded. */
    method Appoint(handle: Kdb, keys: seq<Key>, ghost contents: map<Ident, Key>) returns (ret: int)
      requires Valid() && handle.Valid() && this as object !in handle.Footprint()
      requires AllNamed(keys) && Represents(keys, contents)
      modifies this
      ensures Valid() && ret == 1
      ensures handles == old(handles) + [None] && parents == old(parents) + [None] && syncbits == old(syncbits) + [0]
      ensures Appointed(old(keysets) + [map[]], keysets, syncbits, contents, keys, LayoutOf(), RouterOf(handle))
    {
      hide Kdb.Valid, Target, Represents, Layout.Search, Appointed, Responsible, Name.Valid;
      var defFound := Append(None, None, 0);
      ghost var layout, router := LayoutOf(), RouterOf(handle);
      ghost var before := keysets;
      AppointedNothing(keysets, syncbits, contents, layout, router);
      assert keys[..0] == [];
      for n := 0 to |keys|
        invariant Valid() && handle.Valid() && RouterOf(handle) == router && |keysets| == |before|
        invariant handles == old(handles) + [None] && parents == old(parents) + [None]
        invariant syncbits == old(syncbits) + [0]
        invariant LayoutOf() == layout && Appointed(before, keysets, syncbits, contents, keys[..n], layout, router)
      {
        var curHandle := handle.GetBackend(Some(keys[n].id.name));
        var curFound := SearchBackend(curHandle, keys[n].id.name);
        TargetIs(layout, router, keys[n].id.name);
        TargetHasBackend(layout, router, keys[n].id.name);
        AppointedNext(before, keysets, syncbits, contents, keys, n, layout, router);
        if curFound == -1 {
          curFound := defFound;
        }
        if !SyncBit(syncbits[curFound]) {
          keysets := keysets[curFound := keysets[curFound][keys[n].id := keys[n]]];
        }
      }
      assert keys[..|keys|] == keys;
      ret := 1;
    }

    ghost predicate Complete()
      reads this
    {
      Valid() && forall i | 0 <= i < |keysets| :: handles[i].Some? && parents[i].Some?
    }

    /** The number of keys differs from what the backend remembers. */
    ghost predicate Changed(i: nat)
      requires i < |keysets| == |handles| == |parents| && handles[i].Some? && parents[i].Some?
      reads `keysets, `handles, `parents, handles[i].value
    {
      StoredSize(handles[i].value, parents[i].value.root) != |keysets[i]|
    }

    /** The part has no size to compare with: kdbGet was not called, or its namespace is not stored. */
    ghost predicate Unready(i: nat)
      requires i < |keysets| == |handles| == |parents| && handles[i].Some? && parents[i].Some?
      reads `keysets, `handles, `parents, handles[i].value
    {
      !Storable(parents[i].value.root) || StoredSize(handles[i].value, parents[i].value.root) == -1
    }

    ghost function Backends(): set<Backend>
      reads this
    {
      set i | 0 <= i < |handles| && handles[i].Some? :: handles[i].value
    }

    /** splitSync: flags the parts whose number of keys changed, up to the first unready one. */
    method Sync() returns (ret: int)
      requires Complete()
      modifies `syncbits
      ensures Complete() && LayoutOf() == old(LayoutOf())
      ensures (ret == 0 || ret == 1) <==> forall i | 0 <= i < |keysets| :: !Unready(i)
      ensures ret == 0 || ret == 1 ==> (ret == 1 <==> exists i | 0 <= i < |keysets| :: Changed(i))
      ensures ret == 0 || ret == 1 ==>
        forall i | 0 <= i < |keysets| :: SyncBit(syncbits[i]) <==> SyncBit(old(syncbits)[i]) || Changed(i)
      ensures ret != 0 && ret != 1 ==> exists i | 0 <= i < |keysets| && Unready(i) ::
        (forall j | 0 <= j < i :: !Unready(j)) && ret == if Storable(parents[i].value.root) then -i - 2 else -1
    {
      hide SyncBit, CascadingBit, Storable, StoredSize;
      ret := 0;
      ghost var found := 0;
      for i := 0 to |keysets|
        invariant Complete()
        invariant forall j | 0 <= j < |keysets| :: CascadingBit(syncbits[j]) == CascadingBit(old(syncbits)[j])
        invariant ret == 0 || ret == 1
        invariant forall j | 0 <= j < i :: !Unready(j)
        invariant ret == 0 ==> forall j | 0 <= j < i :: !Changed(j)
        invariant ret == 1 ==> found < i && Changed(found)
        invariant forall j | 0 <= j < |keysets| ::
          SyncBit(syncbits[j]) <==> SyncBit(old(syncbits)[j]) || (j < i && Changed(j))
      {
        var root, backend := parents[i].value.root, handles[i].value;
        var ok, size := RememberedSize(backend, root);
        if !ok {
          assert Unready(i);
          return -1;
        }
        if size == -1 {
          assert Unready(i);
          return -i - 2;
        }
        if size != |keysets[i]| {
          found := i;
          syncbits := syncbits[i := SetSync(syncbits[i])];
          ret := 1;
        }
      }
    }

    /** splitUpdateSize: afterwards no part counts as changed, up to the first that cannot be stored. */
    method UpdateSize() returns (ret: int)
      requires Complete() && LayoutOf().Proper()
      modifies Backends()
      ensures Complete() && ret == if forall i | 0 <= i < |keysets| :: Storable(parents[i].value.root) then 1 else -1
      ensures forall i | 0 <= i < |keysets| && (forall j | 0 <= j <= i :: Storable(parents[j].value.root)) ::
        StoredSize(handles[i].value, parents[i].value.root) == |keysets[i]|
    {
      hide Storable, StoredSize;
      for i := 0 to |keysets|
        invariant forall j | 0 <= j < i ::
          Storable(parents[j].value.root) && StoredSize(handles[j].value, parents[j].value.root) == |keysets[j]|
      {
        var root, backend := parents[i].value.root, handles[i].value;
        assert handles[i].value in Backends();
        ghost var layout := LayoutOf();
        assert forall j | 0 <= j < i && layout.handles[j] == layout.handles[i] :: layout.parents[j].value.root != root;
        var updated := BackendUpdateSize(backend, root, |keysets[i]|);
        if updated == -1 {
          return -1;
        }
      }
      ret := 1;
    }

    /** splitPrepare: the parts that need no sync are removed, the others keep their order. */
    method Prepare()
      requires Valid()
      modifies this
      ensures Valid()
      ensures keysets == Selected(old(keysets), old(syncbits)) && handles == Selected(old(handles), old(syncbits))
      ensures parents == Selected(old(parents), old(syncbits)) && syncbits == Selected(old(syncbits), old(syncbits))
    {
      hide Prepared, Selected, Without;
      ghost var bits, m := syncbits, 0;
      PreparedStart(keysets, bits);
      PreparedStart(handles, bits);
      PreparedStart(parents, bits);
      PreparedStart(syncbits, bits);
      var i := 0;
      while i < |keysets|
        invariant m <= |bits| && i == |Selected(bits[..m], bits[..m])|
        invariant Prepared(old(keysets), keysets, bits, m) && Prepared(old(handles), handles, bits, m)
        invariant Prepared(old(parents), parents, bits, m) && Prepared(bits, syncbits, bits, m)
        invariant Valid() && |keysets| == i + (|bits| - m)
        decreases |bits| - m
      {
        PreparedNext(old(keysets), keysets, bits, m);
        PreparedNext(old(handles), handles, bits, m);
        PreparedNext(old(parents), parents, bits, m);
        PreparedNext(bits, syncbits, bits, m);
        if SyncBit(syncbits[i]) {
          i := i + 1;
        } else {
          Remove(i);
        }
        m := m + 1;
      }
      PreparedEnd(old(keysets), keysets, bits);
      PreparedEnd(old(handles), handles, bits);
      PreparedEnd(old(parents), parents, bits);
      PreparedEnd(bits, syncbits, bits);
    }

    /** splitMerge. */
    method Merge(dest: map<Ident, Key>) returns (merged: map<Ident, Key>)
      ensures merged == MergeParts(dest, keysets)
    {
      merged := dest;
      for i := 0 to |keysets|
        invariant merged == MergeParts(dest, keysets[..i])
      {
        assert keysets[..i + 1][..i] == keysets[..i];
        merged := merged + keysets[i];
      }
      assert keysets[..|keysets|] == keysets;
    }
  }

  // ---------- splitAppoint and splitMerge ----------

  /** The last part is the default one. Flagged parts keep what they had, the others get their share. */
  ghost predicate Appointed(before: seq<map<Ident, Key>>, after: seq<map<Ident, Key>>, bits: seq<nat>,
                            contents: map<Ident, Key>, first: seq<Key>, layout: Layout, router: Router)
    requires layout.Valid() && |before| == |bits| > 0
  {
    && |after| == |before|
    && forall j | 0 <= j < |after| :: after[j] ==
         if SyncBit(bits[j]) then before[j]
         else before[j] + Share(contents, first, layout, router, if j < |after| - 1 then j else -1)
  }

  lemma AppointedNothing(before: seq<map<Ident, Key>>, bits: seq<nat>, contents: map<Ident, Key>,
                         layout: Layout, router: Router)
    requires layout.Valid() && |before| == |bits| > 0
    ensures Appointed(before, before, bits, contents, [], layout, router)
  {
    hide Target;
  }

  lemma AppointedNext(before: seq<map<Ident, Key>>, now: seq<map<Ident, Key>>, bits: seq<nat>, contents: map<Ident,
                      Key>,
                      keys: seq<Key>, n: nat, layout: Layout, router: Router)
    requires layout.Valid() && |before| == |bits| > 0 && Represents(keys, contents) && n < |keys|
    requires Appointed(before, now, bits, contents, keys[..n], layout, router)
    requires -1 <= Target(layout, router, keys[n].id.name) < |now| - 1
    ensures var t := Target(layout, router, keys[n].id.name);
      var at := if t == -1 then |now| - 1 else t;
      && (SyncBit(bits[at]) ==> Appointed(before, now, bits, contents, keys[..n + 1], layout, router))
      && (!SyncBit(bits[at]) ==>
            Appointed(before, now[at := now[at][keys[n].id := keys[n]]], bits, contents, keys[..n + 1], layout, router))
  {
    hide Target, Share, Represents;
    forall j: int
      ensures Share(contents, keys[..n + 1], layout, router, j) ==
        if Target(layout, router, keys[n].id.name) == j
        then Share(contents, keys[..n], layout, router, j)[keys[n].id := keys[n]]
        else Share(contents, keys[..n], layout, router, j)
    {
      ShareNext(keys, contents, n, layout, router, j);
    }
  }

  /** Nothing is found in the default part, which has no backend. */
  lemma TargetHasBackend(layout: Layout, router: Router, n: Name)
    requires layout.Valid() && layout.handles != [] && layout.handles[|layout.handles| - 1] == None
    ensures -1 <= Target(layout, router, n) < |layout.handles| - 1
  {
    layout.SearchIsFirstFit(0, router.Of(n), n.root);
  }

  /** The map after all keysets were appended one after the other. */
  function MergeParts(dest: map<Ident, Key>, keysets: seq<map<Ident, Key>>): map<Ident, Key> {
    if keysets == [] then dest else MergeParts(dest, keysets[..|keysets| - 1]) + keysets[|keysets| - 1]
  }

  /** If no two parts share an identity, the merge has each part's entries, unchanged. */
  lemma {:induction false} MergeIsUnion(keysets: seq<map<Ident, Key>>, id: Ident)
    requires forall i, j | 0 <= i < j < |keysets| :: keysets[i].Keys !! keysets[j].Keys
    ensures id in MergeParts(map[], keysets) <==> exists j | 0 <= j < |keysets| :: id in keysets[j]
    ensures forall j | 0 <= j < |keysets| && id in keysets[j] :: MergeParts(map[], keysets)[id] == keysets[j][id]
  {
    if keysets != [] {
      MergeIsUnion(keysets[..|keysets| - 1], id);
    }
  }

  /**
    splitGet filters every part but the default one, also those that were not reloaded. Of the keys
    appointed to a part it keeps those of the parent's namespace: all of them if the part is cascading.
   */
  lemma FilterKeepsNamespace(layout: Layout, router: Router, n: Name)
    requires layout.Valid() && Target(layout, router, n) >= 0
    requires layout.parents[Target(layout, router, n)].Some?
    ensures var t := Target(layout, router, n); var parent := layout.parents[t].value;
      && layout.handles[t].Some?
      && (Belongs(n, router, layout.handles[t].value, parent) <==> Storable(n.root) && n.root == parent.root)
      && (layout.cascading[t] ==> Belongs(n, router, layout.handles[t].value, parent))
  {
    layout.SearchIsFirstFit(0, router.Of(n), n.root);
  }

  lemma ShareHas(keys: seq<Key>, contents: map<Ident, Key>, layout: Layout, router: Router, id: Ident)
    requires layout.Valid() && Represents(keys, contents)
    ensures var m := Share(contents, keys, layout, router, Target(layout, router, id.name));
      (id in m <==> id in contents) && (id in m ==> m[id] == contents[id])
  {
    hide Target;
  }

  /** Every part has what it had, and its share of the keys. */
  ghost predicate Divided(before: seq<map<Ident, Key>>, after: seq<map<Ident, Key>>, contents: map<Ident, Key>,
                          first: seq<Key>, layout: Layout, router: Router)
    requires layout.Valid()
  {
    && |after| == |before|
    && forall j | 0 <= j < |after| :: after[j] == before[j] + Share(contents, first, layout, router, j)
  }

  /** Some key of part j carries the sync flag. */
  ghost predicate NeedsSync(keys: seq<Key>, needSync: set<Key>, layout: Layout, router: Router, j: int)
    requires layout.Valid()
  {
    exists i | 0 <= i < |keys| :: keys[i] in needSync && Target(layout, router, keys[i].id.name) == j
  }

  ghost predicate Flagged(before: seq<nat>, after: seq<nat>, keys: seq<Key>, needSync: set<Key>,
                          layout: Layout, router: Router)
    requires layout.Valid()
  {
    && |after| == |before|
    && forall j | 0 <= j < |after| ::
         SyncBit(after[j]) <==> SyncBit(before[j]) || NeedsSync(keys, needSync, layout, router, j)
  }

  /** Some key that belongs to any of the parts carries the sync flag. */
  ghost predicate AnyNeedsSync(keys: seq<Key>, needSync: set<Key>, layout: Layout, router: Router)
    requires layout.Valid()
  {
    exists i | 0 <= i < |keys| :: keys[i] in needSync && Target(layout, router, keys[i].id.name) >= 0
  }

  lemma DividedNothing(keysets: seq<map<Ident, Key>>, bits: seq<nat>, contents: map<Ident, Key>,
                       needSync: set<Key>, layout: Layout, router: Router)
    requires layout.Valid()
    ensures Divided(keysets, keysets, contents, [], layout, router)
    ensures Flagged(bits, bits, [], needSync, layout, router)
    ensures !AnyNeedsSync([], needSync, layout, router)
  {
    hide Target;
  }

  lemma DividedNext(before: seq<map<Ident, Key>>, now: seq<map<Ident, Key>>, contents: map<Ident, Key>,
                    keys: seq<Key>, n: nat, layout: Layout, router: Router)
    requires layout.Valid() && Represents(keys, contents) && n < |keys|
    requires Divided(before, now, contents, keys[..n], layout, router)
    ensures var t := Target(layout, router, keys[n].id.name);
      && (0 <= t < |now| ==>
           Divided(before, now[t := now[t][keys[n].id := keys[n]]], contents, keys[..n + 1], layout, router))
      && (t < 0 ==> Divided(before, now, contents, keys[..n + 1], layout, router))
  {
    hide Target, Share, Represents;
    forall j: nat
      ensures Share(contents, keys[..n + 1], layout, router, j) ==
        if Target(layout, router, keys[n].id.name) == j
        then Share(contents, keys[..n], layout, router, j)[keys[n].id := keys[n]]
        else Share(contents, keys[..n], layout, router, j)
    {
      ShareNext(keys, contents, n, layout, router, j);
    }
  }

  lemma NeedsSyncNext(keys: seq<Key>, n: nat, needSync: set<Key>, layout: Layout, router: Router, j: int)
    requires layout.Valid() && n < |keys|
    ensures NeedsSync(keys[..n + 1], needSync, layout, router, j) <==>
      NeedsSync(keys[..n], needSync, layout, router, j) ||
        (keys[n] in needSync && Target(layout, router, keys[n].id.name) == j)
  {
    hide Target;
    var now, was := keys[..n + 1], keys[..n];
    assert now[n] == keys[n] && forall i | 0 <= i < n :: now[i] == was[i];
  }

  lemma FlaggedNext(before: seq<nat>, bits: seq<nat>, keys: seq<Key>, n: nat, needSync: set<Key>,
                    layout: Layout, router: Router)
    requires layout.Valid() && n < |keys|
    requires Flagged(before, bits, keys[..n], needSync, layout, router)
    ensures var t := Target(layout, router, keys[n].id.name);
      && (0 <= t < |bits| && keys[n] in needSync ==>
           && Flagged(before, bits[t := SetSync(bits[t])], keys[..n + 1], needSync, layout, router)
           && AnyNeedsSync(keys[..n + 1], needSync, layout, router))
      && (t < 0 || keys[n] !in needSync ==>
           && Flagged(before, bits, keys[..n + 1], needSync, layout, router)
           && AnyNeedsSync(keys[..n + 1], needSync, layout, router) == AnyNeedsSync(keys[..n], needSync, layout, router))
  {
    hide Target, NeedsSync;
    forall j: nat
      ensures NeedsSync(keys[..n + 1], needSync, layout, router, j) <==>
        NeedsSync(keys[..n], needSync, layout, router, j) ||
        (keys[n] in needSync && Target(layout, router, keys[n].id.name) == j)
    {
      NeedsSyncNext(keys, n, needSync, layout, router, j);
    }
    var now, was := keys[..n + 1], keys[..n];
    assert now[n] == keys[n] && forall i | 0 <= i < n :: now[i] == was[i];
  }

  function StoredSize(backend: Backend, root: seq<byte>): int
    reads backend
  {
    if root == SPEC then backend.specsize
    else if root == DIR then backend.dirsize
    else if root == USER then backend.usersize
    else backend.systemsize
  }

  /** The switch of splitSync: the size of the parent's namespace, if it is one that is stored. */
  method RememberedSize(backend: Backend, root: seq<byte>) returns (ok: bool, size: int)
    ensures ok == Storable(root) && size == StoredSize(backend, root)
  {
    ok := true;
    size := backend.systemsize;
    if root == SPEC {
      size := backend.specsize;
    } else if root == DIR {
      size := backend.dirsize;
    } else if root == USER {
      size := backend.usersize;
    } else if root != SYSTEM {
      ok := false;
    }
  }

  /** backendUpdateSize: one size for each namespace. */
  method BackendUpdateSize(backend: Backend, root: seq<byte>, size: int) returns (ret: int)
    modifies backend
    ensures ret == if Storable(root) then 0 else -1
    ensures Storable(root) ==> StoredSize(backend, root) == size
    ensures forall r | Storable(r) && r != root :: StoredSize(backend, r) == old(StoredSize(backend, r))
  {
    if root == SPEC {
      backend.specsize := size;
    } else if root == DIR {
      backend.dirsize := size;
    } else if root == USER {
      backend.usersize := size;
    } else if root == SYSTEM {
      backend.systemsize := size;
    } else {
      return -1;
    }
    ret := 0;
  }

  /** The elements at the flagged positions. */
  function Selected<T>(s: seq<T>, bits: seq<nat>): (r: seq<T>)
    requires |s| == |bits|
    ensures |r| <= |s|
  {
    if s == [] then []
    else
      var n := |s| - 1;
      Selected(s[..n], bits[..n]) + if SyncBit(bits[n]) then [s[n]] else []
  }

  /** How many flagged positions there are does not depend on the elements. */
  lemma {:induction false} SelectedSize<S, T>(s: seq<S>, t: seq<T>, bits: seq<nat>)
    requires |s| == |t| == |bits|
    ensures |Selected(s, bits)| == |Selected(t, bits)|
  {
    if s != [] {
      SelectedSize(s[..|s| - 1], t[..|s| - 1], bits[..|s| - 1]);
    }
  }

  /** The first m elements are sifted. */
  predicate Prepared<T(==)>(before: seq<T>, now: seq<T>, bits: seq<nat>, m: nat) {
    && m <= |before| == |bits|
    && now == Selected(before[..m], bits[..m]) + before[m..]
  }

  lemma PreparedStart<T>(s: seq<T>, bits: seq<nat>)
    requires |s| == |bits|
    ensures Prepared(s, s, bits, 0) && |Selected(bits[..0], bits[..0])| == 0
  {
    assert s[..0] == [] && [] + s[0..] == s;
  }

  lemma PreparedEnd<T>(s: seq<T>, now: seq<T>, bits: seq<nat>)
    requires Prepared(s, now, bits, |bits|)
    ensures |s| == |bits| && now == Selected(s, bits)
  {
    assert s[..|s|] == s && bits[..|s|] == bits && s[|s|..] == [];
  }

  lemma PreparedNext<T>(s: seq<T>, now: seq<T>, bits: seq<nat>, m: nat)
    requires m < |s| == |bits| && Prepared(s, now, bits, m)
    ensures var i := |Selected(bits[..m], bits[..m])|;
      && i < |now| && now[i] == s[m]
      && (SyncBit(bits[m]) ==> Prepared(s, now, bits, m + 1))
      && (!SyncBit(bits[m]) ==> Prepared(s, Without(now, i), bits, m + 1))
      && |Selected(bits[..m + 1], bits[..m + 1])| == i + (if SyncBit(bits[m]) then 1 else 0)
  {
    hide SyncBit;
    SelectedSize(s[..m], bits[..m], bits[..m]);
    assert s[..m + 1][..m] == s[..m] && bits[..m + 1][..m] == bits[..m];
    assert s[m..] == [s[m]] + s[m + 1..];
  }

  /** Exactly the flagged parts take part. */
  lemma {:induction false} SelectedAre<T>(s: seq<T>, bits: seq<nat>, x: T)
    requires |s| == |bits|
    ensures x in Selected(s, bits) <==> exists j | 0 <= j < |s| :: SyncBit(bits[j]) && s[j] == x
  {
    if s != [] {
      SelectedAre(s[..|s| - 1], bits[..|s| - 1], x);
    }
  }

  /** The elements from at to i were overwritten by the ones behind them. */
  predicate Shifted<T(==)>(before: seq<T>, now: seq<T>, at: nat, i: nat) {
    && at <= i < |before| == |now|
    && (forall j | 0 <= j < i :: now[j] == before[if j < at then j else j + 1])
    && forall j | i <= j < |now| :: now[j] == before[j]
  }

  lemma ShiftedNothing<T>(s: seq<T>, at: nat)
    requires at < |s|
    ensures Shifted(s, s, at, at)
  {
  }

  lemma ShiftedNext<T>(before: seq<T>, now: seq<T>, at: nat, i: nat)
    requires Shifted(before, now, at, i) && i + 1 < |before|
    ensures |now| == |before| && Shifted(before, now[i := now[i + 1]], at, i + 1)
  {
  }

  lemma ShiftedEnd<T>(before: seq<T>, now: seq<T>, at: nat)
    requires before != [] && Shifted(before, now, at, |before| - 1)
    ensures at < |before| == |now| && now[..|now| - 1] == Without(before, at)
  {
  }

  function Without<T>(s: seq<T>, at: nat): (r: seq<T>)
    requires at < |s|
    ensures |r| == |s| - 1 && forall i | 0 <= i < |r| :: r[i] == s[if i < at then i else i + 1]
  {
    s[..at] + s[at + 1..]
  }

  lemma TargetIs(layout: Layout, router: Router, n: Name)
    requires layout.Valid()
    ensures Target(layout, router, n) == layout.Search(0, Responsible(router.mounts, router.defaultBackend, Some(n)), n.root)
    ensures -1 <= Target(layout, router, n) < |layout.handles|
  {
  }
}
