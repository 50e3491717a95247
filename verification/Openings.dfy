/** Mounting all backends, as kdbOpen does it (mount.c): the parts that every split is made of. */
module Openings {
  import opened Bytes
  import opened Escaping
  import opened KeyNames
  import opened Mounts
  import opened Postprocessing
  import opened Splits
  import KeyOrder

  /** There is a part of the backend with this parent. */
  ghost predicate Recorded(parts: seq<Part>, b: Backend, n: Name) {
    exists i | 0 <= i < |parts| :: parts[i].handle == b && parts[i].parent == n
  }

  /** There is a part of the backend in this namespace. */
  ghost predicate RecordedIn(parts: seq<Part>, b: Backend, root: seq<byte>) {
    exists i | 0 <= i < |parts| :: parts[i].handle == b && parts[i].parent.root == root
  }

  lemma RecordedHere(parts: seq<Part>, b: Backend, n: Name)
    requires Recorded(parts, b, n)
    ensures RecordedIn(parts, b, n.root)
  {
    var i :| 0 <= i < |parts| && parts[i].handle == b && parts[i].parent == n;
    assert parts[i].parent.root == n.root;
  }

  predicate ParentsValid(parts: seq<Part>) {
    forall i | 0 <= i < |parts| :: Namespaced(parts[i].parent)
  }

  /** The parts do not compete, are reached straight, and every mountpoint has one. */
  ghost predicate Orderly(parts: seq<Part>, router: Router) {
    && ParentsValid(parts) && LayoutOfParts(parts).Proper() && Straight(LayoutOfParts(parts), router)
    && forall m | m in router.mounts :: Recorded(parts, router.mounts[m], m)
  }

  /** Where the keys without a mountpoint go: the default backend has a part in the namespace, unless it is taken. */
  ghost predicate Served(parts: seq<Part>, router: Router, root: seq<byte>) {
    router.Of(Name(root, [])) == router.defaultBackend ==> RecordedIn(parts, router.defaultBackend, root)
  }

  /** The same, and the part is that of the whole namespace. */
  ghost predicate AtRoot(parts: seq<Part>, router: Router, root: seq<byte>) {
    router.Of(Name(root, [])) == router.defaultBackend ==> Recorded(parts, router.defaultBackend, Name(root, []))
  }

  lemma AtRootServes(parts: seq<Part>, router: Router, root: seq<byte>)
    requires AtRoot(parts, router, root)
    ensures Served(parts, router, root)
  {
    hide Responsible, Recorded, RecordedIn;
    if router.Of(Name(root, [])) == router.defaultBackend {
      RecordedHere(parts, router.defaultBackend, Name(root, []));
    }
  }

  /** The parts of the default backend are cascading, and in these namespaces only. */
  ghost predicate DefaultsIn(parts: seq<Part>, b: Backend, roots: set<seq<byte>>) {
    forall i | 0 <= i < |parts| && parts[i].handle == b :: CascadingBit(parts[i].syncbits) && parts[i].parent.root in roots
  }

  /** The backend was neither mounted nor recorded before. */
  ghost predicate Unused(parts: seq<Part>, router: Router, b: Backend) {
    && b != router.defaultBackend && (forall m | m in router.mounts :: router.mounts[m] != b)
    && forall i | 0 <= i < |parts| :: parts[i].handle != b
  }

  // ---------- every way to mount keeps the parts orderly ----------

  lemma MountedIsRecorded(parts: seq<Part>, router: Router, b: Backend, names: seq<Name>, bits: nat, now: seq<Part>)
    requires forall m | m in router.mounts :: Recorded(parts, router.mounts[m], m)
    requires |now| == |parts| + |names| && parts <= now
    requires forall i | 0 <= i < |names| :: now[|parts| + i] == Part(b, names[i], bits)
    ensures var mounts := MountAll(router.mounts, names, b);
      forall m | m in mounts :: Recorded(now, mounts[m], m)
  {
    hide MountAll;
    var mounts := MountAll(router.mounts, names, b);
    forall m | m in mounts
      ensures Recorded(now, mounts[m], m)
    {
      MountAllIs(router.mounts, names, b, m);
      if m in names {
        var i :| 0 <= i < |names| && names[i] == m;
        assert now[|parts| + i].handle == b && now[|parts| + i].parent == m;
      } else {
        StillRecorded(parts, now, mounts[m], m);
      }
    }
  }

  lemma StillRecorded(parts: seq<Part>, now: seq<Part>, b: Backend, n: Name)
    requires Recorded(parts, b, n) && parts <= now
    ensures Recorded(now, b, n)
  {
    var i :| 0 <= i < |parts| && parts[i].handle == b && parts[i].parent == n;
    assert now[i] == parts[i];
  }

  lemma OrderlyParents(parts: seq<Part>, router: Router)
    requires Orderly(parts, router)
    ensures ParentsValid(parts)
  {
  }

  lemma MountedParents(parts: seq<Part>, names: seq<Name>, b: Backend, bits: nat, now: seq<Part>)
    requires ParentsValid(parts) && forall i | 0 <= i < |names| :: Namespaced(names[i])
    requires |now| == |parts| + |names| && parts <= now
    requires forall i | 0 <= i < |names| :: now[|parts| + i] == Part(b, names[i], bits)
    ensures ParentsValid(now)
  {
    hide Namespaced;
    forall i | 0 <= i < |now|
      ensures Namespaced(now[i].parent)
    {
      assert now[i] == if i < |parts| then parts[i] else Part(b, names[i - |parts|], bits);
    }
  }

  lemma MountKeepsOrderly(parts: seq<Part>, router: Router, b: Backend, now: seq<Part>)
    requires Orderly(parts, router) && Unused(parts, router, b) && (b.mountpoint.At? ==> b.mountpoint.name.Valid())
    requires var names := MountNames(b.mountpoint);
      && |now| == |parts| + |names| && parts <= now
      && forall i | 0 <= i < |names| :: now[|parts| + i] == Part(b, names[i], if |names| == 1 then 0 else 2)
    ensures Orderly(now, router.(mounts := MountAll(router.mounts, MountNames(b.mountpoint), b)))
  {
    hide Layout.Proper, Straight, MountNames, MountAll, Recorded, ParentsValid, Namespaced;
    var names := MountNames(b.mountpoint);
    MountNamesNamespaced(b.mountpoint);
    MountedParents(parts, names, b, if |names| == 1 then 0 else 2, now);
    MountKeepsProper(parts, b, now);
    MountKeepsStraight(parts, router, b, now);
    MountedIsRecorded(parts, router, b, names, if |names| == 1 then 0 else 2, now);
  }

  lemma CascadingKeepsOrderly(parts: seq<Part>, router: Router, b: Backend, n: Name, later: Router)
    requires Orderly(parts, router) && Namespaced(n)
    requires forall i | 0 <= i < |parts| && parts[i].handle == b ::
      CascadingBit(parts[i].syncbits) && parts[i].parent.root != n.root
    requires later == router || later == router.(mounts := router.mounts[n := b])
    ensures Orderly(parts + [Part(b, n, SPLIT_FLAG_CASCADING)], later)
    ensures Recorded(parts + [Part(b, n, SPLIT_FLAG_CASCADING)], b, n)
  {
    hide Layout.Proper, Straight, Namespaced;
    var now := parts + [Part(b, n, SPLIT_FLAG_CASCADING)];
    CascadingPartKeeps(parts, router, b, n, later);
    assert now[|parts|] == Part(b, n, SPLIT_FLAG_CASCADING);
    forall m | m in later.mounts
      ensures Recorded(now, later.mounts[m], m)
    {
      if m in router.mounts && later.mounts[m] == router.mounts[m] {
        StillRecorded(parts, now, later.mounts[m], m);
      }
    }
  }

  // ---------- nothing that can be stored is without a part ----------

  lemma {:induction false} NothingAbove<B>(mounts: map<Name, B>, q: Name)
    requires Nearest(mounts, q).None?
    ensures Nearest(mounts, Name(q.root, [])).None?
    decreases |q.parts|
  {
    if q.parts == [] {
      assert q == Name(q.root, []);
    } else {
      NothingAbove(mounts, NamedKeys.Up(q));
    }
  }

  /** Of orderly parts exactly one fits a name in a namespace that the default backend serves. */
  lemma PartForName(parts: seq<Part>, router: Router, n: Name)
    requires Orderly(parts, router) && Served(parts, router, n.root) && Storable(n.root)
    ensures var t := Target(LayoutOfParts(parts), router, n);
      t >= 0 && parts[t].handle == router.Of(n) && (CascadingBit(parts[t].syncbits) ==> parts[t].parent.root == n.root)
  {
    hide Layout.Proper, Straight, Storable, Responsible;
    var layout := LayoutOfParts(parts);
    BackendOf(router, n);
    if Nearest(router.mounts, n).Some? {
      var m := NearestRoot(router.mounts, n);
      RecordedHere(parts, router.mounts[m], m);
    } else {
      NothingAbove(router.mounts, n);
      BackendOf(router, Name(n.root, []));
    }
    var i :| 0 <= i < |parts| && parts[i].handle == router.Of(n) && parts[i].parent.root == n.root;
    layout.SearchFindsTheFit(i, router.Of(n), n.root);
  }

  lemma BackendOf(router: Router, n: Name)
    ensures Nearest(router.mounts, n).Some? ==> router.Of(n) == Nearest(router.mounts, n).value
    ensures Nearest(router.mounts, n).None? ==> router.Of(n) == router.defaultBackend
  {
  }

  // ---------- mountOpen and mountDefault ----------

  /** What is mounted where, if one backend is mounted after the other. */
  function AllMounted(backends: seq<Backend>): map<Name, Backend> {
    if backends == [] then map[]
    else
      var b := backends[|backends| - 1];
      MountAll(AllMounted(backends[..|backends| - 1]), MountNames(b.mountpoint), b)
  }

  /** Every name of every backend, and of several backends with one name the last one. */
  lemma {:induction false} AllMountedIs(backends: seq<Backend>, m: Name)
    ensures m in AllMounted(backends) <==> exists i | 0 <= i < |backends| :: m in MountNames(backends[i].mountpoint)
    ensures forall i | 0 <= i < |backends| && m in MountNames(backends[i].mountpoint) &&
      (forall j | i < j < |backends| :: m !in MountNames(backends[j].mountpoint)) :: AllMounted(backends)[m] == backends[i]
  {
    hide MountNames, MountAll;
    if backends != [] {
      var n := |backends| - 1;
      AllMountedIs(backends[..n], m);
      MountAllIs(AllMounted(backends[..n]), MountNames(backends[n].mountpoint), backends[n], m);
    }
  }

  /** One part for each name of a backend. */
  function PartsOf(b: Backend): seq<Part> {
    var names := MountNames(b.mountpoint);
    seq(|names|, i requires 0 <= i < |names| => Part(b, names[i], if |names| == 1 then 0 else SPLIT_FLAG_CASCADING))
  }

  function AllParts(backends: seq<Backend>): seq<Part> {
    if backends == [] then [] else AllParts(backends[..|backends| - 1]) + PartsOf(backends[|backends| - 1])
  }

  lemma PartsMounted(parts: seq<Part>, b: Backend, now: seq<Part>)
    requires var names := MountNames(b.mountpoint);
      && |now| == |parts| + |names| && parts <= now
      && forall i | 0 <= i < |names| :: now[|parts| + i] == Part(b, names[i], if |names| == 1 then 0 else 2)
    ensures now == parts + PartsOf(b)
  {
    hide MountNames;
  }

  /** mountOpen, for backends that could be opened: one after the other is mounted. */
  method MountOpen(kdb: Kdb, backends: seq<Backend>)
    requires kdb.Valid() && kdb.mounts == map[] && kdb.split == []
    requires forall i | 0 <= i < |backends| :: backends[i] !in kdb.Footprint() && backends[i] != kdb.defaultBackend
    requires forall i | 0 <= i < |backends| && backends[i].mountpoint.At? :: backends[i].mountpoint.name.Valid()
    requires forall i, j | 0 <= i < j < |backends| :: backends[i] != backends[j]
    modifies kdb.Footprint(), backends
    ensures kdb.Valid() && fresh(kdb.Footprint() - old(kdb.Footprint()))
    ensures Orderly(kdb.split, RouterOf(kdb)) && kdb.mounts == AllMounted(backends) && kdb.split == AllParts(backends)
    ensures forall i | 0 <= i < |kdb.split| :: kdb.split[i].handle in backends
    ensures forall m | m in kdb.mounts :: kdb.mounts[m] in backends
  {
    hide Kdb.Valid, MountNames, MountAll, Orderly, Unused, PartsOf;
    OrderlyAtFirst(RouterOf(kdb));
    for n := 0 to |backends|
      invariant kdb.Valid() && fresh(kdb.Footprint() - old(kdb.Footprint())) && Orderly(kdb.split, RouterOf(kdb))
      invariant kdb.mounts == AllMounted(backends[..n]) && kdb.split == AllParts(backends[..n])
      invariant forall i | 0 <= i < |kdb.split| :: kdb.split[i].handle in backends[..n]
      invariant forall m | m in kdb.mounts :: kdb.mounts[m] in backends[..n]
    {
      var b := backends[n];
      ghost var parts, router := kdb.split, RouterOf(kdb);
      NotUsedYet(parts, router, b, backends[..n]);
      kdb.MountBackend(b);
      MountKeepsOrderly(parts, router, b, kdb.split);
      InUse(parts, router, b, kdb.split, backends[..n], backends[..n + 1]);
      PartsMounted(parts, b, kdb.split);
      assert backends[..n + 1][..n] == backends[..n];
    }
    assert backends[..|backends|] == backends;
  }

  lemma OrderlyAtFirst(router: Router)
    requires router.mounts == map[]
    ensures Orderly([], router)
  {
  }

  lemma NotUsedYet(parts: seq<Part>, router: Router, b: Backend, before: seq<Backend>)
    requires b !in before && b != router.defaultBackend
    requires forall i | 0 <= i < |parts| :: parts[i].handle in before
    requires forall m | m in router.mounts :: router.mounts[m] in before
    ensures Unused(parts, router, b)
  {
  }

  lemma InUse(parts: seq<Part>, router: Router, b: Backend, now: seq<Part>, before: seq<Backend>, after: seq<Backend>)
    requires after == before + [b]
    requires forall i | 0 <= i < |parts| :: parts[i].handle in before
    requires forall m | m in router.mounts :: router.mounts[m] in before
    requires var names := MountNames(b.mountpoint);
      && |now| == |parts| + |names| && parts <= now
      && forall i | 0 <= i < |names| :: now[|parts| + i] == Part(b, names[i], if |names| == 1 then 0 else 2)
    ensures forall i | 0 <= i < |now| :: now[i].handle in after
    ensures var mounts := MountAll(router.mounts, MountNames(b.mountpoint), b); forall m | m in mounts :: mounts[m] in after
  {
    hide MountNames, MountAll;
    var names := MountNames(b.mountpoint);
    forall i | 0 <= i < |now|
      ensures now[i].handle in after
    {
      if i < |parts| {
        assert now[i] == parts[i];
      } else {
        assert now[|parts| + (i - |parts|)] == Part(b, names[i - |parts|], if |names| == 1 then 0 else 2);
      }
    }
    forall m | m in MountAll(router.mounts, names, b)
      ensures MountAll(router.mounts, names, b)[m] in after
    {
      MountAllIs(router.mounts, names, b, m);
    }
  }

  const SYSTEM_ELEKTRA := Name(SYSTEM, [ELEKTRA])

  /** The part of the default backend for one namespace, if it was not taken by a mountpoint. */
  function DefaultPart(router: Router, root: seq<byte>): seq<Part> {
    if router.Of(Name(root, [])) == router.defaultBackend
    then [Part(router.defaultBackend, Name(root, []), SPLIT_FLAG_CASCADING)]
    else []
  }

  lemma DefaultPartKeeps(parts: seq<Part>, router: Router, root: seq<byte>, roots: set<seq<byte>>)
    requires Orderly(parts, router) && DefaultsIn(parts, router.defaultBackend, roots) && root !in roots
    requires IsNamespace(root)
    ensures var now := parts + DefaultPart(router, root);
      Orderly(now, router) && DefaultsIn(now, router.defaultBackend, roots + {root}) && AtRoot(now, router, root)
  {
    hide Orderly, Recorded, Responsible;
    if router.Of(Name(root, [])) == router.defaultBackend {
      CascadingKeepsOrderly(parts, router, router.defaultBackend, Name(root, []), router);
    } else {
      assert parts + [] == parts;
    }
  }

  /** splitAppend to the parts of the database. */
  method AppendPart(kdb: Kdb, part: Part)
    requires kdb.Valid()
    modifies kdb`split
    ensures kdb.Valid() && kdb.Footprint() == old(kdb.Footprint())
    ensures kdb.split == old(kdb.split) + [part]
  {
    kdb.split := kdb.split + [part];
  }

  /** One namespace: the default backend is appended if mountGetBackend finds it. */
  method AddDefault(kdb: Kdb, root: seq<byte>)
    requires kdb.Valid() && IsNamespace(root)
    modifies kdb`split
    ensures kdb.Valid() && kdb.Footprint() == old(kdb.Footprint())
    ensures kdb.split == old(kdb.split) + DefaultPart(RouterOf(kdb), root)
  {
    hide Responsible, Kdb.Valid;
    var key := Name(root, []);
    var backend := kdb.GetBackend(Some(key));
    assert backend == RouterOf(kdb).Of(key);
    if backend == kdb.defaultBackend {
      AppendPart(kdb, Part(backend, key, SPLIT_FLAG_CASCADING));
    }
  }

  lemma MountedOnce(parts: seq<Part>, now: seq<Part>, mounts: map<Name, Backend>, b: Backend)
    requires |now| == |parts| + |MountNames(Default)| && parts <= now
    requires now[|parts|] == Part(b, MountNames(Default)[0], 0)
    ensures now[|now| - 1 := now[|now| - 1].(syncbits := SPLIT_FLAG_CASCADING)]
         == parts + [Part(b, SYSTEM_ELEKTRA, SPLIT_FLAG_CASCADING)]
    ensures MountAll(mounts, MountNames(Default), b) == mounts[SYSTEM_ELEKTRA := b]
  {
    assert MountNames(Default)[1..] == [];
  }

  /** kdb->split->syncbits[kdb->split->size - 1] = 2. */
  method LastIsCascading(kdb: Kdb)
    requires kdb.Valid() && kdb.split != []
    modifies kdb`split
    ensures kdb.Valid() && kdb.Footprint() == old(kdb.Footprint())
    ensures var was := old(kdb.split);
      kdb.split == was[|was| - 1 := was[|was| - 1].(syncbits := SPLIT_FLAG_CASCADING)]
  {
    kdb.split := kdb.split[|kdb.split| - 1 := kdb.split[|kdb.split| - 1].(syncbits := SPLIT_FLAG_CASCADING)];
  }

  /** mountBackend for a backend without mountpoint; then the part is made cascading. */
  method MountElektra(kdb: Kdb, b: Backend)
    requires kdb.Valid() && b !in kdb.Footprint() && b.mountpoint == Default
    modifies kdb.Footprint(), b
    ensures kdb.Valid() && fresh(kdb.Footprint() - old(kdb.Footprint())) && b.refcounter == 2
    ensures kdb.mounts == old(kdb.mounts)[SYSTEM_ELEKTRA := b]
    ensures kdb.split == old(kdb.split) + [Part(b, SYSTEM_ELEKTRA, SPLIT_FLAG_CASCADING)]
  {
    hide Kdb.Valid, MountAll;
    assert |MountNames(b.mountpoint)| == 1;
    kdb.MountBackend(b);
    MountedOnce(old(kdb.split), kdb.split, old(kdb.mounts), b);
    b.refcounter := b.refcounter + 1;
    LastIsCascading(kdb);
  }

  /** What is mounted below a name does not matter for the name itself. */
  lemma SystemStays(router: Router, b: Backend)
    ensures DefaultPart(router.(mounts := router.mounts[SYSTEM_ELEKTRA := b]), SYSTEM) == DefaultPart(router, SYSTEM)
  {
  }

  /** What mountDefault adds for the namespace system: system/elektra stays reachable. */
  function SystemParts(router: Router, inFallback: bool, initBackend: Backend): seq<Part> {
    if !inFallback then [Part(initBackend, SYSTEM_ELEKTRA, SPLIT_FLAG_CASCADING)] + DefaultPart(router, SYSTEM)
    else if router.Of(SYSTEM_ELEKTRA) == router.defaultBackend
    then [Part(router.defaultBackend, Name(SYSTEM, []), SPLIT_FLAG_CASCADING)]
    else [Part(router.defaultBackend, SYSTEM_ELEKTRA, SPLIT_FLAG_CASCADING)]
  }

  /** What it adds to the mountpoints. */
  function DefaultMounts(router: Router, inFallback: bool, initBackend: Backend): Router {
    if !inFallback then router.(mounts := router.mounts[SYSTEM_ELEKTRA := initBackend])
    else if router.Of(SYSTEM_ELEKTRA) == router.defaultBackend then router
    else router.(mounts := router.mounts[SYSTEM_ELEKTRA := router.defaultBackend])
  }

  /** system/elektra, and what is below without a nearer mountpoint, can always be reached. */
  lemma ElektraIsMounted(router: Router, inFallback: bool, initBackend: Backend)
    ensures var later := DefaultMounts(router, inFallback, initBackend); var at := Name(SYSTEM, [ELEKTRA]);
      && later.mounts - {at} == router.mounts - {at}
      && later.Of(at) == (if inFallback then later.defaultBackend else initBackend)
      && (!inFallback ==> at in later.mounts && later.mounts[at] == initBackend)
      && forall q | KeyOrder.Encloses(at, q) &&
           (forall m | m in later.mounts && KeyOrder.Encloses(m, q) :: KeyOrder.Encloses(m, at)) ::
           later.Of(q) == if inFallback then later.defaultBackend else initBackend
    ensures !inFallback ==>
      Part(initBackend, Name(SYSTEM, [ELEKTRA]), 2) in SystemParts(router, inFallback, initBackend)
  {
    var later, at := DefaultMounts(router, inFallback, initBackend), SYSTEM_ELEKTRA;
    assert later.Of(at) == if inFallback then later.defaultBackend else initBackend;
    forall q | KeyOrder.Encloses(at, q) &&
      (forall m | m in later.mounts && KeyOrder.Encloses(m, q) :: KeyOrder.Encloses(m, at))
      ensures later.Of(q) == later.Of(at)
    {
      NothingBetween(later.mounts, later.defaultBackend, at, q);
    }
  }

  method MountSystem(kdb: Kdb, inFallback: bool, initBackend: Backend)
    requires kdb.Valid() && initBackend !in kdb.Footprint() && kdb.defaultBackend !in kdb.Footprint()
    requires initBackend.mountpoint == kdb.defaultBackend.mountpoint == Default
    modifies kdb.Footprint(), initBackend, kdb.defaultBackend
    ensures kdb.Valid() && fresh(kdb.Footprint() - old(kdb.Footprint()))
    ensures kdb.split == old(kdb.split) + old(SystemParts(RouterOf(kdb), inFallback, initBackend))
    ensures RouterOf(kdb) == DefaultMounts(old(RouterOf(kdb)), inFallback, initBackend)
    ensures !inFallback ==>
      kdb.mounts == old(kdb.mounts)[Name(SYSTEM, [ELEKTRA]) := initBackend] && initBackend.refcounter == 2
    ensures inFallback ==> RouterOf(kdb).Of(Name(SYSTEM, [ELEKTRA])) == kdb.defaultBackend
    ensures inFallback && old(RouterOf(kdb)).Of(Name(SYSTEM, [ELEKTRA])) != kdb.defaultBackend ==>
      kdb.mounts == old(kdb.mounts)[Name(SYSTEM, [ELEKTRA]) := kdb.defaultBackend] && kdb.defaultBackend.refcounter == 2
  {
    hide Responsible, Kdb.Valid, DefaultPart;
    ghost var router := RouterOf(kdb);
    ElektraIsMounted(router, inFallback, initBackend);
    if inFallback {
      var backend := kdb.GetBackend(Some(SYSTEM_ELEKTRA));
      assert backend == router.Of(SYSTEM_ELEKTRA);
      if backend != kdb.defaultBackend {
        MountElektra(kdb, kdb.defaultBackend);
      } else {
        AppendPart(kdb, Part(backend, Name(SYSTEM, []), SPLIT_FLAG_CASCADING));
      }
    } else {
      MountElektra(kdb, initBackend);
      SystemStays(router, initBackend);
      AddDefault(kdb, SYSTEM);
    }
  }

  /** mountDefault: the namespaces that are not taken, and system/elektra. */
  method MountDefault(kdb: Kdb, inFallback: bool, initBackend: Backend)
    requires kdb.Valid() && initBackend !in kdb.Footprint() && kdb.defaultBackend !in kdb.Footprint()
    requires initBackend.mountpoint == kdb.defaultBackend.mountpoint == Default
    modifies kdb.Footprint(), initBackend, kdb.defaultBackend
    ensures kdb.Valid() && fresh(kdb.Footprint() - old(kdb.Footprint()))
    ensures var router := old(RouterOf(kdb));
      && kdb.split == old(kdb.split) + DefaultPart(router, SPEC) + DefaultPart(router, DIR) + DefaultPart(router, USER)
                      + SystemParts(router, inFallback, initBackend)
      && RouterOf(kdb) == DefaultMounts(router, inFallback, initBackend)
    ensures !inFallback ==>
      kdb.mounts == old(kdb.mounts)[Name(SYSTEM, [ELEKTRA]) := initBackend] && initBackend.refcounter == 2
    ensures inFallback ==> RouterOf(kdb).Of(Name(SYSTEM, [ELEKTRA])) == kdb.defaultBackend
    ensures inFallback && old(RouterOf(kdb)).Of(Name(SYSTEM, [ELEKTRA])) != kdb.defaultBackend ==>
      kdb.mounts == old(kdb.mounts)[Name(SYSTEM, [ELEKTRA]) := kdb.defaultBackend] && kdb.defaultBackend.refcounter == 2
  {
    hide Responsible, Kdb.Valid, DefaultPart, SystemParts, DefaultMounts;
    AddDefault(kdb, SPEC);
    AddDefault(kdb, DIR);
    AddDefault(kdb, USER);
    MountSystem(kdb, inFallback, initBackend);
  }

  /** A later part or a mountpoint at system/elektra takes nothing away. */
  lemma StillAtRoot(parts: seq<Part>, now: seq<Part>, router: Router, later: Router, b: Backend, root: seq<byte>)
    requires AtRoot(parts, router, root) && parts <= now
    requires later == router || later == router.(mounts := router.mounts[SYSTEM_ELEKTRA := b])
    ensures AtRoot(now, later, root)
  {
    hide Recorded;
    assert later.Of(Name(root, [])) == router.Of(Name(root, []));
    if router.Of(Name(root, [])) == router.defaultBackend {
      StillRecorded(parts, now, router.defaultBackend, Name(root, []));
    }
  }

  lemma SystemServed(parts: seq<Part>, router: Router, inFallback: bool, initBackend: Backend)
    requires Orderly(parts, router) && (!inFallback ==> Unused(parts, router, initBackend))
    requires DefaultsIn(parts, router.defaultBackend, {SPEC, DIR, USER})
    ensures var later := DefaultMounts(router, inFallback, initBackend);
      var now := parts + SystemParts(router, inFallback, initBackend);
      && Orderly(now, later) && Served(now, later, SYSTEM)
      && (!inFallback || router.Of(SYSTEM_ELEKTRA) == router.defaultBackend ==> AtRoot(now, later, SYSTEM))
  {
    hide Orderly, Recorded, Responsible, DefaultPart;
    var later, system := DefaultMounts(router, inFallback, initBackend), SystemParts(router, inFallback, initBackend);
    if inFallback {
      MountNamesNamespaced(Default);
      assert Namespaced(MountNames(Default)[0]);
      CascadingKeepsOrderly(parts, router, router.defaultBackend, system[0].parent, later);
      RecordedHere(parts + system, router.defaultBackend, system[0].parent);
    } else {
      var now := parts + [Part(initBackend, SYSTEM_ELEKTRA, SPLIT_FLAG_CASCADING)];
      MountNamesNamespaced(Default);
      assert Namespaced(MountNames(Default)[0]);
      CascadingKeepsOrderly(parts, router, initBackend, SYSTEM_ELEKTRA, later);
      DefaultPartKeeps(now, later, SYSTEM, {SPEC, DIR, USER});
      SystemStays(router, initBackend);
      assert now + DefaultPart(router, SYSTEM) == parts + system;
      AtRootServes(parts + system, later, SYSTEM);
    }
  }

  /**
    Whatever was mounted before: afterwards the parts are orderly, and every name that can be stored
    has exactly one part, also in the fallback, where system may be kept by the part for system/elektra.
   */
  lemma DefaultsServeAll(parts: seq<Part>, router: Router, inFallback: bool, initBackend: Backend)
    requires Orderly(parts, router) && DefaultsIn(parts, router.defaultBackend, {})
    requires !inFallback ==> Unused(parts, router, initBackend)
    ensures var now := parts + DefaultPart(router, SPEC) + DefaultPart(router, DIR) + DefaultPart(router, USER)
                       + SystemParts(router, inFallback, initBackend);
      var later := DefaultMounts(router, inFallback, initBackend);
      && Orderly(now, later) && (forall root | Storable(root) :: Served(now, later, root))
      && forall root | Storable(root) &&
           (root == SYSTEM && inFallback ==> router.Of(SYSTEM_ELEKTRA) == router.defaultBackend) ::
           AtRoot(now, later, root)
  {
    hide AtRoot, Orderly, Recorded, Responsible, DefaultPart, SystemParts, Served, Storable;
    var later := DefaultMounts(router, inFallback, initBackend);
    var p0 := parts + DefaultPart(router, SPEC);
    var p1 := p0 + DefaultPart(router, DIR);
    var p2 := p1 + DefaultPart(router, USER);
    DefaultPartKeeps(parts, router, SPEC, {});
    DefaultPartKeeps(p0, router, DIR, {SPEC});
    DefaultPartKeeps(p1, router, USER, {SPEC, DIR});
    if !inFallback {
      UnusedStill(parts, router, initBackend, SPEC);
      UnusedStill(p0, router, initBackend, DIR);
      UnusedStill(p1, router, initBackend, USER);
    }
    SystemServed(p2, router, inFallback, initBackend);
    var now := p2 + SystemParts(router, inFallback, initBackend);
    var at := if inFallback then router.defaultBackend else initBackend;
    StillAtRoot(p0, now, router, later, at, SPEC);
    AtRootServes(now, later, SPEC);
    StillAtRoot(p1, now, router, later, at, DIR);
    AtRootServes(now, later, DIR);
    StillAtRoot(p2, now, router, later, at, USER);
    AtRootServes(now, later, USER);
    OnlyFour();
  }

  lemma UnusedStill(parts: seq<Part>, router: Router, b: Backend, root: seq<byte>)
    requires Unused(parts, router, b)
    ensures Unused(parts + DefaultPart(router, root), router, b)
  {
    hide Responsible;
  }

  lemma OnlyFour()
    ensures forall root :: Storable(root) <==> root == SPEC || root == DIR || root == USER || root == SYSTEM
  {
  }

  ghost predicate Unmounted(router: Router, b: Backend) {
    forall m | m in router.mounts :: router.mounts[m] != b
  }

  /** What is mounted at system/elektra does not matter for the namespaces themselves. */
  lemma RootsStay(router: Router, inFallback: bool, initBackend: Backend)
    ensures var later := DefaultMounts(router, inFallback, initBackend);
      forall root :: later.Of(Name(root, [])) == router.Of(Name(root, []))
    ensures router.Of(SYSTEM_ELEKTRA) == router.defaultBackend && Unmounted(router, router.defaultBackend) ==>
      router.Of(Name(SYSTEM, [])) == router.defaultBackend
  {
  }

  /** Which parts the default and the init backend have, whatever was mounted before. */
  lemma DefaultsAre(parts: seq<Part>, router: Router, inFallback: bool, initBackend: Backend, p: Part)
    requires Unused(parts, router, initBackend) && DefaultsIn(parts, router.defaultBackend, {})
    requires Unmounted(router, router.defaultBackend)
    requires p in parts + DefaultPart(router, SPEC) + DefaultPart(router, DIR) + DefaultPart(router, USER)
                  + SystemParts(router, inFallback, initBackend)
    ensures p.handle == initBackend ==>
      !inFallback && p == Part(initBackend, Name(SYSTEM, [ELEKTRA]), SPLIT_FLAG_CASCADING)
    ensures p.handle == router.defaultBackend ==> p.syncbits == SPLIT_FLAG_CASCADING
    ensures p.handle == router.defaultBackend ==>
      if p.parent == Name(SYSTEM, [ELEKTRA]) then inFallback
      else
        && p.parent.parts == [] && Storable(p.parent.root)
        && DefaultMounts(router, inFallback, initBackend).Of(p.parent) == router.defaultBackend
  {
    hide Responsible, Storable;
    OnlyFour();
    RootsStay(router, inFallback, initBackend);
    if p in parts {
      var i :| 0 <= i < |parts| && parts[i] == p;
    }
  }

  /** kdbOpen: every name that can be stored has exactly one part, which PartForName describes. */
  method Open(kdb: Kdb, backends: seq<Backend>, inFallback: bool, initBackend: Backend)
    requires kdb.Valid() && kdb.mounts == map[] && kdb.split == []
    requires forall i | 0 <= i < |backends| && backends[i].mountpoint.At? :: backends[i].mountpoint.name.Valid()
    requires forall i, j | 0 <= i < j < |backends| :: backends[i] != backends[j]
    requires forall i | 0 <= i < |backends| :: backends[i] !in kdb.Footprint()
    requires forall i | 0 <= i < |backends| :: backends[i] != kdb.defaultBackend && backends[i] != initBackend
    requires initBackend !in kdb.Footprint() && kdb.defaultBackend !in kdb.Footprint()
    requires initBackend != kdb.defaultBackend
    requires initBackend.mountpoint == kdb.defaultBackend.mountpoint == Default
    modifies kdb.Footprint(), backends, initBackend, kdb.defaultBackend
    ensures kdb.Valid() && fresh(kdb.Footprint() - old(kdb.Footprint()))
    ensures Orderly(kdb.split, RouterOf(kdb)) && forall root | Storable(root) :: Served(kdb.split, RouterOf(kdb), root)
    ensures forall root | Storable(root) && (root == SYSTEM ==> !inFallback) :: AtRoot(kdb.split, RouterOf(kdb), root)
    ensures kdb.mounts - {Name(SYSTEM, [ELEKTRA])} == AllMounted(backends) - {Name(SYSTEM, [ELEKTRA])}
    ensures !inFallback ==>
      && Name(SYSTEM, [ELEKTRA]) in kdb.mounts && kdb.mounts[Name(SYSTEM, [ELEKTRA])] == initBackend
      && Part(initBackend, Name(SYSTEM, [ELEKTRA]), 2) in kdb.split && initBackend.refcounter == 2
    ensures forall q | KeyOrder.Encloses(Name(SYSTEM, [ELEKTRA]), q) &&
      (forall m | m in kdb.mounts && KeyOrder.Encloses(m, q) :: KeyOrder.Encloses(m, Name(SYSTEM, [ELEKTRA]))) ::
      RouterOf(kdb).Of(q) == if inFallback then kdb.defaultBackend else initBackend
    ensures AllParts(backends) <= kdb.split
    ensures forall p | p in kdb.split && p.handle == initBackend :: !inFallback && p.parent == Name(SYSTEM, [ELEKTRA])
    ensures forall p | p in kdb.split && p.handle == kdb.defaultBackend ::
      if p.parent == Name(SYSTEM, [ELEKTRA]) then inFallback
      else p.parent.parts == [] && Storable(p.parent.root) && RouterOf(kdb).Of(p.parent) == kdb.defaultBackend
  {
    hide Kdb.Valid, Orderly, AtRoot, Served, Storable, DefaultPart, SystemParts, DefaultMounts, Unused;
    MountOpen(kdb, backends);
    ghost var parts, router := kdb.split, RouterOf(kdb);
    NotUsedYet(parts, router, initBackend, backends);
    MountDefault(kdb, inFallback, initBackend);
    DefaultsServeAll(parts, router, inFallback, initBackend);
    ElektraIsMounted(router, inFallback, initBackend);
    forall p | p in kdb.split
      ensures p.handle == initBackend ==> !inFallback && p.parent == Name(SYSTEM, [ELEKTRA])
      ensures p.handle == kdb.defaultBackend ==>
        if p.parent == Name(SYSTEM, [ELEKTRA]) then inFallback
        else p.parent.parts == [] && Storable(p.parent.root) && RouterOf(kdb).Of(p.parent) == kdb.defaultBackend
    {
      DefaultsAre(parts, router, inFallback, initBackend, p);
    }
  }
}
