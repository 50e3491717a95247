/** splitBuildup: the parts that are needed for the keys below a parent key (split.c). */
module Buildups {
  import opened Bytes
  import opened KeyNames
  import opened KeyOrder
  import opened Mounts
  import opened Postprocessing
  import opened Splits
  import opened Openings
  import opened KeySets
  import opened KdbGets
  import NamedKeys
  import Below

  /** The parent is inside this part, or the part is below the parent. */
  predicate Takes(router: Router, parent: Name, p: Part) {
    (router.Of(parent) == p.handle && Encloses(p.parent, parent)) || Encloses(parent, p.parent)
  }

  function Chosen(parts: seq<Part>, router: Router, parent: Name): seq<Part> {
    if parts == [] then []
    else
      var last := parts[|parts| - 1];
      Chosen(parts[..|parts| - 1], router, parent) + if Takes(router, parent, last) then [last] else []
  }

  /** A cascading parent stands for one in each namespace that is stored; no parent or "/" means everything. */
  function BuiltUp(parts: seq<Part>, router: Router, parent: Option<Name>): seq<Part> {
    if parent.None? || parent.value == Name([], []) then parts
    else if parent.value.root != [] then Chosen(parts, router, parent.value)
    else
      var ps := parent.value.parts;
      Chosen(parts, router, Name(SPEC, ps)) + Chosen(parts, router, Name(DIR, ps))
      + Chosen(parts, router, Name(USER, ps)) + Chosen(parts, router, Name(SYSTEM, ps))
  }

  /** The split has these parts, without keys. */
  ghost predicate Holds(split: Split, parts: seq<Part>)
    reads split
  {
    && split.Valid() && |split.keysets| == |parts|
    && forall i | 0 <= i < |parts| ::
         && split.keysets[i] == map[] && split.handles[i] == Some(parts[i].handle)
         && split.parents[i] == Some(parts[i].parent) && split.syncbits[i] == parts[i].syncbits
  }

  lemma ChosenNext(parts: seq<Part>, n: nat, router: Router, parent: Name)
    requires n < |parts|
    ensures Chosen(parts[..n + 1], router, parent) ==
      Chosen(parts[..n], router, parent) + if Takes(router, parent, parts[n]) then [parts[n]] else []
  {
    hide Takes;
    assert parts[..n + 1][..n] == parts[..n];
  }

  /** splitAppend with what was recorded when mounting. */
  method AppendRecorded(split: Split, p: Part, ghost was: seq<Part>)
    requires Holds(split, was)
    modifies split
    ensures Holds(split, was + [p])
  {
    var _ := split.Append(Some(p.handle), Some(p.parent), p.syncbits);
  }

  /** The loop for one parent with a namespace. */
  method BuildupBelow(split: Split, kdb: Kdb, parent: Name, ghost was: seq<Part>)
    requires kdb.Valid() && split as object !in kdb.Footprint() && Namespaced(parent) && ParentsValid(kdb.split)
    requires Holds(split, was)
    modifies split
    ensures Holds(split, was + Chosen(kdb.split, RouterOf(kdb), parent))
  {
    hide Kdb.Valid, Holds, Responsible, Encloses, Name.Valid, Below.DirectReadsInside, Name.Render, Below.KeyRel;
    ghost var router := RouterOf(kdb);
    var backend := kdb.GetBackend(Some(parent));
    assert backend == router.Of(parent);
    assert was + Chosen(kdb.split[..0], router, parent) == was;
    for i := 0 to |kdb.split|
      invariant kdb.Valid() && RouterOf(kdb) == router && kdb.split == old(kdb.split)
      invariant Holds(split, was + Chosen(kdb.split[..i], router, parent))
    {
      var p := kdb.split[i];
      Below.KeyRelIs(p.parent, parent);
      Below.KeyRelIs(parent, p.parent);
      ChosenNext(kdb.split, i, router, parent);
      if (backend == p.handle && Below.KeyRel(p.parent, parent) >= 0) || Below.KeyRel(parent, p.parent) >= 0 {
        ghost var before := was + Chosen(kdb.split[..i], router, parent);
        AppendRecorded(split, p, before);
        assert before + [p] == was + Chosen(kdb.split[..i + 1], router, parent);
      } else {
        assert Chosen(kdb.split[..i + 1], router, parent) == Chosen(kdb.split[..i], router, parent);
      }
    }
    assert kdb.split[..|kdb.split|] == kdb.split;
  }

  /** splitBuildup, for a new split. */
  method SplitBuildup(split: Split, kdb: Kdb, parentKey: Option<Name>)
    requires kdb.Valid() && split as object !in kdb.Footprint() && ParentsValid(kdb.split) && Holds(split, [])
    requires parentKey.Some? ==> parentKey.value.Valid()
    modifies split
    ensures Holds(split, BuiltUp(kdb.split, RouterOf(kdb), parentKey))
  {
    hide Kdb.Valid, Holds, Chosen, ParentsValid;
    if parentKey.None? || parentKey.value == Name([], []) {
      for i := 0 to |kdb.split|
        invariant kdb.Valid() && kdb.split == old(kdb.split) && Holds(split, kdb.split[..i])
      {
        AppendRecorded(split, kdb.split[i], kdb.split[..i]);
        assert kdb.split[..i] + [kdb.split[i]] == kdb.split[..i + 1];
      }
      assert kdb.split[..|kdb.split|] == kdb.split;
    } else if parentKey.value.root != [] {
      BuildupBelow(split, kdb, parentKey.value, []);
      assert [] + Chosen(kdb.split, RouterOf(kdb), parentKey.value) == Chosen(kdb.split, RouterOf(kdb), parentKey.value);
    } else {
      ghost var router := RouterOf(kdb);
      var ps := parentKey.value.parts;
      var namespaces := [SPEC, DIR, USER, SYSTEM];
      ghost var was := [];
      for k := 0 to 4
        invariant kdb.Valid() && kdb.split == old(kdb.split) && RouterOf(kdb) == router && Holds(split, was)
        invariant was == InNamespaces(kdb.split, router, ps, namespaces[..k])
      {
        BuildupBelow(split, kdb, Name(namespaces[k], ps), was);
        was := was + Chosen(kdb.split, router, Name(namespaces[k], ps));
        assert namespaces[..k + 1][..k] == namespaces[..k];
      }
      assert namespaces[..4] == namespaces;
      FourNamespaces(kdb.split, router, ps);
    }
  }

  /** The parts chosen for one namespace after the other. */
  function InNamespaces(parts: seq<Part>, router: Router, ps: seq<seq<byte>>, roots: seq<seq<byte>>): seq<Part> {
    if roots == [] then []
    else
      InNamespaces(parts, router, ps, roots[..|roots| - 1]) + Chosen(parts, router, Name(roots[|roots| - 1], ps))
  }

  lemma FourNamespaces(parts: seq<Part>, router: Router, ps: seq<seq<byte>>)
    requires ps != []
    ensures InNamespaces(parts, router, ps, [SPEC, DIR, USER, SYSTEM]) == BuiltUp(parts, router, Some(Name([], ps)))
  {
    hide Chosen;
    var roots := [SPEC, DIR, USER, SYSTEM];
    var spec, dir := Chosen(parts, router, Name(SPEC, ps)), Chosen(parts, router, Name(DIR, ps));
    assert roots[..3] == [SPEC, DIR, USER] && roots[..3][..2] == [SPEC, DIR];
    assert [SPEC, DIR][..1] == [SPEC] && [SPEC][..0] == [];
    assert InNamespaces(parts, router, ps, [SPEC]) == spec;
    assert InNamespaces(parts, router, ps, [SPEC, DIR]) == spec + dir;
    assert InNamespaces(parts, router, ps, [SPEC, DIR, USER]) == spec + dir + Chosen(parts, router, Name(USER, ps));
  }

  // ---------- what is chosen ----------

  /** Each part is chosen at most once: the positions in the parts that were recorded are different. */
  ghost predicate Picked(parts: seq<Part>, chosen: seq<Part>, at: seq<nat>) {
    && |at| == |chosen|
    && (forall k | 0 <= k < |at| :: at[k] < |parts| && chosen[k] == parts[at[k]])
    && forall k, l | 0 <= k < l < |at| :: at[k] != at[l]
  }

  /** So the chosen parts do not compete, and are reached straight, if all parts are like that. */
  lemma PickedKeeps(parts: seq<Part>, chosen: seq<Part>, at: seq<nat>, router: Router)
    requires Picked(parts, chosen, at) && LayoutOfParts(parts).Proper() && Straight(LayoutOfParts(parts), router)
    ensures LayoutOfParts(chosen).Proper() && Straight(LayoutOfParts(chosen), router)
  {
    hide Layout.Proper;
    var l, m := LayoutOfParts(parts), LayoutOfParts(chosen);
    ProperUnfold(l);
    ProperUnfold(m);
    forall i, j | 0 <= i < j < |chosen| && m.handles[i] == m.handles[j]
      ensures m.cascading[i] && m.cascading[j] && m.parents[i].value.root != m.parents[j].value.root
    {
      var x, y := at[i], at[j];
      assert l.handles[x] == l.handles[y];
      if x < y {
        assert l.parents[x].value.root != l.parents[y].value.root;
      } else {
        assert l.parents[y].value.root != l.parents[x].value.root;
      }
    }
    forall i | 0 <= i < |chosen| && !m.cascading[i]
      ensures OnlyUnder(router, chosen[i].handle, chosen[i].parent.root)
    {
      assert l.handles[at[i]] == Some(chosen[i].handle);
    }
  }

  lemma PickedNext(parts: seq<Part>, chosen: seq<Part>, at: seq<nat>)
    requires parts != [] && Picked(parts[..|parts| - 1], chosen, at)
    ensures Picked(parts, chosen, at)
    ensures Picked(parts, chosen + [parts[|parts| - 1]], at + [|parts| - 1])
  {
  }

  lemma PickedInside(parts: seq<Part>, chosen: seq<Part>, at: seq<nat>)
    requires Picked(parts, chosen, at)
    ensures |at| == |chosen| && forall k | 0 <= k < |at| :: at[k] < |parts|
  {
  }

  /** The positions of the parts that are taken. */
  ghost predicate TakenAt(parts: seq<Part>, router: Router, parent: Name, at: seq<nat>) {
    && (forall k | 0 <= k < |at| :: at[k] < |parts| && Takes(router, parent, parts[at[k]]))
    && forall i | 0 <= i < |parts| && Takes(router, parent, parts[i]) :: i in at
  }

  lemma TakenNext(parts: seq<Part>, router: Router, parent: Name, at: seq<nat>)
    requires parts != [] && TakenAt(parts[..|parts| - 1], router, parent, at)
    ensures var n := |parts| - 1;
      TakenAt(parts, router, parent, if Takes(router, parent, parts[n]) then at + [n] else at)
  {
    hide Takes;
    var n := |parts| - 1;
    var now := if Takes(router, parent, parts[n]) then at + [n] else at;
    forall i | 0 <= i < |parts| && Takes(router, parent, parts[i])
      ensures i in now
    {
      if i < n {
        assert parts[..n][i] == parts[i];
      } else {
        assert now[|at|] == n;
      }
    }
  }

  /** The positions chosen for one parent: exactly the taken ones, in the order of the parts. */
  lemma {:induction false} ChosenAt(parts: seq<Part>, router: Router, parent: Name) returns (at: seq<nat>)
    ensures Picked(parts, Chosen(parts, router, parent), at) && TakenAt(parts, router, parent, at)
    ensures forall k, l | 0 <= k < l < |at| :: at[k] < at[l]
  {
    hide Takes;
    if parts == [] {
      at := [];
    } else {
      hide Picked, TakenAt;
      var n := |parts| - 1;
      var before := ChosenAt(parts[..n], router, parent);
      PickedNext(parts, Chosen(parts[..n], router, parent), before);
      TakenNext(parts, router, parent, before);
      PickedInside(parts[..n], Chosen(parts[..n], router, parent), before);
      at := if Takes(router, parent, parts[n]) then before + [n] else before;
      assert Chosen(parts[..n], router, parent) + [] == Chosen(parts[..n], router, parent);
    }
  }

  /** Positions of parts in these namespaces only. */
  ghost predicate PositionsIn(parts: seq<Part>, at: seq<nat>, roots: seq<seq<byte>>) {
    forall k | 0 <= k < |at| :: at[k] < |parts| && parts[at[k]].parent.root in roots
  }

  lemma PickedBoth(parts: seq<Part>, c: seq<Part>, a: seq<nat>, d: seq<Part>, b: seq<nat>,
                   roots: seq<seq<byte>>, root: seq<byte>)
    requires Picked(parts, c, a) && Picked(parts, d, b) && root !in roots
    requires PositionsIn(parts, a, roots) && PositionsIn(parts, b, [root])
    ensures Picked(parts, c + d, a + b) && PositionsIn(parts, a + b, roots + [root])
  {
  }

  lemma TakenIsInside(parts: seq<Part>, router: Router, parent: Name, at: seq<nat>)
    requires TakenAt(parts, router, parent, at)
    ensures PositionsIn(parts, at, [parent.root])
  {
    hide Responsible;
  }

  /** Every part that one of the parents takes. */
  ghost predicate AllTaken(parts: seq<Part>, router: Router, ps: seq<seq<byte>>, roots: seq<seq<byte>>, at: seq<nat>) {
    forall root, i | root in roots && 0 <= i < |parts| && Takes(router, Name(root, ps), parts[i]) :: i in at
  }

  lemma AllTakenBoth(parts: seq<Part>, router: Router, ps: seq<seq<byte>>, roots: seq<seq<byte>>, a: seq<nat>,
                     root: seq<byte>, b: seq<nat>)
    requires AllTaken(parts, router, ps, roots, a) && TakenAt(parts, router, Name(root, ps), b)
    ensures AllTaken(parts, router, ps, roots + [root], a + b)
  {
    hide Takes;
  }

  /** Positions chosen for parents in different namespaces are different. */
  lemma {:induction false} InNamespacesAt(parts: seq<Part>, router: Router, ps: seq<seq<byte>>, roots: seq<seq<byte>>)
    returns (at: seq<nat>)
    requires forall i, j | 0 <= i < j < |roots| :: roots[i] != roots[j]
    ensures Picked(parts, InNamespaces(parts, router, ps, roots), at) && PositionsIn(parts, at, roots)
    ensures AllTaken(parts, router, ps, roots, at)
  {
    hide Chosen;
    if roots == [] {
      at := [];
    } else {
      hide Picked, PositionsIn, AllTaken, TakenAt;
      var n := |roots| - 1;
      var before := InNamespacesAt(parts, router, ps, roots[..n]);
      var here := ChosenAt(parts, router, Name(roots[n], ps));
      at := before + here;
      TakenIsInside(parts, router, Name(roots[n], ps), here);
      PickedBoth(parts, InNamespaces(parts, router, ps, roots[..n]), before,
                 Chosen(parts, router, Name(roots[n], ps)), here, roots[..n], roots[n]);
      AllTakenBoth(parts, router, ps, roots[..n], before, roots[n], here);
      assert roots[..n] + [roots[n]] == roots;
    }
  }

  /** The names a caller asks for with a parent key. */
  predicate Asks(parent: Option<Name>, n: Name) {
    || parent.None? || parent.value == Name([], [])
    || Encloses(parent.value, n) || (parent.value.root == [] && parent.value.parts <= n.parts)
  }

  /** The parent inside one namespace. */
  function InNamespace(parent: Option<Name>, root: seq<byte>): Name {
    if parent.None? then Name(root, []) else Name(root, parent.value.parts)
  }

  /** Whatever the parent, each part is there once, and so is every part that the parent takes. */
  lemma BuiltUpAt(parts: seq<Part>, router: Router, parent: Option<Name>, n: Name) returns (at: seq<nat>)
    ensures Picked(parts, BuiltUp(parts, router, parent), at)
    ensures Storable(n.root) && Asks(parent, n) ==>
      forall i | 0 <= i < |parts| && Takes(router, InNamespace(parent, n.root), parts[i]) :: i in at
  {
    hide Chosen, Takes;
    if parent.None? || parent.value == Name([], []) {
      at := seq(|parts|, i requires 0 <= i < |parts| => i);
      assert forall i | 0 <= i < |parts| :: at[i] == i;
    } else if parent.value.root != [] {
      at := ChosenAt(parts, router, parent.value);
      assert Asks(parent, n) ==> InNamespace(parent, n.root) == parent.value;
    } else {
      var roots := [SPEC, DIR, USER, SYSTEM];
      at := InNamespacesAt(parts, router, parent.value.parts, roots);
      FourNamespaces(parts, router, parent.value.parts);
      assert Storable(n.root) ==> n.root in roots;
    }
  }

  // ---------- every key below the parent has its part ----------

  /** On the way from a name up to its nearest mountpoint nothing changes. */
  lemma {:induction false} NearestOnTheWay<B>(mounts: map<Name, B>, q: Name, a: Name) returns (m: Name)
    requires Encloses(a, q)
    ensures Nearest(mounts, q).None? ==> Nearest(mounts, a).None?
    ensures Nearest(mounts, q).Some? ==>
      && m in mounts && Encloses(m, q) && Some(mounts[m]) == Nearest(mounts, q)
      && (|m.parts| <= |a.parts| ==> Nearest(mounts, a) == Nearest(mounts, q))
    decreases |q.parts|
  {
    m := q;
    if q !in mounts && q.parts != [] {
      var up := NamedKeys.Up(q);
      if a == q {
        m := NearestOnTheWay(mounts, up, up);
      } else {
        assert Encloses(a, up);
        m := NearestOnTheWay(mounts, up, a);
      }
    } else if a != q {
      assert |a.parts| < |q.parts|;
    }
  }

  /** The part of a key below the parent is one that the parent takes. */
  lemma PartOnTheWay(parts: seq<Part>, router: Router, parent: Name, n: Name) returns (i: nat)
    requires Orderly(parts, router) && AtRoot(parts, router, n.root) && Encloses(parent, n)
    ensures i < |parts| && parts[i].handle == router.Of(n) && parts[i].parent.root == n.root
    ensures Takes(router, parent, parts[i])
  {
    hide Layout.Proper, Straight, Responsible;
    var m := NearestOnTheWay(router.mounts, n, parent);
    BackendOf(router, n);
    BackendOf(router, parent);
    if Nearest(router.mounts, n).None? {
      NothingAbove(router.mounts, n);
      BackendOf(router, Name(n.root, []));
      m := Name(n.root, []);
    }
    assert Recorded(parts, router.Of(n), m);
    i :| 0 <= i < |parts| && parts[i].handle == router.Of(n) && parts[i].parent == m;
    if |m.parts| <= |parent.parts| {
      assert Encloses(m, parent);
    } else {
      assert Encloses(parent, m);
    }
  }

  /** The parts that splitBuildup takes do not compete, and are reached straight. */
  lemma BuiltUpKeeps(parts: seq<Part>, router: Router, parent: Option<Name>)
    requires Orderly(parts, router)
    ensures LayoutOfParts(BuiltUp(parts, router, parent)).Proper()
    ensures Straight(LayoutOfParts(BuiltUp(parts, router, parent)), router)
  {
    hide Layout.Proper, Straight, BuiltUp, Takes;
    var at := BuiltUpAt(parts, router, parent, Name([], []));
    PickedKeeps(parts, BuiltUp(parts, router, parent), at, router);
  }

  /** splitBuildup leaves no key out that the caller asks for. */
  lemma BuiltUpCovers(parts: seq<Part>, router: Router, parent: Option<Name>, n: Name)
    requires Orderly(parts, router) && AtRoot(parts, router, n.root) && Storable(n.root) && Asks(parent, n)
    ensures var layout := LayoutOfParts(BuiltUp(parts, router, parent)); var t := Target(layout, router, n);
      t >= 0 && layout.handles[t] == Some(router.Of(n))
  {
    hide Layout.Proper, Straight, Responsible, BuiltUp, AtRoot, Takes, Storable;
    var chosen := BuiltUp(parts, router, parent);
    var layout := LayoutOfParts(chosen);
    var at := BuiltUpAt(parts, router, parent, n);
    BuiltUpKeeps(parts, router, parent);
    EnclosesInside(parent, n);
    var i := PartOnTheWay(parts, router, InNamespace(parent, n.root), n);
    var k :| 0 <= k < |at| && at[k] == i;
    layout.SearchFindsTheFit(k, router.Of(n), n.root);
  }

  /** For any parent with a namespace: a name has its part among the chosen ones if and only if the parent takes it. */
  lemma CoversExactlyIf(parts: seq<Part>, router: Router, parent: Name, n: Name)
    requires Orderly(parts, router) && Served(parts, router, n.root) && Storable(n.root) && parent.root != []
    ensures var i := Target(LayoutOfParts(parts), router, n); var chosen := BuiltUp(parts, router, Some(parent));
      0 <= i < |parts| && (Target(LayoutOfParts(chosen), router, n) >= 0 <==> Takes(router, parent, parts[i]))
  {
    hide Layout.Proper, Straight, Responsible, Served, Takes, Storable, Orderly, Chosen;
    var chosen := Chosen(parts, router, parent);
    var all, layout := LayoutOfParts(parts), LayoutOfParts(chosen);
    var i, t := Target(all, router, n), Target(layout, router, n);
    PartForName(parts, router, n);
    TargetIs(all, router, n);
    TargetIs(layout, router, n);
    OrderlyProper(parts, router);
    BuiltUpKeeps(parts, router, Some(parent));
    var at := ChosenAt(parts, router, parent);
    all.SearchIsFirstFit(0, router.Of(n), n.root);
    layout.SearchIsFirstFit(0, router.Of(n), n.root);
    if t >= 0 {
      all.SearchFindsTheFit(at[t], router.Of(n), n.root);
    }
    if Takes(router, parent, parts[i]) {
      assert i in at;
      var k :| 0 <= k < |at| && at[k] == i;
      layout.SearchFindsTheFit(k, router.Of(n), n.root);
    }
  }

  lemma OrderlyProper(parts: seq<Part>, router: Router)
    requires Orderly(parts, router)
    ensures LayoutOfParts(parts).Proper()
  {
  }

  /** In the fallback system may be kept by the part for system/elektra: asked for system/x, it is missed. */
  lemma FallbackMisses(parts: seq<Part>, router: Router, i: nat, x: seq<byte>)
    requires Orderly(parts, router) && i < |parts| && x != ELEKTRA
    requires parts[i] == Part(router.defaultBackend, SYSTEM_ELEKTRA, SPLIT_FLAG_CASCADING)
    requires router.Of(Name(SYSTEM, [x])) == router.defaultBackend
    ensures var n := Name(SYSTEM, [x]); Target(LayoutOfParts(BuiltUp(parts, router, Some(n))), router, n) == -1
  {
    hide Layout.Proper, Straight, Responsible, Takes, Orderly, Served;
    var n := Name(SYSTEM, [x]);
    var all := LayoutOfParts(parts);
    OrderlyProper(parts, router);
    all.SearchFindsTheFit(i, router.Of(n), SYSTEM);
    ServedBy(parts, router, i);
    CoversExactlyIf(parts, router, n, n);
    NotTaken(router, x, parts[i]);
    TargetIs(LayoutOfParts(BuiltUp(parts, router, Some(n))), router, n);
  }

  lemma ServedBy(parts: seq<Part>, router: Router, i: nat)
    requires i < |parts| && parts[i].handle == router.defaultBackend
    ensures Served(parts, router, parts[i].parent.root)
  {
    hide Responsible;
  }

  lemma NotTaken(router: Router, x: seq<byte>, p: Part)
    requires x != ELEKTRA && p.parent == SYSTEM_ELEKTRA
    ensures !Takes(router, Name(SYSTEM, [x]), p)
  {
    hide Responsible;
    assert [x][0] != [ELEKTRA][0];
  }

  lemma EnclosesInside(parent: Option<Name>, n: Name)
    requires Asks(parent, n)
    ensures Encloses(InNamespace(parent, n.root), n)
  {
  }

  // ---------- no part is selected that is not concerned ----------

  /** The parent of this part's namespace is at or above the part, or this is the one part the parent itself belongs to. */
  ghost predicate Concerned(parts: seq<Part>, router: Router, parent: Option<Name>, i: nat)
    requires i < |parts|
  {
    || parent.None? || parent.value == Name([], [])
    || var n := if parent.value.root != [] then parent.value else Name(parts[i].parent.root, parent.value.parts);
       Storable(n.root) && (Encloses(n, parts[i].parent) || i == Target(LayoutOfParts(parts), router, n))
  }

  lemma InChosen(parts: seq<Part>, router: Router, parent: Name, i: nat)
    requires i < |parts|
    ensures parts[i] in Chosen(parts, router, parent) <==> Takes(router, parent, parts[i])
  {
    hide Takes;
    var at := ChosenAt(parts, router, parent);
    if Takes(router, parent, parts[i]) {
      var k :| 0 <= k < |at| && at[k] == i;
    }
    if parts[i] in Chosen(parts, router, parent) {
      var k :| 0 <= k < |at| && Chosen(parts, router, parent)[k] == parts[i];
    }
  }

  /** Taken are the parts below the parent and the one that the parent belongs to. */
  lemma TakesExactly(parts: seq<Part>, router: Router, parent: Name, i: nat)
    requires Orderly(parts, router) && i < |parts| && Storable(parent.root)
    ensures Takes(router, parent, parts[i]) ==>
      Encloses(parent, parts[i].parent) || i == Target(LayoutOfParts(parts), router, parent)
    ensures Encloses(parent, parts[i].parent) ==> Takes(router, parent, parts[i])
    ensures AtRoot(parts, router, parent.root) && i == Target(LayoutOfParts(parts), router, parent) ==>
      Takes(router, parent, parts[i])
  {
    hide Layout.Proper, Straight, Responsible, Orderly, Storable, AtRoot;
    var layout := LayoutOfParts(parts);
    OrderlyProper(parts, router);
    if Takes(router, parent, parts[i]) && !Encloses(parent, parts[i].parent) {
      layout.SearchFindsTheFit(i, router.Of(parent), parent.root);
    }
    if AtRoot(parts, router, parent.root) && i == Target(layout, router, parent) {
      var j := PartOnTheWay(parts, router, parent, parent);
      layout.SearchFindsTheFit(j, router.Of(parent), parent.root);
    }
  }

  /** Only concerned parts are selected, and where the default backend has the whole namespace, all of them. */
  lemma BuiltUpExactly(parts: seq<Part>, router: Router, parent: Option<Name>, i: nat)
    requires Orderly(parts, router) && i < |parts| && StoredParent(parent)
    ensures parts[i] in BuiltUp(parts, router, parent) ==> Concerned(parts, router, parent, i)
    ensures (Storable(parts[i].parent.root) ==> AtRoot(parts, router, parts[i].parent.root)) ==>
      Concerned(parts, router, parent, i) ==> parts[i] in BuiltUp(parts, router, parent)
  {
    hide Takes, Orderly, AtRoot, Chosen, Storable, Target;
    if parent.Some? && parent.value != Name([], []) {
      if parent.value.root != [] {
        InChosen(parts, router, parent.value, i);
        TakesExactly(parts, router, parent.value, i);
        if i == Target(LayoutOfParts(parts), router, parent.value) {
          TargetHasRoot(parts, router, parent.value, i);
        }
      } else {
        var root, ps := parts[i].parent.root, parent.value.parts;
        var n := Name(root, ps);
        InOneNamespace(parts, router, ps, i);
        if Storable(root) {
          InChosen(parts, router, n, i);
          TakesExactly(parts, router, n, i);
        }
      }
    }
  }

  /** No namespace is only half the default backend's: always so unless the fallback mounts it at system/elektra. */
  ghost predicate AllAtRoot(parts: seq<Part>, router: Router) {
    forall root | Storable(root) :: AtRoot(parts, router, root)
  }

  /** A parent key in no stored namespace has nothing to do with the backends. */
  predicate StoredParent(parent: Option<Name>) {
    parent.None? || parent.value.root == [] || Storable(parent.value.root)
  }

  /** The part a name belongs to is in its namespace. */
  lemma TargetHasRoot(parts: seq<Part>, router: Router, n: Name, i: nat)
    requires Orderly(parts, router) && i < |parts| && i == Target(LayoutOfParts(parts), router, n)
    ensures parts[i].parent.root == n.root
  {
    hide Layout.Proper, Responsible, OnlyUnder;
    var layout := LayoutOfParts(parts);
    layout.SearchIsFirstFit(0, router.Of(n), n.root);
    if !layout.cascading[i] {
      StraightReach(router, parts[i].handle, parts[i].parent.root, n);
    }
  }

  /** Of the four parents that a cascading one stands for, only that of the part's own namespace can take it. */
  lemma InOneNamespace(parts: seq<Part>, router: Router, ps: seq<seq<byte>>, i: nat)
    requires i < |parts| && ps != []
    ensures var root := parts[i].parent.root;
      parts[i] in BuiltUp(parts, router, Some(Name([], ps))) <==>
        Storable(root) && parts[i] in Chosen(parts, router, Name(root, ps))
  {
    hide Chosen, Responsible;
    InChosen(parts, router, Name(SPEC, ps), i);
    InChosen(parts, router, Name(DIR, ps), i);
    InChosen(parts, router, Name(USER, ps), i);
    InChosen(parts, router, Name(SYSTEM, ps), i);
  }

  // ---------- from kdbOpen to kdbGet ----------

  lemma LayoutHeld(split: Split, parts: seq<Part>)
    requires Holds(split, parts)
    ensures split.Complete() && split.LayoutOf() == LayoutOfParts(parts) && |split.keysets| == |parts|
    ensures forall i | 0 <= i < |parts| :: split.keysets[i] == map[]
    ensures forall i | 0 <= i < |parts| ::
      split.handles[i] == Some(parts[i].handle) && split.parents[i] == Some(parts[i].parent)
  {
  }

  /** A key comes from the part it belongs to, if this part is concerned and its backend has news, and stays otherwise. */
  ghost predicate Returned(id: Ident, recorded: seq<Part>, router: Router, parent: Option<Name>, answer: Part -> Source,
                           contents: map<Ident, Key>, now: map<Ident, Key>) {
    var i := Target(LayoutOfParts(recorded), router, id.name);
    && 0 <= i < |recorded| && recorded[i].handle == router.Of(id.name)
    && var source := answer(recorded[i]);
       var read := Concerned(recorded, router, parent, i) && source.resolver == Some(1) && source.keys.Some?;
       var keys := if read then source.keys.value else contents;
       (id in now <==> id in keys) && (id in now ==> now[id] == keys[id])
  }

  /** A name has its part among the chosen ones exactly if the part was chosen. */
  lemma TargetOfPicked(parts: seq<Part>, chosen: seq<Part>, at: seq<nat>, router: Router, n: Name, i: nat)
    requires Picked(parts, chosen, at) && LayoutOfParts(parts).Proper() && Straight(LayoutOfParts(parts), router)
    requires i == Target(LayoutOfParts(parts), router, n)
    ensures var t := Target(LayoutOfParts(chosen), router, n);
      i < |parts| && (0 <= t < |chosen| ==> chosen[t] == parts[i]) && (parts[i] in chosen ==> 0 <= t < |chosen|)
  {
    hide Layout.Proper, Straight, Responsible;
    var all, layout := LayoutOfParts(parts), LayoutOfParts(chosen);
    PickedKeeps(parts, chosen, at, router);
    TargetIs(all, router, n);
    TargetIs(layout, router, n);
    all.SearchIsFirstFit(0, router.Of(n), n.root);
    layout.SearchIsFirstFit(0, router.Of(n), n.root);
    var t := Target(layout, router, n);
    if t >= 0 {
      all.SearchFindsTheFit(at[t], router.Of(n), n.root);
    }
    if k :| 0 <= k < |chosen| && chosen[k] == parts[i] {
      layout.SearchFindsTheFit(k, router.Of(n), n.root);
    }
  }

  lemma ReturnedOf(id: Ident, recorded: seq<Part>, parts: seq<Part>, router: Router, parent: Option<Name>,
                   answer: Part -> Source, sources: seq<Source>, contents: map<Ident, Key>, now: map<Ident, Key>)
    requires Orderly(recorded, router) && AtRoot(recorded, router, id.name.root) && Storable(id.name.root)
    requires StoredParent(parent) && parts == BuiltUp(recorded, router, parent) && |sources| == |parts|
    requires forall i | 0 <= i < |parts| :: sources[i] == answer(parts[i])
    requires Got(id, contents, now, LayoutOfParts(parts), router, sources)
    ensures Returned(id, recorded, router, parent, answer, contents, now)
  {
    hide Orderly, AtRoot, Served, Storable, BuiltUp, Target, Responsible, Layout.Proper, Straight, Concerned, Picked;
    var n := id.name;
    AtRootServes(recorded, router, n.root);
    PartForName(recorded, router, n);
    TargetIs(LayoutOfParts(recorded), router, n);
    TargetIs(LayoutOfParts(parts), router, n);
    OrderlyProper(recorded, router);
    OrderlyStraight(recorded, router);
    var i := Target(LayoutOfParts(recorded), router, n);
    var at := BuiltUpAt(recorded, router, parent, n);
    TargetOfPicked(recorded, parts, at, router, n, i);
    TargetHasRoot(recorded, router, n, i);
    BuiltUpExactly(recorded, router, parent, i);
    var t := Target(LayoutOfParts(parts), router, n);
    if t >= 0 {
      assert parts[t] in parts;
    }
  }

  lemma OrderlyStraight(parts: seq<Part>, router: Router)
    requires Orderly(parts, router)
    ensures Straight(LayoutOfParts(parts), router)
  {
  }

  method AskAll(split: Split, answer: Part -> Source, ghost parts: seq<Part>) returns (sources: seq<Source>)
    requires Holds(split, parts)
    ensures |sources| == |parts| && forall i | 0 <= i < |parts| :: sources[i] == answer(parts[i])
  {
    sources := [];
    for i := 0 to |split.keysets|
      invariant |sources| == i && forall j | 0 <= j < i :: sources[j] == answer(parts[j])
    {
      assert parts[i] == Part(split.handles[i].value, split.parents[i].value, split.syncbits[i]);
      sources := sources + [answer(Part(split.handles[i].value, split.parents[i].value, split.syncbits[i]))];
    }
  }

  lemma SourcesRead(parts: seq<Part>, recorded: seq<Part>, answer: Part -> Source, sources: seq<Source>)
    requires |sources| == |parts| && forall i | 0 <= i < |parts| :: sources[i] == answer(parts[i])
    requires forall p | p in parts :: p in recorded
    requires forall p | p in recorded && answer(p).keys.Some? :: NamesValid(answer(p).keys.value)
    ensures forall i | 0 <= i < |sources| && sources[i].keys.Some? :: NamesValid(sources[i].keys.value)
    ensures (forall i | 0 <= i < |sources| :: sources[i].resolver == Some(0)) <==>
      forall p | p in parts :: answer(p).resolver == Some(0)
  {
    hide NamesValid;
    forall i | 0 <= i < |sources|
      ensures parts[i] in recorded
    {
      assert parts[i] in parts;
    }
    assert forall i | 0 <= i < |parts| :: answer(parts[i]) == sources[i];
  }

  /** If all concerned parts have a property, the selected ones have it, and the other way where none is missed. */
  lemma ConcernedAndSelected(recorded: seq<Part>, router: Router, parent: Option<Name>, good: Part -> bool)
    requires Orderly(recorded, router) && StoredParent(parent)
    ensures (forall i | 0 <= i < |recorded| && Concerned(recorded, router, parent, i) :: good(recorded[i])) ==>
      forall p | p in BuiltUp(recorded, router, parent) :: good(p)
    ensures AllAtRoot(recorded, router) && (forall p | p in BuiltUp(recorded, router, parent) :: good(p)) ==>
      forall i | 0 <= i < |recorded| && Concerned(recorded, router, parent, i) :: good(recorded[i])
  {
    hide Orderly, AtRoot, Storable, BuiltUp, Concerned;
    FromRecorded(recorded, router, parent);
    forall i | 0 <= i < |recorded|
      ensures recorded[i] in BuiltUp(recorded, router, parent) ==> Concerned(recorded, router, parent, i)
      ensures AllAtRoot(recorded, router) && Concerned(recorded, router, parent, i) ==>
        recorded[i] in BuiltUp(recorded, router, parent)
    {
      BuiltUpExactly(recorded, router, parent, i);
    }
    forall p | p in BuiltUp(recorded, router, parent)
      ensures exists i :: 0 <= i < |recorded| && recorded[i] == p
    {
      var i :| 0 <= i < |recorded| && recorded[i] == p;
    }
  }

  /** No error: the resolver answers, and what it says is new can be read. */
  predicate Healthy(source: Source) {
    source.resolver == Some(0) || (source.resolver == Some(1) && source.keys.Some?)
  }

  lemma HealthyAll(parts: seq<Part>, answer: Part -> Source, sources: seq<Source>)
    requires |sources| == |parts| && forall i | 0 <= i < |parts| :: sources[i] == answer(parts[i])
    ensures (forall p | p in parts :: Healthy(answer(p))) <==>
      && (forall i | 0 <= i < |sources| :: sources[i].resolver == Some(0) || sources[i].resolver == Some(1))
      && forall i | 0 <= i < |sources| && sources[i].resolver == Some(1) :: sources[i].keys.Some?
    ensures (forall p | p in parts :: answer(p).resolver == Some(0)) <==>
      forall i | 0 <= i < |sources| :: sources[i].resolver == Some(0)
  {
    forall i | 0 <= i < |parts|
      ensures sources[i] == answer(parts[i]) && parts[i] in parts
    {
    }
  }

  /** A new split with the selected parts, and what their backends answer. */
  method Select(handle: Kdb, parentKey: Option<Name>, answer: Part -> Source) returns (split: Split, sources: seq<Source>)
    requires handle.Valid() && ParentsValid(handle.split) && (parentKey.Some? ==> parentKey.value.Valid())
    ensures fresh(split) && split.Complete()
    ensures forall b | b in split.Backends() :: exists p :: p in handle.split && p.handle == b
    ensures var parts := BuiltUp(handle.split, RouterOf(handle), parentKey);
      && split.LayoutOf() == LayoutOfParts(parts) && |sources| == |split.keysets| == |parts|
      && (forall i | 0 <= i < |parts| :: split.keysets[i] == map[])
      && forall i | 0 <= i < |parts| :: sources[i] == answer(parts[i])
  {
    hide Kdb.Valid, BuiltUp, ParentsValid;
    ghost var parts := BuiltUp(handle.split, RouterOf(handle), parentKey);
    split := new Split();
    SplitBuildup(split, handle, parentKey);
    LayoutHeld(split, parts);
    FromRecorded(handle.split, RouterOf(handle), parentKey);
    sources := AskAll(split, answer, parts);
    forall b | b in split.Backends()
      ensures exists p :: p in handle.split && p.handle == b
    {
      var i :| 0 <= i < |parts| && split.handles[i] == Some(b);
      assert parts[i] in parts;
    }
  }

  /** splitBuildup and then kdbGet. */
  method GetSelected(handle: Kdb, parentKey: Option<Name>, keys: seq<Key>, contents: map<Ident, Key>, needSync: set<Key>,
                     answer: Part -> Source)
    returns (ret: int, now: map<Ident, Key>)
    requires handle.Valid() && (parentKey.Some? ==> parentKey.value.Valid())
    requires Orderly(handle.split, RouterOf(handle))
    requires AllNamed(keys) && Represents(keys, contents)
    requires forall p | p in handle.split && answer(p).keys.Some? :: NamesValid(answer(p).keys.value)
    modifies set p | p in handle.split :: p.handle
    ensures -1 <= ret <= 1 && (ret != 1 ==> now == contents)
    ensures var parts := BuiltUp(old(handle.split), old(RouterOf(handle)), parentKey);
      && (ret != -1 <==> forall p | p in parts :: Healthy(answer(p)))
      && (ret == 0 <==> forall p | p in parts :: answer(p).resolver == Some(0))
    ensures ret == 1 && StoredParent(parentKey) ==>
      var recorded, router := old(handle.split), old(RouterOf(handle));
      forall id: Ident | Storable(id.name.root) && AtRoot(recorded, router, id.name.root) ::
        Returned(id, recorded, router, parentKey, answer, contents, now)
  {
    hide Kdb.Valid, Orderly, AtRoot, BuiltUp, Storable, Returned, ParentsValid, Represents, AllNamed, Got;
    hide Layout.Proper, Straight, Healthy, StoredParent;
    hide LayoutOfParts, NamesValid, Remembers, Belonging, Target;
    ghost var recorded, router := handle.split, RouterOf(handle);
    OrderlyParents(recorded, router);
    ghost var parts := BuiltUp(recorded, router, parentKey);
    var split, sources := Select(handle, parentKey, answer);
    BuiltUpKeeps(recorded, router, parentKey);
    FromRecorded(recorded, router, parentKey);
    SourcesRead(parts, recorded, answer, sources);
    HealthyAll(parts, answer, sources);
    var still;
    ret, now, still := KdbGet(handle, split, keys, contents, needSync, sources);
    if ret == 1 && StoredParent(parentKey) {
      forall id: Ident | Storable(id.name.root) && AtRoot(recorded, router, id.name.root)
        ensures Returned(id, recorded, router, parentKey, answer, contents, now)
      {
        ReturnedOf(id, recorded, parts, router, parentKey, answer, sources, contents, now);
      }
    }
  }

  /**
    kdbGet with the parts that kdbOpen recorded, for any parent key in a stored namespace, cascading or none:
    only concerned parts are asked, and no key is missed.
   */
  method GetBelow(handle: Kdb, parentKey: Option<Name>, keys: seq<Key>, contents: map<Ident, Key>, needSync: set<Key>,
                  answer: Part -> Source)
    returns (ret: int, now: map<Ident, Key>)
    requires handle.Valid() && (parentKey.Some? ==> parentKey.value.Valid())
    requires Orderly(handle.split, RouterOf(handle))
    requires AllNamed(keys) && Represents(keys, contents)
    requires forall p | p in handle.split && answer(p).keys.Some? :: NamesValid(answer(p).keys.value)
    modifies set p | p in handle.split :: p.handle
    ensures -1 <= ret <= 1 && (ret != 1 ==> now == contents)
    ensures var parts := BuiltUp(old(handle.split), old(RouterOf(handle)), parentKey);
      ret == 0 <==> forall p | p in parts :: answer(p).resolver == Some(0)
    ensures StoredParent(parentKey) ==>
      var recorded, router := old(handle.split), old(RouterOf(handle));
      var healthy := forall i | 0 <= i < |recorded| && Concerned(recorded, router, parentKey, i) ::
        Healthy(answer(recorded[i]));
      var idle := forall i | 0 <= i < |recorded| && Concerned(recorded, router, parentKey, i) ::
        answer(recorded[i]).resolver == Some(0);
      && (healthy ==> ret != -1) && (idle ==> ret == 0)
      && (AllAtRoot(recorded, router) ==> (healthy <==> ret != -1) && (idle <==> ret == 0))
      && (ret == 1 ==> forall id: Ident | Storable(id.name.root) && AtRoot(recorded, router, id.name.root) ::
            Returned(id, recorded, router, parentKey, answer, contents, now))
  {
    hide Kdb.Valid, Orderly, AtRoot, BuiltUp, Storable, Returned, Represents, AllNamed, Concerned, Healthy, StoredParent;
    ghost var recorded, router := handle.split, RouterOf(handle);
    if StoredParent(parentKey) {
      ConcernedAndSelected(recorded, router, parentKey, p => Healthy(answer(p)));
      ConcernedAndSelected(recorded, router, parentKey, p => answer(p).resolver == Some(0));
    }
    ret, now := GetSelected(handle, parentKey, keys, contents, needSync, answer);
  }

  lemma FromRecorded(parts: seq<Part>, router: Router, parent: Option<Name>)
    ensures forall p | p in BuiltUp(parts, router, parent) :: p in parts
  {
    hide BuiltUp, Takes;
    var at := BuiltUpAt(parts, router, parent, Name([], []));
  }
}
