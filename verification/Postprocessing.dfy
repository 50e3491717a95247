/** Dropping keys that do not belong to a part, while iterating over its keyset (split.c). */
module Postprocessing {
  import opened Bytes
  import opened KeyNames
  import opened KeyOrder
  import opened KeySets
  import opened Mounts

  /** Namespaces that can be stored in a backend. */
  predicate Storable(root: seq<byte>) {
    root == SPEC || root == DIR || root == USER || root == SYSTEM
  }

  /** The backend every name belongs to. */
  datatype Router = Router(mounts: map<Name, Backend>, defaultBackend: Backend) {
    function Of(n: Name): Backend {
      Responsible(mounts, defaultBackend, Some(n))
    }
  }

  ghost function RouterOf(handle: Kdb): Router
    reads handle
  {
    Router(handle.mounts, handle.defaultBackend)
  }

  /** A key stays in a part of its own backend and its own namespace. */
  predicate Belongs(n: Name, router: Router, own: Backend, parent: Name) {
    router.Of(n) == own && Storable(n.root) && n.root == parent.root
  }

  /** The keys that stay, in their order. */
  function Kept(keys: seq<Key>, router: Router, own: Backend, parent: Name): seq<Key> {
    if keys == [] then []
    else
      var last := keys[|keys| - 1];
      Kept(keys[..|keys| - 1], router, own, parent) + if Belongs(last.id.name, router, own, parent) then [last] else []
  }

  lemma KeptNext(keys: seq<Key>, n: nat, router: Router, own: Backend, parent: Name)
    requires n < |keys|
    ensures Kept(keys[..n + 1], router, own, parent) ==
      Kept(keys[..n], router, own, parent) + if Belongs(keys[n].id.name, router, own, parent) then [keys[n]] else []
  {
    assert keys[..n + 1][..n] == keys[..n];
  }

  /** Nothing else than the keys that belong, and all of them. */
  lemma {:induction false} KeptAre(keys: seq<Key>, router: Router, own: Backend, parent: Name)
    ensures forall k :: k in Kept(keys, router, own, parent) <==> k in keys && Belongs(k.id.name, router, own, parent)
  {
    if keys != [] {
      KeptAre(keys[..|keys| - 1], router, own, parent);
      assert keys == keys[..|keys| - 1] + [keys[|keys| - 1]];
    }
  }

  /** elektraDropCurrentKey, without the warning: afterwards ksNext goes on with the key that moved up. */
  method DropCurrentKey(ks: KeySet, ghost ext: map<Key, nat>)
    requires ks.Valid() && ks.Accounts(ext) && ks.current < ks.size && ks.cursor == ks.keys[ks.current]
    modifies ks, ks.arr, ks.keys
    ensures ks.Valid() && ks.Accounts(ext) && (ks.arr == old(ks.arr) || fresh(ks.arr))
    ensures ks.keys == RemoveAt(old(ks.keys), old(ks.current))
    ensures ks.contents == old(ks.contents) - {old(ks.cursor).id}
    ensures ks.size > 0 ==> ks.NextPosition() == old(ks.current)
    ensures ks.current <= ks.size
    ensures old(ks.cursor).freed <==> ext[old(ks.cursor)] == 0
  {
    hide KeySet.Valid, Distinct, AllNamed, KeySet.NextPosition;
    ghost var keys, at := ks.keys, ks.current;
    ks.ValidShape();
    ks.KeysDistinct();
    RemoveMembers(keys, at);
    var c := ks.GetCursor();
    var k := ks.PopAtCursor(c, ext);
    k.KeyDel();
    ks.ValidShape();
    StepBack(ks, c);
  }

  /** The cursor goes to the position and one back, so that ksNext returns the key there. */
  method StepBack(ks: KeySet, c: nat)
    requires ks.Shape() && c <= ks.size
    modifies ks`current, ks`cursor
    ensures ks.size > 0 ==> ks.NextPosition() == c
    ensures ks.current <= ks.size
  {
    ks.SetCursor(c);
    var _ := ks.Prev();
  }

  /** One round of the loop: the current key is looked at, and leaves unless it belongs. */
  method Examine(ks: KeySet, handle: Kdb, own: Backend, parent: Name, ghost ext: map<Key, nat>)
    requires ks.Valid() && ks.Accounts(ext) && ks.current < ks.size && ks.cursor == ks.keys[ks.current]
    requires handle.Valid()
    modifies ks, ks.arr, ks.keys
    ensures ks.Valid() && ks.Accounts(ext) && (ks.arr == old(ks.arr) || fresh(ks.arr))
    ensures ks.keys ==
      if Belongs(old(ks.cursor).id.name, old(RouterOf(handle)), own, parent) then old(ks.keys)
      else RemoveAt(old(ks.keys), old(ks.current))
    ensures ks.size == |ks.keys| && ks.current <= ks.size
    ensures var keep := Belongs(old(ks.cursor).id.name, old(RouterOf(handle)), own, parent);
      ks.size > 0 ==> ks.NextPosition() == old(ks.current) + (if keep then 1 else 0)
  {
    hide CompareIdents, Sorted, Represents, Distinct, KeySet.Accounts, Kdb.Valid, Responsible;
    var name := ks.cursor.id.name;
    var curHandle := handle.GetBackend(Some(name));
    if curHandle != own {
      DropCurrentKey(ks, ext);
    } else if name.root == SPEC && parent.root == SPEC {
    } else if name.root == DIR && parent.root == DIR {
    } else if name.root == USER && parent.root == USER {
    } else if name.root == SYSTEM && parent.root == SYSTEM {
    } else {
      DropCurrentKey(ks, ext);
    }
  }

  /** The sequences before and after one round. */
  lemma RoundStep(all: seq<Key>, n: nat, router: Router, own: Backend, parent: Name)
    requires n < |all|
    ensures var kept := Kept(all[..n], router, own, parent); var keys := kept + all[n..];
      var keep := Belongs(all[n].id.name, router, own, parent);
      && keys[|kept|] == all[n]
      && |Kept(all[..n + 1], router, own, parent)| == |kept| + (if keep then 1 else 0)
      && Kept(all[..n + 1], router, own, parent) + all[n + 1..] == if keep then keys else RemoveAt(keys, |kept|)
  {
    hide Belongs;
    KeptNext(all, n, router, own, parent);
    assert all[n..] == [all[n]] + all[n + 1..];
  }

  /** n keys were looked at, those that belong come first, then the others; ksNext will return the next one. */
  ghost predicate Progress(ks: KeySet, all: seq<Key>, n: nat, router: Router, own: Backend, parent: Name)
    reads ks
  {
    && n <= |all| && ks.keys == Kept(all[..n], router, own, parent) + all[n..]
    && (forall i | 0 <= i < |ks.keys| :: ks.keys[i] in all)
    && ks.current <= ks.size
    && (ks.size > 0 ==> ks.NextPosition() == |Kept(all[..n], router, own, parent)|)
  }

  method Round(ks: KeySet, handle: Kdb, own: Backend, parent: Name, ghost ext: map<Key, nat>,
               ghost all: seq<Key>, ghost n: nat)
    returns (cur: Key?)
    requires ks.Valid() && ks.Accounts(ext) && handle.Valid() && Progress(ks, all, n, RouterOf(handle), own, parent)
    modifies ks, ks.arr, ks.keys
    ensures ks.Valid() && ks.Accounts(ext) && (ks.arr == old(ks.arr) || fresh(ks.arr))
    ensures cur == null ==> n == |all| && ks.keys == old(ks.keys)
    ensures cur != null ==> n < |all| && cur == all[n] && Progress(ks, all, n + 1, old(RouterOf(handle)), own, parent)
  {
    hide KeySet.Valid, KeySet.Accounts, Kdb.Valid, Belongs, Kept;
    ks.ValidShape();
    cur := ks.Next();
    if cur != null {
      RoundStep(all, n, RouterOf(handle), own, parent);
      Examine(ks, handle, own, parent, ext);
    }
  }

  /** elektraSplitPostprocess: every key is examined once, and exactly those that belong stay. */
  method Postprocess(ks: KeySet, handle: Kdb, own: Backend, parent: Name, ghost ext: map<Key, nat>)
    returns (ret: int, ghost examined: seq<Key>)
    requires ks.Valid() && ks.Accounts(ext) && handle.Valid()
    requires ks as object !in handle.Footprint() && ks.arr as object !in handle.Footprint()
    requires forall i | 0 <= i < |ks.keys| :: ks.keys[i] as object !in handle.Footprint()
    modifies ks, ks.arr, ks.keys
    ensures ks.Valid() && ks.Accounts(ext) && ret == 0
    ensures examined == old(ks.keys)
    ensures ks.keys == Kept(old(ks.keys), RouterOf(handle), own, parent)
  {
    hide KeySet.Valid, KeySet.Accounts, Kdb.Valid, Kept, Progress;
    ghost var router := RouterOf(handle);
    ghost var all, n := ks.keys, 0;
    ks.Rewind();
    examined := [];
    Beginning(ks, router, own, parent);
    while true
      invariant ks.Valid() && ks.Accounts(ext) && (ks.arr == old(ks.arr) || fresh(ks.arr))
      invariant handle.Valid() && RouterOf(handle) == router
      invariant n <= |all| && examined == all[..n] && Progress(ks, all, n, router, own, parent)
      decreases |all| - n
    {
      Members(ks, all, n, router, own, parent);
      var cur := Round(ks, handle, own, parent, ext, all, n);
      if cur == null {
        break;
      }
      n := n + 1;
      examined := examined + [cur];
    }
    assert all[..n] == all && all[n..] == [];
    ret := 0;
  }

  lemma Beginning(ks: KeySet, router: Router, own: Backend, parent: Name)
    requires ks.cursor == null && ks.current == 0
    ensures Progress(ks, ks.keys, 0, router, own, parent)
  {
    assert ks.keys[..0] == [] && Kept([], router, own, parent) == [] && [] + ks.keys[0..] == ks.keys;
  }

  lemma Members(ks: KeySet, all: seq<Key>, n: nat, router: Router, own: Backend, parent: Name)
    requires Progress(ks, all, n, router, own, parent)
    ensures forall i | 0 <= i < |ks.keys| :: ks.keys[i] in all
    ensures n == |all| ==> ks.keys == Kept(all, router, own, parent)
  {
    assert n == |all| ==> all[..n] == all && all[n..] == [];
  }
}
