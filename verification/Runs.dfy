/** Any sequence of operations on keysets that share keys, against a model on values with one outcome. */
module Runs {
  import opened Bytes
  import opened KeyNames
  import opened KeyOrder
  import opened KeySets
  import opened References

  // ---------- the model ----------

  /** All that can be told apart: keys and maps of the keysets, references from outside, keys that are freed. */
  datatype Snapshot = Snapshot(held: seq<seq<Key>>, maps: seq<map<Ident, Key>>, outside: map<Key, nat>, freed: set<Key>) {

    ghost predicate Valid() {
      && |held| == |maps|
      && forall i | 0 <= i < |held| :: Sorted(held[i]) && AllNamed(held[i]) && Represents(held[i], maps[i])
    }

    /** The keys that nobody holds. */
    ghost predicate Unheld(k: Key) {
      k in outside && outside[k] == 0 && Holders(held, k) == 0
    }
  }

  datatype Operation =
    | AppendKeyOp(at: nat, key: Key)
    | AppendOp(at: nat, from: nat)
    | PopOp(at: nat)
    | PopAtCursorOp(at: nat, pos: int)
    | CutOp(at: nat, cutpoint: Name)
    | DupOp(at: nat)
    | ClearOp(at: nat)
    | DelOp(at: nat)
    | HoldOp(key: Key)
    | LetGoOp(key: Key)
    | DeleteOp(key: Key)
  {
    /** What a caller may do: use existing keysets and keys, and let go only what it holds. */
    ghost predicate Permitted(s: Snapshot) {
      match this
      case AppendKeyOp(at, key) => at < |s.held| && key in s.outside && key !in s.freed && key.id.name.Valid()
      case AppendOp(at, from) => at < |s.held| && from < |s.held|
      case CutOp(at, cutpoint) => at < |s.held| && cutpoint.Valid() && cutpoint.root != []
      case HoldOp(key) => key in s.outside && key !in s.freed
      case LetGoOp(key) => key in s.outside && s.outside[key] > 0
      case DeleteOp(key) => key in s.outside && key !in s.freed
      case _ => at < |s.held|
    }

    /** The same, asked in the program. */
    predicate Allowed(count: nat, external: map<Key, nat>)
      reads external.Keys
    {
      match this
      case AppendKeyOp(at, key) => at < count && key in external && !key.freed && key.id.name.Valid()
      case AppendOp(at, from) => at < count && from < count
      case CutOp(at, cutpoint) => at < count && cutpoint.Valid() && cutpoint.root != []
      case HoldOp(key) => key in external && !key.freed
      case LetGoOp(key) => key in external && external[key] > 0
      case DeleteOp(key) => key in external && !key.freed
      case _ => at < count
    }

    /** References from outside change only when somebody outside takes one or gives it back. */
    ghost function Outside(s: Snapshot): map<Key, nat>
      requires Permitted(s)
    {
      match this
      case HoldOp(key) => s.outside[key := s.outside[key] + 1]
      case LetGoOp(key) => s.outside[key := s.outside[key] - 1]
      case _ => s.outside
    }

    /** The keys that the operation releases: they are freed if nobody else holds them. Popped keys are not. */
    ghost function Released(s: Snapshot, t: Snapshot): set<Key>
      requires Permitted(s) && |t.held| >= |s.held| - 1
    {
      match this
      case AppendKeyOp(at, key) =>
        if !key.named then {key} else if at < |t.held| then Leaving(s.held[at], t.held[at]) else {}
      case AppendOp(at, _) => if at < |t.held| then Leaving(s.held[at], t.held[at]) else {}
      case ClearOp(at) => Leaving(s.held[at], [])
      case DelOp(at) => Leaving(s.held[at], [])
      case DeleteOp(key) => {key}
      case _ => {}
    }

    /** What the operation does to the keysets. Appending is told by the maps, which determine the keys. */
    ghost predicate Moves(s: Snapshot, t: Snapshot)
      requires Permitted(s) && s.Valid()
    {
      match this
      case AppendKeyOp(at, key) =>
        t.maps == if key.named then s.maps[at := s.maps[at][key.id := key]] else s.maps
      case AppendOp(at, from) => t.maps == s.maps[at := s.maps[at] + s.maps[from]]
      case PopOp(at) =>
        t.held == if s.held[at] == [] then s.held else s.held[at := s.held[at][..|s.held[at]| - 1]]
      case PopAtCursorOp(at, pos) =>
        t.held == if 0 <= pos < |s.held[at]| then s.held[at := RemoveAt(s.held[at], pos)] else s.held
      case CutOp(at, cutpoint) =>
        var keys := s.held[at];
        var from, to := RunStart(Marks(keys, cutpoint)), RunEnd(Marks(keys, cutpoint));
        t.held == s.held[at := keys[..from] + keys[to..]] + [keys[from..to]]
      case DupOp(at) => t.held == s.held + [s.held[at]]
      case ClearOp(at) => t.held == s.held[at := []]
      case DelOp(at) => t.held == s.held[..at] + s.held[at + 1..]
      case _ => t.held == s.held
    }

    ghost predicate Does(s: Snapshot, t: Snapshot)
      requires Permitted(s) && s.Valid()
    {
      && t.Valid() && |t.held| >= |s.held| - 1
      && Moves(s, t) && t.outside == Outside(s)
      && t.freed == s.freed + set k | k in Released(s, t) && t.Unheld(k)
    }
  }

  // ---------- one outcome ----------

  /** Keys determine the map they represent. */
  lemma ContentsUnique(keys: seq<Key>, a: map<Ident, Key>, b: map<Ident, Key>)
    requires Represents(keys, a) && Represents(keys, b)
    ensures a == b
  {
    assert forall id | id in a :: a[id] in keys;
    assert forall id | id in b :: b[id] in keys;
  }

  lemma SameKeysets(t: Snapshot, u: Snapshot)
    requires t.Valid() && u.Valid() && (t.held == u.held || t.maps == u.maps)
    ensures t.held == u.held && t.maps == u.maps
  {
    hide Sorted, AllNamed, Represents;
    forall i | 0 <= i < |t.held|
      ensures t.held[i] == u.held[i] && t.maps[i] == u.maps[i]
    {
      if t.held == u.held {
        ContentsUnique(t.held[i], t.maps[i], u.maps[i]);
      } else {
        RepresentationUnique(t.held[i], u.held[i], t.maps[i]);
      }
    }
  }

  /** In every situation a permitted operation has exactly one outcome: order of keys, maps, references, freed keys. */
  lemma OneOutcome(op: Operation, s: Snapshot, t: Snapshot, u: Snapshot)
    requires op.Permitted(s) && s.Valid() && op.Does(s, t) && op.Does(s, u)
    ensures t == u
  {
    hide Snapshot.Valid, Holders, RemoveAt, RunStart, RunEnd, Marks;
    assert t.held == u.held || t.maps == u.maps;
    SameKeysets(t, u);
    assert op.Released(s, t) == op.Released(s, u);
    assert forall k :: t.Unheld(k) <==> u.Unheld(k);
  }

  /** A history of a run: each operation that is permitted happens, and nothing else. */
  ghost predicate History(ops: seq<Operation>, history: seq<Snapshot>) {
    && |history| == |ops| + 1 && (forall n | 0 <= n <= |ops| :: history[n].Valid())
    && forall n | 0 <= n < |ops| ::
         if ops[n].Permitted(history[n]) then ops[n].Does(history[n], history[n + 1]) else history[n + 1] == history[n]
  }

  /** So a whole run has exactly one history. */
  lemma {:induction false} OneHistory(ops: seq<Operation>, a: seq<Snapshot>, b: seq<Snapshot>, n: nat)
    requires History(ops, a) && History(ops, b) && a[0] == b[0] && n <= |ops|
    ensures a[n] == b[n]
  {
    hide Operation.Does, Operation.Permitted, Snapshot.Valid;
    if n > 0 {
      OneHistory(ops, a, b, n - 1);
      if ops[n - 1].Permitted(a[n - 1]) {
        OneOutcome(ops[n - 1], a[n - 1], a[n], b[n]);
      }
    }
  }

  // ---------- the keysets themselves ----------

  ghost function Snap(pool: seq<KeySet>, external: map<Key, nat>): Snapshot
    reads pool, external.Keys
  {
    Snapshot(Held(pool), Maps(pool), external, Freed(external))
  }

  lemma SnapValid(pool: seq<KeySet>, external: map<Key, nat>)
    requires Separate(pool)
    ensures Snap(pool, external).Valid()
  {
    hide KeySet.Valid;
    forall i | 0 <= i < |pool|
      ensures Sorted(pool[i].keys) && AllNamed(pool[i].keys) && Represents(pool[i].keys, pool[i].contents)
    {
      pool[i].ValidSorted();
    }
  }

  lemma AllowedIsPermitted(op: Operation, pool: seq<KeySet>, external: map<Key, nat>)
    ensures op.Allowed(|pool|, external) <==> op.Permitted(Snap(pool, external))
  {
  }

  /** From the marks on the keys to the set of freed keys. */
  lemma FreedAgree(s: Snapshot, pool: seq<KeySet>, external: map<Key, nat>, gone: set<Key>)
    requires Balanced(Held(pool), external) && FreedNow(external, s.freed, gone)
    requires s.freed <= external.Keys && gone <= external.Keys
    ensures var t := Snap(pool, external); t.freed == s.freed + set k | k in gone && t.Unheld(k)
  {
    hide Holders;
  }

  /** What is known about the keysets before an operation. */
  lemma Before(pool: seq<KeySet>, external: map<Key, nat>)
    requires Separate(pool) && Balanced(Held(pool), external)
    ensures var s := Snap(pool, external);
      && s.Valid() && s.freed <= external.Keys
      && forall i | 0 <= i < |s.held| :: Leaving(s.held[i], []) <= external.Keys
  {
    hide Holders, KeySet.Valid;
    SnapValid(pool, external);
  }

  /** What remains to be put together after an operation that changed no reference from outside. */
  lemma After(op: Operation, s: Snapshot, pool: seq<KeySet>, external: map<Key, nat>, gone: set<Key>)
    requires op.Permitted(s) && s.Valid() && Separate(pool) && Balanced(Held(pool), external)
    requires |pool| >= |s.held| - 1 && op.Moves(s, Snap(pool, external)) && op.Outside(s) == external
    requires gone == op.Released(s, Snap(pool, external)) && FreedNow(external, s.freed, gone)
    requires s.freed <= external.Keys && gone <= external.Keys
    ensures op.Does(s, Snap(pool, external))
  {
    hide Operation.Moves, Operation.Released, Operation.Outside, Operation.Permitted, Snapshot.Valid, Snapshot.Unheld;
    hide Separate, Balanced;
    SnapValid(pool, external);
    FreedAgree(s, pool, external, gone);
  }

  method AppendedKey(pool: seq<KeySet>, op: Operation, ghost external: map<Key, nat>)
    requires Separate(pool) && Balanced(Held(pool), external) && op.AppendKeyOp? && op.Permitted(Snap(pool, external))
    requires Snap(pool, external).Valid()
    modifies pool[op.at], pool[op.at].arr, external.Keys
    ensures Separate(pool) && Balanced(Held(pool), external)
    ensures pool[op.at].arr == old(pool[op.at].arr) || fresh(pool[op.at].arr)
    ensures op.Does(old(Snap(pool, external)), Snap(pool, external))
  {
    hide KeySet.Valid, Balanced, Name.Valid, Holders, Separate, FreedNow, Operation.Does, Snapshot.Valid;
    ghost var s := Snap(pool, external);
    Before(pool, external);
    AppendKeyTo(pool, op.at, op.key, external);
    if op.key.named {
      After(op, s, pool, external, Leaving(s.held[op.at], pool[op.at].keys));
    } else {
      assert Maps(pool) == s.maps;
      After(op, s, pool, external, {op.key});
    }
  }

  method AppendedAll(pool: seq<KeySet>, op: Operation, ghost external: map<Key, nat>)
    requires Separate(pool) && Balanced(Held(pool), external) && op.AppendOp? && op.Permitted(Snap(pool, external))
    requires Snap(pool, external).Valid()
    modifies pool[op.at], pool[op.at].arr, external.Keys
    ensures Separate(pool) && Balanced(Held(pool), external)
    ensures pool[op.at].arr == old(pool[op.at].arr) || fresh(pool[op.at].arr)
    ensures op.Does(old(Snap(pool, external)), Snap(pool, external))
  {
    hide KeySet.Valid, Balanced, Name.Valid, Holders, Separate, FreedNow, Operation.Does, Snapshot.Valid;
    ghost var s := Snap(pool, external);
    Before(pool, external);
    AppendTo(pool, op.at, op.from, external);
    After(op, s, pool, external, Leaving(s.held[op.at], pool[op.at].keys));
  }

  /** The operations on the contents of one keyset. */
  method OnOne(pool: seq<KeySet>, op: Operation, ghost external: map<Key, nat>)
    requires Separate(pool) && Balanced(Held(pool), external) && op.Permitted(Snap(pool, external))
    requires Snap(pool, external).Valid()
    requires op.AppendKeyOp? || op.AppendOp? || op.PopOp? || op.PopAtCursorOp? || op.ClearOp?
    modifies pool[op.at], pool[op.at].arr, external.Keys
    ensures Separate(pool) && Balanced(Held(pool), external)
    ensures pool[op.at].arr == old(pool[op.at].arr) || fresh(pool[op.at].arr)
    ensures op.Does(old(Snap(pool, external)), Snap(pool, external))
  {
    hide KeySet.Valid, Balanced, Name.Valid, Holders, Separate, FreedNow, Operation.Does, Snapshot.Valid, RemoveAt;
    ghost var s := Snap(pool, external);
    Before(pool, external);
    match op
    case AppendKeyOp(at, key) =>
      AppendedKey(pool, op, external);
    case AppendOp(at, from) =>
      AppendedAll(pool, op, external);
    case PopOp(at) =>
      var _ := PopFrom(pool, at, external);
      After(op, s, pool, external, {});
    case PopAtCursorOp(at, pos) =>
      var _ := PopAtCursorFrom(pool, at, pos, external);
      After(op, s, pool, external, {});
    case ClearOp(at) =>
      ClearOne(pool, at, external);
      After(op, s, pool, external, Leaving(s.held[at], []));
  }

  lemma NoneGone(external: map<Key, nat>, was: set<Key>)
    requires Freed(external) == was
    ensures FreedNow(external, was, {})
  {
  }

  method CutAway(pool: seq<KeySet>, op: Operation, ghost external: map<Key, nat>) returns (now: seq<KeySet>)
    requires Separate(pool) && Balanced(Held(pool), external) && op.CutOp? && op.Permitted(Snap(pool, external))
    requires Snap(pool, external).Valid()
    modifies pool[op.at], pool[op.at].arr
    ensures Separate(now) && Balanced(Held(now), external) && Confined(pool, now)
    ensures op.Does(old(Snap(pool, external)), Snap(now, external))
  {
    hide KeySet.Valid, Balanced, Name.Valid, Holders, FreedNow, Operation.Does, Snapshot.Valid, RunStart, RunEnd, Marks;
    ghost var s := Snap(pool, external);
    Before(pool, external);
    var returned := CutFrom(pool, op.at, op.cutpoint, external);
    assert forall j | 0 <= j < |pool| :: pool[j].arr == old(pool[j].arr);
    OneMore(pool, returned);
    now := pool + [returned];
    NoneGone(external, s.freed);
    After(op, s, now, external, {});
  }

  method Copied(pool: seq<KeySet>, op: Operation, ghost external: map<Key, nat>) returns (now: seq<KeySet>)
    requires Separate(pool) && Balanced(Held(pool), external) && op.DupOp? && op.Permitted(Snap(pool, external))
    requires Snap(pool, external).Valid()
    modifies external.Keys
    ensures Separate(now) && Balanced(Held(now), external) && Confined(pool, now)
    ensures op.Does(old(Snap(pool, external)), Snap(now, external))
  {
    hide KeySet.Valid, Balanced, Name.Valid, Holders, FreedNow, Operation.Does, Snapshot.Valid;
    ghost var s := Snap(pool, external);
    Before(pool, external);
    var keyset := DupOne(pool, op.at, external);
    OneMore(pool, keyset);
    now := pool + [keyset];
    After(op, s, now, external, {});
  }

  method Dropped(pool: seq<KeySet>, op: Operation, ghost external: map<Key, nat>) returns (now: seq<KeySet>)
    requires Separate(pool) && Balanced(Held(pool), external) && op.DelOp? && op.Permitted(Snap(pool, external))
    requires Snap(pool, external).Valid()
    modifies pool[op.at], external.Keys
    ensures Separate(now) && Balanced(Held(now), external) && Confined(pool, now)
    ensures op.Does(old(Snap(pool, external)), Snap(now, external))
  {
    hide KeySet.Valid, Balanced, Name.Valid, Holders, FreedNow, Operation.Does, Snapshot.Valid;
    ghost var s := Snap(pool, external);
    Before(pool, external);
    DelOne(pool, op.at, external);
    assert forall j | 0 <= j < |pool| :: pool[j].arr == old(pool[j].arr);
    OneLess(pool, op.at);
    now := pool[..op.at] + pool[op.at + 1..];
    After(op, s, now, external, Leaving(s.held[op.at], []));
  }

  /** The operations after which there are other keysets than before. */
  method Rearrange(pool: seq<KeySet>, op: Operation, ghost external: map<Key, nat>) returns (now: seq<KeySet>)
    requires Separate(pool) && Balanced(Held(pool), external) && op.Permitted(Snap(pool, external))
    requires Snap(pool, external).Valid()
    requires op.CutOp? || op.DupOp? || op.DelOp?
    modifies pool[op.at], pool[op.at].arr, external.Keys
    ensures Separate(now) && Balanced(Held(now), external) && Confined(pool, now)
    ensures op.Does(old(Snap(pool, external)), Snap(now, external))
  {
    hide KeySet.Valid, Balanced, Separate, Operation.Does, Operation.Moves, Operation.Outside, Operation.Released;
    hide Snapshot.Valid, Snap, Confined;
    match op
    case CutOp(at, cutpoint) => now := CutAway(pool, op, external);
    case DupOp(at) => now := Copied(pool, op, external);
    case DelOp(at) => now := Dropped(pool, op, external);
  }

  /** The operations on one key: keyIncRef and keyDecRef from outside, and keyDel. */
  method OnKey(pool: seq<KeySet>, op: Operation, external: map<Key, nat>) returns (outside: map<Key, nat>)
    requires Separate(pool) && Balanced(Held(pool), external) && op.Permitted(Snap(pool, external))
    requires Snap(pool, external).Valid()
    requires op.HoldOp? || op.LetGoOp? || op.DeleteOp?
    modifies op.key
    ensures Separate(pool) && Balanced(Held(pool), outside) && outside.Keys == external.Keys
    ensures op.Does(old(Snap(pool, external)), Snap(pool, outside))
  {
    hide KeySet.Valid, Balanced, Name.Valid, Holders, Separate, FreedNow, Operation.Does, Snapshot.Valid;
    ghost var s := Snap(pool, external);
    Before(pool, external);
    outside := external;
    match op
    case HoldOp(key) =>
      outside := Hold(pool, key, external);
      CountersOnly(op, s, pool, outside);
    case LetGoOp(key) =>
      outside := LetGo(pool, key, external);
      CountersOnly(op, s, pool, outside);
    case DeleteOp(key) =>
      Delete(pool, key, external);
      After(op, s, pool, external, {key});
  }

  lemma CountersOnly(op: Operation, s: Snapshot, pool: seq<KeySet>, outside: map<Key, nat>)
    requires op.Permitted(s) && s.Valid() && (op.HoldOp? || op.LetGoOp?) && Separate(pool)
    requires Held(pool) == s.held && outside == op.Outside(s) && Freed(outside) == s.freed
    ensures op.Does(s, Snap(pool, outside))
  {
    hide Snapshot.Valid, Separate;
    SnapValid(pool, outside);
  }

  method Perform(pool: seq<KeySet>, op: Operation, external: map<Key, nat>)
    returns (now: seq<KeySet>, outside: map<Key, nat>)
    requires Separate(pool) && Balanced(Held(pool), external) && op.Allowed(|pool|, external)
    modifies pool, Arrays(pool), external.Keys
    ensures Separate(now) && Balanced(Held(now), outside) && Confined(pool, now) && outside.Keys == external.Keys
    ensures old(op.Permitted(Snap(pool, external)) && Snap(pool, external).Valid())
    ensures op.Does(old(Snap(pool, external)), Snap(now, outside))
  {
    hide KeySet.Valid, Balanced, Holders, Separate, Operation.Does, Snapshot.Valid, Snap;
    AllowedIsPermitted(op, pool, external);
    SnapValid(pool, external);
    now, outside := pool, external;
    if op.HoldOp? || op.LetGoOp? || op.DeleteOp? {
      outside := OnKey(pool, op, external);
    } else if op.CutOp? || op.DupOp? || op.DelOp? {
      now := Rearrange(pool, op, external);
    } else {
      OnOne(pool, op, external);
    }
  }

  /**
    Whatever callers do with keysets that share keys: the keysets stay sorted maps in arrays of their own,
    every counter is right, and the run has the history that OneHistory says there is only one of.
   */
  method Run(pool: seq<KeySet>, ops: seq<Operation>, external: map<Key, nat>)
    returns (now: seq<KeySet>, outside: map<Key, nat>, ghost history: seq<Snapshot>)
    requires Separate(pool) && Balanced(Held(pool), external)
    modifies pool, Arrays(pool), external.Keys
    ensures Separate(now) && Balanced(Held(now), outside)
    ensures History(ops, history) && history[0] == old(Snap(pool, external)) && history[|ops|] == Snap(now, outside)
  {
    hide KeySet.Valid, Balanced, Holders, Separate, Operation.Does, Operation.Permitted, Operation.Allowed;
    hide Snapshot.Valid, Snap, Held;
    SnapValid(pool, external);
    now, outside, history := pool, external, [Snap(pool, external)];
    for n := 0 to |ops|
      invariant Separate(now) && Balanced(Held(now), outside) && outside.Keys == external.Keys
      invariant Confined(pool, now)
      invariant |history| == n + 1 && history[0] == old(Snap(pool, external)) && history[n] == Snap(now, outside)
      invariant History(ops[..n], history)
    {
      AllowedIsPermitted(ops[n], now, outside);
      ghost var before := history;
      if ops[n].Allowed(|now|, outside) {
        now, outside := Perform(now, ops[n], outside);
      }
      history := history + [Snap(now, outside)];
      SnapValid(now, outside);
      HistoryNext(ops[..n], before, ops[n], history[n + 1]);
      assert ops[..n + 1] == ops[..n] + [ops[n]];
    }
    assert ops[..|ops|] == ops;
  }

  lemma HistoryNext(ops: seq<Operation>, history: seq<Snapshot>, op: Operation, t: Snapshot)
    requires History(ops, history) && t.Valid()
    requires if op.Permitted(history[|ops|]) then op.Does(history[|ops|], t) else t == history[|ops|]
    ensures History(ops + [op], history + [t])
  {
    hide Operation.Does, Operation.Permitted, Snapshot.Valid;
  }
}
