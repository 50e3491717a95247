/** Reference counters across any number of keysets that share keys. */
module References {
  import opened Bytes
  import opened KeyNames
  import opened KeyOrder
  import opened KeySets

  // ---------- counting holders ----------

  /** How many of the keysets, given by their keys, hold k. */
  function Holders(held: seq<seq<Key>>, k: Key): nat {
    if held == [] then 0 else Holders(held[..|held| - 1], k) + (if k in held[|held| - 1] then 1 else 0)
  }

  lemma HoldersOneMore(held: seq<seq<Key>>, x: seq<Key>, k: Key)
    ensures Holders(held + [x], k) == Holders(held, k) + (if k in x then 1 else 0)
  {
    assert (held + [x])[..|held|] == held;
  }

  /** One keyset's contribution can be exchanged. */
  lemma {:induction false} HoldersExchange(held: seq<seq<Key>>, i: nat, x: seq<Key>, k: Key)
    requires i < |held|
    ensures Holders(held[i := x], k) + (if k in held[i] then 1 else 0) == Holders(held, k) + (if k in x then 1 else 0)
  {
    var n := |held| - 1;
    if i < n {
      HoldersExchange(held[..n], i, x, k);
      assert held[i := x][..n] == held[..n][i := x];
    } else {
      assert held[i := x][..n] == held[..n];
    }
  }

  lemma HoldersWithout(held: seq<seq<Key>>, i: nat, k: Key)
    requires i < |held|
    ensures Holders(held, k) == Holders(held[..i] + held[i + 1..], k) + (if k in held[i] then 1 else 0)
    decreases |held|
  {
    var n := |held| - 1;
    if i < n {
      HoldersWithout(held[..n], i, k);
      var r := held[..i] + held[i + 1..];
      assert r[..|r| - 1] == held[..n][..i] + held[..n][i + 1..];
    } else {
      assert held[..i] + held[i + 1..] == held[..n];
    }
  }

  // ---------- the invariant ----------

  ghost function Held(pool: seq<KeySet>): (held: seq<seq<Key>>)
    reads pool
    ensures |held| == |pool| && forall i | 0 <= i < |pool| :: held[i] == pool[i].keys
  {
    seq(|pool|, i requires 0 <= i < |pool| reads pool => pool[i].keys)
  }

  /** The finite maps the keysets stand for. */
  ghost function Maps(pool: seq<KeySet>): (maps: seq<map<Ident, Key>>)
    reads pool
    ensures |maps| == |pool| && forall i | 0 <= i < |pool| :: maps[i] == pool[i].contents
  {
    seq(|pool|, i requires 0 <= i < |pool| reads pool => pool[i].contents)
  }

  /** The counter of every key is the number of keysets that hold it plus the references from outside. */
  ghost predicate Balanced(held: seq<seq<Key>>, external: map<Key, nat>)
    reads external.Keys
  {
    && (forall k | k in external ::
         k.ksReference == Holders(held, k) + external[k] && (k.freed ==> k.ksReference == 0))
    && forall i, j | 0 <= i < |held| && 0 <= j < |held[i]| :: held[i][j] in external
  }

  /** What is not this keyset counts as outside. */
  ghost function Others(held: seq<seq<Key>>, i: nat, external: map<Key, nat>): map<Key, nat>
    requires i < |held|
  {
    map k | k in external :: Holders(held[i := []], k) + external[k]
  }

  ghost predicate Separate(pool: seq<KeySet>)
    reads pool, set i | 0 <= i < |pool| :: pool[i].arr
  {
    && (forall i | 0 <= i < |pool| :: pool[i].Valid())
    && forall i, j | 0 <= i < j < |pool| :: pool[i] != pool[j] && pool[i].arr != pool[j].arr
  }

  lemma AccountsOfOne(pool: seq<KeySet>, i: nat, external: map<Key, nat>)
    requires i < |pool| && Balanced(Held(pool), external)
    ensures pool[i].Accounts(Others(Held(pool), i, external))
  {
    var held := Held(pool);
    forall k | k in external
      ensures Holders(held, k) == Holders(held[i := []], k) + (if k in held[i] then 1 else 0)
    {
      HoldersExchange(held, i, [], k);
    }
    assert forall j | 0 <= j < |held[i]| :: held[i][j] in external;
  }

  /** If one keyset's accounts are in order after a step and the others hold what they held, all are. */
  lemma BalancedAgain(was: seq<seq<Key>>, held: seq<seq<Key>>, ks: KeySet, i: nat, external: map<Key, nat>)
    requires i < |held| && held[i] == ks.keys && |was| == |held| && held == was[i := held[i]]
    requires ks.Accounts(Others(was, i, external))
    requires forall m, j | 0 <= m < |was| && 0 <= j < |was[m]| :: was[m][j] in external
    ensures Balanced(held, external)
  {
    assert was[i := []] == held[i := []];
    forall k | k in external
      ensures Holders(held, k) == Holders(held[i := []], k) + (if k in held[i] then 1 else 0)
    {
      HoldersExchange(held, i, [], k);
    }
    assert forall j | 0 <= j < |ks.keys| :: ks.keys[j] in external;
  }

  lemma AllInside(pool: seq<KeySet>, external: map<Key, nat>)
    requires Balanced(Held(pool), external)
    ensures forall m, j | 0 <= m < |pool| && 0 <= j < |pool[m].keys| :: pool[m].keys[j] in external
  {
  }

  lemma {:induction false} HeldSomewhere(held: seq<seq<Key>>, m: nat, k: Key)
    requires m < |held| && k in held[m]
    ensures Holders(held, k) > 0
  {
    if m < |held| - 1 {
      HeldSomewhere(held[..|held| - 1], m, k);
    }
  }

  /** A key that sits in a keyset was not freed. */
  lemma HeldNotFreed(held: seq<seq<Key>>, external: map<Key, nat>, m: nat, k: Key)
    requires Balanced(held, external) && m < |held| && k in held[m]
    ensures k in external && !k.freed
  {
    HeldSomewhere(held, m, k);
  }

  /** The keys of one keyset have at least one holder besides any other. */
  lemma HolderCounts(pool: seq<KeySet>, i: nat, from: nat, external: map<Key, nat>)
    requires i < |pool| && from < |pool| && Balanced(Held(pool), external)
    ensures forall j | 0 <= j < |pool[from].keys| ::
      pool[from].keys[j] in external && pool[from].keys[j] in Others(Held(pool), i, external)
    ensures from != i ==> forall j | 0 <= j < |pool[from].keys| :: Others(Held(pool), i, external)[pool[from].keys[j]] > 0
  {
    AllInside(pool, external);
    forall j | 0 <= j < |pool[from].keys| && from != i
      ensures Others(Held(pool), i, external)[pool[from].keys[j]] > 0
    {
      HeldSomewhere(Held(pool)[i := []], from, pool[from].keys[j]);
    }
  }

  // ---------- which keys are freed ----------

  ghost function Freed(external: map<Key, nat>): set<Key>
    reads external.Keys
  {
    set k | k in external && k.freed
  }

  /** The keys that a keyset had and does not have any more. */
  ghost function Leaving(before: seq<Key>, after: seq<Key>): set<Key> {
    set k | k in before && k !in after
  }

  /** Freed are the keys that were, and those that lost a holder and have none left. */
  ghost predicate FreedNow(external: map<Key, nat>, was: set<Key>, gone: set<Key>)
    reads external.Keys
  {
    forall k | k in external :: k.freed <==> k in was || (k in gone && k.ksReference == 0)
  }

  lemma NoneFreed(pool: seq<KeySet>, i: nat, external: map<Key, nat>)
    requires Balanced(Held(pool), external) && i < |pool|
    ensures forall k | k in pool[i].keys :: k in external && !k.freed
  {
    forall k | k in pool[i].keys
      ensures k in external && !k.freed
    {
      HeldNotFreed(Held(pool), external, i, k);
    }
  }

  lemma NothingFreed(external: map<Key, nat>, was: set<Key>, touched: seq<Key>)
    requires forall k | k in touched :: k !in was && !k.freed
    requires forall k | k in external && k !in touched :: k.freed <==> k in was
    ensures FreedNow(external, was, {})
  {
  }

  /** From one keyset and its other holders to all keys. */
  lemma FreedByLeaving(ks: KeySet, before: seq<Key>, ext: map<Key, nat>, external: map<Key, nat>, was: set<Key>)
    requires ks.Accounts(ext) && ext.Keys == external.Keys
    requires forall k | k in before :: k in ext && k !in was && (k.freed <==> k !in ks.keys && ext[k] == 0)
    requires forall k | k in external && k !in before :: k.freed <==> k in was
    ensures FreedNow(external, was, Leaving(before, ks.keys))
  {
  }

  // ---------- every operation keeps it ----------

  method AppendNamedTo(pool: seq<KeySet>, i: nat, k: Key, ghost external: map<Key, nat>)
    requires Separate(pool) && Balanced(Held(pool), external)
    requires i < |pool| && k in external && !k.freed && k.id.name.Valid() && k.named
    modifies pool[i], pool[i].arr, external.Keys
    ensures Separate(pool) && Balanced(Held(pool), external)
    ensures pool[i].arr == old(pool[i].arr) || fresh(pool[i].arr)
    ensures Held(pool) == old(Held(pool))[i := pool[i].keys]
    ensures Maps(pool) == old(Maps(pool))[i := old(pool[i].contents)[k.id := k]]
    ensures FreedNow(external, old(Freed(external)), Leaving(old(pool[i].keys), pool[i].keys))
  {
    hide KeySet.Valid, KeySet.Accounts, Balanced, Adds, Name.Valid, Holders, KeySet.NextPosition, RemoveAt, Others;
    AccountsOfOne(pool, i, external);
    ghost var ext, was := Others(Held(pool), i, external), Freed(external);
    OthersKeys(Held(pool), i, external);
    AllInside(pool, external);
    NoneFreed(pool, i, external);
    var _ := pool[i].AppendKey(k, ext);
    BalancedAgain(old(Held(pool)), Held(pool), pool[i], i, external);
    FreedByLeaving(pool[i], old(pool[i].keys), ext, external, was);
  }

  /** A key without a name is not appended, but released. */
  method RefuseTo(pool: seq<KeySet>, i: nat, k: Key, ghost external: map<Key, nat>)
    requires Separate(pool) && Balanced(Held(pool), external)
    requires i < |pool| && k in external && !k.freed && k.id.name.Valid() && !k.named
    modifies pool[i], pool[i].arr, external.Keys
    ensures Separate(pool) && Balanced(Held(pool), external)
    ensures pool[i].arr == old(pool[i].arr) || fresh(pool[i].arr)
    ensures Held(pool) == old(Held(pool)) && Maps(pool) == old(Maps(pool))
    ensures FreedNow(external, old(Freed(external)), {k})
  {
    hide KeySet.Valid, KeySet.Accounts, Balanced, Adds, Name.Valid, Holders, KeySet.NextPosition, RemoveAt, Others;
    AccountsOfOne(pool, i, external);
    ghost var ext := Others(Held(pool), i, external);
    OthersKeys(Held(pool), i, external);
    AllInside(pool, external);
    NoneFreed(pool, i, external);
    var _ := pool[i].AppendKey(k, ext);
    BalancedAgain(old(Held(pool)), Held(pool), pool[i], i, external);
  }

  /** ksAppendKey: in the map the key replaces what was there, and a key that was there loses a holder. */
  method AppendKeyTo(pool: seq<KeySet>, i: nat, k: Key, ghost external: map<Key, nat>)
    requires Separate(pool) && Balanced(Held(pool), external)
    requires i < |pool| && k in external && !k.freed && k.id.name.Valid()
    modifies pool[i], pool[i].arr, external.Keys
    ensures Separate(pool) && Balanced(Held(pool), external)
    ensures pool[i].arr == old(pool[i].arr) || fresh(pool[i].arr)
    ensures Held(pool) == old(Held(pool))[i := pool[i].keys]
    ensures Maps(pool) == if k.named then old(Maps(pool))[i := old(pool[i].contents)[k.id := k]] else old(Maps(pool))
    ensures !k.named ==> Held(pool) == old(Held(pool))
    ensures FreedNow(external, old(Freed(external)), if k.named then Leaving(old(pool[i].keys), pool[i].keys) else {k})
  {
    hide KeySet.Valid, Balanced, Separate, Name.Valid, FreedNow, Leaving;
    if k.named {
      AppendNamedTo(pool, i, k, external);
    } else {
      RefuseTo(pool, i, k, external);
    }
  }

  lemma OthersKeys(held: seq<seq<Key>>, i: nat, external: map<Key, nat>)
    requires i < |held|
    ensures Others(held, i, external).Keys == external.Keys
  {
  }

  lemma SeparateOnes(pool: seq<KeySet>, i: nat)
    requires Separate(pool) && i < |pool|
    ensures forall j | 0 <= j < |pool| :: pool[j].Valid()
    ensures forall j | 0 <= j < |pool| && j != i :: pool[j] != pool[i] && pool[j].arr != pool[i].arr
    ensures forall j, l | 0 <= j < l < |pool| :: pool[j] != pool[l] && pool[j].arr != pool[l].arr
  {
    hide KeySet.Valid;
  }

  lemma SeparateAgain(pool: seq<KeySet>)
    requires forall j | 0 <= j < |pool| :: pool[j].Valid()
    requires forall j, l | 0 <= j < l < |pool| :: pool[j] != pool[l] && pool[j].arr != pool[l].arr
    ensures Separate(pool)
  {
    hide KeySet.Valid;
  }

  method AppendTo(pool: seq<KeySet>, i: nat, from: nat, ghost external: map<Key, nat>)
    requires Separate(pool) && Balanced(Held(pool), external)
    requires i < |pool| && from < |pool|
    modifies pool[i], pool[i].arr, external.Keys
    ensures Separate(pool) && Balanced(Held(pool), external)
    ensures pool[i].arr == old(pool[i].arr) || fresh(pool[i].arr)
    ensures Held(pool) == old(Held(pool))[i := pool[i].keys]
    ensures Maps(pool) == old(Maps(pool))[i := old(pool[i].contents) + old(pool[from].contents)]
    ensures FreedNow(external, old(Freed(external)), Leaving(old(pool[i].keys), pool[i].keys))
  {
    hide KeySet.Valid, KeySet.Accounts, Balanced, Adds, Name.Valid, Holders, KeySet.NextPosition, RemoveAt, Others;
    hide LastNew, FreedNow, Leaving, Separate;
    SeparateOnes(pool, i);
    SeparateOnes(pool, from);
    AccountsOfOne(pool, i, external);
    ghost var ext, was := Others(Held(pool), i, external), Freed(external);
    OthersKeys(Held(pool), i, external);
    AllInside(pool, external);
    NoneFreed(pool, i, external);
    NoneFreed(pool, from, external);
    HolderCounts(pool, i, from, external);
    ghost var added := pool[from].keys;
    var _ := pool[i].Append(pool[from], ext);
    SeparateAgain(pool);
    BalancedAgain(old(Held(pool)), Held(pool), pool[i], i, external);
    AddedNotFreed(pool, i, from, external, added);
    FreedByAppending(pool[i], old(pool[i].keys), added, ext, external, was);
  }

  lemma FreedByAppending(ks: KeySet, before: seq<Key>, added: seq<Key>, ext: map<Key, nat>, external: map<Key, nat>,
                         was: set<Key>)
    requires ks.Accounts(ext) && ext.Keys == external.Keys
    requires forall k | k in before :: k in ext && k !in was && (k.freed <==> k !in ks.keys && ext[k] == 0)
    requires forall k | k in added :: k !in was && !k.freed
    requires forall k | k in external && k !in before && k !in added :: k.freed <==> k in was
    ensures FreedNow(external, was, Leaving(before, ks.keys))
  {
    hide KeySet.Accounts, FreedNow, Leaving;
    FreedByLeaving(ks, before, ext, external, was);
  }

  /** The keys that were appended are still in the keyset they come from. */
  lemma AddedNotFreed(pool: seq<KeySet>, i: nat, from: nat, external: map<Key, nat>, added: seq<Key>)
    requires Balanced(Held(pool), external) && i < |pool| && from < |pool| && added == pool[from].keys
    ensures forall k | k in added :: !k.freed
  {
    NoneFreed(pool, from, external);
  }

  method PopFrom(pool: seq<KeySet>, i: nat, ghost external: map<Key, nat>) returns (k: Key?)
    requires Separate(pool) && Balanced(Held(pool), external) && i < |pool|
    modifies pool[i], pool[i].arr, external.Keys
    ensures Separate(pool) && Balanced(Held(pool), external)
    ensures pool[i].arr == old(pool[i].arr) || fresh(pool[i].arr)
    ensures k == if old(pool[i].keys) == [] then null else old(pool[i].keys)[|old(pool[i].keys)| - 1]
    ensures pool[i].keys == if k == null then [] else old(pool[i].keys)[..|old(pool[i].keys)| - 1]
    ensures Held(pool) == old(Held(pool))[i := pool[i].keys]
    ensures k != null ==> k in external && !k.freed
    ensures FreedNow(external, old(Freed(external)), {})
  {
    hide KeySet.Valid, KeySet.Accounts, Balanced, Adds, Name.Valid, Holders, IsGreatest, KeySet.NextPosition, RemoveAt;
    hide Others, FreedNow;
    AccountsOfOne(pool, i, external);
    ghost var ext, was := Others(Held(pool), i, external), Freed(external);
    AllInside(pool, external);
    NoneFreed(pool, i, external);
    pool[i].SizeIsLength();
    k := pool[i].Pop(ext);
    BalancedAgain(old(Held(pool)), Held(pool), pool[i], i, external);
    NothingFreed(external, was, old(pool[i].keys));
  }

  method PopAtCursorFrom(pool: seq<KeySet>, i: nat, pos: int, ghost external: map<Key, nat>) returns (k: Key?)
    requires Separate(pool) && Balanced(Held(pool), external) && i < |pool|
    modifies pool[i], pool[i].arr, external.Keys
    ensures Separate(pool) && Balanced(Held(pool), external)
    ensures pool[i].arr == old(pool[i].arr) || fresh(pool[i].arr)
    ensures k != null ==> k in external && !k.freed
    ensures k == if 0 <= pos < |old(pool[i].keys)| then old(pool[i].keys)[pos] else null
    ensures pool[i].keys == if k == null then old(pool[i].keys) else RemoveAt(old(pool[i].keys), pos)
    ensures Held(pool) == old(Held(pool))[i := pool[i].keys]
    ensures FreedNow(external, old(Freed(external)), {})
  {
    hide KeySet.Valid, KeySet.Accounts, Balanced, Adds, Name.Valid, Holders, IsGreatest, KeySet.NextPosition, RemoveAt;
    hide Others, FreedNow;
    AccountsOfOne(pool, i, external);
    ghost var ext, was := Others(Held(pool), i, external), Freed(external);
    AllInside(pool, external);
    NoneFreed(pool, i, external);
    pool[i].SizeIsLength();
    k := pool[i].PopAtCursor(pos, ext);
    BalancedAgain(old(Held(pool)), Held(pool), pool[i], i, external);
    NothingFreed(external, was, old(pool[i].keys));
  }

  method ClearOne(pool: seq<KeySet>, i: nat, ghost external: map<Key, nat>)
    requires Separate(pool) && Balanced(Held(pool), external) && i < |pool|
    modifies pool[i], pool[i].arr, external.Keys
    ensures Separate(pool) && Balanced(Held(pool), external)
    ensures pool[i].arr == old(pool[i].arr) || fresh(pool[i].arr)
    ensures Held(pool) == old(Held(pool))[i := []]
    ensures FreedNow(external, old(Freed(external)), Leaving(old(pool[i].keys), []))
  {
    hide KeySet.Valid, KeySet.Accounts, Balanced, Adds, Name.Valid, Holders, KeySet.NextPosition, RemoveAt, Others;
    AccountsOfOne(pool, i, external);
    ghost var ext, was := Others(Held(pool), i, external), Freed(external);
    OthersKeys(Held(pool), i, external);
    AllInside(pool, external);
    NoneFreed(pool, i, external);
    pool[i].Clear(ext);
    BalancedAgain(old(Held(pool)), Held(pool), pool[i], i, external);
    FreedByLeaving(pool[i], old(pool[i].keys), ext, external, was);
  }

  /** Moving keys from one keyset into a new one changes nobody's number of holders. */
  lemma CutBalances(held: seq<seq<Key>>, i: nat, from: nat, to: nat, external: map<Key, nat>)
    requires i < |held| && from <= to <= |held[i]| && Distinct(held[i]) && Balanced(held, external)
    ensures Balanced(held[i := held[i][..from] + held[i][to..]] + [held[i][from..to]], external)
  {
    var part, rest := held[i][from..to], held[i][..from] + held[i][to..];
    var now := held[i := rest] + [part];
    forall k | k in external
      ensures Holders(now, k) == Holders(held, k)
    {
      HoldersExchange(held, i, rest, k);
      HoldersOneMore(held[i := rest], part, k);
      InExactlyOne(held[i], from, to, k);
    }
    forall m, j | 0 <= m < |now| && 0 <= j < |now[m]|
      ensures now[m][j] in external
    {
      InExactlyOne(held[i], from, to, now[m][j]);
      if m < |held| && m != i {
        assert now[m] == held[m];
      }
    }
  }

  lemma InExactlyOne(keys: seq<Key>, from: nat, to: nat, k: Key)
    requires from <= to <= |keys| && Distinct(keys)
    ensures k in keys <==> k in keys[from..to] || k in keys[..from] + keys[to..]
    ensures !(k in keys[from..to] && k in keys[..from] + keys[to..])
  {
    assert keys == keys[..from] + keys[from..to] + keys[to..];
  }

  /** The pool with another keyset at the end. */
  lemma OneMore(pool: seq<KeySet>, ks: KeySet)
    requires Separate(pool) && ks.Valid()
    requires forall j | 0 <= j < |pool| :: pool[j] != ks && pool[j].arr != ks.arr
    ensures Separate(pool + [ks])
    ensures Held(pool + [ks]) == Held(pool) + [ks.keys] && Maps(pool + [ks]) == Maps(pool) + [ks.contents]
  {
    hide KeySet.Valid;
  }

  /** The pool without one of its keysets. */
  lemma OneLess(pool: seq<KeySet>, i: nat)
    requires Separate(pool) && i < |pool|
    ensures var now := pool[..i] + pool[i + 1..];
      && Separate(now) && Held(now) == Held(pool)[..i] + Held(pool)[i + 1..]
      && Maps(now) == Maps(pool)[..i] + Maps(pool)[i + 1..]
  {
    hide KeySet.Valid;
  }

  ghost function Arrays(pool: seq<KeySet>): set<object>
    reads pool
  {
    set i | 0 <= i < |pool| :: pool[i].arr
  }

  /** Keysets and arrays are old ones or new ones. */
  twostate predicate Confined(pool: seq<KeySet>, new now: seq<KeySet>)
    reads now
  {
    && (forall j | 0 <= j < |now| :: now[j] in pool || fresh(now[j]))
    && forall j | 0 <= j < |now| :: now[j].arr in old(Arrays(pool)) || fresh(now[j].arr)
  }

  /** A cursor behind the end is rewound by the caller: ksCut must not meet it. */
  method CutFrom(pool: seq<KeySet>, i: nat, cutpoint: Name, ghost external: map<Key, nat>) returns (returned: KeySet)
    requires Separate(pool) && Balanced(Held(pool), external)
    requires i < |pool| && cutpoint.Valid() && cutpoint.root != []
    modifies pool[i], pool[i].arr
    ensures Separate(pool) && pool[i].arr == old(pool[i].arr)
    ensures returned.Valid() && fresh(returned) && fresh(returned.arr)
    ensures Balanced(Held(pool) + [returned.keys], external)
    ensures var marks, keys := old(MarksOf(pool[i], cutpoint)), old(pool[i].keys);
      && RunStart(marks) <= RunEnd(marks) <= |keys| && returned.keys == keys[RunStart(marks)..RunEnd(marks)]
      && Held(pool) == old(Held(pool))[i := keys[..RunStart(marks)] + keys[RunEnd(marks)..]]
    ensures Freed(external) == old(Freed(external))
  {
    hide CutOut, KeySet.Valid, Balanced, Name.Valid, Holders, Marks, Hit, PartOf, FirstWhere, RunStart, RunEnd;
    pool[i].KeysDistinct();
    ghost var marks := MarksOf(pool[i], cutpoint);
    RunBounds(marks);
    CutBalances(Held(pool), i, RunStart(marks), RunEnd(marks), external);
    if pool[i].current > pool[i].size {
      pool[i].Rewind();
    }
    returned := pool[i].Cut(cutpoint);
    assert Held(pool) == old(Held(pool))[i := pool[i].keys];
  }

  ghost function MarksOf(ks: KeySet, cutpoint: Name): (marks: seq<bool>)
    requires ks.Valid() && cutpoint.Valid()
    reads ks, ks.arr
    ensures marks == Marks(ks.keys, cutpoint)
  {
    Marks(ks.keys, cutpoint)
  }

  method DupOne(pool: seq<KeySet>, i: nat, ghost external: map<Key, nat>) returns (keyset: KeySet)
    requires Separate(pool) && Balanced(Held(pool), external) && i < |pool|
    modifies external.Keys
    ensures Separate(pool) && Held(pool) == old(Held(pool))
    ensures keyset.Valid() && fresh(keyset) && fresh(keyset.arr) && keyset.keys == old(pool[i].keys)
    ensures Balanced(Held(pool) + [keyset.keys], external)
    ensures FreedNow(external, old(Freed(external)), {})
  {
    hide KeySet.Valid, KeySet.Accounts, Balanced, Name.Valid, Holders;
    ghost var ext := map k | k in external :: Holders(Held(pool), k) + external[k];
    BalancedCounts(Held(pool), external);
    AllInside(pool, external);
    forall j | 0 <= j < |pool[i].keys|
      ensures ext[pool[i].keys[j]] > 0
    {
      HeldSomewhere(Held(pool), i, pool[i].keys[j]);
    }
    NoneFreed(pool, i, external);
    keyset := pool[i].Dup(ext);
    OneMoreBalances(Held(pool), keyset, external);
  }

  lemma BalancedCounts(held: seq<seq<Key>>, external: map<Key, nat>)
    requires Balanced(held, external)
    ensures forall k | k in external :: k.ksReference == Holders(held, k) + external[k] && (k.freed ==> k.ksReference == 0)
  {
  }

  lemma OneMoreBalances(held: seq<seq<Key>>, ks: KeySet, external: map<Key, nat>)
    requires ks.Accounts(map k | k in external :: Holders(held, k) + external[k])
    requires forall m, j | 0 <= m < |held| && 0 <= j < |held[m]| :: held[m][j] in external
    ensures Balanced(held + [ks.keys], external)
  {
    forall k | k in external
      ensures Holders(held + [ks.keys], k) == Holders(held, k) + (if k in ks.keys then 1 else 0)
    {
      HoldersOneMore(held, ks.keys, k);
    }
    assert forall j | 0 <= j < |ks.keys| :: ks.keys[j] in external;
  }

  method DelOne(pool: seq<KeySet>, i: nat, ghost external: map<Key, nat>)
    requires Separate(pool) && Balanced(Held(pool), external) && i < |pool|
    modifies pool[i], external.Keys
    ensures Separate(pool) && Held(pool) == old(Held(pool)) && pool[i].arr == old(pool[i].arr)
    ensures Balanced(Held(pool)[..i] + Held(pool)[i + 1..], external)
    ensures FreedNow(external, old(Freed(external)), Leaving(old(pool[i].keys), []))
  {
    hide KeySet.Valid, KeySet.Accounts, Balanced, Name.Valid, Holders, Others;
    AccountsOfOne(pool, i, external);
    ghost var ext := Others(Held(pool), i, external);
    OthersKeys(Held(pool), i, external);
    AllInside(pool, external);
    NoneFreed(pool, i, external);
    pool[i].Del(ext);
    assert Held(pool) == old(Held(pool));
    OneLessBalances(Held(pool), i, external);
  }

  lemma OneLessBalances(held: seq<seq<Key>>, i: nat, external: map<Key, nat>)
    requires i < |held|
    requires forall k | k in Others(held, i, external) ::
      k.ksReference == Others(held, i, external)[k] && (k.freed ==> k.ksReference == 0)
    requires forall m, j | 0 <= m < |held| && 0 <= j < |held[m]| :: held[m][j] in external
    ensures Balanced(held[..i] + held[i + 1..], external)
  {
    forall k | k in external
      ensures Holders(held[..i] + held[i + 1..], k) == Holders(held[i := []], k)
    {
      HoldersWithout(held, i, k);
      HoldersExchange(held, i, [], k);
    }
  }

  /** keyIncRef by somebody outside of any keyset. */
  method Hold(pool: seq<KeySet>, k: Key, external: map<Key, nat>) returns (outside: map<Key, nat>)
    requires Separate(pool) && Balanced(Held(pool), external) && k in external && !k.freed
    modifies k
    ensures outside == external[k := external[k] + 1]
    ensures Separate(pool) && Balanced(Held(pool), outside) && Held(pool) == old(Held(pool))
    ensures Freed(outside) == old(Freed(external))
  {
    hide Holders, KeySet.Valid;
    k.KeyIncRef();
    outside := external[k := external[k] + 1];
  }

  /** keyDecRef by somebody who incremented the counter before. */
  method LetGo(pool: seq<KeySet>, k: Key, external: map<Key, nat>) returns (outside: map<Key, nat>)
    requires Separate(pool) && Balanced(Held(pool), external) && k in external && external[k] > 0
    modifies k
    ensures outside == external[k := external[k] - 1]
    ensures Separate(pool) && Balanced(Held(pool), outside) && Held(pool) == old(Held(pool))
    ensures Freed(outside) == old(Freed(external))
  {
    hide Holders, KeySet.Valid;
    k.KeyDecRef();
    outside := external[k := external[k] - 1];
  }

  /** keyDel frees exactly the keys that no keyset and nobody outside holds. */
  method Delete(pool: seq<KeySet>, k: Key, ghost external: map<Key, nat>)
    requires Separate(pool) && Balanced(Held(pool), external) && k in external && !k.freed
    modifies k
    ensures Separate(pool) && Balanced(Held(pool), external) && Held(pool) == old(Held(pool))
    ensures FreedNow(external, old(Freed(external)), {k})
    ensures k.freed <==> external[k] == 0 && forall j | 0 <= j < |pool| :: k !in pool[j].keys
  {
    hide KeySet.Valid;
    NobodyHolds(Held(pool), k);
    k.KeyDel();
  }

  lemma {:induction false} NobodyHolds(held: seq<seq<Key>>, k: Key)
    ensures Holders(held, k) == 0 <==> forall m | 0 <= m < |held| :: k !in held[m]
  {
    if held != [] {
      NobodyHolds(held[..|held| - 1], k);
    }
  }
}
