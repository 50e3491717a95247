/** Keys with their reference counter (key.c) and the sorted, growable keyset (keyset.c, proposal.c). */
module KeySets {
  import opened Bytes
  import opened KeyNames
  import opened KeyOrder
  import opened Below

  /** Name and owner are fixed: appending locks the name. A key without a name cannot be stored. */
  class Key {
    const id: Ident
    const named: bool
    var ksReference: nat
    /** The memory was given back. The model remembers the key nevertheless. */
    var freed: bool

    constructor (id: Ident, named: bool)
      requires id.name.Valid()
      ensures this.id == id && this.named == named && ksReference == 0 && !freed
    {
      this.id, this.named, ksReference, freed := id, named, 0, false;
    }

    method KeyIncRef()
      modifies this
      ensures ksReference == old(ksReference) + 1 && freed == old(freed)
    {
      ksReference := ksReference + 1;
    }

    method KeyDecRef()
      modifies this
      ensures ksReference == (if old(ksReference) > 0 then old(ksReference) - 1 else 0) && freed == old(freed)
    {
      if ksReference > 0 {
        ksReference := ksReference - 1;
      }
    }

    /** keyDel: frees the key unless somebody still holds it. */
    method KeyDel()
      modifies this
      ensures ksReference == old(ksReference) && freed == (old(freed) || ksReference == 0)
    {
      if ksReference > 0 {
        return;
      }
      freed := true;
    }

    /** A holder lets go: the counter goes down, and a key without holders is freed. */
    method Release()
      modifies this
      ensures Released(this)
    {
      KeyDecRef();
      KeyDel();
    }
  }

  /** What ksCut takes out: the cutpoint and the keys below it, as keyIsBelowOrSame decides. */
  predicate Hit(cutpoint: Name, name: Name)
    requires cutpoint.Valid() && name.Valid()
  {
    BelowOrSameIs(cutpoint, name);
    KeyIsBelowOrSame(cutpoint, name)
  }

  function Marks(keys: seq<Key>, cutpoint: Name): (marks: seq<bool>)
    requires cutpoint.Valid() && AllNamed(keys)
    ensures |marks| == |keys| && forall i | 0 <= i < |keys| :: marks[i] == Hit(cutpoint, keys[i].id.name)
  {
    seq(|keys|, i requires 0 <= i < |keys| => Hit(cutpoint, keys[i].id.name))
  }

  /** The first position from p on that carries the mark, or the end. */
  function FirstWhere(marks: seq<bool>, p: nat, mark: bool): (r: nat)
    requires p <= |marks|
    ensures p <= r <= |marks|
    ensures forall i | p <= i < r :: marks[i] != mark
    ensures r < |marks| ==> marks[r] == mark
    decreases |marks| - p
  {
    if p == |marks| || marks[p] == mark then p else FirstWhere(marks, p + 1, mark)
  }

  /** Where the first run of hits begins and ends. */
  function RunStart(marks: seq<bool>): nat {
    FirstWhere(marks, 0, true)
  }

  function RunEnd(marks: seq<bool>): nat {
    FirstWhere(marks, RunStart(marks), false)
  }

  /** The run consists of hits. */
  lemma RunHits(keys: seq<Key>, cutpoint: Name)
    requires cutpoint.Valid() && AllNamed(keys)
    ensures var marks := Marks(keys, cutpoint);
      forall i | RunStart(marks) <= i < RunEnd(marks) :: Hit(cutpoint, keys[i].id.name)
  {
  }

  /** Entries that match the cutpoint, taken from the map. */
  ghost predicate CutOut(contents: map<Ident, Key>, cutpoint: Name, cut: map<Ident, Key>)
    requires cutpoint.Valid()
  {
    forall id | id in cut :: id in contents && cut[id] == contents[id] && id.name.Valid() && Hit(cutpoint, id.name)
  }

  lemma RunIsCutOut(keys: seq<Key>, contents: map<Ident, Key>, cutpoint: Name)
    requires cutpoint.Valid() && AllNamed(keys) && Represents(keys, contents)
    ensures var marks := Marks(keys, cutpoint);
      && RunStart(marks) <= RunEnd(marks) <= |keys|
      && CutOut(contents, cutpoint, PartOf(contents, keys[RunStart(marks)..RunEnd(marks)]))
    ensures CutOut(contents, cutpoint, PartOf(contents, []))
  {
    hide Hit, Name.Valid, RunStart, RunEnd;
    RunHits(keys, cutpoint);
    var marks := Marks(keys, cutpoint);
    RunBounds(marks);
    var from, to := RunStart(marks), RunEnd(marks);
    var part := keys[from..to];
    forall id | id in contents && contents[id] in part
      ensures id.name.Valid() && Hit(cutpoint, id.name)
    {
      var i :| 0 <= i < |part| && part[i] == contents[id];
      assert part[i] == keys[from + i];
    }
  }

  lemma RunBounds(marks: seq<bool>)
    ensures RunStart(marks) <= RunEnd(marks) <= |marks|
  {
  }

  /** One holder less; nobody left means the memory is freed. */
  twostate predicate Released(k: Key)
    reads k
  {
    && k.ksReference == (if old(k.ksReference) > 0 then old(k.ksReference) - 1 else 0)
    && k.freed == (old(k.freed) || k.ksReference == 0)
  }

  /** What appending k does to the counters: one holder more, and one less for the key it replaces. */
  twostate predicate CountsAppend(before: seq<Key>, k: Key)
    reads k, before
  {
    && (forall x | x in before && x != k :: if x.id == k.id then Released(x) else unchanged(x))
    && (k in before ==> unchanged(k))
    && (k !in before ==> k.ksReference == old(k.ksReference) + 1 && k.freed == old(k.freed))
  }

  predicate Sorted(keys: seq<Key>) {
    forall i, j | 0 <= i < j < |keys| :: CompareIdents(keys[i].id, keys[j].id) < 0
  }

  predicate AllNamed(keys: seq<Key>) {
    forall i | 0 <= i < |keys| :: keys[i].named && keys[i].id.name.Valid()
  }

  /** The keys and the finite map say the same. */
  ghost predicate Represents(keys: seq<Key>, contents: map<Ident, Key>) {
    && (forall i | 0 <= i < |keys| :: keys[i].id in contents && contents[keys[i].id] == keys[i])
    && forall id | id in contents :: contents[id] in keys && contents[id].id == id
  }

  /** p is where a key with this identity belongs: all before are smaller, all from there on greater. */
  predicate BelongsAt(keys: seq<Key>, id: Ident, p: nat) {
    && p <= |keys|
    && (forall i | 0 <= i < p :: CompareIdents(keys[i].id, id) < 0)
    && forall i | p <= i < |keys| :: CompareIdents(id, keys[i].id) < 0
  }

  const KEYSET_SIZE := 16

  /** The last identity in the order of keys. */
  ghost predicate IsGreatest(contents: map<Ident, Key>, id: Ident) {
    id in contents && forall x | x in contents :: CompareIdents(x, id) <= 0
  }

  class KeySet {
    var arr: array<Key?>
    var size: nat
    var alloc: nat
    var current: nat
    var cursor: Key?
    ghost var keys: seq<Key>
    ghost var contents: map<Ident, Key>

    ghost predicate Stored(n: nat)
      reads `arr, `size, `alloc, `keys, `contents, arr
    {
      n <= |keys| && n <= arr.Length && forall i | 0 <= i < n :: arr[i] == keys[i]
    }

    /** The array holds the keys, and a null pointer behind the last one. */
    ghost predicate Shape()
      reads `arr, `size, `alloc, `keys, `contents, arr
    {
      && |keys| == size < alloc == arr.Length && KEYSET_SIZE <= alloc
      && Stored(size) && (size > 0 ==> arr[size] == null)
    }

    ghost predicate Valid()
      reads `arr, `size, `alloc, `keys, `contents, arr
    {
      Shape() && Sorted(keys) && AllNamed(keys) && Represents(keys, contents)
    }

    /**
      Reference counting: each key counts this keyset if it is in it, and in addition its other
      holders, of which ext keeps the number. Only a key nobody holds is freed.
     */
    ghost predicate Accounts(ext: map<Key, nat>)
      reads this`keys, ext.Keys
    {
      && (forall i | 0 <= i < |keys| :: keys[i] in ext)
      && forall k | k in ext ::
           k.ksReference == ext[k] + (if k in keys then 1 else 0) && (k.freed ==> k.ksReference == 0)
    }

    constructor (alloc: nat)
      ensures Valid() && fresh(arr) && keys == [] && contents == map[]
      ensures this.alloc == (if alloc + 1 < KEYSET_SIZE then KEYSET_SIZE else alloc + 1)
      ensures cursor == null && current == 0
    {
      var n := if alloc + 1 < KEYSET_SIZE then KEYSET_SIZE else alloc + 1;
      this.alloc := n;
      arr := new Key?[n];
      size, current, cursor := 0, 0, null;
      keys, contents := [], map[];
      new;
      arr[0] := null;
    }

    /** ksSearchInternal: the position of the key, or -insertpos - 1. */
    method SearchInternal(id: Ident) returns (result: int)
      requires Valid() && id.name.Valid()
      ensures result >= 0 ==> result < size && keys[result].id == id
      ensures result < 0 ==> BelongsAt(keys, id, -result - 1) && id !in contents
    {
      hide CompareIdents, Name.Valid;
      var left, right := 0, size - 1;
      var cmpresult := 1;
      var middle, insertpos := -1, 0;
      while left <= right
        invariant 0 <= left <= right + 1 <= size && cmpresult != 0
        invariant insertpos == left || insertpos == right + 1
        invariant forall i | 0 <= i < left :: CompareIdents(keys[i].id, id) < 0
        invariant forall i | right < i < size :: CompareIdents(id, keys[i].id) < 0
        decreases right - left
      {
        middle := left + (right - left) / 2;
        cmpresult := CompareIdents(id, arr[middle].id);
        CompareIdentsAntisymmetric(id, keys[middle].id);
        if cmpresult > 0 {
          SmallerBefore(keys, middle, id);
          insertpos, left := middle + 1, middle + 1;
        } else if cmpresult == 0 {
          break;
        } else {
          GreaterAfter(keys, middle, id);
          insertpos := middle;
          right := middle - 1;
        }
      }
      if cmpresult != 0 {
        NotThere(keys, contents, id, insertpos);
      }
      result := if cmpresult == 0 then middle else -insertpos - 1;
    }

    /** ksResize, for an array that exists already: the elements that fit stay. */
    method Resize(n: nat) returns (ret: int)
      requires arr.Length == alloc
      modifies this`arr, this`alloc
      ensures arr.Length == alloc && (arr == old(arr) || fresh(arr))
      ensures n + 1 >= size && n + 1 >= KEYSET_SIZE ==> ret == 1 && alloc == n + 1
      ensures n + 1 >= size && n + 1 < KEYSET_SIZE <= old(alloc) ==> alloc == KEYSET_SIZE
      ensures ret != 1 ==> arr == old(arr)
      ensures forall i | 0 <= i < alloc && i < old(alloc) :: arr[i] == old(arr[i])
    {
      var newAlloc := n + 1;
      if newAlloc == alloc {
        return 1;
      }
      if newAlloc < size {
        return 0;
      }
      if newAlloc < KEYSET_SIZE {
        if alloc != KEYSET_SIZE {
          newAlloc := KEYSET_SIZE;
        } else {
          return 0;
        }
      }
      var bigger := new Key?[newAlloc];
      forall i | 0 <= i < newAlloc && i < alloc {
        bigger[i] := arr[i];
      }
      arr, alloc := bigger, newAlloc;
      return 1;
    }

    method SetCursor(pos: nat)
      requires pos < arr.Length
      modifies this`current, this`cursor
      ensures current == pos && cursor == arr[pos]
    {
      current := pos;
      cursor := arr[pos];
    }

    /** ksAppendKey: in the map from identities to keys, the key replaces what was there. */
    method AppendKey(toAppend: Key?, ghost ext: map<Key, nat>) returns (ret: int)
      requires Valid() && Accounts(ext)
      requires toAppend != null ==> toAppend.id.name.Valid() && toAppend in ext && !toAppend.freed
      modifies this, arr, toAppend, keys
      ensures Valid() && Accounts(ext) && (arr == old(arr) || fresh(arr))
      ensures toAppend == null || !toAppend.named ==> ret == -1 && keys == old(keys) && contents == old(contents)
      ensures toAppend != null && !toAppend.named ==> toAppend.freed == (toAppend.ksReference == 0)
      ensures toAppend != null && toAppend.named ==> ret == size && contents == old(contents)[toAppend.id := toAppend]
      ensures toAppend != null && toAppend.named ==> Adds(old(keys), toAppend, keys)
      ensures toAppend != null && toAppend.named && toAppend in old(keys) ==>
        keys == old(keys) && contents == old(contents) && current == old(current) && cursor == old(cursor)
      ensures toAppend != null && toAppend.named && toAppend !in old(keys) ==>
        current < size && keys[current] == toAppend == cursor
      ensures forall k | k in old(keys) :: k.freed <==> k !in keys && ext[k] == 0
    {
      if toAppend == null {
        return -1;
      }
      if !toAppend.named {
        UnnamedNotIn(toAppend);
        toAppend.KeyDel();
        return -1;
      }
      ret := AppendNamed(toAppend);
    }

    lemma UnnamedNotIn(k: Key)
      requires Valid() && !k.named
      ensures k !in keys
    {
    }

    method AppendNamed(toAppend: Key) returns (ret: int)
      requires Valid() && toAppend.id.name.Valid() && toAppend.named
      modifies this, arr, toAppend, keys
      ensures Valid() && (arr == old(arr) || fresh(arr))
      ensures ret == size && contents == old(contents)[toAppend.id := toAppend]
      ensures Adds(old(keys), toAppend, keys) && CountsAppend(old(keys), toAppend)
      ensures toAppend in old(keys) ==>
        keys == old(keys) && contents == old(contents) && current == old(current) && cursor == old(cursor)
      ensures toAppend !in old(keys) ==> current < size && keys[current] == toAppend == cursor
    {
      hide CompareIdents, Name.Valid, Sorted, AllNamed, Represents, Distinct, Adds;
      var result := SearchInternal(toAppend.id);
      SortedDistinct(keys);
      if result >= 0 {
        if toAppend == arr[result] {
          AddsAgain(keys, contents, toAppend);
          return size;
        }
        Replace(result, toAppend);
      } else {
        Insert(-result - 1, toAppend);
      }
      ret := size;
    }

    /** The key at the position gives way to another one with the same identity. */
    method Replace(result: nat, toAppend: Key)
      requires Valid() && result < size && keys[result].id == toAppend.id && keys[result] != toAppend && toAppend.named
      requires Distinct(keys)
      modifies this, arr, toAppend, keys[result]
      ensures Valid() && arr == old(arr)
      ensures contents == old(contents)[toAppend.id := toAppend] && keys == old(keys)[result := toAppend]
      ensures Adds(old(keys), toAppend, keys) && old(keys[result]) !in keys && toAppend !in old(keys)
      ensures forall k | k in old(keys) && k.id == toAppend.id :: k == old(keys[result])
      ensures Released(old(keys[result]))
      ensures toAppend.ksReference == old(toAppend.ksReference) + 1 && toAppend.freed == old(toAppend.freed)
      ensures current == result && cursor == toAppend
    {
      hide CompareIdents, Name.Valid, Sorted, AllNamed, Represents;
      ReplaceSorted(keys, contents, toAppend, result);
      ReplaceAdds(keys, toAppend, result);
      arr[result].Release();
      toAppend.KeyIncRef();
      arr[result] := toAppend;
      keys, contents := keys[result := toAppend], contents[toAppend.id := toAppend];
      SetCursor(result);
    }

    /** A key of a new identity: everything from its position on moves up, the terminator included. */
    method Insert(insertpos: nat, toAppend: Key)
      requires Valid() && BelongsAt(keys, toAppend.id, insertpos) && toAppend.id !in contents
      requires toAppend.named && toAppend.id.name.Valid()
      modifies this, arr, toAppend
      ensures Valid() && (arr == old(arr) || fresh(arr))
      ensures contents == old(contents)[toAppend.id := toAppend] && keys == InsertAt(old(keys), insertpos, toAppend)
      ensures Adds(old(keys), toAppend, keys) && toAppend !in old(keys)
      ensures forall k | k in old(keys) :: k.id != toAppend.id
      ensures toAppend.ksReference == old(toAppend.ksReference) + 1 && toAppend.freed == old(toAppend.freed)
      ensures current == insertpos && cursor == toAppend
    {
      hide CompareIdents, Name.Valid, Sorted, AllNamed, Represents, Adds;
      InsertSorted(keys, toAppend, insertpos);
      InsertRepresents(keys, contents, toAppend, insertpos);
      InsertAdds(keys, contents, toAppend, insertpos);
      toAppend.KeyIncRef();
      Place(insertpos, toAppend);
      contents := contents[toAppend.id := toAppend];
    }

    /** Makes room for one more element and puts the key there. */
    method Place(insertpos: nat, toAppend: Key)
      requires Shape() && insertpos <= size
      modifies this, arr
      ensures Shape() && (arr == old(arr) || fresh(arr))
      ensures keys == InsertAt(old(keys), insertpos, toAppend) && contents == old(contents)
      ensures current == insertpos && cursor == toAppend
    {
      Grow();
      if insertpos == size - 1 {
        arr[size - 1] := toAppend;
        arr[size] := null;
        SetCursor(size - 1);
      } else {
        MoveUp(insertpos, size - insertpos);
        arr[insertpos] := toAppend;
        SetCursor(insertpos);
      }
      keys := InsertAt(keys, insertpos, toAppend);
    }

    /** Room for one more key; the array doubles when it is full. */
    method Grow()
      requires Shape()
      modifies `size, `alloc, `arr
      ensures size == old(size) + 1 < alloc == arr.Length && KEYSET_SIZE <= alloc
      ensures arr == old(arr) || fresh(arr)
      ensures Stored(size - 1) && (size > 1 ==> arr[size - 1] == null)
    {
      size := size + 1;
      if size >= alloc {
        var _ := Resize(alloc * 2 - 1);
      }
    }

    /** ksAppend: the map of the other keyset overrides this one. */
    method Append(other: KeySet, ghost ext: map<Key, nat>) returns (ret: int)
      requires Valid() && Accounts(ext) && other.Valid() && (other == this || other.arr != arr)
      requires forall i | 0 <= i < |other.keys| :: other.keys[i] in ext && (other == this || ext[other.keys[i]] > 0)
      modifies this, arr, keys, other.keys
      ensures Valid() && Accounts(ext) && (arr == old(arr) || fresh(arr))
      ensures other.Valid() && other.keys == old(other.keys)
      ensures ret == size && contents == old(contents) + old(other.contents)
      ensures forall i | 0 <= i < |keys| :: keys[i] in old(keys) || keys[i] in old(other.keys)
      ensures forall k | k in old(keys) :: k.freed <==> k !in keys && ext[k] == 0
      ensures var last := LastNew(old(keys), old(other.keys), |old(other.keys)|);
        if last == -1 then current == old(current) && cursor == old(cursor)
        else current < size && keys[current] == cursor == old(other.keys)[last]
    {
      hide CompareIdents, Name.Valid, Sorted, Represents, Distinct, MergeInto, AllNamed;
      SortedDistinct(other.keys);
      MergeAll(contents, other.keys, other.contents);
      MergeNone(contents);
      if other.size <= 0 {
        assert other.keys == [];
        return size;
      }
      Reserve(other);
      AppendAll(other, ext);
      ret := size;
    }

    /** ksDup: a keyset of its own that holds the same keys. */
    method Dup(ghost ext: map<Key, nat>) returns (keyset: KeySet)
      requires Valid() && forall k | k in ext :: k.ksReference == ext[k] && (k.freed ==> ext[k] == 0)
      requires forall i | 0 <= i < |keys| :: keys[i] in ext && ext[keys[i]] > 0
      modifies keys
      ensures keyset.Valid() && keyset.Accounts(ext) && fresh(keyset) && fresh(keyset.arr)
      ensures Valid() && keys == old(keys) && keyset.keys == keys && keyset.contents == contents
      ensures forall k | k in keys :: !k.freed
    {
      hide CompareIdents, Name.Valid, Sorted, AllNamed, Represents, Distinct;
      keyset := new KeySet(alloc);
      var _ := keyset.Append(this, ext);
      assert map[] + contents == contents;
      RepresentationUnique(keyset.keys, keys, contents);
    }

    /** Only one resize in advance. */
    method Reserve(other: KeySet)
      requires Valid() && (other == this || other.arr != arr)
      modifies this`arr, this`alloc
      ensures Valid() && (arr == old(arr) || fresh(arr))
      ensures other != this ==> other.arr != arr || !fresh(arr)
    {
      var toAlloc := alloc;
      while size + other.size >= toAlloc
        invariant KEYSET_SIZE <= toAlloc && toAlloc >= alloc
      {
        toAlloc := toAlloc * 2;
      }
      var _ := Resize(toAlloc - 1);
    }

    /** The first i keys are appended: who is in the keyset, who was freed, and where the cursor stands. */
    ghost predicate AppendedSoFar(before: seq<Key>, added: seq<Key>, i: nat, ext: map<Key, nat>, c: nat, k: Key?)
      requires forall x | x in before :: x in ext
      reads `keys, `size, `current, `cursor, ext.Keys
    {
      && i <= |added| && size == |keys|
      && (forall j | 0 <= j < |keys| :: keys[j] in before || keys[j] in added)
      && (forall x | x in before :: x.freed <==> x !in keys && ext[x] == 0)
      && (forall j | i <= j < |added| :: added[j] in before <==> added[j] in keys)
      && var last := LastNew(before, added, i);
         if last == -1 then keys == before && current == c && cursor == k
         else current < size && keys[current] == cursor == added[last]
    }

    method AppendAll(other: KeySet, ghost ext: map<Key, nat>)
      requires Valid() && Accounts(ext) && other.Valid() && (other == this || other.arr != arr)
      requires forall i | 0 <= i < |other.keys| :: other.keys[i] in ext && (other == this || ext[other.keys[i]] > 0)
      modifies this, arr, keys, other.keys
      ensures Valid() && Accounts(ext) && (arr == old(arr) || fresh(arr))
      ensures other.Valid() && other.keys == old(other.keys)
      ensures contents == MergeInto(old(contents), old(other.keys))
      ensures (forall x | x in old(keys) :: x in ext) &&
        AppendedSoFar(old(keys), old(other.keys), |old(other.keys)|, ext, old(current), old(cursor))
    {
      hide KeySet.Valid, KeySet.Accounts, MergeInto, KeySet.AppendedSoFar, Distinct, AllNamed;
      MergeNone(contents);
      other.SizeIsLength();
      other.KeysDistinct();
      NothingAppended(other.keys, ext);
      ghost var added := other.keys;
      var i := 0;
      while i < other.size
        invariant 0 <= i <= other.size == |other.keys|
        invariant Valid() && Accounts(ext) && (arr == old(arr) || fresh(arr))
        invariant other.Valid() && other.keys == added && (other == this || other.arr != arr)
        invariant AppendedSoFar(old(keys), added, i, ext, old(current), old(cursor))
        invariant forall j | 0 <= j < |keys| :: keys[j] in old(keys) || keys[j] in added
        invariant contents == MergeInto(old(contents), added[..i])
      {
        MergeOne(old(contents), added, i);
        AppendStep(other, i, ext, old(keys), added, old(current), old(cursor));
        i := i + 1;
      }
      assert added[..i] == added;
    }

    lemma NothingAppended(added: seq<Key>, ext: map<Key, nat>)
      requires Valid() && Accounts(ext)
      ensures (forall x | x in keys :: x in ext) && AppendedSoFar(keys, added, 0, ext, current, cursor)
    {
      hide CompareIdents, Name.Valid, Sorted, Represents, AllNamed;
    }

    method AppendStep(other: KeySet, i: nat, ghost ext: map<Key, nat>,
                      ghost before: seq<Key>, ghost added: seq<Key>, ghost c: nat, ghost k: Key?)
      requires Valid() && Accounts(ext) && other.Valid() && (other == this || other.arr != arr)
      requires i < |other.keys| && other.keys[i] in ext && (other == this || ext[other.keys[i]] > 0)
      requires (forall x | x in before :: x in ext) && Distinct(added) && added == other.keys
      requires AppendedSoFar(before, added, i, ext, c, k)
      modifies this, arr, keys, other.keys[i]
      ensures Valid() && Accounts(ext) && (arr == old(arr) || fresh(arr))
      ensures other.Valid() && other.keys == added && other.size == |other.keys|
      ensures other == this || other.arr != arr
      ensures contents == old(contents)[other.keys[i].id := other.keys[i]]
      ensures AppendedSoFar(before, added, i + 1, ext, c, k)
      ensures forall j | 0 <= j < |keys| :: keys[j] in before || keys[j] in added
    {
      hide KeySet.Valid, KeySet.Accounts;
      assert added[i] in before <==> added[i] in keys;
      AppendNext(other, i, ext);
      SizeIsLength();
    }

    /** One round of the loop of ksAppend. */
    method AppendNext(other: KeySet, i: nat, ghost ext: map<Key, nat>)
      requires Valid() && Accounts(ext) && other.Valid() && (other == this || other.arr != arr)
      requires i < |other.keys| && other.keys[i] in ext && (other == this || ext[other.keys[i]] > 0)
      modifies this, arr, keys, other.keys[i]
      ensures Valid() && Accounts(ext) && (arr == old(arr) || fresh(arr))
      ensures other.Valid() && other.keys == old(other.keys) && other.size == |other.keys|
      ensures other == this || other.arr != arr
      ensures contents == old(contents)[other.keys[i].id := other.keys[i]]
      ensures forall j | 0 <= j < |keys| :: keys[j] in old(keys) || keys[j] == other.keys[i]
      ensures forall x | x in old(keys) && x.id != other.keys[i].id :: x in keys
      ensures forall k | k in old(keys) :: k.freed <==> k !in keys && ext[k] == 0
      ensures if other.keys[i] in old(keys) then keys == old(keys) && current == old(current) && cursor == old(cursor)
        else current < size && keys[current] == cursor == other.keys[i]
    {
      hide CompareIdents, Name.Valid, Sorted, Represents, Distinct;
      var _ := AppendKey(other.arr[i], ext);
    }

    lemma SizeIsLength()
      requires Valid()
      ensures size == |keys|
    {
    }

    lemma ValidShape()
      requires Valid()
      ensures Shape() && size == |keys|
    {
    }

    lemma ValidSorted()
      requires Valid()
      ensures Sorted(keys) && AllNamed(keys) && Represents(keys, contents)
    {
    }

    lemma AllIn(ext: map<Key, nat>)
      requires Accounts(ext)
      ensures forall i | 0 <= i < |keys| :: keys[i] in ext
    {
    }

    lemma LastIsGreatest()
      requires Valid() && keys != []
      ensures IsGreatest(contents, keys[|keys| - 1].id)
    {
      hide CompareIdents, Name.Valid;
      var last := keys[|keys| - 1];
      CompareIdentsAntisymmetric(last.id, last.id);
      forall x | x in contents
        ensures CompareIdents(x, last.id) <= 0
      {
        var i :| 0 <= i < |keys| && keys[i] == contents[x];
      }
    }

    lemma KeysDistinct()
      requires Valid()
      ensures Distinct(keys) && AllNamed(keys)
    {
      SortedDistinct(keys);
    }

    /** ksPop: the last, that is greatest, key leaves the keyset and is not freed. */
    method Pop(ghost ext: map<Key, nat>) returns (ret: Key?)
      requires Valid() && Accounts(ext)
      modifies this, arr, keys
      ensures Valid() && Accounts(ext) && (arr == old(arr) || fresh(arr))
      ensures old(size) == 0 ==> ret == null && keys == old(keys) && contents == old(contents)
      ensures old(size) > 0 ==> ret == old(keys)[old(size) - 1] && !ret.freed
      ensures old(size) > 0 ==> keys == old(keys)[..old(size) - 1] && contents == old(contents) - {ret.id}
      ensures ret == null <==> old(contents) == map[]
      ensures ret != null ==> ret in old(keys) && IsGreatest(old(contents), ret.id) && old(contents)[ret.id] == ret
      ensures forall k | k in old(keys) :: !k.freed
      ensures current == old(current) && cursor == old(cursor)
    {
      hide CompareIdents, Name.Valid, Sorted, AllNamed, Represents, Distinct, IsGreatest;
      EmptyAlike(keys, contents);
      if size <= 0 {
        return null;
      }
      LastIsGreatest();
      EntryOf(keys, contents, size - 1);
      RemoveLast(keys, contents);
      contents := contents - {keys[size - 1].id};
      ret := PopLast();
    }

    /** The array part of ksPop, which also shrinks an array that is less than half full. */
    method PopLast() returns (ret: Key)
      requires Shape() && size > 0
      modifies this`arr, this`alloc, this`size, this`keys, arr, keys[size - 1]
      ensures Shape() && (arr == old(arr) || fresh(arr))
      ensures ret == old(keys)[old(size) - 1] && keys == old(keys)[..old(size) - 1]
      ensures ret.ksReference == (if old(ret.ksReference) > 0 then old(ret.ksReference) - 1 else 0)
      ensures ret.freed == old(ret.freed)
    {
      size := size - 1;
      if size + 1 < alloc / 2 {
        var _ := Resize(alloc / 2 - 1);
      }
      ret := arr[size];
      arr[size] := null;
      ret.KeyDecRef();
      keys := keys[..size];
    }

    method Rewind()
      modifies this`current, this`cursor
      ensures current == 0 && cursor == null
    {
      cursor, current := null, 0;
    }

    /** Where the next call of ksNext will look. */
    ghost function NextPosition(): nat
      reads this
    {
      if cursor == null then current else current + 1
    }

    /** ksNext: moves the cursor on and returns its key; behind the last key it stays null. */
    method Next() returns (k: Key?)
      requires Shape()
      modifies this`current, this`cursor
      ensures old(current) >= size ==> k == null && current == old(current) && cursor == old(cursor)
      ensures old(current) < size ==> current == old(NextPosition()) && cursor == k
      ensures old(current) < size ==> k == if current < size then keys[current] else null
    {
      if size == 0 {
        return null;
      }
      if current >= size {
        return null;
      }
      if cursor != null {
        current := current + 1;
      }
      cursor := arr[current];
      k := cursor;
    }

    /** elektraKsPrev. */
    method Prev() returns (k: Key?)
      requires Shape() && current <= size
      modifies this`current, this`cursor
      ensures size == 0 ==> k == null && current == old(current) && cursor == old(cursor)
      ensures size > 0 && old(current) == 0 ==> k == null && current == 0 && cursor == null
      ensures size > 0 && old(current) > 0 ==> current == old(current) - 1 && cursor == keys[current] == k
    {
      if size == 0 {
        return null;
      }
      if current <= 0 {
        Rewind();
        return null;
      }
      current := current - 1;
      cursor := arr[current];
      k := cursor;
    }

    /** ksGetCursor: -1 when there is no current key. */
    method GetCursor() returns (c: int)
      ensures c == if cursor == null then -1 else current
    {
      c := if cursor == null then -1 else current;
    }

    /** ksClear: every key loses this holder, those that have no other are freed, the array is new. */
    method Clear(ghost ext: map<Key, nat>)
      requires Valid() && Accounts(ext)
      modifies this, arr, keys
      ensures Valid() && Accounts(ext) && keys == [] && contents == map[]
      ensures forall k | k in old(keys) :: k.freed <==> ext[k] == 0
      ensures fresh(arr) && alloc == KEYSET_SIZE && cursor == null && current == old(size)
    {
      hide CompareIdents, Name.Valid, Sorted, AllNamed, Represents;
      SortedDistinct(keys);
      ReleaseAll(ext);
      arr, alloc, size := new Key?[KEYSET_SIZE], KEYSET_SIZE, 0;
      keys, contents := [], map[];
      NothingStored();
    }

    /** ksDel: like ksClear, and nobody uses the keyset any more. */
    method Del(ghost ext: map<Key, nat>)
      requires Valid() && Accounts(ext)
      modifies this`current, this`cursor, keys
      ensures forall k | k in ext :: k.ksReference == ext[k] && (k.freed ==> k.ksReference == 0)
      ensures forall k | k in old(keys) :: k.freed <==> ext[k] == 0
    {
      SortedDistinct(keys);
      ReleaseAll(ext);
    }

    lemma NothingStored()
      requires keys == [] && contents == map[]
      ensures Sorted(keys) && AllNamed(keys) && Represents(keys, contents)
    {
    }

    /** The first n keys are released, the others still count this keyset. */
    ghost predicate ReleasedUpTo(n: nat, ext: map<Key, nat>)
      reads this`keys, ext.Keys
    {
      && n <= |keys|
      && (forall i | 0 <= i < |keys| :: keys[i] in ext)
      && (forall k | k in ext ::
           k.ksReference == ext[k] + (if k in keys[n..] then 1 else 0) && (k.freed ==> k.ksReference == 0))
      && forall k | k in ext && k in keys[..n] :: k.freed <==> ext[k] == 0
    }

    /** The loop of ksClose. */
    method ReleaseAll(ghost ext: map<Key, nat>)
      requires Shape() && Distinct(keys) && Accounts(ext)
      modifies this`current, this`cursor, keys
      ensures forall k | k in ext :: k.ksReference == ext[k] && (k.freed ==> k.ksReference == 0)
      ensures forall k | k in keys :: k.freed <==> ext[k] == 0
      ensures current == size && cursor == null
    {
      hide Distinct, KeySet.Accounts, KeySet.ReleasedUpTo;
      NoneReleased(ext);
      Rewind();
      ghost var n := 0;
      while true
        invariant 0 <= n <= size && Shape() && ReleasedUpTo(n, ext)
        invariant if n == 0 then cursor == null && current == 0 else current == n - 1 && cursor == keys[n - 1]
        decreases size - n
      {
        var k := Next();
        if k == null {
          break;
        }
        ReleaseOne(k, n, ext);
        n := n + 1;
      }
      AllReleased(ext);
    }

    lemma NoneReleased(ext: map<Key, nat>)
      requires Accounts(ext)
      ensures ReleasedUpTo(0, ext)
    {
      assert keys[0..] == keys && keys[..0] == [];
    }

    lemma AllReleased(ext: map<Key, nat>)
      requires ReleasedUpTo(|keys|, ext)
      ensures forall k | k in ext :: k.ksReference == ext[k] && (k.freed ==> k.ksReference == 0)
      ensures forall k | k in keys :: k in ext && (k.freed <==> ext[k] == 0)
    {
      assert keys[..|keys|] == keys && keys[|keys|..] == [];
    }

    method ReleaseOne(k: Key, ghost n: nat, ghost ext: map<Key, nat>)
      requires ReleasedUpTo(n, ext) && Distinct(keys) && n < |keys| && k == keys[n]
      modifies k
      ensures ReleasedUpTo(n + 1, ext)
    {
      Divide(keys, n);
      k.Release();
    }

    /** ksCopyInternal: the keys from a position on move to an earlier position. */
    method CopyInternal(to: nat, from: nat)
      requires Shape() && to <= from <= size && size > 0
      modifies this`size, this`keys, arr
      ensures Shape() && keys == old(keys)[..to] + old(keys)[from..] && (size < arr.Length && arr[size] == null)
    {
      var length := size - from;
      size := size - (from - to);
      forall i | 0 <= i < length {
        arr[to + i] := arr[from + i];
      }
      arr[size] := null;
      keys := keys[..to] + keys[from..];
    }

    /** A keyset of its own for a stretch of keys, which are not counted here. */
    constructor Copy(source: array<Key?>, from: nat, to: nat, ghost all: seq<Key>, ghost entries: map<Ident, Key>)
      requires from <= to <= |all| && to <= source.Length && forall i | from <= i < to :: source[i] == all[i]
      requires Sorted(all[from..to]) && AllNamed(all[from..to]) && Represents(all[from..to], entries)
      ensures Valid() && fresh(arr) && keys == all[from..to] && contents == entries
      ensures cursor == null && current == 0
    {
      var newsize := to - from;
      var n := if newsize + 1 < KEYSET_SIZE then KEYSET_SIZE else newsize + 1;
      alloc := n;
      arr := new Key?[n];
      size, current, cursor := newsize, 0, null;
      keys, contents := all[from..to], entries;
      new;
      forall i | 0 <= i < newsize {
        arr[i] := source[from + i];
      }
      arr[newsize] := null;
    }

    /**
      ksCut at a cutpoint with a namespace: the first run of hits moves into a new keyset. A cursor behind
      the end of the keyset is excluded unless the run is the end, or nothing is found: in the other cases
      the code would set it to what lies behind the keys that are left.
     */
    method Cut(cutpoint: Name) returns (returned: KeySet)
      requires Valid() && cutpoint.Valid() && cutpoint.root != []
      requires current <= size || RunEnd(Marks(keys, cutpoint)) == size
      modifies this, arr
      ensures Valid() && arr == old(arr) && returned.Valid() && fresh(returned) && fresh(returned.arr)
      ensures var marks := Marks(old(keys), cutpoint);
        var found, it := RunStart(marks), RunEnd(marks);
        && returned.keys == old(keys)[found..it] && keys == old(keys)[..found] + old(keys)[it..]
        && (found == old(size) || old(current) < found ==> current == old(current) && cursor == old(cursor))
        && (found <= old(current) < it ==> NextPosition() == found)
        && (it <= old(current) && found < it < old(size) ==>
              current == old(current) - (it - found) && cursor == (if current < size then keys[current] else null))
        && (found < it == old(size) <= old(current) ==> current == 0 && cursor == null)
      ensures returned.contents == PartOf(old(contents), returned.keys)
      ensures contents == old(contents) - returned.contents.Keys
      ensures CutOut(old(contents), cutpoint, returned.contents)
    {
      hide CompareIdents, Name.Valid, Sorted, Represents, Distinct, Hit, Marks, CutOut;
      RunIsCutOut(keys, contents, cutpoint);
      ghost var marks := Marks(keys, cutpoint);
      var it := 0;
      while it < size && !Hit(cutpoint, arr[it].id.name)
        invariant 0 <= it <= size && FirstWhere(marks, it, true) == RunStart(marks)
      {
        it := it + 1;
      }
      if it == size {
        returned := new KeySet(0);
        return;
      }
      var found := it;
      while it < size && Hit(cutpoint, arr[it].id.name)
        invariant found <= it <= size && FirstWhere(marks, it, false) == RunEnd(marks)
      {
        it := it + 1;
      }
      returned := CutRun(found, it);
    }

    /** Moves a run of keys into a keyset of its own. */
    method CutRun(found: nat, it: nat) returns (returned: KeySet)
      requires Valid() && found < it <= size && (current <= size || it == size)
      modifies this, arr
      ensures Valid() && arr == old(arr) && returned.Valid() && fresh(returned) && fresh(returned.arr)
      ensures returned.keys == old(keys)[found..it] && keys == old(keys)[..found] + old(keys)[it..]
      ensures returned.contents == PartOf(old(contents), returned.keys)
      ensures contents == old(contents) - returned.contents.Keys
      ensures old(current) < found ==> current == old(current) && cursor == old(cursor)
      ensures found <= old(current) < it ==> NextPosition() == found
      ensures it <= old(current) && it < old(size) ==>
        current == old(current) - (it - found) && cursor == if current < size then keys[current] else null
      ensures it == old(size) <= old(current) ==> current == 0 && cursor == null
    {
      hide CompareIdents, Name.Valid, Sorted, Represents, Distinct, PartOf, AllNamed;
      DivideRun(keys, contents, found, it);
      ghost var inside := PartOf(contents, keys[found..it]);
      returned := new KeySet.Copy(arr, found, it, keys, inside);
      CutCursor(found, it);
      contents := contents - inside.Keys;
    }

    /** The cursor corrections of ksCut around the move. */
    method CutCursor(found: nat, it: nat)
      requires Shape() && found < it <= size && (current <= size || it == size)
      modifies this, arr
      ensures Shape() && keys == old(keys)[..found] + old(keys)[it..] && contents == old(contents) && arr == old(arr)
      ensures old(current) < found ==> current == old(current) && cursor == old(cursor)
      ensures found <= old(current) < it ==> NextPosition() == found
      ensures it <= old(current) && it < old(size) ==>
        current == old(current) - (it - found) && cursor == if current < size then keys[current] else null
      ensures it == old(size) <= old(current) ==> current == 0 && cursor == null
    {
      var setCursor := false;
      if found <= current < it {
        if found == 0 {
          Rewind();
        } else {
          current := found - 1;
          setCursor := true;
        }
      }
      if current >= it {
        if it >= size {
          Rewind();
        } else {
          current := found + current - it;
          setCursor := true;
        }
      }
      CopyInternal(found, it);
      if setCursor {
        cursor := arr[current];
      }
    }

    /** elektraKsPopAtCursor: the key at any position leaves, the others close up. */
    method PopAtCursor(pos: int, ghost ext: map<Key, nat>) returns (ret: Key?)
      requires Valid() && Accounts(ext)
      modifies this, arr, keys
      ensures Valid() && Accounts(ext) && (arr == old(arr) || fresh(arr))
      ensures pos < 0 || pos >= old(size) ==>
        ret == null && keys == old(keys) && contents == old(contents) && current == old(current) && cursor == old(cursor)
      ensures 0 <= pos < old(size) ==> ret == old(keys)[pos] && !ret.freed
      ensures 0 <= pos < old(size) ==> keys == RemoveAt(old(keys), pos) && contents == old(contents) - {ret.id}
      ensures 0 <= pos < old(size) ==> current == 0 && cursor == null
      ensures ret != null ==> ret in old(keys) && ret.id in old(contents) && old(contents)[ret.id] == ret
      ensures contents == if ret == null then old(contents) else old(contents) - {ret.id}
      ensures forall k | k in old(keys) :: !k.freed
    {
      hide CompareIdents, Name.Valid, Sorted, AllNamed, Represents, Distinct;
      if pos < 0 || pos >= size {
        return null;
      }
      SortedDistinct(keys);
      RemoveSorted(keys, pos);
      RemoveRepresents(keys, contents, pos);
      RemoveMembers(keys, pos);
      EntryOf(keys, contents, pos);
      contents := contents - {keys[pos].id};
      ret := TakeOut(pos);
    }

    /** The array part: to the end, and popped there. */
    method TakeOut(pos: nat) returns (ret: Key)
      requires Shape() && pos < size
      modifies this, arr, keys[pos]
      ensures Shape() && (arr == old(arr) || fresh(arr)) && contents == old(contents)
      ensures ret == old(keys)[pos] && keys == RemoveAt(old(keys), pos)
      ensures ret.ksReference == (if old(ret.ksReference) > 0 then old(ret.ksReference) - 1 else 0)
      ensures ret.freed == old(ret.freed)
      ensures current == 0 && cursor == null
    {
      ghost var all := keys;
      if pos != size - 1 {
        MoveToEnd(pos);
      }
      Rewind();
      ret := PopLast();
      assert keys == RemoveAt(all, pos);
    }

    /** The key at the position goes behind the last one, for popping it there. */
    method MoveToEnd(c: nat)
      requires Shape() && c < size - 1
      modifies this`keys, arr
      ensures Shape() && keys == RemoveAt(old(keys), c) + [old(keys)[c]]
    {
      var k := arr[c];
      forall i | c <= i < size - 1 {
        arr[i] := arr[i + 1];
      }
      arr[size - 1] := k;
      keys := RemoveAt(keys, c) + [keys[c]];
    }

    /** memmove by one position upwards. */
    method MoveUp(from: nat, n: nat)
      requires from + n < arr.Length
      modifies arr
      ensures forall i | 0 <= i < arr.Length ::
        arr[i] == if from < i <= from + n then old(arr[i - 1]) else old(arr[i])
    {
      forall i | from < i <= from + n {
        arr[i] := arr[i - 1];
      }
    }
  }

  /** The last of the first n keys that is not in the keyset yet, or -1. */
  function LastNew(before: seq<Key>, added: seq<Key>, n: nat): (last: int)
    requires n <= |added|
    ensures -1 <= last < n
    ensures last >= 0 ==> added[last] !in before
    ensures forall j | last < j < n :: added[j] in before
  {
    if n == 0 then -1 else if added[n - 1] !in before then n - 1 else LastNew(before, added, n - 1)
  }

  /** Who is in the keyset after appending k: k, and whoever was there under another identity. */
  predicate Adds(before: seq<Key>, k: Key, after: seq<Key>) {
    && k in after
    && (forall x | x in after :: x in before || x == k)
    && (forall x | x in before && x.id != k.id :: x in after)
    && (forall x | x in after && x.id == k.id :: x == k)
  }

  lemma InsertAdds(keys: seq<Key>, contents: map<Ident, Key>, k: Key, p: nat)
    requires p <= |keys| && Represents(keys, contents) && k.id !in contents
    ensures Adds(keys, k, InsertAt(keys, p, k)) && k !in keys && forall x | x in keys :: x.id != k.id
  {
    var r := InsertAt(keys, p, k);
    assert r[p] == k;
    forall x | x in keys
      ensures x in r && x.id != k.id
    {
      var i :| 0 <= i < |keys| && keys[i] == x;
      assert r[if i < p then i else i + 1] == x;
    }
  }

  lemma ReplaceAdds(keys: seq<Key>, k: Key, p: nat)
    requires p < |keys| && Distinct(keys) && keys[p].id == k.id && keys[p] != k
    ensures Adds(keys, k, keys[p := k]) && keys[p] !in keys[p := k] && k !in keys
    ensures forall x | x in keys && x.id == k.id :: x == keys[p]
  {
    var r := keys[p := k];
    assert r[p] == k;
    forall x | x in keys && x.id != k.id
      ensures x in r
    {
      var i :| 0 <= i < |keys| && keys[i] == x;
      assert r[i] == x;
    }
  }

  lemma AddsAgain(keys: seq<Key>, contents: map<Ident, Key>, k: Key)
    requires Represents(keys, contents) && Distinct(keys) && k in keys
    ensures Adds(keys, k, keys) && contents[k.id := k] == contents
  {
  }

  /** The map after the given keys were appended one by one. */
  function MergeInto(m: map<Ident, Key>, added: seq<Key>): map<Ident, Key> {
    if added == [] then m
    else MergeInto(m, added[..|added| - 1])[added[|added| - 1].id := added[|added| - 1]]
  }

  lemma MergeNone(m: map<Ident, Key>)
    ensures MergeInto(m, []) == m
  {
  }

  lemma MergeOne(m: map<Ident, Key>, added: seq<Key>, i: nat)
    requires i < |added|
    ensures MergeInto(m, added[..i + 1]) == MergeInto(m, added[..i])[added[i].id := added[i]]
  {
    assert added[..i + 1][..i] == added[..i];
  }

  lemma {:induction false} MergeIntoAt(m: map<Ident, Key>, added: seq<Key>, id: Ident)
    requires Distinct(added)
    ensures id in MergeInto(m, added) <==> id in m || exists i | 0 <= i < |added| :: added[i].id == id
    ensures forall i | 0 <= i < |added| && added[i].id == id ::
      id in MergeInto(m, added) && MergeInto(m, added)[id] == added[i]
    ensures (forall i | 0 <= i < |added| :: added[i].id != id) && id in m ==> MergeInto(m, added)[id] == m[id]
  {
    if added != [] {
      MergeIntoAt(m, added[..|added| - 1], id);
    }
  }

  /** Appending all keys of a keyset is adding its map. */
  lemma MergeAll(m: map<Ident, Key>, added: seq<Key>, contents: map<Ident, Key>)
    requires Distinct(added) && Represents(added, contents)
    ensures MergeInto(m, added) == m + contents
  {
    var r := MergeInto(m, added);
    forall id
      ensures id in r <==> id in m + contents
      ensures id in r ==> r[id] == (m + contents)[id]
    {
      MergeIntoAt(m, added, id);
      if id in contents {
        var i :| 0 <= i < |added| && added[i] == contents[id];
      }
    }
  }

  lemma SmallerBefore(keys: seq<Key>, m: nat, id: Ident)
    requires Sorted(keys) && AllNamed(keys) && id.name.Valid()
    requires m < |keys| && CompareIdents(keys[m].id, id) < 0
    ensures forall i | 0 <= i <= m :: CompareIdents(keys[i].id, id) < 0
  {
    hide CompareIdents, Name.Valid;
    forall i | 0 <= i < m
      ensures CompareIdents(keys[i].id, id) < 0
    {
      CompareIdentsTransitive(keys[i].id, keys[m].id, id);
    }
  }

  lemma GreaterAfter(keys: seq<Key>, m: nat, id: Ident)
    requires Sorted(keys) && AllNamed(keys) && id.name.Valid()
    requires m < |keys| && CompareIdents(id, keys[m].id) < 0
    ensures forall i | m <= i < |keys| :: CompareIdents(id, keys[i].id) < 0
  {
    hide CompareIdents, Name.Valid;
    forall i | m < i < |keys|
      ensures CompareIdents(id, keys[i].id) < 0
    {
      CompareIdentsTransitive(id, keys[m].id, keys[i].id);
    }
  }

  lemma NotThere(keys: seq<Key>, contents: map<Ident, Key>, id: Ident, p: nat)
    requires Represents(keys, contents) && AllNamed(keys) && id.name.Valid()
    requires BelongsAt(keys, id, p)
    ensures id !in contents
  {
    if id in contents {
      FoundNotMissing(keys, contents, id, p);
    }
  }

  lemma FoundNotMissing(keys: seq<Key>, contents: map<Ident, Key>, id: Ident, p: nat)
    requires Represents(keys, contents) && AllNamed(keys) && id.name.Valid()
    requires id in contents
    ensures !BelongsAt(keys, id, p)
  {
    hide CompareIdents, Name.Valid;
    CompareIdentsAntisymmetric(id, id);
    var i :| 0 <= i < |keys| && keys[i] == contents[id];
  }

  // ---------- sequences of keys ----------

  function InsertAt(keys: seq<Key>, p: nat, k: Key): (r: seq<Key>)
    requires p <= |keys|
    ensures |r| == |keys| + 1
    ensures forall i | 0 <= i < |r| :: r[i] == if i < p then keys[i] else if i == p then k else keys[i - 1]
  {
    keys[..p] + [k] + keys[p..]
  }

  function RemoveAt(keys: seq<Key>, p: nat): (r: seq<Key>)
    requires p < |keys|
    ensures |r| == |keys| - 1
    ensures forall i | 0 <= i < |r| :: r[i] == if i < p then keys[i] else keys[i + 1]
  {
    keys[..p] + keys[p + 1..]
  }

  /** Inserting where it belongs keeps the order. */
  lemma InsertSorted(keys: seq<Key>, k: Key, p: nat)
    requires Sorted(keys) && AllNamed(keys)
    requires k.named && k.id.name.Valid() && BelongsAt(keys, k.id, p)
    ensures Sorted(InsertAt(keys, p, k)) && AllNamed(InsertAt(keys, p, k))
  {
    hide CompareIdents, Name.Valid;
  }

  /** Inserting a key of a new identity adds one entry to the map. */
  lemma InsertRepresents(keys: seq<Key>, contents: map<Ident, Key>, k: Key, p: nat)
    requires Represents(keys, contents) && k.id !in contents && p <= |keys|
    ensures Represents(InsertAt(keys, p, k), contents[k.id := k])
  {
    var r := InsertAt(keys, p, k);
    assert r[p] == k;
    forall id | id in contents
      ensures contents[id] in r
    {
      var i :| 0 <= i < |keys| && keys[i] == contents[id];
      assert r[if i < p then i else i + 1] == keys[i];
    }
  }

  lemma ReplaceSorted(keys: seq<Key>, contents: map<Ident, Key>, k: Key, p: nat)
    requires Sorted(keys) && AllNamed(keys) && Represents(keys, contents)
    requires p < |keys| && keys[p].id == k.id && k.named
    ensures Sorted(keys[p := k]) && AllNamed(keys[p := k]) && Represents(keys[p := k], contents[k.id := k])
  {
    hide CompareIdents, Name.Valid;
    var r := keys[p := k];
    assert r[p] == k;
    SortedDistinct(keys);
    forall id | id in contents && id != k.id
      ensures contents[id] in r
    {
      var i :| 0 <= i < |keys| && keys[i] == contents[id];
      assert r[i] == keys[i];
    }
  }

  /** No two positions hold keys of the same identity. */
  predicate Distinct(keys: seq<Key>) {
    forall i, j | 0 <= i < |keys| && 0 <= j < |keys| && keys[i].id == keys[j].id :: i == j
  }

  lemma SortedDistinct(keys: seq<Key>)
    requires Sorted(keys) && AllNamed(keys)
    ensures Distinct(keys)
  {
    hide CompareIdents, Name.Valid;
    forall i, j | 0 <= i < j < |keys|
      ensures keys[i].id != keys[j].id
    {
      CompareIdentsAntisymmetric(keys[i].id, keys[j].id);
    }
  }

  lemma RemoveSorted(keys: seq<Key>, p: nat)
    requires Sorted(keys) && AllNamed(keys) && p < |keys|
    ensures Sorted(RemoveAt(keys, p)) && AllNamed(RemoveAt(keys, p))
  {
    hide CompareIdents, Name.Valid;
  }

  /** Taking the key at position p out of the sequence takes one entry out of the map. */
  lemma RemoveRepresents(keys: seq<Key>, contents: map<Ident, Key>, p: nat)
    requires Distinct(keys) && Represents(keys, contents) && p < |keys|
    ensures Represents(RemoveAt(keys, p), contents - {keys[p].id}) && keys[p] !in RemoveAt(keys, p)
  {
    var r := RemoveAt(keys, p);
    forall id | id in contents - {keys[p].id}
      ensures contents[id] in r
    {
      var i :| 0 <= i < |keys| && keys[i] == contents[id];
      RemoveKeeps(keys, p, i);
    }
    assert forall j | 0 <= j < |r| :: r[j] != keys[p];
  }

  lemma RemoveKeeps(keys: seq<Key>, p: nat, i: nat)
    requires p < |keys| && i < |keys| && i != p
    ensures keys[i] in RemoveAt(keys, p)
  {
    assert RemoveAt(keys, p)[if i < p then i else i - 1] == keys[i];
  }

  /** The key at position n belongs to the second part, then to the first. */
  lemma Divide(keys: seq<Key>, n: nat)
    requires Distinct(keys) && n < |keys|
    ensures forall k :: k in keys[n..] <==> k == keys[n] || k in keys[n + 1..]
    ensures forall k :: k in keys[..n + 1] <==> k == keys[n] || k in keys[..n]
    ensures keys[n] !in keys[n + 1..] && keys[n] !in keys[..n]
  {
    assert keys[n..] == [keys[n]] + keys[n + 1..];
    assert keys[..n + 1] == keys[..n] + [keys[n]];
  }

  /** The entries of the map whose keys are in the sequence. */
  ghost function PartOf(contents: map<Ident, Key>, part: seq<Key>): map<Ident, Key> {
    map id | id in contents && contents[id] in part :: contents[id]
  }

  /** The keys around a stretch. */
  function Around(keys: seq<Key>, from: nat, to: nat): (r: seq<Key>)
    requires from <= to <= |keys|
    ensures |r| == |keys| - (to - from)
    ensures forall i | 0 <= i < |r| :: r[i] == keys[if i < from then i else i + (to - from)]
  {
    keys[..from] + keys[to..]
  }

  /** A stretch of the keys stands for its entries of the map, and the keys around it for the others. */
  lemma DivideRun(keys: seq<Key>, contents: map<Ident, Key>, from: nat, to: nat)
    requires Sorted(keys) && AllNamed(keys) && Represents(keys, contents) && from <= to <= |keys|
    ensures var part := keys[from..to];
      Sorted(part) && AllNamed(part) && Represents(part, PartOf(contents, part))
    ensures var rest := keys[..from] + keys[to..];
      Sorted(rest) && AllNamed(rest) && Represents(rest, contents - PartOf(contents, keys[from..to]).Keys)
  {
    hide CompareIdents, Name.Valid, Sorted, AllNamed, Represents, PartOf, Distinct;
    StretchSorted(keys, from, to);
    AroundSorted(keys, from, to);
    StretchRepresents(keys, contents, from, to);
    SortedDistinct(keys);
    AroundRepresents(keys, contents, from, to);
  }

  lemma StretchSorted(keys: seq<Key>, from: nat, to: nat)
    requires Sorted(keys) && AllNamed(keys) && from <= to <= |keys|
    ensures Sorted(keys[from..to]) && AllNamed(keys[from..to])
  {
    hide CompareIdents, Name.Valid;
    assert forall i | 0 <= i < to - from :: keys[from..to][i] == keys[from + i];
  }

  lemma AroundSorted(keys: seq<Key>, from: nat, to: nat)
    requires Sorted(keys) && AllNamed(keys) && from <= to <= |keys|
    ensures Sorted(Around(keys, from, to)) && AllNamed(Around(keys, from, to))
  {
    hide CompareIdents, Name.Valid;
  }

  lemma StretchRepresents(keys: seq<Key>, contents: map<Ident, Key>, from: nat, to: nat)
    requires Represents(keys, contents) && from <= to <= |keys|
    ensures Represents(keys[from..to], PartOf(contents, keys[from..to]))
  {
    assert forall i | 0 <= i < to - from :: keys[from..to][i] == keys[from + i];
  }

  lemma AroundRepresents(keys: seq<Key>, contents: map<Ident, Key>, from: nat, to: nat)
    requires Represents(keys, contents) && Distinct(keys) && from <= to <= |keys|
    ensures Represents(Around(keys, from, to), contents - PartOf(contents, keys[from..to]).Keys)
  {
    var part, rest := keys[from..to], Around(keys, from, to);
    forall id | id in contents && contents[id] !in part
      ensures contents[id] in rest
    {
      var i :| 0 <= i < |keys| && keys[i] == contents[id];
      InOneOfThem(keys, from, to, i);
    }
    forall i | 0 <= i < |rest|
      ensures rest[i] !in part
    {
      var j := if i < from then i else i + (to - from);
      assert rest[i] == keys[j];
      assert forall m | 0 <= m < |part| :: part[m] == keys[from + m];
    }
  }

  lemma InOneOfThem(keys: seq<Key>, from: nat, to: nat, i: nat)
    requires from <= to <= |keys| && i < |keys|
    ensures keys[i] in keys[from..to] || keys[i] in Around(keys, from, to)
  {
    if from <= i < to {
      assert keys[from..to][i - from] == keys[i];
    } else {
      assert Around(keys, from, to)[if i < from then i else i - (to - from)] == keys[i];
    }
  }

  lemma RemoveMembers(keys: seq<Key>, p: nat)
    requires Distinct(keys) && p < |keys|
    ensures forall k :: k in RemoveAt(keys, p) <==> k in keys && k != keys[p]
  {
    var r := RemoveAt(keys, p);
    forall k | k in keys && k != keys[p]
      ensures k in r
    {
      var i :| 0 <= i < |keys| && keys[i] == k;
      RemoveKeeps(keys, p, i);
    }
    assert forall j | 0 <= j < |r| :: r[j] != keys[p];
  }

  lemma RemoveLast(keys: seq<Key>, contents: map<Ident, Key>)
    requires Sorted(keys) && AllNamed(keys) && Represents(keys, contents) && keys != []
    ensures var r := keys[..|keys| - 1];
      && Sorted(r) && AllNamed(r) && Represents(r, contents - {keys[|keys| - 1].id})
      && forall k :: k in r <==> k in keys && k != keys[|keys| - 1]
  {
    hide CompareIdents, Name.Valid, Sorted, AllNamed, Represents, Distinct;
    SortedDistinct(keys);
    RemoveSorted(keys, |keys| - 1);
    RemoveRepresents(keys, contents, |keys| - 1);
    RemoveMembers(keys, |keys| - 1);
    assert RemoveAt(keys, |keys| - 1) == keys[..|keys| - 1];
  }

  /** A map determines the sorted sequence that represents it. */
  lemma {:induction false} RepresentationUnique(a: seq<Key>, b: seq<Key>, contents: map<Ident, Key>)
    requires Sorted(a) && AllNamed(a) && Represents(a, contents)
    requires Sorted(b) && AllNamed(b) && Represents(b, contents)
    ensures a == b
    decreases |a|
  {
    hide *;
    BothEmpty(a, b, contents);
    if a != [] {
      FirstIsLeast(a, b, contents);
      FirstIsLeast(b, a, contents);
      FirstEqual(a, b, contents);
      RemoveSorted(a, 0);
      RemoveSorted(b, 0);
      SortedDistinct(a);
      SortedDistinct(b);
      RemoveRepresents(a, contents, 0);
      RemoveRepresents(b, contents, 0);
      assert RemoveAt(a, 0) == a[1..] && RemoveAt(b, 0) == b[1..];
      RepresentationUnique(a[1..], b[1..], contents - {a[0].id});
      assert a == [a[0]] + a[1..] && b == [b[0]] + b[1..];
    }
  }

  lemma EmptyAlike(keys: seq<Key>, contents: map<Ident, Key>)
    requires Represents(keys, contents)
    ensures keys == [] <==> contents == map[]
  {
    assert keys != [] ==> keys[0].id in contents;
    assert forall id | id in contents :: contents[id] in keys;
  }

  lemma EntryOf(keys: seq<Key>, contents: map<Ident, Key>, i: nat)
    requires Represents(keys, contents) && i < |keys|
    ensures keys[i].id in contents && contents[keys[i].id] == keys[i]
  {
  }

  lemma BothEmpty(a: seq<Key>, b: seq<Key>, contents: map<Ident, Key>)
    requires Represents(a, contents) && Represents(b, contents)
    ensures a == [] <==> b == []
  {
    assert a != [] ==> a[0].id in contents && contents[a[0].id] in b;
    assert b != [] ==> b[0].id in contents && contents[b[0].id] in a;
  }

  lemma FirstEqual(a: seq<Key>, b: seq<Key>, contents: map<Ident, Key>)
    requires Represents(a, contents) && Represents(b, contents) && AllNamed(a) && AllNamed(b) && a != [] && b != []
    requires CompareIdents(a[0].id, b[0].id) <= 0 && CompareIdents(b[0].id, a[0].id) <= 0
    ensures a[0] == b[0]
  {
    hide CompareIdents, Name.Valid;
    CompareIdentsAntisymmetric(a[0].id, b[0].id);
  }

  lemma FirstIsLeast(a: seq<Key>, b: seq<Key>, contents: map<Ident, Key>)
    requires Sorted(a) && AllNamed(a) && Represents(a, contents) && a != []
    requires AllNamed(b) && Represents(b, contents) && b != []
    ensures CompareIdents(a[0].id, b[0].id) <= 0
  {
    hide CompareIdents, Name.Valid;
    var i :| 0 <= i < |a| && a[i] == contents[b[0].id];
    CompareIdentsAntisymmetric(a[0].id, a[0].id);
  }
}
