/** The mount trie of trie.c: a compressed radix trie whose nodes are split in place. */
module Tries {
  import opened Bytes
  import opened PrefixMaps

  /** elektraTrieStartsWith: the position of the first mismatch in substr, or None. */
  method StartsWith(str: seq<byte>, substr: seq<byte>) returns (mismatch: Option<nat>)
    ensures mismatch.None? <==> substr <= str
    ensures mismatch.Some? ==>
      var k := mismatch.value;
      k < |substr| && k <= |str| && substr[..k] == str[..k] && (k < |str| ==> substr[k] != str[k])
  {
    var i := 0;
    while i < |substr|
      invariant 0 <= i <= |substr| && i <= |str| && substr[..i] == str[..i]
    {
      if i == |str| || substr[i] != str[i] {
        return Some(i);
      }
      i := i + 1;
    }
    return None;
  }

  /** trieInsert, which accepts the empty trie. */
  method TrieInsert<V>(trie: Trie?<V>, name: seq<byte>, v: V) returns (r: Trie<V>)
    requires trie != null ==> trie.Valid()
    requires NulFree(name)
    modifies if trie == null then {} else trie.Repr
    ensures r.Valid() && fresh(r.Repr - old(if trie == null then {} else trie.Repr))
    ensures trie != null ==> r == trie && r.Contents == old(trie.Contents)[name := v]
    ensures trie == null ==> r.Contents == map[name := v]
    decreases |name|, 2
  {
    if trie == null {
      r := new Trie(name, v);
    } else {
      trie.Insert(name, v);
      r := trie;
    }
  }

  /** What a sequence of insertions means: the last one under each name. */
  function Inserted<V>(log: seq<(seq<byte>, V)>): map<seq<byte>, V> {
    if log == [] then map[]
    else Inserted(log[..|log| - 1])[log[|log| - 1].0 := log[|log| - 1].1]
  }

  lemma {:induction false} InsertedIsLast<V>(log: seq<(seq<byte>, V)>, p: seq<byte>)
    ensures p in Inserted(log) <==> exists i | 0 <= i < |log| :: log[i].0 == p
    ensures p in Inserted(log) ==>
      exists i | 0 <= i < |log| ::
        log[i].0 == p && Inserted(log)[p] == log[i].1 && forall j | i < j < |log| :: log[j].0 != p
  {
    if log != [] {
      InsertedIsLast(log[..|log| - 1], p);
    }
  }

  /** Any run of insertions, starting from the empty trie, followed by any lookup. */
  method InsertAndLookup<V>(log: seq<(seq<byte>, V)>, query: seq<byte>) returns (found: Option<V>)
    requires forall i | 0 <= i < |log| :: NulFree(log[i].0)
    requires NulFree(query)
    ensures found == Longest(Inserted(log), query)
  {
    var trie: Trie?<V> := null;
    for n := 0 to |log|
      invariant trie == null ==> n == 0
      invariant trie != null ==> trie.Valid() && fresh(trie.Repr) && trie.Contents == Inserted(log[..n])
    {
      trie := TrieInsert(trie, log[n].0, log[n].1);
      assert log[..n + 1][..n] == log[..n];
    }
    assert log[..|log|] == log;
    if trie == null {
      LongestEmpty(Inserted(log), query);
      return None;
    }
    found := trie.PrefixLookup(query);
  }

  /** The node that takes over when an edge is cut at position k. */
  method SplitChild<V>(ghost slot: Slot<V>, ghost all: map<seq<byte>, V>, k: nat, name: seq<byte>, v: V,
                       text: seq<byte>, value: Option<V>, child: Trie?<V>)
    returns (c: Trie<V>)
    requires 0 < k < |text| && k <= |name| && text[..k] == name[..k] && (k < |name| ==> text[k] != name[k])
    requires NulFree(name) && NulFree(text)
    requires child != null ==> child.Valid()
    requires slot == Slot(text, value, if child == null then map[] else child.Contents)
    requires Describes(all, text[0], Some(slot))
    ensures c.Valid() && fresh(c.Repr - (if child == null then {} else child.Repr))
    ensures c.Repr >= (if child == null then {} else child.Repr)
    ensures c.Contents == Cut(all, text[..k])[name[k..] := v]
  {
    hide Describes, Get, Cut, SlotGet;
    var newname := text[k..];
    c := new Trie(name[k..], v);
    var j := newname[0] as int;
    c.text := c.text[j := Some(newname)];
    c.value := c.value[j := value];
    c.children := c.children[j := child];
    ghost var below := Cut(all, text[..k]);
    c.Contents := below[name[k..] := v];
    if child != null {
      c.Repr := c.Repr + child.Repr;
    }
    forall b: byte
      ensures Describes(c.Contents, b, c.SlotAt(b))
    {
      DescribesBelow(all, slot, k, b);
      if k < |name| && b == name[k] {
        DescribesNew(below, name[k..], v);
      } else {
        DescribesOther(below, b, c.SlotAt(b), name[k..], v);
      }
    }
    DescribesBelow(all, slot, k, 0);
    GetOther(below, name[k..], v, []);
  }

  class Trie<V> {
    // one entry for each first byte
    var children: seq<Trie?<V>>
    var text: seq<Option<seq<byte>>>
    var value: seq<Option<V>>
    var emptyValue: Option<V>

    ghost var Contents: map<seq<byte>, V>   // what was inserted through this node
    ghost var Repr: set<Trie<V>>

    ghost predicate Shape()
      reads this
    {
      && |children| == |text| == |value| == 256
      && forall i | 0 <= i < 256 ::
           match text[i]
           case None => children[i] == null && value[i] == None
           case Some(t) => t != [] && NulFree(t) && t[0] as int == i
    }

    /** What the tables hold for names that start with the byte i. */
    ghost function SlotAt(i: byte): Option<Slot<V>>
      requires Shape()
      reads this, if children[i as int] == null then {} else {children[i as int]}
    {
      var c := children[i as int];
      match text[i as int]
      case None => None
      case Some(t) => Some(Slot(t, value[i as int], if c == null then map[] else c.Contents))
    }

    ghost predicate Valid()
      reads this, Repr
      decreases Repr
    {
      && this in Repr && Shape()
      && (forall i | 0 <= i < 256 && children[i] != null ::
            children[i] in Repr && children[i].Repr <= Repr - {this} && children[i].Valid())
      && (forall i, j | 0 <= i < j < 256 && children[i] != null && children[j] != null ::
            children[i].Repr !! children[j].Repr)
      && Get(Contents, []) == emptyValue
      && forall b: byte :: Describes(Contents, b, SlotAt(b))
    }

    /** Everything but the entry x is in order. */
    ghost predicate ValidExcept(x: int)
      reads this, Repr
    {
      && this in Repr && Shape()
      && (forall i | 0 <= i < 256 && i != x && children[i] != null ::
            children[i] in Repr && children[i].Repr <= Repr - {this} && children[i].Valid())
      && (forall i, j | 0 <= i < j < 256 && i != x && j != x && children[i] != null && children[j] != null ::
            children[i].Repr !! children[j].Repr)
      && Get(Contents, []) == emptyValue
      && forall b: byte | b as int != x :: Describes(Contents, b, SlotAt(b))
    }

    lemma Complete(b: byte)
      requires ValidExcept(b as int)
      requires var c := children[b as int];
        c != null ==>
          && c in Repr && c.Repr <= Repr - {this} && c.Valid()
          && forall j | 0 <= j < 256 && j != b as int && children[j] != null :: children[j].Repr !! c.Repr
      requires Describes(Contents, b, SlotAt(b))
      ensures Valid()
    {
      hide Describes, Get;
    }

    /** Fills in the entry for the first byte of name, once the child c below the edge is ready. */
    method Attach(edge: seq<byte>, v0: Option<V>, c: Trie<V>, ghost name: seq<byte>, ghost v: V)
      requires edge != [] && NulFree(edge) && name != [] && edge[0] == name[0]
      requires ValidExcept(name[0] as int)
      requires c.Valid() && this !in c.Repr
      requires forall i | 0 <= i < 256 && i != name[0] as int && children[i] != null :: children[i].Repr !! c.Repr
      requires Describes(Contents[name := v], name[0], Some(Slot(edge, v0, c.Contents)))
      modifies this
      ensures Valid() && Repr == old(Repr) + c.Repr && Contents == old(Contents)[name := v]
    {
      hide Describes, Get, SlotGet;
      GetOther(Contents, name, v, []);
      var i := edge[0] as int;
      text := text[i := Some(edge)];
      value := value[i := v0];
      children := children[i := c];
      Repr := Repr + c.Repr;
      Contents := Contents[name := v];
      assert forall j | 0 <= j < 256 && j != i && children[j] != null ::
        children[j] == old(children[j]) && children[j].Valid();
      assert SlotAt(edge[0]) == Some(Slot(edge, v0, c.Contents));
      forall b: byte | b != edge[0]
        ensures Describes(Contents, b, SlotAt(b))
      {
        assert SlotAt(b) == old(SlotAt(b));
        DescribesOther(old(Contents), b, SlotAt(b), name, v);
      }
      Complete(edge[0]);
    }

    /** A node for a single name, as trieInsert allocates it when there was none. */
    constructor (name: seq<byte>, v: V)
      requires NulFree(name)
      ensures Valid() && fresh(Repr) && Contents == map[name := v]
      ensures Repr == {this} && forall i | 0 <= i < 256 :: children[i] == null
      ensures forall i | 0 <= i < 256 ::
        && text[i] == (if name != [] && name[0] as int == i then Some(name) else None)
        && value[i] == (if name != [] && name[0] as int == i then Some(v) else None)
      ensures emptyValue == if name == [] then Some(v) else None
    {
      children := seq(256, _ => null);
      if name == [] {
        text, value, emptyValue := seq(256, _ => None), seq(256, _ => None), Some(v);
      } else {
        text := seq(256, _ => None)[name[0] as int := Some(name)];
        value := seq(256, _ => None)[name[0] as int := Some(v)];
        emptyValue := None;
      }
      Contents := map[name := v];
      Repr := {this};
    }

    /** elektraTriePrefixLookup: the backend of the longest inserted prefix of name. */
    method PrefixLookup(name: seq<byte>) returns (ret: Option<V>)
      requires Valid() && NulFree(name)
      ensures ret == Longest(Contents, name)
      decreases Repr
    {
      var i := if name == [] then 0 else name[0] as int;
      assert name != [] ==> Describes(Contents, name[0], SlotAt(name[0]));
      if text[i].None? {
        LongestNotInside(Contents, name, None);
        return emptyValue;
      }
      var t := text[i].value;
      ghost var slot := SlotAt(name[0]).value;
      var mismatch := StartsWith(name, t);
      if mismatch.Some? {
        LongestNotInside(Contents, name, Some(slot));
        return emptyValue;
      }
      LongestThroughSlot(Contents, slot, name);
      ret := None;
      if children[i] == null {
        LongestEmpty(slot.below, name[|t|..]);
      } else {
        ret := children[i].PrefixLookup(name[|t|..]);
      }
      if ret.None? {
        ret := if value[i].None? then emptyValue else value[i];
      }
    }

    /** trieInsert on an existing node. */
    method Insert(name: seq<byte>, v: V)
      requires Valid() && NulFree(name)
      modifies Repr
      ensures Valid() && fresh(Repr - old(Repr)) && old(Repr) <= Repr
      ensures Contents == old(Contents)[name := v]
      decreases |name|, 1
    {
      hide Describes, Get, SlotGet;
      GetOther(Contents, name, v, []);
      if name == [] {
        emptyValue := Some(v);
        Contents := Contents[name := v];
        forall b: byte
          ensures Describes(Contents, b, SlotAt(b))
        {
          assert SlotAt(b) == old(SlotAt(b));
          DescribesOther(old(Contents), b, SlotAt(b), name, v);
        }
        return;
      }
      var i := name[0] as int;
      if text[i].None? {
        assert SlotAt(name[0]) == None;
        DescribesNew(Contents, name, v);
        text := text[i := Some(name)];
        value := value[i := Some(v)];
        Contents := Contents[name := v];
        forall b: byte
          ensures Describes(Contents, b, SlotAt(b))
        {
          if b != name[0] {
            assert SlotAt(b) == old(SlotAt(b));
            DescribesOther(old(Contents), b, SlotAt(b), name, v);
          }
        }
        return;
      }
      var mismatch := StartsWith(name, text[i].value);
      if mismatch.None? {
        Descend(i, name, v);
      } else {
        Split(i, mismatch.value, name, v);
      }
    }

    /** The text of the entry begins the name: go on below it. */
    method Descend(i: nat, name: seq<byte>, v: V)
      requires Valid() && NulFree(name)
      requires name != [] && name[0] as int == i
      requires text[i].Some? && text[i].value <= name
      modifies Repr
      ensures Valid() && fresh(Repr - old(Repr)) && old(Repr) <= Repr
      ensures Contents == old(Contents)[name := v]
      decreases |name|, 0
    {
      hide Describes, Get, SlotGet;
      GetOther(Contents, name, v, []);
      var rest := name[|text[i].value|..];
      ghost var slot := SlotAt(name[0]).value;
      DescribesDescend(Contents, slot, name, v);
      var c := TrieInsert(children[i], rest, v);
      assert c.Contents == slot.below[rest := v];
      Attach(text[i].value, value[i], c, name, v);
    }

    /** The text of the entry leaves the name at position k: cut it there. */
    method Split(i: nat, k: nat, name: seq<byte>, v: V)
      requires Valid() && NulFree(name)
      requires name != [] && name[0] as int == i && text[i].Some?
      requires k < |text[i].value| && k <= |name| && text[i].value[..k] == name[..k]
      requires k < |name| ==> text[i].value[k] != name[k]
      modifies this
      ensures Valid() && fresh(Repr - old(Repr)) && old(Repr) <= Repr
      ensures Contents == old(Contents)[name := v]
    {
      hide Describes, Get, Cut, SlotGet;
      GetOther(Contents, name, v, []);
      var t := text[i].value;
      ghost var slot := SlotAt(name[0]).value;
      DescribesSplit(Contents, slot, k, name, v);
      var c := SplitChild(slot, Contents, k, name, v, t, value[i], children[i]);
      Attach(t[..k], None, c, name, v);
    }
  }
}
