/** The mapping step of the order preserving minimal perfect hash map (opmphm.c). */
module Opmphms {

  datatype Vertex = Vertex(degree: nat, firstEdge: int)

  datatype Edge = Edge(h0: nat, h1: nat, h2: nat, next0: int, next1: int) {

    /** An edge joins a vertex of each side of the graph. */
    function End(second: bool): nat {
      if second then h2 else h1
    }

    function Next(second: bool): int {
      if second then next1 else next0
    }
  }

  /** What the three hash functions return for a name, before the remainder is taken. */
  datatype Hashes = Hashes(first: nat, second: nat, third: nat)

  // ---------- lists of edges ----------

  /** Every edge is followed by the greatest smaller edge at the same vertex. */
  predicate Linked(edges: seq<Edge>, second: bool) {
    forall e | 0 <= e < |edges| ::
      && -1 <= edges[e].Next(second) < e
      && (edges[e].Next(second) >= 0 ==> edges[edges[e].Next(second)].End(second) == edges[e].End(second))
      && forall b | edges[e].Next(second) < b < e :: edges[b].End(second) != edges[e].End(second)
  }

  /** The list of a vertex begins with its greatest edge. */
  predicate BeginsAt(edges: seq<Edge>, second: bool, v: nat, first: int) {
    && -1 <= first < |edges|
    && (first >= 0 ==> edges[first].End(second) == v)
    && forall b | first < b < |edges| :: edges[b].End(second) != v
  }

  /** The edges in the order in which the list gives them. */
  function Chain(edges: seq<Edge>, second: bool, e: int): seq<int>
    requires Linked(edges, second) && -1 <= e < |edges|
    decreases e
  {
    if e == -1 then [] else [e] + Chain(edges, second, edges[e].Next(second))
  }

  /** All edges at a vertex among the first k, the latest first. */
  function Incident(edges: seq<Edge>, second: bool, v: nat, k: nat): seq<int>
    requires k <= |edges|
  {
    if k == 0 then []
    else (if edges[k - 1].End(second) == v then [k - 1] else []) + Incident(edges, second, v, k - 1)
  }

  predicate Descending(l: seq<int>) {
    forall i, j | 0 <= i < j < |l| :: l[i] > l[j]
  }

  lemma DescendingCons(x: int, tail: seq<int>)
    requires Descending(tail) && forall y | y in tail :: y < x
    ensures Descending([x] + tail)
  {
    forall j | 0 <= j < |tail|
      ensures tail[j] < x
    {
      assert tail[j] in tail;
    }
  }

  lemma {:induction false} IncidentHas(edges: seq<Edge>, second: bool, v: nat, k: nat)
    requires k <= |edges|
    ensures forall e :: e in Incident(edges, second, v, k) <==> 0 <= e < k && edges[e].End(second) == v
    ensures Descending(Incident(edges, second, v, k))
  {
    hide Descending;
    if k == 0 {
      DescendingNil();
    } else {
      IncidentHas(edges, second, v, k - 1);
      var tail := Incident(edges, second, v, k - 1);
      if edges[k - 1].End(second) == v {
        DescendingCons(k - 1, tail);
      } else {
        assert [] + tail == tail;
      }
    }
  }

  lemma DescendingNil()
    ensures Descending([])
  {
  }

  /** The chain from e gives exactly the edges up to e at e's vertex, each once. */
  lemma {:induction false} ChainIsIncident(edges: seq<Edge>, second: bool, v: nat, e: int, k: nat)
    requires Linked(edges, second) && -1 <= e < k <= |edges|
    requires e >= 0 ==> edges[e].End(second) == v
    requires forall b | e < b < k :: edges[b].End(second) != v
    ensures Chain(edges, second, e) == Incident(edges, second, v, k)
    decreases k
  {
    if k > 0 {
      ChainIsIncident(edges, second, v, if e == k - 1 then edges[e].Next(second) else e, k - 1);
    }
  }

  function Degrees(edges: seq<Edge>, second: bool, from: nat, n: nat, k: nat): nat
    requires k <= |edges|
  {
    if n == 0 then 0 else Degrees(edges, second, from, n - 1, k) + |Incident(edges, second, from + n - 1, k)|
  }

  lemma {:induction false} NoDegrees(edges: seq<Edge>, second: bool, from: nat, n: nat)
    ensures Degrees(edges, second, from, n, 0) == 0
  {
    if n > 0 {
      NoDegrees(edges, second, from, n - 1);
    }
  }

  lemma {:induction false} OneMoreEdge(edges: seq<Edge>, second: bool, from: nat, n: nat, k: nat)
    requires 0 < k <= |edges|
    ensures Degrees(edges, second, from, n, k) == Degrees(edges, second, from, n, k - 1) +
      if from <= edges[k - 1].End(second) < from + n then 1 else 0
  {
    if n > 0 {
      OneMoreEdge(edges, second, from, n - 1, k);
    }
  }

  /** On each side every edge has exactly one end, so the degrees sum up to the number of edges. */
  lemma {:induction false} DegreesSum(edges: seq<Edge>, second: bool, from: nat, n: nat, k: nat)
    requires k <= |edges| && forall e | 0 <= e < k :: from <= edges[e].End(second) < from + n
    ensures Degrees(edges, second, from, n, k) == k
  {
    if k == 0 {
      NoDegrees(edges, second, from, n);
    } else {
      DegreesSum(edges, second, from, n, k - 1);
      OneMoreEdge(edges, second, from, n, k);
    }
  }

  // ---------- opmphmMapping ----------

  predicate SameTriple(a: Edge, b: Edge) {
    a.h0 == b.h0 && a.h1 == b.h1 && a.h2 == b.h2
  }

  /** Some two keys among the edges got the same three hash values. */
  predicate HasDuplicate(edges: seq<Edge>) {
    exists i, j | 0 <= i < j < |edges| :: SameTriple(edges[i], edges[j])
  }

  /** The graph the first loop builds: lists and degrees of all vertices on both sides. */
  predicate Built(edges: seq<Edge>, vertices: seq<Vertex>, r: nat) {
    && |vertices| == 2 * r && Linked(edges, false) && Linked(edges, true)
    && (forall e | 0 <= e < |edges| :: edges[e].h1 < r <= edges[e].h2 < 2 * r)
    && forall v | 0 <= v < 2 * r :: Described(edges, v >= r, v, vertices[v])
  }

  /** A vertex knows the first edge of its list and how many edges it has. */
  predicate Described(edges: seq<Edge>, second: bool, v: nat, vertex: Vertex) {
    BeginsAt(edges, second, v, vertex.firstEdge) && vertex.degree == |Incident(edges, second, v, |edges|)|
  }

  /** The list that starts at a vertex has all its edges and as many as its degree says; the degrees add up. */
  lemma BuiltMeans(edges: seq<Edge>, vertices: seq<Vertex>, r: nat, v: nat)
    requires Built(edges, vertices, r) && v < 2 * r
    ensures Linked(edges, v >= r) && Described(edges, v >= r, v, vertices[v]) && -1 <= vertices[v].firstEdge < |edges|
    ensures var list := Chain(edges, v >= r, vertices[v].firstEdge);
      && list == Incident(edges, v >= r, v, |edges|) && |list| == vertices[v].degree
      && Descending(list) && forall e :: e in list <==> 0 <= e < |edges| && edges[e].End(v >= r) == v
    ensures Degrees(edges, false, 0, r, |edges|) == |edges| == Degrees(edges, true, r, r, |edges|)
  {
    if |edges| > 0 {
      ChainIsIncident(edges, v >= r, v, vertices[v].firstEdge, |edges|);
    }
    IncidentHas(edges, v >= r, v, |edges|);
    DegreesSum(edges, false, 0, r, |edges|);
    DegreesSum(edges, true, r, r, |edges|);
  }

  /** r = 0.75 * n, truncated. With a single key it is 0 and the remainder is not defined. */
  function Vertices(n: nat): nat {
    3 * n / 4
  }

  method Mapping(vertices: array<Vertex>, edges: array<Edge>, hashes: seq<Hashes>, n: nat) returns (ret: int)
    requires n != 1 && |hashes| == n == edges.Length && vertices.Length == 2 * Vertices(n)
    modifies vertices, edges
    ensures forall i | 0 <= i < n ::
      && Vertices(n) > 0
      && edges[i].h0 == hashes[i].first % n
      && edges[i].h1 == hashes[i].second % Vertices(n)
      && edges[i].h2 == hashes[i].third % Vertices(n) + Vertices(n)
    ensures Built(edges[..], vertices[..], Vertices(n))
    ensures ret == 0 || ret == 1
    ensures ret == 1 <==> HasDuplicate(edges[..])
    ensures ret == 1 <==> exists i, j | 0 <= i < j < n ::
      edges[i].h0 == edges[j].h0 && edges[i].h1 == edges[j].h1 && edges[i].h2 == edges[j].h2
  {
    hide Built, HasDuplicate;
    var r := Vertices(n);
    forall i | 0 <= i < 2 * r {
      vertices[i] := Vertex(0, -1);
    }
    NothingBuilt(vertices[..], r);
    for i := 0 to n
      invariant Built(edges[..i], vertices[..], r)
      invariant forall j | 0 <= j < i ::
        && edges[j].h0 == hashes[j].first % n && edges[j].h1 == hashes[j].second % r
        && edges[j].h2 == hashes[j].third % r + r
    {
      var h0, h1, h2 := hashes[i].first % n, hashes[i].second % r, hashes[i].third % r + r;
      ghost var before, was := edges[..i], vertices[..];
      edges[i] := Edge(h0, h1, h2, vertices[h1].firstEdge, vertices[h2].firstEdge);
      vertices[h1] := Vertex(vertices[h1].degree + 1, i);
      vertices[h2] := Vertex(vertices[h2].degree + 1, i);
      BuiltNext(before, was, r, edges[i]);
      assert edges[..i + 1] == before + [edges[i]];
    }
    assert edges[..n] == edges[..];
    ret := Verify(vertices, edges, r);
    DuplicateMeans(edges[..]);
    assert forall i | 0 <= i < n :: edges[i] == edges[..][i];
  }

  lemma DuplicateMeans(edges: seq<Edge>)
    ensures HasDuplicate(edges) <==> exists i, j | 0 <= i < j < |edges| ::
      edges[i].h0 == edges[j].h0 && edges[i].h1 == edges[j].h1 && edges[i].h2 == edges[j].h2
  {
  }

  lemma NothingBuilt(vertices: seq<Vertex>, r: nat)
    requires |vertices| == 2 * r && forall v | 0 <= v < 2 * r :: vertices[v] == Vertex(0, -1)
    ensures Built([], vertices, r)
  {
  }

  /** Putting an edge at the front of both lists. */
  lemma BuiltNext(edges: seq<Edge>, vertices: seq<Vertex>, r: nat, e: Edge)
    requires Built(edges, vertices, r) && e.h1 < r <= e.h2 < 2 * r
    requires e.next0 == vertices[e.h1].firstEdge && e.next1 == vertices[e.h2].firstEdge
    ensures Built(edges + [e],
      vertices[e.h1 := Vertex(vertices[e.h1].degree + 1, |edges|)][e.h2 := Vertex(vertices[e.h2].degree + 1, |edges|)], r)
  {
    hide Linked, BeginsAt, Described, Incident;
    Unfold(edges, vertices, r, e.h1);
    Unfold(edges, vertices, r, e.h2);
    LinkedNext(edges, false, e);
    LinkedNext(edges, true, e);
    var now :=
      vertices[e.h1 := Vertex(vertices[e.h1].degree + 1, |edges|)][e.h2 := Vertex(vertices[e.h2].degree + 1, |edges|)];
    forall v | 0 <= v < 2 * r
      ensures Described(edges + [e], v >= r, v, now[v])
    {
      DescribedNext(edges, v >= r, v, vertices[v], e);
    }
  }

  lemma Unfold(edges: seq<Edge>, vertices: seq<Vertex>, r: nat, v: nat)
    requires Built(edges, vertices, r) && v < 2 * r
    ensures BeginsAt(edges, v >= r, v, vertices[v].firstEdge)
  {
    assert Described(edges, v >= r, v, vertices[v]);
  }

  lemma DescribedNext(edges: seq<Edge>, second: bool, v: nat, vertex: Vertex, e: Edge)
    requires Described(edges, second, v, vertex)
    ensures Described(edges + [e], second, v, if e.End(second) == v then Vertex(vertex.degree + 1, |edges|) else vertex)
  {
    IncidentSame(edges, e, second, v, |edges|);
  }

  lemma LinkedNext(edges: seq<Edge>, second: bool, e: Edge)
    requires Linked(edges, second) && BeginsAt(edges, second, e.End(second), e.Next(second))
    ensures Linked(edges + [e], second)
  {
  }

  lemma {:induction false} IncidentSame(edges: seq<Edge>, e: Edge, second: bool, v: nat, k: nat)
    requires k <= |edges|
    ensures Incident(edges + [e], second, v, k) == Incident(edges, second, v, k)
  {
    if k > 0 {
      IncidentSame(edges, e, second, v, k - 1);
    }
  }

  /** No two edges up to a at vertex v, the greater one at least from on, share all hash values. */
  predicate NoneFrom(edges: seq<Edge>, v: nat, from: int) {
    forall a, b | 0 <= b < a < |edges| && a > from && edges[a].h1 == v :: !SameTriple(edges[b], edges[a])
  }

  predicate NoneAt(edges: seq<Edge>, a: int, from: int) {
    0 <= a < |edges| && -1 <= from && forall b | from < b < a :: !SameTriple(edges[b], edges[a])
  }

  lemma NextAt(edges: seq<Edge>, a: int, b: int)
    requires Linked(edges, false) && 0 <= b < |edges| && 0 <= a < |edges| && edges[a].h1 == edges[b].h1
    ensures -1 <= edges[b].next0 < b && (edges[b].next0 >= 0 ==> edges[edges[b].next0].h1 == edges[a].h1)
    ensures b < a && NoneAt(edges, a, b) && !SameTriple(edges[b], edges[a]) ==> NoneAt(edges, a, edges[b].next0)
    ensures b == a ==> NoneAt(edges, a, edges[a].next0)
  {
    assert edges[b].Next(false) == edges[b].next0 && edges[a].End(false) == edges[b].End(false);
    assert forall c | edges[b].next0 < c < b :: edges[c].End(false) != edges[b].End(false);
  }

  lemma NextFrom(edges: seq<Edge>, v: nat, e: int)
    requires Linked(edges, false) && 0 <= e < |edges| && edges[e].h1 == v
    requires NoneFrom(edges, v, e) && NoneAt(edges, e, -1)
    ensures NoneFrom(edges, v, edges[e].next0)
  {
    hide Linked, SameTriple;
    LinkedAt(edges, e);
    forall a, b | 0 <= b < a < |edges| && a > edges[e].next0 && edges[a].h1 == v
      ensures !SameTriple(edges[b], edges[a])
    {
      assert a >= e;
    }
  }

  lemma LinkedAt(edges: seq<Edge>, e: nat)
    requires Linked(edges, false) && e < |edges|
    ensures -1 <= edges[e].next0 < e
    ensures forall c | edges[e].next0 < c < e :: edges[c].h1 != edges[e].h1
  {
    assert edges[e].Next(false) == edges[e].next0;
    assert forall c | edges[e].next0 < c < e :: edges[c].End(false) != edges[e].End(false);
  }

  /** The nested walks over the list of one vertex of the first side. */
  method VerifyVertex(edges: array<Edge>, v: nat, first: int) returns (ret: int)
    requires Linked(edges[..], false) && BeginsAt(edges[..], false, v, first)
    ensures ret == 0 ==> NoneFrom(edges[..], v, -1)
    ensures ret != 0 ==> ret == 1 && HasDuplicate(edges[..])
  {
    hide Linked, NoneFrom, NoneAt;
    ghost var es := edges[..];
    Nothing(es, v, first);
    var e0 := first;
    while e0 != -1
      invariant -1 <= e0 < |es| && (e0 >= 0 ==> es[e0].h1 == v) && NoneFrom(es, v, e0)
      decreases e0
    {
      NextAt(es, e0, e0);
      var e1 := edges[e0].next0;
      while e1 != -1
        invariant -1 <= e1 < e0 && (e1 >= 0 ==> es[e1].h1 == v) && NoneAt(es, e0, e1)
        decreases e1
      {
        if edges[e0].h0 == edges[e1].h0 && edges[e0].h2 == edges[e1].h2 {
          assert SameTriple(es[e1], es[e0]);
          return 1;
        }
        NextAt(es, e0, e1);
        e1 := edges[e1].next0;
      }
      NextFrom(es, v, e0);
      e0 := edges[e0].next0;
    }
    ret := 0;
  }

  lemma Nothing(edges: seq<Edge>, v: nat, first: int)
    requires BeginsAt(edges, false, v, first)
    ensures NoneFrom(edges, v, first) && (first >= 0 ==> edges[first].h1 == v)
  {
    assert forall b | first < b < |edges| :: edges[b].End(false) != v;
  }

  /** The second loop finds a duplicate if there is one. */
  method Verify(vertices: array<Vertex>, edges: array<Edge>, r: nat) returns (ret: int)
    requires Built(edges[..], vertices[..], r)
    ensures ret == 0 || ret == 1
    ensures ret == 1 <==> HasDuplicate(edges[..])
  {
    hide NoneFrom, Linked, Described, BeginsAt;
    for i := 0 to r
      invariant forall v | 0 <= v < i :: NoneFrom(edges[..], v, -1)
    {
      Unfold(edges[..], vertices[..], r, i);
      ret := VerifyVertex(edges, i, vertices[i].firstEdge);
      if ret != 0 {
        return;
      }
    }
    NoneAtAll(edges[..], r);
    ret := 0;
  }

  lemma NoneAtAll(edges: seq<Edge>, r: nat)
    requires forall e | 0 <= e < |edges| :: edges[e].h1 < r
    requires forall v | 0 <= v < r :: NoneFrom(edges, v, -1)
    ensures !HasDuplicate(edges)
  {
    forall i, j | 0 <= i < j < |edges|
      ensures !SameTriple(edges[i], edges[j])
    {
      assert NoneFrom(edges, edges[j].h1, -1);
    }
  }
}
