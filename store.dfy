/** The graph store as values: the vertex table and the adjacency table, the
    transformation each mutating operation of `Graph` performs on them, and
    the reachability relation the search decides. */
module Store {
  import opened Wrappers

  /** The two tables of `Graph` (src/lib.rs:13-16). Keys of `edges` need not
      be vertices, and arcs may name ids that are not vertices. */
  datatype Tables<VId(==), V, E> = Tables(vertices: map<VId, V>, edges: map<VId, seq<(VId, E)>>)

  /** The adjacency list of `k`, or the empty list `or_default` creates. */
  function OrEmpty<VId(==), E>(edges: map<VId, seq<(VId, E)>>, k: VId): seq<(VId, E)> {
    if k in edges then edges[k] else []
  }

  /** `v[..i] ++ v[i+1..]`: what `Vec::remove(i)` leaves. */
  function RemoveAt<T>(s: seq<T>, i: nat): (r: seq<T>)
    requires i < |s|
    ensures |r| == |s| - 1
    ensures forall j :: 0 <= j < i ==> r[j] == s[j]
    ensures forall j :: i <= j < |r| ==> r[j] == s[j + 1]
  {
    s[..i] + s[i + 1..]
  }

  /** Number of arcs in `arcs` that target `to`. */
  function Count<VId(==), E>(arcs: seq<(VId, E)>, to: VId): nat
    decreases |arcs|
  {
    if arcs == [] then 0
    else Count(arcs[..|arcs| - 1], to) + (if arcs[|arcs| - 1].0 == to then 1 else 0)
  }

  predicate NoArcTo<VId(==), E>(arcs: seq<(VId, E)>, to: VId) {
    forall i :: 0 <= i < |arcs| ==> arcs[i].0 != to
  }

  lemma {:induction false} CountZero<VId, E>(arcs: seq<(VId, E)>, to: VId)
    ensures Count(arcs, to) == 0 <==> NoArcTo(arcs, to)
    decreases |arcs|
  {
    if arcs != [] {
      CountZero(arcs[..|arcs| - 1], to);
    }
  }

  // ------------------------------------------------------------ add_vertex

  /** `add_vertex` (src/lib.rs:31-33): insert or overwrite one vertex. */
  function WithVertex<VId(==), V, E>(t: Tables<VId, V, E>, vid: VId, vertex: V): (r: Tables<VId, V, E>)
    ensures r.vertices.Keys == t.vertices.Keys + {vid}
    ensures r.vertices[vid] == vertex
    ensures forall k :: k in t.vertices && k != vid ==> r.vertices[k] == t.vertices[k]
    ensures r.edges == t.edges
  {
    t.(vertices := t.vertices[vid := vertex])
  }

  /** `get_vertex_value` (src/lib.rs:39-41), panicking lookup made a result. */
  function VertexValue<VId(==), V, E>(t: Tables<VId, V, E>, vid: VId): (r: Result<V, GraphError>)
    ensures r.Ok? <==> vid in t.vertices
    ensures r.Ok? ==> r.value == t.vertices[vid]
    ensures r.Err? ==> r.error == NotFound
  {
    if vid in t.vertices then Ok(t.vertices[vid]) else Err(NotFound)
  }

  /** After `add_vertex(k, v)`, looking `k` up gives `v`, and any other id
      gives what it gave before. */
  lemma VertexValueAfterAdd<VId, V, E>(t: Tables<VId, V, E>, vid: VId, vertex: V, other: VId)
    ensures VertexValue(WithVertex(t, vid, vertex), vid) == Ok(vertex)
    ensures other != vid ==> VertexValue(WithVertex(t, vid, vertex), other) == VertexValue(t, other)
  {
  }

  /** Adding two different ids gives the same tables in either order. */
  lemma WithVertexCommutes<VId, V, E>(t: Tables<VId, V, E>, a: VId, x: V, b: VId, y: V)
    requires a != b
    ensures WithVertex(WithVertex(t, a, x), b, y) == WithVertex(WithVertex(t, b, y), a, x)
  {
  }

  // -------------------------------------------------------------- add_edge

  /** `add_edge` (src/lib.rs:59-62): append `(to, edge)` to the list of `from`,
      creating it if absent; no check that either end is a vertex. */
  function WithEdge<VId(==), V, E>(t: Tables<VId, V, E>, from: VId, to: VId, edge: E): (r: Tables<VId, V, E>)
    ensures r.vertices == t.vertices
    ensures r.edges.Keys == t.edges.Keys + {from}
    ensures r.edges[from] == OrEmpty(t.edges, from) + [(to, edge)]
    ensures forall k :: k in t.edges && k != from ==> r.edges[k] == t.edges[k]
  {
    t.(edges := t.edges[from := OrEmpty(t.edges, from) + [(to, edge)]])
  }

  // ----------------------------------------------------------- remove_edge

  /** The index the loop of `remove_edge` (src/lib.rs:73-78) ends with: it
      has no `break`, so it is the LAST arc targeting `to`. */
  function LastMatch<VId(==), E>(arcs: seq<(VId, E)>, to: VId): (r: Option<nat>)
    ensures r.None? <==> NoArcTo(arcs, to)
    ensures r.Some? ==> r.value < |arcs| && arcs[r.value].0 == to
    ensures r.Some? ==> NoArcTo(arcs[r.value + 1..], to)
    decreases |arcs|
  {
    if arcs == [] then None
    else if arcs[|arcs| - 1].0 == to then Some(|arcs| - 1)
    else LastMatch(arcs[..|arcs| - 1], to)
  }

  /** `remove_edge` (src/lib.rs:68-80): fails when `from` has no list or no
      arc in it targets `to`; otherwise removes exactly the last such arc. */
  function WithoutEdge<VId(==), V, E>(t: Tables<VId, V, E>, from: VId, to: VId): (r: Result<Tables<VId, V, E>, GraphError>)
    ensures r.Err? <==> from !in t.edges || NoArcTo(t.edges[from], to)
    ensures r.Err? ==> r.error == NotFound
    ensures r.Ok? ==> r.value.vertices == t.vertices && r.value.edges.Keys == t.edges.Keys
    ensures r.Ok? ==> forall k :: k in t.edges && k != from ==> r.value.edges[k] == t.edges[k]
    ensures r.Ok? ==> exists i :: 0 <= i < |t.edges[from]| && t.edges[from][i].0 == to
                        && NoArcTo(t.edges[from][i + 1..], to)
                        && r.value.edges[from] == t.edges[from][..i] + t.edges[from][i + 1..]
  {
    if from !in t.edges then Err(NotFound)
    else
      match LastMatch(t.edges[from], to)
      case None => Err(NotFound)
      case Some(i) => Ok(t.(edges := t.edges[from := RemoveAt(t.edges[from], i)]))
  }

  /** `add_edge(a, b, e)` then `remove_edge(a, b)` removes the arc just
      added, since it is the last one targeting `b`: the tables are as
      before, except that `a` keeps a (possibly empty) list (src/tests.rs:45). */
  lemma {:induction false} RemoveEdgeUndoesAddEdge<VId, V, E>(t: Tables<VId, V, E>, a: VId, b: VId, e: E)
    ensures WithoutEdge(WithEdge(t, a, b, e), a, b) == Ok(t.(edges := t.edges[a := OrEmpty(t.edges, a)]))
  {
    var t' := WithEdge(t, a, b, e);
    var arcs := OrEmpty(t.edges, a) + [(b, e)];
    assert t'.edges[a] == arcs;
    assert LastMatch(arcs, b) == Some(|arcs| - 1);
    assert RemoveAt(arcs, |arcs| - 1) == OrEmpty(t.edges, a);
    assert WithoutEdge(t', a, b) == Ok(t'.(edges := t'.edges[a := OrEmpty(t.edges, a)]));
    assert t'.edges[a := OrEmpty(t.edges, a)] == t.edges[a := OrEmpty(t.edges, a)];
  }

  // --------------------------------------------------------- remove_vertex

  /** The `trash` list of `remove_vertex` (src/lib.rs:47-52): the indices of
      the arcs targeting `vid`, in increasing order. */
  function MatchIndices<VId(==), E>(arcs: seq<(VId, E)>, vid: VId): (r: seq<nat>)
    ensures |r| == Count(arcs, vid)
    ensures forall j :: 0 <= j < |r| ==> r[j] < |arcs| && arcs[r[j]].0 == vid
    ensures forall i :: 0 <= i < |arcs| && arcs[i].0 == vid ==> i in r
    ensures forall j, k :: 0 <= j < k < |r| ==> r[j] < r[k]
    decreases |arcs|
  {
    if arcs == [] then []
    else
      var r := MatchIndices(arcs[..|arcs| - 1], vid);
      if arcs[|arcs| - 1].0 == vid then r + [|arcs| - 1] else r
  }

  /** The removal loop of `remove_vertex` (src/lib.rs:53-55) as written:
      `Vec::remove` at each recorded index in turn, without accounting for
      the shift that earlier removals cause; `None` is the out-of-bounds panic. */
  function RemoveEach<T>(s: seq<T>, indices: seq<nat>): (r: Option<seq<T>>)
    ensures r.Some? ==> |r.value| == |s| - |indices|
    decreases |indices|
  {
    if indices == [] then Some(s)
    else if indices[0] < |s| then RemoveEach(RemoveAt(s, indices[0]), indices[1..])
    else None
  }

  /** What `remove_vertex` does to one adjacency list, as written. */
  function PruneAsWritten<VId(==), E>(arcs: seq<(VId, E)>, vid: VId): Option<seq<(VId, E)>> {
    RemoveEach(arcs, MatchIndices(arcs, vid))
  }

  /** What `remove_vertex` evidently means to do to one adjacency list
      (its doc comment, src/lib.rs:42): drop every arc targeting `vid`. */
  function Pruned<VId(==), E>(arcs: seq<(VId, E)>, vid: VId): (r: seq<(VId, E)>)
    ensures NoArcTo(r, vid)
    ensures |r| == |arcs| - Count(arcs, vid)
    decreases |arcs|
  {
    if arcs == [] then []
    else
      var r := Pruned(arcs[..|arcs| - 1], vid);
      if arcs[|arcs| - 1].0 == vid then r else r + [arcs[|arcs| - 1]]
  }

  /** `Pruned` is a filter: an arc survives exactly when it was in the list
      and does not target `vid`. */
  lemma {:induction false} PrunedMembers<VId, E>(arcs: seq<(VId, E)>, vid: VId, a: (VId, E))
    ensures a in Pruned(arcs, vid) <==> a in arcs && a.0 != vid
    decreases |arcs|
  {
    if arcs != [] {
      var init := arcs[..|arcs| - 1];
      assert arcs == init + [arcs[|arcs| - 1]];
      PrunedMembers(init, vid, a);
    }
  }

  /** `Pruned` keeps the other arcs in order: it distributes over concatenation. */
  lemma {:induction false} PrunedAppend<VId, E>(a: seq<(VId, E)>, b: seq<(VId, E)>, vid: VId)
    ensures Pruned(a + b, vid) == Pruned(a, vid) + Pruned(b, vid)
    decreases |b|
  {
    if b == [] {
      assert a + b == a;
    } else {
      assert (a + b)[..|a + b| - 1] == a + b[..|b| - 1];
      PrunedAppend(a, b[..|b| - 1], vid);
    }
  }

  /** A list with no arc to `vid` is left alone. */
  lemma {:induction false} PrunedNoMatch<VId, E>(arcs: seq<(VId, E)>, vid: VId)
    requires NoArcTo(arcs, vid)
    ensures Pruned(arcs, vid) == arcs
    decreases |arcs|
  {
    if arcs != [] {
      PrunedNoMatch(arcs[..|arcs| - 1], vid);
    }
  }

  /** With at most one arc to `vid` in a list, the loop as written does what
      was intended. */
  lemma {:induction false} PruneAsWrittenAtMostOne<VId, E>(arcs: seq<(VId, E)>, vid: VId)
    requires Count(arcs, vid) <= 1
    ensures PruneAsWritten(arcs, vid) == Some(Pruned(arcs, vid))
  {
    var m := MatchIndices(arcs, vid);
    if |m| == 0 {
      CountZero(arcs, vid);
      PrunedNoMatch(arcs, vid);
    } else {
      var i := m[0];
      assert m == [i];
      var before, after := arcs[..i], arcs[i + 1..];
      assert NoArcTo(before, vid) by {
        forall j | 0 <= j < |before| ensures before[j].0 != vid {
          assert j !in m;
        }
      }
      assert NoArcTo(after, vid) by {
        forall j | 0 <= j < |after| ensures after[j].0 != vid {
          assert i + 1 + j !in m;
        }
      }
      assert arcs == before + [arcs[i]] + after;
      PrunedAppend(before + [arcs[i]], after, vid);
      PrunedAppend(before, [arcs[i]], vid);
      assert Pruned([arcs[i]], vid) == [] by {
        assert [arcs[i]][..0] == [];
      }
      PrunedNoMatch(before, vid);
      PrunedNoMatch(after, vid);
      assert Pruned(arcs, vid) == before + after;
      assert m == [i];
      assert RemoveEach(arcs, m) == RemoveEach(RemoveAt(arcs, i), m[1..]);
      assert RemoveAt(arcs, i) == before + after;
    }
  }

  /** Finding, as written: with two arcs to `x` ahead of an arc to `y`, the
      second removal hits the shifted index, so the arc to `y` is dropped and
      one arc to `x` survives, where dropping both arcs to `x` was meant. */
  lemma PruneAsWrittenDropsWrongArc<VId, E>(x: VId, y: VId, e: E)
    requires x != y
    ensures PruneAsWritten([(x, e), (x, e), (y, e)], x) == Some([(x, e)])
    ensures Pruned([(x, e), (x, e), (y, e)], x) == [(y, e)]
  {
    var arcs := [(x, e), (x, e), (y, e)];
    assert arcs[..2] == [(x, e), (x, e)];
    assert arcs[..2][..1] == [(x, e)];
    assert arcs[..2][..1][..0] == [];
    assert MatchIndices(arcs[..2][..1][..0], x) == [];
    assert MatchIndices(arcs[..2][..1], x) == [0];
    assert MatchIndices(arcs[..2], x) == [0, 1];
    assert MatchIndices(arcs, x) == [0, 1];
    assert RemoveAt(arcs, 0) == [(x, e), (y, e)];
    assert RemoveAt([(x, e), (y, e)], 1) == [(x, e)];
    assert [0, 1][1..] == [1];
    assert [1][1..] == [];
  }

  /** Finding, as written: a list of exactly two arcs to `x` makes the
      second `Vec::remove` index past the end (a panic). */
  lemma PruneAsWrittenPanics<VId, E>(x: VId, e: E)
    ensures PruneAsWritten([(x, e), (x, e)], x) == None
  {
    var arcs := [(x, e), (x, e)];
    assert arcs[..1] == [(x, e)];
    assert arcs[..1][..0] == [];
    assert MatchIndices(arcs[..1][..0], x) == [];
    assert MatchIndices(arcs[..1], x) == [0];
    assert MatchIndices(arcs, x) == [0, 1];
    assert RemoveAt(arcs, 0) == [(x, e)];
    assert [0, 1][1..] == [1];
  }

  /** Every list other than the removed vertex's own survives the removal loop. */
  predicate Prunable<VId(==), V, E>(t: Tables<VId, V, E>, vid: VId) {
    forall k :: k in t.edges && k != vid ==> PruneAsWritten(t.edges[k], vid).Some?
  }

  /** Each list other than the removed vertex's own has at most one arc to it. */
  predicate AtMostOneIncoming<VId(==), V, E>(t: Tables<VId, V, E>, vid: VId) {
    forall k :: k in t.edges && k != vid ==> Count(t.edges[k], vid) <= 1
  }

  /** `remove_vertex` (src/lib.rs:43-57) as written: drop the vertex entry and
      its own list, then run the removal loop on every other list; `None` is
      the panic of some list. */
  function WithoutVertex<VId(==), V, E>(t: Tables<VId, V, E>, vid: VId): (r: Option<Tables<VId, V, E>>)
    ensures r.Some? <==> Prunable(t, vid)
    ensures r.Some? ==> r.value.vertices == t.vertices - {vid}
    ensures r.Some? ==> r.value.edges.Keys == t.edges.Keys - {vid}
    ensures r.Some? ==> forall k :: k in r.value.edges ==> Some(r.value.edges[k]) == PruneAsWritten(t.edges[k], vid)
  {
    if Prunable(t, vid) then
      Some(Tables(t.vertices - {vid},
                  map k | k in t.edges && k != vid :: PruneAsWritten(t.edges[k], vid).value))
    else None
  }

  /** Lists that are each the pruning of the list under the same key, for
      every key but `vid`, are what `remove_vertex` leaves. */
  lemma WithoutVertexOf<VId, V, E>(t: Tables<VId, V, E>, vid: VId, edges: map<VId, seq<(VId, E)>>)
    requires edges.Keys == t.edges.Keys - {vid}
    requires forall k :: k in edges ==> Some(edges[k]) == PruneAsWritten(t.edges[k], vid)
    ensures WithoutVertex(t, vid) == Some(Tables(t.vertices - {vid}, edges))
  {
    assert Prunable(t, vid) by {
      forall k | k in t.edges && k != vid ensures PruneAsWritten(t.edges[k], vid).Some? {
        assert k in edges;
      }
    }
    var w := WithoutVertex(t, vid).value;
    assert edges == w.edges by {
      forall k | k in edges ensures edges[k] == w.edges[k] {
        assert Some(w.edges[k]) == PruneAsWritten(t.edges[k], vid);
      }
    }
  }

  /** One list that the removal loop cannot finish makes `remove_vertex` panic. */
  lemma WithoutVertexPanics<VId, V, E>(t: Tables<VId, V, E>, vid: VId, k: VId)
    requires k in t.edges && k != vid && PruneAsWritten(t.edges[k], vid).None?
    ensures WithoutVertex(t, vid) == None
  {
  }

  /** `remove_vertex` as its doc comment (src/lib.rs:42) means it: the vertex,
      its own list and every arc to it removed, all other arcs kept in order. */
  function WithoutVertexIntended<VId(==), V, E>(t: Tables<VId, V, E>, vid: VId): (r: Tables<VId, V, E>)
    ensures r.vertices == t.vertices - {vid}
    ensures r.edges.Keys == t.edges.Keys - {vid}
    ensures forall k :: k in r.edges ==> NoArcTo(r.edges[k], vid)
    ensures forall k :: k in r.edges ==> |r.edges[k]| == |t.edges[k]| - Count(t.edges[k], vid)
  {
    Tables(t.vertices - {vid}, map k | k in t.edges && k != vid :: Pruned(t.edges[k], vid))
  }

  /** When no list has two arcs to `vid`, `remove_vertex` as written cannot
      panic and removes the vertex, its outgoing arcs and all arcs to it. */
  lemma WithoutVertexAtMostOne<VId, V, E>(t: Tables<VId, V, E>, vid: VId)
    requires AtMostOneIncoming(t, vid)
    ensures WithoutVertex(t, vid) == Some(WithoutVertexIntended(t, vid))
  {
    forall k | k in t.edges && k != vid
      ensures PruneAsWritten(t.edges[k], vid) == Some(Pruned(t.edges[k], vid))
    {
      PruneAsWrittenAtMostOne(t.edges[k], vid);
    }
    assert Prunable(t, vid);
    var w := WithoutVertex(t, vid).value;
    assert w.edges == WithoutVertexIntended(t, vid).edges;
  }

  /** Removing an id that is neither a vertex, nor a key, nor a target changes nothing. */
  lemma RemoveAbsentVertex<VId, V, E>(t: Tables<VId, V, E>, vid: VId)
    requires vid !in t.vertices && vid !in t.edges
    requires forall k :: k in t.edges ==> NoArcTo(t.edges[k], vid)
    ensures WithoutVertex(t, vid) == Some(t)
  {
    forall k | k in t.edges
      ensures Count(t.edges[k], vid) == 0 && Pruned(t.edges[k], vid) == t.edges[k]
    {
      CountZero(t.edges[k], vid);
      PrunedNoMatch(t.edges[k], vid);
    }
    WithoutVertexAtMostOne(t, vid);
    assert t.vertices - {vid} == t.vertices;
    assert WithoutVertexIntended(t, vid).edges == t.edges;
  }

  // ---------------------------------------------------------- reachability

  /** An arc `u -> v` is recorded in the adjacency table. */
  ghost predicate Arc<VId, E>(edges: map<VId, seq<(VId, E)>>, u: VId, v: VId) {
    u in edges && exists i :: 0 <= i < |edges[u]| && edges[u][i].0 == v
  }

  /** A walk of one or more arcs. */
  ghost predicate IsPath<VId, E>(edges: map<VId, seq<(VId, E)>>, p: seq<VId>) {
    |p| >= 2 && forall i :: 0 <= i < |p| - 1 ==> Arc(edges, p[i], p[i + 1])
  }

  /** `f` can be reached from `s` by a directed path of at least one arc. */
  ghost predicate Reachable<VId(!new), E>(edges: map<VId, seq<(VId, E)>>, s: VId, f: VId) {
    exists p :: IsPath(edges, p) && p[0] == s && p[|p| - 1] == f
  }

  /** Every id some arc targets. */
  ghost function Targets<VId, E>(edges: map<VId, seq<(VId, E)>>): set<VId> {
    set k, i | k in edges && 0 <= i < |edges[k]| :: edges[k][i].0
  }

  /** A set that contains all successors of its members. */
  ghost predicate Closed<VId, E>(edges: map<VId, seq<(VId, E)>>, s: set<VId>) {
    forall v, j :: v in s && v in edges && 0 <= j < |edges[v]| ==> edges[v][j].0 in s
  }

  /** Extending a path (or the empty walk at `s`) by one arc. */
  lemma ReachableStep<VId(!new), E>(edges: map<VId, seq<(VId, E)>>, s: VId, u: VId, v: VId)
    requires u == s || Reachable(edges, s, u)
    requires Arc(edges, u, v)
    ensures Reachable(edges, s, v)
  {
    if u == s {
      var p := [s, v];
      assert IsPath(edges, p);
    } else {
      var p :| IsPath(edges, p) && p[0] == s && p[|p| - 1] == u;
      var q := p + [v];
      forall i | 0 <= i < |q| - 1 ensures Arc(edges, q[i], q[i + 1]) {
        if i < |p| - 1 {
          assert q[i] == p[i] && q[i + 1] == p[i + 1];
        }
      }
      assert IsPath(edges, q);
    }
  }

  /** A closed set holds the end of every path that starts in it. */
  lemma {:induction false} ClosedHoldsPath<VId, E>(edges: map<VId, seq<(VId, E)>>, s: set<VId>, p: seq<VId>)
    requires Closed(edges, s) && IsPath(edges, p) && p[0] in s
    ensures p[|p| - 1] in s
    decreases |p|
  {
    assert Arc(edges, p[0], p[1]);
    var i :| 0 <= i < |edges[p[0]]| && edges[p[0]][i].0 == p[1];
    if |p| > 2 {
      var q := p[1..];
      forall j | 0 <= j < |q| - 1 ensures Arc(edges, q[j], q[j + 1]) {
        assert q[j] == p[j + 1] && q[j + 1] == p[j + 2];
      }
      ClosedHoldsPath(edges, s, q);
    }
  }

  /** Nothing outside a closed set is reachable from inside it. */
  lemma ClosedBlocksReach<VId(!new), E>(edges: map<VId, seq<(VId, E)>>, s: set<VId>, a: VId, b: VId)
    requires Closed(edges, s) && a in s && b !in s
    ensures !Reachable(edges, a, b)
  {
    if Reachable(edges, a, b) {
      var p :| IsPath(edges, p) && p[0] == a && p[|p| - 1] == b;
      ClosedHoldsPath(edges, s, p);
    }
  }

  /** The adjacency table of src/tests.rs:49-63 with ids A..E numbered 0..4
      and the id "Uh no" numbered 5: E is reachable from A, and so is D,
      but nothing is reachable from E, which has no list. */
  lemma SearchExample<E>(e: E)
    ensures var edges: map<int, seq<(int, E)>> := map[0 := [(1, e)], 1 := [(2, e), (3, e)], 2 := [(1, e), (3, e), (4, e)], 3 := [(1, e), (2, e)]];
            Reachable(edges, 0, 4) && Reachable(edges, 0, 3) && !Reachable(edges, 4, 0) && !Reachable(edges, 4, 5)
  {
    var edges: map<int, seq<(int, E)>> := map[0 := [(1, e)], 1 := [(2, e), (3, e)], 2 := [(1, e), (3, e), (4, e)], 3 := [(1, e), (2, e)]];
    assert edges[0][0].0 == 1;
    ReachableStep(edges, 0, 0, 1);
    assert edges[1][0].0 == 2;
    ReachableStep(edges, 0, 1, 2);
    assert edges[2][2].0 == 4;
    ReachableStep(edges, 0, 2, 4);
    assert edges[1][1].0 == 3;
    ReachableStep(edges, 0, 1, 3);
    assert Closed(edges, {4});
    ClosedBlocksReach(edges, {4}, 4, 0);
    ClosedBlocksReach(edges, {4}, 4, 5);
  }
}
