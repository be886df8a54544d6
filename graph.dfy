/** The `Graph` struct of src/lib.rs as a class: the vertex table and the
    adjacency table are map fields that the mutating operations reassign,
    and each loop of the source is a loop here, proved against the value
    functions of `Store` and `Tgf`. */
module SimpleGraph {
  import opened Wrappers
  import opened Text
  import opened Store
  import opened Tgf

  // ------------------------------------------------- loops over one list

  /** The scan of `remove_edge` (src/lib.rs:73-78): every arc targeting `to`
      overwrites `index`, so the last one wins. */
  method FindLastMatch<VId(==), E>(arcs: seq<(VId, E)>, to: VId) returns (index: Option<nat>)
    ensures index == LastMatch(arcs, to)
  {
    index := None;
    var i := 0;
    while i < |arcs|
      invariant 0 <= i <= |arcs|
      invariant index == LastMatch(arcs[..i], to)
    {
      assert arcs[..i + 1][..i] == arcs[..i];
      if arcs[i].0 == to {
        index := Some(i);
      }
      i := i + 1;
    }
    assert arcs[..i] == arcs;
  }

  /** The `trash` scan of `remove_vertex` (src/lib.rs:47-52): the indices of
      the arcs targeting `vid`, in increasing order. */
  method CollectMatches<VId(==), E>(arcs: seq<(VId, E)>, vid: VId) returns (trash: seq<nat>)
    ensures trash == MatchIndices(arcs, vid)
  {
    trash := [];
    var i := 0;
    while i < |arcs|
      invariant 0 <= i <= |arcs|
      invariant trash == MatchIndices(arcs[..i], vid)
    {
      assert arcs[..i + 1][..i] == arcs[..i];
      if arcs[i].0 == vid {
        trash := trash + [i];
      }
      i := i + 1;
    }
    assert arcs[..i] == arcs;
  }

  /** The removal loop of `remove_vertex` (src/lib.rs:53-55): `Vec::remove`
      at each recorded index in turn, with no correction for the shift;
      `None` is the out-of-bounds panic. */
  method RemoveIndices<T>(arcs: seq<T>, trash: seq<nat>) returns (r: Option<seq<T>>)
    ensures r == RemoveEach(arcs, trash)
  {
    var cur := arcs;
    var j := 0;
    while j < |trash|
      invariant 0 <= j <= |trash|
      invariant RemoveEach(cur, trash[j..]) == RemoveEach(arcs, trash)
    {
      assert trash[j..][1..] == trash[j + 1..];
      if trash[j] >= |cur| {
        return None;
      }
      cur := RemoveAt(cur, trash[j]);
      j := j + 1;
    }
    r := Some(cur);
  }

  /** The body of the outer loop of `remove_vertex` (src/lib.rs:47-55) on
      one list: the executable counterpart of `PruneAsWritten`, built from
      the two loops above. */
  method PruneList<VId(==), E>(arcs: seq<(VId, E)>, vid: VId) returns (r: Option<seq<(VId, E)>>)
    ensures r == PruneAsWritten(arcs, vid)
  {
    var trash := CollectMatches(arcs, vid);
    r := RemoveIndices(arcs, trash);
  }

  /** The loop of `remove_vertex` (src/lib.rs:46-56) over the table without
      `vid`'s own list, in some iteration order; `ok` is false when one
      list's removals index past its end (the panic). */
  method PruneTable<VId(==), V, E>(edges: map<VId, seq<(VId, E)>>, vid: VId, ghost t: Tables<VId, V, E>)
    returns (table: map<VId, seq<(VId, E)>>, ok: bool)
    requires edges == t.edges
    ensures table.Keys == t.edges.Keys - {vid}
    ensures ok ==> WithoutVertex(t, vid) == Some(Tables(t.vertices - {vid}, table))
    ensures !ok ==> WithoutVertex(t, vid) == None
  {
    table := edges - {vid};
    ghost var keys := t.edges.Keys - {vid};
    assert table.Keys == keys;
    var todo := table.Keys;
    while todo != {}
      invariant table.Keys == keys && todo <= keys
      invariant forall k :: k in todo ==> table[k] == t.edges[k]
      invariant forall k :: k in table && k !in todo ==> Some(table[k]) == PruneAsWritten(t.edges[k], vid)
      decreases |todo|
    {
      var k :| k in todo;
      var pruned := PruneList(table[k], vid);
      if pruned.None? {
        WithoutVertexPanics(t, vid, k);
        return table, false;
      }
      table := table[k := pruned.value];
      assert table.Keys == keys;
      todo := todo - {k};
    }
    WithoutVertexOf(t, vid, table);
    ok := true;
  }

  /** The corrected removal on one list: keep, in order, every arc that
      does not target `vid` (what `Vec::retain` would do). */
  method KeepOthers<VId(==), E>(arcs: seq<(VId, E)>, vid: VId) returns (r: seq<(VId, E)>)
    ensures r == Pruned(arcs, vid)
  {
    r := [];
    for i := 0 to |arcs|
      invariant r == Pruned(arcs[..i], vid)
    {
      assert arcs[..i + 1][..i] == arcs[..i];
      if arcs[i].0 != vid {
        r := r + [arcs[i]];
      }
    }
    assert arcs[..|arcs|] == arcs;
  }

  /** The corrected loop of `remove_vertex` over the table without `vid`'s
      own list: every list loses exactly its arcs to `vid`. */
  method PruneTableCorrected<VId(==), E>(edges: map<VId, seq<(VId, E)>>, vid: VId)
    returns (table: map<VId, seq<(VId, E)>>)
    ensures table.Keys == edges.Keys - {vid}
    ensures forall k :: k in table ==> table[k] == Pruned(edges[k], vid)
  {
    table := edges - {vid};
    ghost var keys := edges.Keys - {vid};
    assert table.Keys == keys;
    var todo := table.Keys;
    while todo != {}
      invariant table.Keys == keys && todo <= keys
      invariant forall k :: k in todo ==> table[k] == edges[k]
      invariant forall k :: k in table && k !in todo ==> table[k] == Pruned(edges[k], vid)
      decreases |todo|
    {
      var k :| k in todo;
      var kept := KeepOthers(table[k], vid);
      table := table[k := kept];
      assert table.Keys == keys;
      todo := todo - {k};
    }
  }

  /** `split_line_into_vec_with_len` (src/lib.rs:157-171): split on ASCII
      whitespace; too few tokens is the "wrong data" panic (`MalformedLine`);
      exactly `n` are returned as they are; otherwise the first `n - 1` are
      copied one by one and the rest joined with single spaces. */
  method SplitLine(line: string, n: nat) returns (r: Result<seq<string>, GraphError>)
    requires n >= 1
    ensures r == SplitFields(line, n)
  {
    var data := Tokens(line);
    if |data| < n {
      return Err(MalformedLine);
    } else if |data| == n {
      return Ok(data);
    }
    var tmp := [];
    for i := 0 to n - 1
      invariant tmp == data[..i]
    {
      tmp := tmp + [data[i]];
    }
    r := Ok(tmp + [Join(data[n - 1..])]);
  }

  /** One line before the separator in `from` (src/lib.rs:178-182): the
      executable counterpart of `ParseVertexLine`, splitting with `SplitLine`. */
  method ReadVertexLine<VId, V>(line: string, parseId: string -> Option<VId>, parseV: string -> Option<V>)
    returns (r: Result<(VId, V), GraphError>)
    ensures r == ParseVertexLine(line, parseId, parseV)
  {
    var fields :- SplitLine(line, 2);
    var vid :- ParseField(fields[0], parseId);
    var vertex :- ParseField(fields[1], parseV);
    r := Ok((vid, vertex));
  }

  /** One line after the separator in `from` (src/lib.rs:185-190): the
      executable counterpart of `ParseEdgeLine`, splitting with `SplitLine`. */
  method ReadEdgeLine<VId, E>(line: string, parseId: string -> Option<VId>, parseE: string -> Option<E>)
    returns (r: Result<(VId, VId, E), GraphError>)
    ensures r == ParseEdgeLine(line, parseId, parseE)
  {
    var fields :- SplitLine(line, 3);
    var from :- ParseField(fields[0], parseId);
    var to :- ParseField(fields[1], parseId);
    var edge :- ParseField(fields[2], parseE);
    r := Ok((from, to, edge));
  }

  // ----------------------------------------------------- serialize's loops

  /** The first loop of `serialize` (src/lib.rs:117-119): a line per vertex
      entry, in some iteration order `order` of the table. */
  method WriteVertices<VId(==), V>(output: string, vertices: map<VId, V>, showId: VId -> string, showV: V -> string)
    returns (output': string, ghost order: seq<VId>)
    ensures Enumerates(order, vertices.Keys)
    ensures output' == output + Unlines(VertexLines(VertexPairs(vertices, order), showId, showV))
  {
    output', order := output, [];
    var todo := vertices.Keys;
    while todo != {}
      invariant EnumeratedSoFar(order, todo, vertices.Keys)
      invariant output' == output + Unlines(VertexLines(VertexPairs(vertices, order), showId, showV))
      decreases |todo|
    {
      var vid :| vid in todo;
      VertexTextSnoc(vertices, order, vid, showId, showV);
      EnumerateStep(order, todo, vertices.Keys, vid);
      ghost var done := Unlines(VertexLines(VertexPairs(vertices, order), showId, showV));
      var line := VertexLine(vid, vertices[vid], showId, showV) + "\n";
      output' := output' + line;
      assert output' == output + (done + line) by { ConcatAssoc(output, done, line); }
      order := order + [vid];
      todo := todo - {vid};
    }
    EnumerateDone(order, vertices.Keys);
  }

  /** The inner loop of `serialize` (src/lib.rs:122-124): a line per arc of
      the list of `from`, in list order. */
  method WriteArcs<VId, E>(output: string, from: VId, arcs: seq<(VId, E)>, showId: VId -> string, showE: E -> string)
    returns (output': string)
    ensures output' == output + Unlines(EdgeLines(ArcTriples(from, arcs), showId, showE))
  {
    output' := output;
    for j := 0 to |arcs|
      invariant output' == output + Unlines(EdgeLines(ArcTriples(from, arcs[..j]), showId, showE))
    {
      ArcTriplesSnoc(from, arcs, j);
      EdgeTextSnoc(ArcTriples(from, arcs[..j]), (from, arcs[j].0, arcs[j].1), showId, showE);
      ghost var done := Unlines(EdgeLines(ArcTriples(from, arcs[..j]), showId, showE));
      var line := EdgeLine(from, arcs[j].0, arcs[j].1, showId, showE) + "\n";
      output' := output' + line;
      assert output' == output + (done + line) by { ConcatAssoc(output, done, line); }
    }
    assert arcs[..|arcs|] == arcs;
  }

  /** The outer loop of `serialize` over the adjacency table
      (src/lib.rs:121-125), in some iteration order `order` of the table. */
  method WriteEdges<VId(==), E>(output: string, edges: map<VId, seq<(VId, E)>>, showId: VId -> string, showE: E -> string)
    returns (output': string, ghost order: seq<VId>)
    ensures Enumerates(order, edges.Keys)
    ensures output' == output + Unlines(EdgeLines(EdgeTriples(edges, order), showId, showE))
  {
    output', order := output, [];
    var remaining := edges.Keys;
    while remaining != {}
      invariant EnumeratedSoFar(order, remaining, edges.Keys)
      invariant output' == output + Unlines(EdgeLines(EdgeTriples(edges, order), showId, showE))
      decreases |remaining|
    {
      var from :| from in remaining;
      EdgeTextStep(edges, order, remaining, from, showId, showE);
      ghost var done := Unlines(EdgeLines(EdgeTriples(edges, order), showId, showE));
      ghost var more := Unlines(EdgeLines(ArcTriples(from, edges[from]), showId, showE));
      output' := WriteArcs(output', from, edges[from], showId, showE);
      assert output' == output + (done + more) by { ConcatAssoc(output, done, more); }
      order := order + [from];
      remaining := remaining - {from};
    }
    EnumerateDone(order, edges.Keys);
  }

  /** Growing a subset of `ids` shrinks what is left of `ids`. */
  lemma SubsetCardinality<T>(ids: set<T>, small: set<T>, large: set<T>)
    requires small <= large <= ids && small != large
    ensures |ids - large| < |ids - small|
  {
    var x :| x in large && x !in small;
    assert ids - small == (ids - large) + (large - small);
    assert (ids - large) * (large - small) == {};
    assert x in large - small;
  }

  // ------------------------------------------------------------ the graph

  /** `Graph<VId, V, E>` (src/lib.rs:13-16). */
  class Graph<VId(==, !new), V, E> {
    var vertices: map<VId, V>
    var edges: map<VId, seq<(VId, E)>>

    /** The two tables as a value. */
    function Model(): Tables<VId, V, E>
      reads this
    {
      Tables(vertices, edges)
    }

    /** `new` (src/lib.rs:24-29): both tables empty. */
    constructor ()
      ensures vertices == map[] && edges == map[]
    {
      vertices := map[];
      edges := map[];
    }

    /** `add_vertex` (src/lib.rs:31-33): insert or overwrite; the adjacency
        table is untouched. */
    method AddVertex(vid: VId, vertex: V)
      modifies this
      ensures Model() == WithVertex(old(Model()), vid, vertex)
      ensures GetVertexValue(vid) == Ok(vertex)
      ensures edges == old(edges)
    {
      vertices := vertices[vid := vertex];
    }

    /** `get_vertices` (src/lib.rs:35-37): a read view of the vertex table. */
    function GetVertices(): (r: map<VId, V>)
      reads this
      ensures r.Keys == vertices.Keys
      ensures forall k :: k in r ==> VertexValue(Model(), k) == Ok(r[k])
    {
      vertices
    }

    /** `get_vertex_value` (src/lib.rs:39-41): the value at `vid`; the
        `expect` panic on a missing id is `NotFound`. */
    function GetVertexValue(vid: VId): (r: Result<V, GraphError>)
      reads this
      ensures r.Ok? <==> vid in vertices
      ensures r.Ok? ==> r.value == vertices[vid]
      ensures r.Err? ==> r.error == NotFound
    {
      VertexValue(Model(), vid)
    }

    /** `add_edge` (src/lib.rs:59-62): append to the list of `from`, made
        empty first if absent; neither end need be a vertex. */
    method AddEdge(from: VId, to: VId, edge: E)
      modifies this
      ensures Model() == WithEdge(old(Model()), from, to, edge)
      ensures vertices == old(vertices)
      ensures GetNeighbors(from) == Some(OrEmpty(old(edges), from) + [(to, edge)])
    {
      var adjacent := if from in edges then edges[from] else [];
      edges := edges[from := adjacent + [(to, edge)]];
    }

    /** `get_neighbors` (src/lib.rs:64-66): `None` when `vid` never had a
        list, `Some([])` when its list was emptied. */
    function GetNeighbors(vid: VId): (r: Option<seq<(VId, E)>>)
      reads this
      ensures r.None? <==> vid !in edges
      ensures r.Some? ==> r.value == edges[vid]
    {
      if vid in edges then Some(edges[vid]) else None
    }

    /** `remove_edge` (src/lib.rs:68-80): both `expect` panics are
        `NotFound` and leave the graph as it was; otherwise the last arc to
        `to` is removed and `from` keeps its (possibly empty) list. */
    method RemoveEdge(from: VId, to: VId) returns (outcome: Outcome<GraphError>)
      modifies this
      ensures match WithoutEdge(old(Model()), from, to)
              case Ok(t) => outcome == Pass && Model() == t
              case Err(e) => outcome == Fail(e) && Model() == old(Model())
    {
      if from !in edges {
        return Fail(NotFound);
      }
      var arcs := edges[from];
      var index := FindLastMatch(arcs, to);
      match index
      case None =>
        outcome := Fail(NotFound);
      case Some(i) =>
        edges := edges[from := RemoveAt(arcs, i)];
        outcome := Pass;
    }

    /** `remove_vertex` (src/lib.rs:43-57) as written: drop the vertex and
        its own list, then, for every other list in the table's iteration
        order, collect the indices of the arcs to `vid` and remove them one
        by one. A list with two such arcs can make `Vec::remove` index past
        the end: that panic is `IndexOutOfBounds`, after which the contract
        leaves the remaining lists undescribed. */
    method RemoveVertex(vid: VId) returns (outcome: Outcome<GraphError>)
      modifies this
      ensures vertices == old(vertices) - {vid} && edges.Keys == old(edges).Keys - {vid}
      ensures outcome.Pass? ==> Some(Model()) == WithoutVertex(old(Model()), vid)
      ensures outcome.Fail? ==> outcome.error == IndexOutOfBounds && WithoutVertex(old(Model()), vid) == None
    {
      ghost var before := Model();
      vertices := vertices - {vid};
      var table, ok := PruneTable(edges, vid, before);
      edges := table;
      outcome := if ok then Pass else Fail(IndexOutOfBounds);
    }

    /** `remove_vertex` as its doc comment (src/lib.rs:42) describes it,
        with the index shift of the as-written loop corrected: the vertex,
        its own list and every arc to it are gone, all other arcs stay in
        order, and no input panics. */
    method RemoveVertexCorrected(vid: VId)
      modifies this
      ensures Model() == WithoutVertexIntended(old(Model()), vid)
    {
      ghost var before := Model();
      vertices := vertices - {vid};
      var table := PruneTableCorrected(edges, vid);
      edges := table;
      assert edges == WithoutVertexIntended(before, vid).edges;
    }

    /** `bfs` (src/lib.rs:84-105): a search with a `Vec` popped as a stack
        and a visited set. `start` is visited before anything is looked at,
        and `finish` is compared only with newly discovered ids, so the
        answer is true exactly when `finish` is another id that a path of
        one or more arcs leads to; `bfs(x, x)` is false. Ids without a list
        have no successors. */
    method Bfs(start: VId, finish: VId) returns (found: bool)
      ensures found <==> start != finish && Reachable(edges, start, finish)
    {
      ghost var ids := {start} + Targets(edges);
      var stack := [start];
      var visited := {start};
      while |stack| > 0
        invariant start in visited && visited <= ids
        invariant forall v :: v in stack ==> v in visited
        invariant forall v :: v in visited ==> v == start || Reachable(edges, start, v)
        invariant finish in visited ==> finish == start
        invariant forall v, j :: v in visited && v !in stack && v in edges && 0 <= j < |edges[v]| ==> edges[v][j].0 in visited
        decreases |ids - visited|, |stack|
      {
        var vertex := stack[|stack| - 1];
        stack := stack[..|stack| - 1];
        if vertex in edges {
          ghost var visited0, stack0 := visited, stack;
          var hit;
          stack, visited, hit := Expand(vertex, finish, stack, visited, ids);
          forall v | v in visited && v !in visited0 ensures Reachable(edges, start, v) {
            ReachableStep(edges, start, vertex, v);
          }
          if hit {
            return true;
          }
          forall v, j | v in visited && v !in stack && v in edges && 0 <= j < |edges[v]|
            ensures edges[v][j].0 in visited
          {
            if v != vertex {
              assert v in visited0 && v !in stack0;
            }
          }
          if visited != visited0 {
            SubsetCardinality(ids, visited0, visited);
          }
        }
      }
      if start != finish {
        assert Closed(edges, visited);
        ClosedBlocksReach(edges, visited, start, finish);
      }
      found := false;
    }

    /** The inner loop of `bfs` (src/lib.rs:93-101) over the list of
        `vertex`: each target not yet visited is pushed and marked visited,
        and meeting `finish` that way stops the search (`hit`). */
    method Expand(vertex: VId, finish: VId, stack: seq<VId>, visited: set<VId>, ghost ids: set<VId>)
      returns (stack': seq<VId>, visited': set<VId>, hit: bool)
      requires vertex in edges && visited <= ids && Targets(edges) <= ids
      ensures visited <= visited' <= ids
      ensures hit ==> finish in visited' && finish !in visited
      ensures !hit ==> forall j :: 0 <= j < |edges[vertex]| ==> edges[vertex][j].0 in visited'
      ensures finish in visited' && finish !in visited ==> hit
      ensures forall v :: v in visited' && v !in visited ==> Arc(edges, vertex, v) && v in stack'
      ensures forall v :: v in stack ==> v in stack'
      ensures forall v :: v in stack' ==> v in stack || (v in visited' && v !in visited)
      ensures visited' == visited ==> stack' == stack
    {
      var neighbors := edges[vertex];
      stack', visited', hit := stack, visited, false;
      var j := 0;
      while j < |neighbors|
        invariant 0 <= j <= |neighbors|
        invariant visited <= visited' <= ids
        invariant forall i :: 0 <= i < j ==> neighbors[i].0 in visited'
        invariant finish in visited' ==> finish in visited
        invariant forall v :: v in visited' && v !in visited ==> Arc(edges, vertex, v) && v in stack'
        invariant forall v :: v in stack ==> v in stack'
        invariant forall v :: v in stack' ==> v in stack || (v in visited' && v !in visited)
        invariant visited' == visited ==> stack' == stack
      {
        var vid := neighbors[j].0;
        if vid !in visited' {
          assert Arc(edges, vertex, vid);
          stack' := stack' + [vid];
          visited' := visited' + {vid};
          if vid == finish {
            return stack', visited', true;
          }
        }
        j := j + 1;
      }
    }

    /** One turn of the loop of `Graph::from` (src/lib.rs:176-195): line
        `i` is a vertex line before the separator, an arc line after it, and
        the separator itself adds nothing. */
    method ReadLine(lines: seq<string>, separator: nat, i: nat, parseId: string -> Option<VId>,
                    parseV: string -> Option<V>, parseE: string -> Option<E>) returns (outcome: Outcome<GraphError>)
      requires i < |lines|
      modifies this
      ensures match Turn(old(Model()), lines, separator, i, parseId, parseV, parseE)
              case Ok(t) => outcome == Pass && Model() == t
              case Err(e) => outcome == Fail(e)
    {
      if i < separator {
        var line := ReadVertexLine(lines[i], parseId, parseV);
        if line.Err? {
          return Fail(line.error);
        }
        AddVertex(line.value.0, line.value.1);
      } else if i > separator {
        var line := ReadEdgeLine(lines[i], parseId, parseE);
        if line.Err? {
          return Fail(line.error);
        }
        AddEdge(line.value.0, line.value.1, line.value.2);
      }
      outcome := Pass;
    }

    /** The loop of `Graph::from` (src/lib.rs:176-195): the lines in order,
        stopping at the first that fails. */
    method ReadLines(lines: seq<string>, separator: nat, parseId: string -> Option<VId>,
                     parseV: string -> Option<V>, parseE: string -> Option<E>) returns (outcome: Outcome<GraphError>)
      requires separator < |lines|
      modifies this
      ensures outcome.Pass? ==> DecodeFrom(old(Model()), lines, separator, 0, parseId, parseV, parseE) == Ok(Model())
      ensures outcome.Fail? ==> DecodeFrom(old(Model()), lines, separator, 0, parseId, parseV, parseE) == Err(outcome.error)
    {
      DecodeLoopIsDecodeFrom(Model(), lines, separator, 0, parseId, parseV, parseE);
      ghost var goal := DecodeLoop(Model(), lines, separator, 0, parseId, parseV, parseE);
      for i := 0 to |lines|
        invariant DecodeLoop(Model(), lines, separator, i, parseId, parseV, parseE) == goal
      {
        ghost var built := Model();
        outcome := ReadLine(lines, separator, i, parseId, parseV, parseE);
        if outcome.Fail? {
          DecodeLoopStops(built, lines, separator, i, outcome.error, parseId, parseV, parseE);
          return;
        }
        DecodeLoopNext(built, Model(), lines, separator, i, parseId, parseV, parseE);
      }
      outcome := Pass;
    }

    /** `Graph::from` (src/lib.rs:137-197): split the text into lines, find
        the first line that is exactly "#" (none is the "data corrupted"
        panic, `CorruptData`), then walk the lines in order: each line
        before it is split into two fields, unquoted, parsed and added as a
        vertex; each line after it is split into three fields and added as
        an arc. The first failing line ends the call with its error. */
    static method From(text: string, parseId: string -> Option<VId>, parseV: string -> Option<V>,
                       parseE: string -> Option<E>) returns (r: Result<Graph<VId, V, E>, GraphError>)
      ensures r.Ok? ==> fresh(r.value) && Decode(text, parseId, parseV, parseE) == Ok(r.value.Model())
      ensures r.Err? ==> Decode(text, parseId, parseV, parseE) == Err(r.error)
    {
      var output := new Graph();
      var lines := Lines(text);
      var position := FirstIndex(lines, "#");
      if position.None? {
        return Err(CorruptData);
      }
      var outcome := output.ReadLines(lines, position.value, parseId, parseV, parseE);
      if outcome.Fail? {
        return Err(outcome.error);
      }
      r := Ok(output);
    }

    /** `serialize` (src/lib.rs:115-127): one `"{vid:?} {v:?}"` line per
        vertex, the line "#", then one `"{from:?} {to:?} {e:?}"` line per
        arc; the tables are visited in some order (a `HashMap`'s), each
        list in its own order. `show*` stand for the `Debug` rendering. */
    method Serialize(showId: VId -> string, showV: V -> string, showE: E -> string) returns (output: string)
      ensures exists vorder, eorder :: Enumerates(vorder, vertices.Keys) && Enumerates(eorder, edges.Keys)
                && output == Unlines(SerializedLines(Model(), vorder, eorder, showId, showV, showE))
    {
      ghost var vorder, eorder;
      output, vorder := WriteVertices("", vertices, showId, showV);
      ghost var vtext := Unlines(VertexLines(VertexPairs(vertices, vorder), showId, showV));
      assert output == vtext by { assert "" + vtext == vtext; }
      output := output + "#\n";
      output, eorder := WriteEdges(output, edges, showId, showE);
      SerializedText(Model(), vorder, eorder, showId, showV, showE);
      assert output == Unlines(SerializedLines(Model(), vorder, eorder, showId, showV, showE));
    }
  }
}
