/** The Trivial Graph Format codec of `Graph` (src/lib.rs:114-197): the
    serialized text, the parser's helpers and the line-by-line decoding, as
    functions on the tables, with the round trip between the two.

    Rust's `Debug` rendering and `FromStr` parsing of the id, vertex and edge
    types are parameters: `show*` renders a value, `parse*` returns `None`
    where `FromStr` would return an error. */
module Tgf {
  import opened Wrappers
  import opened Text
  import opened Store

  // ------------------------------------------------------------- helpers

  /** `delete_quotes` (src/lib.rs:147-152): strip one pair of outer double
      quotes when the text both starts and ends with one. The lone token
      "\"" does both, and slicing it as `[1..0]` panics. */
  function DeleteQuotes(s: string): (r: Result<string, GraphError>)
    ensures r.Err? <==> s == "\""
    ensures r.Err? ==> r.error == QuoteSlice
    ensures r.Ok? ==> |r.value| <= |s|
    ensures r.Ok? && |s| >= 2 && s[0] == '"' && s[|s| - 1] == '"' ==> r.value == s[1..|s| - 1]
    ensures !(|s| > 0 && s[0] == '"' && s[|s| - 1] == '"') ==> r == Ok(s)
  {
    if |s| > 0 && s[0] == '"' && s[|s| - 1] == '"' then
      if |s| == 1 then Err(QuoteSlice) else Ok(s[1..|s| - 1])
    else Ok(s)
  }

  /** Quoting and `delete_quotes` are inverse: `"hello world"` gives `hello world`. */
  lemma DeleteQuotesOfQuoted(w: string)
    ensures DeleteQuotes("\"" + w + "\"") == Ok(w)
  {
    var s := "\"" + w + "\"";
    assert s[1..|s| - 1] == w;
  }

  /** `split_line_into_vec_with_len` (src/lib.rs:157-171): the first `n - 1`
      whitespace-separated tokens, then all remaining tokens joined by single
      spaces; fewer than `n` tokens is the "wrong data" panic. (`n - 1` on
      `usize` demands `n >= 1`; the parser calls it with 2 and 3.) */
  function SplitFields(line: string, n: nat): (r: Result<seq<string>, GraphError>)
    requires n >= 1
    ensures r.Err? <==> |Tokens(line)| < n
    ensures r.Err? ==> r.error == MalformedLine
    ensures r.Ok? ==> |r.value| == n
    ensures r.Ok? ==> r.value[..n - 1] == Tokens(line)[..n - 1]
    ensures r.Ok? ==> r.value[n - 1] == Join(Tokens(line)[n - 1..])
  {
    var data := Tokens(line);
    if |data| < n then Err(MalformedLine)
    else if |data| == n then
      assert data[n - 1..] == [data[n - 1]];
      Ok(data)
    else Ok(data[..n - 1] + [Join(data[n - 1..])])
  }

  /** The fields carry exactly the tokens of the line, in order: nothing is
      lost or invented, only the spacing of the last field is normalised. */
  lemma SplitFieldsKeepsTokens(line: string, n: nat)
    requires n >= 1 && |Tokens(line)| >= n
    ensures Tokens(Join(SplitFields(line, n).value)) == Tokens(line)
  {
    var data := Tokens(line);
    var fields := SplitFields(line, n).value;
    TokensOfJoin(fields);
    TokensOfJoinedTokens(data[n - 1..]);
    assert data == data[..n - 1] + data[n - 1..];
  }

  /** A line whose tokens are the leading fields followed by those of a
      final phrase splits into exactly those fields. */
  lemma SplitFieldsOfParts(line: string, fields: seq<string>)
    requires |fields| >= 1 && IsPhrase(fields[|fields| - 1])
    requires Tokens(line) == fields[..|fields| - 1] + Tokens(fields[|fields| - 1])
    ensures SplitFields(line, |fields|) == Ok(fields)
  {
    var n := |fields|;
    var data := Tokens(line);
    assert data[..n - 1] == fields[..n - 1];
    assert data[n - 1..] == Tokens(fields[n - 1]);
    var v := SplitFields(line, n).value;
    assert v[..n - 1] == fields[..n - 1];
    assert v[n - 1] == fields[n - 1];
    assert v == v[..n - 1] + [v[n - 1]];
    assert fields == fields[..n - 1] + [fields[n - 1]];
  }

  /** Splitting a line made of single-token fields and a final phrase, joined
      by spaces, gives those fields back. */
  lemma SplitFieldsOfJoin(fields: seq<string>)
    requires |fields| >= 1
    requires forall i :: 0 <= i < |fields| - 1 ==> IsToken(fields[i])
    requires IsPhrase(fields[|fields| - 1])
    ensures SplitFields(Join(fields), |fields|) == Ok(fields)
  {
    TokensOfJoin(fields);
    SplitFieldsOfParts(Join(fields), fields);
  }

  /** The tokens of the example line of the helper's doc comment. */
  lemma ExampleTokens()
    ensures Tokens("praise the blobcat") == ["praise", "the", "blobcat"]
  {
    var words := ["praise", "the", "blobcat"];
    assert IsToken("praise") by {
      assert forall i :: 0 <= i < 6 ==> "praise"[i] in "praise";
    }
    assert IsToken("the") by {
      assert forall i :: 0 <= i < 3 ==> "the"[i] in "the";
    }
    assert IsToken("blobcat") by {
      assert forall i :: 0 <= i < 7 ==> "blobcat"[i] in "blobcat";
    }
    assert Join(words) == "praise the blobcat";
    TokensOfJoinedTokens(words);
  }

  /** Splitting a line whose tokens are "praise", "the", "blobcat". */
  lemma SplitThreeWords(line: string)
    requires Tokens(line) == ["praise", "the", "blobcat"]
    ensures SplitFields(line, 2) == Ok(["praise", "the blobcat"])
    ensures SplitFields(line, 3) == Ok(["praise", "the", "blobcat"])
    ensures SplitFields(line, 4) == Err(MalformedLine)
  {
    var words := Tokens(line);
    assert Join(words[1..]) == "the blobcat" by {
      assert words[1..] == ["the", "blobcat"];
      assert words[2..] == ["blobcat"];
    }
    assert words[..1] + [Join(words[1..])] == ["praise", "the blobcat"];
  }

  /** The examples of the helper's doc comment (src/lib.rs:154-156). */
  lemma SplitFieldsExamples()
    ensures SplitFields("praise the blobcat", 2) == Ok(["praise", "the blobcat"])
    ensures SplitFields("praise the blobcat", 3) == Ok(["praise", "the", "blobcat"])
    ensures SplitFields("praise the blobcat", 4) == Err(MalformedLine)
  {
    ExampleTokens();
    SplitThreeWords("praise the blobcat");
  }

  // ------------------------------------------------------------- decoding

  /** One field: `delete_quotes` then `parse` (src/lib.rs:181-182, 188-190). */
  function ParseField<T>(field: string, parse: string -> Option<T>): (r: Result<T, GraphError>)
    ensures r.Err? ==> r.error == QuoteSlice || r.error == ParseError
  {
    var s :- DeleteQuotes(field);
    match parse(s)
    case Some(x) => Ok(x)
    case None => Err(ParseError)
  }

  /** A line before the separator: `id value` (src/lib.rs:178-184). */
  function ParseVertexLine<VId, V>(line: string, parseId: string -> Option<VId>, parseV: string -> Option<V>)
    : (r: Result<(VId, V), GraphError>)
    ensures r.Err? ==> r.error in {MalformedLine, QuoteSlice, ParseError}
  {
    var fields :- SplitFields(line, 2);
    var vid :- ParseField(fields[0], parseId);
    var vertex :- ParseField(fields[1], parseV);
    Ok((vid, vertex))
  }

  /** A line after the separator: `from to value` (src/lib.rs:185-192). */
  function ParseEdgeLine<VId, E>(line: string, parseId: string -> Option<VId>, parseE: string -> Option<E>)
    : (r: Result<(VId, VId, E), GraphError>)
    ensures r.Err? ==> r.error in {MalformedLine, QuoteSlice, ParseError}
  {
    var fields :- SplitFields(line, 3);
    var from :- ParseField(fields[0], parseId);
    var to :- ParseField(fields[1], parseId);
    var edge :- ParseField(fields[2], parseE);
    Ok((from, to, edge))
  }

  /** `position(|x| x == "#")`: the first line equal to `x`. */
  function FirstIndex(lines: seq<string>, x: string): (r: Option<nat>)
    ensures r.None? <==> x !in lines
    ensures r.Some? ==> r.value < |lines| && lines[r.value] == x && x !in lines[..r.value]
    decreases |lines|
  {
    if lines == [] then None
    else if lines[0] == x then Some(0)
    else
      match FirstIndex(lines[1..], x)
      case None => None
      case Some(i) =>
        assert lines[..i + 1] == [lines[0]] + lines[1..][..i];
        Some(i + 1)
  }

  /** Lines `i` up to `j` parsed in order by `parse`; the first line that
      fails gives the result. */
  function ParseLines<T>(lines: seq<string>, i: nat, j: nat, parse: string -> Result<T, GraphError>)
    : (r: Result<seq<T>, GraphError>)
    requires i <= j <= |lines|
    ensures r.Ok? ==> |r.value| == j - i
    ensures r.Ok? ==> forall k :: i <= k < j ==> parse(lines[k]) == Ok(r.value[k - i])
    ensures r.Err? ==> exists k :: i <= k < j && parse(lines[k]) == Err(r.error)
    decreases j - i
  {
    if i == j then Ok([])
    else
      var x :- parse(lines[i]);
      var rest :- ParseLines(lines, i + 1, j, parse);
      Ok([x] + rest)
  }

  /** The parser of the lines before the separator (src/lib.rs:178-182). */
  function VertexParser<VId, V>(parseId: string -> Option<VId>, parseV: string -> Option<V>)
    : string -> Result<(VId, V), GraphError>
  {
    line => ParseVertexLine(line, parseId, parseV)
  }

  /** The parser of the lines after the separator (src/lib.rs:185-190). */
  function EdgeParser<VId, E>(parseId: string -> Option<VId>, parseE: string -> Option<E>)
    : string -> Result<(VId, VId, E), GraphError>
  {
    line => ParseEdgeLine(line, parseId, parseE)
  }

  /** `add_vertex` for each pair in turn (src/lib.rs:183). */
  function AddVertices<VId(==), V, E>(t: Tables<VId, V, E>, ps: seq<(VId, V)>): (r: Tables<VId, V, E>)
    ensures r.edges == t.edges
    decreases |ps|
  {
    if ps == [] then t
    else
      var p := ps[|ps| - 1];
      WithVertex(AddVertices(t, ps[..|ps| - 1]), p.0, p.1)
  }

  /** `add_edge` for each arc in turn (src/lib.rs:191). */
  function AddArcs<VId(==), V, E>(t: Tables<VId, V, E>, arcs: seq<(VId, VId, E)>): (r: Tables<VId, V, E>)
    ensures r.vertices == t.vertices
    decreases |arcs|
  {
    if arcs == [] then t
    else
      var a := arcs[|arcs| - 1];
      WithEdge(AddArcs(t, arcs[..|arcs| - 1]), a.0, a.1, a.2)
  }

  /** The loop of `from` (src/lib.rs:176-195) from line `i` on, with the
      graph `t` built so far: the remaining vertex lines, the separator
      skipped, then the edge lines. A panic ends the whole call, so
      parsing every line first and then adding them in order has the same
      outcome as the interleaved loop: the first error, or the graph. */
  function DecodeFrom<VId(==), V, E>(t: Tables<VId, V, E>, lines: seq<string>, sep: nat, i: nat,
                                     parseId: string -> Option<VId>, parseV: string -> Option<V>,
                                     parseE: string -> Option<E>): (r: Result<Tables<VId, V, E>, GraphError>)
    requires sep < |lines| && i <= |lines|
    ensures r.Err? ==> r.error in {MalformedLine, QuoteSlice, ParseError}
  {
    if i <= sep then
      var ps :- ParseLines(lines, i, sep, VertexParser(parseId, parseV));
      var arcs :- ParseLines(lines, sep + 1, |lines|, EdgeParser(parseId, parseE));
      Ok(AddArcs(AddVertices(t, ps), arcs))
    else
      var arcs :- ParseLines(lines, i, |lines|, EdgeParser(parseId, parseE));
      Ok(AddArcs(t, arcs))
  }

  /** Adding a first pair, then the rest. */
  lemma {:induction false} AddVerticesCons<VId, V, E>(t: Tables<VId, V, E>, p: (VId, V), rest: seq<(VId, V)>)
    ensures AddVertices(t, [p] + rest) == AddVertices(WithVertex(t, p.0, p.1), rest)
    decreases |rest|
  {
    if rest == [] {
      assert ([p] + rest)[..0] == [];
    } else {
      var init := rest[..|rest| - 1];
      assert ([p] + rest)[..|rest|] == [p] + init;
      AddVerticesCons(t, p, init);
    }
  }

  /** Vertex lines are added in order, so of two lines with the same id the
      later one's value is the one kept (src/lib.rs:177-183). */
  lemma {:induction false} AddVerticesLaterWins<VId, V, E>(t: Tables<VId, V, E>, ps: seq<(VId, V)>, j: nat)
    requires j < |ps|
    requires forall i :: j < i < |ps| ==> ps[i].0 != ps[j].0
    ensures ps[j].0 in AddVertices(t, ps).vertices
    ensures AddVertices(t, ps).vertices[ps[j].0] == ps[j].1
    decreases |ps|
  {
    if j < |ps| - 1 {
      var init := ps[..|ps| - 1];
      assert init[j] == ps[j];
      AddVerticesLaterWins(t, init, j);
    }
  }

  /** Adding a first arc, then the rest. */
  lemma {:induction false} AddArcsCons<VId, V, E>(t: Tables<VId, V, E>, a: (VId, VId, E), rest: seq<(VId, VId, E)>)
    ensures AddArcs(t, [a] + rest) == AddArcs(WithEdge(t, a.0, a.1, a.2), rest)
    decreases |rest|
  {
    if rest == [] {
      assert ([a] + rest)[..0] == [];
    } else {
      var init := rest[..|rest| - 1];
      assert ([a] + rest)[..|rest|] == [a] + init;
      AddArcsCons(t, a, init);
    }
  }

  /** A turn of the loop on a vertex line: the vertex is added, or the
      line's parse error ends decoding. */
  lemma DecodeFromVertex<VId, V, E>(t: Tables<VId, V, E>, lines: seq<string>, sep: nat, i: nat,
      parseId: string -> Option<VId>, parseV: string -> Option<V>, parseE: string -> Option<E>)
    requires i < sep < |lines|
    ensures DecodeFrom(t, lines, sep, i, parseId, parseV, parseE)
              == match ParseVertexLine(lines[i], parseId, parseV)
                 case Ok(p) => DecodeFrom(WithVertex(t, p.0, p.1), lines, sep, i + 1, parseId, parseV, parseE)
                 case Err(e) => Err(e)
  {
    match ParseVertexLine(lines[i], parseId, parseV)
    case Ok(p) =>
      var rest := ParseLines(lines, i + 1, sep, VertexParser(parseId, parseV));
      if rest.Ok? {
        AddVerticesCons(t, p, rest.value);
      }
    case Err(e) =>
  }

  /** The turn of the loop on the separator line changes nothing. */
  lemma DecodeFromSeparator<VId, V, E>(t: Tables<VId, V, E>, lines: seq<string>, sep: nat,
      parseId: string -> Option<VId>, parseV: string -> Option<V>, parseE: string -> Option<E>)
    requires sep < |lines|
    ensures DecodeFrom(t, lines, sep, sep, parseId, parseV, parseE) == DecodeFrom(t, lines, sep, sep + 1, parseId, parseV, parseE)
  {
    assert ParseLines(lines, sep, sep, VertexParser(parseId, parseV)) == Ok([]);
    assert AddVertices(t, []) == t;
  }

  /** A turn of the loop on an edge line: the arc is added, or the line's
      parse error ends decoding. */
  lemma DecodeFromEdge<VId, V, E>(t: Tables<VId, V, E>, lines: seq<string>, sep: nat, i: nat,
      parseId: string -> Option<VId>, parseV: string -> Option<V>, parseE: string -> Option<E>)
    requires sep < i < |lines|
    ensures DecodeFrom(t, lines, sep, i, parseId, parseV, parseE)
              == match ParseEdgeLine(lines[i], parseId, parseE)
                 case Ok(a) => DecodeFrom(WithEdge(t, a.0, a.1, a.2), lines, sep, i + 1, parseId, parseV, parseE)
                 case Err(e) => Err(e)
  {
    match ParseEdgeLine(lines[i], parseId, parseE)
    case Ok(a) =>
      var rest := ParseLines(lines, i + 1, |lines|, EdgeParser(parseId, parseE));
      if rest.Ok? {
        AddArcsCons(t, a, rest.value);
      }
    case Err(e) =>
  }

  /** Past the last line, decoding gives the graph built so far. */
  lemma DecodeFromEnd<VId, V, E>(t: Tables<VId, V, E>, lines: seq<string>, sep: nat,
      parseId: string -> Option<VId>, parseV: string -> Option<V>, parseE: string -> Option<E>)
    requires sep < |lines|
    ensures DecodeFrom(t, lines, sep, |lines|, parseId, parseV, parseE) == Ok(t)
  {
    assert ParseLines(lines, |lines|, |lines|, EdgeParser(parseId, parseE)) == Ok([]);
  }

  /** One turn of the loop of `from` (src/lib.rs:176-194) on line `i`:
      before the separator a vertex is added, after it an arc, and the
      separator itself is skipped; a line that does not parse is the error. */
  function Turn<VId(==), V, E>(t: Tables<VId, V, E>, lines: seq<string>, sep: nat, i: nat,
                               parseId: string -> Option<VId>, parseV: string -> Option<V>,
                               parseE: string -> Option<E>): Result<Tables<VId, V, E>, GraphError>
    requires i < |lines|
  {
    if i < sep then
      var p :- ParseVertexLine(lines[i], parseId, parseV);
      Ok(WithVertex(t, p.0, p.1))
    else if i == sep then Ok(t)
    else
      var a :- ParseEdgeLine(lines[i], parseId, parseE);
      Ok(WithEdge(t, a.0, a.1, a.2))
  }

  /** A turn that succeeds hands its graph to the rest of the decoding. */
  lemma DecodeFromNext<VId, V, E>(t: Tables<VId, V, E>, t': Tables<VId, V, E>, lines: seq<string>, sep: nat, i: nat,
      parseId: string -> Option<VId>, parseV: string -> Option<V>, parseE: string -> Option<E>)
    requires sep < |lines| && i < |lines| && Turn(t, lines, sep, i, parseId, parseV, parseE) == Ok(t')
    ensures DecodeFrom(t, lines, sep, i, parseId, parseV, parseE) == DecodeFrom(t', lines, sep, i + 1, parseId, parseV, parseE)
  {
    if i < sep {
      DecodeFromVertex(t, lines, sep, i, parseId, parseV, parseE);
    } else if i == sep {
      DecodeFromSeparator(t, lines, sep, parseId, parseV, parseE);
    } else {
      DecodeFromEdge(t, lines, sep, i, parseId, parseV, parseE);
    }
  }

  /** A turn that fails is the error of the whole decoding. */
  lemma DecodeFromStops<VId, V, E>(t: Tables<VId, V, E>, lines: seq<string>, sep: nat, i: nat, e: GraphError,
      parseId: string -> Option<VId>, parseV: string -> Option<V>, parseE: string -> Option<E>)
    requires sep < |lines| && i < |lines| && Turn(t, lines, sep, i, parseId, parseV, parseE) == Err(e)
    ensures DecodeFrom(t, lines, sep, i, parseId, parseV, parseE) == Err(e)
  {
    if i < sep {
      DecodeFromVertex(t, lines, sep, i, parseId, parseV, parseE);
    } else if i == sep {
      DecodeFromSeparator(t, lines, sep, parseId, parseV, parseE);
    } else {
      DecodeFromEdge(t, lines, sep, i, parseId, parseV, parseE);
    }
  }

  /** The loop of `from` (src/lib.rs:176-195) turn by turn, from line `i`
      with the graph `t` built so far. */
  function DecodeLoop<VId(==), V, E>(t: Tables<VId, V, E>, lines: seq<string>, sep: nat, i: nat,
                                     parseId: string -> Option<VId>, parseV: string -> Option<V>,
                                     parseE: string -> Option<E>): Result<Tables<VId, V, E>, GraphError>
    requires i <= |lines|
    decreases |lines| - i
  {
    if i == |lines| then Ok(t)
    else
      var t' :- Turn(t, lines, sep, i, parseId, parseV, parseE);
      DecodeLoop(t', lines, sep, i + 1, parseId, parseV, parseE)
  }

  /** A turn that succeeds hands its graph to the next turn. */
  lemma DecodeLoopNext<VId, V, E>(t: Tables<VId, V, E>, t': Tables<VId, V, E>, lines: seq<string>, sep: nat, i: nat,
      parseId: string -> Option<VId>, parseV: string -> Option<V>, parseE: string -> Option<E>)
    requires i < |lines| && Turn(t, lines, sep, i, parseId, parseV, parseE) == Ok(t')
    ensures DecodeLoop(t, lines, sep, i, parseId, parseV, parseE) == DecodeLoop(t', lines, sep, i + 1, parseId, parseV, parseE)
  {
  }

  /** A turn that fails ends the loop with its error. */
  lemma DecodeLoopStops<VId, V, E>(t: Tables<VId, V, E>, lines: seq<string>, sep: nat, i: nat, e: GraphError,
      parseId: string -> Option<VId>, parseV: string -> Option<V>, parseE: string -> Option<E>)
    requires i < |lines| && Turn(t, lines, sep, i, parseId, parseV, parseE) == Err(e)
    ensures DecodeLoop(t, lines, sep, i, parseId, parseV, parseE) == Err(e)
  {
  }

  /** Running the loop turn by turn is parsing all lines and then adding
      them in order. */
  lemma {:induction false} DecodeLoopIsDecodeFrom<VId, V, E>(t: Tables<VId, V, E>, lines: seq<string>, sep: nat, i: nat,
      parseId: string -> Option<VId>, parseV: string -> Option<V>, parseE: string -> Option<E>)
    requires sep < |lines| && i <= |lines|
    ensures DecodeLoop(t, lines, sep, i, parseId, parseV, parseE) == DecodeFrom(t, lines, sep, i, parseId, parseV, parseE)
    decreases |lines| - i
  {
    if i == |lines| {
      DecodeFromEnd(t, lines, sep, parseId, parseV, parseE);
    } else {
      var step := Turn(t, lines, sep, i, parseId, parseV, parseE);
      if step.Ok? {
        DecodeFromNext(t, step.value, lines, sep, i, parseId, parseV, parseE);
        DecodeLoopNext(t, step.value, lines, sep, i, parseId, parseV, parseE);
        DecodeLoopIsDecodeFrom(step.value, lines, sep, i + 1, parseId, parseV, parseE);
      } else {
        DecodeFromStops(t, lines, sep, i, step.error, parseId, parseV, parseE);
        DecodeLoopStops(t, lines, sep, i, step.error, parseId, parseV, parseE);
      }
    }
  }

  /** `Graph::from` (src/lib.rs:137-197): split into lines, find the first
      line that is exactly "#" (none is the "data corrupted" panic), then
      decode the lines around it into an empty graph. */
  function Decode<VId(==), V, E>(text: string, parseId: string -> Option<VId>, parseV: string -> Option<V>,
                                 parseE: string -> Option<E>): (r: Result<Tables<VId, V, E>, GraphError>)
    ensures r == Err(CorruptData) <==> "#" !in Lines(text)
  {
    var lines := Lines(text);
    match FirstIndex(lines, "#")
    case None => Err(CorruptData)
    case Some(sep) => DecodeFrom(Tables(map[], map[]), lines, sep, 0, parseId, parseV, parseE)
  }

  /** A vertex line with fewer than two tokens (a blank line, a lone id)
      stops decoding with `MalformedLine`. */
  lemma DecodeShortVertexLine<VId, V, E>(text: string, parseId: string -> Option<VId>,
                                             parseV: string -> Option<V>, parseE: string -> Option<E>)
    requires "#" in Lines(text) && Lines(text)[0] != "#"
    requires |Tokens(Lines(text)[0])| < 2
    ensures Decode(text, parseId, parseV, parseE) == Err(MalformedLine)
  {
  }

  // ------------------------------------------------------------- encoding

  /** `format!("{:?} {:?}", vid, vertex)` (src/lib.rs:118). */
  function VertexLine<VId, V>(vid: VId, vertex: V, showId: VId -> string, showV: V -> string): string {
    showId(vid) + " " + showV(vertex)
  }

  /** `format!("{:?} {:?} {:?}", from, to, edge)` (src/lib.rs:123). */
  function EdgeLine<VId, E>(from: VId, to: VId, edge: E, showId: VId -> string, showE: E -> string): string {
    showId(from) + " " + showId(to) + " " + showE(edge)
  }

  /** The vertex entries, in the order the vertex table is iterated. */
  function VertexPairs<VId(==), V>(vertices: map<VId, V>, order: seq<VId>): seq<(VId, V)>
    requires forall i :: 0 <= i < |order| ==> order[i] in vertices
  {
    seq(|order|, i requires 0 <= i < |order| => (order[i], vertices[order[i]]))
  }

  /** One line per vertex entry. */
  function VertexLines<VId, V>(pairs: seq<(VId, V)>, showId: VId -> string, showV: V -> string): seq<string> {
    seq(|pairs|, i requires 0 <= i < |pairs| => VertexLine(pairs[i].0, pairs[i].1, showId, showV))
  }

  /** The arcs of one adjacency list as `(from, to, edge)`, in list order. */
  function ArcTriples<VId, E>(from: VId, arcs: seq<(VId, E)>): seq<(VId, VId, E)> {
    seq(|arcs|, i requires 0 <= i < |arcs| => (from, arcs[i].0, arcs[i].1))
  }

  /** Every arc: each list in turn, in the order the adjacency table is iterated. */
  function EdgeTriples<VId(==), E>(edges: map<VId, seq<(VId, E)>>, order: seq<VId>): seq<(VId, VId, E)>
    requires forall i :: 0 <= i < |order| ==> order[i] in edges
    decreases |order|
  {
    if order == [] then []
    else EdgeTriples(edges, order[..|order| - 1]) + ArcTriples(order[|order| - 1], edges[order[|order| - 1]])
  }

  /** One line per arc. */
  function EdgeLines<VId, E>(arcs: seq<(VId, VId, E)>, showId: VId -> string, showE: E -> string): seq<string> {
    seq(|arcs|, i requires 0 <= i < |arcs| => EdgeLine(arcs[i].0, arcs[i].1, arcs[i].2, showId, showE))
  }

  /** `order` lists every key of a table exactly once: one possible
      iteration order of a `HashMap`. */
  ghost predicate Enumerates<K>(order: seq<K>, keys: set<K>) {
    && (forall i :: 0 <= i < |order| ==> order[i] in keys)
    && (forall k :: k in keys ==> k in order)
    && Distinct(order)
  }

  /** No key is listed twice. */
  ghost predicate Distinct<K>(order: seq<K>) {
    forall i, j :: 0 <= i < j < |order| ==> order[i] != order[j]
  }

  /** Part way through iterating over `keys`: `order` lists, once each, the
      keys already visited, and `todo` holds the others. */
  ghost predicate EnumeratedSoFar<K>(order: seq<K>, todo: set<K>, keys: set<K>) {
    && todo <= keys
    && Distinct(order)
    && (forall i :: 0 <= i < |order| ==> order[i] in keys && order[i] !in todo)
    && (forall k :: k in keys ==> k in todo || k in order)
  }

  /** Visiting one more key. */
  lemma EnumerateStep<K>(order: seq<K>, todo: set<K>, keys: set<K>, k: K)
    requires EnumeratedSoFar(order, todo, keys) && k in todo
    ensures EnumeratedSoFar(order + [k], todo - {k}, keys)
  {
  }

  /** Nothing left to visit: every key is listed once. */
  lemma EnumerateDone<K>(order: seq<K>, keys: set<K>)
    requires EnumeratedSoFar(order, {}, keys)
    ensures Enumerates(order, keys)
  {
  }

  /** Visiting one more key of the adjacency table writes its arcs after
      those written so far. */
  lemma EdgeTextStep<VId, E>(edges: map<VId, seq<(VId, E)>>, order: seq<VId>, todo: set<VId>, k: VId,
                             showId: VId -> string, showE: E -> string)
    requires EnumeratedSoFar(order, todo, edges.Keys) && k in todo
    ensures EnumeratedSoFar(order + [k], todo - {k}, edges.Keys)
    ensures Unlines(EdgeLines(EdgeTriples(edges, order + [k]), showId, showE))
            == Unlines(EdgeLines(EdgeTriples(edges, order), showId, showE)) + Unlines(EdgeLines(ArcTriples(k, edges[k]), showId, showE))
  {
    EnumerateStep(order, todo, edges.Keys, k);
    EdgeTriplesSnoc(edges, order, k);
    EdgeTextAppend(EdgeTriples(edges, order), ArcTriples(k, edges[k]), showId, showE);
  }

  /** The lines `serialize` (src/lib.rs:115-127) writes for given iteration orders. */
  function SerializedLines<VId(==), V, E>(t: Tables<VId, V, E>, vorder: seq<VId>, eorder: seq<VId>,
                                          showId: VId -> string, showV: V -> string, showE: E -> string): seq<string>
    requires forall i :: 0 <= i < |vorder| ==> vorder[i] in t.vertices
    requires forall i :: 0 <= i < |eorder| ==> eorder[i] in t.edges
  {
    VertexLines(VertexPairs(t.vertices, vorder), showId, showV) + ["#"] + EdgeLines(EdgeTriples(t.edges, eorder), showId, showE)
  }

  /** Writing one more vertex entry appends its line to the text. */
  lemma VertexTextSnoc<VId, V>(vertices: map<VId, V>, order: seq<VId>, k: VId, showId: VId -> string, showV: V -> string)
    requires k in vertices && forall i :: 0 <= i < |order| ==> order[i] in vertices
    ensures Unlines(VertexLines(VertexPairs(vertices, order + [k]), showId, showV))
            == Unlines(VertexLines(VertexPairs(vertices, order), showId, showV)) + (VertexLine(k, vertices[k], showId, showV) + "\n")
  {
    var lines := VertexLines(VertexPairs(vertices, order), showId, showV);
    assert VertexLines(VertexPairs(vertices, order + [k]), showId, showV) == lines + [VertexLine(k, vertices[k], showId, showV)];
    UnlinesSnoc(lines, VertexLine(k, vertices[k], showId, showV));
  }

  /** Writing one more arc appends its line to the text. */
  lemma EdgeTextSnoc<VId, E>(arcs: seq<(VId, VId, E)>, x: (VId, VId, E), showId: VId -> string, showE: E -> string)
    ensures Unlines(EdgeLines(arcs + [x], showId, showE))
            == Unlines(EdgeLines(arcs, showId, showE)) + (EdgeLine(x.0, x.1, x.2, showId, showE) + "\n")
  {
    var line := EdgeLine(x.0, x.1, x.2, showId, showE);
    assert EdgeLines(arcs + [x], showId, showE) == EdgeLines(arcs, showId, showE) + [line];
    UnlinesSnoc(EdgeLines(arcs, showId, showE), line);
  }

  /** The text of two runs of arcs is the text of the first, then of the second. */
  lemma EdgeTextAppend<VId, E>(xs: seq<(VId, VId, E)>, ys: seq<(VId, VId, E)>, showId: VId -> string, showE: E -> string)
    ensures Unlines(EdgeLines(xs + ys, showId, showE)) == Unlines(EdgeLines(xs, showId, showE)) + Unlines(EdgeLines(ys, showId, showE))
  {
    assert EdgeLines(xs + ys, showId, showE) == EdgeLines(xs, showId, showE) + EdgeLines(ys, showId, showE);
    UnlinesAppend(EdgeLines(xs, showId, showE), EdgeLines(ys, showId, showE));
  }

  /** The serialized text: the vertex lines, "#", then the edge lines. */
  lemma SerializedText<VId, V, E>(t: Tables<VId, V, E>, vorder: seq<VId>, eorder: seq<VId>,
                                  showId: VId -> string, showV: V -> string, showE: E -> string)
    requires forall i :: 0 <= i < |vorder| ==> vorder[i] in t.vertices
    requires forall i :: 0 <= i < |eorder| ==> eorder[i] in t.edges
    ensures Unlines(SerializedLines(t, vorder, eorder, showId, showV, showE))
            == Unlines(VertexLines(VertexPairs(t.vertices, vorder), showId, showV)) + "#\n"
               + Unlines(EdgeLines(EdgeTriples(t.edges, eorder), showId, showE))
  {
    var vlines := VertexLines(VertexPairs(t.vertices, vorder), showId, showV);
    var elines := EdgeLines(EdgeTriples(t.edges, eorder), showId, showE);
    UnlinesAppend(vlines + ["#"], elines);
    UnlinesSnoc(vlines, "#");
    assert "#" + "\n" == "#\n";
  }

  /** The arcs of a list up to `j + 1` are those up to `j` and arc `j`. */
  lemma ArcTriplesSnoc<VId, E>(from: VId, arcs: seq<(VId, E)>, j: nat)
    requires j < |arcs|
    ensures ArcTriples(from, arcs[..j + 1]) == ArcTriples(from, arcs[..j]) + [(from, arcs[j].0, arcs[j].1)]
  {
  }

  /** Listing one more key writes its list after the others. */
  lemma EdgeTriplesSnoc<VId, E>(edges: map<VId, seq<(VId, E)>>, order: seq<VId>, k: VId)
    requires k in edges && forall i :: 0 <= i < |order| ==> order[i] in edges
    ensures EdgeTriples(edges, order + [k]) == EdgeTriples(edges, order) + ArcTriples(k, edges[k])
  {
    assert (order + [k])[..|order|] == order;
  }

  // ----------------------------------------------------------- round trip

  /** `parse(delete_quotes(show(x)))` gives `x` back. */
  ghost predicate Decodes<T>(show: T -> string, parse: string -> Option<T>, x: T) {
    DeleteQuotes(show(x)).Ok? && parse(DeleteQuotes(show(x)).value) == Some(x)
  }

  /** An id renders as one token that decodes back to it. */
  ghost predicate IdRenders<VId>(showId: VId -> string, parseId: string -> Option<VId>, x: VId) {
    IsToken(showId(x)) && Decodes(showId, parseId, x)
  }

  /** A value renders as a single-spaced phrase that decodes back to it
      (the `Debug` form of a string, `"ha ha"`, is one). */
  ghost predicate ValueRenders<T>(show: T -> string, parse: string -> Option<T>, x: T) {
    IsPhrase(show(x)) && Decodes(show, parse, x)
  }

  /** Every id, vertex value and edge value of the tables renders faithfully. */
  ghost predicate Renders<VId, V, E>(t: Tables<VId, V, E>,
                                    showId: VId -> string, parseId: string -> Option<VId>,
                                    showV: V -> string, parseV: string -> Option<V>,
                                    showE: E -> string, parseE: string -> Option<E>) {
    && (forall k :: k in t.vertices ==> IdRenders(showId, parseId, k) && ValueRenders(showV, parseV, t.vertices[k]))
    && (forall k :: k in t.edges ==> IdRenders(showId, parseId, k))
    && (forall k, i :: k in t.edges && 0 <= i < |t.edges[k]| ==>
          IdRenders(showId, parseId, t.edges[k][i].0) && ValueRenders(showE, parseE, t.edges[k][i].1))
  }

  /** The entries of `m` at the keys listed in `order`. */
  function Restrict<K, T>(m: map<K, T>, order: seq<K>): map<K, T>
    requires forall i :: 0 <= i < |order| ==> order[i] in m
  {
    map k | k in order :: m[k]
  }

  /** Listing one more key adds its entry. */
  lemma RestrictSnoc<K, T>(m: map<K, T>, order: seq<K>, k: K)
    requires k in m && forall i :: 0 <= i < |order| ==> order[i] in m
    ensures Restrict(m, order)[k := m[k]] == Restrict(m, order + [k])
  {
  }

  /** Listing every key restricts to nothing. */
  lemma RestrictAll<K, T>(m: map<K, T>, order: seq<K>)
    requires Enumerates(order, m.Keys)
    ensures Restrict(m, order) == m
  {
  }

  lemma ParseFieldOf<T>(show: T -> string, parse: string -> Option<T>, x: T)
    requires Decodes(show, parse, x)
    ensures ParseField(show(x), parse) == Ok(x)
  {
  }

  lemma ParseVertexLineOf<VId, V>(vid: VId, vertex: V, showId: VId -> string, parseId: string -> Option<VId>,
                                  showV: V -> string, parseV: string -> Option<V>)
    requires IdRenders(showId, parseId, vid) && ValueRenders(showV, parseV, vertex)
    ensures ParseVertexLine(VertexLine(vid, vertex, showId, showV), parseId, parseV) == Ok((vid, vertex))
  {
    var fields := [showId(vid), showV(vertex)];
    assert Join(fields[1..]) == showV(vertex);
    assert Join(fields) == VertexLine(vid, vertex, showId, showV);
    SplitFieldsOfJoin(fields);
    ParseFieldOf(showId, parseId, vid);
    ParseFieldOf(showV, parseV, vertex);
  }

  /** A vertex line is one line, and never the separator. */
  lemma VertexLineSingle<VId, V>(vid: VId, vertex: V, showId: VId -> string, showV: V -> string)
    requires IsToken(showId(vid)) && IsPhrase(showV(vertex))
    ensures SingleLine(VertexLine(vid, vertex, showId, showV))
    ensures VertexLine(vid, vertex, showId, showV) != "#"
  {
    PhraseSingleLine(showV(vertex));
    SpacedSingleLine(showId(vid), showV(vertex));
  }

  lemma ParseEdgeLineOf<VId, E>(from: VId, to: VId, edge: E, showId: VId -> string, parseId: string -> Option<VId>,
                                showE: E -> string, parseE: string -> Option<E>)
    requires IdRenders(showId, parseId, from) && IdRenders(showId, parseId, to)
    requires ValueRenders(showE, parseE, edge)
    ensures ParseEdgeLine(EdgeLine(from, to, edge, showId, showE), parseId, parseE) == Ok((from, to, edge))
  {
    var fields := [showId(from), showId(to), showE(edge)];
    assert Join(fields[2..]) == showE(edge);
    assert Join(fields[1..]) == showId(to) + " " + showE(edge);
    assert Join(fields) == EdgeLine(from, to, edge, showId, showE);
    SplitFieldsOfJoin(fields);
    ParseFieldOf(showId, parseId, from);
    ParseFieldOf(showId, parseId, to);
    ParseFieldOf(showE, parseE, edge);
  }

  /** An edge line is one line. */
  lemma EdgeLineSingle<VId, E>(from: VId, to: VId, edge: E, showId: VId -> string, showE: E -> string)
    requires IsToken(showId(from)) && IsToken(showId(to)) && IsPhrase(showE(edge))
    ensures SingleLine(EdgeLine(from, to, edge, showId, showE))
  {
    PhraseSingleLine(showE(edge));
    SpacedSingleLine(showId(to), showE(edge));
    SpacedSingleLine(showId(from), showId(to) + " " + showE(edge));
  }

  lemma SpacedSingleLine(a: string, b: string)
    requires SingleLine(a) && SingleLine(b)
    ensures SingleLine(a + " " + b)
  {
    var s := a + " " + b;
    forall i | 0 <= i < |s| ensures s[i] != '\n' && s[i] != '\r' {
      if i < |a| {
        assert s[i] == a[i];
      } else if i > |a| {
        assert s[i] == b[i - |a| - 1];
      }
    }
  }

  /** Lines that each parse to the expected item parse to all of them. */
  lemma {:induction false} ParseLinesOf<T>(lines: seq<string>, parse: string -> Result<T, GraphError>, xs: seq<T>)
    requires |xs| <= |lines|
    requires forall k :: 0 <= k < |xs| ==> parse(lines[k]) == Ok(xs[k])
    ensures ParseLines(lines, 0, |xs|, parse) == Ok(xs)
    decreases |xs|
  {
    if xs != [] {
      forall k | 0 <= k < |xs| - 1
        ensures parse(lines[1..][k]) == Ok(xs[1..][k])
      {
        assert lines[1..][k] == lines[k + 1];
      }
      ParseLinesOf(lines[1..], parse, xs[1..]);
      ParseLinesFrame(lines, 1, |xs|, lines[1..], 0, |xs| - 1, parse);
      assert xs == [xs[0]] + xs[1..];
    }
  }

  /** Adding the listed vertex entries to a graph without vertices gives
      exactly those entries. */
  lemma {:induction false} AddVertexPairs<VId, V, E>(t: Tables<VId, V, E>, vertices: map<VId, V>, order: seq<VId>)
    requires t.vertices == map[]
    requires forall i :: 0 <= i < |order| ==> order[i] in vertices
    ensures AddVertices(t, VertexPairs(vertices, order)) == Tables(Restrict(vertices, order), t.edges)
    decreases |order|
  {
    if order == [] {
      assert Restrict(vertices, order) == map[];
    } else {
      var init := order[..|order| - 1];
      var k := order[|order| - 1];
      AddVertexPairs(t, vertices, init);
      assert VertexPairs(vertices, order)[..|order| - 1] == VertexPairs(vertices, init);
      assert order == init + [k];
      RestrictSnoc(vertices, init, k);
    }
  }

  /** Adding arcs in two runs is adding them all. */
  lemma {:induction false} AddArcsAppend<VId, V, E>(t: Tables<VId, V, E>, xs: seq<(VId, VId, E)>, ys: seq<(VId, VId, E)>)
    ensures AddArcs(t, xs + ys) == AddArcs(AddArcs(t, xs), ys)
    decreases |ys|
  {
    if ys == [] {
      assert xs + ys == xs;
    } else {
      var init := ys[..|ys| - 1];
      assert (xs + ys)[..|xs + ys| - 1] == xs + init;
      AddArcsAppend(t, xs, init);
    }
  }

  /** Adding the arcs of one non-empty list appends the list to `from`'s. */
  lemma {:induction false} AddArcTriples<VId, V, E>(t: Tables<VId, V, E>, from: VId, arcs: seq<(VId, E)>)
    requires |arcs| > 0
    ensures AddArcs(t, ArcTriples(from, arcs)) == t.(edges := t.edges[from := OrEmpty(t.edges, from) + arcs])
    decreases |arcs|
  {
    var n := |arcs|;
    var init := arcs[..n - 1];
    AddArcTriplesLast(t, from, arcs);
    if n == 1 {
      assert arcs == [arcs[0]];
    } else {
      AddArcTriples(t, from, init);
      WithEdgeOnto(t, from, OrEmpty(t.edges, from) + init, arcs[n - 1]);
      AppendLast(OrEmpty(t.edges, from), arcs);
    }
  }

  /** Proof step: splitting off the last element of the appended part. */
  lemma AppendLast<T>(xs: seq<T>, ys: seq<T>)
    requires |ys| > 0
    ensures (xs + ys[..|ys| - 1]) + [ys[|ys| - 1]] == xs + ys
  {
    assert ys == ys[..|ys| - 1] + [ys[|ys| - 1]];
  }

  /** The last arc of a list is added last. */
  lemma AddArcTriplesLast<VId, V, E>(t: Tables<VId, V, E>, from: VId, arcs: seq<(VId, E)>)
    requires |arcs| > 0
    ensures AddArcs(t, ArcTriples(from, arcs))
              == WithEdge(AddArcs(t, ArcTriples(from, arcs[..|arcs| - 1])), from, arcs[|arcs| - 1].0, arcs[|arcs| - 1].1)
  {
    assert ArcTriples(from, arcs)[..|arcs| - 1] == ArcTriples(from, arcs[..|arcs| - 1]);
  }

  /** Proof step: adding an arc to a list just set appends it. */
  lemma WithEdgeOnto<VId, V, E>(t: Tables<VId, V, E>, from: VId, xs: seq<(VId, E)>, a: (VId, E))
    ensures WithEdge(t.(edges := t.edges[from := xs]), from, a.0, a.1) == t.(edges := t.edges[from := xs + [a]])
  {
  }

  /** Adding the arcs of the listed lists to a graph without arcs gives
      exactly those lists. */
  lemma {:induction false} AddEdgeTriples<VId, V, E>(t: Tables<VId, V, E>, edges: map<VId, seq<(VId, E)>>, order: seq<VId>)
    requires t.edges == map[]
    requires (forall i :: 0 <= i < |order| ==> order[i] in edges) && Distinct(order)
    requires forall k :: k in edges ==> |edges[k]| > 0
    ensures AddArcs(t, EdgeTriples(edges, order)) == Tables(t.vertices, Restrict(edges, order))
    decreases |order|
  {
    if order == [] {
      assert Restrict(edges, order) == map[];
    } else {
      var init := order[..|order| - 1];
      var from := order[|order| - 1];
      var prior := EdgeTriples(edges, init);
      var block := ArcTriples(from, edges[from]);
      var before: Tables<VId, V, E> := Tables(t.vertices, Restrict(edges, init));
      assert from !in before.edges by {
        forall i | 0 <= i < |init| ensures init[i] != from {
          assert init[i] == order[i];
        }
      }
      calc {
        AddArcs(t, EdgeTriples(edges, order));
        AddArcs(t, prior + block);
        { AddArcsAppend(t, prior, block); }
        AddArcs(AddArcs(t, prior), block);
        { AddEdgeTriples(t, edges, init); }
        AddArcs(before, block);
        { AddArcTriples(before, from, edges[from]);
          assert OrEmpty(before.edges, from) + edges[from] == edges[from]; }
        Tables(t.vertices, before.edges[from := edges[from]]);
        { RestrictSnoc(edges, init, from);
          assert init + [from] == order; }
        Tables(t.vertices, Restrict(edges, order));
      }
    }
  }

  /** Each listed arc comes from a list of the table. */
  lemma {:induction false} EdgeTriplesIn<VId, E>(edges: map<VId, seq<(VId, E)>>, order: seq<VId>)
    requires forall i :: 0 <= i < |order| ==> order[i] in edges
    ensures forall k :: 0 <= k < |EdgeTriples(edges, order)| ==>
              var x := EdgeTriples(edges, order)[k];
              x.0 in edges && (x.1, x.2) in edges[x.0]
    decreases |order|
  {
    if order != [] {
      var init := order[..|order| - 1];
      var from := order[|order| - 1];
      EdgeTriplesIn(edges, init);
      var prior: seq<(VId, VId, E)> := EdgeTriples(edges, init);
      var block: seq<(VId, VId, E)> := ArcTriples(from, edges[from]);
      forall k | |prior| <= k < |prior| + |block|
        ensures (prior + block)[k].0 in edges && ((prior + block)[k].1, (prior + block)[k].2) in edges[(prior + block)[k].0]
      {
        assert (prior + block)[k] == block[k - |prior|];
        assert edges[from][k - |prior|] == (block[k - |prior|].1, block[k - |prior|].2);
      }
    }
  }

  /** Parsing depends only on the lines parsed. */
  lemma {:induction false} ParseLinesFrame<T>(a: seq<string>, i: nat, j: nat, b: seq<string>, i2: nat, j2: nat,
                                              parse: string -> Result<T, GraphError>)
    requires i <= j <= |a| && i2 <= j2 <= |b| && a[i..j] == b[i2..j2]
    ensures ParseLines(a, i, j, parse) == ParseLines(b, i2, j2, parse)
    decreases j - i
  {
    if i < j {
      assert a[i] == a[i..j][0] == b[i2];
      assert a[i + 1..j] == a[i..j][1..] == b[i2 + 1..j2];
      ParseLinesFrame(a, i + 1, j, b, i2 + 1, j2, parse);
    }
  }

  /** Each vertex line written from an entry that renders faithfully parses
      back to that entry. */
  lemma VertexLinesParseEach<VId, V>(pairs: seq<(VId, V)>, showId: VId -> string, parseId: string -> Option<VId>,
                                     showV: V -> string, parseV: string -> Option<V>)
    requires forall k :: 0 <= k < |pairs| ==>
               IdRenders(showId, parseId, pairs[k].0) && ValueRenders(showV, parseV, pairs[k].1)
    ensures forall k :: 0 <= k < |pairs| ==>
              VertexParser(parseId, parseV)(VertexLines(pairs, showId, showV)[k]) == Ok(pairs[k])
  {
    forall k | 0 <= k < |pairs|
      ensures VertexParser(parseId, parseV)(VertexLines(pairs, showId, showV)[k]) == Ok(pairs[k])
    {
      ParseVertexLineOf(pairs[k].0, pairs[k].1, showId, parseId, showV, parseV);
    }
  }

  /** Vertex lines written from entries that render faithfully parse back
      to those entries. */
  lemma VertexLinesParse<VId, V>(pairs: seq<(VId, V)>, showId: VId -> string, parseId: string -> Option<VId>,
                                 showV: V -> string, parseV: string -> Option<V>)
    requires forall k :: 0 <= k < |pairs| ==>
               IdRenders(showId, parseId, pairs[k].0) && ValueRenders(showV, parseV, pairs[k].1)
    ensures ParseLines(VertexLines(pairs, showId, showV), 0, |pairs|, VertexParser(parseId, parseV)) == Ok(pairs)
  {
    VertexLinesParseEach(pairs, showId, parseId, showV, parseV);
    ParseLinesOf(VertexLines(pairs, showId, showV), VertexParser(parseId, parseV), pairs);
  }

  /** Each edge line written from an arc that renders faithfully parses
      back to that arc. */
  lemma EdgeLinesParseEach<VId, E>(arcs: seq<(VId, VId, E)>, showId: VId -> string, parseId: string -> Option<VId>,
                                   showE: E -> string, parseE: string -> Option<E>)
    requires forall k :: 0 <= k < |arcs| ==>
               IdRenders(showId, parseId, arcs[k].0) && IdRenders(showId, parseId, arcs[k].1)
               && ValueRenders(showE, parseE, arcs[k].2)
    ensures forall k :: 0 <= k < |arcs| ==>
              EdgeParser(parseId, parseE)(EdgeLines(arcs, showId, showE)[k]) == Ok(arcs[k])
  {
    forall k | 0 <= k < |arcs|
      ensures EdgeParser(parseId, parseE)(EdgeLines(arcs, showId, showE)[k]) == Ok(arcs[k])
    {
      ParseEdgeLineOf(arcs[k].0, arcs[k].1, arcs[k].2, showId, parseId, showE, parseE);
    }
  }

  /** Edge lines written from arcs that render faithfully parse back to
      those arcs. */
  lemma EdgeLinesParse<VId, E>(arcs: seq<(VId, VId, E)>, showId: VId -> string, parseId: string -> Option<VId>,
                               showE: E -> string, parseE: string -> Option<E>)
    requires forall k :: 0 <= k < |arcs| ==>
               IdRenders(showId, parseId, arcs[k].0) && IdRenders(showId, parseId, arcs[k].1)
               && ValueRenders(showE, parseE, arcs[k].2)
    ensures ParseLines(EdgeLines(arcs, showId, showE), 0, |arcs|, EdgeParser(parseId, parseE)) == Ok(arcs)
  {
    EdgeLinesParseEach(arcs, showId, parseId, showE, parseE);
    ParseLinesOf(EdgeLines(arcs, showId, showE), EdgeParser(parseId, parseE), arcs);
  }

  /** The listed vertex entries of rendering tables render. */
  lemma VertexPairsRender<VId, V, E>(t: Tables<VId, V, E>, vorder: seq<VId>,
      showId: VId -> string, parseId: string -> Option<VId>,
      showV: V -> string, parseV: string -> Option<V>,
      showE: E -> string, parseE: string -> Option<E>)
    requires forall i :: 0 <= i < |vorder| ==> vorder[i] in t.vertices
    requires Renders(t, showId, parseId, showV, parseV, showE, parseE)
    ensures var pairs := VertexPairs(t.vertices, vorder);
            forall k :: 0 <= k < |pairs| ==>
              IdRenders(showId, parseId, pairs[k].0) && ValueRenders(showV, parseV, pairs[k].1)
  {
  }

  /** The listed arcs of rendering tables render. */
  lemma EdgeTriplesRender<VId, V, E>(t: Tables<VId, V, E>, eorder: seq<VId>, arcs: seq<(VId, VId, E)>,
      showId: VId -> string, parseId: string -> Option<VId>,
      showV: V -> string, parseV: string -> Option<V>,
      showE: E -> string, parseE: string -> Option<E>)
    requires forall i :: 0 <= i < |eorder| ==> eorder[i] in t.edges
    requires arcs == EdgeTriples(t.edges, eorder)
    requires Renders(t, showId, parseId, showV, parseV, showE, parseE)
    ensures forall k :: 0 <= k < |arcs| ==>
              IdRenders(showId, parseId, arcs[k].0) && IdRenders(showId, parseId, arcs[k].1)
              && ValueRenders(showE, parseE, arcs[k].2)
  {
    EdgeTriplesIn(t.edges, eorder);
    forall k | 0 <= k < |arcs|
      ensures IdRenders(showId, parseId, arcs[k].0) && IdRenders(showId, parseId, arcs[k].1)
              && ValueRenders(showE, parseE, arcs[k].2)
    {
      var x := arcs[k];
      assert (x.1, x.2) in t.edges[x.0];
      var j :| 0 <= j < |t.edges[x.0]| && t.edges[x.0][j] == (x.1, x.2);
    }
  }


  /** The lines around the separator are single lines, and so is "#". */
  lemma SeparatedSingle(vlines: seq<string>, elines: seq<string>)
    requires forall k :: 0 <= k < |vlines| ==> SingleLine(vlines[k])
    requires forall k :: 0 <= k < |elines| ==> SingleLine(elines[k])
    ensures forall k :: 0 <= k < |vlines + ["#"] + elines| ==> SingleLine((vlines + ["#"] + elines)[k])
  {
    var lines := vlines + ["#"] + elines;
    var sep := |vlines|;
    forall k | 0 <= k < |lines|
      ensures SingleLine(lines[k])
    {
      if k < sep {
        assert lines[k] == vlines[k];
      } else if k > sep {
        assert lines[k] == elines[k - sep - 1];
      }
    }
  }

  /** Text written as single lines around a "#" reads back as those lines. */
  lemma SeparatedLines(vlines: seq<string>, elines: seq<string>)
    requires forall k :: 0 <= k < |vlines| ==> SingleLine(vlines[k])
    requires forall k :: 0 <= k < |elines| ==> SingleLine(elines[k])
    ensures Lines(Unlines(vlines + ["#"] + elines)) == vlines + ["#"] + elines
  {
    SeparatedSingle(vlines, elines);
    LinesOfUnlines(vlines + ["#"] + elines);
  }

  /** With no "#" among the vertex lines, the separator is the first "#". */
  lemma FirstSeparator(vlines: seq<string>, elines: seq<string>)
    requires forall k :: 0 <= k < |vlines| ==> vlines[k] != "#"
    ensures FirstIndex(vlines + ["#"] + elines, "#") == Some(|vlines|)
  {
    var lines := vlines + ["#"] + elines;
    assert lines[|vlines|] == "#";
    assert lines[..|vlines|] == vlines;
  }

  /** Vertex lines written from rendering entries are single lines, none
      of them the separator. */
  lemma VertexLinesSingle<VId, V>(pairs: seq<(VId, V)>, showId: VId -> string, parseId: string -> Option<VId>,
                                  showV: V -> string, parseV: string -> Option<V>)
    requires forall k :: 0 <= k < |pairs| ==>
               IdRenders(showId, parseId, pairs[k].0) && ValueRenders(showV, parseV, pairs[k].1)
    ensures forall k :: 0 <= k < |pairs| ==>
              SingleLine(VertexLines(pairs, showId, showV)[k]) && VertexLines(pairs, showId, showV)[k] != "#"
  {
    forall k | 0 <= k < |pairs|
      ensures SingleLine(VertexLines(pairs, showId, showV)[k]) && VertexLines(pairs, showId, showV)[k] != "#"
    {
      VertexLineSingle(pairs[k].0, pairs[k].1, showId, showV);
    }
  }

  /** Edge lines written from rendering arcs are single lines. */
  lemma EdgeLinesSingle<VId, E>(arcs: seq<(VId, VId, E)>, showId: VId -> string, parseId: string -> Option<VId>,
                                showE: E -> string, parseE: string -> Option<E>)
    requires forall k :: 0 <= k < |arcs| ==>
               IdRenders(showId, parseId, arcs[k].0) && IdRenders(showId, parseId, arcs[k].1)
               && ValueRenders(showE, parseE, arcs[k].2)
    ensures forall k :: 0 <= k < |arcs| ==> SingleLine(EdgeLines(arcs, showId, showE)[k])
  {
    forall k | 0 <= k < |arcs| ensures SingleLine(EdgeLines(arcs, showId, showE)[k]) {
      EdgeLineSingle(arcs[k].0, arcs[k].1, arcs[k].2, showId, showE);
    }
  }

  /** Adding the listed entries and arcs to an empty graph rebuilds it. */
  lemma RebuildTables<VId, V, E>(t: Tables<VId, V, E>, vorder: seq<VId>, eorder: seq<VId>)
    requires Enumerates(vorder, t.vertices.Keys) && Enumerates(eorder, t.edges.Keys)
    requires forall k :: k in t.edges ==> |t.edges[k]| > 0
    ensures AddArcs(AddVertices(Tables(map[], map[]), VertexPairs(t.vertices, vorder)), EdgeTriples(t.edges, eorder)) == t
  {
    var empty: Tables<VId, V, E> := Tables(map[], map[]);
    AddVertexPairs(empty, t.vertices, vorder);
    RestrictAll(t.vertices, vorder);
    AddEdgeTriples(Tables(t.vertices, map[]), t.edges, eorder);
    RestrictAll(t.edges, eorder);
  }

  /** Decoding text whose lines, around the first "#", all parse: the
      parsed entries then the parsed arcs are added to an empty graph. */
  lemma DecodeParsed<VId, V, E>(text: string, sep: nat, pairs: seq<(VId, V)>, arcs: seq<(VId, VId, E)>,
      parseId: string -> Option<VId>, parseV: string -> Option<V>, parseE: string -> Option<E>)
    requires FirstIndex(Lines(text), "#") == Some(sep)
    requires ParseLines(Lines(text), 0, sep, VertexParser(parseId, parseV)) == Ok(pairs)
    requires ParseLines(Lines(text), sep + 1, |Lines(text)|, EdgeParser(parseId, parseE)) == Ok(arcs)
    ensures Decode(text, parseId, parseV, parseE) == Ok(AddArcs(AddVertices(Tables(map[], map[]), pairs), arcs))
  {
  }

  /** The lines written for entries and arcs that render faithfully read
      back as those lines, the first "#" after the vertex lines. */
  lemma WrittenShape<VId, V, E>(pairs: seq<(VId, V)>, arcs: seq<(VId, VId, E)>,
      showId: VId -> string, parseId: string -> Option<VId>,
      showV: V -> string, parseV: string -> Option<V>,
      showE: E -> string, parseE: string -> Option<E>)
    requires forall k :: 0 <= k < |pairs| ==>
               IdRenders(showId, parseId, pairs[k].0) && ValueRenders(showV, parseV, pairs[k].1)
    requires forall k :: 0 <= k < |arcs| ==>
               IdRenders(showId, parseId, arcs[k].0) && IdRenders(showId, parseId, arcs[k].1)
               && ValueRenders(showE, parseE, arcs[k].2)
    ensures var lines := VertexLines(pairs, showId, showV) + ["#"] + EdgeLines(arcs, showId, showE);
            Lines(Unlines(lines)) == lines && FirstIndex(lines, "#") == Some(|pairs|)
  {
    VertexLinesSingle(pairs, showId, parseId, showV, parseV);
    EdgeLinesSingle(arcs, showId, parseId, showE, parseE);
    SeparatedLines(VertexLines(pairs, showId, showV), EdgeLines(arcs, showId, showE));
    FirstSeparator(VertexLines(pairs, showId, showV), EdgeLines(arcs, showId, showE));
  }

  /** Proof step: the slices before and after one inserted element. */
  lemma AroundSeparator<T>(xs: seq<T>, x: T, ys: seq<T>)
    ensures (xs + [x] + ys)[0..|xs|] == xs[0..|xs|]
    ensures (xs + [x] + ys)[|xs| + 1..|xs + [x] + ys|] == ys[0..|ys|]
  {
  }

  /** The vertex lines of the written text parse back to the entries. */
  lemma WrittenVerticesParse<VId, V>(pairs: seq<(VId, V)>, elines: seq<string>,
      showId: VId -> string, parseId: string -> Option<VId>, showV: V -> string, parseV: string -> Option<V>)
    requires forall k :: 0 <= k < |pairs| ==>
               IdRenders(showId, parseId, pairs[k].0) && ValueRenders(showV, parseV, pairs[k].1)
    ensures ParseLines(VertexLines(pairs, showId, showV) + ["#"] + elines, 0, |pairs|, VertexParser(parseId, parseV))
            == Ok(pairs)
  {
    var vlines := VertexLines(pairs, showId, showV);
    var lines := vlines + ["#"] + elines;
    VertexLinesParse(pairs, showId, parseId, showV, parseV);
    AroundSeparator(vlines, "#", elines);
    ParseLinesFrame(lines, 0, |pairs|, vlines, 0, |pairs|, VertexParser(parseId, parseV));
  }

  /** The edge lines of the written text parse back to the arcs. */
  lemma WrittenEdgesParse<VId, E>(vlines: seq<string>, arcs: seq<(VId, VId, E)>,
      showId: VId -> string, parseId: string -> Option<VId>, showE: E -> string, parseE: string -> Option<E>)
    requires forall k :: 0 <= k < |arcs| ==>
               IdRenders(showId, parseId, arcs[k].0) && IdRenders(showId, parseId, arcs[k].1)
               && ValueRenders(showE, parseE, arcs[k].2)
    ensures var lines := vlines + ["#"] + EdgeLines(arcs, showId, showE);
            ParseLines(lines, |vlines| + 1, |lines|, EdgeParser(parseId, parseE)) == Ok(arcs)
  {
    var elines := EdgeLines(arcs, showId, showE);
    var lines := vlines + ["#"] + elines;
    EdgeLinesParse(arcs, showId, parseId, showE, parseE);
    AroundSeparator(vlines, "#", elines);
    ParseLinesFrame(lines, |vlines| + 1, |lines|, elines, 0, |arcs|, EdgeParser(parseId, parseE));
  }

  /** Decoding the lines written for listed entries and arcs that render
      faithfully parses every line back and adds them in order. */
  lemma DecodeWritten<VId, V, E>(pairs: seq<(VId, V)>, arcs: seq<(VId, VId, E)>,
      showId: VId -> string, parseId: string -> Option<VId>,
      showV: V -> string, parseV: string -> Option<V>,
      showE: E -> string, parseE: string -> Option<E>)
    requires forall k :: 0 <= k < |pairs| ==>
               IdRenders(showId, parseId, pairs[k].0) && ValueRenders(showV, parseV, pairs[k].1)
    requires forall k :: 0 <= k < |arcs| ==>
               IdRenders(showId, parseId, arcs[k].0) && IdRenders(showId, parseId, arcs[k].1)
               && ValueRenders(showE, parseE, arcs[k].2)
    ensures Decode(Unlines(VertexLines(pairs, showId, showV) + ["#"] + EdgeLines(arcs, showId, showE)), parseId, parseV, parseE)
            == Ok(AddArcs(AddVertices(Tables(map[], map[]), pairs), arcs))
  {
    var vlines := VertexLines(pairs, showId, showV);
    var elines := EdgeLines(arcs, showId, showE);
    WrittenShape(pairs, arcs, showId, parseId, showV, parseV, showE, parseE);
    WrittenVerticesParse(pairs, elines, showId, parseId, showV, parseV);
    WrittenEdgesParse(vlines, arcs, showId, parseId, showE, parseE);
    DecodeParsed(Unlines(vlines + ["#"] + elines), |pairs|, pairs, arcs, parseId, parseV, parseE);
  }

  /** Round trip (src/lib.rs:115-127 against 137-197): parsing what
      `serialize` writes, for any iteration orders of the two tables, gives
      the same tables back, provided every value renders as text that
      decodes back to it and no adjacency list is empty (an empty list
      writes no line, so its key is not recreated). */
  lemma DecodeSerialized<VId, V, E>(t: Tables<VId, V, E>, vorder: seq<VId>, eorder: seq<VId>,
      showId: VId -> string, parseId: string -> Option<VId>,
      showV: V -> string, parseV: string -> Option<V>,
      showE: E -> string, parseE: string -> Option<E>)
    requires Enumerates(vorder, t.vertices.Keys) && Enumerates(eorder, t.edges.Keys)
    requires forall k :: k in t.edges ==> |t.edges[k]| > 0
    requires Renders(t, showId, parseId, showV, parseV, showE, parseE)
    ensures Decode(Unlines(SerializedLines(t, vorder, eorder, showId, showV, showE)), parseId, parseV, parseE) == Ok(t)
  {
    var pairs := VertexPairs(t.vertices, vorder);
    var arcs := EdgeTriples(t.edges, eorder);
    VertexPairsRender(t, vorder, showId, parseId, showV, parseV, showE, parseE);
    EdgeTriplesRender(t, eorder, arcs, showId, parseId, showV, parseV, showE, parseE);
    DecodeWritten(pairs, arcs, showId, parseId, showV, parseV, showE, parseE);
    RebuildTables(t, vorder, eorder);
  }

  /** An empty adjacency list writes no line: the key is lost on the round
      trip, so `get_neighbors` turns from `Some([])` into `None`. */
  lemma EmptyListNotSerialized<VId, V, E>(k: VId, showId: VId -> string, parseId: string -> Option<VId>,
      showV: V -> string, parseV: string -> Option<V>, showE: E -> string, parseE: string -> Option<E>)
    ensures var t: Tables<VId, V, E> := Tables(map[], map[k := []]);
            Decode(Unlines(SerializedLines(t, [], [k], showId, showV, showE)), parseId, parseV, parseE)
            == Ok(Tables(map[], map[]))
  {
    var t: Tables<VId, V, E> := Tables(map[], map[k := []]);
    var lines := SerializedLines(t, [], [k], showId, showV, showE);
    assert [k][..0] == [];
    assert EdgeTriples(t.edges, [k]) == [];
    assert lines == ["#"];
    LinesOfUnlines(lines);
    assert FirstIndex(lines, "#") == Some(0);
    var empty: Tables<VId, V, E> := Tables(map[], map[]);
    assert ParseLines(lines, 0, 0, VertexParser(parseId, parseV)) == Ok([]);
    assert ParseLines(lines, 1, 1, EdgeParser(parseId, parseE)) == Ok([]);
    assert AddArcs(AddVertices(empty, []), []) == empty;
  }

  /** Only the tokens of a vertex line matter: how much whitespace
      separates them is lost. */
  lemma VertexLineSpacing<VId, V>(line: string, line': string, parseId: string -> Option<VId>, parseV: string -> Option<V>)
    requires Tokens(line) == Tokens(line')
    ensures ParseVertexLine(line, parseId, parseV) == ParseVertexLine(line', parseId, parseV)
  {
    assert SplitFields(line, 2) == SplitFields(line', 2);
  }

  /** The tokens of a vertex line whose value holds two spaces in a row, and
      of the same line with one. */
  lemma DoubleSpaceTokens()
    ensures Tokens("1 \"a  b\"") == ["1", "\"a", "b\""]
    ensures Tokens("1 \"a b\"") == ["1", "\"a", "b\""]
  {
    assert "1 \"a  b\"" == "1 \"a" + " " + ("" + " " + "b\"");
    TokensOfSpaced("1 \"a", "" + " " + "b\"");
    TokensOfSpaced("", "b\"");
    assert "1 \"a" == "1" + " " + "\"a";
    TokensOfSpaced("1", "\"a");
    TokensOfToken("1");
    TokensOfToken("\"a");
    TokensOfToken("b\"");
    assert Tokens("") == [];
    var words := ["1", "\"a", "b\""];
    assert IsToken(words[0]) && IsToken(words[1]) && IsToken(words[2]);
    TokensOfJoinedTokens(words);
    assert Join(words[2..]) == "b\"";
    assert Join(words[1..]) == "\"a b\"";
    assert Join(words) == "1 \"a b\"";
  }

  /** Whitespace inside a value is not kept: the last field is re-joined
      with single spaces, so a vertex line whose value holds two spaces in a
      row reads exactly as the line with one. */
  lemma DoubleSpaceNormalised<VId, V>(parseId: string -> Option<VId>, parseV: string -> Option<V>)
    ensures SplitFields("1 \"a  b\"", 2) == Ok(["1", "\"a b\""])
    ensures ParseVertexLine("1 \"a  b\"", parseId, parseV) == ParseVertexLine("1 \"a b\"", parseId, parseV)
  {
    DoubleSpaceTokens();
    var words := ["1", "\"a", "b\""];
    assert Join(words[2..]) == "b\"";
    assert Join(words[1..]) == "\"a b\"";
    assert words[..1] + [Join(words[1..])] == ["1", "\"a b\""];
    VertexLineSpacing("1 \"a  b\"", "1 \"a b\"", parseId, parseV);
  }


  // ---------------------------------------------------- the `from` example

  /** The four lines of the `from` test's text, each followed by "\n", are
      that text (src/tests.rs:93). */
  lemma FromTestText()
    ensures Unlines(["2 \"haha\"", "1 \"ha ha\"", "#", "1 2 2.2"]) == "2 \"haha\"\n1 \"ha ha\"\n#\n1 2 2.2\n"
  {
    var lines := ["2 \"haha\"", "1 \"ha ha\"", "#", "1 2 2.2"];
    assert Unlines(lines[3..]) == "1 2 2.2\n";
    assert Unlines(lines[2..]) == "#\n1 2 2.2\n";
    assert Unlines(lines[1..]) == "1 \"ha ha\"\n#\n1 2 2.2\n";
  }

  /** `str::lines` reads those four lines back: the final "\n" adds no
      empty line. */
  lemma FromTestLines()
    ensures Lines(Unlines(["2 \"haha\"", "1 \"ha ha\"", "#", "1 2 2.2"])) == ["2 \"haha\"", "1 \"ha ha\"", "#", "1 2 2.2"]
  {
    var lines := ["2 \"haha\"", "1 \"ha ha\"", "#", "1 2 2.2"];
    assert SingleLine(lines[0]) by {
      assert forall i :: 0 <= i < |lines[0]| ==> lines[0][i] in "2 \"haha\"";
    }
    assert SingleLine(lines[1]) by {
      assert forall i :: 0 <= i < |lines[1]| ==> lines[1][i] in "1 \"ha ha\"";
    }
    assert SingleLine(lines[3]) by {
      assert forall i :: 0 <= i < |lines[3]| ==> lines[3][i] in "1 2 2.2";
    }
    LinesOfUnlines(lines);
  }

  /** The tokens of the test's three data lines; the quoted two-word value
      is split in two. */
  lemma FromTestTokens()
    ensures Tokens("2 \"haha\"") == ["2", "\"haha\""]
    ensures Tokens("1 \"ha ha\"") == ["1", "\"ha", "ha\""]
    ensures Tokens("1 2 2.2") == ["1", "2", "2.2"]
  {
    var first := ["2", "\"haha\""];
    assert IsToken(first[0]) && IsToken(first[1]);
    TokensOfJoinedTokens(first);
    assert Join(first) == "2 \"haha\"";
    var second := ["1", "\"ha", "ha\""];
    assert IsToken(second[0]) && IsToken(second[1]) && IsToken(second[2]);
    TokensOfJoinedTokens(second);
    assert Join(second[2..]) == "ha\"";
    assert Join(second[1..]) == "\"ha ha\"";
    assert Join(second) == "1 \"ha ha\"";
    var third := ["1", "2", "2.2"];
    assert IsToken(third[0]) && IsToken(third[1]) && IsToken(third[2]);
    TokensOfJoinedTokens(third);
    assert Join(third[2..]) == "2.2";
    assert Join(third[1..]) == "2 2.2";
    assert Join(third) == "1 2 2.2";
  }

  /** The three lines of the `from` test, given by their tokens, parse to
      the entries and the arc the test adds. */
  lemma FromTestParse(first: string, second: string, third: string,
      parseId: string -> Option<int>, parseV: string -> Option<string>, parseE: string -> Option<real>)
    requires Tokens(first) == ["2", "\"haha\""]
    requires Tokens(second) == ["1", "\"ha", "ha\""]
    requires Tokens(third) == ["1", "2", "2.2"]
    requires parseId("1") == Some(1) && parseId("2") == Some(2)
    requires parseV("haha") == Some("haha") && parseV("ha ha") == Some("ha ha")
    requires parseE("2.2") == Some(2.2)
    ensures ParseVertexLine(first, parseId, parseV) == Ok((2, "haha"))
    ensures ParseVertexLine(second, parseId, parseV) == Ok((1, "ha ha"))
    ensures ParseEdgeLine(third, parseId, parseE) == Ok((1, 2, 2.2))
  {
    assert Tokens(first)[1..] == ["\"haha\""];
    assert Tokens(second)[1..] == ["\"ha", "ha\""];
    assert Join(Tokens(second)[1..]) == "\"ha ha\"";
    assert Tokens(third)[2..] == ["2.2"];
    DeleteQuotesOfQuoted("haha");
    assert "\"" + "haha" + "\"" == "\"haha\"";
    DeleteQuotesOfQuoted("ha ha");
    assert "\"" + "ha ha" + "\"" == "\"ha ha\"";
  }

  /** Decoding four lines with the separator third: the two vertex lines
      are added in order, then the arc. */
  lemma FromTestDecode<VId, V, E>(text: string, pair0: (VId, V), pair1: (VId, V), arc: (VId, VId, E),
      parseId: string -> Option<VId>, parseV: string -> Option<V>, parseE: string -> Option<E>)
    requires |Lines(text)| == 4 && Lines(text)[0] != "#" && Lines(text)[1] != "#" && Lines(text)[2] == "#"
    requires ParseVertexLine(Lines(text)[0], parseId, parseV) == Ok(pair0)
    requires ParseVertexLine(Lines(text)[1], parseId, parseV) == Ok(pair1)
    requires ParseEdgeLine(Lines(text)[3], parseId, parseE) == Ok(arc)
    ensures Decode(text, parseId, parseV, parseE)
         == Ok(WithEdge(WithVertex(WithVertex(Tables(map[], map[]), pair0.0, pair0.1), pair1.0, pair1.1), arc.0, arc.1, arc.2))
  {
    var lines := Lines(text);
    assert FirstIndex(lines, "#") == Some(2);
    assert ParseLines(lines, 2, 2, VertexParser(parseId, parseV)) == Ok([]);
    assert ParseLines(lines, 1, 2, VertexParser(parseId, parseV)) == Ok([pair1]) by {
      assert [pair1] + [] == [pair1];
    }
    assert ParseLines(lines, 0, 2, VertexParser(parseId, parseV)) == Ok([pair0, pair1]) by {
      assert [pair0] + [pair1] == [pair0, pair1];
    }
    assert ParseLines(lines, 4, 4, EdgeParser(parseId, parseE)) == Ok([]);
    assert ParseLines(lines, 3, 4, EdgeParser(parseId, parseE)) == Ok([arc]) by {
      assert [arc] + [] == [arc];
    }
    DecodeParsed(text, 2, [pair0, pair1], [arc], parseId, parseV, parseE);
    var empty: Tables<VId, V, E> := Tables(map[], map[]);
    AddVerticesCons(empty, pair0, [pair1]);
    AddVerticesCons(WithVertex(empty, pair0.0, pair0.1), pair1, []);
    AddArcsCons(AddVertices(empty, [pair0, pair1]), arc, []);
  }

  /** The `from` test (src/tests.rs:88-95): text whose lines are those of
      the test (`FromTestText`, `FromTestLines`), with ids given out of
      order, a quoted two-word value and a final "\n", decodes to the graph
      the test builds with `add_vertex(1, "ha ha")`, `add_vertex(2, "haha")`
      and `add_edge(1, 2, 2.2)`, given what `i32`, `String` and `f64`
      parsing return for its fields. */
  lemma FromTest(text: string, parseId: string -> Option<int>, parseV: string -> Option<string>,
                 parseE: string -> Option<real>)
    requires Lines(text) == ["2 \"haha\"", "1 \"ha ha\"", "#", "1 2 2.2"]
    requires parseId("1") == Some(1) && parseId("2") == Some(2)
    requires parseV("haha") == Some("haha") && parseV("ha ha") == Some("ha ha")
    requires parseE("2.2") == Some(2.2)
    ensures Decode(text, parseId, parseV, parseE)
         == Ok(WithEdge(WithVertex(WithVertex(Tables(map[], map[]), 1, "ha ha"), 2, "haha"), 1, 2, 2.2))
  {
    var lines := Lines(text);
    FromTestTokens();
    FromTestParse(lines[0], lines[1], lines[3], parseId, parseV, parseE);
    FromTestDecode(text, (2, "haha"), (1, "ha ha"), (1, 2, 2.2), parseId, parseV, parseE);
    var empty: Tables<int, string, real> := Tables(map[], map[]);
    WithVertexCommutes(empty, 2, "haha", 1, "ha ha");
  }
}
