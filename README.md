# simple_graph in Dafny

A model of `simple_graph`, a generic in-memory directed graph. `Graph<VId, V, E>` holds two tables:

- a vertex table from ids to vertex values;
- an adjacency table from ids to lists of `(target id, edge value)` arcs.

The model covers:

- the mutating operations on those tables;
- the lookups;
- the stack-and-visited-set reachability search `bfs`;
- the Trivial Graph Format (TGF) codec:
  - `serialize` writes one line per vertex, a `#` line, then one line per arc;
  - `from` parses that text back, using its helpers `delete_quotes` and `split_line_into_vec_with_len`.

Files, one module each:

- `wrappers.dfy` (`Wrappers`): `Option`, `Result`, `Outcome` and `GraphError`. Every panic of the source becomes a `GraphError`:
  - `NotFound` for the `expect`s of `get_vertex_value` and `remove_edge`;
  - `IndexOutOfBounds` for the `Vec::remove` in `remove_vertex`;
  - `CorruptData` when `from` finds no `#` line;
  - `MalformedLine` for "wrong data";
  - `QuoteSlice` for the `[1..0]` slice in `delete_quotes`;
  - `ParseError` for a failing `parse().unwrap()`.
- `text.dfy` (`Text`): the parts of Rust's string library the codec uses:
  - `str::lines`;
  - `split_ascii_whitespace`;
  - `join(" ")`;
  - the text the serializer writes, one `\n` after each line.
- `store.dfy` (`Store`):
  - every mutating operation and `get_vertex_value` as a function on the two tables;
  - the reachability relation (`Reachable`: a directed path of at least one arc);
  - the finding about `remove_vertex` (below).
- `tgf.dfy` (`Tgf`):
  - `delete_quotes` and `split_line_into_vec_with_len` as functions;
  - decoding, as one turn per line (`Turn`, `DecodeLoop`) and as "parse every line, then add in order" (`DecodeFrom`), proved equal;
  - the serialized text for any iteration order of the hash maps;
  - the round trip from `serialize` back through `from`.
- `graph.dfy` (`SimpleGraph`):
  - the class `Graph`, with the two tables as map fields that the methods reassign;
  - each loop of the source is a `while`/`for` loop proved against the functions of `Store` and `Tgf`.

Where the source iterates a `HashMap`, the model picks keys with `:|`, so the proofs hold for every iteration order. The orders `serialize` used are returned as ghost sequences.

## Model

| member | source | states |
|---|---|---|
| Store.RemoveAt | src/lib.rs:79 | `Vec::remove(i)`: one element shorter; the elements before `i` stay in place and the ones after move down by one |
| Store.CountZero | src/lib.rs:47-52 | a list has no arc to `to` exactly when it has zero such arcs |
| Store.WithVertex | src/lib.rs:31-33 | `add_vertex`: `vid` becomes a key with the new value, whether it was there or not; every other vertex entry and the whole adjacency table are unchanged |
| Store.VertexValue | src/lib.rs:39-41 | `get_vertex_value` succeeds exactly when `vid` is a vertex, with its value; otherwise `NotFound` (the `expect` panic) |
| Store.WithVertexCommutes | src/lib.rs:31-33 | `add_vertex` of two different ids gives the same tables in either order |
| Store.VertexValueAfterAdd | src/lib.rs:31-41 | after `add_vertex(k, v)`, looking up `k` gives `v` and looking up any other id gives what it gave before |
| Store.OrEmpty | src/lib.rs:60 | `entry(from).or_default()`: a missing list reads as empty; `Store.WithEdge` states that `add_edge` appends to it |
| Store.WithEdge | src/lib.rs:59-62 | `add_edge`: the list of `from` becomes its old list (empty if absent) followed by `(to, edge)`; vertices and every other list are unchanged; no endpoint is checked |
| Store.LastMatch | src/lib.rs:73-78 | the scan of `remove_edge` has no `break`: `None` exactly when no arc targets `to`, otherwise the index of the LAST arc that does |
| Store.WithoutEdge | src/lib.rs:68-80 | `remove_edge` fails with `NotFound` exactly when `from` has no list or no arc in it targets `to`; otherwise it removes exactly the last arc to `to`, keeps the rest in order, keeps key `from`, and leaves everything else as it was |
| Store.RemoveEdgeUndoesAddEdge | src/tests.rs:37-46 | `add_edge(a, b, e)` then `remove_edge(a, b)` restores the tables, except that `a` keeps its (possibly empty) list |
| Store.MatchIndices | src/lib.rs:47-52 | the `trash` list holds exactly the indices of the arcs to `vid`, in increasing order, one per such arc |
| Store.RemoveEach | src/lib.rs:53-55 | removing the recorded indices one by one, with no shift correction, leaves one fewer element per index, unless it panics |
| Store.Pruned | src/lib.rs:42 | the intended removal on one list: no arc to `vid` is left, and the list shrinks by exactly the number of such arcs |
| Store.PrunedMembers | src/lib.rs:42 | the intended removal is a filter: an arc is left exactly when it was in the list and does not target `vid` |
| Store.PrunedAppend | src/lib.rs:42 | the intended removal keeps the other arcs in order: it distributes over concatenation |
| Store.PrunedNoMatch | src/lib.rs:42 | a list with no arc to `vid` is left alone |
| Store.PruneAsWritten | src/lib.rs:47-55 | the as-written removal on one list (`MatchIndices` then `RemoveEach`); `Store.PruneAsWrittenAtMostOne`, `Store.PruneAsWrittenDropsWrongArc` and `Store.PruneAsWrittenPanics` state what it does |
| Store.PruneAsWrittenAtMostOne | src/lib.rs:47-55 | with at most one arc to `vid` in a list, the loop as written removes exactly what was intended |
| Store.PruneAsWrittenDropsWrongArc | src/lib.rs:53-55 | the loop as written turns `[(x,e),(x,e),(y,e)]` into `[(x,e)]`, where `[(y,e)]` was intended |
| Store.PruneAsWrittenPanics | src/lib.rs:53-55 | the loop as written indexes past the end of `[(x,e),(x,e)]` |
| Store.WithoutVertex | src/lib.rs:43-57 | `remove_vertex` as written: it panics exactly when some other list's removal loop does; otherwise the vertex entry and its own list are gone and every other list is that list pruned as written |
| Store.WithoutVertexOf | src/lib.rs:46-56 | tables whose lists are each the as-written pruning of the old list, for every key but `vid`, are the result of `remove_vertex` |
| Store.WithoutVertexPanics | src/lib.rs:53-55 | one list whose removal loop panics makes the whole `remove_vertex` panic |
| Store.WithoutVertexIntended | src/lib.rs:42-57 | `remove_vertex` as intended: the vertex and its own list are gone, all other keys stay, and each list loses exactly its arcs to `vid` |
| Store.WithoutVertexAtMostOne | src/lib.rs:43-57 | when no list holds two arcs to `vid`, `remove_vertex` as written does not panic and equals the intended removal |
| Store.RemoveAbsentVertex | src/lib.rs:43-57 | removing an id that is not a vertex, not a key and not a target changes nothing |
| Store.Reachable | src/lib.rs:84-105 | what `bfs` answers: a directed path of one or more arcs; `Store.ReachableStep`, `Store.ClosedBlocksReach` and `SimpleGraph.Graph.Bfs` tie it to the search |
| Store.ReachableStep | src/lib.rs:93-99 | following one recorded arc from `start`, or from an id reachable from it, reaches the target |
| Store.ClosedHoldsPath | src/lib.rs:89-104 | a set that holds all successors of its members holds the end of every path that starts in it |
| Store.ClosedBlocksReach | src/lib.rs:89-104 | nothing outside such a closed set is reachable from inside it, which is why an exhausted search means "unreachable" |
| Store.SearchExample | src/tests.rs:49-67 | in the test's graph, E and D are reachable from A, and neither A nor an unknown id is reachable from E |
| Text.Join | src/lib.rs:168 | `join(" ")`; `Text.TokensOfJoinedTokens` shows that splitting undoes it and `Text.JoinSingleLine` that it stays on one line |
| Text.Tokens | src/lib.rs:158 | every item of `split_ascii_whitespace` is a non-empty run without ASCII whitespace |
| Text.TokensOfSpaced | src/lib.rs:158 | one inserted space splits the tokens of the two sides |
| Text.TokensOfToken | src/lib.rs:158 | a token splits into itself alone |
| Text.TokensOfJoin | src/lib.rs:158-168 | splitting text built by `join(" ")` of single-token fields and a last field gives the fields followed by the last field's tokens |
| Text.TokensOfJoinedTokens | src/lib.rs:158-168 | `join(" ")` then `split_ascii_whitespace` gives the tokens back |
| Text.JoinSingleLine | src/lib.rs:168 | joined tokens contain no line break and do not end in a space |
| Text.PhraseSingleLine | src/lib.rs:168 | a single-spaced phrase is a non-empty single line |
| Text.Unlines | src/lib.rs:115-127 | the text `serialize` writes, each line followed by `\n`; `Text.UnlinesSnoc` and `Text.UnlinesAppend` state how it grows and `Text.LinesOfUnlines` how it reads back |
| Text.UnlinesSnoc | src/lib.rs:118 | writing one more line appends it and its `\n` to the text |
| Text.UnlinesAppend | src/lib.rs:115-127 | the text of two runs of lines is the concatenation of their texts |
| Text.Lines | src/lib.rs:173 | `str::lines`; `Text.LinesOfUnlines` states that it recovers lines written with `\n`, and `Tgf.FromTestLines` gives the lines of the `from` test's text |
| Text.LinesFromWord | src/lib.rs:173 | `str::lines` reads the characters of a line-break-free run into the current line |
| Text.LinesOfUnlines | src/lib.rs:173 | `str::lines` on text made of lines each followed by `\n` gives exactly those lines, with no trailing empty line |
| Tgf.DeleteQuotes | src/lib.rs:147-152 | `delete_quotes` fails exactly on the lone `"` (the `[1..0]` slice); it strips one pair of outer quotes when the text starts and ends with `"`, and otherwise returns the text unchanged; the result is never longer |
| Tgf.DeleteQuotesOfQuoted | src/lib.rs:143-146 | the doc comment's example: `"hello world"` gives `hello world` |
| Tgf.SplitFields | src/lib.rs:157-171 | `split_line_into_vec_with_len` fails exactly when the line has fewer than `n` tokens; otherwise it gives exactly `n` fields: the first `n-1` tokens, then the remaining tokens joined by single spaces |
| Tgf.SplitFieldsKeepsTokens | src/lib.rs:157-171 | the fields carry exactly the tokens of the line, in order |
| Tgf.SplitFieldsOfParts | src/lib.rs:157-171 | a line whose tokens are given leading fields followed by a final phrase's tokens splits into exactly those fields |
| Tgf.SplitFieldsOfJoin | src/lib.rs:157-171 | splitting single-token fields and a final phrase, joined by spaces, gives those fields back |
| Tgf.ExampleTokens | src/lib.rs:154-156 | "praise the blobcat" splits into three tokens |
| Tgf.SplitThreeWords | src/lib.rs:154-156 | a line with those three tokens splits into 2 and 3 fields as documented, and fails for 4 |
| Tgf.SplitFieldsExamples | src/lib.rs:153-156 | the doc comment's examples: ["praise", "the blobcat"] for n=2, ["praise", "the", "blobcat"] for n=3 (and "wrong data" for n=4) |
| Tgf.ParseField | src/lib.rs:181-182 | a field fails only by the quote slice or by `parse` |
| Tgf.ParseVertexLine | src/lib.rs:178-182 | a vertex line fails only with `MalformedLine`, `QuoteSlice` or `ParseError` |
| Tgf.ParseEdgeLine | src/lib.rs:185-190 | an edge line fails only with `MalformedLine`, `QuoteSlice` or `ParseError` |
| Tgf.FirstIndex | src/lib.rs:174 | `position`: `None` exactly when no line is `#`; otherwise the index of the FIRST `#` line |
| Tgf.VertexParser | src/lib.rs:178-182 | `Tgf.ParseVertexLine` as the parser of the lines before the separator; `Tgf.DecodeFromVertex` states its turn |
| Tgf.EdgeParser | src/lib.rs:185-190 | `Tgf.ParseEdgeLine` as the parser of the lines after the separator; `Tgf.DecodeFromEdge` states its turn |
| Tgf.ParseLines | src/lib.rs:176-195 | parsing a range of lines gives one result per line; a failure is the error of some line in the range |
| Tgf.AddVertices | src/lib.rs:183 | adding vertex entries never touches the adjacency table |
| Tgf.AddArcs | src/lib.rs:191 | adding arcs never touches the vertex table |
| Tgf.AddVerticesCons | src/lib.rs:183 | adding a first entry, then the rest, is adding them all in order |
| Tgf.AddArcsCons | src/lib.rs:191 | adding a first arc, then the rest, is adding them all in order |
| Tgf.AddVerticesLaterWins | src/lib.rs:177-183 | of two vertex lines with the same id, the later one's value is kept |
| Tgf.DecodeFrom | src/lib.rs:176-195 | the loop fails only with `MalformedLine`, `QuoteSlice` or `ParseError` |
| Tgf.DecodeFromVertex | src/lib.rs:178-184 | a turn on a vertex line adds the vertex, or ends decoding with the line's error |
| Tgf.DecodeFromSeparator | src/lib.rs:193 | proof step: the turn on the separator changes nothing |
| Tgf.DecodeFromEdge | src/lib.rs:185-192 | a turn on an edge line adds the arc, or ends decoding with the line's error |
| Tgf.DecodeFromEnd | src/lib.rs:196 | proof step: past the last line, decoding gives the graph built so far |
| Tgf.Turn | src/lib.rs:177-194 | one iteration of the loop of `from`: add a vertex, add an arc, skip the separator, or stop with the line's error; `SimpleGraph.Graph.ReadLine` runs it and `Tgf.DecodeFromNext`/`Tgf.DecodeFromStops` relate it to `Tgf.DecodeFrom` |
| Tgf.DecodeFromNext | src/lib.rs:176-195 | a turn that succeeds hands its graph to the rest of the decoding |
| Tgf.DecodeFromStops | src/lib.rs:176-195 | a turn that fails is the error of the whole decoding |
| Tgf.DecodeLoop | src/lib.rs:176-196 | the loop of `from`, turn by turn; `Tgf.DecodeLoopIsDecodeFrom` states that it has the outcome of `Tgf.DecodeFrom` |
| Tgf.DecodeLoopNext | src/lib.rs:176-195 | proof step: a successful turn hands its graph to the next turn |
| Tgf.DecodeLoopStops | src/lib.rs:176-195 | proof step: a failing turn ends the loop with its error |
| Tgf.DecodeLoopIsDecodeFrom | src/lib.rs:176-195 | running the loop turn by turn has the same outcome as parsing every line first and adding them in order afterwards |
| Tgf.Decode | src/lib.rs:172-174 | `from` fails with `CorruptData` exactly when no line of the text is `#` |
| Tgf.FromTestText | src/tests.rs:93 | the four lines of the `from` test's text, each followed by `\n`, are that text |
| Tgf.FromTestLines | src/tests.rs:93 | `str::lines` reads the `from` test's text as four lines, with no empty line after the final `\n` |
| Tgf.FromTestTokens | src/tests.rs:93 | the tokens of the test's data lines; `"ha ha"` splits into two tokens |
| Tgf.FromTestParse | src/lib.rs:178-190 | the test's lines parse to `(2, "haha")`, `(1, "ha ha")` and the arc `(1, 2, 2.2)`; the quoted two-word value is rejoined and unquoted |
| Tgf.FromTestDecode | src/lib.rs:172-196 | four lines with `#` third decode to the two vertices added in order, then the arc |
| Tgf.FromTest | src/tests.rs:88-95 | the `from` test: the test's text decodes to the graph built by `add_vertex(1, "ha ha")`, `add_vertex(2, "haha")` and `add_edge(1, 2, 2.2)` |
| Tgf.DecodeParsed | src/lib.rs:178-197 | when every line parses, `from` adds the entries of the lines before the first `#` in order, then the arcs of the lines after it in order |
| Tgf.DecodeShortVertexLine | src/lib.rs:159-160 | a first line before `#` with fewer than two tokens (a blank line, a lone id) makes `from` fail with `MalformedLine` |
| Tgf.EnumerateStep | src/lib.rs:117 | proof step: visiting one more key of a map keeps the visited keys listed once each |
| Tgf.EnumerateDone | src/lib.rs:117 | proof step: when no key is left, every key was listed exactly once |
| Tgf.EdgeTextStep | src/lib.rs:121-125 | visiting one more list of the adjacency table writes its arcs after those written so far |
| Tgf.VertexLine | src/lib.rs:118 | `format!("{:?} {:?}", vid, vertex)`; `Tgf.ParseVertexLineOf` states that it parses back and `Tgf.VertexLineSingle` that it is one line |
| Tgf.EdgeLine | src/lib.rs:123 | `format!("{:?} {:?} {:?}", from, to, edge)`; `Tgf.ParseEdgeLineOf` states that it parses back and `Tgf.EdgeLineSingle` that it is one line |
| Tgf.SerializedLines | src/lib.rs:115-127 | the lines `serialize` writes for given iteration orders; `Tgf.SerializedText`, `Tgf.DecodeSerialized` and `SimpleGraph.Graph.Serialize` state what they are and that they read back |
| Tgf.VertexTextSnoc | src/lib.rs:117-119 | writing one more vertex entry appends its line |
| Tgf.EdgeTextSnoc | src/lib.rs:122-124 | writing one more arc appends its line |
| Tgf.EdgeTextAppend | src/lib.rs:121-125 | the text of two runs of arcs is the concatenation of their texts |
| Tgf.SerializedText | src/lib.rs:115-127 | the serialized text is the vertex lines, then `#\n`, then the arc lines |
| Tgf.ArcTriplesSnoc | src/lib.rs:122-124 | proof step: one more arc of a list gives one more `(from, to, edge)` |
| Tgf.EdgeTriplesSnoc | src/lib.rs:121-125 | proof step: one more list of the table appends its arcs |
| Tgf.RestrictSnoc | src/lib.rs:117 | proof step: listing one more key adds its entry |
| Tgf.RestrictAll | src/lib.rs:117 | proof step: listing every key gives the whole map |
| Tgf.ParseVertexLineOf | src/lib.rs:178-182 | a vertex line written for a faithfully rendering entry parses back to that entry |
| Tgf.ParseEdgeLineOf | src/lib.rs:185-190 | an edge line written for a faithfully rendering arc parses back to that arc |
| Tgf.VertexLineSingle | src/lib.rs:118 | a written vertex line is one line and never the separator |
| Tgf.EdgeLineSingle | src/lib.rs:123 | a written edge line is one line |
| Tgf.WrittenShape | src/lib.rs:115-127 | the written text splits back into the written lines, with the first `#` right after the vertex lines |
| Tgf.DecodeWritten | src/lib.rs:115-197 | decoding the lines written for faithfully rendering entries and arcs adds them back in order |
| Tgf.DecodeSerialized | src/lib.rs:115-197 | round trip: for any iteration orders, `from(serialize(g))` gives `g` back, when every id renders as one whitespace-free token, every value as a single-spaced phrase, each decodes back to it, and no list is empty |
| Tgf.VertexLineSpacing | src/lib.rs:158-168 | two vertex lines with the same tokens parse alike, however much whitespace separates them |
| Tgf.DoubleSpaceTokens | src/lib.rs:158 | `1 "a  b"` and `1 "a b"` split into the same three tokens |
| Tgf.DoubleSpaceNormalised | src/lib.rs:158-168 | a value written with two spaces in a row comes back with one: the fields of `1 "a  b"` are `1` and `"a b"`, and the line parses like `1 "a b"` |
| Tgf.EmptyListNotSerialized | src/lib.rs:121-125 | an empty list writes no line, so its key is lost on the round trip |
| SimpleGraph.FindLastMatch | src/lib.rs:73-78 | the scan loop of `remove_edge` ends with the index of the last arc to `to` (`Store.LastMatch`) |
| SimpleGraph.CollectMatches | src/lib.rs:47-52 | the `trash` loop collects the indices of the arcs to `vid`, in order (`Store.MatchIndices`) |
| SimpleGraph.RemoveIndices | src/lib.rs:53-55 | the removal loop of `remove_vertex` computes `Store.RemoveEach`, panicking exactly where it does |
| SimpleGraph.PruneList | src/lib.rs:47-55 | the executable counterpart of `Store.PruneAsWritten`: the body of the outer loop, built from the `CollectMatches` and `RemoveIndices` loops, computes the as-written pruning of one list |
| SimpleGraph.PruneTable | src/lib.rs:46-56 | the outer loop over the other lists, in any iteration order: on success the table `Store.WithoutVertex` describes; a panic exactly when `Store.WithoutVertex` has one |
| SimpleGraph.KeepOthers | src/lib.rs:42 | the corrected removal on one list computes `Store.Pruned` |
| SimpleGraph.PruneTableCorrected | src/lib.rs:42-57 | the corrected outer loop keeps every other key, and each list loses exactly its arcs to `vid` |
| SimpleGraph.SplitLine | src/lib.rs:157-171 | the `for` loop that copies the first `n-1` tokens computes `Tgf.SplitFields` |
| SimpleGraph.ReadVertexLine | src/lib.rs:178-182 | the executable counterpart of `Tgf.ParseVertexLine`, splitting with the `SplitLine` loop; its round trip is `Tgf.ParseVertexLineOf` |
| SimpleGraph.ReadEdgeLine | src/lib.rs:185-190 | the executable counterpart of `Tgf.ParseEdgeLine`, splitting with the `SplitLine` loop; its round trip is `Tgf.ParseEdgeLineOf` |
| SimpleGraph.WriteVertices | src/lib.rs:117-119 | the first loop of `serialize` lists every vertex once, in some order, and appends exactly those entries' lines |
| SimpleGraph.WriteArcs | src/lib.rs:122-124 | the inner loop appends one line per arc of the list, in list order |
| SimpleGraph.WriteEdges | src/lib.rs:121-125 | the outer loop lists every key once, in some order, and appends the arc lines of each list in turn |
| SimpleGraph.SubsetCardinality | src/lib.rs:89-103 | growing the visited set shrinks the ids left to visit, so the search terminates |
| SimpleGraph.Graph.constructor | src/lib.rs:24-29 | `new`: both tables empty |
| SimpleGraph.Graph.AddVertex | src/lib.rs:31-33 | the tables become `Store.WithVertex` of the old ones; `get_vertex_value(vid)` then gives the new value; the adjacency table is untouched |
| SimpleGraph.Graph.GetVertices | src/lib.rs:35-37 | the vertex table: the same keys, each with the value `get_vertex_value` gives |
| SimpleGraph.Graph.GetVertexValue | src/lib.rs:39-41 | the value at `vid` exactly when it is a vertex, `NotFound` otherwise |
| SimpleGraph.Graph.AddEdge | src/lib.rs:59-62 | the tables become `Store.WithEdge` of the old ones; `get_neighbors(from)` is the old list (or empty) followed by the new arc; vertices unchanged |
| SimpleGraph.Graph.GetNeighbors | src/lib.rs:64-66 | `None` exactly when `vid` has no list; otherwise its list, which may be empty |
| SimpleGraph.Graph.RemoveEdge | src/lib.rs:68-80 | success exactly when `Store.WithoutEdge` succeeds, leaving its tables; on `NotFound` the graph is unchanged |
| SimpleGraph.Graph.RemoveVertex | src/lib.rs:43-57 | vertex entry and own list always gone and other keys kept; success exactly when no list's removal loop panics, leaving the tables of `Store.WithoutVertex`; otherwise `IndexOutOfBounds` |
| SimpleGraph.Graph.RemoveVertexCorrected | src/lib.rs:42-57 | the corrected removal leaves exactly `Store.WithoutVertexIntended` of the old tables |
| SimpleGraph.Graph.Bfs | src/lib.rs:84-105 | true exactly when `finish` differs from `start` and is reachable from it by a path of one or more arcs (so `bfs(x, x)` is false); always terminates |
| SimpleGraph.Graph.Expand | src/lib.rs:93-101 | the inner loop pushes and marks exactly the newly discovered targets; it stops with `hit` exactly when `finish` is newly discovered; without a hit every target is visited |
| SimpleGraph.Graph.ReadLine | src/lib.rs:176-195 | one turn of the loop of `from` does what `Tgf.Turn` says: a vertex line adds a vertex, an edge line adds an arc, the separator adds nothing, and a bad line is its error |
| SimpleGraph.Graph.ReadLines | src/lib.rs:176-195 | the loop of `from` ends with the graph `Tgf.DecodeFrom` describes, or with its error |
| SimpleGraph.Graph.From | src/lib.rs:137-197 | `from` gives a fresh graph whose tables are `Tgf.Decode` of the text, or the error `Tgf.Decode` gives |
| SimpleGraph.Graph.Serialize | src/lib.rs:115-127 | the output is the vertex lines, `#`, then the arc lines, for some iteration order of each table; with `Tgf.DecodeSerialized` this is the round trip |

## Left out

- `src/main.rs` and `from_file` (src/lib.rs:198-208) are file and console I/O. Only the `from` that `from_file` delegates to is modelled.
- Rust's `Debug` rendering and `FromStr` parsing of the generic types are parameters: `showId`/`showV`/`showE` and `parseId`/`parseV`/`parseE`, where a parse failure is `None`. The escaping of `Debug` strings is not modelled. The round trip assumes each value's rendering decodes back to it.
- Floating-point edge values are not modelled: `E` stays generic. `Tgf.FromTest` restates the `from` test (src/tests.rs:88-95) with `real` edge values, given what `i32`, `String` and `f64` parsing return for the fields of its text.
- `HashMap` and `HashSet` hashing and iteration order are not modelled. Maps are Dafny `map`s and sets are `set`s. Every loop over a map picks its keys in an arbitrary order, and the contracts hold for all orders.
- `SimpleGraph.Graph.RemoveVertex`: when the removal loop panics, the contract promises only what the panic leaves certain: the vertex entry and its own list are gone, and the other keys remain. The lists already processed are not described, because they depend on the iteration order.
- `SimpleGraph.Graph.ReadLine`: when a line fails, the contract does not describe the graph, because the panic in `from` discards it.
- `remove_edge` removes the LAST arc to `to`: the loop at src/lib.rs:74-78 has no `break`. One might expect the first match to be removed; the code removes the last, and so does the model.
- `str::lines` is modelled as current Rust does it: a `\r` is dropped only when it comes right before `\n`. Blank lines are not skipped. Like any line with too few tokens, a blank line gives `MalformedLine`.
- The panics of the source are `GraphError` values. Unwinding itself, and the state of a graph observed after a caught panic, are not modelled.
- `Tgf.DecodeSerialized`: the round trip is stated only for ids that render as one whitespace-free token and values that render as single-spaced phrases. Reading a line splits it on ASCII whitespace and re-joins the last field with single spaces, so whitespace inside a value is normalised (`Tgf.DoubleSpaceNormalised`), and an id whose rendering holds whitespace is split across fields.
- `Tgf.DecodeSerialized`: the round trip is stated only for graphs without empty adjacency lists. `Tgf.EmptyListNotSerialized` shows why: an empty list writes no line, so its key does not come back.

## Findings

| source | as written | input that shows it | evidently intended | confidence | as-written member | corrected member |
|---|---|---|---|---|---|---|
| src/lib.rs:53-55 | `remove_vertex` removes the collected indices one by one with `Vec::remove`, without allowing for the shift each removal causes | a list `[(x,e),(x,e),(y,e)]` and `remove_vertex(x)`: it becomes `[(x,e)]`, so the arc to `y` is lost and an arc to `x` survives. A list `[(x,e),(x,e)]` makes the second `remove` index past the end and panic | every arc to the removed vertex is gone and all other arcs stay in order (the doc comment at src/lib.rs:42: "remove vertex by id (and all edges)") | not executed | Store.PruneAsWrittenDropsWrongArc, Store.PruneAsWrittenPanics, SimpleGraph.Graph.RemoveVertex | Store.WithoutVertexIntended, Store.PrunedAppend, SimpleGraph.Graph.RemoveVertexCorrected |
