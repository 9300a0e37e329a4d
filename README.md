# Dependency-graph explorer: a verified model

This project models the core of a small package-dependency explorer. The
explorer reads a test repository, a text file whose lines have the form
`NAME: DEP1 DEP2 ...`. It then answers two kinds of question:

- **Forward.** Which packages does a start package depend on, directly and
  transitively, within a depth bound? This is the level-by-level
  breadth-first builder of `stage3.py`.
- **Reverse.** Which packages depend on a target? This is the three-phase
  tool of `stage4.py`:
  1. build, for every package of the repository, the set of names it
     reaches within the bound;
  2. invert that map;
  3. run a depth-bounded FIFO search of the inverse from the target.

In both directions a dependency name that contains the exclusion substring
is dropped. An empty exclusion string drops nothing.

The model has one module per concern:

- `Text` (`text.dfy`): the string operations the reader uses. These are
  Python's `strip`, whitespace `split` and first-occurrence search over
  Python's whitespace set, plus substring containment.
- `Exclusion` (`exclusion.dfy`): the filter `exclude and exclude in name`.
- `Levels` (`levels.dfy`): the reference definition of a level-synchronous
  breadth-first traversal over a step function, which gives the levels,
  the seen set and the expanded set. It also holds the lemmas tying that
  traversal to walks in the graph.
- `FifoBfs` (`fifo_bfs.dfy`): the invariant that ties a FIFO queue of
  `(node, depth)` entries to those levels. Both traversals of `stage4.py`
  are proved against the level definition through it.
- `RepoParser` (`repo_parser.dfy`): `read_test_repo` of `stage2.py`, over
  the file's lines.
- `GraphBuilder` (`graph_builder.dfy`): `recursive_bfs_levels` of
  `stage3.py`.
- `TransitiveGraph` (`full_graph.dfy`): `build_full_graph` of `stage4.py`.
- `ReverseDeps` (`reverse_deps.dfy`): `invert_graph` and
  `transitive_predecessors` of `stage4.py`.
- `ReverseQuery` (`reverse_query.dfy`): the composition in `main` of
  `stage4.py`, and what it answers.

Each source loop is a `method` with a `while` loop. Each method is proved
equal to a specification function: `ParseLines`, `LevelGraph`,
`ClosureOf`, `FullGraph`, `Inverse` or `Predecessors`. The lemmas then say
what those functions mean:

- reachability along at most `maxDepth` filtered edges;
- inversion reverses every edge;
- the reader's error is the first line without a colon.

## Model

| member | source | states |
|---|---|---|
| Text.Strip | stage2.py:57 | the result is no longer than the input, neither of its ends is whitespace, and it is empty exactly when the input is all whitespace |
| Text.StripIsInfix | stage2.py:57 | the input is some whitespace, then the stripped string, then some whitespace |
| Text.StripIdempotent | stage2.py:63 | stripping an already stripped string changes nothing |
| Text.StripKeeps | stage2.py:57-60 | stripping keeps every non-whitespace character, so a `:` is in the stripped line exactly when it is in the raw line |
| Text.Words | stage2.py:65 | every word of the whitespace split is non-empty and holds no whitespace |
| Text.WordsAreRuns | stage2.py:65 | the input is whitespace gaps interleaved with the words, and every gap between two words is non-empty, so the split breaks exactly at whitespace runs |
| Text.WordsKeepNonSpace | stage2.py:65 | the words, concatenated, are exactly the non-whitespace characters of the input, in order |
| Text.NonSpaceStrip | stage2.py:65 | stripping before splitting loses no non-whitespace character |
| Text.WordsUnwords | stage2.py:65 | splitting words joined by single spaces gives the words back |
| Text.IndexOf | stage2.py:62 | the index of the first occurrence of the character, or the length when there is none, with no earlier occurrence |
| Text.Contains | stage3.py:63 | `sub in s` holds exactly when `sub` occurs in `s` at some position |
| Exclusion.Excluded | stage3.py:63 | a name is excluded exactly when the exclusion string is non-empty and occurs in the name at some position |
| Exclusion.KeptByOccurrence | stage3.py:62-64 | a name passes the filter exactly when it is listed and the exclusion string is empty or occurs at no position of the name; an empty exclusion string lets every listed name pass |
| RepoParser.DropEmpty | stage2.py:65 | the `if d` filter keeps exactly the non-empty strings of the list, and no more of them than the list holds |
| RepoParser.DropEmptyAppend | stage2.py:65 | the filter works element by element: filtering a concatenation is filtering each part in order, so with `DropEmpty`'s own contract the result is the non-empty strings in their order and with their multiplicity |
| RepoParser.DropEmptyNone | stage2.py:65 | dropping empty strings from a list that has none gives the list back |
| RepoParser.EntryName | stage2.py:62-63 | the package name is the text before the first `:` with only whitespace cut from either end; it holds no `:` and is already stripped |
| RepoParser.EntryDeps | stage2.py:62-65 | the dependencies are the whitespace-separated runs of the text after the first `:`: the stripped text is non-empty whitespace gaps interleaved with them, each is non-empty and whitespace-free, and together they spell out all its non-whitespace |
| RepoParser.ParseLine | stage2.py:57-65 | a line is skipped exactly when it is blank or starts with `#` once stripped; it is an error line only when it has no `:`, and then the error carries the stripped text |
| RepoParser.ReadTestRepo | stage2.py:41-67 | the reader's loop returns exactly the specification `ParseLines` of its lines |
| RepoParser.ErrorStops | stage2.py:60-61 | once a line has failed, the lines after it do not change the result |
| RepoParser.AssembleError | stage2.py:54-61 | reading fails exactly when some line has no `:`, and the error names the first such line by its 1-based number and stripped text |
| RepoParser.AssembleEntries | stage2.py:62-66 | a successful read has a key for exactly the packages with an entry line, each mapped to the dependencies of its last entry line |
| RepoParser.ParseFormatLine | stage2.py:43-44 | a line written as `pkg: dep1 dep2 ...` reads back as that package and those dependencies, for any writable name and dependency words |
| RepoParser.DocExample | stage2.py:45-48 | the format's own example reads as A to [B, C], B to [D], C to [] |
| GraphBuilder.Neighbors | stage3.py:57-61 | the neighbours are those the lookup returns, or none when the lookup fails |
| GraphBuilder.RepoNeighbors | stage4.py:55 | `repo.get(x, [])`: the listed dependencies of a package, or none for a name that is not a key |
| GraphBuilder.FromRepo | stage3.py:83-84 | the lookup built over the repository never fails and gives each name its `repo.get(x, [])` dependencies |
| GraphBuilder.ScanNeighbors | stage3.py:62-68 | the inner loop adds every filtered neighbour as an edge of the node, marks them visited, and adds the unvisited ones to the next level |
| GraphBuilder.ProcessLevel | stage3.py:50-68 | one level: the map grows to the map of the expanded nodes plus this level, visited grows by the level's successors, and the next level is those successors not visited before |
| GraphBuilder.BfsLevels | stage3.py:41-73 | the traversal returns exactly `LevelGraph`, the map of the nodes expanded within the depth bound |
| GraphBuilder.NoDepthNoGraph | stage3.py:53-54 | a bound of zero or below gives the empty map |
| GraphBuilder.ResultIsExpandedAdjacency | stage3.py:47-73 | a node is a key exactly when it sits on a level below the bound and has a surviving neighbour, and it maps to all its surviving neighbours, visited or not |
| GraphBuilder.ExcludedNamesNeverAppear | stage3.py:62-65 | every recorded neighbour is a listed neighbour that passes the filter, and no node after the start level is excluded |
| GraphBuilder.FailedLookupCountsAsNoNeighbors | stage3.py:57-61 | a lookup that fails for a node gives that node no key, and the same map as a lookup returning no neighbours for it |
| GraphBuilder.ResultIsBoundedReachability | stage3.py:41-73 | a node is a key exactly when it is reachable in fewer than maxDepth filtered edges and has a surviving neighbour; a node is recorded as a neighbour exactly when it is reachable in 1 to maxDepth edges |
| GraphBuilder.CyclesStopTraversal | stage3.py:45-48 | when everything reachable lies in a finite set u, any bound of at least \|u\| gives the same map as bound \|u\| |
| GraphBuilder.CycleExample | stage3.py:45-48 | the cycle `A: B`, `B: A` with bound 10 gives A to {B} and B to {A} |
| GraphBuilder.ExclusionExample | stage3.py:63-64 | `A: B C` excluding `C` gives A to {B} |
| GraphBuilder.ScenarioExample | stage3.py:41-73 | `A: B C`, `B: D`, `C:`, `D:` from A with bound 5 gives A to {B, C} and B to {D} |
| GraphBuilder.ScenarioDepthOneExample | stage3.py:53-54 | the same repository with bound 1 gives only A to {B, C} |
| Levels.LevelsDisjoint | stage3.py:66-68 | no node joins two levels, so no node is expanded twice |
| Levels.SeenIsLevels | stage3.py:66-68 | the visited set after k levels is the union of levels 0 to k |
| Levels.SeenIsReachable | stage3.py:66-70 | a node is visited within k levels exactly when it is reachable from the start in at most k edges |
| Levels.SuccOfExpandedIsReachable | stage3.py:62-65 | the neighbours of the nodes expanded in k levels are the nodes reachable in 1 to k edges |
| Levels.LevelsRunOut | stage3.py:51-52 | when everything reachable lies in a finite set u, level \|u\| is empty, so the traversal ends |
| FifoBfs.QueuePop | stage4.py:51-61 | popping the head of the queue and appending its unvisited successors one level deeper keeps the queue equal to the levels |
| FifoBfs.QueueDone | stage4.py:51 | when the queue is empty, every level up to the bound has been expanded |
| TransitiveGraph.ScanAndQueue | stage4.py:55-61 | the start's edge set and visited grow by the filtered neighbours, and the unvisited ones are appended at depth + 1 |
| TransitiveGraph.PopAndScan | stage4.py:51-61 | one pop keeps the queue invariant, and either the unvisited names or the queue shrink |
| TransitiveGraph.ClosureFrom | stage4.py:49-61 | the traversal from one start records exactly the successors of the nodes expanded within the bound |
| TransitiveGraph.BuildFullGraph | stage4.py:41-62 | the builder returns exactly `FullGraph`; its keys are repository packages with non-empty sets, and a bound of zero or below gives the empty map |
| TransitiveGraph.FullGraphIsReachability | stage4.py:41-62 | s maps to v exactly when s is a repository package and v is reachable from s in 1 to maxDepth filtered edges |
| TransitiveGraph.FullGraphTargetsKept | stage4.py:55-58 | no recorded name is excluded, and each is named as a dependency in the repository |
| ReverseDeps.Adjacent | stage4.py:80 | `inv_graph.get(node, [])`: a node with a key gets the set it maps to, a node with no key gets none, and every predecessor is a target of some edge of the map |
| ReverseDeps.InvertGraph | stage4.py:64-69 | the nested loops return exactly `Inverse` of the input map |
| ReverseDeps.InverseReversesEdges | stage4.py:66-68 | the inverse has the edge b to a exactly when the input has a to b |
| ReverseDeps.InverseKeys | stage4.py:64-69 | the keys of the inverse are exactly the nodes some edge leads to, and no key maps to an empty set |
| ReverseDeps.InverseTwice | stage4.py:64-69 | inverting twice gives the input back, less its keys with empty sets |
| ReverseDeps.QueuePreds | stage4.py:80-84 | each predecessor not yet visited is marked visited, added to the result and appended at depth + 1 |
| ReverseDeps.PopAndQueuePreds | stage4.py:76-84 | one pop keeps the search invariant, and either the unvisited nodes or the queue shrink |
| ReverseDeps.TransitivePredecessors | stage4.py:71-85 | the search returns exactly `Predecessors`, which never holds the target |
| ReverseDeps.PredecessorsAreReachable | stage4.py:71-85 | v is found exactly when v is not the target and is reachable from the target in at most maxDepth edges of the inverted map |
| ReverseDeps.PredecessorsBounds | stage4.py:71-85 | nothing is found with a bound of zero or below, or from a target the inverted map has no key for; everything found is a target of some inverted edge |
| ReverseDeps.AncestorsReachTarget | stage4.py:91-92 | searching the inverse of a map from a target finds exactly the nodes other than the target that reach it in at most maxDepth edges of the map |
| ReverseQuery.DirectReverseQuery | stage4.py:89-92 | with forward edges taken one step at a time, the pipeline finds exactly the packages other than the target that reach it in at most maxDepth filtered dependency edges |
| ReverseQuery.CompoundedDepthExample | stage4.py:90-92 | for the chain `A: B`, `B: C`, `C: D`, `D: E` with bound 2, the pipeline reports A for target E, yet A needs four edges to reach E |
| ReverseQuery.ReverseScenarioExample | stage4.py:91-92 | the stage-3 map of `A: B C`, `B: D`, `C:`, `D:` from A, inverted and searched from D with bound 5, gives {A, B} |

## Left out

- `stage3.py:27-38` and `stage4.py:28-39` carry their own copies of `read_test_repo`. They have no colon check, so a line without `:` fails with an unpacking `ValueError` that carries no line number. The model feeds both pipelines from `RepoParser.ReadTestRepo`, which differs from those copies only in the error it raises for such a line.
- Opening the file and the missing-file error (`stage2.py:50-51`) are left out. The reader takes the file's lines. A trailing newline is whitespace, and `strip` removes it.
- The error message text is left out. The model's error carries only the line number and the stripped line.
- Command-line parsing, the argument validators and `stage1.py` are left out.
- The NuGet registry lookup over HTTP is left out.
- Everything `main` prints is left out.
- The warning that `stage3.py` writes to stderr for a failing lookup is left out. The lookup is a parameter returning `Option`, and `None` stands for a lookup that raised.
- The order in which Python iterates over sets and dicts is left out. Each loop picks the next element of the remaining set, and every result is proved independent of that choice.
- `process_level`'s recursion on the next level (`stage3.py:70`) is modelled as a loop over levels. CPython adds a stack frame per level, so the code fails with `RecursionError` after about 1000 levels, for example on a chain of about 1000 packages with `--max-depth 1000`. `GraphBuilder.BfsLevels` returns the full map there; the recursion limit is not modelled.
- The `defaultdict` in all three functions is left out as such. The model writes out its effect: a key appears only when its first element is added.
- The `start_nodes` parameter of `build_full_graph` is left out because the function never reads it.
- A negative bound is not rejected. Every traversal treats it as zero, as the code's `depth >= max_depth` test does.
- Repository names are `string`s of Unicode characters. Python's whitespace set is written out character by character. Encoding and decoding are left out.

Points where the model follows the code as written:

- A builder records a key only for a node with at least one surviving edge (`stage3.py:65`, `stage4.py:58`). Edgeless nodes get no empty-set key.
- `stage3.py` and `stage4.py` build different forward maps: `stage3.py` maps each expanded node to its direct filtered neighbours, while `stage4.py` maps every package to its whole filtered closure. The model follows each as written, and `stage4.py`'s `main` inverts the closure map.
- `ReverseQuery.ReverseScenarioExample` runs the reverse search over the `stage3.py` map instead, to show what inverting that map answers.

## Findings

| source | as written | input that shows it | evidently intended | confidence | as-written member | corrected member |
|---|---|---|---|---|---|---|
| stage4.py:90-92 | `main` inverts the closure map of `build_full_graph`. That map already joins each package to everything within `max_depth` edges. Searching its inverse another `max_depth` levels compounds the two bounds, so it reaches dependents up to `max_depth * max_depth` edges away. | repository `A: B`, `B: C`, `C: D`, `D: E`, target `E`, `--max-depth 2`: A is reported, although E is four edges from A | the dependents of the target within `max_depth` dependency edges, as the comment at `stage4.py:72` says | medium, not executed | ReverseQuery.CompoundedDepthExample | ReverseQuery.DirectReverseQuery |
