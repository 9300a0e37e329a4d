/**
 * The forward graph builder: a breadth-first traversal from one start node,
 * level by level, with a visited set for cycle safety, a depth bound and the
 * substring filter. It returns the adjacency map `node -> set of neighbours`
 * of the nodes it expanded.
 *
 * The source recurses once per level; here the recursion is a loop over
 * frontiers, with the same state: the map under construction, the visited
 * set, the current level and its depth.
 */
module GraphBuilder {
  import opened Levels
  import opened Exclusion
  import Text

  datatype Option<T> = None | Some(value: T)

  /** The neighbour lookup; `None` stands for a lookup that raised. */
  type Lookup = Node -> Option<seq<Node>>

  /** Adjacency map: a node and the set of its recorded neighbours. */
  type Graph = map<Node, set<Node>>

  /**
   * The neighbours the builder iterates over: the list the lookup returns,
   * or none when the lookup fails.
   */
  function Neighbors(lookup: Lookup, n: Node): (r: seq<Node>)
    ensures lookup(n).Some? ==> r == lookup(n).value
    ensures lookup(n).None? ==> r == []
  {
    match lookup(n)
    case Some(names) => names
    case None => []
  }

  /** The neighbours of `n` that pass the filter. */
  ghost function Surviving(lookup: Lookup, exclude: string, n: Node): set<Node>
  {
    Kept(Neighbors(lookup, n), exclude)
  }

  ghost function BuilderStep(lookup: Lookup, exclude: string): Step
  {
    n => Surviving(lookup, exclude, n)
  }

  /** The adjacency map of the expanded nodes `e`: a key per node with at least one edge. */
  ghost function GraphOf(step: Step, e: set<Node>): Graph
  {
    map n | n in e && step(n) != {} :: step(n)
  }

  /** `graph[n].add(x)` for every x of `s`, on a map whose missing keys read as empty sets. */
  function AddEdges(g: Graph, n: Node, s: set<Node>): Graph
  {
    if s == {} then g else g[n := (if n in g then g[n] else {}) + s]
  }

  /** What the builder returns: the adjacency map of every node expanded within the depth bound. */
  ghost function LevelGraph(lookup: Lookup, start: Node, maxDepth: int, exclude: string): Graph
  {
    var step := BuilderStep(lookup, exclude);
    GraphOf(step, Expanded(step, start, Depth(maxDepth)))
  }

  lemma GraphOfAddOne(step: Step, e: set<Node>, n: Node)
    ensures GraphOf(step, e + {n}) == AddEdges(GraphOf(step, e), n, step(n))
  {
    var lhs := GraphOf(step, e + {n});
    var rhs := AddEdges(GraphOf(step, e), n, step(n));
    assert lhs.Keys == rhs.Keys;
    forall m | m in lhs ensures lhs[m] == rhs[m] {
    }
  }

  lemma AddEdgesSnoc(g: Graph, n: Node, s: set<Node>, x: Node)
    ensures AddEdges(g, n, s + {x})
         == var h := AddEdges(g, n, s); h[n := (if n in h then h[n] else {}) + {x}]
  {
    var lhs := AddEdges(g, n, s + {x});
    var h := AddEdges(g, n, s);
    var rhs := h[n := (if n in h then h[n] else {}) + {x}];
    assert lhs.Keys == rhs.Keys;
    forall m | m in lhs ensures lhs[m] == rhs[m] {
    }
  }

  /** Scanning one more node of a level keeps the per-level bookkeeping exact. */
  lemma ScanOneNode(step: Step, expanded: set<Node>, visited: set<Node>, done: set<Node>, node: Node,
                    g: Graph, v: set<Node>, next: set<Node>)
    requires v == visited + Succ(step, done)
    requires next == Succ(step, done) - visited
    requires g == GraphOf(step, expanded + done)
    ensures v + step(node) == visited + Succ(step, done + {node})
    ensures next + (step(node) - v) == Succ(step, done + {node}) - visited
    ensures AddEdges(g, node, step(node)) == GraphOf(step, expanded + (done + {node}))
  {
    SuccAddOne(step, done, node);
    GraphOfAddOne(step, expanded + done, node);
    assert expanded + done + {node} == expanded + (done + {node});
  }

  /**
   * One pass of the source's inner loop over the neighbours of `node`: each
   * name that passes the filter becomes an edge, and the ones not yet visited
   * are marked visited and join the next level.
   */
  method ScanNeighbors(node: Node, neighbors: seq<Node>, excludeSubstr: string,
                       graph: Graph, visited: set<Node>, next: set<Node>)
    returns (graph': Graph, visited': set<Node>, next': set<Node>)
    ensures graph' == AddEdges(graph, node, Kept(neighbors, excludeSubstr))
    ensures visited' == visited + Kept(neighbors, excludeSubstr)
    ensures next' == next + (Kept(neighbors, excludeSubstr) - visited)
  {
    graph', visited', next' := graph, visited, next;
    var i := 0;
    while i < |neighbors|
      invariant i <= |neighbors|
      invariant graph' == AddEdges(graph, node, Kept(neighbors[..i], excludeSubstr))
      invariant visited' == visited + Kept(neighbors[..i], excludeSubstr)
      invariant next' == next + (Kept(neighbors[..i], excludeSubstr) - visited)
    {
      var nb := neighbors[i];
      KeptSnoc(neighbors, i, excludeSubstr);
      if !Excluded(nb, excludeSubstr) {
        assert Kept(neighbors[..i + 1], excludeSubstr) == Kept(neighbors[..i], excludeSubstr) + {nb};
        AddEdgesSnoc(graph, node, Kept(neighbors[..i], excludeSubstr), nb);
        graph' := graph'[node := (if node in graph' then graph'[node] else {}) + {nb}];
        if nb !in visited' {
          visited' := visited' + {nb};
          next' := next' + {nb};
        }
      } else {
        assert Kept(neighbors[..i + 1], excludeSubstr) == Kept(neighbors[..i], excludeSubstr);
      }
      i := i + 1;
    }
    KeptAll(neighbors, excludeSubstr);
  }

  /**
   * One call of the source's `process_level` without its recursive call:
   * every node of `level` is looked up (a failing lookup counts as no
   * neighbours) and scanned. Given the map of the nodes expanded so far, it
   * leaves the map of those nodes and this level, and returns the next level.
   */
  method ProcessLevel(getNeighbors: Lookup, excludeSubstr: string, level: set<Node>,
                      graph: Graph, visited: set<Node>, ghost expanded: set<Node>)
    returns (graph': Graph, visited': set<Node>, next: set<Node>)
    requires graph == GraphOf(BuilderStep(getNeighbors, excludeSubstr), expanded)
    ensures graph' == GraphOf(BuilderStep(getNeighbors, excludeSubstr), expanded + level)
    ensures visited' == visited + Succ(BuilderStep(getNeighbors, excludeSubstr), level)
    ensures next == Succ(BuilderStep(getNeighbors, excludeSubstr), level) - visited
  {
    ghost var step := BuilderStep(getNeighbors, excludeSubstr);
    graph', visited', next := graph, visited, {};
    var todo := level;
    while todo != {}
      invariant todo <= level
      invariant visited' == visited + Succ(step, level - todo)
      invariant next == Succ(step, level - todo) - visited
      invariant graph' == GraphOf(step, expanded + (level - todo))
      decreases todo
    {
      var node :| node in todo;
      ghost var done := level - todo;
      todo := todo - {node};
      assert level - todo == done + {node};
      var neighbors := Neighbors(getNeighbors, node);
      ScanOneNode(step, expanded, visited, done, node, graph', visited', next);
      assert Kept(neighbors, excludeSubstr) == step(node);
      graph', visited', next := ScanNeighbors(node, neighbors, excludeSubstr, graph', visited', next);
    }
  }

  /**
   * The traversal of the source, level by level: every node of the current
   * level is looked up once, each surviving neighbour is recorded as an edge
   * whether or not it was visited before, and only unvisited neighbours join
   * the next level. It stops at an empty level or at the depth bound.
   */
  method BfsLevels(start: Node, getNeighbors: Lookup, maxDepth: int, excludeSubstr: string)
    returns (graph: Graph)
    ensures graph == LevelGraph(getNeighbors, start, maxDepth, excludeSubstr)
  {
    ghost var step := BuilderStep(getNeighbors, excludeSubstr);
    graph := map[];
    var visited := {start};
    var level := {start};
    var depth := 0;
    GraphOfNone(step);
    while level != {} && depth < maxDepth
      invariant depth <= Depth(maxDepth)
      invariant level == Level(step, start, depth)
      invariant visited == Seen(step, start, depth)
      invariant graph == GraphOf(step, Expanded(step, start, depth))
      decreases maxDepth - depth
    {
      RoundNext(step, start, depth);
      graph, visited, level := ProcessLevel(getNeighbors, excludeSubstr, level, graph, visited,
                                            Expanded(step, start, depth));
      depth := depth + 1;
    }
    StopsAtBound(step, start, maxDepth, depth);
  }

  lemma GraphOfNone(step: Step)
    ensures GraphOf(step, {}) == map[]
  {
    assert GraphOf(step, {}).Keys == {};
  }

  /** The traversal loop stops at an empty level or at the bound; either way it has expanded all it would. */
  lemma StopsAtBound(step: Step, start: Node, maxDepth: int, depth: nat)
    requires depth <= Depth(maxDepth)
    requires Level(step, start, depth) == {} || depth >= maxDepth
    ensures Expanded(step, start, depth) == Expanded(step, start, Depth(maxDepth))
  {
    if depth < Depth(maxDepth) {
      ExpandedSettles(step, start, depth, Depth(maxDepth));
    }
  }

  /** A bound of zero or below expands nothing, so the result is empty. */
  lemma NoDepthNoGraph(lookup: Lookup, start: Node, maxDepth: int, exclude: string)
    requires maxDepth <= 0
    ensures LevelGraph(lookup, start, maxDepth, exclude) == map[]
  {
    GraphOfNone(BuilderStep(lookup, exclude));
  }

  /**
   * The keys of the result are the nodes expanded below the depth bound that
   * have at least one surviving neighbour, and each key maps to exactly its
   * surviving neighbours, whether or not they had been visited before.
   */
  lemma {:induction false} ResultIsExpandedAdjacency(lookup: Lookup, start: Node, maxDepth: int, exclude: string, n: Node)
    ensures var g := LevelGraph(lookup, start, maxDepth, exclude);
            n in g <==> Surviving(lookup, exclude, n) != {} &&
                        exists k :: 0 <= k < Depth(maxDepth) && n in Level(BuilderStep(lookup, exclude), start, k)
    ensures var g := LevelGraph(lookup, start, maxDepth, exclude);
            n in g ==> g[n] == Surviving(lookup, exclude, n)
  {
    var step := BuilderStep(lookup, exclude);
    var d := Depth(maxDepth);
    if d > 0 {
      SeenIsLevels(step, start, d - 1, n);
    }
  }

  /**
   * No recorded neighbour and no node of a level after the first contains
   * the exclusion string: filtered names are neither recorded nor enqueued.
   */
  lemma {:induction false} ExcludedNamesNeverAppear(lookup: Lookup, start: Node, maxDepth: int, exclude: string, k: nat)
    ensures var g := LevelGraph(lookup, start, maxDepth, exclude);
            forall n, v :: n in g && v in g[n] ==> v in Neighbors(lookup, n) && !Excluded(v, exclude)
    ensures k > 0 ==> forall v :: v in Level(BuilderStep(lookup, exclude), start, k) ==> !Excluded(v, exclude)
  {
    var step := BuilderStep(lookup, exclude);
    if k > 0 {
      forall v | v in Level(step, start, k) ensures !Excluded(v, exclude) {
        var u :| u in Level(step, start, k - 1) && v in step(u);
      }
    }
  }

  /**
   * A lookup that fails for `n` records no edge for `n`, and the traversal
   * goes on exactly as if `n` had no neighbours.
   */
  lemma {:induction false} FailedLookupCountsAsNoNeighbors(lookup: Lookup, fixed: Lookup, start: Node, maxDepth: int,
                                                          exclude: string, n: Node)
    requires lookup(n) == None
    requires forall x :: fixed(x) == if x == n then Some([]) else lookup(x)
    ensures n !in LevelGraph(lookup, start, maxDepth, exclude)
    ensures LevelGraph(lookup, start, maxDepth, exclude) == LevelGraph(fixed, start, maxDepth, exclude)
  {
    var s1 := BuilderStep(lookup, exclude);
    var s2 := BuilderStep(fixed, exclude);
    forall x ensures s1(x) == s2(x) {
      FixedLookupSameStep(lookup, fixed, exclude, n, x);
    }
    var d := Depth(maxDepth);
    if d > 0 {
      SameStepSameRounds(s1, s2, start, d - 1);
    }
    assert Expanded(s1, start, d) == Expanded(s2, start, d);
  }

  /** Replacing a failing lookup of `n` by an empty list changes no node's surviving neighbours. */
  lemma FixedLookupSameStep(lookup: Lookup, fixed: Lookup, exclude: string, n: Node, x: Node)
    requires lookup(n) == None
    requires fixed(x) == if x == n then Some([]) else lookup(x)
    ensures BuilderStep(lookup, exclude)(x) == BuilderStep(fixed, exclude)(x)
  {
    assert Neighbors(lookup, x) == Neighbors(fixed, x);
  }

  /** The keys of the map of the nodes expanded within bound d are the reachable nodes with an edge. */
  lemma GraphOfExpandedKeys(step: Step, start: Node, d: nat, v: Node)
    ensures v in GraphOf(step, Expanded(step, start, d))
        <==> d > 0 && step(v) != {} && ReachableWithin(step, start, v, d - 1)
  {
    if d > 0 {
      SeenIsReachable(step, start, d - 1, v);
    }
  }

  /** The recorded neighbours of that map are the nodes reachable along 1 .. d edges. */
  lemma GraphOfExpandedEdges(step: Step, start: Node, d: nat, v: Node)
    ensures var g := GraphOf(step, Expanded(step, start, d));
            (exists n :: n in g && v in g[n]) <==> ReachableBetween(step, start, v, d)
  {
    var g := GraphOf(step, Expanded(step, start, d));
    SuccOfExpandedIsReachable(step, start, d, v);
    if v in Succ(step, Expanded(step, start, d)) {
      var n :| n in Expanded(step, start, d) && v in step(n);
      assert n in g && v in g[n];
    }
  }

  /**
   * A node is a key exactly when it is reachable from the start along fewer
   * edges than the depth bound and has a surviving neighbour; a node is
   * recorded as some key's neighbour exactly when it is reachable along
   * 1 .. maxDepth edges. Paths follow surviving edges only.
   */
  lemma ResultIsBoundedReachability(lookup: Lookup, start: Node, maxDepth: int, exclude: string, v: Node)
    ensures var g := LevelGraph(lookup, start, maxDepth, exclude);
            v in g <==> Depth(maxDepth) > 0 && Surviving(lookup, exclude, v) != {} &&
                        ReachableWithin(BuilderStep(lookup, exclude), start, v, Depth(maxDepth) - 1)
    ensures var g := LevelGraph(lookup, start, maxDepth, exclude);
            (exists n :: n in g && v in g[n]) <==> ReachableBetween(BuilderStep(lookup, exclude), start, v, Depth(maxDepth))
  {
    var step := BuilderStep(lookup, exclude);
    assert step(v) == Surviving(lookup, exclude, v);
    GraphOfExpandedKeys(step, start, Depth(maxDepth), v);
    GraphOfExpandedEdges(step, start, Depth(maxDepth), v);
  }

  /**
   * Cycles end the traversal: when every node reachable from the start lies
   * in a finite set `u`, no depth bound beyond |u| changes the result.
   */
  lemma {:induction false} CyclesStopTraversal(lookup: Lookup, start: Node, maxDepth: int, exclude: string, u: set<Node>)
    requires Closed(BuilderStep(lookup, exclude), start, u)
    requires maxDepth >= |u|
    ensures LevelGraph(lookup, start, maxDepth, exclude) == LevelGraph(lookup, start, |u|, exclude)
  {
    var step := BuilderStep(lookup, exclude);
    LevelsRunOut(step, start, u);
    ExpandedSettles(step, start, |u|, maxDepth);
  }

  /** `repo.get(n, [])`: a package the repository does not list has no dependencies. */
  function RepoNeighbors(repo: Repo, n: Node): (r: seq<Node>)
    ensures n in repo ==> r == repo[n]
    ensures n !in repo ==> r == []
  {
    if n in repo then repo[n] else []
  }

  /** The lookup the command-line tool builds from a parsed repository: it never fails. */
  function FromRepo(repo: Repo): (lookup: Lookup)
    ensures forall x :: lookup(x).Some? && Neighbors(lookup, x) == RepoNeighbors(repo, x)
  {
    x => Some(RepoNeighbors(repo, x))
  }

  /** Two nodes that point at each other: from A, the traversal expands both and then stops. */
  lemma CycleRounds(step: Step)
    requires step("A") == {"B"} && step("B") == {"A"}
    ensures Expanded(step, "A", 10) == {"A", "B"}
    ensures GraphOf(step, {"A", "B"}) == map["A" := {"B"}, "B" := {"A"}]
  {
    assert RoundAt(step, "A", 1) == Round({"B"}, {"A", "B"}) by {
      SuccOne(step, "A");
    }
    assert Level(step, "A", 2) == {} by {
      SuccOne(step, "B");
    }
    ExpandedSettles(step, "A", 2, 10);
    assert GraphOf(step, {"A", "B"}).Keys == {"A", "B"};
  }

  /** `A: B` and `B: A` with depth bound 10: the cycle ends, and the edge back to A is kept. */
  lemma CycleExample()
    ensures LevelGraph(FromRepo(map["A" := ["B"], "B" := ["A"]]), "A", 10, "")
         == map["A" := {"B"}, "B" := {"A"}]
  {
    var repo := map["A" := ["B"], "B" := ["A"]];
    var step := BuilderStep(FromRepo(repo), "");
    assert step("A") == {"B"} by {
      assert Neighbors(FromRepo(repo), "A") == ["B"];
    }
    assert step("B") == {"A"} by {
      assert Neighbors(FromRepo(repo), "B") == ["A"];
    }
    CycleRounds(step);
  }

  /** `A: B C` with `C` excluded: C never appears. */
  lemma ExclusionExample()
    ensures LevelGraph(FromRepo(map["A" := ["B", "C"]]), "A", 5, "C") == map["A" := {"B"}]
  {
    var repo := map["A" := ["B", "C"]];
    var step := BuilderStep(FromRepo(repo), "C");
    assert step("A") == {"B"} by {
      assert Neighbors(FromRepo(repo), "A") == ["B", "C"];
      assert Excluded("C", "C") by {
        assert "C" <= "C";
      }
      assert !Excluded("B", "C") by {
        assert !("C" <= "B") by {
          assert "B"[0] == 'B' && "C"[0] == 'C';
        }
        assert "B"[1..] == [];
        assert !Text.Contains([], "C");
        assert !Text.Contains("B", "C");
      }
    }
    assert step("B") == {} by {
      assert Neighbors(FromRepo(repo), "B") == [];
    }
    assert RoundAt(step, "A", 1) == Round({"B"}, {"A", "B"}) by {
      SuccOne(step, "A");
    }
    assert Level(step, "A", 2) == {} by {
      SuccOne(step, "B");
    }
    assert Expanded(step, "A", 5) == {"A", "B"} by {
      ExpandedSettles(step, "A", 2, 5);
    }
  }

  lemma ScenarioSteps()
    ensures var step := BuilderStep(FromRepo(map["A" := ["B", "C"], "B" := ["D"], "C" := [], "D" := []]), "");
            && step("A") == {"B", "C"} && step("B") == {"D"} && step("C") == {} && step("D") == {}
  {
    var repo := map["A" := ["B", "C"], "B" := ["D"], "C" := [], "D" := []];
    var step := BuilderStep(FromRepo(repo), "");
    assert step("A") == {"B", "C"} by {
      assert Neighbors(FromRepo(repo), "A") == ["B", "C"];
    }
    assert step("B") == {"D"} by {
      assert Neighbors(FromRepo(repo), "B") == ["D"];
    }
    assert step("C") == {} && step("D") == {} by {
      assert Neighbors(FromRepo(repo), "C") == [];
      assert Neighbors(FromRepo(repo), "D") == [];
    }
  }

  /** The diamond-free scenario A -> B, C and B -> D, from A: its rounds and its maps. */
  lemma ScenarioRounds(step: Step)
    requires step("A") == {"B", "C"} && step("B") == {"D"} && step("C") == {} && step("D") == {}
    ensures Expanded(step, "A", 5) == {"A", "B", "C", "D"}
    ensures Expanded(step, "A", 1) == {"A"}
  {
    assert RoundAt(step, "A", 1) == Round({"B", "C"}, {"A", "B", "C"}) by {
      SuccOne(step, "A");
    }
    assert RoundAt(step, "A", 2) == Round({"D"}, {"A", "B", "C", "D"}) by {
      SuccUnion(step, {"B"}, {"C"});
      SuccOne(step, "B");
      SuccOne(step, "C");
      assert {"B", "C"} == {"B"} + {"C"};
    }
    assert Level(step, "A", 3) == {} by {
      SuccOne(step, "D");
    }
    ExpandedSettles(step, "A", 3, 5);
  }

  lemma ScenarioGraphs(step: Step)
    requires step("A") == {"B", "C"} && step("B") == {"D"} && step("C") == {} && step("D") == {}
    ensures GraphOf(step, {"A", "B", "C", "D"}) == map["A" := {"B", "C"}, "B" := {"D"}]
    ensures GraphOf(step, {"A"}) == map["A" := {"B", "C"}]
  {
    assert GraphOf(step, {"A", "B", "C", "D"}).Keys == {"A", "B"};
    assert GraphOf(step, {"A"}).Keys == {"A"};
  }

  /**
   * The repository `A: B C`, `B: D`, `C:`, `D:` with depth bound 5 gives
   * {A: {B, C}, B: {D}}: C and D have no edges and get no key.
   */
  lemma ScenarioExample()
    ensures LevelGraph(FromRepo(map["A" := ["B", "C"], "B" := ["D"], "C" := [], "D" := []]), "A", 5, "")
         == map["A" := {"B", "C"}, "B" := {"D"}]
  {
    ScenarioSteps();
    var step := BuilderStep(FromRepo(map["A" := ["B", "C"], "B" := ["D"], "C" := [], "D" := []]), "");
    ScenarioRounds(step);
    ScenarioGraphs(step);
  }

  /** The same repository with depth bound 1: only A is expanded. */
  lemma ScenarioDepthOneExample()
    ensures LevelGraph(FromRepo(map["A" := ["B", "C"], "B" := ["D"], "C" := [], "D" := []]), "A", 1, "")
         == map["A" := {"B", "C"}]
  {
    ScenarioSteps();
    var step := BuilderStep(FromRepo(map["A" := ["B", "C"], "B" := ["D"], "C" := [], "D" := []]), "");
    ScenarioRounds(step);
    ScenarioGraphs(step);
  }
}
