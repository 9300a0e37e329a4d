/**
 * The reverse-dependency query end to end: build the forward map, invert
 * it and search the inverse from the target. With the stage-3 adjacency
 * map as the forward map this answers "which packages depend on the
 * target, within maxDepth edges"; with the stage-4 closure map as the
 * forward map the two depth bounds compound.
 */
module ReverseQuery {
  import opened Levels
  import opened Exclusion
  import opened TransitiveGraph
  import opened ReverseDeps
  import GraphBuilder

  /** Steps that agree on every node have the same walks, so the same reachability. */
  lemma SameStepSameReach(s1: Step, s2: Step, root: Node, v: Node, k: nat)
    requires forall n :: s1(n) == s2(n)
    ensures ReachableWithin(s1, root, v, k) <==> ReachableWithin(s2, root, v, k)
  {
    if ReachableWithin(s1, root, v, k) {
      var p :| IsWalk(s1, p) && p[0] == root && p[|p| - 1] == v && |p| <= k + 1;
      assert IsWalk(s2, p);
    }
    if ReachableWithin(s2, root, v, k) {
      var p :| IsWalk(s2, p) && p[0] == root && p[|p| - 1] == v && |p| <= k + 1;
      assert IsWalk(s1, p);
    }
  }

  /** With bound 1 the full-graph builder records exactly the filtered direct dependencies. */
  lemma {:induction false} DirectGraphIsRepo(repo: Repo, exclude: string, n: Node)
    ensures GraphStep(FullGraph(repo, 1, exclude))(n) == RepoStep(repo, exclude)(n)
  {
    var step := RepoStep(repo, exclude);
    assert Expanded(step, n, 1) == {n};
    SuccOne(step, n);
    assert ClosureOf(repo, n, 1, exclude) == step(n);
    if n !in repo {
      assert GraphBuilder.RepoNeighbors(repo, n) == [];
    }
  }

  /**
   * The reverse query over direct dependency edges: the forward map built
   * with bound 1, inverted, searched from the target with the user's bound.
   * It returns exactly the packages other than the target from which the
   * target is reachable along at most maxDepth filtered dependency edges.
   */
  method DirectReverseQuery(repo: Repo, target: Node, maxDepth: int, excludeSubstr: string)
    returns (preds: set<Node>)
    ensures forall v ::
      (v in preds <==> v != target && ReachableWithin(RepoStep(repo, excludeSubstr), v, target, Depth(maxDepth)))
  {
    var graph := BuildFullGraph(repo, 1, excludeSubstr);
    var inv := InvertGraph(graph);
    preds := TransitivePredecessors(inv, target, maxDepth);
    forall v ensures v in preds
        <==> v != target && ReachableWithin(RepoStep(repo, excludeSubstr), v, target, Depth(maxDepth))
    {
      AncestorsReachTarget(graph, target, maxDepth, v);
      forall n ensures GraphStep(graph)(n) == RepoStep(repo, excludeSubstr)(n) {
        DirectGraphIsRepo(repo, excludeSubstr, n);
      }
      SameStepSameReach(GraphStep(graph), RepoStep(repo, excludeSubstr), v, target, Depth(maxDepth));
    }
  }

  lemma ChainSteps()
    ensures var step := RepoStep(map["A" := ["B"], "B" := ["C"], "C" := ["D"], "D" := ["E"]], "");
      && step("A") == {"B"} && step("B") == {"C"} && step("C") == {"D"} && step("D") == {"E"}
  {
    var repo := map["A" := ["B"], "B" := ["C"], "C" := ["D"], "D" := ["E"]];
    assert GraphBuilder.RepoNeighbors(repo, "A") == ["B"];
    assert GraphBuilder.RepoNeighbors(repo, "B") == ["C"];
    assert GraphBuilder.RepoNeighbors(repo, "C") == ["D"];
    assert GraphBuilder.RepoNeighbors(repo, "D") == ["E"];
  }

  /**
   * The chain `A: B`, `B: C`, `C: D`, `D: E` with bound 2: the stage-4
   * pipeline (closure map, inverse, search) reports A as depending on E,
   * yet E is four dependency edges away from A, beyond the bound.
   */
  lemma {:induction false} CompoundedDepthExample()
    ensures var repo := map["A" := ["B"], "B" := ["C"], "C" := ["D"], "D" := ["E"]];
      && "A" in Predecessors(Inverse(FullGraph(repo, 2, "")), "E", 2)
      && !ReachableWithin(RepoStep(repo, ""), "A", "E", 2)
  {
    ChainPipelineFindsA();
    ChainTooFar();
  }

  /** The closure map of the chain with bound 2 holds A -> C and C -> E, so A reaches E in two of its edges. */
  lemma ChainClosureWalk()
    ensures ReachableWithin(GraphStep(FullGraph(map["A" := ["B"], "B" := ["C"], "C" := ["D"], "D" := ["E"]], 2, "")),
                            "A", "E", 2)
  {
    var g := FullGraph(map["A" := ["B"], "B" := ["C"], "C" := ["D"], "D" := ["E"]], 2, "");
    ChainSteps();
    ChainClosureEdge("C", "D", "E");
    ChainClosureEdge("A", "B", "C");
    TwoEdgeWalk(g, "A", "C", "E");
  }

  lemma TwoEdgeWalk(g: Graph, a: Node, b: Node, c: Node)
    requires a in g && b in g[a] && b in g && c in g[b]
    ensures ReachableWithin(GraphStep(g), a, c, 2)
  {
    assert IsWalk(GraphStep(g), [a, b, c]);
  }

  lemma ChainPipelineFindsA()
    ensures "A" in Predecessors(Inverse(FullGraph(map["A" := ["B"], "B" := ["C"], "C" := ["D"], "D" := ["E"]], 2, "")),
                                "E", 2)
  {
    var g := FullGraph(map["A" := ["B"], "B" := ["C"], "C" := ["D"], "D" := ["E"]], 2, "");
    ChainClosureWalk();
    assert "A" != "E" by {
      assert "A"[0] != "E"[0];
    }
    AncestorsReachTarget(g, "E", 2, "A");
  }

  lemma ChainTooFar()
    ensures !ReachableWithin(RepoStep(map["A" := ["B"], "B" := ["C"], "C" := ["D"], "D" := ["E"]], ""), "A", "E", 2)
  {
    ChainSeen();
    assert "E" !in {"A", "B", "C"} by {
      assert "E"[0] != "A"[0] && "E"[0] != "B"[0] && "E"[0] != "C"[0];
    }
    SeenIsReachable(RepoStep(map["A" := ["B"], "B" := ["C"], "C" := ["D"], "D" := ["E"]], ""), "A", 2, "E");
  }

  /** In the chain with bound 2, a package two edges before another gets an edge to it. */
  lemma ChainClosureEdge(a: Node, b: Node, c: Node)
    requires var step := RepoStep(map["A" := ["B"], "B" := ["C"], "C" := ["D"], "D" := ["E"]], "");
      a in map["A" := ["B"], "B" := ["C"], "C" := ["D"], "D" := ["E"]] && b in step(a) && c in step(b)
    ensures var g := FullGraph(map["A" := ["B"], "B" := ["C"], "C" := ["D"], "D" := ["E"]], 2, "");
      a in g && c in g[a]
  {
    var repo := map["A" := ["B"], "B" := ["C"], "C" := ["D"], "D" := ["E"]];
    assert IsWalk(RepoStep(repo, ""), [a, b, c]);
    FullGraphIsReachability(repo, 2, "", a, c);
  }

  lemma ChainSeen()
    ensures Seen(RepoStep(map["A" := ["B"], "B" := ["C"], "C" := ["D"], "D" := ["E"]], ""), "A", 2) == {"A", "B", "C"}
  {
    var step := RepoStep(map["A" := ["B"], "B" := ["C"], "C" := ["D"], "D" := ["E"]], "");
    ChainSteps();
    assert "A" != "B" && "A" != "C" && "B" != "C" by {
      assert "A"[0] != "B"[0] && "A"[0] != "C"[0] && "B"[0] != "C"[0];
    }
    assert RoundAt(step, "A", 1) == Round({"B"}, {"A", "B"}) by {
      SuccOne(step, "A");
    }
    SuccOne(step, "B");
  }

  lemma ScenarioInverseSteps()
    ensures var g := map["A" := {"B", "C"}, "B" := {"D"}];
      && GraphStep(Inverse(g))("D") == {"B"}
      && GraphStep(Inverse(g))("B") == {"A"}
      && GraphStep(Inverse(g))("A") == {}
  {
    var g := map["A" := {"B", "C"}, "B" := {"D"}];
    forall x ensures x in GraphStep(Inverse(g))("D") <==> x == "B" {
      InverseReversesEdges(g, x, "D");
    }
    forall x ensures x in GraphStep(Inverse(g))("B") <==> x == "A" {
      InverseReversesEdges(g, x, "B");
    }
    forall x ensures x !in GraphStep(Inverse(g))("A") {
      InverseReversesEdges(g, x, "A");
    }
  }

  /**
   * The repository `A: B C`, `B: D`, `C:`, `D:`: the level-by-level
   * builder's map from A with bound 5, inverted and searched from D with
   * bound 5, gives the dependents {A, B}.
   */
  lemma ReverseScenarioExample()
    ensures var repo := map["A" := ["B", "C"], "B" := ["D"], "C" := [], "D" := []];
      Predecessors(Inverse(GraphBuilder.LevelGraph(GraphBuilder.FromRepo(repo), "A", 5, "")), "D", 5) == {"A", "B"}
  {
    GraphBuilder.ScenarioExample();
    ScenarioInverseRounds();
  }

  lemma ScenarioInverseRounds()
    ensures Predecessors(Inverse(map["A" := {"B", "C"}, "B" := {"D"}]), "D", 5) == {"A", "B"}
  {
    var g := map["A" := {"B", "C"}, "B" := {"D"}];
    var step := GraphStep(Inverse(g));
    ScenarioInverseSteps();
    assert "A" != "B" && "A" != "D" && "B" != "D" by {
      assert "A"[0] != "B"[0] && "A"[0] != "D"[0] && "B"[0] != "D"[0];
    }
    assert RoundAt(step, "D", 1) == Round({"B"}, {"D", "B"}) by {
      SuccOne(step, "D");
    }
    assert RoundAt(step, "D", 2) == Round({"A"}, {"D", "B", "A"}) by {
      SuccOne(step, "B");
    }
    assert Level(step, "D", 3) == {} by {
      SuccOne(step, "A");
    }
    EmptyLevelStays(step, "D", 3, 5);
  }
}
