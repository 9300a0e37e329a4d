/**
 * The reverse-dependency tool's first phase: for every package named on
 * the left of the repository description, a breadth-first traversal driven
 * by a FIFO queue records every name it meets (after the filter) as an edge
 * from the start package. The result maps each start to the set of names
 * reachable from it in one to maxDepth steps; starts that reach nothing get
 * no key.
 */
module TransitiveGraph {
  import opened Levels
  import opened Exclusion
  import opened FifoBfs
  import GraphBuilder

  type Graph = GraphBuilder.Graph

  /** One step of the traversal: the neighbours of `n` that pass the filter. */
  ghost function RepoStep(repo: Repo, exclude: string): Step
  {
    n => Kept(GraphBuilder.RepoNeighbors(repo, n), exclude)
  }

  /** Every name that occurs as a dependency somewhere in the repository. */
  ghost function Names(repo: Repo): set<Node>
  {
    set n, x | n in repo && x in repo[n] :: x
  }

  /**
   * What the traversal from `start` records: every successor of a node it
   * expands, and it expands the nodes at depth below the bound.
   */
  ghost function ClosureOf(repo: Repo, start: Node, maxDepth: int, exclude: string): set<Node>
  {
    var step := RepoStep(repo, exclude);
    Succ(step, Expanded(step, start, Depth(maxDepth)))
  }

  /** A map from each start in `starts` to its set `f(s)`, with no key where that set is empty. */
  ghost function NonEmptyImage(f: Node -> set<Node>, starts: set<Node>): Graph
  {
    map s | s in starts && f(s) != {} :: f(s)
  }

  ghost function ClosureFn(repo: Repo, maxDepth: int, exclude: string): Node -> set<Node>
  {
    s => ClosureOf(repo, s, maxDepth, exclude)
  }

  /** The map built from the starts in `starts`: a key for each one whose closure is not empty. */
  ghost function ClosureMap(repo: Repo, starts: set<Node>, maxDepth: int, exclude: string): Graph
  {
    NonEmptyImage(ClosureFn(repo, maxDepth, exclude), starts)
  }

  /** What the builder returns: one traversal per package of the repository. */
  ghost function FullGraph(repo: Repo, maxDepth: int, exclude: string): Graph
  {
    ClosureMap(repo, repo.Keys, maxDepth, exclude)
  }

  lemma NeighborsAreNames(repo: Repo, n: Node, exclude: string)
    ensures RepoStep(repo, exclude)(n) == Kept(GraphBuilder.RepoNeighbors(repo, n), exclude) <= Names(repo)
  {
    forall x | x in RepoStep(repo, exclude)(n) ensures x in Names(repo) {
      assert x in repo[n];
    }
  }

  /**
   * The state of the traversal from `start` between two pops: the queue
   * invariant, the edges recorded so far (the successors of every node
   * expanded), and every visited name within the finite set of names.
   */
  ghost predicate ClosureInv(repo: Repo, exclude: string, start: Node, maxDepth: int,
                             queue: seq<Entry>, visited: set<Node>, reached: set<Node>,
                             d: nat, cut: nat, popped: set<Node>)
  {
    var step := RepoStep(repo, exclude);
    && QueueInv(step, start, maxDepth, queue, visited, d, cut, popped)
    && reached == Succ(step, Expanded(step, start, d)) + Succ(step, Active(maxDepth, d, popped))
    && visited <= Names(repo) + {start}
  }

  lemma ClosureStart(repo: Repo, exclude: string, start: Node, maxDepth: int)
    ensures ClosureInv(repo, exclude, start, maxDepth, [(start, 0)], {start}, {}, 0, 1, {})
  {
    var step := RepoStep(repo, exclude);
    QueueInit(step, start, maxDepth);
    assert Expanded(step, start, 0) == {};
    assert Active(maxDepth, 0, {}) == {};
  }

  lemma ClosureNextLevel(repo: Repo, exclude: string, start: Node, maxDepth: int,
                         queue: seq<Entry>, visited: set<Node>, reached: set<Node>, d: nat, popped: set<Node>)
    requires ClosureInv(repo, exclude, start, maxDepth, queue, visited, reached, d, 0, popped)
    requires queue != []
    ensures ClosureInv(repo, exclude, start, maxDepth, queue, visited, reached, d + 1, |queue|, {})
  {
    QueueNextLevel(RepoStep(repo, exclude), start, maxDepth, queue, visited, d, popped);
  }

  /** Popping an entry at or beyond the bound only drops it. */
  lemma ClosureSkip(repo: Repo, exclude: string, start: Node, maxDepth: int,
                    queue: seq<Entry>, visited: set<Node>, reached: set<Node>, d: nat, cut: nat, popped: set<Node>)
    requires ClosureInv(repo, exclude, start, maxDepth, queue, visited, reached, d, cut, popped)
    requires cut > 0 && queue[0].1 >= maxDepth
    ensures ClosureInv(repo, exclude, start, maxDepth, queue[1..], visited, reached, d, cut - 1, popped + {queue[0].0})
  {
    var step := RepoStep(repo, exclude);
    NodesOfEmpty([]);
    QueuePop(step, start, maxDepth, queue, visited, d, cut, popped, []);
    assert queue[1..] + [] == queue[1..];
  }

  /** Popping an entry below the bound records and queues its neighbours as the neighbour loop does. */
  lemma ClosureExpand(repo: Repo, exclude: string, start: Node, maxDepth: int,
                      queue: seq<Entry>, visited: set<Node>, reached: set<Node>, d: nat, cut: nat, popped: set<Node>,
                      queue': seq<Entry>, visited': set<Node>, reached': set<Node>)
    requires ClosureInv(repo, exclude, start, maxDepth, queue, visited, reached, d, cut, popped)
    requires cut > 0 && queue[0].1 < maxDepth
    requires var q := queue[1..]; var kept := Kept(GraphBuilder.RepoNeighbors(repo, queue[0].0), exclude);
      && |q| <= |queue'| && queue'[..|q|] == q
      && (forall j :: |q| <= j < |queue'| ==> queue'[j].1 == queue[0].1 + 1)
      && NodesOf(queue'[|q|..]) == kept - visited
      && visited' == visited + kept
      && reached' == reached + kept
    ensures ClosureInv(repo, exclude, start, maxDepth, queue', visited', reached', d, cut - 1, popped + {queue[0].0})
  {
    var step := RepoStep(repo, exclude);
    var n := queue[0].0;
    assert step(n) == Kept(GraphBuilder.RepoNeighbors(repo, n), exclude);
    NeighborsAreNames(repo, n, exclude);
    ReachExpand(step, start, maxDepth, queue, visited, reached, d, cut, popped, queue', visited', reached');
  }

  /** Visiting names from a finite set `u` shrinks what is left of it. */
  lemma VisitedShrinks(u: set<Node>, visited: set<Node>, kept: set<Node>)
    requires visited <= u && kept <= u
    ensures visited + kept <= u
    ensures visited + kept == visited || u - (visited + kept) < u - visited
  {
    if visited + kept != visited {
      var x :| x in kept && x !in visited;
      assert x in u - visited;
    }
  }

  lemma ClosureEnd(repo: Repo, exclude: string, start: Node, maxDepth: int,
                   visited: set<Node>, reached: set<Node>, d: nat, cut: nat, popped: set<Node>)
    requires ClosureInv(repo, exclude, start, maxDepth, [], visited, reached, d, cut, popped)
    ensures reached == ClosureOf(repo, start, maxDepth, exclude)
  {
    QueueDone(RepoStep(repo, exclude), start, maxDepth, visited, d, cut, popped);
  }

  /**
   * The body of the source's loop over start packages: a FIFO traversal
   * from `start` that adds every neighbour passing the filter to the start's
   * edge set, and queues the ones not yet visited one level deeper. Entries
   * at or beyond the bound are dropped when popped.
   */
  method ClosureFrom(repo: Repo, start: Node, maxDepth: int, excludeSubstr: string) returns (reached: set<Node>)
    ensures reached == ClosureOf(repo, start, maxDepth, excludeSubstr)
  {
    ghost var u := Names(repo) + {start};
    var visited := {start};
    var queue: seq<Entry> := [(start, 0)];
    reached := {};
    ghost var d: nat, cut: nat, popped: set<Node> := 0, 1, {};
    ClosureStart(repo, excludeSubstr, start, maxDepth);
    while queue != []
      invariant ClosureInv(repo, excludeSubstr, start, maxDepth, queue, visited, reached, d, cut, popped)
      invariant visited <= u
      decreases u - visited, |queue|
    {
      queue, visited, reached, d, cut, popped :=
        PopAndScan(repo, start, maxDepth, excludeSubstr, queue, visited, reached, d, cut, popped, u);
    }
    ClosureEnd(repo, excludeSubstr, start, maxDepth, visited, reached, d, cut, popped);
  }

  /**
   * One pass of the source's `while queue` loop: pop the head; drop it when
   * it lies at or beyond the bound, otherwise scan its neighbours. Either
   * the set of unvisited names shrinks or the queue does.
   */
  method PopAndScan(repo: Repo, start: Node, maxDepth: int, excludeSubstr: string,
                    queue: seq<Entry>, visited: set<Node>, reached: set<Node>,
                    ghost d: nat, ghost cut: nat, ghost popped: set<Node>, ghost u: set<Node>)
    returns (queue': seq<Entry>, visited': set<Node>, reached': set<Node>,
             ghost d': nat, ghost cut': nat, ghost popped': set<Node>)
    requires ClosureInv(repo, excludeSubstr, start, maxDepth, queue, visited, reached, d, cut, popped)
    requires u == Names(repo) + {start} && visited <= u
    requires queue != []
    ensures ClosureInv(repo, excludeSubstr, start, maxDepth, queue', visited', reached', d', cut', popped')
    ensures visited' <= u
    ensures u - visited' < u - visited || (u - visited' == u - visited && |queue'| < |queue|)
  {
    d', cut', popped' := d, cut, popped;
    if cut == 0 {
      ClosureNextLevel(repo, excludeSubstr, start, maxDepth, queue, visited, reached, d, popped);
      d', cut', popped' := d + 1, |queue|, {};
    }
    var node, depth := queue[0].0, queue[0].1;
    if depth >= maxDepth {
      ClosureSkip(repo, excludeSubstr, start, maxDepth, queue, visited, reached, d', cut', popped');
      queue', visited', reached' := queue[1..], visited, reached;
    } else {
      var kept := Kept(GraphBuilder.RepoNeighbors(repo, node), excludeSubstr);
      queue', visited', reached' :=
        ScanAndQueue(GraphBuilder.RepoNeighbors(repo, node), excludeSubstr, depth, queue[1..], visited, reached);
      ClosureExpand(repo, excludeSubstr, start, maxDepth, queue, visited, reached, d', cut', popped',
                    queue', visited', reached');
      NeighborsAreNames(repo, node, excludeSubstr);
      VisitedShrinks(u, visited, kept);
    }
    cut', popped' := cut' - 1, popped' + {node};
  }

  /**
   * The source's loop over the neighbours of a popped node at `depth`: every
   * name passing the filter joins the start's edge set, and those not yet
   * visited are marked visited and appended to the queue at depth + 1.
   */
  method ScanAndQueue(neighbors: seq<Node>, excludeSubstr: string, depth: int,
                      queue: seq<Entry>, visited: set<Node>, reached: set<Node>)
    returns (queue': seq<Entry>, visited': set<Node>, reached': set<Node>)
    ensures |queue| <= |queue'| && queue'[..|queue|] == queue
    ensures forall j :: |queue| <= j < |queue'| ==> queue'[j].1 == depth + 1
    ensures NodesOf(queue'[|queue|..]) == Kept(neighbors, excludeSubstr) - visited
    ensures visited' == visited + Kept(neighbors, excludeSubstr)
    ensures reached' == reached + Kept(neighbors, excludeSubstr)
    ensures queue' == queue || visited' != visited
  {
    queue', visited', reached' := queue, visited, reached;
    NodesOfEmpty([]);
    var i := 0;
    while i < |neighbors|
      invariant i <= |neighbors|
      invariant |queue| <= |queue'| && queue'[..|queue|] == queue
      invariant forall j :: |queue| <= j < |queue'| ==> queue'[j].1 == depth + 1
      invariant NodesOf(queue'[|queue|..]) == Kept(neighbors[..i], excludeSubstr) - visited
      invariant visited' == visited + Kept(neighbors[..i], excludeSubstr)
      invariant reached' == reached + Kept(neighbors[..i], excludeSubstr)
      invariant queue' == queue || visited' != visited
    {
      var nb := neighbors[i];
      KeptSnoc(neighbors, i, excludeSubstr);
      if !Excluded(nb, excludeSubstr) {
        reached' := reached' + {nb};
        if nb !in visited' {
          NodesOfSnoc(queue', |queue|, (nb, depth + 1));
          visited' := visited' + {nb};
          queue' := queue' + [(nb, depth + 1)];
        }
      }
      i := i + 1;
    }
    KeptAll(neighbors, excludeSubstr);
  }

  /**
   * The builder: one traversal per package of the repository, recording the
   * non-empty edge sets. Nothing else gets a key, and a non-positive bound
   * gives the empty map.
   */
  method BuildFullGraph(repo: Repo, maxDepth: int, excludeSubstr: string) returns (graph: Graph)
    ensures graph == FullGraph(repo, maxDepth, excludeSubstr)
    ensures graph.Keys <= repo.Keys
    ensures forall s :: s in graph ==> graph[s] != {}
    ensures maxDepth <= 0 ==> graph == map[]
  {
    graph := map[];
    var todo := repo.Keys;
    while todo != {}
      invariant todo <= repo.Keys
      invariant graph == ClosureMap(repo, repo.Keys - todo, maxDepth, excludeSubstr)
      decreases todo
    {
      var start :| start in todo;
      ghost var done := repo.Keys - todo;
      todo := todo - {start};
      var reached := ClosureFrom(repo, start, maxDepth, excludeSubstr);
      ClosureMapAddOne(repo, done, start, maxDepth, excludeSubstr);
      assert repo.Keys - todo == done + {start};
      if reached != {} {
        graph := graph[start := reached];
      }
    }
    if maxDepth <= 0 {
      forall s | s in repo ensures ClosureOf(repo, s, maxDepth, excludeSubstr) == {} {
        ClosureWithinNoDepth(repo, s, maxDepth, excludeSubstr);
      }
    }
  }

  lemma ClosureMapAddOne(repo: Repo, done: set<Node>, s: Node, maxDepth: int, exclude: string)
    ensures ClosureMap(repo, done + {s}, maxDepth, exclude)
         == var c := ClosureOf(repo, s, maxDepth, exclude);
            var g := ClosureMap(repo, done, maxDepth, exclude);
            if c != {} then g[s := c] else g
  {
    NonEmptyImageAddOne(ClosureFn(repo, maxDepth, exclude), done, s);
  }

  lemma NonEmptyImageAddOne(f: Node -> set<Node>, done: set<Node>, s: Node)
    ensures NonEmptyImage(f, done + {s})
         == var g := NonEmptyImage(f, done); if f(s) != {} then g[s := f(s)] else g
  {
    var g := NonEmptyImage(f, done);
    var lhs := NonEmptyImage(f, done + {s});
    var rhs := if f(s) != {} then g[s := f(s)] else g;
    assert lhs.Keys == rhs.Keys;
    forall m | m in lhs ensures lhs[m] == rhs[m] {
    }
  }

  lemma ClosureWithinNoDepth(repo: Repo, s: Node, maxDepth: int, exclude: string)
    requires maxDepth <= 0
    ensures ClosureOf(repo, s, maxDepth, exclude) == {}
  {
    var step := RepoStep(repo, exclude);
    assert Expanded(step, s, 0) == {};
  }

  /**
   * An edge s -> v of the full graph means exactly that s is a package of
   * the repository and v is reachable from it along one to maxDepth
   * dependency edges that pass the filter.
   */
  lemma {:induction false} FullGraphIsReachability(repo: Repo, maxDepth: int, exclude: string, s: Node, v: Node)
    ensures (s in FullGraph(repo, maxDepth, exclude) && v in FullGraph(repo, maxDepth, exclude)[s])
        <==> s in repo && ReachableBetween(RepoStep(repo, exclude), s, v, Depth(maxDepth))
  {
    SuccOfExpandedIsReachable(RepoStep(repo, exclude), s, Depth(maxDepth), v);
  }

  /** No edge of the full graph leads to a name the filter excludes, or to a name the repository never mentions. */
  lemma {:induction false} FullGraphTargetsKept(repo: Repo, maxDepth: int, exclude: string, s: Node, v: Node)
    requires s in FullGraph(repo, maxDepth, exclude) && v in FullGraph(repo, maxDepth, exclude)[s]
    ensures !Excluded(v, exclude)
    ensures v in Names(repo)
  {
    var step := RepoStep(repo, exclude);
    var n :| n in Expanded(step, s, Depth(maxDepth)) && v in step(n);
    NeighborsAreNames(repo, n, exclude);
  }
}
