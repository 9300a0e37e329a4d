/**
 * The reverse-dependency tool's second and third phases: inverting an
 * adjacency map (edge a -> b becomes b -> a), and a depth-bounded FIFO
 * breadth-first search over the inverted map from a target, collecting
 * every node it reaches except the target.
 */
module ReverseDeps {
  import opened Levels
  import opened Exclusion
  import opened FifoBfs
  import opened TransitiveGraph

  /** The map as a step function: `n` leads to `Adjacent(g, n)`. */
  ghost function GraphStep(g: Graph): Step
  {
    n => Adjacent(g, n)
  }

  /**
   * `g.get(n, [])`: the set `n` maps to when it is a key, none otherwise;
   * each of them is a target of some edge.
   */
  function Adjacent(g: Graph, n: Node): (r: set<Node>)
    ensures n in g ==> r == g[n]
    ensures n !in g ==> r == {}
    ensures r <= Targets(g)
  {
    if n in g then g[n] else {}
  }

  /** The edges of an adjacency map, as (from, to) pairs. */
  ghost function Edges(g: Graph): set<(Node, Node)>
  {
    set a, b | a in g && b in g[a] :: (a, b)
  }

  /** The edges leaving the keys of `ks`. */
  ghost function EdgesFrom(g: Graph, ks: set<Node>): set<(Node, Node)>
  {
    set a, b | a in ks && a in g && b in g[a] :: (a, b)
  }

  /** Every node some edge of `g` leads to. */
  ghost function Targets(g: Graph): set<Node>
  {
    set a, b | a in g && b in g[a] :: b
  }

  ghost function EdgeTargets(edges: set<(Node, Node)>): set<Node>
  {
    set e | e in edges :: e.1
  }

  ghost function Sources(edges: set<(Node, Node)>, b: Node): set<Node>
  {
    set e | e in edges && e.1 == b :: e.0
  }

  /** The map holding each edge of `edges` turned around: a key per target, mapped to its sources. */
  ghost function Reversed(edges: set<(Node, Node)>): Graph
  {
    map b | b in EdgeTargets(edges) :: Sources(edges, b)
  }

  /** What the inverter returns. */
  ghost function Inverse(g: Graph): Graph
  {
    Reversed(Edges(g))
  }

  /** `inv[b].add(a)` on a map whose missing keys read as empty sets. */
  function AddSource(inv: Graph, b: Node, a: Node): Graph
  {
    inv[b := (if b in inv then inv[b] else {}) + {a}]
  }

  lemma ReversedAddOne(edges: set<(Node, Node)>, a: Node, b: Node)
    ensures Reversed(edges + {(a, b)}) == AddSource(Reversed(edges), b, a)
  {
    var lhs := Reversed(edges + {(a, b)});
    var rhs := AddSource(Reversed(edges), b, a);
    assert (a, b).1 == b;
    assert lhs.Keys == rhs.Keys;
    forall m | m in lhs ensures lhs[m] == rhs[m] {
    }
  }

  /**
   * The source's nested loops: for every key a and every b in its set,
   * add a to the set of b. Keys and members are taken in an arbitrary order.
   */
  method InvertGraph(graph: Graph) returns (inv: Graph)
    ensures inv == Inverse(graph)
  {
    inv := map[];
    ghost var done: set<(Node, Node)> := {};
    var keys := graph.Keys;
    while keys != {}
      invariant keys <= graph.Keys
      invariant done == EdgesFrom(graph, graph.Keys - keys)
      invariant inv == Reversed(done)
      decreases keys
    {
      var a :| a in keys;
      ghost var before := graph.Keys - keys;
      keys := keys - {a};
      var neighs := graph[a];
      while neighs != {}
        invariant neighs <= graph[a]
        invariant done == EdgesFrom(graph, before) + set b | b in graph[a] - neighs :: (a, b)
        invariant inv == Reversed(done)
        decreases neighs
      {
        var b :| b in neighs;
        ReversedAddOne(done, a, b);
        inv := AddSource(inv, b, a);
        done := done + {(a, b)};
        neighs := neighs - {b};
        assert done == EdgesFrom(graph, before) + set b' | b' in graph[a] - neighs :: (a, b');
      }
      assert graph.Keys - keys == before + {a};
      assert done == EdgesFrom(graph, graph.Keys - keys);
    }
    assert graph.Keys - keys == graph.Keys;
    assert EdgesFrom(graph, graph.Keys) == Edges(graph);
  }

  /** The inverse holds the edge b -> a exactly when the map holds a -> b. */
  lemma InverseReversesEdges(g: Graph, a: Node, b: Node)
    ensures (b in Inverse(g) && a in Inverse(g)[b]) <==> (a in g && b in g[a])
  {
    if a in g && b in g[a] {
      assert (a, b) in Edges(g);
    }
  }

  /** The inverse has a key for each node some edge leads to, and no empty set. */
  lemma InverseKeys(g: Graph)
    ensures Inverse(g).Keys == Targets(g)
    ensures forall b :: b in Inverse(g) ==> Inverse(g)[b] != {}
  {
    forall b | b in Targets(g) ensures b in Inverse(g) {
      var a :| a in g && b in g[a];
      assert (a, b) in Edges(g);
    }
    forall b | b in Inverse(g) ensures Inverse(g)[b] != {} {
      var e :| e in Edges(g) && e.1 == b;
      assert e.0 in Inverse(g)[b];
    }
  }

  lemma InverseTwiceEdge(g: Graph, a: Node, b: Node)
    ensures (a in Inverse(Inverse(g)) && b in Inverse(Inverse(g))[a]) <==> (a in g && b in g[a])
  {
    InverseReversesEdges(Inverse(g), b, a);
    InverseReversesEdges(g, a, b);
  }

  /** Inverting twice gives the map back, less its keys with empty sets. */
  lemma {:induction false} InverseTwice(g: Graph)
    ensures Inverse(Inverse(g)) == map a | a in g && g[a] != {} :: g[a]
  {
    var lhs := Inverse(Inverse(g));
    var rhs := map a | a in g && g[a] != {} :: g[a];
    forall a ensures (a in lhs <==> a in rhs) && (a in lhs ==> lhs[a] == rhs[a]) {
      InverseTwiceAt(g, a);
    }
    assert lhs.Keys == rhs.Keys;
  }

  lemma InverseTwiceAt(g: Graph, a: Node)
    ensures a in Inverse(Inverse(g)) <==> a in g && g[a] != {}
    ensures a in Inverse(Inverse(g)) ==> Inverse(Inverse(g))[a] == g[a]
  {
    var ii := Inverse(Inverse(g));
    if a in ii {
      InverseKeys(Inverse(g));
      var b :| b in ii[a];
      InverseTwiceEdge(g, a, b);
      forall b' ensures b' in ii[a] <==> b' in g[a] {
        InverseTwiceEdge(g, a, b');
      }
    }
    if a in g && g[a] != {} {
      var b :| b in g[a];
      InverseTwiceEdge(g, a, b);
    }
  }

  /** What the reverse search returns: everything its levels reach within the bound, less the target. */
  ghost function Predecessors(inv: Graph, target: Node, maxDepth: int): set<Node>
  {
    Seen(GraphStep(inv), target, Depth(maxDepth)) - {target}
  }

  /** The state of the reverse search between two pops. */
  ghost predicate PredInv(inv: Graph, target: Node, maxDepth: int,
                          queue: seq<Entry>, visited: set<Node>, result: set<Node>,
                          d: nat, cut: nat, popped: set<Node>)
  {
    && QueueInv(GraphStep(inv), target, maxDepth, queue, visited, d, cut, popped)
    && target in visited
    && result == visited - {target}
    && visited <= Targets(inv) + {target}
  }

  lemma PredStart(inv: Graph, target: Node, maxDepth: int)
    ensures PredInv(inv, target, maxDepth, [(target, 0)], {target}, {}, 0, 1, {})
  {
    QueueInit(GraphStep(inv), target, maxDepth);
  }

  lemma PredNextLevel(inv: Graph, target: Node, maxDepth: int,
                      queue: seq<Entry>, visited: set<Node>, result: set<Node>, d: nat, popped: set<Node>)
    requires PredInv(inv, target, maxDepth, queue, visited, result, d, 0, popped)
    requires queue != []
    ensures PredInv(inv, target, maxDepth, queue, visited, result, d + 1, |queue|, {})
  {
    QueueNextLevel(GraphStep(inv), target, maxDepth, queue, visited, d, popped);
  }

  /** Popping an entry at or beyond the bound only drops it. */
  lemma PredSkip(inv: Graph, target: Node, maxDepth: int,
                 queue: seq<Entry>, visited: set<Node>, result: set<Node>, d: nat, cut: nat, popped: set<Node>)
    requires PredInv(inv, target, maxDepth, queue, visited, result, d, cut, popped)
    requires cut > 0 && queue[0].1 >= maxDepth
    ensures PredInv(inv, target, maxDepth, queue[1..], visited, result, d, cut - 1, popped + {queue[0].0})
  {
    NodesOfEmpty([]);
    QueuePop(GraphStep(inv), target, maxDepth, queue, visited, d, cut, popped, []);
    assert queue[1..] + [] == queue[1..];
  }

  /** Popping an entry below the bound queues its unvisited predecessors as the inner loop does. */
  lemma PredExpand(inv: Graph, target: Node, maxDepth: int,
                   queue: seq<Entry>, visited: set<Node>, result: set<Node>, d: nat, cut: nat, popped: set<Node>,
                   queue': seq<Entry>, visited': set<Node>, result': set<Node>)
    requires PredInv(inv, target, maxDepth, queue, visited, result, d, cut, popped)
    requires cut > 0 && queue[0].1 < maxDepth
    requires var q := queue[1..]; var preds := Adjacent(inv, queue[0].0);
      && |q| <= |queue'| && queue'[..|q|] == q
      && (forall j :: |q| <= j < |queue'| ==> queue'[j].1 == queue[0].1 + 1)
      && NodesOf(queue'[|q|..]) == preds - visited
      && visited' == visited + preds
      && result' == result + (preds - visited)
    ensures PredInv(inv, target, maxDepth, queue', visited', result', d, cut - 1, popped + {queue[0].0})
  {
    var n := queue[0].0;
    assert Reveals(GraphStep(inv), maxDepth, d, n) == Adjacent(inv, n);
    QueuePopOnto(GraphStep(inv), target, maxDepth, queue, visited, d, cut, popped, queue');
  }

  lemma PredEnd(inv: Graph, target: Node, maxDepth: int,
                visited: set<Node>, result: set<Node>, d: nat, cut: nat, popped: set<Node>)
    requires PredInv(inv, target, maxDepth, [], visited, result, d, cut, popped)
    ensures result == Predecessors(inv, target, maxDepth)
  {
    QueueDone(GraphStep(inv), target, maxDepth, visited, d, cut, popped);
  }

  /**
   * The source's loop over the predecessors of a popped node at `depth`:
   * each one not yet visited is marked visited, added to the result and
   * appended to the queue at depth + 1.
   */
  method QueuePreds(preds: set<Node>, depth: int, queue: seq<Entry>, visited: set<Node>, result: set<Node>)
    returns (queue': seq<Entry>, visited': set<Node>, result': set<Node>)
    ensures |queue| <= |queue'| && queue'[..|queue|] == queue
    ensures forall j :: |queue| <= j < |queue'| ==> queue'[j].1 == depth + 1
    ensures NodesOf(queue'[|queue|..]) == preds - visited
    ensures visited' == visited + preds
    ensures result' == result + (preds - visited)
    ensures queue' == queue || visited' != visited
  {
    queue', visited', result' := queue, visited, result;
    NodesOfEmpty([]);
    var todo := preds;
    while todo != {}
      invariant todo <= preds
      invariant |queue| <= |queue'| && queue'[..|queue|] == queue
      invariant forall j :: |queue| <= j < |queue'| ==> queue'[j].1 == depth + 1
      invariant NodesOf(queue'[|queue|..]) == (preds - todo) - visited
      invariant visited' == visited + (preds - todo)
      invariant result' == result + ((preds - todo) - visited)
      invariant queue' == queue || visited' != visited
      decreases todo
    {
      var pred :| pred in todo;
      todo := todo - {pred};
      if pred !in visited' {
        NodesOfSnoc(queue', |queue|, (pred, depth + 1));
        visited' := visited' + {pred};
        result' := result' + {pred};
        queue' := queue' + [(pred, depth + 1)];
      }
    }
  }

  /**
   * The reverse search: a FIFO traversal of the inverted map from `target`,
   * with the target pre-marked visited; entries at or beyond the bound are
   * dropped when popped, and every newly visited node joins the result.
   */
  method TransitivePredecessors(invGraph: Graph, target: Node, maxDepth: int) returns (result: set<Node>)
    ensures result == Predecessors(invGraph, target, maxDepth)
    ensures target !in result
  {
    ghost var u := Targets(invGraph) + {target};
    result := {};
    var queue: seq<Entry> := [(target, 0)];
    var visited := {target};
    ghost var d: nat, cut: nat, popped: set<Node> := 0, 1, {};
    PredStart(invGraph, target, maxDepth);
    while queue != []
      invariant PredInv(invGraph, target, maxDepth, queue, visited, result, d, cut, popped)
      invariant visited <= u
      decreases u - visited, |queue|
    {
      queue, visited, result, d, cut, popped :=
        PopAndQueuePreds(invGraph, target, maxDepth, queue, visited, result, d, cut, popped, u);
    }
    PredEnd(invGraph, target, maxDepth, visited, result, d, cut, popped);
  }

  /**
   * One pass of the reverse search's `while queue` loop: pop the head; drop
   * it when it lies at or beyond the bound, otherwise queue its unvisited
   * predecessors. Either the set of unvisited nodes shrinks or the queue does.
   */
  method PopAndQueuePreds(invGraph: Graph, target: Node, maxDepth: int,
                          queue: seq<Entry>, visited: set<Node>, result: set<Node>,
                          ghost d: nat, ghost cut: nat, ghost popped: set<Node>, ghost u: set<Node>)
    returns (queue': seq<Entry>, visited': set<Node>, result': set<Node>,
             ghost d': nat, ghost cut': nat, ghost popped': set<Node>)
    requires PredInv(invGraph, target, maxDepth, queue, visited, result, d, cut, popped)
    requires u == Targets(invGraph) + {target} && visited <= u
    requires queue != []
    ensures PredInv(invGraph, target, maxDepth, queue', visited', result', d', cut', popped')
    ensures visited' <= u
    ensures u - visited' < u - visited || (u - visited' == u - visited && |queue'| < |queue|)
  {
    d', cut', popped' := d, cut, popped;
    if cut == 0 {
      PredNextLevel(invGraph, target, maxDepth, queue, visited, result, d, popped);
      d', cut', popped' := d + 1, |queue|, {};
    }
    var node, depth := queue[0].0, queue[0].1;
    if depth >= maxDepth {
      PredSkip(invGraph, target, maxDepth, queue, visited, result, d', cut', popped');
      queue', visited', result' := queue[1..], visited, result;
    } else {
      queue', visited', result' := QueuePreds(Adjacent(invGraph, node), depth, queue[1..], visited, result);
      PredExpand(invGraph, target, maxDepth, queue, visited, result, d', cut', popped', queue', visited', result');
      VisitedShrinks(u, visited, Adjacent(invGraph, node));
    }
    cut', popped' := cut' - 1, popped' + {node};
  }

  /** The reverse search collects exactly the nodes other than the target that it reaches within the bound. */
  lemma {:induction false} PredecessorsAreReachable(inv: Graph, target: Node, maxDepth: int, v: Node)
    ensures v in Predecessors(inv, target, maxDepth)
        <==> v != target && ReachableWithin(GraphStep(inv), target, v, Depth(maxDepth))
  {
    SeenIsReachable(GraphStep(inv), target, Depth(maxDepth), v);
  }

  /**
   * The reverse search finds nothing with a non-positive bound or from a
   * target the inverted map has no key for, and finds only nodes some edge
   * of the map leads to.
   */
  lemma {:induction false} PredecessorsBounds(inv: Graph, target: Node, maxDepth: int)
    ensures maxDepth <= 0 ==> Predecessors(inv, target, maxDepth) == {}
    ensures target !in inv ==> Predecessors(inv, target, maxDepth) == {}
    ensures Predecessors(inv, target, maxDepth) <= Targets(inv)
  {
    var step := GraphStep(inv);
    var u := Targets(inv) + {target};
    forall n | n in u ensures step(n) <= u {
    }
    SeenWithin(step, target, u, Depth(maxDepth));
    if target !in inv && Depth(maxDepth) > 0 {
      assert Level(step, target, 1) == {} by {
        SuccOne(step, target);
      }
      EmptyLevelStays(step, target, 1, Depth(maxDepth));
    }
  }

  /** `p` read backwards. */
  ghost function Backwards(p: seq<Node>): seq<Node>
  {
    seq(|p|, i requires 0 <= i < |p| => p[|p| - 1 - i])
  }

  lemma WalkInInverse(g: Graph, p: seq<Node>)
    requires IsWalk(GraphStep(Inverse(g)), p)
    ensures IsWalk(GraphStep(g), Backwards(p))
  {
    var r := Backwards(p);
    forall i | 0 < i < |r| ensures r[i] in GraphStep(g)(r[i - 1]) {
      var j := |p| - i;
      assert p[j] in GraphStep(Inverse(g))(p[j - 1]);
      InverseReversesEdges(g, p[j], p[j - 1]);
    }
  }

  lemma WalkInGraph(g: Graph, p: seq<Node>)
    requires IsWalk(GraphStep(g), p)
    ensures IsWalk(GraphStep(Inverse(g)), Backwards(p))
  {
    var r := Backwards(p);
    forall i | 0 < i < |r| ensures r[i] in GraphStep(Inverse(g))(r[i - 1]) {
      var j := |p| - i;
      assert p[j] in GraphStep(g)(p[j - 1]);
      InverseReversesEdges(g, p[j - 1], p[j]);
    }
  }

  /**
   * Searching the inverse of a map from a target finds exactly the nodes
   * other than the target from which the target can be reached along at
   * most maxDepth edges of the map: the ancestors of the target.
   */
  lemma {:induction false} AncestorsReachTarget(g: Graph, target: Node, maxDepth: int, v: Node)
    ensures v in Predecessors(Inverse(g), target, maxDepth)
        <==> v != target && ReachableWithin(GraphStep(g), v, target, Depth(maxDepth))
  {
    var k := Depth(maxDepth);
    PredecessorsAreReachable(Inverse(g), target, maxDepth, v);
    if ReachableWithin(GraphStep(Inverse(g)), target, v, k) {
      var p :| IsWalk(GraphStep(Inverse(g)), p) && p[0] == target && p[|p| - 1] == v && |p| <= k + 1;
      WalkInInverse(g, p);
      var r := Backwards(p);
      assert r[0] == v && r[|r| - 1] == target;
    }
    if ReachableWithin(GraphStep(g), v, target, k) {
      var p :| IsWalk(GraphStep(g), p) && p[0] == v && p[|p| - 1] == target && |p| <= k + 1;
      WalkInGraph(g, p);
      var r := Backwards(p);
      assert r[0] == target && r[|r| - 1] == v;
    }
  }
}
