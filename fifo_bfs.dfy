/**
 * A breadth-first traversal driven by a FIFO queue of (node, depth) entries,
 * as the reverse-dependency tool runs it: pop the head; if its depth has
 * reached the bound, drop it; otherwise look at its successors and append
 * every unvisited one, marking it visited, at depth + 1.
 *
 * `QueueInv` ties such a queue to the level specification: the queue is the
 * unpopped rest of level d followed by the part of level d+1 discovered so
 * far, and `popped` is the part of level d already taken off the queue.
 */
module FifoBfs {
  import opened Levels

  /** A queue entry: a node and the depth at which it was discovered. */
  type Entry = (Node, int)

  ghost function NodesOf(q: seq<Entry>): set<Node>
  {
    set i | 0 <= i < |q| :: q[i].0
  }

  /** The popped nodes of level d whose successors have been looked at: none once d reaches the bound. */
  ghost function Active(maxDepth: int, d: nat, popped: set<Node>): set<Node>
  {
    if d < maxDepth then popped else {}
  }

  /** What expanding `n` at depth d discovers: its successors, or nothing at or beyond the bound. */
  ghost function Reveals(step: Step, maxDepth: int, d: nat, n: Node): set<Node>
  {
    if d < maxDepth then step(n) else {}
  }

  ghost predicate QueueInv(step: Step, root: Node, maxDepth: int, queue: seq<Entry>, visited: set<Node>,
                           d: nat, cut: nat, popped: set<Node>)
  {
    && d <= Depth(maxDepth)
    && cut <= |queue|
    && (forall i :: 0 <= i < cut ==> queue[i].1 == d)
    && (forall i :: cut <= i < |queue| ==> queue[i].1 == d + 1)
    && NodesOf(queue[..cut]) + popped == Level(step, root, d)
    && NodesOf(queue[cut..]) == Succ(step, Active(maxDepth, d, popped)) - Seen(step, root, d)
    && visited == Seen(step, root, d) + Succ(step, Active(maxDepth, d, popped))
  }

  lemma NodesOfAppend(a: seq<Entry>, b: seq<Entry>)
    ensures NodesOf(a + b) == NodesOf(a) + NodesOf(b)
  {
    var ab := a + b;
    forall x | x in NodesOf(ab) ensures x in NodesOf(a) + NodesOf(b) {
      var i :| 0 <= i < |ab| && ab[i].0 == x;
      if i >= |a| {
        assert b[i - |a|].0 == x;
      }
    }
    forall x | x in NodesOf(a) ensures x in NodesOf(ab) {
      var i :| 0 <= i < |a| && a[i].0 == x;
      assert ab[i].0 == x;
    }
    forall x | x in NodesOf(b) ensures x in NodesOf(ab) {
      var i :| 0 <= i < |b| && b[i].0 == x;
      assert ab[|a| + i].0 == x;
    }
  }

  lemma NodesOfEmpty(q: seq<Entry>)
    ensures NodesOf(q) == {} <==> q == []
  {
    if q != [] {
      assert q[0].0 in NodesOf(q);
    }
  }

  /** The queue starts as [(root, 0)] with only the root visited. */
  lemma QueueInit(step: Step, root: Node, maxDepth: int)
    ensures QueueInv(step, root, maxDepth, [(root, 0)], {root}, 0, 1, {})
  {
    var q: seq<Entry> := [(root, 0)];
    assert q[..1] == q && q[1..] == [];
    assert q[0].0 == root;
    assert NodesOf(q) == {root};
    NodesOfEmpty([]);
  }

  /** When level d has been used up, the queue holds exactly level d+1. */
  lemma QueueNextLevel(step: Step, root: Node, maxDepth: int, queue: seq<Entry>, visited: set<Node>,
                       d: nat, popped: set<Node>)
    requires QueueInv(step, root, maxDepth, queue, visited, d, 0, popped)
    requires queue != []
    ensures QueueInv(step, root, maxDepth, queue, visited, d + 1, |queue|, {})
    ensures Expanded(step, root, d + 1) + Active(maxDepth, d + 1, {})
         == Expanded(step, root, d) + Active(maxDepth, d, popped)
    ensures Succ(step, Expanded(step, root, d + 1)) + Succ(step, Active(maxDepth, d + 1, {}))
         == Succ(step, Expanded(step, root, d)) + Succ(step, Active(maxDepth, d, popped))
  {
    assert queue[..0] == [] && queue[0..] == queue && queue[..|queue|] == queue;
    NodesOfEmpty([]);
    NodesOfEmpty(queue);
    assert d < maxDepth;
    assert popped == Level(step, root, d);
    assert queue[|queue|..] == [];
    ExpandedNext(step, root, d);
    SuccUnion(step, Expanded(step, root, d), popped);
  }

  /**
   * Popping the head, at depth d, and appending what it reveals that was
   * not yet visited keeps the invariant, with the head counted as popped.
   */
  lemma QueuePop(step: Step, root: Node, maxDepth: int, queue: seq<Entry>, visited: set<Node>,
                 d: nat, cut: nat, popped: set<Node>, added: seq<Entry>)
    requires QueueInv(step, root, maxDepth, queue, visited, d, cut, popped)
    requires cut > 0
    requires forall i :: 0 <= i < |added| ==> added[i].1 == d + 1
    requires NodesOf(added) == Reveals(step, maxDepth, d, queue[0].0) - visited
    ensures QueueInv(step, root, maxDepth, queue[1..] + added, visited + Reveals(step, maxDepth, d, queue[0].0),
                     d, cut - 1, popped + {queue[0].0})
    ensures Active(maxDepth, d, popped + {queue[0].0})
         == Active(maxDepth, d, popped) + (if d < maxDepth then {queue[0].0} else {})
    ensures Succ(step, Active(maxDepth, d, popped + {queue[0].0}))
         == Succ(step, Active(maxDepth, d, popped)) + Reveals(step, maxDepth, d, queue[0].0)
  {
    var n := queue[0].0;
    var q := queue[1..] + added;
    assert queue[..cut] == [queue[0]] + q[..cut - 1];
    NodesOfAppend([queue[0]], q[..cut - 1]);
    assert NodesOf([queue[0]]) == {n};
    assert q[cut - 1..] == queue[cut..] + added;
    NodesOfAppend(queue[cut..], added);
    if d < maxDepth {
      SuccAddOne(step, popped, n);
    }
  }

  /** `QueuePop` for a queue given whole: the rest of the old queue, then the appended entries. */
  lemma QueuePopOnto(step: Step, root: Node, maxDepth: int, queue: seq<Entry>, visited: set<Node>,
                     d: nat, cut: nat, popped: set<Node>, queue': seq<Entry>)
    requires QueueInv(step, root, maxDepth, queue, visited, d, cut, popped)
    requires cut > 0
    requires |queue| - 1 <= |queue'| && queue'[..|queue| - 1] == queue[1..]
    requires forall j :: |queue| - 1 <= j < |queue'| ==> queue'[j].1 == d + 1
    requires NodesOf(queue'[|queue| - 1..]) == Reveals(step, maxDepth, d, queue[0].0) - visited
    ensures QueueInv(step, root, maxDepth, queue', visited + Reveals(step, maxDepth, d, queue[0].0),
                     d, cut - 1, popped + {queue[0].0})
    ensures Succ(step, Active(maxDepth, d, popped + {queue[0].0}))
         == Succ(step, Active(maxDepth, d, popped)) + Reveals(step, maxDepth, d, queue[0].0)
  {
    var k := |queue| - 1;
    var added := queue'[k..];
    assert queue[1..] + added == queue' by {
      assert queue' == queue'[..k] + queue'[k..];
    }
    QueuePop(step, root, maxDepth, queue, visited, d, cut, popped, added);
  }

  /**
   * Expanding the head below the bound, with `reached` collecting every
   * successor seen: the queue invariant holds again, and `reached` is still
   * the successors of everything expanded so far.
   */
  lemma ReachExpand(step: Step, root: Node, maxDepth: int, queue: seq<Entry>, visited: set<Node>,
                    reached: set<Node>, d: nat, cut: nat, popped: set<Node>,
                    queue': seq<Entry>, visited': set<Node>, reached': set<Node>)
    requires QueueInv(step, root, maxDepth, queue, visited, d, cut, popped)
    requires reached == Succ(step, Expanded(step, root, d)) + Succ(step, Active(maxDepth, d, popped))
    requires cut > 0 && queue[0].1 < maxDepth
    requires |queue| - 1 <= |queue'| && queue'[..|queue| - 1] == queue[1..]
    requires forall j :: |queue| - 1 <= j < |queue'| ==> queue'[j].1 == queue[0].1 + 1
    requires NodesOf(queue'[|queue| - 1..]) == step(queue[0].0) - visited
    requires visited' == visited + step(queue[0].0)
    requires reached' == reached + step(queue[0].0)
    ensures QueueInv(step, root, maxDepth, queue', visited', d, cut - 1, popped + {queue[0].0})
    ensures reached' == Succ(step, Expanded(step, root, d)) + Succ(step, Active(maxDepth, d, popped + {queue[0].0}))
  {
    assert queue[0].1 == d;
    assert Reveals(step, maxDepth, d, queue[0].0) == step(queue[0].0);
    QueuePopOnto(step, root, maxDepth, queue, visited, d, cut, popped, queue');
  }

  /** When the queue is empty, everything within the bound has been discovered and expanded. */
  lemma QueueDone(step: Step, root: Node, maxDepth: int, visited: set<Node>, d: nat, cut: nat, popped: set<Node>)
    requires QueueInv(step, root, maxDepth, [], visited, d, cut, popped)
    ensures visited == Seen(step, root, Depth(maxDepth))
    ensures Expanded(step, root, d) + Active(maxDepth, d, popped) == Expanded(step, root, Depth(maxDepth))
    ensures Succ(step, Expanded(step, root, d)) + Succ(step, Active(maxDepth, d, popped))
         == Succ(step, Expanded(step, root, Depth(maxDepth)))
  {
    var empty: seq<Entry> := [];
    assert empty[..0] == [] && empty[0..] == [];
    NodesOfEmpty([]);
    if d < maxDepth {
      assert popped == Level(step, root, d);
      assert Level(step, root, d + 1) == {};
      EmptyLevelStays(step, root, d + 1, Depth(maxDepth));
      ExpandedSettles(step, root, d + 1, Depth(maxDepth));
      ExpandedNext(step, root, d);
    }
    SuccUnion(step, Expanded(step, root, d), Active(maxDepth, d, popped));
  }

  lemma NodesOfSnoc(q: seq<Entry>, k: nat, e: Entry)
    requires k <= |q|
    ensures (q + [e])[k..] == q[k..] + [e]
    ensures NodesOf((q + [e])[k..]) == NodesOf(q[k..]) + {e.0}
  {
    assert (q + [e])[k..] == q[k..] + [e];
    NodesOfAppend(q[k..], [e]);
    assert [e][0].0 == e.0;
    assert NodesOf([e]) == {e.0};
  }
}
