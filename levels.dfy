/**
 * Level-synchronous breadth-first search, as a specification. A traversal
 * starts at `root` with level 0 = {root}; level k+1 holds the successors of
 * level k that no earlier level holds. `Seen(k)` is every node discovered up
 * to level k, and a traversal bounded by depth D expands exactly the nodes of
 * levels 0 .. D-1, `Expanded(D)`.
 *
 * The successor relation is a function from a node to the set of its
 * (surviving) neighbours, so that one definition serves the forward builder,
 * the full-graph builder and the reverse search alike.
 */
module Levels {

  /** A package name; identity is exact string equality. */
  type Node = string

  type Step = Node -> set<Node>

  /** A repository description: each package and its direct dependencies, in file order. */
  type Repo = map<Node, seq<Node>>

  /** Every successor of some node of `s`. */
  ghost function Succ(step: Step, s: set<Node>): set<Node>
  {
    set n, v | n in s && v in step(n) :: v
  }

  /** The frontier of one round and every node discovered so far. */
  datatype Round = Round(level: set<Node>, seen: set<Node>)

  ghost function RoundAt(step: Step, root: Node, k: nat): Round
    decreases k
  {
    if k == 0 then Round({root}, {root})
    else
      var prev := RoundAt(step, root, k - 1);
      var next := Succ(step, prev.level) - prev.seen;
      Round(next, prev.seen + next)
  }

  /** The nodes first discovered at depth k. */
  ghost function Level(step: Step, root: Node, k: nat): set<Node>
  {
    RoundAt(step, root, k).level
  }

  /** The nodes discovered at depth k or less. */
  ghost function Seen(step: Step, root: Node, k: nat): set<Node>
  {
    RoundAt(step, root, k).seen
  }

  /** The nodes a traversal bounded by depth k expands: levels 0 .. k-1. */
  ghost function Expanded(step: Step, root: Node, k: nat): set<Node>
  {
    if k == 0 then {} else Seen(step, root, k - 1)
  }

  /** A depth bound given as an integer; a negative bound acts as 0. */
  function Depth(maxDepth: int): (d: nat)
    ensures maxDepth <= 0 ==> d == 0
    ensures maxDepth >= 0 ==> d == maxDepth
  {
    if maxDepth < 0 then 0 else maxDepth
  }

  /** `p` follows successor edges from its first node to its last. */
  ghost predicate IsWalk(step: Step, p: seq<Node>)
  {
    |p| >= 1 && forall i :: 0 < i < |p| ==> p[i] in step(p[i - 1])
  }

  /** `v` can be reached from `root` along at most k edges. */
  ghost predicate ReachableWithin(step: Step, root: Node, v: Node, k: nat)
  {
    exists p :: IsWalk(step, p) && p[0] == root && p[|p| - 1] == v && |p| <= k + 1
  }

  /** `v` can be reached from `root` along at least one and at most k edges. */
  ghost predicate ReachableBetween(step: Step, root: Node, v: Node, k: nat)
  {
    exists p :: IsWalk(step, p) && p[0] == root && p[|p| - 1] == v && 2 <= |p| <= k + 1
  }

  lemma SuccUnion(step: Step, a: set<Node>, b: set<Node>)
    ensures Succ(step, a + b) == Succ(step, a) + Succ(step, b)
  {
  }

  lemma SuccOne(step: Step, n: Node)
    ensures Succ(step, {n}) == step(n)
  {
    forall v | v in step(n) ensures v in Succ(step, {n}) {
    }
  }

  /** Adding one expanded node adds exactly its successors. */
  lemma SuccAddOne(step: Step, a: set<Node>, n: Node)
    ensures Succ(step, a + {n}) == Succ(step, a) + step(n)
  {
    SuccUnion(step, a, {n});
    SuccOne(step, n);
  }

  lemma LevelInSeen(step: Step, root: Node, k: nat)
    ensures Level(step, root, k) <= Seen(step, root, k)
  {
  }

  /** Bounding the depth by k+1 adds exactly level k to the expanded nodes. */
  lemma ExpandedNext(step: Step, root: Node, k: nat)
    ensures Expanded(step, root, k + 1) == Expanded(step, root, k) + Level(step, root, k)
  {
  }

  /** One more round: the next level, the seen set and the expanded set, each from the last. */
  lemma RoundNext(step: Step, root: Node, k: nat)
    ensures Level(step, root, k + 1) == Succ(step, Level(step, root, k)) - Seen(step, root, k)
    ensures Seen(step, root, k + 1) == Seen(step, root, k) + Succ(step, Level(step, root, k))
    ensures Expanded(step, root, k + 1) == Expanded(step, root, k) + Level(step, root, k)
  {
  }

  /** Successor functions that agree on every node give the same rounds. */
  lemma {:induction false} SameStepSameRounds(s1: Step, s2: Step, root: Node, k: nat)
    requires forall n :: s1(n) == s2(n)
    ensures RoundAt(s1, root, k) == RoundAt(s2, root, k)
    decreases k
  {
    if k > 0 {
      SameStepSameRounds(s1, s2, root, k - 1);
      var l := RoundAt(s1, root, k - 1).level;
      assert Succ(s1, l) == Succ(s2, l);
    }
  }

  /** Discovered nodes stay discovered. */
  lemma {:induction false} SeenGrows(step: Step, root: Node, j: nat, k: nat)
    requires j <= k
    ensures Seen(step, root, j) <= Seen(step, root, k)
    decreases k
  {
    if j < k {
      SeenGrows(step, root, j, k - 1);
    }
  }

  /**
   * A node is expanded at most once: two different levels never share a
   * node, because a node enters a level only when no earlier level held it.
   */
  lemma {:induction false} LevelsDisjoint(step: Step, root: Node, j: nat, k: nat)
    requires j < k
    ensures Level(step, root, j) !! Level(step, root, k)
  {
    SeenGrows(step, root, j, k - 1);
  }

  /** A node is discovered by level k exactly when some level up to k holds it. */
  lemma {:induction false} SeenIsLevels(step: Step, root: Node, k: nat, v: Node)
    ensures v in Seen(step, root, k) <==> exists j :: 0 <= j <= k && v in Level(step, root, j)
    decreases k
  {
    if k > 0 {
      SeenIsLevels(step, root, k - 1, v);
      assert Seen(step, root, k) == Seen(step, root, k - 1) + Level(step, root, k);
      if v in Level(step, root, k) {
        assert exists j :: 0 <= j <= k && v in Level(step, root, j);
      }
    } else {
      assert Seen(step, root, 0) == Level(step, root, 0);
    }
  }

  /** Once a level is empty, every later level is empty and nothing more is discovered. */
  lemma {:induction false} EmptyLevelStays(step: Step, root: Node, k: nat, j: nat)
    requires Level(step, root, k) == {}
    requires k <= j
    ensures Level(step, root, j) == {}
    ensures Seen(step, root, j) == Seen(step, root, k)
    decreases j
  {
    if k < j {
      EmptyLevelStays(step, root, k, j - 1);
    }
  }

  /** Once a level is empty, raising the depth bound expands nothing more. */
  lemma {:induction false} ExpandedSettles(step: Step, root: Node, k: nat, j: nat)
    requires Level(step, root, k) == {}
    requires k <= j
    ensures Expanded(step, root, j) == Expanded(step, root, k)
  {
    assert k > 0;
    assert Seen(step, root, k) == Seen(step, root, k - 1) + Level(step, root, k);
    if k < j {
      EmptyLevelStays(step, root, k, j - 1);
    }
  }

  /** Every successor of a node discovered by level k is discovered by level k+1. */
  lemma {:induction false} SuccOfSeen(step: Step, root: Node, k: nat)
    ensures Succ(step, Seen(step, root, k)) <= Seen(step, root, k + 1)
    decreases k
  {
    if k > 0 {
      SuccOfSeen(step, root, k - 1);
      SeenGrows(step, root, k, k + 1);
      SuccUnion(step, Seen(step, root, k - 1), Level(step, root, k));
    }
  }

  lemma {:induction false} SeenHasWalk(step: Step, root: Node, k: nat, v: Node)
    requires v in Seen(step, root, k)
    ensures ReachableWithin(step, root, v, k)
    decreases k
  {
    if k == 0 {
      assert IsWalk(step, [root]);
    } else if v in Seen(step, root, k - 1) {
      SeenHasWalk(step, root, k - 1, v);
      var p :| IsWalk(step, p) && p[0] == root && p[|p| - 1] == v && |p| <= k;
      assert IsWalk(step, p) && p[0] == root && p[|p| - 1] == v && |p| <= k + 1;
    } else {
      var u :| u in Level(step, root, k - 1) && v in step(u);
      LevelInSeen(step, root, k - 1);
      SeenHasWalk(step, root, k - 1, u);
      var p :| IsWalk(step, p) && p[0] == root && p[|p| - 1] == u && |p| <= k;
      var q := p + [v];
      assert IsWalk(step, q);
    }
  }

  lemma {:induction false} WalkEndSeen(step: Step, root: Node, p: seq<Node>, k: nat)
    requires IsWalk(step, p) && p[0] == root && |p| <= k + 1
    ensures p[|p| - 1] in Seen(step, root, k)
    decreases |p|
  {
    if |p| == 1 {
      SeenGrows(step, root, 0, k);
    } else {
      var q := p[..|p| - 1];
      assert IsWalk(step, q);
      WalkEndSeen(step, root, q, k - 1);
      SuccOfSeen(step, root, k - 1);
      assert p[|p| - 1] in step(q[|q| - 1]);
    }
  }

  /**
   * The nodes discovered by level k are exactly those reachable from the
   * root along at most k edges.
   */
  lemma SeenIsReachable(step: Step, root: Node, k: nat, v: Node)
    ensures v in Seen(step, root, k) <==> ReachableWithin(step, root, v, k)
  {
    if v in Seen(step, root, k) {
      SeenHasWalk(step, root, k, v);
    }
    if ReachableWithin(step, root, v, k) {
      var p :| IsWalk(step, p) && p[0] == root && p[|p| - 1] == v && |p| <= k + 1;
      WalkEndSeen(step, root, p, k);
    }
  }

  /**
   * What a traversal bounded by depth k records from its expanded nodes are
   * exactly the nodes reachable from the root along 1 .. k edges.
   */
  lemma {:induction false} SuccOfExpandedIsReachable(step: Step, root: Node, k: nat, v: Node)
    ensures v in Succ(step, Expanded(step, root, k)) <==> ReachableBetween(step, root, v, k)
  {
    if v in Succ(step, Expanded(step, root, k)) {
      var u :| u in Expanded(step, root, k) && v in step(u);
      SeenHasWalk(step, root, k - 1, u);
      var p :| IsWalk(step, p) && p[0] == root && p[|p| - 1] == u && |p| <= k;
      var q := p + [v];
      assert IsWalk(step, q) && q[0] == root && q[|q| - 1] == v && 2 <= |q| <= k + 1;
    }
    if ReachableBetween(step, root, v, k) {
      var p :| IsWalk(step, p) && p[0] == root && p[|p| - 1] == v && 2 <= |p| <= k + 1;
      var q := p[..|p| - 1];
      assert IsWalk(step, q);
      WalkEndSeen(step, root, q, k - 1);
      assert v in step(q[|q| - 1]);
    }
  }

  /** `u` holds the root and every successor of its own nodes. */
  ghost predicate Closed(step: Step, root: Node, u: set<Node>)
  {
    root in u && forall n :: n in u ==> step(n) <= u
  }

  lemma {:induction false} SeenWithin(step: Step, root: Node, u: set<Node>, k: nat)
    requires Closed(step, root, u)
    ensures Seen(step, root, k) <= u
    decreases k
  {
    if k > 0 {
      SeenWithin(step, root, u, k - 1);
    }
  }

  lemma {:induction false} NonEmptyLevelCount(step: Step, root: Node, k: nat)
    requires Level(step, root, k) != {}
    ensures |Seen(step, root, k)| > k
    decreases k
  {
    if k > 0 {
      NonEmptyLevelCount(step, root, k - 1);
      var prev := Seen(step, root, k - 1);
      var next := Level(step, root, k);
      assert prev !! next;
      assert |prev + next| == |prev| + |next|;
    }
  }

  /**
   * Cycles cannot keep a traversal going: when every node reachable from
   * the root lies in a finite set `u`, the level at depth |u| is empty, so
   * a traversal stops after at most |u| rounds whatever its depth bound.
   */
  lemma {:induction false} LevelsRunOut(step: Step, root: Node, u: set<Node>)
    requires Closed(step, root, u)
    ensures Level(step, root, |u|) == {}
  {
    SeenWithin(step, root, u, |u|);
    var s := Seen(step, root, |u|);
    assert u == s + (u - s);
    if Level(step, root, |u|) != {} {
      NonEmptyLevelCount(step, root, |u|);
      assert false;
    }
  }
}
