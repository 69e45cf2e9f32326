/**
 * Directed graphs over the nodes 0..n-1 and the breadth-first layers of a
 * traversal from a start node: node 0 along successors, or node n-1 along
 * predecessors.
 */
module Graphs {

  /** A traversal follows successors from node 0, or predecessors from node n-1. */
  datatype Direction = Forward | Backward

  /** `adj[x]` holds the successors of node x; every successor is a node of the graph. */
  predicate IsGraph(adj: seq<set<nat>>)
  {
    forall x, y :: 0 <= x < |adj| && y in adj[x] ==> y < |adj|
  }

  function Nodes(n: nat): (r: set<nat>)
    ensures forall x: nat :: x in r <==> x < n
  {
    if n == 0 then {} else Nodes(n - 1) + {n - 1}
  }

  /** The predecessors of x. */
  function Preds(adj: seq<set<nat>>, x: nat): set<nat>
  {
    set y: nat | y < |adj| && x in adj[y]
  }

  /** The neighbours a traversal in direction `dir` moves to from x. */
  function Nbrs(adj: seq<set<nat>>, dir: Direction, x: nat): (r: set<nat>)
    requires x < |adj|
    ensures IsGraph(adj) ==> r <= Nodes(|adj|)
  {
    if dir == Forward then adj[x] else Preds(adj, x)
  }

  /** The node a traversal starts from. */
  function Start(dir: Direction, n: nat): (r: nat)
    requires n > 0
    ensures r < n
  {
    if dir == Forward then 0 else n - 1
  }

  /** The neighbours of the nodes of F below m. */
  ghost function Gather(adj: seq<set<nat>>, dir: Direction, F: set<nat>, m: nat): set<nat>
    requires m <= |adj|
  {
    if m == 0 then {} else Gather(adj, dir, F, m - 1) + (if m - 1 in F then Nbrs(adj, dir, m - 1) else {})
  }

  /** All nodes one step away from some node of F. */
  ghost function Frontier(adj: seq<set<nat>>, dir: Direction, F: set<nat>): set<nat>
  {
    Gather(adj, dir, F, |adj|)
  }

  lemma {:induction false} GatherHas(adj: seq<set<nat>>, dir: Direction, F: set<nat>, m: nat, x: nat, y: nat)
    requires m <= |adj| && x in F && x < m && y in Nbrs(adj, dir, x)
    ensures y in Gather(adj, dir, F, m)
  {
    if x < m - 1 {
      GatherHas(adj, dir, F, m - 1, x, y);
    }
  }

  lemma {:induction false} GatherFrom(adj: seq<set<nat>>, dir: Direction, F: set<nat>, m: nat, y: nat)
    requires m <= |adj| && y in Gather(adj, dir, F, m)
    ensures exists x :: x in F && x < m && y in Nbrs(adj, dir, x)
  {
    if y !in (if m - 1 in F then Nbrs(adj, dir, m - 1) else {}) {
      GatherFrom(adj, dir, F, m - 1, y);
    }
  }

  /** A neighbour of a node of F is in the frontier of F. */
  lemma FrontierHas(adj: seq<set<nat>>, dir: Direction, F: set<nat>, x: nat, y: nat)
    requires x in F && x < |adj| && y in Nbrs(adj, dir, x)
    ensures y in Frontier(adj, dir, F)
  {
    GatherHas(adj, dir, F, |adj|, x, y);
  }

  /** Every node of the frontier of F is a neighbour of a node of F. */
  lemma FrontierFrom(adj: seq<set<nat>>, dir: Direction, F: set<nat>, y: nat)
    requires y in Frontier(adj, dir, F)
    ensures exists x :: x in F && x < |adj| && y in Nbrs(adj, dir, x)
  {
    GatherFrom(adj, dir, F, |adj|, y);
  }

  /** Frontier membership, both ways. */
  lemma FrontierIs(adj: seq<set<nat>>, dir: Direction, F: set<nat>, y: nat)
    ensures y in Frontier(adj, dir, F) <==> exists x :: x in F && x < |adj| && y in Nbrs(adj, dir, x)
  {
    if y in Frontier(adj, dir, F) {
      FrontierFrom(adj, dir, F, y);
    } else if exists x :: x in F && x < |adj| && y in Nbrs(adj, dir, x) {
      var x :| x in F && x < |adj| && y in Nbrs(adj, dir, x);
      FrontierHas(adj, dir, F, x, y);
    }
  }

  lemma FrontierOfEmpty(adj: seq<set<nat>>, dir: Direction)
    ensures Frontier(adj, dir, {}) == {}
  {
    forall y ensures y !in Frontier(adj, dir, {}) {
      if y in Frontier(adj, dir, {}) {
        FrontierFrom(adj, dir, {}, y);
      }
    }
  }

  /** In a graph, the frontier holds nodes only. */
  lemma FrontierInGraph(adj: seq<set<nat>>, dir: Direction, F: set<nat>)
    requires IsGraph(adj)
    ensures Frontier(adj, dir, F) <= Nodes(|adj|)
  {
    forall y | y in Frontier(adj, dir, F) ensures y < |adj| {
      FrontierFrom(adj, dir, F, y);
    }
  }

  /** The nodes reached from the start by a walk of exactly k arcs. */
  ghost function Reach(adj: seq<set<nat>>, dir: Direction, k: nat): (r: set<nat>)
    requires |adj| > 0
  {
    if k == 0 then {Start(dir, |adj|)} else Frontier(adj, dir, Reach(adj, dir, k - 1))
  }

  /** The nodes reached from the start by a walk of 1 to k arcs. */
  ghost function Seen(adj: seq<set<nat>>, dir: Direction, k: nat): (r: set<nat>)
    requires |adj| > 0
  {
    if k == 0 then {} else Seen(adj, dir, k - 1) + Reach(adj, dir, k)
  }

  /**
   * The k-th breadth-first layer: the start node for k = 0, and otherwise the nodes
   * reached after k arcs and by no shorter non-empty walk.
   */
  ghost function Layer(adj: seq<set<nat>>, dir: Direction, k: nat): (r: set<nat>)
    requires |adj| > 0
  {
    if k == 0 then {Start(dir, |adj|)} else Reach(adj, dir, k) - Seen(adj, dir, k - 1)
  }

  /** Adding a node to F adds its neighbours to the frontier. */
  lemma FrontierAdd(adj: seq<set<nat>>, dir: Direction, F: set<nat>, x: nat)
    requires x < |adj|
    ensures Frontier(adj, dir, F + {x}) == Frontier(adj, dir, F) + Nbrs(adj, dir, x)
  {
    forall y | y in Frontier(adj, dir, F + {x}) ensures y in Frontier(adj, dir, F) + Nbrs(adj, dir, x) {
      FrontierFrom(adj, dir, F + {x}, y);
      var z :| z in F + {x} && z < |adj| && y in Nbrs(adj, dir, z);
      if z != x {
        FrontierHas(adj, dir, F, z, y);
      }
    }
    forall y | y in Frontier(adj, dir, F) + Nbrs(adj, dir, x) ensures y in Frontier(adj, dir, F + {x}) {
      if y in Nbrs(adj, dir, x) {
        FrontierHas(adj, dir, F + {x}, x, y);
      } else {
        FrontierFrom(adj, dir, F, y);
        var z :| z in F && z < |adj| && y in Nbrs(adj, dir, z);
        FrontierHas(adj, dir, F + {x}, z, y);
      }
    }
  }

  /** No arc leads back to the start: into node 0 forward, out of node n-1 backward. */
  predicate NoArcIntoStart(adj: seq<set<nat>>, dir: Direction)
    requires |adj| > 0
  {
    forall y :: 0 <= y < |adj| ==> Start(dir, |adj|) !in Nbrs(adj, dir, y)
  }

  /** Without an arc back to the start, the start is reached by no non-empty walk. */
  lemma StartNotReentered(adj: seq<set<nat>>, dir: Direction, k: nat)
    requires |adj| > 0 && NoArcIntoStart(adj, dir) && k >= 1
    ensures Start(dir, |adj|) !in Reach(adj, dir, k)
  {
    if Start(dir, |adj|) in Reach(adj, dir, k) {
      FrontierFrom(adj, dir, Reach(adj, dir, k - 1), Start(dir, |adj|));
    }
  }

  /** Reached, seen and layered nodes are nodes of the graph. */
  lemma {:induction false} LayersInGraph(adj: seq<set<nat>>, dir: Direction, k: nat)
    requires |adj| > 0 && IsGraph(adj)
    ensures Reach(adj, dir, k) <= Nodes(|adj|)
    ensures Seen(adj, dir, k) <= Nodes(|adj|)
    ensures Layer(adj, dir, k) <= Nodes(|adj|)
  {
    if k > 0 {
      LayersInGraph(adj, dir, k - 1);
      FrontierInGraph(adj, dir, Reach(adj, dir, k - 1));
    }
  }

  /**
   * The first element of `s` in [i, n), or -1 when there is none: the first element a
   * neighbour set of a graph over n nodes reports, smallest first.
   */
  function FirstFrom(s: set<nat>, i: nat, n: nat): (r: int)
    ensures r == -1 <==> forall j: nat :: i <= j < n ==> j !in s
    ensures r != -1 ==> i <= r < n && r in s && forall j: nat :: i <= j < r ==> j !in s
    decreases n - i
  {
    if i >= n then -1 else if i in s then i else FirstFrom(s, i + 1, n)
  }

  //***********************************************************************************
  // WALKS
  //***********************************************************************************

  /** `w` is a walk of the graph in direction `dir`: each node is a neighbour of the one before. */
  ghost predicate IsWalk(adj: seq<set<nat>>, dir: Direction, w: seq<nat>)
  {
    (forall i :: 0 <= i < |w| ==> w[i] < |adj|) &&
    forall i :: 0 <= i < |w| - 1 ==> w[i + 1] in Nbrs(adj, dir, w[i])
  }

  /** Some walk of exactly k arcs leads from the start to x. */
  ghost predicate WalkTo(adj: seq<set<nat>>, dir: Direction, x: nat, k: nat)
    requires |adj| > 0
  {
    exists w :: IsWalk(adj, dir, w) && |w| == k + 1 && w[0] == Start(dir, |adj|) && w[k] == x
  }

  /** The end of a walk from the start is reached after as many arcs as the walk has. */
  lemma {:induction false} WalkReaches(adj: seq<set<nat>>, dir: Direction, w: seq<nat>)
    requires |adj| > 0 && IsWalk(adj, dir, w) && |w| > 0 && w[0] == Start(dir, |adj|)
    ensures w[|w| - 1] in Reach(adj, dir, |w| - 1)
    decreases |w|
  {
    if |w| > 1 {
      var u := w[..|w| - 1];
      assert IsWalk(adj, dir, u) by {
        forall i | 0 <= i < |u| - 1 ensures u[i + 1] in Nbrs(adj, dir, u[i]) {
          assert u[i] == w[i] && u[i + 1] == w[i + 1];
        }
      }
      WalkReaches(adj, dir, u);
      assert u[|u| - 1] == w[|w| - 2];
      FrontierHas(adj, dir, Reach(adj, dir, |w| - 2), w[|w| - 2], w[|w| - 1]);
    }
  }

  /** Every node reached after k arcs is the end of a walk of k arcs from the start. */
  lemma {:induction false} ReachedByWalk(adj: seq<set<nat>>, dir: Direction, k: nat, x: nat)
    requires |adj| > 0 && IsGraph(adj) && x in Reach(adj, dir, k)
    ensures WalkTo(adj, dir, x, k)
  {
    if k == 0 {
      var w := [x];
      assert IsWalk(adj, dir, w) && w[0] == Start(dir, |adj|);
    } else {
      FrontierFrom(adj, dir, Reach(adj, dir, k - 1), x);
      var z :| z in Reach(adj, dir, k - 1) && z < |adj| && x in Nbrs(adj, dir, z);
      ReachedByWalk(adj, dir, k - 1, z);
      var u :| IsWalk(adj, dir, u) && |u| == k && u[0] == Start(dir, |adj|) && u[k - 1] == z;
      var w := u + [x];
      assert x < |adj|;
      assert IsWalk(adj, dir, w) by {
        forall i | 0 <= i < |w| - 1 ensures w[i + 1] in Nbrs(adj, dir, w[i]) {
          if i < k - 1 {
            assert w[i] == u[i] && w[i + 1] == u[i + 1];
          }
        }
      }
      assert w[k] == x;
    }
  }

  /** Reach(k) is exactly the set of ends of walks of k arcs from the start. */
  lemma ReachIsWalks(adj: seq<set<nat>>, dir: Direction, k: nat, x: nat)
    requires |adj| > 0 && IsGraph(adj)
    ensures x in Reach(adj, dir, k) <==> WalkTo(adj, dir, x, k)
  {
    if x in Reach(adj, dir, k) {
      ReachedByWalk(adj, dir, k, x);
    }
    if WalkTo(adj, dir, x, k) {
      var w :| IsWalk(adj, dir, w) && |w| == k + 1 && w[0] == Start(dir, |adj|) && w[k] == x;
      WalkReaches(adj, dir, w);
    }
  }

  //***********************************************************************************
  // LAYERS
  //***********************************************************************************

  /** Seen(m) is the union of Reach(1) .. Reach(m). */
  lemma {:induction false} SeenIsUnion(adj: seq<set<nat>>, dir: Direction, m: nat, x: nat)
    requires |adj| > 0
    ensures x in Seen(adj, dir, m) <==> exists j :: 1 <= j <= m && x in Reach(adj, dir, j)
  {
    if m > 0 {
      SeenIsUnion(adj, dir, m - 1, x);
      assert Seen(adj, dir, m) == Seen(adj, dir, m - 1) + Reach(adj, dir, m);
      if x in Seen(adj, dir, m) {
        if x in Reach(adj, dir, m) {
          assert 1 <= m <= m && x in Reach(adj, dir, m);
          assert exists j :: 1 <= j <= m && x in Reach(adj, dir, j);
        } else {
          var j :| 1 <= j <= m - 1 && x in Reach(adj, dir, j);
          assert 1 <= j <= m && x in Reach(adj, dir, j);
        }
      } else {
        forall j | 1 <= j <= m
          ensures x !in Reach(adj, dir, j)
        {
          if j < m {
            assert !(1 <= j <= m - 1 && x in Reach(adj, dir, j));
          }
        }
      }
    }
  }

  /** One more step from anything seen within m arcs stays within m + 1 arcs. */
  lemma {:induction false} FrontierOfSeen(adj: seq<set<nat>>, dir: Direction, m: nat)
    requires |adj| > 0
    ensures Frontier(adj, dir, Seen(adj, dir, m)) <= Seen(adj, dir, m + 1)
  {
    if m == 0 {
      FrontierOfEmpty(adj, dir);
    } else {
      FrontierOfSeen(adj, dir, m - 1);
      forall y | y in Frontier(adj, dir, Seen(adj, dir, m)) ensures y in Seen(adj, dir, m + 1) {
        FrontierFrom(adj, dir, Seen(adj, dir, m), y);
        var x :| x in Seen(adj, dir, m) && x < |adj| && y in Nbrs(adj, dir, x);
        if x in Seen(adj, dir, m - 1) {
          FrontierHas(adj, dir, Seen(adj, dir, m - 1), x, y);
        } else {
          FrontierHas(adj, dir, Reach(adj, dir, m), x, y);
        }
      }
    }
  }

  /**
   * The breadth-first step: the next layer is what the current layer leads to, minus
   * what was already seen; the seen set grows by that layer.
   */
  lemma LayerStep(adj: seq<set<nat>>, dir: Direction, k: nat)
    requires |adj| > 0
    ensures Layer(adj, dir, k + 1) == Frontier(adj, dir, Layer(adj, dir, k)) - Seen(adj, dir, k)
    ensures Seen(adj, dir, k + 1) == Seen(adj, dir, k) + Layer(adj, dir, k + 1)
  {
    if k > 0 {
      var L := Layer(adj, dir, k);
      var R := Reach(adj, dir, k);
      forall y | y in Frontier(adj, dir, R) && y !in Seen(adj, dir, k)
        ensures y in Frontier(adj, dir, L)
      {
        FrontierFrom(adj, dir, R, y);
        var x :| x in R && x < |adj| && y in Nbrs(adj, dir, x);
        if x in Seen(adj, dir, k - 1) {
          FrontierOfSeen(adj, dir, k - 1);
          FrontierHas(adj, dir, Seen(adj, dir, k - 1), x, y);
        } else {
          FrontierHas(adj, dir, L, x, y);
        }
      }
      forall y | y in Frontier(adj, dir, L) ensures y in Frontier(adj, dir, R) {
        FrontierFrom(adj, dir, L, y);
        var x :| x in L && x < |adj| && y in Nbrs(adj, dir, x);
        FrontierHas(adj, dir, R, x, y);
      }
    } else {
      assert Reach(adj, dir, 0) == Layer(adj, dir, 0);
      assert Layer(adj, dir, 1) == Frontier(adj, dir, Reach(adj, dir, 0)) - Seen(adj, dir, 0);
    }
  }

  /** Once a layer is empty, every later layer is empty: the traversal has ended. */
  lemma {:induction false} LayersEmptyAfter(adj: seq<set<nat>>, dir: Direction, k: nat, j: nat)
    requires |adj| > 0 && k <= j && Layer(adj, dir, k) == {}
    ensures Layer(adj, dir, j) == {}
    decreases j - k
  {
    if k < j {
      LayerStep(adj, dir, k);
      FrontierOfEmpty(adj, dir);
      LayersEmptyAfter(adj, dir, k + 1, j);
    }
  }

  /**
   * No node is in two layers after the first: a node other than the start is enqueued
   * at most once, and the start at most once again after it was the first layer.
   */
  lemma LayersDisjoint(adj: seq<set<nat>>, dir: Direction, j: nat, k: nat)
    requires |adj| > 0 && 1 <= j < k
    ensures Layer(adj, dir, j) !! Layer(adj, dir, k)
  {
    assert Layer(adj, dir, j) == Reach(adj, dir, j) - Seen(adj, dir, j - 1);
    forall x | x in Layer(adj, dir, j) ensures x !in Layer(adj, dir, k) {
      SeenIsUnion(adj, dir, k - 1, x);
      assert x in Reach(adj, dir, j);
      assert 1 <= j <= k - 1 && x in Reach(adj, dir, j);
      assert x in Seen(adj, dir, k - 1);
    }
  }

  /**
   * Layer k (k >= 1) holds exactly the nodes whose shortest non-empty walk from the
   * start has k arcs: their breadth-first distance.
   */
  lemma LayerIsShortestDistance(adj: seq<set<nat>>, dir: Direction, k: nat, x: nat)
    requires |adj| > 0 && IsGraph(adj) && k >= 1
    ensures x in Layer(adj, dir, k) <==>
              WalkTo(adj, dir, x, k) && forall j :: 1 <= j < k ==> !WalkTo(adj, dir, x, j)
  {
    ReachIsWalks(adj, dir, k, x);
    SeenIsUnion(adj, dir, k - 1, x);
    forall j | 1 <= j < k ensures WalkTo(adj, dir, x, j) <==> x in Reach(adj, dir, j) {
      ReachIsWalks(adj, dir, j, x);
    }
    if x !in Seen(adj, dir, k - 1) {
      forall j | 1 <= j < k ensures !WalkTo(adj, dir, x, j) {
        assert !(1 <= j <= k - 1 && x in Reach(adj, dir, j));
      }
    }
  }
}
