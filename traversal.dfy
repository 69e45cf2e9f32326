/**
 * What the breadth-first traversals of the tour-position reactor compute, stated on
 * values: one frontier at a time, every node of the frontier has its position bound
 * set to the frontier's level; the next frontier is the set of neighbours not yet
 * visited.
 */
module Traversal {
  import opened Domains
  import opened Graphs

  /** The level of the start node: position 0 forward, position n-1 backward. */
  function StartLevel(dir: Direction, n: nat): int
  {
    if dir == Forward then 0 else n - 1
  }

  /** How the level moves from one frontier to the next. */
  function Step(dir: Direction): int
  {
    if dir == Forward then 1 else -1
  }

  /** k steps in direction `dir`. */
  function Advance(dir: Direction, k: int): int
  {
    if dir == Forward then k else -k
  }

  /** The level of the k-th frontier. */
  function LevelAt(dir: Direction, n: nat, k: nat): int
  {
    StartLevel(dir, n) + Advance(dir, k)
  }

  /** A position `w` is on the allowed side of `level`: at least it forward, at most it backward. */
  predicate OnSide(dir: Direction, w: int, level: int)
  {
    if dir == Forward then level <= w else w <= level
  }

  /** The domain's bound on the traversal's side already respects `level`. */
  predicate Respects(d: IntDom, dir: Direction, level: int)
  {
    if dir == Forward then level <= d.lb else d.ub <= level
  }

  /** Forward the lower bound is raised to `level`; backward the upper bound is lowered to it. */
  function Bound(d: IntDom, dir: Direction, level: int): (r: Outcome<IntDom>)
    requires ValidDom(d)
    ensures r.Contradiction? <==> forall w :: Contains(d, w) ==> !OnSide(dir, w, level)
    ensures r.Ok? ==> ValidDom(r.value) && Respects(r.value, dir, level)
    ensures r.Ok? ==> forall w :: Contains(r.value, w) <==> Contains(d, w) && OnSide(dir, w, level)
    ensures r.Ok? && dir == Forward ==> r.value.ub == d.ub && d.lb <= r.value.lb
    ensures r.Ok? && dir == Backward ==> r.value.lb == d.lb && r.value.ub <= d.ub
  {
    assert Contains(d, d.lb) && Contains(d, d.ub);
    if dir == Forward then NarrowLb(d, level) else NarrowUb(d, level)
  }

  /** Every node of F has its bound set to `level`; fails when one of them has no value left. */
  ghost function NarrowAll(p: seq<IntDom>, F: set<nat>, dir: Direction, level: int): (r: Outcome<seq<IntDom>>)
    requires AllValid(p)
    ensures r.Contradiction? <==> exists x :: x in F && x < |p| && Bound(p[x], dir, level).Contradiction?
    ensures r.Ok? ==> |r.value| == |p| && AllValid(r.value)
    ensures r.Ok? ==> forall x :: 0 <= x < |p| ==>
                        r.value[x] == if x in F then Bound(p[x], dir, level).value else p[x]
  {
    if exists x :: x in F && x < |p| && Bound(p[x], dir, level).Contradiction? then
      Contradiction
    else
      Ok(seq(|p|, x requires 0 <= x < |p| => if x in F then Bound(p[x], dir, level).value else p[x]))
  }

  /** Each position domain of `q` admits only values its counterpart in `p` admits. */
  ghost predicate NarrowsAll(p: seq<IntDom>, q: seq<IntDom>)
    requires |p| == |q|
  {
    forall x, w :: 0 <= x < |p| && Contains(q[x], w) ==> Contains(p[x], w)
  }

  /** Forward only lower bounds rise; backward only upper bounds fall. */
  ghost predicate MovesOnlyItsSide(p: seq<IntDom>, q: seq<IntDom>, dir: Direction)
    requires |p| == |q|
  {
    forall x :: 0 <= x < |p| ==>
      if dir == Forward then q[x].ub == p[x].ub && p[x].lb <= q[x].lb
      else q[x].lb == p[x].lb && q[x].ub <= p[x].ub
  }

  /**
   * The plain traversal from frontier F with visited set D: narrow F at `level`, then
   * continue with the neighbours of F that were not visited, marking them visited.
   */
  ghost function Sweep(adj: seq<set<nat>>, dir: Direction, F: set<nat>, D: set<nat>, level: int, p: seq<IntDom>): (r: Outcome<seq<IntDom>>)
    requires IsGraph(adj) && |p| == |adj| && AllValid(p)
    requires F <= Nodes(|adj|) && D <= Nodes(|adj|)
    ensures r.Ok? ==> |r.value| == |p| && AllValid(r.value)
    decreases Nodes(|adj|) - D, F
  {
    if F == {} then
      Ok(p)
    else
      match NarrowAll(p, F, dir, level)
      case Contradiction => Contradiction
      case Ok(p1) =>
        var N := Frontier(adj, dir, F) - D;
        FrontierInGraph(adj, dir, F);
        SweepDecreases(adj, D, F, N);
        Sweep(adj, dir, N, D + N, level + Step(dir), p1)
  }

  /** The step of a traversal moves to a smaller measure: more visited nodes, or an empty frontier. */
  lemma SweepDecreases(adj: seq<set<nat>>, D: set<nat>, F: set<nat>, N: set<nat>)
    requires F != {} && N <= Nodes(|adj|) && N !! D
    ensures Nodes(|adj|) - (D + N) < Nodes(|adj|) - D ||
            (Nodes(|adj|) - (D + N) == Nodes(|adj|) - D && N < F)
  {
    if N == {} {
      assert D + N == D;
    } else {
      var y :| y in N;
      assert y in Nodes(|adj|) - D && y !in Nodes(|adj|) - (D + N);
    }
  }

  /** One round of the traversal from a non-empty frontier. */
  lemma SweepStep(adj: seq<set<nat>>, dir: Direction, F: set<nat>, D: set<nat>, level: int, p: seq<IntDom>)
    requires IsGraph(adj) && |p| == |adj| && AllValid(p)
    requires F <= Nodes(|adj|) && D <= Nodes(|adj|) && F != {}
    ensures NarrowAll(p, F, dir, level).Contradiction? ==> Sweep(adj, dir, F, D, level, p).Contradiction?
    ensures NarrowAll(p, F, dir, level).Ok? ==>
              Frontier(adj, dir, F) <= Nodes(|adj|) &&
              Sweep(adj, dir, F, D, level, p) ==
              Sweep(adj, dir, Frontier(adj, dir, F) - D, D + Frontier(adj, dir, F), level + Step(dir),
                    NarrowAll(p, F, dir, level).value)
  {
    FrontierInGraph(adj, dir, F);
    assert D + (Frontier(adj, dir, F) - D) == D + Frontier(adj, dir, F);
  }

  /** Narrowing a frontier only shrinks domains, on the traversal's side. */
  lemma NarrowAllNarrows(p: seq<IntDom>, F: set<nat>, dir: Direction, level: int)
    requires AllValid(p) && NarrowAll(p, F, dir, level).Ok?
    ensures NarrowsAll(p, NarrowAll(p, F, dir, level).value)
    ensures MovesOnlyItsSide(p, NarrowAll(p, F, dir, level).value, dir)
  {
    var q := NarrowAll(p, F, dir, level).value;
    forall x, w | 0 <= x < |p| && Contains(q[x], w) ensures Contains(p[x], w) {
      if x in F {
        assert q[x] == Bound(p[x], dir, level).value;
      }
    }
  }

  /** Shrinking twice is shrinking. */
  lemma NarrowsTrans(p: seq<IntDom>, q: seq<IntDom>, r: seq<IntDom>, dir: Direction)
    requires |p| == |q| == |r|
    requires NarrowsAll(p, q) && MovesOnlyItsSide(p, q, dir)
    requires NarrowsAll(q, r) && MovesOnlyItsSide(q, r, dir)
    ensures NarrowsAll(p, r) && MovesOnlyItsSide(p, r, dir)
  {
  }

  /** The plain traversal only shrinks domains, and only on its own side. */
  lemma {:induction false} SweepNarrows(adj: seq<set<nat>>, dir: Direction, F: set<nat>, D: set<nat>, level: int, p: seq<IntDom>)
    requires IsGraph(adj) && |p| == |adj| && AllValid(p)
    requires F <= Nodes(|adj|) && D <= Nodes(|adj|)
    ensures Sweep(adj, dir, F, D, level, p).Ok? ==>
              NarrowsAll(p, Sweep(adj, dir, F, D, level, p).value) &&
              MovesOnlyItsSide(p, Sweep(adj, dir, F, D, level, p).value, dir)
    decreases Nodes(|adj|) - D, F
  {
    if F != {} && NarrowAll(p, F, dir, level).Ok? {
      var p1 := NarrowAll(p, F, dir, level).value;
      NarrowAllNarrows(p, F, dir, level);
      var N := Frontier(adj, dir, F) - D;
      FrontierInGraph(adj, dir, F);
      SweepDecreases(adj, D, F, N);
      SweepNarrows(adj, dir, N, D + N, level + Step(dir), p1);
      var r := Sweep(adj, dir, N, D + N, level + Step(dir), p1);
      if r.Ok? {
        NarrowsTrans(p, p1, r.value, dir);
      }
    }
  }

  /** The plain traversal of the whole graph in direction `dir`. */
  ghost function Traverse(adj: seq<set<nat>>, dir: Direction, p: seq<IntDom>): (r: Outcome<seq<IntDom>>)
    requires IsGraph(adj) && |adj| > 0 && |p| == |adj| && AllValid(p)
    ensures r.Ok? ==> |r.value| == |p| && AllValid(r.value)
  {
    Sweep(adj, dir, {Start(dir, |adj|)}, {}, StartLevel(dir, |adj|), p)
  }

  lemma TraverseNarrows(adj: seq<set<nat>>, dir: Direction, p: seq<IntDom>)
    requires IsGraph(adj) && |adj| > 0 && |p| == |adj| && AllValid(p)
    ensures Traverse(adj, dir, p).Ok? ==>
              NarrowsAll(p, Traverse(adj, dir, p).value) && MovesOnlyItsSide(p, Traverse(adj, dir, p).value, dir)
  {
    SweepNarrows(adj, dir, {Start(dir, |adj|)}, {}, StartLevel(dir, |adj|), p);
  }

  //***********************************************************************************
  // COMPONENT BY COMPONENT
  //***********************************************************************************

  /**
   * A ranking of the condensation graph `rg` (the graph of strongly connected
   * components) that decreases along every arc: `rg` has no cycle.
   */
  ghost predicate IsTopoRank(rg: seq<set<nat>>, rank: seq<nat>)
  {
    IsGraph(rg) && |rank| == |rg| &&
    (forall s :: 0 <= s < |rg| ==> rank[s] < |rg|) &&
    forall s, t :: 0 <= s < |rg| && t in rg[s] ==> rank[t] < rank[s]
  }

  ghost predicate Acyclic(rg: seq<set<nat>>)
  {
    exists rank :: IsTopoRank(rg, rank)
  }

  ghost function ChooseRank(rg: seq<set<nat>>): (rank: seq<nat>)
    requires Acyclic(rg)
    ensures IsTopoRank(rg, rank)
  {
    var rank :| IsTopoRank(rg, rank); rank
  }

  /** Component numbers of the nodes, all of them components of `rg`. */
  predicate IsSccMap(sccOf: seq<int>, n: nat, rg: seq<set<nat>>)
  {
    |sccOf| == n && forall x :: 0 <= x < n ==> 0 <= sccOf[x] < |rg|
  }

  /** The component visited after `scc`: its first successor forward, its first predecessor backward. */
  function NextScc(rg: seq<set<nat>>, dir: Direction, scc: nat): (r: int)
    requires scc < |rg|
    ensures r == -1 || (0 <= r < |rg| && r in Nbrs(rg, dir, scc))
    ensures r == -1 <==> forall t: nat :: t < |rg| ==> t !in Nbrs(rg, dir, scc)
  {
    FirstFrom(Nbrs(rg, dir, scc), 0, |rg|)
  }

  /** The nodes of N that belong to component `scc`. */
  function SameScc(sccOf: seq<int>, scc: int, N: set<nat>): set<nat>
  {
    set j | j in N && j < |sccOf| && sccOf[j] == scc
  }

  /** The traversal state carried from one component to the next. */
  datatype SccState = SccState(pos: seq<IntDom>, done: set<nat>, other: set<nat>, level: int, count: int)

  ghost predicate ValidSccState(adj: seq<set<nat>>, st: SccState)
  {
    |st.pos| == |adj| && AllValid(st.pos) && st.done <= Nodes(|adj|) && st.other <= Nodes(|adj|)
  }

  /** The next frontier of the inner traversal and the state it continues from. */
  datatype InnerMove = InnerMove(frontier: set<nat>, state: SccState)

  /**
   * One layer of the inner traversal of component `scc`: narrow the frontier F at the
   * current level, count its nodes, mark its unvisited neighbours visited, keep those
   * of component `scc` as the next frontier and set the others aside.
   */
  ghost function InnerStep(adj: seq<set<nat>>, dir: Direction, sccOf: seq<int>, scc: int, F: set<nat>, st: SccState): (r: Outcome<InnerMove>)
    requires IsGraph(adj) && |sccOf| == |adj| && ValidSccState(adj, st) && F <= Nodes(|adj|) && F != {}
    ensures r.Ok? ==> ValidSccState(adj, r.value.state) && r.value.frontier <= Nodes(|adj|)
    ensures r.Ok? ==> st.done <= r.value.state.done && st.other <= r.value.state.other
    ensures r.Ok? ==> r.value.state.level == st.level + Step(dir) && r.value.state.count == st.count + Advance(dir, |F|)
    ensures r.Ok? ==> Nodes(|adj|) - r.value.state.done < Nodes(|adj|) - st.done ||
                      (Nodes(|adj|) - r.value.state.done == Nodes(|adj|) - st.done && r.value.frontier < F)
  {
    match NarrowAll(st.pos, F, dir, st.level)
    case Contradiction => Contradiction
    case Ok(p1) =>
      var N := Frontier(adj, dir, F) - st.done;
      FrontierInGraph(adj, dir, F);
      var same := SameScc(sccOf, scc, N);
      SweepDecreases(adj, st.done, F, N);
      Ok(InnerMove(same, SccState(p1, st.done + N, st.other + (N - same), st.level + Step(dir), st.count + Advance(dir, |F|))))
  }

  /**
   * The traversal inside component `scc`: like the plain traversal, except that
   * newly visited nodes of other components are set aside in `other`, and `count`
   * moves by one per narrowed node.
   */
  ghost function InnerSweep(adj: seq<set<nat>>, dir: Direction, sccOf: seq<int>, scc: int, F: set<nat>, st: SccState): (r: Outcome<SccState>)
    requires IsGraph(adj) && |sccOf| == |adj| && ValidSccState(adj, st) && F <= Nodes(|adj|)
    ensures r.Ok? ==> ValidSccState(adj, r.value)
    ensures r.Ok? ==> st.done <= r.value.done && st.other <= r.value.other
    ensures r.Ok? ==> Advance(dir, r.value.level - st.level) <= Advance(dir, r.value.count - st.count)
    decreases Nodes(|adj|) - st.done, F
  {
    if F == {} then
      Ok(st)
    else
      match InnerStep(adj, dir, sccOf, scc, F, st)
      case Contradiction => Contradiction
      case Ok(m) =>
        assert |F| >= 1;
        InnerSweep(adj, dir, sccOf, scc, m.frontier, m.state)
  }

  /** A failed step of the inner traversal fails the whole traversal. */
  lemma InnerSweepFails(adj: seq<set<nat>>, dir: Direction, sccOf: seq<int>, scc: int, F: set<nat>, st: SccState)
    requires IsGraph(adj) && |sccOf| == |adj| && ValidSccState(adj, st) && F <= Nodes(|adj|) && F != {}
    requires InnerStep(adj, dir, sccOf, scc, F, st).Contradiction?
    ensures InnerSweep(adj, dir, sccOf, scc, F, st) == Contradiction
  {
  }

  /** A successful step of the inner traversal leaves the rest of the traversal to do. */
  lemma InnerSweepAdvances(adj: seq<set<nat>>, dir: Direction, sccOf: seq<int>, scc: int, F: set<nat>, st: SccState,
                           F': set<nat>, st': SccState)
    requires IsGraph(adj) && |sccOf| == |adj| && ValidSccState(adj, st) && F <= Nodes(|adj|) && F != {}
    requires InnerStep(adj, dir, sccOf, scc, F, st) == Ok(InnerMove(F', st'))
    ensures ValidSccState(adj, st') && F' <= Nodes(|adj|)
    ensures InnerSweep(adj, dir, sccOf, scc, F, st) == InnerSweep(adj, dir, sccOf, scc, F', st')
  {
  }

  /** The inner traversal only shrinks domains, and only on its own side. */
  lemma {:induction false} InnerSweepNarrows(adj: seq<set<nat>>, dir: Direction, sccOf: seq<int>, scc: int, F: set<nat>, st: SccState)
    requires IsGraph(adj) && |sccOf| == |adj| && ValidSccState(adj, st) && F <= Nodes(|adj|)
    ensures InnerSweep(adj, dir, sccOf, scc, F, st).Ok? ==>
              NarrowsAll(st.pos, InnerSweep(adj, dir, sccOf, scc, F, st).value.pos) &&
              MovesOnlyItsSide(st.pos, InnerSweep(adj, dir, sccOf, scc, F, st).value.pos, dir)
    decreases Nodes(|adj|) - st.done, F
  {
    if F != {} && InnerStep(adj, dir, sccOf, scc, F, st).Ok? {
      var m := InnerStep(adj, dir, sccOf, scc, F, st).value;
      NarrowAllNarrows(st.pos, F, dir, st.level);
      InnerSweepNarrows(adj, dir, sccOf, scc, m.frontier, m.state);
      var r := InnerSweep(adj, dir, sccOf, scc, m.frontier, m.state);
      if r.Ok? {
        NarrowsTrans(st.pos, m.state.pos, r.value.pos, dir);
      }
    }
  }

  /**
   * The component-by-component traversal: run the inner traversal of `scc`, then move
   * to the next component along `rg` with the nodes set aside, at the level given by
   * the number of nodes narrowed so far.
   */
  ghost function SccSweep(adj: seq<set<nat>>, dir: Direction, sccOf: seq<int>, rg: seq<set<nat>>, rank: seq<nat>,
                          scc: int, F: set<nat>, st: SccState): (r: Outcome<seq<IntDom>>)
    requires IsGraph(adj) && IsSccMap(sccOf, |adj|, rg) && IsTopoRank(rg, rank)
    requires -1 <= scc < |rg| && ValidSccState(adj, st) && F <= Nodes(|adj|)
    ensures r.Ok? ==> |r.value| == |adj| && AllValid(r.value)
    decreases SccMeasure(dir, rg, rank, scc), 1
  {
    if scc < 0 then
      Ok(st.pos)
    else
      AfterScc(adj, dir, sccOf, rg, rank, scc, InnerSweep(adj, dir, sccOf, scc, F, st.(other := {})))
  }

  function SccMeasure(dir: Direction, rg: seq<set<nat>>, rank: seq<nat>, scc: int): nat
    requires |rank| == |rg| && scc < |rg|
    requires forall s :: 0 <= s < |rg| ==> rank[s] < |rg|
  {
    if scc < 0 then 0 else 1 + (if dir == Forward then rank[scc] else |rg| - rank[scc])
  }

  /**
   * What follows the inner traversal of component `scc`: move to the next component
   * with the nodes set aside as its frontier, at level `count`.
   */
  ghost function AfterScc(adj: seq<set<nat>>, dir: Direction, sccOf: seq<int>, rg: seq<set<nat>>, rank: seq<nat>,
                          scc: nat, inner: Outcome<SccState>): (r: Outcome<seq<IntDom>>)
    requires IsGraph(adj) && IsSccMap(sccOf, |adj|, rg) && IsTopoRank(rg, rank) && scc < |rg|
    requires inner.Ok? ==> ValidSccState(adj, inner.value)
    ensures r.Ok? ==> inner.Ok? && |r.value| == |adj| && AllValid(r.value)
    decreases SccMeasure(dir, rg, rank, scc), 0
  {
    match inner
    case Contradiction => Contradiction
    case Ok(st1) =>
      var next := NextScc(rg, dir, scc);
      SccSweep(adj, dir, sccOf, rg, rank, next, st1.other, SccState(st1.pos, st1.done, {}, st1.count, st1.count))
  }

  /** The component-by-component traversal of the whole graph in direction `dir`. */
  ghost function TraverseScc(adj: seq<set<nat>>, dir: Direction, sccOf: seq<int>, rg: seq<set<nat>>, p: seq<IntDom>): (r: Outcome<seq<IntDom>>)
    requires IsGraph(adj) && |adj| > 0 && IsSccMap(sccOf, |adj|, rg) && Acyclic(rg)
    requires |p| == |adj| && AllValid(p)
    ensures r.Ok? ==> |r.value| == |p| && AllValid(r.value)
  {
    var start := Start(dir, |adj|);
    var level := StartLevel(dir, |adj|);
    SccSweep(adj, dir, sccOf, rg, ChooseRank(rg), sccOf[start], {start}, SccState(p, {}, {}, level, level))
  }

  /** The component-by-component traversal only shrinks domains, and only on its own side. */
  lemma {:induction false} SccSweepNarrows(adj: seq<set<nat>>, dir: Direction, sccOf: seq<int>, rg: seq<set<nat>>,
                                           rank: seq<nat>, scc: int, F: set<nat>, st: SccState)
    requires IsGraph(adj) && IsSccMap(sccOf, |adj|, rg) && IsTopoRank(rg, rank)
    requires -1 <= scc < |rg| && ValidSccState(adj, st) && F <= Nodes(|adj|)
    ensures SccSweep(adj, dir, sccOf, rg, rank, scc, F, st).Ok? ==>
              NarrowsAll(st.pos, SccSweep(adj, dir, sccOf, rg, rank, scc, F, st).value) &&
              MovesOnlyItsSide(st.pos, SccSweep(adj, dir, sccOf, rg, rank, scc, F, st).value, dir)
    decreases SccMeasure(dir, rg, rank, scc), 1
  {
    if scc >= 0 {
      var inner := InnerSweep(adj, dir, sccOf, scc, F, st.(other := {}));
      InnerSweepNarrows(adj, dir, sccOf, scc, F, st.(other := {}));
      AfterSccNarrows(adj, dir, sccOf, rg, rank, scc, inner);
      var r := AfterScc(adj, dir, sccOf, rg, rank, scc, inner);
      if r.Ok? {
        NarrowsTrans(st.pos, inner.value.pos, r.value, dir);
      }
    }
  }

  lemma {:induction false} AfterSccNarrows(adj: seq<set<nat>>, dir: Direction, sccOf: seq<int>, rg: seq<set<nat>>,
                                           rank: seq<nat>, scc: nat, inner: Outcome<SccState>)
    requires IsGraph(adj) && IsSccMap(sccOf, |adj|, rg) && IsTopoRank(rg, rank) && scc < |rg|
    requires inner.Ok? ==> ValidSccState(adj, inner.value)
    ensures AfterScc(adj, dir, sccOf, rg, rank, scc, inner).Ok? ==>
              NarrowsAll(inner.value.pos, AfterScc(adj, dir, sccOf, rg, rank, scc, inner).value) &&
              MovesOnlyItsSide(inner.value.pos, AfterScc(adj, dir, sccOf, rg, rank, scc, inner).value, dir)
    decreases SccMeasure(dir, rg, rank, scc), 0
  {
    if inner.Ok? {
      var st1 := inner.value;
      SccSweepNarrows(adj, dir, sccOf, rg, rank, NextScc(rg, dir, scc), st1.other,
                      SccState(st1.pos, st1.done, {}, st1.count, st1.count));
    }
  }

  lemma TraverseSccNarrows(adj: seq<set<nat>>, dir: Direction, sccOf: seq<int>, rg: seq<set<nat>>, p: seq<IntDom>)
    requires IsGraph(adj) && |adj| > 0 && IsSccMap(sccOf, |adj|, rg) && Acyclic(rg)
    requires |p| == |adj| && AllValid(p)
    ensures TraverseScc(adj, dir, sccOf, rg, p).Ok? ==>
              NarrowsAll(p, TraverseScc(adj, dir, sccOf, rg, p).value) &&
              MovesOnlyItsSide(p, TraverseScc(adj, dir, sccOf, rg, p).value, dir)
  {
    var start := Start(dir, |adj|);
    var level := StartLevel(dir, |adj|);
    SccSweepNarrows(adj, dir, sccOf, rg, ChooseRank(rg), sccOf[start], {start}, SccState(p, {}, {}, level, level));
  }

  //***********************************************************************************
  // WHAT THE PLAIN TRAVERSAL COMPUTES
  //***********************************************************************************

  lemma NarrowAllEmpty(p: seq<IntDom>, dir: Direction, level: int)
    requires AllValid(p)
    ensures NarrowAll(p, {}, dir, level) == Ok(p)
  {
    var r := NarrowAll(p, {}, dir, level);
    assert r.Ok?;
    assert r.value == p;
  }

  /** Narrowing one more node x: the narrowing of the others, then the bound at x. */
  lemma NarrowAllAdd(p: seq<IntDom>, P: set<nat>, x: nat, dir: Direction, level: int)
    requires AllValid(p) && x < |p| && x !in P && NarrowAll(p, P, dir, level).Ok?
    ensures NarrowAll(p, P, dir, level).value[x] == p[x]
    ensures NarrowAll(p, P + {x}, dir, level) ==
              match Bound(p[x], dir, level)
              case Contradiction => Contradiction
              case Ok(d) => Ok(NarrowAll(p, P, dir, level).value[x := d])
  {
    var q := NarrowAll(p, P, dir, level).value;
    if Bound(p[x], dir, level).Contradiction? {
      assert x in P + {x};
    } else {
      assert forall y :: y in P + {x} && y < |p| ==> Bound(p[y], dir, level).Ok?;
      var r := NarrowAll(p, P + {x}, dir, level);
      assert r.Ok?;
      assert r.value == q[x := Bound(p[x], dir, level).value];
    }
  }

  /** The traversal from layer k on, with the nodes of the earlier layers visited. */
  ghost function SweepFrom(adj: seq<set<nat>>, dir: Direction, k: nat, p: seq<IntDom>): (r: Outcome<seq<IntDom>>)
    requires IsGraph(adj) && |adj| > 0 && |p| == |adj| && AllValid(p)
    ensures r.Ok? ==> |r.value| == |p| && AllValid(r.value)
  {
    LayersInGraph(adj, dir, k);
    Sweep(adj, dir, Layer(adj, dir, k), Seen(adj, dir, k), LevelAt(dir, |adj|, k), p)
  }

  lemma TraverseIsSweepFromStart(adj: seq<set<nat>>, dir: Direction, p: seq<IntDom>)
    requires IsGraph(adj) && |adj| > 0 && |p| == |adj| && AllValid(p)
    ensures Traverse(adj, dir, p) == SweepFrom(adj, dir, 0, p)
  {
  }

  /** One round of the traversal: layer k is narrowed at level k, then layer k + 1 follows. */
  lemma SweepFromStep(adj: seq<set<nat>>, dir: Direction, k: nat, p: seq<IntDom>)
    requires IsGraph(adj) && |adj| > 0 && |p| == |adj| && AllValid(p) && Layer(adj, dir, k) != {}
    ensures NarrowAll(p, Layer(adj, dir, k), dir, LevelAt(dir, |adj|, k)).Contradiction? ==>
              SweepFrom(adj, dir, k, p).Contradiction?
    ensures NarrowAll(p, Layer(adj, dir, k), dir, LevelAt(dir, |adj|, k)).Ok? ==>
              SweepFrom(adj, dir, k, p) ==
              SweepFrom(adj, dir, k + 1, NarrowAll(p, Layer(adj, dir, k), dir, LevelAt(dir, |adj|, k)).value)
  {
    LayersInGraph(adj, dir, k);
    LayersInGraph(adj, dir, k + 1);
    LayerStep(adj, dir, k);
    FrontierInGraph(adj, dir, Layer(adj, dir, k));
    assert LevelAt(dir, |adj|, k) + Step(dir) == LevelAt(dir, |adj|, k + 1);
  }

  /** The traversal's measure shrinks from layer k to layer k + 1. */
  lemma LayerMeasureDecreases(adj: seq<set<nat>>, dir: Direction, k: nat)
    requires IsGraph(adj) && |adj| > 0 && Layer(adj, dir, k) != {}
    ensures Nodes(|adj|) - Seen(adj, dir, k + 1) < Nodes(|adj|) - Seen(adj, dir, k) ||
            (Nodes(|adj|) - Seen(adj, dir, k + 1) == Nodes(|adj|) - Seen(adj, dir, k) &&
             Layer(adj, dir, k + 1) < Layer(adj, dir, k))
  {
    LayersInGraph(adj, dir, k + 1);
    LayerStep(adj, dir, k);
    SweepDecreases(adj, Seen(adj, dir, k), Layer(adj, dir, k), Layer(adj, dir, k + 1));
  }

  /**
   * Every node of layer j >= k ends with its bound at the level of layer j: forward its
   * lower bound is at least its breadth-first distance from node 0, backward its upper
   * bound is at most n-1 minus its distance to node n-1.
   */
  lemma {:induction false} SweepRespectsLayers(adj: seq<set<nat>>, dir: Direction, k: nat, p: seq<IntDom>)
    requires IsGraph(adj) && |adj| > 0 && |p| == |adj| && AllValid(p)
    requires SweepFrom(adj, dir, k, p).Ok?
    ensures forall j: nat, x :: k <= j && x in Layer(adj, dir, j) && x < |p| ==>
              Respects(SweepFrom(adj, dir, k, p).value[x], dir, LevelAt(dir, |adj|, j))
    decreases Nodes(|adj|) - Seen(adj, dir, k), Layer(adj, dir, k)
  {
    var q := SweepFrom(adj, dir, k, p).value;
    if Layer(adj, dir, k) == {} {
      forall j: nat | k <= j ensures Layer(adj, dir, j) == {} {
        LayersEmptyAfter(adj, dir, k, j);
      }
    } else {
      SweepFromStep(adj, dir, k, p);
      LayerMeasureDecreases(adj, dir, k);
      var p1 := NarrowAll(p, Layer(adj, dir, k), dir, LevelAt(dir, |adj|, k)).value;
      SweepRespectsLayers(adj, dir, k + 1, p1);
      assert q == SweepFrom(adj, dir, k + 1, p1).value;
      LayersInGraph(adj, dir, k + 1);
      SweepNarrows(adj, dir, Layer(adj, dir, k + 1), Seen(adj, dir, k + 1), LevelAt(dir, |adj|, k + 1), p1);
      forall j: nat, x | k <= j && x in Layer(adj, dir, j) && x < |p|
        ensures Respects(q[x], dir, LevelAt(dir, |adj|, j))
      {
        if j == k {
          assert p1[x] == Bound(p[x], dir, LevelAt(dir, |adj|, k)).value;
          RespectsKept(p1, q, dir, x, LevelAt(dir, |adj|, k));
        }
      }
    }
  }

  /** A bound already reached stays reached while only the traversal's own side moves. */
  lemma RespectsKept(p: seq<IntDom>, q: seq<IntDom>, dir: Direction, x: nat, level: int)
    requires |p| == |q| && x < |p| && MovesOnlyItsSide(p, q, dir) && Respects(p[x], dir, level)
    ensures Respects(q[x], dir, level)
  {
  }

  /** The whole forward or backward traversal bounds every reached node by its layer's level. */
  lemma TraverseBoundsLayers(adj: seq<set<nat>>, dir: Direction, p: seq<IntDom>)
    requires IsGraph(adj) && |adj| > 0 && |p| == |adj| && AllValid(p)
    requires Traverse(adj, dir, p).Ok?
    ensures forall j: nat, x :: x in Layer(adj, dir, j) && x < |p| ==>
              Respects(Traverse(adj, dir, p).value[x], dir, LevelAt(dir, |adj|, j))
  {
    TraverseIsSweepFromStart(adj, dir, p);
    SweepRespectsLayers(adj, dir, 0, p);
  }

  /** Every node of layer j >= k may take its position in `sigma`: it lies on the allowed side of its level. */
  ghost predicate LayersOnSide(adj: seq<set<nat>>, dir: Direction, k: nat, sigma: seq<int>)
    requires |adj| > 0
  {
    forall j: nat, x :: k <= j && x in Layer(adj, dir, j) && x < |sigma| ==>
      OnSide(dir, sigma[x], LevelAt(dir, |adj|, j))
  }

  /** The traversal keeps every assignment whose positions lie on the allowed side of each layer. */
  lemma {:induction false} SweepKeepsSolution(adj: seq<set<nat>>, dir: Direction, k: nat, p: seq<IntDom>, sigma: seq<int>)
    requires IsGraph(adj) && |adj| > 0 && |p| == |adj| && AllValid(p)
    requires Within(p, sigma) && LayersOnSide(adj, dir, k, sigma)
    ensures SweepFrom(adj, dir, k, p).Ok? && Within(SweepFrom(adj, dir, k, p).value, sigma)
    decreases Nodes(|adj|) - Seen(adj, dir, k), Layer(adj, dir, k)
  {
    if Layer(adj, dir, k) != {} {
      SweepFromStep(adj, dir, k, p);
      LayerMeasureDecreases(adj, dir, k);
      var level := LevelAt(dir, |adj|, k);
      LayersOnSideNext(adj, dir, k, sigma);
      NarrowKeepsSolution(p, Layer(adj, dir, k), dir, level, sigma);
      var p1 := NarrowAll(p, Layer(adj, dir, k), dir, level).value;
      NarrowAllNarrows(p, Layer(adj, dir, k), dir, level);
      assert AllValid(p1) && |p1| == |adj| && SweepFrom(adj, dir, k, p) == SweepFrom(adj, dir, k + 1, p1);
      SweepKeepsSolution(adj, dir, k + 1, p1, sigma);
    }
  }

  /** What `LayersOnSide` gives for layer k, and for the layers after it. */
  lemma LayersOnSideNext(adj: seq<set<nat>>, dir: Direction, k: nat, sigma: seq<int>)
    requires |adj| > 0 && LayersOnSide(adj, dir, k, sigma)
    ensures LayersOnSide(adj, dir, k + 1, sigma)
    ensures forall x :: x in Layer(adj, dir, k) && x < |sigma| ==> OnSide(dir, sigma[x], LevelAt(dir, |adj|, k))
  {
  }

  /** Narrowing a set of nodes keeps an assignment whose values there are on the allowed side. */
  lemma NarrowKeepsSolution(p: seq<IntDom>, L: set<nat>, dir: Direction, level: int, sigma: seq<int>)
    requires AllValid(p) && Within(p, sigma)
    requires forall x :: x in L && x < |sigma| ==> OnSide(dir, sigma[x], level)
    ensures NarrowAll(p, L, dir, level).Ok? && Within(NarrowAll(p, L, dir, level).value, sigma)
  {
    forall x | x in L && x < |p|
      ensures Bound(p[x], dir, level).Ok? && Contains(Bound(p[x], dir, level).value, sigma[x])
    {
      assert Contains(p[x], sigma[x]);
    }
  }

  //***********************************************************************************
  // SOUNDNESS FOR HAMILTONIAN PATHS
  //***********************************************************************************

  /**
   * `v` visits every node exactly once, from node 0 to node n-1, along arcs of `adj`:
   * a solution of the path whose node positions the integer variables hold.
   */
  ghost predicate IsTour(adj: seq<set<nat>>, v: seq<nat>)
  {
    |v| == |adj| > 0 && v[0] == 0 && v[|v| - 1] == |v| - 1 &&
    (forall i :: 0 <= i < |v| ==> v[i] < |v|) &&
    (forall i, j :: 0 <= i < j < |v| ==> v[i] != v[j]) &&
    (forall x: nat :: x < |v| ==> x in v) &&
    (forall i :: 0 <= i < |v| - 1 ==> v[i + 1] in adj[v[i]])
  }

  /** `sigma` gives each node its position along `v`. */
  ghost predicate IsPositions(v: seq<nat>, sigma: seq<int>)
  {
    |sigma| == |v| && forall i :: 0 <= i < |v| ==> v[i] < |sigma| && sigma[v[i]] == i
  }

  /** The node i steps from the traversal's start along the tour. */
  function Along(v: seq<nat>, dir: Direction, i: nat): nat
    requires i < |v|
  {
    if dir == Forward then v[i] else v[|v| - 1 - i]
  }

  /** The tour itself is a walk: its i-th node from the start is reached in i steps. */
  lemma {:induction false} TourReaches(adj: seq<set<nat>>, dir: Direction, v: seq<nat>, i: nat)
    requires IsTour(adj, v) && i < |v|
    ensures Along(v, dir, i) in Reach(adj, dir, i)
  {
    if i > 0 {
      TourReaches(adj, dir, v, i - 1);
      var n := |v|;
      if dir == Forward {
        assert v[i] in adj[v[i - 1]];
      } else {
        assert v[n - i] in adj[v[n - 1 - i]];
        assert v[n - 1 - i] in Preds(adj, v[n - i]);
      }
      FrontierHas(adj, dir, Reach(adj, dir, i - 1), Along(v, dir, i - 1), Along(v, dir, i));
    }
  }

  /**
   * On a tour that no arc leads back to the start of, a node in layer j sits at least j
   * steps from the start: its tour position is on the allowed side of the level.
   */
  lemma TourOnSide(adj: seq<set<nat>>, dir: Direction, v: seq<nat>, sigma: seq<int>, j: nat, x: nat)
    requires IsGraph(adj) && IsTour(adj, v) && IsPositions(v, sigma) && NoArcIntoStart(adj, dir)
    requires x in Layer(adj, dir, j)
    ensures x < |sigma| && OnSide(dir, sigma[x], LevelAt(dir, |adj|, j))
  {
    var n := |adj|;
    LayersInGraph(adj, dir, j);
    assert x < n;
    assert x in v;
    var i :| 0 <= i < n && v[i] == x;
    var a: nat := if dir == Forward then i else n - 1 - i;
    assert Along(v, dir, a) == x;
    if j >= 1 {
      TourReaches(adj, dir, v, a);
      StartNotReentered(adj, dir, j);
      assert a != 0;
      SeenIsUnion(adj, dir, j - 1, x);
      assert !(1 <= a <= j - 1);
    }
  }

  /**
   * Soundness of the plain traversal: when no arc leads back to the start, every tour
   * position assignment the domains admit survives the traversal, which therefore does
   * not fail.
   */
  lemma TraverseKeepsTour(adj: seq<set<nat>>, dir: Direction, v: seq<nat>, sigma: seq<int>, p: seq<IntDom>)
    requires IsGraph(adj) && IsTour(adj, v) && IsPositions(v, sigma) && NoArcIntoStart(adj, dir)
    requires |p| == |adj| && AllValid(p) && Within(p, sigma)
    ensures Traverse(adj, dir, p).Ok? && Within(Traverse(adj, dir, p).value, sigma)
  {
    forall j: nat, x | 0 <= j && x in Layer(adj, dir, j) && x < |sigma|
      ensures OnSide(dir, sigma[x], LevelAt(dir, |adj|, j))
    {
      TourOnSide(adj, dir, v, sigma, j, x);
    }
    TraverseIsSweepFromStart(adj, dir, p);
    SweepKeepsSolution(adj, dir, 0, p, sigma);
  }
}
