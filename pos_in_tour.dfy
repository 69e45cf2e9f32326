/**
 * The tour-position reactor: a propagator linking a directed graph variable, whose
 * solutions are Hamiltonian paths from node 0 to node n-1, to one integer variable per
 * node holding that node's position along the path. It enforces the arc rules and
 * bounds every position by breadth-first distances from node 0 (lower bounds) and to
 * node n-1 (upper bounds), optionally one strongly connected component at a time.
 */
module PosInTour {
  import opened Domains
  import opened Graphs
  import opened Traversal
  import opened ArcFiltering

  /** The kinds of coarse propagation a propagation mask asks for. */
  datatype PropagationEvent = FullPropagation | CustomPropagation

  /** The events of the graph variable the reactor watches. */
  datatype GraphEventType = EnforceArc | RemoveArc

  /** The events of any watched variable that wake the reactor: arc events and bound changes. */
  function PropagationConditions(vIdx: nat): (r: (set<GraphEventType>, set<IntEventType>))
    ensures forall e: GraphEventType :: e in r.0 <==> e.EnforceArc? || e.RemoveArc?
    ensures forall e: IntEventType :: e in r.1 <==> !e.Remove? && !e.Instantiate?
  {
    ({RemoveArc, EnforceArc}, {DecUpp, IncLow})
  }

  /** The coarse propagations the reactor answers. */
  function CoarsePropagationConditions(): (r: set<PropagationEvent>)
    ensures forall e: PropagationEvent :: e in r <==> e.FullPropagation? || e.CustomPropagation?
  {
    {FullPropagation, CustomPropagation}
  }

  /**
   * The condensation the reactor may be given: none, or the component of every node
   * and the graph between components (both maintained by other propagators).
   */
  datatype Condensed = Uncondensed | Condensed(sccOf: seq<int>, rg: seq<set<nat>>)

  ghost predicate ValidCondensed(c: Condensed, n: nat)
  {
    c.Condensed? ==> IsSccMap(c.sccOf, n, c.rg) && Acyclic(c.rg)
  }

  //***********************************************************************************
  // WHAT A PROPAGATION COMPUTES
  //***********************************************************************************

  /** One traversal: the plain breadth-first one, or the one by components. */
  ghost function TraverseIn(adj: seq<set<nat>>, c: Condensed, dir: Direction, p: seq<IntDom>): (r: Outcome<seq<IntDom>>)
    requires IsGraph(adj) && |adj| > 0 && ValidCondensed(c, |adj|) && |p| == |adj| && AllValid(p)
    ensures r.Ok? ==> |r.value| == |p| && AllValid(r.value)
  {
    if c.Uncondensed? then Traverse(adj, dir, p) else TraverseScc(adj, dir, c.sccOf, c.rg, p)
  }

  /** The forward traversal from node 0, then the backward one from node n-1. */
  ghost function Traversals(adj: seq<set<nat>>, c: Condensed, p: seq<IntDom>): (r: Outcome<seq<IntDom>>)
    requires IsGraph(adj) && |adj| > 0 && ValidCondensed(c, |adj|) && |p| == |adj| && AllValid(p)
    ensures r.Ok? ==> |r.value| == |p| && AllValid(r.value)
  {
    match TraverseIn(adj, c, Forward, p)
    case Contradiction => Contradiction
    case Ok(p1) => TraverseIn(adj, c, Backward, p1)
  }

  /** A coarse propagation: the arc pass when full propagation is asked for, then the traversals. */
  ghost function Propagation(kernel: seq<set<nat>>, envelope: seq<set<nat>>, c: Condensed, full: bool,
                             p: seq<IntDom>): (r: Outcome<seq<IntDom>>)
    requires IsGraph(envelope) && |envelope| > 0 && |kernel| == |envelope| && ValidCondensed(c, |envelope|)
    requires |p| == |envelope| && AllValid(p)
    ensures r.Ok? ==> |r.value| == |p| && AllValid(r.value)
  {
    if !full then Traversals(envelope, c, p)
    else
      match ArcPass(p, kernel, envelope, 0)
      case Contradiction => Contradiction
      case Ok(p1) => Traversals(envelope, c, p1)
  }

  /**
   * A propagation on an event of variable `idx`: for the graph variable (index 0) the
   * enforced arcs, then the removed arcs, are replayed; then the traversals run.
   */
  ghost function IncrementalPropagation(envelope: seq<set<nat>>, c: Condensed, idx: nat, enforced: seq<Arc>,
                                        removed: seq<Arc>, p: seq<IntDom>): (r: Outcome<seq<IntDom>>)
    requires IsGraph(envelope) && |envelope| > 0 && ValidCondensed(c, |envelope|)
    requires |p| == |envelope| && AllValid(p) && ArcsIn(enforced, |p|) && ArcsIn(removed, |p|)
    ensures r.Ok? ==> |r.value| == |p| && AllValid(r.value)
  {
    if idx != 0 then Traversals(envelope, c, p)
    else
      match ReplayEnforced(p, enforced)
      case Contradiction => Contradiction
      case Ok(p1) =>
        match ReplayRemoved(p1, removed)
        case Contradiction => Contradiction
        case Ok(p2) => Traversals(envelope, c, p2)
  }

  /** A traversal only shrinks domains. */
  lemma TraverseInNarrows(adj: seq<set<nat>>, c: Condensed, dir: Direction, p: seq<IntDom>)
    requires IsGraph(adj) && |adj| > 0 && ValidCondensed(c, |adj|) && |p| == |adj| && AllValid(p)
    ensures TraverseIn(adj, c, dir, p).Ok? ==> NarrowsAll(p, TraverseIn(adj, c, dir, p).value)
  {
    if c.Uncondensed? {
      TraverseNarrows(adj, dir, p);
    } else {
      TraverseSccNarrows(adj, dir, c.sccOf, c.rg, p);
    }
  }

  /** Both traversals together only shrink domains. */
  lemma TraversalsNarrow(adj: seq<set<nat>>, c: Condensed, p: seq<IntDom>)
    requires IsGraph(adj) && |adj| > 0 && ValidCondensed(c, |adj|) && |p| == |adj| && AllValid(p)
    ensures Traversals(adj, c, p).Ok? ==> NarrowsAll(p, Traversals(adj, c, p).value)
  {
    TraverseInNarrows(adj, c, Forward, p);
    var r1 := TraverseIn(adj, c, Forward, p);
    if r1.Ok? {
      TraverseInNarrows(adj, c, Backward, r1.value);
    }
  }

  /** A coarse propagation only shrinks domains: it never adds a position back. */
  lemma PropagationNarrows(kernel: seq<set<nat>>, envelope: seq<set<nat>>, c: Condensed, full: bool, p: seq<IntDom>)
    requires IsGraph(envelope) && |envelope| > 0 && |kernel| == |envelope| && ValidCondensed(c, |envelope|)
    requires |p| == |envelope| && AllValid(p)
    ensures Propagation(kernel, envelope, c, full, p).Ok? ==> NarrowsAll(p, Propagation(kernel, envelope, c, full, p).value)
  {
    if !full {
      TraversalsNarrow(envelope, c, p);
    } else {
      var r1 := ArcPass(p, kernel, envelope, 0);
      if r1.Ok? {
        TraversalsNarrow(envelope, c, r1.value);
      }
    }
  }

  /** An incremental propagation only shrinks domains. */
  lemma IncrementalPropagationNarrows(envelope: seq<set<nat>>, c: Condensed, idx: nat, enforced: seq<Arc>,
                                      removed: seq<Arc>, p: seq<IntDom>)
    requires IsGraph(envelope) && |envelope| > 0 && ValidCondensed(c, |envelope|)
    requires |p| == |envelope| && AllValid(p) && ArcsIn(enforced, |p|) && ArcsIn(removed, |p|)
    ensures IncrementalPropagation(envelope, c, idx, enforced, removed, p).Ok? ==>
              NarrowsAll(p, IncrementalPropagation(envelope, c, idx, enforced, removed, p).value)
  {
    if idx != 0 {
      TraversalsNarrow(envelope, c, p);
    } else {
      var r1 := ReplayEnforced(p, enforced);
      if r1.Ok? {
        var r2 := ReplayRemoved(r1.value, removed);
        if r2.Ok? {
          TraversalsNarrow(envelope, c, r2.value);
        }
      }
    }
  }

  /** Both plain traversals keep every solution when no arc leads into node 0 or out of node n-1. */
  lemma TraversalsSound(envelope: seq<set<nat>>, v: seq<nat>, sigma: seq<int>, p: seq<IntDom>)
    requires IsGraph(envelope) && IsTour(envelope, v) && IsPositions(v, sigma)
    requires NoArcIntoStart(envelope, Forward) && NoArcIntoStart(envelope, Backward)
    requires |p| == |envelope| && AllValid(p) && Within(p, sigma)
    ensures Traversals(envelope, Uncondensed, p).Ok? && Within(Traversals(envelope, Uncondensed, p).value, sigma)
  {
    TraverseKeepsTour(envelope, Forward, v, sigma, p);
    TraverseKeepsTour(envelope, Backward, v, sigma, Traverse(envelope, Forward, p).value);
  }

  /**
   * Soundness of a coarse propagation without a condensation: it never fails and never
   * removes a position assignment of a Hamiltonian path that takes every kernel arc.
   */
  lemma PropagationSound(kernel: seq<set<nat>>, envelope: seq<set<nat>>, full: bool, v: seq<nat>, sigma: seq<int>,
                         p: seq<IntDom>)
    requires IsGraph(envelope) && IsSolution(kernel, envelope, v, sigma)
    requires NoArcIntoStart(envelope, Forward) && NoArcIntoStart(envelope, Backward)
    requires |p| == |envelope| && AllValid(p) && Within(p, sigma)
    ensures Propagation(kernel, envelope, Uncondensed, full, p).Ok?
    ensures Within(Propagation(kernel, envelope, Uncondensed, full, p).value, sigma)
  {
    if full {
      ArcPassSound(p, kernel, envelope, 0, v, sigma);
      TraversalsSound(envelope, v, sigma, ArcPass(p, kernel, envelope, 0).value);
    } else {
      TraversalsSound(envelope, v, sigma, p);
    }
  }

  /**
   * Soundness of an incremental propagation without a condensation, when the replayed
   * arcs are now in the kernel, respectively out of the envelope.
   */
  lemma IncrementalPropagationSound(kernel: seq<set<nat>>, envelope: seq<set<nat>>, idx: nat, enforced: seq<Arc>,
                                    removed: seq<Arc>, v: seq<nat>, sigma: seq<int>, p: seq<IntDom>)
    requires IsGraph(envelope) && IsSolution(kernel, envelope, v, sigma)
    requires NoArcIntoStart(envelope, Forward) && NoArcIntoStart(envelope, Backward)
    requires |p| == |envelope| && AllValid(p) && Within(p, sigma)
    requires ArcsIn(enforced, |p|) && ArcsIn(removed, |p|)
    requires forall k :: 0 <= k < |enforced| ==> enforced[k].to in kernel[enforced[k].from]
    requires forall k :: 0 <= k < |removed| ==> removed[k].to !in envelope[removed[k].from]
    ensures IncrementalPropagation(envelope, Uncondensed, idx, enforced, removed, p).Ok?
    ensures Within(IncrementalPropagation(envelope, Uncondensed, idx, enforced, removed, p).value, sigma)
  {
    if idx == 0 {
      ReplayEnforcedSound(p, enforced, kernel, envelope, v, sigma);
      var p1 := ReplayEnforced(p, enforced).value;
      ReplayRemovedSound(p1, removed, kernel, envelope, v, sigma);
      TraversalsSound(envelope, v, sigma, ReplayRemoved(p1, removed).value);
    } else {
      TraversalsSound(envelope, v, sigma, p);
    }
  }

  //***********************************************************************************
  // FRONTIER LISTS
  //***********************************************************************************

  ghost function Elems(s: seq<nat>): set<nat>
  {
    set x | x in s
  }

  predicate Distinct(s: seq<nat>)
  {
    forall i, j :: 0 <= i < j < |s| ==> s[i] != s[j]
  }

  /** A list without repetitions has as many elements as its set. */
  lemma {:induction false} DistinctCard(s: seq<nat>)
    requires Distinct(s)
    ensures |Elems(s)| == |s|
  {
    if s != [] {
      var t := s[..|s| - 1];
      assert Distinct(t);
      DistinctCard(t);
      assert Elems(s) == Elems(t) + {s[|s| - 1]};
      assert s[|s| - 1] !in Elems(t);
    }
  }

  /** The elements of `s` below `lo`. */
  ghost function Below(s: set<nat>, lo: nat): set<nat>
  {
    set k | k in s && k < lo
  }

  /** Whether node j stays in the current component's frontier chain. */
  predicate KeepsNode(sccOf: seq<int>, split: bool, scc: int, j: nat)
  {
    !split || (j < |sccOf| && sccOf[j] == scc)
  }

  /** The nodes of S that stay in the current component's frontier chain. */
  function Kept(sccOf: seq<int>, split: bool, scc: int, S: set<nat>): (r: set<nat>)
    ensures forall j :: j in r <==> j in S && KeepsNode(sccOf, split, scc, j)
  {
    if split then SameScc(sccOf, scc, S) else S
  }

  lemma KeptAdd(sccOf: seq<int>, split: bool, scc: int, S: set<nat>, j: nat)
    ensures Kept(sccOf, split, scc, S + {j}) ==
            Kept(sccOf, split, scc, S) + (if KeepsNode(sccOf, split, scc, j) then {j} else {})
  {
  }

  /** Scanning the neighbours of A, then of B, keeps and sets aside what scanning both at once would. */
  lemma KeptUnion(sccOf: seq<int>, split: bool, scc: int, A: set<nat>, B: set<nat>, D: set<nat>)
    ensures Kept(sccOf, split, scc, A - D) + Kept(sccOf, split, scc, B - (D + A)) ==
            Kept(sccOf, split, scc, (A + B) - D)
    ensures (A - D - Kept(sccOf, split, scc, A - D)) + (B - (D + A) - Kept(sccOf, split, scc, B - (D + A))) ==
            (A + B) - D - Kept(sccOf, split, scc, (A + B) - D)
  {
  }

  /**
   * The lists of a neighbour scan that started from `next0`, `other0` and the visited
   * set D0, after the neighbours S were looked at: D holds the visited nodes, and the
   * newly visited ones went to `next` or to `other`, each once.
   */
  ghost predicate ScanState(sccOf: seq<int>, split: bool, scc: int, next0: seq<nat>, other0: seq<nat>, D0: set<nat>,
                            S: set<nat>, next: seq<nat>, other: seq<nat>, D: set<nat>)
  {
    D == D0 + S &&
    Elems(next) == Elems(next0) + Kept(sccOf, split, scc, S - D0) &&
    Elems(other) == Elems(other0) + (S - D0 - Kept(sccOf, split, scc, S - D0)) &&
    Distinct(next) && Distinct(other) && Elems(next) <= D && Elems(other) <= D
  }

  /** A neighbour not yet visited is visited and appended to the list it belongs to. */
  lemma ScanNew(sccOf: seq<int>, split: bool, scc: int, next0: seq<nat>, other0: seq<nat>, D0: set<nat>,
                S: set<nat>, next: seq<nat>, other: seq<nat>, D: set<nat>, j: nat)
    requires ScanState(sccOf, split, scc, next0, other0, D0, S, next, other, D) && j !in D
    ensures KeepsNode(sccOf, split, scc, j) ==>
              ScanState(sccOf, split, scc, next0, other0, D0, S + {j}, next + [j], other, D + {j})
    ensures !KeepsNode(sccOf, split, scc, j) ==>
              ScanState(sccOf, split, scc, next0, other0, D0, S + {j}, next, other + [j], D + {j})
  {
    assert (S + {j}) - D0 == (S - D0) + {j};
    KeptAdd(sccOf, split, scc, S - D0, j);
    assert Elems(next + [j]) == Elems(next) + {j};
    assert Elems(other + [j]) == Elems(other) + {j};
  }

  /** Scanning S1 and then S2 amounts to scanning S1 + S2. */
  lemma ScanCompose(sccOf: seq<int>, split: bool, scc: int, next0: seq<nat>, other0: seq<nat>, D0: set<nat>,
                    S1: set<nat>, next1: seq<nat>, other1: seq<nat>, D1: set<nat>,
                    S2: set<nat>, next2: seq<nat>, other2: seq<nat>, D2: set<nat>)
    requires ScanState(sccOf, split, scc, next0, other0, D0, S1, next1, other1, D1)
    requires ScanState(sccOf, split, scc, next1, other1, D1, S2, next2, other2, D2)
    ensures ScanState(sccOf, split, scc, next0, other0, D0, S1 + S2, next2, other2, D2)
  {
    KeptUnion(sccOf, split, scc, S1, S2, D0);
    assert S2 - D1 == S2 - (D0 + S1);
  }

  /** A scan from empty lists that splits by component keeps exactly the new nodes of component scc. */
  lemma ScanSplit(sccOf: seq<int>, scc: int, other0: seq<nat>, D0: set<nat>, S: set<nat>,
                  next: seq<nat>, other: seq<nat>, D1: set<nat>)
    requires ScanState(sccOf, true, scc, [], other0, D0, S, next, other, D1)
    ensures Elems(next) == SameScc(sccOf, scc, S - D0)
    ensures D1 == D0 + (S - D0)
    ensures Elems(other) == Elems(other0) + ((S - D0) - SameScc(sccOf, scc, S - D0))
  {
    var none: seq<nat> := [];
    assert Elems(none) == {};
  }

  /**
   * One layer of the inner loop of `BFS_RG`: narrowing the frontier and scanning its
   * neighbours is one step of the component's traversal, and the traversal progresses.
   */
  lemma ComponentStep(adj: seq<set<nat>>, dir: Direction, sccOf: seq<int>, scc: int, F: set<nat>, st: SccState,
                      p1: seq<IntDom>, other0: seq<nat>, next: seq<nat>, other: seq<nat>, D1: set<nat>, k: int)
    requires IsGraph(adj) && |sccOf| == |adj| && ValidSccState(adj, st) && F <= Nodes(|adj|) && F != {} && k == |F|
    requires NarrowAll(st.pos, F, dir, st.level) == Ok(p1) && Elems(other0) == st.other
    requires ScanState(sccOf, true, scc, [], other0, st.done, Frontier(adj, dir, F), next, other, D1)
    ensures InnerStep(adj, dir, sccOf, scc, F, st) ==
            Ok(InnerMove(Elems(next), SccState(p1, D1, Elems(other), st.level + Step(dir), st.count + Advance(dir, k))))
  {
    var N := Frontier(adj, dir, F) - st.done;
    var same := SameScc(sccOf, scc, N);
    ScanSplit(sccOf, scc, other0, st.done, Frontier(adj, dir, F), next, other, D1);
    assert InnerStep(adj, dir, sccOf, scc, F, st) ==
           Ok(InnerMove(same, SccState(p1, st.done + N, st.other + (N - same), st.level + Step(dir), st.count + Advance(dir, |F|))));
  }

  /** A neighbour already visited changes nothing. */
  lemma ScanSeen(sccOf: seq<int>, split: bool, scc: int, next0: seq<nat>, other0: seq<nat>, D0: set<nat>,
                 S: set<nat>, next: seq<nat>, other: seq<nat>, D: set<nat>, j: nat)
    requires ScanState(sccOf, split, scc, next0, other0, D0, S, next, other, D) && j in D && j !in S
    ensures ScanState(sccOf, split, scc, next0, other0, D0, S + {j}, next, other, D)
  {
    assert (S + {j}) - D0 == S - D0;
  }

  //***********************************************************************************
  // VARIABLES SHARED WITH OTHER PROPAGATORS
  //***********************************************************************************

  /** The graph variable: arcs surely in the path (`kernel`) and arcs possibly in it (`envelope`). */
  class DirectedGraphVar {
    var kernel: seq<set<nat>>
    var envelope: seq<set<nat>>

    constructor (kernel: seq<set<nat>>, envelope: seq<set<nat>>)
      ensures this.kernel == kernel && this.envelope == envelope
    {
      this.kernel := kernel;
      this.envelope := envelope;
    }
  }

  /** The strongly connected components of the envelope and the graph between them. */
  class Condensation {
    var sccOf: seq<int>
    var rg: seq<set<nat>>

    constructor (sccOf: seq<int>, rg: seq<set<nat>>)
      ensures this.sccOf == sccOf && this.rg == rg
    {
      this.sccOf := sccOf;
      this.rg := rg;
    }
  }

  //***********************************************************************************
  // THE REACTOR
  //***********************************************************************************

  class PropPosInTourGraphReactor {
    const n: nat
    const g: DirectedGraphVar
    const intVars: array<IntDom>
    const done: array<bool>
    const cond: Condensation?

    ghost predicate Valid()
      reads this, g, intVars, cond
    {
      n > 0 && |g.kernel| == |g.envelope| == n && IsGraph(g.envelope) &&
      intVars.Length == n && done.Length == n && AllValid(intVars[..]) &&
      ValidCondensed(Cond(), n)
    }

    ghost function Cond(): Condensed
      reads this, cond
    {
      if cond == null then Uncondensed else Condensed(cond.sccOf, cond.rg)
    }

    /** `done` marks exactly the nodes of D. */
    ghost predicate Marks(D: set<nat>)
      reads this, done
    {
      (forall k :: k in D ==> k < done.Length) &&
      forall k :: 0 <= k < done.Length ==> (done[k] <==> k in D)
    }

    ghost function SccOf(): seq<int>
      reads this, cond
    {
      if cond == null then [] else cond.sccOf
    }

    constructor (intVars: array<IntDom>, graph: DirectedGraphVar)
      requires |graph.kernel| == |graph.envelope| == intVars.Length > 0
      requires IsGraph(graph.envelope) && AllValid(intVars[..])
      ensures Valid() && fresh(done) && cond == null
      ensures g == graph && this.intVars == intVars && n == |graph.envelope|
    {
      g := graph;
      this.intVars := intVars;
      n := |graph.envelope|;
      done := new bool[|graph.envelope|];
      cond := null;
    }

    constructor WithCondensation(intVars: array<IntDom>, graph: DirectedGraphVar, condensation: Condensation)
      requires |graph.kernel| == |graph.envelope| == intVars.Length > 0
      requires IsGraph(graph.envelope) && AllValid(intVars[..])
      requires IsSccMap(condensation.sccOf, |graph.envelope|, condensation.rg) && Acyclic(condensation.rg)
      ensures Valid() && fresh(done) && cond == condensation
      ensures g == graph && this.intVars == intVars && n == |graph.envelope|
    {
      g := graph;
      this.intVars := intVars;
      n := |graph.envelope|;
      done := new bool[|graph.envelope|];
      cond := condensation;
    }

    //---------------------------------------------------------------------------------
    // Traversals
    //---------------------------------------------------------------------------------

    method ClearDone()
      modifies done
      ensures Marks({})
    {
      forall j | 0 <= j < done.Length {
        done[j] := false;
      }
    }

    /** `updateLowerBound(level)` forward, `updateUpperBound(level)` backward, on node x. */
    method SetBound(x: nat, dir: Direction, level: int) returns (ok: bool)
      requires Valid() && x < n
      modifies intVars
      ensures Valid()
      ensures ok == Bound(old(intVars[x]), dir, level).Ok?
      ensures intVars[..] == if ok then old(intVars[..])[x := Bound(old(intVars[x]), dir, level).value]
                             else old(intVars[..])
    {
      if dir == Forward {
        ok := UpdateLowerBound(intVars, x, level);
      } else {
        ok := UpdateUpperBound(intVars, x, level);
      }
    }

    /**
     * The neighbour loop of a traversal, smallest neighbour first: every neighbour of x
     * not yet visited is marked visited and appended to `next`, or to `other` when it
     * belongs to another component than `scc` (only when `split`).
     */
    method ScanNeighbours(x: nat, dir: Direction, split: bool, scc: int, next: seq<nat>, other: seq<nat>,
                          ghost D: set<nat>)
      returns (next': seq<nat>, other': seq<nat>, ghost D': set<nat>)
      requires |g.envelope| == n == done.Length && IsGraph(g.envelope) && x < n && Marks(D)
      requires split ==> cond != null && |cond.sccOf| == n
      requires Distinct(next) && Distinct(other) && Elems(next) <= D && Elems(other) <= D
      modifies done
      ensures Marks(D') && ScanState(SccOf(), split, scc, next, other, D, Nbrs(g.envelope, dir, x), next', other', D')
    {
      var nei := Nbrs(g.envelope, dir, x);
      ghost var lo: nat := 0;
      next', other', D' := next, other, D;
      ghost var sccOf := SccOf();
      var j := FirstFrom(nei, 0, n);
      while j >= 0
        invariant lo <= n && j == FirstFrom(nei, lo, n) && Marks(D')
        invariant ScanState(sccOf, split, scc, next, other, D, Below(nei, lo), next', other', D')
        decreases n - lo
      {
        assert Below(nei, j + 1) == Below(nei, lo) + {j};
        next', other', D' := Visit(j, split, scc, next, other, D, Below(nei, lo), next', other', D');
        lo := j + 1;
        j := FirstFrom(nei, j + 1, n);
      }
      assert Below(nei, lo) == nei;
    }

    /**
     * The body of the neighbour loop for neighbour j: when j is not yet visited, mark it
     * and append it to `next`, or to `other` when it belongs to another component.
     */
    method Visit(j: nat, split: bool, scc: int, next0: seq<nat>, other0: seq<nat>, ghost D0: set<nat>,
                 ghost S: set<nat>, next: seq<nat>, other: seq<nat>, ghost D: set<nat>)
      returns (next': seq<nat>, other': seq<nat>, ghost D': set<nat>)
      requires j < done.Length && j !in S && Marks(D)
      requires split ==> cond != null && |cond.sccOf| == done.Length
      requires ScanState(SccOf(), split, scc, next0, other0, D0, S, next, other, D)
      modifies done
      ensures Marks(D') && ScanState(SccOf(), split, scc, next0, other0, D0, S + {j}, next', other', D')
    {
      next', other', D' := next, other, D;
      if !done[j] {
        ScanNew(SccOf(), split, scc, next0, other0, D0, S, next, other, D, j);
        D' := Mark(j, D);
        if !split || cond.sccOf[j] == scc {
          next' := next + [j];
        } else {
          other' := other + [j];
        }
      } else {
        ScanSeen(SccOf(), split, scc, next0, other0, D0, S, next, other, D, j);
      }
    }

    /** Marks node j as visited. */
    method Mark(j: nat, ghost D: set<nat>) returns (ghost D': set<nat>)
      requires j < done.Length && Marks(D)
      modifies done
      ensures D' == D + {j} && Marks(D')
    {
      done[j] := true;
      D' := D + {j};
    }

    /**
     * One frontier of a traversal, last node first: set each node's bound to `level`
     * and scan its neighbours.
     */
    method ExpandFrontier(cur: seq<nat>, level: int, dir: Direction, split: bool, scc: int, other: seq<nat>,
                          ghost D: set<nat>)
      returns (ok: bool, next: seq<nat>, other': seq<nat>, ghost D': set<nat>)
      requires Valid() && (split ==> cond != null) && Marks(D)
      requires Elems(cur) <= Nodes(n) && Distinct(cur)
      requires Distinct(other) && Elems(other) <= D
      modifies intVars, done
      ensures Valid()
      ensures ok == NarrowAll(old(intVars[..]), Elems(cur), dir, level).Ok?
      ensures ok ==> intVars[..] == NarrowAll(old(intVars[..]), Elems(cur), dir, level).value
      ensures ok ==> Marks(D') &&
                     ScanState(SccOf(), split, scc, [], other, D, Frontier(g.envelope, dir, Elems(cur)), next, other', D')
    {
      ghost var p0 := intVars[..];
      ghost var sccOf := SccOf();
      next, other', D' := [], other, D;
      var i := |cur|;
      ghost var P: set<nat> := {};
      ghost var Fr: set<nat> := {};
      NarrowAllEmpty(p0, dir, level);
      FrontierOfEmpty(g.envelope, dir);
      assert Elems(cur[i..]) == {};
      assert ScanState(sccOf, split, scc, [], other, D, Fr, next, other', D');
      while i > 0
        invariant 0 <= i <= |cur| && Valid() && P == Elems(cur[i..]) && Fr == Frontier(g.envelope, dir, P)
        invariant NarrowAll(p0, P, dir, level).Ok? && intVars[..] == NarrowAll(p0, P, dir, level).value
        invariant Marks(D') && ScanState(sccOf, split, scc, [], other, D, Fr, next, other', D')
      {
        i := i - 1;
        var x := cur[i];
        assert Elems(cur[i..]) == P + {x};
        assert x in Elems(cur);
        ok, next, other', D' := ExpandNode(x, level, dir, split, scc, other, D, p0, P, Fr, next, other', D');
        if !ok {
          return;
        }
        FrontierAdd(g.envelope, dir, P, x);
        P, Fr := P + {x}, Fr + Nbrs(g.envelope, dir, x);
      }
      assert cur[0..] == cur;
      ok := true;
    }

    /** The body of the loop over a frontier, for node x: set its bound to `level`, then scan its neighbours. */
    method ExpandNode(x: nat, level: int, dir: Direction, split: bool, scc: int, other0: seq<nat>, ghost D0: set<nat>,
                      ghost p0: seq<IntDom>, ghost P: set<nat>, ghost Fr: set<nat>,
                      next: seq<nat>, other: seq<nat>, ghost D: set<nat>)
      returns (ok: bool, next': seq<nat>, other': seq<nat>, ghost D': set<nat>)
      requires Valid() && (split ==> cond != null) && x < n && x !in P && AllValid(p0) && |p0| == n
      requires NarrowAll(p0, P, dir, level).Ok? && intVars[..] == NarrowAll(p0, P, dir, level).value
      requires Marks(D) && ScanState(SccOf(), split, scc, [], other0, D0, Fr, next, other, D)
      modifies intVars, done
      ensures Valid()
      ensures ok == Bound(p0[x], dir, level).Ok?
      ensures ok ==> NarrowAll(p0, P + {x}, dir, level).Ok? && intVars[..] == NarrowAll(p0, P + {x}, dir, level).value
      ensures ok ==> Marks(D') &&
                     ScanState(SccOf(), split, scc, [], other0, D0, Fr + Nbrs(g.envelope, dir, x), next', other', D')
    {
      NarrowAllAdd(p0, P, x, dir, level);
      next', other', D' := next, other, D;
      ok := SetBound(x, dir, level);
      if !ok {
        return;
      }
      next', other', D' := ScanNeighbours(x, dir, split, scc, next, other, D);
      ScanCompose(SccOf(), split, scc, [], other0, D0, Fr, next, other, D, Nbrs(g.envelope, dir, x), next', other', D');
    }

    /**
     * One pass of the loop of `BFS` and `BFSfromEnd`: narrow the current layer `cur`
     * and collect the neighbours not yet visited as the next layer.
     */
    method ExpandLayer(dir: Direction, cur: seq<nat>, level: int, ghost D: set<nat>)
      returns (ok: bool, next: seq<nat>, ghost D': set<nat>)
      requires Valid() && Marks(D) && D <= Nodes(n) && Distinct(cur) && Elems(cur) <= Nodes(n) && cur != []
      modifies intVars, done
      ensures Valid()
      ensures !ok ==> Sweep(g.envelope, dir, Elems(cur), D, level, old(intVars[..])).Contradiction?
      ensures ok ==> Marks(D') && D' <= Nodes(n) && Distinct(next) && Elems(next) <= Nodes(n)
      ensures ok ==> Sweep(g.envelope, dir, Elems(cur), D, level, old(intVars[..])) ==
                     Sweep(g.envelope, dir, Elems(next), D', level + Step(dir), intVars[..])
      ensures ok ==> Nodes(n) - D' < Nodes(n) - D || (Nodes(n) - D' == Nodes(n) - D && Elems(next) < Elems(cur))
    {
      ghost var F := Elems(cur);
      ghost var p0 := intVars[..];
      assert cur[0] in F;
      var other;
      ok, next, other, D' := ExpandFrontier(cur, level, dir, false, 0, [], D);
      if !ok {
        SweepStep(g.envelope, dir, F, D, level, p0);
        return;
      }
      assert D' <= Nodes(n) && Elems(next) <= Nodes(n) &&
             Sweep(g.envelope, dir, F, D, level, p0) ==
             Sweep(g.envelope, dir, Elems(next), D', level + Step(dir), intVars[..]) &&
             (Nodes(n) - D' < Nodes(n) - D || (Nodes(n) - D' == Nodes(n) - D && Elems(next) < F)) by {
        SweepStep(g.envelope, dir, F, D, level, p0);
        assert Elems(next) == Frontier(g.envelope, dir, F) - D;
        assert D' == D + Frontier(g.envelope, dir, F);
        SweepDecreases(g.envelope, D, F, Elems(next));
      }
    }

    /**
     * `BFS` (forward) and `BFSfromEnd` (backward): the plain breadth-first traversal,
     * one frontier per level.
     */
    method BreadthFirst(dir: Direction) returns (ok: bool)
      requires Valid()
      modifies intVars, done
      ensures Valid()
      ensures ok == Traverse(g.envelope, dir, old(intVars[..])).Ok?
      ensures ok ==> intVars[..] == Traverse(g.envelope, dir, old(intVars[..])).value
    {
      ClearDone();
      ghost var D: set<nat> := {};
      var x := Start(dir, n);
      var nextSet := [x];
      var level := StartLevel(dir, n);
      assert Elems(nextSet) == {x};
      while |nextSet| > 0
        invariant Valid() && Marks(D) && D <= Nodes(n) && Distinct(nextSet) && Elems(nextSet) <= Nodes(n)
        invariant Sweep(g.envelope, dir, Elems(nextSet), D, level, intVars[..])
                  == Traverse(g.envelope, dir, old(intVars[..]))
        decreases Nodes(n) - D, Elems(nextSet)
      {
        var currentSet := nextSet;
        ok, nextSet, D := ExpandLayer(dir, currentSet, level, D);
        if !ok {
          return;
        }
        level := level + Step(dir);
      }
      assert Elems(nextSet) == {};
      ok := true;
    }

    /**
     * One pass of the inner loop of `BFS_RG` and `BFSfromEnd_RG`: narrow the current
     * layer `cur` of component `scc`, count its nodes and scan their neighbours.
     */
    method ExpandComponentLayer(dir: Direction, scc: int, cur: seq<nat>, others: seq<nat>, level: int, nbNode: int,
                                ghost D: set<nat>)
      returns (ok: bool, next: seq<nat>, others': seq<nat>, ghost D': set<nat>)
      requires Valid() && cond != null && Marks(D) && D <= Nodes(n)
      requires Distinct(cur) && Elems(cur) <= Nodes(n) && Elems(cur) != {} && Distinct(others) && Elems(others) <= D
      modifies intVars, done
      ensures Valid()
      ensures ok == InnerStep(g.envelope, dir, cond.sccOf, scc, Elems(cur),
                              SccState(old(intVars[..]), D, Elems(others), level, nbNode)).Ok?
      ensures ok ==> Marks(D') && Distinct(next) && Distinct(others') && Elems(others') <= D'
      ensures ok ==> InnerStep(g.envelope, dir, cond.sccOf, scc, Elems(cur),
                               SccState(old(intVars[..]), D, Elems(others), level, nbNode)) ==
                     Ok(InnerMove(Elems(next),
                                  SccState(intVars[..], D', Elems(others'), level + Step(dir), nbNode + Advance(dir, |cur|))))
    {
      ghost var st := SccState(intVars[..], D, Elems(others), level, nbNode);
      ok, next, others', D' := ExpandFrontier(cur, level, dir, true, scc, others, D);
      if ok {
        DistinctCard(cur);
        ComponentStep(g.envelope, dir, cond.sccOf, scc, Elems(cur), st, intVars[..], others, next, others', D', |cur|);
      }
    }

    /**
     * The inner loop of `BFS_RG` and `BFSfromEnd_RG`: traverse the nodes of component
     * `scc` layer by layer from `nextSet`, setting aside the visited nodes of other
     * components in `nextSccNodes`.
     */
    method SweepComponent(dir: Direction, scc: int, nextSet: seq<nat>, level: int, nbNode: int, ghost D: set<nat>)
      returns (ok: bool, nextSccNodes: seq<nat>, level': int, nbNode': int, ghost D': set<nat>)
      requires Valid() && cond != null && Marks(D) && D <= Nodes(n)
      requires Distinct(nextSet) && Elems(nextSet) <= Nodes(n)
      modifies intVars, done
      ensures Valid()
      ensures ok == InnerSweep(g.envelope, dir, cond.sccOf, scc, Elems(nextSet),
                               SccState(old(intVars[..]), D, {}, level, nbNode)).Ok?
      ensures ok ==> Marks(D') && Distinct(nextSccNodes) &&
                     InnerSweep(g.envelope, dir, cond.sccOf, scc, Elems(nextSet),
                                SccState(old(intVars[..]), D, {}, level, nbNode)).value ==
                     SccState(intVars[..], D', Elems(nextSccNodes), level', nbNode')
    {
      ghost var goal := InnerSweep(g.envelope, dir, cond.sccOf, scc, Elems(nextSet),
                                   SccState(intVars[..], D, {}, level, nbNode));
      var frontier := nextSet;
      nextSccNodes, level', nbNode', D' := [], level, nbNode, D;
      assert Elems(nextSccNodes) == {};
      while |frontier| > 0
        invariant Valid() && Marks(D') && D' <= Nodes(n)
        invariant Distinct(frontier) && Elems(frontier) <= Nodes(n)
        invariant Distinct(nextSccNodes) && Elems(nextSccNodes) <= D'
        invariant InnerSweep(g.envelope, dir, cond.sccOf, scc, Elems(frontier),
                             SccState(intVars[..], D', Elems(nextSccNodes), level', nbNode')) == goal
        decreases Nodes(n) - D', Elems(frontier)
      {
        var currentSet := frontier;
        assert currentSet[0] in Elems(currentSet);
        ghost var st := SccState(intVars[..], D', Elems(nextSccNodes), level', nbNode');
        ok, frontier, nextSccNodes, D' := ExpandComponentLayer(dir, scc, currentSet, nextSccNodes, level', nbNode', D');
        if !ok {
          InnerSweepFails(g.envelope, dir, cond.sccOf, scc, Elems(currentSet), st);
          return;
        }
        ghost var st' := SccState(intVars[..], D', Elems(nextSccNodes), level' + Step(dir), nbNode' + Advance(dir, |currentSet|));
        InnerSweepAdvances(g.envelope, dir, cond.sccOf, scc, Elems(currentSet), st, Elems(frontier), st');
        assert InnerSweep(g.envelope, dir, cond.sccOf, scc, Elems(frontier), st') == goal;
        // nbNode counts the nodes narrowed so far, one per node of the layer
        nbNode' := nbNode' + Advance(dir, |currentSet|);
        level' := level' + Step(dir);
        assert st' == SccState(intVars[..], D', Elems(nextSccNodes), level', nbNode');
      }
      assert Elems(frontier) == {};
      ok := true;
    }

    /**
     * `BFS_RG` (forward) and `BFSfromEnd_RG` (backward): the traversal one strongly
     * connected component at a time. Nodes of other components are set aside for the
     * next component along the condensation graph, which starts at the level given by
     * the number of nodes narrowed so far.
     */
    method BreadthFirstByScc(dir: Direction) returns (ok: bool)
      requires Valid() && cond != null
      modifies intVars, done
      ensures Valid()
      ensures ok == TraverseScc(g.envelope, dir, cond.sccOf, cond.rg, old(intVars[..])).Ok?
      ensures ok ==> intVars[..] == TraverseScc(g.envelope, dir, cond.sccOf, cond.rg, old(intVars[..])).value
    {
      ClearDone();
      ghost var D: set<nat> := {};
      ghost var rank := ChooseRank(cond.rg);
      ghost var goal := TraverseScc(g.envelope, dir, cond.sccOf, cond.rg, old(intVars[..]));
      var x := Start(dir, n);
      var nextSet := [x];
      var level := StartLevel(dir, n);
      var nbNode := level;
      var scc := cond.sccOf[x];
      assert Elems(nextSet) == {x};
      while scc != -1
        invariant Valid() && Marks(D) && D <= Nodes(n) && -1 <= scc < |cond.rg|
        invariant Distinct(nextSet) && Elems(nextSet) <= Nodes(n) && level == nbNode
        invariant SccSweep(g.envelope, dir, cond.sccOf, cond.rg, rank, scc, Elems(nextSet),
                           SccState(intVars[..], D, {}, level, nbNode)) == goal
        decreases SccMeasure(dir, cond.rg, rank, scc)
      {
        var nextSccNodes;
        ok, nextSccNodes, level, nbNode, D := SweepComponent(dir, scc, nextSet, level, nbNode, D);
        if !ok {
          return;
        }
        scc := NextScc(cond.rg, dir, scc);
        nextSet := nextSccNodes;
        if (dir == Forward && level > nbNode) || (dir == Backward && level < nbNode) {
          // BFS_RG throws an UnsupportedOperationException here; level never exceeds nbNode
          assert false;
        }
        level := nbNode;
      }
      ok := true;
    }

    /** `graphTrasversal`: both traversals, by components when a condensation is given. */
    method GraphTraversal() returns (ok: bool)
      requires Valid()
      modifies intVars, done
      ensures Valid()
      ensures ok == Traversals(g.envelope, Cond(), old(intVars[..])).Ok?
      ensures ok ==> intVars[..] == Traversals(g.envelope, Cond(), old(intVars[..])).value
    {
      if cond == null {
        ok := BreadthFirst(Forward);
        if ok {
          ok := BreadthFirst(Backward);
        }
      } else {
        ok := BreadthFirstByScc(Forward);
        if ok {
          ok := BreadthFirstByScc(Backward);
        }
      }
    }

    //*********************************************************************************
    // ARC PROCEDURES
    //*********************************************************************************

    /** `enfArc(from, to)`. */
    method EnfArc(from: nat, to: nat) returns (ok: bool)
      requires Valid() && from < n && to < n
      modifies intVars
      ensures Valid()
      ensures ok == ArcEnforced(old(intVars[..]), from, to).Ok?
      ensures ok ==> intVars[..] == ArcEnforced(old(intVars[..]), from, to).value
    {
      ok := UpdateUpperBound(intVars, from, intVars[to].ub - 1);
      if ok {
        ok := UpdateLowerBound(intVars, to, intVars[from].lb + 1);
      }
    }

    /** `remArc(from, to)`. */
    method RemArc(from: nat, to: nat) returns (ok: bool)
      requires Valid() && from < n && to < n
      modifies intVars
      ensures Valid()
      ensures ok == ArcRemoved(old(intVars[..]), from, to).Ok?
      ensures ok ==> intVars[..] == ArcRemoved(old(intVars[..]), from, to).value
    {
      ok := true;
      if from != to {
        if Instantiated(intVars[from]) {
          ok := RemoveValue(intVars, to, intVars[from].lb + 1);
        }
        if ok && Instantiated(intVars[to]) {
          ok := RemoveValue(intVars, from, intVars[to].lb - 1);
        }
      }
    }

    /**
     * The arc pass of a full propagation: for every node i in increasing order, enforce
     * the arc to its first kernel successor or, when it has none, remove every arc
     * from i that the envelope lacks.
     */
    method FilterArcs() returns (ok: bool)
      requires Valid()
      modifies intVars
      ensures Valid()
      ensures ok == ArcPass(old(intVars[..]), g.kernel, g.envelope, 0).Ok?
      ensures ok ==> intVars[..] == ArcPass(old(intVars[..]), g.kernel, g.envelope, 0).value
    {
      ghost var goal := ArcPass(intVars[..], g.kernel, g.envelope, 0);
      var i := 0;
      while i < n
        invariant 0 <= i <= n && Valid()
        invariant ThenArcPass(Ok(intVars[..]), g.kernel, g.envelope, i) == goal
      {
        ghost var si := intVars[..];
        var s := FirstFrom(g.kernel[i], 0, n);
        if s == -1 {
          var j := 0;
          while j < n
            invariant 0 <= j <= n && Valid()
            invariant RemoveNonArcs(intVars[..], i, g.envelope[i], j) == RemoveNonArcs(si, i, g.envelope[i], 0)
          {
            if j !in g.envelope[i] {
              ok := RemArc(i, j);
              if !ok {
                return;
              }
            }
            j := j + 1;
          }
        } else {
          ok := EnfArc(i, s);
          if !ok {
            return;
          }
        }
        assert ArcStep(si, g.kernel, g.envelope, i) == Ok(intVars[..]);
        i := i + 1;
      }
      ok := true;
    }

    //*********************************************************************************
    // PROPAGATION
    //*********************************************************************************

    /** `propagate(evtmask)`: the arc pass when the mask asks for full propagation, then the traversals. */
    method Propagate(mask: set<PropagationEvent>) returns (ok: bool)
      requires Valid()
      modifies intVars, done
      ensures Valid()
      ensures ok == Propagation(g.kernel, g.envelope, Cond(), FullPropagation in mask, old(intVars[..])).Ok?
      ensures ok ==> intVars[..] == Propagation(g.kernel, g.envelope, Cond(), FullPropagation in mask, old(intVars[..])).value
    {
      ok := true;
      if FullPropagation in mask {
        ok := FilterArcs();
      }
      if ok {
        ok := GraphTraversal();
      }
    }

    /** `gdm.forEachArc(arcEnforced, ENFORCEARC)`: `enfArc` for every newly enforced arc, in order. */
    method ReplayEnforcedArcs(enforced: seq<Arc>) returns (ok: bool)
      requires Valid() && ArcsIn(enforced, n)
      modifies intVars
      ensures Valid()
      ensures ok == ReplayEnforced(old(intVars[..]), enforced).Ok?
      ensures ok ==> intVars[..] == ReplayEnforced(old(intVars[..]), enforced).value
    {
      ghost var p0 := intVars[..];
      var k := 0;
      while k < |enforced|
        invariant 0 <= k <= |enforced| && Valid()
        invariant ReplayEnforced(intVars[..], enforced[k..]) == ReplayEnforced(p0, enforced)
      {
        assert enforced[k..][1..] == enforced[k + 1..];
        ok := EnfArc(enforced[k].from, enforced[k].to);
        if !ok {
          return;
        }
        k := k + 1;
      }
      ok := true;
    }

    /** `gdm.forEachArc(arcRemoved, REMOVEARC)`: `remArc` for every newly removed arc, in order. */
    method ReplayRemovedArcs(removed: seq<Arc>) returns (ok: bool)
      requires Valid() && ArcsIn(removed, n)
      modifies intVars
      ensures Valid()
      ensures ok == ReplayRemoved(old(intVars[..]), removed).Ok?
      ensures ok ==> intVars[..] == ReplayRemoved(old(intVars[..]), removed).value
    {
      ghost var p0 := intVars[..];
      var k := 0;
      while k < |removed|
        invariant 0 <= k <= |removed| && Valid()
        invariant ReplayRemoved(intVars[..], removed[k..]) == ReplayRemoved(p0, removed)
      {
        assert removed[k..][1..] == removed[k + 1..];
        ok := RemArc(removed[k].from, removed[k].to);
        if !ok {
          return;
        }
        k := k + 1;
      }
      ok := true;
    }

    /**
     * `propagate(idxVarInProp, mask)`: on an event of the graph variable, replay the
     * newly enforced arcs, then the newly removed ones; then propagate again, which,
     * without the full-propagation flag, runs the traversals.
     */
    method PropagateOn(idx: nat, enforced: seq<Arc>, removed: seq<Arc>) returns (ok: bool)
      requires Valid() && ArcsIn(enforced, n) && ArcsIn(removed, n)
      modifies intVars, done
      ensures Valid()
      ensures ok == IncrementalPropagation(g.envelope, Cond(), idx, enforced, removed, old(intVars[..])).Ok?
      ensures ok ==> intVars[..] == IncrementalPropagation(g.envelope, Cond(), idx, enforced, removed, old(intVars[..])).value
    {
      if idx == 0 {
        ok := ReplayEnforcedArcs(enforced);
        if !ok {
          return;
        }
        ok := ReplayRemovedArcs(removed);
        if !ok {
          return;
        }
      }
      ok := Propagate({CustomPropagation});
    }

    /** `isEntailed`: the reactor never decides entailment. */
    function IsEntailed(): ESat
    {
      Undefined
    }
  }
}
