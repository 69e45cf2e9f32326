# Four propagators of a constraint solver, in Dafny

This project models four propagators of the choco constraint solver and proves what
they promise. A propagator narrows the domains of the variables of one constraint and
reports a contradiction when a domain would become empty.

- **PropMemberBound** confines one integer variable to a constant interval [lb, ub].
- **PropGreaterOrEqualXY_C** enforces X + Y >= C by raising lower bounds.
- **PropSubsetEq** enforces X ⊆ Y on two set variables (kernel = elements surely in,
  envelope = elements possibly in), fully or by replaying the variables' delta logs.
- **PropPosInTourGraphReactor** links a directed graph variable, whose solutions are
  Hamiltonian paths from node 0 to node n-1, to one integer variable per node holding
  its position on the path. It enforces the arc rules (an arc that must be used puts
  its head right after its tail; an arc that cannot be used forbids that) and bounds
  every position by breadth-first distances from node 0 and to node n-1, either plainly
  or one strongly connected component at a time.

Variables live in stores (`array<IntDom>`, `array<SetDom>`) that propagators refer to
by index; an integer domain is an interval with holes. Every method that changes the
store returns `ok` (false for a contradiction) and is proved equal to a specification
function on values (`Outcome<T> = Ok(value) | Contradiction`). Lemmas then prove
soundness (no solution is removed, no contradiction is raised while a solution remains),
narrowing, idempotence, entailment answers, and equivalence of incremental and full
propagation.

Files: `domains.dfy` (domains and the variable operations the propagators call),
`member_bound.dfy`, `greater_or_equal_xyc.dfy`, `subset_eq.dfy`, and for the reactor
`graphs.dfy` (breadth-first layers and walks), `traversal.dfy` (what the traversals
compute), `arc_filtering.dfy` (the arc rules) and `pos_in_tour.dfy` (the propagator
class and its propagation functions).

Two plain definitions carry no contract of their own: `Graphs.Preds` is the graph
query `getPredecessorsOf` (the nodes with an arc into x), and `Traversal.SameScc` is
the test `sccOf[j] == scc` that routes a visited node of BFS_RG either to the current
component's next layer or to the list kept for the following components.

## Model

| member | source | states |
|---|---|---|
| Domains.NarrowLb | choco-solver/src/main/java/solver/constraints/unary/PropMemberBound.java:61 | updateLowerBound: fails exactly when the bound exceeds the upper bound; otherwise the domain keeps exactly its values >= the bound |
| Domains.NarrowUb | choco-solver/src/main/java/solver/constraints/unary/PropMemberBound.java:62 | updateUpperBound: fails exactly when the bound is below the lower bound; otherwise the domain keeps exactly its values <= the bound |
| Domains.WithoutValue | solver/src/main/java/solver/constraints/propagators/gary/tsp/directed/position/PropPosInTourGraphReactor.java:338 | removeValue: fails exactly when the value is the only one left; otherwise the domain keeps exactly its other values |
| Domains.NextValue | choco-solver/src/main/java/solver/constraints/unary/PropMemberBound.java:61 | the new lower bound is the smallest domain value not below the requested bound |
| Domains.PrevValue | choco-solver/src/main/java/solver/constraints/unary/PropMemberBound.java:62 | the new upper bound is the largest domain value not above the requested bound |
| Domains.IntEventsOf | solver/src/main/java/solver/constraints/propagators/binary/PropGreaterOrEqualXY_C.java:75-86 | the events a narrowing reports: a raised lower bound reports IncLow or Instantiate, a lowered upper bound DecUpp or Instantiate; Instantiate is reported alone and only when the variable becomes fixed |
| Domains.EventsReportChange | solver/src/main/java/solver/constraints/propagators/binary/PropGreaterOrEqualXY_C.java:75-86 | a narrowing reports some event exactly when it changes the domain |
| Domains.BoundEventsReported | choco-solver/src/main/java/solver/constraints/unary/PropMemberBound.java:69-71 | a narrowing that reports no bound or instantiation event leaves both bounds unchanged |
| Domains.UpdateLowerBound | solver/src/main/java/solver/constraints/propagators/binary/PropGreaterOrEqualXY_C.java:67 | the store update fails exactly when NarrowLb does and otherwise replaces only entry i by NarrowLb's result |
| Domains.UpdateUpperBound | solver/src/main/java/solver/constraints/propagators/gary/tsp/directed/position/PropPosInTourGraphReactor.java:265 | the store update fails exactly when NarrowUb does and otherwise replaces only entry i by NarrowUb's result |
| Domains.RemoveValue | solver/src/main/java/solver/constraints/propagators/gary/tsp/directed/position/PropPosInTourGraphReactor.java:341 | the store update fails exactly when WithoutValue does and otherwise replaces only entry i by its result |
| Domains.WithKernel | choco-solver/src/main/java/solver/constraints/set/PropSubsetEq.java:82 | addToKernel: fails exactly when the element is outside the envelope; otherwise the admitted sets are exactly those holding the element |
| Domains.WithoutEnvelope | choco-solver/src/main/java/solver/constraints/set/PropSubsetEq.java:88 | removeFromEnvelope: fails exactly when the element is in the kernel; otherwise the admitted sets are exactly those without the element |
| Domains.AddToKernel | choco-solver/src/main/java/solver/constraints/set/PropSubsetEq.java:108 | the store update fails exactly when WithKernel does and otherwise replaces only entry i |
| Domains.RemoveFromEnvelope | choco-solver/src/main/java/solver/constraints/set/PropSubsetEq.java:112 | the store update fails exactly when WithoutEnvelope does and otherwise replaces only entry i |
| MemberBound.PropagationConditions | choco-solver/src/main/java/solver/constraints/unary/PropMemberBound.java:69-71 | boundAndInst: every event except a removal inside the bounds wakes the propagator |
| MemberBound.Filter | choco-solver/src/main/java/solver/constraints/unary/PropMemberBound.java:59-66 | fails exactly when no value lies in [lb, ub]; otherwise the domain keeps exactly its values in [lb, ub] |
| MemberBound.PropMemberBound.constructor | choco-solver/src/main/java/solver/constraints/unary/PropMemberBound.java:52-56 | stores the variable and the interval; the propagator starts active |
| MemberBound.PropMemberBound.Propagate | choco-solver/src/main/java/solver/constraints/unary/PropMemberBound.java:59-66 | the store becomes Filter's result, or the call fails exactly when Filter does; passive is set exactly when V then lies within [lb, ub] |
| MemberBound.PropMemberBound.IsEntailed | choco-solver/src/main/java/solver/constraints/unary/PropMemberBound.java:75-82 | TRUE only when every value is in [lb, ub], FALSE only when none is; anything but TRUE exactly when some value is outside |
| MemberBound.FilterIdempotent | choco-solver/src/main/java/solver/constraints/unary/PropMemberBound.java:59-66 | a second propagation changes nothing |
| MemberBound.EntailedMeansFixpoint | choco-solver/src/main/java/solver/constraints/unary/PropMemberBound.java:75-82 | when the check answers TRUE, propagation neither narrows nor fails |
| MemberBound.UnsubscribedEventsKeepFixpoint | choco-solver/src/main/java/solver/constraints/unary/PropMemberBound.java:69-71 | at a fixpoint, a narrowing that reports no subscribed event leaves a fixpoint |
| GreaterOrEqualXYC.PropagationConditions | solver/src/main/java/solver/constraints/propagators/binary/PropGreaterOrEqualXY_C.java:59-62 | INSTANTIATE + BOUND, for both variables: every event except a removal inside the bounds |
| GreaterOrEqualXYC.Filter | solver/src/main/java/solver/constraints/propagators/binary/PropGreaterOrEqualXY_C.java:66-72 | raises x.lb to at least C - y.ub and y.lb to at least C - x.ub, changes no upper bound and no other variable |
| GreaterOrEqualXYC.FilterOn | solver/src/main/java/solver/constraints/propagators/binary/PropGreaterOrEqualXY_C.java:75-86 | on an instantiation or upper-bound event re-derives only the other variable's lower bound; on any other event changes nothing |
| GreaterOrEqualXYC.PropGreaterOrEqualXYC.constructor | solver/src/main/java/solver/constraints/propagators/binary/PropGreaterOrEqualXY_C.java:52-57 | stores both variables and the constant; the propagator starts active |
| GreaterOrEqualXYC.PropGreaterOrEqualXYC.Propagate | solver/src/main/java/solver/constraints/propagators/binary/PropGreaterOrEqualXY_C.java:66-72 | the store becomes Filter's result, or fails exactly when Filter does; passive exactly when x.lb + y.lb >= C afterwards |
| GreaterOrEqualXYC.PropGreaterOrEqualXYC.PropagateOn | solver/src/main/java/solver/constraints/propagators/binary/PropGreaterOrEqualXY_C.java:75-86 | the store becomes FilterOn's result, or fails exactly when FilterOn does; passive exactly when x.lb + y.lb >= C afterwards |
| GreaterOrEqualXYC.PropGreaterOrEqualXYC.IsEntailed | solver/src/main/java/solver/constraints/propagators/binary/PropGreaterOrEqualXY_C.java:90-97 | TRUE only when every assignment satisfies X + Y >= C, FALSE only when none does, UNDEFINED only when one does and one does not |
| GreaterOrEqualXYC.FilterSound | solver/src/main/java/solver/constraints/propagators/binary/PropGreaterOrEqualXY_C.java:66-72 | propagation never fails while a solution remains and keeps every solution |
| GreaterOrEqualXYC.FilterNarrows | solver/src/main/java/solver/constraints/propagators/binary/PropGreaterOrEqualXY_C.java:66-72 | every assignment admitted after propagation was admitted before |
| GreaterOrEqualXYC.FilterIdempotent | solver/src/main/java/solver/constraints/propagators/binary/PropGreaterOrEqualXY_C.java:66-72 | a second full propagation changes nothing |
| GreaterOrEqualXYC.PassiveMeansEntailed | solver/src/main/java/solver/constraints/propagators/binary/PropGreaterOrEqualXY_C.java:69-71 | the propagator turns passive only on an entailed constraint |
| GreaterOrEqualXYC.IncrementalOnXMatchesFull | solver/src/main/java/solver/constraints/propagators/binary/PropGreaterOrEqualXY_C.java:75-86 | from a fixpoint, narrowing x and replaying the events it reports gives what full propagation gives |
| GreaterOrEqualXYC.IncrementalOnYMatchesFull | solver/src/main/java/solver/constraints/propagators/binary/PropGreaterOrEqualXY_C.java:75-86 | the same for a narrowing of y |
| GreaterOrEqualXYC.UnsubscribedEventsKeepFixpoint | solver/src/main/java/solver/constraints/propagators/binary/PropGreaterOrEqualXY_C.java:59-62 | at a fixpoint, a narrowing of x or of y that reports no subscribed event leaves a fixpoint |
| SubsetEq.SetEventsOf | choco-solver/src/main/java/solver/constraints/set/PropSubsetEq.java:119-126 | the events a set narrowing reports: none exactly when the domain is unchanged; ADD_TO_KER exactly when the kernel grows, REMOVE_FROM_ENVELOPE exactly when the envelope shrinks |
| SubsetEq.PropagationConditions | choco-solver/src/main/java/solver/constraints/set/PropSubsetEq.java:98-103 | X wakes the propagator only on ADD_TO_KER, Y only on REMOVE_FROM_ENVELOPE |
| SubsetEq.Filter | choco-solver/src/main/java/solver/constraints/set/PropSubsetEq.java:105-116 | fails exactly when X's kernel is not within Y's envelope; otherwise Y's kernel gains X's kernel and X's envelope is cut to Y's, nothing else changes |
| SubsetEq.Replay | choco-solver/src/main/java/solver/constraints/set/PropSubsetEq.java:79-90 | one delta entry: a forced element of X is forced into Y, an element removed from Y is removed from X, each failing exactly when the domain forbids it |
| SubsetEq.FilterOn | choco-solver/src/main/java/solver/constraints/set/PropSubsetEq.java:118-126 | replaying a delta of X forces all its forced elements into Y; a delta of Y removes all its removed elements from X; fails exactly when a domain forbids it |
| SubsetEq.PropSubsetEq.constructor | choco-solver/src/main/java/solver/constraints/set/PropSubsetEq.java:72-91 | stores both variables |
| SubsetEq.PropSubsetEq.Propagate | choco-solver/src/main/java/solver/constraints/set/PropSubsetEq.java:105-116 | the element-by-element loops leave the store equal to Filter's result, or fail exactly when Filter does |
| SubsetEq.PropSubsetEq.PropagateOn | choco-solver/src/main/java/solver/constraints/set/PropSubsetEq.java:118-126 | the replay loop leaves the store equal to FilterOn's result, or fails exactly when FilterOn does |
| SubsetEq.PropSubsetEq.IsEntailed | choco-solver/src/main/java/solver/constraints/set/PropSubsetEq.java:128-141 | TRUE only when every admitted assignment has X ⊆ Y, FALSE only when none has; UNDEFINED (for distinct variables) only when one has and one has not |
| SubsetEq.UndefinedWitnesses | choco-solver/src/main/java/solver/constraints/set/PropSubsetEq.java:135-139 | when X's kernel fits in Y's envelope but X's envelope does not fit in Y's kernel, one admitted assignment satisfies X ⊆ Y and (for distinct variables) one violates it |
| SubsetEq.FilterSound | choco-solver/src/main/java/solver/constraints/set/PropSubsetEq.java:105-116 | propagation never fails while a solution remains and keeps every solution |
| SubsetEq.FilterFailsOnlyWhenUnsatisfiable | choco-solver/src/main/java/solver/constraints/set/PropSubsetEq.java:105-116 | a contradiction is raised only when no admitted assignment satisfies X ⊆ Y |
| SubsetEq.FilterNarrows | choco-solver/src/main/java/solver/constraints/set/PropSubsetEq.java:105-116 | every assignment admitted after propagation was admitted before |
| SubsetEq.FilterIdempotent | choco-solver/src/main/java/solver/constraints/set/PropSubsetEq.java:105-116 | a second full propagation changes nothing |
| SubsetEq.FilterThenEntailed | choco-solver/src/main/java/solver/constraints/set/PropSubsetEq.java:128-141 | after a successful propagation the check never answers FALSE, and answers TRUE exactly when X's envelope lies in Y's kernel |
| SubsetEq.IncrementalOnXMatchesFull | choco-solver/src/main/java/solver/constraints/set/PropSubsetEq.java:118-126 | from a fixpoint, forcing elements into X and replaying its delta gives what full propagation gives |
| SubsetEq.IncrementalOnYMatchesFull | choco-solver/src/main/java/solver/constraints/set/PropSubsetEq.java:118-126 | from a fixpoint, removing elements from Y and replaying its delta gives what full propagation gives |
| SubsetEq.UnsubscribedEventsKeepFixpoint | choco-solver/src/main/java/solver/constraints/set/PropSubsetEq.java:97-103 | at a fixpoint, a narrowing that reports no subscribed event for its variable leaves a fixpoint |
| SubsetEq.ScenarioSubset | choco-solver/src/main/java/solver/constraints/set/PropSubsetEq.java:105-116 | X = [{1}, {1,2}], Y = [{}, {1}] narrows to Y's kernel {1} and X's envelope {1}; X's envelope then lies in Y's kernel, the condition on which isEntailed answers TRUE (lines 128-141), and every assignment left satisfies X ⊆ Y |
| Graphs.Nodes | solver/src/main/java/solver/constraints/propagators/gary/tsp/directed/position/PropPosInTourGraphReactor.java:91 | the node set of a graph over n nodes is exactly 0 .. n-1 |
| Graphs.Nbrs | solver/src/main/java/solver/constraints/propagators/gary/tsp/directed/position/PropPosInTourGraphReactor.java:189 | the neighbours a traversal follows are nodes of the graph |
| Graphs.Start | solver/src/main/java/solver/constraints/propagators/gary/tsp/directed/position/PropPosInTourGraphReactor.java:178 | the start node (0 forward, n-1 backward) is a node of the graph |
| Graphs.FirstFrom | solver/src/main/java/solver/constraints/propagators/gary/tsp/directed/position/PropPosInTourGraphReactor.java:115 | getFirstElement: -1 exactly when the set has no node in range, otherwise its smallest such node |
| Graphs.StartNotReentered | solver/src/main/java/solver/constraints/propagators/gary/tsp/directed/position/PropPosInTourGraphReactor.java:179 | when no arc leads back into the start, no non-empty walk reaches it |
| Graphs.WalkReaches | solver/src/main/java/solver/constraints/propagators/gary/tsp/directed/position/PropPosInTourGraphReactor.java:190-195 | the end of a walk of k arcs from the start is in Reach(k) |
| Graphs.ReachedByWalk | solver/src/main/java/solver/constraints/propagators/gary/tsp/directed/position/PropPosInTourGraphReactor.java:190-195 | every node of Reach(k) ends a walk of k arcs from the start |
| Graphs.ReachIsWalks | solver/src/main/java/solver/constraints/propagators/gary/tsp/directed/position/PropPosInTourGraphReactor.java:190-195 | Reach(k) is exactly the set of ends of walks of k arcs from the start |
| Graphs.SeenIsUnion | solver/src/main/java/solver/constraints/propagators/gary/tsp/directed/position/PropPosInTourGraphReactor.java:191-194 | the visited set after k rounds is the union of Reach(1) .. Reach(k) |
| Graphs.FrontierOfSeen | solver/src/main/java/solver/constraints/propagators/gary/tsp/directed/position/PropPosInTourGraphReactor.java:190-195 | one step from any node seen within m arcs stays within m + 1 arcs |
| Graphs.LayerStep | solver/src/main/java/solver/constraints/propagators/gary/tsp/directed/position/PropPosInTourGraphReactor.java:181-198 | the next layer is the unvisited neighbours of the current one, and the visited set grows by exactly that layer |
| Graphs.LayersEmptyAfter | solver/src/main/java/solver/constraints/propagators/gary/tsp/directed/position/PropPosInTourGraphReactor.java:181 | once a layer is empty, every later one is: the traversal ends |
| Graphs.LayersDisjoint | solver/src/main/java/solver/constraints/propagators/gary/tsp/directed/position/PropPosInTourGraphReactor.java:191-194 | no node lies in two layers after the first |
| Graphs.LayerIsShortestDistance | solver/src/main/java/solver/constraints/propagators/gary/tsp/directed/position/PropPosInTourGraphReactor.java:173-199 | layer k (k >= 1) holds exactly the nodes whose shortest non-empty walk from the start has k arcs |
| Traversal.Bound | solver/src/main/java/solver/constraints/propagators/gary/tsp/directed/position/PropPosInTourGraphReactor.java:188 | raising the lower bound (forward) or lowering the upper bound (backward) to the level keeps exactly the values on that side, fails exactly when none is left, and moves only that bound |
| Traversal.NarrowAll | solver/src/main/java/solver/constraints/propagators/gary/tsp/directed/position/PropPosInTourGraphReactor.java:186-188 | every node of the frontier is bounded at the level; fails exactly when one of them has no value left; other nodes are unchanged |
| Traversal.NextScc | solver/src/main/java/solver/constraints/propagators/gary/tsp/directed/position/PropPosInTourGraphReactor.java:237 | the next component is -1 exactly when scc has no successor (forward) or predecessor (backward) in the condensation graph, otherwise one of them |
| Traversal.SweepStep | solver/src/main/java/solver/constraints/propagators/gary/tsp/directed/position/PropPosInTourGraphReactor.java:181-198 | one round of the plain traversal: narrow the frontier, then continue from its unvisited neighbours one level on; a failed narrowing fails the traversal |
| Traversal.NarrowAllNarrows | solver/src/main/java/solver/constraints/propagators/gary/tsp/directed/position/PropPosInTourGraphReactor.java:188 | narrowing a frontier only shrinks domains, and only on the traversal's side |
| Traversal.Sweep | solver/src/main/java/solver/constraints/propagators/gary/tsp/directed/position/PropPosInTourGraphReactor.java:181-198 | the reference definition of the loop of BFS (and of BFSfromEnd, lines 258-275): on success the store keeps its size and every domain stays non-empty; what it computes is stated by SweepNarrows, SweepRespectsLayers and SweepKeepsSolution |
| Traversal.Traverse | solver/src/main/java/solver/constraints/propagators/gary/tsp/directed/position/PropPosInTourGraphReactor.java:173-199 | BFS from node 0 at level 0, or BFSfromEnd from node n-1 at level n-1 (lines 249-276): on success the store keeps its size and every domain stays non-empty; TraverseNarrows, TraverseBoundsLayers and TraverseKeepsTour state what it computes |
| Traversal.SweepNarrows | solver/src/main/java/solver/constraints/propagators/gary/tsp/directed/position/PropPosInTourGraphReactor.java:173-199 | the plain traversal only shrinks domains, and only on its side |
| Traversal.TraverseNarrows | solver/src/main/java/solver/constraints/propagators/gary/tsp/directed/position/PropPosInTourGraphReactor.java:173-199 | the traversal from the start only shrinks domains, and only on its side |
| Traversal.InnerStep | solver/src/main/java/solver/constraints/propagators/gary/tsp/directed/position/PropPosInTourGraphReactor.java:214-236 | one layer inside a component: the level moves one step, the node count by the layer's size, visited and set-aside nodes only grow, and the traversal's measure decreases |
| Traversal.InnerSweep | solver/src/main/java/solver/constraints/propagators/gary/tsp/directed/position/PropPosInTourGraphReactor.java:214-236 | the traversal inside a component keeps the level no further from its start than the node count, which is why the exception at the end of each component cannot be thrown |
| Traversal.InnerSweepNarrows | solver/src/main/java/solver/constraints/propagators/gary/tsp/directed/position/PropPosInTourGraphReactor.java:214-236 | the traversal inside a component only shrinks domains, on its side |
| Traversal.SccSweep | solver/src/main/java/solver/constraints/propagators/gary/tsp/directed/position/PropPosInTourGraphReactor.java:213-246 | the reference definition of the outer loop of BFS_RG: ends when there is no next component; on success the store keeps its size and every domain stays non-empty; SccSweepNarrows states that it only shrinks |
| Traversal.AfterScc | solver/src/main/java/solver/constraints/propagators/gary/tsp/directed/position/PropPosInTourGraphReactor.java:237-245 | after a component: a failed inner traversal fails, otherwise the traversal moves to the next component with the nodes set aside, at level nbNode; success implies the inner traversal succeeded |
| Traversal.TraverseScc | solver/src/main/java/solver/constraints/propagators/gary/tsp/directed/position/PropPosInTourGraphReactor.java:201-247 | BFS_RG from node 0 (or BFSfromEnd_RG from n-1, lines 278-324), starting in the start node's component: on success the store keeps its size and every domain stays non-empty; TraverseSccNarrows states that it only shrinks, on its side |
| Traversal.SccSweepNarrows | solver/src/main/java/solver/constraints/propagators/gary/tsp/directed/position/PropPosInTourGraphReactor.java:213-246 | the traversal by components only shrinks domains, on its side |
| Traversal.AfterSccNarrows | solver/src/main/java/solver/constraints/propagators/gary/tsp/directed/position/PropPosInTourGraphReactor.java:237-245 | moving to the next component and continuing only shrinks domains |
| Traversal.TraverseSccNarrows | solver/src/main/java/solver/constraints/propagators/gary/tsp/directed/position/PropPosInTourGraphReactor.java:201-247 | the whole traversal by components only shrinks domains, on its side |
| Traversal.SweepFromStep | solver/src/main/java/solver/constraints/propagators/gary/tsp/directed/position/PropPosInTourGraphReactor.java:181-198 | from layer k: the traversal narrows layer k at level k, then continues from layer k + 1 |
| Traversal.SweepRespectsLayers | solver/src/main/java/solver/constraints/propagators/gary/tsp/directed/position/PropPosInTourGraphReactor.java:181-198 | after the traversal, every node of layer j has its lower bound >= j (forward), or its upper bound <= n-1-j (backward) |
| Traversal.TraverseBoundsLayers | solver/src/main/java/solver/constraints/propagators/gary/tsp/directed/position/PropPosInTourGraphReactor.java:173-199 | a successful traversal bounds every node by its breadth-first distance from node 0, or n-1 minus its distance to node n-1 |
| Traversal.SweepKeepsSolution | solver/src/main/java/solver/constraints/propagators/gary/tsp/directed/position/PropPosInTourGraphReactor.java:181-198 | the traversal keeps every assignment whose positions lie on the allowed side of each layer's level and then does not fail |
| Traversal.NarrowKeepsSolution | solver/src/main/java/solver/constraints/propagators/gary/tsp/directed/position/PropPosInTourGraphReactor.java:188 | narrowing a frontier keeps an assignment whose values there lie on the allowed side |
| Traversal.TourReaches | solver/src/main/java/solver/constraints/propagators/gary/tsp/directed/position/PropPosInTourGraphReactor.java:181-198 | the i-th node along a Hamiltonian path from the start is reached after i arcs |
| Traversal.TourOnSide | solver/src/main/java/solver/constraints/propagators/gary/tsp/directed/position/PropPosInTourGraphReactor.java:181-198 | with no arc back into the start, a node in layer j sits at least j steps from the start on every Hamiltonian path |
| Traversal.TraverseKeepsTour | solver/src/main/java/solver/constraints/propagators/gary/tsp/directed/position/PropPosInTourGraphReactor.java:173-199 | with no arc back into the start, the traversal keeps every position assignment of a Hamiltonian path and does not fail |
| ArcFiltering.ArcEnforced | solver/src/main/java/solver/constraints/propagators/gary/tsp/directed/position/PropPosInTourGraphReactor.java:330-333 | enfArc: only from and to change, both only shrink; for distinct nodes it fails exactly when from.lb >= to.ub, otherwise from keeps exactly its values below to.ub and to keeps exactly its values above from.lb, with from.lb and to.ub unchanged; for a loop the node keeps exactly its values strictly between its bounds and fails exactly when it has none |
| ArcFiltering.ArcEnforcedSound | solver/src/main/java/solver/constraints/propagators/gary/tsp/directed/position/PropPosInTourGraphReactor.java:330-333 | an arc a solution uses keeps that solution and does not fail |
| ArcFiltering.ArcRemoved | solver/src/main/java/solver/constraints/propagators/gary/tsp/directed/position/PropPosInTourGraphReactor.java:335-344 | remArc: nothing for a loop; otherwise only from and to change and shrink, to loses from's value + 1 when from is fixed, and from loses to's value - 1 when to is fixed |
| ArcFiltering.ArcRemovedSound | solver/src/main/java/solver/constraints/propagators/gary/tsp/directed/position/PropPosInTourGraphReactor.java:335-344 | an arc a solution does not use keeps that solution and does not fail |
| ArcFiltering.RemoveNonArcs | solver/src/main/java/solver/constraints/propagators/gary/tsp/directed/position/PropPosInTourGraphReactor.java:117-121 | removing every arc from i missing from the envelope only shrinks domains |
| ArcFiltering.ArcStep | solver/src/main/java/solver/constraints/propagators/gary/tsp/directed/position/PropPosInTourGraphReactor.java:115-124 | the step for node i only shrinks domains |
| ArcFiltering.ThenArcPass | solver/src/main/java/solver/constraints/propagators/gary/tsp/directed/position/PropPosInTourGraphReactor.java:114-125 | continuing the arc pass only shrinks domains and fails when the earlier step failed |
| ArcFiltering.ArcPass | solver/src/main/java/solver/constraints/propagators/gary/tsp/directed/position/PropPosInTourGraphReactor.java:114-125 | the arc pass over all nodes only shrinks domains |
| ArcFiltering.RemoveNonArcsSound | solver/src/main/java/solver/constraints/propagators/gary/tsp/directed/position/PropPosInTourGraphReactor.java:117-121 | removing the arcs a solution cannot use keeps it and does not fail |
| ArcFiltering.ArcPassSound | solver/src/main/java/solver/constraints/propagators/gary/tsp/directed/position/PropPosInTourGraphReactor.java:114-125 | the arc pass keeps every position assignment of a Hamiltonian path using every kernel arc, and does not fail |
| ArcFiltering.ReplayEnforced | solver/src/main/java/solver/constraints/propagators/gary/tsp/directed/position/PropPosInTourGraphReactor.java:136 | replaying enforced arcs only shrinks domains |
| ArcFiltering.ReplayRemoved | solver/src/main/java/solver/constraints/propagators/gary/tsp/directed/position/PropPosInTourGraphReactor.java:137 | replaying removed arcs only shrinks domains |
| ArcFiltering.ReplayEnforcedSound | solver/src/main/java/solver/constraints/propagators/gary/tsp/directed/position/PropPosInTourGraphReactor.java:136 | replaying arcs now in the kernel keeps every solution and does not fail |
| ArcFiltering.ReplayRemovedSound | solver/src/main/java/solver/constraints/propagators/gary/tsp/directed/position/PropPosInTourGraphReactor.java:137 | replaying arcs now out of the envelope keeps every solution and does not fail |
| PosInTour.PropagationConditions | solver/src/main/java/solver/constraints/propagators/gary/tsp/directed/position/PropPosInTourGraphReactor.java:144-147 | every arc event, and bound changes (DECUPP, INCLOW) but neither a value removal nor an instantiation event |
| PosInTour.CoarsePropagationConditions | solver/src/main/java/solver/constraints/propagators/gary/tsp/directed/position/PropPosInTourGraphReactor.java:150-152 | both coarse propagations, FULL_PROPAGATION and CUSTOM_PROPAGATION |
| PosInTour.TraverseIn | solver/src/main/java/solver/constraints/propagators/gary/tsp/directed/position/PropPosInTourGraphReactor.java:163-171 | one traversal: the plain one without a condensation, the one by components with it; keeps the store's size and non-empty domains; TraverseInNarrows states that it only shrinks |
| PosInTour.Traversals | solver/src/main/java/solver/constraints/propagators/gary/tsp/directed/position/PropPosInTourGraphReactor.java:163-171 | graphTrasversal: the forward traversal, then the backward one on its result; keeps the store's size and non-empty domains; TraversalsNarrow and TraversalsSound state what it computes |
| PosInTour.Propagation | solver/src/main/java/solver/constraints/propagators/gary/tsp/directed/position/PropPosInTourGraphReactor.java:111-130 | propagate(evtmask): the arc pass only on FULL_PROPAGATION, then the traversals; keeps the store's size and non-empty domains; PropagationNarrows and PropagationSound state what it computes |
| PosInTour.IncrementalPropagation | solver/src/main/java/solver/constraints/propagators/gary/tsp/directed/position/PropPosInTourGraphReactor.java:133-141 | propagate(idx, mask): for the graph variable the enforced then the removed arcs are replayed, then the traversals run; keeps the store's size and non-empty domains; IncrementalPropagationNarrows and IncrementalPropagationSound state what it computes |
| PosInTour.TraverseInNarrows | solver/src/main/java/solver/constraints/propagators/gary/tsp/directed/position/PropPosInTourGraphReactor.java:163-171 | either traversal only shrinks domains |
| PosInTour.TraversalsNarrow | solver/src/main/java/solver/constraints/propagators/gary/tsp/directed/position/PropPosInTourGraphReactor.java:163-171 | the forward then backward traversals only shrink domains |
| PosInTour.PropagationNarrows | solver/src/main/java/solver/constraints/propagators/gary/tsp/directed/position/PropPosInTourGraphReactor.java:111-130 | a coarse propagation only shrinks domains |
| PosInTour.IncrementalPropagationNarrows | solver/src/main/java/solver/constraints/propagators/gary/tsp/directed/position/PropPosInTourGraphReactor.java:133-141 | an incremental propagation only shrinks domains |
| PosInTour.TraversalsSound | solver/src/main/java/solver/constraints/propagators/gary/tsp/directed/position/PropPosInTourGraphReactor.java:163-171 | without a condensation, with no arc into node 0 or out of node n-1, both traversals keep every position assignment of a Hamiltonian path and do not fail |
| PosInTour.PropagationSound | solver/src/main/java/solver/constraints/propagators/gary/tsp/directed/position/PropPosInTourGraphReactor.java:111-130 | under the same conditions a coarse propagation keeps every solution that uses every kernel arc and does not fail |
| PosInTour.IncrementalPropagationSound | solver/src/main/java/solver/constraints/propagators/gary/tsp/directed/position/PropPosInTourGraphReactor.java:133-141 | the same for an incremental propagation, when the replayed arcs are now in the kernel, respectively out of the envelope |
| PosInTour.ComponentStep | solver/src/main/java/solver/constraints/propagators/gary/tsp/directed/position/PropPosInTourGraphReactor.java:219-235 | narrowing a component's layer and scanning its neighbours is exactly one InnerStep |
| PosInTour.DirectedGraphVar.constructor | solver/src/main/java/solver/constraints/propagators/gary/tsp/directed/position/PropPosInTourGraphReactor.java:66 | stores the kernel and envelope arcs |
| PosInTour.Condensation.constructor | solver/src/main/java/solver/constraints/propagators/gary/tsp/directed/position/PropPosInTourGraphReactor.java:72-74 | stores the component of each node and the condensation graph |
| PosInTour.PropPosInTourGraphReactor.constructor | solver/src/main/java/solver/constraints/propagators/gary/tsp/directed/position/PropPosInTourGraphReactor.java:86-95 | a reactor without condensation over n = the envelope's node count, with a fresh visited bitset |
| PosInTour.PropPosInTourGraphReactor.WithCondensation | solver/src/main/java/solver/constraints/propagators/gary/tsp/directed/position/PropPosInTourGraphReactor.java:97-104 | the same with the component map and condensation graph |
| PosInTour.PropPosInTourGraphReactor.ClearDone | solver/src/main/java/solver/constraints/propagators/gary/tsp/directed/position/PropPosInTourGraphReactor.java:174 | done.clear(): no node is marked |
| PosInTour.PropPosInTourGraphReactor.SetBound | solver/src/main/java/solver/constraints/propagators/gary/tsp/directed/position/PropPosInTourGraphReactor.java:188 | updates x's bound on the traversal's side; fails exactly when Bound does, otherwise only x changes |
| PosInTour.PropPosInTourGraphReactor.ScanNeighbours | solver/src/main/java/solver/constraints/propagators/gary/tsp/directed/position/PropPosInTourGraphReactor.java:190-195 | the neighbour loop marks every unvisited neighbour and appends it to the next layer, or to the next components' list when it is in another component |
| PosInTour.PropPosInTourGraphReactor.Visit | solver/src/main/java/solver/constraints/propagators/gary/tsp/directed/position/PropPosInTourGraphReactor.java:191-194 | one neighbour: an unvisited one is marked and goes to the next layer or, when in another component, to the next components' list; a visited one changes nothing |
| PosInTour.PropPosInTourGraphReactor.Mark | solver/src/main/java/solver/constraints/propagators/gary/tsp/directed/position/PropPosInTourGraphReactor.java:193 | done.set(j): the marked set gains exactly j |
| PosInTour.PropPosInTourGraphReactor.ExpandFrontier | solver/src/main/java/solver/constraints/propagators/gary/tsp/directed/position/PropPosInTourGraphReactor.java:186-196 | the layer loop, last node first, equals NarrowAll on the layer (failing exactly when it does) and collects exactly the unvisited neighbours of the layer |
| PosInTour.PropPosInTourGraphReactor.ExpandNode | solver/src/main/java/solver/constraints/propagators/gary/tsp/directed/position/PropPosInTourGraphReactor.java:187-195 | one node of the frontier: fails exactly when its bound at the level fails; otherwise the store is the narrowing of one more node, and its unvisited neighbours are marked and routed |
| PosInTour.PropPosInTourGraphReactor.ExpandLayer | solver/src/main/java/solver/constraints/propagators/gary/tsp/directed/position/PropPosInTourGraphReactor.java:182-197 | one pass of the traversal loop is one step of Sweep, fails exactly when Sweep fails there, and decreases the traversal's measure |
| PosInTour.PropPosInTourGraphReactor.BreadthFirst | solver/src/main/java/solver/constraints/propagators/gary/tsp/directed/position/PropPosInTourGraphReactor.java:173-199 | BFS (forward) and BFSfromEnd (backward, lines 249-276) leave the positions equal to Traverse, failing exactly when it does |
| PosInTour.PropPosInTourGraphReactor.ExpandComponentLayer | solver/src/main/java/solver/constraints/propagators/gary/tsp/directed/position/PropPosInTourGraphReactor.java:215-235 | one pass of the inner loop of BFS_RG is exactly one InnerStep, failing exactly when it does |
| PosInTour.PropPosInTourGraphReactor.SweepComponent | solver/src/main/java/solver/constraints/propagators/gary/tsp/directed/position/PropPosInTourGraphReactor.java:214-236 | the inner loop of BFS_RG (and of BFSfromEnd_RG, lines 291-313) is exactly InnerSweep |
| PosInTour.PropPosInTourGraphReactor.BreadthFirstByScc | solver/src/main/java/solver/constraints/propagators/gary/tsp/directed/position/PropPosInTourGraphReactor.java:201-247 | BFS_RG and BFSfromEnd_RG (lines 278-324) leave the positions equal to TraverseScc, failing exactly when it does; the exception at lines 242-244 and 319-321 is never thrown |
| PosInTour.PropPosInTourGraphReactor.GraphTraversal | solver/src/main/java/solver/constraints/propagators/gary/tsp/directed/position/PropPosInTourGraphReactor.java:163-171 | both traversals, by components when a condensation is given, equal Traversals |
| PosInTour.PropPosInTourGraphReactor.EnfArc | solver/src/main/java/solver/constraints/propagators/gary/tsp/directed/position/PropPosInTourGraphReactor.java:330-333 | the store becomes ArcEnforced's result, failing exactly when it does |
| PosInTour.PropPosInTourGraphReactor.RemArc | solver/src/main/java/solver/constraints/propagators/gary/tsp/directed/position/PropPosInTourGraphReactor.java:335-344 | the store becomes ArcRemoved's result, failing exactly when it does |
| PosInTour.PropPosInTourGraphReactor.FilterArcs | solver/src/main/java/solver/constraints/propagators/gary/tsp/directed/position/PropPosInTourGraphReactor.java:112-126 | the loop over nodes leaves the store equal to ArcPass, failing exactly when it does |
| PosInTour.PropPosInTourGraphReactor.Propagate | solver/src/main/java/solver/constraints/propagators/gary/tsp/directed/position/PropPosInTourGraphReactor.java:111-130 | the store becomes Propagation's result (arc pass only with the full-propagation flag), failing exactly when it does |
| PosInTour.PropPosInTourGraphReactor.ReplayEnforcedArcs | solver/src/main/java/solver/constraints/propagators/gary/tsp/directed/position/PropPosInTourGraphReactor.java:136 | replaying the enforced arcs in order leaves the store equal to ReplayEnforced's result, failing exactly when it does |
| PosInTour.PropPosInTourGraphReactor.ReplayRemovedArcs | solver/src/main/java/solver/constraints/propagators/gary/tsp/directed/position/PropPosInTourGraphReactor.java:137 | replaying the removed arcs in order leaves the store equal to ReplayRemoved's result, failing exactly when it does |
| PosInTour.PropPosInTourGraphReactor.PropagateOn | solver/src/main/java/solver/constraints/propagators/gary/tsp/directed/position/PropPosInTourGraphReactor.java:133-141 | the store becomes IncrementalPropagation's result, failing exactly when it does |

## Left out

- Delta monitors, freeze and unfreeze: the deltas are passed to `PropagateOn` as sequences of
  arcs or of set events, in the order the monitor would report them.
- `duplicate`, `explain`, `toString`, solver and cause bookkeeping, and propagator
  priorities: they do not change domains.
- Views (IView.java is not part of this model) and integer overflow: bounds are unbounded
  integers, so `cste - y.getUB()`, `getValue() + 1` and the like never wrap.
- The contents of the store after a contradiction are left unspecified; the methods state
  only that they failed, since the solver backtracks anyway.
- `forcePropagate(CUSTOM_PROPAGATION)` in the reactor's incremental propagation is modelled as
  an immediate call of the coarse propagation without the full-propagation flag; the
  scheduling by the propagation engine (PropagationStrategies.java) is not modelled.
- The reactor's `nR` and `outArcs` fields are stored by the constructor but never read; they are left out.
- Set iteration order: the neighbour and kernel sets are scanned smallest element first, as
  `FirstFrom` states; the set propagator's loops pick elements in any order (`Pick`).
- The reactor's `isEntailed` always answers UNDEFINED; `PosInTour.PropPosInTourGraphReactor.IsEntailed`
  returns that constant and carries no contract.
- PosInTour.TraversalsSound: soundness is proved only for the plain traversals; for the traversal by
  components only narrowing and equality with its specification are proved.
- PosInTour.TraversalsSound: soundness needs that no envelope arc enters node 0 and none leaves
  node n-1. The start node is never marked visited, so an arc back into it would put it in a
  later layer and bound its position away from the end of the path.
- PosInTour.PropagationSound: rests on TraversalsSound, so it is proved only without a
  condensation and only when no envelope arc enters node 0 or leaves node n-1.
- PosInTour.IncrementalPropagationSound: rests on TraversalsSound, with the same two limits.
- The component map and condensation graph are maintained by other propagators. The model
  assumes every node's component is a node of an acyclic condensation graph. Acyclicity is
  what makes the walk from component to component terminate.
