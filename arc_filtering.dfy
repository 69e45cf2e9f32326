/**
 * The arc rules of the tour-position reactor, stated on values: an arc x -> y that is
 * in every solution puts y right after x; an arc that is in none forbids y right
 * after x when one of the two positions is known.
 */
module ArcFiltering {
  import opened Domains
  import opened Graphs
  import opened Traversal

  /** An arc of the graph variable, as its delta reports it. */
  datatype Arc = Arc(from: nat, to: nat)

  /** The arcs x -> y with y in `kernel[x]` must be in the path; those outside `envelope` cannot be. */
  ghost predicate IsSolution(kernel: seq<set<nat>>, envelope: seq<set<nat>>, v: seq<nat>, sigma: seq<int>)
  {
    |kernel| == |envelope| && IsTour(envelope, v) && IsPositions(v, sigma) &&
    forall x, y :: 0 <= x < |kernel| && y in kernel[x] ==> y < |sigma| && sigma[y] == sigma[x] + 1
  }

  /** Along a tour, the node at the next position is a successor. */
  lemma TourSuccessor(adj: seq<set<nat>>, v: seq<nat>, sigma: seq<int>, x: nat, y: nat)
    requires IsTour(adj, v) && IsPositions(v, sigma) && x < |v| && y < |v|
    requires sigma[y] == sigma[x] + 1
    ensures y in adj[x]
  {
    assert x in v && y in v;
    var i :| 0 <= i < |v| && v[i] == x;
    var j :| 0 <= j < |v| && v[j] == y;
    assert v[i + 1] in adj[v[i]];
  }

  /**
   * `enfArc(from, to)`: the upper bound of `from` drops below that of `to`, then the
   * lower bound of `to` rises above that of `from`.
   */
  function ArcEnforced(s: seq<IntDom>, from: nat, to: nat): (r: Outcome<seq<IntDom>>)
    requires AllValid(s) && from < |s| && to < |s|
    ensures r.Ok? ==> |r.value| == |s| && AllValid(r.value) && NarrowsAll(s, r.value)
    ensures r.Ok? ==> forall x :: 0 <= x < |s| && x != from && x != to ==> r.value[x] == s[x]
    ensures r.Ok? && from != to ==> r.value[from].ub < s[to].ub && r.value[from].lb < r.value[to].lb
    ensures from != to ==> (r.Contradiction? <==> s[from].lb >= s[to].ub)
    ensures r.Ok? && from != to ==> r.value[from].lb == s[from].lb && r.value[to].ub == s[to].ub
    ensures r.Ok? && from != to ==>
              (forall v :: Contains(r.value[from], v) <==> Contains(s[from], v) && v <= s[to].ub - 1) &&
              (forall v :: Contains(r.value[to], v) <==> Contains(s[to], v) && v >= s[from].lb + 1)
    ensures r.Ok? && from == to ==>
              forall v :: Contains(r.value[from], v) <==> Contains(s[from], v) && s[from].lb < v < s[from].ub
    ensures from == to ==>
              (r.Contradiction? <==> forall v :: Contains(s[from], v) ==> v == s[from].lb || v == s[from].ub)
  {
    match NarrowUb(s[from], s[to].ub - 1)
    case Contradiction => Contradiction
    case Ok(df) =>
      var s1 := s[from := df];
      match NarrowLb(s1[to], s1[from].lb + 1)
      case Contradiction => Contradiction
      case Ok(dt) => Ok(s1[to := dt])
  }

  /** An arc every solution takes keeps every solution: `to` sits right after `from`. */
  lemma ArcEnforcedSound(s: seq<IntDom>, from: nat, to: nat, sigma: seq<int>)
    requires AllValid(s) && from < |s| && to < |s| && Within(s, sigma)
    requires sigma[to] == sigma[from] + 1
    ensures ArcEnforced(s, from, to).Ok? && Within(ArcEnforced(s, from, to).value, sigma)
  {
    assert Contains(s[to], sigma[to]);
    var df := NarrowUb(s[from], s[to].ub - 1).value;
    assert Contains(df, sigma[from]);
    var s1 := s[from := df];
    assert Contains(NarrowLb(s1[to], s1[from].lb + 1).value, sigma[to]);
  }

  /**
   * `remArc(from, to)` for distinct nodes: when `from` is fixed, `to` loses the position
   * right after it; then, when `to` is fixed, `from` loses the position right before it.
   */
  function ArcRemoved(s: seq<IntDom>, from: nat, to: nat): (r: Outcome<seq<IntDom>>)
    requires AllValid(s) && from < |s| && to < |s|
    ensures from == to ==> r == Ok(s)
    ensures r.Ok? ==> |r.value| == |s| && AllValid(r.value) && NarrowsAll(s, r.value)
    ensures r.Ok? ==> forall x :: 0 <= x < |s| && x != from && x != to ==> r.value[x] == s[x]
    ensures r.Ok? && from != to && Instantiated(s[from]) ==> !Contains(r.value[to], s[from].lb + 1)
    ensures r.Ok? && from != to && Instantiated(r.value[to]) ==> !Contains(r.value[from], r.value[to].lb - 1)
  {
    if from == to then Ok(s)
    else
      var r1 := if Instantiated(s[from]) then WithoutValue(s[to], s[from].lb + 1) else Ok(s[to]);
      match r1
      case Contradiction => Contradiction
      case Ok(dt) =>
        var s1 := s[to := dt];
        if Instantiated(dt) then
          match WithoutValue(s1[from], dt.lb - 1)
          case Contradiction => Contradiction
          case Ok(df) => Ok(s1[from := df])
        else Ok(s1)
  }

  /** An arc no solution takes keeps every solution: `to` is not right after `from`. */
  lemma ArcRemovedSound(s: seq<IntDom>, from: nat, to: nat, sigma: seq<int>)
    requires AllValid(s) && from < |s| && to < |s| && Within(s, sigma)
    requires sigma[to] != sigma[from] + 1
    ensures ArcRemoved(s, from, to).Ok? && Within(ArcRemoved(s, from, to).value, sigma)
  {
    assert Contains(s[from], sigma[from]) && Contains(s[to], sigma[to]);
    if from != to {
      var r1 := if Instantiated(s[from]) then WithoutValue(s[to], s[from].lb + 1) else Ok(s[to]);
      assert r1.Ok? && Contains(r1.value, sigma[to]);
    }
  }

  //***********************************************************************************
  // THE FULL ARC PASS
  //***********************************************************************************

  /** `remArc(i, j)` for every j in [j0, n) that is not a successor of i in `env`. */
  function RemoveNonArcs(s: seq<IntDom>, i: nat, env: set<nat>, j: nat): (r: Outcome<seq<IntDom>>)
    requires AllValid(s) && i < |s|
    ensures r.Ok? ==> |r.value| == |s| && AllValid(r.value) && NarrowsAll(s, r.value)
    decreases |s| - j
  {
    if j >= |s| then Ok(s)
    else if j in env then RemoveNonArcs(s, i, env, j + 1)
    else
      match ArcRemoved(s, i, j)
      case Contradiction => Contradiction
      case Ok(s1) => RemoveNonArcs(s1, i, env, j + 1)
  }

  /**
   * What the full propagation does for node i: enforce the arc to its first kernel
   * successor, or, when it has none, remove every arc missing from the envelope.
   */
  function ArcStep(s: seq<IntDom>, kernel: seq<set<nat>>, envelope: seq<set<nat>>, i: nat): (r: Outcome<seq<IntDom>>)
    requires AllValid(s) && |kernel| == |envelope| == |s| && i < |s|
    ensures r.Ok? ==> |r.value| == |s| && AllValid(r.value) && NarrowsAll(s, r.value)
  {
    var succ := FirstFrom(kernel[i], 0, |s|);
    if succ == -1 then RemoveNonArcs(s, i, envelope[i], 0)
    else ArcEnforced(s, i, succ)
  }

  /** Continue the arc pass at node i after a step that may have failed. */
  function ThenArcPass(r: Outcome<seq<IntDom>>, kernel: seq<set<nat>>, envelope: seq<set<nat>>, i: nat): (r': Outcome<seq<IntDom>>)
    requires r.Ok? ==> AllValid(r.value) && |r.value| == |kernel| == |envelope|
    requires i <= |kernel|
    ensures r'.Ok? ==> r.Ok? && |r'.value| == |r.value| && AllValid(r'.value) && NarrowsAll(r.value, r'.value)
    decreases |kernel| - i + 1, 0
  {
    match r
    case Contradiction => Contradiction
    case Ok(s) => ArcPass(s, kernel, envelope, i)
  }

  /** The arc pass over nodes i .. n-1, in increasing order. */
  function ArcPass(s: seq<IntDom>, kernel: seq<set<nat>>, envelope: seq<set<nat>>, i: nat): (r: Outcome<seq<IntDom>>)
    requires AllValid(s) && |kernel| == |envelope| == |s|
    ensures r.Ok? ==> |r.value| == |s| && AllValid(r.value) && NarrowsAll(s, r.value)
    decreases |kernel| - i, 1
  {
    if i >= |s| then Ok(s)
    else ThenArcPass(ArcStep(s, kernel, envelope, i), kernel, envelope, i + 1)
  }

  lemma {:induction false} RemoveNonArcsSound(s: seq<IntDom>, i: nat, env: set<nat>, j: nat, sigma: seq<int>)
    requires AllValid(s) && i < |s| && Within(s, sigma)
    requires forall k :: 0 <= k < |s| && sigma[k] == sigma[i] + 1 ==> k in env
    ensures RemoveNonArcs(s, i, env, j).Ok? && Within(RemoveNonArcs(s, i, env, j).value, sigma)
    decreases |s| - j
  {
    if j < |s| {
      if j in env {
        RemoveNonArcsSound(s, i, env, j + 1, sigma);
      } else {
        ArcRemovedSound(s, i, j, sigma);
        RemoveNonArcsSound(ArcRemoved(s, i, j).value, i, env, j + 1, sigma);
      }
    }
  }

  /** The full arc pass keeps every solution of the path. */
  lemma {:induction false} ArcPassSound(s: seq<IntDom>, kernel: seq<set<nat>>, envelope: seq<set<nat>>, i: nat,
                                        v: seq<nat>, sigma: seq<int>)
    requires AllValid(s) && |kernel| == |envelope| == |s| && Within(s, sigma)
    requires IsSolution(kernel, envelope, v, sigma)
    ensures ArcPass(s, kernel, envelope, i).Ok? && Within(ArcPass(s, kernel, envelope, i).value, sigma)
    decreases |s| - i
  {
    if i < |s| {
      var succ := FirstFrom(kernel[i], 0, |s|);
      if succ == -1 {
        forall k | 0 <= k < |s| && sigma[k] == sigma[i] + 1 ensures k in envelope[i] {
          TourSuccessor(envelope, v, sigma, i, k);
        }
        RemoveNonArcsSound(s, i, envelope[i], 0, sigma);
      } else {
        ArcEnforcedSound(s, i, succ, sigma);
      }
      var s1 := ArcStep(s, kernel, envelope, i).value;
      ArcPassSound(s1, kernel, envelope, i + 1, v, sigma);
    }
  }

  //***********************************************************************************
  // REPLAYING THE GRAPH DELTA
  //***********************************************************************************

  predicate ArcsIn(arcs: seq<Arc>, n: nat)
  {
    forall k :: 0 <= k < |arcs| ==> arcs[k].from < n && arcs[k].to < n
  }

  /** `enfArc` for every newly enforced arc, in the order the delta reports them. */
  function ReplayEnforced(s: seq<IntDom>, arcs: seq<Arc>): (r: Outcome<seq<IntDom>>)
    requires AllValid(s) && ArcsIn(arcs, |s|)
    ensures r.Ok? ==> |r.value| == |s| && AllValid(r.value) && NarrowsAll(s, r.value)
    decreases |arcs|
  {
    if arcs == [] then Ok(s)
    else
      match ArcEnforced(s, arcs[0].from, arcs[0].to)
      case Contradiction => Contradiction
      case Ok(s1) => ReplayEnforced(s1, arcs[1..])
  }

  /** `remArc` for every newly removed arc, in the order the delta reports them. */
  function ReplayRemoved(s: seq<IntDom>, arcs: seq<Arc>): (r: Outcome<seq<IntDom>>)
    requires AllValid(s) && ArcsIn(arcs, |s|)
    ensures r.Ok? ==> |r.value| == |s| && AllValid(r.value) && NarrowsAll(s, r.value)
    decreases |arcs|
  {
    if arcs == [] then Ok(s)
    else
      match ArcRemoved(s, arcs[0].from, arcs[0].to)
      case Contradiction => Contradiction
      case Ok(s1) => ReplayRemoved(s1, arcs[1..])
  }

  /** Replaying arcs that are now in the kernel keeps every solution. */
  lemma {:induction false} ReplayEnforcedSound(s: seq<IntDom>, arcs: seq<Arc>, kernel: seq<set<nat>>,
                                               envelope: seq<set<nat>>, v: seq<nat>, sigma: seq<int>)
    requires AllValid(s) && ArcsIn(arcs, |s|) && |kernel| == |s| && Within(s, sigma)
    requires IsSolution(kernel, envelope, v, sigma)
    requires forall k :: 0 <= k < |arcs| ==> arcs[k].to in kernel[arcs[k].from]
    ensures ReplayEnforced(s, arcs).Ok? && Within(ReplayEnforced(s, arcs).value, sigma)
    decreases |arcs|
  {
    if arcs != [] {
      ArcEnforcedSound(s, arcs[0].from, arcs[0].to, sigma);
      ReplayEnforcedSound(ArcEnforced(s, arcs[0].from, arcs[0].to).value, arcs[1..], kernel, envelope, v, sigma);
    }
  }

  /** Replaying arcs that are no longer in the envelope keeps every solution. */
  lemma {:induction false} ReplayRemovedSound(s: seq<IntDom>, arcs: seq<Arc>, kernel: seq<set<nat>>,
                                              envelope: seq<set<nat>>, v: seq<nat>, sigma: seq<int>)
    requires AllValid(s) && ArcsIn(arcs, |s|) && |envelope| == |s| && Within(s, sigma)
    requires IsSolution(kernel, envelope, v, sigma)
    requires forall k :: 0 <= k < |arcs| ==> arcs[k].to !in envelope[arcs[k].from]
    ensures ReplayRemoved(s, arcs).Ok? && Within(ReplayRemoved(s, arcs).value, sigma)
    decreases |arcs|
  {
    if arcs != [] {
      var a := arcs[0];
      if sigma[a.to] == sigma[a.from] + 1 {
        TourSuccessor(envelope, v, sigma, a.from, a.to);
      }
      ArcRemovedSound(s, a.from, a.to, sigma);
      ReplayRemovedSound(ArcRemoved(s, a.from, a.to).value, arcs[1..], kernel, envelope, v, sigma);
    }
  }
}
