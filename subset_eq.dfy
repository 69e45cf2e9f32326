/**
 * Subset propagator X ⊆ Y over two set variables of a store (kernel/envelope domains).
 */
module SubsetEq {
  import opened Domains

  /** The constraint itself, on one assignment of the set store. */
  predicate Holds(sigma: seq<set<int>>, x: nat, y: nat)
    requires x < |sigma| && y < |sigma|
  {
    sigma[x] <= sigma[y]
  }

  /** One set domain narrows another: the kernel only grows, the envelope only shrinks. */
  predicate SetNarrows(before: SetDom, after: SetDom)
  {
    before.kernel <= after.kernel && after.envelope <= before.envelope
  }

  /** The event kinds a narrowing from `before` to `after` reports. */
  function SetEventsOf(before: SetDom, after: SetDom): (r: set<SetEventType>)
    ensures r == {} <==> after == before
    ensures SetNarrows(before, after) ==> (AddToKer in r <==> before.kernel < after.kernel)
    ensures SetNarrows(before, after) ==> (RemoveFromEnv in r <==> after.envelope < before.envelope)
  {
    (if after.kernel != before.kernel then {AddToKer} else {})
    + (if after.envelope != before.envelope then {RemoveFromEnv} else {})
  }

  /** The element one delta entry reports as forced into the kernel, if any. */
  function ForcedBy(e: SetDeltaEntry): set<int>
  {
    if e.kind == AddToKer then {e.element} else {}
  }

  /** The element one delta entry reports as removed from the envelope, if any. */
  function RemovedBy(e: SetDeltaEntry): set<int>
  {
    if e.kind == RemoveFromEnv then {e.element} else {}
  }

  /** Elements of the "added to kernel" entries of a delta. */
  function Forced(delta: seq<SetDeltaEntry>): set<int>
  {
    if delta == [] then {} else ForcedBy(delta[0]) + Forced(delta[1..])
  }

  /** Elements of the "removed from envelope" entries of a delta. */
  function Removed(delta: seq<SetDeltaEntry>): set<int>
  {
    if delta == [] then {} else RemovedBy(delta[0]) + Removed(delta[1..])
  }

  /**
   * Full propagation: every kernel element of X is forced into Y's kernel (failing
   * when Y excludes it), then X's envelope loses the elements Y's envelope lacks.
   */
  function Filter(s: seq<SetDom>, x: nat, y: nat): (r: Outcome<seq<SetDom>>)
    requires x < |s| && y < |s| && AllValidSets(s)
    ensures r.Contradiction? <==> !(s[x].kernel <= s[y].envelope)
    ensures r.Ok? ==> |r.value| == |s| && AllValidSets(r.value)
    ensures r.Ok? ==> r.value[y].kernel == s[y].kernel + s[x].kernel
    ensures r.Ok? ==> r.value[x].envelope == s[x].envelope * s[y].envelope
    ensures r.Ok? ==> r.value[x].kernel == s[x].kernel
    ensures r.Ok? ==> r.value[y].envelope == s[y].envelope
    ensures r.Ok? ==> forall i :: 0 <= i < |s| && i != x && i != y ==> r.value[i] == s[i]
  {
    if !(s[x].kernel <= s[y].envelope) then
      Contradiction
    else
      var s1 := s[y := SetDom(s[y].kernel + s[x].kernel, s[y].envelope)];
      Ok(s1[x := SetDom(s1[x].kernel, s1[x].envelope * s1[y].envelope)])
  }

  /**
   * One replayed delta entry for variable `i` (0 for X, 1 for Y): a forced element of
   * X is forced into Y, a removed element of Y is removed from X, the rest is skipped.
   */
  function Replay(s: seq<SetDom>, x: nat, y: nat, i: nat, e: SetDeltaEntry): (r: Outcome<seq<SetDom>>)
    requires x < |s| && y < |s| && AllValidSets(s)
    ensures r.Ok? ==> |r.value| == |s| && AllValidSets(r.value)
    ensures i == 0 ==> (r.Contradiction? <==> !(ForcedBy(e) <= s[y].envelope))
    ensures i == 0 && r.Ok? ==> r.value == s[y := SetDom(s[y].kernel + ForcedBy(e), s[y].envelope)]
    ensures i != 0 ==> (r.Contradiction? <==> !(RemovedBy(e) !! s[x].kernel))
    ensures i != 0 && r.Ok? ==> r.value == s[x := SetDom(s[x].kernel, s[x].envelope - RemovedBy(e))]
  {
    if i == 0 && e.kind == AddToKer then
      match WithKernel(s[y], e.element)
      case Contradiction => Contradiction
      case Ok(dy) => Ok(s[y := dy])
    else if i != 0 && e.kind == RemoveFromEnv then
      match WithoutEnvelope(s[x], e.element)
      case Contradiction => Contradiction
      case Ok(dx) => Ok(s[x := dx])
    else
      assert s[y].kernel + {} == s[y].kernel && s[x].envelope - {} == s[x].envelope;
      Ok(s)
  }

  /**
   * Incremental propagation on variable `i`: the delta is replayed entry by entry; in
   * closed form, Y's kernel gains every element X reported as forced (i = 0), or X's
   * envelope loses every element Y reported as removed (i = 1).
   */
  function FilterOn(s: seq<SetDom>, x: nat, y: nat, i: nat, delta: seq<SetDeltaEntry>): (r: Outcome<seq<SetDom>>)
    requires x < |s| && y < |s| && AllValidSets(s)
    ensures r.Ok? ==> |r.value| == |s| && AllValidSets(r.value)
    ensures i == 0 ==> (r.Contradiction? <==> !(Forced(delta) <= s[y].envelope))
    ensures i == 0 && r.Ok? ==> r.value == s[y := SetDom(s[y].kernel + Forced(delta), s[y].envelope)]
    ensures i != 0 ==> (r.Contradiction? <==> !(Removed(delta) !! s[x].kernel))
    ensures i != 0 && r.Ok? ==> r.value == s[x := SetDom(s[x].kernel, s[x].envelope - Removed(delta))]
    decreases |delta|
  {
    if delta == [] then
      assert s[y].kernel + Forced(delta) == s[y].kernel && s[x].envelope - Removed(delta) == s[x].envelope;
      Ok(s)
    else
      match Replay(s, x, y, i, delta[0])
      case Contradiction => Contradiction
      case Ok(s1) =>
        assert i == 0 ==> s1[y].kernel + Forced(delta[1..]) == s[y].kernel + Forced(delta);
        assert i != 0 ==> s1[x].envelope - Removed(delta[1..]) == s[x].envelope - Removed(delta);
        FilterOn(s1, x, y, i, delta[1..])
  }

  /** Variable 0 (X) wakes the propagator on forced elements, variable 1 (Y) on removed ones. */
  function PropagationConditions(vIdx: nat): (r: set<SetEventType>)
    ensures AddToKer in r <==> vIdx == 0
    ensures RemoveFromEnv in r <==> vIdx != 0
  {
    if vIdx == 0 then {AddToKer} else {RemoveFromEnv}
  }

  class PropSubsetEq {
    const vars: array<SetDom>
    const x: nat
    const y: nat

    ghost predicate Valid()
      reads vars
    {
      x < vars.Length && y < vars.Length && AllValidSets(vars[..])
    }

    constructor (vars: array<SetDom>, x: nat, y: nat)
      requires x < vars.Length && y < vars.Length
      ensures this.vars == vars && this.x == x && this.y == y
    {
      this.vars := vars;
      this.x := x;
      this.y := y;
    }

    /** Full propagation, element by element over X's kernel, then over X's envelope. */
    method Propagate() returns (ok: bool)
      requires Valid()
      modifies vars
      ensures ok == Filter(old(vars[..]), x, y).Ok?
      ensures ok ==> Valid() && vars[..] == Filter(old(vars[..]), x, y).value
    {
      ghost var s0 := vars[..];
      assert s0[y := SetDom(s0[y].kernel, s0[y].envelope)] == s0;
      var toForce := vars[x].kernel;
      assert s0[y].kernel + (s0[x].kernel - toForce) == s0[y].kernel;
      while toForce != {}
        invariant Valid() && toForce <= s0[x].kernel
        invariant vars[..] == s0[y := SetDom(s0[y].kernel + (s0[x].kernel - toForce), s0[y].envelope)]
        decreases toForce
      {
        var j := Pick(toForce);
        ok := AddToKernel(vars, y, j);
        if !ok {
          return;
        }
        assert s0[y].kernel + (s0[x].kernel - toForce) + {j} == s0[y].kernel + (s0[x].kernel - (toForce - {j}));
        toForce := toForce - {j};
      }
      ghost var s1 := vars[..];
      assert s0[x].kernel - toForce == s0[x].kernel;
      assert s1[x := SetDom(s1[x].kernel, s1[x].envelope)] == s1;
      var toCheck := vars[x].envelope;
      assert s1[x].envelope * s1[y].envelope + toCheck == s1[x].envelope;
      while toCheck != {}
        invariant Valid() && toCheck <= s1[x].envelope && vars[y].envelope == s1[y].envelope
        invariant vars[..] == s1[x := SetDom(s1[x].kernel, s1[x].envelope * s1[y].envelope + toCheck)]
        decreases toCheck
      {
        var j := Pick(toCheck);
        if j !in vars[y].envelope {
          ok := RemoveFromEnvelope(vars, x, j);
          if !ok {
            return;
          }
          assert (s1[x].envelope * s1[y].envelope + toCheck) - {j} == s1[x].envelope * s1[y].envelope + (toCheck - {j});
        } else {
          assert s1[x].envelope * s1[y].envelope + toCheck == s1[x].envelope * s1[y].envelope + (toCheck - {j});
        }
        toCheck := toCheck - {j};
      }
      assert s1[x].envelope * s1[y].envelope + toCheck == s1[x].envelope * s1[y].envelope;
      ok := true;
    }

    /**
     * Incremental propagation on variable `i`: the entries of its delta are replayed in
     * order (those of the subscribed kind act, the others are skipped).
     */
    method PropagateOn(i: nat, delta: seq<SetDeltaEntry>) returns (ok: bool)
      requires Valid() && i < 2
      modifies vars
      ensures ok == FilterOn(old(vars[..]), x, y, i, delta).Ok?
      ensures ok ==> Valid() && vars[..] == FilterOn(old(vars[..]), x, y, i, delta).value
    {
      var k := 0;
      while k < |delta|
        invariant 0 <= k <= |delta| && Valid()
        invariant FilterOn(vars[..], x, y, i, delta[k..]) == FilterOn(old(vars[..]), x, y, i, delta)
      {
        var e := delta[k];
        if i == 0 {
          if e.kind == AddToKer {
            ok := AddToKernel(vars, y, e.element);
            if !ok {
              return;
            }
          }
        } else {
          if e.kind == RemoveFromEnv {
            ok := RemoveFromEnvelope(vars, x, e.element);
            if !ok {
              return;
            }
          }
        }
        assert delta[k..][1..] == delta[k + 1..];
        k := k + 1;
      }
      ok := true;
    }

    /**
     * FALSE when a kernel element of X is outside Y's envelope; otherwise UNDEFINED when
     * an envelope element of X is outside Y's kernel; otherwise TRUE.
     */
    function IsEntailed(): (r: ESat)
      requires Valid()
      reads vars
      ensures r == True ==> forall sigma :: SetsWithin(vars[..], sigma) ==> Holds(sigma, x, y)
      ensures r == False ==> forall sigma :: SetsWithin(vars[..], sigma) ==> !Holds(sigma, x, y)
      ensures r == Undefined && x != y ==>
                (exists sigma :: SetsWithin(vars[..], sigma) && Holds(sigma, x, y)) &&
                (exists sigma :: SetsWithin(vars[..], sigma) && !Holds(sigma, x, y))
    {
      var s := vars[..];
      if !(s[x].kernel <= s[y].envelope) then
        False
      else if !(s[x].envelope <= s[y].kernel) then
        UndefinedWitnesses(s, x, y);
        Undefined
      else
        True
    }
  }

  /** The two assignments that show an UNDEFINED answer is neither entailed nor refuted. */
  lemma UndefinedWitnesses(s: seq<SetDom>, x: nat, y: nat)
    requires x < |s| && y < |s| && AllValidSets(s)
    requires s[x].kernel <= s[y].envelope && !(s[x].envelope <= s[y].kernel)
    ensures exists sigma :: SetsWithin(s, sigma) && Holds(sigma, x, y)
    ensures x != y ==> exists sigma :: SetsWithin(s, sigma) && !Holds(sigma, x, y)
  {
    SubsetOrWitness(s[x].envelope, s[y].kernel);
    var e :| e in s[x].envelope && e !in s[y].kernel;
    var kernels := seq(|s|, i requires 0 <= i < |s| => s[i].kernel);
    assert SetsWithin(s, kernels);
    var sat := kernels[y := s[y].envelope];
    assert SetsWithin(s, sat) && Holds(sat, x, y);
    if x != y {
      var unsat := kernels[x := s[x].kernel + {e}];
      assert SetsWithin(s, unsat) && !Holds(unsat, x, y);
    }
  }

  /** Propagation removes no solution, and fails exactly when there is none. */
  lemma FilterSound(s: seq<SetDom>, x: nat, y: nat, sigma: seq<set<int>>)
    requires x < |s| && y < |s| && AllValidSets(s)
    requires SetsWithin(s, sigma) && Holds(sigma, x, y)
    ensures Filter(s, x, y).Ok? && SetsWithin(Filter(s, x, y).value, sigma)
  {
  }

  /** A Contradiction is only raised when no assignment satisfies X ⊆ Y. */
  lemma FilterFailsOnlyWhenUnsatisfiable(s: seq<SetDom>, x: nat, y: nat)
    requires x < |s| && y < |s| && AllValidSets(s) && Filter(s, x, y).Contradiction?
    ensures forall sigma :: SetsWithin(s, sigma) ==> !Holds(sigma, x, y)
  {
  }

  /** Propagation only narrows: every assignment it admits was admitted before. */
  lemma FilterNarrows(s: seq<SetDom>, x: nat, y: nat, sigma: seq<set<int>>)
    requires x < |s| && y < |s| && AllValidSets(s) && Filter(s, x, y).Ok?
    requires SetsWithin(Filter(s, x, y).value, sigma)
    ensures SetsWithin(s, sigma)
  {
  }

  /** A second full propagation changes nothing. */
  lemma FilterIdempotent(s: seq<SetDom>, x: nat, y: nat)
    requires x < |s| && y < |s| && AllValidSets(s) && Filter(s, x, y).Ok?
    ensures Filter(Filter(s, x, y).value, x, y) == Filter(s, x, y)
  {
    var t := Filter(s, x, y).value;
    var t1 := t[y := SetDom(t[y].kernel + t[x].kernel, t[y].envelope)];
    assert t1 == t;
    assert t1[x := SetDom(t1[x].kernel, t1[x].envelope * t1[y].envelope)] == t;
  }

  /** After a successful full propagation the constraint is entailed once X is fixed inside Y's kernel. */
  lemma FilterThenEntailed(p: PropSubsetEq)
    requires p.Valid() && Filter(p.vars[..], p.x, p.y) == Ok(p.vars[..])
    ensures p.IsEntailed() != False
    ensures p.IsEntailed() == True <==> p.vars[p.x].envelope <= p.vars[p.y].kernel
  {
  }

  /**
   * Incremental/full equivalence on X: from a fixpoint, forcing the elements `added`
   * into X's kernel and replaying a delta that reports exactly them gives the state a
   * full propagation would give.
   */
  lemma IncrementalOnXMatchesFull(s: seq<SetDom>, x: nat, y: nat, added: set<int>, delta: seq<SetDeltaEntry>)
    requires x < |s| && y < |s| && x != y && AllValidSets(s) && Filter(s, x, y) == Ok(s)
    requires added <= s[x].envelope && Forced(delta) == added
    ensures var s1 := s[x := SetDom(s[x].kernel + added, s[x].envelope)];
            AllValidSets(s1) && FilterOn(s1, x, y, 0, delta) == Filter(s1, x, y)
  {
    var s1 := s[x := SetDom(s[x].kernel + added, s[x].envelope)];
    assert AllValidSets(s1);
    if Filter(s1, x, y).Ok? {
      var t := Filter(s1, x, y).value;
      assert t[x] == s1[x] && t[y] == SetDom(s[y].kernel + added, s[y].envelope);
      assert t == s1[y := SetDom(s1[y].kernel + Forced(delta), s1[y].envelope)];
    }
  }

  /**
   * Incremental/full equivalence on Y: from a fixpoint, removing `removed` from Y's
   * envelope and replaying a delta that reports exactly them gives the full result.
   */
  lemma IncrementalOnYMatchesFull(s: seq<SetDom>, x: nat, y: nat, removed: set<int>, delta: seq<SetDeltaEntry>)
    requires x < |s| && y < |s| && x != y && AllValidSets(s) && Filter(s, x, y) == Ok(s)
    requires removed !! s[y].kernel && Removed(delta) == removed
    ensures var s1 := s[y := SetDom(s[y].kernel, s[y].envelope - removed)];
            AllValidSets(s1) && FilterOn(s1, x, y, 1, delta) == Filter(s1, x, y)
  {
    var s1 := s[y := SetDom(s[y].kernel, s[y].envelope - removed)];
    assert AllValidSets(s1);
    var t := Filter(s1, x, y).value;
    assert t[y] == s1[y];
    assert t[x] == SetDom(s[x].kernel, s[x].envelope - removed);
    assert t == s1[x := SetDom(s1[x].kernel, s1[x].envelope - Removed(delta))];
  }

  /**
   * The subscriptions suffice: at a fixpoint, a narrowing of variable `i` that reports
   * none of that variable's subscribed events leaves the fixpoint in place.
   */
  lemma UnsubscribedEventsKeepFixpoint(s: seq<SetDom>, x: nat, y: nat, i: nat, d: SetDom)
    requires x < |s| && y < |s| && x != y && i < 2 && AllValidSets(s) && Filter(s, x, y) == Ok(s)
    requires var v := if i == 0 then x else y; ValidSet(d) && SetNarrows(s[v], d)
    requires var v := if i == 0 then x else y; SetEventsOf(s[v], d) !! PropagationConditions(i)
    ensures var v := if i == 0 then x else y; Filter(s[v := d], x, y) == Ok(s[v := d])
  {
    var v := if i == 0 then x else y;
    var s1 := s[v := d];
    assert AllValidSets(s1);
    assert s1[y].kernel + s1[x].kernel == s1[y].kernel;
    assert s1[x].envelope * s1[y].envelope == s1[x].envelope;
    var t := Filter(s1, x, y).value;
    assert t[x] == s1[x] && t[y] == s1[y];
    assert t == s1;
  }

  /**
   * Scenario: X = [{1}, {1,2}], Y = [{}, {1}] narrows to Y.kernel = {1}, X.envelope = {1};
   * X's envelope then lies in Y's kernel, the condition on which `isEntailed` answers
   * TRUE, and every assignment left satisfies X ⊆ Y.
   */
  lemma ScenarioSubset()
    ensures var s := [SetDom({1}, {1, 2}), SetDom({}, {1})];
            Filter(s, 0, 1) == Ok([SetDom({1}, {1}), SetDom({1}, {1})])
    ensures var t := Filter([SetDom({1}, {1, 2}), SetDom({}, {1})], 0, 1).value;
            t[0].envelope <= t[1].kernel && forall sigma :: SetsWithin(t, sigma) ==> Holds(sigma, 0, 1)
  {
    var s := [SetDom({1}, {1, 2}), SetDom({}, {1})];
    assert {1, 2} * {1} == {1} && {} + {1} == {1};
    assert Filter(s, 0, 1).value[0] == SetDom({1}, {1});
    assert Filter(s, 0, 1).value[1] == SetDom({1}, {1});
    assert |Filter(s, 0, 1).value| == 2;
    assert Filter(s, 0, 1).value == [SetDom({1}, {1}), SetDom({1}, {1})];
  }
}
