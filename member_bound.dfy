/**
 * Bound-membership propagator: one integer variable V confined to the constant
 * interval [lb, ub].
 */
module MemberBound {
  import opened Domains

  /** What one propagation does to V: its domain intersected with [lb, ub]. */
  function Filter(d: IntDom, lb: int, ub: int): (r: Outcome<IntDom>)
    requires ValidDom(d)
    ensures r.Contradiction? <==> forall w :: Contains(d, w) ==> w < lb || ub < w
    ensures r.Ok? ==> ValidDom(r.value) && lb <= r.value.lb && r.value.ub <= ub
    ensures r.Ok? ==> d.lb <= r.value.lb && r.value.ub <= d.ub
    ensures r.Ok? ==> forall w :: Contains(r.value, w) <==> Contains(d, w) && lb <= w <= ub
  {
    match NarrowLb(d, lb)
    case Contradiction => Contradiction
    case Ok(d1) =>
      var r := NarrowUb(d1, ub);
      assert r.Ok? ==> Contains(r.value, r.value.lb);
      r
  }

  /** The events V can report that wake this propagator. */
  function PropagationConditions(vIdx: nat): (r: set<IntEventType>)
    ensures forall e: IntEventType :: e in r <==> !e.Remove?
  {
    {IncLow, DecUpp, Instantiate}
  }

  class PropMemberBound {
    const vars: array<IntDom>
    const v: nat
    const lb: int
    const ub: int
    var passive: bool

    ghost predicate Valid()
      reads vars
    {
      v < vars.Length && ValidDom(vars[v])
    }

    constructor (vars: array<IntDom>, v: nat, lb: int, ub: int)
      requires v < vars.Length
      ensures this.vars == vars && this.v == v && this.lb == lb && this.ub == ub
      ensures !passive
    {
      this.vars := vars;
      this.v := v;
      this.lb := lb;
      this.ub := ub;
      passive := false;
    }

    /**
     * Full propagation: V's bounds are intersected with [lb, ub]; the propagator
     * becomes passive when V then lies within the interval.
     */
    method Propagate() returns (ok: bool)
      requires Valid()
      modifies this, vars
      ensures ok == Filter(old(vars[v]), lb, ub).Ok?
      ensures ok ==> Valid() && vars[..] == old(vars[..])[v := Filter(old(vars[v]), lb, ub).value]
      ensures passive == (old(passive) || (ok && lb <= vars[v].lb && vars[v].ub <= ub))
    {
      ok := UpdateLowerBound(vars, v, lb);
      if !ok {
        return;
      }
      ok := UpdateUpperBound(vars, v, ub);
      if !ok {
        return;
      }
      if lb <= vars[v].lb && ub >= vars[v].ub {
        passive := true;
      }
    }

    /** Entailment: TRUE when every value of V is in [lb, ub], FALSE when none is. */
    function IsEntailed(): (r: ESat)
      requires Valid()
      reads vars
      ensures r == True ==> forall w :: Contains(vars[v], w) ==> lb <= w <= ub
      ensures r == False ==> forall w :: Contains(vars[v], w) ==> w < lb || ub < w
      ensures r == Undefined ==> exists w :: Contains(vars[v], w) && (w < lb || ub < w)
      ensures r == Undefined && IsInterval(vars[v]) && lb <= ub ==>
                exists w :: Contains(vars[v], w) && lb <= w <= ub
      ensures r != True <==> exists w :: Contains(vars[v], w) && (w < lb || ub < w)
    {
      var d := vars[v];
      assert Contains(d, d.lb) && Contains(d, d.ub);
      if d.lb >= lb && d.ub <= ub then
        True
      else if d.ub < lb || d.lb > ub then
        False
      else
        assert lb <= ub && IsInterval(d) ==> Contains(d, if lb <= d.lb then d.lb else lb);
        Undefined
    }
  }

  /** A second propagation changes nothing. */
  lemma FilterIdempotent(d: IntDom, lb: int, ub: int)
    requires ValidDom(d) && Filter(d, lb, ub).Ok?
    ensures Filter(Filter(d, lb, ub).value, lb, ub) == Filter(d, lb, ub)
  {
  }

  /** The entailment check never answers TRUE where propagation would narrow or fail. */
  lemma EntailedMeansFixpoint(p: PropMemberBound)
    requires p.Valid() && p.IsEntailed() == True
    ensures Filter(p.vars[p.v], p.lb, p.ub) == Ok(p.vars[p.v])
  {
  }

  /**
   * The subscriptions suffice: at a fixpoint, an event that is not a bound or
   * instantiation event leaves the fixpoint in place, so the propagator need not run.
   */
  lemma UnsubscribedEventsKeepFixpoint(d: IntDom, d': IntDom, lb: int, ub: int)
    requires ValidDom(d) && ValidDom(d') && Narrows(d, d')
    requires Filter(d, lb, ub) == Ok(d)
    requires IntEventsOf(d, d') !! PropagationConditions(0)
    ensures Filter(d', lb, ub) == Ok(d')
  {
    BoundEventsReported(d, d');
  }
}
