/**
 * Linear bound propagator X + Y >= C over two integer variables of a store.
 * The two indices may name the same variable; the store semantics then reads
 * the first narrowing back, as the in-place updates of the original do.
 */
module GreaterOrEqualXYC {
  import opened Domains

  /** The constraint itself, on one assignment of the store. */
  predicate Holds(sigma: seq<int>, x: nat, y: nat, c: int)
    requires x < |sigma| && y < |sigma|
  {
    sigma[x] + sigma[y] >= c
  }

  /** Full propagation: raise x.lb to C - y.ub, then y.lb to C - x.ub. */
  function Filter(s: seq<IntDom>, x: nat, y: nat, c: int): (r: Outcome<seq<IntDom>>)
    requires x < |s| && y < |s| && AllValid(s)
    ensures r.Ok? ==> |r.value| == |s| && AllValid(r.value)
    ensures r.Ok? ==> r.value[x].lb >= c - s[y].ub && r.value[y].lb >= c - s[x].ub
    ensures r.Ok? ==> forall i :: 0 <= i < |s| ==> r.value[i].ub == s[i].ub && r.value[i].lb >= s[i].lb
    ensures r.Ok? ==> forall i :: 0 <= i < |s| && i != x && i != y ==> r.value[i] == s[i]
  {
    match NarrowLb(s[x], c - s[y].ub)
    case Contradiction => Contradiction
    case Ok(dx) =>
      var s1 := s[x := dx];
      match NarrowLb(s1[y], c - s1[x].ub)
      case Contradiction => Contradiction
      case Ok(dy) => Ok(s1[y := dy])
  }

  /**
   * Incremental propagation after an event `mask` on variable `idx` (0 for x, 1 for y):
   * an instantiation or upper-bound event re-derives only the other variable's lower
   * bound; a pure lower-bound event narrows nothing.
   */
  function FilterOn(s: seq<IntDom>, x: nat, y: nat, c: int, idx: nat, mask: set<IntEventType>): (r: Outcome<seq<IntDom>>)
    requires x < |s| && y < |s| && AllValid(s)
    ensures r.Ok? ==> |r.value| == |s| && AllValid(r.value)
    ensures r.Ok? && idx == 0 ==> forall i :: 0 <= i < |s| && i != y ==> r.value[i] == s[i]
    ensures r.Ok? && idx != 0 ==> forall i :: 0 <= i < |s| && i != x ==> r.value[i] == s[i]
    ensures Instantiate !in mask && DecUpp !in mask ==> r == Ok(s)
    ensures r.Ok? && (Instantiate in mask || DecUpp in mask) ==>
              if idx == 0 then r.value[y].lb >= c - s[x].ub else r.value[x].lb >= c - s[y].ub
  {
    if Instantiate in mask || DecUpp in mask then
      if idx == 0 then
        match NarrowLb(s[y], c - s[x].ub)
        case Contradiction => Contradiction
        case Ok(dy) => Ok(s[y := dy])
      else
        match NarrowLb(s[x], c - s[y].ub)
        case Contradiction => Contradiction
        case Ok(dx) => Ok(s[x := dx])
    else
      Ok(s)
  }

  /** The events either variable can report that wake this propagator. */
  function PropagationConditions(vIdx: nat): (r: set<IntEventType>)
    ensures forall e: IntEventType :: e in r <==> !e.Remove?
  {
    {Instantiate, IncLow, DecUpp}
  }

  class PropGreaterOrEqualXYC {
    const vars: array<IntDom>
    const x: nat
    const y: nat
    const cste: int
    var passive: bool

    ghost predicate Valid()
      reads vars
    {
      x < vars.Length && y < vars.Length && AllValid(vars[..])
    }

    constructor (vars: array<IntDom>, x: nat, y: nat, c: int)
      requires x < vars.Length && y < vars.Length
      ensures this.vars == vars && this.x == x && this.y == y && cste == c
      ensures !passive
    {
      this.vars := vars;
      this.x := x;
      this.y := y;
      cste := c;
      passive := false;
    }

    /** Full propagation; passive once x.lb + y.lb >= C. */
    method Propagate() returns (ok: bool)
      requires Valid()
      modifies this, vars
      ensures ok == Filter(old(vars[..]), x, y, cste).Ok?
      ensures ok ==> Valid() && vars[..] == Filter(old(vars[..]), x, y, cste).value
      ensures passive == (old(passive) || (ok && vars[x].lb + vars[y].lb >= cste))
    {
      ok := UpdateLowerBound(vars, x, cste - vars[y].ub);
      if !ok {
        return;
      }
      ok := UpdateLowerBound(vars, y, cste - vars[x].ub);
      if !ok {
        return;
      }
      if vars[x].lb + vars[y].lb >= cste {
        passive := true;
      }
    }

    /** Incremental propagation for an event `mask` on variable `idxVarInProp`. */
    method PropagateOn(idxVarInProp: nat, mask: set<IntEventType>) returns (ok: bool)
      requires Valid() && idxVarInProp < 2
      modifies this, vars
      ensures ok == FilterOn(old(vars[..]), x, y, cste, idxVarInProp, mask).Ok?
      ensures ok ==> Valid() && vars[..] == FilterOn(old(vars[..]), x, y, cste, idxVarInProp, mask).value
      ensures passive == (old(passive) || (ok && vars[x].lb + vars[y].lb >= cste))
    {
      if Instantiate in mask || DecUpp in mask {
        if idxVarInProp == 0 {
          ok := UpdateLowerBound(vars, y, cste - vars[x].ub);
        } else {
          ok := UpdateLowerBound(vars, x, cste - vars[y].ub);
        }
        if !ok {
          return;
        }
      }
      ok := true;
      if vars[x].lb + vars[y].lb >= cste {
        passive := true;
      }
    }

    /** FALSE when even the upper bounds miss C, TRUE when the lower bounds reach it. */
    function IsEntailed(): (r: ESat)
      requires Valid()
      reads vars
      ensures r == True ==> forall sigma :: Within(vars[..], sigma) ==> Holds(sigma, x, y, cste)
      ensures r == False ==> forall sigma :: Within(vars[..], sigma) ==> !Holds(sigma, x, y, cste)
      ensures r == Undefined ==>
                (exists sigma :: Within(vars[..], sigma) && Holds(sigma, x, y, cste)) &&
                (exists sigma :: Within(vars[..], sigma) && !Holds(sigma, x, y, cste))
    {
      var s := vars[..];
      if vars[x].ub + vars[y].ub < cste then
        assert forall sigma :: Within(s, sigma) ==> sigma[x] <= s[x].ub && sigma[y] <= s[y].ub;
        False
      else if vars[x].lb + vars[y].lb >= cste then
        assert forall sigma :: Within(s, sigma) ==> sigma[x] >= s[x].lb && sigma[y] >= s[y].lb;
        True
      else
        var lows := seq(|s|, i requires 0 <= i < |s| => s[i].lb);
        var highs := seq(|s|, i requires 0 <= i < |s| => s[i].ub);
        assert Within(s, lows) && !Holds(lows, x, y, cste);
        assert Within(s, highs) && Holds(highs, x, y, cste);
        Undefined
    }
  }

  /** Propagation removes no solution, and fails only when there is none. */
  lemma FilterSound(s: seq<IntDom>, x: nat, y: nat, c: int, sigma: seq<int>)
    requires x < |s| && y < |s| && AllValid(s)
    requires Within(s, sigma) && Holds(sigma, x, y, c)
    ensures Filter(s, x, y, c).Ok? && Within(Filter(s, x, y, c).value, sigma)
  {
    assert sigma[x] >= c - s[y].ub;
    var dx := NarrowLb(s[x], c - s[y].ub).value;
    var s1 := s[x := dx];
    assert Within(s1, sigma);
    assert sigma[y] >= c - s1[x].ub;
  }

  /** Propagation only narrows: every assignment it admits was admitted before. */
  lemma FilterNarrows(s: seq<IntDom>, x: nat, y: nat, c: int, sigma: seq<int>)
    requires x < |s| && y < |s| && AllValid(s) && Filter(s, x, y, c).Ok?
    requires Within(Filter(s, x, y, c).value, sigma)
    ensures Within(s, sigma)
  {
    var dx := NarrowLb(s[x], c - s[y].ub).value;
    var s1 := s[x := dx];
    assert Within(s1, sigma);
  }

  /** A second full propagation with no change in between changes nothing. */
  lemma FilterIdempotent(s: seq<IntDom>, x: nat, y: nat, c: int)
    requires x < |s| && y < |s| && AllValid(s) && Filter(s, x, y, c).Ok?
    ensures Filter(Filter(s, x, y, c).value, x, y, c) == Filter(s, x, y, c)
  {
    var t := Filter(s, x, y, c).value;
    assert NarrowLb(t[x], c - t[y].ub) == Ok(t[x]);
    assert t[x := t[x]] == t;
    assert NarrowLb(t[y], c - t[x].ub) == Ok(t[y]);
    assert t[y := t[y]] == t;
  }

  /** Passive is only ever set on an entailed constraint. */
  lemma PassiveMeansEntailed(p: PropGreaterOrEqualXYC)
    requires p.Valid() && p.vars[p.x].lb + p.vars[p.y].lb >= p.cste
    ensures p.IsEntailed() == True
  {
  }

  /**
   * Incremental/full equivalence: from a fixpoint, narrowing x (idx 0) and replaying
   * the events it reports gives the state a full propagation would give.
   */
  lemma IncrementalOnXMatchesFull(s: seq<IntDom>, x: nat, y: nat, c: int, dx: IntDom)
    requires x < |s| && y < |s| && x != y && AllValid(s) && Filter(s, x, y, c) == Ok(s)
    requires ValidDom(dx) && Narrows(s[x], dx)
    ensures FilterOn(s[x := dx], x, y, c, 0, IntEventsOf(s[x], dx)) == Filter(s[x := dx], x, y, c)
  {
    var s1 := s[x := dx];
    assert AllValid(s1);
    assert Contains(dx, dx.lb) && Contains(dx, dx.ub);
    assert NarrowLb(s[x], c - s[y].ub) == Ok(s[x]);
    assert NarrowLb(dx, c - s[y].ub) == Ok(dx);
    assert s1[x := dx] == s1;
    assert NarrowLb(s[y], c - s[x].ub) == Ok(s[y]);
    assert s1[y := s[y]] == s1;
  }

  /** The same equivalence for a narrowing of y (idx 1). */
  lemma IncrementalOnYMatchesFull(s: seq<IntDom>, x: nat, y: nat, c: int, dy: IntDom)
    requires x < |s| && y < |s| && x != y && AllValid(s) && Filter(s, x, y, c) == Ok(s)
    requires ValidDom(dy) && Narrows(s[y], dy)
    ensures FilterOn(s[y := dy], x, y, c, 1, IntEventsOf(s[y], dy)) == Filter(s[y := dy], x, y, c)
  {
    var s1 := s[y := dy];
    assert AllValid(s1);
    assert Contains(dy, dy.lb) && Contains(dy, dy.ub);
    assert NarrowLb(s[x], c - s[y].ub) == Ok(s[x]);
    assert NarrowLb(s[y], c - s[x].ub) == Ok(s[y]);
    assert s1[x := s[x]] == s1;
    match NarrowLb(s1[x], c - dy.ub)
    case Contradiction =>
    case Ok(dx) =>
      var s2 := s1[x := dx];
      assert NarrowLb(dy, c - dx.ub) == Ok(dy);
      assert s2[y := dy] == s2;
  }

  /**
   * The subscriptions suffice: at a fixpoint, a narrowing of x (i = 0) or of y (i = 1)
   * that reports none of the subscribed events leaves the fixpoint in place.
   */
  lemma UnsubscribedEventsKeepFixpoint(s: seq<IntDom>, x: nat, y: nat, c: int, i: nat, d: IntDom)
    requires x < |s| && y < |s| && AllValid(s) && Filter(s, x, y, c) == Ok(s) && i < 2
    requires var v := if i == 0 then x else y; ValidDom(d) && Narrows(s[v], d)
    requires var v := if i == 0 then x else y; IntEventsOf(s[v], d) !! PropagationConditions(i)
    ensures var v := if i == 0 then x else y; Filter(s[v := d], x, y, c) == Ok(s[v := d])
  {
    var v := if i == 0 then x else y;
    BoundEventsReported(s[v], d);
    var s1 := s[v := d];
    assert AllValid(s1);
    assert s1[x].lb == s[x].lb && s1[x].ub == s[x].ub && s1[y].ub == s[y].ub;
    assert NarrowLb(s[x], c - s[y].ub) == Ok(s[x]);
    assert NarrowLb(s[y], c - s[x].ub) == Ok(s[y]);
    assert NarrowLb(s1[x], c - s1[y].ub) == Ok(s1[x]);
    assert s1[x := s1[x]] == s1;
    assert NarrowLb(s1[y], c - s1[x].ub) == Ok(s1[y]);
    assert s1[y := s1[y]] == s1;
  }
}
