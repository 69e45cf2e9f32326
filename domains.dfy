/**
 * Variable domains of the propagation kernel and their narrowing operations.
 *
 * Integer variables have an enumerated domain: the values of [lb, ub] that are
 * not holes. Set variables have a kernel (elements surely in) and an envelope
 * (elements possibly in). Variables live in stores (arrays indexed by variable
 * number) that propagators refer to by index; a narrowing either tightens the
 * domain in place or reports a Contradiction when the domain would become empty.
 */
module Domains {

  /** Result of a narrowing: the narrowed value, or a Contradiction. */
  datatype Outcome<T> = Ok(value: T) | Contradiction

  /** Three-valued answer of an entailment check. */
  datatype ESat = True | False | Undefined

  /** Kinds of events an integer variable reports to the propagators watching it. */
  datatype IntEventType = Remove | IncLow | DecUpp | Instantiate

  /** Kinds of events a set variable reports. */
  datatype SetEventType = AddToKer | RemoveFromEnv

  /** One entry of a set variable's delta log. */
  datatype SetDeltaEntry = SetDeltaEntry(kind: SetEventType, element: int)

  //***********************************************************************************
  // INTEGER DOMAINS
  //***********************************************************************************

  /** An enumerated integer domain: the values of [lb, ub] that are not in `holes`. */
  datatype IntDom = IntDom(lb: int, ub: int, holes: set<int>)

  /** Both bounds belong to the domain, which is therefore never empty. */
  predicate ValidDom(d: IntDom)
  {
    d.lb <= d.ub && d.lb !in d.holes && d.ub !in d.holes
  }

  predicate Contains(d: IntDom, v: int)
  {
    d.lb <= v <= d.ub && v !in d.holes
  }

  predicate Instantiated(d: IntDom)
  {
    d.lb == d.ub
  }

  /** A domain without holes between its bounds (a bounded integer domain). */
  predicate IsInterval(d: IntDom)
  {
    forall v :: d.lb <= v <= d.ub ==> v !in d.holes
  }

  predicate AllValid(s: seq<IntDom>)
  {
    forall i :: 0 <= i < |s| ==> ValidDom(s[i])
  }

  /** The assignment `sigma` gives every variable of the store a value of its domain. */
  predicate Within(s: seq<IntDom>, sigma: seq<int>)
  {
    |sigma| == |s| && forall i :: 0 <= i < |s| ==> Contains(s[i], sigma[i])
  }

  /** Every value `after` admits, `before` admits too. */
  ghost predicate Narrows(before: IntDom, after: IntDom)
  {
    forall v :: Contains(after, v) ==> Contains(before, v)
  }

  /** The smallest domain value not below `v`. */
  function NextValue(d: IntDom, v: int): (r: int)
    requires ValidDom(d) && d.lb <= v <= d.ub
    ensures v <= r <= d.ub && Contains(d, r)
    ensures forall w :: v <= w < r ==> !Contains(d, w)
    decreases d.ub - v
  {
    if v !in d.holes then v else NextValue(d, v + 1)
  }

  /** The largest domain value not above `v`. */
  function PrevValue(d: IntDom, v: int): (r: int)
    requires ValidDom(d) && d.lb <= v <= d.ub
    ensures d.lb <= r <= v && Contains(d, r)
    ensures forall w :: r < w <= v ==> !Contains(d, w)
    decreases v - d.lb
  {
    if v !in d.holes then v else PrevValue(d, v - 1)
  }

  /** `updateLowerBound(v)`: keep the values >= v; fails when none is left. */
  function NarrowLb(d: IntDom, v: int): (r: Outcome<IntDom>)
    requires ValidDom(d)
    ensures r.Contradiction? <==> v > d.ub
    ensures r.Ok? ==> ValidDom(r.value) && r.value.ub == d.ub && r.value.lb >= d.lb && r.value.lb >= v
    ensures r.Ok? ==> forall w :: Contains(r.value, w) <==> Contains(d, w) && v <= w
  {
    if v > d.ub then Contradiction
    else if v <= d.lb then Ok(d)
    else Ok(d.(lb := NextValue(d, v)))
  }

  /** `updateUpperBound(v)`: keep the values <= v; fails when none is left. */
  function NarrowUb(d: IntDom, v: int): (r: Outcome<IntDom>)
    requires ValidDom(d)
    ensures r.Contradiction? <==> v < d.lb
    ensures r.Ok? ==> ValidDom(r.value) && r.value.lb == d.lb && r.value.ub <= d.ub && r.value.ub <= v
    ensures r.Ok? ==> forall w :: Contains(r.value, w) <==> Contains(d, w) && w <= v
  {
    if v < d.lb then Contradiction
    else if v >= d.ub then Ok(d)
    else Ok(d.(ub := PrevValue(d, v)))
  }

  /** `removeValue(v)`: drop one value; fails when it was the only one. */
  function WithoutValue(d: IntDom, v: int): (r: Outcome<IntDom>)
    requires ValidDom(d)
    ensures r.Contradiction? <==> d.lb == d.ub == v
    ensures r.Ok? ==> ValidDom(r.value) && d.lb <= r.value.lb && r.value.ub <= d.ub
    ensures r.Ok? ==> forall w :: Contains(r.value, w) <==> Contains(d, w) && w != v
  {
    if !Contains(d, v) then Ok(d)
    else if d.lb == d.ub then Contradiction
    else if v == d.lb then Ok(d.(lb := NextValue(d, v + 1)))
    else if v == d.ub then Ok(d.(ub := PrevValue(d, v - 1)))
    else Ok(d.(holes := d.holes + {v}))
  }

  /** The event kinds a narrowing from `before` to `after` reports. */
  function IntEventsOf(before: IntDom, after: IntDom): (r: set<IntEventType>)
    ensures after.lb > before.lb ==> IncLow in r || Instantiate in r
    ensures after.ub < before.ub ==> DecUpp in r || Instantiate in r
    ensures Instantiate in r ==> r == {Instantiate} && Instantiated(after) && !Instantiated(before)
  {
    if Instantiated(after) && !Instantiated(before) then {Instantiate}
    else
      (if after.lb > before.lb then {IncLow} else {})
      + (if after.ub < before.ub then {DecUpp} else {})
      + (if after.lb == before.lb && after.ub == before.ub && after != before then {Remove} else {})
  }

  /** A narrowing reports an event exactly when it changes the domain. */
  lemma EventsReportChange(before: IntDom, after: IntDom)
    requires ValidDom(before) && ValidDom(after) && Narrows(before, after)
    ensures IntEventsOf(before, after) == {} <==> after == before
  {
    assert Contains(after, after.lb) && Contains(after, after.ub);
  }

  /** A narrowing that reports none of the bound or instantiation events keeps both bounds. */
  lemma BoundEventsReported(before: IntDom, after: IntDom)
    requires ValidDom(before) && ValidDom(after) && Narrows(before, after)
    requires IntEventsOf(before, after) !! {IncLow, DecUpp, Instantiate}
    ensures after.lb == before.lb && after.ub == before.ub
  {
    assert Contains(after, after.lb) && Contains(after, after.ub);
  }

  //***********************************************************************************
  // INTEGER STORE OPERATIONS (the variable methods the propagators call)
  //***********************************************************************************

  method UpdateLowerBound(store: array<IntDom>, i: nat, v: int) returns (ok: bool)
    requires i < store.Length && ValidDom(store[i])
    modifies store
    ensures ok == NarrowLb(old(store[i]), v).Ok?
    ensures store[..] == if ok then old(store[..])[i := NarrowLb(old(store[i]), v).value] else old(store[..])
  {
    var r := NarrowLb(store[i], v);
    ok := r.Ok?;
    if ok {
      store[i] := r.value;
    }
  }

  method UpdateUpperBound(store: array<IntDom>, i: nat, v: int) returns (ok: bool)
    requires i < store.Length && ValidDom(store[i])
    modifies store
    ensures ok == NarrowUb(old(store[i]), v).Ok?
    ensures store[..] == if ok then old(store[..])[i := NarrowUb(old(store[i]), v).value] else old(store[..])
  {
    var r := NarrowUb(store[i], v);
    ok := r.Ok?;
    if ok {
      store[i] := r.value;
    }
  }

  method RemoveValue(store: array<IntDom>, i: nat, v: int) returns (ok: bool)
    requires i < store.Length && ValidDom(store[i])
    modifies store
    ensures ok == WithoutValue(old(store[i]), v).Ok?
    ensures store[..] == if ok then old(store[..])[i := WithoutValue(old(store[i]), v).value] else old(store[..])
  {
    var r := WithoutValue(store[i], v);
    ok := r.Ok?;
    if ok {
      store[i] := r.value;
    }
  }

  //***********************************************************************************
  // SET DOMAINS
  //***********************************************************************************

  /** A set domain: every admitted set lies between `kernel` and `envelope`. */
  datatype SetDom = SetDom(kernel: set<int>, envelope: set<int>)

  predicate ValidSet(d: SetDom)
  {
    d.kernel <= d.envelope
  }

  predicate AllValidSets(s: seq<SetDom>)
  {
    forall i :: 0 <= i < |s| ==> ValidSet(s[i])
  }

  predicate Admits(d: SetDom, v: set<int>)
  {
    d.kernel <= v <= d.envelope
  }

  /** The set assignment `sigma` gives every set variable a set its domain admits. */
  predicate SetsWithin(s: seq<SetDom>, sigma: seq<set<int>>)
  {
    |sigma| == |s| && forall i :: 0 <= i < |s| ==> Admits(s[i], sigma[i])
  }

  /** `addToKernel(e)`: admit only sets holding e; fails when e is already excluded. */
  function WithKernel(d: SetDom, e: int): (r: Outcome<SetDom>)
    requires ValidSet(d)
    ensures r.Contradiction? <==> e !in d.envelope
    ensures r.Ok? ==> ValidSet(r.value) && r.value.envelope == d.envelope && r.value.kernel == d.kernel + {e}
    ensures r.Ok? ==> forall v :: Admits(r.value, v) <==> Admits(d, v) && e in v
  {
    if e !in d.envelope then Contradiction
    else if e in d.kernel then
      assert d.kernel + {e} == d.kernel;
      Ok(d)
    else Ok(d.(kernel := d.kernel + {e}))
  }

  /** `removeFromEnvelope(e)`: admit only sets without e; fails when e is already forced. */
  function WithoutEnvelope(d: SetDom, e: int): (r: Outcome<SetDom>)
    requires ValidSet(d)
    ensures r.Contradiction? <==> e in d.kernel
    ensures r.Ok? ==> ValidSet(r.value) && r.value.kernel == d.kernel && r.value.envelope == d.envelope - {e}
    ensures r.Ok? ==> forall v :: Admits(r.value, v) <==> Admits(d, v) && e !in v
  {
    if e in d.kernel then Contradiction
    else if e !in d.envelope then
      assert d.envelope - {e} == d.envelope;
      Ok(d)
    else Ok(d.(envelope := d.envelope - {e}))
  }

  /** A set is empty or has an element. */
  lemma EmptyOrHasElement(s: set<int>)
    ensures s == {} || exists e :: e in s
  {
    if forall e :: e !in s {
      assert s == {};
    }
  }

  /** A set is a subset of another, or has an element the other lacks. */
  lemma SubsetOrWitness(a: set<int>, b: set<int>)
    ensures a <= b || exists e :: e in a && e !in b
  {
    if forall e :: e in a ==> e in b {
      assert a <= b;
    }
  }

  /** Some element of a non-empty set; the iteration order over a set is left open. */
  method Pick(s: set<int>) returns (e: int)
    requires s != {}
    ensures e in s
  {
    EmptyOrHasElement(s);
    e :| e in s;
  }

  method AddToKernel(store: array<SetDom>, i: nat, e: int) returns (ok: bool)
    requires i < store.Length && ValidSet(store[i])
    modifies store
    ensures ok == WithKernel(old(store[i]), e).Ok?
    ensures store[..] == if ok then old(store[..])[i := WithKernel(old(store[i]), e).value] else old(store[..])
  {
    var r := WithKernel(store[i], e);
    ok := r.Ok?;
    if ok {
      store[i] := r.value;
    }
  }

  method RemoveFromEnvelope(store: array<SetDom>, i: nat, e: int) returns (ok: bool)
    requires i < store.Length && ValidSet(store[i])
    modifies store
    ensures ok == WithoutEnvelope(old(store[i]), e).Ok?
    ensures store[..] == if ok then old(store[..])[i := WithoutEnvelope(old(store[i]), e).value] else old(store[..])
  {
    var r := WithoutEnvelope(store[i], e);
    ok := r.Ok?;
    if ok {
      store[i] := r.value;
    }
  }
}
