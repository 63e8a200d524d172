/** The read-only problem data the solver works on, and its capacity-only
    feasibility check (isValid). The arrays are indexed by customer id, so
    ids are exactly 0..n-1 with 0 the depot. */
module Instances {
  import opened Routes

  /** demand, startTime, endTime per customer; q[k-1] the capacity of fixed
      vehicle k; q0 the capacity of the type-0 vehicle; t the integer travel
      time matrix. */
  datatype Instance = Instance(
    demand: seq<int>,
    q: seq<int>,
    q0: int,
    startTime: seq<int>,
    endTime: seq<int>,
    t: seq<seq<int>>)

  predicate Valid(inst: Instance)
  {
    && |inst.demand| >= 1
    && |inst.startTime| == |inst.demand|
    && |inst.endTime| == |inst.demand|
    && |inst.t| == |inst.demand|
    && (forall i :: 0 <= i < |inst.t| ==> |inst.t[i]| == |inst.demand|)
  }

  predicate CustomerIds(inst: Instance, cs: seq<int>)
  {
    forall i :: 0 <= i < |cs| ==> 0 <= cs[i] < |inst.demand|
  }

  predicate RouteInRange(inst: Instance, r: Route)
  {
    0 <= r.vehicle <= |inst.q| && CustomerIds(inst, r.customers)
  }

  /** Every id the solution mentions indexes the instance arrays. */
  predicate InRange(inst: Instance, s: Solution)
  {
    forall i :: 0 <= i < |s.routes| ==> RouteInRange(inst, s.routes[i])
  }

  /** Summed demand of a customer list. */
  function Load(inst: Instance, cs: seq<int>): int
    requires CustomerIds(inst, cs)
  {
    if |cs| == 0 then 0 else Load(inst, cs[..|cs| - 1]) + inst.demand[cs[|cs| - 1]]
  }

  lemma {:induction false} LoadAppend(inst: Instance, a: seq<int>, b: seq<int>)
    requires CustomerIds(inst, a) && CustomerIds(inst, b)
    ensures CustomerIds(inst, a + b)
    ensures Load(inst, a + b) == Load(inst, a) + Load(inst, b)
    decreases |b|
  {
    if |b| > 0 {
      assert (a + b)[..|a + b| - 1] == a + b[..|b| - 1];
      LoadAppend(inst, a, b[..|b| - 1]);
    } else {
      assert a + b == a;
    }
  }

  /** Capacity of vehicle v: q0 for type 0, q[v-1] for fixed vehicle v. */
  function Capacity(inst: Instance, v: int): int
    requires 0 <= v <= |inst.q|
  {
    if v == 0 then inst.q0 else inst.q[v - 1]
  }

  /** isValid's acceptance condition: every route's load fits its vehicle.
      Coverage of the customers and uniqueness of fixed vehicles are not
      part of it. */
  predicate Feasible(inst: Instance, s: Solution)
  {
    && InRange(inst, s)
    && forall i :: 0 <= i < |s.routes| ==>
         Load(inst, s.routes[i].customers) <= Capacity(inst, s.routes[i].vehicle)
  }

  /** isValid: sum each route's demand and reject the solution at the first
      route whose load exceeds its vehicle's capacity. */
  method IsValid(inst: Instance, s: Solution) returns (ok: bool)
    requires InRange(inst, s)
    ensures ok <==> Feasible(inst, s)
  {
    var k := 0;
    while k < |s.routes|
      invariant 0 <= k <= |s.routes|
      invariant forall i :: 0 <= i < k ==>
                  Load(inst, s.routes[i].customers) <= Capacity(inst, s.routes[i].vehicle)
    {
      var r := s.routes[k];
      var load := 0;
      var i := 0;
      while i < |r.customers|
        invariant 0 <= i <= |r.customers|
        invariant load == Load(inst, r.customers[..i])
      {
        assert r.customers[..i + 1][..i] == r.customers[..i];
        load := load + inst.demand[r.customers[i]];
        i := i + 1;
      }
      assert r.customers[..i] == r.customers;
      if r.vehicle == 0 {
        if load > inst.q0 {
          return false;
        }
      } else {
        if load > inst.q[r.vehicle - 1] {
          return false;
        }
      }
      k := k + 1;
    }
    return true;
  }
}
