/** Routes and solutions (Route and Solution in the solver). A route is a
    vehicle id (0 for the unlimited type-0 vehicle, k >= 1 for the fixed
    vehicle with capacity q[k-1]) and the customers it visits in order; the
    depot 0 is implicit at both ends. A solution is a list of routes. */
module Routes {
  import opened Collections

  datatype Route = Route(vehicle: int, customers: seq<int>)

  datatype Solution = Solution(routes: seq<Route>)

  /** The visiting order with the depot added at both ends. */
  function ExtendWithDepots(r: Route): (l: seq<int>)
    ensures |l| == |r.customers| + 2
    ensures l[0] == 0 && l[|l| - 1] == 0
    ensures l[1..|l| - 1] == r.customers
  {
    [0] + r.customers + [0]
  }

  /** Deep copy: a new list of routes, each with a copy of its customer
      list. As values the copy equals the original, so editing a copy can
      never be observed through the original. */
  function Clone(s: Solution): (c: Solution)
    ensures |c.routes| == |s.routes|
    ensures forall i :: 0 <= i < |s.routes| ==>
              c.routes[i].vehicle == s.routes[i].vehicle && c.routes[i].customers == s.routes[i].customers
    ensures c == s
  {
    Solution(seq(|s.routes|, i requires 0 <= i < |s.routes| =>
      Route(s.routes[i].vehicle, s.routes[i].customers[..])))
  }

  /** All customers of a list of routes, route after route. */
  function Flat(rs: seq<Route>): seq<int>
  {
    if |rs| == 0 then [] else rs[0].customers + Flat(rs[1..])
  }

  lemma FlatCons(r: Route, rs: seq<Route>)
    ensures Flat([r] + rs) == r.customers + Flat(rs)
  {
    assert ([r] + rs)[1..] == rs;
  }

  lemma {:induction false} FlatAppend(a: seq<Route>, b: seq<Route>)
    ensures Flat(a + b) == Flat(a) + Flat(b)
  {
    if |a| == 0 {
      assert a + b == b;
    } else {
      assert (a + b)[1..] == a[1..] + b;
      FlatAppend(a[1..], b);
    }
  }

  /** The customers of a solution, with multiplicity. */
  function Bag(s: Solution): multiset<int>
  {
    multiset(Flat(s.routes))
  }

  /** Replacing route k changes the bag by exactly the two customer lists. */
  lemma BagUpdate(rs: seq<Route>, k: int, r: Route)
    requires 0 <= k < |rs|
    ensures Bag(Solution(rs[k := r])) + multiset(rs[k].customers) == Bag(Solution(rs)) + multiset(r.customers)
  {
    assert rs == rs[..k] + [rs[k]] + rs[k + 1..];
    assert rs[k := r] == rs[..k] + [r] + rs[k + 1..];
    FlatAppend(rs[..k] + [rs[k]], rs[k + 1..]);
    FlatAppend(rs[..k], [rs[k]]);
    FlatAppend(rs[..k] + [r], rs[k + 1..]);
    FlatAppend(rs[..k], [r]);
    assert Flat([r]) == r.customers;
    assert Flat([rs[k]]) == rs[k].customers;
  }

  /** Replacing a route by a permutation of its customers keeps the bag. */
  lemma BagPermute(rs: seq<Route>, k: int, r: Route)
    requires 0 <= k < |rs| && multiset(r.customers) == multiset(rs[k].customers)
    ensures Bag(Solution(rs[k := r])) == Bag(Solution(rs))
  {
    BagUpdate(rs, k, r);
    var a := Bag(Solution(rs[k := r]));
    var b := Bag(Solution(rs));
    forall z
      ensures a[z] == b[z]
    {
      assert (a + multiset(r.customers))[z] == (b + multiset(r.customers))[z];
    }
  }

  /** Replacing two routes by two whose customers together are the same
      keeps the bag. */
  lemma BagPair(rs: seq<Route>, i: int, j: int, a: Route, b: Route)
    requires 0 <= i < |rs| && 0 <= j < |rs| && i != j
    requires multiset(a.customers) + multiset(b.customers) == multiset(rs[i].customers) + multiset(rs[j].customers)
    ensures Bag(Solution(rs[i := a][j := b])) == Bag(Solution(rs))
  {
    BagUpdate(rs, i, a);
    BagUpdate(rs[i := a], j, b);
    assert rs[i := a][j] == rs[j];
    var x := Bag(Solution(rs[i := a][j := b]));
    var mid := Bag(Solution(rs[i := a]));
    var y := Bag(Solution(rs));
    var ma, mb := multiset(a.customers), multiset(b.customers);
    var mi, mj := multiset(rs[i].customers), multiset(rs[j].customers);
    forall z
      ensures x[z] == y[z]
    {
      assert (mid + mi)[z] == (y + ma)[z];
      assert (x + mj)[z] == (mid + mb)[z];
      assert (ma + mb)[z] == (mi + mj)[z];
    }
  }

  lemma BagAppend(rs: seq<Route>, r: Route)
    ensures Bag(Solution(rs + [r])) == Bag(Solution(rs)) + multiset(r.customers)
  {
    FlatAppend(rs, [r]);
    assert Flat([r]) == r.customers;
  }

  /** Every customer 1..n-1 is served exactly once. */
  predicate Partition(s: Solution, n: int)
  {
    Bag(s) == multiset(Interval(1, n))
  }

  /** No fixed (nonzero) vehicle id is used by two routes. */
  predicate UniqueFixedVehicles(s: Solution)
  {
    forall i, j :: 0 <= i < |s.routes| && 0 <= j < |s.routes| && i != j && s.routes[i].vehicle != 0 ==>
      s.routes[i].vehicle != s.routes[j].vehicle
  }

  predicate UsesVehicle(s: Solution, v: int)
  {
    exists i :: 0 <= i < |s.routes| && s.routes[i].vehicle == v
  }
}
