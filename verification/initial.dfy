/** The greedy construction of a first solution (createInitialSolution).

    Fixed vehicles are tried in descending order of capacity (ties in id
    order, as the sort is stable). Each takes the longest run of the next
    customer ids whose load fits, and the phase stops at the first vehicle
    that loads nothing or once the last customer is served. The remaining
    customers are packed greedily into type-0 vehicles of capacity q0; the
    construction fails when one of them alone exceeds q0.

    In the solver every type-0 route is given the same list object, which is
    cleared and refilled for each batch, so all type-0 routes end up holding
    the last batch. Create models that final state; CreateIntended gives each
    route its own batch. */
module InitialSolution {
  import opened Collections
  import opened Routes
  import opened Instances

  // ---------------------------------------------------------------------
  // The fleet and its stable descending sort.

  /** A fixed vehicle: its id (index in q plus one) and its capacity. */
  datatype Vehicle = Vehicle(id: int, cap: int)

  /** The fixed vehicles in id order. */
  function Fleet(q: seq<int>): seq<Vehicle>
  {
    seq(|q|, i requires 0 <= i < |q| => Vehicle(i + 1, q[i]))
  }

  /** a comes before b in the sorted fleet: larger capacity first, and on
      equal capacity the smaller id (the earlier one) first. */
  predicate Before(a: Vehicle, b: Vehicle)
  {
    a.cap > b.cap || (a.cap == b.cap && a.id < b.id)
  }

  predicate Sorted(vs: seq<Vehicle>)
  {
    forall i, j :: 0 <= i < j < |vs| ==> Before(vs[i], vs[j])
  }

  /** Ids strictly increase along the list (the original order). */
  predicate IdsIncreasing(vs: seq<Vehicle>)
  {
    forall i, j :: 0 <= i < j < |vs| ==> vs[i].id < vs[j].id
  }

  /** Insert v in front of the first element it does not come after. */
  function Insert(v: Vehicle, s: seq<Vehicle>): (r: seq<Vehicle>)
    ensures multiset(r) == multiset(s) + multiset{v}
  {
    if |s| == 0 || v.cap >= s[0].cap then [v] + s
    else
      assert s == [s[0]] + s[1..];
      [s[0]] + Insert(v, s[1..])
  }

  /** Putting in front an element that comes before every element keeps a
      list sorted. */
  lemma SortedCons(v: Vehicle, s: seq<Vehicle>)
    requires Sorted(s)
    requires forall k :: 0 <= k < |s| ==> Before(v, s[k])
    ensures Sorted([v] + s)
  {
    var r := [v] + s;
    forall i, j | 0 <= i < j < |r|
      ensures Before(r[i], r[j])
    {
      assert r[j] == s[j - 1];
      if i > 0 {
        assert r[i] == s[i - 1];
      }
    }
  }

  /** Every element of a list is in its multiset, at some index. */
  lemma InMultiset(x: Vehicle, s: seq<Vehicle>) returns (m: int)
    requires x in multiset(s)
    ensures 0 <= m < |s| && s[m] == x
  {
    m :| 0 <= m < |s| && s[m] == x;
  }

  /** Inserting an element that precedes every element of a sorted list in
      the original order keeps it sorted. */
  lemma {:induction false} InsertSorted(v: Vehicle, s: seq<Vehicle>)
    requires Sorted(s)
    requires forall k :: 0 <= k < |s| ==> v.id < s[k].id
    ensures Sorted(Insert(v, s))
  {
    if |s| == 0 || v.cap >= s[0].cap {
      forall k | 0 <= k < |s|
        ensures Before(v, s[k])
      {
        if k > 0 {
          assert Before(s[0], s[k]);
        }
      }
      SortedCons(v, s);
    } else {
      var rest := Insert(v, s[1..]);
      assert Sorted(s[1..]);
      InsertSorted(v, s[1..]);
      assert s == [s[0]] + s[1..];
      forall k | 0 <= k < |rest|
        ensures Before(s[0], rest[k])
      {
        assert rest[k] in multiset(rest);
        if rest[k] != v {
          var m := InMultiset(rest[k], s[1..]);
          assert s[m + 1] == rest[k];
        }
      }
      SortedCons(s[0], rest);
    }
  }

  /** Insertion sort from the back: OrderByDescending on capacity, which
      keeps equal capacities in their original order. */
  function SortByCapacity(vs: seq<Vehicle>): (r: seq<Vehicle>)
    ensures multiset(r) == multiset(vs)
  {
    if |vs| == 0 then []
    else
      assert vs == [vs[0]] + vs[1..];
      Insert(vs[0], SortByCapacity(vs[1..]))
  }

  /** On a list in id order the sort is sorted by Before. */
  lemma {:induction false} SortSorted(vs: seq<Vehicle>)
    requires IdsIncreasing(vs)
    ensures Sorted(SortByCapacity(vs))
  {
    if |vs| > 0 {
      var rest := SortByCapacity(vs[1..]);
      SortSorted(vs[1..]);
      forall k | 0 <= k < |rest|
        ensures vs[0].id < rest[k].id
      {
        assert rest[k] in multiset(rest);
        var m := InMultiset(rest[k], vs[1..]);
        assert vs[m + 1] == rest[k];
      }
      InsertSorted(vs[0], rest);
    }
  }

  /** A rearrangement of the fleet holds only its vehicles. */
  lemma FleetMembers(q: seq<int>, vs: seq<Vehicle>)
    requires multiset(vs) == multiset(Fleet(q))
    ensures |vs| == |q|
    ensures forall k :: 0 <= k < |vs| ==> 1 <= vs[k].id <= |q| && vs[k].cap == q[vs[k].id - 1]
  {
    assert |vs| == |multiset(vs)| == |multiset(Fleet(q))|;
    forall k | 0 <= k < |vs|
      ensures 1 <= vs[k].id <= |q| && vs[k].cap == q[vs[k].id - 1]
    {
      assert vs[k] in multiset(vs);
      var m := InMultiset(vs[k], Fleet(q));
    }
  }

  /** The order in which the fixed phase tries the vehicles. */
  function TryOrder(inst: Instance): (vs: seq<Vehicle>)
    ensures |vs| == |inst.q|
    ensures multiset(vs) == multiset(Fleet(inst.q))
    ensures Sorted(vs)
    ensures forall k :: 0 <= k < |vs| ==> 1 <= vs[k].id <= |inst.q| && vs[k].cap == inst.q[vs[k].id - 1]
  {
    var vs := SortByCapacity(Fleet(inst.q));
    SortSorted(Fleet(inst.q));
    FleetMembers(inst.q, vs);
    vs
  }

  /** In the sorted try order the ids are all different. */
  lemma TryOrderDistinct(inst: Instance, i: int, j: int)
    requires 0 <= i < j < |inst.q|
    ensures TryOrder(inst)[i].id != TryOrder(inst)[j].id
  {
    var vs := TryOrder(inst);
    assert Before(vs[i], vs[j]);
  }

  // ---------------------------------------------------------------------
  // One vehicle's run of customers.

  /** Where the loading loop for one vehicle stops (the first customer it
      does not take) and the load it has taken on. */
  datatype Loading = Loading(end: int, load: int)

  /** The loading loop for a vehicle of capacity cap, at customer j with
      the load taken so far: it takes customers while the next one fits. */
  function LoadFrom(inst: Instance, cap: int, j: int, load: int): (r: Loading)
    requires Valid(inst) && 1 <= j <= |inst.demand|
    ensures j <= r.end <= |inst.demand|
    decreases |inst.demand| - j
  {
    if j < |inst.demand| && load + inst.demand[j] <= cap then
      LoadFrom(inst, cap, j + 1, load + inst.demand[j])
    else Loading(j, load)
  }

  /** The loop's run from customer start on. */
  function LoadRun(inst: Instance, cap: int, start: int): (r: Loading)
    requires Valid(inst) && 1 <= start <= |inst.demand|
    ensures start <= r.end <= |inst.demand|
  {
    LoadFrom(inst, cap, start, 0)
  }

  lemma LoadSnoc(inst: Instance, start: int, j: int)
    requires Valid(inst) && 1 <= start <= j < |inst.demand|
    ensures CustomerIds(inst, Interval(start, j + 1))
    ensures Load(inst, Interval(start, j + 1)) == Load(inst, Interval(start, j)) + inst.demand[j]
  {
    var run := Interval(start, j + 1);
    IntervalIndex(start, j + 1);
    IntervalIndex(start, j);
    assert run[..|run| - 1] == Interval(start, j);
  }

  /** The summed demand of customers a .. b-1, by index. */
  function RunLoad(inst: Instance, a: int, b: int): int
    requires Valid(inst) && 0 <= a <= b <= |inst.demand|
    decreases b - a
  {
    if a == b then 0 else RunLoad(inst, a, b - 1) + inst.demand[b - 1]
  }

  /** RunLoad is the load of the consecutive run a .. b-1. */
  lemma {:induction false} RunLoadIsLoad(inst: Instance, a: int, b: int)
    requires Valid(inst) && 1 <= a <= b <= |inst.demand|
    ensures CustomerIds(inst, Interval(a, b))
    ensures RunLoad(inst, a, b) == Load(inst, Interval(a, b))
    decreases b - a
  {
    if a < b {
      RunLoadIsLoad(inst, a, b - 1);
      LoadSnoc(inst, a, b - 1);
    } else {
      assert Interval(a, b) == [];
    }
  }

  /** The load the loop accumulates is the summed demand of the customers
      it took, it fits whenever something was taken, and the next customer
      (if any) would not fit. */
  lemma {:induction false} LoadFromFacts(inst: Instance, cap: int, start: int, j: int, load: int)
    requires Valid(inst) && 1 <= start <= j <= |inst.demand|
    requires load == RunLoad(inst, start, j)
    requires j > start ==> load <= cap
    ensures var r := LoadFrom(inst, cap, j, load);
      && r.load == RunLoad(inst, start, r.end)
      && (r.end > start ==> r.load <= cap)
      && (r.end < |inst.demand| ==> r.load + inst.demand[r.end] > cap)
    decreases |inst.demand| - j
  {
    if j < |inst.demand| && load + inst.demand[j] <= cap {
      LoadFromFacts(inst, cap, start, j + 1, load + inst.demand[j]);
    }
  }

  /** A run that loads something is a non-empty run of consecutive
      customers whose load fits, and the customer after it would not. */
  lemma RunFull(inst: Instance, cap: int, start: int)
    requires Valid(inst) && 1 <= start <= |inst.demand|
    ensures var r := LoadRun(inst, cap, start);
      r.load > 0 ==> r.end > start && FullRun(inst, cap, Interval(start, r.end))
  {
    var r := LoadRun(inst, cap, start);
    LoadFromFacts(inst, cap, start, start, 0);
    RunLoadIsLoad(inst, start, r.end);
    var run := Interval(start, r.end);
    if r.load > 0 {
      IntervalIndex(start, r.end);
      assert run[|run| - 1] == r.end - 1;
    }
  }

  /** A fixed route's customer list as the loading loop leaves it: a
      non-empty list with a positive load that fits the vehicle, and the
      customer after its last one (if any) would overload it. */
  predicate FullRun(inst: Instance, cap: int, c: seq<int>)
  {
    && |c| > 0
    && CustomerIds(inst, c)
    && 0 < Load(inst, c) <= cap
    && (c[|c| - 1] + 1 < |inst.demand| ==> Load(inst, c) + inst.demand[c[|c| - 1] + 1] > cap)
  }

  // ---------------------------------------------------------------------
  // The fixed-vehicle phase.

  /** The routes the fixed phase builds and the last customer it serves. */
  datatype FixedPart = FixedPart(routes: seq<Route>, last: int)

  /** The fixed phase from customer last + 1 on, trying vehicles vs in
      order. */
  function FixedPhase(inst: Instance, vs: seq<Vehicle>, last: int): (r: FixedPart)
    requires Valid(inst) && 0 <= last < |inst.demand|
    ensures last <= r.last < |inst.demand|
    ensures |r.routes| <= |vs|
    decreases |vs|, 1
  {
    if |vs| == 0 then FixedPart([], last)
    else FixedWith(inst, vs, last, LoadRun(inst, vs[0].cap, last + 1))
  }

  /** The fixed phase once vs[0] has run its loading loop: a vehicle that
      loads nothing (load <= 0) ends the phase, and so does serving
      customer n - 1. */
  function FixedWith(inst: Instance, vs: seq<Vehicle>, last: int, ld: Loading): (r: FixedPart)
    requires Valid(inst) && 0 <= last < |inst.demand| && |vs| > 0
    requires last + 1 <= ld.end <= |inst.demand|
    ensures last <= r.last < |inst.demand|
    ensures |r.routes| <= |vs|
    decreases |vs|, 0
  {
    if ld.load <= 0 then FixedPart([], last)
    else
      var route := Route(vs[0].id, Interval(last + 1, ld.end));
      if ld.end == |inst.demand| then FixedPart([route], ld.end - 1)
      else
        var rest := FixedPhase(inst, vs[1..], ld.end - 1);
        FixedPart([route] + rest.routes, rest.last)
  }

  /** The k-th fixed route uses the k-th vehicle of the try order, so each
      vehicle is used at most once and in descending capacity order. */
  lemma {:induction false} FixedVehicles(inst: Instance, vs: seq<Vehicle>, last: int)
    requires Valid(inst) && 0 <= last < |inst.demand|
    ensures var r := FixedPhase(inst, vs, last);
      forall k :: 0 <= k < |r.routes| ==> r.routes[k].vehicle == vs[k].id
    decreases |vs|
  {
    if |vs| > 0 {
      var ld := LoadRun(inst, vs[0].cap, last + 1);
      assert FixedPhase(inst, vs, last) == FixedWith(inst, vs, last, ld);
      if ld.load > 0 && ld.end < |inst.demand| {
        FixedVehicles(inst, vs[1..], ld.end - 1);
      }
    }
  }

  /** A route serving a .. m-1 followed by routes serving m .. b-1 serves
      a .. b-1. */
  lemma RunThenRest(v: int, run: seq<int>, rest: seq<Route>, a: int, m: int, b: int)
    requires a <= m <= b && run == Interval(a, m) && Flat(rest) == Interval(m, b)
    ensures Flat([Route(v, run)] + rest) == Interval(a, b)
  {
    FlatCons(Route(v, run), rest);
    IntervalSplit(a, m, b);
  }

  /** The fixed routes serve the customers last + 1 .. r.last, in order and
      each exactly once. */
  lemma {:induction false} FixedCover(inst: Instance, vs: seq<Vehicle>, last: int)
    requires Valid(inst) && 0 <= last < |inst.demand|
    ensures var r := FixedPhase(inst, vs, last);
      Flat(r.routes) == Interval(last + 1, r.last + 1)
    decreases |vs|
  {
    if |vs| == 0 {
      assert Interval(last + 1, last + 1) == [];
    } else {
      var ld := LoadRun(inst, vs[0].cap, last + 1);
      var r := FixedWith(inst, vs, last, ld);
      assert FixedPhase(inst, vs, last) == r;
      var run := Interval(last + 1, ld.end);
      if ld.load <= 0 {
        assert Interval(last + 1, last + 1) == [];
      } else if ld.end == |inst.demand| {
        FlatCons(Route(vs[0].id, run), []);
        assert run + [] == run;
      } else {
        var rest := FixedPhase(inst, vs[1..], ld.end - 1);
        assert r.routes == [Route(vs[0].id, run)] + rest.routes && r.last == rest.last;
        FixedCover(inst, vs[1..], ld.end - 1);
        RunThenRest(vs[0].id, run, rest.routes, last + 1, ld.end, rest.last + 1);
      }
    }
  }

  /** Every fixed route is a full run for its vehicle's capacity. */
  lemma {:induction false} FixedRuns(inst: Instance, vs: seq<Vehicle>, last: int)
    requires Valid(inst) && 0 <= last < |inst.demand|
    ensures var r := FixedPhase(inst, vs, last);
      forall k :: 0 <= k < |r.routes| ==> FullRun(inst, vs[k].cap, r.routes[k].customers)
    decreases |vs|
  {
    if |vs| > 0 {
      var ld := LoadRun(inst, vs[0].cap, last + 1);
      var r := FixedWith(inst, vs, last, ld);
      assert FixedPhase(inst, vs, last) == r;
      RunFull(inst, vs[0].cap, last + 1);
      if ld.load > 0 && ld.end < |inst.demand| {
        var rest := FixedPhase(inst, vs[1..], ld.end - 1);
        FixedRuns(inst, vs[1..], ld.end - 1);
        forall k | 1 <= k < |r.routes|
          ensures FullRun(inst, vs[k].cap, r.routes[k].customers)
        {
          assert r.routes[k] == rest.routes[k - 1];
          assert vs[k] == vs[1..][k - 1];
        }
      }
    }
  }

  /** The phase ends because the last customer is served, or the vehicles
      ran out, or the next vehicle in the try order loads nothing. */
  lemma {:induction false} FixedStops(inst: Instance, vs: seq<Vehicle>, last: int)
    requires Valid(inst) && 0 <= last < |inst.demand|
    ensures var r := FixedPhase(inst, vs, last);
      || r.last == |inst.demand| - 1
      || |r.routes| == |vs|
      || LoadRun(inst, vs[|r.routes|].cap, r.last + 1).load <= 0
    decreases |vs|
  {
    if |vs| > 0 {
      var ld := LoadRun(inst, vs[0].cap, last + 1);
      var r := FixedWith(inst, vs, last, ld);
      assert FixedPhase(inst, vs, last) == r;
      if ld.load > 0 && ld.end < |inst.demand| {
        var rest := FixedPhase(inst, vs[1..], ld.end - 1);
        FixedStops(inst, vs[1..], ld.end - 1);
        assert |r.routes| == 1 + |rest.routes|;
        if |rest.routes| < |vs| - 1 {
          assert vs[|r.routes|] == vs[1..][|rest.routes|];
        }
      }
    }
  }

  /** The fixed phase of createInitialSolution, starting after the depot. */
  function Fixed(inst: Instance): FixedPart
    requires Valid(inst)
  {
    FixedPhase(inst, TryOrder(inst), 0)
  }

  // ---------------------------------------------------------------------
  // The type-0 phase.

  /** The routes flushed so far and the batch being filled. */
  datatype Packing = Packing(flushed: seq<Route>, batch: seq<int>)

  /** Customers i .. n-1 packed into type-0 vehicles: a customer whose
      demand exceeds q0 fails the construction; one that fits goes into the
      batch; otherwise the batch is flushed as a route and a new batch starts
      with the customer. */
  function Pack(inst: Instance, i: int, acc: Packing, load: int): Option<Packing>
    requires Valid(inst) && 1 <= i <= |inst.demand|
    decreases |inst.demand| - i
  {
    if i == |inst.demand| then Some(acc)
    else if inst.demand[i] > inst.q0 then None
    else if inst.demand[i] + load <= inst.q0 then
      Pack(inst, i + 1, Packing(acc.flushed, acc.batch + [i]), load + inst.demand[i])
    else
      Pack(inst, i + 1, Packing(acc.flushed + [Route(0, acc.batch)], [i]), inst.demand[i])
  }

  /** Packing fails exactly when a remaining customer alone exceeds q0. */
  lemma {:induction false} PackFails(inst: Instance, i: int, acc: Packing, load: int)
    requires Valid(inst) && 1 <= i <= |inst.demand|
    ensures Pack(inst, i, acc, load).None? <==> exists k :: i <= k < |inst.demand| && inst.demand[k] > inst.q0
    decreases |inst.demand| - i
  {
    if i < |inst.demand| && inst.demand[i] <= inst.q0 {
      if inst.demand[i] + load <= inst.q0 {
        PackFails(inst, i + 1, Packing(acc.flushed, acc.batch + [i]), load + inst.demand[i]);
      } else {
        PackFails(inst, i + 1, Packing(acc.flushed + [Route(0, acc.batch)], [i]), inst.demand[i]);
      }
    }
  }

  /** Packing appends the remaining customers, in order, to what the
      flushed routes and the batch already hold. */
  lemma {:induction false} PackCover(inst: Instance, i: int, acc: Packing, load: int)
    requires Valid(inst) && 1 <= i <= |inst.demand|
    ensures var res := Pack(inst, i, acc, load);
      res.Some? ==> Flat(res.value.flushed) + res.value.batch == Flat(acc.flushed) + acc.batch + Interval(i, |inst.demand|)
    decreases |inst.demand| - i
  {
    var n := |inst.demand|;
    if i == n {
      assert Interval(i, n) == [];
      assert Flat(acc.flushed) + acc.batch + [] == Flat(acc.flushed) + acc.batch;
    } else if inst.demand[i] <= inst.q0 {
      var next := if inst.demand[i] + load <= inst.q0 then Packing(acc.flushed, acc.batch + [i])
                  else Packing(acc.flushed + [Route(0, acc.batch)], [i]);
      var nl := if inst.demand[i] + load <= inst.q0 then load + inst.demand[i] else inst.demand[i];
      assert Pack(inst, i, acc, load) == Pack(inst, i + 1, next, nl);
      PackCover(inst, i + 1, next, nl);
      PackStepCover(inst, i, acc, next);
    }
  }

  /** One packing step moves customer i from the remaining ones to the
      flushed routes and the batch. */
  lemma PackStepCover(inst: Instance, i: int, acc: Packing, next: Packing)
    requires Valid(inst) && 1 <= i < |inst.demand|
    requires next == Packing(acc.flushed, acc.batch + [i])
          || next == Packing(acc.flushed + [Route(0, acc.batch)], [i])
    ensures Flat(next.flushed) + next.batch + Interval(i + 1, |inst.demand|)
         == Flat(acc.flushed) + acc.batch + Interval(i, |inst.demand|)
  {
    var n := |inst.demand|;
    IntervalSplit(i, i + 1, n);
    assert Interval(i, i + 1) == [i];
    if next != Packing(acc.flushed, acc.batch + [i]) {
      FlatAppend(acc.flushed, [Route(0, acc.batch)]);
      FlatCons(Route(0, acc.batch), []);
      assert acc.batch + [] == acc.batch;
    }
  }

  /** A type-0 route holding one batch: non-empty, within q0. */
  predicate Batch(inst: Instance, r: Route)
  {
    && r.vehicle == 0
    && |r.customers| > 0
    && CustomerIds(inst, r.customers)
    && Load(inst, r.customers) <= inst.q0
  }

  /** Every flushed route is a batch, and the batch being filled, once it
      holds a customer, fits q0. */
  predicate PackShape(inst: Instance, acc: Packing)
  {
    && (forall k :: 0 <= k < |acc.flushed| ==> Batch(inst, acc.flushed[k]))
    && CustomerIds(inst, acc.batch)
    && (|acc.batch| > 0 ==> Load(inst, acc.batch) <= inst.q0)
  }

  lemma PackAdd(inst: Instance, i: int, acc: Packing, load: int)
    requires Valid(inst) && 1 <= i < |inst.demand|
    requires PackShape(inst, acc) && load == Load(inst, acc.batch)
    requires inst.demand[i] + load <= inst.q0
    ensures PackShape(inst, Packing(acc.flushed, acc.batch + [i]))
    ensures Load(inst, acc.batch + [i]) == load + inst.demand[i]
  {
    var b := acc.batch + [i];
    assert b[..|b| - 1] == acc.batch;
  }

  lemma PackFlush(inst: Instance, i: int, acc: Packing, load: int)
    requires Valid(inst) && 1 <= i < |inst.demand|
    requires PackShape(inst, acc) && load == Load(inst, acc.batch)
    requires inst.demand[i] <= inst.q0 < inst.demand[i] + load
    ensures PackShape(inst, Packing(acc.flushed + [Route(0, acc.batch)], [i]))
    ensures Load(inst, [i]) == inst.demand[i]
  {
    var fl := acc.flushed + [Route(0, acc.batch)];
    assert [i][..0] == [];
    assert Batch(inst, Route(0, acc.batch));
    forall k | 0 <= k < |fl|
      ensures Batch(inst, fl[k])
    {
      if k < |acc.flushed| {
        assert fl[k] == acc.flushed[k];
      }
    }
  }

  /** Packing keeps every route a batch within q0. */
  lemma {:induction false} PackKeeps(inst: Instance, i: int, acc: Packing, load: int)
    requires Valid(inst) && 1 <= i <= |inst.demand|
    requires PackShape(inst, acc) && load == Load(inst, acc.batch)
    ensures var res := Pack(inst, i, acc, load);
      res.Some? ==> PackShape(inst, res.value)
    decreases |inst.demand| - i
  {
    if i < |inst.demand| && inst.demand[i] <= inst.q0 {
      if inst.demand[i] + load <= inst.q0 {
        var next := Packing(acc.flushed, acc.batch + [i]);
        PackAdd(inst, i, acc, load);
        PackKeeps(inst, i + 1, next, load + inst.demand[i]);
        assert Pack(inst, i, acc, load) == Pack(inst, i + 1, next, load + inst.demand[i]);
      } else {
        var next := Packing(acc.flushed + [Route(0, acc.batch)], [i]);
        PackFlush(inst, i, acc, load);
        PackKeeps(inst, i + 1, next, inst.demand[i]);
        assert Pack(inst, i, acc, load) == Pack(inst, i + 1, next, inst.demand[i]);
      }
    }
  }

  /** After at least one step the batch is never empty. */
  lemma {:induction false} PackBatchNonEmpty(inst: Instance, i: int, acc: Packing, load: int)
    requires Valid(inst) && 1 <= i <= |inst.demand|
    requires i < |inst.demand| || |acc.batch| > 0
    ensures var res := Pack(inst, i, acc, load);
      res.Some? ==> |res.value.batch| > 0
    decreases |inst.demand| - i
  {
    if i < |inst.demand| && inst.demand[i] <= inst.q0 {
      if inst.demand[i] + load <= inst.q0 {
        PackBatchNonEmpty(inst, i + 1, Packing(acc.flushed, acc.batch + [i]), load + inst.demand[i]);
      } else {
        PackBatchNonEmpty(inst, i + 1, Packing(acc.flushed + [Route(0, acc.batch)], [i]), inst.demand[i]);
      }
    }
  }

  // ---------------------------------------------------------------------
  // The whole construction.

  /** The type-0 phase after the fixed phase served customers up to last. */
  function TypeZero(inst: Instance, last: int): Option<Packing>
    requires Valid(inst) && 0 <= last < |inst.demand|
  {
    Pack(inst, last + 1, Packing([], []), 0)
  }

  /** createInitialSolution as written: the type-0 phase runs only when
      customers remain; every type-0 route it adds holds the final batch,
      since they all share one list that each flush clears and refills. */
  function Create(inst: Instance): Option<Solution>
    requires Valid(inst)
  {
    var fx := Fixed(inst);
    if fx.last == |inst.demand| - 1 then Some(Solution(fx.routes))
    else match TypeZero(inst, fx.last)
      case None => None
      case Some(p) =>
        var count := |p.flushed| + (if |p.batch| > 0 then 1 else 0);
        Some(Solution(fx.routes + seq(count, _ => Route(0, p.batch))))
  }

  /** createInitialSolution with a fresh list per type-0 route. */
  function CreateIntended(inst: Instance): Option<Solution>
    requires Valid(inst)
  {
    var fx := Fixed(inst);
    if fx.last == |inst.demand| - 1 then Some(Solution(fx.routes))
    else match TypeZero(inst, fx.last)
      case None => None
      case Some(p) =>
        Some(Solution(fx.routes + Batches(p)))
  }

  /** The construction fails exactly when the fixed phase leaves customers
      and one of them alone exceeds q0; sharing the list does not change
      when it fails. */
  lemma CreateFails(inst: Instance)
    requires Valid(inst)
    ensures Create(inst).None? <==> CreateIntended(inst).None?
    ensures Create(inst).None? <==>
      exists k :: Fixed(inst).last < k < |inst.demand| && inst.demand[k] > inst.q0
  {
    var fx := Fixed(inst);
    if fx.last < |inst.demand| - 1 {
      PackFails(inst, fx.last + 1, Packing([], []), 0);
    }
  }

  /** The k-th fixed route carries the k-th vehicle of the try order. */
  lemma FixedIds(inst: Instance)
    requires Valid(inst)
    ensures var vs := TryOrder(inst); var fx := Fixed(inst);
      && |fx.routes| <= |vs|
      && forall k :: 0 <= k < |fx.routes| ==> fx.routes[k].vehicle == vs[k].id
  {
    FixedVehicles(inst, TryOrder(inst), 0);
  }

  /** Every fixed route is in range and fits its non-zero vehicle. */
  lemma FixedFits(inst: Instance)
    requires Valid(inst)
    ensures var fx := Fixed(inst);
      && Feasible(inst, Solution(fx.routes))
      && (forall k :: 0 <= k < |fx.routes| ==> fx.routes[k].vehicle != 0)
  {
    var vs := TryOrder(inst);
    var fx := Fixed(inst);
    FixedIds(inst);
    assert forall k :: 0 <= k < |fx.routes| ==> FullRun(inst, vs[k].cap, fx.routes[k].customers) by {
      FixedRuns(inst, vs, 0);
    }
    forall k | 0 <= k < |fx.routes|
      ensures RouteInRange(inst, fx.routes[k])
      ensures Load(inst, fx.routes[k].customers) <= Capacity(inst, fx.routes[k].vehicle)
    {
      assert FullRun(inst, vs[k].cap, fx.routes[k].customers);
    }
  }

  /** No fixed vehicle carries two fixed routes. */
  lemma FixedUnique(inst: Instance)
    requires Valid(inst)
    ensures UniqueFixedVehicles(Solution(Fixed(inst).routes))
  {
    var fx := Fixed(inst);
    FixedIds(inst);
    forall i, j | 0 <= i < |fx.routes| && 0 <= j < |fx.routes| && i != j
      ensures fx.routes[i].vehicle != fx.routes[j].vehicle
    {
      if i < j {
        TryOrderDistinct(inst, i, j);
      } else {
        TryOrderDistinct(inst, j, i);
      }
    }
  }

  /** Fixed routes: all vehicles non-zero and distinct, every route fits,
      and together they serve customers 1 .. last. */
  lemma FixedSolution(inst: Instance)
    requires Valid(inst)
    ensures var fx := Fixed(inst);
      && Feasible(inst, Solution(fx.routes))
      && UniqueFixedVehicles(Solution(fx.routes))
      && (forall k :: 0 <= k < |fx.routes| ==> fx.routes[k].vehicle != 0)
      && Flat(fx.routes) == Interval(1, fx.last + 1)
  {
    FixedCover(inst, TryOrder(inst), 0);
    FixedFits(inst);
    FixedUnique(inst);
  }

  /** Routes that are all type 0 and fit q0. */
  predicate TypeZeroRoutes(inst: Instance, rs: seq<Route>)
  {
    forall k :: 0 <= k < |rs| ==>
      rs[k].vehicle == 0 && CustomerIds(inst, rs[k].customers) && Load(inst, rs[k].customers) <= inst.q0
  }

  /** Appending type-0 routes that fit to a feasible solution keeps it
      feasible and keeps its fixed vehicles unique. */
  lemma AppendTypeZero(inst: Instance, fixed: seq<Route>, zs: seq<Route>)
    requires Feasible(inst, Solution(fixed)) && UniqueFixedVehicles(Solution(fixed))
    requires forall k :: 0 <= k < |fixed| ==> fixed[k].vehicle != 0
    requires TypeZeroRoutes(inst, zs)
    ensures Feasible(inst, Solution(fixed + zs)) && UniqueFixedVehicles(Solution(fixed + zs))
  {
    var rs := fixed + zs;
    forall k | 0 <= k < |rs|
      ensures RouteInRange(inst, rs[k]) && Load(inst, rs[k].customers) <= Capacity(inst, rs[k].vehicle)
    {
      if k >= |fixed| {
        assert rs[k] == zs[k - |fixed|];
      }
    }
    forall i, j | 0 <= i < |rs| && 0 <= j < |rs| && i != j && rs[i].vehicle != 0
      ensures rs[i].vehicle != rs[j].vehicle
    {
      if j >= |fixed| {
        assert rs[j] == zs[j - |fixed|];
      }
    }
  }

  /** The type-0 phase's routes and final batch all fit q0, and together
      serve the customers after last, in order. */
  lemma TypeZeroFacts(inst: Instance, last: int)
    requires Valid(inst) && 0 <= last < |inst.demand| - 1
    ensures var res := TypeZero(inst, last);
      res.Some? ==>
        && PackShape(inst, res.value)
        && |res.value.batch| > 0
        && Flat(res.value.flushed) + res.value.batch == Interval(last + 1, |inst.demand|)
  {
    var acc := Packing([], []);
    assert Flat(acc.flushed) + acc.batch + Interval(last + 1, |inst.demand|) == Interval(last + 1, |inst.demand|);
    PackCover(inst, last + 1, acc, 0);
    PackKeeps(inst, last + 1, acc, 0);
    PackBatchNonEmpty(inst, last + 1, acc, 0);
  }

  /** As written, every solution built is feasible and uses each fixed
      vehicle at most once. */
  lemma CreateFeasible(inst: Instance)
    requires Valid(inst)
    ensures Create(inst).Some? ==>
      Feasible(inst, Create(inst).value) && UniqueFixedVehicles(Create(inst).value)
  {
    var fx := Fixed(inst);
    FixedSolution(inst);
    if fx.last < |inst.demand| - 1 && TypeZero(inst, fx.last).Some? {
      var p := TypeZero(inst, fx.last).value;
      TypeZeroFacts(inst, fx.last);
      var count := |p.flushed| + 1;
      AppendTypeZero(inst, fx.routes, seq(count, _ => Route(0, p.batch)));
    } else if fx.last == |inst.demand| - 1 {
      assert fx.routes + [] == fx.routes;
      AppendTypeZero(inst, fx.routes, []);
    }
  }

  /** The routes the type-0 phase hands out, one per batch. */
  function Batches(p: Packing): seq<Route>
  {
    p.flushed + (if |p.batch| > 0 then [Route(0, p.batch)] else [])
  }

  lemma BatchesFit(inst: Instance, p: Packing)
    requires PackShape(inst, p)
    ensures TypeZeroRoutes(inst, Batches(p))
    ensures Flat(Batches(p)) == Flat(p.flushed) + p.batch
  {
    var zs := Batches(p);
    forall k | 0 <= k < |zs|
      ensures zs[k].vehicle == 0 && CustomerIds(inst, zs[k].customers) && Load(inst, zs[k].customers) <= inst.q0
    {
      if k < |p.flushed| {
        assert Batch(inst, p.flushed[k]);
      }
    }
    FlatAppend(p.flushed, if |p.batch| > 0 then [Route(0, p.batch)] else []);
    FlatCons(Route(0, p.batch), []);
    assert p.batch + [] == p.batch;
    assert Flat(p.flushed) + [] == Flat(p.flushed);
  }

  /** The type-0 routes CreateIntended hands out: all fit q0 and together
      serve the customers after last, in order. */
  lemma TypeZeroPart(inst: Instance, last: int) returns (zs: seq<Route>)
    requires Valid(inst) && 0 <= last < |inst.demand| - 1 && TypeZero(inst, last).Some?
    ensures zs == Batches(TypeZero(inst, last).value)
    ensures TypeZeroRoutes(inst, zs)
    ensures Flat(zs) == Interval(last + 1, |inst.demand|)
  {
    var p := TypeZero(inst, last).value;
    TypeZeroFacts(inst, last);
    BatchesFit(inst, p);
    zs := Batches(p);
  }

  /** The solution CreateIntended builds from the fixed routes and the
      type-0 phase. */
  lemma IntendedShape(inst: Instance) returns (fx: FixedPart, zs: seq<Route>)
    requires Valid(inst) && CreateIntended(inst).Some?
    ensures fx == Fixed(inst)
    ensures CreateIntended(inst).value == Solution(fx.routes + zs)
    ensures TypeZeroRoutes(inst, zs)
    ensures Flat(fx.routes) + Flat(zs) == Interval(1, |inst.demand|)
  {
    fx := Fixed(inst);
    var n := |inst.demand|;
    var head := Flat(fx.routes);
    assert head == Interval(1, fx.last + 1) by {
      FixedCover(inst, TryOrder(inst), 0);
    }
    if fx.last < n - 1 {
      zs := TypeZeroPart(inst, fx.last);
      assert head + Flat(zs) == Interval(1, n) by {
        IntervalSplit(1, fx.last + 1, n);
      }
    } else {
      zs := [];
      assert fx.routes + [] == fx.routes;
      assert head + Flat(zs) == Interval(1, n) by {
        assert Flat(zs) == [];
        assert head + [] == head;
      }
    }
  }

  /** With a list per route the construction is correct: every customer
      1 .. n-1 is served exactly once, every route fits, and each fixed
      vehicle is used at most once. */
  lemma CreateIntendedCorrect(inst: Instance)
    requires Valid(inst)
    ensures CreateIntended(inst).Some? ==>
      && Partition(CreateIntended(inst).value, |inst.demand|)
      && Feasible(inst, CreateIntended(inst).value)
      && UniqueFixedVehicles(CreateIntended(inst).value)
  {
    if CreateIntended(inst).Some? {
      var fx, zs := IntendedShape(inst);
      FixedSolution(inst);
      AppendTypeZero(inst, fx.routes, zs);
      FlatAppend(fx.routes, zs);
    }
  }

  /** The type-0 phase flushes at least one batch before its last one:
      only then are two type-0 routes built. */
  predicate Flushes(inst: Instance)
    requires Valid(inst)
  {
    var fx := Fixed(inst);
    && fx.last < |inst.demand| - 1
    && TypeZero(inst, fx.last).Some?
    && |TypeZero(inst, fx.last).value.flushed| > 0
  }

  /** In a run of consecutive ids, a non-empty part and a later part
      are different lists. */
  lemma LaterPartDiffers(a: int, b: int, x: seq<int>, y: seq<int>, z: seq<int>)
    requires |x| > 0 && x + y + z == Interval(a, b)
    ensures x != z
  {
    var s := x + y + z;
    assert x[0] == s[0] == a;
    if |z| > 0 {
      assert z[0] == s[|x| + |y|] == a + |x| + |y|;
    }
  }

  /** Sharing the list is harmless exactly when the type-0 phase builds
      at most one route. */
  lemma SharingHarmless(inst: Instance)
    requires Valid(inst)
    ensures Create(inst) == CreateIntended(inst) <==> !Flushes(inst)
  {
    var fx := Fixed(inst);
    var n := |inst.demand|;
    if fx.last < n - 1 && TypeZero(inst, fx.last).Some? {
      var p := TypeZero(inst, fx.last).value;
      TypeZeroFacts(inst, fx.last);
      var shared := seq(|p.flushed| + 1, _ => Route(0, p.batch));
      assert Create(inst) == Some(Solution(fx.routes + shared));
      assert CreateIntended(inst) == Some(Solution(fx.routes + Batches(p)));
      if |p.flushed| == 0 {
        assert shared == Batches(p);
      } else {
        var rest := Flat(p.flushed[1..]);
        assert Flat(p.flushed) == p.flushed[0].customers + rest;
        LaterPartDiffers(fx.last + 1, n, p.flushed[0].customers, rest, p.batch);
        assert (fx.routes + shared)[|fx.routes|] != (fx.routes + Batches(p))[|fx.routes|];
      }
    }
  }

  /** Conversely, whenever the type-0 phase flushes a batch, the solution
      built serves the customers of the last batch twice, so it is never a
      partition of the customers. */
  lemma SharingBreaksPartition(inst: Instance)
    requires Valid(inst)
    ensures Flushes(inst) ==> Create(inst).Some? && !Partition(Create(inst).value, |inst.demand|)
  {
    if Flushes(inst) {
      var fx := Fixed(inst);
      var p := TypeZero(inst, fx.last).value;
      TypeZeroFacts(inst, fx.last);
      var r := Route(0, p.batch);
      var shared := seq(|p.flushed| + 1, _ => r);
      assert Create(inst) == Some(Solution(fx.routes + shared));
      var tail := shared[2..];
      assert shared == [r] + ([r] + tail);
      FlatAppend(fx.routes, shared);
      FlatCons(r, [r] + tail);
      FlatCons(r, tail);
      var c := p.batch[0];
      var all := Flat(fx.routes) + p.batch + (p.batch + Flat(tail));
      assert Flat(fx.routes + shared) == all;
      assert multiset(p.batch)[c] >= 1;
      assert multiset(all)[c] >= 2;
      IntervalCount(1, |inst.demand|, c);
    }
  }

  /** No fixed vehicles, q0 = 10, customers 1 and 2 of demand 6 each. */
  function SharingInstance(): (inst: Instance)
    ensures Valid(inst) && |inst.demand| == 3
  {
    Instance([0, 6, 6], [], 10, [0, 0, 0], [0, 0, 0], [[0, 0, 0], [0, 0, 0], [0, 0, 0]])
  }

  /** On that instance the fixed phase builds nothing and the type-0 phase
      flushes customer 1 and ends with customer 2 in the batch. */
  lemma SharingPhases()
    ensures Fixed(SharingInstance()) == FixedPart([], 0)
    ensures TypeZero(SharingInstance(), 0) == Some(Packing([Route(0, [1])], [2]))
  {
    var inst := SharingInstance();
    assert TryOrder(inst) == [];
    var noIds: seq<int> := [];
    var noRoutes: seq<Route> := [];
    assert noIds + [1] == [1];
    assert noRoutes + [Route(0, [1])] == [Route(0, [1])];
    assert inst.demand[1] == 6 && inst.demand[2] == 6;
    assert Pack(inst, 3, Packing([Route(0, [1])], [2]), 6) == Some(Packing([Route(0, [1])], [2]));
    assert Pack(inst, 2, Packing([], [1]), 6) == Pack(inst, 3, Packing([Route(0, [1])], [2]), 6);
    assert Pack(inst, 1, Packing([], []), 0) == Pack(inst, 2, Packing([], [1]), 6);
  }

  /** On that instance the solver returns two routes both serving
      customer 2, which is not a partition of the customers. */
  lemma SharingCounterexample()
    ensures Create(SharingInstance()) == Some(Solution([Route(0, [2]), Route(0, [2])]))
    ensures !Partition(Solution([Route(0, [2]), Route(0, [2])]), 3)
  {
    SharingPhases();
    var noRoutes: seq<Route> := [];
    assert seq(2, _ => Route(0, [2])) == [Route(0, [2]), Route(0, [2])];
    assert noRoutes + [Route(0, [2]), Route(0, [2])] == [Route(0, [2]), Route(0, [2])];
    assert Flat([Route(0, [2]), Route(0, [2])]) == [2, 2] by {
      FlatCons(Route(0, [2]), [Route(0, [2])]);
      FlatCons(Route(0, [2]), []);
    }
    assert Interval(1, 3) == [1, 2];
    assert multiset([2, 2])[1] == 0;
  }

  /** With a list per route the same instance gets customer 1 and
      customer 2 each on their own route. */
  lemma SharingIntended()
    ensures CreateIntended(SharingInstance()) == Some(Solution([Route(0, [1]), Route(0, [2])]))
  {
    SharingPhases();
    var noRoutes: seq<Route> := [];
    assert Batches(Packing([Route(0, [1])], [2])) == [Route(0, [1]), Route(0, [2])];
    assert noRoutes + [Route(0, [1]), Route(0, [2])] == [Route(0, [1]), Route(0, [2])];
  }
}
