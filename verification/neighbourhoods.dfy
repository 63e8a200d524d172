/** The five neighbourhood generators of the local search (intraRoute,
    twoOpt, crossExchange, replaceVehicle, addVehicle).

    Each generator enumerates moves in the order of the solver's nested
    loops, applies each to a copy of the solution, and keeps the results
    that pass isValid. A move is a small record of the loop variables; the
    list of moves is characterised exactly by a predicate on the record,
    and each move function is given what it preserves. */
module Neighbourhoods {
  import opened Collections
  import opened Routes
  import opened Instances

  /** The candidates isValid accepts, in generation order. */
  function KeepValid(inst: Instance, cs: seq<Solution>): (r: seq<Solution>)
    ensures forall x :: x in r <==> x in cs && Feasible(inst, x)
    ensures |r| <= |cs|
  {
    if |cs| == 0 then []
    else
      assert cs == [cs[0]] + cs[1..];
      (if Feasible(inst, cs[0]) then [cs[0]] else []) + KeepValid(inst, cs[1..])
  }

  /** The filter keeps generation order: filtering a concatenation is
      concatenating the filtered parts. */
  lemma {:induction false} KeepValidAppend(inst: Instance, a: seq<Solution>, b: seq<Solution>)
    ensures KeepValid(inst, a + b) == KeepValid(inst, a) + KeepValid(inst, b)
    decreases |a|
  {
    if |a| > 0 {
      assert (a + b)[1..] == a[1..] + b;
      KeepValidAppend(inst, a[1..], b);
    } else {
      assert a + b == b;
    }
  }

  /** When every candidate passes, the filter returns the list whole. */
  lemma {:induction false} KeepValidAll(inst: Instance, cs: seq<Solution>)
    requires forall k :: 0 <= k < |cs| ==> Feasible(inst, cs[k])
    ensures KeepValid(inst, cs) == cs
    decreases |cs|
  {
    if |cs| > 0 {
      KeepValidAll(inst, cs[1..]);
      assert cs == [cs[0]] + cs[1..];
    }
  }

  /** Route k replaced by r; every other route is the same. */
  lemma UpdateFacts(s: Solution, k: int, r: Route)
    requires 0 <= k < |s.routes|
    ensures var x := Solution(s.routes[k := r]);
      && |x.routes| == |s.routes|
      && x.routes[k] == r
      && forall q :: 0 <= q < |s.routes| && q != k ==> x.routes[q] == s.routes[q]
  {
  }

  /** Replacing a route by one with the same vehicle keeps the fixed
      vehicles unique. */
  lemma SameVehiclesUnique(s: Solution, x: Solution)
    requires |x.routes| == |s.routes|
    requires forall q :: 0 <= q < |s.routes| ==> x.routes[q].vehicle == s.routes[q].vehicle
    ensures UniqueFixedVehicles(x) <==> UniqueFixedVehicles(s)
  {
  }

  // ---------------------------------------------------------------------
  // intraRoute: move a segment of 2 or 3 customers within its route.

  /** c with its segment of length len at from removed (RemoveRange) and
      put back at index to of what remains (InsertRange). */
  function MoveSegment(c: seq<int>, len: int, from: int, to: int): (r: seq<int>)
    requires 0 <= from && 0 <= len && from + len <= |c| && 0 <= to <= |c| - len
    ensures |r| == |c|
  {
    var rest := c[..from] + c[from + len..];
    rest[..to] + c[from..from + len] + rest[to..]
  }

  /** Moving a segment permutes the list. */
  lemma MoveSegmentPerm(c: seq<int>, len: int, from: int, to: int)
    requires 0 <= from && 0 <= len && from + len <= |c| && 0 <= to <= |c| - len
    ensures multiset(MoveSegment(c, len, from, to)) == multiset(c)
  {
    var rest := c[..from] + c[from + len..];
    var seg := c[from..from + len];
    assert c == c[..from] + seg + c[from + len..];
    assert rest == rest[..to] + rest[to..];
    calc {
      multiset(MoveSegment(c, len, from, to));
      multiset(rest[..to]) + multiset(seg) + multiset(rest[to..]);
      multiset(rest) + multiset(seg);
      multiset(c[..from]) + multiset(c[from + len..]) + multiset(seg);
      multiset(c);
    }
  }

  /** Moving the segment back from to to from restores the list. */
  lemma MoveSegmentBack(c: seq<int>, len: int, from: int, to: int)
    requires 0 <= from && 0 <= len && from + len <= |c| && 0 <= to <= |c| - len
    ensures MoveSegment(MoveSegment(c, len, from, to), len, to, from) == c
  {
    var rest := c[..from] + c[from + len..];
    var seg := c[from..from + len];
    var d := MoveSegment(c, len, from, to);
    assert d == rest[..to] + seg + rest[to..];
    assert d[to..to + len] == seg;
    assert d[..to] + d[to + len..] == rest;
    assert rest[..from] == c[..from];
    assert rest[from..] == c[from + len..];
    assert c == c[..from] + seg + c[from + len..];
  }

  /** The loop variables of one intraRoute candidate. */
  datatype Intra = Intra(route: int, len: int, from: int, to: int)

  /** The candidates the loops reach: a route, a length 2 or 3, a start
      that leaves at least one customer after the segment, and a different
      target at most len away that still leaves one customer after it. */
  predicate IntraOk(s: Solution, m: Intra)
  {
    && 0 <= m.route < |s.routes|
    && 2 <= m.len <= 3
    && 0 <= m.from < |s.routes[m.route].customers| - m.len
    && m.from - m.len <= m.to <= m.from + m.len
    && 0 <= m.to <= |s.routes[m.route].customers| - 1 - m.len
    && m.to != m.from
  }

  function IntraMove(s: Solution, m: Intra): Solution
    requires IntraOk(s, m)
  {
    var r := s.routes[m.route];
    Solution(s.routes[m.route := Route(r.vehicle, MoveSegment(r.customers, m.len, m.from, m.to))])
  }

  /** The innermost loop, over the target index. */
  function IntraToStep(s: Solution, r: int, len: int, i: int): int -> seq<Intra>
  {
    j => if j == i then [] else [Intra(r, len, i, j)]
  }

  function IntraTo(s: Solution, r: int, len: int, i: int): seq<Intra>
  {
    if 0 <= r < |s.routes| then
      var top := |s.routes[r].customers| - 1 - len;
      Range(if i - len > 0 then i - len else 0, (if top < i + len then top else i + len) + 1, IntraToStep(s, r, len, i))
    else []
  }

  function IntraFromStep(s: Solution, r: int, len: int): int -> seq<Intra>
  {
    i => IntraTo(s, r, len, i)
  }

  function IntraFrom(s: Solution, r: int, len: int): seq<Intra>
  {
    if 0 <= r < |s.routes| then Range(0, |s.routes[r].customers| - len, IntraFromStep(s, r, len))
    else []
  }

  function IntraLenStep(s: Solution, r: int): int -> seq<Intra>
  {
    len => IntraFrom(s, r, len)
  }

  function IntraRouteStep(s: Solution): int -> seq<Intra>
  {
    r => Range(2, 4, IntraLenStep(s, r))
  }

  /** All intraRoute moves, in loop order. */
  function IntraMoves(s: Solution): seq<Intra>
  {
    Range(0, |s.routes|, IntraRouteStep(s))
  }

  lemma IntraToMember(s: Solution, r: int, len: int, i: int, m: Intra)
    ensures m in IntraTo(s, r, len, i) <==>
      && 0 <= r < |s.routes| && m.route == r && m.len == len && m.from == i && m.to != i
      && 0 <= m.to && i - len <= m.to <= i + len && m.to <= |s.routes[r].customers| - 1 - len
  {
    if 0 <= r < |s.routes| {
      var top := |s.routes[r].customers| - 1 - len;
      var lo := if i - len > 0 then i - len else 0;
      var hi := (if top < i + len then top else i + len) + 1;
      RangeMember(lo, hi, IntraToStep(s, r, len, i), m);
      if m.route == r && m.len == len && m.from == i && m.to != i && lo <= m.to < hi {
        assert m in IntraToStep(s, r, len, i)(m.to);
      }
    }
  }

  lemma IntraFromMember(s: Solution, r: int, len: int, m: Intra)
    ensures m in IntraFrom(s, r, len) <==>
      && 0 <= r < |s.routes| && m.route == r && m.len == len
      && 0 <= m.from < |s.routes[r].customers| - len && m.to != m.from
      && 0 <= m.to && m.from - len <= m.to <= m.from + len && m.to <= |s.routes[r].customers| - 1 - len
  {
    if 0 <= r < |s.routes| {
      RangeMember(0, |s.routes[r].customers| - len, IntraFromStep(s, r, len), m);
      forall i | 0 <= i < |s.routes[r].customers| - len
        ensures m in IntraFromStep(s, r, len)(i) <==> m in IntraTo(s, r, len, i)
      {
      }
      IntraToMember(s, r, len, m.from, m);
      if m in IntraFrom(s, r, len) {
        var i :| 0 <= i < |s.routes[r].customers| - len && m in IntraTo(s, r, len, i);
        IntraToMember(s, r, len, i, m);
      }
    }
  }

  lemma IntraRouteMember(s: Solution, r: int, m: Intra)
    ensures m in IntraRouteStep(s)(r) <==> m.route == r && IntraOk(s, m)
  {
    var ls := IntraLenStep(s, r);
    assert IntraRouteStep(s)(r) == Range(2, 4, ls);
    RangeMember(2, 4, ls, m);
    if m in Range(2, 4, ls) {
      var len :| 2 <= len < 4 && m in ls(len);
      assert ls(len) == IntraFrom(s, r, len);
      IntraFromMember(s, r, len, m);
    }
    if m.route == r && IntraOk(s, m) {
      IntraFromMember(s, r, m.len, m);
      assert ls(m.len) == IntraFrom(s, r, m.len);
      assert m in ls(m.len);
    }
  }

  /** The moves the loops enumerate are exactly the IntraOk records. */
  lemma IntraMovesMember(s: Solution, m: Intra)
    ensures m in IntraMoves(s) <==> IntraOk(s, m)
  {
    RangeMember(0, |s.routes|, IntraRouteStep(s), m);
    IntraRouteMember(s, m.route, m);
    if m in IntraMoves(s) {
      var r :| 0 <= r < |s.routes| && m in IntraRouteStep(s)(r);
      IntraRouteMember(s, r, m);
    }
  }

  lemma IntraMovesOk(s: Solution)
    ensures forall m :: m in IntraMoves(s) ==> IntraOk(s, m)
  {
    forall m | m in IntraMoves(s)
      ensures IntraOk(s, m)
    {
      IntraMovesMember(s, m);
    }
  }

  /** Every move applied to a copy of s, in loop order. */
  function IntraCandidates(s: Solution): seq<Solution>
  {
    var ms := IntraMoves(s);
    IntraMovesOk(s);
    seq(|ms|, k requires 0 <= k < |ms| => IntraMove(s, ms[k]))
  }

  /** intraRoute: every move applied to a copy, in loop order, then
      filtered by isValid. */
  function IntraRoute(inst: Instance, s: Solution): seq<Solution>
  {
    KeepValid(inst, IntraCandidates(s))
  }

  /** The candidates are exactly the results of the moves the loops
      allow. */
  lemma IntraCandidatesMember(s: Solution, x: Solution)
    ensures x in IntraCandidates(s) <==> exists m :: IntraOk(s, m) && x == IntraMove(s, m)
  {
    var ms := IntraMoves(s);
    IntraMovesOk(s);
    var cs := IntraCandidates(s);
    assert cs == seq(|ms|, k requires 0 <= k < |ms| => IntraMove(s, ms[k]));
    if x in cs {
      var k :| 0 <= k < |cs| && cs[k] == x;
      assert IntraOk(s, ms[k]) && x == IntraMove(s, ms[k]);
    }
    if exists m :: IntraOk(s, m) && x == IntraMove(s, m) {
      var m :| IntraOk(s, m) && x == IntraMove(s, m);
      IntraMovesMember(s, m);
      var k :| 0 <= k < |ms| && ms[k] == m;
      assert cs[k] == x;
    }
  }

  /** A solution is an intraRoute neighbour exactly when it is valid and
      some IntraOk move produces it. */
  lemma IntraRouteNeighbours(inst: Instance, s: Solution, x: Solution)
    ensures x in IntraRoute(inst, s) <==> Feasible(inst, x) && exists m :: IntraOk(s, m) && x == IntraMove(s, m)
  {
    IntraCandidatesMember(s, x);
  }

  /** An intraRoute move changes one route only, keeping its vehicle, its
      length and its customers as a multiset. */
  lemma IntraMoveShape(s: Solution, m: Intra)
    requires IntraOk(s, m)
    ensures var x := IntraMove(s, m);
      && |x.routes| == |s.routes|
      && (forall q :: 0 <= q < |s.routes| && q != m.route ==> x.routes[q] == s.routes[q])
      && x.routes[m.route].vehicle == s.routes[m.route].vehicle
      && |x.routes[m.route].customers| == |s.routes[m.route].customers|
      && multiset(x.routes[m.route].customers) == multiset(s.routes[m.route].customers)
  {
    var r := s.routes[m.route];
    var nr := Route(r.vehicle, MoveSegment(r.customers, m.len, m.from, m.to));
    assert IntraMove(s, m) == Solution(s.routes[m.route := nr]);
    UpdateFacts(s, m.route, nr);
    MoveSegmentPerm(r.customers, m.len, m.from, m.to);
  }

  /** So the bag of customers and fixed-vehicle uniqueness are kept. */
  lemma IntraMoveKeeps(s: Solution, m: Intra)
    requires IntraOk(s, m)
    ensures Bag(IntraMove(s, m)) == Bag(s)
    ensures UniqueFixedVehicles(IntraMove(s, m)) <==> UniqueFixedVehicles(s)
  {
    var r := s.routes[m.route];
    var nr := Route(r.vehicle, MoveSegment(r.customers, m.len, m.from, m.to));
    assert IntraMove(s, m) == Solution(s.routes[m.route := nr]);
    IntraMoveShape(s, m);
    MoveSegmentPerm(r.customers, m.len, m.from, m.to);
    BagPermute(s.routes, m.route, nr);
    SameVehiclesUnique(s, IntraMove(s, m));
  }

  /** The neighbourhood is symmetric: moving the segment back from to to
      from is also an intraRoute move, and it restores the solution. */
  lemma IntraMoveBack(s: Solution, m: Intra)
    requires IntraOk(s, m)
    ensures IntraOk(IntraMove(s, m), Intra(m.route, m.len, m.to, m.from))
    ensures IntraMove(IntraMove(s, m), Intra(m.route, m.len, m.to, m.from)) == s
  {
    var r := s.routes[m.route];
    var nr := Route(r.vehicle, MoveSegment(r.customers, m.len, m.from, m.to));
    UpdateFacts(s, m.route, nr);
    MoveSegmentBack(r.customers, m.len, m.from, m.to);
    assert s.routes[m.route := nr][m.route := r] == s.routes;
  }

  /** Routes i and j replaced by a and b, each keeping its vehicle: the
      route count and every other route are the same, and fixed-vehicle
      uniqueness is unaffected. */
  lemma PairFacts(s: Solution, i: int, j: int, a: Route, b: Route)
    requires 0 <= i < j < |s.routes|
    requires a.vehicle == s.routes[i].vehicle && b.vehicle == s.routes[j].vehicle
    ensures var x := Solution(s.routes[i := a][j := b]);
      && |x.routes| == |s.routes|
      && x.routes[i] == a && x.routes[j] == b
      && (forall q :: 0 <= q < |s.routes| && q != i && q != j ==> x.routes[q] == s.routes[q])
      && (UniqueFixedVehicles(x) <==> UniqueFixedVehicles(s))
  {
    SameVehiclesUnique(s, Solution(s.routes[i := a][j := b]));
  }

  // ---------------------------------------------------------------------
  // twoOpt: exchange the tails of two routes.

  /** The loop variables of one twoOpt candidate. */
  datatype TwoOptMove = TwoOptMove(i: int, j: int, split1: int, split2: int)

  /** Routes i < j, each cut after a non-empty head and before a non-empty
      tail. */
  predicate TwoOptOk(s: Solution, m: TwoOptMove)
  {
    && 0 <= m.i < m.j < |s.routes|
    && 1 <= m.split1 < |s.routes[m.i].customers|
    && 1 <= m.split2 < |s.routes[m.j].customers|
  }

  function TwoOpt(s: Solution, m: TwoOptMove): Solution
    requires TwoOptOk(s, m)
  {
    var ri := s.routes[m.i];
    var rj := s.routes[m.j];
    Solution(s.routes
      [m.i := Route(ri.vehicle, ri.customers[..m.split1] + rj.customers[m.split2..])]
      [m.j := Route(rj.vehicle, rj.customers[..m.split2] + ri.customers[m.split1..])])
  }

  function TwoOptSplit2Step(i: int, j: int, split1: int): int -> seq<TwoOptMove>
  {
    split2 => [TwoOptMove(i, j, split1, split2)]
  }

  function TwoOptSplit2(s: Solution, i: int, j: int, split1: int): seq<TwoOptMove>
  {
    if 0 <= j < |s.routes| then Range(1, |s.routes[j].customers|, TwoOptSplit2Step(i, j, split1)) else []
  }

  function TwoOptSplit1Step(s: Solution, i: int, j: int): int -> seq<TwoOptMove>
  {
    split1 => TwoOptSplit2(s, i, j, split1)
  }

  function TwoOptSplit1(s: Solution, i: int, j: int): seq<TwoOptMove>
  {
    if 0 <= i < |s.routes| then Range(1, |s.routes[i].customers|, TwoOptSplit1Step(s, i, j)) else []
  }

  function TwoOptJStep(s: Solution, i: int): int -> seq<TwoOptMove>
  {
    j => TwoOptSplit1(s, i, j)
  }

  function TwoOptIStep(s: Solution): int -> seq<TwoOptMove>
  {
    i => Range(i + 1, |s.routes|, TwoOptJStep(s, i))
  }

  /** All twoOpt moves, in loop order. */
  function TwoOptMoves(s: Solution): seq<TwoOptMove>
  {
    Range(0, |s.routes| - 1, TwoOptIStep(s))
  }

  lemma TwoOptSplit2Member(s: Solution, i: int, j: int, split1: int, m: TwoOptMove)
    ensures m in TwoOptSplit2(s, i, j, split1) <==>
      0 <= j < |s.routes| && m.i == i && m.j == j && m.split1 == split1 && 1 <= m.split2 < |s.routes[j].customers|
  {
    if 0 <= j < |s.routes| {
      RangeMember(1, |s.routes[j].customers|, TwoOptSplit2Step(i, j, split1), m);
      if m.i == i && m.j == j && m.split1 == split1 && 1 <= m.split2 < |s.routes[j].customers| {
        assert m in TwoOptSplit2Step(i, j, split1)(m.split2);
      }
    }
  }

  lemma TwoOptSplit1Member(s: Solution, i: int, j: int, m: TwoOptMove)
    ensures m in TwoOptSplit1(s, i, j) <==>
      && 0 <= i < |s.routes| && 0 <= j < |s.routes| && m.i == i && m.j == j
      && 1 <= m.split1 < |s.routes[i].customers| && 1 <= m.split2 < |s.routes[j].customers|
  {
    if 0 <= i < |s.routes| {
      RangeMember(1, |s.routes[i].customers|, TwoOptSplit1Step(s, i, j), m);
      TwoOptSplit2Member(s, i, j, m.split1, m);
      if m in TwoOptSplit1(s, i, j) {
        var k :| 1 <= k < |s.routes[i].customers| && m in TwoOptSplit1Step(s, i, j)(k);
        TwoOptSplit2Member(s, i, j, k, m);
      }
      if 1 <= m.split1 < |s.routes[i].customers| && m in TwoOptSplit2(s, i, j, m.split1) {
        assert m in TwoOptSplit1Step(s, i, j)(m.split1);
      }
    }
  }

  lemma TwoOptIMember(s: Solution, i: int, m: TwoOptMove)
    ensures m in TwoOptIStep(s)(i) <==> m.i == i && TwoOptOk(s, m)
  {
    var js := TwoOptJStep(s, i);
    assert TwoOptIStep(s)(i) == Range(i + 1, |s.routes|, js);
    RangeMember(i + 1, |s.routes|, js, m);
    if m in Range(i + 1, |s.routes|, js) {
      var j :| i + 1 <= j < |s.routes| && m in js(j);
      assert js(j) == TwoOptSplit1(s, i, j);
      TwoOptSplit1Member(s, i, j, m);
    }
    if m.i == i && TwoOptOk(s, m) {
      TwoOptSplit1Member(s, i, m.j, m);
      assert js(m.j) == TwoOptSplit1(s, i, m.j);
      assert m in js(m.j);
    }
  }

  /** The moves the loops enumerate are exactly the TwoOptOk records. */
  lemma TwoOptMovesMember(s: Solution, m: TwoOptMove)
    ensures m in TwoOptMoves(s) <==> TwoOptOk(s, m)
  {
    RangeMember(0, |s.routes| - 1, TwoOptIStep(s), m);
    TwoOptIMember(s, m.i, m);
    if m in TwoOptMoves(s) {
      var i :| 0 <= i < |s.routes| - 1 && m in TwoOptIStep(s)(i);
      TwoOptIMember(s, i, m);
    }
  }

  lemma TwoOptMovesOk(s: Solution)
    ensures forall m :: m in TwoOptMoves(s) ==> TwoOptOk(s, m)
  {
    forall m | m in TwoOptMoves(s)
      ensures TwoOptOk(s, m)
    {
      TwoOptMovesMember(s, m);
    }
  }

  /** Every move applied to a copy of s, in loop order. */
  function TwoOptCandidates(s: Solution): seq<Solution>
  {
    var ms := TwoOptMoves(s);
    TwoOptMovesOk(s);
    seq(|ms|, k requires 0 <= k < |ms| => TwoOpt(s, ms[k]))
  }

  /** twoOpt: every move applied to a copy, in loop order, then filtered by
      isValid. */
  function TwoOptNeighbours(inst: Instance, s: Solution): seq<Solution>
  {
    KeepValid(inst, TwoOptCandidates(s))
  }

  /** The candidates are exactly the results of the moves the loops
      allow. */
  lemma TwoOptCandidatesMember(s: Solution, x: Solution)
    ensures x in TwoOptCandidates(s) <==> exists m :: TwoOptOk(s, m) && x == TwoOpt(s, m)
  {
    var ms := TwoOptMoves(s);
    TwoOptMovesOk(s);
    var cs := TwoOptCandidates(s);
    assert cs == seq(|ms|, k requires 0 <= k < |ms| => TwoOpt(s, ms[k]));
    if x in cs {
      var k :| 0 <= k < |cs| && cs[k] == x;
      assert TwoOptOk(s, ms[k]) && x == TwoOpt(s, ms[k]);
    }
    if exists m :: TwoOptOk(s, m) && x == TwoOpt(s, m) {
      var m :| TwoOptOk(s, m) && x == TwoOpt(s, m);
      TwoOptMovesMember(s, m);
      var k :| 0 <= k < |ms| && ms[k] == m;
      assert cs[k] == x;
    }
  }

  /** A solution is a twoOpt neighbour exactly when it is valid and some
      TwoOptOk move produces it. */
  lemma TwoOptNeighboursMember(inst: Instance, s: Solution, x: Solution)
    ensures x in TwoOptNeighbours(inst, s) <==> Feasible(inst, x) && exists m :: TwoOptOk(s, m) && x == TwoOpt(s, m)
  {
    TwoOptCandidatesMember(s, x);
  }

  /** A twoOpt move changes routes i and j only, keeping their vehicles;
      each keeps its head and receives the other's tail, so neither becomes
      empty; the bag and fixed-vehicle uniqueness are kept. */
  lemma TwoOptKeeps(s: Solution, m: TwoOptMove)
    requires TwoOptOk(s, m)
    ensures var x := TwoOpt(s, m);
      && |x.routes| == |s.routes|
      && (forall q :: 0 <= q < |s.routes| && q != m.i && q != m.j ==> x.routes[q] == s.routes[q])
      && x.routes[m.i].vehicle == s.routes[m.i].vehicle
      && x.routes[m.j].vehicle == s.routes[m.j].vehicle
      && x.routes[m.i].customers == s.routes[m.i].customers[..m.split1] + s.routes[m.j].customers[m.split2..]
      && x.routes[m.j].customers == s.routes[m.j].customers[..m.split2] + s.routes[m.i].customers[m.split1..]
      && Bag(x) == Bag(s)
      && (UniqueFixedVehicles(x) <==> UniqueFixedVehicles(s))
  {
    var ci := s.routes[m.i].customers;
    var cj := s.routes[m.j].customers;
    var a := Route(s.routes[m.i].vehicle, ci[..m.split1] + cj[m.split2..]);
    var b := Route(s.routes[m.j].vehicle, cj[..m.split2] + ci[m.split1..]);
    assert TwoOpt(s, m) == Solution(s.routes[m.i := a][m.j := b]);
    PairFacts(s, m.i, m.j, a, b);
    assert ci == ci[..m.split1] + ci[m.split1..];
    assert cj == cj[..m.split2] + cj[m.split2..];
    BagPair(s.routes, m.i, m.j, a, b);
  }

  /** Exchanging the tails again at the same split points restores the
      solution: twoOpt is its own inverse. */
  lemma TwoOptInvolution(s: Solution, m: TwoOptMove)
    requires TwoOptOk(s, m)
    ensures TwoOptOk(TwoOpt(s, m), m)
    ensures TwoOpt(TwoOpt(s, m), m) == s
  {
    var x := TwoOpt(s, m);
    var ci := s.routes[m.i].customers;
    var cj := s.routes[m.j].customers;
    TwoOptKeeps(s, m);
    var xi := x.routes[m.i].customers;
    var xj := x.routes[m.j].customers;
    assert xi[..m.split1] + xj[m.split2..] == ci;
    assert xj[..m.split2] + xi[m.split1..] == cj;
    assert s.routes[m.i := s.routes[m.i]][m.j := s.routes[m.j]] == s.routes;
    assert x.routes[m.i := s.routes[m.i]][m.j := s.routes[m.j]] == s.routes;
  }

  // ---------------------------------------------------------------------
  // crossExchange: swap equal-length segments of two routes.

  /** The loop variables of one crossExchange candidate. */
  datatype Cross = Cross(len: int, i: int, j: int, pos1: int, pos2: int)

  /** Routes i < j, and in each a segment of length len that leaves at
      least one customer after it. */
  predicate CrossFits(s: Solution, m: Cross)
  {
    && 0 <= m.i < m.j < |s.routes|
    && 0 <= m.pos1 < |s.routes[m.i].customers| - m.len
    && 0 <= m.pos2 < |s.routes[m.j].customers| - m.len
  }

  predicate CrossOk(s: Solution, m: Cross)
  {
    2 <= m.len <= 3 && CrossFits(s, m)
  }

  /** c with its segment of length |seg| at pos replaced by seg. */
  function Splice(c: seq<int>, pos: int, len: int, seg: seq<int>): (r: seq<int>)
    requires 0 <= pos && 0 <= len && pos + len <= |c|
    ensures |r| == |c| - len + |seg|
  {
    c[..pos] + seg + c[pos + len..]
  }

  /** The two routes a crossExchange move rewrites: each takes the other's
      segment in place of its own. */
  function CrossPair(s: Solution, m: Cross): (Route, Route)
    requires CrossOk(s, m)
  {
    var ri := s.routes[m.i];
    var rj := s.routes[m.j];
    var seg1 := ri.customers[m.pos1..m.pos1 + m.len];
    var seg2 := rj.customers[m.pos2..m.pos2 + m.len];
    (Route(ri.vehicle, Splice(ri.customers, m.pos1, m.len, seg2)),
     Route(rj.vehicle, Splice(rj.customers, m.pos2, m.len, seg1)))
  }

  function CrossExchange(s: Solution, m: Cross): Solution
    requires CrossOk(s, m)
  {
    var r := CrossPair(s, m);
    Solution(s.routes[m.i := r.0][m.j := r.1])
  }

  function CrossPos2Step(len: int, i: int, j: int, pos1: int): int -> seq<Cross>
  {
    pos2 => [Cross(len, i, j, pos1, pos2)]
  }

  function CrossPos2(s: Solution, len: int, i: int, j: int, pos1: int): seq<Cross>
  {
    if 0 <= j < |s.routes| then Range(0, |s.routes[j].customers| - len, CrossPos2Step(len, i, j, pos1)) else []
  }

  function CrossPos1Step(s: Solution, len: int, i: int, j: int): int -> seq<Cross>
  {
    pos1 => CrossPos2(s, len, i, j, pos1)
  }

  function CrossPos1(s: Solution, len: int, i: int, j: int): seq<Cross>
  {
    if 0 <= i < |s.routes| then Range(0, |s.routes[i].customers| - len, CrossPos1Step(s, len, i, j)) else []
  }

  function CrossJStep(s: Solution, len: int, i: int): int -> seq<Cross>
  {
    j => CrossPos1(s, len, i, j)
  }

  function CrossIStep(s: Solution, len: int): int -> seq<Cross>
  {
    i => Range(i + 1, |s.routes|, CrossJStep(s, len, i))
  }

  function CrossLenStep(s: Solution): int -> seq<Cross>
  {
    len => Range(0, |s.routes| - 1, CrossIStep(s, len))
  }

  /** All crossExchange moves, in loop order. */
  function CrossMoves(s: Solution): seq<Cross>
  {
    Range(2, 4, CrossLenStep(s))
  }

  lemma CrossPos2Member(s: Solution, len: int, i: int, j: int, pos1: int, m: Cross)
    ensures m in CrossPos2(s, len, i, j, pos1) <==>
      0 <= j < |s.routes| && m.len == len && m.i == i && m.j == j && m.pos1 == pos1
      && 0 <= m.pos2 < |s.routes[j].customers| - len
  {
    if 0 <= j < |s.routes| {
      RangeMember(0, |s.routes[j].customers| - len, CrossPos2Step(len, i, j, pos1), m);
      if m.len == len && m.i == i && m.j == j && m.pos1 == pos1 && 0 <= m.pos2 < |s.routes[j].customers| - len {
        assert m in CrossPos2Step(len, i, j, pos1)(m.pos2);
      }
    }
  }

  lemma CrossPos1Member(s: Solution, len: int, i: int, j: int, m: Cross)
    ensures m in CrossPos1(s, len, i, j) <==>
      && 0 <= i < |s.routes| && 0 <= j < |s.routes| && m.len == len && m.i == i && m.j == j
      && 0 <= m.pos1 < |s.routes[i].customers| - len && 0 <= m.pos2 < |s.routes[j].customers| - len
  {
    if 0 <= i < |s.routes| {
      RangeMember(0, |s.routes[i].customers| - len, CrossPos1Step(s, len, i, j), m);
      CrossPos2Member(s, len, i, j, m.pos1, m);
      if m in CrossPos1(s, len, i, j) {
        var k :| 0 <= k < |s.routes[i].customers| - len && m in CrossPos1Step(s, len, i, j)(k);
        CrossPos2Member(s, len, i, j, k, m);
      }
      if 0 <= m.pos1 < |s.routes[i].customers| - len && m in CrossPos2(s, len, i, j, m.pos1) {
        assert m in CrossPos1Step(s, len, i, j)(m.pos1);
      }
    }
  }

  lemma CrossIMember(s: Solution, len: int, i: int, m: Cross)
    ensures m in CrossIStep(s, len)(i) <==> m.len == len && m.i == i && CrossFits(s, m)
  {
    var js := CrossJStep(s, len, i);
    assert CrossIStep(s, len)(i) == Range(i + 1, |s.routes|, js);
    RangeMember(i + 1, |s.routes|, js, m);
    if m in Range(i + 1, |s.routes|, js) {
      var j :| i + 1 <= j < |s.routes| && m in js(j);
      assert js(j) == CrossPos1(s, len, i, j);
      CrossPos1Member(s, len, i, j, m);
    }
    if m.len == len && m.i == i && CrossFits(s, m) {
      CrossPos1Member(s, len, i, m.j, m);
      assert js(m.j) == CrossPos1(s, len, i, m.j);
      assert m in js(m.j);
    }
  }

  lemma CrossLenMember(s: Solution, len: int, m: Cross)
    ensures m in CrossLenStep(s)(len) <==> m.len == len && CrossFits(s, m)
  {
    RangeMember(0, |s.routes| - 1, CrossIStep(s, len), m);
    CrossIMember(s, len, m.i, m);
    if m in CrossLenStep(s)(len) {
      var i :| 0 <= i < |s.routes| - 1 && m in CrossIStep(s, len)(i);
      CrossIMember(s, len, i, m);
    }
  }

  /** The moves the loops enumerate are exactly the CrossOk records. */
  lemma CrossMovesMember(s: Solution, m: Cross)
    ensures m in CrossMoves(s) <==> CrossOk(s, m)
  {
    RangeMember(2, 4, CrossLenStep(s), m);
    CrossLenMember(s, m.len, m);
    if m in CrossMoves(s) {
      var len :| 2 <= len < 4 && m in CrossLenStep(s)(len);
      CrossLenMember(s, len, m);
    }
  }

  lemma CrossMovesOk(s: Solution)
    ensures forall m :: m in CrossMoves(s) ==> CrossOk(s, m)
  {
    forall m | m in CrossMoves(s)
      ensures CrossOk(s, m)
    {
      CrossMovesMember(s, m);
    }
  }

  /** Every move applied to a copy of s, in loop order. */
  function CrossCandidates(s: Solution): seq<Solution>
  {
    var ms := CrossMoves(s);
    CrossMovesOk(s);
    seq(|ms|, k requires 0 <= k < |ms| => CrossExchange(s, ms[k]))
  }

  /** crossExchange: every move applied to a copy, in loop order, then
      filtered by isValid. */
  function CrossNeighbours(inst: Instance, s: Solution): seq<Solution>
  {
    KeepValid(inst, CrossCandidates(s))
  }

  /** The candidates are exactly the results of the moves the loops
      allow. */
  lemma CrossCandidatesMember(s: Solution, x: Solution)
    ensures x in CrossCandidates(s) <==> exists m :: CrossOk(s, m) && x == CrossExchange(s, m)
  {
    var ms := CrossMoves(s);
    CrossMovesOk(s);
    var cs := CrossCandidates(s);
    assert cs == seq(|ms|, k requires 0 <= k < |ms| => CrossExchange(s, ms[k]));
    if x in cs {
      var k :| 0 <= k < |cs| && cs[k] == x;
      assert CrossOk(s, ms[k]) && x == CrossExchange(s, ms[k]);
    }
    if exists m :: CrossOk(s, m) && x == CrossExchange(s, m) {
      var m :| CrossOk(s, m) && x == CrossExchange(s, m);
      CrossMovesMember(s, m);
      var k :| 0 <= k < |ms| && ms[k] == m;
      assert cs[k] == x;
    }
  }

  /** A solution is a crossExchange neighbour exactly when it is valid and
      some CrossOk move produces it. */
  lemma CrossNeighboursMember(inst: Instance, s: Solution, x: Solution)
    ensures x in CrossNeighbours(inst, s) <==> Feasible(inst, x) && exists m :: CrossOk(s, m) && x == CrossExchange(s, m)
  {
    CrossCandidatesMember(s, x);
  }

  /** Splicing seg in place of a segment trades that segment's customers
      for seg's. */
  lemma SpliceMultiset(c: seq<int>, pos: int, len: int, seg: seq<int>)
    requires 0 <= pos && 0 <= len && pos + len <= |c|
    ensures multiset(Splice(c, pos, len, seg)) + multiset(c[pos..pos + len]) == multiset(c) + multiset(seg)
  {
    assert c == c[..pos] + c[pos..pos + len] + c[pos + len..];
  }

  lemma MultisetTrade(a: multiset<int>, b: multiset<int>, c: multiset<int>, d: multiset<int>, x: multiset<int>, y: multiset<int>)
    requires a + x == c + y && b + y == d + x
    ensures a + b == c + d
  {
    forall z
      ensures (a + b)[z] == (c + d)[z]
    {
      assert (a + x)[z] == (c + y)[z];
      assert (b + y)[z] == (d + x)[z];
    }
  }

  /** Swapping the two segments keeps the two lists' customers together. */
  lemma CrossPerm(ci: seq<int>, cj: seq<int>, len: int, p1: int, p2: int, seg1: seq<int>, seg2: seq<int>)
    requires 0 <= len && 0 <= p1 && p1 + len <= |ci| && 0 <= p2 && p2 + len <= |cj|
    requires seg1 == ci[p1..p1 + len] && seg2 == cj[p2..p2 + len]
    ensures multiset(Splice(ci, p1, len, seg2)) + multiset(Splice(cj, p2, len, seg1))
      == multiset(ci) + multiset(cj)
  {
    SpliceMultiset(ci, p1, len, seg2);
    SpliceMultiset(cj, p2, len, seg1);
    MultisetTrade(multiset(Splice(ci, p1, len, seg2)), multiset(Splice(cj, p2, len, seg1)),
      multiset(ci), multiset(cj), multiset(seg1), multiset(seg2));
  }

  /** The rewritten pair holds the same customers as the original pair. */
  lemma CrossPairPerm(s: Solution, m: Cross)
    requires CrossOk(s, m)
    ensures var r := CrossPair(s, m);
      multiset(r.0.customers) + multiset(r.1.customers)
        == multiset(s.routes[m.i].customers) + multiset(s.routes[m.j].customers)
  {
    var r := CrossPair(s, m);
    var ci := s.routes[m.i].customers;
    var cj := s.routes[m.j].customers;
    var a, b := r.0.customers, r.1.customers;
    var seg1, seg2 := ci[m.pos1..m.pos1 + m.len], cj[m.pos2..m.pos2 + m.len];
    assert a == Splice(ci, m.pos1, m.len, seg2);
    assert b == Splice(cj, m.pos2, m.len, seg1);
    CrossPerm(ci, cj, m.len, m.pos1, m.pos2, seg1, seg2);
  }

  /** A crossExchange move keeps the bag of customers. */
  lemma CrossBag(s: Solution, m: Cross)
    requires CrossOk(s, m)
    ensures Bag(CrossExchange(s, m)) == Bag(s)
  {
    var r := CrossPair(s, m);
    CrossPairPerm(s, m);
    BagPair(s.routes, m.i, m.j, r.0, r.1);
  }

  /** A crossExchange move changes routes i and j only, keeping their
      vehicles and lengths; the bag and fixed-vehicle uniqueness are
      kept. */
  lemma CrossKeeps(s: Solution, m: Cross)
    requires CrossOk(s, m)
    ensures var x := CrossExchange(s, m);
      && |x.routes| == |s.routes|
      && (forall q :: 0 <= q < |s.routes| && q != m.i && q != m.j ==> x.routes[q] == s.routes[q])
      && x.routes[m.i].vehicle == s.routes[m.i].vehicle
      && x.routes[m.j].vehicle == s.routes[m.j].vehicle
      && |x.routes[m.i].customers| == |s.routes[m.i].customers|
      && |x.routes[m.j].customers| == |s.routes[m.j].customers|
      && Bag(x) == Bag(s)
      && (UniqueFixedVehicles(x) <==> UniqueFixedVehicles(s))
  {
    var (a, b) := CrossPair(s, m);
    PairFacts(s, m.i, m.j, a, b);
    CrossBag(s, m);
  }

  /** Splicing the original segment back restores a list. */
  lemma SpliceBack(c: seq<int>, pos: int, len: int, seg: seq<int>)
    requires 0 <= pos && 0 <= len && pos + len <= |c| && |seg| == len
    ensures Splice(c, pos, len, seg)[pos..pos + len] == seg
    ensures Splice(Splice(c, pos, len, seg), pos, len, c[pos..pos + len]) == c
  {
    var d := Splice(c, pos, len, seg);
    assert d[..pos] == c[..pos];
    assert d[pos + len..] == c[pos + len..];
    assert c == c[..pos] + c[pos..pos + len] + c[pos + len..];
  }

  /** Exchanging the same segments again restores the solution:
      crossExchange is its own inverse. */
  lemma CrossInvolution(s: Solution, m: Cross)
    requires CrossOk(s, m)
    ensures CrossOk(CrossExchange(s, m), m)
    ensures CrossExchange(CrossExchange(s, m), m) == s
  {
    var x := CrossExchange(s, m);
    var ci := s.routes[m.i].customers;
    var cj := s.routes[m.j].customers;
    var seg1, seg2 := ci[m.pos1..m.pos1 + m.len], cj[m.pos2..m.pos2 + m.len];
    var (a, b) := CrossPair(s, m);
    PairFacts(s, m.i, m.j, a, b);
    SpliceBack(ci, m.pos1, m.len, seg2);
    SpliceBack(cj, m.pos2, m.len, seg1);
    var (a2, b2) := CrossPair(x, m);
    assert a2 == s.routes[m.i];
    assert b2 == s.routes[m.j];
    PairFacts(x, m.i, m.j, a2, b2);
  }

  // ---------------------------------------------------------------------
  // Fixed vehicles no route uses (shared by replaceVehicle and addVehicle).

  function UnusedStep(s: Solution): int -> seq<int>
  {
    v => if UsesVehicle(s, v) then [] else [v]
  }

  /** The ids 1..|q| of fixed vehicles that no route uses, in increasing
      order. */
  function Unused(inst: Instance, s: Solution): seq<int>
  {
    Range(1, |inst.q| + 1, UnusedStep(s))
  }

  lemma UnusedMember(inst: Instance, s: Solution, v: int)
    ensures v in Unused(inst, s) <==> 1 <= v <= |inst.q| && !UsesVehicle(s, v)
  {
    RangeMember(1, |inst.q| + 1, UnusedStep(s), v);
    if v in Unused(inst, s) {
      var k :| 1 <= k < |inst.q| + 1 && v in UnusedStep(s)(k);
    }
    if 1 <= v <= |inst.q| && !UsesVehicle(s, v) {
      assert v in UnusedStep(s)(v);
    }
  }

  /** A vehicle a move may hand a route: an unused fixed vehicle, or the
      type-0 vehicle. */
  predicate Available(inst: Instance, s: Solution, v: int)
  {
    (1 <= v <= |inst.q| && !UsesVehicle(s, v)) || v == 0
  }

  // ---------------------------------------------------------------------
  // replaceVehicle: give one route a different vehicle.

  datatype ReplaceMove = ReplaceMove(i: int, vehicle: int)

  /** Every route but the last may take an unused fixed vehicle, or the
      type-0 vehicle when it does not have it already. */
  predicate ReplaceOk(inst: Instance, s: Solution, m: ReplaceMove)
  {
    && 0 <= m.i < |s.routes| - 1
    && ((1 <= m.vehicle <= |inst.q| && !UsesVehicle(s, m.vehicle))
        || (m.vehicle == 0 && s.routes[m.i].vehicle != 0))
  }

  function ReplaceVehicle(s: Solution, m: ReplaceMove): Solution
    requires 0 <= m.i < |s.routes|
  {
    Solution(s.routes[m.i := Route(m.vehicle, s.routes[m.i].customers)])
  }

  function ReplaceWith(i: int): int -> seq<ReplaceMove>
  {
    v => [ReplaceMove(i, v)]
  }

  function ReplaceStep(inst: Instance, s: Solution): int -> seq<ReplaceMove>
  {
    i => Each(Unused(inst, s), ReplaceWith(i))
         + (if 0 <= i < |s.routes| && s.routes[i].vehicle != 0 then [ReplaceMove(i, 0)] else [])
  }

  /** All replaceVehicle moves, in loop order. */
  function ReplaceMoves(inst: Instance, s: Solution): seq<ReplaceMove>
  {
    Range(0, |s.routes| - 1, ReplaceStep(inst, s))
  }

  lemma ReplaceStepMember(inst: Instance, s: Solution, i: int, m: ReplaceMove)
    requires 0 <= i < |s.routes|
    ensures m in ReplaceStep(inst, s)(i) <==>
      m.i == i && ((1 <= m.vehicle <= |inst.q| && !UsesVehicle(s, m.vehicle))
                   || (m.vehicle == 0 && s.routes[i].vehicle != 0))
  {
    var u := Unused(inst, s);
    EachMember(u, ReplaceWith(i), m);
    UnusedMember(inst, s, m.vehicle);
    if m in Each(u, ReplaceWith(i)) {
      var k :| 0 <= k < |u| && m in ReplaceWith(i)(u[k]);
    }
    if m.i == i && m.vehicle in u {
      var k :| 0 <= k < |u| && u[k] == m.vehicle;
      assert m in ReplaceWith(i)(u[k]);
    }
    UnusedMember(inst, s, 0);
  }

  lemma ReplaceMovesMember(inst: Instance, s: Solution, m: ReplaceMove)
    ensures m in ReplaceMoves(inst, s) <==> ReplaceOk(inst, s, m)
  {
    RangeMember(0, |s.routes| - 1, ReplaceStep(inst, s), m);
    if m in ReplaceMoves(inst, s) {
      var i :| 0 <= i < |s.routes| - 1 && m in ReplaceStep(inst, s)(i);
      ReplaceStepMember(inst, s, i, m);
    }
    if ReplaceOk(inst, s, m) {
      ReplaceStepMember(inst, s, m.i, m);
    }
  }

  lemma ReplaceMovesOk(inst: Instance, s: Solution)
    ensures forall m :: m in ReplaceMoves(inst, s) ==> ReplaceOk(inst, s, m)
  {
    forall m | m in ReplaceMoves(inst, s)
      ensures ReplaceOk(inst, s, m)
    {
      ReplaceMovesMember(inst, s, m);
    }
  }

  /** Every move applied to a copy of s, in loop order. */
  function ReplaceCandidates(inst: Instance, s: Solution): seq<Solution>
  {
    var ms := ReplaceMoves(inst, s);
    ReplaceMovesOk(inst, s);
    assert forall k :: 0 <= k < |ms| ==> ReplaceOk(inst, s, ms[k]);
    seq(|ms|, k requires 0 <= k < |ms| => ReplaceVehicle(s, ms[k]))
  }

  /** replaceVehicle: every move applied to a copy, in loop order, then
      filtered by isValid. */
  function ReplaceNeighbours(inst: Instance, s: Solution): seq<Solution>
  {
    KeepValid(inst, ReplaceCandidates(inst, s))
  }

  /** The candidates are exactly the results of the moves the loops
      allow. */
  lemma ReplaceCandidatesMember(inst: Instance, s: Solution, x: Solution)
    ensures x in ReplaceCandidates(inst, s) <==> exists m :: ReplaceOk(inst, s, m) && x == ReplaceVehicle(s, m)
  {
    var ms := ReplaceMoves(inst, s);
    ReplaceMovesOk(inst, s);
    assert forall k :: 0 <= k < |ms| ==> ReplaceOk(inst, s, ms[k]);
    var cs := ReplaceCandidates(inst, s);
    assert cs == seq(|ms|, k requires 0 <= k < |ms| => ReplaceVehicle(s, ms[k]));
    if x in cs {
      var k :| 0 <= k < |cs| && cs[k] == x;
      assert ReplaceOk(inst, s, ms[k]) && x == ReplaceVehicle(s, ms[k]);
    }
    if exists m :: ReplaceOk(inst, s, m) && x == ReplaceVehicle(s, m) {
      var m :| ReplaceOk(inst, s, m) && x == ReplaceVehicle(s, m);
      ReplaceMovesMember(inst, s, m);
      var k :| 0 <= k < |ms| && ms[k] == m;
      assert cs[k] == x;
    }
  }

  /** A solution is a replaceVehicle neighbour exactly when it is valid and
      some ReplaceOk move produces it. */
  lemma ReplaceNeighboursMember(inst: Instance, s: Solution, x: Solution)
    ensures x in ReplaceNeighbours(inst, s) <==>
      Feasible(inst, x) && exists m :: ReplaceOk(inst, s, m) && x == ReplaceVehicle(s, m)
  {
    ReplaceCandidatesMember(inst, s, x);
  }

  /** A replaceVehicle move changes one vehicle id and nothing else: the
      customers of every route, the last route and the bag are kept, and
      fixed vehicles stay unique. */
  lemma ReplaceKeeps(inst: Instance, s: Solution, m: ReplaceMove)
    requires ReplaceOk(inst, s, m)
    ensures var x := ReplaceVehicle(s, m);
      && |x.routes| == |s.routes|
      && x.routes[m.i].vehicle == m.vehicle
      && (forall q :: 0 <= q < |s.routes| ==> x.routes[q].customers == s.routes[q].customers)
      && (forall q :: 0 <= q < |s.routes| && q != m.i ==> x.routes[q] == s.routes[q])
      && x.routes[|x.routes| - 1] == s.routes[|s.routes| - 1]
      && Bag(x) == Bag(s)
      && (UniqueFixedVehicles(s) ==> UniqueFixedVehicles(x))
  {
    var x := ReplaceVehicle(s, m);
    BagPermute(s.routes, m.i, x.routes[m.i]);
    if UniqueFixedVehicles(s) && m.vehicle != 0 {
      forall a, b | 0 <= a < |x.routes| && 0 <= b < |x.routes| && a != b && x.routes[a].vehicle != 0
        ensures x.routes[a].vehicle != x.routes[b].vehicle
      {
        if a == m.i {
          assert !(s.routes[b].vehicle == m.vehicle);
        } else if b == m.i {
          assert !(s.routes[a].vehicle == m.vehicle);
        }
      }
    }
  }

  /** Handing the route its old vehicle back is again a replaceVehicle move
      and restores the solution, provided the solution met the solver's
      invariant (ids in range, fixed vehicles unique). */
  lemma ReplaceBack(inst: Instance, s: Solution, m: ReplaceMove)
    requires ReplaceOk(inst, s, m) && InRange(inst, s) && UniqueFixedVehicles(s)
    ensures var back := ReplaceMove(m.i, s.routes[m.i].vehicle);
      var x := ReplaceVehicle(s, m);
      ReplaceOk(inst, x, back) && ReplaceVehicle(x, back) == s
  {
    var prev := s.routes[m.i].vehicle;
    var x := ReplaceVehicle(s, m);
    assert RouteInRange(inst, s.routes[m.i]);
    if prev != 0 {
      forall q | 0 <= q < |x.routes|
        ensures x.routes[q].vehicle != prev
      {
        if q == m.i && m.vehicle != 0 {
          assert s.routes[m.i].vehicle == prev;
        }
      }
    }
    assert x.routes[m.i := s.routes[m.i]] == s.routes;
  }

  // ---------------------------------------------------------------------
  // addVehicle: cut one route in two and give the tail a vehicle of its own.

  datatype AddMove = AddMove(vehicle: int, i: int, split: int)

  /** An available vehicle, and route i cut after a non-empty head before a
      non-empty tail. */
  predicate AddOk(inst: Instance, s: Solution, m: AddMove)
  {
    && Available(inst, s, m.vehicle)
    && 0 <= m.i < |s.routes|
    && 1 <= m.split < |s.routes[m.i].customers|
  }

  function AddVehicle(s: Solution, m: AddMove): Solution
    requires 0 <= m.i < |s.routes| && 0 <= m.split <= |s.routes[m.i].customers|
  {
    var r := s.routes[m.i];
    Solution(s.routes[m.i := Route(r.vehicle, r.customers[..m.split])] + [Route(m.vehicle, r.customers[m.split..])])
  }

  function AddSplitStep(v: int, i: int): int -> seq<AddMove>
  {
    split => [AddMove(v, i, split)]
  }

  function AddIStep(s: Solution, v: int): int -> seq<AddMove>
  {
    i => if 0 <= i < |s.routes| then Range(1, |s.routes[i].customers|, AddSplitStep(v, i)) else []
  }

  function AddVStep(s: Solution): int -> seq<AddMove>
  {
    v => Range(0, |s.routes|, AddIStep(s, v))
  }

  /** All addVehicle moves, in loop order: the unused fixed vehicles, then
      the type-0 vehicle. */
  function AddMoves(inst: Instance, s: Solution): seq<AddMove>
  {
    Each(Unused(inst, s) + [0], AddVStep(s))
  }

  lemma AddIMember(s: Solution, v: int, i: int, m: AddMove)
    ensures m in AddIStep(s, v)(i) <==>
      0 <= i < |s.routes| && m.vehicle == v && m.i == i && 1 <= m.split < |s.routes[i].customers|
  {
    if 0 <= i < |s.routes| {
      RangeMember(1, |s.routes[i].customers|, AddSplitStep(v, i), m);
      if m.vehicle == v && m.i == i && 1 <= m.split < |s.routes[i].customers| {
        assert m in AddSplitStep(v, i)(m.split);
      }
    }
  }

  lemma AddVMember(s: Solution, v: int, m: AddMove)
    ensures m in AddVStep(s)(v) <==>
      m.vehicle == v && 0 <= m.i < |s.routes| && 1 <= m.split < |s.routes[m.i].customers|
  {
    RangeMember(0, |s.routes|, AddIStep(s, v), m);
    AddIMember(s, v, m.i, m);
    if m in AddVStep(s)(v) {
      var i :| 0 <= i < |s.routes| && m in AddIStep(s, v)(i);
      AddIMember(s, v, i, m);
    }
  }

  lemma AddMovesMember(inst: Instance, s: Solution, m: AddMove)
    ensures m in AddMoves(inst, s) <==> AddOk(inst, s, m)
  {
    var vs := Unused(inst, s) + [0];
    EachMember(vs, AddVStep(s), m);
    UnusedMember(inst, s, m.vehicle);
    AddVMember(s, m.vehicle, m);
    if m in AddMoves(inst, s) {
      var k :| 0 <= k < |vs| && m in AddVStep(s)(vs[k]);
      AddVMember(s, vs[k], m);
      UnusedMember(inst, s, vs[k]);
    }
    if AddOk(inst, s, m) {
      assert m.vehicle in vs;
      var k :| 0 <= k < |vs| && vs[k] == m.vehicle;
    }
  }

  lemma AddMovesOk(inst: Instance, s: Solution)
    ensures forall m :: m in AddMoves(inst, s) ==> AddOk(inst, s, m)
  {
    forall m | m in AddMoves(inst, s)
      ensures AddOk(inst, s, m)
    {
      AddMovesMember(inst, s, m);
    }
  }

  /** Every move applied to a copy of s, in loop order. */
  function AddCandidates(inst: Instance, s: Solution): seq<Solution>
  {
    var ms := AddMoves(inst, s);
    AddMovesOk(inst, s);
    assert forall k :: 0 <= k < |ms| ==> AddOk(inst, s, ms[k]);
    seq(|ms|, k requires 0 <= k < |ms| => AddVehicle(s, ms[k]))
  }

  /** addVehicle: every move applied to a copy, in loop order, then
      filtered by isValid. */
  function AddNeighbours(inst: Instance, s: Solution): seq<Solution>
  {
    KeepValid(inst, AddCandidates(inst, s))
  }

  /** The candidates are exactly the results of the moves the loops
      allow. */
  lemma AddCandidatesMember(inst: Instance, s: Solution, x: Solution)
    ensures x in AddCandidates(inst, s) <==> exists m :: AddOk(inst, s, m) && x == AddVehicle(s, m)
  {
    var ms := AddMoves(inst, s);
    AddMovesOk(inst, s);
    assert forall k :: 0 <= k < |ms| ==> AddOk(inst, s, ms[k]);
    var cs := AddCandidates(inst, s);
    assert cs == seq(|ms|, k requires 0 <= k < |ms| => AddVehicle(s, ms[k]));
    if x in cs {
      var k :| 0 <= k < |cs| && cs[k] == x;
      assert AddOk(inst, s, ms[k]) && x == AddVehicle(s, ms[k]);
    }
    if exists m :: AddOk(inst, s, m) && x == AddVehicle(s, m) {
      var m :| AddOk(inst, s, m) && x == AddVehicle(s, m);
      AddMovesMember(inst, s, m);
      var k :| 0 <= k < |ms| && ms[k] == m;
      assert cs[k] == x;
    }
  }

  /** A solution is an addVehicle neighbour exactly when it is valid and
      some AddOk move produces it. */
  lemma AddNeighboursMember(inst: Instance, s: Solution, x: Solution)
    ensures x in AddNeighbours(inst, s) <==>
      Feasible(inst, x) && exists m :: AddOk(inst, s, m) && x == AddVehicle(s, m)
  {
    AddCandidatesMember(inst, s, x);
  }

  /** An addVehicle move keeps route i's head in place, appends its tail as
      a new last route with the new vehicle, leaves the other routes alone,
      keeps the bag and keeps fixed vehicles unique. */
  lemma AddKeeps(inst: Instance, s: Solution, m: AddMove)
    requires AddOk(inst, s, m)
    ensures var x := AddVehicle(s, m);
      var c := s.routes[m.i].customers;
      && |x.routes| == |s.routes| + 1
      && x.routes[m.i] == Route(s.routes[m.i].vehicle, c[..m.split])
      && x.routes[|s.routes|] == Route(m.vehicle, c[m.split..])
      && |c[..m.split]| > 0 && |c[m.split..]| > 0
      && (forall q :: 0 <= q < |s.routes| && q != m.i ==> x.routes[q] == s.routes[q])
      && Bag(x) == Bag(s)
      && (UniqueFixedVehicles(s) ==> UniqueFixedVehicles(x))
  {
    var c := s.routes[m.i].customers;
    var head := Route(s.routes[m.i].vehicle, c[..m.split]);
    var tail := Route(m.vehicle, c[m.split..]);
    var rs := s.routes[m.i := head];
    var x := AddVehicle(s, m);
    assert x.routes == rs + [tail];
    BagAppend(rs, tail);
    BagUpdate(s.routes, m.i, head);
    assert c == c[..m.split] + c[m.split..];
    var a, b := Bag(Solution(rs)), Bag(s);
    forall z
      ensures (a + multiset(tail.customers))[z] == b[z]
    {
      assert (a + multiset(c))[z] == (b + multiset(head.customers))[z];
    }
    if UniqueFixedVehicles(s) {
      SameVehiclesUnique(s, Solution(rs));
      forall p, q | 0 <= p < |x.routes| && 0 <= q < |x.routes| && p != q && x.routes[p].vehicle != 0
        ensures x.routes[p].vehicle != x.routes[q].vehicle
      {
        if p == |s.routes| {
          assert x.routes[q].vehicle == s.routes[q].vehicle;
        } else if q == |s.routes| {
          assert x.routes[p].vehicle == s.routes[p].vehicle;
        }
      }
    }
  }

  /** Merging the last route back onto the end of route i. */
  function MergeLast(x: Solution, i: int): (r: Solution)
    requires 0 <= i < |x.routes| - 1
    ensures |r.routes| == |x.routes| - 1
    ensures Bag(r) == Bag(x)
  {
    var last := x.routes[|x.routes| - 1];
    var rs := x.routes[..|x.routes| - 1];
    var merged := Route(rs[i].vehicle, rs[i].customers + last.customers);
    BagUpdate(rs, i, merged);
    BagAppend(rs, last);
    assert x.routes == rs + [last];
    var r := Solution(rs[i := merged]);
    var a, b := Bag(r), Bag(Solution(rs));
    forall z
      ensures a[z] == Bag(x)[z]
    {
      assert (a + multiset(rs[i].customers))[z] == (b + multiset(merged.customers))[z];
    }
    r
  }

  /** Merging the new route back undoes addVehicle. */
  lemma AddMergeBack(inst: Instance, s: Solution, m: AddMove)
    requires AddOk(inst, s, m)
    ensures MergeLast(AddVehicle(s, m), m.i) == s
  {
    var c := s.routes[m.i].customers;
    var x := AddVehicle(s, m);
    assert x.routes[..|x.routes| - 1] == s.routes[m.i := Route(s.routes[m.i].vehicle, c[..m.split])];
    assert c[..m.split] + c[m.split..] == c;
    assert s.routes[m.i := Route(s.routes[m.i].vehicle, c)] == s.routes;
  }
}
