/** The minimal-penalty evaluator (getMinPenalty): a forward dynamic
    programme over the stops of a route whose state is a piecewise-constant
    function of time, built from the operations of Piecewise.

    f[0] is the zero function; for every later stop h,
      f[h] = Min(Add(Shift(f[h-1], -t[prev][cur]), PenaltyFunction(start[cur], end[cur], 1)))
    and the route's penalty is f[last] at the depot's closing time.
    The optimality theorem below says what the programme computes: the
    fewest missed windows over all timetables that respect the travel times
    and return to the depot by its closing time. */
module PenaltyEvaluator {
  import opened Collections
  import opened Piecewise
  import opened Routes
  import opened Instances

  /** The solver's penalty field: the flat cost of one missed window. */
  const PenaltyWeight: int := 1

  /** A sequence of stops whose ids index the instance arrays. */
  predicate Stops(inst: Instance, l: seq<int>)
  {
    Valid(inst) && CustomerIds(inst, l)
  }

  /** Travel time into stop h from stop h - 1. */
  function Travel(inst: Instance, l: seq<int>, h: int): int
    requires Stops(inst, l) && 1 <= h < |l|
  {
    inst.t[l[h - 1]][l[h]]
  }

  /** f[h-1] moved to arrival times at stop h, plus stop h's penalty. */
  function Relaxed(inst: Instance, l: seq<int>, h: int, f: Plf): Plf
    requires Stops(inst, l) && 1 <= h < |l|
  {
    Add(Shift(f, -Travel(inst, l, h)),
        PenaltyFunction(inst.startTime[l[h]], inst.endTime[l[h]], PenaltyWeight))
  }

  /** One step of the programme, to stop h. The solver's Min indexes an
      empty list when the first value is not below int.MaxValue; that crash
      is None here. */
  function Step(inst: Instance, l: seq<int>, h: int, f: Plf): Option<Plf>
    requires Stops(inst, l) && 1 <= h < |l|
  {
    var g := Relaxed(inst, l, h, f);
    if |g.pieces| > 0 && g.pieces[0].value >= IntMax then None else Some(Min(g))
  }

  /** f[h] of the programme. */
  function Frontier(inst: Instance, l: seq<int>, h: int): Option<Plf>
    requires Stops(inst, l) && 0 <= h < |l|
    decreases h, 1, 0
  {
    if h == 0 then Some(Zero()) else Advance(inst, l, h)
  }

  /** f[h] from f[h-1], for h >= 1: None once an earlier step has failed. */
  function Advance(inst: Instance, l: seq<int>, h: int): Option<Plf>
    requires Stops(inst, l) && 1 <= h < |l|
    decreases h, 0, 1
  {
    if Frontier(inst, l, h - 1).None? then None else StepAt(inst, l, h)
  }

  /** The step to stop h applied to an existing f[h-1]. */
  function StepAt(inst: Instance, l: seq<int>, h: int): Option<Plf>
    requires Stops(inst, l) && 1 <= h < |l| && Frontier(inst, l, h - 1).Some?
    decreases h, 0, 0
  {
    Step(inst, l, h, Frontier(inst, l, h - 1).value)
  }

  /** getMinPenalty: run the programme along the route extended with the
      depot at both ends and read the last function at the depot's closing
      time endTime[0]. */
  function MinPenalty(inst: Instance, r: Route): Option<int>
    requires Valid(inst) && CustomerIds(inst, r.customers)
  {
    var l := ExtendWithDepots(r);
    match Frontier(inst, l, |l| - 1)
    case None => None
    case Some(f) => Some(GetValue(f, inst.endTime[0]))
  }

  // ---------------------------------------------------------------------
  // Reference semantics: timetables and their penalties.

  /** Penalty of being at stop c at time y: the window is (start, end]. */
  function StopPenalty(inst: Instance, c: int, y: int): int
    requires Valid(inst) && 0 <= c < |inst.demand|
  {
    if inst.startTime[c] < y <= inst.endTime[c] then 0 else PenaltyWeight
  }

  /** tau[j] is the time of the visit to stop l[j + 1]; the start at l[0] is
      free. Each visit is at least the travel time after the previous one
      (waiting is allowed). */
  predicate Timetable(inst: Instance, l: seq<int>, tau: seq<int>)
    requires Stops(inst, l) && |tau| < |l|
  {
    |tau| <= 1 ||
    (Timetable(inst, l, tau[..|tau| - 1]) && tau[|tau| - 2] + Travel(inst, l, |tau|) <= tau[|tau| - 1])
  }

  /** Total penalty of a timetable. */
  function Cost(inst: Instance, l: seq<int>, tau: seq<int>): int
    requires Stops(inst, l) && |tau| < |l|
  {
    if |tau| == 0 then 0
    else Cost(inst, l, tau[..|tau| - 1]) + StopPenalty(inst, l[|tau|], tau[|tau| - 1])
  }

  /** Every window visited is non-empty (start < end). */
  predicate ProperWindows(inst: Instance, l: seq<int>)
    requires Stops(inst, l)
  {
    forall j :: 0 <= j < |l| ==> inst.startTime[l[j]] < inst.endTime[l[j]]
  }

  /** Arriving at stop h at time y costs f[h-1] at the latest departure
      y - travel plus stop h's own penalty. */
  lemma RelaxedEval(inst: Instance, l: seq<int>, h: int, f: Plf)
    requires Stops(inst, l) && ProperWindows(inst, l) && 1 <= h < |l| && WellFormed(f)
    ensures WellFormed(Relaxed(inst, l, h, f))
    ensures forall y :: GetValue(Relaxed(inst, l, h, f), y) ==
              GetValue(f, y - Travel(inst, l, h)) + StopPenalty(inst, l[h], y)
  {
    var sh := Shift(f, -Travel(inst, l, h));
    var ph := PenaltyFunction(inst.startTime[l[h]], inst.endTime[l[h]], PenaltyWeight);
    AddEval(sh, ph);
  }

  /** Under proper windows a step succeeds when f[h-1] stays below h. */
  lemma StepSucceeds(inst: Instance, l: seq<int>, h: int, f: Plf)
    requires Stops(inst, l) && ProperWindows(inst, l) && 1 <= h < |l| && h < IntMax && WellFormed(f)
    requires forall x :: 0 <= GetValue(f, x) <= h - 1
    ensures WellFormed(Relaxed(inst, l, h, f))
    ensures Relaxed(inst, l, h, f).pieces[0].value < IntMax
    ensures Step(inst, l, h, f) == Some(Min(Relaxed(inst, l, h, f)))
  {
    RelaxedEval(inst, l, h, f);
    var g := Relaxed(inst, l, h, f);
    var x0 := FirstValueAttained(g);
    assert GetValue(f, x0 - Travel(inst, l, h)) <= h - 1;
  }

  /** One step keeps the values in range: if f[h-1] lies in 0..h-1 then
      f[h] lies in 0..h. */
  lemma StepBounded(inst: Instance, l: seq<int>, h: int, f: Plf)
    requires Stops(inst, l) && ProperWindows(inst, l) && 1 <= h < |l| && h < IntMax && WellFormed(f)
    requires forall x :: 0 <= GetValue(f, x) <= h - 1
    ensures WellFormed(Relaxed(inst, l, h, f)) && Relaxed(inst, l, h, f).pieces[0].value < IntMax
    ensures WellFormed(Min(Relaxed(inst, l, h, f)))
    ensures forall x :: 0 <= GetValue(Min(Relaxed(inst, l, h, f)), x) <= h
  {
    StepSucceeds(inst, l, h, f);
    RelaxedEval(inst, l, h, f);
    var g := Relaxed(inst, l, h, f);
    forall x
      ensures 0 <= GetValue(Min(g), x) <= h
    {
      var y := MinIsPrefixMinimum(g, x);
      assert GetValue(f, y - Travel(inst, l, h)) <= h - 1;
    }
  }

  /** With proper windows each f[h] exists, is well-formed, and lies in
      0..h. */
  lemma {:induction false} FrontierFacts(inst: Instance, l: seq<int>, h: int)
    requires Stops(inst, l) && ProperWindows(inst, l) && 0 <= h < |l| && h < IntMax
    ensures Frontier(inst, l, h).Some?
    ensures WellFormed(Frontier(inst, l, h).value)
    ensures forall x :: 0 <= GetValue(Frontier(inst, l, h).value, x) <= h
  {
    if h > 0 {
      FrontierFacts(inst, l, h - 1);
      var f := Frontier(inst, l, h - 1).value;
      StepSucceeds(inst, l, h, f);
      StepBounded(inst, l, h, f);
      assert StepAt(inst, l, h) == Step(inst, l, h, f);
    }
  }

  /** The programme's step, unfolded once: f[h] is Min of the relaxation of
      an in-range, well-formed f[h-1]. */
  lemma FrontierStep(inst: Instance, l: seq<int>, h: int) returns (f: Plf)
    requires Stops(inst, l) && ProperWindows(inst, l) && 1 <= h < |l| && h < IntMax
    ensures Frontier(inst, l, h - 1) == Some(f) && WellFormed(f)
    ensures WellFormed(Relaxed(inst, l, h, f)) && Relaxed(inst, l, h, f).pieces[0].value < IntMax
    ensures Frontier(inst, l, h) == Some(Min(Relaxed(inst, l, h, f)))
  {
    FrontierFacts(inst, l, h - 1);
    f := Frontier(inst, l, h - 1).value;
    StepSucceeds(inst, l, h, f);
    assert StepAt(inst, l, h) == Step(inst, l, h, f);
  }

  /** Each f[h] never increases with time: f[0] is constant and every later
      f[h] is an output of Min. */
  lemma FrontierNonIncreasing(inst: Instance, l: seq<int>, h: int, x: int, x': int)
    requires Stops(inst, l) && ProperWindows(inst, l) && 0 <= h < |l| && h < IntMax
    requires x <= x'
    ensures Frontier(inst, l, h).Some?
    ensures GetValue(Frontier(inst, l, h).value, x') <= GetValue(Frontier(inst, l, h).value, x)
  {
    if h > 0 {
      var f := FrontierStep(inst, l, h);
      MinNonIncreasing(Relaxed(inst, l, h, f), x, x');
    }
  }

  /** The step's share of the lower bound: for every visit time y <= x at
      stop h, f[h](x) is at most f[h-1] at the departure y - travel plus
      stop h's penalty at y. */
  lemma StepLowerBound(inst: Instance, l: seq<int>, h: int, y: int, x: int)
    requires Stops(inst, l) && ProperWindows(inst, l) && 1 <= h < |l| && h < IntMax
    requires y <= x
    ensures Frontier(inst, l, h).Some? && Frontier(inst, l, h - 1).Some?
    ensures GetValue(Frontier(inst, l, h).value, x) <=
              GetValue(Frontier(inst, l, h - 1).value, y - Travel(inst, l, h)) + StopPenalty(inst, l[h], y)
  {
    var f := FrontierStep(inst, l, h);
    RelaxedEval(inst, l, h, f);
    var _ := MinIsPrefixMinimum(Relaxed(inst, l, h, f), x);
  }

  /** The step's share of attainment: f[h](x) is f[h-1] at some departure
      y - travel, y <= x, plus stop h's penalty at y. */
  lemma StepAttained(inst: Instance, l: seq<int>, h: int, x: int) returns (y: int)
    requires Stops(inst, l) && ProperWindows(inst, l) && 1 <= h < |l| && h < IntMax
    ensures Frontier(inst, l, h).Some? && Frontier(inst, l, h - 1).Some?
    ensures y <= x
    ensures GetValue(Frontier(inst, l, h).value, x) ==
              GetValue(Frontier(inst, l, h - 1).value, y - Travel(inst, l, h)) + StopPenalty(inst, l[h], y)
  {
    var f := FrontierStep(inst, l, h);
    RelaxedEval(inst, l, h, f);
    y := MinIsPrefixMinimum(Relaxed(inst, l, h, f), x);
  }

  /** Extending a timetable by a visit at y: it stays a timetable exactly
      when y leaves the travel time after the previous visit, and its cost
      grows by the penalty at y. */
  lemma TimetableSnoc(inst: Instance, l: seq<int>, h: int, prev: seq<int>, y: int)
    requires Stops(inst, l) && 1 <= h < |l| && |prev| == h - 1
    ensures Timetable(inst, l, prev + [y]) <==>
              Timetable(inst, l, prev) && (h == 1 || prev[h - 2] + Travel(inst, l, h) <= y)
    ensures Cost(inst, l, prev + [y]) == Cost(inst, l, prev) + StopPenalty(inst, l[h], y)
  {
    assert (prev + [y])[..h - 1] == prev;
  }

  /** f[h] at x is at most the penalty of every timetable for stops 1..h
      whose last visit is no later than x. */
  lemma {:induction false} FrontierLowerBound(inst: Instance, l: seq<int>, h: int, tau: seq<int>, x: int)
    requires Stops(inst, l) && ProperWindows(inst, l) && 0 <= h < |l| && h < IntMax
    requires |tau| == h && Timetable(inst, l, tau) && (h == 0 || tau[h - 1] <= x)
    ensures Frontier(inst, l, h).Some?
    ensures GetValue(Frontier(inst, l, h).value, x) <= Cost(inst, l, tau)
    decreases h, 1
  {
    if h == 0 {
      assert GetValue(Frontier(inst, l, h).value, x) == 0;
    } else {
      LowerBoundStep(inst, l, h, tau, x);
    }
  }

  /** The inductive step of FrontierLowerBound: bound the timetable without
      its last visit by f[h-1], then add the last visit's penalty. */
  lemma {:induction false} LowerBoundStep(inst: Instance, l: seq<int>, h: int, tau: seq<int>, x: int)
    requires Stops(inst, l) && ProperWindows(inst, l) && 1 <= h < |l| && h < IntMax
    requires |tau| == h && Timetable(inst, l, tau) && tau[h - 1] <= x
    ensures Frontier(inst, l, h).Some?
    ensures GetValue(Frontier(inst, l, h).value, x) <= Cost(inst, l, tau)
    decreases h, 0
  {
    var y := tau[h - 1];
    var prev := tau[..h - 1];
    assert tau == prev + [y];
    TimetableSnoc(inst, l, h, prev, y);
    FrontierLowerBound(inst, l, h - 1, prev, y - Travel(inst, l, h));
    StepLowerBound(inst, l, h, y, x);
  }

  /** ... and that bound is met by some such timetable. */
  lemma {:induction false} FrontierAttained(inst: Instance, l: seq<int>, h: int, x: int) returns (tau: seq<int>)
    requires Stops(inst, l) && ProperWindows(inst, l) && 0 <= h < |l| && h < IntMax
    ensures Frontier(inst, l, h).Some?
    ensures |tau| == h && Timetable(inst, l, tau) && (h == 0 || tau[h - 1] <= x)
    ensures Cost(inst, l, tau) == GetValue(Frontier(inst, l, h).value, x)
    decreases h, 1
  {
    if h == 0 {
      tau := [];
      assert Cost(inst, l, tau) == 0;
    } else {
      tau := AttainedStep(inst, l, h, x);
    }
  }

  /** The inductive step of FrontierAttained: a timetable attaining f[h-1]
      at the latest departure, extended by the visit to stop h. */
  lemma {:induction false} AttainedStep(inst: Instance, l: seq<int>, h: int, x: int) returns (tau: seq<int>)
    requires Stops(inst, l) && ProperWindows(inst, l) && 1 <= h < |l| && h < IntMax
    ensures Frontier(inst, l, h).Some?
    ensures |tau| == h && Timetable(inst, l, tau) && tau[h - 1] <= x
    ensures Cost(inst, l, tau) == GetValue(Frontier(inst, l, h).value, x)
    decreases h, 0
  {
    var y := StepAttained(inst, l, h, x);
    var prev := FrontierAttained(inst, l, h - 1, y - Travel(inst, l, h));
    TimetableSnoc(inst, l, h, prev, y);
    tau := prev + [y];
  }

  /** getMinPenalty is exact: with non-empty windows (and a route short
      enough for the 32-bit running minimum) it returns the fewest missed
      windows over all timetables that come back to the depot by its
      closing time, a number between 0 and the route length + 1. */
  lemma MinPenaltyOptimal(inst: Instance, r: Route) returns (best: seq<int>)
    requires Valid(inst) && CustomerIds(inst, r.customers)
    requires ProperWindows(inst, ExtendWithDepots(r))
    requires |r.customers| + 1 < IntMax
    ensures MinPenalty(inst, r).Some?
    ensures 0 <= MinPenalty(inst, r).value <= |r.customers| + 1
    ensures forall tau :: |tau| == |r.customers| + 1 && Timetable(inst, ExtendWithDepots(r), tau)
              && tau[|r.customers|] <= inst.endTime[0]
              ==> MinPenalty(inst, r).value <= Cost(inst, ExtendWithDepots(r), tau)
    ensures |best| == |r.customers| + 1 && Timetable(inst, ExtendWithDepots(r), best)
    ensures best[|r.customers|] <= inst.endTime[0]
    ensures Cost(inst, ExtendWithDepots(r), best) == MinPenalty(inst, r).value
  {
    var l := ExtendWithDepots(r);
    var h := |l| - 1;
    FrontierFacts(inst, l, h);
    forall tau | |tau| == h && Timetable(inst, l, tau) && tau[h - 1] <= inst.endTime[0]
      ensures MinPenalty(inst, r).value <= Cost(inst, l, tau)
    {
      FrontierLowerBound(inst, l, h, tau, inst.endTime[0]);
    }
    best := FrontierAttained(inst, l, h, inst.endTime[0]);
  }
}
