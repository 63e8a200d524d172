/** Piecewise-constant functions over the integers, the dynamic-programming
    state of the minimal-penalty evaluator (PiecewiseLinearFunction in the
    solver; despite its name every piece is constant).

    A function is the ordered list of its pieces (lo, hi, value). Evaluation
    returns the value of the FIRST piece whose closed interval [lo, hi] holds
    the point, and 0 when no piece does. On a well-formed function (pieces
    tiling (-inf, +inf) left to right) this makes every piece own the
    half-open interval (lo, hi]: a shared breakpoint belongs to the piece on
    its left. */
module Piecewise {

  /** A breakpoint. The solver stores breakpoints as 32-bit ints and uses
      int.MinValue and int.MaxValue as the two infinities; here the
      infinities are constructors of their own and finite breakpoints are
      unbounded integers. */
  datatype Bound = NegInf | Fin(n: int) | PosInf

  /** int.MaxValue: the running minimum Min starts from. */
  const IntMax: int := 0x7fff_ffff

  predicate Le(a: Bound, b: Bound) {
    a.NegInf? || b.PosInf? || (a.Fin? && b.Fin? && a.n <= b.n)
  }

  predicate Lt(a: Bound, b: Bound) {
    !Le(b, a)
  }

  /** One piece: Item1 = lo, Item2 = hi, Item3 = value in the solver. */
  datatype Triplet = Triplet(lo: Bound, hi: Bound, value: int)

  datatype Plf = Plf(pieces: seq<Triplet>)

  /** x lies in the closed interval of p. */
  predicate Covers(p: Triplet, x: int) {
    Le(p.lo, Fin(x)) && Le(Fin(x), p.hi)
  }

  /** x lies in the half-open interval (lo, hi]. */
  predicate InHalfOpen(lo: Bound, hi: Bound, x: int) {
    Lt(lo, Fin(x)) && Le(Fin(x), hi)
  }

  /** GetValue: first-match evaluation. */
  function Eval(ps: seq<Triplet>, x: int): int
  {
    if |ps| == 0 then 0
    else if Covers(ps[0], x) then ps[0].value
    else Eval(ps[1..], x)
  }

  /** The value is that of the first piece whose closed interval holds x... */
  lemma {:induction false} EvalFirstMatch(ps: seq<Triplet>, x: int, i: int)
    requires 0 <= i < |ps| && Covers(ps[i], x) && FirstCover(ps, x, i)
    ensures Eval(ps, x) == ps[i].value
  {
    if i > 0 {
      assert !Covers(ps[0], x);
      EvalFirstMatch(ps[1..], x, i - 1);
    }
  }

  /** ... and 0 when there is none. */
  lemma {:induction false} EvalNoMatch(ps: seq<Triplet>, x: int)
    requires FirstCover(ps, x, |ps|)
    ensures Eval(ps, x) == 0
  {
    if |ps| > 0 {
      assert !Covers(ps[0], x);
      EvalNoMatch(ps[1..], x);
    }
  }

  /** No piece before index i covers x. */
  predicate FirstCover(ps: seq<Triplet>, x: int, i: int)
    requires 0 <= i <= |ps|
  {
    forall j :: 0 <= j < i ==> !Covers(ps[j], x)
  }

  function GetValue(f: Plf, x: int): int {
    Eval(f.pieces, x)
  }

  function Last(ps: seq<Triplet>): Triplet
    requires |ps| > 0
  {
    ps[|ps| - 1]
  }

  /** Each piece is a non-empty interval and consecutive pieces touch. */
  predicate Chain(ps: seq<Triplet>) {
    && (forall i :: 0 <= i < |ps| ==> Lt(ps[i].lo, ps[i].hi))
    && (forall i :: 0 < i < |ps| ==> ps[i].lo == ps[i - 1].hi)
  }

  /** The pieces tile (-inf, +inf) from left to right. */
  predicate WellFormed(f: Plf) {
    && |f.pieces| > 0
    && Chain(f.pieces)
    && f.pieces[0].lo == NegInf
    && Last(f.pieces).hi == PosInf
  }

  lemma ChainTail(ps: seq<Triplet>)
    requires Chain(ps) && |ps| > 0
    ensures Chain(ps[1..])
  {
  }

  /** Breakpoints of a chain never decrease. */
  lemma {:induction false} ChainOrdered(ps: seq<Triplet>, i: int, j: int)
    requires Chain(ps) && 0 <= i < j < |ps|
    ensures Le(ps[i].hi, ps[j].lo)
    ensures Le(ps[i].lo, ps[j].lo)
    decreases j - i
  {
    if j > i + 1 {
      ChainOrdered(ps, i, j - 1);
    }
  }

  /** On a chain, the first-match value at x is that of the piece whose
      half-open interval (lo, hi] holds x. */
  lemma EvalHalfOpen(ps: seq<Triplet>, x: int, k: int)
    requires Chain(ps) && 0 <= k < |ps| && InHalfOpen(ps[k].lo, ps[k].hi, x)
    ensures Eval(ps, x) == ps[k].value
  {
    forall j | 0 <= j < k
      ensures !Covers(ps[j], x)
    {
      ChainOrdered(ps, j, k);
    }
    EvalFirstMatch(ps, x, k);
  }

  /** The no-argument constructor: one piece (-inf, +inf) with value 0. */
  function Zero(): (f: Plf)
    ensures WellFormed(f)
    ensures forall x :: GetValue(f, x) == 0
  {
    Plf([Triplet(NegInf, PosInf, 0)])
  }

  /** Flat penalty p outside the window, 0 inside. Because the first piece
      wins at x == s, the zero part is the half-open (s, e]. */
  function PenaltyFunction(s: int, e: int, p: int): (f: Plf)
    ensures |f.pieces| == 3
    ensures s < e ==> WellFormed(f)
    ensures forall x :: GetValue(f, x) == if s < x <= e then 0 else p
  {
    var ps := [Triplet(NegInf, Fin(s), p), Triplet(Fin(s), Fin(e), 0), Triplet(Fin(e), PosInf, p)];
    forall x
      ensures Eval(ps, x) == if s < x <= e then 0 else p
    {
      if x <= s {
        EvalFirstMatch(ps, x, 0);
      } else if x <= e {
        EvalFirstMatch(ps, x, 1);
      } else {
        EvalFirstMatch(ps, x, 2);
      }
    }
    Plf(ps)
  }

  function ShiftBound(b: Bound, v: int): Bound {
    if b.Fin? then Fin(b.n - v) else b
  }

  function ShiftTriplet(p: Triplet, v: int): Triplet {
    Triplet(ShiftBound(p.lo, v), ShiftBound(p.hi, v), p.value)
  }

  /** Translating every piece by -v translates the function. */
  lemma {:induction false} ShiftedEval(ps: seq<Triplet>, qs: seq<Triplet>, v: int, x: int)
    requires |qs| == |ps|
    requires forall i :: 0 <= i < |ps| ==> qs[i] == ShiftTriplet(ps[i], v)
    ensures Eval(qs, x) == Eval(ps, x + v)
  {
    if |ps| > 0 {
      ShiftedEval(ps[1..], qs[1..], v, x);
    }
  }

  /** Shift(v): finite breakpoints move by -v, the infinities stay, values
      and piece count are kept; the result at x is the input at x + v. */
  function Shift(f: Plf, v: int): (r: Plf)
    ensures |r.pieces| == |f.pieces|
    ensures forall i :: 0 <= i < |f.pieces| ==> r.pieces[i].value == f.pieces[i].value
    ensures forall i :: 0 <= i < |f.pieces| ==>
              && (r.pieces[i].lo == NegInf <==> f.pieces[i].lo == NegInf)
              && (r.pieces[i].hi == PosInf <==> f.pieces[i].hi == PosInf)
    ensures WellFormed(f) ==> WellFormed(r)
    ensures forall x :: GetValue(r, x) == GetValue(f, x + v)
  {
    var r := Plf(seq(|f.pieces|, i requires 0 <= i < |f.pieces| => ShiftTriplet(f.pieces[i], v)));
    forall x
      ensures GetValue(r, x) == GetValue(f, x + v)
    {
      ShiftedEval(f.pieces, r.pieces, v, x);
    }
    r
  }

  /** No piece has b strictly inside its interval. */
  predicate NoStraddle(ps: seq<Triplet>, b: Bound) {
    forall i :: 0 <= i < |ps| ==> !(Lt(ps[i].lo, b) && Lt(b, ps[i].hi))
  }

  /** First loop of AddPiece: split the first piece that has b strictly
      inside it into (lo, b) and (b, hi), both keeping its value. */
  function SplitAt(ps: seq<Triplet>, b: Bound): (r: seq<Triplet>)
    ensures |ps| <= |r| <= |ps| + 1
    ensures |ps| > 0 ==> r[0].lo == ps[0].lo && Last(r).hi == Last(ps).hi
    ensures forall x :: Eval(r, x) == Eval(ps, x)
  {
    if |ps| == 0 then []
    else if Lt(ps[0].lo, b) && Lt(b, ps[0].hi) then
      [Triplet(ps[0].lo, b, ps[0].value), Triplet(b, ps[0].hi, ps[0].value)] + ps[1..]
    else
      var r := [ps[0]] + SplitAt(ps[1..], b);
      assert r[1..] == SplitAt(ps[1..], b);
      r
  }

  /** Splitting keeps a chain a chain, removes every straddle of b and
      creates no straddle of any other point. */
  lemma {:induction false} SplitAtChain(ps: seq<Triplet>, b: Bound, a: Bound)
    requires Chain(ps)
    ensures Chain(SplitAt(ps, b))
    ensures NoStraddle(SplitAt(ps, b), b)
    ensures NoStraddle(ps, a) ==> NoStraddle(SplitAt(ps, b), a)
  {
    if |ps| == 0 {
    } else if Lt(ps[0].lo, b) && Lt(b, ps[0].hi) {
      SplitHere(ps, b, a);
    } else {
      ChainTail(ps);
      SplitAtChain(ps[1..], b, a);
      var rest := SplitAt(ps[1..], b);
      assert SplitAt(ps, b) == [ps[0]] + rest;
      if |ps| > 1 {
        assert rest[0].lo == ps[1].lo;
      }
      ChainCons(ps[0], rest);
      NoStraddleCons(ps[0], rest, b);
      NoStraddleCons(ps[0], rest, a);
      NoStraddleCons(ps[0], ps[1..], a);
      assert ps == [ps[0]] + ps[1..];
    }
  }

  /** A non-empty piece ending where a chain starts extends it. */
  lemma ChainCons(p: Triplet, rest: seq<Triplet>)
    requires Lt(p.lo, p.hi) && Chain(rest) && (|rest| > 0 ==> rest[0].lo == p.hi)
    ensures Chain([p] + rest)
  {
    var all := [p] + rest;
    forall i | 1 <= i < |all|
      ensures all[i] == rest[i - 1]
    {
    }
  }

  lemma NoStraddleCons(p: Triplet, rest: seq<Triplet>, b: Bound)
    ensures NoStraddle([p] + rest, b) <==> !(Lt(p.lo, b) && Lt(b, p.hi)) && NoStraddle(rest, b)
  {
    var all := [p] + rest;
    forall i | 1 <= i < |all|
      ensures all[i] == rest[i - 1]
    {
    }
    if NoStraddle(rest, b) && !(Lt(p.lo, b) && Lt(b, p.hi)) {
      forall i | 0 <= i < |all|
        ensures !(Lt(all[i].lo, b) && Lt(b, all[i].hi))
      {
        if i > 0 {
          assert all[i] == rest[i - 1];
        }
      }
    }
    if NoStraddle(all, b) {
      assert all[0] == p;
      forall i | 0 <= i < |rest|
        ensures !(Lt(rest[i].lo, b) && Lt(b, rest[i].hi))
      {
        assert rest[i] == all[i + 1];
      }
    }
  }

  lemma SplitHere(ps: seq<Triplet>, b: Bound, a: Bound)
    requires Chain(ps) && |ps| > 0 && Lt(ps[0].lo, b) && Lt(b, ps[0].hi)
    ensures Chain(SplitAt(ps, b))
    ensures NoStraddle(SplitAt(ps, b), b)
    ensures NoStraddle(ps, a) ==> NoStraddle(SplitAt(ps, b), a)
  {
    var r := SplitAt(ps, b);
    assert r == [Triplet(ps[0].lo, b, ps[0].value), Triplet(b, ps[0].hi, ps[0].value)] + ps[1..];
    forall i | 2 <= i < |r|
      ensures r[i] == ps[i - 1] && Le(b, r[i].lo)
    {
      ChainOrdered(ps, 0, i - 1);
    }
    forall i | 1 <= i < |r|
      ensures r[i].lo == r[i - 1].hi
    {
      if i >= 3 {
        assert ps[i - 1].lo == ps[i - 2].hi;
      }
    }
  }

  /** Third loop of AddPiece: add d to every piece whose lower bound is at
      least a, stopping after the piece whose upper bound equals b. */
  function Bump(ps: seq<Triplet>, a: Bound, b: Bound, d: int): (r: seq<Triplet>)
    ensures |r| == |ps|
    ensures forall i :: 0 <= i < |ps| ==> r[i].lo == ps[i].lo && r[i].hi == ps[i].hi
  {
    if |ps| == 0 then []
    else
      var p := if Le(a, ps[0].lo) then ps[0].(value := ps[0].value + d) else ps[0];
      if ps[0].hi == b then [p] + ps[1..] else [p] + Bump(ps[1..], a, b, d)
  }

  /** On a chain already split at a and b, Bump adds d exactly on (a, b]. */
  lemma {:induction false} BumpEval(ps: seq<Triplet>, a: Bound, b: Bound, d: int, x: int)
    requires Chain(ps) && |ps| > 0
    requires NoStraddle(ps, a) && NoStraddle(ps, b)
    requires Lt(ps[0].lo, b)
    requires InHalfOpen(ps[0].lo, Last(ps).hi, x)
    ensures Eval(Bump(ps, a, b, d), x) == Eval(ps, x) + (if InHalfOpen(a, b, x) then d else 0)
  {
    var r := Bump(ps, a, b, d);
    assert !(Lt(ps[0].lo, a) && Lt(a, ps[0].hi)) && !(Lt(ps[0].lo, b) && Lt(b, ps[0].hi));
    if Le(Fin(x), ps[0].hi) {
      assert Covers(ps[0], x) && Covers(r[0], x);
      BumpHead(ps[0], a, b, x);
    } else {
      assert !Covers(ps[0], x) && !Covers(r[0], x);
      if ps[0].hi == b {
        assert r[1..] == ps[1..];
      } else {
        BumpTail(ps, a, b, x);
        assert r[1..] == Bump(ps[1..], a, b, d);
        BumpEval(ps[1..], a, b, d, x);
      }
    }
  }

  /** Inside a piece that straddles neither a nor b and starts below b,
      x is in (a, b] exactly when the piece starts at or after a. */
  lemma BumpHead(p: Triplet, a: Bound, b: Bound, x: int)
    requires Lt(p.lo, b) && !(Lt(p.lo, a) && Lt(a, p.hi)) && !(Lt(p.lo, b) && Lt(b, p.hi))
    requires Lt(p.lo, Fin(x)) && Le(Fin(x), p.hi)
    ensures InHalfOpen(a, b, x) <==> Le(a, p.lo)
  {
  }

  /** Past the first piece, which ends before b, the tail meets BumpEval's
      requirements. */
  lemma BumpTail(ps: seq<Triplet>, a: Bound, b: Bound, x: int)
    requires Chain(ps) && |ps| > 0
    requires NoStraddle(ps, a) && NoStraddle(ps, b)
    requires Lt(ps[0].lo, b) && ps[0].hi != b
    requires InHalfOpen(ps[0].lo, Last(ps).hi, x) && !Le(Fin(x), ps[0].hi)
    ensures |ps| > 1 && Chain(ps[1..])
    ensures NoStraddle(ps[1..], a) && NoStraddle(ps[1..], b)
    ensures Lt(ps[1].lo, b) && InHalfOpen(ps[1].lo, Last(ps[1..]).hi, x)
  {
    ChainTail(ps);
    assert ps == [ps[0]] + ps[1..];
    NoStraddleCons(ps[0], ps[1..], a);
    NoStraddleCons(ps[0], ps[1..], b);
    assert |ps| > 1;
    assert ps[1].lo == ps[0].hi;
  }

  /** AddPiece: add the piece's value to the function on the piece's
      interval. A zero value or an empty interval (lo >= hi) returns the
      function unchanged. */
  function AddPiece(f: Plf, piece: Triplet): (r: Plf)
    ensures |f.pieces| <= |r.pieces| <= |f.pieces| + 2
    ensures piece.value == 0 || Le(piece.hi, piece.lo) ==> r == f
  {
    if piece.value == 0 || Le(piece.hi, piece.lo) then f
    else
      var split := SplitAt(SplitAt(f.pieces, piece.lo), piece.hi);
      Plf(Bump(split, piece.lo, piece.hi, piece.value))
  }

  /** On a well-formed function AddPiece changes the value by exactly d on
      (lo, hi] (everything up to hi when lo is -inf) and nowhere else, and
      the result is again well-formed. */
  lemma AddPieceEval(f: Plf, piece: Triplet)
    requires WellFormed(f)
    ensures WellFormed(AddPiece(f, piece))
    ensures forall x :: GetValue(AddPiece(f, piece), x) ==
              GetValue(f, x) + (if InHalfOpen(piece.lo, piece.hi, x) then piece.value else 0)
  {
    if !(piece.value == 0 || Le(piece.hi, piece.lo)) {
      var v2 := SplitAt(SplitAt(f.pieces, piece.lo), piece.hi);
      SplitTwice(f, piece.lo, piece.hi);
      var r := Bump(v2, piece.lo, piece.hi, piece.value);
      BumpChain(v2, piece.lo, piece.hi, piece.value);
      assert AddPiece(f, piece).pieces == r;
      forall x
        ensures GetValue(AddPiece(f, piece), x) ==
                GetValue(f, x) + (if InHalfOpen(piece.lo, piece.hi, x) then piece.value else 0)
      {
        BumpEval(v2, piece.lo, piece.hi, piece.value, x);
      }
    }
  }

  /** Splitting a well-formed function at a and then at b leaves a tiling
      of (-inf, +inf) with the same values that straddles neither point. */
  lemma SplitTwice(f: Plf, a: Bound, b: Bound)
    requires WellFormed(f)
    ensures var v := SplitAt(SplitAt(f.pieces, a), b);
      && |v| > 0 && Chain(v) && v[0].lo == NegInf && Last(v).hi == PosInf
      && NoStraddle(v, a) && NoStraddle(v, b)
      && forall x :: Eval(v, x) == Eval(f.pieces, x)
  {
    var v1 := SplitAt(f.pieces, a);
    SplitAtChain(f.pieces, a, a);
    SplitAtChain(v1, b, a);
  }

  /** Bump keeps every bound, so it keeps a chain. */
  lemma BumpChain(ps: seq<Triplet>, a: Bound, b: Bound, d: int)
    requires Chain(ps) && |ps| > 0
    ensures Chain(Bump(ps, a, b, d))
    ensures Bump(ps, a, b, d)[0].lo == ps[0].lo && Last(Bump(ps, a, b, d)).hi == Last(ps).hi
  {
  }

  /** Add, as a fold of AddPiece over the pieces of the receiver. */
  function AddAll(ps: seq<Triplet>, g: Plf): Plf
  {
    if |ps| == 0 then g else AddAll(ps[1..], AddPiece(g, ps[0]))
  }

  /** f.Add(g) in the solver: g with every piece of f added to it. */
  function Add(f: Plf, g: Plf): Plf
  {
    AddAll(f.pieces, g)
  }

  /** What a list of pieces adds at x when each is added on its (lo, hi]. */
  function Contribution(ps: seq<Triplet>, x: int): int
  {
    if |ps| == 0 then 0
    else (if InHalfOpen(ps[0].lo, ps[0].hi, x) then ps[0].value else 0) + Contribution(ps[1..], x)
  }

  lemma {:induction false} AddAllEval(ps: seq<Triplet>, g: Plf, x: int)
    requires WellFormed(g)
    ensures WellFormed(AddAll(ps, g))
    ensures GetValue(AddAll(ps, g), x) == GetValue(g, x) + Contribution(ps, x)
  {
    if |ps| > 0 {
      AddPieceEval(g, ps[0]);
      AddAllEval(ps[1..], AddPiece(g, ps[0]), x);
    }
  }

  lemma {:induction false} ContributionBelow(ps: seq<Triplet>, x: int)
    requires Chain(ps) && |ps| > 0 && Le(Fin(x), ps[0].lo)
    ensures Contribution(ps, x) == 0
  {
    if |ps| > 1 {
      ChainTail(ps);
      ContributionBelow(ps[1..], x);
    }
  }

  /** On a chain every point in its range is in exactly one (lo, hi], so
      the contribution is the chain's own value. */
  lemma {:induction false} ContributionChain(ps: seq<Triplet>, x: int)
    requires Chain(ps) && |ps| > 0 && InHalfOpen(ps[0].lo, Last(ps).hi, x)
    ensures Contribution(ps, x) == Eval(ps, x)
  {
    ChainTail(ps);
    if Le(Fin(x), ps[0].hi) {
      if |ps| > 1 {
        ContributionBelow(ps[1..], x);
      }
    } else {
      ContributionChain(ps[1..], x);
    }
  }

  /** Add is the pointwise sum and keeps well-formedness. */
  lemma AddEval(f: Plf, g: Plf)
    requires WellFormed(f) && WellFormed(g)
    ensures WellFormed(Add(f, g))
    ensures forall x :: GetValue(Add(f, g), x) == GetValue(f, x) + GetValue(g, x)
  {
    forall x
      ensures WellFormed(Add(f, g)) && GetValue(Add(f, g), x) == GetValue(f, x) + GetValue(g, x)
    {
      AddAllEval(f.pieces, g, x);
      ContributionChain(f.pieces, x);
    }
    AddAllEval(f.pieces, g, 0);
  }

  /** Values strictly decrease from piece to piece. */
  predicate Descending(ps: seq<Triplet>)
  {
    forall i, j :: 0 <= i < j < |ps| ==> ps[i].value > ps[j].value
  }

  lemma DescendingCons(cur: Triplet, rest: seq<Triplet>)
    requires |rest| > 0 && rest[0].value < cur.value && Descending(rest)
    ensures Descending([cur] + rest)
  {
    var all := [cur] + rest;
    forall i, j | 0 <= i < j < |all|
      ensures all[i].value > all[j].value
    {
      assert all[j] == rest[j - 1];
      if i > 0 {
        assert all[i] == rest[i - 1];
      }
    }
  }

  /** The scan of Min after its first piece: cur is the last kept piece
      (its value is the running minimum). A piece strictly below the running
      minimum is kept; any other piece only extends cur to its upper
      bound. */
  function MinFrom(ps: seq<Triplet>, cur: Triplet): (r: seq<Triplet>)
    ensures 1 <= |r| <= |ps| + 1
    ensures r[0].lo == cur.lo && r[0].value == cur.value
    ensures Last(r).hi == if |ps| == 0 then cur.hi else Last(ps).hi
    ensures Descending(r)
    ensures Chain([cur] + ps) ==> Chain(r)
  {
    if |ps| == 0 then
      assert [cur] + ps == [cur];
      [cur]
    else if ps[0].value < cur.value then
      assert ([cur] + ps)[1..] == ps;
      var rest := MinFrom(ps[1..], ps[0]);
      DescendingCons(cur, rest);
      [cur] + rest
    else
      assert Chain([cur] + ps) ==> Chain([cur.(hi := ps[0].hi)] + ps[1..]) by {
        if Chain([cur] + ps) {
          ChainAbsorb(cur, ps);
        }
      }
      MinFrom(ps[1..], cur.(hi := ps[0].hi))
  }

  /** Extending cur over the next piece keeps a chain. */
  lemma ChainAbsorb(cur: Triplet, ps: seq<Triplet>)
    requires |ps| > 0 && Chain([cur] + ps)
    ensures Chain([cur.(hi := ps[0].hi)] + ps[1..])
  {
    var all := [cur] + ps;
    assert all[0] == cur && all[1] == ps[0];
    assert Lt(cur.lo, cur.hi) && ps[0].lo == cur.hi && Lt(ps[0].lo, ps[0].hi);
    var all' := [cur.(hi := ps[0].hi)] + ps[1..];
    forall i | 1 <= i < |all'|
      ensures all'[i] == all[i + 1]
    {
    }
  }

  /** Min: left-to-right envelope that keeps only pieces strictly below
      every piece before them. The solver's running minimum starts at
      int.MaxValue, so a first value at or above it makes the scan index an
      empty list; that case is excluded. */
  function Min(f: Plf): (r: Plf)
    requires |f.pieces| > 0 ==> f.pieces[0].value < IntMax
    ensures |r.pieces| <= |f.pieces|
    ensures |f.pieces| > 0 ==> |r.pieces| > 0 && r.pieces[0].lo == f.pieces[0].lo && Last(r.pieces).hi == Last(f.pieces).hi
    ensures Descending(r.pieces)
    ensures WellFormed(f) ==> WellFormed(r)
  {
    if |f.pieces| == 0 then f
    else
      assert [f.pieces[0]] + f.pieces[1..] == f.pieces;
      Plf(MinFrom(f.pieces[1..], f.pieces[0]))
  }

  /** Reference for Min: the least value of the pieces up to and including
      the one whose (lo, hi] holds x. */
  function PrefixMin(ps: seq<Triplet>, x: int): int
    requires |ps| > 0
  {
    if |ps| == 1 || Le(Fin(x), ps[0].hi) then ps[0].value
    else
      var m := PrefixMin(ps[1..], x);
      if ps[0].value <= m then ps[0].value else m
  }

  lemma {:induction false} MinFromEval(ps: seq<Triplet>, cur: Triplet, x: int)
    requires Chain([cur] + ps)
    requires InHalfOpen(cur.lo, Last([cur] + ps).hi, x)
    ensures Eval(MinFrom(ps, cur), x) == PrefixMin([cur] + ps, x)
  {
    var all := [cur] + ps;
    assert all[1..] == ps;
    if |ps| == 0 {
    } else if ps[0].value < cur.value {
      var rest := MinFrom(ps[1..], ps[0]);
      assert ([cur] + rest)[1..] == rest;
      if Le(Fin(x), cur.hi) {
      } else {
        ChainTail(all);
        assert [ps[0]] + ps[1..] == ps;
        assert all[1].lo == all[0].hi;
        assert Last(all) == Last(ps);
        MinFromEval(ps[1..], ps[0], x);
        PrefixMinAtMostFirst(ps, x);
      }
    } else {
      var cur' := cur.(hi := ps[0].hi);
      var all' := [cur'] + ps[1..];
      ChainAbsorb(cur, ps);
      assert Last(all').hi == Last(all).hi;
      MinFromEval(ps[1..], cur', x);
      assert all'[1..] == ps[1..];
      if |ps| > 1 && !Le(Fin(x), ps[0].hi) {
        assert PrefixMin(ps, x) == (if ps[0].value <= PrefixMin(ps[1..], x) then ps[0].value else PrefixMin(ps[1..], x));
      }
    }
  }

  lemma PrefixMinAtMostFirst(ps: seq<Triplet>, x: int)
    requires |ps| > 0
    ensures PrefixMin(ps, x) <= ps[0].value
  {
  }

  /** On a well-formed function, Min at x is the prefix minimum at x. */
  lemma MinEval(f: Plf, x: int)
    requires WellFormed(f) && f.pieces[0].value < IntMax
    ensures GetValue(Min(f), x) == PrefixMin(f.pieces, x)
  {
    assert [f.pieces[0]] + f.pieces[1..] == f.pieces;
    MinFromEval(f.pieces[1..], f.pieces[0], x);
  }

  /** The prefix minimum at x is no larger than any value left of x. */
  lemma {:induction false} PrefixMinBelow(ps: seq<Triplet>, x: int, y: int)
    requires Chain(ps) && |ps| > 0
    requires Lt(ps[0].lo, Fin(y)) && y <= x && Le(Fin(x), Last(ps).hi)
    ensures PrefixMin(ps, x) <= Eval(ps, y)
  {
    if Le(Fin(y), ps[0].hi) {
      EvalHalfOpen(ps, y, 0);
    } else {
      ChainTail(ps);
      PrefixMinBelow(ps[1..], x, y);
    }
  }

  /** ... and it is attained at some point y <= x. */
  lemma {:induction false} PrefixMinAttained(ps: seq<Triplet>, x: int) returns (y: int)
    requires Chain(ps) && |ps| > 0
    requires InHalfOpen(ps[0].lo, Last(ps).hi, x)
    ensures Lt(ps[0].lo, Fin(y)) && y <= x
    ensures Eval(ps, y) == PrefixMin(ps, x)
  {
    if |ps| == 1 || Le(Fin(x), ps[0].hi) {
      y := x;
      EvalHalfOpen(ps, y, 0);
    } else {
      ChainTail(ps);
      var m := PrefixMin(ps[1..], x);
      if ps[0].value <= m {
        assert ps[0].hi == ps[1].lo;
        y := ps[0].hi.n;
        EvalHalfOpen(ps, y, 0);
      } else {
        y := PrefixMinAttained(ps[1..], x);
        ChainOrdered(ps, 0, 1);
        assert !Covers(ps[0], y);
      }
    }
  }

  /** Min is the prefix minimum: at every x it is at most the input at any
      y <= x, and equal to the input at some y <= x. */
  lemma MinIsPrefixMinimum(f: Plf, x: int) returns (y: int)
    requires WellFormed(f) && f.pieces[0].value < IntMax
    ensures WellFormed(Min(f))
    ensures forall z :: z <= x ==> GetValue(Min(f), x) <= GetValue(f, z)
    ensures y <= x && GetValue(f, y) == GetValue(Min(f), x)
  {
    MinEval(f, x);
    forall z | z <= x
      ensures GetValue(Min(f), x) <= GetValue(f, z)
    {
      PrefixMinBelow(f.pieces, x, z);
    }
    y := PrefixMinAttained(f.pieces, x);
  }

  /** Hence the result of Min never increases. */
  lemma MinNonIncreasing(f: Plf, x: int, x': int)
    requires WellFormed(f) && f.pieces[0].value < IntMax
    requires x <= x'
    ensures GetValue(Min(f), x') <= GetValue(Min(f), x)
  {
    var y := MinIsPrefixMinimum(f, x);
    var _ := MinIsPrefixMinimum(f, x');
  }

  /** The value of the first piece of a well-formed function is attained. */
  lemma FirstValueAttained(f: Plf) returns (x: int)
    requires WellFormed(f)
    ensures GetValue(f, x) == f.pieces[0].value
  {
    var p := f.pieces[0];
    x := if p.hi.Fin? then p.hi.n else 0;
    EvalHalfOpen(f.pieces, x, 0);
  }
}
