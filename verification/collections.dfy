/** Small shared vocabulary: an optional value, integer intervals and the
    concatenated output of a counted loop. */
module Collections {

  /** A value or nothing; stands for a result the solver reports as null. */
  datatype Option<T> = None | Some(value: T)

  /** The integers a, a+1, ..., b-1 in increasing order. */
  function Interval(a: int, b: int): seq<int>
  {
    if a >= b then [] else seq(b - a, i => a + i)
  }

  /** Length and elements of an interval. */
  lemma IntervalIndex(a: int, b: int)
    ensures |Interval(a, b)| == if a <= b then b - a else 0
    ensures forall i :: 0 <= i < |Interval(a, b)| ==> Interval(a, b)[i] == a + i
  {
  }

  lemma {:induction false} IntervalSplit(a: int, m: int, b: int)
    requires a <= m <= b
    ensures Interval(a, m) + Interval(m, b) == Interval(a, b)
  {
    assert |Interval(a, m) + Interval(m, b)| == |Interval(a, b)|;
  }

  lemma IntervalMember(a: int, b: int, x: int)
    ensures x in Interval(a, b) <==> a <= x < b
  {
    if a <= x < b {
      assert Interval(a, b)[x - a] == x;
    }
  }

  /** No integer occurs twice in an interval. */
  lemma {:induction false} IntervalCount(a: int, b: int, x: int)
    ensures multiset(Interval(a, b))[x] <= 1
    decreases b - a
  {
    if a < b {
      IntervalIndex(a, b);
      IntervalIndex(a + 1, b);
      assert Interval(a, b) == [a] + Interval(a + 1, b);
      IntervalCount(a + 1, b, x);
      IntervalMember(a + 1, b, a);
    }
  }

  /** f(lo) + f(lo + 1) + ... + f(hi - 1): what a counted loop that appends
      f(i) on iteration i collects, in loop order. */
  function Range<T>(lo: int, hi: int, f: int -> seq<T>): seq<T>
    decreases hi - lo
  {
    if lo >= hi then [] else f(lo) + Range(lo + 1, hi, f)
  }

  lemma {:induction false} RangeMember<T>(lo: int, hi: int, f: int -> seq<T>, x: T)
    ensures x in Range(lo, hi, f) <==> exists i :: lo <= i < hi && x in f(i)
    decreases hi - lo
  {
    if lo < hi {
      RangeMember(lo + 1, hi, f, x);
      assert Range(lo, hi, f) == f(lo) + Range(lo + 1, hi, f);
      if exists i :: lo <= i < hi && x in f(i) {
        var i :| lo <= i < hi && x in f(i);
        if i > lo {
          assert x in Range(lo + 1, hi, f);
        }
      }
    }
  }

  /** f(xs[0]) + f(xs[1]) + ...: what a foreach loop over xs collects. */
  function Each<S, T>(xs: seq<S>, f: S -> seq<T>): seq<T>
  {
    if |xs| == 0 then [] else f(xs[0]) + Each(xs[1..], f)
  }

  lemma {:induction false} EachMember<S, T>(xs: seq<S>, f: S -> seq<T>, x: T)
    ensures x in Each(xs, f) <==> exists k :: 0 <= k < |xs| && x in f(xs[k])
  {
    if |xs| > 0 {
      EachMember(xs[1..], f, x);
      if x in Each(xs[1..], f) {
        var k :| 0 <= k < |xs| - 1 && x in f(xs[1..][k]);
        assert xs[1..][k] == xs[k + 1];
      }
      if exists k :: 0 <= k < |xs| && x in f(xs[k]) {
        var k :| 0 <= k < |xs| && x in f(xs[k]);
        if k > 0 {
          assert xs[k] == xs[1..][k - 1];
        }
      }
    }
  }
}
