/** The text form of a solution (Solution.ToString): the number of routes
    on the first line, then one line per route holding the vehicle id
    followed by " 0", " c" for each customer c, and " 0". Every line ends
    with a newline, so the text ends with an empty last field.

    The partner of the serialiser is a decoder: decoding the text of any
    solution gives the solution back, so no two solutions share a text. */
module SolutionText {
  import opened Collections
  import opened Routes

  // ---------------------------------------------------------------------
  // Integers in decimal (int.ToString with an ASCII minus sign).

  predicate IsDigit(c: char) {
    '0' <= c <= '9'
  }

  function DigitChar(d: int): (c: char)
    requires 0 <= d < 10
    ensures IsDigit(c)
  {
    (48 + d) as char
  }

  function DigitValue(c: char): int
    requires IsDigit(c)
  {
    c as int - 48
  }

  /** Decimal digits of n, most significant first, without leading zeros. */
  function NatText(n: nat): (s: string)
    ensures |s| > 0
    ensures forall k :: 0 <= k < |s| ==> IsDigit(s[k])
    decreases n
  {
    if n < 10 then [DigitChar(n)] else NatText(n / 10) + [DigitChar(n % 10)]
  }

  /** i.ToString(): a '-' before the digits of a negative number. */
  function IntText(i: int): (s: string)
    ensures |s| > 0
    ensures forall k :: 0 <= k < |s| ==> IsDigit(s[k]) || s[k] == '-'
  {
    if i < 0 then "-" + NatText(-i) else NatText(i)
  }

  /** Value of a string of digits, read left to right. */
  function DigitsValue(s: string): nat
    requires forall k :: 0 <= k < |s| ==> IsDigit(s[k])
  {
    if |s| == 0 then 0 else 10 * DigitsValue(s[..|s| - 1]) + DigitValue(s[|s| - 1])
  }

  /** A non-empty run of digits, as a natural number. */
  function ParseNat(s: string): (r: Option<nat>)
    ensures r.Some? <==> |s| > 0 && forall k :: 0 <= k < |s| ==> IsDigit(s[k])
  {
    if |s| > 0 && forall k :: 0 <= k < |s| ==> IsDigit(s[k]) then Some(DigitsValue(s)) else None
  }

  /** An optional '-' and a non-empty run of digits. */
  function ParseInt(s: string): Option<int>
  {
    if |s| > 0 && s[0] == '-' then
      match ParseNat(s[1..])
      case None => None
      case Some(n) => Some(0 - n)
    else
      match ParseNat(s)
      case None => None
      case Some(n) => Some(n)
  }

  lemma {:induction false} NatTextValue(n: nat)
    ensures DigitsValue(NatText(n)) == n
    decreases n
  {
    var s := NatText(n);
    if n >= 10 {
      assert s[..|s| - 1] == NatText(n / 10);
      NatTextValue(n / 10);
    }
  }

  /** Reading back the text of an integer gives the integer. */
  lemma IntTextRoundTrip(i: int)
    ensures ParseInt(IntText(i)) == Some(i)
  {
    if i < 0 {
      assert IntText(i)[1..] == NatText(-i);
      NatTextValue(-i);
    } else {
      NatTextValue(i);
      assert IntText(i)[0] != '-';
    }
  }

  // ---------------------------------------------------------------------
  // Splitting a string at every occurrence of a separator.

  /** The fields of s between separators; always at least one field. */
  function Split(s: string, sep: char): (r: seq<string>)
    ensures |r| > 0
  {
    if |s| == 0 then [""]
    else if s[0] == sep then [""] + Split(s[1..], sep)
    else
      var rest := Split(s[1..], sep);
      [[s[0]] + rest[0]] + rest[1..]
  }

  /** A string free of the separator is a single field. */
  lemma {:induction false} SplitNone(a: string, sep: char)
    requires forall k :: 0 <= k < |a| ==> a[k] != sep
    ensures Split(a, sep) == [a]
  {
    if |a| > 0 {
      SplitNone(a[1..], sep);
      assert [a[0]] + a[1..] == a;
    }
  }

  /** A separator-free prefix ending in a separator is the first field. */
  lemma {:induction false} SplitCons(a: string, sep: char, b: string)
    requires forall k :: 0 <= k < |a| ==> a[k] != sep
    ensures Split(a + [sep] + b, sep) == [a] + Split(b, sep)
  {
    if |a| == 0 {
      assert a + [sep] + b == [sep] + b;
      assert ([sep] + b)[1..] == b;
    } else {
      var s := a + [sep] + b;
      assert s[0] == a[0];
      assert s[1..] == a[1..] + [sep] + b;
      SplitCons(a[1..], sep, b);
      assert [a[0]] + a[1..] == a;
    }
  }

  // ---------------------------------------------------------------------
  // The serialiser.

  /** The fields " x" appended after the vehicle id, one per stop. */
  function Tokens(xs: seq<int>): string
  {
    if |xs| == 0 then "" else " " + IntText(xs[0]) + Tokens(xs[1..])
  }

  /** The texts of the stops, one field each. */
  function Texts(xs: seq<int>): (r: seq<string>)
    ensures |r| == |xs|
    ensures forall k :: 0 <= k < |xs| ==> r[k] == IntText(xs[k])
  {
    if |xs| == 0 then [] else [IntText(xs[0])] + Texts(xs[1..])
  }

  /** One route's line, without its newline. */
  function RouteLine(r: Route): string
  {
    IntText(r.vehicle) + Tokens(ExtendWithDepots(r))
  }

  /** The route lines, each followed by a newline. */
  function Body(rs: seq<Route>): string
  {
    if |rs| == 0 then "" else RouteLine(rs[0]) + "\n" + Body(rs[1..])
  }

  /** Solution.ToString. */
  function ToText(s: Solution): string
  {
    IntText(|s.routes|) + "\n" + Body(s.routes)
  }

  /** The lines of the routes, one field each. */
  function Lines(rs: seq<Route>): (r: seq<string>)
    ensures |r| == |rs|
    ensures forall k :: 0 <= k < |rs| ==> r[k] == RouteLine(rs[k])
  {
    if |rs| == 0 then [] else [RouteLine(rs[0])] + Lines(rs[1..])
  }

  lemma {:induction false} TokensChars(xs: seq<int>)
    ensures forall k :: 0 <= k < |Tokens(xs)| ==> Tokens(xs)[k] != '\n'
  {
    if |xs| > 0 {
      TokensChars(xs[1..]);
      var t := Tokens(xs);
      var head := " " + IntText(xs[0]);
      assert t == head + Tokens(xs[1..]);
      forall k | 0 <= k < |t|
        ensures t[k] != '\n'
      {
        if k < |head| {
          assert k == 0 || t[k] == IntText(xs[0])[k - 1];
        } else {
          assert t[k] == Tokens(xs[1..])[k - |head|];
        }
      }
    }
  }

  /** A route line never holds a newline. */
  lemma RouteLineChars(r: Route)
    ensures forall k :: 0 <= k < |RouteLine(r)| ==> RouteLine(r)[k] != '\n'
  {
    var v := IntText(r.vehicle);
    var t := Tokens(ExtendWithDepots(r));
    TokensChars(ExtendWithDepots(r));
    forall k | 0 <= k < |RouteLine(r)|
      ensures RouteLine(r)[k] != '\n'
    {
      if k < |v| {
        assert RouteLine(r)[k] == v[k];
      } else {
        assert RouteLine(r)[k] == t[k - |v|];
      }
    }
  }

  /** Splitting a field followed by the tokens at blanks gives the field
      and then the text of every stop. */
  lemma {:induction false} SplitTokens(head: string, xs: seq<int>)
    requires forall k :: 0 <= k < |head| ==> head[k] != ' '
    ensures Split(head + Tokens(xs), ' ') == [head] + Texts(xs)
    decreases |xs|
  {
    if |xs| == 0 {
      assert head + Tokens(xs) == head;
      SplitNone(head, ' ');
    } else {
      var x := IntText(xs[0]);
      var rest := Tokens(xs[1..]);
      assert head + Tokens(xs) == head + [' '] + (x + rest);
      assert Split(head + [' '] + (x + rest), ' ') == [head] + Split(x + rest, ' ') by {
        SplitCons(head, ' ', x + rest);
      }
      assert Split(x + rest, ' ') == [x] + Texts(xs[1..]) by {
        SplitTokens(x, xs[1..]);
      }
      assert Texts(xs) == [x] + Texts(xs[1..]);
    }
  }

  /** Splitting a field followed by the body at newlines gives the field,
      every route line, and the empty field after the final newline. */
  lemma {:induction false} SplitBody(head: string, rs: seq<Route>)
    requires forall k :: 0 <= k < |head| ==> head[k] != '\n'
    ensures Split(head + "\n" + Body(rs), '\n') == [head] + Lines(rs) + [""]
    decreases |rs|
  {
    if |rs| == 0 {
      assert head + "\n" + Body(rs) == head + ['\n'] + "";
      SplitCons(head, '\n', "");
    } else {
      var line := RouteLine(rs[0]);
      RouteLineChars(rs[0]);
      assert head + "\n" + Body(rs) == head + ['\n'] + (line + "\n" + Body(rs[1..]));
      SplitCons(head, '\n', line + "\n" + Body(rs[1..]));
      SplitBody(line, rs[1..]);
    }
  }

  /** The first line is the route count and then there is exactly one line
      per route, in order. */
  lemma TextLines(s: Solution)
    ensures Split(ToText(s), '\n') == [IntText(|s.routes|)] + Lines(s.routes) + [""]
  {
    var head := IntText(|s.routes|);
    assert forall k :: 0 <= k < |head| ==> head[k] != '\n';
    SplitBody(head, s.routes);
  }

  /** A route line is the vehicle id, then the depot 0, each customer and
      the depot 0 again, separated by blanks. */
  lemma LineFields(r: Route)
    ensures Split(RouteLine(r), ' ') == [IntText(r.vehicle)] + Texts([0] + r.customers + [0])
  {
    var head := IntText(r.vehicle);
    assert forall k :: 0 <= k < |head| ==> head[k] != ' ';
    SplitTokens(head, ExtendWithDepots(r));
  }

  // ---------------------------------------------------------------------
  // The decoder.

  function ParseInts(ts: seq<string>): Option<seq<int>>
  {
    if |ts| == 0 then Some([])
    else
      match ParseInt(ts[0])
      case None => None
      case Some(x) =>
        match ParseInts(ts[1..])
        case None => None
        case Some(xs) => Some([x] + xs)
  }

  /** A route line: vehicle, 0, customers..., 0. */
  function DecodeRoute(line: string): Option<Route>
  {
    var fields := Split(line, ' ');
    match ParseInts(fields)
    case None => None
    case Some(xs) =>
      if |xs| >= 3 && xs[1] == 0 && xs[|xs| - 1] == 0 then Some(Route(xs[0], xs[2..|xs| - 1])) else None
  }

  function DecodeRoutes(lines: seq<string>): Option<seq<Route>>
  {
    if |lines| == 0 then Some([])
    else
      match DecodeRoute(lines[0])
      case None => None
      case Some(r) =>
        match DecodeRoutes(lines[1..])
        case None => None
        case Some(rs) => Some([r] + rs)
  }

  /** The text of a solution: a count line, that many route lines, and
      nothing after the last newline. */
  function Decode(text: string): Option<Solution>
  {
    var lines := Split(text, '\n');
    if |lines| < 2 || lines[|lines| - 1] != "" then None
    else
      match ParseInt(lines[0])
      case None => None
      case Some(k) =>
        if k != |lines| - 2 then None
        else
          match DecodeRoutes(lines[1..|lines| - 1])
          case None => None
          case Some(rs) => Some(Solution(rs))
  }

  lemma {:induction false} ParseIntsTexts(xs: seq<int>)
    ensures ParseInts(Texts(xs)) == Some(xs)
  {
    if |xs| > 0 {
      IntTextRoundTrip(xs[0]);
      assert Texts(xs)[1..] == Texts(xs[1..]);
      ParseIntsTexts(xs[1..]);
      assert [xs[0]] + xs[1..] == xs;
    }
  }

  /** Every route line decodes to its route. */
  lemma RouteLineRoundTrip(r: Route)
    ensures DecodeRoute(RouteLine(r)) == Some(r)
  {
    var xs := [r.vehicle] + ([0] + r.customers + [0]);
    LineFields(r);
    assert [IntText(r.vehicle)] + Texts([0] + r.customers + [0]) == Texts(xs);
    ParseIntsTexts(xs);
    assert xs[2..|xs| - 1] == r.customers;
  }

  lemma {:induction false} LinesRoundTrip(rs: seq<Route>)
    ensures DecodeRoutes(Lines(rs)) == Some(rs)
  {
    if |rs| > 0 {
      RouteLineRoundTrip(rs[0]);
      assert Lines(rs)[1..] == Lines(rs[1..]);
      LinesRoundTrip(rs[1..]);
      assert [rs[0]] + rs[1..] == rs;
    }
  }

  /** Decoding the text of a solution gives the solution back. */
  lemma TextRoundTrip(s: Solution)
    ensures Decode(ToText(s)) == Some(s)
  {
    TextLines(s);
    var lines := Split(ToText(s), '\n');
    IntTextRoundTrip(|s.routes|);
    assert lines[1..|lines| - 1] == Lines(s.routes);
    LinesRoundTrip(s.routes);
  }

  /** Hence different solutions always print differently. */
  lemma TextInjective(s: Solution, s': Solution)
    ensures ToText(s) == ToText(s') <==> s == s'
  {
    if ToText(s) == ToText(s') {
      TextRoundTrip(s);
      TextRoundTrip(s');
    }
  }
}
