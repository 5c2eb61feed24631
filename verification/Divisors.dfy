/** Greatest common divisors of lists of positive numbers, apart from any way to search for them. */
module Divisors {

  ghost predicate Divides(d: int, n: int) {
    exists q: int {:trigger d * q} :: n == d * q
  }

  lemma DividesIffNoRemainder(d: int, n: int)
    requires d != 0
    ensures Divides(d, n) <==> n % d == 0
  {
    if q :| n == d * q {
      MultipleHasNoRemainder(d, q);
    }
    if n % d == 0 {
      assert n == d * (n / d);
    }
  }

  lemma MultipleHasNoRemainder(d: int, q: int)
    requires d != 0
    ensures (d * q) % d == 0
  {
    var r := (d * q) % d;
    var k := q - (d * q) / d;
    assert r == d * k;
    assert k >= 1 && d > 0 ==> d * k >= d;
    assert k >= 1 && d < 0 ==> d * k <= d;
    assert k <= -1 && d > 0 ==> d * k <= -d;
    assert k <= -1 && d < 0 ==> d * k >= -d;
  }

  lemma DividesCombination(d: int, a: int, b: int)
    requires Divides(d, a) && Divides(d, b)
    ensures Divides(d, a + b) && Divides(d, a - b)
  {
    var p :| a == d * p;
    var q :| b == d * q;
    assert a + b == d * (p + q) && a - b == d * (p - q);
  }

  lemma DividesAtMost(d: int, n: int)
    requires Divides(d, n) && n > 0
    ensures d <= n
  {
    var q :| n == d * q;
    assert d > 0 && q >= 1 ==> d * q >= d;
    assert d > 0 && q <= 0 ==> d * q <= 0;
  }

  function GcdTwo(a: int, b: int): (g: int)
    requires a > 0 && b > 0
    ensures g > 0
    decreases a + b
  {
    if a == b then a else if a < b then GcdTwo(a, b - a) else GcdTwo(a - b, b)
  }

  /** The common divisors of two numbers are the divisors of their greatest common divisor. */
  lemma {:induction false} GcdTwoIs(a: int, b: int, d: int)
    requires a > 0 && b > 0
    ensures Divides(d, a) && Divides(d, b) <==> Divides(d, GcdTwo(a, b))
    decreases a + b
  {
    if a < b {
      GcdTwoIs(a, b - a, d);
    } else if a > b {
      GcdTwoIs(a - b, b, d);
    }
    if Divides(d, a) && Divides(d, b) {
      DividesCombination(d, a, b);
      DividesCombination(d, b, a);
    } else if Divides(d, GcdTwo(a, b)) && a != b {
      if a < b {
        DividesCombination(d, b - a, a);
      } else {
        DividesCombination(d, a - b, b);
      }
    }
  }

  ghost predicate AllPositive(s: seq<int>) {
    forall i :: 0 <= i < |s| ==> s[i] > 0
  }

  function GcdOf(s: seq<int>): (g: int)
    requires s != [] && AllPositive(s)
    ensures g > 0
  {
    if |s| == 1 then s[0] else GcdTwo(s[0], GcdOf(s[1..]))
  }

  ghost predicate Common(d: int, s: seq<int>) {
    forall i :: 0 <= i < |s| ==> Divides(d, s[i])
  }

  /** GcdOf divides every number of the list, and every common divisor divides it. */
  lemma {:induction false} GcdOfIs(s: seq<int>, d: int)
    requires s != [] && AllPositive(s)
    ensures Common(d, s) <==> Divides(d, GcdOf(s))
  {
    if |s| > 1 {
      GcdOfIs(s[1..], d);
      GcdTwoIs(s[0], GcdOf(s[1..]), d);
      assert Common(d, s) <==> Divides(d, s[0]) && Common(d, s[1..]) by {
        assert forall i :: 1 <= i < |s| ==> s[i] == s[1..][i - 1];
      }
    }
  }

  lemma GcdDividesAll(s: seq<int>)
    requires s != [] && AllPositive(s)
    ensures Common(GcdOf(s), s)
  {
    assert GcdOf(s) == GcdOf(s) * 1;
    GcdOfIs(s, GcdOf(s));
  }

  /** The greatest common divisor is the only common divisor with no greater one. */
  lemma GreatestIsGcd(s: seq<int>, g: int)
    requires s != [] && AllPositive(s) && g > 0 && Common(g, s)
    requires exists bound :: bound in s && forall d :: g < d <= bound ==> !Common(d, s)
    ensures g == GcdOf(s)
  {
    GcdOfIs(s, g);
    DividesAtMost(g, GcdOf(s));
    GcdDividesAll(s);
    var bound :| bound in s && forall d :: g < d <= bound ==> !Common(d, s);
    DividesAtMost(GcdOf(s), bound);
  }
}
