/** Weighted round robin over the slaves of a database node. */
module Balancer {
  import opened Divisors

  // A Go call that returns or panics.
  datatype Outcome<+T> = Done(value: T) | Panicked

  // The slave chosen, ErrNoDatabase, or an index out of range.
  datatype Pick = Chosen(index: nat, db: string) | NoDatabase | OutOfRange

  // Go's integer division and remainder truncate toward zero.
  function GoDiv(a: int, b: int): int
    requires b != 0
  {
    if a >= 0 then a / b else -(-a / b)
  }

  function GoRem(a: int, b: int): int
    requires b != 0
  {
    if a >= 0 then a % b else -(-a % b)
  }

  lemma GoRemIsZero(a: int, b: int)
    requires b != 0
    ensures GoRem(a, b) == 0 <==> Divides(b, a)
  {
    DividesIffNoRemainder(b, a);
    DividesIffNoRemainder(b, -a);
    assert b == b * 1 && 0 == b * 0;
    if Divides(b, a) {
      DividesCombination(b, 0, a);
    }
    if Divides(b, -a) {
      DividesCombination(b, 0, -a);
    }
  }

  /** They do: the remainder has the sign of the dividend and is smaller than the divisor. */
  lemma GoDivTruncates(a: int, b: int)
    requires b != 0
    ensures a == b * GoDiv(a, b) + GoRem(a, b)
    ensures -(if b > 0 then b else -b) < GoRem(a, b) < if b > 0 then b else -b
    ensures if a >= 0 then GoRem(a, b) >= 0 else GoRem(a, b) <= 0
  {
    var n := if a >= 0 then a else -a;
    assert n == b * (n / b) + n % b;
    assert -(b * (n / b)) == b * -(n / b);
  }

  function Least(s: seq<int>): (m: int)
    requires s != []
    ensures m in s && forall i :: 0 <= i < |s| ==> m <= s[i]
  {
    if |s| == 1 then s[0]
    else
      var m := Least(s[1..]);
      if s[0] < m then s[0] else m
  }

  // What Gcd returns.
  ghost function Unit(s: seq<int>): (g: int)
    requires s != [] && Least(s) != 0
    ensures g != 0
  {
    var least := Least(s);
    if least > 0 then GcdOf(s) else if Common(least, s) then least else least - 1
  }

  // The first loop of Gcd.
  method Minimum(ary: seq<int>) returns (min: int)
    requires ary != []
    ensures min == Least(ary)
  {
    min := ary[0];
    for i := 0 to |ary|
      invariant min in ary && min <= ary[0]
      invariant forall k :: 0 <= k < i ==> min <= ary[k]
    {
      if ary[i] < min {
        min := ary[i];
      }
    }
  }

  // The inner loop of Gcd.
  method IsCommon(ary: seq<int>, min: int) returns (isCommon: bool)
    requires min != 0
    ensures isCommon <==> Common(min, ary)
  {
    isCommon := true;
    for i := 0 to |ary|
      invariant isCommon && forall k :: 0 <= k < i ==> Divides(min, ary[k])
    {
      GoRemIsZero(ary[i], min);
      if GoRem(ary[i], min) != 0 {
        isCommon := false;
        break;
      }
    }
  }

  /** Gcd: of positive numbers the greatest common divisor.  It panics when there is no number or the
      least is zero, and stops at once when the least is negative. */
  method Gcd(ary: seq<int>) returns (r: Outcome<int>)
    ensures r.Panicked? <==> ary == [] || Least(ary) == 0
    ensures r.Done? ==> r.value == Unit(ary)
    ensures r.Done? && Least(ary) < 0 ==>
      r.value == if Common(Least(ary), ary) then Least(ary) else Least(ary) - 1
    ensures r.Done? && AllPositive(ary) ==> r.value == GcdOf(ary)
  {
    if |ary| == 0 {
      return Panicked;
    }
    var min := Minimum(ary);
    if min == 0 {
      return Panicked;
    }
    hide Common, Divides, GcdOf;
    ghost var least := min;
    OneDivides(ary);
    while true
      invariant min == least != 0 || 0 < min < least
      invariant min > 0 ==> forall d :: min < d <= least ==> !Common(d, ary)
      decreases min
    {
      var isCommon := IsCommon(ary, min);
      if isCommon {
        break;
      }
      min := min - 1;
      if min < 1 {
        break;
      }
    }
    if least > 0 {
      GreatestIsGcd(ary, min);
    }
    return Done(min);
  }

  lemma OneDivides(s: seq<int>)
    ensures Common(1, s)
  {
    assert forall i :: 0 <= i < |s| ==> s[i] == 1 * s[i];
  }

  // -------------------------------------------------------------------------------- The queue

  function Share(weight: int, g: int): nat
    requires g != 0
  {
    if GoDiv(weight, g) > 0 then GoDiv(weight, g) else 0
  }

  lemma ShareIs(weight: int, g: int)
    requires g != 0
    ensures GoDiv(weight, g) > 0 ==> Share(weight, g) == GoDiv(weight, g)
    ensures GoDiv(weight, g) <= 0 ==> Share(weight, g) == 0
  {
  }

  // The queue before the shuffle: each slave as often as its weight asks for.
  function Expanded(weights: seq<int>, g: int): seq<nat>
    requires g != 0
  {
    if weights == [] then []
    else
      var last := |weights| - 1;
      Expanded(weights[..last], g) + seq(Share(weights[last], g), _ => last)
  }

  // What make([]int, 0, sum) is asked for.
  function Sum(weights: seq<int>, g: int): int
    requires g != 0
  {
    if weights == [] then 0 else Sum(weights[..|weights| - 1], g) + GoDiv(weights[|weights| - 1], g)
  }

  /** The sum is that of all quotients. */
  lemma SumIs(weights: seq<int>, weight: int, g: int)
    requires g != 0
    ensures Sum([], g) == 0 && Sum(weights + [weight], g) == Sum(weights, g) + GoDiv(weight, g)
  {
    assert (weights + [weight])[..|weights|] == weights;
  }

  lemma {:induction false} ExpandedCounts(weights: seq<int>, g: int, i: nat)
    requires g != 0
    ensures multiset(Expanded(weights, g))[i] == if i < |weights| then Share(weights[i], g) else 0
    ensures |Expanded(weights, g)| >= Sum(weights, g)
  {
    if weights != [] {
      var last := |weights| - 1;
      ExpandedCounts(weights[..last], g, i);
      RepeatedCounts(last, Share(weights[last], g), i);
    }
  }

  lemma {:induction false} RepeatedCounts(value: nat, count: nat, i: nat)
    ensures multiset(seq<nat>(count, _ => value))[i] == if i == value then count else 0
  {
    if count > 0 {
      RepeatedCounts(value, count - 1, i);
      assert seq<nat>(count, _ => value) == seq<nat>(count - 1, _ => value) + [value];
    }
  }

  /** The queue holds every slave exactly weight/gcd times. */
  ghost predicate Balanced(queue: seq<nat>, weights: seq<int>)
    requires weights != [] && AllPositive(weights)
  {
    && (forall i :: 0 <= i < |weights| ==> multiset(queue)[i as nat] * GcdOf(weights) == weights[i])
    && (forall i :: i in queue ==> i < |weights|)
  }

  lemma ShareTimesGcd(weights: seq<int>, i: nat)
    requires i < |weights| && AllPositive(weights)
    ensures Share(weights[i], GcdOf(weights)) * GcdOf(weights) == weights[i] && Share(weights[i], GcdOf(weights)) > 0
  {
    GcdDividesAll(weights);
    ShareIsExact(weights[i], GcdOf(weights));
  }

  lemma ShareIsExact(weight: int, g: int)
    requires weight > 0 && g > 0 && Divides(g, weight)
    ensures Share(weight, g) * g == weight && Share(weight, g) > 0
  {
    DividesIffNoRemainder(g, weight);
    var q := weight / g;
    assert weight == g * q;
    assert q <= 0 ==> g * q <= 0;
  }

  lemma {:induction false} ExpandedIsBalanced(weights: seq<int>)
    requires weights != [] && AllPositive(weights)
    ensures Balanced(Expanded(weights, GcdOf(weights)), weights)
  {
    var g := GcdOf(weights);
    var queue := Expanded(weights, g);
    forall i: nat | i < |weights| ensures multiset(queue)[i] * g == weights[i] {
      ExpandedCounts(weights, g, i);
      ShareTimesGcd(weights, i);
    }
    forall i | i in queue ensures i < |weights| {
      ExpandedCounts(weights, g, i);
      assert multiset(queue)[i] > 0;
    }
  }

  lemma BalancedIsAboutCounts(a: seq<nat>, b: seq<nat>, weights: seq<int>)
    requires weights != [] && AllPositive(weights) && Balanced(a, weights) && multiset(a) == multiset(b)
    ensures Balanced(b, weights)
  {
    forall i | i in b ensures i < |weights| {
      assert i in multiset(b);
      assert i in a;
    }
  }

  lemma {:induction false} SumIsPositive(weights: seq<int>, g: int)
    requires g > 0 && AllPositive(weights)
    ensures Sum(weights, g) >= 0
  {
    if weights != [] {
      var last := |weights| - 1;
      SumIsPositive(weights[..last], g);
      var weight := weights[last];
      var q := weight / g;
      assert weight == g * q + weight % g;
      assert q <= -1 ==> g * q <= -g;
    }
  }

  // -------------------------------------------------------------------------------- The shortest queue

  function Total(counts: seq<int>): int {
    if counts == [] then 0 else counts[0] + Total(counts[1..])
  }

  function Scaled(c: int, s: seq<int>): (r: seq<int>)
    ensures |r| == |s| && forall i :: 0 <= i < |s| ==> r[i] == c * s[i]
  {
    seq(|s|, i requires 0 <= i < |s| => c * s[i])
  }

  lemma {:induction false} GcdTwoScaled(c: int, a: int, b: int)
    requires c > 0 && a > 0 && b > 0
    ensures c * a > 0 && c * b > 0 && GcdTwo(c * a, c * b) == c * GcdTwo(a, b)
    decreases a + b
  {
    assert c * a > 0 && c * b > 0;
    if a < b {
      assert c * (b - a) == c * b - c * a && c * (b - a) > 0;
      GcdTwoScaled(c, a, b - a);
    } else if b < a {
      assert c * (a - b) == c * a - c * b && c * (a - b) > 0;
      GcdTwoScaled(c, a - b, b);
    }
  }

  lemma {:induction false} GcdOfScaled(c: int, s: seq<int>)
    requires c > 0 && s != [] && AllPositive(s)
    ensures AllPositive(Scaled(c, s)) && GcdOf(Scaled(c, s)) == c * GcdOf(s)
  {
    var r := Scaled(c, s);
    forall i | 0 <= i < |s| ensures r[i] > 0 {
      assert c * s[i] > 0;
    }
    if |s| > 1 {
      assert r[1..] == Scaled(c, s[1..]);
      GcdOfScaled(c, s[1..]);
      GcdTwoScaled(c, s[0], GcdOf(s[1..]));
    }
  }

  ghost predicate SameRatios(counts: seq<int>, weights: seq<int>) {
    |counts| == |weights| && forall i, j :: 0 <= i < |weights| && 0 <= j < |weights| ==>
      counts[i] * weights[j] == counts[j] * weights[i]
  }

  /** Positive counts in the ratios of the weights give every slave at least weight/gcd turns. */
  lemma {:induction false} CountIsAtLeastShare(counts: seq<int>, weights: seq<int>, i: nat)
    requires SameRatios(counts, weights) && AllPositive(counts) && AllPositive(weights) && i < |weights|
    ensures counts[i] >= Share(weights[i], GcdOf(weights))
  {
    var g := GcdOf(weights);
    var c := counts[i];
    GcdOfScaled(c, weights);
    var scaled := Scaled(c, weights);
    forall j | 0 <= j < |weights| ensures Divides(weights[i], scaled[j]) {
      assert scaled[j] == weights[i] * counts[j];
    }
    GcdOfIs(scaled, weights[i]);
    assert c * g > 0;
    DividesAtMost(weights[i], c * g);
    ShareTimesGcd(weights, i);
    NoGreaterFactor(Share(weights[i], g), c, g);
  }

  lemma NoGreaterFactor(a: int, b: int, g: int)
    requires g > 0 && a * g <= b * g
    ensures a <= b
  {
    assert a > b ==> (a - b) * g > 0;
  }

  lemma {:induction false} TotalAtLeastSum(counts: seq<int>, weights: seq<int>, g: int, n: nat)
    requires g > 0 && |counts| == |weights| && n <= |weights|
    requires forall i :: 0 <= i < n ==> counts[i] >= Share(weights[i], g)
    ensures Total(counts[..n]) >= |Expanded(weights[..n], g)|
  {
    if n > 0 {
      TotalAtLeastSum(counts, weights, g, n - 1);
      TotalAppend(counts[..n - 1], counts[n - 1]);
      assert counts[..n] == counts[..n - 1] + [counts[n - 1]];
      assert weights[..n][..n - 1] == weights[..n - 1];
    }
  }

  lemma {:induction false} TotalAppend(counts: seq<int>, c: int)
    ensures Total(counts + [c]) == Total(counts) + c
  {
    if counts == [] {
      assert counts + [c] == [c];
    } else {
      TotalAppend(counts[1..], c);
      assert (counts + [c])[1..] == counts[1..] + [c];
    }
  }

  /** No queue that realises the weights is shorter: any positive counts in the same ratios sum to at
      least the length of the queue that InitBalancer builds. */
  lemma {:induction false} QueueIsShortest(counts: seq<int>, weights: seq<int>)
    requires weights != [] && AllPositive(weights) && AllPositive(counts) && SameRatios(counts, weights)
    ensures Total(counts) >= |Expanded(weights, GcdOf(weights))|
  {
    forall i: nat | i < |weights| ensures counts[i] >= Share(weights[i], GcdOf(weights)) {
      CountIsAtLeastShare(counts, weights, i);
    }
    TotalAtLeastSum(counts, weights, GcdOf(weights), |weights|);
    assert counts[..|weights|] == counts && weights[..|weights|] == weights;
  }

  /** The queue itself is in the ratios of the weights. */
  lemma QueueHasRatios(queue: seq<nat>, weights: seq<int>, i: nat, j: nat)
    requires weights != [] && AllPositive(weights) && Balanced(queue, weights) && i < |weights| && j < |weights|
    ensures multiset(queue)[i] * weights[j] == multiset(queue)[j] * weights[i]
  {
    var g := GcdOf(weights);
    var a, b := multiset(queue)[i], multiset(queue)[j];
    assert a * (b * g) == b * (a * g);
  }

  // -------------------------------------------------------------------------------- Turns

  function Mod(a: nat, n: nat): (r: nat)
    requires n > 0
    ensures r < n
  {
    a % n
  }

  lemma ModIs(a: nat, n: nat)
    requires n > 0
    ensures Mod(a, n) == a % n && (a < n ==> Mod(a, n) == a)
  {
    QuotientAndRest(n, 0, a % n);
    if a < n {
      QuotientAndRest(n, 0, a);
    }
  }

  // The slaves that one round of the queue takes from a position on.
  function Round(queue: seq<nat>, start: nat): seq<nat> {
    seq(|queue|, j requires 0 <= j < |queue| => queue[Mod(start + j, |queue|)])
  }

  /** One round takes every slave as often as the queue holds it, wherever it starts. */
  lemma RoundIsFair(queue: seq<nat>, start: nat)
    ensures multiset(Round(queue, start)) == multiset(queue)
  {
    hide Mod;
    var n := |queue|;
    if n > 0 {
      var s := Mod(start, n);
      forall j | 0 <= j < n ensures Round(queue, start)[j] == (queue[s..] + queue[..s])[j] {
        ModAfter(start, j, n);
      }
      assert Round(queue, start) == queue[s..] + queue[..s];
      assert queue == queue[..s] + queue[s..];
    }
  }

  lemma ModAfter(start: nat, j: nat, n: nat)
    requires j < n
    ensures Mod(start + j, n) == if Mod(start, n) + j < n then Mod(start, n) + j else Mod(start, n) + j - n
  {
    ModuloAfter(start, j, n);
  }

  lemma ModTwice(a: nat, n: nat)
    requires n > 0
    ensures Mod(Mod(a, n), n) == Mod(a, n) && Mod(Mod(a, n) + 1, n) == Mod(a + 1, n)
  {
    QuotientAndRest(n, 0, Mod(a, n));
    ModuloNext(Mod(a, n), a, n);
  }

  lemma ModuloAfter(start: nat, j: nat, n: nat)
    requires j < n
    ensures (start + j) % n == if start % n + j < n then start % n + j else start % n + j - n
  {
    var r := if start % n + j < n then start % n + j else start % n + j - n;
    var q := if start % n + j < n then start / n else start / n + 1;
    assert start + j == n * q + r;
    QuotientAndRest(n, q, r);
  }

  lemma QuotientAndRest(n: nat, q: int, r: int)
    requires 0 <= r < n
    ensures (n * q + r) % n == r
  {
    var k := q - (n * q + r) / n;
    assert (n * q + r) % n - r == n * k;
    assert k >= 1 ==> n * k >= n;
    assert k <= -1 ==> n * k + n <= 0;
  }

  lemma ModuloNext(a: nat, b: nat, n: nat)
    requires n > 0 && Mod(a, n) == Mod(b, n)
    ensures Mod(a + 1, n) == Mod(b + 1, n)
  {
    if n > 1 {
      ModuloAfter(a, 1, n);
      ModuloAfter(b, 1, n);
    }
  }

  lemma BalancedIsNotEmpty(queue: seq<nat>, weights: seq<int>)
    requires weights != [] && AllPositive(weights) && Balanced(queue, weights)
    ensures queue != []
  {
    assert multiset(queue)[0] * GcdOf(weights) == weights[0];
    assert queue == [] ==> multiset(queue)[0] == 0;
  }

  // The turns of n calls from the a-th on.
  function Turns(picks: seq<nat>, a: nat, n: nat): seq<nat>
    requires a + n <= |picks|
  {
    picks[a..a + n]
  }

  function Swapped(queue: seq<nat>, a: nat, b: nat): seq<nat>
    requires a < |queue| && b < |queue|
  {
    queue[a := queue[b]][b := queue[a]]
  }

  /** Two places are exchanged, the others stay, and nothing is lost. */
  lemma SwapKeeps(queue: seq<nat>, a: nat, b: nat)
    requires a < |queue| && b < |queue|
    ensures var r := Swapped(queue, a, b);
      && |r| == |queue| && r[a] == queue[b] && r[b] == queue[a]
      && (forall k :: 0 <= k < |queue| && k != a && k != b ==> r[k] == queue[k])
      && multiset(r) == multiset(queue)
  {
  }

  // Queue k + 1 is queue k with place xs[k] exchanged with place sum mod (xs[k] + 1).
  ghost predicate Shuffles(sum: int, xs: seq<nat>, queues: seq<seq<nat>>) {
    && |queues| == |xs| + 1
    && forall k :: 0 <= k < |xs| ==>
         (xs[k] < sum <= |queues[k]| && sum % (xs[k] + 1) < |queues[k]|
          && queues[k + 1] == Swapped(queues[k], xs[k], sum % (xs[k] + 1)))
  }

  lemma ShufflesNothing(sum: nat, queue: seq<nat>)
    ensures Shuffles(sum, [], [queue])
  {
  }

  lemma ShufflesNext(sum: nat, xs: seq<nat>, queues: seq<seq<nat>>, x: nat, queue: seq<nat>)
    requires |queues| == |xs| + 1 && Shuffles(sum, xs, queues)
    requires x < sum <= |queues[|xs|]| && sum % (x + 1) <= x
    requires queue == Swapped(queues[|xs|], x, sum % (x + 1))
    ensures Shuffles(sum, xs + [x], queues + [queue])
  {
    hide Swapped;
    assert forall k :: 0 <= k < |xs| ==> (xs + [x])[k] == xs[k] && (queues + [queue])[k] == queues[k];
  }

  lemma ShufflesLength(sum: nat, xs: seq<nat>, queues: seq<seq<nat>>)
    requires Shuffles(sum, xs, queues)
    ensures |queues| == |xs| + 1
  {
  }

  lemma CountsOf(weights: seq<int>, g: int, queue: seq<nat>)
    requires g != 0 && multiset(queue) == multiset(Expanded(weights, g))
    ensures forall i: nat :: multiset(queue)[i] == if i < |weights| then Share(weights[i], g) else 0
  {
    forall i: nat ensures multiset(queue)[i] == if i < |weights| then Share(weights[i], g) else 0 {
      ExpandedCounts(weights, g, i);
    }
  }

  lemma RestIsAtMost(sum: nat, x: nat)
    ensures sum % (x + 1) <= x
  {
  }

  class Node {
    var slave: seq<string>
    var slaveWeights: seq<int>
    var lastSlaveIndex: nat
    var roundRobinQ: seq<nat>

    constructor (slave: seq<string>, slaveWeights: seq<int>)
      ensures this.slave == slave && this.slaveWeights == slaveWeights && lastSlaveIndex == 0 && roundRobinQ == []
    {
      this.slave, this.slaveWeights, lastSlaveIndex, roundRobinQ := slave, slaveWeights, 0, [];
    }

    // Fills the queue with each slave in turn.
    method Expand(g: int) returns (sum: int)
      requires g != 0
      modifies this`roundRobinQ
      ensures sum == Sum(slaveWeights, g)
      ensures sum >= 0 ==> roundRobinQ == Expanded(slaveWeights, g)
    {
      sum := 0;
      for i := 0 to |slaveWeights|
        invariant sum == Sum(slaveWeights[..i], g)
      {
        sum := sum + GoDiv(slaveWeights[i], g);
        assert slaveWeights[..i + 1][..i] == slaveWeights[..i];
      }
      assert slaveWeights[..|slaveWeights|] == slaveWeights;
      if sum < 0 {
        return;
      }
      roundRobinQ := [];
      for index := 0 to |slaveWeights|
        invariant roundRobinQ == Expanded(slaveWeights[..index], g)
      {
        var j := 0;
        ghost var filled := roundRobinQ;
        while j < GoDiv(slaveWeights[index], g)
          invariant 0 <= j <= Share(slaveWeights[index], g)
          invariant roundRobinQ == filled + seq(j, _ => index)
        {
          roundRobinQ := roundRobinQ + [index];
          j := j + 1;
        }
        assert slaveWeights[..index + 1][..index] == slaveWeights[..index];
      }
    }

    // Swaps random places of the queue: `xs` are the random numbers and `queues` the queues in between.
    method Shuffle(sum: nat) returns (ghost xs: seq<nat>, ghost queues: seq<seq<nat>>)
      requires sum <= |roundRobinQ|
      modifies this`roundRobinQ
      ensures multiset(roundRobinQ) == multiset(old(roundRobinQ)) && Shuffles(sum, xs, queues)
      ensures |xs| == sum && queues[0] == old(roundRobinQ) && queues[sum] == roundRobinQ
    {
      hide Swapped, Shuffles;
      xs, queues := [], [roundRobinQ];
      ShufflesNothing(sum, roundRobinQ);
      for i := 0 to sum
        invariant |roundRobinQ| >= sum && multiset(roundRobinQ) == multiset(old(roundRobinQ))
        invariant |xs| == i && |queues| == i + 1 && queues[0] == old(roundRobinQ) && queues[i] == roundRobinQ
        invariant Shuffles(sum, xs, queues)
      {
        var x: nat :| x < sum;
        SwapOne(sum, x);
        ShufflesNext(sum, xs, queues, x, roundRobinQ);
        xs, queues := xs + [x], queues + [roundRobinQ];
      }
    }

    // One swap of the shuffle.
    method SwapOne(sum: nat, x: nat)
      requires x < sum <= |roundRobinQ|
      modifies this`roundRobinQ
      ensures sum % (x + 1) <= x && roundRobinQ == Swapped(old(roundRobinQ), x, sum % (x + 1))
      ensures |roundRobinQ| == |old(roundRobinQ)| && multiset(roundRobinQ) == multiset(old(roundRobinQ))
    {
      RestIsAtMost(sum, x);
      SwapKeeps(roundRobinQ, x, sum % (x + 1));
      var temp := roundRobinQ[x];
      var other := sum % (x + 1);
      roundRobinQ := roundRobinQ[x := roundRobinQ[other]];
      roundRobinQ := roundRobinQ[other := temp];
    }

    /** InitBalancer: for positive weights it succeeds with a queue that is balanced whatever the
        random numbers are.  It panics exactly when there is no weight, the least weight is zero, or
        the quotients sum to less than zero. */
    method InitBalancer() returns (panicked: bool, ghost xs: seq<nat>, ghost queues: seq<seq<nat>>)
      modifies this`lastSlaveIndex, this`roundRobinQ
      ensures panicked <==>
        (slaveWeights == [] || Least(slaveWeights) == 0 || Sum(slaveWeights, Unit(slaveWeights)) < 0)
      ensures !panicked ==>
        lastSlaveIndex == 0 && multiset(roundRobinQ) == multiset(Expanded(slaveWeights, Unit(slaveWeights)))
      ensures !panicked ==> forall i: nat ::
        multiset(roundRobinQ)[i] == if i < |slaveWeights| then Share(slaveWeights[i], Unit(slaveWeights)) else 0
      ensures !panicked ==> Shuffles(Sum(slaveWeights, Unit(slaveWeights)), xs, queues) && |queues| == |xs| + 1
      ensures !panicked && |slaveWeights| > 1 ==> |xs| == Sum(slaveWeights, Unit(slaveWeights))
      ensures !panicked ==>
        queues[0] == Expanded(slaveWeights, Unit(slaveWeights)) && queues[|xs|] == roundRobinQ
      ensures slaveWeights != [] && AllPositive(slaveWeights) ==> !panicked && Balanced(roundRobinQ, slaveWeights)
    {
      lastSlaveIndex := 0;
      xs, queues := [], [];
      var gcd := Gcd(slaveWeights);
      if gcd.Panicked? {
        return true, [], [];
      }
      var g := gcd.value;
      hide GcdOf, Common, Expanded, Sum, Unit, Least, Balanced, Shuffles, Swapped, Share;
      if AllPositive(slaveWeights) {
        SumIsPositive(slaveWeights, g);
        ExpandedIsBalanced(slaveWeights);
      }
      ExpandedCounts(slaveWeights, g, 0);
      var sum := Expand(g);
      if sum < 0 {
        return true, [], [];
      }
      queues := [roundRobinQ];
      ShufflesNothing(sum, roundRobinQ);
      if 1 < |slaveWeights| {
        xs, queues := Shuffle(sum);
        ShufflesLength(sum, xs, queues);
      }
      CountsOf(slaveWeights, g, roundRobinQ);
      if AllPositive(slaveWeights) {
        BalancedIsAboutCounts(Expanded(slaveWeights, g), roundRobinQ, slaveWeights);
      }
      panicked := false;
    }

    /** getNextSlave: the slave at the index, which moves on by one when a slave was found.  An empty queue, or
        an index without a slave in a longer queue, is ErrNoDatabase; without a slave for the only entry it
        runs out of range. */
    method GetNextSlave() returns (r: Pick)
      modifies this`lastSlaveIndex
      ensures r.NoDatabase? <==> (roundRobinQ == []
        || (|roundRobinQ| > 1 && roundRobinQ[Mod(old(lastSlaveIndex), |roundRobinQ|)] >= |slave|))
      ensures r.OutOfRange? <==> |roundRobinQ| == 1 && roundRobinQ[0] >= |slave|
      ensures r.Chosen? ==> roundRobinQ != [] && r.index == roundRobinQ[Mod(old(lastSlaveIndex), |roundRobinQ|)]
      ensures r.Chosen? ==> r.index < |slave| && r.db == slave[r.index]
      ensures r.Chosen? ==> Mod(lastSlaveIndex, |roundRobinQ|) == Mod(old(lastSlaveIndex) + 1, |roundRobinQ|)
      ensures !r.Chosen? && roundRobinQ != [] ==>
        Mod(lastSlaveIndex, |roundRobinQ|) == Mod(old(lastSlaveIndex), |roundRobinQ|)
    {
      hide Mod;
      var queueLen := |roundRobinQ|;
      if queueLen == 0 {
        return NoDatabase;
      }
      ModTwice(lastSlaveIndex, queueLen);
      ModTwice(lastSlaveIndex + 1, queueLen);
      if queueLen == 1 {
        var index := roundRobinQ[0];
        return if index < |slave| then Chosen(index, slave[index]) else OutOfRange;
      }
      lastSlaveIndex := Mod(lastSlaveIndex, queueLen);
      var index := roundRobinQ[lastSlaveIndex];
      if |slave| <= index {
        return NoDatabase;
      }
      var db := slave[index];
      lastSlaveIndex := lastSlaveIndex + 1;
      lastSlaveIndex := Mod(lastSlaveIndex, queueLen);
      return Chosen(index, db);
    }

    /** Any number of calls after InitBalancer, from any index: no call fails, and every run of as many
        calls as the queue is long takes slave i exactly weight/gcd times. */
    method Serve(calls: nat) returns (picks: seq<nat>, dbs: seq<string>)
      requires slaveWeights != [] && AllPositive(slaveWeights) && |slave| == |slaveWeights|
      requires Balanced(roundRobinQ, slaveWeights)
      modifies this`lastSlaveIndex
      ensures |picks| == |dbs| == calls
      ensures forall k :: 0 <= k < calls ==> picks[k] < |slave| && dbs[k] == slave[picks[k]]
      ensures roundRobinQ != [] && forall k :: 0 <= k < calls ==>
        picks[k] == roundRobinQ[Mod(old(lastSlaveIndex) + k, |roundRobinQ|)]
      ensures forall a: nat :: a + |roundRobinQ| <= calls ==> Balanced(Turns(picks, a, |roundRobinQ|), slaveWeights)
    {
      var start := lastSlaveIndex;
      picks, dbs := [], [];
      BalancedIsNotEmpty(roundRobinQ, slaveWeights);
      var n := |roundRobinQ|;
      forall j | 0 <= j < n ensures roundRobinQ[j] < |slave| {
        assert roundRobinQ[j] in roundRobinQ;
      }
      hide Mod, Balanced, GcdOf;
      for k := 0 to calls
        invariant |picks| == |dbs| == k
        invariant Mod(lastSlaveIndex, n) == Mod(start + k, n)
        invariant forall j :: 0 <= j < k ==> picks[j] == roundRobinQ[Mod(start + j, n)]
        invariant forall j :: 0 <= j < k ==> picks[j] < |slave| && dbs[j] == slave[picks[j]]
      {
        ModuloNext(lastSlaveIndex, start + k, n);
        var r := GetNextSlave();
        picks, dbs := picks + [r.index], dbs + [r.db];
      }
      forall a: nat | a + n <= calls ensures Balanced(Turns(picks, a, n), slaveWeights) {
        assert Turns(picks, a, n) == Round(roundRobinQ, start + a);
        RoundIsFair(roundRobinQ, start + a);
        BalancedIsAboutCounts(roundRobinQ, Turns(picks, a, n), slaveWeights);
      }
    }
  }
}
