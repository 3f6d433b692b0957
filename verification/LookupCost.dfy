/** How the cost of a lookup grows with the topic: as a polynomial whose degree is the
    largest number of `*` levels in one stored pattern, and no slower. */
module LookupCost {
  import opened Backtracking
  import opened Patterns
  import opened Routes
  import opened Subscriptions

  function Power(b: nat, e: nat): nat {
    if e == 0 then 1 else b * Power(b, e - 1)
  }

  lemma {:induction false} PowerGrows(a: nat, b: nat, e: nat)
    requires a <= b
    ensures Power(a, e) <= Power(b, e)
  {
    if e > 0 {
      PowerGrows(a, b, e - 1);
      MulGrows(a, Power(a, e - 1), b, Power(b, e - 1));
    }
  }

  lemma {:induction false} PowerClimbs(b: nat, d: nat, e: nat)
    requires b >= 1 && d <= e
    ensures 1 <= Power(b, d) <= Power(b, e)
    decreases e
  {
    if e == 0 {
    } else if d < e {
      PowerClimbs(b, d, e - 1);
      MulGrows(1, Power(b, e - 1), b, Power(b, e - 1));
    } else {
      PowerClimbs(b, d - 1, e - 1);
      MulGrows(1, 1, b, Power(b, e - 1));
    }
  }

  lemma {:induction false} PowerOfProduct(a: nat, b: nat, e: nat)
    ensures Power(a * b, e) == Power(a, e) * Power(b, e)
  {
    if e > 0 {
      PowerOfProduct(a, b, e - 1);
      MulExchange(a, b, Power(a, e - 1), Power(b, e - 1));
    }
  }

  lemma MulExchange(a: nat, b: nat, c: nat, d: nat)
    ensures a * b * (c * d) == a * c * (b * d)
  {
    assert a * b * (c * d) == a * (b * c) * d == a * (c * b) * d;
  }

  lemma MulGrows(a: nat, b: nat, c: nat, d: nat)
    requires a <= c && b <= d
    ensures a * b <= c * d
  {
    assert a * b <= c * b;
    assert c * b <= c * d;
  }

  // At most: every route holds few stars.

  /** The number of `*` levels on a route. */
  function StarsOn(r: Route): nat {
    match r
    case Root => 0
    case Step(parent, level) => StarsOn(parent) + if level == STAR then 1 else 0
  }

  /** The stars on a route to a pattern's first levels and those after it are all its stars. */
  lemma {:induction false} StarsOnPrefix(pattern: Path, n: nat)
    requires n <= |pattern|
    ensures StarsOn(RouteTo(pattern, n)) + Count(STAR, pattern[n..]) == Count(STAR, pattern)
  {
    if n == 0 {
      assert pattern[0..] == pattern;
    } else {
      StarsOnPrefix(pattern, n - 1);
      assert pattern[n - 1..][1..] == pattern[n..];
    }
  }

  lemma StarsOnPrefixRoute(pattern: Path, q: Route)
    requires q.Levels() <= pattern
    ensures StarsOn(q) <= Count(STAR, pattern)
  {
    var n := |q.Levels()|;
    RouteToLevels(pattern, n);
    LevelsInjective(q, RouteTo(pattern, n));
    StarsOnPrefix(pattern, n);
  }

  /** No route at or below `route` has more than `k` stars after it. */
  ghost predicate Within(keys: set<Route>, route: Route, k: nat) {
    forall q :: q in keys && route.LeadsTo(q) ==> StarsOn(q) <= StarsOn(route) + k
  }

  lemma WithinChild(keys: set<Route>, route: Route, level: string, k: nat)
    requires Within(keys, route, k) && Step(route, level) in keys
    ensures Within(keys, Step(route, level), k)
    ensures level == STAR ==> k >= 1 && Within(keys, Step(route, level), k - 1)
  {
    forall q | q in keys && Step(route, level).LeadsTo(q)
      ensures route.LeadsTo(q)
    {
      LeadsToTransitive(route, Step(route, level), q);
    }
    assert route.LeadsTo(Step(route, level)) && Step(route, level).LeadsTo(Step(route, level));
  }

  /** What one part of a search costs at most when it has `u` nodes and `k` stars below. */
  function Bound(u: nat, n: nat, k: nat): nat {
    Power(4, u) * Power(n + 1, k)
  }

  /** The nodes that a search from `route` can reach. */
  ghost function Size(keys: set<Route>, route: Route): nat {
    |Under(keys, route)|
  }

  lemma SizeShrinks(keys: set<Route>, route: Route, level: string)
    requires route in keys
    ensures Size(keys, Step(route, level)) < Size(keys, route)
  {
    UnderShrinks(keys, route, level);
    SmallerSet(Under(keys, Step(route, level)), Under(keys, route));
  }

  lemma {:induction false} SmallerSet<T>(a: set<T>, b: set<T>)
    requires a < b
    ensures |a| < |b|
  {
    var x :| x in b && x !in a;
    assert a <= b - {x};
    SubsetSize(a, b - {x});
  }

  lemma {:induction false} SubsetSize<T>(a: set<T>, b: set<T>)
    requires a <= b
    ensures |a| <= |b|
  {
    if x :| x in a {
      SubsetSize(a - {x}, b - {x});
    }
  }

  lemma BoundGrows(u: nat, v: nat, m: nat, n: nat, k: nat)
    requires u <= v && m <= n
    ensures 1 <= Bound(u, m, k) <= Bound(v, n, k)
  {
    PowerClimbs(4, u, v);
    PowerClimbs(m + 1, 0, k);
    PowerGrows(m + 1, n + 1, k);
    MulGrows(Power(4, u), Power(m + 1, k), Power(4, v), Power(n + 1, k));
    MulGrows(1, 1, Power(4, u), Power(m + 1, k));
  }

  /** Two ordinary children and a `*` child are within four times the bound below. */
  lemma BoundStep(u: nat, n: nat, k: nat)
    ensures 4 * Bound(u, n, k) == Bound(u + 1, n, k)
    ensures k >= 1 ==> (n + 1) * Bound(u, n, k - 1) == Bound(u, n, k)
  {
    hide Power;
    assert Power(4, u + 1) == 4 * Power(4, u) by {
      PowerUnfolds(4, u + 1);
    }
    assert 4 * Power(4, u) * Power(n + 1, k) == 4 * (Power(4, u) * Power(n + 1, k));
    if k >= 1 {
      PowerUnfolds(n + 1, k);
      assert (n + 1) * (Power(4, u) * Power(n + 1, k - 1)) == Power(4, u) * ((n + 1) * Power(n + 1, k - 1));
    }
  }

  lemma PowerNone(b: nat)
    ensures Power(b, 0) == 1
  {
  }

  lemma PowerUnfolds(b: nat, e: nat)
    requires e >= 1
    ensures Power(b, e) == b * Power(b, e - 1)
  {
  }

  lemma {:induction false} CostAtMost(keys: set<Route>, route: Route, topic: Path, k: nat)
    requires route in keys && Within(keys, route, k)
    ensures Calls(keys, route, topic) <= Bound(Size(keys, route), |topic|, k)
    decreases Size(keys, route), 1, 0
  {
    hide Bound, Size, Within, Under;
    var u := Size(keys, route);
    var n := |topic|;
    SizeShrinks(keys, route, STAR);
    BoundStep(u - 1, n, k);
    BoundGrows(0, u - 1, 0, n, k);
    if topic != [] {
      ChildCostAtMost(keys, route, topic[0], topic[1..], k, n);
      ChildCostAtMost(keys, route, PLUS, topic[1..], k, n);
    }
    if Step(route, STAR) in keys {
      WithinChild(keys, route, STAR, k);
      StarCostAtMost(keys, route, topic, k, n);
    } else {
      NoStarCalls(keys, route, topic);
    }
  }

  lemma {:induction false} ChildCostAtMost(
    keys: set<Route>, route: Route, level: string, topic: Path, k: nat, n: nat)
    requires route in keys && Within(keys, route, k) && |topic| <= n && Size(keys, route) >= 1
    ensures ChildCalls(keys, route, level, topic) <= Bound(Size(keys, route) - 1, n, k)
    decreases Size(keys, route), 0, 0
  {
    hide Bound, Size, Within, Under, Calls;
    var child := Step(route, level);
    SizeShrinks(keys, route, level);
    if child in keys {
      WithinChild(keys, route, level, k);
      CostAtMost(keys, child, topic, k);
      BoundGrows(Size(keys, child), Size(keys, route) - 1, |topic|, n, k);
    }
  }

  /** The `*` child is searched on each suffix, with one star less to come. */
  lemma {:induction false} StarCostAtMost(keys: set<Route>, route: Route, topic: Path, k: nat, n: nat)
    requires route in keys && Within(keys, route, k) && |topic| <= n && Size(keys, route) >= 1
    requires Step(route, STAR) in keys && k >= 1
    ensures StarCalls(keys, route, topic) <= (|topic| + 1) * Bound(Size(keys, route) - 1, n, k - 1)
    decreases Size(keys, route), 0, |topic| + 1
  {
    hide Bound, Size, Within, Under, Calls;
    var child, b := Step(route, STAR), Bound(Size(keys, route) - 1, n, k - 1);
    SizeShrinks(keys, route, STAR);
    WithinChild(keys, route, STAR, k);
    CostAtMost(keys, child, topic, k - 1);
    BoundGrows(Size(keys, child), Size(keys, route) - 1, |topic|, n, k - 1);
    assert ChildCalls(keys, route, STAR, topic) <= b;
    if topic != [] {
      StarCostAtMost(keys, route, topic[1..], k, n);
      assert (|topic| + 1) * b == b + |topic| * b;
    }
  }

  // At least: a pattern with many stars has topics that cost as much.

  /** The first level from `i` on that is a `*`, or the end. */
  function NextStar(pattern: Path, i: nat): (j: nat)
    requires i <= |pattern|
    ensures i <= j <= |pattern| && STAR !in pattern[i..j]
    ensures j < |pattern| ==> pattern[j] == STAR
    decreases |pattern| - i
  {
    if i == |pattern| || pattern[i] == STAR then i else
      assert forall j :: i < j <= |pattern| ==> pattern[i..j] == [pattern[i]] + pattern[i + 1..j];
      NextStar(pattern, i + 1)
  }

  lemma {:induction false} NextStarCounts(pattern: Path, i: nat)
    requires i <= |pattern|
    ensures Count(STAR, pattern[i..]) == Count(STAR, pattern[NextStar(pattern, i)..])
    decreases |pattern| - i
  {
    if i < |pattern| && pattern[i] != STAR {
      NextStarCounts(pattern, i + 1);
    }
  }

  function Repeat(block: Path, n: nat): Path {
    if n == 0 then [] else block + Repeat(block, n - 1)
  }

  /** What a `*` at `i` has to skip: the levels up to the next `*`, or any level when
      there are none. */
  function Block(pattern: Path, i: nat): Path
    requires i < |pattern|
  {
    var between := pattern[i + 1..NextStar(pattern, i + 1)];
    if between == [] then [""] else between
  }

  /** Each `*` from `i` on gets `n` copies of its block. */
  function SlowTail(pattern: Path, i: nat, n: nat): Path
    requires i <= |pattern|
    decreases |pattern| - i
  {
    if i == |pattern| then [] else
      Repeat(Block(pattern, i), n) + SlowTail(pattern, NextStar(pattern, i + 1), n)
  }

  /** A topic on which the stars of a stored pattern multiply the search. */
  function SlowTopic(pattern: Path, n: nat): Path {
    var i := NextStar(pattern, 0);
    pattern[..i] + SlowTail(pattern, i, n)
  }

  lemma {:induction false} RepeatLength(block: Path, n: nat)
    ensures |Repeat(block, n)| == n * |block|
  {
    if n > 0 {
      RepeatLength(block, n - 1);
    }
  }

  lemma BlockLength(pattern: Path, i: nat)
    requires i < |pattern|
    ensures |Block(pattern, i)| <= NextStar(pattern, i + 1) - i
  {
  }

  lemma Distribute(n: nat, a: nat, b: nat)
    ensures n * a + n * b == n * (a + b)
  {
  }

  lemma {:induction false} RepeatLonger(a: Path, b: Path, whole: Path, n: nat)
    requires |a| + |b| <= |whole|
    ensures |Repeat(a, n)| + |Repeat(b, n)| <= |Repeat(whole, n)|
  {
    if n > 0 {
      RepeatLonger(a, b, whole, n - 1);
    }
  }

  lemma {:induction false} SlowTailLength(pattern: Path, i: nat, n: nat)
    requires i <= |pattern|
    ensures |SlowTail(pattern, i, n)| <= |Repeat(pattern[i..], n)|
    decreases |pattern| - i
  {
    hide Repeat, Block;
    if i < |pattern| {
      var j := NextStar(pattern, i + 1);
      BlockLength(pattern, i);
      SlowTailLength(pattern, j, n);
      RepeatLonger(Block(pattern, i), pattern[j..], pattern[i..], n);
    }
  }

  lemma SlowTopicLength(pattern: Path, n: nat)
    requires n >= 1
    ensures |SlowTopic(pattern, n)| + 1 <= n * (|pattern| + 1)
  {
    var i := NextStar(pattern, 0);
    SlowTailLength(pattern, i, n);
    RepeatLength(pattern[i..], n);
    MulGrows(1, i + 1, n, i + 1);
    Distribute(n, i + 1, |pattern| - i);
  }

  /** A `*` is also searched on every suffix that some first levels leave. */
  lemma {:induction false} StarCallsSkip(keys: set<Route>, route: Route, skipped: Path, topic: Path)
    requires route in keys
    ensures StarCalls(keys, route, skipped + topic)
         >= StarCalls(keys, route, topic) + if skipped == [] then 0 else ChildCalls(keys, route, STAR, skipped + topic)
  {
    if skipped == [] {
      assert skipped + topic == topic;
    } else {
      StarCallsSkip(keys, route, skipped[1..], topic);
      assert (skipped + topic)[1..] == skipped[1..] + topic;
    }
  }

  /** From a `*` or the end on, `n` copies of each block cost a factor of `n` for each
      `*`, whatever comes before them. */
  lemma {:induction false} StarsMultiply(keys: set<Route>, pattern: Path, i: nat, n: nat, before: Path)
    requires Closed(keys) && RouteOf(pattern) in keys
    requires i <= |pattern| && NextStar(pattern, i) == i
    ensures RouteTo(pattern, i) in keys
    ensures Calls(keys, RouteTo(pattern, i), before + SlowTail(pattern, i, n)) >= Power(n, Count(STAR, pattern[i..]))
    decreases |pattern| - i, n + 1
  {
    hide Under, ChildCalls, StarCalls, Block, Repeat, Closed, Power, RouteTo;
    OnTheWay(keys, pattern, i);
    if i == |pattern| {
      PowerNone(n);
    } else {
      PowerUnfolds(n, Count(STAR, pattern[i..]));
      CopiesAdd(keys, pattern, i, n, n);
      StarCallsSkip(keys, RouteTo(pattern, i), before, SlowTail(pattern, i, n));
      NextStarCounts(pattern, i + 1);
      assert pattern[i..][1..] == pattern[i + 1..];
    }
  }

  /** Each copy of the block starts one more search below the next `*`. */
  lemma {:induction false} CopiesAdd(keys: set<Route>, pattern: Path, i: nat, n: nat, m: nat)
    requires Closed(keys) && RouteOf(pattern) in keys
    requires i < |pattern| && pattern[i] == STAR && m <= n
    ensures RouteTo(pattern, i) in keys
    ensures var j := NextStar(pattern, i + 1);
      StarCalls(keys, RouteTo(pattern, i), Repeat(Block(pattern, i), m) + SlowTail(pattern, j, n))
        >= m * Power(n, Count(STAR, pattern[j..]))
    decreases |pattern| - i, m
  {
    hide Under, Calls, StarCalls, ChildCalls, NextStar, Block, SlowTail, Power, Count, Closed, Repeat;
    OnTheWay(keys, pattern, i);
    if m > 0 {
      var j, block := NextStar(pattern, i + 1), Block(pattern, i);
      var tail := SlowTail(pattern, j, n);
      var rest := Repeat(block, m - 1) + tail;
      CopiesAdd(keys, pattern, i, n, m - 1);
      StarCallsSkip(keys, RouteTo(pattern, i), block, rest);
      var before := CopyIsWay(pattern, i, m, tail);
      StarsMultiply(keys, pattern, j, n, before);
      LiteralWayCost(keys, pattern, i + 1, j, before + tail);
      StarChild(keys, pattern, i, block + rest);
      OneMore(Power(n, Count(STAR, pattern[j..])), m);
    }
  }

  lemma OneMore(p: nat, m: nat)
    requires m > 0
    ensures (m - 1) * p + p == m * p
  {
  }

  /** A copy of the block is the way to the next `*`, followed by what that may skip. */
  lemma CopyIsWay(pattern: Path, i: nat, m: nat, tail: Path) returns (before: Path)
    requires i < |pattern| && m > 0
    ensures var j, block := NextStar(pattern, i + 1), Block(pattern, i);
      && NextStar(pattern, j) == j && block != []
      && Repeat(block, m) + tail == block + (Repeat(block, m - 1) + tail) == pattern[i + 1..j] + (before + tail)
  {
    var block := Block(pattern, i);
    before := Repeat(block, if NextStar(pattern, i + 1) == i + 1 then m else m - 1);
  }

  lemma StarChild(keys: set<Route>, pattern: Path, i: nat, topic: Path)
    requires i < |pattern| && pattern[i] == STAR
    requires Closed(keys) && RouteTo(pattern, i + 1) in keys
    ensures RouteTo(pattern, i) in keys
    ensures ChildCalls(keys, RouteTo(pattern, i), STAR, topic) == Calls(keys, RouteTo(pattern, i + 1), topic)
  {
    hide Under, Calls;
    assert RouteTo(pattern, i + 1) == Step(RouteTo(pattern, i), STAR);
  }

  lemma OnTheWay(keys: set<Route>, pattern: Path, i: nat)
    requires Closed(keys) && RouteOf(pattern) in keys && i <= |pattern|
    ensures RouteTo(pattern, i) in keys
  {
    RouteToLeadsTo(pattern, i, |pattern|);
    ClosedUp(keys, RouteTo(pattern, i), RouteOf(pattern));
  }

  /** With a number `n` for each `*`, a topic of at most `n` times the pattern's length
      costs `n` to the number of its stars. */
  lemma CostAtLeast(keys: set<Route>, pattern: Path, n: nat)
    requires Closed(keys) && RouteOf(pattern) in keys && n >= 1
    ensures Root in keys && |SlowTopic(pattern, n)| + 1 <= n * (|pattern| + 1)
    ensures Calls(keys, Root, SlowTopic(pattern, n)) >= Power(n, Count(STAR, pattern))
  {
    var i := NextStar(pattern, 0);
    SlowTopicLength(pattern, n);
    OnTheWay(keys, pattern, 0);
    StarsMultiply(keys, pattern, i, n, []);
    assert [] + SlowTail(pattern, i, n) == SlowTail(pattern, i, n);
    LiteralWayCost(keys, pattern, 0, i, SlowTail(pattern, i, n));
    assert pattern[0..i] == pattern[..i];
    NextStarCounts(pattern, 0);
    assert pattern[0..] == pattern;
  }

  // Both: the degree of the cost is the largest number of stars.

  /** No topic costs more than `c` times the `k`-th power of its length. */
  ghost predicate CostWithin(keys: set<Route>, c: nat, k: nat)
    requires Root in keys
  {
    forall topic :: Calls(keys, Root, topic) <= c * Power(|topic| + 1, k)
  }

  /** No topic costs more than `c` times its length. */
  ghost predicate CostLinear(keys: set<Route>, c: nat)
    requires Root in keys
  {
    forall topic :: Calls(keys, Root, topic) <= c * (|topic| + 1)
  }

  lemma LinearIsFirstPower(keys: set<Route>, c: nat)
    requires Root in keys
    ensures CostLinear(keys, c) <==> CostWithin(keys, c, 1)
  {
    hide Calls;
    forall topic: Path
      ensures Power(|topic| + 1, 1) == |topic| + 1
    {
      PowerUnfolds(|topic| + 1, 1);
    }
  }

  lemma {:induction false} FewStarsSuffice(keys: set<Route>, k: nat)
    requires Root in keys && Within(keys, Root, k)
    ensures exists c: nat :: CostWithin(keys, c, k)
  {
    hide Size, Within;
    var c := Power(4, Size(keys, Root));
    forall topic
      ensures Calls(keys, Root, topic) <= c * Power(|topic| + 1, k)
    {
      CostAtMost(keys, Root, topic, k);
    }
    assert CostWithin(keys, c, k);
  }

  /** A pattern with too many stars breaks every bound at the length where it outgrows it. */
  lemma {:induction false} ManyStarsExceed(keys: set<Route>, pattern: Path, c: nat, k: nat)
    requires Closed(keys) && RouteOf(pattern) in keys && Count(STAR, pattern) > k
    ensures Root in keys && !CostWithin(keys, c, k)
  {
    hide Power, Calls, Closed;
    var d := Power(|pattern| + 1, k);
    var n := c * d + 1;
    var topic := SlowTopic(pattern, n);
    CostAtLeast(keys, pattern, n);
    PowerClimbs(n, k + 1, Count(STAR, pattern));
    PowerClimbs(n, 0, k);
    PowerUnfolds(n, k + 1);
    PowerGrows(|topic| + 1, n * (|pattern| + 1), k);
    PowerOfProduct(n, |pattern| + 1, k);
    Outgrows(c, Power(|topic| + 1, k), Power(n, k), d);
    assert Power(n, k + 1) == n * Power(n, k);
    assert Calls(keys, Root, topic) > c * Power(|topic| + 1, k);
  }

  lemma Outgrows(c: nat, p: nat, q: nat, d: nat)
    requires p <= q * d && q >= 1
    ensures (c * d + 1) * q > c * p
  {
    MulGrows(c, p, c, q * d);
    assert c * (q * d) == c * d * q;
  }
}
