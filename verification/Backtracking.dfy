/** How often the backtracking lookup enters itself, as a function of the routes
    in the trie and the topic, and what that costs at worst and at best. */
module Backtracking {
  import opened Patterns
  import opened Routes
  import opened Subscriptions

  /** Entries of `collect_matches_recursive` for a lookup that starts at `route`. */
  ghost function Calls(keys: set<Route>, route: Route, topic: Path): nat
    requires route in keys
    decreases Under(keys, route), 1, 0
  {
    1 + (if topic == [] then 0
         else ChildCalls(keys, route, topic[0], topic[1..]) + ChildCalls(keys, route, PLUS, topic[1..]))
      + StarCalls(keys, route, topic)
  }

  ghost function ChildCalls(keys: set<Route>, route: Route, level: string, topic: Path): nat
    requires route in keys
    decreases Under(keys, route), 0, 0
  {
    if Step(route, level) in keys then
      UnderShrinks(keys, route, level);
      Calls(keys, Step(route, level), topic)
    else 0
  }

  /** The `*` child is searched once for every suffix of the topic. */
  ghost function StarCalls(keys: set<Route>, route: Route, topic: Path): nat
    requires route in keys
    decreases Under(keys, route), 0, |topic| + 1
  {
    ChildCalls(keys, route, STAR, topic) + (if topic == [] then 0 else StarCalls(keys, route, topic[1..]))
  }

  /** The part of `StarCalls` that is still to come when the search has reached index `i`. */
  ghost function StarCallsFrom(keys: set<Route>, route: Route, tokens: Path, i: nat): nat
    requires route in keys && i <= |tokens| + 1
  {
    if i <= |tokens| then StarCalls(keys, route, tokens[i..]) else 0
  }

  lemma StarCallsStep(keys: set<Route>, route: Route, tokens: Path, i: nat)
    requires route in keys && i <= |tokens|
    ensures StarCallsFrom(keys, route, tokens, i)
         == ChildCalls(keys, route, STAR, tokens[i..]) + StarCallsFrom(keys, route, tokens, i + 1)
  {
  }

  lemma {:induction false} NoStarCalls(keys: set<Route>, route: Route, topic: Path)
    requires route in keys && Step(route, STAR) !in keys
    ensures StarCalls(keys, route, topic) == 0
  {
    if topic != [] {
      NoStarCalls(keys, route, topic[1..]);
    }
  }

  /** Without wildcard patterns the lookup follows one way down, an entry for each level. */
  lemma {:induction false} LiteralLookupIsLinear(keys: set<Route>, route: Route, topic: Path)
    requires route in keys
    requires forall r :: Step(r, PLUS) !in keys && Step(r, STAR) !in keys
    ensures Calls(keys, route, topic) <= |topic| + 1
    decreases |topic|
  {
    NoStarCalls(keys, route, topic);
    if topic != [] && Step(route, topic[0]) in keys {
      LiteralLookupIsLinear(keys, Step(route, topic[0]), topic[1..]);
    }
  }

  /** Following the literal levels `j` to `i` of a route costs an entry each. */
  lemma {:induction false} LiteralWayCost(keys: set<Route>, levels: Path, j: nat, i: nat, tail: Path)
    requires j <= i <= |levels| && Closed(keys) && RouteTo(levels, i) in keys
    ensures RouteTo(levels, j) in keys
    ensures Calls(keys, RouteTo(levels, j), levels[j..i] + tail) >= i - j + Calls(keys, RouteTo(levels, i), tail)
    decreases i - j
  {
    hide Under;
    RouteToLeadsTo(levels, j, i);
    ClosedUp(keys, RouteTo(levels, j), RouteTo(levels, i));
    var topic := levels[j..i] + tail;
    if j == i {
      assert topic == tail;
    } else {
      LiteralWayCost(keys, levels, j + 1, i, tail);
      assert topic[0] == levels[j] && topic[1..] == levels[j + 1..i] + tail;
      assert RouteTo(levels, j + 1) == Step(RouteTo(levels, j), levels[j]);
    }
  }

  /** A topic on which a wildcard at level `i` of a stored pattern costs extra. */
  function CostlyTopic(pattern: Path, i: nat): Path
    requires i < |pattern|
  {
    if pattern[i] == PLUS then pattern[..i] + [PLUS] else pattern[..i]
  }

  /** A wildcard on a route makes a lookup take more than one entry per level. */
  lemma WildcardCost(keys: set<Route>, pattern: Path, i: nat)
    requires Closed(keys) && i < |pattern| && (pattern[i] == PLUS || pattern[i] == STAR)
    requires RouteTo(pattern, i + 1) in keys
    ensures Root in keys && Calls(keys, Root, CostlyTopic(pattern, i)) > |CostlyTopic(pattern, i)| + 1
  {
    hide Under;
    var node, tail := RouteTo(pattern, i), if pattern[i] == PLUS then [PLUS] else [];
    assert node in keys by {
      assert RouteTo(pattern, i + 1) == Step(node, pattern[i]);
    }
    LiteralWayCost(keys, pattern, 0, i, tail);
    assert CostlyTopic(pattern, i) == pattern[0..i] + tail;
    assert ChildCalls(keys, node, pattern[i], []) >= 1;
    if pattern[i] == PLUS {
      assert tail[0] == PLUS && tail[1..] == [];
      assert Calls(keys, node, tail) >= 1 + 2 * ChildCalls(keys, node, PLUS, []);
    } else {
      assert StarCalls(keys, node, []) == ChildCalls(keys, node, STAR, []);
    }
  }

  /** Binomial coefficients by Pascal's rule. */
  function Choose(n: nat, k: nat): nat {
    if k == 0 then 1 else if n == 0 then 0 else Choose(n - 1, k - 1) + Choose(n - 1, k)
  }

  lemma {:induction false} ChooseBeyond(n: nat, k: nat)
    requires n < k
    ensures Choose(n, k) == 0
  {
    if n > 0 {
      ChooseBeyond(n - 1, k - 1);
      ChooseBeyond(n - 1, k);
    }
  }

  lemma {:induction false} ChooseAll(n: nat)
    ensures Choose(n, n) == 1
  {
    if n > 0 {
      ChooseAll(n - 1);
      ChooseBeyond(n - 1, n);
    }
  }

  /** The route of the pattern of `k` levels `*`. */
  ghost function Stars(k: nat): Route {
    if k == 0 then Root else Step(Stars(k - 1), STAR)
  }

  /** The routes of a trie that holds only that pattern. */
  ghost predicate OnlyStars(keys: set<Route>, k: nat) {
    forall r: Route :: r in keys <==> r.LeadsTo(Stars(k))
  }

  lemma {:induction false} StarsLead(i: nat, k: nat)
    requires i <= k
    ensures Stars(i).LeadsTo(Stars(k))
  {
    if i < k {
      StarsLead(i, k - 1);
    }
  }

  lemma {:induction false} StarRoute(k: nat, r: Route) returns (i: nat)
    requires r.LeadsTo(Stars(k))
    ensures i <= k && r == Stars(i)
  {
    if r == Stars(k) {
      i := k;
    } else {
      i := StarRoute(k - 1, r);
    }
  }

  lemma {:induction false} StarsDiffer(i: nat, j: nat)
    ensures Stars(i) == Stars(j) <==> i == j
  {
    if i > 0 && j > 0 {
      StarsDiffer(i - 1, j - 1);
    }
  }

  lemma StarChildren(keys: set<Route>, k: nat, j: nat, level: string)
    requires OnlyStars(keys, k) && j <= k
    ensures Stars(j) in keys
    ensures Step(Stars(j), level) in keys <==> level == STAR && j < k
  {
    var next := Step(Stars(j), level);
    StarsLead(j, k);
    if next in keys {
      var i := StarRoute(k, next);
      StarsDiffer(i - 1, j);
    }
    if level == STAR && j < k {
      assert next == Stars(j + 1);
      StarsLead(j + 1, k);
    }
  }

  /** With `left` more `*` levels below and `n` topic levels to go, none of them
      literally `*`, the search is entered C(n + left + 1, left) times. */
  lemma {:induction false} StarLookupCost(keys: set<Route>, k: nat, left: nat, topic: Path)
    requires OnlyStars(keys, k) && left <= k && STAR !in topic
    requires Stars(k - left) in keys
    ensures Calls(keys, Stars(k - left), topic) == Choose(|topic| + left + 1, left)
    decreases left, |topic| + 1
  {
    var here := Stars(k - left);
    StarChildren(keys, k, k - left, PLUS);
    StarChildren(keys, k, k - left, STAR);
    if topic != [] {
      assert topic[0] in topic;
      StarChildren(keys, k, k - left, topic[0]);
    }
    if left == 0 {
      NoStarCalls(keys, here, topic);
    } else {
      StarSum(keys, k, left, topic);
    }
  }

  /** The hockey-stick sum over the suffixes of the topic. */
  lemma {:induction false} StarSum(keys: set<Route>, k: nat, left: nat, topic: Path)
    requires OnlyStars(keys, k) && 0 < left <= k && STAR !in topic
    requires Stars(k - left) in keys
    ensures 1 + StarCalls(keys, Stars(k - left), topic) == Choose(|topic| + left + 1, left)
    decreases left, |topic|
  {
    StarChildren(keys, k, k - left, STAR);
    assert Step(Stars(k - left), STAR) == Stars(k - (left - 1));
    StarLookupCost(keys, k, left - 1, topic);
    if topic == [] {
      ChooseAll(left);
    } else {
      StarSum(keys, k, left, topic[1..]);
    }
  }

  lemma {:induction false} StarsLevels(k: nat)
    ensures Stars(k).Levels() == seq(k, _ => STAR)
  {
    if k > 0 {
      StarsLevels(k - 1);
    }
  }
}
