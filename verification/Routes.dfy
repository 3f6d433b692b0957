/** Routes from the root of a trie to its nodes, built level by level from the
    root, and the subscriptions kept at their ends. */
module Routes {
  import opened Subscriptions

  datatype Route = Root | Step(parent: Route, level: string) {
    ghost function Levels(): Path {
      match this
      case Root => []
      case Step(parent, level) => parent.Levels() + [level]
    }

    /** `target` is this route or a continuation of it. */
    ghost predicate LeadsTo(target: Route) {
      this == target || (target.Step? && LeadsTo(target.parent))
    }
  }

  /** The route spelled by the first `n` levels. */
  ghost function RouteTo(levels: Path, n: nat): Route
    requires n <= |levels|
  {
    if n == 0 then Root else Step(RouteTo(levels, n - 1), levels[n - 1])
  }

  ghost function RouteOf(levels: Path): Route {
    RouteTo(levels, |levels|)
  }

  lemma {:induction false} RouteToLevels(levels: Path, n: nat)
    requires n <= |levels|
    ensures RouteTo(levels, n).Levels() == levels[..n]
  {
    if n > 0 {
      RouteToLevels(levels, n - 1);
      assert levels[..n] == levels[..n - 1] + [levels[n - 1]];
    }
  }

  lemma RouteOfLevels(levels: Path)
    ensures RouteOf(levels).Levels() == levels
  {
    RouteToLevels(levels, |levels|);
    assert levels[..|levels|] == levels;
  }

  lemma {:induction false} LevelsInjective(q: Route, r: Route)
    requires q.Levels() == r.Levels()
    ensures q == r
  {
    if q.Step? && r.Step? {
      assert q.parent.Levels() == q.Levels()[..|q.Levels()| - 1];
      assert r.parent.Levels() == r.Levels()[..|r.Levels()| - 1];
      LevelsInjective(q.parent, r.parent);
    }
  }

  lemma {:induction false} LeadsToIsPrefix(q: Route, r: Route)
    ensures q.LeadsTo(r) <==> q.Levels() <= r.Levels()
  {
    if q.Levels() == r.Levels() {
      LevelsInjective(q, r);
    } else if r.Step? {
      LeadsToIsPrefix(q, r.parent);
      assert r.Levels()[..|r.parent.Levels()|] == r.parent.Levels();
    }
  }

  lemma {:induction false} LeadsToTransitive(p: Route, q: Route, r: Route)
    requires p.LeadsTo(q) && q.LeadsTo(r)
    ensures p.LeadsTo(r)
  {
    if q != r {
      LeadsToTransitive(p, q, r.parent);
    }
  }

  /** A client id kept at the end of a route. */
  datatype Entry = Entry(route: Route, client: string)

  ghost function SubscriptionsOf(held: set<Entry>): set<Subscription> {
    set e | e in held :: Subscription(e.route.Levels(), e.client)
  }

  lemma SubscriptionsOfIff(held: set<Entry>, route: Route, client: string)
    ensures Subscription(route.Levels(), client) in SubscriptionsOf(held) <==> Entry(route, client) in held
  {
    if Subscription(route.Levels(), client) in SubscriptionsOf(held) {
      var e :| e in held && e.route.Levels() == route.Levels() && e.client == client;
      LevelsInjective(e.route, route);
    }
  }

  lemma SubscriptionsOfAdd(held: set<Entry>, e: Entry)
    ensures SubscriptionsOf(held + {e})
         == SubscriptionsOf(held) + {Subscription(e.route.Levels(), e.client)}
  {
  }

  lemma SubscriptionsOfRemove(held: set<Entry>, e: Entry)
    ensures SubscriptionsOf(held - {e})
         == SubscriptionsOf(held) - {Subscription(e.route.Levels(), e.client)}
  {
    forall f | f in held && f != e
      ensures Subscription(f.route.Levels(), f.client) != Subscription(e.route.Levels(), e.client)
    {
      if f.route.Levels() == e.route.Levels() {
        LevelsInjective(f.route, e.route);
      }
    }
  }

  /** `route` leads to some entry; the root always counts. */
  ghost predicate Wanted(held: set<Entry>, route: Route) {
    route == Root || exists e :: e in held && route.LeadsTo(e.route)
  }

  lemma WantedIsNeeded(held: set<Entry>, route: Route)
    ensures Wanted(held, route) <==> Needed(SubscriptionsOf(held), route.Levels())
  {
    if e :| e in held && route.LeadsTo(e.route) {
      LeadsToIsPrefix(route, e.route);
      assert Subscription(e.route.Levels(), e.client) in SubscriptionsOf(held);
    }
    if route != Root && Needed(SubscriptionsOf(held), route.Levels()) {
      var e :| e in held && route.Levels() <= e.route.Levels();
      LeadsToIsPrefix(route, e.route);
    }
  }

  /** The routes in `keys` are exactly the wanted ones and those on the way to `route`. */
  ghost predicate Tidy(keys: set<Route>, held: set<Entry>, route: Route) {
    forall r :: r in keys <==> Wanted(held, r) || r.LeadsTo(route)
  }

  lemma TidyGrow(keys: set<Route>, held: set<Entry>, route: Route, level: string)
    requires Tidy(keys, held, route)
    ensures Tidy(keys + {Step(route, level)}, held, Step(route, level))
  {
  }

  lemma TidyEnlist(keys: set<Route>, held: set<Entry>, route: Route, client: string)
    requires Tidy(keys, held, route)
    ensures Tidy(keys, held + {Entry(route, client)}, Root)
  {
  }

  ghost predicate Closed(keys: set<Route>) {
    forall p, k :: Step(p, k) in keys ==> p in keys
  }

  lemma {:induction false} ClosedUp(keys: set<Route>, q: Route, r: Route)
    requires Closed(keys) && r in keys && q.LeadsTo(r)
    ensures q in keys
  {
    if q != r {
      assert r == Step(r.parent, r.level);
      ClosedUp(keys, q, r.parent);
    }
  }

  /** Nothing lies beyond a route without a next level. */
  lemma {:induction false} NothingBeyond(keys: set<Route>, leaf: Route, q: Route)
    requires Closed(keys) && q in keys && leaf.LeadsTo(q)
    requires forall k :: Step(leaf, k) !in keys
    ensures q == leaf
  {
    if q != leaf {
      assert q == Step(q.parent, q.level);
      NothingBeyond(keys, leaf, q.parent);
    }
  }

  lemma {:induction false} RouteToLeadsTo(levels: Path, m: nat, n: nat)
    requires m <= n <= |levels|
    ensures RouteTo(levels, m).LeadsTo(RouteTo(levels, n))
  {
    if m < n {
      RouteToLeadsTo(levels, m, n - 1);
    }
  }

  lemma {:induction false} NoCycle(r: Route, level: string)
    ensures !Step(r, level).LeadsTo(r)
  {
    LeadsToIsPrefix(Step(r, level), r);
  }

  lemma TidyDelist(keys: set<Route>, held: set<Entry>, route: Route, client: string)
    requires Tidy(keys, held, Root) && Closed(keys) && route in keys
    ensures Tidy(keys, held - {Entry(route, client)}, route)
  {
    var fewer := held - {Entry(route, client)};
    forall r
      ensures r in keys <==> Wanted(fewer, r) || r.LeadsTo(route)
    {
      if r.LeadsTo(route) {
        ClosedUp(keys, r, route);
      } else if e :| e in held && r.LeadsTo(e.route) {
        assert e in fewer;
      }
    }
  }

  /** What is on the way to a wanted route is wanted. */
  lemma TidyRelax(keys: set<Route>, held: set<Entry>, route: Route)
    requires Tidy(keys, held, route) && Wanted(held, route)
    ensures Tidy(keys, held, Root)
  {
    forall r: Route | r.LeadsTo(route)
      ensures Wanted(held, r)
    {
      if e :| e in held && route.LeadsTo(e.route) {
        LeadsToTransitive(r, route, e.route);
      }
    }
  }

  /** A route with a next level is wanted, because that next level is. */
  lemma TidyRelaxBelow(keys: set<Route>, held: set<Entry>, route: Route, level: string)
    requires Tidy(keys, held, route) && Step(route, level) in keys
    ensures Tidy(keys, held, Root)
  {
    NoCycle(route, level);
    var e :| e in held && Step(route, level).LeadsTo(e.route);
    assert route.LeadsTo(Step(route, level));
    LeadsToTransitive(route, Step(route, level), e.route);
    TidyRelax(keys, held, route);
  }

  lemma TidyPrune(keys: set<Route>, held: set<Entry>, route: Route, level: string)
    requires Tidy(keys, held, Step(route, level)) && Closed(keys)
    requires forall k :: Step(Step(route, level), k) !in keys
    requires forall e :: e in held ==> e.route in keys && e.route != Step(route, level)
    ensures Tidy(keys - {Step(route, level)}, held, route)
  {
    var leaf := Step(route, level);
    forall e | e in held && leaf.LeadsTo(e.route)
      ensures false
    {
      NothingBeyond(keys, leaf, e.route);
    }
    NoCycle(route, level);
  }

  /** The routes of `keys` at or below `route`. */
  ghost function Under(keys: set<Route>, route: Route): set<Route> {
    set q | q in keys && route.LeadsTo(q)
  }

  /** The routes of `keys` below `route` through one of `levels`. */
  ghost function UnderAny(keys: set<Route>, route: Route, levels: set<string>): set<Route> {
    set q, k | q in keys && k in levels && Step(route, k).LeadsTo(q) :: q
  }

  lemma UnderAnyAdd(keys: set<Route>, route: Route, levels: set<string>, level: string)
    ensures UnderAny(keys, route, levels + {level})
         == UnderAny(keys, route, levels) + Under(keys, Step(route, level))
  {
  }

  /** Different children have nothing below them in common, and neither has their parent. */
  lemma {:induction false} SiblingsApart(route: Route, j: string, k: string, q: Route)
    requires Step(route, j).LeadsTo(q)
    ensures q != route
    ensures Step(route, k).LeadsTo(q) ==> j == k
  {
    NoCycle(route, j);
    if q != Step(route, j) && q != Step(route, k) {
      SiblingsApart(route, j, k, q.parent);
    } else if q == Step(route, j) {
      NoCycle(route, k);
    }
  }

  lemma {:induction false} UnderByChildren(keys: set<Route>, route: Route, levels: set<string>, q: Route)
    requires Closed(keys) && q in keys && route.LeadsTo(q)
    requires forall k :: k in levels <==> Step(route, k) in keys
    ensures q == route || q in UnderAny(keys, route, levels)
  {
    if q != route {
      assert q == Step(q.parent, q.level);
      UnderByChildren(keys, route, levels, q.parent);
      if q.parent != route {
        var k :| k in levels && Step(route, k).LeadsTo(q.parent);
        assert Step(route, k).LeadsTo(q);
      }
    }
  }

  lemma UnderIsChildren(keys: set<Route>, route: Route, levels: set<string>)
    requires Closed(keys) && route in keys
    requires forall k :: k in levels <==> Step(route, k) in keys
    ensures Under(keys, route) == {route} + UnderAny(keys, route, levels)
  {
    forall q | q in Under(keys, route) {
      UnderByChildren(keys, route, levels, q);
    }
    forall q, k | q in keys && k in levels && Step(route, k).LeadsTo(q)
      ensures route.LeadsTo(q)
    {
      LeadsToTransitive(route, Step(route, k), q);
    }
  }

  lemma UnderShrinks(keys: set<Route>, route: Route, level: string)
    requires route in keys
    ensures Under(keys, Step(route, level)) < Under(keys, route)
  {
    NoCycle(route, level);
    forall q | Step(route, level).LeadsTo(q)
      ensures route.LeadsTo(q)
    {
      LeadsToTransitive(route, Step(route, level), q);
    }
    assert route in Under(keys, route);
  }

  /** A set and its image under an injective function have the same size. */
  lemma {:induction false} ImageSize<A, B>(a: set<A>, b: set<B>, f: A -> B)
    requires forall x, y :: x in a && y in a && f(x) == f(y) ==> x == y
    requires forall x :: x in a ==> f(x) in b
    requires forall y :: y in b ==> exists x :: x in a && f(x) == y
    ensures |a| == |b|
  {
    if x :| x in a {
      ImageSize(a - {x}, b - {f(x)}, f);
    }
  }

  lemma LevelsImage(keys: set<Route>, paths: set<Path>)
    requires forall r: Route :: r in keys <==> r.Levels() in paths
    ensures |keys| == |paths|
  {
    forall q: Route, r: Route | q.Levels() == r.Levels()
      ensures q == r
    {
      LevelsInjective(q, r);
    }
    forall p | p in paths
      ensures RouteOf(p) in keys && RouteOf(p).Levels() == p
    {
      RouteOfLevels(p);
    }
    ImageSize(keys, paths, (r: Route) => r.Levels());
  }
}
