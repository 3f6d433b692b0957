/** The heap-allocated topic trie: insertion, pruning removal and backtracking
    lookup, each proved against the set of subscriptions the trie stands for. */
module Trie {
  import opened Patterns
  import opened Subscriptions
  import opened Backtracking
  import opened LookupCost
  import opened Routes
  import Topics

  class TopicTrieNode {
    var children: map<string, TopicTrieNode>
    var subscriberIds: set<string>
    // The way from the root to this node; a node never moves.
    ghost const route: Route

    constructor (ghost route: Route)
      ensures children == map[] && subscriberIds == {} && this.route == route
    {
      children, subscriberIds, this.route := map[], {}, route;
    }
  }

  /** A set of client ids that lookup fills by reference. */
  class IdSet {
    var ids: set<string>

    constructor ()
      ensures ids == {}
    {
      ids := {};
    }
  }

  class TopicTrie {
    const root: TopicTrieNode
    // The node at each route, the nodes in use, and the entries stored.
    ghost var at: map<Route, TopicTrieNode>
    ghost var nodes: set<TopicTrieNode>
    ghost var held: set<Entry>
    // How many nodes `new` has made, and those `delete` has given back.
    ghost var created: nat
    ghost var deleted: set<TopicTrieNode>
    // How often `CollectMatchesRecursive` has been entered.
    ghost var entries: nat

    /** The node at `r` has exactly the children at the routes one level below it. */
    ghost predicate Placed(r: Route)
      requires r in at && at[r] in nodes
      reads `at, `nodes, nodes
    {
      && at[r].route == r
      && (forall k :: k in at[r].children <==> Step(r, k) in at)
      && (forall k :: k in at[r].children ==> at[r].children[k] == at[Step(r, k)])
    }

    /** The nodes form a tree hanging from the root, one node per route. */
    ghost predicate Linked()
      reads `at, `nodes, nodes
    {
      && (forall r :: r in at ==> at[r] in nodes)
      && (forall r :: r in at ==> Placed(r))
      && Closed(at.Keys)
    }

    /** The id sets of the nodes hold exactly the entries. */
    ghost predicate Stored()
      reads `at, `nodes, `held, nodes
    {
      && (forall e :: e in held ==> e.route in at)
      && (forall r, id :: r in at && at[r] in nodes ==>
            (id in at[r].subscriberIds <==> Entry(r, id) in held))
    }

    /** Every node in use has a place and is not deleted, and the heap operations balance. */
    ghost predicate Accounted()
      reads `at, `nodes, `created, `deleted, nodes
    {
      && (forall n :: n in nodes ==> n.route in at && at[n.route] == n)
      && nodes !! deleted
      && created == |deleted| + |nodes|
    }

    ghost predicate Sound()
      reads `at, `nodes, `held, `created, `deleted, nodes
    {
      Root in at && at[Root] == root && root in nodes && Linked() && Stored() && Accounted()
    }

    /** Sound, and every node but the root has a subscriber at or below it. */
    ghost predicate Valid()
      reads `at, `nodes, `held, `created, `deleted, nodes
    {
      Sound() && Tidy(at.Keys, held, Root)
    }

    /** The subscriptions the trie stands for. */
    ghost function Subs(): set<Subscription>
      reads `held
    {
      SubscriptionsOf(held)
    }

    constructor ()
      ensures Valid() && Subs() == {} && fresh(nodes) && created == 1 && deleted == {}
    {
      root := new TopicTrieNode(Root);
      new;
      at, nodes, held := map[Root := root], {root}, {};
      created, deleted, entries := 1, {}, 0;
    }

    /** Makes a node and hangs it under a level that had none. */
    method Sprout(current: TopicTrieNode, ghost route: Route, token: string) returns (node: TopicTrieNode)
      requires Linked() && route in at && current == at[route] && token !in current.children
      modifies this`at, this`nodes, this`created, current`children
      ensures Linked() && fresh(node) && node.subscriberIds == {} && node.route == Step(route, token)
      ensures at == old(at)[Step(route, token) := node]
      ensures nodes == old(nodes) + {node} && created == old(created) + 1
    {
      node := new TopicTrieNode(Step(route, token));
      current.children := current.children[token := node];
      at, nodes := at[Step(route, token) := node], nodes + {node};
      created := created + 1;
      forall r | r in at
        ensures at[r] in nodes && Placed(r)
      {
        assert r in old(at) ==> old(Placed(r));
      }
    }

    /** The body of the insertion loop: step to the child, creating it when missing. */
    method Descend(current: TopicTrieNode, ghost route: Route, token: string) returns (child: TopicTrieNode)
      requires Sound() && route in at && current == at[route]
      modifies this`at, this`nodes, this`created, current`children
      ensures Sound() && fresh(nodes - old(nodes))
      ensures at.Keys == old(at.Keys) + {Step(route, token)} && child == at[Step(route, token)]
      ensures child in nodes && forall r :: r in old(at) ==> r in at && at[r] == old(at[r])
    {
      hide Placed, Closed;
      Surroundings(route);
      if token !in current.children {
        child := Sprout(current, route, token);
      } else {
        child := current.children[token];
      }
    }

    /** Adds a client to the subscribers of a node's own pattern. */
    method Enlist(current: TopicTrieNode, ghost route: Route, clientId: string)
      requires Sound() && route in at && current == at[route]
      modifies this`held, current`subscriberIds
      ensures Sound() && held == old(held) + {Entry(route, clientId)}
    {
      hide Tidy, Closed, Route.Levels;
      current.subscriberIds := current.subscriberIds + {clientId};
      held := held + {Entry(route, clientId)};
      forall r | r in at
        ensures Placed(r)
      {
        assert old(Placed(r));
      }
    }

    /** The insertion loop: walk down the levels, creating what is missing. */
    method Walk(tokens: seq<string>) returns (current: TopicTrieNode)
      requires Valid()
      modifies this`at, this`nodes, this`created, nodes`children
      ensures Sound() && fresh(nodes - old(nodes))
      ensures RouteOf(tokens) in at && current == at[RouteOf(tokens)] && current in nodes
      ensures Tidy(at.Keys, held, RouteOf(tokens))
      ensures forall r :: r in old(at) ==> r in at && at[r] == old(at[r])
    {
      hide Linked, Stored, Accounted, Tidy;
      current := root;
      for i := 0 to |tokens|
        invariant Sound() && fresh(nodes - old(nodes))
        invariant RouteTo(tokens, i) in at && current == at[RouteTo(tokens, i)] && current in nodes
        invariant Tidy(at.Keys, held, RouteTo(tokens, i))
        invariant forall r :: r in old(at) ==> r in at && at[r] == old(at[r])
      {
        TidyGrow(at.Keys, held, RouteTo(tokens, i), tokens[i]);
        current := Descend(current, RouteTo(tokens, i), tokens[i]);
      }
    }

    method AddSubscription(pattern: string, clientId: string)
      requires Valid()
      modifies this`at, this`nodes, this`held, this`created, nodes
      ensures Valid() && fresh(nodes - old(nodes))
      ensures Subs() == old(Subs()) + {Subscription(Topics.Split(pattern), clientId)}
      ensures forall r :: r in old(at) ==> r in at && at[r] == old(at[r])
    {
      hide Linked, Stored, Accounted, Tidy, SubscriptionsOf;
      var tokens := Topics.SplitTopic(pattern);
      var current := Walk(tokens);
      TidyEnlist(at.Keys, held, RouteOf(tokens), clientId);
      Enlist(current, RouteOf(tokens), clientId);
      SubscriptionsOfAdd(old(held), Entry(RouteOf(tokens), clientId));
      RouteOfLevels(tokens);
    }

    /** The nodes at some of the routes. */
    ghost function NodesAt(routes: set<Route>): set<TopicTrieNode>
      requires routes <= at.Keys
      reads `at
    {
      set r | r in routes :: at[r]
    }

    /** Different routes have different nodes. */
    lemma NodesApart(a: set<Route>, b: set<Route>)
      requires Linked() && a <= at.Keys && b <= at.Keys && a !! b
      ensures NodesAt(a) !! NodesAt(b)
    {
      forall r | r in at
        ensures at[r].route == r
      {
        assert Placed(r);
      }
    }

    lemma NodesTogether(a: set<Route>, b: set<Route>)
      requires a <= at.Keys && b <= at.Keys
      ensures NodesAt(a + b) == NodesAt(a) + NodesAt(b)
    {
    }

    /** Gives one node back to the allocator. Giving it back twice breaks the precondition. */
    method Free(node: TopicTrieNode)
      requires node !in deleted
      modifies this`deleted
      ensures deleted == old(deleted) + {node}
    {
      deleted := deleted + {node};
    }

    /** `delete` of a node: its destructor deletes everything below it first. */
    method Destroy(node: TopicTrieNode, ghost route: Route)
      requires Linked() && route in at && node == at[route]
      requires NodesAt(Under(at.Keys, route)) !! deleted
      modifies this`deleted
      ensures deleted == old(deleted) + NodesAt(Under(at.Keys, route))
      decreases Under(at.Keys, route)
    {
      hide NodesAt, UnderAny, Under, Closed;
      assert Placed(route);
      var rest := node.children.Keys;
      ghost var visited := {};
      UnderParts(route, node.children.Keys);
      NoneVisited(route);
      while rest != {}
        invariant rest + visited == node.children.Keys && rest !! visited
        invariant UnderAny(at.Keys, route, visited) <= at.Keys
        invariant deleted == old(deleted) + NodesAt(UnderAny(at.Keys, route, visited))
      {
        var k :| k in rest;
        UnderNext(route, k, visited, node.children.Keys);
        Destroy(node.children[k], Step(route, k));
        rest, visited := rest - {k}, visited + {k};
      }
      Free(node);
    }

    /** The node itself is the one thing at or below its route that its children are not. */
    lemma UnderParts(route: Route, levels: set<string>)
      requires Linked() && route in at && forall k :: k in levels <==> Step(route, k) in at
      ensures Under(at.Keys, route) <= at.Keys && UnderAny(at.Keys, route, levels) <= at.Keys
      ensures NodesAt(Under(at.Keys, route)) == NodesAt(UnderAny(at.Keys, route, levels)) + {at[route]}
      ensures at[route] !in NodesAt(UnderAny(at.Keys, route, levels))
    {
      UnderIsChildren(at.Keys, route, levels);
      NodesTogether(UnderAny(at.Keys, route, levels), {route});
      forall q, k | k in levels && Step(route, k).LeadsTo(q)
        ensures q != route
      {
        SiblingsApart(route, k, k, q);
      }
      NodesApart(UnderAny(at.Keys, route, levels), {route});
      assert NodesAt({route}) == {at[route]};
    }

    lemma NoneVisited(route: Route)
      ensures UnderAny(at.Keys, route, {}) == {} && NodesAt({}) == {}
    {
    }

    /** The next child's nodes are new to what has been visited, and are part of all there is. */
    lemma UnderNext(route: Route, k: string, visited: set<string>, levels: set<string>)
      requires Linked() && route in at && k in levels - visited && visited <= levels
      requires forall j :: j in levels <==> Step(route, j) in at
      ensures Under(at.Keys, Step(route, k)) <= at.Keys && Under(at.Keys, Step(route, k)) < Under(at.Keys, route)
      ensures UnderAny(at.Keys, route, visited) <= at.Keys && UnderAny(at.Keys, route, levels) <= at.Keys
      ensures UnderAny(at.Keys, route, visited + {k}) <= at.Keys
      ensures NodesAt(UnderAny(at.Keys, route, visited + {k}))
           == NodesAt(UnderAny(at.Keys, route, visited)) + NodesAt(Under(at.Keys, Step(route, k)))
      ensures NodesAt(Under(at.Keys, Step(route, k))) !! NodesAt(UnderAny(at.Keys, route, visited))
      ensures NodesAt(Under(at.Keys, Step(route, k))) <= NodesAt(UnderAny(at.Keys, route, levels))
    {
      UnderShrinks(at.Keys, route, k);
      UnderAnyAdd(at.Keys, route, visited, k);
      forall q, j | j in visited && Step(route, j).LeadsTo(q)
        ensures !Step(route, k).LeadsTo(q)
      {
        SiblingsApart(route, j, k, q);
      }
      NodesTogether(UnderAny(at.Keys, route, visited), Under(at.Keys, Step(route, k)));
      NodesApart(UnderAny(at.Keys, route, visited), Under(at.Keys, Step(route, k)));
    }

    /** Takes a childless node out of its parent's children and out of the picture. */
    method Unlink(node: TopicTrieNode, ghost route: Route, token: string)
      requires Linked() && route in at && node == at[route] && token in node.children
      requires node.children[token].children == map[]
      modifies this`at, this`nodes, node`children
      ensures Linked() && at == old(at) - {Step(route, token)}
      ensures nodes == old(nodes) - {old(at)[Step(route, token)]}
      ensures node.children == old(node.children) - {token}
    {
      assert Placed(route) && Placed(Step(route, token));
      ghost var child := node.children[token];
      node.children := node.children - {token};
      at, nodes := at - {Step(route, token)}, nodes - {child};
      forall r | r in at
        ensures at[r] in nodes && Placed(r)
      {
        assert old(Placed(r));
      }
    }

    /** Deletes a node that is alone below its parent's level, and takes it out. */
    method Detach(node: TopicTrieNode, ghost route: Route, token: string)
      requires Linked() && route in at && node == at[route] && token in node.children
      requires node.children[token].children == map[] && node.children[token] !in deleted
      requires Under(at.Keys, Step(route, token)) == {Step(route, token)}
      modifies this`at, this`nodes, this`deleted, node`children
      ensures Linked() && at == old(at) - {Step(route, token)}
      ensures nodes == old(nodes) - {old(node.children[token])}
      ensures deleted == old(deleted) + {old(node.children[token])}
      ensures node.children == old(node.children) - {token}
    {
      assert Placed(route);
      assert NodesAt({Step(route, token)}) == {node.children[token]};
      Destroy(node.children[token], Step(route, token));
      Unlink(node, route, token);
    }

    /** Deletes a child in which nothing is left, then forgets it. */
    method Prune(node: TopicTrieNode, ghost route: Route, token: string)
      requires Sound() && Step(route, token) in at && route in at && node == at[route]
      requires at[Step(route, token)].children == map[] && at[Step(route, token)].subscriberIds == {}
      requires Tidy(at.Keys, held, Step(route, token))
      modifies this`at, this`nodes, this`deleted, node`children
      ensures Sound() && Tidy(at.Keys, held, route)
      ensures at == old(at) - {Step(route, token)}
      ensures nodes == old(nodes) - {old(at)[Step(route, token)]}
      ensures deleted == old(deleted) + {old(at)[Step(route, token)]}
      ensures nodes <= old(nodes) && nodes + deleted == old(nodes + deleted)
      ensures node in nodes && node.children == old(node.children) - {token}
    {
      hide Tidy, Linked, Placed, Under, NodesAt;
      BareLeaf(route, token);
      Detach(node, route, token);
      assert at.Keys == old(at.Keys) - {Step(route, token)};
    }

    /** A node without children or subscribers is alone and holds no entry up. */
    lemma BareLeaf(route: Route, token: string)
      requires Sound() && route in at && Step(route, token) in at
      requires at[Step(route, token)].children == map[] && at[Step(route, token)].subscriberIds == {}
      requires Tidy(at.Keys, held, Step(route, token))
      ensures token in at[route].children && at[route].children[token] == at[Step(route, token)]
      ensures at[route] in nodes && at[Step(route, token)] in nodes
      ensures at[Step(route, token)] != at[route] && at[Step(route, token)] != root
      ensures at[Step(route, token)] !in deleted
      ensures Under(at.Keys, Step(route, token)) == {Step(route, token)}
      ensures forall e :: e in held ==> e.route != Step(route, token)
      ensures Tidy(at.Keys - {Step(route, token)}, held, route)
    {
      hide Tidy;
      var leaf := Step(route, token);
      assert Placed(route) && Placed(leaf);
      assert forall k :: Step(leaf, k) !in at.Keys;
      UnderIsChildren(at.Keys, leaf, {});
      assert UnderAny(at.Keys, leaf, {}) == {};
      forall e | e in held
        ensures e.route in at.Keys && e.route != leaf
      {
        assert Entry(leaf, e.client) !in held;
      }
      TidyPrune(at.Keys, held, route, token);
    }

    /** Drops a client from the subscribers of a node's own pattern; the node, and what is
        on the way to it, may then be unwanted. */
    method Delist(node: TopicTrieNode, ghost route: Route, clientId: string)
      requires Sound() && Tidy(at.Keys, held, Root) && route in at && node == at[route]
      modifies this`held, node`subscriberIds
      ensures Sound() && Tidy(at.Keys, held, route)
      ensures held == old(held) - {Entry(route, clientId)}
      ensures node.subscriberIds == old(node.subscriberIds) - {clientId}
    {
      hide Tidy, Route.Levels;
      TidyDelist(at.Keys, held, route, clientId);
      node.subscriberIds := node.subscriberIds - {clientId};
      held := held - {Entry(route, clientId)};
      forall r | r in at
        ensures Placed(r)
      {
        assert old(Placed(r));
      }
    }

    /** A node with a child or a subscriber is wanted, and with it all on its way. */
    lemma StillWanted(route: Route)
      requires Sound() && route in at && Tidy(at.Keys, held, route)
      ensures at[route].children != map[] || at[route].subscriberIds != {} ==> Tidy(at.Keys, held, Root)
    {
      hide Tidy;
      assert Placed(route);
      if k :| k in at[route].children {
        TidyRelaxBelow(at.Keys, held, route, k);
      } else if id :| id in at[route].subscriberIds {
        assert Entry(route, id) in held;
        TidyRelax(at.Keys, held, route);
      }
    }

    /** What `Linked` says of a node and its children. */
    lemma Surroundings(route: Route)
      requires Sound() && route in at
      ensures at[route] in nodes && (route.Step? ==> route.parent in at && at[route.parent] in nodes)
      ensures forall k :: k in at[route].children <==> Step(route, k) in at
      ensures forall k :: k in at[route].children ==>
        at[route].children[k] == at[Step(route, k)] && at[Step(route, k)] in nodes && at[Step(route, k)] != at[route]
    {
      assert Placed(route);
      forall k | k in at[route].children
        ensures at[Step(route, k)] != at[route]
      {
        assert Placed(Step(route, k));
      }
    }

    /** Where the way down stops, nothing is held further down. */
    lemma NothingHeld(tokens: seq<string>, index: nat, clientId: string)
      requires Sound() && index <= |tokens| && RouteTo(tokens, index) !in at
      ensures Entry(RouteOf(tokens), clientId) !in held
    {
      RouteToLeadsTo(tokens, index, |tokens|);
      if RouteOf(tokens) in at {
        ClosedUp(at.Keys, RouteTo(tokens, index), RouteOf(tokens));
      }
    }

    /** Removes the entry at the end of `tokens` and prunes upwards. The result tells
        the caller to prune this node too: it is bare, and only nodes on its own way
        can be unwanted. */
    method RemoveRecursive(node: TopicTrieNode, tokens: seq<string>, index: nat, clientId: string)
      returns (prune: bool)
      requires Valid() && index <= |tokens|
      requires RouteTo(tokens, index) in at && node == at[RouteTo(tokens, index)]
      modifies this`at, this`nodes, this`held, this`deleted, nodes
      ensures Sound() && held == old(held) - {Entry(RouteOf(tokens), clientId)}
      ensures at.Keys <= old(at.Keys) && forall r :: r in at ==> at[r] == old(at[r])
      ensures nodes <= old(nodes) && nodes + deleted == old(nodes + deleted)
      ensures RouteTo(tokens, index) in at && node in nodes
      ensures if prune then
                node.children == map[] && node.subscriberIds == {} && Tidy(at.Keys, held, RouteTo(tokens, index))
              else Tidy(at.Keys, held, Root)
      decreases |tokens| - index
    {
      hide Tidy, Sound, Linked, Stored, Accounted, Placed;
      ghost var route := RouteTo(tokens, index);
      Surroundings(route);
      if index == |tokens| {
        Delist(node, route, clientId);
        StillWanted(route);
        return node.subscriberIds == {} && node.children == map[];
      }
      if tokens[index] in node.children {
        prune := RemoveRecursive(node.children[tokens[index]], tokens, index + 1, clientId);
        Surroundings(RouteTo(tokens, index + 1));
        if prune {
          Prune(node, route, tokens[index]);
          StillWanted(route);
          return node.children == map[] && node.subscriberIds == {};
        }
      } else {
        NothingHeld(tokens, index + 1, clientId);
      }
      return false;
    }

    /** Whatever happened in between, a valid trie that holds the same entries in
        surviving nodes is untouched. */
    twostate lemma SameEntriesSameHeap()
      requires old(Valid()) && Valid() && held == old(held)
      requires forall r :: r in at ==> r in old(at) && at[r] == old(at[r])
      ensures at == old(at) && nodes == old(nodes)
      ensures forall n :: n in nodes ==> n.children == old(n.children) && n.subscriberIds == old(n.subscriberIds)
    {
      assert at.Keys == old(at.Keys);
      forall r | r in at
        ensures at[r].children == old(at[r].children) && at[r].subscriberIds == old(at[r].subscriberIds)
      {
        assert Placed(r) && old(Placed(r));
      }
    }

    method RemoveSubscription(pattern: string, clientId: string)
      requires Valid()
      modifies this`at, this`nodes, this`held, this`deleted, nodes
      ensures Valid() && nodes <= old(nodes) && deleted == old(deleted) + (old(nodes) - nodes)
      ensures Subs() == old(Subs()) - {Subscription(Topics.Split(pattern), clientId)}
      ensures forall r :: r in at ==> r in old(at) && at[r] == old(at[r])
      ensures Subscription(Topics.Split(pattern), clientId) !in old(Subs()) ==>
        && at == old(at) && nodes == old(nodes) && deleted == old(deleted)
        && forall n :: n in nodes ==> n.children == old(n.children) && n.subscriberIds == old(n.subscriberIds)
    {
      hide Linked, Stored, Tidy, SubscriptionsOf;
      assert nodes !! deleted;
      var tokens := Topics.SplitTopic(pattern);
      var prune := RemoveRecursive(root, tokens, 0, clientId);
      SubscriptionsOfRemove(old(held), Entry(RouteOf(tokens), clientId));
      RouteOfLevels(tokens);
      SubscriptionsOfIff(old(held), RouteOf(tokens), clientId);
      if Entry(RouteOf(tokens), clientId) !in old(held) {
        SameEntriesSameHeap();
      }
    }

    /** Continue the search in the child at `level`, if there is one. */
    method CollectChild(node: TopicTrieNode, ghost route: Route, level: string,
                        tokens: seq<string>, index: nat, results: IdSet)
      requires Valid() && route in at && node == at[route] && index <= |tokens|
      modifies this`entries, results
      ensures results.ids == old(results.ids) + FoundBelow(Subs(), Step(route, level).Levels(), tokens[index..])
      ensures entries == old(entries) + ChildCalls(at.Keys, route, level, tokens[index..])
      decreases Under(at.Keys, route), 0
    {
      hide Linked, Stored, Accounted, Tidy, FoundBelow, Calls, Under;
      Surroundings(route);
      if level in node.children {
        UnderShrinks(at.Keys, route, level);
        CollectMatchesRecursive(node.children[level], Step(route, level), tokens, index, results);
      } else {
        NoneBelow(Step(route, level));
        NothingFound(Subs(), Step(route, level).Levels(), tokens[index..]);
      }
    }

    /** No subscription lies at or below a route without a node. */
    lemma NoneBelow(route: Route)
      requires Valid() && route !in at
      ensures forall s :: s in Subs() ==> !(route.Levels() <= s.pattern)
    {
      forall e | e in held && route.Levels() <= e.route.Levels()
        ensures false
      {
        LeadsToIsPrefix(route, e.route);
        ClosedUp(at.Keys, route, e.route);
      }
    }

    /** All clients stored at `node`. */
    lemma IdsHere(route: Route)
      requires Valid() && route in at
      ensures at[route].subscriberIds == FoundHere(Subs(), route.Levels())
    {
      assert Placed(route);
      forall id {
        SubscriptionsOfIff(held, route, id);
      }
    }

    /** Adds to `results` every client whose pattern continues the way to `node` with
        something that matches the topic from `index` on. */
    method CollectMatchesRecursive(node: TopicTrieNode, ghost route: Route,
                                   tokens: seq<string>, index: nat, results: IdSet)
      requires Valid() && route in at && node == at[route] && index <= |tokens|
      modifies this`entries, results
      ensures results.ids == old(results.ids) + FoundBelow(Subs(), route.Levels(), tokens[index..])
      ensures entries == old(entries) + Calls(at.Keys, route, tokens[index..])
      decreases Under(at.Keys, route), 1
    {
      hide Linked, Stored, Accounted, Tidy, FoundBelow, FoundHere, FoundSkipping, Under, ChildCalls;
      entries := entries + 1;
      // Literal level, or the end of the topic.
      if index < |tokens| {
        CollectChild(node, route, tokens[index], tokens, index + 1, results);
      } else {
        IdsHere(route);
        results.ids := results.ids + node.subscriberIds;
      }
      // Single-level wildcard.
      if index < |tokens| {
        CollectChild(node, route, PLUS, tokens, index + 1, results);
      }
      CollectStar(node, route, tokens, index, results);
      FoundStep(Subs(), route.Levels(), tokens[index..]);
    }

    /** Multi-level wildcard: the `*` child is searched from every remaining index. */
    method CollectStar(node: TopicTrieNode, ghost route: Route, tokens: seq<string>, index: nat, results: IdSet)
      requires Valid() && route in at && node == at[route] && index <= |tokens|
      modifies this`entries, results
      ensures results.ids == old(results.ids)
                           + FoundSkipping(Subs(), route.Levels(), tokens[index..], |tokens| - index + 1)
      ensures entries == old(entries) + StarCalls(at.Keys, route, tokens[index..])
      decreases Under(at.Keys, route), 0
    {
      hide Linked, Stored, Accounted, Tidy, FoundBelow, FoundSkipping, Under, Calls, StarCalls;
      Surroundings(route);
      ghost var topic := tokens[index..];
      if STAR in node.children {
        ghost var child := Step(route, STAR);
        UnderShrinks(at.Keys, route, STAR);
        var i := index;
        NothingSkipped(Subs(), route.Levels(), topic, 0);
        while i <= |tokens|
          invariant index <= i <= |tokens| + 1
          invariant results.ids == old(results.ids) + FoundSkipping(Subs(), route.Levels(), topic, i - index)
          invariant entries + StarCallsFrom(at.Keys, route, tokens, i)
                 == old(entries) + StarCalls(at.Keys, route, topic)
        {
          CollectMatchesRecursive(node.children[STAR], child, tokens, i, results);
          FoundSkippingStep(Subs(), route.Levels(), topic, i - index);
          StarCallsStep(at.Keys, route, tokens, i);
          assert topic[i - index..] == tokens[i..];
          i := i + 1;
        }
      } else {
        NoneBelow(Step(route, STAR));
        NothingSkipped(Subs(), route.Levels(), topic, |topic| + 1);
        NoStarCalls(at.Keys, route, topic);
      }
    }

    /** The clients with a matching subscription, at the cost of as many entries of the
        search as `Calls` says. */
    method FindSubscribers(concreteTopic: string) returns (results: set<string>)
      requires Valid()
      modifies this`entries
      ensures results == Found(Subs(), Topics.Split(concreteTopic))
      ensures entries == old(entries) + Calls(at.Keys, Root, Topics.Split(concreteTopic))
    {
      var found := new IdSet();
      var tokens := Topics.SplitTopic(concreteTopic);
      CollectMatchesRecursive(root, Root, tokens, 0, found);
      FoundBelowRoot(Subs(), tokens);
      assert tokens[0..] == tokens;
      results := found.ids;
    }

    /** `~TopicTrie`: every node still in use is deleted exactly once. */
    method DestroyAll()
      requires Valid()
      modifies this`deleted
      ensures deleted == old(deleted) + nodes && |deleted| == created
    {
      forall r | r in at
        ensures Root.LeadsTo(r) && at[r] in nodes && at[r].route == r
      {
        LeadsToIsPrefix(Root, r);
        assert Placed(r);
      }
      assert Under(at.Keys, Root) == at.Keys && NodesAt(at.Keys) == nodes;
      Destroy(root, Root);
    }

    /** As many nodes are in use as there are routes. */
    lemma NodesAreRoutes()
      requires Sound()
      ensures |nodes| == |at.Keys|
    {
      forall r | r in at
        ensures at[r] in nodes && at[r].route == r
      {
        assert Placed(r);
      }
      ImageSize(nodes, at.Keys, (n: TopicTrieNode) => n.route);
    }

    /** The canonical form: which nodes exist, how they branch, whom they hold and
        how many there are is a function of the subscriptions alone. */
    lemma CanonicalForm()
      requires Valid()
      ensures forall r: Route :: r in at <==> r.Levels() in Prefixes(Subs())
      ensures forall r :: r in at ==>
        && at[r].subscriberIds == FoundHere(Subs(), r.Levels())
        && at[r].children.Keys == NextLevels(Subs(), r.Levels())
      ensures created - |deleted| == |Prefixes(Subs())|
    {
      forall r: Route
        ensures r in at <==> r.Levels() in Prefixes(Subs())
      {
        WantedIsNeeded(held, r);
        PrefixesAreNeeded(Subs(), r.Levels());
      }
      forall r | r in at
        ensures at[r].subscriberIds == FoundHere(Subs(), r.Levels())
        ensures at[r].children.Keys == NextLevels(Subs(), r.Levels())
      {
        IdsHere(r);
        assert Placed(r);
        forall k
          ensures k in at[r].children <==> k in NextLevels(Subs(), r.Levels())
        {
          NextLevelsArePrefixes(Subs(), r.Levels(), k);
          assert Step(r, k).Levels() == r.Levels() + [k];
        }
      }
      NodesAreRoutes();
      LevelsImage(at.Keys, Prefixes(Subs()));
    }
  }

  /** Two tries, or one trie at two times, that store the same subscriptions have the
      same nodes, branching and subscribers, whatever led to them. */
  lemma SameSubscriptionsSameTree(t: TopicTrie, u: TopicTrie)
    requires t.Valid() && u.Valid() && t.Subs() == u.Subs()
    ensures t.at.Keys == u.at.Keys
    ensures forall r :: r in t.at ==>
      && t.at[r].subscriberIds == u.at[r].subscriberIds
      && t.at[r].children.Keys == u.at[r].children.Keys
    ensures t.created - |t.deleted| == u.created - |u.deleted|
  {
    hide TopicTrie.Valid, FoundHere, NextLevels, Prefixes;
    t.CanonicalForm();
    u.CanonicalForm();
  }

  /** Adding a fresh subscription and removing it again restores the very same tree, in
      the same node objects; every node made on the way is deleted again. */
  method AddThenRemove(t: TopicTrie, pattern: string, clientId: string)
    requires t.Valid() && Subscription(Topics.Split(pattern), clientId) !in t.Subs()
    modifies t, t.nodes
    ensures t.Valid() && t.Subs() == old(t.Subs())
    ensures t.at == old(t.at) && t.nodes == old(t.nodes)
    ensures t.created - |t.deleted| == old(t.created - |t.deleted|) && old(t.deleted) <= t.deleted
    ensures forall r :: r in t.at ==>
      && t.at[r].subscriberIds == old(t.at[r].subscriberIds)
      && t.at[r].children == old(t.at[r].children)
  {
    hide TopicTrie.Valid, FoundHere, NextLevels, Prefixes;
    t.CanonicalForm();
    t.AddSubscription(pattern, clientId);
    t.RemoveSubscription(pattern, clientId);
    t.CanonicalForm();
    SameNodesSameHeap(t);
  }

  /** A valid trie whose nodes are where they were has the same children links. */
  twostate lemma SameNodesSameHeap(t: TopicTrie)
    requires old(t.Valid()) && t.Valid() && t.at == old(t.at)
    ensures t.nodes == old(t.nodes)
    ensures forall r :: r in t.at ==> t.at[r].children == old(t.at[r].children)
  {
    forall r | r in t.at
      ensures t.at[r].children == old(t.at[r].children) && t.at[r] in t.nodes && t.at[r] in old(t.nodes)
    {
      assert t.Placed(r) && old(t.Placed(r));
    }
  }

  /** A lookup costs C(n + k + 1, k) entries on the pattern of `k` levels `*` and a
      topic of `n` levels none of which is literally `*`. */
  lemma StarPatternLookupCost(t: TopicTrie, k: nat, client: string, topic: Path)
    requires t.Valid() && t.Subs() == {Subscription(seq(k, _ => STAR), client)}
    requires STAR !in topic
    ensures Calls(t.at.Keys, Root, topic) == Choose(|topic| + k + 1, k)
  {
    hide TopicTrie.Valid;
    StarsLevels(k);
    t.CanonicalForm();
    forall r: Route
      ensures r in t.at.Keys <==> r.LeadsTo(Stars(k))
    {
      PrefixesAreNeeded(t.Subs(), r.Levels());
      LeadsToIsPrefix(r, Stars(k));
    }
    StarLookupCost(t.at.Keys, k, k, topic);
  }

  /** A lookup among patterns without wildcard levels takes at most one entry per
      topic level and one for the end. */
  lemma LiteralPatternsLookupCost(t: TopicTrie, topic: Path)
    requires t.Valid() && forall s :: s in t.Subs() ==> PLUS !in s.pattern && STAR !in s.pattern
    ensures Calls(t.at.Keys, Root, topic) <= |topic| + 1
  {
    t.CanonicalForm();
    forall r: Route, level | level == PLUS || level == STAR
      ensures Step(r, level) !in t.at.Keys
    {
      PrefixesAreNeeded(t.Subs(), Step(r, level).Levels());
      assert Step(r, level).Levels()[|r.Levels()|] == level;
      forall s | s in t.Subs()
        ensures !(Step(r, level).Levels() <= s.pattern)
      {
        assert |r.Levels()| < |s.pattern| ==> s.pattern[|r.Levels()|] in s.pattern;
      }
    }
    LiteralLookupIsLinear(t.at.Keys, Root, topic);
  }

  /** One entry per topic level and one for the end, the best a lookup that follows the
      topic can do, is enough for every topic if and only if no stored pattern has a
      wildcard level. */
  lemma OneEntryPerLevelExactly(t: TopicTrie)
    requires t.Valid()
    ensures Root in t.at
    ensures (forall topic :: Calls(t.at.Keys, Root, topic) <= |topic| + 1)
       <==> (forall s :: s in t.Subs() ==> PLUS !in s.pattern && STAR !in s.pattern)
  {
    if forall s :: s in t.Subs() ==> PLUS !in s.pattern && STAR !in s.pattern {
      forall topic
        ensures Calls(t.at.Keys, Root, topic) <= |topic| + 1
      {
        LiteralPatternsLookupCost(t, topic);
      }
    } else {
      var s :| s in t.Subs() && (PLUS in s.pattern || STAR in s.pattern);
      var i :| 0 <= i < |s.pattern| && (s.pattern[i] == PLUS || s.pattern[i] == STAR);
      StoredPatternIsThere(t, s, i + 1);
      WildcardCost(t.at.Keys, s.pattern, i);
    }
  }

  /** The number of entries is within a constant factor of the `k`-th power of the topic's
      length, over all topics, if and only if no stored pattern has more than `k` levels `*`. */
  lemma LookupDegreeExactly(t: TopicTrie, k: nat)
    requires t.Valid()
    ensures Root in t.at.Keys
    ensures (exists c: nat :: CostWithin(t.at.Keys, c, k))
       <==> (forall s :: s in t.Subs() ==> Count(STAR, s.pattern) <= k)
  {
    assert Root in t.at.Keys;
    hide TopicTrie.Valid, Calls;
    if s :| s in t.Subs() && Count(STAR, s.pattern) > k {
      StoredPatternIsThere(t, s, |s.pattern|);
      forall c: nat {
        ManyStarsExceed(t.at.Keys, s.pattern, c, k);
      }
    } else {
      NodesHaveFewStars(t, k);
      FewStarsSuffice(t.at.Keys, k);
    }
  }

  /** The documented cost, linear in the topic's length, is met over all topics if and only
      if no stored pattern has two levels `*`. */
  lemma LinearLookupExactly(t: TopicTrie)
    requires t.Valid()
    ensures Root in t.at.Keys
    ensures (exists c: nat :: CostLinear(t.at.Keys, c))
       <==> (forall s :: s in t.Subs() ==> Count(STAR, s.pattern) <= 1)
  {
    hide TopicTrie.Valid, Calls;
    LookupDegreeExactly(t, 1);
    forall c: nat {
      LinearIsFirstPower(t.at.Keys, c);
    }
  }

  lemma NodesHaveFewStars(t: TopicTrie, k: nat)
    requires t.Valid() && forall s :: s in t.Subs() ==> Count(STAR, s.pattern) <= k
    ensures Root in t.at.Keys && Within(t.at.Keys, Root, k)
  {
    hide TopicTrie.Valid, Prefixes, FoundHere, NextLevels, Count;
    t.CanonicalForm();
    PrefixesAreNeeded(t.Subs(), []);
    assert Root.Levels() == [];
    forall q | q in t.at.Keys
      ensures StarsOn(q) <= k
    {
      PrefixesAreNeeded(t.Subs(), q.Levels());
      if s :| s in t.Subs() && q.Levels() <= s.pattern {
        StarsOnPrefixRoute(s.pattern, q);
      } else {
        LevelsInjective(q, Root);
      }
    }
  }

  /** Every prefix of a stored pattern has its node. */
  lemma StoredPatternIsThere(t: TopicTrie, s: Subscription, n: nat)
    requires t.Valid() && s in t.Subs() && n <= |s.pattern|
    ensures RouteTo(s.pattern, n) in t.at && Closed(t.at.Keys)
  {
    t.CanonicalForm();
    RouteToLevels(s.pattern, n);
    PrefixesAreNeeded(t.Subs(), s.pattern[..n]);
  }
}
