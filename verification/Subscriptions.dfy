/** What a topic trie stands for: a set of (pattern, client) subscriptions. */
module Subscriptions {
  import opened Patterns

  type Path = seq<string>

  datatype Subscription = Subscription(pattern: Path, client: string)

  /** The clients with a stored pattern that matches the topic. */
  ghost function Found(subs: set<Subscription>, topic: Path): set<string> {
    set s | s in subs && Matches(s.pattern, topic) :: s.client
  }

  /** `path` is a prefix of some stored pattern; the empty path always counts. */
  ghost predicate Needed(subs: set<Subscription>, path: Path) {
    path == [] || exists s :: s in subs && path <= s.pattern
  }

  /** All distinct prefixes of stored patterns, the empty one included. */
  ghost function Prefixes(subs: set<Subscription>): set<Path> {
    {[]} + set s, n | s in subs && 0 <= n <= |s.pattern| :: s.pattern[..n]
  }

  lemma PrefixesAreNeeded(subs: set<Subscription>, path: Path)
    ensures path in Prefixes(subs) <==> Needed(subs, path)
  {
    if s :| s in subs && path <= s.pattern {
      assert path == s.pattern[..|path|];
    }
  }

  /** The levels that follow `path` in stored patterns. */
  ghost function NextLevels(subs: set<Subscription>, path: Path): set<string> {
    set s | s in subs && path < s.pattern :: s.pattern[|path|]
  }

  lemma NextLevelsArePrefixes(subs: set<Subscription>, path: Path, level: string)
    ensures level in NextLevels(subs, path) <==> path + [level] in Prefixes(subs)
  {
    PrefixesAreNeeded(subs, path + [level]);
    forall s | s in subs
      ensures path < s.pattern && s.pattern[|path|] == level <==> path + [level] <= s.pattern
    {
    }
  }

  /** The subscription lies at or below `path`, and what follows matches `topic`. */
  ghost predicate Hits(s: Subscription, path: Path, topic: Path) {
    path <= s.pattern && Matches(s.pattern[|path|..], topic)
  }

  /** The subscription is hit through a `*` after `path` that skips fewer than `n` levels. */
  ghost predicate HitsSkipping(s: Subscription, path: Path, topic: Path, n: nat)
    requires n <= |topic| + 1
  {
    exists i :: 0 <= i < n && Hits(s, path + [STAR], topic[i..])
  }

  ghost function FoundBelow(subs: set<Subscription>, path: Path, topic: Path): set<string> {
    set s | s in subs && Hits(s, path, topic) :: s.client
  }

  ghost function FoundHere(subs: set<Subscription>, path: Path): set<string> {
    set s | s in subs && s.pattern == path :: s.client
  }

  ghost function FoundSkipping(subs: set<Subscription>, path: Path, topic: Path, n: nat): set<string>
    requires n <= |topic| + 1
  {
    set s | s in subs && HitsSkipping(s, path, topic, n) :: s.client
  }

  lemma FoundSkippingStep(subs: set<Subscription>, path: Path, topic: Path, n: nat)
    requires n <= |topic|
    ensures FoundSkipping(subs, path, topic, n + 1)
         == FoundSkipping(subs, path, topic, n) + FoundBelow(subs, path + [STAR], topic[n..])
  {
    forall s
      ensures HitsSkipping(s, path, topic, n + 1)
         <==> HitsSkipping(s, path, topic, n) || Hits(s, path + [STAR], topic[n..])
    {
    }
  }

  lemma HitsBelow(s: Subscription, path: Path, level: string, topic: Path)
    requires path <= s.pattern
    ensures var rest := s.pattern[|path|..];
      Hits(s, path + [level], topic) <==> rest != [] && rest[0] == level && Matches(rest[1..], topic)
  {
    var rest := s.pattern[|path|..];
    if rest != [] {
      assert rest[1..] == s.pattern[|path| + 1..];
      assert s.pattern[..|path| + 1] == path + [rest[0]];
    }
  }

  /** One step of the search: a subscription is hit from `path` exactly when it ends
      here with the topic, or is hit through the literal level, `+` or `*`. */
  lemma HitsStep(s: Subscription, path: Path, topic: Path)
    ensures Hits(s, path, topic) <==>
      || (topic == [] && s.pattern == path)
      || (topic != [] && (|| Hits(s, path + [topic[0]], topic[1..])
                          || Hits(s, path + [PLUS], topic[1..])))
      || HitsSkipping(s, path, topic, |topic| + 1)
  {
    if path <= s.pattern {
      var rest := s.pattern[|path|..];
      assert rest == [] <==> s.pattern == path;
      if topic != [] {
        HitsBelow(s, path, topic[0], topic[1..]);
        HitsBelow(s, path, PLUS, topic[1..]);
      }
      forall i | 0 <= i <= |topic|
        ensures Hits(s, path + [STAR], topic[i..])
           <==> rest != [] && rest[0] == STAR && Matches(rest[1..], topic[i..])
      {
        HitsBelow(s, path, STAR, topic[i..]);
      }
      if rest == [] {
        MatchesNil(topic);
      } else {
        assert rest == [rest[0]] + rest[1..];
        if rest[0] == STAR {
          MatchesStar(rest[1..], topic);
        } else {
          MatchesLevel(rest[0], rest[1..], topic);
        }
      }
    }
  }

  lemma FoundStep(subs: set<Subscription>, path: Path, topic: Path)
    ensures FoundBelow(subs, path, topic)
         == (if topic == [] then FoundHere(subs, path)
             else FoundBelow(subs, path + [topic[0]], topic[1..])
                  + FoundBelow(subs, path + [PLUS], topic[1..]))
            + FoundSkipping(subs, path, topic, |topic| + 1)
  {
    forall s {
      HitsStep(s, path, topic);
    }
  }

  lemma FoundBelowRoot(subs: set<Subscription>, topic: Path)
    ensures FoundBelow(subs, [], topic) == Found(subs, topic)
  {
    var root: Path := [];
    forall s: Subscription
      ensures root <= s.pattern && s.pattern[|root|..] == s.pattern
    {
    }
  }

  lemma NothingFound(subs: set<Subscription>, path: Path, topic: Path)
    requires forall s :: s in subs ==> !(path <= s.pattern)
    ensures FoundBelow(subs, path, topic) == {}
  {
  }

  lemma NothingSkipped(subs: set<Subscription>, path: Path, topic: Path, n: nat)
    requires n <= |topic| + 1
    requires n == 0 || forall s :: s in subs ==> !(path + [STAR] <= s.pattern)
    ensures FoundSkipping(subs, path, topic, n) == {}
  {
  }

  // The pattern algebra, carried through to lookup.

  /** Rewriting a run of wildcards with a `*` into any other with as many `+`, anywhere
      in a stored pattern, changes no lookup: a double `*` is one `*`, and `*` and `+`
      commute. */
  lemma WildcardRunsFoundAlike(
    subs: set<Subscription>, before: Path, p: Path, q: Path, after: Path, client: string, topic: Path)
    requires OnlyWildcards(p) && OnlyWildcards(q) && STAR in p && STAR in q
    requires Count(PLUS, p) == Count(PLUS, q)
    ensures Found(subs + {Subscription(before + p + after, client)}, topic)
         == Found(subs + {Subscription(before + q + after, client)}, topic)
  {
    WildcardRunsEquivalent(before, p, q, after);
    FoundMore(subs, before + p + after, before + q + after, client, topic);
    FoundMore(subs, before + q + after, before + p + after, client, topic);
  }

  /** Generalising one level of a stored pattern never loses a recipient. */
  lemma GeneralisedLevelFindsMore(
    subs: set<Subscription>, before: Path, level: string, after: Path, client: string, topic: Path)
    ensures var found := Found(subs + {Subscription(before + [level] + after, client)}, topic);
      && found <= Found(subs + {Subscription(before + [STAR] + after, client)}, topic)
      && (level != STAR ==> found <= Found(subs + {Subscription(before + [PLUS] + after, client)}, topic))
  {
    GeneralisedLevelCovers(before, level, after);
    FoundMore(subs, before + [level] + after, before + [STAR] + after, client, topic);
    if level != STAR {
      FoundMore(subs, before + [level] + after, before + [PLUS] + after, client, topic);
    }
  }

  lemma FoundMore(subs: set<Subscription>, p: Path, q: Path, client: string, topic: Path)
    requires Covers(q, p)
    ensures Found(subs + {Subscription(p, client)}, topic) <= Found(subs + {Subscription(q, client)}, topic)
  {
    var wide := subs + {Subscription(q, client)};
    forall s | s in subs + {Subscription(p, client)} && Matches(s.pattern, topic)
      ensures s.client in Found(wide, topic)
    {
      var t := if s in subs then s else Subscription(q, client);
      assert t in wide && Matches(t.pattern, topic);
    }
  }

  // The same laws with the wildcards spelled out, for what lookup returns.

  lemma FoundAlone(pattern: Path, client: string, topic: Path)
    ensures client in Found({Subscription(pattern, client)}, topic) <==> Matches(pattern, topic)
  {
    if Matches(pattern, topic) {
      assert Subscription(pattern, client) in {Subscription(pattern, client)};
    }
  }

  /** A client is found exactly when one of its patterns alone would find it. */
  lemma FoundByEach(subs: set<Subscription>, client: string, topic: Path)
    ensures client in Found(subs, topic) <==>
      exists pattern :: Subscription(pattern, client) in subs
                        && client in Found({Subscription(pattern, client)}, topic)
  {
    forall pattern {
      FoundAlone(pattern, client, topic);
    }
    if client in Found(subs, topic) {
      var s :| s in subs && Matches(s.pattern, topic) && s.client == client;
      assert s == Subscription(s.pattern, client);
    }
  }

  /** What a pattern finds, level by level: "*" stands for any number of topic levels, "+"
      for one, any other level for itself, and after the last level the topic must end. */
  lemma WildcardsSpelled(level: string, rest: Path, client: string, topic: Path)
    ensures client in Found({Subscription(["*"] + rest, client)}, topic) <==>
      exists i :: 0 <= i <= |topic| && client in Found({Subscription(rest, client)}, topic[i..])
    ensures client in Found({Subscription(["+"] + rest, client)}, topic) <==>
      topic != [] && client in Found({Subscription(rest, client)}, topic[1..])
    ensures level != "*" && level != "+" ==>
      (client in Found({Subscription([level] + rest, client)}, topic) <==>
         topic != [] && topic[0] == level && client in Found({Subscription(rest, client)}, topic[1..]))
    ensures client in Found({Subscription([], client)}, topic) <==> topic == []
  {
    hide Matches, Found;
    FoundAlone(["*"] + rest, client, topic);
    FoundAlone(["+"] + rest, client, topic);
    FoundAlone([level] + rest, client, topic);
    FoundAlone([], client, topic);
    MatchesStar(rest, topic);
    forall i | 0 <= i <= |topic|
      ensures client in Found({Subscription(rest, client)}, topic[i..]) <==> Matches(rest, topic[i..])
    {
      FoundAlone(rest, client, topic[i..]);
    }
    MatchesLevel("+", rest, topic);
    if level != "*" {
      MatchesLevel(level, rest, topic);
    }
    MatchesNil(topic);
  }

  /** In any context "*" twice is "*", and "*" and "+" may be exchanged. */
  lemma RunsSpelled(subs: set<Subscription>, before: Path, after: Path, client: string, topic: Path)
    ensures Found(subs + {Subscription(before + ["*", "*"] + after, client)}, topic)
         == Found(subs + {Subscription(before + ["*"] + after, client)}, topic)
    ensures Found(subs + {Subscription(before + ["*", "+"] + after, client)}, topic)
         == Found(subs + {Subscription(before + ["+", "*"] + after, client)}, topic)
  {
    hide Found;
    assert Count(PLUS, ["*", "*"][1..]) == Count(PLUS, ["*"]) == 0;
    WildcardRunsFoundAlike(subs, before, ["*", "*"], ["*"], after, client, topic);
    assert Count(PLUS, ["*", "+"][1..]) == 1 && Count(PLUS, ["+", "*"][1..]) == 0;
    WildcardRunsFoundAlike(subs, before, ["*", "+"], ["+", "*"], after, client, topic);
  }
}
