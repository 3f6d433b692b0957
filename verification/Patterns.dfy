/** What it means for a wildcard pattern to match a topic, independently of any
    way of searching, and the algebra of patterns that follows. */
module Patterns {
  import opened Lists

  const PLUS := "+"
  const STAR := "*"

  /** A single pattern level accepts a segment of topic levels. */
  predicate Fits(level: string, segment: seq<string>) {
    level == STAR || (level == PLUS && |segment| == 1) || segment == [level]
  }

  ghost predicate Fit(pattern: seq<string>, segments: seq<seq<string>>) {
    |segments| == |pattern| && forall i :: 0 <= i < |pattern| ==> Fits(pattern[i], segments[i])
  }

  /** The topic is a concatenation of segments, one fitting each pattern level. */
  ghost predicate Matches(pattern: seq<string>, topic: seq<string>) {
    exists segments :: Fit(pattern, segments) && Flatten(segments) == topic
  }

  /** `topic` cut at `i` has a left part matching `left` and a right part matching `right`. */
  ghost predicate MatchesCutAt(left: seq<string>, right: seq<string>, topic: seq<string>, i: nat) {
    i <= |topic| && Matches(left, topic[..i]) && Matches(right, topic[i..])
  }

  lemma FitAppend(left: seq<string>, right: seq<string>, a: seq<seq<string>>, b: seq<seq<string>>)
    requires |a| == |left| && |b| == |right|
    ensures Fit(left + right, a + b) <==> Fit(left, a) && Fit(right, b)
  {
    assert forall i :: 0 <= i < |left| ==> (left + right)[i] == left[i] && (a + b)[i] == a[i];
    assert forall i :: 0 <= i < |right| ==>
      (left + right)[|left| + i] == right[i] && (a + b)[|left| + i] == b[i];
  }

  lemma CutOut(left: seq<string>, right: seq<string>, topic: seq<string>) returns (i: nat)
    requires Matches(left + right, topic)
    ensures MatchesCutAt(left, right, topic, i)
  {
    hide Fits, Flatten;
    var s :| Fit(left + right, s) && Flatten(s) == topic;
    var a, b := s[..|left|], s[|left|..];
    assert s == a + b;
    FlattenAppend(a, b);
    FitAppend(left, right, a, b);
    i := |Flatten(a)|;
    assert topic[..i] == Flatten(a) && topic[i..] == Flatten(b);
  }

  lemma PutTogether(left: seq<string>, right: seq<string>, topic: seq<string>, i: nat)
    requires MatchesCutAt(left, right, topic, i)
    ensures Matches(left + right, topic)
  {
    hide Fits, Flatten;
    var a :| Fit(left, a) && Flatten(a) == topic[..i];
    var b :| Fit(right, b) && Flatten(b) == topic[i..];
    FlattenAppend(a, b);
    FitAppend(left, right, a, b);
    assert topic == topic[..i] + topic[i..];
  }

  /** Matching a concatenation is matching on the two sides of some cut. */
  lemma MatchesAppend(left: seq<string>, right: seq<string>, topic: seq<string>)
    ensures Matches(left + right, topic) <==> exists i :: MatchesCutAt(left, right, topic, i)
  {
    hide Matches;
    if Matches(left + right, topic) {
      var i := CutOut(left, right, topic);
    }
    if i: nat :| MatchesCutAt(left, right, topic, i) {
      PutTogether(left, right, topic, i);
    }
  }

  lemma MatchesNil(topic: seq<string>)
    ensures Matches([], topic) <==> topic == []
  {
    if topic == [] {
      assert Fit([], []) && Flatten<string>([]) == [];
    }
  }

  lemma MatchesOne(level: string, topic: seq<string>)
    ensures Matches([level], topic) <==> Fits(level, topic)
  {
    if Fits(level, topic) {
      assert Fit([level], [topic]);
      assert Flatten([topic]) == topic + Flatten([]);
    }
    if Matches([level], topic) {
      var s :| Fit([level], s) && Flatten(s) == topic;
      assert s == [s[0]] && Flatten(s) == s[0] + Flatten([]);
    }
  }

  /** A level other than `*` consumes exactly one topic level. */
  lemma MatchesLevel(level: string, rest: seq<string>, topic: seq<string>)
    requires level != STAR
    ensures Matches([level] + rest, topic)
       <==> topic != [] && (level == topic[0] || level == PLUS) && Matches(rest, topic[1..])
  {
    MatchesAppend([level], rest, topic);
    if i: nat :| MatchesCutAt([level], rest, topic, i) {
      MatchesOne(level, topic[..i]);
    }
    if topic != [] && (level == topic[0] || level == PLUS) && Matches(rest, topic[1..]) {
      MatchesOne(level, topic[..1]);
      assert MatchesCutAt([level], rest, topic, 1);
    }
  }

  /** `*` skips any number of topic levels, including none. */
  lemma MatchesStar(rest: seq<string>, topic: seq<string>)
    ensures Matches([STAR] + rest, topic)
       <==> exists i :: 0 <= i <= |topic| && Matches(rest, topic[i..])
  {
    MatchesAppend([STAR], rest, topic);
    forall i | 0 <= i <= |topic| && Matches(rest, topic[i..])
      ensures MatchesCutAt([STAR], rest, topic, i)
    {
      MatchesOne(STAR, topic[..i]);
    }
  }

  /** A pattern without wildcard levels matches only itself. */
  lemma {:induction false} LiteralMatches(pattern: seq<string>, topic: seq<string>)
    requires PLUS !in pattern && STAR !in pattern
    ensures Matches(pattern, topic) <==> pattern == topic
  {
    if pattern == [] {
      MatchesNil(topic);
    } else {
      var rest := pattern[1..];
      assert pattern == [pattern[0]] + rest;
      MatchesLevel(pattern[0], rest, topic);
      if topic != [] {
        assert topic == [topic[0]] + topic[1..];
        LiteralMatches(rest, topic[1..]);
      }
    }
  }

  ghost predicate Equivalent(p: seq<string>, q: seq<string>) {
    forall topic :: Matches(p, topic) <==> Matches(q, topic)
  }

  /** Every topic matched by `p` is matched by `q`. */
  ghost predicate Covers(q: seq<string>, p: seq<string>) {
    forall topic :: Matches(p, topic) ==> Matches(q, topic)
  }

  /** Covering is a congruence: it survives any surrounding levels. */
  lemma CoversInContext(before: seq<string>, p: seq<string>, q: seq<string>, after: seq<string>)
    requires Covers(q, p)
    ensures Covers(before + q + after, before + p + after)
  {
    forall topic | Matches(before + p + after, topic)
      ensures Matches(before + q + after, topic)
    {
      MatchesAppend(before + p, after, topic);
      var i :| MatchesCutAt(before + p, after, topic, i);
      MatchesAppend(before, p, topic[..i]);
      var j :| MatchesCutAt(before, p, topic[..i], j);
      assert MatchesCutAt(before, q, topic[..i], j);
      MatchesAppend(before, q, topic[..i]);
      assert MatchesCutAt(before + q, after, topic, i);
      MatchesAppend(before + q, after, topic);
    }
  }

  function Count(level: string, pattern: seq<string>): nat {
    if pattern == [] then 0 else (if pattern[0] == level then 1 else 0) + Count(level, pattern[1..])
  }

  predicate OnlyWildcards(pattern: seq<string>) {
    forall l :: l in pattern ==> l == PLUS || l == STAR
  }

  lemma {:induction false} CountBound(run: seq<string>)
    requires OnlyWildcards(run) && STAR !in run
    ensures Count(PLUS, run) == |run|
  {
    if run != [] {
      assert run[0] in run && forall l :: l in run[1..] ==> l in run;
      CountBound(run[1..]);
    }
  }

  /** A run of wildcards constrains only how many levels it spans: at least its
      number of `+` when it holds a `*`, and exactly its length when it does not. */
  lemma {:induction false} WildcardRun(run: seq<string>, topic: seq<string>)
    requires OnlyWildcards(run)
    ensures Matches(run, topic)
       <==> if STAR in run then Count(PLUS, run) <= |topic| else |topic| == |run|
  {
    if run == [] {
      MatchesNil(topic);
    } else {
      var rest := run[1..];
      assert run == [run[0]] + rest && run[0] in run && forall l :: l in rest ==> l in run;
      if run[0] == STAR {
        MatchesStar(rest, topic);
        forall i | 0 <= i <= |topic| {
          WildcardRun(rest, topic[i..]);
        }
        if STAR !in rest {
          CountBound(rest);
          if |rest| <= |topic| {
            assert Matches(rest, topic[|topic| - |rest|..]);
          }
        } else {
          assert topic[0..] == topic;
        }
      } else {
        MatchesLevel(PLUS, rest, topic);
        if topic != [] {
          WildcardRun(rest, topic[1..]);
        }
      }
    }
  }

  /** In any context, two runs of wildcards that both hold a `*` and have the same
      number of `+` select the same topics: a double `*` is one `*`, and the order
      of `*` and `+` is irrelevant. */
  lemma WildcardRunsEquivalent(before: seq<string>, p: seq<string>, q: seq<string>, after: seq<string>)
    requires OnlyWildcards(p) && OnlyWildcards(q) && STAR in p && STAR in q
    requires Count(PLUS, p) == Count(PLUS, q)
    ensures Equivalent(before + p + after, before + q + after)
  {
    forall topic
      ensures Matches(p, topic) <==> Matches(q, topic)
    {
      WildcardRun(p, topic);
      WildcardRun(q, topic);
    }
    CoversInContext(before, p, q, after);
    CoversInContext(before, q, p, after);
  }

  /** In any context, generalising one level to `*`, or a level other than `*` to
      `+`, never loses a topic. */
  lemma GeneralisedLevelCovers(before: seq<string>, level: string, after: seq<string>)
    ensures Covers(before + [STAR] + after, before + [level] + after)
    ensures level != STAR ==> Covers(before + [PLUS] + after, before + [level] + after)
  {
  }
}
