/** Topic strings and their levels: `TopicTrie::split_topic` and the exact
    information it forgets. */
module Topics {

  /** Index of the first '/' at or after `i`, or the length when there is none. */
  function TokenEnd(s: string, i: nat): (j: nat)
    requires i <= |s|
    ensures i <= j <= |s|
    ensures '/' !in s[i..j]
    ensures j < |s| ==> s[j] == '/'
    decreases |s| - i
  {
    if i == |s| || s[i] == '/' then i else TokenEnd(s, i + 1)
  }

  /** The levels of a topic: what repeated `getline` with delimiter '/' yields. */
  function Split(s: string): seq<string>
    decreases |s|
  {
    if s == "" then []
    else
      var j := TokenEnd(s, 0);
      if j == |s| then [s] else [s[..j]] + Split(s[j + 1..])
  }

  /** The levels of a topic with '/' between them. */
  function Join(levels: seq<string>): string {
    if |levels| == 0 then ""
    else if |levels| == 1 then levels[0]
    else levels[0] + "/" + Join(levels[1..])
  }

  predicate EndsWithSlash(s: string) {
    s != "" && s[|s| - 1] == '/'
  }

  /** `b` is `a` with one redundant final '/'. */
  predicate AddsRedundantSlash(a: string, b: string) {
    a != "" && !EndsWithSlash(a) && b == a + "/"
  }

  predicate SlashFree(levels: seq<string>) {
    forall l :: l in levels ==> '/' !in l
  }

  /** The loop of `split_topic`: each `getline` consumes one level and its delimiter. */
  method SplitTopic(topic: string) returns (tokens: seq<string>)
    ensures tokens == Split(topic)
  {
    hide Split;
    tokens := [];
    var position := 0;
    assert topic[0..] == topic;
    while position < |topic|
      invariant 0 <= position <= |topic|
      invariant Split(topic) == tokens + Split(topic[position..])
    {
      var token := "";
      ghost var start := position;
      while position < |topic| && topic[position] != '/'
        invariant start <= position <= |topic|
        invariant token == topic[start..position]
        invariant '/' !in token
      {
        token := token + [topic[position]];
        position := position + 1;
      }
      SplitAt(topic, start, position);
      ghost var before := tokens;
      if position < |topic| {
        position := position + 1;
      }
      assert Split(topic) == before + ([token] + Split(topic[position..]));
      tokens := tokens + [token];
    }
    SplitNothing();
    assert topic[position..] == "";
  }

  lemma {:induction false} TokenEndUnique(s: string, i: nat, j: nat)
    requires i <= j <= |s| && '/' !in s[i..j] && (j < |s| ==> s[j] == '/')
    ensures TokenEnd(s, i) == j
    decreases j - i
  {
    if i < j {
      assert s[i] == s[i..j][0];
      assert s[i + 1..j] == s[i..j][1..];
      TokenEndUnique(s, i + 1, j);
    }
  }

  /** Unfolding `Split` at a level that is followed by '/'. */
  lemma SplitLevel(level: string, rest: string)
    requires '/' !in level
    ensures Split(level + "/" + rest) == [level] + Split(rest)
  {
    var s := level + "/" + rest;
    assert s[0..|level|] == level;
    TokenEndUnique(s, 0, |level|);
    assert s[..|level|] == level && s[|level| + 1..] == rest;
  }

  lemma SplitLast(level: string)
    requires '/' !in level && level != ""
    ensures Split(level) == [level]
  {
    assert level[0..|level|] == level;
    TokenEndUnique(level, 0, |level|);
  }

  lemma SplitNothing()
    ensures Split("") == []
  {
  }

  /** One `getline` at `start` that stops at `stop` peels off one level. */
  lemma SplitAt(s: string, start: nat, stop: nat)
    requires start <= stop <= |s| && start < |s|
    requires '/' !in s[start..stop] && (stop < |s| ==> s[stop] == '/')
    ensures Split(s[start..])
         == [s[start..stop]] + Split(s[if stop < |s| then stop + 1 else stop..])
  {
    if stop < |s| {
      assert s[start..] == s[start..stop] + "/" + s[stop + 1..];
      SplitLevel(s[start..stop], s[stop + 1..]);
    } else {
      assert s[start..] == s[start..stop];
      SplitLast(s[start..stop]);
    }
  }

  /** Splitting lost nothing of `s` but whether it ends with a '/'. */
  ghost predicate Recovered(s: string) {
    && s == Join(Split(s)) + (if EndsWithSlash(s) then "/" else "")
    && SlashFree(Split(s))
    && (s != "" ==> Split(s) != [])
  }

  lemma RecoveredLevel(level: string, rest: string)
    requires '/' !in level && Recovered(rest)
    ensures Recovered(level + "/" + rest)
  {
    hide Split;
    SplitLevel(level, rest);
    SplitNothing();
    var s, levels := level + "/" + rest, [level] + Split(rest);
    assert levels[1..] == Split(rest);
    if rest == "" {
      assert s == level + "/";
    } else {
      assert s[|s| - 1] == rest[|rest| - 1];
    }
  }

  /** Every topic is recovered from its levels and that one bit. */
  lemma {:induction false} JoinSplit(s: string)
    ensures Recovered(s)
    decreases |s|
  {
    hide Recovered;
    var j := TokenEnd(s, 0);
    assert s[0..j] == s[..j];
    if s == "" {
      assert Recovered("") by {
        RecoveredNothing();
      }
    } else if j == |s| {
      assert s[..j] == s;
      RecoveredLast(s);
    } else {
      JoinSplit(s[j + 1..]);
      RecoveredLevel(s[..j], s[j + 1..]);
      assert s == s[..j] + "/" + s[j + 1..];
    }
  }

  lemma RecoveredNothing()
    ensures Recovered("")
  {
  }

  lemma RecoveredLast(level: string)
    requires '/' !in level && level != ""
    ensures Recovered(level)
  {
    SplitLast(level);
  }

  /** Every list of slash-free levels is the split of some topic. */
  lemma {:induction false} SplitJoin(levels: seq<string>)
    requires levels != [] && SlashFree(levels)
    ensures Split(Join(levels) + "/") == levels
  {
    hide Split;
    var rest := levels[1..];
    if rest == [] {
      assert levels == [levels[0]];
      assert levels[0] + "/" == levels[0] + "/" + "";
      SplitLevel(levels[0], "");
      SplitNothing();
    } else {
      SplitJoin(rest);
      SplitLevel(levels[0], Join(rest) + "/");
      assert Join(levels) + "/" == levels[0] + "/" + (Join(rest) + "/");
    }
  }

  /** One redundant final '/' is invisible after splitting. */
  lemma {:induction false} RedundantSlash(s: string)
    requires s != "" && !EndsWithSlash(s)
    ensures Split(s + "/") == Split(s)
    decreases |s|
  {
    var j := TokenEnd(s, 0);
    assert s[0..j] == s[..j];
    if j == |s| {
      assert s[..j] == s;
      SplitLast(s);
      SplitLevel(s, "");
      assert s + "/" == s + "/" + "";
    } else {
      var level, rest := s[..j], s[j + 1..];
      assert s == level + "/" + rest;
      assert rest != "" && rest[|rest| - 1] == s[|s| - 1];
      RedundantSlash(rest);
      PrependLevel(level, rest, rest + "/");
      assert s + "/" == level + "/" + (rest + "/");
    }
  }

  lemma PrependLevel(level: string, a: string, b: string)
    requires '/' !in level && Split(a) == Split(b)
    ensures Split(level + "/" + a) == Split(level + "/" + b)
  {
    SplitLevel(level, a);
    SplitLevel(level, b);
  }

  /** The exact kernel of `split_topic`: two topics have the same levels exactly
      when they are equal or one is the other with one redundant final '/'. */
  lemma SplitKernel(a: string, b: string)
    ensures Split(a) == Split(b)
       <==> a == b || AddsRedundantSlash(a, b) || AddsRedundantSlash(b, a)
  {
    JoinSplit(a);
    JoinSplit(b);
    if AddsRedundantSlash(a, b) {
      RedundantSlash(a);
    }
    if AddsRedundantSlash(b, a) {
      RedundantSlash(b);
    }
  }
}
