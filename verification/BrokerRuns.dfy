/** Whole runs of the broker: the reachable invariant, and the acknowledgements as a
    history of topics and trie. */
module BrokerRuns {
  import opened Broker
  import opened Lists
  import opened Subscriptions
  import opened Wire
  import Topics

  lemma StepKeepsInv(s: State, e: Event)
    requires Inv(s) && Enabled(s, e)
    ensures Inv(Step(s, e))
  {
    hide SessionInv, TrieInv;
    StepKeepsSessions(s, e);
    StepKeepsTrie(s, e);
  }

  /** The environment can produce these events one after the other. */
  ghost predicate Runs(s: State, es: seq<Event>)
    requires Inv(s)
    decreases |es|
  {
    es == [] || (Enabled(s, es[0]) && (StepKeepsInv(s, es[0]); Runs(Step(s, es[0]), es[1..])))
  }

  /** The state after a run: the invariant holds in every reachable state. */
  ghost function Exec(s: State, es: seq<Event>): (r: State)
    requires Inv(s) && Runs(s, es)
    ensures Inv(r) && r.reserved == s.reserved
    decreases |es|
  {
    if es == [] then s else
    StepKeepsInv(s, es[0]);
    Exec(Step(s, es[0]), es[1..])
  }

  ghost function RunOutputs(s: State, es: seq<Event>): seq<Sent>
    requires Inv(s) && Runs(s, es)
    decreases |es|
  {
    if es == [] then [] else
    StepKeepsInv(s, es[0]);
    Outputs(s, es[0]) + RunOutputs(Step(s, es[0]), es[1..])
  }

  /** The server just after start-up, with its three polled descriptors. */
  function Initial(reserved: seq<int>): State {
    State(reserved, [], map[], map[], {}, {})
  }

  lemma InitialInv(reserved: seq<int>)
    ensures Inv(Initial(reserved))
  {
  }

  lemma {:induction false} RunsAppend(s: State, es: seq<Event>, fs: seq<Event>)
    requires Inv(s) && Runs(s, es) && Runs(Exec(s, es), fs)
    ensures Runs(s, es + fs)
    ensures Exec(s, es + fs) == Exec(Exec(s, es), fs)
    ensures RunOutputs(s, es + fs) == RunOutputs(s, es) + RunOutputs(Exec(s, es), fs)
    decreases |es|
  {
    hide SessionInv, TrieInv, Enabled, Step, Outputs;
    if es == [] {
      assert es + fs == fs;
    } else {
      StepKeepsInv(s, es[0]);
      RunsAppend(Step(s, es[0]), es[1..], fs);
      assert (es + fs)[1..] == es[1..] + fs && (es + fs)[0] == es[0];
    }
  }

  /** In a reachable state no two sessions belong to one id, and an id is connected
      exactly when a session maps to it. */
  lemma SessionsInjective(s: State)
    requires SessionInv(s)
    ensures forall f, g :: f in s.sessions && g in s.sessions && s.sessions[f] == s.sessions[g] ==> f == g
    ensures forall id :: AlreadyConnected(s, id) <==> exists f :: f in s.sessions && s.sessions[f] == id
    ensures |s.clients| == |s.open|
  {
    assert forall fd :: fd in s.clients <==> fd in s.open;
    DistinctCount(s.clients, s.open);
  }

  lemma {:induction false} DistinctCount(xs: seq<int>, ys: set<int>)
    requires NoDuplicates(xs) && forall x :: x in xs <==> x in ys
    ensures |xs| == |ys|
  {
    if xs != [] {
      var x := xs[0];
      assert x !in xs[1..];
      assert forall y :: y in xs[1..] <==> y in ys - {x};
      DistinctCount(xs[1..], ys - {x});
    } else {
      assert forall y :: y in ys ==> y in xs;
    }
  }

  // Acknowledgements as history.

  /** What one sent frame says about the topics of `id`. */
  function ApplyAck(topics: set<string>, sent: Sent, id: string): set<string> {
    if sent.client != id || !sent.frame.AckFrame? then topics
    else if sent.frame.request.operation == OPERATION_ACK_SUB then topics + {CString(sent.frame.request.topic)}
    else if sent.frame.request.operation == OPERATION_ACK_UNSUB then topics - {CString(sent.frame.request.topic)}
    else topics
  }

  function ReplayTopics(topics: set<string>, log: seq<Sent>, id: string): set<string>
    decreases |log|
  {
    if log == [] then topics else ReplayTopics(ApplyAck(topics, log[0], id), log[1..], id)
  }

  /** What one sent frame says about the trie. */
  function ApplyAckToTrie(trie: set<Subscription>, sent: Sent): set<Subscription> {
    if !sent.frame.AckFrame? then trie
    else
      var entry := Subscription(Topics.Split(CString(sent.frame.request.topic)), sent.client);
      if sent.frame.request.operation == OPERATION_ACK_SUB then trie + {entry}
      else if sent.frame.request.operation == OPERATION_ACK_UNSUB then trie - {entry}
      else trie
  }

  function ReplayTrie(trie: set<Subscription>, log: seq<Sent>): set<Subscription>
    decreases |log|
  {
    if log == [] then trie else ReplayTrie(ApplyAckToTrie(trie, log[0]), log[1..])
  }

  lemma {:induction false} ReplayAppend(
    topics: set<string>, trie: set<Subscription>, a: seq<Sent>, b: seq<Sent>, id: string)
    ensures ReplayTopics(topics, a + b, id) == ReplayTopics(ReplayTopics(topics, a, id), b, id)
    ensures ReplayTrie(trie, a + b) == ReplayTrie(ReplayTrie(trie, a), b)
    decreases |a|
  {
    if a == [] {
      assert a + b == b;
    } else {
      assert (a + b)[1..] == a[1..] + b && (a + b)[0] == a[0];
      ReplayAppend(ApplyAck(topics, a[0], id), ApplyAckToTrie(trie, a[0]), a[1..], b, id);
    }
  }

  lemma {:induction false} DeliveriesAreNoAcks(
    s: State, order: seq<string>, packet: Packet, topics: set<string>, trie: set<Subscription>, id: string)
    ensures ReplayTopics(topics, Deliveries(s, order, packet), id) == topics
    ensures ReplayTrie(trie, Deliveries(s, order, packet)) == trie
  {
    if order != [] {
      var outs, rest := Deliveries(s, order, packet), Deliveries(s, order[1..], packet);
      assert outs == rest || (outs[0].frame.MessageFrame? && outs[1..] == rest);
      DeliveriesAreNoAcks(s, order[1..], packet, topics, trie, id);
    }
  }

  lemma StepReplays(s: State, e: Event, id: string)
    requires Inv(s) && Enabled(s, e)
    ensures ReplayTopics(TopicsOf(s, id), Outputs(s, e), id) == TopicsOf(Step(s, e), id)
    ensures ReplayTrie(s.trie, Outputs(s, e)) == Step(s, e).trie
  {
    match e
    case Publish(packet, order) => DeliveriesAreNoAcks(s, order, packet, TopicsOf(s, id), s.trie, id);
    case Request(fd, r) =>
      var outs := Outputs(s, e);
      if outs != [] {
        assert outs == [outs[0]];
      }
    case _ =>
  }

  /** Over any run, folding the acknowledgements sent gives exactly the topics every id
      holds, and, with topics split, exactly the trie. */
  lemma {:induction false} AckReplay(s: State, es: seq<Event>, id: string)
    requires Inv(s) && Runs(s, es)
    ensures ReplayTopics(TopicsOf(s, id), RunOutputs(s, es), id) == TopicsOf(Exec(s, es), id)
    ensures ReplayTrie(s.trie, RunOutputs(s, es)) == Exec(s, es).trie
    decreases |es|
  {
    hide SessionInv, TrieInv, Enabled, Step, Outputs, TopicsOf, ApplyAck, ApplyAckToTrie;
    if es != [] {
      StepKeepsInv(s, es[0]);
      StepReplays(s, es[0], id);
      AckReplay(Step(s, es[0]), es[1..], id);
      ReplayAppend(TopicsOf(s, id), s.trie, Outputs(s, es[0]), RunOutputs(Step(s, es[0]), es[1..]), id);
    }
  }

  lemma AckReplayFromStart(reserved: seq<int>, es: seq<Event>, id: string)
    requires Inv(Initial(reserved)) && Runs(Initial(reserved), es)
    ensures TopicsOf(Exec(Initial(reserved), es), id) == ReplayTopics({}, RunOutputs(Initial(reserved), es), id)
    ensures Exec(Initial(reserved), es).trie == ReplayTrie({}, RunOutputs(Initial(reserved), es))
  {
    AckReplay(Initial(reserved), es, id);
  }

  /** What an acknowledgement can be about: one spelling of a topic, or its levels. */
  datatype Subject = Spelling(topic: string) | Levels(path: Path)

  predicate Concerns(o: Sent, id: string, subject: Subject) {
    && o.client == id && o.frame.AckFrame?
    && (o.frame.request.operation == OPERATION_ACK_SUB || o.frame.request.operation == OPERATION_ACK_UNSUB)
    && match subject
       case Spelling(topic) => CString(o.frame.request.topic) == topic
       case Levels(path) => Topics.Split(CString(o.frame.request.topic)) == path
  }

  /** The last acknowledgement about the subject is the one at `k`, with this operation. */
  predicate LastAckAt(log: seq<Sent>, k: nat, id: string, subject: Subject, operation: byte) {
    && k < |log| && Concerns(log[k], id, subject) && log[k].frame.request.operation == operation
    && forall j :: k < j < |log| ==> !Concerns(log[j], id, subject)
  }

  /** The last acknowledgement about the subject has this operation. */
  ghost predicate LastAck(log: seq<Sent>, id: string, subject: Subject, operation: byte) {
    exists k: nat :: LastAckAt(log, k, id, subject, operation)
  }

  lemma LastAckSnoc(log: seq<Sent>, o: Sent, id: string, subject: Subject, operation: byte)
    ensures LastAck(log + [o], id, subject, operation)
       <==> if Concerns(o, id, subject) then o.frame.request.operation == operation
            else LastAck(log, id, subject, operation)
  {
    var longer := log + [o];
    if Concerns(o, id, subject) {
      assert longer[|log|] == o;
      assert o.frame.request.operation == operation ==> LastAckAt(longer, |log|, id, subject, operation);
    } else {
      forall k: nat
        ensures LastAckAt(longer, k, id, subject, operation) <==> LastAckAt(log, k, id, subject, operation)
      {
        assert longer[|log|] == o && forall j :: 0 <= j < |log| ==> longer[j] == log[j];
      }
    }
  }

  lemma ReplaySnoc(log: seq<Sent>, o: Sent, id: string)
    ensures ReplayTopics({}, log + [o], id) == ApplyAck(ReplayTopics({}, log, id), o, id)
    ensures ReplayTrie({}, log + [o]) == ApplyAckToTrie(ReplayTrie({}, log), o)
  {
    hide ApplyAck, ApplyAckToTrie;
    ReplayAppend({}, {}, log, [o], id);
  }

  /** Replaying a history keeps a spelling in the topics, and levels in the trie, exactly
      when the last acknowledgement about them is of a subscription. */
  lemma {:induction false} LastAckDecides(log: seq<Sent>, id: string, topic: string, path: Path)
    ensures topic in ReplayTopics({}, log, id) <==> LastAck(log, id, Spelling(topic), OPERATION_ACK_SUB)
    ensures Subscription(path, id) in ReplayTrie({}, log) <==> LastAck(log, id, Levels(path), OPERATION_ACK_SUB)
    ensures LastAck(log, id, Spelling(topic), OPERATION_ACK_SUB) ==>
      || LastAck(log, id, Levels(Topics.Split(topic)), OPERATION_ACK_SUB)
      || LastAck(log, id, Levels(Topics.Split(topic)), OPERATION_ACK_UNSUB)
    ensures !(&& LastAck(log, id, Levels(path), OPERATION_ACK_SUB)
              && LastAck(log, id, Levels(path), OPERATION_ACK_UNSUB))
    decreases |log|
  {
    hide LastAck, ReplayTopics, ReplayTrie, Topics.Split, CString;
    if log == [] {
      NoHistory(id, Spelling(topic));
      NoHistory(id, Levels(path));
    } else {
      var before, o := log[..|log| - 1], log[|log| - 1];
      assert log == before + [o];
      LastAckDecides(before, id, topic, path);
      ReplaySnoc(before, o, id);
      LastAckSnoc(before, o, id, Spelling(topic), OPERATION_ACK_SUB);
      LastAckSnoc(before, o, id, Levels(path), OPERATION_ACK_SUB);
      LastAckSnoc(before, o, id, Levels(path), OPERATION_ACK_UNSUB);
      LastAckSnoc(before, o, id, Levels(Topics.Split(topic)), OPERATION_ACK_SUB);
      LastAckSnoc(before, o, id, Levels(Topics.Split(topic)), OPERATION_ACK_UNSUB);
    }
  }

  lemma NoHistory(id: string, subject: Subject)
    ensures ReplayTopics({}, [], id) == {} && ReplayTrie({}, []) == {}
    ensures forall operation :: !LastAck([], id, subject, operation)
  {
  }

  /** The tables by history: in every run from start-up an id holds a topic if and only if
      the last acknowledgement to it about that spelling is of a subscription, and its entry
      for some levels is in the trie if and only if the last one about those levels is. */
  lemma TablesByHistory(reserved: seq<int>, es: seq<Event>, id: string, topic: string, path: Path)
    requires Inv(Initial(reserved)) && Runs(Initial(reserved), es)
    ensures var s, log := Exec(Initial(reserved), es), RunOutputs(Initial(reserved), es);
      && (topic in TopicsOf(s, id) <==> LastAck(log, id, Spelling(topic), OPERATION_ACK_SUB))
      && (Subscription(path, id) in s.trie <==> LastAck(log, id, Levels(path), OPERATION_ACK_SUB))
  {
    hide LastAck, ReplayTopics, ReplayTrie, Inv, Exec, RunOutputs, Runs;
    AckReplayFromStart(reserved, es, id);
    LastAckDecides(RunOutputs(Initial(reserved), es), id, topic, path);
  }

  // Exactly which acknowledgements are sent.

  /** A request to subscribe puts its topic among the client's topics, one to unsubscribe
      takes it out. If that changes them, the answer is one frame over the same descriptor
      to the same client, an acknowledgement of what happened with the request's own topic
      bytes; otherwise there is no answer. */
  lemma RequestAnswered(s: State, fd: int, r: SubscribeRequest)
    requires Inv(s) && Enabled(s, Request(fd, r))
    ensures var id, topic, e := s.sessions[fd], CString(r.topic), Request(fd, r);
      var before, after := TopicsOf(s, id), TopicsOf(Step(s, e), id);
      && after == (if r.operation == 0 then before + {topic} else if r.operation == 1 then before - {topic} else before)
      && Outputs(s, e) == (if after == before then []
                           else [Sent(fd, id, AckFrame(SubscribeRequest(if topic in after then 2 else 3, r.topic)))])
      && forall other :: other != id ==> TopicsOf(Step(s, e), other) == TopicsOf(s, other)
  {
    hide CString, Topics.Split;
    var id, topic := s.sessions[fd], CString(r.topic);
    assert topic in TopicsOf(s, id) ==> TopicsOf(s, id) + {topic} == TopicsOf(s, id);
    assert topic !in TopicsOf(s, id) ==> TopicsOf(s, id) - {topic} == TopicsOf(s, id);
  }

  /** An acknowledgement to `id` about this spelling. */
  predicate Acknowledges(o: Sent, id: string, topic: string) {
    o.client == id && o.frame.AckFrame? && CString(o.frame.request.topic) == topic
  }

  /** The operations of the acknowledgements to `id` about one spelling, in order. */
  function AckOperations(log: seq<Sent>, id: string, topic: string): seq<byte> {
    if log == [] then []
    else (if Acknowledges(log[0], id, topic) then [log[0].frame.request.operation] else [])
         + AckOperations(log[1..], id, topic)
  }

  lemma {:induction false} AckOperationsAppend(a: seq<Sent>, b: seq<Sent>, id: string, topic: string)
    ensures AckOperations(a + b, id, topic) == AckOperations(a, id, topic) + AckOperations(b, id, topic)
  {
    hide CString;
    if a == [] {
      assert a + b == b;
    } else {
      AckOperationsAppend(a[1..], b, id, topic);
      AppendTail(a, b);
      var head := if Acknowledges(a[0], id, topic) then [a[0].frame.request.operation] else [];
      AppendAssociates(head, AckOperations(a[1..], id, topic), AckOperations(b, id, topic));
    }
  }

  lemma {:induction false} DeliveriesAcknowledgeNothing(
    s: State, order: seq<string>, packet: Packet, id: string, topic: string)
    ensures AckOperations(Deliveries(s, order, packet), id, topic) == []
  {
    if order != [] {
      var outs, rest := Deliveries(s, order, packet), Deliveries(s, order[1..], packet);
      assert outs == rest || (outs[0].frame.MessageFrame? && outs[1..] == rest);
      DeliveriesAcknowledgeNothing(s, order[1..], packet, id, topic);
    }
  }

  /** A step acknowledges a spelling once if it comes to be held or ceases to be, and not at
      all if it does not. */
  lemma StepAcknowledges(s: State, e: Event, id: string, topic: string)
    requires Inv(s) && Enabled(s, e)
    ensures var held := topic in TopicsOf(Step(s, e), id);
      AckOperations(Outputs(s, e), id, topic) ==
        if held == (topic in TopicsOf(s, id)) then [] else [if held then 2 else 3]
  {
    hide CString, Topics.Split;
    match e
    case Publish(packet, order) => DeliveriesAcknowledgeNothing(s, order, packet, id, topic);
    case Request(fd, r) =>
      RequestAnswered(s, fd, r);
      OneAcknowledgement(Outputs(s, e), id, topic);
    case _ =>
  }

  lemma OneAcknowledgement(log: seq<Sent>, id: string, topic: string)
    ensures |log| == 1 && log[0].frame.AckFrame? ==>
      AckOperations(log, id, topic) ==
        if Acknowledges(log[0], id, topic) then [log[0].frame.request.operation] else []
  {
    if |log| == 1 {
      assert AckOperations(log[1..], id, topic) == [];
    }
  }

  /** The operations alternate, beginning with 2 or, if the spelling is held already, 3. */
  predicate Alternates(operations: seq<byte>, held: bool) {
    forall k :: 0 <= k < |operations| ==> operations[k] == if (k % 2 == 0) == held then 3 else 2
  }

  /** Over any run the acknowledgements to one id about one spelling alternate between
      subscription and unsubscription, and their number tells whether it is held. */
  lemma {:induction false} AcknowledgementsAlternate(s: State, es: seq<Event>, id: string, topic: string)
    requires Inv(s) && Runs(s, es)
    ensures var operations, held := AckOperations(RunOutputs(s, es), id, topic), topic in TopicsOf(s, id);
      && Alternates(operations, held)
      && (topic in TopicsOf(Exec(s, es), id) <==> (|operations| % 2 == 0) == held)
    decreases |es|
  {
    hide SessionInv, TrieInv, Enabled, Step, Outputs, TopicsOf, AckOperations;
    if es == [] {
      NothingAcknowledged(id, topic);
    } else {
      StepKeepsInv(s, es[0]);
      var s' := Step(s, es[0]);
      StepAcknowledges(s, es[0], id, topic);
      AcknowledgementsAlternate(s', es[1..], id, topic);
      AckOperationsAppend(Outputs(s, es[0]), RunOutputs(s', es[1..]), id, topic);
      AlternatesOn(AckOperations(RunOutputs(s', es[1..]), id, topic), topic in TopicsOf(s', id));
    }
  }

  lemma NothingAcknowledged(id: string, topic: string)
    ensures AckOperations([], id, topic) == []
  {
  }

  lemma AlternatesOn(operations: seq<byte>, held: bool)
    requires Alternates(operations, held)
    ensures [] + operations == operations
    ensures Alternates([if held then 2 else 3] + operations, !held)
  {
  }

  /** From start-up the first one is of a subscription. */
  lemma AcknowledgementsFromStart(reserved: seq<int>, es: seq<Event>, id: string, topic: string)
    requires Inv(Initial(reserved)) && Runs(Initial(reserved), es)
    ensures var operations := AckOperations(RunOutputs(Initial(reserved), es), id, topic);
      && (forall k :: 0 <= k < |operations| ==> operations[k] == if k % 2 == 0 then 2 else 3)
      && (topic in TopicsOf(Exec(Initial(reserved), es), id) <==> |operations| % 2 == 1)
  {
    AcknowledgementsAlternate(Initial(reserved), es, id, topic);
  }
}
