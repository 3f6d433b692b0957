/** Who receives a publish: the broker refines one that has no trie and no sockets,
    exactly as long as no client drops a topic whose levels it still holds under
    another spelling. */
module Delivery {
  import opened Broker
  import opened BrokerRuns
  import opened Patterns
  import opened Subscriptions
  import opened Wire
  import Topics

  /** The broker as its users see it: the topics each id ever held, and who is online. */
  datatype Ideal = Ideal(topics: map<string, set<string>>, online: set<string>)

  datatype IdealEvent =
    | Nothing
    | Login(id: string)
    | Subscribe(id: string, topic: string)
    | Unsubscribe(id: string, topic: string)
    | Logout(id: string)

  function HeldBy(a: Ideal, id: string): set<string> {
    if id in a.topics then a.topics[id] else {}
  }

  function IdealStep(a: Ideal, e: IdealEvent): Ideal {
    match e
    case Nothing => a
    case Login(id) => Ideal(a.topics[id := HeldBy(a, id)], a.online + {id})
    case Subscribe(id, topic) => a.(topics := a.topics[id := HeldBy(a, id) + {topic}])
    case Unsubscribe(id, topic) => a.(topics := a.topics[id := HeldBy(a, id) - {topic}])
    case Logout(id) => a.(online := a.online - {id})
  }

  /** The ids that should get a message on `topic`. */
  ghost function IdealRecipients(a: Ideal, topic: string): set<string> {
    set id, t | id in a.online && t in HeldBy(a, id) && Matches(Topics.Split(t), Topics.Split(topic)) :: id
  }

  function IdealOf(s: State): Ideal {
    Ideal(map id | id in s.subscribers :: s.subscribers[id].topics,
          set id | id in s.subscribers && s.subscribers[id].connected)
  }

  function IdealEventOf(s: State, e: Event): IdealEvent
    requires SessionInv(s) && Enabled(s, e)
  {
    match e
    case Connect(_, id) => Login(id)
    case Request(fd, r) =>
      if r.operation == OPERATION_SUBSCRIBE then Subscribe(s.sessions[fd], CString(r.topic))
      else if r.operation == OPERATION_UNSUBSCRIBE then Unsubscribe(s.sessions[fd], CString(r.topic))
      else Nothing
    case Disconnect(fd) => Logout(s.sessions[fd])
    case _ => Nothing
  }

  lemma TopicsSimulate(s: State, e: Event)
    requires Inv(s) && Enabled(s, e)
    ensures IdealOf(Step(s, e)).topics == IdealStep(IdealOf(s), IdealEventOf(s, e)).topics
  {
    hide TrieInv, NoDuplicates, Without, CString, Topics.Split;
    var a, b := IdealOf(Step(s, e)).topics, IdealStep(IdealOf(s), IdealEventOf(s, e)).topics;
    assert a.Keys == b.Keys;
    assert forall id :: id in a ==> a[id] == b[id];
  }

  /** Each step of the broker is a step of the ideal one; a second login of a connected
      id, a repeated subscription and an unneeded unsubscription change nothing there. */
  lemma StepSimulates(s: State, e: Event)
    requires Inv(s) && Enabled(s, e)
    ensures IdealOf(Step(s, e)) == IdealStep(IdealOf(s), IdealEventOf(s, e))
  {
    hide TrieInv, NoDuplicates, Without, CString, Topics.Split;
    TopicsSimulate(s, e);
    assert IdealOf(Step(s, e)).online == IdealStep(IdealOf(s), IdealEventOf(s, e)).online;
  }

  ghost function IdealRun(s: State, es: seq<Event>, a: Ideal): Ideal
    requires Inv(s) && Runs(s, es)
    decreases |es|
  {
    if es == [] then a else
    StepKeepsInv(s, es[0]);
    IdealRun(Step(s, es[0]), es[1..], IdealStep(a, IdealEventOf(s, es[0])))
  }

  lemma {:induction false} RunSimulates(s: State, es: seq<Event>)
    requires Inv(s) && Runs(s, es)
    ensures IdealOf(Exec(s, es)) == IdealRun(s, es, IdealOf(s))
    decreases |es|
  {
    hide SessionInv, TrieInv, Enabled, Step, IdealOf, IdealStep;
    if es != [] {
      StepKeepsInv(s, es[0]);
      StepSimulates(s, es[0]);
      RunSimulates(Step(s, es[0]), es[1..]);
    }
  }

  /** The connected ids that the trie finds. */
  ghost function Recipients(s: State, topic: string): set<string> {
    set id | id in Found(s.trie, Topics.Split(topic)) && AlreadyConnected(s, id)
  }

  lemma {:induction false} DeliveriesOncePerClient(s: State, order: seq<string>, packet: Packet)
    requires NoDuplicates(order)
    ensures var outs := Deliveries(s, order, packet);
      && (forall i, j :: 0 <= i < j < |outs| ==> outs[i].client != outs[j].client)
      && (forall o :: o in outs ==>
            o.client in order && AlreadyConnected(s, o.client)
            && o == Sent(s.subscribers[o.client].sockfd, o.client, MessageFrame(packet)))
      && (forall id :: id in order && AlreadyConnected(s, id) ==>
            Sent(s.subscribers[id].sockfd, id, MessageFrame(packet)) in outs)
  {
    if order != [] {
      DeliveriesOncePerClient(s, order[1..], packet);
      assert order[0] !in order[1..];
      assert order == [order[0]] + order[1..];
    }
  }

  /** A publish changes no table and sends one frame, and only one, over the open
      socket of every recipient, however many of its patterns match. */
  lemma PublishOnce(s: State, packet: Packet, order: seq<string>)
    requires Inv(s) && Enabled(s, Publish(packet, order))
    ensures var e := Publish(packet, order);
      var outs := Outputs(s, e);
      && Step(s, e) == s
      && |outs| == |Recipients(s, TopicOf(packet.msg))|
      && (forall id :: id in Recipients(s, TopicOf(packet.msg)) <==> exists o :: o in outs && o.client == id)
      && (forall i, j :: 0 <= i < j < |outs| ==> outs[i].client != outs[j].client && outs[i].fd != outs[j].fd)
      && (forall o :: o in outs ==>
            o.frame == MessageFrame(packet) && o.fd in s.sessions && s.sessions[o.fd] == o.client)
      && (forall id :: id in order ==> id in s.subscribers)
  {
    DeliveriesOncePerClient(s, order, packet);
    var outs := Outputs(s, Publish(packet, order));
    CountClients(outs, Recipients(s, TopicOf(packet.msg)));
  }

  lemma {:induction false} CountClients(outs: seq<Sent>, clients: set<string>)
    requires forall i, j :: 0 <= i < j < |outs| ==> outs[i].client != outs[j].client
    requires forall id :: id in clients <==> exists o :: o in outs && o.client == id
    ensures |outs| == |clients|
  {
    if outs == [] {
      assert clients == {};
    } else {
      CountClients(outs[1..], clients - {outs[0].client});
    }
  }

  /** The trie holds every topic held. With the invariant, it is then exactly the
      split image of the topic sets. */
  ghost predicate Synced(s: State) {
    forall id, t :: id in s.subscribers && t in s.subscribers[id].topics ==>
      Subscription(Topics.Split(t), id) in s.trie
  }

  /** In every reachable state, nobody gets a message it should not get. */
  lemma RecipientsAreIdeal(s: State, topic: string)
    requires Inv(s)
    ensures Recipients(s, topic) <= IdealRecipients(IdealOf(s), topic)
  {
    forall id | id in Recipients(s, topic)
      ensures id in IdealRecipients(IdealOf(s), topic)
    {
      var sub :| sub in s.trie && Matches(sub.pattern, Topics.Split(topic)) && sub.client == id;
      assert Holds(s, sub);
      var t :| t in s.subscribers[id].topics && Topics.Split(t) == sub.pattern;
      assert t in HeldBy(IdealOf(s), id);
    }
  }

  /** While the tables are in step, everybody gets what it should. */
  lemma SyncedRecipients(s: State, topic: string)
    requires Inv(s) && Synced(s)
    ensures Recipients(s, topic) == IdealRecipients(IdealOf(s), topic)
  {
    RecipientsAreIdeal(s, topic);
    forall id, t | id in IdealOf(s).online && t in HeldBy(IdealOf(s), id)
                   && Matches(Topics.Split(t), Topics.Split(topic))
      ensures id in Recipients(s, topic)
    {
      assert Subscription(Topics.Split(t), id) in s.trie;
    }
  }

  /** The step drops a topic while its client holds another spelling of the same levels. */
  ghost predicate Collides(s: State, e: Event)
    requires SessionInv(s) && Enabled(s, e)
  {
    e.Request? &&
    var id, topic := s.sessions[e.fd], CString(e.request.topic);
    && Unsubscribes(s, id, e.request)
    && exists t :: t in TopicsOf(s, id) && t != topic && Topics.Split(t) == Topics.Split(topic)
  }

  /** The other spelling is the topic with one '/' more, or less, at the end. */
  lemma CollidesBySlash(s: State, e: Event)
    requires SessionInv(s) && Enabled(s, e) && e.Request?
    ensures var id, topic := s.sessions[e.fd], CString(e.request.topic);
      Collides(s, e) <==>
        && Unsubscribes(s, id, e.request)
        && exists t :: t in TopicsOf(s, id) &&
             (Topics.AddsRedundantSlash(t, topic) || Topics.AddsRedundantSlash(topic, t))
  {
    var topic := CString(e.request.topic);
    forall t {
      Topics.SplitKernel(t, topic);
    }
  }

  /** A step leaves the tables in step exactly when it does not collide. */
  lemma StepSynced(s: State, e: Event)
    requires Inv(s) && Enabled(s, e) && Synced(s)
    ensures Synced(Step(s, e)) <==> !Collides(s, e)
  {
    hide TrieInv, NoDuplicates, Without;
    var s' := Step(s, e);
    if Collides(s, e) {
      var id, topic := s.sessions[e.fd], CString(e.request.topic);
      var t :| t in TopicsOf(s, id) && t != topic && Topics.Split(t) == Topics.Split(topic);
      assert t in s'.subscribers[id].topics;
    } else {
      forall id, t | id in s'.subscribers && t in s'.subscribers[id].topics
        ensures Subscription(Topics.Split(t), id) in s'.trie
      {
        if t in TopicsOf(s, id) {
          assert Subscription(Topics.Split(t), id) in s.trie;
        }
      }
    }
  }

  /** The dropped levels match the topic, and nothing else the client still holds does. */
  ghost predicate Loses(s: State, e: Event, topic: string)
    requires SessionInv(s) && Enabled(s, e) && e.Request?
  {
    var id, dropped := s.sessions[e.fd], CString(e.request.topic);
    && Matches(Topics.Split(dropped), Topics.Split(topic))
    && forall t :: t in TopicsOf(s, id) && Topics.Split(t) != Topics.Split(dropped) ==>
         !Matches(Topics.Split(t), Topics.Split(topic))
  }

  /** What a collision costs, exactly: on every topic the dropping client, and nobody else,
      misses its messages if and only if the step loses the topic. */
  lemma CollisionLoses(s: State, e: Event, topic: string)
    requires Inv(s) && Enabled(s, e) && Synced(s) && Collides(s, e)
    ensures var id, got := s.sessions[e.fd], Recipients(Step(s, e), topic);
      && IdealRecipients(IdealOf(Step(s, e)), topic) == got + (if Loses(s, e, topic) then {id} else {})
      && (Loses(s, e, topic) ==> id !in got)
  {
    hide SessionInv, TrieInv, CString, Topics.Split, Matches, IdealOf, IdealRecipients, Recipients;
    var s' := Step(s, e);
    StepKeepsInv(s, e);
    RecipientsAreIdeal(s', topic);
    forall id
      ensures id in IdealRecipients(IdealOf(s'), topic) && id !in Recipients(s', topic)
         <==> id == s.sessions[e.fd] && Loses(s, e, topic)
    {
      if id == s.sessions[e.fd] {
        DropperAfterCollision(s, e, topic);
      } else {
        OthersAfterCollision(s, e, id, topic);
      }
    }
  }

  /** Membership in the two sets of recipients, told from the tables. */
  lemma RecipientsIff(s: State, id: string, topic: string)
    ensures id in Recipients(s, topic) <==>
      && AlreadyConnected(s, id)
      && exists sub :: sub in s.trie && sub.client == id && Matches(sub.pattern, Topics.Split(topic))
    ensures id in IdealRecipients(IdealOf(s), topic) <==>
      AlreadyConnected(s, id) && exists t :: t in TopicsOf(s, id) && Matches(Topics.Split(t), Topics.Split(topic))
  {
    hide Matches, Topics.Split;
    if AlreadyConnected(s, id) {
      assert HeldBy(IdealOf(s), id) == TopicsOf(s, id) && id in IdealOf(s).online;
    }
  }

  /** Who misses what, in any reachable state: a connected client misses a topic exactly
      when it holds a topic that matches but the trie has lost the levels of all of these. */
  lemma MissedExactly(s: State, id: string, topic: string)
    requires Inv(s)
    ensures id in IdealRecipients(IdealOf(s), topic) && id !in Recipients(s, topic) <==>
      && AlreadyConnected(s, id)
      && (exists t :: t in TopicsOf(s, id) && Matches(Topics.Split(t), Topics.Split(topic)))
      && (forall t :: t in TopicsOf(s, id) && Matches(Topics.Split(t), Topics.Split(topic)) ==>
            Subscription(Topics.Split(t), id) !in s.trie)
  {
    hide SessionInv, Topics.Split, Matches, IdealOf, IdealRecipients, Recipients;
    RecipientsIff(s, id, topic);
    if sub :| sub in s.trie && sub.client == id && Matches(sub.pattern, Topics.Split(topic)) {
      HeldPattern(s, sub);
    }
  }

  /** The same by history: in every run from start-up a connected client misses a topic
      exactly when it subscribed last to some spelling that matches, but for each of these
      the last acknowledgement about the levels is of an unsubscription. */
  lemma MissedByHistory(reserved: seq<int>, es: seq<Event>, id: string, topic: string)
    requires Inv(Initial(reserved)) && Runs(Initial(reserved), es)
    ensures var s, log := Exec(Initial(reserved), es), RunOutputs(Initial(reserved), es);
      id in IdealRecipients(IdealOf(s), topic) && id !in Recipients(s, topic) <==>
      && AlreadyConnected(s, id)
      && (exists t :: SubscribedLast(log, id, t) && Matches(Topics.Split(t), Topics.Split(topic)))
      && (forall t :: SubscribedLast(log, id, t) && Matches(Topics.Split(t), Topics.Split(topic)) ==>
            LastAck(log, id, Levels(Topics.Split(t)), OPERATION_ACK_UNSUB))
  {
    hide Inv, Exec, Runs, RunOutputs, Topics.Split, Matches, IdealOf, IdealRecipients, Recipients, TopicsOf, LastAck;
    var s, log := Exec(Initial(reserved), es), RunOutputs(Initial(reserved), es);
    MissedExactly(s, id, topic);
    forall t
      ensures t in TopicsOf(s, id) <==> SubscribedLast(log, id, t)
      ensures SubscribedLast(log, id, t) ==>
        (Subscription(Topics.Split(t), id) !in s.trie <==>
           LastAck(log, id, Levels(Topics.Split(t)), OPERATION_ACK_UNSUB))
    {
      TablesByHistory(reserved, es, id, t, Topics.Split(t));
      LastAckDecides(log, id, t, Topics.Split(t));
    }
  }

  /** The last acknowledgement about this spelling is of a subscription. */
  ghost predicate SubscribedLast(log: seq<Sent>, id: string, topic: string) {
    LastAck(log, id, Spelling(topic), OPERATION_ACK_SUB)
  }

  lemma OthersAfterCollision(s: State, e: Event, id: string, topic: string)
    requires Inv(s) && Enabled(s, e) && Synced(s) && Collides(s, e) && id != s.sessions[e.fd]
    ensures id in IdealRecipients(IdealOf(Step(s, e)), topic) ==> id in Recipients(Step(s, e), topic)
  {
    hide SessionInv, TrieInv, CString, Topics.Split, Matches, IdealOf, IdealRecipients, Recipients;
    var s' := Step(s, e);
    RecipientsIff(s', id, topic);
    if id in IdealRecipients(IdealOf(s'), topic) {
      var t :| t in TopicsOf(s', id) && Matches(Topics.Split(t), Topics.Split(topic));
      assert Subscription(Topics.Split(t), id) in s.trie;
    }
  }

  lemma DropperAfterCollision(s: State, e: Event, topic: string)
    requires Inv(s) && Enabled(s, e) && Synced(s) && Collides(s, e)
    ensures var id, s' := s.sessions[e.fd], Step(s, e);
      id in IdealRecipients(IdealOf(s'), topic) && id !in Recipients(s', topic) <==> Loses(s, e, topic)
  {
    hide TrieInv, CString, Topics.Split, Matches, IdealOf, IdealRecipients, Recipients;
    var id, s', dropped := s.sessions[e.fd], Step(s, e), CString(e.request.topic);
    var levels := Topics.Split(dropped);
    RecipientsIff(s', id, topic);
    assert s'.trie == s.trie - {Subscription(levels, id)};
    var twin :| twin in TopicsOf(s, id) && twin != dropped && Topics.Split(twin) == levels;
    assert TopicsOf(s', id) == TopicsOf(s, id) - {dropped} && AlreadyConnected(s', id);
    if Loses(s, e, topic) {
      assert twin in TopicsOf(s', id);
      forall sub | sub in s'.trie && sub.client == id
        ensures !Matches(sub.pattern, Topics.Split(topic))
      {
        HeldPattern(s, sub);
      }
    } else if id in IdealRecipients(IdealOf(s'), topic) {
      var t :| t in TopicsOf(s', id) && Matches(Topics.Split(t), Topics.Split(topic));
      var u := if Topics.Split(t) != levels then t else
        var v :| v in TopicsOf(s, id) && Topics.Split(v) != levels && Matches(Topics.Split(v), Topics.Split(topic)); v;
      assert Subscription(Topics.Split(u), id) in s.trie;
      assert Subscription(Topics.Split(u), id) in s'.trie;
    }
  }

  lemma HeldPattern(s: State, sub: Subscription)
    requires TrieInv(s) && sub in s.trie
    ensures exists t :: t in TopicsOf(s, sub.client) && Topics.Split(t) == sub.pattern
  {
    assert Holds(s, sub);
  }

  /** While the tables agree, a step leaves delivery complete on every topic if and only if
      it loses none: it does not collide, or what it drops is covered by what is held. */
  lemma StepDeliversExactly(s: State, e: Event)
    requires Inv(s) && Enabled(s, e) && Synced(s)
    ensures (forall topic :: Recipients(Step(s, e), topic) == IdealRecipients(IdealOf(Step(s, e)), topic))
       <==> (Collides(s, e) ==> forall topic :: !Loses(s, e, topic))
  {
    hide SessionInv, TrieInv, CString, IdealOf, IdealRecipients, Recipients, Loses, Synced, Step;
    StepKeepsInv(s, e);
    StepSynced(s, e);
    if Collides(s, e) {
      forall topic
        ensures Recipients(Step(s, e), topic) == IdealRecipients(IdealOf(Step(s, e)), topic) <==> !Loses(s, e, topic)
      {
        CollisionLoses(s, e, topic);
      }
    } else {
      forall topic
        ensures Recipients(Step(s, e), topic) == IdealRecipients(IdealOf(Step(s, e)), topic)
      {
        SyncedRecipients(Step(s, e), topic);
      }
    }
  }

  ghost predicate AlwaysSynced(s: State, es: seq<Event>)
    requires Inv(s) && Runs(s, es)
    decreases |es|
  {
    Synced(s) && (es == [] || (StepKeepsInv(s, es[0]); AlwaysSynced(Step(s, es[0]), es[1..])))
  }

  ghost predicate NeverCollides(s: State, es: seq<Event>)
    requires Inv(s) && Runs(s, es)
    decreases |es|
  {
    es == [] || (!Collides(s, es[0]) && (StepKeepsInv(s, es[0]); NeverCollides(Step(s, es[0]), es[1..])))
  }

  /** Along a run the tables stay in step throughout if and only if no unsubscription
      in it collides. */
  lemma {:induction false} RunSynced(s: State, es: seq<Event>)
    requires Inv(s) && Runs(s, es) && Synced(s)
    ensures AlwaysSynced(s, es) <==> NeverCollides(s, es)
    decreases |es|
  {
    hide SessionInv, TrieInv, Enabled, Step, Collides, Synced;
    if es != [] {
      StepKeepsInv(s, es[0]);
      StepSynced(s, es[0]);
      if !Collides(s, es[0]) {
        RunSynced(Step(s, es[0]), es[1..]);
      }
    }
  }

  lemma {:induction false} SyncedAtEnd(s: State, es: seq<Event>)
    requires Inv(s) && Runs(s, es) && AlwaysSynced(s, es)
    ensures Synced(Exec(s, es))
    decreases |es|
  {
    hide SessionInv, TrieInv, Enabled, Step, Synced;
    if es != [] {
      StepKeepsInv(s, es[0]);
      SyncedAtEnd(Step(s, es[0]), es[1..]);
    }
  }

  /** Delivery over whole runs: whatever happened since start-up, a publish reaches only
      ids the ideal broker would reach, and reaches all of them when no unsubscription
      collided. */
  lemma DeliveryOverRuns(reserved: seq<int>, es: seq<Event>, topic: string)
    requires Inv(Initial(reserved)) && Runs(Initial(reserved), es)
    ensures var got := Recipients(Exec(Initial(reserved), es), topic);
      var due := IdealRecipients(IdealRun(Initial(reserved), es, Ideal(map[], {})), topic);
      got <= due && (NeverCollides(Initial(reserved), es) ==> got == due)
  {
    hide Inv, Enabled, Step, Recipients, IdealRecipients;
    var s := Initial(reserved);
    assert IdealOf(s) == Ideal(map[], {});
    RunSimulates(s, es);
    RecipientsAreIdeal(Exec(s, es), topic);
    RunSynced(s, es);
    if NeverCollides(s, es) {
      SyncedAtEnd(s, es);
      SyncedRecipients(Exec(s, es), topic);
    }
  }

  lemma {:induction false} RunPrefix(s: State, es: seq<Event>, k: nat)
    requires Inv(s) && Runs(s, es) && k <= |es|
    ensures Runs(s, es[..k]) && (k < |es| ==> Enabled(Exec(s, es[..k]), es[k]))
    ensures NeverCollides(s, es) ==> NeverCollides(s, es[..k])
    decreases |es|
  {
    hide SessionInv, TrieInv, Enabled, Step, Collides;
    if k > 0 {
      StepKeepsInv(s, es[0]);
      RunPrefix(Step(s, es[0]), es[1..], k - 1);
      assert es[..k][1..] == es[1..][..k - 1] && es[..k][0] == es[0];
    }
  }

  /** Every publish of every run: its frames go, one each, to ids the ideal broker of the
      run so far would reach, and to all of them if no unsubscription has collided. */
  lemma PublishesInRuns(reserved: seq<int>, es: seq<Event>, k: nat)
    requires Inv(Initial(reserved)) && Runs(Initial(reserved), es) && k < |es| && es[k].Publish?
    ensures Runs(Initial(reserved), es[..k]) && Enabled(Exec(Initial(reserved), es[..k]), es[k])
    ensures var outs := Outputs(Exec(Initial(reserved), es[..k]), es[k]);
      var due := IdealRecipients(IdealRun(Initial(reserved), es[..k], Ideal(map[], {})), TopicOf(es[k].packet.msg));
      && (forall o :: o in outs ==> o.client in due && o.frame == MessageFrame(es[k].packet))
      && (forall i, j :: 0 <= i < j < |outs| ==> outs[i].client != outs[j].client)
      && (NeverCollides(Initial(reserved), es[..k]) ==>
            forall id :: id in due ==> exists o :: o in outs && o.client == id)
  {
    hide SessionInv, TrieInv, Enabled, Step, Outputs, Recipients, IdealRecipients, NeverCollides;
    RunPrefix(Initial(reserved), es, k);
    DeliveryOverRuns(reserved, es[..k], TopicOf(es[k].packet.msg));
    PublishOnce(Exec(Initial(reserved), es[..k]), es[k].packet, es[k].order);
  }

  /** Who receives a datagram, in any run, told by its topic bytes and by history: its topic
      `t` is what the field spells, and one frame goes to each connected id with a pattern
      that matches it and whose last acknowledgement, about the levels, is of a subscription. */
  lemma DatagramReceivers(reserved: seq<int>, es: seq<Event>, k: nat, t: string, id: string)
    requires Inv(Initial(reserved)) && Runs(Initial(reserved), es) && k < |es| && es[k].Publish?
    requires Spells(es[k].packet.msg.topic, t)
    ensures Runs(Initial(reserved), es[..k]) && Enabled(Exec(Initial(reserved), es[..k]), es[k])
    ensures var s, log := Exec(Initial(reserved), es[..k]), RunOutputs(Initial(reserved), es[..k]);
      var outs := Outputs(s, es[k]);
      && (forall i, j :: 0 <= i < j < |outs| ==> outs[i].client != outs[j].client)
      && (forall o :: o in outs ==> o.frame == MessageFrame(es[k].packet))
      && ((exists o :: o in outs && o.client == id) <==>
            && AlreadyConnected(s, id)
            && exists path :: Matches(path, Topics.Split(t)) && LastAck(log, id, Levels(path), OPERATION_ACK_SUB))
  {
    hide Inv, Enabled, Step, Outputs, Recipients, NeverCollides, Matches, Topics.Split, LastAck, CString, Spells;
    RunPrefix(Initial(reserved), es, k);
    CStringSpelled(es[k].packet.msg.topic, t);
    var s, log := Exec(Initial(reserved), es[..k]), RunOutputs(Initial(reserved), es[..k]);
    PublishOnce(s, es[k].packet, es[k].order);
    RecipientsIff(s, id, t);
    forall path
      ensures Subscription(path, id) in s.trie <==> LastAck(log, id, Levels(path), OPERATION_ACK_SUB)
    {
      TablesByHistory(reserved, es[..k], id, t, path);
    }
    if sub :| sub in s.trie && sub.client == id && Matches(sub.pattern, Topics.Split(t)) {
      assert sub == Subscription(sub.pattern, id);
    }
  }

  /** No client holds two spellings of the same levels. */
  ghost predicate NoTwins(s: State) {
    forall id, t, u :: t in TopicsOf(s, id) && u in TopicsOf(s, id) && Topics.Split(t) == Topics.Split(u) ==> t == u
  }

  ghost predicate NeverTwins(s: State, es: seq<Event>)
    requires Inv(s) && Runs(s, es)
    decreases |es|
  {
    NoTwins(s) && (es == [] || (StepKeepsInv(s, es[0]); NeverTwins(Step(s, es[0]), es[1..])))
  }

  lemma {:induction false} NeverTwinsNeverCollides(s: State, es: seq<Event>)
    requires Inv(s) && Runs(s, es) && NeverTwins(s, es)
    ensures NeverCollides(s, es)
    decreases |es|
  {
    hide SessionInv, TrieInv, Enabled, Step;
    if es != [] {
      StepKeepsInv(s, es[0]);
      NeverTwinsNeverCollides(Step(s, es[0]), es[1..]);
    }
  }

  /** Connecting, being rejected, publishing and disconnecting leave every id's topics
      and the trie as they are. */
  lemma SessionsKeepSubscriptions(s: State, e: Event, id: string)
    requires Inv(s) && Enabled(s, e) && !e.Request?
    ensures TopicsOf(Step(s, e), id) == TopicsOf(s, id) && Step(s, e).trie == s.trie
  {
  }

  // The collision is real: a run after which a connected client misses its topic.

  function RequestFor(operation: byte, topic: seq<byte>): SubscribeRequest
    requires |topic| <= MAX_TOPIC_LENGTH
  {
    SubscribeRequest(operation, topic + seq(MAX_TOPIC_LENGTH + 1 - |topic|, _ => 0))
  }

  lemma ExecCons(s: State, e: Event, es: seq<Event>)
    requires Inv(s) && Enabled(s, e) && Inv(Step(s, e)) && Runs(Step(s, e), es)
    ensures Runs(s, [e] + es) && Exec(s, [e] + es) == Exec(Step(s, e), es)
  {
  }

  lemma SpellingsOfA()
    ensures CString(RequestFor(OPERATION_SUBSCRIBE, [97]).topic) == "a"
    ensures CString(RequestFor(OPERATION_SUBSCRIBE, [97, 47]).topic) == "a/"
    ensures Topics.Split("a") == ["a"] && Topics.Split("a/") == ["a"]
    ensures Matches(["a"], ["a"])
  {
    var one, two := RequestFor(OPERATION_SUBSCRIBE, [97]).topic, RequestFor(OPERATION_SUBSCRIBE, [97, 47]).topic;
    assert one[0] == 97 && one[1..][0] == 0 && CString(one[1..]) == "";
    assert two[0] == 97 && two[1..][0] == 47 && two[1..][1..][0] == 0 && CString(two[1..][1..]) == "";
    assert CString(two[1..]) == "/";
    Topics.SplitLast("a");
    Topics.RedundantSlash("a");
    assert "a/" == "a" + "/";
    LiteralMatches(["a"], ["a"]);
  }

  lemma LostDelivery(reserved: seq<int>)
    requires 4 !in reserved
    ensures var es := [Connect(4, "C1")] + ([Request(4, RequestFor(OPERATION_SUBSCRIBE, [97]))]
                      + ([Request(4, RequestFor(OPERATION_SUBSCRIBE, [97, 47]))]
                      + ([Request(4, RequestFor(OPERATION_UNSUBSCRIBE, [97]))] + [])));
      && Inv(Initial(reserved)) && Runs(Initial(reserved), es)
      && Recipients(Exec(Initial(reserved), es), "a") == {}
      && IdealRecipients(IdealOf(Exec(Initial(reserved), es)), "a") == {"C1"}
  {
    SpellingsOfA();
    var a, b, c := RequestFor(OPERATION_SUBSCRIBE, [97]), RequestFor(OPERATION_SUBSCRIBE, [97, 47]),
                   RequestFor(OPERATION_UNSUBSCRIBE, [97]);
    assert 0 in a.topic && 0 in b.topic && 0 in c.topic by {
      assert a.topic[50] == 0 && b.topic[50] == 0 && c.topic[50] == 0;
    }
    assert c.topic == a.topic;
    LostDeliverySteps(reserved, a, b, c);
  }

  /** The tables along the run, one event after the other. */
  lemma LostDeliverySteps(reserved: seq<int>, a: SubscribeRequest, b: SubscribeRequest, c: SubscribeRequest)
    requires 4 !in reserved
    requires a.Packed() && b.Packed() && c.Packed() && 0 in a.topic && 0 in b.topic && 0 in c.topic
    requires a.operation == b.operation == OPERATION_SUBSCRIBE && c.operation == OPERATION_UNSUBSCRIBE
    requires CString(a.topic) == CString(c.topic) == "a" && CString(b.topic) == "a/"
    requires Topics.Split("a") == ["a"] && Topics.Split("a/") == ["a"] && Matches(["a"], ["a"])
    ensures var es := [Connect(4, "C1")] + ([Request(4, a)] + ([Request(4, b)] + ([Request(4, c)] + [])));
      && Inv(Initial(reserved)) && Runs(Initial(reserved), es)
      && Recipients(Exec(Initial(reserved), es), "a") == {}
      && IdealRecipients(IdealOf(Exec(Initial(reserved), es)), "a") == {"C1"}
  {
    hide CString, Topics.Split, Matches, Without, Runs, Exec, SessionInv, TrieInv;
    var entry := Subscription(["a"], "C1");
    var s0, s1 := Initial(reserved), OneClient(reserved, {}, {});
    var s2, s3 := OneClient(reserved, {"a"}, {entry}), OneClient(reserved, {"a", "a/"}, {entry});
    var s4 := OneClient(reserved, {"a/"}, {});
    InitialInv(reserved);
    OneClientConnects(reserved);
    StepKeepsInv(s0, Connect(4, "C1"));
    OneClientAsks(reserved, {}, {}, a);
    StepKeepsInv(s1, Request(4, a));
    assert {} + {"a"} == {"a"} && {} + {entry} == {entry};
    OneClientAsks(reserved, {"a"}, {entry}, b);
    StepKeepsInv(s2, Request(4, b));
    assert {"a"} + {"a/"} == {"a", "a/"} && {entry} + {entry} == {entry};
    OneClientAsks(reserved, {"a", "a/"}, {entry}, c);
    StepKeepsInv(s3, Request(4, c));
    assert {"a", "a/"} - {"a"} == {"a/"} && {entry} - {entry} == {};
    RunsNothing(s4);
    ExecCons(s3, Request(4, c), []);
    ExecCons(s2, Request(4, b), [Request(4, c)] + []);
    ExecCons(s1, Request(4, a), [Request(4, b)] + ([Request(4, c)] + []));
    ExecCons(s0, Connect(4, "C1"), [Request(4, a)] + ([Request(4, b)] + ([Request(4, c)] + [])));
    assert "a/" in HeldBy(IdealOf(s4), "C1");
  }

  /** The tables when client C1 is connected on descriptor 4 and nobody else ever was. */
  function OneClient(reserved: seq<int>, topics: set<string>, trie: set<Subscription>): State {
    State(reserved, [4], map["C1" := SubscriberData(true, 4, topics)], map[4 := "C1"], trie, {4})
  }

  lemma OneClientConnects(reserved: seq<int>)
    requires 4 !in reserved
    ensures SessionInv(Initial(reserved)) && Enabled(Initial(reserved), Connect(4, "C1"))
    ensures Step(Initial(reserved), Connect(4, "C1")) == OneClient(reserved, {}, {})
  {
  }

  lemma OneClientAsks(reserved: seq<int>, topics: set<string>, trie: set<Subscription>, r: SubscribeRequest)
    requires 4 !in reserved && r.Packed() && 0 in r.topic
    ensures var s, topic := OneClient(reserved, topics, trie), CString(r.topic);
      var entry := Subscription(Topics.Split(topic), "C1");
      && SessionInv(s) && Enabled(s, Request(4, r))
      && Step(s, Request(4, r)) ==
         if r.operation == OPERATION_SUBSCRIBE && topic !in topics then
           OneClient(reserved, topics + {topic}, trie + {entry})
         else if r.operation == OPERATION_UNSUBSCRIBE && topic in topics then
           OneClient(reserved, topics - {topic}, trie - {entry})
         else s
  {
    hide CString, Topics.Split;
    assert forall t: set<string> ::
      map["C1" := SubscriberData(true, 4, topics)]["C1" := SubscriberData(true, 4, t)]
      == map["C1" := SubscriberData(true, 4, t)];
  }

  lemma RunsNothing(s: State)
    requires Inv(s)
    ensures Runs(s, []) && Exec(s, []) == s
  {
  }
}
