/** From the broker's tables through the byte streams to what a subscriber is shown. */
module EndToEnd {
  import opened Broker
  import opened BrokerRuns
  import opened Delivery
  import opened Framing
  import opened Lists
  import opened Server
  import opened Stream
  import opened Turns
  import opened Wire

  /** What was sent to one client, in order. */
  function SentTo(log: seq<Sent>, id: string): seq<Sent> {
    if log == [] then []
    else (if log[0].client == id then [log[0]] else []) + SentTo(log[1..], id)
  }

  function Frames(log: seq<Sent>): seq<Frame> {
    seq(|log|, i requires 0 <= i < |log| => log[i].frame)
  }

  /** What a shown frame tells a subscriber about its own topics. */
  function Believing(topics: set<string>, frame: Frame): set<string> {
    if !frame.AckFrame? then topics
    else if frame.request.operation == OPERATION_ACK_SUB then topics + {CString(frame.request.topic)}
    else if frame.request.operation == OPERATION_ACK_UNSUB then topics - {CString(frame.request.topic)}
    else topics
  }

  function Believed(topics: set<string>, frames: seq<Frame>): set<string>
    decreases |frames|
  {
    if frames == [] then topics else Believed(Believing(topics, frames[0]), frames[1..])
  }

  lemma {:induction false} BelievedAppend(topics: set<string>, a: seq<Frame>, b: seq<Frame>)
    ensures Believed(topics, a + b) == Believed(Believed(topics, a), b)
    decreases |a|
  {
    if a == [] {
      assert a + b == b;
    } else {
      BelievedAppend(Believing(topics, a[0]), a[1..], b);
      assert (a + b)[1..] == a[1..] + b && (a + b)[0] == a[0];
    }
  }

  lemma {:induction false} BelievedIsReplay(topics: set<string>, log: seq<Sent>, id: string)
    ensures Believed(topics, Frames(SentTo(log, id))) == ReplayTopics(topics, log, id)
    decreases |log|
  {
    if log != [] {
      BelievedIsReplay(ApplyAck(topics, log[0], id), log[1..], id);
      var mine, rest := SentTo(log, id), SentTo(log[1..], id);
      if log[0].client == id {
        assert mine == [log[0]] + rest;
        assert Frames(mine)[0] == log[0].frame && Frames(mine)[1..] == Frames(rest);
      } else {
        assert mine == rest;
      }
    }
  }

  lemma {:induction false} DeliveriesPacked(s: State, order: seq<string>, packet: Packet)
    requires packet.Packed()
    ensures forall o :: o in Deliveries(s, order, packet) ==> o.frame.Packed()
  {
    if order != [] {
      DeliveriesPacked(s, order[1..], packet);
    }
  }

  lemma {:induction false} OutputsPacked(s: State, es: seq<Event>)
    requires Inv(s) && Runs(s, es)
    ensures forall o :: o in RunOutputs(s, es) ==> o.frame.Packed()
    decreases |es|
  {
    if es != [] {
      StepKeepsInv(s, es[0]);
      if es[0].Publish? {
        DeliveriesPacked(s, es[0].order, es[0].packet);
      }
      OutputsPacked(Step(s, es[0]), es[1..]);
    }
  }

  // The connections of one client.

  ghost predicate LogsIn(s: State, e: Event, id: string) {
    e.Connect? && e.id == id && !AlreadyConnected(s, id)
  }

  /** What was sent to one client, cut where it logged in: first what belongs to the
      connection it has at the start, if any, then one list for each new connection. */
  ghost function Sessions(s: State, es: seq<Event>, id: string): (r: seq<seq<Sent>>)
    requires Inv(s) && Runs(s, es)
    ensures |r| >= 1
    decreases |es|
  {
    if es == [] then [[]]
    else
      StepKeepsInv(s, es[0]);
      var rest := Sessions(Step(s, es[0]), es[1..], id);
      if LogsIn(s, es[0], id) then [[]] + rest
      else [SentTo(Outputs(s, es[0]), id) + rest[0]] + rest[1..]
  }

  lemma {:induction false} SentToAppend(a: seq<Sent>, b: seq<Sent>, id: string)
    ensures SentTo(a + b, id) == SentTo(a, id) + SentTo(b, id)
  {
    if a == [] {
      assert a + b == b;
    } else {
      SentToAppend(a[1..], b, id);
      assert (a + b)[1..] == a[1..] + b && (a + b)[0] == a[0];
      AppendAssociates(if a[0].client == id then [a[0]] else [], SentTo(a[1..], id), SentTo(b, id));
    }
  }

  /** The connections together carried exactly what was sent to the client. */
  lemma {:induction false} SessionsAreAll(s: State, es: seq<Event>, id: string)
    requires Inv(s) && Runs(s, es)
    ensures Flatten(Sessions(s, es, id)) == SentTo(RunOutputs(s, es), id)
    decreases |es|
  {
    hide SessionInv, TrieInv, Enabled, Step, LogsIn;
    if es != [] {
      StepKeepsInv(s, es[0]);
      var rest := Sessions(Step(s, es[0]), es[1..], id);
      SessionsAreAll(Step(s, es[0]), es[1..], id);
      SentToAppend(Outputs(s, es[0]), RunOutputs(Step(s, es[0]), es[1..]), id);
      if LogsIn(s, es[0], id) {
        LoginIsSilent(s, es[0], id);
        assert ([[]] + rest)[1..] == rest;
      } else {
        var first := SentTo(Outputs(s, es[0]), id) + rest[0];
        assert ([first] + rest[1..])[1..] == rest[1..];
      }
    }
  }

  lemma LoginIsSilent(s: State, e: Event, id: string)
    requires SessionInv(s) && Enabled(s, e) && LogsIn(s, e, id)
    ensures Outputs(s, e) == []
  {
  }

  /** Nothing is sent to a client that is not connected, and everything to a connected one
      goes over the socket it is connected through. */
  lemma OutputsOverSocket(s: State, e: Event, id: string)
    requires Inv(s) && Enabled(s, e)
    ensures forall o :: o in SentTo(Outputs(s, e), id) ==>
      AlreadyConnected(s, id) && o.fd == s.subscribers[id].sockfd
  {
    SentToMembers(Outputs(s, e), id);
    if e.Publish? {
      DeliveriesOncePerClient(s, e.order, e.packet);
    }
  }

  lemma {:induction false} SentToMembers(log: seq<Sent>, id: string)
    ensures forall o :: o in SentTo(log, id) ==> o in log && o.client == id
  {
    if log != [] {
      SentToMembers(log[1..], id);
      assert log[0] in log && forall o :: o in log[1..] ==> o in log;
    }
  }

  /** Each list is one connection: all its frames went over one descriptor. */
  lemma {:induction false} SessionsAreConnections(s: State, es: seq<Event>, id: string)
    requires Inv(s) && Runs(s, es)
    ensures var r := Sessions(s, es, id);
      && (forall o :: o in r[0] ==> AlreadyConnected(s, id) && o.fd == s.subscribers[id].sockfd)
      && (forall k, o, p :: 0 <= k < |r| && o in r[k] && p in r[k] ==> o.fd == p.fd)
    decreases |es|
  {
    hide SessionInv, TrieInv, Enabled, Outputs, Step;
    if es != [] {
      var e, s' := es[0], Step(s, es[0]);
      StepKeepsInv(s, e);
      SessionsAreConnections(s', es[1..], id);
      OutputsOverSocket(s, e, id);
      SocketKept(s, e, id);
      var r, rest := Sessions(s, es, id), Sessions(s', es[1..], id);
      forall k | 1 <= k < |r|
        ensures exists j :: 0 <= j < |rest| && r[k] == rest[j]
      {
        assert r[k] == rest[if LogsIn(s, e, id) then k - 1 else k];
      }
    }
  }

  /** Unless it logs in, a client that is connected after a step was so before, through
      the same socket. */
  lemma SocketKept(s: State, e: Event, id: string)
    requires Inv(s) && Enabled(s, e)
    ensures !LogsIn(s, e, id) && AlreadyConnected(Step(s, e), id) ==>
      AlreadyConnected(s, id) && Step(s, e).subscribers[id].sockfd == s.subscribers[id].sockfd
  {
  }

  function FramesOf(logs: seq<seq<Sent>>): seq<seq<Frame>> {
    seq(|logs|, i requires 0 <= i < |logs| => Frames(logs[i]))
  }

  /** Whatever happens to the broker, a client that gets every byte of each of its
      connections, however the kernel cuts and interrupts them, is shown exactly its frames,
      and its acknowledgements spell out exactly the topics the broker holds for it. */
  method SubscriberKnowsItsTopics(ghost reserved: seq<int>, ghost es: seq<Event>, id: string,
                                  connections: seq<seq<Frame>>, interrupts: nat, reset: bool)
    returns (topics: set<string>)
    requires Inv(Initial(reserved)) && Runs(Initial(reserved), es)
    requires connections == FramesOf(Sessions(Initial(reserved), es, id))
    ensures topics == TopicsOf(Exec(Initial(reserved), es), id)
  {
    hide SessionInv, TrieInv, Runs, Exec, RunOutputs, Sessions, TopicsOf, Believing, EncodeFrames;
    ghost var logs := Sessions(Initial(reserved), es, id);
    topics := {};
    for k := 0 to |connections|
      invariant topics == Believed({}, Frames(Flatten(logs[..k])))
    {
      ConnectionsPacked(Initial(reserved), es, id, k);
      var size := |EncodeFrames(connections[k])|;
      var shown := Converse(connections[k], size, [], size, interrupts, reset);
      BelievedAppend({}, Frames(Flatten(logs[..k])), shown);
      FlattenSnoc(logs, k);
      topics := Believed(topics, shown);
    }
    assert logs[..|logs|] == logs;
    SessionsAreAll(Initial(reserved), es, id);
    BelievedIsReplay({}, RunOutputs(Initial(reserved), es), id);
    AckReplayFromStart(reserved, es, id);
  }

  lemma FlattenSnoc(logs: seq<seq<Sent>>, k: nat)
    requires k < |logs|
    ensures Frames(Flatten(logs[..k + 1])) == Frames(Flatten(logs[..k])) + Frames(logs[k])
  {
    FlattenAppend(logs[..k], [logs[k]]);
    assert logs[..k + 1] == logs[..k] + [logs[k]];
    assert Flatten([logs[k]]) == logs[k];
  }

  lemma {:induction false} FlattenMembers(logs: seq<seq<Sent>>, k: nat)
    requires k < |logs|
    ensures forall o :: o in logs[k] ==> o in Flatten(logs)
  {
    if k > 0 {
      FlattenMembers(logs[1..], k - 1);
    }
  }

  lemma ConnectionsPacked(s: State, es: seq<Event>, id: string, k: nat)
    requires Inv(s) && Runs(s, es) && k < |Sessions(s, es, id)|
    ensures AllPacked(Frames(Sessions(s, es, id)[k]))
  {
    hide SessionInv, TrieInv, Runs, Sessions;
    OutputsPacked(s, es);
    SessionsAreAll(s, es, id);
    SentToMembers(RunOutputs(s, es), id);
    FlattenMembers(Sessions(s, es, id), k);
  }

  /** The server from start-up to `exit`: its tables and what it sent are those of a run of
      the broker whose events are exactly the ones the rounds spell out, and on every topic
      it then delivers to no one but the ids the ideal broker of that run would reach, and
      to all of these when no unsubscription collided. */
  method RunServer(udpFd: int, listenFd: int, rounds: seq<Round>) returns (server: Server, ghost es: seq<Event>)
    requires forall r :: r in rounds ==> r.WellFormed()
    ensures server.Valid() && Leads(Initial([0, udpFd, listenFd]), es, server.Snapshot(), server.sent)
    ensures Served(Initial([0, udpFd, listenFd]), rounds, es)
    ensures var start := Initial([0, udpFd, listenFd]);
      var a := IdealRun(start, es, Ideal(map[], {}));
      forall topic ::
        && Recipients(server.Snapshot(), topic) <= IdealRecipients(a, topic)
        && (NeverCollides(start, es) ==> Recipients(server.Snapshot(), topic) == IdealRecipients(a, topic))
  {
    hide Inv, Server.Snapshot, Round.WellFormed, Recipients, IdealRecipients, Served;
    server := new Server(udpFd, listenFd);
    ghost var log;
    es, log := server.Serve(rounds);
    ghost var start := Initial([0, udpFd, listenFd]);
    forall topic
      ensures Recipients(server.Snapshot(), topic) <= IdealRecipients(IdealRun(start, es, Ideal(map[], {})), topic)
      ensures NeverCollides(start, es) ==>
        Recipients(server.Snapshot(), topic) == IdealRecipients(IdealRun(start, es, Ideal(map[], {})), topic)
    {
      DeliveryOverRuns([0, udpFd, listenFd], es, topic);
    }
  }
}
