/** The server's own procedures over its mutable tables and the heap-allocated trie.
    Each is proved to be a run of the broker state machine. */
module Server {
  import Backtracking
  import opened Broker
  import opened BrokerRuns
  import Routes
  import opened Subscriptions
  import opened Trie
  import opened Turns
  import opened Wire
  import Topics

  class Server {
    var pollFds: seq<PollFd>
    var subscribers: map<string, SubscriberData>
    var connectedSubscribers: map<int, string>
    const trie: TopicTrie
    // The kernel's side: client sockets open, and frames handed to `sendall`.
    var open: set<int>
    var sent: seq<Sent>

    ghost function Snapshot(): State
      requires |pollFds| >= SUBS_START_IDX
      reads this, trie`held
    {
      State(Fds(pollFds[..SUBS_START_IDX]), Fds(pollFds[SUBS_START_IDX..]),
            subscribers, connectedSubscribers, trie.Subs(), open)
    }

    ghost predicate Valid()
      reads this, trie, trie.nodes
    {
      |pollFds| >= SUBS_START_IDX && trie.Valid() && Inv(Snapshot())
    }

    constructor (udpFd: int, listenFd: int)
      ensures Valid() && fresh(trie) && fresh(trie.nodes) && sent == []
      ensures Snapshot() == Initial([0, udpFd, listenFd])
      ensures subscribers == map[] && connectedSubscribers == map[] && open == {} && trie.Subs() == {}
      ensures pollFds == [PollFd(0, false), PollFd(udpFd, false), PollFd(listenFd, false)]
    {
      hide TopicTrie.Valid, TopicTrie.Subs;
      pollFds := [PollFd(0, false), PollFd(udpFd, false), PollFd(listenFd, false)];
      subscribers, connectedSubscribers, open, sent := map[], map[], {}, [];
      trie := new TopicTrie();
      new;
      assert Fds(pollFds[..SUBS_START_IDX]) == [0, udpFd, listenFd];
    }

    /** `accept`, then `recvall` of the id. */
    method Accept(arrival: AcceptResult) returns (result: AcceptResult)
      requires |pollFds| >= SUBS_START_IDX
      ensures result == Admit(arrival, open, Fds(pollFds[..SUBS_START_IDX]))
      ensures result == arrival || result.AcceptFailed?
      ensures result.Accepted? ==> result.fd !in open && result.fd !in Fds(pollFds[..SUBS_START_IDX])
    {
      result := Admit(arrival, open, Fds(pollFds[..SUBS_START_IDX]));
    }

    /** The pushed entry's `revents` are whatever the stack held: `garbage`. */
    method ConnectNewClient(result: AcceptResult, garbage: bool) returns (ghost e: Event)
      requires Valid()
      requires result.Accepted? ==> result.fd !in open && result.fd !in Fds(pollFds[..SUBS_START_IDX])
      modifies this
      ensures Valid() && e == AcceptEvent(result) && Enabled(old(Snapshot()), e)
      ensures Snapshot() == Step(old(Snapshot()), e) && sent == old(sent)
      ensures pollFds == old(pollFds) + NewEntries(old(Snapshot()), e, garbage)
      ensures if result.Accepted? && !old(AlreadyConnected(Snapshot(), CString(result.id))) then
                var fd, id := result.fd, CString(result.id);
                && subscribers == old(subscribers)[id := SubscriberData(true, fd, old(TopicsOf(Snapshot(), id)))]
                && connectedSubscribers == old(connectedSubscribers)[fd := id]
                && pollFds == old(pollFds) + [PollFd(fd, garbage)] && open == old(open) + {fd}
              else
                && subscribers == old(subscribers) && connectedSubscribers == old(connectedSubscribers)
                && pollFds == old(pollFds) && open == old(open)
    {
      hide SessionInv, TrieInv, TopicTrie.Valid, CString;
      e := Reject;
      assert pollFds + [] == pollFds;
      if result.AcceptFailed? || result.IdNotReceived? {
        return;
      }
      var newSocket, connectingId := result.fd, CString(result.id);
      e := Connect(newSocket, connectingId);
      StepKeepsInv(Snapshot(), e);
      if connectingId in subscribers && subscribers[connectingId].connected {
        return;
      }
      open := open + {newSocket};
      var topics := if connectingId in subscribers then subscribers[connectingId].topics else {};
      subscribers := subscribers[connectingId := SubscriberData(true, newSocket, topics)];
      connectedSubscribers := connectedSubscribers[newSocket := connectingId];
      pollFds := pollFds + [PollFd(newSocket, garbage)];
      assert pollFds[..SUBS_START_IDX] == old(pollFds)[..SUBS_START_IDX];
      assert Fds(pollFds[SUBS_START_IDX..]) == old(Fds(pollFds[SUBS_START_IDX..])) + [newSocket];
    }

    method ProcessSubRequest(clientFd: int, request: SubscribeRequest) returns (ghost e: Event)
      requires Valid() && clientFd in connectedSubscribers && request.Packed() && 0 in request.topic
      modifies this`subscribers, this`sent, trie, trie.nodes
      ensures Valid() && fresh(trie.nodes - old(trie.nodes))
      ensures e == Request(clientFd, request) && Enabled(old(Snapshot()), e)
      ensures Snapshot() == Step(old(Snapshot()), e) && sent == old(sent) + Outputs(old(Snapshot()), e)
      ensures var id, topic := connectedSubscribers[clientFd], CString(request.topic);
        var before, after := old(TopicsOf(Snapshot(), id)), TopicsOf(Snapshot(), id);
        && after == (if request.operation == 0 then before + {topic}
                     else if request.operation == 1 then before - {topic} else before)
        && sent == old(sent) + (if after == before then [] else
             [Sent(clientFd, id, AckFrame(SubscribeRequest(if topic in after then 2 else 3, request.topic)))])
    {
      hide TrieInv, NoDuplicates, CString, Topics.Split, TopicTrie.Valid, Fds;
      e := Request(clientFd, request);
      RequestAnswered(Snapshot(), clientFd, request);
      StepKeepsInv(Snapshot(), e);
      var clientName, topic := connectedSubscribers[clientFd], CString(request.topic);
      var subscriber := subscribers[clientName];
      if request.operation == OPERATION_SUBSCRIBE {
        if topic in subscriber.topics {
          return;
        }
        subscribers := subscribers[clientName := subscriber.(topics := subscriber.topics + {topic})];
        trie.AddSubscription(topic, clientName);
        sent := sent + [Sent(subscriber.sockfd, clientName, AckFrame(request.(operation := OPERATION_ACK_SUB)))];
      } else if request.operation == OPERATION_UNSUBSCRIBE {
        if topic !in subscriber.topics {
          return;
        }
        subscribers := subscribers[clientName := subscriber.(topics := subscriber.topics - {topic})];
        trie.RemoveSubscription(topic, clientName);
        sent := sent + [Sent(subscriber.sockfd, clientName, AckFrame(request.(operation := OPERATION_ACK_UNSUB)))];
      }
    }

    /** `subscribers[id]`: operator[] would create a missing record. */
    method SubscriberAt(id: string) returns (subscriber: SubscriberData)
      modifies this`subscribers
      ensures id in subscribers && subscriber == subscribers[id]
      ensures subscribers == if id in old(subscribers) then old(subscribers)
                             else old(subscribers)[id := SubscriberData(false, 0, {})]
    {
      if id !in subscribers {
        subscribers := subscribers[id := SubscriberData(false, 0, {})];
      }
      subscriber := subscribers[id];
    }

    /** Walks the matching ids in whatever order the hash set gives them. */
    method SendMsgToAllSubs(topicStr: string, response: Packet) returns (ghost e: Event)
      requires Valid() && response.Packed() && topicStr == TopicOf(response.msg)
      modifies this`subscribers, this`sent, trie`entries
      ensures Valid() && Enabled(old(Snapshot()), e) && e.Publish? && e.packet == response
      ensures Snapshot() == Step(old(Snapshot()), e) && sent == old(sent) + Outputs(old(Snapshot()), e)
      ensures trie.entries
           == old(trie.entries) + Backtracking.Calls(trie.at.Keys, Routes.Root, Topics.Split(topicStr))
    {
      hide SessionInv, TrieInv, TopicTrie.Valid, Found, Deliveries, NoDuplicates;
      assert NoDuplicates<string>([]) && Deliveries(old(Snapshot()), [], response) == [] by {
        NoOrder(old(Snapshot()), response);
      }
      var matchingIds := trie.FindSubscribers(topicStr);
      ghost var entries := trie.entries;
      ghost var order := [];
      var rest := matchingIds;
      while rest != {}
        invariant rest <= matchingIds && NoDuplicates(order)
        invariant forall id :: id in order <==> id in matchingIds - rest
        invariant subscribers == old(subscribers)
        invariant trie.entries == entries
        invariant sent == old(sent) + Deliveries(old(Snapshot()), order, response)
      {
        var subId :| subId in rest;
        rest := rest - {subId};
        KnownClient(subId, topicStr);
        var subscriber := SubscriberAt(subId);
        DeliveriesSnoc(old(Snapshot()), order, subId, response);
        NoDuplicatesSnoc(order, subId);
        order := order + [subId];
        if subscriber.connected {
          sent := sent + [Sent(subscriber.sockfd, subId, MessageFrame(response))];
        }
      }
      e := Publish(response, order);
    }

    /** Every id the trie finds has a record. */
    lemma KnownClient(id: string, topic: string)
      requires Valid() && id in Found(trie.Subs(), Topics.Split(topic))
      ensures id in subscribers
    {
    }

    /** The client behind entry `i` is gone; its subscriptions stay in the trie. */
    method DropClient(i: nat) returns (ghost e: Event)
      requires Valid() && SUBS_START_IDX <= i < |pollFds|
      modifies this`subscribers, this`connectedSubscribers, this`open, this`pollFds
      ensures Valid() && e == Disconnect(old(pollFds)[i].fd) && Enabled(old(Snapshot()), e)
      ensures Snapshot() == Step(old(Snapshot()), e) && Outputs(old(Snapshot()), e) == []
      ensures pollFds == old(pollFds)[..i] + old(pollFds)[i + 1..]
      ensures var fd := old(pollFds)[i].fd;
        && fd in old(connectedSubscribers) && old(connectedSubscribers)[fd] in old(subscribers)
        && var id := old(connectedSubscribers)[fd];
        && subscribers == old(subscribers)[id := old(subscribers)[id].(connected := false)]
        && connectedSubscribers == old(connectedSubscribers) - {fd} && open == old(open) - {fd}
    {
      hide TrieInv, TopicTrie.Valid, NoDuplicates;
      var clientFd := pollFds[i].fd;
      e := Disconnect(clientFd);
      PolledIsMapped(i);
      StepKeepsInv(Snapshot(), e);
      EraseIsWithout(pollFds, i);
      var clientName := connectedSubscribers[clientFd];
      subscribers := subscribers[clientName := subscribers[clientName].(connected := false)];
      open := open - {clientFd};
      connectedSubscribers := connectedSubscribers - {clientFd};
      pollFds := pollFds[..i] + pollFds[i + 1..];
      assert pollFds[..SUBS_START_IDX] == old(pollFds)[..SUBS_START_IDX];
    }

    /** A polled client always has a session. */
    lemma PolledIsMapped(i: nat)
      requires |pollFds| >= SUBS_START_IDX && SessionInv(Snapshot()) && SUBS_START_IDX <= i < |pollFds|
      ensures pollFds[i].fd in connectedSubscribers
      ensures NoDuplicates(Fds(pollFds[SUBS_START_IDX..]))
    {
      var fds := Fds(pollFds[SUBS_START_IDX..]);
      assert fds[i - SUBS_START_IDX] == pollFds[i].fd;
      assert pollFds[i].fd in Snapshot().clients;
    }

    /** Reads the readable client behind entry `i` until it would block, and drops it
        when it has gone. */
    method DrainClient(i: nat, script: seq<RecvResult>)
      returns (closed: bool, ghost es: seq<Event>, ghost log: seq<Sent>)
      requires Valid() && SUBS_START_IDX <= i < |pollFds| && Terminated(script)
      modifies this`subscribers, this`connectedSubscribers, this`open, this`pollFds, this`sent, trie, trie.nodes
      ensures Valid() && fresh(trie.nodes - old(trie.nodes))
      ensures closed == DrainCloses(script) && es == DrainEvents(old(pollFds)[i].fd, script)
      ensures sent == old(sent) + log && Leads(old(Snapshot()), es, Snapshot(), log)
      ensures pollFds == if closed then old(pollFds)[..i] + old(pollFds)[i + 1..] else old(pollFds)
    {
      hide SessionInv, TrieInv, TopicTrie.Valid, Snapshot, Leads, Step, Outputs, Enabled;
      hide DrainEvents, DrainCloses;
      var clientFd := pollFds[i].fd;
      closed, es, log := false, [], [];
      LeadsNowhere(Snapshot());
      var j := 0;
      assert script[0..] == script;
      while true
        invariant Valid() && fresh(trie.nodes - old(trie.nodes)) && pollFds == old(pollFds)
        invariant j <= |script| && !closed
        invariant DrainCloses(script) == DrainCloses(script[j..])
        invariant DrainEvents(clientFd, script) == es + DrainEvents(clientFd, script[j..])
        invariant sent == old(sent) + log && Leads(old(Snapshot()), es, Snapshot(), log)
        decreases |script| - j
      {
        var received := if j < |script| then script[j] else WouldBlock;
        PolledIsMapped(i);
        DrainStep(clientFd, script, j);
        ghost var s, e := Snapshot(), Reject;
        if received.Got? {
          e := ProcessSubRequest(clientFd, received.request);
          LeadsStep(s, e, Snapshot(), Outputs(s, e));
          LeadsOn(old(Snapshot()), es, s, log, [e], Snapshot(), Outputs(s, e));
          es, log := es + [e], log + Outputs(s, e);
          j := j + 1;
        } else if received.Closed? {
          e := DropClient(i);
          LeadsStep(s, e, Snapshot(), []);
          LeadsOn(old(Snapshot()), es, s, log, [e], Snapshot(), []);
          assert log + [] == log;
          es, closed := es + [e], true;
          assert es == DrainEvents(clientFd, script);
          break;
        } else {
          assert es + [] == es;
          assert es == DrainEvents(clientFd, script);
          break;
        }
      }
    }

    /** One turn of the client loop. */
    method InspectClient(i: nat, inbox: map<int, seq<RecvResult>>)
      returns (closed: bool, ghost es: seq<Event>, ghost log: seq<Sent>)
      requires Valid() && SUBS_START_IDX <= i < |pollFds|
      requires forall fd :: fd in inbox ==> Terminated(inbox[fd])
      modifies this`subscribers, this`connectedSubscribers, this`open, this`pollFds, this`sent, trie, trie.nodes
      ensures Valid() && fresh(trie.nodes - old(trie.nodes))
      ensures closed == ClosesNow(old(pollFds)[i], inbox) && es == PollEvents(old(pollFds)[i], inbox)
      ensures sent == old(sent) + log && Leads(old(Snapshot()), es, Snapshot(), log)
      ensures pollFds == if closed then old(pollFds)[..i] + old(pollFds)[i + 1..] else old(pollFds)
    {
      hide SessionInv, TrieInv, TopicTrie.Valid, Snapshot, Leads, DrainEvents, DrainCloses;
      closed, es, log := false, [], [];
      if pollFds[i].readable {
        closed, es, log := DrainClient(i, ScriptOf(inbox, pollFds[i].fd));
      } else {
        LeadsNowhere(Snapshot());
      }
    }

    /** The loop over the polled clients with its in-place erase: it inspects every entry
        present at its start once and in order, and erases exactly the ones that closed. */
    method PollClients(inbox: map<int, seq<RecvResult>>) returns (ghost es: seq<Event>, ghost log: seq<Sent>)
      requires Valid() && forall fd :: fd in inbox ==> Terminated(inbox[fd])
      modifies this`subscribers, this`connectedSubscribers, this`open, this`pollFds, this`sent, trie, trie.nodes
      ensures Valid() && fresh(trie.nodes - old(trie.nodes))
      ensures pollFds == old(pollFds)[..SUBS_START_IDX] + Survivors(old(pollFds)[SUBS_START_IDX..], inbox)
      ensures es == AllPollEvents(old(pollFds)[SUBS_START_IDX..], inbox)
      ensures sent == old(sent) + log && Leads(old(Snapshot()), es, Snapshot(), log)
    {
      hide SessionInv, TrieInv, TopicTrie.Valid, Snapshot, Leads, PollEvents, ClosesNow, Terminated;
      hide ListAt, IndexAt, EventsAt, Survivors, AllPollEvents;
      es, log := [], [];
      LeadsNowhere(Snapshot());
      ghost var first, clients := pollFds[..SUBS_START_IDX], pollFds[SUBS_START_IDX..];
      assert pollFds == first + clients;
      InspectionStart(first, clients, inbox);
      InspectionEnd(first, clients, inbox, 0);
      ghost var done := 0;
      var i := SUBS_START_IDX;
      while i < |pollFds|
        invariant Valid() && fresh(trie.nodes - old(trie.nodes))
        invariant 0 <= done <= |clients| && (i < |pollFds| <==> done < |clients|) && i >= SUBS_START_IDX
        invariant pollFds == ListAt(first, clients, inbox, done) && i == IndexAt(first, clients, inbox, done)
        invariant es == EventsAt(clients, inbox, done)
        invariant sent == old(sent) + log && Leads(old(Snapshot()), es, Snapshot(), log)
        decreases |clients| - done
      {
        ghost var s := Snapshot();
        InspectionStep(first, clients, inbox, done);
        InspectionEnd(first, clients, inbox, done + 1);
        var closed, some, part := InspectClient(i, inbox);
        LeadsOn(old(Snapshot()), es, s, log, some, Snapshot(), part);
        es, log := es + some, log + part;
        if closed {
          i := i - 1;
        }
        i := i + 1;
        done := done + 1;
      }
    }

    /** `poll` reports which descriptors are readable, and nothing else changes. */
    method Poll(ready: set<int>)
      requires Valid()
      modifies this`pollFds
      ensures Valid() && Snapshot() == old(Snapshot()) && |Snapshot().reserved| == SUBS_START_IDX
      ensures pollFds[UDP_POLLFD_IDX].readable <==> Snapshot().reserved[UDP_POLLFD_IDX] in ready
      ensures pollFds[LISTENER_POLLFD_IDX].readable <==> Snapshot().reserved[LISTENER_POLLFD_IDX] in ready
      ensures pollFds[SUBS_START_IDX..] == Flagged(Snapshot().clients, ready)
    {
      hide Inv, TopicTrie.Valid;
      var before := pollFds;
      pollFds := seq(|before|, i requires 0 <= i < |before| => PollFd(before[i].fd, before[i].fd in ready));
      assert Fds(pollFds[..SUBS_START_IDX]) == old(Fds(pollFds[..SUBS_START_IDX]));
      assert Fds(pollFds[SUBS_START_IDX..]) == old(Fds(pollFds[SUBS_START_IDX..]));
    }

    /** Drains the UDP socket, publishing every datagram. */
    method DrainUdp(datagrams: seq<Packet>) returns (ghost es: seq<Event>, ghost log: seq<Sent>)
      requires Valid() && forall d :: d in datagrams ==> d.Packed()
      modifies this`subscribers, this`sent, trie`entries
      ensures Valid() && sent == old(sent) + log && Leads(old(Snapshot()), es, Snapshot(), log)
      ensures PublishesOf(es, datagrams) && Snapshot() == old(Snapshot())
    {
      hide SessionInv, TrieInv, TopicTrie.Valid, Leads, Snapshot, Outputs, Enabled;
      es, log := [], [];
      LeadsNowhere(Snapshot());
      for k := 0 to |datagrams|
        invariant Valid() && sent == old(sent) + log && Leads(old(Snapshot()), es, Snapshot(), log)
        invariant Snapshot() == old(Snapshot())
        invariant |es| == k && forall j :: 0 <= j < k ==> es[j].Publish? && es[j].packet == datagrams[j]
      {
        ghost var s := Snapshot();
        var topicStr := TopicOf(datagrams[k].msg);
        ghost var e := SendMsgToAllSubs(topicStr, datagrams[k]);
        LeadsStep(s, e, Snapshot(), Outputs(s, e));
        LeadsOn(old(Snapshot()), es, s, log, [e], Snapshot(), Outputs(s, e));
        es, log := es + [e], log + Outputs(s, e);
      }
    }

    /** Accepts one connection and enters it into the tables, or turns it away. */
    method AcceptClient(arrival: AcceptResult, garbage: bool) returns (ghost e: Event)
      requires Valid()
      modifies this
      ensures Valid() && sent == old(sent) && Leads(old(Snapshot()), [e], Snapshot(), [])
      ensures e == AcceptEvent(Admit(arrival, old(Snapshot()).open, old(Snapshot()).reserved))
      ensures |pollFds| >= |old(pollFds)|
      ensures pollFds[SUBS_START_IDX..] == old(pollFds)[SUBS_START_IDX..] + NewEntries(old(Snapshot()), e, garbage)
    {
      hide SessionInv, TrieInv, TopicTrie.Valid, Leads, Step, Enabled, CString, NewEntries;
      var result := Accept(arrival);
      ghost var s, polls := Snapshot(), pollFds;
      e := ConnectNewClient(result, garbage);
      LeadsStep(s, e, Snapshot(), []);
      SliceAppend(polls, NewEntries(s, e, garbage), SUBS_START_IDX);
    }

    /** One turn of the main loop: what happens is what the round says, and the polled
        clients that remain are the inspected ones that did not close. */
    method Turn(round: Round) returns (ghost es: seq<Event>, ghost log: seq<Sent>)
      requires Valid() && round.WellFormed()
      modifies this, trie, trie.nodes
      ensures Valid() && fresh(trie.nodes - old(trie.nodes))
      ensures |old(Snapshot()).reserved| == SUBS_START_IDX && TurnOf(old(Snapshot()), round, es)
      ensures old(pollFds)[UDP_POLLFD_IDX].fd in round.ready ==>
        && |es| >= |round.datagrams|
        && forall k :: 0 <= k < |round.datagrams| ==> es[k].Publish? && es[k].packet == round.datagrams[k]
      ensures sent == old(sent) + log && Leads(old(Snapshot()), es, Snapshot(), log)
      ensures pollFds[SUBS_START_IDX..] == Survivors(Inspected(old(Snapshot()), round), round.inbox)
    {
      hide Inv, TopicTrie.Valid, Leads, Snapshot, Survivors, AllPollEvents, Terminated;
      hide TurnOf, PublishesOf, Flagged, NewEntries, AcceptEvent, Admit;
      ThreeReserved();
      es, log := [], [];
      ghost var s0 := Snapshot();
      Poll(round.ready);
      LeadsNowhere(s0);
      NoPublishes();
      ghost var e, some, part;
      if pollFds[UDP_POLLFD_IDX].readable {
        es, log := DrainUdp(round.datagrams);
      }
      ghost var publishes, arrivals, clients := es, [], pollFds[SUBS_START_IDX..];
      assert es == publishes + arrivals;
      if pollFds[LISTENER_POLLFD_IDX].readable {
        e := AcceptClient(round.arrival, round.garbage);
        LeadsOn(s0, es, s0, log, [e], Snapshot(), []);
        arrivals := [e];
        es := publishes + arrivals;
        assert log + [] == log;
      }
      assert arrivals == Arrivals(s0, round);
      assert clients + [] == clients;
      assert pollFds[SUBS_START_IDX..] == Inspected(s0, round);
      ghost var s := Snapshot();
      some, part := PollClients(round.inbox);
      LeadsOn(s0, es, s, log, some, Snapshot(), part);
      TurnParts(s0, round, publishes);
      assert es + some == publishes + (arrivals + some);
      es, log := es + some, log + part;
      EveryDatagram(s0, round, es);
    }

    /** The main loop, until `exit` is typed after the last of `rounds`. */
    method Serve(rounds: seq<Round>) returns (ghost es: seq<Event>, ghost log: seq<Sent>)
      requires Valid() && forall r :: r in rounds ==> r.WellFormed()
      modifies this, trie, trie.nodes
      ensures Valid() && fresh(trie.nodes - old(trie.nodes))
      ensures |old(Snapshot()).reserved| == SUBS_START_IDX && Served(old(Snapshot()), rounds, es)
      ensures sent == old(sent) + log && Leads(old(Snapshot()), es, Snapshot(), log)
    {
      hide SessionInv, TrieInv, TopicTrie.Valid, Snapshot, Round.WellFormed, TurnOf, Served, Leads;
      es, log := [], [];
      LeadsNowhere(Snapshot());
      ThreeReserved();
      ServedNothing(Snapshot());
      assert rounds[..0] == [];
      for k := 0 to |rounds|
        invariant Valid() && fresh(trie.nodes - old(trie.nodes))
        invariant Served(old(Snapshot()), rounds[..k], es)
        invariant sent == old(sent) + log && Leads(old(Snapshot()), es, Snapshot(), log)
      {
        ghost var s := Snapshot();
        var more, part := Turn(rounds[k]);
        ServedOn(old(Snapshot()), rounds, k, es, s, log, more);
        LeadsOn(old(Snapshot()), es, s, log, more, Snapshot(), part);
        es, log := es + more, log + part;
      }
      assert rounds[..|rounds|] == rounds;
    }

    lemma ThreeReserved()
      requires |pollFds| >= SUBS_START_IDX
      ensures |Snapshot().reserved| == SUBS_START_IDX
      ensures Snapshot().reserved[UDP_POLLFD_IDX] == pollFds[UDP_POLLFD_IDX].fd
    {
    }
  }
}
