/** The broker as a state machine: what each step does to the four tables, what it
    sends, and what every reachable state keeps. */
module Broker {
  import opened Subscriptions
  import opened Wire
  import Topics

  /** `subscriber_data`. */
  datatype SubscriberData = SubscriberData(connected: bool, sockfd: int, topics: set<string>)

  datatype State = State(
    reserved: seq<int>,                     // poll_fds before the clients: stdin, UDP, listener
    clients: seq<int>,                      // poll_fds from SUBS_START_IDX on
    subscribers: map<string, SubscriberData>,   // subscribers
    sessions: map<int, string>,             // connected_subscribers
    trie: set<Subscription>,                // trie
    open: set<int>)                         // client sockets the kernel holds open

  /** One thing that happens to the broker. A publish carries the order in which the
      hash set of matching ids happens to be walked. */
  datatype Event =
    | Reject
    | Connect(fd: int, id: string)
    | Request(fd: int, request: SubscribeRequest)
    | Disconnect(fd: int)
    | Publish(packet: Packet, order: seq<string>)

  /** A frame handed to `sendall` for a client. */
  datatype Sent = Sent(fd: int, client: string, frame: Frame)

  predicate NoDuplicates<T(==)>(s: seq<T>) {
    forall i, j :: 0 <= i < j < |s| ==> s[i] != s[j]
  }

  /** The polled clients, the session map and the kernel agree, and an id is connected
      exactly when a session maps to it, through the socket it records. */
  ghost predicate SessionInv(s: State) {
    && NoDuplicates(s.clients)
    && (forall fd :: fd in s.clients <==> fd in s.sessions)
    && (forall fd :: fd in s.clients ==> fd !in s.reserved)
    && s.open == s.sessions.Keys
    && (forall fd :: fd in s.sessions ==>
          && s.sessions[fd] in s.subscribers
          && s.subscribers[s.sessions[fd]].connected
          && s.subscribers[s.sessions[fd]].sockfd == fd)
    && (forall id :: id in s.subscribers && s.subscribers[id].connected ==>
          && s.subscribers[id].sockfd in s.sessions
          && s.sessions[s.subscribers[id].sockfd] == id)
  }

  /** The client holds a topic with this pattern. */
  ghost predicate Holds(s: State, sub: Subscription) {
    && sub.client in s.subscribers
    && exists t :: t in s.subscribers[sub.client].topics && Topics.Split(t) == sub.pattern
  }

  /** Everything in the trie is the split of a topic its client holds. */
  ghost predicate TrieInv(s: State) {
    forall sub :: sub in s.trie ==> Holds(s, sub)
  }

  ghost predicate Inv(s: State) {
    SessionInv(s) && TrieInv(s)
  }

  /** What the environment can do: `accept` returns a descriptor that is not open, reads
      happen on polled clients only, and a request's topic is NUL-terminated. */
  ghost predicate Enabled(s: State, e: Event) {
    match e
    case Reject => true
    case Connect(fd, id) => fd !in s.open && fd !in s.reserved
    case Request(fd, request) => fd in s.sessions && request.Packed() && 0 in request.topic
    case Disconnect(fd) => fd in s.sessions
    case Publish(packet, order) =>
      && packet.Packed() && NoDuplicates(order)
      && (forall id :: id in order <==> id in Found(s.trie, Topics.Split(TopicOf(packet.msg))))
  }

  predicate AlreadyConnected(s: State, id: string) {
    id in s.subscribers && s.subscribers[id].connected
  }

  /** The topics an id holds; none before its first connection. */
  function TopicsOf(s: State, id: string): set<string> {
    if id in s.subscribers then s.subscribers[id].topics else {}
  }

  /** A request changes something: a new topic to subscribe to, or a held one to drop. */
  predicate Subscribes(s: State, id: string, r: SubscribeRequest) {
    r.operation == OPERATION_SUBSCRIBE && CString(r.topic) !in TopicsOf(s, id)
  }

  predicate Unsubscribes(s: State, id: string, r: SubscribeRequest) {
    r.operation == OPERATION_UNSUBSCRIBE && CString(r.topic) in TopicsOf(s, id)
  }

  function WithTopics(s: State, id: string, topics: set<string>, trie: set<Subscription>): State
    requires id in s.subscribers
  {
    s.(subscribers := s.subscribers[id := s.subscribers[id].(topics := topics)], trie := trie)
  }

  function Without(fds: seq<int>, fd: int): seq<int> {
    if fds == [] then [] else (if fds[0] == fd then [] else [fds[0]]) + Without(fds[1..], fd)
  }

  function Step(s: State, e: Event): State
    requires SessionInv(s) && Enabled(s, e)
  {
    match e
    case Reject => s
    case Connect(fd, id) =>
      if AlreadyConnected(s, id) then s
      else s.(clients := s.clients + [fd],
              subscribers := s.subscribers[id := SubscriberData(true, fd, TopicsOf(s, id))],
              sessions := s.sessions[fd := id],
              open := s.open + {fd})
    case Request(fd, r) =>
      var id, topic := s.sessions[fd], CString(r.topic);
      var entry := Subscription(Topics.Split(topic), id);
      if Subscribes(s, id, r) then WithTopics(s, id, TopicsOf(s, id) + {topic}, s.trie + {entry})
      else if Unsubscribes(s, id, r) then WithTopics(s, id, TopicsOf(s, id) - {topic}, s.trie - {entry})
      else s
    case Disconnect(fd) =>
      var id := s.sessions[fd];
      s.(clients := Without(s.clients, fd),
         subscribers := s.subscribers[id := s.subscribers[id].(connected := false)],
         sessions := s.sessions - {fd},
         open := s.open - {fd})
    case Publish(_, _) => s
  }

  /** One frame for each connected id of `order`. */
  function Deliveries(s: State, order: seq<string>, packet: Packet): seq<Sent> {
    if order == [] then []
    else (if AlreadyConnected(s, order[0])
          then [Sent(s.subscribers[order[0]].sockfd, order[0], MessageFrame(packet))] else [])
         + Deliveries(s, order[1..], packet)
  }

  /** What a step sends. */
  function Outputs(s: State, e: Event): seq<Sent>
    requires SessionInv(s) && Enabled(s, e)
  {
    match e
    case Request(fd, r) =>
      var id := s.sessions[fd];
      if Subscribes(s, id, r) then
        [Sent(fd, id, AckFrame(r.(operation := OPERATION_ACK_SUB)))]
      else if Unsubscribes(s, id, r) then
        [Sent(fd, id, AckFrame(r.(operation := OPERATION_ACK_UNSUB)))]
      else []
    case Publish(packet, order) => Deliveries(s, order, packet)
    case _ => []
  }

  lemma {:induction false} WithoutMembers(fds: seq<int>, fd: int)
    ensures forall x :: x in Without(fds, fd) <==> x in fds && x != fd
    ensures NoDuplicates(fds) ==> NoDuplicates(Without(fds, fd))
  {
    if fds != [] {
      WithoutMembers(fds[1..], fd);
      assert NoDuplicates(fds) ==> fds[0] !in fds[1..];
    }
  }

  lemma {:induction false} WithoutAbsent(fds: seq<int>, fd: int)
    requires fd !in fds
    ensures Without(fds, fd) == fds
  {
    if fds != [] {
      WithoutAbsent(fds[1..], fd);
    }
  }

  /** In a duplicate-free list, dropping a value is erasing its one position. */
  lemma {:induction false} WithoutIsErase(before: seq<int>, fd: int, after: seq<int>)
    requires fd !in before && fd !in after
    ensures Without(before + [fd] + after, fd) == before + after
  {
    var all := before + [fd] + after;
    if before == [] {
      assert all[1..] == after;
      WithoutAbsent(after, fd);
    } else {
      WithoutIsErase(before[1..], fd, after);
      assert all[1..] == before[1..] + [fd] + after;
    }
  }

  lemma DisconnectKeepsSessions(s: State, fd: int)
    requires SessionInv(s) && fd in s.sessions
    ensures SessionInv(Step(s, Disconnect(fd)))
  {
    hide NoDuplicates, Without;
    WithoutMembers(s.clients, fd);
  }

  /** Every step keeps the session tables consistent. */
  lemma StepKeepsSessions(s: State, e: Event)
    requires SessionInv(s) && Enabled(s, e)
    ensures SessionInv(Step(s, e))
  {
    hide Without, Subscribes, Unsubscribes;
    if e.Disconnect? {
      DisconnectKeepsSessions(s, e.fd);
    }
  }

  lemma StepKeepsTrie(s: State, e: Event)
    requires Inv(s) && Enabled(s, e)
    ensures TrieInv(Step(s, e))
  {
  }
}
