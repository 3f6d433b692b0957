/** One turn of the main loop as the outside world sees it, and the events it amounts to. */
module Turns {
  import opened Broker
  import opened BrokerRuns
  import opened Lists
  import opened Wire

  const UDP_POLLFD_IDX := 1
  const LISTENER_POLLFD_IDX := 2
  const SUBS_START_IDX := 3

  /** `pollfd`: only whether POLLIN is reported matters. */
  datatype PollFd = PollFd(fd: int, readable: bool)

  /** What `accept` followed by `recvall` of the id can give. */
  datatype AcceptResult = AcceptFailed | IdNotReceived | Accepted(fd: int, id: seq<byte>)

  /** What one non-blocking `recv` on a client socket can give. A short request is lost. */
  datatype RecvResult = Got(request: SubscribeRequest) | Short | WouldBlock | Closed

  /** One turn of the main loop, as the outside world sees it: readable descriptors, queued
      datagrams, what `accept` gives, what the `revents` of a pushed entry happen to hold,
      and per client socket what its next reads give (then they would block). */
  datatype Round = Round(
    ready: set<int>,
    datagrams: seq<Packet>,
    arrival: AcceptResult,
    garbage: bool,
    inbox: map<int, seq<RecvResult>>)
  {
    ghost predicate WellFormed() {
      && (forall d :: d in datagrams ==> d.Packed())
      && (arrival.Accepted? ==> |arrival.id| == ID_LENGTH)
      && (forall fd :: fd in inbox ==> Terminated(inbox[fd]))
    }
  }

  ghost predicate Terminated(script: seq<RecvResult>) {
    forall r :: r in script && r.Got? ==> r.request.Packed() && 0 in r.request.topic
  }

  function Fds(polls: seq<PollFd>): seq<int> {
    seq(|polls|, i requires 0 <= i < |polls| => polls[i].fd)
  }

  /** `es` lead from `s` to `t` and send `log`. */
  ghost predicate Leads(s: State, es: seq<Event>, t: State, log: seq<Sent>) {
    Inv(s) && Runs(s, es) && Exec(s, es) == t && RunOutputs(s, es) == log
  }

  lemma LeadsNowhere(s: State)
    requires Inv(s)
    ensures Leads(s, [], s, [])
  {
  }

  lemma LeadsStep(s: State, e: Event, t: State, log: seq<Sent>)
    requires Inv(s) && Enabled(s, e) && t == Step(s, e) && log == Outputs(s, e)
    ensures Leads(s, [e], t, log) && Inv(t)
  {
    StepKeepsInv(s, e);
    assert [e][1..] == [];
    assert RunOutputs(s, [e]) == log + [];
  }

  lemma LeadsOn(s: State, es: seq<Event>, t: State, log: seq<Sent>, fs: seq<Event>, u: State, more: seq<Sent>)
    requires Leads(s, es, t, log) && Leads(t, fs, u, more)
    ensures Leads(s, es + fs, u, log + more)
  {
    RunsAppend(s, es, fs);
  }

  /** The events that reading a client until it would block amounts to. */
  function DrainEvents(fd: int, script: seq<RecvResult>): seq<Event> {
    if script == [] || script[0].Short? || script[0].WouldBlock? then []
    else if script[0].Closed? then [Disconnect(fd)]
    else [Request(fd, script[0].request)] + DrainEvents(fd, script[1..])
  }

  predicate DrainCloses(script: seq<RecvResult>) {
    script != [] && (script[0].Closed? || (script[0].Got? && DrainCloses(script[1..])))
  }

  function ScriptOf(inbox: map<int, seq<RecvResult>>, fd: int): seq<RecvResult> {
    if fd in inbox then inbox[fd] else []
  }

  /** What inspecting one polled client amounts to. */
  function PollEvents(p: PollFd, inbox: map<int, seq<RecvResult>>): seq<Event> {
    if p.readable then DrainEvents(p.fd, ScriptOf(inbox, p.fd)) else []
  }

  /** The entry is readable and its client turns out to have gone. */
  predicate ClosesNow(p: PollFd, inbox: map<int, seq<RecvResult>>) {
    p.readable && DrainCloses(ScriptOf(inbox, p.fd))
  }

  /** What inspecting the polled clients once each, in order, amounts to. */
  function AllPollEvents(ps: seq<PollFd>, inbox: map<int, seq<RecvResult>>): seq<Event> {
    if ps == [] then [] else AllPollEvents(ps[..|ps| - 1], inbox) + PollEvents(ps[|ps| - 1], inbox)
  }

  /** The polled clients that did not disconnect, in order. */
  function Survivors(ps: seq<PollFd>, inbox: map<int, seq<RecvResult>>): seq<PollFd> {
    if ps == [] then []
    else
      var last := ps[|ps| - 1];
      Survivors(ps[..|ps| - 1], inbox) + (if ClosesNow(last, inbox) then [] else [last])
  }

  lemma {:induction false} DeliveriesSnoc(s: State, order: seq<string>, id: string, packet: Packet)
    ensures Deliveries(s, order + [id], packet) == Deliveries(s, order, packet) +
      (if AlreadyConnected(s, id) then [Sent(s.subscribers[id].sockfd, id, MessageFrame(packet))] else [])
  {
    if order == [] {
      assert order + [id] == [id] && [id][1..] == [];
    } else {
      DeliveriesSnoc(s, order[1..], id, packet);
      assert (order + [id])[1..] == order[1..] + [id];
    }
  }

  lemma NoOrder(s: State, packet: Packet)
    ensures NoDuplicates<string>([]) && Deliveries(s, [], packet) == []
  {
  }

  lemma NoDuplicatesSnoc(order: seq<string>, id: string)
    requires NoDuplicates(order) && id !in order
    ensures NoDuplicates(order + [id])
  {
  }

  /** One more read of the script. */
  lemma DrainStep(fd: int, script: seq<RecvResult>, j: nat)
    requires j <= |script|
    ensures var received := if j < |script| then script[j] else WouldBlock;
      var rest := if j < |script| then script[j + 1..] else [];
      && DrainCloses(script[j..]) == (if received.Got? then DrainCloses(rest) else received.Closed?)
      && DrainEvents(fd, script[j..]) ==
           if received.Got? then [Request(fd, received.request)] + DrainEvents(fd, rest)
           else if received.Closed? then [Disconnect(fd)] else []
  {
  }

  /** `poll_fds` when `done` of the clients `ps` have been inspected. */
  function ListAt(first: seq<PollFd>, ps: seq<PollFd>, inbox: map<int, seq<RecvResult>>, done: nat): seq<PollFd>
    requires done <= |ps|
  {
    first + Survivors(ps[..done], inbox) + ps[done..]
  }

  /** Where the loop index then points, and what has happened by then. */
  function IndexAt(first: seq<PollFd>, ps: seq<PollFd>, inbox: map<int, seq<RecvResult>>, done: nat): nat
    requires done <= |ps|
  {
    |first| + |Survivors(ps[..done], inbox)|
  }

  function EventsAt(ps: seq<PollFd>, inbox: map<int, seq<RecvResult>>, done: nat): seq<Event>
    requires done <= |ps|
  {
    AllPollEvents(ps[..done], inbox)
  }

  lemma InspectionStart(first: seq<PollFd>, ps: seq<PollFd>, inbox: map<int, seq<RecvResult>>)
    ensures ListAt(first, ps, inbox, 0) == first + ps
    ensures IndexAt(first, ps, inbox, 0) == |first| && EventsAt(ps, inbox, 0) == []
  {
  }

  /** The next entry is where the index points; erasing it there or moving on gives the
      list and the index for one more inspected entry. */
  lemma InspectionStep(first: seq<PollFd>, ps: seq<PollFd>, inbox: map<int, seq<RecvResult>>, done: nat)
    requires done < |ps|
    ensures var all, i := ListAt(first, ps, inbox, done), IndexAt(first, ps, inbox, done);
      && i < |all| && all[i] == ps[done]
      && EventsAt(ps, inbox, done + 1) == EventsAt(ps, inbox, done) + PollEvents(ps[done], inbox)
      && ListAt(first, ps, inbox, done + 1) == (if ClosesNow(ps[done], inbox) then all[..i] + all[i + 1..] else all)
      && IndexAt(first, ps, inbox, done + 1) == (if ClosesNow(ps[done], inbox) then i else i + 1)
  {
    hide Survivors, AllPollEvents, PollEvents, ClosesNow;
    SurvivorsSnoc(ps, inbox, done);
    ListParts(first, Survivors(ps[..done], inbox), ps[done], ps[done + 1..]);
    assert ps[done..] == [ps[done]] + ps[done + 1..];
  }

  lemma SurvivorsSnoc(ps: seq<PollFd>, inbox: map<int, seq<RecvResult>>, done: nat)
    requires done < |ps|
    ensures AllPollEvents(ps[..done + 1], inbox) == AllPollEvents(ps[..done], inbox) + PollEvents(ps[done], inbox)
    ensures Survivors(ps[..done + 1], inbox)
         == Survivors(ps[..done], inbox) + (if ClosesNow(ps[done], inbox) then [] else [ps[done]])
  {
    var upto := ps[..done + 1];
    assert upto[..|upto| - 1] == ps[..done] && upto[|upto| - 1] == ps[done];
  }

  lemma ListParts(first: seq<PollFd>, kept: seq<PollFd>, p: PollFd, rest: seq<PollFd>)
    ensures var all, i := first + kept + ([p] + rest), |first| + |kept|;
      && all[i] == p
      && all[..i] + all[i + 1..] == first + (kept + []) + rest
      && all == first + (kept + [p]) + rest
  {
    var all, i := first + kept + ([p] + rest), |first| + |kept|;
    assert all[..i] == first + kept && all[i + 1..] == rest;
  }

  /** When the index has reached the end, every entry has been inspected. */
  lemma InspectionEnd(first: seq<PollFd>, ps: seq<PollFd>, inbox: map<int, seq<RecvResult>>, done: nat)
    requires done <= |ps|
    ensures IndexAt(first, ps, inbox, done) < |ListAt(first, ps, inbox, done)| <==> done < |ps|
    ensures ListAt(first, ps, inbox, |ps|) == first + Survivors(ps, inbox)
    ensures EventsAt(ps, inbox, |ps|) == AllPollEvents(ps, inbox)
  {
    assert ps[..|ps|] == ps && ps[|ps|..] == [];
  }

  lemma EraseIsWithout(polls: seq<PollFd>, i: nat)
    requires SUBS_START_IDX <= i < |polls| && NoDuplicates(Fds(polls[SUBS_START_IDX..]))
    ensures Fds((polls[..i] + polls[i + 1..])[SUBS_START_IDX..]) == Without(Fds(polls[SUBS_START_IDX..]), polls[i].fd)
  {
    var fds, k := Fds(polls[SUBS_START_IDX..]), i - SUBS_START_IDX;
    assert fds == fds[..k] + [fds[k]] + fds[k + 1..];
    WithoutIsErase(fds[..k], fds[k], fds[k + 1..]);
    assert Fds((polls[..i] + polls[i + 1..])[SUBS_START_IDX..]) == fds[..k] + fds[k + 1..];
  }

  // What one turn amounts to, told from the tables before it.

  /** The kernel hands out no descriptor that is open: an arrival on one is a failure. */
  function Admit(arrival: AcceptResult, open: set<int>, reserved: seq<int>): AcceptResult {
    if arrival.Accepted? && (arrival.fd in open || arrival.fd in reserved) then AcceptFailed else arrival
  }

  function AcceptEvent(result: AcceptResult): Event {
    if result.Accepted? then Connect(result.fd, CString(result.id)) else Reject
  }

  /** The entry pushed for an arrival, if the id is not connected already. */
  function NewEntries(s: State, e: Event, garbage: bool): seq<PollFd> {
    if e.Connect? && !AlreadyConnected(s, e.id) then [PollFd(e.fd, garbage)] else []
  }

  function Flagged(fds: seq<int>, ready: set<int>): seq<PollFd> {
    seq(|fds|, i requires 0 <= i < |fds| => PollFd(fds[i], fds[i] in ready))
  }

  /** The datagrams published in a turn. */
  function Due(s: State, round: Round): seq<Packet>
    requires |s.reserved| == SUBS_START_IDX
  {
    if s.reserved[UDP_POLLFD_IDX] in round.ready then round.datagrams else []
  }

  /** What accepting amounts to in a turn. */
  function Arrivals(s: State, round: Round): seq<Event>
    requires |s.reserved| == SUBS_START_IDX
  {
    if s.reserved[LISTENER_POLLFD_IDX] in round.ready
    then [AcceptEvent(Admit(round.arrival, s.open, s.reserved))] else []
  }

  /** The polled clients that the client loop of a turn starts with. */
  function Inspected(s: State, round: Round): seq<PollFd>
    requires |s.reserved| == SUBS_START_IDX
  {
    Flagged(s.clients, round.ready) +
    if Arrivals(s, round) == [] then [] else NewEntries(s, Arrivals(s, round)[0], round.garbage)
  }

  /** The events publish the packets, in order. */
  ghost predicate PublishesOf(es: seq<Event>, packets: seq<Packet>) {
    |es| == |packets| && forall k :: 0 <= k < |es| ==> es[k].Publish? && es[k].packet == packets[k]
  }

  /** The events of a turn: every queued datagram is published, then one arrival is
      handled, then every polled client is inspected. Only the order in which matching ids
      are walked is open. */
  ghost predicate TurnOf(s: State, round: Round, es: seq<Event>)
    requires |s.reserved| == SUBS_START_IDX
  {
    var n := |Due(s, round)|;
    && |es| >= n && PublishesOf(es[..n], Due(s, round))
    && es[n..] == Arrivals(s, round) + AllPollEvents(Inspected(s, round), round.inbox)
  }

  /** The events of a whole service: those of each turn in turn. */
  ghost predicate Served(s: State, rounds: seq<Round>, es: seq<Event>)
    requires Inv(s) && |s.reserved| == SUBS_START_IDX
    decreases |rounds|
  {
    if rounds == [] then es == []
    else exists first, last ::
      && es == first + last
      && Served(s, rounds[..|rounds| - 1], first)
      && Runs(s, first) && TurnOf(Exec(s, first), rounds[|rounds| - 1], last)
  }

  lemma ServedOn(s: State, rounds: seq<Round>, k: nat, es: seq<Event>, t: State, log: seq<Sent>, more: seq<Event>)
    requires Inv(s) && |s.reserved| == |t.reserved| == SUBS_START_IDX && k < |rounds|
    requires Served(s, rounds[..k], es) && Leads(s, es, t, log) && TurnOf(t, rounds[k], more)
    ensures Served(s, rounds[..k + 1], es + more)
  {
    hide Inv, TurnOf, Runs, Exec;
    var upto := rounds[..k + 1];
    assert upto[..|upto| - 1] == rounds[..k] && upto[|upto| - 1] == rounds[k];
  }

  lemma ServedNothing(s: State)
    requires Inv(s) && |s.reserved| == SUBS_START_IDX
    ensures Served(s, [], [])
  {
  }

  lemma SliceAppend(a: seq<PollFd>, b: seq<PollFd>, n: nat)
    requires n <= |a|
    ensures (a + b)[n..] == a[n..] + b
  {
  }

  lemma NoPublishes()
    ensures PublishesOf([], [])
  {
  }

  lemma TurnParts(s: State, round: Round, publishes: seq<Event>)
    requires |s.reserved| == SUBS_START_IDX && PublishesOf(publishes, Due(s, round))
    ensures TurnOf(s, round, publishes + (Arrivals(s, round) + AllPollEvents(Inspected(s, round), round.inbox)))
  {
    hide AllPollEvents, Inspected, Arrivals;
    var rest := Arrivals(s, round) + AllPollEvents(Inspected(s, round), round.inbox);
    assert (publishes + rest)[..|publishes|] == publishes && (publishes + rest)[|publishes|..] == rest;
  }

  // The same told by the datagrams, the arrival and the reads of each client.

  /** The reads of one client, in order, up to the first that is no request: each is
      handled, and the client is dropped if that one finds it gone. */
  lemma {:induction false} DrainedExactly(fd: int, script: seq<RecvResult>, n: nat)
    requires n <= |script| && (forall k :: 0 <= k < n ==> script[k].Got?) && (n < |script| ==> !script[n].Got?)
    ensures var es, closed := DrainEvents(fd, script), n < |script| && script[n].Closed?;
      && DrainCloses(script) == closed
      && |es| == (if closed then n + 1 else n)
      && (forall k :: 0 <= k < n ==> es[k] == Request(fd, script[k].request))
      && (closed ==> es[n] == Disconnect(fd))
  {
    if n > 0 {
      DrainedExactly(fd, script[1..], n - 1);
    }
  }

  predicate IsOn(e: Event, fd: int) {
    (e.Request? || e.Disconnect?) && e.fd == fd
  }

  /** The events about one descriptor: its requests and its end. */
  function EventsOn(es: seq<Event>, fd: int): seq<Event> {
    if es == [] then [] else (if IsOn(es[0], fd) then [es[0]] else []) + EventsOn(es[1..], fd)
  }

  lemma {:induction false} EventsOnAppend(a: seq<Event>, b: seq<Event>, fd: int)
    ensures EventsOn(a + b, fd) == EventsOn(a, fd) + EventsOn(b, fd)
  {
    hide IsOn;
    if a == [] {
      assert a + b == b;
    } else {
      EventsOnAppend(a[1..], b, fd);
      AppendTail(a, b);
      AppendAssociates(if IsOn(a[0], fd) then [a[0]] else [], EventsOn(a[1..], fd), EventsOn(b, fd));
    }
  }

  lemma {:induction false} EventsOnOthers(es: seq<Event>, fd: int)
    requires forall e :: e in es ==> !IsOn(e, fd)
    ensures EventsOn(es, fd) == []
  {
    if es != [] {
      assert es[0] in es && forall e :: e in es[1..] ==> e in es;
      EventsOnOthers(es[1..], fd);
    }
  }

  lemma {:induction false} DrainIsOn(fd: int, script: seq<RecvResult>, other: int)
    ensures EventsOn(DrainEvents(fd, script), other) == if fd == other then DrainEvents(fd, script) else []
    ensures forall e :: e in DrainEvents(fd, script) ==> e.Request? || e.Disconnect?
  {
    if script != [] && script[0].Got? {
      DrainIsOn(fd, script[1..], other);
      var rest := DrainEvents(fd, script[1..]);
      assert ([Request(fd, script[0].request)] + rest)[1..] == rest;
    }
  }

  lemma {:induction false} InspectionIsOn(ps: seq<PollFd>, inbox: map<int, seq<RecvResult>>, fd: int)
    requires NoDuplicates(Fds(ps))
    ensures EventsOn(AllPollEvents(ps, inbox), fd) ==
      if exists p :: p in ps && p.fd == fd && p.readable then DrainEvents(fd, ScriptOf(inbox, fd)) else []
    ensures forall e :: e in AllPollEvents(ps, inbox) ==> e.Request? || e.Disconnect?
  {
    hide NoDuplicates, Fds, PollEvents, DrainEvents, EventsOn;
    if ps == [] {
      EventsOnOthers([], fd);
    } else {
      var init, last := ps[..|ps| - 1], ps[|ps| - 1];
      PolledOnce(ps);
      InspectionIsOn(init, inbox, fd);
      EventsOnAppend(AllPollEvents(init, inbox), PollEvents(last, inbox), fd);
      OneInspection(last, inbox, fd);
      assert ps == init + [last];
    }
  }

  lemma OneInspection(p: PollFd, inbox: map<int, seq<RecvResult>>, fd: int)
    ensures EventsOn(PollEvents(p, inbox), fd) ==
      if p.fd == fd && p.readable then DrainEvents(fd, ScriptOf(inbox, fd)) else []
    ensures forall e :: e in PollEvents(p, inbox) ==> e.Request? || e.Disconnect?
  {
    DrainIsOn(p.fd, ScriptOf(inbox, p.fd), fd);
  }

  /** The last entry's descriptor is not polled before it. */
  lemma PolledOnce(ps: seq<PollFd>)
    requires ps != [] && NoDuplicates(Fds(ps))
    ensures var init := ps[..|ps| - 1];
      NoDuplicates(Fds(init)) && forall p :: p in init ==> p.fd != ps[|ps| - 1].fd
  {
    var init, n := ps[..|ps| - 1], |ps| - 1;
    assert forall i :: 0 <= i < n ==> Fds(init)[i] == Fds(ps)[i] == init[i].fd;
    assert Fds(ps)[n] == ps[n].fd;
  }

  /** How many publishes a turn begins with. */
  function PublishCount(s: State, round: Round): nat
    requires |s.reserved| == SUBS_START_IDX
  {
    if s.reserved[1] in round.ready then |round.datagrams| else 0
  }

  /** A ready listener offers a connection on a descriptor that is not in use. */
  predicate Offered(s: State, round: Round)
    requires |s.reserved| == SUBS_START_IDX
  {
    && s.reserved[2] in round.ready && round.arrival.Accepted?
    && round.arrival.fd !in s.open && round.arrival.fd !in s.reserved
  }

  /** A turn of a ready UDP socket publishes every datagram, in order, and nothing else is
      ever published. */
  lemma TurnPublishes(s: State, round: Round, es: seq<Event>)
    requires |s.reserved| == SUBS_START_IDX && Inv(s) && TurnOf(s, round, es)
    ensures var n := PublishCount(s, round);
      && |es| >= n
      && (forall k :: 0 <= k < n ==> es[k].Publish? && es[k].packet == round.datagrams[k])
      && (forall k :: n <= k < |es| ==> !es[k].Publish?)
  {
    hide SessionInv, TrieInv, AllPollEvents, Inspected;
    var n := PublishCount(s, round);
    assert forall k :: 0 <= k < n ==> es[..n][k] == es[k];
    AfterPublishes(s, round, es);
  }

  lemma EveryDatagram(s: State, round: Round, es: seq<Event>)
    requires |s.reserved| == SUBS_START_IDX && Inv(s) && TurnOf(s, round, es)
    ensures s.reserved[1] in round.ready ==>
      && |es| >= |round.datagrams|
      && forall k :: 0 <= k < |round.datagrams| ==> es[k].Publish? && es[k].packet == round.datagrams[k]
  {
    hide SessionInv, TrieInv, TurnOf;
    TurnPublishes(s, round, es);
  }

  /** Behind the publishes come the arrivals, and then only requests and disconnects. */
  lemma AfterPublishes(s: State, round: Round, es: seq<Event>)
    requires |s.reserved| == SUBS_START_IDX && Inv(s) && TurnOf(s, round, es)
    ensures var n, arrivals := PublishCount(s, round), Arrivals(s, round);
      && |es| >= n + |arrivals|
      && (forall k :: n <= k < n + |arrivals| ==> es[k] == arrivals[k - n])
      && (forall k :: n + |arrivals| <= k < |es| ==> es[k].Request? || es[k].Disconnect?)
  {
    hide SessionInv, TrieInv, AllPollEvents, Inspected, Arrivals, PublishesOf;
    var n, rest := PublishCount(s, round), AllPollEvents(Inspected(s, round), round.inbox);
    assert |Due(s, round)| == n;
    InspectedOnce(s, round);
    InspectionIsOn(Inspected(s, round), round.inbox, 0);
    TwoParts(es, n, Arrivals(s, round), rest);
  }

  lemma TwoParts(es: seq<Event>, n: nat, a: seq<Event>, b: seq<Event>)
    requires n <= |es| && es[n..] == a + b
    ensures |es| == n + |a| + |b|
    ensures forall k :: n <= k < n + |a| ==> es[k] == a[k - n]
    ensures forall k :: n + |a| <= k < |es| ==> es[k] in b
  {
    assert forall k :: n <= k < |es| ==> es[k] == (a + b)[k - n];
    forall k | n + |a| <= k < |es|
      ensures es[k] in b
    {
      assert es[k] == b[k - n - |a|];
    }
  }

  /** The inspected clients are polled once each. */
  lemma InspectedOnce(s: State, round: Round)
    requires |s.reserved| == SUBS_START_IDX && SessionInv(s)
    ensures NoDuplicates(Fds(Inspected(s, round)))
    ensures forall fd :: fd in s.clients ==>
      ((exists p :: p in Inspected(s, round) && p.fd == fd && p.readable) <==> fd in round.ready)
    ensures forall p :: p in Inspected(s, round) ==>
      p.fd in s.clients || (Offered(s, round) && p.fd == round.arrival.fd)
  {
    var ps, known := Inspected(s, round), Flagged(s.clients, round.ready);
    assert forall i :: 0 <= i < |ps| ==> Fds(ps)[i] == ps[i].fd;
    assert forall i :: 0 <= i < |known| ==> ps[i] == known[i];
    forall fd | fd in s.clients && fd in round.ready
      ensures exists p :: p in ps && p.fd == fd && p.readable
    {
      var i :| 0 <= i < |s.clients| && s.clients[i] == fd;
      assert ps[i] in ps && ps[i].readable;
    }
  }

  /** An accepted connection is handled right after the publishes, and nothing else is. */
  lemma TurnAccepts(s: State, round: Round, es: seq<Event>)
    requires |s.reserved| == SUBS_START_IDX && Inv(s) && TurnOf(s, round, es)
    ensures var n := PublishCount(s, round);
      && |es| >= n
      && (s.reserved[2] in round.ready ==>
            |es| > n
            && es[n] == if Offered(s, round) then Connect(round.arrival.fd, CString(round.arrival.id)) else Reject)
      && (forall k :: 0 <= k < |es| && (es[k].Connect? || es[k].Reject?) ==> k == n && s.reserved[2] in round.ready)
  {
    hide SessionInv, TrieInv, AllPollEvents, Inspected, CString;
    var n := PublishCount(s, round);
    assert forall k :: 0 <= k < n ==> es[..n][k] == es[k];
    AfterPublishes(s, round, es);
  }

  /** What happens to a polled client is what reading it gives if it is ready, and nothing
      if it is not; nothing happens to anyone else but the newcomer. */
  lemma TurnReads(s: State, round: Round, es: seq<Event>, fd: int)
    requires |s.reserved| == SUBS_START_IDX && Inv(s) && TurnOf(s, round, es)
    ensures fd in s.clients ==>
      EventsOn(es, fd) == if fd in round.ready then DrainEvents(fd, ScriptOf(round.inbox, fd)) else []
    ensures fd !in s.clients && !(Offered(s, round) && fd == round.arrival.fd) ==> EventsOn(es, fd) == []
  {
    hide SessionInv, TrieInv, AllPollEvents, Inspected, DrainEvents;
    var n, arrivals := PublishCount(s, round), Arrivals(s, round);
    var rest := AllPollEvents(Inspected(s, round), round.inbox);
    assert es == es[..n] + (arrivals + rest);
    EventsOnAppend(es[..n], arrivals + rest, fd);
    EventsOnAppend(arrivals, rest, fd);
    EventsOnOthers(es[..n], fd);
    EventsOnOthers(arrivals, fd);
    InspectedOnce(s, round);
    InspectionIsOn(Inspected(s, round), round.inbox, fd);
  }

  /** Publishing changes no table. */
  lemma {:induction false} PublishesKeep(s: State, es: seq<Event>, n: nat)
    requires Inv(s) && Runs(s, es) && n <= |es| && forall k :: 0 <= k < n ==> es[k].Publish?
    ensures Runs(s, es[..n]) && Exec(s, es[..n]) == s && Runs(s, es[n..])
    decreases n
  {
    hide SessionInv, TrieInv, Enabled;
    if n == 0 {
      assert es[0..] == es;
    } else {
      StepKeepsInv(s, es[0]);
      PublishesKeep(s, es[1..], n - 1);
      assert es[..n][0] == es[0] && es[..n][1..] == es[1..][..n - 1] && es[n..] == es[1..][n - 1..];
    }
  }

  /** A client that a ready listener offers is online when it has been handled: under its
      id, the characters before the first NUL, with the topics it had. If the id was not
      connected, it is connected through the new descriptor, which maps to it and is polled
      last; if it was, nothing has changed. */
  lemma ArrivalOnline(s: State, round: Round, es: seq<Event>, id: string)
    requires Inv(s) && |s.reserved| == SUBS_START_IDX && Runs(s, es) && TurnOf(s, round, es)
    requires Offered(s, round) && Spells(round.arrival.id, id)
    ensures var n, fd := PublishCount(s, round), round.arrival.fd;
      && n < |es| && Runs(s, es[..n + 1])
      && var t := Exec(s, es[..n + 1]);
      && AlreadyConnected(t, id) && TopicsOf(t, id) == TopicsOf(s, id)
      && if AlreadyConnected(s, id) then t == s
         else
           && t.subscribers == s.subscribers[id := SubscriberData(true, fd, TopicsOf(s, id))]
           && t.sessions == s.sessions[fd := id] && t.clients == s.clients + [fd] && t.open == s.open + {fd}
  {
    hide SessionInv, TrieInv, TurnOf, Spells, CString;
    var n := PublishCount(s, round);
    TurnPublishes(s, round, es);
    TurnAccepts(s, round, es);
    CStringSpelled(round.arrival.id, id);
    var e := Connect(round.arrival.fd, id);
    assert es[n] == e;
    PublishesKeep(s, es, n);
    assert es[n..][0] == e;
    StepKeepsInv(s, e);
    assert [e][1..] == [];
    RunsAppend(s, es[..n], [e]);
    assert es[..n + 1] == es[..n] + [e];
  }

  /** The events of the first `k` turns. */
  function Before(turns: seq<seq<Event>>, k: nat): seq<Event>
    requires k <= |turns|
  {
    Flatten(turns[..k])
  }

  /** A service is one turn for each round, each from where those before it have led. */
  lemma {:induction false} ServedInTurns(s: State, rounds: seq<Round>, es: seq<Event>) returns (turns: seq<seq<Event>>)
    requires Inv(s) && |s.reserved| == SUBS_START_IDX && Served(s, rounds, es)
    ensures |turns| == |rounds| && Flatten(turns) == es
    ensures forall k :: 0 <= k < |rounds| ==>
      Runs(s, Before(turns, k)) && TurnOf(Exec(s, Before(turns, k)), rounds[k], turns[k])
  {
    hide Inv, Runs, Exec, TurnOf, Before;
    if rounds == [] {
      turns := [];
    } else {
      var n := |rounds| - 1;
      var first, last :| es == first + last && Served(s, rounds[..n], first)
                         && Runs(s, first) && TurnOf(Exec(s, first), rounds[n], last);
      var before := ServedInTurns(s, rounds[..n], first);
      turns := before + [last];
      FlattenAppend(before, [last]);
      assert Flatten([last]) == last;
      forall k | 0 <= k < |rounds|
        ensures Runs(s, Before(turns, k)) && TurnOf(Exec(s, Before(turns, k)), rounds[k], turns[k])
      {
        BeforeSnoc(before, last, k);
        if k < n {
          assert rounds[..n][k] == rounds[k];
        }
      }
    }
  }

  lemma BeforeSnoc(turns: seq<seq<Event>>, last: seq<Event>, k: nat)
    requires k <= |turns|
    ensures Before(turns + [last], k) == Before(turns, k) && (k == |turns| ==> Before(turns, k) == Flatten(turns))
    ensures (turns + [last])[k] == if k < |turns| then turns[k] else last
  {
    assert (turns + [last])[..k] == turns[..k];
    assert k == |turns| ==> turns[..k] == turns;
  }
}
