# Verification of the multiplexed messaging middleware

A Dafny model of the message broker and of its subscriber program, with proofs of what
they keep, deliver, print and decode. `dafny verify dfyconfig.toml` checks all of it.

The broker receives UDP messages on hierarchical topics and forwards each to the connected
TCP subscribers that hold a matching pattern. Patterns are lists of levels in which `+`
stands for one level and `*` for any number of levels, at any position and any number of
times. Subscriptions survive disconnection.

## How the model is laid out

| file | content |
|---|---|
| `Lists.dfy` | concatenation of lists |
| `Topics.dfy` | `split_topic`: the tokenizer loop, and exactly what splitting forgets |
| `Patterns.dfy` | declarative matching (cut the topic into one segment per pattern level) and the pattern algebra |
| `Subscriptions.dfy` | the set of (pattern, client) pairs a trie stands for; one step of backtracking over that set |
| `Routes.dfy` | ways from the root to trie nodes; which of them a set of subscriptions keeps alive |
| `Trie.dfy` | the heap-allocated trie: in-place insertion, pruning removal, destructor, backtracking lookup, canonical form |
| `Backtracking.dfy`, `LookupCost.dfy` | how often the lookup enters itself, and how that grows with the topic |
| `Wire.dfy`, `Stream.dfy` | packed structs and frames; `sendall`, `recvall` and the subscriber's frame dispatch over a stream cut anywhere |
| `Framing.dfy` | exactly when a subscriber stays in step with the frames although sends fail |
| `Broker.dfy`, `BrokerRuns.dfy` | the broker as a state machine, its invariant, its runs, acknowledgements as history |
| `Delivery.dfy` | refinement to a broker without trie and sockets, and exactly when delivery is complete |
| `Turns.dfy` | one turn of the main loop as the outside world sees it, and the events it amounts to |
| `Server.dfy` | the server's procedures over its mutable tables and the trie object, proved to be runs of the state machine |
| `EndToEnd.dfy` | from the tables to what a subscriber is shown; the whole server from start-up |
| `Numerals.dfy`, `Display.dfy` | decimal printing and parsing; `get_displayed_content` and the 32-bit power that wraps |
| `Command.dfy` | `strtok`, the command line and the request it becomes |

The trie is a class over heap nodes. Its ghost state maps every route (the levels from the
root) to the node there, so that "tree, no sharing" is one quantified invariant, and keeps
the set of entries stored. `Valid` adds that every node but the root has a subscriber at or
below it. The broker's step function works on the abstract pair set; the class `Server`
updates the real tables and calls the real trie, and every method states that its effect is
one step, or a run, of that function. (In the source the tables are locals of `main` that
are passed around by reference; here they are the fields of one object.) What the outside
world does in one turn of the main loop is a `Round`, and `TurnOf` spells out the events it
must become. The order in which a hash set happens to be walked is part of a publish event,
so the results hold for every order. The functions that specify bytes, characters and
events (what a C string reads, where a frame's fields lie, which line sends which request,
what a turn does) are tied down by lemmas that speak of the bytes, characters and events
themselves.

## Findings

- The trie stores levels and the client's topic set stores spellings. `a` and `a/` have the
  same levels, so a client that holds both and drops one loses the shared trie entry and
  misses messages for the other (`LostDelivery`). The tables agree along a run if and only
  if no unsubscription in it collides, that is, drops a topic while its client holds another
  spelling of the same levels (`RunSynced`; `CollidesBySlash` and `SplitKernel` say what such
  a spelling looks like). What a collision costs is exact as well: from tables in agreement,
  the dropping client, and nobody else, then misses a topic if and only if the dropped
  levels match it and no topic held with other levels does (`CollisionLoses`,
  `StepDeliversExactly`). In any reachable state `MissedExactly` says who misses what, in
  terms of the trie, and `MissedByHistory` says it in terms of the acknowledgements alone.
  Nobody ever receives too much (`RecipientsAreIdeal`).
- `README.md:8` of the repository claims lookups linear in the depth of the topic. That is
  met over all topics, up to a constant factor, if and only if no stored pattern has two
  levels `*` (`LinearLookupExactly`). In general the number of entries is within a constant
  factor of the k-th power of the depth if and only if no stored pattern has more than k
  levels `*` (`LookupDegreeExactly`). The least constant, one entry per level and one for the
  end, is enough if and only if no stored pattern has a wildcard at all
  (`OneEntryPerLevelExactly`), and a single pattern of k levels `*` costs C(n + k + 1, k)
  entries on a topic of n levels (`StarPatternLookupCost`).
- `sendall` gives up at the first `send` that fails, also when the connection stays open,
  while `recvall` tries again (`utils.cpp:32-34` and `55-59`). Over such a connection the
  subscriber stays in step with the frames if and only if none of them is torn
  (`InStepThroughout`), and then it is shown exactly those that got through whole
  (`KeptAreShown`). A message whose header fails is given up and does no harm. An
  acknowledgement is not: its body follows all the same and puts the subscriber out of step
  (`HeaderLost`), from where frames sent later can be shown garbled (`InStepExactly`).
- A FLOAT payload is printed correctly exactly for exponents up to 9 or mantissas below the
  wrapped power; from exponent 32 on the program divides by zero (`FloatDenotes`,
  `WrappedPowerZero`). Mantissa 4294967295 with exponent 10 is printed as 3.0064771071
  (`FloatMisprinted`).
- The comment at `server.cpp:60` says that a client already connected under an id is kicked
  out; the code turns the newcomer away, and so does the model.

## Model

| member | source | states |
|---|---|---|
| Topics.SplitTopic | TopicTrie.cpp:21-31 | the `getline` loop yields the levels of the topic, for every topic |
| Topics.JoinSplit | TopicTrie.cpp:21-31 | joining the levels, plus a final '/' if there was one, gives the topic back; no level holds a '/' |
| Topics.SplitJoin | TopicTrie.cpp:21-31 | every non-empty list of slash-free levels is the split of a topic |
| Topics.RedundantSlash | TopicTrie.cpp:25-28 | one more final '/' on a non-empty topic that has none is not seen |
| Topics.SplitKernel | TopicTrie.cpp:21-31 | two topics split alike if and only if they are equal or differ by one such '/' |
| Patterns.MatchesAppend | TopicTrie.cpp:57-85 | a pattern in two parts matches exactly the topics that can be cut into two matching parts |
| Patterns.MatchesLevel | TopicTrie.cpp:60-76 | a level other than `*` consumes exactly one topic level, any one if it is `+` |
| Patterns.MatchesStar | TopicTrie.cpp:78-84 | `*` skips any number of levels, including none |
| Patterns.LiteralMatches | TopicTrie.cpp:60-65 | a pattern without wildcards matches only itself |
| Patterns.WildcardRun | TopicTrie.cpp:70-84 | a run of wildcards constrains only the number of levels it spans, and exactly how |
| Patterns.CoversInContext | TopicTrie.cpp:57-85 | matching at least as much survives any surrounding levels |
| Patterns.WildcardRunsEquivalent | TopicTrie.cpp:70-84 | in any context `*/*` selects what `*` selects and `*/+` what `+/*` selects, for runs of any length |
| Patterns.GeneralisedLevelCovers | TopicTrie.cpp:70-84 | replacing a level by `*`, or one other than `*` by `+`, never loses a topic |
| Subscriptions.HitsStep | TopicTrie.cpp:57-85 | a subscription is hit from a node exactly when it ends there with the topic or is hit through the literal, `+` or `*` child |
| Subscriptions.WildcardRunsFoundAlike | TopicTrie.cpp:50-85 | the equivalences of wildcard runs hold for what lookup returns |
| Subscriptions.GeneralisedLevelFindsMore | TopicTrie.cpp:50-85 | generalising a level of a stored pattern never loses a recipient |
| Subscriptions.FoundByEach | TopicTrie.cpp:50-55 | a client is found exactly when one of its patterns alone finds it |
| Subscriptions.WildcardsSpelled | TopicTrie.cpp:57-85 | what a single pattern finds, level by level, with the characters `*` and `+` written out |
| Subscriptions.RunsSpelled | TopicTrie.cpp:70-84 | in any stored pattern `*/*` may be written `*`, and `*/+` may be written `+/*`, without changing a lookup |
| Trie.TopicTrie.constructor | TopicTrie.cpp:13-15 | a new trie is valid, holds nothing and has allocated its root only |
| Trie.TopicTrie.AddSubscription | TopicTrie.cpp:33-43 | exactly the pair (levels, client) is added, the tree stays valid, no node moves or is deleted |
| Trie.TopicTrie.Descend | TopicTrie.cpp:36-41 | one insertion step reaches the child at the level and creates it only when missing |
| Trie.TopicTrie.RemoveSubscription | TopicTrie.cpp:45-48 | exactly that pair is removed, every other is kept, no dead node remains, surviving nodes stay where they are and exactly the others are deleted; removing an absent pair leaves every node untouched |
| Trie.TopicTrie.RemoveRecursive | TopicTrie.cpp:87-104 | the result tells the caller to prune exactly when this node is bare; nodes off the way stay needed |
| Trie.TopicTrie.Prune | TopicTrie.cpp:95-99 | the deleted child is childless and was in use, it is the only node deleted and the only one to leave the tree, and only nodes on the way up can become unneeded |
| Trie.TopicTrie.BareLeaf | TopicTrie.cpp:88-99 | a node without children and subscribers has no other node below it and keeps no entry reachable |
| Trie.TopicTrie.Free | TopicTrie.cpp:7-11 | a node is given back to the allocator only once |
| Trie.TopicTrie.Destroy | TopicTrie.cpp:7-11 | deleting a node gives back exactly it and every node below it |
| Trie.TopicTrie.DestroyAll | TopicTrie.cpp:17-19 | destroying the trie gives back every node in use, and then everything ever created is deleted |
| Trie.TopicTrie.FindSubscribers | TopicTrie.cpp:50-55 | for every topic exactly the clients with a stored pattern that matches are returned, and the search is entered exactly `Calls` times |
| Trie.TopicTrie.CollectMatchesRecursive | TopicTrie.cpp:57-85 | the results grow by exactly the clients below the node whose remaining pattern matches the remaining topic; it and the calls below count as exactly `Calls` entries; terminates because the set of nodes below shrinks |
| Trie.TopicTrie.CollectStar | TopicTrie.cpp:78-84 | the `*` branch, including the call that does not advance the index, finds exactly what skipping any number of levels finds, with one search below the `*` child for each suffix of the topic |
| Trie.TopicTrie.CanonicalForm | TopicTrie.cpp:33-104 | nodes, branching and subscriber sets are a function of the stored pairs alone; nodes allocated minus deleted is the number of distinct prefixes of stored patterns |
| Trie.SameSubscriptionsSameTree | TopicTrie.cpp:33-104 | two tries with the same pairs have the same tree, whatever the order of operations was |
| Trie.AddThenRemove | TopicTrie.cpp:33-48 | adding a fresh pair and removing it again restores the same tree in the same node objects, and deletes as many nodes as it made |
| Trie.SameNodesSameHeap | TopicTrie.cpp:33-104 | a valid trie whose nodes are where they were has the same child links |
| Trie.TopicTrie.SameEntriesSameHeap | TopicTrie.cpp:87-104 | a valid trie with the same entries in surviving nodes has the very same nodes and fields |
| Trie.StarPatternLookupCost | TopicTrie.cpp:57-85 | the pattern of k levels `*` costs exactly C(n+k+1, k) entries on a topic of n levels none literally `*` |
| Trie.LiteralPatternsLookupCost | TopicTrie.cpp:57-67 | without wildcard patterns a lookup takes at most one entry per level and one more |
| Trie.LinearLookupExactly | TopicTrie.cpp:57-85 | the documented cost: some constant times the depth bounds the entries on every topic if and only if no stored pattern has two levels `*` |
| Trie.LookupDegreeExactly | TopicTrie.cpp:57-85 | some constant times the k-th power of the depth bounds the entries on every topic if and only if no stored pattern has more than k levels `*` |
| Trie.OneEntryPerLevelExactly | TopicTrie.cpp:57-85 | the sharp constant: one entry per level and one more is enough on every topic if and only if no stored pattern has a wildcard level |
| LookupCost.CostAtMost | TopicTrie.cpp:57-85 | a search above u nodes with at most k levels `*` on each way takes at most 4^u (n+1)^k entries on a topic of n levels |
| LookupCost.CostAtLeast | TopicTrie.cpp:78-84 | a stored pattern with k levels `*` has, for every n, a topic of at most n times its own size on which the lookup takes at least n^k entries |
| Backtracking.WildcardCost | TopicTrie.cpp:57-85 | for every wildcard in a stored pattern there is a topic that costs more |
| Backtracking.StarLookupCost | TopicTrie.cpp:78-84 | the count at every depth of the search, by a hockey-stick sum |
| Backtracking.StarSum | TopicTrie.cpp:80-83 | the calls of the `*` loop over all suffixes add up to a binomial coefficient |
| Broker.StepKeepsSessions | server.cpp:35-84 | polled clients are duplicate-free and equal the mapped and the open descriptors; an id is connected exactly when mapped, through the socket it records; every step keeps this |
| Broker.DisconnectKeepsSessions | server.cpp:229-237 | closing, unmapping and erasing keep the tables consistent, so descriptors can be reused |
| Broker.StepKeepsTrie | server.cpp:86-114 | every trie entry is always the split of a topic its client holds |
| BrokerRuns.Exec | server.cpp:179-243 | the invariant holds after every run, and the first three polled descriptors never change |
| BrokerRuns.SessionsInjective | server.cpp:66-76 | no two sessions share an id, an id is connected if and only if some session maps to it, as many clients are polled as are open |
| BrokerRuns.StepReplays | server.cpp:86-114 | a step sends an acknowledgement exactly when it changes topics and trie, and it says how |
| BrokerRuns.AckReplay | server.cpp:86-114 | over any run, folding the acknowledgements of an id gives its topics, and folding all of them with topics split gives the trie |
| BrokerRuns.AckReplayFromStart | server.cpp:86-114 | the same from start-up, across reconnections |
| BrokerRuns.TablesByHistory | server.cpp:86-114 | in every run a topic is held if and only if the last acknowledgement about that spelling is of a subscription, and levels are in the trie for a client if and only if the last one about those levels is |
| BrokerRuns.RequestAnswered | server.cpp:86-114 | operation 0 adds the topic to the client's, 1 takes it out, and exactly if that changes them one frame goes back over the same descriptor: operation 2 or 3 with the topic bytes of the request |
| BrokerRuns.StepAcknowledges | server.cpp:86-133 | every step acknowledges a spelling once if it comes to be held or ceases to be, and otherwise not at all |
| BrokerRuns.AcknowledgementsAlternate | server.cpp:86-114 | over any run the acknowledgements to an id about a spelling alternate, and their number tells whether it is held |
| BrokerRuns.AcknowledgementsFromStart | server.cpp:86-114 | from start-up the first one is of a subscription |
| Delivery.StepSimulates | server.cpp:60-114 | every step is a step of a broker with topic sets and an online set only |
| Delivery.RunSimulates | server.cpp:179-243 | so is every run |
| Delivery.PublishOnce | server.cpp:116-133 | a publish creates no record and sends one frame, and only one, to each connected matching client over its own socket |
| Delivery.RecipientsAreIdeal | server.cpp:116-133 | in every reachable state only ids holding a matching topic are reached |
| Delivery.SyncedRecipients | server.cpp:116-133 | while trie and topic sets agree, exactly the connected ids holding a matching topic are reached |
| Delivery.StepSynced | server.cpp:102-106 | a step keeps trie and topic sets in agreement if and only if it does not drop a topic whose levels its client holds in another spelling |
| Delivery.CollidesBySlash | server.cpp:102-106 | that other spelling differs by one final '/' |
| Delivery.RunSynced | server.cpp:86-114 | along a run they agree throughout if and only if no unsubscription collides |
| Delivery.NeverTwinsNeverCollides | server.cpp:86-114 | if no client ever holds two topics with equal levels, no unsubscription collides |
| Delivery.CollisionLoses | server.cpp:102-106 | what a collision costs: the dropping client, and nobody else, misses a topic if and only if the dropped levels match it and nothing it holds with other levels does |
| Delivery.StepDeliversExactly | server.cpp:86-133 | a step from tables in agreement leaves delivery complete on every topic if and only if it loses none |
| Delivery.MissedExactly | server.cpp:116-133 | in any reachable state, a connected client misses a topic exactly when the trie has lost the levels of every matching topic it holds |
| Delivery.MissedByHistory | server.cpp:86-133 | in any run, a connected client misses a topic exactly when it was last acknowledged a subscription to some matching spelling, and for each of these the last acknowledgement about its levels is of an unsubscription |
| Delivery.DeliveryOverRuns | server.cpp:86-133 | from start-up over any run a publish would reach no one it should not, and everyone it should if no unsubscription collided |
| Delivery.PublishesInRuns | server.cpp:116-133 | every publish of every run sends at most one frame to each id, only to ids that are due, and to all of these if no unsubscription collided before |
| Delivery.DatagramReceivers | server.cpp:116-206 | in any run a datagram whose topic field spells t goes, one frame each, to exactly the connected ids with a pattern that matches t and whose last acknowledgement is of a subscription |
| Delivery.LostDelivery | server.cpp:102-106 | a concrete run after which a connected client misses a topic it holds |
| Delivery.SessionsKeepSubscriptions | server.cpp:229-237 | connecting, rejecting, publishing and disconnecting leave every topic set and the trie unchanged |
| Server.Server.constructor | server.cpp:168-177 | the tables at start-up |
| Server.Server.Accept | server.cpp:45-58 | what `accept` and `recvall` of the id give is passed on, except that an accepted descriptor is never open, nor one of the first three polled |
| Server.Server.ConnectNewClient | server.cpp:35-84 | an accepted client whose id is not connected is then connected through the new descriptor with its old topics, mapped from it and polled last, with whatever `revents` the entry holds; in every other case no table changes; either way it is one step |
| Server.Server.ProcessSubRequest | server.cpp:86-114 | a request is one step on the tables and the heap trie; operation 0 adds the topic, 1 takes it out, and one acknowledgement is sent exactly if the topics change |
| Server.Server.SubscriberAt | server.cpp:124-124 | operator[] on the record map, which would create a missing record |
| Server.Server.SendMsgToAllSubs | server.cpp:116-133 | a publish is one step that changes no table, in whatever order the matching ids are walked, at the cost of one lookup |
| Server.Server.KnownClient | server.cpp:123-124 | every id the trie finds already has a record |
| Server.Server.DropClient | server.cpp:229-237 | the client is no longer connected nor mapped, its descriptor is closed, and exactly the entry at the index is erased; that is one step |
| Server.Server.DrainClient | server.cpp:222-240 | reading a client handles its requests in order until it blocks or has gone |
| Server.Server.PollClients | server.cpp:216-242 | the loop with in-place erase inspects every entry present at its start once and in order, for any readiness flags, keeps exactly those that did not close, and leaves the first three alone |
| Turns.InspectionStep | server.cpp:216-236 | erasing at the index and stepping back leaves the index on the next entry not yet inspected |
| Turns.DrainedExactly | server.cpp:222-240 | reading a client handles its requests up to the first read that is none, and drops it exactly if that one finds it gone |
| Turns.TurnPublishes | server.cpp:191-208 | if the UDP socket is ready every datagram is published, in order, and nothing else is ever published in a turn |
| Turns.TurnAccepts | server.cpp:210-213 | if the listener is ready one arrival is handled, right after the publishes, and no other ever is |
| Turns.TurnReads | server.cpp:216-242 | a polled client that is ready gets exactly its reads handled, one that is not gets none, and nobody else is read but a newcomer |
| Turns.ArrivalOnline | server.cpp:60-84 | a client offered by a ready listener is online once it has been handled, under the id its bytes spell, with the topics it had; if it was connected before, nothing has changed |
| Turns.ServedInTurns | server.cpp:179-243 | a service is one turn for each round, each starting from where those before it have led |
| Server.Server.Poll | server.cpp:180-181 | every polled entry is flagged as the kernel says, and nothing else changes |
| Server.Server.DrainUdp | server.cpp:191-208 | every queued datagram is published once, in order, and the tables do not change |
| Server.Server.AcceptClient | server.cpp:210-213 | the arrival the kernel offers is the one handled, and the poll list grows by its entry or not at all |
| Server.Server.Turn | server.cpp:179-243 | the events of a turn are the publishes of all queued datagrams if the UDP socket is ready, then the arrival, then the inspection of every polled client, as the round says; tables and frames sent are those of these events |
| Server.Server.Serve | server.cpp:179-243 | the events are those of every round in turn, and tables and frames sent are those of these events |
| Wire.PacketRoundTrip | utils.hpp:31-44 | a packed message survives being laid out in bytes |
| Wire.MessageLayout | utils.hpp:31-44 | at which bytes of its 1558 a message frame has its header, address, port, topic, type and content |
| Wire.RequestLayout | utils.hpp:51-54 | likewise for the 52 bytes of a request and the header of an acknowledgement |
| Wire.CStringSpelled | server.cpp:39-70 | a C string is exactly the characters before the first NUL, or before the end of the field |
| Wire.TopicSpelled | server.cpp:203-203 | the topic of a message is exactly what its field spells, also when 50 characters fill it |
| Wire.DecodeRequest | utils.hpp:51-54 | the request read from 52 bytes is the one laid out in them |
| Stream.SendAll | utils.cpp:24-39 | all bytes are sent in order, unless a `send` fails first, for good or only once, and then -1 is returned and exactly the bytes up to there were sent |
| Stream.PushExactly | utils.cpp:30-37 | how much of the data goes out when the next failure is at a given byte, and that this failure is then over |
| Stream.RecvAll | utils.cpp:41-66 | exactly the next bytes of the stream fill the buffer however they are cut or interrupted; 0 or -1 when the stream ends or is reset first |
| Stream.SendMessage | server.cpp:126-131 | the body follows the header only if that was sent; the result tells whether the frame got through whole |
| Stream.SendAck | server.cpp:96-100 | the body follows whether or not the header was sent |
| Stream.SendFrames | server.cpp:96-131 | any frames sent one after the other, whatever happened to those before |
| Stream.WithoutFaults | server.cpp:96-131 | with no failure but the final break, the stream grows by the encoding of the frames, as far as the connection takes it |
| Stream.Subscriber.ReceiveMessage | subscriber.cpp:61-88 | a complete message is shown, an incomplete one ends the session |
| Stream.Subscriber.ReceiveSubscribeAck | subscriber.cpp:90-111 | likewise for acknowledgements |
| Stream.Subscriber.Run | subscriber.cpp:171-207 | the dispatch loop shows exactly the frames the stream carries and ends when it ends |
| Stream.DecodeCut | subscriber.cpp:183-206 | cut after any byte, a stream of frames decodes to exactly its complete frames, in order |
| Stream.CompleteIsLast | subscriber.cpp:183-206 | those are all frames that end at or before the cut |
| Stream.StreamRoundTrip | subscriber.cpp:183-206 | an uncut stream decodes to exactly the frames written |
| Stream.UnknownHeader | subscriber.cpp:193-202 | a byte that announces no frame is skipped |
| Framing.DecodeOn | subscriber.cpp:183-206 | what arrived shows the same whatever follows, and what follows is read on from the frame left incomplete |
| Framing.InStepExactly | subscriber.cpp:183-206 | whatever frames are sent next are shown as sent, behind what was shown before, if and only if no frame is left incomplete |
| Framing.FrameShown | server.cpp:96-131 | to a subscriber in step a frame is shown if and only if it got through whole, and leaves it in step if and only if it is not torn |
| Framing.HeaderLost | server.cpp:97-100 | a message whose header fails leaves the stream as it was; an acknowledgement whose header alone fails puts the subscriber out of step |
| Framing.InStepThroughout | server.cpp:96-131 | over a whole connection the subscriber is in step after every frame if and only if no frame is torn |
| Framing.KeptAreShown | subscriber.cpp:171-207 | if no frame is torn, exactly the frames that got through whole are shown, in order |
| Framing.Converse | subscriber.cpp:171-207 | sender and receiver together, over a connection that cuts, fails and breaks anywhere: unless a frame is torn, the subscriber is shown the frames that got through whole; without failures, exactly those that arrived whole |
| EndToEnd.OutputsPacked | server.cpp:86-133 | every frame the broker sends in any run has the wire's layout |
| EndToEnd.SessionsAreAll | server.cpp:86-133 | what a client is sent over its connections is what it is sent |
| EndToEnd.SessionsAreConnections | server.cpp:60-131 | everything sent between two logins of a client goes over one descriptor, and nothing is sent while it is away |
| EndToEnd.SubscriberKnowsItsTopics | subscriber.cpp:171-207 | a client that gets all bytes of each of its connections, through its own sockets, learns exactly the topics the broker holds for it |
| EndToEnd.RunServer | server.cpp:135-252 | the whole server on its real tables and trie: its run is the one the rounds spell out, and it delivers as the ideal broker of that run does |
| Numerals.DecValue | utils.cpp:106-117 | a printed unsigned number reads back and has no leading zero |
| Numerals.PadValue | utils.cpp:117-117 | zero padding keeps the value and gives the width asked for |
| Numerals.DecIsNumeral | utils.cpp:104-117 | what is printed for an unsigned number is the only numeral without leading zeros that denotes it |
| Numerals.PadIsPadded | utils.cpp:117-136 | what is printed at a width is the only text of that width that denotes the number |
| Numerals.ParsePrinted | utils.cpp:104-136 | sign, digits, point, digits parse back to their parts |
| Display.GetDisplayedContent | utils.cpp:92-147 | the stream-building code, with its wrapping power loop, prints the specified text, or is undefined |
| Display.DisplayedNumber | utils.cpp:92-147 | for complete INT, SHORT_REAL and FLOAT messages, which number the text denotes, and exactly when |
| Display.NetworkOrder | utils.cpp:99-115 | four or two bytes with the most significant one first are read as the number they make up |
| Display.IntShown | utils.cpp:96-109 | from the bytes of an INT payload to its exact text |
| Display.ShortRealShown | utils.cpp:111-119 | the same for SHORT_REAL |
| Display.FloatShown | utils.cpp:120-138 | the same for FLOAT, with the quotient and remainder of the number by the wrapped power |
| Display.StringShown | utils.cpp:139-145 | STRING shows the characters before the first NUL; types above 3 show "INVALID" |
| Display.PayloadDenotes | utils.cpp:92-147 | which number the text denotes, and exactly when, told from the bytes of the payload |
| Display.DisplayFloat | utils.cpp:127-136 | the divisions are defined exactly for exponents below 32 |
| Display.WrappedPowerStep | utils.cpp:129-131 | the loop that wraps at every multiplication computes 10^e mod 2^32 |
| Display.WrappedPowerExact | utils.cpp:129-131 | that is 10^e if and only if e is at most 9, and less beyond |
| Display.WrappedPowerZero | utils.cpp:129-131 | it is zero if and only if e is at least 32 |
| Display.IntRoundTrip | utils.cpp:97-109 | INT parses back to the signed value and is never "-0" |
| Display.ShortRealRoundTrip | utils.cpp:111-119 | SHORT_REAL has exactly two decimals and parses back to n/100 |
| Display.FloatParts | utils.cpp:120-138 | FLOAT prints quotient and remainder with exactly e decimals, one "0" for e = 0 |
| Display.FloatDenotes | utils.cpp:120-138 | the text denotes the signed m/10^e if and only if e is at most 9 or m is below the wrapped power |
| Display.FloatMisprinted | utils.cpp:120-138 | a concrete payload outside that range and its wrong text |
| Display.FloatUnique | utils.cpp:120-138 | for all exponents that print, two payloads print alike if and only if they are the same, or one is an integer with exponent 0 and the other that integer times ten with exponent 1 and the same sign |
| Command.Tokenizer.Next | subscriber.cpp:27-45 | `strtok` hands out the words of the line one by one, terminates each with a NUL in place, and changes nothing else in the buffer |
| Command.TwoWords | subscriber.cpp:27-45 | two words are found whatever the runs of blanks around them |
| Command.FillTopic | subscriber.cpp:50-51 | the topic field holds the first 50 characters and then NULs |
| Command.ProcessInputCommand | subscriber.cpp:24-59 | outcome and request depend on the words alone; a subscribe or unsubscribe command puts its 52 bytes on the connection, as far as that takes them, and nothing else sends anything |
| Command.CommandRoundTrip | subscriber.cpp:24-59 | for every line with a subscribe or unsubscribe word and a topic word, whatever blanks and newlines are around them, the 52 bytes actually sent are operation 0 or 1, the first 50 characters of the topic and NULs, and the server reads these back |
| Command.TypedLine | subscriber.cpp:24-59 | in particular for a typed line that ends with a newline: the newline is no part of the topic |
| Command.OutcomeInCharacters | subscriber.cpp:27-46 | what every line does, in characters: "exit" ends the program, subscribe and unsubscribe need a second word, anything else is invalid |
| Command.ExitLine | subscriber.cpp:27-31 | "exit" followed by a newline ends the program |

## Left out

- Sockets, `poll`, `setsockopt`, address parsing, `DIE`, logging and the server's stdin: plumbing. The kernel is a byte stream whose `send` and `recv` take any non-empty part, whose `recv` is interrupted finitely often, whose `send` fails once after each of any list of numbers of bytes, and which breaks for sending after any number of bytes; `accept` returns a descriptor that is not open.
- Requests that arrive cut in pieces at the server: its single `recv` drops a short read (`server.cpp:225-239`), which the model keeps as a read without effect; the bytes lost are not modelled.
- Request topics without a terminating NUL and blank command lines: undefined in the source, preconditions here.
- STRING payloads without a terminating NUL read past the content: the model calls the outcome undefined. Datagrams shorter than a message are not modelled.
- Failed sends: the tables do not react to them, so delivery and acknowledgements speak of frames handed to `sendall`; what a failing or broken connection makes of these is told for one connection at a time, and `SubscriberKnowsItsTopics` is about connections that take and deliver everything.
- Hash tables: maps and sets, so iteration order is arbitrary and bucket behaviour is not modelled. Records of subscribers are values in a map that the methods reassign; the references the source holds into it are not modelled.
- The order of frames across clients within one publish is arbitrary.
- `Sprout`, `Detach`, `CollectChild`, `CollectStar`, `InspectClient`, `DrainClient` and their like are parts of single source functions, separated so that each has a contract.
- Memory: `delete` is a ghost record of the nodes given back, and a node object is never reused.
- What the subscriber prints around a displayed content: the sender's address and port, the name of the type, and the words before an acknowledged topic. `shown` lists the frames themselves.
- `test.py`, the UDP client and the sample payloads are not part of this model.
