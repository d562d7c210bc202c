# Chang–Roberts ring election, modelled in Dafny

This project models one node of `RingElection`, a Java implementation of the
Chang–Roberts leader election on a unidirectional ring (Chang & Roberts,
"An improved algorithm for decentralized extrema-finding in circular
configurations of processes", CACM 1979). It also models a ring of such nodes.

A node has a fixed identity: `nodeId`, its listening `port`, and the
successor's `nextHost` and `nextPort`. It has two mutable fields: `leader`, an
optional id, and the `electionInProgress` flag. It reacts to one-line
messages `"ELECTION <id>"` and `"LEADER <id>"`, and its only side effect is
sending one line to its successor.

The model has five modules:

- `JavaText` (java_text.dfy): the Java library behaviour the node depends on.
  This is `String.split(" ")` (cut at every space, drop trailing empty
  tokens, return a string without spaces whole), `Integer.parseInt` (optional
  sign, decimal digits, 32-bit range) and `Integer.toString`.
- `Protocol` (protocol.dfy): the wire format. It reads a line as a kind and an
  `int`, writes the two messages a node originates, and proves that a written
  message reads back as what was written.
- `Election` (election.dfy): the three operations as pure transitions,
  `(nodeId, state, input) -> (new state, lines sent)`. There is one lemma per
  row of the decision table, plus lemmas that hold for every message.
- `ElectionNode` (ring_election.dfy): the node as the Java class it is. Class
  `RingElection` has the fields above, and its methods update `leader` and
  `electionInProgress` in place. Sending is one append to the `outbox`
  sequence. Each method is proved to follow the matching transition of
  `Election`.
- `Ring` (ring.dfy): N nodes, where node i sends to node
  i + 1 and the last node sends to the first. Messages are delivered one at a
  time. The main result: the `ELECTION` message carrying the largest id is
  passed on by every other node and returns to the node that sent it. That
  node becomes leader, and its `LEADER` message makes one full lap. At the end
  every node has recorded the largest id as leader, no node has an election in
  progress, and no message is still travelling. This needs only that one
  node alone holds the largest id; smaller ids may repeat. When the largest
  id is shared, the election can fail: two nodes can both crown themselves.
  A second result covers an election started by any node. In a ring of
  distinct ids where every node is idle, a start at node i elects the
  largest id within Dist(i, m) + 2N deliveries, where m holds that id.

Facts about the code that the model keeps:

- The announcement kind is the literal `LEADER`.
- Lines are split on single spaces, not on runs of whitespace. A trailing
  space produces an empty last token, which `split` drops, so
  `"ELECTION "` is a single token.
- A non-integer id makes `Integer.parseInt` throw inside `processMessage`.
  `handleClient` catches only `IOException`, so the exception ends the
  handler thread before any field is written. The model therefore treats it
  as "no state change, nothing sent".

## Model

| member | source | states |
|---|---|---|
| `JavaText.Split` | src/main/java/org/example/RingElection.java:136 | A line without a space is one token. Tokens never contain a space, and the last token is never empty once a space is present. Joining the tokens with single spaces gives back the line, except for spaces at its end. |
| `JavaText.SplitTwoWords` | src/main/java/org/example/RingElection.java:136 | Two space-free words, the second non-empty, with one space between them split into exactly those two tokens. |
| `JavaText.SplitKeepsFirstTwoWords` | src/main/java/org/example/RingElection.java:136-143 | Anything after the second word does not change the first two tokens. |
| `JavaText.ParseInt` | src/main/java/org/example/RingElection.java:143 | A value is returned only for an optional sign followed by digits, and it fits in a Java `int`. Every other input is the exception case. |
| `JavaText.ParseIntOfDigits` | src/main/java/org/example/RingElection.java:143 | Every unsigned digit string, leading zeros included, reads as its decimal value when that is at most the `int` maximum, and is refused otherwise. |
| `JavaText.ParseIntOfPlusDigits` | src/main/java/org/example/RingElection.java:143 | A leading `+` is accepted and changes nothing: the value is that of the digits, under the same bound. |
| `JavaText.ParseIntOfMinusDigits` | src/main/java/org/example/RingElection.java:143 | A leading `-` gives the negated value of the digits when that is at least the `int` minimum, and is refused otherwise. |
| `JavaText.SignAndLeadingZerosAccepted` | src/main/java/org/example/RingElection.java:143 | `"+5"` reads as 5 and `"007"` as 7. |
| `JavaText.NatToString` | src/main/java/org/example/RingElection.java:218 | Decimal digits with no leading zero whose value is the number. |
| `JavaText.IntToString` | src/main/java/org/example/RingElection.java:218 | A non-empty rendering with no space in it, so it stays one token on the wire. |
| `JavaText.ParseIntToString` | src/main/java/org/example/RingElection.java:143 | For every `int`, parsing its `toString` gives back the same value. |
| `Protocol.ElectionMessage` | src/main/java/org/example/RingElection.java:218 | The line `startElection` writes, `"ELECTION " + id`. It has no contract of its own. `Protocol.ParseOwnMessages` proves it reads back as `ELECTION` with that id, and `Ring.CandidacyOnTheWire` shows one instance. |
| `Protocol.LeaderMessage` | src/main/java/org/example/RingElection.java:232 | The line `becomeLeader` writes, `"LEADER " + leader`. It has no contract of its own. `Protocol.ParseOwnMessages` proves it reads back as `LEADER` with that id. |
| `Protocol.ParseMessage` | src/main/java/org/example/RingElection.java:136-143 | A line is accepted exactly when it has at least two tokens and its second token reads as an `int`. The kind is then the first token and the id is the value `parseInt` gives for the second token. |
| `Protocol.ParseFormat` | src/main/java/org/example/RingElection.java:136-143 | Round trip: a message written as kind, space, id reads back as that kind and id. |
| `Protocol.ParseIgnoresExtraTokens` | src/main/java/org/example/RingElection.java:136-143 | Tokens after the id do not change how a message reads. |
| `Protocol.ParseOwnMessages` | src/main/java/org/example/RingElection.java:218-232 | `"ELECTION " + id` and `"LEADER " + id` read back as that kind and that id. |
| `Protocol.SingleTokenRefused` | src/main/java/org/example/RingElection.java:137-140 | Any line without a space is refused. |
| `Protocol.MissingIdRefused` | src/main/java/org/example/RingElection.java:137-140 | `"ELECTION"` on its own is refused. |
| `Protocol.NonIntegerIdRefused` | src/main/java/org/example/RingElection.java:143 | `"ELECTION abc"` is refused. |
| `Protocol.TrailingSpaceRefused` | src/main/java/org/example/RingElection.java:136-140 | `"ELECTION "` is a single token, so it is refused. |
| `Protocol.OutOfRangeIdRefused` | src/main/java/org/example/RingElection.java:143 | An id above the `int` maximum, or below its minimum, is refused. |
| `Protocol.UnknownKindReads` | src/main/java/org/example/RingElection.java:142-145 | `"FOO 5"` reads as kind `FOO` with id 5. Dropping it is left to the kind switch. |
| `Election.StartElectionStep` | src/main/java/org/example/RingElection.java:214-220 | `startElection` as a transition from state to new state and lines sent. It has no contract of its own. `Election.StartElectionWhenIdle` and `Election.StartElectionIdempotent` state its behaviour, and `ElectionNode.RingElection.StartElection` is proved equal to it. |
| `Election.BecomeLeaderStep` | src/main/java/org/example/RingElection.java:228-233 | `becomeLeader` as a transition: `leader` becomes `nodeId`, the flag is cleared, and `LEADER nodeId` is sent. It has no contract of its own. `Election.OwnElectionMakesLeader` states it in context, and `ElectionNode.RingElection.BecomeLeader` is proved equal to it. |
| `Election.ProcessMessageStep` | src/main/java/org/example/RingElection.java:135-170 | `processMessage` as a transition. It has no contract of its own. The decision-table lemmas `Election.ElectionForLargerIdForwarded` through `Election.LeaderChangesOnlyOnAnnouncement` state its behaviour, and `ElectionNode.RingElection.ProcessMessage` is proved equal to it. |
| `Election.StartElectionWhenIdle` | src/main/java/org/example/RingElection.java:214-220 | When idle, the flag is raised and `leader` is kept. Exactly one line is sent, and it reads as `ELECTION nodeId`. |
| `Election.StartElectionIdempotent` | src/main/java/org/example/RingElection.java:214-220 | A start during an election changes nothing and sends nothing. Two starts in a row send exactly one `ELECTION` from an idle node and none from a busy one. |
| `Election.ElectionForLargerIdForwarded` | src/main/java/org/example/RingElection.java:147-148 | An `ELECTION` for a larger id is forwarded as the identical line, and the state is unchanged. |
| `Election.ElectionForSmallerIdSuppressed` | src/main/java/org/example/RingElection.java:149-152 | An `ELECTION` for a smaller id is dropped while an election is in progress. Otherwise the node does exactly what `startElection` does. The received line is never forwarded. |
| `Election.OwnElectionMakesLeader` | src/main/java/org/example/RingElection.java:153-154 | The node's own id coming back sets `leader` to `nodeId` and clears the flag. The only line sent is `LEADER nodeId`, never another `ELECTION`. |
| `Election.LeaderRecordedAndAbsorbed` | src/main/java/org/example/RingElection.java:158-164 | A `LEADER k` line sets `leader` to `k` and clears the flag. The line is forwarded unchanged exactly when `k` is not our id, and nothing is sent exactly when it is. |
| `Election.MalformedIgnored` | src/main/java/org/example/RingElection.java:137-168 | A line that does not parse, or has an unknown kind, leaves both fields unchanged and sends nothing. |
| `Election.NonIntegerIdIgnored` | src/main/java/org/example/RingElection.java:143 | Every line of two or more tokens whose second token is not an `int` is refused, whatever its kind. It leaves the state unchanged and sends nothing. |
| `Election.MalformedExamplesIgnored` | src/main/java/org/example/RingElection.java:137-168 | `"ELECTION"`, `"ELECTION abc"`, `"ELECTION "` and `"FOO 5"` change nothing and send nothing, whatever the state. |
| `Election.AtMostOneSend` | src/main/java/org/example/RingElection.java:145-169 | Processing one message, or one start, sends at most one line. |
| `Election.NoWeakerCandidateSent` | src/main/java/org/example/RingElection.java:147-154 | Every line a node sends is a well-formed message. Every `ELECTION` it sends carries an id at least as large as its own. |
| `Election.LeaderChangesOnlyOnAnnouncement` | src/main/java/org/example/RingElection.java:145-165 | `leader` changes only on a `LEADER` line or on our own `ELECTION` coming back. It then becomes the id the message carries. |
| `ElectionNode.RingElection.constructor` | src/main/java/org/example/RingElection.java:26-31 | The identity is as given, with `nodeId` in 1000..9999. There is no leader, no election in progress, and nothing has been sent. |
| `ElectionNode.RingElection.SendMessage` | src/main/java/org/example/RingElection.java:180-191 | One successful send appends the line to the outbox. |
| `ElectionNode.RingElection.StartElection` | src/main/java/org/example/RingElection.java:214-220 | The new fields and the lines sent are those of `Election.StartElectionStep`. |
| `ElectionNode.RingElection.BecomeLeader` | src/main/java/org/example/RingElection.java:228-233 | The new fields and the lines sent are those of `Election.BecomeLeaderStep`. |
| `ElectionNode.RingElection.ProcessMessage` | src/main/java/org/example/RingElection.java:135-170 | The new fields and the lines sent are those of `Election.ProcessMessageStep`, for every input line. |
| `ElectionNode.TwoStartsSendOnce` | src/main/java/org/example/RingElection.java:214-220 | On a fresh node object, two `StartElection` calls leave exactly one line, `ELECTION id`, in the outbox, with an election in progress and no leader. |
| `Ring.Next` | src/main/java/org/example/RingElection.java:13-14 | Each node's successor is a node of the ring. |
| `Ring.Dist` | src/main/java/org/example/RingElection.java:13-14 | The number of successor steps from one node to another is less than N. It is zero exactly when the two are the same node. |
| `Ring.DistNext` | src/main/java/org/example/RingElection.java:13-14 | From a node other than m, its successor is one step closer to m. |
| `Ring.DistAfter` | src/main/java/org/example/RingElection.java:13-14 | From the successor of m, node m is N - 1 steps away. |
| `Ring.DistinctMaxIsUnique` | src/main/java/org/example/RingElection.java:37-39 | In a ring of distinct `int` ids, the node holding the largest id is the only one holding it. |
| `Ring.DeliverBy` | src/main/java/org/example/RingElection.java:106-114 | A delivery changes only the receiving node's state and keeps the ids. |
| `Ring.Deliver` | src/main/java/org/example/RingElection.java:106-114 | `Ring.DeliverBy` with `processMessage` as the node step: one line read by `handleClient` and handled. It has no contract of its own beyond that of `Ring.DeliverBy`. |
| `Ring.Relay` | src/main/java/org/example/RingElection.java:180-191 | `Ring.RelayBy` with `processMessage` as the node step. It has no contract of its own. The ring theorems, from `Ring.MaxIdElected` on, are stated about it. |
| `Ring.RelayBy` | src/main/java/org/example/RingElection.java:180-191 | A chain of deliveries keeps the ring's ids and its shape. |
| `Ring.DeliverMaxElection` | src/main/java/org/example/RingElection.java:147-154 | When one node alone holds the largest id, every other node passes that id's `ELECTION` on untouched. The holder becomes leader and sends `LEADER`. |
| `Ring.PassedOnToOriginator` | src/main/java/org/example/RingElection.java:147-148 | A line that every other node passes on untouched reaches its originator with the ring unchanged. |
| `Ring.AbsorbedByOriginator` | src/main/java/org/example/RingElection.java:158-164 | An announcement that every node records and forwards, except its originator, visits each node on the way once and then stops. |
| `Ring.TwoLaps` | src/main/java/org/example/RingElection.java:145-165 | An election lap followed by an announcement lap leaves every node in the announced state with nothing in flight. |
| `Ring.MaxIdElected` | src/main/java/org/example/RingElection.java:145-165 | When one node alone holds the largest id (smaller ids may repeat), that id's `ELECTION`, injected at any node, ends after at most two laps. Every node then has that id as leader and no election in progress, and no message is still travelling. |
| `Ring.StrongestStartElects` | src/main/java/org/example/RingElection.java:214-220 | An idle node that alone holds the largest id and starts an election sends its own `ELECTION`. After 2N deliveries every node has elected it. |
| `Ring.ClimbReaction` | src/main/java/org/example/RingElection.java:146-152 | An idle node handed an `ELECTION` for another `int` id passes a larger one on unchanged. For a smaller one it raises its flag and sends its own `ELECTION` in its place. |
| `Ring.ReactsAtNode` | src/main/java/org/example/RingElection.java:146-152 | A node step that reacts that way at every node of the ring does so at node k. |
| `Ring.ProcessReactsAt` | src/main/java/org/example/RingElection.java:146-152 | `processMessage` at a node with an `int` id reacts to every `ELECTION` that way. |
| `Ring.ProcessReactsToCandidacies` | src/main/java/org/example/RingElection.java:146-152 | `processMessage` reacts that way at every node of a ring of `int` ids. |
| `Ring.ClimbStep` | src/main/java/org/example/RingElection.java:146-152 | One delivery of a weaker `ELECTION` at a node before the holder of the largest id. If the node's id is smaller, the candidacy travels on unchanged and no state changes. Otherwise the node raises its flag, and its own id travels on in place of the candidacy. Either way the next candidacy is still below the largest id, and every node from the successor up to the holder stays idle and holds a different id. |
| `Ring.ClimbArrives` | src/main/java/org/example/RingElection.java:149-152 | The holder of the largest id, idle, replaces a weaker `ELECTION` by its own. |
| `Ring.ClimbToMax` | src/main/java/org/example/RingElection.java:146-152 | A weaker `ELECTION` travelling through idle nodes of distinct ids reaches the holder m of the largest id after Dist(j, m) + 1 deliveries. The chain then continues as m's own `ELECTION` leaving m, with the ids unchanged. The states on the way are not described; `Ring.ClimbStep` gives them one delivery at a time. |
| `Ring.WeakCandidacyElects` | src/main/java/org/example/RingElection.java:145-165 | In a ring of distinct ids where every node other than i is idle, the `ELECTION` of a node i that does not hold the largest id, sent to its successor, elects the largest id everywhere within Dist(i, m) + 2N deliveries. No election is then running and nothing is in flight. |
| `Ring.AnyIdleStartElects` | src/main/java/org/example/RingElection.java:214-220 | In a ring of distinct ids where every node is idle, a start at any node i sends its own `ELECTION`. Within Dist(i, m) + 2N deliveries every node has the largest id as leader, no election is running, and nothing is in flight. |
| `Ring.ThreeNodeWeakStart` | src/main/java/org/example/RingElection.java:149-152 | Nodes 1200, 4700, 1800 from fresh states, node 1200 starting: node 4700 replaces the candidacy by its own, and after 1 + 6 = 7 deliveries all three have leader 4700. |
| `Ring.ThreeNodeExample` | src/main/java/org/example/RingElection.java:145-165 | Nodes 1200, 4700, 1800, in any states: `ELECTION 4700` injected at node 1200 leaves all three with leader 4700 after five deliveries. |
| `Ring.SharedSmallerIdExample` | src/main/java/org/example/RingElection.java:37-39 | Ids 5000, 3000, 3000 are not distinct, yet the `ELECTION 5000` sent by node 0 elects 5000 at every node within 2N deliveries. A shared id below the largest does no harm. |
| `Ring.DuplicateIdsSplitTheRing` | src/main/java/org/example/RingElection.java:37-39 | When the largest id is shared, the election can fail. Take a ring of four where nodes 0 and 2 share the largest id. Node 0's `ELECTION`, delivered to node 1, is taken by node 2 as its own. Nodes 0 and 2 both end holding themselves as leader, and node 1 keeps its old state. No node of that ring alone holds the largest id. |
| `Ring.SharedMaxRing` | src/main/java/org/example/RingElection.java:37-39 | A ring of four whose nodes 0 and 2 share the largest id has neither distinct ids nor a node that alone holds the largest id. |
| `Ring.DuplicateReactions` | src/main/java/org/example/RingElection.java:145-165 | How each node of that ring handles the `ELECTION` and `LEADER` lines of the run. |
| `Ring.HalfLapTwice` | src/main/java/org/example/RingElection.java:145-165 | For any node step with those four reactions, the chain started at node 1 ends after four deliveries with nodes 0, 2 and 3 in the announced state, node 1 unchanged, and nothing in flight. |
| `Ring.DuplicateMaxExample` | src/main/java/org/example/RingElection.java:37-39 | Ids 9000, 1000, 9000, 2000 from fresh nodes, all in the range ids are drawn from. Nodes 0 and 2 both record 9000, their own id, as leader, and node 1 records no leader. |
| `Ring.CandidacyOnTheWire` | src/main/java/org/example/RingElection.java:218 | The message for id 4700 is the line `ELECTION 4700`. |

## Left out

- Sockets and threads are not modelled: the `ServerSocket`, the accept loop in `runServer`, and one handler thread per connection in `handleClient`. Each message is handled as one atomic step, so the race between handler threads on `leader` and `electionInProgress` is not modelled.
- Transport details of `sendMessage` are not modelled: name lookup, connect and write, the 5-second sleep, the unbounded recursive retry, and the message dropped on `UnknownHostException`. A send is one successful append to the outbox.
- `generateRandomId` (randomness): the id is a constructor parameter in the range it draws from, 1000..9999.
- `isValidAddress`, `start`, `runMenu`, `printStatus`, `shutdown` and `main` are not modelled. They are console I/O, process exit and argument parsing.
- Console and error output produced while handling messages is not modelled.
- JavaText.ParseInt: accepts only ASCII digits. `Character.digit` also accepts other Unicode decimal digits, which no node ever writes.
- Ring.MaxIdElected: needs one node alone to hold the largest id (`UniqueMax`). `generateRandomId` draws each id independently from 1000..9999 and nothing checks uniqueness, so two nodes can share even the largest id. `Ring.DuplicateIdsSplitTheRing` shows that the election can fail then.
- Ring.AnyIdleStartElects: needs distinct ids and every node idle at the start. With a repeated smaller id, a replacement candidacy could meet its twin on the way, and that case is not covered. A start while some other node already has an election running is not covered either.
- Ring.RelayBy: follows one chain of messages. Elections started by several nodes at once, interleaved deliveries, and message loss are not modelled. The ring theorems are about one chain: the largest id's candidacy (`Ring.MaxIdElected`) or one node's start (`Ring.AnyIdleStartElects`).
