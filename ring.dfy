/**
 A ring of N nodes, node i's successor being node i + 1 (and the last
 node's the first), driven one delivery at a time. Each delivery makes a
 node send at most one line, so a message and what it provokes form one
 chain of deliveries around the ring; `Relay` follows such a chain.
 */
module Ring {
  import opened JavaText
  import opened Protocol
  import opened Election

  /** The identifiers of the nodes in ring order and their election states. */
  datatype Ring = Ring(ids: seq<int>, states: seq<ElectionState>)

  /** A message on its way to node `to`. */
  datatype InFlight = InFlight(to: nat, message: string)

  /** Where a chain of deliveries stands: the ring, and the line still travelling if any. */
  datatype Run = Run(ring: Ring, pending: Option<InFlight>)

  /** At least one node, and one state per node. */
  predicate Shaped(r: Ring) {
    |r.ids| > 0 && |r.ids| == |r.states|
  }

  /** A well-shaped ring whose identifiers are distinct Java `int`s. */
  predicate Valid(r: Ring) {
    Shaped(r) &&
    (forall i :: 0 <= i < |r.ids| ==> IsInt32(r.ids[i])) &&
    (forall i, j :: 0 <= i < j < |r.ids| ==> r.ids[i] != r.ids[j])
  }

  /** The successor of node i. */
  function Next(n: nat, i: nat): (j: nat)
    requires i < n
    ensures j < n
  {
    if i + 1 == n then 0 else i + 1
  }

  /** How many successor steps lead from node i to node m. */
  function Dist(n: nat, i: nat, m: nat): (d: nat)
    requires i < n && m < n
    ensures d < n
    ensures d == 0 <==> i == m
  {
    if i <= m then m - i else m + n - i
  }

  /** One successor step brings node i one step closer to node m. */
  lemma DistNext(n: nat, i: nat, m: nat)
    requires i < n && m < n && i != m
    ensures Dist(n, Next(n, i), m) + 1 == Dist(n, i, m)
  {
  }

  /** From the successor of m, node m is a full lap but one away. */
  lemma DistAfter(n: nat, m: nat)
    requires m < n
    ensures Dist(n, Next(n, m), m) == n - 1
  {
  }

  /** Node m holds the largest identifier of the ring. */
  predicate IsMaxNode(r: Ring, m: nat) {
    m < |r.ids| && forall j :: 0 <= j < |r.ids| ==> r.ids[j] <= r.ids[m]
  }

  /**
   Node m holds an `int` identifier larger than every other node's. Other
   nodes may share identifiers among themselves.
   */
  predicate UniqueMax(r: Ring, m: nat) {
    m < |r.ids| && IsInt32(r.ids[m]) &&
    forall j :: 0 <= j < |r.ids| && j != m ==> r.ids[j] < r.ids[m]
  }

  /** In a ring of distinct `int` identifiers, the node holding the largest one holds it alone. */
  lemma DistinctMaxIsUnique(r: Ring, m: nat)
    requires Valid(r) && IsMaxNode(r, m)
    ensures UniqueMax(r, m)
  {
    forall j | 0 <= j < |r.ids| && j != m
      ensures r.ids[j] < r.ids[m]
    {
      if j < m { assert r.ids[j] != r.ids[m]; } else { assert r.ids[m] != r.ids[j]; }
    }
  }

  /** The state every node ends in once it has recorded `id` as leader. */
  function Elected(id: int): ElectionState {
    ElectionState(Some(id), false)
  }

  /** What one node does with one line: its identifier and state in, the reaction out. */
  type NodeStep = (int, ElectionState, string) -> Reaction

  /** Node i handles `message` by `step`; only node i's state changes. */
  function DeliverBy(step: NodeStep, r: Ring, i: nat, message: string): (res: (Ring, seq<string>))
    requires Shaped(r) && i < |r.ids|
    ensures Shaped(res.0) && res.0.ids == r.ids
    ensures res.0.states == r.states[i := step(r.ids[i], r.states[i], message).state]
    ensures res.1 == step(r.ids[i], r.states[i], message).sent
  {
    var reaction := step(r.ids[i], r.states[i], message);
    (r.(states := r.states[i := reaction.state]), reaction.sent)
  }

  /**
   Delivers `message` to node i, then whatever that node sends to its
   successor, and so on, for at most `hops` deliveries. The chain ends early
   when a node sends nothing. It follows the first line a node sends, which
   for the ring's own step is every line (Election.AtMostOneSend).
   */
  function RelayBy(step: NodeStep, r: Ring, i: nat, message: string, hops: nat): (run: Run)
    requires Shaped(r) && i < |r.ids|
    ensures Shaped(run.ring) && run.ring.ids == r.ids
    decreases hops
  {
    if hops == 0 then Run(r, Some(InFlight(i, message)))
    else
      var (r', sent) := DeliverBy(step, r, i, message);
      if sent == [] then Run(r', None)
      else RelayBy(step, r', Next(|r.ids|, i), sent[0], hops - 1)
  }

  /** A delivery in the ring: node i runs `processMessage` on the line. */
  function Deliver(r: Ring, i: nat, message: string): (res: (Ring, seq<string>))
    requires Shaped(r) && i < |r.ids|
  {
    DeliverBy(ProcessMessageStep, r, i, message)
  }

  /** A chain of deliveries in the ring, each node running `processMessage`. */
  function Relay(r: Ring, i: nat, message: string, hops: nat): (run: Run)
    requires Shaped(r) && i < |r.ids|
  {
    RelayBy(ProcessMessageStep, r, i, message, hops)
  }

  /** A delivery that sends one line continues the chain at the successor with that line. */
  lemma RelayForward(step: NodeStep, r: Ring, i: nat, message: string, hops: nat, r': Ring, out: string)
    requires Shaped(r) && i < |r.ids| && DeliverBy(step, r, i, message) == (r', [out])
    ensures RelayBy(step, r, i, message, hops + 1) == RelayBy(step, r', Next(|r.ids|, i), out, hops)
  {
  }

  /** A delivery that sends nothing ends the chain. */
  lemma RelayStop(step: NodeStep, r: Ring, i: nat, message: string, hops: nat, r': Ring)
    requires Shaped(r) && i < |r.ids| && DeliverBy(step, r, i, message) == (r', [])
    ensures RelayBy(step, r, i, message, hops + 1) == Run(r', None)
  {
  }

  /**
   A line that every node but m passes on untouched travels from node i to
   node m without changing the ring.
   */
  lemma {:induction false} PassedOnToOriginator(step: NodeStep, r: Ring, m: nat, i: nat, message: string, extra: nat)
    requires Shaped(r) && m < |r.ids| && i < |r.ids|
    requires forall j :: 0 <= j < |r.ids| && j != m ==> DeliverBy(step, r, j, message) == (r, [message])
    ensures RelayBy(step, r, i, message, Dist(|r.ids|, i, m) + 1 + extra) == RelayBy(step, r, m, message, 1 + extra)
    decreases Dist(|r.ids|, i, m)
  {
    var n := |r.ids|;
    if i != m {
      var d := Dist(n, Next(n, i), m);
      DistNext(n, i, m);
      RelayForward(step, r, i, message, d + 1 + extra, r, message);
      PassedOnToOriginator(step, r, m, Next(n, i), message, extra);
    }
  }

  /**
   How a node handles the strongest candidacy: every node other than its
   originator passes it on untouched; the originator becomes leader and
   sends its announcement.
   */
  lemma DeliverMaxElection(r: Ring, m: nat, i: nat)
    requires Shaped(r) && UniqueMax(r, m) && i < |r.ids|
    ensures i != m ==> Deliver(r, i, ElectionMessage(r.ids[m])) == (r, [ElectionMessage(r.ids[m])])
    ensures i == m ==> Deliver(r, i, ElectionMessage(r.ids[m])) ==
                       (r.(states := r.states[m := Elected(r.ids[m])]), [LeaderMessage(r.ids[m])])
  {
    var max := r.ids[m];
    if i != m {
      assert Deliver(r, i, ElectionMessage(max)) == (r, [ElectionMessage(max)]) by {
        ParseOwnMessages(max);
        assert r.ids[i] < max;
        ElectionForLargerIdForwarded(r.ids[i], r.states[i], ElectionMessage(max), max);
        assert r.states[i := r.states[i]] == r.states;
      }
    } else {
      assert Deliver(r, m, ElectionMessage(max)) ==
             (r.(states := r.states[m := Elected(max)]), [LeaderMessage(max)]) by {
        ParseOwnMessages(max);
        OwnElectionMakesLeader(max, r.states[m], ElectionMessage(max));
      }
    }
  }

  /**
   A line that every node records in the same way, passing it on unless it
   is node m, travels from node i to node m, where it stops: every node on
   the way (node m included) ends in state `f`, and the others keep theirs.
   */
  lemma {:induction false} AbsorbedByOriginator(step: NodeStep, r: Ring, m: nat, i: nat, message: string,
                                                f: ElectionState, extra: nat)
    requires Shaped(r) && m < |r.ids| && i < |r.ids|
    requires forall j, s :: 0 <= j < |r.ids| ==>
               step(r.ids[j], s, message) == Reaction(f, if j == m then [] else [message])
    ensures var run := RelayBy(step, r, i, message, Dist(|r.ids|, i, m) + 1 + extra);
            run.pending == None &&
            forall j :: 0 <= j < |r.ids| ==>
              run.ring.states[j] == if Dist(|r.ids|, j, m) <= Dist(|r.ids|, i, m) then f else r.states[j]
    decreases Dist(|r.ids|, i, m)
  {
    var n := |r.ids|;
    var r' := r.(states := r.states[i := f]);
    assert step(r.ids[i], r.states[i], message) == Reaction(f, if i == m then [] else [message]);
    if i != m {
      var d := Dist(n, Next(n, i), m);
      DistNext(n, i, m);
      RelayForward(step, r, i, message, d + 1 + extra, r', message);
      AbsorbedByOriginator(step, r', m, Next(n, i), message, f, extra);
    } else {
      RelayStop(step, r, m, message, extra, r');
    }
  }

  /**
   Two laps of any node step: a line `e` that every node but m passes on
   untouched, which node m answers by entering state `f` and sending `l`,
   and a line `l` that every node records as `f`, passing it on unless it is
   node m. Injected at node i, `e` reaches m, and `l` then visits every node
   once and stops at m: all nodes end in `f` and nothing is left in flight.
   */
  lemma TwoLaps(step: NodeStep, r: Ring, m: nat, i: nat, e: string, l: string, f: ElectionState, hops: nat)
    requires Shaped(r) && m < |r.ids| && i < |r.ids| && hops >= Dist(|r.ids|, i, m) + 1 + |r.ids|
    requires forall j :: 0 <= j < |r.ids| && j != m ==> DeliverBy(step, r, j, e) == (r, [e])
    requires DeliverBy(step, r, m, e) == (r.(states := r.states[m := f]), [l])
    requires forall j, s :: 0 <= j < |r.ids| ==>
               step(r.ids[j], s, l) == Reaction(f, if j == m then [] else [l])
    ensures var run := RelayBy(step, r, i, e, hops);
            run.pending == None && run.ring.ids == r.ids &&
            forall j :: 0 <= j < |r.ids| ==> run.ring.states[j] == f
  {
    var n := |r.ids|;
    var extra := hops - (Dist(n, i, m) + 1 + n);
    var crowned := r.(states := r.states[m := f]);
    PassedOnToOriginator(step, r, m, i, e, n + extra);
    RelayForward(step, r, m, e, n - 1 + extra, crowned, l);
    DistAfter(n, m);
    AbsorbedByOriginator(step, crowned, m, Next(n, m), l, f, extra);
    assert forall j :: 0 <= j < n ==> Dist(n, j, m) <= n - 1;
  }

  /**
   Chang-Roberts: in a ring whose largest identifier is held by one node
   alone (distinct identifiers being the usual case), the candidacy of that
   identifier, wherever it is injected, is passed on by every other node
   and returns to its originator, which becomes leader; its announcement
   then completes one full lap, after which every node has recorded that
   identifier as leader with no election running, and no message is left
   circulating.
   */
  lemma MaxIdElected(r: Ring, m: nat, i: nat, hops: nat)
    requires Shaped(r) && UniqueMax(r, m) && i < |r.ids|
    requires hops >= Dist(|r.ids|, i, m) + 1 + |r.ids|
    ensures var run := Relay(r, i, ElectionMessage(r.ids[m]), hops);
            run.pending == None && run.ring.ids == r.ids &&
            forall j :: 0 <= j < |r.ids| ==> run.ring.states[j] == Elected(r.ids[m])
  {
    var max := r.ids[m];
    var e := ElectionMessage(max);
    var l := LeaderMessage(max);
    forall j | 0 <= j < |r.ids|
      ensures j != m ==> DeliverBy(ProcessMessageStep, r, j, e) == (r, [e])
      ensures j == m ==> DeliverBy(ProcessMessageStep, r, j, e) == (r.(states := r.states[m := Elected(max)]), [l])
    {
      DeliverMaxElection(r, m, j);
    }
    ParseOwnMessages(max);
    forall j, s | 0 <= j < |r.ids|
      ensures ProcessMessageStep(r.ids[j], s, l) == Reaction(Elected(max), if j == m then [] else [l])
    {
      LeaderRecordedAndAbsorbed(r.ids[j], s, l, max);
      assert j != m ==> r.ids[j] != max;
    }
    TwoLaps(ProcessMessageStep, r, m, i, e, l, Elected(max), hops);
  }

  /**
   The same, started the way the strongest node starts it: when it is idle
   it sends its own candidacy, and 2N deliveries later every node has elected
   it.
   */
  lemma StrongestStartElects(r: Ring, m: nat)
    requires Shaped(r) && UniqueMax(r, m) && !r.states[m].electionInProgress
    ensures var start := StartElectionStep(r.ids[m], r.states[m]);
            start.sent == [ElectionMessage(r.ids[m])] &&
            var run := Relay(r.(states := r.states[m := start.state]), Next(|r.ids|, m), start.sent[0], 2 * |r.ids|);
            run.pending == None &&
            forall j :: 0 <= j < |r.ids| ==> run.ring.states[j] == Elected(r.ids[m])
  {
    var n := |r.ids|;
    var start := StartElectionStep(r.ids[m], r.states[m]);
    var r0 := r.(states := r.states[m := start.state]);
    DistAfter(n, m);
    MaxIdElected(r0, m, Next(n, m), 2 * n);
  }

  /**
   How an idle node handles a candidacy `x` other than its own id: a
   smaller id passes it on untouched, a larger one replaces it by starting
   its own election.
   */
  lemma ClimbReaction(nodeId: int, s: ElectionState, x: int)
    requires IsInt32(nodeId) && IsInt32(x) && nodeId != x && !s.electionInProgress
    ensures ProcessMessageStep(nodeId, s, ElectionMessage(x)) ==
            if nodeId < x then Reaction(s, [ElectionMessage(x)])
            else Reaction(s.(electionInProgress := true), [ElectionMessage(nodeId)])
  {
    ParseOwnMessages(x);
    if nodeId < x {
      ElectionForLargerIdForwarded(nodeId, s, ElectionMessage(x), x);
    } else {
      ElectionForSmallerIdSuppressed(nodeId, s, ElectionMessage(x), x);
    }
  }

  /**
   A node with id `id` handles candidacies, written by `cand`, the way
   `processMessage` handles `ElectionMessage` at an idle node
   (`ClimbReaction`): a smaller id passes a candidacy on, a larger one
   replaces it by its own.
   */
  ghost predicate ReactsAt(step: NodeStep, cand: int -> string, id: int) {
    forall s: ElectionState, y :: IsInt32(y) && id != y && !s.electionInProgress ==>
      step(id, s, cand(y)) ==
      if id < y then Reaction(s, [cand(y)])
      else Reaction(s.(electionInProgress := true), [cand(id)])
  }

  /** Every node of `ids` reacts to candidacies as `ReactsAt` states, node by node. */
  ghost predicate ReactsToCandidacies(step: NodeStep, cand: int -> string, ids: seq<int>)
    decreases |ids|
  {
    |ids| == 0 || (ReactsAt(step, cand, ids[0]) && ReactsToCandidacies(step, cand, ids[1..]))
  }

  /** Node k of `ids` reacts to candidacies as `ReactsAt` states. */
  lemma {:induction false} ReactsAtNode(step: NodeStep, cand: int -> string, ids: seq<int>, k: nat)
    requires ReactsToCandidacies(step, cand, ids) && k < |ids|
    ensures ReactsAt(step, cand, ids[k])
    decreases k
  {
    if k > 0 {
      ReactsAtNode(step, cand, ids[1..], k - 1);
    }
  }

  /** `processMessage` at a node with an `int` id reacts to `ElectionMessage` candidacies as `ReactsAt` states. */
  lemma ProcessReactsAt(id: int)
    requires IsInt32(id)
    ensures ReactsAt(ProcessMessageStep, ElectionMessage, id)
  {
    var step: NodeStep := ProcessMessageStep;
    var cand: int -> string := ElectionMessage;
    forall s: ElectionState, y | IsInt32(y) && id != y && !s.electionInProgress
      ensures step(id, s, cand(y)) ==
              if id < y then Reaction(s, [cand(y)])
              else Reaction(s.(electionInProgress := true), [cand(id)])
    {
      ClimbReaction(id, s, y);
      assert cand(y) == ElectionMessage(y) && cand(id) == ElectionMessage(id);
    }
  }

  /** `processMessage` reacts to `ElectionMessage` candidacies at every node with an `int` id. */
  lemma {:induction false} ProcessReactsToCandidacies(ids: seq<int>)
    requires forall k :: 0 <= k < |ids| ==> IsInt32(ids[k])
    ensures ReactsToCandidacies(ProcessMessageStep, ElectionMessage, ids)
    decreases |ids|
  {
    if |ids| > 0 {
      ProcessReactsAt(ids[0]);
      ProcessReactsToCandidacies(ids[1..]);
    }
  }

  /** Every node from j up to m is idle and does not hold the id `x`. */
  predicate IdleAhead(r: Ring, m: nat, j: nat, x: int)
    requires Shaped(r) && m < |r.ids| && j < |r.ids|
  {
    forall k :: 0 <= k < |r.ids| && Dist(|r.ids|, k, m) <= Dist(|r.ids|, j, m) ==>
      r.ids[k] != x && !r.states[k].electionInProgress
  }

  /**
   The conditions under which a candidacy `x`, arriving at node j, climbs to
   the holder m of the largest id: distinct ids, `x` an `int` below the
   maximum, `step` reacting to candidacies as `processMessage` does, and
   every node from j up to m idle and holding an id other than `x`.
   */
  ghost predicate Climbing(step: NodeStep, cand: int -> string, r: Ring, m: nat, j: nat, x: int) {
    Valid(r) && IsMaxNode(r, m) && j < |r.ids| && IsInt32(x) && x < r.ids[m] &&
    ReactsToCandidacies(step, cand, r.ids) && IdleAhead(r, m, j, x)
  }

  /**
   One step of the climb, at a node j other than m: the candidacy `x` is
   either passed on or replaced by node j's own, and what travels on towards
   m still meets the conditions of the climb. Only the states change.
   */
  lemma ClimbStep(step: NodeStep, cand: int -> string, r: Ring, m: nat, j: nat, x: int, hops: nat)
    returns (states1: seq<ElectionState>, x1: int)
    requires Climbing(step, cand, r, m, j, x) && j != m && hops > 0
    ensures x1 == if r.ids[j] < x then x else r.ids[j]
    ensures states1 == if r.ids[j] < x then r.states
                       else r.states[j := r.states[j].(electionInProgress := true)]
    ensures Climbing(step, cand, Ring(r.ids, states1), m, Next(|r.ids|, j), x1)
    ensures RelayBy(step, r, j, cand(x), hops) ==
            RelayBy(step, Ring(r.ids, states1), Next(|r.ids|, j), cand(x1), hops - 1)
  {
    var n := |r.ids|;
    DistinctMaxIsUnique(r, m);
    DistNext(n, j, m);
    var d := Dist(n, Next(n, j), m);
    var e := cand(x);
    ReactsAtNode(step, cand, r.ids, j);
    assert r.ids[j] != x && !r.states[j].electionInProgress;
    assert step(r.ids[j], r.states[j], e) ==
           if r.ids[j] < x then Reaction(r.states[j], [e])
           else Reaction(r.states[j].(electionInProgress := true), [cand(r.ids[j])]);
    if r.ids[j] < x {
      states1, x1 := r.states, x;
      assert r.states[j := r.states[j]] == r.states;
      RelayForward(step, r, j, e, hops - 1, r, e);
    } else {
      states1, x1 := r.states[j := r.states[j].(electionInProgress := true)], r.ids[j];
      RelayForward(step, r, j, e, hops - 1, Ring(r.ids, states1), cand(r.ids[j]));
      assert r.ids[j] < r.ids[m];
      forall k | 0 <= k < n && Dist(n, k, m) <= d
        ensures r.ids[k] != x1 && !states1[k].electionInProgress
      {
        assert k != j;
        if k < j { assert r.ids[k] != r.ids[j]; } else { assert r.ids[j] != r.ids[k]; }
      }
    }
  }

  /**
   The end of the climb: node m, idle and stronger than the candidacy `x`,
   replaces it by its own. Only the states change.
   */
  lemma ClimbArrives(step: NodeStep, cand: int -> string, r: Ring, m: nat, x: int, hops: nat, extra: nat)
    returns (states': seq<ElectionState>)
    requires Shaped(r) && m < |r.ids| && IsInt32(r.ids[m]) && IsInt32(x) && x < r.ids[m]
    requires ReactsToCandidacies(step, cand, r.ids) && !r.states[m].electionInProgress
    requires hops == extra + 1
    ensures |states'| == |r.ids|
    ensures RelayBy(step, r, m, cand(x), hops) ==
            RelayBy(step, Ring(r.ids, states'), Next(|r.ids|, m), cand(r.ids[m]), extra)
  {
    var e := cand(x);
    ReactsAtNode(step, cand, r.ids, m);
    assert step(r.ids[m], r.states[m], e) ==
           Reaction(r.states[m].(electionInProgress := true), [cand(r.ids[m])]);
    states' := r.states[m := r.states[m].(electionInProgress := true)];
    RelayForward(step, r, m, e, extra, Ring(r.ids, states'), cand(r.ids[m]));
  }

  /**
   For any node step that reacts to candidacies as `ClimbReaction` states:
   a candidacy `x` weaker than the maximum, travelling from node j towards
   the holder m of the maximum through idle nodes whose ids differ from `x`,
   is replaced at every stronger node by that node's own and reaches m,
   which answers by sending its own candidacy on. Only the states change.
   */
  lemma {:induction false} ClimbToMax(step: NodeStep, cand: int -> string, r: Ring, m: nat, j: nat, x: int, hops: nat, extra: nat)
    returns (states': seq<ElectionState>)
    requires Climbing(step, cand, r, m, j, x) && hops == Dist(|r.ids|, j, m) + 1 + extra
    ensures |states'| == |r.ids|
    ensures RelayBy(step, r, j, cand(x), hops) ==
            RelayBy(step, Ring(r.ids, states'), Next(|r.ids|, m), cand(r.ids[m]), extra)
    decreases Dist(|r.ids|, j, m)
  {
    if j == m {
      states' := ClimbArrives(step, cand, r, m, x, hops, extra);
    } else {
      DistNext(|r.ids|, j, m);
      var states1, x1 := ClimbStep(step, cand, r, m, j, x, hops);
      states' := ClimbToMax(step, cand, Ring(r.ids, states1), m, Next(|r.ids|, j), x1, hops - 1, extra);
    }
  }

  /**
   An election started by any idle node of a ring of distinct ids, all of
   whose nodes are idle: its candidacy is replaced by stronger ones until
   the strongest node starts its own, which then elects it. Within
   Dist(i, m) + 2N deliveries every node has the largest id as leader, no
   election runs and nothing is in flight.
   */
  lemma AnyIdleStartElects(r: Ring, m: nat, i: nat, hops: nat)
    requires Valid(r) && IsMaxNode(r, m) && i < |r.ids|
    requires forall k :: 0 <= k < |r.ids| ==> !r.states[k].electionInProgress
    requires hops >= Dist(|r.ids|, i, m) + 2 * |r.ids|
    ensures var start := StartElectionStep(r.ids[i], r.states[i]);
            start.sent == [ElectionMessage(r.ids[i])] &&
            var run := Relay(r.(states := r.states[i := start.state]), Next(|r.ids|, i), start.sent[0], hops);
            run.pending == None &&
            forall j :: 0 <= j < |r.ids| ==> run.ring.states[j] == Elected(r.ids[m])
  {
    var n := |r.ids|;
    var start := StartElectionStep(r.ids[i], r.states[i]);
    var r0 := r.(states := r.states[i := start.state]);
    if i == m {
      DistinctMaxIsUnique(r, m);
      DistAfter(n, m);
      MaxIdElected(r0, m, Next(n, m), hops);
    } else {
      WeakCandidacyElects(r0, m, i, hops);
    }
  }

  /**
   The candidacy of a node i that does not hold the largest id, on its way
   to i's successor while every other node is idle: it climbs to the holder
   m of the largest id, whose own candidacy then elects it. Within
   Dist(i, m) + 2N deliveries every node has the largest id as leader, no
   election runs and nothing is in flight.
   */
  lemma WeakCandidacyElects(r: Ring, m: nat, i: nat, hops: nat)
    requires Valid(r) && IsMaxNode(r, m) && i < |r.ids| && i != m
    requires forall k :: 0 <= k < |r.ids| && k != i ==> !r.states[k].electionInProgress
    requires hops >= Dist(|r.ids|, i, m) + 2 * |r.ids|
    ensures var run := Relay(r, Next(|r.ids|, i), ElectionMessage(r.ids[i]), hops);
            run.pending == None &&
            forall j :: 0 <= j < |r.ids| ==> run.ring.states[j] == Elected(r.ids[m])
  {
    var n := |r.ids|;
    DistinctMaxIsUnique(r, m);
    DistAfter(n, m);
    DistNext(n, i, m);
    var d := Dist(n, Next(n, i), m);
    var extra := hops - (d + 1);
    assert Climbing(ProcessMessageStep, ElectionMessage, r, m, Next(n, i), r.ids[i]) by {
      forall k | 0 <= k < n && Dist(n, k, m) <= d
        ensures r.ids[k] != r.ids[i] && !r.states[k].electionInProgress
      {
        assert k != i;
        if k < i { assert r.ids[k] != r.ids[i]; } else { assert r.ids[i] != r.ids[k]; }
      }
      ProcessReactsToCandidacies(r.ids);
    }
    var states' := ClimbToMax(ProcessMessageStep, ElectionMessage, r, m, Next(n, i), r.ids[i], hops, extra);
    MaxIdElected(Ring(r.ids, states'), m, Next(n, m), extra);
  }

  /**
   Ring 1200, 4700, 1800 from fresh states, node 1200 starting: node 4700
   replaces the candidacy by its own, which comes back to it; Dist + 2N = 7
   deliveries later all three have 4700 as leader.
   */
  lemma ThreeNodeWeakStart(ids: seq<int>, states: seq<ElectionState>)
    requires ids == [1200, 4700, 1800] && states == [Initial, Initial, Initial]
    ensures var r := Ring(ids, states[0 := ElectionState(None, true)]);
            var run := Relay(r, 1, ElectionMessage(ids[0]), Dist(|ids|, 0, 1) + 2 * |ids|);
            run.pending == None &&
            run.ring.states == [Elected(4700), Elected(4700), Elected(4700)]
  {
    var r := Ring(ids, states);
    assert Valid(r) && IsMaxNode(r, 1);
    AnyIdleStartElects(r, 1, 0, Dist(|ids|, 0, 1) + 2 * |ids|);
    var run := Relay(Ring(ids, states[0 := ElectionState(None, true)]), 1, ElectionMessage(ids[0]), Dist(|ids|, 0, 1) + 2 * |ids|);
    assert |run.ring.states| == 3;
  }

  /**
   Three nodes 1200, 4700 and 1800 in that order, in any states (fresh ones
   included): `ELECTION 4700` injected at node 1200 ends, 2 * 3 - 1 = 5
   deliveries later, with all three recording 4700 as leader and no
   election running.
   */
  lemma ThreeNodeExample(ids: seq<int>, states: seq<ElectionState>)
    requires ids == [1200, 4700, 1800] && |states| == 3
    ensures var run := Relay(Ring(ids, states), 0, ElectionMessage(ids[1]), 2 * |ids| - 1);
            run.pending == None &&
            run.ring.states == [Elected(4700), Elected(4700), Elected(4700)]
  {
    var r := Ring(ids, states);
    assert UniqueMax(r, 1) && Dist(|ids|, 0, 1) == 1;
    MaxIdElected(r, 1, 0, 2 * |ids| - 1);
    var run := Relay(r, 0, ElectionMessage(ids[1]), 2 * |ids| - 1);
    assert |run.ring.states| == 3;
  }

  /**
   The boundary of that theorem: identifiers are drawn at random with no
   uniqueness check, and when the largest one is shared the election can
   fail. When nodes 0 and 2 share the largest id and
   node 0's candidacy arrives at node 1, node 2 takes it as its own and
   crowns itself. Its announcement stops at node 0, which now also holds
   itself as leader, and node 1 never learns of any leader.
   */
  lemma DuplicateIdsSplitTheRing(ids: seq<int>, states: seq<ElectionState>, hops: nat)
    requires |ids| == 4 && |states| == 4 && hops >= 4
    requires IsInt32(ids[0]) && ids[2] == ids[0] && ids[1] < ids[0] && ids[3] < ids[0]
    ensures !Valid(Ring(ids, states))
    ensures forall m :: 0 <= m < 4 ==> !UniqueMax(Ring(ids, states), m)
    ensures var run := Relay(Ring(ids, states), 1, ElectionMessage(ids[0]), hops);
            run.pending == None &&
            run.ring.states == [Elected(ids[0]), states[1], Elected(ids[0]), Elected(ids[0])] &&
            run.ring.states[0].leader == Some(ids[0]) && run.ring.states[2].leader == Some(ids[2])
  {
    var r := Ring(ids, states);
    SharedMaxRing(ids, states);
    var max := ids[0];
    var e := ElectionMessage(max);
    var l := LeaderMessage(max);
    DuplicateReactions(ids, states);
    HalfLapTwice(ProcessMessageStep, r, e, l, Elected(max), hops);
  }

  /** A ring whose nodes 0 and 2 share the largest id has neither distinct ids nor a unique maximum. */
  lemma SharedMaxRing(ids: seq<int>, states: seq<ElectionState>)
    requires |ids| == 4 && |states| == 4
    requires ids[2] == ids[0] && ids[1] < ids[0] && ids[3] < ids[0]
    ensures !Valid(Ring(ids, states))
    ensures forall m :: 0 <= m < 4 ==> !UniqueMax(Ring(ids, states), m)
  {
    var r := Ring(ids, states);
    assert 0 < 2 < |r.ids| && r.ids[0] == r.ids[2];
    forall m | 0 <= m < 4
      ensures !UniqueMax(r, m)
    {
      if m == 0 { assert r.ids[2] == r.ids[m]; } else { assert r.ids[0] >= r.ids[m]; }
    }
  }

  /** How each node of that ring handles the two lines of the run. */
  lemma DuplicateReactions(ids: seq<int>, states: seq<ElectionState>)
    requires |ids| == 4 && |states| == 4
    requires IsInt32(ids[0]) && ids[2] == ids[0] && ids[1] < ids[0] && ids[3] < ids[0]
    ensures var e := ElectionMessage(ids[0]);
            ProcessMessageStep(ids[1], states[1], e) == Reaction(states[1], [e]) &&
            ProcessMessageStep(ids[2], states[2], e) == Reaction(Elected(ids[0]), [LeaderMessage(ids[0])])
    ensures var l := LeaderMessage(ids[0]);
            ProcessMessageStep(ids[3], states[3], l) == Reaction(Elected(ids[0]), [l]) &&
            ProcessMessageStep(ids[0], states[0], l) == Reaction(Elected(ids[0]), [])
  {
    var max := ids[0];
    ParseOwnMessages(max);
    ElectionForLargerIdForwarded(ids[1], states[1], ElectionMessage(max), max);
    OwnElectionMakesLeader(ids[2], states[2], ElectionMessage(max));
    LeaderRecordedAndAbsorbed(ids[3], states[3], LeaderMessage(max), max);
    LeaderRecordedAndAbsorbed(ids[0], states[0], LeaderMessage(max), max);
  }

  /**
   The run behind that counterexample, for any node step: node 1 passes `e`
   on, node 2 answers it by entering `f` and sending `l`, node 3 records `l`
   as `f` and passes it on, and node 0 records it as `f` and sends nothing.
   Node 1 keeps its state.
   */
  lemma HalfLapTwice(step: NodeStep, r: Ring, e: string, l: string, f: ElectionState, hops: nat)
    requires Shaped(r) && |r.ids| == 4 && hops >= 4
    requires step(r.ids[1], r.states[1], e) == Reaction(r.states[1], [e])
    requires step(r.ids[2], r.states[2], e) == Reaction(f, [l])
    requires step(r.ids[3], r.states[3], l) == Reaction(f, [l])
    requires step(r.ids[0], r.states[0], l) == Reaction(f, [])
    ensures RelayBy(step, r, 1, e, hops) == Run(Ring(r.ids, [f, r.states[1], f, f]), None)
  {
    var extra := hops - 4;
    assert r.states[1 := r.states[1]] == r.states;
    RelayForward(step, r, 1, e, extra + 3, r, e);
    var r2 := r.(states := r.states[2 := f]);
    RelayForward(step, r, 2, e, extra + 2, r2, l);
    var r3 := r2.(states := r2.states[3 := f]);
    RelayForward(step, r2, 3, l, extra + 1, r3, l);
    RelayStop(step, r3, 0, l, extra, r3.(states := r3.states[0 := f]));
    assert r3.states[0 := f] == [f, r.states[1], f, f];
  }

  /**
   Ids 9000, 1000, 9000, 2000, all in the range the identifiers are drawn
   from, from fresh states: nodes 0 and 2 both hold themselves as leader,
   node 1 none.
   */
  lemma DuplicateMaxExample(ids: seq<int>, states: seq<ElectionState>)
    requires ids == [9000, 1000, 9000, 2000] && states == [Initial, Initial, Initial, Initial]
    ensures var run := Relay(Ring(ids, states), 1, ElectionMessage(ids[0]), |ids|);
            run.pending == None &&
            run.ring.states[0].leader == Some(ids[0]) && run.ring.states[2].leader == Some(ids[2]) &&
            run.ring.states[1].leader == None
  {
    DuplicateIdsSplitTheRing(ids, states, |ids|);
  }

  /**
   A shared identifier below the largest does no harm: ids 5000, 3000, 3000
   are not distinct, yet the candidacy of 5000, sent by node 0 to node 1,
   elects 5000 everywhere within 2N deliveries.
   */
  lemma SharedSmallerIdExample(ids: seq<int>, states: seq<ElectionState>)
    requires ids == [5000, 3000, 3000] && |states| == 3
    ensures !Valid(Ring(ids, states))
    ensures var run := Relay(Ring(ids, states), 1, ElectionMessage(ids[0]), 2 * |ids|);
            run.pending == None &&
            run.ring.states == [Elected(5000), Elected(5000), Elected(5000)]
  {
    var r := Ring(ids, states);
    assert r.ids[1] == r.ids[2];
    assert UniqueMax(r, 0) && Dist(|ids|, 1, 0) == 2;
    MaxIdElected(r, 0, 1, 2 * |ids|);
    var run := Relay(r, 1, ElectionMessage(ids[0]), 2 * |ids|);
    assert |run.ring.states| == 3;
  }

  /** The line injected in that example, as written on the wire. */
  lemma CandidacyOnTheWire()
    ensures ElectionMessage(4700) == "ELECTION 4700"
  {
    assert NatToString(4) == "4";
    assert NatToString(47) == "47";
    assert NatToString(470) == "470";
    assert IntToString(4700) == "4700";
  }
}
