/**
 The per-node decision logic of the Chang-Roberts ring election, as pure
 transitions: each takes the node's identity and election state and gives
 the new state together with the messages the node hands to its successor,
 in order.
 */
module Election {
  import opened JavaText
  import opened Protocol

  /** The two mutable fields of a node: the leader it knows of and the in-progress flag. */
  datatype ElectionState = ElectionState(leader: Option<int>, electionInProgress: bool)

  /** A node starts with no leader and no election running. */
  const Initial: ElectionState := ElectionState(None, false)

  /** The state after a step and the messages sent to the successor during it. */
  datatype Reaction = Reaction(state: ElectionState, sent: seq<string>)

  /** `startElection`: when no election is running, raise the flag and send our own candidacy. */
  function StartElectionStep(nodeId: int, s: ElectionState): Reaction {
    if !s.electionInProgress then
      Reaction(s.(electionInProgress := true), [ElectionMessage(nodeId)])
    else
      Reaction(s, [])
  }

  /** `becomeLeader`: record ourselves as leader, lower the flag, announce it. */
  function BecomeLeaderStep(nodeId: int, s: ElectionState): Reaction {
    Reaction(ElectionState(Some(nodeId), false), [LeaderMessage(nodeId)])
  }

  /**
   `processMessage`: read the line, then for `ELECTION` compare the id with
   our own (forward a larger one unchanged, answer a smaller one with our own
   candidacy unless an election is already running, become leader on our own
   id) and for `LEADER` record the leader, lower the flag and forward the line
   unless it announces ourselves. A line that does not read, and a kind other
   than these two, change nothing and send nothing.
   */
  function ProcessMessageStep(nodeId: int, s: ElectionState, message: string): Reaction {
    match ParseMessage(message)
    case None => Reaction(s, [])
    case Some(Parsed(kind, receivedId)) =>
      if kind == ELECTION then
        if receivedId > nodeId then Reaction(s, [message])
        else if receivedId < nodeId then
          if !s.electionInProgress then StartElectionStep(nodeId, s) else Reaction(s, [])
        else BecomeLeaderStep(nodeId, s)
      else if kind == LEADER then
        Reaction(ElectionState(Some(receivedId), false), if nodeId != receivedId then [message] else [])
      else Reaction(s, [])
  }

  // ---------------------------------------------------------------------
  // startElection
  // ---------------------------------------------------------------------

  /**
   A start while idle raises the flag, keeps the leader, and sends exactly
   one message, which the successor reads as an `ELECTION` for our own id.
   */
  lemma StartElectionWhenIdle(nodeId: int, s: ElectionState)
    requires IsInt32(nodeId) && !s.electionInProgress
    ensures StartElectionStep(nodeId, s).state == ElectionState(s.leader, true)
    ensures StartElectionStep(nodeId, s).sent == [ElectionMessage(nodeId)]
    ensures ParseMessage(StartElectionStep(nodeId, s).sent[0]) == Some(Parsed(ELECTION, nodeId))
  {
    ParseOwnMessages(nodeId);
  }

  /**
   A start while an election is running changes nothing; so two starts in a
   row send exactly one `ELECTION` from an idle node and none from a busy one.
   */
  lemma StartElectionIdempotent(nodeId: int, s: ElectionState)
    ensures s.electionInProgress ==> StartElectionStep(nodeId, s) == Reaction(s, [])
    ensures var first := StartElectionStep(nodeId, s);
            var second := StartElectionStep(nodeId, first.state);
            second.state == first.state &&
            first.sent + second.sent == (if s.electionInProgress then [] else [ElectionMessage(nodeId)])
  {
  }

  // ---------------------------------------------------------------------
  // processMessage, row by row
  // ---------------------------------------------------------------------

  /** An `ELECTION` for a larger id is passed on exactly as received, and the state is untouched. */
  lemma ElectionForLargerIdForwarded(nodeId: int, s: ElectionState, message: string, k: int)
    requires ParseMessage(message) == Some(Parsed(ELECTION, k)) && k > nodeId
    ensures ProcessMessageStep(nodeId, s, message) == Reaction(s, [message])
  {
  }

  /**
   An `ELECTION` for a smaller id is never passed on: while an election runs
   it is dropped, otherwise the node starts its own election instead.
   */
  lemma ElectionForSmallerIdSuppressed(nodeId: int, s: ElectionState, message: string, k: int)
    requires IsInt32(nodeId)
    requires ParseMessage(message) == Some(Parsed(ELECTION, k)) && k < nodeId
    ensures s.electionInProgress ==> ProcessMessageStep(nodeId, s, message) == Reaction(s, [])
    ensures !s.electionInProgress ==>
              ProcessMessageStep(nodeId, s, message) == StartElectionStep(nodeId, s) &&
              ProcessMessageStep(nodeId, s, message).sent == [ElectionMessage(nodeId)]
    ensures message !in ProcessMessageStep(nodeId, s, message).sent
  {
    ParseOwnMessages(nodeId);
  }

  /**
   Our own `ELECTION` coming back makes us leader: the flag drops and the
   only message sent is a `LEADER` for our id, never another `ELECTION`.
   */
  lemma OwnElectionMakesLeader(nodeId: int, s: ElectionState, message: string)
    requires IsInt32(nodeId)
    requires ParseMessage(message) == Some(Parsed(ELECTION, nodeId))
    ensures ProcessMessageStep(nodeId, s, message) ==
            Reaction(ElectionState(Some(nodeId), false), [LeaderMessage(nodeId)])
    ensures ParseMessage(ProcessMessageStep(nodeId, s, message).sent[0]) == Some(Parsed(LEADER, nodeId))
  {
    ParseOwnMessages(nodeId);
  }

  /**
   A `LEADER` line is recorded whatever the state, lowers the flag, and is
   passed on exactly when it names another node: our own announcement is
   absorbed.
   */
  lemma LeaderRecordedAndAbsorbed(nodeId: int, s: ElectionState, message: string, k: int)
    requires ParseMessage(message) == Some(Parsed(LEADER, k))
    ensures ProcessMessageStep(nodeId, s, message).state == ElectionState(Some(k), false)
    ensures ProcessMessageStep(nodeId, s, message).sent == [message] <==> k != nodeId
    ensures ProcessMessageStep(nodeId, s, message).sent == [] <==> k == nodeId
  {
  }

  /** A line that does not read, or that names an unknown kind, changes nothing and sends nothing. */
  lemma MalformedIgnored(nodeId: int, s: ElectionState, message: string)
    requires ParseMessage(message).None? ||
             (ParseMessage(message).value.kind != ELECTION && ParseMessage(message).value.kind != LEADER)
    ensures ProcessMessageStep(nodeId, s, message) == Reaction(s, [])
  {
  }

  /**
   Every line whose second token is not an `int` (the `NumberFormatException`
   case) leaves the node as it was and sends nothing, whatever its kind.
   */
  lemma NonIntegerIdIgnored(nodeId: int, s: ElectionState, message: string)
    requires |Split(message)| >= 2 && ParseInt(Split(message)[1]).None?
    ensures ParseMessage(message) == None
    ensures ProcessMessageStep(nodeId, s, message) == Reaction(s, [])
  {
  }

  /** These four malformed lines leave the node as it was. */
  lemma MalformedExamplesIgnored(nodeId: int, s: ElectionState)
    ensures ProcessMessageStep(nodeId, s, "ELECTION") == Reaction(s, [])
    ensures ProcessMessageStep(nodeId, s, "ELECTION abc") == Reaction(s, [])
    ensures ProcessMessageStep(nodeId, s, "ELECTION ") == Reaction(s, [])
    ensures ProcessMessageStep(nodeId, s, "FOO 5") == Reaction(s, [])
  {
    MissingIdRefused();
    MalformedIgnored(nodeId, s, "ELECTION");
    NonIntegerIdRefused();
    MalformedIgnored(nodeId, s, "ELECTION abc");
    TrailingSpaceRefused();
    MalformedIgnored(nodeId, s, "ELECTION ");
    UnknownKindReads();
    MalformedIgnored(nodeId, s, "FOO 5");
  }

  // ---------------------------------------------------------------------
  // Properties of every step
  // ---------------------------------------------------------------------

  /** Every message a node handles makes it send at most one message. */
  lemma AtMostOneSend(nodeId: int, s: ElectionState, message: string)
    ensures |ProcessMessageStep(nodeId, s, message).sent| <= 1
    ensures |StartElectionStep(nodeId, s).sent| <= 1
  {
  }

  /**
   Suppression: whatever a node receives, every line it sends reads back as
   a well-formed message, and every `ELECTION` it sends carries an id at least
   as large as its own. A weaker candidate never travels past a stronger node.
   */
  lemma NoWeakerCandidateSent(nodeId: int, s: ElectionState, message: string, out: string)
    requires IsInt32(nodeId)
    requires out in ProcessMessageStep(nodeId, s, message).sent
    ensures ParseMessage(out).Some?
    ensures ParseMessage(out).value.kind == ELECTION ==> ParseMessage(out).value.id >= nodeId
  {
    ParseOwnMessages(nodeId);
  }

  /**
   The leader a node records after a step is either the one it had, or the
   id read from the message, and only a `LEADER` line or our own returning
   `ELECTION` can change it.
   */
  lemma LeaderChangesOnlyOnAnnouncement(nodeId: int, s: ElectionState, message: string)
    requires ProcessMessageStep(nodeId, s, message).state.leader != s.leader
    ensures ParseMessage(message).Some?
    ensures ParseMessage(message).value.kind == LEADER ||
            (ParseMessage(message).value.kind == ELECTION && ParseMessage(message).value.id == nodeId)
    ensures ProcessMessageStep(nodeId, s, message).state.leader == Some(ParseMessage(message).value.id)
  {
  }
}
