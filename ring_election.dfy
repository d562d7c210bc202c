/**
 One ring node as the object it is: a fixed identity and two fields that
 its methods update in place. Sending to the successor is abstracted to
 appending the line to `outbox`, in the order the node sends.
 */
module ElectionNode {
  import opened JavaText
  import opened Protocol
  import opened Election

  class RingElection {
    const nodeId: int
    const port: int
    const nextHost: string
    const nextPort: int
    var leader: Option<int>
    var electionInProgress: bool
    /** Every line this node has handed to `sendMessage`, oldest first. */
    var outbox: seq<string>

    /** The node's mutable election state as a value. */
    function State(): ElectionState
      reads this
    {
      ElectionState(leader, electionInProgress)
    }

    /** The identifier drawn at start-up lies in 1000..9999; here it is given rather than drawn. */
    constructor (nodeId: int, port: int, nextHost: string, nextPort: int)
      requires 1000 <= nodeId <= 9999
      ensures this.nodeId == nodeId && this.port == port
      ensures this.nextHost == nextHost && this.nextPort == nextPort
      ensures State() == Initial && outbox == []
    {
      this.nodeId := nodeId;
      this.port := port;
      this.nextHost := nextHost;
      this.nextPort := nextPort;
      leader := None;
      electionInProgress := false;
      outbox := [];
    }

    /** One successful delivery of `message` to the successor. */
    method SendMessage(message: string)
      modifies this`outbox
      ensures outbox == old(outbox) + [message]
    {
      outbox := outbox + [message];
    }

    method StartElection()
      modifies this
      ensures State() == StartElectionStep(nodeId, old(State())).state
      ensures outbox == old(outbox) + StartElectionStep(nodeId, old(State())).sent
    {
      if !electionInProgress {
        electionInProgress := true;
        SendMessage(ElectionMessage(nodeId));
      }
    }

    method BecomeLeader()
      modifies this
      ensures State() == BecomeLeaderStep(nodeId, old(State())).state
      ensures outbox == old(outbox) + BecomeLeaderStep(nodeId, old(State())).sent
    {
      leader := Some(nodeId);
      electionInProgress := false;
      SendMessage(LeaderMessage(leader.value));
    }

    method ProcessMessage(message: string)
      modifies this
      ensures State() == ProcessMessageStep(nodeId, old(State()), message).state
      ensures outbox == old(outbox) + ProcessMessageStep(nodeId, old(State()), message).sent
    {
      var parts := Split(message);
      if |parts| < 2 {
        return;
      }
      var kind := parts[0];
      var parsed := ParseInt(parts[1]);
      if parsed.None? {
        // Integer.parseInt throws before any field is written.
        return;
      }
      var receivedId := parsed.value;
      if kind == ELECTION {
        if receivedId > nodeId {
          SendMessage(message);
        } else if receivedId < nodeId {
          if !electionInProgress {
            StartElection();
          }
        } else {
          BecomeLeader();
        }
      } else if kind == LEADER {
        leader := Some(receivedId);
        electionInProgress := false;
        if nodeId != leader.value {
          SendMessage(message);
        }
      }
    }
  }

  /** Two starts in a row on a fresh node send exactly one `ELECTION`, for the node's own id. */
  method TwoStartsSendOnce(id: int) returns (sent: seq<string>, state: ElectionState)
    requires 1000 <= id <= 9999
    ensures sent == [ElectionMessage(id)]
    ensures state == ElectionState(None, true)
  {
    var node := new RingElection(id, 5001, "localhost", 5002);
    node.StartElection();
    node.StartElection();
    sent, state := node.outbox, node.State();
  }
}
