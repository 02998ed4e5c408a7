/** The counter node itself: its log and the store cell are fields that the
    handlers update in place, one request at a time. Each handler is proved
    to be the transition the Handlers module defines, and the gossip round
    to send the current log to every other node. */
module CounterNode {
  import opened Store
  import opened OpLog
  import opened Handlers
  import opened Gossip

  class Node {
    var opLog: seq<int>
    var store: Option<int>

    /** The node's state as a value. */
    function State(): NodeState
      reads this
    {
      NodeState(opLog, store)
    }

    /** A node starts with an empty log and no value stored under the key. */
    constructor ()
      ensures State() == Initial
    {
      opLog := [];
      store := None;
    }

    /** The `add` handler: on code 20 the delta is appended to the log
        before the store write, so a failed write leaves the log grown. */
    method Add(delta: int, f: StoreFaults) returns (out: Outcome)
      modifies this
      ensures Step(State(), out) == AddStep(old(State()), delta, f)
      ensures opLog == old(opLog) || opLog == old(opLog) + [delta]
    {
      var rd := ReadInt(store, f.readFault);
      var val := rd.val;
      if ErrorCode(rd.err) == KeyDoesNotExist {
        val := 0;
      } else {
        return Returned(rd.err);
      }
      var newVal := val + delta;
      opLog := opLog + [delta];
      var w := WriteInt(store, newVal, f.writeFault);
      store := w.cell;
      if w.err.Some? {
        return Returned(w.err);
      }
      return Replied(AddOk);
    }

    /** The `read` handler: replies only when the key is reported absent. */
    method Read(f: StoreFaults) returns (out: Outcome)
      ensures out == ReadReply(State(), f)
      ensures out.Replied? ==> out.body == ReadOk(0)
    {
      var rd := ReadInt(store, f.readFault);
      var val := rd.val;
      if ErrorCode(rd.err) == KeyDoesNotExist {
        val := 0;
      } else {
        return Returned(rd.err);
      }
      return Replied(ReadOk(val));
    }

    /** The `recv_oplog` handler: sums the received tail with a loop, then
        writes it only over a present value no larger than it. */
    method RecvOplog(remote: seq<int>, f: StoreFaults) returns (out: Outcome)
      modifies this
      ensures Step(State(), out) == RecvStep(old(State()), remote, f)
      ensures opLog == old(opLog)
    {
      var currOplogLen := |opLog|;
      if currOplogLen > |remote| {
        return Returned(None);
      }
      var newValue := SumFrom(remote, currOplogLen);
      var rd := ReadInt(store, f.readFault);
      if rd.err.Some? {
        return Returned(rd.err);
      }
      if newValue < rd.val {
        return Returned(None);
      }
      var w := WriteInt(store, newValue, f.writeFault);
      store := w.cell;
      return Returned(w.err);
    }

    /** One round of the gossip loop over the cluster's `nodes`: every node
        but `self` is sent the current log, in list order. A send to a node
        in `failing` returns an error, which does not stop the round. */
    method GossipRound(nodes: seq<NodeId>, self: NodeId, failing: set<NodeId>)
      returns (attempts: seq<SendAttempt>)
      ensures |attempts| == |GossipTargets(nodes, self)|
      ensures forall k :: 0 <= k < |attempts| ==>
                attempts[k] == SendAttempt(GossipTargets(nodes, self)[k], opLog,
                                           GossipTargets(nodes, self)[k] !in failing)
    {
      attempts := [];
      for i := 0 to |nodes|
        invariant |attempts| == |GossipTargets(nodes[..i], self)|
        invariant forall k :: 0 <= k < |attempts| ==>
                    attempts[k] == SendAttempt(GossipTargets(nodes[..i], self)[k], opLog,
                                               GossipTargets(nodes[..i], self)[k] !in failing)
      {
        assert nodes[..i + 1] == nodes[..i] + [nodes[i]];
        GossipTargetsConcat(nodes[..i], [nodes[i]], self);
        if nodes[i] == self {
          continue;
        }
        var snapshot := opLog;
        var sent := nodes[i] !in failing;
        attempts := attempts + [SendAttempt(nodes[i], snapshot, sent)];
      }
      assert nodes[..|nodes|] == nodes;
    }
  }
}
