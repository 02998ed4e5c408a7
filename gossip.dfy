/** Peer selection for the gossip loop: every node of the cluster but the
    sender, in the order the cluster lists them. */
module Gossip {

  type NodeId = string

  /** One send of a round: the destination, the log snapshot sent, and
      whether the send returned no error. A send is fire-and-forget: no
      error does not mean the message arrived. */
  datatype SendAttempt = SendAttempt(dest: NodeId, oplog: seq<int>, sent: bool)

  /** The nodes a round sends to: `nodes` without `self`, order kept. */
  function GossipTargets(nodes: seq<NodeId>, self: NodeId): (r: seq<NodeId>)
    ensures forall n :: n in r <==> n in nodes && n != self
    ensures |r| <= |nodes|
  {
    if nodes == [] then []
    else if nodes[0] == self then GossipTargets(nodes[1..], self)
    else [nodes[0]] + GossipTargets(nodes[1..], self)
  }

  /** Filtering commutes with concatenation, so the targets come out in the
      order of the node list. */
  lemma {:induction false} GossipTargetsConcat(a: seq<NodeId>, b: seq<NodeId>, self: NodeId)
    ensures GossipTargets(a + b, self) == GossipTargets(a, self) + GossipTargets(b, self)
  {
    if a != [] {
      assert (a + b)[0] == a[0];
      assert (a + b)[1..] == a[1..] + b;
      GossipTargetsConcat(a[1..], b, self);
    } else {
      assert a + b == b;
    }
  }

  /** Every other node is sent to as many times as the list names it. */
  lemma {:induction false} GossipTargetsCount(nodes: seq<NodeId>, self: NodeId, n: NodeId)
    requires n != self
    ensures multiset(GossipTargets(nodes, self))[n] == multiset(nodes)[n]
  {
    if nodes != [] {
      assert nodes == [nodes[0]] + nodes[1..];
      GossipTargetsCount(nodes[1..], self, n);
    }
  }

  /** A node that is not in the list takes nothing out of it. */
  lemma {:induction false} GossipTargetsWithoutSelf(nodes: seq<NodeId>, self: NodeId)
    requires self !in nodes
    ensures GossipTargets(nodes, self) == nodes
  {
    if nodes != [] {
      assert self !in nodes[1..];
      GossipTargetsWithoutSelf(nodes[1..], self);
      assert nodes == [nodes[0]] + nodes[1..];
    }
  }
}
