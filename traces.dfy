/** Runs of one node: the handlers applied one after another, in the order
    the node serves its requests, and what holds along every such run. */
module Traces {
  import opened Store
  import opened OpLog
  import opened Handlers

  /** A request the node serves, with the store faults it meets. */
  datatype Event =
    | AddReq(delta: int, f: StoreFaults)
    | ReadReq(f: StoreFaults)
    | RecvOplogReq(remote: seq<int>, f: StoreFaults)

  function Apply(s: NodeState, e: Event): NodeState
  {
    match e
    case AddReq(delta, f) => AddStep(s, delta, f).state
    case ReadReq(_) => s
    case RecvOplogReq(remote, f) => RecvStep(s, remote, f).state
  }

  function Run(s: NodeState, evs: seq<Event>): NodeState
    decreases |evs|
  {
    if evs == [] then s else Run(Apply(s, evs[0]), evs[1..])
  }

  /** No injected read fault carries the key-does-not-exist code. */
  predicate WellFormedRun(evs: seq<Event>)
  {
    forall i :: 0 <= i < |evs| ==> WellFormedReadFault(evs[i].f.readFault)
  }

  /** The log is append-only: every run extends it, never rewrites it. */
  lemma {:induction false} OpLogOnlyGrows(s: NodeState, evs: seq<Event>)
    ensures s.opLog <= Run(s, evs).opLog
    decreases |evs|
  {
    if evs != [] {
      OpLogOnlyGrows(Apply(s, evs[0]), evs[1..]);
    }
  }

  /** Merges alone never change the log, whatever they receive and however
      the store fails. */
  lemma {:induction false} MergesKeepOpLog(s: NodeState, evs: seq<Event>)
    requires forall i :: 0 <= i < |evs| ==> evs[i].RecvOplogReq?
    ensures Run(s, evs).opLog == s.opLog
    decreases |evs|
  {
    if evs != [] {
      MergesKeepOpLog(Apply(s, evs[0]), evs[1..]);
    }
  }

  /** Once the key holds a value, the stored value never decreases: `add`
      and `read` no longer act, and a merge writes only a candidate at least
      as large as the current value. */
  lemma {:induction false} StoredValueNeverDecreases(s: NodeState, evs: seq<Event>)
    requires s.cell.Some?
    requires WellFormedRun(evs)
    ensures Run(s, evs).cell.Some? && s.cell.value <= Run(s, evs).cell.value
    decreases |evs|
  {
    if evs != [] {
      assert WellFormedReadFault(evs[0].f.readFault);
      StoredValueNeverDecreases(Apply(s, evs[0]), evs[1..]);
    }
  }

  /** Once the key holds a value, the log is frozen: every later `add` finds
      the key present, takes the early return and appends nothing. */
  lemma {:induction false} OpLogFrozenOncePresent(s: NodeState, evs: seq<Event>)
    requires s.cell.Some?
    requires WellFormedRun(evs)
    ensures Run(s, evs).opLog == s.opLog
    decreases |evs|
  {
    if evs != [] {
      assert WellFormedReadFault(evs[0].f.readFault);
      OpLogFrozenOncePresent(Apply(s, evs[0]), evs[1..]);
    }
  }

  /** `n` deliveries of the same event. */
  function Repeat(e: Event, n: nat): (r: seq<Event>)
    ensures |r| == n
    ensures forall i :: 0 <= i < n ==> r[i] == e
  {
    if n == 0 then [] else [e] + Repeat(e, n - 1)
  }

  /** Merging the same log again leaves the state a fault-free merge
      produced: the candidate is unchanged and no smaller than itself. So a
      fault-free merge delivered any number of further times, with any
      faults, changes nothing more. */
  lemma {:induction false} MergeIdempotent(s: NodeState, remote: seq<int>, f: StoreFaults, n: nat)
    ensures Run(RecvStep(s, remote, NoFaults).state, Repeat(RecvOplogReq(remote, f), n))
            == RecvStep(s, remote, NoFaults).state
    decreases n
  {
    if n > 0 {
      var t := RecvStep(s, remote, NoFaults).state;
      var evs := Repeat(RecvOplogReq(remote, f), n);
      assert evs[1..] == Repeat(RecvOplogReq(remote, f), n - 1);
      assert Apply(t, evs[0]) == t;
      MergeIdempotent(s, remote, f, n - 1);
    }
  }

  /** When the received log extends the local one, a successful merge stores
      the sum of the received log minus the sum of the local log (as a 64-bit
      value): the entries both logs share are left out of the written value. */
  lemma MergeLeavesOutSharedPrefix(s: NodeState, ext: seq<int>)
    requires s.cell.Some? && s.cell.value <= Wrap64(Sum(ext))
    ensures RecvStep(s, s.opLog + ext, NoFaults).state.cell
            == Some(Wrap64(Sum(s.opLog + ext) - Sum(s.opLog)))
  {
    TailSumOfExtension(s.opLog, ext);
    SumConcat(s.opLog, ext);
  }

  /** Two adds of 5 and -2 on a fresh node, then a read, then the node's log
      sent to a fresh peer whose read still finds the key absent. Only the
      first add takes effect; the read finds the key present and does not
      reply; the peer's merge aborts with code 20 and stores nothing. */
  lemma AddAddReadScenario()
    ensures Run(Initial, [AddReq(5, NoFaults), AddReq(-2, NoFaults)]) == NodeState([5], Some(5))
    ensures ReadReply(NodeState([5], Some(5)), NoFaults) == Returned(None)
    ensures RecvStep(Initial, [5], NoFaults) == Step(Initial, Returned(Some(RpcError(KeyDoesNotExist))))
  {
    var evs := [AddReq(5, NoFaults), AddReq(-2, NoFaults)];
    var a := NodeState([5], Some(5));
    assert ReadsAbsent(Initial, NoFaults);
    assert Initial.opLog + [5] == [5];
    assert Apply(Initial, evs[0]) == a;
    assert Apply(a, evs[1]) == a;
    assert evs[1..][0] == evs[1] && evs[1..][1..] == [];
    assert Run(a, evs[1..]) == Run(a, []) == a;
    assert Run(Initial, evs) == Run(a, evs[1..]);
  }

  /** A received tail whose exact sum leaves the 64-bit range wraps to a
      negative candidate, which the merge then drops as smaller than the
      stored 0. */
  lemma OverflowingTailIsDropped()
    ensures RecvStep(NodeState([], Some(0)), [Int64Min + Int64Modulus - 1, 1], NoFaults)
            == Step(NodeState([], Some(0)), Returned(None))
  {
    var remote := [Int64Min + Int64Modulus - 1, 1];
    assert remote[0..] == remote;
    assert Sum(remote) == Int64Min + Int64Modulus by {
      assert remote[1..] == [1];
      assert [1][1..] == [];
      assert Sum([1]) == 1;
    }
    assert Candidate(NodeState([], Some(0)), remote) == Int64Min;
  }
}
