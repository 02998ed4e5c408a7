/** The three request handlers of the counter node (`add`, `read` and
    `recv_oplog`) as transitions of the node's state: its operation log and
    the store cell. Each takes the store faults it meets as a parameter and
    yields what the handler does in the end (reply, or return an error value,
    nil included, without replying); `add` and `recv_oplog` also yield the
    new state. */
module Handlers {
  import opened Store
  import opened OpLog

  /** What the node holds: its operation log and the store cell under the key "key". */
  datatype NodeState = NodeState(opLog: seq<int>, cell: Option<int>)

  /** The bodies the node replies with. */
  datatype ReplyBody = AddOk | ReadOk(value: int)

  /** How a handler ends: it replies (and returns the reply's result), or it
      returns `err` without replying; `Returned(None)` is a plain `return nil`. */
  datatype Outcome = Replied(body: ReplyBody) | Returned(err: Option<StoreError>)

  datatype Step = Step(state: NodeState, outcome: Outcome)

  /** The faults a handler's store calls meet: None means the call behaves
      normally. */
  datatype StoreFaults = StoreFaults(readFault: Option<StoreError>, writeFault: Option<StoreError>)

  const NoFaults := StoreFaults(None, None)

  /** A fresh node: an empty log, and nothing stored under the key. */
  const Initial := NodeState([], None)

  /** Whether the handlers' read of the cell reports the key-does-not-exist code. */
  predicate ReadsAbsent(s: NodeState, f: StoreFaults)
  {
    ErrorCode(ReadInt(s.cell, f.readFault).err) == KeyDoesNotExist
  }

  /** The `add` handler. It goes on only when the read reports code 20; on
      any other outcome, a successful read included, it returns the read's
      error (nil on success) untouched. Otherwise it appends `delta` to the
      log, then writes 0 + delta, and replies add_ok when the write works. */
  function AddStep(s: NodeState, delta: int, f: StoreFaults): (r: Step)
    ensures !ReadsAbsent(s, f) ==> r == Step(s, Returned(ReadInt(s.cell, f.readFault).err))
    ensures s.cell.Some? && WellFormedReadFault(f.readFault) ==> r.state == s && r.outcome.Returned?
    ensures ReadsAbsent(s, f) ==> r.state.opLog == s.opLog + [delta]
    ensures ReadsAbsent(s, f) && f.writeFault.None? ==>
              r == Step(NodeState(s.opLog + [delta], Some(delta)), Replied(AddOk))
    ensures ReadsAbsent(s, f) && f.writeFault.Some? ==>
              r == Step(NodeState(s.opLog + [delta], s.cell), Returned(f.writeFault))
    ensures r.outcome.Replied? <==> ReadsAbsent(s, f) && f.writeFault.None?
  {
    var rd := ReadInt(s.cell, f.readFault);
    if ErrorCode(rd.err) == KeyDoesNotExist then
      var newVal := 0 + delta;
      var log := s.opLog + [delta];
      var w := WriteInt(s.cell, newVal, f.writeFault);
      if w.err.Some? then Step(NodeState(log, s.cell), Returned(w.err))
      else Step(NodeState(log, w.cell), Replied(AddOk))
    else
      Step(s, Returned(rd.err))
  }

  /** The `read` handler. It changes nothing. It replies read_ok with value 0
      exactly when the read reports code 20; on any other outcome it returns
      the read's error (nil on a successful read) and does not reply. */
  function ReadReply(s: NodeState, f: StoreFaults): (r: Outcome)
    ensures r.Replied? <==> ReadsAbsent(s, f)
    ensures r.Replied? ==> r.body == ReadOk(0)
    ensures !ReadsAbsent(s, f) ==> r == Returned(ReadInt(s.cell, f.readFault).err)
    ensures s.cell.Some? && f.readFault.None? ==> r == Returned(None)
  {
    var rd := ReadInt(s.cell, f.readFault);
    if ErrorCode(rd.err) == KeyDoesNotExist then Replied(ReadOk(0))
    else Returned(rd.err)
  }

  /** The value `recv_oplog` proposes: the sum of the received entries past
      the local log's length, without the current value, as a 64-bit sum
      that wraps around on overflow. */
  function Candidate(s: NodeState, remote: seq<int>): (c: int)
    requires |s.opLog| <= |remote|
    ensures c == Wrap64(Sum(remote[|s.opLog|..]))
    ensures Int64Min <= Sum(remote[|s.opLog|..]) < Int64Min + Int64Modulus ==>
              c == Sum(remote[|s.opLog|..])
    ensures |s.opLog| == |remote| ==> c == 0
  {
    TailSumIsSliceSum(remote, |s.opLog|);
    Wrap64(TailSum(remote, |s.opLog|))
  }

  /** The `recv_oplog` handler. It never replies and never touches the log.
      A local log longer than the received one makes it a no-op. Otherwise
      any read error aborts it, "key absent" included; a candidate below the
      current value is dropped; and only then is the candidate written. */
  function RecvStep(s: NodeState, remote: seq<int>, f: StoreFaults): (r: Step)
    ensures r.state.opLog == s.opLog
    ensures r.outcome.Returned?
    ensures |s.opLog| > |remote| ==> r == Step(s, Returned(None))
    ensures |s.opLog| <= |remote| && ReadInt(s.cell, f.readFault).err.Some? ==>
              r == Step(s, Returned(ReadInt(s.cell, f.readFault).err))
    ensures s.cell.None? ==> r.state == s
    ensures r.state.cell != s.cell ==>
              |s.opLog| <= |remote| && f.readFault.None? && s.cell.Some? &&
              r.state.cell == Some(Candidate(s, remote)) && s.cell.value <= Candidate(s, remote)
    ensures (|s.opLog| <= |remote| && f.readFault.None? && s.cell.Some? && f.writeFault.None? &&
             s.cell.value <= Candidate(s, remote)) ==> r.state.cell == Some(Candidate(s, remote))
    ensures s.cell.Some? ==> r.state.cell.Some? && s.cell.value <= r.state.cell.value
    ensures (|s.opLog| <= |remote| && ReadInt(s.cell, f.readFault).err.None? && f.writeFault.Some?) ==>
              r.state == s &&
              (Candidate(s, remote) < s.cell.value || r.outcome == Returned(f.writeFault))
    ensures f.writeFault.None? ==>
              r.outcome == Returned(if |s.opLog| <= |remote| then ReadInt(s.cell, f.readFault).err else None)
    ensures (|s.opLog| <= |remote| && ReadInt(s.cell, f.readFault).err.None? &&
             Candidate(s, remote) < s.cell.value) ==> r == Step(s, Returned(None))
  {
    if |s.opLog| > |remote| then Step(s, Returned(None))
    else
      var newValue := Candidate(s, remote);
      var rd := ReadInt(s.cell, f.readFault);
      if rd.err.Some? then Step(s, Returned(rd.err))
      else if newValue < rd.val then Step(s, Returned(None))
      else
        var w := WriteInt(s.cell, newValue, f.writeFault);
        Step(NodeState(s.opLog, w.cell), Returned(w.err))
  }
}
