# Grow-only counter node over an operation log

A model of a Maelstrom "grow-only counter" node (`main.go`). The node keeps
an append-only operation log of integer deltas (`opLog`) and one integer cell
in a sequential key-value store under the key `"key"`. Three handlers move
that state: `add`, `read` and `recv_oplog`. A background loop sends the log to
every other node of the cluster: that is the gossip.

Modules, leaf to root:

- `Store` (`store.dfy`): the store cell (`Option<int>`), its errors (an RPC
  error with a code, or any other error) and `ErrorCode`. It also holds
  `ReadInt` and `WriteInt`. Each of these takes the fault it meets as a
  parameter.
- `OpLog` (`oplog.dfy`): `Sum`, `TailSum`, Go's 64-bit wrap-around
  (`Wrap64`) and the merge's summing loop `SumFrom`.
- `Handlers` (`handlers.dfy`): the three handlers as pure transitions of a
  `NodeState` (log and cell). Each returns an `Outcome`: the handler
  replied, or it returned an error value without replying (`Returned(None)`
  is Go's `return nil`). `AddStep` and `RecvStep` also return the new state;
  `ReadReply` changes nothing and returns only the `Outcome`.
- `Traces` (`traces.dfy`): handlers applied in sequence (`Run`), and what
  holds along every run.
- `Gossip` (`gossip.dfy`): peer selection (`GossipTargets`).
- `CounterNode` (`node.dfy`): the class `Node`. Its fields `opLog` and
  `store` are updated in place by methods that follow the Go handler
  bodies. Each method is proved to equal the `Handlers` transition. The
  class also has the gossip round.

The model follows the code as written, quirks included:

- `add` and `read` test `ErrorCode(err) == 20` and take `return err` in
  every other case. So once the key holds a value, a successful read makes
  both handlers return nil. They do not reply, and `add` appends nothing.
- `recv_oplog` writes the tail sum of the received log alone. It does not
  add that sum to the current value. It treats an absent key as an error
  and aborts.

### What a grow-only counter is meant to do, and what this code does

A grow-only counter is meant to converge. Every node should end up reading
the sum of all deltas added anywhere, and an absent key should read as 0
everywhere. A node would get there by two rules:

- a local add always appends and adds the delta to the value;
- a merge adds the received log's unseen tail to the current value.

Take adds of 5 and then -2 on one node. Under those rules, that node and a
peer that receives its log would both read 3.

This code does none of this. `Traces.AddAddReadScenario` proves what it
does with those inputs:

- only the first add takes effect;
- a following read does not reply;
- a peer whose read still finds the key absent aborts its merge with code 20.

The model follows the code.

The store is modelled as one cell per node, read and written only by that
node's handlers. In the program the cell is a single key of the cluster-wide
sequential store, shared by every node (see "## Left out").

The `Store` rows below record the assumed behaviour of the store and of the
library's `ErrorCode`. Their contracts restate those stand-ins; they prove
nothing about the program.

`ErrorCode` follows the Maelstrom library's convention: an RPC error gives
its code, and any other error, or no error, gives -1. The library's source is
not part of this model. The behaviour that matters depends only on a
successful read not giving 20.

## Model

| member | source | states |
|---|---|---|
| Store.ErrorCode | main.go:57 | an RPC error gives its own code (20 included); any other error, and no error, gives -1 |
| Store.ReadInt | main.go:56 | a read fails iff a fault is injected or the key is absent; an absent key reports code 20; on success the value is the cell's; on error the value is 0 |
| Store.WriteInt | main.go:70 | a write without a fault stores the value; a faulty write leaves the cell unchanged and returns the fault |
| OpLog.SumConcat | main.go:123-126 | the sum of a concatenation is the sum of its parts |
| OpLog.TailSumIsSliceSum | main.go:123-126 | the tail sum from index `from` equals the sum of `s[from..]` |
| OpLog.TailSumOfExtension | main.go:119-126 | for a received log that extends the local log, the tail sum from the local length is the sum of the extension |
| OpLog.SumSplit | main.go:123-126 | the whole log's sum is the head's sum plus the tail sum, so the tail sum alone leaves out the head |
| OpLog.Wrap64 | main.go:125 | the result is in the 64-bit range, differs from the exact value by a multiple of 2^64, and equals the exact value when that value is in range |
| OpLog.WrapAddAbsorbs | main.go:125 | wrapping after each addition gives the same result as wrapping once at the end |
| OpLog.SumFrom | main.go:123-126 | the loop that accumulates `newValue` in a 64-bit int from `currOplogLen` to the end returns the sum of `remote[from..]` wrapped into range, and that exact sum whenever it fits in 64 bits |
| Handlers.AddStep | main.go:56-78 | if the read does not report code 20 (including a successful read), nothing changes and the read's error is returned. On code 20, exactly `delta` is appended at the end of the log. Then a successful write stores `0 + delta` and replies add_ok; a failed write keeps the grown log and the old cell, returns the error and does not reply. It replies iff code 20 and the write succeeds |
| Handlers.ReadReply | main.go:89-102 | replies iff the read reports code 20, and then with read_ok 0; otherwise returns the read's error unchanged, which is nil for a present key |
| Handlers.Candidate | main.go:123-126 | the candidate is the 64-bit wrap of the sum of `remote[len(opLog)..]`. It equals that sum when the sum fits, and it is 0 when the lengths are equal |
| Handlers.RecvStep | main.go:112-142 | never replies and never changes the log. A longer local log is a no-op that returns nil. Any read error, "absent" included, returns that error and writes nothing. The cell changes only to the candidate, and only when the candidate is at least the current value. With no fault and candidate ≥ current, the candidate is written. A candidate below the current value is dropped: nothing changes and nil is returned, whatever the write fault. A write fault leaves the state unchanged and, if the candidate was not dropped, returns the write error. Without a write fault, the handler returns the read's error, or nil. A present value never decreases |
| Traces.OpLogOnlyGrows | main.go:67 | over any run of handlers, the initial log is a prefix of the final log |
| Traces.MergesKeepOpLog | main.go:106-143 | any run of `recv_oplog` deliveries leaves the log unchanged, whatever the faults |
| Traces.StoredValueNeverDecreases | main.go:56-62 | once the key holds a value, no run of handlers removes it or lowers it (given well-formed faults) |
| Traces.OpLogFrozenOncePresent | main.go:56-62 | once the key holds a value, no later handler appends to the log (given well-formed faults) |
| Traces.MergeIdempotent | main.go:123-141 | after a fault-free merge of a log, any number of re-deliveries of that log, with any faults, leave the state unchanged |
| Traces.MergeLeavesOutSharedPrefix | main.go:123-137 | merging an extension of the local log stores the 64-bit wrap of the received log's sum minus the local log's sum |
| Traces.OverflowingTailIsDropped | main.go:123-135 | a received tail of 2^63 - 1 and 1 wraps to -2^63, and the merge drops it against a stored 0 |
| Traces.AddAddReadScenario | main.go:56-131 | adds of 5 then -2 on a fresh node store 5 with log [5]. A following read does not reply. A fresh peer whose read still finds the key absent aborts its merge of [5] with code 20 |
| Gossip.GossipTargets | main.go:149-152 | a node is a target iff it is in the node list and is not the sender |
| Gossip.GossipTargetsConcat | main.go:149-152 | target selection distributes over concatenation, so targets keep the node list's order |
| Gossip.GossipTargetsCount | main.go:149-152 | every other node is a target exactly as often as the list names it |
| Gossip.GossipTargetsWithoutSelf | main.go:149-152 | when the sender is not in the list, the targets are the whole list |
| CounterNode.Node.constructor | main.go:44-47 | a fresh node has an empty log and no stored value |
| CounterNode.Node.Add | main.go:49-79 | the in-place handler equals `AddStep` on the old state: the log grows by `delta` or not at all |
| CounterNode.Node.Read | main.go:81-104 | returns `ReadReply` of the current state and changes nothing |
| CounterNode.Node.RecvOplog | main.go:106-143 | the in-place handler, built on the summing loop, equals `RecvStep` on the old state and leaves the log unchanged |
| CounterNode.Node.GossipRound | main.go:147-165 | one round sends the current log to every target in list order, one send each. A failed send is recorded and the remaining nodes are still sent to |

## Left out

- JSON decoding and encoding of bodies, and the message structs
  (main.go:15-40): boundary encoding only. A decode failure is not modelled.
- The Maelstrom node, `Reply`, `Send`, `Run`, `NodeIDs`, `ID` and the
  sequential KV client: an external library. The node list and the node's own
  ID are parameters of `GossipRound`. Which sends fail is a parameter. The
  store is one optional-integer cell.
- The error that `n.Reply` itself may return: a reply counts as sent.
- What the library does with an error a handler returns: the model stops at
  the returned value.
- The store cell is one key of the cluster-wide sequential store: every
  node reads and writes the same `"key"` (main.go:13, 44). The model gives
  each node its own cell, so writes by other nodes between or during a
  handler's read and write are not modelled. Neither is a stale read under
  sequential consistency.
- CounterNode.Node.GossipRound: whether a send fails is given by destination (`failing`), so
  a node listed twice in one round fails both times or neither; a per-send
  failure is not modelled.
- A write that fails after taking effect in the store: a faulty write leaves
  the cell unchanged.
- `sync.RWMutex`, the gossip goroutine and its interleaving with the handlers:
  concurrency. Handlers run one at a time, and one round of the loop is
  modelled.
- Go slice aliasing between the sent `Oplog` and the live `opLog`: a
  snapshot is a value.
- The endless outer loop of the gossip goroutine, `time.Sleep(3 *
  time.Second)`, the 5-second read deadline in `read` (a timeout is one of
  the read faults), and `log.Printf` / `log.Fatal`: timing and I/O.
- Convergence across nodes: the code does not converge, so it is not stated.
- Traces.StoredValueNeverDecreases: holds only under three conditions. The
  key must already hold a value: from an absent key, `add` may store a
  negative delta. No injected read fault may carry code 20: such a fault on a
  present key would make `add` overwrite the cell. Handlers must run one at a
  time: nothing locks the read-compare-write of `recv_oplog` (main.go:128-137),
  and the mutex (main.go:46) guards only `opLog`, so two overlapping merges in
  the program could lower the value.
- Traces.OpLogFrozenOncePresent: under the same three conditions.
- The 64-bit range of the inputs: deltas and received entries are Go `int`s
  that JSON decoding has already bounded. The model's entries are unbounded
  integers, so that range is not enforced. Only the summing loop's
  accumulator wraps, as in the program. `0 + delta` cannot overflow for an
  in-range delta, so it is modelled exactly.
