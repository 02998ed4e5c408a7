/** The sequential key-value store the counter keeps its value in, reduced to
    the one cell the node uses (the key "key"). A cell is either absent or
    holds an integer. Store failures are not decided here: each operation
    takes the fault it suffers as a parameter. */
module Store {

  datatype Option<+T> = None | Some(value: T)

  /** The error code the store reports when a key does not exist. */
  const KeyDoesNotExist: int := 20

  /** The code given to an error that is not an RPC error, and to no error at all. */
  const NotAnRpcError: int := -1

  /** An error a store call can return: an RPC error carrying a code, or any
      other error (a timeout, a broken connection). */
  datatype StoreError = RpcError(code: int) | OtherError

  /** The outcome of reading an integer: a value and an error, as a Go call
      `val, err := kv.ReadInt(...)` returns them; on error the value is 0. */
  datatype ReadResult = ReadResult(val: int, err: Option<StoreError>)

  /** The outcome of a write: the cell afterwards and the error, if any. */
  datatype WriteResult = WriteResult(cell: Option<int>, err: Option<StoreError>)

  /** The code of an error: the RPC code for an RPC error, and -1 for any
      other error and for no error. */
  function ErrorCode(err: Option<StoreError>): (code: int)
    ensures err.Some? && err.value.RpcError? ==> code == err.value.code
    ensures !(err.Some? && err.value.RpcError?) ==> code == NotAnRpcError
  {
    match err
    case Some(RpcError(c)) => c
    case _ => NotAnRpcError
  }

  /** Reads the cell. A fault, when there is one, is returned instead of the
      cell's content; an absent cell reads as the key-does-not-exist error. */
  function ReadInt(cell: Option<int>, fault: Option<StoreError>): (r: ReadResult)
    ensures r.err.None? <==> fault.None? && cell.Some?
    ensures r.err.None? ==> r.val == cell.value
    ensures r.err.Some? ==> r.val == 0
    ensures fault.None? && cell.None? ==> ErrorCode(r.err) == KeyDoesNotExist
    ensures fault.Some? ==> r.err == fault
  {
    if fault.Some? then ReadResult(0, fault)
    else match cell
      case None => ReadResult(0, Some(RpcError(KeyDoesNotExist)))
      case Some(v) => ReadResult(v, None)
  }

  /** Writes `value` into the cell. A faulty write changes nothing and
      returns its error. */
  function WriteInt(cell: Option<int>, value: int, fault: Option<StoreError>): (r: WriteResult)
    ensures r.err == fault
    ensures r.cell == if fault.None? then Some(value) else cell
  {
    if fault.None? then WriteResult(Some(value), None) else WriteResult(cell, fault)
  }

  /** Faults that a store never produces: an injected read fault carrying
      the key-does-not-exist code is ruled out, since the store reports that
      code only for an absent key. */
  predicate WellFormedReadFault(fault: Option<StoreError>)
  {
    ErrorCode(fault) != KeyDoesNotExist
  }
}
