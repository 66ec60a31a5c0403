/**
 * The records of a recorded history: an invocation whose outcome is hidden
 * (`Instruction`) and an invocation together with its observed return
 * (`Operation`), as one tagged union.
 */
module Operations {
  import opened Wrappers

  type Process = string
  type Key = string
  type Value = int

  /** The operation id `process.index`; `index` is 1-based within its process's session. */
  datatype OpId = OpId(process: Process, index: nat)

  /**
   * The method tag together with its argument. A write carries a (key, value)
   * pair and a read carries a key; no other method tag exists in the model.
   */
  datatype Call = Wr(key: Key, value: Value) | Rd(key: Key)

  /** A return value; `NoRet` stands for the source's `None`. */
  datatype Ret = NoRet | Val(v: Value)

  datatype Entry =
    | Instruction(call: Call, opId: Option<OpId>)
    | Operation(call: Call, ret: Ret, opId: Option<OpId>)

  /** What an oracle step produces: always a full Operation. */
  type Executed = e: Entry | e.Operation? witness Operation(Rd(""), NoRet, None)

  /**
   * Projection of an Operation onto its Instruction. Putting the dropped
   * return back recovers the operation, so method, argument and op id are
   * kept exactly.
   */
  function ToInstruction(op: Entry): (r: Entry)
    requires op.Operation?
    ensures r.Instruction?
    ensures Operation(r.call, op.ret, r.opId) == op
  {
    Instruction(op.call, op.opId)
  }
}
