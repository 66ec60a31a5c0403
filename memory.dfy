/** The reference oracle for a read/write key-value memory. */
module Memory {
  import opened Wrappers
  import opened Operations
  import opened Specifications

  /** The memory: the value last written under each key. */
  type State = map<Key, Value>

  /** A write sets its key and returns nothing; a read leaves the memory as it is and returns the key's value, if any. */
  function MemStep(state: State, instr: Entry): (r: (State, Executed))
    ensures r.1.call == instr.call && r.1.opId == None
    ensures forall k :: k != instr.call.key ==> Lookup(r.0, k) == Lookup(state, k)
    ensures instr.call.Wr? ==> Lookup(r.0, instr.call.key) == Val(instr.call.value) && r.1.ret == NoRet
    ensures instr.call.Rd? ==> r.0 == state && r.1.ret == Lookup(state, instr.call.key)
  {
    match instr.call
    case Wr(key, value) => (state[key := value], Operation(instr.call, NoRet, None))
    case Rd(key) => (state, Operation(instr.call, if key in state then Val(state[key]) else NoRet, None))
  }

  /** `RWMemorySpecification`: start from the empty memory, step with `MemStep`. */
  const RWMemory: Specification<State> := Specification(map[], MemStep)

  /** What a read of `key` returns in `state`. */
  function Lookup(state: State, key: Key): Ret
  {
    if key in state then Val(state[key]) else NoRet
  }

  /** The value of the last write to `key` in `log`, or `NoRet` when `log` never writes `key`. */
  function LastWrite(log: seq<Entry>, key: Key): Ret
  {
    if log == [] then NoRet
    else
      match log[|log| - 1].call
      case Wr(k, v) => if k == key then Val(v) else LastWrite(log[..|log| - 1], key)
      case Rd(_) => LastWrite(log[..|log| - 1], key)
  }

  /** The memory oracle decides from method and argument alone. */
  lemma MemoryIgnoresRet()
    ensures IgnoresRet(RWMemory)
  {
  }

  /** After replaying a log, every key holds the value of its last write, and is absent if never written. */
  lemma {:induction false} MemoryHoldsLastWrite(log: seq<Entry>, key: Key)
    ensures Lookup(Run(RWMemory, map[], log), key) == LastWrite(log, key)
    decreases |log|
  {
    if log != [] {
      var init := log[..|log| - 1];
      assert init + [log[|log| - 1]] == log;
      RunSnoc(RWMemory, map[], init, log[|log| - 1]);
      MemoryHoldsLastWrite(init, key);
    }
  }

  /** The return the memory oracle expects of an entry replayed after `prefix`. */
  function MemoryExpects(prefix: seq<Entry>, call: Call): Ret
  {
    match call
    case Wr(_, _) => NoRet
    case Rd(key) => LastWrite(prefix, key)
  }

  /**
   * The memory oracle accepts a log exactly when every recorded write returns
   * nothing and every recorded read returns the last value written to its
   * key before it (nothing if none was).
   */
  lemma MemoryAcceptsIff(log: seq<Entry>)
    ensures Accepts(RWMemory, log) <==>
      forall i :: 0 <= i < |log| && log[i].Operation? ==> log[i].ret == MemoryExpects(log[..i], log[i].call)
  {
    AcceptsIffReturnsMatch(RWMemory, log);
    forall i | 0 <= i < |log| ensures ExpectedAt(RWMemory, log, i).ret == MemoryExpects(log[..i], log[i].call) {
      MemoryHoldsLastWrite(log[..i], log[i].call.key);
    }
  }

  /** A read right after a write of `(key, value)` is expected to return `value`. */
  lemma ReadAfterWrite(log: seq<Entry>, i: nat, key: Key, value: Value)
    requires 0 < i < |log| && log[i - 1].call == Wr(key, value) && log[i].call == Rd(key)
    ensures ExpectedAt(RWMemory, log, i).ret == Val(value)
  {
    assert log[..i][..i - 1] + [log[i - 1]] == log[..i];
    MemoryHoldsLastWrite(log[..i], key);
  }

  /** A value the last write left under `key` was written to `key` by some entry of the log. */
  lemma {:induction false} LastWriteWasWritten(log: seq<Entry>, key: Key, value: Value)
    requires LastWrite(log, key) == Val(value)
    ensures exists j :: 0 <= j < |log| && log[j].call == Wr(key, value)
    decreases |log|
  {
    var last := |log| - 1;
    if log[last].call != Wr(key, value) {
      LastWriteWasWritten(log[..last], key, value);
      var j :| 0 <= j < last && log[..last][j].call == Wr(key, value);
      assert log[j] == log[..last][j];
    }
  }

  /**
   * An accepted log does not hold a recorded read of a value that no entry
   * before it writes to that key.
   */
  lemma ReadOfUnwrittenValueRejected(log: seq<Entry>, i: nat, key: Key, value: Value)
    requires i < |log| && log[i].Operation? && log[i].call == Rd(key) && log[i].ret == Val(value)
    requires forall j :: 0 <= j < i ==> log[j].call != Wr(key, value)
    ensures !Accepts(RWMemory, log)
  {
    MemoryAcceptsIff(log);
    if Accepts(RWMemory, log) {
      LastWriteWasWritten(log[..i], key, value);
      assert false;
    }
  }

  /** Replay order matters: a write then a read of its value is accepted, the read first is not. */
  lemma OrderSensitivity()
    ensures Accepts(RWMemory, [Instruction(Wr("x", 1), None), Operation(Rd("x"), Val(1), None)])
    ensures !Accepts(RWMemory, [Operation(Rd("x"), Val(1), None), Instruction(Wr("x", 1), None)])
  {
  }
}
