/**
 * An oracle: the reference semantics of the data type under test, and the
 * replay that judges a candidate log against it.
 */
module Specifications {
  import opened Operations

  /**
   * An initial state and a deterministic step giving the next state and the
   * Operation the reference semantics says the instruction produces.
   */
  datatype Specification<!S> = Specification(start: S, step: (S, Entry) -> (S, Executed))

  /** The state after replaying `log` from `state`. */
  function Run<S>(spec: Specification<S>, state: S, log: seq<Entry>): S
    decreases |log|
  {
    if log == [] then state else Run(spec, spec.step(state, log[0]).0, log[1..])
  }

  /**
   * Replay `log` from `state`; the verdict is false at the first Operation
   * whose recorded return differs from the one the step computes.
   */
  function AcceptsFrom<S>(spec: Specification<S>, state: S, log: seq<Entry>): (r: bool)
    ensures log != [] && log[0].Operation? && spec.step(state, log[0]).1.ret != log[0].ret ==> !r
    ensures (forall i :: 0 <= i < |log| ==> log[i].Instruction?) ==> r
    decreases |log|
  {
    if log == [] then true
    else
      var (next, op) := spec.step(state, log[0]);
      if log[0].Operation? && op.ret != log[0].ret then false
      else AcceptsFrom(spec, next, log[1..])
  }

  /**
   * The verdict of replaying `log` from the initial state. Instructions are
   * never cross-checked, so a log of Instructions only is always accepted.
   */
  function Accepts<S>(spec: Specification<S>, log: seq<Entry>): (r: bool)
    ensures (forall i :: 0 <= i < |log| ==> log[i].Instruction?) ==> r
  {
    AcceptsFrom(spec, spec.start, log)
  }

  /** `satisfies`: the replay loop with its early exit. */
  method Satisfies<S>(spec: Specification<S>, log: seq<Entry>) returns (ok: bool)
    ensures ok == Accepts(spec, log)
  {
    var state := spec.start;
    var i := 0;
    while i < |log|
      invariant 0 <= i <= |log|
      invariant Accepts(spec, log) == AcceptsFrom(spec, state, log[i..])
    {
      var instr := log[i];
      assert log[i..][1..] == log[i + 1..];
      var result := spec.step(state, instr);
      state := result.0;
      var op := result.1;
      if instr.Operation? && op.ret != instr.ret {
        return false;
      }
      i := i + 1;
    }
    return true;
  }

  /** The step reads only the method, argument and op id of its instruction, never its return. */
  ghost predicate IgnoresRet<S(!new)>(spec: Specification<S>)
  {
    forall s: S, e: Entry, e': Entry :: e.call == e'.call && e.opId == e'.opId ==> spec.step(s, e) == spec.step(s, e')
  }

  /** The Operation the step computes at position `i` of `log`. */
  function ExpectedAt<S>(spec: Specification<S>, log: seq<Entry>, i: nat): Executed
    requires i < |log|
  {
    spec.step(Run(spec, spec.start, log[..i]), log[i]).1
  }

  lemma {:induction false} RunSnoc<S>(spec: Specification<S>, state: S, log: seq<Entry>, e: Entry)
    ensures Run(spec, state, log + [e]) == spec.step(Run(spec, state, log), e).0
    decreases |log|
  {
    if log != [] {
      assert (log + [e])[1..] == log[1..] + [e];
      RunSnoc(spec, spec.step(state, log[0]).0, log[1..], e);
    }
  }

  lemma {:induction false} AcceptsFromAt<S>(spec: Specification<S>, state: S, log: seq<Entry>)
    ensures AcceptsFrom(spec, state, log) <==>
      forall i :: 0 <= i < |log| && log[i].Operation? ==>
        spec.step(Run(spec, state, log[..i]), log[i]).1.ret == log[i].ret
    decreases |log|
  {
    if log != [] {
      var next := spec.step(state, log[0]).0;
      AcceptsFromAt(spec, next, log[1..]);
      assert log[..0] == [];
      forall i | 1 <= i < |log|
        ensures log[..i][0] == log[0] && log[..i][1..] == log[1..][..i - 1] && log[1..][i - 1] == log[i]
        ensures Run(spec, state, log[..i]) == Run(spec, next, log[1..][..i - 1])
      {
        assert log[..i][1..] == log[1..][..i - 1];
      }
      if AcceptsFrom(spec, state, log) {
        forall i | 0 <= i < |log| && log[i].Operation?
          ensures spec.step(Run(spec, state, log[..i]), log[i]).1.ret == log[i].ret
        {
          if i > 0 {
            assert log[1..][i - 1] == log[i];
          }
        }
      } else if log[0].Operation? && spec.step(state, log[0]).1.ret != log[0].ret {
      } else {
        var j :| 0 <= j < |log[1..]| && log[1..][j].Operation? &&
          spec.step(Run(spec, next, log[1..][..j]), log[1..][j]).1.ret != log[1..][j].ret;
        assert log[j + 1] == log[1..][j];
      }
    }
  }

  /**
   * `satisfies` is true exactly when every Operation of the log carries the
   * return the step computes at its position.
   */
  lemma AcceptsIffReturnsMatch<S>(spec: Specification<S>, log: seq<Entry>)
    ensures Accepts(spec, log) <==>
      forall i :: 0 <= i < |log| && log[i].Operation? ==> ExpectedAt(spec, log, i).ret == log[i].ret
  {
    AcceptsFromAt(spec, spec.start, log);
  }

  /** `weak` is `strong` with some Operations downgraded to their Instructions. */
  predicate Downgrades(weak: seq<Entry>, strong: seq<Entry>)
  {
    |weak| == |strong| &&
    forall i :: 0 <= i < |weak| ==>
      weak[i] == strong[i] || (strong[i].Operation? && weak[i] == ToInstruction(strong[i]))
  }

  lemma {:induction false} DowngradeKeepsAcceptsFrom<S(!new)>(spec: Specification<S>, state: S, weak: seq<Entry>, strong: seq<Entry>)
    requires IgnoresRet(spec) && Downgrades(weak, strong) && AcceptsFrom(spec, state, strong)
    ensures AcceptsFrom(spec, state, weak)
    decreases |weak|
  {
    if weak != [] {
      assert spec.step(state, weak[0]) == spec.step(state, strong[0]);
      assert Downgrades(weak[1..], strong[1..]) by {
        forall i | 0 <= i < |weak| - 1 ensures weak[1..][i] == weak[i + 1] && strong[1..][i] == strong[i + 1] {}
      }
      DowngradeKeepsAcceptsFrom(spec, spec.step(state, strong[0]).0, weak[1..], strong[1..]);
    }
  }

  /**
   * For an oracle that ignores recorded returns, hiding returns can only
   * remove checks: an accepted log stays accepted once any of its Operations
   * become Instructions.
   */
  lemma DowngradeKeepsAccepted<S(!new)>(spec: Specification<S>, weak: seq<Entry>, strong: seq<Entry>)
    requires IgnoresRet(spec) && Downgrades(weak, strong) && Accepts(spec, strong)
    ensures Accepts(spec, weak)
  {
    DowngradeKeepsAcceptsFrom(spec, spec.start, weak, strong);
  }
}
