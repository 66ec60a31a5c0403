# c3py history core, modelled in Dafny

This project models the core of c3py's `history` module. That module is an
offline checker for the weak consistency of recorded concurrent histories.

A **history** is built from per-process sessions:
- each recorded Operation gets the id `process.(i+1)`;
- the `label` map holds the entries;
- the order starts out as program order.

From it the checkers derive **causal views**:
- `causal_hist` restricts the ids and the order to an operation's causal
  past, and hides every return outside a reveal set;
- `causal_arb` cuts a total arbitration order down to that causal past and
  reveals only the focal operation's return.

A **specification** is an initial state and a deterministic step. `satisfies`
replays a log through the step. It fails at the first recorded return that
differs from the computed one. `RWMemorySpecification` is the read/write
key-value instance.

The three **checkers** search the refinements of the history's order:
- `check_CC` (causal consistency) and `check_CM` (causal memory) look, for
  every operation, for a serialization of its causal view that the
  specification accepts;
- `check_CCv` (causal convergence) looks, under one candidate order, for a
  single arbitration whose causal-arbitration view of every operation is
  accepted.

Each checker returns the first witness bundle it finds, or a negative with
every other field empty.

Layout, one module per file:
- `wrappers.dfy`: `Option`.
- `operations.dfy`: op ids, `Instruction`/`Operation` as one `Entry` datatype,
  and `ToInstruction`.
- `posets.dfy`: the order engine, stated abstractly.
- `histories.dfy`: `History`, `NewHistory`, `CausalHist` and `CausalArb`.
- `specifications.dfy`: the specification datatype, the replay `Accepts` and
  the `Satisfies` loop.
- `memory.dfy`: the memory oracle.
- `checkers.dfy`: the three checkers as loops, each proved equal to a verdict
  function.
- `checker_properties.dfy`: the meaning of the verdicts, stated against an
  independent description of a justifying log (`JustifiesOp`), and the
  facts relating the checkers to one another and to the memory oracle.

The source's imperative parts are methods with loops, proved against
specification functions:
- `History.__init__` is `NewHistory`;
- `satisfies` is `Satisfies`;
- `causal_arb` is `CausalArb`, including its in-place overwrite of the last
  entry;
- the checkers' nested searches are `CheckCC`, `CheckCM`, `CheckCCv` and
  their inner loops.

Its pure parts are functions: `to_instruction`, the memory step and
`causal_hist`. A `History` is a value, so `deepcopy(h)` followed by
`ch.poset = co` becomes `h.(poset := co)`.

The order engine (`c3py.poset`) is not part of this model:
- a poset is its universe together with a strict order, as a set of pairs;
- `predecessors`, `subset` and `order_try` are functions over that;
- `refinements()` is the input sequence `cos`, and `all_topological_sorts()`
  is the input function `sorts`;
- what the checkers need of those enumerations is stated as preconditions
  (`CandidatesOver`, `SortsWithin`, `SortsCover`) or as hypotheses of the
  properties (`SortsAreLinearExtensions`).

`causal_hist` restricts `operations` and the order to the causal past, but
it keeps every key of `label` (history.py:70-73): each label outside the
reveal set is downgraded to its Instruction, including the labels of ids
outside the past. So a `causal_hist` result's label keys are all the
history's ids, not only its `operations`; `CausalHist` states
`r.labels.Keys == h.labels.Keys`.

## Model

| member | source | states |
|---|---|---|
| Operations.ToInstruction | src/c3py/history.py:33-34 | the result is an Instruction with the method, argument and op id of the Operation; putting the dropped return back gives the Operation |
| Posets.Predecessors | src/c3py/history.py:67 | `y` is in the causal past of `x` iff `y` is `x` or ordered before it |
| Posets.Subset | src/c3py/history.py:69 | the restricted order has exactly the given ids and exactly the pairs of the old order between them |
| Posets.OrderTry | src/c3py/history.py:63 | `order_try(a, b)` keeps the universe and every old pair; it changes nothing when `a == b` or `b` is already before `a`, and otherwise orders `a` before `b` |
| Posets.OrderTryPairs | src/c3py/history.py:63 | a successful `order_try(a, b)` keeps the universe, and its pairs are the old ones plus every pair from the past of `a` to the future of `b` |
| Posets.OrderTryKeepsStrictOrder | src/c3py/history.py:60-63 | `order_try` keeps a strict order strict, never drops a pair, and adds `(a, b)` unless that would close a cycle |
| Histories.NewHistory | src/c3py/history.py:45-63 | the ids are exactly the trace positions; `label[p.(i+1)]` is `data[p][i]` stamped with its id; label keys, ids and the order's universe agree; the order holds exactly program order and is a strict order; every label is an Operation |
| Histories.OrderedStep | src/c3py/history.py:61-63 | ordering `p.(i+1)` before `p.(i+2)` extends the program order built so far by exactly the pairs ending at `p.(i+2)` |
| Histories.ProgramOrderIsChainClosure | src/c3py/history.py:60-63 | program order holds every edge `p.i -> p.(i+1)`, is transitive, and is contained in every transitive relation holding those edges, so it is their transitive closure |
| Histories.CausalHist | src/c3py/history.py:65-74 | the result's ids are exactly `x` and its predecessors, and contain `x`; its order is the order restricted to them; every label key survives; a label keeps its Operation iff its id is in the reveal set, and otherwise becomes its Instruction with the same method, argument and op id |
| Histories.Serialize | src/c3py/history.py:163 | the log of an order lists, position by position, the label of each id of the order |
| Histories.Filter | src/c3py/history.py:83 | an id is kept iff it is in the order and in the causal past |
| Histories.KeptPositionsExact | src/c3py/history.py:83 | the kept positions increase strictly, each holds an element in the keep set, and every such position is among them |
| Histories.FilterIsSubsequence | src/c3py/history.py:83 | the filtered order has one entry per kept position, and its k-th entry is the element at the k-th kept position, so the comprehension keeps the order's relative order |
| Histories.IndexOf | src/c3py/history.py:84 | `list.index`: the position holds `x` and no earlier position does |
| Histories.CausalPrefix | src/c3py/history.py:81-86 | the kept prefix ends with `x`, holds `x` only there, and holds only ids of the arbitration that are `x` or before it |
| Histories.CausalArbView | src/c3py/history.py:85-88 | the causal-arbitration view is as long as the prefix, ends with the full label of `x`, and every earlier entry is the Instruction of the label at that position of the prefix |
| Histories.CausalPrefixExact | src/c3py/history.py:81-86 | the kept prefix holds exactly the ids of the arbitration up to the first `x` that are `x` or ordered before it, so no predecessor listed before `x` is lost |
| Histories.CausalArb | src/c3py/history.py:76-89 | the method, which builds all Instructions and then overwrites position `idx`, yields exactly the causal-arbitration view |
| Histories.PrefixLabelled | src/c3py/history.py:81-87 | the slice `causal_arb` takes is the causal prefix, and each of its ids has an Operation label |
| Histories.OverwriteGivesView | src/c3py/history.py:85-88 | overwriting the last entry of the all-Instruction prefix with the label of `x` gives the causal-arbitration view |
| Specifications.AcceptsFrom | src/c3py/history.py:108-113 | replay from a state rejects a log whose first entry is an Operation with a return other than the computed one, and accepts any log of Instructions only |
| Specifications.Satisfies | src/c3py/history.py:106-113 | the replay loop with its early exit returns exactly the verdict `Accepts` |
| Specifications.RunSnoc | src/c3py/history.py:107-109 | replaying a log extended by one entry is one more step after replaying the log |
| Specifications.AcceptsFromAt | src/c3py/history.py:106-113 | replay from any state accepts iff every Operation carries the return the step computes at its position |
| Specifications.AcceptsIffReturnsMatch | src/c3py/history.py:106-113 | `satisfies(log)` is true iff at every Operation position the computed return equals the recorded one |
| Specifications.Accepts | src/c3py/history.py:106-113 | `satisfies` from `start()` accepts every log of Instructions only, since Instructions are never cross-checked |
| Specifications.DowngradeKeepsAcceptsFrom | src/c3py/history.py:106-113 | for a step that ignores recorded returns, downgrading Operations to Instructions keeps acceptance from any state |
| Specifications.DowngradeKeepsAccepted | src/c3py/history.py:106-113 | for such a step, downgrading Operations of an accepted log to Instructions leaves it accepted |
| Memory.MemStep | src/c3py/history.py:120-132 | a write sets its key to its value, leaves every other key as it was and returns nothing; a read leaves the memory unchanged and returns the key's value, or nothing if the key was never written; the executed Operation keeps the call and has no op id |
| Memory.RWMemory | src/c3py/history.py:116-132 | the memory oracle: `start()` is the empty memory and `step` is `MemStep` |
| Memory.MemoryIgnoresRet | src/c3py/history.py:120-132 | the memory step depends only on method, argument and op id |
| Memory.MemoryHoldsLastWrite | src/c3py/history.py:117-132 | after replaying a log from the empty memory, each key holds the value of its last write, and has no value if never written |
| Memory.MemoryAcceptsIff | src/c3py/history.py:116-132 | the memory oracle accepts a log iff every recorded write returns nothing and every recorded read returns the last value written to its key earlier in the log, or nothing if there is none |
| Memory.ReadAfterWrite | src/c3py/history.py:124-132 | a read right after a write of `(k, v)` is expected to return `v` |
| Memory.LastWriteWasWritten | src/c3py/history.py:124-129 | a value a key holds was written to that key by some entry of the log |
| Memory.ReadOfUnwrittenValueRejected | src/c3py/history.py:130-132 | a log holding a recorded read of a value no earlier entry writes to that key is rejected |
| Memory.OrderSensitivity | src/c3py/history.py:116-132 | a write followed by a read of its value is accepted; the reverse order is rejected |
| Checkers.Revealed | src/c3py/history.py:199-202 | the reveal set is `{x}` for `check_CC` (line 158), and for `check_CM` exactly `x` and its predecessors in the history's own, unrefined order |
| Checkers.View | src/c3py/history.py:156-158 | the view of `x` under `co` keeps every label key and carries `co` restricted to `x`'s causal past |
| Checkers.ViewSortsLabelled | src/c3py/history.py:159-163 | every id of an enumerated sort of a view has a label in the view, so the source's `ch.label[op_id]` lookups succeed |
| Checkers.FirstSatisfying | src/c3py/history.py:162-170 | the position found is the first order whose log is accepted: every earlier one is rejected |
| Checkers.FindSerialization | src/c3py/history.py:162-172 | the inner loop reports success iff some order's log is accepted, and then returns the log of the first such order |
| Checkers.FirstCandidate | src/c3py/history.py:147-180 | the candidate found is the first under which every operation is justified; every earlier one has an unjustified operation |
| Checkers.JustifyEach | src/c3py/history.py:149-176 | the loop over operations succeeds iff every operation is justified, and then its map holds exactly the first satisfying log of each operation |
| Checkers.WitnessesEqual | src/c3py/history.py:169-180 | a map over the candidate's ids holding each one's first satisfying log is the witness map |
| Checkers.CheckCC | src/c3py/history.py:146-181 | `check_CC` returns the verdict of the first candidate with every operation justified, revealing only the operation's own return, or `(False, None, None)` |
| Checkers.CheckCM | src/c3py/history.py:190-224 | `check_CM` returns the same kind of verdict, with each view revealing the returns of the operation's predecessors in the history's own order |
| Checkers.CandidateSortsOver | src/c3py/history.py:237 | each arbitration enumerated for a candidate lists exactly the history's ids |
| Checkers.FirstArb | src/c3py/history.py:239-255 | the arbitration found is the first under which every operation's causal-arbitration view is accepted |
| Checkers.ArbJustifyEach | src/c3py/history.py:241-254 | the loop over operations succeeds iff every causal-arbitration view is accepted; the map carried over between arbitrations holds only ids of the candidate, and after success it holds exactly this arbitration's views |
| Checkers.ArbWitnessesEqual | src/c3py/history.py:254-258 | a map over the candidate's ids holding each one's causal-arbitration view is the arbitration's witness map, whatever else it held before |
| Checkers.FindArbitration | src/c3py/history.py:237-258 | the loop over arbitrations succeeds iff some arbitration justifies every operation, and then returns the first such arbitration and its views |
| Checkers.FirstConvergent | src/c3py/history.py:235-259 | the candidate found is the first that has a justifying arbitration |
| Checkers.CheckCCv | src/c3py/history.py:234-259 | `check_CCv` returns the verdict of the first candidate with a justifying arbitration, with the labels along that arbitration and its views, or an all-empty negative |
| CheckerProperties.JustifiesOpIntro | src/c3py/history.py:158-170 | the shown labels along an enumerated order of the causal past, when accepted, justify the operation |
| CheckerProperties.ViewShows | src/c3py/history.py:70-73 | in the view of `x`, each label is the full Operation when revealed and its Instruction otherwise |
| CheckerProperties.WitnessLogJustifies | src/c3py/history.py:162-169 | the log the checker records for an operation justifies it |
| CheckerProperties.JustifiedIff | src/c3py/history.py:153-176 | the per-operation search succeeds iff some log justifies the operation |
| CheckerProperties.JustifiesOpFound | src/c3py/history.py:162-170 | a justifying log means the search over the view's orders succeeds at it or earlier |
| CheckerProperties.SerializeShows | src/c3py/history.py:163 | a log of shown labels along an order is the view's serialization of that order |
| CheckerProperties.AllJustifiedIff | src/c3py/history.py:149-176 | the checker's test of one candidate holds iff every operation has a justifying log |
| CheckerProperties.FirstCandidateFound | src/c3py/history.py:147-181 | the candidate search succeeds iff some supplied candidate has every operation justified |
| CheckerProperties.WitnessesJustify | src/c3py/history.py:169-180 | the witness map is keyed by the candidate's ids, and each log in it justifies its operation |
| CheckerProperties.CCVerdictMeaning | src/c3py/history.py:146-181 | `check_CC` succeeds iff some candidate justifies every operation with only its own return revealed; failure is exactly `(False, None, None)` |
| CheckerProperties.CCSuccessWitness | src/c3py/history.py:177-180 | on success, the result is the history under a supplied candidate (which refines the history's order when every candidate does), and the serializations hold a log for every operation that is accepted, lists the shown labels of an enumerated sort of its causal past (a linear extension when the sorts are), and reveals only that operation's return |
| CheckerProperties.CMVerdictMeaning | src/c3py/history.py:190-224 | `check_CM` succeeds iff some candidate justifies every operation with its whole history-order past revealed; failure is exactly `(False, None, None)` |
| CheckerProperties.CMSuccessWitness | src/c3py/history.py:220-223 | on success, the same witness bundle as for `check_CC`, including the refinement fact, with returns revealed for the operation's predecessors in the history's own order |
| CheckerProperties.ShownDowngrades | src/c3py/history.py:158 | the label shown with only `x` revealed is the one shown with `x`'s history-order past revealed, or its downgrade |
| CheckerProperties.CMJustificationGivesCC | src/c3py/history.py:199-202 | for an oracle that ignores recorded returns, a justifying log with the past revealed gives one with only the operation's own return revealed |
| CheckerProperties.CMImpliesCC | src/c3py/history.py:146-224 | for such an oracle, when `check_CM` succeeds on given candidates, `check_CC` succeeds on them too |
| CheckerProperties.FirstArbFound | src/c3py/history.py:239-258 | the arbitration search succeeds iff some supplied arbitration justifies every operation |
| CheckerProperties.CCvVerdictMeaning | src/c3py/history.py:234-259 | `check_CCv` succeeds iff some candidate has an enumerated arbitration under which every causal-arbitration view is accepted; failure is exactly `(False, None, None, None)` |
| CheckerProperties.CCvSuccessWitness | src/c3py/history.py:255-258 | on success, the result gives the history under a supplied candidate, which refines the history's order when every candidate does; there is one arbitration enumerated for that candidate, listing exactly the history's ids (a linear extension when the sorts are); the returned arbitration is the label of each of its ids in turn; every operation's serialization is its causal-arbitration view under that candidate and arbitration, and is accepted |
| Checkers.ArbWitnessesAt | src/c3py/history.py:254 | the arbitration's witness map is keyed by the candidate's ids and holds each one's causal-arbitration view |
| CheckerProperties.SortsCoverWithin | src/c3py/history.py:159 | an enumeration listing exactly its poset's elements lists only them |
| CheckerProperties.UnwrittenReadUnjustified | src/c3py/history.py:158-170 | against the memory oracle, no log justifies a read of a value no label writes, whatever is revealed |
| CheckerProperties.UnwrittenReadShownRejected | src/c3py/history.py:163-165 | a log of shown labels listing such a read is rejected by the memory oracle |
| CheckerProperties.UnwrittenReadRefutesCC | src/c3py/history.py:146-224 | a history holding such a read is judged neither causally consistent nor causal memory |
| CheckerProperties.UnwrittenReadRejectedByArb | src/c3py/history.py:246-248 | the causal-arbitration view of such a read is rejected by the memory oracle |
| CheckerProperties.UnwrittenReadRefutesCCv | src/c3py/history.py:234-259 | a history holding such a read is not judged causally convergent |

## Left out

- The order engine `c3py.poset.Poset` is not part of this model. Its enumerations `refinements()` and `all_topological_sorts()` are inputs (`cos`, `sorts`), and their contracts are preconditions or hypotheses. `order_try`, `predecessors` and `subset` are modelled as plain functions over a pair set, not as the engine's own code.
- The checkers iterate over the candidate's ids in an arbitrary order, where the source uses the engine's set order. The verdict and the recorded maps do not depend on that order.
- `visualize` and pydot (history.py:91-94): rendering only.
- `__repr__` of Instruction and Operation (history.py:19-24, 36-41): display strings only.
- `logging` calls in the checkers: they have no effect on results.
- `deepcopy`: replaced by value semantics. A History is an immutable value, so "the receiver is unchanged" holds by construction.
- `Any`-typed `method` and `arg`: modelled as one datatype `Call`, either a write of a string key and an integer value or a read of a key. Return values are `NoRet` (Python's `None`) or an integer.
- The validation asserts of `History.__init__` (history.py:47-50): the precondition `AllOperations`. A trace that is not a mapping cannot be expressed.
- The unknown-method assert of the memory step (history.py:134) cannot be expressed. `Call` has only `Wr` and `Rd`, and a write always carries a (key, value) pair.
- Op ids are `(process, index)` pairs instead of the strings `"process.index"`. The string form is injective because the index has no dot, so nothing is lost.
- Histories.IndexOf, Histories.CausalPrefix, Histories.CausalArbView and Histories.CausalArb require `x in arb`: the source's `arb.index(op_id)` (history.py:84) raises `ValueError` otherwise, and the model does not represent that exception.
- Histories.Serialize, Histories.CausalArbView and Histories.CausalArb require every id they look up to be labelled, and `causal_arb`'s ids to carry Operations (`ArbLabelled`): `self.label[o]`, `self.label[op_id]` and `ch.label[op_id]` (history.py:86, 88, 163) raise `KeyError` otherwise, and `to_instruction` on an Instruction raises `AttributeError`. The checkers never reach these paths on a built history (`Checkers.ViewSortsLabelled`, `Checkers.CandidateSortsOver`).
- Operations.ToInstruction requires an Operation: the source's `Instruction` has no `to_instruction`, so calling it on one fails there.
- CheckerProperties.CCSuccessWitness, CheckerProperties.CMSuccessWitness and CheckerProperties.CCvSuccessWitness state that a witness order is a linear extension only when the input enumeration produces linear extensions (`SortsAreLinearExtensions`), because the enumeration is an input here.
- CheckerProperties.CMImpliesCC assumes an oracle whose step ignores recorded returns (`IgnoresRet`), as the memory oracle does (`MemoryIgnoresRet`). The source does not promise the implication for other oracles.
