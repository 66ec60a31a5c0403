/**
 * What the checkers' verdicts mean, stated without the search: an
 * independent description of a justifying log for each operation, the
 * success and failure cases of each checker in terms of it, and the facts
 * relating the checkers to one another and to the memory oracle.
 */
module CheckerProperties {
  import opened Wrappers
  import opened Operations
  import opened Posets
  import opened Histories
  import opened Specifications
  import opened Memory
  import opened Checkers

  /** The label the view of `x` shows for `y`: its Operation when revealed, its Instruction otherwise. */
  function Shown(h: History, x: OpId, revealPast: bool, y: OpId): Entry
    requires Recorded(h) && y in h.labels
  {
    if y in Revealed(h, x, revealPast) then h.labels[y] else ToInstruction(h.labels[y])
  }

  /**
   * `log` justifies `x` under `co`: it lists the labels shown for the ids
   * of an order `ro` enumerated for the causal past of `x` under `co`, and
   * the oracle accepts it. When the enumeration yields linear extensions,
   * `ro` is one of that causal past.
   */
  ghost predicate JustifiesOp<S>(h: History, co: Poset, x: OpId, revealPast: bool, sorts: Poset -> seq<seq<OpId>>,
                                 spec: Specification<S>, log: seq<Entry>)
    requires Built(h)
  {
    var past := Subset(co, Predecessors(co, x));
    exists ro :: ro in sorts(past) && |ro| == |log|
      && (forall i :: 0 <= i < |ro| ==> ro[i] in h.labels && log[i] == Shown(h, x, revealPast, ro[i]))
      && Accepts(spec, log)
      && (SortsAreLinearExtensions(sorts) ==> IsLinearExtension(ro, past))
  }

  /** The shown labels of an enumerated order of the causal past, when accepted, justify `x`. */
  lemma JustifiesOpIntro<S>(h: History, co: Poset, x: OpId, revealPast: bool, sorts: Poset -> seq<seq<OpId>>,
                            spec: Specification<S>, ro: seq<OpId>, log: seq<Entry>)
    requires Built(h)
    requires ro in sorts(Subset(co, Predecessors(co, x))) && |ro| == |log|
    requires forall i :: 0 <= i < |ro| ==> ro[i] in h.labels && log[i] == Shown(h, x, revealPast, ro[i])
    requires Accepts(spec, log)
    requires SortsAreLinearExtensions(sorts) ==> IsLinearExtension(ro, Subset(co, Predecessors(co, x)))
    ensures JustifiesOp(h, co, x, revealPast, sorts, spec, log)
  {
  }

  /** The view's labels are the shown labels. */
  lemma ViewShows(h: History, co: Poset, x: OpId, revealPast: bool, y: OpId)
    requires Built(h) && y in h.labels
    ensures View(h, co, x, revealPast).labels[y] == Shown(h, x, revealPast, y)
  {
  }

  /** The log the checker records for `x` justifies it. */
  lemma WitnessLogJustifies<S>(h: History, co: Poset, x: OpId, revealPast: bool, sorts: Poset -> seq<seq<OpId>>, spec: Specification<S>)
    requires Built(h) && co.elements == h.operations && EdgesWithin(co) && x in co.elements && SortsWithin(sorts)
    requires Justified(h, co, x, revealPast, sorts, spec)
    ensures JustifiesOp(h, co, x, revealPast, sorts, spec, WitnessLog(h, co, x, revealPast, sorts, spec))
  {
    ViewSortsLabelled(h, co, x, revealPast, sorts);
    var v := View(h, co, x, revealPast);
    var ros := sorts(v.poset);
    var ro := ros[FirstSatisfying(spec, v, ros)];
    var log := WitnessLog(h, co, x, revealPast, sorts, spec);
    assert log == Serialize(v, ro);
    forall i | 0 <= i < |ro| ensures ro[i] in h.labels && log[i] == Shown(h, x, revealPast, ro[i]) {
      ViewShows(h, co, x, revealPast, ro[i]);
    }
  }

  /**
   * The checker's per-operation search succeeds exactly when some log
   * justifies the operation.
   */
  lemma JustifiedIff<S>(h: History, co: Poset, x: OpId, revealPast: bool, sorts: Poset -> seq<seq<OpId>>, spec: Specification<S>)
    requires Built(h) && co.elements == h.operations && EdgesWithin(co) && x in co.elements && SortsWithin(sorts)
    ensures Justified(h, co, x, revealPast, sorts, spec) <==> exists log :: JustifiesOp(h, co, x, revealPast, sorts, spec, log)
  {
    if Justified(h, co, x, revealPast, sorts, spec) {
      WitnessLogJustifies(h, co, x, revealPast, sorts, spec);
    }
    if log :| JustifiesOp(h, co, x, revealPast, sorts, spec, log) {
      JustifiesOpFound(h, co, x, revealPast, sorts, spec, log);
    }
  }

  /** A justifying log is one the checker's search over the view's orders finds or precedes. */
  lemma JustifiesOpFound<S>(h: History, co: Poset, x: OpId, revealPast: bool, sorts: Poset -> seq<seq<OpId>>, spec: Specification<S>, log: seq<Entry>)
    requires Built(h) && co.elements == h.operations && EdgesWithin(co) && x in co.elements && SortsWithin(sorts)
    requires JustifiesOp(h, co, x, revealPast, sorts, spec, log)
    ensures Justified(h, co, x, revealPast, sorts, spec)
  {
    ViewSortsLabelled(h, co, x, revealPast, sorts);
    var v := View(h, co, x, revealPast);
    var ros := sorts(v.poset);
    var ro :| ro in ros && |ro| == |log|
      && (forall i :: 0 <= i < |ro| ==> ro[i] in h.labels && log[i] == Shown(h, x, revealPast, ro[i]))
      && Accepts(spec, log);
    SerializeShows(h, co, x, revealPast, ro, log);
    var j :| 0 <= j < |ros| && ros[j] == ro;
    assert FirstSatisfying(spec, v, ros) <= j;
  }

  /** A log of the shown labels of `ro` is the view's serialization along `ro`. */
  lemma SerializeShows(h: History, co: Poset, x: OpId, revealPast: bool, ro: seq<OpId>, log: seq<Entry>)
    requires Built(h) && |ro| == |log|
    requires forall i :: 0 <= i < |ro| ==> ro[i] in h.labels && log[i] == Shown(h, x, revealPast, ro[i])
    ensures forall o :: o in ro ==> o in View(h, co, x, revealPast).labels
    ensures Serialize(View(h, co, x, revealPast), ro) == log
  {
    var v := View(h, co, x, revealPast);
    forall i | 0 <= i < |ro| ensures log[i] == v.labels[ro[i]] {
      ViewShows(h, co, x, revealPast, ro[i]);
    }
  }

  /** Under `co`, every operation is justified by some log. */
  ghost predicate EveryOpJustified<S>(h: History, co: Poset, revealPast: bool, sorts: Poset -> seq<seq<OpId>>, spec: Specification<S>)
    requires Built(h)
  {
    forall x :: x in co.elements ==> exists log :: JustifiesOp(h, co, x, revealPast, sorts, spec, log)
  }

  /** The checker's test of one candidate is `EveryOpJustified`. */
  lemma AllJustifiedIff<S>(h: History, co: Poset, revealPast: bool, sorts: Poset -> seq<seq<OpId>>, spec: Specification<S>)
    requires Built(h) && co.elements == h.operations && EdgesWithin(co) && SortsWithin(sorts)
    ensures AllJustified(h, co, revealPast, sorts, spec) <==> EveryOpJustified(h, co, revealPast, sorts, spec)
  {
    forall x | x in co.elements
      ensures Justified(h, co, x, revealPast, sorts, spec) <==> exists log :: JustifiesOp(h, co, x, revealPast, sorts, spec, log)
    {
      JustifiedIff(h, co, x, revealPast, sorts, spec);
    }
  }

  /** The search over the candidates succeeds exactly when some candidate has every operation justified. */
  lemma FirstCandidateFound<S>(h: History, cos: seq<Poset>, revealPast: bool, sorts: Poset -> seq<seq<OpId>>, spec: Specification<S>)
    requires Built(h) && CandidatesOver(h, cos) && SortsWithin(sorts)
    ensures FirstCandidate(h, cos, revealPast, sorts, spec) < |cos| <==>
      exists co :: co in cos && EveryOpJustified(h, co, revealPast, sorts, spec)
  {
    forall co | co in cos ensures AllJustified(h, co, revealPast, sorts, spec) <==> EveryOpJustified(h, co, revealPast, sorts, spec) {
      AllJustifiedIff(h, co, revealPast, sorts, spec);
    }
    var k := FirstCandidate(h, cos, revealPast, sorts, spec);
    if k < |cos| {
      assert cos[k] in cos;
    }
    if co :| co in cos && EveryOpJustified(h, co, revealPast, sorts, spec) {
      var j :| 0 <= j < |cos| && cos[j] == co;
      assert k <= j;
    }
  }

  /** The logs a successful candidate records: every operation's log justifies it. */
  lemma WitnessesJustify<S>(h: History, co: Poset, revealPast: bool, sorts: Poset -> seq<seq<OpId>>, spec: Specification<S>)
    requires Built(h) && co.elements == h.operations && EdgesWithin(co) && SortsWithin(sorts)
    requires AllJustified(h, co, revealPast, sorts, spec)
    ensures Witnesses(h, co, revealPast, sorts, spec).Keys == co.elements
    ensures forall x :: x in co.elements ==>
      JustifiesOp(h, co, x, revealPast, sorts, spec, Witnesses(h, co, revealPast, sorts, spec)[x])
  {
    WitnessesAt(h, co, revealPast, sorts, spec);
    forall x | x in co.elements
      ensures JustifiesOp(h, co, x, revealPast, sorts, spec, Witnesses(h, co, revealPast, sorts, spec)[x])
    {
      WitnessLogJustifies(h, co, x, revealPast, sorts, spec);
    }
  }

  /**
   * `check_CC` succeeds exactly when some candidate order justifies every
   * operation by a log revealing only that operation's return; otherwise it
   * returns `(False, None, None)`.
   */
  lemma CCVerdictMeaning<S>(h: History, cos: seq<Poset>, sorts: Poset -> seq<seq<OpId>>, spec: Specification<S>)
    requires Built(h) && CandidatesOver(h, cos) && SortsWithin(sorts)
    ensures CCVerdict(h, cos, sorts, spec).isCC <==> exists co :: co in cos && EveryOpJustified(h, co, false, sorts, spec)
    ensures !CCVerdict(h, cos, sorts, spec).isCC ==> CCVerdict(h, cos, sorts, spec) == CCResult(false, None, None)
  {
    FirstCandidateFound(h, cos, false, sorts, spec);
  }

  /**
   * On success `check_CC` returns the history under a supplied candidate
   * order together with a justifying log for each of its operations.
   */
  lemma CCSuccessWitness<S>(h: History, cos: seq<Poset>, sorts: Poset -> seq<seq<OpId>>, spec: Specification<S>)
    requires Built(h) && CandidatesOver(h, cos) && SortsWithin(sorts)
    requires CCVerdict(h, cos, sorts, spec).isCC
    ensures var r := CCVerdict(h, cos, sorts, spec);
      && r.causalHistory.Some? && r.serializations.Some?
      && r.causalHistory.value.poset in cos
      && r.causalHistory.value == h.(poset := r.causalHistory.value.poset)
      && (CandidatesRefine(h, cos) ==> Refines(r.causalHistory.value.poset, h.poset))
      && r.serializations.value.Keys == h.operations
      && forall x :: x in h.operations ==>
           JustifiesOp(h, r.causalHistory.value.poset, x, false, sorts, spec, r.serializations.value[x])
  {
    var co := cos[FirstCandidate(h, cos, false, sorts, spec)];
    WitnessesJustify(h, co, false, sorts, spec);
  }

  /**
   * `check_CM` succeeds exactly when some candidate order justifies every
   * operation by a log revealing the returns of its whole past in the
   * history's own order; otherwise it returns `(False, None, None)`.
   */
  lemma CMVerdictMeaning<S>(h: History, cos: seq<Poset>, sorts: Poset -> seq<seq<OpId>>, spec: Specification<S>)
    requires Built(h) && CandidatesOver(h, cos) && SortsWithin(sorts)
    ensures CMVerdict(h, cos, sorts, spec).isCM <==> exists co :: co in cos && EveryOpJustified(h, co, true, sorts, spec)
    ensures !CMVerdict(h, cos, sorts, spec).isCM ==> CMVerdict(h, cos, sorts, spec) == CMResult(false, None, None)
  {
    FirstCandidateFound(h, cos, true, sorts, spec);
  }

  /** On success `check_CM` returns the history under a supplied candidate order and a justifying log per operation. */
  lemma CMSuccessWitness<S>(h: History, cos: seq<Poset>, sorts: Poset -> seq<seq<OpId>>, spec: Specification<S>)
    requires Built(h) && CandidatesOver(h, cos) && SortsWithin(sorts)
    requires CMVerdict(h, cos, sorts, spec).isCM
    ensures var r := CMVerdict(h, cos, sorts, spec);
      && r.causalHistory.Some? && r.serializations.Some?
      && r.causalHistory.value.poset in cos
      && r.causalHistory.value == h.(poset := r.causalHistory.value.poset)
      && (CandidatesRefine(h, cos) ==> Refines(r.causalHistory.value.poset, h.poset))
      && r.serializations.value.Keys == h.operations
      && forall x :: x in h.operations ==>
           JustifiesOp(h, r.causalHistory.value.poset, x, true, sorts, spec, r.serializations.value[x])
  {
    var co := cos[FirstCandidate(h, cos, true, sorts, spec)];
    WitnessesJustify(h, co, true, sorts, spec);
  }

  /**
   * For an oracle that ignores recorded returns, a log justifying `x` with
   * its whole past revealed yields one revealing only `x`'s return.
   */
  lemma CMJustificationGivesCC<S(!new)>(h: History, co: Poset, x: OpId, sorts: Poset -> seq<seq<OpId>>, spec: Specification<S>, log: seq<Entry>)
    requires Built(h) && IgnoresRet(spec)
    requires JustifiesOp(h, co, x, true, sorts, spec, log)
    ensures exists weak :: JustifiesOp(h, co, x, false, sorts, spec, weak)
  {
    var past := Subset(co, Predecessors(co, x));
    var ro :| ro in sorts(past) && |ro| == |log|
      && (forall i :: 0 <= i < |ro| ==> ro[i] in h.labels && log[i] == Shown(h, x, true, ro[i]))
      && Accepts(spec, log)
      && (SortsAreLinearExtensions(sorts) ==> IsLinearExtension(ro, past));
    var weak := seq(|ro|, i requires 0 <= i < |ro| => Shown(h, x, false, ro[i]));
    assert Downgrades(weak, log) by {
      forall i | 0 <= i < |ro|
        ensures weak[i] == log[i] || (log[i].Operation? && weak[i] == ToInstruction(log[i]))
      {
        ShownDowngrades(h, x, ro[i]);
      }
    }
    DowngradeKeepsAccepted(spec, weak, log);
    JustifiesOpIntro(h, co, x, false, sorts, spec, ro, weak);
  }

  /** Revealing only `x`'s return shows each label as revealing `x`'s past does, or downgraded. */
  lemma ShownDowngrades(h: History, x: OpId, y: OpId)
    requires Built(h) && y in h.labels
    ensures var weak, strong := Shown(h, x, false, y), Shown(h, x, true, y);
      weak == strong || (strong.Operation? && weak == ToInstruction(strong))
  {
    assert x in Revealed(h, x, true);
  }

  /**
   * Causal memory implies causal consistency: for an oracle that ignores
   * recorded returns, when `check_CM` succeeds so does `check_CC` on the
   * same candidates.
   */
  lemma CMImpliesCC<S(!new)>(h: History, cos: seq<Poset>, sorts: Poset -> seq<seq<OpId>>, spec: Specification<S>)
    requires Built(h) && CandidatesOver(h, cos) && SortsWithin(sorts) && IgnoresRet(spec)
    requires CMVerdict(h, cos, sorts, spec).isCM
    ensures CCVerdict(h, cos, sorts, spec).isCC
  {
    CMVerdictMeaning(h, cos, sorts, spec);
    CCVerdictMeaning(h, cos, sorts, spec);
    var co :| co in cos && EveryOpJustified(h, co, true, sorts, spec);
    forall x | x in co.elements ensures exists log :: JustifiesOp(h, co, x, false, sorts, spec, log) {
      var log :| JustifiesOp(h, co, x, true, sorts, spec, log);
      CMJustificationGivesCC(h, co, x, sorts, spec, log);
    }
    assert EveryOpJustified(h, co, false, sorts, spec);
  }

  /** The search over one candidate's arbitrations succeeds exactly when one of them justifies every operation. */
  lemma FirstArbFound<S>(h: History, co: Poset, arbs: seq<seq<OpId>>, spec: Specification<S>)
    requires Built(h) && co.elements == h.operations && forall arb :: arb in arbs ==> ArbOver(h, arb)
    ensures FirstArb(h, co, arbs, spec) < |arbs| <==> exists arb :: arb in arbs && ArbJustifies(h, co, arb, spec)
  {
    var k := FirstArb(h, co, arbs, spec);
    if k < |arbs| {
      assert arbs[k] in arbs;
    }
    if arb :| arb in arbs && ArbJustifies(h, co, arb, spec) {
      var j :| 0 <= j < |arbs| && arbs[j] == arb;
      assert k <= j;
    }
  }

  /**
   * `check_CCv` succeeds exactly when some candidate order has an
   * enumerated arbitration under which every operation's
   * causal-arbitration view is accepted; otherwise every field is empty.
   */
  lemma CCvVerdictMeaning<S>(h: History, cos: seq<Poset>, sorts: Poset -> seq<seq<OpId>>, spec: Specification<S>)
    requires Built(h) && CandidatesOver(h, cos) && SortsCover(sorts)
    ensures CCvVerdict(h, cos, sorts, spec).isCCv <==>
      exists co, arb :: co in cos && arb in sorts(co) && ArbJustifies(h, co, arb, spec)
    ensures !CCvVerdict(h, cos, sorts, spec).isCCv ==> CCvVerdict(h, cos, sorts, spec) == CCvResult(false, None, None, None)
  {
    CandidateSortsOver(h, cos, sorts);
    forall co | co in cos
      ensures Convergent(h, co, sorts, spec) <==> exists arb :: arb in sorts(co) && ArbJustifies(h, co, arb, spec)
    {
      FirstArbFound(h, co, sorts(co), spec);
    }
    var k := FirstConvergent(h, cos, sorts, spec);
    if k < |cos| {
      assert cos[k] in cos;
    }
    if co, arb :| co in cos && arb in sorts(co) && ArbJustifies(h, co, arb, spec) {
      var j :| 0 <= j < |cos| && cos[j] == co;
      assert k <= j;
    }
  }

  /**
   * On success `check_CCv` returns the history under a supplied candidate
   * order, one arbitration enumerated for it (as the labels of its ids), and
   * for every operation its causal-arbitration view, which the oracle
   * accepts.
   */
  lemma CCvSuccessWitness<S>(h: History, cos: seq<Poset>, sorts: Poset -> seq<seq<OpId>>, spec: Specification<S>)
    requires Built(h) && CandidatesOver(h, cos) && SortsCover(sorts)
    requires CCvVerdict(h, cos, sorts, spec).isCCv
    ensures var r := CCvVerdict(h, cos, sorts, spec);
      && r.causalHistory.Some? && r.arbitration.Some? && r.serializations.Some?
      && var co := r.causalHistory.value.poset;
      && co in cos && r.causalHistory.value == h.(poset := co)
      && r.serializations.value.Keys == co.elements
      && exists arb :: arb in sorts(co) && ArbOver(h, arb)
           && |r.arbitration.value| == |arb|
           && (forall i :: 0 <= i < |arb| ==> r.arbitration.value[i] == h.labels[arb[i]])
           && (SortsAreLinearExtensions(sorts) ==> IsLinearExtension(arb, co))
           && forall x :: x in co.elements ==>
                r.serializations.value[x] == CausalArbView(h.(poset := co), x, arb)
                && Accepts(spec, r.serializations.value[x])
    ensures CandidatesRefine(h, cos) ==> Refines(CCvVerdict(h, cos, sorts, spec).causalHistory.value.poset, h.poset)
  {
    CandidateSortsOver(h, cos, sorts);
    var co := cos[FirstConvergent(h, cos, sorts, spec)];
    var arb := sorts(co)[FirstArb(h, co, sorts(co), spec)];
    assert arb in sorts(co);
    ArbWitnessesAt(h, co, arb);
  }

  /** No label of the history writes `value` to `key`. */
  predicate NeverWritten(h: History, key: Key, value: Value)
  {
    forall y :: y in h.labels ==> h.labels[y].call != Wr(key, value)
  }

  /** Exhaustive enumerations list only elements of their poset. */
  lemma SortsCoverWithin(sorts: Poset -> seq<seq<OpId>>)
    requires SortsCover(sorts)
    ensures SortsWithin(sorts)
  {
    forall p, ro, o | ro in sorts(p) && o in ro ensures o in p.elements {
      assert o in Ids(ro);
    }
  }

  /**
   * Against the memory oracle, a read that returns a value nobody wrote
   * cannot be justified under any candidate, whether only its own return
   * or its whole past is revealed: the read is in every serialization of
   * its view, showing its return, and no entry before it writes the value.
   */
  lemma UnwrittenReadUnjustified(h: History, co: Poset, x: OpId, revealPast: bool, sorts: Poset -> seq<seq<OpId>>, key: Key, value: Value)
    requires Built(h) && co.elements == h.operations && EdgesWithin(co) && SortsCover(sorts)
    requires x in h.operations && h.labels[x].call == Rd(key) && h.labels[x].ret == Val(value) && NeverWritten(h, key, value)
    ensures forall log :: !JustifiesOp(h, co, x, revealPast, sorts, RWMemory, log)
  {
    var past := Subset(co, Predecessors(co, x));
    forall log | JustifiesOp(h, co, x, revealPast, sorts, RWMemory, log) ensures false {
      var ro :| ro in sorts(past) && |ro| == |log|
        && (forall i :: 0 <= i < |ro| ==> ro[i] in h.labels && log[i] == Shown(h, x, revealPast, ro[i]))
        && Accepts(RWMemory, log);
      assert x in Ids(ro);
      UnwrittenReadShownRejected(h, x, revealPast, ro, log, key, value);
    }
  }

  /** A log of shown labels listing a read of a never-written value is rejected by the memory oracle. */
  lemma UnwrittenReadShownRejected(h: History, x: OpId, revealPast: bool, ro: seq<OpId>, log: seq<Entry>, key: Key, value: Value)
    requires Built(h) && x in ro && |ro| == |log|
    requires forall i :: 0 <= i < |ro| ==> ro[i] in h.labels && log[i] == Shown(h, x, revealPast, ro[i])
    requires x in h.labels && h.labels[x].call == Rd(key) && h.labels[x].ret == Val(value) && NeverWritten(h, key, value)
    ensures !Accepts(RWMemory, log)
  {
    var i :| 0 <= i < |ro| && ro[i] == x;
    assert x in Revealed(h, x, revealPast);
    ReadOfUnwrittenValueRejected(log, i, key, value);
  }

  /**
   * Against the memory oracle, a history holding a read of a never-written
   * value is neither causally consistent nor causal memory.
   */
  lemma UnwrittenReadRefutesCC(h: History, cos: seq<Poset>, sorts: Poset -> seq<seq<OpId>>, x: OpId, key: Key, value: Value)
    requires Built(h) && CandidatesOver(h, cos) && SortsCover(sorts)
    requires x in h.operations && h.labels[x].call == Rd(key) && h.labels[x].ret == Val(value) && NeverWritten(h, key, value)
    ensures SortsWithin(sorts)
    ensures !CCVerdict(h, cos, sorts, RWMemory).isCC && !CMVerdict(h, cos, sorts, RWMemory).isCM
  {
    SortsCoverWithin(sorts);
    CCVerdictMeaning(h, cos, sorts, RWMemory);
    CMVerdictMeaning(h, cos, sorts, RWMemory);
    forall co | co in cos
      ensures !EveryOpJustified(h, co, false, sorts, RWMemory) && !EveryOpJustified(h, co, true, sorts, RWMemory)
    {
      UnwrittenReadUnjustified(h, co, x, false, sorts, key, value);
      UnwrittenReadUnjustified(h, co, x, true, sorts, key, value);
    }
  }

  /** Against the memory oracle, a history holding a read of a never-written value is not causally convergent. */
  lemma UnwrittenReadRefutesCCv(h: History, cos: seq<Poset>, sorts: Poset -> seq<seq<OpId>>, x: OpId, key: Key, value: Value)
    requires Built(h) && CandidatesOver(h, cos) && SortsCover(sorts)
    requires x in h.operations && h.labels[x].call == Rd(key) && h.labels[x].ret == Val(value) && NeverWritten(h, key, value)
    ensures !CCvVerdict(h, cos, sorts, RWMemory).isCCv
  {
    CCvVerdictMeaning(h, cos, sorts, RWMemory);
    CandidateSortsOver(h, cos, sorts);
    forall co, arb | co in cos && arb in sorts(co) ensures !ArbJustifies(h, co, arb, RWMemory) {
      UnwrittenReadRejectedByArb(h, co, arb, x, key, value);
    }
  }

  /** Against the memory oracle, the causal-arbitration view of a read of a never-written value is rejected. */
  lemma UnwrittenReadRejectedByArb(h: History, co: Poset, arb: seq<OpId>, x: OpId, key: Key, value: Value)
    requires Built(h) && co.elements == h.operations && ArbOver(h, arb)
    requires x in h.operations && h.labels[x].call == Rd(key) && h.labels[x].ret == Val(value) && NeverWritten(h, key, value)
    ensures !ArbAccepts(h, co, x, arb, RWMemory)
  {
    var hc := h.(poset := co);
    var log := CausalArbView(hc, x, arb);
    var pre := CausalPrefix(hc, x, arb);
    forall j | 0 <= j < |log| - 1 ensures log[j].call != Wr(key, value) {
      assert pre[j] in pre;
    }
    ReadOfUnwrittenValueRejected(log, |log| - 1, key, value);
  }
}
