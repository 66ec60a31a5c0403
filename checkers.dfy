/**
 * The three consistency checkers. Each searches the candidate causal orders
 * in turn (and, for causal convergence, the linear extensions of each) and
 * returns the first witness bundle it finds, or a clean negative.
 *
 * The order engine's enumerations are inputs: `cos` stands for
 * `h.poset.refinements()` and `sorts(p)` for `p.all_topological_sorts()`.
 */
module Checkers {
  import opened Wrappers
  import opened Operations
  import opened Posets
  import opened Histories
  import opened Specifications

  datatype CCResult = CCResult(isCC: bool, causalHistory: Option<History>, serializations: Option<map<OpId, seq<Entry>>>)

  datatype CMResult = CMResult(isCM: bool, causalHistory: Option<History>, serializations: Option<map<OpId, seq<Entry>>>)

  datatype CCvResult = CCvResult(
    isCCv: bool,
    causalHistory: Option<History>,
    arbitration: Option<seq<Entry>>,
    serializations: Option<map<OpId, seq<Entry>>>)

  /** A history as `History.__init__` leaves it. */
  predicate Built(h: History)
  {
    WellFormed(h) && Recorded(h)
  }

  /** Every candidate order is over the history's ids and orders only them. */
  predicate CandidatesOver(h: History, cos: seq<Poset>)
  {
    forall co :: co in cos ==> co.elements == h.operations && EdgesWithin(co)
  }

  /** Each enumerated sort lists only elements of its poset. */
  ghost predicate SortsWithin(sorts: Poset -> seq<seq<OpId>>)
  {
    forall p, ro, o :: ro in sorts(p) && o in ro ==> o in p.elements
  }

  /** Each enumerated sort lists exactly the elements of its poset. */
  ghost predicate SortsCover(sorts: Poset -> seq<seq<OpId>>)
  {
    forall p, ro :: ro in sorts(p) ==> Ids(ro) == p.elements
  }

  /** The ids an order lists. */
  function Ids(ro: seq<OpId>): (r: set<OpId>)
    ensures forall o :: o in r <==> o in ro
  {
    set o | o in ro
  }

  /** The order engine's contract: every enumerated sort is a linear extension. */
  ghost predicate SortsAreLinearExtensions(sorts: Poset -> seq<seq<OpId>>)
  {
    forall p, ro :: ro in sorts(p) ==> IsLinearExtension(ro, p)
  }

  /** The order engine's contract on `refinements()`: every candidate keeps and extends the history's order. */
  ghost predicate CandidatesRefine(h: History, cos: seq<Poset>)
  {
    forall co :: co in cos ==> Refines(co, h.poset)
  }

  /**
   * The ids whose returns the view of `x` reveals: only `x` for causal
   * consistency, and for causal memory all of `x`'s predecessors in the
   * history's own (unrefined) order.
   */
  function Revealed(h: History, x: OpId, revealPast: bool): (r: set<OpId>)
    ensures !revealPast ==> r == {x}
    ensures revealPast ==> forall y :: y in r <==> y == x || (y, x) in h.poset.before
  {
    if revealPast then Predecessors(h.poset, x) else {x}
  }

  /** The causal view of `x` under candidate order `co`. */
  function View(h: History, co: Poset, x: OpId, revealPast: bool): (v: History)
    requires Recorded(h)
    ensures v.labels.Keys == h.labels.Keys
    ensures v.poset == Subset(co, Predecessors(co, x))
  {
    CausalHist(h.(poset := co), x, Revealed(h, x, revealPast))
  }

  /** The lemma behind the checkers' lookups: under a candidate order, a view's sorts only list labelled ids. */
  lemma ViewSortsLabelled(h: History, co: Poset, x: OpId, revealPast: bool, sorts: Poset -> seq<seq<OpId>>)
    requires Built(h) && co.elements == h.operations && EdgesWithin(co) && x in co.elements && SortsWithin(sorts)
    ensures forall ro, o :: ro in sorts(View(h, co, x, revealPast).poset) && o in ro ==> o in View(h, co, x, revealPast).labels
  {
  }

  /** The position of the first element of `xs` satisfying `p`, or `|xs|`. */
  function FirstWhere<T>(xs: seq<T>, p: T -> bool): (k: nat)
    ensures k <= |xs|
    ensures forall j :: 0 <= j < k ==> !p(xs[j])
    ensures k < |xs| ==> p(xs[k])
  {
    if xs == [] || p(xs[0]) then 0 else 1 + FirstWhere(xs[1..], p)
  }

  /**
   * The position of the first order in `ros` whose log the oracle accepts,
   * or `|ros|` when there is none.
   */
  function FirstSatisfying<S>(spec: Specification<S>, view: History, ros: seq<seq<OpId>>): (k: nat)
    requires forall ro, o :: ro in ros && o in ro ==> o in view.labels
    ensures k <= |ros|
    ensures forall j :: 0 <= j < k ==> !Accepts(spec, Serialize(view, ros[j]))
    ensures k < |ros| ==> Accepts(spec, Serialize(view, ros[k]))
  {
    FirstWhere(ros, (ro: seq<OpId>) => (forall o :: o in ro ==> o in view.labels) && Accepts(spec, Serialize(view, ro)))
  }

  /** Some serialization of `x`'s view under `co` satisfies the oracle. */
  predicate Justified<S>(h: History, co: Poset, x: OpId, revealPast: bool, sorts: Poset -> seq<seq<OpId>>, spec: Specification<S>)
    requires Built(h) && co.elements == h.operations && EdgesWithin(co) && x in co.elements && SortsWithin(sorts)
  {
    ViewSortsLabelled(h, co, x, revealPast, sorts);
    var v := View(h, co, x, revealPast);
    FirstSatisfying(spec, v, sorts(v.poset)) < |sorts(v.poset)|
  }

  /** The first satisfying serialization of `x`'s view, the one the checker records. */
  function WitnessLog<S>(h: History, co: Poset, x: OpId, revealPast: bool, sorts: Poset -> seq<seq<OpId>>, spec: Specification<S>): seq<Entry>
    requires Built(h) && co.elements == h.operations && EdgesWithin(co) && x in co.elements && SortsWithin(sorts)
    requires Justified(h, co, x, revealPast, sorts, spec)
  {
    ViewSortsLabelled(h, co, x, revealPast, sorts);
    var v := View(h, co, x, revealPast);
    Serialize(v, sorts(v.poset)[FirstSatisfying(spec, v, sorts(v.poset))])
  }

  /** Under `co`, every operation is justified. */
  predicate AllJustified<S>(h: History, co: Poset, revealPast: bool, sorts: Poset -> seq<seq<OpId>>, spec: Specification<S>)
    requires Built(h) && co.elements == h.operations && EdgesWithin(co) && SortsWithin(sorts)
  {
    forall x :: x in co.elements ==> Justified(h, co, x, revealPast, sorts, spec)
  }

  /** The position of the first candidate under which every operation is justified, or `|cos|`. */
  function FirstCandidate<S>(h: History, cos: seq<Poset>, revealPast: bool, sorts: Poset -> seq<seq<OpId>>, spec: Specification<S>): (k: nat)
    requires Built(h) && CandidatesOver(h, cos) && SortsWithin(sorts)
    ensures k <= |cos|
    ensures forall j :: 0 <= j < k ==> !AllJustified(h, cos[j], revealPast, sorts, spec)
    ensures k < |cos| ==> AllJustified(h, cos[k], revealPast, sorts, spec)
  {
    FirstWhere(cos, (co: Poset) => co.elements == h.operations && EdgesWithin(co) && AllJustified(h, co, revealPast, sorts, spec))
  }

  /** `FirstCandidate` is the position the checkers' outer loop stops at. */
  lemma FirstCandidateAt<S>(h: History, cos: seq<Poset>, revealPast: bool, sorts: Poset -> seq<seq<OpId>>, spec: Specification<S>, i: nat)
    requires Built(h) && CandidatesOver(h, cos) && SortsWithin(sorts) && i <= |cos|
    requires forall j :: 0 <= j < i ==> !AllJustified(h, cos[j], revealPast, sorts, spec)
    requires i < |cos| ==> AllJustified(h, cos[i], revealPast, sorts, spec)
    ensures FirstCandidate(h, cos, revealPast, sorts, spec) == i
  {
  }

  /** The witness logs of a candidate under which every operation is justified. */
  function Witnesses<S>(h: History, co: Poset, revealPast: bool, sorts: Poset -> seq<seq<OpId>>, spec: Specification<S>): map<OpId, seq<Entry>>
    requires Built(h) && co.elements == h.operations && EdgesWithin(co) && SortsWithin(sorts)
    requires AllJustified(h, co, revealPast, sorts, spec)
  {
    map x | x in co.elements :: WitnessLog(h, co, x, revealPast, sorts, spec)
  }

  /** A map holding the witness log of each id of `co`, and nothing else, is `Witnesses`. */
  lemma WitnessesEqual<S>(h: History, co: Poset, revealPast: bool, sorts: Poset -> seq<seq<OpId>>, spec: Specification<S>, m: map<OpId, seq<Entry>>)
    requires Built(h) && co.elements == h.operations && EdgesWithin(co) && SortsWithin(sorts)
    requires AllJustified(h, co, revealPast, sorts, spec)
    requires m.Keys == co.elements
    requires forall x :: x in co.elements ==> m[x] == WitnessLog(h, co, x, revealPast, sorts, spec)
    ensures m == Witnesses(h, co, revealPast, sorts, spec)
  {
    var w := Witnesses(h, co, revealPast, sorts, spec);
    WitnessesAt(h, co, revealPast, sorts, spec);
    MapsEqual(m, w);
  }

  /** `Witnesses` is keyed by the ids of `co` and holds the witness log of each. */
  lemma WitnessesAt<S>(h: History, co: Poset, revealPast: bool, sorts: Poset -> seq<seq<OpId>>, spec: Specification<S>)
    requires Built(h) && co.elements == h.operations && EdgesWithin(co) && SortsWithin(sorts)
    requires AllJustified(h, co, revealPast, sorts, spec)
    ensures Witnesses(h, co, revealPast, sorts, spec).Keys == co.elements
    ensures forall x :: x in co.elements ==>
      Witnesses(h, co, revealPast, sorts, spec)[x] == WitnessLog(h, co, x, revealPast, sorts, spec)
  {
  }

  /** A map whose members are exactly those of `s` is keyed by `s`. */
  lemma KeysAre<K, V>(m: map<K, V>, s: set<K>)
    requires forall k :: k in m <==> k in s
    ensures m.Keys == s
  {
  }

  /** Maps with the same keys and the same value at each key are equal. */
  lemma MapsEqual<K, V>(m: map<K, V>, w: map<K, V>)
    requires m.Keys == w.Keys
    requires forall k :: k in m ==> m[k] == w[k]
    ensures m == w
  {
  }

  /** The verdict `check_CC` arrives at. */
  function CCVerdict<S>(h: History, cos: seq<Poset>, sorts: Poset -> seq<seq<OpId>>, spec: Specification<S>): CCResult
    requires Built(h) && CandidatesOver(h, cos) && SortsWithin(sorts)
  {
    var k := FirstCandidate(h, cos, false, sorts, spec);
    if k < |cos| then CCResult(true, Some(h.(poset := cos[k])), Some(Witnesses(h, cos[k], false, sorts, spec)))
    else CCResult(false, None, None)
  }

  /** The verdict `check_CM` arrives at. */
  function CMVerdict<S>(h: History, cos: seq<Poset>, sorts: Poset -> seq<seq<OpId>>, spec: Specification<S>): CMResult
    requires Built(h) && CandidatesOver(h, cos) && SortsWithin(sorts)
  {
    var k := FirstCandidate(h, cos, true, sorts, spec);
    if k < |cos| then CMResult(true, Some(h.(poset := cos[k])), Some(Witnesses(h, cos[k], true, sorts, spec)))
    else CMResult(false, None, None)
  }

  /** The inner search of `check_CC` and `check_CM`: the first sort whose log satisfies the oracle. */
  method FindSerialization<S>(spec: Specification<S>, view: History, ros: seq<seq<OpId>>) returns (found: bool, log: seq<Entry>)
    requires forall ro, o :: ro in ros && o in ro ==> o in view.labels
    ensures found == (FirstSatisfying(spec, view, ros) < |ros|)
    ensures found ==> log == Serialize(view, ros[FirstSatisfying(spec, view, ros)])
  {
    found, log := false, [];
    var j := 0;
    while j < |ros|
      invariant 0 <= j <= |ros|
      invariant forall i :: 0 <= i < j ==> !Accepts(spec, Serialize(view, ros[i]))
    {
      var candidate := Serialize(view, ros[j]);
      var ok := Satisfies(spec, candidate);
      if ok {
        found, log := true, candidate;
        return;
      }
      j := j + 1;
    }
  }

  /**
   * The loop over the operations of one candidate, shared by `check_CC` and
   * `check_CM`: stop at the first operation with no satisfying serialization.
   */
  method JustifyEach<S>(h: History, co: Poset, revealPast: bool, sorts: Poset -> seq<seq<OpId>>, spec: Specification<S>)
    returns (allOpSatisfied: bool, serializations: map<OpId, seq<Entry>>)
    requires Built(h) && co.elements == h.operations && EdgesWithin(co) && SortsWithin(sorts)
    ensures allOpSatisfied == AllJustified(h, co, revealPast, sorts, spec)
    ensures allOpSatisfied ==> serializations == Witnesses(h, co, revealPast, sorts, spec)
  {
    serializations := map[];
    var todo := co.elements;
    ghost var done: set<OpId> := {};
    while todo != {}
      invariant done + todo == co.elements && done !! todo
      invariant forall x :: x in done ==> Justified(h, co, x, revealPast, sorts, spec)
      invariant forall y :: y in serializations <==> y in done
      invariant forall x :: x in done ==> serializations[x] == WitnessLog(h, co, x, revealPast, sorts, spec)
      decreases todo
    {
      var x :| x in todo;
      ViewSortsLabelled(h, co, x, revealPast, sorts);
      var ch := View(h, co, x, revealPast);
      var ros := sorts(ch.poset);
      var found, log := FindSerialization(spec, ch, ros);
      if !found {
        return false, serializations;
      }
      serializations := serializations[x := log];
      todo, done := todo - {x}, done + {x};
    }
    allOpSatisfied := true;
    KeysAre(serializations, co.elements);
    WitnessesEqual(h, co, revealPast, sorts, spec, serializations);
  }

  /** `check_CC`: each operation may be justified by its own serialization; only its own return is revealed. */
  method CheckCC<S>(h: History, cos: seq<Poset>, sorts: Poset -> seq<seq<OpId>>, spec: Specification<S>) returns (r: CCResult)
    requires Built(h) && CandidatesOver(h, cos) && SortsWithin(sorts)
    ensures r == CCVerdict(h, cos, sorts, spec)
  {
    var i := 0;
    while i < |cos|
      invariant 0 <= i <= |cos|
      invariant forall j :: 0 <= j < i ==> !AllJustified(h, cos[j], false, sorts, spec)
    {
      var co := cos[i];
      var allOpSatisfied, serializations := JustifyEach(h, co, false, sorts, spec);
      if allOpSatisfied {
        FirstCandidateAt(h, cos, false, sorts, spec, i);
        return CCResult(true, Some(h.(poset := co)), Some(serializations));
      }
      i := i + 1;
    }
    FirstCandidateAt(h, cos, false, sorts, spec, i);
    return CCResult(false, None, None);
  }

  /**
   * `check_CM`: as `check_CC`, but each view reveals the returns of all of
   * the operation's predecessors in the history's own order.
   */
  method CheckCM<S>(h: History, cos: seq<Poset>, sorts: Poset -> seq<seq<OpId>>, spec: Specification<S>) returns (r: CMResult)
    requires Built(h) && CandidatesOver(h, cos) && SortsWithin(sorts)
    ensures r == CMVerdict(h, cos, sorts, spec)
  {
    var i := 0;
    while i < |cos|
      invariant 0 <= i <= |cos|
      invariant forall j :: 0 <= j < i ==> !AllJustified(h, cos[j], true, sorts, spec)
    {
      var co := cos[i];
      var allOpSatisfied, serializations := JustifyEach(h, co, true, sorts, spec);
      if allOpSatisfied {
        FirstCandidateAt(h, cos, true, sorts, spec, i);
        return CMResult(true, Some(h.(poset := co)), Some(serializations));
      }
      i := i + 1;
    }
    FirstCandidateAt(h, cos, true, sorts, spec, i);
    return CMResult(false, None, None);
  }

  /** Each enumerated sort of a candidate lists exactly the history's ids. */
  predicate ArbOver(h: History, arb: seq<OpId>)
  {
    Ids(arb) == h.operations
  }

  /** Under `co` and the shared arbitration `arb`, every operation's causal-arbitration view satisfies the oracle. */
  predicate ArbJustifies<S>(h: History, co: Poset, arb: seq<OpId>, spec: Specification<S>)
    requires Built(h) && co.elements == h.operations && ArbOver(h, arb)
  {
    forall x :: x in co.elements ==> ArbAccepts(h, co, x, arb, spec)
  }

  /** The oracle accepts the causal-arbitration view of `x` under `co` and `arb`. */
  predicate ArbAccepts<S>(h: History, co: Poset, x: OpId, arb: seq<OpId>, spec: Specification<S>)
    requires Built(h) && co.elements == h.operations && ArbOver(h, arb) && x in co.elements
  {
    Accepts(spec, CausalArbView(h.(poset := co), x, arb))
  }

  /** The per-operation logs of a successful arbitration. */
  function ArbWitnesses(h: History, co: Poset, arb: seq<OpId>): map<OpId, seq<Entry>>
    requires Built(h) && co.elements == h.operations && ArbOver(h, arb)
  {
    map x | x in co.elements :: CausalArbView(h.(poset := co), x, arb)
  }

  /** The position of the first arbitration in `arbs` that justifies every operation, or `|arbs|`. */
  function FirstArb<S>(h: History, co: Poset, arbs: seq<seq<OpId>>, spec: Specification<S>): (k: nat)
    requires Built(h) && co.elements == h.operations && forall arb :: arb in arbs ==> ArbOver(h, arb)
    ensures k <= |arbs|
    ensures forall j :: 0 <= j < k ==> !ArbJustifies(h, co, arbs[j], spec)
    ensures k < |arbs| ==> ArbJustifies(h, co, arbs[k], spec)
  {
    FirstWhere(arbs, (arb: seq<OpId>) => ArbOver(h, arb) && ArbJustifies(h, co, arb, spec))
  }

  /** The sorts of every candidate list exactly the history's ids. */
  lemma CandidateSortsOver(h: History, cos: seq<Poset>, sorts: Poset -> seq<seq<OpId>>)
    requires Built(h) && CandidatesOver(h, cos) && SortsCover(sorts)
    ensures forall co, arb :: co in cos && arb in sorts(co) ==> ArbOver(h, arb)
  {
  }

  /** Some arbitration of `co` justifies every operation. */
  predicate Convergent<S>(h: History, co: Poset, sorts: Poset -> seq<seq<OpId>>, spec: Specification<S>)
    requires Built(h) && co.elements == h.operations && forall arb :: arb in sorts(co) ==> ArbOver(h, arb)
  {
    FirstArb(h, co, sorts(co), spec) < |sorts(co)|
  }

  /** The position of the first candidate with a justifying arbitration, or `|cos|`. */
  function FirstConvergent<S>(h: History, cos: seq<Poset>, sorts: Poset -> seq<seq<OpId>>, spec: Specification<S>): (k: nat)
    requires Built(h) && CandidatesOver(h, cos) && SortsCover(sorts)
    ensures k <= |cos|
    ensures forall j :: 0 <= j < k ==> !Convergent(h, cos[j], sorts, spec)
    ensures k < |cos| ==> Convergent(h, cos[k], sorts, spec)
  {
    CandidateSortsOver(h, cos, sorts);
    FirstWhere(cos, (co: Poset) => co.elements == h.operations && EdgesWithin(co) && Convergent(h, co, sorts, spec))
  }

  /** The verdict `check_CCv` arrives at. */
  function CCvVerdict<S>(h: History, cos: seq<Poset>, sorts: Poset -> seq<seq<OpId>>, spec: Specification<S>): CCvResult
    requires Built(h) && CandidatesOver(h, cos) && SortsCover(sorts)
  {
    CandidateSortsOver(h, cos, sorts);
    var k := FirstConvergent(h, cos, sorts, spec);
    if k < |cos| then
      var co := cos[k];
      var arb := sorts(co)[FirstArb(h, co, sorts(co), spec)];
      CCvResult(true, Some(h.(poset := co)), Some(Serialize(h, arb)), Some(ArbWitnesses(h, co, arb)))
    else CCvResult(false, None, None, None)
  }

  /**
   * The loop over the operations for one arbitration. The map of logs is
   * shared across the arbitrations of one candidate, as in the source: it
   * only ever holds ids of the candidate, and after a justifying arbitration
   * it holds exactly that arbitration's logs.
   */
  method ArbJustifyEach<S>(h: History, co: Poset, arb: seq<OpId>, spec: Specification<S>, logs: map<OpId, seq<Entry>>)
    returns (allOpSatisfied: bool, serializations: map<OpId, seq<Entry>>)
    requires Built(h) && co.elements == h.operations && ArbOver(h, arb)
    requires logs.Keys <= co.elements
    ensures serializations.Keys <= co.elements
    ensures allOpSatisfied == ArbJustifies(h, co, arb, spec)
    ensures allOpSatisfied ==> serializations == ArbWitnesses(h, co, arb)
  {
    serializations := logs;
    var todo := co.elements;
    ghost var done: set<OpId> := {};
    while todo != {}
      invariant done + todo == co.elements && done !! todo
      invariant serializations.Keys <= co.elements
      invariant forall x :: x in done ==> x in serializations && serializations[x] == CausalArbView(h.(poset := co), x, arb)
      invariant forall x :: x in done ==> Accepts(spec, CausalArbView(h.(poset := co), x, arb))
      decreases todo
    {
      var x :| x in todo;
      var log := CausalArb(h.(poset := co), x, arb);
      var ok := Satisfies(spec, log);
      if !ok {
        return false, serializations;
      }
      serializations := serializations[x := log];
      todo, done := todo - {x}, done + {x};
    }
    allOpSatisfied := true;
    ArbWitnessesEqual(h, co, arb, serializations);
  }

  /** A map over the ids of `co` holding each one's causal-arbitration view is `ArbWitnesses`. */
  lemma ArbWitnessesEqual(h: History, co: Poset, arb: seq<OpId>, m: map<OpId, seq<Entry>>)
    requires Built(h) && co.elements == h.operations && ArbOver(h, arb)
    requires m.Keys <= co.elements
    requires forall x :: x in co.elements ==> x in m && m[x] == CausalArbView(h.(poset := co), x, arb)
    ensures m == ArbWitnesses(h, co, arb)
  {
    ArbWitnessesAt(h, co, arb);
    KeysAre(m, co.elements);
    MapsEqual(m, ArbWitnesses(h, co, arb));
  }

  /** `ArbWitnesses` is keyed by the ids of `co` and holds each one's causal-arbitration view. */
  lemma ArbWitnessesAt(h: History, co: Poset, arb: seq<OpId>)
    requires Built(h) && co.elements == h.operations && ArbOver(h, arb)
    ensures ArbWitnesses(h, co, arb).Keys == co.elements
    ensures forall x :: x in co.elements ==> ArbWitnesses(h, co, arb)[x] == CausalArbView(h.(poset := co), x, arb)
  {
  }

  /** The loop over the arbitrations of one candidate: the first one that justifies every operation. */
  method FindArbitration<S>(h: History, co: Poset, arbs: seq<seq<OpId>>, spec: Specification<S>)
    returns (found: bool, arb: seq<OpId>, serializations: map<OpId, seq<Entry>>)
    requires Built(h) && co.elements == h.operations && forall arb :: arb in arbs ==> ArbOver(h, arb)
    ensures found == (FirstArb(h, co, arbs, spec) < |arbs|)
    ensures found ==> arb == arbs[FirstArb(h, co, arbs, spec)] && serializations == ArbWitnesses(h, co, arb)
  {
    arb, serializations := [], map[];
    var j := 0;
    while j < |arbs|
      invariant 0 <= j <= |arbs|
      invariant serializations.Keys <= co.elements
      invariant j <= FirstArb(h, co, arbs, spec)
    {
      var allOpSatisfied;
      allOpSatisfied, serializations := ArbJustifyEach(h, co, arbs[j], spec, serializations);
      if allOpSatisfied {
        FirstArbStops(h, co, arbs, spec, j);
        return true, arbs[j], serializations;
      }
      FirstArbPasses(h, co, arbs, spec, j);
      j := j + 1;
    }
    found := false;
  }

  /** An arbitration that does not justify every operation is not the first that does. */
  lemma FirstArbPasses<S>(h: History, co: Poset, arbs: seq<seq<OpId>>, spec: Specification<S>, j: nat)
    requires Built(h) && co.elements == h.operations && forall arb :: arb in arbs ==> ArbOver(h, arb)
    requires j <= FirstArb(h, co, arbs, spec) && j < |arbs| && !ArbJustifies(h, co, arbs[j], spec)
    ensures j + 1 <= FirstArb(h, co, arbs, spec)
  {
  }

  /** An arbitration that justifies every operation and has none before it is the first. */
  lemma FirstArbStops<S>(h: History, co: Poset, arbs: seq<seq<OpId>>, spec: Specification<S>, j: nat)
    requires Built(h) && co.elements == h.operations && forall arb :: arb in arbs ==> ArbOver(h, arb)
    requires j <= FirstArb(h, co, arbs, spec) && j < |arbs| && ArbJustifies(h, co, arbs[j], spec)
    ensures j == FirstArb(h, co, arbs, spec)
  {
  }

  /**
   * `check_CCv`: one arbitration, shared by all operations, must justify
   * each of them through its causal-arbitration view.
   */
  method CheckCCv<S>(h: History, cos: seq<Poset>, sorts: Poset -> seq<seq<OpId>>, spec: Specification<S>) returns (r: CCvResult)
    requires Built(h) && CandidatesOver(h, cos) && SortsCover(sorts)
    ensures r == CCvVerdict(h, cos, sorts, spec)
  {
    CandidateSortsOver(h, cos, sorts);
    var i := 0;
    while i < |cos|
      invariant 0 <= i <= |cos|
      invariant forall j :: 0 <= j < i ==> !Convergent(h, cos[j], sorts, spec)
    {
      var co := cos[i];
      var arbs := sorts(co);
      var found, arb, serializations := FindArbitration(h, co, arbs, spec);
      if found {
        FirstConvergentAt(h, cos, sorts, spec, i);
        return CCvResult(true, Some(h.(poset := co)), Some(Serialize(h, arb)), Some(serializations));
      }
      i := i + 1;
    }
    FirstConvergentAt(h, cos, sorts, spec, i);
    return CCvResult(false, None, None, None);
  }

  /** `FirstConvergent` is the position `check_CCv`'s outer loop stops at. */
  lemma FirstConvergentAt<S>(h: History, cos: seq<Poset>, sorts: Poset -> seq<seq<OpId>>, spec: Specification<S>, i: nat)
    requires Built(h) && CandidatesOver(h, cos) && SortsCover(sorts) && i <= |cos|
    requires forall j :: 0 <= j < i ==> !Convergent(h, cos[j], sorts, spec)
    requires i < |cos| ==> Convergent(h, cos[i], sorts, spec)
    ensures FirstConvergent(h, cos, sorts, spec) == i
  {
  }
}
