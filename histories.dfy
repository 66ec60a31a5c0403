/**
 * A history: the set of operation ids, the label of each id (its recorded
 * Operation, or the Instruction it is shown as) and an order over the ids.
 * A History is a value; restricting it builds a new one.
 */
module Histories {
  import opened Wrappers
  import opened Operations
  import opened Posets

  datatype History = History(operations: set<OpId>, labels: map<OpId, Entry>, poset: Poset)

  /** The per-process recorded sessions a history is built from. */
  type Trace = map<Process, seq<Entry>>

  /** Labels, ids and the order's universe agree, and the order stays inside it. */
  predicate WellFormed(h: History)
  {
    h.labels.Keys == h.operations && h.poset.elements == h.operations && EdgesWithin(h.poset)
  }

  /** Every label still shows its return. */
  predicate Recorded(h: History)
  {
    forall y :: y in h.labels ==> h.labels[y].Operation?
  }

  /** Every recorded entry of the trace is a full Operation. */
  predicate AllOperations(data: Trace)
  {
    forall p, i :: p in data && 0 <= i < |data[p]| ==> data[p][i].Operation?
  }

  /** `x` names a position of its process's session. */
  predicate InTrace(data: Trace, x: OpId)
  {
    x.process in data && 1 <= x.index <= |data[x.process]|
  }

  /** Program order: `x` and `y` belong to one session and `x` comes first. */
  predicate ProgramOrder(data: Trace, x: OpId, y: OpId)
  {
    x.process == y.process && x.process in data && 1 <= x.index < y.index <= |data[x.process]|
  }

  /** The recorded entry at a trace position, stamped with its op id. */
  function Stamped(data: Trace, x: OpId): Entry
    requires InTrace(data, x)
  {
    data[x.process][x.index - 1].(opId := Some(x))
  }

  /**
   * Build a history from per-process sessions: one id `process.(i+1)` per
   * entry, its label the entry with that id, and an order holding only the
   * program order of each session.
   */
  method NewHistory(data: Trace) returns (h: History)
    requires AllOperations(data)
    ensures forall x :: x in h.operations <==> InTrace(data, x)
    ensures h.labels.Keys == h.operations
    ensures forall p, i :: p in data && 0 <= i < |data[p]| ==>
      OpId(p, i + 1) in h.labels && h.labels[OpId(p, i + 1)] == data[p][i].(opId := Some(OpId(p, i + 1)))
    ensures h.poset.elements == h.operations
    ensures forall x, y :: (x, y) in h.poset.before <==> ProgramOrder(data, x, y)
    ensures WellFormed(h) && Recorded(h) && StrictOrder(h.poset)
  {
    var operations: set<OpId> := {};
    var labels: map<OpId, Entry> := map[];
    var todo := data.Keys;
    while todo != {}
      invariant todo <= data.Keys
      invariant forall x :: x in operations <==> InTrace(data, x) && x.process !in todo
      invariant labels.Keys == operations
      invariant forall x :: x in labels ==> InTrace(data, x) && labels[x] == Stamped(data, x)
      decreases todo
    {
      var process :| process in todo;
      var ops := data[process];
      var i := 0;
      while i < |ops|
        invariant 0 <= i <= |ops|
        invariant forall x :: x in operations <==>
          (InTrace(data, x) && x.process !in todo) || (x.process == process && 1 <= x.index <= i)
        invariant labels.Keys == operations
        invariant forall x :: x in labels ==> InTrace(data, x) && labels[x] == Stamped(data, x)
      {
        var opId := OpId(process, i + 1);
        operations := operations + {opId};
        labels := labels[opId := ops[i].(opId := Some(opId))];
        i := i + 1;
      }
      todo := todo - {process};
    }

    var poset := Poset(operations, {});
    todo := data.Keys;
    while todo != {}
      invariant todo <= data.Keys
      invariant poset.elements == operations
      invariant forall x, y :: (x, y) in poset.before <==> ProgramOrder(data, x, y) && x.process !in todo
      decreases todo
    {
      var process :| process in todo;
      var ops := data[process];
      var i := 0;
      while i < |ops| - 1
        invariant 0 <= i && (i == 0 || i < |ops|)
        invariant poset.elements == operations
        invariant OrderedUpTo(data, todo, process, i, poset.before)
      {
        var a, b := OpId(process, i + 1), OpId(process, i + 2);
        OrderedStep(data, todo, process, i, poset);
        poset := OrderTry(poset, a, b);
        i := i + 1;
      }
      assert forall x: OpId, y: OpId ::
        (x.process == process && y.process == process && 1 <= x.index < y.index <= i + 1)
        <==> (ProgramOrder(data, x, y) && x.process == process);
      todo := todo - {process};
    }
    h := History(operations, labels, poset);
  }

  /**
   * The pairs the second loop of `NewHistory` holds while it chains
   * `process`: program order within the sessions already done, and within
   * `process` up to `process.(i+1)`.
   */
  ghost predicate OrderedUpTo(data: Trace, todo: set<Process>, process: Process, i: nat, before: set<(OpId, OpId)>)
  {
    forall x, y :: (x, y) in before <==>
      (ProgramOrder(data, x, y) && x.process !in todo)
      || (x.process == process && y.process == process && 1 <= x.index < y.index <= i + 1)
  }

  /** Ordering `process.(i+1)` before `process.(i+2)` extends the chain by one. */
  lemma OrderedStep(data: Trace, todo: set<Process>, process: Process, i: nat, p: Poset)
    requires process in todo && process in data && i + 1 < |data[process]|
    requires OrderedUpTo(data, todo, process, i, p.before)
    ensures OrderTry(p, OpId(process, i + 1), OpId(process, i + 2)).elements == p.elements
    ensures OrderedUpTo(data, todo, process, i + 1, OrderTry(p, OpId(process, i + 1), OpId(process, i + 2)).before)
  {
    var a, b := OpId(process, i + 1), OpId(process, i + 2);
    assert (b, a) !in p.before;
    OrderTryPairs(p, a, b);
  }

  /**
   * The order `NewHistory` builds is exactly the transitive closure of the
   * chain edges `process.i -> process.(i+1)`: it holds each of them, it is
   * transitive, and any transitive relation holding them holds all of it.
   */
  lemma {:induction false} ProgramOrderIsChainClosure(data: Trace, r: set<(OpId, OpId)>)
    requires forall p, i :: p in data && 1 <= i < |data[p]| ==> (OpId(p, i), OpId(p, i + 1)) in r
    requires forall x, y, z :: (x, y) in r && (y, z) in r ==> (x, z) in r
    ensures forall p, i :: p in data && 1 <= i < |data[p]| ==> ProgramOrder(data, OpId(p, i), OpId(p, i + 1))
    ensures forall x, y, z :: ProgramOrder(data, x, y) && ProgramOrder(data, y, z) ==> ProgramOrder(data, x, z)
    ensures forall x, y :: ProgramOrder(data, x, y) ==> (x, y) in r
  {
    forall x, y | ProgramOrder(data, x, y) ensures (x, y) in r {
      ChainReaches(data, r, x.process, x.index, y.index);
    }
  }

  lemma {:induction false} ChainReaches(data: Trace, r: set<(OpId, OpId)>, p: Process, a: nat, b: nat)
    requires forall p, i :: p in data && 1 <= i < |data[p]| ==> (OpId(p, i), OpId(p, i + 1)) in r
    requires forall x, y, z :: (x, y) in r && (y, z) in r ==> (x, z) in r
    requires p in data && 1 <= a < b <= |data[p]|
    ensures (OpId(p, a), OpId(p, b)) in r
    decreases b - a
  {
    if b > a + 1 {
      ChainReaches(data, r, p, a, b - 1);
      assert (OpId(p, b - 1), OpId(p, b)) in r;
    }
  }

  /**
   * The causal view of `x`: ids and order restricted to `x`'s causal past;
   * every label keeps its key, and shows its return only when its id is in
   * `retSet`.
   */
  function CausalHist(h: History, x: OpId, retSet: set<OpId>): (r: History)
    requires forall y :: y in h.labels && y !in retSet ==> h.labels[y].Operation?
    ensures x in r.operations
    ensures forall y :: y in r.operations <==> y == x || (y, x) in h.poset.before
    ensures r.poset == Subset(h.poset, r.operations)
    ensures r.labels.Keys == h.labels.Keys
    ensures forall y :: y in h.labels && y in retSet ==> r.labels[y] == h.labels[y]
    ensures forall y :: y in h.labels && y !in retSet ==>
      r.labels[y].Instruction? && r.labels[y].call == h.labels[y].call && r.labels[y].opId == h.labels[y].opId
    ensures Recorded(h) ==> forall y :: y in r.labels ==> (r.labels[y].Operation? <==> y in retSet)
  {
    var p := Predecessors(h.poset, x);
    History(p,
            map y | y in h.labels :: if y in retSet then h.labels[y] else ToInstruction(h.labels[y]),
            Subset(h.poset, p))
  }

  /** The log a serialization order `ro` stands for: the label of each id in turn. */
  function Serialize(h: History, ro: seq<OpId>): (log: seq<Entry>)
    requires forall o :: o in ro ==> o in h.labels
    ensures |log| == |ro| && forall i :: 0 <= i < |ro| ==> log[i] == h.labels[ro[i]]
  {
    seq(|ro|, i requires 0 <= i < |ro| => h.labels[ro[i]])
  }

  /** The elements of `s` that are in `keep`, in the order of `s`. */
  function Filter(s: seq<OpId>, keep: set<OpId>): (r: seq<OpId>)
    ensures forall y :: y in r <==> y in s && y in keep
  {
    if s == [] then [] else (if s[0] in keep then [s[0]] else []) + Filter(s[1..], keep)
  }

  /** The positions at or after `start` of the elements of `s` that `keep` holds, in order. */
  ghost function KeptPositions(s: seq<OpId>, keep: set<OpId>, start: nat): seq<nat>
    requires start <= |s|
    decreases |s| - start
  {
    if start == |s| then []
    else if s[start] in keep then [start] + KeptPositions(s, keep, start + 1)
    else KeptPositions(s, keep, start + 1)
  }

  /** `idx` lists, in strictly increasing order, exactly the positions at or after `start` whose element is kept. */
  ghost predicate KeptExactly(s: seq<OpId>, keep: set<OpId>, start: nat, idx: seq<nat>)
  {
    && (forall k :: 0 <= k < |idx| ==> start <= idx[k] < |s| && s[idx[k]] in keep)
    && (forall k, m :: 0 <= k < m < |idx| ==> idx[k] < idx[m])
    && (forall j :: start <= j < |s| && s[j] in keep ==> j in idx)
  }

  /** The kept positions are strictly increasing, and are exactly the positions whose element is kept. */
  lemma {:induction false} KeptPositionsExact(s: seq<OpId>, keep: set<OpId>, start: nat)
    requires start <= |s|
    ensures KeptExactly(s, keep, start, KeptPositions(s, keep, start))
    decreases |s| - start
  {
    if start < |s| {
      KeptPositionsExact(s, keep, start + 1);
      if s[start] in keep {
        KeptExactlyTake(s, keep, start, KeptPositions(s, keep, start + 1));
      } else {
        KeptExactlySkip(s, keep, start, KeptPositions(s, keep, start + 1));
      }
    }
  }

  /** A kept element's position goes in front of the later kept positions. */
  lemma KeptExactlyTake(s: seq<OpId>, keep: set<OpId>, start: nat, idx: seq<nat>)
    requires start < |s| && s[start] in keep && KeptExactly(s, keep, start + 1, idx)
    ensures KeptExactly(s, keep, start, [start] + idx)
  {
    var ix := [start] + idx;
    assert forall k :: 0 < k < |ix| ==> ix[k] == idx[k - 1];
    forall j | start <= j < |s| && s[j] in keep
      ensures j in ix
    {
      if j > start {
        assert j in idx;
      }
    }
  }

  /** A dropped element's position adds nothing. */
  lemma KeptExactlySkip(s: seq<OpId>, keep: set<OpId>, start: nat, idx: seq<nat>)
    requires start < |s| && s[start] !in keep && KeptExactly(s, keep, start + 1, idx)
    ensures KeptExactly(s, keep, start, idx)
  {
    forall j | start <= j < |s| && s[j] in keep
      ensures j in idx
    {
      assert j != start;
    }
  }

  /**
   * `Filter` is the subsequence of `s` at the kept positions: the relative
   * order of `s` is preserved.
   */
  lemma {:induction false} FilterIsSubsequence(s: seq<OpId>, keep: set<OpId>, start: nat)
    requires start <= |s|
    ensures |Filter(s[start..], keep)| == |KeptPositions(s, keep, start)|
    ensures forall k :: 0 <= k < |KeptPositions(s, keep, start)| ==>
      KeptPositions(s, keep, start)[k] < |s| && Filter(s[start..], keep)[k] == s[KeptPositions(s, keep, start)[k]]
    decreases |s| - start
  {
    if start < |s| {
      FilterIsSubsequence(s, keep, start + 1);
      FilterCons(s, keep, start);
      if s[start] in keep {
        PickedPrepend(s, start, Filter(s[start + 1..], keep), KeptPositions(s, keep, start + 1));
      }
    }
  }

  /** One step of `Filter` on a suffix of `s`. */
  lemma FilterCons(s: seq<OpId>, keep: set<OpId>, start: nat)
    requires start < |s|
    ensures Filter(s[start..], keep) == (if s[start] in keep then [s[start]] else []) + Filter(s[start + 1..], keep)
  {
    assert s[start..][1..] == s[start + 1..];
  }

  /** Picking `s` at `idx` gives `picked`; then picking at `a` first gives `s[a]` first. */
  lemma PickedPrepend(s: seq<OpId>, a: nat, picked: seq<OpId>, idx: seq<nat>)
    requires a < |s| && |picked| == |idx|
    requires forall k :: 0 <= k < |idx| ==> idx[k] < |s| && picked[k] == s[idx[k]]
    ensures forall k :: 0 <= k < |idx| + 1 ==> ([a] + idx)[k] < |s| && ([s[a]] + picked)[k] == s[([a] + idx)[k]]
  {
    forall k | 0 <= k < |idx| + 1
      ensures ([a] + idx)[k] < |s| && ([s[a]] + picked)[k] == s[([a] + idx)[k]]
    {
      if k > 0 {
        assert ([a] + idx)[k] == idx[k - 1] && ([s[a]] + picked)[k] == picked[k - 1];
      }
    }
  }

  /** The first position of `x` in `s`, as the source's `list.index`. */
  function IndexOf(s: seq<OpId>, x: OpId): (k: nat)
    requires x in s
    ensures k < |s| && s[k] == x && x !in s[..k]
  {
    if s[0] == x then 0 else 1 + IndexOf(s[1..], x)
  }

  /** `arb` restricted to the causal past of `x`, cut just after `x`. */
  function CausalPrefix(h: History, x: OpId, arb: seq<OpId>): (pre: seq<OpId>)
    requires x in arb
    ensures |pre| >= 1 && pre[|pre| - 1] == x && x !in pre[..|pre| - 1]
    ensures forall y :: y in pre ==> y in arb && (y == x || (y, x) in h.poset.before)
  {
    var f := Filter(arb, Predecessors(h.poset, x));
    f[..IndexOf(f, x) + 1]
  }

  /**
   * The causal prefix is complete: it holds exactly the ids of `arb` up to
   * the first `x` that are `x` or ordered before it.
   */
  lemma CausalPrefixExact(h: History, x: OpId, arb: seq<OpId>)
    requires x in arb
    ensures forall y :: y in CausalPrefix(h, x, arb) <==>
      y in arb[..IndexOf(arb, x) + 1] && (y == x || (y, x) in h.poset.before)
  {
    FilterPrefixExact(arb, Predecessors(h.poset, x), x);
  }

  /** Filtering `s` and cutting after the first `x` keeps exactly the kept elements of `s` up to its first `x`. */
  lemma FilterPrefixExact(s: seq<OpId>, keep: set<OpId>, x: OpId)
    requires x in s && x in keep
    ensures x in Filter(s, keep)
    ensures forall y :: y in Filter(s, keep)[..IndexOf(Filter(s, keep), x) + 1] <==> y in s[..IndexOf(s, x) + 1] && y in keep
  {
    var f := Filter(s, keep);
    var idx := Picks(s, keep);
    var j := IndexOf(s, x);
    var k2 := KeptIndexOf(s, keep, idx, j);
    FirstKeptAt(s, keep, f, idx, x, j, k2);
    forall y
      ensures y in f[..k2 + 1] <==> y in s[..j + 1] && y in keep
    {
      KeptUpTo(s, keep, f, idx, j, k2, y);
    }
  }

  /** The positions `Filter` picks from `s`: increasing, exactly the kept ones, and holding its elements in turn. */
  lemma Picks(s: seq<OpId>, keep: set<OpId>) returns (idx: seq<nat>)
    ensures KeptExactly(s, keep, 0, idx) && |Filter(s, keep)| == |idx|
    ensures forall k :: 0 <= k < |idx| ==> idx[k] < |s| && Filter(s, keep)[k] == s[idx[k]]
  {
    idx := KeptPositions(s, keep, 0);
    KeptPositionsExact(s, keep, 0);
    assert s[0..] == s;
    FilterIsSubsequence(s, keep, 0);
  }

  /** The kept position `j` is picked by some pick. */
  lemma KeptIndexOf(s: seq<OpId>, keep: set<OpId>, idx: seq<nat>, j: nat) returns (k: nat)
    requires KeptExactly(s, keep, 0, idx) && j < |s| && s[j] in keep
    ensures k < |idx| && idx[k] == j
  {
    assert j in idx;
    k :| 0 <= k < |idx| && idx[k] == j;
  }

  /** In the picked subsequence, `x` is first met where its first position in `arb` was picked. */
  lemma FirstKeptAt(arb: seq<OpId>, keep: set<OpId>, f: seq<OpId>, idx: seq<nat>, x: OpId, j: nat, k2: nat)
    requires KeptExactly(arb, keep, 0, idx) && |f| == |idx|
    requires forall k :: 0 <= k < |idx| ==> idx[k] < |arb| && f[k] == arb[idx[k]]
    requires j < |arb| && arb[j] == x && x !in arb[..j] && k2 < |idx| && idx[k2] == j
    ensures x in f && IndexOf(f, x) == k2
  {
    assert f[k2] == x;
    var n := IndexOf(f, x);
  }

  /** The picked elements up to the `k2`-th pick are the kept elements up to its position `j`. */
  lemma KeptUpTo(arb: seq<OpId>, keep: set<OpId>, f: seq<OpId>, idx: seq<nat>, j: nat, k2: nat, y: OpId)
    requires KeptExactly(arb, keep, 0, idx) && |f| == |idx|
    requires forall k :: 0 <= k < |idx| ==> idx[k] < |arb| && f[k] == arb[idx[k]]
    requires j < |arb| && k2 < |idx| && idx[k2] == j
    ensures y in f[..k2 + 1] <==> y in arb[..j + 1] && y in keep
  {
    if y in f[..k2 + 1] {
      var k :| 0 <= k <= k2 && f[..k2 + 1][k] == y;
      assert k == k2 || idx[k] < idx[k2];
      assert arb[..j + 1][idx[k]] == y;
    }
    if y in arb[..j + 1] && y in keep {
      var i :| 0 <= i <= j && arb[..j + 1][i] == y;
      assert i in idx;
      var k1 :| 0 <= k1 < |idx| && idx[k1] == i;
      assert f[..k2 + 1][k1] == y;
    }
  }

  /** The source's demand on `causal_arb`: each id of the prefix is labelled by an Operation. */
  predicate ArbLabelled(h: History, x: OpId, arb: seq<OpId>)
    requires x in arb
  {
    forall o :: o in CausalPrefix(h, x, arb) ==> o in h.labels && h.labels[o].Operation?
  }

  /**
   * The causal-arbitration view of `x` under the total order `arb`: the
   * prefix of `x`'s causal past in `arb`, every entry hiding its return
   * except the last, which is `x`'s full label.
   */
  function CausalArbView(h: History, x: OpId, arb: seq<OpId>): (r: seq<Entry>)
    requires x in arb && ArbLabelled(h, x, arb)
    ensures |r| == |CausalPrefix(h, x, arb)|
    ensures x in h.labels && r[|r| - 1] == h.labels[x]
    ensures forall i :: 0 <= i < |r| - 1 ==>
      && CausalPrefix(h, x, arb)[i] in h.labels
      && r[i].Instruction?
      && r[i].call == h.labels[CausalPrefix(h, x, arb)[i]].call
      && r[i].opId == h.labels[CausalPrefix(h, x, arb)[i]].opId
  {
    var pre := CausalPrefix(h, x, arb);
    seq(|pre|, i requires 0 <= i < |pre| => if i == |pre| - 1 then h.labels[x] else ToInstruction(h.labels[pre[i]]))
  }

  /** `causal_arb`: build the prefix view with every return hidden, then overwrite the last entry. */
  method CausalArb(h: History, x: OpId, arb: seq<OpId>) returns (history: seq<Entry>)
    requires x in arb && ArbLabelled(h, x, arb)
    ensures history == CausalArbView(h, x, arb)
  {
    var p := Predecessors(h.poset, x);
    var filtered := Filter(arb, p);
    var idx := IndexOf(filtered, x);
    var prefix := filtered[..idx + 1];
    PrefixLabelled(h, x, arb);
    history := seq(idx + 1, i requires 0 <= i < idx + 1 => ToInstruction(h.labels[prefix[i]]));
    OverwriteGivesView(h, x, arb, prefix, history);
    history := history[idx := h.labels[x]];
  }

  /** Overwriting the last entry of the all-Instruction prefix with `x`'s label gives the causal-arbitration view. */
  lemma OverwriteGivesView(h: History, x: OpId, arb: seq<OpId>, prefix: seq<OpId>, built: seq<Entry>)
    requires x in arb && ArbLabelled(h, x, arb)
    requires prefix == CausalPrefix(h, x, arb) && |built| == |prefix|
    requires forall i :: 0 <= i < |prefix| ==>
      prefix[i] in h.labels && h.labels[prefix[i]].Operation? && built[i] == ToInstruction(h.labels[prefix[i]])
    ensures x in h.labels
    ensures built[|built| - 1 := h.labels[x]] == CausalArbView(h, x, arb)
  {
    assert prefix[|prefix| - 1] == x;
    var view, r := CausalArbView(h, x, arb), built[|built| - 1 := h.labels[x]];
    assert forall i :: 0 <= i < |r| ==> r[i] == view[i];
  }

  /** The ids `causal_arb` keeps are `CausalPrefix`, each labelled by an Operation. */
  lemma PrefixLabelled(h: History, x: OpId, arb: seq<OpId>)
    requires x in arb && ArbLabelled(h, x, arb)
    ensures x in Filter(arb, Predecessors(h.poset, x))
    ensures Filter(arb, Predecessors(h.poset, x))[..IndexOf(Filter(arb, Predecessors(h.poset, x)), x) + 1] == CausalPrefix(h, x, arb)
    ensures forall i :: 0 <= i < |CausalPrefix(h, x, arb)| ==>
      CausalPrefix(h, x, arb)[i] in h.labels && h.labels[CausalPrefix(h, x, arb)[i]].Operation?
  {
    var pre := CausalPrefix(h, x, arb);
    assert forall i :: 0 <= i < |pre| ==> pre[i] in pre;
  }
}
