/**
 * The partial-order engine the checkers consume, stated abstractly: a poset
 * is its universe together with its strict order, kept transitively closed,
 * as a set of (earlier, later) pairs. Enumerating refinements and linear
 * extensions is not modelled here; the checkers receive those as inputs.
 */
module Posets {
  import opened Operations

  datatype Poset = Poset(elements: set<OpId>, before: set<(OpId, OpId)>)

  /** Every ordered pair relates two elements of the universe. */
  predicate EdgesWithin(p: Poset)
  {
    forall e :: e in p.before ==> e.0 in p.elements && e.1 in p.elements
  }

  /** `before` is an irreflexive, transitive relation over the universe. */
  ghost predicate StrictOrder(p: Poset)
  {
    && EdgesWithin(p)
    && (forall x :: (x, x) !in p.before)
    && (forall x, y, z :: (x, y) in p.before && (y, z) in p.before ==> (x, z) in p.before)
  }

  /** `co` keeps the universe of `po` and all of its ordering, and is itself a strict order. */
  ghost predicate Refines(co: Poset, po: Poset)
  {
    co.elements == po.elements && po.before <= co.before && StrictOrder(co)
  }

  /** The reflexive causal past of `x`: `x` itself and everything ordered before it. */
  function Predecessors(p: Poset, x: OpId): (r: set<OpId>)
    ensures forall y :: y in r <==> y == x || (y, x) in p.before
  {
    {x} + set e | e in p.before && e.1 == x :: e.0
  }

  /** The reflexive causal future of `x`. */
  function Successors(p: Poset, x: OpId): (r: set<OpId>)
    ensures forall y :: y in r <==> y == x || (x, y) in p.before
  {
    {x} + set e | e in p.before && e.0 == x :: e.1
  }

  /** The order induced on `ids`. */
  function Subset(p: Poset, ids: set<OpId>): (r: Poset)
    ensures r.elements == ids
    ensures forall a, b :: (a, b) in r.before <==> (a, b) in p.before && a in ids && b in ids
  {
    Poset(ids, set e | e in p.before && e.0 in ids && e.1 in ids)
  }

  /**
   * Try to add `a` before `b`: refused (no change) when that would close a
   * cycle, otherwise the pair is added together with everything transitivity
   * then demands.
   */
  function OrderTry(p: Poset, a: OpId, b: OpId): (r: Poset)
    ensures r.elements == p.elements && p.before <= r.before
    ensures a == b || (b, a) in p.before ==> r == p
    ensures a != b && (b, a) !in p.before ==> (a, b) in r.before
  {
    if a == b || (b, a) in p.before then p
    else Poset(p.elements, p.before + set x, y | x in Predecessors(p, a) && y in Successors(p, b) :: (x, y))
  }

  /** The pairs of a successful `OrderTry`: the old ones and those from the past of `a` to the future of `b`. */
  lemma OrderTryPairs(p: Poset, a: OpId, b: OpId)
    requires a != b && (b, a) !in p.before
    ensures OrderTry(p, a, b).elements == p.elements
    ensures forall x, y :: (x, y) in OrderTry(p, a, b).before <==>
      (x, y) in p.before || ((x == a || (x, a) in p.before) && (y == b || (b, y) in p.before))
  {
    var r := OrderTry(p, a, b);
    forall x, y
      ensures (x, y) in r.before <==>
        (x, y) in p.before || ((x == a || (x, a) in p.before) && (y == b || (b, y) in p.before))
    {
      if (x == a || (x, a) in p.before) && (y == b || (b, y) in p.before) {
        assert x in Predecessors(p, a) && y in Successors(p, b);
      }
    }
  }

  /**
   * Adding a pair between two elements of a strict order, when it is not
   * refused, gives a strict order that contains the old one and the new pair.
   */
  lemma OrderTryKeepsStrictOrder(p: Poset, a: OpId, b: OpId)
    requires StrictOrder(p) && a in p.elements && b in p.elements
    ensures StrictOrder(OrderTry(p, a, b))
    ensures p.before <= OrderTry(p, a, b).before
    ensures a != b && (b, a) !in p.before ==> (a, b) in OrderTry(p, a, b).before
  {
    if a != b && (b, a) !in p.before {
      OrderTryPairs(p, a, b);
      var r := OrderTry(p, a, b);
      assert forall x :: (x, x) !in r.before;
      forall x, y, z | (x, y) in r.before && (y, z) in r.before ensures (x, z) in r.before {
        if (x, y) in p.before && (y, z) in p.before {
        } else if (x, y) in p.before {
          // (y, z) is new: y is at or before a, so x is too
          assert (y == a || (y, a) in p.before) && (z == b || (b, z) in p.before);
        } else if (y, z) in p.before {
          assert (x == a || (x, a) in p.before) && (y == b || (b, y) in p.before);
        }
      }
    }
  }

  /**
   * `ro` lists every element of `p` exactly once, and lists `a` before `b`
   * whenever `p` orders `a` before `b`.
   */
  ghost predicate IsLinearExtension(ro: seq<OpId>, p: Poset)
  {
    && (forall i, j :: 0 <= i < j < |ro| ==> ro[i] != ro[j])
    && (forall y :: y in ro <==> y in p.elements)
    && (forall i, j :: 0 <= i < |ro| && 0 <= j < |ro| && (ro[i], ro[j]) in p.before ==> i < j)
  }
}
