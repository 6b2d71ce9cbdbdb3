/**
 * Distances of the shortest-path engine: natural numbers extended with the
 * JavaScript value `Infinity`, which the engine uses both for "no edge" in the
 * cost matrix and for "not reached yet" in the distance map.
 */
module ExtNats {
  datatype ExtNat = Fin(n: nat) | Inf

  /** JavaScript `+` on non-negative numbers and `Infinity`. */
  function Add(a: ExtNat, b: ExtNat): (r: ExtNat)
  {
    if a.Inf? || b.Inf? then Inf else Fin(a.n + b.n)
  }

  /** JavaScript `<=`; note that `Infinity <= Infinity` holds. */
  predicate Le(a: ExtNat, b: ExtNat)
  {
    b.Inf? || (a.Fin? && a.n <= b.n)
  }

  /** JavaScript `<`; note that `Infinity < Infinity` does not hold. */
  predicate Lt(a: ExtNat, b: ExtNat)
  {
    a.Fin? && (b.Inf? || a.n < b.n)
  }

  /** `<=` is a total order on distances with `Infinity` on top, which the minimum search relies on. */
  lemma LeTotalOrder(a: ExtNat, b: ExtNat, c: ExtNat)
    ensures Le(a, a) && Le(a, Inf)
    ensures Le(a, b) || Le(b, a)
    ensures Le(a, b) && Le(b, a) ==> a == b
    ensures Le(a, b) && Le(b, c) ==> Le(a, c)
  {
  }

  /**
   * `+` with a non-negative step: commutative, `0` is its identity, `Infinity`
   * absorbs, it never shortens a distance, and it keeps the order of distances.
   */
  lemma AddMonotone(a: ExtNat, b: ExtNat, c: ExtNat)
    ensures Add(a, b) == Add(b, a)
    ensures Add(a, Fin(0)) == a && Add(a, Inf) == Inf
    ensures Le(a, Add(a, c))
    ensures Le(a, b) ==> Le(Add(a, c), Add(b, c))
  {
  }

  /** The two comparisons agree: `<` is exactly the negation of the swapped `<=`. */
  lemma LtIsNotLe(a: ExtNat, b: ExtNat)
    ensures Lt(a, b) <==> !Le(b, a)
  {
  }
}
