/** The search costs of the node updater are Java doubles. The model keeps the
    values the updater can meet (finite reals and positive infinity) and drops
    NaN, negative infinity and rounding. */
module ExtReals {

  /** A real number or +infinity: the values a cost, an estimate or the
      inflation factor can take here. */
  datatype ExtReal = Fin(r: real) | Inf

  /** Double addition on these values: infinity absorbs, otherwise the real sum. */
  function Add(a: ExtReal, b: ExtReal): ExtReal
  {
    match (a, b)
    case (Fin(x), Fin(y)) => Fin(x + y)
    case _ => Inf
  }

  /** Double's `<`: nothing is below a finite value except a smaller finite one,
      and +infinity is below nothing. */
  predicate Lt(a: ExtReal, b: ExtReal)
  {
    match a
    case Inf => false
    case Fin(x) => b.Inf? || x < b.r
  }

  predicate Le(a: ExtReal, b: ExtReal)
  {
    !Lt(b, a)
  }

  function Min(a: ExtReal, b: ExtReal): ExtReal
  {
    if Lt(b, a) then b else a
  }

  lemma LeTrans(a: ExtReal, b: ExtReal, c: ExtReal)
    requires Le(a, b) && Le(b, c)
    ensures Le(a, c)
  {
  }

  lemma LtLeTrans(a: ExtReal, b: ExtReal, c: ExtReal)
    requires Lt(a, b) && Le(b, c)
    ensures Lt(a, c)
  {
  }
}
