/** Path lengths as the editors use them: a finite number or "no path" (JavaScript's
    Infinity), with the arithmetic and comparisons the algorithms apply to them. */
module Distance {

  datatype Option<T> = None | Some(value: T)

  /** A distance: finite, or unreachable. */
  datatype Dist = Fin(v: int) | Inf

  /** `a + b` where an infinite operand absorbs the other one. */
  function Add(a: Dist, b: Dist): Dist
  {
    if a.Inf? || b.Inf? then Inf else Fin(a.v + b.v)
  }

  /** JavaScript's strict `<` on numbers extended with Infinity. */
  predicate Less(a: Dist, b: Dist)
  {
    match a
    case Inf => false
    case Fin(x) => b.Inf? || x < b.v
  }

  predicate Le(a: Dist, b: Dist)
  {
    !Less(b, a)
  }

  /** `Math.min`. */
  function Min(a: Dist, b: Dist): Dist
  {
    if Less(b, a) then b else a
  }

  predicate NonNeg(d: Dist)
  {
    d.Fin? ==> d.v >= 0
  }

  lemma LeTrans(a: Dist, b: Dist, c: Dist)
    requires Le(a, b) && Le(b, c)
    ensures Le(a, c)
  {
  }

  lemma AddMono(a: Dist, b: Dist, c: Dist, d: Dist)
    requires Le(a, c) && Le(b, d)
    ensures Le(Add(a, b), Add(c, d))
  {
  }

  lemma AddAssoc(a: Dist, b: Dist, c: Dist)
    ensures Add(Add(a, b), c) == Add(a, Add(b, c))
  {
  }

  /** Adding a non-negative distance never makes a distance smaller. */
  lemma AddNonNeg(a: Dist, b: Dist)
    requires NonNeg(b)
    ensures Le(a, Add(a, b))
  {
  }
}
