/** Python floats as they occur in the designspace code: finite values plus
    `-math.inf` and `math.inf`. NaN never arises in the modelled code. */
module ExtReal {

  import opened Basics

  datatype XReal = NegInf | Fin(r: real) | PosInf

  /** Python's `a <= b` on floats including the infinities. */
  predicate Le(a: XReal, b: XReal) {
    match (a, b)
    case (NegInf, _) => true
    case (_, PosInf) => true
    case (Fin(x), Fin(y)) => x <= y
    case _ => false
  }

  predicate Lt(a: XReal, b: XReal) {
    !Le(b, a)
  }

  /** Python's `max(a, b)`: the first argument unless the second is larger. */
  function Max(a: XReal, b: XReal): (m: XReal)
    ensures Le(a, m) && Le(b, m)
    ensures m == a || m == b
  {
    if Lt(a, b) then b else a
  }

  /** Python's `min(a, b)`: the first argument unless the second is smaller. */
  function Min(a: XReal, b: XReal): (m: XReal)
    ensures Le(m, a) && Le(m, b)
    ensures m == a || m == b
  {
    if Lt(b, a) then b else a
  }

  /** Python's `sorted((a, b))`, a stable sort of a pair. */
  function Sort2(a: XReal, b: XReal): (p: (XReal, XReal))
    ensures Le(p.0, p.1)
    ensures (p.0 == a && p.1 == b) || (p.0 == b && p.1 == a)
  {
    if Lt(b, a) then (b, a) else (a, b)
  }

  /** Python's `x or fallback` for an optional float: `None` and `0` are falsy. */
  function OrElse(x: Option<XReal>, fallback: XReal): (r: XReal)
    ensures x.Some? && x.value != Fin(0.0) ==> r == x.value
    ensures x.None? || x.value == Fin(0.0) ==> r == fallback
  {
    match x
    case Some(v) => if v == Fin(0.0) then fallback else v
    case None => fallback
  }

  lemma LeTotal(a: XReal, b: XReal)
    ensures Le(a, b) || Le(b, a)
  {
  }

  lemma LeTrans(a: XReal, b: XReal, c: XReal)
    requires Le(a, b) && Le(b, c)
    ensures Le(a, c)
  {
  }

  lemma LeAntisym(a: XReal, b: XReal)
    requires Le(a, b) && Le(b, a)
    ensures a == b
  {
  }
}
