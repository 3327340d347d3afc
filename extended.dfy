/**
 * Integers extended with the two float infinities that the search code uses as
 * sentinels (`-inf` for an unset best bound, `+inf` for an unset worst bound).
 */
module Extended {

  datatype ExtInt = NegInf | Fin(v: int) | PosInf

  /** The order Python's float comparison gives these values. */
  predicate Less(a: ExtInt, b: ExtInt)
  {
    match (a, b)
    case (NegInf, NegInf) => false
    case (NegInf, _) => true
    case (Fin(x), Fin(y)) => x < y
    case (Fin(_), PosInf) => true
    case (_, _) => false
  }

  predicate LessEq(a: ExtInt, b: ExtInt)
  {
    a == b || Less(a, b)
  }

  /** `if v > a then v else a`, as the best-bound update writes it. */
  function Max(a: ExtInt, v: int): (r: ExtInt)
    ensures LessEq(a, r) && LessEq(Fin(v), r)
    ensures r == a || r == Fin(v)
  {
    if Less(a, Fin(v)) then Fin(v) else a
  }

  /** `if v < a then v else a`, as the worst-bound update writes it. */
  function Min(a: ExtInt, v: int): (r: ExtInt)
    ensures LessEq(r, a) && LessEq(r, Fin(v))
    ensures r == a || r == Fin(v)
  {
    if Less(Fin(v), a) then Fin(v) else a
  }

  lemma LessEqTrans(a: ExtInt, b: ExtInt, c: ExtInt)
    requires LessEq(a, b) && LessEq(b, c)
    ensures LessEq(a, c)
  {
  }

  /** Applying two values to a bound gives the same bound in either order. */
  lemma MaxMinCommute(a: ExtInt, v1: int, v2: int)
    ensures Max(Max(a, v1), v2) == Max(Max(a, v2), v1)
    ensures Min(Min(a, v1), v2) == Min(Min(a, v2), v1)
  {
  }

  /** Raising (lowering) two ordered bounds by the same value keeps them ordered. */
  lemma MaxMinMonotone(a: ExtInt, b: ExtInt, v: int)
    requires LessEq(a, b)
    ensures LessEq(Max(a, v), Max(b, v))
    ensures LessEq(Min(a, v), Min(b, v))
  {
  }
}
