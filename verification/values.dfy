/** Values shared by the whole agent: optional values, Python exceptions as
    results, and the extended integers the search compares, where the
    source's float("infinity") and -float("infinity") live beside the
    integer scores that evaluation produces. */
module Values {

  datatype Option<T> = None | Some(value: T)

  /** A computation that either returns a value or raises, as Python does. */
  datatype Result<T> = Ok(value: T) | Failure(error: string)

  /** Integer scores extended with the two infinities. */
  datatype Ext = NegInf | Fin(v: int) | PosInf

  /** The total order of the extended integers. */
  predicate Le(a: Ext, b: Ext) {
    match (a, b)
    case (NegInf, _) => true
    case (_, PosInf) => true
    case (Fin(x), Fin(y)) => x <= y
    case _ => false
  }

  predicate Lt(a: Ext, b: Ext) {
    !Le(b, a)
  }

  /** Python's min(a, b): the first argument wins a tie. */
  function Min(a: Ext, b: Ext): (r: Ext)
    ensures Le(r, a) && Le(r, b)
    ensures r == a || r == b
  {
    if Le(a, b) then a else b
  }

  /** Python's max(a, b). */
  function Max(a: Ext, b: Ext): (r: Ext)
    ensures Le(a, r) && Le(b, r)
    ensures r == a || r == b
  {
    if Le(b, a) then a else b
  }

  lemma LeTotalOrder(a: Ext, b: Ext, c: Ext)
    ensures Le(a, a)
    ensures Le(a, b) || Le(b, a)
    ensures Le(a, b) && Le(b, a) ==> a == b
    ensures Le(a, b) && Le(b, c) ==> Le(a, c)
  {
  }
}
