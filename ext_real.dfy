/** Search values: a real number or one of the two sentinels `float("-inf")`
    and `float("inf")` that the searches start their running values from. */
module ExtReal {

  datatype Ext = NegInf | Fin(x: real) | PosInf

  /** The order Python's float comparison gives these values. */
  predicate Le(a: Ext, b: Ext) {
    a == NegInf || b == PosInf || (a.Fin? && b.Fin? && a.x <= b.x)
  }

  predicate Lt(a: Ext, b: Ext) {
    !Le(b, a)
  }

  /** Python's `max(a, b)`: the first argument unless the second is larger. */
  function Max(a: Ext, b: Ext): (r: Ext)
    ensures Le(a, r) && Le(b, r)
    ensures r == a || r == b
  {
    if Le(b, a) then a else b
  }

  /** Python's `min(a, b)`: the first argument unless the second is smaller. */
  function Min(a: Ext, b: Ext): (r: Ext)
    ensures Le(r, a) && Le(r, b)
    ensures r == a || r == b
  {
    if Le(a, b) then a else b
  }
}
