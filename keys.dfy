/** Keys of the heap: Python integers, plus the `-inf` value that `delete`
    writes into a node so that it rises to the top of its tree. */
module Keys {

  datatype Key = NegInf | Fin(value: int)

  /** Python's `<` between two keys (`-inf` is below every integer). */
  predicate Less(a: Key, b: Key) {
    match a
    case NegInf => b.Fin?
    case Fin(x) => b.Fin? && x < b.value
  }

  /** Python's `<=` between two keys. */
  predicate LessEq(a: Key, b: Key) {
    !Less(b, a)
  }
}
