/** The "not found" outcome of the reconciler's look-ahead (`FindPureNegative`)
    and of the identifier's per-slot scan (`FirstWithin`). */
module Optional {

  datatype Option<+T> = None | Some(value: T)

}
