/** Optional values. In this model `None` stands for the point where the
    Python code raises (an `IndexError`, a `ValueError`, a `TypeError`), so
    that every partial step of the source becomes a total function here. */
module Options {

  datatype Option<+T> = None | Some(value: T) {

    /** Lets `:-` propagate a `None`. */
    predicate IsFailure() {
      None?
    }

    function PropagateFailure<U>(): Option<U>
      requires None?
    {
      None
    }

    function Extract(): T
      requires Some?
    {
      value
    }
  }
}
