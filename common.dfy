/** Shared value types of the reconciliation pipeline: optional cells, results with an
    error path, and the rows of the tables that the pipeline builds. */
module Common {

  /** A table cell that may be null (pandas NaN / Python None). */
  datatype Option<+T> = None | Some(value: T)

  /** The outcome of a step that can abort the run. */
  datatype Result<+T, +E> = Success(value: T) | Failure(error: E) {
    predicate IsFailure() { Failure? }

    function PropagateFailure<U>(): Result<U, E>
      requires Failure?
    {
      Failure(error)
    }

    function Extract(): T
      requires Success?
    {
      value
    }
  }

  /** The group-by key (card, variation, set_id, foil); a null cell is `None`, and two
      `None` cells compare equal, as pandas does with `dropna=False` and in `merge`. */
  datatype Key = Key(card: string, variation: Option<string>, setId: Option<string>, foil: string)

  /** A row over the five merge columns card, variation, set_id, foil, quantity. */
  datatype Row = Row(key: Key, quantity: int)

  /** The last element of a sequence adds one occurrence of itself. */
  lemma CountSnoc<T>(xs: seq<T>, x: T)
    requires xs != []
    ensures multiset(xs)[x] == multiset(xs[..|xs| - 1])[x] + if x == xs[|xs| - 1] then 1 else 0
  {
    assert xs == xs[..|xs| - 1] + [xs[|xs| - 1]];
  }
}
