/** Small value types shared by every part of the model. */
module Common {

  /** Python's `None`-or-value: `None` stands for a missing name, an unset
      criterion, an unlinked NEO, or a not-a-number float. */
  datatype Option<+T> = None | Some(value: T)

  /** A computation that either produces a value or raises the given error. */
  datatype Result<+T, +E> = Ok(value: T) | Err(error: E)

  /** A Python generator, observed to the end: the values it yielded, in order,
      and the exception it raised after them, if any. */
  datatype Stream<+T, +E> = Stream(items: seq<T>, raised: Option<E>)
}
