/** Failure-carrying datatypes and the error kinds raised by the data-preparation routines. */
module Wrappers {

  /** A value that may be missing: used for the bin a sample falls into. */
  datatype Option<+T> = None | Some(value: T)

  /** The value of a call that either returns normally or raises. */
  datatype Result<+R, +E> = Success(value: R) | Failure(error: E)

  /** The outcome of a check that returns nothing when it passes. */
  datatype Outcome<+E> = Pass | Fail(error: E)

  /** The exceptions the modelled routines can raise.
      - NotBinary: `ValueError('Input array must be binary')` from the state encoder;
      - ConsistencyViolated: an `assert` of the block-consistency check failed;
      - MissingKey: a `KeyError` on a block-count key the consistency check looks up;
      - BinsReadAsCounts: the `ValueError` of numpy's `histogram2d` when its `bins` list
        has only one or two entries, which numpy reads as per-axis bin counts instead of
        edges (a count list of the wrong length, or an axis with 0 bins). */
  datatype Error = NotBinary | ConsistencyViolated | MissingKey(key: nat) | BinsReadAsCounts
}
