// The run-ending conditions of the benchmark. The source stops the process
// at each of them (`abort` or a failed `assert`); the model returns them as
// values so that every path can be stated and checked.
module Failures {

  datatype Error =
    | MissingHeader                              // fewer than four bytes: no dimension word
    | UnreasonableDimension(d: int)              // dimension word outside 0 < d < 1000000
    | WeirdFileSize(size: nat, stride: nat)      // size not a whole number of records
    | IndexRejected                              // CREATE INDEX failed
    | DimensionMismatch(expected: nat, got: nat) // a vector file of the wrong dimension
    | QueryCountMismatch(queries: nat, truths: nat) // ground truth and queries disagree

  datatype Result<T> = Ok(value: T) | Err(error: Error)
}
