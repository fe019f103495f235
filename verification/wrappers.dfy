/** Failure-carrying results for the exceptions (Python) and panics (Rust)
    that the modelled code can raise. */
module Wrappers {

  /** The ways a modelled operation can end abnormally. */
  datatype Error =
    | IndexError          // Python: indexing an empty string or list
    | StopIteration       // Python: `next` on an exhausted iterator, no default
    | InvalidSampleSize   // Python: `random.sample` with a size outside [0, population]
    | SliceOutOfRange     // Rust: `&s[a..]` or `&s[a..b]` past the end of the string
    | SubtractOverflow    // Rust (debug build): `usize` subtraction below zero
    | NonTermination      // a loop whose index never advances

  datatype Result<+T> = Ok(value: T) | Err(error: Error) {

    predicate IsFailure() {
      Err?
    }

    function PropagateFailure<U>(): Result<U>
      requires Err?
    {
      Err(error)
    }

    function Extract(): T
      requires Ok?
    {
      value
    }
  }

  datatype Option<+T> = None | Some(value: T)
}
