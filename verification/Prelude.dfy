/** Small shared vocabulary: optional values and the errors the writer can report. */
module Prelude {

  datatype Option<+T> = None | Some(value: T)

  /** The failures of `src/error.rs` that the modelled operations can produce. */
  datatype Error =
    | Ipv6InIpv4Tree
    | InvalidRange
    | AliasedNetwork
    | ReservedNetwork
    | TreeTooLarge

  datatype Result<+T> = Ok(value: T) | Err(error: Error)

  /** Five pieces put together in two ways. */
  lemma Regroup<T>(a: seq<T>, b: seq<T>, c: seq<T>, d: seq<T>, e: seq<T>)
    ensures a + (b + c + d) + e == (a + b) + c + (d + e)
    ensures a + (b + c + d) + e == (a + b + c) + d + e
    ensures b != [] ==> (a + (b + c + d) + e)[|a|] == b[0]
  {
  }
}
