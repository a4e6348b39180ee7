/**
 The crate's error vocabulary (src/error.rs, src/context.rs) and the two
 failure-compatible wrappers every parser here returns.
 */
module Errors {

  datatype Option<+T> = None | Some(value: T)

  /** The part of a URI an error was found in. */
  datatype Context =
    | InFragment | InHost | InIpv4Address | InIpv6Address | InIpvFuture
    | InPath | InQuery | InScheme | InUserinfo

  datatype Error =
    | EmptyScheme
    | IllegalCharacter(context: Context)
    | IllegalPercentEncoding
    | IllegalPortNumber
    | InvalidDecimalOctet
    | TooFewAddressParts
    | TooManyAddressParts
    | TooManyDigits
    | TooManyDoubleColons
    | TruncatedHost

  datatype Result<+T> = Ok(value: T) | Err(error: Error) {

    predicate IsFailure() {
      Err?
    }

    function PropagateFailure<U>(): Result<U>
      requires Err?
    {
      Err(error)
    }

    function Extract(): T
      requires Ok?
    {
      value
    }
  }
}
