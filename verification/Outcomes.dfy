/** Results and the failures the report engine distinguishes. */
module Outcomes {
  datatype Option<+T> = None | Some(value: T)

  datatype Result<+T> = Success(value: T) | Failure(error: Error)

  datatype Error =
    | InvalidPolicy
    | ZeroDivisor
    | InvalidInput
    | NotPositive
    | NegativeAmount
    | PortionExceedsTotal
    | ExceedsOpenQuantity
    | ExceedsProvenance
    | NothingOpen
    | MissingAmounts
    | UnsupportedActivity
    | RejectedByValidator
    | MissingAssetKey
    | UnresolvedScope
    | RateUnavailable
    | MismatchedEvidence
    | IncompatibleServer
    | OutOfOrder
    | AmbiguousOrder
    | TransportFailed
}
