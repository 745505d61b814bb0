/**
 * The subset of libmemcached's `memcached_return_t` that the dump driver
 * produces or tests for.  Every code the driver never names is folded into
 * `Other`, which carries the numeric code only to keep such codes apart.
 */
module ReturnCodes {

  datatype ReturnCode =
    | Success
    | MemoryAllocationFailure
    | NotSupported
    | SomeErrors
    | Item
    | End
    | ServerError
    | ClientError
    | Stat
    | Stored
    | Deleted
    | Buffered
    | Value
    | AuthContinue
    | Other(code: nat)

  /**
   * `memcached_failed`: every code except those libmemcached counts as a
   * completed exchange (success, end, item, stat, stored, deleted, buffered,
   * value) and the SASL continuation code.
   */
  predicate IsFailed(rc: ReturnCode) {
    !(rc.Success? || rc.End? || rc.Item? || rc.Stat? || rc.Stored? ||
      rc.Deleted? || rc.Buffered? || rc.Value? || rc.AuthContinue?)
  }
}
