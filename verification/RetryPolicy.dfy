// Which failures are worth a retry (include/RetryPolicy.h:75-89).

module RetryPolicy {
  import opened Protocol

  /** `retry::shouldRetry`. */
  predicate ShouldRetry(status: Status, idempotent: bool, attempt: nat, maxAttempts: nat) {
    if attempt >= maxAttempts then false
    else match status
      case StatusOk => false
      case DeadlineExceeded => false
      case Unknown => idempotent
      case _ => false
  }
}
