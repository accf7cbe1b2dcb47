/** Cache limits and their validation (`crates/krit-cache/src/config.rs`). */
module CacheConfig {
  import opened Utf8
  import opened Wrappers

  const MAX_NAMESPACES := 16
  const MAX_ENTRIES_PER_NAMESPACE := 4096
  const MAX_TOTAL_ENTRIES := 16384
  const MAX_KEY_BYTES := 512
  const MAX_VALUE_BYTES := 64 * 1024
  const MAX_NAMESPACE_BYTES := 8 * 1024 * 1024
  const MAX_TOTAL_BYTES := 64 * 1024 * 1024
  const MIN_TTL_SECONDS := 1
  const MAX_TTL_SECONDS := 7 * 24 * 60 * 60
  const ENTRY_OVERHEAD_BYTES := 64

  datatype CacheError =
    | NotConfigured | ReadOnlyNamespace
    | EmptyKey | KeyTooLong | ControlInKey | ValueTooLong | TtlOutOfBounds | DeadlineOverflow
    | CannotFitNamespace | CannotFitCache
    | TooManyNamespaces | LimitsOutOfBounds | BudgetBelowOneEntry | TotalsOutOfBounds | BudgetAboveTotal

  datatype NamespaceMode = ReadOnly | ReadWrite

  datatype NamespacePolicy = NamespacePolicy(
    mode: NamespaceMode,
    maxEntries: nat,
    maxBytes: nat,
    maxKeyBytes: nat,
    maxValueBytes: nat,
    maxTtlSeconds: int)
  {
    function Validate(): Option<CacheError> {
      if || maxEntries == 0 || maxEntries > MAX_ENTRIES_PER_NAMESPACE
         || maxBytes == 0 || maxBytes > MAX_NAMESPACE_BYTES
         || maxKeyBytes == 0 || maxKeyBytes > MAX_KEY_BYTES
         || maxValueBytes == 0 || maxValueBytes > MAX_VALUE_BYTES
         || maxTtlSeconds < MIN_TTL_SECONDS || maxTtlSeconds > MAX_TTL_SECONDS
      then Some(LimitsOutOfBounds)
      else if maxKeyBytes + maxValueBytes + ENTRY_OVERHEAD_BYTES > maxBytes then Some(BudgetBelowOneEntry)
      else None
    }
  }

  datatype CacheConfig = CacheConfig(
    namespaces: map<Text, NamespacePolicy>,
    maxTotalEntries: nat,
    maxTotalBytes: nat)
  {
    function PolicyError(policy: NamespacePolicy): Option<CacheError> {
      match policy.Validate()
      case Some(error) => Some(error)
      case None =>
        if policy.maxEntries > maxTotalEntries || policy.maxBytes > maxTotalBytes then Some(BudgetAboveTotal)
        else None
    }

    /** Whether `validate` accepts the configuration.  An empty one is valid. */
    predicate Validates() {
      && |namespaces| <= MAX_NAMESPACES
      && (namespaces != map[] ==>
            && 0 < maxTotalEntries <= MAX_TOTAL_ENTRIES
            && 0 < maxTotalBytes <= MAX_TOTAL_BYTES
            && forall name :: name in namespaces ==> PolicyError(namespaces[name]).None?)
    }
  }
}
