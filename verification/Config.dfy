/** The configuration checks the cache relies on. */
module Config {
  import opened Basics
  import opened Recency

  datatype CacheConfig = CacheConfig(
    enabled: bool, maxEntries: int, maxBytes: int, maxEntryBytes: int, defaultTTLSeconds: int)

  datatype ConfigError =
    | MaxEntriesNotPositive
    | MaxBytesNotPositive
    | MaxEntryBytesNotPositive
    | MaxEntryBytesOverMaxBytes
    | NegativeTTL

  function ValidateCache(c: CacheConfig): Option<ConfigError> {
    if !c.enabled then None
    else if c.maxEntries <= 0 then Some(MaxEntriesNotPositive)
    else if c.maxBytes <= 0 then Some(MaxBytesNotPositive)
    else if c.maxEntryBytes <= 0 then Some(MaxEntryBytesNotPositive)
    else if c.maxEntryBytes > c.maxBytes then Some(MaxEntryBytesOverMaxBytes)
    else if c.defaultTTLSeconds < 0 then Some(NegativeTTL)
    else None
  }

  function LimitsOf(c: CacheConfig): Limits {
    Limits(c.maxEntries, c.maxBytes, c.maxEntryBytes)
  }

  /** A configuration is accepted exactly when the cache is off or its limits are positive,
      one entry can fit, and the default lifetime is not negative. */
  lemma AcceptedIff(c: CacheConfig)
    ensures ValidateCache(c).None? <==>
            c.enabled ==> 0 < c.maxEntries && 0 < c.maxEntryBytes <= c.maxBytes && 0 <= c.defaultTTLSeconds
  {
  }
}
