/**
 * Retention policies (backup.py:41-46, 54-56). A configured policy is a dict
 * in which `keep_last` and `max_gb` may each be missing; the missing ones
 * fall back to 10 and 5.0 when the policy is applied.
 */
module Policy {
  import opened Wrappers

  /** One configured policy dict; `None` is a key that is absent from it. */
  datatype PolicyEntry = PolicyEntry(keepLast: Option<nat>, maxGb: Option<real>)

  /** The `retention` section: an optional `default` and per-database `overrides`. */
  datatype RetentionConfig = RetentionConfig(default: Option<PolicyEntry>, overrides: map<string, PolicyEntry>)

  /** The limits a retention pass works with: a file count and a byte bound. */
  datatype Limits = Limits(keepLast: nat, maxBytes: int)

  const DefaultKeepLast: nat := 10
  const DefaultMaxGb: real := 5.0
  const BytesPerGb: nat := 1024 * 1024 * 1024

  /** The policy used when the configuration names none. */
  const BuiltinPolicy: PolicyEntry := PolicyEntry(Some(DefaultKeepLast), Some(DefaultMaxGb))

  /**
   * `get_retention_policy`: the override whose key is exactly the database
   * name wins; otherwise the configured default, otherwise the built-in one.
   */
  function PolicyFor(cfg: RetentionConfig, db: string): (p: PolicyEntry)
    ensures db in cfg.overrides ==> p == cfg.overrides[db]
    ensures db !in cfg.overrides && cfg.default.Some? ==> p == cfg.default.value
    ensures db !in cfg.overrides && cfg.default.None? ==> p.keepLast == Some(10) && p.maxGb == Some(5.0)
  {
    if db in cfg.overrides then cfg.overrides[db] else cfg.default.GetOr(BuiltinPolicy)
  }

  /**
   * The limits `apply_retention` derives from a policy: `keep_last` (10 when
   * absent) and the byte bound `max_gb * 1024**3` (5.0 GB when absent),
   * rounded down to a whole number of bytes.
   */
  function LimitsOf(p: PolicyEntry): (l: Limits)
    ensures l.keepLast == p.keepLast.GetOr(DefaultKeepLast)
    ensures l.maxBytes as real <= p.maxGb.GetOr(DefaultMaxGb) * BytesPerGb as real < l.maxBytes as real + 1.0
  {
    Limits(p.keepLast.GetOr(DefaultKeepLast), (p.maxGb.GetOr(DefaultMaxGb) * BytesPerGb as real).Floor)
  }

  /**
   * Rounding the bound down loses nothing: a whole number of bytes exceeds the
   * integer bound exactly when it exceeds `max_gb * 1024**3`.
   */
  lemma MaxBytesExact(p: PolicyEntry, total: int)
    ensures total > LimitsOf(p).maxBytes <==> total as real > p.maxGb.GetOr(DefaultMaxGb) * BytesPerGb as real
  {
  }

  /** An override for one database never affects the policy of another. */
  lemma OverrideIsExactName(cfg: RetentionConfig, db: string, other: string, entry: PolicyEntry)
    requires other != db
    ensures PolicyFor(RetentionConfig(cfg.default, cfg.overrides[other := entry]), db) == PolicyFor(cfg, db)
  {
  }

  /** The retention section of the repository's unit test. */
  function TestRetention(): RetentionConfig {
    RetentionConfig(
      Some(PolicyEntry(Some(2), Some(0.000001))),
      map["important_db" := PolicyEntry(Some(5), Some(1.0))])
  }

  /** The unit test's expectations: the default for `website_db`, the override for `important_db`. */
  lemma TestPolicyLookup()
    ensures LimitsOf(PolicyFor(TestRetention(), "website_db")).keepLast == 2
    ensures LimitsOf(PolicyFor(TestRetention(), "important_db")).keepLast == 5
    ensures LimitsOf(PolicyFor(TestRetention(), "test_db")) == Limits(2, 1073)
  {
    assert "website_db" != "important_db";
    assert "test_db" != "important_db";
  }
}
