/**
 How many entries a purge of the authorisation cache is to evict, computed from the retention ratio
 (`discovery/authcache.go`). Rounding of floating-point numbers is not modelled.
 */
module RetentionRatio {

  /** `int` of a floating-point number. */
  function Truncated(x: real): int {
    if x >= 0.0 then x.Floor else -(-x).Floor
  }

  /** How many entries are to stay. */
  function Retained(maxCacheSize: nat, ratio: real): real {
    ratio * (maxCacheSize as real)
  }

  /** The number that `purgeEntriesIfNeeded` computes. */
  function ToEvict(maxCacheSize: nat, ratio: real): int {
    maxCacheSize - Truncated(Retained(maxCacheSize, ratio))
  }

  /** The number is `n`, up to a fraction. */
  predicate UpToFraction(x: real, n: nat) {
    n as real <= x && x - 1.0 < n as real
  }

  lemma TruncatedIs(x: real, n: nat)
    requires n > 0 || x == 0.0
    ensures Truncated(x) == n <==> UpToFraction(x, n)
  {
    if x < 0.0 {
      assert (-x).Floor as real <= -x;
    } else {
      assert x.Floor as real <= x && x - 1.0 < x.Floor as real;
    }
  }

  /** A purge is to evict nothing exactly when the entries to stay are the maximum, up to a fraction. */
  lemma NothingToEvict(maxCacheSize: nat, ratio: real)
    ensures ToEvict(maxCacheSize, ratio) == 0 <==> UpToFraction(Retained(maxCacheSize, ratio), maxCacheSize)
  {
    hide Truncated; hide UpToFraction;
    TruncatedIs(Retained(maxCacheSize, ratio), maxCacheSize);
  }

  /** Rounded towards zero. */
  lemma TruncatedExact(x: real)
    ensures x >= 0.0 ==> 0 <= Truncated(x) && Truncated(x) as real <= x && x < Truncated(x) as real + 1.0
    ensures x <= 0.0 ==> Truncated(x) <= 0 && x <= Truncated(x) as real && Truncated(x) as real - 1.0 < x
  {
    if x >= 0.0 {
      assert x.Floor as real <= x && x - 1.0 < x.Floor as real;
    } else {
      assert (-x).Floor as real <= -x && -x - 1.0 < (-x).Floor as real;
    }
  }

  /** What is not to be evicted is the ratio of the maximum, rounded towards zero. */
  lemma RetainsTheRatio(maxCacheSize: nat, ratio: real)
    ensures var kept, share := maxCacheSize - ToEvict(maxCacheSize, ratio), ratio * (maxCacheSize as real);
            && (ratio >= 0.0 ==> 0 <= kept && kept as real <= share && share < kept as real + 1.0)
            && (ratio <= 0.0 ==> kept <= 0 && share <= kept as real && kept as real - 1.0 < share)
  {
    hide Truncated;
    assert ratio >= 0.0 ==> Retained(maxCacheSize, ratio) >= 0.0;
    assert ratio <= 0.0 ==> Retained(maxCacheSize, ratio) <= 0.0;
    TruncatedExact(Retained(maxCacheSize, ratio));
  }

  /** With a ratio below one and room for at least one entry, a purge is to evict something. */
  lemma RatioBelowOneEvicts(maxCacheSize: nat, ratio: real)
    requires ratio < 1.0 && maxCacheSize > 0
    ensures ToEvict(maxCacheSize, ratio) > 0
  {
    hide Truncated; hide ToEvict;
    assert ratio * (maxCacheSize as real) < maxCacheSize as real;
    RetainsTheRatio(maxCacheSize, ratio);
  }
}
