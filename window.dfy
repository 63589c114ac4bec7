/** The one rule that decides whether a share is granted at an instant. Both
    places that evaluate it (the scheduled pass and the user form) are proved to
    compute exactly this predicate. */
module ShareWindow {
  import opened Basics
  import opened Models

  /** Granted iff the share is active, it has started (a missing start counts as
      started, and the start instant itself is included), and it has not expired
      (a missing expiry never expires, and the expiry instant itself is excluded). */
  predicate ShouldShare(isActive: bool, start: Option<Instant>, expiry: Option<Instant>, now: Instant) {
    && isActive
    && (start.None? || start.value <= now)
    && (expiry.None? || now < expiry.value)
  }

  /** The rule applied to a stored share row. */
  predicate ShareIsLive(s: Share, now: Instant) {
    ShouldShare(s.isActive, s.start, s.expiry, now)
  }

  lemma InactiveNeverShares(start: Option<Instant>, expiry: Option<Instant>, now: Instant)
    ensures !ShouldShare(false, start, expiry, now)
  {
  }

  lemma OpenWindowAlwaysShares(now: Instant)
    ensures ShouldShare(true, None, None, now)
  {
  }

  /** The start is inclusive: granted from the start instant on, not one tick before. */
  lemma StartIsInclusive(t: Instant)
    ensures ShouldShare(true, Some(t), None, t)
    ensures !ShouldShare(true, Some(t), None, t - 1)
  {
  }

  /** The expiry is exclusive: revoked at the expiry instant, granted one tick before. */
  lemma ExpiryIsExclusive(isActive: bool, start: Option<Instant>, t: Instant)
    ensures !ShouldShare(isActive, start, Some(t), t)
    ensures ShouldShare(true, None, Some(t), t - 1)
  {
  }

  /** A window whose start lies after its expiry is never granted, at any instant. */
  lemma InvertedWindowNeverShares(isActive: bool, s: Instant, e: Instant, now: Instant)
    requires s > e
    ensures !ShouldShare(isActive, Some(s), Some(e), now)
  {
  }

  /** Exactly the instants of the half-open interval [start, expiry) are granted
      to an active share with both dates. */
  lemma WindowIsHalfOpen(s: Instant, e: Instant, now: Instant)
    ensures ShouldShare(true, Some(s), Some(e), now) <==> s <= now < e
  {
  }
}
