/**
 * How the pieces meet over a check's life: a check is saved unshared, a
 * share sets its expiry and makes it shared, the expiring query then sees it
 * while the expiry is within a week, and the view page shows it until the
 * expiry has passed.
 */
module Lifecycle {
  import opened Wrappers
  import opened Records
  import opened Annotation
  import opened Sharing
  import opened Expiring
  import opened ViewCheck

  /** A freshly saved check is in neither query: it only becomes shared by a share. */
  lemma SavedCheckIsUnshared(o: Oracle, input: string, lang: string, nowMs: int, user: Option<AuthUser>, now: int)
    ensures var rec := SavedCheck(Some(o), input, lang, nowMs, user).value;
      !IsShared(rec) && !InHorizon(rec, now)
  {
  }

  /** After a share, the check is in the expiring query exactly while its expiry is within a week. */
  lemma SharedCheckInHorizon(rec: SpellCheck, expireMs: int, now: int)
    ensures IsShared(ApplyShare(rec, expireMs))
    ensures InHorizon(ApplyShare(rec, expireMs), now) <==> now <= expireMs <= now + WeekMs
  {
  }

  /**
   * Opening the shared link: the page finds the id in the link and shows
   * the shared check, under the id it was saved with, until its expiry passes, and says
   * it has expired afterwards.
   */
  lemma ShareThenView(rec: SpellCheck, expireMs: int, origin: string, id: string, now: int)
    requires id != [] && '?' !in origin && '#' !in origin
    requires '&' !in id && '#' !in id && '%' !in id && '+' !in id
    ensures var v := FetchCheck(IdParam(ShareLink(origin, id)), Found(id, ApplyShare(rec, expireMs)), now);
      && (now <= expireMs ==> v.check == Some(ApplyShare(rec, expireMs).(id := Some(id))))
      && (now <= expireMs ==> v.remainingTime == Some(RemainingTime(expireMs - now)))
      && (expireMs < now ==> v.error == Some(ExpiredError) && v.check.None?)
  {
    ShareLinkRoundTrip(origin, id);
  }

  /** Every check in a bucket can still be opened: none of them has expired. */
  lemma BucketedChecksAreViewable(store: seq<SpellCheck>, now: int, b: Bucket, x: SpellCheck, id: string)
    requires x in Select(ExpiringQuery(store, now), now, b)
    requires id != []
    ensures FetchCheck(Some(id), Found(id, x), now).check.Some?
  {
    BucketsWithinQuery(store, now);
  }
}
