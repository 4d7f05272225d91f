/** The duplicate-event guard run by the `/like` and `/watch` handlers
    before anything else: count the event rows for the (user, video) pair
    with a limit of 1, and treat a failed count as "already happened". */
module Guard {
  import opened Model

  /** What `CountDocuments` hands back: a count, or an error. */
  datatype CountOutcome = Counted(n: int) | CountFailed

  /** `CountDocuments` with a positive `Limit`: the matching rows, but never
      more than the limit. (A limit of 0 means "no limit" to the driver; the
      guard always passes 1.) */
  function CountLimited(events: multiset<Event>, e: Event, limit: nat): (n: nat)
    requires limit >= 1
    ensures n <= limit && n <= events[e]
    ensures n == limit || n == events[e]
  {
    if events[e] < limit then events[e] else limit
  }

  /** The count query of `hasLiked` / `hasWatched`, which either fails or
      sees the collection as it is. */
  function CountPair(events: multiset<Event>, e: Event, queryFails: bool): (r: CountOutcome)
    ensures r.CountFailed? <==> queryFails
    ensures r.Counted? ==> 0 <= r.n <= 1 && (r.n == 1 <==> e in events)
  {
    if queryFails then CountFailed else Counted(CountLimited(events, e, 1))
  }

  /** The decision taken on the count: an error means yes (fail safe),
      otherwise yes exactly when one row was counted. */
  function AlreadyHappened(outcome: CountOutcome): (b: bool)
    ensures outcome.CountFailed? ==> b
    ensures outcome.Counted? && outcome.n == 0 ==> !b
    ensures outcome.Counted? && b ==> outcome.n == 1
    ensures outcome == Counted(1) ==> b
  {
    match outcome
    case CountFailed => true
    case Counted(n) => n == 1
  }

  /** `hasLiked`: true when the count fails or the pair has a like row. */
  function HasLiked(s: Store, userId: int, videoId: int, queryFails: bool): (b: bool)
    ensures b <==> queryFails || Event(videoId, userId) in s.liked
  {
    AlreadyHappened(CountPair(s.liked, Event(videoId, userId), queryFails))
  }

  /** `hasWatched`: true when the count fails or the pair has a watch row. */
  function HasWatched(s: Store, userId: int, videoId: int, queryFails: bool): (b: bool)
    ensures b <==> queryFails || Event(videoId, userId) in s.watched
  {
    AlreadyHappened(CountPair(s.watched, Event(videoId, userId), queryFails))
  }
}
