/** `likeVideo`, `watchVideo` and the `/like` and `/watch` handlers that
    call them, as transitions of the abstract store. Each store call that
    can fail is decided by a flag in `Faults`. */
module Engine {
  import opened Model
  import opened Interest
  import opened Guard

  /** Which store calls fail: the event insert, the `$set` of the user's
      interests, and the `$inc` of the video's like counter. Watches have
      no counter, so `watchVideo` ignores the last flag. */
  datatype Faults = Faults(insertFails: bool, persistFails: bool, incrementFails: bool)

  datatype StoreError = InsertFailed | IncrementFailed | UserNotFound | VideoNotFound

  /** Go's `error` result: nil or an error. */
  datatype Outcome = Ok | Err(error: StoreError)

  datatype Step = Step(store: Store, outcome: Outcome)

  /** What the handler answers: 412 for a repeated event, an error for the
      web framework to report, or plain success. */
  datatype Response = PreconditionFailed | Failed(error: StoreError) | Done

  datatype Reply = Reply(store: Store, response: Response)

  /** The `$set interests` update keyed by the user's id. A failure is
      logged and dropped; an update that matches no document changes
      nothing. */
  function PersistInterests(s: Store, userId: int, interests: Interests, fails: bool): (s': Store)
    ensures s'.videos == s.videos && s'.liked == s.liked && s'.watched == s.watched
    ensures s'.users.Keys == s.users.Keys
    ensures forall id :: id in s.users && (fails || id != userId) ==> s'.users[id] == s.users[id]
    ensures !fails && userId in s.users ==> s'.users[userId] == s.users[userId].(interests := interests)
  {
    if fails || userId !in s.users then s
    else s.(users := s.users[userId := s.users[userId].(interests := interests)])
  }

  /** The `$inc likes 1` update keyed by the video's id, applied to the
      stored counter. */
  function IncrementLikes(s: Store, videoId: int): (s': Store)
    ensures s'.users == s.users && s'.liked == s.liked && s'.watched == s.watched
    ensures s'.videos.Keys == s.videos.Keys
    ensures forall id :: id in s.videos && id != videoId ==> s'.videos[id] == s.videos[id]
    ensures videoId in s.videos ==> s'.videos[videoId] == s.videos[videoId].(likes := s.videos[videoId].likes + 1)
  {
    if videoId !in s.videos then s
    else s.(videos := s.videos[videoId := s.videos[videoId].(likes := s.videos[videoId].likes + 1)])
  }

  /** True when the like counter is at the saturation bound and is left alone. */
  function Saturated(video: Video): (b: bool)
    ensures !b ==> video.likes + 1 < MaxInt64
    ensures b ==> video.likes + 1 >= MaxInt64
  {
    video.likes >= MaxInt64 - 1
  }

  /** `likeVideo`: insert the like row (a failure aborts with nothing
      changed), merge the +11 update into the user's interests (a failed
      persist is swallowed), then bump the like counter unless it is
      saturated, in which case the call still succeeds. */
  function LikeVideo(s: Store, user: User, video: Video, f: Faults): (r: Step)
    ensures f.insertFails ==> r == Step(s, Err(InsertFailed))
    ensures !f.insertFails ==> r.store.liked == s.liked + multiset{Event(video.id, user.id)}
    ensures r.store.watched == s.watched
    ensures r.outcome.Ok? <==> !f.insertFails && (Saturated(video) || !f.incrementFails)
    ensures r.outcome.Err? ==> r.outcome.error in {InsertFailed, IncrementFailed}
    ensures !f.insertFails && !Saturated(video) && f.incrementFails ==> r.outcome == Err(IncrementFailed)
    ensures r.store.users.Keys == s.users.Keys
    ensures forall id :: id in s.users && (id != user.id || f.insertFails || f.persistFails) ==> r.store.users[id] == s.users[id]
    ensures !f.insertFails && !f.persistFails && user.id in s.users ==>
      r.store.users[user.id] == s.users[user.id].(interests := ApplyEvent(user.interests, video.tags, LikeWeight))
    ensures r.store.videos.Keys == s.videos.Keys
    ensures forall id :: id in s.videos && id != video.id ==> r.store.videos[id] == s.videos[id]
    ensures video.id in s.videos ==>
      r.store.videos[video.id] == s.videos[video.id].(likes := s.videos[video.id].likes
        + if !f.insertFails && !Saturated(video) && !f.incrementFails then 1 else 0)
  {
    if f.insertFails then Step(s, Err(InsertFailed))
    else
      var recorded := s.(liked := s.liked + multiset{Event(video.id, user.id)});
      var interests := ApplyEvent(user.interests, video.tags, LikeWeight);
      var persisted := PersistInterests(recorded, user.id, interests, f.persistFails);
      if Saturated(video) then Step(persisted, Ok)
      else if f.incrementFails then Step(persisted, Err(IncrementFailed))
      else Step(IncrementLikes(persisted, video.id), Ok)
  }

  /** `watchVideo`: insert the watch row (a failure aborts with nothing
      changed), then merge the -1 update into the user's interests, whose
      failure is swallowed. There is no counter. */
  function WatchVideo(s: Store, user: User, video: Video, f: Faults): (r: Step)
    ensures f.insertFails ==> r == Step(s, Err(InsertFailed))
    ensures !f.insertFails ==> r.outcome == Ok && r.store.watched == s.watched + multiset{Event(video.id, user.id)}
    ensures r.store.liked == s.liked && r.store.videos == s.videos
    ensures r.store.users.Keys == s.users.Keys
    ensures forall id :: id in s.users && (id != user.id || f.insertFails || f.persistFails) ==> r.store.users[id] == s.users[id]
    ensures !f.insertFails && !f.persistFails && user.id in s.users ==>
      r.store.users[user.id] == s.users[user.id].(interests := ApplyEvent(user.interests, video.tags, WatchWeight))
  {
    if f.insertFails then Step(s, Err(InsertFailed))
    else
      var recorded := s.(watched := s.watched + multiset{Event(video.id, user.id)});
      var interests := ApplyEvent(user.interests, video.tags, WatchWeight);
      Step(PersistInterests(recorded, user.id, interests, f.persistFails), Ok)
  }

  /** How a handler turns the engine's `error` into its answer. */
  function Answer(o: Outcome): Response {
    match o
    case Ok => Done
    case Err(e) => Failed(e)
  }

  /** The `/like/:video_id/:user_id` handler after id parsing: the guard,
      the two lookups, then `likeVideo`. */
  function LikeRequest(s: Store, userId: int, videoId: int, queryFails: bool, f: Faults): (r: Reply)
    ensures r.response == PreconditionFailed <==> HasLiked(s, userId, videoId, queryFails)
    ensures r.response in {PreconditionFailed, Failed(UserNotFound), Failed(VideoNotFound), Failed(InsertFailed)} ==> r.store == s
    ensures r.store.watched == s.watched
    ensures !HasLiked(s, userId, videoId, queryFails) && userId !in s.users ==>
      r == Reply(s, Failed(UserNotFound))
    ensures !HasLiked(s, userId, videoId, queryFails) && userId in s.users && videoId !in s.videos ==>
      r == Reply(s, Failed(VideoNotFound))
    ensures !HasLiked(s, userId, videoId, queryFails) && userId in s.users && videoId in s.videos && f.insertFails ==>
      r == Reply(s, Failed(InsertFailed))
    ensures !HasLiked(s, userId, videoId, queryFails) && userId in s.users && videoId in s.videos && !f.insertFails ==>
      && LikeRecorded(r)
      && (r.response == Done <==> Saturated(s.videos[videoId]) || !f.incrementFails)
  {
    if HasLiked(s, userId, videoId, queryFails) then Reply(s, PreconditionFailed)
    else if userId !in s.users then Reply(s, Failed(UserNotFound))
    else if videoId !in s.videos then Reply(s, Failed(VideoNotFound))
    else
      var step := LikeVideo(s, s.users[userId], s.videos[videoId], f);
      Reply(step.store, Answer(step.outcome))
  }

  /** The `/watch/:video_id/:user_id` handler after id parsing: the guard,
      the two lookups, then `watchVideo`. */
  function WatchRequest(s: Store, userId: int, videoId: int, queryFails: bool, f: Faults): (r: Reply)
    ensures r.response == PreconditionFailed <==> HasWatched(s, userId, videoId, queryFails)
    ensures r.response != Done ==> r.store == s
    ensures r.store.liked == s.liked && r.store.videos == s.videos
    ensures !HasWatched(s, userId, videoId, queryFails) && userId !in s.users ==>
      r == Reply(s, Failed(UserNotFound))
    ensures !HasWatched(s, userId, videoId, queryFails) && userId in s.users && videoId !in s.videos ==>
      r == Reply(s, Failed(VideoNotFound))
    ensures !HasWatched(s, userId, videoId, queryFails) && userId in s.users && videoId in s.videos && f.insertFails ==>
      r == Reply(s, Failed(InsertFailed))
    ensures !HasWatched(s, userId, videoId, queryFails) && userId in s.users && videoId in s.videos && !f.insertFails ==>
      r.response == Done
  {
    if HasWatched(s, userId, videoId, queryFails) then Reply(s, PreconditionFailed)
    else if userId !in s.users then Reply(s, Failed(UserNotFound))
    else if videoId !in s.videos then Reply(s, Failed(VideoNotFound))
    else
      var step := WatchVideo(s, s.users[userId], s.videos[videoId], f);
      Reply(step.store, Answer(step.outcome))
  }

  /** The answer shows the like got past its insert. That the row is then
      in the store is `LikeThenGuard`'s business. */
  predicate LikeRecorded(r: Reply) {
    r.response in {Done, Failed(IncrementFailed)}
  }

  /** A handled like adds at most the one row for its pair, and only when
      the guard saw none, so a store holding each pair at most once keeps
      doing so (in this sequential model; see the check-then-act race). */
  lemma LikeKeepsAtMostOnce(s: Store, userId: int, videoId: int, queryFails: bool, f: Faults)
    requires WellFormed(s) && AtMostOnce(s.liked)
    ensures WellFormed(LikeRequest(s, userId, videoId, queryFails, f).store)
    ensures AtMostOnce(LikeRequest(s, userId, videoId, queryFails, f).store.liked)
  {
  }

  /** A handled watch keeps each pair at most once likewise. */
  lemma WatchKeepsAtMostOnce(s: Store, userId: int, videoId: int, queryFails: bool, f: Faults)
    requires WellFormed(s) && AtMostOnce(s.watched)
    ensures WellFormed(WatchRequest(s, userId, videoId, queryFails, f).store)
    ensures AtMostOnce(WatchRequest(s, userId, videoId, queryFails, f).store.watched)
  {
  }

  /** The like row is written exactly when the request gets past its insert,
      and from then on the guard refuses the pair, however its count fares. */
  lemma LikeThenGuard(s: Store, userId: int, videoId: int, queryFails: bool, f: Faults, laterFails: bool)
    requires WellFormed(s)
    ensures var r := LikeRequest(s, userId, videoId, queryFails, f);
      && (LikeRecorded(r) <==> r.store.liked == s.liked + multiset{Event(videoId, userId)})
      && (LikeRecorded(r) ==> HasLiked(r.store, userId, videoId, laterFails))
  {
  }

  /** The watch row is written exactly when the request succeeds, and from
      then on the guard refuses the pair. */
  lemma WatchThenGuard(s: Store, userId: int, videoId: int, queryFails: bool, f: Faults, laterFails: bool)
    requires WellFormed(s)
    ensures var r := WatchRequest(s, userId, videoId, queryFails, f);
      && (r.response == Done <==> r.store.watched == s.watched + multiset{Event(videoId, userId)})
      && (r.response == Done ==> HasWatched(r.store, userId, videoId, laterFails))
  {
  }

  /** After a recorded like whose persist went through, each tag of the
      video scores twice its old score plus 11; every other tag, and every
      other user, is untouched. */
  lemma LikeInterestScores(s: Store, userId: int, videoId: int, queryFails: bool, f: Faults)
    requires WellFormed(s)
    requires LikeRecorded(LikeRequest(s, userId, videoId, queryFails, f)) && !f.persistFails
    ensures var r := LikeRequest(s, userId, videoId, queryFails, f);
      && userId in r.store.users
      && (forall t :: t in s.videos[videoId].tags ==>
            Score(r.store.users[userId].interests, t) == 2 * Score(s.users[userId].interests, t) + 11)
      && (forall t :: t !in s.videos[videoId].tags ==>
            Score(r.store.users[userId].interests, t) == Score(s.users[userId].interests, t))
      && (forall id :: id in s.users && id != userId ==> r.store.users[id] == s.users[id])
  {
  }

  /** After a successful watch whose persist went through, each tag of the
      video scores twice its old score minus 1; every other tag is
      untouched. */
  lemma WatchInterestScores(s: Store, userId: int, videoId: int, queryFails: bool, f: Faults)
    requires WellFormed(s)
    requires WatchRequest(s, userId, videoId, queryFails, f).response == Done && !f.persistFails
    ensures var r := WatchRequest(s, userId, videoId, queryFails, f);
      && userId in r.store.users
      && (forall t :: t in s.videos[videoId].tags ==>
            Score(r.store.users[userId].interests, t) == 2 * Score(s.users[userId].interests, t) - 1)
      && (forall t :: t !in s.videos[videoId].tags ==>
            Score(r.store.users[userId].interests, t) == Score(s.users[userId].interests, t))
      && (forall id :: id in s.users && id != userId ==> r.store.users[id] == s.users[id])
  {
  }

  /** The like counter of the video goes up by exactly one on a successful
      like below the bound, and stays put in every other case. */
  lemma LikeCounter(s: Store, userId: int, videoId: int, queryFails: bool, f: Faults)
    requires WellFormed(s) && videoId in s.videos
    ensures var r := LikeRequest(s, userId, videoId, queryFails, f);
      && videoId in r.store.videos
      && r.store.videos[videoId].likes == s.videos[videoId].likes
           + if r.response == Done && !Saturated(s.videos[videoId]) then 1 else 0
  {
  }

  /** A like on a video at the bound records the row, applies the interest
      update and reports success, leaving every counter as it was. */
  lemma SaturatedLike(s: Store, userId: int, videoId: int, queryFails: bool, f: Faults)
    requires WellFormed(s) && userId in s.users && videoId in s.videos
    requires !HasLiked(s, userId, videoId, queryFails) && !f.insertFails
    requires Saturated(s.videos[videoId])
    ensures var r := LikeRequest(s, userId, videoId, queryFails, f);
      && r.response == Done
      && r.store.videos == s.videos
      && r.store.liked == s.liked + multiset{Event(videoId, userId)}
      && (!f.persistFails ==> forall t :: t in s.videos[videoId].tags ==>
            Score(r.store.users[userId].interests, t) == 2 * Score(s.users[userId].interests, t) + 11)
  {
  }

  /** Whether the interest persist fails never shows in a handler's answer. */
  lemma PersistFailureSwallowed(s: Store, userId: int, videoId: int, queryFails: bool, f: Faults, persistFails: bool)
    ensures LikeRequest(s, userId, videoId, queryFails, f).response
         == LikeRequest(s, userId, videoId, queryFails, f.(persistFails := persistFails)).response
    ensures WatchRequest(s, userId, videoId, queryFails, f).response
         == WatchRequest(s, userId, videoId, queryFails, f.(persistFails := persistFails)).response
  {
  }

  /** A user with no interests likes a video tagged "cats" and "funny", then
      watches one tagged "cats": the like gives both 11, and the watch takes
      "cats" to 2 * 11 - 1 = 21, not to 11 - 1. */
  lemma LikeThenWatchExample()
    ensures var cats: Tag := [0x63, 0x61, 0x74, 0x73];
      var funny: Tag := [0x66, 0x75, 0x6e, 0x6e, 0x79];
      var liked := ApplyEvent(map[], [cats, funny], LikeWeight);
      && liked == map[cats := 11, funny := 11]
      && ApplyEvent(liked, [cats], WatchWeight) == map[cats := 21, funny := 11]
  {
    var cats: Tag := [0x63, 0x61, 0x74, 0x73];
    var funny: Tag := [0x66, 0x75, 0x6e, 0x6e, 0x79];
    assert cats != funny;
    var liked := ApplyEvent(map[], [cats, funny], LikeWeight);
    assert liked.Keys == {cats, funny};
    assert Score(liked, cats) == 2 * 0 + 11 && Score(liked, funny) == 2 * 0 + 11;
    assert liked == map[cats := 11, funny := 11];
    var watched := ApplyEvent(liked, [cats], WatchWeight);
    assert watched.Keys == {cats, funny};
    assert Score(watched, cats) == 2 * 11 - 1;
    assert funny !in [cats] && Score(watched, funny) == 11;
    assert watched == map[cats := 21, funny := 11];
  }
}
