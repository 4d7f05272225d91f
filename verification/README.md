# Interactions engine: a Dafny model

This project models the like/watch engine of the interactions service, plus
the tag extraction its upload endpoint does. When a user likes or watches a
video, the service does four things:

- A guard counts the existing event rows for the (user, video) pair and
  answers 412 when the pair was seen before. It also answers 412 when the
  count fails.
- The service inserts the event row. If the insert fails, the request stops
  there.
- It updates the user's per-tag interest scores and persists them.
- For likes only, it increments the video's like counter. The counter
  saturates just below the largest `int64`.

The store is abstract: a `Store` value holds the users, the videos, and the
like and watch rows as multisets. Every store call that can fail is decided
by a boolean parameter. The count query uses `queryFails`. The insert, the
interest persist and the counter increment use the three flags of `Faults`.
Each handler is a pure function from a store to a reply and the next store.

Upload descriptions are byte strings, because Go's `len` counts bytes. A
description longer than 255 bytes is refused. Otherwise it is split on
single spaces, and every keyword starting with `#` becomes a tag with that
first `#` removed.

Modules:

- `Model` holds the documents and the store.
- `Tags` holds splitting and tag extraction.
- `Interest` holds the interest update.
- `Guard` holds `hasLiked` and `hasWatched`.
- `Engine` holds `likeVideo`, `watchVideo` and the two handlers.

### Where the code departs from a purely additive reading

A natural reading of the service is that a like adds 11 to each of the
video's tags, a watch subtracts 1, and failed counter updates are absorbed.
The model follows the code, which does otherwise in three places.

- **The update is not additive.** The code first builds a map holding
  each tag's *current* score plus the weight. `modifyInterests` then adds
  that value to the current score again. So a liked tag ends at
  `2*old + 11` and a watched tag at `2*old - 1`.
  `Interest.NotAdditive` proves that this agrees with "old plus weight"
  only when the old score is 0. A like of "cats" followed by a watch, which
  the additive reading would leave at 10, ends at 21: see
  `Engine.LikeThenWatchExample`.
- **Duplicate tags count once.** Under the additive reading, a tag listed
  k times would contribute k times the weight. In the code, a repeated tag
  rewrites the same map key with the same value, so it counts once
  (`Interest.DuplicatesCountOnce`).
- **A failed counter increment is reported.** In the code, a failed `$inc`
  on the like counter is returned as the request's error
  (main.go:225-228). Inside `likeVideo` and `watchVideo`, the interest
  persist failure is the only failure that is swallowed. (The guard also
  keeps a failed count to itself, but turns it into a 412 rather than
  ignoring it.)

## Model

| member | source | states |
|---|---|---|
| Tags.Split | main.go:128 | `strings.Split` on a space: there is always at least one piece, and no piece contains the separator |
| Tags.JoinSplit | main.go:128 | joining the pieces of a split with the separator gives back the description |
| Tags.SplitJoin | main.go:128 | splitting a join of separator-free pieces gives back exactly those pieces, empty ones included |
| Tags.RemoveFirst | main.go:133 | `strings.Replace(k, "#", "", 1)` leaves a string without `#` unchanged |
| Tags.RemoveFirstAt | main.go:133 | when the first `#` is at position i, exactly that byte is removed and the rest keeps its order |
| Tags.KeepOne | main.go:129-134 | a single keyword yields its text minus the leading `#` when it starts with `#`, and nothing otherwise |
| Tags.IsTagKeyword | main.go:130 | `strings.HasPrefix(k, "#")`: true iff the keyword has at least one byte and its first one-byte slice is "#" |
| Tags.KeepTags | main.go:129-135 | the kept tags are never more than the keywords, and none are kept when no keyword starts with `#` |
| Tags.KeepTagsStep | main.go:129-134 | one more keyword appends its tag (the keyword minus its first `#`) when it starts with `#`, and nothing otherwise |
| Tags.KeepTagsAppend | main.go:129-135 | extraction works keyword by keyword: the tags of a concatenation are the tags of each part, in order |
| Tags.KeepTagsMembers | main.go:129-135 | a tag is extracted iff `#` followed by the tag is one of the keywords |
| Tags.ExtractTagsMembers | main.go:127-135 | a tag comes out of a description iff `#` followed by it is one of its space-separated keywords |
| Tags.ExtractTags | main.go:127-135 | every extracted tag, with `#` put back in front, is one of the description's space-separated keywords |
| Tags.ExtractJoined | main.go:127-135 | for a description written as space-separated keywords, the tags are exactly those of the keywords, in keyword order and with repeats kept |
| Tags.CollectTags | main.go:127-135 | the appending loop over the split keywords produces exactly the extracted tag list |
| Tags.PrepareUpload | main.go:124-135 | the upload fails iff the description is over 255 bytes; otherwise the new video has the given ids, 0 likes, and exactly the extracted tag list (order and repeats kept), whose members are the `#` keywords with the `#` removed |
| Tags.RepeatedTagExample | main.go:129-135 | "#a #a" yields the tag "a" twice: repeats are kept |
| Tags.BareHashExample | main.go:130-134 | the description "#" yields one empty tag |
| Tags.DoubleHashExample | main.go:133 | "##a" yields "#a": only the first `#` goes |
| Tags.PlainWordExample | main.go:130-132 | "a #b" yields only "b": a keyword without `#` is dropped |
| Guard.CountLimited | main.go:187-190 | a count with a positive limit never exceeds the limit or the number of matching rows, and reaches one of them |
| Guard.CountPair | main.go:188-191 | the count fails iff the query fails; otherwise it is 0 or 1, and 1 iff the pair has a row |
| Guard.AlreadyHappened | main.go:191-195 | a failed count means "already happened" (fail safe); a count of 1 means yes and a count of 0 means no |
| Guard.HasLiked | main.go:185-196 | `hasLiked` is true iff the count fails or the (user, video) pair has a like row |
| Guard.HasWatched | main.go:257-268 | `hasWatched` is true iff the count fails or the pair has a watch row |
| Model.Score | main.go:211-214 | a tag in the profile reads its score and an absent tag reads 0, like the Go lookup with its `exists` fallback |
| Interest.Deltas | main.go:209-217 | the per-tag map has exactly the video's tags as keys, each mapped to its current score plus the weight |
| Interest.BuildDeltas | main.go:243-251 | the loop over the tags, with the absent-means-0 lookup, builds exactly that map |
| Interest.Merge | main.go:299-308 | every score in the merged profile is the old score plus the delta, with 0 for absent keys; the key set is the union |
| Interest.MergeInAnyOrder | main.go:301-308 | the loop over the delta keys gives the same profile in whatever order the map yields its keys |
| Interest.MergeCommutes | main.go:301-308 | two merges add both deltas and commute |
| Interest.ApplyEvent | main.go:209-218 | after an event each of the video's tags scores `2*old + weight`, other tags keep their score, and the key set gains the video's tags |
| Interest.NotAdditive | main.go:209-218 | for a tag listed once, the result equals the additive "old plus weight" iff the old score is 0 |
| Interest.DuplicatesCountOnce | main.go:210-216 | two tag lists with the same members give the same profile, so a repeated tag counts once |
| Engine.PersistInterests | main.go:309-316 | the `$set` replaces only the user's interests, and a failed update changes nothing |
| Engine.IncrementLikes | main.go:225 | the `$inc` raises only that video's stored counter, by one |
| Engine.Saturated | main.go:221 | below the bound, one more like still fits strictly under `MaxInt64`; at or above it, it would not |
| Engine.LikeVideo | main.go:197-231 | a failed insert returns its error with the store unchanged; otherwise one like row is added and the +11 update is persisted unless that persist fails; the counter rises by one unless it is saturated or the increment fails; the result is nil iff the insert succeeded and either the counter was saturated or the increment went through; a failed increment below the bound returns that increment error |
| Engine.WatchVideo | main.go:234-255 | a failed insert returns its error with the store unchanged; otherwise one watch row is added, the -1 update is persisted unless that persist fails, and the result is nil |
| Engine.LikeRequest | main.go:53-82 | the answer is 412 iff the guard says the pair was liked or the count failed; past the guard, a missing user answers UserNotFound, then a missing video VideoNotFound, then a failed insert InsertFailed, each with the store unchanged; when the guard passes, both documents exist and the insert succeeds, the like is recorded and the answer is success iff the counter is saturated or its increment succeeds |
| Engine.WatchRequest | main.go:83-114 | the answer is 412 iff the guard says so; past the guard, a missing user, a missing video and a failed insert give UserNotFound, VideoNotFound and InsertFailed in that order; any answer other than success leaves the store unchanged; when the guard passes, both documents exist and the insert succeeds, the answer is success |
| Engine.LikeKeepsAtMostOnce | main.go:63-79 | a handled like keeps every (user, video) pair at most once among the like rows, and keeps documents keyed by their own id |
| Engine.WatchKeepsAtMostOnce | main.go:93-109 | the same for watch rows |
| Engine.LikeThenGuard | main.go:185-206 | the like row is added iff the request gets past its insert, and the guard then refuses the pair whatever its count does |
| Engine.WatchThenGuard | main.go:234-268 | the watch row is added iff the request succeeds, and the guard then refuses the pair |
| Engine.LikeInterestScores | main.go:209-218 | after a recorded like whose persist succeeded, each of the video's tags scores `2*old + 11`; other tags and other users are unchanged |
| Engine.WatchInterestScores | main.go:243-252 | after a successful watch whose persist succeeded, each of the video's tags scores `2*old - 1`; other tags and users are unchanged |
| Engine.LikeCounter | main.go:220-230 | the stored like count rises by exactly one on a successful like below the bound, and is unchanged otherwise |
| Engine.SaturatedLike | main.go:209-224 | a like at the bound still records the row, applies the `2*old + 11` update when the persist succeeds, and answers success, with every counter unchanged |
| Engine.PersistFailureSwallowed | main.go:312-316 | whether the interest persist fails never changes either handler's answer |
| Engine.LikeThenWatchExample | main.go:209-252 | likes on "cats" and "funny" give both 11 from an empty profile; a later watch of "cats" gives it 21 |

## Left out

- HTTP transport is not modelled: routing, `BodyParser`, status writing, and `strconv.ParseInt` of the path ids. The handlers are modelled from the parsed ids onwards.
- The Skynet upload and snowflake id generation are not modelled, because they are foreign services. The new video's id is a parameter, and `PrepareUpload` stops before the upload. Its failure path and `uploadVideo`'s insert are not modelled.
- Video fields the engine never reads are dropped: description, series, public, modifiers and storage key.
- Mongo connection setup and BSON decoding are not modelled. `getUser`/`getVideo` become map lookups, and a decode error is modelled as a missing document.
- The check-then-act race between the guard and the insert is not modelled, and neither is last-write-wins on the interest map. Both are about concurrency; the model is sequential.
- Interest scores use unbounded integers, so `int64` wrap-around in `+= 11`, `-= 1` and the merge's `+=` is not modelled. The only bound kept is the explicit `MaxInt64 - 1` saturation check on likes.
- A user document with no `interests` field decodes to a nil Go map. Writing into it panics when the video has tags. The model treats an absent field as an empty map instead.
- `modifyInterests` also mutates the caller's in-memory map. That copy is never read again, so only the persisted map is modelled.
- Logging is not modelled.
