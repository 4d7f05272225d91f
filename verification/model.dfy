/** The documents of the interactions service: users with their per-tag
    interest scores, videos with their tags and like counter, and the
    like/watch event rows, all held by one abstract document store. */
module Model {

  /** Largest value of Go's `int64`; the like counter saturates just below it. */
  const MaxInt64: int := 0x7FFF_FFFF_FFFF_FFFF

  /** Go strings are byte strings: `len` counts bytes, not characters. */
  newtype Byte = x: int | 0 <= x < 256

  type Bytes = seq<Byte>

  /** A tag is a description keyword with its leading '#' removed. */
  type Tag = Bytes

  /** A user's interest profile: tag to signed score (Go `map[string]int64`). */
  type Interests = map<Tag, int>

  datatype User = User(id: int, interests: Interests)

  datatype Video = Video(id: int, creatorId: int, tags: seq<Tag>, likes: int)

  /** One row of `liked_videos` or `watched_videos`. */
  datatype Event = Event(videoId: int, userId: int)

  /** The four collections. The event collections carry no uniqueness
      constraint, so the same pair may in principle occur more than once. */
  datatype Store = Store(
    users: map<int, User>,
    videos: map<int, Video>,
    liked: multiset<Event>,
    watched: multiset<Event>)

  /** A value or the error that stopped its computation (Go's `(T, error)`). */
  datatype Result<T, E> = Success(value: T) | Failure(error: E)

  /** Documents are keyed by their own `_id`. */
  ghost predicate WellFormed(s: Store) {
    && (forall id :: id in s.users ==> s.users[id].id == id)
    && (forall id :: id in s.videos ==> s.videos[id].id == id)
  }

  /** The score a tag has in a profile; an absent tag reads as 0, as the Go
      map lookup with its `exists` fallback does. */
  function Score(m: Interests, t: Tag): (v: int)
    ensures t in m ==> v == m[t]
    ensures t !in m ==> v == 0
  {
    if t in m then m[t] else 0
  }

  /** No (user, video) pair occurs twice in an event collection. */
  ghost predicate AtMostOnce(events: multiset<Event>) {
    forall e :: events[e] <= 1
  }
}
