/** The interest update that follows a like or a watch. `likeVideo` and
    `watchVideo` first build a per-tag map holding each tag's CURRENT score
    plus the action's weight; `modifyInterests` then adds every value of
    that map to the current score once more. A tag therefore ends at twice
    its old score plus the weight, and a tag listed twice on a video
    counts once, because the second write hits the same map key. */
module Interest {
  import opened Model

  const LikeWeight: int := 11
  const WatchWeight: int := -1

  /** The per-tag map built by the loop over `video.Tags`. */
  function Deltas(tags: seq<Tag>, current: Interests, weight: int): (d: Interests)
    ensures forall t :: t in d <==> t in tags
    ensures forall t :: t in d ==> d[t] == Score(current, t) + weight
    decreases |tags|
  {
    if |tags| == 0 then map[]
    else
      var last := tags[|tags| - 1];
      assert tags == tags[..|tags| - 1] + [last];
      Deltas(tags[..|tags| - 1], current, weight)[last := Score(current, last) + weight]
  }

  /** That loop as written: walk the tags in order, look each one up with
      the absent-means-0 fallback, add the weight and store it. */
  method BuildDeltas(tags: seq<Tag>, current: Interests, weight: int) returns (d: Interests)
    ensures d == Deltas(tags, current, weight)
  {
    d := map[];
    for i := 0 to |tags|
      invariant forall t :: t in d <==> t in tags[..i]
      invariant forall t :: t in d ==> d[t] == Score(current, t) + weight
    {
      var value := if tags[i] in current then current[tags[i]] else 0;
      value := value + weight;
      assert tags[..i + 1] == tags[..i] + [tags[i]];
      d := d[tags[i] := value];
    }
    assert tags[..|tags|] == tags;
    var expected := Deltas(tags, current, weight);
    assert d.Keys == expected.Keys;
    assert forall t :: t in d ==> d[t] == expected[t];
  }

  /** `modifyInterests` on the in-memory profile: every key of `delta` gets
      its value added to the current score; other keys keep theirs. */
  function Merge(current: Interests, delta: Interests): (r: Interests)
    ensures r.Keys == current.Keys + delta.Keys
    ensures forall k :: Score(r, k) == Score(current, k) + Score(delta, k)
  {
    map k | k in current.Keys + delta.Keys :: Score(current, k) + Score(delta, k)
  }

  /** The loop of `modifyInterests` as written: it ranges over the keys of
      `delta` in whatever order the map yields them and reads the profile
      it is updating. The order does not matter. */
  method MergeInAnyOrder(current: Interests, delta: Interests) returns (r: Interests)
    ensures r == Merge(current, delta)
  {
    r := current;
    var pending := delta.Keys;
    while pending != {}
      invariant pending <= delta.Keys
      invariant r.Keys == current.Keys + (delta.Keys - pending)
      invariant forall k :: k in r ==> r[k] == Score(current, k) + (if k in pending then 0 else Score(delta, k))
      decreases pending
    {
      var name :| name in pending;
      var value := if name in r then r[name] else 0;
      value := value + delta[name];
      r := r[name := value];
      pending := pending - {name};
    }
  }

  /** The whole update a like (weight 11) or watch (weight -1) applies to
      the profile: the listed tags end at twice their old score plus the
      weight, every other tag is untouched. */
  function ApplyEvent(current: Interests, tags: seq<Tag>, weight: int): (r: Interests)
    ensures forall t :: t in r <==> t in current || t in tags
    ensures forall t :: t in tags ==> Score(r, t) == 2 * Score(current, t) + weight
    ensures forall t :: t !in tags ==> Score(r, t) == Score(current, t)
  {
    Merge(current, Deltas(tags, current, weight))
  }

  /** A purely additive reference update: each occurrence of a tag adds the
      weight to the old score. */
  function AdditiveApply(current: Interests, tags: seq<Tag>, weight: int): Interests
    decreases |tags|
  {
    if |tags| == 0 then current
    else
      var r := AdditiveApply(current, tags[..|tags| - 1], weight);
      var last := tags[|tags| - 1];
      r[last := Score(r, last) + weight]
  }

  /** The additive reference adds the weight once per occurrence. */
  lemma {:induction false} AdditiveScores(current: Interests, tags: seq<Tag>, weight: int, t: Tag)
    ensures Score(AdditiveApply(current, tags, weight), t) == Score(current, t) + multiset(tags)[t] * weight
    decreases |tags|
  {
    if |tags| > 0 {
      var init := tags[..|tags| - 1];
      var last := tags[|tags| - 1];
      assert tags == init + [last];
      assert multiset(tags) == multiset(init) + multiset{last};
      AdditiveScores(current, init, weight, t);
      if last == t {
        assert multiset(tags)[t] == multiset(init)[t] + 1;
        assert (multiset(init)[t] + 1) * weight == multiset(init)[t] * weight + weight;
      } else {
        assert multiset(tags)[t] == multiset(init)[t];
      }
    }
  }

  /** For a tag listed once, the update agrees with "old score plus the
      weight" exactly when the old score is 0, that is, on a tag the user
      has not scored before or whose score has come back to 0. */
  lemma NotAdditive(current: Interests, tags: seq<Tag>, weight: int, t: Tag)
    requires multiset(tags)[t] == 1
    ensures Score(ApplyEvent(current, tags, weight), t) == Score(AdditiveApply(current, tags, weight), t)
        <==> Score(current, t) == 0
  {
    AdditiveScores(current, tags, weight, t);
    assert t in tags;
  }

  /** Listing a tag more than once changes nothing: only the set of tags
      matters. */
  lemma DuplicatesCountOnce(current: Interests, tags1: seq<Tag>, tags2: seq<Tag>, weight: int)
    requires forall t :: t in tags1 <==> t in tags2
    ensures ApplyEvent(current, tags1, weight) == ApplyEvent(current, tags2, weight)
  {
    var r1, r2 := ApplyEvent(current, tags1, weight), ApplyEvent(current, tags2, weight);
    assert r1.Keys == r2.Keys;
    forall k | k in r1
      ensures r1[k] == r2[k]
    {
      assert Score(r1, k) == Score(r2, k);
    }
  }

  /** Merging two delta maps one after the other adds both, in either
      order. */
  lemma MergeCommutes(current: Interests, d1: Interests, d2: Interests)
    ensures forall k :: Score(Merge(Merge(current, d1), d2), k) == Score(current, k) + Score(d1, k) + Score(d2, k)
    ensures Merge(Merge(current, d1), d2) == Merge(Merge(current, d2), d1)
  {
  }
}
