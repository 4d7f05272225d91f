/** Tag extraction done by the `/upload` handler: the description is split
    on single spaces and every keyword that starts with '#' becomes a tag
    with that first '#' removed. */
module Tags {
  import opened Model

  const Space: Byte := 0x20
  const Hash: Byte := 0x23

  /** Longest description, in bytes, that an upload may carry. */
  const MaxDescriptionLength: int := 255

  datatype UploadError = DescriptionTooLong

  /** Go's `strings.Split(s, sep)` for a one-byte separator: the pieces
      between separators, including empty ones, and always at least one. */
  function Split(s: Bytes, sep: Byte): (pieces: seq<Bytes>)
    ensures |pieces| >= 1
    ensures forall i :: 0 <= i < |pieces| ==> sep !in pieces[i]
    decreases |s|
  {
    if |s| == 0 then [[]]
    else
      var rest := Split(s[1..], sep);
      if s[0] == sep then [[]] + rest
      else [[s[0]] + rest[0]] + rest[1..]
  }

  /** Go's `strings.Join`, the inverse of `Split`. */
  function Join(pieces: seq<Bytes>, sep: Byte): Bytes
    requires |pieces| >= 1
  {
    if |pieces| == 1 then pieces[0]
    else pieces[0] + [sep] + Join(pieces[1..], sep)
  }

  /** Joining the pieces of a split gives back the input. */
  lemma {:induction false} JoinSplit(s: Bytes, sep: Byte)
    ensures Join(Split(s, sep), sep) == s
    decreases |s|
  {
    if |s| > 0 {
      var rest := Split(s[1..], sep);
      JoinSplit(s[1..], sep);
      if s[0] == sep {
        assert Split(s, sep) == [[]] + rest;
        assert ([[]] + rest)[1..] == rest;
        assert s == [sep] + s[1..];
      } else {
        var pieces := [[s[0]] + rest[0]] + rest[1..];
        assert Split(s, sep) == pieces;
        if |rest| > 1 {
          assert pieces[1..] == rest[1..];
          assert Join(rest, sep) == rest[0] + [sep] + Join(rest[1..], sep);
        }
        assert s == [s[0]] + s[1..];
      }
    }
  }

  /** Splitting a separator-free prefix glues it onto the first piece. */
  lemma {:induction false} SplitPrefix(p: Bytes, t: Bytes, sep: Byte)
    requires sep !in p
    ensures Split(p + t, sep) == [p + Split(t, sep)[0]] + Split(t, sep)[1..]
    decreases |p|
  {
    if |p| > 0 {
      assert (p + t)[1..] == p[1..] + t;
      assert (p + t)[0] == p[0];
      SplitPrefix(p[1..], t, sep);
      assert [p[0]] + (p[1..] + Split(t, sep)[0]) == p + Split(t, sep)[0];
    } else {
      var q := Split(t, sep);
      assert p == [];
      assert p + t == t;
      assert p + q[0] == q[0];
      assert [p + q[0]] + q[1..] == q;
    }
  }

  /** Splitting a join of separator-free pieces gives back the pieces. */
  lemma {:induction false} SplitJoin(pieces: seq<Bytes>, sep: Byte)
    requires |pieces| >= 1
    requires forall i :: 0 <= i < |pieces| ==> sep !in pieces[i]
    ensures Split(Join(pieces, sep), sep) == pieces
    decreases |pieces|
  {
    var p := pieces[0];
    if |pieces| == 1 {
      SplitPrefix(p, [], sep);
      assert p + [] == p;
    } else {
      var tail := Join(pieces[1..], sep);
      SplitJoin(pieces[1..], sep);
      assert Split([sep] + tail, sep) == [[]] + pieces[1..];
      assert Join(pieces, sep) == p + ([sep] + tail);
      SplitPrefix(p, [sep] + tail, sep);
      assert p + [] == p;
      assert pieces == [p] + pieces[1..];
    }
  }

  /** Go's `strings.Replace(s, b, "", 1)` for a one-byte pattern: the first
      occurrence of `b`, if any, is removed (see `RemoveFirstAt`). */
  function RemoveFirst(s: Bytes, b: Byte): (r: Bytes)
    ensures b !in s ==> r == s
    decreases |s|
  {
    if |s| == 0 then s
    else if s[0] == b then s[1..]
    else
      assert s == [s[0]] + s[1..];
      [s[0]] + RemoveFirst(s[1..], b)
  }

  /** When the first occurrence of `b` is at `i`, exactly that byte goes. */
  lemma {:induction false} RemoveFirstAt(s: Bytes, b: Byte, i: int)
    requires 0 <= i < |s| && s[i] == b && b !in s[..i]
    ensures RemoveFirst(s, b) == s[..i] + s[i + 1..]
    decreases |s|
  {
    if i == 0 {
      assert s[..0] + s[1..] == s[1..];
    } else {
      var tail, pre := s[1..][..i - 1], s[..i];
      assert forall k :: 0 <= k < |tail| ==> tail[k] == pre[k + 1];
      assert b !in tail;
      RemoveFirstAt(s[1..], b, i - 1);
      assert s[..i] == [s[0]] + s[1..][..i - 1];
      assert s[1..][i..] == s[i + 1..];
    }
  }

  /** `strings.HasPrefix(keyword, "#")`. */
  function IsTagKeyword(keyword: Bytes): (b: bool)
    ensures b <==> |keyword| >= 1 && keyword[..1] == [Hash]
  {
    |keyword| > 0 && keyword[0] == Hash
  }

  /** The body of the extraction loop over the split keywords, in order. */
  function KeepTags(keywords: seq<Bytes>): (tags: seq<Tag>)
    ensures |tags| <= |keywords|
    ensures (forall i :: 0 <= i < |keywords| ==> !IsTagKeyword(keywords[i])) ==> tags == []
  {
    if |keywords| == 0 then []
    else
      (if IsTagKeyword(keywords[0]) then [RemoveFirst(keywords[0], Hash)] else [])
      + KeepTags(keywords[1..])
  }

  /** The tags an upload derives from its description: one per keyword
      that starts with '#'. */
  function ExtractTags(description: Bytes): (tags: seq<Tag>)
    ensures forall i :: 0 <= i < |tags| ==> [Hash] + tags[i] in Split(description, Space)
  {
    var keywords := Split(description, Space);
    var tags := KeepTags(keywords);
    assert forall i :: 0 <= i < |tags| ==> [Hash] + tags[i] in keywords by {
      forall i | 0 <= i < |tags|
        ensures [Hash] + tags[i] in keywords
      {
        KeepTagsMembers(keywords, tags[i]);
      }
    }
    tags
  }

  /** The extraction loop of the upload handler, one keyword at a time,
      appending to the tag list as it goes. */
  method CollectTags(description: Bytes) returns (tags: seq<Tag>)
    ensures tags == ExtractTags(description)
  {
    var keywords := Split(description, Space);
    tags := [];
    var i := 0;
    while i < |keywords|
      invariant 0 <= i <= |keywords|
      invariant tags == KeepTags(keywords[..i])
    {
      var keyword := keywords[i];
      KeepTagsStep(keywords, i);
      if IsTagKeyword(keyword) {
        var tag := RemoveFirst(keyword, Hash);
        tags := tags + [tag];
      }
      i := i + 1;
    }
    assert keywords[..i] == keywords;
  }

  /** One more keyword appends its tag, if it has one, to the tags so far. */
  lemma KeepTagsStep(keywords: seq<Bytes>, i: int)
    requires 0 <= i < |keywords|
    ensures KeepTags(keywords[..i + 1]) == KeepTags(keywords[..i])
      + if IsTagKeyword(keywords[i]) then [RemoveFirst(keywords[i], Hash)] else []
  {
    assert keywords[..i + 1] == keywords[..i] + [keywords[i]];
    KeepTagsAppend(keywords[..i], [keywords[i]]);
    assert [keywords[i]][1..] == [];
  }

  /** A keyword on its own: kept, minus its leading '#', exactly when it
      starts with '#'. */
  lemma KeepOne(keyword: Bytes)
    ensures KeepTags([keyword]) == if IsTagKeyword(keyword) then [keyword[1..]] else []
  {
  }

  /** Extraction works keyword by keyword and keeps the keywords' order. */
  lemma {:induction false} KeepTagsAppend(a: seq<Bytes>, b: seq<Bytes>)
    ensures KeepTags(a + b) == KeepTags(a) + KeepTags(b)
    decreases |a|
  {
    if |a| > 0 {
      assert (a + b)[0] == a[0];
      assert (a + b)[1..] == a[1..] + b;
      KeepTagsAppend(a[1..], b);
    } else {
      assert a + b == b;
    }
  }

  /** A tag is extracted exactly when '#' followed by it is one of the
      keywords. */
  lemma {:induction false} KeepTagsMembers(keywords: seq<Bytes>, t: Tag)
    ensures t in KeepTags(keywords) <==> [Hash] + t in keywords
    decreases |keywords|
  {
    if |keywords| > 0 {
      var k := keywords[0];
      KeepTagsMembers(keywords[1..], t);
      assert keywords == [k] + keywords[1..];
      if IsTagKeyword(k) {
        assert k == [Hash] + k[1..];
        RemoveFirstAt(k, Hash, 0);
        assert k[..0] + k[1..] == k[1..];
      }
    }
  }

  /** A tag comes out of a description exactly when '#' followed by it is
      one of the description's space-separated keywords. */
  lemma ExtractTagsMembers(description: Bytes, t: Tag)
    ensures t in ExtractTags(description) <==> [Hash] + t in Split(description, Space)
  {
    KeepTagsMembers(Split(description, Space), t);
  }

  /** The `/upload` handler up to the blob upload: a too-long description is
      refused before anything else happens; otherwise the new video carries
      the extracted tags and no likes. */
  function PrepareUpload(description: Bytes, videoId: int, creatorId: int): (r: Result<Video, UploadError>)
    ensures r.Failure? <==> |description| > MaxDescriptionLength
    ensures r.Success? ==> r.value.id == videoId && r.value.creatorId == creatorId && r.value.likes == 0
    ensures r.Success? ==> r.value.tags == ExtractTags(description)
    ensures r.Success? ==> forall t :: t in r.value.tags <==> [Hash] + t in Split(description, Space)
  {
    if |description| > MaxDescriptionLength then Failure(DescriptionTooLong)
    else
      var tags := ExtractTags(description);
      assert forall t :: t in tags <==> [Hash] + t in Split(description, Space) by {
        forall t ensures t in tags <==> [Hash] + t in Split(description, Space) {
          ExtractTagsMembers(description, t);
        }
      }
      Success(Video(videoId, creatorId, tags, 0))
  }

  /** A description written as space-separated keywords yields the tags of
      those keywords in their order, repeats included. */
  lemma ExtractJoined(keywords: seq<Bytes>)
    requires |keywords| >= 1
    requires forall i :: 0 <= i < |keywords| ==> Space !in keywords[i]
    ensures ExtractTags(Join(keywords, Space)) == KeepTags(keywords)
  {
    SplitJoin(keywords, Space);
  }

  /** "#a #a" yields the tag "a" twice. */
  lemma RepeatedTagExample()
    ensures ExtractTags([Hash, 0x61, Space, Hash, 0x61]) == [[0x61], [0x61]]
  {
    var k: Bytes := [Hash, 0x61];
    assert Join([k, k], Space) == [Hash, 0x61, Space, Hash, 0x61];
    ExtractJoined([k, k]);
    KeepTagsAppend([k], [k]);
    assert [k, k] == [k] + [k];
    KeepOne(k);
  }

  /** A bare "#" is the empty tag. */
  lemma BareHashExample()
    ensures ExtractTags([Hash]) == [[]]
  {
    SplitJoin([[Hash]], Space);
    KeepOne([Hash]);
  }

  /** Only the first '#' of a keyword is removed. */
  lemma DoubleHashExample()
    ensures ExtractTags([Hash, Hash, 0x61]) == [[Hash, 0x61]]
  {
    SplitJoin([[Hash, Hash, 0x61]], Space);
    KeepOne([Hash, Hash, 0x61]);
  }

  /** Keywords without a leading '#' are dropped: "a #b" yields "b". */
  lemma PlainWordExample()
    ensures ExtractTags([0x61, Space, Hash, 0x62]) == [[0x62]]
  {
    var a: Bytes := [0x61];
    var hb: Bytes := [Hash, 0x62];
    assert Join([a, hb], Space) == [0x61, Space, Hash, 0x62];
    SplitJoin([a, hb], Space);
    KeepTagsAppend([a], [hb]);
    assert [a, hb] == [a] + [hb];
    KeepOne(a);
    KeepOne(hb);
  }
}
