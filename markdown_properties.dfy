/**
 * What each substitution of `processHtml` does to one whole tag.
 */
module MarkdownProperties {
  import opened JsString
  import opened VideoFiles
  import opened TagPatterns
  import opened Markdown

  // ----- Substitution 1: attachment images with a "video" alt -----

  /**
   * A whole `<img>` tag (any case) whose src is a user-attachment URL and that has, after
   * the src, an alt containing "video" (any case) is replaced, as a whole, by the normalised
   * video element for the repository's demo video; the result depends on `repo` alone.
   * Any other `<img>` tag is not matched there.
   */
  lemma AttachmentVideoBecomesVideoElement(repo: string, tag: string, post: string)
    requires IsTag(AttachmentVideos, tag)
    ensures MatchAt(AttachmentVideos, repo, tag + post).Some?
      <==> exists j :: SrcMatchesAt(AttachmentVideos, Body(AttachmentVideos, tag), j)
    ensures MatchAt(AttachmentVideos, repo, tag + post).Some? ==>
      MatchAt(AttachmentVideos, repo, tag + post).value ==
        Match(|tag|, VideoElement(RawContentOwner + repo + "/main/demo_video.mp4"))
  {
    MatchAtTag(AttachmentVideos, repo, tag, post);
    VideoUrlSpelledOut(repo);
  }

  // ----- Substitution 2: remaining attachment images -----

  /**
   * A whole `<img>` tag whose src is a user-attachment URL keeps everything but one span:
   * the first occurrence of the src text in the tag, at or before the src attribute's
   * value, becomes the asset URL of `<id>`, the text after the last '/' of the src.
   */
  lemma AttachmentImagePointsAtAssets(repo: string, tag: string, post: string, src: string)
    requires IsTag(AttachmentImages, tag)
    requires CapturedSrc(AttachmentImages, Body(AttachmentImages, tag)) == Some(src)
    requires '$' !in repo && '$' !in src
    ensures SrcOffset(AttachmentImages, Body(AttachmentImages, tag)).Some?
    ensures StartsWith(src, AttachmentPrefix)
    ensures IndexOf(tag, src).Some?
    ensures
      var p := IndexOf(tag, src).value;
      var id := LastSegment(src);
      && p <= SrcValueStart(AttachmentImages, tag)
      && '/' !in id && |id| < |src| && src[|src| - |id| - 1] == '/' && src[|src| - |id|..] == id
      && MatchAt(AttachmentImages, repo, tag + post) ==
           Some(Match(|tag|, tag[..p] + (RawContentOwner + repo + "/main/assets/" + id) + tag[p + |src|..]))
  {
    CapturedSrcInTag(AttachmentImages, tag, src);
    CapturedSrcFits(AttachmentImages, Body(AttachmentImages, tag), src);
    AttachmentAssetId(src);
    AssetReplacement(repo, tag, src, SrcValueStart(AttachmentImages, tag));
    MatchAtCapturedTag(AttachmentImages, repo, tag, post, src);
  }

  /** The second substitution's callback puts the asset URL, written out, at the first occurrence of the src. */
  lemma AssetReplacement(repo: string, tag: string, src: string, i: nat)
    requires OccursAt(tag, src, i) && StartsWith(src, AttachmentPrefix)
    requires '$' !in repo && '$' !in src
    ensures IndexOf(tag, src).Some? && IndexOf(tag, src).value <= i
    ensures
      var p := IndexOf(tag, src).value;
      Callback(AttachmentImages, repo, tag, src) ==
        tag[..p] + (RawContentOwner + repo + "/main/assets/" + LastSegment(src)) + tag[p + |src|..]
  {
    var id := LastSegment(src);
    AttachmentAssetId(src);
    UrlsWithoutDollar(repo, id);
    ReplaceFirstAtFirstOccurrence(tag, src, AssetUrl(repo, id), i);
    AssetUrlSpelledOut(repo, id);
  }

  /** The asset id of an attachment URL is the text after its last '/', a '/' the prefix already supplies. */
  lemma AttachmentAssetId(src: string)
    requires StartsWith(src, AttachmentPrefix)
    ensures
      var id := LastSegment(src);
      && '/' !in id && |id| < |src| && src[|src| - |id| - 1] == '/' && src[|src| - |id|..] == id
      && ('$' !in src ==> '$' !in id)
  {
    var id := LastSegment(src);
    LastSegmentIsTextAfterLastSlash(src);
    assert src[|AttachmentPrefix| - 1] == '/' by {
      assert src[..|AttachmentPrefix|] == AttachmentPrefix;
    }
    assert forall k :: 0 <= k < |id| ==> id[k] == src[|src| - |id| + k];
    assert '/' !in id by {
      forall c | c in id
        ensures c != '/'
      {
        var k :| 0 <= k < |id| && id[k] == c;
      }
    }
  }

  // ----- Substitution 3: relative image sources -----

  /**
   * A whole `<img>` tag is left as it is when its src starts with "http" (whether or not it
   * is a real URL); otherwise the first occurrence of the src text in the tag, at or before
   * the attribute's value, is replaced by the src resolved against the repository root.
   */
  lemma RelativeImageResolution(repo: string, tag: string, post: string, src: string)
    requires IsTag(RelativeImages, tag)
    requires CapturedSrc(RelativeImages, Body(RelativeImages, tag)) == Some(src)
    requires '$' !in repo && '$' !in src
    ensures SrcOffset(RelativeImages, Body(RelativeImages, tag)).Some?
    ensures IndexOf(tag, src).Some?
    ensures
      var p := IndexOf(tag, src).value;
      && p <= SrcValueStart(RelativeImages, tag)
      && MatchAt(RelativeImages, repo, tag + post) == Some(Match(|tag|,
           if StartsWith(src, "http") then tag
           else tag[..p] + (RawContentOwner + repo + "/main/" + (if StartsWith(src, "/") then src[1..] else src))
                + tag[p + |src|..]))
  {
    CapturedSrcInTag(RelativeImages, tag, src);
    UrlsWithoutDollar(repo, src);
    ReplaceFirstAtFirstOccurrence(tag, src, ResolveRelative(repo, src), SrcValueStart(RelativeImages, tag));
    MatchAtCapturedTag(RelativeImages, repo, tag, post, src);
    ResolveRelativeJoinsWithOneSlash(repo, src);
  }

  /**
   * Text standing after an occurrence `i` of a relative src survives the third substitution's
   * `replace`, shifted by the growth from the src to its resolved URL.
   */
  lemma TextAfterRelativeSrcSurvives(repo: string, tag: string, src: string, i: nat, t: string, a: nat)
    requires !StartsWith(src, "http") && '$' !in repo && '$' !in src
    requires OccursAt(tag, src, i) && i + |src| <= a && OccursAt(tag, t, a)
    ensures
      var shift := |ResolveRelative(repo, src)| - |src|;
      a + shift >= 0 && OccursAt(Callback(RelativeImages, repo, tag, src), t, a + shift)
  {
    UrlsWithoutDollar(repo, src);
    LaterOccurrenceSurvives(tag, src, ResolveRelative(repo, src), i, t, a);
  }

  /**
   * Because only the first occurrence is replaced, a copy of a relative src that stands
   * earlier in the tag (in the alt, say) is the one rewritten: the src attribute itself,
   * `src="<src>"` at offset `a`, comes out of the substitution unchanged.
   */
  lemma EarlierCopyOfSrcIsRewritten(repo: string, tag: string, post: string, src: string, i: nat, a: nat)
    requires IsTag(RelativeImages, tag)
    requires CapturedSrc(RelativeImages, Body(RelativeImages, tag)) == Some(src)
    requires !StartsWith(src, "http") && '$' !in repo && '$' !in src
    requires SrcOffset(RelativeImages, Body(RelativeImages, tag)).Some?
    requires a + |SrcOpen| == SrcValueStart(RelativeImages, tag)
    requires OccursAt(tag, src, i) && i + |src| <= a
    ensures MatchAt(RelativeImages, repo, tag + post).Some?
    ensures
      var out := MatchAt(RelativeImages, repo, tag + post).value.replacement;
      var shift := |ResolveRelative(repo, src)| - |src|;
      OccursAt(out, SrcAttribute(src), a + shift)
  {
    SrcAttributeInTag(RelativeImages, tag, src);
    MatchAtCapturedTag(RelativeImages, repo, tag, post, src);
    TextAfterRelativeSrcSurvives(repo, tag, src, i, SrcAttribute(src), a);
  }

  // ----- Substitution 4: video tags -----

  /**
   * Only the opening `<video ...>` tag is matched. A src starting with "http" that does not
   * contain the attachment marker leaves it unchanged; one that does yields the video
   * element for the repository's demo video; any other src yields the video element for the
   * src resolved against the repository root.
   */
  lemma VideoTagNormalisation(repo: string, tag: string, post: string, src: string)
    requires IsTag(VideoTags, tag)
    requires CapturedSrc(VideoTags, Body(VideoTags, tag)) == Some(src)
    ensures
      MatchAt(VideoTags, repo, tag + post) == Some(Match(|tag|,
        if StartsWith(src, "http") && !Includes(src, AttachmentMarker) then tag
        else if StartsWith(src, "http") then VideoElement(RawContentOwner + repo + "/main/demo_video.mp4")
        else VideoElement(ResolveRelative(repo, src))))
  {
    MatchAtCapturedTag(VideoTags, repo, tag, post, src);
    VideoUrlSpelledOut(repo);
  }

  /**
   * A `<video>` tag with a relative src: the opening tag is replaced by a complete video
   * element, and the original inner content and closing tag still follow it.
   */
  lemma RelativeVideoKeepsContent(repo: string, tag: string, rest: string, src: string)
    requires IsTag(VideoTags, tag)
    requires CapturedSrc(VideoTags, Body(VideoTags, tag)) == Some(src)
    requires !StartsWith(src, "http")
    requires forall i :: 0 <= i < |rest| ==> !OpensTag(VideoTags, rest[i..])
    ensures Rewrite(VideoTags, repo, tag + rest) == VideoElement(ResolveRelative(repo, src)) + rest
  {
    MatchAtCapturedTag(VideoTags, repo, tag, rest, src);
    RewriteReplacesMatch(VideoTags, repo, tag + rest);
    assert (tag + rest)[|tag|..] == rest;
    RewriteWithoutOpener(VideoTags, repo, rest);
  }
}
