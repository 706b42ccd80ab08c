/**
 * How the substitutions of `processHtml` interact. The URLs the first two produce start with
 * "http" and hold no attachment marker, so a later substitution that captures one of them as
 * its src keeps the tag: the video element the first one emits passes the other three
 * unchanged, and so does an `<img>` the second one pointed at an asset through the third. A tag with a second `src="` after its src attribute (a `data-src`, say) is
 * different: the third substitution captures that later value and rewrites the tag the
 * second one wrote.
 */
module StageOrder {
  import opened JsString
  import opened TagPatterns
  import opened Markdown

  /** The characters GitHub allows in a repository name. */
  predicate RepoNameChar(c: char) {
    'a' <= c <= 'z' || 'A' <= c <= 'Z' || '0' <= c <= '9' || c == '.' || c == '_' || c == '-'
  }

  predicate ValidRepoName(repo: string) {
    |repo| >= 1 && forall i :: 0 <= i < |repo| ==> RepoNameChar(repo[i])
  }

  /** No character that would open or close a tag or a quoted value. */
  predicate TagSafe(s: string) {
    forall i :: 0 <= i < |s| ==> s[i] != '<' && s[i] != '>' && s[i] != '"'
  }

  /** A valid repository name holds no '/', no '$' and no tag or quote character. */
  lemma ValidRepoNameIsPlain(repo: string)
    requires ValidRepoName(repo)
    ensures '/' !in repo && '$' !in repo && TagSafe(repo)
  {
    forall c | c in repo
      ensures RepoNameChar(c)
    {
      var i :| 0 <= i < |repo| && repo[i] == c;
    }
  }

  /** The demo-video URL of a valid repository name holds no tag or quote character. */
  lemma VideoUrlIsTagSafe(repo: string)
    requires ValidRepoName(repo)
    ensures TagSafe(VideoUrl(repo)) && |VideoUrl(repo)| >= 1
  {
    ValidRepoNameIsPlain(repo);
    VideoUrlSpelledOut(repo);
    OwnerIsTagSafe();
    TagSafeConcat(RawContentOwner, repo);
    assert TagSafe("/main/demo_video.mp4");
    TagSafeConcat(RawContentOwner + repo, "/main/demo_video.mp4");
  }

  lemma OwnerIsTagSafe()
    ensures TagSafe(RawContentOwner)
  {
  }

  lemma TagSafeConcat(a: string, b: string)
    requires TagSafe(a) && TagSafe(b)
    ensures TagSafe(a + b)
  {
    forall i | 0 <= i < |a + b|
      ensures (a + b)[i] != '<' && (a + b)[i] != '>' && (a + b)[i] != '"'
    {
      if i >= |a| {
        assert (a + b)[i] == b[i - |a|];
      }
    }
  }

  /**
   * The slashes of the owner prefix `https://raw.githubusercontent.com/yuvalm11/` of every
   * raw-content URL: the two after `https:` (6 and 7), the one after the 25-letter host (33)
   * and the one after `yuvalm11` (42). The prefix is 43 characters long, so the repository
   * name starts at 43 and the slashes of `/main/` and `/main/assets/` behind it stand at
   * 43, 48 and 55 past its length.
   */
  lemma OwnerSlashes(i: int)
    requires 0 <= i < |RawContentOwner| && RawContentOwner[i] == '/'
    ensures i == 6 || i == 7 || i == 33 || i == 42
  {
  }

  /**
   * The attachment marker `github.com/user-attachments/assets/`: it starts with 'g', and its
   * slashes stand after `github.com` (10), `user-attachments` (27) and `assets` (34).
   */
  lemma MarkerShape(u: string, q: int)
    requires OccursAt(u, AttachmentMarker, q)
    ensures u[q] == 'g' && u[q + 10] == '/' && u[q + 27] == '/' && u[q + 34] == '/'
  {
    var m := u[q..q + |AttachmentMarker|];
    assert m == AttachmentMarker;
    assert u[q] == m[0] && u[q + 10] == m[10] && u[q + 27] == m[27] && u[q + 34] == m[34];
  }

  /** The slashes of the demo-video URL, for a repository name without '/'. */
  lemma VideoUrlSlashes(repo: string, i: int)
    requires '/' !in repo
    requires 0 <= i < |VideoUrl(repo)| && VideoUrl(repo)[i] == '/'
    ensures i == 6 || i == 7 || i == 33 || i == 42 || i == 43 + |repo| || i == 48 + |repo|
  {
    var tail := "/main/demo_video.mp4";
    var u := RawContentOwner + repo + tail;
    VideoUrlSpelledOut(repo);
    if i < |RawContentOwner| {
      assert u[i] == RawContentOwner[i];
      OwnerSlashes(i);
    } else if i >= |RawContentOwner| + |repo| {
      assert u[i] == tail[i - |RawContentOwner| - |repo|];
    }
  }

  /** The slashes of an asset URL, for a repository name and an id without '/'. */
  lemma AssetUrlSlashes(repo: string, id: string, i: int)
    requires '/' !in repo && '/' !in id
    requires 0 <= i < |AssetUrl(repo, id)| && AssetUrl(repo, id)[i] == '/'
    ensures i == 6 || i == 7 || i == 33 || i == 42 || i == 43 + |repo| || i == 48 + |repo| || i == 55 + |repo|
  {
    var mid := "/main/assets/";
    var u := RawContentOwner + repo + mid + id;
    AssetUrlSpelledOut(repo, id);
    if i < |RawContentOwner| {
      assert u[i] == RawContentOwner[i];
      OwnerSlashes(i);
    } else if |RawContentOwner| + |repo| <= i < |RawContentOwner| + |repo| + |mid| {
      assert u[i] == mid[i - |RawContentOwner| - |repo|];
    }
  }

  /** Where the slashes of the demo-video URL stand. */
  lemma VideoUrlShape(repo: string)
    requires '/' !in repo
    ensures forall i :: 0 <= i < |VideoUrl(repo)| && VideoUrl(repo)[i] == '/' ==>
      i == 6 || i == 7 || i == 33 || i == 42 || i == 43 + |repo| || i == 48 + |repo|
  {
    forall i | 0 <= i < |VideoUrl(repo)| && VideoUrl(repo)[i] == '/'
      ensures i == 6 || i == 7 || i == 33 || i == 42 || i == 43 + |repo| || i == 48 + |repo|
    {
      VideoUrlSlashes(repo, i);
    }
  }

  /** Where the slashes of an asset URL stand, and that it begins with the owner prefix. */
  lemma AssetUrlShape(repo: string, id: string)
    requires '/' !in repo && '/' !in id
    ensures forall i :: 0 <= i < |AssetUrl(repo, id)| && AssetUrl(repo, id)[i] == '/' ==>
      i == 6 || i == 7 || i == 33 || i == 42 || i == 43 + |repo| || i == 48 + |repo| || i == 55 + |repo|
    ensures forall i :: 0 <= i < |RawContentOwner| ==> AssetUrl(repo, id)[i] == RawContentOwner[i]
  {
    forall i | 0 <= i < |AssetUrl(repo, id)| && AssetUrl(repo, id)[i] == '/'
      ensures i == 6 || i == 7 || i == 33 || i == 42 || i == 43 + |repo| || i == 48 + |repo| || i == 55 + |repo|
    {
      AssetUrlSlashes(repo, id, i);
    }
    AssetUrlSpelledOut(repo, id);
  }

  /**
   * The URL the first substitution (and the fourth, for attachments) emits is an absolute
   * raw-content URL that does not contain the attachment marker, for any repository name
   * without '/'.
   */
  lemma VideoUrlIsFinal(repo: string)
    requires '/' !in repo
    ensures StartsWith(VideoUrl(repo), "http")
    ensures !Includes(VideoUrl(repo), AttachmentMarker)
    ensures forall tag :: Callback(VideoTags, repo, tag, VideoUrl(repo)) == tag
  {
    var u := VideoUrl(repo);
    VideoUrlSpelledOut(repo);
    assert u[..|RawContentOwner|] == RawContentOwner;
    RawUrlStartsWithHttp(u);
    VideoUrlShape(repo);
    if Includes(u, AttachmentMarker) {
      MarkerShape(u, IndexOf(u, AttachmentMarker).value);
    }
  }

  /**
   * The URL the second substitution emits is an absolute raw-content URL without the
   * attachment marker, so the third substitution keeps any tag whose captured src it is.
   */
  lemma AssetUrlIsFinal(repo: string, id: string)
    requires '/' !in repo && '/' !in id
    ensures StartsWith(AssetUrl(repo, id), "http")
    ensures !Includes(AssetUrl(repo, id), AttachmentMarker)
    ensures forall tag :: Callback(RelativeImages, repo, tag, AssetUrl(repo, id)) == tag
  {
    var u := AssetUrl(repo, id);
    AssetUrlShape(repo, id);
    assert u[..|RawContentOwner|] == RawContentOwner;
    RawUrlStartsWithHttp(u);
    assert RawContentOwner[23] == 'o' && RawContentOwner[32] == 'm';
    if Includes(u, AttachmentMarker) {
      MarkerShape(u, IndexOf(u, AttachmentMarker).value);
    }
  }

  // ----- The video element of the first substitution passes the later ones -----

  /** Text in which every '<' is followed by something other than the opener's second letter. */
  lemma NoOpenerInside(st: Stage, x: string, y: string)
    requires st != AttachmentVideos
    requires forall i :: 0 <= i < |x| && x[i] == '<' ==> i + 1 < |x| && x[i + 1] != Opener(st)[1]
    ensures forall i :: 0 <= i < |x| ==> !OpensTag(st, (x + y)[i..])
  {
    forall i | 0 <= i < |x|
      ensures !OpensTag(st, (x + y)[i..])
    {
      OpenerChars(st, (x + y)[i..]);
    }
  }

  /**
   * In a tag body that ends with `src="`, a tag-safe url and a '"', the `<video` pattern
   * matches at that last `src="` with the url as its value, and at no later offset.
   */
  lemma VideoBodyMatch(w: string, url: string)
    requires TagSafe(url) && |url| >= 1 && EndsWith(w, SrcOpen)
    ensures SrcMatchesAt(VideoTags, w + url + "\"", |w| - |SrcOpen|)
    ensures QuotedValue(w + url + "\"", |w|) == Some(url)
    ensures forall k :: |w| - |SrcOpen| < k ==> !SrcMatchesAt(VideoTags, w + url + "\"", k)
  {
    TagSafeIsPlain(url);
    ValueAfterLastSrcOpen(VideoTags, w, url);
  }

  /** The opening tag of the video element emitted for `url`. */
  function VideoOpeningTag(url: string): string {
    "<video" + (VideoAttributes + SrcOpen + url + "\"") + ">"
  }

  /** The opening tag of a video element is one whole tag, and the `<video` pattern captures `url` from it. */
  lemma VideoElementTag(url: string)
    requires TagSafe(url) && |url| >= 1
    ensures IsTag(VideoTags, VideoOpeningTag(url))
    ensures CapturedSrc(VideoTags, Body(VideoTags, VideoOpeningTag(url))) == Some(url)
    ensures VideoElement(url) == VideoOpeningTag(url) + "</video>"
  {
    var w := VideoAttributes + SrcOpen;
    var b := w + url + "\"";
    assert '>' !in VideoAttributes;
    WholeTag(VideoTags, b);
    assert w[|w| - |SrcOpen|..] == SrcOpen;
    VideoBodyMatch(w, url);
    CapturedSrcAtLastMatch(VideoTags, b, |w| - |SrcOpen|);
    VideoElementSplits(url);
  }

  /** The fourth substitution matches the opening tag of the demo-video element and keeps it. */
  lemma VideoOpeningTagKept(repo: string, post: string)
    requires ValidRepoName(repo)
    ensures
      var tag := VideoOpeningTag(VideoUrl(repo));
      MatchAt(VideoTags, repo, tag + post) == Some(Match(|tag|, tag))
  {
    var url := VideoUrl(repo);
    ValidRepoNameIsPlain(repo);
    VideoUrlIsTagSafe(repo);
    VideoUrlIsFinal(repo);
    VideoElementTag(url);
    MatchAtCapturedTag(VideoTags, repo, VideoOpeningTag(url), post, url);
  }

  /** The video element is its opening tag followed by `</video>`. */
  lemma VideoElementSplits(url: string)
    ensures VideoElement(url) == VideoOpeningTag(url) + "</video>"
  {
    var e := VideoElement(url);
    var t := VideoOpeningTag(url) + "</video>";
    assert |e| == |t|;
    forall k | 0 <= k < |e|
      ensures e[k] == t[k]
    {
      var n := |VideoOpen|;
      // The empty branches split the index into the head, the url and the tail, which is
      // all the solver needs to line the two strings up.
      if k < n {
      } else if k < n + |url| {
      } else {
      }
    }
  }

  lemma AttributesHaveNoAngle()
    ensures '<' !in VideoAttributes
  {
  }

  lemma CloseTagHasOneAngle()
    ensures forall i :: 0 <= i < |"</video>"| && "</video>"[i] == '<' ==> i == 0
  {
  }

  /** No `<video` starts inside a closing `</video>` tag, whatever follows it. */
  lemma CloseTagStartsNothing(rest: string)
    ensures forall i :: 0 <= i < |"</video>"| ==> !OpensTag(VideoTags, ("</video>" + rest)[i..])
  {
    CloseTagHasOneAngle();
    assert "</video>"[1] != Opener(VideoTags)[1];
    NoOpenerInside(VideoTags, "</video>", rest);
  }

  /** The opening text of the video element has its only '<' in front. */
  lemma VideoOpenAngle()
    ensures forall k :: 0 < k < |VideoOpen| ==> VideoOpen[k] != '<'
  {
    var a := VideoAttributes;
    AttributesHaveNoAngle();
    forall k | 0 < k < |VideoOpen|
      ensures VideoOpen[k] != '<'
    {
      if k < 6 {
        assert VideoOpen[k] == "<video"[k];
      } else if k < 6 + |a| {
        assert VideoOpen[k] == a[k - 6];
      } else {
        assert VideoOpen[k] == SrcOpen[k - 6 - |a|];
      }
    }
  }

  /**
   * A video element holds '<' only where `<video` and `</video>` begin, for a url without
   * one.
   */
  lemma VideoElementAngles(url: string)
    requires TagSafe(url)
    ensures
      var e := VideoElement(url);
      var c := |VideoOpen| + |url| + 2;
      && c + 1 < |e| && e[1] == 'v' && e[c + 1] == '/'
      && forall i :: 0 <= i < |e| && i != 0 && i != c ==> e[i] != '<'
  {
    var e := VideoElement(url);
    var n := |VideoOpen|;
    VideoOpenAngle();
    assert e[1] == VideoOpen[1];
    assert e[n + |url| + 3] == VideoClose[3];
    forall i | 0 <= i < |e| && i != 0 && i != n + |url| + 2
      ensures e[i] != '<'
    {
      if i < n {
        assert e[i] == VideoOpen[i];
      } else if i < n + |url| {
        assert e[i] == url[i - n];
      } else {
        assert e[i] == VideoClose[i - n - |url|];
      }
    }
  }

  /**
   * The second and third substitutions look only for `<img`, so they copy the video element
   * the first substitution emitted and carry on behind it.
   */
  lemma VideoElementPassesImageStages(st: Stage, repo: string, url: string, rest: string)
    requires st == AttachmentImages || st == RelativeImages
    requires TagSafe(url)
    ensures Rewrite(st, repo, VideoElement(url) + rest) == VideoElement(url) + Rewrite(st, repo, rest)
  {
    var e := VideoElement(url);
    VideoElementAngles(url);
    NoOpenerInside(st, e, rest);
    RewriteCopiesPrefix(st, repo, e, rest);
  }

  /**
   * The fourth substitution matches the opening tag of the video element the first one
   * emitted, captures the demo-video URL, and gives the tag back unchanged: the element
   * comes out of it as it went in.
   */
  lemma VideoElementPassesVideoTags(repo: string, rest: string)
    requires ValidRepoName(repo)
    ensures
      var e := VideoElement(VideoUrl(repo));
      Rewrite(VideoTags, repo, e + rest) == e + Rewrite(VideoTags, repo, rest)
  {
    var url := VideoUrl(repo);
    var close := "</video>";
    ValidRepoNameIsPlain(repo);
    VideoUrlIsTagSafe(repo);
    VideoElementTag(url);
    VideoOpeningTagKept(repo, close + rest);
    CloseTagStartsNothing(rest);
    RewriteKeptTagThenCopied(VideoTags, repo, VideoOpeningTag(url), close, rest);
  }

  /**
   * End to end: an attachment `<img>` with a "video" alt becomes the demo-video element in
   * the first substitution, and the other three leave that element in place, so `processHtml`
   * emits it followed by what it makes of the rest of the HTML.
   */
  lemma AttachmentVideoSurvivesAllStages(repo: string, tag: string, rest: string)
    requires ValidRepoName(repo)
    requires IsTag(AttachmentVideos, tag)
    requires exists j :: SrcMatchesAt(AttachmentVideos, Body(AttachmentVideos, tag), j)
    ensures ProcessHtml(tag + rest, repo) == VideoElement(VideoUrl(repo)) + ProcessHtml(rest, repo)
  {
    var url := VideoUrl(repo);
    var e := VideoElement(url);
    MatchAtTag(AttachmentVideos, repo, tag, rest);
    RewriteReplacesMatch(AttachmentVideos, repo, tag + rest);
    assert (tag + rest)[|tag|..] == rest;
    var s1 := Rewrite(AttachmentVideos, repo, rest);
    assert Rewrite(AttachmentVideos, repo, tag + rest) == e + s1;
    VideoUrlIsTagSafe(repo);
    VideoElementPassesImageStages(AttachmentImages, repo, url, s1);
    var s2 := Rewrite(AttachmentImages, repo, s1);
    VideoElementPassesImageStages(RelativeImages, repo, url, s2);
    var s3 := Rewrite(RelativeImages, repo, s2);
    VideoElementPassesVideoTags(repo, s3);
  }

  // ----- A later `src="` lets the third substitution rewrite an asset URL -----

  /** What lies between the value of a `src` attribute and the value of a later `data-src`. */
  const DataSrcOpen := "\" data-" + SrcOpen

  /** The body of an `<img>` with a `src` attribute holding `v` and a later `data-src` holding `id`. */
  function DataSrcBody(v: string, id: string): string {
    " " + SrcOpen + v + DataSrcOpen + id + "\""
  }

  function DataSrcTag(v: string, id: string): string {
    "<img" + DataSrcBody(v, id) + ">"
  }

  /** The tag is its head `<img src="`, the value `v`, and what follows the value. */
  lemma DataSrcTagSplits(v: string, id: string)
    ensures DataSrcTag(v, id) == ("<img " + SrcOpen) + v + (DataSrcOpen + id + "\">")
  {
    var t := DataSrcTag(v, id);
    var u := ("<img " + SrcOpen) + v + (DataSrcOpen + id + "\">");
    assert |t| == |u|;
    forall k | 0 <= k < |t|
      ensures t[k] == u[k]
    {
      if k < 10 {
      } else if k < 10 + |v| {
        assert t[k] == v[k - 10] == u[k];
      } else {
        assert t[k] == (DataSrcOpen + id + "\">")[k - 10 - |v|] == u[k];
      }
    }
  }

  /** A value without '"' that stands at `a` and is followed by '"' is the quoted value there. */
  lemma QuotedValueIs(body: string, a: nat, v: string)
    requires a + |v| < |body| && body[a..a + |v|] == v && '"' !in v && body[a + |v|] == '"'
    ensures QuotedValue(body, a) == Some(v)
  {
    forall t | a <= t < a + |v|
      ensures body[t] != '"'
    {
      assert body[t] == v[t - a];
    }
    assert IndexOfChar(body, '"', a) == Some(a + |v|);
  }

  /**
   * In a case-sensitive pattern, a body that ends with `src="`, a value without '"' and a
   * '"' offers that value at its last `src="`, and no `src="` after that one can match.
   */
  lemma ValueAfterLastSrcOpen(st: Stage, w: string, v: string)
    requires st != AttachmentVideos
    requires '"' !in v && EndsWith(w, SrcOpen)
    ensures AttrAt(st, w + v + "\"", SrcOpen, |w| - |SrcOpen|)
    ensures QuotedValue(w + v + "\"", |w|) == Some(v)
    ensures forall k :: |w| - |SrcOpen| < k ==> !SrcMatchesAt(st, w + v + "\"", k)
  {
    var body := w + v + "\"";
    assert body[|w|..|w| + |v|] == v;
    QuotedValueIs(body, |w|, v);
    assert body[|w| - |SrcOpen|..|w|] == w[|w| - |SrcOpen|..];
    forall k | |w| - |SrcOpen| < k
      ensures !SrcMatchesAt(st, body, k)
    {
      if OccursAt(body, SrcOpen, k) {
        assert body[k + 4] == body[k..k + |SrcOpen|][4];
        assert QuotedValue(body, |body|).None?;
      }
    }
  }

  /** No text without '/' starts with the attachment prefix. */
  lemma NoSlashNoAttachment(s: string)
    requires '/' !in s
    ensures !StartsWith(s, AttachmentPrefix)
  {
    if |s| >= |AttachmentPrefix| {
      assert s[..|AttachmentPrefix|][6] == s[6];
      assert s[6] in s;
    }
  }

  /** The last segment of an attachment URL whose id holds no '/' is that id. */
  lemma LastSegmentOfAttachment(id: string)
    requires '/' !in id
    ensures LastSegment(AttachmentPrefix + id) == id
  {
    var v := AttachmentPrefix + id;
    var last := LastSegment(v);
    var n := |AttachmentPrefix|;
    LastSegmentIsTextAfterLastSlash(v);
    assert v[n - 1] == '/';
    assert forall k :: 0 <= k < |last| ==> last[k] == v[|v| - |last| + k];
    assert forall k :: 0 <= k < |id| ==> id[k] == v[n + k];
    assert v[|v| - |id|..] == id;
  }

  /**
   * Between the `src` value and the `data-src` attribute there is no `src="` at which the
   * second pattern matches: the only '"' there closes the `src` value, and what follows it
   * is not an attachment URL.
   */
  lemma NoAttachmentSrcBetween(v: string, id: string, k: int)
    requires '"' !in v
    requires 1 < k < 13 + |v|
    ensures !SrcMatchesAt(AttachmentImages, DataSrcBody(v, id), k)
  {
    var body := DataSrcBody(v, id);
    var n := 6 + |v|;
    SrcOpenHasQuote(body, k);
    DataSrcOpenQuotes();
    if k + 4 < n {
      assert body[k + 4] == v[k - 2];
    } else if k + 4 > n {
      assert body[k + 4] == DataSrcOpen[k + 4 - n];
    } else {
      assert body[n + 1] == ' ';
      match QuotedValue(body, n + 1)
      case None =>
      case Some(r) =>
        if |r| >= |AttachmentPrefix| {
          assert r[0] == body[n + 1];
          assert r[..|AttachmentPrefix|][0] == r[0];
        }
    }
  }

  /** Inside the text between the two values, '"' stands only at both ends. */
  lemma DataSrcOpenQuotes()
    ensures forall j :: 0 < j < |DataSrcOpen| - 1 ==> DataSrcOpen[j] != '"'
  {
  }

  /** The body is a prefix ending with the `src="` of `data-src`, the id, and a '"'. */
  lemma DataSrcBodyShape(v: string, id: string)
    ensures
      var w := " " + SrcOpen + v + DataSrcOpen;
      DataSrcBody(v, id) == w + id + "\"" && EndsWith(w, SrcOpen)
  {
    var w := " " + SrcOpen + v + DataSrcOpen;
    assert w[|w| - |SrcOpen|..] == DataSrcOpen[|DataSrcOpen| - |SrcOpen|..] == SrcOpen;
  }

  /** Every `src="` ends with a '"'. */
  lemma SrcOpenHasQuote(body: string, k: int)
    ensures OccursAt(body, SrcOpen, k) ==> body[k + 4] == '"'
  {
    if OccursAt(body, SrcOpen, k) {
      assert body[k + 4] == body[k..k + |SrcOpen|][4];
    }
  }

  /**
   * The second substitution turns `<img src="<attachment>/<id>" data-src="<id>">` into the
   * same tag with the asset URL of `<id>` in its `src` attribute.
   */
  lemma AttachmentWithDataSrc(repo: string, id: string, post: string)
    requires ValidRepoName(repo)
    requires |id| >= 1 && TagSafe(id) && '/' !in id && '$' !in id
    ensures
      var tag := DataSrcTag(AttachmentPrefix + id, id);
      MatchAt(AttachmentImages, repo, tag + post) ==
        Some(Match(|tag|, DataSrcTag(AssetUrl(repo, id), id)))
  {
    var v := AttachmentPrefix + id;
    DataSrcCapturedByStageTwo(id);
    MatchAtCapturedTag(AttachmentImages, repo, DataSrcTag(v, id), post, v);
    LastSegmentOfAttachment(id);
    AssetAtValue(repo, id);
  }

  /** The second pattern settles on the `src` attribute, not on `data-src`. */
  lemma DataSrcCapturedByStageTwo(id: string)
    requires |id| >= 1 && TagSafe(id) && '/' !in id
    ensures IsTag(AttachmentImages, DataSrcTag(AttachmentPrefix + id, id))
    ensures
      var v := AttachmentPrefix + id;
      CapturedSrc(AttachmentImages, Body(AttachmentImages, DataSrcTag(v, id))) == Some(v)
  {
    var v := AttachmentPrefix + id;
    TagSafeIsPlain(id);
    AttachmentPrefixIsPlain();
    DataSrcTagIsTag(AttachmentImages, v, id);
    AttachmentSrcMatches(id);
    NoLaterAttachmentSrc(id);
    CapturedSrcAtLastMatch(AttachmentImages, DataSrcBody(v, id), 1);
  }

  lemma AttachmentPrefixIsPlain()
    ensures '"' !in AttachmentPrefix && '>' !in AttachmentPrefix
  {
  }

  /** The tag is one whole tag of any stage whose opener is `<img`, with the expected body. */
  lemma DataSrcTagIsTag(st: Stage, v: string, id: string)
    requires st != VideoTags
    requires '>' !in v && '>' !in id
    ensures IsTag(st, DataSrcTag(v, id))
    ensures Body(st, DataSrcTag(v, id)) == DataSrcBody(v, id)
  {
    assert '>' !in DataSrcOpen && '>' !in SrcOpen;
    WholeTag(st, DataSrcBody(v, id));
  }

  /** The second pattern matches at the `src="` of the `src` attribute, with the attachment URL as its value. */
  lemma AttachmentSrcMatches(id: string)
    requires |id| >= 1 && '"' !in id
    ensures SrcMatchesAt(AttachmentImages, DataSrcBody(AttachmentPrefix + id, id), 1)
    ensures QuotedValue(DataSrcBody(AttachmentPrefix + id, id), 1 + |SrcOpen|) == Some(AttachmentPrefix + id)
  {
    var v := AttachmentPrefix + id;
    var body := DataSrcBody(v, id);
    AttachmentPrefixIsPlain();
    assert body[1..6] == SrcOpen;
    assert body[6..6 + |v|] == v;
    QuotedValueIs(body, 6, v);
    assert v[..|AttachmentPrefix|] == AttachmentPrefix;
  }

  /** Past the `src` attribute, the second pattern matches at no `src="`. */
  lemma NoLaterAttachmentSrc(id: string)
    requires '"' !in id && '/' !in id
    ensures forall k :: 1 < k ==> !SrcMatchesAt(AttachmentImages, DataSrcBody(AttachmentPrefix + id, id), k)
  {
    var v := AttachmentPrefix + id;
    var body := DataSrcBody(v, id);
    var w := " " + SrcOpen + v + DataSrcOpen;
    AttachmentPrefixIsPlain();
    DataSrcBodyShape(v, id);
    ValueAfterLastSrcOpen(AttachmentImages, w, id);
    NoSlashNoAttachment(id);
    forall k | 1 < k < |w| - |SrcOpen|
      ensures !SrcMatchesAt(AttachmentImages, body, k)
    {
      NoAttachmentSrcBetween(v, id, k);
    }
  }

  /** The second substitution's `replace` finds the attachment URL at the `src` value and puts the asset URL there. */
  lemma AssetAtValue(repo: string, id: string)
    requires ValidRepoName(repo) && '$' !in id
    ensures
      var v := AttachmentPrefix + id;
      ReplaceFirst(DataSrcTag(v, id), v, AssetUrl(repo, id)) == DataSrcTag(AssetUrl(repo, id), id)
  {
    var v := AttachmentPrefix + id;
    var u := AssetUrl(repo, id);
    DataSrcTagSplits(v, id);
    DataSrcTagSplits(u, id);
    AssetAfterHead(repo, id, DataSrcOpen + id + "\">");
  }

  /**
   * In a tag that begins `<img src="` followed by an attachment URL, the first occurrence of
   * that URL is the `src` value, and `replace` puts the asset URL there, whatever follows.
   */
  lemma AssetAfterHead(repo: string, id: string, tail: string)
    requires ValidRepoName(repo) && '$' !in id
    ensures
      var head := "<img " + SrcOpen;
      var v := AttachmentPrefix + id;
      ReplaceFirst(head + v + tail, v, AssetUrl(repo, id)) == head + AssetUrl(repo, id) + tail
  {
    var v := AttachmentPrefix + id;
    var u := AssetUrl(repo, id);
    var head := "<img " + SrcOpen;
    var tag := head + v + tail;
    ValidRepoNameIsPlain(repo);
    UrlsWithoutDollar(repo, id);
    assert tag[10..10 + |v|] == v;
    ReplaceFirstAtFirstOccurrence(tag, v, u, 10);
    var p := IndexOf(tag, v).value;
    assert tag[p] == v[0] == 'h';
    assert p == 10 by {
      assert forall k :: 0 <= k < 10 ==> tag[k] == head[k] != 'h';
    }
    assert tag[..10] == head && tag[10 + |v|..] == tail;
  }

  /**
   * The third substitution does not keep the tag the second one wrote: its greedy `[^>]+`
   * settles on the `src="` of `data-src` and captures `<id>`, and `replace` rewrites the
   * first occurrence of `<id>` in the tag, which stands no later than the end of the asset
   * URL, into the resolved URL of `<id>`.
   */
  lemma StageThreeRewritesAssetUrl(repo: string, id: string, post: string)
    requires ValidRepoName(repo)
    requires |id| >= 1 && TagSafe(id) && '$' !in id && !StartsWith(id, "http")
    ensures
      var u := AssetUrl(repo, id);
      var tag := DataSrcTag(u, id);
      && CapturedSrc(RelativeImages, Body(RelativeImages, tag)) == Some(id)
      && IndexOf(tag, id).Some?
      && IndexOf(tag, id).value <= |"<img " + SrcOpen| + |u| - |id|
      && MatchAt(RelativeImages, repo, tag + post) == Some(Match(|tag|,
           tag[..IndexOf(tag, id).value] + ResolveRelative(repo, id) + tag[IndexOf(tag, id).value + |id|..]))
      && MatchAt(RelativeImages, repo, tag + post).value.replacement != tag
  {
    var tag := DataSrcTag(AssetUrl(repo, id), id);
    DataSrcCapturedByStageThree(repo, id);
    MatchAtCapturedTag(RelativeImages, repo, tag, post, id);
    ResolvedAtFirstId(repo, id);
  }

  /** The third pattern settles on the `src="` of `data-src` in the tag the second substitution wrote. */
  lemma DataSrcCapturedByStageThree(repo: string, id: string)
    requires ValidRepoName(repo)
    requires |id| >= 1 && TagSafe(id)
    ensures IsTag(RelativeImages, DataSrcTag(AssetUrl(repo, id), id))
    ensures CapturedSrc(RelativeImages, Body(RelativeImages, DataSrcTag(AssetUrl(repo, id), id))) == Some(id)
  {
    var u := AssetUrl(repo, id);
    var body := DataSrcBody(u, id);
    var w := " " + SrcOpen + u + DataSrcOpen;
    AssetUrlIsTagSafe(repo, id);
    TagSafeIsPlain(u);
    TagSafeIsPlain(id);
    DataSrcTagIsTag(RelativeImages, u, id);
    DataSrcBodyShape(u, id);
    ValueAfterLastSrcOpen(RelativeImages, w, id);
    CapturedSrcAtLastMatch(RelativeImages, body, |w| - |SrcOpen|);
  }

  /** `replace` puts the resolved URL of `<id>` at its first occurrence, no later than the end of the asset URL. */
  lemma ResolvedAtFirstId(repo: string, id: string)
    requires ValidRepoName(repo)
    requires '$' !in id
    ensures
      var u := AssetUrl(repo, id);
      var tag := DataSrcTag(u, id);
      var r := ResolveRelative(repo, id);
      && IndexOf(tag, id).Some?
      && IndexOf(tag, id).value <= |"<img " + SrcOpen| + |u| - |id|
      && ReplaceFirst(tag, id, r) == tag[..IndexOf(tag, id).value] + r + tag[IndexOf(tag, id).value + |id|..]
      && |r| > |id|
  {
    var u := AssetUrl(repo, id);
    ValidRepoNameIsPlain(repo);
    IdEndsAssetUrl(repo, id);
    UrlsWithoutDollar(repo, id);
    ReplaceFirstAtFirstOccurrence(DataSrcTag(u, id), id, ResolveRelative(repo, id), 10 + |u| - |id|);
    ResolveRelativeJoinsWithOneSlash(repo, id);
  }

  /** A tag-safe text holds no '"' and no '>'. */
  lemma TagSafeIsPlain(s: string)
    requires TagSafe(s)
    ensures '"' !in s && '>' !in s
  {
    forall c | c in s
      ensures c != '"' && c != '>'
    {
      var i :| 0 <= i < |s| && s[i] == c;
    }
  }

  /** An asset URL built from a valid repository name and a tag-safe id is tag-safe. */
  lemma AssetUrlIsTagSafe(repo: string, id: string)
    requires ValidRepoName(repo) && TagSafe(id)
    ensures TagSafe(AssetUrl(repo, id))
  {
    ValidRepoNameIsPlain(repo);
    AssetUrlSpelledOut(repo, id);
    OwnerIsTagSafe();
    TagSafeConcat(RawContentOwner, repo);
    assert TagSafe("/main/assets/");
    TagSafeConcat(RawContentOwner + repo, "/main/assets/");
    TagSafeConcat(RawContentOwner + repo + "/main/assets/", id);
  }

  /** The id stands at the end of the asset URL inside the tag. */
  lemma IdEndsAssetUrl(repo: string, id: string)
    ensures
      var u := AssetUrl(repo, id);
      |u| >= |id| && OccursAt(DataSrcTag(u, id), id, 10 + |u| - |id|)
  {
    var u := AssetUrl(repo, id);
    DataSrcTagSplits(u, id);
    var tag := DataSrcTag(u, id);
    assert tag[10..10 + |u|] == u;
    assert u[|u| - |id|..] == id;
    assert tag[10 + |u| - |id|..10 + |u|] == u[|u| - |id|..];
  }

  // ----- An ordinary attachment image keeps its asset URL through the third substitution -----

  /** The body of an `<img>` whose only attribute is `src`, holding `v`. */
  function PlainBody(v: string): string {
    " " + SrcOpen + v + "\""
  }

  /** An `<img>` whose only attribute is `src`, holding `v`. */
  function PlainTag(v: string): string {
    "<img" + PlainBody(v) + ">"
  }

  /** The tag is its head `<img src="`, the value `v`, and `">`. */
  lemma PlainTagSplits(v: string)
    ensures PlainTag(v) == ("<img " + SrcOpen) + v + "\">"
  {
  }

  /**
   * Both `<img` patterns without a video alt read the plain tag as one whole tag and, when
   * its value fits the pattern, capture that value.
   */
  lemma PlainTagCaptured(st: Stage, v: string)
    requires st == AttachmentImages || st == RelativeImages
    requires '"' !in v && '>' !in v
    requires SrcValueFits(st, PlainBody(v), v, |PlainBody(v)|)
    ensures IsTag(st, PlainTag(v))
    ensures CapturedSrc(st, Body(st, PlainTag(v))) == Some(v)
  {
    var w := " " + SrcOpen;
    assert '>' !in SrcOpen;
    WholeTag(st, PlainBody(v));
    assert w[|w| - |SrcOpen|..] == SrcOpen;
    ValueAfterLastSrcOpen(st, w, v);
    CapturedSrcAtLastMatch(st, PlainBody(v), 1);
  }

  /** The second pattern captures the attachment URL from the plain tag holding it. */
  lemma PlainAttachmentCaptured(id: string)
    requires |id| >= 1 && TagSafe(id)
    ensures IsTag(AttachmentImages, PlainTag(AttachmentPrefix + id))
    ensures CapturedSrc(AttachmentImages, Body(AttachmentImages, PlainTag(AttachmentPrefix + id))) == Some(AttachmentPrefix + id)
  {
    var v := AttachmentPrefix + id;
    TagSafeIsPlain(id);
    AttachmentPrefixIsPlain();
    assert v[..|AttachmentPrefix|] == AttachmentPrefix;
    PlainTagCaptured(AttachmentImages, v);
  }

  /** The second substitution turns `<img src="<attachment>/<id>">` into `<img src="<asset URL of id>">`. */
  lemma PlainAttachmentBecomesAsset(repo: string, id: string, post: string)
    requires ValidRepoName(repo)
    requires |id| >= 1 && TagSafe(id) && '/' !in id && '$' !in id
    ensures
      var tag := PlainTag(AttachmentPrefix + id);
      MatchAt(AttachmentImages, repo, tag + post) == Some(Match(|tag|, PlainTag(AssetUrl(repo, id))))
  {
    var v := AttachmentPrefix + id;
    PlainAttachmentCaptured(id);
    MatchAtCapturedTag(AttachmentImages, repo, PlainTag(v), post, v);
    LastSegmentOfAttachment(id);
    PlainTagSplits(v);
    PlainTagSplits(AssetUrl(repo, id));
    AssetAfterHead(repo, id, "\">");
  }

  /**
   * The third substitution captures the asset URL from the plain tag the second one wrote,
   * and gives that tag back unchanged.
   */
  lemma PlainAssetTagKept(repo: string, id: string, post: string)
    requires ValidRepoName(repo) && TagSafe(id) && '/' !in id
    ensures
      var tag := PlainTag(AssetUrl(repo, id));
      && CapturedSrc(RelativeImages, Body(RelativeImages, tag)) == Some(AssetUrl(repo, id))
      && MatchAt(RelativeImages, repo, tag + post) == Some(Match(|tag|, tag))
  {
    var u := AssetUrl(repo, id);
    ValidRepoNameIsPlain(repo);
    AssetUrlIsTagSafe(repo, id);
    TagSafeIsPlain(u);
    AssetUrlIsFinal(repo, id);
    PlainTagCaptured(RelativeImages, u);
    MatchAtCapturedTag(RelativeImages, repo, PlainTag(u), post, u);
  }

  /**
   * Stages 2 and 3 together: a plain attachment image ends up pointing at the repository's
   * asset, and both scans go on behind it.
   */
  lemma AttachmentImageSurvivesStageThree(repo: string, id: string, rest: string)
    requires ValidRepoName(repo)
    requires |id| >= 1 && TagSafe(id) && '/' !in id && '$' !in id
    ensures
      Rewrite(RelativeImages, repo, Rewrite(AttachmentImages, repo, PlainTag(AttachmentPrefix + id) + rest)) ==
        PlainTag(AssetUrl(repo, id)) + Rewrite(RelativeImages, repo, Rewrite(AttachmentImages, repo, rest))
  {
    var tag := PlainTag(AttachmentPrefix + id);
    var kept := PlainTag(AssetUrl(repo, id));
    PlainAttachmentBecomesAsset(repo, id, rest);
    RewriteReplacesMatch(AttachmentImages, repo, tag + rest);
    assert (tag + rest)[|tag|..] == rest;
    var r2 := Rewrite(AttachmentImages, repo, rest);
    PlainAssetTagKept(repo, id, r2);
    RewriteKeptTag(RelativeImages, repo, kept, r2);
  }

  // ----- The catalog -----

  /** The repository names of the projects catalog. */
  const CatalogRepos := ["inverted-pendulum", "hemingway", "prompter-plotter", "mnist-vae",
    "motor-position-correction", "insta-bot", "table-timer", "projects-doc"]

  /**
   * Every repository name in the catalog is a valid GitHub name, so the stage-order lemmas
   * that require one apply to every project the site renders.
   */
  lemma CatalogReposAreValid()
    ensures |CatalogRepos| == 8
    ensures forall i :: 0 <= i < |CatalogRepos| ==> ValidRepoName(CatalogRepos[i])
  {
  }
}
