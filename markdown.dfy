/**
 * `processHtml(html, repo)`: four global substitutions over the rendered README HTML that
 * point image and video sources at the repository's files on the raw-content host.
 */
module Markdown {
  import opened JsString
  import opened VideoFiles
  import opened TagPatterns

  const RawContentOwner := "https://raw.githubusercontent.com/yuvalm11/"
  const AttachmentMarker := "github.com/user-attachments/assets/"

  /** The root of the repository's `main` branch on the raw-content host. */
  function RepoRoot(repo: string): string {
    RawContentOwner + repo + "/main"
  }

  /** `videoUrl`: the repository's demo video. */
  function VideoUrl(repo: string): string {
    RepoRoot(repo) + "/" + VideoFile(repo)
  }

  /** `rawUrl`: where an attachment image is expected in the repository. */
  function AssetUrl(repo: string, assetId: string): string {
    RepoRoot(repo) + "/assets/" + assetId
  }

  /** `fullUrl`: a relative source resolved against the repository root. */
  function ResolveRelative(repo: string, src: string): string {
    if StartsWith(src, "/") then RepoRoot(repo) + src else RepoRoot(repo) + "/" + src
  }

  /** The attributes of the emitted video element that come before its `src="`. */
  const VideoAttributes := " controls" + " playsinline" + " class=\"markdown-video\"" + " "
  const VideoOpen := "<video" + VideoAttributes + SrcOpen
  const VideoClose := "\"></video>"

  /** Every URL under the owner's raw-content root starts with "http". */
  lemma RawUrlStartsWithHttp(url: string)
    requires StartsWith(url, RawContentOwner)
    ensures StartsWith(url, "http")
  {
    assert RawContentOwner[0] == 'h' && RawContentOwner[1] == 't' && RawContentOwner[2] == 't' && RawContentOwner[3] == 'p';
    assert forall k :: 0 <= k < 4 ==> url[..4][k] == "http"[k];
  }

  /** URLs built from `$`-free parts are `$`-free, so `replace` inserts them literally. */
  lemma UrlsWithoutDollar(repo: string, src: string)
    requires '$' !in repo && '$' !in src
    ensures '$' !in ResolveRelative(repo, src)
    ensures '$' !in AssetUrl(repo, src)
  {
    assert '$' !in RawContentOwner;
    assert '$' !in RepoRoot(repo);
  }

  /** The normalised video element the rewriter emits. */
  function VideoElement(url: string): string {
    VideoOpen + url + VideoClose
  }

  /** The demo-video URL written out. */
  lemma VideoUrlSpelledOut(repo: string)
    ensures VideoUrl(repo) == RawContentOwner + repo + "/main/demo_video.mp4"
  {
    assert "/main" + "/" + "demo_video.mp4" == "/main/demo_video.mp4";
  }

  /** The asset URL written out. */
  lemma AssetUrlSpelledOut(repo: string, assetId: string)
    ensures AssetUrl(repo, assetId) == RawContentOwner + repo + "/main/assets/" + assetId
  {
    assert "/main" + "/assets/" == "/main/assets/";
  }

  /** The resolved relative URL written out. */
  lemma ResolveRelativeSpelledOut(repo: string, src: string)
    ensures ResolveRelative(repo, src) ==
      if StartsWith(src, "/") then RawContentOwner + repo + "/main" + src
      else RawContentOwner + repo + "/main/" + src
  {
    assert "/main" + "/" == "/main/";
  }

  /**
   * A src is joined to the repository root with exactly one '/', whether or not it starts
   * with one, so a root-relative path and the same path written relatively give one URL.
   */
  lemma ResolveRelativeJoinsWithOneSlash(repo: string, src: string)
    ensures ResolveRelative(repo, src) ==
      RawContentOwner + repo + "/main/" + (if StartsWith(src, "/") then src[1..] else src)
    ensures !StartsWith(src, "/") ==> ResolveRelative(repo, "/" + src) == ResolveRelative(repo, src)
  {
    ResolveRelativeSpelledOut(repo, src);
    if StartsWith(src, "/") {
      assert src == "/" + src[1..];
      assert "/main" + src == "/main/" + src[1..];
    }
    var rooted := "/" + src;
    assert rooted[..1] == "/" && rooted[1..] == src;
    ResolveRelativeSpelledOut(repo, rooted);
    assert "/main" + rooted == "/main/" + src;
  }

  /** The callback of each substitution: what the matched text `tag`, with captured `src`, becomes. */
  function Callback(st: Stage, repo: string, tag: string, src: string): string {
    match st
    case AttachmentVideos =>
      if VideoFile(repo) == "" then tag else VideoElement(VideoUrl(repo))
    case AttachmentImages =>
      ReplaceFirst(tag, src, AssetUrl(repo, LastSegment(src)))
    case RelativeImages =>
      if StartsWith(src, "http") then tag
      else ReplaceFirst(tag, src, ResolveRelative(repo, src))
    case VideoTags =>
      if StartsWith(src, "http") then
        if Includes(src, AttachmentMarker) then
          if VideoFile(repo) == "" then tag else VideoElement(VideoUrl(repo))
        else tag
      else VideoElement(ResolveRelative(repo, src))
  }

  /** A match of a substitution: how much text it covers and what replaces that text. */
  datatype Match = Match(length: nat, replacement: string)

  /** The substitution's match at the very start of `s`, if its pattern matches there. */
  function MatchAt(st: Stage, repo: string, s: string): (m: Option<Match>)
    ensures m.Some? ==> 1 <= m.value.length <= |s|
    ensures m.Some? ==> OpensTag(st, s)
  {
    match TagLength(st, s)
    case None => None
    case Some(n) =>
      match CapturedSrc(st, Body(st, s[..n]))
      case None => None
      case Some(src) => Some(Match(n, Callback(st, repo, s[..n], src)))
  }

  /**
   * `s.replace(/pattern/g, callback)`: scanning from the left, a match is replaced by the
   * callback's result and the scan resumes after it; elsewhere one character is copied and
   * the scan moves on by one.
   */
  function Rewrite(st: Stage, repo: string, s: string): string
    decreases |s|
  {
    if s == [] then []
    else
      assert s[0..] == s;
      match MatchAt(st, repo, s)
      case Some(m) => m.replacement + Rewrite(st, repo, s[m.length..])
      case None =>
        assert forall i :: 0 <= i < |s| - 1 ==> s[1..][i..] == s[i + 1..];
        [s[0]] + Rewrite(st, repo, s[1..])
  }

  /** `html` holds no `<img` in any case and no `<video`. */
  predicate WithoutMedia(html: string) {
    forall i :: 0 <= i < |html| ==> !StartsWithIgnoreCase(html[i..], "<img") && !StartsWith(html[i..], "<video")
  }

  /** `processHtml`: the four substitutions in order. */
  function ProcessHtml(html: string, repo: string): string {
    var withVideos := Rewrite(AttachmentVideos, repo, html);
    var withAssets := Rewrite(AttachmentImages, repo, withVideos);
    var withImages := Rewrite(RelativeImages, repo, withAssets);
    Rewrite(VideoTags, repo, withImages)
  }

  lemma ConcatAssociative(a: string, b: string, c: string)
    ensures a + (b + c) == (a + b) + c
  {
  }

  /** Where no match starts, the scan copies one character and moves on. */
  lemma RewriteCopiesOne(st: Stage, repo: string, s: string)
    requires s != [] && !OpensTag(st, s)
    ensures Rewrite(st, repo, s) == [s[0]] + Rewrite(st, repo, s[1..])
  {
    assert MatchAt(st, repo, s).None?;
  }

  /**
   * The first `k` characters, where no match can start, are copied as they are, and the
   * scan carries on behind them.
   */
  lemma {:induction false} RewriteCopiesUpTo(st: Stage, repo: string, s: string, k: nat)
    requires k <= |s|
    requires forall i :: 0 <= i < k ==> !OpensTag(st, s[i..])
    ensures Rewrite(st, repo, s) == s[..k] + Rewrite(st, repo, s[k..])
    decreases k
  {
    if k == 0 {
      assert s[..0] == [] && s[0..] == s;
    } else {
      assert s[0..] == s;
      RewriteCopiesOne(st, repo, s);
      var t := s[1..];
      forall i | 0 <= i < k - 1
        ensures !OpensTag(st, t[i..])
      {
        assert t[i..] == s[i + 1..];
      }
      RewriteCopiesUpTo(st, repo, t, k - 1);
      assert t[k - 1..] == s[k..];
      assert s[..k] == [s[0]] + t[..k - 1];
      ConcatAssociative([s[0]], t[..k - 1], Rewrite(st, repo, s[k..]));
    }
  }

  /** Text in which the pattern's opener never occurs comes back unchanged. */
  lemma RewriteWithoutOpener(st: Stage, repo: string, s: string)
    requires forall i :: 0 <= i < |s| ==> !OpensTag(st, s[i..])
    ensures Rewrite(st, repo, s) == s
  {
    RewriteCopiesUpTo(st, repo, s, |s|);
    assert s[..|s|] == s;
  }

  /** HTML without `<img` (in any case) and without `<video` passes all four substitutions unchanged. */
  lemma PlainHtmlUnchanged(html: string, repo: string)
    requires WithoutMedia(html)
    ensures ProcessHtml(html, repo) == html
  {
    RewriteWithoutOpener(AttachmentVideos, repo, html);
    RewriteWithoutOpener(AttachmentImages, repo, html);
    RewriteWithoutOpener(RelativeImages, repo, html);
    RewriteWithoutOpener(VideoTags, repo, html);
  }

  /** Text that no match can start in is copied as it is, and the scan carries on behind it. */
  lemma RewriteCopiesPrefix(st: Stage, repo: string, x: string, y: string)
    requires forall i :: 0 <= i < |x| ==> !OpensTag(st, (x + y)[i..])
    ensures Rewrite(st, repo, x + y) == x + Rewrite(st, repo, y)
  {
    RewriteCopiesUpTo(st, repo, x + y, |x|);
    assert (x + y)[..|x|] == x && (x + y)[|x|..] == y;
  }

  /**
   * Where the pattern matches, the whole match is replaced by the callback's result, the
   * text before it is copied, and the scan resumes right after the match.
   */
  lemma RewriteAtMatch(st: Stage, repo: string, pre: string, s: string)
    requires forall i :: 0 <= i < |pre| ==> !OpensTag(st, (pre + s)[i..])
    requires MatchAt(st, repo, s).Some?
    ensures
      var m := MatchAt(st, repo, s).value;
      Rewrite(st, repo, pre + s) == pre + m.replacement + Rewrite(st, repo, s[m.length..])
  {
    var m := MatchAt(st, repo, s).value;
    RewriteCopiesPrefix(st, repo, pre, s);
    RewriteReplacesMatch(st, repo, s);
    ConcatAssociative(pre, m.replacement, Rewrite(st, repo, s[m.length..]));
  }

  /** A match at the start is replaced, and the scan resumes right after it. */
  lemma RewriteReplacesMatch(st: Stage, repo: string, s: string)
    requires MatchAt(st, repo, s).Some?
    ensures
      var m := MatchAt(st, repo, s).value;
      Rewrite(st, repo, s) == m.replacement + Rewrite(st, repo, s[m.length..])
  {
    assert s != [];
  }

  /** A match that gives its text back unchanged leaves that text in place, and the scan goes on behind it. */
  lemma RewriteKeptTag(st: Stage, repo: string, tag: string, post: string)
    requires MatchAt(st, repo, tag + post) == Some(Match(|tag|, tag))
    ensures Rewrite(st, repo, tag + post) == tag + Rewrite(st, repo, post)
  {
    RewriteReplacesMatch(st, repo, tag + post);
    assert (tag + post)[|tag|..] == post;
  }

  /**
   * A kept match followed by text no match can start in: both come back unchanged and the
   * scan goes on behind them.
   */
  lemma RewriteKeptTagThenCopied(st: Stage, repo: string, tag: string, x: string, y: string)
    requires MatchAt(st, repo, tag + (x + y)) == Some(Match(|tag|, tag))
    requires forall i :: 0 <= i < |x| ==> !OpensTag(st, (x + y)[i..])
    ensures Rewrite(st, repo, (tag + x) + y) == (tag + x) + Rewrite(st, repo, y)
  {
    RewriteKeptTag(st, repo, tag, x + y);
    RewriteCopiesPrefix(st, repo, x, y);
    ConcatAssociative(tag, x, y);
    ConcatAssociative(tag, x, Rewrite(st, repo, y));
  }

  /** A whole tag followed by any text is matched as that tag, with that tag's capture. */
  lemma MatchAtTag(st: Stage, repo: string, tag: string, post: string)
    requires IsTag(st, tag)
    ensures
      MatchAt(st, repo, tag + post) ==
        match CapturedSrc(st, Body(st, tag))
        case None => None
        case Some(src) => Some(Match(|tag|, Callback(st, repo, tag, src)))
  {
    TagLengthOfTag(st, tag, post);
    assert (tag + post)[..|tag|] == tag;
  }

  /** A whole tag whose body the pattern captures `src` in is replaced by the callback's result. */
  lemma MatchAtCapturedTag(st: Stage, repo: string, tag: string, post: string, src: string)
    requires IsTag(st, tag)
    requires CapturedSrc(st, Body(st, tag)) == Some(src)
    ensures MatchAt(st, repo, tag + post) == Some(Match(|tag|, Callback(st, repo, tag, src)))
  {
    MatchAtTag(st, repo, tag, post);
  }
}
