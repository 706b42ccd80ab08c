/**
 * The four regular expressions of `processHtml`, read as tag patterns.
 *
 * A pattern matches at a position of the HTML when its opener (`<img` or `<video`) stands
 * there; the match then runs up to the first '>' after the opener (every unquoted part of
 * the patterns is `[^>]`). Inside that tag, `src="` must be found with a quoted value that
 * suits the pattern; because the leading `[^>]+` (or `[^>]*`) is greedy, the regex engine
 * settles on the LAST offset where the rest of the pattern matches, and captures its value.
 */
module TagPatterns {
  import opened JsString

  /** The four substitutions, in the order `processHtml` applies them. */
  datatype Stage =
    | AttachmentVideos  // attachment <img> with a "video" alt, case-insensitive
    | AttachmentImages  // remaining attachment <img>
    | RelativeImages    // any <img> with a src
    | VideoTags         // any <video> with a src

  const AttachmentPrefix := "https://github.com/user-attachments/assets/"
  const SrcOpen := "src=\""
  const AltOpen := "alt=\""

  function Opener(st: Stage): string {
    if st == VideoTags then "<video" else "<img"
  }

  /** The pattern's opener stands at the start of `s`; only the first pattern ignores case. */
  predicate OpensTag(st: Stage, s: string) {
    if st == AttachmentVideos then StartsWithIgnoreCase(s, Opener(st)) else StartsWith(s, Opener(st))
  }

  /** An attribute opener such as `src="` at offset `j`, ignoring case for the first pattern. */
  predicate AttrAt(st: Stage, body: string, attr: string, j: int) {
    if st == AttachmentVideos then OccursAtIgnoreCase(body, attr, j) else OccursAt(body, attr, j)
  }

  /** The `<img` patterns need at least one character before `src="` (`[^>]+`), `<video` none (`[^>]*`). */
  function MinSrcOffset(st: Stage): nat {
    if st == VideoTags then 0 else 1
  }

  /**
   * The length of the tag that starts `s`: the opener, then everything up to and including
   * the first '>' after it. Without the opener, or without a '>' after it, nothing matches
   * there.
   */
  function TagLength(st: Stage, s: string): (n: Option<nat>)
    ensures n.Some? ==> |Opener(st)| < n.value <= |s| && s[n.value - 1] == '>'
    ensures n.Some? ==> forall i :: |Opener(st)| <= i < n.value - 1 ==> s[i] != '>'
    ensures n.Some? <==> OpensTag(st, s) && exists i :: |Opener(st)| <= i < |s| && s[i] == '>'
  {
    if !OpensTag(st, s) then None
    else
      match IndexOfChar(s, '>', |Opener(st)|)
      case None => None
      case Some(k) => Some(k + 1)
  }

  /** The text between the opener and the closing '>' of a tag. */
  function Body(st: Stage, tag: string): string
    requires |Opener(st)| < |tag|
  {
    tag[|Opener(st)|..|tag| - 1]
  }

  /** `tag` is one whole tag of the stage: its opener, a body without '>', then '>'. */
  predicate IsTag(st: Stage, tag: string) {
    && OpensTag(st, tag)
    && |Opener(st)| < |tag|
    && tag[|tag| - 1] == '>'
    && '>' !in Body(st, tag)
  }

  /** The text from offset `v` up to the next '"', when there is one (`[^"]*"`). */
  function QuotedValue(body: string, v: nat): (r: Option<string>)
    requires v <= |body|
    ensures r.Some? ==> v + |r.value| < |body| && body[v + |r.value|] == '"' && '"' !in r.value
    ensures r.Some? ==> r.value == body[v..v + |r.value|]
    ensures r.None? ==> '"' !in body[v..]
  {
    match IndexOfChar(body, '"', v)
    case None =>
      assert forall c | c in body[v..] :: c != '"';
      None
    case Some(q) => Some(body[v..q])
  }

  /** `alt="[^"]*video[^"]*"` at offset `a` of the body, ignoring case. */
  predicate VideoAltAt(body: string, a: int) {
    && AttrAt(AttachmentVideos, body, AltOpen, a)
    && match QuotedValue(body, a + |AltOpen|)
       case None => false
       case Some(alt) => IncludesIgnoreCase(alt, "video")
  }

  /**
   * What the pattern demands of the quoted src value `v`, and of the text after its closing
   * quote, which begins at offset `after`.
   */
  predicate SrcValueFits(st: Stage, body: string, v: string, after: nat) {
    match st
    case AttachmentVideos =>
      && StartsWithIgnoreCase(v, AttachmentPrefix) && |v| > |AttachmentPrefix|
      && exists a :: after <= a <= |body| && VideoAltAt(body, a)
    case AttachmentImages =>
      StartsWith(v, AttachmentPrefix) && |v| > |AttachmentPrefix|
    case RelativeImages => |v| >= 1
    case VideoTags => |v| >= 1
  }

  /** The pattern matches the tag body with its `src="` at offset `j`. */
  predicate SrcMatchesAt(st: Stage, body: string, j: int) {
    && MinSrcOffset(st) <= j
    && AttrAt(st, body, SrcOpen, j)
    && match QuotedValue(body, j + |SrcOpen|)
       case None => false
       case Some(v) => SrcValueFits(st, body, v, j + |SrcOpen| + |v| + 1)
  }

  /** The greatest index below `n` where `bs` holds, if any. */
  function LastTrueBelow(bs: seq<bool>, n: nat): (r: Option<nat>)
    requires n <= |bs|
    ensures r.Some? ==> r.value < n && bs[r.value]
    ensures r.Some? ==> forall j :: r.value < j < n ==> !bs[j]
    ensures r.None? ==> forall j :: 0 <= j < n ==> !bs[j]
  {
    if n == 0 then None
    else if bs[n - 1] then Some(n - 1)
    else LastTrueBelow(bs, n - 1)
  }

  /** Whether the pattern matches the body with its `src="` at each offset from 0 to `|body|`. */
  function SrcMatches(st: Stage, body: string): (bs: seq<bool>)
    ensures |bs| == |body| + 1
  {
    seq(|body| + 1, j requires 0 <= j <= |body| => SrcMatchesAt(st, body, j))
  }

  /** A matching `src="` lies wholly inside the body. */
  lemma SrcMatchInBody(st: Stage, body: string, j: int)
    requires SrcMatchesAt(st, body, j)
    ensures 0 <= j && j + |SrcOpen| <= |body|
  {
    assert AttrAt(st, body, SrcOpen, j);
  }

  /**
   * The offset of the `src="` whose value the pattern captures in a tag body. The regex
   * engine tries the longest `[^>]+` first and backs off, so it settles on the greatest
   * offset where the pattern matches.
   */
  function SrcOffset(st: Stage, body: string): (r: Option<nat>)
    ensures r.Some? ==> SrcMatchesAt(st, body, r.value)
    ensures r.Some? ==> forall j :: r.value < j ==> !SrcMatchesAt(st, body, j)
    ensures r.None? ==> forall j :: !SrcMatchesAt(st, body, j)
  {
    var bs := SrcMatches(st, body);
    var r := LastTrueBelow(bs, |body| + 1);
    assert forall j :: SrcMatchesAt(st, body, j) ==> 0 <= j <= |body| && bs[j] by {
      forall j | SrcMatchesAt(st, body, j)
        ensures 0 <= j <= |body| && bs[j]
      {
        SrcMatchInBody(st, body, j);
      }
    }
    r
  }

  /**
   * The src the pattern captures in a tag body: the quoted value at the greatest matching
   * offset, and nothing when the pattern does not match the tag at all.
   */
  function CapturedSrc(st: Stage, body: string): (src: Option<string>)
    ensures src.Some? <==> exists j :: SrcMatchesAt(st, body, j)
    ensures src.Some? ==> |src.value| >= 1 && '"' !in src.value
  {
    match SrcOffset(st, body)
    case None => None
    case Some(j) => QuotedValue(body, j + |SrcOpen|)
  }

  /** A whole tag followed by any text is matched as exactly that tag. */
  lemma TagLengthOfTag(st: Stage, tag: string, post: string)
    requires IsTag(st, tag)
    ensures TagLength(st, tag + post) == Some(|tag|)
  {
    var s := tag + post;
    var o := |Opener(st)|;
    assert s[..o] == tag[..o];
    assert OpensTag(st, s);
    forall i | o <= i < |tag| - 1
      ensures s[i] != '>'
    {
      assert s[i] == Body(st, tag)[i - o];
    }
    assert s[|tag| - 1] == '>';
  }

  /** Where the value of the captured src begins inside the whole tag. */
  function SrcValueStart(st: Stage, tag: string): nat
    requires |Opener(st)| < |tag|
    requires SrcOffset(st, Body(st, tag)).Some?
  {
    |Opener(st)| + SrcOffset(st, Body(st, tag)).value + |SrcOpen|
  }

  /** The captured src stands in the tag at `SrcValueStart`, closed by a '"' inside the tag body. */
  lemma CapturedSrcInTag(st: Stage, tag: string, src: string)
    requires |Opener(st)| < |tag|
    requires CapturedSrc(st, Body(st, tag)) == Some(src)
    ensures SrcOffset(st, Body(st, tag)).Some?
    ensures SrcValueStart(st, tag) + |src| < |tag| - 1
    ensures OccursAt(tag, src + "\"", SrcValueStart(st, tag))
    ensures OccursAt(tag, src, SrcValueStart(st, tag))
  {
    var body := Body(st, tag);
    CapturedValueInBody(st, body, src);
    var j := SrcOffset(st, body).value;
    QuotedTextInTag(tag, src, |Opener(st)|, j + |SrcOpen|);
    assert SrcValueStart(st, tag) == |Opener(st)| + (j + |SrcOpen|);
  }

  /** A quoted text found in the body of a tag stands in the tag, shifted by the opener. */
  lemma QuotedTextInTag(tag: string, t: string, o: nat, v: nat)
    requires o < |tag|
    requires OccursAt(tag[o..|tag| - 1], t + "\"", v)
    ensures o + v + |t| < |tag| - 1
    ensures OccursAt(tag, t + "\"", o + v) && OccursAt(tag, t, o + v)
  {
    ValueInTag(tag, t + "\"", o, v);
    OccursAtSplit(tag, t, "\"", o + v);
  }

  /** The captured src is the quoted value at the chosen offset, closed by a '"'. */
  lemma CapturedValueInBody(st: Stage, body: string, src: string)
    requires CapturedSrc(st, body) == Some(src)
    ensures SrcOffset(st, body).Some?
    ensures OccursAt(body, src + "\"", SrcOffset(st, body).value + |SrcOpen|)
  {
    QuotedValueOccurs(body, SrcOffset(st, body).value + |SrcOpen|, src);
  }

  /** A quoted value stands at its offset, followed by its closing '"'. */
  lemma QuotedValueOccurs(body: string, v: nat, value: string)
    requires v <= |body| && QuotedValue(body, v) == Some(value)
    ensures OccursAt(body, value + "\"", v)
  {
    var t := value + "\"";
    forall k | 0 <= k < |t|
      ensures body[v + k] == t[k]
    {
      if k < |value| {
        assert body[v..v + |value|][k] == body[v + k];
      }
    }
    assert body[v..v + |t|] == t;
  }

  /** Text found in the body of a tag stands in the tag itself, shifted by the opener. */
  lemma ValueInTag(tag: string, t: string, o: nat, v: nat)
    requires o < |tag|
    requires OccursAt(tag[o..|tag| - 1], t, v)
    ensures OccursAt(tag, t, o + v) && o + v + |t| < |tag|
  {
    var body := tag[o..|tag| - 1];
    forall k | 0 <= k < |t|
      ensures tag[o + v + k] == t[k]
    {
      assert body[v..v + |t|][k] == body[v + k];
    }
    assert tag[o + v..o + v + |t|] == t;
  }

  /** The captured src meets what the pattern demands of the value at the chosen offset. */
  lemma CapturedSrcFits(st: Stage, body: string, src: string)
    requires CapturedSrc(st, body) == Some(src)
    ensures SrcOffset(st, body).Some?
    ensures
      var v := SrcOffset(st, body).value + |SrcOpen|;
      SrcValueFits(st, body, src, v + |src| + 1)
  {
    var j := SrcOffset(st, body).value;
    assert QuotedValue(body, j + |SrcOpen|) == Some(src);
  }

  /**
   * In a case-sensitive pattern, the `src="` the pattern chose stands in the tag right
   * before the captured value.
   */
  lemma SrcOpenBeforeValue(st: Stage, tag: string)
    requires st != AttachmentVideos
    requires |Opener(st)| < |tag|
    requires SrcOffset(st, Body(st, tag)).Some?
    ensures SrcValueStart(st, tag) >= |SrcOpen|
    ensures OccursAt(tag, SrcOpen, SrcValueStart(st, tag) - |SrcOpen|)
  {
    var body := Body(st, tag);
    var j := SrcOffset(st, body).value;
    assert AttrAt(st, body, SrcOpen, j);
    ValueInTag(tag, SrcOpen, |Opener(st)|, j);
  }

  /** In a case-sensitive pattern, the whole chosen attribute `src="<src>"` stands in the tag. */
  lemma SrcAttributeInTag(st: Stage, tag: string, src: string)
    requires st != AttachmentVideos
    requires |Opener(st)| < |tag|
    requires CapturedSrc(st, Body(st, tag)) == Some(src)
    ensures SrcOffset(st, Body(st, tag)).Some?
    ensures SrcValueStart(st, tag) >= |SrcOpen|
    ensures OccursAt(tag, SrcAttribute(src), SrcValueStart(st, tag) - |SrcOpen|)
  {
    CapturedSrcInTag(st, tag, src);
    SrcOpenBeforeValue(st, tag);
    OccursAtJoin(tag, SrcOpen, src + "\"", SrcValueStart(st, tag) - |SrcOpen|);
    SrcAttributeSplits(src);
  }

  /** The attribute `src="<src>"`. */
  function SrcAttribute(src: string): string {
    SrcOpen + src + "\""
  }

  lemma SrcAttributeSplits(src: string)
    ensures SrcAttribute(src) == SrcOpen + (src + "\"")
  {
  }

  /** The greatest offset where the pattern matches is the one whose value is captured. */
  lemma CapturedSrcAtLastMatch(st: Stage, body: string, j: nat)
    requires SrcMatchesAt(st, body, j)
    requires forall k :: j < k ==> !SrcMatchesAt(st, body, k)
    ensures SrcOffset(st, body) == Some(j)
    ensures j + |SrcOpen| <= |body| && CapturedSrc(st, body) == QuotedValue(body, j + |SrcOpen|)
  {
    SrcMatchInBody(st, body, j);
    var bs := SrcMatches(st, body);
    assert bs[j];
    assert forall k :: j < k < |bs| ==> !bs[k];
    LastTrueBelowFindsLast(bs, |bs|, j);
  }

  /** Searching down from `n`, the scan stops at the greatest index below `n` where `bs` holds. */
  lemma LastTrueBelowFindsLast(bs: seq<bool>, n: nat, j: nat)
    requires n <= |bs| && j < n && bs[j]
    requires forall k :: j < k < n ==> !bs[k]
    ensures LastTrueBelow(bs, n) == Some(j)
  {
  }

  /** The opener, a body without '>', and a closing '>' make one whole tag with that body. */
  lemma WholeTag(st: Stage, b: string)
    requires '>' !in b
    ensures IsTag(st, Opener(st) + b + ">")
    ensures Body(st, Opener(st) + b + ">") == b
  {
    var tag := Opener(st) + b + ">";
    var o := |Opener(st)|;
    assert tag[..o] == Opener(st);
    assert tag[o..|tag| - 1] == b;
  }

  /** A case-sensitive opener starts with '<' and the opener's second letter. */
  lemma OpenerChars(st: Stage, s: string)
    requires st != AttachmentVideos
    ensures OpensTag(st, s) ==> |s| >= 2 && s[0] == '<' && s[1] == Opener(st)[1]
  {
    if OpensTag(st, s) {
      assert s[..|Opener(st)|] == Opener(st);
      assert s[0] == s[..|Opener(st)|][0] && s[1] == s[..|Opener(st)|][1];
    }
  }
}
