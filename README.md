# processHtml: README URL rewriting for the projects documentation site

The site renders each project's GitHub README to HTML and then passes it through
`processHtml(html, repo)` (src/utils/markdown.ts). That function applies four global
regular-expression substitutions in order. Together they point image and video sources at
the repository's files on `https://raw.githubusercontent.com/yuvalm11/<repo>/main`:

1. An `<img>` (any case) with a user-attachment src and a later alt containing "video" becomes
   a normalised `<video controls playsinline class="markdown-video" src="…"></video>` element.
   Its src is the repository's demo video, chosen by `getVideoFile`. The model uses the
   corrected lookup described under "Findings".
2. In any other `<img>` with a user-attachment src, the first occurrence of the src text in
   the tag is replaced by `…/main/assets/<id>`, where `<id>` is the last path segment of the
   src.
3. In an `<img>` whose src does not start with `http`, the first occurrence of the src text
   in the tag is replaced by that src resolved against the repository root.
4. A `<video>` whose src is an attachment is turned into the demo-video element. One with a
   relative src is turned into a video element for the resolved URL. Any other `<video>` is
   left alone.

The Dafny model is pure, as the source is.
- `JsString` holds the JavaScript string operations the callbacks use.
- `VideoFiles` holds `getVideoFile`.
- `TagPatterns` reads each regular expression as a tag pattern. A match runs from the opener
  to the first `>`. Inside it, the greedy `[^>]+` settles on the last `src="` where the rest of
  the pattern matches.
- `Markdown` holds the callbacks, the left-to-right global replace scan and `ProcessHtml`.
- `MarkdownProperties` states what each substitution does to one whole tag.
- `StageOrder` states how the stages interact. A later stage keeps a tag whose captured src
  is a URL that stage 1 or 2 emitted: the video element of stage 1 passes stages 2 to 4
  unchanged, and an `<img>` that stage 2 pointed at an asset passes stage 3 unchanged. A tag whose src attribute is followed by a second `src="` is the exception
  (the fourth behaviour below).

Five behaviours of the code are easy to misread. Apart from the lookup under "Findings", the
model follows the code:
- The video lookup is keyed by repository name only, not by attachment id. Every table entry
  equals the fallback `demo_video.mp4`.
- "Already absolute" means "starts with `http`", so a relative `httpdocs/a.png` is left
  as it is.
- Stage 4 replaces only the opening `<video …>` tag. The original inner content and
  `</video>` still follow the new element.
- A later `src="` in the same tag decides what stage 3 captures. Stage 2 turns
  `<img src="https://github.com/user-attachments/assets/x" data-src="x">` into
  `<img src="…/main/assets/x" data-src="x">`. Stage 3's greedy `[^>]+` then settles on the
  `src="` of `data-src` and captures `x`. `replace` rewrites the first `x` in the tag, which
  for a repository name without an `x` is the one ending the asset URL. The src becomes
  `…/main/assets/https://raw.githubusercontent.com/yuvalm11/<repo>/main/x`.
- Stages 2 and 3 rewrite the first occurrence of the src text anywhere in the tag, not the
  src attribute itself. In `<img alt="a.png" src="a.png">` stage 3 rewrites the alt and
  leaves `src="a.png"` as it is; an alt that repeats an attachment URL is rewritten by stage 2
  in the same way.

## Model

| member | source | states |
|---|---|---|
| VideoFiles.VideoFile | src/utils/markdown.ts:15-25 | The video file of any repository (own-key lookup with fallback) is `demo_video.mp4` and never empty, so the `!videoFile` guards never fire |
| VideoFiles.GetVideoFileAsWritten | src/utils/markdown.ts:17-24 | The lookup as written, an object-literal property read with a fallback, always yields a truthy value. For any name that is not an inherited `Object.prototype` member, it equals `VideoFile` |
| VideoFiles.InheritedMemberBypassesFallback | src/utils/markdown.ts:17-24 | For the repository name `toString` the lookup as written yields the inherited member, not a file name |
| JsString.IndexFrom | src/utils/markdown.ts:68 | `indexOf` from `k`: an occurrence at the result with none before it, or no occurrence at all from `k` |
| JsString.IndexOfChar | src/utils/markdown.ts:43 | The first position at or after `k` holding the character, with none before it, or none at all |
| JsString.Split | src/utils/markdown.ts:43 | `split('/')` always yields at least one segment, so `pop()` never yields `undefined` |
| JsString.StartsWith | src/utils/markdown.ts:53-54 | No contract of its own; `startsWith`. `RawUrlStartsWithHttp`, `VideoUrlIsFinal` and `AssetUrlIsFinal` state what it gives for the URLs the code builds, and `RelativeImageResolution` and `VideoTagNormalisation` state each of its branches |
| JsString.Includes | src/utils/markdown.ts:68 | No contract of its own; `includes` is `indexOf` finding an occurrence, stated by `IndexFrom`. `VideoUrlIsFinal` and `AssetUrlIsFinal` show the emitted URLs lack the marker, and `VideoTagNormalisation` states both branches |
| JsString.OccursAtIgnoreCase | src/utils/markdown.ts:29 | No contract of its own; the `/i` flag, comparing ASCII letters case-blind. `AttachmentVideoBecomesVideoElement` states the stage-1 match through it |
| JsString.StartsWithIgnoreCase | src/utils/markdown.ts:29 | No contract of its own; the `/i` flag applied to the opener and the attachment prefix, stated through `AttachmentVideoBecomesVideoElement` and `PlainHtmlUnchanged` |
| JsString.IncludesIgnoreCase | src/utils/markdown.ts:29 | No contract of its own; the `/i` flag applied to `video` inside the alt value, stated through `AttachmentVideoBecomesVideoElement` |
| JsString.LastSegment | src/utils/markdown.ts:43 | No contract of its own; `LastSegmentIsTextAfterLastSlash` states what it is |
| JsString.LastSegmentIsTextAfterLastSlash | src/utils/markdown.ts:43 | `split('/').pop()` is the text after the last '/': it holds no '/', ends the string, and is the whole string or is preceded by '/' |
| JsString.Expand | src/utils/markdown.ts:45 | No contract of its own; `ExpandWithoutDollar` states it for `$`-free text |
| JsString.ExpandWithoutDollar | src/utils/markdown.ts:45 | A replacement string without `$` is inserted literally by `replace` |
| JsString.ExpandDollarPatterns | src/utils/markdown.ts:45 | `$$`, `$&`, `` $` `` and `$'` in a replacement expand to `$`, the matched text, the text before and the text after the match; any other `$` is kept |
| JsString.ReplaceFirst | src/utils/markdown.ts:45 | No contract of its own; `ReplaceFirstAtFirstOccurrence`, `TextAfterOccurrenceSurvives` and `LaterOccurrenceSurvives` state what it is |
| JsString.ReplaceFirstAtFirstOccurrence | src/utils/markdown.ts:45 | `match.replace(src, url)` replaces exactly the first occurrence of `src`, at or before any known occurrence, with the `$`-expanded replacement, and keeps the text around it; a `$`-free replacement is inserted as it is |
| JsString.TextAfterOccurrenceSurvives | src/utils/markdown.ts:56-59 | For any replacement, text lying after an occurrence of the pattern comes out of `replace` unchanged, shifted by the length of the expanded replacement less the pattern's |
| JsString.LaterOccurrenceSurvives | src/utils/markdown.ts:56-59 | For any replacement, an occurrence lying after an occurrence of the pattern still occurs after `replace`, at the shifted position |
| TagPatterns.TagLength | src/utils/markdown.ts:51 | A match spans the opener and everything up to and including the first '>' after it; there is one exactly when the opener stands there and a '>' follows it, so an unterminated tag is not matched |
| TagPatterns.OpensTag | src/utils/markdown.ts:29-65 | No contract of its own; `<img` ignoring case for stage 1, `<img` and `<video` exactly for the others. `TagLength` states that a match starts with it, and `NoOpenerInside` and `CloseTagStartsNothing` where it does not |
| TagPatterns.VideoAltAt | src/utils/markdown.ts:29 | No contract of its own; `alt="[^"]*video[^"]*"` ignoring case. `AttachmentVideoBecomesVideoElement` states that stage 1 matches exactly when such an alt follows an attachment src |
| TagPatterns.SrcValueFits | src/utils/markdown.ts:29-65 | No contract of its own; what each pattern demands of the captured value: the attachment prefix and at least one more character for stages 1 and 2 (plus a later video alt for stage 1), a non-empty `[^"]+` value for stages 3 and 4. `CapturedSrcFits` states that every capture meets it |
| TagPatterns.SrcMatchesAt | src/utils/markdown.ts:29-65 | No contract of its own; the pattern matching with its `src="` at an offset, at least 1 for `[^>]+` and 0 for `[^>]*`. `SrcOffset` and `CapturedSrcAtLastMatch` state that the greatest such offset is the one captured |
| TagPatterns.QuotedValue | src/utils/markdown.ts:51 | `([^"]+)"` reads the text up to the next '"', which it does not contain; there is no value without a closing quote |
| TagPatterns.LastTrueBelow | src/utils/markdown.ts:51 | The backtracking search finds the greatest index below `n` that matches, or reports that none does |
| TagPatterns.SrcOffset | src/utils/markdown.ts:51 | The `src="` offset the greedy `[^>]+` settles on matches the pattern, and no later offset does; no offset at all means nothing matches |
| TagPatterns.CapturedSrc | src/utils/markdown.ts:65 | A src is captured if and only if some `src="` offset matches; it is non-empty and holds no '"' |
| TagPatterns.TagLengthOfTag | src/utils/markdown.ts:29 | A whole tag followed by any text is matched as exactly that tag |
| TagPatterns.CapturedSrcInTag | src/utils/markdown.ts:45 | The captured src stands inside the matched tag, followed by its '"', so the callback's `replace(src, …)` finds it |
| TagPatterns.CapturedSrcFits | src/utils/markdown.ts:41 | The captured src meets what the pattern demands of it, e.g. the attachment prefix for stages 1 and 2 |
| TagPatterns.SrcAttributeInTag | src/utils/markdown.ts:51 | In the case-sensitive patterns the whole chosen attribute `src="<src>"` stands in the tag |
| TagPatterns.CapturedSrcAtLastMatch | src/utils/markdown.ts:65 | When `j` matches and no later offset does, `j` is the chosen offset and its quoted value is the capture |
| Markdown.MatchAt | src/utils/markdown.ts:28-30 | A match is non-empty, fits in the text and starts with the pattern's opener |
| Markdown.VideoElement | src/utils/markdown.ts:35 | No contract of its own; the element emitted here and at lines 73, 79 and 82. `VideoElementTag` states that it is one whole opening tag carrying the URL followed by `</video>`, and `VideoOpeningTagKept` that stage 4 keeps it |
| Markdown.RawUrlStartsWithHttp | src/utils/markdown.ts:53 | Every raw-content URL of the owner passes `startsWith('http')` |
| Markdown.UrlsWithoutDollar | src/utils/markdown.ts:44-45 | URLs built from `$`-free parts contain no `$` |
| Markdown.ResolveRelativeJoinsWithOneSlash | src/utils/markdown.ts:54-58 | A src is joined to `…/main` with exactly one '/', so `/a.png` and `a.png` resolve to the same URL |
| Markdown.VideoUrl | src/utils/markdown.ts:34 | No contract of its own; `VideoUrlIsFinal`, `VideoUrlIsTagSafe` and `VideoTagNormalisation` state what it is |
| Markdown.AssetUrl | src/utils/markdown.ts:44 | No contract of its own; `AttachmentImagePointsAtAssets` and `AssetUrlIsFinal` state what it is |
| Markdown.ResolveRelative | src/utils/markdown.ts:54-58 | No contract of its own; `ResolveRelativeJoinsWithOneSlash` states what it is |
| Markdown.Callback | src/utils/markdown.ts:30-36 | No contract of its own; the four callbacks (also :42-46, :52-60, :66-83) are stated per stage by the `MarkdownProperties` lemmas |
| Markdown.Rewrite | src/utils/markdown.ts:28 | No contract of its own; the global `replace(/…/g, fn)` scan (also :40, :50, :64) is stated by `RewriteCopiesUpTo`, `RewriteAtMatch` and `RewriteWithoutOpener` |
| Markdown.ProcessHtml | src/utils/markdown.ts:13-87 | No contract of its own; `PlainHtmlUnchanged` and `AttachmentVideoSurvivesAllStages` state what it does to whole documents |
| Markdown.RewriteWithoutOpener | src/utils/markdown.ts:64-65 | A global replace leaves text in which the pattern's opener never occurs unchanged |
| Markdown.PlainHtmlUnchanged | src/utils/markdown.ts:13-87 | HTML without `<img` (any case) and without `<video` comes out of `processHtml` unchanged |
| Markdown.RewriteCopiesUpTo | src/utils/markdown.ts:50-51 | The scan copies a prefix in which no match starts and carries on behind it |
| Markdown.RewriteCopiesPrefix | src/utils/markdown.ts:50-51 | The same for a prefix given as a separate string |
| Markdown.RewriteAtMatch | src/utils/markdown.ts:50-52 | Text before a match is copied, the match is replaced, and the scan resumes after it |
| Markdown.RewriteKeptTagThenCopied | src/utils/markdown.ts:75 | The same, followed by text in which no match starts |
| Markdown.MatchAtTag | src/utils/markdown.ts:28-30 | A whole tag is matched as exactly that tag when the pattern captures a src in its body, and not at all otherwise |
| Markdown.MatchAtCapturedTag | src/utils/markdown.ts:30 | A whole tag with a captured src is replaced by the callback's result for that src |
| MarkdownProperties.AttachmentVideoBecomesVideoElement | src/utils/markdown.ts:28-37 | An `<img>` is matched by stage 1 if and only if some src offset fits the pattern, and it then becomes the demo-video element, whatever its src |
| MarkdownProperties.AttachmentImagePointsAtAssets | src/utils/markdown.ts:40-47 | An attachment `<img>` keeps everything but the first occurrence of its src, which becomes `https://raw.githubusercontent.com/yuvalm11/<repo>/main/assets/<id>`, with `<id>` the text after the src's last '/' |
| MarkdownProperties.AttachmentAssetId | src/utils/markdown.ts:43 | The asset id of an attachment URL is the text after its last '/', and contains no `$` if the URL does not |
| MarkdownProperties.RelativeImageResolution | src/utils/markdown.ts:50-61 | An `<img>` whose src starts with `http` is kept; otherwise the first occurrence of the src becomes `https://raw.githubusercontent.com/yuvalm11/<repo>/main/` followed by the src without its leading '/' |
| MarkdownProperties.TextAfterRelativeSrcSurvives | src/utils/markdown.ts:56-59 | In stage 3, text lying after an earlier copy of a relative src survives, shifted |
| MarkdownProperties.EarlierCopyOfSrcIsRewritten | src/utils/markdown.ts:50-61 | If a relative src also occurs earlier in the tag, e.g. in the alt, that copy is rewritten and the `src="<src>"` attribute comes out unchanged |
| MarkdownProperties.VideoTagNormalisation | src/utils/markdown.ts:64-84 | The opening `<video>` tag is kept for a non-attachment `http` src, becomes the demo-video element for an attachment src, and becomes the video element of the resolved URL otherwise |
| MarkdownProperties.RelativeVideoKeepsContent | src/utils/markdown.ts:77-82 | A `<video>` with a relative src becomes a complete video element followed by the tag's original content |
| StageOrder.ValidRepoNameIsPlain | src/config/projects.ts:13-62 | A GitHub repository name contains no '/', no `$` and no '<', '>' or '"' |
| StageOrder.CatalogReposAreValid | src/config/projects.ts:13-62 | The eight repository names of the catalog are valid GitHub names, so every stage-order lemma that requires one holds for each project |
| StageOrder.VideoUrlIsTagSafe | src/utils/markdown.ts:34 | The demo-video URL of a valid repository name is non-empty and contains no '<', '>' or '"' |
| StageOrder.VideoUrlIsFinal | src/utils/markdown.ts:67-75 | The demo-video URL starts with `http` and contains no attachment marker, so stage 4 keeps any `<video>` whose src it is |
| StageOrder.AssetUrlIsFinal | src/utils/markdown.ts:44-53 | The asset URL starts with `http` and contains no attachment marker, so stage 3 keeps an `<img>` whose captured src it is |
| StageOrder.VideoBodyMatch | src/utils/markdown.ts:65 | In the body of the emitted video element, the `<video` pattern matches at its `src="` with the URL as value, and at no later offset |
| StageOrder.VideoElementTag | src/utils/markdown.ts:35 | The emitted element is one whole opening tag plus `</video>`, and stage 4 captures the URL from that tag |
| StageOrder.VideoOpeningTagKept | src/utils/markdown.ts:65-75 | Stage 4 matches the opening tag of the demo-video element and gives it back unchanged |
| StageOrder.NoOpenerInside | src/utils/markdown.ts:51 | Text whose every '<' is followed by a character other than the opener's second letter starts no match |
| StageOrder.CloseTagStartsNothing | src/utils/markdown.ts:65 | No `<video` match starts inside `</video>` |
| StageOrder.VideoElementPassesImageStages | src/utils/markdown.ts:40-61 | Stages 2 and 3 copy the emitted video element unchanged and carry on behind it |
| StageOrder.VideoElementPassesVideoTags | src/utils/markdown.ts:64-84 | Stage 4 gives the demo-video element back unchanged and carries on behind it |
| StageOrder.AttachmentVideoSurvivesAllStages | src/utils/markdown.ts:13-87 | `processHtml` turns an attachment `<img>` matched by stage 1 into the demo-video element, followed by what it makes of the rest of the HTML |
| StageOrder.QuotedValueIs | src/utils/markdown.ts:51 | A value without '"' that is followed by '"' is the quoted value `([^"]+)"` reads there |
| StageOrder.ValueAfterLastSrcOpen | src/utils/markdown.ts:51 | In a case-sensitive pattern, a body ending in `src="<value>"` offers that value at its last `src="`, and no later `src="` can match |
| StageOrder.NoAttachmentSrcBetween | src/utils/markdown.ts:41 | Between a `src` value and a later `data-src`, no `src="` fits the attachment pattern |
| StageOrder.LastSegmentOfAttachment | src/utils/markdown.ts:43 | `split('/').pop()` of an attachment URL whose id has no '/' is that id |
| StageOrder.DataSrcCapturedByStageTwo | src/utils/markdown.ts:41 | In `<img src="<attachment>/<id>" data-src="<id>">`, stage 2 captures the attachment URL, not the `data-src` value |
| StageOrder.AssetAtValue | src/utils/markdown.ts:43-45 | Stage 2's `replace` finds the attachment URL at the `src` value and puts the asset URL there |
| StageOrder.AttachmentWithDataSrc | src/utils/markdown.ts:40-46 | Stage 2 turns `<img src="<attachment>/<id>" data-src="<id>">` into the same tag with the asset URL of `<id>` as its src |
| StageOrder.DataSrcCapturedByStageThree | src/utils/markdown.ts:51 | In the tag stage 2 wrote, stage 3's greedy `[^>]+` settles on the `src="` of `data-src` and captures `<id>` |
| StageOrder.ResolvedAtFirstId | src/utils/markdown.ts:58-59 | Stage 3's `replace` puts the resolved URL of `<id>` at the first `<id>` in the tag, no later than the end of the asset URL, and that URL is longer than `<id>` |
| StageOrder.AssetAfterHead | src/utils/markdown.ts:43-45 | In a tag beginning `<img src="` and an attachment URL, stage 2's `replace` puts the asset URL at the `src` value, whatever follows |
| StageOrder.PlainTagCaptured | src/utils/markdown.ts:41-51 | Stages 2 and 3 read `<img src="<v>">` as one whole tag and capture `v` when it fits the pattern |
| StageOrder.PlainAttachmentCaptured | src/utils/markdown.ts:41 | Stage 2 captures the attachment URL from `<img src="<attachment URL>">` |
| StageOrder.PlainAttachmentBecomesAsset | src/utils/markdown.ts:40-46 | Stage 2 turns `<img src="<attachment>/<id>">` into `<img src="<asset URL of id>">` |
| StageOrder.PlainAssetTagKept | src/utils/markdown.ts:50-53 | Stage 3 captures the asset URL from the tag stage 2 wrote and gives that tag back unchanged |
| StageOrder.AttachmentImageSurvivesStageThree | src/utils/markdown.ts:40-61 | Stages 2 then 3 turn a plain attachment image into the asset-URL image, and both scans go on behind it |
| StageOrder.StageThreeRewritesAssetUrl | src/utils/markdown.ts:50-61 | Stage 3 does not keep the tag stage 2 wrote: it captures `<id>` from `data-src` and rewrites the first `<id>`, at or before the end of the asset URL |

## Left out

- The regular expressions are read as tag patterns bounded by the first `>`. The real `[^"]+` capture may run past a `>` inside a quoted value, so a src or alt containing `>` is matched differently.
- Positions are counted in characters rather than UTF-16 code units. All patterns are ASCII, so this changes no result.
- Case folding under `/i` is modelled for ASCII letters only. Without the `u` flag, JavaScript never folds a non-ASCII character onto an ASCII one, so for these ASCII patterns this is exact.
- `processMarkdown` (src/utils/markdown.ts:89-109) is a call into the external unified/remark/rehype pipeline and is not part of this model. Neither are the project list and the site configuration.
- AttachmentImagePointsAtAssets: requires a repository name and src without `$`. `Callback` models the `$`-pattern expansion of `replace`, but the closed form is stated only for `$`-free text.
- RelativeImageResolution: requires a repository name and src without `$`, for the same reason.
- TextAfterRelativeSrcSurvives: requires a repository name and src without `$`, for the same reason.
- EarlierCopyOfSrcIsRewritten: requires a repository name and src without `$`, for the same reason.
- VideoUrlIsFinal: stated for repository names without '/'. A name with '/' could line the URL's slashes up with the attachment marker.
- AssetUrlIsFinal: stated for repository names and asset ids without '/', for the same reason.
- VideoElementPassesVideoTags: stated for valid GitHub repository names, whose characters cannot close the tag or the quoted src.
- AttachmentVideoSurvivesAllStages: stated for valid GitHub repository names, for the same reason.
- ProcessHtml: uses the corrected own-key lookup `VideoFile`, so it differs from `processHtml` for the twelve repository names that are `Object.prototype` members, such as `toString`. For those the source emits the inherited member's text where the model emits `demo_video.mp4` (see "Findings").
- Callback: the stage 1 and stage 4 callbacks use `VideoFile` for the same reason, and so do the lemmas built on them (AttachmentVideoBecomesVideoElement, VideoTagNormalisation, AttachmentVideoSurvivesAllStages).
- GetVideoFileAsWritten: an inherited `Object.prototype` member is represented by its name, not by the function value that a template string would print.

## Findings

| source | as written | input that shows it | evidently intended | confidence | as-written member | corrected member |
|---|---|---|---|---|---|---|
| src/utils/markdown.ts:17-24 | `videoFiles[repo]`, with `demo_video.mp4` as fallback, looks the name up on a plain object literal, so inherited `Object.prototype` members are found too | repo `toString`: the lookup yields the inherited function and the URL gets its source text instead of `demo_video.mp4` | An own-key lookup that falls back to `demo_video.mp4` for every name not in the table | not executed | VideoFiles.InheritedMemberBypassesFallback | VideoFiles.VideoFile |
