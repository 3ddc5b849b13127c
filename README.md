# shimabox-blog-demo in Dafny

A model of the core of a small blog that runs on Cloudflare Workers. Posts are Markdown
files with a YAML-like front-matter block. They live in an object store (R2); a key-value
store (KV) caches the post list and each rendered page. The model covers:

- the Markdown pipeline (`src/markdown.ts`): front-matter parsing, excerpt generation,
  heading anchors, table of contents, code blocks, emoji conversion with code protection,
  GitHub-style alerts and Twitter/YouTube/Gist embeds;
- the cached repository (`src/repository.ts`): listing, lookup, category filter,
  neighbours and cache invalidation;
- the routes that serve images, card images, pages, articles and the invalidation hook
  (`src/index.tsx`);
- the upload tool (`scripts/sync.ts`): command construction, the dangerous-character guard,
  local file collection, orphan deletion, argument parsing and time formatting;
- the card-image generator (`scripts/generate-ogp.ts`): its own front-matter reader,
  target selection, the skip/generate decision and file naming.

Modules, one concept each:

| module | models |
|---|---|
| `Wrappers` | `Option` |
| `Text` | trimming, splitting, ASCII lower-casing, number printing, character rewriting |
| `Rewrite` | the global left-to-right `String.replace` engine; scanners that stand in for regular expressions |
| `Html` | `escapeHtml`, `highlightCode` and the code-block renderer |
| `Frontmatter` | `parseFrontmatterRaw` |
| `Excerpt` | `generateExcerpt` |
| `Headings` | `generateId` and the heading renderer, as a class over the `headingIds` / `tocItems` state |
| `Toc` | `generateTocHtml` |
| `Emoji` | `convertEmoji` |
| `Alerts` | `convertAlerts` |
| `Embeds` | `convertEmbeds` |
| `Markdown` | `parseMarkdown`, `parseFrontmatter` |
| `Repository` | the `Site` class: KV cache, R2 listing, parsing and rendering of posts |
| `Routes` | the HTTP handlers, as functions from request and store contents to a reply |
| `Sync` | `scripts/sync.ts` |
| `Ogp` | `scripts/generate-ogp.ts` |

Notes on the code that the model keeps:

- The cache keys are `posts:index` and `posts:<slug>`.
  A post whose slug is `index` therefore shares its key with the post list
  (`Repository.IndexSlugCollides`). A card request for such a slug reads the list and
  builds a file name from `undefined` (`Routes.DateText`).
- `src/markdown.ts` has no repository-metadata stage and no product embed.
- Heading ids are not always unique: a third heading with the same text gets the same
  `-1` suffix as the second, because the count is stored under the suffixed id (`Headings.ThirdHeadingRepeatsSecond`).
- Front-matter list entries are not filtered for empties by `parseFrontmatterRaw`; only
  the card generator drops empty categories.
- A front-matter value keeps its trailing spaces.
- The closing fence is recognised after trimming the line.
- The excerpt keeps the text of headings; only the `#` marks are removed.

## Model

| member | source | states |
|---|---|---|
| Text.ToLowerAscii | src/markdown.ts:109 | same length; each character is lower-cased, ASCII only |
| Text.LowerCharShape | src/markdown.ts:109 | a lower-cased character is never an upper-case letter, and other characters stay unchanged |
| Text.TrimStart | src/markdown.ts:14 | never longer than the input, and does not start with white space |
| Text.TrimEnd | src/markdown.ts:14 | never longer than the input, and does not end with white space |
| Text.Trim | src/markdown.ts:14 | the result has no white space at either end |
| Text.TrimSlice | src/markdown.ts:14 | the trimmed text is a contiguous slice of the input, and only white space was cut |
| Text.TrimUntouched | src/markdown.ts:14 | text without white space at its ends trims to itself |
| Text.TrimIdempotent | src/markdown.ts:14 | trimming twice equals trimming once |
| Text.TrimStartPadded | src/markdown.ts:14 | leading white space in front of a non-space is removed exactly |
| Text.Split | src/markdown.ts:12 | at least one piece; no piece holds the separator; joining the pieces gives the input back |
| Text.SplitJoin | src/markdown.ts:12 | splitting a join of separator-free pieces gives the pieces back |
| Text.LastSegment | scripts/sync.ts:60 | the last segment holds no separator |
| Text.LastSegmentPast | scripts/sync.ts:60 | appending `sep + name` makes `name` the last segment |
| Text.LastSegmentNoSeparator | scripts/sync.ts:60 | a text without the separator is its own last segment |
| Text.NatToString | scripts/sync.ts:48-56 | decimal digits, no leading zero, reading back as the number |
| Text.NatToStringInjective | scripts/sync.ts:48-56 | different numbers print differently |
| Text.CollapseRunsShape | src/markdown.ts:111-112 | no two adjacent replacement characters remain from a run |
| Text.CollapseRunsFixed | src/markdown.ts:111-112 | collapsing a text without runs changes nothing |
| Text.RemoveAll | src/markdown.ts:89 | no removed character remains and every kept character comes from the input; with `RemoveAllAppend` and `RemoveAllOne`, the kept characters are exactly the others, in order |
| Text.RemoveAllNone | src/markdown.ts:110 | removing characters that do not occur changes nothing |
| Text.RemoveAllAppend | src/markdown.ts:89 | removing from a concatenation is removing from each part, in order |
| Text.RemoveAllOne | src/markdown.ts:89 | one character is dropped exactly when it is to be removed, and kept otherwise |
| Text.StripOne | src/markdown.ts:113 | a slice of the input at most two shorter; unchanged when neither end is a dash; without double dashes, neither end of the result is a dash |
| Text.StripOneEnds | src/markdown.ts:113 | the stripped bounds lie within the text, and without double dashes neither end is a dash |
| Text.ReplaceChar | src/markdown.ts:447-451 | a character not in its replacement does not survive replacing |
| Text.ReplaceCharConcat | src/markdown.ts:447-451 | replacing distributes over concatenation |
| Text.ReplaceCharAbsent | src/markdown.ts:447-451 | replacing an absent character changes nothing |
| Text.ReplacePair | src/markdown.ts:52-56 | a text without the pair's first character is unchanged (the round trips below pin down the rest) |
| Rewrite.NoMatchKeeps | src/markdown.ts:86-94 | a pattern that matches nowhere leaves the text unchanged |
| Rewrite.SkipUnmatched | src/markdown.ts:86-94 | an unmatched prefix is copied through as is |
| Rewrite.ReplaceAtMatch | src/markdown.ts:86-94 | a match at the start is replaced and scanning resumes after it |
| Rewrite.ReplaceWoven | src/markdown.ts:177-180 | a text made of unmatched runs and matched pieces becomes the runs woven with the replacements |
| Rewrite.DeletionKeepsChars | src/markdown.ts:86-94 | a deleting replace only yields characters of the input |
| Rewrite.ReplaceAll | src/markdown.ts:86-94 | a pattern that matches nowhere in the text leaves it unchanged (the lemmas above state the scan at a match and past unmatched text) |
| Rewrite.ScanChar | src/markdown.ts:87 | the first position of a character, and nothing before it |
| Rewrite.ScanCharOnLine | src/markdown.ts:87 | the scan does not cross a line break |
| Rewrite.ScanLit | src/markdown.ts:90 | the first occurrence of a literal at or after a position, and none exactly when there is no occurrence there |
| Rewrite.ScanLitOnLine | src/markdown.ts:90 | the literal scan does not cross a line break |
| Rewrite.RunEnd | src/markdown.ts:88 | the end of the longest run of characters with a property |
| Rewrite.RunEndSpan | src/markdown.ts:88 | every character of the run has the property |
| Rewrite.RunEndExact | src/markdown.ts:88 | a run followed by a character without the property ends exactly there |
| Html.EscapeHtml | src/markdown.ts:445-452 | text with none of `&`, `<`, `>`, `"`, `'` comes back unchanged; the lemmas below pin down every character |
| Html.EscapeHtmlPerChar | src/markdown.ts:445-452 | the escaped text is the concatenation of each character's escape |
| Html.EscapeHtmlConcat | src/markdown.ts:445-452 | escaping distributes over concatenation |
| Html.EscapeOneChar | src/markdown.ts:445-452 | the chained replaces escape one character exactly once, `&` first |
| Html.EscapeAmpersand | src/markdown.ts:447 | `&` becomes `&amp;` |
| Html.EscapeLess | src/markdown.ts:448 | `<` becomes `&lt;` |
| Html.EscapeGreater | src/markdown.ts:449 | `>` becomes `&gt;` |
| Html.EscapeDoubleQuote | src/markdown.ts:450 | `"` becomes `&quot;` |
| Html.EscapeSingleQuote | src/markdown.ts:451 | `'` becomes `&#039;` |
| Html.EscapePlain | src/markdown.ts:445-452 | other characters are kept |
| Html.EscapedHasNoMarkup | src/markdown.ts:445-452 | escaped text has no `<`, `>`, `"` or `'` |
| Html.EscapeCharNoMarkup | src/markdown.ts:445-452 | the escape of one character has no markup character |
| Html.EscapeRoundTrip | src/markdown.ts:445-452 | unescaping the escaped text gives the input back |
| Html.UnescapeHtml | src/markdown.ts:445-452 | the inverse of the escape used by the round trip: never longer than its input, and text without `&` is unchanged |
| Html.HighlightCode | src/markdown.ts:150-153 | the block starts with the open tag, ends with the close tag, and its inner part unescapes to the code |
| Html.CodeBlockHtml | src/markdown.ts:375-378 | a missing language is rendered as `text` |
| Frontmatter.MatchLine | src/markdown.ts:34 | a match is a word key, a colon, and the value after optional white space |
| Frontmatter.MatchLineOf | src/markdown.ts:34 | `key: value` lines are matched to exactly that key and value |
| Frontmatter.Inner | src/markdown.ts:41 | the text between the first and last characters |
| Frontmatter.ListItems | src/markdown.ts:40-48 | an empty list exactly when the brackets hold only white space |
| Frontmatter.ParseValue | src/markdown.ts:37-67 | integers come only from digits, booleans only from `true`/`false` |
| Frontmatter.FindClose | src/markdown.ts:18-24 | the first fence line at or after the start, or none |
| Frontmatter.FindCloseFirst | src/markdown.ts:18-24 | the first fence after the start is the one found |
| Frontmatter.ParseFrontmatterRaw | src/markdown.ts:8-78 | the imperative parse equals the front-matter function |
| Frontmatter.SingleLineIsContent | src/markdown.ts:12-16 | a one-line input has no data and is all content |
| Frontmatter.FrontmatterRoundTrip | src/markdown.ts:8-78 | a fenced block followed by a body parses into the block's entries and exactly that body |
| Frontmatter.FillDataKeys | src/markdown.ts:33-71 | a key is present exactly when some line defines it or it was present before |
| Frontmatter.FillDataUntouched | src/markdown.ts:33-71 | keys no line defines keep their value |
| Frontmatter.FillDataLastWins | src/markdown.ts:69 | the last line defining a key decides its value |
| Frontmatter.UndoubleQuotes | src/markdown.ts:52 | undoubling `''` inverts doubling quotes |
| Frontmatter.UnescapeQuotes | src/markdown.ts:56 | unescaping `\"` inverts escaping quotes |
| Frontmatter.SingleQuotedRoundTrip | src/markdown.ts:51-53 | a single-quoted value reads back as the string |
| Frontmatter.DoubleQuotedRoundTrip | src/markdown.ts:55-57 | a double-quoted value reads back as the string |
| Frontmatter.NumberRoundTrip | src/markdown.ts:59-61 | a printed number reads back as that integer |
| Frontmatter.BooleanWords | src/markdown.ts:63-67 | `true` and `false` read as booleans |
| Frontmatter.PlainValue | src/markdown.ts:37-67 | a value that is not bracketed, not quoted, not all digits and not `true`/`false` stays the raw string |
| Frontmatter.EmptyList | src/markdown.ts:41-43 | brackets holding only white space read as the empty list |
| Frontmatter.ListRoundTrip | src/markdown.ts:44-48 | a bracketed, comma-joined list of plain items reads back as those items |
| Frontmatter.ListItemsPieces | src/markdown.ts:40-47 | a bracketed comma-joined list reads as its pieces, each trimmed and stripped of one quote at each end |
| Frontmatter.CleanEntry | src/markdown.ts:44-46 | an entry padded with white space and wrapped in optional quotes cleans to its item |
| Frontmatter.ListOfEntries | src/markdown.ts:40-47 | a list of padded, optionally quoted entries reads as exactly their items, empty items kept |
| Frontmatter.EmptyEntryKept | src/markdown.ts:40-47 | `[a,,b]` reads as `a`, an empty entry and `b` |
| Frontmatter.SpaceAfterComma | src/markdown.ts:40-47 | `[a, b]` reads as `a` and `b` |
| Frontmatter.CleanItems | src/markdown.ts:47 | cleaning leaves plain items unchanged |
| Excerpt.GenerateExcerpt | src/markdown.ts:84-102 | short plain text is returned whole; longer text is cut to the limit plus an ellipsis; an excerpt has no line break and no white space at its ends |
| Excerpt.StripMarkup | src/markdown.ts:85-92 | no `*`, `_`, backtick or `~` survives the markup stages |
| Excerpt.StripCode | src/markdown.ts:89-91 | the code stages only delete: every remaining character was in the input |
| Excerpt.CollapseSpaceShape | src/markdown.ts:93-94 | only single spaces remain as white space |
| Excerpt.PlainText | src/markdown.ts:85-95 | the plain text has no line break, no decoration, no double space and no white space at its ends |
| Excerpt.TrimKeepsShape | src/markdown.ts:95 | trimming keeps these properties |
| Excerpt.CodeStagesInert | src/markdown.ts:89-91 | once backticks are removed, the code-block and inline-code stages change nothing |
| Headings.GenerateId | src/markdown.ts:107-114 | the id is a slug: lower case, word or dash characters, no double dash, no dash at the ends |
| Headings.KeptShape | src/markdown.ts:109-110 | the filtered text holds only id characters, none upper case |
| Headings.DashedShape | src/markdown.ts:111-112 | after the dash passes there is no white space and no double dash |
| Headings.GenerateIdFixesSlugs | src/markdown.ts:107-114 | a slug is its own id |
| Headings.GenerateIdIdempotent | src/markdown.ts:107-114 | the id of an id is that id |
| Headings.AnchorFor | src/markdown.ts:360-366 | the first occurrence uses the plain id; later ones add `-<count>` |
| Headings.HeadingState | src/markdown.ts:357-373 | levels 2 and 3 record the anchor in the table of contents and bump the count; other levels change nothing |
| Headings.HeadingCounts | src/markdown.ts:363-367 | the count of an id goes up by one |
| Headings.RepeatedHeading | src/markdown.ts:360-369 | two headings with the same text get `foo` and `foo-1` |
| Headings.ThirdHeadingRepeatsSecond | src/markdown.ts:363-367 | a third heading gets `foo-1` again: the count is stored under the suffixed id, so the plain id's count stays at 1 |
| Headings.HeadingHook.constructor | src/markdown.ts:352-353 | empty table of contents and empty counts |
| Headings.HeadingHook.Heading | src/markdown.ts:357-373 | the hook's new state and output are the heading-state function of the old state |
| Headings.HeadingKeepsLevels | src/markdown.ts:359 | only level-2 and level-3 entries ever enter the table of contents |
| Toc.TocHtml | src/markdown.ts:125-145 | empty exactly when there are no items |
| Toc.GenerateTocHtml | src/markdown.ts:125-145 | the loop produces the nested-list rendering |
| Toc.TocStep | src/markdown.ts:131-139 | one loop step appends the lead tags and the entry for one item |
| Toc.RenderLead | src/markdown.ts:132-136 | going deeper opens lists and going shallower closes them |
| Toc.RenderOpens | src/markdown.ts:133 | `n` opens render as `n` `<ul>` |
| Toc.RenderCloses | src/markdown.ts:135 | `n` closes render as `n` `</ul>` |
| Toc.TocWellNested | src/markdown.ts:125-145 | the generated `<ul>`/`</ul>` tags are balanced and never close below the outer list |
| Toc.TocListsItems | src/markdown.ts:125-145 | the entries of the generated list are exactly the items, in order |
| Emoji.ProtectCode | src/markdown.ts:162-171 | code regions are replaced by numbered placeholders and collected in order |
| Emoji.ProtectStep | src/markdown.ts:165-171 | one step of the replacement: a region at the position is collected and replaced by the next placeholder, any other character is copied; the collected and protected text so far, followed by the rest, stay the whole |
| Emoji.LayoutWeaves | src/markdown.ts:165-171 | the text is its plain runs woven with its code regions |
| Emoji.ProtectRegion | src/markdown.ts:165-171 | a code region becomes one placeholder and is recorded |
| Emoji.ProtectPlain | src/markdown.ts:165-171 | a character outside code is copied |
| Emoji.CodeRegionEnd | src/markdown.ts:166 | a region found ends after it starts, within the text; `CodeRegionExactly` states which text it finds |
| Emoji.TagNameAt | src/markdown.ts:166 | a tag name is read exactly when `pre` or `code` occurs there, in the lower-cased text |
| Emoji.CodeRegionExactly | src/markdown.ts:166 | the pattern matches at a position exactly when `<`, `pre` or `code` in any case, attributes up to the first `>`, and the first closing tag of that name in any case follow; the match ends after that closing tag |
| Emoji.RegionEndExactly | src/markdown.ts:166 | the same for any lower-cased text |
| Emoji.RegionShape | src/markdown.ts:166 | what the scan finds is a code region |
| Emoji.RegionFound | src/markdown.ts:166 | a code region is found, ending after its closing tag |
| Emoji.LayoutFrom | src/markdown.ts:166 | there is one more run than code regions |
| Emoji.PlaceholdersOf | src/markdown.ts:169 | one placeholder per region |
| Emoji.MarkerIsShaped | src/markdown.ts:169 | the placeholder marker has the shape the restore pattern relies on |
| Emoji.ConvertEmoji | src/markdown.ts:159-183 | the result is the code regions restored into the converted protected text |
| Emoji.PatternRecognises | src/markdown.ts:177-180 | the restore pattern matches each placeholder and maps it to its region |
| Emoji.PlaceholdersWoven | src/markdown.ts:177-180 | in a text woven from free runs and placeholders, only the placeholders match |
| Emoji.RestoreWeave | src/markdown.ts:177-180 | restoring puts every region back in place of its placeholder |
| Emoji.Restore | src/markdown.ts:177-180 | text without the placeholder marker comes back unchanged; `RestoreWeave` states the rest |
| Emoji.CodeRegionsKept | src/markdown.ts:159-183 | whatever the converter does to the runs, the code regions come back unchanged |
| Emoji.NothingToConvert | src/markdown.ts:159-183 | with an identity converter the text comes back unchanged |
| Alerts.NamesFold | src/markdown.ts:194-199 | each alert name lower-cases to its pattern word |
| Alerts.KindAt | src/markdown.ts:204 | an alert kind is read only where its name occurs, ignoring case |
| Alerts.AtIgnoreCaseOccurs | src/markdown.ts:204 | an exact lower-case occurrence also matches ignoring case |
| Alerts.ClosingEnd | src/markdown.ts:204 | the closing tags end after they start, within the text |
| Alerts.ScanClosing | src/markdown.ts:204 | the lazy content scan stops at a closing |
| Alerts.AlertAt | src/markdown.ts:204-217 | a match ends after it starts, within the text |
| Alerts.ConvertAlerts | src/markdown.ts:203-218 | HTML without a blockquote opening, in any case, is unchanged; `AlertRecognised` states the conversion |
| Alerts.AlertRecognised | src/markdown.ts:203-217 | a blockquote opening with `[!KIND]` becomes that kind's alert box around the trimmed content |
| Embeds.SchemeEnd | src/markdown.ts:228 | the scheme ends after it starts |
| Embeds.TweetUrl | src/markdown.ts:228 | a tweet address read ends after it starts |
| Embeds.WatchUrl | src/markdown.ts:255 | a watch address read ends after it starts |
| Embeds.ShortUrl | src/markdown.ts:264 | a short address read ends after it starts |
| Embeds.GistUrl | src/markdown.ts:294 | a gist address read ends after it starts |
| Embeds.AnchorEnd | src/markdown.ts:228 | the anchor text and its closing end after the address |
| Embeds.SchemeAt | src/markdown.ts:228 | `http://` and `https://` are read as schemes |
| Embeds.TweetPathAt | src/markdown.ts:228 | `user/status/digits` is read as that user and id |
| Embeds.VideoIdAt | src/markdown.ts:255 | a run of id characters is read as the video id |
| Embeds.GistPathAt | src/markdown.ts:294 | `user/id` is read as that gist |
| Embeds.TweetUrlParses | src/markdown.ts:228 | a twitter.com or x.com status address is read as that user and id |
| Embeds.WatchUrlParses | src/markdown.ts:255 | a youtube.com watch address, with or without `www.`, is read as that video id |
| Embeds.ShortUrlParses | src/markdown.ts:264 | a youtu.be address is read as that video id |
| Embeds.GistUrlParses | src/markdown.ts:294 | a gist address is read as that user and id |
| Embeds.AnchorEndAt | src/markdown.ts:228 | the anchor closes after the rest of the address, `">`, the text and the closing tag |
| Embeds.LinkedRecognised | src/markdown.ts:227-237 | an opening, an address and an anchor form a linked match |
| Embeds.BareRecognised | src/markdown.ts:240-250 | a paragraph holding only an address forms a bare match |
| Embeds.BareEndAt | src/markdown.ts:240-250 | the loose and strict tails end at the paragraph close |
| Embeds.LinkParagraphEmbeds | src/markdown.ts:227-237 | a paragraph that is one auto-linked address becomes its card |
| Embeds.LinkItemEmbeds | src/markdown.ts:313-323 | a list item that is one auto-linked address becomes its card |
| Embeds.BareParagraphEmbeds | src/markdown.ts:240-250 | a paragraph holding only an address becomes its card |
| Embeds.TweetAddressNoLt | src/markdown.ts:228 | a tweet address holds no `<` |
| Embeds.WatchAddressNoLt | src/markdown.ts:255 | a watch address holds no `<` |
| Embeds.ShortAddressNoLt | src/markdown.ts:264 | a short address holds no `<` |
| Embeds.TweetParagraphEmbeds | src/markdown.ts:227-237 | a linked tweet paragraph becomes the tweet card |
| Embeds.TweetItemEmbeds | src/markdown.ts:313-323 | a linked tweet list item becomes the tweet card |
| Embeds.WatchParagraphEmbeds | src/markdown.ts:254-261 | a linked watch paragraph becomes the video player |
| Embeds.ShortParagraphEmbeds | src/markdown.ts:263-270 | a linked short paragraph becomes the video player |
| Embeds.GistBareEmbeds | src/markdown.ts:303-310 | a bare gist paragraph becomes the gist script |
| Embeds.ApplyUnchanged | src/markdown.ts:224-346 | passes that match nowhere leave the HTML unchanged |
| Embeds.OpensAnchored | src/markdown.ts:224-346 | every linked pass starts at a `<p>` or `<li>` |
| Embeds.ConvertEmbeds | src/markdown.ts:224-346 | HTML without `<p>` or `<li>` is unchanged; the per-pass lemmas above state the embeds |
| Markdown.StringOr | src/markdown.ts:406-408 | a missing or falsy value gives the fallback; a non-empty string is kept |
| Markdown.ListOr | src/markdown.ts:409-412 | a list value is kept; anything else gives the empty list |
| Markdown.MetaOf | src/markdown.ts:421-443 | the title is never empty unless a list is given; flags need a literal boolean; the excerpt is generated when none is given |
| Markdown.NoFrontmatterDefaults | src/markdown.ts:421-443 | without front matter every field takes its default |
| Markdown.EmptyDataDefaults | src/markdown.ts:421-443 | empty data gives the defaults and a generated excerpt |
| Markdown.ListsOnly | src/markdown.ts:434-437 | categories and tags are taken only from lists |
| Markdown.FlagNeedsBoolean | src/markdown.ts:440-441 | the text `"true"` does not set a flag |
| Markdown.EmptyListTitle | src/markdown.ts:431 | an empty-list title gives the empty title |
| Markdown.EntriesAreTocHeadings | src/markdown.ts:357-373 | the rendered table of contents holds exactly the level-2 and level-3 headings, in order |
| Markdown.EntriesLeveled | src/markdown.ts:357-373 | every entry has level 2 or 3 |
| Markdown.EntryStep | src/markdown.ts:357-373 | one block adds at most its own heading |
| Markdown.RenderedStep | src/markdown.ts:355-380 | rendering one more block extends the output and state |
| Markdown.TocPart | src/markdown.ts:389-391 | a table of contents appears exactly on non-fixed pages with at least three entries |
| Markdown.RenderBlocks | src/markdown.ts:355-380 | the imperative render equals the rendering function, with a fresh hook |
| Markdown.RenderPage | src/markdown.ts:380-394 | the page is the rendering function's output |
| Markdown.ParseMarkdown | src/markdown.ts:348-419 | the post equals the post function, and its meta is the front-matter meta |
| Markdown.PostOf | src/markdown.ts:348-419 | the post of a raw document: the front matter is split off, the body is rendered, emoji and alerts and embeds are converted, and the meta is read; its properties are those of `ParseMarkdown`, `RenderPage` and `MetaOf` |
| Markdown.TocShown | src/markdown.ts:388-394 | the page ends with the body, and differs from it exactly when the table of contents is shown |
| Repository.Listing | src/repository.ts:12 | exactly the objects under the prefix |
| Repository.Insert | src/repository.ts:26 | the result is a permutation of the list plus the new post |
| Repository.SortByDate | src/repository.ts:26 | the result is a permutation of the input |
| Repository.FirstMatch | src/repository.ts:42-52 | found exactly when some object parses to the slug |
| Repository.InCategory | src/repository.ts:78 | exactly the posts in the category |
| Repository.FindIndex | src/repository.ts:86 | the first index holding the slug, or none |
| Repository.Site.constructor | src/repository.ts:6 | the site starts from the given cache and bucket with no reads |
| Repository.Site.ListPosts | src/repository.ts:6-32 | a cached list is returned without reading the bucket; otherwise the sorted list is built and cached |
| Repository.Site.Search | src/repository.ts:41-53 | the first object whose slug matches, leaving the cache alone |
| Repository.Site.GetPost | src/repository.ts:34-71 | a cached page is returned; otherwise posts then pages are searched, and a found post is rendered and cached |
| Repository.Site.PostsByCategory | src/repository.ts:73-79 | the category filter of the (possibly cached) list |
| Repository.Site.AdjacentPosts | src/repository.ts:81-92 | the neighbours in the (possibly cached) list |
| Repository.Site.InvalidateCache | src/repository.ts:99-113 | with a slug, the list and that post are dropped; without one, every post key is dropped |
| Repository.MetasExact | src/repository.ts:15-23 | a meta is listed exactly when some object parses to it with a non-empty slug |
| Repository.IndexExact | src/repository.ts:6-32 | the list is newest first and holds exactly the posts under `posts/` with a slug |
| Repository.InsertDescending | src/repository.ts:26 | inserting keeps the list newest first |
| Repository.SortDescending | src/repository.ts:26 | sorting gives a newest-first list |
| Repository.AdjacentNeighbours | src/repository.ts:86-91 | the next post is the newer neighbour, the previous one the older |
| Repository.AdjacentUnknown | src/repository.ts:86-91 | an unknown slug has no neighbours |
| Repository.InCategoryAppend | src/repository.ts:78 | the filter distributes over concatenation |
| Repository.IndexSlugCollides | src/repository.ts:4 | a post key equals the list key exactly for slug `index` |
| Repository.PostKeysCleared | src/repository.ts:106-111 | after clearing, neither the post nor the list key remains |
| Sync.HasDangerousChars | scripts/sync.ts:35-42 | true exactly when one of the twelve characters of the dangerous set (scripts/sync.ts:35) occurs |
| Sync.ShouldIgnore | scripts/sync.ts:38-46 | true exactly for `.DS_Store`, `Thumbs.db` and `.gitkeep` |
| Sync.CleanConcat | scripts/sync.ts:35 | joining clean texts gives clean text |
| Sync.PutLine | scripts/sync.ts:72-75 | the upload command built from clean paths is clean |
| Sync.DeleteLine | scripts/sync.ts:92-95 | the delete command built from a clean path is clean |
| Sync.SyncFile | scripts/sync.ts:58-82 | true only for a non-ignored file with clean paths; then the result is whether the upload command ran |
| Sync.DeleteFile | scripts/sync.ts:84-102 | true only for a clean path; then the result is whether the delete command ran |
| Sync.PutCommand | scripts/sync.ts:58-82 | no command for an ignored file or a dangerous path; any command built holds none of the twelve characters of the dangerous set |
| Sync.DeleteCommand | scripts/sync.ts:84-102 | no command for a dangerous path; any command built holds none of the twelve characters of the dangerous set |
| Sync.FormatTime | scripts/sync.ts:48-56 | the text has at least a number and a unit; `FormatTimeReadsBack` and the three range lemmas give its exact form |
| Sync.ReadMillis | scripts/sync.ts:50 | `<n>ms` reads back as `n` |
| Sync.ReadSeconds | scripts/sync.ts:52 | `<n>s` reads back as `n` seconds |
| Sync.ReadMinutes | scripts/sync.ts:54-55 | `<m>m <s>s` reads back as `m` minutes and `s` seconds |
| Sync.FormatTimeReadsBack | scripts/sync.ts:48-56 | the formatted time reads back as the time, truncated to whole seconds from one second on |
| Sync.MillisReadBack | scripts/sync.ts:49-50 | under a second the milliseconds come back exactly |
| Sync.SecondsReadBack | scripts/sync.ts:51-52 | under a minute the text is the whole seconds followed by `s`, and they come back |
| Sync.MinutesReadBack | scripts/sync.ts:53-55 | from a minute on the whole seconds come back |
| Sync.MinutesText | scripts/sync.ts:53-55 | from a minute on the text is minutes, a space, then seconds |
| Sync.MinutesShowSeconds | scripts/sync.ts:53-55 | the seconds shown are the remainder modulo 60 |
| Sync.Orphans | scripts/sync.ts:257-288 | exactly the remote objects with no local file |
| Sync.OrphansAppend | scripts/sync.ts:272-279 | orphans of a joined listing are the orphans of each part, in listing order |
| Sync.OrphansOne | scripts/sync.ts:272-279 | one remote object is an orphan exactly when no local file has its path |
| Sync.Deleted | scripts/sync.ts:257-300 | never more than the paths; none when every path is dangerous |
| Sync.DeleteOrphanedFiles | scripts/sync.ts:257-288 | tries exactly the orphans and counts the deletions that succeed |
| Sync.DeleteSpecificPaths | scripts/sync.ts:290-300 | counts the given paths that are deleted |
| Sync.Markdown | scripts/sync.ts:210-233 | exactly the `.md` names |
| Sync.LocalFiles.constructor | scripts/sync.ts:211 | the file set starts empty |
| Sync.LocalFiles.CollectImagesRecursive | scripts/sync.ts:235-255 | the set grows by exactly the files of the tree |
| Sync.GetLocalFiles | scripts/sync.ts:210-233 | the posts, pages and image files under their remote prefixes |
| Sync.Collected | scripts/sync.ts:235-255 | the image paths of a tree, skipping ignored names; its properties are `CollectedShape` and `CollectedFinds` |
| Sync.CollectedShape | scripts/sync.ts:235-255 | every collected path lies under the prefix and is not an ignored name |
| Sync.CollectedFinds | scripts/sync.ts:235-255 | every non-ignored file is collected, and every directory's files too |
| Sync.SyncImagesRecursive | scripts/sync.ts:155-168 | the count of files uploaded from the tree, each from its path under the local directory to the same relative path under the remote prefix |
| Sync.Synced | scripts/sync.ts:155-168 | the count of files uploaded from the tree; never more than the files the tree holds |
| Sync.IndexIn | scripts/sync.ts:29 | the first position of an argument, or none |
| Sync.FirstOperand | scripts/sync.ts:32 | the first argument not starting with `-`, or none |
| Sync.ParseArgs | scripts/sync.ts:27-32 | `--delete` is a flag; the slug is the first operand; delete paths follow the first `--delete-paths` |
| Sync.PlanOf | scripts/sync.ts:396-423 | delete paths mean delete-only; otherwise a non-empty slug selects one post and `--delete` adds orphan deletion |
| Sync.DeletePathsEndsMain | scripts/sync.ts:399-403 | `--delete-paths` followed by a path always means delete-only |
| Ogp.BlockOf | scripts/generate-ogp.ts:41-42 | the block lies between `---\n` and the first `\n---`; none without the opening |
| Ogp.BlockOfExactly | scripts/generate-ogp.ts:41-42 | the block is read exactly when the text opens with `---\n`, block, `\n---` and no earlier `\n---` lies inside the block |
| Ogp.BlockFound | scripts/generate-ogp.ts:41-42 | an opening `---\n` with any later `\n---` gives a block, ending no later than that fence |
| Ogp.CategoriesText | scripts/generate-ogp.ts:50 | only lines starting `categories:` give a list text, kept to one line; `CategoriesTextExactly` states both directions of the pattern |
| Ogp.WithoutQuotes | scripts/generate-ogp.ts:53 | is `RemoveAll` of the quote characters: no quote remains and every other character is kept in order |
| Ogp.CategoriesOf | scripts/generate-ogp.ts:52-55 | non-empty entries without quotes |
| Ogp.CategoriesAppend | scripts/generate-ogp.ts:52-55 | pieces are read one by one: the categories of joined piece lists are joined |
| Ogp.CategoriesMembers | scripts/generate-ogp.ts:52-55 | a category is present exactly when it is non-empty and some piece, trimmed and without quotes, equals it |
| Ogp.ValueRun | scripts/generate-ogp.ts:59 | a non-empty run of value characters, ending the line or before a closing quote |
| Ogp.ValueAfter | scripts/generate-ogp.ts:59 | a value read is non-empty, has no quote or line break, and is framed by blanks and optional quotes in the text |
| Ogp.KeyValue | scripts/generate-ogp.ts:59 | the key is a word before a colon; the value is non-empty; the line is the key, a colon, blanks, an optional quote, the value and an optional quote |
| Ogp.ValueRunOf | scripts/generate-ogp.ts:59 | a run of value characters followed by an optional quote reads as that run |
| Ogp.ValueAfterReads | scripts/generate-ogp.ts:59 | blanks, an optional quote, a value and an optional quote read as the value, quoted or not |
| Ogp.KeyValueReads | scripts/generate-ogp.ts:59 | `key:` followed by blanks and an optionally quoted value reads as that key and value |
| Ogp.Classify | scripts/generate-ogp.ts:48-63 | a categories line wins over a key-value pair; other lines are ignored |
| Ogp.Classified | scripts/generate-ogp.ts:48 | one kind per line |
| Ogp.BlockLines | scripts/generate-ogp.ts:48 | the lines rejoin to the block |
| Ogp.ParseFrontmatter | scripts/generate-ogp.ts:40-73 | the loop equals the card-meta function |
| Ogp.OgpMetaOf | scripts/generate-ogp.ts:40-73 | without a closed front-matter block (no opening `---` line, or no closing `---` after it) the card is `Untitled` with no background; the title is never empty |
| Ogp.GatherLastWins | scripts/generate-ogp.ts:61 | the last pair for a key decides its value |
| Ogp.GatherKeys | scripts/generate-ogp.ts:59-62 | a key is present exactly when some line defines it |
| Ogp.GatherCategories | scripts/generate-ogp.ts:50-56 | the last categories line decides the categories |
| Ogp.NoCategoriesLine | scripts/generate-ogp.ts:50-56 | with no categories line the categories are empty |
| Ogp.BackgroundFlag | scripts/generate-ogp.ts:71 | the background is off exactly for `ogp_bg: false` |
| Ogp.BlankValue | scripts/generate-ogp.ts:59 | `key:` followed by two spaces reads as a one-space value |
| Ogp.CategoriesTextExactly | scripts/generate-ogp.ts:50 | a list text is read exactly when the line is `categories:`, blanks, `[`, that text on one line, `]` |
| Ogp.CategoriesTextReads | scripts/generate-ogp.ts:50 | `categories:` followed by blanks and a bracketed one-line text reads as that text |
| Ogp.WithSlug | scripts/generate-ogp.ts:313-315 | exactly the metas with a slug; `WithSlugAppend` and `WithSlugOne` state that the order is kept |
| Ogp.BySlug | scripts/generate-ogp.ts:328-331 | exactly the metas with the requested slug; `BySlugAppend` and `BySlugOne` state that the order is kept |
| Ogp.WithSlugAppend | scripts/generate-ogp.ts:313-315 | filtering a joined list is filtering each part, in order |
| Ogp.WithSlugOne | scripts/generate-ogp.ts:313-315 | one meta is kept exactly when it has a slug |
| Ogp.BySlugAppend | scripts/generate-ogp.ts:328-331 | filtering a joined list is filtering each part, in order |
| Ogp.BySlugOne | scripts/generate-ogp.ts:328-331 | one meta is kept exactly when its slug is the requested one |
| Ogp.CollectTargets | scripts/generate-ogp.ts:305-331 | the targets are the selection over the parsed files |
| Ogp.Metas | scripts/generate-ogp.ts:310-312 | one meta per file, in order |
| Ogp.Targets | scripts/generate-ogp.ts:319-331 | without a slug the site card comes last; every target has a slug; a requested slug selects only that slug |
| Ogp.FileName | scripts/generate-ogp.ts:345-346 | every card is a `.png`; except for the site card its name starts with the date and slug |
| Ogp.BackgroundPath | scripts/generate-ogp.ts:358-362 | a background needs the flag and an image; root paths are read under `./content` |
| Ogp.MimeType | scripts/generate-ogp.ts:367-375 | PNG, JPEG or GIF |
| Ogp.CardStep | scripts/generate-ogp.ts:345-391 | a target is skipped exactly when not forced and its file exists, from before the run or written earlier in it; otherwise it is rendered and its file written, or nothing changes |
| Ogp.Cards | scripts/generate-ogp.ts:340-392 | generated plus skipped never exceeds the targets; nothing is skipped when forced |
| Ogp.GenerateAll | scripts/generate-ogp.ts:340-392 | the loop counts are those of `Cards` over the targets in order, and they add up to at most the targets |
| Ogp.CountStep | scripts/generate-ogp.ts:340-392 | each target adds its own step to the tally of the targets before it |
| Ogp.WrittenCount | scripts/generate-ogp.ts:340-392 | every card written is counted; without `--force` no file is written twice, so the files written are exactly as many as the cards |
| Ogp.WrittenGrows | scripts/generate-ogp.ts:340-392 | the files written only grow as the loop goes on |
| Ogp.SameNameSkipped | scripts/generate-ogp.ts:345-353 | without `--force`, a later target whose file an earlier target rendered is skipped |
| Ogp.DuplicateCard | scripts/generate-ogp.ts:345-353 | the same card twice with nothing on disk gives one card and one skip |
| Routes.ContentType | src/index.tsx:272-284 | each of the seven extensions, in any case, gives its own type, and the fallback is given exactly for any other extension |
| Routes.ContentTypeMatchesGenerator | src/index.tsx:272-284 | the site and the card generator agree on the background types |
| Routes.ImageReply | src/index.tsx:25-44 | 400 for an unsafe path; otherwise the object under `images/`, or 404 |
| Routes.ImageKeyConfined | src/index.tsx:28-33 | every image served lies under `images/` and holds no `..` |
| Routes.StripPng | src/index.tsx:49 | one trailing `.png` is dropped |
| Routes.ServeDefault | src/index.tsx:286-293 | the site card is served exactly when it exists, as a PNG with the short cache age; otherwise 404 |
| Routes.CardReply | src/index.tsx:47-84 | 400 exactly for an unsafe slug; a post's existing card is served as a PNG with the long cache age; a missing `default` card is 404; a missing post or card falls back to the site card |
| Routes.CardKey | src/index.tsx:49-74 | no key exactly for an unsafe slug or a missing post other than `default`; any key is a PNG under `images/ogp/` |
| Routes.CardKeyIsGeneratorFile | src/index.tsx:73 | a post's card key is the generator's file name under `images/ogp/` |
| Routes.DefaultCard | src/index.tsx:57-64 | `default` serves the site card or 404 |
| Routes.TotalPages | src/index.tsx:104 | the fewest pages of ten that hold all posts |
| Routes.Slice | src/index.tsx:103 | the posts of one page, in order |
| Routes.FirstPage | src/index.tsx:101-113 | the home page is page 1 of the page count, holding at most ten posts from the front of the list; with posts it is exactly what `/page/1/` shows |
| Routes.ParseInt | src/index.tsx:117 | a number is read only when a digit occurs; `ParseIntReads` and `ParseIntNoDigit` give the value |
| Routes.ParseIntNumeral | src/index.tsx:117 | a printed number reads back as itself |
| Routes.ParseIntReads | src/index.tsx:117 | leading white space, an optional sign, a numeral and a tail not starting with a digit read as the signed number |
| Routes.ParseIntNoDigit | src/index.tsx:117 | leading white space and an optional sign not followed by a digit read as no number |
| Routes.ParseSigned | src/index.tsx:117 | after the blanks, a number is read exactly when a digit follows the optional sign |
| Routes.ParseDigits | src/index.tsx:117 | a digit run is read exactly when the text starts with a digit |
| Routes.PageAt | src/index.tsx:116-136 | a page exists only from 1 up to the page count |
| Routes.PageReply | src/index.tsx:116-126 | 404 exactly when the number is missing or out of range |
| Routes.PageExists | src/index.tsx:118-126 | each page up to the count exists |
| Routes.PageOfPost | src/index.tsx:116-136 | the page numbered from a post's position exists and holds that post at its slot |
| Routes.PadTwo | src/index.tsx:174-175 | one character gets a leading `0`, none gives `00`, and two or more are kept |
| Routes.IntText | src/index.tsx:173 | a year printed as text starts with a digit or a minus sign |
| Routes.Segments | src/index.tsx:172-175 | the year is `NaN` exactly when the date does not parse, and then month and day are `NaN` too |
| Routes.ArticleReplyOf | src/index.tsx:159-187 | 404 without a post; a redirect when the address does not match the post's date; the page otherwise |
| Routes.ShortReply | src/index.tsx:190-199 | the address without a trailing slash redirects, exactly for valid date segments, to the one with it, and never shows the page |
| Routes.RedirectSettles | src/index.tsx:171-182 | following the redirect reaches the page |
| Routes.SegmentsValid | src/index.tsx:172-175 | the redirect address has a four-digit year and two-digit month and day |
| Routes.InvalidDateNeverShown | src/index.tsx:172-177 | a date that does not parse never shows the post (it redirects to the `NaN` address) |
| Routes.InvalidateReplyOf | src/index.tsx:219-230 | refused exactly without the right key; an accepted reply names the slug, or `all` when none or `all` was given |
| Routes.Invalidate | src/index.tsx:219-230 | with the key the site cache is cleared as the repository promises; without it nothing changes |

## Left out

- `marked` and `node-emoji` are foreign libraries. `Markdown` takes the Markdown-to-blocks conversion as a parameter, and `Emoji` takes the emoji converter as one.
- Case folding is ASCII only; the source's `toLowerCase`/`toUpperCase` also fold non-ASCII letters.
- Lengths are counted in characters, not in UTF-16 code units.
- Date parsing (`new Date(...)`, `getTime`) is a parameter: `dateKey` for sorting, and a calendar reading for the article redirect. Every date is assumed to parse: a missing or malformed date gives `NaN` in the source, the comparator at src/repository.ts:26 then returns `NaN`, and the order `Array.prototype.sort` produces is implementation-defined.
- `parseInt` is modelled on unbounded integers, without float precision loss on very long numbers.
- R2, KV, the file system, `execSync`, the clock and the console are parameters or fields: `Runner` for shell commands, `present` for object existence (for the card generator: the files in the output directory before the run; the files the run writes are tracked in `Ogp.Tally`), the `Site` fields for the stores.
- Sync.SyncImagesRecursive: every directory entry is readable; a missing or unreadable object is not modelled.
- Repository.Site.GetPost: `if (!file) continue` is not modelled; every listed object is readable.
- Repository.Site.ListPosts: the skip of a listed object that cannot be read (`if (!file) continue`, src/repository.ts:17) is not modelled; every listed object is readable.
- Repository.IndexExact, Repository.Site.GetPost and Repository.Site.InvalidateCache: `BUCKET.list` and `CACHE.list` (src/repository.ts:12, :41, :56, :108) are taken to return every key in one page; the 1000-key page cap and the cursor are not modelled, so with more than 1000 objects under a prefix the source can miss a post that the model finds.
- Routes.ContentType: the extension is looked up on a plain object literal in the source, so `constructor` and `__proto__` yield inherited object values instead of the fallback; the model gives the fallback for them.
- Sync.HasDangerousChars: the guard is the source's twelve-character set; `"` and the line break are not in it, so no claim is made that the commands are safe for a shell.
- The `/api/r2-list` route, `/feed/` (RSS), `/favicon.ico`, the views and the development server are not part of this model.
- `/about/` and `/privacypolicy/` are `GetPost` with fixed slugs and are not modelled as routes of their own.
- Category pages are not paginated in the source; `Routes` models only the paged home listing.
- The fallback for an unknown alert type cannot be reached, because the pattern only admits the five known names; it is left out.
- Repository.SortByDate: insertion sort is newest first and a permutation, but is not shown to place equal dates in the order `Array.prototype.sort` would.
- `syncAll`, `syncBySlug`, `getSlugFromFile`, `getDateFromFile` and `listR2Objects` are not part of this model. What they do beyond the modelled commands:
  - `getSlugFromFile` and `getDateFromFile` read the slug and date lines with regular expressions of their own (scripts/sync.ts:104-122).
  - `syncBySlug` picks card files whose name contains the slug as a substring (`f.includes(slug)`, scripts/sync.ts:352), so a short slug can upload other posts' cards; it also extracts `/images/…` references from the post with a regular expression (scripts/sync.ts:374-385).
  - `listR2Objects` fetches `/api/r2-list` once with the admin key and gives an empty list when the key or site address is unset or the request fails (scripts/sync.ts:170-207).
  - `syncAll` walks the posts, pages and images directories and reports counts and times on the console.
- Card rendering (satori, fonts, avatar; scripts/generate-ogp.ts:75-274) is the `render` parameter of `Ogp.GenerateAll`.
- Reply bodies (404 pages, JSON texts) are not modelled; a reply is a status code, a redirect or the object served with its content type and cache age.
- Ogp.BackgroundFlag: a missing `ogp_bg` leaves the background on, as in the source; an unreadable background file is not modelled.
- Alerts.AlertRecognised is stated for an alert at the start of the text, with its lead written out; it does not state where later alerts in a longer document are found.
- Embeds.TweetParagraphEmbeds, Embeds.WatchParagraphEmbeds, Embeds.ShortParagraphEmbeds and Embeds.GistBareEmbeds are stated for one embed at the start of the text; the remaining embed passes are modelled in `Embeds.Passes` but have no per-pass lemma beyond the generic `Embeds.LinkParagraphEmbeds`, `Embeds.LinkItemEmbeds` and `Embeds.BareParagraphEmbeds`.
