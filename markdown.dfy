/**
 * Assembling a post (src/markdown.ts, `parseMarkdown` and `parseFrontmatter`): the
 * metadata record with its defaults, and the pipeline that renders the body through the
 * Markdown converter's hooks, rewrites alerts and embeds, puts the table of contents in
 * front and converts emoji shortcodes outside code.
 *
 * The Markdown converter is a parameter: it yields the document as a sequence of blocks,
 * and the headings and code blocks among them go through the renderer's hooks. The
 * emoji converter is a parameter too.
 */
module Markdown {
  import opened Text
  import opened Frontmatter
  import opened Headings
  import opened Html
  import opened Excerpt
  import Toc
  import Alerts
  import Embeds
  import Emoji

  /** The metadata of a post. */
  datatype PostMeta = PostMeta(
    title: string, slug: string, date: string,
    categories: seq<string>, tags: seq<string>,
    excerpt: string, image: string,
    fixedPage: bool, noAds: bool)

  /** A rendered post: its metadata and its HTML. */
  datatype Post = Post(meta: PostMeta, content: string)

  const ExcerptLength: nat := 100

  // ---------------------------------------------------------------------------
  // metadata

  /** Whether a value is falsy in the sense of `||`: the empty string, 0 and false. A
      list, even an empty one, is not. */
  predicate Falsy(v: Value) {
    match v
    case Str(s) => s == ""
    case Int(n) => n == 0
    case Bool(b) => !b
    case List(_) => false
  }

  /** `String(value)`: a list prints as its items joined by commas. */
  function Printed(v: Value): string {
    match v
    case Str(s) => s
    case Int(n) => NatToString(n)
    case Bool(b) => if b then "true" else "false"
    case List(items) => Join(items, ",")
  }

  /** `String(data[key] || fallback)` */
  function StringOr(data: Data, key: string, fallback: string): (r: string)
    ensures key !in data ==> r == fallback
    ensures key in data && Falsy(data[key]) ==> r == fallback
    ensures key in data && data[key].Str? && data[key].s != "" ==> r == data[key].s
    ensures fallback != "" && !(key in data && data[key].List?) ==> r != ""
  {
    if key !in data || Falsy(data[key]) then fallback
    else
      var r := Printed(data[key]);
      assert data[key].Int? ==> |r| >= 1;
      r
  }

  /** `Array.isArray(data[key]) ? data[key].map(String) : []` */
  function ListOr(data: Data, key: string): (r: seq<string>)
    ensures !(key in data && data[key].List?) ==> r == []
    ensures key in data && data[key].List? ==> r == data[key].items
  {
    if key in data && data[key].List? then data[key].items else []
  }

  /** `data[key] === true`: only the boolean true, not the string `"true"`. */
  predicate IsTrue(data: Data, key: string) {
    key in data && data[key] == Bool(true)
  }

  /** The record `parseFrontmatter` and `parseMarkdown` build from a parsed text. A
      non-empty excerpt in the front matter wins over the one generated from the body. */
  function MetaOf(p: Parsed): (m: PostMeta)
    ensures m.title != "" || ("title" in p.data && p.data["title"].List?)
    ensures m.fixedPage <==> IsTrue(p.data, "fixedPage")
    ensures m.noAds <==> IsTrue(p.data, "noAds")
    ensures StringOr(p.data, "excerpt", "") != "" ==> m.excerpt == StringOr(p.data, "excerpt", "")
    ensures StringOr(p.data, "excerpt", "") == "" ==> m.excerpt == GenerateExcerpt(p.content, ExcerptLength)
  {
    var given := StringOr(p.data, "excerpt", "");
    PostMeta(
      StringOr(p.data, "title", "Untitled"),
      StringOr(p.data, "slug", ""),
      StringOr(p.data, "date", ""),
      ListOr(p.data, "categories"),
      ListOr(p.data, "tags"),
      if given != "" then given else GenerateExcerpt(p.content, ExcerptLength),
      StringOr(p.data, "image", ""),
      IsTrue(p.data, "fixedPage"),
      IsTrue(p.data, "noAds"))
  }

  /** `parseFrontmatter(raw)` */
  function ParseFrontmatter(raw: string): PostMeta {
    MetaOf(FrontmatterOf(raw))
  }

  /** The record for a text without front matter: every default, and the excerpt
      generated from the whole text. */
  lemma NoFrontmatterDefaults(raw: string)
    requires !IsFence(Split(raw, '\n')[0])
    ensures ParseFrontmatter(raw) ==
      PostMeta("Untitled", "", "", [], [], GenerateExcerpt(raw, ExcerptLength), "", false, false)
  {
  }

  /** Every field of the record with no data at all takes its default. */
  lemma EmptyDataDefaults(content: string)
    ensures MetaOf(Parsed(map[], content)) ==
      PostMeta("Untitled", "", "", [], [], GenerateExcerpt(content, ExcerptLength), "", false, false)
  {
  }

  /** Categories and tags are the list's items when the value is a list, and empty for
      any other value, a comma-separated string included. */
  lemma ListsOnly(p: Parsed)
    ensures var m := MetaOf(p);
      && (("categories" in p.data && p.data["categories"].List?) ==> m.categories == p.data["categories"].items)
      && (!("categories" in p.data && p.data["categories"].List?) ==> m.categories == [])
      && (("tags" in p.data && p.data["tags"].List?) ==> m.tags == p.data["tags"].items)
      && (!("tags" in p.data && p.data["tags"].List?) ==> m.tags == [])
  {
  }

  /** A quoted `"true"` does not make a fixed page: only the boolean does. */
  lemma FlagNeedsBoolean(p: Parsed)
    requires "fixedPage" in p.data && p.data["fixedPage"] == Str("true")
    ensures !MetaOf(p).fixedPage
  {
  }

  /** An empty list given as the title prints as the empty string, since a list is not
      falsy: the only way the title ends up empty. */
  lemma EmptyListTitle(p: Parsed)
    requires "title" in p.data && p.data["title"] == List([])
    ensures MetaOf(p).title == ""
  {
  }

  // ---------------------------------------------------------------------------
  // rendering the body through the hooks

  /** What the Markdown converter yields, in document order: headings and fenced code
      go through the renderer's hooks; everything else is its own markup. */
  datatype Block = Heading(text: string, depth: nat) | Code(text: string, lang: string) | Markup(html: string)

  type Converter = string -> seq<Block>

  /** The markup a block renders to, given the hook's state when it is reached. */
  function BlockHtml(st: HookState, b: Block): string {
    match b
    case Heading(text, depth) => HeadingHtml(st, text, depth)
    case Code(text, lang) => CodeBlockHtml(text, lang)
    case Markup(html) => html
  }

  /** The hook's state after a block: only headings change it. */
  function BlockState(st: HookState, b: Block): HookState {
    match b
    case Heading(text, depth) => HeadingState(st, text, depth)
    case _ => st
  }

  /** The body and the hook's state after rendering the blocks in order, from a fresh
      hook. */
  function Rendered(blocks: seq<Block>): (r: (string, HookState))
    decreases |blocks|
  {
    if |blocks| == 0 then ("", HookState([], map[]))
    else
      var (html, st) := Rendered(blocks[..|blocks| - 1]);
      var b := blocks[|blocks| - 1];
      (html + BlockHtml(st, b), BlockState(st, b))
  }

  /** The headings that belong in the table of contents, as (level, text), in order. */
  function TocHeadings(blocks: seq<Block>): seq<(nat, string)>
    decreases |blocks|
  {
    if |blocks| == 0 then []
    else
      var b := blocks[|blocks| - 1];
      TocHeadings(blocks[..|blocks| - 1]) +
        (if b.Heading? && InToc(b.depth) then [(b.depth, b.text)] else [])
  }

  function LevelsAndTexts(items: seq<TocItem>): seq<(nat, string)> {
    seq(|items|, k requires 0 <= k < |items| => (items[k].level, items[k].text))
  }

  /** Rendering one more block appends its markup and moves the hook on by it. */
  lemma RenderedStep(blocks: seq<Block>, i: nat)
    requires i < |blocks|
    ensures var r := Rendered(blocks[..i]);
      Rendered(blocks[..i + 1]) == (r.0 + BlockHtml(r.1, blocks[i]), BlockState(r.1, blocks[i]))
  {
    assert blocks[..i + 1][..i] == blocks[..i];
  }

  /** A block adds an entry exactly when it is a depth-2 or depth-3 heading. */
  lemma EntryStep(st: HookState, b: Block)
    ensures LevelsAndTexts(BlockState(st, b).tocItems) ==
      LevelsAndTexts(st.tocItems) + (if b.Heading? && InToc(b.depth) then [(b.depth, b.text)] else [])
  {
    if b.Heading? && InToc(b.depth) {
      var items := BlockState(st, b).tocItems;
      var n := |st.tocItems|;
      assert |items| == n + 1 && items[..n] == st.tocItems && items[n].level == b.depth && items[n].text == b.text;
      forall k | 0 <= k < n
        ensures items[k] == st.tocItems[k]
      {
        assert items[..n][k] == items[k];
      }
    }
  }

  /** The hook records exactly the depth-2 and depth-3 headings, in document order, and
      nothing else. */
  lemma {:induction false} EntriesAreTocHeadings(blocks: seq<Block>)
    ensures LevelsAndTexts(Rendered(blocks).1.tocItems) == TocHeadings(blocks)
    decreases |blocks|
  {
    if |blocks| > 0 {
      var init := blocks[..|blocks| - 1];
      EntriesAreTocHeadings(init);
      EntryStep(Rendered(init).1, blocks[|blocks| - 1]);
    }
  }

  /** Every recorded entry is a depth-2 or depth-3 heading. */
  lemma {:induction false} EntriesLeveled(blocks: seq<Block>)
    ensures forall k :: 0 <= k < |Rendered(blocks).1.tocItems| ==> InToc(Rendered(blocks).1.tocItems[k].level)
    decreases |blocks|
  {
    if |blocks| > 0 {
      var init := blocks[..|blocks| - 1];
      var b := blocks[|blocks| - 1];
      EntriesLeveled(init);
      if b.Heading? {
        HeadingKeepsLevels(Rendered(init).1, b.text, b.depth);
      }
    }
  }

  // ---------------------------------------------------------------------------
  // the pipeline

  /** The table of contents, or nothing: it is shown for at least three entries, and
      never on a fixed page. */
  function TocPart(fixedPage: bool, items: seq<TocItem>): (r: string)
    requires Toc.Leveled(items)
    ensures r != "" <==> !fixedPage && |items| >= 3
  {
    if !fixedPage && |items| >= 3 then Toc.TocHtml(items) else ""
  }

  /** `convertEmoji(html)`, with the emoji converter as a parameter. */
  function EmojiConverted(html: string, emojify: string -> string): string {
    Emoji.Restore(emojify(Emoji.ProtectedFrom(html, 0, 0)), Emoji.CodeBlocks(html))
  }

  /** The HTML of a post before emoji conversion: the table of contents, if any, then the
      body with alerts and embeds rewritten. */
  function PageHtml(fixedPage: bool, blocks: seq<Block>): string {
    EntriesLeveled(blocks);
    TocPart(fixedPage, Rendered(blocks).1.tocItems) + Body(blocks)
  }

  /** The body with alerts and then embeds rewritten. */
  function Body(blocks: seq<Block>): string {
    Embeds.ConvertEmbeds(Alerts.ConvertAlerts(Rendered(blocks).0))
  }

  /** What `parseMarkdown(raw)` returns. */
  function PostOf(raw: string, marked: Converter, emojify: string -> string): Post {
    var p := FrontmatterOf(raw);
    Post(MetaOf(p), EmojiConverted(PageHtml(IsTrue(p.data, "fixedPage"), marked(p.content)), emojify))
  }

  /** The converter at work: it calls the hooks as it meets headings and code, in
      document order, and the hook object collects the table of contents. */
  method RenderBlocks(blocks: seq<Block>) returns (bodyHtml: string, hook: HeadingHook)
    ensures fresh(hook)
    ensures (bodyHtml, hook.State()) == Rendered(blocks)
  {
    hook := new HeadingHook();
    bodyHtml := "";
    for i := 0 to |blocks|
      invariant (bodyHtml, hook.State()) == Rendered(blocks[..i])
    {
      RenderedStep(blocks, i);
      var piece: string;
      match blocks[i] {
        case Heading(text, depth) =>
          piece := hook.Heading(text, depth);
        case Code(text, lang) =>
          piece := CodeBlockHtml(text, lang);
        case Markup(html) =>
          piece := html;
      }
      bodyHtml := bodyHtml + piece;
    }
    assert blocks[..|blocks|] == blocks;
  }

  /** The page before emoji conversion: the body with alerts and then embeds rewritten,
      and the table of contents in front of it when it is shown. */
  method RenderPage(fixedPage: bool, blocks: seq<Block>) returns (html: string)
    ensures html == PageHtml(fixedPage, blocks)
  {
    var bodyHtml, hook := RenderBlocks(blocks);
    bodyHtml := Alerts.ConvertAlerts(bodyHtml);
    bodyHtml := Embeds.ConvertEmbeds(bodyHtml);
    var tocHtml := "";
    EntriesLeveled(blocks);
    if !fixedPage && |hook.tocItems| >= 3 {
      tocHtml := Toc.GenerateTocHtml(hook.tocItems);
    }
    html := tocHtml + bodyHtml;
  }

  /** `parseMarkdown(raw)` */
  method ParseMarkdown(raw: string, marked: Converter, emojify: string -> string) returns (post: Post)
    ensures post == PostOf(raw, marked, emojify)
    ensures post.meta == ParseFrontmatter(raw)
  {
    var parsed := ParseFrontmatterRaw(raw);
    var html := RenderPage(IsTrue(parsed.data, "fixedPage"), marked(parsed.content));
    html := Emoji.ConvertEmoji(html, emojify);
    post := Post(MetaOf(parsed), html);
  }

  /** The body always ends the page, and the table of contents goes in front of it
      exactly when the page is not fixed and has at least three depth-2 or depth-3
      headings. */
  lemma TocShown(fixedPage: bool, blocks: seq<Block>)
    ensures EndsWith(PageHtml(fixedPage, blocks), Body(blocks))
    ensures PageHtml(fixedPage, blocks) != Body(blocks) <==> !fixedPage && |TocHeadings(blocks)| >= 3
  {
    var items := Rendered(blocks).1.tocItems;
    EntriesAreTocHeadings(blocks);
    EntriesLeveled(blocks);
    assert |LevelsAndTexts(items)| == |items|;
    var page := TocPart(fixedPage, items) + Body(blocks);
    assert page[|page| - |Body(blocks)|..] == Body(blocks);
  }
}
