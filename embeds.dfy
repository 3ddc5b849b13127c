/**
 * Embed cards (src/markdown.ts `convertEmbeds`): paragraphs and list items that hold a
 * link to a post on X/Twitter, a YouTube video or a GitHub gist become embed markup.
 * The function is eleven global, case-sensitive `replace` passes, one after the other;
 * each pass's pattern is tried at every index of the text, and its sub-patterns are
 * written here as the scans they amount to. Each greedy repetition either stops at a
 * character it cannot consume, or, as with the digits of a post's id followed by
 * `[^"]*`, is followed by a repetition that takes whatever it gave back; so the first
 * way the pattern can match is the greedy one, and backtracking does not change the
 * outcome.
 */
module Embeds {
  import opened Wrappers
  import opened Text
  import opened Rewrite

  /** What a recognised link embeds: a post (its author and numeric id), a video (its
      id) or a gist (the whole link, as written). */
  datatype Embed = Tweet(user: string, id: string) | Video(id: string) | Gist(url: string)

  /** What a pattern recognised at some index: where its match ends and what it embeds. */
  datatype Hit = Hit(end: nat, embed: Embed)

  /** Reads a link at an index, as the recognisers below do. */
  type UrlReader = (string, nat) -> Option<Hit>

  /** The address a post's card points at: always on twitter.com, whatever host the
      link named. */
  function TwitterUrl(user: string, id: string): string {
    "https://twitter.com/" + user + "/status/" + id
  }

  function CardHtml(e: Embed): string {
    match e
    case Tweet(user, id) =>
      "<div class=\"embed-card embed-twitter\">\n        <blockquote class=\"twitter-tweet\" data-dnt=\"true\">\n          <a href=\""
      + TwitterUrl(user, id) + "\"></a>\n        </blockquote>\n      </div>"
    case Video(id) =>
      "<div class=\"embed-card embed-youtube\">\n        <iframe src=\"https://www.youtube.com/embed/"
      + id + "\" frameborder=\"0\" allowfullscreen loading=\"lazy\"></iframe>\n      </div>"
    case Gist(url) =>
      "<div class=\"embed-card embed-gist\">\n        <script src=\"" + url + ".js\"></script>\n      </div>"
  }

  // ---------------------------------------------------------------------------
  // the links

  predicate NotSlash(c: char) { c != '/' }

  /** `[a-zA-Z0-9_-]` */
  predicate IsIdChar(c: char) { IsAsciiLetter(c) || IsDigit(c) || c == '_' || c == '-' }

  /** `[a-zA-Z0-9]` */
  predicate IsAlnum(c: char) { IsAsciiLetter(c) || IsDigit(c) }

  /** `[^\s<]` */
  predicate NotSpaceOrLt(c: char) { !IsSpace(c) && c != '<' }

  /** `https?:\/\/`: the index after the scheme. */
  function SchemeEnd(s: string, p: nat): (r: Option<nat>)
    ensures r.Some? ==> p < r.value <= |s|
  {
    if OccursAt(s, "https://", p) then Some(p + 8)
    else if OccursAt(s, "http://", p) then Some(p + 7)
    else None
  }

  /** `(x\.com|twitter\.com)\/`: the index after the host and its slash. */
  function TweetHost(s: string, h: nat): (r: Option<nat>)
    ensures r.Some? ==> h < r.value <= |s|
  {
    if OccursAt(s, "x.com/", h) then Some(h + 6)
    else if OccursAt(s, "twitter.com/", h) then Some(h + 12)
    else None
  }

  /** `([^/]+)\/status\/(\d+)`, from just after the host. */
  function TweetPath(s: string, d: nat): (r: Option<Hit>)
    requires d <= |s|
    ensures r.Some? ==> d < r.value.end <= |s|
  {
    var u := RunEnd(s, d, NotSlash);
    if u > d && OccursAt(s, "/status/", u) then
      var n := RunEnd(s, u + 8, IsDigit);
      if n > u + 8 then Some(Hit(n, Tweet(s[d..u], s[u + 8..n]))) else None
    else None
  }

  /** A post's link, `https?:\/\/(x\.com|twitter\.com)\/([^/]+)\/status\/(\d+)`. */
  function TweetUrl(s: string, p: nat): (r: Option<Hit>)
    ensures r.Some? ==> p < r.value.end <= |s|
  {
    match SchemeEnd(s, p)
    case None => None
    case Some(h) =>
      match TweetHost(s, h)
      case None => None
      case Some(d) => TweetPath(s, d)
  }

  /** `([a-zA-Z0-9_-]+)`: a video id. */
  function VideoId(s: string, v: nat): (r: Option<Hit>)
    requires v <= |s|
    ensures r.Some? ==> v < r.value.end <= |s|
  {
    var e := RunEnd(s, v, IsIdChar);
    if e > v then Some(Hit(e, Video(s[v..e]))) else None
  }

  /** `youtube\.com\/watch\?v=` and the id, from after the optional `www.`. */
  function WatchPath(s: string, w: nat): (r: Option<Hit>)
    ensures r.Some? ==> w < r.value.end <= |s|
  {
    if OccursAt(s, "youtube.com/watch?v=", w) then VideoId(s, w + 20) else None
  }

  /** A video's page, `https?:\/\/(www\.)?youtube\.com\/watch\?v=([a-zA-Z0-9_-]+)`. */
  function WatchUrl(s: string, p: nat): (r: Option<Hit>)
    ensures r.Some? ==> p < r.value.end <= |s|
  {
    match SchemeEnd(s, p)
    case None => None
    case Some(h) => WatchPath(s, if OccursAt(s, "www.", h) then h + 4 else h)
  }

  /** A video's short link, `https?:\/\/youtu\.be\/([a-zA-Z0-9_-]+)`. */
  function ShortUrl(s: string, p: nat): (r: Option<Hit>)
    ensures r.Some? ==> p < r.value.end <= |s|
  {
    match SchemeEnd(s, p)
    case None => None
    case Some(h) => if OccursAt(s, "youtu.be/", h) then VideoId(s, h + 9) else None
  }

  /** `([a-zA-Z0-9_-]+)\/([a-zA-Z0-9]+)` after the gist host; the embed keeps the whole
      link from `p`. */
  function GistPath(s: string, p: nat, a: nat): (r: Option<Hit>)
    requires p <= a <= |s|
    ensures r.Some? ==> a < r.value.end <= |s|
  {
    var u := RunEnd(s, a, IsIdChar);
    if u > a && u < |s| && s[u] == '/' then
      var g := RunEnd(s, u + 1, IsAlnum);
      if g > u + 1 then Some(Hit(g, Gist(s[p..g]))) else None
    else None
  }

  /** A gist, `https?:\/\/gist\.github\.com\/([a-zA-Z0-9_-]+)\/([a-zA-Z0-9]+)`. */
  function GistUrl(s: string, p: nat): (r: Option<Hit>)
    ensures r.Some? ==> p < r.value.end <= |s|
  {
    match SchemeEnd(s, p)
    case None => None
    case Some(h) => if OccursAt(s, "gist.github.com/", h) then GistPath(s, p, h + 16) else None
  }

  // ---------------------------------------------------------------------------
  // the passes

  const ParaLink: string := "<p><a href=\""
  const ParaLinkEnd: string := "</a></p>"
  const ItemLink: string := "<li><a href=\""
  const ItemLinkEnd: string := "</a>"

  /** `[^<]*` then `close`: the index after `close`. */
  function TextEnd(s: string, t: nat, close: string): (r: Option<nat>)
    ensures r.Some? ==> t <= r.value <= |s|
  {
    match ScanChar(s, t, '<')
    case None => None
    case Some(r) => if OccursAt(s, close, r) then Some(r + |close|) else None
  }

  /** `">` at the first `"`, then the link's text and `close`. */
  function AfterQuote(s: string, q: nat, close: string): (r: Option<nat>)
    ensures r.Some? ==> q < r.value <= |s|
  {
    if q + 1 < |s| && s[q + 1] == '>' then TextEnd(s, q + 2, close) else None
  }

  /** `[^"]*">[^<]*` then `close`, after a link: the index after `close`. */
  function AnchorEnd(s: string, e: nat, close: string): (r: Option<nat>)
    ensures r.Some? ==> e < r.value <= |s|
  {
    match ScanChar(s, e, '"')
    case None => None
    case Some(q) => AfterQuote(s, q, close)
  }

  function LinkedAfter(u: Option<Hit>, close: string, s: string): Option<Hit> {
    match u
    case None => None
    case Some(url) =>
      match AnchorEnd(s, url.end, close)
      case None => None
      case Some(end) => Some(Hit(end, url.embed))
  }

  /** `open` + a link + `[^"]*">[^<]*` + `close`: a link the Markdown renderer made, alone
      in its paragraph or at the head of a list item. */
  function LinkedAt(read: UrlReader, open: string, close: string, s: string, i: nat): Option<Hit> {
    if OccursAt(s, open, i) then LinkedAfter(read(s, i + |open|), close, s) else None
  }

  function BareAfter(u: Option<Hit>, loose: bool, s: string): Option<Hit> {
    match u
    case None => None
    case Some(url) =>
      var r := if loose then RunEnd(s, url.end, NotSpaceOrLt) else url.end;
      if OccursAt(s, "</p>", r) then Some(Hit(r + 4, url.embed)) else None
  }

  /** `<p>` + a link (+ `[^\s<]*` when `loose`) + `</p>`: a link left as plain text alone
      in its paragraph. */
  function BareAt(read: UrlReader, loose: bool, s: string, i: nat): Option<Hit> {
    if OccursAt(s, "<p>", i) then BareAfter(read(s, i + 3), loose, s) else None
  }

  /** A paragraph pass replaces what it matched by the card. */
  function CardMatch(h: Option<Hit>): Option<Match> {
    match h
    case None => None
    case Some(hit) => Some(Match(hit.end, CardHtml(hit.embed)))
  }

  /** A list-item pass keeps the item's opening tag in front of the card. */
  function ItemCardMatch(h: Option<Hit>): Option<Match> {
    match h
    case None => None
    case Some(hit) => Some(Match(hit.end, "<li>" + CardHtml(hit.embed)))
  }

  /** The pass for a link alone in its paragraph, recognised by `read`. */
  function ParagraphLinkPass(read: UrlReader): Matcher {
    (s: string, i: nat) => CardMatch(LinkedAt(read, ParaLink, ParaLinkEnd, s, i))
  }

  /** The pass for an address as plain text alone in its paragraph, recognised by `read`. */
  function BarePass(read: UrlReader, loose: bool): Matcher {
    (s: string, i: nat) => CardMatch(BareAt(read, loose, s, i))
  }

  /** The pass for a link at the head of a list item, recognised by `read`. */
  function ItemLinkPass(read: UrlReader): Matcher {
    (s: string, i: nat) => ItemCardMatch(LinkedAt(read, ItemLink, ItemLinkEnd, s, i))
  }

  /** The eleven passes, in the order `convertEmbeds` makes them. */
  function Passes(): seq<Matcher> {
    [ ParagraphLinkPass(TweetUrl),   // src/markdown.ts:226-236
      BarePass(TweetUrl, true),      // 239-249
      ParagraphLinkPass(WatchUrl),   // 253-261
      ParagraphLinkPass(ShortUrl),   // 263-270
      BarePass(WatchUrl, true),      // 273-280
      BarePass(ShortUrl, true),      // 282-289
      ParagraphLinkPass(GistUrl),    // 293-301
      BarePass(GistUrl, false),      // 304-311: nothing may follow a gist's address
      ItemLinkPass(TweetUrl),        // 314-325
      ItemLinkPass(WatchUrl),        // 328-336
      ItemLinkPass(ShortUrl) ]       // 339-346
  }

  function ApplyPasses(html: string, passes: seq<Matcher>): string
    decreases |passes|
  {
    if |passes| == 0 then html else ApplyPasses(ReplaceAll(html, passes[0]), passes[1..])
  }

  /** `convertEmbeds(html)`: every pass starts at a `<p>` or a `<li>`, so a text with
      neither is left as it is. */
  function ConvertEmbeds(html: string): (r: string)
    ensures (forall i :: 0 <= i < |html| ==> !OccursAt(html, "<p>", i) && !OccursAt(html, "<li>", i)) ==>
      r == html
  {
    NoParagraphKept(html);
    ApplyPasses(html, Passes())
  }

  // ---------------------------------------------------------------------------
  // the links a reader recognises

  lemma SchemeAt(s: string, p: nat, h: nat, scheme: string)
    requires scheme == "https://" || scheme == "http://"
    requires h == p + |scheme| && OccursAt(s, scheme, p)
    ensures SchemeEnd(s, p) == Some(h)
  {
    assert s[p + 4] == scheme[4];
  }

  lemma HostAt(s: string, h: nat, d: nat, host: string)
    requires host == "x.com" || host == "twitter.com"
    requires d == h + |host| + 1 && OccursAt(s, host + "/", h)
    ensures TweetHost(s, h) == Some(d)
  {
    assert s[h] == (host + "/")[0];
  }

  lemma TweetPathAt(s: string, d: nat, u: nat, v: nat, n: nat, user: string, id: string)
    requires u == d + |user| && v == u + 8 && n == v + |id|
    requires user != [] && '/' !in user
    requires id != [] && AllDigits(id)
    requires OccursAt(s, user, d) && OccursAt(s, "/status/", u) && OccursAt(s, id, v)
    requires n == |s| || !IsDigit(s[n])
    ensures TweetPath(s, d) == Some(Hit(n, Tweet(user, id)))
  {
    assert s[u] == '/';
    RunEndExact(s, d, NotSlash, user);
    RunEndExact(s, v, IsDigit, id);
  }

  /** The parts of a post's link, each where it occurs: the scheme at `p`, the host at
      `h`, the author at `d`, `/status/` at `u` and the id at `v`. */
  lemma TweetLinkFacts(s: string, p: nat, h: nat, d: nat, u: nat, v: nat,
                       scheme: string, host: string, user: string, id: string)
    requires h == p + |scheme| && d == h + |host| + 1 && u == d + |user| && v == u + 8
    requires OccursAt(s, scheme + host + "/" + user + "/status/" + id, p)
    ensures OccursAt(s, scheme, p) && OccursAt(s, host + "/", h) && OccursAt(s, user, d)
    ensures OccursAt(s, "/status/", u) && OccursAt(s, id, v)
  {
    var b := scheme + host + "/" + user;
    OccursSplitAt(s, b + "/status/", id, p, v);
    OccursSplitAt(s, b, "/status/", p, u);
    OccursSplitAt(s, scheme + host + "/", user, p, d);
    assert scheme + host + "/" == scheme + (host + "/");
    OccursSplitAt(s, scheme, host + "/", p, h);
  }

  /** A post's link, on either host and with either scheme, is read as the post by its
      author and id; the host it named plays no further part. */
  lemma TweetUrlParses(s: string, p: nat, scheme: string, host: string, user: string, id: string)
    requires scheme == "https://" || scheme == "http://"
    requires host == "x.com" || host == "twitter.com"
    requires user != [] && '/' !in user
    requires id != [] && AllDigits(id)
    requires OccursAt(s, scheme + host + "/" + user + "/status/" + id, p)
    requires var n := p + |scheme + host + "/" + user + "/status/" + id|; n == |s| || !IsDigit(s[n])
    ensures TweetUrl(s, p) == Some(Hit(p + |scheme + host + "/" + user + "/status/" + id|, Tweet(user, id)))
  {
    var h := p + |scheme|;
    var d := h + |host| + 1;
    var u := d + |user|;
    var v := u + 8;
    var n := p + |scheme + host + "/" + user + "/status/" + id|;
    TweetLinkFacts(s, p, h, d, u, v, scheme, host, user, id);
    SchemeAt(s, p, h, scheme);
    HostAt(s, h, d, host);
    TweetPathAt(s, d, u, v, n, user, id);
    TweetUrlSteps(s, p, h, d);
  }

  lemma TweetUrlSteps(s: string, p: nat, h: nat, d: nat)
    requires SchemeEnd(s, p) == Some(h) && TweetHost(s, h) == Some(d)
    ensures TweetUrl(s, p) == TweetPath(s, d)
  {
  }

  lemma VideoIdAt(s: string, v: nat, n: nat, id: string)
    requires id != [] && forall k :: 0 <= k < |id| ==> IsIdChar(id[k])
    requires n == v + |id| && OccursAt(s, id, v) && (n == |s| || !IsIdChar(s[n]))
    ensures VideoId(s, v) == Some(Hit(n, Video(id)))
  {
    RunEndExact(s, v, IsIdChar, id);
  }

  /** The parts of a video page's link, each where it occurs: the scheme at `p`, the
      optional `www.` at `h`, the page's path at `a` and the id at `v`. */
  lemma WatchLinkFacts(s: string, p: nat, h: nat, a: nat, v: nat, scheme: string, w: string, id: string)
    requires h == p + |scheme| && a == h + |w| && v == a + 20
    requires OccursAt(s, scheme + w + "youtube.com/watch?v=" + id, p)
    ensures OccursAt(s, scheme, p) && OccursAt(s, w, h)
    ensures OccursAt(s, "youtube.com/watch?v=", a) && OccursAt(s, id, v)
  {
    OccursSplitAt(s, scheme + w + "youtube.com/watch?v=", id, p, v);
    OccursSplitAt(s, scheme + w, "youtube.com/watch?v=", p, a);
    OccursSplitAt(s, scheme, w, p, h);
  }

  /** `(www\.)?` takes the `www.` exactly when the link has it. */
  lemma WwwAt(s: string, h: nat, a: nat, www: bool)
    requires var w := if www then "www." else "";
      a == h + |w| && OccursAt(s, w, h) && OccursAt(s, "youtube.com/watch?v=", a)
    ensures (if OccursAt(s, "www.", h) then h + 4 else h) == a
  {
    if !www {
      assert s[h] == 'y';
    }
  }

  lemma WatchUrlSteps(s: string, p: nat, h: nat, a: nat, v: nat)
    requires SchemeEnd(s, p) == Some(h) && (if OccursAt(s, "www.", h) then h + 4 else h) == a
    requires OccursAt(s, "youtube.com/watch?v=", a) && v == a + 20
    ensures WatchUrl(s, p) == VideoId(s, v)
  {
  }

  /** A video's page, with or without `www.`, is read as the video by its id. */
  lemma WatchUrlParses(s: string, p: nat, scheme: string, www: bool, id: string)
    requires scheme == "https://" || scheme == "http://"
    requires id != [] && forall k :: 0 <= k < |id| ==> IsIdChar(id[k])
    requires var u := scheme + (if www then "www." else "") + "youtube.com/watch?v=" + id;
      OccursAt(s, u, p) && (p + |u| == |s| || !IsIdChar(s[p + |u|]))
    ensures var u := scheme + (if www then "www." else "") + "youtube.com/watch?v=" + id;
      WatchUrl(s, p) == Some(Hit(p + |u|, Video(id)))
  {
    var w := if www then "www." else "";
    var u := scheme + w + "youtube.com/watch?v=" + id;
    var h := p + |scheme|;
    var a := h + |w|;
    var v := a + 20;
    var n := p + |u|;
    WatchLinkFacts(s, p, h, a, v, scheme, w, id);
    SchemeAt(s, p, h, scheme);
    WwwAt(s, h, a, www);
    VideoIdAt(s, v, n, id);
    WatchUrlSteps(s, p, h, a, v);
  }

  /** A short link is read as the video by its id. */
  lemma ShortUrlParses(s: string, p: nat, scheme: string, id: string)
    requires scheme == "https://" || scheme == "http://"
    requires id != [] && forall k :: 0 <= k < |id| ==> IsIdChar(id[k])
    requires var u := scheme + "youtu.be/" + id;
      OccursAt(s, u, p) && (p + |u| == |s| || !IsIdChar(s[p + |u|]))
    ensures ShortUrl(s, p) == Some(Hit(p + |scheme + "youtu.be/" + id|, Video(id)))
  {
    OccursSplit(s, scheme + "youtu.be/", id, p);
    OccursSplit(s, scheme, "youtu.be/", p);
    SchemeAt(s, p, p + |scheme|, scheme);
    VideoIdAt(s, p + |scheme| + 9, p + |scheme + "youtu.be/" + id|, id);
  }

  /** The parts of a gist's link, each where it occurs: the scheme at `p`, the host at
      `h`, the author at `a`, the slash at `b` and the id at `d`. */
  lemma GistLinkFacts(s: string, p: nat, h: nat, a: nat, b: nat, d: nat,
                      scheme: string, user: string, id: string)
    requires h == p + |scheme| && a == h + 16 && b == a + |user| && d == b + 1
    requires OccursAt(s, scheme + "gist.github.com/" + user + "/" + id, p)
    ensures OccursAt(s, scheme, p) && OccursAt(s, "gist.github.com/", h)
    ensures OccursAt(s, user, a) && OccursAt(s, "/", b) && OccursAt(s, id, d)
  {
    OccursSplitAt(s, scheme + "gist.github.com/" + user + "/", id, p, d);
    OccursSplitAt(s, scheme + "gist.github.com/" + user, "/", p, b);
    OccursSplitAt(s, scheme + "gist.github.com/", user, p, a);
    OccursSplitAt(s, scheme, "gist.github.com/", p, h);
  }

  lemma GistPathAt(s: string, p: nat, a: nat, b: nat, d: nat, g: nat, user: string, id: string)
    requires p <= a && b == a + |user| && d == b + 1 && g == d + |id|
    requires user != [] && forall k :: 0 <= k < |user| ==> IsIdChar(user[k])
    requires id != [] && forall k :: 0 <= k < |id| ==> IsAlnum(id[k])
    requires OccursAt(s, user, a) && OccursAt(s, "/", b) && OccursAt(s, id, d)
    requires g == |s| || !IsAlnum(s[g])
    ensures GistPath(s, p, a) == Some(Hit(g, Gist(s[p..g])))
  {
    assert s[b] == '/';
    RunEndExact(s, a, IsIdChar, user);
    RunEndExact(s, d, IsAlnum, id);
  }

  /** A gist's link is read as a gist that keeps the link as written, scheme included. */
  lemma GistUrlParses(s: string, p: nat, scheme: string, user: string, id: string)
    requires scheme == "https://" || scheme == "http://"
    requires user != [] && forall k :: 0 <= k < |user| ==> IsIdChar(user[k])
    requires id != [] && forall k :: 0 <= k < |id| ==> IsAlnum(id[k])
    requires var u := scheme + "gist.github.com/" + user + "/" + id;
      OccursAt(s, u, p) && (p + |u| == |s| || !IsAlnum(s[p + |u|]))
    ensures var u := scheme + "gist.github.com/" + user + "/" + id;
      GistUrl(s, p) == Some(Hit(p + |u|, Gist(u)))
  {
    var u := scheme + "gist.github.com/" + user + "/" + id;
    var h := p + |scheme|;
    var a := h + 16;
    var b := a + |user|;
    var d := b + 1;
    var g := p + |u|;
    GistLinkFacts(s, p, h, a, b, d, scheme, user, id);
    SchemeAt(s, p, h, scheme);
    GistPathAt(s, p, a, b, d, g, user, id);
    GistUrlSteps(s, p, h, a);
    assert s[p..g] == u;
  }

  lemma GistUrlSteps(s: string, p: nat, h: nat, a: nat)
    requires SchemeEnd(s, p) == Some(h) && OccursAt(s, "gist.github.com/", h) && a == h + 16
    ensures GistUrl(s, p) == GistPath(s, p, a)
  {
  }

  // ---------------------------------------------------------------------------
  // the passes' patterns around a link

  lemma TextEndAt(s: string, t: nat, x: nat, n: nat, close: string, text: string)
    requires x == t + |text| && n == x + |close|
    requires '<' !in text && |close| > 0 && close[0] == '<'
    requires OccursAt(s, text, t) && OccursAt(s, close, x)
    ensures TextEnd(s, t, close) == Some(n)
  {
    assert s[x] == close[0];
    ScanCharAt(s, t, x, '<', text);
  }

  /** Where the parts of `rest + "\">" + text + close` lie: the quote at `q`, the text at
      `t` and the closing tags at `x`. */
  lemma AnchorFacts(s: string, e: nat, q: nat, t: nat, x: nat, rest: string, text: string, close: string)
    requires q == e + |rest| && t == q + 2 && x == t + |text|
    requires OccursAt(s, rest + "\">" + text + close, e)
    ensures OccursAt(s, rest, e) && q + 1 < |s| && s[q] == '"' && s[q + 1] == '>'
    ensures OccursAt(s, text, t) && OccursAt(s, close, x)
  {
    OccursSplitAt(s, rest + "\">" + text, close, e, x);
    OccursSplitAt(s, rest + "\">", text, e, t);
    OccursSplitAt(s, rest, "\">", e, q);
    assert s[q] == s[q..q + 2][0] && s[q + 1] == s[q..q + 2][1];
  }

  /** `[^"]*">[^<]*` and the closing tags, after a link. */
  lemma AnchorEndAt(s: string, e: nat, close: string, rest: string, text: string)
    requires '"' !in rest && '<' !in text && |close| > 0 && close[0] == '<'
    requires OccursAt(s, rest + "\">" + text + close, e)
    ensures AnchorEnd(s, e, close) == Some(e + |rest| + 2 + |text| + |close|)
  {
    var q := e + |rest|;
    var t := q + 2;
    var x := t + |text|;
    var n := x + |close|;
    AnchorFacts(s, e, q, t, x, rest, text, close);
    AnchorParts(s, e, q, t, n, close, rest);
    TextEndAt(s, t, x, n, close, text);
  }

  lemma AnchorParts(s: string, e: nat, q: nat, t: nat, n: nat, close: string, rest: string)
    requires q == e + |rest| && t == q + 2
    requires '"' !in rest && OccursAt(s, rest, e) && q + 1 < |s| && s[q] == '"' && s[q + 1] == '>'
    requires TextEnd(s, t, close) == Some(n)
    ensures AnchorEnd(s, e, close) == Some(n)
  {
    ScanCharAt(s, e, q, '"', rest);
  }

  /** Around a recognised link, `[^"]*">[^<]*` and the closing tags complete the match,
      and the pass replaces it by the card for the link. */
  lemma LinkedRecognised(read: UrlReader, open: string, close: string,
                         s: string, i: nat, url: Hit, rest: string, text: string)
    requires OccursAt(s, open, i) && read(s, i + |open|) == Some(url)
    requires '"' !in rest && '<' !in text && |close| > 0 && close[0] == '<'
    requires OccursAt(s, rest + "\">" + text + close, url.end)
    ensures LinkedAt(read, open, close, s, i) ==
              Some(Hit(url.end + |rest| + 2 + |text| + |close|, url.embed))
  {
    AnchorEndAt(s, url.end, close, rest, text);
    LinkedAfterAt(url, close, s, url.end + |rest| + 2 + |text| + |close|);
  }

  lemma LinkedAfterAt(url: Hit, close: string, s: string, end: nat)
    requires AnchorEnd(s, url.end, close) == Some(end)
    ensures LinkedAfter(Some(url), close, s) == Some(Hit(end, url.embed))
  {
  }

  /** After a recognised link in a paragraph, the rest of the link's characters (only in
      the loose passes) and `</p>` complete the match. */
  lemma BareRecognised(read: UrlReader, loose: bool, s: string, i: nat,
                       url: Hit, rest: string)
    requires OccursAt(s, "<p>", i) && read(s, i + 3) == Some(url)
    requires if loose then forall k :: 0 <= k < |rest| ==> NotSpaceOrLt(rest[k]) else rest == []
    requires OccursAt(s, rest + "</p>", url.end)
    ensures BareAt(read, loose, s, i) == Some(Hit(url.end + |rest| + 4, url.embed))
  {
    BareEndAt(loose, s, url.end, rest);
    BareAfterAt(url, loose, s, url.end + |rest|);
    BareStep(read, loose, s, i);
  }

  lemma BareStep(read: UrlReader, loose: bool, s: string, i: nat)
    requires OccursAt(s, "<p>", i)
    ensures BareAt(read, loose, s, i) == BareAfter(read(s, i + 3), loose, s)
  {
  }

  lemma BareAfterAt(url: Hit, loose: bool, s: string, r: nat)
    requires (if loose then RunEnd(s, url.end, NotSpaceOrLt) else url.end) == r
    requires OccursAt(s, "</p>", r)
    ensures BareAfter(Some(url), loose, s) == Some(Hit(r + 4, url.embed))
  {
  }

  lemma BareEndAt(loose: bool, s: string, e: nat, rest: string)
    requires if loose then forall k :: 0 <= k < |rest| ==> NotSpaceOrLt(rest[k]) else rest == []
    requires OccursAt(s, rest + "</p>", e)
    ensures OccursAt(s, "</p>", e + |rest|)
    ensures (if loose then RunEnd(s, e, NotSpaceOrLt) else e) == e + |rest|
  {
    OccursSplit(s, rest, "</p>", e);
    if loose {
      assert s[e + |rest|] == '<';
      RunEndExact(s, e, NotSpaceOrLt, rest);
    }
  }

  // ---------------------------------------------------------------------------
  // whole paragraphs and list items

  /** Where the parts of a link whose text is its address lie, `open + u + "\">" + u +
      close`: the shape the Markdown renderer gives such a link. */
  lemma LinkShape(s: string, open: string, u: string, close: string)
    requires OccursAt(s, open + u + "\">" + u + close, 0)
    ensures && OccursAt(s, open, 0) && OccursAt(s, u, |open|)
            && OccursAt(s, [] + "\">" + u + close, |open| + |u|)
            && s[|open| + |u|] == '"'
            && |open + u + "\">" + u + close| == |open| + |u| + 2 + |u| + |close|
  {
    var r := [] + "\">" + u + close;
    assert open + u + "\">" + u + close == open + u + r;
    OccursSplit(s, open + u, r, 0);
    OccursSplit(s, open, u, 0);
    assert s[|open| + |u|] == r[0];
  }

  /** A link whose text is its address, recognised by `read` at `|open|`, is matched
      whole by the pass made of `read`, `open` and `close`. */
  lemma LinkMatched(read: UrlReader, open: string, close: string,
                    s: string, u: string, emb: Embed)
    requires read(s, |open|) == Some(Hit(|open| + |u|, emb))
    requires '<' !in u && |close| > 0 && close[0] == '<' && OccursAt(s, open, 0)
    requires OccursAt(s, [] + "\">" + u + close, |open| + |u|)
    ensures LinkedAt(read, open, close, s, 0) ==
              Some(Hit(|open| + |u| + 2 + |u| + |close|, emb))
  {
    LinkedRecognised(read, open, close, s, 0, Hit(|open| + |u|, emb), [], u);
  }

  /** A pass that matches at the start of the text emits its replacement first, and
      carries on after the match. */
  lemma ReplacedAtStart(m: Matcher, s: string, n: nat, rep: string)
    requires m(s, 0) == Some(Match(n, rep)) && 0 < n <= |s|
    ensures ReplaceAll(s, m) == rep + ReplaceFrom(s, m, n)
  {
    ReplaceAtMatch(s, m, 0);
  }

  /** A paragraph the Markdown renderer makes of a bare link: the link's text is its
      address. */
  function LinkParagraph(u: string): string {
    ParaLink + u + "\">" + u + ParaLinkEnd
  }

  /** A list item that starts with such a link. */
  function LinkItem(u: string): string {
    ItemLink + u + "\">" + u + ItemLinkEnd
  }

  /** Whatever the reader, a paragraph holding only a link it recognises becomes the card,
      and the rest of the text follows. */
  lemma LinkParagraphEmbeds(read: UrlReader, s: string, u: string, e: Embed)
    requires OccursAt(s, LinkParagraph(u), 0) && '<' !in u
    requires read(s, |ParaLink|) == Some(Hit(|ParaLink| + |u|, e))
    ensures ReplaceAll(s, ParagraphLinkPass(read)) ==
      CardHtml(e) + ReplaceFrom(s, ParagraphLinkPass(read), |LinkParagraph(u)|)
  {
    var h := Hit(|LinkParagraph(u)|, e);
    LinkParagraphHit(read, s, u, e);
    ParagraphPassAt(read, s, h);
    ReplacedAtStart(ParagraphLinkPass(read), s, h.end, CardHtml(e));
  }

  lemma LinkParagraphHit(read: UrlReader, s: string, u: string, e: Embed)
    requires OccursAt(s, LinkParagraph(u), 0) && '<' !in u
    requires read(s, |ParaLink|) == Some(Hit(|ParaLink| + |u|, e))
    ensures LinkedAt(read, ParaLink, ParaLinkEnd, s, 0) == Some(Hit(|LinkParagraph(u)|, e))
    ensures 0 < |LinkParagraph(u)| <= |s|
  {
    LinkShape(s, ParaLink, u, ParaLinkEnd);
    LinkMatched(read, ParaLink, ParaLinkEnd, s, u, e);
  }

  lemma ParagraphPassAt(read: UrlReader, s: string, h: Hit)
    requires LinkedAt(read, ParaLink, ParaLinkEnd, s, 0) == Some(h)
    ensures ParagraphLinkPass(read)(s, 0) == Some(Match(h.end, CardHtml(h.embed)))
  {
    assert ParagraphLinkPass(read)(s, 0) == CardMatch(LinkedAt(read, ParaLink, ParaLinkEnd, s, 0));
  }

  /** Whatever the reader, a list item that starts with a link it recognises keeps its
      opening tag, followed by the card. */
  lemma LinkItemEmbeds(read: UrlReader, s: string, u: string, e: Embed)
    requires OccursAt(s, LinkItem(u), 0) && '<' !in u
    requires read(s, |ItemLink|) == Some(Hit(|ItemLink| + |u|, e))
    ensures ReplaceAll(s, ItemLinkPass(read)) ==
      "<li>" + CardHtml(e) + ReplaceFrom(s, ItemLinkPass(read), |LinkItem(u)|)
  {
    var h := Hit(|LinkItem(u)|, e);
    LinkItemHit(read, s, u, e);
    ItemPassAt(read, s, h);
    ReplacedAtStart(ItemLinkPass(read), s, h.end, "<li>" + CardHtml(e));
  }

  lemma LinkItemHit(read: UrlReader, s: string, u: string, e: Embed)
    requires OccursAt(s, LinkItem(u), 0) && '<' !in u
    requires read(s, |ItemLink|) == Some(Hit(|ItemLink| + |u|, e))
    ensures LinkedAt(read, ItemLink, ItemLinkEnd, s, 0) == Some(Hit(|LinkItem(u)|, e))
    ensures 0 < |LinkItem(u)| <= |s|
  {
    LinkShape(s, ItemLink, u, ItemLinkEnd);
    LinkMatched(read, ItemLink, ItemLinkEnd, s, u, e);
  }

  lemma ItemPassAt(read: UrlReader, s: string, h: Hit)
    requires LinkedAt(read, ItemLink, ItemLinkEnd, s, 0) == Some(h)
    ensures ItemLinkPass(read)(s, 0) == Some(Match(h.end, "<li>" + CardHtml(h.embed)))
  {
    assert ItemLinkPass(read)(s, 0) == ItemCardMatch(LinkedAt(read, ItemLink, ItemLinkEnd, s, 0));
  }

  /** Whatever the reader, a paragraph holding only an address it recognises, as plain
      text, becomes the card. */
  lemma BareParagraphEmbeds(read: UrlReader, loose: bool, s: string, u: string, e: Embed)
    requires OccursAt(s, "<p>" + u + "</p>", 0)
    requires read(s, 3) == Some(Hit(3 + |u|, e))
    ensures ReplaceAll(s, BarePass(read, loose)) ==
      CardHtml(e) + ReplaceFrom(s, BarePass(read, loose), |u| + 7)
  {
    var h := Hit(|u| + 7, e);
    BareParagraphHit(read, loose, s, u, e);
    BarePassAt(read, loose, s, h);
    ReplacedAtStart(BarePass(read, loose), s, h.end, CardHtml(e));
  }

  lemma BareParagraphHit(read: UrlReader, loose: bool, s: string, u: string, e: Embed)
    requires OccursAt(s, "<p>" + u + "</p>", 0)
    requires read(s, 3) == Some(Hit(3 + |u|, e))
    ensures BareAt(read, loose, s, 0) == Some(Hit(|u| + 7, e)) && |u| + 7 <= |s|
  {
    OccursSplit(s, "<p>" + u, "</p>", 0);
    OccursSplit(s, "<p>", u, 0);
    assert [] + "</p>" == "</p>";
    BareRecognised(read, loose, s, 0, Hit(3 + |u|, e), []);
  }

  lemma BarePassAt(read: UrlReader, loose: bool, s: string, h: Hit)
    requires BareAt(read, loose, s, 0) == Some(h)
    ensures BarePass(read, loose)(s, 0) == Some(Match(h.end, CardHtml(h.embed)))
  {
    assert BarePass(read, loose)(s, 0) == CardMatch(BareAt(read, loose, s, 0));
  }

  function TweetAddress(scheme: string, host: string, user: string, id: string): string {
    scheme + host + "/" + user + "/status/" + id
  }

  lemma TweetAddressNoLt(scheme: string, host: string, user: string, id: string)
    requires scheme == "https://" || scheme == "http://"
    requires host == "x.com" || host == "twitter.com"
    requires '<' !in user && AllDigits(id)
    ensures '<' !in TweetAddress(scheme, host, user, id)
  {
    forall k | 0 <= k < |id|
      ensures id[k] != '<'
    {
      assert IsDigit(id[k]);
    }
  }

  /** A paragraph that holds only a link to a post, on x.com or on twitter.com, becomes
      the post's card, which points at twitter.com. */
  lemma TweetParagraphEmbeds(s: string, scheme: string, host: string, user: string, id: string)
    requires scheme == "https://" || scheme == "http://"
    requires host == "x.com" || host == "twitter.com"
    requires user != [] && '/' !in user && '<' !in user
    requires id != [] && AllDigits(id)
    requires OccursAt(s, LinkParagraph(TweetAddress(scheme, host, user, id)), 0)
    ensures var pass := ParagraphLinkPass(TweetUrl);
      ReplaceAll(s, pass) == CardHtml(Tweet(user, id)) +
        ReplaceFrom(s, pass, |LinkParagraph(TweetAddress(scheme, host, user, id))|)
  {
    var u := TweetAddress(scheme, host, user, id);
    LinkShape(s, ParaLink, u, ParaLinkEnd);
    TweetAddressNoLt(scheme, host, user, id);
    TweetUrlParses(s, |ParaLink|, scheme, host, user, id);
    LinkParagraphEmbeds(TweetUrl, s, u, Tweet(user, id));
  }

  /** A list item that starts with a link to a post keeps its opening tag, followed by
      the post's card. */
  lemma TweetItemEmbeds(s: string, scheme: string, host: string, user: string, id: string)
    requires scheme == "https://" || scheme == "http://"
    requires host == "x.com" || host == "twitter.com"
    requires user != [] && '/' !in user && '<' !in user
    requires id != [] && AllDigits(id)
    requires OccursAt(s, LinkItem(TweetAddress(scheme, host, user, id)), 0)
    ensures var pass := ItemLinkPass(TweetUrl);
      ReplaceAll(s, pass) == "<li>" + CardHtml(Tweet(user, id)) +
        ReplaceFrom(s, pass, |LinkItem(TweetAddress(scheme, host, user, id))|)
  {
    var u := TweetAddress(scheme, host, user, id);
    LinkShape(s, ItemLink, u, ItemLinkEnd);
    TweetAddressNoLt(scheme, host, user, id);
    TweetUrlParses(s, |ItemLink|, scheme, host, user, id);
    LinkItemEmbeds(TweetUrl, s, u, Tweet(user, id));
  }

  /** A video page's address: `watch?v=` on youtube.com, with or without `www.`. */
  function WatchAddress(scheme: string, www: bool, id: string): string {
    scheme + (if www then "www." else "") + "youtube.com/watch?v=" + id
  }

  /** A short video link on youtu.be. */
  function ShortAddress(scheme: string, id: string): string {
    scheme + "youtu.be/" + id
  }

  predicate IsVideoId(id: string) {
    id != [] && forall k :: 0 <= k < |id| ==> IsIdChar(id[k])
  }

  lemma WatchAddressNoLt(scheme: string, www: bool, id: string)
    requires scheme == "https://" || scheme == "http://"
    requires IsVideoId(id)
    ensures '<' !in WatchAddress(scheme, www, id)
  {
    forall k | 0 <= k < |id|
      ensures id[k] != '<'
    {
      assert IsIdChar(id[k]);
    }
  }

  lemma ShortAddressNoLt(scheme: string, id: string)
    requires scheme == "https://" || scheme == "http://"
    requires IsVideoId(id)
    ensures '<' !in ShortAddress(scheme, id)
  {
    forall k | 0 <= k < |id|
      ensures id[k] != '<'
    {
      assert IsIdChar(id[k]);
    }
  }

  /** A paragraph that holds only a link to a video page, with or without `www.`, becomes
      the video's player. */
  lemma WatchParagraphEmbeds(s: string, scheme: string, www: bool, id: string)
    requires scheme == "https://" || scheme == "http://"
    requires IsVideoId(id)
    requires OccursAt(s, LinkParagraph(WatchAddress(scheme, www, id)), 0)
    ensures var pass := ParagraphLinkPass(WatchUrl);
      ReplaceAll(s, pass) == CardHtml(Video(id)) +
        ReplaceFrom(s, pass, |LinkParagraph(WatchAddress(scheme, www, id))|)
  {
    var u := WatchAddress(scheme, www, id);
    LinkShape(s, ParaLink, u, ParaLinkEnd);
    WatchAddressNoLt(scheme, www, id);
    WatchUrlParses(s, |ParaLink|, scheme, www, id);
    LinkParagraphEmbeds(WatchUrl, s, u, Video(id));
  }

  /** A paragraph that holds only a short link to a video becomes the same player as a
      link to the video's page. */
  lemma ShortParagraphEmbeds(s: string, scheme: string, id: string)
    requires scheme == "https://" || scheme == "http://"
    requires IsVideoId(id)
    requires OccursAt(s, LinkParagraph(ShortAddress(scheme, id)), 0)
    ensures var pass := ParagraphLinkPass(ShortUrl);
      ReplaceAll(s, pass) == CardHtml(Video(id)) +
        ReplaceFrom(s, pass, |LinkParagraph(ShortAddress(scheme, id))|)
  {
    var u := ShortAddress(scheme, id);
    LinkShape(s, ParaLink, u, ParaLinkEnd);
    ShortAddressNoLt(scheme, id);
    ShortUrlParses(s, |ParaLink|, scheme, id);
    LinkParagraphEmbeds(ShortUrl, s, u, Video(id));
  }

  /** A gist's address: a user, then an alphanumeric id. */
  function GistAddress(scheme: string, user: string, id: string): string {
    scheme + "gist.github.com/" + user + "/" + id
  }

  /** A paragraph that holds only a gist's address, as plain text, becomes the gist's
      script, loaded from the address exactly as written. */
  lemma GistBareEmbeds(s: string, scheme: string, user: string, id: string)
    requires scheme == "https://" || scheme == "http://"
    requires user != [] && forall k :: 0 <= k < |user| ==> IsIdChar(user[k])
    requires id != [] && forall k :: 0 <= k < |id| ==> IsAlnum(id[k])
    requires OccursAt(s, "<p>" + GistAddress(scheme, user, id) + "</p>", 0)
    ensures var u := GistAddress(scheme, user, id); var pass := BarePass(GistUrl, false);
      ReplaceAll(s, pass) == CardHtml(Gist(u)) + ReplaceFrom(s, pass, |u| + 7)
  {
    var u := GistAddress(scheme, user, id);
    OccursSplit(s, "<p>" + u, "</p>", 0);
    OccursSplit(s, "<p>", u, 0);
    assert s[3 + |u|] == "</p>"[0];
    GistUrlParses(s, 3, scheme, user, id);
    BareParagraphEmbeds(GistUrl, false, s, u, Gist(u));
  }

  // ---------------------------------------------------------------------------
  // nothing else changes

  lemma {:induction false} ApplyUnchanged(html: string, passes: seq<Matcher>)
    requires forall k, j :: 0 <= k < |passes| && 0 <= j < |html| ==> passes[k](html, j).None?
    ensures ApplyPasses(html, passes) == html
    decreases |passes|
  {
    if |passes| > 0 {
      NoMatchKeeps(html, passes[0], 0);
      ApplyUnchanged(html, passes[1..]);
    }
  }

  lemma OpensAnchored(s: string, i: nat)
    ensures OccursAt(s, ParaLink, i) ==> OccursAt(s, "<p>", i)
    ensures OccursAt(s, ItemLink, i) ==> OccursAt(s, "<li>", i)
  {
    if OccursAt(s, ParaLink, i) {
      OccursSplit(s, "<p>", "<a href=\"", i);
    }
    if OccursAt(s, ItemLink, i) {
      OccursSplit(s, "<li>", "<a href=\"", i);
    }
  }

  lemma NoParagraphKept(html: string)
    ensures (forall i :: 0 <= i < |html| ==> !OccursAt(html, "<p>", i) && !OccursAt(html, "<li>", i)) ==>
      ApplyPasses(html, Passes()) == html
  {
    if forall i :: 0 <= i < |html| ==> !OccursAt(html, "<p>", i) && !OccursAt(html, "<li>", i) {
      var passes := Passes();
      forall k, j | 0 <= k < |passes| && 0 <= j < |html|
        ensures passes[k](html, j).None?
      {
        OpensAnchored(html, j);
      }
      ApplyUnchanged(html, passes);
    }
  }
}
