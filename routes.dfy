/**
 * The decisions the web application's routes make in src/index.tsx before and after
 * they touch storage: which object key a request reads, which status it is refused
 * with, how the post list is paged, which article URLs are accepted, and who may clear
 * the cache.
 *
 * Storage and the repository appear as parameters: `present` says whether an object
 * key exists in the bucket, `found` is what `getPost` returned.
 */
module Routes {
  import opened Wrappers
  import opened Text
  import opened Rewrite
  import Ogp
  import Markdown
  import Repository

  const PerPage: nat := 10

  /** `max-age` of images and cards, and of the fallback card. */
  const LongCache: nat := 31536000
  const ShortCache: nat := 86400

  /** A reply that serves a stored object, or one that only carries a status. */
  datatype Reply = Status(code: nat) | Serve(key: string, contentType: string, maxAge: nat)

  // ---------------------------------------------------------------------------
  // images

  /** `getContentType`: the lower-cased text after the last `.` through the table. */
  function ContentType(path: string): (r: string)
    ensures r in {"image/jpeg", "image/png", "image/gif", "image/webp", "image/svg+xml",
                  "image/x-icon", "application/octet-stream"}
    ensures r == "application/octet-stream" <==>
      ToLowerAscii(LastSegment(path, '.')) !in {"jpg", "jpeg", "png", "gif", "webp", "svg", "ico"}
    ensures r == "image/jpeg" <==> ToLowerAscii(LastSegment(path, '.')) in {"jpg", "jpeg"}
    ensures r == "image/png" <==> ToLowerAscii(LastSegment(path, '.')) == "png"
    ensures r == "image/gif" <==> ToLowerAscii(LastSegment(path, '.')) == "gif"
    ensures r == "image/webp" <==> ToLowerAscii(LastSegment(path, '.')) == "webp"
    ensures r == "image/svg+xml" <==> ToLowerAscii(LastSegment(path, '.')) == "svg"
    ensures r == "image/x-icon" <==> ToLowerAscii(LastSegment(path, '.')) == "ico"
  {
    var ext := ToLowerAscii(LastSegment(path, '.'));
    if ext == "jpg" || ext == "jpeg" then "image/jpeg"
    else if ext == "png" then "image/png"
    else if ext == "gif" then "image/gif"
    else if ext == "webp" then "image/webp"
    else if ext == "svg" then "image/svg+xml"
    else if ext == "ico" then "image/x-icon"
    else "application/octet-stream"
  }

  /** The site serves the card generator's background types under the same MIME types
      the generator embeds them with. */
  lemma ContentTypeMatchesGenerator(path: string)
    requires ToLowerAscii(LastSegment(path, '.')) in {"png", "jpg", "jpeg", "gif"}
    ensures ContentType(path) == Ogp.MimeType(path)
  {
  }

  /** The path-traversal guard: a `..` anywhere, or a path from the root. */
  predicate Unsafe(path: string) {
    Contains(path, "..") || StartsWith(path, "/")
  }

  /** `/images/:path`: 400 for an unsafe path, otherwise the object `images/<path>`,
      404 when it is missing. */
  function ImageReply(path: string, present: string -> bool): (r: Reply)
    ensures r == Status(400) <==> Unsafe(path)
    ensures r.Status? ==> r.code == 400 || (r.code == 404 && !present("images/" + path))
    ensures r.Serve? ==> present(r.key) && r.contentType == ContentType(path) && r.maxAge == LongCache
  {
    if Unsafe(path) then Status(400)
    else
      var key := "images/" + path;
      if present(key) then Serve(key, ContentType(path), LongCache) else Status(404)
  }

  /** Every key the image route reads lies under `images/` and climbs out of no
      directory. */
  lemma {:induction false} ImageKeyConfined(path: string, present: string -> bool)
    requires ImageReply(path, present).Serve?
    ensures StartsWith(ImageReply(path, present).key, "images/")
    ensures ImageReply(path, present).key[7..] == path
    ensures !Contains(path, "..") && !StartsWith(path, "/")
  {
    var key := "images/" + path;
    assert key[..7] == "images/";
    assert key[7..] == path;
  }

  // ---------------------------------------------------------------------------
  // social cards

  const DefaultCardKey: string := "images/ogp/default.png"

  /** `param.replace(/\.png$/, "")`: one trailing `.png` goes. */
  function StripPng(param: string): (r: string)
    ensures EndsWith(param, ".png") ==> param == r + ".png"
    ensures !EndsWith(param, ".png") ==> r == param
  {
    if EndsWith(param, ".png") then
      var r := param[..|param| - 4];
      assert param == r + param[|param| - 4..];
      r
    else param
  }

  /** The date text a template literal shows for what `getPost` returned: the stored
      page's date, or `undefined` for the index list that `posts:index` holds. */
  function DateText(c: Repository.Cached): string {
    match c
    case Page(post) => post.meta.date
    case Index(_) => "undefined"
  }

  /** The first key `/ogp/:slug` reads: none for an unsafe slug, the site-wide card for
      `default`, none when no post has the slug, and otherwise the post's card. */
  function CardKey(param: string, found: Option<Repository.Cached>): (r: Option<string>)
    ensures r.None? <==> Unsafe(StripPng(param)) || (StripPng(param) != "default" && found.None?)
    ensures r.Some? ==> StartsWith(r.value, "images/ogp/") && EndsWith(r.value, ".png")
  {
    var slug := StripPng(param);
    if Unsafe(slug) then None
    else if slug == "default" then Some(DefaultCardKey)
    else match found
      case None => None
      case Some(c) => Some("images/ogp/" + DateText(c) + "-" + slug + ".png")
  }

  /** `serveDefaultOgp` */
  function ServeDefault(present: string -> bool): (r: Reply)
    ensures r.Serve? <==> present(DefaultCardKey)
    ensures r.Serve? ==> r.key == DefaultCardKey && r.contentType == "image/png" && r.maxAge == ShortCache
    ensures r.Status? ==> r.code == 404
  {
    if present(DefaultCardKey) then Serve(DefaultCardKey, "image/png", ShortCache) else Status(404)
  }

  /** `/ogp/:slug`: 400 for an unsafe slug; the site-wide card for `default` (404 when
      it is missing); the post's card; the site-wide card, cached for a day, when the
      post or its card is missing. */
  function CardReply(param: string, found: Option<Repository.Cached>, present: string -> bool): (r: Reply)
    ensures r == Status(400) <==> Unsafe(StripPng(param))
    ensures r.Serve? ==> r.contentType == "image/png" && present(r.key)
    ensures r.Serve? ==> r.key == DefaultCardKey || Some(r.key) == CardKey(param, found)
    ensures r.Serve? && r.maxAge == ShortCache ==> r.key == DefaultCardKey
    ensures (CardKey(param, found).Some? && present(CardKey(param, found).value)) ==>
              r == Serve(CardKey(param, found).value, "image/png", LongCache)
    ensures (StripPng(param) == "default" && !present(DefaultCardKey)) ==> r == Status(404)
    ensures (!Unsafe(StripPng(param)) && StripPng(param) != "default" &&
             (CardKey(param, found).None? || !present(CardKey(param, found).value))) ==>
              r == ServeDefault(present)
  {
    var slug := StripPng(param);
    DefaultSafe();
    if Unsafe(slug) then Status(400)
    else if slug == "default" then
      if present(DefaultCardKey) then Serve(DefaultCardKey, "image/png", LongCache) else Status(404)
    else match CardKey(param, found)
      case None => ServeDefault(present)
      case Some(key) => if present(key) then Serve(key, "image/png", LongCache) else ServeDefault(present)
  }

  /** The card the route looks up for a post is the file the generator writes for the
      same slug and date, under `images/ogp/`. */
  lemma CardKeyIsGeneratorFile(param: string, post: Markdown.Post, meta: Ogp.OgpMeta)
    requires !Unsafe(StripPng(param)) && StripPng(param) != "default"
    requires meta.slug == StripPng(param) && meta.date == post.meta.date
    ensures CardKey(param, Some(Repository.Page(post))) == Some("images/ogp/" + Ogp.FileName(meta))
  {
    assert "images/ogp/" + (meta.date + "-" + meta.slug + ".png")
        == "images/ogp/" + meta.date + "-" + meta.slug + ".png";
  }

  /** With or without `.png`, `default` names the site-wide card, the file the generator
      writes for its default entry. */
  lemma DefaultCard(param: string, found: Option<Repository.Cached>)
    requires param == "default" || param == "default.png"
    ensures CardKey(param, found) == Some(DefaultCardKey)
    ensures DefaultCardKey == "images/ogp/" + Ogp.FileName(Ogp.DefaultEntry)
  {
    assert StripPng(param) == "default" by { StripDefault(); }
    assert !Unsafe("default") by { DefaultSafe(); }
    assert Ogp.FileName(Ogp.DefaultEntry) == "default.png";
  }

  lemma StripDefault()
    ensures StripPng("default.png") == "default" && StripPng("default") == "default"
  {
    assert "default.png"[..7] == "default";
    assert "default"[3..] == "ault";
  }

  lemma DefaultSafe()
    ensures !Unsafe("default")
  {
    NoDots("default");
    assert "default"[..1] != "/" by {
      assert "default"[..1][0] == 'd';
    }
  }

  /** A text without a `.` has no `..` in it. */
  lemma NoDots(s: string)
    requires forall i :: 0 <= i < |s| ==> s[i] != '.'
    ensures !Contains(s, "..")
  {
    forall i: nat | i <= |s| ensures !OccursAt(s, "..", i) {
      if i + 2 <= |s| {
        assert s[i..i + 2][0] == s[i];
      }
    }
  }

  // ---------------------------------------------------------------------------
  // pagination

  /** What a list page shows: its posts, its number and the number of pages. */
  datatype Listing<T> = Listing(items: seq<T>, currentPage: nat, totalPages: nat)

  /** `Math.ceil(n / PER_PAGE)` */
  function TotalPages(n: nat): (r: nat)
    ensures r * PerPage >= n
    ensures r > 0 ==> (r - 1) * PerPage < n
  {
    (n + PerPage - 1) / PerPage
  }

  /** `s.slice(start, end)` for `start <= end`: clamped to the sequence. */
  function Slice<T>(s: seq<T>, start: nat, end: nat): (r: seq<T>)
    requires start <= end
    ensures |r| == if start >= |s| then 0 else (if end <= |s| then end else |s|) - start
    ensures forall j :: 0 <= j < |r| ==> r[j] == s[start + j]
  {
    if start >= |s| then [] else s[start..if end <= |s| then end else |s|]
  }

  /** `/`: the first page, shown even when there is no post. */
  function FirstPage<T>(posts: seq<T>): (r: Listing<T>)
    ensures r.currentPage == 1 && r.totalPages == TotalPages(|posts|)
    ensures |r.items| <= PerPage && r.items <= posts
    ensures |posts| > 0 ==> |r.items| > 0
    ensures |posts| > 0 ==> PageAt(posts, 1).Some? && r == PageAt(posts, 1).value
  {
    Listing(Slice(posts, 0, PerPage), 1, TotalPages(|posts|))
  }

  /** `parseInt(s, 10)`: leading white space, an optional sign, then the longest run of
      digits; no digit gives `NaN`, here `None`. */
  function ParseInt(s: string): (r: Option<int>)
    ensures r.Some? ==> exists i :: 0 <= i < |s| && IsDigit(s[i])
  {
    var t := TrimStart(s);
    var r := ParseSigned(t);
    if r.Some? then
      assert t[FirstDigit(t)] in s by {
        TrimStartSuffix(s);
        assert t[FirstDigit(t)] == s[|s| - |t| + FirstDigit(t)];
      }
      r
    else r
  }

  /** Where the digits of a signed numeral start. */
  function FirstDigit(t: string): nat {
    if |t| > 0 && (t[0] == '-' || t[0] == '+') then 1 else 0
  }

  /** An optional sign, then the digits; the value is negated after `-`. */
  function ParseSigned(t: string): (r: Option<int>)
    ensures r.Some? <==> FirstDigit(t) < |t| && IsDigit(t[FirstDigit(t)])
  {
    match ParseDigits(t[FirstDigit(t)..])
    case None => None
    case Some(n) => Some(if |t| > 0 && t[0] == '-' then -(n as int) else n as int)
  }

  /** The longest run of digits at the start, and its value. */
  function ParseDigits(u: string): (r: Option<nat>)
    ensures r.Some? <==> |u| > 0 && IsDigit(u[0])
  {
    var e := RunEnd(u, 0, IsDigit);
    RunEndSpan(u, 0, IsDigit);
    if e == 0 then None else Some(DigitsValue(u[..e]))
  }

  /** The page a number selects, 404 (`None`) when it is below 1 or has no post. */
  function PageAt<T>(posts: seq<T>, page: int): (r: Option<Listing<T>>)
    ensures r.Some? ==> 1 <= |r.value.items| <= PerPage
    ensures r.Some? ==> r.value.currentPage == page && r.value.totalPages == TotalPages(|posts|)
    ensures r.Some? ==> page >= 1 && (page - 1) * PerPage + |r.value.items| <= |posts|
    ensures r.Some? ==> forall j :: 0 <= j < |r.value.items| ==>
      r.value.items[j] == posts[(page - 1) * PerPage + j]
  {
    if page < 1 then None
    else
      var start := (page - 1) * PerPage;
      var items := Slice(posts, start, start + PerPage);
      if |items| == 0 then None else Some(Listing(items, page, TotalPages(|posts|)))
  }

  /** `/page/:page/` */
  function PageReply<T>(posts: seq<T>, param: string): (r: Option<Listing<T>>)
    ensures r.Some? ==> ParseInt(param).Some? && r == PageAt(posts, ParseInt(param).value)
    ensures ParseInt(param).None? ==> r.None?
  {
    match ParseInt(param)
    case None => None
    case Some(page) => PageAt(posts, page)
  }

  /** A page exists exactly for the numbers from 1 to the page count. */
  lemma PageExists<T>(posts: seq<T>, page: int)
    ensures PageAt(posts, page).Some? <==> 1 <= page <= TotalPages(|posts|)
  {
    if 1 <= page <= TotalPages(|posts|) {
      assert (page - 1) * PerPage < |posts|;
    }
  }

  /** Post number `i` is item `i % 10` of page `i / 10 + 1`, and the link text for that
      page reads back as its number. */
  lemma PageOfPost<T>(posts: seq<T>, i: nat)
    requires i < |posts|
    ensures var r := PageReply(posts, NatToString(i / PerPage + 1));
      r.Some? && i % PerPage < |r.value.items| && r.value.items[i % PerPage] == posts[i]
  {
    var page := i / PerPage + 1;
    ParseIntNumeral(page);
    assert PageReply(posts, NatToString(page)) == PageAt(posts, page);
    PageSlot(posts, i);
  }

  /** The slot of post `i` on its page. */
  lemma PageSlot<T>(posts: seq<T>, i: nat)
    requires i < |posts|
    ensures var r := PageAt(posts, i / PerPage + 1);
      r.Some? && i % PerPage < |r.value.items| && r.value.items[i % PerPage] == posts[i]
  {
    var page := i / PerPage + 1;
    var start := (page - 1) * PerPage;
    assert start + i % PerPage == i;
    assert |Slice(posts, start, start + PerPage)| > i % PerPage;
  }

  /** A decimal numeral parses to its value. */
  lemma ParseIntNumeral(n: nat)
    ensures ParseInt(NatToString(n)) == Some(n)
  {
    var s := NatToString(n);
    ParseIntReads("", "", n, "");
    assert "" + "" + s + "" == s;
  }

  /** Blanks, an optional sign, a numeral and anything that does not start with a digit
      read as the numeral's value, negated after `-`. */
  lemma ParseIntReads(pad: string, sign: string, n: nat, tail: string)
    requires forall i :: 0 <= i < |pad| ==> IsSpace(pad[i])
    requires Sign(sign)
    requires |tail| == 0 || !IsDigit(tail[0])
    ensures ParseInt(pad + sign + NatToString(n) + tail) == Some(if Minus(sign) then -(n as int) else n)
  {
    var d := NatToString(n);
    var t := sign + (d + tail);
    assert t[0] == if sign == [] then d[0] else sign[0];
    NoSpaceFirst(t);
    DigitRun(d, tail);
    SignedNumeral(sign, d + tail, n);
    TrimStartPadded(pad, t);
    GroupRight(pad, sign, d, tail);
  }

  /** Four texts in a row, grouped from the right. */
  lemma GroupRight(a: string, b: string, c: string, e: string)
    ensures a + b + c + e == a + (b + (c + e))
  {
  }

  /** No sign, `+` or `-`. */
  predicate Sign(sign: string) {
    |sign| <= 1 && (|sign| == 1 ==> sign[0] == '+' || sign[0] == '-')
  }

  /** The sign is `-`. */
  predicate Minus(sign: string) {
    |sign| == 1 && sign[0] == '-'
  }

  /** An optional sign in front of a run of digits read as `n`. */
  lemma SignedNumeral(sign: string, u: string, n: nat)
    requires Sign(sign)
    requires ParseDigits(u) == Some(n)
    ensures ParseSigned(sign + u) == Some(if Minus(sign) then -(n as int) else n as int)
  {
    if |sign| == 0 {
      assert sign + u == u;
      UnsignedDigits(u);
    } else {
      SignThenDigits(sign, u, n);
    }
  }

  /** Without a sign, the digits are read from the start. */
  lemma UnsignedDigits(u: string)
    requires |u| > 0 && IsDigit(u[0])
    ensures ParseSigned(u) == ParseDigits(u)
  {
    assert u[0..] == u;
  }

  /** After a sign, the digits are read from the next character. */
  lemma SignThenDigits(sign: string, u: string, n: nat)
    requires |sign| == 1 && Sign(sign)
    requires ParseDigits(u) == Some(n)
    ensures ParseSigned(sign + u) == Some(if Minus(sign) then -(n as int) else n as int)
  {
    assert (sign + u)[0] == sign[0];
    assert (sign + u)[1..] == u;
  }

  /** The digit run of digits followed by a non-digit is those digits. */
  lemma DigitRun(d: string, tail: string)
    requires |d| > 0 && AllDigits(d)
    requires |tail| == 0 || !IsDigit(tail[0])
    ensures ParseDigits(d + tail) == Some(DigitsValue(d))
  {
    var u := d + tail;
    assert u[0..|d|] == d;
    RunEndExact(u, 0, IsDigit, d);
    assert u[..|d|] == d;
  }

  /** A text starting with a sign or a digit has no leading white space. */
  lemma NoSpaceFirst(t: string)
    requires |t| > 0 && (t[0] == '+' || t[0] == '-' || IsDigit(t[0]))
    ensures TrimStart(t) == t
  {
  }

  /** Blanks and a sign, then no digit: `NaN`. */
  lemma ParseIntNoDigit(pad: string, sign: string, rest: string)
    requires forall i :: 0 <= i < |pad| ==> IsSpace(pad[i])
    requires Sign(sign)
    requires |rest| == 0 || (!IsDigit(rest[0]) && !IsSpace(rest[0]))
    requires |sign| == 0 && |rest| > 0 ==> rest[0] != '+' && rest[0] != '-'
    ensures ParseInt(pad + sign + rest) == None
  {
    var t := sign + rest;
    assert pad + sign + rest == pad + t;
    assert |t| > 0 ==> t[0] == if sign == [] then rest[0] else sign[0];
    assert t == [] || !IsSpace(t[0]);
    TrimStartPadded(pad, t);
    assert t[FirstDigit(t)..] == rest;
  }

  // ---------------------------------------------------------------------------
  // article URLs

  /** `/^\d{4}$/`, `/^\d{2}$/`, `/^\d{2}$/` on year, month and day. */
  predicate ValidSegments(year: string, month: string, day: string) {
    |year| == 4 && AllDigits(year) && |month| == 2 && AllDigits(month) && |day| == 2 && AllDigits(day)
  }

  function ArticleUrl(year: string, month: string, day: string, slug: string): string {
    "/" + year + "/" + month + "/" + day + "/" + slug + "/"
  }

  /** The year, month and day of a post's date as the route writes them: the result of
      `getFullYear`, `getMonth` (from 0) and `getDate`, or `None` for an invalid date. */
  datatype CalendarDate = CalendarDate(year: int, month0: nat, day: nat)

  /** `String(n).padStart(2, "0")` */
  function PadTwo(s: string): (r: string)
    ensures |s| >= 2 ==> r == s
    ensures |s| < 2 ==> |r| == 2 && EndsWith(r, s)
    ensures |s| == 1 ==> r == "0" + s
    ensures s == "" ==> r == "00"
  {
    if |s| >= 2 then s
    else
      var r := if |s| == 1 then "0" + s else "00";
      assert r[2 - |s|..] == s;
      r
  }

  /** `String(n)` for an integer. */
  function IntText(n: int): (r: string)
    ensures |r| > 0 && (r[0] == '-' || IsDigit(r[0]))
  {
    if n < 0 then "-" + NatToString(-n) else NatToString(n)
  }

  /** The expected segments; an invalid date, and only an invalid date, prints as `NaN`. */
  function Segments(date: Option<CalendarDate>): (r: (string, string, string))
    ensures r.0 == "NaN" <==> date.None?
    ensures date.None? ==> r.1 == "NaN" && r.2 == "NaN"
  {
    match date
    case None => ("NaN", "NaN", "NaN")
    case Some(d) =>
      var year := IntText(d.year);
      assert year[0] != "NaN"[0];
      (year, PadTwo(NatToString(d.month0 + 1)), PadTwo(NatToString(d.day)))
  }

  datatype ArticleReply = NotFound | Redirect(location: string) | Show

  /** `/:year/:month/:day/:slug/`: 404 for malformed segments or no post; a permanent
      redirect to the post's own date; otherwise the post. */
  function ArticleReplyOf(year: string, month: string, day: string, slug: string,
                          found: Option<(string, string, string)>): (r: ArticleReply)
    ensures r == Show <==> ValidSegments(year, month, day) && found == Some((year, month, day))
    ensures r.Redirect? ==> found.Some? && found.value != (year, month, day)
    ensures r.Redirect? ==> r.location == ArticleUrl(found.value.0, found.value.1, found.value.2, slug)
    ensures r == NotFound <==> !ValidSegments(year, month, day) || found.None?
  {
    if !ValidSegments(year, month, day) then NotFound
    else match found
      case None => NotFound
      case Some(e) => if e != (year, month, day) then Redirect(ArticleUrl(e.0, e.1, e.2, slug)) else Show
  }

  /** `/:year/:month/:day/:slug`: a permanent redirect to the same path with a slash. */
  function ShortReply(year: string, month: string, day: string, slug: string): (r: ArticleReply)
    ensures r.Redirect? <==> ValidSegments(year, month, day)
    ensures r.Redirect? ==> r.location == ArticleUrl(year, month, day, slug)
    ensures !r.Show?
  {
    if ValidSegments(year, month, day) then Redirect(ArticleUrl(year, month, day, slug)) else NotFound
  }

  /** Following the redirect shows the post, provided its own date gives valid
      segments; otherwise no URL at all shows it. */
  lemma RedirectSettles(year: string, month: string, day: string, slug: string,
                        e: (string, string, string))
    ensures ValidSegments(e.0, e.1, e.2) ==> ArticleReplyOf(e.0, e.1, e.2, slug, Some(e)) == Show
    ensures !ValidSegments(e.0, e.1, e.2) ==> ArticleReplyOf(year, month, day, slug, Some(e)) != Show
  {
  }

  /** A date from the year 1000 to 9999 prints as valid segments; an invalid date never
      does, so a post with one is never shown. */
  lemma {:induction false} SegmentsValid(d: CalendarDate)
    requires 1000 <= d.year <= 9999 && d.month0 < 12 && 1 <= d.day <= 31
    ensures var s := Segments(Some(d)); ValidSegments(s.0, s.1, s.2)
  {
    FourDigits(d.year);
    SmallNumeral(d.month0 + 1);
    SmallNumeral(d.day);
  }

  lemma InvalidDateNeverShown(year: string, month: string, day: string, slug: string)
    ensures ArticleReplyOf(year, month, day, slug, Some(Segments(None))) != Show
  {
    assert |"NaN"| == 3;
  }

  lemma {:induction false} FourDigits(n: nat)
    requires 1000 <= n <= 9999
    ensures |NatToString(n)| == 4
  {
    assert |NatToString(n / 1000)| == 1;
    assert NatToString(n / 100) == NatToString(n / 1000) + [DigitChar(n / 100 % 10)];
    assert NatToString(n / 10) == NatToString(n / 100) + [DigitChar(n / 10 % 10)];
    assert NatToString(n) == NatToString(n / 10) + [DigitChar(n % 10)];
  }

  lemma {:induction false} SmallNumeral(n: nat)
    requires 1 <= n < 100
    ensures |PadTwo(NatToString(n))| == 2 && AllDigits(PadTwo(NatToString(n)))
  {
    if n >= 10 {
      assert NatToString(n) == NatToString(n / 10) + [DigitChar(n % 10)];
    }
    var s := PadTwo(NatToString(n));
    assert forall i :: 0 <= i < |s| ==> IsDigit(s[i]) by {
      if |NatToString(n)| == 1 {
        assert s == "0" + NatToString(n);
      }
    }
  }

  // ---------------------------------------------------------------------------
  // cache invalidation

  datatype InvalidateReply = Unauthorized | Invalidated(echo: string)

  /** `!ADMIN_KEY || key !== ADMIN_KEY` refuses: the key must be set, non-empty and
      equal to the header. */
  predicate Authorized(adminKey: Option<string>, header: Option<string>) {
    adminKey.Some? && adminKey.value != "" && header == Some(adminKey.value)
  }

  /** The slug `invalidateCache` receives; empty means every post. */
  function CacheSlug(slug: Option<string>): string {
    match slug
    case None => ""
    case Some(s) => s
  }

  /** `POST /api/invalidate`: 401, or `{ ok: true, slug: slug || "all" }`. */
  function InvalidateReplyOf(adminKey: Option<string>, header: Option<string>, slug: Option<string>)
    : (r: InvalidateReply)
    ensures r.Unauthorized? <==> !Authorized(adminKey, header)
    ensures r.Invalidated? ==> (r.echo == "all" <==> CacheSlug(slug) in {"", "all"})
    ensures r.Invalidated? && CacheSlug(slug) != "" ==> r.echo == CacheSlug(slug)
  {
    if !Authorized(adminKey, header) then Unauthorized
    else Invalidated(if CacheSlug(slug) == "" then "all" else CacheSlug(slug))
  }

  /** The endpoint: a refused request leaves the cache alone; an accepted one clears
      one post and the index, or every post entry. */
  method Invalidate(site: Repository.Site, adminKey: Option<string>, header: Option<string>,
                    slug: Option<string>) returns (reply: InvalidateReply)
    modifies site
    ensures reply == InvalidateReplyOf(adminKey, header, slug)
    ensures !Authorized(adminKey, header) ==> site.cache == old(site.cache)
    ensures Authorized(adminKey, header) && CacheSlug(slug) != "" ==>
      site.cache == old(site.cache) - {Repository.PostKey(CacheSlug(slug)), Repository.IndexKey}
    ensures Authorized(adminKey, header) && CacheSlug(slug) == "" ==>
      site.cache == Repository.WithoutPosts(old(site.cache))
  {
    if !Authorized(adminKey, header) {
      return Unauthorized;
    }
    site.InvalidateCache(CacheSlug(slug));
    reply := Invalidated(if CacheSlug(slug) == "" then "all" else CacheSlug(slug));
  }
}
