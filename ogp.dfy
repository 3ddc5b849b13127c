/**
 * The social-card generator of scripts/generate-ogp.ts: its own front-matter reader
 * (regular-expression based, separate from the site's), which documents get a card,
 * what the card file is called, and how a background image is located and typed.
 *
 * Reading files and rasterising the card are parameters: `present` says whether a path
 * is present, `render` whether a card was rendered and written.
 */
module Ogp {
  import opened Wrappers
  import opened Text
  import opened Rewrite

  /** The metadata the generator reads from a document. */
  datatype OgpMeta = OgpMeta(title: string, slug: string, date: string, categories: seq<string>,
                             image: Option<string>, ogpBg: bool)

  const SiteTitle: string := "Your Blog Title"
  const SiteDescription: string := "Your blog description"

  /** The entry for the site-wide card, appended after the documents. Like the record of
      a text without a front-matter block it leaves the background flag undefined, which
      reads as false. */
  const DefaultEntry: OgpMeta := OgpMeta(SiteTitle, "default", SiteDescription, [], None, false)

  const Untitled: OgpMeta := OgpMeta("Untitled", "", "", [], None, false)

  // ---------------------------------------------------------------------------
  // the front-matter block

  /** `content.match(/^---\n([\s\S]*?)\n---/)`: the text between an opening `---` line
      and the first following `\n---`. */
  function BlockOf(content: string): (r: Option<string>)
    ensures r.Some? ==> StartsWith(content, "---\n" + r.value + "\n---")
    ensures r.Some? ==> forall j :: 4 <= j < 4 + |r.value| ==> !OccursAt(content, "\n---", j)
    ensures !StartsWith(content, "---\n") ==> r.None?
  {
    if !StartsWith(content, "---\n") then None
    else match ScanLit(content, 4, "\n---")
      case None => None
      case Some(j) =>
        assert content[..j + 4] == "---\n" + content[4..j] + "\n---" by {
          assert content[..4] == "---\n";
          assert content[j..j + 4] == "\n---";
        }
        Some(content[4..j])
  }

  // ---------------------------------------------------------------------------
  // one line

  /** The line has no newline, as every line of a split block does. */
  predicate NoNewline(s: string) {
    forall i :: 0 <= i < |s| ==> s[i] != '\n'
  }

  /** `line.match(/^categories:\s*\[(.*)\]$/)`: the text between the brackets. */
  function CategoriesText(line: string): (r: Option<string>)
    ensures r.Some? ==> StartsWith(line, "categories:") && NoLineTerminator(r.value)
  {
    if !StartsWith(line, "categories:") then None
    else
      var rest := DropRun(line[11..], IsSpace);
      if |rest| >= 2 && rest[0] == '[' && rest[|rest| - 1] == ']' && NoLineTerminator(rest[1..|rest| - 1])
      then Some(rest[1..|rest| - 1])
      else None
  }

  /** `s.replace(/["']/g, "")` */
  function WithoutQuotes(s: string): (r: string)
    ensures forall i :: 0 <= i < |r| ==> !IsQuote(r[i])
    ensures |r| <= |s|
  {
    RemoveAll(s, IsQuote)
  }

  /** `text.split(",").map((t) => t.trim().replace(/["']/g, "")).filter((t) => t)` */
  function CategoriesOf(pieces: seq<string>): (r: seq<string>)
    ensures forall k :: 0 <= k < |r| ==> r[k] != "" && forall i :: 0 <= i < |r[k]| ==> !IsQuote(r[k][i])
    ensures |r| <= |pieces|
    decreases |pieces|
  {
    if |pieces| == 0 then []
    else
      var c := WithoutQuotes(Trim(pieces[0]));
      (if c != "" then [c] else []) + CategoriesOf(pieces[1..])
  }

  /** The characters `[^"'\n]` matches. */
  predicate IsValueChar(c: char) {
    !IsQuote(c) && c != '\n'
  }

  /** `[^"'\n]+["']?$` from the start of `x`: the run of value characters, followed by at
      most one quote and nothing else. */
  function ValueRun(x: string): (r: Option<string>)
    ensures r.Some? ==> |r.value| > 0 && StartsWith(x, r.value)
    ensures r.Some? ==> forall i :: 0 <= i < |r.value| ==> IsValueChar(r.value[i])
    ensures r.Some? ==> |x| == |r.value| || (|x| == |r.value| + 1 && IsQuote(x[|x| - 1]))
  {
    var v := RunEnd(x, 0, IsValueChar);
    RunEndSpan(x, 0, IsValueChar);
    if v > 0 && (v == |x| || (v + 1 == |x| && IsQuote(x[v]))) then Some(x[..v]) else None
  }

  /** `\s*["']?([^"'\n]+)["']?$` after the colon, with the regular expression's
      backtracking: the white space is taken greedily, so the value is what follows
      it and an optional opening quote; only when nothing but white space, or white
      space and one quote, follows the colon does the engine give back the last white-
      space character, which becomes the value. */
  function ValueAfter(r: string): (v: Option<string>)
    requires NoNewline(r)
    ensures v.Some? ==> |v.value| > 0 && forall i :: 0 <= i < |v.value| ==> IsValueChar(v.value[i])
    ensures v.Some? ==> exists pad, open, close :: ValueFramed(r, pad, open, v.value, close)
  {
    var rest := DropRun(r, IsSpace);
    var ws := |r| - |rest|;
    if |rest| == 0 then
      if ws > 0 then
        PadOnlyFramed(r);
        Some([r[ws - 1]])
      else None
    else if IsQuote(rest[0]) then
      match ValueRun(rest[1..])
      case Some(v) =>
        QuotedFramed(r);
        Some(v)
      case None =>
        if |rest| == 1 && ws > 0 then
          PadQuoteFramed(r);
          Some([r[ws - 1]])
        else None
    else
      match ValueRun(rest)
      case Some(v) =>
        PlainFramed(r);
        Some(v)
      case None => None
  }

  /** `line.match(/^(\w+):\s*["']?([^"'\n]+)["']?$/)`: the key and the value. */
  function KeyValue(line: string): (r: Option<(string, string)>)
    requires NoNewline(line)
    ensures r.Some? ==> |r.value.0| > 0 && StartsWith(line, r.value.0 + ":")
    ensures r.Some? ==> forall i :: 0 <= i < |r.value.0| ==> IsWordChar(r.value.0[i])
    ensures r.Some? ==> |r.value.1| > 0 && forall i :: 0 <= i < |r.value.1| ==> IsValueChar(r.value.1[i])
    ensures r.Some? ==> exists pad, open, close :: PairFramed(line, r.value.0, pad, open, r.value.1, close)
  {
    var k := RunEnd(line, 0, IsWordChar);
    RunEndSpan(line, 0, IsWordChar);
    if k == 0 || k >= |line| || line[k] != ':' then None
    else
      match ValueAfter(line[k + 1..])
      case None => None
      case Some(v) =>
        assert line[..k + 1] == line[..k] + ":";
        PairFromValue(line, k, line[k + 1..], v);
        Some((line[..k], v))
  }

  /** What the loop makes of one line of the block. */
  datatype LineKind = CategoriesLine(categories: seq<string>) | Pair(key: string, value: string) | Other

  /** A categories line first; otherwise a `key: value` line; otherwise nothing. */
  function Classify(line: string): (r: LineKind)
    requires NoNewline(line)
    ensures r.CategoriesLine? <==> CategoriesText(line).Some?
    ensures r.Pair? <==> CategoriesText(line).None? && KeyValue(line).Some?
    ensures r.Pair? ==> StartsWith(line, r.key + ":") && |r.value| > 0
  {
    match CategoriesText(line)
    case Some(text) => CategoriesLine(CategoriesOf(Split(text, ',')))
    case None =>
      match KeyValue(line)
      case Some((key, value)) => Pair(key, value)
      case None => Other
  }

  // ---------------------------------------------------------------------------
  // the line loop

  /** What the loop has gathered: the `data` record and the `categories` list. */
  datatype Gathered = Gathered(data: map<string, string>, categories: seq<string>)

  /** One iteration: a categories line replaces the list, a pair sets its key. */
  function Step(g: Gathered, kind: LineKind): Gathered {
    match kind
    case CategoriesLine(cs) => g.(categories := cs)
    case Pair(key, value) => g.(data := g.data[key := value])
    case Other => g
  }

  /** The lines taken in order. */
  function Gather(kinds: seq<LineKind>): Gathered
    decreases |kinds|
  {
    if |kinds| == 0 then Gathered(map[], [])
    else Step(Gather(kinds[..|kinds| - 1]), kinds[|kinds| - 1])
  }

  /** The lines of a block, classified. */
  function Classified(lines: seq<string>): (r: seq<LineKind>)
    requires forall k :: 0 <= k < |lines| ==> NoNewline(lines[k])
    ensures |r| == |lines| && forall k :: 0 <= k < |lines| ==> r[k] == Classify(lines[k])
  {
    seq(|lines|, k requires 0 <= k < |lines| => Classify(lines[k]))
  }

  function BlockLines(block: string): (r: seq<string>)
    ensures forall k :: 0 <= k < |r| ==> NoNewline(r[k])
    ensures Join(r, "\n") == block
  {
    var lines := Split(block, '\n');
    assert forall k :: 0 <= k < |lines| ==> '\n' !in lines[k];
    lines
  }

  /** The record `parseFrontmatter` returns for what the loop gathered. */
  function MetaOf(g: Gathered): OgpMeta {
    var d := g.data;
    OgpMeta(if "title" in d && d["title"] != "" then d["title"] else "Untitled",
            if "slug" in d then d["slug"] else "",
            if "date" in d then d["date"] else "",
            g.categories,
            if "image" in d then Some(d["image"]) else None,
            !("ogp_bg" in d && d["ogp_bg"] == "false"))
  }

  /** `parseFrontmatter(content)`, as a function of the text: without a closed front-matter
      block (no opening `---` line, or no closing one) the card is `Untitled` with no
      background, and a card always has a title. */
  function OgpMetaOf(content: string): (r: OgpMeta)
    ensures BlockOf(content).None? ==> r == Untitled
    ensures !StartsWith(content, "---\n") ==> r == OgpMeta("Untitled", "", "", [], None, false)
    ensures r.title != ""
  {
    match BlockOf(content)
    case None => Untitled
    case Some(block) => MetaOf(Gather(Classified(BlockLines(block))))
  }

  /** `parseFrontmatter(content)`: the loop over the block's lines. */
  method ParseFrontmatter(content: string) returns (meta: OgpMeta)
    ensures meta == OgpMetaOf(content)
  {
    var block := BlockOf(content);
    if block.None? {
      return Untitled;
    }
    var lines := BlockLines(block.value);
    ghost var kinds := Classified(lines);
    var data: map<string, string> := map[];
    var categories: seq<string> := [];
    for i := 0 to |lines|
      invariant Gathered(data, categories) == Gather(kinds[..i])
    {
      assert kinds[..i + 1][..i] == kinds[..i];
      var line := lines[i];
      var text := CategoriesText(line);
      if text.Some? {
        categories := CategoriesOf(Split(text.value, ','));
        continue;
      }
      var m := KeyValue(line);
      if m.Some? {
        data := data[m.value.0 := m.value.1];
      }
    }
    assert kinds[..|lines|] == kinds;
    meta := MetaOf(Gathered(data, categories));
  }

  // ---------------------------------------------------------------------------
  // properties of the reader

  /** A key is gathered exactly when some line sets it, and the last such line wins. */
  lemma {:induction false} GatherLastWins(kinds: seq<LineKind>, j: nat)
    requires j < |kinds| && kinds[j].Pair?
    requires forall k :: j < k < |kinds| ==> !(kinds[k].Pair? && kinds[k].key == kinds[j].key)
    ensures kinds[j].key in Gather(kinds).data && Gather(kinds).data[kinds[j].key] == kinds[j].value
    decreases |kinds|
  {
    if j < |kinds| - 1 {
      GatherLastWins(kinds[..|kinds| - 1], j);
    }
  }

  lemma {:induction false} GatherKeys(kinds: seq<LineKind>, key: string)
    ensures key in Gather(kinds).data <==> exists k :: 0 <= k < |kinds| && kinds[k] .Pair? && kinds[k].key == key
    decreases |kinds|
  {
    if |kinds| > 0 {
      var init := kinds[..|kinds| - 1];
      GatherKeys(init, key);
      if exists k :: 0 <= k < |kinds| && kinds[k].Pair? && kinds[k].key == key {
        var k :| 0 <= k < |kinds| && kinds[k].Pair? && kinds[k].key == key;
        if k < |init| { assert init[k] == kinds[k]; }
      }
    }
  }

  /** The categories come from the last categories line; with none, the list is empty. */
  lemma {:induction false} GatherCategories(kinds: seq<LineKind>, j: nat)
    requires j < |kinds| && kinds[j].CategoriesLine?
    requires forall k :: j < k < |kinds| ==> !kinds[k].CategoriesLine?
    ensures Gather(kinds).categories == kinds[j].categories
    decreases |kinds|
  {
    if j < |kinds| - 1 {
      GatherCategories(kinds[..|kinds| - 1], j);
    }
  }

  lemma {:induction false} NoCategoriesLine(kinds: seq<LineKind>)
    requires forall k :: 0 <= k < |kinds| ==> !kinds[k].CategoriesLine?
    ensures Gather(kinds).categories == []
    decreases |kinds|
  {
    if |kinds| > 0 {
      NoCategoriesLine(kinds[..|kinds| - 1]);
    }
  }

  /** Only the exact text `false` turns the background image off. */
  lemma BackgroundFlag(g: Gathered)
    ensures !MetaOf(g).ogpBg <==> "ogp_bg" in g.data && g.data["ogp_bg"] == "false"
  {
  }

  /** The front-matter block is found exactly when the text opens with `---` and a line
      break and a later `\n---` closes it; the block is the text up to the first such
      closing, which may come straight after the opening line. */
  lemma BlockOfExactly(content: string, block: string)
    ensures BlockOf(content) == Some(block) <==>
      StartsWith(content, "---\n" + block + "\n---")
      && forall j :: 4 <= j < 4 + |block| ==> !OccursAt(content, "\n---", j)
  {
    var whole := "---\n" + block + "\n---";
    if StartsWith(content, whole) && forall j :: 4 <= j < 4 + |block| ==> !OccursAt(content, "\n---", j) {
      var e := 4 + |block|;
      assert content[..|whole|] == whole;
      assert content[..4] == whole[..4] == "---\n";
      assert content[e..e + 4] == whole[e..e + 4] == "\n---";
      assert content[4..e] == whole[4..e] == block;
      assert OccursAt(content, "\n---", e);
    }
  }

  /** An opening `---` line and any later `\n---` always give a block, no longer than
      the text up to that closing. */
  lemma BlockFound(content: string, j: nat)
    requires StartsWith(content, "---\n") && 4 <= j && OccursAt(content, "\n---", j)
    ensures BlockOf(content).Some? && 4 + |BlockOf(content).value| <= j
  {
    assert ScanLit(content, 4, "\n---").Some?;
  }

  /** Pieces are cleaned one by one and in order: the categories of two runs of pieces
      are the categories of the first followed by those of the second. */
  lemma {:induction false} CategoriesAppend(a: seq<string>, b: seq<string>)
    ensures CategoriesOf(a + b) == CategoriesOf(a) + CategoriesOf(b)
    decreases |a|
  {
    if |a| == 0 {
      assert a + b == b;
    } else {
      assert (a + b)[0] == a[0];
      assert (a + b)[1..] == a[1..] + b;
      CategoriesAppend(a[1..], b);
    }
  }

  /** A category is exactly the trimmed, quote-free text of some piece, when that text
      is not empty. */
  lemma {:induction false} CategoriesMembers(pieces: seq<string>, c: string)
    ensures c in CategoriesOf(pieces) <==>
      c != "" && exists j :: 0 <= j < |pieces| && WithoutQuotes(Trim(pieces[j])) == c
    decreases |pieces|
  {
    if |pieces| > 0 {
      CategoriesMembers(pieces[1..], c);
      if exists j :: 0 <= j < |pieces| && WithoutQuotes(Trim(pieces[j])) == c {
        var j :| 0 <= j < |pieces| && WithoutQuotes(Trim(pieces[j])) == c;
        if j > 0 { assert pieces[1..][j - 1] == pieces[j]; }
      }
      if exists j :: 0 <= j < |pieces[1..]| && WithoutQuotes(Trim(pieces[1..][j])) == c {
        var j :| 0 <= j < |pieces[1..]| && WithoutQuotes(Trim(pieces[1..][j])) == c;
        assert pieces[j + 1] == pieces[1..][j];
      }
    }
  }

  /** At most one quote character: the pattern's optional `["']?`. */
  predicate OptionalQuote(q: string) {
    q == "" || (|q| == 1 && IsQuote(q[0]))
  }

  /** A run of value characters, closed by at most one quote, is the value. */
  lemma ValueRunOf(value: string, close: string)
    requires |value| > 0 && forall i :: 0 <= i < |value| ==> IsValueChar(value[i])
    requires OptionalQuote(close)
    ensures ValueRun(value + close) == Some(value)
  {
    var x := value + close;
    assert RunEnd(x, 0, IsValueChar) == |value| by {
      assert x[0..|value|] == value;
      RunEndExact(x, 0, IsValueChar, value);
    }
    assert x[..|value|] == value;
  }

  /** White space in front of a character that is not white space is skipped whole. */
  lemma {:induction false} SkipPad(pad: string, rest: string)
    requires forall i :: 0 <= i < |pad| ==> IsSpace(pad[i])
    requires |rest| > 0 && !IsSpace(rest[0])
    ensures DropRun(pad + rest, IsSpace) == rest
    decreases |pad|
  {
    if |pad| > 0 {
      assert (pad + rest)[1..] == pad[1..] + rest;
      SkipPad(pad[1..], rest);
    } else {
      assert pad + rest == rest;
    }
  }

  /** After the colon: any white space, an optional opening quote, a value and an
      optional closing quote give back the value. Without an opening quote the value
      must not start with white space, which the leading `\s*` would take. */
  lemma ValueAfterReads(pad: string, open: string, value: string, close: string)
    requires forall i :: 0 <= i < |pad| ==> IsSpace(pad[i]) && pad[i] != '\n'
    requires OptionalQuote(open) && OptionalQuote(close)
    requires |value| > 0 && forall i :: 0 <= i < |value| ==> IsValueChar(value[i])
    requires open == "" ==> !IsSpace(value[0])
    ensures NoNewline(pad + open + value + close)
    ensures ValueAfter(pad + open + value + close) == Some(value)
  {
    var rest := open + value + close;
    var r := pad + rest;
    FramedParts(pad, open, value, close);
    FramedNoNewline(pad, open, value, close);
    SkipPad(pad, rest);
    ValueRunOf(value, close);
    if open == "" {
      PlainValueRead(r, rest, value);
    } else {
      QuotedValueRead(r, rest, value);
    }
  }

  /** How a framed value regroups around its optional opening quote. */
  lemma FramedParts(pad: string, open: string, value: string, close: string)
    requires |open| <= 1 && |value| > 0
    ensures pad + open + value + close == pad + (open + value + close)
    ensures open == "" ==> open + value + close == value + close && (open + value + close)[0] == value[0]
    ensures |open| == 1 ==> (open + value + close)[1..] == value + close && (open + value + close)[0] == open[0]
  {
  }

  /** Past the blanks, a value run that does not open with a quote is the value. */
  lemma PlainValueRead(r: string, rest: string, value: string)
    requires NoNewline(r) && DropRun(r, IsSpace) == rest && |rest| > 0 && !IsQuote(rest[0])
    requires ValueRun(rest) == Some(value)
    ensures ValueAfter(r) == Some(value)
  {
  }

  /** Past the blanks, a quote and then a value run: the value is inside the quotes. */
  lemma QuotedValueRead(r: string, rest: string, value: string)
    requires NoNewline(r) && DropRun(r, IsSpace) == rest && |rest| > 0 && IsQuote(rest[0])
    requires ValueRun(rest[1..]) == Some(value)
    ensures ValueAfter(r) == Some(value)
  {
  }

  lemma FramedNoNewline(pad: string, open: string, value: string, close: string)
    requires forall i :: 0 <= i < |pad| ==> IsSpace(pad[i]) && pad[i] != '\n'
    requires OptionalQuote(open) && OptionalQuote(close)
    requires forall i :: 0 <= i < |value| ==> IsValueChar(value[i])
    ensures NoNewline(pad + open + value + close)
  {
    var r := pad + open + value + close;
    forall i | 0 <= i < |r| ensures r[i] != '\n' {
      if i < |pad| { assert r[i] == pad[i]; }
      else if i < |pad| + |open| { assert r[i] == open[i - |pad|]; }
      else if i < |pad| + |open| + |value| { assert r[i] == value[i - |pad| - |open|]; }
      else { assert r[i] == close[i - |pad| - |open| - |value|]; }
    }
  }

  lemma KeyNoNewline(key: string, tail: string)
    requires forall i :: 0 <= i < |key| ==> IsWordChar(key[i])
    requires NoNewline(tail)
    ensures NoNewline(key + ":" + tail)
  {
    var line := key + ":" + tail;
    forall i | 0 <= i < |line| ensures line[i] != '\n' {
      if i < |key| { assert line[i] == key[i]; }
      else if i > |key| { assert line[i] == tail[i - |key| - 1]; }
    }
  }

  /** `key:` then any white space, an optional quote, the value and an optional quote
      reads as that key and that value, quoted or not. */
  lemma KeyValueReads(key: string, pad: string, open: string, value: string, close: string)
    requires |key| > 0 && forall i :: 0 <= i < |key| ==> IsWordChar(key[i])
    requires forall i :: 0 <= i < |pad| ==> IsSpace(pad[i]) && pad[i] != '\n'
    requires OptionalQuote(open) && OptionalQuote(close)
    requires |value| > 0 && forall i :: 0 <= i < |value| ==> IsValueChar(value[i])
    requires open == "" ==> !IsSpace(value[0])
    ensures NoNewline(key + ":" + pad + open + value + close)
    ensures KeyValue(key + ":" + pad + open + value + close) == Some((key, value))
  {
    var tail := pad + open + value + close;
    var line := key + ":" + tail;
    assert key + ":" + pad + open + value + close == line;
    ValueAfterReads(pad, open, value, close);
    KeyNoNewline(key, tail);
    assert RunEnd(line, 0, IsWordChar) == |key| by {
      assert line[0..|key|] == key;
      RunEndExact(line, 0, IsWordChar, key);
    }
    assert line[|key| + 1..] == tail;
    assert line[..|key|] == key;
  }

  /** White space without a line break: what `\s*` takes inside one line. */
  predicate Blanks(pad: string) {
    AllSpace(pad) && NoNewline(pad)
  }

  /** What surrounds a value: blanks, then at most one quote before it and at most one
      after it. */
  predicate Framing(pad: string, open: string, close: string) {
    Blanks(pad) && OptionalQuote(open) && OptionalQuote(close)
  }

  /** `r` is white space, an optional quote, the value and an optional quote. */
  predicate ValueFramed(r: string, pad: string, open: string, value: string, close: string) {
    r == pad + open + value + close && Framing(pad, open, close)
  }

  /** `line` is the key, a colon, and a framed value. */
  predicate PairFramed(line: string, key: string, pad: string, open: string, value: string, close: string) {
    line == key + ":" + pad + open + value + close && Framing(pad, open, close)
  }

  /** `line` is `categories:`, white space, and the text in brackets. */
  predicate CategoriesFramed(line: string, pad: string, inner: string) {
    line == "categories:" + pad + "[" + inner + "]" && AllSpace(pad)
  }

  /** A shorter run of blanks is still blanks. */
  lemma BlanksPrefix(pad: string, n: nat)
    requires Blanks(pad) && n <= |pad|
    ensures Blanks(pad[..n])
  {
    assert forall i :: 0 <= i < n ==> pad[..n][i] == pad[i];
  }

  /** The start of a text without line breaks has none either. */
  lemma NoNewlinePrefix(r: string, n: nat)
    requires NoNewline(r) && n <= |r|
    ensures NoNewline(r[..n])
  {
    assert forall i :: 0 <= i < n ==> r[..n][i] == r[i];
  }

  /** A value run followed by at most one quote splits into the value and that quote. */
  lemma RunAndClose(x: string)
    requires ValueRun(x).Some?
    ensures x == ValueRun(x).value + x[|ValueRun(x).value|..] && OptionalQuote(x[|ValueRun(x).value|..])
  {
  }

  /** A non-empty text is its first character followed by the rest. */
  lemma FirstAndRest(pad: string, rest: string, x: string, v: string, close: string)
    requires |rest| > 0 && x == rest[1..] && x == v + close
    ensures pad + rest == pad + [rest[0]] + v + close
  {
    assert rest == [rest[0]] + x;
  }

  /** A non-empty text is everything but its last character, then that character. */
  lemma LastSplit(pad: string, rest: string)
    requires |pad| > 0
    ensures pad + rest == pad[..|pad| - 1] + "" + [pad[|pad| - 1]] + rest
  {
    assert pad == pad[..|pad| - 1] + [pad[|pad| - 1]];
  }

  /** Leading white space of a line, taken greedily, is blanks followed by the rest. */
  lemma PadParts(r: string)
    requires NoNewline(r)
    ensures var rest := DropRun(r, IsSpace);
      r == r[..|r| - |rest|] + rest && Blanks(r[..|r| - |rest|])
  {
    var ws := |r| - |DropRun(r, IsSpace)|;
    DropRunParts(r, IsSpace);
    NoNewlinePrefix(r, ws);
  }

  /** A line of blanks only: the last blank is the value. */
  lemma PadOnlyFramed(r: string)
    requires NoNewline(r) && |r| > 0 && DropRun(r, IsSpace) == ""
    ensures IsValueChar(r[|r| - 1])
    ensures ValueFramed(r, r[..|r| - 1], "", [r[|r| - 1]], "")
  {
    PadParts(r);
    var pad := r[..|r|];
    assert pad == r;
    BlanksPrefix(pad, |r| - 1);
    LastSplit(pad, "");
    assert pad[|pad| - 1] == r[|r| - 1];
  }

  /** Blanks, an opening quote, then a value run: the quote opens the value. */
  lemma QuotedFramed(r: string)
    requires NoNewline(r)
    requires var rest := DropRun(r, IsSpace); |rest| > 0 && IsQuote(rest[0]) && ValueRun(rest[1..]).Some?
    ensures var rest := DropRun(r, IsSpace); var v := ValueRun(rest[1..]).value;
      ValueFramed(r, r[..|r| - |rest|], [rest[0]], v, rest[1..][|v|..])
  {
    var rest := DropRun(r, IsSpace);
    var pad := r[..|r| - |rest|];
    var v := ValueRun(rest[1..]).value;
    PadParts(r);
    RunAndClose(rest[1..]);
    FirstAndRest(pad, rest, rest[1..], v, rest[1..][|v|..]);
  }

  /** Blanks and a lone quote: the last blank is given back and becomes the value. */
  lemma PadQuoteFramed(r: string)
    requires NoNewline(r)
    requires var rest := DropRun(r, IsSpace); |rest| == 1 && IsQuote(rest[0]) && |r| > 1
    ensures var rest := DropRun(r, IsSpace); var ws := |r| - 1;
      IsValueChar(r[ws - 1]) && ValueFramed(r, r[..ws - 1], "", [r[ws - 1]], rest)
  {
    var rest := DropRun(r, IsSpace);
    var ws := |r| - 1;
    var pad := r[..ws];
    PadParts(r);
    BlanksPrefix(pad, ws - 1);
    LastSplit(pad, rest);
    assert pad[..ws - 1] == r[..ws - 1];
    assert pad[ws - 1] == r[ws - 1];
  }

  /** Blanks, then a value run that does not start with a quote. */
  lemma PlainFramed(r: string)
    requires NoNewline(r)
    requires var rest := DropRun(r, IsSpace); |rest| > 0 && !IsQuote(rest[0]) && ValueRun(rest).Some?
    ensures var rest := DropRun(r, IsSpace); var v := ValueRun(rest).value;
      ValueFramed(r, r[..|r| - |rest|], "", v, rest[|v|..])
  {
    var rest := DropRun(r, IsSpace);
    var pad := r[..|r| - |rest|];
    var v := ValueRun(rest).value;
    PadParts(r);
    RunAndClose(rest);
    PadThenValue(pad, rest, v, rest[|v|..]);
  }

  /** Blanks then a value and what follows it, regrouped. */
  lemma PadThenValue(pad: string, rest: string, v: string, close: string)
    requires rest == v + close
    ensures pad + rest == pad + "" + v + close
  {
  }

  /** A framed value after the key's colon makes the whole line a framed pair. */
  lemma PairFromValue(line: string, k: nat, tail: string, v: string)
    requires k < |line| && line[k] == ':' && tail == line[k + 1..]
    requires exists pad, open, close :: ValueFramed(tail, pad, open, v, close)
    ensures exists pad, open, close :: PairFramed(line, line[..k], pad, open, v, close)
  {
    var pad, open, close :| ValueFramed(tail, pad, open, v, close);
    assert line == line[..k] + ":" + tail;
    assert PairFramed(line, line[..k], pad, open, v, close);
  }

  /** `^categories:\s*\[(.*)\]$` in both directions: the text between the brackets is
      read exactly when the line is `categories:`, white space, and that text in
      brackets with no line break in it. */
  lemma CategoriesTextExactly(line: string, inner: string)
    ensures CategoriesText(line) == Some(inner) <==>
      NoLineTerminator(inner) && exists pad :: CategoriesFramed(line, pad, inner)
  {
    if CategoriesText(line) == Some(inner) {
      CategoriesTextSplits(line);
    }
    if NoLineTerminator(inner) && exists pad :: CategoriesFramed(line, pad, inner) {
      var pad :| CategoriesFramed(line, pad, inner);
      CategoriesTextReads(pad, inner);
    }
  }

  /** A categories line read splits into the prefix, white space and the bracketed text. */
  lemma CategoriesTextSplits(line: string)
    requires CategoriesText(line).Some?
    ensures var inner := CategoriesText(line).value;
      exists pad :: CategoriesFramed(line, pad, inner)
  {
    var inner := CategoriesText(line).value;
    var after := line[11..];
    var rest := DropRun(after, IsSpace);
    var pad := after[..|after| - |rest|];
    DropRunParts(after, IsSpace);
    Bracketed(rest);
    CategoriesParts(line, pad, inner);
    assert CategoriesFramed(line, pad, inner);
  }

  /** A text in brackets is its inside, bracketed. */
  lemma Bracketed(rest: string)
    requires |rest| >= 2 && rest[0] == '[' && rest[|rest| - 1] == ']'
    ensures rest == "[" + rest[1..|rest| - 1] + "]"
  {
  }

  /** The pieces of a categories line put back together. */
  lemma CategoriesParts(line: string, pad: string, inner: string)
    requires StartsWith(line, "categories:") && line[11..] == pad + ("[" + inner + "]")
    ensures line == "categories:" + pad + "[" + inner + "]"
  {
    assert line == line[..11] + line[11..];
  }

  /** `categories:`, white space and a bracketed text without line breaks reads as that
      text. */
  lemma CategoriesTextReads(pad: string, inner: string)
    requires AllSpace(pad) && NoLineTerminator(inner)
    ensures CategoriesText("categories:" + pad + "[" + inner + "]") == Some(inner)
  {
    var line := "categories:" + pad + "[" + inner + "]";
    var bracketed := "[" + inner + "]";
    assert line[..11] == "categories:";
    assert line[11..] == pad + bracketed;
    SkipPad(pad, bracketed);
    assert bracketed[1..|bracketed| - 1] == inner;
  }

  /** Only white space. */
  predicate AllSpace(pad: string) {
    forall i :: 0 <= i < |pad| ==> IsSpace(pad[i])
  }

  /** A key followed only by blanks takes the last blank as its value: the pattern's
      leading `\s*` gives that character back so that the value is not empty. */
  lemma BlankValue(key: string)
    requires |key| > 0 && forall i :: 0 <= i < |key| ==> IsWordChar(key[i])
    ensures NoNewline(key + ":  ")
    ensures KeyValue(key + ":  ") == Some((key, " "))
  {
    var line := key + ":  ";
    assert NoNewline(line) by {
      forall i | 0 <= i < |line| ensures line[i] != '\n' {
        if i < |key| { assert line[i] == key[i]; }
      }
    }
    assert RunEnd(line, 0, IsWordChar) == |key| by {
      assert line[0..|key|] == key;
      RunEndExact(line, 0, IsWordChar, key);
    }
    assert line[|key| + 1..] == "  ";
    assert line[..|key|] == key;
  }


  // ---------------------------------------------------------------------------
  // the generator's main loop

  /** The documents with a slug, in order, then the site-wide entry; a slug argument
      other than `--force` keeps only the entries with exactly that slug. */
  function Targets(metas: seq<OgpMeta>, targetSlug: Option<string>): (r: seq<OgpMeta>)
    ensures targetSlug.None? ==> |r| > 0 && r[|r| - 1] == DefaultEntry
    ensures forall m :: m in r ==> m.slug != ""
    ensures targetSlug.Some? && targetSlug.value != "" && targetSlug.value != "--force" ==>
      forall m :: m in r ==> m.slug == targetSlug.value
  {
    var posts := WithSlug(metas) + [DefaultEntry];
    match targetSlug
    case Some(slug) => if slug != "" && slug != "--force" then BySlug(posts, slug) else posts
    case None => posts
  }

  function WithSlug(metas: seq<OgpMeta>): (r: seq<OgpMeta>)
    ensures forall m :: m in r <==> m in metas && m.slug != ""
    decreases |metas|
  {
    if |metas| == 0 then []
    else
      var init := metas[..|metas| - 1];
      var last := metas[|metas| - 1];
      assert forall m :: m in metas <==> m in init || m == last;
      WithSlug(init) + (if last.slug != "" then [last] else [])
  }

  function BySlug(posts: seq<OgpMeta>, slug: string): (r: seq<OgpMeta>)
    ensures forall m :: m in r <==> m in posts && m.slug == slug
    decreases |posts|
  {
    if |posts| == 0 then []
    else
      assert forall m :: m in posts <==> m == posts[0] || m in posts[1..];
      (if posts[0].slug == slug then [posts[0]] else []) + BySlug(posts[1..], slug)
  }

  /** The filter keeps the documents' order: filtering a joined list joins the filtered
      parts. */
  lemma {:induction false} WithSlugAppend(a: seq<OgpMeta>, b: seq<OgpMeta>)
    ensures WithSlug(a + b) == WithSlug(a) + WithSlug(b)
    decreases |b|
  {
    if |b| > 0 {
      assert (a + b)[..|a + b| - 1] == a + b[..|b| - 1];
      WithSlugAppend(a, b[..|b| - 1]);
    } else {
      assert a + b == a;
    }
  }

  /** A single document is kept exactly when it has a slug. */
  lemma WithSlugOne(m: OgpMeta)
    ensures WithSlug([m]) == if m.slug != "" then [m] else []
  {
    assert [m][..0] == [];
  }

  /** The slug filter keeps the entries' order. */
  lemma {:induction false} BySlugAppend(a: seq<OgpMeta>, b: seq<OgpMeta>, slug: string)
    ensures BySlug(a + b, slug) == BySlug(a, slug) + BySlug(b, slug)
    decreases |a|
  {
    if |a| > 0 {
      assert (a + b)[1..] == a[1..] + b;
      BySlugAppend(a[1..], b, slug);
    } else {
      assert a + b == b;
    }
  }

  /** A single entry is kept exactly when it has the slug. */
  lemma BySlugOne(m: OgpMeta, slug: string)
    ensures BySlug([m], slug) == if m.slug == slug then [m] else []
  {
    assert [m][1..] == [];
  }

  /** The targets of `main` for the documents' texts (posts, then pages) and the first
      command-line argument. */
  method CollectTargets(texts: seq<string>, targetSlug: Option<string>) returns (targets: seq<OgpMeta>)
    ensures targets == Targets(Metas(texts), targetSlug)
  {
    ghost var metas := Metas(texts);
    var posts: seq<OgpMeta> := [];
    for i := 0 to |texts|
      invariant posts == WithSlug(metas[..i])
    {
      assert metas[..i + 1][..i] == metas[..i];
      var meta := ParseFrontmatter(texts[i]);
      if meta.slug != "" {
        posts := posts + [meta];
      }
    }
    assert metas[..|texts|] == metas;
    posts := posts + [DefaultEntry];
    targets := posts;
    if targetSlug.Some? && targetSlug.value != "" && targetSlug.value != "--force" {
      targets := BySlug(posts, targetSlug.value);
    }
  }

  function Metas(texts: seq<string>): (r: seq<OgpMeta>)
    ensures |r| == |texts| && forall k :: 0 <= k < |texts| ==> r[k] == OgpMetaOf(texts[k])
  {
    seq(|texts|, k requires 0 <= k < |texts| => OgpMetaOf(texts[k]))
  }

  /** `post.slug === "default" ? "default.png" : `${post.date}-${post.slug}.png``: every
      card is a PNG file, and a post's card begins with its date and slug. */
  function FileName(meta: OgpMeta): (r: string)
    ensures EndsWith(r, ".png")
    ensures meta.slug != "default" ==> StartsWith(r, meta.date + "-" + meta.slug)
  {
    var stem := if meta.slug == "default" then "default" else meta.date + "-" + meta.slug;
    var r := stem + ".png";
    assert r[..|stem|] == stem;
    assert r[|r| - 4..] == ".png";
    r
  }

  /** The image file a card is drawn over: only when the flag allows it and an image is
      named; a path from the site root is looked up under `./content`. */
  function BackgroundPath(meta: OgpMeta): (r: Option<string>)
    ensures r.Some? ==> meta.ogpBg && meta.image.Some? && meta.image.value != ""
    ensures r.Some? && StartsWith(meta.image.value, "/") ==> r.value == "./content" + meta.image.value
    ensures r.Some? && !StartsWith(meta.image.value, "/") ==> r.value == meta.image.value
  {
    if meta.ogpBg && meta.image.Some? && meta.image.value != "" then
      var image := meta.image.value;
      Some(if StartsWith(image, "/") then "./content" + image else image)
    else None
  }

  /** The MIME type of the background image, from the lower-cased text after the
      path's last `.`. */
  function MimeType(path: string): (r: string)
    ensures r in {"image/png", "image/jpeg", "image/gif"}
    ensures r == "image/jpeg" <==> ToLowerAscii(LastSegment(path, '.')) in {"jpg", "jpeg"}
    ensures r == "image/gif" <==> ToLowerAscii(LastSegment(path, '.')) == "gif"
  {
    var ext := ToLowerAscii(LastSegment(path, '.'));
    if ext == "png" then "image/png"
    else if ext == "jpg" || ext == "jpeg" then "image/jpeg"
    else if ext == "gif" then "image/gif"
    else "image/png"
  }

  /** The card loop so far: cards rendered and written, targets skipped, and the names
      of the files written during the run. */
  datatype Tally = Tally(generated: nat, skipped: nat, written: set<string>)

  /** One target: `existsSync(outputPath)` sees the files that were there before the run
      (`present`) and those this run has written; an existing file is skipped unless
      `--force` is given; otherwise the card is rendered and written, or the attempt
      fails and nothing changes. */
  function CardStep(t: Tally, post: OgpMeta, present: string -> bool, isForce: bool,
                    render: OgpMeta -> bool): (r: Tally)
    ensures r.generated + r.skipped <= t.generated + t.skipped + 1
    ensures r.skipped == t.skipped + 1 <==> !isForce && (present(FileName(post)) || FileName(post) in t.written)
    ensures r.generated == t.generated + 1 <==> r.skipped == t.skipped && render(post)
    ensures r.written == (if r.generated == t.generated + 1 then t.written + {FileName(post)} else t.written)
  {
    var name := FileName(post);
    if (present(name) || name in t.written) && !isForce then t.(skipped := t.skipped + 1)
    else if render(post) then Tally(t.generated + 1, t.skipped, t.written + {name})
    else t
  }

  /** The loop's outcome over the targets in order. */
  function Cards(targets: seq<OgpMeta>, present: string -> bool, isForce: bool,
                 render: OgpMeta -> bool): (t: Tally)
    ensures t.generated + t.skipped <= |targets|
    ensures isForce ==> t.skipped == 0
    decreases |targets|
  {
    if |targets| == 0 then Tally(0, 0, {})
    else
      var t := Cards(targets[..|targets| - 1], present, isForce, render);
      CardStep(t, targets[|targets| - 1], present, isForce, render)
  }

  /** The card loop of `main`: each target is skipped, rendered, or fails; `written`
      stands for the files the loop has put in the output directory. */
  method GenerateAll(targets: seq<OgpMeta>, present: string -> bool, isForce: bool,
                     render: OgpMeta -> bool) returns (generated: nat, skipped: nat)
    ensures generated == Cards(targets, present, isForce, render).generated
    ensures skipped == Cards(targets, present, isForce, render).skipped
    ensures generated + skipped <= |targets|
  {
    generated := 0;
    skipped := 0;
    var written: set<string> := {};
    for i := 0 to |targets|
      invariant Tally(generated, skipped, written) == Cards(targets[..i], present, isForce, render)
    {
      CountStep(targets, i, present, isForce, render);
      ghost var next := CardStep(Tally(generated, skipped, written), targets[i], present, isForce, render);
      var post := targets[i];
      var filename := FileName(post);
      if (present(filename) || filename in written) && !isForce {
        skipped := skipped + 1;
        assert Tally(generated, skipped, written) == next;
        continue;
      }
      if render(post) {
        written := written + {filename};
        generated := generated + 1;
      }
      assert Tally(generated, skipped, written) == next;
    }
    assert targets[..|targets|] == targets;
  }

  /** One more target adds its own outcome to the tally. */
  lemma CountStep(targets: seq<OgpMeta>, i: nat, present: string -> bool, isForce: bool,
                  render: OgpMeta -> bool)
    requires i < |targets|
    ensures Cards(targets[..i + 1], present, isForce, render)
      == CardStep(Cards(targets[..i], present, isForce, render), targets[i], present, isForce, render)
  {
    assert targets[..i + 1][..i] == targets[..i];
  }

  /** The tally of a prefix is the tally one target shorter, plus that target. */
  lemma LastStep(targets: seq<OgpMeta>, j: nat, present: string -> bool, isForce: bool,
                 render: OgpMeta -> bool)
    requires 0 < j <= |targets|
    ensures Cards(targets[..j], present, isForce, render)
      == CardStep(Cards(targets[..j - 1], present, isForce, render), targets[j - 1], present, isForce, render)
  {
    assert targets[..j][..j - 1] == targets[..j - 1];
  }

  /** Without `--force` no file is written twice, so every card rendered is a distinct
      file; with it, a file may be overwritten. */
  lemma {:induction false} WrittenCount(targets: seq<OgpMeta>, present: string -> bool, isForce: bool,
                                        render: OgpMeta -> bool)
    ensures var t := Cards(targets, present, isForce, render);
      |t.written| <= t.generated && (!isForce ==> |t.written| == t.generated)
    decreases |targets|
  {
    if |targets| > 0 {
      WrittenCount(targets[..|targets| - 1], present, isForce, render);
    }
  }

  /** The files written only grow as the loop goes on. */
  lemma {:induction false} WrittenGrows(targets: seq<OgpMeta>, i: nat, j: nat, present: string -> bool,
                                        isForce: bool, render: OgpMeta -> bool)
    requires i <= j <= |targets|
    ensures Cards(targets[..i], present, isForce, render).written
      <= Cards(targets[..j], present, isForce, render).written
    decreases j - i
  {
    if i < j {
      WrittenGrows(targets, i, j - 1, present, isForce, render);
      LastGrows(targets, j, present, isForce, render);
      SubsetTrans(Cards(targets[..i], present, isForce, render).written,
                  Cards(targets[..j - 1], present, isForce, render).written,
                  Cards(targets[..j], present, isForce, render).written);
    }
  }

  lemma SubsetTrans(a: set<string>, b: set<string>, c: set<string>)
    requires a <= b && b <= c
    ensures a <= c
  {
  }

  /** One more target never forgets a file. */
  lemma LastGrows(targets: seq<OgpMeta>, j: nat, present: string -> bool, isForce: bool,
                  render: OgpMeta -> bool)
    requires 0 < j <= |targets|
    ensures Cards(targets[..j - 1], present, isForce, render).written
      <= Cards(targets[..j], present, isForce, render).written
  {
    LastStep(targets, j, present, isForce, render);
  }

  /** Without `--force`, a target whose file name an earlier target already wrote, or
      had found present, is skipped: two documents sharing a card file get one card. */
  lemma SameNameSkipped(targets: seq<OgpMeta>, i: nat, j: nat, present: string -> bool,
                        render: OgpMeta -> bool)
    requires i < j < |targets| && FileName(targets[i]) == FileName(targets[j])
    requires render(targets[i])
    ensures var before := Cards(targets[..j], present, false, render);
      Cards(targets[..j + 1], present, false, render) == before.(skipped := before.skipped + 1)
  {
    var name := FileName(targets[i]);
    CountStep(targets, i, present, false, render);
    assert present(name) || name in Cards(targets[..i + 1], present, false, render).written;
    WrittenGrows(targets, i + 1, j, present, false, render);
    CountStep(targets, j, present, false, render);
  }

  /** The same card twice, with nothing on disk: one card is written and the second
      target is skipped. */
  lemma DuplicateCard(m: OgpMeta, present: string -> bool, render: OgpMeta -> bool)
    requires !present(FileName(m)) && render(m)
    ensures Cards([m, m], present, false, render) == Tally(1, 1, {FileName(m)})
  {
    assert [m, m][..1] == [m];
    assert [m][..0] == [];
    var none := Cards([m][..0], present, false, render);
    assert none == Tally(0, 0, {});
    var first := Cards([m], present, false, render);
    assert first == CardStep(none, m, present, false, render);
    assert first == Tally(1, 0, {FileName(m)});
    assert Cards([m, m], present, false, render) == CardStep(first, m, present, false, render);
  }
}
