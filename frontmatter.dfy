/**
 * The small front-matter parser of src/markdown.ts (`parseFrontmatterRaw`): a block
 * between two `---` lines at the top of a post, one `key: value` per line, with
 * inline lists, quoted strings, integers and booleans.
 */
module Frontmatter {
  import opened Wrappers
  import opened Text
  import opened Rewrite

  /** A front-matter value: what the parser stores under a key. */
  datatype Value = List(items: seq<string>) | Str(s: string) | Int(n: nat) | Bool(b: bool)

  type Data = map<string, Value>

  datatype Parsed = Parsed(data: Data, content: string)

  // ---------------------------------------------------------------------------
  // one line

  /** A key: a non-empty run of word characters. */
  predicate IsKey(key: string) {
    |key| > 0 && forall i :: 0 <= i < |key| ==> IsWordChar(key[i])
  }

  /** `line.match(/^(\w+):\s*(.*)$/)`: the key is the whole leading run of word
      characters and must be followed by `:`; the value is what follows the white space
      after the colon, and it must hold no line terminator, since `.` stops at one and
      `$` only matches at the very end. */
  function MatchLine(line: string): (r: Option<(string, string)>)
    ensures r.Some? ==>
      var key := r.value.0;
      var value := r.value.1;
      && IsKey(key) && |key| + 1 + |value| <= |line|
      && line[..|key|] == key && line[|key|] == ':'
      && line[|line| - |value|..] == value
      && (forall i :: |key| < i < |line| - |value| ==> IsSpace(line[i]))
      && NoLineTerminator(value) && (value == [] || !IsSpace(value[0]))
  {
    var k := RunEnd(line, 0, IsWordChar);
    RunEndSpan(line, 0, IsWordChar);
    if k == 0 || k >= |line| || line[k] != ':' then None
    else
      var value := TrimStart(line[k + 1..]);
      TrimStartSuffix(line[k + 1..]);
      TrimStartSpan(line[k + 1..]);
      if NoLineTerminator(value) then Some((line[..k], value)) else None
  }

  /** The item text of an inline list: trimmed, then one leading and one trailing quote
      character removed. */
  function CleanItem(piece: string): string {
    StripOne(Trim(piece), IsQuote)
  }

  /** Every piece cleaned, in order. */
  function Cleaned(pieces: seq<string>): (r: seq<string>)
    ensures |r| == |pieces| && forall k :: 0 <= k < |pieces| ==> r[k] == CleanItem(pieces[k])
  {
    seq(|pieces|, k requires 0 <= k < |pieces| => CleanItem(pieces[k]))
  }

  /** `raw.slice(1, -1)`: without the first and the last character. */
  function Inner(raw: string): (r: string)
    ensures |raw| >= 2 ==> |r| == |raw| - 2 && raw == raw[..1] + r + raw[|raw| - 1..]
    ensures |raw| < 2 ==> r == []
  {
    if |raw| >= 2 then raw[1..|raw| - 1] else ""
  }

  /** The items of an inline list `[…]`: the text between the brackets is trimmed;
      empty, it is the empty list, otherwise it is split at commas. */
  function ListItems(raw: string): (items: seq<string>)
    ensures Trim(Inner(raw)) == [] <==> items == []
  {
    var inner := Trim(Inner(raw));
    if inner == [] then []
    else
      Cleaned(Split(inner, ','))
  }

  /** The text of a quoted value: `''` stands for `'` between single quotes, `\"` for
      `"` between double quotes. */
  function Unquote(raw: string, quote: char): string {
    if quote == '\'' then ReplacePair(Inner(raw), '\'', '\'', "'")
    else ReplacePair(Inner(raw), '\\', '"', "\"")
  }

  /** The text starts and ends with `c` (one character may do both). */
  predicate Enclosed(raw: string, first: char, last: char) {
    |raw| > 0 && raw[0] == first && raw[|raw| - 1] == last
  }

  /** The if-chain that turns the raw text after the colon into a value. */
  function ParseValue(raw: string): (v: Value)
    ensures v.Int? ==> |raw| > 0 && AllDigits(raw)
    ensures v.Bool? ==> raw == (if v.b then "true" else "false")
  {
    if Enclosed(raw, '[', ']') then List(ListItems(raw))
    else if Enclosed(raw, '\'', '\'') then Str(Unquote(raw, '\''))
    else if Enclosed(raw, '"', '"') then Str(Unquote(raw, '"'))
    else if |raw| > 0 && AllDigits(raw) then Int(DigitsValue(raw))
    else if raw == "true" then Bool(true)
    else if raw == "false" then Bool(false)
    else Str(raw)
  }

  /** `data[key] = value` for a line that matches; other lines are skipped. */
  function Enter(data: Data, line: string): Data {
    match MatchLine(line)
    case Some((key, raw)) => data[key := ParseValue(raw)]
    case None => data
  }

  /** The lines entered one after another, from left to right. */
  function FillData(lines: seq<string>, data: Data): Data
    decreases |lines|
  {
    if |lines| == 0 then data else FillData(lines[1..], Enter(data, lines[0]))
  }

  /** A line that trims to `---` opens or closes the block. */
  predicate IsFence(line: string) {
    Trim(line) == "---"
  }

  /** The first index at or after `i` of a fence line. */
  function FindClose(lines: seq<string>, i: nat): (r: Option<nat>)
    ensures r.Some? ==> i <= r.value < |lines| && IsFence(lines[r.value])
    ensures r.Some? ==> forall j :: i <= j < r.value ==> !IsFence(lines[j])
    ensures r.None? ==> forall j :: i <= j < |lines| ==> !IsFence(lines[j])
    decreases |lines| - i
  {
    if i >= |lines| then None
    else if IsFence(lines[i]) then Some(i)
    else FindClose(lines, i + 1)
  }

  /** What `parseFrontmatterRaw(raw)` returns. */
  function FrontmatterOf(raw: string): Parsed {
    var lines := Split(raw, '\n');
    if !IsFence(lines[0]) then Parsed(map[], raw)
    else
      match FindClose(lines, 1)
      case None => Parsed(map[], raw)
      case Some(e) => Parsed(FillData(lines[1..e], map[]), Trim(Join(lines[e + 1..], "\n")))
  }

  /** `parseFrontmatterRaw(raw)`: find the closing line, then enter the lines between. */
  method ParseFrontmatterRaw(raw: string) returns (p: Parsed)
    ensures p == FrontmatterOf(raw)
  {
    var lines := Split(raw, '\n');
    if !IsFence(lines[0]) {
      return Parsed(map[], raw);
    }
    var endIndex := -1;
    var i := 1;
    while i < |lines|
      invariant 1 <= i <= |lines|
      invariant endIndex == -1
      invariant FindClose(lines, i) == FindClose(lines, 1)
    {
      if IsFence(lines[i]) {
        endIndex := i;
        break;
      }
      i := i + 1;
    }
    if endIndex == -1 {
      return Parsed(map[], raw);
    }
    var frontmatterLines := lines[1..endIndex];
    var data: Data := map[];
    for j := 0 to |frontmatterLines|
      invariant FillData(frontmatterLines[j..], data) == FillData(frontmatterLines, map[])
    {
      assert frontmatterLines[j..][1..] == frontmatterLines[j + 1..];
      match MatchLine(frontmatterLines[j]) {
        case Some((key, rawValue)) =>
          data := data[key := ParseValue(rawValue)];
        case None =>
      }
    }
    var content := Trim(Join(lines[endIndex + 1..], "\n"));
    return Parsed(data, content);
  }

  // ---------------------------------------------------------------------------
  // properties

  /** A text of one line has no closing line, so it is all content and no data. */
  lemma SingleLineIsContent(raw: string)
    requires '\n' !in raw
    ensures FrontmatterOf(raw) == Parsed(map[], raw)
  {
    SplitNoSeparator(raw, '\n');
  }

  /** Round trip: a block of lines between `---` lines, then the body, gives the data
      of those lines and the trimmed body. */
  lemma FrontmatterRoundTrip(fm: seq<string>, body: string)
    requires forall k :: 0 <= k < |fm| ==> '\n' !in fm[k] && !IsFence(fm[k])
    ensures FrontmatterOf(Join(["---"] + fm + ["---"], "\n") + "\n" + body)
         == Parsed(FillData(fm, map[]), Trim(body))
  {
    var raw := Join(["---"] + fm + ["---"], "\n") + "\n" + body;
    var e := |fm| + 1;
    BlockStructure(fm, body);
    ClosedFrontmatter(raw, e);
  }

  /** The lines of a block: fences at 0 and at `|fm| + 1`, `fm` between, the body's
      lines after. */
  lemma BlockStructure(fm: seq<string>, body: string)
    requires forall k :: 0 <= k < |fm| ==> '\n' !in fm[k] && !IsFence(fm[k])
    ensures var lines := Split(Join(["---"] + fm + ["---"], "\n") + "\n" + body, '\n');
      && |lines| > |fm| + 1
      && IsFence(lines[0]) && FindClose(lines, 1) == Some(|fm| + 1)
      && lines[1..|fm| + 1] == fm && lines[|fm| + 2..] == Split(body, '\n')
  {
    var parts := ["---"] + fm + ["---"];
    var lines := Split(Join(parts, "\n") + "\n" + body, '\n');
    var rest := Split(body, '\n');
    BlockLines(fm, body);
    assert lines == parts + rest;
    var e := |fm| + 1;
    FenceLines(fm, parts);
    forall j | 0 <= j <= e
      ensures lines[j] == parts[j]
    {
    }
    FindCloseFirst(lines, 1, e);
    assert lines[1..e] == parts[1..e] == fm;
    assert lines[e + 1..] == rest;
  }

  lemma BlockLines(fm: seq<string>, body: string)
    requires forall k :: 0 <= k < |fm| ==> '\n' !in fm[k]
    ensures Split(Join(["---"] + fm + ["---"], "\n") + "\n" + body, '\n')
         == ["---"] + fm + ["---"] + Split(body, '\n')
  {
    var parts := ["---"] + fm + ["---"];
    forall k | 0 <= k < |parts|
      ensures '\n' !in parts[k]
    {
      if 0 < k < |parts| - 1 {
        assert parts[k] == fm[k - 1];
      }
    }
    SplitJoinAppend(parts, '\n', body);
  }

  lemma FenceLines(fm: seq<string>, parts: seq<string>)
    requires forall k :: 0 <= k < |fm| ==> !IsFence(fm[k])
    requires parts == ["---"] + fm + ["---"]
    ensures IsFence(parts[0]) && IsFence(parts[|fm| + 1])
    ensures forall j :: 1 <= j < |fm| + 1 ==> !IsFence(parts[j])
  {
    TrimUntouched("---");
    forall j | 1 <= j < |fm| + 1
      ensures !IsFence(parts[j])
    {
      assert parts[j] == fm[j - 1];
    }
  }

  /** `FrontmatterOf` once the closing line is known. */
  lemma ClosedFrontmatter(raw: string, e: nat)
    requires IsFence(Split(raw, '\n')[0]) && FindClose(Split(raw, '\n'), 1) == Some(e)
    ensures var lines := Split(raw, '\n');
      FrontmatterOf(raw) == Parsed(FillData(lines[1..e], map[]), Trim(Join(lines[e + 1..], "\n")))
  {
    var lines := Split(raw, '\n');
    assert IsFence(lines[0]) && FindClose(lines, 1) == Some(e);
  }

  lemma {:induction false} FindCloseFirst(lines: seq<string>, i: nat, e: nat)
    requires i <= e < |lines| && IsFence(lines[e])
    requires forall j :: i <= j < e ==> !IsFence(lines[j])
    ensures FindClose(lines, i) == Some(e)
    decreases e - i
  {
    if i < e {
      FindCloseFirst(lines, i + 1, e);
    }
  }

  /** The key-value round trip for a single line: `key: value`. */
  lemma MatchLineOf(key: string, sep: string, value: string)
    requires IsKey(key)
    requires forall i :: 0 <= i < |sep| ==> IsSpace(sep[i])
    requires NoLineTerminator(value) && (value == [] || !IsSpace(value[0]))
    ensures MatchLine(key + ":" + sep + value) == Some((key, value))
  {
    var line := key + ":" + sep + value;
    var k := RunEnd(line, 0, IsWordChar);
    assert line[|key|] == ':';
    assert line[0..|key|] == key;
    RunEndExact(line, 0, IsWordChar, key);
    assert line[..k] == key;
    var rest := line[k + 1..];
    assert rest == sep + value;
    TrimStartPadded(sep, value);
  }

  /** Every stored key comes from a matching line, and every matching line's key is
      stored. */
  predicate DefinesKey(line: string, key: string) {
    MatchLine(line).Some? && MatchLine(line).value.0 == key
  }

  lemma {:induction false} FillDataKeys(lines: seq<string>, data: Data, key: string)
    ensures key in FillData(lines, data) <==>
              key in data || exists j :: 0 <= j < |lines| && DefinesKey(lines[j], key)
    decreases |lines|
  {
    if |lines| > 0 {
      FillDataKeys(lines[1..], Enter(data, lines[0]), key);
      if exists j :: 0 <= j < |lines[1..]| && DefinesKey(lines[1..][j], key) {
        var j :| 0 <= j < |lines[1..]| && DefinesKey(lines[1..][j], key);
        assert DefinesKey(lines[j + 1], key);
      }
      if exists j :: 0 <= j < |lines| && DefinesKey(lines[j], key) {
        var j :| 0 <= j < |lines| && DefinesKey(lines[j], key);
        if j > 0 {
          assert DefinesKey(lines[1..][j - 1], key);
        }
      }
    }
  }

  /** A key no line defines keeps what it had. */
  lemma {:induction false} FillDataUntouched(lines: seq<string>, data: Data, key: string)
    requires forall j :: 0 <= j < |lines| ==> !DefinesKey(lines[j], key)
    requires key in data
    ensures key in FillData(lines, data) && FillData(lines, data)[key] == data[key]
    decreases |lines|
  {
    if |lines| > 0 {
      assert !DefinesKey(lines[0], key);
      FillDataUntouched(lines[1..], Enter(data, lines[0]), key);
    }
  }

  /** When a key is given on several lines, the last one wins. */
  lemma {:induction false} FillDataLastWins(lines: seq<string>, data: Data, j: nat, key: string)
    requires j < |lines| && DefinesKey(lines[j], key)
    requires forall i :: j < i < |lines| ==> !DefinesKey(lines[i], key)
    ensures key in FillData(lines, data)
    ensures FillData(lines, data)[key] == ParseValue(MatchLine(lines[j]).value.1)
    decreases |lines|
  {
    if j == 0 {
      forall i | 0 <= i < |lines[1..]|
        ensures !DefinesKey(lines[1..][i], key)
      {
        assert lines[1..][i] == lines[i + 1];
      }
      FillDataUntouched(lines[1..], Enter(data, lines[0]), key);
    } else {
      forall i | j - 1 < i < |lines[1..]|
        ensures !DefinesKey(lines[1..][i], key)
      {
        assert lines[1..][i] == lines[i + 1];
      }
      FillDataLastWins(lines[1..], Enter(data, lines[0]), j - 1, key);
    }
  }

  // ---------------------------------------------------------------------------
  // values

  /** `'…'` with every `'` doubled, as YAML writes single-quoted strings. */
  function SingleQuoted(s: string): string {
    "'" + ReplaceChar(s, '\'', "''") + "'"
  }

  /** `"…"` with every `"` preceded by a backslash. */
  function DoubleQuoted(s: string): string {
    "\"" + ReplaceChar(s, '"', "\\\"") + "\""
  }

  lemma {:induction false} UndoubleQuotes(s: string)
    ensures ReplacePair(ReplaceChar(s, '\'', "''"), '\'', '\'', "'") == s
    decreases |s|
  {
    if |s| > 0 {
      UndoubleQuotes(s[1..]);
      var rest := ReplaceChar(s[1..], '\'', "''");
      if s[0] == '\'' {
        assert ReplaceChar(s, '\'', "''") == "''" + rest;
        assert ("''" + rest)[2..] == rest;
      } else {
        assert ReplaceChar(s, '\'', "''") == [s[0]] + rest;
        assert ([s[0]] + rest)[1..] == rest;
      }
    }
  }

  lemma {:induction false} UnescapeQuotes(s: string)
    ensures ReplacePair(ReplaceChar(s, '"', "\\\""), '\\', '"', "\"") == s
    decreases |s|
  {
    if |s| > 0 {
      UnescapeQuotes(s[1..]);
      var rest := ReplaceChar(s[1..], '"', "\\\"");
      assert rest == [] || rest[0] != '"' by {
        if |s[1..]| > 0 {
          assert rest == (if s[1] == '"' then "\\\"" else [s[1]]) + ReplaceChar(s[2..], '"', "\\\"");
          assert s[1..][1..] == s[2..];
        }
      }
      if s[0] == '"' {
        assert ReplaceChar(s, '"', "\\\"") == "\\\"" + rest;
        assert ("\\\"" + rest)[2..] == rest;
      } else {
        assert ReplaceChar(s, '"', "\\\"") == [s[0]] + rest;
        assert ([s[0]] + rest)[1..] == rest;
      }
    }
  }

  /** A single-quoted string reads back as the string it quotes. */
  lemma SingleQuotedRoundTrip(s: string)
    ensures ParseValue(SingleQuoted(s)) == Str(s)
  {
    var raw := SingleQuoted(s);
    assert Inner(raw) == ReplaceChar(s, '\'', "''");
    UndoubleQuotes(s);
  }

  /** A double-quoted string reads back as the string it quotes. */
  lemma DoubleQuotedRoundTrip(s: string)
    ensures ParseValue(DoubleQuoted(s)) == Str(s)
  {
    var raw := DoubleQuoted(s);
    assert Inner(raw) == ReplaceChar(s, '"', "\\\"");
    UnescapeQuotes(s);
  }

  /** A decimal numeral reads back as the number it writes. */
  lemma NumberRoundTrip(n: nat)
    ensures ParseValue(NatToString(n)) == Int(n)
  {
  }

  /** The two boolean words. */
  lemma BooleanWords()
    ensures ParseValue("true") == Bool(true)
    ensures ParseValue("false") == Bool(false)
  {
  }

  /** The last step of the typing order: a value that is not bracketed, not quoted, not
      a numeral and not a boolean word stays the raw text, trailing spaces included. */
  lemma PlainValue(raw: string)
    requires !Enclosed(raw, '[', ']') && !Enclosed(raw, '\'', '\'') && !Enclosed(raw, '"', '"')
    requires !(|raw| > 0 && AllDigits(raw)) && raw != "true" && raw != "false"
    ensures ParseValue(raw) == Str(raw)
  {
  }

  /** `[]`, with or without white space inside, is the empty list. */
  lemma EmptyList(pad: string)
    requires forall i :: 0 <= i < |pad| ==> IsSpace(pad[i])
    ensures ParseValue("[" + pad + "]") == List([])
  {
    var raw := "[" + pad + "]";
    assert Inner(raw) == pad;
    TrimStartPadded(pad, []);
    assert pad + [] == pad;
  }

  /** Items joined by commas between brackets read back as those items, provided they
      are non-empty, hold no comma, and start and end with neither white space nor a
      quote character. */
  lemma ListRoundTrip(items: seq<string>)
    requires |items| >= 1
    requires forall k :: 0 <= k < |items| ==> PlainItem(items[k])
    ensures ParseValue("[" + Join(items, ",") + "]") == List(items)
  {
    CleanItems(items);
    if |items| == 1 {
      TrimUntouched(items[0]);
    }
    ListItemsPieces(items);
    var raw := "[" + Join(items, ",") + "]";
    assert Enclosed(raw, '[', ']');
  }

  lemma CleanItems(items: seq<string>)
    requires forall k :: 0 <= k < |items| ==> PlainItem(items[k])
    ensures Cleaned(items) == items
  {
    forall k | 0 <= k < |items|
      ensures CleanItem(items[k]) == items[k]
    {
      TrimUntouched(items[k]);
    }
  }

  predicate PlainItem(item: string) {
    && |item| > 0 && ',' !in item
    && !IsSpace(item[0]) && !IsSpace(item[|item| - 1])
    && !IsQuote(item[0]) && !IsQuote(item[|item| - 1])
  }

  /** The items of a list are its comma-separated pieces, each cleaned: the white space
      that trimming takes off the whole text between the brackets is white space the
      first and the last piece would lose anyway. */
  lemma ListItemsPieces(pieces: seq<string>)
    requires |pieces| >= 1 && forall k :: 0 <= k < |pieces| ==> ',' !in pieces[k]
    requires |pieces| >= 2 || Trim(pieces[0]) != []
    ensures ListItems("[" + Join(pieces, ",") + "]")
      == Cleaned(pieces)
  {
    var joined := Join(pieces, ",");
    var raw := "[" + joined + "]";
    assert Inner(raw) == joined;
    JoinedNotBlank(pieces);
    ListItemsBody(raw);
    TrimmedPiecesClean(pieces);
  }

  /** A list whose inner text does not trim to nothing is its trimmed inner text split
      at commas, each piece cleaned. */
  lemma ListItemsBody(raw: string)
    requires Trim(Inner(raw)) != []
    ensures ListItems(raw) == Cleaned(Split(Trim(Inner(raw)), ','))
  {
  }

  /** Splitting the trimmed join cleans to the same items as the pieces themselves. */
  lemma TrimmedPiecesClean(pieces: seq<string>)
    requires |pieces| >= 1 && forall k :: 0 <= k < |pieces| ==> ',' !in pieces[k]
    ensures Cleaned(Split(Trim(Join(pieces, ",")), ',')) == Cleaned(pieces)
  {
    var joined := Join(pieces, ",");
    SplitJoin(pieces, ',');
    assert Split(joined, ',') == pieces;
    TrimSplit(joined, ',');
    var q := Split(Trim(joined), ',');
    forall k | 0 <= k < |pieces| ensures Trim(pieces[k]) == Trim(q[k]) {
      assert pieces[k] == Split(joined, ',')[k];
    }
    CleanSameTrims(pieces, q);
  }

  /** Pieces with the same trims clean to the same items. */
  lemma CleanSameTrims(a: seq<string>, b: seq<string>)
    requires |a| == |b| && forall k :: 0 <= k < |a| ==> Trim(a[k]) == Trim(b[k])
    ensures Cleaned(a) == Cleaned(b)
  {
  }

  /** The text between the brackets does not trim to nothing: two or more pieces hold a
      comma, and one piece does not trim to nothing. */
  lemma JoinedNotBlank(pieces: seq<string>)
    requires |pieces| >= 1
    requires |pieces| >= 2 || Trim(pieces[0]) != []
    ensures Trim(Join(pieces, ",")) != []
  {
    if |pieces| >= 2 {
      JoinComma(pieces);
      TrimKeepsNonSpace(Join(pieces, ","), |pieces[0]|);
    } else {
      assert Join(pieces, ",") == pieces[0];
    }
  }

  /** The first comma of a join of two or more pieces follows the first piece. */
  lemma JoinComma(pieces: seq<string>)
    requires |pieces| >= 2
    ensures |pieces[0]| < |Join(pieces, ",")| && Join(pieces, ",")[|pieces[0]|] == ','
  {
    assert Join(pieces, ",") == pieces[0] + "," + Join(pieces[1..], ",");
  }

  /** One list entry as written: white space, an optional quote, the item, an optional
      quote, white space. */
  datatype Entry = Entry(before: string, open: string, item: string, close: string, after: string)

  function EntryText(e: Entry): string {
    e.before + e.open + e.item + e.close + e.after
  }

  /** At most one quote character. */
  predicate OptionalQuote(q: string) {
    q == "" || (|q| == 1 && IsQuote(q[0]))
  }

  /** White space only, around the entry; at most one quote on each side; an item with
      no comma that neither starts nor ends with white space or a quote. */
  predicate WellFormedEntry(e: Entry) {
    && (forall i :: 0 <= i < |e.before| ==> IsSpace(e.before[i]))
    && (forall i :: 0 <= i < |e.after| ==> IsSpace(e.after[i]))
    && OptionalQuote(e.open) && OptionalQuote(e.close)
    && ',' !in e.item
    && (e.item == [] || (!IsSpace(e.item[0]) && !IsSpace(e.item[|e.item| - 1])))
    && (e.item == [] || (!IsQuote(e.item[0]) && !IsQuote(e.item[|e.item| - 1])))
  }

  /** Cleaning an entry gives back its item, with padding and quotes gone; an entry of
      quotes only is the empty item. */
  lemma CleanEntry(e: Entry)
    requires WellFormedEntry(e)
    ensures CleanItem(EntryText(e)) == e.item
  {
    var core := e.open + e.item + e.close;
    assert EntryText(e) == e.before + core + e.after;
    QuotedCoreEnds(e.open, e.item, e.close);
    TrimPadded(e.before, core, e.after);
    StripQuotes(e.open, e.item, e.close);
  }

  /** A quoted or bare item neither starts nor ends with white space. */
  lemma QuotedCoreEnds(open: string, item: string, close: string)
    requires OptionalQuote(open) && OptionalQuote(close)
    requires item == [] || (!IsSpace(item[0]) && !IsSpace(item[|item| - 1]))
    ensures var core := open + item + close;
      core == [] || (!IsSpace(core[0]) && !IsSpace(core[|core| - 1]))
  {
    var core := open + item + close;
    if core != [] {
      assert core[0] == if open != "" then open[0] else if item != "" then item[0] else close[0];
      assert core[|core| - 1] == if close != "" then close[0] else if item != "" then item[|item| - 1] else open[0];
    }
  }

  /** One optional quote on each side of a quote-free-ended item is stripped. */
  lemma StripQuotes(open: string, item: string, close: string)
    requires OptionalQuote(open) && OptionalQuote(close)
    requires item == [] || (!IsQuote(item[0]) && !IsQuote(item[|item| - 1]))
    ensures StripOne(open + item + close, IsQuote) == item
  {
    var core := open + item + close;
    var a := StripFrom(core, IsQuote);
    var b := StripTo(core, IsQuote);
    if item == [] {
      assert core == open + close;
    } else {
      assert core[0] == if open == "" then item[0] else open[0];
      assert core[|core| - 1] == if close == "" then item[|item| - 1] else close[0];
    }
    assert a == |open| || (item == [] && open == [] && a == |core|);
    assert core[a..b] == item;
  }

  function EntryTexts(es: seq<Entry>): (r: seq<string>)
    ensures |r| == |es| && forall k :: 0 <= k < |es| ==> r[k] == EntryText(es[k])
  {
    seq(|es|, k requires 0 <= k < |es| => EntryText(es[k]))
  }

  function EntryItems(es: seq<Entry>): (r: seq<string>)
    ensures |r| == |es| && forall k :: 0 <= k < |es| ==> r[k] == es[k].item
  {
    seq(|es|, k requires 0 <= k < |es| => es[k].item)
  }

  /** The text of a well-formed entry holds no comma. */
  lemma EntryNoComma(e: Entry)
    requires WellFormedEntry(e)
    ensures ',' !in EntryText(e)
  {
    var t := EntryText(e);
    forall i | 0 <= i < |t| ensures t[i] != ',' {
      var b, o, m := |e.before|, |e.open|, |e.item|;
      if i < b { assert t[i] == e.before[i]; }
      else if i < b + o { assert t[i] == e.open[i - b]; }
      else if i < b + o + m { assert t[i] == e.item[i - b - o]; }
      else if i < b + o + m + |e.close| { assert t[i] == e.close[i - b - o - m]; }
      else { assert t[i] == e.after[i - b - o - m - |e.close|]; }
    }
  }

  /** Well-formed entries hold no comma and clean to their items. */
  lemma EntriesClean(es: seq<Entry>)
    requires forall k :: 0 <= k < |es| ==> WellFormedEntry(es[k])
    ensures forall k :: 0 <= k < |es| ==> ',' !in EntryTexts(es)[k]
    ensures Cleaned(EntryTexts(es)) == EntryItems(es)
  {
    forall k | 0 <= k < |es| ensures ',' !in EntryTexts(es)[k] && CleanItem(EntryTexts(es)[k]) == es[k].item {
      EntryNoComma(es[k]);
      CleanEntry(es[k]);
    }
  }

  /** An entry with a quote or an item does not trim to nothing. */
  lemma EntryNotBlank(e: Entry)
    requires WellFormedEntry(e) && e.open + e.item + e.close != []
    ensures Trim(EntryText(e)) != []
  {
    var core := e.open + e.item + e.close;
    assert EntryText(e) == e.before + core + e.after;
    TrimPadding(e.before, core, e.after);
    assert core[0] == if e.open == "" then (if e.item == "" then e.close[0] else e.item[0]) else e.open[0];
    TrimKeepsNonSpace(core, 0);
  }

  /** A list written as entries between commas reads as the entries' items, one item per
      entry and so one more than there are commas, empty items included. Only a list
      of one entry with neither quotes nor an item is the empty list instead. */
  lemma ListOfEntries(es: seq<Entry>)
    requires |es| >= 1 && forall k :: 0 <= k < |es| ==> WellFormedEntry(es[k])
    requires |es| >= 2 || es[0].open + es[0].item + es[0].close != []
    ensures ParseValue("[" + Join(EntryTexts(es), ",") + "]") == List(EntryItems(es))
  {
    var pieces := EntryTexts(es);
    EntriesClean(es);
    if |es| == 1 {
      EntryNotBlank(es[0]);
    }
    ListItemsPieces(pieces);
    var raw := "[" + Join(pieces, ",") + "]";
    assert Enclosed(raw, '[', ']');
  }

  /** Empty entries are kept: `[a,,b]` has three items. */
  lemma EmptyEntryKept(a: string, b: string)
    requires PlainItem(a) && PlainItem(b)
    ensures ParseValue("[" + a + ",," + b + "]") == List([a, "", b])
  {
    var es := [Entry("", "", a, "", ""), Entry("", "", "", "", ""), Entry("", "", b, "", "")];
    assert EntryText(es[0]) == a && EntryText(es[1]) == "" && EntryText(es[2]) == b;
    assert EntryTexts(es) == [a, "", b];
    assert EntryItems(es) == [a, "", b];
    JoinEmptyMiddle(a, b);
    ListOfEntries(es);
  }

  lemma JoinEmptyMiddle(a: string, b: string)
    ensures "[" + Join([a, "", b], ",") + "]" == "[" + a + ",," + b + "]"
  {
    var tail := Join(["", b], ",");
    assert tail == "," + b by {
      assert ["", b][1..] == [b];
      assert Join([b], ",") == b;
      assert "" + "," + b == "," + b;
    }
    assert Join([a, "", b], ",") == a + "," + tail by {
      assert [a, "", b][1..] == ["", b];
    }
  }

  /** White space after a comma is dropped: `[a, b]` has the items `a` and `b`. */
  lemma SpaceAfterComma(a: string, b: string)
    requires PlainItem(a) && PlainItem(b)
    ensures ParseValue("[" + a + ", " + b + "]") == List([a, b])
  {
    var es := [Entry("", "", a, "", ""), Entry(" ", "", b, "", "")];
    assert EntryText(es[0]) == a && EntryText(es[1]) == " " + b;
    assert EntryTexts(es) == [a, " " + b];
    assert EntryItems(es) == [a, b];
    assert "[" + Join([a, " " + b], ",") + "]" == "[" + a + ", " + b + "]" by {
      assert [a, " " + b][1..] == [" " + b];
    }
    ListOfEntries(es);
  }
}
