/**
 * The automatic excerpt of src/markdown.ts: the body's markup is stripped by a fixed
 * chain of global replacements, white space is collapsed, and the result is cut to a
 * character budget with a trailing ellipsis.
 */
module Excerpt {
  import opened Wrappers
  import opened Text
  import opened Rewrite

  /** `!\[.*?\]\(.*?\)`: an image, removed. Both lazy groups stay on one line, so the
      first `](` and then the first `)` on that line decide the match. */
  function ImageAt(s: string, i: nat): Option<Match> {
    if i + 1 < |s| && s[i] == '!' && s[i + 1] == '[' then
      var j :- ScanLitOnLine(s, i + 2, "](");
      var k :- ScanCharOnLine(s, j + 2, ')');
      Some(Match(k + 1, ""))
    else None
  }

  /** `\[([^\]]+)\]\(.*?\)`: a link, replaced by its text. The text runs to the first
      `]` (across lines), must be non-empty, and must be followed by `(`. */
  function LinkAt(s: string, i: nat): Option<Match> {
    if i < |s| && s[i] == '[' then
      var j :- ScanChar(s, i + 1, ']');
      if j == i + 1 || j + 1 >= |s| || s[j + 1] != '(' then None
      else
        var k :- ScanCharOnLine(s, j + 2, ')');
        Some(Match(k + 1, s[i + 1..j]))
    else None
  }

  predicate IsHash(c: char) { c == '#' }

  /** `#{1,6}\s+`: a heading marker and the white space after it, removed. A run of
      seven or more `#` does not match where it starts (the engine cannot back off
      onto white space), but does from its second `#` on. */
  function HeadingMarkAt(s: string, i: nat): Option<Match> {
    if i < |s| && s[i] == '#' then
      var h := RunEnd(s, i, IsHash);
      if h - i > 6 || h >= |s| || !IsSpace(s[h]) then None
      else Some(Match(RunEnd(s, h, IsSpace), ""))
    else None
  }

  /** `[*_`~]`: emphasis and code characters. */
  predicate IsDecoration(c: char) {
    c == '*' || c == '_' || c == '`' || c == '~'
  }

  /** ```` ```[\s\S]*?``` ````: a fenced block, removed. */
  function FenceAt(s: string, i: nat): Option<Match> {
    if OccursAt(s, "```", i) then
      var k :- ScanLit(s, i + 3, "```");
      Some(Match(k + 3, ""))
    else None
  }

  /** `` `[^`]+` ``: inline code, removed. */
  function InlineCodeAt(s: string, i: nat): Option<Match> {
    if i < |s| && s[i] == '`' then
      var j :- ScanChar(s, i + 1, '`');
      if j == i + 1 then None else Some(Match(j + 1, ""))
    else None
  }

  /** `<[^>]+>`: an HTML tag, removed. */
  function TagAt(s: string, i: nat): Option<Match> {
    if i < |s| && s[i] == '<' then
      var j :- ScanChar(s, i + 1, '>');
      if j == i + 1 then None else Some(Match(j + 1, ""))
    else None
  }

  predicate IsNewline(c: char) { c == '\n' }

  /** The markup-stripping stages, in the source's order: no emphasis or code
      character survives them. */
  function StripMarkup(content: string): (r: string)
    ensures forall i :: 0 <= i < |r| ==> !IsDecoration(r[i])
  {
    var noImages := ReplaceAll(content, ImageAt);
    var noLinks := ReplaceAll(noImages, LinkAt);
    var noHeadings := ReplaceAll(noLinks, HeadingMarkAt);
    var noDecoration := RemoveAll(noHeadings, IsDecoration);
    var r := StripCode(noDecoration);
    assert forall i :: 0 <= i < |r| ==> !IsDecoration(r[i]) by {
      forall i | 0 <= i < |r|
        ensures !IsDecoration(r[i])
      {
        assert r[i] in noDecoration;
      }
    }
    r
  }

  /** The code-block, inline-code and tag stages: each deletes what it matches, so
      together they only ever remove characters. */
  function StripCode(s: string): (r: string)
    ensures forall ch :: ch in r ==> ch in s
  {
    var noFences := ReplaceAll(s, FenceAt);
    var noInline := ReplaceAll(noFences, InlineCodeAt);
    DeletionKeepsChars(s, FenceAt, 0);
    DeletionKeepsChars(noFences, InlineCodeAt, 0);
    DeletionKeepsChars(noInline, TagAt, 0);
    ReplaceAll(noInline, TagAt)
  }

  /** Newline runs become one space, then white-space runs become one space. */
  function CollapseSpace(s: string): string {
    CollapseRuns(CollapseRuns(s, IsNewline, ' '), IsSpace, ' ')
  }

  /** The text the excerpt is cut from: one line of single-space-separated words, with
      nothing at the ends and no emphasis or code characters left. */
  function PlainText(content: string): (t: string)
    ensures forall i :: 0 <= i < |t| ==> (IsSpace(t[i]) ==> t[i] == ' ') && !IsDecoration(t[i])
    ensures forall i :: 0 <= i < |t| - 1 ==> !(t[i] == ' ' && t[i + 1] == ' ')
    ensures t == [] || (t[0] != ' ' && t[|t| - 1] != ' ')
  {
    var stripped := StripMarkup(content);
    CollapseSpaceShape(stripped);
    TrimKeepsShape(CollapseSpace(stripped));
    assert IsSpace(' ');
    Trim(CollapseSpace(stripped))
  }

  const Ellipsis: char := '…'

  /** `generateExcerpt(content, maxLength)` */
  function GenerateExcerpt(content: string, maxLength: nat): (r: string)
    ensures |r| <= maxLength + 1
    ensures |PlainText(content)| <= maxLength ==> r == PlainText(content)
    ensures |PlainText(content)| > maxLength ==>
              r == PlainText(content)[..maxLength] + [Ellipsis]
    ensures forall i :: 0 <= i < |r| ==> r[i] != '\n'
    ensures r == [] || (!IsSpace(r[0]) && !IsSpace(r[|r| - 1]))
  {
    var plain := PlainText(content);
    var r := if |plain| <= maxLength then plain else plain[..maxLength] + [Ellipsis];
    ExcerptOfShape(plain, maxLength, r);
    r
  }

  /** After collapsing, the only white space is single spaces, and no decoration
      character appears that was not in the input. */
  lemma CollapseSpaceShape(s: string)
    requires forall i :: 0 <= i < |s| ==> !IsDecoration(s[i])
    ensures var t := CollapseSpace(s);
      && (forall i :: 0 <= i < |t| ==> (IsSpace(t[i]) ==> t[i] == ' ') && !IsDecoration(t[i]))
      && (forall i :: 0 <= i < |t| - 1 ==> !(t[i] == ' ' && t[i + 1] == ' '))
  {
    var oneLine := CollapseRuns(s, IsNewline, ' ');
    var t := CollapseRuns(oneLine, IsSpace, ' ');
    CollapseRunsShape(s, IsNewline, ' ');
    CollapseRunsShape(oneLine, IsSpace, ' ');
    assert IsSpace(' ');
    forall i | 0 <= i < |oneLine|
      ensures !IsDecoration(oneLine[i])
    {
      if oneLine[i] != ' ' {
        assert oneLine[i] in s;
      }
    }
    forall i | 0 <= i < |t|
      ensures !IsDecoration(t[i])
    {
      if t[i] != ' ' {
        assert t[i] in oneLine;
      }
    }
  }

  /** Trimming keeps what holds of every character and of every adjacent pair. */
  lemma TrimKeepsShape(s: string)
    requires forall i :: 0 <= i < |s| ==> (IsSpace(s[i]) ==> s[i] == ' ') && !IsDecoration(s[i])
    requires forall i :: 0 <= i < |s| - 1 ==> !(s[i] == ' ' && s[i + 1] == ' ')
    ensures var t := Trim(s);
      && (forall i :: 0 <= i < |t| ==> (IsSpace(t[i]) ==> t[i] == ' ') && !IsDecoration(t[i]))
      && (forall i :: 0 <= i < |t| - 1 ==> !(t[i] == ' ' && t[i + 1] == ' '))
  {
    var t := Trim(s);
    var a := |s| - |TrimStart(s)|;
    TrimSlice(s);
    forall i | 0 <= i < |t|
      ensures (IsSpace(t[i]) ==> t[i] == ' ') && !IsDecoration(t[i])
    {
      assert t[i] == s[a + i];
    }
    forall i | 0 <= i < |t| - 1
      ensures !(t[i] == ' ' && t[i + 1] == ' ')
    {
      assert t[i] == s[a + i] && t[i + 1] == s[a + i + 1];
    }
  }

  /** The shape of an excerpt, for any text shaped like a plain text. */
  lemma ExcerptOfShape(t: string, maxLength: nat, r: string)
    requires forall i :: 0 <= i < |t| ==> (IsSpace(t[i]) ==> t[i] == ' ') && !IsDecoration(t[i])
    requires t == [] || (t[0] != ' ' && t[|t| - 1] != ' ')
    requires |t| <= maxLength ==> r == t
    requires |t| > maxLength ==> r == t[..maxLength] + [Ellipsis]
    ensures forall i :: 0 <= i < |r| ==> r[i] != '\n'
    ensures r == [] || (!IsSpace(r[0]) && !IsSpace(r[|r| - 1]))
  {
    if |t| > maxLength {
      TruncatedShape(t, maxLength);
    } else {
      assert IsSpace('\n');
    }
  }

  lemma TruncatedShape(t: string, maxLength: nat)
    requires maxLength < |t|
    requires forall i :: 0 <= i < |t| ==> IsSpace(t[i]) ==> t[i] == ' '
    requires t[0] != ' '
    ensures var r := t[..maxLength] + [Ellipsis];
      && (forall i :: 0 <= i < |r| ==> r[i] != '\n')
      && !IsSpace(r[0]) && !IsSpace(r[|r| - 1])
  {
    var r := t[..maxLength] + [Ellipsis];
    assert r[|r| - 1] == Ellipsis;
    forall i | 0 <= i < |r|
      ensures r[i] != '\n'
    {
      if i < maxLength {
        assert r[i] == t[i];
      }
    }
  }

  /** Code fences and inline code are matched only after every backtick has already
      been removed with the other decoration characters, so those two stages never
      change anything: the text inside code blocks stays in the excerpt. */
  lemma CodeStagesInert(s: string)
    requires forall i :: 0 <= i < |s| ==> !IsDecoration(s[i])
    ensures ReplaceAll(s, FenceAt) == s
    ensures ReplaceAll(s, InlineCodeAt) == s
  {
    forall j | 0 <= j < |s|
      ensures !MatchesAt(s, FenceAt, j) && !MatchesAt(s, InlineCodeAt, j)
    {
      assert s[j] != '`';
    }
    NoMatchKeeps(s, FenceAt, 0);
    NoMatchKeeps(s, InlineCodeAt, 0);
  }
}
