/**
 * GitHub-style alerts (src/markdown.ts `convertAlerts`): a blockquote whose paragraph
 * opens with `[!NOTE]`, `[!TIP]`, `[!IMPORTANT]`, `[!WARNING]` or `[!CAUTION]` becomes
 * an alert box with the kind's icon, label and class. The pattern is
 * `/<blockquote>\s*<p>\[!(NOTE|TIP|IMPORTANT|WARNING|CAUTION)\]\s*\n?([\s\S]*?)<\/p>\s*<\/blockquote>/gi`.
 */
module Alerts {
  import opened Wrappers
  import opened Text
  import opened Rewrite

  datatype Kind = Note | Tip | Important | Warning | Caution

  /** The kind's name in the marker. */
  function Name(k: Kind): string {
    match k
    case Note => "NOTE"
    case Tip => "TIP"
    case Important => "IMPORTANT"
    case Warning => "WARNING"
    case Caution => "CAUTION"
  }

  function Icon(k: Kind): string {
    match k
    case Note => "\U{2139}\U{FE0F}"
    case Tip => "\U{1F4A1}"
    case Important => "\U{1F4DD}"
    case Warning => "\U{26A0}\U{FE0F}"
    case Caution => "\U{2757}"
  }

  function Label(k: Kind): string {
    match k
    case Note => "Note"
    case Tip => "Tip"
    case Important => "Important"
    case Warning => "Warning"
    case Caution => "Caution"
  }

  function ClassName(k: Kind): string {
    match k
    case Note => "alert-note"
    case Tip => "alert-tip"
    case Important => "alert-important"
    case Warning => "alert-warning"
    case Caution => "alert-caution"
  }

  // the fixed parts of the pattern, in lower case
  const Open: string := "<blockquote>"
  const ParaMark: string := "<p>[!"
  const ParaClose: string := "</p>"
  const Close: string := "</blockquote>"

  /** `lower`, a text in lower case, matches at `i` ignoring case (ASCII case folding). */
  predicate AtIgnoreCase(s: string, i: nat, lower: string) {
    i + |lower| <= |s| && forall j :: 0 <= j < |lower| ==> LowerChar(s[i + j]) == lower[j]
  }

  predicate IsLower(t: string) {
    forall j :: 0 <= j < |t| ==> !IsAsciiUpper(t[j])
  }

  /** A text in lower case matches where it occurs. */
  lemma AtIgnoreCaseOccurs(s: string, i: nat, lower: string)
    requires IsLower(lower) && OccursAt(s, lower, i)
    ensures AtIgnoreCase(s, i, lower)
  {
    forall j | 0 <= j < |lower|
      ensures LowerChar(s[i + j]) == lower[j]
    {
      assert s[i + j] == s[i..i + |lower|][j];
    }
  }

  /** The fixed parts are written in lower case. */
  lemma LowerParts()
    ensures IsLower(Open) && IsLower(ParaMark) && IsLower(Close)
  {
  }

  /** The alert box the callback returns for a kind and the trimmed content. */
  function AlertHtml(k: Kind, content: string): string {
    "<div class=\"github-alert " + ClassName(k) + "\">\n"
    + "        <div class=\"alert-title\">" + Icon(k) + " " + Label(k) + "</div>\n"
    + "        <div class=\"alert-content\"><p>" + content + "</p></div>\n"
    + "      </div>"
  }

  function LowerName(k: Kind): string {
    match k
    case Note => "note"
    case Tip => "tip"
    case Important => "important"
    case Warning => "warning"
    case Caution => "caution"
  }

  /** The name is the kind's lower-case name in upper case, which is how the callback
      finds the table entry (`type.toUpperCase()`). */
  lemma NamesFold(k: Kind)
    ensures |Name(k)| == |LowerName(k)| && ToLowerAscii(Name(k)) == LowerName(k)
    ensures LowerName(k) != [] && IsLower(LowerName(k))
  {
  }

  /** The only kind whose name can start with a letter. */
  function KindByInitial(c: char): Option<Kind> {
    if c == 'n' then Some(Note)
    else if c == 't' then Some(Tip)
    else if c == 'i' then Some(Important)
    else if c == 'w' then Some(Warning)
    else if c == 'c' then Some(Caution)
    else None
  }

  /** The kind named at `p`, ignoring case. The five names start with five different
      letters, so at most one alternative of `(NOTE|TIP|IMPORTANT|WARNING|CAUTION)` can
      match, and it is the one the first letter picks. */
  function KindAt(s: string, p: nat): (r: Option<Kind>)
    ensures r.Some? ==> AtIgnoreCase(s, p, LowerName(r.value))
  {
    if p < |s| then
      var k :- KindByInitial(LowerChar(s[p]));
      if AtIgnoreCase(s, p, LowerName(k)) then Some(k) else None
    else None
  }

  /** `<\/p>` at `x`, ignoring case. */
  predicate ParaCloseAt(s: string, x: nat) {
    x + 4 <= |s| && s[x] == '<' && s[x + 1] == '/' && LowerChar(s[x + 2]) == 'p' && s[x + 3] == '>'
  }

  /** Where `<\/p>\s*<\/blockquote>` matches at `x`, ignoring case, the index after it. */
  function ClosingEnd(s: string, x: nat): (r: Option<nat>)
    ensures r.Some? ==> x < r.value <= |s|
  {
    if ParaCloseAt(s, x) then
      var w := RunEnd(s, x + |ParaClose|, IsSpace);
      if AtIgnoreCase(s, w, Close) then Some(w + |Close|) else None
    else None
  }

  /** The first index at or after `p` where the closing tags match: where the lazy
      `[\s\S]*?` stops. */
  function ScanClosing(s: string, p: nat): (r: Option<nat>)
    ensures r.Some? ==> p <= r.value && ClosingEnd(s, r.value).Some?
    decreases |s| - p
  {
    if p >= |s| then None
    else if ClosingEnd(s, p).Some? then Some(p)
    else ScanClosing(s, p + 1)
  }

  /** The pattern tried at `i`. The white space before `<p>` and after the marker is
      taken greedily: what follows it is `<` or the lazily matched content, and the
      content may itself hold white space, so giving any of it back never lets a match
      through that the greedy choice missed. The callback's fallback for an unknown
      kind is unreachable: the kind matched one of the five names ignoring case, and
      upper-cased it is a key of the table. */
  function AlertAt(s: string, i: nat): (r: Option<Match>)
    ensures r.Some? ==> i < r.value.end <= |s|
  {
    if AtIgnoreCase(s, i, Open) then AlertAfterOpen(s, RunEnd(s, i + |Open|, IsSpace)) else None
  }

  function AlertAfterOpen(s: string, a: nat): (r: Option<Match>)
    ensures r.Some? ==> a < r.value.end <= |s|
  {
    if AtIgnoreCase(s, a, ParaMark) then
      match KindAt(s, a + |ParaMark|)
      case None => None
      case Some(k) => AlertAfterKind(s, k, a + |ParaMark| + |Name(k)|)
    else None
  }

  function AlertAfterKind(s: string, k: Kind, b: nat): (r: Option<Match>)
    ensures r.Some? ==> b < r.value.end <= |s|
  {
    if b < |s| && s[b] == ']' then
      var c := RunEnd(s, b + 1, IsSpace);
      match ScanClosing(s, c)
      case None => None
      case Some(x) => Some(Match(ClosingEnd(s, x).value, AlertHtml(k, Trim(s[c..x]))))
    else None
  }

  function AlertMatcher(): Matcher {
    (s: string, i: nat) => AlertAt(s, i)
  }

  /** `convertAlerts(html)`: a text without a case-insensitive `<blockquote>` is left as
      it is. */
  function ConvertAlerts(html: string): (r: string)
    ensures (forall i :: 0 <= i <= |html| ==> !AtIgnoreCase(html, i, Open)) ==> r == html
  {
    NoBlockquoteNoMatch(html);
    ReplaceAll(html, AlertMatcher())
  }

  // ---------------------------------------------------------------------------
  // properties

  /** Every alert opens with a `<blockquote>`. */
  lemma NoBlockquoteNoMatch(html: string)
    ensures (forall i :: 0 <= i <= |html| ==> !AtIgnoreCase(html, i, Open)) ==>
      forall j :: 0 <= j < |html| ==> !MatchesAt(html, AlertMatcher(), j)
  {
    if forall i :: 0 <= i <= |html| ==> !AtIgnoreCase(html, i, Open) {
      forall j | 0 <= j < |html|
        ensures !MatchesAt(html, AlertMatcher(), j)
      {
        assert !AtIgnoreCase(html, j, Open);
      }
    }
  }

  /** `content` holds no case-insensitive `</p>`. */
  ghost predicate NoParaClose(content: string) {
    forall x :: !ParaCloseAt(content, x)
  }

  // The proof below passes every position as a variable, so that the facts one lemma
  // states about a position are the very facts the next lemma asks for.

  /** The blockquote's opening tag and the paragraph's first line, up to the content. */
  function AlertLead(name: string): (r: string)
    ensures |r| == 20 + |name|
  {
    Open + "\n" + ParaMark + name + "]\n"
  }

  /** The closing tags on their own line. */
  const Foot: string := ParaClose + "\n" + Close

  /** The pattern takes a blockquote whole and gives the alert box of the named kind
      with the content trimmed, when the blockquote is what the Markdown converter makes
      of an alert: the opening tag and the paragraph with the marker, in any letter case,
      on its first line, then the content, then the closing tags on their own line,
      followed by the rest of the page. */
  lemma AlertRecognised(s: string, name: string, k: Kind, content: string, tail: string)
    requires ToLowerAscii(name) == LowerName(k)
    requires content == [] || !IsSpace(content[0])
    requires NoParaClose(content)
    requires 20 + |name| <= |s| && s[..20 + |name|] == AlertLead(name)
    requires s[20 + |name|..] == content + (Foot + tail)
    ensures AlertAt(s, 0) == Some(Match(|s| - |tail|, AlertHtml(k, Trim(content))))
  {
    var b := 18 + |name|;
    AlertHeadPart(s, name, k, b);
    AlertTailPart(s, name, k, content, tail, b);
  }

  /** The part up to the closing bracket at `b`. */
  lemma AlertHeadPart(s: string, name: string, k: Kind, b: nat)
    requires ToLowerAscii(name) == LowerName(k) && b == 18 + |name|
    requires 20 + |name| <= |s| && s[..20 + |name|] == AlertLead(name)
    ensures AlertAt(s, 0) == AlertAfterKind(s, k, b)
  {
    HeadFacts(s, name);
    AlertHead(s, name, k, b);
  }

  /** The part from the closing bracket at `b` on. */
  lemma AlertTailPart(s: string, name: string, k: Kind, content: string, tail: string, b: nat)
    requires content == [] || !IsSpace(content[0])
    requires NoParaClose(content)
    requires b == 18 + |name|
    requires 20 + |name| <= |s| && s[..20 + |name|] == AlertLead(name)
    requires s[20 + |name|..] == content + (Foot + tail)
    ensures AlertAfterKind(s, k, b) == Some(Match(|s| - |tail|, AlertHtml(k, Trim(content))))
  {
    var rest := Foot + tail;
    var c := b + 2;
    var x := c + |content|;
    LeadBracket(s, name, b);
    ContentParts(s, c, x, content, rest);
    FootFacts(s, x, tail);
    AlertTail(s, k, b, c, x, content, rest, tail);
  }

  /** The marker's closing bracket at `b` and the line break after it. */
  lemma LeadBracket(s: string, name: string, b: nat)
    requires b == 18 + |name|
    requires 20 + |name| <= |s| && s[..20 + |name|] == AlertLead(name)
    ensures s[b] == ']' && s[b + 1] == '\n'
  {
    var lead := AlertLead(name);
    assert s[b] == s[..20 + |name|][b] == lead[b];
    assert s[b + 1] == s[..20 + |name|][b + 1] == lead[b + 1];
  }

  /** The opening tags, the marker and the kind's name, up to the closing bracket at `b`. */
  lemma AlertHead(s: string, name: string, k: Kind, b: nat)
    requires ToLowerAscii(name) == LowerName(k) && b == 18 + |name|
    requires 20 + |name| <= |s|
    requires s[..12] == Open && s[12] == '\n' && s[13..18] == ParaMark && s[18..18 + |name|] == name
    ensures AlertAt(s, 0) == AlertAfterKind(s, k, b)
  {
    NamesFold(k);
    HeadMatches(s, name, k);
    HeadSteps(s, 0, 13, b, k);
  }

  /** The matcher's first steps, when each succeeds: what is left is the part from the
      closing bracket at `b` on. */
  lemma HeadSteps(s: string, i: nat, a: nat, b: nat, k: Kind)
    requires AtIgnoreCase(s, i, Open) && RunEnd(s, i + |Open|, IsSpace) == a
    requires AtIgnoreCase(s, a, ParaMark) && KindAt(s, a + |ParaMark|) == Some(k)
    requires b == a + |ParaMark| + |Name(k)|
    ensures AlertAt(s, i) == AlertAfterKind(s, k, b)
  {
    OpenStep(s, i, a);
    ParaStep(s, a, b, k);
  }

  lemma OpenStep(s: string, i: nat, a: nat)
    requires AtIgnoreCase(s, i, Open) && RunEnd(s, i + |Open|, IsSpace) == a
    ensures AlertAt(s, i) == AlertAfterOpen(s, a)
  {
  }

  lemma ParaStep(s: string, a: nat, b: nat, k: Kind)
    requires AtIgnoreCase(s, a, ParaMark) && KindAt(s, a + |ParaMark|) == Some(k)
    requires b == a + |ParaMark| + |Name(k)|
    ensures AlertAfterOpen(s, a) == AlertAfterKind(s, k, b)
  {
  }

  /** The closing bracket at `b`, the line break, the content from `c` to `x`, and
      closing tags that end where `tail` starts. */
  lemma AlertTail(s: string, k: Kind, b: nat, c: nat, x: nat, content: string, rest: string, tail: string)
    requires c == b + 2 && x == c + |content|
    requires content == [] || !IsSpace(content[0])
    requires NoParaClose(content)
    requires rest != [] && rest[0] == '<'
    requires c <= |s| && s[b] == ']' && s[b + 1] == '\n'
    requires s[c..] == content + rest
    requires ClosingEnd(s, x) == Some(|s| - |tail|)
    ensures AlertAfterKind(s, k, b) == Some(Match(|s| - |tail|, AlertHtml(k, Trim(content))))
  {
    ContentParts(s, c, x, content, rest);
    ContentStart(s, b, c, content, rest);
    ScanFindsFoot(s, c, x, content, rest);
    KindStep(s, k, b, c, x, content, tail);
  }

  /** The last steps: the closing bracket, the white space, the lazy content. */
  lemma KindStep(s: string, k: Kind, b: nat, c: nat, x: nat, content: string, tail: string)
    requires b < |s| && s[b] == ']' && RunEnd(s, b + 1, IsSpace) == c
    requires ScanClosing(s, c) == Some(x) && ClosingEnd(s, x) == Some(|s| - |tail|)
    requires s[c..x] == content
    ensures AlertAfterKind(s, k, b) == Some(Match(|s| - |tail|, AlertHtml(k, Trim(content))))
  {
    assert AlertAfterKind(s, k, b) == Some(Match(ClosingEnd(s, x).value, AlertHtml(k, Trim(s[c..x]))));
    assert ClosingEnd(s, x).value == |s| - |tail|;
  }

  /** Where the content and what follows it stand. */
  lemma ContentParts(s: string, c: nat, x: nat, content: string, rest: string)
    requires x == c + |content|
    requires c <= |s| && s[c..] == content + rest
    ensures x <= |s| && s[c..x] == content && s[x..] == rest
  {
    assert s[c..x] == s[c..][..|content|];
    assert s[x..] == s[c..][|content|..];
  }

  /** The line break after the marker is the only white space there. */
  lemma ContentStart(s: string, b: nat, c: nat, content: string, rest: string)
    requires c == b + 2
    requires c <= |s| && s[b + 1] == '\n' && s[c..] == content + rest
    requires content == [] || !IsSpace(content[0])
    requires rest != [] && rest[0] == '<'
    ensures RunEnd(s, b + 1, IsSpace) == c
  {
    assert s[c] == (content + rest)[0];
  }

  lemma HeadFacts(s: string, name: string)
    requires 20 + |name| <= |s| && s[..20 + |name|] == AlertLead(name)
    ensures s[..12] == Open && s[12] == '\n' && s[13..18] == ParaMark
    ensures s[18..18 + |name|] == name
  {
    var lead := AlertLead(name);
    assert s[..12] == lead[..12];
    assert s[12] == lead[12];
    assert s[13..18] == lead[13..18];
    assert s[18..18 + |name|] == lead[18..18 + |name|];
  }

  lemma HeadMatches(s: string, name: string, k: Kind)
    requires ToLowerAscii(name) == LowerName(k)
    requires 20 + |name| <= |s|
    requires s[..12] == Open && s[12] == '\n' && s[13..18] == ParaMark && s[18..18 + |name|] == name
    ensures AtIgnoreCase(s, 0, Open) && RunEnd(s, 12, IsSpace) == 13
    ensures AtIgnoreCase(s, 13, ParaMark) && KindAt(s, 18) == Some(k)
  {
    LowerParts();
    AtIgnoreCaseOccurs(s, 0, Open);
    AtIgnoreCaseOccurs(s, 13, ParaMark);
    assert s[13] == s[13..18][0];
    NameAt(s, 18, name, k);
  }

  /** The name, in any letter case, is read as its kind. */
  lemma NameAt(s: string, p: nat, name: string, k: Kind)
    requires ToLowerAscii(name) == LowerName(k)
    requires p + |name| <= |s| && s[p..p + |name|] == name
    ensures KindAt(s, p) == Some(k)
  {
    NamesFold(k);
    assert |name| == |LowerName(k)|;
    forall j | 0 <= j < |name|
      ensures LowerChar(s[p + j]) == LowerName(k)[j]
    {
      assert s[p + j] == name[j];
    }
    assert KindByInitial(LowerChar(s[p])) == Some(k);
  }

  /** The closing tags at `x` match and end where `tail` starts. */
  lemma FootFacts(s: string, x: nat, tail: string)
    requires x <= |s| && s[x..] == Foot + tail
    ensures (Foot + tail) != [] && (Foot + tail)[0] == '<'
    ensures ClosingEnd(s, x) == Some(|s| - |tail|)
  {
    LowerParts();
    assert s[x..x + 4] == ParaClose;
    assert s[x + 4] == '\n' && s[x + 5] == '<';
    assert RunEnd(s, x + 4, IsSpace) == x + 5;
    assert s[x + 5..x + 18] == Close;
    AtIgnoreCaseOccurs(s, x + 5, Close);
  }

  /** The lazy content stops at the first closing tags: inside the content there is no
      `</p>`, and none can straddle its end, since the `<` that follows the content
      would have to stand inside `</p>` after its first character. */
  lemma ScanFindsFoot(s: string, c: nat, x: nat, content: string, rest: string)
    requires x == c + |content|
    requires c <= |s| && s[c..] == content + rest
    requires NoParaClose(content)
    requires rest != [] && rest[0] == '<'
    requires ClosingEnd(s, x).Some?
    ensures ScanClosing(s, c) == Some(x)
  {
    forall y | c <= y < x
      ensures ClosingEnd(s, y).None?
    {
      if ParaCloseAt(s, y) {
        CloseInside(s, c, x, content, rest, y);
        assert false;
      }
    }
    ScanFirst(s, c, x);
  }

  lemma CloseInside(s: string, c: nat, x: nat, content: string, rest: string, y: nat)
    requires x == c + |content|
    requires c <= |s| && s[c..] == content + rest
    requires rest != [] && rest[0] == '<'
    requires c <= y < x && ParaCloseAt(s, y)
    ensures ParaCloseAt(content, y - c)
  {
    assert s[x] == '<';
    assert forall j :: c <= j < x ==> s[j] == content[j - c];
  }

  lemma {:induction false} ScanFirst(s: string, p: nat, x: nat)
    requires p <= x && ClosingEnd(s, x).Some?
    requires forall y :: p <= y < x ==> ClosingEnd(s, y).None?
    ensures ScanClosing(s, p) == Some(x)
    decreases x - p
  {
    if p < x {
      ScanFirst(s, p + 1, x);
    }
  }
}
