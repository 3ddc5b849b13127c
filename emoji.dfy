/**
 * Emoji shortcodes outside code (src/markdown.ts `convertEmoji`): every `<pre>…</pre>`
 * and `<code>…</code>` region is moved out to a numbered placeholder, the remaining
 * text goes through the emoji converter, and the placeholders are replaced by the
 * regions again. The emoji converter is a parameter of the model.
 *
 * The text is described by its layout: the runs of ordinary text and the code regions
 * between them, `html == runs[0] + blocks[0] + runs[1] + … + runs[n]`.
 */
module Emoji {
  import opened Wrappers
  import opened Text
  import opened Rewrite

  // ---------------------------------------------------------------------------
  // finding code regions: /<(pre|code)[^>]*>[\s\S]*?<\/\1>/gi

  // The pattern's `i` flag compares ignoring case; for these ASCII tag names that is
  // matching the lower-case names against the lower-cased text `low`.

  /** The tag name after `<`, in the lower-cased text. */
  function TagNameAt(low: string, i: nat): (r: Option<string>)
    ensures r.Some? <==> OccursAt(low, "pre", i) || OccursAt(low, "code", i)
    ensures r.Some? ==> OccursAt(low, r.value, i) && (r.value == "pre" || r.value == "code")
  {
    if OccursAt(low, "pre", i) then Some("pre")
    else if OccursAt(low, "code", i) then Some("code")
    else None
  }

  /** The closing tag of a code region. */
  function CloseTag(name: string): (t: string)
    ensures |t| == |name| + 3
  {
    "</" + name + ">"
  }

  /** Where the code region starting at `i` ends: `<pre` or `<code`, anything up to the
      first `>`, then the nearest closing tag of the same name, all ignoring case. */
  function CodeRegionEnd(s: string, i: nat): (r: Option<nat>)
    ensures r.Some? ==> i < r.value <= |s|
  {
    RegionEndIn(s, ToLowerAscii(s), i)
  }

  /** The scan of `CodeRegionEnd`, given the lower-cased text `low`. */
  function RegionEndIn(s: string, low: string, i: nat): (r: Option<nat>)
    requires |low| == |s|
    ensures r.Some? ==> i < r.value <= |s|
  {
    if i < |s| && s[i] == '<' then
      var name :- TagNameAt(low, i + 1);
      var j :- ScanChar(s, i + 1 + |name|, '>');
      var k :- ScanLit(low, j + 1, CloseTag(name));
      Some(k + |name| + 3)
    else None
  }

  /** A code region at `i`: `<` and the tag name in any case, attributes up to the
      first `>` at `j`, and the first closing tag of that name, in any case, at `k`;
      `low` is the text lower-cased. */
  predicate RegionAt(s: string, low: string, i: nat, name: string, j: nat, k: nat) {
    && (name == "pre" || name == "code")
    && i < |s| && s[i] == '<' && OccursAt(low, name, i + 1)
    && i + 1 + |name| <= j < |s| && s[j] == '>'
    && (forall q :: i + 1 + |name| <= q < j ==> s[q] != '>')
    && j < k && OccursAt(low, CloseTag(name), k)
    && (forall q :: j + 1 <= q < k ==> !OccursAt(low, CloseTag(name), q))
  }

  /** `code` does not start where `pre` does. */
  lemma CodeIsNotPre(low: string, p: nat)
    requires OccursAt(low, "code", p)
    ensures !OccursAt(low, "pre", p)
  {
    assert low[p] == low[p..p + 4][0] == 'c';
  }

  /** The tag name is read. */
  lemma TagNameIs(low: string, p: nat, name: string)
    requires (name == "pre" || name == "code") && OccursAt(low, name, p)
    ensures TagNameAt(low, p) == Some(name)
  {
    if name == "code" {
      CodeIsNotPre(low, p);
    }
  }

  /** The scan stops at the first `c`. */
  lemma ScanCharIs(s: string, p: nat, c: char, j: nat)
    requires p <= j < |s| && s[j] == c && forall q :: p <= q < j ==> s[q] != c
    ensures ScanChar(s, p, c) == Some(j)
  {
    var r := ScanChar(s, p, c);
    assert r.Some? ==> s[r.value] == c;
  }

  /** The scan stops at the first occurrence. */
  lemma ScanLitIs(s: string, p: nat, lit: string, k: nat)
    requires p <= k && OccursAt(s, lit, k)
    requires forall q :: p <= q < k ==> !OccursAt(s, lit, q)
    ensures ScanLit(s, p, lit) == Some(k)
  {
    var r := ScanLit(s, p, lit);
    assert r.Some? ==> OccursAt(s, lit, r.value);
  }

  /** The pattern matches a code region at `i` exactly when the text there is one, and
      the match ends just after its closing tag. */
  lemma CodeRegionExactly(s: string, i: nat, e: nat)
    ensures CodeRegionEnd(s, i) == Some(e) <==>
      exists name, j: nat, k: nat :: RegionAt(s, ToLowerAscii(s), i, name, j, k) && e == k + |name| + 3
  {
    RegionEndExactly(s, ToLowerAscii(s), i, e);
  }

  /** `CodeRegionExactly` for any lower-cased text. */
  lemma RegionEndExactly(s: string, low: string, i: nat, e: nat)
    requires |low| == |s|
    ensures RegionEndIn(s, low, i) == Some(e) <==>
      exists name, j: nat, k: nat :: RegionAt(s, low, i, name, j, k) && e == k + |name| + 3
  {
    if RegionEndIn(s, low, i) == Some(e) {
      RegionShape(s, low, i, e);
    }
    RegionFoundAny(s, low, i, e);
  }

  /** Some code region at `i` ending at `e` is what the scan finds. */
  lemma RegionFoundAny(s: string, low: string, i: nat, e: nat)
    requires |low| == |s|
    ensures (exists name, j: nat, k: nat :: RegionAt(s, low, i, name, j, k) && e == k + |name| + 3) ==>
      RegionEndIn(s, low, i) == Some(e)
  {
    if exists name, j: nat, k: nat :: RegionAt(s, low, i, name, j, k) && e == k + |name| + 3 {
      var name, j: nat, k: nat :| RegionAt(s, low, i, name, j, k) && e == k + |name| + 3;
      RegionFound(s, low, i, name, j, k);
    }
  }

  /** What the pattern matches is a code region. */
  lemma RegionShape(s: string, low: string, i: nat, e: nat)
    requires |low| == |s| && RegionEndIn(s, low, i) == Some(e)
    ensures exists name, j: nat, k: nat :: RegionAt(s, low, i, name, j, k) && e == k + |name| + 3
  {
    var name := TagNameAt(low, i + 1).value;
    var j := ScanChar(s, i + 1 + |name|, '>').value;
    var k := ScanLit(low, j + 1, CloseTag(name)).value;
    assert RegionAt(s, low, i, name, j, k);
  }

  /** A code region at `i` is found, and the match ends just after its closing tag. */
  lemma RegionFound(s: string, low: string, i: nat, name: string, j: nat, k: nat)
    requires |low| == |s| && RegionAt(s, low, i, name, j, k)
    ensures RegionEndIn(s, low, i) == Some(k + |name| + 3)
  {
    TagNameIs(low, i + 1, name);
    ScanCharIs(s, i + 1 + |name|, '>', j);
    ScanLitIs(low, j + 1, CloseTag(name), k);
  }

  // ---------------------------------------------------------------------------
  // layout and placeholders

  datatype Layout = Layout(runs: seq<string>, blocks: seq<string>)

  /** The layout of `s[i..]`, scanning as the global replacement does. */
  function LayoutFrom(s: string, i: nat): (l: Layout)
    ensures |l.runs| == |l.blocks| + 1
    decreases |s| - i
  {
    if i >= |s| then Layout([""], [])
    else match CodeRegionEnd(s, i)
      case Some(e) =>
        var l := LayoutFrom(s, e);
        Layout([""] + l.runs, [s[i..e]] + l.blocks)
      case None =>
        var l := LayoutFrom(s, i + 1);
        Layout([[s[i]] + l.runs[0]] + l.runs[1..], l.blocks)
  }

  /** What every placeholder starts with. */
  const Marker: string := "__CODE_BLOCK_"

  /** The placeholder for the `n`-th region, under a given prefix. */
  function PlaceholderOf(marker: string, n: nat): string {
    marker + NatToString(n) + "__"
  }

  /** The placeholders numbered `from` onwards, `count` of them. */
  function PlaceholdersOf(marker: string, from: nat, count: nat): (r: seq<string>)
    ensures |r| == count
    decreases count
  {
    if count == 0 then [] else [PlaceholderOf(marker, from)] + PlaceholdersOf(marker, from + 1, count - 1)
  }

  /** The text the emoji converter sees: the layout with numbered placeholders for the
      code regions. */
  function ProtectedFrom(s: string, i: nat, n: nat): string {
    var l := LayoutFrom(s, i);
    Weave(l.runs, PlaceholdersOf(Marker, n, |l.blocks|))
  }

  /** The code regions, in order. */
  function CodeBlocks(s: string): seq<string> {
    LayoutFrom(s, 0).blocks
  }

  /** The layout puts the text back together: runs and regions, in order, are `s[i..]`. */
  lemma {:induction false} LayoutWeaves(s: string, i: nat)
    requires i <= |s|
    ensures Weave(LayoutFrom(s, i).runs, LayoutFrom(s, i).blocks) == s[i..]
    decreases |s| - i
  {
    if i < |s| {
      match CodeRegionEnd(s, i)
      case Some(e) =>
        LayoutWeaves(s, e);
        RegionWeaves(s, i, e);
      case None =>
        LayoutWeaves(s, i + 1);
        PlainWeaves(s, i);
    }
  }

  lemma RegionWeaves(s: string, i: nat, e: nat)
    requires i < |s| && CodeRegionEnd(s, i) == Some(e)
    requires Weave(LayoutFrom(s, e).runs, LayoutFrom(s, e).blocks) == s[e..]
    ensures Weave(LayoutFrom(s, i).runs, LayoutFrom(s, i).blocks) == s[i..]
  {
    var l := LayoutFrom(s, e);
    LayoutRegion(s, i, e);
    WeaveRegion(s, i, e, l.runs, l.blocks);
  }

  /** At a code region, the layout opens with an empty run and the region. */
  lemma LayoutRegion(s: string, i: nat, e: nat)
    requires i < |s| && CodeRegionEnd(s, i) == Some(e)
    ensures LayoutFrom(s, i) == Layout([""] + LayoutFrom(s, e).runs, [s[i..e]] + LayoutFrom(s, e).blocks)
  {
  }

  lemma WeaveRegion(s: string, i: nat, e: nat, runs: seq<string>, fillers: seq<string>)
    requires i <= e <= |s| && |runs| == |fillers| + 1 && Weave(runs, fillers) == s[e..]
    ensures Weave([""] + runs, [s[i..e]] + fillers) == s[i..]
  {
    assert ([""] + runs)[1..] == runs;
    assert ([s[i..e]] + fillers)[1..] == fillers;
    WeaveEmptyHead([""] + runs, [s[i..e]] + fillers);
    assert s[i..e] + s[e..] == s[i..];
  }

  lemma PlainWeaves(s: string, i: nat)
    requires i < |s| && CodeRegionEnd(s, i).None?
    requires Weave(LayoutFrom(s, i + 1).runs, LayoutFrom(s, i + 1).blocks) == s[i + 1..]
    ensures Weave(LayoutFrom(s, i).runs, LayoutFrom(s, i).blocks) == s[i..]
  {
    var l := LayoutFrom(s, i + 1);
    WeaveCons(s[i], l.runs, l.blocks);
    assert [s[i]] + s[i + 1..] == s[i..];
  }

  lemma WeaveCons(c: char, runs: seq<string>, fillers: seq<string>)
    requires |runs| == |fillers| + 1
    ensures Weave([[c] + runs[0]] + runs[1..], fillers) == [c] + Weave(runs, fillers)
  {
    var runs' := [[c] + runs[0]] + runs[1..];
    assert runs'[1..] == runs[1..];
  }

  /** One step of the protecting scan, at a code region: the region gives its
      placeholder and is recorded. */
  lemma ProtectRegion(s: string, i: nat, n: nat, e: nat)
    requires i < |s| && CodeRegionEnd(s, i) == Some(e)
    ensures ProtectedFrom(s, i, n) == PlaceholderOf(Marker, n) + ProtectedFrom(s, e, n + 1)
    ensures LayoutFrom(s, i).blocks == [s[i..e]] + LayoutFrom(s, e).blocks
  {
    var l := LayoutFrom(s, e);
    var phs := PlaceholdersOf(Marker, n, |l.blocks| + 1);
    assert ([""] + l.runs)[1..] == l.runs;
    assert phs[1..] == PlaceholdersOf(Marker, n + 1, |l.blocks|);
    WeaveEmptyHead([""] + l.runs, phs);
  }

  /** One step of the protecting scan, at any other character: it is kept. */
  lemma ProtectPlain(s: string, i: nat, n: nat)
    requires i < |s| && CodeRegionEnd(s, i).None?
    ensures ProtectedFrom(s, i, n) == [s[i]] + ProtectedFrom(s, i + 1, n)
    ensures LayoutFrom(s, i).blocks == LayoutFrom(s, i + 1).blocks
  {
    var l := LayoutFrom(s, i + 1);
    WeaveCons(s[i], l.runs, PlaceholdersOf(Marker, n, |l.blocks|));
  }

  lemma WeaveEmptyHead(runs: seq<string>, fillers: seq<string>)
    requires |runs| == |fillers| + 1 && |fillers| > 0 && runs[0] == ""
    ensures Weave(runs, fillers) == fillers[0] + Weave(runs[1..], fillers[1..])
  {
    assert runs[0] + fillers[0] == fillers[0];
  }

  lemma Assoc<T>(a: seq<T>, b: seq<T>, c: seq<T>)
    ensures a + b + c == a + (b + c)
  {
  }

  /** The first stage of `convertEmoji`: the global replacement whose callback pushes
      each region onto `codeBlocks` and returns the placeholder for its index. */
  method ProtectCode(html: string) returns (text: string, codeBlocks: seq<string>)
    ensures codeBlocks == CodeBlocks(html)
    ensures text == ProtectedFrom(html, 0, 0)
  {
    ghost var allBlocks := CodeBlocks(html);
    ghost var whole := ProtectedFrom(html, 0, 0);
    text := "";
    codeBlocks := [];
    var i := 0;
    while i < |html|
      invariant i <= |html|
      invariant codeBlocks + LayoutFrom(html, i).blocks == allBlocks
      invariant text + ProtectedFrom(html, i, |codeBlocks|) == whole
      decreases |html| - i
    {
      i, codeBlocks, text := ProtectStep(html, i, codeBlocks, text, allBlocks, whole);
    }
    ProtectDone(html, |codeBlocks|);
  }

  /** One step of the scan: a code region at `i` is collected and replaced by its
      placeholder; any other character is copied. */
  method ProtectStep(html: string, i: nat, codeBlocks: seq<string>, text: string,
                     ghost allBlocks: seq<string>, ghost whole: string)
    returns (next: nat, blocks: seq<string>, protected: string)
    requires i < |html|
    requires codeBlocks + LayoutFrom(html, i).blocks == allBlocks
    requires text + ProtectedFrom(html, i, |codeBlocks|) == whole
    ensures i < next <= |html|
    ensures blocks + LayoutFrom(html, next).blocks == allBlocks
    ensures protected + ProtectedFrom(html, next, |blocks|) == whole
  {
    var region := CodeRegionEnd(html, i);
    if region.Some? {
      var e := region.value;
      RegionStep(html, i, e, codeBlocks, text, allBlocks, whole);
      next, blocks, protected := e, codeBlocks + [html[i..e]], text + PlaceholderOf(Marker, |codeBlocks|);
    } else {
      PlainStep(html, i, codeBlocks, text, allBlocks, whole);
      next, blocks, protected := i + 1, codeBlocks, text + [html[i]];
    }
  }

  /** A code region moves from the text still to scan to the collected regions, and
      its placeholder to the protected text. */
  lemma RegionStep(s: string, i: nat, e: nat, done: seq<string>, text: string,
                   all: seq<string>, whole: string)
    requires i < |s| && CodeRegionEnd(s, i) == Some(e)
    requires done + LayoutFrom(s, i).blocks == all
    requires text + ProtectedFrom(s, i, |done|) == whole
    ensures (done + [s[i..e]]) + LayoutFrom(s, e).blocks == all
    ensures (text + PlaceholderOf(Marker, |done|)) + ProtectedFrom(s, e, |done| + 1) == whole
  {
    var n := |done|;
    ProtectRegion(s, i, n, e);
    Assoc(done, [s[i..e]], LayoutFrom(s, e).blocks);
    Assoc(text, PlaceholderOf(Marker, n), ProtectedFrom(s, e, n + 1));
  }

  /** Any other character moves from the text still to scan to the protected text. */
  lemma PlainStep(s: string, i: nat, done: seq<string>, text: string, all: seq<string>, whole: string)
    requires i < |s| && CodeRegionEnd(s, i).None?
    requires done + LayoutFrom(s, i).blocks == all
    requires text + ProtectedFrom(s, i, |done|) == whole
    ensures done + LayoutFrom(s, i + 1).blocks == all
    ensures (text + [s[i]]) + ProtectedFrom(s, i + 1, |done|) == whole
  {
    ProtectPlain(s, i, |done|);
    Assoc(text, [s[i]], ProtectedFrom(s, i + 1, |done|));
  }

  /** At the end of the text nothing is left to protect. */
  lemma ProtectDone(s: string, n: nat)
    ensures LayoutFrom(s, |s|).blocks == [] && ProtectedFrom(s, |s|, n) == ""
  {
  }

  // ---------------------------------------------------------------------------
  // restoring: /__CODE_BLOCK_(\d+)__/g

  /** What `codeBlocks[n]` gives as a replacement: the region, or the text `undefined`
      past the end. */
  function BlockFor(blocks: seq<string>, n: nat): string {
    if n < |blocks| then blocks[n] else "undefined"
  }

  /** The placeholder pattern at `i`: the prefix, a run of digits, `__`; replaced by the
      region the digits number. */
  function PlaceholderMatch(marker: string, blocks: seq<string>, s: string, i: nat): Option<Match> {
    if OccursAt(s, marker, i) then
      var d := RunEnd(s, i + |marker|, IsDigit);
      RunEndSpan(s, i + |marker|, IsDigit);
      if d > i + |marker| && OccursAt(s, "__", d) then
        Some(Match(d + 2, BlockFor(blocks, DigitsValue(s[i + |marker|..d]))))
      else None
    else None
  }

  function PlaceholderMatcher(marker: string, blocks: seq<string>): Matcher {
    (s: string, i: nat) => PlaceholderMatch(marker, blocks, s, i)
  }

  /** The placeholders put back as the regions they number; a text with no
      placeholder prefix in it is left as it is. */
  function Restore(text: string, blocks: seq<string>): (r: string)
    ensures Free(text, Marker) ==> r == text
  {
    NoPlaceholderNoMatch(text, blocks);
    ReplaceAll(text, PlaceholderMatcher(Marker, blocks))
  }

  lemma NoPlaceholderNoMatch(text: string, blocks: seq<string>)
    ensures Free(text, Marker) ==>
      forall j :: 0 <= j < |text| ==> !MatchesAt(text, PlaceholderMatcher(Marker, blocks), j)
  {
    if Free(text, Marker) {
      forall j | 0 <= j < |text|
        ensures !MatchesAt(text, PlaceholderMatcher(Marker, blocks), j)
      {
        assert !OccursAt(text, Marker, j);
      }
    }
  }

  /** `convertEmoji(html)`, with the emoji converter as a parameter. */
  method ConvertEmoji(html: string, emojify: string -> string) returns (result: string)
    ensures result == Restore(emojify(ProtectedFrom(html, 0, 0)), CodeBlocks(html))
  {
    var protectedHtml, codeBlocks := ProtectCode(html);
    protectedHtml := emojify(protectedHtml);
    result := Restore(protectedHtml, codeBlocks);
  }

  // ---------------------------------------------------------------------------
  // the round trip

  /** `t` holds no occurrence of `marker`. */
  ghost predicate Free(t: string, marker: string) {
    forall p: nat :: !OccursAt(t, marker, p)
  }

  /** A prefix fit for placeholders: it opens with `__`, and holds `__` nowhere else. */
  predicate MarkerShape(marker: string) {
    && |marker| >= 2 && marker[0] == '_' && marker[1] == '_'
    && forall j :: 1 <= j < |marker| - 1 ==> !(marker[j] == '_' && marker[j + 1] == '_')
  }

  lemma MarkerIsShaped()
    ensures MarkerShape(Marker)
  {
    var m := Marker;
    assert m == ['_', '_', 'C', 'O', 'D', 'E', '_', 'B', 'L', 'O', 'C', 'K', '_'];
  }

  /** What restoring needs of a matcher: it matches only where the marker stands
      followed by a digit, and it matches each placeholder whole, replacing it by the
      region the placeholder numbers. */
  ghost predicate Recognises(m: Matcher, marker: string, blocks: seq<string>) {
    && (forall S: string, p: nat {:trigger MarkedDigit(S, marker, p)} ::
          MatchesAt(S, m, p) ==> MarkedDigit(S, marker, p))
    && (forall S: string, q: nat, n: nat {:trigger PlaceholderAt(S, marker, n, q)} ::
          PlaceholderAt(S, marker, n, q) ==>
            MatchesAt(S, m, q) && m(S, q).value == Match(q + |PlaceholderOf(marker, n)|, BlockFor(blocks, n)))
  }

  /** The marker stands at `p`, followed by a digit. */
  predicate MarkedDigit(S: string, marker: string, p: nat) {
    OccursAt(S, marker, p) && p + |marker| < |S| && IsDigit(S[p + |marker|])
  }

  /** Placeholder number `n` stands at `q`. */
  predicate PlaceholderAt(S: string, marker: string, n: nat, q: nat) {
    OccursAt(S, PlaceholderOf(marker, n), q)
  }

  /** The placeholder pattern is such a matcher. */
  lemma PatternRecognises(marker: string, blocks: seq<string>)
    ensures Recognises(PlaceholderMatcher(marker, blocks), marker, blocks)
  {
    var m := PlaceholderMatcher(marker, blocks);
    forall S: string, p: nat | MatchesAt(S, m, p)
      ensures MarkedDigit(S, marker, p)
    {
      assert PlaceholderMatch(marker, blocks, S, p).Some?;
    }
    forall S: string, q: nat, n: nat | PlaceholderAt(S, marker, n, q)
      ensures MatchesAt(S, m, q) && m(S, q).value == Match(q + |PlaceholderOf(marker, n)|, BlockFor(blocks, n))
    {
      PlaceholderParses(marker, blocks, S, q, n);
    }
  }

  /** `t` stands at `pos` in `S`, free of the marker, and is followed by the end of `S`
      or by `__`. */
  ghost predicate RunBefore(S: string, pos: nat, t: string, marker: string) {
    && pos + |t| <= |S| && S[pos..pos + |t|] == t && Free(t, marker)
    && (pos + |t| < |S| ==> pos + |t| + 1 < |S| && S[pos + |t|] == '_' && S[pos + |t| + 1] == '_')
  }

  /** Inside a run free of the marker, followed by the end of the text or by a
      placeholder, no match starts: a marker cannot straddle the boundary, since the
      placeholder opens with `__`, the marker holds `__` only at its start, and a marker
      ending on the boundary is followed by `_`, not a digit. */
  lemma RunUnmatched(m: Matcher, marker: string, blocks: seq<string>, S: string, pos: nat, t: string)
    requires Recognises(m, marker, blocks) && MarkerShape(marker)
    requires RunBefore(S, pos, t, marker)
    ensures forall p :: pos <= p < pos + |t| ==> !MatchesAt(S, m, p)
  {
    forall p | pos <= p < pos + |t|
      ensures !MatchesAt(S, m, p)
    {
      if MatchesAt(S, m, p) {
        NoMarkerInRun(marker, S, pos, t, p);
      }
    }
  }

  lemma NoMarkerInRun(marker: string, S: string, pos: nat, t: string, p: nat)
    requires MarkerShape(marker)
    requires RunBefore(S, pos, t, marker)
    requires pos <= p < pos + |t|
    ensures !MarkedDigit(S, marker, p)
  {
    var q := pos + |t|;
    var k := |marker|;
    if p + k <= q {
      SliceOfSlice(S, pos, q, p - pos, p - pos + k);
      assert !OccursAt(t, marker, p - pos);
    } else if p + k < |S| && S[p..p + k] == marker {
      var off := q - p;
      if off < k - 1 {
        assert false;
      } else {
        assert !IsDigit(S[p + k]);
      }
    }
  }

  lemma SliceOfSlice(S: string, a: nat, b: nat, c: nat, d: nat)
    requires a <= b <= |S| && c <= d <= b - a
    ensures S[a..b][c..d] == S[a + c..a + d]
  {
    forall j | 0 <= j < d - c
      ensures S[a..b][c..d][j] == S[a + c..a + d][j]
    {
    }
  }

  /** A placeholder in the text is recognised, with its own number. */
  lemma PlaceholderParses(marker: string, blocks: seq<string>, S: string, q: nat, n: nat)
    requires OccursAt(S, PlaceholderOf(marker, n), q)
    ensures PlaceholderMatch(marker, blocks, S, q)
            == Some(Match(q + |PlaceholderOf(marker, n)|, BlockFor(blocks, n)))
  {
    var ph := PlaceholderOf(marker, n);
    var digits := NatToString(n);
    var a := q + |marker|;
    var b := a + |digits|;
    OccursSplit(S, marker + digits, "__", q);
    OccursSplit(S, marker, digits, q);
    assert S[b] == S[b..b + 2][0] == '_';
    RunEndExact(S, a, IsDigit, digits);
  }

  /** The placeholders' replacements, numbered `from` onwards. */
  function BlocksFrom(blocks: seq<string>, from: nat, count: nat): (r: seq<string>)
    ensures |r| == count
    decreases count
  {
    if count == 0 then [] else [BlockFor(blocks, from)] + BlocksFrom(blocks, from + 1, count - 1)
  }

  /** From `pos` on, `S` is woven from marker-free runs and the placeholders numbered
      from `n`. */
  ghost predicate WovenFrom(S: string, pos: nat, runs: seq<string>, marker: string, n: nat) {
    && |runs| >= 1
    && pos <= |S| && S[pos..] == Weave(runs, PlaceholdersOf(marker, n, |runs| - 1))
    && forall k :: 0 <= k < |runs| ==> Free(runs[k], marker)
  }

  /** A text woven from marker-free runs and numbered placeholders is one such a
      matcher reads as woven: the runs are left alone and each placeholder is replaced
      by the region it numbers. */
  lemma {:induction false} PlaceholdersWoven(m: Matcher, marker: string, blocks: seq<string>, S: string,
                                             pos: nat, runs: seq<string>, n: nat)
    requires Recognises(m, marker, blocks) && MarkerShape(marker)
    requires WovenFrom(S, pos, runs, marker, n)
    ensures MatchesWoven(S, m, pos, runs, PlaceholdersOf(marker, n, |runs| - 1), BlocksFrom(blocks, n, |runs| - 1))
    decreases |runs|
  {
    if |runs| == 1 {
      WovenEnd(m, marker, blocks, S, pos, runs, n);
    } else {
      WovenRest(marker, S, pos, runs, n);
      PlaceholdersWoven(m, marker, blocks, S, pos + |runs[0]| + |PlaceholderOf(marker, n)|, runs[1..], n + 1);
      WovenHead(m, marker, blocks, S, pos, runs, n);
    }
  }

  /** After the first run and placeholder, the rest is woven the same way. */
  lemma WovenRest(marker: string, S: string, pos: nat, runs: seq<string>, n: nat)
    requires MarkerShape(marker) && WovenFrom(S, pos, runs, marker, n) && |runs| > 1
    ensures WovenFrom(S, pos + |runs[0]| + |PlaceholderOf(marker, n)|, runs[1..], marker, n + 1)
  {
    RunThenPlaceholder(marker, S, pos, runs, n);
  }

  /** The first run and placeholder, put before the rest read as woven. */
  lemma WovenHead(m: Matcher, marker: string, blocks: seq<string>, S: string, pos: nat, runs: seq<string>, n: nat)
    requires Recognises(m, marker, blocks) && MarkerShape(marker)
    requires WovenFrom(S, pos, runs, marker, n) && |runs| > 1
    requires MatchesWoven(S, m, pos + |runs[0]| + |PlaceholderOf(marker, n)|, runs[1..],
                          PlaceholdersOf(marker, n + 1, |runs| - 2), BlocksFrom(blocks, n + 1, |runs| - 2))
    ensures MatchesWoven(S, m, pos, runs, PlaceholdersOf(marker, n, |runs| - 1), BlocksFrom(blocks, n, |runs| - 1))
  {
    var q := pos + |runs[0]|;
    RunThenPlaceholder(marker, S, pos, runs, n);
    RunUnmatched(m, marker, blocks, S, pos, runs[0]);
    PlaceholderMatched(m, marker, blocks, S, q, n);
    WovenStep(m, marker, blocks, S, pos, runs, n);
  }

  lemma WovenEnd(m: Matcher, marker: string, blocks: seq<string>, S: string, pos: nat, runs: seq<string>, n: nat)
    requires Recognises(m, marker, blocks) && MarkerShape(marker)
    requires WovenFrom(S, pos, runs, marker, n) && |runs| == 1
    ensures MatchesWoven(S, m, pos, runs, PlaceholdersOf(marker, n, |runs| - 1), BlocksFrom(blocks, n, |runs| - 1))
  {
    var t := runs[0];
    LastRun(marker, S, pos, runs, n);
    RunUnmatched(m, marker, blocks, S, pos, t);
    WovenLast(S, m, pos, t);
    assert [t] == runs;
  }

  lemma PlaceholderMatched(m: Matcher, marker: string, blocks: seq<string>, S: string, q: nat, n: nat)
    requires Recognises(m, marker, blocks)
    requires OccursAt(S, PlaceholderOf(marker, n), q)
    ensures MatchesAt(S, m, q) && m(S, q).value == Match(q + |PlaceholderOf(marker, n)|, BlockFor(blocks, n))
  {
    assert PlaceholderAt(S, marker, n, q);
  }

  /** The first run and placeholder of a weave, put before the rest of it. */
  lemma WovenStep(m: Matcher, marker: string, blocks: seq<string>, S: string, pos: nat, runs: seq<string>, n: nat)
    requires |runs| > 1
    requires var q := pos + |runs[0]|;
      && q <= |S| && S[pos..q] == runs[0]
      && (forall p :: pos <= p < q ==> !MatchesAt(S, m, p))
      && MatchesAt(S, m, q) && m(S, q).value == Match(q + |PlaceholderOf(marker, n)|, BlockFor(blocks, n))
      && MatchesWoven(S, m, q + |PlaceholderOf(marker, n)|, runs[1..],
                      PlaceholdersOf(marker, n + 1, |runs| - 2), BlocksFrom(blocks, n + 1, |runs| - 2))
    ensures MatchesWoven(S, m, pos, runs, PlaceholdersOf(marker, n, |runs| - 1), BlocksFrom(blocks, n, |runs| - 1))
  {
    var t := runs[0];
    var phs := PlaceholdersOf(marker, n + 1, |runs| - 2);
    var bs := BlocksFrom(blocks, n + 1, |runs| - 2);
    WovenCons(S, m, pos, t, PlaceholderOf(marker, n), BlockFor(blocks, n), runs[1..], phs, bs);
    assert [t] + runs[1..] == runs;
    assert [PlaceholderOf(marker, n)] + phs == PlaceholdersOf(marker, n, |runs| - 1);
    assert [BlockFor(blocks, n)] + bs == BlocksFrom(blocks, n, |runs| - 1);
  }

  /** The last run of a woven text is all that is left of it. */
  lemma LastRun(marker: string, S: string, pos: nat, runs: seq<string>, n: nat)
    requires |runs| == 1
    requires pos <= |S| && S[pos..] == Weave(runs, PlaceholdersOf(marker, n, |runs| - 1))
    ensures pos + |runs[0]| == |S| && S[pos..pos + |runs[0]|] == runs[0]
  {
    assert S[pos..] == runs[0];
  }

  /** A woven text with more than one run starts with its first run, then the first
      placeholder, which opens with `__`, then the rest of the weave. */
  lemma RunThenPlaceholder(marker: string, S: string, pos: nat, runs: seq<string>, n: nat)
    requires MarkerShape(marker)
    requires |runs| > 1
    requires pos <= |S| && S[pos..] == Weave(runs, PlaceholdersOf(marker, n, |runs| - 1))
    ensures var q := pos + |runs[0]|;
      var ph := PlaceholderOf(marker, n);
      && S[pos..q] == runs[0]
      && OccursAt(S, ph, q)
      && q + 1 < |S| && S[q] == '_' && S[q + 1] == '_'
      && S[q + |ph|..] == Weave(runs[1..], PlaceholdersOf(marker, n + 1, |runs| - 2))
  {
    var phs := PlaceholdersOf(marker, n, |runs| - 1);
    var ph := PlaceholderOf(marker, n);
    var rest := Weave(runs[1..], phs[1..]);
    assert phs[0] == ph;
    assert phs[1..] == PlaceholdersOf(marker, n + 1, |runs| - 2);
    assert Weave(runs, phs) == runs[0] + ph + rest;
    PlaceholderStart(marker, n);
    SplitThree(S, pos, runs[0], ph, rest);
    var q := pos + |runs[0]|;
    assert S[q..q + |ph|] == ph;
    assert S[q] == ph[0] && S[q + 1] == ph[1];
  }

  lemma PlaceholderStart(marker: string, n: nat)
    requires MarkerShape(marker)
    ensures |PlaceholderOf(marker, n)| >= 2
    ensures PlaceholderOf(marker, n)[0] == '_' && PlaceholderOf(marker, n)[1] == '_'
  {
  }

  lemma SplitThree(S: string, pos: nat, a: string, b: string, c: string)
    requires pos <= |S| && S[pos..] == a + b + c
    ensures pos + |a| + |b| + |c| == |S|
    ensures S[pos..pos + |a|] == a
    ensures S[pos + |a|..pos + |a| + |b|] == b
    ensures S[pos + |a| + |b|..] == c
  {
    assert S[pos..pos + |a|] == S[pos..][..|a|];
    assert S[pos + |a|..pos + |a| + |b|] == S[pos..][|a|..|a| + |b|];
    assert S[pos + |a| + |b|..] == S[pos..][|a| + |b|..];
  }

  /** Restoring undoes protecting: with runs free of the marker, the placeholders come
      back as the regions they stand for. */
  lemma RestoreWeave(runs: seq<string>, blocks: seq<string>)
    requires |runs| == |blocks| + 1
    requires forall k :: 0 <= k < |runs| ==> Free(runs[k], Marker)
    ensures Restore(Weave(runs, PlaceholdersOf(Marker, 0, |blocks|)), blocks) == Weave(runs, blocks)
  {
    var S := Weave(runs, PlaceholdersOf(Marker, 0, |blocks|));
    assert S[0..] == S;
    MarkerIsShaped();
    PatternRecognises(Marker, blocks);
    PlaceholdersWoven(PlaceholderMatcher(Marker, blocks), Marker, blocks, S, 0, runs, 0);
    ReplaceWoven(S, PlaceholderMatcher(Marker, blocks), 0, runs, PlaceholdersOf(Marker, 0, |blocks|),
                 BlocksFrom(blocks, 0, |blocks|));
    BlocksFromSlice(blocks, 0);
    assert blocks[0..] == blocks;
  }

  /** Numbered from `from` to the end, the replacements are the regions themselves. */
  lemma {:induction false} BlocksFromSlice(blocks: seq<string>, from: nat)
    requires from <= |blocks|
    ensures BlocksFrom(blocks, from, |blocks| - from) == blocks[from..]
    decreases |blocks| - from
  {
    if from < |blocks| {
      BlocksFromSlice(blocks, from + 1);
      assert blocks[from..] == [blocks[from]] + blocks[from + 1..];
    }
  }

  /** Code is never converted: if the emoji converter rewrites only the text between
      placeholders, into text free of the marker, the result is the rewritten text with
      every code region back in place, unchanged. */
  lemma CodeRegionsKept(html: string, emojify: string -> string, converted: seq<string>)
    requires |converted| == |CodeBlocks(html)| + 1
    requires emojify(ProtectedFrom(html, 0, 0)) == Weave(converted, PlaceholdersOf(Marker, 0, |CodeBlocks(html)|))
    requires forall k :: 0 <= k < |converted| ==> Free(converted[k], Marker)
    ensures Restore(emojify(ProtectedFrom(html, 0, 0)), CodeBlocks(html)) == Weave(converted, CodeBlocks(html))
  {
    RestoreWeave(converted, CodeBlocks(html));
  }

  /** With a converter that changes nothing, `convertEmoji` changes nothing, provided
      the text holds no marker of its own. */
  lemma NothingToConvert(html: string)
    requires Free(html, Marker)
    ensures Restore(ProtectedFrom(html, 0, 0), CodeBlocks(html)) == html
  {
    var l := LayoutFrom(html, 0);
    LayoutWeaves(html, 0);
    assert html[0..] == html;
    WeavePiecesFree(l.runs, l.blocks, Marker);
    RestoreWeave(l.runs, l.blocks);
  }

  /** Each run of a woven text is a piece of it, so it is free of the marker when the
      whole text is. */
  lemma {:induction false} WeavePiecesFree(runs: seq<string>, fillers: seq<string>, marker: string)
    requires |runs| == |fillers| + 1
    requires Free(Weave(runs, fillers), marker)
    ensures forall k :: 0 <= k < |runs| ==> Free(runs[k], marker)
    decreases |fillers|
  {
    if |fillers| > 0 {
      var rest := Weave(runs[1..], fillers[1..]);
      var w := runs[0] + fillers[0] + rest;
      FreePrefix(w, |runs[0]|, marker);
      assert w[..|runs[0]|] == runs[0];
      FreeSuffix(w, |runs[0]| + |fillers[0]|, marker);
      assert w[|runs[0]| + |fillers[0]|..] == rest;
      WeavePiecesFree(runs[1..], fillers[1..], marker);
      forall k | 0 <= k < |runs|
        ensures Free(runs[k], marker)
      {
        if k > 0 {
          assert runs[k] == runs[1..][k - 1];
        }
      }
    }
  }

  lemma FreeSuffix(t: string, k: nat, marker: string)
    requires k <= |t| && Free(t, marker)
    ensures Free(t[k..], marker)
  {
    forall p: nat
      ensures !OccursAt(t[k..], marker, p)
    {
      assert !OccursAt(t, marker, k + p);
      if p + |marker| <= |t| - k {
        assert t[k..][p..p + |marker|] == t[k + p..k + p + |marker|];
      }
    }
  }

  lemma FreePrefix(t: string, k: nat, marker: string)
    requires k <= |t| && Free(t, marker)
    ensures Free(t[..k], marker)
  {
    forall p: nat
      ensures !OccursAt(t[..k], marker, p)
    {
      assert !OccursAt(t, marker, p);
      if p + |marker| <= k {
        assert t[..k][p..p + |marker|] == t[p..p + |marker|];
      }
    }
  }
}
