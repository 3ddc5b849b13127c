/**
 * Heading anchors (src/markdown.ts `generateId` and the renderer's heading hook): a
 * heading's text becomes a slug, and the hook, which keeps the table-of-contents
 * entries and a counter per id, numbers repeated ids.
 */
module Headings {
  import opened Text

  /** The characters `generateId` keeps: `\w`, hiragana, katakana, the CJK unified
      ideographs, white space and `-`. */
  predicate IdChar(c: char) {
    || IsWordChar(c)
    || ('぀' <= c <= 'ゟ') || ('゠' <= c <= 'ヿ') || ('一' <= c <= '鿿')
    || IsSpace(c) || c == '-'
  }

  predicate NotIdChar(c: char) { !IdChar(c) }

  predicate IsDash(c: char) { c == '-' }

  /** A character an id can hold: a kept character that is neither white space nor an
      upper-case letter. */
  predicate SlugChar(c: char) {
    IdChar(c) && !IsSpace(c) && !IsAsciiUpper(c)
  }

  /** What an id looks like: slug characters only, no `--`, no `-` at either end. */
  predicate IsSlug(s: string) {
    && AllSlugChars(s)
    && (forall i :: 0 <= i < |s| - 1 ==> !(s[i] == '-' && s[i + 1] == '-'))
    && (s == [] || (s[0] != '-' && s[|s| - 1] != '-'))
  }

  /** `generateId(text)`: lower-case, drop what is not kept, white-space runs become
      `-`, `-` runs become one `-`, then one `-` goes from each end. */
  function GenerateId(text: string): (r: string)
    ensures IsSlug(r)
  {
    var lower := ToLowerAscii(text);
    var kept := RemoveAll(lower, NotIdChar);
    var spaced := CollapseRuns(kept, IsSpace, '-');
    var dashed := CollapseRuns(spaced, IsDash, '-');
    var r := StripOne(dashed, IsDash);
    KeptShape(text);
    DashedShape(kept);
    SlugSlice(dashed, StripFrom(dashed, IsDash), |r|);
    r
  }

  predicate AllSlugChars(s: string) {
    forall i :: 0 <= i < |s| ==> SlugChar(s[i])
  }

  /** After lower-casing and filtering, every character is kept and none is upper-case. */
  lemma KeptShape(text: string)
    ensures var kept := RemoveAll(ToLowerAscii(text), NotIdChar);
      forall i :: 0 <= i < |kept| ==> IdChar(kept[i]) && !IsAsciiUpper(kept[i])
  {
    var lower := ToLowerAscii(text);
    var kept := RemoveAll(lower, NotIdChar);
    forall i | 0 <= i < |lower|
      ensures !IsAsciiUpper(lower[i])
    {
      LowerCharShape(text[i]);
    }
    forall i | 0 <= i < |kept|
      ensures IdChar(kept[i]) && !IsAsciiUpper(kept[i])
    {
      assert kept[i] in lower;
    }
  }

  /** The two run collapses leave only slug characters, with no `-` next to another. */
  lemma DashedShape(kept: string)
    requires forall i :: 0 <= i < |kept| ==> IdChar(kept[i]) && !IsAsciiUpper(kept[i])
    ensures var dashed := CollapseRuns(CollapseRuns(kept, IsSpace, '-'), IsDash, '-');
      && AllSlugChars(dashed)
      && (forall i :: 0 <= i < |dashed| - 1 ==> !(IsDash(dashed[i]) && IsDash(dashed[i + 1])))
  {
    var spaced := CollapseRuns(kept, IsSpace, '-');
    var dashed := CollapseRuns(spaced, IsDash, '-');
    CollapseRunsShape(kept, IsSpace, '-');
    CollapseRunsShape(spaced, IsDash, '-');
    forall i | 0 <= i < |spaced|
      ensures SlugChar(spaced[i])
    {
      if spaced[i] != '-' {
        assert spaced[i] in kept;
      }
    }
    forall i | 0 <= i < |dashed|
      ensures SlugChar(dashed[i])
    {
      if dashed[i] != '-' {
        assert dashed[i] in spaced;
      }
    }
  }

  lemma SlugSlice(s: string, a: nat, n: nat)
    requires a + n <= |s|
    requires AllSlugChars(s)
    requires forall i :: 0 <= i < |s| - 1 ==> !(IsDash(s[i]) && IsDash(s[i + 1]))
    ensures var t := s[a..a + n];
      && AllSlugChars(t)
      && (forall i :: 0 <= i < |t| - 1 ==> !(t[i] == '-' && t[i + 1] == '-'))
  {
    var t := s[a..a + n];
    forall i | 0 <= i < |t| - 1
      ensures !(t[i] == '-' && t[i + 1] == '-')
    {
      assert t[i] == s[a + i] && t[i + 1] == s[a + i + 1];
    }
  }

  /** An id is its own id: `generateId` leaves a slug unchanged, so the anchor of a
      heading whose text already is an id is that text. */
  lemma GenerateIdFixesSlugs(s: string)
    requires IsSlug(s)
    ensures GenerateId(s) == s
  {
    forall i | 0 <= i < |s|
      ensures LowerChar(s[i]) == s[i]
    {
      LowerCharShape(s[i]);
    }
    var lower := ToLowerAscii(s);
    assert lower == s;
    RemoveAllNone(s, NotIdChar);
    CollapseRunsFixed(s, IsSpace, '-');
    CollapseRunsFixed(s, IsDash, '-');
  }

  /** `generateId` is idempotent. */
  lemma GenerateIdIdempotent(text: string)
    ensures GenerateId(GenerateId(text)) == GenerateId(text)
  {
    GenerateIdFixesSlugs(GenerateId(text));
  }

  // ---------------------------------------------------------------------------
  // the heading hook

  /** One table-of-contents entry. */
  datatype TocItem = TocItem(level: nat, text: string, id: string)

  /** Whether a heading of this depth gets an id and a table-of-contents entry. */
  predicate InToc(depth: nat) {
    depth == 2 || depth == 3
  }

  /** How often an id has been handed out so far, by the counter map (`get(id) || 0`). */
  function SeenCount(headingIds: map<string, nat>, id: string): nat {
    if id in headingIds then headingIds[id] else 0
  }

  /** The id a depth-2 or depth-3 heading gets: its slug, suffixed with the counter
      when the slug has been seen before. */
  function AnchorFor(headingIds: map<string, nat>, text: string): (id: string)
    ensures SeenCount(headingIds, GenerateId(text)) == 0 ==> id == GenerateId(text)
    ensures SeenCount(headingIds, GenerateId(text)) > 0 ==>
              id == GenerateId(text) + "-" + NatToString(SeenCount(headingIds, GenerateId(text)))
  {
    var base := GenerateId(text);
    var count := SeenCount(headingIds, base);
    if count > 0 then base + "-" + NatToString(count) else base
  }

  /** The state the hook keeps: the entries so far, in document order, and the counter
      map. */
  datatype HookState = HookState(tocItems: seq<TocItem>, headingIds: map<string, nat>)

  /** The hook's effect on its state. The counter is stored under the id handed out,
      which for a repeated heading is the suffixed id, not the slug. */
  function HeadingState(st: HookState, text: string, depth: nat): (r: HookState)
    ensures InToc(depth) ==>
              && |r.tocItems| == |st.tocItems| + 1
              && r.tocItems[..|st.tocItems|] == st.tocItems
              && r.tocItems[|st.tocItems|] == TocItem(depth, text, AnchorFor(st.headingIds, text))
    ensures !InToc(depth) ==> r == st
  {
    if InToc(depth) then
      var base := GenerateId(text);
      var count := SeenCount(st.headingIds, base);
      var id := AnchorFor(st.headingIds, text);
      var r := HookState(st.tocItems + [TocItem(depth, text, id)], st.headingIds[id := count + 1]);
      assert r.tocItems[..|st.tocItems|] == st.tocItems;
      r
    else st
  }

  /** The state after a depth-2 or depth-3 heading, given its slug's count and its id. */
  lemma HeadingRecords(st: HookState, text: string, depth: nat, count: nat, id: string)
    requires InToc(depth)
    requires count == SeenCount(st.headingIds, GenerateId(text)) && id == AnchorFor(st.headingIds, text)
    ensures HeadingState(st, text, depth)
            == HookState(st.tocItems + [TocItem(depth, text, id)], st.headingIds[id := count + 1])
  {
  }

  /** The markup the hook returns for a heading. */
  function HeadingHtml(st: HookState, text: string, depth: nat): string {
    var d := NatToString(depth);
    if InToc(depth) then
      "<h" + d + " id=\"" + AnchorFor(st.headingIds, text) + "\">" + text + "</h" + d + ">"
    else
      "<h" + d + ">" + text + "</h" + d + ">"
  }

  /** The counter map after a depth-2 or depth-3 heading: the id just handed out maps
      to one more than the slug's count, and every other entry is kept. */
  lemma HeadingCounts(st: HookState, text: string, depth: nat)
    requires InToc(depth)
    ensures var id := AnchorFor(st.headingIds, text);
      var ids := HeadingState(st, text, depth).headingIds;
      && id in ids && ids[id] == SeenCount(st.headingIds, GenerateId(text)) + 1
      && (forall k :: k in st.headingIds && k != id ==> k in ids && ids[k] == st.headingIds[k])
      && (forall k :: k in ids ==> k in st.headingIds || k == id)
  {
  }

  /** A heading seen for the first time keeps its slug; the same heading once more gets
      the slug with `-1`. */
  lemma RepeatedHeading(st: HookState, text: string, depth: nat)
    requires InToc(depth)
    requires GenerateId(text) !in st.headingIds
    ensures var first := HeadingState(st, text, depth);
      var second := HeadingState(first, text, depth);
      && first.tocItems[|st.tocItems|].id == GenerateId(text)
      && second.tocItems[|st.tocItems| + 1].id == GenerateId(text) + "-1"
  {
    var first := HeadingState(st, text, depth);
    assert SeenCount(first.headingIds, GenerateId(text)) == 1;
    assert NatToString(1) == "1";
  }

  /** Because the counter goes under the suffixed id, the slug's own count stays at 1:
      a third identical heading gets `-1` again, the same id as the second. */
  lemma ThirdHeadingRepeatsSecond(st: HookState, text: string, depth: nat)
    requires InToc(depth)
    requires GenerateId(text) !in st.headingIds
    ensures var first := HeadingState(st, text, depth);
      var second := HeadingState(first, text, depth);
      var third := HeadingState(second, text, depth);
      third.tocItems[|st.tocItems| + 2].id == second.tocItems[|st.tocItems| + 1].id == GenerateId(text) + "-1"
  {
    var base := GenerateId(text);
    var first := HeadingState(st, text, depth);
    var second := HeadingState(first, text, depth);
    RepeatedHeading(st, text, depth);
    assert NatToString(1) == "1";
    assert |base + "-1"| != |base|;
    assert SeenCount(second.headingIds, base) == 1;
  }

  /** The hook as the renderer holds it: the closure's `tocItems` array and `headingIds`
      map are this object's fields. */
  class HeadingHook {
    var tocItems: seq<TocItem>
    var headingIds: map<string, nat>

    constructor()
      ensures tocItems == [] && headingIds == map[]
    {
      tocItems := [];
      headingIds := map[];
    }

    function State(): HookState
      reads this
    {
      HookState(tocItems, headingIds)
    }

    /** `renderer.heading({text, depth})` */
    method Heading(text: string, depth: nat) returns (html: string)
      modifies this
      ensures State() == HeadingState(old(State()), text, depth)
      ensures html == HeadingHtml(old(State()), text, depth)
    {
      var d := NatToString(depth);
      if depth == 2 || depth == 3 {
        ghost var st := State();
        var id := GenerateId(text);
        var count := if id in headingIds then headingIds[id] else 0;
        assert count == SeenCount(st.headingIds, GenerateId(text));
        if count > 0 {
          id := id + "-" + NatToString(count);
        }
        assert id == AnchorFor(st.headingIds, text);
        headingIds := headingIds[id := count + 1];
        tocItems := tocItems + [TocItem(depth, text, id)];
        HeadingRecords(st, text, depth, count, id);
        return "<h" + d + " id=\"" + id + "\">" + text + "</h" + d + ">";
      }
      return "<h" + d + ">" + text + "</h" + d + ">";
    }
  }

  /** Every entry the hook records is a depth-2 or depth-3 heading. */
  lemma HeadingKeepsLevels(st: HookState, text: string, depth: nat)
    requires forall k :: 0 <= k < |st.tocItems| ==> InToc(st.tocItems[k].level)
    ensures var r := HeadingState(st, text, depth).tocItems;
      forall k :: 0 <= k < |r| ==> InToc(r[k].level)
  {
  }
}
