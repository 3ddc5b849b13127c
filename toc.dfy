/**
 * The table of contents (src/markdown.ts `generateTocHtml`): one link per recorded
 * heading, in nested lists that follow the heading levels. The markup is described as
 * a sequence of tags (open a list, close a list, one entry) so that its nesting can be
 * stated; `Render` spells the tags out.
 */
module Toc {
  import opened Text
  import opened Html
  import opened Headings

  const NavOpen: string := "<nav class=\"toc\"><details><summary>目次</summary><ul>"
  const NavClose: string := "</details></nav>"

  datatype Tag = Open | Close | Entry(item: TocItem)

  function TagHtml(t: Tag): string {
    match t
    case Open => "<ul>"
    case Close => "</ul>"
    case Entry(item) => EntryHtml(item)
  }

  /** One entry: a link to the heading's id, with the heading's text escaped. */
  function EntryHtml(item: TocItem): string {
    "<li><a href=\"#" + item.id + "\">" + EscapeHtml(item.text) + "</a></li>"
  }

  /** The lists opened or closed before an entry of level `level` after one of `prev`. */
  function LeadHtml(level: nat, prev: nat): string {
    if level > prev then Repeat("<ul>", level - prev)
    else if level < prev then Repeat("</ul>", prev - level)
    else ""
  }

  function Render(tags: seq<Tag>): string {
    if |tags| == 0 then "" else TagHtml(tags[0]) + Render(tags[1..])
  }

  function Opens(n: nat): seq<Tag> {
    if n == 0 then [] else [Open] + Opens(n - 1)
  }

  function Closes(n: nat): seq<Tag> {
    if n == 0 then [] else [Close] + Closes(n - 1)
  }

  predicate Leveled(items: seq<TocItem>) {
    forall k :: 0 <= k < |items| ==> items[k].level >= 1
  }

  /** The lists opened or closed before an entry of level `level` after one of `prev`. */
  function LeadTags(level: nat, prev: nat): seq<Tag> {
    if level > prev then Opens(level - prev)
    else if level < prev then Closes(prev - level)
    else []
  }

  /** The tags one item adds when the previous level was `prev`. */
  function StepTags(item: TocItem, prev: nat): seq<Tag> {
    LeadTags(item.level, prev) + [Entry(item)]
  }

  /** The tags after the opening `<ul>`, for the items still to come. */
  function TocTags(items: seq<TocItem>, prev: nat): seq<Tag>
    requires prev >= 1 && Leveled(items)
  {
    if |items| == 0 then Closes(prev - 1)
    else StepTags(items[0], prev) + TocTags(items[1..], items[0].level)
  }

  /** The table of contents for a list of entries, empty for no entries. */
  function TocHtml(items: seq<TocItem>): (r: string)
    requires Leveled(items)
    ensures (r == "") <==> (|items| == 0)
  {
    if |items| == 0 then "" else NavOpen + Render(TocTags(items, 2)) + NavClose
  }

  /** `generateTocHtml(items)`. The levels are heading depths, at least 1 (a level of 0
      would make `repeat` fail with a negative count). */
  method GenerateTocHtml(items: seq<TocItem>) returns (html: string)
    requires Leveled(items)
    ensures html == TocHtml(items)
  {
    if |items| == 0 {
      return "";
    }
    html := NavOpen;
    var prevLevel: nat := 2;
    ghost var body := Render(TocTags(items, 2));
    assert items[0..] == items;
    for i := 0 to |items|
      invariant prevLevel >= 1
      invariant html + Render(TocTags(items[i..], prevLevel)) == NavOpen + body
    {
      var item := items[i];
      ghost var before := html;
      ghost var lead := LeadHtml(item.level, prevLevel);
      if item.level > prevLevel {
        html := html + Repeat("<ul>", item.level - prevLevel);
      } else if item.level < prevLevel {
        html := html + Repeat("</ul>", prevLevel - item.level);
      } else {
        assert before + lead == before;
      }
      html := html + EntryHtml(item);
      TocLoopStep(items, i, prevLevel, before, NavOpen + body);
      prevLevel := item.level;
    }
    assert items[|items|..] == [];
    RenderCloses(prevLevel - 1);
    html := html + Repeat("</ul>", prevLevel - 1);
    html := html + NavClose;
  }

  /** One turn of the loop: the markup still to come is the lead for the next item, its
      entry, and the markup for the items after it. */
  lemma TocStep(items: seq<TocItem>, i: nat, prev: nat)
    requires prev >= 1 && Leveled(items) && i < |items|
    ensures Render(TocTags(items[i..], prev)) ==
              LeadHtml(items[i].level, prev) + EntryHtml(items[i])
              + Render(TocTags(items[i + 1..], items[i].level))
  {
    var item := items[i];
    var rest := TocTags(items[i + 1..], item.level);
    assert items[i..][1..] == items[i + 1..];
    assert TocTags(items[i..], prev) == StepTags(item, prev) + rest;
    RenderConcat(StepTags(item, prev), rest);
    RenderConcat(LeadTags(item.level, prev), [Entry(item)]);
    RenderLead(item.level, prev);
    assert [Entry(item)][1..] == [];
    assert Render([Entry(item)]) == EntryHtml(item);
  }

  lemma RenderLead(level: nat, prev: nat)
    ensures Render(LeadTags(level, prev)) == LeadHtml(level, prev)
  {
    if level > prev {
      RenderOpens(level - prev);
    } else if level < prev {
      RenderCloses(prev - level);
    }
  }

  /** The loop's invariant carries over one item. */
  lemma TocLoopStep(items: seq<TocItem>, i: nat, prev: nat, before: string, goal: string)
    requires prev >= 1 && Leveled(items) && i < |items|
    requires before + Render(TocTags(items[i..], prev)) == goal
    ensures before + LeadHtml(items[i].level, prev) + EntryHtml(items[i])
            + Render(TocTags(items[i + 1..], items[i].level)) == goal
  {
    TocStep(items, i, prev);
    Regroup(before, LeadHtml(items[i].level, prev), EntryHtml(items[i]),
            Render(TocTags(items[i + 1..], items[i].level)));
  }

  lemma Regroup(a: string, b: string, c: string, d: string)
    ensures a + b + c + d == a + (b + c + d)
  {
  }

  /** `s.repeat(n)` */
  function Repeat(s: string, n: nat): string {
    if n == 0 then "" else s + Repeat(s, n - 1)
  }

  lemma {:induction false} RenderConcat(a: seq<Tag>, b: seq<Tag>)
    ensures Render(a + b) == Render(a) + Render(b)
    decreases |a|
  {
    if |a| == 0 {
      assert a + b == b;
    } else {
      assert (a + b)[1..] == a[1..] + b;
      RenderConcat(a[1..], b);
    }
  }

  lemma {:induction false} RenderOpens(n: nat)
    ensures Render(Opens(n)) == Repeat("<ul>", n)
  {
    if n > 0 {
      assert Opens(n)[1..] == Opens(n - 1);
      RenderOpens(n - 1);
    }
  }

  lemma {:induction false} RenderCloses(n: nat)
    ensures Render(Closes(n)) == Repeat("</ul>", n)
  {
    if n > 0 {
      assert Closes(n)[1..] == Closes(n - 1);
      RenderCloses(n - 1);
    }
  }

  // ---------------------------------------------------------------------------
  // properties of the tag sequence

  /** Read left to right from `open` open lists, the tags never close a list that is
      not open, each entry stands inside exactly `level - 1` open lists, and at the end
      every list is closed. */
  predicate WellNested(tags: seq<Tag>, open: nat) {
    if |tags| == 0 then open == 0
    else match tags[0]
      case Open => WellNested(tags[1..], open + 1)
      case Close => open >= 1 && WellNested(tags[1..], open - 1)
      case Entry(item) => open == item.level - 1 && WellNested(tags[1..], open)
  }

  /** The items the tags list, in order. */
  function Entries(tags: seq<Tag>): seq<TocItem> {
    if |tags| == 0 then []
    else match tags[0]
      case Entry(item) => [item] + Entries(tags[1..])
      case _ => Entries(tags[1..])
  }

  /** The table of contents is well nested: counting the list `NavOpen` opens, each
      entry sits at depth `level - 1` and the lists all close. */
  lemma {:induction false} TocWellNested(items: seq<TocItem>, prev: nat)
    requires prev >= 1 && Leveled(items)
    ensures WellNested(TocTags(items, prev), prev - 1)
    decreases |items|
  {
    if |items| == 0 {
      ClosesNested([], prev - 1, 0);
      assert Closes(prev - 1) + [] == Closes(prev - 1);
    } else {
      TocWellNested(items[1..], items[0].level);
      StepNested(items[0], TocTags(items[1..], items[0].level), prev);
      assert TocTags(items, prev) == StepTags(items[0], prev) + TocTags(items[1..], items[0].level);
    }
  }

  lemma StepNested(item: TocItem, rest: seq<Tag>, prev: nat)
    requires item.level >= 1 && prev >= 1 && WellNested(rest, item.level - 1)
    ensures WellNested(StepTags(item, prev) + rest, prev - 1)
  {
    assert ([Entry(item)] + rest)[1..] == rest;
    LeadNested([Entry(item)] + rest, item.level, prev);
    assert StepTags(item, prev) + rest == LeadTags(item.level, prev) + ([Entry(item)] + rest);
  }

  lemma LeadNested(tags: seq<Tag>, level: nat, prev: nat)
    requires level >= 1 && prev >= 1 && WellNested(tags, level - 1)
    ensures WellNested(LeadTags(level, prev) + tags, prev - 1)
  {
    if level > prev {
      OpensNested(tags, level - prev, prev - 1);
    } else if level < prev {
      ClosesNested(tags, prev - level, level - 1);
    } else {
      assert LeadTags(level, prev) + tags == tags;
    }
  }

  lemma {:induction false} OpensNested(tags: seq<Tag>, n: nat, open: nat)
    requires WellNested(tags, open + n)
    ensures WellNested(Opens(n) + tags, open)
    decreases n
  {
    if n > 0 {
      OpensNested(tags, n - 1, open + 1);
      assert (Opens(n) + tags)[1..] == Opens(n - 1) + tags;
    } else {
      assert Opens(n) + tags == tags;
    }
  }

  lemma {:induction false} ClosesNested(tags: seq<Tag>, n: nat, open: nat)
    requires WellNested(tags, open)
    ensures WellNested(Closes(n) + tags, open + n)
    decreases n
  {
    if n > 0 {
      ClosesNested(tags, n - 1, open);
      assert (Closes(n) + tags)[1..] == Closes(n - 1) + tags;
    } else {
      assert Closes(n) + tags == tags;
    }
  }

  /** The table of contents lists every item once, in the order given. */
  lemma {:induction false} TocListsItems(items: seq<TocItem>, prev: nat)
    requires prev >= 1 && Leveled(items)
    ensures Entries(TocTags(items, prev)) == items
    decreases |items|
  {
    if |items| == 0 {
      ClosesNoEntries(prev - 1);
    } else {
      TocListsItems(items[1..], items[0].level);
      StepEntries(items[0], TocTags(items[1..], items[0].level), prev);
      assert TocTags(items, prev) == StepTags(items[0], prev) + TocTags(items[1..], items[0].level);
      assert [items[0]] + items[1..] == items;
    }
  }

  lemma StepEntries(item: TocItem, rest: seq<Tag>, prev: nat)
    ensures Entries(StepTags(item, prev) + rest) == [item] + Entries(rest)
  {
    LeadNoEntries(item.level, prev);
    EntriesConcat(LeadTags(item.level, prev), [Entry(item)] + rest);
    assert ([Entry(item)] + rest)[1..] == rest;
    assert StepTags(item, prev) + rest == LeadTags(item.level, prev) + ([Entry(item)] + rest);
  }

  lemma {:induction false} OpensNoEntries(n: nat)
    ensures Entries(Opens(n)) == []
  {
    if n > 0 {
      assert Opens(n)[1..] == Opens(n - 1);
      OpensNoEntries(n - 1);
    }
  }

  lemma {:induction false} ClosesNoEntries(n: nat)
    ensures Entries(Closes(n)) == []
  {
    if n > 0 {
      assert Closes(n)[1..] == Closes(n - 1);
      ClosesNoEntries(n - 1);
    }
  }

  lemma LeadNoEntries(level: nat, prev: nat)
    ensures Entries(LeadTags(level, prev)) == []
  {
    if level > prev {
      OpensNoEntries(level - prev);
    } else if level < prev {
      ClosesNoEntries(prev - level);
    }
  }

  lemma {:induction false} EntriesConcat(a: seq<Tag>, b: seq<Tag>)
    ensures Entries(a + b) == Entries(a) + Entries(b)
    decreases |a|
  {
    if |a| == 0 {
      assert a + b == b;
    } else {
      assert (a + b)[1..] == a[1..] + b;
      EntriesConcat(a[1..], b);
    }
  }
}
