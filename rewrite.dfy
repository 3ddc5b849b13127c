/**
 * `String.prototype.replace` with a global regular expression, for patterns that
 * cannot match the empty string: the pattern is tried at each index from the left;
 * a match is replaced and scanning resumes where it ended, otherwise the character
 * is kept and scanning moves on by one. A pattern is given as a matcher: a total
 * function that tries it at one index of the whole string (so that anchors can see
 * the string's ends) and gives where the match ends and what replaces it.
 */
module Rewrite {
  import opened Wrappers
  import opened Text

  datatype Match = Match(end: nat, replacement: string)

  type Matcher = (string, nat) -> Option<Match>

  /** The matcher finds a usable match at `i`: one that consumes at least one character. */
  predicate MatchesAt(s: string, m: Matcher, i: nat) {
    m(s, i).Some? && i < m(s, i).value.end <= |s|
  }

  function ReplaceFrom(s: string, m: Matcher, i: nat): string
    decreases |s| - i
  {
    if i >= |s| then ""
    else if MatchesAt(s, m, i) then m(s, i).value.replacement + ReplaceFrom(s, m, m(s, i).value.end)
    else [s[i]] + ReplaceFrom(s, m, i + 1)
  }

  /** `s.replace(/pattern/g, replacer)`; where the pattern matches nowhere, the text is
      kept as it is. */
  function ReplaceAll(s: string, m: Matcher): (r: string)
    ensures (forall j :: 0 <= j < |s| ==> !MatchesAt(s, m, j)) ==> r == s
  {
    NoMatchAnywhere(s, m);
    ReplaceFrom(s, m, 0)
  }

  lemma NoMatchAnywhere(s: string, m: Matcher)
    ensures (forall j :: 0 <= j < |s| ==> !MatchesAt(s, m, j)) ==> ReplaceFrom(s, m, 0) == s
  {
    if forall j :: 0 <= j < |s| ==> !MatchesAt(s, m, j) {
      NoMatchKeeps(s, m, 0);
      assert s[0..] == s;
    }
  }

  /** Where the pattern matches nowhere, the text is kept as it is. */
  lemma {:induction false} NoMatchKeeps(s: string, m: Matcher, i: nat)
    requires i <= |s|
    requires forall j :: i <= j < |s| ==> !MatchesAt(s, m, j)
    ensures ReplaceFrom(s, m, i) == s[i..]
    decreases |s| - i
  {
    if i < |s| {
      NoMatchKeeps(s, m, i + 1);
      assert [s[i]] + s[i + 1..] == s[i..];
    }
  }

  /** A stretch where the pattern matches nowhere is copied as it is. */
  lemma {:induction false} SkipUnmatched(s: string, m: Matcher, i: nat, j: nat)
    requires i <= j <= |s|
    requires forall p :: i <= p < j ==> !MatchesAt(s, m, p)
    ensures ReplaceFrom(s, m, i) == s[i..j] + ReplaceFrom(s, m, j)
    decreases j - i
  {
    if i < j {
      SkipUnmatched(s, m, i + 1, j);
      calc {
        ReplaceFrom(s, m, i);
        [s[i]] + ReplaceFrom(s, m, i + 1);
        [s[i]] + (s[i + 1..j] + ReplaceFrom(s, m, j));
        { assert [s[i]] + s[i + 1..j] == s[i..j]; }
        s[i..j] + ReplaceFrom(s, m, j);
      }
    } else {
      assert s[i..j] == [];
    }
  }

  /** At a match, its replacement is emitted and scanning resumes where it ended. */
  lemma ReplaceAtMatch(s: string, m: Matcher, i: nat)
    requires MatchesAt(s, m, i)
    ensures ReplaceFrom(s, m, i) == m(s, i).value.replacement + ReplaceFrom(s, m, m(s, i).value.end)
  {
  }

  /** `runs[0] + fillers[0] + runs[1] + … + runs[n]` */
  function Weave(runs: seq<string>, fillers: seq<string>): string
    requires |runs| == |fillers| + 1
  {
    if |fillers| == 0 then runs[0]
    else runs[0] + fillers[0] + Weave(runs[1..], fillers[1..])
  }

  /** Read from `pos`, `s` is woven from `runs` and `fillers`; the pattern matches
      nowhere inside a run, and matches each filler whole, replacing it by its
      counterpart in `reps`. */
  ghost predicate MatchesWoven(s: string, m: Matcher, pos: nat, runs: seq<string>,
                               fillers: seq<string>, reps: seq<string>)
    decreases |runs|
  {
    && |runs| == |fillers| + 1 && |reps| == |fillers|
    && pos + |runs[0]| <= |s| && s[pos..pos + |runs[0]|] == runs[0]
    && (forall p :: pos <= p < pos + |runs[0]| ==> !MatchesAt(s, m, p))
    && if |fillers| == 0 then pos + |runs[0]| == |s|
       else
         var q := pos + |runs[0]|;
         && MatchesAt(s, m, q) && m(s, q).value == Match(q + |fillers[0]|, reps[0])
         && MatchesWoven(s, m, q + |fillers[0]|, runs[1..], fillers[1..], reps[1..])
  }

  /** A run that reaches the end of the text is a woven text on its own. */
  lemma WovenLast(s: string, m: Matcher, pos: nat, run: string)
    requires pos + |run| == |s| && s[pos..] == run
    requires forall p :: pos <= p < pos + |run| ==> !MatchesAt(s, m, p)
    ensures MatchesWoven(s, m, pos, [run], [], [])
  {
    assert [run][0] == run;
  }

  /** A run, a filler matched whole, then a woven text, make a woven text. */
  lemma WovenCons(s: string, m: Matcher, pos: nat, run: string, filler: string, rep: string,
                  runs: seq<string>, fillers: seq<string>, reps: seq<string>)
    requires pos + |run| <= |s| && s[pos..pos + |run|] == run
    requires forall p :: pos <= p < pos + |run| ==> !MatchesAt(s, m, p)
    requires MatchesAt(s, m, pos + |run|)
    requires m(s, pos + |run|).value == Match(pos + |run| + |filler|, rep)
    requires MatchesWoven(s, m, pos + |run| + |filler|, runs, fillers, reps)
    ensures MatchesWoven(s, m, pos, [run] + runs, [filler] + fillers, [rep] + reps)
  {
    assert ([run] + runs)[1..] == runs;
    assert ([filler] + fillers)[1..] == fillers;
    assert ([rep] + reps)[1..] == reps;
  }

  /** Replacing in a woven text keeps the runs and swaps each filler for its
      replacement. */
  lemma {:induction false} ReplaceWoven(s: string, m: Matcher, pos: nat, runs: seq<string>,
                                        fillers: seq<string>, reps: seq<string>)
    requires MatchesWoven(s, m, pos, runs, fillers, reps)
    ensures ReplaceFrom(s, m, pos) == Weave(runs, reps)
    decreases |runs|
  {
    var q := pos + |runs[0]|;
    SkipUnmatched(s, m, pos, q);
    if |fillers| == 0 {
      calc {
        ReplaceFrom(s, m, pos);
        runs[0] + ReplaceFrom(s, m, q);
        runs[0] + [];
        runs[0];
      }
    } else {
      var rest := Weave(runs[1..], reps[1..]);
      ReplaceAtMatch(s, m, q);
      ReplaceWoven(s, m, q + |fillers[0]|, runs[1..], fillers[1..], reps[1..]);
      calc {
        ReplaceFrom(s, m, pos);
        runs[0] + ReplaceFrom(s, m, q);
        runs[0] + (reps[0] + rest);
        runs[0] + reps[0] + rest;
      }
    }
  }

  /** A pattern whose matches are all deleted only ever removes characters. */
  lemma {:induction false} DeletionKeepsChars(s: string, m: Matcher, i: nat)
    requires forall j :: MatchesAt(s, m, j) ==> m(s, j).value.replacement == []
    ensures forall ch :: ch in ReplaceFrom(s, m, i) ==> ch in s
    decreases |s| - i
  {
    if i < |s| {
      if MatchesAt(s, m, i) {
        DeletionKeepsChars(s, m, m(s, i).value.end);
      } else {
        DeletionKeepsChars(s, m, i + 1);
      }
    }
  }

  // ---------------------------------------------------------------------------
  // scanners: the index a lazy or greedy sub-pattern stops at

  /** The first index at or after `p` holding `c` (what `[^c]*c` consumes up to). */
  function ScanChar(s: string, p: nat, c: char): (r: Option<nat>)
    ensures r.Some? ==> p <= r.value < |s| && s[r.value] == c
    ensures r.Some? ==> forall q :: p <= q < r.value ==> s[q] != c
    ensures r.None? ==> forall q :: p <= q < |s| ==> s[q] != c
    decreases |s| - p
  {
    if p >= |s| then None
    else if s[p] == c then Some(p)
    else ScanChar(s, p + 1, c)
  }

  /** As `ScanChar`, but giving up at a line terminator (what `.*?c` consumes up to). */
  function ScanCharOnLine(s: string, p: nat, c: char): (r: Option<nat>)
    requires !IsLineTerminator(c)
    ensures r.Some? ==> p <= r.value < |s| && s[r.value] == c
    ensures r.Some? ==> forall q :: p <= q < r.value ==> s[q] != c && !IsLineTerminator(s[q])
    decreases |s| - p
  {
    if p >= |s| then None
    else if s[p] == c then Some(p)
    else if IsLineTerminator(s[p]) then None
    else ScanCharOnLine(s, p + 1, c)
  }

  /** The first index at or after `p` where `lit` occurs (what `[\s\S]*?lit` consumes up to). */
  function ScanLit(s: string, p: nat, lit: string): (r: Option<nat>)
    ensures r.Some? ==> p <= r.value && OccursAt(s, lit, r.value)
    ensures r.Some? ==> forall q :: p <= q < r.value ==> !OccursAt(s, lit, q)
    ensures r.None? ==> forall q :: p <= q ==> !OccursAt(s, lit, q)
    decreases |s| - p
  {
    if p + |lit| > |s| then None
    else if OccursAt(s, lit, p) then Some(p)
    else ScanLit(s, p + 1, lit)
  }

  /** As `ScanLit`, giving up at a line terminator (what `.*?lit` consumes up to). */
  function ScanLitOnLine(s: string, p: nat, lit: string): (r: Option<nat>)
    requires |lit| > 0 && !IsLineTerminator(lit[0])
    ensures r.Some? ==> p <= r.value && OccursAt(s, lit, r.value)
    ensures r.Some? ==> forall q :: p <= q < r.value ==> !IsLineTerminator(s[q])
    decreases |s| - p
  {
    if p + |lit| > |s| then None
    else if OccursAt(s, lit, p) then Some(p)
    else if IsLineTerminator(s[p]) then None
    else ScanLitOnLine(s, p + 1, lit)
  }

  /** The index just past the run of characters satisfying `P` that starts at `p` (a greedy `P*`). */
  function RunEnd(s: string, p: nat, P: char -> bool): (r: nat)
    ensures p <= r && (p <= |s| ==> r <= |s|)
    ensures r < |s| ==> !P(s[r])
    decreases |s| - p
  {
    if p < |s| && P(s[p]) then RunEnd(s, p + 1, P) else p
  }

  /** Every character of the run satisfies `P`. */
  lemma {:induction false} RunEndSpan(s: string, p: nat, P: char -> bool)
    ensures forall q :: p <= q < RunEnd(s, p, P) ==> q < |s| && P(s[q])
    decreases |s| - p
  {
    if p < |s| && P(s[p]) {
      assert RunEnd(s, p, P) == RunEnd(s, p + 1, P);
      RunEndSpan(s, p + 1, P);
    } else {
      assert RunEnd(s, p, P) == p;
    }
  }

  /** Over a stretch whose characters all satisfy `P`, followed by the end or by one
      that does not, the run stops exactly at the stretch's end. */
  lemma {:induction false} RunEndExact(s: string, p: nat, P: char -> bool, t: string)
    requires OccursAt(s, t, p)
    requires forall k :: 0 <= k < |t| ==> P(t[k])
    requires p + |t| == |s| || !P(s[p + |t|])
    ensures RunEnd(s, p, P) == p + |t|
    decreases |t|
  {
    if |t| > 0 {
      assert s[p] == t[0];
      assert OccursAt(s, t[1..], p + 1) by {
        assert s[p + 1..p + |t|] == s[p..p + |t|][1..];
      }
      RunEndExact(s, p + 1, P, t[1..]);
    }
  }

  /** As `RunEndExact`, for a character scan: the first `c` after a stretch without one. */
  lemma {:induction false} ScanCharExact(s: string, p: nat, c: char, t: string)
    requires OccursAt(s, t, p) && c !in t
    requires p + |t| < |s| && s[p + |t|] == c
    ensures ScanChar(s, p, c) == Some(p + |t|)
    decreases |t|
  {
    if |t| > 0 {
      assert s[p] == t[0];
      assert OccursAt(s, t[1..], p + 1) by {
        assert s[p + 1..p + |t|] == s[p..p + |t|][1..];
      }
      ScanCharExact(s, p + 1, c, t[1..]);
    }
  }

  /** `ScanCharExact` with the index of the character passed in. */
  lemma ScanCharAt(s: string, p: nat, q: nat, c: char, t: string)
    requires q == p + |t| && OccursAt(s, t, p) && c !in t
    requires q < |s| && s[q] == c
    ensures ScanChar(s, p, c) == Some(q)
  {
    ScanCharExact(s, p, c, t);
  }

  /** A concatenation occurs where its two parts occur one after the other. */
  lemma OccursSplit(s: string, a: string, b: string, p: nat)
    requires OccursAt(s, a + b, p)
    ensures OccursAt(s, a, p) && OccursAt(s, b, p + |a|)
  {
    assert s[p..p + |a|] == (a + b)[..|a|];
    assert s[p + |a|..p + |a| + |b|] == (a + b)[|a|..];
  }

  /** `OccursSplit` with the second part's position `q` passed in. */
  lemma OccursSplitAt(s: string, a: string, b: string, p: nat, q: nat)
    requires q == p + |a| && OccursAt(s, a + b, p)
    ensures OccursAt(s, a, p) && OccursAt(s, b, q)
  {
    OccursSplit(s, a, b, p);
  }
}
