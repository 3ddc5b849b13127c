/**
 * The JavaScript string operations the site's code relies on, on strings of
 * characters: the `\s` class, `trim`, `split`/`join`, prefix tests, decimal
 * numerals, and the single-pass run and character replacements that several
 * `replace(/…/g, …)` calls amount to.
 */
module Text {

  /** JavaScript's `\s` (and what `String.prototype.trim` removes): WhiteSpace plus LineTerminator. */
  predicate IsSpace(c: char) {
    || c == '\t' || c == '\n' || c == '\U{000B}' || c == '\U{000C}' || c == '\r' || c == ' '
    || c == '\U{00A0}' || c == '\U{1680}' || ('\U{2000}' <= c <= '\U{200A}')
    || c == '\U{2028}' || c == '\U{2029}' || c == '\U{202F}' || c == '\U{205F}'
    || c == '\U{3000}' || c == '\U{FEFF}'
  }

  /** The characters `.` does not match in a JavaScript regular expression. */
  predicate IsLineTerminator(c: char) {
    c == '\n' || c == '\r' || c == '\U{2028}' || c == '\U{2029}'
  }

  predicate IsDigit(c: char) {
    '0' <= c <= '9'
  }

  predicate IsAsciiUpper(c: char) {
    'A' <= c <= 'Z'
  }

  predicate IsAsciiLetter(c: char) {
    'a' <= c <= 'z' || IsAsciiUpper(c)
  }

  /** JavaScript's `\w` (without the `u` flag): ASCII letters, digits and `_`. */
  predicate IsWordChar(c: char) {
    IsAsciiLetter(c) || IsDigit(c) || c == '_'
  }

  predicate IsQuote(c: char) {
    c == '"' || c == '\''
  }

  predicate AllDigits(s: string) {
    forall i :: 0 <= i < |s| ==> IsDigit(s[i])
  }

  predicate NoLineTerminator(s: string) {
    forall i :: 0 <= i < |s| ==> !IsLineTerminator(s[i])
  }

  predicate StartsWith(s: string, prefix: string) {
    |prefix| <= |s| && s[..|prefix|] == prefix
  }

  predicate EndsWith(s: string, suffix: string) {
    |suffix| <= |s| && s[|s| - |suffix|..] == suffix
  }

  /** `t` occurs in `s` at index `i`. */
  predicate OccursAt(s: string, t: string, i: nat) {
    i + |t| <= |s| && s[i..i + |t|] == t
  }

  /** `s.includes(t)` */
  predicate Contains(s: string, t: string) {
    exists i: nat :: i <= |s| && OccursAt(s, t, i)
  }

  /** ASCII case folding, as `toLowerCase` does on ASCII letters. */
  function LowerChar(c: char): char {
    if IsAsciiUpper(c) then (c as int + 32) as char else c
  }

  function ToLowerAscii(s: string): (r: string)
    ensures |r| == |s|
    ensures forall i :: 0 <= i < |s| ==> r[i] == LowerChar(s[i])
  {
    seq(|s|, i requires 0 <= i < |s| => LowerChar(s[i]))
  }

  /** Lower-casing yields no upper-case letter and fixes a string that has none. */
  lemma LowerCharShape(c: char)
    ensures !IsAsciiUpper(LowerChar(c))
    ensures !IsAsciiUpper(c) ==> LowerChar(c) == c
  {
  }

  /** Case-insensitive ASCII comparison, as a regular expression with the `i` flag compares ASCII text. */
  predicate EqualsIgnoreCase(a: string, b: string) {
    ToLowerAscii(a) == ToLowerAscii(b)
  }

  /** `s.slice(k)` with k at most the length, when `s` starts with `t` ignoring case. */
  predicate StartsWithIgnoreCase(s: string, t: string) {
    |t| <= |s| && EqualsIgnoreCase(s[..|t|], t)
  }

  // ---------------------------------------------------------------------------
  // trim

  function TrimStart(s: string): (r: string)
    ensures |r| <= |s|
    ensures r == [] || !IsSpace(r[0])
  {
    if |s| > 0 && IsSpace(s[0]) then TrimStart(s[1..]) else s
  }

  function TrimEnd(s: string): (r: string)
    ensures |r| <= |s|
    ensures r == [] || !IsSpace(r[|r| - 1])
  {
    if |s| > 0 && IsSpace(s[|s| - 1]) then TrimEnd(s[..|s| - 1]) else s
  }

  /** `TrimStart` drops only white space. */
  lemma {:induction false} TrimStartSpan(s: string)
    ensures forall i :: 0 <= i < |s| - |TrimStart(s)| ==> IsSpace(s[i])
    decreases |s|
  {
    if |s| > 0 && IsSpace(s[0]) {
      TrimStartSpan(s[1..]);
      assert forall i :: 1 <= i < |s| ==> s[i] == s[1..][i - 1];
    }
  }

  /** `TrimEnd` drops only white space. */
  lemma {:induction false} TrimEndSpan(s: string)
    ensures forall i :: |TrimEnd(s)| <= i < |s| ==> IsSpace(s[i])
    decreases |s|
  {
    if |s| > 0 && IsSpace(s[|s| - 1]) {
      TrimEndSpan(s[..|s| - 1]);
    }
  }

  /** What `TrimStart` keeps is a suffix. */
  lemma {:induction false} TrimStartSuffix(s: string)
    ensures TrimStart(s) == s[|s| - |TrimStart(s)|..]
    decreases |s|
  {
    if |s| > 0 && IsSpace(s[0]) {
      TrimStartSuffix(s[1..]);
    }
  }

  /** White space in front of a text that does not start with white space is dropped. */
  lemma {:induction false} TrimStartPadded(pad: string, t: string)
    requires forall i :: 0 <= i < |pad| ==> IsSpace(pad[i])
    requires t == [] || !IsSpace(t[0])
    ensures TrimStart(pad + t) == t
    decreases |pad|
  {
    if |pad| > 0 {
      assert (pad + t)[1..] == pad[1..] + t;
      TrimStartPadded(pad[1..], t);
    } else {
      assert pad + t == t;
    }
  }

  /** What `TrimEnd` keeps is a prefix. */
  lemma {:induction false} TrimEndPrefix(s: string)
    ensures TrimEnd(s) == s[..|TrimEnd(s)|]
    decreases |s|
  {
    if |s| > 0 && IsSpace(s[|s| - 1]) {
      TrimEndPrefix(s[..|s| - 1]);
    }
  }

  /** `s.trim()` */
  function Trim(s: string): (r: string)
    ensures |r| <= |s|
    ensures r == [] || (!IsSpace(r[0]) && !IsSpace(r[|r| - 1]))
  {
    var t := TrimStart(s);
    TrimEndPrefix(t);
    TrimEnd(t)
  }

  /** What `Trim` keeps is a slice, starting where `TrimStart` stops. */
  lemma TrimSlice(s: string)
    ensures var a := |s| - |TrimStart(s)|;
      a + |Trim(s)| <= |s| && Trim(s) == s[a..a + |Trim(s)|]
  {
    TrimStartSuffix(s);
    TrimEndPrefix(TrimStart(s));
  }

  /** A string that neither starts nor ends with white space is its own trim. */
  lemma TrimUntouched(s: string)
    requires s == [] || (!IsSpace(s[0]) && !IsSpace(s[|s| - 1]))
    ensures Trim(s) == s
  {
  }

  /** Trimming twice is trimming once. */
  lemma TrimIdempotent(s: string)
    ensures Trim(Trim(s)) == Trim(s)
  {
    TrimUntouched(Trim(s));
  }

  /** A text of white space only trims to nothing from the front. */
  lemma {:induction false} TrimStartBlank(s: string)
    requires forall i :: 0 <= i < |s| ==> IsSpace(s[i])
    ensures TrimStart(s) == []
    decreases |s|
  {
    if |s| > 0 {
      TrimStartBlank(s[1..]);
    }
  }

  /** Trimming the front of a concatenation: the first part is trimmed, and only when
      nothing of it is left does trimming go on into the second. */
  lemma {:induction false} TrimStartAppend(x: string, y: string)
    ensures TrimStart(x + y) == if TrimStart(x) == [] then TrimStart(y) else TrimStart(x) + y
    decreases |x|
  {
    if |x| == 0 {
      assert x + y == y;
    } else if IsSpace(x[0]) {
      assert (x + y)[1..] == x[1..] + y;
      TrimStartAppend(x[1..], y);
    } else {
      assert (x + y)[0] == x[0];
    }
  }

  /** White space after a text does not change how its end is trimmed. */
  lemma {:induction false} TrimEndBlankTail(x: string, post: string)
    requires forall i :: 0 <= i < |post| ==> IsSpace(post[i])
    ensures TrimEnd(x + post) == TrimEnd(x)
    decreases |post|
  {
    if |post| == 0 {
      assert x + post == x;
    } else {
      var shorter := post[..|post| - 1];
      assert (x + post)[..|x + post| - 1] == x + shorter;
      TrimEndBlankTail(x, shorter);
    }
  }

  /** White space around a text does not change its trim. */
  lemma TrimPadding(pre: string, x: string, post: string)
    requires forall i :: 0 <= i < |pre| ==> IsSpace(pre[i])
    requires forall i :: 0 <= i < |post| ==> IsSpace(post[i])
    ensures Trim(pre + x + post) == Trim(x)
  {
    assert pre + x + post == pre + (x + post);
    TrimStartBlank(pre);
    TrimStartAppend(pre, x + post);
    TrimStartAppend(x, post);
    if TrimStart(x) == [] {
      TrimStartBlank(post);
    } else {
      TrimEndBlankTail(TrimStart(x), post);
    }
  }

  /** A text between white-space pads that neither starts nor ends with white space is
      what trimming leaves. */
  lemma TrimPadded(pre: string, x: string, post: string)
    requires forall i :: 0 <= i < |pre| ==> IsSpace(pre[i])
    requires forall i :: 0 <= i < |post| ==> IsSpace(post[i])
    requires x == [] || (!IsSpace(x[0]) && !IsSpace(x[|x| - 1]))
    ensures Trim(pre + x + post) == x
  {
    TrimPadding(pre, x, post);
    TrimUntouched(x);
  }

  /** A text is the white space that `TrimStart` drops followed by what it keeps. */
  lemma TrimStartParts(s: string)
    ensures var a := |s| - |TrimStart(s)|;
      s == s[..a] + TrimStart(s) && forall i :: 0 <= i < a ==> IsSpace(s[i])
  {
    TrimStartSpan(s);
    TrimStartSuffix(s);
  }

  /** A text is what `TrimEnd` keeps followed by the white space it drops. */
  lemma TrimEndParts(s: string)
    ensures var e := |TrimEnd(s)|;
      s == TrimEnd(s) + s[e..] && forall i :: e <= i < |s| ==> IsSpace(s[i])
  {
    TrimEndSpan(s);
    TrimEndPrefix(s);
  }

  // ---------------------------------------------------------------------------
  // split and join

  /** `parts.join(sep)` */
  function Join(parts: seq<string>, sep: string): string {
    if |parts| == 0 then ""
    else if |parts| == 1 then parts[0]
    else parts[0] + sep + Join(parts[1..], sep)
  }

  /** `s.split(c)` for a one-character separator: every piece, empty ones included. */
  function Split(s: string, c: char): (r: seq<string>)
    ensures |r| >= 1
    ensures forall k :: 0 <= k < |r| ==> c !in r[k]
    ensures Join(r, [c]) == s
    decreases |s|
  {
    if |s| == 0 then [""]
    else
      var rest := Split(s[1..], c);
      if s[0] == c then
        assert Join([""] + rest, [c]) == "" + [c] + Join(rest, [c]) by {
          assert ([""] + rest)[1..] == rest;
        }
        [""] + rest
      else
        var r := [[s[0]] + rest[0]] + rest[1..];
        assert Join(r, [c]) == s by {
          if |rest| == 1 {
          } else {
            assert r[1..] == rest[1..];
            assert Join(rest, [c]) == rest[0] + [c] + Join(rest[1..], [c]);
          }
        }
        r
  }

  lemma SplitNoSeparator(a: string, c: char)
    requires c !in a
    ensures Split(a, c) == [a]
  {
    if |a| > 0 {
      SplitNoSeparator(a[1..], c);
    }
  }

  lemma {:induction false} SplitConcat(a: string, c: char, b: string)
    requires c !in a
    ensures Split(a + [c] + b, c) == [a] + Split(b, c)
    decreases |a|
  {
    if |a| == 0 {
      assert (a + [c] + b)[1..] == b;
    } else {
      assert (a + [c] + b)[1..] == a[1..] + [c] + b;
      SplitConcat(a[1..], c, b);
      assert [a[0]] + a[1..] == a;
    }
  }

  /** Splitting undoes joining when no piece contains the separator. */
  lemma {:induction false} SplitJoin(parts: seq<string>, c: char)
    requires |parts| >= 1
    requires forall k :: 0 <= k < |parts| ==> c !in parts[k]
    ensures Split(Join(parts, [c]), c) == parts
    decreases |parts|
  {
    if |parts| == 1 {
      SplitNoSeparator(parts[0], c);
    } else {
      SplitJoin(parts[1..], c);
      SplitConcat(parts[0], c, Join(parts[1..], [c]));
      assert [parts[0]] + parts[1..] == parts;
    }
  }

  /** Splitting joined pieces followed by a separator and more text. */
  lemma {:induction false} SplitJoinAppend(parts: seq<string>, c: char, b: string)
    requires |parts| >= 1
    requires forall k :: 0 <= k < |parts| ==> c !in parts[k]
    ensures Split(Join(parts, [c]) + [c] + b, c) == parts + Split(b, c)
    decreases |parts|
  {
    var sb := Split(b, c);
    if |parts| == 1 {
      SplitConcat(parts[0], c, b);
      assert parts == [parts[0]];
    } else {
      var rest := Join(parts[1..], [c]);
      var tail := rest + [c] + b;
      assert Join(parts, [c]) + [c] + b == parts[0] + [c] + tail;
      SplitJoinAppend(parts[1..], c, b);
      SplitConcat(parts[0], c, tail);
      calc {
        Split(Join(parts, [c]) + [c] + b, c);
        [parts[0]] + Split(tail, c);
        [parts[0]] + (parts[1..] + sb);
        ([parts[0]] + parts[1..]) + sb;
        { assert [parts[0]] + parts[1..] == parts; }
        parts + sb;
      }
    }
  }

  /** Text without the separator in front of a split joins the first piece. */
  lemma {:induction false} SplitPrefix(pre: string, s: string, c: char)
    requires c !in pre
    ensures Split(pre + s, c) == [pre + Split(s, c)[0]] + Split(s, c)[1..]
    decreases |pre|
  {
    var p := Split(s, c);
    if |pre| == 0 {
      assert pre + s == s;
      assert pre + p[0] == p[0];
      assert [p[0]] + p[1..] == p;
    } else {
      assert (pre + s)[0] == pre[0];
      assert (pre + s)[1..] == pre[1..] + s;
      assert pre[0] != c;
      SplitPrefix(pre[1..], s, c);
      var rest := Split(pre[1..] + s, c);
      assert rest[0] == pre[1..] + p[0];
      assert rest[1..] == p[1..];
      assert [pre[0]] + (pre[1..] + p[0]) == pre + p[0];
    }
  }

  /** Text without the separator after a split joins the last piece. */
  lemma {:induction false} SplitSuffix(s: string, post: string, c: char)
    requires c !in post
    ensures var p := Split(s, c);
      Split(s + post, c) == p[..|p| - 1] + [p[|p| - 1] + post]
    decreases |s|
  {
    var p := Split(s, c);
    if |s| == 0 {
      assert s + post == post;
      SplitNoSeparator(post, c);
    } else {
      var sp := s + post;
      assert sp[0] == s[0];
      assert sp[1..] == s[1..] + post;
      SplitSuffix(s[1..], post, c);
      var rest := Split(s[1..], c);
      var restp := Split(s[1..] + post, c);
      assert restp == rest[..|rest| - 1] + [rest[|rest| - 1] + post];
      if s[0] == c {
        assert Split(sp, c) == [""] + restp;
        assert p == [""] + rest;
        assert p[..|p| - 1] == [""] + rest[..|rest| - 1];
      } else if |rest| == 1 {
        assert Split(sp, c) == [[s[0]] + restp[0]] + restp[1..];
        assert p == [[s[0]] + rest[0]];
      } else {
        assert Split(sp, c) == [[s[0]] + restp[0]] + restp[1..];
        assert p == [[s[0]] + rest[0]] + rest[1..];
        assert p[..|p| - 1] == [[s[0]] + rest[0]] + rest[1..|rest| - 1];
      }
    }
  }

  /** Text without the separator on both sides of a split joins the first and the last
      piece. */
  lemma SplitAround(pre: string, s: string, post: string, c: char)
    requires c !in pre && c !in post
    ensures |Split(pre + s + post, c)| == |Split(s, c)|
    ensures var p, q := Split(pre + s + post, c), Split(s, c);
      forall k :: 0 <= k < |q| ==>
        p[k] == (if k == 0 then pre else "") + q[k] + (if k == |q| - 1 then post else "")
  {
    assert pre + s + post == pre + (s + post);
    SplitPrefix(pre, s + post, c);
    SplitSuffix(s, post, c);
  }

  /** White space at both ends of a split text changes no piece's trim. */
  lemma SplitPadded(pre: string, s: string, post: string, c: char)
    requires forall i :: 0 <= i < |pre| ==> IsSpace(pre[i])
    requires forall i :: 0 <= i < |post| ==> IsSpace(post[i])
    requires !IsSpace(c)
    ensures |Split(pre + s + post, c)| == |Split(s, c)|
    ensures forall k :: 0 <= k < |Split(s, c)| ==> Trim(Split(pre + s + post, c)[k]) == Trim(Split(s, c)[k])
  {
    var q := Split(s, c);
    var p := Split(pre + s + post, c);
    SplitAround(pre, s, post, c);
    forall k | 0 <= k < |q| ensures Trim(p[k]) == Trim(q[k]) {
      TrimPadding(if k == 0 then pre else "", q[k], if k == |q| - 1 then post else "");
    }
  }

  /** A text with a character that is not white space does not trim to nothing. */
  lemma TrimKeepsNonSpace(s: string, i: nat)
    requires i < |s| && !IsSpace(s[i])
    ensures Trim(s) != []
  {
    var t := TrimStart(s);
    TrimStartSpan(s);
    TrimEndSpan(t);
  }

  /** Trimming a text before splitting it changes no piece's trim. */
  lemma TrimSplit(s: string, c: char)
    requires !IsSpace(c)
    ensures |Split(s, c)| == |Split(Trim(s), c)|
    ensures forall k :: 0 <= k < |Split(s, c)| ==> Trim(Split(s, c)[k]) == Trim(Split(Trim(s), c)[k])
  {
    var t := TrimStart(s);
    var inner := TrimEnd(t);
    var pre := s[..|s| - |t|];
    var post := t[|inner|..];
    assert s == pre + inner + post by {
      TrimStartSuffix(s);
      TrimEndPrefix(t);
    }
    forall i | 0 <= i < |pre| ensures IsSpace(pre[i]) {
      TrimStartSpan(s);
    }
    forall i | 0 <= i < |post| ensures IsSpace(post[i]) {
      TrimEndSpan(t);
    }
    SplitPadded(pre, inner, post, c);
  }

  /** `s.split(c).pop()`: the text after the last `c`, or all of `s` when it has none. */
  function LastSegment(s: string, c: char): (r: string)
    ensures c !in r
  {
    s[LastIndex(s, c) + 1..]
  }

  /** `s.lastIndexOf(c)`: the last index holding `c`, or -1 when there is none. */
  function LastIndex(s: string, c: char): (i: int)
    ensures -1 <= i < |s|
    ensures i >= 0 ==> s[i] == c
    ensures forall j :: i < j < |s| ==> s[j] != c
  {
    if |s| == 0 then -1
    else if s[|s| - 1] == c then |s| - 1
    else LastIndex(s[..|s| - 1], c)
  }

  /** A string without `c` is its own last segment. */
  lemma LastSegmentNoSeparator(s: string, c: char)
    requires c !in s
    ensures LastSegment(s, c) == s
  {
  }

  /** The last segment after a final separator is what follows it. */
  lemma LastSegmentPast(a: string, c: char, b: string)
    requires c !in b
    ensures LastSegment(a + [c] + b, c) == b
  {
    var s := a + [c] + b;
    assert s[|a|] == c;
    assert forall k :: 0 <= k < |b| ==> s[|a| + 1 + k] == b[k];
    assert LastIndex(s, c) == |a|;
    assert s[|a| + 1..] == b;
  }

  // ---------------------------------------------------------------------------
  // decimal numerals

  function DigitValue(c: char): nat
    requires IsDigit(c)
  {
    c as int - '0' as int
  }

  function DigitChar(d: nat): (c: char)
    requires d < 10
    ensures IsDigit(c) && DigitValue(c) == d
  {
    ('0' as int + d) as char
  }

  /** The value of an all-digit string, read base 10 (`Number.parseInt(s, 10)`). */
  function DigitsValue(s: string): nat
    requires AllDigits(s)
  {
    if |s| == 0 then 0 else 10 * DigitsValue(s[..|s| - 1]) + DigitValue(s[|s| - 1])
  }

  /** `String(n)` / `${n}` for a natural number: the canonical decimal numeral. */
  function NatToString(n: nat): (r: string)
    ensures |r| >= 1 && AllDigits(r)
    ensures |r| > 1 ==> r[0] != '0'
    ensures DigitsValue(r) == n
  {
    if n < 10 then [DigitChar(n)]
    else
      var r := NatToString(n / 10) + [DigitChar(n % 10)];
      assert r[..|r| - 1] == NatToString(n / 10);
      r
  }

  lemma NatToStringInjective(m: nat, n: nat)
    requires NatToString(m) == NatToString(n)
    ensures m == n
  {
  }

  // ---------------------------------------------------------------------------
  // single-pass rewrites

  /** The rest of `s` after its leading run of characters satisfying `P`. */
  function DropRun(s: string, P: char -> bool): (r: string)
    ensures |r| <= |s|
    ensures |s| > 0 && P(s[0]) ==> |r| < |s|
    ensures r == [] || !P(r[0])
  {
    if |s| > 0 && P(s[0]) then DropRun(s[1..], P) else s
  }

  /** What `DropRun` keeps is a suffix. */
  lemma {:induction false} DropRunSuffix(s: string, P: char -> bool)
    ensures DropRun(s, P) == s[|s| - |DropRun(s, P)|..]
    decreases |s|
  {
    if |s| > 0 && P(s[0]) {
      DropRunSuffix(s[1..], P);
    }
  }

  /** `s` is the run `DropRun` drops, all of it `P`, followed by what it keeps. */
  lemma DropRunParts(s: string, P: char -> bool)
    ensures var n := |s| - |DropRun(s, P)|;
      s == s[..n] + DropRun(s, P) && forall i :: 0 <= i < n ==> P(s[..n][i])
  {
    var n := |s| - |DropRun(s, P)|;
    DropRunSuffix(s, P);
    DropRunSpan(s, P);
    assert s == s[..n] + s[n..];
    assert forall i :: 0 <= i < n ==> s[..n][i] == s[i];
  }

  /** Every character `DropRun` drops satisfies `P`. */
  lemma {:induction false} DropRunSpan(s: string, P: char -> bool)
    ensures forall i :: 0 <= i < |s| - |DropRun(s, P)| ==> P(s[i])
    decreases |s|
  {
    if |s| > 0 && P(s[0]) {
      DropRunSpan(s[1..], P);
      assert forall i :: 1 <= i < |s| ==> s[i] == s[1..][i - 1];
    }
  }

  /** `s.replace(/P+/g, c)`: every maximal run of `P` characters becomes one `c`. */
  function CollapseRuns(s: string, P: char -> bool, c: char): (r: string)
    ensures |s| == 0 ==> r == []
    ensures |s| > 0 ==> |r| > 0 && r[0] == (if P(s[0]) then c else s[0])
    decreases |s|
  {
    if |s| == 0 then ""
    else if P(s[0]) then [c] + CollapseRuns(DropRun(s, P), P, c)
    else [s[0]] + CollapseRuns(s[1..], P, c)
  }

  /** Every character of `r` is `c` or a character of `s` outside `P`. */
  predicate KeptOrReplaced(r: string, s: string, P: char -> bool, c: char) {
    forall i :: 0 <= i < |r| ==> r[i] == c || (!P(r[i]) && r[i] in s)
  }

  /** No two characters in `P` stand next to each other in `r`. */
  predicate NoAdjacent(r: string, P: char -> bool) {
    forall i :: 0 <= i < |r| - 1 ==> !(P(r[i]) && P(r[i + 1]))
  }

  /** Every character `CollapseRuns` yields is `c` or a character of `s` outside `P`,
      and when `c` is in `P`, no two `P` characters are adjacent. */
  lemma {:induction false} CollapseRunsShape(s: string, P: char -> bool, c: char)
    ensures KeptOrReplaced(CollapseRuns(s, P, c), s, P, c)
    ensures P(c) ==> NoAdjacent(CollapseRuns(s, P, c), P)
    decreases |s|
  {
    if |s| > 0 {
      var t := if P(s[0]) then DropRun(s, P) else s[1..];
      DropRunSuffix(s, P);
      assert t == s[|s| - |t|..];
      CollapseRunsShape(t, P, c);
      var rt := CollapseRuns(t, P, c);
      var r := CollapseRuns(s, P, c);
      assert r == [if P(s[0]) then c else s[0]] + rt;
      forall i | 0 < i < |r|
        ensures r[i] == c || (!P(r[i]) && r[i] in s)
      {
        assert r[i] == rt[i - 1];
        if rt[i - 1] != c {
          var j :| 0 <= j < |t| && t[j] == rt[i - 1];
          assert s[|s| - |t| + j] == t[j];
        }
      }
      if P(c) && |r| > 1 {
        assert !(P(r[0]) && P(r[1])) by {
          if P(s[0]) {
            assert r[1] == rt[0];
          }
        }
        forall i | 0 < i < |r| - 1
          ensures !(P(r[i]) && P(r[i + 1]))
        {
          assert r[i] == rt[i - 1] && r[i + 1] == rt[i];
        }
      }
    }
  }

  /** A string whose `P` runs are already single `c` characters is left as it is. */
  lemma {:induction false} CollapseRunsFixed(s: string, P: char -> bool, c: char)
    requires forall i :: 0 <= i < |s| ==> P(s[i]) ==> s[i] == c
    requires forall i :: 0 <= i < |s| - 1 ==> !(P(s[i]) && P(s[i + 1]))
    ensures CollapseRuns(s, P, c) == s
    decreases |s|
  {
    if |s| > 0 {
      var t := s[1..];
      forall i | 0 <= i < |t|
        ensures P(t[i]) ==> t[i] == c
      {
        assert t[i] == s[i + 1];
      }
      forall i | 0 <= i < |t| - 1
        ensures !(P(t[i]) && P(t[i + 1]))
      {
        assert t[i] == s[i + 1] && t[i + 1] == s[i + 2];
      }
      CollapseRunsFixed(t, P, c);
      if P(s[0]) {
        assert t == [] || !P(t[0]) by {
          if |s| > 1 {
            assert !(P(s[0]) && P(s[1]));
          }
        }
        assert DropRun(s, P) == DropRun(t, P) == t;
      }
      assert [s[0]] + t == s;
    }
  }

  /** `s.replace(/[chars]/g, "")`: drop every character satisfying `P`. */
  function RemoveAll(s: string, P: char -> bool): (r: string)
    ensures |r| <= |s|
    ensures forall i :: 0 <= i < |r| ==> !P(r[i]) && r[i] in s
  {
    if |s| == 0 then ""
    else
      var rest := RemoveAll(s[1..], P);
      assert forall ch :: ch in s[1..] ==> ch in s;
      if P(s[0]) then rest else [s[0]] + rest
  }

  /** Nothing to remove: the string is left as it is. */
  lemma {:induction false} RemoveAllNone(s: string, P: char -> bool)
    requires forall i :: 0 <= i < |s| ==> !P(s[i])
    ensures RemoveAll(s, P) == s
    decreases |s|
  {
    if |s| > 0 {
      RemoveAllNone(s[1..], P);
      assert [s[0]] + s[1..] == s;
    }
  }

  /** Removing from two strings in a row is removing from each: the kept characters stay
      in their order. */
  lemma {:induction false} RemoveAllAppend(a: string, b: string, P: char -> bool)
    ensures RemoveAll(a + b, P) == RemoveAll(a, P) + RemoveAll(b, P)
    decreases |a|
  {
    if |a| > 0 {
      assert (a + b)[1..] == a[1..] + b;
      RemoveAllAppend(a[1..], b, P);
    } else {
      assert a + b == b;
    }
  }

  /** A single character is dropped exactly when it satisfies `P`. */
  lemma RemoveAllOne(c: char, P: char -> bool)
    ensures RemoveAll([c], P) == if P(c) then "" else [c]
  {
    assert [c][1..] == "";
  }

  /** `s.replace(/^P|P$/g, "")`: drop one leading and one trailing `P` character. */
  function StripOne(s: string, P: char -> bool): (r: string)
    ensures |s| - 2 <= |r| <= |s| && StripFrom(s, P) + |r| <= |s|
    ensures r == s[StripFrom(s, P)..StripFrom(s, P) + |r|]
    ensures (|s| == 0 || !P(s[0])) && (|s| == 0 || !P(s[|s| - 1])) ==> r == s
    ensures (forall i :: 0 <= i < |s| - 1 ==> !(P(s[i]) && P(s[i + 1]))) ==>
              r == [] || (!P(r[0]) && !P(r[|r| - 1]))
  {
    var a := StripFrom(s, P);
    var b := StripTo(s, P);
    StripOneEnds(s, P);
    s[a..b]
  }

  /** Where `StripOne` stops: before a trailing `P` character that it does not also
      strip at the front. */
  function StripTo(s: string, P: char -> bool): nat {
    if |s| > StripFrom(s, P) && P(s[|s| - 1]) then |s| - 1 else |s|
  }

  /** Without two `P` characters in a row, what `StripOne` keeps neither starts nor
      ends with one. */
  lemma StripOneEnds(s: string, P: char -> bool)
    ensures StripFrom(s, P) <= StripTo(s, P) <= |s|
    ensures (forall i :: 0 <= i < |s| - 1 ==> !(P(s[i]) && P(s[i + 1]))) ==>
      StripFrom(s, P) == StripTo(s, P) || (!P(s[StripFrom(s, P)]) && !P(s[StripTo(s, P) - 1]))
  {
    if |s| >= 2 {
      assert !(P(s[0]) && P(s[1])) ==> StripFrom(s, P) == 0 || !P(s[1]);
    }
  }

  /** Where `StripOne` starts: past a leading `P` character, if any. */
  function StripFrom(s: string, P: char -> bool): nat {
    if |s| > 0 && P(s[0]) then 1 else 0
  }

  /** `s.replace(/c/g, rep)` for a one-character pattern. */
  function ReplaceChar(s: string, c: char, rep: string): (r: string)
    ensures c !in rep ==> c !in r
  {
    if |s| == 0 then ""
    else (if s[0] == c then rep else [s[0]]) + ReplaceChar(s[1..], c, rep)
  }

  lemma {:induction false} ReplaceCharConcat(a: string, b: string, c: char, rep: string)
    ensures ReplaceChar(a + b, c, rep) == ReplaceChar(a, c, rep) + ReplaceChar(b, c, rep)
    decreases |a|
  {
    if |a| > 0 {
      var head := if a[0] == c then rep else [a[0]];
      assert (a + b)[0] == a[0];
      assert (a + b)[1..] == a[1..] + b;
      ReplaceCharConcat(a[1..], b, c, rep);
      calc {
        ReplaceChar(a + b, c, rep);
        head + ReplaceChar(a[1..] + b, c, rep);
        head + (ReplaceChar(a[1..], c, rep) + ReplaceChar(b, c, rep));
        (head + ReplaceChar(a[1..], c, rep)) + ReplaceChar(b, c, rep);
        ReplaceChar(a, c, rep) + ReplaceChar(b, c, rep);
      }
    } else {
      assert a + b == b;
    }
  }

  /** A character absent from the string: the replacement changes nothing. */
  lemma ReplaceCharAbsent(s: string, c: char, rep: string)
    requires c !in s
    ensures ReplaceChar(s, c, rep) == s
  {
    if |s| > 0 {
      ReplaceCharAbsent(s[1..], c, rep);
    }
  }

  /** `s.replace(/ab/g, rep)` for a two-character pattern, scanning left to right. */
  function ReplacePair(s: string, a: char, b: char, rep: string): (r: string)
    ensures (forall i :: 0 <= i < |s| ==> s[i] != a) ==> r == s
  {
    if |s| >= 2 && s[0] == a && s[1] == b then rep + ReplacePair(s[2..], a, b, rep)
    else if |s| == 0 then ""
    else [s[0]] + ReplacePair(s[1..], a, b, rep)
  }
}
