/**
 * HTML escaping and code blocks (src/markdown.ts `escapeHtml`, `highlightCode` and the
 * renderer's code hook).
 */
module Html {
  import opened Wrappers
  import opened Text

  /** `escapeHtml(text)`: five global replacements, `&` first; a text without any of
      the five characters is left as it is. */
  function EscapeHtml(text: string): (r: string)
    ensures '&' !in text && '<' !in text && '>' !in text && '"' !in text && '\'' !in text ==> r == text
  {
    PlainTextKept(text);
    var amp := ReplaceChar(text, '&', "&amp;");
    var lt := ReplaceChar(amp, '<', "&lt;");
    var gt := ReplaceChar(lt, '>', "&gt;");
    var quot := ReplaceChar(gt, '"', "&quot;");
    ReplaceChar(quot, '\'', "&#039;")
  }

  lemma PlainTextKept(text: string)
    ensures '&' !in text && '<' !in text && '>' !in text && '"' !in text && '\'' !in text ==>
      var amp := ReplaceChar(text, '&', "&amp;");
      var lt := ReplaceChar(amp, '<', "&lt;");
      var gt := ReplaceChar(lt, '>', "&gt;");
      var quot := ReplaceChar(gt, '"', "&quot;");
      ReplaceChar(quot, '\'', "&#039;") == text
  {
    if '&' !in text && '<' !in text && '>' !in text && '"' !in text && '\'' !in text {
      ReplaceCharAbsent(text, '&', "&amp;");
      ReplaceCharAbsent(text, '<', "&lt;");
      ReplaceCharAbsent(text, '>', "&gt;");
      ReplaceCharAbsent(text, '"', "&quot;");
      ReplaceCharAbsent(text, '\'', "&#039;");
    }
  }

  /** The entity one character becomes. */
  function EscapeChar(c: char): string {
    match c
    case '&' => "&amp;"
    case '<' => "&lt;"
    case '>' => "&gt;"
    case '"' => "&quot;"
    case '\'' => "&#039;"
    case _ => [c]
  }

  /** Character-by-character escaping: the reference the chain of replacements meets. */
  function EscapeEach(text: string): string {
    if |text| == 0 then "" else EscapeChar(text[0]) + EscapeEach(text[1..])
  }

  /** The chain of replacements escapes each character on its own: the entities that
      earlier passes insert hold none of the characters that later passes replace. */
  lemma {:induction false} EscapeHtmlPerChar(text: string)
    ensures EscapeHtml(text) == EscapeEach(text)
    decreases |text|
  {
    if |text| > 0 {
      var c := text[0];
      var rest := text[1..];
      assert text == [c] + rest;
      EscapeHtmlPerChar(rest);
      EscapeHtmlConcat([c], rest);
      EscapeOneChar(c);
    }
  }

  lemma EscapeHtmlConcat(a: string, b: string)
    ensures EscapeHtml(a + b) == EscapeHtml(a) + EscapeHtml(b)
  {
    var amp := ReplaceChar(a + b, '&', "&amp;");
    ReplaceCharConcat(a, b, '&', "&amp;");
    var a1 := ReplaceChar(a, '&', "&amp;");
    var b1 := ReplaceChar(b, '&', "&amp;");
    ReplaceCharConcat(a1, b1, '<', "&lt;");
    var a2 := ReplaceChar(a1, '<', "&lt;");
    var b2 := ReplaceChar(b1, '<', "&lt;");
    ReplaceCharConcat(a2, b2, '>', "&gt;");
    var a3 := ReplaceChar(a2, '>', "&gt;");
    var b3 := ReplaceChar(b2, '>', "&gt;");
    ReplaceCharConcat(a3, b3, '"', "&quot;");
    var a4 := ReplaceChar(a3, '"', "&quot;");
    var b4 := ReplaceChar(b3, '"', "&quot;");
    ReplaceCharConcat(a4, b4, '\'', "&#039;");
  }

  lemma EscapeOneChar(c: char)
    ensures EscapeHtml([c]) == EscapeChar(c)
  {
    if c == '&' {
      EscapeAmpersand(c);
    } else if c == '<' {
      EscapeLess(c);
    } else if c == '>' {
      EscapeGreater(c);
    } else if c == '"' {
      EscapeDoubleQuote(c);
    } else if c == '\'' {
      EscapeSingleQuote(c);
    } else {
      EscapePlain(c);
    }
  }

  // Each special character meets its own pass; the other passes leave it, or the
  // entity it became, alone.

  lemma EscapeAmpersand(c: char)
    requires c == '&'
    ensures EscapeHtml([c]) == "&amp;"
  {
    EntitiesSafe();
    var s1 := ReplaceOne(c, '&', "&amp;");
    Keeps(s1, '<', "&lt;");
    Keeps(s1, '>', "&gt;");
    Keeps(s1, '"', "&quot;");
    Keeps(s1, '\'', "&#039;");
  }

  lemma EscapeLess(c: char)
    requires c == '<'
    ensures EscapeHtml([c]) == "&lt;"
  {
    EntitiesSafe();
    var s1 := ReplaceOne(c, '&', "&amp;");
    var s2 := ReplaceOne(c, '<', "&lt;");
    Keeps(s2, '>', "&gt;");
    Keeps(s2, '"', "&quot;");
    Keeps(s2, '\'', "&#039;");
  }

  lemma EscapeGreater(c: char)
    requires c == '>'
    ensures EscapeHtml([c]) == "&gt;"
  {
    EntitiesSafe();
    var s1 := ReplaceOne(c, '&', "&amp;");
    var s2 := ReplaceOne(c, '<', "&lt;");
    var s3 := ReplaceOne(c, '>', "&gt;");
    Keeps(s3, '"', "&quot;");
    Keeps(s3, '\'', "&#039;");
  }

  lemma EscapeDoubleQuote(c: char)
    requires c == '"'
    ensures EscapeHtml([c]) == "&quot;"
  {
    EntitiesSafe();
    var s1 := ReplaceOne(c, '&', "&amp;");
    var s2 := ReplaceOne(c, '<', "&lt;");
    var s3 := ReplaceOne(c, '>', "&gt;");
    var s4 := ReplaceOne(c, '"', "&quot;");
    Keeps(s4, '\'', "&#039;");
  }

  lemma EscapeSingleQuote(c: char)
    requires c == '\''
    ensures EscapeHtml([c]) == "&#039;"
  {
    var s1 := ReplaceOne(c, '&', "&amp;");
    var s2 := ReplaceOne(c, '<', "&lt;");
    var s3 := ReplaceOne(c, '>', "&gt;");
    var s4 := ReplaceOne(c, '"', "&quot;");
    var s5 := ReplaceOne(c, '\'', "&#039;");
  }

  lemma Keeps(e: string, d: char, rep: string)
    requires d !in e
    ensures ReplaceChar(e, d, rep) == e
  {
    ReplaceCharAbsent(e, d, rep);
  }

  /** None of the entities holds a character that is special in markup. */
  lemma EntitiesSafe()
    ensures NoMarkup("&amp;") && NoMarkup("&lt;") && NoMarkup("&gt;")
    ensures NoMarkup("&quot;") && NoMarkup("&#039;")
  {
    var amp, lt, gt, quot, apos := "&amp;", "&lt;", "&gt;", "&quot;", "&#039;";
    assert amp == ['&', 'a', 'm', 'p', ';'];
    assert lt == ['&', 'l', 't', ';'];
    assert gt == ['&', 'g', 't', ';'];
    assert quot == ['&', 'q', 'u', 'o', 't', ';'];
    assert apos == ['&', '#', '0', '3', '9', ';'];
  }


  lemma EscapePlain(c: char)
    requires c != '&' && c != '<' && c != '>' && c != '"' && c != '\''
    ensures EscapeHtml([c]) == [c]
  {
    ReplaceCharAbsent([c], '&', "&amp;");
    ReplaceCharAbsent([c], '<', "&lt;");
    ReplaceCharAbsent([c], '>', "&gt;");
    ReplaceCharAbsent([c], '"', "&quot;");
    ReplaceCharAbsent([c], '\'', "&#039;");
  }

  lemma ReplaceOne(c: char, d: char, rep: string) returns (r: string)
    ensures r == ReplaceChar([c], d, rep) == (if c == d then rep else [c])
  {
    assert [c][1..] == [];
    r := ReplaceChar([c], d, rep);
  }

  /** `e` holds none of the characters that are special in HTML markup and attribute
      values. */
  predicate NoMarkup(e: string) {
    '<' !in e && '>' !in e && '"' !in e && '\'' !in e
  }

  /** Escaped text can stand anywhere in markup. */
  lemma {:induction false} EscapedHasNoMarkup(text: string)
    ensures NoMarkup(EscapeHtml(text))
  {
    EscapeHtmlPerChar(text);
    EscapeEachHasNoMarkup(text);
  }

  lemma {:induction false} EscapeEachHasNoMarkup(text: string)
    ensures NoMarkup(EscapeEach(text))
    decreases |text|
  {
    if |text| > 0 {
      EscapeEachHasNoMarkup(text[1..]);
      EscapeCharNoMarkup(text[0]);
    }
  }

  /** The entity at the start of `s`, if any: the character it stands for and its length. */
  function EntityAt(s: string): (r: Option<(char, nat)>)
    ensures r.Some? ==> 0 < r.value.1 <= |s| && s[0] == '&'
  {
    if StartsWith(s, "&amp;") then Some(('&', 5))
    else if StartsWith(s, "&lt;") then Some(('<', 4))
    else if StartsWith(s, "&gt;") then Some(('>', 4))
    else if StartsWith(s, "&quot;") then Some(('"', 6))
    else if StartsWith(s, "&#039;") then Some(('\'', 6))
    else None
  }

  lemma EscapeCharNoMarkup(c: char)
    ensures NoMarkup(EscapeChar(c))
  {
    EntitiesSafe();
    if c == '&' || c == '<' || c == '>' || c == '"' || c == '\'' {
    } else {
      assert EscapeChar(c) == [c];
    }
  }

  /** Decoding of the five entities, the inverse of `EscapeHtml`: it never lengthens the
      text, and a text without `&` is left as it is. */
  function UnescapeHtml(s: string): (r: string)
    ensures |r| <= |s|
    ensures '&' !in s ==> r == s
    decreases |s|
  {
    if |s| == 0 then ""
    else match EntityAt(s)
      case Some((c, n)) => [c] + UnescapeHtml(s[n..])
      case None => [s[0]] + UnescapeHtml(s[1..])
  }

  /** Escaping loses nothing: decoding gives the text back. */
  lemma EscapeRoundTrip(text: string)
    ensures UnescapeHtml(EscapeHtml(text)) == text
  {
    EscapeHtmlPerChar(text);
    EscapeEachRoundTrip(text);
  }

  lemma {:induction false} EscapeEachRoundTrip(text: string)
    ensures UnescapeHtml(EscapeEach(text)) == text
    decreases |text|
  {
    if |text| > 0 {
      EscapeEachRoundTrip(text[1..]);
      UnescapeStep(text[0], EscapeEach(text[1..]));
      assert [text[0]] + text[1..] == text;
    }
  }

  /** Decoding reads one escaped character back and goes on after it. */
  lemma UnescapeStep(c: char, tail: string)
    ensures UnescapeHtml(EscapeChar(c) + tail) == [c] + UnescapeHtml(tail)
  {
    var head := EscapeChar(c);
    var s := head + tail;
    assert s[|head|..] == tail;
    if c == '&' || c == '<' || c == '>' || c == '"' || c == '\'' {
      EntityOfEscaped(c, tail);
    } else {
      assert s[0] == c;
      assert EntityAt(s) == None;
    }
  }

  lemma EntityOfEscaped(c: char, tail: string)
    requires c == '&' || c == '<' || c == '>' || c == '"' || c == '\''
    ensures EntityAt(EscapeChar(c) + tail) == Some((c, |EscapeChar(c)|))
  {
    var head := EscapeChar(c);
    var s := head + tail;
    assert s[..|head|] == head;
    if c != '&' {
      assert s[1] == head[1] != 'a';
      assert !StartsWith(s, "&amp;");
      if c != '<' {
        assert s[1] != 'l';
        if c != '>' {
          assert s[1] != 'g';
        }
      }
    }
  }

  const CodeOpen: string := "<pre><code class=\"language-"
  const CodeClose: string := "</code></pre>"

  /** `highlightCode(code, lang)`: the code, escaped, in a `pre`/`code` pair that names
      the language. */
  function HighlightCode(code: string, lang: string): (r: string)
    ensures |r| >= |CodeOpen + lang + "\">"| + |CodeClose|
    ensures StartsWith(r, CodeOpen + lang + "\">") && EndsWith(r, CodeClose)
    ensures UnescapeHtml(r[|CodeOpen + lang + "\">"|..|r| - |CodeClose|]) == code
  {
    var head := CodeOpen + lang + "\">";
    var r := head + EscapeHtml(code) + CodeClose;
    assert r[|head|..|r| - |CodeClose|] == EscapeHtml(code);
    EscapeRoundTrip(code);
    r
  }

  /** The renderer's code hook: a fence without a language is `text`. */
  function CodeBlockHtml(text: string, lang: string): (r: string)
    ensures lang == "" ==> r == HighlightCode(text, "text")
    ensures lang != "" ==> r == HighlightCode(text, lang)
  {
    HighlightCode(text, if lang == "" then "text" else lang)
  }
}
