/** `escapeHtml` (public/app.js): the text put into table cells and the WHOIS summary. */
module HtmlEscape {
  import opened JsText
  import opened Values

  /** The three global replacements, `&` first, then `<`, then `>`. */
  function EscapeText(s: string): (r: string)
    ensures '&' !in s && '<' !in s && '>' !in s ==> r == s
  {
    ReplaceAllKeeps(s, '&', "&amp;");
    ReplaceAllKeeps(s, '<', "&lt;");
    ReplaceAllKeeps(s, '>', "&gt;");
    ReplaceAll(ReplaceAll(ReplaceAll(s, '&', "&amp;"), '<', "&lt;"), '>', "&gt;")
  }

  /** `escapeHtml(s)`: `null` and `undefined` (both `Null` here) become `''`, anything else `String(s)`. */
  function EscapeHtml(v: Value): (r: string)
    ensures v.Null? ==> r == ""
  {
    EscapeText(if v.Null? then "" else ToStr(v))
  }

  /** The entity that stands for one character. */
  function EscapeChar(c: char): string
  {
    if c == '&' then "&amp;" else if c == '<' then "&lt;" else if c == '>' then "&gt;" else [c]
  }

  /** A single left-to-right pass, character by character: the reference for the three passes. */
  function EscapeOnePass(s: string): string
  {
    if s == [] then [] else EscapeChar(s[0]) + EscapeOnePass(s[1..])
  }

  lemma EscapeTextChar(c: char)
    ensures EscapeText([c]) == EscapeChar(c)
  {
    var r1 := ReplaceAll([c], '&', "&amp;");
    ReplaceAllSingle(c, '&', "&amp;");
    var r2 := ReplaceAll(r1, '<', "&lt;");
    if c == '&' {
      ReplaceAllAbsent("&amp;", '<', "&lt;");
      ReplaceAllAbsent("&amp;", '>', "&gt;");
    } else if c == '<' {
      ReplaceAllSingle(c, '<', "&lt;");
      ReplaceAllAbsent("&lt;", '>', "&gt;");
    } else {
      ReplaceAllSingle(c, '<', "&lt;");
      ReplaceAllSingle(c, '>', "&gt;");
    }
  }

  /** Because `&` is replaced first, the three passes never re-escape an entity they produced. */
  lemma {:induction false} EscapeTextIsOnePass(s: string)
    ensures EscapeText(s) == EscapeOnePass(s)
  {
    if s != [] {
      var c, rest := s[0], s[1..];
      assert s == [c] + rest;
      EscapeTextIsOnePass(rest);
      EscapeTextChar(c);
      var r1, r1' := ReplaceAll([c], '&', "&amp;"), ReplaceAll(rest, '&', "&amp;");
      ReplaceAllAppend([c], rest, '&', "&amp;");
      var r2, r2' := ReplaceAll(r1, '<', "&lt;"), ReplaceAll(r1', '<', "&lt;");
      ReplaceAllAppend(r1, r1', '<', "&lt;");
      ReplaceAllAppend(r2, r2', '>', "&gt;");
    }
  }

  /** Decoding `&amp;`, `&lt;` and `&gt;`, leaving every other character as it is. */
  function Unescape(t: string): string
    decreases |t|
  {
    if t == [] then []
    else if |t| >= 5 && t[0] == '&' && t[1] == 'a' && t[2] == 'm' && t[3] == 'p' && t[4] == ';' then
      ['&'] + Unescape(t[5..])
    else if |t| >= 4 && t[0] == '&' && t[1] == 'l' && t[2] == 't' && t[3] == ';' then
      ['<'] + Unescape(t[4..])
    else if |t| >= 4 && t[0] == '&' && t[1] == 'g' && t[2] == 't' && t[3] == ';' then
      ['>'] + Unescape(t[4..])
    else [t[0]] + Unescape(t[1..])
  }

  lemma UnescapeChar(c: char, rest: string)
    ensures Unescape(EscapeChar(c) + rest) == [c] + Unescape(rest)
  {
    if c == '&' {
      UnescapeEntity("&amp;", '&', rest);
    } else if c == '<' {
      UnescapeEntity("&lt;", '<', rest);
    } else if c == '>' {
      UnescapeEntity("&gt;", '>', rest);
    } else {
      assert ([c] + rest)[1..] == rest;
    }
  }

  lemma UnescapeEntity(e: string, c: char, rest: string)
    requires (e, c) == ("&amp;", '&') || (e, c) == ("&lt;", '<') || (e, c) == ("&gt;", '>')
    ensures Unescape(e + rest) == [c] + Unescape(rest)
  {
    var t := e + rest;
    assert t[0] == e[0] && t[1] == e[1] && t[2] == e[2] && t[3] == e[3];
    if c == '&' {
      assert t[4] == e[4];
    }
    assert t[|e|..] == rest;
  }

  /** Unescaping the output recovers the input exactly. */
  lemma {:induction false} UnescapeEscape(s: string)
    ensures Unescape(EscapeText(s)) == s
  {
    EscapeTextIsOnePass(s);
    UnescapeOnePass(s);
  }

  lemma {:induction false} UnescapeOnePass(s: string)
    ensures Unescape(EscapeOnePass(s)) == s
  {
    if s != [] {
      UnescapeOnePass(s[1..]);
      UnescapeChar(s[0], EscapeOnePass(s[1..]));
      assert s == [s[0]] + s[1..];
    }
  }

  /** The output holds no `<` and no `>`, so it cannot open or close a tag. */
  lemma {:induction false} OnePassNoMarkup(s: string)
    ensures '<' !in EscapeOnePass(s) && '>' !in EscapeOnePass(s)
  {
    if s != [] {
      OnePassNoMarkup(s[1..]);
    }
  }

  lemma EscapeHtmlNoMarkup(v: Value)
    ensures '<' !in EscapeHtml(v) && '>' !in EscapeHtml(v)
  {
    EscapeTextIsOnePass(if v.Null? then "" else ToStr(v));
    OnePassNoMarkup(if v.Null? then "" else ToStr(v));
  }
}
