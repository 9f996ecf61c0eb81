/**
 * `escapeHtml`: every occurrence of one of the five characters & < > " '
 * is replaced by its HTML entity; everything else is copied.
 */
module HtmlEscape {

  /** The replacement table: the entity for a special character, the character itself otherwise. */
  function EntityOf(c: char): (e: string)
    ensures |e| >= 1 && forall i :: 0 <= i < |e| ==> !IsMarkup(e[i])
    ensures c != '&' && !IsMarkup(c) ==> e == [c]
    ensures c == '&' || IsMarkup(c) ==> e[0] == '&' && e[|e| - 1] == ';'
  {
    match c
    case '&' => "&amp;"
    case '<' => "&lt;"
    case '>' => "&gt;"
    case '"' => "&quot;"
    case '\'' => "&#039;"
    case _ => [c]
  }

  /** The characters the escaped text may not contain. */
  predicate IsMarkup(c: char)
  {
    c == '<' || c == '>' || c == '"' || c == '\''
  }

  /**
   * Escapes `text` character by character; the result carries no markup
   * character and is never shorter than the input.
   */
  function EscapeHtml(text: string): (r: string)
    ensures forall i :: 0 <= i < |r| ==> !IsMarkup(r[i])
    ensures |r| >= |text|
    decreases |text|
  {
    if text == [] then [] else EntityOf(text[0]) + EscapeHtml(text[1..])
  }

  /** Escaping works piecewise: the text's parts are escaped independently. */
  lemma {:induction false} EscapeAppend(a: string, b: string)
    ensures EscapeHtml(a + b) == EscapeHtml(a) + EscapeHtml(b)
    decreases |a|
  {
    if a == [] {
      assert a + b == b;
    } else {
      assert (a + b)[0] == a[0] && (a + b)[1..] == a[1..] + b;
      EscapeAppend(a[1..], b);
    }
  }

  /** Text without any of the five special characters is left unchanged. */
  lemma {:induction false} EscapePlain(text: string)
    requires forall i :: 0 <= i < |text| ==> !IsMarkup(text[i]) && text[i] != '&'
    ensures EscapeHtml(text) == text
    decreases |text|
  {
    if text != [] {
      EscapePlain(text[1..]);
    }
  }

  /** Decodes the five entities `EscapeHtml` produces, leaving every other character alone. */
  function Unescape(s: string): string
    decreases |s|
  {
    if s == [] then []
    else if "&amp;" <= s then "&" + Unescape(s[5..])
    else if "&lt;" <= s then "<" + Unescape(s[4..])
    else if "&gt;" <= s then ">" + Unescape(s[4..])
    else if "&quot;" <= s then "\"" + Unescape(s[6..])
    else if "&#039;" <= s then "'" + Unescape(s[6..])
    else [s[0]] + Unescape(s[1..])
  }

  /** Decoding an escaped character followed by more text yields the character first. */
  lemma UnescapeEntity(c: char, rest: string)
    ensures Unescape(EntityOf(c) + rest) == [c] + Unescape(rest)
  {
    var s := EntityOf(c) + rest;
    match c
    case '&' => assert "&amp;" <= s && s[5..] == rest;
    case '<' =>
      assert !("&amp;" <= s) by { assert s[1] == 'l'; }
      assert "&lt;" <= s && s[4..] == rest;
    case '>' =>
      assert !("&amp;" <= s) && !("&lt;" <= s) by { assert s[1] == 'g'; }
      assert "&gt;" <= s && s[4..] == rest;
    case '"' =>
      assert !("&amp;" <= s) && !("&lt;" <= s) && !("&gt;" <= s) by { assert s[1] == 'q'; }
      assert "&quot;" <= s && s[6..] == rest;
    case '\'' =>
      assert !("&amp;" <= s) && !("&lt;" <= s) && !("&gt;" <= s) && !("&quot;" <= s) by { assert s[1] == '#'; }
      assert "&#039;" <= s && s[6..] == rest;
    case _ =>
      assert s[0] == c && s[1..] == rest;
      assert !("&amp;" <= s) && !("&lt;" <= s) && !("&gt;" <= s) by { assert s[0] != '&'; }
      assert !("&quot;" <= s) && !("&#039;" <= s) by { assert s[0] != '&'; }
  }

  /** Escaping loses no information: decoding the entities gives the text back. */
  lemma {:induction false} UnescapeEscape(text: string)
    ensures Unescape(EscapeHtml(text)) == text
    decreases |text|
  {
    if text != [] {
      UnescapeEscape(text[1..]);
      UnescapeEntity(text[0], EscapeHtml(text[1..]));
      assert text == [text[0]] + text[1..];
    }
  }
}
