/**
 * escapeHtml of js/projects-data.js: a single global replace of the five
 * characters `& < > " '` by their entities, every other character kept.
 * The decoder below replaces only these five entities. A browser decodes
 * every character reference, but on escaped output the two agree, because
 * every `&` there starts one of the five entities. The decoder is not part
 * of the site's code: it is the partner against which escaping is proved
 * lossless.
 */
module HtmlEscape {

  /** The characters matched by the pattern `[&<>"']`. */
  predicate IsSpecial(c: char) {
    c == '&' || c == '<' || c == '>' || c == '"' || c == '\''
  }

  /** The characters that could open or close a tag or an attribute value. */
  predicate IsMarkup(c: char) {
    c == '<' || c == '>' || c == '"' || c == '\''
  }

  predicate NoSpecial(text: string) {
    forall i :: 0 <= i < |text| ==> !IsSpecial(text[i])
  }

  predicate NoMarkup(text: string) {
    forall i :: 0 <= i < |text| ==> !IsMarkup(text[i])
  }

  /** The lookup table: what the replace callback yields for a matched character. */
  function Entity(c: char): (e: string)
    requires IsSpecial(c)
    ensures |e| > 1 && e[0] == '&' && e[|e| - 1] == ';' && NoMarkup(e)
  {
    match c
    case '&' => "&amp;"
    case '<' => "&lt;"
    case '>' => "&gt;"
    case '"' => "&quot;"
    case '\'' => "&#039;"
  }

  /** What one input character becomes in the output. */
  function Replacement(c: char): (e: string)
    ensures NoMarkup(e)
    ensures |e| >= 1 && (|e| == 1 <==> !IsSpecial(c))
  {
    if IsSpecial(c) then Entity(c) else [c]
  }

  /**
   * The escaped text: each character replaced on its own, left to right, and
   * the inserted entities never scanned again.
   */
  function EscapeHtml(text: string): (r: string)
    ensures NoMarkup(r)
    ensures |r| >= |text|
    ensures |r| == |text| <==> NoSpecial(text)
  {
    if text == [] then []
    else Replacement(text[0]) + EscapeHtml(text[1..])
  }

  predicate StartsWith(s: string, prefix: string) {
    |prefix| <= |s| && s[..|prefix|] == prefix
  }

  /** Decodes the five entities escapeHtml produces; any other text is kept as it is. */
  function DecodeEntities(s: string): string
    decreases |s|
  {
    if s == [] then []
    else if StartsWith(s, "&amp;") then ['&'] + DecodeEntities(s[5..])
    else if StartsWith(s, "&lt;") then ['<'] + DecodeEntities(s[4..])
    else if StartsWith(s, "&gt;") then ['>'] + DecodeEntities(s[4..])
    else if StartsWith(s, "&quot;") then ['"'] + DecodeEntities(s[6..])
    else if StartsWith(s, "&#039;") then ['\''] + DecodeEntities(s[6..])
    else [s[0]] + DecodeEntities(s[1..])
  }

  /** A text that differs from a pattern at some position does not start with it. */
  lemma NotPrefixAt(s: string, prefix: string, k: nat)
    requires k < |prefix| && k < |s| && s[k] != prefix[k]
    ensures !StartsWith(s, prefix)
  {
    if |prefix| <= |s| {
      assert s[..|prefix|][k] != prefix[k];
    }
  }

  /** Decoding the replacement of one character gives that character back, whatever follows. */
  lemma DecodeReplacement(c: char, rest: string)
    ensures DecodeEntities(Replacement(c) + rest) == [c] + DecodeEntities(rest)
  {
    var s := Replacement(c) + rest;
    if IsSpecial(c) {
      var e := Entity(c);
      assert s[..|e|] == e && s[|e|..] == rest;
      if c != '&' {
        NotPrefixAt(s, "&amp;", 1);
        if c != '<' {
          NotPrefixAt(s, "&lt;", 1);
          if c != '>' {
            NotPrefixAt(s, "&gt;", 1);
            if c != '"' {
              NotPrefixAt(s, "&quot;", 1);
            }
          }
        }
      }
    } else {
      assert s[0] == c && s[1..] == rest;
      NotPrefixAt(s, "&amp;", 0);
      NotPrefixAt(s, "&lt;", 0);
      NotPrefixAt(s, "&gt;", 0);
      NotPrefixAt(s, "&quot;", 0);
      NotPrefixAt(s, "&#039;", 0);
    }
  }

  /** Escaping loses nothing: decoding the output recovers the input exactly. */
  lemma {:induction false} DecodeEscape(text: string)
    ensures DecodeEntities(EscapeHtml(text)) == text
  {
    if text != [] {
      DecodeReplacement(text[0], EscapeHtml(text[1..]));
      DecodeEscape(text[1..]);
      assert [text[0]] + text[1..] == text;
    }
  }

  /** Two different texts never escape to the same markup. */
  lemma EscapeInjective(a: string, b: string)
    requires EscapeHtml(a) == EscapeHtml(b)
    ensures a == b
  {
    DecodeEscape(a);
    DecodeEscape(b);
  }

  /** Escaping works character by character: it distributes over concatenation. */
  lemma {:induction false} EscapeConcat(a: string, b: string)
    ensures EscapeHtml(a + b) == EscapeHtml(a) + EscapeHtml(b)
  {
    if a != [] {
      assert (a + b)[0] == a[0] && (a + b)[1..] == a[1..] + b;
      EscapeConcat(a[1..], b);
    } else {
      assert a + b == b;
    }
  }

  /** Text without any of the five characters passes through unchanged. */
  lemma {:induction false} EscapePlain(text: string)
    requires NoSpecial(text)
    ensures EscapeHtml(text) == text
  {
    if text != [] {
      EscapePlain(text[1..]);
      assert [text[0]] + text[1..] == text;
    }
  }

  /** The entity table, one character at a time. */
  lemma EscapeOneChar(c: char)
    ensures EscapeHtml([c]) == if IsSpecial(c) then Entity(c) else [c]
  {
    assert [c][1..] == [];
  }

  /**
   * The pass is single: "<" becomes "&lt;", not "&amp;lt;", while already
   * escaped text is escaped once more on its `&` only.
   */
  lemma SinglePass()
    ensures EscapeHtml("<") == "&lt;"
    ensures EscapeHtml("&lt;") == "&amp;lt;"
  {
    EscapeOneChar('<');
    EscapeConcat("&", "lt;");
    EscapeOneChar('&');
    EscapePlain("lt;");
  }
}
