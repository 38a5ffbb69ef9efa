/**
  Escaping of text for Pango/GTK markup (cli/src/cmds/waybar/markup.rs), after GLib's
  `g_markup_escape_text`: the five characters that the five predefined entities of
  section 4.6 of XML 1.0 stand for are replaced by those entities; every other character
  is copied.
*/
module Markup {

  /** The characters that have a predefined entity. */
  predicate IsSpecial(c: char) {
    c == '&' || c == '<' || c == '>' || c == '\'' || c == '"'
  }

  /** What one input character becomes in the output. */
  function EscapeChar(c: char): (r: string)
    ensures IsSpecial(c) ==> |r| > 1 && r[0] == '&'
    ensures !IsSpecial(c) ==> r == [c]
  {
    match c
    case '&' => "&amp;"
    case '<' => "&lt;"
    case '>' => "&gt;"
    case '\'' => "&apos;"
    case '"' => "&quot;"
    case _ => [c]
  }

  /** A character that may not appear in escaped text (the ampersand may, as an entity's start). */
  predicate IsDelimiter(c: char) {
    c == '<' || c == '>' || c == '\'' || c == '"'
  }

  /** The escape of a whole text, character by character and in order. */
  function Escape(s: string): string
    decreases |s|
  {
    if s == [] then [] else EscapeChar(s[0]) + Escape(s[1..])
  }

  /** Escaped text holds no markup delimiter. */
  lemma {:induction false} EscapeHasNoDelimiter(s: string)
    ensures forall i :: 0 <= i < |Escape(s)| ==> !IsDelimiter(Escape(s)[i])
    decreases |s|
  {
    if s != [] {
      EscapeHasNoDelimiter(s[1..]);
      var e := EscapeChar(s[0]);
      assert Escape(s) == e + Escape(s[1..]);
      forall i | 0 <= i < |Escape(s)| ensures !IsDelimiter(Escape(s)[i]) {
        if i >= |e| {
          assert Escape(s)[i] == Escape(s[1..])[i - |e|];
        }
      }
    }
  }

  /**
    Escaping never shortens a text, and it lengthens it exactly when the text holds one of
    the five special characters.
  */
  lemma {:induction false} EscapeLength(s: string)
    ensures |Escape(s)| >= |s|
    ensures |Escape(s)| == |s| <==> forall i :: 0 <= i < |s| ==> !IsSpecial(s[i])
    decreases |s|
  {
    if s != [] {
      EscapeLength(s[1..]);
      assert forall i :: 0 <= i < |s| - 1 ==> s[1..][i] == s[i + 1];
    }
  }

  /** Escaping distributes over concatenation. */
  lemma {:induction false} EscapeConcat(a: string, b: string)
    ensures Escape(a + b) == Escape(a) + Escape(b)
    decreases |a|
  {
    if a == [] {
      assert a + b == b;
    } else {
      assert (a + b)[0] == a[0] && (a + b)[1..] == a[1..] + b;
      EscapeConcat(a[1..], b);
    }
  }

  /**
    `escape_gtk_markup`: walks the input once, appending each character's escape to the
    result. After each step the result is the escape of the characters consumed so far.
  */
  method EscapeGtkMarkup(input: string) returns (result: string)
    ensures result == Escape(input)
  {
    result := "";
    var i := 0;
    while i < |input|
      invariant 0 <= i <= |input|
      invariant result == Escape(input[..i])
    {
      var c := input[i];
      ghost var consumed := result;
      match c {
        case '&' => result := result + "&amp;";
        case '<' => result := result + "&lt;";
        case '>' => result := result + "&gt;";
        case '\'' => result := result + "&apos;";
        case '"' => result := result + "&quot;";
        case _ => result := result + [c];
      }
      assert result == consumed + EscapeChar(c);
      assert input[..i + 1] == input[..i] + [c];
      EscapeConcat(input[..i], [c]);
      i := i + 1;
    }
    assert input[..i] == input;
  }

  /** The inverse of `Escape`: each of the five entities is read back as its character. */
  function Unescape(t: string): string
    decreases |t|
  {
    if t == [] then []
    else if "&amp;" <= t then "&" + Unescape(t[5..])
    else if "&lt;" <= t then "<" + Unescape(t[4..])
    else if "&gt;" <= t then ">" + Unescape(t[4..])
    else if "&apos;" <= t then "'" + Unescape(t[6..])
    else if "&quot;" <= t then "\"" + Unescape(t[6..])
    else [t[0]] + Unescape(t[1..])
  }

  /** Reading back one escaped character and what follows it. */
  lemma UnescapeStep(c: char, rest: string)
    ensures Unescape(EscapeChar(c) + rest) == [c] + Unescape(rest)
  {
    var e := EscapeChar(c);
    var t := e + rest;
    assert t[|e|..] == rest;
    if !IsSpecial(c) {
      assert t[0] == c && t[1..] == rest;
      assert !("&amp;" <= t) && !("&lt;" <= t) && !("&gt;" <= t);
      assert !("&apos;" <= t) && !("&quot;" <= t);
    } else if c == '<' {
      assert !("&amp;" <= t) by { assert t[1] == 'l'; }
    } else if c == '>' {
      assert !("&amp;" <= t) by { assert t[1] == 'g'; }
      assert !("&lt;" <= t) by { assert t[1] == 'g'; }
    } else if c == '\'' {
      assert !("&amp;" <= t) by { assert t[2] == 'p'; }
      assert !("&lt;" <= t) && !("&gt;" <= t) by { assert t[1] == 'a'; }
    } else if c == '"' {
      assert !("&amp;" <= t) && !("&apos;" <= t) by { assert t[1] == 'q'; }
      assert !("&lt;" <= t) && !("&gt;" <= t) by { assert t[1] == 'q'; }
    }
  }

  /** Nothing is lost by escaping: every text is recovered from its escape. */
  lemma {:induction false} UnescapeEscape(s: string)
    ensures Unescape(Escape(s)) == s
    decreases |s|
  {
    if s != [] {
      UnescapeStep(s[0], Escape(s[1..]));
      UnescapeEscape(s[1..]);
      assert s == [s[0]] + s[1..];
    }
  }
}
