/** The text pieces of the certificate image generator: the student name
    escaped for the SVG overlay, and the SVG `text-anchor` of an alignment. */
module CertificateGenerate {

  /** The characters `/[<>&'"]/` replaces. */
  predicate IsMarkup(c: char)
  {
    c == '<' || c == '>' || c == '&' || c == '\'' || c == '"'
  }

  /** The replacement of one character: the predefined entities of section
      4.6 of XML 1.0 for the five markup characters, the character itself
      otherwise. */
  function EscapeChar(c: char): (r: string)
    ensures |r| >= 1
    ensures !IsMarkup(c) ==> r == [c]
    ensures IsMarkup(c) ==> r[0] == '&'
  {
    match c
    case '<' => "&lt;"
    case '>' => "&gt;"
    case '&' => "&amp;"
    case '\'' => "&apos;"
    case '"' => "&quot;"
    case _ => [c]
  }

  /** `escapeXml`: every character replaced by its escape, in order. */
  function EscapeXml(s: string): string
  {
    if s == [] then [] else EscapeChar(s[0]) + EscapeXml(s[1..])
  }

  /** Occurrences of `c` in `s`. */
  function Count(s: string, c: char): nat
  {
    if s == [] then 0 else (if s[0] == c then 1 else 0) + Count(s[1..], c)
  }

  /** Each `<` and `>` grows by three characters, each `&` by four, each
      quote by five. */
  lemma {:induction false} EscapeLength(s: string)
    ensures |EscapeXml(s)| == |s| + 3 * (Count(s, '<') + Count(s, '>')) + 4 * Count(s, '&') + 5 * (Count(s, '\'') + Count(s, '"'))
  {
    if s != [] {
      EscapeLength(s[1..]);
    }
  }

  /** The escape of a character holds no `<`, `>` or quote. */
  lemma EscapeCharClean(c: char)
    ensures forall i :: 0 <= i < |EscapeChar(c)| ==> var d := EscapeChar(c)[i]; d != '<' && d != '>' && d != '\'' && d != '"'
  {
  }

  /** The output never holds a raw `<`, `>` or quote. */
  lemma {:induction false} EscapeClean(s: string)
    ensures forall i :: 0 <= i < |EscapeXml(s)| ==> var d := EscapeXml(s)[i]; d != '<' && d != '>' && d != '\'' && d != '"'
  {
    if s != [] {
      EscapeCharClean(s[0]);
      EscapeClean(s[1..]);
    }
  }

  /** Text without markup characters is returned as it is. */
  lemma {:induction false} EscapePlain(s: string)
    requires forall i :: 0 <= i < |s| ==> !IsMarkup(s[i])
    ensures EscapeXml(s) == s
  {
    if s != [] {
      EscapePlain(s[1..]);
    }
  }

  /** What an XML reader makes of the five predefined entities: each is read
      back as its character; every other character stands for itself. */
  function Unescape(s: string): string
    decreases |s|
  {
    if s == [] then []
    else if s[0] != '&' then [s[0]] + Unescape(s[1..])
    else if |s| >= 4 && s[..4] == "&lt;" then "<" + Unescape(s[4..])
    else if |s| >= 4 && s[..4] == "&gt;" then ">" + Unescape(s[4..])
    else if |s| >= 5 && s[..5] == "&amp;" then "&" + Unescape(s[5..])
    else if |s| >= 6 && s[..6] == "&apos;" then "'" + Unescape(s[6..])
    else if |s| >= 6 && s[..6] == "&quot;" then "\"" + Unescape(s[6..])
    else [s[0]] + Unescape(s[1..])
  }

  /** Reading back one escaped character. */
  lemma UnescapeChar(c: char, t: string)
    ensures Unescape(EscapeChar(c) + t) == [c] + Unescape(t)
  {
    var e := EscapeChar(c);
    var s := e + t;
    assert s[..|e|] == e;
    assert s[|e|..] == t;
    if c == '<' {
      assert s[..4] == "&lt;";
    } else if c == '>' {
      assert s[..4] == "&gt;" != "&lt;";
    } else if c == '&' {
      assert s[..4] == "&amp" && s[..5] == "&amp;";
    } else if c == '\'' {
      assert s[..4] == "&apo" && s[..5] == "&apos" && s[..6] == "&apos;";
    } else if c == '"' {
      assert s[..4] == "&quo" && s[..5] == "&quot" && s[..6] == "&quot;" != "&apos;";
    } else {
      assert s[1..] == t;
    }
  }

  /** Unescaping undoes escaping. */
  lemma {:induction false} EscapeRoundTrip(s: string)
    ensures Unescape(EscapeXml(s)) == s
  {
    if s != [] {
      UnescapeChar(s[0], EscapeXml(s[1..]));
      EscapeRoundTrip(s[1..]);
    }
  }

  /** Distinct names stay distinct once escaped. */
  lemma EscapeInjective(s: string, t: string)
    requires EscapeXml(s) == EscapeXml(t)
    ensures s == t
  {
    EscapeRoundTrip(s);
    EscapeRoundTrip(t);
  }

  /** The `textAnchor` expression: left is `start`, right is `end`, anything
      else `middle`. */
  function TextAnchor(textAlignment: string): (r: string)
    ensures r == "start" || r == "middle" || r == "end"
    ensures r == "start" <==> textAlignment == "left"
    ensures r == "end" <==> textAlignment == "right"
  {
    if textAlignment == "left" then "start"
    else if textAlignment == "right" then "end"
    else "middle"
  }
}
