/**
  The two string helpers of the web interface (src/web.rs): escaping text
  before it is placed in an HTML page, and trimming an RFC 3339 timestamp to
  a readable date and time.
 */
module Web {
  import opened Strings

  /** `html_escape`: five `replace` calls in a row, the ampersand first so
      that the entities the later calls insert are not escaped again. */
  function HtmlEscape(s: string): (r: string)
    ensures (forall x :: x in s ==> !IsSpecial(x)) ==> r == s
  {
    var amp := ReplaceChar(s, '&', "&amp;");
    var lt := ReplaceChar(amp, '<', "&lt;");
    var gt := ReplaceChar(lt, '>', "&gt;");
    var quot := ReplaceChar(gt, '"', "&quot;");
    ReplaceChar(quot, '\'', "&#x27;")
  }

  /** The characters `html_escape` rewrites. */
  predicate IsSpecial(c: char) {
    c == '&' || c == '<' || c == '>' || c == '"' || c == '\''
  }

  /** The entity each character becomes, taken one character at a time. */
  function EscapeChar(c: char): (e: string)
    ensures e == [c] <==> !IsSpecial(c)
    ensures forall x :: x in e ==> x == '&' || !IsSpecial(x)
  {
    match c
    case '&' => "&amp;"
    case '<' => "&lt;"
    case '>' => "&gt;"
    case '"' => "&quot;"
    case '\'' => "&#x27;"
    case _ => [c]
  }

  /** The escape as a character-by-character rewrite: the reference the
      chain of replacements is proved against. */
  function EscapeEach(s: string): (r: string)
    ensures |r| >= |s|
  {
    if s == [] then [] else EscapeChar(s[0]) + EscapeEach(s[1..])
  }

  /** Escaping a concatenation is the concatenation of the escapes. */
  lemma {:induction false} HtmlEscapeConcat(a: string, b: string)
    ensures HtmlEscape(a + b) == HtmlEscape(a) + HtmlEscape(b)
  {
    var amp := ReplaceChar(a + b, '&', "&amp;");
    ReplaceCharConcat(a, b, '&', "&amp;");
    var a1, b1 := ReplaceChar(a, '&', "&amp;"), ReplaceChar(b, '&', "&amp;");
    ReplaceCharConcat(a1, b1, '<', "&lt;");
    var a2, b2 := ReplaceChar(a1, '<', "&lt;"), ReplaceChar(b1, '<', "&lt;");
    ReplaceCharConcat(a2, b2, '>', "&gt;");
    var a3, b3 := ReplaceChar(a2, '>', "&gt;"), ReplaceChar(b2, '>', "&gt;");
    ReplaceCharConcat(a3, b3, '"', "&quot;");
    var a4, b4 := ReplaceChar(a3, '"', "&quot;"), ReplaceChar(b3, '"', "&quot;");
    ReplaceCharConcat(a4, b4, '\'', "&#x27;");
  }

  /** On a single character the chain of replacements gives that
      character's entity: no entity contains a character a later call
      replaces. */
  lemma HtmlEscapeChar(c: char)
    ensures HtmlEscape([c]) == EscapeChar(c)
  {
    ReplaceSingle(c, '&', "&amp;");
    if c == '&' {
      assert '<' !in "&amp;" && '>' !in "&amp;" && '"' !in "&amp;" && '\'' !in "&amp;";
    } else if c == '<' {
      ReplaceSingle(c, '<', "&lt;");
      assert '>' !in "&lt;" && '"' !in "&lt;" && '\'' !in "&lt;";
    } else if c == '>' {
      ReplaceSingle(c, '<', "&lt;");
      ReplaceSingle(c, '>', "&gt;");
      assert '"' !in "&gt;" && '\'' !in "&gt;";
    } else if c == '"' {
      ReplaceSingle(c, '<', "&lt;");
      ReplaceSingle(c, '>', "&gt;");
      ReplaceSingle(c, '"', "&quot;");
      assert '\'' !in "&quot;";
    } else {
      ReplaceSingle(c, '<', "&lt;");
      ReplaceSingle(c, '>', "&gt;");
      ReplaceSingle(c, '"', "&quot;");
      ReplaceSingle(c, '\'', "&#x27;");
    }
  }

  /** Replacing in a one-character text. */
  lemma ReplaceSingle(c: char, d: char, rep: string)
    ensures ReplaceChar([c], d, rep) == if c == d then rep else [c]
  {
    assert ReplaceChar([c], d, rep) == (if c == d then rep else [c]) + ReplaceChar([], d, rep);
  }

  /** The chain of replacements escapes each character on its own. */
  lemma {:induction false} HtmlEscapeEach(s: string)
    ensures HtmlEscape(s) == EscapeEach(s)
  {
    if s != [] {
      assert s == [s[0]] + s[1..];
      HtmlEscapeConcat([s[0]], s[1..]);
      HtmlEscapeChar(s[0]);
      HtmlEscapeEach(s[1..]);
    }
  }

  /** Reading the five entities back: the inverse of the escape. */
  function Unescape(s: string): (r: string)
    ensures |r| <= |s|
  {
    if s == [] then []
    else if StartsWith(s, "&amp;") then "&" + Unescape(s[5..])
    else if StartsWith(s, "&lt;") then "<" + Unescape(s[4..])
    else if StartsWith(s, "&gt;") then ">" + Unescape(s[4..])
    else if StartsWith(s, "&quot;") then "\"" + Unescape(s[6..])
    else if StartsWith(s, "&#x27;") then "'" + Unescape(s[6..])
    else [s[0]] + Unescape(s[1..])
  }

  /** Unescaping one escaped character gives the character back. */
  lemma UnescapeChar(c: char, rest: string)
    ensures Unescape(EscapeChar(c) + rest) == [c] + Unescape(rest)
  {
    var e := EscapeChar(c) + rest;
    if c == '&' {
      assert e[..5] == "&amp;" && e[5..] == rest;
      assert Unescape(e) == "&" + Unescape(e[5..]);
    } else if c == '<' {
      assert e[..4] == "&lt;" && e[4..] == rest;
      Differ(e, "&amp;", 1);
      assert Unescape(e) == "<" + Unescape(e[4..]);
    } else if c == '>' {
      assert e[..4] == "&gt;" && e[4..] == rest;
      Differ(e, "&amp;", 1);
      Differ(e, "&lt;", 1);
      assert Unescape(e) == ">" + Unescape(e[4..]);
    } else if c == '"' {
      assert e[..6] == "&quot;" && e[6..] == rest;
      Differ(e, "&amp;", 1);
      Differ(e, "&lt;", 1);
      Differ(e, "&gt;", 1);
      assert Unescape(e) == "\"" + Unescape(e[6..]);
    } else if c == '\'' {
      assert e[..6] == "&#x27;" && e[6..] == rest;
      Differ(e, "&amp;", 1);
      Differ(e, "&lt;", 1);
      Differ(e, "&gt;", 1);
      Differ(e, "&quot;", 1);
      assert Unescape(e) == "'" + Unescape(e[6..]);
    } else {
      assert e[0] == c && e[1..] == rest;
      Differ(e, "&amp;", 0);
      Differ(e, "&lt;", 0);
      Differ(e, "&gt;", 0);
      Differ(e, "&quot;", 0);
      Differ(e, "&#x27;", 0);
      assert Unescape(e) == [c] + Unescape(e[1..]);
    }
  }

  /** A text that differs from a pattern at some position of the pattern
      does not start with it. */
  lemma Differ(s: string, p: string, i: nat)
    requires i < |s| && i < |p| && s[i] != p[i]
    ensures !StartsWith(s, p)
  {
    assert |p| <= |s| ==> s[..|p|][i] == s[i];
  }

  /** The escape loses nothing: unescaping its output gives the input back,
      so different texts never look alike on the page. */
  lemma {:induction false} EscapeRoundTrip(s: string)
    ensures Unescape(HtmlEscape(s)) == s
  {
    HtmlEscapeEach(s);
    EscapeEachRoundTrip(s);
  }

  lemma {:induction false} EscapeEachRoundTrip(s: string)
    ensures Unescape(EscapeEach(s)) == s
  {
    if s != [] {
      UnescapeChar(s[0], EscapeEach(s[1..]));
      EscapeEachRoundTrip(s[1..]);
    }
  }

  /** The escape holds no markup character and no quote: the ampersand,
      which starts every entity, is the only special character left. */
  lemma HtmlEscapeSafe(s: string)
    ensures '<' !in HtmlEscape(s) && '>' !in HtmlEscape(s) && '"' !in HtmlEscape(s) && '\'' !in HtmlEscape(s)
  {
    HtmlEscapeEach(s);
    EscapeEachSafe(s);
  }

  lemma {:induction false} EscapeEachSafe(s: string)
    ensures forall x :: x in EscapeEach(s) ==> x == '&' || !IsSpecial(x)
  {
    if s != [] {
      EscapeEachSafe(s[1..]);
    }
  }

  /** How many characters `format_timestamp` keeps. */
  const ShownLength: nat := 19

  /** `format_timestamp`: the 'T' between date and time becomes a space and
      the text is cut after the seconds. */
  function FormatTimestamp(ts: string): (r: string)
    ensures |r| == if |ts| < ShownLength then |ts| else ShownLength
    ensures 'T' !in r
    ensures forall i :: 0 <= i < |r| ==> r[i] == if ts[i] == 'T' then ' ' else ts[i]
  {
    var spaced := ReplaceChar(ts, 'T', " ");
    ReplaceOneForOne(ts, 'T', ' ');
    if |spaced| <= ShownLength then spaced else spaced[..ShownLength]
  }

  /** Replacing a character by one character keeps every position. */
  lemma {:induction false} ReplaceOneForOne(s: string, c: char, d: char)
    ensures |ReplaceChar(s, c, [d])| == |s|
    ensures forall i :: 0 <= i < |s| ==> ReplaceChar(s, c, [d])[i] == if s[i] == c then d else s[i]
  {
    if s != [] {
      ReplaceOneForOne(s[1..], c, d);
    }
  }

  /** Formatting a formatted timestamp changes nothing. */
  lemma FormatTimestampIdempotent(ts: string)
    ensures FormatTimestamp(FormatTimestamp(ts)) == FormatTimestamp(ts)
  {
  }

  /** The date and time of an RFC 3339 timestamp, without the offset. */
  lemma FormatTimestampExample()
    ensures FormatTimestamp("2024-01-15T10:30:00+00:00") == "2024-01-15 10:30:00"
  {
    FormatTimestampOf("2024-01-15T10:30:00+00:00", "2024-01-15 10:30:00");
  }

  /** A timestamp of at least 19 characters is shown as its first 19, with
      each 'T' turned into a space. */
  lemma FormatTimestampOf(ts: string, shown: string)
    requires |ts| >= ShownLength && |shown| == ShownLength
    requires forall i :: 0 <= i < ShownLength ==> shown[i] == if ts[i] == 'T' then ' ' else ts[i]
    ensures FormatTimestamp(ts) == shown
  {
  }
}
