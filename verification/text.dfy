/** String helpers of the popup: lower-casing for the search box and escapeHtml,
    which makes titles and urls safe to place inside markup. */
module Text {
  import opened Seqs

  predicate IsUpper(c: char) { 'A' <= c <= 'Z' }

  function LowerChar(c: char): char {
    if IsUpper(c) then (c as int - 'A' as int + 'a' as int) as char else c
  }

  /** `toLowerCase`, restricted to the ASCII letters. */
  function ToLower(s: string): (r: string)
    ensures |r| == |s|
    ensures forall i | 0 <= i < |r| :: !IsUpper(r[i])
    ensures forall i | 0 <= i < |s| && !IsUpper(s[i]) :: r[i] == s[i]
    ensures forall i | 0 <= i < |s| && IsUpper(s[i]) :: r[i] as int == s[i] as int - 'A' as int + 'a' as int
  {
    seq(|s|, i requires 0 <= i < |s| => LowerChar(s[i]))
  }

  /** Lower-casing twice is lower-casing once, so the already lower-cased query
      is left alone when it is lower-cased again. */
  lemma ToLowerIdempotent(s: string)
    ensures ToLower(ToLower(s)) == ToLower(s)
  {
  }

  // ---------------------------------------------------------------------------
  // escapeHtml

  /** `s.replace(/c/g, rep)` for a one-character pattern. */
  function ReplaceAll(s: string, c: char, rep: string): string
    decreases |s|
  {
    if |s| == 0 then ""
    else (if s[0] == c then rep else [s[0]]) + ReplaceAll(s[1..], c, rep)
  }

  lemma {:induction false} ReplaceAllAppend(a: string, b: string, c: char, rep: string)
    ensures ReplaceAll(a + b, c, rep) == ReplaceAll(a, c, rep) + ReplaceAll(b, c, rep)
    decreases |a|
  {
    if |a| == 0 {
      assert a + b == b;
    } else {
      assert (a + b)[1..] == a[1..] + b;
      ReplaceAllAppend(a[1..], b, c, rep);
    }
  }

  lemma {:induction false} ReplaceAllAbsent(s: string, c: char, rep: string)
    requires c !in s
    ensures ReplaceAll(s, c, rep) == s
    decreases |s|
  {
    if |s| > 0 {
      assert s[0] != c;
      ReplaceAllAbsent(s[1..], c, rep);
    }
  }

  lemma ReplaceAllSingle(x: char, c: char, rep: string)
    ensures ReplaceAll([x], c, rep) == if x == c then rep else [x]
  {
    assert [x][1..] == "";
  }

  /** The five replacement passes, ampersand first. */
  function EscapePasses(s: string): string {
    QuotPasses(ReplaceAll(ReplaceAll(ReplaceAll(s, '&', "&amp;"), '<', "&lt;"), '>', "&gt;"))
  }

  /** The last two passes, on the quote characters. */
  function QuotPasses(s: string): string {
    ReplaceAll(ReplaceAll(s, '"', "&quot;"), '\'', "&#39;")
  }

  /** escapeHtml: the empty (falsy) text gives the empty string, any other text
      goes through the five passes. */
  function EscapeHtml(text: string): string {
    if text == "" then "" else EscapePasses(text)
  }

  /** Reference definition: each character on its own becomes its entity. */
  function EscapeChar(c: char): string {
    match c
    case '&' => "&amp;"
    case '<' => "&lt;"
    case '>' => "&gt;"
    case '"' => "&quot;"
    case '\'' => "&#39;"
    case _ => [c]
  }

  function EscapeEach(s: string): string
    decreases |s|
  {
    if |s| == 0 then "" else EscapeChar(s[0]) + EscapeEach(s[1..])
  }

  lemma EscapePassesAppend(a: string, b: string)
    ensures EscapePasses(a + b) == EscapePasses(a) + EscapePasses(b)
  {
    var s1a, s1b := ReplaceAll(a, '&', "&amp;"), ReplaceAll(b, '&', "&amp;");
    ReplaceAllAppend(a, b, '&', "&amp;");
    var s2a, s2b := ReplaceAll(s1a, '<', "&lt;"), ReplaceAll(s1b, '<', "&lt;");
    ReplaceAllAppend(s1a, s1b, '<', "&lt;");
    var s3a, s3b := ReplaceAll(s2a, '>', "&gt;"), ReplaceAll(s2b, '>', "&gt;");
    ReplaceAllAppend(s2a, s2b, '>', "&gt;");
    QuotPassesAppend(s3a, s3b);
  }

  lemma QuotPassesAppend(a: string, b: string)
    ensures QuotPasses(a + b) == QuotPasses(a) + QuotPasses(b)
  {
    ReplaceAllAppend(a, b, '"', "&quot;");
    ReplaceAllAppend(ReplaceAll(a, '"', "&quot;"), ReplaceAll(b, '"', "&quot;"), '\'', "&#39;");
  }

  lemma QuotPassesAbsent(s: string)
    requires '"' !in s && '\'' !in s
    ensures QuotPasses(s) == s
  {
    ReplaceAllAbsent(s, '"', "&quot;");
    ReplaceAllAbsent(s, '\'', "&#39;");
  }

  lemma EscapePassesChar(c: char)
    ensures EscapePasses([c]) == EscapeChar(c)
  {
    ReplaceAllSingle(c, '&', "&amp;");
    if c == '&' {
      assert '<' !in "&amp;" && '>' !in "&amp;" && '"' !in "&amp;" && '\'' !in "&amp;";
      ReplaceAllAbsent("&amp;", '<', "&lt;");
      ReplaceAllAbsent("&amp;", '>', "&gt;");
      QuotPassesAbsent("&amp;");
    } else {
      ReplaceAllSingle(c, '<', "&lt;");
      if c == '<' {
        assert '>' !in "&lt;" && '"' !in "&lt;" && '\'' !in "&lt;";
        ReplaceAllAbsent("&lt;", '>', "&gt;");
        QuotPassesAbsent("&lt;");
      } else {
        ReplaceAllSingle(c, '>', "&gt;");
        if c == '>' {
          assert '"' !in "&gt;" && '\'' !in "&gt;";
          QuotPassesAbsent("&gt;");
        } else {
          ReplaceAllSingle(c, '"', "&quot;");
          if c == '"' {
            assert '\'' !in "&quot;";
            ReplaceAllAbsent("&quot;", '\'', "&#39;");
          } else {
            ReplaceAllSingle(c, '\'', "&#39;");
          }
        }
      }
    }
  }

  /** Running the passes one after another escapes each character independently:
      because `&` goes first, no entity is escaped a second time. */
  lemma {:induction false} EscapeHtmlPerChar(s: string)
    ensures EscapeHtml(s) == EscapeEach(s)
    decreases |s|
  {
    if |s| > 0 {
      assert s == [s[0]] + s[1..];
      EscapePassesAppend([s[0]], s[1..]);
      EscapePassesChar(s[0]);
      EscapeHtmlPerChar(s[1..]);
      if |s[1..]| == 0 {
        assert EscapePasses(s[1..]) == "";
      }
    }
  }

  predicate IsMarkup(c: char) { c == '<' || c == '>' || c == '"' || c == '\'' }

  lemma {:induction false} EscapeEachNoMarkup(s: string)
    ensures forall i | 0 <= i < |EscapeEach(s)| :: !IsMarkup(EscapeEach(s)[i])
    decreases |s|
  {
    if |s| > 0 {
      EscapeEachNoMarkup(s[1..]);
      var head, tail := EscapeChar(s[0]), EscapeEach(s[1..]);
      assert forall i | 0 <= i < |head| :: !IsMarkup(head[i]);
      assert forall i | |head| <= i < |head + tail| :: (head + tail)[i] == tail[i - |head|];
    }
  }

  /** The escaped text contains no angle bracket and no quote of either kind. */
  lemma EscapeHtmlNoMarkup(s: string)
    ensures forall i | 0 <= i < |EscapeHtml(s)| :: !IsMarkup(EscapeHtml(s)[i])
  {
    EscapeHtmlPerChar(s);
    EscapeEachNoMarkup(s);
  }

  /** Decoding of the five entities, left to right. */
  function Unescape(s: string): string
    decreases |s|
  {
    if |s| == 0 then ""
    else if StartsWith(s, "&amp;") then "&" + Unescape(s[5..])
    else if StartsWith(s, "&lt;") then "<" + Unescape(s[4..])
    else if StartsWith(s, "&gt;") then ">" + Unescape(s[4..])
    else if StartsWith(s, "&quot;") then "\"" + Unescape(s[6..])
    else if StartsWith(s, "&#39;") then "'" + Unescape(s[5..])
    else [s[0]] + Unescape(s[1..])
  }

  lemma UnescapeChar(c: char, t: string)
    ensures Unescape(EscapeChar(c) + t) == [c] + Unescape(t)
  {
    if c == '&' || c == '<' || c == '>' || c == '"' || c == '\'' {
      UnescapeEntity(c, t);
    } else {
      UnescapePlain(c, t);
    }
  }

  /** An entity decodes to its character. */
  lemma UnescapeEntity(c: char, t: string)
    requires c == '&' || c == '<' || c == '>' || c == '"' || c == '\''
    ensures Unescape(EscapeChar(c) + t) == [c] + Unescape(t)
  {
    var x := EscapeChar(c);
    var e := x + t;
    assert e[..|x|] == x && e[|x|..] == t;
    if c == '&' {
      assert StartsWith(e, "&amp;");
    } else if c == '<' {
      assert e[1] == 'l';
      assert StartsWith(e, "&lt;");
    } else if c == '>' {
      assert e[1] == 'g';
      assert StartsWith(e, "&gt;");
    } else if c == '"' {
      assert e[1] == 'q';
      assert StartsWith(e, "&quot;");
    } else {
      assert e[1] == '#';
      assert StartsWith(e, "&#39;");
    }
  }

  /** A character other than the five decodes to itself: nothing but an
      ampersand starts an entity. */
  lemma UnescapePlain(c: char, t: string)
    requires c != '&' && c != '<' && c != '>' && c != '"' && c != '\''
    ensures Unescape(EscapeChar(c) + t) == [c] + Unescape(t)
  {
    var e := [c] + t;
    assert EscapeChar(c) == [c];
    assert e[0] == c && e[1..] == t;
    assert !StartsWith(e, "&amp;") && !StartsWith(e, "&lt;") && !StartsWith(e, "&gt;")
      && !StartsWith(e, "&quot;") && !StartsWith(e, "&#39;");
  }

  lemma {:induction false} UnescapeEscapeEach(s: string)
    ensures Unescape(EscapeEach(s)) == s
    decreases |s|
  {
    if |s| > 0 {
      UnescapeChar(s[0], EscapeEach(s[1..]));
      UnescapeEscapeEach(s[1..]);
      assert s == [s[0]] + s[1..];
    }
  }

  /** Decoding the five entities recovers the original text. */
  lemma EscapeHtmlRoundTrip(s: string)
    ensures Unescape(EscapeHtml(s)) == s
  {
    EscapeHtmlPerChar(s);
    UnescapeEscapeEach(s);
  }
}
