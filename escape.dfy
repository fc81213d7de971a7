/** escapeHTML: the five markup-significant characters become character references,
    every other character is copied unchanged and in order. */
module Escape {

  /** One of `& < > " '`, the characters the escaper's pattern matches. */
  predicate IsSpecial(c: char) {
    c == '&' || c == '<' || c == '>' || c == '"' || c == '\''
  }

  /** The characters that can open markup: every special except the ampersand. */
  predicate IsMarkup(c: char) {
    c == '<' || c == '>' || c == '"' || c == '\''
  }

  predicate NoSpecials(s: string) {
    forall k | 0 <= k < |s| :: !IsSpecial(s[k])
  }

  predicate NoMarkup(s: string) {
    forall k | 0 <= k < |s| :: !IsMarkup(s[k])
  }

  /** The replacement table of escapeHTML. */
  function EscapeChar(c: char): (r: string)
    ensures |r| >= 1 && NoMarkup(r)
    ensures IsSpecial(c) <==> r[0] == '&'
    ensures !IsSpecial(c) <==> r == [c]
  {
    match c
    case '&' => "&amp;"
    case '<' => "&lt;"
    case '>' => "&gt;"
    case '"' => "&quot;"
    case '\'' => "&#39;"
    case _ => [c]
  }

  /** escapeHTML(str): every match of /[&<>"']/g is replaced, left to right. */
  function EscapeHtml(s: string): (r: string)
    ensures |r| >= |s|
    ensures NoMarkup(r)
  {
    if s == [] then [] else EscapeChar(s[0]) + EscapeHtml(s[1..])
  }

  /** `t` begins with `p`. */
  predicate HasPrefix(t: string, p: string) {
    |p| <= |t| && forall i | 0 <= i < |p| :: t[i] == p[i]
  }

  /** `t` begins with one of the five references the escaper emits. */
  predicate StartsReference(t: string) {
    HasPrefix(t, "&amp;") || HasPrefix(t, "&lt;") || HasPrefix(t, "&gt;")
    || HasPrefix(t, "&quot;") || HasPrefix(t, "&#39;")
  }

  /** Decodes the five references back to their characters; anything else is copied. */
  function Unescape(t: string): string
    decreases |t|
  {
    if t == [] then []
    else if t[0] != '&' then [t[0]] + Unescape(t[1..])
    else if HasPrefix(t, "&amp;") then "&" + Unescape(t[5..])
    else if HasPrefix(t, "&lt;") then "<" + Unescape(t[4..])
    else if HasPrefix(t, "&gt;") then ">" + Unescape(t[4..])
    else if HasPrefix(t, "&quot;") then "\"" + Unescape(t[6..])
    else if HasPrefix(t, "&#39;") then "'" + Unescape(t[5..])
    else [t[0]] + Unescape(t[1..])
  }

  /** Decoding a reference in front of `rest` yields its character. */
  lemma UnescapeReference(c: char, rest: string)
    requires IsSpecial(c)
    ensures Unescape(EscapeChar(c) + rest) == [c] + Unescape(rest)
  {
    var e := EscapeChar(c);
    var t := e + rest;
    assert t[0] == '&';
    assert t[|e|..] == rest;
    if c == '&' {
      assert HasPrefix(t, "&amp;");
    } else if c == '<' {
      assert t[1] == 'l';
      assert HasPrefix(t, "&lt;");
    } else if c == '>' {
      assert t[1] == 'g';
      assert HasPrefix(t, "&gt;");
    } else if c == '"' {
      assert t[1] == 'q';
      assert HasPrefix(t, "&quot;");
    } else {
      assert t[1] == '#';
      assert HasPrefix(t, "&#39;");
    }
  }

  /** Escaping one character in front of `rest`: decoding consumes exactly that
      character's replacement. */
  lemma UnescapeStep(c: char, rest: string)
    ensures Unescape(EscapeChar(c) + rest) == [c] + Unescape(rest)
  {
    if IsSpecial(c) {
      UnescapeReference(c, rest);
    } else {
      var t := EscapeChar(c) + rest;
      assert t[0] == c && t[1..] == rest;
    }
  }

  /** Decoding the references recovers the input: escaping loses no information. */
  lemma {:induction false} UnescapeEscape(s: string)
    ensures Unescape(EscapeHtml(s)) == s
  {
    if s != [] {
      UnescapeEscape(s[1..]);
      UnescapeStep(s[0], EscapeHtml(s[1..]));
      assert [s[0]] + s[1..] == s;
    }
  }

  /** escapeHTML is injective. */
  lemma EscapeInjective(a: string, b: string)
    requires EscapeHtml(a) == EscapeHtml(b)
    ensures a == b
  {
    UnescapeEscape(a);
    UnescapeEscape(b);
  }

  /** Every ampersand in the output opens one of the five references. */
  lemma {:induction false} EscapedAmpersandsStartReferences(s: string)
    ensures forall k | 0 <= k < |EscapeHtml(s)| && EscapeHtml(s)[k] == '&' ::
      StartsReference(EscapeHtml(s)[k..])
  {
    if s != [] {
      EscapedAmpersandsStartReferences(s[1..]);
      var e, tail := EscapeChar(s[0]), EscapeHtml(s[1..]);
      var r := e + tail;
      forall k | 0 <= k < |r| && r[k] == '&'
        ensures StartsReference(r[k..])
      {
        if k < |e| {
          assert IsSpecial(s[0]) && k == 0;
          assert r[k..] == r;
          assert HasPrefix(r, e) by { assert r[..|e|] == e; }
          assert e == "&amp;" || e == "&lt;" || e == "&gt;" || e == "&quot;" || e == "&#39;";
        } else {
          assert tail[k - |e|] == '&';
          assert r[k..] == tail[k - |e|..];
        }
      }
    }
  }

  /** Text in the form the escaper produces: no markup character, and every ampersand opens
      one of the five references. */
  ghost predicate IsEscapedText(t: string) {
    NoMarkup(t) && forall k | 0 <= k < |t| && t[k] == '&' :: StartsReference(t[k..])
  }

  /** Every output of the escaper is escaped text. */
  lemma EscapeHtmlIsEscapedText(s: string)
    ensures IsEscapedText(EscapeHtml(s))
  {
    EscapedAmpersandsStartReferences(s);
  }

  /** Strings with none of the five specials are left exactly as they are, and only those. */
  lemma {:induction false} EscapeFixedPoint(s: string)
    ensures EscapeHtml(s) == s <==> NoSpecials(s)
  {
    if s != [] {
      EscapeFixedPoint(s[1..]);
      if IsSpecial(s[0]) {
        EscapeGrowsOnSpecial(s);
      } else {
        assert s == [s[0]] + s[1..];
      }
    }
  }

  /** A string holding a special character gets strictly longer when escaped. */
  lemma {:induction false} EscapeGrowsOnSpecial(s: string)
    requires !NoSpecials(s)
    ensures |EscapeHtml(s)| > |s|
  {
    if !IsSpecial(s[0]) {
      assert !NoSpecials(s[1..]) by {
        var k :| 0 <= k < |s| && IsSpecial(s[k]);
        assert s[1..][k - 1] == s[k];
      }
      EscapeGrowsOnSpecial(s[1..]);
    }
  }

  /** The output holds an ampersand exactly when the input held one of the specials. */
  lemma {:induction false} EscapeHasAmpersandIffSpecial(s: string)
    ensures (exists k | 0 <= k < |EscapeHtml(s)| :: EscapeHtml(s)[k] == '&') <==> !NoSpecials(s)
  {
    if s != [] {
      EscapeHasAmpersandIffSpecial(s[1..]);
      var e, tail := EscapeChar(s[0]), EscapeHtml(s[1..]);
      var r := e + tail;
      assert EscapeHtml(s) == r;
      if IsSpecial(s[0]) {
        assert r[0] == '&';
        assert !NoSpecials(s) by { assert IsSpecial(s[0]); }
      } else {
        assert r == [s[0]] + tail;
        if exists k | 0 <= k < |r| :: r[k] == '&' {
          var k :| 0 <= k < |r| && r[k] == '&';
          assert tail[k - 1] == '&';
        }
        if !NoSpecials(s) {
          var k :| 0 <= k < |s| && IsSpecial(s[k]);
          assert s[1..][k - 1] == s[k];
          var j :| 0 <= j < |tail| && tail[j] == '&';
          assert r[j + 1] == '&';
        }
      }
    }
  }

  /** Escaping twice equals escaping once exactly for inputs free of the five specials;
      in particular escapeHTML is not idempotent. */
  lemma EscapeTwiceIffNoSpecials(s: string)
    ensures EscapeHtml(EscapeHtml(s)) == EscapeHtml(s) <==> NoSpecials(s)
  {
    var r := EscapeHtml(s);
    EscapeFixedPoint(r);
    EscapeHasAmpersandIffSpecial(s);
    if NoSpecials(s) {
      EscapeFixedPoint(s);
    } else {
      var k :| 0 <= k < |r| && r[k] == '&';
      assert IsSpecial(r[k]);
    }
  }

  /** The concrete witness: "&" escapes to "&amp;", which escapes again to "&amp;amp;". */
  lemma AmpersandEscapedTwice()
    ensures EscapeHtml("&") == "&amp;"
    ensures EscapeHtml(EscapeHtml("&")) == "&amp;amp;"
  {
    assert EscapeHtml("&") == "&amp;";
    var t := "&amp;";
    assert EscapeHtml(t) == "&amp;" + EscapeHtml(t[1..]);
    assert t[1..] == "amp;";
  }
}
