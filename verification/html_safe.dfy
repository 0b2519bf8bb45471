/** HTML-safe serialised JSON (`ToHtmlSafeJson`, jsonp.py:57-60).

    The source serialises with `json.dumps` and then runs three string
    replacements over the text, turning `&`, `<` and `>` into the six-character JSON
    escapes `\u0026`, `\u003c` and `\u003e`. The serialiser itself is not modelled:
    everything here works on the serialised text. */
module HtmlSafe {

  const AMP_ESCAPE: string := "\\u0026"
  const LT_ESCAPE: string := "\\u003c"
  const GT_ESCAPE: string := "\\u003e"

  predicate IsHtmlSpecial(c: char)
  {
    c == '&' || c == '<' || c == '>'
  }

  /** Python's `s.replace(c, rep)` for a one-character pattern. */
  function ReplaceChar(s: string, c: char, rep: string): (r: string)
    ensures |s| == 0 ==> r == ""
  {
    if |s| == 0 then ""
    else (if s[0] == c then rep else [s[0]]) + ReplaceChar(s[1..], c, rep)
  }

  /** The source's expression: three replacements applied in order. */
  function ToHtmlSafeJson(json: string): string
  {
    ReplaceChar(ReplaceChar(ReplaceChar(json, '&', AMP_ESCAPE), '<', LT_ESCAPE), '>', GT_ESCAPE)
  }

  /** The escape of one character in the output. */
  function EscapeChar(c: char): string
  {
    if c == '&' then AMP_ESCAPE
    else if c == '<' then LT_ESCAPE
    else if c == '>' then GT_ESCAPE
    else [c]
  }

  /** Number of characters of `s` that need escaping. */
  function SpecialCount(s: string): nat
  {
    if |s| == 0 then 0 else (if IsHtmlSpecial(s[0]) then 1 else 0) + SpecialCount(s[1..])
  }

  /** Single-pass escaping, character by character: the reference definition
      the three chained replacements are proved equal to. */
  function EscapeEach(s: string): string
  {
    if |s| == 0 then "" else EscapeChar(s[0]) + EscapeEach(s[1..])
  }

  /** Escaped text holds no HTML-special character and is five characters
      longer per escape. */
  lemma {:induction false} EscapeEachHasNoSpecials(s: string)
    ensures forall i :: 0 <= i < |EscapeEach(s)| ==> !IsHtmlSpecial(EscapeEach(s)[i])
    ensures |EscapeEach(s)| == |s| + 5 * SpecialCount(s)
    decreases |s|
  {
    if |s| > 0 {
      EscapeEachHasNoSpecials(s[1..]);
      var head := EscapeChar(s[0]);
      var tail := EscapeEach(s[1..]);
      assert EscapeEach(s) == head + tail;
      assert forall i :: 0 <= i < |head| ==> !IsHtmlSpecial(head[i]);
    }
  }

  lemma {:induction false} ReplaceCharAppend(a: string, b: string, c: char, rep: string)
    ensures ReplaceChar(a + b, c, rep) == ReplaceChar(a, c, rep) + ReplaceChar(b, c, rep)
    decreases |a|
  {
    if |a| == 0 {
      assert a + b == b;
    } else {
      assert (a + b)[1..] == a[1..] + b;
      ReplaceCharAppend(a[1..], b, c, rep);
    }
  }

  /** A replacement that cannot see its own pattern leaves text unchanged. */
  lemma {:induction false} ReplaceCharAbsent(s: string, c: char, rep: string)
    requires forall i :: 0 <= i < |s| ==> s[i] != c
    ensures ReplaceChar(s, c, rep) == s
    decreases |s|
  {
    if |s| > 0 {
      ReplaceCharAbsent(s[1..], c, rep);
    }
  }

  lemma ReplaceSingle(c: char, x: char, rep: string)
    ensures ReplaceChar([c], x, rep) == if c == x then rep else [c]
  {
    assert [c][1..] == "";
    if c == x {
      assert rep + "" == rep;
    }
  }

  lemma ChainOnChar(c: char)
    ensures ReplaceChar(ReplaceChar(ReplaceChar([c], '&', AMP_ESCAPE), '<', LT_ESCAPE), '>', GT_ESCAPE)
            == EscapeChar(c)
  {
    ReplaceSingle(c, '&', AMP_ESCAPE);
    if c == '&' {
      ReplaceCharAbsent(AMP_ESCAPE, '<', LT_ESCAPE);
      ReplaceCharAbsent(AMP_ESCAPE, '>', GT_ESCAPE);
    } else {
      ReplaceSingle(c, '<', LT_ESCAPE);
      if c == '<' {
        ReplaceCharAbsent(LT_ESCAPE, '>', GT_ESCAPE);
      } else {
        ReplaceSingle(c, '>', GT_ESCAPE);
      }
    }
  }

  /** The source's three chained replacements escape each character
      independently: because no replacement text contains `&`, `<` or `>`,
      a later pass never rewrites an earlier pass's output. */
  lemma {:induction false} ChainedReplaceIsEscapeEach(s: string)
    ensures ToHtmlSafeJson(s) == EscapeEach(s)
    decreases |s|
  {
    if |s| > 0 {
      assert s == [s[0]] + s[1..];
      var r1 := ReplaceChar(s, '&', AMP_ESCAPE);
      ReplaceCharAppend([s[0]], s[1..], '&', AMP_ESCAPE);
      var a1 := ReplaceChar([s[0]], '&', AMP_ESCAPE);
      var b1 := ReplaceChar(s[1..], '&', AMP_ESCAPE);
      ReplaceCharAppend(a1, b1, '<', LT_ESCAPE);
      var a2 := ReplaceChar(a1, '<', LT_ESCAPE);
      var b2 := ReplaceChar(b1, '<', LT_ESCAPE);
      ReplaceCharAppend(a2, b2, '>', GT_ESCAPE);
      ChainOnChar(s[0]);
      ChainedReplaceIsEscapeEach(s[1..]);
    }
  }

  /** The source's output contains no `&`, `<` or `>`, and grows by exactly
      five characters for every one it escaped. */
  lemma HtmlSafeJsonHasNoSpecials(json: string)
    ensures forall i :: 0 <= i < |ToHtmlSafeJson(json)| ==> !IsHtmlSpecial(ToHtmlSafeJson(json)[i])
    ensures |ToHtmlSafeJson(json)| == |json| + 5 * SpecialCount(json)
  {
    ChainedReplaceIsEscapeEach(json);
    EscapeEachHasNoSpecials(json);
  }

  predicate StartsWithHtmlEscape(s: string)
  {
    |s| >= 6 && (s[..6] == AMP_ESCAPE || s[..6] == LT_ESCAPE || s[..6] == GT_ESCAPE)
  }

  /** Text shaped like `json.dumps` output: every backslash opens a
      two-character escape, and none of those escapes is one of the three
      six-character sequences this module introduces (`json.dumps` escapes
      with `\u` only non-ASCII and control characters). */
  predicate JsonTextLike(s: string)
    decreases |s|
  {
    if |s| == 0 then true
    else if s[0] == '\\' then
      |s| >= 2 && !IsHtmlSpecial(s[1]) && !StartsWithHtmlEscape(s) && JsonTextLike(s[2..])
    else JsonTextLike(s[1..])
  }

  /** Reads the escapes back: the six-character sequences become their
      characters again, other two-character escapes are kept as they are. */
  function Unescape(r: string): string
    decreases |r|
  {
    if |r| == 0 then ""
    else if |r| >= 6 && r[..6] == AMP_ESCAPE then "&" + Unescape(r[6..])
    else if |r| >= 6 && r[..6] == LT_ESCAPE then "<" + Unescape(r[6..])
    else if |r| >= 6 && r[..6] == GT_ESCAPE then ">" + Unescape(r[6..])
    else if r[0] == '\\' && |r| >= 2 then r[..2] + Unescape(r[2..])
    else [r[0]] + Unescape(r[1..])
  }

  /** Escaped text begins with backslash-free text only where the input did. */
  lemma {:induction false} EscapedPrefix(s: string, p: string)
    requires forall i :: 0 <= i < |p| ==> p[i] != '\\'
    requires |p| <= |EscapeEach(s)| && EscapeEach(s)[..|p|] == p
    ensures |p| <= |s| && s[..|p|] == p
    decreases |p|
  {
    if |p| > 0 {
      assert EscapeEach(s)[0] == p[0];
      assert |s| > 0;
      assert !IsHtmlSpecial(s[0]);
      assert EscapeEach(s) == [s[0]] + EscapeEach(s[1..]);
      assert EscapeEach(s[1..])[..|p| - 1] == p[1..];
      EscapedPrefix(s[1..], p[1..]);
      assert s[..|p|] == [s[0]] + s[1..][..|p| - 1];
    }
  }

  lemma EscapeDigits(e: string)
    requires StartsWithHtmlEscape(e)
    ensures forall i :: 2 <= i < 6 ==> e[i] != '\\'
  {
    assert forall i :: 2 <= i < 6 ==> e[i] == e[..6][i];
  }

  lemma {:induction false} EscapePair(s: string)
    requires |s| >= 2 && !IsHtmlSpecial(s[0]) && !IsHtmlSpecial(s[1])
    ensures EscapeEach(s) == s[..2] + EscapeEach(s[2..])
  {
    var x := EscapeEach(s[2..]);
    var y := EscapeEach(s[1..]);
    assert EscapeEach(s) == [s[0]] + y;
    assert s[1..][1..] == s[2..];
    assert y == [s[1]] + x;
    assert s[..2] == [s[0]] + [s[1]];
    assert [s[0]] + ([s[1]] + x) == ([s[0]] + [s[1]]) + x;
  }

  /** A two-character escape of the input survives escaping without turning
      into one of the six-character escapes. */
  lemma {:induction false} BackslashEscapeSurvives(s: string)
    requires |s| >= 2 && s[0] == '\\' && !IsHtmlSpecial(s[1]) && !StartsWithHtmlEscape(s)
    ensures EscapeEach(s) == s[..2] + EscapeEach(s[2..])
    ensures !StartsWithHtmlEscape(EscapeEach(s))
  {
    EscapePair(s);
    var tail := EscapeEach(s[2..]);
    var e := EscapeEach(s);
    if StartsWithHtmlEscape(e) {
      EscapeDigits(e);
      var d := e[2..6];
      assert |tail| >= 4 && tail[..4] == d;
      EscapedPrefix(s[2..], d);
    }
  }

  lemma UnescapeOfSpecial(c: char, rest: string)
    requires IsHtmlSpecial(c)
    ensures Unescape(EscapeChar(c) + rest) == [c] + Unescape(rest)
  {
    var e := EscapeChar(c) + rest;
    assert e[..6] == EscapeChar(c);
    assert e[6..] == rest;
  }

  lemma UnescapeOfPlain(c: char, rest: string)
    requires !IsHtmlSpecial(c) && c != '\\'
    ensures Unescape([c] + rest) == [c] + Unescape(rest)
  {
    var e := [c] + rest;
    assert e[0] == c;
    assert e[1..] == rest;
  }

  lemma UnescapeOfPair(e: string)
    requires |e| >= 2 && e[0] == '\\' && !StartsWithHtmlEscape(e)
    ensures Unescape(e) == e[..2] + Unescape(e[2..])
  {
  }

  /** Escaping is reversible on serialised JSON: no information is lost. */
  lemma {:induction false} UnescapeInvertsEscape(s: string)
    requires JsonTextLike(s)
    ensures Unescape(EscapeEach(s)) == s
    decreases |s|
  {
    if |s| == 0 {
    } else if s[0] == '\\' {
      BackslashEscapeSurvives(s);
      var e := EscapeEach(s);
      UnescapeOfPair(e);
      assert e[..2] == s[..2];
      assert e[2..] == EscapeEach(s[2..]);
      UnescapeInvertsEscape(s[2..]);
      assert s == s[..2] + s[2..];
    } else if IsHtmlSpecial(s[0]) {
      UnescapeOfSpecial(s[0], EscapeEach(s[1..]));
      UnescapeInvertsEscape(s[1..]);
      assert s == [s[0]] + s[1..];
    } else {
      UnescapeOfPlain(s[0], EscapeEach(s[1..]));
      UnescapeInvertsEscape(s[1..]);
      assert s == [s[0]] + s[1..];
    }
  }

  /** The source's HTML-safe JSON loses nothing: reading the three escapes
      back yields the serialised JSON it started from. */
  lemma HtmlSafeJsonRoundTrip(json: string)
    requires JsonTextLike(json)
    ensures Unescape(ToHtmlSafeJson(json)) == json
  {
    ChainedReplaceIsEscapeEach(json);
    UnescapeInvertsEscape(json);
  }
}
