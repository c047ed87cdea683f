/**
 * `escapeHtml` of the file browser: every `&`, `<`, `>`, `"` and `'` is
 * replaced by its character reference, everything else is copied, and a
 * falsy argument yields the empty string.  `Unescape` is its partner: a
 * left-to-right decoder of exactly those five references.
 */
module Html {
  import opened Wrappers

  /** The five characters the encoder replaces. */
  predicate IsSpecial(c: char) {
    c == '&' || c == '<' || c == '>' || c == '"' || c == '\''
  }

  /** The four characters that never survive into encoded text (`&` does, as the head of a reference). */
  predicate IsMarkup(c: char) {
    c == '<' || c == '>' || c == '"' || c == '\''
  }

  /** The replacement for one character. */
  function EscapeChar(c: char): (r: string)
    ensures !IsSpecial(c) <==> r == [c]
    ensures IsSpecial(c) ==> |r| >= 4 && r[0] == '&' && r[|r| - 1] == ';'
    ensures forall i :: 0 <= i < |r| ==> !IsMarkup(r[i])
    ensures forall i :: 0 < i < |r| ==> r[i] != '&'
  {
    match c
    case '&' => "&amp;"
    case '<' => "&lt;"
    case '>' => "&gt;"
    case '"' => "&quot;"
    case '\'' => "&#39;"
    case _ => [c]
  }

  /** `escapeHtml` on a string: each character replaced, results concatenated in order. */
  function EscapeHtml(s: string): (r: string)
    ensures |r| >= |s|
    ensures r == [] <==> s == []
    ensures forall i :: 0 <= i < |r| ==> !IsMarkup(r[i])
    decreases |s|
  {
    if s == [] then [] else EscapeChar(s[0]) + EscapeHtml(s[1..])
  }

  /** `escapeHtml(v)` on any argument: `String(v || "")` first, so a falsy value gives `""`. */
  function EscapeHtmlValue(v: Option<string>): (r: string)
    ensures v.None? ==> r == []
    ensures v.Some? ==> r == EscapeHtml(v.value)
  {
    EscapeHtml(OrEmpty(v))
  }

  // ---------------------------------------------------------------------
  // Structure of the encoding

  /** Encoding distributes over concatenation. */
  lemma {:induction false} EscapeConcat(a: string, b: string)
    ensures EscapeHtml(a + b) == EscapeHtml(a) + EscapeHtml(b)
    decreases |a|
  {
    if a == [] {
      assert a + b == b;
    } else {
      assert (a + b)[0] == a[0];
      assert (a + b)[1..] == a[1..] + b;
      EscapeConcat(a[1..], b);
    }
  }

  /** A one-character string encodes to that character's replacement. */
  lemma EscapeSingle(c: char)
    ensures EscapeHtml([c]) == EscapeChar(c)
  {
    assert [c][1..] == [];
  }

  predicate NoSpecial(s: string) { forall i :: 0 <= i < |s| ==> !IsSpecial(s[i]) }

  /** Encoding changes a string exactly when the string holds one of the five characters. */
  lemma {:induction false} EscapeUnchangedIff(s: string)
    ensures EscapeHtml(s) == s <==> NoSpecial(s)
    decreases |s|
  {
    if s != [] {
      EscapeUnchangedIff(s[1..]);
      var head, tail := EscapeChar(s[0]), EscapeHtml(s[1..]);
      if IsSpecial(s[0]) {
        assert |head + tail| > |s|;
      } else {
        assert s == [s[0]] + s[1..];
        if NoSpecial(s) {
          assert NoSpecial(s[1..]) by {
            forall i | 0 <= i < |s[1..]| ensures !IsSpecial(s[1..][i]) {
              assert s[1..][i] == s[i + 1];
            }
          }
        } else {
          var i :| 0 <= i < |s| && IsSpecial(s[i]);
          assert !NoSpecial(s[1..]) by { assert s[1..][i - 1] == s[i]; }
        }
      }
    }
  }

  /** `t` starts with one of the five character references. */
  predicate StartsWithReference(t: string) {
    "&amp;" <= t || "&lt;" <= t || "&gt;" <= t || "&quot;" <= t || "&#39;" <= t
  }

  /** Every `&` in encoded text is the head of one of the five references. */
  lemma {:induction false} AmpersandStartsReference(s: string, i: nat)
    requires i < |EscapeHtml(s)| && EscapeHtml(s)[i] == '&'
    ensures StartsWithReference(EscapeHtml(s)[i..])
    decreases |s|
  {
    var head, tail := EscapeChar(s[0]), EscapeHtml(s[1..]);
    var r := EscapeHtml(s);
    if i < |head| {
      assert r[i] == head[i];
      assert i == 0 && IsSpecial(s[0]);
      assert r[i..] == head + tail;
    } else {
      assert r[i..] == tail[i - |head|..];
      AmpersandStartsReference(s[1..], i - |head|);
    }
  }

  // ---------------------------------------------------------------------
  // Decoding

  /** Which reference `t` starts with, if any. */
  function DecodeReference(t: string): (c: Option<char>)
    ensures c.Some? <==> StartsWithReference(t)
    ensures c.Some? ==> IsSpecial(c.value) && EscapeChar(c.value) <= t
  {
    if "&amp;" <= t then Some('&')
    else if "&lt;" <= t then Some('<')
    else if "&gt;" <= t then Some('>')
    else if "&quot;" <= t then Some('"')
    else if "&#39;" <= t then Some('\'')
    else None
  }

  /**
   * Reads the five references left to right and copies every other
   * character; `None` for a `<`, `>`, `"` or `'`, or an `&` that heads no
   * reference, none of which encoding can produce.
   */
  function Unescape(t: string): Option<string>
    decreases |t|
  {
    if t == [] then Some([])
    else if t[0] == '&' then
      match DecodeReference(t)
      case None => None
      case Some(c) =>
        match Unescape(t[|EscapeChar(c)|..])
        case None => None
        case Some(rest) => Some([c] + rest)
    else if IsMarkup(t[0]) then None
    else
      match Unescape(t[1..])
      case None => None
      case Some(rest) => Some([t[0]] + rest)
  }

  /** The references are prefix-free: a replacement followed by anything decodes to its character first. */
  lemma DecodeAfterReplacement(c: char, t: string)
    ensures var r := EscapeChar(c) + t;
      r[|EscapeChar(c)|..] == t
      && (IsSpecial(c) ==> r[0] == '&' && DecodeReference(r) == Some(c))
      && (!IsSpecial(c) ==> r[0] == c)
  {
    var r := EscapeChar(c) + t;
    assert r[|EscapeChar(c)|..] == t;
    if IsSpecial(c) {
      assert r[..|EscapeChar(c)|] == EscapeChar(c);
      assert r[1] == EscapeChar(c)[1];
    }
  }

  /** Round trip: decoding encoded text gives back the original string. */
  lemma {:induction false} UnescapeEscape(s: string)
    ensures Unescape(EscapeHtml(s)) == Some(s)
    decreases |s|
  {
    if s != [] {
      var tail := EscapeHtml(s[1..]);
      UnescapeEscape(s[1..]);
      DecodeAfterReplacement(s[0], tail);
      assert s == [s[0]] + s[1..];
    }
  }

  /** Converse: whatever the decoder accepts is exactly the encoding of what it returns. */
  lemma {:induction false} EscapeUnescape(t: string, s: string)
    requires Unescape(t) == Some(s)
    ensures EscapeHtml(s) == t
    decreases |t|
  {
    if t != [] {
      if t[0] == '&' {
        var c := DecodeReference(t).value;
        var n := |EscapeChar(c)|;
        var rest := Unescape(t[n..]).value;
        EscapeUnescape(t[n..], rest);
        assert s == [c] + rest;
        EscapeConcat([c], rest);
        EscapeSingle(c);
        assert t == t[..n] + t[n..];
      } else {
        var rest := Unescape(t[1..]).value;
        EscapeUnescape(t[1..], rest);
        assert s == [t[0]] + rest;
        EscapeConcat([t[0]], rest);
        EscapeSingle(t[0]);
        assert t == [t[0]] + t[1..];
      }
    }
  }

  /** Encoding is injective: different strings never encode to the same text. */
  lemma EscapeInjective(a: string, b: string)
    requires EscapeHtml(a) == EscapeHtml(b)
    ensures a == b
  {
    UnescapeEscape(a);
    UnescapeEscape(b);
  }
}
