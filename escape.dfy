/** `escapeHtml`: the chain of five global replacements that makes a field safe
    to splice into the result list's HTML, and the entity decoding a browser
    applies when it reads such text back (an `href` attribute, for one). */
module Escape {
  import opened Wrappers
  import opened Text

  /** `s.replace(/c/g, rep)` for a single character `c`. */
  function ReplaceAll(s: string, c: char, rep: string): string {
    if s == [] then [] else (if s[0] == c then rep else [s[0]]) + ReplaceAll(s[1..], c, rep)
  }

  /** The chain of replacements, in the order the source applies them. */
  function ReplaceChain(s: string): string {
    ReplaceAll(ReplaceAll(ReplaceAll(ReplaceAll(ReplaceAll(s,
      '&', "&amp;"), '<', "&lt;"), '>', "&gt;"), '"', "&quot;"), '\'', "&#039;")
  }

  /** `escapeHtml(unsafe)`: a missing value or the empty string gives the empty
      string; anything else is escaped character by character. */
  function EscapeHtml(unsafe: Option<string>): (r: string)
    ensures unsafe.None? ==> r == []
    ensures r == EscapeEach(unsafe.GetOr([]))
  {
    if unsafe.None? || unsafe.value == [] then []
    else
      EscapeHtmlPerCharacter(unsafe.value);
      ReplaceChain(unsafe.value)
  }

  /** The reference definition: each character is escaped on its own. */
  function EscapeChar(c: char): string {
    if c == '&' then "&amp;"
    else if c == '<' then "&lt;"
    else if c == '>' then "&gt;"
    else if c == '"' then "&quot;"
    else if c == '\'' then "&#039;"
    else [c]
  }

  function EscapeEach(s: string): string {
    if s == [] then [] else EscapeChar(s[0]) + EscapeEach(s[1..])
  }

  predicate IsMarkup(c: char) {
    c == '<' || c == '>' || c == '"' || c == '\''
  }

  predicate IsSpecial(c: char) {
    c == '&' || IsMarkup(c)
  }

  lemma {:induction false} ReplaceAllAppend(a: string, b: string, c: char, rep: string)
    ensures ReplaceAll(a + b, c, rep) == ReplaceAll(a, c, rep) + ReplaceAll(b, c, rep)
  {
    if a != [] {
      assert (a + b)[1..] == a[1..] + b;
      ReplaceAllAppend(a[1..], b, c, rep);
    } else {
      assert a + b == b;
    }
  }

  lemma ReplaceChainAppend(a: string, b: string)
    ensures ReplaceChain(a + b) == ReplaceChain(a) + ReplaceChain(b)
  {
    var a1, b1 := ReplaceAll(a, '&', "&amp;"), ReplaceAll(b, '&', "&amp;");
    ReplaceAllAppend(a, b, '&', "&amp;");
    var a2, b2 := ReplaceAll(a1, '<', "&lt;"), ReplaceAll(b1, '<', "&lt;");
    ReplaceAllAppend(a1, b1, '<', "&lt;");
    var a3, b3 := ReplaceAll(a2, '>', "&gt;"), ReplaceAll(b2, '>', "&gt;");
    ReplaceAllAppend(a2, b2, '>', "&gt;");
    var a4, b4 := ReplaceAll(a3, '"', "&quot;"), ReplaceAll(b3, '"', "&quot;");
    ReplaceAllAppend(a3, b3, '"', "&quot;");
    ReplaceAllAppend(a4, b4, '\'', "&#039;");
  }

  /** The four replacements that follow the first one. */
  function AfterAmp(s: string): string {
    ReplaceAll(ReplaceAll(ReplaceAll(ReplaceAll(s, '<', "&lt;"), '>', "&gt;"), '"', "&quot;"), '\'', "&#039;")
  }

  /** Text without `<`, `>`, `"` and `'` passes the last four replacements unchanged. */
  lemma AfterAmpKeeps(s: string)
    requires forall i :: 0 <= i < |s| ==> !IsMarkup(s[i])
    ensures AfterAmp(s) == s
  {
    ReplaceAllAbsent(s, '<', "&lt;");
    ReplaceAllAbsent(s, '>', "&gt;");
    ReplaceAllAbsent(s, '"', "&quot;");
    ReplaceAllAbsent(s, '\'', "&#039;");
  }

  /** On one character the chain does what EscapeChar does: the replacements made
      after the first introduce `&` but never `<`, `>`, `"` or `'`, and `&` is
      replaced first, so nothing is escaped twice. */
  lemma ReplaceChainChar(c: char)
    ensures ReplaceChain([c]) == EscapeChar(c)
  {
    if c == '&' {
      ChainAmp(c);
    } else if !IsMarkup(c) {
      ChainPlain(c);
    } else if c == '<' || c == '>' {
      ChainAngle(c);
    } else {
      ChainQuote(c);
    }
  }

  lemma ChainAmp(c: char)
    requires c == '&'
    ensures ReplaceChain([c]) == "&amp;"
  {
    ReplaceAllSingle(c, '&', "&amp;");
    AfterAmpKeeps("&amp;");
  }

  lemma ChainPlain(c: char)
    requires !IsSpecial(c)
    ensures ReplaceChain([c]) == [c]
  {
    ReplaceAllSingle(c, '&', "&amp;");
    AfterAmpKeeps([c]);
  }

  lemma ChainAngle(c: char)
    requires c == '<' || c == '>'
    ensures ReplaceChain([c]) == if c == '<' then "&lt;" else "&gt;"
  {
    ReplaceAllSingle(c, '&', "&amp;");
    ReplaceAllSingle(c, '<', "&lt;");
    var r := if c == '<' then "&lt;" else "&gt;";
    if c == '<' {
      AfterAmpKeeps("&lt;");
    } else {
      ReplaceAllSingle(c, '>', "&gt;");
      assert ReplaceAll(ReplaceAll([c], '<', "&lt;"), '>', "&gt;") == r;
      ReplaceAllAbsent(r, '"', "&quot;");
      ReplaceAllAbsent(r, '\'', "&#039;");
    }
  }

  lemma ChainQuote(c: char)
    requires c == '"' || c == '\''
    ensures ReplaceChain([c]) == if c == '"' then "&quot;" else "&#039;"
  {
    ReplaceAllSingle(c, '&', "&amp;");
    ReplaceAllSingle(c, '<', "&lt;");
    ReplaceAllSingle(c, '>', "&gt;");
    ReplaceAllSingle(c, '"', "&quot;");
    if c == '"' {
      ReplaceAllAbsent("&quot;", '\'', "&#039;");
    } else {
      ReplaceAllSingle(c, '\'', "&#039;");
    }
  }

  lemma ReplaceAllSingle(c: char, d: char, rep: string)
    ensures ReplaceAll([c], d, rep) == if c == d then rep else [c]
  {
    assert [c][1..] == [];
  }

  lemma ReplaceAllAbsent(s: string, c: char, rep: string)
    requires forall i :: 0 <= i < |s| ==> s[i] != c
    ensures ReplaceAll(s, c, rep) == s
  {
  }

  /** The replacement chain escapes character by character. */
  lemma {:induction false} EscapeHtmlPerCharacter(s: string)
    ensures ReplaceChain(s) == EscapeEach(s)
  {
    if s != [] {
      assert s == [s[0]] + s[1..];
      ReplaceChainAppend([s[0]], s[1..]);
      ReplaceChainChar(s[0]);
      EscapeHtmlPerCharacter(s[1..]);
    }
  }

  lemma {:induction false} EscapeEachSafe(s: string)
    ensures forall i :: 0 <= i < |EscapeEach(s)| ==> !IsMarkup(EscapeEach(s)[i])
  {
    if s != [] {
      EscapeEachSafe(s[1..]);
      var e, r := EscapeChar(s[0]), EscapeEach(s[1..]);
      assert forall i :: 0 <= i < |e| ==> !IsMarkup(e[i]);
      assert forall i :: |e| <= i < |e + r| ==> (e + r)[i] == r[i - |e|];
    }
  }

  /** The output of escapeHtml contains none of `<`, `>`, `"` and `'`. */
  lemma EscapeHtmlSafe(unsafe: Option<string>)
    ensures forall i :: 0 <= i < |EscapeHtml(unsafe)| ==> !IsMarkup(EscapeHtml(unsafe)[i])
  {
    if unsafe.Some? && unsafe.value != [] {
      EscapeHtmlPerCharacter(unsafe.value);
      EscapeEachSafe(unsafe.value);
    }
  }

  /** A string holding none of `& < > " '` comes back unchanged. */
  lemma {:induction false} EscapeHtmlIdentity(s: string)
    requires forall i :: 0 <= i < |s| ==> !IsSpecial(s[i])
    ensures EscapeHtml(Some(s)) == s
  {
    EscapeHtmlPerCharacter(s);
    EscapeEachIdentity(s);
  }

  lemma {:induction false} EscapeEachIdentity(s: string)
    requires forall i :: 0 <= i < |s| ==> !IsSpecial(s[i])
    ensures EscapeEach(s) == s
  {
    if s != [] {
      EscapeEachIdentity(s[1..]);
      assert s == [s[0]] + s[1..];
    }
  }

  /** What the browser reads back from escaped text: the five entities that
      escapeHtml produces are turned back into their characters. */
  function DecodeEntities(s: string): string
    decreases |s|
  {
    if s == [] then []
    else if StartsWith(s, "&amp;") then "&" + DecodeEntities(s[5..])
    else if StartsWith(s, "&lt;") then "<" + DecodeEntities(s[4..])
    else if StartsWith(s, "&gt;") then ">" + DecodeEntities(s[4..])
    else if StartsWith(s, "&quot;") then "\"" + DecodeEntities(s[6..])
    else if StartsWith(s, "&#039;") then "'" + DecodeEntities(s[6..])
    else [s[0]] + DecodeEntities(s[1..])
  }

  lemma PrefixStartsWith(p: string, rest: string)
    ensures StartsWith(p + rest, p) && (p + rest)[|p|..] == rest
  {
    assert (p + rest)[..|p|] == p;
  }

  lemma MismatchNotStartsWith(s: string, p: string, k: nat)
    requires k < |s| && k < |p| && s[k] != p[k]
    ensures !StartsWith(s, p)
  {
    if |p| <= |s| {
      assert s[..|p|][k] == s[k];
    }
  }

  lemma DecodeEscapedChar(c: char, rest: string)
    ensures DecodeEntities(EscapeChar(c) + rest) == [c] + DecodeEntities(rest)
  {
    var e := EscapeChar(c);
    var s := e + rest;
    PrefixStartsWith(e, rest);
    if c == '&' {
    } else if c == '<' {
      MismatchNotStartsWith(s, "&amp;", 1);
    } else if c == '>' {
      MismatchNotStartsWith(s, "&amp;", 1);
      MismatchNotStartsWith(s, "&lt;", 1);
    } else if c == '"' {
      MismatchNotStartsWith(s, "&amp;", 1);
      MismatchNotStartsWith(s, "&lt;", 1);
      MismatchNotStartsWith(s, "&gt;", 1);
    } else if c == '\'' {
      MismatchNotStartsWith(s, "&amp;", 1);
      MismatchNotStartsWith(s, "&lt;", 1);
      MismatchNotStartsWith(s, "&gt;", 1);
      MismatchNotStartsWith(s, "&quot;", 1);
    } else {
      MismatchNotStartsWith(s, "&amp;", 0);
      MismatchNotStartsWith(s, "&lt;", 0);
      MismatchNotStartsWith(s, "&gt;", 0);
      MismatchNotStartsWith(s, "&quot;", 0);
      MismatchNotStartsWith(s, "&#039;", 0);
    }
  }

  lemma {:induction false} DecodeEscapeEach(s: string)
    ensures DecodeEntities(EscapeEach(s)) == s
  {
    if s != [] {
      DecodeEscapedChar(s[0], EscapeEach(s[1..]));
      DecodeEscapeEach(s[1..]);
      assert s == [s[0]] + s[1..];
    }
  }

  /** Escaping loses nothing: decoding the escaped text gives the original back,
      so the link a browser follows is the record's permalink. */
  lemma DecodeEscapeHtml(s: string)
    ensures DecodeEntities(EscapeHtml(Some(s))) == s
  {
    if s != [] {
      EscapeHtmlPerCharacter(s);
      DecodeEscapeEach(s);
    }
  }
}
