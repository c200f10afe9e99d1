/** The string primitives of the JavaScript runtime that the search widget relies on
    (`trim`, `toLowerCase`, `split(/\s+/)`, `includes`, `startsWith`, `indexOf`),
    together with the reference notions they are proved against: substring,
    prefix and in-order subsequence. Strings are sequences of characters. */
module Text {

  /** The characters that `String.prototype.trim` removes and that the regular
      expression class `\s` matches: WhiteSpace and LineTerminator of ECMAScript. */
  predicate IsSpace(c: char) {
    || c == '\t' || c == '\n' || c == '\U{000B}' || c == '\U{000C}' || c == '\r' || c == ' '
    || c == '\U{00A0}' || c == '\U{1680}' || ('\U{2000}' <= c <= '\U{200A}')
    || c == '\U{2028}' || c == '\U{2029}' || c == '\U{202F}' || c == '\U{205F}'
    || c == '\U{3000}' || c == '\U{FEFF}'
  }

  predicate AllSpace(s: string) {
    forall i :: 0 <= i < |s| ==> IsSpace(s[i])
  }

  predicate NoSpace(s: string) {
    forall i :: 0 <= i < |s| ==> !IsSpace(s[i])
  }

  // ---------------------------------------------------------------------------
  // Lower-casing (ASCII letters only)

  function LowerChar(c: char): (r: char)
    ensures !('A' <= r <= 'Z')
    ensures IsSpace(r) <==> IsSpace(c)
  {
    if 'A' <= c <= 'Z' then (c as int + 32) as char else c
  }

  predicate IsLowerCase(s: string) {
    forall i :: 0 <= i < |s| ==> !('A' <= s[i] <= 'Z')
  }

  /** `toLowerCase`, restricted to the letters A to Z. */
  function Lower(s: string): (r: string)
    ensures |r| == |s| && IsLowerCase(r)
    ensures forall i :: 0 <= i < |s| ==> r[i] == LowerChar(s[i])
  {
    seq(|s|, i requires 0 <= i < |s| => LowerChar(s[i]))
  }

  /** Lower-casing a lower-case string changes nothing. */
  lemma LowerOfLowerCase(s: string)
    requires IsLowerCase(s)
    ensures Lower(s) == s
  {
    assert forall i :: 0 <= i < |s| ==> LowerChar(s[i]) == s[i];
  }

  // ---------------------------------------------------------------------------
  // trim

  lemma AllSpaceCons(c: char, t: string)
    requires IsSpace(c) && AllSpace(t)
    ensures AllSpace([c] + t)
  {
    assert forall k :: 1 <= k < |[c] + t| ==> ([c] + t)[k] == t[k - 1];
  }

  lemma AllSpaceSnoc(t: string, c: char)
    requires AllSpace(t) && IsSpace(c)
    ensures AllSpace(t + [c])
  {
    assert forall k :: 0 <= k < |t| ==> (t + [c])[k] == t[k];
  }

  function TrimStart(s: string): (r: string)
    ensures |r| <= |s| && r == s[|s| - |r|..]
    ensures AllSpace(s[..|s| - |r|])
    ensures r == [] || !IsSpace(r[0])
  {
    if s != [] && IsSpace(s[0]) then
      var r := TrimStart(s[1..]);
      assert s[..|s| - |r|] == [s[0]] + s[1..][..|s| - 1 - |r|];
      AllSpaceCons(s[0], s[1..][..|s| - 1 - |r|]);
      r
    else s
  }

  function TrimEnd(s: string): (r: string)
    ensures |r| <= |s| && r == s[..|r|]
    ensures AllSpace(s[|r|..])
    ensures r == [] || !IsSpace(r[|r| - 1])
  {
    if s != [] && IsSpace(s[|s| - 1]) then
      var r := TrimEnd(s[..|s| - 1]);
      assert s[|r|..] == s[..|s| - 1][|r|..] + [s[|s| - 1]];
      AllSpaceSnoc(s[..|s| - 1][|r|..], s[|s| - 1]);
      r
    else s
  }

  /** `trim`: the longest slice of `s` that neither starts nor ends with white
      space, obtained by cutting white space off both ends. */
  function Trim(s: string): (r: string)
    ensures r == [] || (!IsSpace(r[0]) && !IsSpace(r[|r| - 1]))
  {
    TrimSlices(s, TrimStart(s), TrimEnd(TrimStart(s)));
    TrimEnd(TrimStart(s))
  }

  /** What `trim` leaves is a slice of `s` with only white space before and
      after it. */
  lemma TrimIsSlice(s: string)
    ensures var r := Trim(s);
      exists i, j :: 0 <= i <= j <= |s| && r == s[i..j] && AllSpace(s[..i]) && AllSpace(s[j..])
  {
    TrimSlices(s, TrimStart(s), TrimEnd(TrimStart(s)));
  }

  /** Cutting white space off the front of `s` (giving `a`) and then off the end
      of `a` (giving `r`) leaves a slice of `s` between two white-space runs. */
  lemma TrimSlices(s: string, a: string, r: string)
    requires |a| <= |s| && a == s[|s| - |a|..] && AllSpace(s[..|s| - |a|])
    requires a == [] || !IsSpace(a[0])
    requires |r| <= |a| && r == a[..|r|] && AllSpace(a[|r|..])
    requires r == [] || !IsSpace(r[|r| - 1])
    ensures exists i, j :: 0 <= i <= j <= |s| && r == s[i..j] && AllSpace(s[..i]) && AllSpace(s[j..])
    ensures r == [] || (!IsSpace(r[0]) && !IsSpace(r[|r| - 1]))
  {
    var i := |s| - |a|;
    var j := i + |r|;
    SuffixSlices(s, i, |r|);
    if r != [] {
      assert r[0] == a[0];
    }
    assert 0 <= i <= j <= |s| && r == s[i..j] && AllSpace(s[..i]) && AllSpace(s[j..]);
  }

  /** Slicing a suffix of `s` is slicing `s` itself. */
  lemma SuffixSlices(s: string, i: nat, k: nat)
    requires i + k <= |s|
    ensures s[i..][..k] == s[i..i + k] && s[i..][k..] == s[i + k..]
  {
  }

  // ---------------------------------------------------------------------------
  // split(/\s+/) followed by filter(t => t.length > 0)

  /** The maximal runs of non-white-space characters of `s`, in order, where
      `word` is the run already begun before `s`. */
  function SplitWords(s: string, word: string): seq<string>
    decreases |s|
  {
    if s == [] then (if word == [] then [] else [word])
    else if IsSpace(s[0]) then (if word == [] then [] else [word]) + SplitWords(s[1..], [])
    else SplitWords(s[1..], word + [s[0]])
  }

  /** The query tokens: `s.split(/\s+/).filter(t => t.length > 0)`. */
  function Tokens(s: string): seq<string> {
    SplitWords(s, [])
  }

  function Concat(ws: seq<string>): string {
    if ws == [] then [] else ws[0] + Concat(ws[1..])
  }

  /** The characters of `s` that are not white space, in order. */
  function NonSpace(s: string): string {
    if s == [] then [] else (if IsSpace(s[0]) then [] else [s[0]]) + NonSpace(s[1..])
  }

  lemma {:induction false} SplitWordsSpec(s: string, word: string)
    requires NoSpace(word)
    ensures forall w :: w in SplitWords(s, word) ==> w != [] && NoSpace(w)
    ensures Concat(SplitWords(s, word)) == word + NonSpace(s)
    decreases |s|
  {
    if s == [] {
    } else if IsSpace(s[0]) {
      var rest := SplitWords(s[1..], []);
      SplitWordsSpec(s[1..], []);
      assert NonSpace(s) == NonSpace(s[1..]);
      if word != [] {
        assert ([word] + rest)[1..] == rest;
        assert Concat([word] + rest) == word + Concat(rest);
      } else {
        assert SplitWords(s, word) == rest;
        assert word + NonSpace(s) == NonSpace(s[1..]);
      }
    } else {
      var w' := word + [s[0]];
      assert NoSpace(w');
      SplitWordsSpec(s[1..], w');
      assert w' + NonSpace(s[1..]) == word + NonSpace(s);
    }
  }

  /** Every token is non-empty and free of white space, and together the tokens
      hold exactly the non-white-space characters of the query, in order. */
  lemma TokensSpec(s: string)
    ensures forall w :: w in Tokens(s) ==> w != [] && NoSpace(w)
    ensures Concat(Tokens(s)) == NonSpace(s)
  {
    SplitWordsSpec(s, []);
  }

  /** A run without white space, continuing the word already begun, ends as
      one word. */
  lemma {:induction false} SplitWordsOfWord(w: string, word: string)
    requires NoSpace(w) && word + w != []
    ensures SplitWords(w, word) == [word + w]
    decreases |w|
  {
    if w != [] {
      assert (word + [w[0]]) + w[1..] == word + w;
      SplitWordsOfWord(w[1..], word + [w[0]]);
    } else {
      assert word + w == word;
    }
  }

  /** White space ends the word in progress: what lies before it and what lies
      after it split independently. */
  lemma {:induction false} SplitWordsAtSpace(a: string, word: string, c: char, b: string)
    requires IsSpace(c)
    ensures SplitWords(a + [c] + b, word) == SplitWords(a, word) + SplitWords(b, [])
    decreases |a|
  {
    var s := a + [c] + b;
    if a == [] {
      assert s[0] == c && s[1..] == b;
    } else {
      assert s[0] == a[0] && s[1..] == a[1..] + [c] + b;
      if IsSpace(a[0]) {
        SplitWordsAtSpace(a[1..], [], c, b);
        var w := if word == [] then [] else [word];
        assert SplitWords(s, word) == w + (SplitWords(a[1..], []) + SplitWords(b, []));
        assert SplitWords(a, word) == w + SplitWords(a[1..], []);
      } else {
        SplitWordsAtSpace(a[1..], word + [a[0]], c, b);
      }
    }
  }

  /** A query without white space is one token. Together with `TokensAtSpace`
      (and `Tokens([]) == []`) this determines the tokens of every query: they
      are its maximal runs of non-white-space characters. */
  lemma TokensOfWord(w: string)
    requires w != [] && NoSpace(w)
    ensures Tokens(w) == [w]
  {
    SplitWordsOfWord(w, []);
    assert [] + w == w;
  }

  /** A white-space character separates the tokens before it from those after it. */
  lemma TokensAtSpace(a: string, c: char, b: string)
    requires IsSpace(c)
    ensures Tokens(a + [c] + b) == Tokens(a) + Tokens(b)
  {
    SplitWordsAtSpace(a, [], c, b);
  }

  /** A trimmed non-empty query has at least one token. */
  lemma TokensOfTrimmed(s: string)
    requires s != [] && !IsSpace(s[0])
    ensures Tokens(s) != []
  {
    TokensSpec(s);
    assert NonSpace(s) == [s[0]] + NonSpace(s[1..]);
  }

  // ---------------------------------------------------------------------------
  // startsWith, includes, indexOf

  /** `s.startsWith(p)`. */
  predicate StartsWith(s: string, p: string) {
    |p| <= |s| && s[..|p|] == p
  }

  /** `term` occurs in `text` starting at position `k`. */
  predicate OccursAt(text: string, term: string, k: int) {
    0 <= k && k + |term| <= |text| && text[k..k + |term|] == term
  }

  /** The reference notion of a contiguous substring. */
  ghost predicate IsSubstring(term: string, text: string) {
    exists k :: OccursAt(text, term, k)
  }

  /** `text.includes(term, from)`: `term` occurs at some position at or after `from`. */
  function IncludesFrom(text: string, term: string, from: nat): (b: bool)
    ensures b <==> exists k :: from <= k && OccursAt(text, term, k)
    decreases |text| - from
  {
    if OccursAt(text, term, from) then
      true
    else if from >= |text| then
      assert forall k :: from <= k && OccursAt(text, term, k) ==> k == from;
      false
    else
      IncludesFrom(text, term, from + 1)
  }

  /** `text.includes(term)`. */
  function Includes(text: string, term: string): (b: bool)
    ensures b <==> IsSubstring(term, text)
  {
    IncludesFrom(text, term, 0)
  }

  /** A prefix is a substring. */
  lemma PrefixIsSubstring(text: string, term: string)
    requires StartsWith(text, term)
    ensures Includes(text, term)
  {
  }

  /** `text.indexOf(c, from)`: the first position at or after `from` holding `c`, or -1. */
  function IndexOf(text: string, c: char, from: nat): (r: int)
    ensures r == -1 || (from <= r < |text| && text[r] == c)
    ensures r == -1 ==> forall k :: from <= k < |text| ==> text[k] != c
    ensures r != -1 ==> forall k :: from <= k < r ==> text[k] != c
    decreases |text| - from
  {
    if from >= |text| then -1
    else if text[from] == c then from
    else IndexOf(text, c, from + 1)
  }

  // ---------------------------------------------------------------------------
  // In-order subsequence

  /** `idx` lists strictly increasing positions of `s` spelling out `sub`. */
  ghost predicate Embeds(idx: seq<int>, sub: string, s: string) {
    && |idx| == |sub|
    && (forall j :: 0 <= j < |idx| ==> 0 <= idx[j] < |s| && s[idx[j]] == sub[j])
    && (forall j, k :: 0 <= j < k < |idx| ==> idx[j] < idx[k])
  }

  /** The characters of `sub` occur in `s` in order, not necessarily adjacent. */
  ghost predicate IsSubsequence(sub: string, s: string) {
    exists idx :: Embeds(idx, sub, s)
  }

  /** A character of `sub` that `s` lacks rules out every embedding. */
  lemma AbsentCharacter(sub: string, s: string, j: nat)
    requires j < |sub| && forall k :: 0 <= k < |s| ==> s[k] != sub[j]
    ensures !IsSubsequence(sub, s)
  {
    forall idx ensures !Embeds(idx, sub, s) {
      if |idx| == |sub| && 0 <= idx[j] < |s| {
        assert s[idx[j]] != sub[j];
      }
    }
  }

  /** Two neighbouring characters of `sub` that never occur in that order in `s`
      rule out every embedding. */
  lemma PairOutOfOrder(sub: string, s: string, j: nat)
    requires j + 1 < |sub|
    requires forall k, l :: 0 <= k < l < |s| && s[k] == sub[j] ==> s[l] != sub[j + 1]
    ensures !IsSubsequence(sub, s)
  {
    forall idx ensures !Embeds(idx, sub, s) {
      if |idx| == |sub| && 0 <= idx[j] < idx[j + 1] < |s| && s[idx[j]] == sub[j] {
        assert s[idx[j + 1]] != sub[j + 1];
      }
    }
  }

  lemma EmbedsPrefix(idx: seq<int>, sub: string, s: string, n: nat)
    requires Embeds(idx, sub, s) && n <= |sub|
    ensures Embeds(idx[..n], sub[..n], s)
  {
  }

  /** A substring is an in-order subsequence. */
  lemma SubstringIsSubsequence(term: string, text: string)
    requires IsSubstring(term, text)
    ensures IsSubsequence(term, text)
  {
    var k :| OccursAt(text, term, k);
    var idx := seq(|term|, j => k + j);
    forall j | 0 <= j < |term|
      ensures text[idx[j]] == term[j]
    {
      assert text[k..k + |term|][j] == text[k + j];
    }
    assert Embeds(idx, term, text);
  }
}
