/** The match engine: `simpleFuzzyMatch(text, term)`, a contiguous-substring test
    with a greedy left-to-right subsequence scan as fallback for terms of three
    or more characters. */
module Fuzzy {
  import opened Text

  /** Shortest term length for which the subsequence fallback runs. */
  const MinFuzzyLength := 3

  /** What `simpleFuzzyMatch` decides: `term` is a substring of `text`, or it has
      at least three characters and occurs in `text` as an in-order subsequence. */
  ghost predicate FuzzyMatches(text: string, term: string) {
    IsSubstring(term, text) || (|term| >= MinFuzzyLength && IsSubsequence(term, text))
  }

  /** Extending a greedy embedding of `term[..i]` by the next occurrence of `term[i]`. */
  lemma ExtendEmbedding(emb: seq<int>, term: string, text: string, i: nat, found: int)
    requires i < |term| && Embeds(emb, term[..i], text)
    requires 0 <= found < |text| && text[found] == term[i]
    requires i > 0 ==> emb[i - 1] < found
    ensures Embeds(emb + [found], term[..i + 1], text)
  {
    var e := emb + [found];
    forall j, k | 0 <= j < k < |e| ensures e[j] < e[k] {
      if k == i && j < i - 1 {
        assert emb[j] < emb[i - 1];
      }
    }
  }

  /** An embedding of a longer prefix restricts to an embedding of a shorter one. */
  lemma EmbedsPrefixOf(e: seq<int>, term: string, text: string, i: nat)
    requires i < |term| && Embeds(e, term[..i + 1], text)
    ensures Embeds(e[..i], term[..i], text)
    ensures text[e[i]] == term[i]
    ensures i > 0 ==> e[i - 1] < e[i]
  {
    EmbedsPrefix(e, term[..i + 1], text, i);
    assert term[..i + 1][..i] == term[..i];
  }

  /** If `term[..i]` is not a subsequence, no longer prefix is. */
  lemma NoSubsequenceExtension(term: string, text: string, i: nat)
    requires i < |term| && !IsSubsequence(term[..i], text)
    ensures !IsSubsequence(term[..i + 1], text)
  {
    if IsSubsequence(term[..i + 1], text) {
      var e :| Embeds(e, term[..i + 1], text);
      EmbedsPrefixOf(e, term, text, i);
    }
  }

  /** If `term[i]` does not occur after the least possible end of an embedding of
      `term[..i]`, then `term[..i + 1]` has no embedding at all. */
  lemma MissingCharacter(emb: seq<int>, term: string, text: string, i: nat, last: int)
    requires i < |term| && -1 <= last && (i == 0 ==> last == -1)
    requires forall e :: Embeds(e, term[..i], text) && i > 0 ==> last <= e[i - 1]
    requires forall k :: last + 1 <= k < |text| ==> text[k] != term[i]
    ensures !IsSubsequence(term[..i + 1], text)
  {
    if IsSubsequence(term[..i + 1], text) {
      var e :| Embeds(e, term[..i + 1], text);
      EmbedsPrefixOf(e, term, text, i);
    }
  }

  /** The simpleFuzzyMatch loop. `lastMatchIndex` only moves forward, and a
      character that is not found is skipped without resetting the count, so the
      count reaches the term's length exactly when every character was found. */
  method SimpleFuzzyMatch(text: string, term: string) returns (r: bool)
    ensures r == FuzzyMatches(text, term)
  {
    if Includes(text, term) {
      return true;
    }
    if |term| < MinFuzzyLength {
      return false;
    }
    var matches := 0;
    var lastMatchIndex := -1;
    ghost var emb: seq<int> := [];
    for i := 0 to |term|
      invariant 0 <= matches <= i
      invariant -1 <= lastMatchIndex < |text|
      invariant matches == i ==> Embeds(emb, term[..i], text)
      invariant matches == i ==> lastMatchIndex == if i == 0 then -1 else emb[i - 1]
      invariant matches == i ==> forall e :: Embeds(e, term[..i], text) && i > 0 ==> lastMatchIndex <= e[i - 1]
      invariant matches < i ==> !IsSubsequence(term[..i], text)
    {
      var found := IndexOf(text, term[i], lastMatchIndex + 1);
      if matches == i {
        if found > -1 {
          ExtendEmbedding(emb, term, text, i, found);
          forall e | Embeds(e, term[..i + 1], text) ensures found <= e[i] {
            EmbedsPrefixOf(e, term, text, i);
          }
          emb := emb + [found];
        } else {
          MissingCharacter(emb, term, text, i, lastMatchIndex);
        }
      } else {
        NoSubsequenceExtension(term, text, i);
      }
      if found > -1 {
        matches := matches + 1;
        lastMatchIndex := found;
      }
    }
    assert term[..|term|] == term;
    r := matches == |term|;
  }

  /** An ordered subsequence matches even when not contiguous. */
  lemma ScatteredTermMatches()
    ensures FuzzyMatches("search index", "sidx")
  {
    var text := "search index";
    assert text[0] == 's' && text[7] == 'i' && text[9] == 'd' && text[11] == 'x';
    assert Embeds([0, 7, 9, 11], "sidx", text);
  }

  /** A term whose characters are in the wrong order is no subsequence, hence
      no substring either. */
  lemma ReorderedTermMisses()
    ensures !FuzzyMatches("search index", "xis")
  {
    var text := "search index";
    assert forall k :: 0 <= k < |text| && text[k] == 'x' ==> k == 11;
    PairOutOfOrder("xis", text, 0);
    if IsSubstring("xis", "search index") {
      SubstringIsSubsequence("xis", "search index");
    }
  }

  /** A two-character term matches only as a substring: "ct" is a subsequence of
      "cat" but does not match; "ca" does. */
  lemma ShortTermExamples()
    ensures !FuzzyMatches("cat", "ct")
    ensures FuzzyMatches("cat", "ca")
  {
    assert "cat"[0..2] == "ca" && "cat"[1..3] == "at";
    assert forall k :: !OccursAt("cat", "ct", k);
    assert OccursAt("cat", "ca", 0);
  }

  /** Terms shorter than three characters match exactly when they are substrings. */
  lemma ShortTermsNeedSubstring(text: string, term: string)
    requires |term| < MinFuzzyLength
    ensures FuzzyMatches(text, term) <==> Includes(text, term)
  {
  }
}
