/** The ranker of `performSearch`: per-token, per-field scoring, the requirement
    that every token match, a stable sort by descending score and the cut to
    `maxResults`; and the query gates in front of it. Scores are counted in
    half-points, so the weights 3, 2 and 0.5 become 6, 4 and 1. */
module Ranker {
  import opened Text
  import opened Fuzzy
  import opened SearchIndex
  import opened Wrappers
  import Config

  const TitlePrefixPoints := 6
  const TitleMatchPoints := 4
  const FieldPoints := 1

  // ---------------------------------------------------------------------------
  // Scoring one record

  /** What one token adds to a record's score: a title prefix, else a fuzzy
      title match, else a half-point for each of description and section. */
  ghost function TokenPoints(e: Entry, t: string, f: Config.Fields): (r: nat)
    ensures r in {0, FieldPoints, 2 * FieldPoints, TitleMatchPoints, TitlePrefixPoints}
    ensures f.title && StartsWith(e.searchableTitle, t) ==> r == TitlePrefixPoints
    ensures !(f.title && StartsWith(e.searchableTitle, t)) ==> r <= TitleMatchPoints
  {
    if f.title && StartsWith(e.searchableTitle, t) then TitlePrefixPoints
    else if f.title && FuzzyMatches(e.searchableTitle, t) then TitleMatchPoints
    else
      (if f.description && Includes(e.searchableDesc, t) then FieldPoints else 0)
      + (if f.section && Includes(e.searchableSection, t) then FieldPoints else 0)
  }

  /** The token matched at least one enabled field of the record. */
  ghost predicate TokenMatched(e: Entry, t: string, f: Config.Fields) {
    || (f.title && (StartsWith(e.searchableTitle, t) || FuzzyMatches(e.searchableTitle, t)))
    || (f.description && Includes(e.searchableDesc, t))
    || (f.section && Includes(e.searchableSection, t))
  }

  /** A token scores exactly when it matched. */
  lemma TokenPointsPositive(e: Entry, t: string, f: Config.Fields)
    ensures TokenPoints(e, t, f) > 0 <==> TokenMatched(e, t, f)
  {
  }

  /** Prefix beats fuzzy: a title starting with the token outscores, for that
      token, any record whose title does not. */
  lemma PrefixOutranksOtherTitles(e1: Entry, e2: Entry, t: string, f: Config.Fields)
    requires f.title && StartsWith(e1.searchableTitle, t) && !StartsWith(e2.searchableTitle, t)
    ensures TokenPoints(e1, t, f) > TokenPoints(e2, t, f)
  {
  }

  /** Every token matched some enabled field. */
  ghost predicate Qualifies(e: Entry, ts: seq<string>, f: Config.Fields) {
    forall j :: 0 <= j < |ts| ==> TokenMatched(e, ts[j], f)
  }

  ghost function SumPoints(e: Entry, ts: seq<string>, f: Config.Fields): nat {
    if ts == [] then 0 else SumPoints(e, ts[..|ts| - 1], f) + TokenPoints(e, ts[|ts| - 1], f)
  }

  /** The score `performSearch` gives a record: the sum over the tokens when all
      of them matched, and 0 otherwise. */
  ghost function EntryScore(e: Entry, ts: seq<string>, f: Config.Fields): nat {
    if Qualifies(e, ts, f) then SumPoints(e, ts, f) else 0
  }

  lemma {:induction false} SumPointsPositive(e: Entry, ts: seq<string>, f: Config.Fields)
    requires ts != [] && Qualifies(e, ts, f)
    ensures SumPoints(e, ts, f) > 0
  {
    TokenPointsPositive(e, ts[|ts| - 1], f);
  }

  /** AND across tokens: with at least one token, a record has a positive score
      exactly when every token matched one of its enabled fields. */
  lemma ScorePositiveIffQualifies(e: Entry, ts: seq<string>, f: Config.Fields)
    requires ts != []
    ensures EntryScore(e, ts, f) > 0 <==> Qualifies(e, ts, f)
  {
    if Qualifies(e, ts, f) {
      SumPointsPositive(e, ts, f);
    }
  }

  /** The `searchTerms.every(...)` callback with its running `score`: tokens are
      tried in order and the first one that matches nothing stops the scan. */
  method ScoreEntry(e: Entry, ts: seq<string>, f: Config.Fields) returns (score: nat)
    ensures score == EntryScore(e, ts, f)
  {
    var total := 0;
    var matchesAllTerms := true;
    var j := 0;
    while j < |ts| && matchesAllTerms
      invariant 0 <= j <= |ts|
      invariant matchesAllTerms ==> forall q :: 0 <= q < j ==> TokenMatched(e, ts[q], f)
      invariant matchesAllTerms ==> total == SumPoints(e, ts[..j], f)
      invariant !matchesAllTerms ==> !Qualifies(e, ts, f)
    {
      var t := ts[j];
      var matched := false;
      ghost var before := total;
      if f.title {
        if StartsWith(e.searchableTitle, t) {
          total := total + TitlePrefixPoints;
          matched := true;
        } else {
          var fuzzy := SimpleFuzzyMatch(e.searchableTitle, t);
          if fuzzy {
            total := total + TitleMatchPoints;
            matched := true;
          }
        }
      }
      if !matched {
        if f.description && Includes(e.searchableDesc, t) {
          total := total + FieldPoints;
          matched := true;
        }
        if f.section && Includes(e.searchableSection, t) {
          total := total + FieldPoints;
          matched := true;
        }
      }
      assert matched == TokenMatched(e, t, f);
      assert total == before + TokenPoints(e, t, f);
      if !matched {
        matchesAllTerms := false;
      }
      assert ts[..j + 1][..j] == ts[..j];
      j := j + 1;
    }
    if matchesAllTerms {
      assert ts[..j] == ts;
      score := total;
    } else {
      score := 0;
    }
  }

  // ---------------------------------------------------------------------------
  // Filter, stable sort, slice

  /** A record's position in the index and its score. */
  datatype Scored = Scored(pos: nat, score: nat)

  /** `a` is ranked ahead of `b`: a higher score, or the same score and an
      earlier position in the index. */
  predicate Before(a: Scored, b: Scored) {
    a.score > b.score || (a.score == b.score && a.pos < b.pos)
  }

  predicate RankOrdered(s: seq<Scored>) {
    forall i, j :: 0 <= i < j < |s| ==> Before(s[i], s[j])
  }

  predicate IncreasingPos(s: seq<Scored>) {
    forall i, j :: 0 <= i < j < |s| ==> s[i].pos < s[j].pos
  }

  /** `.filter(r => r.score > 0)`. */
  function Positive(s: seq<Scored>): (r: seq<Scored>)
    ensures forall x :: x in r <==> x in s && x.score > 0
  {
    if s == [] then []
    else (if s[0].score > 0 then [s[0]] else []) + Positive(s[1..])
  }

  lemma {:induction false} PositiveKeepsOrder(s: seq<Scored>)
    requires IncreasingPos(s)
    ensures IncreasingPos(Positive(s))
  {
    if s != [] {
      PositiveKeepsOrder(s[1..]);
      var r := Positive(s[1..]);
      assert forall x :: x in r ==> x in s[1..];
      assert forall x :: x in s[1..] ==> s[0].pos < x.pos;
    }
  }

  /** Insert `x` ahead of the first element it does not score below. */
  function Insert(x: Scored, s: seq<Scored>): seq<Scored> {
    if s == [] || s[0].score <= x.score then [x] + s else [s[0]] + Insert(x, s[1..])
  }

  /** `.sort((a, b) => b.score - a.score)`: a stable sort by descending score,
      written as an insertion sort. */
  function SortByScore(s: seq<Scored>): seq<Scored> {
    if s == [] then [] else Insert(s[0], SortByScore(s[1..]))
  }

  lemma {:induction false} InsertPermutes(x: Scored, s: seq<Scored>)
    ensures multiset(Insert(x, s)) == multiset(s) + multiset{x}
  {
    if s != [] && s[0].score > x.score {
      InsertPermutes(x, s[1..]);
      assert s == [s[0]] + s[1..];
    }
  }

  lemma {:induction false} InsertOrdered(x: Scored, s: seq<Scored>)
    requires RankOrdered(s)
    requires forall y :: y in s ==> x.pos < y.pos
    ensures RankOrdered(Insert(x, s))
  {
    if s != [] && s[0].score > x.score {
      InsertOrdered(x, s[1..]);
      InsertPermutes(x, s[1..]);
      var r := Insert(x, s[1..]);
      forall y | y in r ensures Before(s[0], y) {
        assert y in multiset(r);
        if y != x {
          assert y in multiset(s[1..]);
          var k :| 0 <= k < |s[1..]| && s[1..][k] == y;
          assert s[k + 1] == y;
        }
      }
    }
  }

  /** The sort keeps exactly the elements it was given. */
  lemma {:induction false} SortPermutes(s: seq<Scored>)
    ensures multiset(SortByScore(s)) == multiset(s)
  {
    if s != [] {
      SortPermutes(s[1..]);
      InsertPermutes(s[0], SortByScore(s[1..]));
      assert s == [s[0]] + s[1..];
    }
  }

  /** Stability: sorting a list in index order yields descending scores with
      ties kept in index order. */
  lemma {:induction false} SortOrdered(s: seq<Scored>)
    requires IncreasingPos(s)
    ensures RankOrdered(SortByScore(s))
  {
    if s != [] {
      SortOrdered(s[1..]);
      SortPermutes(s[1..]);
      forall y | y in SortByScore(s[1..]) ensures s[0].pos < y.pos {
        assert y in multiset(SortByScore(s[1..]));
        var k :| 0 <= k < |s[1..]| && s[1..][k] == y;
        assert s[k + 1] == y;
      }
      InsertOrdered(s[0], SortByScore(s[1..]));
    }
  }

  /** The end of `.slice(0, n)` on a list of length `len`; a negative `n` counts
      from the end. */
  function SliceEnd(len: nat, n: int): (k: nat)
    ensures k <= len
    ensures n >= 0 ==> k == if n < len then n else len
  {
    if n < 0 then (if len + n < 0 then 0 else len + n)
    else if n < len then n else len
  }

  // ---------------------------------------------------------------------------
  // The ranking

  ghost function Scores(index: seq<Entry>, ts: seq<string>, f: Config.Fields): (r: seq<Scored>)
    ensures |r| == |index|
  {
    seq(|index|, i requires 0 <= i < |index| => Scored(i, EntryScore(index[i], ts, f)))
  }

  /** Every qualifying record, best first: the list `.slice` cuts. */
  ghost function Ordered(index: seq<Entry>, ts: seq<string>, f: Config.Fields): seq<Scored> {
    SortByScore(Positive(Scores(index, ts, f)))
  }

  ghost function RankedPositions(index: seq<Entry>, ts: seq<string>, opts: Config.SearchOptions): seq<Scored> {
    var full := Ordered(index, ts, opts.fields);
    full[..SliceEnd(|full|, opts.maxResults)]
  }

  function Select(index: seq<Entry>, rs: seq<Scored>): (r: seq<Entry>)
    requires forall k :: 0 <= k < |rs| ==> rs[k].pos < |index|
    ensures |r| == |rs| && forall k :: 0 <= k < |rs| ==> r[k] == index[rs[k].pos]
  {
    seq(|rs|, k requires 0 <= k < |rs| => index[rs[k].pos])
  }

  lemma SortMembers(s: seq<Scored>)
    ensures forall x :: x in SortByScore(s) <==> x in s
  {
    SortPermutes(s);
    assert forall x :: x in SortByScore(s) <==> x in multiset(SortByScore(s));
    assert forall x :: x in s <==> x in multiset(s);
  }

  lemma ScoresMembers(index: seq<Entry>, ts: seq<string>, f: Config.Fields)
    ensures forall x :: x in Scores(index, ts, f) <==> x.pos < |index| && x.score == EntryScore(index[x.pos], ts, f)
  {
    var sc := Scores(index, ts, f);
    forall x: Scored | x.pos < |index| && x.score == EntryScore(index[x.pos], ts, f) ensures x in sc {
      assert sc[x.pos] == x;
    }
  }

  lemma OrderedInRange(index: seq<Entry>, ts: seq<string>, f: Config.Fields)
    ensures forall x :: x in Ordered(index, ts, f) <==>
      x.pos < |index| && x.score == EntryScore(index[x.pos], ts, f) && x.score > 0
  {
    SortMembers(Positive(Scores(index, ts, f)));
    ScoresMembers(index, ts, f);
  }

  /** The records `performSearch` returns, best first. */
  ghost function Ranking(index: seq<Entry>, ts: seq<string>, opts: Config.SearchOptions): seq<Entry> {
    OrderedInRange(index, ts, opts.fields);
    var rp := RankedPositions(index, ts, opts);
    assert forall k :: 0 <= k < |rp| ==> rp[k] in Ordered(index, ts, opts.fields);
    Select(index, rp)
  }

  /** The qualifying records, in ranking order: each appears once, with its
      score; records that do not qualify are absent; ranking order is descending
      score, ties by index position. */
  lemma OrderedCharacterised(index: seq<Entry>, ts: seq<string>, f: Config.Fields)
    requires ts != []
    ensures forall x :: x in Ordered(index, ts, f) <==>
      x.pos < |index| && Qualifies(index[x.pos], ts, f) && x.score == EntryScore(index[x.pos], ts, f)
    ensures RankOrdered(Ordered(index, ts, f))
  {
    OrderedInRange(index, ts, f);
    forall p | 0 <= p < |index| ensures EntryScore(index[p], ts, f) > 0 <==> Qualifies(index[p], ts, f) {
      ScorePositiveIffQualifies(index[p], ts, f);
    }
    var sc := Scores(index, ts, f);
    assert IncreasingPos(sc);
    PositiveKeepsOrder(sc);
    SortOrdered(Positive(sc));
  }

  /** What `performSearch` shows is the first `maxResults` entries of that list
      (slice semantics for a negative limit), so it holds only qualifying
      records, best first; and every qualifying record left out ranks behind
      every record shown. */
  lemma RankingCharacterised(index: seq<Entry>, ts: seq<string>, opts: Config.SearchOptions)
    requires ts != []
    ensures var full := Ordered(index, ts, opts.fields);
            var rp := RankedPositions(index, ts, opts);
            && rp == full[..SliceEnd(|full|, opts.maxResults)]
            && (opts.maxResults >= 0 ==> |rp| == if opts.maxResults < |full| then opts.maxResults else |full|)
            && RankOrdered(rp)
            && (forall k :: 0 <= k < |rp| ==> rp[k].pos < |index| && Qualifies(index[rp[k].pos], ts, opts.fields))
            && (forall x, k :: x in full && x !in rp && 0 <= k < |rp| ==> Before(rp[k], x))
            && Ranking(index, ts, opts) == Select(index, rp)
  {
    var full := Ordered(index, ts, opts.fields);
    var rp := RankedPositions(index, ts, opts);
    OrderedCharacterised(index, ts, opts.fields);
    assert forall k :: 0 <= k < |rp| ==> rp[k] == full[k];
    forall x, k | x in full && x !in rp && 0 <= k < |rp| ensures Before(rp[k], x) {
      var j :| 0 <= j < |full| && full[j] == x;
    }
  }

  /** `.map(...)` followed by the filter, the sort, the slice and `.map(r => r.item)`. */
  method RankIndex(index: seq<Entry>, ts: seq<string>, opts: Config.SearchOptions) returns (results: seq<Entry>)
    ensures results == Ranking(index, ts, opts)
  {
    var scored: seq<Scored> := [];
    for i := 0 to |index|
      invariant |scored| == i
      invariant forall q :: 0 <= q < i ==> scored[q] == Scored(q, EntryScore(index[q], ts, opts.fields))
    {
      var score := ScoreEntry(index[i], ts, opts.fields);
      scored := scored + [Scored(i, score)];
    }
    assert scored == Scores(index, ts, opts.fields);
    var sorted := SortByScore(Positive(scored));
    var top := sorted[..SliceEnd(|sorted|, opts.maxResults)];
    OrderedInRange(index, ts, opts.fields);
    assert forall k :: 0 <= k < |top| ==> top[k] in sorted;
    results := Select(index, top);
  }

  // ---------------------------------------------------------------------------
  // The query gates

  /** What a search renders. */
  datatype SearchOutcome = Cleared | KeepTyping | NoResults | Found(results: seq<Entry>)

  /** `term.toLowerCase().trim()`. */
  function NormalizeQuery(raw: string): string {
    Trim(Lower(raw))
  }

  /** `performSearch(term)`: an empty query or an index not yet loaded clears the
      list; a query shorter than `minChars` asks for more; otherwise the ranking,
      or the no-results message when it is empty. */
  ghost function SearchSpec(index: Option<seq<Entry>>, raw: string, opts: Config.SearchOptions): SearchOutcome {
    var term := NormalizeQuery(raw);
    if term == [] || index.None? then Cleared
    else if |term| < opts.minChars then KeepTyping
    else
      var rs := Ranking(index.value, Tokens(term), opts);
      if rs == [] then NoResults else Found(rs)
  }

  /** The gates in their order, and what a found list holds. */
  lemma SearchGates(index: Option<seq<Entry>>, raw: string, opts: Config.SearchOptions)
    ensures var term := NormalizeQuery(raw);
      && (SearchSpec(index, raw, opts) == Cleared <==> term == [] || index.None?)
      && (SearchSpec(index, raw, opts) == KeepTyping <==> term != [] && index.Some? && |term| < opts.minChars)
      && (SearchSpec(index, raw, opts).Found? ==>
            var rs := SearchSpec(index, raw, opts).results;
            && rs != []
            && (opts.maxResults >= 0 ==> |rs| <= opts.maxResults)
            && forall k :: 0 <= k < |rs| ==> rs[k] in index.value && Qualifies(rs[k], Tokens(term), opts.fields))
  {
    var term := NormalizeQuery(raw);
    if term != [] && index.Some? && |term| >= opts.minChars {
      TokensOfTrimmed(term);
      RankingFacts(index.value, Tokens(term), opts);
    }
  }

  /** What the found list holds, in the form the gates state it. */
  lemma RankingFacts(index: seq<Entry>, ts: seq<string>, opts: Config.SearchOptions)
    requires ts != []
    ensures var rs := Ranking(index, ts, opts);
      && (opts.maxResults >= 0 ==> |rs| <= opts.maxResults)
      && forall k :: 0 <= k < |rs| ==> rs[k] in index && Qualifies(rs[k], ts, opts.fields)
  {
    RankingCharacterised(index, ts, opts);
  }

  /** The short-query gate: a one-character query that is not white space,
      with a minimum of two characters (the default) or more, asks for more,
      whatever the index holds. */
  lemma OneCharacterKeepsTyping(index: seq<Entry>, raw: string, opts: Config.SearchOptions)
    requires |raw| == 1 && !IsSpace(raw[0]) && opts.minChars >= 2
    ensures SearchSpec(Some(index), raw, opts) == KeepTyping
  {
    OneCharacterQuery(raw);
    ShortQueryKeepsTyping(index, raw, opts);
  }

  /** Any query whose normalised form is non-empty but shorter than `minChars`
      asks for more. */
  lemma ShortQueryKeepsTyping(index: seq<Entry>, raw: string, opts: Config.SearchOptions)
    requires 0 < |NormalizeQuery(raw)| < opts.minChars
    ensures SearchSpec(Some(index), raw, opts) == KeepTyping
  {
  }

  /** A single non-blank character survives normalisation as one character. */
  lemma OneCharacterQuery(raw: string)
    requires |raw| == 1 && !IsSpace(raw[0])
    ensures |NormalizeQuery(raw)| == 1
  {
    var l := Lower(raw);
    assert !IsSpace(l[0]);
    assert TrimStart(l) == l;
    assert TrimEnd(l) == l;
  }

  method Search(index: Option<seq<Entry>>, raw: string, opts: Config.SearchOptions) returns (outcome: SearchOutcome)
    ensures outcome == SearchSpec(index, raw, opts)
  {
    var term := NormalizeQuery(raw);
    if term == [] || index.None? {
      return Cleared;
    }
    if |term| < opts.minChars {
      return KeepTyping;
    }
    var searchTerms := Tokens(term);
    var results := RankIndex(index.value, searchTerms, opts);
    if results == [] {
      return NoResults;
    }
    return Found(results);
  }

  // ---------------------------------------------------------------------------
  // A worked search

  const HelloWorld := Record(Some("Hello World"), None, Some("Posts"), Some("/hw"), None)
  const Goodbye := Record(Some("Goodbye"), Some("hello again"), Some("Posts"), Some("/gb"), None)

  /** A single token's score is its points, when it matched. */
  lemma SingleTokenScore(e: Entry, t: string, f: Config.Fields)
    ensures EntryScore(e, [t], f) == TokenPoints(e, t, f)
  {
    assert [t][..0] == [];
    assert Qualifies(e, [t], f) <==> TokenMatched(e, t, f) by {
      assert [t][0] == t;
    }
    assert SumPoints(e, [t], f) == SumPoints(e, [], f) + TokenPoints(e, t, f);
    TokenPointsPositive(e, t, f);
  }

  lemma HelloWorldScore()
    ensures EntryScore(Normalize(HelloWorld), ["hello"], Config.Defaults.search.fields) == TitlePrefixPoints
  {
    var e := Normalize(HelloWorld);
    assert e.searchableTitle == "hello world";
    assert StartsWith(e.searchableTitle, "hello");
    SingleTokenScore(e, "hello", Config.Defaults.search.fields);
  }

  lemma GoodbyeTitleMisses()
    ensures !StartsWith("goodbye", "hello") && !FuzzyMatches("goodbye", "hello")
  {
    assert "goodbye"[..5][0] != "hello"[0];
    assert !Includes("goodbye", "hello");
    assert forall k :: 0 <= k < |"goodbye"| ==> "goodbye"[k] != 'h';
    AbsentCharacter("hello", "goodbye", 0);
  }

  lemma GoodbyeProjections()
    ensures Normalize(Goodbye).searchableTitle == "goodbye"
    ensures Normalize(Goodbye).searchableDesc == "hello again"
    ensures Normalize(Goodbye).searchableSection == "posts"
  {
    assert Lower("Goodbye") == "goodbye";
    assert Lower("hello again") == "hello again";
    assert Lower("Posts") == "posts";
  }

  lemma GoodbyeOtherFields()
    ensures Includes("hello again", "hello") && !Includes("posts", "hello")
  {
    assert OccursAt("hello again", "hello", 0);
    assert forall k :: OccursAt("posts", "hello", k) ==> k == 0;
    assert "posts"[0..5][0] != "hello"[0];
  }

  lemma GoodbyeScore()
    ensures EntryScore(Normalize(Goodbye), ["hello"], Config.Defaults.search.fields) == FieldPoints
  {
    var e := Normalize(Goodbye);
    GoodbyeProjections();
    GoodbyeTitleMisses();
    GoodbyeOtherFields();
    assert TokenPoints(e, "hello", Config.Defaults.search.fields) == FieldPoints;
    SingleTokenScore(e, "hello", Config.Defaults.search.fields);
  }

  lemma HelloNormalized()
    ensures NormalizeQuery("Hello ") == "hello"
  {
    assert Lower("Hello ") == "hello ";
    assert TrimStart("hello ") == "hello ";
    assert TrimEnd("hello ") == TrimEnd("hello") by {
      assert "hello "[..5] == "hello";
    }
  }

  lemma HelloLastLetters()
    ensures SplitWords("llo", "he") == ["hello"]
  {
    assert SplitWords("o", "hell") == ["hello"] by {
      assert "o"[1..] == [] && "hell" + ['o'] == "hello";
    }
    assert SplitWords("lo", "hel") == SplitWords("o", "hell") by {
      assert "lo"[1..] == "o" && "hel" + ['l'] == "hell";
    }
    assert SplitWords("llo", "he") == SplitWords("lo", "hel") by {
      assert "llo"[1..] == "lo" && "he" + ['l'] == "hel";
    }
  }

  lemma HelloTokens()
    ensures Tokens("hello") == ["hello"]
  {
    HelloLastLetters();
    assert SplitWords("ello", "h") == SplitWords("llo", "he") by {
      assert "ello"[1..] == "llo" && "h" + ['e'] == "he";
    }
    assert SplitWords("hello", []) == SplitWords("ello", "h") by {
      assert "hello"[1..] == "ello" && [] + ['h'] == "h";
    }
  }

  lemma HelloQuery()
    ensures Tokens(NormalizeQuery("Hello ")) == ["hello"]
  {
    HelloNormalized();
    HelloTokens();
  }

  lemma HelloScores()
    ensures Scores(NormalizeIndex([HelloWorld, Goodbye]), ["hello"], Config.Defaults.search.fields)
         == [Scored(0, TitlePrefixPoints), Scored(1, FieldPoints)]
  {
    var index := NormalizeIndex([HelloWorld, Goodbye]);
    assert index[0] == Normalize(HelloWorld) && index[1] == Normalize(Goodbye);
    HelloWorldScore();
    GoodbyeScore();
  }

  /** Two positive scores, the first higher, are already in ranking order. */
  lemma TwoInOrder(a: Scored, b: Scored)
    requires a.score > b.score > 0
    ensures SortByScore(Positive([a, b])) == [a, b]
  {
    assert [a, b][1..] == [b];
    assert Positive([b]) == [b] by {
      assert [b][1..] == [];
    }
    assert Positive([a, b]) == [a, b];
    assert SortByScore([b]) == [b] by {
      assert [b][1..] == [];
    }
  }

  lemma HelloOrder()
    ensures Ordered(NormalizeIndex([HelloWorld, Goodbye]), ["hello"], Config.Defaults.search.fields)
         == [Scored(0, TitlePrefixPoints), Scored(1, FieldPoints)]
  {
    HelloScores();
    TwoInOrder(Scored(0, TitlePrefixPoints), Scored(1, FieldPoints));
  }

  lemma HelloRanking()
    ensures var index := NormalizeIndex([HelloWorld, Goodbye]);
      Ranking(index, ["hello"], Config.Defaults.search) == [index[0], index[1]]
  {
    var index := NormalizeIndex([HelloWorld, Goodbye]);
    var opts := Config.Defaults.search;
    HelloOrder();
    assert RankedPositions(index, ["hello"], opts) == [Scored(0, 6), Scored(1, 1)];
    RankingCharacterised(index, ["hello"], opts);
  }

  /** Searching "Hello " over a two-record index: the title-prefix match (6
      half-points) ranks ahead of the description match (1), and both are shown. */
  lemma HelloScenario()
    ensures var index := NormalizeIndex([HelloWorld, Goodbye]);
      && |index| == 2
      && SearchSpec(Some(index), "Hello ", Config.Defaults.search) == Found(index)
  {
    var index := NormalizeIndex([HelloWorld, Goodbye]);
    assert [index[0], index[1]] == index;
    HelloNormalized();
    HelloQuery();
    HelloRanking();
  }
}
