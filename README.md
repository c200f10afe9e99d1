# Fast search widget, modelled in Dafny

This project models the client-side search widget of the Anachronist theme
(`themes/anachronist/static/js/fastsearch.js`). A keyboard chord opens a
search overlay. On the first opening the widget fetches `/index.json`. Each
record of the index then gets lower-cased copies of its title, `desc` and
section. What the user types is ranked against those copies: a title prefix is
worth 3 points, a fuzzy title match 2, and a description or section hit 0.5
each. Every query token must match, the list is sorted by score (stable, best
first) and cut to `maxResults`. The list is rendered as escaped HTML. Escape
closes the overlay, Enter follows the first link, and the arrow keys walk the
focus through the links. Options are a deep merge of the user's object over
the defaults.

The modules follow the script's parts:

| file | module | what it holds |
|---|---|---|
| `wrappers.dfy` | `Wrappers` | `Option`, for a field or property that may be missing |
| `text.dfy` | `Text` | the string primitives the script relies on: `toLowerCase`, `trim`, `split(/\s+/)`, `startsWith`, `includes`, `indexOf`, and reference notions of substring and in-order subsequence |
| `fuzzy.dfy` | `Fuzzy` | `simpleFuzzyMatch` as a method with its loop |
| `escape.dfy` | `Escape` | `escapeHtml`, and the entity decoding a browser applies when it reads escaped text back |
| `config.dfy` | `Config` | JavaScript values, `mergeConfigs`, `DEFAULT_CONFIG`, and the typed settings the widget reads |
| `index.dfy` | `SearchIndex` | index records and their normalisation on load |
| `ranker.dfy` | `Ranker` | the three query gates and the ranking of `performSearch` |
| `widget_spec.dfy` | `WidgetSpec` | the keydown, input and load handlers as pure transitions over the widget's state, with their invariant |
| `widget.dfy` | `Widget` | class `FastSearch`: the closure state as fields, one method per listener, each proved to perform its transition |

Scores are counted in half-points, so the weights 3, 2 and 0.5 become 6, 4
and 1. This is exact: every score the script can compute is a multiple of 0.5.

Things the script does not do as one might expect, and that the model keeps:

- A failed load has no state of its own. The error message is shown, but
  `firstRun` is already false and the index is still missing. From then on
  every keystroke shows "Loading...", and no later opening fetches again
  (`WidgetSpec.LoadingAfterFailure`).
- Closing with the chord blurs the input and clears the list. It does not
  empty the input, and it does not reset `resultsAvailable`
  (`WidgetSpec.ChordToggles`). A list rendered while the widget is hidden
  (when the fetch completes after the chord closed it) is still there when
  it opens again.
- Enter follows the first link of the list even when the arrows moved the
  focus to a later one (`WidgetSpec.EnterFollowsTopResult`).
- The fuzzy scan does not reset when a character is missing. It only counts
  the characters it finds, so it succeeds exactly when the whole term is an
  in-order subsequence (`Fuzzy.SimpleFuzzyMatch`).
- An index that loaded but is empty is still an index. A query over it says
  "No results found." rather than clearing the list.

## Model

| member | source | states |
|---|---|---|
| Fuzzy.SimpleFuzzyMatch | themes/anachronist/static/js/fastsearch.js:46-56 | the result is true exactly when the term is a substring of the text, or has at least three characters and is an in-order subsequence of it |
| Fuzzy.ScatteredTermMatches | themes/anachronist/static/js/fastsearch.js:49-55 | "sidx" matches "search index" as a scattered in-order subsequence |
| Fuzzy.ReorderedTermMisses | themes/anachronist/static/js/fastsearch.js:47-55 | the reordered "xis" matches "search index" neither as a substring nor as a subsequence |
| Fuzzy.ShortTermExamples | themes/anachronist/static/js/fastsearch.js:48 | the two-character "ct" does not match "cat", although it is a subsequence; the substring "ca" matches |
| Fuzzy.ShortTermsNeedSubstring | themes/anachronist/static/js/fastsearch.js:47-48 | a term shorter than three characters matches exactly when it is a substring |
| Text.Includes | themes/anachronist/static/js/fastsearch.js:47 | `includes` holds exactly when the term occurs at some position of the text |
| Text.IndexOf | themes/anachronist/static/js/fastsearch.js:52 | `indexOf(c, from)` gives the first position at or after `from` that holds `c`, or -1 when there is none |
| Text.SubstringIsSubsequence | themes/anachronist/static/js/fastsearch.js:47-48 | a substring is also an in-order subsequence, so the substring test only decides short terms |
| Text.Lower | themes/anachronist/static/js/fastsearch.js:119 | lower-casing keeps the length, maps each character on its own, and leaves no upper-case letter |
| Text.Trim | themes/anachronist/static/js/fastsearch.js:119 | the trimmed query is empty or starts and ends with a character that is not white space |
| Text.TrimIsSlice | themes/anachronist/static/js/fastsearch.js:119 | the trimmed query is a slice of the input with only white space cut from either end |
| Text.TokensSpec | themes/anachronist/static/js/fastsearch.js:126 | every token is non-empty and free of white space, and the tokens together spell the query's non-space characters in order |
| Text.TokensOfWord | themes/anachronist/static/js/fastsearch.js:126 | a query without white space is a single token, itself |
| Text.TokensAtSpace | themes/anachronist/static/js/fastsearch.js:126 | a white-space character splits the query: the tokens are those of the part before it followed by those of the part after it, so (with `Tokens([]) == []`) the tokens are exactly the maximal runs of non-white-space characters |
| Text.TokensOfTrimmed | themes/anachronist/static/js/fastsearch.js:119-126 | a query that is non-empty after trimming has at least one token |
| Text.PrefixIsSubstring | themes/anachronist/static/js/fastsearch.js:133-134 | a title that starts with a token also contains it |
| SearchIndex.NormalizeIndex | themes/anachronist/static/js/fastsearch.js:33-38 | the normalised index has one entry per record, in order, each keeping its record and carrying the searchable copies computed from it |
| SearchIndex.SearchableProperties | themes/anachronist/static/js/fastsearch.js:35-37 | a searchable copy is empty for a missing field, is as long as the field otherwise, and is lower-case, so folding it again changes nothing |
| Ranker.TokenPointsPositive | themes/anachronist/static/js/fastsearch.js:130-141 | a token adds points to a record exactly when it matched one of the enabled fields |
| Ranker.TokenPoints | themes/anachronist/static/js/fastsearch.js:130-141 | a token earns 3 (title prefix), 2 (fuzzy title match), 1, 0.5 or 0 points, in half-points 6, 4, 2, 1 or 0; a title prefix always earns the full 3, and nothing else earns more than 2 |
| Ranker.PrefixOutranksOtherTitles | themes/anachronist/static/js/fastsearch.js:133-134 | for one token, a title that starts with it earns more than any title that does not |
| Ranker.ScorePositiveIffQualifies | themes/anachronist/static/js/fastsearch.js:130-142 | a record scores above zero exactly when every token matched one of its enabled fields |
| Ranker.ScoreEntry | themes/anachronist/static/js/fastsearch.js:128-143 | the `every` scan with its running score gives the sum of the token points when all tokens match, and 0 otherwise |
| Ranker.Positive | themes/anachronist/static/js/fastsearch.js:144 | the filter keeps exactly the scored records with a positive score |
| Ranker.PositiveKeepsOrder | themes/anachronist/static/js/fastsearch.js:144 | the filter keeps index order |
| Ranker.SortPermutes | themes/anachronist/static/js/fastsearch.js:145 | the sort is a permutation of its input |
| Ranker.SortOrdered | themes/anachronist/static/js/fastsearch.js:145 | the sort puts higher scores first, and keeps index order between equal scores |
| Ranker.SliceEnd | themes/anachronist/static/js/fastsearch.js:146 | the cut never exceeds the list's length, and for n ≥ 0 `slice(0, n)` keeps the first n elements, or all of them when there are fewer |
| Ranker.OrderedCharacterised | themes/anachronist/static/js/fastsearch.js:127-145 | before the cut, the list holds each qualifying record once, with its score, and none that fails to qualify, sorted by descending score with ties in index order |
| Ranker.RankingCharacterised | themes/anachronist/static/js/fastsearch.js:127-147 | the results are the first `maxResults` of that list; they qualify and are best first, and every qualifying record left out ranks behind every record shown |
| Ranker.RankIndex | themes/anachronist/static/js/fastsearch.js:127-147 | the map, filter, sort, slice and map chain computes exactly that ranking |
| Ranker.SearchGates | themes/anachronist/static/js/fastsearch.js:119-126 | an empty query or a missing index clears the list; a query shorter than `minChars` asks for more; a found list is non-empty, at most `maxResults` long, and holds only qualifying records of the index |
| Ranker.OneCharacterKeepsTyping | themes/anachronist/static/js/fastsearch.js:121-124 | with a minimum of two characters or more (the default is two), a one-character query that is not white space asks the user to keep typing, whatever the index holds |
| Ranker.ShortQueryKeepsTyping | themes/anachronist/static/js/fastsearch.js:121-124 | any query whose lower-cased, trimmed form is non-empty but shorter than the minimum asks the user to keep typing, whatever the index holds |
| Ranker.Search | themes/anachronist/static/js/fastsearch.js:118-153 | `performSearch` returns the outcome the gates and the ranking determine |
| Ranker.HelloScenario | themes/anachronist/static/js/fastsearch.js:118-147 | over a title "Hello World" and a description "hello again", the query "Hello " ranks the title-prefix match (3 points) ahead of the description match (0.5) |
| Escape.EscapeHtmlPerCharacter | themes/anachronist/static/js/fastsearch.js:185-186 | the chain of five global replacements escapes each character on its own, `&` first, so no entity is escaped twice |
| Escape.EscapeHtml | themes/anachronist/static/js/fastsearch.js:183-187 | a missing field gives the empty string, and any other value is escaped character by character (the empty string included) |
| Escape.EscapeHtmlSafe | themes/anachronist/static/js/fastsearch.js:183-187 | the output contains none of `<`, `>`, `"` and `'` |
| Escape.EscapeHtmlIdentity | themes/anachronist/static/js/fastsearch.js:185-186 | a string without special characters comes back unchanged |
| Escape.DecodeEscapeHtml | themes/anachronist/static/js/fastsearch.js:183-187 | decoding the escaped text gives back the original string, which is what a link's `href` yields |
| Config.PlainObjectIsObj | themes/anachronist/static/js/fastsearch.js:176 | the merge recurses exactly into objects: not into arrays, `null` or scalars |
| Config.MergeConfigs | themes/anachronist/static/js/fastsearch.js:173-181 | the merge loop returns the defaults' own properties with each user entry written over them, recursing into plain objects |
| Config.MergeEntries | themes/anachronist/static/js/fastsearch.js:174-178 | every key of either side is present; a key only the defaults have passes through; a non-object user value replaces the default; an object is merged over the default's entry, or over `{}` |
| Config.MergeWithoutOverrides | themes/anachronist/static/js/fastsearch.js:17-18 | with no user options, the merge gives back the defaults |
| Config.MergeIdempotent | themes/anachronist/static/js/fastsearch.js:173-181 | merging the same user options a second time changes nothing |
| Config.DefaultsWhenNoUserConfig | themes/anachronist/static/js/fastsearch.js:6-18 | with no user options the widget opens on Meta+/ and searches with a minimum of 2 characters, at most 8 results, and all three fields |
| Config.OverrideMaxResults | themes/anachronist/static/js/fastsearch.js:173-181 | overriding only `search.maxResults` keeps every other default option |
| WidgetSpec.RenderAll | themes/anachronist/static/js/fastsearch.js:154-161 | the list renders one item per result, in order |
| WidgetSpec.RenderedTitle | themes/anachronist/static/js/fastsearch.js:157 | a rendered title is never empty, and reads back as the record's title or as "Micro post" |
| WidgetSpec.ShowFrame | themes/anachronist/static/js/fastsearch.js:149-161 | rendering a search changes only the list, the focus and `resultsAvailable`, which is then true exactly for a found list |
| WidgetSpec.SearchStepShows | themes/anachronist/static/js/fastsearch.js:118-162 | after a search, `resultsAvailable` holds exactly when a non-empty list of links is shown; otherwise the gate's message or an empty list is shown |
| WidgetSpec.StepInv | themes/anachronist/static/js/fastsearch.js:23-26 | the widget invariant holds after every event (see `WidgetSpec.Inv`) |
| WidgetSpec.FetchAtMostOnce | themes/anachronist/static/js/fastsearch.js:72 | along any run of events, exactly one fetch is issued when `firstRun` goes from true to false, and none otherwise; `firstRun` never becomes true again |
| WidgetSpec.ChordToggles | themes/anachronist/static/js/fastsearch.js:58-79 | visibility flips exactly when the key and all four modifiers match; opening empties and focuses the input, fetches only on the first opening, and leaves the list and `resultsAvailable` as they were; closing blurs the input (the focus ends on neither the input nor a result link) and clears the list, but keeps the input's text, the index and `resultsAvailable` |
| WidgetSpec.EscapeCloses | themes/anachronist/static/js/fastsearch.js:81-87 | Escape while open hides the widget, empties the input and the list, and moves the focus off the widget; while hidden it changes nothing |
| WidgetSpec.ArrowDownNavigates | themes/anachronist/static/js/fastsearch.js:94-105 | ArrowDown moves from the input to the first link and from each link to the next, stops at the last, and only acts while open with results shown |
| WidgetSpec.ArrowUpNavigates | themes/anachronist/static/js/fastsearch.js:94-115 | ArrowUp moves from the first link to the input and from each later link to the previous one; a link outside the list sends the focus to the input |
| WidgetSpec.MatchesShortcutExactly | themes/anachronist/static/js/fastsearch.js:58-64 | a key event matches a chord exactly when its key and all four modifier flags are the chord's; with the default chord, only `/` with the meta key alone |
| WidgetSpec.EnterPhase | themes/anachronist/static/js/fastsearch.js:89-92 | the Enter block issues at most one command, always a navigation and never a fetch, and issues it exactly when Enter is pressed while open over a list that holds a link |
| WidgetSpec.EnterFollowsTopResult | themes/anachronist/static/js/fastsearch.js:89-92 | Enter over a shown list navigates to the top result's permalink wherever the focus is, even on a later link the arrows moved it to, and changes nothing else |
| WidgetSpec.FailedLoadShowsLoading | themes/anachronist/static/js/fastsearch.js:40-43 | after a failed load the error is shown, no index exists, no fetch is pending, and the next keystroke shows "Loading..." |
| WidgetSpec.FailedStaysFailed | themes/anachronist/static/js/fastsearch.js:23-26 | once there is no index, the first run is over and no fetch is pending, no run of events changes any of the three or issues a fetch |
| WidgetSpec.LoadingAfterFailure | themes/anachronist/static/js/fastsearch.js:164-168 | after a failed load, whatever events follow, every later keystroke shows "Loading..." and no fetch is issued again |
| WidgetSpec.LoadedSearchesPendingText | themes/anachronist/static/js/fastsearch.js:33-39 | a successful load stores the normalised index and searches again for the text already typed |
| WidgetSpec.TypeHelloThenEnter | themes/anachronist/static/js/fastsearch.js:89-169 | typing "Hello " over the two-record index lists both records, and Enter then opens "/hw" |
| Widget.FastSearch.constructor | themes/anachronist/static/js/fastsearch.js:17-26 | a new widget is hidden, has no index, has the first run ahead of it, and satisfies the invariant |
| Widget.FastSearch.KeyDown | themes/anachronist/static/js/fastsearch.js:66-116 | the keydown listener performs the chord, Escape, Enter and arrow blocks in order, as `WidgetSpec.KeyDownStep` describes, and keeps the invariant |
| Widget.FastSearch.ToggleOnShortcut | themes/anachronist/static/js/fastsearch.js:67-79 | the chord block updates the state as `WidgetSpec.ChordPhase` describes |
| Widget.FastSearch.CloseOnEscape | themes/anachronist/static/js/fastsearch.js:81-87 | the Escape block updates the state as `WidgetSpec.EscapePhase` describes |
| Widget.FastSearch.NavigateOnArrow | themes/anachronist/static/js/fastsearch.js:94-115 | the arrow block moves the focus as `WidgetSpec.ArrowPhase` describes |
| Widget.FastSearch.PerformSearch | themes/anachronist/static/js/fastsearch.js:118-162 | `performSearch` renders the outcome of the search and keeps the invariant |
| Widget.FastSearch.ShowOutcome | themes/anachronist/static/js/fastsearch.js:120-161 | rendering an outcome updates the list, the focus and `resultsAvailable` as `WidgetSpec.Show` describes |
| Widget.FastSearch.SetResults | themes/anachronist/static/js/fastsearch.js:120-161 | assigning the list's HTML replaces what it shows; a focus held by one of the old result links is lost with it, and nothing else changes |
| Widget.FastSearch.InputChanged | themes/anachronist/static/js/fastsearch.js:164-170 | the input listener shows "Loading..." while the index is missing after the first opening, and searches otherwise |
| Widget.FastSearch.LoadFinished | themes/anachronist/static/js/fastsearch.js:28-44 | completing the fetch stores the index and searches again, or shows the error |

`Widget.FastSearch.FocusMoved` has no row: it is not a line of the script
but stands for the user moving the focus by mouse or Tab, which the arrow
handler then reads through `document.activeElement`.

## Left out

- The fetch of `/index.json` and its asynchrony are not modelled. Completion is an event carrying either the parsed records or a failure. A failure stands for an HTTP error, a body that is not an array, a `null` element (reading its `title` throws), or a field that is present but not a string (it has no `toLowerCase`). Any other element, such as a number or a string, loads as a record with no fields, `Record(None, None, None, None, None)`, because the element has none of the five properties: the spread copies at most its indexed characters or elements, and the missing fields give empty searchable copies. The `console.error` call is dropped.
- The DOM is abstracted. The list's contents are a value, and the focus is the input, a result link, another link, or elsewhere. `style.visibility`, `preventDefault`, `tabindex` and the HTML template's markup are not modelled.
- Widget.FastSearch.KeyDown: the Enter block returns the link's decoded `href` attribute. The browser would also resolve it against the page's address.
- Text.Lower: folds only ASCII `A`-`Z`. `toLowerCase` also folds other scripts, and some characters change length when folded.
- Text.Trim: lengths are counted in Unicode scalar values. JavaScript counts UTF-16 code units, so `minChars` counts astral characters differently.
- Fuzzy.SimpleFuzzyMatch: strings are sequences of Unicode scalar values, not UTF-16 code units. The script's `term.length < 3` counts code units, and its `indexOf(term[i])` scan walks them one by one, surrogate halves included. So for a term with an astral character the result can differ. For example, `"a😀"` has length 3 in JavaScript and its three code units occur in order in `"a b😀"`, so the script matches it. The model sees two characters and reports no match. The title score computed by Ranker.TokenPoints differs with it.
- Scores are integers in half-points. There is no floating point, which loses nothing for these weights.
- Config.Value: numbers are integers. `undefined` and an absent property are both `Null`. Inherited properties (`defaultConfig[key]` reaching the prototype) are treated as missing.
- Config.Merged: the merged object is a map, so the insertion order of its keys is not modelled.
- Config.ReadConfig: gives `None`, and so no widget, for options the widget cannot work with. The script behaves differently per case. A missing `shortcuts.open` makes every keydown throw a `TypeError`. A missing or `null` `search.fields` makes every search that reaches the ranking over a non-empty index throw. A chord of other types never matches, and other non-numeric limits are compared and sliced with as JavaScript coerces them. None of this arises from `initSearch()`, which passes no options.
- SearchIndex.Record: fields are strings or missing (`null` reads as missing). A title, `desc` or section of another JSON type makes the load fail, as the fetch line above says. A permalink or date of another type is not modelled.
- `initSearch()` runs once at page load with no user options. That is covered by `Config.DefaultsWhenNoUserConfig` and the widget constructor; the DOM lookups are not modelled.
- `microfeed.js` is a separate script and is not part of this model.
