/** The interaction state machine of the search widget as pure transitions:
    the closure state of `initSearch` (`searchIndex`, `searchVisible`,
    `resultsAvailable`, `firstRun`), the input box's text, what the result list
    shows and where keyboard focus is, with one function per handler. The
    commands a transition issues (starting the index fetch, following a link)
    are returned beside the new state. */
module WidgetSpec {
  import opened Wrappers
  import opened Escape
  import opened Config
  import opened SearchIndex
  import opened Ranker

  /** `document.activeElement`, abstracted: the search input, the i-th result
      link, some other link of the page, or anything else. */
  datatype Focus = Input | ResultLink(i: nat) | OtherLink | Elsewhere

  /** One rendered result: escaped href, title (with its fallback), section and date. */
  datatype RenderedItem = RenderedItem(href: string, title: string, section: string, date: string)

  /** The contents of the result list: nothing, a status message, or links. */
  datatype Display = Blank | Message(text: string) | Links(items: seq<RenderedItem>)

  datatype KeyEvent = KeyEvent(key: string, metaKey: bool, altKey: bool, ctrlKey: bool, shiftKey: bool)

  /** Effects a transition asks of the browser. */
  datatype Command = FetchIndex | Navigate(url: string)

  /** How the fetch of `/index.json` ends. */
  datatype LoadOutcome = Loaded(data: seq<Record>) | Failed

  /** The widget's state; `fetchPending` records that the fetch started by
      `loadSearchIndex` has not yet completed. */
  datatype State = State(
    index: Option<seq<Entry>>,
    visible: bool,
    resultsAvailable: bool,
    firstRun: bool,
    input: string,
    display: Display,
    focus: Focus,
    fetchPending: bool)

  const KeepTypingMessage := "Keep typing..."
  const NoResultsMessage := "No results found."
  const LoadErrorMessage := "Error loading search index..."
  const LoadingMessage := "Loading..."
  const MicroPostTitle := "Micro post"

  /** The state when `initSearch` has run. */
  function Initial(focus: Focus): State {
    State(None, false, false, true, [], Blank, if focus.ResultLink? then Elsewhere else focus, false)
  }

  /** `matchesShortcut`: the key and all four modifier flags agree. */
  predicate MatchesShortcut(ev: KeyEvent, sc: Shortcut) {
    && ev.key == sc.key
    && ev.metaKey == sc.metaKey
    && ev.altKey == sc.altKey
    && ev.ctrlKey == sc.ctrlKey
    && ev.shiftKey == sc.shiftKey
  }

  /** A key event matches a chord exactly when it is that chord's own key event:
      with the default chord, only `/` with the meta key and no other modifier. */
  lemma MatchesShortcutExactly(ev: KeyEvent, sc: Shortcut)
    ensures MatchesShortcut(ev, sc) <==> ev == KeyEvent(sc.key, sc.metaKey, sc.altKey, sc.ctrlKey, sc.shiftKey)
    ensures MatchesShortcut(ev, Defaults.open) <==> ev == KeyEvent("/", true, false, false, false)
  {
  }

  /** `searchResults.getElementsByTagName('a')`. */
  function LinksOf(d: Display): seq<RenderedItem> {
    if d.Links? then d.items else []
  }

  /** Assigning `searchResults.innerHTML`: the old result links leave the
      document, and a focused one takes the focus with it. */
  function Render(s: State, d: Display): State {
    s.(display := d, focus := if s.focus.ResultLink? then Elsewhere else s.focus)
  }

  /** `searchInput.blur()`: has an effect only when the input has the focus. */
  function Blur(s: State): State {
    s.(focus := if s.focus == Input then Elsewhere else s.focus)
  }

  /** `item.title || 'Micro post'`. */
  function TitleOrFallback(title: Option<string>): string {
    if title.Some? && title.value != [] then title.value else MicroPostTitle
  }

  /** The template of one result, every field passed through escapeHtml. */
  function RenderItem(e: Entry): RenderedItem {
    RenderedItem(
      EscapeHtml(e.item.permalink),
      EscapeHtml(Some(TitleOrFallback(e.item.title))),
      EscapeHtml(e.item.section),
      EscapeHtml(e.item.date))
  }

  function RenderAll(rs: seq<Entry>): (r: seq<RenderedItem>)
    ensures |r| == |rs| && forall k :: 0 <= k < |rs| ==> r[k] == RenderItem(rs[k])
  {
    seq(|rs|, k requires 0 <= k < |rs| => RenderItem(rs[k]))
  }

  /** A rendered title is never empty, and reads back as the record's title or
      as the fallback. */
  lemma RenderedTitle(e: Entry)
    ensures RenderItem(e).title != []
    ensures DecodeEntities(RenderItem(e).title) == TitleOrFallback(e.item.title)
  {
    DecodeEscapeHtml(TitleOrFallback(e.item.title));
  }

  /** The rendering half of `performSearch`. */
  function Show(s: State, outcome: SearchOutcome): State {
    match outcome
    case Cleared => Render(s, Blank).(resultsAvailable := false)
    case KeepTyping => Render(s, Message(KeepTypingMessage)).(resultsAvailable := false)
    case NoResults => Render(s, Message(NoResultsMessage)).(resultsAvailable := false)
    case Found(rs) => Render(s, Links(RenderAll(rs))).(resultsAvailable := true)
  }

  /** `performSearch(raw)` against the current index. */
  ghost function SearchStep(cfg: WidgetConfig, s: State, raw: string): State {
    Show(s, SearchSpec(s.index, raw, cfg.search))
  }

  // ---------------------------------------------------------------------------
  // The keydown handler, block by block

  /** The chord toggles visibility; opening clears the input and focuses it,
      and on the first opening starts the fetch; closing blurs and clears the
      results but leaves the input's text alone. */
  function ChordPhase(cfg: WidgetConfig, s: State, ev: KeyEvent): (State, seq<Command>) {
    if !MatchesShortcut(ev, cfg.open) then (s, [])
    else if !s.visible then
      (s.(visible := true, firstRun := false, fetchPending := s.fetchPending || s.firstRun,
          focus := Input, input := []),
       if s.firstRun then [FetchIndex] else [])
    else (Render(Blur(s.(visible := false)), Blank), [])
  }

  /** Escape while visible hides the widget, blurs, empties the input and the results. */
  function EscapePhase(s: State, ev: KeyEvent): State {
    if ev.key == "Escape" && s.visible then Render(Blur(s).(input := []), Blank).(visible := false) else s
  }

  /** Enter while visible follows the first link of the results, if there is
      one: at most one command, never a fetch. */
  function EnterPhase(s: State, ev: KeyEvent): (r: seq<Command>)
    ensures |r| <= 1 && forall k :: 0 <= k < |r| ==> r[k].Navigate?
    ensures r != [] <==> ev.key == "Enter" && s.visible && LinksOf(s.display) != []
  {
    var links := LinksOf(s.display);
    if ev.key == "Enter" && s.visible && links != [] then [Navigate(DecodeEntities(links[0].href))] else []
  }

  /** ArrowDown: from the input to the first link, from a link to the next one,
      nothing past the last link. */
  function ArrowDownFocus(f: Focus, n: nat): Focus {
    match f
    case Input => ResultLink(0)
    case ResultLink(i) => if i + 1 < n then ResultLink(i + 1) else f
    case _ => f
  }

  /** ArrowUp: from the first link to the input, from a link to the previous one;
      from a link that is not in the results (the `else` of the source, where
      `indexOf` gives -1) to the input; the input itself stays focused. */
  function ArrowUpFocus(f: Focus, n: nat): Focus {
    match f
    case ResultLink(i) => if 0 < i < n then ResultLink(i - 1) else Input
    case OtherLink => Input
    case _ => f
  }

  /** Arrow keys act only while visible with results available and links shown. */
  function ArrowPhase(s: State, ev: KeyEvent): State {
    var n := |LinksOf(s.display)|;
    if !(s.visible && s.resultsAvailable) || n == 0 then s
    else if ev.key == "ArrowDown" then s.(focus := ArrowDownFocus(s.focus, n))
    else if ev.key == "ArrowUp" then s.(focus := ArrowUpFocus(s.focus, n))
    else s
  }

  /** The whole keydown handler: the four blocks in sequence, each seeing the
      state the previous one left. */
  function KeyDownStep(cfg: WidgetConfig, s: State, ev: KeyEvent): (State, seq<Command>) {
    var (s1, c1) := ChordPhase(cfg, s, ev);
    var s2 := EscapePhase(s1, ev);
    var c2 := EnterPhase(s2, ev);
    (ArrowPhase(s2, ev), c1 + c2)
  }

  // ---------------------------------------------------------------------------
  // Input, load completion, focus

  /** The input handler, given the input's new text: while the index is missing
      after the first opening it shows "Loading...", otherwise it searches. */
  ghost function InputStep(cfg: WidgetConfig, s: State, value: string): State {
    var s1 := s.(input := value);
    if s1.index.None? && !s1.firstRun then Render(s1, Message(LoadingMessage)) else SearchStep(cfg, s1, value)
  }

  /** Completion of the fetch: on success the index is normalised and the text
      already typed is searched again; on failure the error message is shown and
      nothing else changes. Without a pending fetch there is nothing to complete. */
  ghost function LoadStep(cfg: WidgetConfig, s: State, outcome: LoadOutcome): State {
    if !s.fetchPending then s
    else match outcome
      case Loaded(data) =>
        var s1 := s.(index := Some(NormalizeIndex(data)), fetchPending := false);
        if s1.input != [] then SearchStep(cfg, s1, s1.input) else s1
      case Failed =>
        Render(s.(fetchPending := false), Message(LoadErrorMessage))
  }

  /** A focus target the document holds. */
  predicate CanFocus(s: State, target: Focus) {
    target.ResultLink? ==> target.i < |LinksOf(s.display)|
  }

  /** The user moves focus (by mouse or Tab). */
  function FocusStep(s: State, target: Focus): State {
    if CanFocus(s, target) then s.(focus := target) else s
  }

  datatype Event =
    | KeyDown(ev: KeyEvent)
    | InputChanged(value: string)
    | LoadFinished(outcome: LoadOutcome)
    | FocusMoved(target: Focus)

  ghost function Step(cfg: WidgetConfig, s: State, e: Event): (State, seq<Command>) {
    match e
    case KeyDown(ev) => KeyDownStep(cfg, s, ev)
    case InputChanged(v) => (InputStep(cfg, s, v), [])
    case LoadFinished(o) => (LoadStep(cfg, s, o), [])
    case FocusMoved(t) => (FocusStep(s, t), [])
  }

  /** A sequence of events, with every command issued on the way. */
  ghost function Run(cfg: WidgetConfig, s: State, es: seq<Event>): (State, seq<Command>)
    decreases |es|
  {
    if es == [] then (s, [])
    else
      var (s1, c1) := Step(cfg, s, es[0]);
      var (s2, c2) := Run(cfg, s1, es[1..]);
      (s2, c1 + c2)
  }

  function FetchCount(cs: seq<Command>): nat {
    if cs == [] then 0 else (if cs[0] == FetchIndex then 1 else 0) + FetchCount(cs[1..])
  }

  // ---------------------------------------------------------------------------
  // The invariant

  /** What holds in every reachable state: a pending fetch means the first
      opening happened and no index is there yet; an index means the fetch is
      over; a focused result link exists; links are shown only when results are
      available, and are never an empty list; results are available only with an
      index. */
  predicate Inv(s: State) {
    && (s.fetchPending ==> !s.firstRun && s.index.None?)
    && (s.index.Some? ==> !s.firstRun)
    && CanFocus(s, s.focus)
    && (s.display.Links? ==> s.resultsAvailable && s.display.items != [])
    && (s.resultsAvailable ==> s.index.Some?)
  }

  lemma InitialInv(focus: Focus)
    ensures Inv(Initial(focus))
  {
  }

  /** Rendering an outcome touches only the display, the focus and
      `resultsAvailable`. */
  lemma ShowFrame(s: State, o: SearchOutcome)
    ensures var t := Show(s, o);
      t == s.(display := t.display, focus := t.focus, resultsAvailable := t.resultsAvailable)
      && (t.resultsAvailable <==> o.Found?)
      && !t.focus.ResultLink?
  {
  }

  lemma ShowOutcomeInv(s: State, o: SearchOutcome)
    requires Inv(s)
    requires o.Found? ==> o.results != [] && s.index.Some?
    ensures Inv(Show(s, o))
  {
  }

  /** What the gates guarantee of a found list, as the renderer needs it. */
  lemma FoundIsNonEmpty(index: Option<seq<Entry>>, raw: string, opts: Config.SearchOptions)
    ensures var o := SearchSpec(index, raw, opts);
      o.Found? ==> o.results != [] && index.Some?
  {
    SearchGates(index, raw, opts);
  }

  lemma ShowInv(cfg: WidgetConfig, s: State, raw: string)
    requires Inv(s)
    ensures Inv(SearchStep(cfg, s, raw))
  {
    FoundIsNonEmpty(s.index, raw, cfg.search);
    ShowOutcomeInv(s, SearchSpec(s.index, raw, cfg.search));
  }

  lemma ChordInv(cfg: WidgetConfig, s: State, ev: KeyEvent)
    requires Inv(s)
    ensures Inv(ChordPhase(cfg, s, ev).0)
  {
  }

  lemma EscapeInv(s: State, ev: KeyEvent)
    requires Inv(s)
    ensures Inv(EscapePhase(s, ev))
  {
  }

  lemma ArrowInv(s: State, ev: KeyEvent)
    requires Inv(s)
    ensures Inv(ArrowPhase(s, ev))
  {
  }

  lemma KeyDownInv(cfg: WidgetConfig, s: State, ev: KeyEvent)
    requires Inv(s)
    ensures Inv(KeyDownStep(cfg, s, ev).0)
  {
    var s1 := ChordPhase(cfg, s, ev).0;
    ChordInv(cfg, s, ev);
    EscapeInv(s1, ev);
    ArrowInv(EscapePhase(s1, ev), ev);
  }

  lemma {:induction false} StepInv(cfg: WidgetConfig, s: State, e: Event)
    requires Inv(s)
    ensures Inv(Step(cfg, s, e).0)
  {
    match e
    case KeyDown(ev) => KeyDownInv(cfg, s, ev);
    case InputChanged(v) =>
      if !(s.index.None? && !s.firstRun) {
        ShowInv(cfg, s.(input := v), v);
      }
    case LoadFinished(o) =>
      if s.fetchPending && o.Loaded? {
        var s1 := s.(index := Some(NormalizeIndex(o.data)), fetchPending := false);
        if s1.input != [] {
          ShowInv(cfg, s1, s1.input);
        }
      }
    case FocusMoved(t) =>
  }

  // ---------------------------------------------------------------------------
  // Properties of the transitions

  /** One event issues a fetch exactly when it ends the first run. */
  lemma StepFetches(cfg: WidgetConfig, s: State, e: Event)
    ensures var (t, cs) := Step(cfg, s, e);
      && (!s.firstRun ==> !t.firstRun)
      && FetchCount(cs) == if s.firstRun && !t.firstRun then 1 else 0
  {
    match e
    case KeyDown(ev) => KeyDownFetches(cfg, s, ev);
    case InputChanged(v) =>
      var s1 := s.(input := v);
      ShowFrame(s1, SearchSpec(s1.index, v, cfg.search));
    case LoadFinished(o) =>
      if o.Loaded? {
        var s1 := s.(index := Some(NormalizeIndex(o.data)), fetchPending := false);
        ShowFrame(s1, SearchSpec(s1.index, s1.input, cfg.search));
      }
    case FocusMoved(t) =>
  }

  lemma EnterNeverFetches(s: State, ev: KeyEvent)
    ensures FetchCount(EnterPhase(s, ev)) == 0
  {
  }

  lemma KeyDownFetches(cfg: WidgetConfig, s: State, ev: KeyEvent)
    ensures var (t, cs) := KeyDownStep(cfg, s, ev);
      && (!s.firstRun ==> !t.firstRun)
      && FetchCount(cs) == if s.firstRun && !t.firstRun then 1 else 0
  {
    var (t1, d1) := ChordPhase(cfg, s, ev);
    var t2 := EscapePhase(t1, ev);
    assert FetchCount(d1) == if s.firstRun && !t1.firstRun then 1 else 0;
    assert t2.firstRun == t1.firstRun && ArrowPhase(t2, ev).firstRun == t1.firstRun;
    EnterNeverFetches(t2, ev);
    FetchCountAppend(d1, EnterPhase(t2, ev));
  }

  /** Loading is requested at most once: along any run, exactly one fetch is
      issued if `firstRun` went from true to false, and none otherwise; and
      `firstRun`, once false, stays false. */
  lemma {:induction false} FetchAtMostOnce(cfg: WidgetConfig, s: State, es: seq<Event>)
    ensures !s.firstRun ==> !Run(cfg, s, es).0.firstRun
    ensures FetchCount(Run(cfg, s, es).1) == if s.firstRun && !Run(cfg, s, es).0.firstRun then 1 else 0
    decreases |es|
  {
    if es != [] {
      var (s1, c1) := Step(cfg, s, es[0]);
      StepFetches(cfg, s, es[0]);
      FetchAtMostOnce(cfg, s1, es[1..]);
      FetchCountAppend(c1, Run(cfg, s1, es[1..]).1);
    }
  }

  lemma {:induction false} FetchCountAppend(a: seq<Command>, b: seq<Command>)
    ensures FetchCount(a + b) == FetchCount(a) + FetchCount(b)
  {
    if a != [] {
      assert (a + b)[1..] == a[1..] + b;
      FetchCountAppend(a[1..], b);
    } else {
      assert a + b == b;
    }
  }

  /** The chord, as configured: with any key but Escape, visibility flips exactly
      when key and all four modifiers match. Opening empties the input, focuses
      it, and issues the fetch only the first time, but leaves the list and
      `resultsAvailable` as they were (a list rendered while hidden reappears);
      closing hides the widget, blurs the input and clears the results, but
      keeps the input's text and `resultsAvailable`. */
  lemma ChordToggles(cfg: WidgetConfig, s: State, ev: KeyEvent)
    requires ev.key != "Escape"
    ensures var (t, cs) := KeyDownStep(cfg, s, ev);
      && (t.visible <==> s.visible != MatchesShortcut(ev, cfg.open))
      && (MatchesShortcut(ev, cfg.open) && !s.visible ==>
            && t.input == [] && !t.firstRun && t.index == s.index
            && t.display == s.display && t.resultsAvailable == s.resultsAvailable
            && (ev.key !in {"ArrowDown", "ArrowUp"} ==> t.focus == Input)
            && (FetchCount(cs) == 1 <==> s.firstRun))
      && (MatchesShortcut(ev, cfg.open) && s.visible ==>
            && t.display == Blank && t.input == s.input
            && t.focus != Input && !t.focus.ResultLink? && t.index == s.index
            && t.resultsAvailable == s.resultsAvailable && t.firstRun == s.firstRun
            && cs == [])
  {
    var (s1, c1) := ChordPhase(cfg, s, ev);
    var s2 := EscapePhase(s1, ev);
    FetchCountAppend(c1, EnterPhase(s2, ev));
  }

  /** Escape with the default chord: while visible it hides the widget and
      empties both the input and the results, from every open state; while
      hidden it changes nothing. */
  lemma EscapeCloses(cfg: WidgetConfig, s: State, ev: KeyEvent)
    requires ev.key == "Escape" && !MatchesShortcut(ev, cfg.open)
    ensures var (t, cs) := KeyDownStep(cfg, s, ev);
      && cs == []
      && (s.visible ==>
            && !t.visible && t.input == [] && t.display == Blank
            && !t.focus.ResultLink? && t.focus != Input
            && t.index == s.index && t.firstRun == s.firstRun && t.resultsAvailable == s.resultsAvailable)
      && (!s.visible ==> t == s)
  {
  }

  /** ArrowDown moves focus forward through the results and stops at the last
      one; it acts only while visible, with results available and links shown,
      and changes nothing but the focus. */
  lemma ArrowDownNavigates(cfg: WidgetConfig, s: State, ev: KeyEvent)
    requires ev.key == "ArrowDown" && !MatchesShortcut(ev, cfg.open)
    ensures var (t, cs) := KeyDownStep(cfg, s, ev);
      var n := |LinksOf(s.display)|;
      && cs == []
      && t == s.(focus := t.focus)
      && (!(s.visible && s.resultsAvailable && n > 0) ==> t.focus == s.focus)
      && (s.visible && s.resultsAvailable && n > 0 ==>
            && (s.focus == Input ==> t.focus == ResultLink(0))
            && (s.focus.ResultLink? && s.focus.i + 1 < n ==> t.focus == ResultLink(s.focus.i + 1))
            && (s.focus.ResultLink? && s.focus.i + 1 >= n ==> t.focus == s.focus)
            && (s.focus == OtherLink || s.focus == Elsewhere ==> t.focus == s.focus))
  {
  }

  /** ArrowUp moves focus back through the results, from the first one to the
      input, and leaves a focused input alone; same conditions as ArrowDown. */
  lemma ArrowUpNavigates(cfg: WidgetConfig, s: State, ev: KeyEvent)
    requires ev.key == "ArrowUp" && !MatchesShortcut(ev, cfg.open)
    ensures var (t, cs) := KeyDownStep(cfg, s, ev);
      var n := |LinksOf(s.display)|;
      && cs == []
      && t == s.(focus := t.focus)
      && (!(s.visible && s.resultsAvailable && n > 0) ==> t.focus == s.focus)
      && (s.visible && s.resultsAvailable && n > 0 ==>
            && (s.focus == ResultLink(0) ==> t.focus == Input)
            && (s.focus.ResultLink? && 0 < s.focus.i < n ==> t.focus == ResultLink(s.focus.i - 1))
            && (s.focus == Input || s.focus == Elsewhere ==> t.focus == s.focus)
            && (s.focus == OtherLink ==> t.focus == Input))
  {
  }

  /** Enter while visible over a shown result list follows the first link,
      which is the top-ranked record's permalink (the empty URL, i.e. the page
      itself, when it has none), wherever the focus is: the arrows may have
      moved it to a later link, but the first one is followed all the same; and
      nothing else changes. */
  lemma EnterFollowsTopResult(cfg: WidgetConfig, s: State, ev: KeyEvent, rs: seq<Entry>)
    requires ev.key == "Enter" && !MatchesShortcut(ev, cfg.open)
    requires s.visible && rs != [] && s.display == Links(RenderAll(rs))
    ensures KeyDownStep(cfg, s, ev) == (s, [Navigate(rs[0].item.permalink.GetOr([]))])
  {
    var p := rs[0].item.permalink;
    assert LinksOf(s.display)[0] == RenderItem(rs[0]);
    assert ChordPhase(cfg, s, ev) == (s, []);
    assert EscapePhase(s, ev) == s;
    assert ArrowPhase(s, ev) == s;
    assert KeyDownStep(cfg, s, ev) == (s, [] + EnterPhase(s, ev));
    if p.Some? && p.value != [] {
      DecodeEscapeHtml(p.value);
      assert DecodeEntities(RenderItem(rs[0]).href) == p.value;
      assert EnterPhase(s, ev) == [Navigate(p.value)];
      assert rs[0].item.permalink.GetOr([]) == p.value;
      assert [] + [Navigate(p.value)] == [Navigate(p.value)];
    } else {
      assert RenderItem(rs[0]).href == [];
      assert DecodeEntities([]) == [];
      assert p.GetOr([]) == [];
      assert EnterPhase(s, ev) == [Navigate([])];
      assert [] + [Navigate([])] == [Navigate([])];
    }
  }

  /** What a search leaves behind: `resultsAvailable` holds exactly when a
      non-empty list is shown; otherwise the gate's message (or nothing) is. */
  lemma SearchStepShows(cfg: WidgetConfig, s: State, raw: string)
    ensures var t := SearchStep(cfg, s, raw);
      var o := SearchSpec(s.index, raw, cfg.search);
      && (t.resultsAvailable <==> t.display.Links? && t.display.items != [])
      && (o == Cleared ==> t.display == Blank)
      && (o == KeepTyping ==> t.display == Message(KeepTypingMessage))
      && (o == NoResults ==> t.display == Message(NoResultsMessage))
      && (o.Found? ==> t.display == Links(RenderAll(o.results)))
      && t.input == s.input && t.visible == s.visible && t.index == s.index
  {
    SearchGates(s.index, raw, cfg.search);
  }

  /** A failed load leaves no index and `firstRun` false, and shows the error;
      the next keystroke in the input shows "Loading..." (there is no separate
      failure state). */
  lemma FailedLoadShowsLoading(cfg: WidgetConfig, s: State, value: string)
    requires Inv(s) && s.fetchPending
    ensures var t := LoadStep(cfg, s, Failed);
      && t.display == Message(LoadErrorMessage) && t.index.None? && !t.firstRun && !t.fetchPending
      && InputStep(cfg, t, value).display == Message(LoadingMessage)
      && InputStep(cfg, t, value).index.None?
  {
  }

  /** The failed state is never left: with no index, the first run over and no
      fetch pending, no event loads an index, restarts the first run or issues
      a fetch. */
  lemma FailedStepStaysFailed(cfg: WidgetConfig, s: State, e: Event)
    requires s.index.None? && !s.firstRun && !s.fetchPending
    ensures var (t, cs) := Step(cfg, s, e);
      t.index.None? && !t.firstRun && !t.fetchPending && FetchCount(cs) == 0
  {
    StepFetches(cfg, s, e);
  }

  lemma {:induction false} FailedStaysFailed(cfg: WidgetConfig, s: State, es: seq<Event>)
    requires s.index.None? && !s.firstRun && !s.fetchPending
    ensures var (t, cs) := Run(cfg, s, es);
      t.index.None? && !t.firstRun && !t.fetchPending && FetchCount(cs) == 0
    decreases |es|
  {
    if es != [] {
      var (s1, c1) := Step(cfg, s, es[0]);
      FailedStepStaysFailed(cfg, s, es[0]);
      FailedStaysFailed(cfg, s1, es[1..]);
      FetchCountAppend(c1, Run(cfg, s1, es[1..]).1);
    }
  }

  /** After a failed load, whatever happens in between, every later keystroke
      in the input shows "Loading..." and no fetch is issued again. */
  lemma LoadingAfterFailure(cfg: WidgetConfig, s: State, es: seq<Event>, value: string)
    requires Inv(s) && s.fetchPending
    ensures var (t, cs) := Run(cfg, LoadStep(cfg, s, Failed), es);
      && InputStep(cfg, t, value).display == Message(LoadingMessage)
      && FetchCount(cs) == 0
  {
    FailedStaysFailed(cfg, LoadStep(cfg, s, Failed), es);
  }

  /** A successful load re-runs the search on the text typed meanwhile. */
  lemma LoadedSearchesPendingText(cfg: WidgetConfig, s: State, data: seq<Record>)
    requires s.fetchPending && s.input != []
    ensures var t := LoadStep(cfg, s, Loaded(data));
      && t.index == Some(NormalizeIndex(data))
      && t == SearchStep(cfg, s.(index := t.index, fetchPending := false), s.input)
  {
    var s1 := s.(index := Some(NormalizeIndex(data)), fetchPending := false);
    ShowFrame(s1, SearchSpec(s1.index, s1.input, cfg.search));
  }

  /** Typing "Hello " over the two-record index of `Ranker.HelloScenario` lists
      both records, best first, and Enter then opens "/hw". */
  lemma TypeHelloThenEnter(cfg: WidgetConfig, s: State, ev: KeyEvent)
    requires cfg.search == Defaults.search
    requires s.index == Some(NormalizeIndex([HelloWorld, Goodbye])) && s.visible
    requires ev.key == "Enter" && !MatchesShortcut(ev, cfg.open)
    ensures var t := InputStep(cfg, s, "Hello ");
      && t.display == Links(RenderAll(s.index.value))
      && t.resultsAvailable
      && KeyDownStep(cfg, t, ev).1 == [Navigate("/hw")]
  {
    var index := s.index.value;
    HelloScenario();
    var s1 := s.(input := "Hello ");
    EnterFollowsTopResult(cfg, Show(s1, Found(index)), ev, index);
    assert index[0].item.permalink == Some("/hw");
  }
}
