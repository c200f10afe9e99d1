/** The widget as the object `initSearch` builds: its closure variables and the
    parts of the page it drives are fields, and each event listener is a method
    that updates them in place. Every method is proved to perform the matching
    transition of `WidgetSpec`, and to keep its invariant. */
module Widget {
  import opened Wrappers
  import opened Escape
  import opened Config
  import opened SearchIndex
  import opened Ranker
  import opened WidgetSpec

  class FastSearch {
    const config: WidgetConfig
    var searchIndex: Option<seq<Entry>>
    var searchVisible: bool
    var resultsAvailable: bool
    var firstRun: bool
    /** `searchInput.value` */
    var inputValue: string
    /** `searchResults.innerHTML` */
    var display: Display
    /** `document.activeElement` */
    var focus: Focus
    var fetchPending: bool

    function Snapshot(): State
      reads this
    {
      State(searchIndex, searchVisible, resultsAvailable, firstRun, inputValue, display, focus, fetchPending)
    }

    ghost predicate Valid()
      reads this
    {
      Inv(Snapshot())
    }

    /** `initSearch(userConfig)`, with the configuration already merged. */
    constructor (config: WidgetConfig, focus: Focus)
      ensures Valid() && Snapshot() == Initial(focus) && this.config == config
    {
      this.config := config;
      searchIndex := None;
      searchVisible := false;
      resultsAvailable := false;
      firstRun := true;
      inputValue := [];
      display := Blank;
      this.focus := if focus.ResultLink? then Elsewhere else focus;
      fetchPending := false;
    }

    /** Replacing the result list's HTML. */
    method SetResults(d: Display)
      modifies this
      ensures Snapshot() == Render(old(Snapshot()), d)
    {
      display := d;
      if focus.ResultLink? {
        focus := Elsewhere;
      }
    }

    /** The keydown listener on `document`; returns the commands it issues. */
    method KeyDown(ev: KeyEvent) returns (commands: seq<Command>)
      requires Valid()
      modifies this
      ensures (Snapshot(), commands) == KeyDownStep(config, old(Snapshot()), ev)
      ensures Valid()
    {
      KeyDownInv(config, Snapshot(), ev);
      commands := ToggleOnShortcut(ev);
      ghost var c1 := commands;
      CloseOnEscape(ev);
      ghost var s2 := Snapshot();
      var links := LinksOf(display);
      if ev.key == "Enter" && searchVisible && links != [] {
        commands := commands + [Navigate(DecodeEntities(links[0].href))];
      } else {
        assert commands == c1 + [];
      }
      assert commands == c1 + EnterPhase(s2, ev);
      NavigateOnArrow(ev);
    }

    /** The chord block of the keydown listener. */
    method ToggleOnShortcut(ev: KeyEvent) returns (commands: seq<Command>)
      modifies this
      ensures (Snapshot(), commands) == ChordPhase(config, old(Snapshot()), ev)
    {
      commands := [];
      if MatchesShortcut(ev, config.open) {
        searchVisible := !searchVisible;
        if searchVisible {
          if firstRun {
            firstRun := false;
            fetchPending := true;
            commands := [FetchIndex];
          }
          focus := Input;
          inputValue := [];
        } else {
          if focus == Input {
            focus := Elsewhere;
          }
          SetResults(Blank);
        }
      }
    }

    /** The Escape block of the keydown listener. */
    method CloseOnEscape(ev: KeyEvent)
      modifies this
      ensures Snapshot() == EscapePhase(old(Snapshot()), ev)
    {
      if ev.key == "Escape" && searchVisible {
        if focus == Input {
          focus := Elsewhere;
        }
        inputValue := [];
        SetResults(Blank);
        searchVisible := false;
      }
    }

    /** The arrow-key block of the keydown listener. */
    method NavigateOnArrow(ev: KeyEvent)
      modifies this
      ensures Snapshot() == ArrowPhase(old(Snapshot()), ev)
    {
      var n := |LinksOf(display)|;
      if searchVisible && resultsAvailable && n > 0 {
        if ev.key == "ArrowDown" {
          if focus == Input {
            focus := ResultLink(0);
          } else if focus.ResultLink? && focus.i + 1 < n {
            focus := ResultLink(focus.i + 1);
          }
        } else if ev.key == "ArrowUp" {
          if focus.ResultLink? && 0 < focus.i < n {
            focus := ResultLink(focus.i - 1);
          } else if focus.ResultLink? || focus == OtherLink {
            focus := Input;
          }
        }
      }
    }

    /** `performSearch(term)`. */
    method PerformSearch(term: string)
      requires Valid()
      modifies this
      ensures Snapshot() == SearchStep(config, old(Snapshot()), term)
      ensures Valid()
    {
      ShowInv(config, Snapshot(), term);
      var outcome := Search(searchIndex, term, config.search);
      ShowOutcome(outcome);
    }

    /** The rendering half of `performSearch`. */
    method ShowOutcome(outcome: SearchOutcome)
      modifies this
      ensures Snapshot() == Show(old(Snapshot()), outcome)
    {
      match outcome
      case Cleared =>
        SetResults(Blank);
        resultsAvailable := false;
      case KeepTyping =>
        SetResults(Message(KeepTypingMessage));
        resultsAvailable := false;
      case NoResults =>
        SetResults(Message(NoResultsMessage));
        resultsAvailable := false;
      case Found(rs) =>
        var items := RenderAll(rs);
        SetResults(Links(items));
        resultsAvailable := true;
    }

    /** The input listener on the search box, given the box's new text. */
    method InputChanged(value: string)
      requires Valid()
      modifies this
      ensures Snapshot() == InputStep(config, old(Snapshot()), value)
      ensures Valid()
    {
      inputValue := value;
      if searchIndex.None? && !firstRun {
        SetResults(Message(LoadingMessage));
        return;
      }
      PerformSearch(value);
    }

    /** The continuation of the fetch started by `loadSearchIndex`. */
    method LoadFinished(outcome: LoadOutcome)
      requires Valid() && fetchPending
      modifies this
      ensures Snapshot() == LoadStep(config, old(Snapshot()), outcome)
      ensures Valid()
    {
      fetchPending := false;
      match outcome
      case Loaded(data) =>
        searchIndex := Some(NormalizeIndex(data));
        if inputValue != [] {
          PerformSearch(inputValue);
        }
      case Failed =>
        SetResults(Message(LoadErrorMessage));
    }

    /** The user moves the focus to an element the page holds. */
    method FocusMoved(target: Focus)
      requires Valid() && CanFocus(Snapshot(), target)
      modifies this
      ensures Snapshot() == FocusStep(old(Snapshot()), target)
      ensures Valid()
    {
      focus := target;
    }
  }
}
