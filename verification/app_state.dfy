/**
 * The list browser's state and the events that change it: typing in the
 * search box, the debounce timer firing, search and page responses
 * arriving, page buttons, the page-size select. The address bar is a map
 * from parameter name to value, kept in step with the page and the query.
 */
module AppState {
  import opened Wrappers
  import opened JsValues
  import opened Paging
  import opened PageBar
  import opened Search

  /** Address-bar parameter holding the page number. */
  const PageKey := "page"
  /** Address-bar parameter holding the last query searched for. */
  const QueryKey := "q"

  datatype State = State(
    posts: seq<Post>,             // the page last fetched
    filterPosts: seq<Post>,       // the results of the last search answered
    page: JsNumber,
    limit: PageSize,
    totalPage: nat,
    loading: bool,
    searchInput: string,
    pending: Option<string>,      // the one debounce timer, holding the query it will search for
    searches: seq<string>,        // search requests sent and not yet answered, oldest first
    url: map<string, string>)

  datatype Event =
    | Input(raw: string)                        // the search box changed
    | TimerFire                                 // the debounce timer ran out
    | SearchOk(items: seq<Post>)                // the oldest search request answered
    | SearchFailed                              // the oldest search request failed
    | RequestPage(request: JsNumber)            // a numbered page button
    | PrevClicked
    | NextClicked
    | LimitChosen(size: PageSize)               // the records-per-page select
    | PageLoaded(items: seq<Post>, total: nat)  // the page request answered
    | PageFailed                                // the page request failed

  /** The page the view opens on: the address bar's `page`, or 1 when it is missing or empty. */
  function InitialPage(url: map<string, string>): (page: JsNumber)
    ensures PageKey !in url ==> page == Int(1)
    ensures PageKey in url && url[PageKey] == "" ==> page == Int(1)
  {
    if PageKey in url && url[PageKey] != "" then ParseNumber(url[PageKey]) else Int(1)
  }

  /** The initial `searchInput`: the address bar's `q`, or empty. The input element itself starts empty. */
  function InitialQuery(url: map<string, string>): (q: string)
    ensures QueryKey in url ==> q == url[QueryKey]
    ensures QueryKey !in url ==> q == ""
  {
    if QueryKey in url then url[QueryKey] else ""
  }

  /**
   * What every state the model can reach satisfies (see "Left out" in the
   * README for a search response that rewrites an older page): the address bar spells
   * the current page, any `q` in it is a query that qualifies, every
   * scheduled or sent search is for a qualifying query, and a scheduled
   * search is for `searchInput` whenever that text qualifies.
   */
  predicate Inv(s: State) {
    && PageKey in s.url && s.url[PageKey] == NumberToString(s.page)
    && (QueryKey in s.url ==> IsSearch(s.url[QueryKey]))
    && (s.pending.Some? ==> IsSearch(s.pending.value))
    && (forall i :: 0 <= i < |s.searches| ==> IsSearch(s.searches[i]))
    && (s.pending.Some? && IsSearch(s.searchInput) ==> s.pending.value == s.searchInput)
  }

  /**
   * The state after the first render and its effects: the page fetch is
   * under way, the page is written back to the address bar, and the
   * initial query is either scheduled for a search or removed from the
   * address bar. Other parameters are left alone.
   */
  function Init(url: map<string, string>): (s: State)
    ensures Inv(s)
    ensures s.loading && s.searches == [] && s.limit == DefaultSize
    ensures s.pending.Some? <==> IsSearch(InitialQuery(url))
    ensures QueryKey in s.url <==> QueryKey in url && IsSearch(url[QueryKey])
    ensures forall k :: k in url && k != PageKey && k != QueryKey ==> k in s.url && s.url[k] == url[k]
    ensures s.url.Keys <= url.Keys + {PageKey}
  {
    var page := InitialPage(url);
    var input := InitialQuery(url);
    var written := url[PageKey := NumberToString(page)];
    KeysDistinct();
    State([], [], page, DefaultSize, 1, true, input,
          if IsSearch(input) then Some(input) else None, [],
          if IsSearch(input) then written else written - {QueryKey})
  }

  /**
   * The search box changed to `text` (already trimmed). Typing the same
   * text again changes no state, so nothing re-runs. A qualifying text
   * replaces the pending timer with one for itself; a short text removes
   * `q` from the address bar and leaves any pending timer running.
   */
  function SearchInputChanged(s: State, text: string): State {
    if text == s.searchInput then s
    else if IsSearch(text) then s.(searchInput := text, pending := Some(text))
    else s.(searchInput := text, url := s.url - {QueryKey})
  }

  /**
   * A page request through `handlePage`: an accepted request for another
   * page commits it, writes it to the address bar and starts its fetch.
   */
  function GoToPage(s: State, request: JsNumber): State {
    var next := HandlePage(s.page, s.totalPage, request);
    if next == s.page then s
    else s.(page := next, url := s.url[PageKey := NumberToString(next)], loading := true)
  }

  /** One event applied to the state, as the component and its effects handle it. */
  function Step(s: State, e: Event): State {
    match e
    case Input(raw) => SearchInputChanged(s, Trim(raw))
    case TimerFire =>
      (match s.pending
       case None => s
       case Some(q) => s.(pending := None, searches := s.searches + [q]))
    case SearchOk(items) =>
      if s.searches == [] then s
      else s.(searches := s.searches[1..], filterPosts := items, url := s.url[QueryKey := s.searches[0]])
    case SearchFailed =>
      if s.searches == [] then s else s.(searches := s.searches[1..])
    case RequestPage(request) => GoToPage(s, request)
    case PrevClicked => if s.page == Int(1) then s else GoToPage(s, Add(s.page, -1))
    case NextClicked => if s.page == Int(s.totalPage) then s else GoToPage(s, Add(s.page, 1))
    case LimitChosen(size) => if size == s.limit then s else s.(limit := size, loading := true)
    case PageLoaded(items, total) =>
      PageSizePositive(s.limit);
      s.(posts := items, totalPage := TotalPages(total, s.limit.Value()), loading := false)
    case PageFailed => s.(loading := false)
  }

  /** A sequence of events applied in order. */
  function Run(s: State, events: seq<Event>): State
    decreases |events|
  {
    if events == [] then s else Run(Step(s, events[0]), events[1..])
  }

  /** The list on screen. */
  function Displayed(s: State): seq<Post> {
    HandleSearch(s.searchInput, s.posts, s.filterPosts)
  }

  lemma KeysDistinct()
    ensures PageKey != QueryKey
  {
  }

  lemma SearchInputChangedPreservesInv(s: State, text: string)
    requires Inv(s)
    ensures Inv(SearchInputChanged(s, text))
  {
    KeysDistinct();
  }

  lemma GoToPagePreservesInv(s: State, request: JsNumber)
    requires Inv(s)
    ensures Inv(GoToPage(s, request))
  {
    KeysDistinct();
  }

  lemma StepPreservesInv(s: State, e: Event)
    requires Inv(s)
    ensures Inv(Step(s, e))
  {
    KeysDistinct();
    match e
    case Input(raw) =>
      SearchInputChangedPreservesInv(s, Trim(raw));
    case SearchOk(items) =>
      if s.searches != [] {
        var s' := Step(s, e);
        assert IsSearch(s.searches[0]);
        assert forall i :: 0 <= i < |s'.searches| ==> s'.searches[i] == s.searches[i + 1];
      }
    case SearchFailed =>
      if s.searches != [] {
        var s' := Step(s, e);
        assert forall i :: 0 <= i < |s'.searches| ==> s'.searches[i] == s.searches[i + 1];
      }
    case TimerFire =>
      if s.pending.Some? {
        var s' := Step(s, e);
        assert forall i :: 0 <= i < |s'.searches| ==> s'.searches[i] == (s.searches + [s.pending.value])[i];
      }
    case RequestPage(request) =>
      GoToPagePreservesInv(s, request);
    case PrevClicked =>
      GoToPagePreservesInv(s, Add(s.page, -1));
    case NextClicked =>
      GoToPagePreservesInv(s, Add(s.page, 1));
    case _ =>
  }

  /** Every state reached from the first render satisfies the invariant. */
  lemma {:induction false} RunPreservesInv(s: State, events: seq<Event>)
    requires Inv(s)
    ensures Inv(Run(s, events))
    decreases |events|
  {
    if events != [] {
      StepPreservesInv(s, events[0]);
      RunPreservesInv(Step(s, events[0]), events[1..]);
    }
  }

  /**
   * Last write wins: in any reachable state there is at most one timer,
   * and when it exists while `searchInput` is a qualifying query, it is for
   * exactly that query; a `q` in the address bar always qualifies.
   */
  lemma PendingSearchIsLatestQuery(s: State, events: seq<Event>)
    requires Inv(s)
    ensures var t := Run(s, events);
            t.pending.Some? && IsSearch(t.searchInput) ==> t.pending.value == t.searchInput
    ensures var t := Run(s, events);
            QueryKey in t.url ==> IsSearch(t.url[QueryKey])
  {
    RunPreservesInv(s, events);
  }

  /** A new qualifying text cancels the pending timer and schedules one for itself; nothing else moves. */
  lemma QualifyingInputReplacesTimer(s: State, raw: string)
    requires IsSearch(Trim(raw)) && Trim(raw) != s.searchInput
    ensures Step(s, Input(raw)).pending == Some(Trim(raw))
    ensures Step(s, Input(raw)).url == s.url
    ensures Step(s, Input(raw)).searches == s.searches
    ensures Step(s, Input(raw)).filterPosts == s.filterPosts
  {
  }

  /** A short text removes `q` from the address bar but does not cancel a pending timer. */
  lemma ShortInputKeepsTimer(s: State, raw: string)
    requires !IsSearch(Trim(raw)) && Trim(raw) != s.searchInput
    ensures QueryKey !in Step(s, Input(raw)).url
    ensures Step(s, Input(raw)).url == s.url - {QueryKey}
    ensures Step(s, Input(raw)).pending == s.pending
    ensures Step(s, Input(raw)).searches == s.searches
  {
  }

  lemma RunStep(s: State, events: seq<Event>)
    requires events != []
    ensures Run(s, events) == Run(Step(s, events[0]), events[1..])
  {
  }

  /** Typing two qualifying texts inside the debounce window sends one search, for the second text. */
  lemma DebounceSendsLastQuery(s: State, first: string, second: string)
    requires IsSearch(Trim(first)) && IsSearch(Trim(second))
    requires Trim(first) != s.searchInput && Trim(second) != Trim(first)
    ensures Run(s, [Input(first), Input(second), TimerFire, TimerFire]).searches == s.searches + [Trim(second)]
    ensures Run(s, [Input(first), Input(second), TimerFire, TimerFire]).pending == None
  {
    var a, b := Trim(first), Trim(second);
    var s1 := SearchInputChanged(s, a);
    assert s1 == Step(s, Input(first));
    assert s1.searchInput == a && s1.searches == s.searches;
    var s2 := SearchInputChanged(s1, b);
    assert s2 == Step(s1, Input(second));
    assert s2.pending == Some(b) && s2.searches == s.searches;
    var s3 := Step(s2, TimerFire);
    assert s3.pending == None && s3.searches == s.searches + [b];
    var s4 := Step(s3, TimerFire);
    assert s4 == s3;
    var es := [Input(first), Input(second), TimerFire, TimerFire];
    RunStep(s, es);
    RunStep(s1, es[1..]);
    RunStep(s2, es[2..]);
    RunStep(s3, es[3..]);
    assert es[1..][1..] == es[2..] && es[2..][1..] == es[3..] && es[3..][1..] == [];
  }

  /** Events that cannot start a search: short texts and timer ticks. */
  predicate QuietEvent(e: Event) {
    (e.Input? && !IsSearch(Trim(e.raw))) || e.TimerFire?
  }

  /** With no timer pending, short texts never send a search, however long one waits. */
  lemma {:induction false} ShortInputsNeverSearch(s: State, events: seq<Event>)
    requires s.pending.None?
    requires forall i :: 0 <= i < |events| ==> QuietEvent(events[i])
    ensures Run(s, events).searches == s.searches
    ensures Run(s, events).pending.None?
    ensures Run(s, events).filterPosts == s.filterPosts
    decreases |events|
  {
    if events != [] {
      assert QuietEvent(events[0]);
      ShortInputsNeverSearch(Step(s, events[0]), events[1..]);
    }
  }

  /** `q` enters or changes in the address bar only when a search response arrives. */
  lemma QueryWrittenOnlyOnSearchOk(s: State, e: Event)
    requires !e.SearchOk?
    ensures QueryKey in Step(s, e).url ==> QueryKey in s.url && Step(s, e).url[QueryKey] == s.url[QueryKey]
  {
    KeysDistinct();
    match e
    case Input(raw) =>
      var t := Trim(raw);
      assert Step(s, e) == SearchInputChanged(s, t);
    case RequestPage(request) =>
    case PrevClicked =>
    case NextClicked =>
    case _ =>
  }

  /** A search response shows its results and records the query it answered in the address bar. */
  lemma SearchOkWritesQuery(s: State, items: seq<Post>)
    requires Inv(s) && s.searches != []
    ensures Step(s, SearchOk(items)).filterPosts == items
    ensures Step(s, SearchOk(items)).url[QueryKey] == s.searches[0]
    ensures Step(s, SearchOk(items)).url[PageKey] == s.url[PageKey]
    ensures Step(s, SearchOk(items)).searches == s.searches[1..]
  {
  }

  /**
   * The page changes only through the page controls, only to a page in
   * range, and every change is written to the address bar and starts a
   * fetch.
   */
  lemma PageWrittenOnEveryChange(s: State, e: Event)
    requires Inv(s)
    ensures Step(s, e).page != s.page ==>
              && (e.RequestPage? || e.PrevClicked? || e.NextClicked?)
              && Step(s, e).page.Int? && 1 <= Step(s, e).page.value <= s.totalPage
              && Step(s, e).url[PageKey] == NumberToString(Step(s, e).page)
              && Step(s, e).loading
  {
  }

  /** A page request that is NaN, below 1 or past the last page changes nothing at all. */
  lemma InvalidPageRequestIsNoOp(s: State, request: JsNumber)
    requires request.NaN? || request.value < 1 || request.value > s.totalPage
    ensures Step(s, RequestPage(request)) == s
  {
  }

  /** An accepted page request lands on exactly the requested page. */
  lemma AcceptedPageRequest(s: State, n: int)
    requires 1 <= n <= s.totalPage
    ensures Step(s, RequestPage(Int(n))).page == Int(n)
    ensures Inv(s) ==> Step(s, RequestPage(Int(n))).url[PageKey] == DecimalString(n)
  {
  }

  /** The disabled attributes of Prev and Next never change what a click does. */
  lemma DisabledButtonsAreRedundant(s: State)
    ensures Step(s, PrevClicked) == Step(s, RequestPage(Add(s.page, -1)))
    ensures Step(s, NextClicked) == Step(s, RequestPage(Add(s.page, 1)))
  {
  }

  /** Every page button the bar offers takes the view to that page. */
  lemma BarButtonsNavigate(s: State, i: int)
    requires Num(i) in RenderPageNumbers(s.page, s.totalPage)
    ensures Step(s, RequestPage(Int(i))).page == Int(i)
  {
    BarButtonAccepted(s.page, s.totalPage, i);
  }

  /** Choosing a page size keeps the page number, even when it no longer exists at the new size. */
  lemma LimitChangeKeepsPage(s: State, size: PageSize)
    ensures Step(s, LimitChosen(size)).page == s.page
    ensures Step(s, LimitChosen(size)).totalPage == s.totalPage
    ensures Step(s, LimitChosen(size)).url == s.url
    ensures Step(s, LimitChosen(size)).limit == size
    ensures size != s.limit ==> Step(s, LimitChosen(size)).loading
  {
  }

  /** A page response replaces the list wholesale and sets the page count to what holds the collection. */
  lemma PageLoadedSetsCount(s: State, items: seq<Post>, total: nat)
    ensures Step(s, PageLoaded(items, total)).posts == items
    ensures !Step(s, PageLoaded(items, total)).loading
    ensures total == 0 ==> Step(s, PageLoaded(items, total)).totalPage == 0
    ensures total > 0 ==>
              var n := Step(s, PageLoaded(items, total)).totalPage;
              (n - 1) * s.limit.Value() < total <= n * s.limit.Value()
  {
    PageSizePositive(s.limit);
  }

  /**
   * On page ten of 250 records, switching to 200 per page keeps the page
   * at 10 while the collection now has two pages, so the next fetch skips
   * past every record.
   */
  lemma LimitChangeStrandsPage(s0: State)
    requires s0.page == Int(10) && s0.limit != Size200
    ensures var s := Run(s0, [LimitChosen(Size200), PageLoaded([], 250)]);
            s.page == Int(10) && s.totalPage == 2 && Skip(10, s.limit.Value()) >= 250
  {
    var s1 := Step(s0, LimitChosen(Size200));
    assert s1.page == Int(10) && s1.limit == Size200;
    var s2 := Step(s1, PageLoaded([], 250));
    assert s2.page == Int(10) && s2.limit == Size200 && s2.totalPage == 2;
    var es := [LimitChosen(Size200), PageLoaded([], 250)];
    assert Run(s0, es) == Run(s1, es[1..]);
    assert Run(s1, es[1..]) == Run(s2, []);
  }

  /** The view opens on page 1 with an empty `searchInput` when the address bar says nothing. */
  lemma InitialDefaults()
    ensures Init(map[]).page == Int(1)
    ensures Init(map[]).searchInput == ""
    ensures Init(map[]).pending == None
    ensures Init(map[]).url == map[PageKey := "1"]
  {
    assert NumberToString(Int(1)) == "1";
    SampleQueries();
    KeysDistinct();
    var m: map<string, string> := map[];
    assert m[PageKey := "1"] - {QueryKey} == map[PageKey := "1"];
  }

  lemma PageThreeRoundTrip()
    ensures ParseNumber("3") == Int(3)
    ensures NumberToString(Int(3)) == "3"
  {
    var three := "3";
    assert AllDigits(three);
    ParseDigits(three);
    assert three[..0] == [];
    assert DecimalValue(three) == 3;
  }

  /**
   * `?page=3&q=cats` opens on page 3 with "cats" scheduled for a search;
   * an input event with empty text then removes `q` and keeps the page.
   */
  lemma DeepLinkScenario()
    ensures Init(map[PageKey := "3", QueryKey := "cats"]).page == Int(3)
    ensures Init(map[PageKey := "3", QueryKey := "cats"]).pending == Some("cats")
    ensures QueryKey !in Step(Init(map[PageKey := "3", QueryKey := "cats"]), Input("")).url
    ensures Step(Init(map[PageKey := "3", QueryKey := "cats"]), Input("")).url[PageKey] == "3"
  {
    KeysDistinct();
    PageThreeRoundTrip();
    SampleQueries();
    var url := map[PageKey := "3", QueryKey := "cats"];
    assert InitialPage(url) == Int(3);
    assert InitialQuery(url) == "cats";
    var s := Init(url);
    assert s.url[PageKey] == "3";
    var t := SearchInputChanged(s, "");
    assert Step(s, Input("")) == t;
    assert t.url == s.url - {QueryKey};
  }

  /** Next followed by Prev returns to the page it started from whenever Next moved. */
  lemma NextThenPrevReturns(s: State)
    requires s.page.Int? && 1 <= s.page.value
    requires Step(s, NextClicked).page != s.page
    ensures Step(Step(s, NextClicked), PrevClicked).page == s.page
  {
  }

  /** Prev followed by Next returns to the page it started from whenever Prev moved. */
  lemma PrevThenNextReturns(s: State)
    requires s.page.Int? && s.page.value <= s.totalPage
    requires Step(s, PrevClicked).page != s.page
    ensures Step(Step(s, PrevClicked), NextClicked).page == s.page
  {
  }

  /**
   * After a keystroke whose trimmed text does not qualify, such as "ab   ",
   * the fetched page is on screen.
   */
  lemma ShortInputShowsPage(s: State, raw: string)
    requires !IsSearch(Trim(raw))
    ensures Displayed(Step(s, Input(raw))) == s.posts
  {
    TrimIdempotent(raw);
  }

  /** After a keystroke of a qualifying text, the search results are on screen. */
  lemma SearchInputShowsResults(s: State, raw: string)
    requires IsSearch(Trim(raw))
    ensures Displayed(Step(s, Input(raw))) == s.filterPosts
  {
  }

  /** Reloading the address bar of any reachable state opens the same page. */
  lemma ReloadKeepsPage(t: State)
    requires Inv(t)
    ensures InitialPage(t.url) == t.page
    ensures Init(t.url).page == t.page
  {
    NumberToStringNonEmpty(t.page);
    ParseNumberToString(t.page);
  }

  /**
   * Reloading the address bar of any reachable state schedules a search
   * exactly when it holds a query, and sets `searchInput` to that query.
   */
  lemma ReloadSchedulesQuery(t: State)
    requires Inv(t)
    ensures Init(t.url).pending.Some? <==> QueryKey in t.url
    ensures QueryKey in t.url ==> Init(t.url).searchInput == t.url[QueryKey]
  {
    SampleQueries();
  }

  /**
   * With the corrected visibility rule, in every state whose fetched page
   * and search results differ, the page controls are shown exactly when the
   * fetched page is on screen.
   */
  lemma PaginationFixedFollowsScreen(s: State)
    ensures PaginationVisibleFixed(s.searchInput) ==> Displayed(s) == s.posts
    ensures s.posts != s.filterPosts ==>
              (PaginationVisibleFixed(s.searchInput) <==> Displayed(s) == s.posts)
  {
    PaginationFollowsDisplayedList(s.searchInput, s.posts, s.filterPosts);
  }

  /** The "no results" banner is never shown in any state. */
  lemma NoResultsBannerNeverShown(s: State)
    ensures !NoResultsBanner(s.loading, Displayed(s))
  {
  }

  /*
   * Corrected debounce: a short text also cancels the pending timer, so a
   * search is only ever sent for `searchInput` as it stands when the timer
   * runs out.
   */

  /** The search box changed, with the short-text branch also clearing the timer. */
  function SearchInputChangedFixed(s: State, text: string): State {
    if text == s.searchInput then s
    else if IsSearch(text) then s.(searchInput := text, pending := Some(text))
    else s.(searchInput := text, pending := None, url := s.url - {QueryKey})
  }

  /** One event under the corrected debounce; every other event is handled as before. */
  function StepFixed(s: State, e: Event): State {
    match e
    case Input(raw) => SearchInputChangedFixed(s, Trim(raw))
    case _ => Step(s, e)
  }

  /**
   * The corrected machine differs from the code as written on one kind of
   * event only: a short text arriving while a timer is pending, where it
   * also cancels the timer.
   */
  lemma StepFixedDiffersOnlyOnShortInput(s: State, e: Event)
    ensures e.Input? && !IsSearch(Trim(e.raw)) && Trim(e.raw) != s.searchInput ==>
              StepFixed(s, e) == Step(s, e).(pending := None)
    ensures !(e.Input? && !IsSearch(Trim(e.raw)) && Trim(e.raw) != s.searchInput) ==>
              StepFixed(s, e) == Step(s, e)
  {
    match e
    case Input(raw) =>
    case _ =>
  }

  function RunFixed(s: State, events: seq<Event>): State
    decreases |events|
  {
    if events == [] then s else RunFixed(StepFixed(s, events[0]), events[1..])
  }

  /** The corrected invariant: a pending timer is always for `searchInput`. */
  predicate FixedInv(s: State) {
    Inv(s) && (s.pending.Some? ==> s.pending.value == s.searchInput)
  }

  /** The first render already satisfies the corrected invariant. */
  lemma InitFixedInv(url: map<string, string>)
    ensures FixedInv(Init(url))
  {
  }

  lemma StepFixedPreservesInv(s: State, e: Event)
    requires FixedInv(s)
    ensures FixedInv(StepFixed(s, e))
  {
    KeysDistinct();
    match e
    case Input(raw) =>
    case _ =>
      StepPreservesInv(s, e);
      assert StepFixed(s, e) == Step(s, e);
  }

  /** Under the corrected debounce every reachable state keeps its timer on `searchInput`. */
  lemma {:induction false} RunFixedPreservesInv(s: State, events: seq<Event>)
    requires FixedInv(s)
    ensures FixedInv(RunFixed(s, events))
    decreases |events|
  {
    if events != [] {
      StepFixedPreservesInv(s, events[0]);
      RunFixedPreservesInv(StepFixed(s, events[0]), events[1..]);
    }
  }

  /** With the fix, the timer running out sends either nothing or a search for `searchInput` when it qualifies. */
  lemma FixedTimerSearchesCurrentInput(s: State)
    requires FixedInv(s)
    ensures var t := StepFixed(s, TimerFire);
            || t.searches == s.searches
            || (IsSearch(s.searchInput) && t.searches == s.searches + [s.searchInput])
  {
  }

  /**
   * As written: typing "abc" and then deleting a letter inside the debounce
   * window still sends a search for "abc", although the box says "ab".
   */
  lemma StaleSearchAfterShortInput()
    ensures var t := Run(Init(map[]), [Input("abc"), Input("ab"), TimerFire]);
            t.searchInput == "ab" && !IsSearch(t.searchInput) && t.searches == ["abc"]
  {
    var s0 := Init(map[]);
    InitialDefaults();
    SampleQueries();
    var s1 := SearchInputChanged(s0, "abc");
    assert s1 == Step(s0, Input("abc"));
    assert s1.pending == Some("abc") && s1.searches == [];
    var s2 := SearchInputChanged(s1, "ab");
    assert s2 == Step(s1, Input("ab"));
    assert s2.pending == Some("abc") && s2.searchInput == "ab";
    var s3 := Step(s2, TimerFire);
    assert s3.searches == ["abc"];
    var es := [Input("abc"), Input("ab"), TimerFire];
    RunStep(s0, es);
    RunStep(s1, es[1..]);
    RunStep(s2, es[2..]);
    assert es[1..][1..] == es[2..] && es[2..][1..] == [];
  }

  /** With the fix, the same keystrokes send no search at all. */
  lemma NoStaleSearchWhenFixed()
    ensures var t := RunFixed(Init(map[]), [Input("abc"), Input("ab"), TimerFire]);
            t.searchInput == "ab" && t.searches == [] && t.pending == None
  {
    var s0 := Init(map[]);
    InitialDefaults();
    SampleQueries();
    var s1 := SearchInputChangedFixed(s0, "abc");
    assert s1 == StepFixed(s0, Input("abc"));
    var s2 := SearchInputChangedFixed(s1, "ab");
    assert s2 == StepFixed(s1, Input("ab"));
    assert s2.pending == None && s2.searches == [];
    var s3 := StepFixed(s2, TimerFire);
    assert s3 == s2;
    var es := [Input("abc"), Input("ab"), TimerFire];
    assert RunFixed(s0, es) == RunFixed(s1, es[1..]);
    assert RunFixed(s1, es[1..]) == RunFixed(s2, es[2..]);
    assert RunFixed(s2, es[2..]) == RunFixed(s3, []);
  }

  /**
   * As written: after a search has answered with one post and the box is
   * cleared, the fetched page is on screen but the page controls stay
   * hidden, because they look at the stale search results.
   */
  lemma PaginationHiddenOverPagedList(p: Post)
    ensures var t := Run(Init(map[]), [Input("abc"), TimerFire, SearchOk([p]), Input("")]);
            && Displayed(t) == t.posts
            && !PaginationVisible(t.filterPosts)
            && PaginationVisibleFixed(t.searchInput)
  {
    var s0 := Init(map[]);
    InitialDefaults();
    SampleQueries();
    var s1 := SearchInputChanged(s0, "abc");
    assert s1 == Step(s0, Input("abc"));
    assert s1.pending == Some("abc");
    var s2 := Step(s1, TimerFire);
    assert s2.searches == ["abc"];
    var s3 := Step(s2, SearchOk([p]));
    assert s3.filterPosts == [p] && s3.searchInput == "abc";
    var s4 := SearchInputChanged(s3, "");
    assert s4 == Step(s3, Input(""));
    assert s4.searchInput == "" && s4.filterPosts == [p];
    var es := [Input("abc"), TimerFire, SearchOk([p]), Input("")];
    RunStep(s0, es);
    RunStep(s1, es[1..]);
    RunStep(s2, es[2..]);
    RunStep(s3, es[3..]);
    assert es[1..][1..] == es[2..] && es[2..][1..] == es[3..] && es[3..][1..] == [];
  }
}
