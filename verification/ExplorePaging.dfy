// Infinite scrolling on the mobile search screen (mobile/src/screens/ExploreScreen.js):
// load starts a search, loadMore appends the next page when the list's end is reached.
// State is committed between events, so every event sees the current list and flags.
module ExplorePaging {
  import opened Text
  import opened Sequences
  import opened Pagination

  const PAGE_SIZE := 12

  type Query = string
  type Item = string

  // The full result list of every query; it does not change.
  type Catalogue = Query -> seq<Item>

  datatype Fetch = First(query: Query) | More(query: Query, offset: nat)

  // `current` is paramsRef. `shown` records which search the list and the total come
  // from; the program does not keep it.
  datatype State = State(
    items: seq<Item>, total: nat, loading: bool, loadingMore: bool, current: Query,
    inFlight: map<nat, Fetch>, next: nat, shown: Option<Query>)

  datatype Event = Search(query: Query) | EndReached | Respond(call: nat) | Reject(call: nat)

  // ---------- The transition function ----------

  function Fetched(cat: Catalogue, f: Fetch): PageResult<Item> {
    Paginate(cat(f.query), Page(PAGE_SIZE, if f.First? then 0 else f.offset))
  }

  function Send(s: State, f: Fetch): State { s.(inFlight := s.inFlight[s.next := f], next := s.next + 1) }

  predicate Blocked(s: State) { s.loading || s.loadingMore || |s.items| >= s.total }

  function Step(cat: Catalogue, s: State, e: Event): State {
    match e
    case Search(query) => Send(s.(loading := true, current := query), First(query))
    case EndReached => if Blocked(s) then s else Send(s.(loadingMore := true), More(s.current, |s.items|))
    case Respond(call) =>
      if call !in s.inFlight then s
      else
        var f := s.inFlight[call];
        var page := Fetched(cat, f);
        var s := s.(inFlight := s.inFlight - {call}, total := page.total);
        if f.First? then s.(items := page.items, shown := Some(f.query), loading := false)
        else s.(items := s.items + page.items, loadingMore := false)
    case Reject(call) =>
      if call !in s.inFlight then s
      else
        var f := s.inFlight[call];
        var s := s.(inFlight := s.inFlight - {call});
        if f.First? then s.(loading := false) else s.(loadingMore := false)
  }

  const OPENED := State([], 0, true, false, "", map[], 0, None)

  function RunFrom(cat: Catalogue, s: State, events: seq<Event>): State
    decreases |events|
  {
    if events == [] then s else RunFrom(cat, Step(cat, s, events[0]), events[1..])
  }

  // Only the response of a request in flight changes what is shown: starting a search,
  // asking for a page and a failed request leave the list, its total and its search alone.
  lemma OnlyResponsesChangeTheList(cat: Catalogue, s: State, e: Event)
    requires e.Respond? ==> e.call !in s.inFlight
    ensures var t := Step(cat, s, e); t.items == s.items && t.total == s.total && t.shown == s.shown
  {
  }

  lemma {:induction false} QuietRunKeepsTheList(cat: Catalogue, s: State, events: seq<Event>)
    requires forall i :: 0 <= i < |events| ==> !events[i].Respond?
    ensures var t := RunFrom(cat, s, events); t.items == s.items && t.total == s.total && t.shown == s.shown
    decreases |events|
  {
    hide Step;
    if events != [] {
      OnlyResponsesChangeTheList(cat, s, events[0]);
      QuietRunKeepsTheList(cat, Step(cat, s, events[0]), events[1..]);
    }
  }

  // A failed request also ends the wait it caused, so the screen can go on.
  lemma RejectionEndsWaiting(cat: Catalogue, s: State, call: nat)
    requires call in s.inFlight
    ensures var t := Step(cat, s, Reject(call));
            && t.current == s.current && t.inFlight == s.inFlight - {call}
            && (if s.inFlight[call].First? then !t.loading && t.loadingMore == s.loadingMore
                else !t.loadingMore && t.loading == s.loading)
  {
  }

  // ---------- The screen as a mutable object ----------

  class Screen {
    var items: seq<Item>
    var total: nat
    var loading: bool
    var loadingMore: bool
    var current: Query
    var inFlight: map<nat, Fetch>
    var next: nat
    var shown: Option<Query>

    ghost function Now(): State
      reads this
    {
      State(items, total, loading, loadingMore, current, inFlight, next, shown)
    }

    constructor ()
      ensures Now() == OPENED
    {
      items, total, loading, loadingMore, current := [], 0, true, false, "";
      inFlight, next, shown := map[], 0, None;
    }

    method Load(cat: Catalogue, query: Query)
      modifies this
      ensures Now() == Step(cat, old(Now()), Search(query))
    {
      loading := true;
      current := query;
      inFlight := inFlight[next := First(query)];
      next := next + 1;
    }

    method LoadMore(cat: Catalogue)
      modifies this
      ensures Now() == Step(cat, old(Now()), EndReached)
    {
      if loading || loadingMore || |items| >= total { return; }
      loadingMore := true;
      inFlight := inFlight[next := More(current, |items|)];
      next := next + 1;
    }

    method Settle(cat: Catalogue, call: nat, ok: bool)
      requires call in inFlight
      modifies this
      ensures Now() == Step(cat, old(Now()), if ok then Respond(call) else Reject(call))
    {
      var f := inFlight[call];
      if ok {
        var res := Fetched(cat, f);
        if f.First? {
          items := res.items;
          shown := Some(f.query);
        } else {
          items := items + res.items;
        }
        total := res.total;
      }
      if f.First? { loading := false; } else { loadingMore := false; }
      inFlight := inFlight - {call};
    }
  }

  // ---------- Pages that fit ----------

  // The list is a first part of the results of the search it shows.
  ghost predicate Shows(cat: Catalogue, s: State) {
    match s.shown
    case None => s.items == [] && s.total == 0
    case Some(query) => s.items <= cat(query) && s.total == |cat(query)|
  }

  // A page belongs behind the list if it was fetched for the search the list shows, and
  // from where the list ends or from beyond the results.
  predicate Fits(s: State, f: Fetch) {
    f.More? ==> s.shown == Some(f.query) && (f.offset == |s.items| || f.offset >= s.total)
  }

  predicate PageFits(s: State, e: Event) { e.Respond? && e.call in s.inFlight ==> Fits(s, s.inFlight[e.call]) }

  predicate PagesFit(cat: Catalogue, s: State, events: seq<Event>)
    decreases |events|
  {
    events != [] ==> PageFits(s, events[0]) && PagesFit(cat, Step(cat, s, events[0]), events[1..])
  }

  lemma NextPage(all: seq<Item>, items: seq<Item>)
    requires items <= all
    ensures var page := Paginate(all, Page(PAGE_SIZE, |items|)).items;
            && items + page <= all
            && |items + page| == if |items| + PAGE_SIZE < |all| then |items| + PAGE_SIZE else |all|
  {
    var page := Paginate(all, Page(PAGE_SIZE, |items|)).items;
    var end := |items| + |page|;
    assert all[..end] == all[..|items|] + all[|items|..end];
  }

  // Whatever the list showed before, the response to a search sets it right again.
  lemma FirstResponseShows(cat: Catalogue, s: State, call: nat)
    requires call in s.inFlight && s.inFlight[call].First?
    ensures Shows(cat, Step(cat, s, Respond(call)))
  {
    NextPage(cat(s.inFlight[call].query), []);
    var page := Fetched(cat, s.inFlight[call]).items;
    assert [] + page == page;
  }

  lemma FittingPageShows(cat: Catalogue, s: State, call: nat)
    requires Shows(cat, s) && call in s.inFlight && s.inFlight[call].More? && Fits(s, s.inFlight[call])
    ensures Shows(cat, Step(cat, s, Respond(call)))
  {
    var f := s.inFlight[call];
    if f.offset == |s.items| {
      NextPage(cat(f.query), s.items);
    } else {
      assert s.items + [] == s.items;
    }
  }

  lemma OtherEventsShow(cat: Catalogue, s: State, e: Event)
    requires Shows(cat, s) && (e.Respond? ==> e.call !in s.inFlight)
    ensures Shows(cat, Step(cat, s, e))
  {
  }

  lemma StepShows(cat: Catalogue, s: State, e: Event)
    requires Shows(cat, s) && PageFits(s, e)
    ensures Shows(cat, Step(cat, s, e))
  {
    hide Shows, Step, Fits;
    if e.Respond? && e.call in s.inFlight {
      if s.inFlight[e.call].First? { FirstResponseShows(cat, s, e.call); } else { FittingPageShows(cat, s, e.call); }
    } else {
      OtherEventsShow(cat, s, e);
    }
  }

  // Any run at all, with any number of fetches in flight and settled in any order: while
  // the arriving pages fit, the list is a first part of the results of the search it shows.
  lemma {:induction false} FittingPagesShow(cat: Catalogue, s: State, events: seq<Event>)
    requires Shows(cat, s) && PagesFit(cat, s, events)
    ensures Shows(cat, RunFrom(cat, s, events))
    decreases |events|
  {
    hide Step, Shows, PageFits;
    if events != [] {
      StepShows(cat, s, events[0]);
      FittingPagesShow(cat, Step(cat, s, events[0]), events[1..]);
    }
  }

  // The results of the search `query`, continued behind the list with one item and copies
  // of another; every other search finds `others`.
  function Continued(items: seq<Item>, total: nat, query: Query, x: Item, y: Item, others: seq<Item>): Catalogue
    requires |items| <= total
  {
    (q: Query) =>
      if q != query then others
      else if |items| == total then items
      else items + [x] + seq(total - |items| - 1, i => y)
  }

  // In any state, whatever else is in flight and however it came about: an arriving page
  // keeps the list a first part of the results of the search it shows, for every catalogue
  // that agrees with the list, exactly when the page fits.
  lemma PageIsSafeIff(s: State, call: nat)
    requires call in s.inFlight && s.inFlight[call].More? && s.shown.Some? && |s.items| <= s.total
    ensures (forall cat: Catalogue :: Shows(cat, s) ==> Shows(cat, Step(cat, s, Respond(call))))
       <==> Fits(s, s.inFlight[call])
  {
    var f, query := s.inFlight[call], s.shown.value;
    if Fits(s, f) {
      forall cat: Catalogue | Shows(cat, s) ensures Shows(cat, Step(cat, s, Respond(call))) {
        FittingPageShows(cat, s, call);
      }
    } else {
      var x := if f.offset < |s.items| && s.items[f.offset] == "x" then "y" else "x";
      var cat := Continued(s.items, s.total, query, x, "z", if s.total == 0 then ["x"] else []);
      assert s.items <= cat(query) && Shows(cat, s);
      if query == f.query { MisplacedPage(cat(query), s.items, f.offset); }
      assert !Shows(cat, Step(cat, s, Respond(call)));
    }
  }

  lemma MisplacedPage(all: seq<Item>, items: seq<Item>, offset: nat)
    requires items <= all && offset != |items| && offset < |all|
    requires |items| < |all| ==> all[offset] != all[|items|]
    ensures !(items + Paginate(all, Page(PAGE_SIZE, offset)).items <= all)
  {
    var page := Paginate(all, Page(PAGE_SIZE, offset)).items;
    assert page[0] == all[offset] == (items + page)[|items|];
  }

  // ---------- Orderly runs ----------

  // No search is started while a fetch is in flight, and no page is fetched while the
  // list still shows an earlier search because the last one failed.
  ghost predicate Orderly(s: State, e: Event) {
    && (e.Search? ==> s.inFlight == map[])
    && (e.EndReached? && !Blocked(s) ==> s.shown == Some(s.current))
  }

  ghost predicate OrderlyRun(cat: Catalogue, s: State, events: seq<Event>)
    decreases |events|
  {
    events != [] ==> Orderly(s, events[0]) && OrderlyRun(cat, Step(cat, s, events[0]), events[1..])
  }

  ghost predicate Idle(s: State) { s.inFlight == map[] && !s.loading && !s.loadingMore }

  ghost predicate Searching(s: State) {
    && s.loading && !s.loadingMore && s.inFlight != map[]
    && exists call :: s.inFlight == map[call := First(s.current)] && call < s.next
  }

  ghost predicate Extending(s: State) {
    && !s.loading && s.loadingMore && s.shown == Some(s.current) && |s.items| < s.total
    && s.inFlight != map[]
    && exists call :: s.inFlight == map[call := More(s.current, |s.items|)] && call < s.next
  }

  // Before the first search of a fresh screen nothing is in flight yet.
  ghost predicate Fresh(s: State) { s == OPENED }

  ghost predicate Inv(cat: Catalogue, s: State) {
    Shows(cat, s) && (Fresh(s) || Idle(s) || Searching(s) || Extending(s))
  }

  lemma SearchKeepsInv(cat: Catalogue, s: State, query: Query)
    requires Inv(cat, s) && Orderly(s, Search(query))
    ensures Inv(cat, Step(cat, s, Search(query)))
  {
    var t := Step(cat, s, Search(query));
    assert t.inFlight == map[s.next := First(query)] && s.next in t.inFlight;
  }

  lemma EndReachedKeepsInv(cat: Catalogue, s: State)
    requires Inv(cat, s) && Orderly(s, EndReached)
    ensures Inv(cat, Step(cat, s, EndReached))
  {
    if !Blocked(s) {
      var t := Step(cat, s, EndReached);
      assert t.inFlight == map[s.next := More(s.current, |s.items|)] && s.next in t.inFlight;
    }
  }

  lemma InvFits(cat: Catalogue, s: State, call: nat)
    requires Inv(cat, s) && call in s.inFlight
    ensures Fits(s, s.inFlight[call]) && s.inFlight == map[call := s.inFlight[call]]
  {
  }

  lemma SettleKeepsInv(cat: Catalogue, s: State, call: nat, ok: bool)
    requires Inv(cat, s)
    ensures PageFits(s, Respond(call))
    ensures Inv(cat, Step(cat, s, if ok then Respond(call) else Reject(call)))
  {
    if call in s.inFlight {
      InvFits(cat, s, call);
      assert s.inFlight - {call} == map[];
      StepShows(cat, s, if ok then Respond(call) else Reject(call));
      assert Idle(Step(cat, s, if ok then Respond(call) else Reject(call)));
    }
  }

  // Orderly runs fetch only pages that fit.
  lemma {:induction false} RunKeepsInv(cat: Catalogue, s: State, events: seq<Event>)
    requires Inv(cat, s) && OrderlyRun(cat, s, events)
    ensures PagesFit(cat, s, events) && Inv(cat, RunFrom(cat, s, events))
    decreases |events|
  {
    hide Step, Inv, Orderly, Fits;
    if events != [] {
      match events[0] {
        case Search(query) => SearchKeepsInv(cat, s, query);
        case EndReached => EndReachedKeepsInv(cat, s);
        case Respond(call) => SettleKeepsInv(cat, s, call, true);
        case Reject(call) => SettleKeepsInv(cat, s, call, false);
      }
      RunKeepsInv(cat, Step(cat, s, events[0]), events[1..]);
    }
  }

  // After any orderly run of searches, scrolls, responses and failures, the list is a
  // first part of the results of the search it shows, without repetitions, the total is
  // that search's, and at most one fetch is in flight.
  lemma ListIsAPrefix(cat: Catalogue, events: seq<Event>)
    requires OrderlyRun(cat, OPENED, events)
    requires forall query :: Distinct(cat(query))
    ensures var s := RunFrom(cat, OPENED, events);
            Shows(cat, s) && Distinct(s.items) && |s.inFlight| <= 1
  {
    var s := RunFrom(cat, OPENED, events);
    hide Step, RunFrom, OrderlyRun;
    RunKeepsInv(cat, OPENED, events);
    FittingPagesShow(cat, OPENED, events);
    InvBounds(cat, s);
    ShownAreDistinct(cat, s);
  }

  lemma InvBounds(cat: Catalogue, s: State)
    requires Inv(cat, s)
    ensures |s.inFlight| <= 1
  {
  }

  lemma ShownAreDistinct(cat: Catalogue, s: State)
    requires Shows(cat, s) && forall query :: Distinct(cat(query))
    ensures Distinct(s.items)
  {
  }

  // Every page that arrives for an orderly scroll leaves strictly less to load.
  lemma PagesMakeProgress(cat: Catalogue, s: State, call: nat)
    requires Inv(cat, s) && call in s.inFlight && s.inFlight[call].More?
    ensures var t := Step(cat, s, Respond(call));
            0 <= t.total - |t.items| < s.total - |s.items|
  {
    NextPage(cat(s.current), s.items);
  }

  // n times: the end is reached and the page arrives.
  function Scrolls(n: nat, call: nat): seq<Event> {
    if n == 0 then [] else [EndReached, Respond(call)] + Scrolls(n - 1, call + 1)
  }

  lemma OneScroll(cat: Catalogue, s: State)
    requires Inv(cat, s) && Idle(s) && s.shown == Some(s.current) && |s.items| < s.total
    ensures var t := Step(cat, Step(cat, s, EndReached), Respond(s.next));
            && Inv(cat, t) && Idle(t) && t.shown == Some(t.current) && t.current == s.current
            && t.next == s.next + 1 && t.total == s.total
            && |t.items| == Min(|s.items| + PAGE_SIZE, s.total)
  {
    EndReachedKeepsInv(cat, s);
    SettleKeepsInv(cat, Step(cat, s, EndReached), s.next, true);
    NextPage(cat(s.current), s.items);
  }

  // Scrolling n times from a settled list loads n more pages, so enough scrolling shows
  // exactly the results of the search, in order.
  lemma {:induction false} ScrollingLoadsEverything(cat: Catalogue, s: State, n: nat)
    requires Inv(cat, s) && Idle(s) && s.shown == Some(s.current)
    requires |s.items| + PAGE_SIZE * n < s.total + PAGE_SIZE
    ensures var t := RunFrom(cat, s, Scrolls(n, s.next));
            && t.items <= cat(s.current) && |t.items| == Min(|s.items| + PAGE_SIZE * n, s.total)
            && (|s.items| + PAGE_SIZE * n >= s.total ==> t.items == cat(s.current))
    decreases n
  {
    if n == 0 {
      assert Scrolls(0, s.next) == [] && RunFrom(cat, s, []) == s;
    } else {
      hide Step, RunFrom, Inv, Idle, Shows, Scrolls;
      var t := Step(cat, Step(cat, s, EndReached), Respond(s.next));
      OneScroll(cat, s);
      ScrollingLoadsEverything(cat, t, n - 1);
      RunTwo(cat, s, EndReached, Respond(s.next), Scrolls(n - 1, s.next + 1));
    }
  }

  lemma RunTwo(cat: Catalogue, s: State, d: Event, e: Event, rest: seq<Event>)
    ensures RunFrom(cat, s, [d, e] + rest) == RunFrom(cat, Step(cat, Step(cat, s, d), e), rest)
  {
    hide Step;
    var events := [d, e] + rest;
    assert events[1..] == [e] + rest && events[1..][1..] == rest;
    assert RunFrom(cat, Step(cat, s, d), events[1..]) == RunFrom(cat, Step(cat, Step(cat, s, d), e), events[1..][1..]);
  }

  // ---------- Why the runs must be orderly ----------

  // A settled list extends to a first part of the results of the search it shows, whatever
  // the catalogue, exactly when that search is still the current one. It is not after a
  // search that failed: the next page then comes from another result list.
  lemma ExtensionIsSafeIff(s: State)
    requires Idle(s) && s.shown.Some? && |s.items| < s.total
    ensures (forall cat: Catalogue ::
               Shows(cat, s) ==> Shows(cat, Step(cat, Step(cat, s, EndReached), Respond(s.next))))
       <==> s.shown == Some(s.current)
  {
    hide Shows;
    var t := Send(s.(loadingMore := true), More(s.current, |s.items|));
    forall cat: Catalogue ensures Shows(cat, s) <==> Shows(cat, t) {
      SameListShows(cat, s, t);
    }
    PageIsSafeIff(t, s.next);
  }

  lemma SameListShows(cat: Catalogue, s: State, t: State)
    requires s.items == t.items && s.total == t.total && s.shown == t.shown
    ensures Shows(cat, s) <==> Shows(cat, t)
  {
  }

  // A page is requested, a search is started before it arrives, and the search's response
  // comes first.
  function Race(s: State, query: Query): seq<Event> {
    [EndReached, Search(query)] + [Respond(s.next + 1), Respond(s.next)]
  }

  lemma RunsTwo(cat: Catalogue, s: State, d: Event, e: Event)
    ensures RunFrom(cat, s, [d, e]) == Step(cat, Step(cat, s, d), e)
  {
    hide Step;
    RunTwo(cat, s, d, e, []);
    assert [d, e] + [] == [d, e];
  }

  // A search is started, it fails, the end of the list is reached, and the page arrives.
  function FailedSearch(s: State, query: Query): seq<Event> {
    [Search(query), Reject(s.next)] + [EndReached, Respond(s.next + 1)]
  }

  // The list still shows the old search, the next page is asked for under the new one.
  lemma AfterFailedSearch(cat: Catalogue, s: State, query: Query) returns (t: State)
    requires Idle(s) && s.shown.Some?
    ensures t == Step(cat, Step(cat, s, Search(query)), Reject(s.next))
    ensures Idle(t) && t.current == query && t.next == s.next + 1
    ensures t.items == s.items && t.total == s.total && t.shown == s.shown
  {
    t := Step(cat, Step(cat, s, Search(query)), Reject(s.next));
    assert Step(cat, s, Search(query)).inFlight == map[s.next := First(query)];
  }

  // What the user then sees: the old list followed by the page of the new search that
  // begins where the old list ends, under the old list's search but the new total.
  lemma FailedSearchMixes(cat: Catalogue, s: State, query: Query)
    requires Idle(s) && s.shown.Some? && |s.items| < s.total
    ensures var t := RunFrom(cat, s, FailedSearch(s, query));
            && t.items == s.items + Paginate(cat(query), Page(PAGE_SIZE, |s.items|)).items
            && t.total == |cat(query)| && t.shown == s.shown
  {
    hide RunFrom, Idle, Step, Paginate;
    var t := AfterFailedSearch(cat, s, query);
    var rest: seq<Event> := [EndReached, Respond(s.next + 1)];
    RunTwo(cat, s, Search(query), Reject(s.next), rest);
    RunsTwo(cat, t, EndReached, Respond(s.next + 1));
    NextPageArrives(cat, t);
  }

  // Whatever is shown, the next page comes from the current search.
  lemma NextPageArrives(cat: Catalogue, s: State)
    requires Idle(s) && |s.items| < s.total
    ensures var t := Step(cat, Step(cat, s, EndReached), Respond(s.next));
            && t.items == s.items + Paginate(cat(s.current), Page(PAGE_SIZE, |s.items|)).items
            && t.total == |cat(s.current)| && t.shown == s.shown
  {
    var asked := Step(cat, s, EndReached);
    assert asked.inFlight == map[s.next := More(s.current, |s.items|)] && asked.items == s.items;
    FetchedTotal(cat, More(s.current, |s.items|));
    hide Paginate;
  }

  // Whatever the catalogue, that is a first part of the results of the search shown exactly
  // when the search that failed was the one already shown.
  lemma FailedSearchIsSafeIff(s: State, query: Query)
    requires Idle(s) && s.shown.Some? && |s.items| < s.total
    ensures (forall cat: Catalogue :: Shows(cat, s) ==> Shows(cat, RunFrom(cat, s, FailedSearch(s, query))))
       <==> s.shown == Some(query)
  {
    hide RunFrom;
    if s.shown == Some(query) {
      forall cat: Catalogue | Shows(cat, s) ensures Shows(cat, RunFrom(cat, s, FailedSearch(s, query))) {
        FailedSearchMixes(cat, s, query);
        NextPage(cat(query), s.items);
      }
    } else {
      var cat := Continued(s.items, s.total, s.shown.value, "x", "y", []);
      assert s.items <= cat(s.shown.value) && Shows(cat, s);
      FailedSearchMixes(cat, s, query);
    }
  }

  // Up to the response to the search, and with the old page still in flight.
  lemma BeforeOldPage(cat: Catalogue, s: State, query: Query) returns (t: State)
    requires Idle(s) && s.shown == Some(s.current) && |s.items| < s.total
    ensures t == Step(cat, Step(cat, Step(cat, s, EndReached), Search(query)), Respond(s.next + 1))
    ensures t.items == Fetched(cat, First(query)).items && t.total == |cat(query)| && t.shown == Some(query)
    ensures t.inFlight == map[s.next := More(s.current, |s.items|)]
  {
    hide Fetched;
    t := Step(cat, Step(cat, Step(cat, s, EndReached), Search(query)), Respond(s.next + 1));
    assert Fetched(cat, First(query)).total == |cat(query)| by { FetchedTotal(cat, First(query)); }
  }

  lemma FetchedTotal(cat: Catalogue, f: Fetch)
    ensures Fetched(cat, f).total == |cat(f.query)|
  {
  }

  lemma RunRace(cat: Catalogue, s: State, query: Query) returns (t: State)
    requires Idle(s) && s.shown == Some(s.current) && |s.items| < s.total
    ensures t.items == Fetched(cat, First(query)).items && t.total == |cat(query)| && t.shown == Some(query)
    ensures t.inFlight == map[s.next := More(s.current, |s.items|)]
    ensures RunFrom(cat, s, Race(s, query)) == Step(cat, t, Respond(s.next))
  {
    hide Step, RunFrom, Fetched, Idle;
    t := BeforeOldPage(cat, s, query);
    var rest: seq<Event> := [Respond(s.next + 1), Respond(s.next)];
    RunTwo(cat, s, EndReached, Search(query), rest);
    RunsTwo(cat, Step(cat, Step(cat, s, EndReached), Search(query)), Respond(s.next + 1), Respond(s.next));
  }

  // A search started while a page is in flight leaves the page of the old search behind
  // the results of the new one. Whatever the catalogue, the list is still a first part of
  // the new results only if the same search was repeated while exactly its first page was
  // shown, and then it is.
  lemma RaceIsSafeIff(s: State, query: Query)
    requires Idle(s) && s.shown == Some(s.current) && |s.items| < s.total
    ensures (forall cat: Catalogue :: Shows(cat, s) ==> Shows(cat, RunFrom(cat, s, Race(s, query))))
       <==> query == s.current && |s.items| == PAGE_SIZE
  {
    hide RunFrom, Step, Race;
    if query == s.current && |s.items| == PAGE_SIZE {
      forall cat: Catalogue | Shows(cat, s) ensures Shows(cat, RunFrom(cat, s, Race(s, query))) {
        SameSearchRace(cat, s);
      }
    } else {
      var item := if |s.items| > PAGE_SIZE && s.items[PAGE_SIZE] == "x" then "y" else "x";
      var cat := Continued(s.items, s.total, s.current, item, "z", []);
      assert s.items <= cat(s.current) && Shows(cat, s);
      UnsafeRace(cat, s, query, item);
    }
  }

  lemma SameSearchRace(cat: Catalogue, s: State)
    requires Idle(s) && s.shown == Some(s.current) && PAGE_SIZE == |s.items| < s.total && Shows(cat, s)
    ensures Shows(cat, RunFrom(cat, s, Race(s, s.current)))
  {
    hide RunFrom, Step, Race;
    var t := RunRace(cat, s, s.current);
    NextPage(cat(s.current), []);
    var page := Fetched(cat, First(s.current)).items;
    assert [] + page == page;
    FittingPageShows(cat, t, s.next);
  }

  lemma UnsafeRace(cat: Catalogue, s: State, query: Query, item: Item)
    requires Idle(s) && s.shown == Some(s.current) && |s.items| < s.total
    requires item != "z" && (|s.items| > PAGE_SIZE ==> s.items[PAGE_SIZE] != item)
    requires query == s.current ==> |s.items| != PAGE_SIZE
    requires cat(s.current) == s.items + [item] + seq(s.total - |s.items| - 1, i => "z")
    requires forall q :: q != s.current ==> cat(q) == []
    ensures !Shows(cat, RunFrom(cat, s, Race(s, query)))
  {
    hide RunFrom, Race;
    var t := RunRace(cat, s, query);
    var after := Step(cat, t, Respond(s.next));
    assert after.items == t.items + Fetched(cat, More(s.current, |s.items|)).items;
    assert after.total == s.total && after.shown == Some(query);
    if query == s.current { RaceMixes(cat(query), s.items, after.items); }
  }

  lemma RaceMixes(all: seq<Item>, items: seq<Item>, mixed: seq<Item>)
    requires items <= all && |items| < |all| && |items| != PAGE_SIZE
    requires |items| > PAGE_SIZE ==> all[|items|] != items[PAGE_SIZE]
    requires forall k :: |items| < k < |all| ==> all[k] != all[|items|]
    requires mixed == Paginate(all, Page(PAGE_SIZE, 0)).items + Paginate(all, Page(PAGE_SIZE, |items|)).items
    ensures !(mixed <= all)
  {
    if |all| > PAGE_SIZE {
      assert mixed[PAGE_SIZE] == all[|items|];
      assert |items| > PAGE_SIZE ==> all[PAGE_SIZE] == items[PAGE_SIZE];
    } else {
      assert |mixed| == |all| + (|all| - |items|);
    }
  }

  // Two searches at once: the later one is answered first and scrolled, then the earlier
  // one is answered, then the page arrives.
  function Overlap(s: State, a: Query, b: Query): seq<Event> {
    [Search(a), Search(b)] + ([Respond(s.next + 1), EndReached] + [Respond(s.next), Respond(s.next + 2)])
  }

  // The state before the page arrives, if there is one to fetch.
  lemma BeforeLatePage(cat: Catalogue, s: State, a: Query, b: Query) returns (t: State)
    requires Idle(s)
    ensures t == Step(cat, Step(cat, Step(cat, Step(cat, Step(cat, s,
                   Search(a)), Search(b)), Respond(s.next + 1)), EndReached), Respond(s.next))
    ensures t.items == Fetched(cat, First(a)).items && t.total == |cat(a)| && t.shown == Some(a)
    ensures t.inFlight == if |cat(b)| > PAGE_SIZE then map[s.next + 2 := More(b, PAGE_SIZE)] else map[]
  {
    var first := Fetched(cat, First(b));
    assert |first.items| == Min(PAGE_SIZE, |cat(b)|) && first.total == |cat(b)|;
    FetchedTotal(cat, First(a));
    hide Fetched, Min;
    var u := Step(cat, Step(cat, s, Search(a)), Search(b));
    assert u.inFlight == map[s.next := First(a), s.next + 1 := First(b)];
    var v := Step(cat, u, Respond(s.next + 1));
    assert v.inFlight == map[s.next := First(a)] && v.items == first.items && v.total == first.total;
    assert !v.loading && !v.loadingMore && v.current == b && v.next == s.next + 2;
    var w := Step(cat, v, EndReached);
    assert w.inFlight == if |cat(b)| > PAGE_SIZE then map[s.next := First(a), s.next + 2 := More(b, PAGE_SIZE)]
                         else map[s.next := First(a)];
    t := Step(cat, w, Respond(s.next));
  }

  lemma RunOverlap(cat: Catalogue, s: State, a: Query, b: Query) returns (t: State)
    requires Idle(s)
    ensures t.items == Fetched(cat, First(a)).items && t.total == |cat(a)| && t.shown == Some(a)
    ensures t.inFlight == if |cat(b)| > PAGE_SIZE then map[s.next + 2 := More(b, PAGE_SIZE)] else map[]
    ensures RunFrom(cat, s, Overlap(s, a, b)) == Step(cat, t, Respond(s.next + 2))
    ensures Shows(cat, t)
  {
    hide Step, RunFrom, Fetched, Idle;
    t := BeforeLatePage(cat, s, a, b);
    var u := Step(cat, Step(cat, s, Search(a)), Search(b));
    var v := Step(cat, Step(cat, u, Respond(s.next + 1)), EndReached);
    var last: seq<Event> := [Respond(s.next), Respond(s.next + 2)];
    RunTwo(cat, s, Search(a), Search(b), [Respond(s.next + 1), EndReached] + last);
    RunTwo(cat, u, Respond(s.next + 1), EndReached, last);
    RunsTwo(cat, v, Respond(s.next), Respond(s.next + 2));
    NextPage(cat(a), []);
    assert Fetched(cat, First(a)).items == Paginate(cat(a), Page(PAGE_SIZE, 0)).items by { FirstPage(cat, a); }
    assert [] + t.items == t.items;
  }

  lemma FirstPage(cat: Catalogue, query: Query)
    ensures Fetched(cat, First(query)).items == Paginate(cat(query), Page(PAGE_SIZE, 0)).items
  {
  }

  // Answered in that order, overlapping searches leave a first part of the results of the
  // search that is shown, whatever the catalogue, exactly when both are the same search.
  lemma OverlapIsSafeIff(s: State, a: Query, b: Query)
    requires Idle(s)
    ensures (forall cat: Catalogue :: Shows(cat, RunFrom(cat, s, Overlap(s, a, b)))) <==> a == b
  {
    hide RunFrom, Overlap, Step, Shows;
    if a == b {
      forall cat: Catalogue ensures Shows(cat, RunFrom(cat, s, Overlap(s, a, b))) {
        var t := RunOverlap(cat, s, a, b);
        LateStepShows(cat, t, s.next + 2);
      }
    } else {
      var cat: Catalogue := q => if q == b then seq(PAGE_SIZE + 1, i => "x") else [];
      var t := RunOverlap(cat, s, a, b);
      LateStepBreaks(cat, t, s.next + 2, b);
    }
  }

  lemma LateStepShows(cat: Catalogue, t: State, call: nat)
    requires Shows(cat, t) && t.shown.Some? && t.items == Fetched(cat, First(t.shown.value)).items
    requires || t.inFlight == map[]
             || (|t.items| == PAGE_SIZE && t.inFlight == map[call := More(t.shown.value, PAGE_SIZE)])
    ensures Shows(cat, Step(cat, t, Respond(call)))
  {
    if call in t.inFlight { FittingPageShows(cat, t, call); }
  }

  lemma LateStepBreaks(cat: Catalogue, t: State, call: nat, query: Query)
    requires t.shown.Some? && |cat(t.shown.value)| != |cat(query)| && t.inFlight == map[call := More(query, PAGE_SIZE)]
    ensures !Shows(cat, Step(cat, t, Respond(call)))
  {
  }
}
