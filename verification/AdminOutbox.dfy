// Optimistic removal with rollback on the dead-letter page (web/src/pages/AdminOutbox.jsx):
// retry(id) snapshots a row and its index, removes the row, and puts it back at that
// index if the request fails. Any number of requests may be in flight.
module AdminOutbox {
  import opened Text
  import opened Sequences

  type Id = string

  datatype Row = Row(id: Id, body: string)

  datatype Snapshot = NotFound | Removed(row: Row, index: nat)

  // One call of retry: the id it was given and what its optimistic update removed.
  datatype Call = Call(id: Id, snapshot: Snapshot)

  // `inFlight` maps call numbers to unsettled calls; `requeued` are the rows whose
  // request succeeded.
  datatype State = State(items: seq<Row>, retrying: set<Id>, inFlight: map<nat, Call>, requeued: seq<Row>, next: nat)

  datatype Event = Start(id: Id) | Succeed(call: nat) | Fail(call: nat)

  // ---------- The transition function ----------

  // prev.findIndex((r) => r.id === id), with |items| for "not found"
  function FindIndex(items: seq<Row>, id: Id): (i: nat)
    ensures i <= |items| && (i < |items| ==> items[i].id == id)
    ensures forall k :: 0 <= k < i ==> items[k].id != id
  {
    if items == [] || items[0].id == id then 0 else 1 + FindIndex(items[1..], id)
  }

  function Rollback(items: seq<Row>, s: Snapshot): seq<Row> {
    match s
    case NotFound => items
    case Removed(row, index) => InsertAt(items, Min(index, |items|), row)
  }

  // A call settles once: settling an unknown or settled call cannot occur.
  function Step(s: State, e: Event): State {
    match e
    case Start(id) =>
      var i := FindIndex(s.items, id);
      var found := i < |s.items|;
      var snapshot := if found then Removed(s.items[i], i) else NotFound;
      State(if found then RemoveAt(s.items, i) else s.items,
            s.retrying + {id}, s.inFlight[s.next := Call(id, snapshot)], s.requeued, s.next + 1)
    case Succeed(call) =>
      if call !in s.inFlight then s
      else
        var c := s.inFlight[call];
        s.(retrying := s.retrying - {c.id}, inFlight := s.inFlight - {call},
           requeued := s.requeued + if c.snapshot.Removed? then [c.snapshot.row] else [])
    case Fail(call) =>
      if call !in s.inFlight then s
      else
        var c := s.inFlight[call];
        s.(items := Rollback(s.items, c.snapshot),
           retrying := s.retrying - {c.id}, inFlight := s.inFlight - {call})
  }

  function Loaded(items: seq<Row>): State { State(items, {}, map[], [], 0) }

  function RunFrom(s: State, events: seq<Event>): State
    decreases |events|
  {
    if events == [] then s else RunFrom(Step(s, events[0]), events[1..])
  }

  // ---------- The page as a mutable object ----------

  class Page {
    var items: seq<Row>
    var retrying: set<Id>
    var inFlight: map<nat, Call>
    var requeued: seq<Row>
    var next: nat

    ghost function Now(): State
      reads this
    {
      State(items, retrying, inFlight, requeued, next)
    }

    constructor (loaded: seq<Row>)
      ensures Now() == Loaded(loaded)
    {
      items, retrying, inFlight, requeued, next := loaded, {}, map[], [], 0;
    }

    // retry(id) up to its await.
    method StartRetry(id: Id) returns (call: nat)
      modifies this
      ensures Now() == Step(old(Now()), Start(id)) && call == old(next)
    {
      retrying := retrying + {id};
      var snapshot := NotFound;
      var idx := FindIndex(items, id);
      if idx < |items| {
        snapshot := Removed(items[idx], idx);
        items := items[..idx] + items[idx + 1..];
      }
      call := next;
      inFlight := inFlight[call := Call(id, snapshot)];
      next := next + 1;
    }

    // retry(id) from its await on.
    method Settle(call: nat, ok: bool)
      requires call in inFlight
      modifies this
      ensures Now() == Step(old(Now()), if ok then Succeed(call) else Fail(call))
    {
      var c := inFlight[call];
      if c.snapshot.Removed? {
        if ok {
          requeued := requeued + [c.snapshot.row];
        } else {
          var insertAt := Min(c.snapshot.index, |items|);
          items := items[..insertAt] + [c.snapshot.row] + items[insertAt..];
        }
      }
      inFlight := inFlight - {call};
      retrying := retrying - {c.id};
    }
  }

  // ---------- Conservation ----------

  predicate Holds(inFlight: map<nat, Call>, call: nat, row: Row) {
    call in inFlight && inFlight[call].snapshot.Removed? && inFlight[call].snapshot.row == row
  }

  // How many of the calls numbered below n hold the row.
  function HeldBelow(inFlight: map<nat, Call>, n: nat, row: Row): nat {
    if n == 0 then 0 else HeldBelow(inFlight, n - 1, row) + if Holds(inFlight, n - 1, row) then 1 else 0
  }

  // How often the page knows a row: shown, held by a request in flight, or requeued.
  function Occurrences(s: State, row: Row): nat {
    multiset(s.items)[row] + HeldBelow(s.inFlight, s.next, row) + multiset(s.requeued)[row]
  }

  ghost predicate Numbered(s: State) { forall call :: call in s.inFlight ==> call < s.next }

  lemma {:induction false} HeldUnchanged(a: map<nat, Call>, b: map<nat, Call>, n: nat, row: Row)
    requires forall call :: 0 <= call < n ==> (Holds(a, call, row) <==> Holds(b, call, row))
    ensures HeldBelow(a, n, row) == HeldBelow(b, n, row)
    decreases n
  {
    if n != 0 { HeldUnchanged(a, b, n - 1, row); }
  }

  lemma {:induction false} HeldWithout(m: map<nat, Call>, call: nat, n: nat, row: Row)
    requires call < n
    ensures HeldBelow(m, n, row) == HeldBelow(m - {call}, n, row) + if Holds(m, call, row) then 1 else 0
    decreases n
  {
    if call == n - 1 { HeldUnchanged(m, m - {call}, n - 1, row); } else { HeldWithout(m, call, n - 1, row); }
  }

  lemma StartConserves(s: State, id: Id, row: Row)
    requires Numbered(s)
    ensures Numbered(Step(s, Start(id))) && Occurrences(Step(s, Start(id)), row) == Occurrences(s, row)
  {
    hide RemoveAt, FindIndex;
    var t := Step(s, Start(id));
    HeldUnchanged(s.inFlight, t.inFlight, s.next, row);
    var i := FindIndex(s.items, id);
    if i < |s.items| { RemoveAtMembers(s.items, i); }
  }

  lemma SettleConserves(s: State, call: nat, ok: bool, row: Row)
    requires Numbered(s)
    ensures var t := Step(s, if ok then Succeed(call) else Fail(call));
            Numbered(t) && Occurrences(t, row) == Occurrences(s, row)
  {
    if call in s.inFlight {
      HeldWithout(s.inFlight, call, s.next, row);
      var c := s.inFlight[call];
      if !ok && c.snapshot.Removed? {
        InsertAtMembers(s.items, Min(c.snapshot.index, |s.items|), c.snapshot.row);
      }
    }
  }

  lemma StepConserves(s: State, e: Event, row: Row)
    requires Numbered(s)
    ensures Numbered(Step(s, e)) && Occurrences(Step(s, e), row) == Occurrences(s, row)
  {
    hide Step, Occurrences, Numbered;
    match e
    case Start(id) => StartConserves(s, id, row);
    case Succeed(call) => SettleConserves(s, call, true, row);
    case Fail(call) => SettleConserves(s, call, false, row);
  }

  // Across every interleaving of starts, successes and failures, however many calls
  // overlap and whatever ids they are given, every row is known exactly as often as
  // before: none is lost, duplicated or invented.
  lemma {:induction false} RowsAreConserved(s: State, events: seq<Event>, row: Row)
    requires Numbered(s)
    ensures Numbered(RunFrom(s, events)) && Occurrences(RunFrom(s, events), row) == Occurrences(s, row)
    decreases |events|
  {
    hide Step, Occurrences, Numbered;
    if events != [] {
      StepConserves(s, events[0], row);
      RowsAreConserved(Step(s, events[0]), events[1..], row);
    }
  }

  ghost predicate DistinctIds(rows: seq<Row>) {
    forall i, j :: 0 <= i < j < |rows| ==> rows[i].id != rows[j].id
  }

  // If the loaded page has distinct ids, no id is ever shown twice.
  lemma NoDuplicateRow(items: seq<Row>, events: seq<Event>)
    requires DistinctIds(items)
    ensures DistinctIds(RunFrom(Loaded(items), events).items)
  {
    hide Step, RunFrom, DistinctIds;
    var s := RunFrom(Loaded(items), events);
    forall i, j | 0 <= i < j < |s.items| ensures s.items[i].id != s.items[j].id {
      var a, b := s.items[i], s.items[j];
      RowsAreConserved(Loaded(items), events, a);
      RowsAreConserved(Loaded(items), events, b);
      assert Distinct(items) by { DistinctIdsDistinctRows(items); }
      DistinctOccurOnce(items, a);
      if a == b { RepeatedOccurs(s.items, i, j); }
      assert a in multiset(s.items) && b in multiset(s.items);
      assert a in items && b in items;
      SameIdSameRow(items, a, b);
    }
    AreDistinct(s.items);
  }

  lemma DistinctIdsDistinctRows(rows: seq<Row>)
    requires DistinctIds(rows)
    ensures Distinct(rows)
  {
  }

  lemma SameIdSameRow(rows: seq<Row>, a: Row, b: Row)
    requires DistinctIds(rows) && a in rows && b in rows
    ensures a.id == b.id ==> a == b
  {
  }

  lemma AreDistinct(rows: seq<Row>)
    requires forall i, j :: 0 <= i < j < |rows| ==> rows[i].id != rows[j].id
    ensures DistinctIds(rows)
  {
  }

  // ---------- The in-flight markers ----------

  // The retry button is shown for the visible rows and disabled while its id is in
  // `retrying`, so the interface only starts a retry for a visible row that is not.
  ghost predicate Clickable(s: State, e: Event) {
    e.Start? ==> e.id !in s.retrying && exists i :: 0 <= i < |s.items| && s.items[i].id == e.id
  }

  ghost predicate Clicks(s: State, events: seq<Event>)
    decreases |events|
  {
    events != [] ==> Clickable(s, events[0]) && Clicks(Step(s, events[0]), events[1..])
  }

  ghost predicate InFlight(s: State, id: Id) { exists call :: call in s.inFlight && s.inFlight[call].id == id }

  ghost predicate MarkersMatch(s: State) { forall id :: id in s.retrying <==> InFlight(s, id) }

  // Each call holds the row of its id, and no two calls have the same id.
  ghost predicate OneCallPerRow(s: State) {
    && (forall call :: call in s.inFlight ==>
          s.inFlight[call].snapshot.Removed? && s.inFlight[call].snapshot.row.id == s.inFlight[call].id)
    && (forall c, d :: c in s.inFlight && d in s.inFlight && s.inFlight[c].id == s.inFlight[d].id ==> c == d)
  }

  ghost predicate NoneShownMarked(s: State) { forall i :: 0 <= i < |s.items| ==> s.items[i].id !in s.retrying }

  ghost predicate Marked(s: State) {
    Numbered(s) && MarkersMatch(s) && OneCallPerRow(s) && NoneShownMarked(s) && DistinctIds(s.items)
  }

  lemma StartMatches(s: State, id: Id)
    requires Numbered(s) && MarkersMatch(s)
    ensures Numbered(Step(s, Start(id))) && MarkersMatch(Step(s, Start(id)))
  {
    hide FindIndex, RemoveAt;
    var t := Step(s, Start(id));
    assert s.next in t.inFlight && s.next !in s.inFlight && t.inFlight[s.next].id == id;
    forall x ensures x in t.retrying <==> InFlight(t, x) {
      if x != id && x in s.retrying {
        assert InFlight(s, x);
        var call :| call in s.inFlight && s.inFlight[call].id == x;
        assert t.inFlight[call].id == x;
      }
    }
  }

  lemma StartTakesOut(s: State, id: Id)
    requires DistinctIds(s.items) && NoneShownMarked(s) && Clickable(s, Start(id))
    ensures DistinctIds(Step(s, Start(id)).items) && NoneShownMarked(Step(s, Start(id)))
  {
    var t, i := Step(s, Start(id)), FindIndex(s.items, id);
    hide FindIndex, RemoveAt;
    forall k | 0 <= k < |t.items| ensures t.items[k] == s.items[if k < i then k else k + 1] {
      RemoveAtAt(s.items, i, k);
    }
  }

  lemma StartKeepsMarks(s: State, id: Id)
    requires Marked(s) && Clickable(s, Start(id))
    ensures Marked(Step(s, Start(id)))
  {
    hide MarkersMatch, NoneShownMarked, DistinctIds, FindIndex, RemoveAt;
    StartMatches(s, id);
    StartTakesOut(s, id);
    assert !InFlight(s, id) by { UnmarkedIsFree(s, id); }
  }

  lemma UnmarkedIsFree(s: State, id: Id)
    requires MarkersMatch(s) && id !in s.retrying
    ensures !InFlight(s, id)
  {
  }

  lemma SettleMatches(s: State, call: nat, ok: bool)
    requires Numbered(s) && MarkersMatch(s) && OneCallPerRow(s)
    ensures var t := Step(s, if ok then Succeed(call) else Fail(call));
            Numbered(t) && MarkersMatch(t) && OneCallPerRow(t)
  {
    hide Rollback;
    var t := Step(s, if ok then Succeed(call) else Fail(call));
    if call in s.inFlight {
      forall x ensures x in t.retrying <==> InFlight(t, x) {
        if x in t.retrying {
          assert InFlight(s, x);
          var c :| c in s.inFlight && s.inFlight[c].id == x;
          assert c in t.inFlight && t.inFlight[c].id == x;
        }
      }
    }
  }

  lemma FailPutsBack(s: State, call: nat)
    requires Marked(s) && call in s.inFlight
    ensures DistinctIds(Step(s, Fail(call)).items) && NoneShownMarked(Step(s, Fail(call)))
  {
    var t, c := Step(s, Fail(call)), s.inFlight[call];
    var at := Min(c.snapshot.index, |s.items|);
    assert c.id in s.retrying by { assert InFlight(s, c.id); }
    assert t.items == InsertAt(s.items, at, c.snapshot.row);
    ShownWith(s.items, at, c.snapshot.row, s.retrying);
  }

  // A row whose id is marked, put between rows whose ids are not.
  lemma ShownWith(items: seq<Row>, at: nat, row: Row, marked: set<Id>)
    requires at <= |items| && DistinctIds(items) && row.id in marked
    requires forall i :: 0 <= i < |items| ==> items[i].id !in marked
    ensures var r := InsertAt(items, at, row);
            && DistinctIds(r)
            && forall i :: 0 <= i < |r| ==> r[i].id !in marked - {row.id}
  {
    var r := InsertAt(items, at, row);
    forall k | 0 <= k < |r| ensures r[k] == if k < at then items[k] else if k == at then row else items[k - 1] {
      InsertAtAt(items, at, row, k);
    }
  }

  lemma SucceedKeepsList(s: State, call: nat)
    requires NoneShownMarked(s)
    ensures Step(s, Succeed(call)).items == s.items && NoneShownMarked(Step(s, Succeed(call)))
  {
  }

  lemma SettleKeepsMarks(s: State, call: nat, ok: bool)
    requires Marked(s)
    ensures Marked(Step(s, if ok then Succeed(call) else Fail(call)))
  {
    hide MarkersMatch, OneCallPerRow, DistinctIds, NoneShownMarked, Rollback, Numbered;
    SettleMatches(s, call, ok);
    if ok {
      SucceedKeepsList(s, call);
    } else if call in s.inFlight {
      FailPutsBack(s, call);
    }
  }

  lemma {:induction false} ClicksKeepMarks(s: State, events: seq<Event>)
    requires Marked(s) && Clicks(s, events)
    ensures Marked(RunFrom(s, events))
    decreases |events|
  {
    if events != [] {
      match events[0] {
        case Start(id) => StartKeepsMarks(s, id);
        case Succeed(call) => SettleKeepsMarks(s, call, true);
        case Fail(call) => SettleKeepsMarks(s, call, false);
      }
      ClicksKeepMarks(Step(s, events[0]), events[1..]);
    }
  }

  // In every run driven by the interface, from a loaded page with distinct ids, `retrying`
  // is exactly the set of ids in flight and no visible row is ever marked, so a shown
  // retry button is never disabled.
  lemma MarkersAreExact(items: seq<Row>, events: seq<Event>)
    requires DistinctIds(items) && Clicks(Loaded(items), events)
    ensures var s := RunFrom(Loaded(items), events);
            MarkersMatch(s) && NoneShownMarked(s)
  {
    hide Step, RunFrom, Clicks;
    ClicksKeepMarks(Loaded(items), events);
  }

  // ---------- Restoration ----------

  // Properly nested histories: a retry, nested retries that settle before it does, its
  // failure, and what follows.
  datatype Nest = Done | Retry(id: Id, inner: Nest, rest: Nest)

  function Starts(n: Nest): nat {
    match n
    case Done => 0
    case Retry(_, inner, rest) => 1 + Starts(inner) + Starts(rest)
  }

  // The events of a nest whose first call gets number `first`.
  function Events(n: Nest, first: nat): seq<Event> {
    match n
    case Done => []
    case Retry(id, inner, rest) =>
      [Start(id)] + Events(inner, first + 1) + [Fail(first)] + Events(rest, first + 1 + Starts(inner))
  }

  lemma {:induction false} RunConcat(s: State, a: seq<Event>, b: seq<Event>)
    ensures RunFrom(s, a + b) == RunFrom(RunFrom(s, a), b)
    decreases |a|
  {
    if a == [] {
      assert a + b == b;
    } else {
      assert (a + b)[0] == a[0] && (a + b)[1..] == a[1..] + b;
      RunConcat(Step(s, a[0]), a[1..], b);
    }
  }

  lemma RunOne(s: State, e: Event)
    ensures RunFrom(s, [e]) == Step(s, e)
  {
    assert [e][1..] == [];
  }

  // t is s again but for the call numbers the nest has used up.
  ghost predicate Restores(s: State, n: Nest, t: State) {
    t.items == s.items && t.inFlight == s.inFlight && t.requeued == s.requeued && t.next == s.next + Starts(n)
  }

  // If all retries fail and each settles after those started while it was in flight, the
  // list is back exactly as it was, order included, for any number of overlapping retries.
  lemma {:induction false} NestedFailuresRestore(s: State, n: Nest)
    requires Numbered(s)
    ensures Restores(s, n, RunFrom(s, Events(n, s.next)))
    decreases n
  {
    hide Step;
    match n
    case Done =>
    case Retry(id, inner, rest) =>
      StartFacts(s, id);
      NestedFailuresRestore(Step(s, Start(id)), inner);
      var failed := AfterFailure(s, id, inner);
      NestedFailuresRestore(failed, rest);
      Assemble(s, n, failed, RunFrom(failed, Events(rest, failed.next)));
  }

  lemma AfterFailure(s: State, id: Id, inner: Nest) returns (failed: State)
    requires Numbered(s)
    requires var started := Step(s, Start(id));
             Restores(started, inner, RunFrom(started, Events(inner, started.next)))
    ensures failed == Step(RunFrom(Step(s, Start(id)), Events(inner, s.next + 1)), Fail(s.next))
    ensures Restores(s, Retry(id, inner, Done), failed) && Numbered(failed)
  {
    hide RunFrom, Events;
    var before := RunFrom(Step(s, Start(id)), Events(inner, s.next + 1));
    failed := Step(before, Fail(s.next));
    FailUndoesStart(s, id, inner, before);
  }

  lemma Assemble(s: State, n: Nest, failed: State, last: State)
    requires n.Retry?
    requires failed == Step(RunFrom(Step(s, Start(n.id)), Events(n.inner, s.next + 1)), Fail(s.next))
    requires Restores(s, Retry(n.id, n.inner, Done), failed)
    requires last == RunFrom(failed, Events(n.rest, failed.next)) && Restores(failed, n.rest, last)
    ensures last == RunFrom(s, Events(n, s.next)) && Restores(s, n, last)
  {
    hide Step, RunFrom, Events, Restores;
    RestoredNext(s, n.id, n.inner, failed);
    RunRetry(s, n, failed);
    RestoresTwice(s, n.id, n.inner, n.rest, failed, last);
  }

  lemma RestoredNext(s: State, id: Id, inner: Nest, t: State)
    requires Restores(s, Retry(id, inner, Done), t)
    ensures t.next == s.next + 1 + Starts(inner)
  {
    assert Starts(Done) == 0;
  }

  lemma RestoresTwice(s: State, id: Id, inner: Nest, rest: Nest, t: State, u: State)
    requires Restores(s, Retry(id, inner, Done), t) && Restores(t, rest, u)
    ensures Restores(s, Retry(id, inner, rest), u)
  {
    RestoredNext(s, id, inner, t);
  }

  lemma RunRetry(s: State, n: Nest, failed: State)
    requires n.Retry?
    requires failed == Step(RunFrom(Step(s, Start(n.id)), Events(n.inner, s.next + 1)), Fail(s.next))
    ensures RunFrom(s, Events(n, s.next)) == RunFrom(failed, Events(n.rest, s.next + 1 + Starts(n.inner)))
  {
    hide Step, RunFrom, Events;
    var x, y := Events(n.inner, s.next + 1), Events(n.rest, s.next + 1 + Starts(n.inner));
    var start, fail := [Start(n.id)], [Fail(s.next)];
    EventsOfRetry(n, s.next);
    RunConcat(s, start + x + fail, y);
    RunConcat(s, start + x, fail);
    RunConcat(s, start, x);
    RunOne(s, Start(n.id));
    RunOne(RunFrom(Step(s, Start(n.id)), x), Fail(s.next));
  }

  lemma EventsOfRetry(n: Nest, first: nat)
    requires n.Retry?
    ensures Starts(n) == 1 + Starts(n.inner) + Starts(n.rest)
    ensures Events(n, first)
         == [Start(n.id)] + Events(n.inner, first + 1) + [Fail(first)] + Events(n.rest, first + 1 + Starts(n.inner))
  {
  }

  lemma StartFacts(s: State, id: Id)
    requires Numbered(s)
    ensures Step(s, Start(id)).next == s.next + 1 && Numbered(Step(s, Start(id)))
  {
  }

  lemma FailUndoesStart(s: State, id: Id, inner: Nest, before: State)
    requires Numbered(s) && Restores(Step(s, Start(id)), inner, before)
    ensures Restores(s, Retry(id, inner, Done), Step(before, Fail(s.next))) && Numbered(Step(before, Fail(s.next)))
  {
    var i := FindIndex(s.items, id);
    if i < |s.items| { InsertUndoesRemove(s.items, i); }
    assert s.next !in s.inFlight;
    assert before.inFlight - {s.next} == s.inFlight;
  }

  // The nest of retries started one after another and settled in reverse order.
  function Reversed(ids: seq<Id>): Nest {
    if ids == [] then Done else Retry(ids[0], Reversed(ids[1..]), Done)
  }

  function StartAll(ids: seq<Id>): seq<Event> {
    if ids == [] then [] else [Start(ids[0])] + StartAll(ids[1..])
  }

  // Fail(first + n - 1), ..., Fail(first)
  function FailDown(first: nat, n: nat): seq<Event>
    decreases n
  {
    if n == 0 then [] else FailDown(first + 1, n - 1) + [Fail(first)]
  }

  lemma {:induction false} EventsOfReversed(ids: seq<Id>, first: nat)
    ensures Events(Reversed(ids), first) == StartAll(ids) + FailDown(first, |ids|)
  {
    if ids != [] {
      EventsOfReversed(ids[1..], first + 1);
      var x, y := StartAll(ids[1..]), FailDown(first + 1, |ids| - 1);
      assert [Start(ids[0])] + (x + y) + [Fail(first)] + [] == ([Start(ids[0])] + x) + (y + [Fail(first)]);
    }
  }

  // In particular: start any retries, let all fail in the reverse of their start order.
  lemma ReverseOrderRestores(items: seq<Row>, ids: seq<Id>)
    ensures RunFrom(Loaded(items), StartAll(ids) + FailDown(0, |ids|)).items == items
  {
    EventsOfReversed(ids, 0);
    NestedFailuresRestore(Loaded(items), Reversed(ids));
  }

  // ---------- Order ----------

  function Position(page: seq<Row>, row: Row): nat { FindIndex(page, row.id) }

  predicate Precedes(page: seq<Row>, a: Row, b: Row) { Position(page, a) < Position(page, b) }

  // The rows stand in the order of the loaded page.
  ghost predicate InOrder(page: seq<Row>, items: seq<Row>) {
    forall i, j :: 0 <= i < j < |items| ==> Precedes(page, items[i], items[j])
  }

  // How many of the rows stand before the given one on the loaded page.
  function RowsBefore(page: seq<Row>, items: seq<Row>, row: Row): (n: nat)
    ensures n <= |items|
  {
    if items == [] then 0 else (if Precedes(page, items[0], row) then 1 else 0) + RowsBefore(page, items[1..], row)
  }

  // The state of a page whose loaded rows are all accounted for.
  ghost predicate Known(page: seq<Row>, s: State) {
    Numbered(s) && forall row :: Occurrences(s, row) == multiset(page)[row]
  }

  lemma {:induction false} NothingHeld(n: nat, row: Row)
    ensures HeldBelow(map[], n, row) == 0
    decreases n
  {
    if n != 0 { NothingHeld(n - 1, row); }
  }

  lemma {:induction false} HeldAtLeast(inFlight: map<nat, Call>, n: nat, call: nat, row: Row)
    requires call < n && Holds(inFlight, call, row)
    ensures HeldBelow(inFlight, n, row) >= 1
    decreases n
  {
    if call < n - 1 { HeldAtLeast(inFlight, n - 1, call, row); }
  }

  lemma LoadedIsKnown(page: seq<Row>)
    ensures Known(page, Loaded(page))
  {
    forall row ensures Occurrences(Loaded(page), row) == multiset(page)[row] {
      NothingHeld(0, row);
    }
  }

  lemma StepKeepsKnown(page: seq<Row>, s: State, e: Event)
    requires Known(page, s)
    ensures Known(page, Step(s, e))
  {
    hide Step, Occurrences, Numbered;
    forall row ensures Numbered(Step(s, e)) && Occurrences(Step(s, e), row) == multiset(page)[row] {
      StepConserves(s, e, row);
    }
    StepConserves(s, e, Row("", ""));
  }

  lemma ShownRow(page: seq<Row>, s: State, i: nat)
    requires Known(page, s) && i < |s.items|
    ensures s.items[i] in page
  {
    assert multiset(s.items)[s.items[i]] >= 1;
    assert Occurrences(s, s.items[i]) == multiset(page)[s.items[i]];
  }

  lemma HeldRow(page: seq<Row>, s: State, call: nat)
    requires Known(page, s) && DistinctIds(page) && call in s.inFlight && s.inFlight[call].snapshot.Removed?
    ensures var row := s.inFlight[call].snapshot.row; row in page && row !in s.items
  {
    var row := s.inFlight[call].snapshot.row;
    HeldAtLeast(s.inFlight, s.next, call, row);
    assert Occurrences(s, row) == multiset(page)[row];
    DistinctIdsDistinctRows(page);
    DistinctOccurOnce(page, row);
    assert multiset(s.items)[row] == 0;
  }

  // On a page with distinct ids, different rows have different positions.
  lemma PositionsDiffer(page: seq<Row>, a: Row, b: Row)
    requires DistinctIds(page) && a in page && b in page && a != b
    ensures Precedes(page, a, b) <==> !Precedes(page, b, a)
  {
    var i :| 0 <= i < |page| && page[i] == a;
    var j :| 0 <= j < |page| && page[j] == b;
    assert page[Position(page, a)].id == a.id && page[Position(page, b)].id == b.id;
  }

  lemma TailInOrder(page: seq<Row>, items: seq<Row>)
    requires InOrder(page, items) && items != []
    ensures InOrder(page, items[1..])
  {
    hide Precedes;
    forall i, j | 0 <= i < j < |items| - 1 ensures Precedes(page, items[1..][i], items[1..][j]) {
      assert items[1..][i] == items[i + 1] && items[1..][j] == items[j + 1];
    }
  }

  lemma {:induction false} CountIs(page: seq<Row>, items: seq<Row>, row: Row, n: nat)
    requires n <= |items|
    requires forall i :: 0 <= i < n ==> Precedes(page, items[i], row)
    requires forall i :: n <= i < |items| ==> !Precedes(page, items[i], row)
    ensures RowsBefore(page, items, row) == n
    decreases |items|
  {
    hide Precedes;
    if items != [] { CountIs(page, items[1..], row, if n > 0 then n - 1 else 0); }
  }

  // Of rows in order, the ones before the given row come first.
  lemma {:induction false} CountIsPrefix(page: seq<Row>, items: seq<Row>, row: Row, i: nat)
    requires InOrder(page, items) && i < |items|
    ensures Precedes(page, items[i], row) <==> i < RowsBefore(page, items, row)
    decreases i
  {
    hide InOrder;
    if Precedes(page, items[0], row) {
      if i > 0 {
        TailInOrder(page, items);
        CountIsPrefix(page, items[1..], row, i - 1);
      }
    } else {
      forall k | 0 <= k < |items| ensures !Precedes(page, items[k], row) { LaterRow(page, items, k); }
      CountIs(page, items, row, 0);
    }
  }

  lemma LaterRow(page: seq<Row>, items: seq<Row>, k: nat)
    requires InOrder(page, items) && k < |items|
    ensures k > 0 ==> Precedes(page, items[0], items[k])
  {
  }

  lemma InsertionInOrder(page: seq<Row>, items: seq<Row>, at: nat, row: Row)
    requires at <= |items| && InOrder(page, items)
    requires forall i :: 0 <= i < at ==> Precedes(page, items[i], row)
    requires forall i :: at <= i < |items| ==> Precedes(page, row, items[i])
    ensures InOrder(page, InsertAt(items, at, row))
  {
    hide Precedes;
    var r := InsertAt(items, at, row);
    forall k | 0 <= k < |r| ensures r[k] == if k < at then items[k] else if k == at then row else items[k - 1] {
      InsertAtAt(items, at, row, k);
    }
  }

  lemma OrderedInsertion(page: seq<Row>, items: seq<Row>, at: nat, row: Row)
    requires at <= |items| && InOrder(page, InsertAt(items, at, row))
    ensures InOrder(page, items)
    ensures forall i :: 0 <= i < at ==> Precedes(page, items[i], row)
    ensures forall i :: at <= i < |items| ==> Precedes(page, row, items[i])
  {
    hide Precedes;
    var r := InsertAt(items, at, row);
    assert r[at] == row;
    forall i | 0 <= i < |items| ensures items[i] == r[if i < at then i else i + 1] {
      InsertAtAt(items, at, row, if i < at then i else i + 1);
    }
  }

  // A row of the page put among others of its rows: they are in order afterwards exactly
  // when they were before and it went behind as many rows as precede it on the page.
  lemma SlotIff(page: seq<Row>, items: seq<Row>, at: nat, row: Row)
    requires at <= |items| && DistinctIds(page) && row in page && row !in items
    requires forall i :: 0 <= i < |items| ==> items[i] in page
    ensures InOrder(page, InsertAt(items, at, row)) <==> InOrder(page, items) && at == RowsBefore(page, items, row)
  {
    hide InOrder, InsertAt, RowsBefore, Precedes, DistinctIds;
    forall i | 0 <= i < |items| ensures Precedes(page, items[i], row) <==> !Precedes(page, row, items[i]) {
      PositionsDiffer(page, items[i], row);
    }
    if InOrder(page, InsertAt(items, at, row)) {
      OrderedInsertion(page, items, at, row);
      CountIs(page, items, row, at);
    }
    if InOrder(page, items) && at == RowsBefore(page, items, row) {
      forall i | 0 <= i < |items| ensures Precedes(page, items[i], row) <==> i < at {
        CountIsPrefix(page, items, row, i);
      }
      InsertionInOrder(page, items, at, row);
    }
  }

  // If the event puts a row back, the index it was removed from, capped by the length of
  // the list, is the number of shown rows that precede it on the loaded page.
  predicate SlotRight(page: seq<Row>, s: State, e: Event) {
    e.Fail? && e.call in s.inFlight && s.inFlight[e.call].snapshot.Removed? ==>
      var c := s.inFlight[e.call].snapshot;
      Min(c.index, |s.items|) == RowsBefore(page, s.items, c.row)
  }

  predicate SlotsRight(page: seq<Row>, s: State, events: seq<Event>)
    decreases |events|
  {
    events != [] ==> SlotRight(page, s, events[0]) && SlotsRight(page, Step(s, events[0]), events[1..])
  }

  // In order now and after every event.
  ghost predicate StaysInOrder(page: seq<Row>, s: State, events: seq<Event>)
    decreases |events|
  {
    InOrder(page, s.items) && (events != [] ==> StaysInOrder(page, Step(s, events[0]), events[1..]))
  }

  lemma SettledOrderIff(page: seq<Row>, s: State, e: Event)
    requires DistinctIds(page) && Known(page, s) && !e.Start?
    ensures InOrder(page, Step(s, e).items) <==> InOrder(page, s.items) && SlotRight(page, s, e)
  {
    hide InOrder, Known, DistinctIds, RowsBefore, InsertAt;
    if e.Fail? && e.call in s.inFlight && s.inFlight[e.call].snapshot.Removed? {
      var c := s.inFlight[e.call].snapshot;
      HeldRow(page, s, e.call);
      forall i | 0 <= i < |s.items| ensures s.items[i] in page { ShownRow(page, s, i); }
      SlotIff(page, s.items, Min(c.index, |s.items|), c.row);
    }
  }

  lemma StartKeepsOrder(page: seq<Row>, s: State, id: Id)
    requires InOrder(page, s.items)
    ensures InOrder(page, Step(s, Start(id)).items)
  {
    hide Precedes;
    var t, i := Step(s, Start(id)), FindIndex(s.items, id);
    if i < |s.items| {
      forall k | 0 <= k < |t.items| ensures t.items[k] == s.items[if k < i then k else k + 1] {
        RemoveAtAt(s.items, i, k);
      }
    }
  }

  // One failed retry anywhere in any run: whatever was started, has succeeded or has
  // failed before, in whatever order, the list is in page order afterwards exactly when it
  // was before and the clamped index is the number of shown rows that precede the row.
  lemma FailKeepsOrderIff(page: seq<Row>, events: seq<Event>, call: nat)
    requires DistinctIds(page)
    ensures var s := RunFrom(Loaded(page), events);
            InOrder(page, Step(s, Fail(call)).items) <==> InOrder(page, s.items) && SlotRight(page, s, Fail(call))
  {
    hide Step, InOrder, SlotRight, Known;
    LoadedIsKnown(page);
    RunKeepsKnown(page, Loaded(page), events);
    SettledOrderIff(page, RunFrom(Loaded(page), events), Fail(call));
  }

  lemma {:induction false} RunKeepsKnown(page: seq<Row>, s: State, events: seq<Event>)
    requires Known(page, s)
    ensures Known(page, RunFrom(s, events))
    decreases |events|
  {
    hide Step, Known;
    if events != [] {
      StepKeepsKnown(page, s, events[0]);
      RunKeepsKnown(page, Step(s, events[0]), events[1..]);
    }
  }

  lemma {:induction false} StaysInOrderFromIff(page: seq<Row>, s: State, events: seq<Event>)
    requires DistinctIds(page) && Known(page, s)
    ensures StaysInOrder(page, s, events) <==> InOrder(page, s.items) && SlotsRight(page, s, events)
    decreases |events|
  {
    hide Step, InOrder, SlotRight, Known;
    if events != [] {
      var e := events[0];
      StepKeepsKnown(page, s, e);
      StaysInOrderFromIff(page, Step(s, e), events[1..]);
      if e.Start? {
        if InOrder(page, s.items) { StartKeepsOrder(page, s, e.id); }
        StartPutsNothingBack(page, s, e);
      } else {
        SettledOrderIff(page, s, e);
      }
    }
  }

  lemma StartPutsNothingBack(page: seq<Row>, s: State, e: Event)
    requires e.Start?
    ensures SlotRight(page, s, e)
  {
  }

  lemma LoadedInOrder(page: seq<Row>)
    requires DistinctIds(page)
    ensures InOrder(page, page)
    ensures forall i :: 0 <= i < |page| ==> Position(page, page[i]) == i
  {
  }

  // A whole run, with any number of overlapping calls: the list is in page order
  // throughout exactly when every failure finds its row's slot.
  lemma StaysInOrderIff(page: seq<Row>, events: seq<Event>)
    requires DistinctIds(page)
    ensures StaysInOrder(page, Loaded(page), events) <==> SlotsRight(page, Loaded(page), events)
  {
    hide InOrder, SlotsRight, StaysInOrder, Known;
    LoadedIsKnown(page);
    LoadedInOrder(page);
    StaysInOrderFromIff(page, Loaded(page), events);
  }

  // ---------- The list after all calls have settled ----------

  // The loaded rows but for those that were requeued.
  function Remaining(page: seq<Row>, requeued: seq<Row>): seq<Row> {
    if page == [] then []
    else (if page[0] in requeued then [] else [page[0]]) + Remaining(page[1..], requeued)
  }

  lemma {:induction false} RemainingRows(page: seq<Row>, requeued: seq<Row>, row: Row)
    ensures multiset(Remaining(page, requeued))[row] == if row in requeued then 0 else multiset(page)[row]
  {
    if page != [] {
      RemainingRows(page[1..], requeued, row);
      assert page == [page[0]] + page[1..];
    }
  }

  lemma {:induction false} RemainingAreFrom(page: seq<Row>, requeued: seq<Row>, row: Row)
    requires row in Remaining(page, requeued)
    ensures row in page
  {
    RemainingRows(page, requeued, row);
    assert row in multiset(page);
  }

  lemma {:induction false} RemainingInOrder(page: seq<Row>, tail: seq<Row>, requeued: seq<Row>)
    requires InOrder(page, tail)
    ensures InOrder(page, Remaining(tail, requeued))
    decreases |tail|
  {
    if tail != [] {
      hide Precedes;
      TailInOrder(page, tail);
      RemainingInOrder(page, tail[1..], requeued);
      var rest := Remaining(tail[1..], requeued);
      forall k | 0 <= k < |rest| ensures Precedes(page, tail[0], rest[k]) {
        RemainingAreFrom(tail[1..], requeued, rest[k]);
        var m :| 0 <= m < |tail[1..]| && tail[1..][m] == rest[k];
        assert tail[m + 1] == rest[k];
      }
    }
  }

  // The same rows in page order are the same list.
  lemma {:induction false} OrderDetermines(page: seq<Row>, a: seq<Row>, b: seq<Row>)
    requires InOrder(page, a) && InOrder(page, b) && multiset(a) == multiset(b)
    ensures a == b
    decreases |a|
  {
    assert |multiset(a)| == |multiset(b)|;
    if a != [] {
      SameFirst(page, a, b);
      SplitFirst(a);
      SplitFirst(b);
      SameRemainder(multiset(a[1..]), multiset(b[1..]), a[0]);
      TailInOrder(page, a);
      TailInOrder(page, b);
      hide InOrder;
      OrderDetermines(page, a[1..], b[1..]);
      assert a == [a[0]] + a[1..] && b == [b[0]] + b[1..];
    }
  }

  lemma SplitFirst(a: seq<Row>)
    requires a != []
    ensures multiset(a[1..]) + multiset{a[0]} == multiset(a)
  {
    RemoveAtMembers(a, 0);
    assert RemoveAt(a, 0) == a[1..];
  }

  lemma SameFirst(page: seq<Row>, a: seq<Row>, b: seq<Row>)
    requires InOrder(page, a) && InOrder(page, b) && multiset(a) == multiset(b) && a != [] && b != []
    ensures a[0] == b[0]
  {
    assert a[0] in multiset(b) && b[0] in multiset(a);
    var i :| 0 <= i < |b| && b[i] == a[0];
    var j :| 0 <= j < |a| && a[j] == b[0];
    LaterRow(page, b, i);
    LaterRow(page, a, j);
  }

  lemma SettledRows(page: seq<Row>, s: State)
    requires Known(page, s) && DistinctIds(page) && s.inFlight == map[]
    ensures multiset(s.items) == multiset(Remaining(page, s.requeued))
  {
    var rest := Remaining(page, s.requeued);
    DistinctIdsDistinctRows(page);
    forall row ensures multiset(s.items)[row] == multiset(rest)[row] {
      NothingHeld(s.next, row);
      assert Occurrences(s, row) == multiset(page)[row];
      DistinctOccurOnce(page, row);
      RemainingRows(page, s.requeued, row);
      assert row in s.requeued <==> multiset(s.requeued)[row] >= 1;
    }
  }

  // Once no call is in flight, the list is exactly the loaded rows that were not requeued,
  // in their old places, if and only if it is in page order.
  lemma SettledListIff(page: seq<Row>, s: State)
    requires Known(page, s) && DistinctIds(page) && s.inFlight == map[]
    ensures s.items == Remaining(page, s.requeued) <==> InOrder(page, s.items)
  {
    hide InOrder, Known;
    SettledRows(page, s);
    LoadedInOrder(page);
    RemainingInOrder(page, page, s.requeued);
    if InOrder(page, s.items) { OrderDetermines(page, s.items, Remaining(page, s.requeued)); }
  }

  ghost predicate NoStarts(events: seq<Event>) { forall i :: 0 <= i < |events| ==> !events[i].Start? }

  // Successes and failures never repair the order.
  lemma {:induction false} SettlingOrderIff(page: seq<Row>, s: State, events: seq<Event>)
    requires DistinctIds(page) && Known(page, s) && NoStarts(events)
    ensures InOrder(page, RunFrom(s, events).items) <==> InOrder(page, s.items) && SlotsRight(page, s, events)
    decreases |events|
  {
    hide Step, InOrder, SlotRight, Known;
    if events != [] {
      StepKeepsKnown(page, s, events[0]);
      SettledOrderIff(page, s, events[0]);
      SettlingOrderIff(page, Step(s, events[0]), events[1..]);
    }
  }

  lemma {:induction false} StartsKeepOrder(page: seq<Row>, s: State, ids: seq<Id>)
    requires InOrder(page, s.items) && Known(page, s)
    ensures InOrder(page, RunFrom(s, StartAll(ids)).items) && Known(page, RunFrom(s, StartAll(ids)))
    decreases |ids|
  {
    hide Step, InOrder, Known;
    if ids != [] {
      StartKeepsOrder(page, s, ids[0]);
      StepKeepsKnown(page, s, Start(ids[0]));
      StartsKeepOrder(page, Step(s, Start(ids[0])), ids[1..]);
      assert StartAll(ids)[1..] == StartAll(ids[1..]);
    }
  }

  lemma StartedInOrder(page: seq<Row>, ids: seq<Id>)
    requires DistinctIds(page)
    ensures InOrder(page, RunFrom(Loaded(page), StartAll(ids)).items)
  {
    hide InOrder, Known;
    LoadedIsKnown(page);
    LoadedInOrder(page);
    StartsKeepOrder(page, Loaded(page), ids);
  }

  // Any run, cut after its last start, in which every call settles, in any order and with
  // any outcomes: the list ends up as the loaded page without the requeued rows, every row
  // in its old place, exactly when it was in order at the cut and every failure after it
  // finds its row's slot.
  lemma SettlementRestoresIff(page: seq<Row>, events: seq<Event>, settling: seq<Event>)
    requires DistinctIds(page) && NoStarts(settling)
    requires RunFrom(Loaded(page), events + settling).inFlight == map[]
    ensures var cut := RunFrom(Loaded(page), events);
            var s := RunFrom(Loaded(page), events + settling);
            s.items == Remaining(page, s.requeued) <==> InOrder(page, cut.items) && SlotsRight(page, cut, settling)
  {
    hide RunFrom, InOrder, Known, SlotsRight, NoStarts;
    var cut := RunFrom(Loaded(page), events);
    LoadedIsKnown(page);
    RunKeepsKnown(page, Loaded(page), events);
    RunConcat(Loaded(page), events, settling);
    SettlingOrderIff(page, cut, settling);
    RunKeepsKnown(page, cut, settling);
    SettledListIff(page, RunFrom(cut, settling));
  }

  // ---------- Two overlapping retries ----------

  lemma {:induction false} InsertionCounts(page: seq<Row>, items: seq<Row>, at: nat, x: Row, row: Row)
    requires at <= |items|
    ensures RowsBefore(page, InsertAt(items, at, x), row)
         == RowsBefore(page, items, row) + if Precedes(page, x, row) then 1 else 0
    decreases at
  {
    hide Precedes;
    var r := InsertAt(items, at, x);
    if at == 0 {
      assert r == [x] + items && r[1..] == items;
    } else {
      InsertionCounts(page, items[1..], at - 1, x, row);
      assert r[0] == items[0] && r[1..] == InsertAt(items[1..], at - 1, x);
    }
  }

  lemma RemovalCounts(page: seq<Row>, items: seq<Row>, at: nat, row: Row)
    requires at < |items|
    ensures RowsBefore(page, RemoveAt(items, at), row)
         == RowsBefore(page, items, row) - if Precedes(page, items[at], row) then 1 else 0
  {
    hide RemoveAt, InsertAt;
    InsertionCounts(page, RemoveAt(items, at), at, items[at], row);
    InsertUndoesRemove(items, at);
  }

  // On the loaded page itself the count is the index.
  lemma PageCounts(page: seq<Row>, i: nat)
    requires DistinctIds(page) && i < |page|
    ensures RowsBefore(page, page, page[i]) == i
    ensures forall j :: 0 <= j < |page| ==> (Precedes(page, page[j], page[i]) <==> j < i)
  {
    LoadedInOrder(page);
    CountIs(page, page, page[i], i);
  }

  // The state after retries of the rows at i and j, both still in flight.
  ghost predicate TwoStarted(page: seq<Row>, i: nat, j: nat, s: State)
    requires i < |page| && j < |page| && i != j
  {
    var j' := if j < i then j else j - 1;
    && s.items == RemoveAt(RemoveAt(page, i), j') && s.requeued == []
    && s.inFlight == map[0 := Call(page[i].id, Removed(page[i], i)), 1 := Call(page[j].id, Removed(page[j], j'))]
  }

  lemma StartTwo(page: seq<Row>, i: nat, j: nat)
    requires i < |page| && j < |page| && i != j && DistinctIds(page)
    ensures TwoStarted(page, i, j, RunFrom(Loaded(page), StartAll([page[i].id, page[j].id])))
  {
    var j' := if j < i then j else j - 1;
    var without := RemoveAt(page, i);
    var starts := [Start(page[i].id), Start(page[j].id)];
    assert FindIndex(page, page[i].id) == i;
    assert without[j'] == page[j];
    assert FindIndex(without, page[j].id) == j';
    StartAllTwo(page[i].id, page[j].id);
    RunTwo(Loaded(page), starts[0], starts[1]);
  }

  lemma StartAllTwo(a: Id, b: Id)
    ensures StartAll([a, b]) == [Start(a), Start(b)]
  {
    assert [a, b][1..] == [b] && [b][1..] == [];
    assert StartAll([b]) == [Start(b)] + StartAll([]);
  }

  lemma RunTwo(s: State, d: Event, e: Event)
    ensures RunFrom(s, [d, e]) == Step(Step(s, d), e)
  {
    hide Step;
    assert [d, e][1..] == [e];
    RunOne(Step(s, d), e);
  }

  lemma SlotsRightTwo(page: seq<Row>, s: State, d: Event, e: Event)
    ensures SlotsRight(page, s, [d, e]) <==> SlotRight(page, s, d) && SlotRight(page, Step(s, d), e)
  {
    hide Step, SlotRight;
    var t := Step(s, d);
    assert [d, e][1..] == [e] && [e][1..] == [];
    assert SlotsRight(page, t, [e]) <==> SlotRight(page, t, e) && SlotsRight(page, Step(t, e), []);
  }

  lemma TwoStartedCounts(page: seq<Row>, i: nat, j: nat, s: State)
    requires i < |page| && j < |page| && i != j && DistinctIds(page) && TwoStarted(page, i, j, s)
    ensures |s.items| == |page| - 2
    ensures RowsBefore(page, s.items, page[i]) == if j < i then i - 1 else i
    ensures RowsBefore(page, s.items, page[j]) == if i < j then j - 1 else j
  {
    hide RowsBefore, Precedes, DistinctIds;
    var j' := if j < i then j else j - 1;
    var without := RemoveAt(page, i);
    assert without[j'] == page[j];
    hide RemoveAt;
    PageCounts(page, i);
    PageCounts(page, j);
    RemovalCounts(page, page, i, page[i]);
    RemovalCounts(page, page, i, page[j]);
    RemovalCounts(page, without, j', page[i]);
    RemovalCounts(page, without, j', page[j]);
  }

  // The first row started finds its slot while the second is out of the list exactly when
  // the second stood behind it or it was the last row.
  lemma FirstSlotIff(page: seq<Row>, i: nat, j: nat, s: State)
    requires i < |page| && j < |page| && i != j && DistinctIds(page) && TwoStarted(page, i, j, s)
    ensures SlotRight(page, s, Fail(0)) <==> i < j || i == |page| - 1
  {
    TwoStartedCounts(page, i, j, s);
    hide RowsBefore, DistinctIds, RemoveAt;
  }

  // After the first has failed, the second finds its slot exactly when it stood before it.
  lemma SecondSlotIff(page: seq<Row>, i: nat, j: nat, s: State)
    requires i < |page| && j < |page| && i != j && DistinctIds(page) && TwoStarted(page, i, j, s)
    ensures SlotRight(page, Step(s, Fail(0)), Fail(1)) <==> j < i
  {
    TwoStartedCounts(page, i, j, s);
    PageCounts(page, j);
    var at := Min(i, |s.items|);
    InsertionCounts(page, s.items, at, page[i], page[j]);
    hide RowsBefore, DistinctIds, RemoveAt, InsertAt, Precedes;
    assert Step(s, Fail(0)).items == InsertAt(s.items, at, page[i]);
    assert Step(s, Fail(0)).inFlight[1] == s.inFlight[1];
  }

  lemma {:induction false} NoneRequeued(page: seq<Row>)
    ensures Remaining(page, []) == page
  {
    if page != [] { NoneRequeued(page[1..]); }
  }

  // Two overlapping retries that both fail in start order restore the list exactly when
  // the first was started on the last row.
  lemma StartOrderRestoresIff(page: seq<Row>, i: nat, j: nat)
    requires i < |page| && j < |page| && i != j && DistinctIds(page)
    ensures RunFrom(Loaded(page), StartAll([page[i].id, page[j].id]) + [Fail(0), Fail(1)]).items == page
            <==> i == |page| - 1
  {
    hide Step, RunFrom, StartAll, SlotsRight, SlotRight, Remaining, InOrder, TwoStarted, DistinctIds;
    var ids := [page[i].id, page[j].id];
    var s := RunFrom(Loaded(page), StartAll(ids));
    StartTwo(page, i, j);
    RunConcat(Loaded(page), StartAll(ids), [Fail(0), Fail(1)]);
    RunTwo(s, Fail(0), Fail(1));
    BothSettled(page, i, j, s, Fail(0), Fail(1));
    NoneRequeued(page);
    StartedInOrder(page, ids);
    SettlementRestoresIff(page, StartAll(ids), [Fail(0), Fail(1)]);
    SlotsRightTwo(page, s, Fail(0), Fail(1));
    FirstSlotIff(page, i, j, s);
    SecondSlotIff(page, i, j, s);
  }

  // If the second succeeds before the first fails, the first is put back in its place
  // exactly when the second stood behind it or it was the last row.
  lemma FailAfterSuccessIff(page: seq<Row>, i: nat, j: nat)
    requires i < |page| && j < |page| && i != j && DistinctIds(page)
    ensures RunFrom(Loaded(page), StartAll([page[i].id, page[j].id]) + [Succeed(1), Fail(0)]).items
            == Remaining(page, [page[j]])
            <==> i < j || i == |page| - 1
  {
    hide Step, RunFrom, StartAll, SlotsRight, SlotRight, Remaining, InOrder, TwoStarted, DistinctIds;
    var ids := [page[i].id, page[j].id];
    var s := RunFrom(Loaded(page), StartAll(ids));
    StartTwo(page, i, j);
    RunConcat(Loaded(page), StartAll(ids), [Succeed(1), Fail(0)]);
    RunTwo(s, Succeed(1), Fail(0));
    BothSettled(page, i, j, s, Succeed(1), Fail(0));
    StartedInOrder(page, ids);
    SettlementRestoresIff(page, StartAll(ids), [Succeed(1), Fail(0)]);
    SlotsRightTwo(page, s, Succeed(1), Fail(0));
    FirstSlotIff(page, i, j, s);
    SuccessKeepsSlot(page, s);
  }

  lemma SuccessKeepsSlot(page: seq<Row>, s: State)
    ensures SlotRight(page, s, Succeed(1))
    ensures SlotRight(page, Step(s, Succeed(1)), Fail(0)) <==> SlotRight(page, s, Fail(0))
  {
    hide RowsBefore;
  }

  lemma BothSettled(page: seq<Row>, i: nat, j: nat, s: State, d: Event, e: Event)
    requires i < |page| && j < |page| && i != j && TwoStarted(page, i, j, s)
    requires (d == Fail(0) && e == Fail(1)) || (d == Succeed(1) && e == Fail(0))
    ensures Step(Step(s, d), e).inFlight == map[]
    ensures Step(Step(s, d), e).requeued == if d.Succeed? then [page[j]] else []
  {
    hide Rollback, RemoveAt;
  }
}
