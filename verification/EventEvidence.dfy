/** What the assignment evidence of EventAssignment means: exactly the in-window triples are
    assigned, every event is explained once, and nothing is seen before it is available. */
module EventEvidence {
  import opened Prelude
  import opened EventAssignment

  ghost predicate Reaches(e: Event, decisions: seq<Decision>, windows: seq<Window>) {
    exists d, w :: d in decisions && w in windows && InWindow(e, d, w)
  }

  lemma AssignedRowsMember(e: Event, decisions: seq<Decision>, windows: seq<Window>, row: Row)
    ensures row in AssignedRows(e, decisions, windows)
      <==> exists d, w :: d in decisions && w in windows && InWindow(e, d, w) && row == AssignmentRow(e, d, w)
  {
    hide InWindow, AssignmentRow, AssignedRows, DecisionRows, PairRows;
    if row in AssignedRows(e, decisions, windows) {
      var d, w := SourceOfRow(e, decisions, windows, row);
    }
    if d, w :| d in decisions && w in windows && InWindow(e, d, w) && row == AssignmentRow(e, d, w) {
      SomethingAssigned(e, decisions, windows, d, w);
    }
  }

  lemma SourceOfRow(e: Event, decisions: seq<Decision>, windows: seq<Window>, row: Row) returns (d: Decision, w: Window)
    requires row in AssignedRows(e, decisions, windows)
    ensures d in decisions && w in windows && InWindow(e, d, w) && row == AssignmentRow(e, d, w)
  {
    hide InWindow, AssignmentRow;
    FlatMapMember(DecisionRows(e, windows), decisions, row);
    var i :| 0 <= i < |decisions| && row in DecisionRows(e, windows)(decisions[i]);
    d := decisions[i];
    FlatMapMember(PairRows(e, d), windows, row);
    var k :| 0 <= k < |windows| && row in PairRows(e, d)(windows[k]);
    w := windows[k];
  }

  /** Every event row yields either assigned rows or exactly one exclusion row, never both. */
  lemma ExplainedExactlyOnce(events: seq<Event>, i: nat, decisions: seq<Decision>, windows: seq<Window>)
    requires i < |events|
    ensures
      var e := events[i];
      var rows := EventRows(e, HasId(events[..i], e.id), decisions, windows);
      && (forall r :: r in rows ==> r.eventId == e.id)
      && (if First(events, i) && Reaches(e, decisions, windows)
          then rows != [] && forall r :: r in rows ==> r.status == ASSIGNED
          else |rows| == 1 && rows[0].status in EXCLUSIONS && rows[0].status != ASSIGNED)
  {
    var e := events[i];
    forall r | r in AssignedRows(e, decisions, windows)
      ensures r.eventId == e.id && r.status == ASSIGNED && Reaches(e, decisions, windows)
    {
      AssignedRowsMember(e, decisions, windows, r);
    }
    if AssignedRows(e, decisions, windows) != [] {
      assert AssignedRows(e, decisions, windows)[0] in AssignedRows(e, decisions, windows);
    }
    if Reaches(e, decisions, windows) {
      var d, w :| d in decisions && w in windows && InWindow(e, d, w);
      SomethingAssigned(e, decisions, windows, d, w);
    }
  }

  /** The row is recorded for event row `i`. */
  ghost predicate RowOf(events: seq<Event>, i: int, decisions: seq<Decision>, windows: seq<Window>, row: Row) {
    0 <= i < |events| && row in EventRows(events[i], HasId(events[..i], events[i].id), decisions, windows)
  }

  lemma RowOfPrefix(events: seq<Event>, n: nat, i: int, decisions: seq<Decision>, windows: seq<Window>, row: Row)
    requires n <= |events| && i < n
    ensures RowOf(events[..n], i, decisions, windows, row) == RowOf(events, i, decisions, windows, row)
  {
    if 0 <= i {
      assert events[..n][..i] == events[..i];
    }
  }

  lemma LastRowOf(events: seq<Event>, decisions: seq<Decision>, windows: seq<Window>, row: Row)
    requires events != []
    ensures
      var n := |events| - 1;
      row in AllRows(events, decisions, windows) <==>
      row in AllRows(events[..n], decisions, windows) || RowOf(events, n, decisions, windows, row)
  {
    hide EventRows, HasId;
  }

  lemma {:induction false} RowHasOrigin(events: seq<Event>, decisions: seq<Decision>, windows: seq<Window>, row: Row)
    returns (i: nat)
    requires row in AllRows(events, decisions, windows)
    ensures i < |events| && RowOf(events, i, decisions, windows, row)
    decreases |events|
  {
    hide RowOf;
    assert events != [];
    hide AllRows;
    var n := |events| - 1;
    LastRowOf(events, decisions, windows, row);
    if row in AllRows(events[..n], decisions, windows) {
      i := RowHasOrigin(events[..n], decisions, windows, row);
      RowOfPrefix(events, n, i, decisions, windows, row);
    } else {
      i := n;
    }
  }

  lemma {:induction false} OriginIsRecorded(events: seq<Event>, decisions: seq<Decision>, windows: seq<Window>, row: Row, i: nat)
    requires i < |events| && RowOf(events, i, decisions, windows, row)
    ensures row in AllRows(events, decisions, windows)
    decreases |events|
  {
    var n := |events| - 1;
    hide AllRows, RowOf;
    LastRowOf(events, decisions, windows, row);
    if i < n {
      RowOfPrefix(events, n, i, decisions, windows, row);
      OriginIsRecorded(events[..n], decisions, windows, row, i);
    }
  }

  /** The first row of its event id, a decision of its security, and a window that reaches back from
      the decision to the moment the event became available. */
  ghost predicate Triple(events: seq<Event>, decisions: seq<Decision>, windows: seq<Window>,
                         i: nat, d: Decision, w: Window)
  {
    && i < |events| && (forall j :: 0 <= j < i ==> events[j].id != events[i].id)
    && d in decisions && w in windows && d.security == events[i].security
    && events[i].available.Some? && 0 <= d.time - events[i].available.value <= w.length
  }

  /** The row carries the event's id, family, availability, sentiment and relevance, the decision's
      ticker, security, id and time, and the window's name and length in whole seconds. */
  ghost predicate IsAssignmentOf(row: Row, e: Event, d: Decision, w: Window) {
    && row.eventId == e.id && row.family == e.family && row.available == e.available
    && row.sentiment == e.sentiment && row.relevance == e.relevance
    && row.ticker == d.ticker && row.security == d.security && row.decisionId == d.id && row.decisionTime == Some(d.time)
    && row.windowName == w.name && row.status == "assigned"
    && (w.length >= 0 ==> row.windowSeconds * 1_000_000_000 <= w.length < (row.windowSeconds + 1) * 1_000_000_000)
    && (w.length < 0 ==> (row.windowSeconds - 1) * 1_000_000_000 < w.length <= row.windowSeconds * 1_000_000_000)
  }

  /** The row carries the excluded event as it is, its status, and nothing of a decision or window. */
  ghost predicate IsExclusionOf(row: Row, e: Event, status: string) {
    && row.eventId == e.id && row.ticker == e.ticker && row.security == e.security && row.family == e.family
    && row.available == e.available && row.sentiment == e.sentiment && row.relevance == e.relevance
    && row.status == status && row.decisionId == "" && row.decisionTime == None
    && row.windowName == "" && row.windowSeconds == 0
  }

  lemma RecordsAre(row: Row, e: Event, d: Decision, w: Window, status: string)
    ensures row == AssignmentRow(e, d, w) <==> IsAssignmentOf(row, e, d, w)
    ensures row == ExclusionRow(e, status) <==> IsExclusionOf(row, e, status)
  {}

  lemma FirstIs(events: seq<Event>, i: nat)
    requires i < |events|
    ensures First(events, i) <==> forall j :: 0 <= j < i ==> events[j].id != events[i].id
  {
    assert forall j :: 0 <= j < i ==> events[..i][j] == events[j];
  }

  lemma InWindowIs(e: Event, d: Decision, w: Window)
    ensures InWindow(e, d, w) <==>
      d.security == e.security && e.available.Some? && 0 <= d.time - e.available.value <= w.length
  {}

  /** The assigned rows are exactly those of the triples. */
  lemma AssignedExactly(events: seq<Event>, decisions: seq<Decision>, windows: seq<Window>, row: Row)
    ensures row in AllRows(events, decisions, windows) && row.status == ASSIGNED
      <==> exists i: nat, d, w :: Triple(events, decisions, windows, i, d, w) && IsAssignmentOf(row, events[i], d, w)
  {
    hide AllRows, AssignedRows, InWindow, First, IsAssignmentOf, AssignmentRow, EventRows;
    if row in AllRows(events, decisions, windows) && row.status == ASSIGNED {
      var i, d, w := TripleOf(events, decisions, windows, row);
    }
    if i: nat, d, w :| Triple(events, decisions, windows, i, d, w) && IsAssignmentOf(row, events[i], d, w) {
      FirstIs(events, i);
      InWindowIs(events[i], d, w);
      RecordsAre(row, events[i], d, w, "");
      SomethingAssigned(events[i], decisions, windows, d, w);
      RowOfAssigned(events, i, decisions, windows, row);
      OriginIsRecorded(events, decisions, windows, row, i);
      AssignedStatus(events[i], d, w);
    }
  }

  lemma AssignedStatus(e: Event, d: Decision, w: Window)
    ensures AssignmentRow(e, d, w).status == ASSIGNED
  {}

  lemma RowOfAssigned(events: seq<Event>, i: nat, decisions: seq<Decision>, windows: seq<Window>, row: Row)
    requires i < |events| && First(events, i) && row in AssignedRows(events[i], decisions, windows)
    ensures RowOf(events, i, decisions, windows, row)
  {
    hide AssignedRows;
  }

  lemma TripleOf(events: seq<Event>, decisions: seq<Decision>, windows: seq<Window>, row: Row)
    returns (i: nat, d: Decision, w: Window)
    requires row in AllRows(events, decisions, windows) && row.status == ASSIGNED
    ensures Triple(events, decisions, windows, i, d, w) && row == AssignmentRow(events[i], d, w)
    ensures IsAssignmentOf(row, events[i], d, w)
  {
    hide AllRows, AssignedRows, InWindow, IsAssignmentOf, AssignmentRow;
    i := RowHasOrigin(events, decisions, windows, row);
    ExplainedExactlyOnce(events, i, decisions, windows);
    assert row in AssignedRows(events[i], decisions, windows);
    d, w := SourceOfRow(events[i], decisions, windows, row);
    FirstIs(events, i);
    InWindowIs(events[i], d, w);
    RecordsAre(row, events[i], d, w, "");
  }

  lemma RowsGiveTriple(events: seq<Event>, i: nat, decisions: seq<Decision>, windows: seq<Window>)
    returns (d: Decision, w: Window)
    requires i < |events| && First(events, i) && AssignedRows(events[i], decisions, windows) != []
    ensures Triple(events, decisions, windows, i, d, w)
  {
    hide AssignedRows, InWindow;
    d, w := SourceOfRow(events[i], decisions, windows, AssignedRows(events[i], decisions, windows)[0]);
    FirstIs(events, i);
    InWindowIs(events[i], d, w);
  }

  /** Why an event row is excluded, exactly: it repeats an id; else no decision has its security; else its
      availability is unknown; else every decision of its security is earlier; else none is within a
      window. The row says so and carries the event. */
  lemma ExclusionReasonExactly(events: seq<Event>, i: nat, decisions: seq<Decision>, windows: seq<Window>)
    requires i < |events|
    requires forall d, w :: !Triple(events, decisions, windows, i, d, w)
    ensures
      var e := events[i];
      var rows := EventRows(e, HasId(events[..i], e.id), decisions, windows);
      var first := forall j :: 0 <= j < i ==> events[j].id != e.id;
      var known := exists d :: d in decisions && d.security == e.security;
      var future := e.available.Some? && exists d :: d in decisions && d.security == e.security && d.time >= e.available.value;
      && |rows| == 1 && IsExclusionOf(rows[0], e, rows[0].status)
      && (rows[0].status == "duplicate_event_id" <==> !first)
      && (rows[0].status == "security_not_in_decisions" <==> first && !known)
      && (rows[0].status == "invalid_availability" <==> first && known && e.available == None)
      && (rows[0].status == "no_future_decision" <==> first && known && e.available.Some? && !future)
      && (rows[0].status == "outside_all_windows" <==> first && future)
  {
    hide AssignedRows, InWindow, AllRows;
    var e := events[i];
    FirstIs(events, i);
    if First(events, i) {
      if AssignedRows(e, decisions, windows) != [] {
        var d, w := RowsGiveTriple(events, i, decisions, windows);
      }
    }
  }

  // ----- the evidence of one decision and window -----

  function IsPair(decisionId: string, windowName: string): Row -> bool {
    (r: Row) => r.status == ASSIGNED && r.decisionId == decisionId && r.windowName == windowName
  }

  /** What decision `d` must see through window `w`: the first row of each event id that is in the window. */
  ghost function SeenRows(events: seq<Event>, d: Decision, w: Window): seq<Row> {
    if events == [] then []
    else
      var n := |events| - 1;
      SeenRows(events[..n], d, w)
        + (if First(events, n) && InWindow(events[n], d, w) then [AssignmentRow(events[n], d, w)] else [])
  }

  lemma PairOfDecision(e: Event, d: Decision, other: Decision, windows: seq<Window>, k: nat)
    requires k < |windows| && DistinctNames(windows)
    ensures
      var rows := Filter(IsPair(d.id, windows[k].name), DecisionRows(e, windows)(other));
      if other.id == d.id && InWindow(e, other, windows[k])
      then rows == [AssignmentRow(e, other, windows[k])] else rows == []
  {
    var p := IsPair(d.id, windows[k].name);
    var f := PairRows(e, other);
    forall j | 0 <= j < |windows| && j != k ensures Filter(p, f(windows[j])) == [] {
      FilterNone(p, f(windows[j]));
    }
    FilterFlatMap(p, f, windows, k);
    var here := f(windows[k]);
    assert Filter(p, here) == if here == [] then [] else (if p(here[0]) then [here[0]] else []) + Filter(p, here[1..]);
  }

  lemma PairOfEvent(e: Event, duplicate: bool, decisions: seq<Decision>, j: nat, windows: seq<Window>, k: nat)
    requires j < |decisions| && DistinctIds(decisions)
    requires k < |windows| && DistinctNames(windows)
    ensures
      var d, w := decisions[j], windows[k];
      Filter(IsPair(d.id, w.name), EventRows(e, duplicate, decisions, windows))
        == if !duplicate && InWindow(e, d, w) then [AssignmentRow(e, d, w)] else []
  {
    var d, w := decisions[j], windows[k];
    var p := IsPair(d.id, w.name);
    forall i | 0 <= i < |decisions| ensures i != j ==> Filter(p, DecisionRows(e, windows)(decisions[i])) == [] {
      PairOfDecision(e, d, decisions[i], windows, k);
    }
    FilterFlatMap(p, DecisionRows(e, windows), decisions, j);
    PairOfDecision(e, d, d, windows, k);
    var excluded := [ExclusionRow(e, Exclusion(e, duplicate, decisions))];
    FilterNone(p, excluded);
    if !duplicate && InWindow(e, d, w) {
      SomethingAssigned(e, decisions, windows, d, w);
    }
  }

  /** The rows recorded for a decision and a window are those the decision must see, in event order. */
  lemma {:induction false} PairEvidence(events: seq<Event>, decisions: seq<Decision>, j: nat, windows: seq<Window>, k: nat)
    requires j < |decisions| && DistinctIds(decisions)
    requires k < |windows| && DistinctNames(windows)
    ensures
      Filter(IsPair(decisions[j].id, windows[k].name), AllRows(events, decisions, windows))
        == SeenRows(events, decisions[j], windows[k])
    decreases |events|
  {
    hide EventRows, InWindow;
    if events != [] {
      var n := |events| - 1;
      var p := IsPair(decisions[j].id, windows[k].name);
      var duplicate := HasId(events[..n], events[n].id);
      PairEvidence(events[..n], decisions, j, windows, k);
      PairOfEvent(events[n], duplicate, decisions, j, windows, k);
      FilterConcat(p, AllRows(events[..n], decisions, windows), EventRows(events[n], duplicate, decisions, windows));
    }
  }

  // ----- no look-ahead -----

  ghost predicate DistinctEvents(events: seq<Event>) {
    forall i, j :: 0 <= i < j < |events| ==> events[i].id != events[j].id
  }

  function AvailableBy(time: int): Event -> bool {
    (e: Event) => e.available.Some? && e.available.value <= time
  }

  function SeenRow(d: Decision, w: Window): Event -> seq<Row> {
    e => if InWindow(e, d, w) then [AssignmentRow(e, d, w)] else []
  }

  lemma {:induction false} DistinctSeen(events: seq<Event>, d: Decision, w: Window)
    requires DistinctEvents(events)
    ensures SeenRows(events, d, w) == FlatMap(SeenRow(d, w), events)
  {
    if events != [] {
      var n := |events| - 1;
      DistinctSeen(events[..n], d, w);
      assert First(events, n);
      FlatMapNext(SeenRow(d, w), events, n);
      assert events[..n + 1] == events;
    }
  }

  lemma {:induction false} FilterKeepsDistinct(p: Event -> bool, events: seq<Event>)
    requires DistinctEvents(events)
    ensures DistinctEvents(Filter(p, events))
    ensures forall e :: e in Filter(p, events) ==> e in events
  {
    if events != [] {
      var rest := Filter(p, events[1..]);
      FilterKeepsDistinct(p, events[1..]);
      forall j | 0 <= j < |rest| ensures rest[j].id != events[0].id {
        assert rest[j] in events[1..];
      }
    }
  }

  /** With distinct event ids, nothing that becomes available after a decision affects what it sees. */
  lemma NoLookAhead(events: seq<Event>, d: Decision, w: Window)
    requires DistinctEvents(events)
    ensures SeenRows(events, d, w) == SeenRows(Filter(AvailableBy(d.time), events), d, w)
  {
    DistinctSeen(events, d, w);
    FilterKeepsDistinct(AvailableBy(d.time), events);
    DistinctSeen(Filter(AvailableBy(d.time), events), d, w);
    FlatMapSkips(SeenRow(d, w), AvailableBy(d.time), events);
  }

  /** Row `i` is the first with its id among those available by the decision, but not the first of
      all: an earlier row with its id becomes available only after the decision. */
  ghost predicate Hidden(events: seq<Event>, i: nat, time: int)
    requires i < |events|
  {
    !First(events, i) && !HasId(Filter(AvailableBy(time), events[..i]), events[i].id)
  }

  ghost predicate NoneHidden(events: seq<Event>, d: Decision, w: Window) {
    forall i :: 0 <= i < |events| && InWindow(events[i], d, w) ==> !Hidden(events, i, d.time)
  }

  lemma NoneHiddenNext(events: seq<Event>, d: Decision, w: Window)
    requires events != []
    ensures
      var n := |events| - 1;
      NoneHidden(events, d, w) <==> NoneHidden(events[..n], d, w) && (InWindow(events[n], d, w) ==> !Hidden(events, n, d.time))
  {
    hide InWindow;
    var n := |events| - 1;
    forall i | 0 <= i < n ensures events[..n][i] == events[i] && (Hidden(events[..n], i, d.time) <==> Hidden(events, i, d.time)) {
      assert events[..n][..i] == events[..i];
    }
  }

  lemma SeenNext(events: seq<Event>, e: Event, d: Decision, w: Window)
    ensures SeenRows(events + [e], d, w)
      == SeenRows(events, d, w) + (if !HasId(events, e.id) && InWindow(e, d, w) then [AssignmentRow(e, d, w)] else [])
  {
    assert (events + [e])[..|events|] == events;
  }

  lemma HasIdFiltered(p: Event -> bool, events: seq<Event>, id: string)
    requires HasId(Filter(p, events), id)
    ensures HasId(events, id)
  {
    var kept := Filter(p, events);
    var i :| 0 <= i < |kept| && kept[i].id == id;
    FilterMember(p, events, kept[i]);
    var j :| 0 <= j < |events| && events[j] == kept[i];
  }

  /** The exact condition, for tables with repeated ids too: what a decision sees is what it would
      see of the events available by then, if and only if no row in its window is hidden. */
  lemma {:induction false} NoLookAheadExactlyWhen(events: seq<Event>, d: Decision, w: Window)
    ensures
      var (seen, known) := (SeenRows(events, d, w), SeenRows(Filter(AvailableBy(d.time), events), d, w));
      && |seen| <= |known|
      && (|seen| == |known| <==> NoneHidden(events, d, w))
      && (seen == known <==> NoneHidden(events, d, w))
    decreases |events|
  {
    hide SeenRows, HasId, NoneHidden, AssignmentRow;
    var p := AvailableBy(d.time);
    if events == [] {
      NothingHidden(d, w);
    } else {
      var n := |events| - 1;
      var (before, e) := (events[..n], events[n]);
      NoLookAheadExactlyWhen(before, d, w);
      assert events == before + [e] && events[..n + 1] == events;
      FilterNext(p, events, n);
      NoneHiddenNext(events, d, w);
      SeenNext(before, e, d, w);
      if p(e) {
        SeenNext(Filter(p, before), e, d, w);
        if HasId(Filter(p, before), e.id) {
          HasIdFiltered(p, before, e.id);
        }
      } else {
        assert Filter(p, events) == Filter(p, before);
      }
    }
  }

  lemma NothingHidden(d: Decision, w: Window)
    ensures NoneHidden([], d, w) && SeenRows([], d, w) == [] && Filter(AvailableBy(d.time), []) == []
  {}

  /** Without distinct ids the future can matter: a later revision that comes first in the table takes the id,
      and the row that was available in time is dropped as a duplicate. */
  lemma LaterRevisionHidesEarlier()
    ensures
      var early := Event("x", "T", "s", "f", Some(0), None, None);
      var late := early.(available := Some(10));
      var d, w := Decision("d", "T", "s", 5), Window("w", 100);
      && SeenRows([late, early], d, w) == []
      && SeenRows(Filter(AvailableBy(d.time), [late, early]), d, w) == [AssignmentRow(early, d, w)]
  {
    var early := Event("x", "T", "s", "f", Some(0), None, None);
    var late := early.(available := Some(10));
    var d, w := Decision("d", "T", "s", 5), Window("w", 100);
    SeenOfTwo(late, early, d, w);
    SeenOfOne(early, d, w);
    FilterOfTwo(AvailableBy(5), late, early);
  }

  lemma FilterOfTwo(p: Event -> bool, a: Event, b: Event)
    requires !p(a) && p(b)
    ensures Filter(p, [a, b]) == [b]
  {
    assert [a, b][1..] == [b] && [b][1..] == [];
    assert Filter(p, [b]) == [b] + Filter(p, []);
  }

  lemma SeenOfOne(e: Event, d: Decision, w: Window)
    ensures SeenRows([e], d, w) == if InWindow(e, d, w) then [AssignmentRow(e, d, w)] else []
  {
    assert [e][..0] == [];
    assert First([e], 0);
    assert SeenRows([], d, w) == [];
  }

  lemma SeenOfTwo(a: Event, b: Event, d: Decision, w: Window)
    requires a.id == b.id && !InWindow(a, d, w)
    ensures SeenRows([a, b], d, w) == []
  {
    assert [a, b][..1] == [a];
    assert [a, b][..1][0].id == b.id;
    SeenOfOne(a, d, w);
  }

  // ----- no row twice -----

  lemma {:induction false} SeenRowsOnce(events: seq<Event>, d: Decision, w: Window, row: Row)
    ensures multiset(SeenRows(events, d, w))[row] <= 1
    ensures row in SeenRows(events, d, w) ==> HasId(events, row.eventId)
  {
    if events != [] {
      var n := |events| - 1;
      SeenRowsOnce(events[..n], d, w, row);
      if HasId(events[..n], row.eventId) {
        var i :| 0 <= i < |events[..n]| && events[..n][i].id == row.eventId;
        assert events[i].id == row.eventId;
      }
      assert events[n].id == row.eventId ==> HasId(events, row.eventId);
    }
  }

  /** No assigned row is recorded twice. */
  lemma AssignedOnce(events: seq<Event>, decisions: seq<Decision>, windows: seq<Window>, row: Row)
    requires DistinctIds(decisions) && DistinctNames(windows) && row.status == ASSIGNED
    ensures multiset(AllRows(events, decisions, windows))[row] <= 1
  {
    var all := AllRows(events, decisions, windows);
    if row in all {
      AssignedExactly(events, decisions, windows, row);
      var i, d, w := TripleOf(events, decisions, windows, row);
      var j :| 0 <= j < |decisions| && decisions[j] == d;
      var k :| 0 <= k < |windows| && windows[k] == w;
      PairEvidence(events, decisions, j, windows, k);
      FilterCount(IsPair(d.id, w.name), all, row);
      SeenRowsOnce(events, d, w, row);
    }
  }

  // ----- assignment ids -----

  /** The text whose hash is the assignment id of a row. */
  function AssignmentText(r: Row): string {
    if r.status == ASSIGNED then Joined(r.eventId, r.decisionId, r.windowName) else Joined(r.eventId, r.status, "excluded")
  }

  function Joined(first: string, second: string, third: string): string {
    first + ("|" + (second + ("|" + third)))
  }

  lemma BarAt(s: string, a: string, b: string)
    requires s == a + ("|" + b) && '|' !in b
    ensures |a| < |s| && s[|a|] == '|' && forall k :: |a| < k < |s| ==> s[k] != '|'
    ensures a == s[..|a|] && b == s[|a| + 1..]
  {
    forall k | |a| < k < |s| ensures s[k] != '|' {
      assert s[k] == b[k - |a| - 1];
    }
  }

  lemma LastBar(s: string, a: string, b: string, c: string, d: string)
    requires s == a + ("|" + b) && s == c + ("|" + d) && '|' !in b && '|' !in d
    ensures a == c && b == d
  {
    BarAt(s, a, b);
    BarAt(s, c, d);
  }

  /** The last two parts of a joined text can be told apart when they hold no bar themselves. */
  lemma JoinedIsTriple(a: string, b: string, c: string, d: string, e: string, f: string)
    requires '|' !in b && '|' !in c && '|' !in e && '|' !in f
    ensures Joined(a, b, c) == Joined(d, e, f) <==> a == d && b == e && c == f
  {
    if Joined(a, b, c) == Joined(d, e, f) {
      assert Joined(a, b, c) == (a + ("|" + b)) + ("|" + c);
      assert Joined(d, e, f) == (d + ("|" + e)) + ("|" + f);
      LastBar(Joined(a, b, c), a + ("|" + b), c, d + ("|" + e), f);
      LastBar(a + ("|" + b), a, b, d, e);
    }
  }

  ghost predicate NoBars(decisions: seq<Decision>, windows: seq<Window>) {
    (forall d :: d in decisions ==> '|' !in d.id) && (forall w :: w in windows ==> '|' !in w.name)
  }

  lemma SameTriple(events: seq<Event>, decisions: seq<Decision>, windows: seq<Window>, x: Row, y: Row)
    requires DistinctIds(decisions) && DistinctNames(windows)
    requires x in AllRows(events, decisions, windows) && y in AllRows(events, decisions, windows)
    requires x.status == ASSIGNED && y.status == ASSIGNED
    requires x.eventId == y.eventId && x.decisionId == y.decisionId && x.windowName == y.windowName
    ensures x == y
  {
    hide AllRows, InWindow;
    var i, d, w := TripleOf(events, decisions, windows, x);
    var j, e, v := TripleOf(events, decisions, windows, y);
    FirstIs(events, i);
    FirstIs(events, j);
    OneFirst(events, i, j);
    var k :| 0 <= k < |decisions| && decisions[k] == d;
    var l :| 0 <= l < |decisions| && decisions[l] == e;
    var m :| 0 <= m < |windows| && windows[m] == w;
    var n :| 0 <= n < |windows| && windows[n] == v;
  }

  lemma OneFirst(events: seq<Event>, i: nat, j: nat)
    requires i < |events| && j < |events| && First(events, i) && First(events, j) && events[i].id == events[j].id
    ensures i == j
  {}

  /** The id of an assigned row identifies it among the evidence, when decision ids and window names
      hold no bar. Ids of excluded rows are shared exactly by rows with one event id and status. */
  lemma AssignmentIdIdentifies(hash: string -> string, events: seq<Event>, decisions: seq<Decision>, windows: seq<Window>,
                               x: Row, y: Row)
    requires forall a, b :: hash(a) == hash(b) ==> a == b
    requires DistinctIds(decisions) && DistinctNames(windows) && NoBars(decisions, windows)
    requires x in AllRows(events, decisions, windows) && y in AllRows(events, decisions, windows)
    ensures x.status == ASSIGNED && y.status == ASSIGNED ==>
      (hash(AssignmentText(x)) == hash(AssignmentText(y)) <==> x == y)
    ensures x.status != ASSIGNED && y.status != ASSIGNED ==>
      (hash(AssignmentText(x)) == hash(AssignmentText(y)) <==> x.eventId == y.eventId && x.status == y.status)
  {
    hide AllRows, Joined;
    PartsHaveNoBars(events, decisions, windows, x);
    PartsHaveNoBars(events, decisions, windows, y);
    if x.status == ASSIGNED && y.status == ASSIGNED {
      JoinedIsTriple(x.eventId, x.decisionId, x.windowName, y.eventId, y.decisionId, y.windowName);
      if AssignmentText(x) == AssignmentText(y) {
        SameTriple(events, decisions, windows, x, y);
      }
    } else if x.status != ASSIGNED && y.status != ASSIGNED {
      JoinedIsTriple(x.eventId, x.status, "excluded", y.eventId, y.status, "excluded");
    }
  }

  lemma StatusesHaveNoBars()
    ensures '|' !in DUPLICATE_EVENT_ID && '|' !in SECURITY_NOT_IN_DECISIONS && '|' !in INVALID_AVAILABILITY
    ensures '|' !in NO_FUTURE_DECISION && '|' !in OUTSIDE_ALL_WINDOWS && '|' !in "excluded"
  {}

  lemma PartsHaveNoBars(events: seq<Event>, decisions: seq<Decision>, windows: seq<Window>, x: Row)
    requires NoBars(decisions, windows) && x in AllRows(events, decisions, windows)
    ensures x.status == ASSIGNED ==> '|' !in x.decisionId && '|' !in x.windowName
    ensures x.status != ASSIGNED ==> '|' !in x.status && '|' !in "excluded"
  {
    hide AllRows, EventRows, InWindow, First, HasId;
    if x.status == ASSIGNED {
      AssignedExactly(events, decisions, windows, x);
    } else {
      var i := RowHasOrigin(events, decisions, windows, x);
      ExplainedExactlyOnce(events, i, decisions, windows);
      StatusesHaveNoBars();
    }
  }

  // ----- the order of the artifact -----

  /** What the artifact's order means for any two rows, the earlier one first. */
  lemma EvidenceOrderMeans(rows: seq<Row>, i: nat, j: nat)
    requires SortedBy(EvidenceLeq, rows) && i < j < |rows|
    ensures TextLeq(rows[i].eventId, rows[j].eventId)
    ensures rows[i].eventId == rows[j].eventId ==> TextLeq(rows[i].status, rows[j].status)
    ensures rows[i].eventId == rows[j].eventId && rows[i].status == rows[j].status ==>
      && (rows[i].decisionTime == None ==> rows[j].decisionTime == None)
      && (rows[i].decisionTime.Some? && rows[j].decisionTime.Some? ==> rows[i].decisionTime.value <= rows[j].decisionTime.value)
      && (rows[i].decisionTime == rows[j].decisionTime ==> rows[i].windowSeconds <= rows[j].windowSeconds)
  {
    assert EvidenceLeq(rows[i], rows[j]);
    TextLeqTotal(rows[i].eventId, rows[j].eventId);
    TextLeqTotal(rows[i].status, rows[j].status);
  }
}
