/** The audit of saved assignment evidence against a rebuild (canonical/reconciliation.py). */
module AssignmentIntegrity {
  import opened Prelude
  import opened EventAssignment
  import opened EventEvidence

  const STATUSES: set<string> := {ASSIGNED} + EXCLUSIONS

  datatype Summary = Summary(expected: nat, actual: nat, deleted: nat, unexpected: nat,
                             duplicates: nat, illegal: nat, errors: nat)

  ghost predicate CountsOf(rows: seq<Row>, counts: map<Row, nat>) {
    forall x :: multiset(rows)[x] == if x in counts then counts[x] else 0
  }

  method RowCounts(rows: seq<Row>) returns (counts: map<Row, nat>)
    ensures CountsOf(rows, counts)
  {
    counts := map[];
    for i := 0 to |rows|
      invariant CountsOf(rows[..i], counts)
    {
      assert rows[..i + 1] == rows[..i] + [rows[i]];
      var n := if rows[i] in counts then counts[rows[i]] else 0;
      counts := counts[rows[i] := n + 1];
    }
    assert rows[..|rows|] == rows;
  }

  /** The sum over the keys of `a` of how far `b` falls short. */
  method Shortfall(a: map<Row, nat>, b: map<Row, nat>, ghost rowsA: seq<Row>, ghost rowsB: seq<Row>) returns (n: nat)
    requires CountsOf(rowsA, a) && CountsOf(rowsB, b)
    ensures n == |multiset(rowsA) - multiset(rowsB)|
  {
    n := 0;
    var todo := a.Keys;
    ghost var total := multiset(rowsA) - multiset(rowsB);
    ghost var done: multiset<Row> := multiset{};
    while todo != {}
      invariant todo <= a.Keys
      invariant n == |done|
      invariant forall x :: done[x] == if x in a && x !in todo then total[x] else 0
      decreases |todo|
    {
      var k :| k in todo;
      var there := if k in b then b[k] else 0;
      var missing := if a[k] > there then a[k] - there else 0;
      assert total[k] == missing;
      n := n + missing;
      done := done[k := missing];
      todo := todo - {k};
    }
    assert done == total;
  }

  /** pandas' duplicated(): rows that already occurred above. */
  method DuplicateRows(rows: seq<Row>) returns (n: nat)
    ensures n == |rows| - |set x | x in rows|
  {
    n := 0;
    var seen: set<Row> := {};
    for i := 0 to |rows|
      invariant seen == set x | x in rows[..i]
      invariant n + |seen| == i
    {
      assert rows[..i + 1] == rows[..i] + [rows[i]];
      if rows[i] in seen {
        n := n + 1;
        assert seen + {rows[i]} == seen;
      }
      seen := seen + {rows[i]};
    }
    assert rows[..|rows|] == rows;
  }

  function IsIllegal(r: Row): bool { r.status !in STATUSES }

  method IllegalRows(rows: seq<Row>) returns (n: nat)
    ensures n == |Filter(IsIllegal, rows)|
  {
    n := 0;
    for i := 0 to |rows|
      invariant n == |Filter(IsIllegal, rows[..i])|
    {
      FilterNext(IsIllegal, rows, i);
      if rows[i].status !in STATUSES { n := n + 1; }
    }
    assert rows[..|rows|] == rows;
  }

  /** What the audit reports about saved rows, given the rows it rebuilt. */
  ghost function SummaryOf(expected: seq<Row>, saved: seq<Row>): Summary {
    var deleted := |multiset(expected) - multiset(saved)|;
    var unexpected := |multiset(saved) - multiset(expected)|;
    DistinctAtMost(saved);
    var duplicates := |saved| - |set x | x in saved|;
    var illegal := |Filter(IsIllegal, saved)|;
    Summary(|expected|, |saved|, deleted, unexpected, duplicates, illegal,
            deleted + unexpected + duplicates + illegal)
  }

  method AssignmentIntegritySummary(decisions: seq<Decision>, events: seq<Event>, saved: seq<Row>, windows: seq<Window>)
    returns (r: Result<Summary>)
    ensures r.Success? <==> Prepared(decisions) && windows != []
    ensures r.Success? ==> r.value == SummaryOf(AllRows(events, decisions, windows), saved)
  {
    hide AllRows;
    var built := BuildEventAssignments(decisions, events, windows);
    if built.Failure? {
      return Failure(built.error);
    }
    var expected := built.value;
    var expectedCounts := RowCounts(expected);
    var actualCounts := RowCounts(saved);
    var deleted := Shortfall(expectedCounts, actualCounts, expected, saved);
    var unexpected := Shortfall(actualCounts, expectedCounts, saved, expected);
    var duplicates := DuplicateRows(saved);
    var illegal := IllegalRows(saved);
    assert |expected| == |multiset(expected)| == |multiset(AllRows(events, decisions, windows))|;
    return Success(Summary(|expected|, |saved|, deleted, unexpected, duplicates, illegal,
                           deleted + unexpected + duplicates + illegal));
  }

  // ----- what the counters mean -----

  lemma NoDifference<T(!new)>(a: multiset<T>, b: multiset<T>)
    ensures |a - b| == 0 && |b - a| == 0 <==> a == b
  {
    if |a - b| == 0 && |b - a| == 0 {
      forall x ensures a[x] == b[x] {
        assert (a - b)[x] == 0 && (b - a)[x] == 0;
      }
      assert a == b;
    }
  }

  lemma Difference<T>(a: multiset<T>, b: multiset<T>)
    ensures |a - b| - |b - a| == |a| - |b|
  {
    assert a == (a - b) + (a * b);
    assert b == (b - a) + (a * b);
  }

  lemma {:induction false} NoIllegal(rows: seq<Row>)
    ensures Filter(IsIllegal, rows) == [] <==> forall x :: x in rows ==> x.status in STATUSES
  {
    if Filter(IsIllegal, rows) == [] {
      forall x | x in rows ensures !IsIllegal(x) {
        FilterMember(IsIllegal, rows, x);
      }
    } else {
      var x := Filter(IsIllegal, rows)[0];
      FilterMember(IsIllegal, rows, x);
      assert IsIllegal(x);
    }
  }

  /** Integrity errors are zero exactly when the saved rows equal the rebuild as multisets, no row
      repeats and every status is legal; and what is unexpected less what is deleted is the
      difference in rows. */
  lemma CleanExactlyWhen(expected: seq<Row>, saved: seq<Row>)
    ensures SummaryOf(expected, saved).errors == 0 <==>
      && multiset(saved) == multiset(expected)
      && NoDuplicates(saved)
      && forall x :: x in saved ==> x.status in STATUSES
    ensures SummaryOf(expected, saved).unexpected - SummaryOf(expected, saved).deleted == |saved| - |expected|
  {
    hide STATUSES;
    NoDifference(multiset(saved), multiset(expected));
    Difference(multiset(saved), multiset(expected));
    DistinctAtMost(saved);
    NoIllegal(saved);
  }

  lemma NothingMissing(a: seq<Row>, b: seq<Row>)
    ensures |multiset(a) - multiset(b)| == 0 <==> multiset(a) <= multiset(b)
  {
    var rest := multiset(a) - multiset(b);
    if |rest| == 0 {
      forall x ensures multiset(a)[x] <= multiset(b)[x] {
        assert rest[x] == 0;
      }
    }
    if multiset(a) <= multiset(b) {
      assert rest == multiset{};
    }
  }

  /** A status is legal if and only if it is one of the six. */
  lemma LegalExactlyWhen(r: Row)
    ensures IsIllegal(r) <==>
      r.status !in {"assigned", "duplicate_event_id", "security_not_in_decisions", "invalid_availability", "no_future_decision",
                    "outside_all_windows"}
  {}

  /** Which counter is which: rows rebuilt, rows saved, rebuilt rows that are missing, saved rows that
      were not rebuilt, saved rows beyond the first of each kind, and saved rows with an illegal status. */
  lemma CountersAre(expected: seq<Row>, saved: seq<Row>)
    ensures
      var a := SummaryOf(expected, saved);
      && a.expected == |expected| && a.actual == |saved|
      && (a.deleted == 0 <==> multiset(expected) <= multiset(saved))
      && (a.unexpected == 0 <==> multiset(saved) <= multiset(expected))
      && a.deleted + |multiset(expected) * multiset(saved)| == |expected|
      && a.unexpected + |multiset(expected) * multiset(saved)| == |saved|
      && a.duplicates + |set x | x in saved| == |saved|
      && a.illegal == |Filter(IsIllegal, saved)|
      && a.errors == a.deleted + a.unexpected + a.duplicates + a.illegal
  {
    hide IsIllegal;
    NothingMissing(expected, saved);
    NothingMissing(saved, expected);
    var (e, f) := (multiset(expected), multiset(saved));
    assert e == (e - f) + (e * f);
    assert f == (f - e) + (e * f);
    assert |e| == |expected| && |f| == |saved|;
    DistinctAtMost(saved);
  }

  // ----- when a rebuild passes its own audit -----

  /** Two equal event rows that both follow an earlier row with their id: both are excluded as
      duplicates, and their exclusion rows are equal. */
  ghost predicate RepeatsDuplicate(events: seq<Event>) {
    exists i, j :: 0 <= i < j < |events| && events[i] == events[j] && HasId(events[..i], events[i].id)
  }

  ghost function DuplicatesOf(events: seq<Event>, e: Event): nat {
    if events == [] then 0
    else
      var n := |events| - 1;
      DuplicatesOf(events[..n], e) + (if events[n] == e && HasId(events[..n], e.id) then 1 else 0)
  }

  lemma OneEventsRows(e: Event, duplicate: bool, decisions: seq<Decision>, windows: seq<Window>, x: Row)
    requires x.status != ASSIGNED
    ensures multiset(EventRows(e, duplicate, decisions, windows))[x] <= 1
    ensures x in EventRows(e, duplicate, decisions, windows) ==> x == ExclusionRow(e, x.status)
    ensures x.status == DUPLICATE_EVENT_ID && x in EventRows(e, duplicate, decisions, windows) ==> duplicate
    ensures x.status != DUPLICATE_EVENT_ID && x in EventRows(e, duplicate, decisions, windows) ==> !duplicate
  {
    if !duplicate && AssignedRows(e, decisions, windows) != [] {
      AssignedRowsMember(e, decisions, windows, x);
      assert x !in AssignedRows(e, decisions, windows);
    }
  }

  lemma {:induction false} FirstExclusionOnce(events: seq<Event>, decisions: seq<Decision>, windows: seq<Window>, x: Row)
    requires x.status != ASSIGNED && x.status != DUPLICATE_EVENT_ID
    ensures multiset(AllRows(events, decisions, windows))[x] <= 1
    ensures x in AllRows(events, decisions, windows) ==> HasId(events, x.eventId)
    decreases |events|
  {
    hide EventRows;
    if events != [] {
      var n := |events| - 1;
      var duplicate := HasId(events[..n], events[n].id);
      FirstExclusionOnce(events[..n], decisions, windows, x);
      OneEventsRows(events[n], duplicate, decisions, windows, x);
      if HasId(events[..n], x.eventId) {
        var i :| 0 <= i < n && events[..n][i].id == x.eventId;
        assert events[i].id == x.eventId;
      }
      assert events[n].id == x.eventId ==> HasId(events, x.eventId);
    }
  }

  lemma {:induction false} DuplicateMultiplicity(events: seq<Event>, decisions: seq<Decision>, windows: seq<Window>, e: Event)
    ensures multiset(AllRows(events, decisions, windows))[ExclusionRow(e, DUPLICATE_EVENT_ID)] == DuplicatesOf(events, e)
    decreases |events|
  {
    hide HasId, AssignedRows;
    if events != [] {
      var n := |events| - 1;
      var x := ExclusionRow(e, DUPLICATE_EVENT_ID);
      var duplicate := HasId(events[..n], events[n].id);
      DuplicateMultiplicity(events[..n], decisions, windows, e);
      OneEventsRows(events[n], duplicate, decisions, windows, x);
      var rows := EventRows(events[n], duplicate, decisions, windows);
      assert AllRows(events, decisions, windows) == AllRows(events[..n], decisions, windows) + rows;
      assert x in rows <==> events[n] == e && duplicate;
    }
  }

  ghost predicate DuplicateAt(events: seq<Event>, i: int, e: Event) {
    0 <= i < |events| && events[i] == e && HasId(events[..i], e.id)
  }

  lemma DuplicateInPrefix(events: seq<Event>, n: nat, i: int, e: Event)
    requires i < n <= |events|
    ensures DuplicateAt(events[..n], i, e) == DuplicateAt(events, i, e)
  {
    if 0 <= i {
      assert events[..n][..i] == events[..i];
    }
  }

  lemma {:induction false} CountsOne(events: seq<Event>, i: nat, e: Event)
    requires DuplicateAt(events, i, e)
    ensures DuplicatesOf(events, e) >= 1
    decreases |events|
  {
    var n := |events| - 1;
    if i < n {
      DuplicateInPrefix(events, n, i, e);
      CountsOne(events[..n], i, e);
    }
  }

  lemma {:induction false} CountsTwo(events: seq<Event>, i: nat, j: nat, e: Event)
    requires i < j && DuplicateAt(events, i, e) && DuplicateAt(events, j, e)
    ensures DuplicatesOf(events, e) >= 2
    decreases |events|
  {
    var n := |events| - 1;
    DuplicateInPrefix(events, n, i, e);
    if j < n {
      DuplicateInPrefix(events, n, j, e);
      CountsTwo(events[..n], i, j, e);
    } else {
      CountsOne(events[..n], i, e);
    }
  }

  lemma {:induction false} FindsOne(events: seq<Event>, e: Event) returns (i: nat)
    requires DuplicatesOf(events, e) >= 1
    ensures DuplicateAt(events, i, e)
    decreases |events|
  {
    var n := |events| - 1;
    if events[n] == e && HasId(events[..n], e.id) {
      i := n;
    } else {
      i := FindsOne(events[..n], e);
      DuplicateInPrefix(events, n, i, e);
    }
  }

  lemma {:induction false} FindsTwo(events: seq<Event>, e: Event) returns (i: nat, j: nat)
    requires DuplicatesOf(events, e) >= 2
    ensures i < j && DuplicateAt(events, i, e) && DuplicateAt(events, j, e)
    decreases |events|
  {
    var n := |events| - 1;
    if events[n] == e && HasId(events[..n], e.id) {
      i := FindsOne(events[..n], e);
      j := n;
      DuplicateInPrefix(events, n, i, e);
    } else {
      i, j := FindsTwo(events[..n], e);
      DuplicateInPrefix(events, n, i, e);
      DuplicateInPrefix(events, n, j, e);
    }
  }

  lemma TwoDuplicates(events: seq<Event>)
    ensures RepeatsDuplicate(events) <==> exists e :: DuplicatesOf(events, e) >= 2
  {
    if RepeatsDuplicate(events) {
      var i, j :| 0 <= i < j < |events| && events[i] == events[j] && HasId(events[..i], events[i].id);
      assert events[..j][..i] == events[..i];
      HasIdGrows(events[..j], i, events[i].id);
      CountsTwo(events, i, j, events[i]);
    }
    if e :| DuplicatesOf(events, e) >= 2 {
      var i, j := FindsTwo(events, e);
    }
  }

  lemma HasIdGrows(events: seq<Event>, i: nat, id: string)
    requires i <= |events| && HasId(events[..i], id)
    ensures HasId(events, id)
  {
    var k :| 0 <= k < |events[..i]| && events[..i][k].id == id;
    assert events[k].id == id;
  }

  lemma OnceEach<T(!new)>(s: seq<T>)
    ensures NoDuplicates(s) <==> forall x :: multiset(s)[x] <= 1
  {
    if NoDuplicates(s) {
      forall x ensures multiset(s)[x] <= 1 {
        AtMostOnce(s, x);
      }
    } else {
      var i, j :| 0 <= i < j < |s| && s[i] == s[j];
      assert s == s[..i] + [s[i]] + s[i + 1..j] + [s[j]] + s[j + 1..];
      assert multiset(s)[s[i]] >= 2;
    }
  }

  lemma {:induction false} AtMostOnce<T>(s: seq<T>, x: T)
    requires NoDuplicates(s)
    ensures multiset(s)[x] <= 1
  {
    if s != [] {
      var n := |s| - 1;
      AtMostOnce(s[..n], x);
      assert s == s[..n] + [s[n]];
      if x == s[n] {
        assert x !in s[..n];
        assert multiset(s[..n])[x] == 0;
      }
    }
  }

  lemma RebuildRowsDistinct(events: seq<Event>, decisions: seq<Decision>, windows: seq<Window>)
    requires DistinctIds(decisions) && DistinctNames(windows)
    ensures NoDuplicates(AllRows(events, decisions, windows)) <==> !RepeatsDuplicate(events)
  {
    hide AllRows, RepeatsDuplicate, NoDuplicates;
    var all := AllRows(events, decisions, windows);
    OnceEach(all);
    TwoDuplicates(events);
    if RepeatsDuplicate(events) {
      var e :| DuplicatesOf(events, e) >= 2;
      DuplicateMultiplicity(events, decisions, windows, e);
    } else {
      forall x ensures multiset(all)[x] <= 1 {
        RebuildRowOnce(events, decisions, windows, x);
      }
    }
  }

  lemma RebuildRowOnce(events: seq<Event>, decisions: seq<Decision>, windows: seq<Window>, x: Row)
    requires DistinctIds(decisions) && DistinctNames(windows)
    requires forall e :: DuplicatesOf(events, e) < 2
    ensures multiset(AllRows(events, decisions, windows))[x] <= 1
  {
    hide AllRows;
    var all := AllRows(events, decisions, windows);
    if x.status == ASSIGNED {
      AssignedOnce(events, decisions, windows, x);
    } else if x.status != DUPLICATE_EVENT_ID {
      FirstExclusionOnce(events, decisions, windows, x);
    } else if x in all {
      var i := RowHasOrigin(events, decisions, windows, x);
      OneEventsRows(events[i], HasId(events[..i], events[i].id), decisions, windows, x);
      DuplicateMultiplicity(events, decisions, windows, events[i]);
    }
  }

  lemma RebuildStatusesLegal(events: seq<Event>, decisions: seq<Decision>, windows: seq<Window>, x: Row)
    requires x in AllRows(events, decisions, windows)
    ensures x.status in STATUSES
  {
    hide AllRows;
    var i := RowHasOrigin(events, decisions, windows, x);
    ExplainedExactlyOnce(events, i, decisions, windows);
  }

  /** A faithful copy of the rebuild passes the audit exactly when no two equal event rows both
      follow an earlier row with their id. (A table with such rows fails its own audit.) */
  lemma RebuildIsCleanExactlyWhen(events: seq<Event>, decisions: seq<Decision>, windows: seq<Window>, saved: seq<Row>)
    requires DistinctIds(decisions) && DistinctNames(windows)
    requires multiset(saved) == multiset(AllRows(events, decisions, windows))
    ensures SummaryOf(AllRows(events, decisions, windows), saved).errors == 0 <==> !RepeatsDuplicate(events)
  {
    hide AllRows, RepeatsDuplicate, SummaryOf, STATUSES;
    var all := AllRows(events, decisions, windows);
    CleanExactlyWhen(all, saved);
    RebuildRowsDistinct(events, decisions, windows);
    OnceEach(all);
    OnceEach(saved);
    SameMembers(saved, all);
    forall x | x in saved ensures x.status in STATUSES {
      RebuildStatusesLegal(events, decisions, windows, x);
    }
  }
}
