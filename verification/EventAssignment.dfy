/** Assignment of news events to decisions and lookback windows (canonical/reconciliation.py).

    The all-pairs definition `AllRows` says what evidence a set of decisions, events and windows
    must produce; `BuildEventAssignments` computes it with one binary-search index per security.
    Times are integers (nanoseconds); tickers, security ids and families are already normalised,
    and a decision's `id` is its identity hash. */
module EventAssignment {
  import opened Prelude

  datatype Decision = Decision(id: string, ticker: string, security: string, time: int)

  datatype Event = Event(id: string, ticker: string, security: string, family: string,
                         available: Option<int>, sentiment: Option<real>, relevance: Option<real>)

  datatype Window = Window(name: string, length: int)

  datatype Row = Row(eventId: string, ticker: string, security: string, family: string,
                     available: Option<int>, decisionId: string, decisionTime: Option<int>,
                     windowName: string, windowSeconds: int, status: string,
                     sentiment: Option<real>, relevance: Option<real>)

  const ASSIGNED := "assigned"
  const DUPLICATE_EVENT_ID := "duplicate_event_id"
  const SECURITY_NOT_IN_DECISIONS := "security_not_in_decisions"
  const INVALID_AVAILABILITY := "invalid_availability"
  const NO_FUTURE_DECISION := "no_future_decision"
  const OUTSIDE_ALL_WINDOWS := "outside_all_windows"

  const EXCLUSIONS: set<string> := {DUPLICATE_EVENT_ID, SECURITY_NOT_IN_DECISIONS, INVALID_AVAILABILITY,
                                    NO_FUTURE_DECISION, OUTSIDE_ALL_WINDOWS}

  /** Whole seconds of a length in nanoseconds; Python's `int` truncates toward zero. */
  function WholeSeconds(length: int): int {
    if length >= 0 then length / 1_000_000_000 else -(-length / 1_000_000_000)
  }

  function AssignmentRow(e: Event, d: Decision, w: Window): Row {
    Row(e.id, d.ticker, d.security, e.family, e.available, d.id, Some(d.time),
        w.name, WholeSeconds(w.length), ASSIGNED, e.sentiment, e.relevance)
  }

  function ExclusionRow(e: Event, status: string): Row {
    Row(e.id, e.ticker, e.security, e.family, e.available, "", None, "", 0, status, e.sentiment, e.relevance)
  }

  // ----- the all-pairs definition -----

  /** The event was already available at the decision, and not longer ago than the window reaches. */
  predicate InWindow(e: Event, d: Decision, w: Window) {
    e.available.Some? && d.security == e.security && 0 <= d.time - e.available.value <= w.length
  }

  function PairRows(e: Event, d: Decision): Window -> seq<Row> {
    w => if InWindow(e, d, w) then [AssignmentRow(e, d, w)] else []
  }

  function DecisionRows(e: Event, windows: seq<Window>): Decision -> seq<Row> {
    d => FlatMap(PairRows(e, d), windows)
  }

  function AssignedRows(e: Event, decisions: seq<Decision>, windows: seq<Window>): seq<Row> {
    FlatMap(DecisionRows(e, windows), decisions)
  }

  ghost predicate HasSecurity(decisions: seq<Decision>, security: string) {
    exists d :: d in decisions && d.security == security
  }

  ghost predicate HasFuture(decisions: seq<Decision>, security: string, available: int) {
    exists d :: d in decisions && d.security == security && d.time >= available
  }

  /** Why an event is not assigned, in the order in which the reasons are tried. */
  ghost function Exclusion(e: Event, duplicate: bool, decisions: seq<Decision>): string {
    if duplicate then DUPLICATE_EVENT_ID
    else if !HasSecurity(decisions, e.security) then SECURITY_NOT_IN_DECISIONS
    else if e.available.None? then INVALID_AVAILABILITY
    else if !HasFuture(decisions, e.security, e.available.value) then NO_FUTURE_DECISION
    else OUTSIDE_ALL_WINDOWS
  }

  ghost function EventRows(e: Event, duplicate: bool, decisions: seq<Decision>, windows: seq<Window>): seq<Row> {
    if !duplicate && AssignedRows(e, decisions, windows) != []
    then AssignedRows(e, decisions, windows)
    else [ExclusionRow(e, Exclusion(e, duplicate, decisions))]
  }

  ghost predicate HasId(events: seq<Event>, id: string) {
    exists i :: 0 <= i < |events| && events[i].id == id
  }

  /** Position `i` holds the first event row with its id. */
  ghost predicate First(events: seq<Event>, i: nat)
    requires i < |events|
  {
    !HasId(events[..i], events[i].id)
  }

  ghost function AllRows(events: seq<Event>, decisions: seq<Decision>, windows: seq<Window>): seq<Row> {
    if events == [] then []
    else
      var n := |events| - 1;
      AllRows(events[..n], decisions, windows)
        + EventRows(events[n], HasId(events[..n], events[n].id), decisions, windows)
  }

  // ----- preparing decisions -----

  predicate DecisionLeq(a: Decision, b: Decision) {
    if a.security != b.security then TextLeq(a.security, b.security)
    else if a.time != b.time then a.time < b.time
    else TextLeq(a.id, b.id)
  }

  lemma DecisionOrder()
    ensures TotalPreorder(DecisionLeq)
  {
    forall a: Decision, b: Decision ensures DecisionLeq(a, b) || DecisionLeq(b, a) {
      TextLeqTotal(a.security, b.security);
      TextLeqTotal(a.id, b.id);
    }
    forall a: Decision, b: Decision, c: Decision | DecisionLeq(a, b) && DecisionLeq(b, c)
      ensures DecisionLeq(a, c)
    {
      DecisionLeqTransitive(a, b, c);
    }
  }

  lemma DecisionLeqTransitive(a: Decision, b: Decision, c: Decision)
    requires DecisionLeq(a, b) && DecisionLeq(b, c)
    ensures DecisionLeq(a, c)
  {
    TextLeqTotal(a.security, b.security);
    TextLeqTotal(b.security, c.security);
    if a.security != b.security || b.security != c.security {
      TextLeqTotal(a.security, c.security);
      if TextLeq(a.security, b.security) && TextLeq(b.security, c.security) {
        TextLeqTransitive(a.security, b.security, c.security);
      }
    } else if a.time == b.time == c.time {
      TextLeqTransitive(a.id, b.id, c.id);
    }
  }

  predicate DistinctIds(decisions: seq<Decision>) {
    forall i, j :: 0 <= i < j < |decisions| ==> decisions[i].id != decisions[j].id
  }

  predicate Prepared(decisions: seq<Decision>) {
    && (forall i :: 0 <= i < |decisions| ==> decisions[i].security != "")
    && DistinctIds(decisions)
  }

  /** Exactly the prepared decisions: none without a security, and as many ids as rows. */
  lemma PreparedExactlyWhen(decisions: seq<Decision>)
    ensures Prepared(decisions) <==>
      && (forall d :: d in decisions ==> d.security != "")
      && |set d | d in decisions :: d.id| == |decisions|
  {
    var ids := seq(|decisions|, i requires 0 <= i < |decisions| => decisions[i].id);
    if NoDuplicates(ids) {
      forall i, j | 0 <= i < j < |decisions| ensures decisions[i].id != decisions[j].id {
        assert ids[i] != ids[j];
      }
    }
    if DistinctIds(decisions) {
      forall i, j | 0 <= i < j < |ids| ensures ids[i] != ids[j] {
        assert decisions[i].id != decisions[j].id;
      }
    }
    DistinctAtMost(ids);
    var named := set d | d in decisions :: d.id;
    forall x ensures x in ids <==> x in named {
      if x in ids {
        var i :| 0 <= i < |ids| && ids[i] == x;
        assert decisions[i] in decisions;
      }
      if d :| d in decisions && d.id == x {
        var i :| 0 <= i < |decisions| && decisions[i] == d;
        assert ids[i] == x;
      }
    }
    assert (set x | x in ids) == named;
    assert forall i :: 0 <= i < |decisions| ==> decisions[i] in decisions;
  }

  predicate DistinctNames(windows: seq<Window>) {
    forall i, j :: 0 <= i < j < |windows| ==> windows[i].name != windows[j].name
  }

  // ----- the index -----

  /** Each security's decisions occupy exactly the positions of its range. */
  ghost predicate RangesOf(decisions: seq<Decision>, ranges: map<string, (nat, nat)>) {
    && (forall i :: 0 <= i < |decisions| ==> decisions[i].security in ranges)
    && (forall s :: s in ranges ==>
          && ranges[s].0 < ranges[s].1 <= |decisions|
          && forall i :: 0 <= i < |decisions| ==>
               (decisions[i].security == s <==> ranges[s].0 <= i < ranges[s].1))
  }

  lemma SameSecurityBetween(ordered: seq<Decision>, i: nat, j: nat, k: nat)
    requires i <= j <= k < |ordered| && SortedBy(DecisionLeq, ordered)
    requires ordered[i].security == ordered[k].security
    ensures ordered[j].security == ordered[i].security
  {
    if i < j < k {
      assert DecisionLeq(ordered[i], ordered[j]) && DecisionLeq(ordered[j], ordered[k]);
      TextLeqTotal(ordered[i].security, ordered[j].security);
    }
  }

  /** A security seen before position `i` and again at `i` was seen right before it. */
  lemma RangeIsCurrent(ordered: seq<Decision>, ranges: map<string, (nat, nat)>, i: nat)
    requires SortedBy(DecisionLeq, ordered) && i < |ordered| && RangesOf(ordered[..i], ranges)
    requires ordered[i].security in ranges
    ensures ranges[ordered[i].security].1 == i
  {
    var (first, next) := ranges[ordered[i].security];
    if next < i {
      assert ordered[..i][first].security == ordered[i].security;
      SameSecurityBetween(ordered, first, next, i);
    }
  }

  method GroupBySecurity(ordered: seq<Decision>) returns (ranges: map<string, (nat, nat)>)
    requires SortedBy(DecisionLeq, ordered)
    ensures RangesOf(ordered, ranges)
  {
    ranges := map[];
    for i := 0 to |ordered|
      invariant RangesOf(ordered[..i], ranges)
    {
      var s := ordered[i].security;
      ghost var before := ranges;
      if s in ranges {
        RangeIsCurrent(ordered, ranges, i);
        ranges := ranges[s := (ranges[s].0, i + 1)];
      } else {
        ranges := ranges[s := (i, i + 1)];
      }
      ExtendRanges(ordered, before, ranges, i);
    }
    assert ordered[..|ordered|] == ordered;
  }

  lemma ExtendRanges(ordered: seq<Decision>, before: map<string, (nat, nat)>, after: map<string, (nat, nat)>, i: nat)
    requires i < |ordered| && RangesOf(ordered[..i], before)
    requires
      var s := ordered[i].security;
      if s in before then before[s].1 == i && after == before[s := (before[s].0, i + 1)]
      else after == before[s := (i, i + 1)]
    ensures RangesOf(ordered[..i + 1], after)
  {
    var s := ordered[i].security;
    var p, q := ordered[..i], ordered[..i + 1];
    assert q == p + [ordered[i]];
    forall t | t in after
      ensures forall j :: 0 <= j <= i ==> (q[j].security == t <==> after[t].0 <= j < after[t].1)
    {
      forall j | 0 <= j <= i ensures q[j].security == t <==> after[t].0 <= j < after[t].1 {
        if j < i {
          assert p[j] == q[j] && p[j].security in before;
        }
      }
    }
  }

  /** numpy's searchsorted, side="left": how many times lie strictly before `x`. */
  method SearchLeft(times: seq<int>, x: int) returns (k: nat)
    requires forall i, j :: 0 <= i <= j < |times| ==> times[i] <= times[j]
    ensures k <= |times|
    ensures forall i :: 0 <= i < k ==> times[i] < x
    ensures forall i :: k <= i < |times| ==> x <= times[i]
  {
    var lo, hi := 0, |times|;
    while lo < hi
      invariant 0 <= lo <= hi <= |times|
      invariant forall i :: 0 <= i < lo ==> times[i] < x
      invariant forall i :: hi <= i < |times| ==> x <= times[i]
    {
      var mid := (lo + hi) / 2;
      if times[mid] < x { lo := mid + 1; } else { hi := mid; }
    }
    k := lo;
  }

  /** numpy's searchsorted, side="right": how many times lie at or before `x`. */
  method SearchRight(times: seq<int>, x: int) returns (k: nat)
    requires forall i, j :: 0 <= i <= j < |times| ==> times[i] <= times[j]
    ensures k <= |times|
    ensures forall i :: 0 <= i < k ==> times[i] <= x
    ensures forall i :: k <= i < |times| ==> x < times[i]
  {
    var lo, hi := 0, |times|;
    while lo < hi
      invariant 0 <= lo <= hi <= |times|
      invariant forall i :: 0 <= i < lo ==> times[i] <= x
      invariant forall i :: hi <= i < |times| ==> x < times[i]
    {
      var mid := (lo + hi) / 2;
      if times[mid] <= x { lo := mid + 1; } else { hi := mid; }
    }
    k := lo;
  }

  method MaxWindow(windows: seq<Window>) returns (longest: int)
    requires windows != []
    ensures exists i :: 0 <= i < |windows| && windows[i].length == longest
    ensures forall i :: 0 <= i < |windows| ==> windows[i].length <= longest
  {
    longest := windows[0].length;
    for k := 1 to |windows|
      invariant exists i :: 0 <= i < |windows| && windows[i].length == longest
      invariant forall i :: 0 <= i < k ==> windows[i].length <= longest
    {
      if windows[k].length > longest { longest := windows[k].length; }
    }
  }

  // ----- one event -----

  /** Decisions outside [first, last) of the security's range see nothing of the event. */
  lemma OnlyTheSliceAssigns(e: Event, ordered: seq<Decision>, windows: seq<Window>, from: nat, to: nat)
    requires from <= to <= |ordered|
    requires forall i, w :: 0 <= i < |ordered| && !(from <= i < to) && w in windows ==> !InWindow(e, ordered[i], w)
    ensures AssignedRows(e, ordered, windows) == AssignedRows(e, ordered[from..to], windows)
  {
    var f := DecisionRows(e, windows);
    forall i | 0 <= i < |ordered| && !(from <= i < to) ensures f(ordered[i]) == [] {
      FlatMapEmpty(PairRows(e, ordered[i]), windows);
    }
    assert ordered == ordered[..from] + (ordered[from..to] + ordered[to..]);
    FlatMapConcat(f, ordered[..from], ordered[from..to] + ordered[to..]);
    FlatMapConcat(f, ordered[from..to], ordered[to..]);
    FlatMapEmpty(f, ordered[..from]);
    FlatMapEmpty(f, ordered[to..]);
  }

  lemma NothingAssigned(e: Event, decisions: seq<Decision>, windows: seq<Window>)
    requires forall d, w :: d in decisions && w in windows ==> !InWindow(e, d, w)
    ensures AssignedRows(e, decisions, windows) == []
  {
    forall d | d in decisions ensures DecisionRows(e, windows)(d) == [] {
      FlatMapEmpty(PairRows(e, d), windows);
    }
    FlatMapEmpty(DecisionRows(e, windows), decisions);
  }

  lemma SomethingAssigned(e: Event, decisions: seq<Decision>, windows: seq<Window>, d: Decision, w: Window)
    requires d in decisions && w in windows && InWindow(e, d, w)
    ensures AssignmentRow(e, d, w) in AssignedRows(e, decisions, windows)
  {
    var row := AssignmentRow(e, d, w);
    var i :| 0 <= i < |windows| && windows[i] == w;
    assert row in PairRows(e, d)(windows[i]);
    FlatMapMember(PairRows(e, d), windows, row);
    var j :| 0 <= j < |decisions| && decisions[j] == d;
    assert row in DecisionRows(e, windows)(decisions[j]);
    FlatMapMember(DecisionRows(e, windows), decisions, row);
  }

  /** The rows one event owes to the slice of decisions that its search found. */
  method AssignSlice(e: Event, slice: seq<Decision>, windows: seq<Window>) returns (rows: seq<Row>, found: bool)
    requires e.available.Some?
    requires forall i :: 0 <= i < |slice| ==> slice[i].security == e.security && slice[i].time >= e.available.value
    ensures rows == AssignedRows(e, slice, windows)
    ensures found <==> rows != []
  {
    rows, found := [], false;
    for i := 0 to |slice|
      invariant rows == AssignedRows(e, slice[..i], windows)
      invariant found <==> rows != []
    {
      var d := slice[i];
      var age := d.time - e.available.value;
      ghost var before := rows;
      for k := 0 to |windows|
        invariant rows == before + FlatMap(PairRows(e, d), windows[..k])
        invariant found <==> rows != []
      {
        var w := windows[k];
        if age <= w.length {
          found := true;
          rows := rows + [AssignmentRow(e, d, w)];
        }
        FlatMapNext(PairRows(e, d), windows, k);
      }
      assert windows[..|windows|] == windows;
      FlatMapNext(DecisionRows(e, windows), slice, i);
    }
    assert slice[..|slice|] == slice;
  }

  /** One iteration of the event loop, for an event whose id was not seen before. */
  method AssignEvent(e: Event, ordered: seq<Decision>, ranges: map<string, (nat, nat)>,
                     windows: seq<Window>, longest: int) returns (rows: seq<Row>)
    requires SortedBy(DecisionLeq, ordered) && RangesOf(ordered, ranges)
    requires exists i :: 0 <= i < |windows| && windows[i].length == longest
    requires forall i :: 0 <= i < |windows| ==> windows[i].length <= longest
    ensures rows == EventRows(e, false, ordered, windows)
  {
    hide EventRows, AssignedRows, HasFuture, DecisionLeq;
    if e.security !in ranges {
      UnknownSecurity(e, ordered, ranges, windows);
      return [ExclusionRow(e, SECURITY_NOT_IN_DECISIONS)];
    }
    var (start, end) := ranges[e.security];
    if e.available.None? {
      UnknownAvailability(e, ordered, start, windows);
      return [ExclusionRow(e, INVALID_AVAILABILITY)];
    }
    rows := AssignInRange(e, ordered, start, end, windows, longest);
  }

  /** The searches of one event among the decisions of its security. */
  method AssignInRange(e: Event, ordered: seq<Decision>, start: nat, end: nat,
                       windows: seq<Window>, longest: int) returns (rows: seq<Row>)
    requires SortedBy(DecisionLeq, ordered) && start < end <= |ordered|
    requires forall i :: 0 <= i < |ordered| ==> (ordered[i].security == e.security <==> start <= i < end)
    requires e.available.Some?
    requires exists i :: 0 <= i < |windows| && windows[i].length == longest
    requires forall i :: 0 <= i < |windows| ==> windows[i].length <= longest
    ensures rows == EventRows(e, false, ordered, windows)
  {
    hide EventRows, AssignedRows, HasFuture, DecisionLeq, SortedBy, TimesOf;
    var available := e.available.value;
    var times := TimesOf(ordered[start..end]);
    SecurityTimesSorted(ordered, start, end);
    var first := SearchLeft(times, available);
    TimesAt(ordered, start, end);
    if first >= |times| {
      NoFuture(e, ordered, start, end, windows);
      return [ExclusionRow(e, NO_FUTURE_DECISION)];
    }
    var last := SearchRight(times, available + longest);
    SliceIsWindow(e, ordered, windows, start, end, first, last, longest);
    if last <= first {
      return [ExclusionRow(e, OUTSIDE_ALL_WINDOWS)];
    }
    OnlyTheSliceAssigns(e, ordered, windows, start + first, start + last);
    var found;
    rows, found := AssignSlice(e, ordered[start + first..start + last], windows);
    LongestWindowAssigns(e, ordered, windows, start + first, longest);
    if !found {
      // The fallback exclusion of the source cannot be reached: the longest window covers the slice.
      assert false;
    }
  }

  lemma UnknownSecurity(e: Event, ordered: seq<Decision>, ranges: map<string, (nat, nat)>, windows: seq<Window>)
    requires RangesOf(ordered, ranges) && e.security !in ranges
    ensures EventRows(e, false, ordered, windows) == [ExclusionRow(e, SECURITY_NOT_IN_DECISIONS)]
  {
    NothingAssigned(e, ordered, windows);
  }

  lemma UnknownAvailability(e: Event, ordered: seq<Decision>, at: nat, windows: seq<Window>)
    requires at < |ordered| && ordered[at].security == e.security && e.available.None?
    ensures EventRows(e, false, ordered, windows) == [ExclusionRow(e, INVALID_AVAILABILITY)]
  {
    assert ordered[at] in ordered;
    NothingAssigned(e, ordered, windows);
  }

  function TimesOf(decisions: seq<Decision>): seq<int> {
    seq(|decisions|, i requires 0 <= i < |decisions| => decisions[i].time)
  }

  lemma TimesAt(ordered: seq<Decision>, start: nat, end: nat)
    requires start <= end <= |ordered|
    ensures |TimesOf(ordered[start..end])| == end - start
    ensures forall i :: start <= i < end ==> TimesOf(ordered[start..end])[i - start] == ordered[i].time
  {}

  lemma SecurityTimesSorted(ordered: seq<Decision>, start: nat, end: nat)
    requires SortedBy(DecisionLeq, ordered) && start <= end <= |ordered|
    requires forall i, j :: start <= i < end && start <= j < end ==> ordered[i].security == ordered[j].security
    ensures
      var times := TimesOf(ordered[start..end]);
      forall i, j :: 0 <= i <= j < |times| ==> times[i] <= times[j]
  {
    var times := TimesOf(ordered[start..end]);
    forall i, j | 0 <= i < j < |times| ensures times[i] <= times[j] {
      assert DecisionLeq(ordered[start + i], ordered[start + j]);
    }
  }

  lemma NoFuture(e: Event, ordered: seq<Decision>, start: nat, end: nat, windows: seq<Window>)
    requires e.available.Some? && start < end <= |ordered|
    requires forall i :: 0 <= i < |ordered| ==> (ordered[i].security == e.security <==> start <= i < end)
    requires forall i :: start <= i < end ==> ordered[i].time < e.available.value
    ensures EventRows(e, false, ordered, windows) == [ExclusionRow(e, NO_FUTURE_DECISION)]
  {
    assert ordered[start] in ordered;
    forall d | d in ordered && d.security == e.security ensures d.time < e.available.value {
      var i :| 0 <= i < |ordered| && ordered[i] == d;
    }
    NothingAssigned(e, ordered, windows);
  }

  lemma SliceIsWindow(e: Event, ordered: seq<Decision>, windows: seq<Window>,
                      start: nat, end: nat, first: nat, last: nat, longest: int)
    requires e.available.Some? && start <= end <= |ordered|
    requires first < end - start && last <= end - start
    requires forall i :: 0 <= i < |ordered| ==> (ordered[i].security == e.security <==> start <= i < end)
    requires forall i :: start <= i < start + first ==> ordered[i].time < e.available.value
    requires ordered[start + first].time >= e.available.value
    requires forall i :: start + last <= i < end ==> e.available.value + longest < ordered[i].time
    requires forall i :: 0 <= i < |windows| ==> windows[i].length <= longest
    ensures forall i, w :: 0 <= i < |ordered| && !(start + first <= i < start + last) && w in windows ==>
      !InWindow(e, ordered[i], w)
    ensures last <= first ==> EventRows(e, false, ordered, windows) == [ExclusionRow(e, OUTSIDE_ALL_WINDOWS)]
  {
    if last <= first {
      assert ordered[start + first] in ordered;
      forall d, w | d in ordered && w in windows ensures !InWindow(e, d, w) {
        var i :| 0 <= i < |ordered| && ordered[i] == d;
      }
      NothingAssigned(e, ordered, windows);
    }
  }

  lemma LongestWindowAssigns(e: Event, ordered: seq<Decision>, windows: seq<Window>, at: nat, longest: int)
    requires e.available.Some? && at < |ordered| && ordered[at].security == e.security
    requires 0 <= ordered[at].time - e.available.value <= longest
    requires exists i :: 0 <= i < |windows| && windows[i].length == longest
    ensures AssignedRows(e, ordered, windows) != []
    ensures EventRows(e, false, ordered, windows) == AssignedRows(e, ordered, windows)
  {
    var i :| 0 <= i < |windows| && windows[i].length == longest;
    SomethingAssigned(e, ordered, windows, ordered[at], windows[i]);
  }

  // ----- all events -----

  /** The order of the artifact: event, status, decision time (missing ones last), window. */
  predicate EvidenceLeq(a: Row, b: Row) {
    if a.eventId != b.eventId then TextLeq(a.eventId, b.eventId)
    else if a.status != b.status then TextLeq(a.status, b.status)
    else if a.decisionTime != b.decisionTime then
      b.decisionTime.None? || (a.decisionTime.Some? && a.decisionTime.value < b.decisionTime.value)
    else a.windowSeconds <= b.windowSeconds
  }

  lemma EvidenceOrder()
    ensures TotalPreorder(EvidenceLeq)
  {
    forall a: Row, b: Row ensures EvidenceLeq(a, b) || EvidenceLeq(b, a) {
      TextLeqTotal(a.eventId, b.eventId);
      TextLeqTotal(a.status, b.status);
    }
    forall a: Row, b: Row, c: Row | EvidenceLeq(a, b) && EvidenceLeq(b, c) ensures EvidenceLeq(a, c) {
      EvidenceLeqTransitive(a, b, c);
    }
  }

  lemma EvidenceLeqTransitive(a: Row, b: Row, c: Row)
    requires EvidenceLeq(a, b) && EvidenceLeq(b, c)
    ensures EvidenceLeq(a, c)
  {
    TextLeqTotal(a.eventId, b.eventId);
    TextLeqTotal(b.eventId, c.eventId);
    TextLeqTotal(a.status, b.status);
    TextLeqTotal(b.status, c.status);
    if a.eventId != b.eventId || b.eventId != c.eventId {
      TextLeqTotal(a.eventId, c.eventId);
      if TextLeq(a.eventId, b.eventId) && TextLeq(b.eventId, c.eventId) {
        TextLeqTransitive(a.eventId, b.eventId, c.eventId);
      }
    } else if a.status != b.status || b.status != c.status {
      TextLeqTotal(a.status, c.status);
      if TextLeq(a.status, b.status) && TextLeq(b.status, c.status) {
        TextLeqTransitive(a.status, b.status, c.status);
      }
    }
  }

  /** The evidence for every event row, in the order of the artifact. */
  method BuildEventAssignments(decisions: seq<Decision>, events: seq<Event>, windows: seq<Window>)
    returns (r: Result<seq<Row>>)
    ensures r.Success? <==> Prepared(decisions) && windows != []
    ensures r.Success? <==>
      && windows != [] && (forall d :: d in decisions ==> d.security != "")
      && |set d | d in decisions :: d.id| == |decisions|
    ensures r.Success? ==> multiset(r.value) == multiset(AllRows(events, decisions, windows))
    ensures r.Success? ==> SortedBy(EvidenceLeq, r.value)
  {
    hide EvidenceLeq, AllRows, Prepared;
    PreparedExactlyWhen(decisions);
    if !Prepared(decisions) {
      return Failure("decision rows are not prepared");
    }
    DecisionOrder();
    var ordered := Sort(DecisionLeq, decisions);
    var ranges := GroupBySecurity(ordered);
    if windows == [] {
      return Failure("no windows");
    }
    var longest := MaxWindow(windows);
    var records := RecordEvents(events, ordered, ranges, windows, longest);
    AllRowsPermutation(events, ordered, decisions, windows);
    EvidenceOrder();
    return Success(Sort(EvidenceLeq, records));
  }

  /** The event loop: every event row adds its assignments or its one exclusion. */
  method RecordEvents(events: seq<Event>, ordered: seq<Decision>, ranges: map<string, (nat, nat)>,
                      windows: seq<Window>, longest: int) returns (records: seq<Row>)
    requires SortedBy(DecisionLeq, ordered) && RangesOf(ordered, ranges)
    requires exists i :: 0 <= i < |windows| && windows[i].length == longest
    requires forall i :: 0 <= i < |windows| ==> windows[i].length <= longest
    ensures records == AllRows(events, ordered, windows)
  {
    hide EventRows, SortedBy, RangesOf;
    records := [];
    var seen: set<string> := {};
    for i := 0 to |events|
      invariant forall id :: id in seen <==> HasId(events[..i], id)
      invariant records == AllRows(events[..i], ordered, windows)
    {
      var e := events[i];
      NextEvent(events, i, ordered, windows);
      if e.id in seen {
        records := records + [ExclusionRow(e, DUPLICATE_EVENT_ID)];
      } else {
        seen := seen + {e.id};
        var rows := AssignEvent(e, ordered, ranges, windows, longest);
        records := records + rows;
      }
    }
    assert events[..|events|] == events;
  }

  lemma NextEvent(events: seq<Event>, i: nat, decisions: seq<Decision>, windows: seq<Window>)
    requires i < |events|
    ensures AllRows(events[..i + 1], decisions, windows)
      == AllRows(events[..i], decisions, windows)
         + EventRows(events[i], HasId(events[..i], events[i].id), decisions, windows)
    ensures EventRows(events[i], true, decisions, windows) == [ExclusionRow(events[i], DUPLICATE_EVENT_ID)]
    ensures forall id :: HasId(events[..i + 1], id) <==> HasId(events[..i], id) || id == events[i].id
  {
    var p, q := events[..i], events[..i + 1];
    assert q[..i] == p;
    forall id ensures HasId(q, id) <==> HasId(p, id) || id == events[i].id {
      if HasId(q, id) {
        var k :| 0 <= k < |q| && q[k].id == id;
        assert k < i ==> p[k].id == id;
      }
      if HasId(p, id) {
        var k :| 0 <= k < |p| && p[k].id == id;
        assert q[k].id == id;
      }
      assert q[i] == events[i];
    }
  }

  lemma AssignedPermutation(e: Event, ds: seq<Decision>, ds': seq<Decision>, windows: seq<Window>)
    requires multiset(ds) == multiset(ds')
    ensures multiset(AssignedRows(e, ds, windows)) == multiset(AssignedRows(e, ds', windows))
    ensures AssignedRows(e, ds, windows) == [] <==> AssignedRows(e, ds', windows) == []
  {
    hide DecisionRows;
    FlatMapPermutation(DecisionRows(e, windows), ds, ds');
    var rows, rows' := AssignedRows(e, ds, windows), AssignedRows(e, ds', windows);
    assert |rows| == |multiset(rows)| == |multiset(rows')| == |rows'|;
  }

  lemma ExclusionPermutation(e: Event, duplicate: bool, ds: seq<Decision>, ds': seq<Decision>)
    requires multiset(ds) == multiset(ds')
    ensures Exclusion(e, duplicate, ds) == Exclusion(e, duplicate, ds')
  {
    SameMembers(ds, ds');
  }

  lemma EventRowsPermutation(e: Event, duplicate: bool, ds: seq<Decision>, ds': seq<Decision>, windows: seq<Window>)
    requires multiset(ds) == multiset(ds')
    ensures multiset(EventRows(e, duplicate, ds, windows)) == multiset(EventRows(e, duplicate, ds', windows))
  {
    hide AssignedRows, Exclusion, ExclusionRow;
    AssignedPermutation(e, ds, ds', windows);
    ExclusionPermutation(e, duplicate, ds, ds');
  }

  lemma SameMembers<T>(s: seq<T>, t: seq<T>)
    requires multiset(s) == multiset(t)
    ensures forall x :: x in s <==> x in t
  {
    assert forall x :: x in s <==> x in multiset(s);
    assert forall x :: x in t <==> x in multiset(t);
  }

  /** The evidence does not depend on the order of the decisions. */
  lemma {:induction false} AllRowsPermutation(events: seq<Event>, ds: seq<Decision>, ds': seq<Decision>, windows: seq<Window>)
    requires multiset(ds) == multiset(ds')
    ensures multiset(AllRows(events, ds, windows)) == multiset(AllRows(events, ds', windows))
  {
    if events != [] {
      var n := |events| - 1;
      AllRowsPermutation(events[..n], ds, ds', windows);
      EventRowsPermutation(events[n], HasId(events[..n], events[n].id), ds, ds', windows);
    }
  }
}
