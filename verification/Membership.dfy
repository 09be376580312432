/** Universe membership: the audit of the membership table (canonical/audits.py) and the join
    that attaches one membership to each decision (canonical/joins.py). `values` stands for the
    copied membership columns. */
module Membership {
  import opened Prelude
  import opened Intervals

  datatype Member = Member(ticker: string, from: int, to: Option<int>, availableAt: int, snapshot: string,
                           policy: string, values: seq<string>)

  datatype Decision = Decision(ticker: string, time: int)

  function Span(m: Member): Interval { Interval(m.from, m.to) }

  function TickerOf(m: Member): string { m.ticker }

  /** The membership is in effect, and already known, at the decision. */
  predicate Covers(m: Member, d: Decision) {
    m.ticker == d.ticker && Contains(Span(m), d.time) && m.availableAt <= d.time
  }

  function CoveredBy(d: Decision): Member -> bool {
    (m: Member) => Covers(m, d)
  }

  function MatchesOf(d: Decision, members: seq<Member>): seq<Member> {
    Filter(CoveredBy(d), members)
  }

  /** The matches of a decision are exactly the memberships of its ticker that had begun, had not ended
      and were already known, each as often as it is listed. */
  lemma MatchExactly(d: Decision, members: seq<Member>, m: Member)
    ensures
      var matches := m.ticker == d.ticker && m.from <= d.time && (m.to.Some? ==> d.time < m.to.value) && m.availableAt <= d.time;
      multiset(MatchesOf(d, members))[m] == if matches then multiset(members)[m] else 0
  {
    FilterCount(CoveredBy(d), members, m);
  }

  function IsWellFormed(m: Member): bool { NonEmpty(Span(m)) }

  // ----- the audit -----

  /** Neighbours in start order of which the later one starts before the earlier one has ended. */
  function Overlaps(ordered: seq<Member>): nat {
    if |ordered| < 2 then 0
    else
      var last := |ordered| - 1;
      Overlaps(ordered[..last]) + (if EndsBefore(Span(ordered[last - 1]), Span(ordered[last])) then 0 else 1)
  }

  function OverlapsOf(items: seq<Member>): nat {
    StartOrder(Span);
    Overlaps(Sort(StartLeq(Span), items))
  }

  /** The record at `i` starts before the one before it has ended. */
  predicate Overlapped(ordered: seq<Member>, i: int) {
    0 < i < |ordered| && (ordered[i - 1].to.None? || ordered[i].from < ordered[i - 1].to.value)
  }

  function OverlapsIn(ordered: seq<Member>): set<int> {
    set i | 0 < i < |ordered| && Overlapped(ordered, i)
  }

  lemma {:induction false} OverlapsCount(ordered: seq<Member>)
    ensures Overlaps(ordered) == |OverlapsIn(ordered)|
  {
    if |ordered| < 2 {
      assert OverlapsIn(ordered) == {};
    } else {
      var last := |ordered| - 1;
      var most := ordered[..last];
      OverlapsCount(most);
      forall i | 0 < i < last ensures Overlapped(ordered, i) <==> Overlapped(most, i) {
        assert most[i] == ordered[i] && most[i - 1] == ordered[i - 1];
      }
      assert OverlapsIn(ordered) == OverlapsIn(most) + if Overlapped(ordered, last) then {last} else {};
    }
  }

  /** The records of one ticker in order of their start. */
  function OrderedOf(records: seq<Member>, ticker: string): seq<Member> {
    StartOrder(Span);
    Sort(StartLeq(Span), Filter(HasKey(TickerOf, ticker), records))
  }

  /** Where a record of one of the tickers starts before the one before it has ended. */
  function OverlapsAt(records: seq<Member>, tickers: set<string>): set<(string, int)> {
    set k, i | k in tickers && i in OverlapsIn(OrderedOf(records, k)) :: (k, i)
  }

  lemma OverlapsNext(records: seq<Member>, tickers: set<string>, k: string)
    requires k !in tickers
    ensures |OverlapsAt(records, tickers + {k})| == |OverlapsAt(records, tickers)| + Overlaps(OrderedOf(records, k))
  {
    hide OrderedOf, OverlapsIn;
    var own := OverlapsIn(OrderedOf(records, k));
    OverlapsCount(OrderedOf(records, k));
    var here := set i | i in own :: (k, i);
    forall x: int ensures x in own <==> (k, x) in here {
      if (k, x) in here {
        var i :| i in own && (k, i) == (k, x);
      }
    }
    Tagged(k, own, here);
    assert OverlapsAt(records, tickers + {k}) == OverlapsAt(records, tickers) + here;
    assert OverlapsAt(records, tickers) !! here;
  }

  lemma {:induction false} Tagged<T(!new)>(k: string, own: set<T>, here: set<(string, T)>)
    requires forall x :: x in own <==> (k, x) in here
    requires forall p :: p in here ==> p.0 == k
    ensures |here| == |own|
    decreases |own|
  {
    if own == {} {
      assert here == {};
    } else {
      var x :| x in own;
      Tagged(k, own - {x}, here - {(k, x)});
    }
  }

  /** One ticker's sweep: `priorEnd` and `openEnded` describe the previous record only. */
  method SweepTicker(items: seq<Member>) returns (overlap: nat)
    requires AllNonEmpty(Span, items)
    ensures overlap == OverlapsOf(items)
    ensures overlap == 0 <==> PairwiseDisjoint(Span, items)
  {
    hide TotalPreorder, SortedBy, StartLeq, PairwiseDisjoint, AllNonEmpty;
    StartOrder(Span);
    var ordered := Sort(StartLeq(Span), items);
    overlap := 0;
    var priorEnd: Option<int> := None;
    var openEnded := false;
    for i := 0 to |ordered|
      invariant overlap == Overlaps(ordered[..i])
      invariant i == 0 ==> priorEnd.None? && !openEnded
      invariant i > 0 ==> priorEnd == ordered[i - 1].to && (openEnded <==> ordered[i - 1].to.None?)
    {
      var record := ordered[i];
      if openEnded || (priorEnd.Some? && record.from < priorEnd.value) {
        overlap := overlap + 1;
      }
      openEnded := record.to.None?;
      priorEnd := if openEnded then None else record.to;
      assert ordered[..i + 1][..i] == ordered[..i];
    }
    assert ordered[..|ordered|] == ordered;
    SweepDecides(items, ordered);
  }

  lemma {:induction false} NoOverlaps(ordered: seq<Member>)
    ensures Overlaps(ordered) == 0 <==> NeighboursDisjoint(Span, ordered)
  {
    if |ordered| >= 2 {
      var p := ordered[..|ordered| - 1];
      NoOverlaps(p);
      assert forall i :: 0 <= i < |p| ==> p[i] == ordered[i];
      if NeighboursDisjoint(Span, ordered) {
        assert EndsBefore(Span(ordered[|ordered| - 2]), Span(ordered[|ordered| - 2 + 1]));
        forall i | 0 <= i < |p| - 1 ensures EndsBefore(Span(p[i]), Span(p[i + 1])) {
          assert EndsBefore(Span(ordered[i]), Span(ordered[i + 1]));
        }
      }
      if Overlaps(ordered) == 0 {
        forall i | 0 <= i < |ordered| - 1 ensures EndsBefore(Span(ordered[i]), Span(ordered[i + 1])) {
          if i < |p| - 1 {
            assert EndsBefore(Span(p[i]), Span(p[i + 1]));
          }
        }
      }
    }
  }

  lemma SweepDecides(items: seq<Member>, ordered: seq<Member>)
    requires multiset(items) == multiset(ordered) && AllNonEmpty(Span, items)
    requires SortedBy(StartLeq(Span), ordered)
    ensures Overlaps(ordered) == 0 <==> PairwiseDisjoint(Span, items)
  {
    DisjointPermutation(Span, items, ordered);
    NonEmptyPermutation(Span, items, ordered);
    forall i, j | 0 <= i < j < |ordered| ensures Span(ordered[i]).from <= Span(ordered[j]).from {
      assert StartLeq(Span)(ordered[i], ordered[j]);
    }
    NeighboursSuffice(Span, ordered);
    NoOverlaps(ordered);
  }

  datatype Audit = Audit(empty: bool, invalid: nat, duplicates: nat, overlap: nat, unobserved: nat,
                         uncovered: nat, ambiguous: nat)

  ghost function CountWhere(p: Decision -> bool, decisions: seq<Decision>): nat {
    |Filter(p, decisions)|
  }

  function IsUncovered(members: seq<Member>): Decision -> bool {
    (d: Decision) => MatchesOf(d, members) == []
  }

  function IsAmbiguous(members: seq<Member>): Decision -> bool {
    (d: Decision) => |MatchesOf(d, members)| > 1
  }

  /** A decision row as it is read; its time may not parse. */
  datatype DecisionRow = DecisionRow(ticker: string, time: Option<int>)

  function Timed(): DecisionRow -> seq<Decision> {
    (r: DecisionRow) => if r.time.Some? then [Decision(r.ticker, r.time.value)] else []
  }

  /** The decisions with a readable time, in order. */
  function TimedDecisions(rows: seq<DecisionRow>): seq<Decision> {
    FlatMap(Timed(), rows)
  }

  function IsUnobserved(m: Member): bool { m.policy != "observed" }

  /** What must not repeat: ticker, interval and snapshot. */
  function RowKey(m: Member): (string, int, Option<int>, string) {
    (m.ticker, m.from, m.to, m.snapshot)
  }

  /** Two rows repeat each other exactly when they agree in ticker, interval and snapshot. */
  lemma SameKeyExactlyWhen(m: Member, n: Member)
    ensures RowKey(m) == RowKey(n) <==> m.ticker == n.ticker && m.from == n.from && m.to == n.to && m.snapshot == n.snapshot
  {}

  /** Rows whose key occurred above. */
  method DuplicateKeys(rows: seq<Member>) returns (n: nat)
    ensures n == |rows| - |set m | m in rows :: RowKey(m)|
  {
    n := 0;
    var seen: set<(string, int, Option<int>, string)> := {};
    for i := 0 to |rows|
      invariant seen == set m | m in rows[..i] :: RowKey(m)
      invariant n + |seen| == i
    {
      assert rows[..i + 1] == rows[..i] + [rows[i]];
      if RowKey(rows[i]) in seen {
        n := n + 1;
        assert seen + {RowKey(rows[i])} == seen;
      }
      seen := seen + {RowKey(rows[i])};
    }
    assert rows[..|rows|] == rows;
  }

  /** Splits off the malformed rows. */
  method WellFormedRows(rows: seq<Member>) returns (records: seq<Member>, invalid: nat)
    ensures records == Filter(IsWellFormed, rows) && invalid + |records| == |rows|
  {
    records, invalid := [], 0;
    for i := 0 to |rows|
      invariant records == Filter(IsWellFormed, rows[..i])
      invariant invalid + |records| == i
    {
      FilterNext(IsWellFormed, rows, i);
      if NonEmpty(Span(rows[i])) {
        records := records + [rows[i]];
      } else {
        invalid := invalid + 1;
      }
    }
    assert rows[..|rows|] == rows;
  }

  /** The overlaps of all tickers. */
  method SweepAll(rows: seq<Member>, records: seq<Member>, byTicker: map<string, seq<Member>>) returns (overlap: nat)
    requires records == Filter(IsWellFormed, rows) && GroupedBy(TickerOf, records, byTicker)
    ensures overlap == 0 <==> OneAtATime(TickerOf, Span, records)
    ensures overlap == |OverlapsAt(records, byTicker.Keys)|
  {
    hide OneAtATime, GroupedBy, PairwiseDisjoint, OverlapsAt, OrderedOf, Overlaps;
    NoTickers(records);
    GroupsDecide(TickerOf, Span, records, byTicker);
    overlap := 0;
    var todo := byTicker.Keys;
    assert byTicker.Keys - todo == {};
    while todo != {}
      invariant todo <= byTicker.Keys
      invariant overlap == 0 <==> forall k :: k in byTicker && k !in todo ==> PairwiseDisjoint(Span, byTicker[k])
      invariant overlap == |OverlapsAt(records, byTicker.Keys - todo)|
      decreases |todo|
    {
      var k :| k in todo;
      ghost var swept := byTicker.Keys - todo;
      todo := todo - {k};
      assert byTicker.Keys - todo == swept + {k};
      OverlapsNext(records, swept, k);
      GroupWellFormed(rows, records, byTicker, k);
      GroupIsOrdered(records, byTicker, k);
      var found := SweepTicker(byTicker[k]);
      overlap := overlap + found;
    }
    assert byTicker.Keys - todo == byTicker.Keys;
  }

  lemma NoTickers(records: seq<Member>)
    ensures OverlapsAt(records, {}) == {}
  {}

  lemma GroupIsOrdered(records: seq<Member>, groups: map<string, seq<Member>>, k: string)
    requires GroupedBy(TickerOf, records, groups) && k in groups
    ensures OverlapsOf(groups[k]) == Overlaps(OrderedOf(records, k))
  {}

  lemma TickersAreKeys(records: seq<Member>, groups: map<string, seq<Member>>)
    requires GroupedBy(TickerOf, records, groups)
    ensures groups.Keys == set m | m in records :: m.ticker
  {
    forall k ensures k in groups <==> exists m :: m in records && m.ticker == k {
      if k in groups {
        FilterMember(HasKey(TickerOf, k), records, Filter(HasKey(TickerOf, k), records)[0]);
        assert TickerOf(Filter(HasKey(TickerOf, k), records)[0]) == k;
      }
      if m :| m in records && m.ticker == k {
        assert TickerOf(m) == k;
        FilterMember(HasKey(TickerOf, k), records, m);
      }
    }
  }

  /** All counters of the membership audit: an empty table, malformed rows (which are set aside),
      repeated keys, overlaps per ticker, records that were not observed (when asked), and decisions
      without a match (or without a readable time) and with several. */
  method AuditMemberships(rows: seq<Member>, decisions: seq<DecisionRow>, requireObserved: bool) returns (a: Audit)
    ensures
      var records := Filter(IsWellFormed, rows);
      && (a.empty <==> rows == [])
      && a.invalid == |rows| - |records|
      && a.duplicates == |rows| - |set m | m in rows :: RowKey(m)|
      && (a.overlap == 0 <==> OneAtATime(TickerOf, Span, records))
      && a.overlap == |OverlapsAt(records, set m | m in records :: m.ticker)|
      && a.unobserved == (if requireObserved then |Filter(IsUnobserved, records)| else 0)
      && a.uncovered == CountWhere(IsUncovered(records), TimedDecisions(decisions)) + (|decisions| - |TimedDecisions(decisions)|)
      && a.ambiguous == CountWhere(IsAmbiguous(records), TimedDecisions(decisions))
  {
    hide OneAtATime, GroupedBy, MatchesOf, OverlapsAt;
    var records, invalid := WellFormedRows(rows);
    var duplicates := DuplicateKeys(rows);
    var unobserved := 0;
    if requireObserved {
      unobserved := CountUnobserved(records);
    }
    var byTicker := GroupBy(TickerOf, records);
    var overlap := SweepAll(rows, records, byTicker);
    TickersAreKeys(records, byTicker);
    var uncovered, ambiguous := CountMatches(records, byTicker, decisions);
    a := Audit(|rows| == 0, invalid, duplicates, overlap, unobserved, uncovered, ambiguous);
  }

  // ----- what the counters count -----

  /** The membership was in effect and known at the time. */
  predicate KnownAt(m: Member, ticker: string, time: int) {
    m.ticker == ticker && m.from <= time && (m.to.Some? ==> time < m.to.value) && m.availableAt <= time
  }

  predicate BothKnown(m: Member, n: Member, ticker: string, time: int) {
    KnownAt(m, ticker, time) && KnownAt(n, ticker, time)
  }

  /** Two different records hold for the row. */
  ghost predicate TwoHold(records: seq<Member>, row: DecisionRow) {
    row.time.Some? &&
    exists a, b :: 0 <= a < b < |records| && BothKnown(records[a], records[b], row.ticker, row.time.value)
  }

  ghost predicate NoneHolds(records: seq<Member>, row: DecisionRow) {
    row.time.None? || forall a :: 0 <= a < |records| ==> !KnownAt(records[a], row.ticker, row.time.value)
  }

  ghost function Positions(n: nat, p: int -> bool): set<int> {
    set i | 0 <= i < n && p(i)
  }

  lemma MorePositions(n: nat, p: int -> bool)
    ensures |Positions(n + 1, p)| == |Positions(n, p)| + if p(n) then 1 else 0
  {
    assert Positions(n + 1, p) == Positions(n, p) + if p(n) then {n} else {};
  }

  lemma {:induction false} FilterPositions(p: Member -> bool, s: seq<Member>, n: nat)
    requires n <= |s|
    ensures |Filter(p, s[..n])| == |Positions(n, FoundAt(p, s))|
  {
    var q := FoundAt(p, s);
    if n == 0 {
      assert Positions(0, q) == {};
    } else {
      FilterPositions(p, s, n - 1);
      FilterNext(p, s, n - 1);
      MorePositions(n - 1, q);
    }
  }

  lemma HoldIs(records: seq<Member>, row: DecisionRow)
    requires row.time.Some?
    ensures
      var d := Decision(row.ticker, row.time.value);
      && (MatchesOf(d, records) == [] <==> NoneHolds(records, row))
      && (|MatchesOf(d, records)| > 1 <==> TwoHold(records, row))
  {
    var d := Decision(row.ticker, row.time.value);
    assert forall m :: CoveredBy(d)(m) <==> KnownAt(m, row.ticker, row.time.value);
    AtMostOne(CoveredBy(d), records);
    if MatchesOf(d, records) == [] {
      forall a | 0 <= a < |records| ensures !KnownAt(records[a], row.ticker, row.time.value) {
        FilterMember(CoveredBy(d), records, records[a]);
      }
    } else {
      FilterMember(CoveredBy(d), records, MatchesOf(d, records)[0]);
    }
  }

  /** What the counters of the audit count: the records under another policy than observed, and the
      decision rows for which no record holds (or whose time is missing) or two of them do. */
  lemma CountersCount(records: seq<Member>, rows: seq<DecisionRow>)
    ensures |Filter(IsUnobserved, records)| == |set i | 0 <= i < |records| && records[i].policy != "observed"|
    ensures CountWhere(IsUncovered(records), TimedDecisions(rows)) + (|rows| - |TimedDecisions(rows)|)
      == |set i | 0 <= i < |rows| && NoneHolds(records, rows[i])|
    ensures CountWhere(IsAmbiguous(records), TimedDecisions(rows)) == |set i | 0 <= i < |rows| && TwoHold(records, rows[i])|
  {
    hide *;
    UnobservedCount(records);
    assert rows[..|rows|] == rows;
    DecisionPositions(records, rows, |rows|);
    NonePositions(records, rows);
    TwoPositions(records, rows);
  }

  lemma UnobservedCount(records: seq<Member>)
    ensures |Filter(IsUnobserved, records)| == |set i | 0 <= i < |records| && records[i].policy != "observed"|
  {
    hide Positions;
    FilterPositions(IsUnobserved, records, |records|);
    assert records[..|records|] == records;
    UnobservedPositions(records);
  }

  lemma UnobservedPositions(records: seq<Member>)
    ensures Positions(|records|, FoundAt(IsUnobserved, records)) == set i | 0 <= i < |records| && records[i].policy != "observed"
  {
    assert forall i :: 0 <= i < |records| ==> IsUnobserved(records[i]) == (records[i].policy != "observed");
  }

  ghost function FoundAt(p: Member -> bool, s: seq<Member>): int -> bool {
    i => 0 <= i < |s| && p(s[i])
  }

  lemma NonePositions(records: seq<Member>, rows: seq<DecisionRow>)
    ensures Positions(|rows|, NoneAt(records, rows)) == set i | 0 <= i < |rows| && NoneHolds(records, rows[i])
  {}

  lemma TwoPositions(records: seq<Member>, rows: seq<DecisionRow>)
    ensures Positions(|rows|, TwoAt(records, rows)) == set i | 0 <= i < |rows| && TwoHold(records, rows[i])
  {}

  ghost function NoneAt(records: seq<Member>, rows: seq<DecisionRow>): int -> bool {
    i => 0 <= i < |rows| && NoneHolds(records, rows[i])
  }

  ghost function TwoAt(records: seq<Member>, rows: seq<DecisionRow>): int -> bool {
    i => 0 <= i < |rows| && TwoHold(records, rows[i])
  }

  lemma {:induction false} DecisionPositions(records: seq<Member>, rows: seq<DecisionRow>, n: nat)
    requires n <= |rows|
    ensures
      var timed := TimedDecisions(rows[..n]);
      && CountWhere(IsUncovered(records), timed) + (n - |timed|)
           == |Positions(n, NoneAt(records, rows))|
      && CountWhere(IsAmbiguous(records), timed) == |Positions(n, TwoAt(records, rows))|
  {
    hide MatchesOf, Positions;
    var (none, two) := (NoneAt(records, rows), TwoAt(records, rows));
    if n == 0 {
      assert rows[..0] == [];
      NoPositions(none);
      NoPositions(two);
    } else {
      var row := rows[n - 1];
      var timed := TimedDecisions(rows[..n - 1]);
      DecisionPositions(records, rows, n - 1);
      MorePositions(n - 1, none);
      MorePositions(n - 1, two);
      FlatMapNext(Timed(), rows, n - 1);
      if row.time.Some? {
        var d := Decision(row.ticker, row.time.value);
        assert TimedDecisions(rows[..n]) == timed + [d];
        HoldIs(records, row);
        OneMoreCount(IsUncovered(records), timed, d);
        OneMoreCount(IsAmbiguous(records), timed, d);
      } else {
        assert TimedDecisions(rows[..n]) == timed;
      }
    }
  }

  lemma NoPositions(p: int -> bool)
    ensures Positions(0, p) == {}
  {}

  method CountUnobserved(records: seq<Member>) returns (n: nat)
    ensures n == |Filter(IsUnobserved, records)|
  {
    n := 0;
    for i := 0 to |records|
      invariant n == |Filter(IsUnobserved, records[..i])|
    {
      FilterNext(IsUnobserved, records, i);
      if records[i].policy != "observed" {
        n := n + 1;
      }
    }
    assert records[..|records|] == records;
  }

  lemma GroupWellFormed(rows: seq<Member>, records: seq<Member>, groups: map<string, seq<Member>>, k: string)
    requires records == Filter(IsWellFormed, rows)
    requires GroupedBy(TickerOf, records, groups) && k in groups
    ensures AllNonEmpty(Span, groups[k])
  {
    forall i | 0 <= i < |groups[k]| ensures NonEmpty(Span(groups[k][i])) {
      var m := groups[k][i];
      FilterMember(HasKey(TickerOf, k), records, m);
      FilterMember(IsWellFormed, rows, m);
      assert IsWellFormed(m);
    }
  }

  method CountMatches(records: seq<Member>, byTicker: map<string, seq<Member>>, decisions: seq<DecisionRow>)
    returns (uncovered: nat, ambiguous: nat)
    requires GroupedBy(TickerOf, records, byTicker)
    ensures uncovered == CountWhere(IsUncovered(records), TimedDecisions(decisions)) + (|decisions| - |TimedDecisions(decisions)|)
    ensures ambiguous == CountWhere(IsAmbiguous(records), TimedDecisions(decisions))
  {
    hide GroupedBy, MatchesOf;
    uncovered, ambiguous := 0, 0;
    for i := 0 to |decisions|
      invariant
        var timed := TimedDecisions(decisions[..i]);
        && uncovered == CountWhere(IsUncovered(records), timed) + (i - |timed|)
        && ambiguous == CountWhere(IsAmbiguous(records), timed)
    {
      var row := decisions[i];
      ghost var timed := TimedDecisions(decisions[..i]);
      FlatMapNext(Timed(), decisions, i);
      if row.time.None? {
        uncovered := uncovered + 1;
        assert TimedDecisions(decisions[..i + 1]) == timed;
      } else {
        var d := Decision(row.ticker, row.time.value);
        var matches := MatchCount(records, byTicker, d);
        if matches == 0 { uncovered := uncovered + 1; }
        if matches > 1 { ambiguous := ambiguous + 1; }
        OneMoreCount(IsUncovered(records), timed, d);
        OneMoreCount(IsAmbiguous(records), timed, d);
      }
    }
    assert decisions[..|decisions|] == decisions;
  }

  lemma OneMoreCount(p: Decision -> bool, decisions: seq<Decision>, d: Decision)
    ensures CountWhere(p, decisions + [d]) == CountWhere(p, decisions) + (if p(d) then 1 else 0)
  {
    FilterNext(p, decisions + [d], |decisions|);
    assert (decisions + [d])[..|decisions|] == decisions && (decisions + [d])[..|decisions| + 1] == decisions + [d];
  }

  /** The matches of one decision among the records of its ticker. */
  method MatchCount(records: seq<Member>, byTicker: map<string, seq<Member>>, d: Decision) returns (matches: nat)
    requires GroupedBy(TickerOf, records, byTicker)
    ensures matches == |MatchesOf(d, records)|
  {
    hide GroupedBy;
    var group := if d.ticker in byTicker then byTicker[d.ticker] else [];
    matches := 0;
    for j := 0 to |group|
      invariant matches == |MatchesOf(d, group[..j])|
    {
      FilterNext(CoveredBy(d), group, j);
      var m := group[j];
      if m.from <= d.time && (m.to.None? || d.time < m.to.value) && m.availableAt <= d.time {
        matches := matches + 1;
      }
      GroupTicker(records, byTicker, d, j);
    }
    assert group[..|group|] == group;
    OwnTickerOnly(records, byTicker, d);
  }

  lemma GroupTicker(records: seq<Member>, byTicker: map<string, seq<Member>>, d: Decision, j: nat)
    requires GroupedBy(TickerOf, records, byTicker)
    requires j < |if d.ticker in byTicker then byTicker[d.ticker] else []|
    ensures byTicker[d.ticker][j].ticker == d.ticker
  {
    FilterMember(HasKey(TickerOf, d.ticker), records, byTicker[d.ticker][j]);
    assert TickerOf(byTicker[d.ticker][j]) == d.ticker;
  }

  lemma OwnTickerOnly(records: seq<Member>, byTicker: map<string, seq<Member>>, d: Decision)
    requires GroupedBy(TickerOf, records, byTicker)
    ensures MatchesOf(d, if d.ticker in byTicker then byTicker[d.ticker] else []) == MatchesOf(d, records)
  {
    forall m: Member ensures HasKey(TickerOf, d.ticker)(m) <==> m.ticker == d.ticker {
      assert TickerOf(m) == m.ticker;
    }
    FilterTwice(CoveredBy(d), HasKey(TickerOf, d.ticker), CoveredBy(d), records);
  }

  // ----- the join -----

  /** The tickers of the table in order of first appearance. */
  method DistinctTickers(members: seq<Member>) returns (tickers: seq<string>)
    ensures NoDuplicates(tickers)
    ensures forall m :: m in members ==> m.ticker in tickers
  {
    tickers := [];
    for i := 0 to |members|
      invariant NoDuplicates(tickers)
      invariant forall k :: 0 <= k < i ==> members[k].ticker in tickers
    {
      if members[i].ticker !in tickers {
        tickers := tickers + [members[i].ticker];
      }
    }
  }

  function LastOf(s: seq<Member>): Option<Member> {
    if s == [] then None else Some(s[|s| - 1])
  }

  ghost predicate JoinedSoFar(d: Decision, members: seq<Member>, count: nat, found: Option<Member>) {
    count == |MatchesOf(d, members)| && found == LastOf(MatchesOf(d, members))
  }

  /** The order of the output: decision time, then ticker. */
  predicate OutputLeq(a: (Decision, Member), b: (Decision, Member)) {
    if a.0.time != b.0.time then a.0.time < b.0.time else TextLeq(a.0.ticker, b.0.ticker)
  }

  lemma OutputOrder()
    ensures TotalPreorder(OutputLeq)
  {
    forall a: (Decision, Member), b: (Decision, Member) ensures OutputLeq(a, b) || OutputLeq(b, a) {
      TextLeqTotal(a.0.ticker, b.0.ticker);
    }
    forall a: (Decision, Member), b: (Decision, Member), c: (Decision, Member) | OutputLeq(a, b) && OutputLeq(b, c)
      ensures OutputLeq(a, c)
    {
      if a.0.time == b.0.time == c.0.time {
        TextLeqTransitive(a.0.ticker, b.0.ticker, c.0.ticker);
      }
    }
  }

  lemma OutputMeans(s: seq<(Decision, Member)>)
    requires SortedBy(OutputLeq, s)
    ensures forall i, j :: 0 <= i < j < |s| ==>
      s[i].0.time < s[j].0.time || (s[i].0.time == s[j].0.time && TextLeq(s[i].0.ticker, s[j].0.ticker))
  {
    hide TextLeq;
    forall i, j | 0 <= i < j < |s|
      ensures s[i].0.time < s[j].0.time || (s[i].0.time == s[j].0.time && TextLeq(s[i].0.ticker, s[j].0.ticker))
    {
      assert OutputLeq(s[i], s[j]);
    }
  }

  function Paired(decisions: seq<Decision>, members: seq<Member>): seq<(Decision, Member)>
    requires |decisions| == |members|
  {
    seq(|decisions|, i requires 0 <= i < |decisions| => (decisions[i], members[i]))
  }

  /** The joined table: every decision with its single matching membership, by time and ticker; or the
      join fails. `rows` gives the matches in decision order. */
  method JoinUniverseMembership(decisions: seq<Decision>, members: seq<Member>)
    returns (r: Result<seq<(Decision, Member)>>, ghost rows: seq<Member>)
    ensures r.Success? <==> forall i :: 0 <= i < |decisions| ==> |MatchesOf(decisions[i], members)| == 1
    ensures r.Success? ==> |rows| == |decisions|
    ensures r.Success? ==> forall i :: 0 <= i < |decisions| ==> MatchesOf(decisions[i], members) == [rows[i]]
    ensures r.Success? ==> multiset(r.value) == multiset(Paired(decisions, rows)) && SortedBy(OutputLeq, r.value)
    ensures r.Success? ==> forall i, j :: 0 <= i < j < |r.value| ==>
      || r.value[i].0.time < r.value[j].0.time
      || (r.value[i].0.time == r.value[j].0.time && TextLeq(r.value[i].0.ticker, r.value[j].0.ticker))
  {
    hide MatchesOf, OutputLeq;
    rows := [];
    var joined := JoinRows(decisions, members);
    if joined.Failure? {
      return Failure(joined.error), rows;
    }
    rows := joined.value;
    OutputOrder();
    OutputMeans(Sort(OutputLeq, Paired(decisions, joined.value)));
    return Success(Sort(OutputLeq, Paired(decisions, joined.value))), rows;
  }

  /** Every decision gets its single matching membership, or the join fails. */
  method JoinRows(decisions: seq<Decision>, members: seq<Member>) returns (r: Result<seq<Member>>)
    ensures r.Success? <==> forall i :: 0 <= i < |decisions| ==> |MatchesOf(decisions[i], members)| == 1
    ensures r.Success? ==> |r.value| == |decisions|
    ensures r.Success? ==> forall i :: 0 <= i < |decisions| ==> MatchesOf(decisions[i], members) == [r.value[i]]
  {
    hide MatchesOf, NoDuplicates;
    var matches := new nat[|decisions|](_ => 0);
    var output := new Option<Member>[|decisions|](_ => None);
    var tickers := DistinctTickers(members);
    assert forall k :: 0 <= k < |decisions| ==> JoinedSoFar(decisions[k], [], matches[k], output[k]) by {
      forall k | 0 <= k < |decisions| ensures MatchesOf(decisions[k], []) == [] {
        NothingMatches(decisions[k]);
      }
    }
    for t := 0 to |tickers|
      invariant forall k :: 0 <= k < |decisions| ==>
        JoinedSoFar(decisions[k], if decisions[k].ticker in tickers[..t] then members else [], matches[k], output[k])
    {
      hide JoinedSoFar;
      TickerIsNew(tickers, t);
      JoinTicker(decisions, members, tickers[t], tickers[..t], matches, output);
      assert tickers[..t + 1] == tickers[..t] + [tickers[t]];
    }
    assert tickers[..|tickers|] == tickers;
    forall k | 0 <= k < |decisions| ensures JoinedSoFar(decisions[k], members, matches[k], output[k]) {
      if decisions[k].ticker !in tickers {
        UnknownTicker(decisions[k], members);
      }
    }
    if k :| 0 <= k < |decisions| && matches[k] != 1 {
      return Failure("point-in-time universe membership failed");
    }
    return Success(seq(|decisions|, k requires 0 <= k < |decisions| && output[k].Some? reads output => output[k].value));
  }

  lemma NothingMatches(d: Decision)
    ensures MatchesOf(d, []) == []
  {}

  lemma TickerIsNew(tickers: seq<string>, t: nat)
    requires NoDuplicates(tickers) && t < |tickers|
    ensures tickers[t] !in tickers[..t]
  {}

  lemma UnknownTicker(d: Decision, members: seq<Member>)
    requires forall m :: m in members ==> m.ticker != d.ticker
    ensures MatchesOf(d, members) == [] == MatchesOf(d, [])
  {
    FilterNone(CoveredBy(d), members);
  }

  /** One ticker's part of the join: every membership of the ticker is counted for, and overwrites,
      the decisions that it covers. */
  method JoinTicker(decisions: seq<Decision>, members: seq<Member>, ticker: string, ghost done: seq<string>,
                    matches: array<nat>, output: array<Option<Member>>)
    requires matches.Length == output.Length == |decisions|
    requires ticker !in done
    requires forall k :: 0 <= k < |decisions| ==>
      JoinedSoFar(decisions[k], if decisions[k].ticker in done then members else [], matches[k], output[k])
    modifies matches, output
    ensures forall k :: 0 <= k < |decisions| ==>
      JoinedSoFar(decisions[k], if decisions[k].ticker in done + [ticker] then members else [], matches[k], output[k])
  {
    hide JoinedSoFar;
    for j := 0 to |members|
      invariant forall k :: 0 <= k < |decisions| ==>
        JoinedSoFar(decisions[k], SeenBy(decisions[k], members, ticker, done, j), matches[k], output[k])
    {
      var m := members[j];
      for i := 0 to |decisions|
        invariant forall k :: 0 <= k < i ==>
          JoinedSoFar(decisions[k], SeenBy(decisions[k], members, ticker, done, j + 1), matches[k], output[k])
        invariant forall k :: i <= k < |decisions| ==>
          JoinedSoFar(decisions[k], SeenBy(decisions[k], members, ticker, done, j), matches[k], output[k])
      {
        var d := decisions[i];
        JoinNext(d, members, ticker, done, j, matches[i], output[i]);
        if m.ticker == ticker && d.ticker == ticker && d.time >= m.from && d.time >= m.availableAt
          && (m.to.None? || d.time < m.to.value) {
          matches[i] := matches[i] + 1;
          output[i] := Some(m);
        }
      }
    }
    assert members[..|members|] == members;
  }

  /** The memberships a decision has been compared with when `j` of the ticker's part are done. */
  ghost function SeenBy(d: Decision, members: seq<Member>, ticker: string, done: seq<string>, j: nat): seq<Member>
    requires j <= |members|
  {
    if d.ticker in done then members else if d.ticker == ticker then members[..j] else []
  }

  lemma JoinNext(d: Decision, members: seq<Member>, ticker: string, done: seq<string>, j: nat,
                 count: nat, found: Option<Member>)
    requires j < |members| && ticker !in done
    requires JoinedSoFar(d, SeenBy(d, members, ticker, done, j), count, found)
    ensures
      var m := members[j];
      var hit := m.ticker == ticker && d.ticker == ticker && Contains(Span(m), d.time) && m.availableAt <= d.time;
      JoinedSoFar(d, SeenBy(d, members, ticker, done, j + 1),
                  if hit then count + 1 else count, if hit then Some(m) else found)
  {
    FilterNext(CoveredBy(d), members, j);
  }

  // ----- audit and join agree -----

  /** A well-formed table without overlaps makes the join unambiguous. */
  lemma NoOverlapNoAmbiguity(members: seq<Member>, d: Decision)
    requires OneAtATime(TickerOf, Span, members)
    ensures |MatchesOf(d, members)| <= 1
  {
    var known := (m: Member) => m.availableAt <= d.time;
    var held := KeyAt(TickerOf, Span, d.ticker, d.time);
    forall m: Member ensures held(m) <==> m.ticker == d.ticker && Contains(Span(m), d.time) {
      assert TickerOf(m) == m.ticker;
    }
    FilterTwice(known, held, CoveredBy(d), members);
    FilterShrinks(known, Filter(held, members));
  }

  lemma {:induction false} FilterShrinks<T>(p: T -> bool, s: seq<T>)
    ensures |Filter(p, s)| <= |s|
  {
    if s != [] {
      FilterShrinks(p, s[1..]);
    }
  }

  lemma {:induction false} AllWellFormed(rows: seq<Member>)
    requires |Filter(IsWellFormed, rows)| == |rows|
    ensures Filter(IsWellFormed, rows) == rows
  {
    if rows != [] {
      FilterShrinks(IsWellFormed, rows[1..]);
      AllWellFormed(rows[1..]);
    }
  }

  /** When the audit finds no malformed row, its coverage check passes exactly when the join
      succeeds; and when it also finds no overlap, the only reason left to fail is a decision
      without a membership. */
  lemma AuditPredictsJoin(rows: seq<Member>, decisions: seq<Decision>)
    requires |Filter(IsWellFormed, rows)| == |rows|
    ensures
      var records := Filter(IsWellFormed, rows);
      && (CountWhere(IsUncovered(records), decisions) + CountWhere(IsAmbiguous(records), decisions) == 0
          <==> forall i :: 0 <= i < |decisions| ==> |MatchesOf(decisions[i], rows)| == 1)
      && (OneAtATime(TickerOf, Span, records) ==> CountWhere(IsAmbiguous(records), decisions) == 0)
  {
    hide MatchesOf, OneAtATime;
    AllWellFormed(rows);
    CountIsZero(IsUncovered(rows), decisions);
    CountIsZero(IsAmbiguous(rows), decisions);
    if OneAtATime(TickerOf, Span, rows) {
      forall i | 0 <= i < |decisions| ensures !IsAmbiguous(rows)(decisions[i]) {
        NoOverlapNoAmbiguity(rows, decisions[i]);
      }
    }
    if forall i :: 0 <= i < |decisions| ==> !IsUncovered(rows)(decisions[i]) && !IsAmbiguous(rows)(decisions[i]) {
      forall i | 0 <= i < |decisions| ensures |MatchesOf(decisions[i], rows)| == 1 {
        assert !IsUncovered(rows)(decisions[i]) && !IsAmbiguous(rows)(decisions[i]);
      }
    }
    if forall i :: 0 <= i < |decisions| ==> |MatchesOf(decisions[i], rows)| == 1 {
      forall i | 0 <= i < |decisions| ensures !IsUncovered(rows)(decisions[i]) && !IsAmbiguous(rows)(decisions[i]) {
        assert |MatchesOf(decisions[i], rows)| == 1;
      }
    }
  }

  lemma CountIsZero(p: Decision -> bool, decisions: seq<Decision>)
    ensures CountWhere(p, decisions) == 0 <==> forall i :: 0 <= i < |decisions| ==> !p(decisions[i])
  {
    if CountWhere(p, decisions) == 0 {
      forall i | 0 <= i < |decisions| ensures !p(decisions[i]) {
        FilterMember(p, decisions, decisions[i]);
      }
    } else {
      var d := Filter(p, decisions)[0];
      FilterMember(p, decisions, d);
      var i :| 0 <= i < |decisions| && decisions[i] == d;
      assert p(decisions[i]);
    }
  }
}
