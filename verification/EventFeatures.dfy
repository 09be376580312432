/** Event features rebuilt from assignment evidence (canonical/reconciliation.py): rows are grouped
    by decision and window, reduced to sufficient statistics, and attached to the decisions. The
    reference is a direct scan of the events a decision must see. */
module EventFeatures {
  import opened Prelude
  import opened EventAssignment
  import opened EventEvidence

  /** The sufficient statistics of one (decision, window) group. `families` counts the rows of
      each source family, blank families included. */
  datatype Stats = Stats(count: nat, unknown: nat, present: nat, weighted: real, weight: real,
                         relevance: real, low: nat, families: multiset<string>)

  const NOTHING := Stats(0, 0, 0, 0.0, 0.0, 0.0, 0, multiset{})

  function Bit(b: bool): nat { if b then 1 else 0 }

  /** One more observation. Unknown relevance counts as low and carries no weight. */
  function Observe(s: Stats, family: string, sentiment: Option<real>, relevance: Option<real>): Stats {
    var both := sentiment.Some? && relevance.Some?;
    Stats(s.count + 1,
          s.unknown + Bit(relevance.None?),
          s.present + Bit(sentiment.Some?),
          s.weighted + (if both then sentiment.value * relevance.value else 0.0),
          s.weight + (if both then relevance.value else 0.0),
          s.relevance + (if relevance.Some? then relevance.value else 0.0),
          s.low + Bit(relevance.None? || relevance.value < 0.5),
          s.families + multiset{family})
  }

  function StatsOf(rows: seq<Row>): Stats {
    if rows == [] then NOTHING
    else
      var r := rows[|rows| - 1];
      Observe(StatsOf(rows[..|rows| - 1]), r.family, r.sentiment, r.relevance)
  }

  function UnknownRelevance(): Row -> bool { (r: Row) => r.relevance.None? }

  function LowRelevance(): Row -> bool { (r: Row) => r.relevance.None? || r.relevance.value < 0.5 }

  function HasSentiment(): Row -> bool { (r: Row) => r.sentiment.Some? }

  function OfFamily(family: string): Row -> bool { (r: Row) => r.family == family }

  /** The statistics are what they are named for: each counts the rows of one kind. */
  lemma {:induction false} StatsCountRows(rows: seq<Row>, family: string)
    ensures
      var s := StatsOf(rows);
      && s.count == |rows|
      && s.unknown == |Filter(UnknownRelevance(), rows)|
      && s.low == |Filter(LowRelevance(), rows)|
      && s.present == |Filter(HasSentiment(), rows)|
      && s.families[family] == |Filter(OfFamily(family), rows)|
  {
    if rows != [] {
      var n := |rows| - 1;
      StatsCountRows(rows[..n], family);
      assert rows[..n + 1] == rows;
      FilterNext(UnknownRelevance(), rows, n);
      FilterNext(LowRelevance(), rows, n);
      FilterNext(HasSentiment(), rows, n);
      FilterNext(OfFamily(family), rows, n);
    }
  }

  datatype Features = Features(count: nat, unknownFraction: real, sentimentMean: real, coverage: real,
                               relevanceMean: real, lowFraction: real, familyCount: nat,
                               sourceCounts: map<string, nat>)

  function Ratio(numerator: real, denominator: real): real {
    if denominator > 0.0 then numerator / denominator else 0.0
  }

  function NamedFamilies(families: multiset<string>): set<string> {
    set f | f in families && f != ""
  }

  /** The feature cells of one decision and window; `families` names the source-count columns. */
  function FeaturesOf(s: Stats, families: set<string>): Features {
    Features(s.count,
             Ratio(s.unknown as real, s.count as real),
             Ratio(s.weighted, s.weight),
             Ratio(s.present as real, s.count as real),
             Ratio(s.relevance, s.count as real),
             Ratio(s.low as real, s.count as real),
             |NamedFamilies(s.families)|,
             map f | f in families :: if f == "" then 0 else s.families[f])
  }

  // ----- what the features are -----

  function Sum(f: Row -> real, rows: seq<Row>): real {
    if rows == [] then 0.0 else f(rows[0]) + Sum(f, rows[1..])
  }

  function KnownRelevance(): Row -> real { (r: Row) => if r.relevance.Some? then r.relevance.value else 0.0 }

  /** Rows count towards the sentiment with their relevance, when both are known. */
  function Weight(): Row -> real {
    (r: Row) => if r.sentiment.Some? && r.relevance.Some? then r.relevance.value else 0.0
  }

  function WeightedSentiment(): Row -> real {
    (r: Row) => if r.sentiment.Some? && r.relevance.Some? then r.sentiment.value * r.relevance.value else 0.0
  }

  /** The share of `total` per unit of `weight`, and 0 where there is no weight. */
  ghost predicate IsMean(value: real, total: real, weight: real) {
    if weight > 0.0 then value * weight == total else value == 0.0
  }

  /** The features of a group of rows, in terms of the rows. */
  ghost predicate Describes(f: Features, rows: seq<Row>, families: set<string>) {
    && f.count == |rows|
    && IsMean(f.unknownFraction, |Filter(UnknownRelevance(), rows)| as real, |rows| as real)
    && IsMean(f.lowFraction, |Filter(LowRelevance(), rows)| as real, |rows| as real)
    && IsMean(f.coverage, |Filter(HasSentiment(), rows)| as real, |rows| as real)
    && IsMean(f.relevanceMean, Sum(KnownRelevance(), rows), |rows| as real)
    && IsMean(f.sentimentMean, Sum(WeightedSentiment(), rows), Sum(Weight(), rows))
    && f.familyCount == |set r | r in rows && r.family != "" :: r.family|
    && f.sourceCounts.Keys == families
    && forall c :: c in families ==> f.sourceCounts[c] == if c == "" then 0 else |Filter(OfFamily(c), rows)|
  }

  lemma {:induction false} SumNext(f: Row -> real, rows: seq<Row>, r: Row)
    ensures Sum(f, rows + [r]) == Sum(f, rows) + f(r)
  {
    if rows == [] {
      assert ([] + [r])[1..] == [];
    } else {
      SumNext(f, rows[1..], r);
      assert (rows + [r])[1..] == rows[1..] + [r];
    }
  }

  lemma {:induction false} StatsAreSums(rows: seq<Row>)
    ensures
      var s := StatsOf(rows);
      && s.relevance == Sum(KnownRelevance(), rows)
      && s.weight == Sum(Weight(), rows)
      && s.weighted == Sum(WeightedSentiment(), rows)
  {
    if rows != [] {
      var n := |rows| - 1;
      StatsAreSums(rows[..n]);
      assert rows[..n] + [rows[n]] == rows;
      SumNext(KnownRelevance(), rows[..n], rows[n]);
      SumNext(Weight(), rows[..n], rows[n]);
      SumNext(WeightedSentiment(), rows[..n], rows[n]);
    }
  }

  lemma RatioIsMean(total: real, weight: real)
    ensures IsMean(Ratio(total, weight), total, weight)
  {}

  lemma FamiliesAre(rows: seq<Row>)
    ensures NamedFamilies(StatsOf(rows).families) == set r | r in rows && r.family != "" :: r.family
  {
    var (named, expected) := (NamedFamilies(StatsOf(rows).families), set r | r in rows && r.family != "" :: r.family);
    forall f ensures f in named <==> f in expected {
      StatsCountRows(rows, f);
      if f in named {
        var r := Filter(OfFamily(f), rows)[0];
        FilterMember(OfFamily(f), rows, r);
      }
      if f in expected {
        var r :| r in rows && r.family != "" && r.family == f;
        FilterMember(OfFamily(f), rows, r);
      }
    }
  }

  /** The features computed from the statistics are those of the rows. */
  lemma FeaturesDescribeTheRows(rows: seq<Row>, families: set<string>)
    ensures Describes(FeaturesOf(StatsOf(rows), families), rows, families)
  {
    hide StatsOf, Ratio, IsMean, NamedFamilies, Sum;
    var s := StatsOf(rows);
    StatsAreSums(rows);
    StatsCountRows(rows, "");
    RatioIsMean(s.unknown as real, s.count as real);
    RatioIsMean(s.low as real, s.count as real);
    RatioIsMean(s.present as real, s.count as real);
    RatioIsMean(s.relevance, s.count as real);
    RatioIsMean(s.weighted, s.weight);
    FamiliesAre(rows);
    forall c | c in families ensures s.families[c] == |Filter(OfFamily(c), rows)| {
      StatsCountRows(rows, c);
    }
  }

  lemma OneMean(a: real, b: real, total: real, weight: real)
    requires IsMean(a, total, weight) && IsMean(b, total, weight)
    ensures a == b
  {
    if weight > 0.0 {
      assert (a - b) * weight == a * weight - b * weight;
    }
  }

  /** The description leaves no choice: two features of the same rows and columns are equal. */
  lemma DescribedOnce(f: Features, g: Features, rows: seq<Row>, families: set<string>)
    requires Describes(f, rows, families) && Describes(g, rows, families)
    ensures f == g
  {
    hide IsMean, Sum;
    var n := |rows| as real;
    OneMean(f.unknownFraction, g.unknownFraction, |Filter(UnknownRelevance(), rows)| as real, n);
    OneMean(f.lowFraction, g.lowFraction, |Filter(LowRelevance(), rows)| as real, n);
    OneMean(f.coverage, g.coverage, |Filter(HasSentiment(), rows)| as real, n);
    OneMean(f.relevanceMean, g.relevanceMean, Sum(KnownRelevance(), rows), n);
    OneMean(f.sentimentMean, g.sentimentMean, Sum(WeightedSentiment(), rows), Sum(Weight(), rows));
    assert f.sourceCounts == g.sourceCounts;
  }

  // ----- the direct scan -----

  /** The statistics of the events that decision `d` must see through window `w`, taken from the
      event table itself. */
  ghost function DirectStats(events: seq<Event>, d: Decision, w: Window): Stats {
    if events == [] then NOTHING
    else
      var n := |events| - 1;
      var s := DirectStats(events[..n], d, w);
      if First(events, n) && InWindow(events[n], d, w)
      then Observe(s, events[n].family, events[n].sentiment, events[n].relevance)
      else s
  }

  lemma {:induction false} ScanOfSeenRows(events: seq<Event>, d: Decision, w: Window)
    ensures StatsOf(SeenRows(events, d, w)) == DirectStats(events, d, w)
  {
    hide Observe;
    if events != [] {
      var n := |events| - 1;
      ScanOfSeenRows(events[..n], d, w);
      var before, after := SeenRows(events[..n], d, w), SeenRows(events, d, w);
      if First(events, n) && InWindow(events[n], d, w) {
        assert after[..|after| - 1] == before;
      } else {
        assert after == before;
      }
    }
  }

  // ----- order does not matter -----

  function Merge(a: Stats, b: Stats): Stats {
    Stats(a.count + b.count, a.unknown + b.unknown, a.present + b.present, a.weighted + b.weighted,
          a.weight + b.weight, a.relevance + b.relevance, a.low + b.low, a.families + b.families)
  }

  lemma ObserveIsMerge(s: Stats, family: string, sentiment: Option<real>, relevance: Option<real>)
    ensures Observe(s, family, sentiment, relevance) == Merge(s, Observe(NOTHING, family, sentiment, relevance))
  {}

  lemma MergeLaws(a: Stats, b: Stats, c: Stats)
    ensures Merge(Merge(a, b), c) == Merge(a, Merge(b, c))
    ensures Merge(a, b) == Merge(b, a)
    ensures Merge(a, NOTHING) == a
  {
    assert a.families + b.families + c.families == a.families + (b.families + c.families);
    assert a.families + multiset{} == a.families;
  }

  lemma {:induction false} StatsConcat(a: seq<Row>, b: seq<Row>)
    ensures StatsOf(a + b) == Merge(StatsOf(a), StatsOf(b))
  {
    hide Observe, Merge, NOTHING;
    if b == [] {
      MergeLaws(StatsOf(a), NOTHING, NOTHING);
      assert a + b == a;
    } else {
      var r := b[|b| - 1];
      var b' := b[..|b| - 1];
      StatsConcat(a, b');
      assert (a + b)[..|a + b| - 1] == a + b';
      ObserveIsMerge(StatsOf(a + b'), r.family, r.sentiment, r.relevance);
      ObserveIsMerge(StatsOf(b'), r.family, r.sentiment, r.relevance);
      MergeLaws(StatsOf(a), StatsOf(b'), Observe(NOTHING, r.family, r.sentiment, r.relevance));
    }
  }

  /** One row may be taken out of the middle and put in front. */
  lemma StatsTakesOut(s: seq<Row>, k: nat)
    requires k < |s|
    ensures StatsOf(s) == Merge(StatsOf([s[k]]), StatsOf(s[..k] + s[k + 1..]))
  {
    hide StatsOf, Merge, NOTHING;
    var (left, one, right) := (StatsOf(s[..k]), StatsOf([s[k]]), StatsOf(s[k + 1..]));
    assert s == s[..k] + ([s[k]] + s[k + 1..]);
    StatsConcat(s[..k], [s[k]] + s[k + 1..]);
    StatsConcat([s[k]], s[k + 1..]);
    StatsConcat(s[..k], s[k + 1..]);
    MergeLaws(left, one, right);
    MergeLaws(one, left, right);
  }

  lemma {:induction false} StatsPermutation(a: seq<Row>, b: seq<Row>)
    requires multiset(a) == multiset(b)
    ensures StatsOf(a) == StatsOf(b)
  {
    hide StatsOf, Merge;
    if a == [] {
      assert |multiset(b)| == 0;
    } else {
      var k := RemoveOne(a, b);
      StatsPermutation(a[1..], b[..k] + b[k + 1..]);
      StatsTakesOut(b, k);
      StatsTakesOut(a, 0);
      assert a[..0] + a[1..] == a[1..];
    }
  }

  // ----- aggregation -----

  type Pair = (string, string)  // (decision id, window name)

  ghost predicate Grouped(rows: seq<Row>, groups: map<Pair, Stats>) {
    && (forall p: Pair :: p in groups <==> Filter(IsPair(p.0, p.1), rows) != [])
    && (forall p :: p in groups ==> groups[p] == StatsOf(Filter(IsPair(p.0, p.1), rows)))
  }

  /** The latest availability among the assigned rows of each decision. */
  ghost predicate LatestOf(rows: seq<Row>, latest: map<string, int>) {
    && (forall r :: r in rows && r.status == ASSIGNED && r.available.Some? ==>
          r.decisionId in latest && r.available.value <= latest[r.decisionId])
    && (forall id :: id in latest ==>
          exists r :: r in rows && r.status == ASSIGNED && r.decisionId == id && r.available == Some(latest[id]))
  }

  /** Every assigned row names a configured window. */
  predicate Configured(rows: seq<Row>, windows: seq<Window>) {
    forall i :: 0 <= i < |rows| && rows[i].status == ASSIGNED ==>
      exists k :: 0 <= k < |windows| && windows[k].name == rows[i].windowName
  }

  /** The same, as sets of names. */
  lemma ConfiguredExactlyWhen(rows: seq<Row>, windows: seq<Window>)
    ensures Configured(rows, windows) <==>
      (set r | r in rows && r.status == "assigned" :: r.windowName) <= (set w | w in windows :: w.name)
  {
    var (used, known) := (set r | r in rows && r.status == "assigned" :: r.windowName, set w | w in windows :: w.name);
    if Configured(rows, windows) {
      forall name | name in used ensures name in known {
        var r :| r in rows && r.status == "assigned" && r.windowName == name;
        var i :| 0 <= i < |rows| && rows[i] == r;
        var k :| 0 <= k < |windows| && windows[k].name == name;
        assert windows[k] in windows;
      }
    }
    if used <= known {
      forall i | 0 <= i < |rows| && rows[i].status == ASSIGNED
        ensures exists k :: 0 <= k < |windows| && windows[k].name == rows[i].windowName
      {
        assert rows[i].windowName in used;
        var w :| w in windows && w.name == rows[i].windowName;
        var k :| 0 <= k < |windows| && windows[k] == w;
        assert windows[k].name == rows[i].windowName;
      }
    }
  }

  /** Groups the assigned rows. A row whose window is not configured is refused. */
  method AggregateEventAssignments(rows: seq<Row>, windows: seq<Window>)
    returns (r: Result<(map<Pair, Stats>, map<string, int>)>)
    ensures r.Success? <==> Configured(rows, windows)
    ensures r.Success? ==> Grouped(rows, r.value.0) && LatestOf(rows, r.value.1)
  {
    hide Grouped, LatestOf, Observe, Configured;
    if !Configured(rows, windows) {
      return Failure("unsupported windows");
    }
    var groups: map<Pair, Stats> := map[];
    var latest: map<string, int> := map[];
    NoGroups(rows);
    for i := 0 to |rows|
      invariant Grouped(rows[..i], groups)
      invariant LatestOf(rows[..i], latest)
    {
      var row := rows[i];
      ghost var groups0, latest0 := groups, latest;
      if row.status == ASSIGNED {
        var p := (row.decisionId, row.windowName);
        var s := if p in groups then groups[p] else NOTHING;
        groups := groups[p := Observe(s, row.family, row.sentiment, row.relevance)];
        if row.available.Some? {
          if row.decisionId !in latest || latest[row.decisionId] < row.available.value {
            latest := latest[row.decisionId := row.available.value];
          }
        }
      }
      GroupNext(rows, i, groups0, groups);
      LatestNext(rows, i, latest0, latest);
    }
    assert rows[..|rows|] == rows;
    return Success((groups, latest));
  }

  lemma NoGroups(rows: seq<Row>)
    ensures Grouped(rows[..0], map[]) && LatestOf(rows[..0], map[])
  {}

  lemma GroupNext(rows: seq<Row>, i: nat, before: map<Pair, Stats>, after: map<Pair, Stats>)
    requires i < |rows| && Grouped(rows[..i], before)
    requires
      var r := rows[i];
      var p := (r.decisionId, r.windowName);
      if r.status == ASSIGNED
      then after == before[p := Observe(if p in before then before[p] else NOTHING, r.family, r.sentiment, r.relevance)]
      else after == before
    ensures Grouped(rows[..i + 1], after)
  {
    hide Observe, NOTHING, IsPair, StatsOf;
    var r := rows[i];
    forall p: Pair
      ensures p in after <==> Filter(IsPair(p.0, p.1), rows[..i + 1]) != []
      ensures p in after ==> after[p] == StatsOf(Filter(IsPair(p.0, p.1), rows[..i + 1]))
    {
      NoStats();
      GroupValueNext(rows, i, p, if p in before then before[p] else NOTHING);
      PairOfRow(r, p);
    }
  }

  lemma NoStats()
    ensures StatsOf([]) == NOTHING
  {}

  lemma PairOfRow(r: Row, p: Pair)
    ensures IsPair(p.0, p.1)(r) <==> r.status == ASSIGNED && p == (r.decisionId, r.windowName)
  {}

  lemma GroupValueNext(rows: seq<Row>, i: nat, p: Pair, s: Stats)
    requires i < |rows|
    requires s == StatsOf(Filter(IsPair(p.0, p.1), rows[..i]))
    ensures
      var r := rows[i];
      var kept, next := Filter(IsPair(p.0, p.1), rows[..i]), Filter(IsPair(p.0, p.1), rows[..i + 1]);
      && StatsOf(next) == (if IsPair(p.0, p.1)(r) then Observe(s, r.family, r.sentiment, r.relevance) else s)
      && (next != [] <==> kept != [] || IsPair(p.0, p.1)(r))
  {
    hide Observe, IsPair;
    var f := IsPair(p.0, p.1);
    FilterNext(f, rows, i);
    var kept := Filter(f, rows[..i]);
    assert (kept + [rows[i]])[..|kept|] == kept;
    assert kept + [] == kept;
  }

  lemma LatestNext(rows: seq<Row>, i: nat, before: map<string, int>, after: map<string, int>)
    requires i < |rows| && LatestOf(rows[..i], before)
    requires
      var r := rows[i];
      if r.status == ASSIGNED && r.available.Some? && (r.decisionId !in before || before[r.decisionId] < r.available.value)
      then after == before[r.decisionId := r.available.value]
      else after == before
    ensures LatestOf(rows[..i + 1], after)
  {
    var r := rows[i];
    assert rows[..i + 1] == rows[..i] + [r];
    forall x | x in rows[..i + 1] && x.status == ASSIGNED && x.available.Some?
      ensures x.decisionId in after && x.available.value <= after[x.decisionId]
    {
      assert x in rows[..i] || x == r;
    }
    forall id | id in after
      ensures exists x :: x in rows[..i + 1] && x.status == ASSIGNED && x.decisionId == id && x.available == Some(after[id])
    {
      if id in before && after[id] == before[id] {
        var x :| x in rows[..i] && x.status == ASSIGNED && x.decisionId == id && x.available == Some(before[id]);
        assert x in rows[..i + 1];
      } else {
        assert r in rows[..i + 1];
      }
    }
  }

  // ----- attaching features to decisions -----

  function CellOf(groups: map<Pair, Stats>, families: set<string>, decisionId: string, windowName: string): Features {
    FeaturesOf(if (decisionId, windowName) in groups then groups[(decisionId, windowName)] else NOTHING, families)
  }

  method CellsOf(groups: map<Pair, Stats>, families: set<string>, decisionId: string, windows: seq<Window>)
    returns (cells: map<string, Features>)
    ensures forall k :: 0 <= k < |windows| ==>
      windows[k].name in cells && cells[windows[k].name] == CellOf(groups, families, decisionId, windows[k].name)
  {
    hide CellOf;
    cells := map[];
    for k := 0 to |windows|
      invariant forall m :: 0 <= m < k ==>
        windows[m].name in cells && cells[windows[m].name] == CellOf(groups, families, decisionId, windows[m].name)
    {
      cells := cells[windows[k].name := CellOf(groups, families, decisionId, windows[k].name)];
    }
  }

  /** One row of feature cells per decision, in decision order. Decisions that are not prepared and
      aggregates for an unknown decision are refused, and a decision without an aggregate gets zeros. */
  method ApplyEventFeatures(decisions: seq<Decision>, groups: map<Pair, Stats>, families: set<string>, windows: seq<Window>)
    returns (r: Result<seq<map<string, Features>>>)
    ensures r.Success? <==> Prepared(decisions) && forall p :: p in groups ==> exists d :: d in decisions && d.id == p.0
    ensures r.Success? ==> |r.value| == |decisions|
    ensures r.Success? ==> forall i, k :: 0 <= i < |decisions| && 0 <= k < |windows| ==>
      windows[k].name in r.value[i] && r.value[i][windows[k].name] == CellOf(groups, families, decisions[i].id, windows[k].name)
  {
    hide CellOf;
    if !Prepared(decisions) {
      return Failure("decision rows are not prepared");
    }
    var ids := set i | 0 <= i < |decisions| :: decisions[i].id;
    if p :| p in groups && p.0 !in ids {
      return Failure("assigned events reference unknown decisions");
    }
    forall p | p in groups ensures exists d :: d in decisions && d.id == p.0 {
      assert p.0 in ids;
      var i :| 0 <= i < |decisions| && decisions[i].id == p.0;
      assert decisions[i] in decisions;
    }
    var output: seq<map<string, Features>> := [];
    for i := 0 to |decisions|
      invariant |output| == i
      invariant forall j, k :: 0 <= j < i && 0 <= k < |windows| ==>
        windows[k].name in output[j] && output[j][windows[k].name] == CellOf(groups, families, decisions[j].id, windows[k].name)
    {
      var cells := CellsOf(groups, families, decisions[i].id, windows);
      output := output + [cells];
    }
    return Success(output);
  }

  // ----- the rebuilt features are the direct features -----

  /** Any table with the same rows as the evidence folds to the direct scan. */
  lemma FoldIsDirectScan(events: seq<Event>, decisions: seq<Decision>, j: nat, windows: seq<Window>, k: nat, rows: seq<Row>)
    requires j < |decisions| && DistinctIds(decisions)
    requires k < |windows| && DistinctNames(windows)
    requires multiset(rows) == multiset(AllRows(events, decisions, windows))
    ensures StatsOf(Filter(IsPair(decisions[j].id, windows[k].name), rows)) == DirectStats(events, decisions[j], windows[k])
  {
    var p := IsPair(decisions[j].id, windows[k].name);
    var all := AllRows(events, decisions, windows);
    FilterPermutation(p, rows, all);
    StatsPermutation(Filter(p, rows), Filter(p, all));
    PairEvidence(events, decisions, j, windows, k);
    ScanOfSeenRows(events, decisions[j], windows[k]);
  }

  lemma CellIsDirectScan(events: seq<Event>, decisions: seq<Decision>, j: nat, windows: seq<Window>, k: nat,
                         rows: seq<Row>, groups: map<Pair, Stats>, families: set<string>)
    requires j < |decisions| && DistinctIds(decisions)
    requires k < |windows| && DistinctNames(windows)
    requires multiset(rows) == multiset(AllRows(events, decisions, windows))
    requires Grouped(rows, groups)
    ensures CellOf(groups, families, decisions[j].id, windows[k].name) == FeaturesOf(DirectStats(events, decisions[j], windows[k]), families)
  {
    hide FeaturesOf, DirectStats;
    FoldIsDirectScan(events, decisions, j, windows, k, rows);
    NoStats();
  }

  lemma EvidenceIsKnown(events: seq<Event>, decisions: seq<Decision>, windows: seq<Window>, rows: seq<Row>, x: Row)
    requires multiset(rows) == multiset(AllRows(events, decisions, windows))
    requires x in rows && x.status == ASSIGNED
    ensures exists k :: 0 <= k < |windows| && windows[k].name == x.windowName
    ensures exists d :: d in decisions && d.id == x.decisionId && x.available.Some? && x.available.value <= d.time
  {
    SameMembers(rows, AllRows(events, decisions, windows));
    AssignedExactly(events, decisions, windows, x);
  }

  /** The cell of a decision and window describes its rows, also where it has none. */
  lemma CellDescribesItsRows(rows: seq<Row>, groups: map<Pair, Stats>, families: set<string>, decisionId: string, windowName: string)
    requires Grouped(rows, groups)
    ensures Describes(CellOf(groups, families, decisionId, windowName), Filter(IsPair(decisionId, windowName), rows), families)
  {
    hide FeaturesOf, Describes;
    var p: Pair := (decisionId, windowName);
    assert p in groups <==> Filter(IsPair(p.0, p.1), rows) != [];
    NoStats();
    FeaturesDescribeTheRows(Filter(IsPair(decisionId, windowName), rows), families);
  }

  /** The families that get a source-count column: the named ones, else those of all event rows. */
  ghost function FamilyColumns(events: seq<Event>, named: Option<set<string>>): set<string> {
    if named.Some? then named.value else set e | e in events :: e.family
  }

  /** The source takes the families from the evidence rows, excluded ones included. */
  method ColumnFamilies(rows: seq<Row>, named: Option<set<string>>) returns (families: set<string>)
    ensures families == if named.Some? then named.value else set r | r in rows :: r.family
  {
    if named.Some? {
      return named.value;
    }
    families := {};
    for i := 0 to |rows|
      invariant families == set r | r in rows[..i] :: r.family
    {
      assert rows[..i + 1] == rows[..i] + [rows[i]];
      families := families + {rows[i].family};
    }
    assert rows[..|rows|] == rows;
  }

  /** Every event row leaves a row with its family, so the evidence names the families of the events. */
  lemma RowFamilies(events: seq<Event>, decisions: seq<Decision>, windows: seq<Window>, rows: seq<Row>)
    requires multiset(rows) == multiset(AllRows(events, decisions, windows))
    ensures (set r | r in rows :: r.family) == (set e | e in events :: e.family)
  {
    hide AllRows, EventRows;
    SameMembers(rows, AllRows(events, decisions, windows));
    forall r | r in rows ensures exists e :: e in events && e.family == r.family {
      var i := RowHasOrigin(events, decisions, windows, r);
      FamilyOfRow(events[i], HasId(events[..i], events[i].id), decisions, windows, r);
      assert events[i] in events;
    }
    forall e | e in events ensures exists r :: r in rows && r.family == e.family {
      var i :| 0 <= i < |events| && events[i] == e;
      var r := SomeRow(e, HasId(events[..i], e.id), decisions, windows);
      OriginIsRecorded(events, decisions, windows, r, i);
    }
  }

  lemma FamilyOfRow(e: Event, duplicate: bool, decisions: seq<Decision>, windows: seq<Window>, r: Row)
    requires r in EventRows(e, duplicate, decisions, windows)
    ensures r.family == e.family
  {
    AssignedRowsMember(e, decisions, windows, r);
  }

  lemma SomeRow(e: Event, duplicate: bool, decisions: seq<Decision>, windows: seq<Window>) returns (r: Row)
    ensures r in EventRows(e, duplicate, decisions, windows) && r.family == e.family
  {
    r := EventRows(e, duplicate, decisions, windows)[0];
    FamilyOfRow(e, duplicate, decisions, windows, r);
  }

  /** Building the evidence, folding it and attaching it gives every decision, for every window,
      the features of a direct scan of the events that it must see; and the recorded latest
      availability of a decision is never after the decision. */
  method ReproduceEventFeatures(decisions: seq<Decision>, events: seq<Event>, windows: seq<Window>, named: Option<set<string>>)
    returns (r: Result<seq<map<string, Features>>>, latest: map<string, int>)
    requires DistinctNames(windows)
    ensures r.Success? <==> Prepared(decisions) && windows != []
    ensures r.Success? ==> |r.value| == |decisions|
    ensures r.Success? ==> forall i, k :: 0 <= i < |decisions| && 0 <= k < |windows| ==>
      && windows[k].name in r.value[i]
      && r.value[i][windows[k].name] == FeaturesOf(DirectStats(events, decisions[i], windows[k]), FamilyColumns(events, named))
      && Describes(r.value[i][windows[k].name], SeenRows(events, decisions[i], windows[k]), FamilyColumns(events, named))
    ensures forall i :: 0 <= i < |decisions| && decisions[i].id in latest ==> latest[decisions[i].id] <= decisions[i].time
  {
    hide FeaturesOf, DirectStats, AllRows, Describes, SeenRows, StatsOf;
    latest := map[];
    var built := BuildEventAssignments(decisions, events, windows);
    if built.Failure? {
      return Failure(built.error), latest;
    }
    var rows := built.value;
    forall x | x in rows && x.status == ASSIGNED
      ensures exists k :: 0 <= k < |windows| && windows[k].name == x.windowName
      ensures exists d :: d in decisions && d.id == x.decisionId && x.available.Some? && x.available.value <= d.time
    {
      EvidenceIsKnown(events, decisions, windows, rows, x);
    }
    var families := ColumnFamilies(rows, named);
    RowFamilies(events, decisions, windows, rows);
    var aggregated := AggregateEventAssignments(rows, windows);
    var (groups, times) := aggregated.value;
    latest := times;
    forall p | p in groups ensures exists d :: d in decisions && d.id == p.0 {
      var kept := Filter(IsPair(p.0, p.1), rows);
      FilterMember(IsPair(p.0, p.1), rows, kept[0]);
      PairOfRow(kept[0], p);
    }
    r := ApplyEventFeatures(decisions, groups, families, windows);
    forall j, k | 0 <= j < |decisions| && 0 <= k < |windows|
      ensures CellOf(groups, families, decisions[j].id, windows[k].name) == FeaturesOf(DirectStats(events, decisions[j], windows[k]), families)
      ensures Describes(FeaturesOf(DirectStats(events, decisions[j], windows[k]), families), SeenRows(events, decisions[j], windows[k]), families)
    {
      ScanOfSeenRows(events, decisions[j], windows[k]);
      FeaturesDescribeTheRows(SeenRows(events, decisions[j], windows[k]), families);
      CellIsDirectScan(events, decisions, j, windows, k, rows, groups, families);
    }
    forall i | 0 <= i < |decisions| && decisions[i].id in latest ensures latest[decisions[i].id] <= decisions[i].time {
      LatestIsSeen(decisions, rows, latest, i);
    }
  }

  lemma LatestIsSeen(decisions: seq<Decision>, rows: seq<Row>, latest: map<string, int>, i: nat)
    requires DistinctIds(decisions) && LatestOf(rows, latest)
    requires i < |decisions| && decisions[i].id in latest
    requires forall x :: x in rows && x.status == ASSIGNED ==>
      exists d :: d in decisions && d.id == x.decisionId && x.available.Some? && x.available.value <= d.time
    ensures latest[decisions[i].id] <= decisions[i].time
  {
    var id := decisions[i].id;
    var x :| x in rows && x.status == ASSIGNED && x.decisionId == id && x.available == Some(latest[id]);
    var d :| d in decisions && d.id == x.decisionId && x.available.Some? && x.available.value <= d.time;
    var j :| 0 <= j < |decisions| && decisions[j] == d;
    assert i == j;
  }

  // ----- laws of the features -----

  /** A wider window sees at least as much. */
  lemma {:induction false} WiderWindowSeesMore(events: seq<Event>, d: Decision, narrow: Window, wide: Window)
    requires narrow.length <= wide.length
    ensures DirectStats(events, d, narrow).count <= DirectStats(events, d, wide).count
    ensures DirectStats(events, d, narrow).families <= DirectStats(events, d, wide).families
  {
    if events != [] {
      WiderWindowSeesMore(events[..|events| - 1], d, narrow, wide);
    }
  }

  lemma {:induction false} CountsAndFractions(events: seq<Event>, d: Decision, w: Window)
    ensures
      var s := DirectStats(events, d, w);
      && |s.families| == s.count
      && s.unknown <= s.count && s.present <= s.count && s.low <= s.count && s.unknown <= s.low
  {
    if events != [] {
      CountsAndFractions(events[..|events| - 1], d, w);
    }
  }

  lemma RatioInUnit(part: nat, whole: nat)
    requires part <= whole
    ensures 0.0 <= Ratio(part as real, whole as real) <= 1.0
  {
    if whole > 0 {
      assert part as real / whole as real <= whole as real / whole as real == 1.0;
    }
  }

  /** Every fraction lies in [0, 1], and unknown relevance counts as low. */
  lemma FeatureLaws(events: seq<Event>, d: Decision, w: Window, families: set<string>)
    ensures
      var f := FeaturesOf(DirectStats(events, d, w), families);
      && 0.0 <= f.unknownFraction <= 1.0
      && 0.0 <= f.coverage <= 1.0
      && 0.0 <= f.lowFraction <= 1.0
      && f.unknownFraction <= f.lowFraction
  {
    hide DirectStats, NamedFamilies;
    CountsAndFractions(events, d, w);
    var s := DirectStats(events, d, w);
    RatioInUnit(s.unknown, s.count);
    RatioInUnit(s.present, s.count);
    RatioInUnit(s.low, s.count);
    if s.count > 0 {
      Scaling(s.unknown as real, s.low as real, s.count as real);
    }
  }

  lemma Scaling(a: real, b: real, w: real)
    requires a <= b && w > 0.0
    ensures a / w <= b / w
  {}

  /** The sum of the source counts over the given columns. */
  function ColumnSum(counts: map<string, nat>, columns: seq<string>): nat
    requires forall c :: c in columns ==> c in counts
  {
    if columns == [] then 0 else counts[columns[0]] + ColumnSum(counts, columns[1..])
  }

  lemma {:induction false} ColumnsHoldTheMultiset(m: multiset<string>, counts: map<string, nat>, columns: seq<string>)
    requires NoDuplicates(columns) && forall c :: c in columns ==> c in counts && counts[c] == m[c]
    ensures ColumnSum(counts, columns) <= |m|
    ensures ColumnSum(counts, columns) == |m| <==> forall f :: f in m ==> f in columns
    decreases |columns|
  {
    if columns == [] {
      assert |m| == 0 <==> m == multiset{};
      if m != multiset{} {
        var f :| f in m;
      }
    } else {
      var c, rest := columns[0], columns[1..];
      var less := m[c := 0];
      assert |less| == |m| - m[c];
      assert c !in rest;
      ColumnsHoldTheMultiset(less, counts, rest);
      assert forall f :: f in less <==> f in m && f != c;
      assert forall f :: f in columns <==> f == c || f in rest;
    }
  }

  /** Family counts never exceed the event count, and sum to it if and only if no seen family is blank
      and every seen family has a column. (Without an explicit list every family has one.) */
  lemma FamilyCountsSum(events: seq<Event>, d: Decision, w: Window, columns: seq<string>)
    requires NoDuplicates(columns)
    ensures
      var s := DirectStats(events, d, w);
      var f := FeaturesOf(s, set c | c in columns);
      && (forall c :: c in columns ==> c in f.sourceCounts)
      && ColumnSum(f.sourceCounts, columns) <= s.count
      && (ColumnSum(f.sourceCounts, columns) == s.count <==> forall x :: x in s.families ==> x != "" && x in columns)
  {
    hide DirectStats;
    CountsAndFractions(events, d, w);
    var s := DirectStats(events, d, w);
    var named := s.families["" := 0];
    assert |named| == |s.families| - s.families[""];
    var f := FeaturesOf(s, set c | c in columns);
    forall c | c in columns ensures c in f.sourceCounts && f.sourceCounts[c] == named[c] {}
    ColumnsHoldTheMultiset(named, f.sourceCounts, columns);
    assert forall x :: x in named <==> x in s.families && x != "";
  }

  /** The weighted events a decision sees have known, non-negative relevance and sentiment in [lo, hi]. */
  ghost predicate SentimentWithin(events: seq<Event>, d: Decision, w: Window, lo: real, hi: real) {
    forall e :: e in events && InWindow(e, d, w) && e.sentiment.Some? && e.relevance.Some? ==>
      e.relevance.value >= 0.0 && lo <= e.sentiment.value <= hi
  }

  ghost predicate MeanWithin(s: Stats, lo: real, hi: real) {
    s.weight >= 0.0 && lo * s.weight <= s.weighted <= hi * s.weight
  }

  lemma ObserveWithin(s: Stats, family: string, sentiment: Option<real>, relevance: Option<real>, lo: real, hi: real)
    requires MeanWithin(s, lo, hi)
    requires sentiment.Some? && relevance.Some? ==> relevance.value >= 0.0 && lo <= sentiment.value <= hi
    ensures MeanWithin(Observe(s, family, sentiment, relevance), lo, hi)
  {
    if sentiment.Some? && relevance.Some? {
      Weighing(lo, sentiment.value, hi, relevance.value);
      Spread(lo, s.weight, relevance.value);
      Spread(hi, s.weight, relevance.value);
    }
  }

  lemma Weighing(lo: real, s: real, hi: real, r: real)
    requires lo <= s <= hi && r >= 0.0
    ensures lo * r <= s * r <= hi * r
  {}

  lemma Spread(x: real, a: real, b: real)
    ensures x * (a + b) == x * a + x * b
  {}

  lemma {:induction false} WeightedBounds(events: seq<Event>, d: Decision, w: Window, lo: real, hi: real)
    requires SentimentWithin(events, d, w, lo, hi)
    ensures MeanWithin(DirectStats(events, d, w), lo, hi)
  {
    hide Observe;
    if events == [] {
      assert MeanWithin(NOTHING, lo, hi);
    } else {
      hide MeanWithin, NOTHING;
      var n := |events| - 1;
      var e := events[n];
      assert e in events;
      forall x | x in events[..n] ensures x in events {}
      WeightedBounds(events[..n], d, w, lo, hi);
      if InWindow(e, d, w) {
        ObserveWithin(DirectStats(events[..n], d, w), e.family, e.sentiment, e.relevance, lo, hi);
      }
    }
  }

  lemma NonNegativeFactor(a: real, w: real)
    requires w > 0.0 && a * w >= 0.0
    ensures a >= 0.0
  {}

  lemma Quotient(lo: real, x: real, hi: real, weight: real)
    requires weight > 0.0 && lo * weight <= x <= hi * weight
    ensures lo <= x / weight <= hi
  {
    var q := x / weight;
    assert q * weight == x;
    assert (q - lo) * weight == q * weight - lo * weight;
    assert (hi - q) * weight == hi * weight - q * weight;
    NonNegativeFactor(q - lo, weight);
    NonNegativeFactor(hi - q, weight);
  }

  /** With non-negative relevance the weighted sentiment lies within the range of its inputs. */
  lemma SentimentMeanInRange(events: seq<Event>, d: Decision, w: Window, lo: real, hi: real, families: set<string>)
    requires SentimentWithin(events, d, w, lo, hi)
    ensures
      var s := DirectStats(events, d, w);
      if s.weight > 0.0 then lo <= FeaturesOf(s, families).sentimentMean <= hi else FeaturesOf(s, families).sentimentMean == 0.0
  {
    hide DirectStats, NamedFamilies;
    WeightedBounds(events, d, w, lo, hi);
    var s := DirectStats(events, d, w);
    if s.weight > 0.0 {
      Quotient(lo, s.weighted, hi, s.weight);
    }
  }

  /** The features of a decision depend only on the events that were available by then if and only if
      no row in the window is hidden; with distinct event ids none is. */
  lemma FeaturesHaveNoLookAhead(events: seq<Event>, d: Decision, w: Window)
    ensures DirectStats(events, d, w) == DirectStats(Filter(AvailableBy(d.time), events), d, w) <==> NoneHidden(events, d, w)
    ensures DistinctEvents(events) ==> NoneHidden(events, d, w)
  {
    hide NoneHidden, DirectStats, SeenRows, StatsOf;
    NoLookAheadExactlyWhen(events, d, w);
    if DistinctEvents(events) {
      NoLookAhead(events, d, w);
    }
    var known := Filter(AvailableBy(d.time), events);
    ScanOfSeenRows(events, d, w);
    ScanOfSeenRows(known, d, w);
    StatsCountRows(SeenRows(events, d, w), "");
    StatsCountRows(SeenRows(known, d, w), "");
  }

  // ----- conservation -----

  ghost function SumOfCounts(events: seq<Event>, decisions: seq<Decision>, w: Window): nat {
    if decisions == [] then 0
    else DirectStats(events, decisions[0], w).count + SumOfCounts(events, decisions[1..], w)
  }

  ghost function SeersOf(e: Event, decisions: seq<Decision>, w: Window): nat {
    if decisions == [] then 0 else Bit(InWindow(e, decisions[0], w)) + SeersOf(e, decisions[1..], w)
  }

  function IsWindow(name: string): Row -> bool {
    (r: Row) => r.status == ASSIGNED && r.windowName == name
  }

  lemma WindowOfDecision(e: Event, d: Decision, windows: seq<Window>, k: nat)
    requires k < |windows| && DistinctNames(windows)
    ensures |Filter(IsWindow(windows[k].name), DecisionRows(e, windows)(d))| == Bit(InWindow(e, d, windows[k]))
  {
    var p := IsWindow(windows[k].name);
    var f := PairRows(e, d);
    forall j | 0 <= j < |windows| && j != k ensures Filter(p, f(windows[j])) == [] {
      FilterNone(p, f(windows[j]));
    }
    FilterFlatMap(p, f, windows, k);
    var here := f(windows[k]);
    assert Filter(p, here) == if here == [] then [] else [here[0]] + Filter(p, here[1..]);
  }

  lemma {:induction false} WindowOfEvent(e: Event, decisions: seq<Decision>, windows: seq<Window>, k: nat)
    requires k < |windows| && DistinctNames(windows)
    ensures |Filter(IsWindow(windows[k].name), AssignedRows(e, decisions, windows))| == SeersOf(e, decisions, windows[k])
    decreases |decisions|
  {
    if decisions != [] {
      var f := DecisionRows(e, windows);
      WindowOfDecision(e, decisions[0], windows, k);
      WindowOfEvent(e, decisions[1..], windows, k);
      FilterConcat(IsWindow(windows[k].name), f(decisions[0]), FlatMap(f, decisions[1..]));
    }
  }

  lemma {:induction false} CountsSplit(events: seq<Event>, decisions: seq<Decision>, w: Window)
    requires events != []
    ensures
      var n := |events| - 1;
      SumOfCounts(events, decisions, w)
        == SumOfCounts(events[..n], decisions, w) + (if First(events, n) then SeersOf(events[n], decisions, w) else 0)
    decreases |decisions|
  {
    if decisions != [] {
      CountsSplit(events, decisions[1..], w);
    }
  }

  lemma {:induction false} NoCounts(decisions: seq<Decision>, w: Window)
    ensures SumOfCounts([], decisions, w) == 0
  {
    if decisions != [] {
      NoCounts(decisions[1..], w);
    }
  }

  /** For each window, the event counts of all decisions sum to the number of assigned rows. */
  lemma {:induction false} CountsSumToAssignedRows(events: seq<Event>, decisions: seq<Decision>, windows: seq<Window>, k: nat)
    requires k < |windows| && DistinctNames(windows)
    ensures SumOfCounts(events, decisions, windows[k])
      == |Filter(IsWindow(windows[k].name), AllRows(events, decisions, windows))|
    decreases |events|
  {
    if events == [] {
      NoCounts(decisions, windows[k]);
    } else {
      var n := |events| - 1;
      var e := events[n];
      var p := IsWindow(windows[k].name);
      var duplicate := HasId(events[..n], e.id);
      CountsSumToAssignedRows(events[..n], decisions, windows, k);
      CountsSplit(events, decisions, windows[k]);
      WindowOfEvent(e, decisions, windows, k);
      FilterNone(p, [ExclusionRow(e, Exclusion(e, duplicate, decisions))]);
      FilterConcat(p, AllRows(events[..n], decisions, windows), EventRows(e, duplicate, decisions, windows));
    }
  }
}
