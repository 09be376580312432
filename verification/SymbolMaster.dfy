/** Point-in-time resolution of symbols to securities (canonical/symbol_master.py). */
module SymbolMaster {
  import opened Prelude
  import opened Intervals

  datatype SymbolRecord = SymbolRecord(canonicalId: string, symbol: string, from: int, to: Option<int>,
                                       status: string, source: string)

  const STATUSES: set<string> := {"active", "delisted"}

  function Span(r: SymbolRecord): Interval { Interval(r.from, r.to) }

  function SymbolOf(r: SymbolRecord): string { r.symbol }

  function SecurityOf(r: SymbolRecord): string { r.canonicalId }

  /** Statuses are known, intervals are not empty, and at no moment do two records share a symbol or a security. */
  ghost predicate Valid(records: seq<SymbolRecord>) {
    && (forall r :: r in records ==> r.status in STATUSES && NonEmpty(Span(r)))
    && OneAtATime(SymbolOf, Span, records)
    && OneAtATime(SecurityOf, Span, records)
  }

  /** The record is in effect: begun and not ended. */
  predicate InEffect(r: SymbolRecord, t: int) {
    r.from <= t && (r.to.Some? ==> t < r.to.value)
  }

  /** Both records are in effect at some moment. */
  ghost predicate Meet(a: SymbolRecord, b: SymbolRecord) {
    exists t :: InEffect(a, t) && InEffect(b, t)
  }

  /** Exactly the valid tables: only active and delisted records, none of which ends before it has begun,
      and two records that are ever in effect together differ in symbol and in security. */
  lemma ValidExactlyWhen(records: seq<SymbolRecord>)
    ensures Valid(records) <==>
      && (forall i :: 0 <= i < |records| ==> records[i].status == "active" || records[i].status == "delisted")
      && (forall i :: 0 <= i < |records| && records[i].to.Some? ==> records[i].from < records[i].to.value)
      && (forall i, j :: 0 <= i < j < |records| && Meet(records[i], records[j]) ==>
            records[i].symbol != records[j].symbol && records[i].canonicalId != records[j].canonicalId)
  {
    hide OneAtATime, Disjoint, Meet;
    OneAtATimeMeans(SymbolOf, Span, records);
    OneAtATimeMeans(SecurityOf, Span, records);
    forall i, j | 0 <= i < j < |records|
      ensures Disjoint(Span(records[i]), Span(records[j])) <==> !Meet(records[i], records[j])
    {
      DisjointDoNotMeet(records[i], records[j]);
    }
    EachOrAll(records);
    assert forall i :: 0 <= i < |records| ==> SymbolOf(records[i]) == records[i].symbol && SecurityOf(records[i]) == records[i].canonicalId;
  }

  lemma DisjointDoNotMeet(a: SymbolRecord, b: SymbolRecord)
    ensures Disjoint(Span(a), Span(b)) <==> !Meet(a, b)
  {
    if !Disjoint(Span(a), Span(b)) {
      var t :| Contains(Span(a), t) && Contains(Span(b), t);
      assert InEffect(a, t) && InEffect(b, t);
    }
    if t :| InEffect(a, t) && InEffect(b, t) {
      assert Contains(Span(a), t) && Contains(Span(b), t);
    }
  }

  lemma EachOrAll(records: seq<SymbolRecord>)
    ensures (forall r :: r in records ==> r.status in STATUSES && NonEmpty(Span(r))) <==>
      forall i :: 0 <= i < |records| ==> records[i].status in STATUSES && NonEmpty(Span(records[i]))
  {
    if forall i :: 0 <= i < |records| ==> records[i].status in STATUSES && NonEmpty(Span(records[i])) {
      forall r | r in records ensures r.status in STATUSES && NonEmpty(Span(r)) {
        var i :| 0 <= i < |records| && records[i] == r;
      }
    }
  }

  method AssertNonOverlapping(records: seq<SymbolRecord>, key: SymbolRecord -> string) returns (ok: bool)
    requires forall r :: r in records ==> NonEmpty(Span(r))
    ensures ok <==> OneAtATime(key, Span, records)
  {
    hide OneAtATime, GroupedBy;
    var groups := GroupBy(key, records);
    GroupsDecide(key, Span, records, groups);
    var todo := groups.Keys;
    ok := true;
    while todo != {}
      invariant todo <= groups.Keys
      invariant ok <==> forall k :: k in groups && k !in todo ==> PairwiseDisjoint(Span, groups[k])
      decreases |todo|
    {
      var k :| k in todo;
      todo := todo - {k};
      GroupNonEmpty(records, key, groups, k);
      var disjoint := OrderedNeighbours(groups[k]);
      if !disjoint {
        ok := false;
      }
    }
  }

  lemma GroupNonEmpty(records: seq<SymbolRecord>, key: SymbolRecord -> string,
                      groups: map<string, seq<SymbolRecord>>, k: string)
    requires GroupedBy(key, records, groups) && k in groups
    requires forall r :: r in records ==> NonEmpty(Span(r))
    ensures AllNonEmpty(Span, groups[k])
  {
    forall i | 0 <= i < |groups[k]| ensures NonEmpty(Span(groups[k][i])) {
      FilterMember(HasKey(key, k), records, groups[k][i]);
    }
  }

  predicate ChecksOut(ordered: seq<SymbolRecord>, k: int) {
    0 <= k < |ordered| - 1 && EndsBefore(Span(ordered[k]), Span(ordered[k + 1]))
  }

  /** Sorts one group by start and checks each record against the next one. */
  method OrderedNeighbours(items: seq<SymbolRecord>) returns (ok: bool)
    requires AllNonEmpty(Span, items)
    ensures ok <==> PairwiseDisjoint(Span, items)
  {
    hide TotalPreorder, SortedBy, StartLeq, PairwiseDisjoint, AllNonEmpty;
    StartOrder(Span);
    var ordered := Sort(StartLeq(Span), items);
    OrderedDecides(items, ordered);
    ok := true;
    var i := 0;
    while i + 1 < |ordered|
      invariant 0 <= i && (i == 0 || i < |ordered|)
      invariant ok <==> forall k :: 0 <= k < i ==> ChecksOut(ordered, k)
    {
      assert ChecksOut(ordered, i) <==> ordered[i].to.Some? && ordered[i].to.value <= ordered[i + 1].from;
      if ordered[i].to.None? || ordered[i].to.value > ordered[i + 1].from {
        ok := false;
      }
      i := i + 1;
    }
  }

  lemma OrderedDecides(items: seq<SymbolRecord>, ordered: seq<SymbolRecord>)
    requires multiset(items) == multiset(ordered) && AllNonEmpty(Span, items)
    requires SortedBy(StartLeq(Span), ordered)
    ensures PairwiseDisjoint(Span, items) <==> forall k :: 0 <= k < |ordered| - 1 ==> ChecksOut(ordered, k)
  {
    DisjointPermutation(Span, items, ordered);
    NonEmptyPermutation(Span, items, ordered);
    forall i, j | 0 <= i < j < |ordered| ensures Span(ordered[i]).from <= Span(ordered[j]).from {
      assert StartLeq(Span)(ordered[i], ordered[j]);
    }
    NeighboursSuffice(Span, ordered);
    assert forall k :: 0 <= k < |ordered| - 1 ==>
      (ChecksOut(ordered, k) <==> EndsBefore(Span(ordered[k]), Span(ordered[k + 1])));
  }

  method Validate(records: seq<SymbolRecord>) returns (ok: bool)
    ensures ok <==> Valid(records)
  {
    hide OneAtATime, STATUSES;
    for i := 0 to |records|
      invariant forall k :: 0 <= k < i ==> records[k].status in STATUSES && NonEmpty(Span(records[k]))
    {
      if records[i].status !in STATUSES
        || (records[i].to.Some? && records[i].to.value <= records[i].from) {
        assert records[i] in records;
        return false;
      }
    }
    var symbols := AssertNonOverlapping(records, SymbolOf);
    if !symbols { return false; }
    ok := AssertNonOverlapping(records, SecurityOf);
  }

  predicate HeldBy(r: SymbolRecord, symbol: string, asOf: int) {
    r.symbol == symbol && Contains(Span(r), asOf)
  }

  function ResolveIn(records: seq<SymbolRecord>, symbol: string, asOf: int): Option<string> {
    if records == [] then None
    else if HeldBy(records[0], symbol, asOf) then Some(records[0].canonicalId)
    else ResolveIn(records[1..], symbol, asOf)
  }

  method Resolve(records: seq<SymbolRecord>, symbol: string, asOf: int) returns (r: Option<string>)
    ensures r == ResolveIn(records, symbol, asOf)
  {
    for i := 0 to |records|
      invariant ResolveIn(records, symbol, asOf) == ResolveIn(records[i..], symbol, asOf)
    {
      if records[i].symbol == symbol && records[i].from <= asOf
        && (records[i].to.None? || asOf < records[i].to.value) {
        return Some(records[i].canonicalId);
      }
      assert records[i..][1..] == records[i + 1..];
    }
    r := None;
  }

  lemma {:induction false} ResolveFinds(records: seq<SymbolRecord>, symbol: string, asOf: int)
    ensures
      var r := ResolveIn(records, symbol, asOf);
      if r.Some? then exists x :: x in records && HeldBy(x, symbol, asOf) && x.canonicalId == r.value
      else forall x :: x in records ==> !HeldBy(x, symbol, asOf)
  {
    if records != [] {
      ResolveFinds(records[1..], symbol, asOf);
      assert records[0] in records;
      assert forall x :: x in records ==> x == records[0] || x in records[1..];
    }
  }

  lemma KeyedBy(r: SymbolRecord, k: string, t: int)
    ensures KeyAt(SymbolOf, Span, k, t)(r) <==> r.symbol == k && Contains(Span(r), t)
    ensures KeyAt(SecurityOf, Span, k, t)(r) <==> r.canonicalId == k && Contains(Span(r), t)
  {
    assert SymbolOf(r) == r.symbol && SecurityOf(r) == r.canonicalId;
  }

  lemma AtMostOneMatch<R>(p: R -> bool, s: seq<R>, x: R, y: R)
    requires |Filter(p, s)| <= 1 && x in s && y in s && p(x) && p(y)
    ensures x == y
  {
    FilterMember(p, s, x);
    FilterMember(p, s, y);
  }

  /** Resolution is the relation itself: it returns a security exactly when some record gives the
      symbol to that security on that date. */
  lemma ResolveExactly(records: seq<SymbolRecord>, symbol: string, asOf: int, id: string)
    requires Valid(records)
    ensures ResolveIn(records, symbol, asOf) == Some(id)
      <==> exists x :: x in records && x.symbol == symbol && InEffect(x, asOf) && x.canonicalId == id
  {
    ResolveFinds(records, symbol, asOf);
    assert forall x :: HeldBy(x, symbol, asOf) <==> x.symbol == symbol && InEffect(x, asOf);
    if x :| x in records && HeldBy(x, symbol, asOf) && x.canonicalId == id {
      var y :| y in records && HeldBy(y, symbol, asOf) && Some(y.canonicalId) == ResolveIn(records, symbol, asOf);
      KeyedBy(x, symbol, asOf);
      KeyedBy(y, symbol, asOf);
      AtMostOneMatch(KeyAt(SymbolOf, Span, symbol, asOf), records, x, y);
    }
  }

  /** On any date two different symbols never resolve to the same security. */
  lemma ResolveIsOneToOne(records: seq<SymbolRecord>, a: string, b: string, asOf: int)
    requires Valid(records)
    requires ResolveIn(records, a, asOf).Some? && ResolveIn(records, a, asOf) == ResolveIn(records, b, asOf)
    ensures a == b
  {
    var id := ResolveIn(records, a, asOf).value;
    ResolveFinds(records, a, asOf);
    ResolveFinds(records, b, asOf);
    var x :| x in records && HeldBy(x, a, asOf) && x.canonicalId == id;
    var y :| y in records && HeldBy(y, b, asOf) && y.canonicalId == id;
    KeyedBy(x, id, asOf);
    KeyedBy(y, id, asOf);
    AtMostOneMatch(KeyAt(SecurityOf, Span, id, asOf), records, x, y);
  }

  /** Neither validity nor resolution depends on the order of the records. */
  lemma OrderIsIrrelevant(records: seq<SymbolRecord>, shuffled: seq<SymbolRecord>, symbol: string, asOf: int)
    requires multiset(records) == multiset(shuffled) && Valid(records)
    ensures Valid(shuffled)
    ensures ResolveIn(shuffled, symbol, asOf) == ResolveIn(records, symbol, asOf)
  {
    hide OneAtATime, STATUSES, ResolveIn;
    OneAtATimePermutation(SymbolOf, Span, records, shuffled);
    OneAtATimePermutation(SecurityOf, Span, records, shuffled);
    assert forall x :: x in records <==> x in multiset(records);
    assert forall x :: x in shuffled <==> x in multiset(shuffled);
    ResolveFinds(shuffled, symbol, asOf);
    ResolveFinds(records, symbol, asOf);
    if ResolveIn(shuffled, symbol, asOf).Some? {
      ResolveExactly(records, symbol, asOf, ResolveIn(shuffled, symbol, asOf).value);
    }
  }
}
