/** The chain of prospective polls (collection/prospective_broker_actions.py): who each ticker is
    from poll to poll, which stretches of time a ticker's coverage spans, and the loader that walks
    a poll back to its first ancestor and replays the chain.

    Time stamps are integers (seconds); `stale` is the outcome of the calendar check on the
    membership cutoff date. */
module PollChain {
  import opened Prelude
  import Intervals

  datatype Membership = Membership(ticker: string, securityId: string, from: int, to: Option<int>, availableAt: int)

  datatype Asset = Asset(id: string, active: bool, tradable: bool)

  datatype Reason =
    | Eligible
    | MembershipAuthorityStale
    | IdentityNotAvailableAtPoll
    | AmbiguousMembershipIdentity
    | MultipleActiveIntervals
    | AssetMissing
    | AssetInactiveOrNotTradable
    | UnresolvedIdentityChange

  datatype IdentityRow = IdentityRow(candidate: string, assetId: string, intervals: nat, eligible: bool, reason: Reason,
                                     lastSecurity: string, lastAsset: string, quarantined: bool)

  datatype Coverage = Coverage(start: int, end: int, continuous: bool, status: string)

  // ----- one ticker at one poll -----

  function SecurityIds(group: seq<Membership>): set<string> {
    set m | m in group :: m.securityId
  }

  /** The candidate security id, or blank when the active memberships name several. */
  function Candidate(group: seq<Membership>): string
    requires group != []
  {
    if |SecurityIds(group)| == 1 then group[0].securityId else ""
  }

  /** The first reason that speaks against the ticker, before its history is considered. */
  function OwnReason(group: seq<Membership>, asset: Option<Asset>, stale: bool, point: int): Reason {
    if stale then MembershipAuthorityStale
    else if exists i :: 0 <= i < |group| && group[i].availableAt > point then IdentityNotAvailableAtPoll
    else if |SecurityIds(group)| != 1 then AmbiguousMembershipIdentity
    else if |group| != 1 then MultipleActiveIntervals
    else if asset.None? then AssetMissing
    else if !asset.value.active || !asset.value.tradable then AssetInactiveOrNotTradable
    else Eligible
  }

  function AuditRow(group: seq<Membership>, asset: Option<Asset>, stale: bool, point: int, previous: Option<IdentityRow>): IdentityRow
    requires group != []
  {
    var own := OwnReason(group, asset, stale, point);
    var candidate := Candidate(group);
    var assetId := if asset.Some? then asset.value.id else "";
    var wasQuarantined := previous.Some? && previous.value.quarantined;
    var (lastSecurity, lastAsset) :=
      if previous.None? then ("", "")
      else if previous.value.eligible then (previous.value.candidate, previous.value.assetId)
      else (previous.value.lastSecurity, previous.value.lastAsset);
    var changed := lastSecurity != "" && (lastSecurity != candidate || lastAsset != assetId);
    var reason := if own.Eligible? && previous.Some? && (wasQuarantined || changed) then UnresolvedIdentityChange else own;
    var eligible := reason.Eligible?;
    IdentityRow(candidate, assetId, |group|, eligible, reason,
                if eligible then candidate else lastSecurity,
                if eligible then assetId else lastAsset,
                wasQuarantined || reason.UnresolvedIdentityChange?)
  }

  /** Which reason is reported: the first of the checks, in this order, that fails. */
  lemma ReasonExactly(group: seq<Membership>, asset: Option<Asset>, stale: bool, point: int)
    requires group != []
    ensures
      var reason := OwnReason(group, asset, stale, point);
      var late := exists m :: m in group && m.availableAt > point;
      var several := exists m, n :: m in group && n in group && m.securityId != n.securityId;
      && (reason == MembershipAuthorityStale <==> stale)
      && (reason == IdentityNotAvailableAtPoll <==> !stale && late)
      && (reason == AmbiguousMembershipIdentity <==> !stale && !late && several)
      && (reason == MultipleActiveIntervals <==> !stale && !late && !several && |group| > 1)
      && (reason == AssetMissing <==> !stale && !late && |group| == 1 && asset == None)
      && (reason == AssetInactiveOrNotTradable <==>
            !stale && !late && |group| == 1 && asset.Some? && !(asset.value.active && asset.value.tradable))
      && (several ==> Candidate(group) == "")
      && (!several ==> forall m :: m in group ==> m.securityId == Candidate(group))
  {
    var ids := SecurityIds(group);
    assert group[0].securityId in ids;
    LateIsLate(group, point);
    if m, n :| m in group && n in group && m.securityId != n.securityId {
      TwoMembers(ids, m.securityId, n.securityId);
    } else {
      forall id | id in ids ensures id == group[0].securityId {
        var m :| m in group && m.securityId == id;
        assert group[0] in group;
      }
      assert ids == {group[0].securityId};
      forall m | m in group ensures m.securityId == group[0].securityId {
        assert m.securityId in ids;
      }
    }
    if |group| == 1 {
      assert forall m :: m in group ==> m == group[0];
    }
  }

  lemma LateIsLate(group: seq<Membership>, point: int)
    ensures (exists i :: 0 <= i < |group| && group[i].availableAt > point) <==> (exists m :: m in group && m.availableAt > point)
  {
    if i :| 0 <= i < |group| && group[i].availableAt > point {
      assert group[i] in group;
    }
  }

  lemma TwoMembers(ids: set<string>, a: string, b: string)
    requires a in ids && b in ids && a != b
    ensures |ids| >= 2
  {
    assert {a, b} <= ids;
    SubsetCardinality({a, b}, ids);
  }

  /** Nothing speaks against a ticker if and only if the authority is fresh and its one active
      membership was available, for one asset that is active and tradable. */
  lemma NothingSpeaksAgainstExactlyWhen(group: seq<Membership>, asset: Option<Asset>, stale: bool, point: int)
    requires group != []
    ensures OwnReason(group, asset, stale, point) == Eligible <==>
      && !stale && |group| == 1 && group[0].availableAt <= point
      && asset.Some? && asset.value.active && asset.value.tradable
  {
    if |group| == 1 {
      assert SecurityIds(group) == {group[0].securityId};
    }
  }

  // ----- one poll -----

  datatype Inputs = Inputs(memberships: seq<Membership>, assets: map<string, Asset>, stale: bool)

  function TickerOf(m: Membership): string { m.ticker }

  function ActiveAt(point: int): Membership -> bool {
    (m: Membership) => m.from <= point && (m.to.None? || m.to.value > point)
  }

  function ActiveMemberships(inputs: Inputs, point: int): seq<Membership> {
    Filter(ActiveAt(point), inputs.memberships)
  }

  function GroupOf(inputs: Inputs, point: int, ticker: string): seq<Membership> {
    Filter(Intervals.HasKey(TickerOf, ticker), ActiveMemberships(inputs, point))
  }

  /** A ticker's group is its memberships in effect: begun, and not yet ended, at the moment. */
  lemma GroupIs(inputs: Inputs, point: int, ticker: string, m: Membership)
    ensures m in GroupOf(inputs, point, ticker) <==>
      m in inputs.memberships && m.ticker == ticker && m.from <= point && (m.to == None || point < m.to.value)
    ensures m.ticker == ticker && m.from <= point && (m.to == None || point < m.to.value) ==>
      multiset(GroupOf(inputs, point, ticker))[m] == multiset(inputs.memberships)[m]
  {
    FilterMember(ActiveAt(point), inputs.memberships, m);
    FilterMember(Intervals.HasKey(TickerOf, ticker), ActiveMemberships(inputs, point), m);
    FilterCount(ActiveAt(point), inputs.memberships, m);
    FilterCount(Intervals.HasKey(TickerOf, ticker), ActiveMemberships(inputs, point), m);
    assert TickerOf(m) == m.ticker;
  }

  function Lookup<V>(m: map<string, V>, k: string): Option<V> {
    if k in m then Some(m[k]) else None
  }

  /** The identity table that belongs to a poll: one row per ticker with an active membership. */
  ghost predicate IsIdentityAudit(identity: map<string, IdentityRow>, inputs: Inputs, point: int, previous: map<string, IdentityRow>) {
    && (forall t :: t in identity <==> GroupOf(inputs, point, t) != [])
    && (forall t :: t in identity ==>
          identity[t] == AuditRow(GroupOf(inputs, point, t), Lookup(inputs.assets, t), inputs.stale, point, Lookup(previous, t)))
  }

  method BuildIdentityAudit(inputs: Inputs, point: int, previous: map<string, IdentityRow>)
    returns (r: Result<map<string, IdentityRow>>)
    ensures r.Success? <==> ActiveMemberships(inputs, point) != []
    ensures r.Success? ==> IsIdentityAudit(r.value, inputs, point, previous)
  {
    hide AuditRow, ActiveAt;
    var active := ActiveMemberships(inputs, point);
    if active == [] {
      return Failure("no active intervals");
    }
    var groups := Intervals.GroupBy(TickerOf, active);
    var rows: map<string, IdentityRow> := map[];
    var todo := groups.Keys;
    while todo != {}
      invariant todo <= groups.Keys
      invariant rows.Keys == groups.Keys - todo
      invariant forall t :: t in rows ==>
        rows[t] == AuditRow(groups[t], Lookup(inputs.assets, t), inputs.stale, point, Lookup(previous, t))
      decreases |todo|
    {
      var t :| t in todo;
      todo := todo - {t};
      rows := rows[t := AuditRow(groups[t], Lookup(inputs.assets, t), inputs.stale, point, Lookup(previous, t))];
    }
    return Success(rows);
  }

  function IsObserved(status: string): bool {
    status in {"observed", "observed_empty"}
  }

  /** One ticker's coverage: it reaches back to the previous poll when the two polls are close
      enough and agree on an eligible identity. */
  function CoverageRow(observedAt: int, maximumGap: int, row: IdentityRow, count: nat,
                       previousAt: Option<int>, previousCoverage: Option<Coverage>, previousRow: Option<IdentityRow>): Coverage
  {
    var continuous :=
      && previousAt.Some? && 0 < observedAt - previousAt.value <= maximumGap
      && previousCoverage.Some? && IsObserved(previousCoverage.value.status)
      && previousRow.Some?
      && previousRow.value.eligible && row.eligible
      && previousRow.value.candidate == row.candidate
      && previousRow.value.assetId == row.assetId;
    Coverage(if continuous then previousAt.value else observedAt, observedAt, continuous,
             if count > 0 then "observed" else "observed_empty")
  }

  // ----- the chain -----

  /** A poll as it is stored; `counts` are the events it observed per ticker. */
  datatype Poll = Poll(observedAt: int, maximumGap: int, previous: Option<string>, inputs: Inputs,
                       counts: map<string, nat>, identity: map<string, IdentityRow>, coverage: map<string, Coverage>)

  function CountOf(p: Poll, t: string): nat {
    if t in p.counts then p.counts[t] else 0
  }

  function CoverageOf(p: Poll, parent: Option<Poll>, t: string): Coverage
    requires t in p.identity
  {
    CoverageRow(p.observedAt, p.maximumGap, p.identity[t], CountOf(p, t),
                if parent.Some? then Some(parent.value.observedAt) else None,
                if parent.Some? then Lookup(parent.value.coverage, t) else None,
                if parent.Some? then Lookup(parent.value.identity, t) else None)
  }

  /** The coverage table that belongs to `p`: one row per audited ticker. */
  ghost predicate IsCoverage(coverage: map<string, Coverage>, p: Poll, parent: Option<Poll>) {
    && coverage.Keys == p.identity.Keys
    && forall t :: t in coverage ==> coverage[t] == CoverageOf(p, parent, t)
  }

  method BuildSourceCollections(p: Poll, parent: Option<Poll>) returns (coverage: map<string, Coverage>)
    ensures IsCoverage(coverage, p, parent)
  {
    hide CoverageRow;
    coverage := map[];
    var todo := p.identity.Keys;
    while todo != {}
      invariant todo <= p.identity.Keys
      invariant coverage.Keys == p.identity.Keys - todo
      invariant forall t :: t in coverage ==> coverage[t] == CoverageOf(p, parent, t)
      decreases |todo|
    {
      var t :| t in todo;
      todo := todo - {t};
      coverage := coverage[t := CoverageOf(p, parent, t)];
    }
  }

  /** The stored tables of `p` are what its inputs and its parent give. */
  ghost predicate Replays(p: Poll, parent: Option<Poll>) {
    && ActiveMemberships(p.inputs, p.observedAt) != []
    && IsIdentityAudit(p.identity, p.inputs, p.observedAt, if parent.Some? then parent.value.identity else map[])
    && IsCoverage(p.coverage, p, parent)
  }

  function ParentOf(polls: seq<Poll>, i: nat): Option<Poll>
    requires i <= |polls|
  {
    if i == 0 then None else Some(polls[i - 1])
  }

  /** Polls from the first one on, each observed after and replaying from the one before. */
  ghost predicate Chain(polls: seq<Poll>) {
    TimesIncrease(polls) && AllReplay(polls)
  }

  ghost predicate TimesIncrease(polls: seq<Poll>) {
    forall i, j :: 0 <= i < j < |polls| ==> polls[i].observedAt < polls[j].observedAt
  }

  ghost predicate AllReplay(polls: seq<Poll>) {
    forall i :: 0 <= i < |polls| ==> Replays(polls[i], ParentOf(polls, i))
  }

  ghost predicate PresentIn(polls: seq<Poll>, t: string, from: nat, to: nat) {
    from <= to < |polls| && forall i :: from <= i <= to ==> t in polls[i].identity
  }

  // ----- identity across the chain -----

  lemma ChainStep(polls: seq<Poll>, t: string, i: nat)
    requires Chain(polls) && 0 < i < |polls| && t in polls[i].identity && t in polls[i - 1].identity
    ensures
      var p := polls[i];
      var group := GroupOf(p.inputs, p.observedAt, t);
      && group != []
      && p.identity[t] == AuditRow(group, Lookup(p.inputs.assets, t), p.inputs.stale, p.observedAt, Some(polls[i - 1].identity[t]))
  {
    hide AuditRow, GroupOf;
    var p := polls[i];
    assert Replays(p, ParentOf(polls, i));
    assert p.identity[t] == AuditRow(GroupOf(p.inputs, p.observedAt, t), Lookup(p.inputs.assets, t), p.inputs.stale,
                                     p.observedAt, Some(polls[i - 1].identity[t]));
  }

  /** An eligible row is its own last accepted identity. */
  lemma EligibleIsLast(polls: seq<Poll>, t: string, i: nat)
    requires Chain(polls) && i < |polls| && t in polls[i].identity && polls[i].identity[t].eligible
    ensures
      var row := polls[i].identity[t];
      row.lastSecurity == row.candidate && row.lastAsset == row.assetId && !row.quarantined
  {
    hide GroupOf, OwnReason, Candidate;
    assert Replays(polls[i], ParentOf(polls, i));
  }

  /** A last accepted identity that is not blank is carried on unchanged. */
  lemma LastIsCarried(polls: seq<Poll>, t: string, i: nat)
    requires Chain(polls) && 0 < i < |polls| && t in polls[i].identity && t in polls[i - 1].identity
    requires polls[i - 1].identity[t].lastSecurity != ""
    ensures polls[i].identity[t].lastSecurity == polls[i - 1].identity[t].lastSecurity
    ensures polls[i].identity[t].lastAsset == polls[i - 1].identity[t].lastAsset
  {
    hide OwnReason, Candidate, Chain;
    ChainStep(polls, t, i);
    var before := polls[i - 1].identity[t];
    if before.eligible {
      EligibleIsLast(polls, t, i - 1);
    }
  }

  lemma {:induction false} LastStays(polls: seq<Poll>, t: string, a: nat, b: nat)
    requires Chain(polls) && PresentIn(polls, t, a, b)
    requires polls[a].identity[t].lastSecurity != ""
    ensures polls[b].identity[t].lastSecurity == polls[a].identity[t].lastSecurity
    ensures polls[b].identity[t].lastAsset == polls[a].identity[t].lastAsset
    decreases b - a
  {
    hide Chain;
    if a < b {
      LastIsCarried(polls, t, a + 1);
      LastStays(polls, t, a + 1, b);
    }
  }

  /** While a ticker stays present, all its eligible rows carry the security and asset of the first
      eligible one, even across ineligible polls in between, unless that security id is blank. */
  lemma EligibleIdentityIsConstant(polls: seq<Poll>, t: string, a: nat, b: nat)
    requires Chain(polls) && PresentIn(polls, t, a, b)
    requires polls[a].identity[t].eligible && polls[b].identity[t].eligible
    ensures
      var (first, later) := (polls[a].identity[t], polls[b].identity[t]);
      (first.candidate, first.assetId) == (later.candidate, later.assetId) || first.candidate == ""
  {
    hide Chain;
    EligibleIsLast(polls, t, a);
    EligibleIsLast(polls, t, b);
    if polls[a].identity[t].candidate != "" {
      LastStays(polls, t, a, b);
    }
  }

  /** Ineligible rows carry on the last accepted pair as it is, blank or not. */
  lemma {:induction false} GapKeepsLast(polls: seq<Poll>, t: string, a: nat, b: nat)
    requires Chain(polls) && PresentIn(polls, t, a, b)
    requires forall i :: a < i <= b ==> !polls[i].identity[t].eligible
    ensures polls[b].identity[t].lastSecurity == polls[a].identity[t].lastSecurity
    ensures polls[b].identity[t].lastAsset == polls[a].identity[t].lastAsset
    decreases b - a
  {
    hide Chain, OwnReason, Candidate;
    if a < b {
      GapKeepsLast(polls, t, a, b - 1);
      ChainStep(polls, t, b);
      if polls[b - 1].identity[t].eligible {
        EligibleIsLast(polls, t, b - 1);
      }
    }
  }

  /** The exact condition of the identity check, across any gap: after an eligible row and ineligible
      ones behind it, a ticker that nothing else speaks against is eligible again if and only if it is
      not quarantined and either keeps the pair, or the accepted security id was blank. */
  lemma EligibleAgainExactlyWhen(polls: seq<Poll>, t: string, a: nat, b: nat)
    requires Chain(polls) && PresentIn(polls, t, a, b) && a < b
    requires polls[a].identity[t].eligible && forall i :: a < i < b ==> !polls[i].identity[t].eligible
    requires
      var p := polls[b];
      OwnReason(GroupOf(p.inputs, p.observedAt, t), Lookup(p.inputs.assets, t), p.inputs.stale, p.observedAt) == Eligible
    ensures
      var (first, row) := (polls[a].identity[t], polls[b].identity[t]);
      row.eligible <==>
        && !polls[b - 1].identity[t].quarantined
        && (first.candidate == "" || (first.candidate, first.assetId) == (row.candidate, row.assetId))
  {
    hide Chain, Candidate, SecurityIds, GroupOf;
    EligibleIsLast(polls, t, a);
    GapKeepsLast(polls, t, a, b - 1);
    ChainStep(polls, t, b);
    if polls[b - 1].identity[t].eligible {
      EligibleIsLast(polls, t, b - 1);
    }
  }

  /** A ticker that is not quarantined becomes so exactly when nothing else speaks against it and it
      presents another identity than the last one accepted. */
  lemma QuarantineStartsWithAChange(polls: seq<Poll>, t: string, i: nat)
    requires Chain(polls) && 0 < i < |polls| && t in polls[i].identity && t in polls[i - 1].identity
    requires !polls[i - 1].identity[t].quarantined
    ensures
      var (p, before, row) := (polls[i], polls[i - 1].identity[t], polls[i].identity[t]);
      row.quarantined <==>
        && OwnReason(GroupOf(p.inputs, p.observedAt, t), Lookup(p.inputs.assets, t), p.inputs.stale, p.observedAt) == Eligible
        && before.lastSecurity != ""
        && (before.lastSecurity, before.lastAsset) != (row.candidate, row.assetId)
  {
    hide Chain, Candidate, SecurityIds, GroupOf;
    ChainStep(polls, t, i);
    if polls[i - 1].identity[t].eligible {
      EligibleIsLast(polls, t, i - 1);
    }
  }

  lemma QuarantineIsKept(polls: seq<Poll>, t: string, i: nat)
    requires Chain(polls) && 0 < i < |polls| && t in polls[i].identity && t in polls[i - 1].identity
    requires polls[i - 1].identity[t].quarantined
    ensures polls[i].identity[t].quarantined
  {
    hide Chain, OwnReason, Candidate;
    ChainStep(polls, t, i);
  }

  /** Once quarantined, a ticker that stays present is never eligible again. */
  lemma {:induction false} QuarantineIsPermanent(polls: seq<Poll>, t: string, a: nat, b: nat)
    requires Chain(polls) && PresentIn(polls, t, a, b)
    requires polls[a].identity[t].quarantined
    ensures polls[b].identity[t].quarantined && !polls[b].identity[t].eligible
    decreases b - a
  {
    hide Chain;
    if a < b {
      QuarantineIsKept(polls, t, a + 1);
      QuarantineIsPermanent(polls, t, a + 1, b);
    } else if polls[a].identity[t].eligible {
      EligibleIsLast(polls, t, a);
    }
  }

  /** The exact condition in terms of the row before, whatever it was. */
  lemma EligibleExactlyWhen(polls: seq<Poll>, t: string, i: nat)
    requires Chain(polls) && 0 < i < |polls| && t in polls[i].identity && t in polls[i - 1].identity
    ensures
      var (p, before, row) := (polls[i], polls[i - 1].identity[t], polls[i].identity[t]);
      row.eligible <==>
        && OwnReason(GroupOf(p.inputs, p.observedAt, t), Lookup(p.inputs.assets, t), p.inputs.stale, p.observedAt) == Eligible
        && !before.quarantined
        && (before.lastSecurity == "" || (before.lastSecurity, before.lastAsset) == (row.candidate, row.assetId))
  {
    hide Chain, Candidate, SecurityIds, GroupOf, OwnReason;
    ChainStep(polls, t, i);
    if polls[i - 1].identity[t].eligible {
      EligibleIsLast(polls, t, i - 1);
    }
  }

  /** The membership is the ticker's, has begun and has not ended. */
  predicate HasActive(m: Membership, t: string, at: int) {
    m.ticker == t && m.from <= at && (m.to.Some? ==> at < m.to.value)
  }

  /** A poll of a chain audits exactly the tickers with an active membership, and there is at least one. */
  lemma TickersAre(polls: seq<Poll>, i: nat)
    requires Chain(polls) && i < |polls|
    ensures
      var p := polls[i];
      && (forall t :: t in p.identity <==> exists m :: m in p.inputs.memberships && HasActive(m, t, p.observedAt))
      && p.identity != map[]
  {
    hide GroupOf, ActiveMemberships, IsCoverage, AllReplay, TimesIncrease;
    ChainReplays(polls, i);
    var p := polls[i];
    forall t ensures t in p.identity <==> exists m :: m in p.inputs.memberships && HasActive(m, t, p.observedAt) {
      GroupMembers(p.inputs, p.observedAt, t);
    }
    var first := SomeActive(p.inputs, p.observedAt);
    assert HasActive(first, first.ticker, p.observedAt);
    assert first.ticker in p.identity;
  }

  lemma GroupMembers(inputs: Inputs, point: int, t: string)
    ensures GroupOf(inputs, point, t) != [] <==> exists m :: m in inputs.memberships && HasActive(m, t, point)
  {
    hide GroupOf;
    var group := GroupOf(inputs, point, t);
    if group != [] {
      GroupIs(inputs, point, t, group[0]);
    }
    if m :| m in inputs.memberships && HasActive(m, t, point) {
      GroupIs(inputs, point, t, m);
    }
  }

  lemma SomeActive(inputs: Inputs, point: int) returns (m: Membership)
    requires ActiveMemberships(inputs, point) != []
    ensures m in inputs.memberships && m.from <= point && (m.to.Some? ==> point < m.to.value)
  {
    m := ActiveMemberships(inputs, point)[0];
    FilterMember(ActiveAt(point), inputs.memberships, m);
  }

  /** What a row records besides the verdict: the candidate, the asset and the number of memberships,
      and as last accepted pair its own when it is eligible, else the one before (none at first). */
  lemma RowRecords(polls: seq<Poll>, t: string, i: nat)
    requires Chain(polls) && i < |polls| && t in polls[i].identity
    ensures
      var (p, row) := (polls[i], polls[i].identity[t]);
      var group := GroupOf(p.inputs, p.observedAt, t);
      && group != [] && row.candidate == Candidate(group) && row.intervals == |group|
      && row.assetId == (if t in p.inputs.assets then p.inputs.assets[t].id else "")
      && (row.eligible <==> row.reason == Eligible)
      && (row.lastSecurity, row.lastAsset) ==
           if row.eligible then (row.candidate, row.assetId)
           else if i > 0 && t in polls[i - 1].identity
           then (polls[i - 1].identity[t].lastSecurity, polls[i - 1].identity[t].lastAsset)
           else ("", "")
  {
    hide GroupOf, OwnReason, Candidate, AllReplay, TimesIncrease;
    assert Replays(polls[i], ParentOf(polls, i)) by { ChainReplays(polls, i); }
    if i > 0 && t in polls[i - 1].identity && polls[i - 1].identity[t].eligible {
      EligibleIsLast(polls, t, i - 1);
    }
  }

  // ----- absence -----

  /** A ticker that was absent from the poll before (or has none before) starts afresh: it is not
      quarantined, and it is eligible if and only if nothing else speaks against it. */
  lemma FirstSightIsFresh(polls: seq<Poll>, t: string, i: nat)
    requires Chain(polls) && i < |polls| && t in polls[i].identity
    requires i == 0 || t !in polls[i - 1].identity
    ensures
      var (p, row) := (polls[i], polls[i].identity[t]);
      && !row.quarantined
      && (row.eligible <==>
            OwnReason(GroupOf(p.inputs, p.observedAt, t), Lookup(p.inputs.assets, t), p.inputs.stale, p.observedAt) == Eligible)
  {
    hide GroupOf, Candidate, SecurityIds, OwnReason;
    assert Replays(polls[i], ParentOf(polls, i));
    NeverUnresolved(GroupOf(polls[i].inputs, polls[i].observedAt, t), Lookup(polls[i].inputs.assets, t),
                    polls[i].inputs.stale, polls[i].observedAt);
  }

  lemma NeverUnresolved(group: seq<Membership>, asset: Option<Asset>, stale: bool, point: int)
    requires group != []
    ensures OwnReason(group, asset, stale, point) != UnresolvedIdentityChange
  {}

  /** The only way out of quarantine is absence: between a quarantined and a later eligible row of a
      ticker lies a poll without it. */
  lemma QuarantineEndsOnlyByAbsence(polls: seq<Poll>, t: string, a: nat, b: nat)
    requires Chain(polls) && a <= b < |polls| && t in polls[a].identity && t in polls[b].identity
    requires polls[a].identity[t].quarantined && polls[b].identity[t].eligible
    ensures exists k :: a < k < b && t !in polls[k].identity
  {
    hide Chain;
    if PresentIn(polls, t, a, b) {
      QuarantineIsPermanent(polls, t, a, b);
    }
  }

  /** A poll of one membership with its asset, on top of a parent. */
  function OneTickerPoll(at: int, m: Membership, asset: Asset, parent: Option<Poll>): Poll {
    var row := AuditRow([m], Some(asset), false, at, if parent.Some? then Lookup(parent.value.identity, m.ticker) else None);
    var p := Poll(at, 60, None, Inputs([m], map[m.ticker := asset], false), map[], map[m.ticker := row], map[]);
    p.(coverage := map[m.ticker := CoverageOf(p, parent, m.ticker)])
  }

  lemma OneTickerGroup(at: int, m: Membership, inputs: Inputs, t: string)
    requires inputs.memberships == [m] && ActiveAt(at)(m)
    ensures ActiveMemberships(inputs, at) == [m]
    ensures GroupOf(inputs, at, t) == if t == m.ticker then [m] else []
  {
    assert Filter(ActiveAt(at), [m]) == [m] + Filter(ActiveAt(at), []);
    assert TickerOf(m) == m.ticker;
    var p := Intervals.HasKey(TickerOf, t);
    assert Filter(p, [m]) == (if p(m) then [m] else []) + Filter(p, []);
  }

  lemma OneTickerReplays(at: int, m: Membership, asset: Asset, parent: Option<Poll>)
    requires ActiveAt(at)(m)
    ensures Replays(OneTickerPoll(at, m, asset, parent), parent)
  {
    hide AuditRow, ActiveAt, GroupOf, ActiveMemberships;
    var p := OneTickerPoll(at, m, asset, parent);
    forall t ensures GroupOf(p.inputs, at, t) == if t == m.ticker then [m] else [] {
      OneTickerGroup(at, m, p.inputs, t);
    }
    OneTickerGroup(at, m, p.inputs, m.ticker);
  }

  const LISTED := Asset("asset", true, true)

  function ListedAs(ticker: string, securityId: string): Membership {
    Membership(ticker, securityId, 0, None, 0)
  }

  /** What the audit makes of one clean membership, by what the ticker's previous row was. */
  lemma CleanAudit(m: Membership, at: int, previous: Option<IdentityRow>)
    requires m.availableAt <= at
    ensures
      var row := AuditRow([m], Some(LISTED), false, at, previous);
      && row.candidate == m.securityId
      && (previous.None? ==> row.eligible)
      && (previous.Some? && previous.value.eligible && previous.value.candidate !in {"", m.securityId} ==> row.quarantined)
      && (previous.Some? && previous.value.eligible && !previous.value.quarantined && previous.value.candidate == "" ==> row.eligible)
  {
    assert SecurityIds([m]) == {m.securityId};
  }

  lemma OneTickerRow(at: int, m: Membership, parent: Option<Poll>)
    requires m.availableAt <= at
    ensures
      var p := OneTickerPoll(at, m, LISTED, parent);
      var previous := if parent.Some? then Lookup(parent.value.identity, m.ticker) else None;
      && p.observedAt == at && p.identity.Keys == {m.ticker}
      && p.identity[m.ticker] == AuditRow([m], Some(LISTED), false, at, previous)
  {
    hide AuditRow, CoverageOf;
  }

  lemma OneMorePoll(polls: seq<Poll>, at: int, m: Membership)
    requires Chain(polls) && ActiveAt(at)(m) && (polls != [] ==> polls[|polls| - 1].observedAt < at)
    ensures Chain(polls + [OneTickerPoll(at, m, LISTED, ParentOf(polls, |polls|))])
  {
    hide Replays, Chain, OneTickerPoll, ActiveAt;
    OneTickerReplays(at, m, LISTED, ParentOf(polls, |polls|));
    OneTickerObserved(at, m, ParentOf(polls, |polls|));
    ChainExtends(polls, OneTickerPoll(at, m, LISTED, ParentOf(polls, |polls|)));
  }

  lemma OneTickerObserved(at: int, m: Membership, parent: Option<Poll>)
    ensures OneTickerPoll(at, m, LISTED, parent).observedAt == at
  {}

  /** Adds a poll to a chain and says what its one row is. */
  lemma Extend(polls: seq<Poll>, at: int, ticker: string, securityId: string) returns (more: seq<Poll>)
    requires Chain(polls) && at >= 0 && (polls != [] ==> polls[|polls| - 1].observedAt < at)
    ensures Chain(more) && |more| == |polls| + 1 && more[..|polls|] == polls
    ensures
      var (p, parent) := (more[|polls|], ParentOf(polls, |polls|));
      var previous := if parent.Some? then Lookup(parent.value.identity, ticker) else None;
      && p.observedAt == at && p.identity.Keys == {ticker}
      && p.identity[ticker].candidate == securityId
      && (previous.None? ==> p.identity[ticker].eligible)
      && (previous.Some? && previous.value.eligible && previous.value.candidate !in {"", securityId} ==>
            p.identity[ticker].quarantined)
      && (previous.Some? && previous.value.eligible && !previous.value.quarantined && previous.value.candidate == "" ==>
            p.identity[ticker].eligible)
  {
    hide Chain, AuditRow, OneTickerPoll;
    var m := ListedAs(ticker, securityId);
    var parent := ParentOf(polls, |polls|);
    OneMorePoll(polls, at, m);
    OneTickerRow(at, m, parent);
    CleanAudit(m, at, if parent.Some? then Lookup(parent.value.identity, ticker) else None);
    more := polls + [OneTickerPoll(at, m, LISTED, parent)];
  }

  lemma NoPolls()
    ensures Chain([])
  {}

  /** A chain in which it happens: a ticker is accepted as one security, quarantined as another, absent
      while only another ticker is listed, and then accepted as the other security. */
  lemma AbsenceForgetsQuarantine() returns (polls: seq<Poll>)
    ensures |polls| == 4 && Chain(polls)
    ensures "T" in polls[0].identity && polls[0].identity["T"].eligible && polls[0].identity["T"].candidate == "one"
    ensures "T" in polls[1].identity && polls[1].identity["T"].quarantined && polls[1].identity["T"].candidate == "two"
    ensures "T" !in polls[2].identity
    ensures "T" in polls[3].identity && polls[3].identity["T"].eligible && polls[3].identity["T"].candidate == "two"
  {
    hide Chain;
    NoPolls();
    var first := Extend([], 0, "T", "one");
    var second := Extend(first, 10, "T", "two");
    var third := Extend(second, 20, "U", "other");
    polls := Extend(third, 30, "T", "two");
    assert polls[..3] == third && third[..2] == second && second[..1] == first;
    assert polls[2] == third[2] && polls[1] == third[1] == second[1] && polls[0] == third[0] == second[0] == first[0];
  }

  /** The same for a blank security id: it is accepted, and the next poll accepts any other. */
  lemma BlankIdentityIsForgotten() returns (polls: seq<Poll>)
    ensures |polls| == 2 && Chain(polls)
    ensures "T" in polls[0].identity && polls[0].identity["T"].eligible && polls[0].identity["T"].candidate == ""
    ensures "T" in polls[1].identity && polls[1].identity["T"].eligible && polls[1].identity["T"].candidate == "two"
  {
    NoPolls();
    var first := Extend([], 0, "T", "");
    EligibleIsLast(first, "T", 0);
    hide Chain;
    polls := Extend(first, 10, "T", "two");
    assert polls[..1] == first && polls[0] == first[0];
  }

  // ----- coverage across the chain -----

  /** One ticker's coverage intervals overlap at most in an end point. */
  lemma CoverageDoesNotOverlap(polls: seq<Poll>, t: string, a: nat, b: nat)
    requires Chain(polls) && a < b < |polls| && t in polls[a].coverage && t in polls[b].coverage
    ensures polls[a].coverage[t].end <= polls[b].coverage[t].start <= polls[b].coverage[t].end
    ensures polls[a].coverage[t].end < polls[b].coverage[t].end
  {
    hide Chain;
    CoverageSpan(polls, t, a);
    CoverageSpan(polls, t, b);
    Ordered(polls, a, b - 1);
    Increase(polls, a, b);
  }

  /** A poll's coverage ends at its observation and starts there or at the observation before. */
  lemma CoverageSpan(polls: seq<Poll>, t: string, i: nat)
    requires Chain(polls) && i < |polls| && t in polls[i].coverage
    ensures polls[i].coverage[t].end == polls[i].observedAt
    ensures (polls[i].coverage[t].start == polls[i].observedAt ||
             (i > 0 && polls[i].coverage[t].start == polls[i - 1].observedAt < polls[i].observedAt))
  {
    hide AuditRow, GroupOf, IsIdentityAudit;
    assert Replays(polls[i], ParentOf(polls, i));
    assert polls[i].coverage[t] == CoverageOf(polls[i], ParentOf(polls, i), t);
  }

  lemma Increase(polls: seq<Poll>, a: nat, b: nat)
    requires Chain(polls) && a < b < |polls|
    ensures polls[a].observedAt < polls[b].observedAt
  {}

  lemma CoverageAt(polls: seq<Poll>, t: string, i: nat)
    requires Chain(polls) && i < |polls| && t in polls[i].coverage
    ensures t in polls[i].identity && polls[i].coverage[t] == CoverageOf(polls[i], ParentOf(polls, i), t)
  {
    hide AuditRow, GroupOf, IsIdentityAudit, CoverageOf;
    assert Replays(polls[i], ParentOf(polls, i));
  }

  lemma CoverageOfIs(p: Poll, parent: Option<Poll>, t: string)
    requires t in p.identity
    ensures
      var c := CoverageOf(p, parent, t);
      && (c.continuous <==>
            && parent.Some? && 0 < p.observedAt - parent.value.observedAt <= p.maximumGap
            && t in parent.value.coverage && parent.value.coverage[t].status in {"observed", "observed_empty"}
            && t in parent.value.identity
            && parent.value.identity[t].eligible && p.identity[t].eligible
            && parent.value.identity[t].candidate == p.identity[t].candidate
            && parent.value.identity[t].assetId == p.identity[t].assetId)
      && c.end == p.observedAt
      && c.start == (if c.continuous && parent.Some? then parent.value.observedAt else p.observedAt)
  {}

  /** The status says whether the poll counted an event for the ticker. */
  lemma StatusIs(polls: seq<Poll>, t: string, i: nat)
    requires Chain(polls) && i < |polls| && t in polls[i].coverage
    ensures t in polls[i].identity
    ensures polls[i].coverage[t].status ==
      if t in polls[i].counts && polls[i].counts[t] > 0 then "observed" else "observed_empty"
  {
    hide Chain;
    CoverageAt(polls, t, i);
  }

  /** The exact condition for continuous coverage, and the interval that goes with it. */
  lemma ContinuousExactlyWhen(polls: seq<Poll>, t: string, i: nat)
    requires Chain(polls) && i < |polls| && t in polls[i].coverage
    ensures t in polls[i].identity
    ensures polls[i].coverage[t].continuous <==>
      && i > 0
      && 0 < polls[i].observedAt - polls[i - 1].observedAt <= polls[i].maximumGap
      && t in polls[i - 1].coverage && t in polls[i - 1].identity
      && polls[i - 1].identity[t].eligible && polls[i].identity[t].eligible
      && polls[i - 1].identity[t].candidate == polls[i].identity[t].candidate
      && polls[i - 1].identity[t].assetId == polls[i].identity[t].assetId
    ensures polls[i].coverage[t].end == polls[i].observedAt
    ensures polls[i].coverage[t].start ==
      if polls[i].coverage[t].continuous && i > 0 then polls[i - 1].observedAt else polls[i].observedAt
  {
    hide Chain, CoverageOf;
    CoverageAt(polls, t, i);
    CoverageOfIs(polls[i], ParentOf(polls, i), t);
    if i > 0 && t in polls[i - 1].coverage {
      StatusIs(polls, t, i - 1);
    }
  }

  /** The polls after `a` up to `b` are all continuous for the ticker. */
  ghost predicate ContinuousRun(polls: seq<Poll>, t: string, a: nat, b: nat) {
    && a <= b < |polls| && t in polls[a].coverage
    && forall i :: a < i <= b ==> t in polls[i].coverage && polls[i].coverage[t].continuous
  }

  /** One continuous step: it starts where the previous poll's interval ends, is within its gap
      limit, and both polls agree on an eligible identity. */
  lemma ContinuousStep(polls: seq<Poll>, t: string, i: nat)
    requires Chain(polls) && 0 < i < |polls| && t in polls[i].coverage && polls[i].coverage[t].continuous
    ensures t in polls[i - 1].coverage
    ensures polls[i].coverage[t].start == polls[i - 1].coverage[t].end == polls[i - 1].observedAt
    ensures polls[i].coverage[t].end == polls[i].observedAt
    ensures 0 < polls[i].observedAt - polls[i - 1].observedAt <= polls[i].maximumGap
    ensures t in polls[i].identity && t in polls[i - 1].identity
    ensures polls[i].identity[t].eligible && polls[i - 1].identity[t].eligible
    ensures polls[i].identity[t].candidate == polls[i - 1].identity[t].candidate
    ensures polls[i].identity[t].assetId == polls[i - 1].identity[t].assetId
  {
    hide AuditRow, GroupOf;
    assert Replays(polls[i], ParentOf(polls, i));
    assert Replays(polls[i - 1], ParentOf(polls, i - 1));
    assert polls[i].coverage[t] == CoverageOf(polls[i], Some(polls[i - 1]), t);
    assert polls[i - 1].coverage[t] == CoverageOf(polls[i - 1], ParentOf(polls, i - 1), t);
  }

  /** A continuous run tiles its span: every moment from the end of its first poll to the end of its
      last one is covered, no step exceeds the gap limit, and the identity is the same throughout. */
  lemma {:induction false} RunTilesItsSpan(polls: seq<Poll>, t: string, a: nat, b: nat, moment: int)
    requires Chain(polls) && ContinuousRun(polls, t, a, b) && a < b
    requires polls[a].observedAt <= moment <= polls[b].observedAt
    ensures exists i :: a < i <= b && polls[i].coverage[t].start <= moment <= polls[i].coverage[t].end
    ensures forall i :: a < i <= b ==> polls[i].observedAt - polls[i - 1].observedAt <= polls[i].maximumGap
    ensures t in polls[a].identity && t in polls[b].identity && polls[a].identity[t].eligible && polls[b].identity[t].eligible
    ensures polls[b].identity[t].candidate == polls[a].identity[t].candidate
    ensures polls[b].identity[t].assetId == polls[a].identity[t].assetId
    decreases b - a
  {
    hide Chain;
    ContinuousStep(polls, t, b);
    if a + 1 < b {
      RunTilesItsSpan(polls, t, a, b - 1, if moment <= polls[b - 1].observedAt then moment else polls[a].observedAt) by {
        Ordered(polls, a, b - 1);
      }
      Ordered(polls, a, b - 1);
    }
  }

  lemma Ordered(polls: seq<Poll>, a: nat, b: nat)
    requires Chain(polls) && a <= b < |polls|
    ensures polls[a].observedAt <= polls[b].observedAt
  {}

  // ----- loading -----

  /** Directories from the first poll to `directory`: each names the one before as its previous poll,
      the first names none, and the observation times increase. */
  ghost predicate IsLineage(files: map<string, Poll>, chain: seq<string>, directory: string) {
    && chain != [] && chain[|chain| - 1] == directory
    && (forall i :: 0 <= i < |chain| ==> chain[i] in files)
    && files[chain[0]].previous == None
    && (forall i :: 0 < i < |chain| ==> files[chain[i]].previous == Some(chain[i - 1]))
    && (forall i :: 0 < i < |chain| ==> files[chain[i - 1]].observedAt < files[chain[i]].observedAt)
  }

  lemma {:induction false} LineageOrdered(files: map<string, Poll>, chain: seq<string>, directory: string, i: nat, j: nat)
    requires IsLineage(files, chain, directory) && i < j < |chain|
    ensures files[chain[i]].observedAt < files[chain[j]].observedAt
    decreases j - i
  {
    if i + 1 < j {
      LineageOrdered(files, chain, directory, i, j - 1);
    }
    assert files[chain[j - 1]].observedAt < files[chain[j]].observedAt;
  }

  /** `walked` lists directories from newest to oldest, `next` is where the walk goes on. */
  ghost predicate Walked(files: map<string, Poll>, walked: seq<string>, next: Option<string>, directory: string) {
    && (forall k :: 0 <= k < |walked| ==> walked[k] in files)
    && (if walked == [] then next == Some(directory) else walked[0] == directory)
    && (forall k :: 0 <= k < |walked| - 1 ==> files[walked[k]].previous == Some(walked[k + 1]))
    && (walked != [] ==> files[walked[|walked| - 1]].previous == next)
    && (forall k :: 0 <= k < |walked| - 1 ==> files[walked[k + 1]].observedAt < files[walked[k]].observedAt)
  }

  /** Any lineage of the directory ends in what was walked, and goes on to `next`. */
  lemma {:induction false} LineageFollowsWalk(files: map<string, Poll>, walked: seq<string>, next: Option<string>,
                                              directory: string, chain: seq<string>, k: nat)
    requires Walked(files, walked, next, directory) && IsLineage(files, chain, directory)
    requires k < |walked|
    ensures k < |chain| && chain[|chain| - 1 - k] == walked[k]
  {
    if k > 0 {
      LineageFollowsWalk(files, walked, next, directory, chain, k - 1);
      var at := |chain| - k;
      assert files[walked[k - 1]].previous == Some(walked[k]);
      assert chain[at] == walked[k - 1];
      assert at > 0 ==> files[chain[at]].previous == Some(chain[at - 1]);
    }
  }

  lemma LineageContinues(files: map<string, Poll>, walked: seq<string>, next: Option<string>, directory: string, chain: seq<string>)
    requires Walked(files, walked, next, directory) && IsLineage(files, chain, directory) && next.Some?
    ensures |walked| < |chain| && chain[|chain| - 1 - |walked|] == next.value
  {
    if walked != [] {
      var k := |walked| - 1;
      LineageFollowsWalk(files, walked, next, directory, chain, k);
      var at := |chain| - 1 - k;
      assert chain[at] == walked[k] && files[walked[k]].previous == next;
      assert at > 0 ==> files[chain[at]].previous == Some(chain[at - 1]);
    }
  }

  /** Walks back to the first poll. It fails exactly when the directory has no lineage: a missing
      poll, a cycle, or observation times that do not decrease. */
  method WalkLineage(files: map<string, Poll>, directory: string) returns (r: Result<seq<string>>)
    ensures r.Success? ==> IsLineage(files, r.value, directory)
    ensures r.Failure? ==> forall chain :: !IsLineage(files, chain, directory)
  {
    hide Walked, IsLineage;
    var chain: seq<string> := [];
    WalkStarts(files, directory);
    var visited: set<string> := {};
    var current := directory;
    var childCutoff: Option<int> := None;
    while true
      invariant Walked(files, chain, Some(current), directory)
      invariant visited == (set d | d in chain) && visited <= files.Keys
      invariant forall d :: d in chain ==> d in files
      invariant childCutoff == LastCutoff(files, chain)
      decreases |files.Keys - visited|
    {
      if current in visited || current !in files ||
         (childCutoff.Some? && files[current].observedAt >= childCutoff.value) {
        NoLineage(files, chain, current, directory);
        return Failure("lineage");
      }
      WalkOn(files, chain, current, directory);
      SmallerSet(files.Keys - (visited + {current}), files.Keys - visited);
      visited := visited + {current};
      chain := chain + [current];
      if files[current].previous.None? {
        var lineage := seq(|chain|, i requires 0 <= i < |chain| => chain[|chain| - 1 - i]);
        WalkIsLineage(files, chain, directory, lineage);
        return Success(lineage);
      }
      childCutoff := Some(files[current].observedAt);
      current := files[current].previous.value;
    }
  }

  function LastCutoff(files: map<string, Poll>, walked: seq<string>): Option<int>
    requires forall d :: d in walked ==> d in files
  {
    if walked == [] then None else Some(files[walked[|walked| - 1]].observedAt)
  }

  lemma WalkStarts(files: map<string, Poll>, directory: string)
    ensures Walked(files, [], Some(directory), directory)
  {}

  lemma WalkOn(files: map<string, Poll>, walked: seq<string>, current: string, directory: string)
    requires Walked(files, walked, Some(current), directory) && current in files
    requires walked != [] ==>
      walked[|walked| - 1] in files && files[current].observedAt < files[walked[|walked| - 1]].observedAt
    ensures Walked(files, walked + [current], files[current].previous, directory)
  {}

  lemma SmallerSet(a: set<string>, b: set<string>)
    requires a < b
    ensures |a| < |b|
  {
    var x :| x in b && x !in a;
    assert a <= b - {x};
    SubsetCardinality(a, b - {x});
  }

  lemma NoLineage(files: map<string, Poll>, walked: seq<string>, current: string, directory: string)
    requires Walked(files, walked, Some(current), directory)
    requires (current in walked || current !in files ||
              (walked != [] && files[current].observedAt >= files[walked[|walked| - 1]].observedAt))
    ensures forall chain :: !IsLineage(files, chain, directory)
  {
    hide IsLineage;
    forall chain ensures !IsLineage(files, chain, directory) {
      if IsLineage(files, chain, directory) {
        LineageCannotGoOn(files, walked, current, directory, chain);
      }
    }
  }

  lemma LineageCannotGoOn(files: map<string, Poll>, walked: seq<string>, current: string, directory: string, chain: seq<string>)
    requires Walked(files, walked, Some(current), directory) && IsLineage(files, chain, directory)
    ensures current !in walked && current in files
    ensures walked != [] ==> files[current].observedAt < files[walked[|walked| - 1]].observedAt
  {
    LineageContinues(files, walked, Some(current), directory, chain);
    var at := |chain| - 1 - |walked|;
    forall k | 0 <= k < |walked| ensures files[current].observedAt < files[walked[k]].observedAt {
      LineageFollowsWalk(files, walked, Some(current), directory, chain, k);
      LineageOrdered(files, chain, directory, at, |chain| - 1 - k);
    }
  }

  lemma WalkIsLineage(files: map<string, Poll>, chain: seq<string>, directory: string, lineage: seq<string>)
    requires Walked(files, chain, None, directory) && chain != []
    requires |lineage| == |chain| && forall i :: 0 <= i < |chain| ==> lineage[i] == chain[|chain| - 1 - i]
    ensures IsLineage(files, lineage, directory)
  {
    var n := |chain|;
    forall i | 0 < i < n
      ensures files[lineage[i]].previous == Some(lineage[i - 1])
      ensures files[lineage[i - 1]].observedAt < files[lineage[i]].observedAt
    {
      var k := n - 1 - i;
      assert files[chain[k]].previous == Some(chain[k + 1]);
      assert files[chain[k + 1]].observedAt < files[chain[k]].observedAt;
    }
    assert files[chain[n - 1]].previous == None;
  }

  ghost function PollsAt(files: map<string, Poll>, chain: seq<string>): seq<Poll>
    requires forall i :: 0 <= i < |chain| ==> chain[i] in files
  {
    seq(|chain|, i requires 0 <= i < |chain| => files[chain[i]])
  }

  /** Replays one poll against its already loaded parent. */
  method ReplayOnce(p: Poll, parent: Option<Poll>) returns (ok: bool)
    ensures ok <==> Replays(p, parent)
  {
    hide AuditRow, GroupOf, CoverageRow;
    var before := if parent.Some? then parent.value.identity else map[];
    var identity := BuildIdentityAudit(p.inputs, p.observedAt, before);
    if identity.Failure? {
      return false;
    }
    var coverage := BuildSourceCollections(p, parent);
    ok := p.identity == identity.value && p.coverage == coverage;
    assert IsIdentityAudit(p.identity, p.inputs, p.observedAt, before) ==> p.identity == identity.value;
    assert IsCoverage(p.coverage, p, parent) ==> p.coverage == coverage;
  }

  ghost predicate LoadsAs(files: map<string, Poll>, chain: seq<string>, directory: string) {
    IsLineage(files, chain, directory) && Chain(PollsAt(files, chain))
  }

  /** The poll has a lineage whose polls form a chain. */
  ghost predicate Loadable(files: map<string, Poll>, directory: string) {
    exists chain :: LoadsAs(files, chain, directory)
  }

  /** Loading a poll succeeds exactly when it has a lineage whose polls form a chain, and returns
      that chain from the first poll on; so every law of chains holds of what is loaded. */
  method LoadPoll(files: map<string, Poll>, directory: string) returns (r: Result<seq<Poll>>, ghost lineage: seq<string>)
    ensures r.Success? <==> Loadable(files, directory)
    ensures r.Success? ==> LoadsAs(files, lineage, directory) && r.value == PollsAt(files, lineage)
  {
    hide Replays, IsLineage, AllReplay, LoadsAs;
    lineage := [];
    var walked := WalkLineage(files, directory);
    if walked.Failure? {
      assert forall chain :: LoadsAs(files, chain, directory) ==> IsLineage(files, chain, directory) by {
        LoadedIsLineage(files, directory);
      }
      return Failure(walked.error), lineage;
    }
    var chain := walked.value;
    lineage := chain;
    LineageInFiles(files, chain, directory);
    var polls: seq<Poll> := [];
    NothingToReplay();
    for i := 0 to |chain|
      invariant |polls| == i
      invariant forall k :: 0 <= k < i ==> polls[k] == files[chain[k]]
      invariant AllReplay(polls)
    {
      var ok := ReplayOnce(files[chain[i]], ParentOf(polls, i));
      if !ok {
        NoOtherChain(files, chain, directory, i);
        return Failure("replay"), lineage;
      }
      ReplaysExtend(polls, files[chain[i]]);
      polls := polls + [files[chain[i]]];
    }
    LoadedChain(files, chain, directory, polls);
    return Success(polls), lineage;
  }

  lemma LoadedIsLineage(files: map<string, Poll>, directory: string)
    ensures forall chain :: LoadsAs(files, chain, directory) ==> IsLineage(files, chain, directory)
  {
    hide IsLineage;
  }

  lemma NothingToReplay()
    ensures AllReplay([])
  {}

  lemma ReplaysExtend(polls: seq<Poll>, p: Poll)
    requires AllReplay(polls) && Replays(p, ParentOf(polls, |polls|))
    ensures AllReplay(polls + [p])
  {
    hide Replays;
    var all := polls + [p];
    forall i | 0 <= i < |all| ensures Replays(all[i], ParentOf(all, i)) {
      if i < |polls| {
        assert Replays(polls[i], ParentOf(polls, i));
        assert ParentOf(all, i) == ParentOf(polls, i);
      } else {
        assert ParentOf(all, i) == ParentOf(polls, |polls|);
      }
    }
  }

  lemma LoadedChain(files: map<string, Poll>, chain: seq<string>, directory: string, polls: seq<Poll>)
    requires IsLineage(files, chain, directory) && AllReplay(polls) && |polls| == |chain|
    requires forall k :: 0 <= k < |chain| ==> chain[k] in files && polls[k] == files[chain[k]]
    ensures LoadsAs(files, chain, directory) && polls == PollsAt(files, chain)
  {
    hide AllReplay;
    forall i, j | 0 <= i < j < |polls| ensures polls[i].observedAt < polls[j].observedAt {
      LineageOrdered(files, chain, directory, i, j);
    }
    assert polls == PollsAt(files, chain);
  }

  lemma LineageInFiles(files: map<string, Poll>, chain: seq<string>, directory: string)
    requires IsLineage(files, chain, directory)
    ensures forall i :: 0 <= i < |chain| ==> chain[i] in files
  {}

  lemma FirstHasNoParent(files: map<string, Poll>, chain: seq<string>, directory: string)
    requires IsLineage(files, chain, directory)
    ensures directory in files && (files[directory].previous == None <==> |chain| == 1)
  {
    var m := |chain| - 1;
    assert chain[m] == directory;
    if m > 0 {
      assert files[chain[m]].previous == Some(chain[m - 1]);
    }
  }

  /** A directory has at most one lineage. */
  lemma {:induction false} LineageIsUnique(files: map<string, Poll>, a: seq<string>, b: seq<string>, directory: string)
    requires IsLineage(files, a, directory) && IsLineage(files, b, directory)
    ensures a == b
    decreases |a|
  {
    var m, n := |a| - 1, |b| - 1;
    FirstHasNoParent(files, a, directory);
    FirstHasNoParent(files, b, directory);
    if m == 0 {
      assert a == [directory] && b == [directory];
    } else {
      assert files[a[m]].previous == Some(a[m - 1]) && files[b[n]].previous == Some(b[n - 1]);
      LineageIsUnique(files, a[..m], b[..n], a[m - 1]);
      assert a == a[..m] + [a[m]] && b == b[..n] + [b[n]];
    }
  }

  lemma NoOtherChain(files: map<string, Poll>, chain: seq<string>, directory: string, i: nat)
    requires IsLineage(files, chain, directory) && i < |chain|
    requires !Replays(files[chain[i]], if i == 0 then None else Some(files[chain[i - 1]]))
    ensures !Loadable(files, directory)
  {
    hide Replays, Chain;
    forall other ensures !LoadsAs(files, other, directory) {
      NotThisChain(files, chain, directory, i, other);
    }
  }

  lemma NotThisChain(files: map<string, Poll>, chain: seq<string>, directory: string, i: nat, other: seq<string>)
    requires IsLineage(files, chain, directory) && i < |chain|
    requires !Replays(files[chain[i]], if i == 0 then None else Some(files[chain[i - 1]]))
    ensures !LoadsAs(files, other, directory)
  {
    hide Replays, Chain;
    if IsLineage(files, other, directory) {
      LineageIsUnique(files, chain, other, directory);
      var polls := PollsAt(files, chain);
      assert polls[i] == files[chain[i]] && (i > 0 ==> polls[i - 1] == files[chain[i - 1]]);
      if Chain(polls) {
        ChainReplays(polls, i);
      }
    }
  }

  lemma ChainReplays(polls: seq<Poll>, i: nat)
    requires Chain(polls) && i < |polls|
    ensures Replays(polls[i], ParentOf(polls, i))
  {
    hide Replays;
  }

  // ----- collecting -----

  lemma ChainExtends(polls: seq<Poll>, p: Poll)
    requires Chain(polls) && Replays(p, ParentOf(polls, |polls|))
    requires polls != [] ==> polls[|polls| - 1].observedAt < p.observedAt
    ensures Chain(polls + [p])
  {
    hide Replays, AllReplay;
    ReplaysExtend(polls, p);
    var all := polls + [p];
    forall i, j | 0 <= i < j < |all| ensures all[i].observedAt < all[j].observedAt {
      if j == |polls| {
        assert i < |polls| - 1 ==> polls[i].observedAt < polls[|polls| - 1].observedAt;
      }
    }
  }

  lemma LineageGrows(files: map<string, Poll>, chain: seq<string>, parent: string, directory: string, p: Poll)
    requires IsLineage(files, chain, parent) && directory !in files
    requires p.previous == Some(parent) && files[parent].observedAt < p.observedAt
    ensures IsLineage(files[directory := p], chain + [directory], directory)
    ensures PollsAt(files[directory := p], chain + [directory]) == PollsAt(files, chain) + [p]
    ensures PollsAt(files, chain)[|chain| - 1] == files[parent]
  {
    var (more, longer) := (files[directory := p], chain + [directory]);
    assert forall i :: 0 <= i < |chain| ==> longer[i] == chain[i] && more[longer[i]] == files[chain[i]];
    assert longer[|chain|] == directory && more[directory] == p;
    assert PollsAt(more, longer) == PollsAt(files, chain) + [p];
  }

  lemma LineageExtends(files: map<string, Poll>, chain: seq<string>, parent: string, directory: string, p: Poll)
    requires LoadsAs(files, chain, parent) && directory !in files
    requires parent in files && p.previous == Some(parent) && files[parent].observedAt < p.observedAt
    requires Replays(p, Some(files[parent]))
    ensures LoadsAs(files[directory := p], chain + [directory], directory)
  {
    hide Replays, Chain;
    LineageGrows(files, chain, parent, directory, p);
    hide PollsAt, IsLineage;
    ChainExtends(PollsAt(files, chain), p);
  }

  lemma FirstPollLoads(files: map<string, Poll>, directory: string, p: Poll)
    requires p.previous == None && Replays(p, None)
    ensures LoadsAs(files[directory := p], [directory], directory)
  {
    hide Replays;
    ChainExtends([], p);
    assert PollsAt(files[directory := p], [directory]) == [] + [p];
  }

  /** Collects a poll on top of a loaded one. It is refused exactly when the previous poll does not
      load or is not earlier, or no membership is active; and whatever it publishes loads. */
  method CollectPoll(files: map<string, Poll>, directory: string, previous: Option<string>, observedAt: int, maximumGap: int,
                     inputs: Inputs, counts: map<string, nat>) returns (r: Result<Poll>)
    requires directory !in files
    ensures r.Success? <==>
      && ActiveMemberships(inputs, observedAt) != []
      && (previous.Some? ==>
            previous.value in files && Loadable(files, previous.value) && files[previous.value].observedAt < observedAt)
    ensures r.Success? ==>
      r.value.(identity := map[], coverage := map[]) == Poll(observedAt, maximumGap, previous, inputs, counts, map[], map[])
    ensures r.Success? ==> Loadable(files[directory := r.value], directory)
  {
    hide IsLineage, Chain, IsIdentityAudit, IsCoverage;
    var parent: Option<Poll> := None;
    ghost var lineage: seq<string> := [];
    if previous.Some? {
      var loaded;
      loaded, lineage := LoadPoll(files, previous.value);
      if loaded.Failure? {
        return Failure("previous poll");
      }
      LastIsDirectory(files, lineage, previous.value);
      parent := Some(loaded.value[|loaded.value| - 1]);
      if parent.value.observedAt >= observedAt {
        return Failure("previous poll must precede the cutoff");
      }
    }
    var identity := BuildIdentityAudit(inputs, observedAt, if parent.Some? then parent.value.identity else map[]);
    if identity.Failure? {
      return Failure(identity.error);
    }
    var p := Poll(observedAt, maximumGap, previous, inputs, counts, identity.value, map[]);
    var coverage := BuildSourceCollections(p, parent);
    var poll := p.(coverage := coverage);
    SameCoverage(p, poll, parent);
    if previous.Some? {
      LineageExtends(files, lineage, previous.value, directory, poll);
    } else {
      FirstPollLoads(files, directory, poll);
    }
    return Success(poll);
  }

  lemma LastIsDirectory(files: map<string, Poll>, chain: seq<string>, directory: string)
    requires LoadsAs(files, chain, directory)
    ensures directory in files && chain != [] && PollsAt(files, chain)[|chain| - 1] == files[directory]
  {}

  lemma SameCoverage(p: Poll, q: Poll, parent: Option<Poll>)
    requires q == p.(coverage := q.coverage) && IsCoverage(q.coverage, p, parent)
    ensures IsCoverage(q.coverage, q, parent)
  {}
}
