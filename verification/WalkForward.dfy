/** The purged walk-forward splitter (model.py): rows carry the group (a date) they belong to; whole
    groups are tested in blocks, and training stops an embargo of groups before each block. Groups are
    the normalised ones, as integers; None is a group that could not be read. */
module WalkForward {
  import opened Prelude

  type Groups = seq<Option<int>>

  datatype Splitter = Splitter(nSplits: int, embargo: int, minTrain: int)

  predicate Valid(s: Splitter) { s.nSplits >= 1 && s.embargo >= 0 }

  datatype Fold = Fold(train: seq<nat>, test: seq<nat>)

  function MinInt(a: int, b: int): int { if a <= b then a else b }

  function MaxInt(a: int, b: int): int { if a <= b then b else a }

  // ----- groups and their ranks -----

  function GroupSet(groups: Groups): set<int> {
    set x | x in groups && x.Some? :: x.value
  }

  /** How many groups come before `v`. */
  function Rank(all: set<int>, v: int): nat {
    |set w | w in all && w < v|
  }

  /** The groups with ranks from `lo` up to but not including `hi`. */
  function Block(all: set<int>, lo: int, hi: int): set<int> {
    set v | v in all && lo <= Rank(all, v) < hi
  }

  ghost predicate Increasing(s: seq<int>) {
    forall i, j :: 0 <= i < j < |s| ==> s[i] < s[j]
  }

  function Members(s: seq<int>): set<int> {
    set v | v in s
  }

  lemma RankIsPosition(ordered: seq<int>, i: nat)
    requires Increasing(ordered) && i < |ordered|
    ensures Rank(Members(ordered), ordered[i]) == i
  {
    var all := Members(ordered);
    var before := ordered[..i];
    forall w ensures w in all && w < ordered[i] <==> w in before {
      if w in all && w < ordered[i] {
        var j :| 0 <= j < |ordered| && ordered[j] == w;
        assert before[j] == w;
      }
      if w in before {
        var j :| 0 <= j < i && before[j] == w;
        assert ordered[j] == w;
      }
    }
    assert (set w | w in all && w < ordered[i]) == (set w | w in before);
    DistinctCardinality(before);
  }

  lemma SliceIsBlock(ordered: seq<int>, lo: nat, hi: nat)
    requires Increasing(ordered) && lo <= hi <= |ordered|
    ensures Members(ordered[lo..hi]) == Block(Members(ordered), lo, hi)
  {
    hide Rank;
    var (slice, all) := (ordered[lo..hi], Members(ordered));
    forall v ensures v in slice <==> v in Block(all, lo, hi) {
      if v in slice {
        var j :| 0 <= j < |slice| && slice[j] == v;
        RankIsPosition(ordered, lo + j);
      }
      if v in Block(all, lo, hi) {
        var i :| 0 <= i < |ordered| && ordered[i] == v;
        RankIsPosition(ordered, i);
        assert slice[i - lo] == v;
      }
    }
  }

  /** A larger group has a larger rank, by one more than the groups in between. */
  lemma RankDifference(all: set<int>, u: int, v: int)
    requires u in all && v in all && u < v
    ensures Rank(all, v) == Rank(all, u) + 1 + |set w | w in all && u < w < v|
  {
    var (below, between) := (set w | w in all && w < u, set w | w in all && u < w < v);
    assert (set w | w in all && w < v) == below + {u} + between;
    assert |below + {u}| == |below| + 1;
    assert (below + {u}) !! between;
  }

  lemma RankOrders(all: set<int>, u: int, v: int)
    requires u in all && v in all
    ensures Rank(all, u) < Rank(all, v) <==> u < v
  {
    if u < v {
      RankDifference(all, u, v);
    } else if v < u {
      RankDifference(all, v, u);
    }
  }

  function IntLeq(): (int, int) -> bool {
    (a: int, b: int) => a <= b
  }

  /** The distinct groups, first seen first. */
  function Unique(groups: Groups): seq<int> {
    if groups == [] then []
    else
      var (seen, last) := (Unique(groups[..|groups| - 1]), groups[|groups| - 1]);
      if last.Some? && last.value !in seen then seen + [last.value] else seen
  }

  lemma {:induction false} UniqueHoldsTheGroups(groups: Groups)
    ensures NoDuplicates(Unique(groups)) && Members(Unique(groups)) == GroupSet(groups)
  {
    if groups != [] {
      var (before, last) := (groups[..|groups| - 1], groups[|groups| - 1]);
      UniqueHoldsTheGroups(before);
      assert groups == before + [last];
      var seen := Unique(before);
      if last.Some? {
        assert GroupSet(groups) == GroupSet(before) + {last.value};
        assert last.value in seen <==> last.value in Members(seen);
        assert Members(seen + [last.value]) == Members(seen) + {last.value};
      } else {
        assert GroupSet(groups) == GroupSet(before);
      }
    }
  }

  lemma SortedDistinct(unique: seq<int>, ordered: seq<int>)
    requires NoDuplicates(unique) && SortedBy(IntLeq(), ordered) && multiset(ordered) == multiset(unique) && |ordered| == |unique|
    ensures Increasing(ordered) && Members(ordered) == Members(unique)
  {
    forall v ensures v in ordered <==> v in unique {
      assert v in ordered <==> v in multiset(ordered);
      assert v in unique <==> v in multiset(unique);
    }
    assert (set v | v in ordered) == (set v | v in unique);
    DistinctCardinality(unique);
    DistinctAtMost(ordered);
    forall i, j | 0 <= i < j < |ordered| ensures ordered[i] < ordered[j] {
      assert IntLeq()(ordered[i], ordered[j]);
    }
  }

  lemma GroupCount(ordered: seq<int>)
    requires Increasing(ordered)
    ensures |Members(ordered)| == |ordered|
  {
    DistinctCardinality(ordered);
  }

  /** The distinct groups in order. */
  lemma OrderedIsTheGroups(groups: Groups, ordered: seq<int>)
    requires ordered == Sort(IntLeq(), Unique(groups))
    ensures Increasing(ordered) && Members(ordered) == GroupSet(groups) && |ordered| == |GroupSet(groups)|
  {
    hide Unique, GroupSet, Members, Increasing, IntLeq, NoDuplicates;
    UniqueHoldsTheGroups(groups);
    SortedDistinct(Unique(groups), ordered);
    GroupCount(ordered);
  }

  // ----- the sizes of a fold -----

  function FoldSize(s: Splitter, count: nat): (r: nat)
    requires Valid(s)
    ensures 1 <= r
  {
    MaxInt(1, count / (s.nSplits + 1))
  }

  function MinTrainGroups(count: nat, foldSize: int): (r: int)
    ensures 1 <= r
  {
    MinInt(MaxInt(1, foldSize), MaxInt(1, count / 3))
  }

  function TestStart(s: Splitter, count: nat, k: nat): nat
    requires Valid(s)
  {
    MinInt(count, MinTrainGroups(count, FoldSize(s, count)) + k * FoldSize(s, count))
  }

  function TestEnd(s: Splitter, count: nat, k: nat): nat
    requires Valid(s)
  {
    MinInt(TestStart(s, count, k) + FoldSize(s, count), count)
  }

  function TrainEnd(s: Splitter, count: nat, k: nat): nat
    requires Valid(s)
  {
    MaxInt(0, TestStart(s, count, k) - s.embargo)
  }

  /** With more groups than splits the clipping to the number of groups never takes effect: every
      test block is full, and each begins where the one before ends. */
  lemma NothingIsClipped(s: Splitter, count: nat, k: nat)
    requires Valid(s) && count >= s.nSplits + 1 && k < s.nSplits
    ensures FoldSize(s, count) == count / (s.nSplits + 1) >= 1
    ensures TestStart(s, count, k) == MinTrainGroups(count, FoldSize(s, count)) + k * FoldSize(s, count)
    ensures TestEnd(s, count, k) == TestStart(s, count, k) + FoldSize(s, count) <= count
    ensures k + 1 < s.nSplits ==> TestStart(s, count, k + 1) == TestEnd(s, count, k)
    ensures 1 <= TestStart(s, count, k)
  {
    var size := count / (s.nSplits + 1);
    assert size >= 1;
    assert (s.nSplits + 1) * size <= count;
    Products(size, k, s.nSplits);
  }

  lemma Products(size: nat, k: nat, n: nat)
    requires k < n
    ensures k * size + size + size <= (n + 1) * size
    ensures (k + 1) * size == k * size + size
    ensures k + 1 < n ==> (k + 1) * size + size + size <= (n + 1) * size
  {
    assert (k + 2) * size == k * size + size + size;
    assert (k + 2) * size <= (n + 1) * size by { Monotone(k + 2, n + 1, size); }
    if k + 1 < n {
      assert (k + 3) * size == (k + 1) * size + size + size;
      Monotone(k + 3, n + 1, size);
    }
  }

  lemma Monotone(a: nat, b: nat, size: nat)
    requires a <= b
    ensures a * size <= b * size
  {
    assert b * size == a * size + (b - a) * size;
  }

  // ----- folds -----

  /** The rows before `n` whose group is one of `chosen`, in row order. */
  function RowsWhere(groups: Groups, chosen: set<int>, n: nat): seq<nat>
    requires n <= |groups|
  {
    if n == 0 then []
    else RowsWhere(groups, chosen, n - 1) + if groups[n - 1].Some? && groups[n - 1].value in chosen then [n - 1] else []
  }

  lemma {:induction false} RowIsWhere(groups: Groups, chosen: set<int>, n: nat, row: nat)
    requires n <= |groups|
    ensures row in RowsWhere(groups, chosen, n) <==> row < n && groups[row].Some? && groups[row].value in chosen
  {
    if n > 0 {
      RowIsWhere(groups, chosen, n - 1, row);
    }
  }

  lemma {:induction false} MoreGroupsMoreRows(groups: Groups, fewer: set<int>, more: set<int>, n: nat)
    requires n <= |groups| && fewer <= more
    ensures |RowsWhere(groups, fewer, n)| <= |RowsWhere(groups, more, n)|
  {
    if n > 0 {
      MoreGroupsMoreRows(groups, fewer, more, n - 1);
    }
  }

  function FoldAt(s: Splitter, groups: Groups, k: nat): Fold
    requires Valid(s)
  {
    var all := GroupSet(groups);
    Fold(RowsWhere(groups, Block(all, 0, TrainEnd(s, |all|, k)), |groups|),
         RowsWhere(groups, Block(all, TestStart(s, |all|, k), TestEnd(s, |all|, k)), |groups|))
  }

  predicate Kept(s: Splitter, f: Fold) {
    |f.train| >= s.minTrain && f.test != []
  }

  /** The folds the splitter yields among the first `n`. */
  function KeptFolds(s: Splitter, groups: Groups, n: nat): seq<Fold>
    requires Valid(s)
  {
    if n == 0 then []
    else KeptFolds(s, groups, n - 1) + if Kept(s, FoldAt(s, groups, n - 1)) then [FoldAt(s, groups, n - 1)] else []
  }

  method OrderedGroups(groups: Groups) returns (ordered: seq<int>)
    ensures Increasing(ordered) && Members(ordered) == GroupSet(groups)
  {
    var unique: seq<int> := [];
    for i := 0 to |groups|
      invariant unique == Unique(groups[..i])
    {
      assert groups[..i + 1][..i] == groups[..i];
      if groups[i].Some? && groups[i].value !in unique {
        unique := unique + [groups[i].value];
      }
    }
    assert groups[..|groups|] == groups;
    ordered := Sort(IntLeq(), unique);
    OrderedIsTheGroups(groups, ordered);
  }

  /** The rows whose group is among `chosen`. */
  method RowsIn(groups: Groups, chosen: set<int>) returns (rows: seq<nat>)
    ensures rows == RowsWhere(groups, chosen, |groups|)
  {
    rows := [];
    for i := 0 to |groups|
      invariant rows == RowsWhere(groups, chosen, i)
    {
      if groups[i].Some? && groups[i].value in chosen {
        rows := rows + [i];
      }
    }
  }

  method RowsBetween(groups: Groups, ordered: seq<int>, lo: nat, hi: nat) returns (rows: seq<nat>)
    requires Increasing(ordered) && Members(ordered) == GroupSet(groups) && lo <= hi <= |ordered|
    ensures rows == RowsWhere(groups, Block(GroupSet(groups), lo, hi), |groups|)
  {
    SliceIsBlock(ordered, lo, hi);
    rows := RowsIn(groups, Members(ordered[lo..hi]));
  }

  /** The split of `rowCount` rows: refused without groups or with a different number of them, empty
      with too few groups, else the kept folds in order. */
  method Split(s: Splitter, rowCount: nat, groups: Option<Groups>) returns (r: Result<seq<Fold>>)
    requires Valid(s)
    ensures r.Success? <==> groups.Some? && |groups.value| == rowCount
    ensures r.Success? ==>
      r.value == if |GroupSet(groups.value)| < s.nSplits + 1 then [] else KeptFolds(s, groups.value, s.nSplits)
  {
    hide RowsWhere, Block, GroupSet, Members, Increasing, MinTrainGroups, FoldSize;
    if groups.None? {
      return Failure("groups required");
    }
    if |groups.value| != rowCount {
      return Failure("groups length must match");
    }
    var ordered := OrderedGroups(groups.value);
    GroupCount(ordered);
    var count := |ordered|;
    if count < s.nSplits + 1 {
      return Success([]);
    }
    var size := FoldSize(s, count);
    var folds: seq<Fold> := [];
    for k := 0 to s.nSplits
      invariant folds == KeptFolds(s, groups.value, k)
    {
      var testStart := MinInt(count, MinTrainGroups(count, size) + k * size);
      var testEnd := MinInt(testStart + size, count);
      var trainEnd := MaxInt(0, testStart - s.embargo);
      if testStart >= count || testEnd <= testStart {
        NothingIsClipped(s, count, k);
        continue;
      }
      var train := RowsBetween(groups.value, ordered, 0, trainEnd);
      var test := RowsBetween(groups.value, ordered, testStart, testEnd);
      assert Fold(train, test) == FoldAt(s, groups.value, k);
      if |train| < s.minTrain || |test| == 0 {
        continue;
      }
      folds := folds + [Fold(train, test)];
    }
    return Success(folds);
  }

  // ----- what every split keeps -----

  ghost predicate Ascends(rows: seq<nat>) {
    forall i, j :: 0 <= i < j < |rows| ==> rows[i] < rows[j]
  }

  lemma {:induction false} RowsAscend(groups: Groups, chosen: set<int>, n: nat)
    requires n <= |groups|
    ensures Ascends(RowsWhere(groups, chosen, n))
  {
    if n > 0 {
      RowsAscend(groups, chosen, n - 1);
      var before := RowsWhere(groups, chosen, n - 1);
      forall i | 0 <= i < |before| ensures before[i] < n - 1 {
        RowIsWhere(groups, chosen, n - 1, before[i]);
      }
    }
  }

  /** A fold lists its rows in table order, each once. */
  lemma FoldRowsAscend(s: Splitter, groups: Groups, k: nat)
    requires Valid(s)
    ensures Ascends(FoldAt(s, groups, k).train) && Ascends(FoldAt(s, groups, k).test)
  {
    hide RowsWhere, Block, TrainEnd, TestStart, TestEnd;
    var all := GroupSet(groups);
    RowsAscend(groups, Block(all, 0, TrainEnd(s, |all|, k)), |groups|);
    RowsAscend(groups, Block(all, TestStart(s, |all|, k), TestEnd(s, |all|, k)), |groups|);
  }

  /** Enough distinct groups to split at all. */
  predicate Splits(s: Splitter, groups: Groups) {
    Valid(s) && |GroupSet(groups)| >= s.nSplits + 1
  }

  function GroupsOf(groups: Groups, rows: seq<nat>): set<int>
    requires forall r :: r in rows ==> r < |groups| && groups[r].Some?
  {
    set r | r in rows :: groups[r].value
  }

  lemma RowsHaveGroups(groups: Groups, chosen: set<int>)
    ensures forall r :: r in RowsWhere(groups, chosen, |groups|) ==> r < |groups| && groups[r].Some? && groups[r].value in chosen
  {
    forall r | r in RowsWhere(groups, chosen, |groups|) ensures r < |groups| && groups[r].Some? && groups[r].value in chosen {
      RowIsWhere(groups, chosen, |groups|, r);
    }
  }

  /** Choosing existing groups selects rows of exactly these groups. */
  lemma ChosenAreTheGroups(groups: Groups, chosen: set<int>)
    requires chosen <= GroupSet(groups)
    ensures forall r :: r in RowsWhere(groups, chosen, |groups|) ==> r < |groups| && groups[r].Some?
    ensures GroupsOf(groups, RowsWhere(groups, chosen, |groups|)) == chosen
  {
    RowsHaveGroups(groups, chosen);
    var rows := RowsWhere(groups, chosen, |groups|);
    forall v | v in chosen ensures v in GroupsOf(groups, rows) {
      var x :| x in groups && x.Some? && x.value == v;
      var r :| 0 <= r < |groups| && groups[r] == x;
      RowIsWhere(groups, chosen, |groups|, r);
    }
  }

  lemma BlockSize(groups: Groups, lo: nat, hi: nat)
    requires lo <= hi <= |GroupSet(groups)|
    ensures |Block(GroupSet(groups), lo, hi)| == hi - lo
  {
    hide Rank;
    var ordered := Sort(IntLeq(), Unique(groups));
    OrderedIsTheGroups(groups, ordered);
    SliceIsBlock(ordered, lo, hi);
    DistinctCardinality(ordered[lo..hi]);
  }

  /** Every fold tests exactly `FoldSize` groups, all of them existing ones and each with all its rows. */
  lemma FoldTestsFullBlock(s: Splitter, groups: Groups, k: nat)
    requires Splits(s, groups) && k < s.nSplits
    ensures
      var test := FoldAt(s, groups, k).test;
      && test != []
      && (forall r :: r in test ==> r < |groups| && groups[r].Some?)
      && |GroupsOf(groups, test)| == FoldSize(s, |GroupSet(groups)|)
      && forall r, q :: 0 <= r < |groups| && 0 <= q < |groups| && groups[r] == groups[q] ==> (r in test <==> q in test)
  {
    hide RowsWhere, TestStart, TestEnd, FoldSize, Rank;
    var all := GroupSet(groups);
    var (lo, hi) := (TestStart(s, |all|, k), TestEnd(s, |all|, k));
    NothingIsClipped(s, |all|, k);
    BlockSize(groups, lo, hi);
    var block := Block(all, lo, hi);
    ChosenAreTheGroups(groups, block);
    var test := RowsWhere(groups, block, |groups|);
    assert GroupsOf(groups, test) == block;
    forall r | 0 <= r < |groups| ensures r in test <==> groups[r].Some? && groups[r].value in block {
      RowIsWhere(groups, block, |groups|, r);
    }
  }

  /** The purge: a training group lies before every test group of its fold, with at least `embargo`
      groups strictly in between. */
  lemma FoldIsPurged(s: Splitter, groups: Groups, k: nat, a: nat, b: nat)
    requires Splits(s, groups) && k < s.nSplits
    requires a in FoldAt(s, groups, k).train && b in FoldAt(s, groups, k).test
    ensures a < |groups| && b < |groups| && groups[a].Some? && groups[b].Some?
    ensures groups[a].value < groups[b].value
    ensures |set w | w in GroupSet(groups) && groups[a].value < w < groups[b].value| >= s.embargo
  {
    hide RowsWhere, TestStart, TestEnd, Rank;
    var all := GroupSet(groups);
    RowIsWhere(groups, Block(all, 0, TrainEnd(s, |all|, k)), |groups|, a);
    RowIsWhere(groups, Block(all, TestStart(s, |all|, k), TestEnd(s, |all|, k)), |groups|, b);
    var (u, v) := (groups[a].value, groups[b].value);
    RankOrders(all, u, v);
    RankDifference(all, u, v);
  }

  /** The groups strictly between those of two rows. */
  function Between(groups: Groups, a: nat, b: nat): set<int>
    requires a < |groups| && b < |groups| && groups[a].Some? && groups[b].Some?
  {
    set w | w in GroupSet(groups) && groups[a].value < w < groups[b].value
  }

  /** Row `a` comes before row `b` by more than `gap` groups. */
  predicate Precedes(groups: Groups, a: nat, b: nat, gap: int) {
    && a < |groups| && b < |groups| && groups[a].Some? && groups[b].Some?
    && groups[a].value < groups[b].value
    && |Between(groups, a, b)| >= gap
  }

  /** How many groups come before the group of a row. */
  function GroupsBefore(groups: Groups, r: nat): nat
    requires r < |groups| && groups[r].Some?
  {
    |set w | w in GroupSet(groups) && w < groups[r].value|
  }

  /** The test rows of a fold, exactly: with g groups, f = g / (n_splits + 1) of them per fold and a first
      training stretch of m = min(f, max(1, g / 3)), fold k tests the rows that have at least m + k * f
      and fewer than m + (k + 1) * f groups before theirs. */
  lemma TestsExactly(s: Splitter, groups: Groups, k: nat, r: nat)
    requires Splits(s, groups) && k < s.nSplits && r < |groups|
    ensures
      var count := |GroupSet(groups)|;
      var size := count / (s.nSplits + 1);
      var first := if size <= count / 3 then size else if count / 3 >= 1 then count / 3 else 1;
      r in FoldAt(s, groups, k).test <==>
        groups[r].Some? && first + k * size <= GroupsBefore(groups, r) < first + (k + 1) * size
  {
    hide RowsWhere, TestStart, TestEnd;
    var all := GroupSet(groups);
    NothingIsClipped(s, |all|, k);
    RowIsWhere(groups, Block(all, TestStart(s, |all|, k), TestEnd(s, |all|, k)), |groups|, r);
    Products(FoldSize(s, |all|), k, s.nSplits);
    if groups[r].Some? {
      assert groups[r] in groups && groups[r].value in all;
      assert Rank(all, groups[r].value) == GroupsBefore(groups, r);
    }
  }

  /** Some test row is in the first group of the block. */
  lemma FirstTestRow(s: Splitter, groups: Groups, k: nat) returns (b: nat)
    requires Splits(s, groups) && k < s.nSplits
    ensures b < |groups| && groups[b].Some? && b in FoldAt(s, groups, k).test
    ensures Rank(GroupSet(groups), groups[b].value) == TestStart(s, |GroupSet(groups)|, k)
  {
    hide RowsWhere, TestStart, TestEnd, FoldSize, Increasing, Members, GroupSet, Unique;
    var all := GroupSet(groups);
    var (lo, hi) := (TestStart(s, |all|, k), TestEnd(s, |all|, k));
    NothingIsClipped(s, |all|, k);
    var ordered := Sort(IntLeq(), Unique(groups));
    OrderedIsTheGroups(groups, ordered);
    RankIsPosition(ordered, lo);
    b := RowOfGroup(groups, ordered, lo);
    RowIsWhere(groups, Block(all, lo, hi), |groups|, b);
  }

  lemma RowOfGroup(groups: Groups, ordered: seq<int>, i: nat) returns (b: nat)
    requires Members(ordered) == GroupSet(groups) && i < |ordered|
    ensures b < |groups| && groups[b] == Some(ordered[i]) && ordered[i] in GroupSet(groups)
  {
    assert ordered[i] in Members(ordered);
    var x :| x in groups && x.Some? && x.value == ordered[i];
    b :| 0 <= b < |groups| && groups[b] == x;
  }

  /** The training rows of a fold, exactly: those whose group lies before every test group of the fold,
      with at least the embargo of groups strictly in between. */
  lemma TrainsExactly(s: Splitter, groups: Groups, k: nat, r: nat)
    requires Splits(s, groups) && k < s.nSplits && r < |groups| && groups[r].Some?
    ensures r in FoldAt(s, groups, k).train <==>
      forall b :: b in FoldAt(s, groups, k).test ==> Precedes(groups, r, b, s.embargo)
  {
    hide FoldAt;
    if r in FoldAt(s, groups, k).train {
      forall b | b in FoldAt(s, groups, k).test ensures Precedes(groups, r, b, s.embargo) {
        FoldIsPurged(s, groups, k, r, b);
      }
    }
    if forall b :: b in FoldAt(s, groups, k).test ==> Precedes(groups, r, b, s.embargo) {
      var b := FirstTestRow(s, groups, k);
      assert Precedes(groups, r, b, s.embargo);
      EarlyEnoughTrains(s, groups, k, r, b);
    }
  }

  lemma EarlyEnoughTrains(s: Splitter, groups: Groups, k: nat, r: nat, b: nat)
    requires Splits(s, groups) && k < s.nSplits && Precedes(groups, r, b, s.embargo)
    requires Rank(GroupSet(groups), groups[b].value) == TestStart(s, |GroupSet(groups)|, k)
    ensures r in FoldAt(s, groups, k).train
  {
    hide RowsWhere, TestStart, TestEnd, Rank;
    var all := GroupSet(groups);
    assert groups[r] in groups && groups[b] in groups;
    RankDifference(all, groups[r].value, groups[b].value);
    RowIsWhere(groups, Block(all, 0, TrainEnd(s, |all|, k)), |groups|, r);
  }

  lemma StartsIncrease(s: Splitter, count: nat, j: nat, k: nat)
    requires Valid(s) && count >= s.nSplits + 1 && j < k < s.nSplits
    ensures TestEnd(s, count, j) <= TestStart(s, count, k)
    ensures TestStart(s, count, j) <= TestStart(s, count, k)
  {
    hide TestStart, TestEnd;
    NothingIsClipped(s, count, j);
    NothingIsClipped(s, count, k);
    Monotone(j + 1, k, FoldSize(s, count));
    assert (j + 1) * FoldSize(s, count) == j * FoldSize(s, count) + FoldSize(s, count);
  }

  /** Later folds train on at least the same rows, and test only later groups. */
  lemma FoldsMoveForward(s: Splitter, groups: Groups, j: nat, k: nat)
    requires Splits(s, groups) && j < k < s.nSplits
    ensures forall r :: r in FoldAt(s, groups, j).train ==> r in FoldAt(s, groups, k).train
    ensures |FoldAt(s, groups, j).train| <= |FoldAt(s, groups, k).train|
    ensures forall a, b :: a in FoldAt(s, groups, j).test && b in FoldAt(s, groups, k).test ==>
      a < |groups| && b < |groups| && groups[a].Some? && groups[b].Some? && groups[a].value < groups[b].value
  {
    hide RowsWhere, TestStart, TestEnd, Rank;
    var all := GroupSet(groups);
    StartsIncrease(s, |all|, j, k);
    var (fewer, more) := (Block(all, 0, TrainEnd(s, |all|, j)), Block(all, 0, TrainEnd(s, |all|, k)));
    assert fewer <= more;
    MoreGroupsMoreRows(groups, fewer, more, |groups|);
    forall r | r in FoldAt(s, groups, j).train ensures r in FoldAt(s, groups, k).train {
      RowIsWhere(groups, fewer, |groups|, r);
      RowIsWhere(groups, more, |groups|, r);
    }
    forall a, b | a in FoldAt(s, groups, j).test && b in FoldAt(s, groups, k).test
      ensures a < |groups| && b < |groups| && groups[a].Some? && groups[b].Some? && groups[a].value < groups[b].value
    {
      RowIsWhere(groups, Block(all, TestStart(s, |all|, j), TestEnd(s, |all|, j)), |groups|, a);
      RowIsWhere(groups, Block(all, TestStart(s, |all|, k), TestEnd(s, |all|, k)), |groups|, b);
      RankOrders(all, groups[a].value, groups[b].value);
    }
  }

  /** A row whose group lies between two tested groups is tested by one of the folds between. */
  lemma {:induction false} TestBlocksLeaveNoGap(s: Splitter, groups: Groups, j: nat, k: nat, a: nat, r: nat, b: nat) returns (m: nat)
    requires Splits(s, groups) && j <= k < s.nSplits
    requires a < |groups| && r < |groups| && b < |groups| && groups[a].Some? && groups[r].Some? && groups[b].Some?
    requires a in FoldAt(s, groups, j).test && b in FoldAt(s, groups, k).test
    requires groups[a].value <= groups[r].value <= groups[b].value
    ensures j <= m <= k && r in FoldAt(s, groups, m).test
  {
    hide RowsWhere, TestStart, TestEnd, Rank, FoldSize;
    var all := GroupSet(groups);
    var count := |all|;
    RowIsWhere(groups, Block(all, TestStart(s, count, j), TestEnd(s, count, j)), |groups|, a);
    RowIsWhere(groups, Block(all, TestStart(s, count, k), TestEnd(s, count, k)), |groups|, b);
    assert groups[r] in groups && groups[r].value in all;
    var rank := Rank(all, groups[r].value);
    RankOrders(all, groups[r].value, groups[a].value);
    RankOrders(all, groups[b].value, groups[r].value);
    m := BlockOf(s, count, j, k, rank);
    RowIsWhere(groups, Block(all, TestStart(s, count, m), TestEnd(s, count, m)), |groups|, r);
  }

  lemma {:induction false} BlockOf(s: Splitter, count: nat, j: nat, k: nat, rank: nat) returns (m: nat)
    requires Valid(s) && count >= s.nSplits + 1 && j <= k < s.nSplits
    requires TestStart(s, count, j) <= rank < TestEnd(s, count, k)
    ensures j <= m <= k && TestStart(s, count, m) <= rank < TestEnd(s, count, m)
    decreases k - j
  {
    hide TestStart, TestEnd, FoldSize;
    if rank < TestEnd(s, count, j) {
      m := j;
    } else {
      NothingIsClipped(s, count, j);
      m := BlockOf(s, count, j + 1, k, rank);
    }
  }

  /** Training only grows, so the folds that are too small to train on come first: what the splitter
      yields are all folds from some fold `c` on, in order. */
  lemma {:induction false} KeptFoldsAreASuffix(s: Splitter, groups: Groups, n: nat) returns (c: nat)
    requires Splits(s, groups) && n <= s.nSplits
    ensures c <= n && |KeptFolds(s, groups, n)| == n - c
    ensures forall i :: 0 <= i < n - c ==> KeptFolds(s, groups, n)[i] == FoldAt(s, groups, c + i)
    ensures forall k :: 0 <= k < n ==> (k >= c <==> |FoldAt(s, groups, k).train| >= s.minTrain)
  {
    hide FoldAt;
    if n == 0 {
      c := 0;
    } else {
      c := KeptFoldsAreASuffix(s, groups, n - 1);
      TestIsNotEmpty(s, groups, n - 1);
      if |FoldAt(s, groups, n - 1).train| < s.minTrain {
        if c < n - 1 {
          FoldsMoveForward(s, groups, c, n - 1);
        }
        c := n;
      }
    }
  }

  lemma TestIsNotEmpty(s: Splitter, groups: Groups, k: nat)
    requires Splits(s, groups) && k < s.nSplits
    ensures FoldAt(s, groups, k).test != []
  {
    FoldTestsFullBlock(s, groups, k);
  }

  /** The laws of what the splitter yields, for any two of its folds: a fold's test rows lie more
      than the embargo behind its own and all earlier training rows, tests move forward in time, so
      that no row is tested twice, training sets only grow, each fold tests `FoldSize` groups, and it
      trains on every row that lies that far before all its test rows. */
  lemma SplitLaws(s: Splitter, groups: Groups, i: nat, j: nat)
    requires Splits(s, groups)
    requires i <= j < |KeptFolds(s, groups, s.nSplits)|
    ensures
      var (early, late) := (KeptFolds(s, groups, s.nSplits)[i], KeptFolds(s, groups, s.nSplits)[j]);
      && (forall a, b :: a in early.train && b in late.test ==> Precedes(groups, a, b, s.embargo))
      && (i < j ==> forall a, b :: a in early.test && b in late.test ==> Precedes(groups, a, b, 0))
      && (forall r :: r in early.train ==> r in late.train)
      && |late.train| >= s.minTrain && Ascends(late.train) && Ascends(late.test)
      && (forall r :: r in late.test ==> r < |groups| && groups[r].Some?)
      && |GroupsOf(groups, late.test)| == FoldSize(s, |GroupSet(groups)|)
      && (forall r :: 0 <= r < |groups| && groups[r].Some? ==>
            (r in late.train <==> forall b :: b in late.test ==> Precedes(groups, r, b, s.embargo)))
  {
    hide FoldAt, FoldSize, GroupsOf, Precedes, Between;
    var c := KeptFoldsAreASuffix(s, groups, s.nSplits);
    var (early, late) := (FoldAt(s, groups, c + i), FoldAt(s, groups, c + j));
    FoldTestsFullBlock(s, groups, c + j);
    FoldRowsAscend(s, groups, c + j);
    if i < j {
      FoldsMoveForward(s, groups, c + i, c + j);
      forall a, b | a in early.test && b in late.test ensures Precedes(groups, a, b, 0) {
        TestsPrecede(s, groups, c + i, c + j, a, b);
      }
    }
    forall a, b | a in early.train && b in late.test ensures Precedes(groups, a, b, s.embargo) {
      PurgedPrecedes(s, groups, c + j, a, b);
    }
    forall r | 0 <= r < |groups| && groups[r].Some?
      ensures r in late.train <==> forall b :: b in late.test ==> Precedes(groups, r, b, s.embargo)
    {
      TrainsExactly(s, groups, c + j, r);
    }
  }

  lemma PurgedPrecedes(s: Splitter, groups: Groups, k: nat, a: nat, b: nat)
    requires Splits(s, groups) && k < s.nSplits
    requires a in FoldAt(s, groups, k).train && b in FoldAt(s, groups, k).test
    ensures Precedes(groups, a, b, s.embargo)
  {
    hide FoldAt;
    FoldIsPurged(s, groups, k, a, b);
  }

  lemma TestsPrecede(s: Splitter, groups: Groups, j: nat, k: nat, a: nat, b: nat)
    requires Splits(s, groups) && j < k < s.nSplits
    requires a in FoldAt(s, groups, j).test && b in FoldAt(s, groups, k).test
    ensures Precedes(groups, a, b, 0)
  {
    hide FoldAt;
    FoldsMoveForward(s, groups, j, k);
  }
}
