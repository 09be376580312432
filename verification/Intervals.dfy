/** Half-open intervals of time and the one fact that the symbol master, the membership audit and
    the membership join share: checking neighbours in sorted order is enough. */
module Intervals {
  import opened Prelude

  datatype Interval = Interval(from: int, to: Option<int>)

  predicate NonEmpty(i: Interval) {
    i.to.None? || i.from < i.to.value
  }

  predicate Contains(i: Interval, t: int) {
    i.from <= t && (i.to.None? || t < i.to.value)
  }

  /** An interval is not empty exactly when it holds some moment; it holds its start, and not its end. */
  lemma NonEmptyExactlyWhen(i: Interval)
    ensures NonEmpty(i) <==> exists t :: Contains(i, t)
    ensures NonEmpty(i) ==> Contains(i, i.from) && !Contains(i, i.from - 1)
    ensures i.to.Some? ==> !Contains(i, i.to.value)
  {
    if NonEmpty(i) {
      assert Contains(i, i.from);
    }
  }

  ghost predicate Disjoint(a: Interval, b: Interval) {
    forall t :: !(Contains(a, t) && Contains(b, t))
  }

  /** The check on two neighbours: the earlier interval has ended when the later one starts. */
  predicate EndsBefore(a: Interval, b: Interval) {
    a.to.Some? && a.to.value <= b.from
  }

  ghost predicate PairwiseDisjoint<R>(span: R -> Interval, s: seq<R>) {
    forall i, j :: 0 <= i < j < |s| ==> Disjoint(span(s[i]), span(s[j]))
  }

  ghost predicate AllNonEmpty<R>(span: R -> Interval, s: seq<R>) {
    forall i :: 0 <= i < |s| ==> NonEmpty(span(s[i]))
  }

  ghost predicate SortedByStart<R>(span: R -> Interval, s: seq<R>) {
    forall i, j :: 0 <= i < j < |s| ==> span(s[i]).from <= span(s[j]).from
  }

  ghost predicate NeighboursDisjoint<R>(span: R -> Interval, s: seq<R>) {
    forall i :: 0 <= i < |s| - 1 ==> EndsBefore(span(s[i]), span(s[i + 1]))
  }

  /** For non-empty intervals sorted by start, the neighbour checks hold exactly when the
      intervals are pairwise disjoint. */
  lemma NeighboursSuffice<R>(span: R -> Interval, s: seq<R>)
    requires SortedByStart(span, s) && AllNonEmpty(span, s)
    ensures NeighboursDisjoint(span, s) <==> PairwiseDisjoint(span, s)
  {
    if NeighboursDisjoint(span, s) {
      forall i, j | 0 <= i < j < |s| ensures Disjoint(span(s[i]), span(s[j])) {
        assert EndsBefore(span(s[i]), span(s[i + 1]));
        assert span(s[i + 1]).from <= span(s[j]).from;
      }
    }
    if PairwiseDisjoint(span, s) {
      forall i | 0 <= i < |s| - 1 ensures EndsBefore(span(s[i]), span(s[i + 1])) {
        var a, b := span(s[i]), span(s[i + 1]);
        assert Disjoint(a, b) && NonEmpty(b) && a.from <= b.from;
        assert Contains(b, b.from);
        assert !Contains(a, b.from);
      }
    }
  }

  function At<R>(span: R -> Interval, t: int): R -> bool {
    (r: R) => Contains(span(r), t)
  }

  /** Intervals are pairwise disjoint exactly when at most one of them contains any given time. */
  lemma {:induction false} DisjointExactlyWhenOneAtATime<R>(span: R -> Interval, s: seq<R>)
    ensures PairwiseDisjoint(span, s) <==> forall t :: |Filter(At(span, t), s)| <= 1
  {
    if s != [] {
      var rest := s[1..];
      DisjointExactlyWhenOneAtATime(span, rest);
      if PairwiseDisjoint(span, s) {
        assert PairwiseDisjoint(span, rest);
        forall t ensures |Filter(At(span, t), s)| <= 1 {
          if Contains(span(s[0]), t) {
            forall r | r in rest ensures !At(span, t)(r) {
              var j :| 0 <= j < |rest| && rest[j] == r;
              assert Disjoint(span(s[0]), span(s[j + 1]));
            }
            FilterNone(At(span, t), rest);
          }
        }
      }
      if forall t :: |Filter(At(span, t), s)| <= 1 {
        forall t ensures |Filter(At(span, t), rest)| <= 1 {
          assert |Filter(At(span, t), s)| <= 1;
        }
        forall j | 1 <= j < |s| ensures Disjoint(span(s[0]), span(s[j])) {
          forall t ensures !(Contains(span(s[0]), t) && Contains(span(s[j]), t)) {
            FilterMember(At(span, t), rest, rest[j - 1]);
            assert |Filter(At(span, t), s)| <= 1;
          }
        }
        forall i, j | 1 <= i < j < |s| ensures Disjoint(span(s[i]), span(s[j])) {
          assert Disjoint(span(rest[i - 1]), span(rest[j - 1]));
        }
      }
    }
  }

  lemma DisjointPermutation<R(!new)>(span: R -> Interval, s: seq<R>, t: seq<R>)
    requires multiset(s) == multiset(t)
    ensures PairwiseDisjoint(span, s) <==> PairwiseDisjoint(span, t)
  {
    DisjointExactlyWhenOneAtATime(span, s);
    DisjointExactlyWhenOneAtATime(span, t);
    forall x ensures |Filter(At(span, x), s)| == |Filter(At(span, x), t)| {
      FilterPermutation(At(span, x), s, t);
      assert |multiset(Filter(At(span, x), s))| == |multiset(Filter(At(span, x), t))|;
    }
  }

  lemma NonEmptyPermutation<R>(span: R -> Interval, s: seq<R>, t: seq<R>)
    requires multiset(s) == multiset(t) && AllNonEmpty(span, s)
    ensures AllNonEmpty(span, t)
  {
    forall i | 0 <= i < |t| ensures NonEmpty(span(t[i])) {
      assert t[i] in multiset(t);
      assert t[i] in s;
    }
  }

  function StartLeq<R>(span: R -> Interval): (R, R) -> bool {
    (a: R, b: R) => span(a).from <= span(b).from
  }

  lemma StartOrder<R(!new)>(span: R -> Interval)
    ensures TotalPreorder(StartLeq(span))
  {}

  // ----- grouping by a key -----

  function HasKey<R>(key: R -> string, k: string): R -> bool {
    (r: R) => key(r) == k
  }

  /** Each key's group holds its records in table order. */
  ghost predicate GroupedBy<R>(key: R -> string, s: seq<R>, groups: map<string, seq<R>>) {
    && (forall k :: k in groups <==> Filter(HasKey(key, k), s) != [])
    && (forall k :: k in groups ==> groups[k] == Filter(HasKey(key, k), s))
  }

  /** The source's setdefault(key, []).append(record). */
  method GroupBy<R>(key: R -> string, s: seq<R>) returns (groups: map<string, seq<R>>)
    ensures GroupedBy(key, s, groups)
  {
    groups := map[];
    for i := 0 to |s|
      invariant GroupedBy(key, s[..i], groups)
    {
      var k := key(s[i]);
      ghost var before := groups;
      groups := groups[k := (if k in groups then groups[k] else []) + [s[i]]];
      forall k' ensures
        && (k' in groups <==> Filter(HasKey(key, k'), s[..i + 1]) != [])
        && (k' in groups ==> groups[k'] == Filter(HasKey(key, k'), s[..i + 1]))
      {
        FilterNext(HasKey(key, k'), s, i);
        assert k' in before <==> Filter(HasKey(key, k'), s[..i]) != [];
        assert k' in before ==> before[k'] == Filter(HasKey(key, k'), s[..i]);
      }
    }
    assert s[..|s|] == s;
  }

  function KeyAt<R>(key: R -> string, span: R -> Interval, k: string, t: int): R -> bool {
    (r: R) => key(r) == k && Contains(span(r), t)
  }

  /** At any time at most one record holds any given key. */
  ghost predicate OneAtATime<R>(key: R -> string, span: R -> Interval, s: seq<R>) {
    forall k, t :: |Filter(KeyAt(key, span, k, t), s)| <= 1
  }

  lemma {:induction false} AtMostOne<R>(p: R -> bool, s: seq<R>)
    ensures |Filter(p, s)| <= 1 <==> forall i, j :: 0 <= i < j < |s| ==> !(p(s[i]) && p(s[j]))
  {
    if s != [] {
      var rest := s[1..];
      AtMostOne(p, rest);
      assert forall i :: 0 <= i < |rest| ==> rest[i] == s[i + 1];
      assert forall i :: 1 <= i < |s| ==> s[i] == rest[i - 1];
      if p(s[0]) {
        if Filter(p, rest) == [] {
          forall j | 1 <= j < |s| ensures !p(s[j]) {
            FilterMember(p, rest, s[j]);
          }
        } else {
          var x := Filter(p, rest)[0];
          FilterMember(p, rest, x);
          var j :| 0 <= j < |rest| && rest[j] == x;
          assert p(s[0]) && p(s[j + 1]);
        }
      }
    }
  }

  /** One at a time means what it says: no two records with one key hold the same moment. */
  lemma OneAtATimeMeans<R>(key: R -> string, span: R -> Interval, s: seq<R>)
    ensures OneAtATime(key, span, s) <==>
      forall i, j :: 0 <= i < j < |s| && key(s[i]) == key(s[j]) ==> Disjoint(span(s[i]), span(s[j]))
  {
    forall k, t ensures |Filter(KeyAt(key, span, k, t), s)| <= 1 <==>
      forall i, j :: 0 <= i < j < |s| ==> !(KeyAt(key, span, k, t)(s[i]) && KeyAt(key, span, k, t)(s[j]))
    {
      AtMostOne(KeyAt(key, span, k, t), s);
    }
    if OneAtATime(key, span, s) {
      forall i, j | 0 <= i < j < |s| && key(s[i]) == key(s[j]) ensures Disjoint(span(s[i]), span(s[j])) {
        forall t ensures !(Contains(span(s[i]), t) && Contains(span(s[j]), t)) {
          assert |Filter(KeyAt(key, span, key(s[i]), t), s)| <= 1;
          assert KeyAt(key, span, key(s[i]), t)(s[i]) == Contains(span(s[i]), t);
        }
      }
    }
    if forall i, j :: 0 <= i < j < |s| && key(s[i]) == key(s[j]) ==> Disjoint(span(s[i]), span(s[j])) {
      forall k, t ensures |Filter(KeyAt(key, span, k, t), s)| <= 1 {
        forall i, j | 0 <= i < j < |s| ensures !(KeyAt(key, span, k, t)(s[i]) && KeyAt(key, span, k, t)(s[j])) {
          if key(s[i]) == key(s[j]) {
            assert Disjoint(span(s[i]), span(s[j]));
          }
        }
      }
    }
  }

  lemma {:induction false} FilterTwice<R>(p: R -> bool, q: R -> bool, both: R -> bool, s: seq<R>)
    requires forall x :: x in s ==> (both(x) <==> p(x) && q(x))
    ensures Filter(p, Filter(q, s)) == Filter(both, s)
  {
    if s != [] {
      assert s[0] in s;
      FilterTwice(p, q, both, s[1..]);
      FilterConcat(p, if q(s[0]) then [s[0]] else [], Filter(q, s[1..]));
      assert q(s[0]) ==> Filter(p, [s[0]]) == (if p(s[0]) then [s[0]] else []) + Filter(p, []);
    }
  }

  lemma KeyedRecordsAt<R>(key: R -> string, span: R -> Interval, s: seq<R>, k: string)
    ensures PairwiseDisjoint(span, Filter(HasKey(key, k), s))
      <==> forall t :: |Filter(KeyAt(key, span, k, t), s)| <= 1
  {
    var group := Filter(HasKey(key, k), s);
    DisjointExactlyWhenOneAtATime(span, group);
    forall t ensures Filter(At(span, t), group) == Filter(KeyAt(key, span, k, t), s) {
      FilterTwice(At(span, t), HasKey(key, k), KeyAt(key, span, k, t), s);
    }
  }

  lemma GroupsDecide<R>(key: R -> string, span: R -> Interval, s: seq<R>, groups: map<string, seq<R>>)
    requires GroupedBy(key, s, groups)
    ensures (forall k :: k in groups ==> PairwiseDisjoint(span, groups[k])) <==> OneAtATime(key, span, s)
  {
    hide PairwiseDisjoint, KeyAt, HasKey;
    forall k ensures PairwiseDisjoint(span, Filter(HasKey(key, k), s))
      <==> forall t :: |Filter(KeyAt(key, span, k, t), s)| <= 1
    {
      KeyedRecordsAt(key, span, s, k);
    }
    EmptyIsDisjoint(span);
    assert forall k :: k !in groups ==> Filter(HasKey(key, k), s) == [];
    if OneAtATime(key, span, s) {
      forall k | k in groups ensures PairwiseDisjoint(span, groups[k]) {
        assert groups[k] == Filter(HasKey(key, k), s);
      }
    }
    if forall k :: k in groups ==> PairwiseDisjoint(span, groups[k]) {
      forall k, t ensures |Filter(KeyAt(key, span, k, t), s)| <= 1 {
        if k in groups {
          assert groups[k] == Filter(HasKey(key, k), s);
        }
        assert PairwiseDisjoint(span, Filter(HasKey(key, k), s));
      }
    }
  }

  lemma EmptyIsDisjoint<R>(span: R -> Interval)
    ensures PairwiseDisjoint(span, [])
  {}

  lemma OneAtATimePermutation<R(!new)>(key: R -> string, span: R -> Interval, s: seq<R>, t: seq<R>)
    requires multiset(s) == multiset(t)
    ensures OneAtATime(key, span, s) <==> OneAtATime(key, span, t)
  {
    forall k, x ensures |Filter(KeyAt(key, span, k, x), s)| == |Filter(KeyAt(key, span, k, x), t)| {
      FilterPermutation(KeyAt(key, span, k, x), s, t);
      assert |multiset(Filter(KeyAt(key, span, k, x), s))| == |multiset(Filter(KeyAt(key, span, k, x), t))|;
    }
  }
}
