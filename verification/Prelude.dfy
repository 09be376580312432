/** Shared vocabulary: optional values, results, and the few facts about sequences,
    sorting and text order that several components use. */
module Prelude {
  datatype Option<+T> = None | Some(value: T)

  datatype Result<+T> = Success(value: T) | Failure(error: string)

  // ----- sequences -----

  ghost predicate NoDuplicates<T>(s: seq<T>) {
    forall i, j :: 0 <= i < j < |s| ==> s[i] != s[j]
  }

  /** A sequence without duplicates has as many members as positions. */
  lemma {:induction false} DistinctCardinality<T>(s: seq<T>)
    requires NoDuplicates(s)
    ensures |set x | x in s| == |s|
  {
    if s != [] {
      var rest := s[..|s| - 1];
      DistinctCardinality(rest);
      assert (set x | x in s) == (set x | x in rest) + {s[|s| - 1]};
    }
  }

  lemma {:induction false} DistinctAtMost<T>(s: seq<T>)
    ensures |set x | x in s| <= |s|
    ensures |set x | x in s| == |s| <==> NoDuplicates(s)
  {
    if s != [] {
      var n := |s| - 1;
      var p := s[..n];
      DistinctAtMost(p);
      var before, after := set x | x in p, set x | x in s;
      assert s == p + [s[n]];
      assert after == before + {s[n]};
      if s[n] in p {
        var i :| 0 <= i < n && p[i] == s[n];
        assert s[i] == s[n];
        assert after == before;
      } else if NoDuplicates(p) {
        assert forall i :: 0 <= i < n ==> s[i] == p[i] && p[i] in p;
      }
    }
  }

  lemma {:induction false} SubsetCardinality<T>(a: set<T>, b: set<T>)
    requires a <= b
    ensures |a| <= |b|
  {
    if a != {} {
      var x :| x in a;
      SubsetCardinality(a - {x}, b - {x});
    }
  }

  function RealMin(a: real, b: real): real { if a <= b then a else b }

  function RealMax(a: real, b: real): real { if a >= b then a else b }

  function FlatMap<A, B>(f: A -> seq<B>, s: seq<A>): seq<B> {
    if s == [] then [] else f(s[0]) + FlatMap(f, s[1..])
  }

  lemma {:induction false} FlatMapConcat<A, B>(f: A -> seq<B>, s: seq<A>, t: seq<A>)
    ensures FlatMap(f, s + t) == FlatMap(f, s) + FlatMap(f, t)
  {
    if s == [] {
      assert s + t == t;
    } else {
      assert (s + t)[1..] == s[1..] + t;
      FlatMapConcat(f, s[1..], t);
      assert f(s[0]) + (FlatMap(f, s[1..]) + FlatMap(f, t)) == FlatMap(f, s) + FlatMap(f, t);
    }
  }

  lemma FlatMapNext<A, B>(f: A -> seq<B>, s: seq<A>, i: nat)
    requires i < |s|
    ensures FlatMap(f, s[..i + 1]) == FlatMap(f, s[..i]) + f(s[i])
  {
    assert s[..i + 1] == s[..i] + [s[i]];
    FlatMapConcat(f, s[..i], [s[i]]);
    assert FlatMap(f, [s[i]]) == f(s[i]) + FlatMap(f, []);
  }

  lemma {:induction false} FlatMapEmpty<A, B>(f: A -> seq<B>, s: seq<A>)
    requires forall x :: x in s ==> f(x) == []
    ensures FlatMap(f, s) == []
  {
    if s != [] {
      assert s[0] in s;
      FlatMapEmpty(f, s[1..]);
    }
  }

  lemma {:induction false} FlatMapMember<A, B>(f: A -> seq<B>, s: seq<A>, y: B)
    ensures y in FlatMap(f, s) <==> exists i :: 0 <= i < |s| && y in f(s[i])
  {
    if s != [] {
      FlatMapMember(f, s[1..], y);
      if y in FlatMap(f, s[1..]) {
        var i :| 0 <= i < |s[1..]| && y in f(s[1..][i]);
        assert y in f(s[i + 1]);
      }
      if i :| 0 <= i < |s| && y in f(s[i]) {
        if i > 0 {
          assert s[1..][i - 1] == s[i];
        }
      }
    }
  }

  /** Reordering the input of a flat map only reorders its output. */
  lemma {:induction false} FlatMapPermutation<A, B>(f: A -> seq<B>, s: seq<A>, t: seq<A>)
    requires multiset(s) == multiset(t)
    ensures multiset(FlatMap(f, s)) == multiset(FlatMap(f, t))
  {
    if s == [] {
      assert |multiset(t)| == 0;
    } else {
      var k := RemoveOne(s, t);
      var rest := t[..k] + t[k + 1..];
      FlatMapPermutation(f, s[1..], rest);
      FlatMapConcat(f, t[..k], t[k + 1..]);
      FlatMapTakesOut(f, t, k);
    }
  }

  lemma FlatMapTakesOut<A, B>(f: A -> seq<B>, t: seq<A>, k: nat)
    requires k < |t|
    ensures FlatMap(f, t) == FlatMap(f, t[..k]) + (f(t[k]) + FlatMap(f, t[k + 1..]))
  {
    var tail := t[k..];
    assert FlatMap(f, tail) == f(tail[0]) + FlatMap(f, tail[1..]);
    hide FlatMap;
    assert t == t[..k] + tail && tail[0] == t[k] && tail[1..] == t[k + 1..];
    FlatMapConcat(f, t[..k], tail);
  }

  /** In a permutation of `s`, some position holds the head of `s`; removing both leaves a permutation. */
  lemma RemoveOne<A>(s: seq<A>, t: seq<A>) returns (k: nat)
    requires s != [] && multiset(s) == multiset(t)
    ensures k < |t| && t[k] == s[0]
    ensures multiset(s[1..]) == multiset(t[..k] + t[k + 1..])
  {
    assert s[0] in multiset(s);
    assert s[0] in t;
    k :| 0 <= k < |t| && t[k] == s[0];
    assert s == [s[0]] + s[1..];
    assert t == t[..k] + [t[k]] + t[k + 1..];
    assert multiset(s) == multiset{s[0]} + multiset(s[1..]);
    assert multiset(t) == multiset(t[..k]) + multiset{t[k]} + multiset(t[k + 1..]);
    assert multiset(t[..k] + t[k + 1..]) == multiset(t) - multiset{s[0]};
  }

  function Filter<A>(p: A -> bool, s: seq<A>): seq<A> {
    if s == [] then [] else (if p(s[0]) then [s[0]] else []) + Filter(p, s[1..])
  }

  lemma {:induction false} FilterConcat<A>(p: A -> bool, s: seq<A>, t: seq<A>)
    ensures Filter(p, s + t) == Filter(p, s) + Filter(p, t)
  {
    if s == [] {
      assert s + t == t;
    } else {
      assert (s + t)[1..] == s[1..] + t;
      FilterConcat(p, s[1..], t);
      var head := if p(s[0]) then [s[0]] else [];
      assert Filter(p, s + t) == head + Filter(p, (s + t)[1..]);
      assert head + (Filter(p, s[1..]) + Filter(p, t)) == (head + Filter(p, s[1..])) + Filter(p, t);
    }
  }

  lemma FilterNext<A>(p: A -> bool, s: seq<A>, i: nat)
    requires i < |s|
    ensures Filter(p, s[..i + 1]) == Filter(p, s[..i]) + (if p(s[i]) then [s[i]] else [])
  {
    assert s[..i + 1] == s[..i] + [s[i]];
    FilterConcat(p, s[..i], [s[i]]);
    assert Filter(p, [s[i]]) == (if p(s[i]) then [s[i]] else []) + Filter(p, []);
  }

  lemma {:induction false} FilterMember<A>(p: A -> bool, s: seq<A>, x: A)
    ensures x in Filter(p, s) <==> x in s && p(x)
  {
    if s != [] {
      FilterMember(p, s[1..], x);
      assert s == [s[0]] + s[1..];
    }
  }

  lemma {:induction false} FilterNone<A>(p: A -> bool, s: seq<A>)
    requires forall x :: x in s ==> !p(x)
    ensures Filter(p, s) == []
  {
    if s != [] {
      assert s[0] in s;
      FilterNone(p, s[1..]);
    }
  }

  /** Filtering what a flat map yields, when only position `k` of its input yields anything kept. */
  lemma FilterFlatMap<A, B>(p: B -> bool, f: A -> seq<B>, s: seq<A>, k: nat)
    requires k < |s|
    requires forall i :: 0 <= i < |s| && i != k ==> Filter(p, f(s[i])) == []
    ensures Filter(p, FlatMap(f, s)) == Filter(p, f(s[k]))
  {
    FlatMapTakesOut(f, s, k);
    FilterConcat(p, FlatMap(f, s[..k]), f(s[k]) + FlatMap(f, s[k + 1..]));
    FilterConcat(p, f(s[k]), FlatMap(f, s[k + 1..]));
    FilterFlatMapNone(p, f, s[..k]);
    FilterFlatMapNone(p, f, s[k + 1..]);
  }

  lemma {:induction false} FilterFlatMapNone<A, B>(p: B -> bool, f: A -> seq<B>, s: seq<A>)
    requires forall i :: 0 <= i < |s| ==> Filter(p, f(s[i])) == []
    ensures Filter(p, FlatMap(f, s)) == []
  {
    if s != [] {
      FilterConcat(p, f(s[0]), FlatMap(f, s[1..]));
      FilterFlatMapNone(p, f, s[1..]);
    }
  }

  /** A flat map may skip the elements that yield nothing. */
  lemma {:induction false} FlatMapSkips<A, B>(f: A -> seq<B>, p: A -> bool, s: seq<A>)
    requires forall x :: x in s && !p(x) ==> f(x) == []
    ensures FlatMap(f, Filter(p, s)) == FlatMap(f, s)
  {
    if s != [] {
      assert s[0] in s;
      FlatMapSkips(f, p, s[1..]);
      FlatMapConcat(f, if p(s[0]) then [s[0]] else [], Filter(p, s[1..]));
      assert p(s[0]) ==> FlatMap(f, [s[0]]) == f(s[0]) + FlatMap(f, []);
    }
  }

  lemma {:induction false} FilterCount<A>(p: A -> bool, s: seq<A>, x: A)
    ensures multiset(Filter(p, s))[x] == if p(x) then multiset(s)[x] else 0
  {
    if s != [] {
      FilterCount(p, s[1..], x);
      assert s == [s[0]] + s[1..];
      assert multiset(s) == multiset{s[0]} + multiset(s[1..]);
    }
  }

  lemma FilterPermutation<A(!new)>(p: A -> bool, s: seq<A>, t: seq<A>)
    requires multiset(s) == multiset(t)
    ensures multiset(Filter(p, s)) == multiset(Filter(p, t))
  {
    var a, b := multiset(Filter(p, s)), multiset(Filter(p, t));
    forall x ensures a[x] == b[x] {
      FilterCount(p, s, x);
      FilterCount(p, t, x);
    }
    assert a == b;
  }

  // ----- sorting -----

  ghost predicate TotalPreorder<T(!new)>(leq: (T, T) -> bool) {
    && (forall x, y :: leq(x, y) || leq(y, x))
    && (forall x, y, z :: leq(x, y) && leq(y, z) ==> leq(x, z))
  }

  ghost predicate SortedBy<T>(leq: (T, T) -> bool, s: seq<T>) {
    forall i, j :: 0 <= i < j < |s| ==> leq(s[i], s[j])
  }

  lemma InsertInFront<T(!new)>(leq: (T, T) -> bool, x: T, s: seq<T>)
    requires TotalPreorder(leq) && SortedBy(leq, s)
    requires s != [] && leq(x, s[0])
    ensures SortedBy(leq, [x] + s)
  {
    forall j | 0 <= j < |s| ensures leq(x, s[j]) {
      assert j > 0 ==> leq(s[0], s[j]);
    }
  }

  lemma ConsSorted<T(!new)>(leq: (T, T) -> bool, h: T, s: seq<T>)
    requires SortedBy(leq, s)
    requires forall y :: y in multiset(s) ==> leq(h, y)
    ensures SortedBy(leq, [h] + s)
  {
    forall j | 0 <= j < |s| ensures leq(h, s[j]) {
      assert s[j] in multiset(s);
    }
  }

  function Insert<T(!new)>(leq: (T, T) -> bool, x: T, s: seq<T>): (r: seq<T>)
    requires TotalPreorder(leq) && SortedBy(leq, s)
    ensures SortedBy(leq, r)
    ensures multiset(r) == multiset{x} + multiset(s)
    decreases |s|
  {
    if s == [] then [x]
    else if leq(x, s[0]) then
      InsertInFront(leq, x, s);
      [x] + s
    else
      var r := Insert(leq, x, s[1..]);
      assert s == [s[0]] + s[1..];
      assert forall y :: y in multiset(r) ==> leq(s[0], y) by {
        forall y | y in multiset(r) ensures leq(s[0], y) {
          if y != x {
            assert y in multiset(s[1..]);
            assert y in s[1..];
          }
        }
      }
      ConsSorted(leq, s[0], r);
      [s[0]] + r
  }

  /** A stable sort, as the library sorts used by the source are. */
  function Sort<T(!new)>(leq: (T, T) -> bool, s: seq<T>): (r: seq<T>)
    requires TotalPreorder(leq)
    ensures SortedBy(leq, r)
    ensures multiset(r) == multiset(s)
    ensures |r| == |s|
  {
    if s == [] then []
    else
      var r := Insert(leq, s[0], Sort(leq, s[1..]));
      assert s == [s[0]] + s[1..];
      assert multiset(r) == multiset(s);
      assert |multiset(r)| == |r| && |multiset(s)| == |s|;
      r
  }

  // ----- text order -----

  /** Lexicographic order on text. */
  predicate TextLeq(a: string, b: string) {
    a == "" || (b != "" && (a[0] < b[0] || (a[0] == b[0] && TextLeq(a[1..], b[1..]))))
  }

  lemma {:induction false} TextLeqTotal(a: string, b: string)
    ensures TextLeq(a, b) || TextLeq(b, a)
    ensures TextLeq(a, b) && TextLeq(b, a) ==> a == b
  {
    if a != "" && b != "" {
      TextLeqTotal(a[1..], b[1..]);
      if a[0] == b[0] && a[1..] == b[1..] {
        assert a == [a[0]] + a[1..] == b;
      }
    }
  }

  lemma {:induction false} TextLeqTransitive(a: string, b: string, c: string)
    requires TextLeq(a, b) && TextLeq(b, c)
    ensures TextLeq(a, c)
  {
    if a != "" && a[0] == b[0] == c[0] {
      TextLeqTransitive(a[1..], b[1..], c[1..]);
    }
  }
}
