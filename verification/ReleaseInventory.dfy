/** The source inventory of a release (release.py): which files go into it, under which names, and
    the identity that their contents give it. */
module ReleaseInventory {
  import opened Prelude
  import opened ReleaseStore

  /** A file to be released, with its place in the release. */
  datatype Source = Source(kind: string, destination: string, bytes: string)

  function AssetOf(h: Hashes): Source -> seq<Asset> {
    (s: Source) => [Asset(s.kind, s.destination, h.file(s.bytes))]
  }

  function AssetsOf(h: Hashes, sources: seq<Source>): seq<Asset> {
    FlatMap(AssetOf(h), sources)
  }

  function DestinationLeq(): (Asset, Asset) -> bool {
    (a: Asset, b: Asset) => TextLeq(a.destination, b.destination)
  }

  lemma DestinationOrder()
    ensures TotalPreorder(DestinationLeq())
  {
    forall a: Asset, b: Asset ensures DestinationLeq()(a, b) || DestinationLeq()(b, a) {
      TextLeqTotal(a.destination, b.destination);
    }
    forall a: Asset, b: Asset, c: Asset | DestinationLeq()(a, b) && DestinationLeq()(b, c)
      ensures DestinationLeq()(a, c)
    {
      TextLeqTransitive(a.destination, b.destination, c.destination);
    }
  }

  /** The identity of a release: its header (paths, attestation id, promotion time) with the assets in
      the order of their destinations. Two files for one destination are refused. */
  function SourceInventory(h: Hashes, header: Identity, sources: seq<Source>): Result<Identity> {
    if DistinctDestinations(AssetsOf(h, sources))
    then
      DestinationOrder();
      Success(header.(assets := Sort(DestinationLeq(), AssetsOf(h, sources))))
    else Failure("duplicate destinations")
  }

  lemma {:induction false} AssetAt(h: Hashes, sources: seq<Source>)
    ensures |AssetsOf(h, sources)| == |sources|
    ensures forall i :: 0 <= i < |sources| ==>
      AssetsOf(h, sources)[i] == Asset(sources[i].kind, sources[i].destination, h.file(sources[i].bytes))
  {
    if sources != [] {
      AssetAt(h, sources[1..]);
    }
  }

  /** The asset is the source's: its kind, its place and the hash of its bytes. */
  ghost predicate Lists(h: Hashes, a: Asset, s: Source) {
    a.kind == s.kind && a.destination == s.destination && a.sha == h.file(s.bytes)
  }

  /** Every source is listed, and nothing else. */
  ghost predicate ListsAll(h: Hashes, assets: seq<Asset>, sources: seq<Source>) {
    && |assets| == |sources|
    && (forall s :: s in sources ==> exists i :: 0 <= i < |assets| && Lists(h, assets[i], s))
    && (forall i :: 0 <= i < |assets| ==> exists s :: s in sources && Lists(h, assets[i], s))
  }

  lemma AllListed(h: Hashes, sources: seq<Source>, assets: seq<Asset>)
    requires multiset(assets) == multiset(AssetsOf(h, sources))
    ensures ListsAll(h, assets, sources)
  {
    hide AssetsOf;
    AssetAt(h, sources);
    var all := AssetsOf(h, sources);
    assert |multiset(assets)| == |assets| && |multiset(all)| == |all|;
    forall s | s in sources ensures exists i :: 0 <= i < |assets| && Lists(h, assets[i], s) {
      var k :| 0 <= k < |sources| && sources[k] == s;
      assert all[k] in multiset(assets);
      var i :| 0 <= i < |assets| && assets[i] == all[k];
      assert Lists(h, assets[i], s);
    }
    forall i | 0 <= i < |assets| ensures exists s :: s in sources && Lists(h, assets[i], s) {
      assert assets[i] in multiset(all);
      var k :| 0 <= k < |all| && all[k] == assets[i];
      assert sources[k] in sources && Lists(h, assets[i], sources[k]);
    }
  }

  /** Exactly what an inventory holds: it is made if and only if no two sources go to one destination,
      keeps the header, and lists each source once, and nothing else, in the order of destinations. */
  lemma InventoryIs(h: Hashes, header: Identity, sources: seq<Source>)
    ensures SourceInventory(h, header, sources).Success? <==>
      forall i, j :: 0 <= i < j < |sources| ==> sources[i].destination != sources[j].destination
    ensures SourceInventory(h, header, sources).Success? ==>
      var v := SourceInventory(h, header, sources).value;
      && v.modelPath == header.modelPath && v.manifestPath == header.manifestPath
      && v.attestationPath == header.attestationPath && v.evidencePath == header.evidencePath
      && v.attestationId == header.attestationId && v.generatedAt == header.generatedAt
      && ListsAll(h, v.assets, sources)
      && (forall i, j :: 0 <= i < j < |v.assets| ==> TextLeq(v.assets[i].destination, v.assets[j].destination))
  {
    hide TextLeq, TotalPreorder, AssetsOf, ListsAll;
    AssetAt(h, sources);
    DestinationOrder();
    if SourceInventory(h, header, sources).Success? {
      var v := SourceInventory(h, header, sources).value;
      AllListed(h, sources, v.assets);
      forall i, j | 0 <= i < j < |v.assets| ensures TextLeq(v.assets[i].destination, v.assets[j].destination) {
        assert DestinationLeq()(v.assets[i], v.assets[j]);
      }
    }
  }

  function DestinationOf(): Asset -> seq<string> {
    (a: Asset) => [a.destination]
  }

  lemma {:induction false} DestinationsInOrder(s: seq<Asset>)
    ensures |FlatMap(DestinationOf(), s)| == |s|
    ensures forall i :: 0 <= i < |s| ==> FlatMap(DestinationOf(), s)[i] == s[i].destination
  {
    if s != [] {
      DestinationsInOrder(s[1..]);
    }
  }

  lemma DistinctPermutation(s: seq<Asset>, t: seq<Asset>)
    requires multiset(s) == multiset(t)
    ensures DistinctDestinations(s) <==> DistinctDestinations(t)
  {
    var (a, b) := (FlatMap(DestinationOf(), s), FlatMap(DestinationOf(), t));
    FlatMapPermutation(DestinationOf(), s, t);
    DestinationsInOrder(s);
    DestinationsInOrder(t);
    assert DistinctDestinations(s) <==> NoDuplicates(a);
    assert DistinctDestinations(t) <==> NoDuplicates(b);
    DuplicatesPermutation(a, b);
  }

  lemma DuplicatesPermutation(a: seq<string>, b: seq<string>)
    requires multiset(a) == multiset(b)
    ensures NoDuplicates(a) <==> NoDuplicates(b)
  {
    hide NoDuplicates;
    DistinctAtMost(a);
    DistinctAtMost(b);
    forall x ensures x in a <==> x in b {
      assert x in a <==> x in multiset(a);
      assert x in b <==> x in multiset(b);
    }
    assert (set x | x in a) == (set x | x in b);
    assert |a| == |multiset(a)| == |multiset(b)| == |b|;
  }

  /** Assets with distinct destinations have only one order. */
  lemma {:induction false} OneOrder(s: seq<Asset>, t: seq<Asset>)
    requires multiset(s) == multiset(t) && DistinctDestinations(s) && DistinctDestinations(t)
    requires SortedBy(DestinationLeq(), s) && SortedBy(DestinationLeq(), t)
    ensures s == t
    decreases |s|
  {
    hide TextLeq, DestinationLeq;
    if s == [] {
      assert |multiset(t)| == 0;
    } else {
      assert s[0] in multiset(t);
      SameHead(s, t);
      SameTail(s, t);
      OneOrder(s[1..], t[1..]);
      assert s == [s[0]] + s[1..] && t == [t[0]] + t[1..];
    }
  }

  lemma SameTail(s: seq<Asset>, t: seq<Asset>)
    requires s != [] && t != [] && s[0] == t[0] && multiset(s) == multiset(t)
    ensures multiset(s[1..]) == multiset(t[1..])
  {
    assert s == [s[0]] + s[1..] && t == [t[0]] + t[1..];
    assert multiset(s[1..]) == multiset(s) - multiset{s[0]};
    assert multiset(t[1..]) == multiset(t) - multiset{t[0]};
  }

  lemma HeadIsLeast(s: seq<Asset>, i: nat)
    requires SortedBy(DestinationLeq(), s) && i < |s|
    ensures TextLeq(s[0].destination, s[i].destination)
  {
    TextLeqTotal(s[0].destination, s[0].destination);
    assert i > 0 ==> DestinationLeq()(s[0], s[i]);
  }

  lemma SameHead(s: seq<Asset>, t: seq<Asset>)
    requires multiset(s) == multiset(t) && DistinctDestinations(s) && s != [] && t != []
    requires SortedBy(DestinationLeq(), s) && SortedBy(DestinationLeq(), t)
    ensures s[0] == t[0]
  {
    assert t[0] in multiset(t) && s[0] in multiset(s);
    assert t[0] in s && s[0] in t;
    var i :| 0 <= i < |s| && s[i] == t[0];
    var j :| 0 <= j < |t| && t[j] == s[0];
    HeadIsLeast(s, i);
    HeadIsLeast(t, j);
    TextLeqTotal(s[0].destination, t[0].destination);
  }

  lemma {:induction false} AssetCount(h: Hashes, sources: seq<Source>, s: Source)
    requires forall x, y :: h.file(x) == h.file(y) ==> x == y
    ensures multiset(AssetsOf(h, sources))[Asset(s.kind, s.destination, h.file(s.bytes))] == multiset(sources)[s]
    decreases |sources|
  {
    if sources != [] {
      var (first, rest) := (sources[0], sources[1..]);
      AssetCount(h, rest, s);
      assert sources == [first] + rest;
      assert multiset(sources) == multiset{first} + multiset(rest);
      assert AssetsOf(h, sources) == [Asset(first.kind, first.destination, h.file(first.bytes))] + AssetsOf(h, rest);
    }
  }

  /** The same files give the same identity, in whatever order they are listed. */
  lemma SameSourcesSameIdentity(h: Hashes, header: Identity, a: seq<Source>, b: seq<Source>)
    requires multiset(a) == multiset(b)
    ensures SourceInventory(h, header, a) == SourceInventory(h, header, b)
  {
    hide TextLeq, DistinctDestinations, DestinationLeq, TotalPreorder;
    FlatMapPermutation(AssetOf(h), a, b);
    DistinctPermutation(AssetsOf(h, a), AssetsOf(h, b));
    DestinationOrder();
    if DistinctDestinations(AssetsOf(h, a)) {
      var (s, t) := (Sort(DestinationLeq(), AssetsOf(h, a)), Sort(DestinationLeq(), AssetsOf(h, b)));
      DistinctPermutation(AssetsOf(h, a), s);
      DistinctPermutation(AssetsOf(h, b), t);
      OneOrder(s, t);
    }
  }

  /** With hashes that do not collide, two inventories get the same release id exactly when they list
      the same files, byte for byte and place for place, under the same header. */
  lemma SameIdExactlyWhenSameSources(h: Hashes, headerA: Identity, a: seq<Source>, headerB: Identity, b: seq<Source>)
    requires forall x, y :: h.identity(x) == h.identity(y) ==> x == y
    requires forall x, y :: h.file(x) == h.file(y) ==> x == y
    requires SourceInventory(h, headerA, a).Success? && SourceInventory(h, headerB, b).Success?
    ensures h.identity(SourceInventory(h, headerA, a).value) == h.identity(SourceInventory(h, headerB, b).value)
      <==> headerA.(assets := []) == headerB.(assets := []) && multiset(a) == multiset(b)
  {
    hide TextLeq, AssetOf, AssetsOf, DistinctDestinations, DestinationLeq, TotalPreorder;
    DestinationOrder();
    var (ia, ib) := (SourceInventory(h, headerA, a).value, SourceInventory(h, headerB, b).value);
    if headerA.(assets := []) == headerB.(assets := []) && multiset(a) == multiset(b) {
      SameSourcesSameIdentity(h, headerA, a, b);
      assert SourceInventory(h, headerA, b).value == ib;
    }
    if h.identity(ia) == h.identity(ib) {
      assert ia == ib;
      assert multiset(AssetsOf(h, a)) == multiset(AssetsOf(h, b));
      forall s ensures multiset(a)[s] == multiset(b)[s] {
        AssetCount(h, a, s);
        AssetCount(h, b, s);
      }
      assert multiset(a) == multiset(b);
    }
  }
}
