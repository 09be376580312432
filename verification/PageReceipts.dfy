/** Receipted collection of paged provider answers (collection/outcome_bars.py): the fetch loop
    writes every page body and one receipt; the loader verifies the receipt, anchors and links its
    page chain and decodes the stored pages again.

    A `Kind` is what the bar and the corporate-action collections differ in, and a `Feed` what one of
    their units asks for. Decoding is an uninterpreted deterministic function. For bars, a page is
    decoded before it is stored, `accepts` is the session check, `idOf` is always None and `keeps`
    drops bars retrieved before they were final; for actions, a page is stored first, `accepts` and
    `keeps` are always true and `idOf` is the provider's action id. */
module PageReceipts {
  import opened Prelude
  import opened HttpRecords

  type Token = t: string | t != "" witness "t"

  type Item = string

  datatype DecodedPage = DecodedPage(items: seq<Item>, next: Option<Token>)

  datatype Feed = Feed(decode: (Response, Option<Token>) -> Result<DecodedPage>, decodesFirst: bool, accepts: Item -> bool,
                       idOf: Item -> Option<string>, keeps: (Item, int) -> bool)

  /** One request as it is recorded in its receipt. */
  type Unit = string

  datatype Kind = Kind(schema: string, feedOf: Unit -> Result<Feed>, sessionOf: Unit -> int)

  datatype PageRecord = PageRecord(token: Option<Token>, response: Record)

  datatype Content = Content(schema: string, unit: Unit, complete: bool, failure: Option<string>, startedAt: int, finishedAt: int,
                             pages: seq<PageRecord>)

  datatype Receipt = Receipt(content: Content, id: string)

  datatype Hashes = Hashes(body: string -> string, receipt: Content -> string)

  const MAXIMUM_PAGES: nat := 20

  predicate IsDigest(s: string) {
    |s| == 64 && forall i :: 0 <= i < |s| ==> '0' <= s[i] <= '9' || 'a' <= s[i] <= 'f'
  }

  /** A digest is 64 lower-case hexadecimal digits. */
  lemma DigestIs(s: string)
    ensures IsDigest(s) <==> |s| == 64 && forall c :: c in s ==> c in "0123456789abcdef"
  {
    var digits := "0123456789abcdef";
    forall c: char ensures c in digits <==> '0' <= c <= '9' || 'a' <= c <= 'f' {
      if '0' <= c <= '9' {
        assert digits[(c - '0') as int] == c;
      } else if 'a' <= c <= 'f' {
        assert digits[(c - 'a') as int + 10] == c;
      }
    }
    if forall c :: c in s ==> c in digits {
      forall i | 0 <= i < |s| ensures '0' <= s[i] <= '9' || 'a' <= s[i] <= 'f' {
        assert s[i] in s && s[i] in digits;
      }
    }
  }

  ghost predicate DigestsWellFormed(h: Hashes) {
    forall b :: IsDigest(h.body(b))
  }

  // ----- decoding -----

  predicate AllAccepted(feed: Feed, items: seq<Item>) {
    forall i :: 0 <= i < |items| ==> feed.accepts(items[i])
  }

  /** Both decoders first check that the response describes its own body. */
  function Decode(h: Hashes, feed: Feed, r: Response, token: Option<Token>): Result<DecodedPage> {
    if !Consistent(h.body, r) then Failure("body metadata") else feed.decode(r, token)
  }

  function Rebuild(h: Hashes, bodies: map<string, string>, page: PageRecord): Result<Response> {
    var sha := page.response.bodySha;
    if !IsDigest(sha) then Failure("invalid page body")
    else if sha !in bodies then Failure("missing page body")
    else FromRecord(h.body, page.response, bodies[sha])
  }

  /** What a stored page decodes to. */
  function DecodeStored(h: Hashes, feed: Feed, bodies: map<string, string>, page: PageRecord): Result<DecodedPage> {
    match Rebuild(h, bodies, page)
    case Failure(e) => Failure(e)
    case Success(r) =>
      match Decode(h, feed, r, page.token)
      case Failure(e) => Failure(e)
      case Success(d) => if AllAccepted(feed, d.items) then Success(d) else Failure("item")
  }

  /** Page `i` decodes, and the token it returns is the one page `i + 1` was requested with; after
      the last page it is `next`. */
  predicate Links(h: Hashes, feed: Feed, bodies: map<string, string>, pages: seq<PageRecord>, next: Option<Token>, i: nat)
    requires i < |pages|
  {
    var d := DecodeStored(h, feed, bodies, pages[i]);
    d.Success? && d.value.next == (if i + 1 < |pages| then pages[i + 1].token else next)
  }

  ghost predicate Linked(h: Hashes, feed: Feed, bodies: map<string, string>, pages: seq<PageRecord>, next: Option<Token>) {
    && (pages != [] ==> pages[0].token == None)
    && forall i :: 0 <= i < |pages| ==> Links(h, feed, bodies, pages, next, i)
  }

  function ItemsOfPage(h: Hashes, feed: Feed, bodies: map<string, string>): PageRecord -> seq<Item> {
    (p: PageRecord) => var d := DecodeStored(h, feed, bodies, p); if d.Success? then d.value.items else []
  }

  function ItemsOf(h: Hashes, feed: Feed, bodies: map<string, string>, pages: seq<PageRecord>): seq<Item> {
    FlatMap(ItemsOfPage(h, feed, bodies), pages)
  }

  function Keeps(feed: Feed, retrievedAt: int): Item -> bool {
    (x: Item) => feed.keeps(x, retrievedAt)
  }

  function RowsOfPage(h: Hashes, feed: Feed, bodies: map<string, string>): PageRecord -> seq<Item> {
    (p: PageRecord) => Filter(Keeps(feed, p.response.retrievedAt), ItemsOfPage(h, feed, bodies)(p))
  }

  function IdOf(feed: Feed): Item -> seq<string> {
    (x: Item) => if feed.idOf(x).Some? then [feed.idOf(x).value] else []
  }

  function IdsOf(feed: Feed, items: seq<Item>): seq<string> {
    FlatMap(IdOf(feed), items)
  }

  ghost predicate InAttempt(content: Content) {
    forall i :: 0 <= i < |content.pages| ==>
      content.startedAt <= content.pages[i].response.retrievedAt <= content.finishedAt
  }

  /** When a stored page decodes, and to what: `r` is the answer with the page's record around the
      stored body, whose name, hash and length must be those of the record. */
  lemma StoredPageDecodesExactlyWhen(h: Hashes, feed: Feed, bodies: map<string, string>, page: PageRecord, r: Response)
    requires page.response == ToRecord(r) && (r.sha in bodies ==> r.body == bodies[r.sha])
    ensures
      var stored := DecodeStored(h, feed, bodies, page);
      var direct := feed.decode(r, page.token);
      && (stored.Success? <==>
            && r.sha in bodies && IsDigest(r.sha) && h.body(r.body) == r.sha && |r.body| == r.bodyLength
            && direct.Success? && forall i :: 0 <= i < |direct.value.items| ==> feed.accepts(direct.value.items[i]))
      && (stored.Success? ==> stored == direct)
  {
    hide IsDigest;
    if r.sha in bodies {
      RecordRoundTrip(h.body, r);
    }
  }

  // ----- loading -----

  /** Exactly the receipts that verify: their id is their hash, their status fits, their attempt is
      ordered, and a complete one is a chain that starts at no token, ends at no token, links page
      by page within the attempt and repeats no id. */
  ghost predicate Loads(h: Hashes, feed: Feed, bodies: map<string, string>, r: Receipt) {
    && r.id == h.receipt(r.content)
    && (r.content.complete <==> r.content.failure.None?)
    && r.content.startedAt <= r.content.finishedAt
    && (r.content.complete ==>
          && r.content.pages != []
          && Linked(h, feed, bodies, r.content.pages, None)
          && InAttempt(r.content)
          && NoDuplicates(IdsOf(feed, ItemsOf(h, feed, bodies, r.content.pages))))
  }

  /** The decoded rows of a complete receipt in page order; a failed one has none. */
  function RowsOf(h: Hashes, feed: Feed, bodies: map<string, string>, r: Receipt): seq<Item> {
    if r.content.complete then FlatMap(RowsOfPage(h, feed, bodies), r.content.pages) else []
  }

  /** What a complete receipt loads: an item is in its rows if and only if a page decodes to it and it
      is kept at that page's retrieval time. */
  lemma RowsAreTheKeptItems(h: Hashes, feed: Feed, bodies: map<string, string>, r: Receipt, x: Item)
    ensures x in RowsOf(h, feed, bodies, r) <==>
      && r.content.complete
      && exists p :: p in r.content.pages && DecodeStored(h, feed, bodies, p).Success?
           && x in DecodeStored(h, feed, bodies, p).value.items && feed.keeps(x, p.response.retrievedAt)
  {
    hide DecodeStored;
    FlatMapMember(RowsOfPage(h, feed, bodies), r.content.pages, x);
    forall p ensures x in RowsOfPage(h, feed, bodies)(p) <==>
      && DecodeStored(h, feed, bodies, p).Success?
      && x in DecodeStored(h, feed, bodies, p).value.items && feed.keeps(x, p.response.retrievedAt)
    {
      FilterMember(Keeps(feed, p.response.retrievedAt), ItemsOfPage(h, feed, bodies)(p), x);
    }
  }

  lemma {:induction false} FilterAll<T>(p: T -> bool, s: seq<T>)
    requires forall x :: x in s ==> p(x)
    ensures Filter(p, s) == s
  {
    if s != [] {
      assert s[0] in s;
      FilterAll(p, s[1..]);
    }
  }

  /** A feed that drops nothing (corporate actions) loads every decoded item. */
  lemma {:induction false} NothingIsDropped(h: Hashes, feed: Feed, bodies: map<string, string>, pages: seq<PageRecord>)
    requires forall x, at :: feed.keeps(x, at)
    ensures FlatMap(RowsOfPage(h, feed, bodies), pages) == ItemsOf(h, feed, bodies, pages)
  {
    if pages != [] {
      var items := ItemsOfPage(h, feed, bodies)(pages[0]);
      FilterAll(Keeps(feed, pages[0].response.retrievedAt), items);
      NothingIsDropped(h, feed, bodies, pages[1..]);
    }
  }

  /** No two items, on whatever pages, carry one id. */
  ghost predicate NoIdTwice(feed: Feed, items: seq<Item>) {
    forall i, j :: 0 <= i < j < |items| && feed.idOf(items[i]).Some? && feed.idOf(items[j]).Some? ==>
      feed.idOf(items[i]) != feed.idOf(items[j])
  }

  lemma {:induction false} NoIdTwiceIs(feed: Feed, items: seq<Item>)
    ensures NoDuplicates(IdsOf(feed, items)) <==> NoIdTwice(feed, items)
  {
    if items != [] {
      var (rest, ids) := (items[1..], IdsOf(feed, items[1..]));
      NoIdTwiceIs(feed, rest);
      assert forall i :: 1 <= i < |items| ==> items[i] == rest[i - 1];
      assert forall i :: 0 <= i < |rest| ==> rest[i] == items[i + 1];
      FirstIdTwice(feed, items);
    }
  }

  lemma FirstIdTwice(feed: Feed, items: seq<Item>)
    requires items != []
    ensures
      var (first, rest) := (feed.idOf(items[0]), items[1..]);
      && (NoDuplicates(IdsOf(feed, items)) <==>
            NoDuplicates(IdsOf(feed, rest)) && (first.Some? ==> first.value !in IdsOf(feed, rest)))
      && (first.Some? ==> (first.value in IdsOf(feed, rest) <==> exists i :: 0 <= i < |rest| && feed.idOf(rest[i]) == first))
  {
    var (first, rest) := (feed.idOf(items[0]), items[1..]);
    assert IdsOf(feed, items) == IdOf(feed)(items[0]) + IdsOf(feed, rest);
    if first.Some? {
      FlatMapMember(IdOf(feed), rest, first.value);
      if x :| x in rest && first.value in IdOf(feed)(x) {
        var i :| 0 <= i < |rest| && rest[i] == x;
        assert feed.idOf(rest[i]) == first;
      }
      if i :| 0 <= i < |rest| && feed.idOf(rest[i]) == first {
        assert rest[i] in rest && first.value in IdOf(feed)(rest[i]);
      }
      ConsDistinct(first.value, IdsOf(feed, rest));
    } else {
      assert IdsOf(feed, items) == IdsOf(feed, rest);
    }
  }

  lemma ConsDistinct(x: string, s: seq<string>)
    ensures NoDuplicates([x] + s) <==> NoDuplicates(s) && x !in s
  {
    var all := [x] + s;
    assert forall i :: 0 <= i < |s| ==> all[i + 1] == s[i];
    assert forall i :: 1 <= i < |all| ==> all[i] == s[i - 1];
    assert all[0] == x;
  }

  /** Page `i` was retrieved within the attempt, decodes, and returned the token that the next page was
      asked for with, the last one none. */
  ghost predicate PageFits(h: Hashes, feed: Feed, bodies: map<string, string>, content: Content, i: nat)
    requires i < |content.pages|
  {
    var page := content.pages[i];
    && content.startedAt <= page.response.retrievedAt <= content.finishedAt
    && DecodeStored(h, feed, bodies, page).Success?
    && (if i == |content.pages| - 1 then DecodeStored(h, feed, bodies, page).value.next == None
        else DecodeStored(h, feed, bodies, page).value.next == content.pages[i + 1].token)
  }

  /** Exactly the receipt contents that load, spelled out. */
  lemma LoadsExactlyWhen(h: Hashes, feed: Feed, bodies: map<string, string>, r: Receipt)
    ensures Loads(h, feed, bodies, r) <==>
      && r.id == h.receipt(r.content)
      && r.content.complete == (r.content.failure == None)
      && r.content.startedAt <= r.content.finishedAt
      && (r.content.complete ==>
            && |r.content.pages| > 0 && r.content.pages[0].token == None
            && (forall i :: 0 <= i < |r.content.pages| ==> PageFits(h, feed, bodies, r.content, i))
            && NoIdTwice(feed, ItemsOf(h, feed, bodies, r.content.pages)))
  {
    hide DecodeStored, NoDuplicates, ItemsOf, NoIdTwice, IdsOf, PageFits, Links;
    NoIdTwiceIs(feed, ItemsOf(h, feed, bodies, r.content.pages));
    PagesFit(h, feed, bodies, r.content);
  }

  lemma PagesFit(h: Hashes, feed: Feed, bodies: map<string, string>, content: Content)
    ensures (forall i :: 0 <= i < |content.pages| ==> PageFits(h, feed, bodies, content, i)) <==>
      InAttempt(content) && forall i :: 0 <= i < |content.pages| ==> Links(h, feed, bodies, content.pages, None, i)
  {
    hide DecodeStored;
    if forall i :: 0 <= i < |content.pages| ==> PageFits(h, feed, bodies, content, i) {
      forall i | 0 <= i < |content.pages|
        ensures Links(h, feed, bodies, content.pages, None, i)
        ensures content.startedAt <= content.pages[i].response.retrievedAt <= content.finishedAt
      {
        assert PageFits(h, feed, bodies, content, i);
      }
    }
    if InAttempt(content) && forall i :: 0 <= i < |content.pages| ==> Links(h, feed, bodies, content.pages, None, i) {
      forall i | 0 <= i < |content.pages| ensures PageFits(h, feed, bodies, content, i) {
        assert Links(h, feed, bodies, content.pages, None, i);
      }
    }
  }

  method LoadReceipt(h: Hashes, feed: Feed, bodies: map<string, string>, r: Receipt) returns (loaded: Result<seq<Item>>)
    ensures loaded.Success? <==> Loads(h, feed, bodies, r)
    ensures loaded.Success? ==> loaded.value == RowsOf(h, feed, bodies, r)
  {
    hide DecodeStored, NoDuplicates;
    var content := r.content;
    if r.id != h.receipt(content) || content.complete != content.failure.None? {
      return Failure("receipt does not verify");
    }
    if content.finishedAt < content.startedAt {
      return Failure("attempt ends before it starts");
    }
    if !content.complete {
      return Success([]);
    }
    var pages := content.pages;
    if pages == [] || pages[0].token.Some? {
      return Failure("not anchored");
    }
    hide Links, IdsOf, ItemsOfPage, RowsOfPage;
    var decoded := DecodePages(h, feed, bodies, content);
    if decoded.Failure? {
      return Failure(decoded.error);
    }
    var (items, rows) := decoded.value;
    var ids := IdsOf(feed, items);
    DistinctAtMost(ids);
    if |set x | x in ids| != |ids| {
      return Failure("repeated id");
    }
    return Success(rows);
  }

  /** A receipt file that verifies in its place: its name is its id, its schema is the collection's, and
      its unit reads back and belongs to the session it is filed under. */
  ghost predicate LoadsFrom(h: Hashes, kind: Kind, session: int, name: string, bodies: map<string, string>, r: Receipt) {
    && r.content.schema == kind.schema && r.id == name && kind.sessionOf(r.content.unit) == session
    && kind.feedOf(r.content.unit).Success?
    && Loads(h, kind.feedOf(r.content.unit).value, bodies, r)
  }

  method LoadReceiptFile(h: Hashes, kind: Kind, session: int, name: string, bodies: map<string, string>, r: Receipt)
    returns (loaded: Result<seq<Item>>)
    ensures loaded.Success? <==> LoadsFrom(h, kind, session, name, bodies, r)
    ensures loaded.Success? <==>
      && r.content.schema == kind.schema && r.id == name && kind.sessionOf(r.content.unit) == session
      && kind.feedOf(r.content.unit).Success? && Loads(h, kind.feedOf(r.content.unit).value, bodies, r)
    ensures loaded.Success? ==> loaded.value == RowsOf(h, kind.feedOf(r.content.unit).value, bodies, r)
  {
    hide Loads, RowsOf;
    if r.content.schema != kind.schema || r.id != name || kind.sessionOf(r.content.unit) != session {
      return Failure("receipt does not verify");
    }
    var feed := kind.feedOf(r.content.unit);
    if feed.Failure? {
      return Failure(feed.error);
    }
    loaded := LoadReceipt(h, feed.value, bodies, r);
  }

  /** Rebuilds and decodes the pages in order, checking each against the attempt and the next page. */
  method DecodePages(h: Hashes, feed: Feed, bodies: map<string, string>, content: Content)
    returns (r: Result<(seq<Item>, seq<Item>)>)
    ensures r.Success? <==>
      && (forall k :: 0 <= k < |content.pages| ==> Links(h, feed, bodies, content.pages, None, k))
      && InAttempt(content)
    ensures r.Success? ==>
      && r.value.0 == FlatMap(ItemsOfPage(h, feed, bodies), content.pages)
      && r.value.1 == FlatMap(RowsOfPage(h, feed, bodies), content.pages)
  {
    hide Rebuild, Decode, AllAccepted, Links, ItemsOfPage, RowsOfPage, Keeps;
    var pages := content.pages;
    var rows: seq<Item> := [];
    var items: seq<Item> := [];
    for i := 0 to |pages|
      invariant forall k :: 0 <= k < i ==> Links(h, feed, bodies, pages, None, k)
      invariant forall k :: 0 <= k < i ==> content.startedAt <= pages[k].response.retrievedAt <= content.finishedAt
      invariant rows == FlatMap(RowsOfPage(h, feed, bodies), pages[..i])
      invariant items == FlatMap(ItemsOfPage(h, feed, bodies), pages[..i])
    {
      var page := pages[i];
      StoredPage(h, feed, bodies, pages, i);
      var rebuilt := Rebuild(h, bodies, page);
      if rebuilt.Failure? {
        return Failure("page body");
      }
      var response := rebuilt.value;
      if !(content.startedAt <= response.retrievedAt <= content.finishedAt) {
        return Failure("outside the attempt");
      }
      var expected := if i + 1 < |pages| then pages[i + 1].token else None;
      var decoded := Decode(h, feed, response, page.token);
      if decoded.Failure? || decoded.value.next != expected || !AllAccepted(feed, decoded.value.items) {
        return Failure("page chain");
      }
      FlatMapNext(RowsOfPage(h, feed, bodies), pages, i);
      FlatMapNext(ItemsOfPage(h, feed, bodies), pages, i);
      rows := rows + Filter(Keeps(feed, response.retrievedAt), decoded.value.items);
      items := items + decoded.value.items;
    }
    assert pages[..|pages|] == pages;
    return Success((items, rows));
  }

  lemma StoredPage(h: Hashes, feed: Feed, bodies: map<string, string>, pages: seq<PageRecord>, i: nat)
    requires i < |pages|
    ensures Links(h, feed, bodies, pages, None, i) ==> Rebuild(h, bodies, pages[i]).Success?
    ensures Rebuild(h, bodies, pages[i]).Success? ==>
      var r := Rebuild(h, bodies, pages[i]).value;
      var d := Decode(h, feed, r, pages[i].token);
      && r.retrievedAt == pages[i].response.retrievedAt
      && (Links(h, feed, bodies, pages, None, i)
          <==> d.Success? && AllAccepted(feed, d.value.items)
               && d.value.next == (if i + 1 < |pages| then pages[i + 1].token else None))
      && (d.Success? && AllAccepted(feed, d.value.items) ==>
            && ItemsOfPage(h, feed, bodies)(pages[i]) == d.value.items
            && RowsOfPage(h, feed, bodies)(pages[i]) == Filter(Keeps(feed, r.retrievedAt), d.value.items))
  {
    hide Decode, AllAccepted, Keeps;
  }

  // ----- collecting -----

  function MinOf(x: int, pages: seq<PageRecord>): int {
    if pages == [] then x
    else
      var m := MinOf(x, pages[1..]);
      if pages[0].response.retrievedAt < m then pages[0].response.retrievedAt else m
  }

  function MaxOf(x: int, pages: seq<PageRecord>): int {
    if pages == [] then x
    else
      var m := MaxOf(x, pages[1..]);
      if pages[0].response.retrievedAt > m then pages[0].response.retrievedAt else m
  }

  /** The receipt of one attempt; its window spans the process clock and every page's clock. */
  function ReceiptOf(h: Hashes, schema: string, unit: Unit, pages: seq<PageRecord>, failure: Option<string>, started: int, finished: int): Receipt {
    var content := Content(schema, unit, failure.None?, failure, MinOf(started, pages), MaxOf(finished, pages), pages);
    Receipt(content, h.receipt(content))
  }

  lemma {:induction false} WindowSpans(pages: seq<PageRecord>, started: int, finished: int)
    ensures MinOf(started, pages) <= started && finished <= MaxOf(finished, pages)
    ensures forall i :: 0 <= i < |pages| ==>
      MinOf(started, pages) <= pages[i].response.retrievedAt <= MaxOf(finished, pages)
    ensures MinOf(started, pages) <= MaxOf(finished, pages) <==> pages != [] || started <= finished
    ensures MinOf(started, pages) == started || exists i :: 0 <= i < |pages| && MinOf(started, pages) == pages[i].response.retrievedAt
    ensures MaxOf(finished, pages) == finished || exists i :: 0 <= i < |pages| && MaxOf(finished, pages) == pages[i].response.retrievedAt
  {
    if pages != [] {
      WindowSpans(pages[1..], started, finished);
      assert forall i :: 1 <= i < |pages| ==> pages[i] == pages[1..][i - 1];
      assert forall i :: 0 <= i < |pages[1..]| ==> pages[1..][i] == pages[i + 1];
    }
  }

  /** A file is written at most once; writing it again succeeds only with its own content. */
  function WriteOnce<K, V(==)>(files: map<K, V>, name: K, value: V): Result<map<K, V>> {
    if name in files then (if files[name] == value then Success(files) else Failure("different bytes"))
    else Success(files[name := value])
  }

  ghost predicate Extends<K, V>(a: map<K, V>, b: map<K, V>) {
    forall k :: k in a ==> k in b && b[k] == a[k]
  }

  lemma MoreBodiesDecodeTheSame(h: Hashes, feed: Feed, a: map<string, string>, b: map<string, string>, page: PageRecord)
    requires Extends(a, b) && DecodeStored(h, feed, a, page).Success?
    ensures DecodeStored(h, feed, b, page) == DecodeStored(h, feed, a, page)
  {
    hide Decode, FromRecord;
  }

  /** A page that was just fetched, stored and decoded reads back as itself. */
  lemma StoredReadsBack(h: Hashes, feed: Feed, bodies: map<string, string>, r: Response, token: Option<Token>)
    requires DigestsWellFormed(h)
    requires r.sha in bodies && bodies[r.sha] == r.body
    requires Decode(h, feed, r, token).Success? && AllAccepted(feed, Decode(h, feed, r, token).value.items)
    ensures DecodeStored(h, feed, bodies, PageRecord(token, ToRecord(r))) == Decode(h, feed, r, token)
  {
    RecordRoundTrip(h.body, r);
    assert IsDigest(h.body(r.body));
  }

  /** One more page on a linked chain. */
  lemma ChainGrows(h: Hashes, feed: Feed, a: map<string, string>, b: map<string, string>, pages: seq<PageRecord>,
                   page: PageRecord, next: Option<Token>)
    requires Extends(a, b) && Linked(h, feed, a, pages, page.token)
    requires pages == [] ==> page.token == None
    requires DecodeStored(h, feed, b, page).Success? && DecodeStored(h, feed, b, page).value.next == next
    ensures Linked(h, feed, b, pages + [page], next)
    ensures ItemsOf(h, feed, b, pages + [page]) == ItemsOf(h, feed, a, pages) + DecodeStored(h, feed, b, page).value.items
  {
    hide DecodeStored;
    var all := pages + [page];
    forall i | 0 <= i < |all| ensures Links(h, feed, b, all, next, i) {
      if i < |pages| {
        assert Links(h, feed, a, pages, page.token, i);
        MoreBodiesDecodeTheSame(h, feed, a, b, pages[i]);
      }
    }
    ItemsStay(h, feed, a, b, pages, page.token);
    FlatMapNext(ItemsOfPage(h, feed, b), all, |pages|);
    assert all[..|pages|] == pages && all[..|pages| + 1] == all;
  }

  lemma {:induction false} FlatMapSame<A, B>(f: A -> seq<B>, g: A -> seq<B>, s: seq<A>)
    requires forall x :: x in s ==> f(x) == g(x)
    ensures FlatMap(f, s) == FlatMap(g, s)
  {
    if s != [] {
      assert s[0] in s;
      FlatMapSame(f, g, s[1..]);
    }
  }

  lemma ItemsStay(h: Hashes, feed: Feed, a: map<string, string>, b: map<string, string>, pages: seq<PageRecord>, next: Option<Token>)
    requires Extends(a, b) && Linked(h, feed, a, pages, next)
    ensures ItemsOf(h, feed, b, pages) == ItemsOf(h, feed, a, pages)
    ensures FlatMap(RowsOfPage(h, feed, b), pages) == FlatMap(RowsOfPage(h, feed, a), pages)
    ensures Linked(h, feed, b, pages, next)
  {
    hide DecodeStored;
    forall p | p in pages ensures DecodeStored(h, feed, b, p) == DecodeStored(h, feed, a, p) {
      var i :| 0 <= i < |pages| && pages[i] == p;
      assert Links(h, feed, a, pages, next, i);
      MoreBodiesDecodeTheSame(h, feed, a, b, p);
    }
    FlatMapSame(ItemsOfPage(h, feed, b), ItemsOfPage(h, feed, a), pages);
    FlatMapSame(RowsOfPage(h, feed, b), RowsOfPage(h, feed, a), pages);
    forall i | 0 <= i < |pages| ensures Links(h, feed, b, pages, next, i) {
      assert pages[i] in pages;
      assert Links(h, feed, a, pages, next, i);
    }
  }

  /** What loads stays loadable, with the same rows, whatever else is written later. */
  lemma LoadsForever(h: Hashes, feed: Feed, a: map<string, string>, b: map<string, string>, r: Receipt)
    requires Extends(a, b) && Loads(h, feed, a, r)
    ensures Loads(h, feed, b, r) && RowsOf(h, feed, b, r) == RowsOf(h, feed, a, r)
  {
    hide Linked, ItemsOf, RowsOfPage, DecodeStored;
    if r.content.complete {
      ItemsStay(h, feed, a, b, r.content.pages, None);
    }
  }

  // ----- what a complete receipt is -----

  /** Following the tokens: each page was requested with the token the page before returned, and the
      walk ends exactly at the last page. */
  ghost predicate WalksTo(h: Hashes, feed: Feed, bodies: map<string, string>, pages: seq<PageRecord>, token: Option<Token>) {
    pages != [] && pages[0].token == token &&
    var d := DecodeStored(h, feed, bodies, pages[0]);
    d.Success? && (if d.value.next.None? then |pages| == 1 else WalksTo(h, feed, bodies, pages[1..], d.value.next))
  }

  lemma {:induction false} LinksWalk(h: Hashes, feed: Feed, bodies: map<string, string>, pages: seq<PageRecord>)
    requires pages != [] && forall i :: 0 <= i < |pages| ==> Links(h, feed, bodies, pages, None, i)
    requires TokensPresent(pages)
    ensures WalksTo(h, feed, bodies, pages, pages[0].token)
    decreases |pages|
  {
    hide DecodeStored;
    assert Links(h, feed, bodies, pages, None, 0);
    if |pages| > 1 {
      var rest := pages[1..];
      forall i | 0 <= i < |rest| ensures Links(h, feed, bodies, rest, None, i) {
        assert Links(h, feed, bodies, pages, None, i + 1);
      }
      assert forall i :: 1 <= i < |rest| ==> rest[i] == pages[i + 1];
      assert pages[1].token.Some?;
      LinksWalk(h, feed, bodies, rest);
    }
  }

  ghost predicate TokensPresent(pages: seq<PageRecord>) {
    forall i :: 1 <= i < |pages| ==> pages[i].token.Some?
  }

  lemma {:induction false} WalkHasTokens(h: Hashes, feed: Feed, bodies: map<string, string>, pages: seq<PageRecord>, token: Option<Token>)
    requires WalksTo(h, feed, bodies, pages, token)
    ensures TokensPresent(pages)
    decreases |pages|
  {
    hide DecodeStored;
    if |pages| > 1 {
      var next := DecodeStored(h, feed, bodies, pages[0]).value.next;
      WalkHasTokens(h, feed, bodies, pages[1..], next);
      assert pages[1..][0] == pages[1];
      assert forall i :: 2 <= i < |pages| ==> pages[i] == pages[1..][i - 1];
    }
  }

  /** A complete receipt that loads is one walk from no token to no token exactly when every page
      after the first records the token it was requested with. (Collected receipts always do.) */
  lemma CompleteReceiptWalksExactlyWhen(h: Hashes, feed: Feed, bodies: map<string, string>, r: Receipt)
    requires Loads(h, feed, bodies, r) && r.content.complete
    ensures WalksTo(h, feed, bodies, r.content.pages, None) <==> TokensPresent(r.content.pages)
  {
    hide DecodeStored, NoDuplicates, IdsOf, ItemsOf;
    if TokensPresent(r.content.pages) {
      LinksWalk(h, feed, bodies, r.content.pages);
    }
    if WalksTo(h, feed, bodies, r.content.pages, None) {
      WalkHasTokens(h, feed, bodies, r.content.pages, None);
    }
  }

  /** The loader itself does not ask for it: two first pages in a row, each the end of its own
      chain, link to each other and load. */
  lemma RestartedChainLoads(h: Hashes, feed: Feed, bodies: map<string, string>, schema: string, unit: Unit, page: PageRecord)
    requires page.token == None
    requires
      var d := DecodeStored(h, feed, bodies, page);
      d.Success? && d.value.next == None && forall x :: feed.idOf(x) == None
    ensures
      var at := page.response.retrievedAt;
      var content := Content(schema, unit, true, None, at, at, [page, page]);
      && Loads(h, feed, bodies, Receipt(content, h.receipt(content)))
      && !WalksTo(h, feed, bodies, [page, page], None)
  {
    hide DecodeStored;
    FlatMapEmpty(IdOf(feed), ItemsOf(h, feed, bodies, [page, page]));
  }

  /** A page that decodes from two stores decodes to the same in both: its record holds the hash of
      its body. */
  lemma PageFixesItsContent(h: Hashes, feed: Feed, a: map<string, string>, b: map<string, string>, page: PageRecord)
    requires forall x, y :: h.body(x) == h.body(y) ==> x == y
    requires DecodeStored(h, feed, a, page).Success? && DecodeStored(h, feed, b, page).Success?
    ensures DecodeStored(h, feed, a, page) == DecodeStored(h, feed, b, page)
  {
    hide Decode, AllAccepted;
    var sha := page.response.bodySha;
    assert h.body(a[sha]) == sha == h.body(b[sha]);
  }

  /** One receipt id means one page chain and one table of rows: whatever two stores load under the
      same id is the same receipt with the same rows. */
  lemma ReceiptIdFixesTheRows(h: Hashes, feed: Feed, a: map<string, string>, r: Receipt, b: map<string, string>, other: Receipt)
    requires forall x, y :: h.receipt(x) == h.receipt(y) ==> x == y
    requires forall x, y :: h.body(x) == h.body(y) ==> x == y
    requires Loads(h, feed, a, r) && Loads(h, feed, b, other) && r.id == other.id
    ensures r == other && RowsOf(h, feed, a, r) == RowsOf(h, feed, b, other)
  {
    hide DecodeStored, NoDuplicates, ItemsOf;
    assert r == other;
    if r.content.complete {
      var pages := r.content.pages;
      forall p | p in pages ensures RowsOfPage(h, feed, a)(p) == RowsOfPage(h, feed, b)(p) {
        var i :| 0 <= i < |pages| && pages[i] == p;
        assert Links(h, feed, a, pages, None, i) && Links(h, feed, b, pages, None, i);
        PageFixesItsContent(h, feed, a, b, p);
        assert ItemsOfPage(h, feed, a)(p) == ItemsOfPage(h, feed, b)(p);
      }
      FlatMapSame(RowsOfPage(h, feed, a), RowsOfPage(h, feed, b), pages);
    }
  }

  /** A failed attempt without a page whose process clock steps back publishes a receipt that does
      not load: the window of its attempt ends before it starts. */
  lemma ClockStepBackBreaksAPagelessReceipt(h: Hashes, feed: Feed, bodies: map<string, string>, schema: string, unit: Unit)
    ensures !Loads(h, feed, bodies, ReceiptOf(h, schema, unit, [], Some("fetch failed"), 10, 5))
    ensures Loads(h, feed, bodies, ReceiptOf(h, schema, unit, [], Some("fetch failed"), 5, 10))
  {}

  // ----- when a fetch loop finishes -----

  /** One request of a walk, its answer and what the answer decodes to. */
  datatype Visit = Visit(token: Option<Token>, response: Response, page: DecodedPage)

  /** Request `i` carries the token the answer before it returned (the first one none), and its answer
      describes its own body, decodes, and holds accepted items only. */
  ghost predicate Visited(h: Hashes, feed: Feed, fetch: (nat, Option<Token>) -> Result<Response>, ws: seq<Visit>, i: nat)
    requires i < |ws|
  {
    var w := ws[i];
    && (if i == 0 then w.token.None? else w.token.Some? && w.token == ws[i - 1].page.next)
    && fetch(i, w.token) == Success(w.response)
    && w.response.sha == h.body(w.response.body) && w.response.bodyLength == |w.response.body|
    && feed.decode(w.response, w.token) == Success(w.page)
    && forall k :: 0 <= k < |w.page.items| ==> feed.accepts(w.page.items[k])
  }

  ghost predicate Visits(h: Hashes, feed: Feed, fetch: (nat, Option<Token>) -> Result<Response>, ws: seq<Visit>) {
    forall i :: 0 <= i < |ws| ==> Visited(h, feed, fetch, ws, i)
  }

  /** No two bodies, stored before or fetched, claim one name. */
  ghost predicate Fit(bodies: map<string, string>, ws: seq<Visit>) {
    && (forall i :: 0 <= i < |ws| && ws[i].response.sha in bodies ==> bodies[ws[i].response.sha] == ws[i].response.body)
    && forall i, j :: 0 <= i < j < |ws| && ws[i].response.sha == ws[j].response.sha ==> ws[i].response.body == ws[j].response.body
  }

  ghost function AllItems(ws: seq<Visit>): seq<Item> {
    if ws == [] then [] else AllItems(ws[..|ws| - 1]) + ws[|ws| - 1].page.items
  }

  /** A walk that the loop can finish: at most twenty answers up to the first without a next token,
      whose bodies fit and whose items repeat no id. */
  ghost predicate Finishes(h: Hashes, feed: Feed, fetch: (nat, Option<Token>) -> Result<Response>,
                           bodies: map<string, string>, ws: seq<Visit>)
  {
    && 1 <= |ws| <= 20 && Visits(h, feed, fetch, ws) && ws[|ws| - 1].page.next.None?
    && Fit(bodies, ws) && NoDuplicates(IdsOf(feed, AllItems(ws)))
  }

  ghost predicate Open(ws: seq<Visit>) {
    forall i :: 0 <= i < |ws| ==> ws[i].page.next.Some?
  }

  ghost function TokenAfter(ws: seq<Visit>): Option<Token> {
    if ws == [] then None else ws[|ws| - 1].page.next
  }

  /** The store holds what it held, every fetched body under its name, and nothing else. */
  ghost predicate Stored(before: map<string, string>, ws: seq<Visit>, bodies: map<string, string>) {
    && Extends(before, bodies)
    && (forall i :: 0 <= i < |ws| ==> ws[i].response.sha in bodies && bodies[ws[i].response.sha] == ws[i].response.body)
    && forall name :: name in bodies ==> name in before || exists i :: 0 <= i < |ws| && ws[i].response.sha == name
  }

  ghost predicate Recorded(ws: seq<Visit>, pages: seq<PageRecord>) {
    |pages| == |ws| && forall i :: 0 <= i < |ws| ==> pages[i] == PageRecord(ws[i].token, ToRecord(ws[i].response))
  }

  /** The next request succeeds as well. */
  ghost predicate GoesOn(h: Hashes, feed: Feed, fetch: (nat, Option<Token>) -> Result<Response>,
                         bodies: map<string, string>, ws: seq<Visit>)
  {
    var answer := fetch(|ws|, TokenAfter(ws));
    && |ws| < MAXIMUM_PAGES && answer.Success?
    && var decoded := Decode(h, feed, answer.value, TokenAfter(ws));
    && decoded.Success? && AllAccepted(feed, decoded.value.items)
    && WriteOnce(bodies, answer.value.sha, answer.value.body).Success?
    && NoDuplicates(IdsOf(feed, AllItems(ws) + decoded.value.items))
  }

  /** Two walks make the same requests and get the same answers, as far as the open one goes. */
  lemma {:induction false} SameWalk(h: Hashes, feed: Feed, fetch: (nat, Option<Token>) -> Result<Response>,
                                    bodies: map<string, string>, ws: seq<Visit>, b: seq<Visit>, n: nat)
    requires Visits(h, feed, fetch, ws) && Open(ws) && n <= |ws| && Finishes(h, feed, fetch, bodies, b)
    ensures n < |b| && b[..n] == ws[..n]
  {
    hide Fit, IdsOf, NoDuplicates, AllItems;
    if n > 0 {
      SameWalk(h, feed, fetch, bodies, ws, b, n - 1);
      assert Visited(h, feed, fetch, ws, n - 1) && Visited(h, feed, fetch, b, n - 1);
      assert n > 1 ==> b[..n - 1][n - 2] == ws[..n - 1][n - 2];
      assert b[n - 1] == ws[n - 1];
      assert b[..n] == b[..n - 1] + [b[n - 1]] && ws[..n] == ws[..n - 1] + [ws[n - 1]];
    }
  }

  lemma {:induction false} ItemsPrefix(ws: seq<Visit>, n: nat) returns (rest: seq<Item>)
    requires n <= |ws|
    ensures AllItems(ws) == AllItems(ws[..n]) + rest
    decreases |ws|
  {
    if n == |ws| {
      assert ws[..n] == ws;
      rest := [];
    } else {
      var most := ws[..|ws| - 1];
      rest := ItemsPrefix(most, n);
      assert most[..n] == ws[..n];
      rest := rest + ws[|ws| - 1].page.items;
    }
  }

  lemma ItemsNext(ws: seq<Visit>, w: Visit)
    ensures AllItems(ws + [w]) == AllItems(ws) + w.page.items
  {
    assert (ws + [w])[..|ws|] == ws;
  }

  lemma PrefixIdsDistinct(feed: Feed, a: seq<Item>, b: seq<Item>)
    requires NoDuplicates(IdsOf(feed, a + b))
    ensures NoDuplicates(IdsOf(feed, a))
  {
    IdsConcat(feed, a, b);
    var (x, y) := (IdsOf(feed, a), IdsOf(feed, a + b));
    assert forall i :: 0 <= i < |x| ==> x[i] == y[i];
  }

  /** Any walk that finishes makes the next request too, and it succeeds there. */
  lemma FinishingGoesOn(h: Hashes, feed: Feed, fetch: (nat, Option<Token>) -> Result<Response>,
                        before: map<string, string>, bodies: map<string, string>, ws: seq<Visit>, b: seq<Visit>)
    requires Visits(h, feed, fetch, ws) && Open(ws) && Stored(before, ws, bodies) && Finishes(h, feed, fetch, before, b)
    ensures GoesOn(h, feed, fetch, bodies, ws)
  {
    var n := |ws|;
    SameWalk(h, feed, fetch, before, ws, b, n);
    assert ws[..n] == ws;
    assert Visited(h, feed, fetch, b, n);
    NextIds(feed, ws, b);
    NextFits(before, bodies, ws, b);
    hide NoDuplicates, IdsOf, AllItems, Stored, Fit;
    assert n > 0 ==> b[n - 1] == b[..n][n - 1];
    assert b[n].token == TokenAfter(ws);
  }

  lemma NextIds(feed: Feed, ws: seq<Visit>, b: seq<Visit>)
    requires |ws| < |b| && b[..|ws|] == ws && NoDuplicates(IdsOf(feed, AllItems(b)))
    ensures NoDuplicates(IdsOf(feed, AllItems(ws) + b[|ws|].page.items))
  {
    hide NoDuplicates, IdsOf, AllItems;
    var n := |ws|;
    var rest := ItemsPrefix(b, n + 1);
    assert b[..n + 1] == ws + [b[n]];
    ItemsNext(ws, b[n]);
    PrefixIdsDistinct(feed, AllItems(ws) + b[n].page.items, rest);
  }

  lemma NextFits(before: map<string, string>, bodies: map<string, string>, ws: seq<Visit>, b: seq<Visit>)
    requires |ws| < |b| && b[..|ws|] == ws && Stored(before, ws, bodies) && Fit(before, b)
    ensures WriteOnce(bodies, b[|ws|].response.sha, b[|ws|].response.body).Success?
  {
    var r := b[|ws|].response;
    if r.sha in bodies && r.sha !in before {
      var i :| 0 <= i < |ws| && ws[i].response.sha == r.sha;
      assert b[i] == b[..|ws|][i];
    }
  }

  /** When the next request fails, no walk finishes. */
  lemma Stuck(h: Hashes, feed: Feed, fetch: (nat, Option<Token>) -> Result<Response>,
              before: map<string, string>, bodies: map<string, string>, ws: seq<Visit>)
    requires Visits(h, feed, fetch, ws) && Open(ws) && Stored(before, ws, bodies) && !GoesOn(h, feed, fetch, bodies, ws)
    ensures forall b :: !Finishes(h, feed, fetch, before, b)
  {
    hide Visits, Open, Stored, GoesOn, Finishes;
    if b :| Finishes(h, feed, fetch, before, b) {
      FinishingGoesOn(h, feed, fetch, before, bodies, ws, b);
      assert false;
    }
  }

  /** One more successful request. */
  lemma WalkGrows(h: Hashes, feed: Feed, fetch: (nat, Option<Token>) -> Result<Response>,
                  before: map<string, string>, bodies: map<string, string>, ws: seq<Visit>, pages: seq<PageRecord>)
    returns (w: Visit)
    requires Visits(h, feed, fetch, ws) && Open(ws) && Stored(before, ws, bodies) && Recorded(ws, pages)
    requires GoesOn(h, feed, fetch, bodies, ws)
    ensures
      var r := fetch(|ws|, TokenAfter(ws)).value;
      && w == Visit(TokenAfter(ws), r, Decode(h, feed, r, TokenAfter(ws)).value)
      && Visits(h, feed, fetch, ws + [w])
      && Stored(before, ws + [w], WriteOnce(bodies, r.sha, r.body).value)
      && Recorded(ws + [w], pages + [PageRecord(w.token, ToRecord(r))])
      && AllItems(ws + [w]) == AllItems(ws) + w.page.items
  {
    hide NoDuplicates, IdsOf, AllItems, Stored, Visits, Open, Decode, AllAccepted;
    var r := fetch(|ws|, TokenAfter(ws)).value;
    w := Visit(TokenAfter(ws), r, Decode(h, feed, r, TokenAfter(ws)).value);
    ItemsNext(ws, w);
    VisitsGrow(h, feed, fetch, ws, w);
    StoredGrows(before, bodies, ws, w);
  }

  lemma VisitsGrow(h: Hashes, feed: Feed, fetch: (nat, Option<Token>) -> Result<Response>, ws: seq<Visit>, w: Visit)
    requires Visits(h, feed, fetch, ws) && Open(ws) && w.token == TokenAfter(ws)
    requires fetch(|ws|, w.token) == Success(w.response)
    requires Decode(h, feed, w.response, w.token) == Success(w.page) && AllAccepted(feed, w.page.items)
    ensures Visits(h, feed, fetch, ws + [w])
  {
    forall i | 0 <= i < |ws| + 1 ensures Visited(h, feed, fetch, ws + [w], i) {
      if i < |ws| {
        assert Visited(h, feed, fetch, ws, i);
      }
    }
  }

  lemma StoredGrows(before: map<string, string>, bodies: map<string, string>, ws: seq<Visit>, w: Visit)
    requires Stored(before, ws, bodies) && WriteOnce(bodies, w.response.sha, w.response.body).Success?
    ensures Stored(before, ws + [w], WriteOnce(bodies, w.response.sha, w.response.body).value)
  {
    var (more, after) := (ws + [w], WriteOnce(bodies, w.response.sha, w.response.body).value);
    assert more[|ws|] == w;
    forall name | name in after && name !in before ensures exists i :: 0 <= i < |more| && more[i].response.sha == name {
      if name in bodies {
        var i :| 0 <= i < |ws| && ws[i].response.sha == name;
        assert more[i] == ws[i];
      }
    }
  }

  lemma WalkEnds(h: Hashes, feed: Feed, fetch: (nat, Option<Token>) -> Result<Response>,
                 before: map<string, string>, bodies: map<string, string>, ws: seq<Visit>)
    requires Visits(h, feed, fetch, ws) && Stored(before, ws, bodies)
    requires 1 <= |ws| <= MAXIMUM_PAGES && TokenAfter(ws).None? && NoDuplicates(IdsOf(feed, AllItems(ws)))
    ensures Finishes(h, feed, fetch, before, ws)
  {
    hide Visits, NoDuplicates, IdsOf, AllItems;
  }

  /** The provider's answers are one walk: no two finish. */
  lemma FinishIsUnique(h: Hashes, feed: Feed, fetch: (nat, Option<Token>) -> Result<Response>,
                       bodies: map<string, string>, a: seq<Visit>, b: seq<Visit>)
    requires Finishes(h, feed, fetch, bodies, a) && Finishes(h, feed, fetch, bodies, b)
    ensures a == b
  {
    hide Fit, NoDuplicates, IdsOf, AllItems, Visited, Open;
    var n := |a| - 1;
    FinishOpens(h, feed, fetch, bodies, a);
    SameWalk(h, feed, fetch, bodies, a[..n], b, n);
    SameLast(h, feed, fetch, a, b, n);
    assert b == b[..n] + [b[n]] && a == a[..n] + [a[n]];
  }

  lemma FinishOpens(h: Hashes, feed: Feed, fetch: (nat, Option<Token>) -> Result<Response>,
                    bodies: map<string, string>, a: seq<Visit>)
    requires Finishes(h, feed, fetch, bodies, a)
    ensures Visits(h, feed, fetch, a[..|a| - 1]) && Open(a[..|a| - 1])
  {
    hide Fit, NoDuplicates, IdsOf, AllItems;
    var most := a[..|a| - 1];
    forall i | 0 <= i < |most| ensures Visited(h, feed, fetch, most, i) && most[i].page.next.Some? {
      assert Visited(h, feed, fetch, a, i) && Visited(h, feed, fetch, a, i + 1);
    }
  }

  lemma SameLast(h: Hashes, feed: Feed, fetch: (nat, Option<Token>) -> Result<Response>, a: seq<Visit>, b: seq<Visit>, n: nat)
    requires Visits(h, feed, fetch, a) && Visits(h, feed, fetch, b) && |a| == n + 1 <= |b| && b[..n] == a[..n]
    requires a[n].page.next.None?
    ensures a[n] == b[n] && |b| == n + 1
  {
    assert Visited(h, feed, fetch, a, n) && Visited(h, feed, fetch, b, n);
    assert n > 0 ==> b[n - 1] == b[..n][n - 1] == a[..n][n - 1] == a[n - 1];
    if |b| > n + 1 {
      NextHasToken(h, feed, fetch, b, n);
      assert false;
    }
  }

  lemma NextHasToken(h: Hashes, feed: Feed, fetch: (nat, Option<Token>) -> Result<Response>, ws: seq<Visit>, i: nat)
    requires Visits(h, feed, fetch, ws) && i + 1 < |ws|
    ensures ws[i].page.next.Some?
  {
    assert Visited(h, feed, fetch, ws, i + 1);
  }

  /** The recorded pages of a walk, read back from the store, are linked and decode to its items. */
  lemma {:induction false} WalkReadsBack(h: Hashes, feed: Feed, fetch: (nat, Option<Token>) -> Result<Response>,
                                         before: map<string, string>, bodies: map<string, string>,
                                         ws: seq<Visit>, pages: seq<PageRecord>)
    requires DigestsWellFormed(h)
    requires Visits(h, feed, fetch, ws) && Stored(before, ws, bodies) && Recorded(ws, pages)
    ensures Linked(h, feed, bodies, pages, TokenAfter(ws)) && ItemsOf(h, feed, bodies, pages) == AllItems(ws)
    ensures TokensPresent(pages)
    decreases |ws|
  {
    hide DecodeStored, Linked, ItemsOf, DigestsWellFormed, Visits, Stored, TokensPresent, Recorded, Extends;
    NoPages(h, feed, bodies);
    if ws == [] {
      NoneRecorded(pages);
    } else {
      var n := |ws| - 1;
      WalkReadsShorter(h, feed, fetch, before, bodies, ws, pages);
      WalkReadsBack(h, feed, fetch, bodies, bodies, ws[..n], pages[..n]);
      LastReadsBack(h, feed, fetch, before, bodies, ws, pages);
      ChainGrows(h, feed, bodies, bodies, pages[..n], pages[n], ws[n].page.next);
    }
  }

  lemma NoneRecorded(pages: seq<PageRecord>)
    requires Recorded([], pages)
    ensures pages == [] && TokensPresent(pages)
  {}

  lemma LastReadsBack(h: Hashes, feed: Feed, fetch: (nat, Option<Token>) -> Result<Response>,
                      before: map<string, string>, bodies: map<string, string>, ws: seq<Visit>, pages: seq<PageRecord>)
    requires DigestsWellFormed(h) && ws != []
    requires Visits(h, feed, fetch, ws) && Stored(before, ws, bodies) && Recorded(ws, pages)
    ensures |pages| == |ws| && TokensPresent(pages)
    ensures
      var n := |ws| - 1;
      && pages == pages[..n] + [pages[n]] && pages[n].token == TokenAfter(ws[..n])
      && DecodeStored(h, feed, bodies, pages[n]) == Success(ws[n].page)
  {
    hide DecodeStored, DigestsWellFormed;
    var n := |ws| - 1;
    assert Visited(h, feed, fetch, ws, n);
    StoredReadsBack(h, feed, bodies, ws[n].response, ws[n].token);
    forall i | 1 <= i < |pages| ensures pages[i].token.Some? {
      assert Visited(h, feed, fetch, ws, i);
    }
  }

  lemma WalkReadsShorter(h: Hashes, feed: Feed, fetch: (nat, Option<Token>) -> Result<Response>,
                         before: map<string, string>, bodies: map<string, string>, ws: seq<Visit>, pages: seq<PageRecord>)
    requires ws != [] && Visits(h, feed, fetch, ws) && Recorded(ws, pages) && Stored(before, ws, bodies)
    ensures |pages| == |ws| && Extends(bodies, bodies)
    ensures
      var n := |ws| - 1;
      Visits(h, feed, fetch, ws[..n]) && Stored(bodies, ws[..n], bodies) && Recorded(ws[..n], pages[..n])
  {
    var n := |ws| - 1;
    forall i | 0 <= i < n ensures Visited(h, feed, fetch, ws[..n], i) {
      assert Visited(h, feed, fetch, ws, i);
    }
  }

  lemma NoVisits(h: Hashes, feed: Feed, fetch: (nat, Option<Token>) -> Result<Response>, bodies: map<string, string>)
    ensures Visits(h, feed, fetch, []) && Open([]) && Stored(bodies, [], bodies) && Recorded([], [])
    ensures TokenAfter([]).None? && AllItems([]) == []
  {}

  lemma StaysOpen(ws: seq<Visit>, w: Visit)
    requires Open(ws)
    ensures TokenAfter(ws + [w]) == w.page.next && (w.page.next.Some? ==> Open(ws + [w]))
  {}

  // ----- the collection directory -----

  /** Every receipt is filed under its own hash, and no two contents have one hash. */
  ghost predicate Filed(h: Hashes, receipts: map<(int, string), Content>) {
    && (forall k :: k in receipts ==> h.receipt(receipts[k]) == k.1)
    && forall x, y :: h.receipt(x) == h.receipt(y) ==> x == y
  }

  class Collection {
    const h: Hashes
    var bodies: map<string, string>
    var receipts: map<(int, string), Content>

    constructor (h: Hashes)
      ensures this.h == h && bodies == map[] && receipts == map[]
    {
      this.h := h;
      bodies, receipts := map[], map[];
    }

    /** One unit's fetch loop and its receipt. `fetch` is the provider's answer to the i-th request,
        `started` and `finished` the process clock around the loop. Whatever is published as complete
        loads from where it is filed, and decodes to what was collected; and a published receipt loads
        at all exactly when it has a page or the process clock did not step back. */
    method Collect(kind: Kind, unit: Unit, fetch: (nat, Option<Token>) -> Result<Response>, started: int, finished: int)
      returns (published: Result<Receipt>, ghost collected: seq<Item>)
      requires DigestsWellFormed(h) && kind.feedOf(unit).Success?
      modifies this
      ensures Extends(old(bodies), bodies) && Extends(old(receipts), receipts)
      ensures Filed(h, old(receipts)) ==> published.Success? && Filed(h, receipts)
      ensures published.Success? ==>
        var (r, feed, session) := (published.value, kind.feedOf(unit).value, kind.sessionOf(unit));
        && r.content.unit == unit && r.content.schema == kind.schema
        && r.content.startedAt == MinOf(started, r.content.pages) && r.content.finishedAt == MaxOf(finished, r.content.pages)
        && (session, r.id) in receipts && receipts[(session, r.id)] == r.content
        && (LoadsFrom(h, kind, session, r.id, bodies, r) <==> r.content.pages != [] || started <= finished)
        && (r.content.complete ==>
              && LoadsFrom(h, kind, session, r.id, bodies, r)
              && collected == ItemsOf(h, feed, bodies, r.content.pages)
              && ((forall x, at :: feed.keeps(x, at)) ==> collected == RowsOf(h, feed, bodies, r))
              && WalksTo(h, feed, bodies, r.content.pages, None))
        && (r.content.complete <==> exists b :: Finishes(h, feed, fetch, old(bodies), b))
        && (forall b :: Finishes(h, feed, fetch, old(bodies), b) ==> Recorded(b, r.content.pages) && collected == AllItems(b))
    {
      hide DecodeStored, Linked, ItemsOf, NoDuplicates;
      hide Finishes, Recorded, Stored, AllItems;
      var feed := kind.feedOf(unit).value;
      var pages: seq<PageRecord> := [];
      var failure: Option<string>;
      ghost var ws: seq<Visit>;
      pages, failure, collected, ws := FetchPages(feed, fetch);
      forall b | failure.None? && Finishes(h, feed, fetch, old(bodies), b) ensures b == ws {
        FinishIsUnique(h, feed, fetch, old(bodies), ws, b);
      }
      var receipt := ReceiptOf(h, kind.schema, unit, pages, failure, started, finished);
      WindowSpans(pages, started, finished);
      var written := WriteOnce(receipts, (kind.sessionOf(unit), receipt.id), receipt.content);
      if written.Failure? {
        return Failure(written.error), collected;
      }
      receipts := written.value;
      if failure.None? {
        CompleteReceiptWalksExactlyWhen(h, feed, bodies, receipt);
        if forall x, at :: feed.keeps(x, at) {
          NothingIsDropped(h, feed, bodies, pages);
        }
      }
      return Success(receipt), collected;
    }

    /** The loop finishes if and only if the provider's answers are a walk that finishes; then its pages,
        its items and what it added to the store are those of that walk. */
    method FetchPages(feed: Feed, fetch: (nat, Option<Token>) -> Result<Response>)
      returns (pages: seq<PageRecord>, failure: Option<string>, ghost items: seq<Item>, ghost ws: seq<Visit>)
      requires DigestsWellFormed(h)
      modifies this`bodies
      ensures Extends(old(bodies), bodies)
      ensures |pages| <= MAXIMUM_PAGES
      ensures failure.None? ==>
        && pages != []
        && Linked(h, feed, bodies, pages, None)
        && items == ItemsOf(h, feed, bodies, pages)
        && NoDuplicates(IdsOf(feed, items))
        && TokensPresent(pages)
      ensures failure.None? <==> exists b :: Finishes(h, feed, fetch, old(bodies), b)
      ensures failure.None? ==>
        && Finishes(h, feed, fetch, old(bodies), ws) && Recorded(ws, pages) && items == AllItems(ws)
        && Stored(old(bodies), ws, bodies)
    {
      hide DecodeStored, Linked, ItemsOf, NoDuplicates, Decode, IdsOf, AllAccepted, TokensPresent;
      hide Visits, Open, Stored, Recorded, TokenAfter, AllItems, Finishes;
      pages, items, ws := [], [], [];
      var token: Option<Token> := None;
      var identities: seq<string> := [];
      NoPages(h, feed, bodies);
      NoVisits(h, feed, fetch, bodies);
      for i := 0 to MAXIMUM_PAGES
        invariant |pages| == |ws| == i
        invariant Extends(old(bodies), bodies)
        invariant items == AllItems(ws) && identities == IdsOf(feed, items)
        invariant Visits(h, feed, fetch, ws) && Open(ws) && Recorded(ws, pages) && token == TokenAfter(ws)
        invariant Stored(old(bodies), ws, bodies)
      {
        ghost var before := bodies;
        ghost var linked := pages;
        if !GoesOn(h, feed, fetch, bodies, ws) {
          Stuck(h, feed, fetch, old(bodies), bodies, ws);
        }
        var answer := fetch(i, token);
        if answer.Failure? {
          return pages, Some(answer.error), items, ws;
        }
        var response := answer.value;
        var decoded := Decode(h, feed, response, token);
        if feed.decodesFirst && decoded.Failure? {
          return pages, Some(decoded.error), items, ws;
        }
        var stored := WriteOnce(bodies, response.sha, response.body);
        if stored.Failure? {
          return pages, Some(stored.error), items, ws;
        }
        bodies := stored.value;
        var page := PageRecord(token, ToRecord(response));
        pages := pages + [page];
        if decoded.Failure? {
          return pages, Some(decoded.error), items, ws;
        }
        if !AllAccepted(feed, decoded.value.items) {
          return pages, Some("item"), items, ws;
        }
        IdsConcat(feed, items, decoded.value.items);
        items := items + decoded.value.items;
        identities := identities + IdsOf(feed, decoded.value.items);
        DistinctAtMost(identities);
        if |identities| != |set x | x in identities| {
          return pages, Some("the provider repeated an action across pages"), items, ws;
        }
        ghost var w := WalkGrows(h, feed, fetch, old(bodies), before, ws, linked);
        StaysOpen(ws, w);
        ws := ws + [w];
        token := decoded.value.next;
        if token.None? {
          WalkEnds(h, feed, fetch, old(bodies), bodies, ws);
          WalkReadsBack(h, feed, fetch, old(bodies), bodies, ws, pages);
          return pages, None, items, ws;
        }
      }
      Stuck(h, feed, fetch, old(bodies), bodies, ws);
      failure := Some("the page chain exceeds the page limit");
    }
  }

  lemma NoPages(h: Hashes, feed: Feed, bodies: map<string, string>)
    ensures Linked(h, feed, bodies, [], None) && ItemsOf(h, feed, bodies, []) == [] && IdsOf(feed, []) == []
  {}

  lemma IdsConcat(feed: Feed, a: seq<Item>, b: seq<Item>)
    ensures IdsOf(feed, a + b) == IdsOf(feed, a) + IdsOf(feed, b)
  {
    FlatMapConcat(IdOf(feed), a, b);
  }
}
