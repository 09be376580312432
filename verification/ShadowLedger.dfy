/** The append-only, hash-chained ledger of consumed shadow evidence (shadow_ledger.py).

    `hash` stands for the SHA-256 of an entry's canonical JSON; where two different contents must
    not collide, a lemma asks for `Injective(hash)`. Times are integers. */
module ShadowLedger {
  import opened Prelude

  const ENTRY_SCHEMA := "market_predictor.shadow_ledger_entry"
  const PASSED := "passed"
  const FAILED := "failed"

  datatype Content = Content(schema: string, sequence: int, previous: Option<string>, fingerprint: string,
                             hypothesisId: string, family: string, result: string,
                             attestationId: Option<string>, transactionId: string, consumedAt: int)

  datatype Entry = Entry(content: Content, sha: string)

  /** A line of the ledger file: one entry, or text that does not parse as one. */
  datatype Line = Corrupt | Parsed(entry: Entry)

  datatype Bundle = Bundle(fingerprint: string, hypothesisId: string, family: string)

  datatype Hypothesis = Hypothesis(id: string, family: string)

  datatype Request = Request(bundle: Bundle, hypothesis: Hypothesis, result: string,
                             attestationId: Option<string>, transactionId: string)

  ghost predicate Injective(hash: Content -> string) {
    forall a, b :: hash(a) == hash(b) ==> a == b
  }

  predicate IsHex(c: char) {
    '0' <= c <= '9' || 'a' <= c <= 'f' || 'A' <= c <= 'F'
  }

  predicate IsSha256(s: string) {
    |s| == 64 && forall i :: 0 <= i < |s| ==> IsHex(s[i])
  }

  /** A digest is 64 hexadecimal digits, of either case. */
  lemma Sha256Is(s: string)
    ensures IsSha256(s) <==> |s| == 64 && forall c :: c in s ==> c in "0123456789abcdefABCDEF"
  {
    forall c: char ensures IsHex(c) <==> c in "0123456789abcdefABCDEF" {
      HexDigits(c);
    }
    if forall c :: c in s ==> c in "0123456789abcdefABCDEF" {
      forall i | 0 <= i < |s| ensures IsHex(s[i]) {
        assert s[i] in s;
      }
    }
  }

  lemma HexDigits(c: char)
    ensures IsHex(c) <==> c in "0123456789abcdefABCDEF"
  {
    var digits := "0123456789abcdefABCDEF";
    if IsHex(c) {
      var k := if c <= '9' then (c - '0') as int else if c >= 'a' then (c - 'a') as int + 10 else (c - 'A') as int + 16;
      assert digits[k] == c;
    }
  }

  predicate Acceptable(r: Request) {
    && r.result in {PASSED, FAILED}
    && r.bundle.hypothesisId == r.hypothesis.id
    && r.bundle.family == r.hypothesis.family
    && IsSha256(r.bundle.fingerprint)
    && IsSha256(r.transactionId)
    && (r.attestationId.Some? ==> IsSha256(r.attestationId.value))
  }

  // ----- loading -----

  /** Line `i` continues the chain: its number, its link to the line before and its own hash are right. */
  predicate LinkHolds(hash: Content -> string, lines: seq<Line>, i: nat)
    requires i < |lines|
  {
    && lines[i].Parsed?
    && lines[i].entry.content.schema == ENTRY_SCHEMA
    && lines[i].entry.content.sequence == i + 1
    && (if i == 0 then lines[i].entry.content.previous == None
        else lines[i - 1].Parsed? && lines[i].entry.content.previous == Some(lines[i - 1].entry.sha))
    && hash(lines[i].entry.content) == lines[i].entry.sha
  }

  ghost predicate ChainHolds(hash: Content -> string, lines: seq<Line>) {
    && AllParsed(lines)
    && forall i {:trigger LinkHolds(hash, lines, i)} :: 0 <= i < |lines| ==> LinkHolds(hash, lines, i)
  }

  ghost predicate AllParsed(lines: seq<Line>) {
    forall i :: 0 <= i < |lines| ==> lines[i].Parsed?
  }

  ghost function EntriesOf(lines: seq<Line>): seq<Entry>
    requires AllParsed(lines)
  {
    seq(|lines|, i requires 0 <= i < |lines| => lines[i].entry)
  }

  /** Reads the file line by line, carrying the previous hash. */
  method LoadShadowLedger(hash: Content -> string, lines: seq<Line>) returns (r: Result<seq<Entry>>)
    ensures r.Success? <==> ChainHolds(hash, lines)
    ensures r.Success? ==> r.value == EntriesOf(lines)
  {
    var entries: seq<Entry> := [];
    var previous: Option<string> := None;
    for i := 0 to |lines|
      invariant |entries| == i
      invariant forall k {:trigger LinkHolds(hash, lines, k)} :: 0 <= k < i ==> LinkHolds(hash, lines, k)
      invariant forall k :: 0 <= k < i ==> lines[k].Parsed? && entries[k] == lines[k].entry
      invariant previous == if i == 0 then None else Some(entries[i - 1].sha)
    {
      if lines[i].Corrupt? {
        assert !LinkHolds(hash, lines, i);
        return Failure("shadow ledger is corrupt");
      }
      var entry := lines[i].entry;
      assert i > 0 ==> LinkHolds(hash, lines, i - 1);
      if entry.content.schema != ENTRY_SCHEMA || entry.content.sequence != i + 1
        || entry.content.previous != previous || hash(entry.content) != entry.sha {
        assert !LinkHolds(hash, lines, i);
        return Failure("shadow ledger integrity check failed");
      }
      entries := entries + [entry];
      previous := Some(entry.sha);
    }
    return Success(entries);
  }

  // ----- consuming -----

  function FindFingerprint(lines: seq<Line>, fingerprint: string): Option<Entry> {
    if lines == [] then None
    else if lines[0].Parsed? && lines[0].entry.content.fingerprint == fingerprint then Some(lines[0].entry)
    else FindFingerprint(lines[1..], fingerprint)
  }

  ghost predicate Retired(lines: seq<Line>, family: string) {
    exists i :: 0 <= i < |lines| && lines[i].Parsed?
      && lines[i].entry.content.family == family && lines[i].entry.content.result == FAILED
  }

  predicate Matches(e: Entry, r: Request) {
    && e.content.transactionId == r.transactionId
    && e.content.result == r.result
    && e.content.attestationId == r.attestationId
  }

  function NewEntry(hash: Content -> string, lines: seq<Line>, r: Request, now: int): Entry
    requires lines != [] ==> lines[|lines| - 1].Parsed?
  {
    var previous := if lines == [] then None else Some(lines[|lines| - 1].entry.sha);
    var content := Content(ENTRY_SCHEMA, |lines| + 1, previous, r.bundle.fingerprint, r.hypothesis.id,
                           r.hypothesis.family, r.result, r.attestationId, r.transactionId, now);
    Entry(content, hash(content))
  }

  /** One consume call, under the ledger lock. */
  ghost function ConsumeStep(hash: Content -> string, lines: seq<Line>, r: Request, now: int): (Result<Entry>, seq<Line>) {
    if !Acceptable(r) then (Failure("request"), lines)
    else if !ChainHolds(hash, lines) then (Failure("ledger"), lines)
    else
      var existing := FindFingerprint(lines, r.bundle.fingerprint);
      if existing.Some? then
        (if Matches(existing.value, r) then Success(existing.value) else Failure("consumed"), lines)
      else if Retired(lines, r.hypothesis.family) then (Failure("retired"), lines)
      else
        var last := |lines| - 1;
        assert lines != [] ==> LinkHolds(hash, lines, last);
        var entry := NewEntry(hash, lines, r, now);
        (Success(entry), lines + [Parsed(entry)])
  }

  // ----- what every reachable ledger keeps -----

  ghost predicate FingerprintsDistinct(lines: seq<Line>) {
    forall i, j :: 0 <= i < j < |lines| && lines[i].Parsed? && lines[j].Parsed? ==>
      lines[i].entry.content.fingerprint != lines[j].entry.content.fingerprint
  }

  /** A failed entry is the last entry of its family. */
  ghost predicate FailureIsFinal(lines: seq<Line>) {
    forall i, j :: 0 <= i < j < |lines| && lines[i].Parsed? && lines[j].Parsed? ==>
      lines[i].entry.content.result == FAILED ==> lines[j].entry.content.family != lines[i].entry.content.family
  }

  ghost predicate Sound(hash: Content -> string, lines: seq<Line>) {
    ChainHolds(hash, lines) && FingerprintsDistinct(lines) && FailureIsFinal(lines)
  }

  lemma {:induction false} FindsFirst(lines: seq<Line>, fingerprint: string)
    ensures
      var found := FindFingerprint(lines, fingerprint);
      if found.Some?
      then found.value.content.fingerprint == fingerprint && Parsed(found.value) in lines
      else forall i :: 0 <= i < |lines| && lines[i].Parsed? ==> lines[i].entry.content.fingerprint != fingerprint
  {
    if lines != [] {
      FindsFirst(lines[1..], fingerprint);
      if FindFingerprint(lines, fingerprint).None? {
        forall i | 0 <= i < |lines| && lines[i].Parsed? ensures lines[i].entry.content.fingerprint != fingerprint {
          assert i > 0 ==> lines[1..][i - 1] == lines[i];
        }
      }
    }
  }

  lemma ConsumeKeepsSound(hash: Content -> string, lines: seq<Line>, r: Request, now: int)
    requires Sound(hash, lines)
    ensures Sound(hash, ConsumeStep(hash, lines, r, now).1)
    ensures lines <= ConsumeStep(hash, lines, r, now).1
  {
    FindsFirst(lines, r.bundle.fingerprint);
    var after := ConsumeStep(hash, lines, r, now).1;
    if after != lines {
      forall i | 0 <= i < |after| ensures LinkHolds(hash, after, i) {
        if i < |lines| {
          assert LinkHolds(hash, lines, i);
        } else if i > 0 {
          assert LinkHolds(hash, lines, i - 1);
        }
      }
    }
  }

  ghost function RunCalls(hash: Content -> string, lines: seq<Line>, calls: seq<(Request, int)>): seq<Line>
    decreases |calls|
  {
    if calls == [] then lines
    else RunCalls(hash, ConsumeStep(hash, lines, calls[0].0, calls[0].1).1, calls[1..])
  }

  /** Any sequence of consume calls keeps the chain verifying, the fingerprints distinct, a failed
      entry the last of its family, and every earlier entry where it was. */
  lemma {:induction false} RunKeepsSound(hash: Content -> string, lines: seq<Line>, calls: seq<(Request, int)>)
    requires Sound(hash, lines)
    ensures Sound(hash, RunCalls(hash, lines, calls))
    ensures lines <= RunCalls(hash, lines, calls)
    decreases |calls|
  {
    hide Sound, ConsumeStep;
    if calls != [] {
      ConsumeKeepsSound(hash, lines, calls[0].0, calls[0].1);
      RunKeepsSound(hash, ConsumeStep(hash, lines, calls[0].0, calls[0].1).1, calls[1..]);
    }
  }

  lemma ReachableLedgersAreSound(hash: Content -> string, calls: seq<(Request, int)>)
    ensures Sound(hash, RunCalls(hash, [], calls))
  {
    RunKeepsSound(hash, [], calls);
  }

  lemma {:induction false} FindIsThere(lines: seq<Line>, i: nat)
    requires i < |lines| && lines[i].Parsed? && FingerprintsDistinct(lines)
    ensures FindFingerprint(lines, lines[i].entry.content.fingerprint) == Some(lines[i].entry)
  {
    if i > 0 {
      var rest := lines[1..];
      assert rest[i - 1] == lines[i];
      FindIsThere(rest, i - 1);
    }
  }

  /** What a successful call leaves behind: its own entry, or the matching entry of an earlier call. */
  lemma SuccessIsRecorded(hash: Content -> string, lines: seq<Line>, r: Request, now: int) returns (i: nat)
    requires Sound(hash, lines) && ConsumeStep(hash, lines, r, now).0.Success?
    ensures
      var (outcome, after) := ConsumeStep(hash, lines, r, now);
      && i < |after| && after[i] == Parsed(outcome.value)
      && outcome.value.content.fingerprint == r.bundle.fingerprint
      && Matches(outcome.value, r)
    ensures Acceptable(r)
  {
    FindsFirst(lines, r.bundle.fingerprint);
    var (outcome, after) := ConsumeStep(hash, lines, r, now);
    if after == lines {
      i :| 0 <= i < |lines| && lines[i] == Parsed(outcome.value);
    } else {
      i := |lines|;
    }
  }

  /** A retry that matches its entry returns it and leaves the ledger alone, at any later time and
      even if the family was retired in between. */
  lemma RetryReturnsTheOldEntry(hash: Content -> string, lines: seq<Line>, r: Request, now: int,
                                between: seq<(Request, int)>, retry: Request, later: int)
    requires Sound(hash, lines) && ConsumeStep(hash, lines, r, now).0.Success?
    requires Acceptable(retry) && retry.bundle.fingerprint == r.bundle.fingerprint
    requires retry.transactionId == r.transactionId && retry.result == r.result && retry.attestationId == r.attestationId
    ensures
      var first := ConsumeStep(hash, lines, r, now);
      var there := RunCalls(hash, first.1, between);
      ConsumeStep(hash, there, retry, later) == (Success(first.0.value), there)
  {
    hide ChainHolds;
    var first := ConsumeStep(hash, lines, r, now);
    var there := RunCalls(hash, first.1, between);
    ConsumeKeepsSound(hash, lines, r, now);
    RunKeepsSound(hash, first.1, between);
    var i := SuccessIsRecorded(hash, lines, r, now);
    hide ConsumeStep, FindFingerprint;
    assert there[i] == first.1[i];
    FindIsThere(there, i);
    FoundMatch(hash, there, retry, later, first.0.value);
  }

  lemma FoundMatch(hash: Content -> string, lines: seq<Line>, r: Request, now: int, e: Entry)
    requires ChainHolds(hash, lines) && Acceptable(r)
    requires FindFingerprint(lines, r.bundle.fingerprint) == Some(e) && Matches(e, r)
    ensures ConsumeStep(hash, lines, r, now) == (Success(e), lines)
  {}

  /** After a failed result its family takes no new fingerprint, ever. */
  lemma FailureRetiresTheFamily(hash: Content -> string, lines: seq<Line>, failed: Request, now: int,
                                between: seq<(Request, int)>, r: Request, later: int)
    requires Sound(hash, lines) && failed.result == FAILED && ConsumeStep(hash, lines, failed, now).0.Success?
    requires
      var first := ConsumeStep(hash, lines, failed, now);
      && first.0.value.content.family == r.hypothesis.family
      && FindFingerprint(RunCalls(hash, first.1, between), r.bundle.fingerprint).None?
    ensures
      var there := RunCalls(hash, ConsumeStep(hash, lines, failed, now).1, between);
      ConsumeStep(hash, there, r, later).0.Failure? && ConsumeStep(hash, there, r, later).1 == there
  {
    hide ChainHolds;
    var first := ConsumeStep(hash, lines, failed, now);
    var there := RunCalls(hash, first.1, between);
    ConsumeKeepsSound(hash, lines, failed, now);
    RunKeepsSound(hash, first.1, between);
    var i := SuccessIsRecorded(hash, lines, failed, now);
    assert there[i] == first.1[i];
    assert Retired(there, r.hypothesis.family);
  }

  /** The entry at `i` was made for this very request. */
  ghost predicate MadeFor(lines: seq<Line>, i: nat, r: Request)
    requires i < |lines|
  {
    && lines[i].Parsed?
    && lines[i].entry.content.fingerprint == r.bundle.fingerprint
    && lines[i].entry.content.transactionId == r.transactionId
    && lines[i].entry.content.result == r.result
    && lines[i].entry.content.attestationId == r.attestationId
  }

  /** No entry has the request's fingerprint, and none of its family failed. */
  ghost predicate Untouched(lines: seq<Line>, r: Request) {
    forall i :: 0 <= i < |lines| && lines[i].Parsed? ==>
      && lines[i].entry.content.fingerprint != r.bundle.fingerprint
      && !(lines[i].entry.content.family == r.hypothesis.family && lines[i].entry.content.result == "failed")
  }

  /** What a request must say to be considered at all. */
  lemma AcceptableExactlyWhen(r: Request)
    ensures Acceptable(r) <==>
      && (r.result == "passed" || r.result == "failed")
      && r.bundle.hypothesisId == r.hypothesis.id && r.bundle.family == r.hypothesis.family
      && IsSha256(r.bundle.fingerprint) && IsSha256(r.transactionId)
      && (r.attestationId == None || IsSha256(r.attestationId.value))
  {}

  lemma RetiredIs(lines: seq<Line>, r: Request)
    requires forall i :: 0 <= i < |lines| && lines[i].Parsed? ==> lines[i].entry.content.fingerprint != r.bundle.fingerprint
    ensures Retired(lines, r.hypothesis.family) <==> !Untouched(lines, r)
  {}

  /** The exact condition of acceptance, and the line a new entry leaves: on a sound ledger a call
      succeeds if and only if the request is acceptable and either an entry was made for it, or neither
      its fingerprint nor a failure of its family is there; in the second case the ledger grows by one
      entry with what the request says and the time of the call. */
  lemma AcceptedExactlyWhen(hash: Content -> string, lines: seq<Line>, r: Request, now: int)
    requires Sound(hash, lines)
    ensures ConsumeStep(hash, lines, r, now).0.Success? <==>
      Acceptable(r) && ((exists i :: 0 <= i < |lines| && MadeFor(lines, i, r)) || Untouched(lines, r))
    ensures Acceptable(r) && Untouched(lines, r) ==>
      var (outcome, after) := ConsumeStep(hash, lines, r, now);
      && |after| == |lines| + 1 && after[..|lines|] == lines && after[|lines|].Parsed?
      && outcome == Success(after[|lines|].entry)
      && var e := after[|lines|].entry;
      && e.content.fingerprint == r.bundle.fingerprint && e.content.hypothesisId == r.hypothesis.id
      && e.content.family == r.hypothesis.family && e.content.result == r.result
      && e.content.attestationId == r.attestationId && e.content.transactionId == r.transactionId
      && e.content.consumedAt == now && e.content.sequence == |lines| + 1 && e.sha == hash(e.content)
  {
    hide ChainHolds, Acceptable, FailureIsFinal, Untouched, Retired, FingerprintsDistinct;
    FindsFirst(lines, r.bundle.fingerprint);
    var found := FindFingerprint(lines, r.bundle.fingerprint);
    if found.Some? {
      var k := FoundAt(lines, r.bundle.fingerprint);
      NotUntouched(lines, r, k);
      OnlyThere(lines, r, k);
    } else {
      RetiredIs(lines, r);
      ParsedLast(hash, lines);
    }
  }

  lemma FoundAt(lines: seq<Line>, fingerprint: string) returns (k: nat)
    requires FindFingerprint(lines, fingerprint).Some?
    ensures k < |lines| && lines[k] == Parsed(FindFingerprint(lines, fingerprint).value)
    ensures lines[k].entry.content.fingerprint == fingerprint
  {
    FindsFirst(lines, fingerprint);
    k :| 0 <= k < |lines| && lines[k] == Parsed(FindFingerprint(lines, fingerprint).value);
  }

  lemma NotUntouched(lines: seq<Line>, r: Request, k: nat)
    requires k < |lines| && lines[k].Parsed? && lines[k].entry.content.fingerprint == r.bundle.fingerprint
    ensures !Untouched(lines, r)
  {}

  /** An entry made for the request can only be the one with its fingerprint. */
  lemma OnlyThere(lines: seq<Line>, r: Request, k: nat)
    requires FingerprintsDistinct(lines)
    requires k < |lines| && lines[k].Parsed? && lines[k].entry.content.fingerprint == r.bundle.fingerprint
    ensures (exists i :: 0 <= i < |lines| && MadeFor(lines, i, r)) <==> Matches(lines[k].entry, r)
  {
    if Matches(lines[k].entry, r) {
      assert MadeFor(lines, k, r);
    }
  }

  lemma ParsedLast(hash: Content -> string, lines: seq<Line>)
    requires ChainHolds(hash, lines)
    ensures lines != [] ==> lines[|lines| - 1].Parsed?
  {}

  /** A used fingerprint is never consumed again under another transaction, result or attestation. */
  lemma FingerprintIsSpent(hash: Content -> string, lines: seq<Line>, i: nat, r: Request, now: int)
    requires Sound(hash, lines) && i < |lines| && lines[i].Parsed?
    requires lines[i].entry.content.fingerprint == r.bundle.fingerprint && !Matches(lines[i].entry, r)
    ensures ConsumeStep(hash, lines, r, now).0.Failure? && ConsumeStep(hash, lines, r, now).1 == lines
  {
    FindIsThere(lines, i);
  }

  // ----- tamper evidence -----

  /** With an injective hash, two ledgers that both verify and end in the same hash are equal in
      every entry. */
  lemma {:induction false} LastHashDeterminesTheLedger(hash: Content -> string, a: seq<Line>, b: seq<Line>)
    requires Injective(hash) && ChainHolds(hash, a) && ChainHolds(hash, b)
    requires a != [] && b != []
    requires a[|a| - 1].Parsed? && b[|b| - 1].Parsed? && a[|a| - 1].entry.sha == b[|b| - 1].entry.sha
    ensures a == b
    decreases |a|
  {
    var m, n := |a| - 1, |b| - 1;
    assert LinkHolds(hash, a, m) && LinkHolds(hash, b, n);
    assert a[m].entry.content == b[n].entry.content;
    assert a[m].entry == b[n].entry && m == n;
    assert a == a[..m] + [a[m]] && b == b[..n] + [b[n]];
    if m > 0 {
      assert LinkHolds(hash, a, m - 1) && LinkHolds(hash, b, m - 1);
      forall i | 0 <= i < m ensures LinkHolds(hash, a[..m], i) && LinkHolds(hash, b[..m], i) {
        assert LinkHolds(hash, a, i) && LinkHolds(hash, b, i);
      }
      LastHashDeterminesTheLedger(hash, a[..m], b[..m]);
    }
  }

  lemma {:induction false} BrokenLedgerStays(hash: Content -> string, lines: seq<Line>, calls: seq<(Request, int)>)
    requires !ChainHolds(hash, lines)
    ensures RunCalls(hash, lines, calls) == lines
    decreases |calls|
  {
    hide ChainHolds;
    if calls != [] {
      BrokenLedgerStays(hash, lines, calls[1..]);
    }
  }

  /** A line that does not parse or verify blocks the ledger for good: no sequence of calls changes
      it, and every call in the sequence is refused. */
  lemma BrokenLedgerIsFrozen(hash: Content -> string, lines: seq<Line>, calls: seq<(Request, int)>)
    requires !ChainHolds(hash, lines)
    ensures RunCalls(hash, lines, calls) == lines
    ensures forall i :: 0 <= i < |calls| ==>
      ConsumeStep(hash, RunCalls(hash, lines, calls[..i]), calls[i].0, calls[i].1).0.Failure?
  {
    hide ChainHolds, RunCalls;
    BrokenLedgerStays(hash, lines, calls);
    forall i | 0 <= i < |calls|
      ensures ConsumeStep(hash, RunCalls(hash, lines, calls[..i]), calls[i].0, calls[i].1).0.Failure?
    {
      BrokenLedgerStays(hash, lines, calls[..i]);
    }
  }

  // ----- the ledger file -----

  class LedgerFile {
    const hash: Content -> string
    var lines: seq<Line>

    constructor (hash: Content -> string)
      ensures this.hash == hash && lines == [] && Sound(hash, lines)
    {
      this.hash := hash;
      lines := [];
    }

    method Load() returns (r: Result<seq<Entry>>)
      ensures r.Success? <==> ChainHolds(hash, lines)
      ensures r.Success? ==> r.value == EntriesOf(lines)
    {
      r := LoadShadowLedger(hash, lines);
    }

    /** Consumes one fingerprint. A new entry is appended; loading afterwards gives the old entries
        and the new one. */
    method Consume(r: Request, now: int) returns (outcome: Result<Entry>)
      modifies this
      ensures (outcome, lines) == ConsumeStep(hash, old(lines), r, now)
      ensures lines != old(lines) ==>
        && outcome.Success?
        && ChainHolds(hash, lines) && ChainHolds(hash, old(lines))
        && EntriesOf(lines) == EntriesOf(old(lines)) + [outcome.value]
    {
      if !Acceptable(r) {
        return Failure("request");
      }
      var loaded := LoadShadowLedger(hash, lines);
      if loaded.Failure? {
        return Failure("ledger");
      }
      var entries := loaded.value;
      var existing := ExistingEntry(entries, lines, r.bundle.fingerprint);
      if existing.Some? {
        if Matches(existing.value, r) {
          return Success(existing.value);
        }
        return Failure("consumed");
      }
      var retired := FamilyRetired(entries, lines, r.hypothesis.family);
      if retired {
        return Failure("retired");
      }
      assert lines != [] ==> LinkHolds(hash, lines, |lines| - 1);
      var entry := NewEntry(hash, lines, r, now);
      AppendKeepsChain(hash, lines, r, now);
      lines := lines + [Parsed(entry)];
      outcome := Success(entry);
    }
  }

  lemma AppendKeepsChain(hash: Content -> string, lines: seq<Line>, r: Request, now: int)
    requires ChainHolds(hash, lines)
    requires lines != [] ==> lines[|lines| - 1].Parsed?
    ensures
      var after := lines + [Parsed(NewEntry(hash, lines, r, now))];
      && ChainHolds(hash, after)
      && EntriesOf(after) == EntriesOf(lines) + [NewEntry(hash, lines, r, now)]
  {
    var after := lines + [Parsed(NewEntry(hash, lines, r, now))];
    forall i | 0 <= i < |after| ensures LinkHolds(hash, after, i) {
      if i < |lines| {
        assert LinkHolds(hash, lines, i);
      }
    }
  }

  method ExistingEntry(entries: seq<Entry>, ghost lines: seq<Line>, fingerprint: string) returns (r: Option<Entry>)
    requires AllParsed(lines)
    requires entries == EntriesOf(lines)
    ensures r == FindFingerprint(lines, fingerprint)
  {
    for i := 0 to |entries|
      invariant FindFingerprint(lines, fingerprint) == FindFingerprint(lines[i..], fingerprint)
    {
      if entries[i].content.fingerprint == fingerprint {
        return Some(entries[i]);
      }
      assert lines[i..][1..] == lines[i + 1..];
    }
    r := None;
  }

  method FamilyRetired(entries: seq<Entry>, ghost lines: seq<Line>, family: string) returns (r: bool)
    requires AllParsed(lines)
    requires entries == EntriesOf(lines)
    ensures r <==> Retired(lines, family)
  {
    for i := 0 to |entries|
      invariant forall k :: 0 <= k < i ==>
        !(lines[k].entry.content.family == family && lines[k].entry.content.result == FAILED)
    {
      if entries[i].content.family == family && entries[i].content.result == FAILED {
        assert lines[i].entry == entries[i];
        return true;
      }
    }
    r := false;
  }
}
