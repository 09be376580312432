/** The promotion workflow (promotion_workflow.py) as a protocol over its durable effects: several
    processes authenticate, consume shadow evidence in the ledger, build an attestation and write
    it, and any of them may crash between two effects and start over.

    Evidence loading, token verification, signing and the field checks of the attestation are
    library calls; what they decide enters as the `accepted` flag of an action. */
module PromotionWorkflow {
  import opened Prelude
  import opened ShadowLedger

  // ----- transaction identity -----

  /** The recorded fields of an authenticated principal. */
  type Principal = map<string, string>

  const AUTHENTICATED_AT := "authenticated_at_utc"

  function StableIdentity(p: Principal): Principal {
    p - {AUTHENTICATED_AT}
  }

  /** The fields a token pair yields, stamped with the time of authentication. */
  function Authenticate(claims: Principal, at: string): Principal {
    claims[AUTHENTICATED_AT := at]
  }

  datatype Payload = Payload(candidateSha: string, recordSha: string, fingerprint: string, gateConfig: string,
                             build: Principal, approver: Principal)

  /** One evaluation: the candidate, its hypothesis, the opened shadow evidence, the outcome of the
      shadow gates and the two authenticated principals. */
  datatype Job = Job(model: string, candidateSha: string, recordSha: string, hypothesis: Hypothesis, bundle: Bundle,
                     gateConfig: string, gatesFailed: bool, build: Principal, approver: Principal)

  function PayloadOf(j: Job): Payload {
    Payload(j.candidateSha, j.recordSha, j.bundle.fingerprint, j.gateConfig,
            StableIdentity(j.build), StableIdentity(j.approver))
  }

  datatype Hashes = Hashes(entry: Content -> string, payload: Payload -> string)

  function TransactionId(h: Hashes, j: Job): string {
    h.payload(PayloadOf(j))
  }

  /** Authenticating the same tokens again, at another time, keeps the transaction id. */
  lemma ReauthenticationKeepsTheTransaction(h: Hashes, j: Job, build: Principal, approver: Principal,
                                            first: string, second: string)
    ensures
      TransactionId(h, j.(build := Authenticate(build, first), approver := Authenticate(approver, first)))
        == TransactionId(h, j.(build := Authenticate(build, second), approver := Authenticate(approver, second)))
  {
    assert StableIdentity(Authenticate(build, first)) == StableIdentity(Authenticate(build, second));
    assert StableIdentity(Authenticate(approver, first)) == StableIdentity(Authenticate(approver, second));
  }

  /** With an injective hash, equal transaction ids mean the same candidate, hypothesis record,
      evidence, gates and principals, up to the time of authentication. */
  lemma TransactionIdentifiesTheRequest(h: Hashes, a: Job, b: Job)
    requires forall p, q :: h.payload(p) == h.payload(q) ==> p == q
    requires TransactionId(h, a) == TransactionId(h, b)
    ensures a.candidateSha == b.candidateSha && a.recordSha == b.recordSha
    ensures a.bundle.fingerprint == b.bundle.fingerprint && a.gateConfig == b.gateConfig
    ensures forall k :: k in a.build && k != AUTHENTICATED_AT ==> k in b.build && a.build[k] == b.build[k]
    ensures forall k :: k in a.approver && k != AUTHENTICATED_AT ==> k in b.approver && a.approver[k] == b.approver[k]
  {
    assert PayloadOf(a) == PayloadOf(b);
    forall k | k in a.build && k != AUTHENTICATED_AT ensures k in b.build && a.build[k] == b.build[k] {
      assert k in StableIdentity(a.build);
    }
    forall k | k in a.approver && k != AUTHENTICATED_AT ensures k in b.approver && a.approver[k] == b.approver[k] {
      assert k in StableIdentity(a.approver);
    }
  }

  // ----- the protocol -----

  datatype Attestation = Attestation(model: string, candidateSha: string, fingerprint: string, receipt: Entry,
                                     build: Principal, approver: Principal, promotedAt: int)

  datatype Phase = Started(job: Job) | Consumed(job: Job, entry: Entry) | Built(job: Job, attestation: Attestation)

  /** What survives a crash (the ledger lines and the attestation files) and what does not (the
      phase of each running process). */
  datatype State = State(lines: seq<Line>, attestations: map<string, Attestation>, running: map<nat, Phase>)

  datatype Action =
    | Begin(pid: nat, job: Job, accepted: bool)
    | Consume(pid: nat, now: int)
    | Build(pid: nat, promotedAt: int, accepted: bool)
    | Write(pid: nat, accepted: bool)
    | Crash(pid: nat)

  const INITIAL := State([], map[], map[])

  function RequestOf(h: Hashes, j: Job): Request {
    Request(j.bundle, j.hypothesis, if j.gatesFailed then FAILED else PASSED, None, TransactionId(h, j))
  }

  /** The receipt checks made before an attestation is built. */
  predicate ReceiptOk(h: Hashes, j: Job, e: Entry) {
    && e.content.schema == ENTRY_SCHEMA
    && e.content.result == PASSED
    && e.content.fingerprint == j.bundle.fingerprint
    && e.content.hypothesisId == j.hypothesis.id
    && e.content.family == j.hypothesis.family
    && h.entry(e.content) == e.sha
    && IsSha256(e.sha) && IsSha256(e.content.transactionId) && e.content.sequence >= 1
  }

  function AttestationOf(j: Job, e: Entry, promotedAt: int): Attestation {
    Attestation(j.model, j.candidateSha, j.bundle.fingerprint, e, j.build, j.approver, promotedAt)
  }

  function Stop(s: State, pid: nat): State {
    s.(running := s.running - {pid})
  }

  /** One durable effect of one process. A refused action ends the process's attempt. */
  ghost function Step(h: Hashes, s: State, a: Action): State {
    match a
    case Begin(pid, job, accepted) =>
      if accepted then s.(running := s.running[pid := Started(job)]) else Stop(s, pid)
    case Consume(pid, now) =>
      if pid !in s.running || !s.running[pid].Started? then s
      else
        var job := s.running[pid].job;
        var (outcome, lines) := ConsumeStep(h.entry, s.lines, RequestOf(h, job), now);
        var t := s.(lines := lines);
        if outcome.Success? && !job.gatesFailed
        then t.(running := t.running[pid := Consumed(job, outcome.value)])
        else Stop(t, pid)
    case Build(pid, promotedAt, accepted) =>
      if pid !in s.running || !s.running[pid].Consumed? then s
      else
        var (job, entry) := (s.running[pid].job, s.running[pid].entry);
        if accepted && ReceiptOk(h, job, entry)
        then s.(running := s.running[pid := Built(job, AttestationOf(job, entry, promotedAt))])
        else Stop(s, pid)
    case Write(pid, accepted) =>
      if pid !in s.running || !s.running[pid].Built? then s
      else
        var attestation := s.running[pid].attestation;
        var t := Stop(s, pid);
        if !accepted || attestation.model in s.attestations then t  // an existing attestation is immutable
        else t.(attestations := t.attestations[attestation.model := attestation])
    case Crash(pid) => Stop(s, pid)
  }

  ghost function Run(h: Hashes, s: State, actions: seq<Action>): State
    decreases |actions|
  {
    if actions == [] then s else Run(h, Step(h, s, actions[0]), actions[1..])
  }

  // ----- invariant -----

  ghost predicate Recorded(s: State, e: Entry) {
    Parsed(e) in s.lines
  }

  /** The attestation carries, as its receipt, a passed ledger entry with its own fingerprint. */
  ghost predicate Backed(s: State, a: Attestation) {
    && Recorded(s, a.receipt)
    && a.receipt.content.result == PASSED
    && a.receipt.content.fingerprint == a.fingerprint
  }

  ghost predicate PhaseOk(h: Hashes, s: State, phase: Phase) {
    match phase
    case Started(job) => true
    case Consumed(job, entry) => Recorded(s, entry) && Matches(entry, RequestOf(h, job))
    case Built(job, attestation) => Backed(s, attestation)
  }

  ghost predicate Inv(h: Hashes, s: State) {
    && Sound(h.entry, s.lines)
    && (forall m :: m in s.attestations ==> s.attestations[m].model == m && Backed(s, s.attestations[m]))
    && (forall p :: p in s.running ==> PhaseOk(h, s, s.running[p]))
  }

  /** A step loses no ledger line and no attestation. */
  ghost predicate Keeps(s: State, t: State) {
    && s.lines <= t.lines
    && forall m :: m in s.attestations ==> m in t.attestations && t.attestations[m] == s.attestations[m]
  }

  lemma RecordedStays(s: State, t: State)
    requires s.lines <= t.lines
    ensures forall e :: Recorded(s, e) ==> Recorded(t, e)
  {
    forall e | Recorded(s, e) ensures Recorded(t, e) {
      var i :| 0 <= i < |s.lines| && s.lines[i] == Parsed(e);
      assert t.lines[i] == Parsed(e);
    }
  }

  /** The invariant survives any change that only lengthens a sound ledger, keeps the attestations
      and replaces or drops the phase of one process. */
  lemma ChangeKeepsInv(h: Hashes, s: State, t: State, pid: nat)
    requires Inv(h, s) && Sound(h.entry, t.lines) && s.lines <= t.lines
    requires t.attestations == s.attestations
    requires forall p :: p in t.running && p != pid ==> p in s.running && t.running[p] == s.running[p]
    requires pid in t.running ==> PhaseOk(h, t, t.running[pid])
    ensures Inv(h, t) && Keeps(s, t)
  {
    hide Sound, Recorded, Matches, RequestOf;
    RecordedStays(s, t);
    forall p | p in t.running ensures PhaseOk(h, t, t.running[p]) {
      if p != pid {
        assert PhaseOk(h, s, s.running[p]);
      }
    }
  }

  lemma ConsumeKeepsInv(h: Hashes, s: State, pid: nat, now: int)
    requires Inv(h, s) && pid in s.running && s.running[pid].Started?
    ensures Inv(h, Step(h, s, Consume(pid, now))) && Keeps(s, Step(h, s, Consume(pid, now)))
  {
    hide Sound, ConsumeStep, Acceptable, Inv, Matches;
    var r := RequestOf(h, s.running[pid].job);
    InvSound(h, s);
    ConsumeKeepsSound(h.entry, s.lines, r, now);
    var t := Step(h, s, Consume(pid, now));
    if ConsumeStep(h.entry, s.lines, r, now).0.Success? {
      var i := SuccessIsRecorded(h.entry, s.lines, r, now);
      assert Parsed(ConsumeStep(h.entry, s.lines, r, now).0.value) in t.lines;
    }
    ChangeKeepsInv(h, s, t, pid);
  }

  lemma InvSound(h: Hashes, s: State)
    requires Inv(h, s)
    ensures Sound(h.entry, s.lines)
    ensures forall p :: p in s.running ==> PhaseOk(h, s, s.running[p])
  {
    hide Sound, PhaseOk;
  }

  lemma WriteKeepsInv(h: Hashes, s: State, pid: nat, accepted: bool)
    requires Inv(h, s) && pid in s.running && s.running[pid].Built?
    ensures Inv(h, Step(h, s, Write(pid, accepted))) && Keeps(s, Step(h, s, Write(pid, accepted)))
  {
    hide Sound, RequestOf, Matches;
    var t := Step(h, s, Write(pid, accepted));
    assert PhaseOk(h, s, s.running[pid]);
    assert t.lines == s.lines;
    forall e ensures Recorded(s, e) <==> Recorded(t, e) {}
  }

  lemma StepKeepsInv(h: Hashes, s: State, a: Action)
    requires Inv(h, s)
    ensures Inv(h, Step(h, s, a)) && Keeps(s, Step(h, s, a))
  {
    hide Sound, ConsumeStep, IsSha256, Inv;
    InvSound(h, s);
    match a
    case Begin(pid, job, accepted) => ChangeKeepsInv(h, s, Step(h, s, a), pid);
    case Consume(pid, now) =>
      if pid in s.running && s.running[pid].Started? {
        ConsumeKeepsInv(h, s, pid, now);
      }
    case Build(pid, promotedAt, accepted) => ChangeKeepsInv(h, s, Step(h, s, a), pid);
    case Write(pid, accepted) =>
      if pid in s.running && s.running[pid].Built? {
        WriteKeepsInv(h, s, pid, accepted);
      }
    case Crash(pid) => ChangeKeepsInv(h, s, Step(h, s, a), pid);
  }

  lemma {:induction false} RunKeepsInv(h: Hashes, s: State, actions: seq<Action>)
    requires Inv(h, s)
    ensures Inv(h, Run(h, s, actions)) && Keeps(s, Run(h, s, actions))
    decreases |actions|
  {
    hide Inv, Step;
    if actions != [] {
      StepKeepsInv(h, s, actions[0]);
      RunKeepsInv(h, Step(h, s, actions[0]), actions[1..]);
    }
  }

  /** In every run with crashes and retries, an attestation on disk is backed by a passed ledger
      entry with its fingerprint that equals its receipt, and neither ever changes afterwards. */
  lemma AttestationsAreBackedByTheLedger(h: Hashes, before: seq<Action>, after: seq<Action>, model: string)
    requires model in Run(h, INITIAL, before).attestations
    ensures
      var s := Run(h, INITIAL, before);
      var t := Run(h, s, after);
      && model in t.attestations && t.attestations[model] == s.attestations[model]
      && Backed(t, t.attestations[model])
      && FingerprintsDistinct(t.lines)
  {
    hide Run, Step;
    RunKeepsInv(h, INITIAL, before);
    RunKeepsInv(h, Run(h, INITIAL, before), after);
  }

  // ----- resuming after a crash -----

  /** Two evaluations with the same tokens and inputs, authenticated at different times. */
  ghost predicate SameRequest(a: Job, b: Job) {
    PayloadOf(a) == PayloadOf(b) && a.bundle == b.bundle && a.hypothesis == b.hypothesis && a.gatesFailed == b.gatesFailed
  }

  /** The consume of a retry returns the entry that is there and adds no second one. */
  lemma RetryConsumesTheOldEntry(h: Hashes, s: State, pid: nat, now: int, between: seq<Action>,
                                 retry: nat, job: Job, later: int)
    requires Inv(h, s) && pid in s.running && s.running[pid].Started?
    requires
      var t := Step(h, s, Consume(pid, now));
      && pid in t.running && t.running[pid].Consumed?
      && SameRequest(job, s.running[pid].job)
    requires
      var u := Run(h, Step(h, s, Consume(pid, now)), between);
      retry in u.running && u.running[retry] == Started(job)
    ensures
      var entry := Step(h, s, Consume(pid, now)).running[pid].entry;
      var u := Run(h, Step(h, s, Consume(pid, now)), between);
      var v := Step(h, u, Consume(retry, later));
      v == u.(running := u.running[retry := Consumed(job, entry)])
  {
    hide ChainHolds, Acceptable, ReceiptOk;
    var t := Step(h, s, Consume(pid, now));
    var entry := t.running[pid].entry;
    var r := RequestOf(h, s.running[pid].job);
    StepKeepsInv(h, s, Consume(pid, now));
    RunKeepsInv(h, t, between);
    var u := Run(h, t, between);
    assert RequestOf(h, job) == r;
    var i := SuccessIsRecorded(h.entry, s.lines, r, now);
    hide Inv, ConsumeStep, Run;
    assert u.lines[i] == t.lines[i] == Parsed(entry);
    SoundIsDistinct(h, u);
    FindIsThere(u.lines, i);
    FoundMatch(h.entry, u.lines, r, later, entry);
  }

  /** A consumed entry whose receipt checks out gets attested: build and write go through when the
      model has no attestation yet. */
  lemma ConsumedIsAttested(h: Hashes, s: State, pid: nat, job: Job, entry: Entry, promotedAt: int)
    requires pid in s.running && s.running[pid] == Consumed(job, entry)
    requires ReceiptOk(h, job, entry) && job.model !in s.attestations
    ensures Step(h, Step(h, s, Build(pid, promotedAt, true)), Write(pid, true))
      == State(s.lines, s.attestations[job.model := AttestationOf(job, entry, promotedAt)], s.running - {pid})
  {
    hide ReceiptOk;
    var built := Step(h, s, Build(pid, promotedAt, true));
    assert built.running - {pid} == s.running - {pid};
  }

  /** A process that crashed after its consume (or any other holding the same inputs) can resume, and
      finishes: its consume returns the entry already there, and if the receipt checks out and the
      model has no attestation yet, building and writing put one on disk with that entry as its
      receipt; the ledger stays as it is. */
  lemma CrashedPromotionResumes(h: Hashes, s: State, pid: nat, now: int, between: seq<Action>,
                                retry: nat, job: Job, later: int, promotedAt: int)
    requires Inv(h, s) && pid in s.running && s.running[pid].Started?
    requires
      var t := Step(h, s, Consume(pid, now));
      && pid in t.running && t.running[pid].Consumed?
      && SameRequest(job, s.running[pid].job)
      && ReceiptOk(h, job, t.running[pid].entry)
    requires
      var u := Run(h, Step(h, s, Consume(pid, now)), between);
      retry in u.running && u.running[retry] == Started(job) && job.model !in u.attestations
    ensures
      var entry := Step(h, s, Consume(pid, now)).running[pid].entry;
      var u := Run(h, Step(h, s, Consume(pid, now)), between);
      Run(h, u, [Consume(retry, later), Build(retry, promotedAt, true), Write(retry, true)])
        == State(u.lines, u.attestations[job.model := AttestationOf(job, entry, promotedAt)], u.running - {retry})
  {
    hide Inv, Step, Run, ReceiptOk;
    RetryConsumesTheOldEntry(h, s, pid, now, between, retry, job, later);
    var entry := Step(h, s, Consume(pid, now)).running[pid].entry;
    var u := Run(h, Step(h, s, Consume(pid, now)), between);
    var v := Step(h, u, Consume(retry, later));
    ConsumedIsAttested(h, v, retry, job, entry, promotedAt);
    ThreeSteps(h, u, Consume(retry, later), Build(retry, promotedAt, true), Write(retry, true));
    assert v.running - {retry} == u.running - {retry};
  }

  lemma ThreeSteps(h: Hashes, s: State, a: Action, b: Action, c: Action)
    ensures Run(h, s, [a, b, c]) == Step(h, Step(h, Step(h, s, a), b), c)
  {
    hide Step;
    assert [a, b, c][1..] == [b, c] && [b, c][1..] == [c] && [c][1..] == [];
    var s1 := Step(h, s, a);
    assert Run(h, s1, [b, c]) == Run(h, Step(h, s1, b), [c]);
    assert Run(h, Step(h, s1, b), [c]) == Run(h, Step(h, Step(h, s1, b), c), []);
  }

  /** The receipt of a call that just appended its entry always checks out, so a call whose evidence
      is new is not refused at this point. */
  lemma FreshReceiptIsOk(h: Hashes, lines: seq<Line>, job: Job, now: int)
    requires forall c :: IsSha256(h.entry(c))
    requires !job.gatesFailed && ConsumeStep(h.entry, lines, RequestOf(h, job), now).1 != lines
    ensures
      var outcome := ConsumeStep(h.entry, lines, RequestOf(h, job), now).0;
      outcome.Success? && ReceiptOk(h, job, outcome.value)
  {
    hide IsSha256, ChainHolds;
  }

  // ----- what an attestation says -----

  /** What an attestation for an evaluation has to say: the model, candidate and evidence of the
      evaluation, its two principals in their own places, and as receipt a passed entry for its
      hypothesis, family and transaction. The evaluation's gates did not fail. */
  ghost predicate Says(h: Hashes, a: Attestation, j: Job) {
    && a.model == j.model && a.candidateSha == j.candidateSha && a.fingerprint == j.bundle.fingerprint
    && a.build == j.build && a.approver == j.approver && !j.gatesFailed
    && a.receipt.content.result == "passed" && a.receipt.content.fingerprint == j.bundle.fingerprint
    && a.receipt.content.hypothesisId == j.hypothesis.id && a.receipt.content.family == j.hypothesis.family
    && a.receipt.content.transactionId
         == h.payload(Payload(j.candidateSha, j.recordSha, j.bundle.fingerprint, j.gateConfig,
                              j.build - {"authenticated_at_utc"}, j.approver - {"authenticated_at_utc"}))
  }

  /** The run holds an accepted evaluation of this job. */
  ghost predicate Began(actions: seq<Action>, j: Job) {
    exists i :: 0 <= i < |actions| && actions[i].Begin? && actions[i].accepted && actions[i].job == j
  }

  /** The run holds an accepted build at this promotion time. */
  ghost predicate BuiltAt(actions: seq<Action>, at: int) {
    exists i :: 0 <= i < |actions| && actions[i].Build? && actions[i].accepted && actions[i].promotedAt == at
  }

  ghost predicate PhaseFrom(h: Hashes, phase: Phase, actions: seq<Action>) {
    && Began(actions, phase.job)
    && (phase.Consumed? ==> !phase.job.gatesFailed && Matches(phase.entry, RequestOf(h, phase.job)))
    && (phase.Built? ==> Says(h, phase.attestation, phase.job) && BuiltAt(actions, phase.attestation.promotedAt))
  }

  ghost predicate From(h: Hashes, a: Attestation, actions: seq<Action>) {
    BuiltAt(actions, a.promotedAt) && exists j :: Began(actions, j) && Says(h, a, j)
  }

  ghost predicate AllFrom(h: Hashes, s: State, actions: seq<Action>) {
    && (forall p :: p in s.running ==> PhaseFrom(h, s.running[p], actions))
    && (forall m :: m in s.attestations ==> From(h, s.attestations[m], actions))
  }

  lemma PastStays(actions: seq<Action>, a: Action)
    ensures forall j :: Began(actions, j) ==> Began(actions + [a], j)
    ensures forall at :: BuiltAt(actions, at) ==> BuiltAt(actions + [a], at)
    ensures a.Begin? && a.accepted ==> Began(actions + [a], a.job)
    ensures a.Build? && a.accepted ==> BuiltAt(actions + [a], a.promotedAt)
  {
    var more := actions + [a];
    assert more[|actions|] == a;
    forall j | Began(actions, j) ensures Began(more, j) {
      var i :| 0 <= i < |actions| && actions[i].Begin? && actions[i].accepted && actions[i].job == j;
      assert more[i] == actions[i];
    }
    forall at | BuiltAt(actions, at) ensures BuiltAt(more, at) {
      var i :| 0 <= i < |actions| && actions[i].Build? && actions[i].accepted && actions[i].promotedAt == at;
      assert more[i] == actions[i];
    }
  }

  lemma AllFromStays(h: Hashes, s: State, actions: seq<Action>, a: Action)
    requires AllFrom(h, s, actions)
    ensures AllFrom(h, s, actions + [a])
  {
    hide Says, Began, BuiltAt, Matches, RequestOf;
    PastStays(actions, a);
  }

  lemma BuiltSays(h: Hashes, j: Job, e: Entry, at: int)
    requires !j.gatesFailed && Matches(e, RequestOf(h, j)) && ReceiptOk(h, j, e)
    ensures Says(h, AttestationOf(j, e, at), j)
  {
    hide IsSha256;
  }

  lemma StepKeepsFrom(h: Hashes, s: State, actions: seq<Action>, a: Action)
    requires AllFrom(h, s, actions)
    ensures AllFrom(h, Step(h, s, a), actions + [a])
  {
    hide Says, Began, BuiltAt, Matches, RequestOf, ReceiptOk, ConsumeStep, AttestationOf;
    AllFromStays(h, s, actions, a);
    PastStays(actions, a);
    if a.Consume? && a.pid in s.running && s.running[a.pid].Started? {
      var r := RequestOf(h, s.running[a.pid].job);
      if ConsumeStep(h.entry, s.lines, r, a.now).0.Success? {
        ConsumedMatches(h.entry, s.lines, r, a.now);
      }
    }
    if a.Build? && a.pid in s.running && s.running[a.pid].Consumed? {
      var (j, e) := (s.running[a.pid].job, s.running[a.pid].entry);
      if ReceiptOk(h, j, e) {
        BuiltSays(h, j, e, a.promotedAt);
        BuiltWhen(j, e, a.promotedAt);
      }
    }
  }

  lemma BuiltWhen(j: Job, e: Entry, at: int)
    ensures AttestationOf(j, e, at).promotedAt == at
  {}

  lemma {:induction false} RunKeepsFrom(h: Hashes, s: State, past: seq<Action>, actions: seq<Action>)
    requires AllFrom(h, s, past)
    ensures AllFrom(h, Run(h, s, actions), past + actions)
    decreases |actions|
  {
    hide AllFrom, Step;
    if actions == [] {
      assert past + actions == past;
    } else {
      StepKeepsFrom(h, s, past, actions[0]);
      RunKeepsFrom(h, Step(h, s, actions[0]), past + [actions[0]], actions[1..]);
      assert past + actions == past + [actions[0]] + actions[1..];
    }
  }

  /** In every run with crashes and retries, an attestation on disk comes from an evaluation that was
      accepted in the run, whose gates passed, and says of it exactly what it should, at the time of an
      accepted build. */
  lemma AttestationsComeFromEvaluations(h: Hashes, actions: seq<Action>, model: string)
    requires model in Run(h, INITIAL, actions).attestations
    ensures
      var a := Run(h, INITIAL, actions).attestations[model];
      a.model == model && BuiltAt(actions, a.promotedAt) && exists j :: Began(actions, j) && Says(h, a, j)
  {
    hide Run, Says, Began, BuiltAt;
    RunKeepsFrom(h, INITIAL, [], actions);
    assert [] + actions == actions;
    RunKeepsInv(h, INITIAL, actions);
  }

  /** The receipt of a call that consumed its evidence, for itself or in an earlier attempt, checks out
      if and only if the entry is for the hypothesis and the family of this call. */
  lemma ReceiptIsOkExactlyWhen(h: Hashes, lines: seq<Line>, job: Job, now: int)
    requires forall c :: IsSha256(h.entry(c))
    requires Sound(h.entry, lines) && !job.gatesFailed && ConsumeStep(h.entry, lines, RequestOf(h, job), now).0.Success?
    ensures
      var e := ConsumeStep(h.entry, lines, RequestOf(h, job), now).0.value;
      ReceiptOk(h, job, e) <==> e.content.hypothesisId == job.hypothesis.id && e.content.family == job.hypothesis.family
  {
    hide IsSha256, FindFingerprint, Retired, Sound;
    var r := RequestOf(h, job);
    ConsumeKeepsSound(h.entry, lines, r, now);
    var i := SuccessIsRecorded(h.entry, lines, r, now);
    var (outcome, after) := ConsumeStep(h.entry, lines, r, now);
    SoundLink(h.entry, after, i);
  }

  /** Whatever the source of a receipt, one that was altered or does not come from a ledger is refused. */
  lemma AlteredReceiptIsRefused(h: Hashes, job: Job, e: Entry)
    requires e.sha != h.entry(e.content) || e.content.schema != "market_predictor.shadow_ledger_entry"
      || e.content.sequence < 1 || !IsSha256(e.sha) || !IsSha256(e.content.transactionId)
    ensures !ReceiptOk(h, job, e)
  {}

  /** A consume that succeeds leaves the outcome of the gates in the ledger, whichever it is, under the
      evidence and the transaction of its job; and only passed gates lead on to an attestation. */
  lemma GateOutcomeIsRecorded(h: Hashes, s: State, pid: nat, now: int) returns (i: nat)
    requires Inv(h, s) && pid in s.running && s.running[pid].Started?
    requires ConsumeStep(h.entry, s.lines, RequestOf(h, s.running[pid].job), now).0.Success?
    ensures
      var (j, t) := (s.running[pid].job, Step(h, s, Consume(pid, now)));
      && i < |t.lines| && t.lines[i].Parsed?
      && t.lines[i].entry.content.fingerprint == j.bundle.fingerprint
      && t.lines[i].entry.content.result == (if j.gatesFailed then "failed" else "passed")
      && t.lines[i].entry.content.transactionId == TransactionId(h, j)
      && (if j.gatesFailed then pid !in t.running
          else pid in t.running && t.running[pid] == Consumed(j, t.lines[i].entry))
  {
    hide Sound, ConsumeStep, PhaseOk;
    InvSound(h, s);
    i := SuccessIsRecorded(h.entry, s.lines, RequestOf(h, s.running[pid].job), now);
  }

  lemma SoundLink(hash: Content -> string, lines: seq<Line>, i: nat)
    requires Sound(hash, lines) && i < |lines|
    ensures LinkHolds(hash, lines, i)
  {}

  lemma SoundIsDistinct(h: Hashes, s: State)
    requires Inv(h, s)
    ensures FingerprintsDistinct(s.lines) && ChainHolds(h.entry, s.lines)
  {
    hide ChainHolds, FingerprintsDistinct;
  }

  // ----- the uninterrupted call -----

  /** The actions of one call that nothing interrupts; the process ends with the last one. */
  function WholeCall(job: Job, loaded: bool, now: int, promotedAt: int, buildable: bool, signed: bool): seq<Action> {
    [Begin(0, job, loaded), Consume(0, now), Build(0, promotedAt, buildable), Write(0, signed), Crash(0)]
  }

  lemma WholeCallEffect(h: Hashes, s: State, job: Job, loaded: bool, now: int, promotedAt: int, buildable: bool, signed: bool)
    requires s.running == map[]
    ensures
      var (consumed, lines) := ConsumeStep(h.entry, s.lines, RequestOf(h, job), now);
      Run(h, s, WholeCall(job, loaded, now, promotedAt, buildable, signed))
        == if !loaded then s
           else if consumed.Success? && !job.gatesFailed && buildable && ReceiptOk(h, job, consumed.value)
                   && signed && job.model !in s.attestations
           then State(lines, s.attestations[job.model := AttestationOf(job, consumed.value, promotedAt)], map[])
           else State(lines, s.attestations, map[])
  {
    hide ConsumeStep, ReceiptOk, RequestOf, Run;
    FiveSteps(h, s, WholeCall(job, loaded, now, promotedAt, buildable, signed));
  }

  /** The exact condition for a call to report an attestation: everything passes, and the model either
      has none yet or has this very one. */
  ghost predicate Attests(h: Hashes, s: State, job: Job, loaded: bool, now: int, promotedAt: int, buildable: bool, signed: bool) {
    var consumed := ConsumeStep(h.entry, s.lines, RequestOf(h, job), now).0;
    && loaded && consumed.Success? && !job.gatesFailed
    && buildable && ReceiptOk(h, job, consumed.value) && signed
    && (job.model in s.attestations ==> s.attestations[job.model] == AttestationOf(job, consumed.value, promotedAt))
  }

  /** Two attestations are the same exactly when model, candidate, evidence, receipt, both principals
      (with their authentication times) and the promotion time agree. */
  lemma SameAttestationExactlyWhen(a: Job, e: Entry, at: int, b: Job, f: Entry, bt: int)
    ensures AttestationOf(a, e, at) == AttestationOf(b, f, bt) <==>
      && a.model == b.model && a.candidateSha == b.candidateSha && a.bundle.fingerprint == b.bundle.fingerprint
      && e == f && a.build == b.build && a.approver == b.approver && at == bt
  {}

  /** After a call has attested, the same request at another promotion time is refused, at any later
      time and whatever happened in between: its consume returns the old entry, and neither the ledger
      nor the attestations change. */
  lemma RetryAfterAttestingIsRefused(h: Hashes, s: State, job: Job, now: int, promotedAt: int, between: seq<Action>,
                                     again: Job, later: int, laterPromotedAt: int, buildable: bool, signed: bool)
    requires Inv(h, s) && s.running == map[] && job.model !in s.attestations
    requires Attests(h, s, job, true, now, promotedAt, true, true)
    requires SameRequest(again, job) && again.model == job.model && laterPromotedAt != promotedAt
    requires Run(h, Run(h, s, WholeCall(job, true, now, promotedAt, true, true)), between).running == map[]
    ensures
      var u := Run(h, Run(h, s, WholeCall(job, true, now, promotedAt, true, true)), between);
      && ConsumeStep(h.entry, u.lines, RequestOf(h, again), later)
           == (ConsumeStep(h.entry, s.lines, RequestOf(h, job), now).0, u.lines)
      && !Attests(h, u, again, true, later, laterPromotedAt, buildable, signed)
      && Run(h, u, WholeCall(again, true, later, laterPromotedAt, buildable, signed)) == u
  {
    hide Inv, Step, Run, ReceiptOk, ConsumeStep, Recorded, Acceptable, ChainHolds, FingerprintsDistinct;
    var r := RequestOf(h, job);
    assert RequestOf(h, again) == r;
    var (consumed, lines) := ConsumeStep(h.entry, s.lines, r, now);
    var entry := consumed.value;
    WholeCallEffect(h, s, job, true, now, promotedAt, true, true);
    var t := Run(h, s, WholeCall(job, true, now, promotedAt, true, true));
    assert t.lines == lines && t.attestations[job.model] == AttestationOf(job, entry, promotedAt);
    RunKeepsInv(h, s, WholeCall(job, true, now, promotedAt, true, true));
    RunKeepsInv(h, t, between);
    var u := Run(h, t, between);
    StillConsumed(h, s, u, r, now, later);
    SameAttestationExactlyWhen(job, entry, promotedAt, again, entry, laterPromotedAt);
    WholeCallEffect(h, u, again, true, later, laterPromotedAt, buildable, signed);
    assert u == State(u.lines, u.attestations, map[]);
  }

  /** What a state consumed, any later state returns again. */
  lemma StillConsumed(h: Hashes, s: State, u: State, r: Request, now: int, later: int)
    requires Inv(h, s) && Inv(h, u) && ConsumeStep(h.entry, s.lines, r, now).0.Success?
    requires ConsumeStep(h.entry, s.lines, r, now).1 <= u.lines
    ensures ConsumeStep(h.entry, u.lines, r, later) == (ConsumeStep(h.entry, s.lines, r, now).0, u.lines)
  {
    hide ChainHolds, Acceptable, PhaseOk, Backed, ConsumeStep;
    InvSound(h, s);
    var i := SuccessIsRecorded(h.entry, s.lines, r, now);
    var after := ConsumeStep(h.entry, s.lines, r, now).1;
    assert u.lines[i] == after[i];
    SoundIsDistinct(h, u);
    FindIsThere(u.lines, i);
    FoundMatch(h.entry, u.lines, r, later, ConsumeStep(h.entry, s.lines, r, now).0.value);
  }

  datatype Outcome = GateFailed(entry: Entry) | Attested(entry: Entry, attestation: Attestation) | Refused

  /** The registry directory one call works on. */
  class Registry {
    const hashes: Hashes
    var lines: seq<Line>
    var attestations: map<string, Attestation>

    ghost function Contents(): State
      reads this
    {
      State(lines, attestations, map[])
    }

    constructor (hashes: Hashes)
      ensures this.hashes == hashes && Contents() == INITIAL
    {
      this.hashes := hashes;
      lines, attestations := [], map[];
    }

    method Consume(r: Request, now: int) returns (outcome: Result<Entry>)
      modifies this`lines
      ensures (outcome, lines) == ConsumeStep(hashes.entry, old(lines), r, now)
    {
      var file := new LedgerFile(hashes.entry);
      file.lines := lines;
      outcome := file.Consume(r, now);
      lines := file.lines;
    }

    /** One call without a crash: the effects are those of the protocol's actions in order. */
    method EvaluateShadowAndAttest(job: Job, loaded: bool, now: int, promotedAt: int, buildable: bool, signed: bool)
      returns (outcome: Outcome)
      modifies this
      ensures Contents() == Run(hashes, old(Contents()), WholeCall(job, loaded, now, promotedAt, buildable, signed))
      ensures outcome.Attested? <==> Attests(hashes, old(Contents()), job, loaded, now, promotedAt, buildable, signed)
      ensures outcome.GateFailed? <==>
        loaded && job.gatesFailed && ConsumeStep(hashes.entry, old(lines), RequestOf(hashes, job), now).0.Success?
      ensures !outcome.Refused? ==> Success(outcome.entry) == ConsumeStep(hashes.entry, old(lines), RequestOf(hashes, job), now).0
      ensures outcome.Attested? ==>
        && outcome.attestation == AttestationOf(job, outcome.entry, promotedAt)
        && Says(hashes, outcome.attestation, job)
        && outcome.attestation.receipt == outcome.entry && outcome.attestation.promotedAt == promotedAt
        && attestations == old(attestations)[job.model := outcome.attestation]
        && outcome.entry.content.result == PASSED
      ensures outcome.GateFailed? ==> outcome.entry.content.result == FAILED
      ensures !outcome.Attested? ==> attestations == old(attestations)
    {
      hide Run, ConsumeStep, ReceiptOk;
      ghost var start := Contents();
      WholeCallEffect(hashes, start, job, loaded, now, promotedAt, buildable, signed);
      if !loaded {
        return Refused;
      }
      var r := RequestOf(hashes, job);
      var consumed := Consume(r, now);
      if consumed.Failure? {
        return Refused;
      }
      var entry := consumed.value;
      ConsumedMatches(hashes.entry, start.lines, r, now);
      if !job.gatesFailed && ReceiptOk(hashes, job, entry) {
        BuiltSays(hashes, job, entry, promotedAt);
      }
      if job.gatesFailed {
        return GateFailed(entry);
      }
      if !buildable || !ReceiptOk(hashes, job, entry) {
        return Refused;
      }
      var attestation := AttestationOf(job, entry, promotedAt);
      if !signed || attestation.model in attestations {
        if signed && attestations[attestation.model] == attestation {
          return Attested(entry, attestation);
        }
        return Refused;
      }
      attestations := attestations[attestation.model := attestation];
      return Attested(entry, attestation);
    }
  }

  lemma ConsumedMatches(hash: Content -> string, lines: seq<Line>, r: Request, now: int)
    requires ConsumeStep(hash, lines, r, now).0.Success?
    ensures Matches(ConsumeStep(hash, lines, r, now).0.value, r)
  {}

  lemma FiveSteps(h: Hashes, s: State, actions: seq<Action>)
    requires |actions| == 5
    ensures Run(h, s, actions)
      == Step(h, Step(h, Step(h, Step(h, Step(h, s, actions[0]), actions[1]), actions[2]), actions[3]), actions[4])
  {
    hide Step;
    var s1 := Step(h, s, actions[0]);
    var s2 := Step(h, s1, actions[1]);
    var s3 := Step(h, s2, actions[2]);
    var s4 := Step(h, s3, actions[3]);
    assert actions[4..][1..] == [] && actions[3..][1..] == actions[4..] && actions[2..][1..] == actions[3..];
    assert actions[1..][1..] == actions[2..];
    assert Run(h, s4, actions[4..]) == Run(h, Step(h, s4, actions[4]), []);
    assert Run(h, s3, actions[3..]) == Run(h, s4, actions[4..]);
    assert Run(h, s2, actions[2..]) == Run(h, s3, actions[3..]);
    assert Run(h, s1, actions[1..]) == Run(h, s2, actions[2..]);
  }
}
