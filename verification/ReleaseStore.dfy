/** The content-addressed release store (release.py): publishing, activation and rollback by
    several processes, step by step at the file system, with a crash possible between any two steps.

    File contents are text, the three hashes are uninterpreted functions, a rename is atomic, and a
    process that dies releases its file locks. The checks on the released model, its attestation
    and its evidence are one uninterpreted predicate on the directory (`trusted`). */
module ReleaseStore {
  import opened Prelude

  datatype Asset = Asset(kind: string, destination: string, sha: string)

  datatype Identity = Identity(modelPath: string, manifestPath: string, attestationPath: string, evidencePath: string,
                               attestationId: string, assets: seq<Asset>, generatedAt: string)

  /** The release manifest: the identity and the release id. */
  datatype Manifest = Manifest(identity: Identity, releaseId: string)

  datatype Dir = Dir(files: map<string, string>, manifest: Option<Manifest>)

  datatype PointerContent = PointerContent(releaseId: string, manifestSha: string, previous: Option<string>, activatedAt: int)

  datatype Pointer = Pointer(content: PointerContent, sha: string)

  datatype Hashes = Hashes(file: string -> string, identity: Identity -> string, manifest: Manifest -> string,
                           pointer: PointerContent -> string, trusted: Dir -> bool)

  const REQUIRED_KINDS: set<string> := {"model", "candidate_manifest", "promotion_attestation", "evidence_manifest"}

  // ----- verifying a release directory -----

  function IsKind(kind: string): Asset -> bool {
    (a: Asset) => a.kind == kind
  }

  /** Exactly one asset has the kind, and it is at the given path. */
  predicate OnlyAsset(assets: seq<Asset>, kind: string, path: string) {
    |Filter(IsKind(kind), assets)| == 1 && Filter(IsKind(kind), assets)[0].destination == path
  }

  predicate DistinctDestinations(assets: seq<Asset>) {
    forall i, j :: 0 <= i < j < |assets| ==> assets[i].destination != assets[j].destination
  }

  predicate AssetsIntact(h: Hashes, dir: Dir, assets: seq<Asset>) {
    forall i :: 0 <= i < |assets| ==>
      assets[i].destination in dir.files && h.file(dir.files[assets[i].destination]) == assets[i].sha
  }

  predicate WellFormed(identity: Identity) {
    && identity.assets != []
    && DistinctDestinations(identity.assets)
    && OnlyAsset(identity.assets, "model", identity.modelPath)
    && OnlyAsset(identity.assets, "candidate_manifest", identity.manifestPath)
    && OnlyAsset(identity.assets, "promotion_attestation", identity.attestationPath)
    && OnlyAsset(identity.assets, "evidence_manifest", identity.evidencePath)
    && (forall i :: 0 <= i < |identity.assets| ==> identity.assets[i].kind in REQUIRED_KINDS + {"evidence_file"})
    && identity.generatedAt != ""
  }

  /** The asset at `i`, and no other one, has the kind, and it is at the given path. */
  ghost predicate OnlyAt(assets: seq<Asset>, i: nat, kind: string, path: string) {
    && i < |assets| && assets[i].kind == kind && assets[i].destination == path
    && forall j :: 0 <= j < |assets| && j != i ==> assets[j].kind != kind
  }

  ghost predicate HasOnly(assets: seq<Asset>, kind: string, path: string) {
    exists i: nat :: OnlyAt(assets, i, kind, path)
  }

  lemma {:induction false} OnlyAssetIs(assets: seq<Asset>, kind: string, path: string)
    ensures OnlyAsset(assets, kind, path) <==> HasOnly(assets, kind, path)
  {
    if assets != [] {
      var rest := assets[1..];
      OnlyAssetIs(rest, kind, path);
      if assets[0].kind == kind {
        OnlyFirst(assets, kind, path);
      } else {
        if OnlyAsset(rest, kind, path) {
          var i: nat :| OnlyAt(rest, i, kind, path);
          assert forall j :: 1 <= j < |assets| ==> assets[j] == rest[j - 1];
          assert OnlyAt(assets, i + 1, kind, path);
        }
        if HasOnly(assets, kind, path) {
          var i: nat :| OnlyAt(assets, i, kind, path);
          assert OnlyAt(rest, i - 1, kind, path);
        }
      }
    }
  }

  lemma OnlyFirst(assets: seq<Asset>, kind: string, path: string)
    requires assets != [] && assets[0].kind == kind
    ensures OnlyAsset(assets, kind, path) <==> HasOnly(assets, kind, path)
  {
    var rest := assets[1..];
    assert Filter(IsKind(kind), assets) == [assets[0]] + Filter(IsKind(kind), rest);
    if HasOnly(assets, kind, path) {
      var i: nat :| OnlyAt(assets, i, kind, path);
      forall a | a in rest ensures !IsKind(kind)(a) {
        var j :| 0 <= j < |rest| && rest[j] == a;
        assert assets[j + 1] == a;
      }
      FilterNone(IsKind(kind), rest);
    }
    if OnlyAsset(assets, kind, path) {
      forall j | 0 <= j < |assets| && j != 0 ensures assets[j].kind != kind {
        FilterMember(IsKind(kind), rest, rest[j - 1]);
      }
      assert OnlyAt(assets, 0, kind, path);
    }
  }

  /** What a release has to list: at least its model, candidate manifest, attestation and evidence
      manifest, each once and where the header says, besides them only evidence files, no destination
      twice, and the time of its promotion. */
  lemma WellFormedExactlyWhen(identity: Identity)
    ensures WellFormed(identity) <==>
      && HasOnly(identity.assets, "model", identity.modelPath)
      && HasOnly(identity.assets, "candidate_manifest", identity.manifestPath)
      && HasOnly(identity.assets, "promotion_attestation", identity.attestationPath)
      && HasOnly(identity.assets, "evidence_manifest", identity.evidencePath)
      && (forall i :: 0 <= i < |identity.assets| ==>
            identity.assets[i].kind in ["model", "candidate_manifest", "promotion_attestation", "evidence_manifest", "evidence_file"])
      && (forall i, j :: 0 <= i < j < |identity.assets| ==> identity.assets[i].destination != identity.assets[j].destination)
      && identity.generatedAt != ""
  {
    hide OnlyAsset, HasOnly;
    OnlyAssetIs(identity.assets, "model", identity.modelPath);
    OnlyAssetIs(identity.assets, "candidate_manifest", identity.manifestPath);
    OnlyAssetIs(identity.assets, "promotion_attestation", identity.attestationPath);
    OnlyAssetIs(identity.assets, "evidence_manifest", identity.evidencePath);
    NoneInEmpty("model", identity.modelPath);
  }

  lemma NoneInEmpty(kind: string, path: string)
    ensures !HasOnly([], kind, path)
  {}

  predicate Verified(h: Hashes, dir: Dir, id: string) {
    && dir.manifest.Some?
    && dir.manifest.value.releaseId == id
    && h.identity(dir.manifest.value.identity) == id
    && AssetsIntact(h, dir, dir.manifest.value.identity.assets)
    && WellFormed(dir.manifest.value.identity)
    && h.trusted(dir)
  }

  /** With hashes that do not collide, a release id fixes the manifest and every asset's content. */
  lemma IdFixesTheContent(h: Hashes, a: Dir, b: Dir, id: string)
    requires forall x, y :: h.identity(x) == h.identity(y) ==> x == y
    requires forall x, y :: h.file(x) == h.file(y) ==> x == y
    requires Verified(h, a, id) && Verified(h, b, id)
    ensures a.manifest == b.manifest
    ensures forall i :: 0 <= i < |a.manifest.value.identity.assets| ==>
      var path := a.manifest.value.identity.assets[i].destination;
      path in a.files && path in b.files && a.files[path] == b.files[path]
  {
    hide WellFormed;
    assert h.identity(a.manifest.value.identity) == h.identity(b.manifest.value.identity);
  }

  // ----- the active pointer -----

  predicate PointerOk(h: Hashes, p: Pointer) {
    h.pointer(p.content) == p.sha
  }

  function PointerTo(h: Hashes, id: string, manifest: Manifest, previous: Option<string>, now: int): Pointer {
    var content := PointerContent(id, h.manifest(manifest), previous, now);
    Pointer(content, h.pointer(content))
  }

  /** What activation of a published release does to the pointer: nothing when the release is
      already active, else a new pointer that remembers the release it replaces. */
  function Activated(h: Hashes, releases: map<string, Dir>, pointer: Option<Pointer>, id: string, now: int): Result<Pointer> {
    if id !in releases || !Verified(h, releases[id], id) then Failure("release")
    else if pointer.Some? && !PointerOk(h, pointer.value) then Failure("pointer")
    else if pointer.Some? && pointer.value.content.releaseId == id then Success(pointer.value)
    else
      var previous := if pointer.Some? then Some(pointer.value.content.releaseId) else None;
      Success(PointerTo(h, id, releases[id].manifest.value, previous, now))
  }

  /** Rollback may only go to the release recorded as the previous one. */
  function RolledBack(h: Hashes, releases: map<string, Dir>, pointer: Option<Pointer>, id: string, now: int): Result<Pointer> {
    if pointer.None? || !PointerOk(h, pointer.value) then Failure("pointer")
    else if pointer.value.content.previous != Some(id) then Failure("target")
    else Activated(h, releases, pointer, id, now)
  }

  /** The pointer activates the release under the id: it holds the hash of its manifest, the release
      that was active before and the time, and its own hash. */
  ghost predicate Points(h: Hashes, dir: Dir, p: Pointer, id: string, previous: Option<string>, now: int) {
    && dir.manifest.Some? && p.content.manifestSha == h.manifest(dir.manifest.value)
    && p.content.releaseId == id && p.content.previous == previous && p.content.activatedAt == now
    && p.sha == h.pointer(p.content)
  }

  /** Exactly what an activation does: a release that is not there is refused, the active one leaves
      the pointer with the release it remembers as it is, and any other gets a new pointer that
      remembers the one it replaces. */
  lemma ActivationIs(h: Hashes, releases: map<string, Dir>, pointer: Option<Pointer>, id: string, now: int)
    requires ReleasesOk(h, releases) && (pointer.Some? ==> Names(h, releases, pointer.value))
    ensures
      var r := Activated(h, releases, pointer, id, now);
      if id !in releases then r.Failure?
      else if pointer.Some? && pointer.value.content.releaseId == id then r == Success(pointer.value)
      else r.Success? && Points(h, releases[id], r.value, id,
                                if pointer.Some? then Some(pointer.value.content.releaseId) else None, now)
  {
    hide AssetsIntact, WellFormed;
  }

  /** Exactly what a rollback does: only the remembered release is accepted, and the one it replaces is
      remembered in turn. */
  lemma RollbackIs(h: Hashes, releases: map<string, Dir>, pointer: Option<Pointer>, id: string, now: int)
    requires ReleasesOk(h, releases) && (pointer.Some? ==> Names(h, releases, pointer.value))
    ensures
      var r := RolledBack(h, releases, pointer, id, now);
      if pointer.Some? && pointer.value.content.previous == Some(id)
      then r.Success? && Points(h, releases[id], r.value, id, Some(pointer.value.content.releaseId), now)
      else r.Failure?
  {
    hide Verified, Activated;
    ActivationIs(h, releases, pointer, id, now);
  }

  // ----- the store and its processes -----

  datatype Phase =
    | Inventoried(identity: Identity, activate: bool)
    | Locked(identity: Identity, activate: bool)
    | Copying(identity: Identity, activate: bool, name: string, copied: nat)
    | Written(identity: Identity, activate: bool, name: string)
    | Ready(identity: Identity, activate: bool, name: string)
    | Renamed(id: string, activate: bool)
    | Activating(id: string, rollback: bool)
    | PointerLocked(id: string, rollback: bool)
    | Switching(id: string, next: Pointer)

  /** `releases`, `staging` and `pointer` are on disk; locks and phases end with their process. */
  datatype State = State(releases: map<string, Dir>, staging: map<string, Dir>, pointer: Option<Pointer>,
                         publishLock: Option<nat>, pointerLock: Option<nat>, running: map<nat, Phase>)

  datatype Action =
    | Inventory(pid: nat, identity: Identity, activate: bool)
    | LockPublish(pid: nat)
    | Stage(pid: nat, name: string)
    | Copy(pid: nat, bytes: string)
    | WriteManifest(pid: nat)
    | VerifyStaging(pid: nat)
    | Rename(pid: nat)
    | VerifyRelease(pid: nat)
    | Request(pid: nat, id: string, rollback: bool)
    | LockPointer(pid: nat)
    | CheckPointer(pid: nat, now: int)
    | SwitchPointer(pid: nat)
    | Crash(pid: nat)

  const EMPTY := State(map[], map[], None, None, None, map[])

  function Enter(s: State, pid: nat, phase: Phase): State {
    s.(running := s.running[pid := phase])
  }

  /** The process is gone: its locks are free, what it wrote stays. */
  function Stop(s: State, pid: nat): State {
    s.(running := s.running - {pid},
       publishLock := if s.publishLock == Some(pid) then None else s.publishLock,
       pointerLock := if s.pointerLock == Some(pid) then None else s.pointerLock)
  }

  /** Leaves the publish lock and goes on to activate, or ends. */
  function Publishing(s: State, pid: nat, id: string, activate: bool): State {
    var t := Stop(s, pid);
    if activate then Enter(t, pid, Activating(id, false)) else t
  }

  /** Under the publish lock: a release that is there is verified, any other gets a staging directory. */
  function StageStep(h: Hashes, s: State, pid: nat, identity: Identity, activate: bool, name: string): State {
    var id := h.identity(identity);
    if id in s.releases then
      if Verified(h, s.releases[id], id) then Publishing(s, pid, id, activate) else Stop(s, pid)
    else if name in s.staging then s
    else Enter(s.(staging := s.staging[name := Dir(map[], None)]), pid, Copying(identity, activate, name, 0))
  }

  function CopyStep(s: State, pid: nat, identity: Identity, activate: bool, name: string, copied: nat, bytes: string): State {
    if copied >= |identity.assets| || name !in s.staging then s
    else
      var dir := s.staging[name];
      var path := identity.assets[copied].destination;
      Enter(s.(staging := s.staging[name := dir.(files := dir.files[path := bytes])]),
            pid, Copying(identity, activate, name, copied + 1))
  }

  function WriteManifestStep(h: Hashes, s: State, pid: nat, identity: Identity, activate: bool, name: string, copied: nat): State {
    if copied < |identity.assets| || name !in s.staging then s
    else
      var dir := s.staging[name];
      var manifest := Manifest(identity, h.identity(identity));
      Enter(s.(staging := s.staging[name := dir.(manifest := Some(manifest))]), pid, Written(identity, activate, name))
  }

  function VerifyStagingStep(h: Hashes, s: State, pid: nat, identity: Identity, activate: bool, name: string): State {
    if name in s.staging && Verified(h, s.staging[name], h.identity(identity))
    then Enter(s, pid, Ready(identity, activate, name))
    else Stop(s.(staging := s.staging - {name}), pid)
  }

  function RenameStep(h: Hashes, s: State, pid: nat, identity: Identity, activate: bool, name: string): State {
    if name !in s.staging then s
    else
      var id := h.identity(identity);
      Enter(s.(releases := s.releases[id := s.staging[name]], staging := s.staging - {name}), pid, Renamed(id, activate))
  }

  function VerifyReleaseStep(h: Hashes, s: State, pid: nat, id: string, activate: bool): State {
    if id in s.releases && Verified(h, s.releases[id], id) then Publishing(s, pid, id, activate) else Stop(s, pid)
  }

  function CheckPointerStep(h: Hashes, s: State, pid: nat, id: string, rollback: bool, now: int): State {
    var next := if rollback then RolledBack(h, s.releases, s.pointer, id, now)
                else Activated(h, s.releases, s.pointer, id, now);
    if next.Failure? || Some(next.value) == s.pointer then Stop(s, pid)
    else Enter(s, pid, Switching(id, next.value))
  }

  /** One step of one process; a step that its process is not ready for does nothing. */
  function Step(h: Hashes, s: State, a: Action): State {
    var pid := a.pid;
    if a.Crash? then Stop(s, pid)
    else if a.Inventory? then
      if pid in s.running || !WellFormed(a.identity) then s else Enter(s, pid, Inventoried(a.identity, a.activate))
    else if a.Request? then
      if pid in s.running then s else Enter(s, pid, Activating(a.id, a.rollback))
    else if pid !in s.running then s
    else match (a, s.running[pid])
      case (LockPublish(_), Inventoried(identity, activate)) =>
        if s.publishLock.Some? then s
        else Enter(s.(publishLock := Some(pid)), pid, Locked(identity, activate))
      case (Stage(_, name), Locked(identity, activate)) => StageStep(h, s, pid, identity, activate, name)
      case (Copy(_, bytes), Copying(identity, activate, name, copied)) => CopyStep(s, pid, identity, activate, name, copied, bytes)
      case (WriteManifest(_), Copying(identity, activate, name, copied)) =>
        WriteManifestStep(h, s, pid, identity, activate, name, copied)
      case (VerifyStaging(_), Written(identity, activate, name)) => VerifyStagingStep(h, s, pid, identity, activate, name)
      case (Rename(_), Ready(identity, activate, name)) => RenameStep(h, s, pid, identity, activate, name)
      case (VerifyRelease(_), Renamed(id, activate)) => VerifyReleaseStep(h, s, pid, id, activate)
      case (LockPointer(_), Activating(id, rollback)) =>
        if s.pointerLock.Some? then s
        else Enter(s.(pointerLock := Some(pid)), pid, PointerLocked(id, rollback))
      case (CheckPointer(_, now), PointerLocked(id, rollback)) => CheckPointerStep(h, s, pid, id, rollback, now)
      case (SwitchPointer(_), Switching(id, next)) => Stop(s.(pointer := Some(next)), pid)
      case _ => s
  }

  function Run(h: Hashes, s: State, actions: seq<Action>): State
    decreases |actions|
  {
    if actions == [] then s else Run(h, Step(h, s, actions[0]), actions[1..])
  }

  // ----- what every step keeps -----

  ghost predicate ReleasesOk(h: Hashes, releases: map<string, Dir>) {
    forall id :: id in releases ==> Verified(h, releases[id], id)
  }

  /** An active pointer is for a published release with its manifest; the release it remembers is
      published too and is another one. */
  ghost predicate Names(h: Hashes, releases: map<string, Dir>, p: Pointer) {
    && PointerOk(h, p)
    && p.content.releaseId in releases
    && releases[p.content.releaseId].manifest.Some?
    && p.content.manifestSha == h.manifest(releases[p.content.releaseId].manifest.value)
    && (p.content.previous.Some? ==>
          p.content.previous.value in releases && p.content.previous.value != p.content.releaseId)
  }

  ghost predicate Publishes(phase: Phase) {
    phase.Locked? || phase.Copying? || phase.Written? || phase.Ready? || phase.Renamed?
  }

  ghost predicate PhaseOk(h: Hashes, s: State, pid: nat, phase: Phase) {
    && (Publishes(phase) ==> s.publishLock == Some(pid))
    && (phase.PointerLocked? || phase.Switching? ==> s.pointerLock == Some(pid))
    && (phase.Copying? || phase.Written? || phase.Ready? ==>
          h.identity(phase.identity) !in s.releases && phase.name in s.staging)
    && (phase.Ready? ==> Verified(h, s.staging[phase.name], h.identity(phase.identity)))
    && (phase.Renamed? ==> phase.id in s.releases)
    && (phase.Switching? ==> Names(h, s.releases, phase.next))
  }

  ghost predicate Inv(h: Hashes, s: State) {
    && ReleasesOk(h, s.releases)
    && (s.pointer.Some? ==> Names(h, s.releases, s.pointer.value))
    && forall p :: p in s.running ==> PhaseOk(h, s, p, s.running[p])
  }

  /** No published release is changed or removed. */
  ghost predicate Keeps(s: State, t: State) {
    forall id :: id in s.releases ==> id in t.releases && t.releases[id] == s.releases[id]
  }

  lemma ActivatedNames(h: Hashes, releases: map<string, Dir>, pointer: Option<Pointer>, id: string, now: int)
    requires ReleasesOk(h, releases)
    requires pointer.Some? ==> Names(h, releases, pointer.value)
    ensures Activated(h, releases, pointer, id, now).Success? ==> Names(h, releases, Activated(h, releases, pointer, id, now).value)
  {
    hide AssetsIntact, WellFormed;
  }

  /** A process that does not hold the publish lock cannot be affected by what the holder does
      to the staging area, and nobody is affected by one more release. */
  lemma OthersStayOk(h: Hashes, s: State, t: State, pid: nat)
    requires Inv(h, s)
    requires forall p :: p in t.running && p != pid ==> p in s.running && t.running[p] == s.running[p]
    requires Keeps(s, t)
    requires forall id :: id in t.releases ==> id in s.releases || s.publishLock == Some(pid)
    requires forall n :: n in s.staging ==> (n in t.staging && t.staging[n] == s.staging[n]) || s.publishLock == Some(pid)
    requires s.publishLock.Some? && s.publishLock != Some(pid) ==> t.publishLock == s.publishLock
    requires s.pointerLock.Some? && s.pointerLock != Some(pid) ==> t.pointerLock == s.pointerLock
    ensures forall p :: p in t.running && p != pid ==> PhaseOk(h, t, p, t.running[p])
  {
    hide Verified, PointerOk;
    forall p | p in t.running && p != pid ensures PhaseOk(h, t, p, t.running[p]) {
      assert PhaseOk(h, s, p, s.running[p]);
    }
  }

  lemma StageKeepsInv(h: Hashes, s: State, a: Action)
    requires Inv(h, s) && a.Stage? && a.pid in s.running && s.running[a.pid].Locked?
    ensures
      var p := s.running[a.pid];
      var t := StageStep(h, s, a.pid, p.identity, p.activate, a.name);
      Inv(h, t) && Keeps(s, t)
  {
    hide Verified, Names;
    var p := s.running[a.pid];
    assert PhaseOk(h, s, a.pid, p);
    OthersStayOk(h, s, StageStep(h, s, a.pid, p.identity, p.activate, a.name), a.pid);
  }

  lemma CopyKeepsInv(h: Hashes, s: State, a: Action)
    requires Inv(h, s) && a.Copy? && a.pid in s.running && s.running[a.pid].Copying?
    ensures
      var p := s.running[a.pid];
      var t := CopyStep(s, a.pid, p.identity, p.activate, p.name, p.copied, a.bytes);
      Inv(h, t) && Keeps(s, t)
  {
    hide Verified, Names;
    var p := s.running[a.pid];
    assert PhaseOk(h, s, a.pid, p);
    OthersStayOk(h, s, CopyStep(s, a.pid, p.identity, p.activate, p.name, p.copied, a.bytes), a.pid);
  }

  lemma WriteManifestKeepsInv(h: Hashes, s: State, a: Action)
    requires Inv(h, s) && a.WriteManifest? && a.pid in s.running && s.running[a.pid].Copying?
    ensures
      var p := s.running[a.pid];
      var t := WriteManifestStep(h, s, a.pid, p.identity, p.activate, p.name, p.copied);
      Inv(h, t) && Keeps(s, t)
  {
    hide Verified, Names;
    var p := s.running[a.pid];
    assert PhaseOk(h, s, a.pid, p);
    OthersStayOk(h, s, WriteManifestStep(h, s, a.pid, p.identity, p.activate, p.name, p.copied), a.pid);
  }

  lemma VerifyStagingKeepsInv(h: Hashes, s: State, a: Action)
    requires Inv(h, s) && a.VerifyStaging? && a.pid in s.running && s.running[a.pid].Written?
    ensures
      var p := s.running[a.pid];
      var t := VerifyStagingStep(h, s, a.pid, p.identity, p.activate, p.name);
      Inv(h, t) && Keeps(s, t)
  {
    hide Verified, Names;
    var p := s.running[a.pid];
    assert PhaseOk(h, s, a.pid, p);
    OthersStayOk(h, s, VerifyStagingStep(h, s, a.pid, p.identity, p.activate, p.name), a.pid);
  }

  lemma RenameKeepsInv(h: Hashes, s: State, a: Action)
    requires Inv(h, s) && a.Rename? && a.pid in s.running && s.running[a.pid].Ready?
    ensures
      var p := s.running[a.pid];
      var t := RenameStep(h, s, a.pid, p.identity, p.activate, p.name);
      Inv(h, t) && Keeps(s, t)
  {
    hide Verified, PointerOk;
    var p := s.running[a.pid];
    assert PhaseOk(h, s, a.pid, p);
    OthersStayOk(h, s, RenameStep(h, s, a.pid, p.identity, p.activate, p.name), a.pid);
  }

  lemma VerifyReleaseKeepsInv(h: Hashes, s: State, a: Action)
    requires Inv(h, s) && a.VerifyRelease? && a.pid in s.running && s.running[a.pid].Renamed?
    ensures
      var p := s.running[a.pid];
      var t := VerifyReleaseStep(h, s, a.pid, p.id, p.activate);
      Inv(h, t) && Keeps(s, t)
  {
    hide Verified, Names;
    var p := s.running[a.pid];
    assert PhaseOk(h, s, a.pid, p);
    OthersStayOk(h, s, VerifyReleaseStep(h, s, a.pid, p.id, p.activate), a.pid);
  }

  lemma LockPointerKeepsInv(h: Hashes, s: State, a: Action)
    requires Inv(h, s) && a.LockPointer?
    ensures Inv(h, Step(h, s, a)) && Keeps(s, Step(h, s, a))
  {
    hide Verified, Activated, Names, StageStep, CopyStep, WriteManifestStep, VerifyStagingStep, RenameStep, VerifyReleaseStep, CheckPointerStep;
    var t := Step(h, s, a);
    if t != s {
      assert PhaseOk(h, s, a.pid, s.running[a.pid]);
      OthersStayOk(h, s, t, a.pid);
    }
  }

  lemma CheckPointerKeepsInv(h: Hashes, s: State, a: Action)
    requires Inv(h, s) && a.CheckPointer? && a.pid in s.running && s.running[a.pid].PointerLocked?
    ensures
      var p := s.running[a.pid];
      var t := CheckPointerStep(h, s, a.pid, p.id, p.rollback, a.now);
      Inv(h, t) && Keeps(s, t)
  {
    hide Verified, Activated, Names;
    var p := s.running[a.pid];
    assert PhaseOk(h, s, a.pid, p);
    OthersStayOk(h, s, CheckPointerStep(h, s, a.pid, p.id, p.rollback, a.now), a.pid);
    ActivatedNames(h, s.releases, s.pointer, p.id, a.now);
  }

  lemma SwitchPointerKeepsInv(h: Hashes, s: State, a: Action)
    requires Inv(h, s) && a.SwitchPointer?
    ensures Inv(h, Step(h, s, a)) && Keeps(s, Step(h, s, a))
  {
    hide Verified, Activated, Names, StageStep, CopyStep, WriteManifestStep, VerifyStagingStep, RenameStep, VerifyReleaseStep, CheckPointerStep;
    var t := Step(h, s, a);
    if t != s {
      assert PhaseOk(h, s, a.pid, s.running[a.pid]);
      OthersStayOk(h, s, t, a.pid);
    }
  }

  lemma OtherStepKeepsInv(h: Hashes, s: State, a: Action)
    requires Inv(h, s)
    requires a.Crash? || a.Inventory? || a.Request? || a.LockPublish?
    ensures Inv(h, Step(h, s, a)) && Keeps(s, Step(h, s, a))
  {
    hide Verified, Names, WellFormed, StageStep, CopyStep, WriteManifestStep, VerifyStagingStep, RenameStep, VerifyReleaseStep, CheckPointerStep;
    var t := Step(h, s, a);
    if t != s {
      OthersStayOk(h, s, t, a.pid);
    }
  }

  lemma StepKeepsInv(h: Hashes, s: State, a: Action)
    requires Inv(h, s)
    ensures Inv(h, Step(h, s, a)) && Keeps(s, Step(h, s, a))
  {
    hide Inv, Keeps, StageStep, CopyStep, WriteManifestStep, VerifyStagingStep, RenameStep, VerifyReleaseStep, CheckPointerStep;
    SamePlace(h, s);
    if a.LockPointer? {
      LockPointerKeepsInv(h, s, a);
    } else if a.SwitchPointer? {
      SwitchPointerKeepsInv(h, s, a);
    } else if a.Crash? || a.Inventory? || a.Request? || a.LockPublish? {
      OtherStepKeepsInv(h, s, a);
    } else if a.pid in s.running {
      match (a, s.running[a.pid])
      case (Stage(_, _), Locked(_, _)) => StageKeepsInv(h, s, a);
      case (Copy(_, _), Copying(_, _, _, _)) => CopyKeepsInv(h, s, a);
      case (WriteManifest(_), Copying(_, _, _, _)) => WriteManifestKeepsInv(h, s, a);
      case (VerifyStaging(_), Written(_, _, _)) => VerifyStagingKeepsInv(h, s, a);
      case (Rename(_), Ready(_, _, _)) => RenameKeepsInv(h, s, a);
      case (VerifyRelease(_), Renamed(_, _)) => VerifyReleaseKeepsInv(h, s, a);
      case (CheckPointer(_, _), PointerLocked(_, _)) => CheckPointerKeepsInv(h, s, a);
      case _ =>
    }
  }

  lemma SamePlace(h: Hashes, s: State)
    ensures Keeps(s, s)
  {}

  lemma {:induction false} RunKeepsInv(h: Hashes, s: State, actions: seq<Action>)
    requires Inv(h, s)
    ensures Inv(h, Run(h, s, actions)) && Keeps(s, Run(h, s, actions))
    decreases |actions|
  {
    hide Inv, Step;
    if actions != [] {
      StepKeepsInv(h, s, actions[0]);
      RunKeepsInv(h, Step(h, s, actions[0]), actions[1..]);
    }
  }

  /** Under every interleaving and with crashes anywhere: a published release stays as it is and
      its id is the hash of its content; and the active pointer, if there is one, names a fully
      published release, so that loading the active release succeeds. */
  lemma StoreIsSafe(h: Hashes, before: seq<Action>, after: seq<Action>)
    ensures
      var s := Run(h, EMPTY, before);
      var t := Run(h, s, after);
      && Keeps(s, t)
      && ReleasesOk(h, t.releases)
      && (if t.pointer.Some?
          then Names(h, t.releases, t.pointer.value)
               && LoadActive(h, t) == Success((t.pointer.value, t.releases[t.pointer.value.content.releaseId]))
          else LoadActive(h, t).Failure?)
  {
    hide Run, Step, Verified;
    RunKeepsInv(h, EMPTY, before);
    RunKeepsInv(h, Run(h, EMPTY, before), after);
  }

  /** Reads the pointer and verifies the release it names. */
  function LoadActive(h: Hashes, s: State): Result<(Pointer, Dir)> {
    if s.pointer.None? || !PointerOk(h, s.pointer.value) then Failure("pointer")
    else
      var p := s.pointer.value;
      var id := p.content.releaseId;
      if id !in s.releases || !Verified(h, s.releases[id], id) then Failure("release")
      else if s.releases[id].manifest.None? || h.manifest(s.releases[id].manifest.value) != p.content.manifestSha
      then Failure("manifest changed")
      else Success((p, s.releases[id]))
  }

  /** Nothing altered is ever loaded, by whatever means it was altered: what loads is the active
      release, its pointer has its own hash and that of the manifest, the manifest's identity hashes to
      the release id, and every listed file to its inventoried hash. */
  lemma LoadedIsIntact(h: Hashes, s: State)
    requires LoadActive(h, s).Success?
    ensures
      var (p, dir) := LoadActive(h, s).value;
      && s.pointer == Some(p) && p.sha == h.pointer(p.content)
      && p.content.releaseId in s.releases && s.releases[p.content.releaseId] == dir
      && dir.manifest.Some? && p.content.manifestSha == h.manifest(dir.manifest.value)
      && dir.manifest.value.releaseId == h.identity(dir.manifest.value.identity) == p.content.releaseId
      && forall a :: a in dir.manifest.value.identity.assets ==>
           a.destination in dir.files && h.file(dir.files[a.destination]) == a.sha
  {
    hide WellFormed;
  }

  /** Verifying a release again right after it was renamed into place cannot fail. */
  lemma PublishedReleaseVerifies(h: Hashes, actions: seq<Action>, pid: nat)
    ensures
      var s := Run(h, EMPTY, actions);
      pid in s.running && s.running[pid].Renamed? ==>
        s.running[pid].id in s.releases && Verified(h, s.releases[s.running[pid].id], s.running[pid].id)
  {
    hide Run, Verified;
    RunKeepsInv(h, EMPTY, actions);
    var s := Run(h, EMPTY, actions);
    if pid in s.running {
      assert PhaseOk(h, s, pid, s.running[pid]);
    }
  }

  // ----- rollback -----

  /** In every reachable store, rolling back twice restores the active and the previous release. */
  lemma TwoRollbacksRestore(h: Hashes, actions: seq<Action>, first: int, second: int)
    requires
      var s := Run(h, EMPTY, actions);
      s.pointer.Some? && s.pointer.value.content.previous.Some?
    ensures
      var s := Run(h, EMPTY, actions);
      var p := s.pointer.value;
      var once := RolledBack(h, s.releases, s.pointer, p.content.previous.value, first);
      && once.Success?
      && once.value.content.releaseId == p.content.previous.value
      && once.value.content.previous == Some(p.content.releaseId)
      && var twice := RolledBack(h, s.releases, Some(once.value), p.content.releaseId, second);
      && twice.Success?
      && twice.value.content.releaseId == p.content.releaseId
      && twice.value.content.previous == p.content.previous
  {
    hide Run, Verified;
    RunKeepsInv(h, EMPTY, actions);
  }

  // ----- the uninterrupted calls -----

  function StagedFiles(assets: seq<Asset>, bytes: seq<string>): map<string, string>
    requires |assets| == |bytes|
  {
    if assets == [] then map[]
    else
      var n := |assets| - 1;
      StagedFiles(assets[..n], bytes[..n])[assets[n].destination := bytes[n]]
  }

  function StagedDir(h: Hashes, identity: Identity, bytes: seq<string>): Dir
    requires |identity.assets| == |bytes|
  {
    Dir(StagedFiles(identity.assets, bytes), Some(Manifest(identity, h.identity(identity))))
  }

  lemma {:induction false} StagedFileAt(assets: seq<Asset>, bytes: seq<string>, i: nat)
    requires |assets| == |bytes| && i < |assets| && DistinctDestinations(assets)
    ensures assets[i].destination in StagedFiles(assets, bytes)
    ensures StagedFiles(assets, bytes)[assets[i].destination] == bytes[i]
    decreases |assets|
  {
    var n := |assets| - 1;
    if i < n {
      StagedFileAt(assets[..n], bytes[..n], i);
    }
  }

  lemma {:induction false} StagedOnly(assets: seq<Asset>, bytes: seq<string>, path: string)
    requires |assets| == |bytes| && path in StagedFiles(assets, bytes)
    ensures exists i :: 0 <= i < |assets| && assets[i].destination == path
    decreases |assets|
  {
    var n := |assets| - 1;
    if path != assets[n].destination {
      StagedOnly(assets[..n], bytes[..n], path);
      var i :| 0 <= i < n && assets[..n][i].destination == path;
      assert assets[i].destination == path;
    }
  }

  /** A staged release is exactly its inventory: its manifest holds the identity and the id, each
      destination the bytes copied to it, and there is no other file. */
  lemma StagedIs(h: Hashes, identity: Identity, bytes: seq<string>)
    requires |identity.assets| == |bytes| && DistinctDestinations(identity.assets)
    ensures
      var dir := StagedDir(h, identity, bytes);
      && dir.manifest.Some? && dir.manifest.value.identity == identity && dir.manifest.value.releaseId == h.identity(identity)
      && (forall i :: 0 <= i < |bytes| ==>
            identity.assets[i].destination in dir.files && dir.files[identity.assets[i].destination] == bytes[i])
      && (forall path :: path in dir.files ==> exists i :: 0 <= i < |bytes| && identity.assets[i].destination == path)
  {
    hide DistinctDestinations, StagedFiles;
    forall i | 0 <= i < |bytes|
      ensures identity.assets[i].destination in StagedFiles(identity.assets, bytes)
      ensures StagedFiles(identity.assets, bytes)[identity.assets[i].destination] == bytes[i]
    {
      StagedFileAt(identity.assets, bytes, i);
    }
    forall path | path in StagedFiles(identity.assets, bytes)
      ensures exists i :: 0 <= i < |bytes| && identity.assets[i].destination == path
    {
      StagedOnly(identity.assets, bytes, path);
    }
  }

  /** A staged release is verified exactly when its inventory is well formed, every file was copied as
      it was inventoried, and the model, its attestation and its evidence are trusted. */
  lemma StagedIsVerifiedExactlyWhen(h: Hashes, identity: Identity, bytes: seq<string>)
    requires |identity.assets| == |bytes|
    ensures Verified(h, StagedDir(h, identity, bytes), h.identity(identity)) <==>
      && WellFormed(identity)
      && (forall i :: 0 <= i < |bytes| ==> h.file(bytes[i]) == identity.assets[i].sha)
      && h.trusted(StagedDir(h, identity, bytes))
  {
    hide DistinctDestinations, AssetsIntact, OnlyAsset;
    var dir := StagedDir(h, identity, bytes);
    if WellFormed(identity) {
      ChangedSourceIsNotPublished(h, identity, bytes);
    }
  }

  function Copies(pid: nat, bytes: seq<string>): seq<Action> {
    seq(|bytes|, i requires 0 <= i < |bytes| => Copy(pid, bytes[i]))
  }

  lemma {:induction false} RunConcat(h: Hashes, s: State, a: seq<Action>, b: seq<Action>)
    ensures Run(h, s, a + b) == Run(h, Run(h, s, a), b)
    decreases |a|
  {
    hide Step;
    if a == [] {
      assert a + b == b;
    } else {
      assert (a + b)[1..] == a[1..] + b;
      RunConcat(h, Step(h, s, a[0]), a[1..], b);
    }
  }

  lemma RunOne(h: Hashes, s: State, a: Action)
    ensures Run(h, s, [a]) == Step(h, s, a)
  {
    hide Step;
    assert [a][1..] == [];
  }

  /** The copy steps fill the staging directory with the bytes as they are read. */
  lemma {:induction false} CopiesFill(h: Hashes, s: State, pid: nat, identity: Identity, activate: bool, name: string,
                                      bytes: seq<string>, k: nat)
    requires k <= |bytes| <= |identity.assets|
    requires pid in s.running && s.running[pid] == Copying(identity, activate, name, 0)
    requires name in s.staging && s.staging[name] == Dir(map[], None)
    ensures
      var files := StagedFiles(identity.assets[..k], bytes[..k]);
      Run(h, s, Copies(pid, bytes[..k]))
        == Enter(s.(staging := s.staging[name := Dir(files, None)]), pid, Copying(identity, activate, name, k))
  {
    hide Step;
    if k == 0 {
      assert s.staging[name := Dir(map[], None)] == s.staging;
      assert s.running[pid := Copying(identity, activate, name, 0)] == s.running;
    } else {
      var n := k - 1;
      CopiesFill(h, s, pid, identity, activate, name, bytes, n);
      var t := Run(h, s, Copies(pid, bytes[..n]));
      assert Copies(pid, bytes[..k]) == Copies(pid, bytes[..n]) + [Copy(pid, bytes[n])];
      RunConcat(h, s, Copies(pid, bytes[..n]), [Copy(pid, bytes[n])]);
      RunOne(h, t, Copy(pid, bytes[n]));
      CopyOne(h, t, pid, identity, activate, name, n, bytes[n]);
      assert identity.assets[..k][..n] == identity.assets[..n] && bytes[..k][..n] == bytes[..n];
    }
  }

  lemma CopyOne(h: Hashes, s: State, pid: nat, identity: Identity, activate: bool, name: string, n: nat, bytes: string)
    requires pid in s.running && s.running[pid] == Copying(identity, activate, name, n) && n < |identity.assets|
    requires name in s.staging
    ensures
      var dir := s.staging[name];
      var more := dir.(files := dir.files[identity.assets[n].destination := bytes]);
      Step(h, s, Copy(pid, bytes))
        == Enter(s.(staging := s.staging[name := more]), pid, Copying(identity, activate, name, n + 1))
  {}

  /** The steps of one publish that nothing interrupts. */
  function PublishActions(pid: nat, identity: Identity, activate: bool, name: string, bytes: seq<string>): seq<Action> {
    [Inventory(pid, identity, activate), LockPublish(pid), Stage(pid, name)]
      + Copies(pid, bytes)
      + [WriteManifest(pid), VerifyStaging(pid), Rename(pid), VerifyRelease(pid)]
  }

  /** A process that is done with publishing: it goes on to activate the release, or it is gone. */
  ghost function After(s: State, pid: nat, id: string, activate: bool): State {
    if activate then s.(running := s.running[pid := Activating(id, false)]) else s
  }

  /** Run alone on a free store, those steps have exactly the effect of the `Publish` call: the
      release of the copied bytes appears if it verifies, and nothing else changes; the process goes on
      to activate it when that was asked for. */
  lemma SoloPublish(h: Hashes, s: State, pid: nat, identity: Identity, activate: bool, name: string, bytes: seq<string>)
    requires pid !in s.running && s.publishLock.None? && s.pointerLock != Some(pid) && name !in s.staging
    requires WellFormed(identity) && h.identity(identity) !in s.releases && |bytes| == |identity.assets|
    ensures
      var id := h.identity(identity);
      var dir := StagedDir(h, identity, bytes);
      Run(h, s, PublishActions(pid, identity, activate, name, bytes))
        == if Verified(h, dir, id) then After(s.(releases := s.releases[id := dir]), pid, id, activate) else s
  {
    hide Run, WellFormed, Verified;
    var opening := [Inventory(pid, identity, activate), LockPublish(pid), Stage(pid, name)];
    var closing := [WriteManifest(pid), VerifyStaging(pid), Rename(pid), VerifyRelease(pid)];
    var s3 := SoloStage(h, s, pid, identity, activate, name);
    RunConcat(h, s, opening, Copies(pid, bytes));
    RunConcat(h, s, opening + Copies(pid, bytes), closing);
    CopiesFill(h, s3, pid, identity, activate, name, bytes, |bytes|);
    assert identity.assets[..|bytes|] == identity.assets && bytes[..|bytes|] == bytes;
    SoloClose(h, s, Run(h, s3, Copies(pid, bytes)), pid, identity, activate, name, bytes);
  }

  lemma SoloStage(h: Hashes, s: State, pid: nat, identity: Identity, activate: bool, name: string) returns (t: State)
    requires pid !in s.running && s.publishLock.None? && name !in s.staging
    requires WellFormed(identity) && h.identity(identity) !in s.releases
    ensures t == Run(h, s, [Inventory(pid, identity, activate), LockPublish(pid), Stage(pid, name)])
    ensures t == Enter(s.(publishLock := Some(pid), staging := s.staging[name := Dir(map[], None)]),
                       pid, Copying(identity, activate, name, 0))
  {
    hide WellFormed, Verified, Run, CopyStep, WriteManifestStep, VerifyStagingStep, RenameStep, VerifyReleaseStep, CheckPointerStep;
    var a, b, c := Inventory(pid, identity, activate), LockPublish(pid), Stage(pid, name);
    RunConcat(h, s, [a, b], [c]);
    RunConcat(h, s, [a], [b]);
    assert [a] + [b] == [a, b] && [a, b] + [c] == [a, b, c];
    RunOne(h, s, a);
    RunOne(h, Step(h, s, a), b);
    t := Step(h, Step(h, Step(h, s, a), b), c);
    RunOne(h, Step(h, Step(h, s, a), b), c);
    assert t.running == s.running[pid := Copying(identity, activate, name, 0)];
  }

  lemma SoloClose(h: Hashes, s: State, full: State, pid: nat, identity: Identity, activate: bool, name: string, bytes: seq<string>)
    requires pid !in s.running && s.publishLock.None? && s.pointerLock != Some(pid) && name !in s.staging
    requires h.identity(identity) !in s.releases && |bytes| == |identity.assets|
    requires full == Enter(s.(publishLock := Some(pid), staging := s.staging[name := Dir(StagedFiles(identity.assets, bytes), None)]),
                           pid, Copying(identity, activate, name, |bytes|))
    ensures
      var id := h.identity(identity);
      var dir := StagedDir(h, identity, bytes);
      Run(h, full, [WriteManifest(pid), VerifyStaging(pid), Rename(pid), VerifyRelease(pid)])
        == if Verified(h, dir, id) then After(s.(releases := s.releases[id := dir]), pid, id, activate) else s
  {
    hide Verified, Run, StagedFiles, Step;
    var id, dir := h.identity(identity), StagedDir(h, identity, bytes);
    var a, b, c, d := WriteManifest(pid), VerifyStaging(pid), Rename(pid), VerifyRelease(pid);
    assert [a, b, c, d] == [a, b] + [c, d] && [a, b] == [a] + [b] && [c, d] == [c] + [d];
    RunConcat(h, full, [a, b], [c, d]);
    RunConcat(h, full, [a], [b]);
    var s2 := SoloVerify(h, s, full, pid, identity, activate, name, bytes);
    RunOne(h, full, a);
    RunOne(h, Step(h, full, a), b);
    RunConcat(h, s2, [c], [d]);
    RunOne(h, s2, c);
    RunOne(h, Step(h, s2, c), d);
    SoloRename(h, s, s2, pid, identity, activate, name, dir);
  }

  lemma SoloManifest(h: Hashes, s: State, full: State, pid: nat, identity: Identity, activate: bool, name: string, bytes: seq<string>)
    requires |bytes| == |identity.assets|
    requires full == Enter(s.(publishLock := Some(pid), staging := s.staging[name := Dir(StagedFiles(identity.assets, bytes), None)]),
                           pid, Copying(identity, activate, name, |bytes|))
    ensures Step(h, full, WriteManifest(pid))
      == Enter(s.(publishLock := Some(pid), staging := s.staging[name := StagedDir(h, identity, bytes)]), pid, Written(identity, activate, name))
  {
    hide Verified, StagedFiles, StageStep, CopyStep, VerifyStagingStep, RenameStep, VerifyReleaseStep, CheckPointerStep;
    var dir := StagedDir(h, identity, bytes);
    assert full.staging[name := dir] == s.staging[name := dir];
    assert full.running[pid := Written(identity, activate, name)] == s.running[pid := Written(identity, activate, name)];
  }

  lemma SoloVerified(h: Hashes, s: State, written: State, pid: nat, identity: Identity, activate: bool, name: string, dir: Dir)
    requires pid !in s.running && s.publishLock.None? && s.pointerLock != Some(pid) && name !in s.staging
    requires written == Enter(s.(publishLock := Some(pid), staging := s.staging[name := dir]), pid, Written(identity, activate, name))
    ensures Step(h, written, VerifyStaging(pid))
      == if Verified(h, dir, h.identity(identity))
         then Enter(s.(publishLock := Some(pid), staging := s.staging[name := dir]), pid, Ready(identity, activate, name))
         else s
  {
    hide Verified, StageStep, CopyStep, WriteManifestStep, RenameStep, VerifyReleaseStep, CheckPointerStep;
    assert written.staging - {name} == s.staging;
    assert written.running - {pid} == s.running;
    assert written.running[pid := Ready(identity, activate, name)] == s.running[pid := Ready(identity, activate, name)];
  }

  lemma SoloVerify(h: Hashes, s: State, full: State, pid: nat, identity: Identity, activate: bool, name: string, bytes: seq<string>)
    returns (t: State)
    requires pid !in s.running && s.publishLock.None? && s.pointerLock != Some(pid) && name !in s.staging
    requires |bytes| == |identity.assets|
    requires full == Enter(s.(publishLock := Some(pid), staging := s.staging[name := Dir(StagedFiles(identity.assets, bytes), None)]),
                           pid, Copying(identity, activate, name, |bytes|))
    ensures t == Step(h, Step(h, full, WriteManifest(pid)), VerifyStaging(pid))
    ensures
      var dir := StagedDir(h, identity, bytes);
      t == if Verified(h, dir, h.identity(identity))
           then Enter(s.(publishLock := Some(pid), staging := s.staging[name := dir]), pid, Ready(identity, activate, name))
           else s
  {
    hide Verified, StagedFiles, Step, Enter;
    SoloManifest(h, s, full, pid, identity, activate, name, bytes);
    var written := Step(h, full, WriteManifest(pid));
    SoloVerified(h, s, written, pid, identity, activate, name, StagedDir(h, identity, bytes));
    t := Step(h, written, VerifyStaging(pid));
  }

  lemma SoloRename(h: Hashes, s: State, ready: State, pid: nat, identity: Identity, activate: bool, name: string, dir: Dir)
    requires pid !in s.running && s.publishLock.None? && s.pointerLock != Some(pid) && name !in s.staging
    requires
      if Verified(h, dir, h.identity(identity))
      then ready == Enter(s.(publishLock := Some(pid), staging := s.staging[name := dir]), pid, Ready(identity, activate, name))
      else ready == s
    ensures
      var id := h.identity(identity);
      Step(h, Step(h, ready, Rename(pid)), VerifyRelease(pid))
        == if Verified(h, dir, id) then After(s.(releases := s.releases[id := dir]), pid, id, activate) else s
  {
    hide Verified, StageStep, CopyStep, WriteManifestStep, VerifyStagingStep, CheckPointerStep;
    var id := h.identity(identity);
    if Verified(h, dir, id) {
      var s3 := Step(h, ready, Rename(pid));
      assert ready.staging - {name} == s.staging;
      assert s3.releases == s.releases[id := dir];
      assert s3.running - {pid} == s.running;
      assert Step(h, s3, VerifyRelease(pid)).running == After(s, pid, id, activate).running;
    }
  }

  /** Publishing again what is there stages nothing: after the lock and one look, the process goes on
      to activate the release, or is gone. */
  lemma SoloRepublish(h: Hashes, s: State, pid: nat, identity: Identity, activate: bool, name: string)
    requires Inv(h, s) && pid !in s.running && s.publishLock.None? && s.pointerLock != Some(pid)
    requires WellFormed(identity) && h.identity(identity) in s.releases
    ensures Run(h, s, [Inventory(pid, identity, activate), LockPublish(pid), Stage(pid, name)])
      == After(s, pid, h.identity(identity), activate)
  {
    hide WellFormed, Verified, Run, CopyStep, WriteManifestStep, VerifyStagingStep, RenameStep, VerifyReleaseStep, CheckPointerStep;
    hide PhaseOk, Names;
    var a, b, c := Inventory(pid, identity, activate), LockPublish(pid), Stage(pid, name);
    RunConcat(h, s, [a, b], [c]);
    RunConcat(h, s, [a], [b]);
    assert [a] + [b] == [a, b] && [a, b] + [c] == [a, b, c];
    RunOne(h, s, a);
    RunOne(h, Step(h, s, a), b);
    var t := Step(h, Step(h, s, a), b);
    RunOne(h, t, c);
    assert t.running - {pid} == s.running;
  }

  /** Nothing happens to an inventory that is not well formed. */
  lemma {:induction false} IllFormedIsNotPublished(h: Hashes, s: State, pid: nat, identity: Identity, activate: bool, name: string,
                                                   bytes: seq<string>)
    requires pid !in s.running && !WellFormed(identity)
    ensures Run(h, s, PublishActions(pid, identity, activate, name, bytes)) == s
  {
    hide WellFormed, Step;
    var actions := PublishActions(pid, identity, activate, name, bytes);
    assert Step(h, s, actions[0]) == s by { NotStarted(h, s, pid, identity, activate); }
    forall i | 1 <= i < |actions| ensures actions[i].pid == pid && !actions[i].Inventory? && !actions[i].Request? && !actions[i].Crash? {}
    NothingRuns(h, s, pid, actions[1..]);
  }

  lemma NotStarted(h: Hashes, s: State, pid: nat, identity: Identity, activate: bool)
    requires !WellFormed(identity)
    ensures Step(h, s, Inventory(pid, identity, activate)) == s
  {
    hide WellFormed;
  }

  lemma {:induction false} NothingRuns(h: Hashes, s: State, pid: nat, actions: seq<Action>)
    requires pid !in s.running
    requires forall i :: 0 <= i < |actions| ==>
      actions[i].pid == pid && !actions[i].Inventory? && !actions[i].Request? && !actions[i].Crash?
    ensures Run(h, s, actions) == s
    decreases |actions|
  {
    if actions != [] {
      NothingRuns(h, s, pid, actions[1..]);
    }
  }

  /** The steps of one activation or rollback after its request. */
  function SwitchActions(pid: nat, now: int): seq<Action> {
    [LockPointer(pid), CheckPointer(pid, now), SwitchPointer(pid)]
  }

  /** Run alone, those steps have exactly the effect of the `Activate` or `Rollback` call: the pointer is
      switched when the call succeeds with another release, and nothing else changes. */
  lemma SoloActivate(h: Hashes, s: State, t: State, pid: nat, id: string, rollback: bool, now: int)
    requires Inv(h, s) && pid !in s.running && s.pointerLock.None? && s.publishLock != Some(pid)
    requires t == s.(running := s.running[pid := Activating(id, rollback)])
    ensures
      var u := Run(h, t, SwitchActions(pid, now));
      var was := s.pointer;
      && u == s.(pointer := u.pointer)
      && (if id !in s.releases || (rollback && !(was.Some? && was.value.content.previous == Some(id)))
             || (was.Some? && was.value.content.releaseId == id)
          then u.pointer == was
          else u.pointer.Some?
               && Points(h, s.releases[id], u.pointer.value, id, if was.Some? then Some(was.value.content.releaseId) else None, now))
  {
    hide Run, Step, Inv, Points, Names;
    var a, b, c := LockPointer(pid), CheckPointer(pid, now), SwitchPointer(pid);
    assert [a, b, c] == [a] + [b] + [c];
    RunConcat(h, t, [a] + [b], [c]);
    RunConcat(h, t, [a], [b]);
    RunOne(h, t, a);
    RunOne(h, Step(h, t, a), b);
    RunOne(h, Step(h, Step(h, t, a), b), c);
    SoloSwitch(h, s, t, pid, id, rollback, now);
    SwitchIs(h, s, id, rollback, now);
  }

  ghost function Wanted(h: Hashes, s: State, id: string, rollback: bool, now: int): Result<Pointer> {
    if rollback then RolledBack(h, s.releases, s.pointer, id, now) else Activated(h, s.releases, s.pointer, id, now)
  }

  lemma SwitchIs(h: Hashes, s: State, id: string, rollback: bool, now: int)
    requires Inv(h, s)
    ensures
      var was := s.pointer;
      var r := Wanted(h, s, id, rollback, now);
      if id !in s.releases || (rollback && !(was.Some? && was.value.content.previous == Some(id)))
           || (was.Some? && was.value.content.releaseId == id)
      then r.Failure? || Some(r.value) == was
      else r.Success? && Points(h, s.releases[id], r.value, id, if was.Some? then Some(was.value.content.releaseId) else None, now)
  {
    hide Verified, Activated, PhaseOk, Points;
    ActivationIs(h, s.releases, s.pointer, id, now);
    RollbackIs(h, s.releases, s.pointer, id, now);
  }

  lemma SoloSwitch(h: Hashes, s: State, t: State, pid: nat, id: string, rollback: bool, now: int)
    requires pid !in s.running && s.pointerLock.None? && s.publishLock != Some(pid)
    requires t == s.(running := s.running[pid := Activating(id, rollback)])
    ensures
      var r := Wanted(h, s, id, rollback, now);
      Step(h, Step(h, Step(h, t, LockPointer(pid)), CheckPointer(pid, now)), SwitchPointer(pid))
        == s.(pointer := if r.Failure? then s.pointer else Some(r.value))
  {
    hide Step, Wanted;
    SoloLock(h, s, t, pid, id, rollback);
    var locked := Step(h, t, LockPointer(pid));
    SoloCheck(h, s, locked, pid, id, rollback, now);
    SoloLast(h, s, Step(h, locked, CheckPointer(pid, now)), pid, id, Wanted(h, s, id, rollback, now));
  }

  lemma SoloLock(h: Hashes, s: State, t: State, pid: nat, id: string, rollback: bool)
    requires s.pointerLock.None? && t == s.(running := s.running[pid := Activating(id, rollback)])
    ensures Step(h, t, LockPointer(pid)) == s.(pointerLock := Some(pid), running := s.running[pid := PointerLocked(id, rollback)])
  {
    hide StageStep, CopyStep, WriteManifestStep, VerifyStagingStep, RenameStep, VerifyReleaseStep, CheckPointerStep;
    assert t.running[pid := PointerLocked(id, rollback)] == s.running[pid := PointerLocked(id, rollback)];
  }

  lemma SoloCheck(h: Hashes, s: State, locked: State, pid: nat, id: string, rollback: bool, now: int)
    requires pid !in s.running && s.pointerLock.None? && s.publishLock != Some(pid)
    requires locked == s.(pointerLock := Some(pid), running := s.running[pid := PointerLocked(id, rollback)])
    ensures
      var r := Wanted(h, s, id, rollback, now);
      Step(h, locked, CheckPointer(pid, now))
        == if r.Failure? || Some(r.value) == s.pointer then s
           else s.(pointerLock := Some(pid), running := s.running[pid := Switching(id, r.value)])
  {
    hide Activated, RolledBack, StageStep, CopyStep, WriteManifestStep, VerifyStagingStep, RenameStep, VerifyReleaseStep;
    assert locked.running - {pid} == s.running;
    var r := Wanted(h, s, id, rollback, now);
    if r.Success? {
      assert locked.running[pid := Switching(id, r.value)] == s.running[pid := Switching(id, r.value)];
    }
  }

  lemma SoloLast(h: Hashes, s: State, checked: State, pid: nat, id: string, r: Result<Pointer>)
    requires pid !in s.running && s.pointerLock.None? && s.publishLock != Some(pid)
    requires checked == if r.Failure? || Some(r.value) == s.pointer then s
                        else s.(pointerLock := Some(pid), running := s.running[pid := Switching(id, r.value)])
    ensures Step(h, checked, SwitchPointer(pid)) == s.(pointer := if r.Failure? then s.pointer else Some(r.value))
  {
    hide StageStep, CopyStep, WriteManifestStep, VerifyStagingStep, RenameStep, VerifyReleaseStep, CheckPointerStep;
    assert pid in checked.running ==> checked.running - {pid} == s.running;
  }

  class LocalReleases {
    const hashes: Hashes
    var releases: map<string, Dir>
    var pointer: Option<Pointer>

    ghost predicate Valid()
      reads this
    {
      ReleasesOk(hashes, releases) && (pointer.Some? ==> Names(hashes, releases, pointer.value))
    }

    constructor (hashes: Hashes)
      ensures this.hashes == hashes && releases == map[] && pointer == None && Valid()
    {
      this.hashes := hashes;
      releases, pointer := map[], None;
    }

    /** `bytes` are the contents read when each asset is copied, which may differ from those that
        were inventoried. The release appears complete and verified, or not at all; publishing it
        again changes nothing. */
    method Publish(identity: Identity, bytes: seq<string>) returns (r: Result<string>)
      requires Valid() && |bytes| == |identity.assets|
      modifies this`releases
      ensures Valid()
      ensures
        var id := hashes.identity(identity);
        if WellFormed(identity) && (id in old(releases) || Verified(hashes, StagedDir(hashes, identity, bytes), id))
        then
          && r == Success(id)
          && releases == (if id in old(releases) then old(releases)
                          else old(releases)[id := StagedDir(hashes, identity, bytes)])
        else r.Failure? && releases == old(releases)
    {
      hide Verified, Names, WellFormed;
      if !WellFormed(identity) {
        return Failure("inventory");
      }
      var id := hashes.identity(identity);
      if id in releases {
        assert Verified(hashes, releases[id], id);
        return Success(id);
      }
      var files: map<string, string> := map[];
      for k := 0 to |identity.assets|
        invariant files == StagedFiles(identity.assets[..k], bytes[..k])
      {
        files := files[identity.assets[k].destination := bytes[k]];
        assert identity.assets[..k + 1][..k] == identity.assets[..k] && bytes[..k + 1][..k] == bytes[..k];
      }
      assert identity.assets[..|identity.assets|] == identity.assets && bytes[..|bytes|] == bytes;
      var staging := Dir(files, Some(Manifest(identity, id)));
      if !Verified(hashes, staging, id) {
        return Failure("staging");
      }
      OneMoreRelease(hashes, releases, id, staging, pointer);
      releases := releases[id := staging];
      r := Success(id);
    }

    /** The whole call: publish, and on request activate what was published. */
    method PublishLocalRelease(identity: Identity, bytes: seq<string>, activate: bool, now: int)
      returns (r: Result<(string, Option<Pointer>)>)
      requires Valid() && |bytes| == |identity.assets|
      modifies this
      ensures Valid()
      ensures
        var id := hashes.identity(identity);
        if WellFormed(identity) && (id in old(releases) || Verified(hashes, StagedDir(hashes, identity, bytes), id))
        then
          && releases == (if id in old(releases) then old(releases)
                          else old(releases)[id := StagedDir(hashes, identity, bytes)])
          && r == Success((id, if activate then pointer else None))
          && (if activate
              then pointer.Some? && pointer.value.content.releaseId == id
                   && Success(pointer.value) == Activated(hashes, releases, old(pointer), id, now)
              else pointer == old(pointer))
        else r.Failure? && releases == old(releases) && pointer == old(pointer)
    {
      hide Verified, Names, WellFormed, Activated, StagedDir;
      var published := Publish(identity, bytes);
      if published.Failure? {
        return Failure(published.error);
      }
      if !activate {
        return Success((published.value, None));
      }
      var active := Activate(published.value, now);
      return Success((published.value, Some(active.value)));
    }

    method Activate(id: string, now: int) returns (r: Result<Pointer>)
      requires Valid()
      modifies this`pointer
      ensures Valid()
      ensures r == Activated(hashes, releases, old(pointer), id, now)
      ensures pointer == if r.Success? then Some(r.value) else old(pointer)
      ensures id in releases ==> r.Success? && r.value.content.releaseId == id
      ensures id in releases && old(pointer).Some? && old(pointer).value.content.releaseId == id ==> pointer == old(pointer)
      ensures id in releases && !(old(pointer).Some? && old(pointer).value.content.releaseId == id) ==>
        Points(hashes, releases[id], r.value, id,
               if old(pointer).Some? then Some(old(pointer).value.content.releaseId) else None, now)
    {
      hide Verified, Names;
      ActivationIs(hashes, releases, pointer, id, now);
      ActivatedNames(hashes, releases, pointer, id, now);
      ActivationSucceeds(hashes, releases, pointer, id, now);
      if id !in releases || !Verified(hashes, releases[id], id) {
        return Failure("release");
      }
      var previous: Option<string> := None;
      if pointer.Some? {
        if !PointerOk(hashes, pointer.value) {
          return Failure("pointer");
        }
        previous := Some(pointer.value.content.releaseId);
      }
      if previous == Some(id) {
        return Success(pointer.value);
      }
      ManifestIsThere(hashes, releases, id);
      var next := PointerTo(hashes, id, releases[id].manifest.value, previous, now);
      pointer := Some(next);
      r := Success(next);
    }

    method Rollback(id: string, now: int) returns (r: Result<Pointer>)
      requires Valid()
      modifies this`pointer
      ensures Valid()
      ensures r == RolledBack(hashes, releases, old(pointer), id, now)
      ensures pointer == if r.Success? then Some(r.value) else old(pointer)
      ensures r.Success? <==> old(pointer).Some? && old(pointer).value.content.previous == Some(id)
      ensures r.Success? ==> Points(hashes, releases[id], r.value, id, Some(old(pointer).value.content.releaseId), now)
    {
      hide Verified;
      RollbackIs(hashes, releases, pointer, id, now);
      if pointer.None? || !PointerOk(hashes, pointer.value) {
        return Failure("pointer");
      }
      if pointer.value.content.previous != Some(id) {
        return Failure("target");
      }
      r := Activate(id, now);
    }
  }

  /** A source that changes between inventory and copy is never published: the copied bytes pass
      the check exactly when each one still has the hash that was inventoried. */
  lemma ChangedSourceIsNotPublished(h: Hashes, identity: Identity, bytes: seq<string>)
    requires |identity.assets| == |bytes| && DistinctDestinations(identity.assets)
    ensures AssetsIntact(h, StagedDir(h, identity, bytes), identity.assets)
      <==> forall i :: 0 <= i < |bytes| ==> h.file(bytes[i]) == identity.assets[i].sha
  {
    forall i | 0 <= i < |bytes|
      ensures identity.assets[i].destination in StagedFiles(identity.assets, bytes)
      ensures StagedFiles(identity.assets, bytes)[identity.assets[i].destination] == bytes[i]
    {
      StagedFileAt(identity.assets, bytes, i);
    }
  }

  lemma OneMoreRelease(h: Hashes, releases: map<string, Dir>, id: string, dir: Dir, pointer: Option<Pointer>)
    requires ReleasesOk(h, releases) && id !in releases && Verified(h, dir, id)
    requires pointer.Some? ==> Names(h, releases, pointer.value)
    ensures ReleasesOk(h, releases[id := dir])
    ensures pointer.Some? ==> Names(h, releases[id := dir], pointer.value)
  {
    hide Verified;
  }

  lemma ManifestIsThere(h: Hashes, releases: map<string, Dir>, id: string)
    requires id in releases && Verified(h, releases[id], id)
    ensures releases[id].manifest.Some?
  {
    hide AssetsIntact, WellFormed;
  }

  lemma ActivationSucceeds(h: Hashes, releases: map<string, Dir>, pointer: Option<Pointer>, id: string, now: int)
    requires ReleasesOk(h, releases)
    requires pointer.Some? ==> Names(h, releases, pointer.value)
    ensures id in releases ==>
      && Activated(h, releases, pointer, id, now).Success?
      && Activated(h, releases, pointer, id, now).value.content.releaseId == id
  {
    hide AssetsIntact, WellFormed;
  }
}
