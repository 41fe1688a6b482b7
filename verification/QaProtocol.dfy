/**
  The evidence directory of scripts/pocket_hardware_qa_session.py as a state machine over single
  file operations.  A crash may fall between any two of them, so every state of a run is one the
  next command may find.  SHA-256 equality is content equality; temporary names are invisible.
*/
module QaProtocol {
  import opened Outcomes

  type CaseId = string
  type Content = seq<int>

  datatype Status = Pending | Pass | Fail

  datatype ArtifactKind = Screenshot | Photo | Video | Audio | Save | Log

  /** The deterministic ID `case-kind-number`, and the path `files/case/ID.suffix` built from it. */
  datatype ArtifactId = ArtifactId(caseId: CaseId, kind: ArtifactKind, number: nat)
  datatype EvidencePath = EvidencePath(id: ArtifactId, suffix: string)

  datatype Artifact = Artifact(id: ArtifactId, path: EvidencePath, text: string, capturedAt: int, content: Content)

  datatype Source = Source(path: string, inode: nat)

  datatype Case = Case(
    status: Status,
    startedAt: Option<int>,
    completedAt: Option<int>,
    romIds: set<string>,
    controllerIds: set<string>,
    checks: map<string, bool>,
    artifactIds: set<ArtifactId>,
    notes: string)

  datatype Manifest = Manifest(cases: map<CaseId, Case>, artifacts: map<ArtifactId, Artifact>, attestation: string)

  /** A human result file: its bytes, and what they say. */
  datatype Human = Human(caseId: CaseId, pass: bool, completedAt: int, checks: map<string, bool>, notes: string)
  datatype ResultFile = ResultFile(bytes: Content, human: Human)

  datatype Prepared = Prepared(manifest: Manifest, result: ResultFile)

  /** The active-session sidecar. */
  datatype Session = Session(
    caseId: CaseId,
    startedAt: int,
    romIds: set<string>,
    controllerIds: set<string>,
    base: Manifest,
    inventory: Content,
    artifacts: map<ArtifactId, Artifact>,
    sources: set<Source>,
    prepared: Option<Prepared>)

  /** A published file and its number of names; 2 while its temporary name still exists. */
  datatype Sidecar = Sidecar(session: Session, links: nat)
  datatype Evidence = Evidence(content: Content, links: nat)

  datatype Disk = Disk(
    manifest: Manifest,
    sidecar: Option<Sidecar>,
    files: map<EvidencePath, Evidence>,
    inventory: Content)

  /** The case record and the manifest that finishing a session with a result produces. */
  function FinishedCase(s: Session, h: Human): Case {
    Case(if h.pass then Pass else Fail, Some(s.startedAt), Some(h.completedAt), s.romIds, s.controllerIds,
         h.checks, s.artifacts.Keys, h.notes)
  }

  function Finish(s: Session, h: Human): Manifest {
    s.base.(cases := s.base.cases[s.caseId := FinishedCase(s, h)], artifacts := s.base.artifacts + s.artifacts)
  }

  predicate AllTrue(checks: map<string, bool>) { forall c :: c in checks ==> checks[c] }

  /** m is what a session and the human result of its case come to. */
  ghost predicate Records(m: Manifest, s: Session, h: Human) {
    && m.attestation == s.base.attestation
    && m.cases.Keys == s.base.cases.Keys + {s.caseId}
    && (forall c :: c in s.base.cases && c != s.caseId ==> m.cases[c] == s.base.cases[c])
    && m.artifacts.Keys == s.base.artifacts.Keys + s.artifacts.Keys
    && (forall id :: id in s.artifacts ==> m.artifacts[id] == s.artifacts[id])
    && (forall id :: id in s.base.artifacts && id !in s.artifacts ==> m.artifacts[id] == s.base.artifacts[id])
    && var c := m.cases[s.caseId];
       && (c.status == Pass <==> AllTrue(c.checks)) && c.status != Pending
       && c.checks == h.checks && c.notes == h.notes && c.completedAt == Some(h.completedAt)
       && c.startedAt == Some(s.startedAt) && c.romIds == s.romIds && c.controllerIds == s.controllerIds
       && c.artifactIds == s.artifacts.Keys
  }

  /** Of a result whose status agrees with its checks, Finish is the one manifest that records it. */
  lemma FinishRecords(s: Session, h: Human, m: Manifest)
    requires h.pass <==> AllTrue(h.checks)
    ensures Records(m, s, h) <==> m == Finish(s, h)
  {
    if Records(m, s, h) {
      assert m.cases[s.caseId] == FinishedCase(s, h);
      assert m.cases == Finish(s, h).cases && m.artifacts == Finish(s, h).artifacts;
    }
  }

  // ------------------------------------------------------------------------------------------
  // The invariant
  // ------------------------------------------------------------------------------------------

  predicate IsPending(m: Manifest, c: CaseId) { c in m.cases && m.cases[c].status == Pending }

  predicate IsComplete(m: Manifest, c: CaseId) { c in m.cases && m.cases[c].status != Pending }

  /** The recorded artifact is on disk under one name, with the recorded bytes. */
  predicate Published(d: Disk, a: Artifact) {
    a.path in d.files && d.files[a.path] == Evidence(a.content, 1)
  }

  ghost predicate RecordsPublished(d: Disk, artifacts: map<ArtifactId, Artifact>) {
    forall id :: id in artifacts ==> artifacts[id].id == artifacts[id].path.id == id && Published(d, artifacts[id])
  }

  /** Every record carries its own ID and the path built from it, and its evidence is published or gone. */
  ghost predicate RecordsNamed(d: Disk, artifacts: map<ArtifactId, Artifact>) {
    forall id :: id in artifacts ==>
      artifacts[id].id == artifacts[id].path.id == id && (artifacts[id].path in d.files ==> Published(d, artifacts[id]))
  }

  /** The evidence the active session records is on disk. */
  ghost predicate Intact(d: Disk) {
    d.sidecar.Some? ==> RecordsPublished(d, d.sidecar.value.session.artifacts)
  }

  /** The session belongs to a pending case of its base manifest and adds only new artifacts. */
  predicate SessionFits(s: Session) {
    IsPending(s.base, s.caseId) && s.artifacts.Keys !! s.base.artifacts.Keys
  }

  predicate PreparedFits(s: Session, p: Prepared) { p.manifest == Finish(s, p.result.human) }

  ghost predicate Inv(d: Disk) {
    && RecordsPublished(d, d.manifest.artifacts)
    && (d.sidecar.Some? ==>
          var s := d.sidecar.value.session;
          && 1 <= d.sidecar.value.links <= 2
          && (d.sidecar.value.links == 2 ==> s.artifacts == map[] && s.prepared.None?)
          && SessionFits(s) && s.inventory == d.inventory && RecordsNamed(d, s.artifacts)
          && (s.prepared.Some? ==> RecordsPublished(d, s.artifacts))
          && (s.prepared.None? ==> d.manifest == s.base)
          && (s.prepared.Some? ==> PreparedFits(s, s.prepared.value)
                                   && d.manifest in {s.base, s.prepared.value.manifest}))
  }

  /** The four situations a command can find. */
  predicate Idle(d: Disk) { d.sidecar.None? }

  predicate OpenSession(d: Disk) {
    d.sidecar.Some? && d.sidecar.value.session.prepared.None? && d.manifest == d.sidecar.value.session.base
  }

  predicate PreparedOnBase(d: Disk) {
    d.sidecar.Some? && d.sidecar.value.session.prepared.Some? && d.manifest == d.sidecar.value.session.base
  }

  predicate PreparedOnFinal(d: Disk) {
    d.sidecar.Some? && d.sidecar.value.session.prepared.Some? &&
    d.manifest == d.sidecar.value.session.prepared.value.manifest
  }

  lemma FinishChangesStatus(s: Session, h: Human)
    requires SessionFits(s)
    ensures IsComplete(Finish(s, h), s.caseId) && Finish(s, h) != s.base
    ensures Finish(s, h).attestation == s.base.attestation
  {}

  /** Exactly one of the four situations holds. */
  lemma ExactlyOneSituation(d: Disk)
    requires Inv(d)
    ensures Idle(d) || OpenSession(d) || PreparedOnBase(d) || PreparedOnFinal(d)
    ensures PreparedOnFinal(d) ==> !PreparedOnBase(d) && IsComplete(d.manifest, d.sidecar.value.session.caseId)
    ensures OpenSession(d) || PreparedOnBase(d) ==> IsPending(d.manifest, d.sidecar.value.session.caseId)
  {
    if d.sidecar.Some? && d.sidecar.value.session.prepared.Some? {
      FinishChangesStatus(d.sidecar.value.session, d.sidecar.value.session.prepared.value.result.human);
    }
  }

  // ------------------------------------------------------------------------------------------
  // Single file operations
  // ------------------------------------------------------------------------------------------

  /** Link a fresh sidecar for a pending case of the current manifest. */
  ghost predicate LinksSidecar(d: Disk, e: Disk) {
    && d.sidecar.None? && e.sidecar.Some? && e == d.(sidecar := e.sidecar)
    && e.sidecar.value.links == 2
    && var s := e.sidecar.value.session;
       s.base == d.manifest && s.inventory == d.inventory && s.artifacts == map[] && s.prepared.None?
       && IsPending(d.manifest, s.caseId)
  }

  /** Remove the sidecar's temporary name. */
  ghost predicate UnlinksSidecarName(d: Disk, e: Disk) {
    d.sidecar.Some? && d.sidecar.value.links == 2 && e == d.(sidecar := Some(Sidecar(d.sidecar.value.session, 1)))
  }

  /** Link evidence under a free name that no record mentions. */
  ghost predicate LinksEvidence(d: Disk, e: Disk) {
    exists p, c :: p !in d.files && !Recorded(d, p) && e == d.(files := d.files[p := Evidence(c, 2)])
  }

  /** Remove an evidence file's temporary name. */
  ghost predicate UnlinksEvidenceName(d: Disk, e: Disk) {
    exists p :: p in d.files && d.files[p].links == 2 && e == d.(files := d.files[p := Evidence(d.files[p].content, 1)])
  }

  predicate Recorded(d: Disk, p: EvidencePath) {
    || (p.id in d.manifest.artifacts && d.manifest.artifacts[p.id].path == p)
    || (d.sidecar.Some? && p.id in d.sidecar.value.session.artifacts
        && d.sidecar.value.session.artifacts[p.id].path == p)
  }

  /** Remove evidence that no record mentions. */
  ghost predicate RetractsEvidence(d: Disk, e: Disk) {
    exists p :: p in d.files && !Recorded(d, p) && e == d.(files := d.files - {p})
  }

  /**
    Remove evidence that the session already records: ingest_artifact takes its file back whenever
    recording it raises, also when that happens after the sidecar was replaced.
  */
  ghost predicate LosesEvidence(d: Disk, e: Disk) {
    exists p :: p in d.files && e == d.(files := d.files - {p}) && RecordedBySession(d, p)
  }

  predicate RecordedBySession(d: Disk, p: EvidencePath) {
    && d.sidecar.Some? && d.sidecar.value.session.prepared.None?
    && p.id in d.sidecar.value.session.artifacts && d.sidecar.value.session.artifacts[p.id].path == p
  }

  function WithArtifact(s: Session, a: Artifact, source: Source): Session {
    s.(artifacts := s.artifacts[a.id := a], sources := s.sources + {source})
  }

  /** Replace the sidecar by one that records a published artifact. */
  ghost predicate RecordsArtifact(d: Disk, e: Disk) {
    exists a: Artifact, source: Source ::
      && d.sidecar.Some? && d.sidecar.value.links == 1 && d.sidecar.value.session.prepared.None?
      && Published(d, a) && a.path.id == a.id
      && a.id !in d.sidecar.value.session.artifacts && a.id !in d.manifest.artifacts
      && e == d.(sidecar := Some(Sidecar(WithArtifact(d.sidecar.value.session, a, source), 1)))
  }

  function WithPrepared(s: Session, result: ResultFile): Session {
    s.(prepared := Some(Prepared(Finish(s, result.human), result)))
  }

  /** Replace the sidecar by one that names the manifest about to be published. */
  ghost predicate PreparesFinish(d: Disk, e: Disk) {
    exists result: ResultFile ::
      && d.sidecar.Some? && d.sidecar.value.links == 1 && d.sidecar.value.session.prepared.None?
      && RecordsPublished(d, d.sidecar.value.session.artifacts)
      && e == d.(sidecar := Some(Sidecar(WithPrepared(d.sidecar.value.session, result), 1)))
  }

  /** Replace the manifest by the prepared one. */
  ghost predicate PublishesManifest(d: Disk, e: Disk) {
    PreparedOnBase(d) && e == d.(manifest := d.sidecar.value.session.prepared.value.manifest)
  }

  /** Remove the sidecar of a published finish. */
  ghost predicate RemovesSidecar(d: Disk, e: Disk) {
    PreparedOnFinal(d) && e == d.(sidecar := None)
  }

  ghost predicate Next(d: Disk, e: Disk) {
    || LinksSidecar(d, e) || UnlinksSidecarName(d, e)
    || LinksEvidence(d, e) || UnlinksEvidenceName(d, e) || RetractsEvidence(d, e) || LosesEvidence(d, e)
    || RecordsArtifact(d, e) || PreparesFinish(d, e) || PublishesManifest(d, e) || RemovesSidecar(d, e)
  }

  lemma EvidenceStepKeepsInv(d: Disk, e: Disk)
    requires Inv(d) && (LinksEvidence(d, e) || UnlinksEvidenceName(d, e) || RetractsEvidence(d, e))
    ensures Inv(e) && (Intact(d) ==> Intact(e))
  {
    forall a: Artifact | Published(d, a) && a.path.id == a.id && Recorded(d, a.path) ensures Published(e, a) {}
    KeepsRecords(d, e, d.manifest.artifacts);
    if d.sidecar.Some? && Intact(d) { KeepsRecords(d, e, d.sidecar.value.session.artifacts); }
  }

  lemma KeepsRecords(d: Disk, e: Disk, artifacts: map<ArtifactId, Artifact>)
    requires RecordsPublished(d, artifacts) && d.manifest == e.manifest && d.sidecar == e.sidecar
    requires artifacts == d.manifest.artifacts || (d.sidecar.Some? && artifacts == d.sidecar.value.session.artifacts)
    requires forall a: Artifact :: Published(d, a) && a.path.id == a.id && Recorded(d, a.path) ==> Published(e, a)
    ensures RecordsPublished(e, artifacts)
  {
    forall id | id in artifacts ensures Published(e, artifacts[id]) {
      assert Recorded(d, artifacts[id].path);
    }
  }

  lemma LossKeepsInv(d: Disk, e: Disk)
    requires Inv(d) && LosesEvidence(d, e)
    ensures Inv(e) && !Intact(e)
  {
    var p :| p in d.files && e == d.(files := d.files - {p}) && RecordedBySession(d, p);
    var s := d.sidecar.value.session;
    assert !Published(e, s.artifacts[p.id]);
    forall id | id in d.manifest.artifacts ensures Published(e, d.manifest.artifacts[id]) {
      assert Published(d, d.manifest.artifacts[id]) && id != p.id;
    }
  }

  lemma SidecarStepKeepsInv(d: Disk, e: Disk)
    requires Inv(d)
    requires LinksSidecar(d, e) || UnlinksSidecarName(d, e) || RecordsArtifact(d, e)
             || PreparesFinish(d, e) || RemovesSidecar(d, e)
    ensures Inv(e) && (Intact(d) ==> Intact(e))
  {
    if RecordsArtifact(d, e) {
      var a: Artifact, source: Source :|
        Published(d, a) && a.path.id == a.id
        && a.id !in d.sidecar.value.session.artifacts && a.id !in d.manifest.artifacts
        && e == d.(sidecar := Some(Sidecar(WithArtifact(d.sidecar.value.session, a, source), 1)));
      assert RecordsNamed(e, e.sidecar.value.session.artifacts);
      if Intact(d) { assert RecordsPublished(e, e.sidecar.value.session.artifacts); }
    } else if PreparesFinish(d, e) {
      var result: ResultFile :| e == d.(sidecar := Some(Sidecar(WithPrepared(d.sidecar.value.session, result), 1)));
      assert Finish(e.sidecar.value.session, result.human) == Finish(d.sidecar.value.session, result.human);
    }
  }

  lemma PublishKeepsInv(d: Disk, e: Disk)
    requires Inv(d) && PublishesManifest(d, e)
    ensures Inv(e) && Intact(e)
  {
    assert RecordsPublished(e, e.manifest.artifacts);
  }

  /** Every file operation of the recorder keeps the invariant. */
  lemma NextKeepsInv(d: Disk, e: Disk)
    requires Inv(d) && Next(d, e)
    ensures Inv(e)
  {
    if LinksEvidence(d, e) || UnlinksEvidenceName(d, e) || RetractsEvidence(d, e) {
      EvidenceStepKeepsInv(d, e);
    } else if LosesEvidence(d, e) {
      LossKeepsInv(d, e);
    } else if PublishesManifest(d, e) {
      PublishKeepsInv(d, e);
    } else {
      SidecarStepKeepsInv(d, e);
    }
  }

  /** The session's evidence stays complete exactly when none of it is taken back after it was recorded. */
  lemma IntactUnlessLost(d: Disk, e: Disk)
    requires Inv(d) && Next(d, e) && Intact(d)
    ensures Intact(e) <==> !LosesEvidence(d, e)
  {
    if LosesEvidence(d, e) {
      LossKeepsInv(d, e);
    } else if LinksEvidence(d, e) || UnlinksEvidenceName(d, e) || RetractsEvidence(d, e) {
      EvidenceStepKeepsInv(d, e);
    } else if PublishesManifest(d, e) {
      PublishKeepsInv(d, e);
    } else {
      SidecarStepKeepsInv(d, e);
    }
  }

  /** Lost evidence does not come back, and its case is never published. */
  lemma LossStays(d: Disk, e: Disk)
    requires Inv(d) && Next(d, e) && !Intact(d)
    ensures !Intact(e) && e.manifest == d.manifest
  {
    var s := d.sidecar.value.session;
    var id :| id in s.artifacts && !Published(d, s.artifacts[id]);
    assert Recorded(d, s.artifacts[id].path) && s.artifacts[id].path !in d.files;
    assert e.sidecar.Some? && id in e.sidecar.value.session.artifacts
           && e.sidecar.value.session.artifacts[id] == s.artifacts[id];
    assert !Published(e, s.artifacts[id]);
  }

  // ------------------------------------------------------------------------------------------
  // Whole runs
  // ------------------------------------------------------------------------------------------

  /** Operation i leads from state i - 1 to state i. */
  ghost predicate StepAt(run: seq<Disk>, i: nat)
    requires 0 < i < |run|
  {
    Next(run[i - 1], run[i])
  }

  /** Any number of commands, each possibly cut off by a crash: a chain of single operations. */
  ghost predicate Run(run: seq<Disk>) {
    run != [] && Inv(run[0]) && forall i: nat :: 0 < i < |run| ==> StepAt(run, i)
  }

  lemma {:induction false} RunInv(run: seq<Disk>, i: nat)
    requires Run(run) && i < |run|
    ensures Inv(run[i])
  {
    if i > 0 {
      RunInv(run, i - 1);
      assert StepAt(run, i);
      NextKeepsInv(run[i - 1], run[i]);
    }
  }

  /** Operation i of the run takes recorded evidence back. */
  ghost predicate LossAt(run: seq<Disk>, i: nat)
    requires 0 < i < |run|
  {
    LosesEvidence(run[i - 1], run[i])
  }

  /** Over a whole run the session's evidence stays complete exactly when no operation loses any. */
  lemma {:induction false} RunIntact(run: seq<Disk>, i: nat, j: nat)
    requires Run(run) && i <= j < |run| && Intact(run[i])
    ensures Intact(run[j]) <==> forall k: nat :: i < k <= j ==> !LossAt(run, k)
    decreases j - i
  {
    if i < j {
      RunIntact(run, i, j - 1);
      RunInv(run, j - 1);
      assert StepAt(run, j);
      if Intact(run[j - 1]) {
        IntactUnlessLost(run[j - 1], run[j]);
        assert LossAt(run, j) <==> LosesEvidence(run[j - 1], run[j]);
      } else {
        LossStays(run[j - 1], run[j]);
      }
    }
  }

  /** Once evidence is lost the manifest never changes again: no case is published after it. */
  lemma {:induction false} LostForGood(run: seq<Disk>, i: nat, j: nat)
    requires Run(run) && i <= j < |run| && !Intact(run[i])
    ensures !Intact(run[j]) && run[j].manifest == run[i].manifest
    decreases j - i
  {
    if i < j {
      LostForGood(run, i, j - 1);
      RunInv(run, j - 1);
      assert StepAt(run, j);
      LossStays(run[j - 1], run[j]);
    }
  }

  /** n keeps m's attestation, completed cases and recorded artifacts. */
  ghost predicate Keeps(m: Manifest, n: Manifest) {
    && n.attestation == m.attestation
    && (forall c :: IsComplete(m, c) ==> IsComplete(n, c) && n.cases[c] == m.cases[c])
    && (forall id :: id in m.artifacts ==> id in n.artifacts && n.artifacts[id] == m.artifacts[id])
  }

  /** One operation leaves the manifest alone, or completes one pending case and adds its artifacts. */
  lemma NextManifest(d: Disk, e: Disk)
    requires Inv(d) && Next(d, e)
    ensures Keeps(d.manifest, e.manifest) && e.inventory == d.inventory
  {}

  lemma KeepsTransitive(a: Manifest, b: Manifest, c: Manifest)
    requires Keeps(a, b) && Keeps(b, c)
    ensures Keeps(a, c)
  {}

  /**
    Over a whole run the attestation and the inventory never change, and completed cases and recorded
    artifacts stay.
  */
  lemma {:induction false} RunManifest(run: seq<Disk>, i: nat, j: nat)
    requires Run(run) && i <= j < |run|
    ensures Keeps(run[i].manifest, run[j].manifest) && run[j].inventory == run[i].inventory
    decreases j - i
  {
    if i < j {
      RunManifest(run, i, j - 1);
      RunInv(run, j - 1);
      assert StepAt(run, j);
      NextManifest(run[j - 1], run[j]);
      KeepsTransitive(run[i].manifest, run[j - 1].manifest, run[j].manifest);
    }
  }

  /** Evidence recorded in a manifest stays on disk with the recorded bytes for the rest of the run. */
  lemma RecordedEvidenceStays(run: seq<Disk>, i: nat, j: nat, id: ArtifactId)
    requires Run(run) && i <= j < |run| && id in run[i].manifest.artifacts
    ensures Published(run[j], run[i].manifest.artifacts[id])
  {
    RunManifest(run, i, j);
    RunInv(run, j);
  }

  /** Operation i of the run completes case c. */
  ghost predicate Completes(run: seq<Disk>, i: nat, c: CaseId)
    requires 0 < i < |run|
  {
    IsPending(run[i - 1].manifest, c) && IsComplete(run[i].manifest, c)
  }

  /** A case is published at most once. */
  lemma PublishedAtMostOnce(run: seq<Disk>, i: nat, j: nat, c: CaseId)
    requires Run(run) && 0 < i < |run| && 0 < j < |run| && Completes(run, i, c) && Completes(run, j, c)
    ensures i == j
  {
    if i < j { RunManifest(run, i, j - 1); }
    if j < i { RunManifest(run, j, i - 1); }
  }

  /**
    While a finish is prepared, the only possible changes to manifest and sidecar are to publish it and
    then to remove the sidecar.
  */
  lemma PreparedLeadsOnlyToItsManifest(d: Disk, e: Disk)
    requires Inv(d) && Next(d, e) && d.sidecar.Some? && d.sidecar.value.session.prepared.Some?
    ensures var final := d.sidecar.value.session.prepared.value.manifest;
            || (e.manifest == d.manifest && e.sidecar == d.sidecar)
            || (PreparedOnBase(d) && e.manifest == final && e.sidecar == d.sidecar)
            || (PreparedOnFinal(d) && e.manifest == final && e.sidecar.None?)
  {}

  lemma RunAppend(run: seq<Disk>, next: Disk)
    requires Run(run) && Next(run[|run| - 1], next)
    ensures Run(run + [next])
  {
    forall i: nat | 0 < i < |run + [next]| ensures StepAt(run + [next], i) {
      if i < |run| { assert StepAt(run, i); }
    }
  }

  /**
    However often a prepared finish is interrupted, the next state without its sidecar has exactly the
    prepared manifest.
  */
  lemma {:induction false} PreparedOutcome(run: seq<Disk>, i: nat, j: nat)
    requires Run(run) && i <= j < |run|
    requires run[i].sidecar.Some? && run[i].sidecar.value.session.prepared.Some?
    requires forall k: nat :: i <= k < j ==> run[k].sidecar.Some?
    ensures run[j].sidecar.Some? ==> run[j].sidecar == run[i].sidecar
    ensures run[j].sidecar.None? ==> run[j].manifest == run[i].sidecar.value.session.prepared.value.manifest
    decreases j - i
  {
    if i < j {
      PreparedOutcome(run, i, j - 1);
      RunInv(run, j - 1);
      assert StepAt(run, j);
      PreparedLeadsOnlyToItsManifest(run[j - 1], run[j]);
    }
  }
}
