/**
  The commands of scripts/pocket_hardware_qa_session.py over the state machine of QaProtocol.
  Every file operation asks `faults` what happens to it, so a proof for all `faults` covers every
  failure and every crash point.
*/
module QaRecorder {
  import opened Outcomes
  import opened QaProtocol

  /** Done, failed before its effect (an exception), or the process ends before it. */
  datatype Fault = Done | Fails | Crashes

  /** Which of the operations, numbered from 0, fail and which crash. */
  datatype Faults = Faults(fails: iset<nat>, crashes: iset<nat>) {
    function At(n: nat): Fault { if n in fails then Fails else if n in crashes then Crashes else Done }
  }

  datatype SessionError =
    | OperationFailed
    | UnknownCase
    | NotPendingSkeleton
    | BadSelection
    | InvalidManifest
    | SessionActive
    | NoSession
    | SidecarHardLinked
    | ManifestChanged
    | InventoryChanged
    | FinishAlreadyPrepared
    | BadSource
    | CapturedBeforeStart
    | SourceAlreadyIngested
    | LabelAlreadyUsed
    | TooManyArtifacts
    | DestinationOccupied
    | ArtifactIdTaken
    | BadMedia
    | DuplicateEvidence
    | BadResult
    | CompletedBeforeStart
    | NoEvidence
    | EvidenceOutsideInterval
    | EvidenceChanged
    | InvalidFinish
    | PreparedMismatch
    | NothingPrepared
    | NotPublished
    | PublishedMismatch
    | ConcurrentChange

  datatype Exit<+T> = Returned(value: T) | Raised(error: SessionError) | Crashed

  /** What the recorder takes from its schema module and from media tools. */
  datatype Rules = Rules(
    checks: map<CaseId, set<string>>,
    selectionOk: (CaseId, set<string>, set<string>, Manifest) -> bool,
    verify: (Manifest, Content) -> bool,
    mediaOk: (ArtifactKind, string, Content) -> bool)

  /** The untouched pending case. */
  function Skeleton(checks: set<string>): Case {
    Case(Pending, None, None, {}, {}, map c | c in checks :: false, {}, "")
  }

  /**
    finish_case accepts this result for this session, on the manifest the session was started from:
    a result for every check of the case and with the status they imply, and evidence captured
    between the start and the completion.
  */
  predicate Finishable(rules: Rules, s: Session, result: ResultFile) {
    var h := result.human;
    && h.caseId == s.caseId && s.caseId in rules.checks && h.checks.Keys == rules.checks[s.caseId]
    && (h.pass <==> AllTrue(h.checks))
    && s.startedAt <= h.completedAt && s.artifacts != map[]
    && (forall id :: id in s.artifacts ==> s.startedAt <= s.artifacts[id].capturedAt <= h.completedAt)
    && rules.verify(s.base, s.inventory) && rules.verify(Finish(s, h), s.inventory)
  }

  /** A prepared finish has passed all checks. */
  predicate Checked(rules: Rules, d: Disk) {
    d.sidecar.Some? && d.sidecar.value.session.prepared.Some? ==>
      Finishable(rules, d.sidecar.value.session, d.sidecar.value.session.prepared.value.result)
  }

  ghost predicate CheckedRun(rules: Rules, run: seq<Disk>) { forall d :: d in run ==> Checked(rules, d) }

  /** What start_case demands: no session, and the untouched skeleton of a known case. */
  predicate Startable(rules: Rules, d: Disk, c: CaseId, roms: set<string>, controllers: set<string>) {
    && d.sidecar.None? && rules.verify(d.manifest, d.inventory)
    && c in d.manifest.cases && c in rules.checks
    && rules.selectionOk(c, roms, controllers, d.manifest)
    && var k := d.manifest.cases[c];
       && k.status == Pending && k.startedAt == k.completedAt == None && k.notes == ""
       && k.romIds == k.controllerIds == {} && k.artifactIds == {}
       && k.checks.Keys == rules.checks[c] && forall check :: check in k.checks ==> !k.checks[check]
  }

  /** The sidecar still has its temporary name. */
  predicate HalfCreated(d: Disk) { d.sidecar.Some? && d.sidecar.value.links == 2 }

  /** Some recorded non-save evidence already has these bytes. */
  predicate Duplicates(m: Manifest, s: Session, content: Content) {
    || (exists id :: id in m.artifacts && m.artifacts[id].content == content)
    || (exists id :: id in s.artifacts && s.artifacts[id].content == content)
  }

  /** n is the least number from 1 to 99 the session has not used for this kind. */
  ghost predicate IsNextNumber(s: Session, kind: ArtifactKind, n: nat) {
    && 1 <= n <= 99 && ArtifactId(s.caseId, kind, n) !in s.artifacts
    && forall m: nat :: 1 <= m < n ==> ArtifactId(s.caseId, kind, m) in s.artifacts
  }

  /** What ingest_artifact demands of the session and of the new evidence. */
  ghost predicate Ingestible(rules: Rules, d: Disk, source: Source, content: Content, kind: ArtifactKind,
                             suffix: string, text: string, capturedAt: int)
  {
    && OpenSession(d) && !HalfCreated(d)
    && var s := d.sidecar.value.session;
    && content != [] && s.startedAt <= capturedAt && source !in s.sources
    && (forall id :: id in s.artifacts ==> s.artifacts[id].text != text)
    && rules.mediaOk(kind, suffix, content)
    && (kind != Save ==> forall id :: id in d.manifest.artifacts ==> d.manifest.artifacts[id].content != content)
    && (kind != Save ==> forall id :: id in s.artifacts ==> s.artifacts[id].content != content)
  }

  /** The deterministic place of the next evidence is free. */
  ghost predicate PlaceFree(d: Disk, s: Session, kind: ArtifactKind, suffix: string) {
    exists n :: IsNextNumber(s, kind, n) && PlaceFreeFor(d, ArtifactId(s.caseId, kind, n), suffix)
  }

  predicate PlaceFreeFor(d: Disk, id: ArtifactId, suffix: string) {
    EvidencePath(id, suffix) !in d.files && id !in d.manifest.artifacts
  }

  /** _next_artifact_id */
  method NextArtifactNumber(s: Session, kind: ArtifactKind) returns (number: Option<nat>)
    ensures number.Some? ==> IsNextNumber(s, kind, number.value)
    ensures number.None? ==> forall n: nat :: 1 <= n <= 99 ==> ArtifactId(s.caseId, kind, n) in s.artifacts
  {
    for value: nat := 1 to 100
      invariant forall n: nat :: 1 <= n < value ==> ArtifactId(s.caseId, kind, n) in s.artifacts
    {
      if ArtifactId(s.caseId, kind, value) !in s.artifacts { return Some(value); }
    }
    return None;
  }

  lemma LinkEvidenceStep(d: Disk, p: EvidencePath, c: Content)
    requires p !in d.files && !Recorded(d, p)
    ensures Next(d, d.(files := d.files[p := Evidence(c, 2)]))
  {
    assert LinksEvidence(d, d.(files := d.files[p := Evidence(c, 2)]));
  }

  lemma UnlinkNameStep(d: Disk, p: EvidencePath)
    requires p in d.files && d.files[p].links == 2
    ensures Next(d, d.(files := d.files[p := Evidence(d.files[p].content, 1)]))
  {
    assert UnlinksEvidenceName(d, d.(files := d.files[p := Evidence(d.files[p].content, 1)]));
  }

  lemma RetractStep(d: Disk, p: EvidencePath)
    requires p in d.files && !Recorded(d, p)
    ensures Next(d, d.(files := d.files - {p}))
    ensures Intact(d) ==> Intact(d.(files := d.files - {p}))
  {
    assert RetractsEvidence(d, d.(files := d.files - {p}));
  }

  lemma LossStep(d: Disk, p: EvidencePath)
    requires p in d.files && RecordedBySession(d, p)
    ensures Next(d, d.(files := d.files - {p})) && !Intact(d.(files := d.files - {p}))
  {
    var e := d.(files := d.files - {p});
    assert LosesEvidence(d, e);
    assert !Published(e, e.sidecar.value.session.artifacts[p.id]);
  }

  lemma RecordStep(d: Disk, a: Artifact, source: Source)
    requires d.sidecar.Some? && d.sidecar.value.links == 1 && d.sidecar.value.session.prepared.None?
    requires Published(d, a) && a.path.id == a.id && a.id !in d.sidecar.value.session.artifacts
    requires a.id !in d.manifest.artifacts
    ensures Next(d, d.(sidecar := Some(Sidecar(WithArtifact(d.sidecar.value.session, a, source), 1))))
    ensures Intact(d) ==> Intact(d.(sidecar := Some(Sidecar(WithArtifact(d.sidecar.value.session, a, source), 1))))
  {
    assert RecordsArtifact(d, d.(sidecar := Some(Sidecar(WithArtifact(d.sidecar.value.session, a, source), 1))));
  }

  lemma PrepareStep(d: Disk, result: ResultFile)
    requires d.sidecar.Some? && d.sidecar.value.links == 1 && d.sidecar.value.session.prepared.None?
    requires RecordsPublished(d, d.sidecar.value.session.artifacts)
    ensures Next(d, d.(sidecar := Some(Sidecar(WithPrepared(d.sidecar.value.session, result), 1))))
  {
    assert PreparesFinish(d, d.(sidecar := Some(Sidecar(WithPrepared(d.sidecar.value.session, result), 1))));
  }

  class Recorder {
    const rules: Rules
    const faults: Faults
    var clock: nat
    var disk: Disk
    ghost var run: seq<Disk>

    /** The disk is the last state of a run of single operations. */
    ghost predicate Valid()
      reads this
    {
      Run(run) && run[|run| - 1] == disk && Inv(disk) && Checked(rules, disk) && CheckedRun(rules, run)
    }

    constructor (rules: Rules, faults: Faults, disk: Disk)
      requires Inv(disk) && Checked(rules, disk)
      ensures Valid() && this.disk == disk && this.rules == rules && this.faults == faults && clock == 0
    {
      this.rules, this.faults, this.disk := rules, faults, disk;
      clock, run := 0, [disk];
    }

    /** From now on no file operation fails or crashes. */
    ghost predicate Undisturbed()
      reads this
    {
      forall n: nat :: clock <= n ==> faults.At(n) == Done
    }

    /** An atomic replacement begun at c has its effect: the temporary file is written and the rename done. */
    predicate Replaces(c: nat) { faults.At(c) == Done && faults.At(c + 1) == Done }

    /** After that the removal of the temporary name raises, and the removal of the evidence goes through. */
    predicate TakesBack(c: nat) { Replaces(c) && faults.At(c + 2) == Fails && faults.At(c + 3) == Done }

    /** The sidecar is linked, and its temporary name stays: a crash, or two removals that both fail. */
    predicate LeavesTwoNames(c: nat) {
      Replaces(c) && (faults.At(c + 2) == Crashes || (faults.At(c + 2) == Fails && faults.At(c + 3) != Done))
    }

    /** The evidence is linked, and its temporary name removed. */
    predicate Links(c: nat) { Replaces(c) && faults.At(c + 2) == Done }

    /** One visible file operation. */
    method Perform(next: Disk) returns (fault: Fault)
      requires Valid() && Next(disk, next) && Checked(rules, next)
      modifies this
      ensures Valid() && disk == (if fault == Done then next else old(disk))
      ensures old(run) <= run && clock == old(clock) + 1 && fault == faults.At(old(clock))
    {
      fault := faults.At(clock);
      clock := clock + 1;
      if fault == Done {
        NextKeepsInv(disk, next);
        RunAppend(run, next);
        disk := next;
        run := run + [next];
      }
    }

    /** Work on a temporary name: it can fail or crash, and nobody sees it. */
    method Prepare() returns (fault: Fault)
      requires Valid()
      modifies this`clock
      ensures Valid() && disk == old(disk) && run == old(run)
      ensures clock == old(clock) + 1 && fault == faults.At(old(clock))
    {
      fault := faults.At(clock);
      clock := clock + 1;
    }

    /**
      _atomic_replace of the sidecar: recheck, then one rename.  The removal of the temporary name
      comes after the rename and can still raise.
    */
    method ReplaceSidecar(expected: Session, replacement: Session) returns (exit: Exit<()>)
      requires Valid()
      requires disk.sidecar == Some(Sidecar(expected, 1)) ==>
        && Next(disk, disk.(sidecar := Some(Sidecar(replacement, 1))))
        && Checked(rules, disk.(sidecar := Some(Sidecar(replacement, 1))))
      modifies this
      ensures Valid() && old(run) <= run && old(clock) <= clock
      ensures disk == if old(disk).sidecar == Some(Sidecar(expected, 1)) && Replaces(old(clock))
                      then old(disk).(sidecar := Some(Sidecar(replacement, 1))) else old(disk)
      ensures exit.Returned? <==>
        old(disk).sidecar == Some(Sidecar(expected, 1)) && Replaces(old(clock)) && faults.At(old(clock) + 2) == Done
      ensures old(disk).sidecar == Some(Sidecar(expected, 1)) && Replaces(old(clock)) ==>
        clock == old(clock) + 3 && (exit.Raised? <==> faults.At(old(clock) + 2) == Fails)
    {
      if disk.sidecar != Some(Sidecar(expected, 1)) { return Raised(ConcurrentChange); }
      var fault := Prepare();
      if fault == Done { fault := Perform(disk.(sidecar := Some(Sidecar(replacement, 1)))); }
      if fault == Done { fault := Prepare(); }
      exit := if fault == Done then Returned(()) else if fault == Fails then Raised(OperationFailed) else Crashed;
    }

    /** _atomic_replace of the manifest. */
    method ReplaceManifest(expected: Manifest, replacement: Manifest) returns (exit: Exit<()>)
      requires Valid()
      requires disk.manifest == expected ==> Next(disk, disk.(manifest := replacement))
      modifies this
      ensures Valid() && old(run) <= run && old(clock) <= clock
      ensures disk == if old(disk).manifest == expected && Replaces(old(clock))
                      then old(disk).(manifest := replacement) else old(disk)
      ensures exit.Returned? <==>
        old(disk).manifest == expected && Replaces(old(clock)) && faults.At(old(clock) + 2) == Done
    {
      if disk.manifest != expected { return Raised(ConcurrentChange); }
      var fault := Prepare();
      if fault == Done { fault := Perform(disk.(manifest := replacement)); }
      if fault == Done { fault := Prepare(); }
      exit := if fault == Done then Returned(()) else if fault == Fails then Raised(OperationFailed) else Crashed;
    }

    /** _unlink_exact */
    method RemoveSidecar(expected: Session) returns (exit: Exit<()>)
      requires Valid() && (disk.sidecar == Some(Sidecar(expected, 1)) ==> PreparedOnFinal(disk))
      modifies this
      ensures Valid() && old(run) <= run && old(clock) <= clock
      ensures disk == if exit.Returned? then old(disk).(sidecar := None) else old(disk)
      ensures exit.Returned? <==> old(disk).sidecar == Some(Sidecar(expected, 1)) && faults.At(old(clock)) == Done
    {
      if disk.sidecar != Some(Sidecar(expected, 1)) { return Raised(ConcurrentChange); }
      var fault := Perform(disk.(sidecar := None));
      if fault == Crashes { return Crashed; }
      if fault == Fails { return Raised(OperationFailed); }
      return Returned(());
    }

    /** _load_session */
    method LoadSession(allowPublished: bool) returns (exit: Exit<Session>)
      requires Valid()
      ensures !exit.Crashed?
      ensures exit.Returned? <==>
        && disk.sidecar.Some? && disk.sidecar.value.links == 1
        && (disk.manifest == disk.sidecar.value.session.base || (allowPublished && PreparedOnFinal(disk)))
      ensures exit.Returned? ==> disk.sidecar == Some(Sidecar(exit.value, 1)) && exit.value.inventory == disk.inventory
    {
      if disk.sidecar.None? { return Raised(NoSession); }
      if disk.sidecar.value.links != 1 { return Raised(SidecarHardLinked); }
      var s := disk.sidecar.value.session;
      var published := allowPublished && s.prepared.Some? && disk.manifest == s.prepared.value.manifest;
      if disk.manifest != s.base && !published { return Raised(ManifestChanged); }
      if disk.inventory != s.inventory { return Raised(InventoryChanged); }
      return Returned(s);
    }

    /** _atomic_create of the sidecar: link, then drop the temporary name, retrying once on the way out. */
    method CreateSidecar(session: Session) returns (exit: Exit<()>)
      requires Valid()
      requires disk.sidecar.None? ==> LinksSidecar(disk, disk.(sidecar := Some(Sidecar(session, 2))))
      modifies this
      ensures Valid() && old(run) <= run && old(clock) <= clock
      ensures old(disk).sidecar.Some? ==> exit == Raised(SessionActive)
      ensures exit.Returned? ==> disk == old(disk).(sidecar := Some(Sidecar(session, 1)))
      ensures !exit.Returned? ==>
        disk == old(disk) || (exists n :: 1 <= n <= 2 && disk == old(disk).(sidecar := Some(Sidecar(session, n))))
      ensures old(disk).sidecar.None? ==> (HalfCreated(disk) <==> LeavesTwoNames(old(clock)))
      ensures old(Undisturbed()) && old(disk).sidecar.None? ==> exit.Returned?
    {
      if disk.sidecar.Some? { return Raised(SessionActive); }
      var fault := Prepare();
      if fault == Crashes { return Crashed; }
      if fault == Fails { return Raised(OperationFailed); }
      fault := Perform(disk.(sidecar := Some(Sidecar(session, 2))));
      if fault == Crashes { return Crashed; }
      if fault == Fails { return Raised(OperationFailed); }
      fault := Perform(disk.(sidecar := Some(Sidecar(session, 1))));
      if fault == Done {
        fault := Prepare();                        // the removal on the way out finds nothing
        if fault == Done { return Returned(()); }
      } else if fault == Fails {
        fault := Perform(disk.(sidecar := Some(Sidecar(session, 1))));
      }
      return if fault == Crashes then Crashed else Raised(OperationFailed);
    }

    /** start_case */
    method StartCase(caseId: CaseId, startedAt: int, roms: set<string>, controllers: set<string>, apply: bool)
      returns (exit: Exit<Session>)
      requires Valid()
      modifies this
      ensures Valid() && old(run) <= run && disk.manifest == old(disk).manifest && disk.files == old(disk).files
      ensures old(disk).sidecar.Some? ==> exit.Raised? && disk == old(disk)
      ensures exit.Returned? ==> Startable(rules, old(disk), caseId, roms, controllers)
      ensures old(Undisturbed()) && Startable(rules, old(disk), caseId, roms, controllers) ==> exit.Returned?
      // An interrupted start leaves a sidecar with two names exactly when its temporary name is not removed.
      ensures old(disk).sidecar.None? ==>
        (HalfCreated(disk) <==>
         apply && Startable(rules, old(disk), caseId, roms, controllers) && LeavesTwoNames(old(clock)))
      ensures exit.Returned? ==>
        && disk == (if apply then old(disk).(sidecar := Some(Sidecar(exit.value, 1))) else old(disk))
        && exit.value == Session(caseId, startedAt, roms, controllers, old(disk).manifest, old(disk).inventory,
                                 map[], {}, None)
    {
      if !rules.verify(disk.manifest, disk.inventory) { return Raised(InvalidManifest); }
      if caseId !in disk.manifest.cases || caseId !in rules.checks { return Raised(UnknownCase); }
      if disk.manifest.cases[caseId] != Skeleton(rules.checks[caseId]) { return Raised(NotPendingSkeleton); }
      if !rules.selectionOk(caseId, roms, controllers, disk.manifest) { return Raised(BadSelection); }
      var session := Session(caseId, startedAt, roms, controllers, disk.manifest, disk.inventory, map[], {}, None);
      if disk.sidecar.Some? { return Raised(SessionActive); }
      if apply {
        var created := CreateSidecar(session);
        match created {
          case Crashed => return Crashed;
          case Raised(e) => return Raised(e);
          case Returned(_) =>
        }
      }
      return Returned(session);
    }

    /** The checks of finish_case before it writes; on success the final manifest. */
    method CheckFinish(s: Session, result: ResultFile) returns (exit: Exit<Manifest>)
      requires Valid() && disk.sidecar == Some(Sidecar(s, 1)) && disk.manifest == s.base
      modifies this`clock
      ensures Valid() && disk == old(disk) && run == old(run) && old(clock) <= clock
      ensures exit.Returned? ==>
        && Finishable(rules, s, result) && exit.value == Finish(s, result.human) && Intact(disk)
        && Records(exit.value, s, result.human)
        && (s.prepared.Some? ==> s.prepared.value == Prepared(exit.value, result))
      ensures old(Undisturbed()) && Finishable(rules, s, result) && Intact(disk) ==>
        (s.prepared.Some? ==> s.prepared.value.result == result) ==>
          exit.Returned?
    {
      var human := result.human;
      if human.caseId != s.caseId { return Raised(BadResult); }
      if s.caseId !in rules.checks || human.checks.Keys != rules.checks[s.caseId] { return Raised(BadResult); }
      if human.pass && !AllTrue(human.checks) { return Raised(BadResult); }
      if !human.pass && AllTrue(human.checks) { return Raised(BadResult); }
      if human.completedAt < s.startedAt { return Raised(CompletedBeforeStart); }
      if s.artifacts == map[] { return Raised(NoEvidence); }
      if exists id :: id in s.artifacts && !(s.startedAt <= s.artifacts[id].capturedAt <= human.completedAt) {
        return Raised(EvidenceOutsideInterval);
      }
      if !rules.verify(disk.manifest, disk.inventory) { return Raised(InvalidManifest); }
      if !IsPending(disk.manifest, s.caseId) { return Raised(NotPendingSkeleton); }
      if exists id :: id in s.artifacts && id in disk.manifest.artifacts { return Raised(ArtifactIdTaken); }
      if exists id, other :: id in s.artifacts && other in disk.manifest.artifacts
           && s.artifacts[id].path == disk.manifest.artifacts[other].path {
        return Raised(ArtifactIdTaken);
      }
      if exists id :: id in s.artifacts && !Published(disk, s.artifacts[id]) { return Raised(EvidenceChanged); }
      var document := Finish(s, human);
      FinishRecords(s, human, document);
      assert document.attestation == disk.manifest.attestation;
      var fault := Prepare();
      if fault == Crashes { return Crashed; }
      if fault == Fails { return Raised(OperationFailed); }
      if !rules.verify(document, disk.inventory) { return Raised(InvalidFinish); }
      if s.prepared.Some? && s.prepared.value != Prepared(document, result) { return Raised(PreparedMismatch); }
      return Returned(document);
    }

    /** The two publications of a prepared finish: the manifest, then the removal of the sidecar. */
    method PublishPrepared(s: Session) returns (exit: Exit<()>)
      requires Valid() && PreparedOnBase(disk) && disk.sidecar == Some(Sidecar(s, 1))
      modifies this
      ensures Valid() && old(run) <= run && disk.files == old(disk).files
      ensures exit.Returned? ==> disk == old(disk).(manifest := s.prepared.value.manifest, sidecar := None)
      ensures !exit.Returned? ==> disk in {old(disk), old(disk).(manifest := s.prepared.value.manifest)}
      ensures old(Undisturbed()) ==> exit.Returned?
    {
      assert PublishesManifest(disk, disk.(manifest := s.prepared.value.manifest));
      var published := ReplaceManifest(disk.manifest, s.prepared.value.manifest);
      if published.Crashed? { return Crashed; }
      if published.Raised? { return Raised(published.error); }
      exit := RemoveSidecar(s);
    }

    /** What finish_case does once its checks have passed: prepare, unless it is prepared, and publish. */
    method WriteFinish(s: Session, result: ResultFile) returns (exit: Exit<()>)
      requires Valid() && disk.sidecar == Some(Sidecar(s, 1)) && disk.manifest == s.base && Intact(disk)
      requires Finishable(rules, s, result)
      requires s.prepared.Some? ==> s.prepared.value == Prepared(Finish(s, result.human), result)
      modifies this
      ensures Valid() && old(run) <= run && disk.files == old(disk).files
      ensures exit.Returned? ==> disk == old(disk).(manifest := Finish(s, result.human), sidecar := None)
      ensures !exit.Returned? && disk != old(disk) ==>
        && disk.manifest in {s.base, Finish(s, result.human)}
        && disk.sidecar == Some(Sidecar(s.(prepared := Some(Prepared(Finish(s, result.human), result))), 1))
      ensures old(Undisturbed()) ==> exit.Returned?
    {
      var prepared := s;
      if s.prepared.None? {
        prepared := WithPrepared(s, result);
        PrepareStep(disk, result);
        assert Finish(prepared, result.human) == Finish(s, result.human);
        var replaced := ReplaceSidecar(s, prepared);
        if replaced.Crashed? { return Crashed; }
        if replaced.Raised? { return Raised(replaced.error); }
      }
      exit := PublishPrepared(prepared);
    }

    /**
      finish_case.  An interruption leaves the session open, prepared on the base manifest, or
      prepared on the final one; nothing else.
    */
    method FinishCase(result: ResultFile, apply: bool) returns (exit: Exit<Manifest>)
      requires Valid()
      modifies this
      // A crash between the two names of a new sidecar leaves a session no command accepts.
      ensures HalfCreated(old(disk)) ==> exit.Raised? && disk == old(disk)
      ensures Valid() && old(run) <= run && disk.files == old(disk).files
      // A session that has lost evidence is never finished.
      ensures !Intact(old(disk)) ==> !exit.Returned? && disk == old(disk)
      // Without a session, or when the manifest is already published, nothing happens.
      ensures Idle(old(disk)) || PreparedOnFinal(old(disk)) ==> exit.Raised? && disk == old(disk)
      // A prepared finish continues only with the identical result file.
      ensures PreparedOnBase(old(disk)) && old(disk).sidecar.value.session.prepared.value.result != result ==>
        !exit.Returned? && disk == old(disk)
      ensures exit.Returned? ==>
        && old(disk).sidecar.Some? && Finishable(rules, old(disk).sidecar.value.session, result)
        && exit.value == Finish(old(disk).sidecar.value.session, result.human)
        && Records(exit.value, old(disk).sidecar.value.session, result.human)
        && disk == (if apply then old(disk).(manifest := exit.value, sidecar := None) else old(disk))
      ensures !apply ==> disk == old(disk)
      // An interruption leaves the session as it was, or prepared with this result.
      ensures !exit.Returned? && disk != old(disk) ==>
        && old(disk).sidecar.Some?
        && var s := old(disk).sidecar.value.session;
           && disk.manifest in {s.base, Finish(s, result.human)}
           && disk.sidecar == Some(Sidecar(s.(prepared := Some(Prepared(Finish(s, result.human), result))), 1))
      // A prepared finish on its base manifest completes, if nothing interferes.
      ensures old(Undisturbed()) && PreparedOnBase(old(disk))
              && old(disk).sidecar.value.session.prepared.value.result == result ==>
        exit == Returned(old(disk).sidecar.value.session.prepared.value.manifest)
      // So does an open one whose evidence is there and whose result passes the checks.
      ensures old(Undisturbed()) && OpenSession(old(disk)) && !HalfCreated(old(disk)) && Intact(old(disk))
              && Finishable(rules, old(disk).sidecar.value.session, result) ==>
        exit.Returned?
    {
      ExactlyOneSituation(disk);
      var loaded := LoadSession(false);
      if loaded.Raised? { return Raised(loaded.error); }
      var s := loaded.value;
      var checked := CheckFinish(s, result);
      if checked.Crashed? { return Crashed; }
      if checked.Raised? { return Raised(checked.error); }
      if apply {
        var written := WriteFinish(s, result);
        if written.Crashed? { return Crashed; }
        if written.Raised? { return Raised(written.error); }
      }
      return Returned(checked.value);
    }

    /** recover_session: only a published finish is recovered, by removing its sidecar. */
    method RecoverSession(apply: bool) returns (exit: Exit<CaseId>)
      requires Valid()
      modifies this
      ensures Valid() && old(run) <= run && disk.manifest == old(disk).manifest && disk.files == old(disk).files
      ensures !PreparedOnFinal(old(disk)) ==> exit.Raised? && disk == old(disk)
      ensures HalfCreated(old(disk)) ==> exit.Raised? && disk == old(disk)
      ensures exit.Returned? ==>
        disk == (if apply then old(disk).(sidecar := None) else old(disk))
        && exit.value == old(disk).sidecar.value.session.caseId
      ensures !exit.Returned? || !apply ==> disk == old(disk)
      ensures old(Undisturbed()) && PreparedOnFinal(old(disk)) ==> exit.Returned?
    {
      ExactlyOneSituation(disk);
      var loaded := LoadSession(true);
      if loaded.Raised? { return Raised(loaded.error); }
      var s := loaded.value;
      if s.prepared.None? { return Raised(NothingPrepared); }
      if disk.manifest == s.base { return Raised(NotPublished); }
      if disk.manifest != s.prepared.value.manifest { return Raised(ManifestChanged); }
      if !rules.verify(disk.manifest, disk.inventory) { return Raised(InvalidManifest); }
      if !IsComplete(disk.manifest, s.caseId) { return Raised(PublishedMismatch); }
      var target := disk.manifest.cases[s.caseId];
      if target.startedAt != Some(s.startedAt) || target.romIds != s.romIds || target.controllerIds != s.controllerIds
         || target.artifactIds != s.artifacts.Keys {
        return Raised(PublishedMismatch);
      }
      if exists id :: id in s.artifacts
           && !(id in disk.manifest.artifacts && disk.manifest.artifacts[id] == s.artifacts[id]) {
        return Raised(PublishedMismatch);
      }
      if apply {
        var removed := RemoveSidecar(s);
        if removed.Crashed? { return Crashed; }
        if removed.Raised? { return Raised(removed.error); }
      }
      return Returned(s.caseId);
    }

    /** The disk with evidence a under its name, which has `links` names. */
    ghost function WithEvidence(d: Disk, a: Artifact, links: nat): Disk {
      d.(files := d.files[a.path := Evidence(a.content, links)])
    }

    lemma NewEvidenceKeepsIntact(d: Disk, a: Artifact)
      requires a.path !in d.files && Intact(d)
      ensures Intact(WithEvidence(d, a, 1)) && Intact(WithEvidence(d, a, 2))
    {
    }

    /** Drop the temporary name of linked evidence, retrying once on the way out. */
    method DropTemporaryName(a: Artifact, ghost before: Disk) returns (exit: Exit<()>)
      requires Valid() && disk == WithEvidence(before, a, 2)
      modifies this
      ensures Valid() && old(run) <= run && old(clock) <= clock
      ensures disk == WithEvidence(before, a, 1) || (disk == old(disk) && !exit.Returned?)
      ensures exit.Returned? <==> faults.At(old(clock)) == Done
      ensures exit.Returned? ==> clock == old(clock) + 1
    {
      UnlinkNameStep(disk, a.path);
      assert disk.files[a.path := Evidence(a.content, 1)] == before.files[a.path := Evidence(a.content, 1)];
      var fault := Perform(disk.(files := disk.files[a.path := Evidence(a.content, 1)]));
      if fault == Done { return Returned(()); }
      if fault == Fails {
        fault := Perform(disk.(files := disk.files[a.path := Evidence(a.content, 1)]));
      }
      exit := if fault == Crashes then Crashed else Raised(OperationFailed);
    }

    /** Publish evidence under a free name: link, then drop the temporary name. */
    method LinkEvidence(a: Artifact) returns (exit: Exit<()>)
      requires Valid() && a.path !in disk.files && !Recorded(disk, a.path)
      modifies this
      ensures Valid() && old(run) <= run && old(clock) <= clock
      ensures disk in {old(disk), WithEvidence(old(disk), a, 1), WithEvidence(old(disk), a, 2)}
      ensures exit.Returned? ==> disk == WithEvidence(old(disk), a, 1) && clock == old(clock) + 3
      ensures exit.Returned? <==> Links(old(clock))
      ensures old(Intact(disk)) ==> Intact(disk)
    {
      var fault := Prepare();
      LinkEvidenceStep(disk, a.path, a.content);
      if Intact(disk) { NewEvidenceKeepsIntact(disk, a); }
      if fault == Done { fault := Perform(disk.(files := disk.files[a.path := Evidence(a.content, 2)])); }
      exit := if fault == Crashes then Crashed else Raised(OperationFailed);
      if fault == Done { exit := DropTemporaryName(a, old(disk)); }
    }

    /**
      Record published evidence in the sidecar; when that raises, take the evidence back, even if
      the sidecar already records it.
    */
    method RecordOrRetract(s: Session, a: Artifact, source: Source) returns (exit: Exit<()>)
      requires Valid() && disk.sidecar == Some(Sidecar(s, 1)) && s.prepared.None?
      requires Published(disk, a) && a.path.id == a.id && a.id !in s.artifacts && a.id !in disk.manifest.artifacts
      modifies this
      ensures Valid() && old(run) <= run && old(clock) <= clock && disk.manifest == old(disk).manifest
      ensures exit.Returned? <==> Links(old(clock))
      ensures exit.Returned? ==> clock == old(clock) + 3
      ensures Replaces(old(clock)) ==>
        disk == old(disk).(sidecar := Some(Sidecar(WithArtifact(s, a, source), 1)),
                           files := if TakesBack(old(clock)) then old(disk).files - {a.path} else old(disk).files)
      ensures !Replaces(old(clock)) ==> disk == old(disk) || disk == old(disk).(files := old(disk).files - {a.path})
      ensures old(Intact(disk)) ==> (Intact(disk) <==> !TakesBack(old(clock)))
    {
      RecordStep(disk, a, source);
      var recorded := ReplaceSidecar(s, WithArtifact(s, a, source));
      exit := recorded;
      if recorded.Raised? {
        var crashed := TakeBack(a);
        if crashed { exit := Crashed; }
      }
    }

    /** The exception handler of ingest_artifact: remove the evidence, whether or not the session records it. */
    method TakeBack(a: Artifact) returns (crashed: bool)
      requires Valid() && Published(disk, a) && (Recorded(disk, a.path) ==> RecordedBySession(disk, a.path))
      modifies this
      ensures Valid() && old(run) <= run && clock == old(clock) + 1 && crashed == (faults.At(old(clock)) == Crashes)
      ensures disk == if faults.At(old(clock)) == Done
                      then old(disk).(files := old(disk).files - {a.path}) else old(disk)
      ensures faults.At(old(clock)) == Done && old(Intact(disk)) ==>
        (Intact(disk) <==> !old(RecordedBySession(disk, a.path)))
    {
      if RecordedBySession(disk, a.path) { LossStep(disk, a.path); } else { RetractStep(disk, a.path); }
      var fault := Perform(disk.(files := disk.files - {a.path}));
      crashed := fault == Crashes;
    }

    /** The deterministic ID of the next evidence, if its place is free. */
    method NextPlace(s: Session, kind: ArtifactKind, suffix: string) returns (exit: Exit<ArtifactId>)
      requires Valid()
      ensures !exit.Crashed?
      ensures exit.Returned? ==>
        && IsNextNumber(s, kind, exit.value.number) && PlaceFreeFor(disk, exit.value, suffix)
        && exit.value == ArtifactId(s.caseId, kind, exit.value.number)
      ensures exit.Returned? <==> PlaceFree(disk, s, kind, suffix)
    {
      var number := NextArtifactNumber(s, kind);
      if number.None? { return Raised(TooManyArtifacts); }
      var id := ArtifactId(s.caseId, kind, number.value);
      if EvidencePath(id, suffix) in disk.files { return Raised(DestinationOccupied); }
      if id in disk.manifest.artifacts { return Raised(ArtifactIdTaken); }
      return Returned(id);
    }

    /** The checks of ingest_artifact before it writes; on success the record of the new evidence. */
    method CheckIngest(s: Session, source: Source, content: Content, kind: ArtifactKind, suffix: string, text: string,
                       capturedAt: int) returns (exit: Exit<Artifact>)
      requires Valid() && OpenSession(disk) && disk.sidecar == Some(Sidecar(s, 1))
      ensures !exit.Crashed?
      ensures exit.Returned? ==>
        && IsNextNumber(s, kind, exit.value.id.number) && PlaceFreeFor(disk, exit.value.id, suffix)
        && exit.value.id == ArtifactId(s.caseId, kind, exit.value.id.number)
        && exit.value == Artifact(exit.value.id, EvidencePath(exit.value.id, suffix), text, capturedAt, content)
      ensures exit.Returned? <==>
        Ingestible(rules, disk, source, content, kind, suffix, text, capturedAt) && PlaceFree(disk, s, kind, suffix)
    {
      if content == [] { return Raised(BadSource); }
      if capturedAt < s.startedAt { return Raised(CapturedBeforeStart); }
      if source in s.sources { return Raised(SourceAlreadyIngested); }
      if exists id :: id in s.artifacts && s.artifacts[id].text == text { return Raised(LabelAlreadyUsed); }
      var place := NextPlace(s, kind, suffix);
      if place.Raised? { return Raised(place.error); }
      var a := Artifact(place.value, EvidencePath(place.value, suffix), text, capturedAt, content);
      if !rules.mediaOk(kind, suffix, content) { return Raised(BadMedia); }
      if kind != Save && Duplicates(disk.manifest, s, content) { return Raised(DuplicateEvidence); }
      return Returned(a);
    }

    /** What ingest_artifact does once its checks have passed: publish the evidence, then record it. */
    method WriteIngest(s: Session, a: Artifact, source: Source) returns (exit: Exit<()>)
      requires Valid() && OpenSession(disk) && disk.sidecar == Some(Sidecar(s, 1))
      requires a.path.id == a.id && a.path !in disk.files && a.id !in s.artifacts && a.id !in disk.manifest.artifacts
      modifies this
      ensures Valid() && old(run) <= run && disk.manifest == old(disk).manifest
      ensures forall p :: p in old(disk).files ==> p in disk.files && disk.files[p] == old(disk).files[p]
      ensures exit.Returned? ==> disk.sidecar == Some(Sidecar(WithArtifact(s, a, source), 1)) && Published(disk, a)
      ensures exit.Returned? <==> Links(old(clock)) && Links(old(clock) + 3) && faults.At(old(clock) + 6) == Done
      ensures old(Intact(disk)) ==> (Intact(disk) <==> !(Links(old(clock)) && TakesBack(old(clock) + 3)))
    {
      exit := LinkEvidence(a);
      if !exit.Returned? { return; }
      exit := RecordOrRetract(s, a, source);
      if !exit.Returned? { return; }
      var fault := Prepare();                      // the removal on the way out finds nothing
      exit := if fault == Done then Returned(()) else if fault == Fails then Raised(OperationFailed) else Crashed;
    }

    /** ingest_artifact */
    method IngestArtifact(source: Source, content: Content, kind: ArtifactKind, suffix: string, text: string,
                          capturedAt: int, apply: bool) returns (exit: Exit<Artifact>)
      requires Valid()
      modifies this
      ensures Valid() && old(run) <= run && disk.manifest == old(disk).manifest
      ensures !OpenSession(old(disk)) || !apply ==> disk == old(disk)
      ensures !OpenSession(old(disk)) || HalfCreated(old(disk)) ==> exit.Raised? && disk == old(disk)
      // Evidence already on disk is never touched.
      ensures forall p :: p in old(disk).files ==> p in disk.files && disk.files[p] == old(disk).files[p]
      ensures exit.Returned? ==>
        && Ingestible(rules, old(disk), source, content, kind, suffix, text, capturedAt)
        && IsNextNumber(old(disk).sidecar.value.session, kind, exit.value.id.number)
        && exit.value.id == ArtifactId(old(disk).sidecar.value.session.caseId, kind, exit.value.id.number)
        && exit.value == Artifact(exit.value.id, EvidencePath(exit.value.id, suffix), text, capturedAt, content)
      ensures exit.Returned? && apply ==>
        && exit.value.path !in old(disk).files && Published(disk, exit.value)
        && var s := old(disk).sidecar.value.session;
           disk.sidecar == Some(Sidecar(s.(artifacts := s.artifacts[exit.value.id := exit.value],
                                           sources := s.sources + {source}), 1))
      // The session's evidence stays complete exactly when the new evidence is not taken back after it was recorded.
      ensures old(Intact(disk)) ==>
        (Intact(disk) <==> !(apply && Ingestible(rules, old(disk), source, content, kind, suffix, text, capturedAt)
                             && PlaceFree(old(disk), old(disk).sidecar.value.session, kind, suffix)
                             && Links(old(clock)) && TakesBack(old(clock) + 3)))
      // Evidence in order with a free place is accepted, if nothing interferes.
      ensures old(Undisturbed()) && Ingestible(rules, old(disk), source, content, kind, suffix, text, capturedAt)
              && PlaceFree(old(disk), old(disk).sidecar.value.session, kind, suffix) ==>
        exit.Returned?
    {
      ExactlyOneSituation(disk);
      var loaded := LoadSession(false);
      if loaded.Raised? { return Raised(loaded.error); }
      var s := loaded.value;
      if s.prepared.Some? { return Raised(FinishAlreadyPrepared); }
      exit := CheckIngest(s, source, content, kind, suffix, text, capturedAt);
      if exit.Raised? || !apply { return; }
      var written := WriteIngest(s, exit.value, source);
      if written.Crashed? { return Crashed; }
      if written.Raised? { return Raised(written.error); }
    }
  }

  /**
    Whatever the recorder's runs are cut off by, a case they complete is the case of the sidecar at that
    moment; it has a result for exactly the checks of the case, from then on, and passed exactly when
    all of them are true.
  */
  lemma CompletedCaseIsJudged(rules: Rules, run: seq<Disk>, i: nat, j: nat, c: CaseId)
    requires Run(run) && CheckedRun(rules, run) && 0 < i <= j < |run| && Completes(run, i, c)
    ensures run[i - 1].sidecar.Some? && run[i - 1].sidecar.value.session.caseId == c
    ensures c in run[j].manifest.cases && c in rules.checks
    ensures var s, case_ := run[i - 1].sidecar.value.session, run[j].manifest.cases[c];
            && (case_.status == Pass <==> AllTrue(case_.checks)) && case_.checks.Keys == rules.checks[c]
            && case_.startedAt == Some(s.startedAt) && case_.artifactIds == s.artifacts.Keys != {}
  {
    RunInv(run, i - 1);
    RunManifest(run, i, j);
    assert StepAt(run, i);
    assert Checked(rules, run[i - 1]);
  }

  /** What an operator does after an interrupted finish; both ways out lead to the prepared manifest. */
  method CompleteInterruptedFinish(r: Recorder, result: ResultFile)
    requires r.Valid() && r.Undisturbed()
    requires PreparedOnBase(r.disk) || PreparedOnFinal(r.disk)
    requires r.disk.sidecar.value.session.prepared.value.result == result
    modifies r
    ensures r.Valid() && Idle(r.disk)
    ensures r.disk.manifest == old(r.disk).sidecar.value.session.prepared.value.manifest
  {
    ExactlyOneSituation(r.disk);
    if PreparedOnFinal(r.disk) {
      var recovered := r.RecoverSession(true);
    } else {
      var finished := r.FinishCase(result, true);
    }
  }

  /**
    An input for which a session is stuck: in a start only the third operation crashes, the removal
    of the sidecar's temporary name.  No command accepts the session after that.
  */
  method SessionCanBeStuck(rules: Rules, base: Manifest, caseId: CaseId, result: ResultFile)
    returns (r: Recorder, again: Exit<Session>, finished: Exit<Manifest>, recovered: Exit<CaseId>)
    requires Startable(rules, Disk(base, None, map[], []), caseId, {}, {}) && base.artifacts == map[]
    ensures fresh(r) && r.Valid() && HalfCreated(r.disk) && r.faults == Faults(iset{}, iset{2})
    ensures again.Raised? && finished.Raised? && recovered.Raised?
  {
    r := new Recorder(rules, Faults(iset{}, iset{2}), Disk(base, None, map[], []));
    var started := r.StartCase(caseId, 0, {}, {}, true);
    again := r.StartCase(caseId, 0, {}, {}, true);
    finished := r.FinishCase(result, true);
    recovered := r.RecoverSession(true);
  }

  /** A session for the pending case "boot" with nothing recorded yet. */
  function FreshSession(): Session {
    var base := Manifest(map["boot" := Case(Pending, None, None, {}, {}, map[], {}, "")], map[], "");
    Session("boot", 0, {}, {}, base, [], map[], {}, None)
  }

  function FreshDisk(): Disk { Disk(FreshSession().base, Some(Sidecar(FreshSession(), 1)), map[], []) }

  lemma FreshDiskReady(rules: Rules, content: Content)
    requires content != [] && rules.mediaOk(Log, ".txt", content)
    ensures Inv(FreshDisk()) && Intact(FreshDisk()) && Checked(rules, FreshDisk()) && OpenSession(FreshDisk())
    ensures Ingestible(rules, FreshDisk(), Source("log", 1), content, Log, ".txt", "log", 0)
    ensures PlaceFree(FreshDisk(), FreshSession(), Log, ".txt")
  {
    assert IsNextNumber(FreshSession(), Log, 1) && PlaceFreeFor(FreshDisk(), ArtifactId("boot", Log, 1), ".txt");
  }

  /**
    An input for which recorded evidence is lost: in the first ingest of a session only the sixth
    operation fails, the removal of the temporary name after the sidecar was replaced.
  */
  method LosesFirstEvidence(rules: Rules, content: Content) returns (r: Recorder)
    requires content != [] && rules.mediaOk(Log, ".txt", content)
    ensures fresh(r) && r.Valid() && !Intact(r.disk) && r.faults == Faults(iset{5}, iset{})
  {
    FreshDiskReady(rules, content);
    r := new Recorder(rules, Faults(iset{5}, iset{}), FreshDisk());
    var ingested := r.IngestArtifact(Source("log", 1), content, Log, ".txt", "log", 0, true);
  }

  /** After that no result finishes the session. */
  method EvidenceCanBeLost(rules: Rules, content: Content, result: ResultFile)
    returns (r: Recorder, finished: Exit<Manifest>)
    requires content != [] && rules.mediaOk(Log, ".txt", content)
    ensures fresh(r) && r.Valid() && !Intact(r.disk) && !finished.Returned?
    ensures r.faults == Faults(iset{5}, iset{})
  {
    r := LosesFirstEvidence(rules, content);
    finished := r.FinishCase(result, true);
  }
}
