/** generate_presets from preparation onward: all outputs are installed, or all are rolled back. */
module PresetGenerate {
  import opened Outcomes
  import opened PresetOutput

  /**
    Returned; raised after a complete rollback; raised reporting an incomplete rollback; raised
    reporting that the backups of installed presets could not all be removed.
  */
  datatype Outcome = Returned | RolledBack | RollbackIncomplete | CleanupIncomplete

  ghost predicate Distinct(outputs: seq<Output>) {
    forall i, j :: 0 <= i < j < |outputs| ==> outputs[i] != outputs[j]
  }

  const ROLLBACKABLE: set<Phase> := {Fresh, Unidentified, Staged, BackupAnnounced, BackedUp, Installed}

  /** o's destination holds the new payload and its directory is otherwise as before. */
  ghost predicate InPlace(o: Output)
    reads o
  {
    o.name in o.directory && o.directory[o.name].bytes == o.payload && o.directory - {o.name} == o.start - {o.name}
  }

  /** As InPlace, but the old preset may remain under a backup name. */
  ghost predicate InPlaceWithBackup(o: Output)
    reads o
  {
    && o.name in o.directory && o.directory[o.name].bytes == o.payload
    && (InPlace(o) ||
        (o.name in o.start
         && exists b :: b !in o.start && o.directory - {o.name} == (o.start - {o.name})[b := o.start[o.name]]))
  }

  /** What the rollback of one output leaves; `ok` is whether it has reported no failure so far. */
  twostate predicate WentBack(o: Output, ok: bool)
    reads o
  {
    && NothingLost(o.start, o.name, o.directory)
    && (old(o.phase) == BackupAnnounced ==> !ok && o.StuckTemporary())
    && (ok ==> old(o.RollsBack()) && if old(o.phase) == Unidentified then o.HiddenTemporary() else o.Restored())
  }

  /** _rollback_outputs: last output first; every output is tried. */
  method RollbackOutputs(outputs: seq<Output>) returns (ok: bool)
    requires Distinct(outputs)
    requires forall i :: 0 <= i < |outputs| ==> outputs[i].phase in ROLLBACKABLE && outputs[i].Consistent()
    modifies outputs
    ensures forall i :: 0 <= i < |outputs| ==> WentBack(outputs[i], ok)
    ensures ok <==> forall i :: 0 <= i < |outputs| ==> old(outputs[i].RollsBack())
  {
    ok := true;
    ghost var culprit := 0;
    var i := |outputs|;
    while i > 0
      invariant 0 <= i <= |outputs|
      invariant forall k :: 0 <= k < i ==> unchanged(outputs[k])
      invariant forall k :: i <= k < |outputs| ==> WentBack(outputs[k], ok)
      invariant !ok ==> i <= culprit < |outputs| && !old(outputs[culprit].RollsBack())
    {
      i := i - 1;
      var done := outputs[i].RollBack();
      if !done { culprit := i; }
      ok := ok && done;
    }
  }

  /** The clock of each output. */
  ghost function Clocks(outputs: seq<Output>): (clocks: seq<nat>)
    reads outputs
    ensures AtClocks(outputs, clocks)
  {
    if outputs == [] then [] else Clocks(outputs[..|outputs| - 1]) + [outputs[|outputs| - 1].clock]
  }

  ghost predicate AtClocks(outputs: seq<Output>, clocks: seq<nat>)
    reads outputs
  {
    |clocks| == |outputs| && forall i :: 0 <= i < |outputs| ==> clocks[i] == outputs[i].clock
  }

  /** The same clocks `delay` operations later. */
  ghost function Later(clocks: seq<nat>, delay: nat): (later: seq<nat>)
    ensures |later| == |clocks| && forall i :: 0 <= i < |clocks| ==> later[i] == clocks[i] + delay
  {
    seq(|clocks|, i requires 0 <= i < |clocks| => clocks[i] + delay)
  }

  /** Every output passes the preflight that begins at its clock. */
  ghost predicate AllPreflightOk(outputs: seq<Output>, clocks: seq<nat>, force: bool)
    requires |clocks| == |outputs|
  {
    forall i :: 0 <= i < |outputs| ==> outputs[i].PreflightOk(clocks[i], force)
  }

  /**
    Of the allocations that begin at these clocks the first i go through; the next opens its file and
    cannot identify it.
  */
  ghost predicate FstatFailsFirst(outputs: seq<Output>, clocks: seq<nat>, i: nat)
    requires i < |outputs| == |clocks|
  {
    && (forall j :: 0 <= j < i ==> outputs[j].AllocationOk(clocks[j]))
    && outputs[i].FstatFails(clocks[i])
  }

  /**
    All allocations that begin at these clocks go through, and so do the installations of the first
    i outputs; the rename of the next one's existing preset to its backup name fails.
  */
  ghost predicate BackupFailsFirst(outputs: seq<Output>, clocks: seq<nat>, i: nat)
    requires i < |outputs| == |clocks|
  {
    && (forall j :: 0 <= j < |outputs| ==> outputs[j].AllocationOk(clocks[j]))
    && (forall j :: 0 <= j < i ==> outputs[j].InstallGoes(clocks[j]))
    && outputs[i].BackupStuck(clocks[i])
  }

  /** The preset that was there when the output was prepared. */
  ghost predicate Preflighted(o: Output, force: bool)
    reads o
  {
    o.original == (if o.name in o.start then Some(o.start[o.name]) else None) && (force || o.name !in o.start)
  }

  ghost predicate ReadyToInstall(o: Output, force: bool)
    reads o
  {
    && o.phase == Staged && o.Consistent() && Preflighted(o, force)
    && o.directory[o.temporaryName.value].bytes == o.payload
  }

  ghost predicate InstalledOk(o: Output, force: bool)
    reads o
  {
    o.phase == Installed && o.Consistent() && Preflighted(o, force)
  }

  /** The preflight that began at c has gone through; it takes two operations. */
  ghost predicate HasPreflighted(o: Output, force: bool, c: nat)
    reads o
  {
    Preflighted(o, force) && o.clock == c + 2 && o.PreflightOk(c, force)
  }

  /** The first loop: read every destination before anything is written. */
  method PreflightAll(outputs: seq<Output>, force: bool, ghost clocks: seq<nat>) returns (ok: bool, prepared: nat)
    requires Distinct(outputs)
    requires forall i :: 0 <= i < |outputs| ==> outputs[i].phase == Fresh && outputs[i].Consistent()
    requires AtClocks(outputs, clocks)
    modifies outputs
    ensures prepared <= |outputs| && (ok ==> prepared == |outputs|)
    ensures forall i :: 0 <= i < |outputs| ==> outputs[i].phase == Fresh && outputs[i].Consistent()
    ensures ok ==> forall i :: 0 <= i < |outputs| ==> HasPreflighted(outputs[i], force, clocks[i])
    ensures ok <==> AllPreflightOk(outputs, clocks, force)
  {
    for i := 0 to |outputs|
      invariant forall k :: 0 <= k < |outputs| ==> outputs[k].phase == Fresh && outputs[k].Consistent()
      invariant forall k :: 0 <= k < i ==> HasPreflighted(outputs[k], force, clocks[k])
      invariant forall k :: i <= k < |outputs| ==> unchanged(outputs[k])
    {
      ok := outputs[i].Preflight(force);
      if !ok { return false, i; }
    }
    return true, |outputs|;
  }

  /** What a rollback can count on, for an output whose part in the transaction began at c. */
  ghost predicate InTransaction(o: Output, c: nat)
    reads o
  {
    o.phase in ROLLBACKABLE && o.Consistent() && c <= o.clock && o.BackupDrawn()
  }

  /** The allocation that began at c has gone through, with the first new name. */
  ghost predicate HasAllocated(o: Output, force: bool, c: nat)
    reads o
  {
    && ReadyToInstall(o, force) && o.AllocationOk(c)
    && o.clock >= 6 && o.FirstFree(c, o.clock - 6) && o.temporaryName == Some(o.TokenAt(o.clock - 6))
  }

  /** How far the allocations came: the first n went through, and the next, if any, did not. */
  ghost predicate StoppedAt(outputs: seq<Output>, clocks: seq<nat>, n: nat)
    requires n <= |outputs| == |clocks|
    reads outputs
  {
    && (forall k :: 0 <= k < n ==> outputs[k].phase == Staged && outputs[k].AllocationOk(clocks[k]))
    && (forall k :: n < k < |outputs| ==> outputs[k].phase == Fresh)
    && (n < |outputs| ==>
          && !outputs[n].AllocationOk(clocks[n])
          && (outputs[n].phase == Unidentified <==> outputs[n].FstatFails(clocks[n]))
          && (outputs[n].NewTokens(clocks[n]) ==> outputs[n].LastFailed()))
  }

  lemma StoppedAtUnidentified(outputs: seq<Output>, clocks: seq<nat>, n: nat)
    requires n <= |outputs| == |clocks| && StoppedAt(outputs, clocks, n)
    ensures forall i :: 0 <= i < |outputs| ==>
      (outputs[i].phase == Unidentified <==> FstatFailsFirst(outputs, clocks, i))
    ensures forall i :: 0 <= i < |outputs| && outputs[0].phase == Unidentified ==>
      outputs[i].phase in {Fresh, Unidentified}
  {
    forall i | 0 <= i < n ensures !outputs[i].FstatFails(clocks[i]) { outputs[i].AllocatedIsIdentified(clocks[i]); }
  }

  /** The second loop: temporary files for all outputs. */
  method AllocateAll(outputs: seq<Output>, force: bool, ghost clocks: seq<nat>) returns (ok: bool, ghost n: nat)
    requires Distinct(outputs) && AtClocks(outputs, clocks)
    requires forall i :: 0 <= i < |outputs| ==>
      outputs[i].phase == Fresh && outputs[i].Consistent() && Preflighted(outputs[i], force)
    modifies outputs
    ensures forall i :: 0 <= i < |outputs| ==> InTransaction(outputs[i], clocks[i])
    ensures forall i :: 0 <= i < |outputs| ==> outputs[i].phase in {Fresh, Unidentified, Staged}
    ensures ok ==> forall i :: 0 <= i < |outputs| ==> HasAllocated(outputs[i], force, clocks[i])
    ensures n <= |outputs| && StoppedAt(outputs, clocks, n) && (ok <==> n == |outputs|)
  {
    for i := 0 to |outputs|
      invariant forall k :: 0 <= k < i ==> HasAllocated(outputs[k], force, clocks[k])
      invariant forall k :: i <= k < |outputs| ==> unchanged(outputs[k])
    {
      ok := outputs[i].AllocateTemporary();
      if !ok { return false, i; }
    }
    return true, |outputs|;
  }

  /** The installation after an allocation that began at c has gone through. */
  ghost predicate HasInstalled(o: Output, force: bool, c: nat)
    reads o
  {
    InstalledOk(o, force) && o.InstallGoes(c) && c <= o.clock && o.BackupDrawn()
  }

  /** The installation after an allocation that began at c has stopped. */
  ghost predicate StoppedInstalling(o: Output, c: nat)
    reads o
  {
    && o.phase in {Staged, BackupAnnounced, BackedUp, Installed} && o.Consistent()
    && !o.InstallGoes(c) && (o.phase == BackupAnnounced <==> o.BackupStuck(c))
    && (o.NewTokens(c) ==> o.LastFailed()) && c <= o.clock && o.BackupDrawn()
  }

  /** The first n outputs are installed and the others are ready to be. */
  ghost predicate InstalledFirst(outputs: seq<Output>, force: bool, clocks: seq<nat>, n: nat)
    requires n <= |outputs| == |clocks|
    reads outputs
  {
    && (forall k :: 0 <= k < n ==> HasInstalled(outputs[k], force, clocks[k]))
    && (forall k :: n <= k < |outputs| ==> HasAllocated(outputs[k], force, clocks[k]))
  }

  /** How far the installations came: the first n went through, and the next, if any, did not. */
  ghost predicate InstalledUpTo(outputs: seq<Output>, force: bool, clocks: seq<nat>, n: nat)
    requires n <= |outputs| == |clocks|
    reads outputs
  {
    && (forall k :: 0 <= k < n ==> HasInstalled(outputs[k], force, clocks[k]))
    && (forall k :: n < k < |outputs| ==> HasAllocated(outputs[k], force, clocks[k]))
    && (n < |outputs| ==> StoppedInstalling(outputs[n], clocks[n]))
  }

  lemma InstalledUpToAnnounced(outputs: seq<Output>, force: bool, clocks: seq<nat>, n: nat)
    requires n <= |outputs| == |clocks| && InstalledUpTo(outputs, force, clocks, n)
    ensures forall i :: 0 <= i < |outputs| ==> InTransaction(outputs[i], clocks[i])
    ensures forall i :: 0 <= i < |outputs| ==> outputs[i].phase != Unidentified
    ensures (forall i :: 0 <= i < |outputs| ==> outputs[i].AllocationOk(clocks[i])) ==>
      forall i :: 0 <= i < |outputs| ==>
        (outputs[i].phase == BackupAnnounced <==> BackupFailsFirst(outputs, clocks, i))
  {
    forall i | 0 <= i < n ensures !outputs[i].BackupStuck(clocks[i]) { outputs[i].InstallableIsBackedUp(clocks[i]); }
  }

  /** The installation of one allocated output. */
  method InstallOne(o: Output, force: bool, ghost c: nat) returns (ok: bool)
    requires HasAllocated(o, force, c)
    modifies o
    ensures if ok then HasInstalled(o, force, c) else StoppedInstalling(o, c)
  {
    ok := o.InstallSince(c);
  }

  /** One turn of the publishing loop. */
  method InstallAt(outputs: seq<Output>, force: bool, ghost clocks: seq<nat>, i: nat) returns (ok: bool)
    requires Distinct(outputs) && i < |outputs| == |clocks| && InstalledFirst(outputs, force, clocks, i)
    modifies outputs[i]
    ensures ok ==> InstalledFirst(outputs, force, clocks, i + 1)
    ensures !ok ==> InstalledUpTo(outputs, force, clocks, i)
  {
    ok := InstallOne(outputs[i], force, clocks[i]);
  }

  /** The publishing loop: back up, then install, one output after the other. */
  method InstallAll(outputs: seq<Output>, force: bool, ghost clocks: seq<nat>) returns (ok: bool, ghost n: nat)
    requires Distinct(outputs) && |clocks| == |outputs|
    requires forall i :: 0 <= i < |outputs| ==> HasAllocated(outputs[i], force, clocks[i])
    modifies outputs
    ensures n <= |outputs| && InstalledUpTo(outputs, force, clocks, n) && (ok <==> n == |outputs|)
  {
    for i := 0 to |outputs|
      invariant InstalledFirst(outputs, force, clocks, i)
    {
      ok := InstallAt(outputs, force, clocks, i);
      if !ok { return false, i; }
    }
    return true, |outputs|;
  }

  /** No output has an operation that fails from its clock on. */
  ghost predicate AllQuiet(outputs: seq<Output>, clocks: seq<nat>)
    requires |clocks| == |outputs|
  {
    forall i :: 0 <= i < |outputs| ==> outputs[i].QuietFrom(clocks[i])
  }

  /** The last loop before the commit: look at every installed preset once more. */
  method VerifyAll(outputs: seq<Output>, force: bool, ghost clocks: seq<nat>) returns (ok: bool, ghost n: nat)
    requires Distinct(outputs) && |clocks| == |outputs|
    requires forall i :: 0 <= i < |outputs| ==> HasInstalled(outputs[i], force, clocks[i])
    modifies outputs
    ensures forall i :: 0 <= i < |outputs| ==> HasInstalled(outputs[i], force, clocks[i])
    ensures AllQuiet(outputs, clocks) ==> ok
    ensures !ok ==> n < |outputs| && outputs[n].LastFailed()
  {
    for i := 0 to |outputs|
      invariant forall k :: 0 <= k < |outputs| ==> HasInstalled(outputs[k], force, clocks[k])
    {
      ok := outputs[i].VerifyInstalled();
      if !ok { return false, i; }
    }
    return true, |outputs|;
  }

  /** What the removal of a backup leaves; `ok` is whether no failure has been reported so far. */
  ghost predicate CleanedUp(o: Output, ok: bool)
    reads o
  {
    InPlaceWithBackup(o) && (ok ==> InPlace(o))
  }

  /** The removal of one backup. */
  method CleanUpOne(o: Output, force: bool, ghost c: nat, before: bool) returns (ok: bool)
    requires HasInstalled(o, force, c)
    modifies o
    ensures CleanedUp(o, ok)
    ensures ok ==> before
    ensures before && o.QuietFrom(c) ==> ok
  {
    ok := o.CleanUp();
    ok := before && ok;
  }

  /** The removal of the backups after the commit; every output is tried. */
  method CleanUpAll(outputs: seq<Output>, force: bool, ghost clocks: seq<nat>) returns (ok: bool)
    requires Distinct(outputs) && |clocks| == |outputs|
    requires forall i :: 0 <= i < |outputs| ==> HasInstalled(outputs[i], force, clocks[i])
    modifies outputs
    ensures forall i :: 0 <= i < |outputs| ==> CleanedUp(outputs[i], ok)
    ensures AllQuiet(outputs, clocks) ==> ok
  {
    ok := true;
    for i := 0 to |outputs|
      invariant forall k :: 0 <= k < i ==> CleanedUp(outputs[k], ok)
      invariant forall k :: i <= k < |outputs| ==> unchanged(outputs[k])
      invariant AllQuiet(outputs, clocks) ==> ok
    {
      ok := CleanUpOne(outputs[i], force, clocks[i], ok);
    }
  }

  /** Every output can be allocated and installed from its clock on, and nothing fails after that. */
  ghost predicate AllGo(outputs: seq<Output>, clocks: seq<nat>)
    requires |clocks| == |outputs|
  {
    AllQuiet(outputs, clocks) &&
    forall i :: 0 <= i < |outputs| ==> outputs[i].AllocationOk(clocks[i]) && outputs[i].InstallGoes(clocks[i])
  }

  /** From these clocks on no operation fails, and every name drawn is new. */
  ghost predicate AllUndisturbed(outputs: seq<Output>, clocks: seq<nat>)
    requires |clocks| == |outputs|
  {
    forall i :: 0 <= i < |outputs| ==> outputs[i].Undisturbed(clocks[i])
  }

  lemma UndisturbedGo(outputs: seq<Output>, clocks: seq<nat>, delay: nat)
    requires |clocks| == |outputs| && AllUndisturbed(outputs, clocks)
    ensures AllGo(outputs, Later(clocks, delay))
  {
    forall i | 0 <= i < |outputs| ensures outputs[i].QuietFrom(clocks[i] + delay)
      && outputs[i].AllocationOk(clocks[i] + delay) && outputs[i].InstallGoes(clocks[i] + delay)
    {
      assert outputs[i].Undisturbed(clocks[i]);
      outputs[i].UndisturbedGoes(clocks[i] + delay);
    }
  }

  /** Every name drawn from these clocks on is new. */
  ghost predicate AllNewTokens(outputs: seq<Output>, clocks: seq<nat>)
    requires |clocks| == |outputs|
  {
    forall i :: 0 <= i < |outputs| ==> outputs[i].NewTokens(clocks[i])
  }

  /** In all directories together at most one operation fails. */
  ghost predicate OneFault(outputs: seq<Output>) {
    forall i, j, m: nat, n: nat :: 0 <= i < |outputs| && 0 <= j < |outputs| ==>
      m in outputs[i].faults && n in outputs[j].faults ==> i == j && m == n
  }

  lemma NewTokensLater(outputs: seq<Output>, clocks: seq<nat>, delay: nat)
    requires |clocks| == |outputs| && AllNewTokens(outputs, clocks)
    ensures AllNewTokens(outputs, Later(clocks, delay))
  {
    forall i | 0 <= i < |outputs| ensures outputs[i].NewTokens(clocks[i] + delay) {
      assert outputs[i].NewTokens(clocks[i]);
    }
  }

  lemma OneFaultIsPast(outputs: seq<Output>, n: nat)
    requires OneFault(outputs) && n < |outputs| && outputs[n].LastFailed()
    ensures forall i :: 0 <= i < |outputs| ==> outputs[i].QuietFrom(outputs[i].clock)
  {
    forall i, m: nat | 0 <= i < |outputs| && m in outputs[i].faults ensures i == n && m == outputs[n].clock - 1 {
      assert outputs[n].clock - 1 in outputs[n].faults;
    }
  }

  lemma QuietRollsAllBack(outputs: seq<Output>, clocks: seq<nat>)
    requires |clocks| == |outputs| && AllNewTokens(outputs, clocks)
    requires forall i :: 0 <= i < |outputs| ==> InTransaction(outputs[i], clocks[i])
    requires forall i :: 0 <= i < |outputs| ==>
      outputs[i].phase != BackupAnnounced && outputs[i].QuietFrom(outputs[i].clock)
    ensures forall i :: 0 <= i < |outputs| ==> outputs[i].RollsBack()
  {
    forall i | 0 <= i < |outputs| ensures outputs[i].RollsBack() { outputs[i].QuietRollsBack(clocks[i]); }
  }

  lemma GoesRollsBack(outputs: seq<Output>, clocks: seq<nat>)
    requires |clocks| == |outputs| && AllNewTokens(outputs, clocks) && AllGo(outputs, clocks)
    requires forall i :: 0 <= i < |outputs| ==> InTransaction(outputs[i], clocks[i])
    requires forall i :: 0 <= i < |outputs| ==>
      (outputs[i].phase == BackupAnnounced <==> BackupFailsFirst(outputs, clocks, i))
    ensures forall i :: 0 <= i < |outputs| ==> outputs[i].RollsBack()
  {
    forall i | 0 <= i < |outputs|
      ensures outputs[i].phase != BackupAnnounced && outputs[i].QuietFrom(outputs[i].clock)
    {
      outputs[i].InstallableIsBackedUp(clocks[i]);
    }
    QuietRollsAllBack(outputs, clocks);
  }

  /** Everything between preflight and commit. */
  method Publish(outputs: seq<Output>, force: bool, rootBound: bool, ghost clocks: seq<nat>)
    returns (ok: bool, ghost n: nat)
    requires Distinct(outputs) && AtClocks(outputs, clocks)
    requires forall i :: 0 <= i < |outputs| ==>
      outputs[i].phase == Fresh && outputs[i].Consistent() && Preflighted(outputs[i], force)
    modifies outputs
    ensures forall i :: 0 <= i < |outputs| ==> InTransaction(outputs[i], clocks[i])
    ensures ok ==> forall i :: 0 <= i < |outputs| ==> HasInstalled(outputs[i], force, clocks[i])
    ensures forall i :: 0 <= i < |outputs| ==>
      (outputs[i].phase == Unidentified <==> FstatFailsFirst(outputs, clocks, i))
    ensures forall i :: 0 <= i < |outputs| && outputs[0].phase == Unidentified ==>
      outputs[i].phase in {Fresh, Unidentified}
    ensures forall i :: 0 <= i < |outputs| ==>
      (outputs[i].phase == BackupAnnounced <==> BackupFailsFirst(outputs, clocks, i))
    ensures forall i :: 0 <= i < |outputs| && outputs[i].phase == BackupAnnounced ==> !ok
    ensures ok ==> rootBound
    ensures rootBound && AllGo(outputs, clocks) ==> ok
    ensures rootBound && !ok && AllNewTokens(outputs, clocks) ==> n < |outputs| && outputs[n].LastFailed()
  {
    ok, n := AllocateAll(outputs, force, clocks);
    StoppedAtUnidentified(outputs, clocks, n);
    if !ok { return; }
    ok, n := InstallAll(outputs, force, clocks);
    InstalledUpToAnnounced(outputs, force, clocks, n);
    if !ok { return; }
    if !rootBound { return false, 0; }
    ok, n := VerifyAll(outputs, force, clocks);
  }

  /** Restored, unless its temporary file was the one that opened and could not be identified. */
  ghost predicate RestoredUnless(o: Output, fstatFailed: bool)
    reads o
  {
    if fstatFailed then o.HiddenTemporary() else o.Restored()
  }

  /** What each outcome other than RolledBack leaves. */
  ghost predicate Left(outcome: Outcome, o: Output)
    reads o
  {
    match outcome
    case Returned => InPlace(o)
    case RolledBack => true
    case RollbackIncomplete => o.Kept()
    case CleanupIncomplete => InPlaceWithBackup(o)
  }

  /** The transaction after a complete preflight: publish, then clean up or roll back. */
  method PublishOrRollBack(outputs: seq<Output>, force: bool, rootBound: bool, ghost clocks: seq<nat>)
    returns (outcome: Outcome)
    requires Distinct(outputs) && AtClocks(outputs, clocks)
    requires forall i :: 0 <= i < |outputs| ==>
      outputs[i].phase == Fresh && outputs[i].Consistent() && Preflighted(outputs[i], force)
    modifies outputs
    ensures forall i :: 0 <= i < |outputs| ==> Left(outcome, outputs[i])
    ensures outcome == RolledBack ==> forall i :: 0 <= i < |outputs| ==>
      RestoredUnless(outputs[i], FstatFailsFirst(outputs, clocks, i))
    ensures |outputs| > 0 && FstatFailsFirst(outputs, clocks, 0) ==> outcome == RolledBack
    ensures forall i :: 0 <= i < |outputs| && BackupFailsFirst(outputs, clocks, i) ==>
      outcome == RollbackIncomplete && outputs[i].StuckTemporary()
    ensures rootBound && AllGo(outputs, clocks) ==> outcome == Returned
    ensures !rootBound && AllGo(outputs, clocks) && AllNewTokens(outputs, clocks) ==> outcome == RolledBack
    ensures rootBound && OneFault(outputs) && AllNewTokens(outputs, clocks) && outcome == RollbackIncomplete ==>
      exists i :: 0 <= i < |outputs| && BackupFailsFirst(outputs, clocks, i)
  {
    var ok, n := Publish(outputs, force, rootBound, clocks);
    if ok {
      ok := CleanUpAll(outputs, force, clocks);
      return if ok then Returned else CleanupIncomplete;
    }
    if AllNewTokens(outputs, clocks) && AllGo(outputs, clocks) {
      GoesRollsBack(outputs, clocks);
    } else if AllNewTokens(outputs, clocks) && rootBound && OneFault(outputs)
              && forall i :: 0 <= i < |outputs| ==> outputs[i].phase != BackupAnnounced {
      OneFaultIsPast(outputs, n);
      QuietRollsAllBack(outputs, clocks);
    }
    ok := RollbackOutputs(outputs);
    return if ok then RolledBack else RollbackIncomplete;
  }

  /**
    generate_presets.  `rootBound` is whether the SD root is still the directory it was.
    Returned: every destination holds its payload and no other name changed.  RolledBack: every
    directory is as before unless the first fstat of its temporary file failed.  In every
    outcome no file of the user is lost, or the new presets are in place.
  */
  method GeneratePresets(outputs: seq<Output>, force: bool, rootBound: bool) returns (outcome: Outcome)
    requires Distinct(outputs)
    requires forall i :: 0 <= i < |outputs| ==> outputs[i].phase == Fresh && outputs[i].Consistent()
    modifies outputs
    ensures forall i :: 0 <= i < |outputs| ==> Left(outcome, outputs[i])
    // A rollback reported as complete restored an output exactly when its temporary file was not
    // the one that opened and could not be identified.
    ensures outcome == RolledBack ==> forall i :: 0 <= i < |outputs| ==>
      RestoredUnless(outputs[i], AllPreflightOk(outputs, old(Clocks(outputs)), force)
                                 && FstatFailsFirst(outputs, Later(old(Clocks(outputs)), 2), i))
    // If that happens to the first output, the rollback is reported as complete.
    ensures |outputs| > 0 && AllPreflightOk(outputs, old(Clocks(outputs)), force) ==>
      FstatFailsFirst(outputs, Later(old(Clocks(outputs)), 2), 0) ==>
        outcome == RolledBack
    // If a rename to a backup name fails, the rollback is reported as incomplete, and that output's
    // temporary file is left.
    ensures AllPreflightOk(outputs, old(Clocks(outputs)), force) ==>
      forall i :: 0 <= i < |outputs| && BackupFailsFirst(outputs, Later(old(Clocks(outputs)), 2), i) ==>
        outcome == RollbackIncomplete && outputs[i].StuckTemporary()
    // If nothing goes wrong the presets are installed.
    ensures rootBound && AllPreflightOk(outputs, old(Clocks(outputs)), force) ==>
      AllUndisturbed(outputs, old(Clocks(outputs))) ==>
        outcome == Returned
    // If nothing goes wrong but the root has been replaced, everything is taken back.
    ensures !rootBound && AllPreflightOk(outputs, old(Clocks(outputs)), force) ==>
      AllUndisturbed(outputs, old(Clocks(outputs))) ==>
        outcome == RolledBack
    // If only one operation fails, the rollback is incomplete only after a failed rename to a backup name.
    ensures rootBound && OneFault(outputs) && AllNewTokens(outputs, old(Clocks(outputs))) ==>
      outcome == RollbackIncomplete ==>
        exists i :: 0 <= i < |outputs| && BackupFailsFirst(outputs, Later(old(Clocks(outputs)), 2), i)
    // A failed preflight leaves every directory alone; without force an existing preset fails it.
    ensures !AllPreflightOk(outputs, old(Clocks(outputs)), force) ==>
      outcome == RolledBack && forall i :: 0 <= i < |outputs| ==> outputs[i].Restored()
  {
    ghost var clocks := Clocks(outputs);
    var ok, prepared := PreflightAll(outputs, force, clocks);
    if !ok {
      ok := RollbackOutputs(outputs[..prepared]);
      return if ok then RolledBack else RollbackIncomplete;
    }
    if AllUndisturbed(outputs, clocks) { UndisturbedGo(outputs, clocks, 2); }
    if AllNewTokens(outputs, clocks) { NewTokensLater(outputs, clocks, 2); }
    outcome := PublishOrRollBack(outputs, force, rootBound, Later(clocks, 2));
  }

  /** A run that reports a complete rollback although a new name is left: only its fstat, the fifth operation, fails. */
  method GenerateLeavesTemporary(payload: Bytes) returns (o: Output, outcome: Outcome)
    ensures fresh(o) && o.start == map[] && o.faults == iset{4} && outcome == RolledBack
    ensures o.HiddenTemporary() && !o.Restored() && o.directory != o.start
  {
    o := new Output("preset", payload, map[], 0, iset{4}, imap[2 := "temporary"]);
    assert o.FirstFree(2, 2);
    outcome := GeneratePresets([o], false, true);
  }

  /**
    A run that replaces one preset and reports an incomplete rollback: only the rename to the backup
    name, the tenth operation, fails.  The preset is untouched and the temporary file stays.
  */
  method GenerateStuckBackup(previous: Bytes, payload: Bytes) returns (o: Output, outcome: Outcome)
    ensures fresh(o) && o.start == map["preset" := File(0, previous)] && o.faults == iset{9}
    ensures outcome == RollbackIncomplete
    ensures o.StuckTemporary() && o.directory != o.start
  {
    var start := map["preset" := File(0, previous)];
    o := new Output("preset", payload, start, 1, iset{9}, imap[2 := "temporary", 8 := "backup"]);
    assert o.FirstFree(2, 2) && o.BackupFails(8, "temporary");
    outcome := GeneratePresets([o], true, true);
    assert o.temporaryName.value in o.directory && o.temporaryName.value !in o.start;
  }
}
