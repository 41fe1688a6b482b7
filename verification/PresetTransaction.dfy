/**
  The two-file preset transaction of scripts/pocket_per_game_preset.py.  The Interact and Input
  presets live in different directories, so every output has its own directory here; names map to
  files, a file being an inode number and its bytes.  Every operation asks `faults` whether it
  fails, always before its effect, and `tokens` supplies the random names.
*/
module PresetOutput {
  import opened Outcomes

  type Name = string
  type Bytes = seq<int>
  datatype File = File(inode: nat, bytes: Bytes)
  type Directory = map<Name, File>

  function Renamed(d: Directory, source: Name, destination: Name): Directory
    requires source in d
  {
    (d - {source})[destination := d[source]]
  }

  /** The other files of `before` keep their names; the one called `name` has some name. */
  ghost predicate NothingLost(before: Directory, name: Name, after: Directory) {
    && (forall n :: n in before && n != name ==> n in after && after[n] == before[n])
    && (name in before ==> exists n :: n in after && after[n] == before[name])
  }

  /** `after` is `before` and one more file, the temporary one. */
  ghost predicate OnlyTemporaryLeft(before: Directory, temporary: Option<Name>, after: Directory) {
    temporary.Some? && temporary.value !in before && temporary.value in after && after - {temporary.value} == before
  }

  /** Where an output stands; only the specification looks at it. */
  datatype Phase = Fresh | Unidentified | Staged | BackupAnnounced | BackedUp | Installed | Committed | Abandoned

  /** _PreparedOutput and its directory. */
  class Output {
    const name: Name
    const payload: Bytes
    const start: Directory          // the directory when the transaction began
    const faults: iset<nat>
    const tokens: imap<nat, Name>
    var clock: nat
    var nextInode: nat
    var directory: Directory
    var original: Option<File>
    var temporaryName: Option<Name>
    var temporaryIdentity: Option<nat>
    var backupName: Option<Name>
    var installedIdentity: Option<nat>
    ghost var phase: Phase
    ghost var backupClock: nat      // the operation that drew the backup name

    constructor (name: Name, payload: Bytes, directory: Directory, nextInode: nat,
                 faults: iset<nat>, tokens: imap<nat, Name>)
      requires name != "" && name !in tokens.Values   // token names have their own suffixes
      ensures this.name == name && this.payload == payload && start == this.directory == directory
      ensures this.faults == faults && this.tokens == tokens && clock == 0
      ensures phase == Fresh && Consistent()
    {
      this.name, this.payload, start, this.faults, this.tokens := name, payload, directory, faults, tokens;
      clock, this.nextInode, this.directory := 0, nextInode, directory;
      original, temporaryName, temporaryIdentity, backupName, installedIdentity := None, None, None, None, None;
      phase := Fresh;
    }

    /** The temporary file beside an otherwise given directory. */
    ghost predicate HoldsTemporary(rest: Directory)
      reads this
    {
      && temporaryName.Some? && temporaryName.value !in start && temporaryName.value != name
      && temporaryName.value in directory
      && directory == rest[temporaryName.value := directory[temporaryName.value]]
      && temporaryIdentity == Some(directory[temporaryName.value].inode)
    }

    /** What the directory holds in each phase. */
    ghost predicate Consistent()
      reads this
    {
      (forall n: nat :: TokenAt(n) != name) &&
      match phase
      case Fresh =>
        && directory == start && temporaryName.None? && temporaryIdentity.None?
        && backupName.None? && installedIdentity.None?
      case Unidentified =>
        && temporaryName.Some? && temporaryName.value !in start && temporaryName.value != name
        && temporaryName.value in directory && directory == start[temporaryName.value := directory[temporaryName.value]]
        && temporaryIdentity.None? && backupName.None? && installedIdentity.None?
      case Staged =>
        HoldsTemporary(start) && backupName.None? && installedIdentity.None?
      case BackupAnnounced =>
        HoldsTemporary(start) && backupName.Some? && name in start && installedIdentity.None?
      case BackedUp =>
        && name in start && backupName.Some? && backupName.value !in start
        && backupName != temporaryName
        && HoldsTemporary(Renamed(start, name, backupName.value)) && installedIdentity.None?
      case Installed =>
        && temporaryName.None? && name in directory && installedIdentity == Some(directory[name].inode)
        && directory[name].bytes == payload
        && (if name in start
            then backupName.Some? && backupName.value !in start
                 && directory == Renamed(start, name, backupName.value)[name := directory[name]]
            else backupName.None? && directory == start[name := directory[name]])
      case Committed =>
        name in directory && directory[name].bytes == payload && directory == start[name := directory[name]]
      case Abandoned => Kept()
    }

    /** No file that existed before is lost. */
    ghost predicate Kept()
      reads this
    {
      NothingLost(start, name, directory)
    }

    lemma ConsistentKeeps()
      requires Consistent() && phase != Committed
      ensures Kept()
    {
      if name in start {
        if phase in {BackedUp, Installed} {
          assert directory[backupName.value] == start[name];
        } else if phase != Abandoned {
          assert directory[name] == start[name];
        }
      }
    }

    /** The directory is as the transaction found it, and no temporary name is outstanding. */
    ghost predicate Restored()
      reads this
    {
      directory == start && temporaryName.None?
    }

    /**
      The one leftover a complete rollback can hide: a temporary file whose first fstat failed, so
      that its identity was never known.
    */
    ghost predicate HiddenTemporary()
      reads this
    {
      && temporaryName.Some? && temporaryIdentity.None?
      && temporaryName.value !in start && temporaryName.value in directory
      && directory - {temporaryName.value} == start
    }

    /** The directory is as the transaction found it, but for an identified temporary file. */
    ghost predicate StuckTemporary()
      reads this
    {
      temporaryIdentity.Some? && OnlyTemporaryLeft(start, temporaryName, directory)
    }

    /** No operation from c on fails. */
    ghost predicate QuietFrom(c: nat) { forall n: nat :: c <= n ==> n !in faults }

    /** None of the n operations from c on fails. */
    ghost predicate Quiet(c: nat, n: nat) { forall k: nat :: c <= k < c + n ==> k !in faults }

    /** The tokens from c on are new names, and no name is drawn twice. */
    ghost predicate NewTokens(c: nat) {
      && (forall n: nat :: c <= n ==> TokenAt(n) !in start)
      && (forall m: nat, n: nat :: m < n ==> TokenAt(m) != TokenAt(n))
    }

    /** No operation from c on fails, and the tokens are new names. */
    ghost predicate Undisturbed(c: nat) { QuietFrom(c) && NewTokens(c) }

    /** The last operation was one that fails. */
    ghost predicate LastFailed()
      reads this
    {
      clock > 0 && clock - 1 in faults
    }

    /** The backup name is one drawn before. */
    ghost predicate BackupDrawn()
      reads this
    {
      backupName.Some? ==> backupClock < clock && backupName.value == TokenAt(backupClock)
    }

    /** Every operation that rolling this output back takes from here on goes through. */
    ghost predicate RollsBack()
      reads this
    {
      match phase
      case Fresh => true
      case Unidentified => true
      case Staged => Quiet(clock, 3)
      case BackupAnnounced => false
      case BackedUp => Quiet(clock, 5)
      case Installed => TokenAt(clock) !in directory && Quiet(clock + 1, if name in start then 7 else 5)
      case Committed => false
      case Abandoned => false
    }

    /** Where nothing fails any more and the tokens are new, everything but an announced backup rolls back. */
    lemma QuietRollsBack(c: nat)
      requires phase in {Fresh, Unidentified, Staged, BackedUp, Installed} && Consistent() && BackupDrawn()
      requires NewTokens(c) && c <= clock && QuietFrom(clock)
      ensures RollsBack()
    {
    }

    // ----------------------------------------------------------------------------------------
    // Which operations fail, told from the faults and tokens alone.  `c` is the clock at which a
    // step begins.
    // ----------------------------------------------------------------------------------------

    /** Of the 32 tokens drawn from c on, the one at m is the first new name. */
    ghost predicate FirstFree(c: nat, m: nat) {
      c <= m < c + 32 && TokenAt(m) !in start && forall n: nat :: c <= n < m ==> TokenAt(n) in start
    }

    lemma FirstFreeUnique(c: nat, m: nat, n: nat)
      requires FirstFree(c, m) && FirstFree(c, n)
      ensures m == n
    {
    }

    /** The open of a new name succeeds, and the fstat that would identify it fails. */
    ghost predicate FstatFails(c: nat) {
      exists m: nat :: FirstFree(c, m) && m + 1 !in faults && m + 2 in faults
    }

    /** Allocation goes through: open, fstat, write, the second fstat and the flush of the directory. */
    ghost predicate AllocationOk(c: nat) {
      exists m: nat :: FirstFree(c, m) && Quiet(m + 1, 5)
    }

    /** Moving the existing preset, if any, to the backup name drawn at c fails; t is the temporary name. */
    predicate BackupFails(c: nat, t: Name) {
      name in start && (c + 1 in faults || TokenAt(c) in start || TokenAt(c) == t)
    }

    /** The backup name is free, the rename to it goes through, and the file under it can be read. */
    predicate BackupOk(c: nat, t: Name) {
      name in start ==> !BackupFails(c, t) && c + 2 !in faults
    }

    /** After that the temporary file is renamed to the destination, and the directory flushed. */
    predicate InstallOk(c: nat, t: Name) {
      BackupOk(c, t) && var d := if name in start then c + 3 else c; d !in faults && d + 1 !in faults
    }

    /** An output allocated from c on can be installed right after that. */
    ghost predicate InstallGoes(c: nat) {
      exists m: nat :: FirstFree(c, m) && InstallOk(m + 6, TokenAt(m))
    }

    /** An output allocated from c on cannot be backed up right after that. */
    ghost predicate BackupStuck(c: nat) {
      exists m: nat :: FirstFree(c, m) && BackupFails(m + 6, TokenAt(m))
    }

    lemma InstallPlan(c: nat, m: nat)
      requires FirstFree(c, m)
      ensures InstallGoes(c) <==> InstallOk(m + 6, TokenAt(m))
      ensures BackupStuck(c) <==> BackupFails(m + 6, TokenAt(m))
    {
      forall n: nat | FirstFree(c, n) ensures n == m { FirstFreeUnique(c, n, m); }
    }

    lemma UndisturbedGoes(c: nat)
      requires Undisturbed(c)
      ensures AllocationOk(c) && InstallGoes(c)
    {
      assert FirstFree(c, c);
      assert TokenAt(c) != TokenAt(c + 6) && InstallOk(c + 6, TokenAt(c));
    }

    lemma InstallableIsBackedUp(c: nat)
      requires InstallGoes(c)
      ensures !BackupStuck(c)
    {
      var m: nat :| FirstFree(c, m) && InstallOk(m + 6, TokenAt(m));
      InstallPlan(c, m);
    }

    lemma AllocatedIsIdentified(c: nat)
      requires AllocationOk(c)
      ensures !FstatFails(c)
    {
      var m: nat :| FirstFree(c, m) && Quiet(m + 1, 5);
      forall n: nat | FirstFree(c, n) ensures n + 2 !in faults { FirstFreeUnique(c, m, n); }
    }

    /** Preflight goes through, and finds nothing that only force may replace. */
    predicate PreflightOk(c: nat, force: bool) {
      c !in faults && c + 1 !in faults && (force || name !in start)
    }

    // ----------------------------------------------------------------------------------------
    // Directory operations
    // ----------------------------------------------------------------------------------------

    /** The name drawn by operation n; where `tokens` gives none, the empty name. */
    function TokenAt(n: nat): Name { if n in tokens then tokens[n] else "" }

    /** Does the next operation go through? */
    method Attempt() returns (ok: bool)
      modifies this`clock
      ensures ok == (old(clock) !in faults) && clock == old(clock) + 1
    {
      ok := clock !in faults;
      clock := clock + 1;
    }

    method Token() returns (token: Name)
      modifies this`clock
      ensures token == TokenAt(old(clock)) && clock == old(clock) + 1
    {
      token := TokenAt(clock);
      clock := clock + 1;
    }

    /** _rename_noreplace_at */
    method RenameNoReplace(source: Name, destination: Name) returns (ok: bool)
      modifies this`clock, this`directory
      ensures ok <==> old(clock) !in faults && source in old(directory) && destination !in old(directory)
      ensures directory == if ok then Renamed(old(directory), source, destination) else old(directory)
      ensures clock == old(clock) + 1
    {
      ok := Attempt();
      if !ok || source !in directory || destination in directory { return false; }
      directory := Renamed(directory, source, destination);
    }

    /** _read_regular_snapshot_at: None is an exception, Some(None) an absent file. */
    method Snapshot(n: Name) returns (r: Option<Option<File>>)
      modifies this`clock
      ensures r == if old(clock) in faults then None else Some(if n in directory then Some(directory[n]) else None)
      ensures clock == old(clock) + 1
    {
      var ok := Attempt();
      if !ok { return None; }
      return Some(if n in directory then Some(directory[n]) else None);
    }

    /** _unlink_owned_at: stat, compare, unlink, then flush the directory; only a failed flush is after the effect. */
    method UnlinkOwned(n: Name, expected: nat) returns (ok: bool)
      requires n in directory && directory[n].inode == expected
      modifies this`clock, this`directory
      ensures ok ==> directory == old(directory) - {n}
      ensures directory in {old(directory), old(directory) - {n}}
      ensures clock <= old(clock) + 3 && old(clock) <= clock
      ensures ok <==> Quiet(old(clock), 3)
    {
      ok := Attempt();
      if !ok || directory[n].inode != expected { return false; }
      ok := Attempt();
      if !ok { return false; }
      directory := directory - {n};
      ok := Attempt();
    }

    // ----------------------------------------------------------------------------------------
    // Steps of the transaction
    // ----------------------------------------------------------------------------------------

    /** The preflight of one output. */
    method Preflight(force: bool) returns (ok: bool)
      requires phase == Fresh && Consistent()
      modifies this`clock, this`original
      ensures Consistent() && old(clock) <= clock
      ensures ok ==> original == (if name in start then Some(start[name]) else None) && (force || name !in start)
      ensures ok <==> PreflightOk(old(clock), force)
      ensures ok ==> clock == old(clock) + 2
    {
      ok := Attempt();   // open the parent directory
      if !ok { return; }
      var snapshot := Snapshot(name);
      if snapshot.None? { return false; }
      if snapshot.value.Some? && !force { return false; }
      original := snapshot.value;
      return true;
    }

    /** Open a new empty file. */
    method CreateExclusive(token: Name)
      requires phase == Fresh && Consistent() && token !in start && token != name
      modifies this`directory, this`nextInode, this`temporaryName, this`phase
      ensures Consistent() && phase == Unidentified && temporaryName == Some(token)
    {
      directory := directory[token := File(nextInode, [])];
      nextInode := nextInode + 1;
      temporaryName := Some(token);
      phase := Unidentified;
    }

    /** Create a temporary name, trying 32 tokens. */
    method CreateTemporary() returns (ok: bool)
      requires phase == Fresh && Consistent()
      modifies this`clock, this`directory, this`nextInode, this`temporaryName, this`phase
      ensures Consistent() && old(clock) <= clock && phase == (if ok then Unidentified else Fresh)
      ensures ok ==> clock >= 2 && FirstFree(old(clock), clock - 2) && clock - 1 !in faults
      ensures ok ==> temporaryName == Some(TokenAt(clock - 2))
      ensures !ok ==> forall m: nat :: FirstFree(old(clock), m) ==> m + 1 in faults
      ensures !ok ==> LastFailed() || TokenAt(old(clock)) in start
    {
      for attempt := 0 to 32
        invariant phase == Fresh && Consistent() && clock == old(clock) + attempt && temporaryName == old(temporaryName)
        invariant forall n: nat :: old(clock) <= n < clock ==> TokenAt(n) in start
        invariant attempt > 0 ==> TokenAt(old(clock)) in start
      {
        var token := Token();
        if token !in directory {
          assert FirstFree(old(clock), clock - 1);
          ok := Attempt();
          if !ok {
            forall m: nat | FirstFree(old(clock), m) ensures m + 1 in faults {
              FirstFreeUnique(old(clock), m, clock - 2);
            }
            return;
          }
          CreateExclusive(token);
          return true;
        }
      }
      return false;
    }

    /** Write the payload, and flush file and directory. */
    method WriteTemporary() returns (ok: bool)
      requires phase == Staged && Consistent()
      modifies this`clock, this`directory
      ensures Consistent() && old(clock) <= clock
      ensures ok <==> Quiet(old(clock), 3)
      ensures if ok then clock == old(clock) + 3 else LastFailed()
      ensures ok ==> directory[temporaryName.value].bytes == payload
    {
      var t := temporaryName.value;
      ok := Attempt();   // write
      if !ok { return; }
      directory := directory[t := File(directory[t].inode, payload)];
      ok := Attempt();   // mode, flush, second fstat
      if !ok { return; }
      ok := Attempt();   // flush the directory
    }

    /** The rest of _allocate_temporary, once the name exists. */
    method FillTemporary() returns (ok: bool)
      requires phase == Unidentified && Consistent()
      modifies this`clock, this`directory, this`temporaryIdentity, this`phase
      ensures Consistent() && old(clock) <= clock && phase == (if old(clock) in faults then Unidentified else Staged)
      ensures ok <==> Quiet(old(clock), 4)
      ensures if ok then clock == old(clock) + 4 else LastFailed()
      ensures ok ==> directory[temporaryName.value].bytes == payload
    {
      ok := Attempt();   // fstat
      if !ok { return; }
      temporaryIdentity := Some(directory[temporaryName.value].inode);
      phase := Staged;
      ok := WriteTemporary();
    }

    /**
      _allocate_temporary.  Exactly when the first fstat fails, the name exists and its identity is
      unknown; every later failure leaves it staged.
    */
    method AllocateTemporary() returns (ok: bool)
      requires phase == Fresh && Consistent()
      modifies this`clock, this`directory, this`nextInode, this`temporaryName, this`temporaryIdentity, this`phase
      ensures Consistent() && old(clock) <= clock && phase in {Fresh, Unidentified, Staged}
      ensures phase == Unidentified <==> FstatFails(old(clock))
      ensures ok <==> AllocationOk(old(clock))
      ensures !ok ==> LastFailed() || TokenAt(old(clock)) in start
      ensures ok ==> clock >= 6 && FirstFree(old(clock), clock - 6) && temporaryName == Some(TokenAt(clock - 6))
      ensures ok ==> phase == Staged && directory[temporaryName.value].bytes == payload
    {
      ok := CreateTemporary();
      if !ok { return; }
      ghost var m := clock - 2;
      forall n: nat | FirstFree(old(clock), n) ensures n == m { FirstFreeUnique(old(clock), n, m); }
      ok := FillTemporary();
    }

    /** _restore_backup; the name is forgotten before the directory is flushed. */
    method RestoreBackup() returns (ok: bool)
      modifies this`clock, this`directory, this`backupName
      ensures old(clock) <= clock
      ensures old(backupName).None? ==> ok && directory == old(directory) && backupName.None? && clock == old(clock)
      ensures old(backupName).Some? ==>
        (ok <==> Quiet(old(clock), 2) && old(backupName).value in old(directory) && name !in old(directory))
      ensures old(backupName).Some? && ok ==> clock == old(clock) + 2
      ensures old(backupName).Some? && ok ==>
        old(backupName).value in old(directory) && name !in old(directory)
        && directory == Renamed(old(directory), old(backupName).value, name) && backupName.None?
      ensures !ok ==> directory == old(directory)
                      || (old(backupName).Some? && old(backupName).value in old(directory) && name !in old(directory)
                          && directory == Renamed(old(directory), old(backupName).value, name))
    {
      if backupName.None? { return true; }
      ok := RenameNoReplace(backupName.value, name);
      if !ok { return; }
      backupName := None;
      ok := Attempt();
    }

    /** The first half of installing: move an existing preset to a backup name and check it. */
    method BackUp() returns (ok: bool)
      requires phase == Staged && Consistent() && original == (if name in start then Some(start[name]) else None)
      modifies this`clock, this`directory, this`backupName, this`phase, this`backupClock
      ensures Consistent() && old(clock) <= clock && temporaryName == old(temporaryName)
      ensures temporaryName.value in directory && directory[temporaryName.value] == old(directory[temporaryName.value])
      ensures phase in {Staged, BackupAnnounced, BackedUp}
      ensures ok ==> phase == (if name in start then BackedUp else Staged)
      ensures phase == BackupAnnounced <==> BackupFails(old(clock), temporaryName.value)
      ensures ok <==> BackupOk(old(clock), temporaryName.value)
      ensures !ok ==> LastFailed() || TokenAt(old(clock)) in start || TokenAt(old(clock)) == temporaryName.value
      ensures BackupDrawn()
      ensures ok ==> clock == old(clock) + if name in start then 3 else 0
    {
      if original.None? { return true; }
      var token := Token();
      backupName, backupClock := Some(token), clock - 1;
      phase := BackupAnnounced;
      ok := RenameNoReplace(name, token);
      if !ok { return; }
      phase := BackedUp;
      assert directory == Renamed(start, name, token)[temporaryName.value := directory[temporaryName.value]];
      var snapshot := Snapshot(token);
      if snapshot.None? { return false; }
      // The file renamed is the one read before, so the script's comparison cannot fail here.
      assert snapshot.value == original;
    }

    /** The second half: rename the temporary file to its destination. */
    method InstallTemporary() returns (ok: bool)
      requires Consistent() && phase == (if name in start then BackedUp else Staged)
      requires directory[temporaryName.value].bytes == payload
      modifies this`clock, this`directory, this`temporaryName, this`installedIdentity, this`phase
      ensures Consistent() && old(clock) <= clock && phase in {old(phase), Installed}
      ensures ok ==> phase == Installed
      ensures ok <==> old(clock) !in faults && old(clock) + 1 !in faults
      ensures !ok ==> LastFailed()
    {
      ghost var t := temporaryName.value;
      ghost var before := directory;
      ok := RenameNoReplace(temporaryName.value, name);
      if !ok { return; }
      installedIdentity := temporaryIdentity;
      temporaryName := None;
      phase := Installed;
      InstalledDirectory(before, t);
      ok := Attempt();   // flush the directory
    }

    /** One turn of the publishing loop: back up, then install. */
    method Install() returns (ok: bool)
      requires phase == Staged && Consistent() && original == (if name in start then Some(start[name]) else None)
      requires directory[temporaryName.value].bytes == payload
      modifies this`clock, this`directory, this`backupName, this`temporaryName, this`installedIdentity, this`phase,
        this`backupClock
      ensures Consistent() && phase in {Staged, BackupAnnounced, BackedUp, Installed} && old(clock) <= clock
      ensures ok ==> phase == Installed
      ensures phase == BackupAnnounced <==> BackupFails(old(clock), old(temporaryName.value))
      ensures ok <==> InstallOk(old(clock), old(temporaryName.value))
      ensures !ok ==>
        LastFailed() || TokenAt(old(clock)) in start || TokenAt(old(clock)) == old(temporaryName.value)
      ensures BackupDrawn()
    {
      ok := BackUp();
      if ok { ok := InstallTemporary(); }
    }

    /** Install for an output whose allocation began at c and went through. */
    method InstallSince(ghost c: nat) returns (ok: bool)
      requires phase == Staged && Consistent() && original == (if name in start then Some(start[name]) else None)
      requires directory[temporaryName.value].bytes == payload
      requires clock >= 6 && FirstFree(c, clock - 6) && temporaryName == Some(TokenAt(clock - 6))
      modifies this`clock, this`directory, this`backupName, this`temporaryName, this`installedIdentity, this`phase,
        this`backupClock
      ensures Consistent() && phase in {Staged, BackupAnnounced, BackedUp, Installed} && old(clock) <= clock
      ensures ok ==> phase == Installed
      ensures ok <==> InstallGoes(c)
      ensures phase == BackupAnnounced <==> BackupStuck(c)
      ensures !ok && NewTokens(c) ==> LastFailed()
      ensures BackupDrawn()
    {
      InstallPlan(c, clock - 6);
      ok := Install();
    }

    lemma InstalledDirectory(before: Directory, t: Name)
      requires t in before && t !in start && t != name && name !in before
      requires directory == Renamed(before, t, name)
      requires if name in start
               then backupName.Some? && backupName.value !in start && backupName.value != t
                    && before == Renamed(start, name, backupName.value)[t := before[t]]
               else before == start[t := before[t]]
      ensures directory ==
        if name in start then Renamed(start, name, backupName.value)[name := before[t]] else start[name := before[t]]
    {}

    /** The verification before the commit. */
    method VerifyInstalled() returns (ok: bool)
      requires phase == Installed && Consistent()
      modifies this`clock
      ensures Consistent() && old(clock) <= clock
      ensures ok <==> Quiet(old(clock), 2)
      ensures !ok ==> LastFailed()
    {
      ok := Attempt();   // reopen the parent directory
      if !ok { return; }
      var snapshot := Snapshot(name);
      if snapshot.None? { return false; }
      assert snapshot.value == Some(directory[name]);
      ok := snapshot.value.Some? && Some(snapshot.value.value.inode) == installedIdentity
            && snapshot.value.value.bytes == payload;
    }

    /** Removal of the backup after the commit; on failure the new preset is in place and only the backup may remain. */
    method CleanUp() returns (ok: bool)
      requires phase == Installed && Consistent() && original == (if name in start then Some(start[name]) else None)
      modifies this`clock, this`directory, this`backupName, this`phase
      ensures old(clock) <= clock
      ensures ok ==> phase == Committed && Consistent()
      ensures name in directory && directory[name].bytes == payload
      ensures directory - {name} == start - {name}
              || (!ok && name in start
                  && exists b :: b !in start && directory - {name} == (start - {name})[b := start[name]])
      ensures ok <==> name in start ==> Quiet(old(clock), 3)
    {
      if backupName.None? || original.None? {
        phase := Committed;
        return true;
      }
      ghost var b := backupName.value;
      assert directory - {name} == (start - {name})[b := start[name]];
      ok := UnlinkOwned(backupName.value, original.value.inode);
      if !ok { return; }
      backupName := None;
      phase := Committed;
    }

    // ----------------------------------------------------------------------------------------
    // Rollback of one output
    // ----------------------------------------------------------------------------------------

    /** The directory without the installed preset and its quarantine name. */
    ghost predicate SetAside(quarantine: Name)
      reads this
    {
      && quarantine in directory && installedIdentity.None?
      && (if name in start
          then backupName.Some? && backupName.value !in start && backupName.value != quarantine
               && quarantine !in Renamed(start, name, backupName.value)
               && directory == Renamed(start, name, backupName.value)[quarantine := directory[quarantine]]
          else backupName.None? && quarantine !in start && directory == start[quarantine := directory[quarantine]])
      && quarantine != name
    }

    /** An installed preset is moved aside and checked. */
    method Quarantine() returns (ok: bool, quarantine: Name, identity: nat)
      requires phase == Installed && Consistent()
      modifies this`clock, this`directory, this`installedIdentity
      ensures Kept()
      ensures ok ==> SetAside(quarantine) && directory[quarantine].inode == identity && clock == old(clock) + 3
      ensures ok <==> TokenAt(old(clock)) !in old(directory) && Quiet(old(clock) + 1, 2)
    {
      ConsistentKeeps();
      ghost var installed := directory;
      identity := 0;
      quarantine := Token();
      ok := RenameNoReplace(name, quarantine);
      if !ok { return; }
      assert Kept() by { if name in start { assert directory[backupName.value] == start[name]; } }
      var snapshot := Snapshot(quarantine);
      if snapshot.None? { return false, quarantine, identity; }
      // The script restores a preset it does not recognise; without another writer it is always its own.
      assert Some(snapshot.value.value.inode) == installedIdentity && snapshot.value.value.bytes == payload;
      identity := snapshot.value.value.inode;
      installedIdentity := None;
      assert directory ==
             (if name in start then Renamed(start, name, backupName.value) else start)[quarantine := installed[name]];
    }

    lemma RestoredDirectory(before: Directory, extra: Name, backup: Name)
      requires name in start && backup !in start && extra != backup && extra != name && extra !in start
      requires extra in before
      requires before == Renamed(start, name, backup)[extra := before[extra]]
      ensures backup in before && Renamed(before, backup, name) == start[extra := before[extra]]
    {}

    lemma KeptBeside(extra: Name)
      requires extra !in start && extra in directory && directory == start[extra := directory[extra]]
      ensures Kept() && directory - {extra} == start
    {
      if name in start { assert directory[name] == start[name]; }
      assert directory - {extra} == start;
    }

    /** The backup returns to its name and the quarantined file is removed. */
    method FinishWithdrawal(quarantine: Name, identity: nat) returns (ok: bool)
      requires SetAside(quarantine) && directory[quarantine].inode == identity && Kept()
      modifies this`clock, this`directory, this`backupName
      ensures ok ==> directory == start
      ensures ok <==> Quiet(old(clock), if name in start then 5 else 3)
      ensures Kept()
    {
      ghost var aside := directory;
      if name in start { RestoredDirectory(directory, quarantine, backupName.value); }
      ok := RestoreBackup();
      if directory == start[quarantine := aside[quarantine]] { KeptBeside(quarantine); }
      if !ok { return; }
      ok := UnlinkOwned(quarantine, identity);
      assert Kept() by { if name in start { assert directory[name] == start[name]; } }
    }

    method WithdrawInstalled() returns (ok: bool)
      requires phase == Installed && Consistent()
      modifies this`clock, this`directory, this`installedIdentity, this`backupName
      ensures ok ==> directory == start
      ensures ok <==> old(RollsBack())
      ensures Kept()
    {
      var quarantine: Name, identity: nat;
      ok, quarantine, identity := Quarantine();
      if ok {
        ok := FinishWithdrawal(quarantine, identity);
      }
    }

    /** An output that is not installed gets its backup back and loses its temporary file. */
    method WithdrawStaged() returns (ok: bool)
      requires phase in {Fresh, Unidentified, Staged, BackupAnnounced, BackedUp} && Consistent()
      modifies this`clock, this`directory, this`backupName, this`temporaryName
      ensures ok ==> if old(phase) == Unidentified then HiddenTemporary() else Restored()
      ensures old(phase) == BackupAnnounced ==> !ok && StuckTemporary()
      ensures old(phase) in {Fresh, Unidentified} ==> ok && directory == old(directory)
      ensures ok <==> old(RollsBack())
      ensures Kept()
    {
      ConsistentKeeps();
      ghost var before := directory;
      ok := RestoreBackup();
      if name in start && directory != before { assert directory[name] == start[name]; }
      if !ok { return; }
      assert phase == Unidentified ==> directory - {temporaryName.value} == start;
      assert phase == BackedUp ==> directory == start[temporaryName.value := before[temporaryName.value]];
      assert name in start ==> directory[name] == start[name];
      if temporaryName.Some? && temporaryIdentity.Some? {
        ghost var t := temporaryName.value;
        ok := UnlinkOwned(temporaryName.value, temporaryIdentity.value);
        assert name in start ==> directory[name] == start[name];
        if !ok { return; }
        temporaryName := None;
        assert directory == start;
      }
    }

    /** One turn of _rollback_outputs. */
    method RollBack() returns (ok: bool)
      requires phase in {Fresh, Unidentified, Staged, BackupAnnounced, BackedUp, Installed} && Consistent()
      modifies this
      ensures phase == Abandoned && Kept()
      ensures ok ==> if old(phase) == Unidentified then HiddenTemporary() else Restored()
      ensures old(phase) in {Fresh, Unidentified} ==> ok && directory == old(directory)
      // A rename to the backup name that failed is always reported; it has moved nothing, but the
      // temporary file is left, because the rename back from that name raises before it is removed.
      ensures old(phase) == BackupAnnounced ==> !ok && StuckTemporary()
      ensures ok <==> old(RollsBack())
    {
      if installedIdentity.Some? {
        ok := WithdrawInstalled();
      } else {
        ok := WithdrawStaged();
      }
      phase := Abandoned;
    }
  }

  /**
    A failure after which the script's rollback reports success and the directory still has a new
    name: the temporary file is created, and the fstat that would identify it fails.
  */
  method UnidentifiedTemporarySurvives(o: Output)
    requires o.phase == Fresh && o.Consistent() && o.FstatFails(o.clock)
    modifies o
    ensures o.HiddenTemporary() && !o.Restored()
  {
    var complete := o.AllocateTemporary();
    assert o.phase == Unidentified && o.temporaryName.value in o.directory;
    ghost var left := o.temporaryName.value;
    var rolledBack := o.RollBack();
    assert rolledBack && left in o.directory && left !in o.start;
  }
}
